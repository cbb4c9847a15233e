/** The Python dict behind Pipe.diz, as a value: keys in first-insertion
    order plus the key-to-value map. Assigning to a key that is already
    present replaces its value and keeps its position. */
module OrderedDict {

  datatype Dict = Dict(order: seq<string>, entries: map<string, string>)

  const EMPTY: Dict := Dict([], map[])

  /** One write `d[key] = value`. */
  datatype Write = Write(key: string, value: string)

  predicate Distinct(s: seq<string>) {
    forall i, j :: 0 <= i < j < |s| ==> s[i] != s[j]
  }

  /** The order lists every key of the map exactly once. */
  ghost predicate Valid(d: Dict) {
    Distinct(d.order) && forall k :: k in d.order <==> k in d.entries
  }

  /** `d[key] = value`. */
  function Put(d: Dict, key: string, value: string): Dict {
    Dict(if key in d.entries then d.order else d.order + [key], d.entries[key := value])
  }

  /** The writes applied one after the other, first to last. */
  function PutAll(d: Dict, writes: seq<Write>): Dict
    decreases |writes|
  {
    if writes == [] then d
    else
      var last := writes[|writes| - 1];
      Put(PutAll(d, writes[..|writes| - 1]), last.key, last.value)
  }

  /** `list(d.values())`: one value per entry, in the order of the keys. */
  function Values(d: Dict): (vs: seq<string>)
    requires Valid(d)
    ensures |vs| == |d.order| == |d.entries|
  {
    ValidCard(d);
    seq(|d.order|, i requires 0 <= i < |d.order| => d.entries[d.order[i]])
  }

  /** The i-th value listed is the value of the i-th key, so every value
      held is listed and nothing else is. */
  lemma ValuesListed(d: Dict)
    requires Valid(d)
    ensures forall i :: 0 <= i < |Values(d)| ==> d.order[i] in d.entries && Values(d)[i] == d.entries[d.order[i]]
    ensures forall k :: k in d.entries ==> d.entries[k] in Values(d)
  {
    assert forall k :: k in d.entries ==> d.entries[k] == Values(d)[FirstIndex(d.order, k)];
  }

  function Keys(writes: seq<Write>): seq<string> {
    seq(|writes|, i requires 0 <= i < |writes| => writes[i].key)
  }

  /** No write after the i-th one writes its key again. */
  predicate LastWithKey(writes: seq<Write>, i: nat)
    requires i < |writes|
  {
    forall j :: i < j < |writes| ==> writes[j].key != writes[i].key
  }

  /** Position of the first occurrence of x in s. */
  function FirstIndex(s: seq<string>, x: string): (i: nat)
    requires x in s
    ensures i < |s| && s[i] == x && x !in s[..i]
  {
    if s[0] == x then 0 else 1 + FirstIndex(s[1..], x)
  }

  // ---------------------------------------------------------------------

  /** A single write keeps the dict well formed, sets the key, leaves
      every other key's presence and value alone, and adds a position only
      for a new key. */
  lemma PutFacts(d: Dict, key: string, value: string)
    ensures Valid(d) ==> Valid(Put(d, key, value))
    ensures key in Put(d, key, value).entries && Put(d, key, value).entries[key] == value
    ensures forall k :: k != key ==>
      (k in Put(d, key, value).entries <==> k in d.entries) &&
      (k in d.entries ==> Put(d, key, value).entries[k] == d.entries[k])
    ensures |Put(d, key, value).order| == |d.order| + (if key in d.entries then 0 else 1)
  {
  }

  /** Writing one more applies it last. */
  lemma PutAllSnoc(d: Dict, writes: seq<Write>, w: Write)
    ensures PutAll(d, writes + [w]) == Put(PutAll(d, writes), w.key, w.value)
  {
    assert (writes + [w])[..|writes|] == writes;
  }

  lemma KeysPrefix(writes: seq<Write>)
    requires writes != []
    ensures Keys(writes) == Keys(writes[..|writes| - 1]) + [writes[|writes| - 1].key]
  {
  }

  /** Writing keeps the dict well formed. */
  lemma {:induction false} PutAllValid(d: Dict, writes: seq<Write>)
    requires Valid(d)
    ensures Valid(PutAll(d, writes))
    decreases |writes|
  {
    if writes != [] {
      PutAllValid(d, writes[..|writes| - 1]);
      var last := writes[|writes| - 1];
      PutFacts(PutAll(d, writes[..|writes| - 1]), last.key, last.value);
    }
  }

  /** The keys afterwards are the keys before plus the keys written. */
  lemma {:induction false} PutAllKeys(d: Dict, writes: seq<Write>)
    ensures forall k :: k in PutAll(d, writes).entries <==> k in d.entries || k in Keys(writes)
    decreases |writes|
  {
    if writes != [] {
      PutAllKeys(d, writes[..|writes| - 1]);
      KeysPrefix(writes);
    }
  }

  /** A key that is not written keeps its old value (or stays absent). */
  lemma {:induction false} PutAllUntouched(d: Dict, writes: seq<Write>, k: string)
    requires k !in Keys(writes)
    ensures k in PutAll(d, writes).entries <==> k in d.entries
    ensures k in d.entries ==> PutAll(d, writes).entries[k] == d.entries[k]
    decreases |writes|
  {
    if writes != [] {
      KeysPrefix(writes);
      PutAllUntouched(d, writes[..|writes| - 1], k);
    }
  }

  /** Later writes overwrite earlier ones: a key holds the value of the
      last write to it. */
  lemma {:induction false} PutAllLastWrite(d: Dict, writes: seq<Write>, i: nat)
    requires i < |writes|
    requires forall j :: i < j < |writes| ==> writes[j].key != writes[i].key
    ensures writes[i].key in PutAll(d, writes).entries
    ensures PutAll(d, writes).entries[writes[i].key] == writes[i].value
    decreases |writes|
  {
    var n := |writes|;
    if i < n - 1 {
      PutAllLastWrite(d, writes[..n - 1], i);
    }
  }

  /** Starting from an empty dict, the key order is that of first writes:
      every written key appears once, and keys whose first write comes
      earlier come earlier. */
  lemma PutAllOrder(writes: seq<Write>)
    ensures var d := PutAll(EMPTY, writes);
      && Distinct(d.order)
      && (forall k :: k in d.order <==> k in Keys(writes))
      && (forall a, b :: 0 <= a < b < |d.order| ==>
            FirstIndex(Keys(writes), d.order[a]) < FirstIndex(Keys(writes), d.order[b]))
  {
    PutAllValid(EMPTY, writes);
    FirstWriteOrder(writes);
  }

  /** o lists exactly the keys of ks, ordered by their first position in ks. */
  ghost predicate OrderedByFirstWrite(ks: seq<string>, o: seq<string>) {
    && (forall k :: k in o <==> k in ks)
    && (forall a, b :: 0 <= a < b < |o| ==> FirstIndex(ks, o[a]) < FirstIndex(ks, o[b]))
  }

  lemma {:induction false} FirstWriteOrder(writes: seq<Write>)
    ensures OrderedByFirstWrite(Keys(writes), PutAll(EMPTY, writes).order)
    decreases |writes|
  {
    if writes != [] {
      var prev := writes[..|writes| - 1];
      FirstWriteOrder(prev);
      LastWriteOrder(writes);
      OrderStep(Keys(prev), writes[|writes| - 1].key, PutAll(EMPTY, prev).order);
    }
  }

  /** From an empty dict, the last write adds its key to the order exactly
      when no earlier write used it. */
  lemma LastWriteOrder(writes: seq<Write>)
    requires writes != []
    ensures Keys(writes) == Keys(writes[..|writes| - 1]) + [writes[|writes| - 1].key]
    ensures PutAll(EMPTY, writes).order ==
      if writes[|writes| - 1].key in Keys(writes[..|writes| - 1]) then PutAll(EMPTY, writes[..|writes| - 1]).order
      else PutAll(EMPTY, writes[..|writes| - 1]).order + [writes[|writes| - 1].key]
  {
    PutAllKeys(EMPTY, writes[..|writes| - 1]);
    KeysPrefix(writes);
  }

  /** The order step of one write: a key already written keeps the order,
      a new key goes last and its first write is the last one. */
  lemma OrderStep(pk: seq<string>, key: string, po: seq<string>)
    requires OrderedByFirstWrite(pk, po)
    ensures OrderedByFirstWrite(pk + [key], if key in pk then po else po + [key])
  {
    var ks := pk + [key];
    forall k | k in pk
      ensures k in ks && FirstIndex(ks, k) == FirstIndex(pk, k)
    {
      FirstIndexAppend(pk, key, k);
    }
    if key !in pk {
      var o := po + [key];
      LastNewIndex(pk, key);
      forall a, b | 0 <= a < b < |o| ensures FirstIndex(ks, o[a]) < FirstIndex(ks, o[b]) {
        assert o[a] == po[a];
        if b < |po| {
          assert o[b] == po[b];
        }
      }
    }
  }

  lemma {:induction false} FirstIndexAppend(s: seq<string>, y: string, x: string)
    requires x in s
    ensures x in s + [y] && FirstIndex(s + [y], x) == FirstIndex(s, x)
  {
    if s[0] != x {
      assert (s + [y])[1..] == s[1..] + [y];
      FirstIndexAppend(s[1..], y, x);
    }
  }

  lemma {:induction false} LastNewIndex(s: seq<string>, y: string)
    requires y !in s
    ensures y in s + [y] && FirstIndex(s + [y], y) == |s|
  {
    if s != [] {
      assert (s + [y])[1..] == s[1..] + [y];
      LastNewIndex(s[1..], y);
    }
  }

  lemma {:induction false} DistinctCard(s: seq<string>)
    requires Distinct(s)
    ensures |set x | x in s| == |s|
  {
    if s != [] {
      var t := s[..|s| - 1];
      DistinctCard(t);
      assert (set x | x in s) == (set x | x in t) + {s[|s| - 1]};
    }
  }

  /** The keys of `writes` are pairwise distinct exactly when those of
      all but the last write are and the last key is new. */
  lemma DistinctKeysStep(writes: seq<Write>)
    requires writes != []
    ensures Distinct(Keys(writes)) <==>
      Distinct(Keys(writes[..|writes| - 1])) && writes[|writes| - 1].key !in Keys(writes[..|writes| - 1])
  {
    var n := |writes|;
    var ks, pk := Keys(writes), Keys(writes[..n - 1]);
    KeysPrefix(writes);
    assert ks == pk + [writes[n - 1].key];
    if Distinct(ks) {
      forall i, j | 0 <= i < j < n - 1 ensures pk[i] != pk[j] {
        assert pk[i] == ks[i] && pk[j] == ks[j];
      }
      forall i | 0 <= i < n - 1 ensures pk[i] != writes[n - 1].key {
        assert pk[i] == ks[i] && ks[n - 1] == writes[n - 1].key;
        assert ks[i] != ks[n - 1];
      }
    }
  }

  /** A well-formed dict has as many entries as keys in its order. */
  lemma ValidCard(d: Dict)
    requires Valid(d)
    ensures |d.entries| == |d.order|
  {
    DistinctCard(d.order);
    assert d.entries.Keys == set x | x in d.order;
  }

  /** From an empty dict, n writes leave at most n entries, and exactly n
      when the written keys are pairwise distinct. */
  lemma PutAllSize(writes: seq<Write>)
    ensures |PutAll(EMPTY, writes).order| <= |writes|
    ensures |PutAll(EMPTY, writes).entries| == |PutAll(EMPTY, writes).order|
    ensures |PutAll(EMPTY, writes).order| == |writes| <==> Distinct(Keys(writes))
  {
    PutAllValid(EMPTY, writes);
    ValidCard(PutAll(EMPTY, writes));
    OrderLength(writes);
  }

  lemma {:induction false} OrderLength(writes: seq<Write>)
    ensures |PutAll(EMPTY, writes).order| <= |writes|
    ensures |PutAll(EMPTY, writes).order| == |writes| <==> Distinct(Keys(writes))
    decreases |writes|
  {
    if writes != [] {
      var n := |writes|;
      var prev := writes[..n - 1];
      OrderLength(prev);
      LastWriteOrder(writes);
      DistinctKeysStep(writes);
    }
  }

  /** The values listed from the dict built by `writes`: at most one per
      write, each the last value written to its key, in first-write order. */
  lemma ValuesOfWrites(writes: seq<Write>)
    ensures Valid(PutAll(EMPTY, writes))
    ensures |Values(PutAll(EMPTY, writes))| <= |writes|
    ensures |Values(PutAll(EMPTY, writes))| == |writes| <==> Distinct(Keys(writes))
    ensures forall i :: 0 <= i < |writes| && LastWithKey(writes, i) ==> writes[i].value in Values(PutAll(EMPTY, writes))
  {
    PutAllValid(EMPTY, writes);
    PutAllSize(writes);
    var d := PutAll(EMPTY, writes);
    forall i | 0 <= i < |writes| && LastWithKey(writes, i)
      ensures writes[i].value in Values(d)
    {
      PutAllLastWrite(EMPTY, writes, i);
      var a := FirstIndex(d.order, writes[i].key);
      assert Values(d)[a] == writes[i].value;
    }
  }
}
