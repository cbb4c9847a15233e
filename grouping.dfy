/** Group-by and sort, the table operations dec/statistics.py takes from
    pandas, over sequences of (key, weight) rows. */
module Grouping {

  /** Some row of `rows` has key k. */
  predicate HasKey<K(==)>(rows: seq<(K, nat)>, k: K) {
    exists i :: 0 <= i < |rows| && rows[i].0 == k
  }

  predicate DistinctKeys<K(==)>(rows: seq<(K, nat)>) {
    forall i, j :: 0 <= i < j < |rows| ==> rows[i].0 != rows[j].0
  }

  /** Sum of all weights. */
  function Total<K>(rows: seq<(K, nat)>): nat {
    if rows == [] then 0 else rows[0].1 + Total(rows[1..])
  }

  /** Sum of the weights of the rows with key k. */
  function WeightOf<K(==)>(rows: seq<(K, nat)>, k: K): nat {
    if rows == [] then 0
    else (if rows[0].0 == k then rows[0].1 else 0) + WeightOf(rows[1..], k)
  }

  /** Adds weight w to the row with key k, or appends a row for k. */
  function Add<K(==)>(rows: seq<(K, nat)>, k: K, w: nat): seq<(K, nat)> {
    if rows == [] then [(k, w)]
    else if rows[0].0 == k then [(k, rows[0].1 + w)] + rows[1..]
    else [rows[0]] + Add(rows[1..], k, w)
  }

  lemma {:induction false} AppendFacts<K>(rows: seq<(K, nat)>, x: (K, nat))
    ensures Total(rows + [x]) == Total(rows) + x.1
    ensures forall k :: WeightOf(rows + [x], k) == WeightOf(rows, k) + (if x.0 == k then x.1 else 0)
    ensures forall k :: HasKey(rows + [x], k) <==> HasKey(rows, k) || k == x.0
  {
    if rows != [] {
      assert (rows + [x])[1..] == rows[1..] + [x];
      AppendFacts(rows[1..], x);
      assert (rows + [x])[|rows|] == x;
      forall k | HasKey(rows, k) ensures HasKey(rows + [x], k) {
        var i :| 0 <= i < |rows| && rows[i].0 == k;
        assert (rows + [x])[i] == rows[i];
      }
      forall k | HasKey(rows + [x], k) && k != x.0 ensures HasKey(rows, k) {
        var i :| 0 <= i < |rows| + 1 && (rows + [x])[i].0 == k;
        if i == 0 {
          assert rows[0].0 == k;
        } else {
          assert (rows[1..] + [x])[i - 1].0 == k;
          assert HasKey(rows[1..], k);
          var j :| 0 <= j < |rows| - 1 && rows[1..][j].0 == k;
          assert rows[j + 1].0 == k;
        }
      }
    } else {
      assert forall k :: HasKey([x], k) <==> k == x.0 by {
        assert [x][0].0 == x.0;
      }
    }
  }

  lemma HasKeyCons<K>(rows: seq<(K, nat)>, k: K)
    requires rows != []
    ensures HasKey(rows, k) <==> rows[0].0 == k || HasKey(rows[1..], k)
  {
    if HasKey(rows[1..], k) {
      var j :| 0 <= j < |rows| - 1 && rows[1..][j].0 == k;
      assert rows[j + 1].0 == k;
    }
    if HasKey(rows, k) && rows[0].0 != k {
      var i :| 0 <= i < |rows| && rows[i].0 == k;
      assert rows[1..][i - 1].0 == k;
    }
  }

  /** Adding keeps the keys distinct, adds the key, adds w to k's weight
      and to the total. */
  lemma {:induction false} AddFacts<K>(rows: seq<(K, nat)>, k: K, w: nat)
    ensures forall k' :: HasKey(Add(rows, k, w), k') <==> HasKey(rows, k') || k' == k
    ensures forall k' :: WeightOf(Add(rows, k, w), k') == WeightOf(rows, k') + (if k' == k then w else 0)
    ensures Total(Add(rows, k, w)) == Total(rows) + w
    ensures DistinctKeys(rows) ==> DistinctKeys(Add(rows, k, w))
  {
    var r := Add(rows, k, w);
    if rows == [] {
      assert forall k' :: HasKey(r, k') <==> k' == k by {
        assert r[0].0 == k;
      }
    } else if rows[0].0 == k {
      assert r[1..] == rows[1..];
      forall k' ensures HasKey(r, k') <==> HasKey(rows, k') || k' == k {
        HasKeyCons(r, k');
        HasKeyCons(rows, k');
      }
    } else {
      AddFacts(rows[1..], k, w);
      assert r[1..] == Add(rows[1..], k, w);
      forall k' ensures HasKey(r, k') <==> HasKey(rows, k') || k' == k {
        HasKeyCons(r, k');
        HasKeyCons(rows, k');
      }
      if DistinctKeys(rows) {
        assert DistinctKeys(rows[1..]) by {
          forall i, j | 0 <= i < j < |rows| - 1 ensures rows[1..][i].0 != rows[1..][j].0 {
            assert rows[1..][i] == rows[i + 1] && rows[1..][j] == rows[j + 1];
          }
        }
        assert !HasKey(rows[1..], rows[0].0) by {
          forall j | 0 <= j < |rows| - 1 ensures rows[1..][j].0 != rows[0].0 {
            assert rows[1..][j] == rows[j + 1];
          }
        }
        forall i | 1 <= i < |r| ensures r[0].0 != r[i].0 {
          assert r[1..][i - 1] == r[i];
          assert HasKey(r[1..], r[i].0);
        }
        forall i, j | 1 <= i < j < |r| ensures r[i].0 != r[j].0 {
          assert r[1..][i - 1] == r[i] && r[1..][j - 1] == r[j];
        }
      }
    }
  }

  /** In rows with distinct keys, a row's weight is the weight of its key. */
  lemma {:induction false} RowWeight<K>(rows: seq<(K, nat)>, i: nat)
    requires DistinctKeys(rows) && i < |rows|
    ensures rows[i].1 == WeightOf(rows, rows[i].0)
  {
    if i == 0 {
      WeightAbsent(rows[1..], rows[0].0);
    } else {
      assert DistinctKeys(rows[1..]) by {
        forall a, b | 0 <= a < b < |rows| - 1 ensures rows[1..][a].0 != rows[1..][b].0 {
          assert rows[1..][a] == rows[a + 1] && rows[1..][b] == rows[b + 1];
        }
      }
      RowWeight(rows[1..], i - 1);
    }
  }

  lemma {:induction false} WeightAbsent<K>(rows: seq<(K, nat)>, k: K)
    requires !HasKey(rows, k)
    ensures WeightOf(rows, k) == 0
  {
    if rows != [] {
      HasKeyCons(rows, k);
      WeightAbsent(rows[1..], k);
    }
  }

  /** `groupby(key).sum()`: one row per key that occurs, in order of first
      occurrence, carrying the sum of that key's weights. */
  function SumBy<K(==,!new)>(items: seq<(K, nat)>): (rows: seq<(K, nat)>)
    ensures DistinctKeys(rows)
    ensures forall k :: HasKey(rows, k) <==> HasKey(items, k)
    ensures forall k :: WeightOf(rows, k) == WeightOf(items, k)
    ensures Total(rows) == Total(items)
    decreases |items|
  {
    if items == [] then []
    else
      var prev := items[..|items| - 1];
      var x := items[|items| - 1];
      var rest := SumBy(prev);
      AddFacts(rest, x.0, x.1);
      assert items == prev + [x];
      AppendFacts(prev, x);
      Add(rest, x.0, x.1)
  }

  /** Every row of a grouping carries the full weight of its key. */
  lemma SumByRows<K(!new)>(items: seq<(K, nat)>)
    ensures forall i :: 0 <= i < |SumBy(items)| ==> SumBy(items)[i].1 == WeightOf(items, SumBy(items)[i].0)
  {
    forall i | 0 <= i < |SumBy(items)| ensures SumBy(items)[i].1 == WeightOf(items, SumBy(items)[i].0) {
      RowWeight(SumBy(items), i);
    }
  }

  // ---------------------------------------------------------------------
  // sort_values(by=weight, ascending=False)

  predicate NonIncreasing<K>(rows: seq<(K, nat)>) {
    forall i, j :: 0 <= i < j < |rows| ==> rows[i].1 >= rows[j].1
  }

  function Insert<K(==)>(x: (K, nat), rows: seq<(K, nat)>): (r: seq<(K, nat)>)
    ensures |r| == |rows| + 1
    ensures multiset(r) == multiset(rows) + multiset{x}
  {
    if rows == [] then [x]
    else if x.1 >= rows[0].1 then [x] + rows
    else
      assert rows == [rows[0]] + rows[1..];
      [rows[0]] + Insert(x, rows[1..])
  }

  lemma {:induction false} InsertBounded<K>(x: (K, nat), rows: seq<(K, nat)>, b: nat)
    requires x.1 <= b && forall i :: 0 <= i < |rows| ==> rows[i].1 <= b
    ensures forall i :: 0 <= i < |Insert(x, rows)| ==> Insert(x, rows)[i].1 <= b
  {
    if rows != [] && x.1 < rows[0].1 {
      InsertBounded(x, rows[1..], b);
      var r := Insert(x, rows);
      assert r == [rows[0]] + Insert(x, rows[1..]);
    }
  }

  lemma {:induction false} InsertSorted<K>(x: (K, nat), rows: seq<(K, nat)>)
    requires NonIncreasing(rows)
    ensures NonIncreasing(Insert(x, rows))
  {
    if rows != [] && x.1 < rows[0].1 {
      var rest := rows[1..];
      assert NonIncreasing(rest) by {
        forall i, j | 0 <= i < j < |rest| ensures rest[i].1 >= rest[j].1 {
          assert rest[i] == rows[i + 1] && rest[j] == rows[j + 1];
        }
      }
      forall i | 0 <= i < |rest| ensures rest[i].1 <= rows[0].1 {
        assert rest[i] == rows[i + 1];
      }
      var tail := Insert(x, rest);
      InsertSorted(x, rest);
      InsertBounded(x, rest, rows[0].1);
      var r := Insert(x, rows);
      assert r == [rows[0]] + tail;
      forall i, j | 0 <= i < j < |r| ensures r[i].1 >= r[j].1 {
        assert r[j] == tail[j - 1];
        if i > 0 {
          assert r[i] == tail[i - 1];
        }
      }
    }
  }

  /** Sorted by weight, largest first; a permutation of the input. */
  function SortByWeightDesc<K(==)>(rows: seq<(K, nat)>): (r: seq<(K, nat)>)
    ensures |r| == |rows|
    ensures multiset(r) == multiset(rows)
    ensures NonIncreasing(r)
  {
    if rows == [] then []
    else
      assert rows == [rows[0]] + rows[1..];
      InsertSorted(rows[0], SortByWeightDesc(rows[1..]));
      Insert(rows[0], SortByWeightDesc(rows[1..]))
  }

  /** A permutation of rows with distinct keys has the same keys, still
      distinct. */
  lemma PermutationKeys<K>(a: seq<(K, nat)>, b: seq<(K, nat)>)
    requires multiset(a) == multiset(b) && DistinctKeys(a)
    ensures DistinctKeys(b)
    ensures forall k :: HasKey(a, k) <==> HasKey(b, k)
  {
    forall k | HasKey(a, k) ensures HasKey(b, k) {
      var i :| 0 <= i < |a| && a[i].0 == k;
      assert a[i] in multiset(b);
      var j :| 0 <= j < |b| && b[j] == a[i];
    }
    forall k | HasKey(b, k) ensures HasKey(a, k) {
      var i :| 0 <= i < |b| && b[i].0 == k;
      assert b[i] in multiset(a);
      var j :| 0 <= j < |a| && a[j] == b[i];
    }
    forall i, j | 0 <= i < j < |b| ensures b[i].0 != b[j].0 {
      if b[i] == b[j] {
        TwiceInMultiset(b, i, j);
        OnceInMultiset(a, b[i]);
      } else {
        assert b[i] in multiset(a) && b[j] in multiset(a);
        var p :| 0 <= p < |a| && a[p] == b[i];
        var q :| 0 <= q < |a| && a[q] == b[j];
      }
    }
  }

  lemma TwiceInMultiset<T>(s: seq<T>, i: nat, j: nat)
    requires i < j < |s| && s[i] == s[j]
    ensures multiset(s)[s[i]] >= 2
  {
    var x := s[i];
    assert s == s[..i] + [x] + s[i + 1..j] + [x] + s[j + 1..];
  }

  lemma {:induction false} OnceInMultiset<K>(rows: seq<(K, nat)>, x: (K, nat))
    requires DistinctKeys(rows)
    ensures multiset(rows)[x] <= 1
  {
    if rows != [] {
      assert rows == [rows[0]] + rows[1..];
      assert DistinctKeys(rows[1..]) by {
        forall a, b | 0 <= a < b < |rows| - 1 ensures rows[1..][a].0 != rows[1..][b].0 {
          assert rows[1..][a] == rows[a + 1] && rows[1..][b] == rows[b + 1];
        }
      }
      OnceInMultiset(rows[1..], x);
      if rows[0] == x {
        forall i | 0 <= i < |rows| - 1 ensures rows[1..][i] != x {
          assert rows[1..][i] == rows[i + 1];
        }
        assert x !in rows[1..];
      }
    }
  }

  /** `.iloc[:n]`: Python slicing, a prefix of s holding its first n rows,
      or all rows but the last -n when n is negative. */
  function SliceTo<T>(s: seq<T>, n: int): (r: seq<T>)
    ensures r <= s
    ensures |r| == if n >= 0 then (if n <= |s| then n else |s|)
                   else (if -n <= |s| then |s| + n else 0)
  {
    if n >= 0 then (if n <= |s| then s[..n] else s)
    else (if -n <= |s| then s[..|s| + n] else [])
  }
}
