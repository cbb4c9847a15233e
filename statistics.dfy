/** The aggregations of dec/statistics.py over a finite sequence of event
    records. Each pandas pipeline becomes a function over sequences: a
    group-by gives one row per key that occurs, with its count or sum. */
module Statistics {
  import opened Events
  import opened Grouping

  datatype DayPart = Day | Night

  /** Local wall-clock hour and minute of a timestamp, as
      datetime.fromtimestamp gives them. */
  datatype ClockTime = ClockTime(hour: int, minute: int)

  /** (h1, m1) < (h2, m2), Python's tuple order. */
  predicate Before(h1: int, m1: int, h2: int, m2: int) {
    h1 < h2 || (h1 == h2 && m1 < m2)
  }

  /** day_night: 'day' when (7, 0) <= (hour, minute) < (19, 0), else 'night'.
      For any non-negative minute this is the hour range [7, 19). */
  function DayNight(hour: int, minute: int): (r: DayPart)
    ensures minute >= 0 ==> (r == Day <==> 7 <= hour < 19)
  {
    if !Before(hour, minute, 7, 0) && Before(hour, minute, 19, 0) then Day else Night
  }

  /** 07:00 and 18:59 are day; 19:00 and 06:59 are night. */
  lemma DayNightBoundaries()
    ensures DayNight(7, 0) == Day && DayNight(18, 59) == Day
    ensures DayNight(19, 0) == Night && DayNight(6, 59) == Night
  {
  }

  function PublisherIds(events: seq<Event>): seq<string> {
    seq(|events|, i requires 0 <= i < |events| => events[i].publisherId)
  }

  /** The number of events carrying publisher id p. */
  function EventCount(events: seq<Event>, p: string): nat {
    multiset(PublisherIds(events))[p]
  }

  /** The distinct publisher ids. */
  function PublisherSet(events: seq<Event>): set<string> {
    set i | 0 <= i < |events| :: events[i].publisherId
  }

  function NumPublishers(events: seq<Event>): nat {
    |PublisherSet(events)|
  }

  /** One row (key, 1) per item: what `count()` adds up. */
  function Ones<K>(keys: seq<K>): seq<(K, nat)> {
    seq(|keys|, i requires 0 <= i < |keys| => (keys[i], 1))
  }

  /** Summing ones counts: the weight of k is its number of occurrences. */
  lemma {:induction false} OnesFacts<K>(keys: seq<K>)
    ensures Total(Ones(keys)) == |keys|
    ensures forall k :: WeightOf(Ones(keys), k) == multiset(keys)[k]
    ensures forall k :: HasKey(Ones(keys), k) <==> k in keys
  {
    if keys != [] {
      OnesFacts(keys[1..]);
      assert Ones(keys)[1..] == Ones(keys[1..]);
      assert keys == [keys[0]] + keys[1..];
      forall k ensures HasKey(Ones(keys), k) <==> k in keys {
        HasKeyCons(Ones(keys), k);
      }
    }
  }

  lemma {:induction false} KeySetCard<K>(rows: seq<(K, nat)>)
    requires DistinctKeys(rows)
    ensures |set i | 0 <= i < |rows| :: rows[i].0| == |rows|
  {
    if rows != [] {
      var tail := rows[1..];
      assert DistinctKeys(tail) by {
        forall a, b | 0 <= a < b < |tail| ensures tail[a].0 != tail[b].0 {
          assert tail[a] == rows[a + 1] && tail[b] == rows[b + 1];
        }
      }
      KeySetCard(tail);
      var all := set i | 0 <= i < |rows| :: rows[i].0;
      var rest := set i | 0 <= i < |tail| :: tail[i].0;
      assert all == {rows[0].0} + rest by {
        forall k | k in all ensures k in {rows[0].0} + rest {
          var i :| 0 <= i < |rows| && rows[i].0 == k;
          if i > 0 {
            assert tail[i - 1] == rows[i];
          }
        }
        forall k | k in rest ensures k in all {
          var i :| 0 <= i < |tail| && tail[i].0 == k;
          assert rows[i + 1] == tail[i];
        }
      }
      forall i | 0 <= i < |tail| ensures tail[i].0 != rows[0].0 {
        assert tail[i] == rows[i + 1];
      }
    }
  }

  // ---------------------------------------------------------------------
  // top_n_publisher_by_count

  /** groupby(publisher_id).count() sorted by count, largest first: one row
      per publisher appearing in the events, carrying its number of events. */
  function Ranking(events: seq<Event>): (r: seq<(string, nat)>)
    ensures NonIncreasing(r)
    ensures DistinctKeys(r)
    ensures forall p :: HasKey(r, p) <==> p in PublisherIds(events)
    ensures forall i :: 0 <= i < |r| ==> r[i].1 == EventCount(events, r[i].0)
    ensures |r| == NumPublishers(events)
  {
    var rows := SumBy(Ones(PublisherIds(events)));
    var sorted := SortByWeightDesc(rows);
    RankingFacts(events, rows, sorted);
    sorted
  }

  lemma RankingFacts(events: seq<Event>, rows: seq<(string, nat)>, sorted: seq<(string, nat)>)
    requires rows == SumBy(Ones(PublisherIds(events)))
    requires multiset(sorted) == multiset(rows)
    ensures DistinctKeys(sorted)
    ensures forall p :: HasKey(sorted, p) <==> p in PublisherIds(events)
    ensures forall i :: 0 <= i < |sorted| ==> sorted[i].1 == EventCount(events, sorted[i].0)
    ensures |sorted| == NumPublishers(events)
  {
    var ids := PublisherIds(events);
    CountedRows(ids);
    PermutationKeys(rows, sorted);
    forall i | 0 <= i < |sorted| ensures sorted[i].1 == EventCount(events, sorted[i].0) {
      assert sorted[i] in multiset(rows);
      var j :| 0 <= j < |rows| && rows[j] == sorted[i];
    }
    RankingSize(events, sorted);
  }

  /** Counting a sequence of keys gives distinct rows, one per key that
      occurs, each carrying the key's number of occurrences. */
  lemma CountedRows<K(!new)>(keys: seq<K>)
    ensures DistinctKeys(SumBy(Ones(keys)))
    ensures forall k :: HasKey(SumBy(Ones(keys)), k) <==> k in keys
    ensures forall i :: 0 <= i < |SumBy(Ones(keys))| ==> SumBy(Ones(keys))[i].1 == multiset(keys)[SumBy(Ones(keys))[i].0]
    ensures Total(SumBy(Ones(keys))) == |keys|
  {
    OnesFacts(keys);
    SumByRows(Ones(keys));
    var rows := SumBy(Ones(keys));
    forall i | 0 <= i < |rows| ensures rows[i].1 == multiset(keys)[rows[i].0] {
      assert rows[i].1 == WeightOf(Ones(keys), rows[i].0);
    }
  }

  lemma RankingSize(events: seq<Event>, sorted: seq<(string, nat)>)
    requires DistinctKeys(sorted)
    requires forall p :: HasKey(sorted, p) <==> p in PublisherIds(events)
    ensures |sorted| == NumPublishers(events)
  {
    KeySetCard(sorted);
    var ids := PublisherIds(events);
    var keys := set i | 0 <= i < |sorted| :: sorted[i].0;
    forall p | p in PublisherSet(events) ensures p in keys {
      var i :| 0 <= i < |events| && events[i].publisherId == p;
      assert ids[i] == p;
      assert HasKey(sorted, p);
      var j :| 0 <= j < |sorted| && sorted[j].0 == p;
    }
    forall p | p in keys ensures p in PublisherSet(events) {
      var j :| 0 <= j < |sorted| && sorted[j].0 == p;
      assert HasKey(sorted, p);
      var i :| 0 <= i < |ids| && ids[i] == p;
      assert events[i].publisherId == p;
    }
    assert keys == PublisherSet(events);
  }

  /** top_n_publisher_by_count(events, n): the first n rows of the ranking
      (`iloc[:n]`, so a negative n drops the last -n rows instead). Rows
      carry true counts in non-increasing order, and no publisher left out
      has more events than any publisher kept. */
  function TopNPublisherByCount(events: seq<Event>, n: int): (r: seq<(string, nat)>)
    ensures |r| == if n >= 0 then (if n <= NumPublishers(events) then n else NumPublishers(events))
                   else (if -n <= NumPublishers(events) then NumPublishers(events) + n else 0)
    ensures NonIncreasing(r)
    ensures DistinctKeys(r)
    ensures forall i :: 0 <= i < |r| ==> r[i].0 in PublisherIds(events) && r[i].1 == EventCount(events, r[i].0)
    ensures forall p, i :: p in PublisherIds(events) && !HasKey(r, p) && 0 <= i < |r| ==>
      EventCount(events, p) <= r[i].1
  {
    var ranking := Ranking(events);
    var r := SliceTo(ranking, n);
    TopIsPrefix(events, ranking, r);
    r
  }

  lemma TopIsPrefix(events: seq<Event>, ranking: seq<(string, nat)>, r: seq<(string, nat)>)
    requires ranking == Ranking(events)
    requires r <= ranking
    ensures NonIncreasing(r) && DistinctKeys(r)
    ensures forall i :: 0 <= i < |r| ==> r[i].0 in PublisherIds(events) && r[i].1 == EventCount(events, r[i].0)
    ensures forall p, i :: p in PublisherIds(events) && !HasKey(r, p) && 0 <= i < |r| ==>
      EventCount(events, p) <= r[i].1
  {
    forall i | 0 <= i < |r| ensures r[i].0 in PublisherIds(events) && r[i].1 == EventCount(events, r[i].0) {
      assert r[i] == ranking[i];
      assert HasKey(ranking, r[i].0);
    }
    forall p, i | p in PublisherIds(events) && !HasKey(r, p) && 0 <= i < |r|
      ensures EventCount(events, p) <= r[i].1
    {
      var j := PositionAfterPrefix(ranking, r, p);
      assert r[i] == ranking[i];
    }
  }

  /** A key of `rows` missing from a prefix of it sits after that prefix. */
  lemma PositionAfterPrefix<K>(rows: seq<(K, nat)>, prefix: seq<(K, nat)>, k: K) returns (j: nat)
    requires prefix <= rows && HasKey(rows, k) && !HasKey(prefix, k)
    ensures |prefix| <= j < |rows| && rows[j].0 == k
  {
    j :| 0 <= j < |rows| && rows[j].0 == k;
  }

  // ---------------------------------------------------------------------
  // unique_clips_count_per_publisher

  /** The clip ids of the events of publisher p. */
  function ClipsOf(events: seq<Event>, p: string): set<string> {
    set i | 0 <= i < |events| && events[i].publisherId == p :: events[i].clip
  }

  lemma ClipsOfStep(events: seq<Event>, p: string)
    requires events != []
    ensures ClipsOf(events, p) == ClipsOf(events[..|events| - 1], p) +
      (if events[|events| - 1].publisherId == p then {events[|events| - 1].clip} else {})
    ensures PublisherIds(events) == PublisherIds(events[..|events| - 1]) + [events[|events| - 1].publisherId]
  {
    var prev := events[..|events| - 1];
    forall c | c in ClipsOf(events, p) ensures c in ClipsOf(prev, p) ||
      (events[|events| - 1].publisherId == p && c == events[|events| - 1].clip)
    {
      var i :| 0 <= i < |events| && events[i].publisherId == p && events[i].clip == c;
      if i < |events| - 1 {
        assert prev[i] == events[i];
      }
    }
    forall c | c in ClipsOf(prev, p) ensures c in ClipsOf(events, p) {
      var i :| 0 <= i < |prev| && prev[i].publisherId == p && prev[i].clip == c;
      assert events[i] == prev[i];
    }
  }

  lemma ClipsOfAbsent(events: seq<Event>, p: string)
    requires p !in PublisherIds(events)
    ensures ClipsOf(events, p) == {}
  {
    forall i | 0 <= i < |events| ensures events[i].publisherId != p {
      assert PublisherIds(events)[i] == events[i].publisherId;
    }
  }

  /** unique_clips_count_per_publisher: each publisher appearing in the
      events maps to exactly the set of clip ids of its events; no other
      key is present. */
  function UniqueClipsCountPerPublisher(events: seq<Event>): (m: map<string, set<string>>)
    ensures forall p :: p in m <==> p in PublisherIds(events)
    ensures forall p :: p in m ==> m[p] == ClipsOf(events, p)
    decreases |events|
  {
    if events == [] then map[]
    else
      var prev := events[..|events| - 1];
      var e := events[|events| - 1];
      var m := UniqueClipsCountPerPublisher(prev);
      assert forall p :: ClipsOf(events, p) == ClipsOf(prev, p) + (if e.publisherId == p then {e.clip} else {}) by {
        forall p ensures ClipsOf(events, p) == ClipsOf(prev, p) + (if e.publisherId == p then {e.clip} else {}) {
          ClipsOfStep(events, p);
        }
      }
      ClipsOfStep(events, e.publisherId);
      if e.publisherId !in m then
        ClipsOfAbsent(prev, e.publisherId);
        m[e.publisherId := {e.clip}]
      else
        m[e.publisherId := m[e.publisherId] + {e.clip}]
  }

  // ---------------------------------------------------------------------
  // clips_count_per_country_day_night

  /** The (country, day/night) group of an event; `localTime` stands for
      datetime.fromtimestamp. */
  function GroupOf(e: Event, localTime: real -> ClockTime): (g: (string, DayPart))
    ensures g.0 == e.country
    ensures localTime(e.timestamp).minute >= 0 ==>
      (g.1 == Day <==> 7 <= localTime(e.timestamp).hour < 19)
  {
    (e.country, DayNight(localTime(e.timestamp).hour, localTime(e.timestamp).minute))
  }

  function Groups(events: seq<Event>, localTime: real -> ClockTime): seq<(string, DayPart)> {
    seq(|events|, i requires 0 <= i < |events| => GroupOf(events[i], localTime))
  }

  /** clips_count_per_country_day_night: one row per (country, day/night)
      pair that occurs, carrying the number of events in it; the counts add
      up to the number of events. */
  function ClipsCountPerCountryDayNight(events: seq<Event>, localTime: real -> ClockTime)
    : (rows: seq<((string, DayPart), nat)>)
    ensures DistinctKeys(rows)
    ensures forall g :: HasKey(rows, g) <==> g in Groups(events, localTime)
    ensures forall i :: 0 <= i < |rows| ==> rows[i].1 == multiset(Groups(events, localTime))[rows[i].0]
    ensures Total(rows) == |events|
  {
    var groups := Groups(events, localTime);
    CountedRows(groups);
    SumBy(Ones(groups))
  }

  // ---------------------------------------------------------------------
  // viewable_time_sum_per_publisher, in integer tenths

  /** Total viewable time, in tenths, of the events of publisher p. */
  function TenthsOf(events: seq<Event>, p: string): nat {
    if events == [] then 0
    else (if events[0].publisherId == p then events[0].viewableTenths else 0) + TenthsOf(events[1..], p)
  }

  function SumTenths(events: seq<Event>): nat {
    if events == [] then 0 else events[0].viewableTenths + SumTenths(events[1..])
  }

  function ViewRows(events: seq<Event>): seq<(string, nat)> {
    seq(|events|, i requires 0 <= i < |events| => (events[i].publisherId, events[i].viewableTenths))
  }

  lemma {:induction false} ViewRowsFacts(events: seq<Event>)
    ensures Total(ViewRows(events)) == SumTenths(events)
    ensures forall p :: WeightOf(ViewRows(events), p) == TenthsOf(events, p)
    ensures forall p :: HasKey(ViewRows(events), p) <==> p in PublisherIds(events)
  {
    if events != [] {
      ViewRowsFacts(events[1..]);
      assert ViewRows(events)[1..] == ViewRows(events[1..]);
      assert PublisherIds(events) == [events[0].publisherId] + PublisherIds(events[1..]);
      forall p ensures HasKey(ViewRows(events), p) <==> p in PublisherIds(events) {
        HasKeyCons(ViewRows(events), p);
      }
    }
  }

  /** viewable_time_sum_per_publisher with viewable time in tenths: one row
      per publisher appearing, carrying the total of its events; the rows
      add up to the total of all events. */
  function ViewableTimeSumPerPublisher(events: seq<Event>): (rows: seq<(string, nat)>)
    ensures DistinctKeys(rows)
    ensures forall p :: HasKey(rows, p) <==> p in PublisherIds(events)
    ensures forall i :: 0 <= i < |rows| ==> rows[i].1 == TenthsOf(events, rows[i].0)
    ensures Total(rows) == SumTenths(events)
  {
    ViewRowsFacts(events);
    SumByRows(ViewRows(events));
    SumBy(ViewRows(events))
  }
}
