/**
 * The value-level model of `tracker.py`'s registry: the state it keeps, the steps
 * `register`, `deregister` and `update` take on it, the nearest-centroid
 * association, and the lemmas saying what those steps do to every track.
 */
module TrackerSpec {
  import opened Common
  import opened Geometry

  /** `self.max_trail` (tracker.py:7). */
  const MaxTrail: nat := 20000
  /** The `[-30:]` cap on one track's history (tracker.py:69). */
  const HistoryLength: nat := 30
  /** The default of `max_disappeared` (tracker.py:5). */
  const DefaultMaxDisappeared: int := 10

  /**
   * The registry: `next_id` and the two dicts `objects` (id -> centroid) and
   * `disappeared` (id -> consecutive unmatched updates).
   *
   * Both are OrderedDicts whose keys are only ever inserted by `register`, always
   * as `next_id`, which exceeds every key present; overwriting a key keeps its
   * place and deleting one keeps the others' order. So the iteration order of
   * both dicts is ascending id order, which `LiveIds` gives.
   */
  datatype Registry = Registry(nextId: nat, objects: map<nat, Point>, disappeared: map<nat, nat>)

  /** The registry invariant: both dicts have the same keys, all below `next_id`. */
  ghost predicate WellFormed(r: Registry)
  {
    && r.disappeared.Keys == r.objects.Keys
    && forall id :: id in r.objects ==> id < r.nextId
  }

  /** The keys of `m` below `n`, ascending. */
  function KeysBelow(m: map<nat, Point>, n: nat): (ks: seq<nat>)
    ensures forall x :: x in ks <==> x in m && x < n
    ensures StrictlyIncreasing(ks)
  {
    if n == 0 then []
    else if n - 1 in m then
      var ks := KeysBelow(m, n - 1);
      assert forall i :: 0 <= i < |ks| ==> ks[i] in ks;
      IncreasingSnoc(ks, n - 1);
      ks + [n - 1]
    else KeysBelow(m, n - 1)
  }

  /** `list(self.objects.keys())`: the live ids in dict order. */
  function LiveIds(r: Registry): (ids: seq<nat>)
    ensures forall x :: x in ids <==> x in r.objects && x < r.nextId
    ensures StrictlyIncreasing(ids)
  {
    KeysBelow(r.objects, r.nextId)
  }

  /** The registry as `update` returns it: `(id, centroid)` in dict order. */
  function Listed(r: Registry): (objs: seq<TrackedObject>)
    requires WellFormed(r)
    ensures Ids(objs) == LiveIds(r)
    ensures forall i :: 0 <= i < |objs| ==> objs[i].id in r.objects && objs[i].centroid == r.objects[objs[i].id]
  {
    var ids := LiveIds(r);
    seq(|ids|, i requires 0 <= i < |ids| && WellFormed(r) => TrackedObject(ids[i], r.objects[ids[i]]))
  }

  // ---------------------------------------------------------------------------
  // register / deregister (tracker.py:14-21)
  // ---------------------------------------------------------------------------

  /** `register(centroid)`: the new track gets id `next_id`, which then advances by one. */
  function Registered(r: Registry, c: Point): (r': Registry)
    ensures WellFormed(r) ==> WellFormed(r')
  {
    Registry(r.nextId + 1, r.objects[r.nextId := c], r.disappeared[r.nextId := 0])
  }

  /** `deregister(object_id)`: the key leaves both dicts; `next_id` is untouched. */
  function Deregistered(r: Registry, id: nat): (r': Registry)
    ensures WellFormed(r) ==> WellFormed(r')
  {
    Registry(r.nextId, r.objects - {id}, r.disappeared - {id})
  }

  /** A fresh id is above every live id, so registering never reuses an id, even a deregistered one. */
  lemma RegisteredIsFresh(r: Registry, c: Point)
    requires WellFormed(r)
    ensures r.nextId !in r.objects
    ensures var r' := Registered(r, c);
      && r'.objects.Keys == r.objects.Keys + {r.nextId}
      && LiveIds(r') == LiveIds(r) + [r.nextId]
  {
    var r' := Registered(r, c);
    assert LiveIds(r') == LiveIds(r) + [r.nextId] by {
      KeysBelowUnchanged(r.objects, r'.objects, r.nextId);
    }
  }

  /** Keys below `n` only depend on the part of the map below `n`. */
  lemma {:induction false} KeysBelowUnchanged(m: map<nat, Point>, m': map<nat, Point>, n: nat)
    requires forall x :: x < n ==> (x in m <==> x in m')
    ensures KeysBelow(m, n) == KeysBelow(m', n)
  {
    if n > 0 {
      KeysBelowUnchanged(m, m', n - 1);
    }
  }

  // ---------------------------------------------------------------------------
  // aging unmatched tracks (tracker.py:25-28 and 56-60)
  // ---------------------------------------------------------------------------

  /** What one unmatched update does to a disappearance count: `None` means deregistered. */
  function MissStep(d: nat, maxDisappeared: int): Option<nat>
  {
    if d + 1 > maxDisappeared then None else Some(d + 1)
  }

  /** One unmatched update of a live track: count up, and deregister past the threshold. */
  function Missed(r: Registry, id: nat, maxDisappeared: int): (r': Registry)
    requires WellFormed(r) && id in r.objects
    ensures WellFormed(r') && r'.nextId == r.nextId
  {
    var aged := r.(disappeared := r.disappeared[id := r.disappeared[id] + 1]);
    if aged.disappeared[id] > maxDisappeared then Deregistered(aged, id) else aged
  }

  /** A list of distinct live ids, each to be aged once. */
  ghost predicate AgeableIn(r: Registry, toAge: seq<nat>)
  {
    Distinct(toAge) && forall i :: 0 <= i < |toAge| ==> toAge[i] in r.objects
  }

  /** The registry after aging every id of `toAge` once, in order. */
  function MissedAll(r: Registry, toAge: seq<nat>, maxDisappeared: int): (r': Registry)
    requires WellFormed(r) && AgeableIn(r, toAge)
    ensures WellFormed(r') && r'.nextId == r.nextId
    ensures forall id :: id in r.objects && id !in toAge ==> id in r'.objects
    decreases |toAge|
  {
    if toAge == [] then r
    else
      var prefix, last := toAge[..|toAge| - 1], toAge[|toAge| - 1];
      DistinctLast(toAge);
      assert forall i :: 0 <= i < |prefix| ==> prefix[i] == toAge[i];
      Missed(MissedAll(r, prefix, maxDisappeared), last, maxDisappeared)
  }

  /** One more step of an aging loop: the next id is still live and aging it extends the prefix. */
  lemma AgeablePrefix(r: Registry, toAge: seq<nat>, k: nat, maxDisappeared: int)
    requires WellFormed(r) && AgeableIn(r, toAge) && k < |toAge|
    ensures AgeableIn(r, toAge[..k]) && AgeableIn(r, toAge[..k + 1]) && toAge[k] !in toAge[..k]
    ensures toAge[k] in MissedAll(r, toAge[..k], maxDisappeared).objects
    ensures MissedAll(r, toAge[..k + 1], maxDisappeared) == Missed(MissedAll(r, toAge[..k], maxDisappeared), toAge[k], maxDisappeared)
  {
    assert toAge[..k + 1][..k] == toAge[..k];
    assert forall i :: 0 <= i < k + 1 ==> toAge[..k + 1][i] == toAge[i];
    assert toAge[k] !in toAge[..k];
  }

  /** One miss touches only its own track. */
  lemma MissedEffect(r: Registry, id: nat, maxDisappeared: int)
    requires WellFormed(r) && id in r.objects
    ensures id in Missed(r, id, maxDisappeared).objects <==> MissStep(r.disappeared[id], maxDisappeared).Some?
    ensures id in Missed(r, id, maxDisappeared).objects ==>
      Some(Missed(r, id, maxDisappeared).disappeared[id]) == MissStep(r.disappeared[id], maxDisappeared)
    ensures forall other :: other != id ==>
      && (other in Missed(r, id, maxDisappeared).objects <==> other in r.objects)
      && (other in r.objects ==> Missed(r, id, maxDisappeared).disappeared[other] == r.disappeared[other])
    ensures forall other :: other in Missed(r, id, maxDisappeared).objects ==>
      Missed(r, id, maxDisappeared).objects[other] == r.objects[other]
  {
  }

  /** Aging a list of ids creates no track and changes no centroid. */
  lemma {:induction false} MissedAllShrinks(r: Registry, toAge: seq<nat>, maxDisappeared: int)
    requires WellFormed(r) && AgeableIn(r, toAge)
    ensures forall id :: id in MissedAll(r, toAge, maxDisappeared).objects ==>
      id in r.objects && MissedAll(r, toAge, maxDisappeared).objects[id] == r.objects[id]
    decreases |toAge|
  {
    if toAge != [] {
      var prefix, last := toAge[..|toAge| - 1], toAge[|toAge| - 1];
      AgeablePrefix(r, toAge, |toAge| - 1, maxDisappeared);
      assert toAge[..|toAge| - 1 + 1] == toAge;
      var before := MissedAll(r, prefix, maxDisappeared);
      assert MissedAll(r, toAge, maxDisappeared) == Missed(before, last, maxDisappeared);
      MissedAllShrinks(r, prefix, maxDisappeared);
      MissedEffect(before, last, maxDisappeared);
    }
  }

  /** An aged id stays live exactly when `MissStep` says so, with its count raised by one. */
  lemma {:induction false} MissedAllAged(r: Registry, toAge: seq<nat>, maxDisappeared: int)
    requires WellFormed(r) && AgeableIn(r, toAge)
    ensures forall id :: id in r.objects && id in toAge ==>
      && (id in MissedAll(r, toAge, maxDisappeared).objects <==> MissStep(r.disappeared[id], maxDisappeared).Some?)
      && (id in MissedAll(r, toAge, maxDisappeared).objects ==>
            Some(MissedAll(r, toAge, maxDisappeared).disappeared[id]) == MissStep(r.disappeared[id], maxDisappeared))
    decreases |toAge|
  {
    if toAge != [] {
      var prefix, last := toAge[..|toAge| - 1], toAge[|toAge| - 1];
      AgeablePrefix(r, toAge, |toAge| - 1, maxDisappeared);
      assert toAge[..|toAge| - 1 + 1] == toAge;
      var before := MissedAll(r, prefix, maxDisappeared);
      assert MissedAll(r, toAge, maxDisappeared) == Missed(before, last, maxDisappeared);
      MissedAllAged(r, prefix, maxDisappeared);
      MissedAllOthers(r, prefix, maxDisappeared);
      MissedEffect(before, last, maxDisappeared);
      FrontMembers(toAge);
      forall id | id in r.objects && id in toAge
        ensures id in MissedAll(r, toAge, maxDisappeared).objects <==> MissStep(r.disappeared[id], maxDisappeared).Some?
        ensures id in MissedAll(r, toAge, maxDisappeared).objects ==>
          Some(MissedAll(r, toAge, maxDisappeared).disappeared[id]) == MissStep(r.disappeared[id], maxDisappeared)
      {
        if id == last {
          assert last !in prefix;
        }
      }
    }
  }

  /** A live track that is not aged keeps its count. */
  lemma {:induction false} MissedAllOthers(r: Registry, toAge: seq<nat>, maxDisappeared: int)
    requires WellFormed(r) && AgeableIn(r, toAge)
    ensures forall id :: id in r.objects && id !in toAge ==>
      && id in MissedAll(r, toAge, maxDisappeared).objects
      && MissedAll(r, toAge, maxDisappeared).disappeared[id] == r.disappeared[id]
    decreases |toAge|
  {
    if toAge != [] {
      var prefix, last := toAge[..|toAge| - 1], toAge[|toAge| - 1];
      AgeablePrefix(r, toAge, |toAge| - 1, maxDisappeared);
      assert toAge[..|toAge| - 1 + 1] == toAge;
      var before := MissedAll(r, prefix, maxDisappeared);
      assert MissedAll(r, toAge, maxDisappeared) == Missed(before, last, maxDisappeared);
      MissedAllOthers(r, prefix, maxDisappeared);
      MissedEffect(before, last, maxDisappeared);
      forall id | id in r.objects && id !in toAge
        ensures id in MissedAll(r, toAge, maxDisappeared).objects
        ensures MissedAll(r, toAge, maxDisappeared).disappeared[id] == r.disappeared[id]
      {
        assert id != last;
        assert id !in prefix;
      }
    }
  }

  /**
   * A track that starts from count 0 and then goes unmatched `k` times in a row:
   * `Some(count)` while it is live, `None` once it has been deregistered.
   */
  function Streak(k: nat, maxDisappeared: int): Option<nat>
  {
    if k == 0 then Some(0)
    else match Streak(k - 1, maxDisappeared)
      case None => None
      case Some(d) => MissStep(d, maxDisappeared)
  }

  /**
   * A track is deregistered on its (max_disappeared + 1)-th consecutive unmatched
   * update and not before; while live its count is the number of misses.
   */
  lemma {:induction false} StreakDeregistersAtThreshold(k: nat, maxDisappeared: int)
    requires maxDisappeared >= 0
    ensures Streak(k, maxDisappeared) == if k <= maxDisappeared then Some(k) else None
  {
    if k > 0 {
      StreakDeregistersAtThreshold(k - 1, maxDisappeared);
    }
  }

  /**
   * With `max_disappeared = 0`, a track registered on one frame is deregistered on
   * the next frame without detections, leaving nothing to return (tracker.py:24-29).
   */
  lemma EmptyFrameDeregistersAtZero(c: Point)
    ensures WellFormed(RegisteredAll(Registry(0, map[], map[]), [c]))
    ensures LiveIds(RegisteredAll(Registry(0, map[], map[]), [c])) == [0]
    ensures MissedAll(RegisteredAll(Registry(0, map[], map[]), [c]), [0], 0) == Registry(1, map[], map[])
    ensures Listed(Registry(1, map[], map[])) == []
  {
    var r0 := Registry(0, map[], map[]);
    var r := RegisteredAll(r0, [c]);
    assert [c][..0] == [];
    assert r == Registry(1, map[0 := c], map[0 := 0]);
    assert LiveIds(r) == [0] by { RegisteredAllIds(r0, [c]); }
    assert [0][..0] == [];
    assert MissedAll(r, [0], 0) == Missed(r, 0, 0);
  }

  // ---------------------------------------------------------------------------
  // registering new tracks (tracker.py:33-35 and 62-63)
  // ---------------------------------------------------------------------------

  /** The registry after registering every centroid of `cs`, in order. */
  function RegisteredAll(r: Registry, cs: seq<Point>): (r': Registry)
    ensures WellFormed(r) ==> WellFormed(r')
    ensures r'.nextId == r.nextId + |cs|
    decreases |cs|
  {
    if cs == [] then r else Registered(RegisteredAll(r, cs[..|cs| - 1]), cs[|cs| - 1])
  }

  /** Registering `cs` adds exactly the fresh ids `next_id .. next_id + |cs| - 1` and removes none. */
  lemma {:induction false} RegisteredAllDomain(r: Registry, cs: seq<Point>)
    ensures forall id :: id in RegisteredAll(r, cs).objects <==> id in r.objects || r.nextId <= id < r.nextId + |cs|
    decreases |cs|
  {
    if cs != [] {
      RegisteredAllDomain(r, cs[..|cs| - 1]);
    }
  }

  /** Registering `cs`: the k-th centroid becomes the track with id `next_id + k` and count 0. */
  lemma {:induction false} RegisteredAllNew(r: Registry, cs: seq<Point>)
    requires WellFormed(r)
    ensures forall id :: r.nextId <= id < r.nextId + |cs| ==>
      && id in RegisteredAll(r, cs).objects
      && RegisteredAll(r, cs).objects[id] == cs[id - r.nextId]
      && RegisteredAll(r, cs).disappeared[id] == 0
    decreases |cs|
  {
    if cs != [] {
      var prefix := cs[..|cs| - 1];
      RegisteredAllNew(r, prefix);
      var p := RegisteredAll(r, prefix);
      assert RegisteredAll(r, cs) == Registered(p, cs[|cs| - 1]);
      assert p.nextId == r.nextId + |prefix| && WellFormed(p);
      assert forall k :: 0 <= k < |prefix| ==> prefix[k] == cs[k];
    }
  }

  /** Registering leaves every existing track as it was. */
  lemma {:induction false} RegisteredAllKeeps(r: Registry, cs: seq<Point>)
    requires WellFormed(r)
    ensures forall id :: id in r.objects ==>
      && id in RegisteredAll(r, cs).objects
      && RegisteredAll(r, cs).objects[id] == r.objects[id]
      && RegisteredAll(r, cs).disappeared[id] == r.disappeared[id]
    decreases |cs|
  {
    if cs != [] {
      RegisteredAllKeeps(r, cs[..|cs| - 1]);
    }
  }

  /** The ids `lo, lo + 1, ..., lo + n - 1`. */
  function IdRange(lo: nat, n: nat): (ids: seq<nat>)
    ensures |ids| == n && forall k :: 0 <= k < n ==> ids[k] == lo + k
  {
    if n == 0 then [] else IdRange(lo, n - 1) + [lo + n - 1]
  }

  /** Registering `cs` appends the fresh ids `next_id, next_id + 1, ...` to the dict order. */
  lemma {:induction false} RegisteredAllIds(r: Registry, cs: seq<Point>)
    requires WellFormed(r)
    ensures LiveIds(RegisteredAll(r, cs)) == LiveIds(r) + IdRange(r.nextId, |cs|)
    decreases |cs|
  {
    if cs != [] {
      var prefix := cs[..|cs| - 1];
      var before := RegisteredAll(r, prefix);
      assert RegisteredAll(r, cs) == Registered(before, cs[|cs| - 1]);
      assert IdRange(r.nextId, |cs|) == IdRange(r.nextId, |prefix|) + [r.nextId + |prefix|];
      RegisteredAllIds(r, prefix);
      RegisteredIsFresh(before, cs[|cs| - 1]);
      AppendAssoc(LiveIds(r), IdRange(r.nextId, |prefix|), r.nextId + |prefix|);
    }
  }

  /** `(a + b) + [x] == a + (b + [x])`. */
  lemma AppendAssoc<T>(a: seq<T>, b: seq<T>, x: T)
    ensures (a + b) + [x] == a + (b + [x])
  {
  }

  // ---------------------------------------------------------------------------
  // nearest-centroid association (tracker.py:37-51)
  // ---------------------------------------------------------------------------

  /** `D.argmin(axis=1)` for one row: the nearest column, the lowest one on ties. */
  function ArgMinCol(p: Point, cs: seq<Point>): (k: nat)
    requires |cs| > 0
    ensures k < |cs|
    ensures forall j :: 0 <= j < |cs| ==> SqDist(p, cs[k]) <= SqDist(p, cs[j])
    ensures forall j :: 0 <= j < k ==> SqDist(p, cs[j]) > SqDist(p, cs[k])
    decreases |cs|
  {
    if |cs| == 1 then 0
    else
      var k := ArgMinCol(p, cs[..|cs| - 1]);
      assert forall j :: 0 <= j < |cs| - 1 ==> cs[..|cs| - 1][j] == cs[j];
      if SqDist(p, cs[|cs| - 1]) < SqDist(p, cs[k]) then |cs| - 1 else k
  }

  /** The centroids of the live tracks, in key order (`list(self.objects.values())`). */
  function TrackCentroids(r: Registry): (ps: seq<Point>)
    requires WellFormed(r)
    ensures |ps| == |LiveIds(r)|
    ensures forall i :: 0 <= i < |ps| ==> ps[i] == r.objects[LiveIds(r)[i]]
  {
    var ids := LiveIds(r);
    seq(|ids|, i requires 0 <= i < |ids| && WellFormed(r) => r.objects[ids[i]])
  }

  /** The nearest column of every row. */
  function ArgMins(ps: seq<Point>, cs: seq<Point>): (a: seq<nat>)
    requires |cs| > 0
    ensures |a| == |ps|
    ensures forall i :: 0 <= i < |ps| ==> a[i] == ArgMinCol(ps[i], cs) && a[i] < |cs|
  {
    seq(|ps|, i requires 0 <= i < |ps| => ArgMinCol(ps[i], cs))
  }

  /** `D.min(axis=1)`: every row's smallest (squared) distance. */
  function RowMins(ps: seq<Point>, cs: seq<Point>): (m: seq<nat>)
    requires |cs| > 0
    ensures |m| == |ps|
    ensures forall i, j :: 0 <= i < |ps| && 0 <= j < |cs| ==> m[i] <= SqDist(ps[i], cs[j])
    ensures forall i :: 0 <= i < |ps| ==> m[i] == SqDist(ps[i], cs[ArgMinCol(ps[i], cs)])
  {
    seq(|ps|, i requires 0 <= i < |ps| => SqDist(ps[i], cs[ArgMinCol(ps[i], cs)]))
  }

  /** Row `a` is processed before row `b`: smaller minimum distance, lower row on ties. */
  predicate RowBefore(keys: seq<nat>, a: nat, b: nat)
    requires a < |keys| && b < |keys|
  {
    keys[a] < keys[b] || (keys[a] == keys[b] && a < b)
  }

  /** Rows listed in processing order (this also makes them distinct). */
  predicate SortedRows(order: seq<nat>, keys: seq<nat>)
    requires forall t :: 0 <= t < |order| ==> order[t] < |keys|
  {
    forall a, b :: 0 <= a < b < |order| ==> RowBefore(keys, order[a], order[b])
  }

  /** Insert row `i` behind every row whose key is at most `keys[i]`. */
  function InsertRow(order: seq<nat>, i: nat, keys: seq<nat>): (o: seq<nat>)
    requires i < |keys| && forall t :: 0 <= t < |order| ==> order[t] < |keys|
    ensures |o| == |order| + 1
    ensures forall x :: x in o <==> x in order || x == i
    ensures forall t :: 0 <= t < |o| ==> o[t] < |keys|
  {
    if order == [] then [i]
    else if keys[i] < keys[order[0]] then [i] + order
    else [order[0]] + InsertRow(order[1..], i, keys)
  }

  /** Dropping the first row keeps the order sorted. */
  lemma SortedTail(order: seq<nat>, keys: seq<nat>)
    requires order != [] && forall t :: 0 <= t < |order| ==> order[t] < |keys|
    requires SortedRows(order, keys)
    ensures SortedRows(order[1..], keys)
  {
    var rest := order[1..];
    forall a, b | 0 <= a < b < |rest| ensures RowBefore(keys, rest[a], rest[b]) {
      assert rest[a] == order[a + 1] && rest[b] == order[b + 1];
    }
  }

  /** Putting a row before a sorted order of rows that all come after it gives a sorted order. */
  lemma SortedCons(x: nat, tail: seq<nat>, keys: seq<nat>)
    requires x < |keys| && forall t :: 0 <= t < |tail| ==> tail[t] < |keys|
    requires SortedRows(tail, keys)
    requires forall t :: 0 <= t < |tail| ==> RowBefore(keys, x, tail[t])
    ensures SortedRows([x] + tail, keys)
  {
    var o := [x] + tail;
    forall a, b | 0 <= a < b < |o| ensures RowBefore(keys, o[a], o[b]) {
      assert o[b] == tail[b - 1];
      if a > 0 {
        assert o[a] == tail[a - 1];
      }
    }
  }

  /** Inserting a row larger than every row already placed keeps the order sorted. */
  lemma {:induction false} InsertRowSorted(order: seq<nat>, i: nat, keys: seq<nat>)
    requires i < |keys| && forall t :: 0 <= t < |order| ==> order[t] < i
    requires SortedRows(order, keys)
    ensures SortedRows(InsertRow(order, i, keys), keys)
    decreases |order|
  {
    if order == [] {
    } else if keys[i] < keys[order[0]] {
      forall t | 0 <= t < |order| ensures RowBefore(keys, i, order[t]) {
        if t > 0 {
          assert RowBefore(keys, order[0], order[t]);
        }
      }
      SortedCons(i, order, keys);
    } else {
      var rest := order[1..];
      SortedTail(order, keys);
      InsertRowSorted(rest, i, keys);
      var tail := InsertRow(rest, i, keys);
      forall t | 0 <= t < |tail| ensures RowBefore(keys, order[0], tail[t]) {
        var x := tail[t];
        assert x in tail;
        if x != i {
          var k :| 0 <= k < |rest| && rest[k] == x;
          assert order[k + 1] == x;
          assert RowBefore(keys, order[0], order[k + 1]);
        }
      }
      SortedCons(order[0], tail, keys);
    }
  }

  /**
   * `D.min(axis=1).argsort()`: the rows `0 .. n-1` in processing order. numpy's
   * default sort is not stable; ties are fixed here to the lower row first.
   */
  function ArgSort(keys: seq<nat>, n: nat): (order: seq<nat>)
    requires n <= |keys|
    ensures |order| == n
    ensures forall t :: 0 <= t < |order| ==> order[t] < n
    ensures forall x: nat :: x in order <==> x < n
  {
    if n == 0 then []
    else
      var o := InsertRow(ArgSort(keys, n - 1), n - 1, keys);
      assert forall t :: 0 <= t < |o| ==> o[t] in o;
      o
  }

  /** The processing order is sorted by (minimum distance, row). */
  lemma {:induction false} ArgSortSorted(keys: seq<nat>, n: nat)
    requires n <= |keys|
    ensures SortedRows(ArgSort(keys, n), keys)
  {
    if n > 0 {
      ArgSortSorted(keys, n - 1);
      InsertRowSorted(ArgSort(keys, n - 1), n - 1, keys);
    }
  }

  /** The rows of a list of (row, column) pairs (`used_rows`). */
  function RowsOf(pairs: seq<(nat, nat)>): set<nat>
  {
    set k | 0 <= k < |pairs| :: pairs[k].0
  }

  /** The columns of a list of (row, column) pairs (`used_cols`). */
  function ColsOf(pairs: seq<(nat, nat)>): set<nat>
  {
    set k | 0 <= k < |pairs| :: pairs[k].1
  }

  /**
   * The greedy loop of tracker.py:44-51 over `zip(rows, cols)`: the (row, column)
   * pairs it accepts, in the order it accepts them. A pair is skipped when its row
   * or its column is already used.
   */
  function Greedy(order: seq<nat>, argmin: seq<nat>): (pairs: seq<(nat, nat)>)
    requires forall t :: 0 <= t < |order| ==> order[t] < |argmin|
    ensures forall k :: 0 <= k < |pairs| ==> pairs[k].0 in order && pairs[k].0 < |argmin| && pairs[k].1 == argmin[pairs[k].0]
    decreases |order|
  {
    if order == [] then []
    else
      var prefix := order[..|order| - 1];
      assert forall t :: 0 <= t < |prefix| ==> prefix[t] == order[t];
      var g := Greedy(prefix, argmin);
      var row := order[|order| - 1];
      if row in RowsOf(g) || argmin[row] in ColsOf(g) then g else g + [(row, argmin[row])]
  }

  /** No row and no column occurs in two pairs. */
  predicate Injective(pairs: seq<(nat, nat)>)
  {
    forall k, l :: 0 <= k < l < |pairs| ==> pairs[k].0 != pairs[l].0 && pairs[k].1 != pairs[l].1
  }

  /** The greedy matching is injective: no track is matched twice and no detection is claimed twice. */
  lemma {:induction false} GreedyInjective(order: seq<nat>, argmin: seq<nat>)
    requires forall t :: 0 <= t < |order| ==> order[t] < |argmin|
    ensures Injective(Greedy(order, argmin))
    decreases |order|
  {
    if order != [] {
      var prefix := order[..|order| - 1];
      assert forall t :: 0 <= t < |prefix| ==> prefix[t] == order[t];
      GreedyInjective(prefix, argmin);
      var g := Greedy(prefix, argmin);
      var row := order[|order| - 1];
      if !(row in RowsOf(g) || argmin[row] in ColsOf(g)) {
        var pairs := g + [(row, argmin[row])];
        assert Greedy(order, argmin) == pairs;
        forall k, l | 0 <= k < l < |pairs| ensures pairs[k].0 != pairs[l].0 && pairs[k].1 != pairs[l].1 {
          assert pairs[k] == g[k];
          if l == |g| {
            assert g[k].0 in RowsOf(g) && g[k].1 in ColsOf(g);
          } else {
            assert pairs[l] == g[l];
          }
        }
      }
    }
  }

  /** The nearest columns of all rows of `order`. */
  function Claimed(order: seq<nat>, argmin: seq<nat>): set<nat>
    requires forall t :: 0 <= t < |order| ==> order[t] < |argmin|
  {
    set t | 0 <= t < |order| :: argmin[order[t]]
  }

  /** No row processed before position `t` has the same nearest column as the row at `t`. */
  predicate FirstClaimant(order: seq<nat>, argmin: seq<nat>, t: nat)
    requires t < |order| && forall u :: 0 <= u < |order| ==> order[u] < |argmin|
  {
    forall u :: 0 <= u < t ==> argmin[order[u]] != argmin[order[t]]
  }

  /** Adding a pair adds its row to the used rows and its column to the used columns. */
  lemma UsedSnoc(g: seq<(nat, nat)>, p: (nat, nat))
    ensures RowsOf(g + [p]) == RowsOf(g) + {p.0}
    ensures ColsOf(g + [p]) == ColsOf(g) + {p.1}
  {
    var q := g + [p];
    assert q[|g|] == p;
    assert forall k :: 0 <= k < |g| ==> q[k] == g[k];
  }

  /** Row `order[t]` is accepted by the greedy loop exactly when neither it nor its nearest column is used. */
  lemma GreedyStep(order: seq<nat>, argmin: seq<nat>, t: nat)
    requires t < |order| && forall u :: 0 <= u < |order| ==> order[u] < |argmin|
    ensures Greedy(order[..t + 1], argmin) ==
      var g := Greedy(order[..t], argmin);
      if order[t] in RowsOf(g) || argmin[order[t]] in ColsOf(g) then g else g + [(order[t], argmin[order[t]])]
  {
    assert order[..t + 1][..t] == order[..t];
  }

  /** The columns claimed by a list of rows are those of its front and that of its last row. */
  lemma ClaimedSnoc(order: seq<nat>, argmin: seq<nat>)
    requires order != [] && forall t :: 0 <= t < |order| ==> order[t] < |argmin|
    ensures Claimed(order, argmin) == Claimed(order[..|order| - 1], argmin) + {argmin[order[|order| - 1]]}
  {
    var prefix := order[..|order| - 1];
    forall c | c in Claimed(order, argmin) ensures c in Claimed(prefix, argmin) + {argmin[order[|order| - 1]]} {
      var t :| 0 <= t < |order| && argmin[order[t]] == c;
      if t < |prefix| {
        assert argmin[prefix[t]] == c;
      }
    }
    forall c | c in Claimed(prefix, argmin) ensures c in Claimed(order, argmin) {
      var t :| 0 <= t < |prefix| && argmin[prefix[t]] == c;
      assert order[t] == prefix[t];
    }
  }

  /** Whether a row is the first claimant of its column does not depend on the rows after it. */
  lemma FirstClaimantFront(order: seq<nat>, argmin: seq<nat>, t: nat)
    requires t + 1 < |order| && forall u :: 0 <= u < |order| ==> order[u] < |argmin|
    ensures FirstClaimant(order, argmin, t) <==> FirstClaimant(order[..|order| - 1], argmin, t)
  {
    var prefix := order[..|order| - 1];
    assert forall u :: 0 <= u <= t ==> prefix[u] == order[u];
  }

  /** The greedy loop over a non-empty list: the loop over its front, then one more row. */
  lemma GreedyLast(order: seq<nat>, argmin: seq<nat>)
    requires order != [] && forall t :: 0 <= t < |order| ==> order[t] < |argmin|
    ensures Greedy(order, argmin) ==
      if order[|order| - 1] in RowsOf(Greedy(order[..|order| - 1], argmin))
         || argmin[order[|order| - 1]] in ColsOf(Greedy(order[..|order| - 1], argmin))
      then Greedy(order[..|order| - 1], argmin)
      else Greedy(order[..|order| - 1], argmin) + [(order[|order| - 1], argmin[order[|order| - 1]])]
  {
  }

  /** In pairs that match every row to its nearest column, a used row has its nearest column used. */
  lemma UsedRowUsedCol(g: seq<(nat, nat)>, argmin: seq<nat>, row: nat)
    requires row < |argmin| && forall k :: 0 <= k < |g| ==> g[k].0 < |argmin| && g[k].1 == argmin[g[k].0]
    ensures row in RowsOf(g) ==> argmin[row] in ColsOf(g)
  {
    if row in RowsOf(g) {
      var k :| 0 <= k < |g| && g[k].0 == row;
      assert g[k].1 in ColsOf(g);
    }
  }

  /** A greedy step whose row is used only when its column is adds that column to the used columns. */
  lemma StepCols(g: seq<(nat, nat)>, row: nat, col: nat)
    requires row in RowsOf(g) ==> col in ColsOf(g)
    ensures ColsOf(if row in RowsOf(g) || col in ColsOf(g) then g else g + [(row, col)]) == ColsOf(g) + {col}
  {
    if col !in ColsOf(g) {
      UsedSnoc(g, (row, col));
    }
  }

  /** The greedy loop uses a column exactly when it is the nearest column of some row. */
  lemma {:induction false} GreedyCols(order: seq<nat>, argmin: seq<nat>)
    requires forall t :: 0 <= t < |order| ==> order[t] < |argmin|
    ensures ColsOf(Greedy(order, argmin)) == Claimed(order, argmin)
    decreases |order|
  {
    if order != [] {
      var n := |order| - 1;
      var prefix := order[..n];
      FrontIndex(order, n);
      var g := Greedy(prefix, argmin);
      var row := order[n];
      var step := if row in RowsOf(g) || argmin[row] in ColsOf(g) then g else g + [(row, argmin[row])];
      assert Greedy(order, argmin) == step by { GreedyLast(order, argmin); }
      assert ColsOf(g) == Claimed(prefix, argmin) by { GreedyCols(prefix, argmin); }
      assert Claimed(order, argmin) == Claimed(prefix, argmin) + {argmin[row]} by { ClaimedSnoc(order, argmin); }
      assert ColsOf(step) == ColsOf(g) + {argmin[row]} by {
        UsedRowUsedCol(g, argmin, row);
        StepCols(g, row, argmin[row]);
      }
    }
  }

  /**
   * The closed form of the greedy loop over distinct rows: the row at position `t`
   * is matched exactly when no row processed before it has the same nearest column.
   */
  lemma {:induction false} GreedyRows(order: seq<nat>, argmin: seq<nat>)
    requires forall t :: 0 <= t < |order| ==> order[t] < |argmin|
    requires Distinct(order)
    ensures forall t :: 0 <= t < |order| ==> (order[t] in RowsOf(Greedy(order, argmin)) <==> FirstClaimant(order, argmin, t))
    decreases |order|, 1
  {
    forall t | 0 <= t < |order|
      ensures order[t] in RowsOf(Greedy(order, argmin)) <==> FirstClaimant(order, argmin, t)
    {
      DistinctLast(order);
      if t + 1 < |order| {
        GreedyRowsFront(order, argmin, t);
      } else {
        GreedyLastRow(order, argmin);
      }
    }
  }

  /** Induction step of `GreedyRows` for a row before the last one. */
  lemma {:induction false} GreedyRowsFront(order: seq<nat>, argmin: seq<nat>, t: nat)
    requires t + 1 < |order| && forall u :: 0 <= u < |order| ==> order[u] < |argmin|
    requires Distinct(order[..|order| - 1]) && order[|order| - 1] !in order[..|order| - 1]
    ensures order[t] in RowsOf(Greedy(order, argmin)) <==> FirstClaimant(order, argmin, t)
    decreases |order|, 0
  {
    var n := |order| - 1;
    var prefix := order[..n];
    FrontIndex(order, n);
    GreedyRows(prefix, argmin);
    FirstClaimantFront(order, argmin, t);
    var g := Greedy(prefix, argmin);
    assert order[t] == prefix[t];
    assert prefix[t] in RowsOf(g) <==> FirstClaimant(prefix, argmin, t);
    GreedyLast(order, argmin);
    if Greedy(order, argmin) != g {
      UsedSnoc(g, (order[n], argmin[order[n]]));
    }
  }

  /** The last row of a list of distinct rows is matched exactly when no earlier row has its nearest column. */
  lemma GreedyLastRow(order: seq<nat>, argmin: seq<nat>)
    requires order != [] && forall t :: 0 <= t < |order| ==> order[t] < |argmin|
    requires order[|order| - 1] !in order[..|order| - 1]
    ensures order[|order| - 1] in RowsOf(Greedy(order, argmin)) <==> FirstClaimant(order, argmin, |order| - 1)
  {
    var n := |order| - 1;
    var prefix := order[..n];
    FrontIndex(order, n);
    GreedyLast(order, argmin);
    GreedyCols(prefix, argmin);
    var g := Greedy(prefix, argmin);
    var row := order[n];
    assert row !in RowsOf(g);
    if argmin[row] in ColsOf(g) {
      assert argmin[row] in Claimed(prefix, argmin);
      var u :| 0 <= u < |prefix| && argmin[prefix[u]] == argmin[row];
      assert argmin[order[u]] == argmin[order[n]];
    } else {
      UsedSnoc(g, (row, argmin[row]));
      forall u | 0 <= u < n ensures argmin[order[u]] != argmin[order[n]] {
        assert argmin[prefix[u]] in Claimed(prefix, argmin);
      }
    }
  }

  /** A matched track takes its detection's centroid and its count restarts at 0 (tracker.py:47-49). */
  function MatchedTrack(r: Registry, id: nat, c: Point): (r': Registry)
    requires WellFormed(r) && id in r.objects
    ensures WellFormed(r') && r'.nextId == r.nextId && r'.objects.Keys == r.objects.Keys
  {
    r.(objects := r.objects[id := c], disappeared := r.disappeared[id := 0])
  }

  /** Pairs whose rows index `rowIds` at live ids and whose columns index `cs`. */
  ghost predicate PairsFit(r: Registry, rowIds: seq<nat>, cs: seq<Point>, pairs: seq<(nat, nat)>)
  {
    forall k :: 0 <= k < |pairs| ==> pairs[k].0 < |rowIds| && rowIds[pairs[k].0] in r.objects && pairs[k].1 < |cs|
  }

  /** The registry after applying the accepted pairs in order. */
  function AppliedPairs(r: Registry, rowIds: seq<nat>, cs: seq<Point>, pairs: seq<(nat, nat)>): (r': Registry)
    requires WellFormed(r) && PairsFit(r, rowIds, cs, pairs)
    ensures WellFormed(r') && r'.nextId == r.nextId && r'.objects.Keys == r.objects.Keys
    decreases |pairs|
  {
    if pairs == [] then r
    else
      var prefix, last := pairs[..|pairs| - 1], pairs[|pairs| - 1];
      assert forall k :: 0 <= k < |prefix| ==> prefix[k] == pairs[k];
      MatchedTrack(AppliedPairs(r, rowIds, cs, prefix), rowIds[last.0], cs[last.1])
  }

  /** Applying one more pair matches one more track. */
  lemma AppliedPairsSnoc(r: Registry, rowIds: seq<nat>, cs: seq<Point>, pairs: seq<(nat, nat)>, p: (nat, nat))
    requires WellFormed(r) && PairsFit(r, rowIds, cs, pairs + [p])
    ensures PairsFit(r, rowIds, cs, pairs)
    ensures AppliedPairs(r, rowIds, cs, pairs + [p]) ==
      MatchedTrack(AppliedPairs(r, rowIds, cs, pairs), rowIds[p.0], cs[p.1])
  {
    var q := pairs + [p];
    assert q[..|pairs|] == pairs;
    assert forall k :: 0 <= k < |pairs| ==> q[k] == pairs[k];
    assert q[|pairs|] == p;
  }

  /**
   * Applying pairs with distinct rows over distinct row ids: every matched track
   * holds its column's centroid with count 0.
   */
  lemma AppliedPairsMatched(r: Registry, rowIds: seq<nat>, cs: seq<Point>, pairs: seq<(nat, nat)>)
    requires WellFormed(r) && PairsFit(r, rowIds, cs, pairs) && StrictlyIncreasing(rowIds)
    requires forall k, l :: 0 <= k < l < |pairs| ==> pairs[k].0 != pairs[l].0
    ensures forall k :: 0 <= k < |pairs| ==>
      && AppliedPairs(r, rowIds, cs, pairs).objects[rowIds[pairs[k].0]] == cs[pairs[k].1]
      && AppliedPairs(r, rowIds, cs, pairs).disappeared[rowIds[pairs[k].0]] == 0
  {
    forall k | 0 <= k < |pairs|
      ensures AppliedPairs(r, rowIds, cs, pairs).objects[rowIds[pairs[k].0]] == cs[pairs[k].1]
      ensures AppliedPairs(r, rowIds, cs, pairs).disappeared[rowIds[pairs[k].0]] == 0
    {
      AppliedPairsMatchedAt(r, rowIds, cs, pairs, k);
    }
  }

  /** `AppliedPairsMatched` for the pair at position `k`, by induction on the pairs after it. */
  lemma {:induction false} AppliedPairsMatchedAt(r: Registry, rowIds: seq<nat>, cs: seq<Point>, pairs: seq<(nat, nat)>, k: nat)
    requires WellFormed(r) && PairsFit(r, rowIds, cs, pairs) && StrictlyIncreasing(rowIds)
    requires k < |pairs| && forall l :: k < l < |pairs| ==> pairs[l].0 != pairs[k].0
    ensures AppliedPairs(r, rowIds, cs, pairs).objects[rowIds[pairs[k].0]] == cs[pairs[k].1]
    ensures AppliedPairs(r, rowIds, cs, pairs).disappeared[rowIds[pairs[k].0]] == 0
    decreases |pairs|
  {
    var n := |pairs| - 1;
    var prefix, last := pairs[..n], pairs[n];
    assert pairs == prefix + [last];
    AppliedPairsSnoc(r, rowIds, cs, prefix, last);
    var before := AppliedPairs(r, rowIds, cs, prefix);
    var after := AppliedPairs(r, rowIds, cs, pairs);
    var id := rowIds[pairs[k].0];
    assert after == MatchedTrack(before, rowIds[last.0], cs[last.1]);
    if k < n {
      assert forall l :: 0 <= l < n ==> prefix[l] == pairs[l];
      AppliedPairsMatchedAt(r, rowIds, cs, prefix, k);
      IncreasingAt(rowIds, pairs[k].0, last.0);
      assert after.objects[id] == before.objects[id] && after.disappeared[id] == before.disappeared[id];
    }
  }

  /** Applying pairs leaves every track that no pair names unchanged. */
  lemma AppliedPairsUntouched(r: Registry, rowIds: seq<nat>, cs: seq<Point>, pairs: seq<(nat, nat)>)
    requires WellFormed(r) && PairsFit(r, rowIds, cs, pairs)
    ensures forall id :: id in r.objects && (forall k :: 0 <= k < |pairs| ==> rowIds[pairs[k].0] != id) ==>
      && AppliedPairs(r, rowIds, cs, pairs).objects[id] == r.objects[id]
      && AppliedPairs(r, rowIds, cs, pairs).disappeared[id] == r.disappeared[id]
  {
    forall id | id in r.objects && (forall k :: 0 <= k < |pairs| ==> rowIds[pairs[k].0] != id)
      ensures AppliedPairs(r, rowIds, cs, pairs).objects[id] == r.objects[id]
      ensures AppliedPairs(r, rowIds, cs, pairs).disappeared[id] == r.disappeared[id]
    {
      AppliedPairsUntouchedAt(r, rowIds, cs, pairs, id);
    }
  }

  /** `AppliedPairsUntouched` for one id, by induction on the pairs. */
  lemma {:induction false} AppliedPairsUntouchedAt(r: Registry, rowIds: seq<nat>, cs: seq<Point>, pairs: seq<(nat, nat)>, id: nat)
    requires WellFormed(r) && PairsFit(r, rowIds, cs, pairs)
    requires id in r.objects && forall k :: 0 <= k < |pairs| ==> rowIds[pairs[k].0] != id
    ensures AppliedPairs(r, rowIds, cs, pairs).objects[id] == r.objects[id]
    ensures AppliedPairs(r, rowIds, cs, pairs).disappeared[id] == r.disappeared[id]
    decreases |pairs|
  {
    if pairs != [] {
      var n := |pairs| - 1;
      var prefix, last := pairs[..n], pairs[n];
      assert pairs == prefix + [last];
      AppliedPairsSnoc(r, rowIds, cs, prefix, last);
      assert forall k :: 0 <= k < |prefix| ==> prefix[k] == pairs[k];
      AppliedPairsUntouchedAt(r, rowIds, cs, prefix, id);
      assert rowIds[pairs[n].0] != id;
    }
  }

  /**
   * The indices below `n` that are not in `used`, ascending. Python iterates the set
   * `set(range(0, n)) - used` in an order that depends on CPython's hash-table layout
   * (it can visit 9 before 2); the model fixes that order to ascending.
   */
  function Unused(used: set<nat>, n: nat): (u: seq<nat>)
    ensures forall x: nat :: x in u <==> x < n && x !in used
    ensures forall k :: 0 <= k < |u| ==> u[k] < n
    ensures StrictlyIncreasing(u)
  {
    if n == 0 then []
    else if n - 1 in used then
      var u := Unused(used, n - 1);
      assert forall x: nat :: x in u <==> x < n && x !in used;
      u
    else
      var u := Unused(used, n - 1);
      assert forall i :: 0 <= i < |u| ==> u[i] in u;
      IncreasingSnoc(u, n - 1);
      u + [n - 1]
  }

  /** The elements of `s` at the positions `idx`, in that order. */
  function Select<T>(s: seq<T>, idx: seq<nat>): (r: seq<T>)
    requires forall k :: 0 <= k < |idx| ==> idx[k] < |s|
    ensures |r| == |idx| && forall k :: 0 <= k < |idx| ==> r[k] == s[idx[k]]
  {
    seq(|idx|, k requires 0 <= k < |idx| && (forall k :: 0 <= k < |idx| ==> idx[k] < |s|) => s[idx[k]])
  }

  /** Selecting increasing positions of an increasing sequence gives an increasing sequence. */
  lemma SelectIncreasing(s: seq<int>, idx: seq<nat>)
    requires forall k :: 0 <= k < |idx| ==> idx[k] < |s|
    requires StrictlyIncreasing(s) && StrictlyIncreasing(idx)
    ensures StrictlyIncreasing(Select(s, idx))
  {
    var r := Select(s, idx);
    forall a, b | 0 <= a < b < |r| ensures r[a] < r[b] {
      assert idx[a] < idx[b];
    }
  }

  /** Everything `update` derives from the registry and the detections before changing anything (tracker.py:37-44). */
  datatype Association = Association(rowIds: seq<nat>, argmins: seq<nat>, order: seq<nat>, pairs: seq<(nat, nat)>)

  /** The shape every association of `r` with `cs` has: indices in range and the pairs the greedy loop accepts. */
  ghost predicate Coherent(r: Registry, cs: seq<Point>, a: Association)
  {
    && (forall i :: 0 <= i < |a.rowIds| ==> a.rowIds[i] in r.objects)
    && |a.argmins| == |a.rowIds| && |a.order| == |a.rowIds|
    && (forall t :: 0 <= t < |a.order| ==> a.order[t] < |a.rowIds|)
    && (forall i :: 0 <= i < |a.argmins| ==> a.argmins[i] < |cs|)
    && a.pairs == Greedy(a.order, a.argmins)
  }

  /** Object ids, nearest columns, the processing order and the accepted pairs. */
  function Associate(r: Registry, cs: seq<Point>): (a: Association)
    requires WellFormed(r) && |cs| > 0
    ensures a.rowIds == LiveIds(r) && |a.argmins| == |a.rowIds| && |a.order| == |a.rowIds|
    ensures forall t :: 0 <= t < |a.order| ==> a.order[t] < |a.rowIds|
    ensures forall i :: 0 <= i < |a.argmins| ==> a.argmins[i] < |cs|
  {
    var ps := TrackCentroids(r);
    var argmins := ArgMins(ps, cs);
    var order := ArgSort(RowMins(ps, cs), |ps|);
    Association(LiveIds(r), argmins, order, Greedy(order, argmins))
  }

  /** `Associate` builds a coherent association. */
  lemma AssociateCoherent(r: Registry, cs: seq<Point>)
    requires WellFormed(r) && |cs| > 0
    ensures Coherent(r, cs, Associate(r, cs))
  {
    var ids := LiveIds(r);
    assert forall i :: 0 <= i < |ids| ==> ids[i] in ids;
  }

  /** The accepted pairs fit the registry they were computed from. */
  lemma AssociationFits(r: Registry, cs: seq<Point>)
    requires WellFormed(r) && |cs| > 0
    ensures var a := Associate(r, cs); PairsFit(r, a.rowIds, cs, a.pairs)
  {
    var a := Associate(r, cs);
    forall k | 0 <= k < |a.pairs| ensures a.pairs[k].0 < |a.rowIds| && a.rowIds[a.pairs[k].0] in r.objects && a.pairs[k].1 < |cs| {
      assert a.pairs[k].0 in a.order;
      assert a.rowIds[a.pairs[k].0] in a.rowIds;
    }
  }

  /** After the greedy loop (tracker.py:44-51): every accepted pair applied to the registry. */
  function Matched(r: Registry, cs: seq<Point>): (r': Registry)
    requires WellFormed(r) && |cs| > 0
    ensures WellFormed(r') && r'.nextId == r.nextId && r'.objects.Keys == r.objects.Keys
  {
    var a := Associate(r, cs);
    AssociationFits(r, cs);
    AppliedPairs(r, a.rowIds, cs, a.pairs)
  }

  /** The ids of the rows left unmatched, ascending (tracker.py:53 and 56-57). */
  function UnmatchedIds(r: Registry, cs: seq<Point>): (ids: seq<nat>)
    requires WellFormed(r) && |cs| > 0
    ensures StrictlyIncreasing(ids)
    ensures forall k :: 0 <= k < |ids| ==> ids[k] in r.objects
  {
    var a := Associate(r, cs);
    var rows := Unused(RowsOf(a.pairs), |a.rowIds|);
    SelectIncreasing(a.rowIds, rows);
    var ids := Select(a.rowIds, rows);
    assert forall k :: 0 <= k < |ids| ==> ids[k] == a.rowIds[rows[k]] && a.rowIds[rows[k]] in a.rowIds;
    ids
  }

  /** The centroids of the columns left unmatched, in the ascending order `Unused` fixes (tracker.py:54 and 62-63). */
  function UnmatchedCentroids(r: Registry, cs: seq<Point>): (ps: seq<Point>)
    requires WellFormed(r) && |cs| > 0
  {
    var a := Associate(r, cs);
    var cols := Unused(ColsOf(a.pairs), |cs|);
    Select(cs, cols)
  }

  /** After the aging loop of tracker.py:56-60. */
  function Aged(r: Registry, cs: seq<Point>, maxDisappeared: int): (r': Registry)
    requires WellFormed(r) && |cs| > 0
    ensures WellFormed(r') && r'.nextId == r.nextId
  {
    var ids := UnmatchedIds(r, cs);
    IncreasingDistinct(ids);
    MissedAll(Matched(r, cs), ids, maxDisappeared)
  }

  /**
   * tracker.py:37-63, when both the registry and the detections are non-empty:
   * match greedily, age the unmatched tracks, register the unmatched detections.
   */
  function MatchStep(r: Registry, cs: seq<Point>, maxDisappeared: int): (r': Registry)
    requires WellFormed(r) && |cs| > 0
    ensures WellFormed(r')
  {
    RegisteredAll(Aged(r, cs, maxDisappeared), UnmatchedCentroids(r, cs))
  }

  /** After the greedy loop: the track in a matched row `i` holds the centroid of its nearest detection with count 0. */
  lemma MatchedRowsEffect(r: Registry, cs: seq<Point>)
    requires WellFormed(r) && |cs| > 0
    ensures forall i :: 0 <= i < |LiveIds(r)| && i in RowsOf(Associate(r, cs).pairs) ==>
      && LiveIds(r)[i] in Matched(r, cs).objects
      && Matched(r, cs).objects[LiveIds(r)[i]] == cs[Associate(r, cs).argmins[i]]
      && Matched(r, cs).disappeared[LiveIds(r)[i]] == 0
  {
    var a := Associate(r, cs);
    var ids := LiveIds(r);
    forall i | 0 <= i < |ids| && i in RowsOf(a.pairs)
      ensures ids[i] in Matched(r, cs).objects
      ensures Matched(r, cs).objects[ids[i]] == cs[a.argmins[i]] && Matched(r, cs).disappeared[ids[i]] == 0
    {
      assert ids[i] in ids;
      var k :| 0 <= k < |a.pairs| && a.pairs[k].0 == i;
      MatchedPairEffect(r, cs, k);
    }
  }

  /** After the greedy loop: the track of the `k`-th accepted pair holds that pair's centroid with count 0. */
  lemma MatchedPairEffect(r: Registry, cs: seq<Point>, k: nat)
    requires WellFormed(r) && |cs| > 0 && k < |Associate(r, cs).pairs|
    ensures Matched(r, cs).objects[LiveIds(r)[Associate(r, cs).pairs[k].0]] == cs[Associate(r, cs).pairs[k].1]
    ensures Matched(r, cs).disappeared[LiveIds(r)[Associate(r, cs).pairs[k].0]] == 0
  {
    var a := Associate(r, cs);
    var ids := LiveIds(r);
    assert ids[a.pairs[k].0] in ids;
    AssociationFits(r, cs);
    assert Matched(r, cs) == AppliedPairs(r, ids, cs, a.pairs);
    GreedyInjective(a.order, a.argmins);
    AppliedPairsMatchedAt(r, ids, cs, a.pairs, k);
  }

  /** After the greedy loop: the track in a row that was not matched is unchanged. */
  lemma MatchedOthersEffect(r: Registry, cs: seq<Point>)
    requires WellFormed(r) && |cs| > 0
    ensures forall i :: 0 <= i < |LiveIds(r)| && i !in RowsOf(Associate(r, cs).pairs) ==>
      && LiveIds(r)[i] in Matched(r, cs).objects
      && Matched(r, cs).objects[LiveIds(r)[i]] == r.objects[LiveIds(r)[i]]
      && Matched(r, cs).disappeared[LiveIds(r)[i]] == r.disappeared[LiveIds(r)[i]]
  {
    var a := Associate(r, cs);
    var ids := LiveIds(r);
    AssociationFits(r, cs);
    assert Matched(r, cs) == AppliedPairs(r, ids, cs, a.pairs);
    AppliedPairsUntouched(r, ids, cs, a.pairs);
    forall i | 0 <= i < |ids| && i !in RowsOf(a.pairs)
      ensures ids[i] in r.objects
      ensures forall k :: 0 <= k < |a.pairs| ==> ids[a.pairs[k].0] != ids[i]
    {
      assert ids[i] in ids;
      forall k | 0 <= k < |a.pairs| ensures ids[a.pairs[k].0] != ids[i] {
        var row := a.pairs[k].0;
        assert row in RowsOf(a.pairs);
        IncreasingAt(ids, row, i);
      }
    }
  }

  /** The ids of the tracks the greedy loop matched. */
  function MatchedIds(r: Registry, cs: seq<Point>): set<nat>
    requires WellFormed(r) && |cs| > 0
  {
    var a := Associate(r, cs);
    AssociationFits(r, cs);
    set k | 0 <= k < |a.pairs| :: a.rowIds[a.pairs[k].0]
  }

  /** A track is matched exactly when its row is. */
  lemma MatchedIdsRows(r: Registry, cs: seq<Point>)
    requires WellFormed(r) && |cs| > 0
    ensures forall i :: 0 <= i < |LiveIds(r)| ==>
      (LiveIds(r)[i] in MatchedIds(r, cs) <==> i in RowsOf(Associate(r, cs).pairs))
  {
    var a := Associate(r, cs);
    var ids := LiveIds(r);
    AssociationFits(r, cs);
    IncreasingDistinct(ids);
    forall i | 0 <= i < |ids| ensures ids[i] in MatchedIds(r, cs) <==> i in RowsOf(a.pairs) {
      if ids[i] in MatchedIds(r, cs) {
        var k :| 0 <= k < |a.pairs| && ids[a.pairs[k].0] == ids[i];
        assert a.pairs[k].0 == i;
      }
    }
  }

  /** The tracks the aging loop visits are exactly the live tracks that were not matched. */
  lemma UnmatchedIdsMembers(r: Registry, cs: seq<Point>)
    requires WellFormed(r) && |cs| > 0
    ensures forall id :: id in UnmatchedIds(r, cs) <==> id in r.objects && id !in MatchedIds(r, cs)
  {
    var a := Associate(r, cs);
    var ids := LiveIds(r);
    assert UnmatchedIds(r, cs) == Select(a.rowIds, Unused(RowsOf(a.pairs), |a.rowIds|));
    assert a.rowIds == ids;
    MatchedIdsRows(r, cs);
    SelectUnusedMembers(ids, RowsOf(a.pairs), MatchedIds(r, cs));
  }

  /**
   * Keeping the entries of `ids` at the positions not in `used`: when `used`
   * holds exactly the positions whose entries are in `m`, what is kept is what
   * `ids` holds outside `m`.
   */
  lemma SelectUnusedMembers(ids: seq<nat>, used: set<nat>, m: set<nat>)
    requires forall i :: 0 <= i < |ids| ==> (ids[i] in m <==> i in used)
    ensures forall id :: id in Select(ids, Unused(used, |ids|)) <==> id in ids && id !in m
  {
    var rows := Unused(used, |ids|);
    var u := Select(ids, rows);
    assert forall k :: 0 <= k < |rows| ==> rows[k] in rows;
    forall id | id in u ensures id in ids && id !in m {
      var k :| 0 <= k < |u| && u[k] == id;
      assert rows[k] in rows;
      assert id == ids[rows[k]];
    }
    forall id | id in ids && id !in m ensures id in u {
      var i :| 0 <= i < |ids| && ids[i] == id;
      assert i in rows;
      var k :| 0 <= k < |rows| && rows[k] == i;
      assert u[k] == id;
    }
  }

  /** The aging loop creates no track and leaves the counter alone. */
  lemma AgedShrinks(r: Registry, cs: seq<Point>, maxDisappeared: int)
    requires WellFormed(r) && |cs| > 0
    ensures WellFormed(Aged(r, cs, maxDisappeared)) && Aged(r, cs, maxDisappeared).nextId == r.nextId
    ensures forall id :: id in Aged(r, cs, maxDisappeared).objects ==> id in r.objects
  {
    var u := UnmatchedIds(r, cs);
    IncreasingDistinct(u);
    MissedAllShrinks(Matched(r, cs), u, maxDisappeared);
  }

  /**
   * After the aging loop: a matched track holds the centroid of its nearest
   * detection with count 0; an unmatched one has aged once (and is gone if that
   * took it past the threshold); no centroid of an unmatched track changes.
   */
  lemma AgedEffect(r: Registry, cs: seq<Point>, maxDisappeared: int)
    requires WellFormed(r) && |cs| > 0
    ensures forall id :: id in Aged(r, cs, maxDisappeared).objects ==> id in r.objects
    ensures forall id :: id in r.objects && id in MatchedIds(r, cs) ==>
      && id in Aged(r, cs, maxDisappeared).objects
      && Aged(r, cs, maxDisappeared).objects[id] == cs[ArgMinCol(r.objects[id], cs)]
      && Aged(r, cs, maxDisappeared).disappeared[id] == 0
    ensures forall id :: id in r.objects && id !in MatchedIds(r, cs) ==>
      && (id in Aged(r, cs, maxDisappeared).objects <==> MissStep(r.disappeared[id], maxDisappeared).Some?)
      && (id in Aged(r, cs, maxDisappeared).objects ==>
            Aged(r, cs, maxDisappeared).objects[id] == r.objects[id] &&
            Some(Aged(r, cs, maxDisappeared).disappeared[id]) == MissStep(r.disappeared[id], maxDisappeared))
  {
    var a := Associate(r, cs);
    var ids := LiveIds(r);
    var m := Matched(r, cs);
    var u := UnmatchedIds(r, cs);
    IncreasingDistinct(u);
    MatchedRowsEffect(r, cs);
    MatchedOthersEffect(r, cs);
    MatchedIdsRows(r, cs);
    UnmatchedIdsMembers(r, cs);
    MissedAllShrinks(m, u, maxDisappeared);
    MissedAllAged(m, u, maxDisappeared);
    MissedAllOthers(m, u, maxDisappeared);
    var r' := Aged(r, cs, maxDisappeared);
    assert r' == MissedAll(m, u, maxDisappeared);
    forall id | id in r.objects
      ensures id in MatchedIds(r, cs) ==> id in r' .objects && r'.objects[id] == cs[ArgMinCol(r.objects[id], cs)] && r'.disappeared[id] == 0
      ensures id !in MatchedIds(r, cs) ==> m.objects[id] == r.objects[id] && m.disappeared[id] == r.disappeared[id]
    {
      assert id in ids;
      var i :| 0 <= i < |ids| && ids[i] == id;
      assert TrackCentroids(r)[i] == r.objects[id];
    }
  }

  /**
   * What one matched update (tracker.py:37-63) does to the existing tracks:
   * matched tracks take their nearest detection's centroid with count 0;
   * unmatched ones age once, and are gone once that takes them past the threshold.
   */
  lemma MatchStepExisting(r: Registry, cs: seq<Point>, maxDisappeared: int)
    requires WellFormed(r) && |cs| > 0
    ensures forall id :: id in r.objects && id in MatchedIds(r, cs) ==>
      && id in MatchStep(r, cs, maxDisappeared).objects
      && MatchStep(r, cs, maxDisappeared).objects[id] == cs[ArgMinCol(r.objects[id], cs)]
      && MatchStep(r, cs, maxDisappeared).disappeared[id] == 0
    ensures forall id :: id in r.objects && id !in MatchedIds(r, cs) ==>
      && (id in MatchStep(r, cs, maxDisappeared).objects <==> MissStep(r.disappeared[id], maxDisappeared).Some?)
      && (id in MatchStep(r, cs, maxDisappeared).objects ==>
            MatchStep(r, cs, maxDisappeared).objects[id] == r.objects[id] &&
            Some(MatchStep(r, cs, maxDisappeared).disappeared[id]) == MissStep(r.disappeared[id], maxDisappeared))
  {
    var aged := Aged(r, cs, maxDisappeared);
    var r' := MatchStep(r, cs, maxDisappeared);
    assert r' == RegisteredAll(aged, UnmatchedCentroids(r, cs));
    AgedEffect(r, cs, maxDisappeared);
    RegisteredAllKeeps(aged, UnmatchedCentroids(r, cs));
    RegisteredAllDomain(aged, UnmatchedCentroids(r, cs));
    forall id | id in r.objects && id !in aged.objects ensures id !in r'.objects {
      assert id < r.nextId;
    }
  }

  /**
   * What one matched update does beyond the existing tracks: the detections no
   * track took become the tracks `next_id, next_id + 1, ...` with count 0, taken in
   * the ascending column order `Unused` fixes, and no other id appears.
   */
  lemma MatchStepRegisters(r: Registry, cs: seq<Point>, maxDisappeared: int)
    requires WellFormed(r) && |cs| > 0
    ensures MatchStep(r, cs, maxDisappeared).nextId == r.nextId + |UnmatchedCentroids(r, cs)|
    ensures forall id :: id in MatchStep(r, cs, maxDisappeared).objects ==>
      id in r.objects || r.nextId <= id < MatchStep(r, cs, maxDisappeared).nextId
    ensures forall id :: r.nextId <= id < MatchStep(r, cs, maxDisappeared).nextId ==>
      && id in MatchStep(r, cs, maxDisappeared).objects
      && MatchStep(r, cs, maxDisappeared).objects[id] == UnmatchedCentroids(r, cs)[id - r.nextId]
      && MatchStep(r, cs, maxDisappeared).disappeared[id] == 0
  {
    AgedShrinks(r, cs, maxDisappeared);
    RegisteredOntoDomain(r, Aged(r, cs, maxDisappeared), UnmatchedCentroids(r, cs));
    RegisteredOntoNew(r, Aged(r, cs, maxDisappeared), UnmatchedCentroids(r, cs));
  }

  /** Registering `u` on top of a registry `a` whose tracks all come from `r` and which kept `r`'s counter adds only fresh ids. */
  lemma RegisteredOntoDomain(r: Registry, a: Registry, u: seq<Point>)
    requires a.nextId == r.nextId
    requires forall id :: id in a.objects ==> id in r.objects
    ensures RegisteredAll(a, u).nextId == r.nextId + |u|
    ensures forall id :: id in RegisteredAll(a, u).objects ==> id in r.objects || r.nextId <= id < r.nextId + |u|
  {
    RegisteredAllDomain(a, u);
  }

  /** The fresh ids of `RegisteredOntoDomain` hold the centroids of `u` in order, with count 0. */
  lemma RegisteredOntoNew(r: Registry, a: Registry, u: seq<Point>)
    requires WellFormed(a) && a.nextId == r.nextId
    ensures forall id :: r.nextId <= id < r.nextId + |u| ==>
      && id in RegisteredAll(a, u).objects
      && RegisteredAll(a, u).objects[id] == u[id - r.nextId]
      && RegisteredAll(a, u).disappeared[id] == 0
  {
    RegisteredAllNew(a, u);
  }

  // ---------------------------------------------------------------------------
  // the bounded trail and the per-track history (tracker.py:65-74)
  // ---------------------------------------------------------------------------

  /** `trail_map.append(c)`, then `pop(0)` when over capacity. */
  function PushedOne(trail: seq<Point>, c: Point, cap: nat): seq<Point>
  {
    var t := trail + [c];
    if |t| > cap then t[1..] else t
  }

  /** The trail after pushing every centroid of `cs` in order. */
  function Pushed(trail: seq<Point>, cs: seq<Point>, cap: nat): seq<Point>
    decreases |cs|
  {
    if cs == [] then trail else PushedOne(Pushed(trail, cs[..|cs| - 1], cap), cs[|cs| - 1], cap)
  }

  /**
   * The trail is a sliding window: it always holds the newest `cap` centroids
   * ever pushed (all of them while fewer), so it never exceeds `cap` and the
   * oldest entries are the ones dropped.
   */
  lemma {:induction false} PushedIsWindow(trail: seq<Point>, cs: seq<Point>, cap: nat)
    requires |trail| <= cap
    ensures Pushed(trail, cs, cap) == LastN(trail + cs, cap)
    ensures |Pushed(trail, cs, cap)| <= cap
    decreases |cs|
  {
    if cs != [] {
      var prefix, last := cs[..|cs| - 1], cs[|cs| - 1];
      assert Pushed(trail, cs, cap) == PushedOne(LastN(trail + prefix, cap), last, cap) by {
        PushedIsWindow(trail, prefix, cap);
      }
      assert PushedOne(LastN(trail + prefix, cap), last, cap) == LastN(trail + cs, cap) by {
        LastNAppend(trail + prefix, last, cap);
        assert trail + cs == (trail + prefix) + [last];
      }
    }
  }

  /** One track's history after lines 66-69: start empty if absent, append, keep the last 30. */
  function HistoryAfter(history: map<nat, seq<Point>>, id: nat, c: Point): seq<Point>
  {
    var h := if id in history then history[id] else [];
    LastN(h + [c], HistoryLength)
  }

  /** The history after recording each `(id, centroid)` of `objs` in order (the loop of tracker.py:65-69). */
  function Recorded(history: map<nat, seq<Point>>, objs: seq<TrackedObject>): map<nat, seq<Point>>
    decreases |objs|
  {
    if objs == [] then history
    else
      var before := Recorded(history, objs[..|objs| - 1]);
      var o := objs[|objs| - 1];
      before[o.id := HistoryAfter(before, o.id, o.centroid)]
  }

  /**
   * Recording tracks with distinct ids: each one's history gains its current
   * centroid and keeps at most 30 entries; other histories are left as they were.
   */
  lemma {:induction false} RecordedEffect(history: map<nat, seq<Point>>, objs: seq<TrackedObject>)
    requires Distinct(Ids(objs))
    ensures forall i :: 0 <= i < |objs| ==>
      objs[i].id in Recorded(history, objs) && Recorded(history, objs)[objs[i].id] == HistoryAfter(history, objs[i].id, objs[i].centroid)
    ensures forall i :: 0 <= i < |objs| ==> |Recorded(history, objs)[objs[i].id]| <= HistoryLength
    ensures forall id :: id in Recorded(history, objs) <==> id in history || id in Ids(objs)
    ensures forall id :: id in history && id !in Ids(objs) ==> Recorded(history, objs)[id] == history[id]
    decreases |objs|
  {
    if objs != [] {
      var prefix := objs[..|objs| - 1];
      var last := objs[|objs| - 1];
      assert Ids(objs) == Ids(prefix) + [last.id];
      assert Distinct(Ids(prefix)) by {
        forall a, b | 0 <= a < b < |prefix| ensures Ids(prefix)[a] != Ids(prefix)[b] {
          assert Ids(objs)[a] != Ids(objs)[b];
        }
      }
      forall i | 0 <= i < |prefix| ensures prefix[i].id != last.id {
        assert Ids(objs)[i] != Ids(objs)[|objs| - 1];
      }
      RecordedEffect(history, prefix);
      var before := Recorded(history, prefix);
      var h := Recorded(history, objs);
      assert h == before[last.id := HistoryAfter(before, last.id, last.centroid)];
      assert last.id !in Ids(prefix);
      assert HistoryAfter(before, last.id, last.centroid) == HistoryAfter(history, last.id, last.centroid);
      forall i | 0 <= i < |objs|
        ensures objs[i].id in h && h[objs[i].id] == HistoryAfter(history, objs[i].id, objs[i].centroid)
      {
        if i < |prefix| {
          assert objs[i] == prefix[i];
        }
      }
    }
  }
}
