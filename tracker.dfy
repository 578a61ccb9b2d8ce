/**
 * `CentroidTracker` of `tracker.py` as a class: the registry in fields that its
 * methods update in place, each method proved against the value-level steps of
 * `TrackerSpec`.
 */
module Tracker {
  import opened Common
  import opened Geometry
  import opened TrackerSpec

  /**
   * What a call of `update` ends in: the tracked objects it returns, or the
   * `NameError` that tracker.py:65 raises (after the registry has been updated).
   */
  datatype UpdateResult = Tracked(objects: seq<TrackedObject>) | NameError

  class CentroidTracker {
    var nextId: nat
    const maxTrail: nat
    var trailMap: seq<Point>
    var objectHistory: map<nat, seq<Point>>
    var objects: map<nat, Point>
    var disappeared: map<nat, nat>
    const maxDisappeared: int

    /** The registry the fields hold. */
    function Reg(): Registry
      reads this
    {
      Registry(nextId, objects, disappeared)
    }

    /** The tracker's invariant: a well-formed registry and a trail within its capacity. */
    ghost predicate Valid()
      reads this
    {
      WellFormed(Reg()) && |trailMap| <= maxTrail
    }

    /** `__init__`: no tracks, ids from 0, an empty trail of capacity 20000. */
    constructor(maxDisappeared: int := DefaultMaxDisappeared)
      ensures Valid()
      ensures Reg() == Registry(0, map[], map[]) && trailMap == [] && objectHistory == map[]
      ensures this.maxDisappeared == maxDisappeared && maxTrail == MaxTrail
    {
      nextId := 0;
      maxTrail := MaxTrail;
      trailMap := [];
      objectHistory := map[];
      objects := map[];
      disappeared := map[];
      this.maxDisappeared := maxDisappeared;
    }

    /** `register`. */
    method Register(c: Point)
      requires Valid()
      modifies this`nextId, this`objects, this`disappeared
      ensures Valid() && Reg() == Registered(old(Reg()), c)
    {
      objects := objects[nextId := c];
      disappeared := disappeared[nextId := 0];
      nextId := nextId + 1;
    }

    /** `deregister`; `del` of a missing key raises, so the id must be live. */
    method Deregister(id: nat)
      requires Valid() && id in objects
      modifies this`objects, this`disappeared
      ensures Valid() && Reg() == Deregistered(old(Reg()), id)
    {
      objects := objects - {id};
      disappeared := disappeared - {id};
    }

    /** One unmatched update of a live track (tracker.py:26-28 and 58-60). */
    method AgeTrack(id: nat)
      requires Valid() && id in objects
      modifies this`objects, this`disappeared
      ensures Valid() && Reg() == Missed(old(Reg()), id, maxDisappeared)
    {
      disappeared := disappeared[id := disappeared[id] + 1];
      if disappeared[id] > maxDisappeared {
        Deregister(id);
      }
    }

    /** An aging loop (tracker.py:25-28 and 56-60) over a list of distinct live ids. */
    method AgeAll(toAge: seq<nat>)
      requires Valid() && AgeableIn(Reg(), toAge)
      modifies this`objects, this`disappeared
      ensures Valid() && Reg() == MissedAll(old(Reg()), toAge, maxDisappeared)
    {
      ghost var r0 := Reg();
      for k := 0 to |toAge|
        invariant AgeableIn(r0, toAge[..k])
        invariant Valid() && Reg() == MissedAll(r0, toAge[..k], maxDisappeared)
      {
        AgeablePrefix(r0, toAge, k, maxDisappeared);
        AgeTrack(toAge[k]);
      }
      assert toAge[..|toAge|] == toAge;
    }

    /** tracker.py:25-28: every live track, in dict order, goes unmatched once. */
    method AgeEveryTrack()
      requires Valid()
      modifies this`objects, this`disappeared
      ensures Valid() && Reg() == MissedAll(old(Reg()), LiveIds(old(Reg())), maxDisappeared)
    {
      var ids := LiveIds(Reg());
      IncreasingDistinct(ids);
      assert forall i :: 0 <= i < |ids| ==> ids[i] in ids;
      AgeAll(ids);
    }

    /** A registration loop (tracker.py:34-35 and 62-63). */
    method RegisterAll(cs: seq<Point>)
      requires Valid()
      modifies this`nextId, this`objects, this`disappeared
      ensures Valid() && Reg() == RegisteredAll(old(Reg()), cs)
    {
      ghost var r0 := Reg();
      for k := 0 to |cs|
        invariant Valid() && Reg() == RegisteredAll(r0, cs[..k])
      {
        assert cs[..k + 1][..k] == cs[..k];
        Register(cs[k]);
      }
      assert cs[..|cs|] == cs;
    }

    /** The trail loop of tracker.py:71-74: append each centroid, dropping the oldest past capacity. */
    method AppendTrail(cs: seq<Point>)
      requires Valid()
      modifies this`trailMap
      ensures Valid() && trailMap == Pushed(old(trailMap), cs, maxTrail)
    {
      ghost var t0 := trailMap;
      for k := 0 to |cs|
        invariant trailMap == Pushed(t0, cs[..k], maxTrail)
        invariant Valid()
      {
        assert cs[..k + 1][..k] == cs[..k];
        PushedIsWindow(t0, cs[..k + 1], maxTrail);
        trailMap := trailMap + [cs[k]];
        if |trailMap| > maxTrail {
          trailMap := trailMap[1..];
        }
      }
      assert cs[..|cs|] == cs;
    }

    /** tracker.py:48-49: a matched track takes the detection's centroid and its count restarts. */
    method MatchTrack(id: nat, c: Point)
      requires Valid() && id in objects
      modifies this`objects, this`disappeared
      ensures Valid() && Reg() == MatchedTrack(old(Reg()), id, c)
    {
      objects := objects[id := c];
      disappeared := disappeared[id := 0];
    }

    /**
     * One pass of the greedy loop (tracker.py:45-51): skip the row when it or its
     * nearest column is used, otherwise match its track and mark both used.
     */
    method ConsiderRow(ghost r0: Registry, a: Association, cs: seq<Point>, ghost g: seq<(nat, nat)>, row: nat,
                       usedRows: set<nat>, usedCols: set<nat>) returns (rows': set<nat>, cols': set<nat>, ghost g': seq<(nat, nat)>)
      requires WellFormed(r0) && Coherent(r0, cs, a) && row < |a.rowIds|
      requires PairsFit(r0, a.rowIds, cs, g) && usedRows == RowsOf(g) && usedCols == ColsOf(g)
      requires Valid() && Reg() == AppliedPairs(r0, a.rowIds, cs, g)
      modifies this`objects, this`disappeared
      ensures g' == if row in RowsOf(g) || a.argmins[row] in ColsOf(g) then g else g + [(row, a.argmins[row])]
      ensures PairsFit(r0, a.rowIds, cs, g')
      ensures rows' == RowsOf(g') && cols' == ColsOf(g')
      ensures Valid() && Reg() == AppliedPairs(r0, a.rowIds, cs, g')
    {
      var col := a.argmins[row];
      rows', cols', g' := usedRows, usedCols, g;
      if row !in usedRows && col !in usedCols {
        var objectId := a.rowIds[row];
        assert PairsFit(r0, a.rowIds, cs, g + [(row, col)]) by {
          assert forall k :: 0 <= k < |g| ==> (g + [(row, col)])[k] == g[k];
        }
        UsedSnoc(g, (row, col));
        AppliedPairsSnoc(r0, a.rowIds, cs, g, (row, col));
        MatchTrack(objectId, cs[col]);
        rows' := rows' + {row};
        cols' := cols' + {col};
        g' := g + [(row, col)];
      }
    }

    /**
     * The greedy loop of tracker.py:42-51 over the processing order: returns
     * `used_rows` and `used_cols`, and leaves every accepted pair applied.
     */
    method MatchGreedy(a: Association, cs: seq<Point>) returns (usedRows: set<nat>, usedCols: set<nat>)
      requires Valid() && Coherent(Reg(), cs, a)
      modifies this`objects, this`disappeared
      ensures PairsFit(old(Reg()), a.rowIds, cs, a.pairs)
      ensures Valid() && Reg() == AppliedPairs(old(Reg()), a.rowIds, cs, a.pairs)
      ensures usedRows == RowsOf(a.pairs) && usedCols == ColsOf(a.pairs)
    {
      ghost var r0 := Reg();
      ghost var g: seq<(nat, nat)> := [];
      usedRows, usedCols := {}, {};
      for t := 0 to |a.order|
        invariant g == Greedy(a.order[..t], a.argmins)
        invariant PairsFit(r0, a.rowIds, cs, g)
        invariant usedRows == RowsOf(g) && usedCols == ColsOf(g)
        invariant Valid() && Reg() == AppliedPairs(r0, a.rowIds, cs, g)
      {
        GreedyStep(a.order, a.argmins, t);
        usedRows, usedCols, g := ConsiderRow(r0, a, cs, g, a.order[t], usedRows, usedCols);
      }
      assert a.order[..|a.order|] == a.order;
    }

    /**
     * tracker.py:37-63 when both the registry and the detections are non-empty:
     * the greedy matching, the aging of unmatched tracks and the registration of
     * unmatched detections.
     */
    method MatchAndRegister(cs: seq<Point>)
      requires Valid() && |cs| > 0
      modifies this`nextId, this`objects, this`disappeared
      ensures Valid() && Reg() == MatchStep(old(Reg()), cs, maxDisappeared)
      ensures trailMap == old(trailMap) && objectHistory == old(objectHistory)
    {
      ghost var r0 := Reg();
      var a := Associate(Reg(), cs);
      AssociateCoherent(r0, cs);
      var usedRows, usedCols := MatchGreedy(a, cs);
      assert Reg() == Matched(r0, cs);
      var unusedRows := Unused(usedRows, |a.rowIds|);
      var unusedCols := Unused(usedCols, |cs|);
      var toAge := Select(a.rowIds, unusedRows);
      assert toAge == UnmatchedIds(r0, cs);
      IncreasingDistinct(toAge);
      AgeAll(toAge);
      assert Reg() == Aged(r0, cs, maxDisappeared);
      RegisterAll(Select(cs, unusedCols));
    }

    /** tracker.py:23-30: with no detections every track ages once and the tracks are returned. */
    method NoDetections() returns (result: UpdateResult)
      requires Valid()
      modifies this`objects, this`disappeared
      ensures Valid() && Reg() == MissedAll(old(Reg()), LiveIds(old(Reg())), maxDisappeared)
      ensures result == Tracked(Listed(Reg()))
      ensures trailMap == old(trailMap) && objectHistory == old(objectHistory)
    {
      AgeEveryTrack();
      result := Tracked(Listed(Reg()));
    }

    /** tracker.py:33-35 and 71-76: with an empty registry every centroid becomes a track and joins the trail. */
    method FirstDetections(cs: seq<Point>) returns (result: UpdateResult)
      requires Valid()
      modifies this`nextId, this`objects, this`disappeared, this`trailMap
      ensures Valid() && Reg() == RegisteredAll(old(Reg()), cs)
      ensures trailMap == Pushed(old(trailMap), cs, maxTrail)
      ensures result == Tracked(Listed(Reg()))
      ensures objectHistory == old(objectHistory)
    {
      RegisterAll(cs);
      AppendTrail(cs);
      result := Tracked(Listed(Reg()));
    }

    /**
     * `update(rects)` as written. With no detections every track ages once; with an
     * empty registry every centroid becomes a new track; otherwise the registry is
     * matched and updated and the call then raises the `NameError` of tracker.py:65,
     * leaving the history and the trail untouched.
     */
    method Update(rects: seq<Rect>) returns (result: UpdateResult)
      requires Valid()
      modifies this
      ensures Valid() && objectHistory == old(objectHistory)
      ensures rects == [] ==>
        && Reg() == MissedAll(old(Reg()), LiveIds(old(Reg())), maxDisappeared)
        && trailMap == old(trailMap)
        && result == Tracked(Listed(Reg()))
      ensures rects != [] && old(objects) == map[] ==>
        && Reg() == RegisteredAll(old(Reg()), Centroids(rects))
        && trailMap == Pushed(old(trailMap), Centroids(rects), maxTrail)
        && result == Tracked(Listed(Reg()))
      ensures rects != [] && old(objects) != map[] ==>
        && Reg() == MatchStep(old(Reg()), Centroids(rects), maxDisappeared)
        && trailMap == old(trailMap)
        && result == NameError
    {
      if rects == [] {
        result := NoDetections();
      } else if objects == map[] {
        result := FirstDetections(Centroids(rects));
      } else {
        MatchAndRegister(Centroids(rects));
        result := NameError;
      }
    }

    /** The history loop of tracker.py:65-69, over the tracks given. */
    method RecordHistory(objs: seq<TrackedObject>)
      modifies this`objectHistory
      ensures objectHistory == Recorded(old(objectHistory), objs)
    {
      ghost var h0 := objectHistory;
      for k := 0 to |objs|
        invariant objectHistory == Recorded(h0, objs[..k])
      {
        assert objs[..k + 1][..k] == objs[..k];
        var o := objs[k];
        if o.id !in objectHistory {
          objectHistory := objectHistory[o.id := []];
        }
        objectHistory := objectHistory[o.id := objectHistory[o.id] + [o.centroid]];
        objectHistory := objectHistory[o.id := LastN(objectHistory[o.id], HistoryLength)];
      }
      assert objs[..|objs|] == objs;
    }

    /**
     * `update(rects)` as evidently intended: as `Update`, except that the matched
     * branch records every live track's centroid in its history (lines 65-69 over
     * `self.objects`), appends to the trail and returns the tracked objects.
     */
    method UpdateIntended(rects: seq<Rect>) returns (result: UpdateResult)
      requires Valid()
      modifies this
      ensures Valid() && result == Tracked(Listed(Reg()))
      ensures rects == [] ==>
        && Reg() == MissedAll(old(Reg()), LiveIds(old(Reg())), maxDisappeared)
        && trailMap == old(trailMap) && objectHistory == old(objectHistory)
      ensures rects != [] && old(objects) == map[] ==>
        && Reg() == RegisteredAll(old(Reg()), Centroids(rects))
        && trailMap == Pushed(old(trailMap), Centroids(rects), maxTrail)
        && objectHistory == old(objectHistory)
      ensures rects != [] && old(objects) != map[] ==>
        && Reg() == MatchStep(old(Reg()), Centroids(rects), maxDisappeared)
        && trailMap == Pushed(old(trailMap), Centroids(rects), maxTrail)
        && objectHistory == Recorded(old(objectHistory), Listed(Reg()))
    {
      if rects == [] {
        result := NoDetections();
      } else if objects == map[] {
        result := FirstDetections(Centroids(rects));
      } else {
        result := MatchRecordAndTrail(Centroids(rects));
      }
    }

    /**
     * The matched branch as evidently intended: the registry update of
     * `MatchAndRegister`, then every live track's centroid recorded in its history
     * and the detections appended to the trail.
     */
    method MatchRecordAndTrail(cs: seq<Point>) returns (result: UpdateResult)
      requires Valid() && |cs| > 0
      modifies this`nextId, this`objects, this`disappeared, this`objectHistory, this`trailMap
      ensures Valid() && Reg() == MatchStep(old(Reg()), cs, maxDisappeared)
      ensures trailMap == Pushed(old(trailMap), cs, maxTrail)
      ensures objectHistory == Recorded(old(objectHistory), Listed(Reg()))
      ensures result == Tracked(Listed(Reg()))
    {
      MatchAndRegister(cs);
      ghost var r1, t1 := Reg(), trailMap;
      assert r1 == MatchStep(old(Reg()), cs, maxDisappeared) && t1 == old(trailMap);
      RecordHistory(Listed(Reg()));
      assert Reg() == r1 && trailMap == t1;
      ghost var h2 := objectHistory;
      AppendTrail(cs);
      assert Reg() == r1 && objectHistory == h2;
      result := Tracked(Listed(Reg()));
    }
  }
}
