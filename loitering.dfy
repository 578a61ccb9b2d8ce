/**
 * `loitering_detector.py`: per id, the time it was last seen and a timer that
 * counts its consecutive re-sightings within the threshold; an alert per id
 * whose timer reaches the threshold. The wall clock is the parameter `now`.
 */
module Loitering {
  import opened Common
  import opened Geometry

  /** `(last_seen, timer)`, the value `loitering_objects` holds per id. */
  datatype Sighting = Sighting(lastSeen: int, timer: nat)

  /** The default `loitering_threshold` of `__init__` (loitering_detector.py:4). */
  const DefaultThreshold: int := 300

  /**
   * The entry an id gets when seen at `now` (loitering_detector.py:12-19): a first
   * sighting starts at timer 0; a re-sighting less than `threshold` seconds after
   * the last one adds 1 to the timer; a longer gap restarts it at 0.
   */
  function NextEntry(entries: map<nat, Sighting>, id: nat, now: int, threshold: int): (e: Sighting)
    ensures e.lastSeen == now
    ensures id !in entries ==> e.timer == 0
    ensures id in entries && now - entries[id].lastSeen < threshold ==> e.timer == entries[id].timer + 1
    ensures id in entries && now - entries[id].lastSeen >= threshold ==> e.timer == 0
  {
    if id in entries then
      if now - entries[id].lastSeen < threshold then Sighting(now, entries[id].timer + 1)
      else Sighting(now, 0)
    else Sighting(now, 0)
  }

  /** The entries after the objects of the frame have been seen at `now`, in iteration order. */
  function Swept(entries: map<nat, Sighting>, objs: seq<TrackedObject>, now: int, threshold: int): (r: map<nat, Sighting>)
    ensures forall id :: id in Ids(objs) ==> id in r
    ensures forall id :: id in entries ==> id in r
    decreases |objs|
  {
    if objs == [] then entries
    else
      var before := Swept(entries, objs[..|objs| - 1], now, threshold);
      var id := objs[|objs| - 1].id;
      assert Ids(objs) == Ids(objs[..|objs| - 1]) + [id];
      FrontMembers(Ids(objs));
      before[id := NextEntry(before, id, now, threshold)]
  }

  /** The text of one alert (loitering_detector.py:23). */
  function AlertText(id: nat): string
  {
    "\U{26A0}\U{FE0F} Loitering Detected for Object " + NatToString(id)
  }

  /** The ids alerted on, in iteration order: each right after its entry is updated (loitering_detector.py:22-23). */
  function AlertIds(entries: map<nat, Sighting>, objs: seq<TrackedObject>, now: int, threshold: int): seq<nat>
    decreases |objs|
  {
    if objs == [] then []
    else
      var id := objs[|objs| - 1].id;
      AlertIds(entries, objs[..|objs| - 1], now, threshold)
        + (if Swept(entries, objs, now, threshold)[id].timer >= threshold then [id] else [])
  }

  /** The alert texts `update` returns. */
  function Alerts(entries: map<nat, Sighting>, objs: seq<TrackedObject>, now: int, threshold: int): (texts: seq<string>)
    ensures |texts| == |AlertIds(entries, objs, now, threshold)|
  {
    var ids := AlertIds(entries, objs, now, threshold);
    seq(|ids|, k requires 0 <= k < |ids| => AlertText(ids[k]))
  }

  /** One more object appends at most its own alert. */
  lemma AlertsStep(entries: map<nat, Sighting>, objs: seq<TrackedObject>, now: int, threshold: int)
    requires objs != []
    ensures Alerts(entries, objs, now, threshold) == Alerts(entries, objs[..|objs| - 1], now, threshold)
      + (if Swept(entries, objs, now, threshold)[objs[|objs| - 1].id].timer >= threshold then [AlertText(objs[|objs| - 1].id)] else [])
  {
    var front := AlertIds(entries, objs[..|objs| - 1], now, threshold);
    var ids := AlertIds(entries, objs, now, threshold);
    assert ids[..|front|] == front;
  }

  /** An update adds the ids of the frame and removes no entry. */
  lemma {:induction false} SweptDomain(entries: map<nat, Sighting>, objs: seq<TrackedObject>, now: int, threshold: int)
    ensures forall id :: id in Swept(entries, objs, now, threshold) <==> id in entries || id in Ids(objs)
    decreases |objs|
  {
    if objs != [] {
      var n := |objs| - 1;
      SweptDomain(entries, objs[..n], now, threshold);
      assert Ids(objs) == Ids(objs[..n]) + [objs[n].id];
      FrontMembers(Ids(objs));
    }
  }

  /** An update leaves the entries of the ids absent from the frame unchanged. */
  lemma {:induction false} SweptOthers(entries: map<nat, Sighting>, objs: seq<TrackedObject>, now: int, threshold: int)
    ensures forall id :: id in entries && id !in Ids(objs) ==> Swept(entries, objs, now, threshold)[id] == entries[id]
    decreases |objs|
  {
    if objs != [] {
      var n := |objs| - 1;
      SweptOthers(entries, objs[..n], now, threshold);
      SweptDomain(entries, objs[..n], now, threshold);
      assert Ids(objs) == Ids(objs[..n]) + [objs[n].id];
      FrontMembers(Ids(objs));
    }
  }

  /** After an update every id of the frame was last seen at `now`. */
  lemma {:induction false} SweptNow(entries: map<nat, Sighting>, objs: seq<TrackedObject>, now: int, threshold: int)
    ensures forall id :: id in Ids(objs) ==> Swept(entries, objs, now, threshold)[id].lastSeen == now
    decreases |objs|
  {
    if objs != [] {
      var n := |objs| - 1;
      SweptNow(entries, objs[..n], now, threshold);
      assert Ids(objs) == Ids(objs[..n]) + [objs[n].id];
      FrontMembers(Ids(objs));
    }
  }

  /**
   * An id that occurs once in the frame gets the entry `NextEntry` computes from the
   * entries before the update.
   */
  lemma {:induction false} SweptOnce(entries: map<nat, Sighting>, objs: seq<TrackedObject>, now: int, threshold: int, k: nat)
    requires k < |objs| && forall l :: 0 <= l < |objs| && l != k ==> objs[l].id != objs[k].id
    ensures Swept(entries, objs, now, threshold)[objs[k].id] == NextEntry(entries, objs[k].id, now, threshold)
    decreases |objs|
  {
    var n := |objs| - 1;
    var front := objs[..n];
    var id := objs[k].id;
    assert forall l :: 0 <= l < n ==> front[l] == objs[l];
    if k == n {
      assert id !in Ids(front) by {
        forall l | 0 <= l < n ensures Ids(front)[l] != id {
          assert objs[l].id != id;
        }
      }
      SweptOthers(entries, front, now, threshold);
      SweptDomain(entries, front, now, threshold);
    } else {
      SweptOnce(entries, front, now, threshold, k);
      assert objs[n].id != id;
    }
  }

  /**
   * When the frame's ids are distinct (they are the keys of a dict), an id is
   * alerted on exactly when it is in the frame and its timer after the update has
   * reached the threshold.
   */
  lemma {:induction false} AlertIdsExact(entries: map<nat, Sighting>, objs: seq<TrackedObject>, now: int, threshold: int)
    requires Distinct(Ids(objs))
    ensures forall id :: id in AlertIds(entries, objs, now, threshold) <==>
      id in Ids(objs) && Swept(entries, objs, now, threshold)[id].timer >= threshold
    decreases |objs|
  {
    if objs != [] {
      var n := |objs| - 1;
      var front := objs[..n];
      assert Ids(front) == Ids(objs)[..n];
      DistinctLast(Ids(objs));
      AlertIdsExact(entries, front, now, threshold);
      assert Ids(objs) == Ids(front) + [objs[n].id];
      FrontMembers(Ids(objs));
      var id := objs[n].id;
      forall x | x in Ids(front)
        ensures Swept(entries, objs, now, threshold)[x] == Swept(entries, front, now, threshold)[x]
      {
        assert x != id;
      }
    }
  }

  /** The result never depends on the coordinates: only the ids of the frame matter (loitering_detector.py:10). */
  lemma {:induction false} IgnoresPositions(entries: map<nat, Sighting>, a: seq<TrackedObject>, b: seq<TrackedObject>, now: int, threshold: int)
    requires Ids(a) == Ids(b)
    ensures Swept(entries, a, now, threshold) == Swept(entries, b, now, threshold)
    ensures AlertIds(entries, a, now, threshold) == AlertIds(entries, b, now, threshold)
    decreases |a|
  {
    if a != [] {
      var n := |a| - 1;
      assert Ids(a[..n]) == Ids(a)[..n] && Ids(b[..n]) == Ids(b)[..n];
      assert a[n].id == Ids(a)[n] == Ids(b)[n] == b[n].id;
      IgnoresPositions(entries, a[..n], b[..n], now, threshold);
    }
  }

  /**
   * The timer of one id after it has been seen at the instants `times` (one update
   * each), starting from an unknown id.
   */
  function TimerAfter(times: seq<int>, threshold: int): (e: Sighting)
    requires times != []
    decreases |times|
  {
    if |times| == 1 then NextEntry(map[], 0, times[0], threshold)
    else NextEntry(map[0 := TimerAfter(times[..|times| - 1], threshold)], 0, times[|times| - 1], threshold)
  }

  /**
   * The timer counts the most recent run of in-window re-sightings: a timer `t` means
   * the last `t + 1` sightings followed each other at gaps below the threshold and,
   * unless they are all the sightings, the gap before them was not below it. Hence
   * an id is flagged (`t >= threshold`) only after at least `threshold + 1` sightings.
   */
  lemma {:induction false} TimerCountsStreak(times: seq<int>, threshold: int)
    requires times != []
    ensures TimerAfter(times, threshold).lastSeen == times[|times| - 1]
    ensures TimerAfter(times, threshold).timer < |times|
    ensures forall j :: |times| - TimerAfter(times, threshold).timer <= j < |times| ==> times[j] - times[j - 1] < threshold
    ensures TimerAfter(times, threshold).timer < |times| - 1 ==>
      times[|times| - 1 - TimerAfter(times, threshold).timer] - times[|times| - 2 - TimerAfter(times, threshold).timer] >= threshold
    decreases |times|
  {
    if |times| > 1 {
      var n := |times| - 1;
      var front := times[..n];
      TimerCountsStreak(front, threshold);
      assert forall j :: 0 <= j < n ==> front[j] == times[j];
    }
  }

  /** An alert needs `threshold + 1` sightings of the id at least. */
  lemma FlaggedAfterStreak(times: seq<int>, threshold: int)
    requires times != [] && TimerAfter(times, threshold).timer >= threshold
    ensures |times| >= threshold + 1
  {
    TimerCountsStreak(times, threshold);
  }

  /** `LoiteringDetector`: the threshold and the entry of every id ever seen. */
  class LoiteringDetector {
    const loiteringThreshold: int
    var loiteringObjects: map<nat, Sighting>

    /** `__init__(loitering_threshold)`: no entries (loitering_detector.py:4-6). */
    constructor(loiteringThreshold: int := DefaultThreshold)
      ensures this.loiteringThreshold == loiteringThreshold && loiteringObjects == map[]
    {
      this.loiteringThreshold := loiteringThreshold;
      loiteringObjects := map[];
    }

    /** `update(tracked_objects)` at the instant `now` (loitering_detector.py:8-25). */
    method Update(objs: seq<TrackedObject>, now: int) returns (alertText: seq<string>)
      modifies this`loiteringObjects
      ensures loiteringObjects == Swept(old(loiteringObjects), objs, now, loiteringThreshold)
      ensures alertText == Alerts(old(loiteringObjects), objs, now, loiteringThreshold)
    {
      ghost var e0 := loiteringObjects;
      alertText := [];
      for k := 0 to |objs|
        invariant loiteringObjects == Swept(e0, objs[..k], now, loiteringThreshold)
        invariant alertText == Alerts(e0, objs[..k], now, loiteringThreshold)
      {
        assert objs[..k + 1][..k] == objs[..k];
        var id := objs[k].id;
        ghost var next := loiteringObjects[id := NextEntry(loiteringObjects, id, now, loiteringThreshold)];
        assert Swept(e0, objs[..k + 1], now, loiteringThreshold) == next;
        AlertsStep(e0, objs[..k + 1], now, loiteringThreshold);
        if id in loiteringObjects {
          var entry := loiteringObjects[id];
          if now - entry.lastSeen < loiteringThreshold {
            loiteringObjects := loiteringObjects[id := Sighting(now, entry.timer + 1)];
          } else {
            loiteringObjects := loiteringObjects[id := Sighting(now, 0)];
          }
        } else {
          loiteringObjects := loiteringObjects[id := Sighting(now, 0)];
        }
        if loiteringObjects[id].timer >= loiteringThreshold {
          alertText := alertText + [AlertText(id)];
        }
      }
      assert objs[..|objs|] == objs;
    }
  }
}
