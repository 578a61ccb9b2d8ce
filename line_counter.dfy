/**
 * `line_counter.py`: directional in/out counting of tracked objects against a
 * horizontal line, from the last y each id was seen at.
 */
module LineCounting {
  import opened Common
  import opened Geometry

  /** The counter's fields: the two counts and the last y recorded per id. */
  datatype CounterState = CounterState(countIn: nat, countOut: nat, previous: map<nat, int>)

  /** How a move from `prevY` to `cy` relates to the line at `lineY` (line_counter.py:12-15). */
  datatype Crossing = In | Out | Stay

  /** The branch of line_counter.py:12-15 that a move from `prevY` to `cy` takes. */
  function CrossingOf(prevY: int, lineY: int, cy: int): Crossing
  {
    if prevY < lineY && cy >= lineY then In
    else if prevY > lineY && cy <= lineY then Out
    else Stay
  }

  /** A move is counted in exactly when it starts above the line and ends on it or below. */
  lemma CrossingIn(prevY: int, lineY: int, cy: int)
    ensures CrossingOf(prevY, lineY, cy) == In <==> prevY < lineY <= cy
    ensures CrossingOf(prevY, lineY, cy) == Out <==> cy <= lineY < prevY
    ensures prevY == lineY ==> CrossingOf(prevY, lineY, cy) == Stay
    ensures (prevY < lineY && cy < lineY) || (prevY > lineY && cy > lineY) ==> CrossingOf(prevY, lineY, cy) == Stay
  {
  }

  /** One iteration of the loop of line_counter.py:9-16, for the object `o`. */
  function Observe(s: CounterState, lineY: int, o: TrackedObject): (s': CounterState)
    ensures s'.previous == s.previous[o.id := o.centroid.y]
  {
    var c := if o.id in s.previous then CrossingOf(s.previous[o.id], lineY, o.centroid.y) else Stay;
    CounterState(
      if c == In then s.countIn + 1 else s.countIn,
      if c == Out then s.countOut + 1 else s.countOut,
      s.previous[o.id := o.centroid.y])
  }

  /** `update(tracked_objects)`: every object observed in iteration order. */
  function ObserveAll(s: CounterState, lineY: int, objs: seq<TrackedObject>): (r: CounterState)
    ensures forall id :: id in s.previous ==> id in r.previous
    decreases |objs|
  {
    if objs == [] then s
    else Observe(ObserveAll(s, lineY, objs[..|objs| - 1]), lineY, objs[|objs| - 1])
  }

  /**
   * One observation: a first sighting only records the baseline; otherwise at most
   * one counter grows, by exactly one, as the crossing says.
   */
  lemma ObserveEffect(s: CounterState, lineY: int, o: TrackedObject)
    ensures o.id !in s.previous ==>
      Observe(s, lineY, o).countIn == s.countIn && Observe(s, lineY, o).countOut == s.countOut
    ensures o.id in s.previous ==>
      && Observe(s, lineY, o).countIn == s.countIn + (if s.previous[o.id] < lineY <= o.centroid.y then 1 else 0)
      && Observe(s, lineY, o).countOut == s.countOut + (if o.centroid.y <= lineY < s.previous[o.id] then 1 else 0)
    ensures Observe(s, lineY, o).countIn + Observe(s, lineY, o).countOut <= s.countIn + s.countOut + 1
    ensures Observe(s, lineY, o).previous[o.id] == o.centroid.y
  {
    if o.id in s.previous {
      CrossingIn(s.previous[o.id], lineY, o.centroid.y);
    }
  }

  /** The counters never decrease over an update. */
  lemma {:induction false} CountsMonotone(s: CounterState, lineY: int, objs: seq<TrackedObject>)
    ensures ObserveAll(s, lineY, objs).countIn >= s.countIn
    ensures ObserveAll(s, lineY, objs).countOut >= s.countOut
    ensures ObserveAll(s, lineY, objs).countIn + ObserveAll(s, lineY, objs).countOut <= s.countIn + s.countOut + |objs|
    decreases |objs|
  {
    if objs != [] {
      CountsMonotone(s, lineY, objs[..|objs| - 1]);
      ObserveEffect(ObserveAll(s, lineY, objs[..|objs| - 1]), lineY, objs[|objs| - 1]);
    }
  }

  /** An update stores a position for every id of the frame and drops none. */
  lemma {:induction false} ObservedDomain(s: CounterState, lineY: int, objs: seq<TrackedObject>)
    ensures forall id :: id in ObserveAll(s, lineY, objs).previous <==> id in s.previous || id in Ids(objs)
    decreases |objs|
  {
    if objs != [] {
      var n := |objs| - 1;
      ObservedDomain(s, lineY, objs[..n]);
      assert Ids(objs) == Ids(objs[..n]) + [objs[n].id];
      FrontMembers(Ids(objs));
    }
  }

  /** An update keeps the stored y of every id absent from the frame. */
  lemma {:induction false} ObservedOthers(s: CounterState, lineY: int, objs: seq<TrackedObject>)
    ensures forall id :: id in s.previous && id !in Ids(objs) ==> ObserveAll(s, lineY, objs).previous[id] == s.previous[id]
    decreases |objs|
  {
    if objs != [] {
      var n := |objs| - 1;
      ObservedOthers(s, lineY, objs[..n]);
      ObservedDomain(s, lineY, objs[..n]);
      assert Ids(objs) == Ids(objs[..n]) + [objs[n].id];
      FrontMembers(Ids(objs));
    }
  }

  /** After an update every id of the frame holds the y of its last occurrence. */
  lemma {:induction false} ObservedLatest(s: CounterState, lineY: int, objs: seq<TrackedObject>, k: nat)
    requires k < |objs| && forall l :: k < l < |objs| ==> objs[l].id != objs[k].id
    ensures objs[k].id in ObserveAll(s, lineY, objs).previous
    ensures ObserveAll(s, lineY, objs).previous[objs[k].id] == objs[k].centroid.y
    decreases |objs|
  {
    var n := |objs| - 1;
    if k < n {
      var front := objs[..n];
      assert forall l :: 0 <= l < n ==> front[l] == objs[l];
      ObservedLatest(s, lineY, front, k);
      assert objs[n].id != objs[k].id;
    }
  }

  /** The ids of a prefix are the prefix of the ids. */
  lemma IdsFront(objs: seq<TrackedObject>, n: nat)
    requires n <= |objs|
    ensures Ids(objs[..n]) == Ids(objs)[..n]
  {
  }

  /**
   * How many objects of the frame make the crossing `c`, each judged against the
   * position stored before the update: ids seen for the first time cross nothing.
   */
  function Tally(previous: map<nat, int>, lineY: int, objs: seq<TrackedObject>, c: Crossing): (n: nat)
    ensures n <= |objs|
    decreases |objs|
  {
    if objs == [] then 0
    else
      var o := objs[|objs| - 1];
      Tally(previous, lineY, objs[..|objs| - 1], c)
        + (if o.id in previous && CrossingOf(previous[o.id], lineY, o.centroid.y) == c then 1 else 0)
  }

  /**
   * When the frame's ids are distinct (they are the keys of a dict), the counters of
   * an update grow by the number of objects whose move from their stored y crosses
   * the line in that direction: the sequential loop agrees with judging every object
   * against the positions stored before the update.
   */
  lemma {:induction false} ObserveAllTally(s: CounterState, lineY: int, objs: seq<TrackedObject>)
    requires Distinct(Ids(objs))
    ensures ObserveAll(s, lineY, objs).countIn == s.countIn + Tally(s.previous, lineY, objs, In)
    ensures ObserveAll(s, lineY, objs).countOut == s.countOut + Tally(s.previous, lineY, objs, Out)
    decreases |objs|
  {
    if objs != [] {
      var n := |objs| - 1;
      var front := objs[..n];
      IdsFront(objs, n);
      DistinctLast(Ids(objs));
      ObserveAllTally(s, lineY, front);
      ObservedDomain(s, lineY, front);
      ObservedOthers(s, lineY, front);
      var mid := ObserveAll(s, lineY, front);
      var o := objs[n];
      assert o.id !in Ids(front);
      assert (o.id in mid.previous) == (o.id in s.previous);
      if o.id in s.previous {
        assert mid.previous[o.id] == s.previous[o.id];
      }
    }
  }

  /** `LineCounter`: the line's y, the two counts and the last y of every id seen. */
  class LineCounter {
    const lineY: int
    var countIn: nat
    var countOut: nat
    var previousPositions: map<nat, int>

    /** The fields as a value. */
    function State(): CounterState
      reads this
    {
      CounterState(countIn, countOut, previousPositions)
    }

    /** `__init__(line_position)`: both counts 0 and no positions (line_counter.py:2-6). */
    constructor(linePosition: int)
      ensures lineY == linePosition && State() == CounterState(0, 0, map[])
    {
      lineY := linePosition;
      countIn := 0;
      countOut := 0;
      previousPositions := map[];
    }

    /** `update(tracked_objects)` (line_counter.py:8-16). */
    method Update(objs: seq<TrackedObject>)
      modifies this`countIn, this`countOut, this`previousPositions
      ensures State() == ObserveAll(old(State()), lineY, objs)
    {
      ghost var s0 := State();
      for k := 0 to |objs|
        invariant State() == ObserveAll(s0, lineY, objs[..k])
      {
        assert objs[..k + 1][..k] == objs[..k];
        var o := objs[k];
        ghost var next := Observe(State(), lineY, o);
        assert ObserveAll(s0, lineY, objs[..k + 1]) == next;
        if o.id in previousPositions {
          var prevY := previousPositions[o.id];
          if prevY < lineY && o.centroid.y >= lineY {
            countIn := countIn + 1;
          } else if prevY > lineY && o.centroid.y <= lineY {
            countOut := countOut + 1;
          }
        }
        previousPositions := previousPositions[o.id := o.centroid.y];
      }
      assert objs[..|objs|] == objs;
    }
  }
}
