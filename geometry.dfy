/** Pixel geometry shared by the tracker, the monitors and the zone tools. */
module Geometry {

  /** An integer pixel position `(x, y)`. */
  datatype Point = Point(x: int, y: int)

  /** An axis-aligned detection box `(x1, y1, x2, y2)`. */
  datatype Rect = Rect(x1: int, y1: int, x2: int, y2: int)

  /** One entry of the tracker's `id -> centroid` result. */
  datatype TrackedObject = TrackedObject(id: nat, centroid: Point)

  /** A zone of the configuration: `{"id": ..., "type": ..., "points": [...]}`. */
  datatype Zone = Zone(id: string, kind: string, points: seq<Point>)

  /**
   * Python's `int(n / 2)`: true division followed by truncation toward zero
   * (not Dafny's Euclidean division, which differs for negative odd `n`).
   */
  function TruncHalf(n: int): (h: int)
    ensures n - 2 * h in {-1, 0, 1}
    ensures n >= 0 ==> 0 <= n - 2 * h
    ensures n <= 0 ==> n - 2 * h <= 0
  {
    if n >= 0 then n / 2 else -((-n) / 2)
  }

  /** The integer centroid of a box, as `tracker.py` computes it. */
  function Centroid(r: Rect): Point
  {
    Point(TruncHalf(r.x1 + r.x2), TruncHalf(r.y1 + r.y2))
  }

  /** The centroid of every box, in input order. */
  function Centroids(rects: seq<Rect>): (cs: seq<Point>)
    ensures |cs| == |rects|
    ensures forall i :: 0 <= i < |rects| ==> cs[i] == Centroid(rects[i])
  {
    seq(|rects|, i requires 0 <= i < |rects| => Centroid(rects[i]))
  }

  /** The centroid of a box lies inside the box. */
  lemma CentroidInBox(r: Rect)
    requires r.x1 <= r.x2 && r.y1 <= r.y2
    ensures r.x1 <= Centroid(r).x <= r.x2 && r.y1 <= Centroid(r).y <= r.y2
  {
  }

  /**
   * Squared Euclidean distance. The square root is monotone, so comparing
   * squared distances orders pairs exactly as the Euclidean norm does.
   */
  function SqDist(p: Point, q: Point): nat
  {
    var dx, dy := p.x - q.x, p.y - q.y;
    assert dx * dx >= 0 && dy * dy >= 0;
    dx * dx + dy * dy
  }

  /** The ids of a list of tracked objects, in order. */
  function Ids(objs: seq<TrackedObject>): (r: seq<nat>)
    ensures |r| == |objs|
    ensures forall i :: 0 <= i < |objs| ==> r[i] == objs[i].id
  {
    seq(|objs|, i requires 0 <= i < |objs| => objs[i].id)
  }
}
