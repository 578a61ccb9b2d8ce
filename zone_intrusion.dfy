/**
 * `detectors/zone_intrusion.py`: which tracked objects stand inside a restricted
 * zone of their camera, with the polygon boundary counting as inside.
 */
module ZoneIntrusion {
  import opened Common
  import opened Geometry

  /** The sign of `cv2.pointPolygonTest(contour, pt, False)`: -1, 0 or +1. */
  datatype Side = Outside | OnEdge | Inside

  /** What one edge contributes to the crossing test: the point lies on it, or it crosses the ray or not. */
  datatype EdgeResult = Touches | Crosses(counted: bool)

  /** The edge of `poly` that ends at vertex `i` starts at the vertex before it, cyclically. */
  function Prev(poly: seq<Point>, i: nat): Point
    requires i < |poly|
  {
    if i == 0 then poly[|poly| - 1] else poly[i - 1]
  }

  /**
   * One step of OpenCV's crossing test for integer contours: the edge from `v0` to `v`
   * either contains `p`, or counts when the ray from `p` towards growing x crosses it.
   */
  function EdgeTest(p: Point, v0: Point, v: Point): EdgeResult
  {
    if (v0.y <= p.y && v.y <= p.y) || (v0.y > p.y && v.y > p.y) || (v0.x < p.x && v.x < p.x) then
      if p.y == v.y && (p.x == v.x || (p.y == v0.y && ((v0.x <= p.x <= v.x) || (v.x <= p.x <= v0.x)))) then Touches
      else Crosses(false)
    else
      var dist := (p.y - v0.y) * (v.x - v0.x) - (p.x - v0.x) * (v.y - v0.y);
      if dist == 0 then Touches
      else Crosses((if v.y < v0.y then -dist else dist) > 0)
  }

  /** The crossing test over the edges ending at vertices `j..`, with `count` crossings so far. */
  function Scan(p: Point, poly: seq<Point>, j: nat, count: nat): Side
    requires j <= |poly|
    decreases |poly| - j
  {
    if j == |poly| then (if count % 2 == 0 then Outside else Inside)
    else
      match EdgeTest(p, Prev(poly, j), poly[j])
      case Touches => OnEdge
      case Crosses(b) => Scan(p, poly, j + 1, if b then count + 1 else count)
  }

  /** `cv2.pointPolygonTest(polygon, point, False)`; a contour without points has nothing inside. */
  function PolygonTest(p: Point, poly: seq<Point>): Side
  {
    if poly == [] then Outside else Scan(p, poly, 0, 0)
  }

  /** `point_in_polygon`: the test is `>= 0`, inside or on the boundary (detectors/zone_intrusion.py:14-15). */
  predicate PointInPolygon(p: Point, poly: seq<Point>)
  {
    PolygonTest(p, poly) != Outside
  }

  /** `p` lies on the closed segment from `a` to `b`. */
  predicate OnSegment(p: Point, a: Point, b: Point)
  {
    && (p.y - a.y) * (b.x - a.x) == (p.x - a.x) * (b.y - a.y)
    && (a.x <= p.x <= b.x || b.x <= p.x <= a.x)
    && (a.y <= p.y <= b.y || b.y <= p.y <= a.y)
  }

  /** An edge reports a point lying on it, except its start vertex, which the previous edge reports. */
  lemma EdgeTouches(p: Point, v0: Point, v: Point)
    requires OnSegment(p, v0, v) && p != v0
    ensures EdgeTest(p, v0, v) == Touches
  {
    var dist := (p.y - v0.y) * (v.x - v0.x) - (p.x - v0.x) * (v.y - v0.y);
    assert dist == 0;
    if (v0.y <= p.y && v.y <= p.y) || (v0.y > p.y && v.y > p.y) || (v0.x < p.x && v.x < p.x) {
      assert v0.y <= p.y && v.y <= p.y;
      if v0.y == p.y {
        assert v.y == p.y;
      } else {
        assert v0.y < p.y == v.y;
        assert (v.y - v0.y) * (v.x - p.x) == 0 by {
          assert (p.y - v0.y) * (v.x - v0.x) - (p.x - v0.x) * (v.y - v0.y) == (v.y - v0.y) * (v.x - p.x);
        }
        assert v.x == p.x;
      }
    }
  }

  /** An edge reports the vertex it ends at. */
  lemma EdgeTouchesEnd(v0: Point, v: Point)
    ensures EdgeTest(v, v0, v) == Touches
  {
    assert (v.y - v0.y) * (v.x - v0.x) - (v.x - v0.x) * (v.y - v0.y) == 0;
  }

  /** Once an edge reports the point, the whole test reports it on the boundary. */
  lemma {:induction false} ScanTouches(p: Point, poly: seq<Point>, i: nat, j: nat, count: nat)
    requires j <= i < |poly| && EdgeTest(p, Prev(poly, i), poly[i]) == Touches
    ensures Scan(p, poly, j, count) == OnEdge
    decreases i - j
  {
    if j < i {
      match EdgeTest(p, Prev(poly, j), poly[j])
      case Touches =>
      case Crosses(b) => ScanTouches(p, poly, i, j + 1, if b then count + 1 else count);
    }
  }

  /** Every point of every edge of a polygon, vertices included, is on its boundary and so counts as inside. */
  lemma EdgePointsInside(p: Point, poly: seq<Point>, i: nat)
    requires i < |poly| && OnSegment(p, Prev(poly, i), poly[i])
    ensures PolygonTest(p, poly) == OnEdge
    ensures PointInPolygon(p, poly)
  {
    if p != Prev(poly, i) {
      EdgeTouches(p, Prev(poly, i), poly[i]);
      ScanTouches(p, poly, i, 0, 0);
    } else {
      var h := if i == 0 then |poly| - 1 else i - 1;
      assert poly[h] == p;
      EdgeTouchesEnd(Prev(poly, h), poly[h]);
      ScanTouches(p, poly, h, 0, 0);
    }
  }

  /** No edge counts for a point strictly right of, above or below every vertex. */
  lemma {:induction false} ScanBeyond(p: Point, poly: seq<Point>, j: nat, count: nat)
    requires j <= |poly| && count % 2 == 0
    requires (forall k :: 0 <= k < |poly| ==> poly[k].x < p.x)
      || (forall k :: 0 <= k < |poly| ==> poly[k].y < p.y)
      || (forall k :: 0 <= k < |poly| ==> poly[k].y > p.y)
    ensures Scan(p, poly, j, count) == Outside
    decreases |poly| - j
  {
    if j < |poly| {
      var h := if j == 0 then |poly| - 1 else j - 1;
      assert Prev(poly, j) == poly[h];
      assert EdgeTest(p, Prev(poly, j), poly[j]) == Crosses(false);
      ScanBeyond(p, poly, j + 1, count);
    }
  }

  /** A point strictly right of, above or below all vertices is outside. */
  lemma OutsideBeyond(p: Point, poly: seq<Point>)
    requires (forall k :: 0 <= k < |poly| ==> poly[k].x < p.x)
      || (forall k :: 0 <= k < |poly| ==> poly[k].y < p.y)
      || (forall k :: 0 <= k < |poly| ==> poly[k].y > p.y)
    ensures !PointInPolygon(p, poly)
  {
    if poly != [] {
      ScanBeyond(p, poly, 0, 0);
    }
  }

  /** A point strictly inside an axis-aligned rectangle drawn corner by corner is inside it. */
  lemma RectangleInterior(p: Point, x1: int, y1: int, x2: int, y2: int)
    requires x1 < p.x < x2 && y1 < p.y < y2
    ensures PolygonTest(p, [Point(x1, y1), Point(x2, y1), Point(x2, y2), Point(x1, y2)]) == Inside
  {
    var poly := [Point(x1, y1), Point(x2, y1), Point(x2, y2), Point(x1, y2)];
    assert EdgeTest(p, poly[3], poly[0]) == Crosses(false);
    assert EdgeTest(p, poly[0], poly[1]) == Crosses(false);
    assert (p.y - y1) * (x2 - x2) - (p.x - x2) * (y2 - y1) == (x2 - p.x) * (y2 - y1) > 0;
    assert EdgeTest(p, poly[1], poly[2]) == Crosses(true);
    assert EdgeTest(p, poly[2], poly[3]) == Crosses(false);
    assert Scan(p, poly, 3, 1) == Scan(p, poly, 4, 1) == Inside;
    assert Scan(p, poly, 1, 0) == Scan(p, poly, 2, 0) == Scan(p, poly, 3, 1);
    assert Scan(p, poly, 0, 0) == Scan(p, poly, 1, 0);
  }

  /** A tracked object as `detect_intrusions` reads it: its id and `obj.get("centroid")`, `None` when missing or falsy. */
  datatype TrackedEntry = TrackedEntry(id: nat, centroid: Option<Point>)

  /** One record of the result: `{"object_id", "zone_id", "centroid"}`. */
  datatype Intrusion = Intrusion(objectId: nat, zoneId: string, centroid: Point)

  /** The zone type that raises intrusions. */
  const Restricted: string := "restricted"

  /** A zone reports the object when it is restricted and contains the centroid. */
  predicate Hits(z: Zone, c: Point)
  {
    z.kind == Restricted && PointInPolygon(c, z.points)
  }

  /** The records of one object against the zones, in zone order (detectors/zone_intrusion.py:27-34). */
  function ZoneHits(id: nat, c: Point, zones: seq<Zone>): (r: seq<Intrusion>)
    ensures |r| <= |zones|
    decreases |zones|
  {
    if zones == [] then []
    else
      var z := zones[|zones| - 1];
      ZoneHits(id, c, zones[..|zones| - 1]) + (if Hits(z, c) then [Intrusion(id, z.id, c)] else [])
  }

  /** The records of every object in iteration order, skipping those without a centroid (detectors/zone_intrusion.py:22-34). */
  function ObjectHits(objs: seq<TrackedEntry>, zones: seq<Zone>): (r: seq<Intrusion>)
    ensures |r| <= |objs| * |zones|
    decreases |objs|
  {
    if objs == [] then []
    else
      var o := objs[|objs| - 1];
      assert |objs| * |zones| == (|objs| - 1) * |zones| + |zones|;
      ObjectHits(objs[..|objs| - 1], zones) + (if o.centroid.Some? then ZoneHits(o.id, o.centroid.value, zones) else [])
  }

  /** `detect_intrusions(camera_name, tracked_objects)`: nothing for a camera without zones (detectors/zone_intrusion.py:17-36). */
  function Intrusions(config: map<string, seq<Zone>>, camera: string, objs: seq<TrackedEntry>): seq<Intrusion>
  {
    if camera !in config then [] else ObjectHits(objs, config[camera])
  }

  /** The positions of the zones that report the point, in ascending order. */
  function HitIndices(c: Point, zones: seq<Zone>): (r: seq<int>)
    ensures StrictlyIncreasing(r)
    ensures forall t :: 0 <= t < |r| ==> 0 <= r[t] < |zones| && Hits(zones[r[t]], c)
    ensures forall j :: 0 <= j < |zones| && Hits(zones[j], c) ==> j in r
    decreases |zones|
  {
    if zones == [] then []
    else
      var n := |zones| - 1;
      FrontIndex(zones, n);
      HitIndices(c, zones[..n]) + (if Hits(zones[n], c) then [n] else [])
  }

  /** A record is produced exactly for each restricted zone containing the centroid, copying the ids and the centroid. */
  lemma {:induction false} ZoneHitsExact(id: nat, c: Point, zones: seq<Zone>)
    ensures forall x :: x in ZoneHits(id, c, zones) <==> exists j :: 0 <= j < |zones| && Hits(zones[j], c) && x == Intrusion(id, zones[j].id, c)
    decreases |zones|
  {
    if zones != [] {
      var n := |zones| - 1;
      ZoneHitsExact(id, c, zones[..n]);
      assert forall j :: 0 <= j < n ==> zones[..n][j] == zones[j];
    }
  }

  /** The positions list every zone that reports the point once. */
  lemma HitIndicesCount(c: Point, zones: seq<Zone>)
    ensures |HitIndices(c, zones)| == |set j | 0 <= j < |zones| && Hits(zones[j], c)|
  {
    var hs := HitIndices(c, zones);
    assert (set j | 0 <= j < |zones| && Hits(zones[j], c)) == (set x | x in hs);
    IncreasingCard(hs);
  }

  /**
   * Exactly one record per restricted zone containing the centroid, in zone order:
   * the `t`-th record is that of the `t`-th zone that reports the point.
   */
  lemma {:induction false} ZoneHitsOrder(id: nat, c: Point, zones: seq<Zone>)
    ensures |ZoneHits(id, c, zones)| == |HitIndices(c, zones)|
    ensures forall t :: 0 <= t < |HitIndices(c, zones)| ==> ZoneHits(id, c, zones)[t] == Intrusion(id, zones[HitIndices(c, zones)[t]].id, c)
    decreases |zones|
  {
    if zones != [] {
      var n := |zones| - 1;
      var front := zones[..n];
      ZoneHitsOrder(id, c, front);
      var hs, hf := HitIndices(c, zones), HitIndices(c, front);
      var rs, rf := ZoneHits(id, c, zones), ZoneHits(id, c, front);
      forall t | 0 <= t < |hf| ensures rs[t] == Intrusion(id, zones[hs[t]].id, c) {
        assert hs[t] == hf[t] && rs[t] == rf[t];
        assert zones[hf[t]] == front[hf[t]];
      }
      if Hits(zones[n], c) {
        assert hs == hf + [n] && rs == rf + [Intrusion(id, zones[n].id, c)];
      } else {
        assert hs == hf && rs == rf;
      }
    }
  }

  /** An object gets as many records as there are restricted zones containing its centroid. */
  lemma ZoneHitsCount(id: nat, c: Point, zones: seq<Zone>)
    ensures |ZoneHits(id, c, zones)| == |set j | 0 <= j < |zones| && Hits(zones[j], c)|
  {
    ZoneHitsOrder(id, c, zones);
    HitIndicesCount(c, zones);
  }

  /**
   * A record is produced exactly for an object with a centroid and a restricted
   * zone of its camera containing that centroid.
   */
  lemma {:induction false} ObjectHitsExact(objs: seq<TrackedEntry>, zones: seq<Zone>)
    ensures forall x :: x in ObjectHits(objs, zones) <==>
      exists k, j :: 0 <= k < |objs| && 0 <= j < |zones| && objs[k].centroid.Some? && Hits(zones[j], objs[k].centroid.value)
        && x == Intrusion(objs[k].id, zones[j].id, objs[k].centroid.value)
    decreases |objs|
  {
    if objs != [] {
      var n := |objs| - 1;
      var front := objs[..n];
      ObjectHitsExact(front, zones);
      assert forall k :: 0 <= k < n ==> front[k] == objs[k];
      var o := objs[n];
      if o.centroid.Some? {
        ZoneHitsExact(o.id, o.centroid.value, zones);
      }
    }
  }

  /** A camera with no entry in the configuration has no intrusions (detectors/zone_intrusion.py:19-20). */
  lemma UnknownCameraNoIntrusions(config: map<string, seq<Zone>>, camera: string, objs: seq<TrackedEntry>)
    requires camera !in config
    ensures Intrusions(config, camera, objs) == []
  {
  }

  /** An object standing on the boundary of a restricted zone of its camera is reported in that zone. */
  lemma BoundaryIntrudes(config: map<string, seq<Zone>>, camera: string, objs: seq<TrackedEntry>, k: nat, j: nat, i: nat)
    requires camera in config && k < |objs| && j < |config[camera]| && objs[k].centroid.Some?
    requires config[camera][j].kind == Restricted && i < |config[camera][j].points|
    requires OnSegment(objs[k].centroid.value, Prev(config[camera][j].points, i), config[camera][j].points[i])
    ensures Intrusion(objs[k].id, config[camera][j].id, objs[k].centroid.value) in Intrusions(config, camera, objs)
  {
    EdgePointsInside(objs[k].centroid.value, config[camera][j].points, i);
    ObjectHitsExact(objs, config[camera]);
  }

  /** `ZoneIntrusionDetector`: the zone configuration, read-only once loaded. */
  class ZoneIntrusionDetector {
    const zones: map<string, seq<Zone>>

    /** `__init__`: the configuration `load_zones` reads, given here as a value. */
    constructor(zones: map<string, seq<Zone>>)
      ensures this.zones == zones
    {
      this.zones := zones;
    }

    /** `point_in_polygon` (detectors/zone_intrusion.py:14-15): a point on any edge counts as inside. */
    method PointInPolygonTest(point: Point, polygon: seq<Point>) returns (inside: bool)
      ensures inside == PointInPolygon(point, polygon)
      ensures (exists i :: 0 <= i < |polygon| && OnSegment(point, Prev(polygon, i), polygon[i])) ==> inside
    {
      inside := PolygonTest(point, polygon) != Outside;
      if exists i :: 0 <= i < |polygon| && OnSegment(point, Prev(polygon, i), polygon[i]) {
        var i :| 0 <= i < |polygon| && OnSegment(point, Prev(polygon, i), polygon[i]);
        EdgePointsInside(point, polygon, i);
      }
    }

    /** `detect_intrusions(camera_name, tracked_objects)` (detectors/zone_intrusion.py:17-36). */
    method DetectIntrusions(cameraName: string, trackedObjects: seq<TrackedEntry>) returns (intrusions: seq<Intrusion>)
      ensures intrusions == Intrusions(zones, cameraName, trackedObjects)
    {
      intrusions := [];
      if cameraName !in zones {
        return;
      }
      var cameraZones := zones[cameraName];
      for k := 0 to |trackedObjects|
        invariant intrusions == ObjectHits(trackedObjects[..k], cameraZones)
      {
        assert trackedObjects[..k + 1][..k] == trackedObjects[..k];
        var obj := trackedObjects[k];
        if obj.centroid.None? {
          continue;
        }
        var centroid := obj.centroid.value;
        ghost var before := intrusions;
        for j := 0 to |cameraZones|
          invariant intrusions == before + ZoneHits(obj.id, centroid, cameraZones[..j])
        {
          assert cameraZones[..j + 1][..j] == cameraZones[..j];
          var zone := cameraZones[j];
          if zone.kind == Restricted {
            var inside := PointInPolygonTest(centroid, zone.points);
            if inside {
              intrusions := intrusions + [Intrusion(obj.id, zone.id, centroid)];
            }
          }
        }
        assert cameraZones[..|cameraZones|] == cameraZones;
      }
      assert trackedObjects[..|trackedObjects|] == trackedObjects;
    }
  }
}
