/**
 * `zone_draw_tool.py`: polygons drawn with the mouse (left click adds a point,
 * right click closes the pending polygon into a restricted zone), and the
 * per-camera update of the configuration `save_zones` writes.
 */
module ZoneDrawTool {
  import opened Common
  import opened Geometry
  import opened JsonValues
  import opened ValidateZones

  /** `cv2.EVENT_LBUTTONDOWN` and `cv2.EVENT_RBUTTONDOWN`. */
  const EventLButtonDown: int := 1
  const EventRButtonDown: int := 2

  /** The id of the `n`-th zone drawn: `f"zone_{n}"` (zone_draw_tool.py:15). */
  function ZoneId(n: nat): string
  {
    "zone_" + NatToString(n)
  }

  /** Different zone numbers give different zone ids. */
  lemma ZoneIdInjective(a: nat, b: nat)
    requires ZoneId(a) == ZoneId(b)
    ensures a == b
  {
    assert NatToString(a) == ZoneId(a)[5..] == ZoneId(b)[5..] == NatToString(b);
    NatToStringInjective(a, b);
  }

  /** The zone a right click closes: the next id, type `restricted`, the pending points (zone_draw_tool.py:14-18). */
  function ClosedZone(zones: seq<Zone>, pending: seq<Point>): Zone
  {
    Zone(ZoneId(|zones| + 1), "restricted", pending)
  }

  /** The zones drawn so far: the `k`-th (from 0) is `zone_{k+1}`, restricted, with 3 points or more. */
  ghost predicate DrawnZones(zones: seq<Zone>)
  {
    forall k :: 0 <= k < |zones| ==> zones[k] == Zone(ZoneId(k + 1), "restricted", zones[k].points) && |zones[k].points| >= 3
  }

  /** Drawn zones have pairwise distinct ids. */
  lemma DrawnZonesDistinct(zones: seq<Zone>)
    requires DrawnZones(zones)
    ensures forall k, l :: 0 <= k < l < |zones| ==> zones[k].id != zones[l].id
  {
    forall k, l | 0 <= k < l < |zones| ensures zones[k].id != zones[l].id {
      if zones[k].id == zones[l].id {
        ZoneIdInjective(k + 1, l + 1);
      }
    }
  }

  /** `json.dump` of a point (a tuple, written as a list). */
  function PointJson(p: Point): Json
  {
    JArray([JNumber(p.x), JNumber(p.y)])
  }

  /** `json.dump` of a zone dict. */
  function ZoneJson(z: Zone): (j: Json)
    ensures j.JObject?
  {
    JObject([("id", JString(z.id)), ("type", JString(z.kind)), ("points", JArray(seq(|z.points|, i requires 0 <= i < |z.points| => PointJson(z.points[i]))))])
  }

  /** `json.dump` of the zone list. */
  function ZonesJson(zones: seq<Zone>): (j: Json)
    ensures j.JArray? && |j.items| == |zones|
    ensures forall k :: 0 <= k < |zones| ==> j.items[k] == ZoneJson(zones[k])
  {
    JArray(seq(|zones|, k requires 0 <= k < |zones| => ZoneJson(zones[k])))
  }

  /** Every drawn zone, once written, passes the checks of validate_zones.py:15-18. */
  lemma DrawnZonesValid(zones: seq<Zone>)
    requires DrawnZones(zones)
    ensures forall k :: 0 <= k < |zones| ==> ValidZone(ZonesJson(zones).items[k])
  {
    forall k | 0 <= k < |zones| ensures ValidZone(ZonesJson(zones).items[k]) {
      var es := ZoneJson(zones[k]).entries;
      assert es[0].0 == "id" && es[1].0 == "type" && es[2].0 == "points";
      assert Get(es, "points") == es[2].1;
    }
  }

  /**
   * Saving drawn zones into a well-formed configuration gives a well-formed
   * configuration: the written file passes `validate_zone_json`.
   */
  lemma SavedConfigValid(entries: seq<(string, Json)>, camera: string, zones: seq<Zone>)
    requires ValidConfig(JObject(entries)) && DrawnZones(zones)
    ensures ValidConfig(JObject(SetEntry(entries, camera, ZonesJson(zones))))
    ensures ValidateZoneJson(JObject(SetEntry(entries, camera, ZonesJson(zones)))) == Passed
  {
    var r := SetEntry(entries, camera, ZonesJson(zones));
    SetEntryGet(entries, camera, ZonesJson(zones));
    DrawnZonesValid(zones);
    forall i | 0 <= i < |r| ensures ValidZones(Get(r, r[i].0)) {
      var k := r[i].0;
      assert HasKey(r, k);
      if k != camera {
        var h :| 0 <= h < |entries| && entries[h].0 == k;
        SetEntryGetOther(entries, camera, ZonesJson(zones), k);
      }
    }
    ValidateExact(JObject(r));
  }

  /**
   * The outcome of `save_zones`: the dict written, or the `TypeError` of assigning into a
   * non-dict root. `existing` is the parsed file, which `json.load` turns into dicts.
   */
  function SaveZonesConfig(existing: Option<Json>, camera: string, zones: seq<Zone>): Option<Json>
  {
    var data := if existing.Some? then Load(existing.value) else JObject([]);
    if data.JObject? then Some(JObject(SetEntry(data.entries, camera, ZonesJson(zones)))) else None
  }

  /** The drawing state: the finished zones and the points of the polygon being drawn (zone_draw_tool.py:5-6). */
  class ZoneDrawing {
    var zones: seq<Zone>
    var currentZone: seq<Point>

    /** The module starts with no zones and no pending points. */
    constructor()
      ensures zones == [] && currentZone == []
      ensures DrawnZones(zones)
    {
      zones := [];
      currentZone := [];
    }

    /** `mouse_callback(event, x, y, flags, param)` (zone_draw_tool.py:8-19). */
    method MouseCallback(event: int, x: int, y: int)
      requires DrawnZones(zones)
      modifies this
      ensures DrawnZones(zones)
      ensures event == EventLButtonDown ==> zones == old(zones) && currentZone == old(currentZone) + [Point(x, y)]
      ensures event == EventRButtonDown && |old(currentZone)| >= 3 ==>
        zones == old(zones) + [ClosedZone(old(zones), old(currentZone))] && currentZone == []
      ensures event == EventRButtonDown && |old(currentZone)| < 3 ==> zones == old(zones) && currentZone == []
      ensures event != EventLButtonDown && event != EventRButtonDown ==>
        zones == old(zones) && currentZone == old(currentZone)
    {
      if event == EventLButtonDown {
        currentZone := currentZone + [Point(x, y)];
      } else if event == EventRButtonDown {
        if |currentZone| >= 3 {
          zones := zones + [Zone(ZoneId(|zones| + 1), "restricted", currentZone)];
        }
        currentZone := [];
      }
    }

    /**
     * `save_zones(camera_name)` without the file I/O: `existing` is the configuration
     * read from disk (`None` when there is no file), the result the one written.
     */
    method SaveZones(existing: Option<Json>, cameraName: string) returns (written: Option<Json>)
      ensures written == SaveZonesConfig(existing, cameraName, zones)
      ensures written.Some? <==> existing.None? || existing.value.JObject?
      ensures written.Some? ==>
        && written.value.JObject? && DistinctKeys(written.value.entries) && HasKey(written.value.entries, cameraName)
        && Get(written.value.entries, cameraName) == ZonesJson(zones)
      ensures written.Some? && existing.Some? ==> forall k :: k != cameraName && HasKey(existing.value.entries, k) ==>
        HasKey(written.value.entries, k) && Get(written.value.entries, k) == Load(Get(existing.value.entries, k))
      ensures DrawnZones(zones) && (existing.None? || ValidConfig(existing.value)) ==>
        written.Some? && ValidateZoneJson(written.value) == Passed
    {
      if existing.Some? {
        LoadSemantics(existing.value);
      }
      var data := if existing.Some? then Load(existing.value) else JObject([]);
      if !data.JObject? {
        return None;
      }
      written := Some(JObject(SetEntry(data.entries, cameraName, ZonesJson(zones))));
      SetEntryGet(data.entries, cameraName, ZonesJson(zones));
      SetEntryDistinct(data.entries, cameraName, ZonesJson(zones));
      forall k | k != cameraName && HasKey(data.entries, k)
        ensures Get(written.value.entries, k) == Get(data.entries, k)
      {
        SetEntryGetOther(data.entries, cameraName, ZonesJson(zones), k);
      }
      if DrawnZones(zones) && (existing.None? || ValidConfig(existing.value)) {
        if existing.Some? {
          ValidConfigLoad(existing.value);
        }
        SavedConfigValid(data.entries, cameraName, zones);
      }
    }
  }
}
