/**
 * `validate_zones.py`: the structural checks a zone configuration must pass,
 * over the parsed file and the dicts `json.load` makes of it (reading the file
 * is left out).
 */
module ValidateZones {
  import opened Common
  import opened JsonValues

  /** `a` occurs in `b` as a contiguous substring (Python's `a in b` on strings). */
  predicate IsSubstring(a: string, b: string)
    decreases |b|
  {
    a <= b || (b != [] && IsSubstring(a, b[1..]))
  }

  /**
   * Python's `k in zone` for a zone of any JSON type: key membership for an object,
   * element membership for a list, substring for a string; `None` when `in` raises a
   * `TypeError` (numbers, booleans, null).
   */
  function Contains(zone: Json, k: string): Option<bool>
  {
    match zone
    case JObject(es) => Some(HasKey(es, k))
    case JArray(items) => Some(JString(k) in items)
    case JString(s) => Some(IsSubstring(k, s))
    case _ => None
  }

  /** Why a configuration is rejected: the message of the first failed check. */
  datatype Failure =
    | RootNotDict                           // validate_zones.py:8-9
    | ZonesNotList(camera: string)          // validate_zones.py:12-13
    | ZoneMissingKey(camera: string)        // validate_zones.py:15-16
    | TooFewPoints(zoneId: Json, camera: string)  // validate_zones.py:17-18
    | TypeError                             // an exception Python raises inside the checks

  /** What `validate_zone_json` reports: success or the caught failure (validate_zones.py:20-22). */
  datatype Verdict = Passed | Failed(failure: Failure)

  /** The checks of validate_zones.py:15-18 on one zone of `camera`. */
  function CheckZone(camera: string, zone: Json): Verdict
  {
    var hasId, hasType, hasPoints := Contains(zone, "id"), Contains(zone, "type"), Contains(zone, "points");
    if hasId.None? then Failed(TypeError)
    else if !hasId.value then Failed(ZoneMissingKey(camera))
    else if hasType.None? then Failed(TypeError)
    else if !hasType.value then Failed(ZoneMissingKey(camera))
    else if hasPoints.None? then Failed(TypeError)
    else if !hasPoints.value then Failed(ZoneMissingKey(camera))
    else if !zone.JObject? then Failed(TypeError)  // `zone["points"]` on a list or a string
    else
      var points := Get(zone.entries, "points");
      if !points.JArray? || |points.items| < 3 then Failed(TooFewPoints(Get(zone.entries, "id"), camera))
      else Passed
  }

  /** The zones of one camera, in order; the first failure stops the check (validate_zones.py:14-18). */
  function CheckZones(camera: string, zones: seq<Json>): Verdict
    decreases |zones|
  {
    if zones == [] then Passed
    else
      var v := CheckZone(camera, zones[0]);
      if v.Failed? then v else CheckZones(camera, zones[1..])
  }

  /** Every `(camera, zones)` item of the loaded dict, in order (validate_zones.py:11-18). */
  function CheckCameras(entries: seq<(string, Json)>): Verdict
    decreases |entries|
  {
    if entries == [] then Passed
    else
      var (camera, zones) := entries[0];
      if !zones.JArray? then Failed(ZonesNotList(camera))
      else
        var v := CheckZones(camera, zones.items);
        if v.Failed? then v else CheckCameras(entries[1..])
  }

  /** `validate_zone_json` on the parsed file: `json.load`, then the checks (validate_zones.py:3-22). */
  function ValidateZoneJson(data: Json): Verdict
  {
    var d := Load(data);
    if !d.JObject? then Failed(RootNotDict) else CheckCameras(d.entries)
  }

  /** A well-formed zone: an object with `id`, `type` and `points`, whose `points` is a list of 3 or more. */
  predicate ValidZone(zone: Json)
  {
    && zone.JObject?
    && HasKey(zone.entries, "id") && HasKey(zone.entries, "type") && HasKey(zone.entries, "points")
    && Get(zone.entries, "points").JArray? && |Get(zone.entries, "points").items| >= 3
  }

  /** A camera's zones: a list of well-formed zones. */
  predicate ValidZones(zones: Json)
  {
    zones.JArray? && forall j :: 0 <= j < |zones.items| ==> ValidZone(zones.items[j])
  }

  /** A well-formed configuration: an object whose every camera key holds a list of well-formed zones. */
  predicate ValidConfig(data: Json)
  {
    data.JObject? && forall i :: 0 <= i < |data.entries| ==> ValidZones(Get(data.entries, data.entries[i].0))
  }

  /** One zone passes its checks exactly when it is well formed; the `type` value is never examined. */
  lemma CheckZoneExact(camera: string, zone: Json)
    ensures CheckZone(camera, zone) == Passed <==> ValidZone(zone)
  {
  }

  /** A camera's zones pass exactly when all of them are well formed. */
  lemma {:induction false} CheckZonesExact(camera: string, zones: seq<Json>)
    ensures CheckZones(camera, zones) == Passed <==> forall j :: 0 <= j < |zones| ==> ValidZone(zones[j])
    decreases |zones|
  {
    if zones != [] {
      CheckZoneExact(camera, zones[0]);
      CheckZonesExact(camera, zones[1..]);
      assert forall j :: 1 <= j < |zones| ==> zones[1..][j - 1] == zones[j];
    }
  }

  /** The dict's items pass exactly when every camera holds a list of well-formed zones. */
  lemma {:induction false} CheckCamerasExact(entries: seq<(string, Json)>)
    ensures CheckCameras(entries) == Passed <==> forall i :: 0 <= i < |entries| ==> ValidZones(entries[i].1)
    decreases |entries|
  {
    if entries != [] {
      CheckCamerasExact(entries[1..]);
      if entries[0].1.JArray? {
        CheckZonesExact(entries[0].0, entries[0].1.items);
      }
      assert forall i :: 1 <= i < |entries| ==> entries[1..][i - 1] == entries[i];
    }
  }

  /** Loading neither makes nor breaks a well-formed zone. */
  lemma ValidZoneLoad(zone: Json)
    ensures ValidZone(Load(zone)) <==> ValidZone(zone)
  {
    LoadSemantics(zone);
    if zone.JObject? && HasKey(zone.entries, "points") {
      LoadSemantics(Get(zone.entries, "points"));
    }
  }

  /** Loading neither makes nor breaks a camera's list of well-formed zones. */
  lemma ValidZonesLoad(zones: Json)
    ensures ValidZones(Load(zones)) <==> ValidZones(zones)
  {
    LoadSemantics(zones);
    if zones.JArray? {
      forall j | 0 <= j < |zones.items| ensures ValidZone(Load(zones).items[j]) <==> ValidZone(zones.items[j]) {
        ValidZoneLoad(zones.items[j]);
      }
    }
  }

  /** Loading neither makes nor breaks a well-formed configuration. */
  lemma ValidConfigLoad(data: Json)
    ensures ValidConfig(Load(data)) <==> ValidConfig(data)
  {
    LoadSemantics(data);
    if data.JObject? {
      var es, ls := data.entries, Load(data).entries;
      forall k | HasKey(es, k) ensures ValidZones(Get(ls, k)) <==> ValidZones(Get(es, k)) {
        ValidZonesLoad(Get(es, k));
      }
      if ValidConfig(data) {
        forall i | 0 <= i < |ls| ensures ValidZones(Get(ls, ls[i].0)) {
          assert HasKey(ls, ls[i].0);
          var h :| 0 <= h < |es| && es[h].0 == ls[i].0;
        }
      }
      if ValidConfig(Load(data)) {
        forall i | 0 <= i < |es| ensures ValidZones(Get(es, es[i].0)) {
          assert HasKey(es, es[i].0);
          var h :| 0 <= h < |ls| && ls[h].0 == es[i].0;
        }
      }
    }
  }

  /** On a dict, a well-formed configuration is one whose every item holds a list of well-formed zones. */
  lemma ValidConfigDict(entries: seq<(string, Json)>)
    requires DistinctKeys(entries)
    ensures ValidConfig(JObject(entries)) <==> forall i :: 0 <= i < |entries| ==> ValidZones(entries[i].1)
  {
    forall i | 0 <= i < |entries| ensures Get(entries, entries[i].0) == entries[i].1 {
      GetDistinct(entries, i);
    }
  }

  /**
   * The validator reports success exactly for well-formed configurations: the empty
   * object and cameras with empty zone lists included, anything else rejected. A
   * repeated key counts with its last value only.
   */
  lemma ValidateExact(data: Json)
    ensures ValidateZoneJson(data) == Passed <==> ValidConfig(data)
  {
    LoadSemantics(data);
    if data.JObject? {
      CheckCamerasExact(Load(data).entries);
      ValidConfigDict(Load(data).entries);
      ValidConfigLoad(data);
    }
  }

  /** A camera written twice is judged by its last value: a number first and an empty list last passes. */
  lemma RepeatedCameraLastWins()
    ensures ValidateZoneJson(JObject([("cam", JNumber(5)), ("cam", JArray([]))])) == Passed
  {
    var data := JObject([("cam", JNumber(5)), ("cam", JArray([]))]);
    assert Get(data.entries, "cam") == JArray([]) by { GetAt(data.entries, "cam", 1); }
    ValidateExact(data);
  }

  /** A zone's repeated `points` is judged by its last value. */
  lemma RepeatedPointsLastWins(camera: string)
    ensures
      var triangle := JArray([JArray([JNumber(0), JNumber(0)]), JArray([JNumber(1), JNumber(0)]), JArray([JNumber(0), JNumber(1)])]);
      CheckZone(camera, JObject([("id", JNumber(1)), ("type", JString("restricted")), ("points", JNumber(5)), ("points", triangle)])) == Passed
  {
    var triangle := JArray([JArray([JNumber(0), JNumber(0)]), JArray([JNumber(1), JNumber(0)]), JArray([JNumber(0), JNumber(1)])]);
    var es := [("id", JNumber(1)), ("type", JString("restricted")), ("points", JNumber(5)), ("points", triangle)];
    assert es[0].0 == "id" && es[1].0 == "type";
    assert Get(es, "points") == triangle by { GetAt(es, "points", 3); }
  }

  /** Camera `i` is an entry of `entries` and every camera before it passes on its own. */
  predicate FirstFailing(entries: seq<(string, Json)>, i: int)
  {
    0 <= i < |entries| && forall h :: 0 <= h < i ==> CheckCameras([entries[h]]) == Passed
  }

  /** The failure reported for camera entries is that of the first camera that fails. */
  lemma {:induction false} CheckCamerasFirstFailure(entries: seq<(string, Json)>)
    requires CheckCameras(entries).Failed?
    ensures exists i :: FirstFailing(entries, i) && CheckCameras([entries[i]]) == CheckCameras(entries)
    decreases |entries|
  {
    var (camera, zones) := entries[0];
    if zones.JArray? && CheckZones(camera, zones.items).Passed? {
      CheckCamerasFirstFailure(entries[1..]);
      var i :| FirstFailing(entries[1..], i) && CheckCameras([entries[1..][i]]) == CheckCameras(entries[1..]);
      assert CheckCameras([entries[0]]) == Passed;
      forall h | 0 <= h < i + 1 ensures CheckCameras([entries[h]]) == Passed {
        if h > 0 {
          assert entries[h] == entries[1..][h - 1];
        }
      }
      assert entries[i + 1] == entries[1..][i];
    } else {
      assert CheckCameras([entries[0]]) == CheckCameras(entries);
    }
  }
}
