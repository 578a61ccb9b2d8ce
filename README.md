# SurveillanceSystem core, modelled in Dafny

This project models the per-frame analytics of the SurveillanceSystem video
surveillance application and proves what they do. The parts modelled:

- the centroid tracker, which gives every detected box a stable numeric id across frames;
- the virtual-line counter, which counts tracks crossing a horizontal line downwards ("in") and upwards ("out");
- the loitering detector, which flags a track that stays in view too long;
- zone-intrusion detection, a point-in-polygon test over restricted zones with the boundary counted as inside;
- validation of the zone-configuration JSON;
- the zone drawing tool's mouse state machine, and the per-camera update it saves;
- the row filter of the MobileNet-SSD object detector;
- the rule-based posture classifier.

Module layout, one file each:

- `common.dfy`: shared sequence facts and decimal rendering of numbers.
- `geometry.dfy`: points, boxes and their centroids.
- `tracker_spec.dfy`, `tracker.dfy`: the tracker. The spec file gives its state, steps and lemmas at the value level; `CentroidTracker` is a class whose methods update its fields in place and are proved against those steps.
- `line_counter.dfy`, `loitering.dfy`: classes with state, each proved against a fold over one update's tracked objects.
- `zone_intrusion.dfy`: the OpenCV crossing test on integer contours, and the intrusion list.
- `json_values.dfy`: JSON documents, dict lookup and assignment, and the dicts `json.load` makes of objects whose keys repeat.
- `validate_zones.dfy`: the checks, each with an exact characterisation.
- `zone_draw_tool.dfy`: mouse events, and the dict update `save_zones` performs.
- `object_detector.dfy`: the filter loop, as written and as intended.
- `posture.dfy`: `classify` as a pure function over exact reals.

Coordinates are unbounded integers in the model, where the source holds them in
fixed-width numpy arrays (see "## Left out"). The tracker's distances are squared
integer distances: comparing them orders detections exactly as the Euclidean
norm does, so argmin and argsort are unchanged. The defaults of the source's
keyword arguments are Dafny default parameter values: `max_disappeared=10`,
`loitering_threshold=300`, `conf_thresh=0.6`, `visibility_threshold=0.5`.

## Model

A model function without a contract of its own (for instance `ValidateZones.ValidateZoneJson`, `ZoneIntrusion.Intrusions` or `Loitering.TimerAfter`) is described by the rows of the lemmas about it, which cite the same lines.

| member | source | states |
|---|---|---|
| Geometry.TruncHalf | tracker.py:31 | `int(n/2)` truncates toward zero: the remainder is -1, 0 or 1 and has the sign of `n` |
| Geometry.CentroidInBox | tracker.py:31 | the centroid `(int((x1+x2)/2), int((y1+y2)/2))` of a box with `x1 <= x2`, `y1 <= y2` lies inside the box |
| TrackerSpec.LiveIds | tracker.py:37 | the ids in dict order are exactly the live ids, strictly increasing |
| TrackerSpec.Listed | tracker.py:76 | the returned list holds the live ids in dict order, each with its stored centroid |
| TrackerSpec.Registered | tracker.py:14-17 | registering keeps the registry well formed (both dicts share their keys, all below `next_id`) |
| TrackerSpec.Deregistered | tracker.py:19-21 | deregistering keeps the registry well formed |
| TrackerSpec.RegisteredIsFresh | tracker.py:14-17 | `next_id` is never a live key; registering adds exactly `next_id` to the keys and appends it to the dict order, so an id is never reused, even after deregistration |
| TrackerSpec.Missed | tracker.py:56-60 | one miss keeps the registry well formed and `next_id` unchanged |
| TrackerSpec.MissedAll | tracker.py:56-60 | aging a list of live ids keeps the registry well formed, keeps `next_id` and keeps every track not in the list |
| TrackerSpec.AgeablePrefix | tracker.py:56-60 | each step of an aging loop ages a still-live id, extending the fold by one miss |
| TrackerSpec.MissedEffect | tracker.py:57-60 | a miss keeps the track exactly when its raised count does not exceed `max_disappeared`, with the count raised by one; every other track is untouched |
| TrackerSpec.MissedAllShrinks | tracker.py:56-60 | aging creates no track and changes no centroid |
| TrackerSpec.MissedAllAged | tracker.py:56-60 | an aged track survives exactly when its count stays within `max_disappeared`, with the count raised by one |
| TrackerSpec.MissedAllOthers | tracker.py:56-60 | a live track not in the aging list keeps its place and its count |
| TrackerSpec.EmptyFrameDeregistersAtZero | tracker.py:24-29 | with `max_disappeared = 0`, a track registered on one frame is removed by the next frame without detections, leaving an empty result |
| TrackerSpec.StreakDeregistersAtThreshold | tracker.py:57-60 | a track that goes unmatched `k` times in a row from count 0 is live, with count `k`, exactly while `k <= max_disappeared`; it is removed on miss `max_disappeared + 1` |
| TrackerSpec.RegisteredAll | tracker.py:33-35 | registering `n` centroids keeps the registry well formed and advances `next_id` by `n` |
| TrackerSpec.RegisteredAllDomain | tracker.py:33-35 | after registering, the live ids are the old ones plus exactly `next_id .. next_id+n-1` |
| TrackerSpec.RegisteredAllNew | tracker.py:33-35 | the k-th centroid becomes track `next_id + k` with count 0 |
| TrackerSpec.RegisteredAllKeeps | tracker.py:33-35 | registering leaves every existing track's centroid and count as they were |
| TrackerSpec.RegisteredAllIds | tracker.py:33-35 | the new ids are appended to the dict order, consecutively |
| TrackerSpec.ArgMinCol | tracker.py:40 | the chosen column is nearest to the row's track, and is the first nearest on ties |
| TrackerSpec.TrackCentroids | tracker.py:38 | the track centroids in key order, one per live id |
| TrackerSpec.ArgMins | tracker.py:40-41 | every row's nearest column, in range |
| TrackerSpec.RowMins | tracker.py:41 | every row's minimum is its distance to its nearest column, and is at most its distance to any column |
| TrackerSpec.InsertRow | tracker.py:41 | insertion adds exactly one row, keeping the other rows |
| TrackerSpec.InsertRowSorted | tracker.py:41 | inserting a new row keeps the order sorted by (minimum distance, row) |
| TrackerSpec.ArgSort | tracker.py:41 | the processing order is a permutation of the rows `0..n-1` |
| TrackerSpec.ArgSortSorted | tracker.py:41 | the processing order is sorted by ascending minimum distance, lower row first on ties |
| TrackerSpec.Greedy | tracker.py:42-51 | every accepted pair is a processed row with its nearest column |
| TrackerSpec.GreedyInjective | tracker.py:44-51 | no track is matched twice and no detection is claimed twice |
| TrackerSpec.GreedyStep | tracker.py:44-51 | a row is accepted exactly when neither it nor its nearest column is already used |
| TrackerSpec.GreedyCols | tracker.py:44-51 | the used columns are exactly the nearest columns of the processed rows |
| TrackerSpec.GreedyRows | tracker.py:44-51 | closed form: a row is matched exactly when no row processed before it has the same nearest column |
| TrackerSpec.MatchedTrack | tracker.py:47-49 | a matched track keeps its id and the registry stays well formed |
| TrackerSpec.AppliedPairsMatched | tracker.py:47-49 | after the greedy loop, every matched track holds its detection's centroid with count 0 |
| TrackerSpec.AppliedPairsUntouched | tracker.py:44-51 | a track that no pair names is unchanged by the greedy loop |
| TrackerSpec.Unused | tracker.py:53-54 | the unused indices are exactly those below `n` not in the used set, in the ascending order the model fixes for set iteration |
| TrackerSpec.Associate | tracker.py:37-44 | row ids are the live ids; the argmins, the processing order and the indices are in range |
| TrackerSpec.AssociateCoherent | tracker.py:37-51 | the association is built from the greedy loop over the sorted order |
| TrackerSpec.Matched | tracker.py:44-51 | the greedy loop keeps the set of live ids and `next_id` |
| TrackerSpec.UnmatchedIds | tracker.py:53 | the unmatched track ids are live and ascending |
| TrackerSpec.MatchedRowsEffect | tracker.py:47-49 | a matched row's track holds the centroid of its nearest detection, with count 0 |
| TrackerSpec.MatchedOthersEffect | tracker.py:44-51 | an unmatched row's track is unchanged by the greedy loop |
| TrackerSpec.UnmatchedIdsMembers | tracker.py:53-57 | the aging loop visits exactly the live tracks that were not matched |
| TrackerSpec.AgedEffect | tracker.py:56-60 | after aging: a matched track holds its nearest detection with count 0; an unmatched one aged once, or is gone past the threshold |
| TrackerSpec.MatchStep | tracker.py:37-63 | a matched update leaves the registry well formed: both dicts on the same ids, all below `next_id` |
| TrackerSpec.MatchStepExisting | tracker.py:37-63 | what a matched update does to the existing tracks: matched ones take the nearest centroid with count 0, unmatched ones age once or are removed |
| TrackerSpec.MatchStepRegisters | tracker.py:53-63 | each unclaimed detection becomes exactly one new track, with consecutive fresh ids in ascending column order and count 0; no other id appears |
| TrackerSpec.PushedIsWindow | tracker.py:71-74 | the trail always holds the newest 20000 centroids ever pushed, dropping the oldest, and never exceeds its capacity |
| TrackerSpec.RecordedEffect | tracker.py:65-69 | each recorded track's history ends in its current centroid, keeps at most 30 entries, and no other history changes |
| Tracker.CentroidTracker.constructor | tracker.py:5-12 | `max_disappeared` defaults to 10; no tracks, ids from 0, an empty trail of capacity 20000, an empty history |
| Tracker.CentroidTracker.Register | tracker.py:14-17 | the fields become the registered registry |
| Tracker.CentroidTracker.Deregister | tracker.py:19-21 | the fields become the deregistered registry |
| Tracker.CentroidTracker.AgeAll | tracker.py:56-60 | the aging loop updates the fields to the fold of misses over the ids given |
| Tracker.CentroidTracker.RegisterAll | tracker.py:33-35 | the registering loop updates the fields to the fold of registrations |
| Tracker.CentroidTracker.AppendTrail | tracker.py:71-74 | the trail loop updates the trail to the sliding-window push of every centroid |
| Tracker.CentroidTracker.MatchGreedy | tracker.py:42-51 | the greedy loop leaves the registry with the accepted pairs applied and the used rows and columns as their sets |
| Tracker.CentroidTracker.MatchAndRegister | tracker.py:37-63 | the matched branch updates the registry to one `MatchStep`, without touching trail or history |
| Tracker.CentroidTracker.NoDetections | tracker.py:24-29 | with no detections every live track ages once and the tracks are returned |
| Tracker.CentroidTracker.FirstDetections | tracker.py:33-35 | with an empty registry every centroid is registered and joins the trail |
| Tracker.CentroidTracker.Update | tracker.py:23-76 | `update` as written: ages on no detections, registers into an empty registry, and otherwise matches and then raises the NameError of line 65 |
| Tracker.CentroidTracker.RecordHistory | tracker.py:65-69 | the history loop updates the history to the fold over the tracks given |
| Tracker.CentroidTracker.UpdateIntended | tracker.py:23-76 | `update` as intended: the same registry steps, then the history and the trail are updated and the tracks returned |
| LineCounting.CrossingIn | line_counter.py:12-15 | a step counts in exactly when the previous y was above the line and the new y is at or below it; out is the mirror image; staying on one side counts nothing |
| LineCounting.Observe | line_counter.py:8-16 | one object stores its latest y |
| LineCounting.ObserveAll | line_counter.py:8-16 | no stored position is ever forgotten |
| LineCounting.ObserveEffect | line_counter.py:10-16 | a first sighting counts nothing; a repeated sighting counts its crossing; either way the y is stored |
| LineCounting.CountsMonotone | line_counter.py:8-16 | both counters never decrease, and grow together by at most one per object |
| LineCounting.ObservedDomain | line_counter.py:16 | the stored ids are the old ones plus those of the objects seen |
| LineCounting.ObservedOthers | line_counter.py:16 | an id not seen keeps its stored y |
| LineCounting.ObservedLatest | line_counter.py:16 | an id's stored y is the y of its last occurrence in the update |
| LineCounting.ObserveAllTally | line_counter.py:8-16 | with distinct ids, the counters grow by exactly the number of in and out crossings against the previous positions |
| LineCounting.LineCounter.constructor | line_counter.py:2-6 | zero counts and no stored positions |
| LineCounting.LineCounter.Update | line_counter.py:8-16 | the loop updates the counter to the fold of `Observe` over the objects |
| Loitering.NextEntry | loitering_detector.py:12-19 | a new id starts at timer 0; a re-seen id within the threshold gains 1; otherwise it resets to 0; `last_seen` becomes `now` |
| Loitering.Swept | loitering_detector.py:10-19 | no tracked id is ever forgotten and every seen id is stored |
| Loitering.Alerts | loitering_detector.py:21-23 | one alert text per alerted id, in order |
| Loitering.AlertsStep | loitering_detector.py:10-23 | the alerts of a non-empty update are those for its front, plus one for the last object when its timer reaches the threshold |
| Loitering.SweptDomain | loitering_detector.py:10-19 | the stored ids are the old ones plus the ids seen |
| Loitering.SweptOthers | loitering_detector.py:10-19 | an id not seen keeps its entry |
| Loitering.SweptNow | loitering_detector.py:12-19 | every seen id's `last_seen` is `now` |
| Loitering.SweptOnce | loitering_detector.py:12-19 | an id seen once is updated exactly by one `NextEntry` step |
| Loitering.AlertIdsExact | loitering_detector.py:21-23 | with distinct ids, an alert is raised exactly for the ids whose new timer reaches the threshold |
| Loitering.IgnoresPositions | loitering_detector.py:8-25 | only the ids matter; centroids never change the state or the alerts |
| Loitering.TimerCountsStreak | loitering_detector.py:12-19 | a timer `t` means the last `t + 1` sightings came at gaps under the threshold, and, unless they were all the sightings, the gap before them was not under it: the timer counts the most recent such run |
| Loitering.FlaggedAfterStreak | loitering_detector.py:21-23 | an object is flagged only after at least `threshold + 1` sightings |
| Loitering.LoiteringDetector.constructor | loitering_detector.py:4-6 | the threshold, 300 by default, is kept and no object is stored |
| Loitering.LoiteringDetector.Update | loitering_detector.py:8-25 | the loop updates the entries to the sweep and returns its alert texts in order |
| ZoneIntrusion.EdgeTouches | detectors/zone_intrusion.py:14-15 | a point on an edge, other than its start vertex, is reported on that edge |
| ZoneIntrusion.EdgeTouchesEnd | detectors/zone_intrusion.py:14-15 | an edge reports the vertex it ends at |
| ZoneIntrusion.ScanTouches | detectors/zone_intrusion.py:14-15 | once an edge reports the point, the whole test answers "on the boundary" |
| ZoneIntrusion.EdgePointsInside | detectors/zone_intrusion.py:14-15 | every point of every edge, vertices included, is on the boundary and so inside |
| ZoneIntrusion.OutsideBeyond | detectors/zone_intrusion.py:14-15 | a point strictly right of, above or below every vertex is outside |
| ZoneIntrusion.RectangleInterior | detectors/zone_intrusion.py:14-15 | a point strictly inside an axis-aligned rectangle is inside |
| ZoneIntrusion.ZoneHits | detectors/zone_intrusion.py:27-34 | no more records than zones |
| ZoneIntrusion.ObjectHits | detectors/zone_intrusion.py:22-34 | no more records than objects times zones |
| ZoneIntrusion.ZoneHitsExact | detectors/zone_intrusion.py:27-34 | a record exists exactly for each restricted zone containing the centroid, copying both ids and the centroid; other zone types never report |
| ZoneIntrusion.HitIndices | detectors/zone_intrusion.py:27-29 | the positions of the restricted zones containing the point, each once, ascending |
| ZoneIntrusion.HitIndicesCount | detectors/zone_intrusion.py:27-29 | the positions are as many as the zones that report the point |
| ZoneIntrusion.ZoneHitsOrder | detectors/zone_intrusion.py:27-34 | one record per reporting zone, in zone order: the `t`-th record names the `t`-th restricted zone containing the centroid |
| ZoneIntrusion.ZoneHitsCount | detectors/zone_intrusion.py:27-34 | an object gets exactly as many records as there are restricted zones containing its centroid |
| ZoneIntrusion.ObjectHitsExact | detectors/zone_intrusion.py:22-34 | a record exists exactly for an object with a centroid and a restricted zone containing it; objects without a centroid are skipped |
| ZoneIntrusion.UnknownCameraNoIntrusions | detectors/zone_intrusion.py:19-20 | a camera with no zones has no intrusions |
| ZoneIntrusion.BoundaryIntrudes | detectors/zone_intrusion.py:14-34 | an object on the boundary of a restricted zone of its camera is reported |
| ZoneIntrusion.ZoneIntrusionDetector.constructor | detectors/zone_intrusion.py:7-12 | the detector holds the loaded configuration |
| ZoneIntrusion.ZoneIntrusionDetector.PointInPolygonTest | detectors/zone_intrusion.py:14-15 | the answer is the boundary-inclusive crossing test, and a point on any edge of the polygon, vertices included, is inside |
| ZoneIntrusion.ZoneIntrusionDetector.DetectIntrusions | detectors/zone_intrusion.py:17-36 | the nested loops return the intrusion list in object order, then zone order |
| JsonValues.Get | validate_zones.py:17 | `d[k]` is the value of the last entry with key `k`, the one `json.load` keeps |
| JsonValues.GetAt | validate_zones.py:17 | the entry of `k` with no later entry of `k` holds `d[k]` |
| JsonValues.GetDistinct | validate_zones.py:11 | in a dict every item holds the value its key looks up |
| JsonValues.SetEntry | zone_draw_tool.py:39 | the assignment keeps the length for a present key and adds one entry for a new key |
| JsonValues.SetEntryOthers | zone_draw_tool.py:39 | every other key keeps its entry and its place, and every entry is the new one or the old one there |
| JsonValues.SetEntryGet | zone_draw_tool.py:39 | after `d[k] = v` the keys are the old ones plus `k`, and `d[k]` is `v` |
| JsonValues.SetEntryGetOther | zone_draw_tool.py:39 | after `d[k] = v` every other key looks up its old value |
| JsonValues.SetEntryDistinct | zone_draw_tool.py:39 | the assignment on a dict gives a dict, each key once |
| JsonValues.HasKeySnoc | validate_zones.py:6 | an appended entry adds its key and no other |
| JsonValues.GetSnocOther | validate_zones.py:6 | an appended entry of another key does not change a lookup |
| JsonValues.DictOfSemantics | validate_zones.py:6 | the dict of an object's entries has each key once, the same keys as the object, and under each key the value of its last entry |
| JsonValues.LoadSemantics | validate_zones.py:6 | `json.load` keeps lists as lists of loaded items and objects as dicts with the same keys, each holding the load of its last value |
| ValidateZones.CheckZoneExact | validate_zones.py:15-18 | a zone passes exactly when it is a dict with `id`, `type` and `points`, whose `points` (its last value) is a list of at least 3 |
| ValidateZones.CheckZonesExact | validate_zones.py:14-18 | a camera's zones pass exactly when all of them are well formed |
| ValidateZones.CheckCamerasExact | validate_zones.py:11-18 | the dict's items pass exactly when every camera holds a list of well-formed zones |
| ValidateZones.ValidZoneLoad | validate_zones.py:6 | loading neither makes nor breaks a well-formed zone |
| ValidateZones.ValidZonesLoad | validate_zones.py:6 | loading neither makes nor breaks a camera's list of well-formed zones |
| ValidateZones.ValidConfigLoad | validate_zones.py:6 | loading neither makes nor breaks a well-formed configuration |
| ValidateZones.ValidConfigDict | validate_zones.py:11 | on a dict, well formed means every item holds a list of well-formed zones |
| ValidateZones.ValidateExact | validate_zones.py:3-22 | the validator succeeds exactly on well-formed configurations, the empty dict included, with a repeated key judged by its last value; anything else fails, and no error escapes |
| ValidateZones.RepeatedCameraLastWins | validate_zones.py:6-13 | `{"cam": 5, "cam": []}` passes, because only the last value of `cam` is checked |
| ValidateZones.RepeatedPointsLastWins | validate_zones.py:15-18 | a zone whose `points` is first 5 and then a triangle passes |
| ValidateZones.CheckCamerasFirstFailure | validate_zones.py:11-22 | the failure reported is that of the first camera, in dict order, which fails on its own |
| ZoneDrawTool.ZoneIdInjective | zone_draw_tool.py:15 | different zone numbers give different ids `zone_N` |
| ZoneDrawTool.DrawnZonesDistinct | zone_draw_tool.py:12-19 | drawn zones have pairwise distinct ids |
| ZoneDrawTool.ZonesJson | zone_draw_tool.py:33-41 | the written list has one zone object per zone, in order |
| ZoneDrawTool.DrawnZonesValid | zone_draw_tool.py:12-19 | every drawn zone, once written, passes the zone checks of validate_zones.py |
| ZoneDrawTool.SavedConfigValid | zone_draw_tool.py:28-41 | saving drawn zones into a valid configuration gives one the validator accepts |
| ZoneDrawTool.ZoneDrawing.constructor | zone_draw_tool.py:5-6 | no zones and no pending points |
| ZoneDrawTool.ZoneDrawing.MouseCallback | zone_draw_tool.py:8-19 | a left click adds a point; a right click closes 3 or more points into the next restricted zone and always clears the pending points; other events change nothing; drawn zones stay well formed |
| ZoneDrawTool.ZoneDrawing.SaveZones | zone_draw_tool.py:28-41 | the dict written is the loaded existing one, or an empty dict, with this camera set to the drawn zones and every other camera keeping its loaded value; it holds each key once; nothing is written exactly when the existing root is not a dict; drawn zones saved into a valid or missing configuration pass `validate_zone_json` |
| ObjectDetection.Clamp | object_detector.py:117-120 | the clamped value lies in `[0, hi]`, and a value already in range is kept |
| ObjectDetection.Kept | object_detector.py:94-126 | at most one detection per row |
| ObjectDetection.ShapeAt | object_detector.py:91-94 | indexing the shape tuple fails exactly past its end |
| ObjectDetection.AsWrittenRaisesOnDocumentedShape | object_detector.py:91-92 | on the documented output shape `[1, 1, N, 7]` the code as written raises, while the intended check keeps the rows |
| ObjectDetection.AsWrittenAgreesOffShape | object_detector.py:91-92 | on outputs that are not 4-d, as written and as intended both return `[]` |
| ObjectDetection.RowResultExact | object_detector.py:95-126 | a row is kept exactly when its confidence reaches the threshold, its class id indexes the labels, its label passes the filter and its clamped box is not degenerate; the detection carries that label, the confidence and a box inside the frame |
| ObjectDetection.KeptMembers | object_detector.py:94-126 | a detection is returned exactly when some row produces it |
| ObjectDetection.KeptAcceptable | object_detector.py:95-124 | every returned detection is confident enough, has a known and allowed label, and lies in the frame |
| ObjectDetection.DetectionsExact | object_detector.py:91-128 | an unexpected shape gives `[]`; otherwise the result holds exactly what the rows produce, all acceptable |
| ObjectDetection.ObjectDetector.constructor | object_detector.py:63 | the labels are the ones given, or the 21 default labels |
| ObjectDetection.ObjectDetector.DetectObjectsAsWritten | object_detector.py:91-128 | every 4-d output raises `IndexError`, and any other output gives `[]` |
| ObjectDetection.ObjectDetector.DetectObjects | object_detector.py:91-128 | the filter loop returns the intended detections |
| ObjectDetection.ObjectDetector.DetectOnly | object_detector.py:130-134 | the filtered detections, and every returned label is one of those asked for |
| Posture.GetPoint | posture_classifier.py:12-13 | a point is produced exactly when its visibility exceeds the threshold, and it is `(x, y)` |
| Posture.Classify | posture_classifier.py:8-42 | the answer is always one of the five labels |
| Posture.AllVisibleExact | posture_classifier.py:15-25 | the pose is uncertain exactly when one of the six keypoints has visibility at most the threshold |
| Posture.HeightSplits | posture_classifier.py:31-33 | the total height is the shoulder-hip gap plus the hip-knee gap |
| Posture.NoPoseUnknown | posture_classifier.py:9-10 | no pose gives `Unknown` |
| Posture.ClassifyExact | posture_classifier.py:24-42 | each label holds exactly under its rule, with every earlier rule failed |
| Posture.PostureHeights | posture_classifier.py:35-42 | standing implies a total height over 0.2; sitting implies knees more than 0.1 below the hips; knees at most 0.1 below the hips are never sitting or standing |
| Posture.ClassifyReadsKeypointHeights | posture_classifier.py:8-42 | only the heights and visibilities of the six keypoints affect the answer |

## Left out

- Camera capture, the GUI and the window loop (`cv2.imshow`, `waitKey`), and drawing on frames (`draw_zones`): I/O, not modelled.
- File I/O and JSON text: `load_zones` and the file reads and writes are not modelled. The parsed document is a value whose objects list their entries in document order, repeats included. `JsonValues.Load` is `json.load`'s turning of every object into a dict: a repeated key keeps the place of its first entry and the value of its last. `json.dump` writes a dict as it is. JSON numbers are integers.
- `print` messages of `validate_zones.py` and `zone_draw_tool.py`: the model returns a verdict value with the failure's fields instead.
- Network loading, `blobFromImage` and the forward pass are not modelled. Each output row is given with the class id already cast by `int(detections[0, 0, i, 1])` (object_detector.py:99). Its box coordinates come already scaled by `int(detections[0, 0, i, 3] * w)` and the like (object_detector.py:112-115): the float products truncated toward zero. Only the clamping and the checks that follow are modelled.
- Tracker.CentroidTracker.Update: `update` returns the tracker's own `self.objects` dict, so later updates change what a caller holds. The model returns the tracks as a value, a snapshot taken at return, and does not model that aliasing.
- Composing the modules: tracked objects are read as `(id, centroid)` values. The tracker's dict output and the zone detector's list of dicts differ in shape, and the call sites that join them are not modelled.
- Floating point: tracker distances are squared integers, which preserve the ordering of `np.linalg.norm`. The posture rule uses exact reals, so rounding at the thresholds 0.1 and 0.15 is not modelled.
- TrackerSpec.ArgSort: numpy's default `argsort` is not stable. The model fixes ties to the lower row.
- TrackerSpec.Unused: `set(range(0, n)) - used` is a fresh hash set, and CPython iterates it in an order that depends on the table layout: `set(range(10)) - {0, 1, 3, 4, 5, 6, 7, 8}` is visited as 9, then 2. The model iterates unused rows and columns in ascending order. For rows this makes no difference, because aging touches each track alone.
- TrackerSpec.MatchStepRegisters: new tracks take fresh ids in ascending column order. Under CPython the unmatched detections can be registered in another order (detection 9 before detection 2 in the example above), so which fresh id goes to which new detection can differ. The set of new ids and the set of their centroids are the same either way.
- Fixed-width integers: centroids are int64 numpy arrays (tracker.py:31 and 40) and polygons are cast to int32 (detectors/zone_intrusion.py:15). The model's coordinates are exact integers, so it assumes pixel values that fit in int32; overflow and wrap-around are not modelled.
- ZoneIntrusion.Intrusions: zones are typed values with an id, a type and points. An unvalidated configuration whose zone lacks one of those keys raises `KeyError` at detectors/zone_intrusion.py:28-32, and that case is not modelled; `validate_zone_json` rejects such configurations.
- ZoneIntrusion.PolygonTest: `cv2.pointPolygonTest` is modelled by its integer-contour crossing test. Self-intersecting polygons follow the same even-odd rule and are not treated specially.
- Loitering.LoiteringDetector.Update: `datetime.now()`, called several times per object, is read once per update as the parameter `now`, in whole seconds, so the clock advancing inside one update is not modelled.
- Posture: `prev_state` of `PostureClassifier.__init__` is never read, so the classifier is a pure function and not a class.
- Posture.Classify: the landmark list must have at least 27 entries, as MediaPipe's 33-landmark pose always does. A shorter list raises `IndexError` in Python, and that case is not modelled.

## Findings

| source | as written | input that shows it | evidently intended | confidence | as-written member | corrected member |
|---|---|---|---|---|---|---|
| tracker.py:65 | the history loop iterates `new_tracked.items()`, and `new_tracked` is never defined, so this raises `NameError` after the registry has been updated | any `update` with non-empty `rects` while tracks exist | iterate `self.objects.items()`, record the history, push the trail and return the tracks | not executed | Tracker.CentroidTracker.Update | Tracker.CentroidTracker.UpdateIntended |
| object_detector.py:91 | the check reads `shape[21]` (and line 94 `shape[22]`) of a 4-tuple, which raises `IndexError` on every 4-d output | output shape `[1, 1, N, 7]` | return `[]` when `shape[3] < 7`, and read `shape[2]` rows | not executed | ObjectDetection.AsWrittenRaisesOnDocumentedShape | ObjectDetection.ObjectDetector.DetectObjects |
