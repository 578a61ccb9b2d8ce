/**
 * `object_detector.py`: the post-filter `detect_objects` applies to the rows of
 * the network's output (confidence, label index, optional label filter, clamping
 * to the frame, degenerate boxes), over rows already scaled to pixels.
 */
module ObjectDetection {
  import opened Common
  import opened Geometry

  /** One row `detections[0, 0, i]` with its coordinates already scaled: class id, confidence, box. */
  datatype Row = Row(classId: int, confidence: real, x1: int, y1: int, x2: int, y2: int)

  /** The network output: its shape and the rows `detections[0, 0, i]` for `i` in `range(shape[2])`. */
  datatype Output = Output(shape: seq<nat>, rows: seq<Row>)

  /** One result `((x1, y1, x2, y2), label, confidence)`. */
  datatype Detection = Detection(box: Rect, labelName: string, confidence: real)

  /** What a call ends in: the result list, or the `IndexError` of indexing past the shape. */
  datatype Outcome = Returned(results: seq<Detection>) | IndexError

  /** `DEFAULT_LABELS`, the 21 PASCAL VOC labels (object_detector.py:18-23). */
  const DefaultLabels: seq<string> := [
    "background", "aeroplane", "bicycle", "bird", "boat",
    "bottle", "bus", "car", "cat", "chair",
    "cow", "diningtable", "dog", "horse", "motorbike",
    "person", "pottedplant", "sheep", "sofa", "train", "tvmonitor"
  ]

  /** The default `conf_thresh` of `detect_objects` and `detect_only` (object_detector.py:68 and 130). */
  const DefaultConfThresh: real := 0.6

  /** `max(0, min(v, hi))`. */
  function Clamp(v: int, hi: int): (c: int)
    ensures c >= 0 && (hi >= 0 ==> c <= hi)
    ensures 0 <= v <= hi ==> c == v
    ensures hi < 0 ==> c == 0
  {
    var m := if v < hi then v else hi;
    if m < 0 then 0 else m
  }

  /**
   * The loop body of object_detector.py:94-126 for one row: `None` when the row is
   * skipped, otherwise the detection it appends.
   */
  function RowResult(row: Row, labels: seq<string>, filterLabels: Option<seq<string>>, w: int, h: int, confThresh: real): Option<Detection>
  {
    if row.confidence < confThresh then None
    else if row.classId < 0 || row.classId >= |labels| then None
    else
      var labelName := labels[row.classId];
      if filterLabels.Some? && labelName !in filterLabels.value then None
      else
        var x1, y1 := Clamp(row.x1, w - 1), Clamp(row.y1, h - 1);
        var x2, y2 := Clamp(row.x2, w - 1), Clamp(row.y2, h - 1);
        if x2 <= x1 || y2 <= y1 then None
        else Some(Detection(Rect(x1, y1, x2, y2), labelName, row.confidence))
  }

  /** The detections of the rows kept, in row order. */
  function Kept(rows: seq<Row>, labels: seq<string>, filterLabels: Option<seq<string>>, w: int, h: int, confThresh: real): (r: seq<Detection>)
    ensures |r| <= |rows|
    decreases |rows|
  {
    if rows == [] then []
    else
      var r := RowResult(rows[|rows| - 1], labels, filterLabels, w, h, confThresh);
      Kept(rows[..|rows| - 1], labels, filterLabels, w, h, confThresh) + (if r.Some? then [r.value] else [])
  }

  /** The check object_detector.py:91-92 evidently intends: a 4-d output whose last axis has the 7 fields. */
  predicate ShapeOk(out: Output)
  {
    |out.shape| == 4 && out.shape[3] >= 7
  }

  /** `detect_objects` as evidently intended: `shape[3]` checked and `shape[2]` rows read. */
  function Detections(out: Output, labels: seq<string>, filterLabels: Option<seq<string>>, w: int, h: int, confThresh: real): seq<Detection>
  {
    if !ShapeOk(out) then [] else Kept(out.rows, labels, filterLabels, w, h, confThresh)
  }

  /** Python's `shape[i]` on the shape tuple: `None` is the `IndexError` of an index past its end. */
  function ShapeAt(shape: seq<nat>, i: nat): (r: Option<nat>)
    ensures r.Some? <==> i < |shape|
    ensures r.Some? ==> r.value == shape[i]
  {
    if i < |shape| then Some(shape[i]) else None
  }

  /**
   * `detect_objects` as written: `shape[21]` is read whenever the output is 4-d, and a
   * 4-tuple has no index 21, so the call raises; other outputs give `[]`.
   */
  function DetectionsAsWritten(out: Output, labels: seq<string>, filterLabels: Option<seq<string>>, w: int, h: int, confThresh: real): Outcome
  {
    if |out.shape| != 4 then Returned([])
    else
      var fields := ShapeAt(out.shape, 21);
      if fields.None? then IndexError
      else if fields.value < 7 then Returned([])
      else Returned(Kept(out.rows, labels, filterLabels, w, h, confThresh))
  }

  /** The output shape the network documents, `[1, 1, N, 7]`, makes the code as written raise every time. */
  lemma AsWrittenRaisesOnDocumentedShape(n: nat, rows: seq<Row>, labels: seq<string>, filterLabels: Option<seq<string>>, w: int, h: int, confThresh: real)
    ensures DetectionsAsWritten(Output([1, 1, n, 7], rows), labels, filterLabels, w, h, confThresh) == IndexError
    ensures Detections(Output([1, 1, n, 7], rows), labels, filterLabels, w, h, confThresh) == Kept(rows, labels, filterLabels, w, h, confThresh)
  {
  }

  /** The code as written and the intended one agree on outputs that are not 4-d: both return `[]`. */
  lemma AsWrittenAgreesOffShape(out: Output, labels: seq<string>, filterLabels: Option<seq<string>>, w: int, h: int, confThresh: real)
    requires |out.shape| != 4
    ensures DetectionsAsWritten(out, labels, filterLabels, w, h, confThresh) == Returned(Detections(out, labels, filterLabels, w, h, confThresh))
  {
  }

  /** What every kept detection satisfies (object_detector.py:95-124). */
  predicate Acceptable(d: Detection, labels: seq<string>, filterLabels: Option<seq<string>>, w: int, h: int, confThresh: real)
  {
    && d.confidence >= confThresh
    && d.labelName in labels
    && (filterLabels.Some? ==> d.labelName in filterLabels.value)
    && 0 <= d.box.x1 < d.box.x2 <= w - 1
    && 0 <= d.box.y1 < d.box.y2 <= h - 1
  }

  /**
   * A row is kept exactly when its confidence reaches the threshold, its class id
   * indexes the labels, its label passes the filter and its clamped box is not
   * degenerate; the detection then carries that label, the confidence and the clamped
   * box, which lies inside the frame.
   */
  lemma RowResultExact(row: Row, labels: seq<string>, filterLabels: Option<seq<string>>, w: int, h: int, confThresh: real)
    ensures RowResult(row, labels, filterLabels, w, h, confThresh).Some? <==>
      && row.confidence >= confThresh
      && 0 <= row.classId < |labels|
      && (filterLabels.Some? ==> labels[row.classId] in filterLabels.value)
      && Clamp(row.x1, w - 1) < Clamp(row.x2, w - 1)
      && Clamp(row.y1, h - 1) < Clamp(row.y2, h - 1)
    ensures RowResult(row, labels, filterLabels, w, h, confThresh).Some? ==>
      && RowResult(row, labels, filterLabels, w, h, confThresh).value.labelName == labels[row.classId]
      && RowResult(row, labels, filterLabels, w, h, confThresh).value.confidence == row.confidence
      && Acceptable(RowResult(row, labels, filterLabels, w, h, confThresh).value, labels, filterLabels, w, h, confThresh)
  {
  }

  /** A detection is kept exactly when some row produces it. */
  lemma {:induction false} KeptMembers(rows: seq<Row>, labels: seq<string>, filterLabels: Option<seq<string>>, w: int, h: int, confThresh: real)
    ensures forall d :: d in Kept(rows, labels, filterLabels, w, h, confThresh) <==>
      exists i :: 0 <= i < |rows| && RowResult(rows[i], labels, filterLabels, w, h, confThresh) == Some(d)
    decreases |rows|
  {
    if rows != [] {
      var n := |rows| - 1;
      KeptMembers(rows[..n], labels, filterLabels, w, h, confThresh);
      assert forall i :: 0 <= i < n ==> rows[..n][i] == rows[i];
    }
  }

  /** Every kept detection is acceptable: confident enough, a known and allowed label, a box inside the frame. */
  lemma KeptAcceptable(rows: seq<Row>, labels: seq<string>, filterLabels: Option<seq<string>>, w: int, h: int, confThresh: real)
    ensures forall d :: d in Kept(rows, labels, filterLabels, w, h, confThresh) ==> Acceptable(d, labels, filterLabels, w, h, confThresh)
  {
    KeptMembers(rows, labels, filterLabels, w, h, confThresh);
    forall d | d in Kept(rows, labels, filterLabels, w, h, confThresh)
      ensures Acceptable(d, labels, filterLabels, w, h, confThresh)
    {
      var i :| 0 <= i < |rows| && RowResult(rows[i], labels, filterLabels, w, h, confThresh) == Some(d);
      RowResultExact(rows[i], labels, filterLabels, w, h, confThresh);
    }
  }

  /**
   * `detect_objects` as intended: an output of unexpected shape gives `[]`; otherwise
   * the result is no longer than the rows, holds exactly what some row produces,
   * and every detection in it is acceptable.
   */
  lemma DetectionsExact(out: Output, labels: seq<string>, filterLabels: Option<seq<string>>, w: int, h: int, confThresh: real)
    ensures !ShapeOk(out) ==> Detections(out, labels, filterLabels, w, h, confThresh) == []
    ensures |Detections(out, labels, filterLabels, w, h, confThresh)| <= |out.rows|
    ensures forall d :: d in Detections(out, labels, filterLabels, w, h, confThresh) <==>
      ShapeOk(out) && exists i :: 0 <= i < |out.rows| && RowResult(out.rows[i], labels, filterLabels, w, h, confThresh) == Some(d)
    ensures forall d :: d in Detections(out, labels, filterLabels, w, h, confThresh) ==> Acceptable(d, labels, filterLabels, w, h, confThresh)
  {
    KeptMembers(out.rows, labels, filterLabels, w, h, confThresh);
    KeptAcceptable(out.rows, labels, filterLabels, w, h, confThresh);
  }

  /** `ObjectDetector`: the label list, `DEFAULT_LABELS` unless one is given (object_detector.py:63). */
  class ObjectDetector {
    const labels: seq<string>

    /** `__init__` without the network loading. */
    constructor(labels: Option<seq<string>> := None)
      ensures this.labels == if labels.Some? then labels.value else DefaultLabels
    {
      this.labels := if labels.Some? then labels.value else DefaultLabels;
    }

    /** `detect_objects` as written (object_detector.py:91-128), on a `w` by `h` frame. */
    method DetectObjectsAsWritten(out: Output, w: int, h: int, confThresh: real := DefaultConfThresh, filterLabels: Option<seq<string>> := None) returns (outcome: Outcome)
      ensures outcome == DetectionsAsWritten(out, labels, filterLabels, w, h, confThresh)
      ensures |out.shape| == 4 ==> outcome == IndexError
      ensures |out.shape| != 4 ==> outcome == Returned([])
    {
      if |out.shape| != 4 {
        return Returned([]);
      }
      match ShapeAt(out.shape, 21)
      case None =>
        outcome := IndexError;
      case Some(fields) =>
        outcome := if fields < 7 then Returned([]) else Returned(Kept(out.rows, labels, filterLabels, w, h, confThresh));
    }

    /** `detect_objects` as evidently intended (object_detector.py:91-128), on a `w` by `h` frame. */
    method DetectObjects(out: Output, w: int, h: int, confThresh: real := DefaultConfThresh, filterLabels: Option<seq<string>> := None) returns (results: seq<Detection>)
      ensures results == Detections(out, labels, filterLabels, w, h, confThresh)
    {
      results := [];
      if |out.shape| != 4 || out.shape[3] < 7 {
        return;
      }
      var rows := out.rows;
      for i := 0 to |rows|
        invariant results == Kept(rows[..i], labels, filterLabels, w, h, confThresh)
      {
        assert rows[..i + 1][..i] == rows[..i];
        var row := rows[i];
        ghost var step := RowResult(row, labels, filterLabels, w, h, confThresh);
        assert Kept(rows[..i + 1], labels, filterLabels, w, h, confThresh) == results + (if step.Some? then [step.value] else []);
        if row.confidence < confThresh {
          continue;
        }
        if row.classId < 0 || row.classId >= |labels| {
          continue;
        }
        var labelName := labels[row.classId];
        if filterLabels.Some? && labelName !in filterLabels.value {
          continue;
        }
        var x1, y1 := Clamp(row.x1, w - 1), Clamp(row.y1, h - 1);
        var x2, y2 := Clamp(row.x2, w - 1), Clamp(row.y2, h - 1);
        if x2 <= x1 || y2 <= y1 {
          continue;
        }
        results := results + [Detection(Rect(x1, y1, x2, y2), labelName, row.confidence)];
      }
      assert rows[..|rows|] == rows;
    }

    /** `detect_only(frame, labels, conf_thresh)`: `detect_objects` with the label filter (object_detector.py:130-134). */
    method DetectOnly(out: Output, w: int, h: int, only: seq<string>, confThresh: real := DefaultConfThresh) returns (results: seq<Detection>)
      ensures results == Detections(out, labels, Some(only), w, h, confThresh)
      ensures forall d :: d in results ==> d.labelName in only
    {
      results := DetectObjects(out, w, h, confThresh, Some(only));
      if ShapeOk(out) {
        KeptAcceptable(out.rows, labels, Some(only), w, h, confThresh);
      }
    }
  }
}
