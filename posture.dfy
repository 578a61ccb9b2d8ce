/**
 * `posture_classifier.py`: the posture rule over six pose keypoints. A keypoint
 * counts only when its visibility exceeds the threshold; the rule compares the
 * vertical gaps between the mean shoulder, hip and knee heights (image `y` grows
 * downwards). Coordinates are exact reals.
 */
module Posture {
  import opened Common

  /** One pose landmark: normalised image coordinates and a visibility score. */
  datatype Landmark = Landmark(x: real, y: real, visibility: real)

  /** The indices of the six keypoints in the pose's landmark list. */
  const LeftShoulder: nat := 11
  const RightShoulder: nat := 12
  const LeftHip: nat := 23
  const RightHip: nat := 24
  const LeftKnee: nat := 25
  const RightKnee: nat := 26

  /** The six keypoints the rule reads (posture_classifier.py:15-22). */
  const Keypoints: seq<nat> := [LeftShoulder, RightShoulder, LeftHip, RightHip, LeftKnee, RightKnee]

  /** The default `visibility_threshold` of `classify`. */
  const DefaultVisibility: real := 0.5

  /** The five answers of `classify`. */
  const Labels: set<string> := {"Unknown", "Uncertain", "Lying", "Sitting", "Standing"}

  /** A pose list long enough to hold every keypoint index. */
  predicate CoversKeypoints(lms: seq<Landmark>)
  {
    |lms| > RightKnee
  }

  /** `get_point`: the point of a landmark seen clearly enough, `None` otherwise (posture_classifier.py:12-13). */
  function GetPoint(lm: Landmark, visibilityThreshold: real): (p: Option<(real, real)>)
    ensures p.Some? <==> lm.visibility > visibilityThreshold
    ensures p.Some? ==> p.value == (lm.x, lm.y)
  {
    if lm.visibility > visibilityThreshold then Some((lm.x, lm.y)) else None
  }

  /** Every one of the six keypoints has a point. */
  predicate AllVisible(lms: seq<Landmark>, visibilityThreshold: real)
    requires CoversKeypoints(lms)
  {
    forall k :: 0 <= k < |Keypoints| ==> GetPoint(lms[Keypoints[k]], visibilityThreshold).Some?
  }

  /** `np.mean` of two values. */
  function Mean(a: real, b: real): real
  {
    (a + b) / 2.0
  }

  /** The mean height of the shoulders, the hips and the knees (posture_classifier.py:27-29). */
  function ShouldersY(lms: seq<Landmark>): real
    requires CoversKeypoints(lms)
  {
    Mean(lms[LeftShoulder].y, lms[RightShoulder].y)
  }

  function HipsY(lms: seq<Landmark>): real
    requires CoversKeypoints(lms)
  {
    Mean(lms[LeftHip].y, lms[RightHip].y)
  }

  function KneesY(lms: seq<Landmark>): real
    requires CoversKeypoints(lms)
  {
    Mean(lms[LeftKnee].y, lms[RightKnee].y)
  }

  /** `shoulder_hip_dist`, `hip_knee_dist` and `total_height` (posture_classifier.py:31-33). */
  function ShoulderHip(lms: seq<Landmark>): real
    requires CoversKeypoints(lms)
  {
    HipsY(lms) - ShouldersY(lms)
  }

  function HipKnee(lms: seq<Landmark>): real
    requires CoversKeypoints(lms)
  {
    KneesY(lms) - HipsY(lms)
  }

  function TotalHeight(lms: seq<Landmark>): real
    requires CoversKeypoints(lms)
  {
    KneesY(lms) - ShouldersY(lms)
  }

  /** `classify(landmarks, visibility_threshold)` (posture_classifier.py:8-42); `None` is a frame without a pose. */
  function Classify(landmarks: Option<seq<Landmark>>, visibilityThreshold: real := DefaultVisibility): (r: string)
    requires landmarks.Some? ==> CoversKeypoints(landmarks.value)
    ensures r in Labels
  {
    if landmarks.None? then "Unknown"
    else
      var lms := landmarks.value;
      if !AllVisible(lms, visibilityThreshold) then "Uncertain"
      else if TotalHeight(lms) < 0.15 then "Lying"
      else if ShoulderHip(lms) < 0.1 && HipKnee(lms) > 0.1 then "Sitting"
      else if ShoulderHip(lms) > 0.1 && HipKnee(lms) > 0.1 then "Standing"
      else "Unknown"
  }

  /** Some keypoint is missing exactly when one of the six has visibility at most the threshold. */
  lemma AllVisibleExact(lms: seq<Landmark>, visibilityThreshold: real)
    requires CoversKeypoints(lms)
    ensures !AllVisible(lms, visibilityThreshold) <==>
      || lms[LeftShoulder].visibility <= visibilityThreshold
      || lms[RightShoulder].visibility <= visibilityThreshold
      || lms[LeftHip].visibility <= visibilityThreshold
      || lms[RightHip].visibility <= visibilityThreshold
      || lms[LeftKnee].visibility <= visibilityThreshold
      || lms[RightKnee].visibility <= visibilityThreshold
  {
    if !AllVisible(lms, visibilityThreshold) {
      var k :| 0 <= k < |Keypoints| && !GetPoint(lms[Keypoints[k]], visibilityThreshold).Some?;
      assert Keypoints[k] in Keypoints;
    } else {
      assert GetPoint(lms[Keypoints[0]], visibilityThreshold).Some? && GetPoint(lms[Keypoints[1]], visibilityThreshold).Some?;
      assert GetPoint(lms[Keypoints[2]], visibilityThreshold).Some? && GetPoint(lms[Keypoints[3]], visibilityThreshold).Some?;
      assert GetPoint(lms[Keypoints[4]], visibilityThreshold).Some? && GetPoint(lms[Keypoints[5]], visibilityThreshold).Some?;
    }
  }

  /** The whole height splits at the hips: `total_height` is the sum of the two gaps. */
  lemma HeightSplits(lms: seq<Landmark>)
    requires CoversKeypoints(lms)
    ensures TotalHeight(lms) == ShoulderHip(lms) + HipKnee(lms)
  {
  }

  /** A frame without a pose is `"Unknown"`. */
  lemma NoPoseUnknown(visibilityThreshold: real)
    ensures Classify(None, visibilityThreshold) == "Unknown"
  {
  }

  /** The answer for a pose, label by label: each holds exactly under its rule and the rules before it failing. */
  lemma ClassifyExact(lms: seq<Landmark>, visibilityThreshold: real)
    requires CoversKeypoints(lms)
    ensures Classify(Some(lms), visibilityThreshold) == "Uncertain" <==> !AllVisible(lms, visibilityThreshold)
    ensures Classify(Some(lms), visibilityThreshold) == "Lying" <==>
      AllVisible(lms, visibilityThreshold) && TotalHeight(lms) < 0.15
    ensures Classify(Some(lms), visibilityThreshold) == "Sitting" <==>
      && AllVisible(lms, visibilityThreshold) && TotalHeight(lms) >= 0.15
      && ShoulderHip(lms) < 0.1 && HipKnee(lms) > 0.1
    ensures Classify(Some(lms), visibilityThreshold) == "Standing" <==>
      && AllVisible(lms, visibilityThreshold) && TotalHeight(lms) >= 0.15
      && ShoulderHip(lms) > 0.1 && HipKnee(lms) > 0.1
    ensures Classify(Some(lms), visibilityThreshold) == "Unknown" <==>
      && AllVisible(lms, visibilityThreshold) && TotalHeight(lms) >= 0.15
      && (ShoulderHip(lms) == 0.1 || HipKnee(lms) <= 0.1)
  {
    HeightSplits(lms);
  }

  /**
   * A standing pose is taller than 0.2 (both gaps exceed 0.1) and a sitting one has
   * its knees well below its hips; a pose whose knees are at most 0.1 below its hips
   * is never sitting or standing.
   */
  lemma PostureHeights(lms: seq<Landmark>, visibilityThreshold: real)
    requires CoversKeypoints(lms)
    ensures Classify(Some(lms), visibilityThreshold) == "Standing" ==> TotalHeight(lms) > 0.2
    ensures Classify(Some(lms), visibilityThreshold) == "Sitting" ==> KneesY(lms) > HipsY(lms) + 0.1
    ensures HipKnee(lms) <= 0.1 ==> Classify(Some(lms), visibilityThreshold) !in {"Sitting", "Standing"}
  {
    ClassifyExact(lms, visibilityThreshold);
    HeightSplits(lms);
  }

  /** Only the heights and visibilities of the six keypoints matter: the `x` coordinates and other landmarks never do. */
  lemma ClassifyReadsKeypointHeights(a: seq<Landmark>, b: seq<Landmark>, visibilityThreshold: real)
    requires CoversKeypoints(a) && CoversKeypoints(b)
    requires forall k :: 0 <= k < |Keypoints| ==>
      a[Keypoints[k]].y == b[Keypoints[k]].y && a[Keypoints[k]].visibility == b[Keypoints[k]].visibility
    ensures Classify(Some(a), visibilityThreshold) == Classify(Some(b), visibilityThreshold)
  {
    assert AllVisible(a, visibilityThreshold) == AllVisible(b, visibilityThreshold);
    assert Keypoints[0] == LeftShoulder && Keypoints[1] == RightShoulder && Keypoints[2] == LeftHip;
    assert Keypoints[3] == RightHip && Keypoints[4] == LeftKnee && Keypoints[5] == RightKnee;
  }
}
