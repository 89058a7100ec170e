/** Wrist keypoints (`pose_estimation.py`): from the body landmarks that
    the pose model reports for a frame, only the two wrists are kept, each
    only when the model is confident enough about it.  The pose model
    itself is abstracted to its optional landmark list per frame. */
module PoseEstimation {
  import opened Common

  /** A wrist is recorded only above this visibility. */
  const VisibilityThreshold: real := 0.5

  /** The positions of the wrists in the pose model's landmark list. */
  const LeftWristLandmark: nat := 15
  const RightWristLandmark: nat := 16

  /** One body landmark: normalised image position and visibility. */
  datatype Landmark = Landmark(x: real, y: real, visibility: real)

  /** The two keys the landmark loop fills. */
  datatype Wrist = LeftWrist | RightWrist

  /** The keypoints of one frame: both wrists and `confidence`, whose slot
      0 is the left and slot 1 the right visibility. */
  datatype Keypoints = Keypoints(leftWrist: Point2, rightWrist: Point2, confidence: seq<real>)

  /** What nothing detected looks like: `[None, None]` twice, `[0.0, 0.0]`. */
  const EmptyKeypoints: Keypoints := Keypoints(NoPoint, NoPoint, [0.0, 0.0])

  /** A landmark list the loop can index: the pose model always reports
      the full body, which includes both wrists. */
  predicate HasWrists(landmarks: Option<seq<Landmark>>)
  {
    landmarks.Some? ==> |landmarks.value| > RightWristLandmark
  }

  /** What one wrist landmark contributes: its position and visibility when
      it is visible enough, nothing (and a zero confidence) otherwise. */
  function WristPoint(l: Landmark): (p: Point2)
    ensures p.Complete() <==> l.visibility > VisibilityThreshold
    ensures p.Complete() ==> p == Point2(Some(l.x), Some(l.y))
    ensures !p.Complete() ==> p == NoPoint
  {
    if l.visibility > VisibilityThreshold then Point2(Some(l.x), Some(l.y)) else NoPoint
  }

  function WristConfidence(l: Landmark): (c: real)
    ensures l.visibility > VisibilityThreshold ==> c == l.visibility
    ensures l.visibility <= VisibilityThreshold ==> c == 0.0
  {
    if l.visibility > VisibilityThreshold then l.visibility else 0.0
  }

  /** The keypoints of a frame, defined side by side. */
  function HandKeypoints(landmarks: Option<seq<Landmark>>): (k: Keypoints)
    requires HasWrists(landmarks)
    ensures |k.confidence| == 2
  {
    if landmarks.None? then EmptyKeypoints
    else
      var left, right := landmarks.value[LeftWristLandmark], landmarks.value[RightWristLandmark];
      Keypoints(WristPoint(left), WristPoint(right), [WristConfidence(left), WristConfidence(right)])
  }

  /** `extract_hand_keypoints_from_frame`: start from the empty keypoints
      and visit the left and then the right wrist, overwriting a side only
      when its landmark is visible enough. */
  method ExtractHandKeypointsFromFrame(landmarks: Option<seq<Landmark>>) returns (keypoints: Keypoints)
    requires HasWrists(landmarks)
    ensures keypoints == HandKeypoints(landmarks)
  {
    keypoints := EmptyKeypoints;
    if landmarks.Some? {
      var targets := [(LeftWristLandmark, LeftWrist), (RightWristLandmark, RightWrist)];
      var lms := landmarks.value;
      var left, right := lms[LeftWristLandmark], lms[RightWristLandmark];
      for t := 0 to 2
        invariant |keypoints.confidence| == 2
        invariant keypoints.leftWrist == (if t >= 1 then WristPoint(left) else NoPoint)
        invariant keypoints.confidence[0] == (if t >= 1 then WristConfidence(left) else 0.0)
        invariant keypoints.rightWrist == (if t >= 2 then WristPoint(right) else NoPoint)
        invariant keypoints.confidence[1] == (if t >= 2 then WristConfidence(right) else 0.0)
      {
        var (idx, name) := targets[t];
        var landmark := lms[idx];
        if landmark.visibility > VisibilityThreshold {
          var point := Point2(Some(landmark.x), Some(landmark.y));
          if name == LeftWrist {
            keypoints := keypoints.(leftWrist := point);
          } else {
            keypoints := keypoints.(rightWrist := point);
          }
          var slot := if name == LeftWrist then 0 else 1;
          keypoints := keypoints.(confidence := keypoints.confidence[slot := landmark.visibility]);
        }
      }
      assert keypoints.confidence == [WristConfidence(left), WristConfidence(right)];
    }
  }

  /** With no landmarks both wrists are `[None, None]` with confidence 0. */
  lemma NoLandmarksNoWrists()
    ensures HandKeypoints(None) == Keypoints(NoPoint, NoPoint, [0.0, 0.0])
    ensures !HandKeypoints(None).leftWrist.Complete() && !HandKeypoints(None).rightWrist.Complete()
  {
  }

  /** The left side (its wrist and confidence slot 0) depends only on
      landmark 15, the right side only on landmark 16: two landmark lists
      that agree there give the same side, whatever else they hold. */
  lemma WristSidesAreLocal(a: seq<Landmark>, b: seq<Landmark>)
    requires |a| > RightWristLandmark && |b| > RightWristLandmark
    ensures a[LeftWristLandmark] == b[LeftWristLandmark] ==>
      HandKeypoints(Some(a)).leftWrist == HandKeypoints(Some(b)).leftWrist &&
      HandKeypoints(Some(a)).confidence[0] == HandKeypoints(Some(b)).confidence[0]
    ensures a[RightWristLandmark] == b[RightWristLandmark] ==>
      HandKeypoints(Some(a)).rightWrist == HandKeypoints(Some(b)).rightWrist &&
      HandKeypoints(Some(a)).confidence[1] == HandKeypoints(Some(b)).confidence[1]
  {
  }

  /** A wrist is filled with `[x, y]` exactly when its landmark's
      visibility is strictly above 0.5, and its confidence slot then holds
      that visibility; at 0.5 or below it stays empty with confidence 0. */
  lemma WristVisibilityRule(lms: seq<Landmark>)
    requires |lms| > RightWristLandmark
    ensures var k, l, r := HandKeypoints(Some(lms)), lms[LeftWristLandmark], lms[RightWristLandmark];
      (k.leftWrist.Complete() <==> l.visibility > 0.5) &&
      (k.rightWrist.Complete() <==> r.visibility > 0.5) &&
      (l.visibility > 0.5 ==> k.leftWrist == Point2(Some(l.x), Some(l.y)) && k.confidence[0] == l.visibility) &&
      (r.visibility > 0.5 ==> k.rightWrist == Point2(Some(r.x), Some(r.y)) && k.confidence[1] == r.visibility) &&
      (l.visibility <= 0.5 ==> k.leftWrist == NoPoint && k.confidence[0] == 0.0) &&
      (r.visibility <= 0.5 ==> k.rightWrist == NoPoint && k.confidence[1] == 0.0)
  {
  }

  /** One record of the pose stream for frame `frameIndex`. */
  function Record(frameIndex: int, k: Keypoints): (r: PoseRecord)
    ensures r.frameIndex == frameIndex && r.leftWrist == k.leftWrist && r.rightWrist == k.rightWrist
    ensures r.confidence == k.confidence
  {
    PoseRecord(frameIndex, k.leftWrist, k.rightWrist, k.confidence)
  }

  /** `process_video`: one record per decoded frame, numbered from 0; a
      video that does not open gives no records. */
  method ProcessVideo(isOpened: bool, frames: seq<Option<seq<Landmark>>>) returns (frameData: seq<PoseRecord>)
    requires forall i :: 0 <= i < |frames| ==> HasWrists(frames[i])
    ensures isOpened ==> |frameData| == |frames|
    ensures !isOpened ==> frameData == []
    ensures forall i :: 0 <= i < |frameData| ==>
      frameData[i] == Record(i, HandKeypoints(frames[i]))
  {
    frameData := [];
    if !isOpened {
      return;
    }
    var frameIdx := 0;
    while frameIdx < |frames|
      invariant 0 <= frameIdx <= |frames|
      invariant |frameData| == frameIdx
      invariant forall i :: 0 <= i < frameIdx ==> frameData[i] == Record(i, HandKeypoints(frames[i]))
    {
      var keypoints := ExtractHandKeypointsFromFrame(frames[frameIdx]);
      frameData := frameData + [Record(frameIdx, keypoints)];
      frameIdx := frameIdx + 1;
    }
  }
}
