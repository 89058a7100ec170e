/** The per-frame fusion of one video's pose stream and detection stream
    into feature rows (`extract_features`), its two geometric helpers
    (`calculate_distance`, `calculate_velocity`) and the concatenation of
    the per-video tables over all label entries (`main`).

    The Euclidean norm of `np.linalg.norm` is the parameter `norm`, applied
    to the difference vector of two points; nothing here depends on its
    numeric value. */
module FeatureExtraction {
  import opened Common

  /** Frames per second of the processed streams. */
  const ProcessedFps: int := 10
  /** Resolution assumed for a video absent from the resolution table. */
  const DefaultWidth: int := 1280
  const DefaultHeight: int := 720
  /** Smallest `best_box` confidence that is used. */
  const BoxConfidenceThreshold: real := 0.5

  type Norm = (real, real) -> real

  /** The keys of a `best_box` record that the fusion reads; a missing key
      is `None`. `center` is the box centre in pixels. */
  datatype BestBox = BestBox(confidence: Option<real>, center: Option<(real, real)>)

  /** One element of the detection stream: its optional `best_box`. */
  datatype BoxFrame = BoxFrame(bestBox: Option<BestBox>)

  /** One output row, column for column; a `None` is a missing value. */
  datatype FeatureRow = FeatureRow(
    videoName: string,
    frameIndex: int,
    timestamp: real,
    isMoving: int,
    leftWristX: Option<real>, leftWristY: Option<real>,
    rightWristX: Option<real>, rightWristY: Option<real>,
    boxCenterX: Option<real>, boxCenterY: Option<real>,
    boxVelocity: Option<real>,
    avgHandBoxDistance: Option<real>,
    wristDistance: Option<real>)

  /** `calculate_distance`: missing when either list is absent or holds a
      null; otherwise the norm of their difference. */
  function Distance(norm: Norm, p: Option<Point2>, q: Option<Point2>): (d: Option<real>)
    ensures d.Some? <==> p.Some? && q.Some? && p.value.Complete() && q.value.Complete()
    ensures d.Some? ==> d.value == norm(p.value.x.value - q.value.x.value, p.value.y.value - q.value.y.value)
  {
    if p.None? || q.None? || !p.value.Complete() || !q.value.Complete() then None
    else Some(norm(p.value.x.value - q.value.x.value, p.value.y.value - q.value.y.value))
  }

  /** For a norm that does not depend on the sign of the difference, the
      distance is symmetric. */
  lemma DistanceSymmetric(norm: Norm, p: Option<Point2>, q: Option<Point2>)
    requires forall dx: real, dy: real :: norm(-dx, -dy) == norm(dx, dy)
    ensures Distance(norm, p, q) == Distance(norm, q, p)
  {
    if Distance(norm, p, q).Some? {
      var dx, dy := p.value.x.value - q.value.x.value, p.value.y.value - q.value.y.value;
      assert norm(-dx, -dy) == norm(dx, dy);
      assert -dx == q.value.x.value - p.value.x.value && -dy == q.value.y.value - p.value.y.value;
    }
  }

  /** `calculate_velocity`: its own guard adds nothing to that of the
      distance, so it is the distance of the two centres. */
  function Velocity(norm: Norm, current: Option<Point2>, previous: Option<Point2>): (v: Option<real>)
    ensures v == Distance(norm, current, previous)
  {
    if current.Some? && previous.Some? then Distance(norm, current, previous) else None
  }

  /** The average hand-box distance: the mean when both sides are known,
      the known side when only one is, missing when neither is. */
  function AverageHandBox(left: Option<real>, right: Option<real>): (a: Option<real>)
    ensures a.Some? <==> left.Some? || right.Some?
    ensures left.Some? && right.Some? ==> a.value == (left.value + right.value) / 2.0
    ensures left.Some? && right.None? ==> a == left
    ensures left.None? && right.Some? ==> a == right
    ensures a.Some? && left.Some? && right.Some? ==>
      (left.value <= a.value <= right.value) || (right.value <= a.value <= left.value)
  {
    if left.Some? && right.Some? then Some((left.value + right.value) / 2.0)
    else if left.Some? then left
    else right
  }

  /** `resolutions.get(video_name, (1280, 720))`. */
  function ResolutionOf(resolutions: map<string, (int, int)>, videoName: string): (wh: (int, int))
    ensures videoName in resolutions ==> wh == resolutions[videoName]
    ensures videoName !in resolutions ==> wh == (DefaultWidth, DefaultHeight)
  {
    if videoName in resolutions then resolutions[videoName] else (DefaultWidth, DefaultHeight)
  }

  /** The division by the resolution is defined. */
  predicate UsableResolution(wh: (int, int)) { wh.0 != 0 && wh.1 != 0 }

  /** `best_box.get("confidence", 0)`. */
  function ConfidenceOrZero(b: BestBox): real
  {
    if b.confidence.Some? then b.confidence.value else 0.0
  }

  /** The frame's pixel centre when its `best_box` is present and confident
      enough; frames beyond the detection stream have none. */
  function AcceptedCenter(boxes: seq<BoxFrame>, i: nat): (c: Option<(real, real)>)
    ensures c.Some? <==>
      i < |boxes| && boxes[i].bestBox.Some? &&
      ConfidenceOrZero(boxes[i].bestBox.value) >= BoxConfidenceThreshold &&
      boxes[i].bestBox.value.center.Some?
    ensures c.Some? ==> c == boxes[i].bestBox.value.center
  {
    var frame := if i < |boxes| then boxes[i] else BoxFrame(None);
    if frame.bestBox.Some? && ConfidenceOrZero(frame.bestBox.value) >= BoxConfidenceThreshold
    then frame.bestBox.value.center
    else None
  }

  /** The normalised box centre `[cx, cy]` of frame `i`, `[None, None]`
      when the frame has no accepted box. */
  function CenterAt(boxes: seq<BoxFrame>, wh: (int, int), i: nat): Point2
    requires UsableResolution(wh)
  {
    var c := AcceptedCenter(boxes, i);
    if c.Some? then Point2(Some(c.value.0 / wh.0 as real), Some(c.value.1 / wh.1 as real))
    else NoPoint
  }

  /** `prev_box_center` on entry to iteration `i`: the centre of frame
      `i - 1` when it had a box, otherwise missing. */
  function PreviousCenter(boxes: seq<BoxFrame>, wh: (int, int), i: nat): Option<Point2>
    requires UsableResolution(wh)
  {
    if i == 0 then None
    else
      var c := CenterAt(boxes, wh, i - 1);
      if c.x.Some? then Some(c) else None
  }

  /** The two wrists of frame `i`, `[None, None]` beyond the pose stream. */
  function WristsAt(pose: seq<PoseRecord>, i: nat): (Point2, Point2)
  {
    if i < |pose| then (pose[i].leftWrist, pose[i].rightWrist) else (NoPoint, NoPoint)
  }

  /** The label value of frame `i` for an inclusive frame window. */
  function MovingFlag(startFrame: int, endFrame: int, i: int): int
  {
    if startFrame <= i <= endFrame then 1 else 0
  }

  /** The `int(second * 10)` window of a label whose seconds are present. */
  function ActionWindow(entry: LabelEntry): (int, int)
    requires entry.actionStart.Some? && entry.actionEnd.Some?
  {
    (Trunc(entry.actionStart.value * ProcessedFps as real), Trunc(entry.actionEnd.value * ProcessedFps as real))
  }

  /** The row that iteration `i` of the fusion loop appends. */
  function RowAt(norm: Norm, videoName: string, window: (int, int), pose: seq<PoseRecord>,
                 boxes: seq<BoxFrame>, wh: (int, int), i: nat): FeatureRow
    requires UsableResolution(wh)
  {
    var (lw, rw) := WristsAt(pose, i);
    var center := CenterAt(boxes, wh, i);
    var boxPoint := if center.x.Some? then Some(center) else None;
    FeatureRow(
      videoName, i, i as real / ProcessedFps as real, MovingFlag(window.0, window.1, i),
      lw.x, lw.y, rw.x, rw.y,
      center.x, center.y,
      Velocity(norm, Some(center), PreviousCenter(boxes, wh, i)),
      AverageHandBox(Distance(norm, Some(lw), boxPoint), Distance(norm, Some(rw), boxPoint)),
      Distance(norm, Some(lw), Some(rw)))
  }

  /** The whole table of one video: one row per index below the longer
      stream's length. */
  function FeatureTable(norm: Norm, videoName: string, entry: LabelEntry, pose: seq<PoseRecord>,
                        boxes: seq<BoxFrame>, resolutions: map<string, (int, int)>): (rows: seq<FeatureRow>)
    requires entry.actionStart.Some? && entry.actionEnd.Some?
    requires UsableResolution(ResolutionOf(resolutions, videoName))
    ensures |rows| == Max(|pose|, |boxes|)
    ensures forall i :: 0 <= i < |rows| ==>
      rows[i].videoName == videoName && rows[i].frameIndex == i && rows[i].timestamp == i as real / 10.0
    ensures forall i :: 0 <= i < |rows| ==>
      (rows[i].isMoving == 1 <==> ActionWindow(entry).0 <= i <= ActionWindow(entry).1) &&
      (rows[i].isMoving == 0 <==> !(ActionWindow(entry).0 <= i <= ActionWindow(entry).1))
  {
    var wh := ResolutionOf(resolutions, videoName);
    seq(Max(|pose|, |boxes|), i requires 0 <= i => RowAt(norm, videoName, ActionWindow(entry), pose, boxes, wh, i))
  }

  /** `extract_features`: walks the frame indices, carrying the previous
      box centre from one iteration to the next, and fills each row. */
  method ExtractFeatures(norm: Norm, videoName: string, entry: LabelEntry, pose: seq<PoseRecord>,
                         boxes: seq<BoxFrame>, resolutions: map<string, (int, int)>)
    returns (rows: seq<FeatureRow>)
    requires entry.actionStart.Some? && entry.actionEnd.Some?
    requires UsableResolution(ResolutionOf(resolutions, videoName))
    ensures rows == FeatureTable(norm, videoName, entry, pose, boxes, resolutions)
  {
    var (frameWidth, frameHeight) := ResolutionOf(resolutions, videoName);
    ghost var wh := (frameWidth, frameHeight);
    var actionStartFrame := Trunc(entry.actionStart.value * ProcessedFps as real);
    var actionEndFrame := Trunc(entry.actionEnd.value * ProcessedFps as real);
    rows := [];
    var prevBoxCenter: Option<Point2> := None;
    var totalFrames := Max(|pose|, |boxes|);
    for i := 0 to totalFrames
      invariant |rows| == i
      invariant forall k :: 0 <= k < i ==>
        rows[k] == RowAt(norm, videoName, (actionStartFrame, actionEndFrame), pose, boxes, wh, k)
      invariant prevBoxCenter == PreviousCenter(boxes, wh, i)
    {
      var isMoving := if actionStartFrame <= i <= actionEndFrame then 1 else 0;
      // Hand positions
      var lw := if i < |pose| then pose[i].leftWrist else NoPoint;
      var rw := if i < |pose| then pose[i].rightWrist else NoPoint;
      // Box detection from best_box
      var boxFrame := if i < |boxes| then boxes[i] else BoxFrame(None);
      var center: Option<(real, real)>;
      if boxFrame.bestBox.Some? && ConfidenceOrZero(boxFrame.bestBox.value) >= BoxConfidenceThreshold {
        center := boxFrame.bestBox.value.center;
      } else {
        center := None;
      }
      var cx: Option<real>, cy: Option<real>;
      if center.Some? {
        cx := Some(center.value.0 / frameWidth as real);
        cy := Some(center.value.1 / frameHeight as real);
      } else {
        cx, cy := None, None;
      }
      assert (lw, rw) == WristsAt(pose, i) && Point2(cx, cy) == CenterAt(boxes, wh, i);
      // Features
      var boxVelocity := Velocity(norm, Some(Point2(cx, cy)), prevBoxCenter);
      var lwDist := if cx.Some? then Distance(norm, Some(lw), Some(Point2(cx, cy))) else None;
      var rwDist := if cx.Some? then Distance(norm, Some(rw), Some(Point2(cx, cy))) else None;
      var avgHandBoxDist := AverageHandBox(lwDist, rwDist);
      var wristDist := Distance(norm, Some(lw), Some(rw));
      var row := FeatureRow(videoName, i, i as real / ProcessedFps as real, isMoving,
                            lw.x, lw.y, rw.x, rw.y, cx, cy,
                            boxVelocity, avgHandBoxDist, wristDist);
      assert row == RowAt(norm, videoName, (actionStartFrame, actionEndFrame), pose, boxes, wh, i);
      prevBoxCenter := if cx.Some? then Some(Point2(cx, cy)) else None;
      rows := rows + [row];
    }
  }

  /** With non-negative label seconds, frame `i` is moving exactly when its
      tenth of a second `[i/10, (i+1)/10)` starts no later than the end
      second and ends after the start second. */
  lemma MovingMeansOverlap(norm: Norm, videoName: string, entry: LabelEntry, pose: seq<PoseRecord>,
                           boxes: seq<BoxFrame>, resolutions: map<string, (int, int)>, i: nat)
    requires entry.actionStart.Some? && entry.actionEnd.Some?
    requires entry.actionStart.value >= 0.0 && entry.actionEnd.value >= 0.0
    requires UsableResolution(ResolutionOf(resolutions, videoName))
    requires i < Max(|pose|, |boxes|)
    ensures FeatureTable(norm, videoName, entry, pose, boxes, resolutions)[i].isMoving == 1 <==>
      entry.actionStart.value < (i + 1) as real / 10.0 && i as real / 10.0 <= entry.actionEnd.value
  {
    var s, e := entry.actionStart.value * 10.0, entry.actionEnd.value * 10.0;
    assert Trunc(s) <= i <==> s < (i + 1) as real;
    assert i <= Trunc(e) <==> i as real <= e;
  }

  /** Frames beyond the pose stream have no wrists, so no wrist distance
      and no hand-box distance; they are never read out of range. */
  lemma BeyondPoseStream(norm: Norm, videoName: string, entry: LabelEntry, pose: seq<PoseRecord>,
                         boxes: seq<BoxFrame>, resolutions: map<string, (int, int)>, i: nat)
    requires entry.actionStart.Some? && entry.actionEnd.Some?
    requires UsableResolution(ResolutionOf(resolutions, videoName))
    requires |pose| <= i < |boxes|
    ensures var r := FeatureTable(norm, videoName, entry, pose, boxes, resolutions)[i];
      r.leftWristX.None? && r.leftWristY.None? && r.rightWristX.None? && r.rightWristY.None? &&
      r.wristDistance.None? && r.avgHandBoxDistance.None?
  {
  }

  /** Frames beyond the detection stream, and frames whose best box is
      absent, unconfident or without centre, have no box centre. When the
      centre is present it is the pixel centre divided by the resolution
      (1280x720 for a video missing from the table). */
  lemma BoxCenterRule(norm: Norm, videoName: string, entry: LabelEntry, pose: seq<PoseRecord>,
                      boxes: seq<BoxFrame>, resolutions: map<string, (int, int)>, i: nat)
    requires entry.actionStart.Some? && entry.actionEnd.Some?
    requires UsableResolution(ResolutionOf(resolutions, videoName))
    requires i < Max(|pose|, |boxes|)
    ensures var r := FeatureTable(norm, videoName, entry, pose, boxes, resolutions)[i];
      (r.boxCenterX.Some? <==>
         i < |boxes| && boxes[i].bestBox.Some? && ConfidenceOrZero(boxes[i].bestBox.value) >= 0.5 &&
         boxes[i].bestBox.value.center.Some?) &&
      r.boxCenterY.Some? == r.boxCenterX.Some? &&
      (r.boxCenterX.Some? ==>
         var (w, h) := if videoName in resolutions then resolutions[videoName] else (1280, 720);
         var c := boxes[i].bestBox.value.center.value;
         r.boxCenterX.value == c.0 / w as real && r.boxCenterY.value == c.1 / h as real)
  {
  }

  /** Within the pose stream, row `i` copies frame `i`'s wrist coordinates,
      and its wrist distance is missing exactly when a wrist coordinate is
      null, and is otherwise the norm of the difference of the two wrists. */
  lemma WristColumns(norm: Norm, videoName: string, entry: LabelEntry, pose: seq<PoseRecord>,
                     boxes: seq<BoxFrame>, resolutions: map<string, (int, int)>, i: nat)
    requires entry.actionStart.Some? && entry.actionEnd.Some?
    requires UsableResolution(ResolutionOf(resolutions, videoName))
    requires i < |pose|
    ensures var r := FeatureTable(norm, videoName, entry, pose, boxes, resolutions)[i];
      var lw, rw := pose[i].leftWrist, pose[i].rightWrist;
      r.leftWristX == lw.x && r.leftWristY == lw.y &&
      r.rightWristX == rw.x && r.rightWristY == rw.y &&
      (r.wristDistance.Some? <==> lw.Complete() && rw.Complete()) &&
      (r.wristDistance.Some? ==>
         r.wristDistance.value == norm(lw.x.value - rw.x.value, lw.y.value - rw.y.value))
  {
  }

  /** A frame without a box centre has neither a velocity nor a hand-box
      distance; with one, the hand-box distance follows the four cases of
      the per-side distances. */
  lemma HandBoxDistanceCases(norm: Norm, videoName: string, entry: LabelEntry, pose: seq<PoseRecord>,
                             boxes: seq<BoxFrame>, resolutions: map<string, (int, int)>, i: nat)
    requires entry.actionStart.Some? && entry.actionEnd.Some?
    requires UsableResolution(ResolutionOf(resolutions, videoName))
    requires i < Max(|pose|, |boxes|)
    ensures var r := FeatureTable(norm, videoName, entry, pose, boxes, resolutions)[i];
      var box := Some(Point2(r.boxCenterX, r.boxCenterY));
      var left := if r.boxCenterX.Some? then Distance(norm, Some(Point2(r.leftWristX, r.leftWristY)), box) else None;
      var right := if r.boxCenterX.Some? then Distance(norm, Some(Point2(r.rightWristX, r.rightWristY)), box) else None;
      (r.boxCenterX.None? ==> r.boxVelocity.None? && r.avgHandBoxDistance.None?) &&
      (left.Some? && right.Some? ==> r.avgHandBoxDistance == Some((left.value + right.value) / 2.0)) &&
      (left.Some? && right.None? ==> r.avgHandBoxDistance == left) &&
      (left.None? && right.Some? ==> r.avgHandBoxDistance == right) &&
      (left.None? && right.None? ==> r.avgHandBoxDistance.None?)
  {
    var wh := ResolutionOf(resolutions, videoName);
    var c := CenterAt(boxes, wh, i);
    assert c.x.Some? <==> c.y.Some?;
  }

  /** The velocity of row `i` is the distance between its own box centre
      and the previous row's, and is missing on the first row, on a row
      without a box and on a row whose predecessor had none. */
  lemma VelocityFromPreviousRow(norm: Norm, videoName: string, entry: LabelEntry, pose: seq<PoseRecord>,
                                boxes: seq<BoxFrame>, resolutions: map<string, (int, int)>, i: nat)
    requires entry.actionStart.Some? && entry.actionEnd.Some?
    requires UsableResolution(ResolutionOf(resolutions, videoName))
    requires i < Max(|pose|, |boxes|)
    ensures var rows := FeatureTable(norm, videoName, entry, pose, boxes, resolutions);
      (rows[i].boxVelocity.Some? <==>
         i > 0 && rows[i].boxCenterX.Some? && rows[i - 1].boxCenterX.Some?) &&
      (rows[i].boxVelocity.Some? ==>
         rows[i].boxVelocity.value ==
           norm(rows[i].boxCenterX.value - rows[i - 1].boxCenterX.value,
                rows[i].boxCenterY.value - rows[i - 1].boxCenterY.value))
  {
    var wh := ResolutionOf(resolutions, videoName);
    var c := CenterAt(boxes, wh, i);
    assert c.x.Some? <==> c.y.Some?;
    if i > 0 {
      var p := CenterAt(boxes, wh, i - 1);
      assert p.x.Some? <==> p.y.Some?;
    }
  }

  /** One label entry together with the streams read for its video. */
  datatype VideoInput = VideoInput(entry: LabelEntry, pose: seq<PoseRecord>, boxes: seq<BoxFrame>)

  /** `main` reads both seconds of every entry (a missing one raises) and
      divides by the resolution of the entry's video. */
  predicate Extractable(resolutions: map<string, (int, int)>, v: VideoInput)
  {
    v.entry.actionStart.Some? && v.entry.actionEnd.Some? &&
    UsableResolution(ResolutionOf(resolutions, Stem(v.entry.video)))
  }

  /** The concatenation of the per-video tables, in label order. */
  function AllFeatures(norm: Norm, resolutions: map<string, (int, int)>, videos: seq<VideoInput>): seq<FeatureRow>
    requires forall k :: 0 <= k < |videos| ==> Extractable(resolutions, videos[k])
    decreases |videos|
  {
    if videos == [] then []
    else
      var v := videos[|videos| - 1];
      assert Extractable(resolutions, v);
      assert forall k :: 0 <= k < |videos| - 1 ==> videos[..|videos| - 1][k] == videos[k];
      AllFeatures(norm, resolutions, videos[..|videos| - 1]) +
      FeatureTable(norm, Stem(v.entry.video), v.entry, v.pose, v.boxes, resolutions)
  }

  /** The total number of rows: the longer stream of each video. */
  function TotalFrames(videos: seq<VideoInput>): nat
    decreases |videos|
  {
    if videos == [] then 0
    else TotalFrames(videos[..|videos| - 1]) + Max(|videos[|videos| - 1].pose|, |videos[|videos| - 1].boxes|)
  }

  /** `main` without its final `pd.concat` (see `ConcatenatedTable`): one
      table per label entry, appended in order. */
  method ExtractAllFeatures(norm: Norm, resolutions: map<string, (int, int)>, videos: seq<VideoInput>)
    returns (table: seq<FeatureRow>)
    requires forall k :: 0 <= k < |videos| ==> Extractable(resolutions, videos[k])
    ensures table == AllFeatures(norm, resolutions, videos)
  {
    table := [];
    for k := 0 to |videos|
      invariant table == AllFeatures(norm, resolutions, videos[..k])
    {
      var v := videos[k];
      var df := ExtractFeatures(norm, Stem(v.entry.video), v.entry, v.pose, v.boxes, resolutions);
      assert videos[..k + 1][..k] == videos[..k];
      table := table + df;
    }
    assert videos[..|videos|] == videos;
  }

  /** The concatenated table has one row per frame of every video, and
      every row is named after the stem of some entry's video. */
  lemma {:induction false} AllFeaturesShape(norm: Norm, resolutions: map<string, (int, int)>, videos: seq<VideoInput>)
    requires forall k :: 0 <= k < |videos| ==> Extractable(resolutions, videos[k])
    ensures |AllFeatures(norm, resolutions, videos)| == TotalFrames(videos)
    ensures forall r :: r in AllFeatures(norm, resolutions, videos) ==>
      exists k :: 0 <= k < |videos| && r.videoName == Stem(videos[k].entry.video)
    decreases |videos|
  {
    if videos != [] {
      var front := videos[..|videos| - 1];
      var v := videos[|videos| - 1];
      AllFeaturesShape(norm, resolutions, front);
      var t := FeatureTable(norm, Stem(v.entry.video), v.entry, v.pose, v.boxes, resolutions);
      forall r | r in AllFeatures(norm, resolutions, videos)
        ensures exists k :: 0 <= k < |videos| && r.videoName == Stem(videos[k].entry.video)
      {
        if r in AllFeatures(norm, resolutions, front) {
          var k :| 0 <= k < |front| && r.videoName == Stem(front[k].entry.video);
          assert front[k] == videos[k];
        } else {
          assert r in t;
          assert r.videoName == Stem(videos[|videos| - 1].entry.video);
        }
      }
    }
  }

  /** `pd.concat(all_dfs)` as written: it raises when there is no table to
      concatenate, so an empty entry list fails instead of giving an empty
      table. */
  function ConcatenatedTable(norm: Norm, resolutions: map<string, (int, int)>, videos: seq<VideoInput>): (t: Option<seq<FeatureRow>>)
    requires forall k :: 0 <= k < |videos| ==> Extractable(resolutions, videos[k])
    ensures t.None? <==> videos == []
    ensures t.Some? ==> t.value == AllFeatures(norm, resolutions, videos)
  {
    if videos == [] then None else Some(AllFeatures(norm, resolutions, videos))
  }

  /** The failing input: no label entries at all. */
  lemma EmptyLabelsFailConcat(norm: Norm, resolutions: map<string, (int, int)>)
    ensures ConcatenatedTable(norm, resolutions, []).None?
    ensures AllFeatures(norm, resolutions, []) == []
  {
  }
}
