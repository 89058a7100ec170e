/** Box detection (`object_detection.py`): the detector's candidates are
    read frame by frame and only confident "box" or "package" candidates
    become detection records, each tagged with the number of the frame it
    came from.  The detector is abstracted to its list of candidates per
    frame, in its own order. */
module ObjectDetection {
  import opened Common

  /** Candidates below this confidence are dropped. */
  const ConfidenceThreshold: real := 0.5

  /** The labels that are kept, compared after lower-casing. */
  const TargetLabels: seq<string> := ["box", "package"]

  /** One detector candidate: its class name, its confidence and its
      corner coordinates `xyxy`. */
  datatype Candidate = Candidate(className: string, conf: real, x1: real, y1: real, x2: real, y2: real)

  /** One output record: `frame`, `label` (the class name), `confidence`,
      `bbox`. */
  datatype Detection = Detection(frame: int, className: string, confidence: real, bbox: seq<int>)

  function LowerChar(c: char): (l: char)
    ensures 'A' <= c <= 'Z' ==> 'a' <= l <= 'z' && l as int == c as int + 32
    ensures !('A' <= c <= 'Z') ==> l == c
  {
    if 'A' <= c <= 'Z' then (c as int + 32) as char else c
  }

  /** `str.lower()` on the ASCII letters. */
  function LowerAscii(s: string): (t: string)
    ensures |t| == |s| && forall k :: 0 <= k < |s| ==> t[k] == LowerChar(s[k])
  {
    seq(|s|, k requires 0 <= k < |s| => LowerChar(s[k]))
  }

  /** The two tests of the candidate loop: the lower-cased label is one of
      the targets, and the confidence is not below the threshold. */
  predicate Accepted(c: Candidate)
  {
    LowerAscii(c.className) in TargetLabels && !(c.conf < ConfidenceThreshold)
  }

  /** The record made of an accepted candidate of frame `frame`; the box
      corners are truncated to integers. */
  function DetectionOf(frame: int, c: Candidate): (d: Detection)
    ensures d.frame == frame && d.className == c.className && d.confidence == c.conf
    ensures d.bbox == [Trunc(c.x1), Trunc(c.y1), Trunc(c.x2), Trunc(c.y2)]
  {
    Detection(frame, c.className, c.conf, [Trunc(c.x1), Trunc(c.y1), Trunc(c.x2), Trunc(c.y2)])
  }

  /** The records one frame contributes, in the detector's order. */
  function FrameDetections(frame: int, candidates: seq<Candidate>): (ds: seq<Detection>)
    ensures |ds| <= |candidates|
    decreases |candidates|
  {
    if candidates == [] then []
    else
      var c := candidates[|candidates| - 1];
      FrameDetections(frame, candidates[..|candidates| - 1]) + (if Accepted(c) then [DetectionOf(frame, c)] else [])
  }

  /** The whole output: frame after frame, numbered from 0. */
  function AllDetections(frames: seq<seq<Candidate>>): (ds: seq<Detection>)
    decreases |frames|
  {
    if frames == [] then []
    else AllDetections(frames[..|frames| - 1]) + FrameDetections(|frames| - 1, frames[|frames| - 1])
  }

  /** `detect_objects_in_video`: the frame loop with the candidate loop
      inside it; a video that does not open gives an empty list. */
  method DetectObjectsInVideo(isOpened: bool, frames: seq<seq<Candidate>>) returns (detections: seq<Detection>)
    ensures isOpened ==> detections == AllDetections(frames)
    ensures !isOpened ==> detections == []
  {
    detections := [];
    if !isOpened {
      return;
    }
    var frameIdx := 0;
    while frameIdx < |frames|
      invariant 0 <= frameIdx <= |frames|
      invariant detections == AllDetections(frames[..frameIdx])
    {
      var results := frames[frameIdx];
      ghost var before := detections;
      for b := 0 to |results|
        invariant detections == before + FrameDetections(frameIdx, results[..b])
      {
        var result := results[b];
        var className := result.className;
        assert results[..b + 1][..b] == results[..b];
        if LowerAscii(className) in TargetLabels {
          var conf := result.conf;
          if conf < ConfidenceThreshold {
            continue;
          }
          var bbox := [Trunc(result.x1), Trunc(result.y1), Trunc(result.x2), Trunc(result.y2)];
          detections := detections + [Detection(frameIdx, className, conf, bbox)];
        }
      }
      assert results[..|results|] == results;
      assert frames[..frameIdx + 1][..frameIdx] == frames[..frameIdx];
      frameIdx := frameIdx + 1;
    }
    assert frames[..frameIdx] == frames;
  }

  /** Every record of a frame comes from an accepted candidate of it. */
  lemma {:induction false} FrameDetectionSource(frame: int, candidates: seq<Candidate>, p: int)
    requires 0 <= p < |FrameDetections(frame, candidates)|
    ensures exists j :: (0 <= j < |candidates| && Accepted(candidates[j]) &&
                         FrameDetections(frame, candidates)[p] == DetectionOf(frame, candidates[j]))
    decreases |candidates|
  {
    var front := candidates[..|candidates| - 1];
    var c := candidates[|candidates| - 1];
    if p < |FrameDetections(frame, front)| {
      FrameDetectionSource(frame, front, p);
      var j :| 0 <= j < |front| && Accepted(front[j]) &&
        FrameDetections(frame, front)[p] == DetectionOf(frame, front[j]);
      assert candidates[j] == front[j];
    } else {
      assert Accepted(c) && FrameDetections(frame, candidates)[p] == DetectionOf(frame, c);
    }
  }

  /** Soundness: every record names a frame of the video and is built from
      an accepted candidate of that frame. */
  lemma {:induction false} DetectionSource(frames: seq<seq<Candidate>>, p: int)
    requires 0 <= p < |AllDetections(frames)|
    ensures var d := AllDetections(frames)[p];
      0 <= d.frame < |frames| &&
      exists j :: 0 <= j < |frames[d.frame]| && Accepted(frames[d.frame][j]) && d == DetectionOf(d.frame, frames[d.frame][j])
    decreases |frames|
  {
    var n := |frames| - 1;
    var front := AllDetections(frames[..n]);
    if p < |front| {
      DetectionSource(frames[..n], p);
      var f := front[p].frame;
      assert frames[..n][f] == frames[f];
    } else {
      FrameDetectionSource(n, frames[n], p - |front|);
      assert AllDetections(frames)[p] == FrameDetections(n, frames[n])[p - |front|];
      FrameDetectionsFrame(n, frames[n], p - |front|);
    }
  }

  /** Every record of a frame carries that frame's number. */
  lemma {:induction false} FrameDetectionsFrame(frame: int, candidates: seq<Candidate>, p: int)
    requires 0 <= p < |FrameDetections(frame, candidates)|
    ensures FrameDetections(frame, candidates)[p].frame == frame
    decreases |candidates|
  {
    var front := candidates[..|candidates| - 1];
    if p < |FrameDetections(frame, front)| {
      FrameDetectionsFrame(frame, front, p);
    }
  }

  /** A frame keeps its accepted candidates, each once, in order. */
  lemma {:induction false} FrameDetectionsConcat(frame: int, a: seq<Candidate>, b: seq<Candidate>)
    ensures FrameDetections(frame, a + b) == FrameDetections(frame, a) + FrameDetections(frame, b)
    decreases |b|
  {
    if b == [] {
      assert a + b == a;
    } else {
      var b', c := b[..|b| - 1], b[|b| - 1];
      var ab := a + b;
      FrameDetectionsConcat(frame, a, b');
      assert ab[..|ab| - 1] == a + b' && ab[|ab| - 1] == c;
      var kept := if Accepted(c) then [DetectionOf(frame, c)] else [];
      assert FrameDetections(frame, ab) == FrameDetections(frame, a + b') + kept;
      assert FrameDetections(frame, b) == FrameDetections(frame, b') + kept;
    }
  }

  /** Completeness: an accepted candidate `j` of frame `f` is in the
      output, as the record of frame `f`. */
  lemma {:induction false} DetectionPresent(frames: seq<seq<Candidate>>, f: int, j: int)
    requires 0 <= f < |frames| && 0 <= j < |frames[f]| && Accepted(frames[f][j])
    ensures DetectionOf(f, frames[f][j]) in AllDetections(frames)
    decreases |frames|
  {
    var n := |frames| - 1;
    if f < n {
      DetectionPresent(frames[..n], f, j);
      assert frames[..n][f] == frames[f];
    } else {
      var cs := frames[n];
      FrameDetectionsConcat(n, cs[..j], cs[j..]);
      FrameDetectionsConcat(n, [cs[j]], cs[j + 1..]);
      assert cs[j..] == [cs[j]] + cs[j + 1..];
      assert cs[..j] + cs[j..] == cs;
      assert [cs[j]][..0] == [];
      assert FrameDetections(n, [cs[j]]) == [DetectionOf(n, cs[j])];
    }
  }

  /** The frame numbers never decrease along the output. */
  lemma {:induction false} FramesNonDecreasing(frames: seq<seq<Candidate>>, p: int, q: int)
    requires 0 <= p <= q < |AllDetections(frames)|
    ensures AllDetections(frames)[p].frame <= AllDetections(frames)[q].frame
    decreases |frames|
  {
    var n := |frames| - 1;
    var front := AllDetections(frames[..n]);
    if q < |front| {
      FramesNonDecreasing(frames[..n], p, q);
    } else {
      FrameDetectionsFrame(n, frames[n], q - |front|);
      if p < |front| {
        DetectionSource(frames[..n], p);
      } else {
        FrameDetectionsFrame(n, frames[n], p - |front|);
      }
    }
  }
}
