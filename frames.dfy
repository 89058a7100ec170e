/** Frame sampling (`frames.py`): each labelled video is decoded once and
    every `interval`-th frame is written as `frame_NNNN.jpg` into a folder
    named after the video's stem.  The decoder is abstracted to whether the
    video opened, its reported frame rate and the sequence of frames it
    yields; the images themselves are an opaque type parameter. */
module Frames {
  import opened Common

  /** The rate at which frames are sampled. */
  const Fps: int := 5

  /** The folder below which each video gets its own frame folder. */
  const OutputDir: string := "data/processed/frames"

  /** The sampling interval: the whole number of decoded frames per sampled
      frame when the video is faster than the sampling rate, and 1 (keep
      everything) otherwise.  It is never below 1, so `k % interval` is
      always defined. */
  function Interval(videoFps: real, fps: int): (interval: int)
    requires fps > 0
    ensures interval >= 1
    ensures videoFps <= fps as real ==> interval == 1
    ensures videoFps > fps as real ==>
      interval as real <= videoFps / fps as real < interval as real + 1.0
  {
    if videoFps > fps as real then Trunc(videoFps / fps as real) else 1
  }

  // ---------------------------------------------------------------------
  // Frame names: `f"frame_{saved_idx:04d}.jpg"`

  function DigitChar(d: int): (c: char)
    requires 0 <= d < 10
    ensures '0' <= c <= '9' && c as int - '0' as int == d
  {
    ('0' as int + d) as char
  }

  /** The decimal digits of a natural number, without leading zeros. */
  function Decimal(i: nat): (s: string)
    ensures |s| >= 1
    ensures forall k :: 0 <= k < |s| ==> '0' <= s[k] <= '9'
    ensures i >= 10 ==> s[0] != '0'
    decreases i
  {
    if i < 10 then [DigitChar(i)] else Decimal(i / 10) + [DigitChar(i % 10)]
  }

  /** `{:04d}`: the digits, left-padded with '0' to at least four. */
  function ZeroPad(digits: string, width: nat): (padded: string)
    ensures |padded| == Max(|digits|, width)
    ensures padded[|padded| - |digits|..] == digits
    ensures forall k :: 0 <= k < |padded| - |digits| ==> padded[k] == '0'
  {
    if |digits| >= width then digits else seq(width - |digits|, _ => '0') + digits
  }

  /** The name of the `savedIdx`-th written frame. */
  function FrameName(savedIdx: nat): string
  {
    "frame_" + ZeroPad(Decimal(savedIdx), 4) + ".jpg"
  }

  /** The value of a string of decimal digits, leading zeros allowed. */
  function DecimalValue(s: string): (v: int)
    requires forall k :: 0 <= k < |s| ==> '0' <= s[k] <= '9'
    ensures v >= 0
    decreases |s|
  {
    if s == [] then 0
    else DecimalValue(s[..|s| - 1]) * 10 + (s[|s| - 1] as int - '0' as int)
  }

  /** Reading a frame number back out of a file name: the inverse of
      `FrameName`. */
  function FrameIndexOf(name: string): (i: Option<int>)
    ensures i.Some? ==> i.value >= 0
  {
    if |name| >= 11 && name[..6] == "frame_" && name[|name| - 4..] == ".jpg"
       && forall k :: 6 <= k < |name| - 4 ==> '0' <= name[k] <= '9'
    then Some(DecimalValue(name[6..|name| - 4]))
    else None
  }

  lemma {:induction false} DecimalRoundTrip(i: nat)
    ensures DecimalValue(Decimal(i)) == i
    decreases i
  {
    if i >= 10 {
      DecimalRoundTrip(i / 10);
      var s := Decimal(i);
      assert s[..|s| - 1] == Decimal(i / 10);
    }
  }

  lemma {:induction false} ZerosValue(z: string)
    requires forall k :: 0 <= k < |z| ==> z[k] == '0'
    ensures DecimalValue(z) == 0
    decreases |z|
  {
    if z != [] {
      ZerosValue(z[..|z| - 1]);
    }
  }

  /** Leading zeros do not change the value. */
  lemma {:induction false} LeadingZerosValue(z: string, s: string)
    requires forall k :: 0 <= k < |z| ==> z[k] == '0'
    requires forall k :: 0 <= k < |s| ==> '0' <= s[k] <= '9'
    ensures DecimalValue(z + s) == DecimalValue(s)
    decreases |s|
  {
    if s == [] {
      assert z + s == z;
      ZerosValue(z);
    } else {
      var s' := s[..|s| - 1];
      LeadingZerosValue(z, s');
      var zs := z + s;
      assert zs[..|zs| - 1] == z + s';
    }
  }

  /** A frame's name gives back its number, so distinct frames of a video
      never share a file. */
  lemma FrameNameRoundTrip(savedIdx: nat)
    ensures FrameIndexOf(FrameName(savedIdx)) == Some(savedIdx)
  {
    var digits := Decimal(savedIdx);
    var padded := ZeroPad(digits, 4);
    var z := padded[..|padded| - |digits|];
    assert padded == z + digits;
    assert forall k :: 0 <= k < |z| ==> z[k] == '0';
    forall k | 0 <= k < |padded| ensures '0' <= padded[k] <= '9' {
      if k >= |z| { assert padded[k] == digits[k - |z|]; }
    }
    LeadingZerosValue(z, digits);
    DecimalRoundTrip(savedIdx);
    ParseFrameName(padded);
  }

  lemma ParseFrameName(digits: string)
    requires |digits| >= 1 && forall k :: 0 <= k < |digits| ==> '0' <= digits[k] <= '9'
    ensures FrameIndexOf("frame_" + digits + ".jpg") == Some(DecimalValue(digits))
  {
    var name := "frame_" + digits + ".jpg";
    assert name[..6] == "frame_";
    assert name[|name| - 4..] == ".jpg";
    assert name[6..|name| - 4] == digits;
    assert forall k :: 6 <= k < |name| - 4 ==> name[k] == digits[k - 6];
  }

  lemma FrameNameInjective(i: nat, j: nat)
    requires FrameName(i) == FrameName(j)
    ensures i == j
  {
    FrameNameRoundTrip(i);
    FrameNameRoundTrip(j);
  }

  /** Up to frame 9999 the number has exactly four digits. */
  lemma FrameNameLength(savedIdx: nat)
    ensures |FrameName(savedIdx)| >= 14
    ensures savedIdx < 10000 ==> |FrameName(savedIdx)| == 14
  {
    if savedIdx < 10000 {
      DecimalLength(savedIdx, 4);
    }
  }

  function Pow10(w: nat): (p: nat)
    ensures p >= 1
  {
    if w == 0 then 1 else 10 * Pow10(w - 1)
  }

  lemma {:induction false} DecimalLength(i: nat, w: nat)
    requires w >= 1 && i < Pow10(w)
    ensures |Decimal(i)| <= w
    decreases w
  {
    if i >= 10 {
      DecimalLength(i / 10, w - 1);
    }
  }

  // ---------------------------------------------------------------------
  // Sampling one video

  /** One written image: its file name and the decoded frame. */
  datatype SavedFrame<F> = SavedFrame(name: string, image: F)

  /** What the sampling loop writes for a decoded frame sequence: frame `k`
      is written when `k % interval == 0`, under the next free number. */
  function SavedFrames<F>(frames: seq<F>, interval: int): (saved: seq<SavedFrame<F>>)
    requires interval >= 1
    ensures |saved| <= |frames|
    decreases |frames|
  {
    if frames == [] then []
    else
      var front := SavedFrames(frames[..|frames| - 1], interval);
      if (|frames| - 1) % interval == 0
      then front + [SavedFrame(FrameName(|front|), frames[|frames| - 1])]
      else front
  }

  /** `extract_frames_from_video`: nothing at all when the video does not
      open (not even the folder), otherwise the sampled frames. */
  method ExtractFramesFromVideo<F>(isOpened: bool, videoFps: real, frames: seq<F>, fps: int)
    returns (written: Option<seq<SavedFrame<F>>>)
    requires fps > 0
    ensures !isOpened ==> written == None
    ensures isOpened ==> written == Some(SavedFrames(frames, Interval(videoFps, fps)))
  {
    if !isOpened {
      return None;
    }
    var interval := Interval(videoFps, fps);
    var out: seq<SavedFrame<F>> := [];
    var frameIdx, savedIdx := 0, 0;
    while frameIdx < |frames|
      invariant 0 <= frameIdx <= |frames|
      invariant out == SavedFrames(frames[..frameIdx], interval)
      invariant savedIdx == |out|
    {
      var frame := frames[frameIdx];
      assert frames[..frameIdx + 1][..frameIdx] == frames[..frameIdx];
      if frameIdx % interval == 0 {
        out := out + [SavedFrame(FrameName(savedIdx), frame)];
        savedIdx := savedIdx + 1;
      }
      frameIdx := frameIdx + 1;
    }
    assert frames[..frameIdx] == frames;
    return Some(out);
  }

  lemma DivisionUnique(a: int, b: int, q: int, r: int)
    requires b > 0 && 0 <= r < b && a == q * b + r
    ensures a / b == q && a % b == r
  {
    var q', r' := a / b, a % b;
    assert (q - q') * b == r' - r;
    ProductBelow(q - q', b);
  }

  lemma ProductBelow(x: int, b: int)
    requires b > 0 && -b < x * b < b
    ensures x == 0
  {
  }

  /** One more frame adds one to the ceiling exactly at a multiple. */
  lemma CeilStep(m: nat, interval: int)
    requires interval >= 1
    ensures (m + interval) / interval == (m + interval - 1) / interval + (if m % interval == 0 then 1 else 0)
  {
    var q, r := m / interval, m % interval;
    if r == 0 {
      DivisionUnique(m + interval - 1, interval, q, interval - 1);
      DivisionUnique(m + interval, interval, q + 1, 0);
    } else {
      DivisionUnique(m + interval - 1, interval, q + 1, r - 1);
      DivisionUnique(m + interval, interval, q + 1, r);
    }
  }

  /** At a multiple `m` of the interval, the ceiling of `m` is `m / interval`. */
  lemma CeilAtMultiple(m: nat, interval: int)
    requires interval >= 1 && m % interval == 0
    ensures (m + interval - 1) / interval == m / interval
    ensures (m / interval) * interval == m
  {
    DivisionUnique(m + interval - 1, interval, m / interval, interval - 1);
  }

  /** The multiples `j * interval` with `j` below the ceiling stay below `n`. */
  lemma MultipleBelow(j: nat, n: nat, interval: int)
    requires interval >= 1 && j < (n + interval - 1) / interval
    ensures 0 <= j * interval < n
    ensures (j * interval) / interval == j && (j * interval) % interval == 0
  {
    var c := (n + interval - 1) / interval;
    DivisionUnique(j * interval, interval, j, 0);
    assert c * interval <= n + interval - 1;
    ProductMonotone(j, c - 1, interval);
  }

  lemma ProductMonotone(a: int, b: int, m: int)
    requires a <= b && m >= 0
    ensures a * m <= b * m
  {
    assert b * m - a * m == (b - a) * m;
  }

  /** From `n` frames, `ceil(n / interval)` are written. */
  lemma {:induction false} SavedCount<F>(frames: seq<F>, interval: int)
    requires interval >= 1
    ensures |SavedFrames(frames, interval)| == (|frames| + interval - 1) / interval
    decreases |frames|
  {
    if frames == [] {
      DivisionUnique(interval - 1, interval, 0, interval - 1);
    } else {
      SavedCount(frames[..|frames| - 1], interval);
      CeilStep(|frames| - 1, interval);
    }
  }

  /** Sampling a prefix of the frames writes a prefix of the images. */
  lemma {:induction false} SavedPrefix<F>(frames: seq<F>, interval: int, m: int)
    requires interval >= 1 && 0 <= m <= |frames|
    ensures SavedFrames(frames[..m], interval) <= SavedFrames(frames, interval)
    decreases |frames|
  {
    if m == |frames| {
      assert frames[..m] == frames;
    } else {
      var front := frames[..|frames| - 1];
      SavedPrefix(front, interval, m);
      assert front[..m] == frames[..m];
    }
  }

  /** A kept frame `k` is written under the number of images written
      before it. */
  lemma KeptAfterPrefix<F>(frames: seq<F>, interval: int, k: int)
    requires interval >= 1
    requires 0 <= k < |frames| && k % interval == 0
    ensures var q := |SavedFrames(frames[..k], interval)|;
      q < |SavedFrames(frames, interval)| &&
      SavedFrames(frames, interval)[q] == SavedFrame(FrameName(q), frames[k])
  {
    var before := SavedFrames(frames[..k], interval);
    var upto := frames[..k + 1];
    assert upto[..k] == frames[..k] && upto[k] == frames[k];
    assert SavedFrames(upto, interval) == before + [SavedFrame(FrameName(|before|), frames[k])];
    SavedPrefix(frames, interval, k + 1);
  }

  /** Every decoded frame `k` with `k % interval == 0` is written, as image
      number `k / interval`. */
  lemma FrameKept<F>(frames: seq<F>, interval: int, k: int)
    requires interval >= 1
    requires 0 <= k < |frames| && k % interval == 0
    ensures 0 <= k / interval < |SavedFrames(frames, interval)|
    ensures SavedFrames(frames, interval)[k / interval] == SavedFrame(FrameName(k / interval), frames[k])
  {
    var q := |SavedFrames(frames[..k], interval)|;
    assert q == k / interval by {
      SavedCount(frames[..k], interval);
      CeilAtMultiple(k, interval);
    }
    KeptAfterPrefix(frames, interval, k);
  }

  /** Conversely, the `j`-th written image is decoded frame `j * interval`,
      under the name with number `j`: nothing else is written. */
  lemma SavedFrameAt<F>(frames: seq<F>, interval: int, j: int)
    requires interval >= 1
    requires 0 <= j < |SavedFrames(frames, interval)|
    ensures 0 <= j * interval < |frames| && (j * interval) % interval == 0
    ensures SavedFrames(frames, interval)[j] == SavedFrame(FrameName(j), frames[j * interval])
  {
    var k := j * interval;
    ImagesBefore(frames, interval, j, k);
    KeptAfterPrefix(frames, interval, k);
  }

  /** Image `j` comes from frame `k = j * interval`, which exactly `j`
      images precede. */
  lemma ImagesBefore<F>(frames: seq<F>, interval: int, j: int, k: int)
    requires interval >= 1 && 0 <= j < |SavedFrames(frames, interval)| && k == j * interval
    ensures 0 <= k < |frames| && k % interval == 0
    ensures |SavedFrames(frames[..k], interval)| == j
  {
    SavedCount(frames, interval);
    MultipleCount(j, |frames|, interval, k);
    PrefixCount(frames, interval, k);
  }

  lemma PrefixCount<F>(frames: seq<F>, interval: int, k: int)
    requires interval >= 1 && 0 <= k <= |frames|
    ensures |SavedFrames(frames[..k], interval)| == (k + interval - 1) / interval
  {
    SavedCount(frames[..k], interval);
  }

  /** The `j`-th multiple of the interval below the ceiling of `n` is below
      `n`, and its own ceiling is `j`. */
  lemma MultipleCount(j: int, n: nat, interval: int, k: int)
    requires interval >= 1 && 0 <= j < (n + interval - 1) / interval && k == j * interval
    ensures 0 <= k < n && k % interval == 0 && (k + interval - 1) / interval == j
  {
    MultipleBelow(j, n, interval);
    CeilAtMultiple(k, interval);
  }

  /** A video no faster than the sampling rate has every frame written, in
      order. */
  lemma EveryFrameWhenSlow<F>(videoFps: real, fps: int, frames: seq<F>, k: int)
    requires fps > 0 && videoFps <= fps as real
    requires 0 <= k < |frames|
    ensures |SavedFrames(frames, Interval(videoFps, fps))| == |frames|
    ensures SavedFrames(frames, Interval(videoFps, fps))[k] == SavedFrame(FrameName(k), frames[k])
  {
    SavedCount(frames, 1);
    FrameKept(frames, 1, k);
  }

  // ---------------------------------------------------------------------
  // The driver: only labelled videos are sampled

  /** `load_labeled_video_names`: the set of the entries' `video` values. */
  function LabeledVideoNames(labels: seq<LabelEntry>): (names: set<string>)
    ensures forall v :: v in names <==> exists i :: 0 <= i < |labels| && labels[i].video == v
  {
    set i | 0 <= i < |labels| :: labels[i].video
  }

  /** One video file as the decoder presents it. */
  datatype VideoFile<F> = VideoFile(path: string, isOpened: bool, videoFps: real, frames: seq<F>)

  /** What `main` does with one video file. */
  datatype VideoOutcome<F> =
    | NotLabelled
    | OpenFailed
    | Extracted(folder: string, written: seq<SavedFrame<F>>)

  function Outcome<F>(labeled: set<string>, video: VideoFile<F>): VideoOutcome<F>
  {
    if FileName(video.path) !in labeled then NotLabelled
    else if !video.isOpened then OpenFailed
    else Extracted(OutputDir + "/" + Stem(video.path), SavedFrames(video.frames, Interval(video.videoFps, Fps)))
  }

  /** `main`: per video file, in the order the directory walk lists them. */
  method ExtractAllFrames<F>(labels: seq<LabelEntry>, videos: seq<VideoFile<F>>)
    returns (outcomes: seq<VideoOutcome<F>>)
    ensures |outcomes| == |videos|
    ensures forall i :: 0 <= i < |videos| ==> outcomes[i] == Outcome(LabeledVideoNames(labels), videos[i])
  {
    var labeledVideos := LabeledVideoNames(labels);
    outcomes := [];
    for i := 0 to |videos|
      invariant |outcomes| == i
      invariant forall j :: 0 <= j < i ==> outcomes[j] == Outcome(labeledVideos, videos[j])
    {
      var video := videos[i];
      if FileName(video.path) !in labeledVideos {
        outcomes := outcomes + [NotLabelled];
        continue;
      }
      var videoStem := Stem(video.path);
      var written := ExtractFramesFromVideo(video.isOpened, video.videoFps, video.frames, Fps);
      if written.Some? {
        outcomes := outcomes + [Extracted(OutputDir + "/" + videoStem, written.value)];
      } else {
        outcomes := outcomes + [OpenFailed];
      }
    }
  }

  /** A video file is sampled exactly when some label entry names it by its
      bare file name; it then goes to the folder of its stem. */
  lemma OutcomeRule<F>(labels: seq<LabelEntry>, video: VideoFile<F>)
    ensures var o := Outcome(LabeledVideoNames(labels), video);
      (o.NotLabelled? <==> forall i :: 0 <= i < |labels| ==> labels[i].video != FileName(video.path)) &&
      (o.OpenFailed? <==> (exists i :: 0 <= i < |labels| && labels[i].video == FileName(video.path)) && !video.isOpened) &&
      (o.Extracted? ==> o.folder == OutputDir + "/" + Stem(video.path) &&
                        o.written == SavedFrames(video.frames, Interval(video.videoFps, Fps)))
  {
  }
}
