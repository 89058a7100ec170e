/** The movement labelling stage: the map from video stem to its
    `(start_frame, end_frame)` window at 5 frames per second
    (`build_video_label_dict`), and the rewriting of the `is_moving` column
    of every feature file whose video has a window
    (`label_features_with_movement`). */
module IsMoving {
  import opened Common

  /** Frames per second of this stage's windows. */
  const Fps: int := 5

  /** The prefix every feature file name carries. */
  const FeaturesPrefix: string := "features_"

  /** The window of one entry: present only when both seconds are. */
  function LabelWindow(e: LabelEntry): (w: Option<(int, int)>)
    ensures w.Some? <==> e.actionStart.Some? && e.actionEnd.Some?
    ensures w.Some? ==> w.value == (Trunc(e.actionStart.value * 5.0), Trunc(e.actionEnd.value * 5.0))
  {
    if e.actionStart.Some? && e.actionEnd.Some? then
      Some((Trunc(e.actionStart.value * Fps as real), Trunc(e.actionEnd.value * Fps as real)))
    else None
  }

  /** The dictionary after the entries have been visited in order: each
      complete entry (re)binds its video's stem. */
  function LabelMap(entries: seq<LabelEntry>): map<string, (int, int)>
    decreases |entries|
  {
    if entries == [] then map[]
    else
      var m := LabelMap(entries[..|entries| - 1]);
      var e := entries[|entries| - 1];
      var w := LabelWindow(e);
      if w.Some? then m[Stem(e.video) := w.value] else m
  }

  /** `build_video_label_dict`. */
  method BuildVideoLabelDict(labelData: seq<LabelEntry>) returns (videoLabels: map<string, (int, int)>)
    ensures videoLabels == LabelMap(labelData)
  {
    videoLabels := map[];
    for k := 0 to |labelData|
      invariant videoLabels == LabelMap(labelData[..k])
    {
      var entry := labelData[k];
      var videoName := Stem(entry.video);
      var startSec := entry.actionStart;
      var endSec := entry.actionEnd;
      if startSec.Some? && endSec.Some? {
        var startFrame := Trunc(startSec.value * Fps as real);
        var endFrame := Trunc(endSec.value * Fps as real);
        videoLabels := videoLabels[videoName := (startFrame, endFrame)];
      }
      assert labelData[..k + 1][..k] == labelData[..k];
    }
    assert labelData[..|labelData|] == labelData;
  }

  /** Entry `e` is complete and names the video `name`. */
  predicate Binds(e: LabelEntry, name: string)
  {
    LabelWindow(e).Some? && Stem(e.video) == name
  }

  /** A stem is a key exactly when some complete entry has that stem. */
  lemma {:induction false} LabelMapDomain(entries: seq<LabelEntry>, name: string)
    ensures name in LabelMap(entries) <==> exists j :: 0 <= j < |entries| && Binds(entries[j], name)
    decreases |entries|
  {
    if entries != [] {
      var front := entries[..|entries| - 1];
      var last := entries[|entries| - 1];
      LabelMapDomain(front, name);
      assert name in LabelMap(entries) <==> name in LabelMap(front) || Binds(last, name);
      if exists j :: 0 <= j < |front| && Binds(front[j], name) {
        var j :| 0 <= j < |front| && Binds(front[j], name);
        assert front[j] == entries[j];
      }
      if exists j :: 0 <= j < |entries| && Binds(entries[j], name) {
        var j :| 0 <= j < |entries| && Binds(entries[j], name);
        if j < |front| {
          assert front[j] == entries[j];
        }
      }
    }
  }

  /** The window bound to a stem is that of the last complete entry with
      that stem: later duplicates overwrite earlier ones. */
  lemma {:induction false} LabelMapLastWins(entries: seq<LabelEntry>, j: int)
    requires 0 <= j < |entries| && LabelWindow(entries[j]).Some?
    requires forall j' :: j < j' < |entries| && Stem(entries[j'].video) == Stem(entries[j].video) ==>
      LabelWindow(entries[j']).None?
    ensures Stem(entries[j].video) in LabelMap(entries)
    ensures LabelMap(entries)[Stem(entries[j].video)] == LabelWindow(entries[j]).value
    decreases |entries|
  {
    var front := entries[..|entries| - 1];
    if j < |entries| - 1 {
      assert front[j] == entries[j];
      forall j' | j < j' < |front| && Stem(front[j'].video) == Stem(front[j].video)
        ensures LabelWindow(front[j']).None?
      {
        assert front[j'] == entries[j'];
      }
      LabelMapLastWins(front, j);
    }
  }

  /** Python's `s.replace(pattern, "")`: occurrences are removed left to
      right, without overlapping. */
  function RemoveAll(s: string, pattern: string): (r: string)
    requires |pattern| > 0
    ensures |r| <= |s|
    decreases |s|
  {
    if |s| < |pattern| then s
    else if s[..|pattern|] == pattern then RemoveAll(s[|pattern|..], pattern)
    else [s[0]] + RemoveAll(s[1..], pattern)
  }

  /** `pattern` occurs in `s` at position `k`. */
  predicate OccursAt(s: string, pattern: string, k: int)
  {
    0 <= k && k + |pattern| <= |s| && s[k..k + |pattern|] == pattern
  }

  /** `pattern` occurs in `s` at some position. */
  ghost predicate Occurs(s: string, pattern: string)
  {
    exists k :: OccursAt(s, pattern, k)
  }

  /** Removing a pattern that does not occur changes nothing. */
  lemma {:induction false} RemoveAllAbsent(s: string, pattern: string)
    requires |pattern| > 0 && !Occurs(s, pattern)
    ensures RemoveAll(s, pattern) == s
    decreases |s|
  {
    if |s| >= |pattern| {
      assert !OccursAt(s, pattern, 0);
      assert s[0..|pattern|] == s[..|pattern|];
      forall k ensures !OccursAt(s[1..], pattern, k) {
        if 0 <= k && k + |pattern| <= |s| - 1 {
          var here, there := s[1..][k..k + |pattern|], s[k + 1..k + 1 + |pattern|];
          assert forall i :: 0 <= i < |pattern| ==> here[i] == s[k + 1 + i] == there[i];
          assert here == there;
          assert !OccursAt(s, pattern, k + 1);
        }
      }
      RemoveAllAbsent(s[1..], pattern);
      assert s == [s[0]] + s[1..];
    }
  }

  /** The video name a feature file stands for: its stem without any
      `"features_"`. */
  function VideoNameOf(stem: string): string
  {
    RemoveAll(stem, FeaturesPrefix)
  }

  /** The file `features_<v>.csv` stands for `v` whenever `v` itself
      contains neither `"features_"` nor '/'. */
  lemma FeatureFileNameRoundTrip(v: string)
    requires '/' !in v && !Occurs(v, FeaturesPrefix)
    ensures VideoNameOf(Stem(FeaturesPrefix + v + ".csv")) == v
  {
    var base := FeaturesPrefix + v;
    assert FeaturesPrefix + v + ".csv" == base + "." + "csv";
    assert '/' !in base by {
      forall k | 0 <= k < |base| ensures base[k] != '/' {
        if k >= |FeaturesPrefix| { assert base[k] == v[k - |FeaturesPrefix|]; }
      }
    }
    StemOfBareName(base, "csv");
    assert base[..|FeaturesPrefix|] == FeaturesPrefix;
    assert base[|FeaturesPrefix|..] == v;
    assert RemoveAll(base, FeaturesPrefix) == RemoveAll(v, FeaturesPrefix);
    RemoveAllAbsent(v, FeaturesPrefix);
  }

  /** One row of a feature CSV: its `frame`, its `is_moving` (absent before
      the first labelling) and the remaining columns as text. */
  datatype CsvRow = CsvRow(frame: int, isMoving: Option<int>, otherColumns: map<string, string>)

  /** One `features_*.csv` file matched in the directory, by its stem. */
  datatype FeatureFile = FeatureFile(stem: string, rows: seq<CsvRow>)

  /** The per-row rule: 1 inside the inclusive window, 0 outside. */
  function MovingFlag(startFrame: int, endFrame: int, frame: int): (f: int)
    ensures f == 1 <==> startFrame <= frame <= endFrame
    ensures f == 0 <==> !(startFrame <= frame <= endFrame)
  {
    if startFrame <= frame <= endFrame then 1 else 0
  }

  /** `df["is_moving"] = df["frame"].apply(...)`. */
  function Relabelled(rows: seq<CsvRow>, startFrame: int, endFrame: int): (r: seq<CsvRow>)
    ensures |r| == |rows|
    ensures forall k :: 0 <= k < |r| ==>
      r[k].frame == rows[k].frame && r[k].otherColumns == rows[k].otherColumns &&
      r[k].isMoving == Some(MovingFlag(startFrame, endFrame, rows[k].frame))
  {
    seq(|rows|, k requires 0 <= k < |rows| => rows[k].(isMoving := Some(MovingFlag(startFrame, endFrame, rows[k].frame))))
  }

  /** A file after the stage: relabelled when its video has a window, left
      as it was otherwise. */
  function LabelledFile(f: FeatureFile, videoLabels: map<string, (int, int)>): (g: FeatureFile)
    ensures g.stem == f.stem && |g.rows| == |f.rows|
    ensures VideoNameOf(f.stem) !in videoLabels ==> g == f
    ensures VideoNameOf(f.stem) in videoLabels ==>
      g.rows == Relabelled(f.rows, videoLabels[VideoNameOf(f.stem)].0, videoLabels[VideoNameOf(f.stem)].1)
  {
    var v := VideoNameOf(f.stem);
    if v in videoLabels then f.(rows := Relabelled(f.rows, videoLabels[v].0, videoLabels[v].1)) else f
  }

  /** The files after the stage, in directory order. */
  function LabelledFiles(files: seq<FeatureFile>, videoLabels: map<string, (int, int)>): seq<FeatureFile>
    decreases |files|
  {
    if files == [] then []
    else LabelledFiles(files[..|files| - 1], videoLabels) + [LabelledFile(files[|files| - 1], videoLabels)]
  }

  /** The video names reported as skipped, in directory order. */
  function SkippedNames(files: seq<FeatureFile>, videoLabels: map<string, (int, int)>): seq<string>
    decreases |files|
  {
    if files == [] then []
    else
      var v := VideoNameOf(files[|files| - 1].stem);
      SkippedNames(files[..|files| - 1], videoLabels) + (if v in videoLabels then [] else [v])
  }

  /** `label_features_with_movement`: the files as written back, and the
      names it reports as skipped. */
  method LabelFeaturesWithMovement(files: seq<FeatureFile>, videoLabels: map<string, (int, int)>)
    returns (written: seq<FeatureFile>, skipped: seq<string>)
    ensures written == LabelledFiles(files, videoLabels)
    ensures skipped == SkippedNames(files, videoLabels)
  {
    written, skipped := [], [];
    for k := 0 to |files|
      invariant written == LabelledFiles(files[..k], videoLabels)
      invariant skipped == SkippedNames(files[..k], videoLabels)
    {
      var featureFile := files[k];
      StageStep(files, videoLabels, k);
      var videoName := VideoNameOf(featureFile.stem);
      if videoName !in videoLabels {
        skipped := skipped + [videoName];
        written := written + [featureFile];
      } else {
        var (startFrame, endFrame) := videoLabels[videoName];
        var df := featureFile.rows;
        df := Relabelled(df, startFrame, endFrame);
        written := written + [featureFile.(rows := df)];
      }
    }
    assert files[..|files|] == files;
  }

  lemma StageStep(files: seq<FeatureFile>, videoLabels: map<string, (int, int)>, k: int)
    requires 0 <= k < |files|
    ensures LabelledFiles(files[..k + 1], videoLabels) ==
      LabelledFiles(files[..k], videoLabels) + [LabelledFile(files[k], videoLabels)]
    ensures SkippedNames(files[..k + 1], videoLabels) ==
      SkippedNames(files[..k], videoLabels) +
      (if VideoNameOf(files[k].stem) in videoLabels then [] else [VideoNameOf(files[k].stem)])
  {
    assert files[..k + 1][..k] == files[..k];
  }

  /** Every file is written back in place: file `k` of the result is file
      `k` relabelled, or unchanged when its video has no window. */
  lemma {:induction false} LabelledFilesAt(files: seq<FeatureFile>, videoLabels: map<string, (int, int)>, k: int)
    requires 0 <= k < |files|
    ensures |LabelledFiles(files, videoLabels)| == |files|
    ensures LabelledFiles(files, videoLabels)[k] == LabelledFile(files[k], videoLabels)
    decreases |files|
  {
    var front := files[..|files| - 1];
    if k < |front| {
      LabelledFilesAt(front, videoLabels, k);
      assert front[k] == files[k];
    } else {
      LabelledFilesLength(front, videoLabels);
    }
  }

  lemma {:induction false} LabelledFilesLength(files: seq<FeatureFile>, videoLabels: map<string, (int, int)>)
    ensures |LabelledFiles(files, videoLabels)| == |files|
    decreases |files|
  {
    if files != [] {
      LabelledFilesLength(files[..|files| - 1], videoLabels);
    }
  }

  /** The whole stage: a row of a file whose video has a complete label
      is moving exactly inside the last such label's window (in frames at 5
      per second), and all its other columns are kept. */
  lemma {:induction false} LabelledRowRule(labelData: seq<LabelEntry>, f: FeatureFile, j: int, k: int)
    requires 0 <= j < |labelData| && LabelWindow(labelData[j]).Some?
    requires Stem(labelData[j].video) == VideoNameOf(f.stem)
    requires forall j' :: j < j' < |labelData| && Stem(labelData[j'].video) == Stem(labelData[j].video) ==>
      LabelWindow(labelData[j']).None?
    requires 0 <= k < |f.rows|
    ensures var g := LabelledFile(f, LabelMap(labelData));
      var s, e := labelData[j].actionStart.value, labelData[j].actionEnd.value;
      g.rows[k].isMoving == Some(if Trunc(s * 5.0) <= f.rows[k].frame <= Trunc(e * 5.0) then 1 else 0) &&
      g.rows[k].frame == f.rows[k].frame && g.rows[k].otherColumns == f.rows[k].otherColumns
  {
    LabelMapLastWins(labelData, j);
  }
}
