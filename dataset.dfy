/** The reconciliation of label entries with the video files found on disk
    (`filter_valid_labels`): a stable partition of the entries into those
    whose video exists and the names of those whose video does not. */
module Dataset {
  import opened Common

  /** The entries whose `video` is one of the file names, in order. */
  function ValidLabels(labels: seq<LabelEntry>, validVideoNames: seq<string>): (valid: seq<LabelEntry>)
    ensures |valid| <= |labels|
    decreases |labels|
  {
    if labels == [] then []
    else
      var e := labels[|labels| - 1];
      ValidLabels(labels[..|labels| - 1], validVideoNames) + (if e.video in validVideoNames then [e] else [])
  }

  /** The `video` names of the other entries, in order. */
  function MissingVideos(labels: seq<LabelEntry>, validVideoNames: seq<string>): (missing: seq<string>)
    ensures |missing| <= |labels|
    decreases |labels|
  {
    if labels == [] then []
    else
      var e := labels[|labels| - 1];
      MissingVideos(labels[..|labels| - 1], validVideoNames) + (if e.video in validVideoNames then [] else [e.video])
  }

  /** `filter_valid_labels`. */
  method FilterValidLabels(labels: seq<LabelEntry>, validVideoNames: seq<string>)
    returns (validLabels: seq<LabelEntry>, missingVideos: seq<string>)
    ensures validLabels == ValidLabels(labels, validVideoNames)
    ensures missingVideos == MissingVideos(labels, validVideoNames)
  {
    validLabels, missingVideos := [], [];
    for k := 0 to |labels|
      invariant validLabels == ValidLabels(labels[..k], validVideoNames)
      invariant missingVideos == MissingVideos(labels[..k], validVideoNames)
    {
      var entry := labels[k];
      var videoName := entry.video;
      assert labels[..k + 1][..k] == labels[..k];
      if videoName in validVideoNames {
        validLabels := validLabels + [entry];
      } else {
        missingVideos := missingVideos + [videoName];
      }
    }
    assert labels[..|labels|] == labels;
  }

  /** Every entry lands in exactly one of the two outputs. */
  lemma {:induction false} PartitionSizes(labels: seq<LabelEntry>, validVideoNames: seq<string>)
    ensures |ValidLabels(labels, validVideoNames)| + |MissingVideos(labels, validVideoNames)| == |labels|
    decreases |labels|
  {
    if labels != [] {
      PartitionSizes(labels[..|labels| - 1], validVideoNames);
    }
  }

  /** Each entry is kept as often as it occurs when its video is among the
      file names (an exact string match), and never otherwise; duplicates
      are judged one by one. */
  lemma {:induction false} ValidLabelsCounts(labels: seq<LabelEntry>, validVideoNames: seq<string>, e: LabelEntry)
    ensures multiset(ValidLabels(labels, validVideoNames))[e] ==
      if e.video in validVideoNames then multiset(labels)[e] else 0
    decreases |labels|
  {
    if labels != [] {
      var front := labels[..|labels| - 1];
      ValidLabelsCounts(front, validVideoNames, e);
      assert labels == front + [labels[|labels| - 1]];
    }
  }

  /** A name is reported missing exactly as often as entries with that
      video occur, when it is not among the file names. */
  lemma {:induction false} MissingVideosCounts(labels: seq<LabelEntry>, validVideoNames: seq<string>, v: string)
    ensures multiset(MissingVideos(labels, validVideoNames))[v] ==
      if v in validVideoNames then 0 else |Occurrences(labels, v)|
    decreases |labels|
  {
    if labels != [] {
      MissingVideosCounts(labels[..|labels| - 1], validVideoNames, v);
    }
  }

  /** The positions of the entries whose video is `v`. */
  function Occurrences(labels: seq<LabelEntry>, v: string): seq<nat>
    decreases |labels|
  {
    if labels == [] then []
    else
      Occurrences(labels[..|labels| - 1], v) + (if labels[|labels| - 1].video == v then [|labels| - 1] else [])
  }

  /** Relative order is kept: filtering a concatenation is concatenating
      the filtered parts. */
  lemma {:induction false} ValidLabelsStable(a: seq<LabelEntry>, b: seq<LabelEntry>, validVideoNames: seq<string>)
    ensures ValidLabels(a + b, validVideoNames) == ValidLabels(a, validVideoNames) + ValidLabels(b, validVideoNames)
    decreases |b|
  {
    if b == [] {
      assert a + b == a;
    } else {
      var b', e := b[..|b| - 1], b[|b| - 1];
      var ab := a + b;
      ValidLabelsStable(a, b', validVideoNames);
      assert ab[..|ab| - 1] == a + b' && ab[|ab| - 1] == e;
      var kept := if e.video in validVideoNames then [e] else [];
      assert ValidLabels(ab, validVideoNames) == ValidLabels(a + b', validVideoNames) + kept;
      assert ValidLabels(b, validVideoNames) == ValidLabels(b', validVideoNames) + kept;
    }
  }

  /** The same for the missing names. */
  lemma {:induction false} MissingVideosStable(a: seq<LabelEntry>, b: seq<LabelEntry>, validVideoNames: seq<string>)
    ensures MissingVideos(a + b, validVideoNames) == MissingVideos(a, validVideoNames) + MissingVideos(b, validVideoNames)
    decreases |b|
  {
    if b == [] {
      assert a + b == a;
    } else {
      var b', e := b[..|b| - 1], b[|b| - 1];
      var ab := a + b;
      MissingVideosStable(a, b', validVideoNames);
      assert ab[..|ab| - 1] == a + b' && ab[|ab| - 1] == e;
      var dropped := if e.video in validVideoNames then [] else [e.video];
      assert MissingVideos(ab, validVideoNames) == MissingVideos(a + b', validVideoNames) + dropped;
      assert MissingVideos(b, validVideoNames) == MissingVideos(b', validVideoNames) + dropped;
    }
  }
}
