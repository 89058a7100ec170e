/** Values shared by the stages of the pipeline: optional values, the
    two-component coordinate lists that the pose stage writes and the
    fusion stage reads, label entries, Python's truncating `int()` of a
    float, and the path rules (`PurePath.name`, `PurePath.stem`) by which
    the stages key their videos. */
module Common {

  datatype Option<+T> = None | Some(value: T)

  /** A two-element coordinate list `[x, y]` whose components may each be
      null; the pose stage writes `[None, None]` for an unseen wrist. */
  datatype Point2 = Point2(x: Option<real>, y: Option<real>)
  {
    /** Neither component is null (Python: `None not in p`). */
    predicate Complete() { x.Some? && y.Some? }
  }

  /** The `[None, None]` list. */
  const NoPoint: Point2 := Point2(None, None)

  /** One record of a pose stream: the frame number, both wrists and the
      two visibilities `[left, right]`. */
  datatype PoseRecord = PoseRecord(frameIndex: int, leftWrist: Point2, rightWrist: Point2, confidence: seq<real>)

  /** One label entry: the video path and the two optional
      `video_second` values of `action_start` and `action_end`. */
  datatype LabelEntry = LabelEntry(video: string, actionStart: Option<real>, actionEnd: Option<real>)

  /** Python's `int()` of a float: truncation toward zero. */
  function Trunc(r: real): (t: int)
    ensures r >= 0.0 ==> t >= 0 && t as real <= r < t as real + 1.0
    ensures r < 0.0 ==> t <= 0 && t as real - 1.0 < r <= t as real
  {
    if r >= 0.0 then r.Floor else -((-r).Floor)
  }

  function Max(a: int, b: int): (m: int)
    ensures m >= a && m >= b && (m == a || m == b)
  {
    if a >= b then a else b
  }

  /** Python's `s.rfind(c)`: the last position of `c`, or -1. */
  function LastIndexOf(s: string, c: char): (i: int)
    ensures -1 <= i < |s|
  {
    if |s| == 0 then -1
    else if s[|s| - 1] == c then |s| - 1
    else LastIndexOf(s[..|s| - 1], c)
  }

  /** `rfind` returns a position holding `c` with no `c` after it, or -1
      when there is no `c` at all. */
  lemma {:induction false} LastIndexOfSpec(s: string, c: char)
    ensures var i := LastIndexOf(s, c);
      (0 <= i ==> s[i] == c) && forall k :: i < k < |s| ==> s[k] != c
    decreases |s|
  {
    if |s| > 0 && s[|s| - 1] != c {
      var t := s[..|s| - 1];
      LastIndexOfSpec(t, c);
      assert forall k :: 0 <= k < |t| ==> t[k] == s[k];
    }
  }

  /** `PurePath(path).name`: the last component of the path, where empty
      components (from a doubled or trailing '/') and "." components are
      dropped, as `PurePath` drops them; "" when no component is left. */
  function FileName(path: string): (n: string)
    decreases |path|
  {
    var i := LastIndexOf(path, '/');
    var last := path[i + 1..];
    if last != "" && last != "." then last
    else if i < 0 then ""
    else FileName(path[..i])
  }

  /** `PurePath(path).stem`: the name without its last suffix, where a
      suffix starts at a '.' that is neither the first nor the last
      character of the name. */
  function Stem(path: string): string
  {
    var n := FileName(path);
    var i := LastIndexOf(n, '.');
    if 0 < i < |n| - 1 then n[..i] else n
  }

  /** The name is '/'-free, never ".", and no longer than the path. */
  lemma {:induction false} NameShape(path: string)
    ensures var n := FileName(path);
      '/' !in n && n != "." && |n| <= |path|
    decreases |path|
  {
    var i := LastIndexOf(path, '/');
    var last := path[i + 1..];
    if last != "" && last != "." {
      assert FileName(path) == last;
      LastIndexOfSpec(path, '/');
      forall k | 0 <= k < |last| ensures last[k] != '/' {
        assert last[k] == path[i + 1 + k];
      }
    } else if i >= 0 {
      assert FileName(path) == FileName(path[..i]);
      NameShape(path[..i]);
    } else {
      assert path[0..] == path;
    }
  }

  /** The stem is either the whole name or a non-empty proper prefix of it
      that stops just before its last '.', and it is '/'-free. */
  lemma NameAndStemShape(path: string)
    ensures var n, s := FileName(path), Stem(path);
      '/' !in s &&
      (s == n ||
       (0 < |s| < |n| - 1 && s == n[..|s|] && n[|s|] == '.' &&
        forall k :: |s| < k < |n| ==> n[k] != '.'))
  {
    NameShape(path);
    var n := FileName(path);
    var d := LastIndexOf(n, '.');
    LastIndexOfSpec(n, '.');
    if 0 < d < |n| - 1 {
      assert forall c :: c in n[..d] ==> c in n;
    }
  }

  /** A trailing '/' or "/." does not change the name (nor the stem):
      `PurePath("a/b.mp4/").name == PurePath("a/b.mp4/.").name == "b.mp4"`. */
  lemma TrailingSeparatorIgnored(path: string)
    ensures FileName(path + "/") == FileName(path)
    ensures FileName(path + "/.") == FileName(path)
  {
    var p1, p2 := path + "/", path + "/.";
    LastIndexOfIs(p1, '/', |path|);
    assert p1[|path| + 1..] == "" && p1[..|path|] == path;
    LastIndexOfIs(p2, '/', |path|);
    assert p2[|path| + 1..] == "." && p2[..|path|] == path;
  }

  /** `rfind` finds a position when nothing after it matches. */
  lemma LastIndexOfIs(s: string, c: char, p: int)
    requires -1 <= p < |s| && (p >= 0 ==> s[p] == c)
    requires forall k :: p < k < |s| ==> s[k] != c
    ensures LastIndexOf(s, c) == p
  {
    var i := LastIndexOf(s, c);
    LastIndexOfSpec(s, c);
    assert p <= i by {
      if p >= 0 { assert s[p] == c; }
    }
    assert i <= p by {
      if i >= 0 { assert s[i] == c; }
    }
  }

  /** The characters of `base + "." + ext`: no '/', the joining '.' at
      `|base|` and no '.' after it. */
  lemma DotJoinShape(base: string, ext: string)
    requires '/' !in base && '/' !in ext && '.' !in ext
    ensures var name := base + "." + ext;
      |name| == |base| + 1 + |ext| && name[..|base|] == base && name[0..] == name &&
      name[|base|] == '.' &&
      (forall k :: 0 <= k < |name| ==> name[k] != '/') &&
      (forall k :: |base| < k < |name| ==> name[k] != '.')
  {
    var name := base + "." + ext;
    forall k | 0 <= k < |name| ensures name[k] != '/' {
      if k < |base| { assert name[k] == base[k]; }
      else if k > |base| { assert name[k] == ext[k - |base| - 1]; }
    }
    forall k | |base| < k < |name| ensures name[k] != '.' {
      assert name[k] == ext[k - |base| - 1];
    }
  }

  /** A file name without a directory loses exactly its last suffix:
      `Path("base.ext").stem == "base"`. */
  lemma StemOfBareName(base: string, ext: string)
    requires |base| > 0 && '/' !in base
    requires |ext| > 0 && '/' !in ext && '.' !in ext
    ensures FileName(base + "." + ext) == base + "." + ext
    ensures Stem(base + "." + ext) == base
  {
    var name := base + "." + ext;
    DotJoinShape(base, ext);
    LastIndexOfIs(name, '/', -1);
    assert name != "" && name != ".";
    assert FileName(name) == name;
    LastIndexOfIs(name, '.', |base|);
  }

  /** The same below a directory: `Path("dir/base.ext").stem == "base"`. */
  lemma StemOfJoinedName(dir: string, base: string, ext: string)
    requires |base| > 0 && '/' !in base
    requires |ext| > 0 && '/' !in ext && '.' !in ext
    ensures FileName(dir + "/" + base + "." + ext) == base + "." + ext
    ensures Stem(dir + "/" + base + "." + ext) == base
  {
    var name := base + "." + ext;
    var path := dir + "/" + name;
    assert path == dir + "/" + base + "." + ext;
    forall k | |dir| < k < |path| ensures path[k] != '/' {
      assert path[k] == name[k - |dir| - 1];
    }
    LastIndexOfIs(path, '/', |dir|);
    assert path[|dir| + 1..] == name;
    assert name != "." by { assert |name| >= 3; }
    StemOfBareName(base, ext);
  }

  /** A bare file name (no directory, no dot after its first character)
      is its own stem, except ".", which names nothing:
      `PurePath(".").name == PurePath(".").stem == ""`. */
  lemma StemOfPlainName(name: string)
    requires '/' !in name
    requires forall k :: 0 < k < |name| ==> name[k] != '.'
    ensures name != "." ==> FileName(name) == name && Stem(name) == name
    ensures name == "." ==> FileName(name) == "" && Stem(name) == ""
  {
    LastIndexOfIs(name, '/', -1);
    assert name[0..] == name;
    LastIndexOfSpec(name, '.');
    assert LastIndexOf("", '.') == -1;
  }
}
