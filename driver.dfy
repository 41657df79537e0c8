/**
 * The pure steps of src/main.rs: where a video's subtitle files are cached
 * (its path re-rooted under `OUTPUT_DIR`) and how that location is decoded
 * back; the search labels offered for selection and the map from label to
 * subtitle; the name of each clip's output file; and the per-selection
 * results of the clipping loop.
 */
module Driver {
  import opened Wrappers
  import opened Text
  import opened Paths
  import opened Timestamps
  import opened Sub
  import opened Ffmpeg
  import opened Util

  const LineBreak: char := '\n'
  /** `OUTPUT_DIR`, `/tmp/tmp.Z3fu02h0P5`. */
  const OutputDir: Path := [RootDir, Normal("tmp"), Normal("tmp.Z3fu02h0P5")]
  const MaxFilenameLen: nat := 64
  /** The name that stands for the root directory inside the cache. */
  const RootMarker: string := "!…root…!"
  const EmptyName: string := "…empty…"

  // ---------------------------------------------------------------------------
  // Cache locations: encoding the root component and decoding it back

  function EncodeComponent(c: Component): Component
  {
    if c == RootDir then Normal(RootMarker) else c
  }

  function DecodeComponent(c: Component): Component
  {
    if c == Normal(RootMarker) then RootDir else c
  }

  /** The `components().map(..).collect::<PathBuf>()` of main.rs:36-44: the root becomes a normal name. */
  function EncodeRoot(p: Path): (r: Path)
    ensures |r| == |p| && RootDir !in r
    ensures forall i :: 0 <= i < |p| ==> r[i] == if p[i] == RootDir then Normal(RootMarker) else p[i]
  {
    var mapped := seq(|p|, i requires 0 <= i < |p| => EncodeComponent(p[i]));
    CollectWellFormed(mapped);
    mapped
  }

  /** Each marker component turned back into the root. */
  function DecodeEach(p: Path): (r: seq<Component>)
    ensures |r| == |p| && forall i :: 0 <= i < |p| ==> r[i] == DecodeComponent(p[i])
  {
    seq(|p|, i requires 0 <= i < |p| => DecodeComponent(p[i]))
  }

  /** Decoding the two shapes an encoded path has: no root at all, or the marker in front. */
  lemma DecodeEachCollect(p: Path)
    ensures RootDir !in p && Normal(RootMarker) !in p ==> Collect(DecodeEach(p)) == p
    ensures |p| > 0 && p[0] == Normal(RootMarker) && RootDir !in p && Normal(RootMarker) !in p[1..]
      ==> Collect(DecodeEach(p)) == [RootDir] + p[1..]
  {
    var d := DecodeEach(p);
    if RootDir !in p && Normal(RootMarker) !in p {
      assert d == p;
      CollectWellFormed(p);
    }
    if |p| > 0 && p[0] == Normal(RootMarker) && RootDir !in p && Normal(RootMarker) !in p[1..] {
      assert forall i :: 1 <= i < |p| ==> p[i] in p[1..] by {
        forall i | 1 <= i < |p| ensures p[i] in p[1..] { assert p[1..][i - 1] == p[i]; }
      }
      assert d == [RootDir] + p[1..];
      CollectWellFormed(d);
    }
  }

  /**
   * The `components().map(..).collect::<PathBuf>()` of main.rs:109-117: the
   * marker becomes the root again, and collecting starts over at that root.
   */
  function DecodeRoot(p: Path): (r: Path)
    ensures RootDir !in p && Normal(RootMarker) !in p ==> r == p
    ensures |p| > 0 && p[0] == Normal(RootMarker) && RootDir !in p && Normal(RootMarker) !in p[1..]
      ==> r == [RootDir] + p[1..]
  {
    DecodeEachCollect(p);
    Collect(DecodeEach(p))
  }

  /** `outpath`: the video's path, re-rooted under `OUTPUT_DIR`; it always has a parent. */
  function CachePath(video: Path): (r: Path)
    ensures r == OutputDir + EncodeRoot(video)
    ensures Parent(r).Some?
  {
    JoinRelative(OutputDir, EncodeRoot(video));
    Join(OutputDir, EncodeRoot(video))
  }

  /**
   * The `output_dir` that `get_sub_files_in_dir` hands to `get_sub_files` for
   * a video file: the parent of `outpath` joined with the video's file name
   * (or `…empty…` when there is none). For a video whose path ends in a name
   * this is `outpath` itself.
   */
  function SubtitleDir(video: Path): (r: Path)
    ensures FileName(video).Some? ==> r == CachePath(video)
  {
    var parent := Parent(CachePath(video)).value;
    var name := match FileName(video) case Some(n) => n case None => EmptyName;
    JoinRelative(parent, [Normal(name)]);
    Join(parent, [Normal(name)])
  }

  /** The paths the round trip recovers: well formed, and no component spelled like the marker. */
  predicate Encodable(p: Path)
  {
    RootOnlyFirst(p) && Normal(RootMarker) !in p
  }

  /** Decoding undoes encoding on every encodable path. */
  lemma DecodeEncode(p: Path)
    requires Encodable(p)
    ensures DecodeRoot(EncodeRoot(p)) == p
  {
    var e := EncodeRoot(p);
    if |p| > 0 && p[0] == RootDir {
      assert e == [Normal(RootMarker)] + p[1..];
      assert forall i :: 1 <= i < |p| ==> p[i] != RootDir && p[i] != Normal(RootMarker);
      assert RootDir !in e && Normal(RootMarker) !in e[1..];
      assert [RootDir] + p[1..] == p;
    } else {
      assert e == p;
    }
  }

  datatype DriverError = NotUnderOutputDir

  /** main.rs:104-117: the video a subtitle file belongs to (the `expect` demands a parent). */
  function InfileOf(subFile: Path): (r: Result<Path, DriverError>)
    requires Parent(subFile).Some?
    ensures r.Err? <==> !(OutputDir <= Parent(subFile).value)
    ensures r.Ok? ==> r.value == DecodeRoot(Parent(subFile).value[|OutputDir|..])
  {
    match StripPrefix(Parent(subFile).value, OutputDir)
    case None => Err(NotUnderOutputDir)
    case Some(rest) => Ok(DecodeRoot(rest))
  }

  /** Every subtitle file extracted for a video leads back to that video. */
  lemma InfileOfSubFile(video: Path, i: nat)
    requires Encodable(video) && FileName(video).Some?
    ensures Parent(SubFilePath(SubtitleDir(video), i)).Some?
    ensures InfileOf(SubFilePath(SubtitleDir(video), i)) == Ok(video)
  {
    var sub := SubFilePath(SubtitleDir(video), i);
    assert Parent(sub).value == OutputDir + EncodeRoot(video);
    assert (OutputDir + EncodeRoot(video))[|OutputDir|..] == EncodeRoot(video);
    DecodeEncode(video);
  }

  /** Decoding a path with a marker in the middle starts over at that marker. */
  lemma DecodeRestartsAtMarker()
    ensures DecodeRoot([Normal(RootMarker), Normal("home"), Normal(RootMarker), Normal("x.mkv")]) == [RootDir, Normal("x.mkv")]
  {
    var d := DecodeEach([Normal(RootMarker), Normal("home"), Normal(RootMarker), Normal("x.mkv")]);
    assert d == [RootDir, Normal("home"), RootDir, Normal("x.mkv")];
    assert d[3..] == [Normal("x.mkv")];
    JoinFromLastRoot([], d, 2);
  }

  /** A directory literally named like the marker inside the video path sends the decoding to the wrong file. */
  lemma MarkerInPathMisdecodes()
    ensures var video := [RootDir, Normal("home"), Normal(RootMarker), Normal("x.mkv")];
      InfileOf(SubFilePath(SubtitleDir(video), 0)) == Ok([RootDir, Normal("x.mkv")])
  {
    var video := [RootDir, Normal("home"), Normal(RootMarker), Normal("x.mkv")];
    var e := EncodeRoot(video);
    assert e == [Normal(RootMarker), Normal("home"), Normal(RootMarker), Normal("x.mkv")];
    var sub := SubFilePath(SubtitleDir(video), 0);
    assert Parent(sub).value == OutputDir + e;
    assert (OutputDir + e)[|OutputDir|..] == e;
    DecodeRestartsAtMarker();
  }

  // ---------------------------------------------------------------------------
  // Search labels and the label map

  /** A subtitle with the subtitle file it was parsed from (`SubContainedByFile`). */
  type Located = (Subtitle, Path)

  /**
   * The label of main.rs:81-87. `show` is `srtlib`'s `Display` of a
   * timestamp.
   */
  function SearchLabel(s: Located, show: Timestamp -> string): (r: string)
    ensures Replace(s.0.text, LineBreak, "↳") + " (" + Render(s.1) + ", [" <= r
    ensures |r| >= 2 && r[|r| - 2..] == "])"
  {
    Replace(s.0.text, LineBreak, "↳") + " (" + Render(s.1) + ", [" + show(s.0.startTime) + " - " + show(s.0.endTime) + "])"
  }

  /** A label opens with the cue text, each line break shown as `↳`, so the cue text takes one line. */
  lemma SearchLabelOneLine(s: Located, show: Timestamp -> string)
    ensures |SearchLabel(s, show)| > |s.0.text|
    ensures forall i :: 0 <= i < |s.0.text| ==>
      SearchLabel(s, show)[i] == if s.0.text[i] == LineBreak then '↳' else s.0.text[i]
    ensures LineBreak !in SearchLabel(s, show)[..|s.0.text|]
  {
    ReplaceByChar(s.0.text, LineBreak, '↳');
  }

  /** A line break anywhere in the subtitle file's path ends up in the label, which then spans two lines. */
  lemma SearchLabelPathLineBreak(s: Located, show: Timestamp -> string, k: nat)
    requires k < |s.1| && LineBreak in ComponentText(s.1[k])
    ensures LineBreak in SearchLabel(s, show)
  {
    RenderContains(s.1, k, LineBreak);
    var pre := Replace(s.0.text, LineBreak, "↳") + " (" + Render(s.1) + ", [";
    assert LineBreak in pre;
    assert pre <= SearchLabel(s, show);
    var i :| 0 <= i < |pre| && pre[i] == LineBreak;
    assert SearchLabel(s, show)[i] == LineBreak;
  }

  /** A video whose name holds a line break gives every one of its cues a two-line label. */
  lemma VideoLineBreakSplitsLabel(cue: Subtitle, show: Timestamp -> string)
    ensures var video := [RootDir, Normal("a\nb.mkv")];
      LineBreak in SearchLabel((cue, SubFilePath(SubtitleDir(video), 0)), show)
  {
    var video := [RootDir, Normal("a\nb.mkv")];
    var sub := SubFilePath(SubtitleDir(video), 0);
    assert EncodeRoot(video) == [Normal(RootMarker), Normal("a\nb.mkv")];
    assert sub[4] == Normal("a\nb.mkv");
    assert ComponentText(sub[4])[1] == LineBreak;
    SearchLabelPathLineBreak((cue, sub), show, 4);
  }

  /** Collecting `(key(x), x)` pairs into a map in order: a later pair overwrites an earlier one with the same key. */
  function CollectByKey<T>(xs: seq<T>, key: T -> string): map<string, T>
  {
    if xs == [] then map[]
    else CollectByKey(xs[..|xs| - 1], key)[key(xs[|xs| - 1]) := xs[|xs| - 1]]
  }

  lemma {:induction false} CollectByKeyKeys<T>(xs: seq<T>, key: T -> string)
    ensures forall i :: 0 <= i < |xs| ==> key(xs[i]) in CollectByKey(xs, key)
    ensures forall l :: l in CollectByKey(xs, key) ==> exists i :: 0 <= i < |xs| && key(xs[i]) == l
  {
    if xs != [] {
      var n := |xs| - 1;
      var init := xs[..n];
      CollectByKeyKeys(init, key);
      forall l | l in CollectByKey(xs, key) ensures exists i :: 0 <= i < |xs| && key(xs[i]) == l {
        if l != key(xs[n]) {
          var i :| 0 <= i < |init| && key(init[i]) == l;
          assert xs[i] == init[i];
        }
      }
      forall i | 0 <= i < n ensures key(xs[i]) in CollectByKey(xs, key) {
        assert xs[i] == init[i];
      }
    }
  }

  lemma {:induction false} CollectByKeyValues<T>(xs: seq<T>, key: T -> string)
    ensures forall l :: l in CollectByKey(xs, key) ==> key(CollectByKey(xs, key)[l]) == l && CollectByKey(xs, key)[l] in xs
  {
    if xs != [] {
      var init := xs[..|xs| - 1];
      CollectByKeyValues(init, key);
      assert forall x :: x in init ==> x in xs;
    }
  }

  lemma {:induction false} CollectByKeyLast<T>(xs: seq<T>, key: T -> string, j: nat)
    requires j < |xs|
    requires forall k :: j < k < |xs| ==> key(xs[k]) != key(xs[j])
    ensures key(xs[j]) in CollectByKey(xs, key) && CollectByKey(xs, key)[key(xs[j])] == xs[j]
  {
    var n := |xs| - 1;
    if j < n {
      var init := xs[..n];
      assert init[j] == xs[j];
      CollectByKeyLast(init, key, j);
    }
  }

  lemma {:induction false} CollectByKeySize<T>(xs: seq<T>, key: T -> string)
    ensures |CollectByKey(xs, key)| <= |xs|
  {
    if xs != [] {
      var init := xs[..|xs| - 1];
      CollectByKeySize(init, key);
      assert CollectByKey(xs, key).Keys <= CollectByKey(init, key).Keys + {key(xs[|xs| - 1])};
    }
  }

  lemma {:induction false} CollectByKeyCollapse<T>(xs: seq<T>, key: T -> string, i: nat, j: nat)
    requires i < j < |xs| && key(xs[i]) == key(xs[j])
    ensures |CollectByKey(xs, key)| < |xs|
  {
    var n := |xs| - 1;
    var init := xs[..n];
    CollectByKeySize(init, key);
    if j < n {
      assert init[i] == xs[i] && init[j] == xs[j];
      CollectByKeyCollapse(init, key, i, j);
    } else {
      assert init[i] == xs[i];
      CollectByKeyKeys(init, key);
      assert CollectByKey(xs, key).Keys == CollectByKey(init, key).Keys;
    }
  }

  /**
   * The `HashMap` collected at main.rs:77-91: label to subtitle. Collecting
   * inserts in order, so of two subtitles with the same label the later one
   * stays. The labels are exactly those of the subtitles, and each maps to
   * a subtitle of the list that renders to it.
   */
  function SearchStrings(subs: seq<Located>, show: Timestamp -> string): (m: map<string, Located>)
    ensures forall i :: 0 <= i < |subs| ==> SearchLabel(subs[i], show) in m
    ensures forall l :: l in m ==> exists i :: 0 <= i < |subs| && SearchLabel(subs[i], show) == l
    ensures forall l :: l in m ==> SearchLabel(m[l], show) == l && m[l] in subs
  {
    var key := s => SearchLabel(s, show);
    CollectByKeyKeys(subs, key);
    CollectByKeyValues(subs, key);
    CollectByKey(subs, key)
  }

  /** The value under a label is the last subtitle that renders to it. */
  lemma SearchStringsLastWins(subs: seq<Located>, show: Timestamp -> string, j: nat)
    requires j < |subs|
    requires forall k :: j < k < |subs| ==> SearchLabel(subs[k], show) != SearchLabel(subs[j], show)
    ensures SearchLabel(subs[j], show) in SearchStrings(subs, show)
    ensures SearchStrings(subs, show)[SearchLabel(subs[j], show)] == subs[j]
  {
    CollectByKeyLast(subs, s => SearchLabel(s, show), j);
  }

  /** Two subtitles with one label collapse into a single entry: the map is then smaller than the list. */
  lemma SearchStringsCollapse(subs: seq<Located>, show: Timestamp -> string, i: nat, j: nat)
    requires i < j < |subs| && SearchLabel(subs[i], show) == SearchLabel(subs[j], show)
    ensures |SearchStrings(subs, show)| < |subs|
  {
    CollectByKeyCollapse(subs, s => SearchLabel(s, show), i, j);
  }

  /** main.rs:92-99: each selected label looked up in the map (a missing label panics, so it is demanded). */
  function ResolveSelection(m: map<string, Located>, selected: seq<string>): (r: seq<Located>)
    requires forall s :: s in selected ==> s in m
    ensures |r| == |selected| && forall i :: 0 <= i < |r| ==> r[i] == m[selected[i]]
  {
    seq(|selected|, i requires 0 <= i < |selected| => m[selected[i]])
  }

  /** Each selection resolves to a subtitle of the list that renders to exactly the selected label. */
  lemma ResolveSelectionLabels(subs: seq<Located>, show: Timestamp -> string, selected: seq<string>)
    requires forall s :: s in selected ==> s in SearchStrings(subs, show)
    ensures var r := ResolveSelection(SearchStrings(subs, show), selected);
      forall i :: 0 <= i < |r| ==> SearchLabel(r[i], show) == selected[i] && r[i] in subs
  {
  }

  // ---------------------------------------------------------------------------
  // Output files and the per-selection loop

  /** The text of main.rs:121-135 before escaping: cue text (at most 64 characters), video stem, start, profile. */
  function OutputLabel(s: Located, infile: Path, profile: EncodingProfile, show: Timestamp -> string): (r: string)
    ensures |Take(s.0.text, MaxFilenameLen)| <= MaxFilenameLen && Take(s.0.text, MaxFilenameLen) <= r
    ensures FileStem(infile).None? ==> Take(s.0.text, MaxFilenameLen) + " (" + EmptyName <= r
    ensures FileStem(infile).Some? ==> Take(s.0.text, MaxFilenameLen) + " (" + FileStem(infile).value <= r
    ensures var tail := ", [" + show(s.0.startTime) + "], p=" + ProfileName(profile) + ")";
      |tail| <= |r| && r[|r| - |tail|..] == tail
  {
    var stem := match FileStem(infile) case Some(st) => st case None => EmptyName;
    var head := Take(s.0.text, MaxFilenameLen) + " (" + stem;
    var tail := ", [" + show(s.0.startTime) + "], p=" + ProfileName(profile) + ")";
    assert (head + tail)[|head + tail| - |tail|..] == tail;
    head + tail
  }

  /** `outfile`: one escaped name in `OUTPUT_DIR/!out`, safe as a single file name. */
  function OutFile(s: Located, infile: Path, profile: EncodingProfile, show: Timestamp -> string): (r: Path)
    ensures |r| == |OutputDir| + 2 && Parent(r) == Some(OutputDir + [Normal("!out")])
    ensures r[|r| - 1] == Normal(Escaped(OutputLabel(s, infile, profile, show)))
    ensures var name := r[|r| - 1].name; name != [] && name[0] != '-' && AllSafe(name)
  {
    var name := Escaped(OutputLabel(s, infile, profile, show));
    EscapedIsSafe(OutputLabel(s, infile, profile, show));
    JoinRelative(OutputDir, [Normal("!out")]);
    JoinRelative(OutputDir + [Normal("!out")], [Normal(name)]);
    Join(Join(OutputDir, [Normal("!out")]), [Normal(name)])
  }

  datatype ItemError =
    | StripPrefixFailed                 // the subtitle file is not under OUTPUT_DIR
    | CreateDirFailed                   // `create_dir_all` on the output directory
    | ClipRefused(reason: ClipError)    // the cue does not end after it starts
    | EncodeFailed(stderr: string)      // FFmpeg could not be run or failed

  /**
   * The outside world one clip touches: whether `create_dir_all` succeeds on
   * a directory, and how FFmpeg ends on an argument list, given whether its
   * output file already exists (`None`: success, `Some(stderr)`: failure).
   */
  datatype World = World(createDirAll: Path -> bool, runFfmpeg: (seq<string>, bool) -> Option<string>)

  /**
   * FFmpeg as `_clip` starts it: without `-y`, and with standard input
   * closed, it does not overwrite an output file that already exists.
   */
  ghost predicate KeepsExisting(world: World)
  {
    forall args :: world.runFfmpeg(args, true).Some?
  }

  /** Cue times in their clock ranges, as the subtitle parser yields them. */
  predicate ClippableTimes(s: Located)
  {
    Canonical(s.0.startTime) && Canonical(s.0.endTime)
  }

  /** The file `_clip` writes for a cue whose subtitle file decodes: the outfile plus the profile's extension. */
  function Target(s: Located, profile: EncodingProfile, show: Timestamp -> string): (r: Option<string>)
    requires Parent(s.1).Some?
    ensures r.Some? <==> InfileOf(s.1).Ok?
  {
    match InfileOf(s.1)
    case Err(_) => None
    case Ok(infile) => Some(ClipOutfile(OutFile(s, infile, profile, show), profile))
  }

  /** Whether the file that a clip of `s` writes exists among `files`. */
  predicate OutputExists(s: Located, profile: EncodingProfile, show: Timestamp -> string, files: set<string>)
    requires Parent(s.1).Some?
  {
    Target(s, profile, show).Some? && Target(s, profile, show).value in files
  }

  /**
   * The body of the closure at main.rs:103-150 for one selected subtitle,
   * given whether its output file already exists.
   */
  function ProcessItem(s: Located, profile: EncodingProfile, show: Timestamp -> string, world: World,
                       present: bool): (r: Result<Path, ItemError>)
    requires Parent(s.1).Some? && ClippableTimes(s)
    ensures InfileOf(s.1).Err? ==> r == Err(StripPrefixFailed)
    ensures r.Ok? <==>
      && InfileOf(s.1).Ok?
      && world.createDirAll(OutputDir + [Normal("!out")])
      && Less(s.0.startTime, s.0.endTime)
      && world.runFfmpeg(Clip(InfileOf(s.1).value, OutFile(s, InfileOf(s.1).value, profile, show),
                              s.0.startTime, s.0.endTime, profile).value, present).None?
    ensures r.Ok? ==> r.value == OutFile(s, InfileOf(s.1).value, profile, show)
    ensures InfileOf(s.1).Ok? && !world.createDirAll(OutputDir + [Normal("!out")]) ==> r == Err(CreateDirFailed)
    ensures InfileOf(s.1).Ok? && world.createDirAll(OutputDir + [Normal("!out")]) && !Less(s.0.startTime, s.0.endTime)
      ==> r == Err(ClipRefused(EndNotAfterStart))
    ensures r.Err? && r.error.EncodeFailed? ==>
      InfileOf(s.1).Ok? && world.createDirAll(OutputDir + [Normal("!out")]) && Less(s.0.startTime, s.0.endTime)
    ensures InfileOf(s.1).Ok? && world.createDirAll(OutputDir + [Normal("!out")]) && Less(s.0.startTime, s.0.endTime)
      ==> var run := world.runFfmpeg(Clip(InfileOf(s.1).value, OutFile(s, InfileOf(s.1).value, profile, show),
                                          s.0.startTime, s.0.endTime, profile).value, present);
          run.Some? ==> r == Err(EncodeFailed(run.value))
  {
    match InfileOf(s.1)
    case Err(_) => Err(StripPrefixFailed)
    case Ok(infile) =>
      var outfile := OutFile(s, infile, profile, show);
      if !world.createDirAll(Parent(outfile).value) then Err(CreateDirFailed)
      else
        match Clip(infile, outfile, s.0.startTime, s.0.endTime, profile)
        case Err(e) => Err(ClipRefused(e))
        case Ok(args) =>
          match world.runFfmpeg(args, present)
          case Some(stderr) => Err(EncodeFailed(stderr))
          case None => Ok(outfile)
  }

  /**
   * The output files after one clip with result `r`: a successful FFmpeg run
   * leaves its output file, and a failed one leaves none, because the scope
   * guard of `_clip` removes that file, whether this run or an earlier one
   * wrote it. A clip that stops before FFmpeg changes nothing.
   */
  function FilesAfter(s: Located, profile: EncodingProfile, show: Timestamp -> string,
                      r: Result<Path, ItemError>, files: set<string>): (f: set<string>)
    requires Parent(s.1).Some?
    ensures forall t :: Target(s, profile, show) != Some(t) ==> (t in f <==> t in files)
    ensures Target(s, profile, show).Some? && r.Ok? ==> Target(s, profile, show).value in f
    ensures Target(s, profile, show).Some? && r.Err? && r.error.EncodeFailed? ==> Target(s, profile, show).value !in f
    ensures Target(s, profile, show).Some? && r.Err? && !r.error.EncodeFailed? ==> f == files
  {
    match Target(s, profile, show)
    case None => files
    case Some(t) =>
      if r.Ok? then files + {t}
      else if r.error.EncodeFailed? then files - {t}
      else files
  }

  /**
   * Items processed one after another: each step sees the state that the
   * steps before it left, and `next` gives the state after a step.
   */
  function RunInOrder<T, R(!new), S(!new)>(items: seq<T>, step: (T, S) --> R, next: (T, R, S) --> S, s0: S): (r: (seq<R>, S))
    requires forall t, s :: t in items ==> step.requires(t, s)
    requires forall t, x, s :: t in items ==> next.requires(t, x, s)
    ensures |r.0| == |items|
    ensures forall i {:trigger r.0[i]} :: 0 <= i < |items| ==> r.0[i] == step(items[i], RunInOrder(items[..i], step, next, s0).1)
    decreases |items|
  {
    if items == [] then ([], s0)
    else
      var n := |items| - 1;
      var before := RunInOrder(items[..n], step, next, s0);
      var x := step(items[n], before.1);
      assert forall i :: 0 <= i < n ==> items[..n][..i] == items[..i];
      (before.0 + [x], next(items[n], x, before.1))
  }

  /** A property of the state that every step keeps holds after all of them. */
  lemma {:induction false} RunInOrderKeeps<T, R(!new), S(!new)>(items: seq<T>, step: (T, S) --> R, next: (T, R, S) --> S,
                                                    s0: S, inv: S -> bool)
    requires forall t, s :: t in items ==> step.requires(t, s)
    requires forall t, x, s :: t in items ==> next.requires(t, x, s)
    requires forall t, x, s :: t in items && inv(s) ==> inv(next(t, x, s))
    requires inv(s0)
    ensures inv(RunInOrder(items, step, next, s0).1)
    decreases |items|
  {
    if items != [] {
      var n := |items| - 1;
      RunInOrderKeeps(items[..n], step, next, s0, inv);
    }
  }

  /** The state after the last step. */
  lemma RunInOrderLast<T, R(!new), S(!new)>(items: seq<T>, step: (T, S) --> R, next: (T, R, S) --> S, s0: S)
    requires forall t, s :: t in items ==> step.requires(t, s)
    requires forall t, x, s :: t in items ==> next.requires(t, x, s)
    ensures items == [] ==> RunInOrder(items, step, next, s0).1 == s0
    ensures items != [] ==>
      var n := |items| - 1;
      RunInOrder(items, step, next, s0).1
        == next(items[n], RunInOrder(items, step, next, s0).0[n], RunInOrder(items[..n], step, next, s0).1)
  {
  }

  /** The output of the clipping loop: one result per selection, and the output files left behind. */
  datatype Batch = Batch(results: seq<Result<Path, ItemError>>, files: set<string>)

  /**
   * The clipping loop (main.rs:101-151): one result per selection, in
   * selection order, each computed on the output files that the selections
   * before it left.
   */
  function RunBatch(items: seq<Located>, profile: EncodingProfile, show: Timestamp -> string, world: World,
                    files: set<string>): (r: Batch)
    requires forall s :: s in items ==> Parent(s.1).Some? && ClippableTimes(s)
    ensures |r.results| == |items|
    ensures forall i {:trigger r.results[i]} :: 0 <= i < |items| ==>
      r.results[i] == ProcessItem(items[i], profile, show, world,
                                  OutputExists(items[i], profile, show, RunBatch(items[..i], profile, show, world, files).files))
    decreases |items|
  {
    var step := (s: Located, f: set<string>) requires Parent(s.1).Some? && ClippableTimes(s) =>
      ProcessItem(s, profile, show, world, OutputExists(s, profile, show, f));
    var next := (s: Located, x: Result<Path, ItemError>, f: set<string>) requires Parent(s.1).Some? =>
      FilesAfter(s, profile, show, x, f);
    var r := RunInOrder(items, step, next, files);
    Batch(r.0, r.1)
  }

  /**
   * The output files a batch leaves: those the last selection leaves on the
   * files that the selections before it left.
   */
  lemma RunBatchFiles(items: seq<Located>, profile: EncodingProfile, show: Timestamp -> string, world: World,
                      files: set<string>)
    requires forall s :: s in items ==> Parent(s.1).Some? && ClippableTimes(s)
    ensures items == [] ==> RunBatch(items, profile, show, world, files).files == files
    ensures items != [] ==>
      var n := |items| - 1;
      RunBatch(items, profile, show, world, files).files
        == FilesAfter(items[n], profile, show, RunBatch(items, profile, show, world, files).results[n],
                      RunBatch(items[..n], profile, show, world, files).files)
  {
    var step := (s: Located, f: set<string>) requires Parent(s.1).Some? && ClippableTimes(s) =>
      ProcessItem(s, profile, show, world, OutputExists(s, profile, show, f));
    var next := (s: Located, x: Result<Path, ItemError>, f: set<string>) requires Parent(s.1).Some? =>
      FilesAfter(s, profile, show, x, f);
    RunInOrderLast(items, step, next, files);
  }

  /** A batch leaves the files of outputs that none of its selections writes as they were. */
  lemma RunBatchKeeps(items: seq<Located>, profile: EncodingProfile, show: Timestamp -> string,
                      world: World, files: set<string>, t: string)
    requires forall s :: s in items ==> Parent(s.1).Some? && ClippableTimes(s)
    requires forall k :: 0 <= k < |items| ==> Target(items[k], profile, show) != Some(t)
    ensures t in RunBatch(items, profile, show, world, files).files <==> t in files
  {
    var step := (s: Located, f: set<string>) requires Parent(s.1).Some? && ClippableTimes(s) =>
      ProcessItem(s, profile, show, world, OutputExists(s, profile, show, f));
    var next := (s: Located, x: Result<Path, ItemError>, f: set<string>) requires Parent(s.1).Some? =>
      FilesAfter(s, profile, show, x, f);
    var inv := (f: set<string>) => (t in f <==> t in files);
    RunInOrderKeeps(items, step, next, files, inv);
  }

  /** No two selections that reach FFmpeg write the same output file. */
  predicate DistinctTargets(items: seq<Located>, profile: EncodingProfile, show: Timestamp -> string)
    requires forall s :: s in items ==> Parent(s.1).Some?
  {
    forall i, j :: 0 <= i < j < |items| && Target(items[i], profile, show).Some? ==>
      Target(items[i], profile, show) != Target(items[j], profile, show)
  }

  /**
   * When the selections' output files all differ, each result is what that
   * selection yields alone on the file system the batch started from.
   */
  lemma RunBatchIsolation(items: seq<Located>, profile: EncodingProfile, show: Timestamp -> string,
                          world: World, files: set<string>)
    requires forall s :: s in items ==> Parent(s.1).Some? && ClippableTimes(s)
    requires DistinctTargets(items, profile, show)
    ensures forall i :: 0 <= i < |items| ==>
      RunBatch(items, profile, show, world, files).results[i]
        == ProcessItem(items[i], profile, show, world, OutputExists(items[i], profile, show, files))
  {
    forall i | 0 <= i < |items|
      ensures RunBatch(items, profile, show, world, files).results[i]
        == ProcessItem(items[i], profile, show, world, OutputExists(items[i], profile, show, files))
    {
      if Target(items[i], profile, show).Some? {
        var t := Target(items[i], profile, show).value;
        assert forall k :: 0 <= k < i ==> items[..i][k] == items[k];
        RunBatchKeeps(items[..i], profile, show, world, files, t);
      }
    }
  }

  /** A batch of two selections: the second sees the output files that the first left. */
  lemma RunBatchTwo(a: Located, b: Located, profile: EncodingProfile, show: Timestamp -> string,
                    world: World, files: set<string>)
    requires Parent(a.1).Some? && ClippableTimes(a) && Parent(b.1).Some? && ClippableTimes(b)
    ensures var r := RunBatch([a, b], profile, show, world, files);
      var middle := FilesAfter(a, profile, show, r.results[0], files);
      && r.results[0] == ProcessItem(a, profile, show, world, OutputExists(a, profile, show, files))
      && r.results[1] == ProcessItem(b, profile, show, world, OutputExists(b, profile, show, middle))
      && r.files == FilesAfter(b, profile, show, r.results[1], middle)
  {
    assert [a, b][..1] == [a] && [a, b][..0] == [] && [a][..0] == [];
    RunBatchFiles([a, b], profile, show, world, files);
    RunBatchFiles([a], profile, show, world, files);
    RunBatchFiles([], profile, show, world, files);
  }

  /** A clip that reaches FFmpeg while its output file exists fails, when FFmpeg keeps existing files. */
  lemma ProcessItemOverExisting(s: Located, profile: EncodingProfile, show: Timestamp -> string, world: World)
    requires Parent(s.1).Some? && ClippableTimes(s)
    requires KeepsExisting(world)
    requires InfileOf(s.1).Ok? && world.createDirAll(OutputDir + [Normal("!out")]) && Less(s.0.startTime, s.0.endTime)
    ensures ProcessItem(s, profile, show, world, true).Err?
    ensures ProcessItem(s, profile, show, world, true).error.EncodeFailed?
  {
    var args := Clip(InfileOf(s.1).value, OutFile(s, InfileOf(s.1).value, profile, show),
                     s.0.startTime, s.0.endTime, profile).value;
    assert world.runFfmpeg(args, true).Some?;
  }

  /**
   * Two selections with one output file: when FFmpeg keeps an existing file,
   * the second fails, and its scope guard removes the file that the first
   * reported as written.
   */
  lemma SharedOutfileCollides(a: Located, b: Located, profile: EncodingProfile, show: Timestamp -> string,
                              world: World, files: set<string>)
    requires Parent(a.1).Some? && ClippableTimes(a) && Parent(b.1).Some? && ClippableTimes(b)
    requires KeepsExisting(world)
    requires Target(a, profile, show).Some? && Target(b, profile, show) == Target(a, profile, show)
    requires Less(b.0.startTime, b.0.endTime)
    ensures var r := RunBatch([a, b], profile, show, world, files);
      r.results[0].Ok? ==>
        && r.results[1].Err? && r.results[1].error.EncodeFailed?
        && Target(a, profile, show).value !in r.files
  {
    RunBatchTwo(a, b, profile, show, world, files);
    var r := RunBatch([a, b], profile, show, world, files);
    if r.results[0].Ok? {
      var middle := FilesAfter(a, profile, show, r.results[0], files);
      assert OutputExists(b, profile, show, middle);
      ProcessItemOverExisting(b, profile, show, world);
    }
  }

  /**
   * Two subtitle streams of one video that hold the same cue: their subtitle
   * files, and so their labels, differ, but both clips write the same file.
   */
  lemma TwoStreamsOneOutfile(cue: Subtitle, profile: EncodingProfile, show: Timestamp -> string)
    ensures var video := [RootDir, Normal("v.mkv")];
      var a := (cue, SubFilePath(SubtitleDir(video), 0));
      var b := (cue, SubFilePath(SubtitleDir(video), 1));
      && Parent(a.1).Some? && Parent(b.1).Some? && a.1 != b.1
      && Target(a, profile, show).Some? && Target(a, profile, show) == Target(b, profile, show)
  {
    var video := [RootDir, Normal("v.mkv")];
    var a := (cue, SubFilePath(SubtitleDir(video), 0));
    var b := (cue, SubFilePath(SubtitleDir(video), 1));
    InfileOfSubFile(video, 0);
    InfileOfSubFile(video, 1);
    assert SubFileName(0) != SubFileName(1) by {
      if SubFileName(0) == SubFileName(1) {
        SubFileNamesDistinct(0, 1);
      }
    }
    assert a.1[|a.1| - 1] != b.1[|b.1| - 1];
  }

  /** One cue in two files whose texts have one length but differ gets two different labels. */
  lemma SearchLabelsDiffer(a: Located, b: Located, show: Timestamp -> string)
    requires a.0 == b.0 && |Render(a.1)| == |Render(b.1)| && Render(a.1) != Render(b.1)
    ensures SearchLabel(a, show) != SearchLabel(b, show)
  {
    var head := Replace(a.0.text, LineBreak, "↳") + " (";
    var pa, pb := head + Render(a.1) + ", [", head + Render(b.1) + ", [";
    var k :| 0 <= k < |Render(a.1)| && Render(a.1)[k] != Render(b.1)[k];
    assert pa[|head| + k] != pb[|head| + k];
  }

  /** One cue in the files of two streams of one directory (numbers of one width) gets two labels. */
  lemma SubtitleLabelsDiffer(cue: Subtitle, dir: Path, i: nat, j: nat, show: Timestamp -> string)
    requires |dir| >= 2 && i != j && |SubFileName(i)| == |SubFileName(j)|
    ensures SearchLabel((cue, SubFilePath(dir, i)), show) != SearchLabel((cue, SubFilePath(dir, j)), show)
  {
    RenderSnoc(dir, Normal(SubFileName(i)));
    RenderSnoc(dir, Normal(SubFileName(j)));
    var r := Render(dir) + "/";
    assert SubFileName(i) != SubFileName(j) by {
      if SubFileName(i) == SubFileName(j) {
        SubFileNamesDistinct(i, j);
      }
    }
    assert (r + SubFileName(i))[|r|..] == SubFileName(i) && (r + SubFileName(j))[|r|..] == SubFileName(j);
    SearchLabelsDiffer((cue, SubFilePath(dir, i)), (cue, SubFilePath(dir, j)), show);
  }

  /** The two subtitle files of `TwoStreamsOneOutfile` give two labels, so both can be selected. */
  lemma TwoStreamsTwoLabels(cue: Subtitle, show: Timestamp -> string)
    ensures var video := [RootDir, Normal("v.mkv")];
      SearchLabel((cue, SubFilePath(SubtitleDir(video), 0)), show)
        != SearchLabel((cue, SubFilePath(SubtitleDir(video), 1)), show)
  {
    var dir := SubtitleDir([RootDir, Normal("v.mkv")]);
    assert dir == CachePath([RootDir, Normal("v.mkv")]);
    SubtitleLabelsDiffer(cue, dir, 0, 1, show);
  }

  /**
   * Selection to results (main.rs:77-151): label the subtitles, look up each
   * selected label, and clip each subtitle found, in selection order.
   */
  function ClipSelection(subs: seq<Located>, selected: seq<string>, profile: EncodingProfile,
                         show: Timestamp -> string, world: World, files: set<string>): (r: Batch)
    requires forall s :: s in subs ==> Parent(s.1).Some? && ClippableTimes(s)
    requires forall l :: l in selected ==> l in SearchStrings(subs, show)
    ensures var items := ResolveSelection(SearchStrings(subs, show), selected);
      && |r.results| == |selected|
      && (forall i :: 0 <= i < |selected| ==> items[i] in subs && SearchLabel(items[i], show) == selected[i])
      && (forall i {:trigger r.results[i]} :: 0 <= i < |selected| ==>
            r.results[i] == ProcessItem(items[i], profile, show, world,
                              OutputExists(items[i], profile, show, RunBatch(items[..i], profile, show, world, files).files)))
  {
    var m := SearchStrings(subs, show);
    var items := ResolveSelection(m, selected);
    ResolveSelectionLabels(subs, show, selected);
    RunBatch(items, profile, show, world, files)
  }
}
