/**
 * The pure logic around the FFmpeg calls of src/ffmpeg.rs: encoding profiles
 * and their argument lists, the time-duration strings passed to `-ss`/`-t`,
 * the subtitle-stream count read from ffprobe's output, the names of the
 * extracted subtitle files, and the checks and arguments of a clip.
 */
module Ffmpeg {
  import opened Wrappers
  import opened Fmt
  import opened Text
  import opened Paths
  import opened Timestamps

  datatype EncodingProfile = AV1 | FLAC

  /** Output container extension and the `(flag, value)` pairs passed to FFmpeg; an empty value is omitted. */
  datatype EncodingSettings = EncodingSettings(ext: string, params: seq<(string, string)>)

  /** `ENCODING_PROFILES`. */
  const EncodingProfiles: map<EncodingProfile, EncodingSettings> := map[
    AV1 := EncodingSettings("mkv", [
      ("-c:v", "libsvtav1"),
      ("-crf:v", "10"),
      ("-preset:v", "6"),
      ("-svtav1-params", "tune=0:film-grain=50:film-grain-denoise=0:enable-variance-boost=1"),
      ("-c:a", "libopus"),
      ("-b:a", "92k"),
      ("-ac", "2")]),
    FLAC := EncodingSettings("flac", [("-c:v", "none"), ("-c:a", "flac"), ("-ac", "2")])]

  /** `ENCODING_PROFILES.get(&profile).expect(..)`: every profile has settings, so the `expect` never fires. */
  function SettingsOf(p: EncodingProfile): (s: EncodingSettings)
    ensures p in EncodingProfiles && s == EncodingProfiles[p]
  {
    match p
    case AV1 => EncodingProfiles[AV1]
    case FLAC => EncodingProfiles[FLAC]
  }

  /** AV1 clips are Matroska files, FLAC clips `.flac` files. */
  lemma ProfileExtensions()
    ensures SettingsOf(AV1).ext == "mkv" && SettingsOf(FLAC).ext == "flac"
  {
  }

  /** The profile's `Display` (strum): the variant name. */
  function ProfileName(p: EncodingProfile): (r: string)
    ensures (r == "AV1") == (p == AV1) && (r == "FLAC") == (p == FLAC)
  {
    match p
    case AV1 => "AV1"
    case FLAC => "FLAC"
  }

  // ---------------------------------------------------------------------------
  // settings_to_args

  /** The arguments one `(flag, value)` pair contributes. */
  function PairArgs(kv: (string, string)): seq<string>
  {
    if kv.1 != "" then [kv.0, kv.1] else [kv.0]
  }

  /** Specification of `settings_to_args`: the pairs' contributions in order. */
  function ArgsOf(params: seq<(string, string)>): seq<string>
  {
    if params == [] then [] else ArgsOf(params[..|params| - 1]) + PairArgs(params[|params| - 1])
  }

  /** `settings_to_args`: flattens the pairs into an argument list, dropping empty values. */
  method SettingsToArgs(settings: EncodingSettings) returns (result: seq<string>)
    ensures result == ArgsOf(settings.params)
  {
    result := [];
    for i := 0 to |settings.params|
      invariant result == ArgsOf(settings.params[..i])
    {
      var (k, v) := settings.params[i];
      result := result + [k];
      if v != "" {
        result := result + [v];
      }
      assert settings.params[..i + 1][..i] == settings.params[..i];
    }
    assert settings.params[..|settings.params|] == settings.params;
  }

  /** Number of pairs with a non-empty value. */
  function NonEmptyValues(params: seq<(string, string)>): nat
  {
    if params == [] then 0 else (if params[0].1 != "" then 1 else 0) + NonEmptyValues(params[1..])
  }

  lemma {:induction false} NonEmptyValuesAppend(a: seq<(string, string)>, b: seq<(string, string)>)
    ensures NonEmptyValues(a + b) == NonEmptyValues(a) + NonEmptyValues(b)
  {
    if a == [] {
      assert a + b == b;
    } else {
      assert (a + b)[1..] == a[1..] + b;
      NonEmptyValuesAppend(a[1..], b);
    }
  }

  /** One argument per flag plus one per non-empty value. */
  lemma {:induction false} ArgsLength(params: seq<(string, string)>)
    ensures |ArgsOf(params)| == |params| + NonEmptyValues(params)
  {
    if params != [] {
      var init, last := params[..|params| - 1], params[|params| - 1];
      assert init + [last] == params;
      ArgsLength(init);
      NonEmptyValuesAppend(init, [last]);
      assert NonEmptyValues([last]) == (if last.1 != "" then 1 else 0);
    }
  }

  /** Where the flag of pair `i` lands: after all earlier flags and non-empty values. */
  function Slot(params: seq<(string, string)>, i: nat): nat
    requires i <= |params|
  {
    i + NonEmptyValues(params[..i])
  }

  /**
   * Every flag appears, in the original order, at its slot, immediately
   * followed by its value exactly when that value is non-empty; the next
   * flag's slot comes right after.
   */
  lemma {:induction false} ArgsLayout(params: seq<(string, string)>, i: nat)
    requires i < |params|
    ensures Slot(params, i) < |ArgsOf(params)| && ArgsOf(params)[Slot(params, i)] == params[i].0
    ensures params[i].1 != "" ==> Slot(params, i) + 1 < |ArgsOf(params)| && ArgsOf(params)[Slot(params, i) + 1] == params[i].1
    ensures Slot(params, i + 1) == Slot(params, i) + (if params[i].1 != "" then 2 else 1)
  {
    var init, last := params[..|params| - 1], params[|params| - 1];
    assert init + [last] == params;
    assert params[..i + 1] == params[..i] + [params[i]];
    NonEmptyValuesAppend(params[..i], [params[i]]);
    if i < |params| - 1 {
      assert init[..i] == params[..i] && init[..i + 1] == params[..i + 1];
      ArgsLayout(init, i);
    } else {
      assert params[..i] == init;
      ArgsLength(init);
    }
  }

  /** The FLAC profile's argument list. */
  lemma FlacArgs()
    ensures ArgsOf(SettingsOf(FLAC).params) == ["-c:v", "none", "-c:a", "flac", "-ac", "2"]
  {
    var ps := SettingsOf(FLAC).params;
    assert ps[..|ps| - 1] == [ps[0], ps[1]];
    assert [ps[0], ps[1]][..1] == [ps[0]];
    assert [ps[0]][..0] == [];
    assert ArgsOf([ps[0]]) == PairArgs(ps[0]);
    assert ArgsOf([ps[0], ps[1]]) == PairArgs(ps[0]) + PairArgs(ps[1]);
  }

  // ---------------------------------------------------------------------------
  // timestamp_to_string

  /** Every component has at most two digits (milliseconds at most three). */
  predicate FitsTwoDigits(t: Timestamp)
  {
    t.hours < 100 && t.minutes < 100 && t.seconds < 100 && t.milliseconds < 1000
  }

  /** `timestamp_to_string`: `HH:MM:SS.mmm`, each field zero-padded. */
  function TimestampToString(t: Timestamp): (r: string)
    ensures FitsTwoDigits(t) ==> |r| == 12 && r[2] == ':' && r[5] == ':' && r[8] == '.'
    ensures FitsTwoDigits(t) ==>
      && r[0..2] == ZeroPad(t.hours, 2) && r[3..5] == ZeroPad(t.minutes, 2)
      && r[6..8] == ZeroPad(t.seconds, 2) && r[9..12] == ZeroPad(t.milliseconds, 3)
  {
    var (h, m, s, ms) := Get(t);
    ZeroPadWidth(h);
    ZeroPadWidth(m);
    ZeroPadWidth(s);
    ZeroPadWidth(ms);
    ZeroPad(h, 2) + ":" + ZeroPad(m, 2) + ":" + ZeroPad(s, 2) + "." + ZeroPad(ms, 3)
  }

  /** A string of FFmpeg's `HH:MM:SS.mmm` time-duration form. */
  predicate IsClockDuration(s: string)
  {
    && |s| == 12 && s[2] == ':' && s[5] == ':' && s[8] == '.'
    && AllDigits(s[0..2]) && AllDigits(s[3..5]) && AllDigits(s[6..8]) && AllDigits(s[9..12])
  }

  /** The milliseconds FFmpeg reads from `HH:MM:SS.mmm`: hours, minutes, seconds and thousandths. */
  function ClockDurationMillis(s: string): nat
    requires IsClockDuration(s)
  {
    Value(s[0..2]) * 3_600_000 + Value(s[3..5]) * 60_000 + Value(s[6..8]) * 1000 + Value(s[9..12])
  }

  /** Rendering is exact: FFmpeg reads back the offset the timestamp stands for. */
  lemma TimestampStringMeansOffset(t: Timestamp)
    requires FitsTwoDigits(t)
    ensures IsClockDuration(TimestampToString(t))
    ensures ClockDurationMillis(TimestampToString(t)) == ToMillis(t)
  {
    ValueZeroPad(t.hours, 2);
    ValueZeroPad(t.minutes, 2);
    ValueZeroPad(t.seconds, 2);
    ValueZeroPad(t.milliseconds, 3);
  }

  /** Distinct timestamps in the two-digit range render differently. */
  lemma TimestampToStringInjective(a: Timestamp, b: Timestamp)
    requires FitsTwoDigits(a) && FitsTwoDigits(b)
    requires TimestampToString(a) == TimestampToString(b)
    ensures a == b
  {
    var s := TimestampToString(a);
    ValueZeroPad(a.hours, 2); ValueZeroPad(b.hours, 2);
    ValueZeroPad(a.minutes, 2); ValueZeroPad(b.minutes, 2);
    ValueZeroPad(a.seconds, 2); ValueZeroPad(b.seconds, 2);
    ValueZeroPad(a.milliseconds, 3); ValueZeroPad(b.milliseconds, 3);
    assert Value(s[0..2]) == a.hours == b.hours;
  }

  lemma TimestampToStringExample()
    ensures TimestampToString(New(1, 2, 3, 50)) == "01:02:03.050"
  {
  }

  // ---------------------------------------------------------------------------
  // _how_many_subs

  /** How an `ffprobe` run ended: not started, or exited with its stdout split into lines (`None`: not valid UTF-8). */
  datatype ProbeRun = ProbeSpawnFailed | ProbeExited(success: bool, lines: seq<Option<string>>)

  datatype ProbeError = SpawnFailed | ExitFailure

  predicate IsStreamLine(l: Option<string>)
  {
    l.Some? && Trim(l.value) == "[STREAM]"
  }

  function CountStreams(lines: seq<Option<string>>): nat
  {
    if lines == [] then 0
    else CountStreams(lines[..|lines| - 1]) + (if IsStreamLine(lines[|lines| - 1]) then 1 else 0)
  }

  /** `_how_many_subs`: the number of `[STREAM]` lines of a successful ffprobe run. */
  function HowManySubs(run: ProbeRun): (r: Result<nat, ProbeError>)
    ensures run.ProbeSpawnFailed? ==> r == Err(SpawnFailed)
    ensures run.ProbeExited? && !run.success ==> r == Err(ExitFailure)
    ensures r.Ok? ==> run.ProbeExited? && run.success && r.value <= |run.lines|
    ensures run.ProbeExited? && run.success ==> r == Ok(|StreamLineIndices(run.lines)|)
  {
    match run
    case ProbeSpawnFailed => Err(SpawnFailed)
    case ProbeExited(success, lines) =>
      if !success then Err(ExitFailure)
      else
        CountStreamsBound(lines);
        CountStreamsCounts(lines);
        Ok(CountStreams(lines))
  }

  lemma {:induction false} CountStreamsBound(lines: seq<Option<string>>)
    ensures CountStreams(lines) <= |lines|
  {
    if lines != [] {
      CountStreamsBound(lines[..|lines| - 1]);
    }
  }

  /** The positions of the lines that announce a stream. */
  function StreamLineIndices(lines: seq<Option<string>>): set<nat>
  {
    set i: nat | i < |lines| && IsStreamLine(lines[i])
  }

  /** Appending a line adds its index to the stream lines exactly when it announces a stream. */
  lemma StreamLineIndicesSnoc(lines: seq<Option<string>>)
    requires lines != []
    ensures var n := |lines| - 1;
      && n !in StreamLineIndices(lines[..n])
      && StreamLineIndices(lines) == StreamLineIndices(lines[..n]) + (if IsStreamLine(lines[n]) then {n} else {})
  {
    var n := |lines| - 1;
    var init := lines[..n];
    forall i: nat | i < n ensures IsStreamLine(lines[i]) == IsStreamLine(init[i]) {
      assert init[i] == lines[i];
    }
  }

  /** The count is exactly the number of lines whose trimmed text is `[STREAM]`. */
  lemma {:induction false} CountStreamsCounts(lines: seq<Option<string>>)
    ensures CountStreams(lines) == |StreamLineIndices(lines)|
  {
    if lines == [] {
      assert StreamLineIndices(lines) == {};
    } else {
      var n := |lines| - 1;
      CountStreamsCounts(lines[..n]);
      StreamLineIndicesSnoc(lines);
    }
  }

  /** Undecodable lines and other text do not count; surrounding whitespace is ignored. */
  lemma HowManySubsExample()
    ensures HowManySubs(ProbeExited(true, [Some("[STREAM]"), Some("index=2"), None, Some(" [STREAM]\t")])) == Ok(2)
  {
    var lines := [Some("[STREAM]"), Some("index=2"), None, Some(" [STREAM]\t")];
    assert Trim(" [STREAM]\t") == "[STREAM]" by {
      assert TrimStart(" [STREAM]\t") == "[STREAM]\t";
      assert "[STREAM]\t"[..8] == "[STREAM]";
    }
    assert Trim("index=2") == "index=2" by {
      assert TrimStart("index=2") == "index=2";
    }
    assert !IsStreamLine(lines[1]) && !IsStreamLine(lines[2]);
    assert lines[..1][..0] == [] && CountStreams(lines[..1]) == 1;
    assert lines[..2][..1] == lines[..1] && CountStreams(lines[..2]) == 1;
    assert lines[..3][..2] == lines[..2] && CountStreams(lines[..3]) == 1;
    assert lines[..|lines| - 1] == lines[..3];
  }

  // ---------------------------------------------------------------------------
  // get_sub_files

  /** `format!("{i}.srt")`. */
  function SubFileName(i: nat): string
  {
    Digits(i) + ".srt"
  }

  function SubFilePath(outputDir: Path, i: nat): (p: Path)
    ensures p == outputDir + [Normal(SubFileName(i))]
  {
    JoinRelative(outputDir, [Normal(SubFileName(i))]);
    Join(outputDir, [Normal(SubFileName(i))])
  }

  /** Stream `i` gets its own file name. */
  lemma SubFileNamesDistinct(i: nat, j: nat)
    requires SubFileName(i) == SubFileName(j)
    ensures i == j
  {
    assert Digits(i) == SubFileName(i)[..|SubFileName(i)| - 4];
    assert Digits(j) == SubFileName(j)[..|SubFileName(j)| - 4];
    DigitsInjective(i, j);
  }

  /** The streams below `n` that satisfy `keep`, in increasing order. */
  function Kept(n: nat, keep: nat -> bool): (r: seq<nat>)
    ensures forall j :: 0 <= j < |r| ==> r[j] < n && keep(r[j])
    ensures forall i :: 0 <= i < n && keep(i) ==> i in r
    ensures forall j, k :: 0 <= j < k < |r| ==> r[j] < r[k]
  {
    if n == 0 then [] else Kept(n - 1, keep) + (if keep(n - 1) then [n - 1] else [])
  }

  /** The streams whose subtitle file is missing, so that FFmpeg is run to extract them. */
  function ExtractionsRun(outputDir: Path, n: nat, present: set<Path>): (r: seq<nat>)
    ensures forall i :: 0 <= i < n ==> (i in r <==> SubFilePath(outputDir, i) !in present)
    ensures forall j :: 0 <= j < |r| ==> r[j] < n
  {
    Kept(n, (i: nat) => SubFilePath(outputDir, i) !in present)
  }

  /** The subtitle files of the streams `ks`, in the order of `ks`. */
  function PathsOf(outputDir: Path, ks: seq<nat>): (r: seq<Path>)
    ensures |r| == |ks| && forall j :: 0 <= j < |ks| ==> r[j] == SubFilePath(outputDir, ks[j])
  {
    seq(|ks|, j requires 0 <= j < |ks| => SubFilePath(outputDir, ks[j]))
  }

  /** Stream `i`'s file is in the list exactly when `i` is among the streams. */
  lemma PathsOfMembers(outputDir: Path, ks: seq<nat>, i: nat)
    ensures SubFilePath(outputDir, i) in PathsOf(outputDir, ks) <==> i in ks
  {
    var files := PathsOf(outputDir, ks);
    if SubFilePath(outputDir, i) in files {
      var j :| 0 <= j < |ks| && files[j] == SubFilePath(outputDir, i);
      assert files[j][|outputDir|] == Normal(SubFileName(ks[j]));
      SubFileNamesDistinct(ks[j], i);
    }
    if i in ks {
      var j :| 0 <= j < |ks| && ks[j] == i;
      assert files[j] == SubFilePath(outputDir, i);
    }
  }

  /** Every listed file belongs to a stream below `n`. */
  lemma PathsOfBelow(outputDir: Path, ks: seq<nat>, n: nat, q: Path)
    requires forall j :: 0 <= j < |ks| ==> ks[j] < n
    requires q in PathsOf(outputDir, ks)
    ensures exists i :: 0 <= i < n && q == SubFilePath(outputDir, i)
  {
    var j :| 0 <= j < |ks| && PathsOf(outputDir, ks)[j] == q;
    assert q == SubFilePath(outputDir, ks[j]);
  }

  /** Distinct streams give distinct files. */
  lemma PathsOfDistinct(outputDir: Path, ks: seq<nat>, j: nat, k: nat)
    requires forall a, b :: 0 <= a < b < |ks| ==> ks[a] < ks[b]
    requires j < k < |ks|
    ensures PathsOf(outputDir, ks)[j] != PathsOf(outputDir, ks)[k]
  {
    var files := PathsOf(outputDir, ks);
    if files[j] == files[k] {
      assert files[j][|outputDir|] == Normal(SubFileName(ks[j]));
      assert files[k][|outputDir|] == Normal(SubFileName(ks[k]));
      SubFileNamesDistinct(ks[j], ks[k]);
    }
  }

  /** The streams whose file `get_sub_files` lists: already present, or extracted successfully. */
  function Listed(outputDir: Path, n: nat, present: set<Path>, extracted: nat -> bool): seq<nat>
  {
    Kept(n, (i: nat) => SubFilePath(outputDir, i) in present || extracted(i))
  }

  /**
   * `get_sub_files`: the paths `outputDir/{i}.srt` for the streams ffprobe
   * reports, in stream order. `present` holds the files that already exist;
   * `extracted(i)` says whether FFmpeg's extraction of stream `i` succeeds.
   * A failed extraction is dropped from the list, not reported: `flat_map`
   * over the per-stream `Result`s keeps only the `Ok` values.
   */
  function GetSubFiles(outputDir: Path, probe: ProbeRun, present: set<Path>, extracted: nat -> bool)
    : (r: Result<seq<Path>, ProbeError>)
    ensures r.Err? <==> HowManySubs(probe).Err?
    ensures r.Err? ==> r.error == HowManySubs(probe).error
    ensures r.Ok? ==> forall i :: 0 <= i < HowManySubs(probe).value ==>
      (SubFilePath(outputDir, i) in r.value <==> SubFilePath(outputDir, i) in present || extracted(i))
    ensures r.Ok? ==> forall q :: q in r.value ==> exists i :: 0 <= i < HowManySubs(probe).value && q == SubFilePath(outputDir, i)
    ensures r.Ok? ==> forall j, k :: 0 <= j < k < |r.value| ==> r.value[j] != r.value[k]
    ensures r.Ok? ==> forall i :: 0 <= i < HowManySubs(probe).value ==>
      (i !in ExtractionsRun(outputDir, HowManySubs(probe).value, present) ==> SubFilePath(outputDir, i) in r.value)
  {
    match HowManySubs(probe)
    case Err(e) => Err(e)
    case Ok(n) =>
      var ks := Listed(outputDir, n, present, extracted);
      assert forall i :: 0 <= i < n ==> (SubFilePath(outputDir, i) in PathsOf(outputDir, ks) <==> i in ks) by {
        forall i | 0 <= i < n { PathsOfMembers(outputDir, ks, i); }
      }
      assert forall q :: q in PathsOf(outputDir, ks) ==> exists i :: 0 <= i < n && q == SubFilePath(outputDir, i) by {
        forall q | q in PathsOf(outputDir, ks) { PathsOfBelow(outputDir, ks, n, q); }
      }
      assert forall j, k :: 0 <= j < k < |ks| ==> PathsOf(outputDir, ks)[j] != PathsOf(outputDir, ks)[k] by {
        forall j: nat, k: nat | j < k < |ks| { PathsOfDistinct(outputDir, ks, j, k); }
      }
      Ok(PathsOf(outputDir, ks))
  }

  /** When every stream's file exists or is extracted, the result is `outputDir/0.srt`, `outputDir/1.srt`, ... in order. */
  lemma GetSubFilesAllStreams(outputDir: Path, probe: ProbeRun, present: set<Path>, extracted: nat -> bool)
    requires HowManySubs(probe).Ok?
    requires forall i :: 0 <= i < HowManySubs(probe).value ==> SubFilePath(outputDir, i) in present || extracted(i)
    ensures GetSubFiles(outputDir, probe, present, extracted).Ok?
    ensures var files := GetSubFiles(outputDir, probe, present, extracted).value;
      |files| == HowManySubs(probe).value && forall i :: 0 <= i < |files| ==> files[i] == SubFilePath(outputDir, i)
  {
    var n := HowManySubs(probe).value;
    AllKept(n, (i: nat) => SubFilePath(outputDir, i) in present || extracted(i));
  }

  lemma {:induction false} AllKept(n: nat, keep: nat -> bool)
    requires forall i :: 0 <= i < n ==> keep(i)
    ensures |Kept(n, keep)| == n && forall i :: 0 <= i < n ==> Kept(n, keep)[i] == i
  {
    if n > 0 {
      AllKept(n - 1, keep);
      assert keep(n - 1);
      var prev := Kept(n - 1, keep);
      assert Kept(n, keep) == prev + [n - 1];
      assert forall i :: 0 <= i < n - 1 ==> (prev + [n - 1])[i] == prev[i];
    }
  }

  // ---------------------------------------------------------------------------
  // clip and _clip

  datatype ClipError = EndNotAfterStart

  /** `_clip`'s output file: the base path's text, a dot, and the profile's extension. */
  function ClipOutfile(outfileBase: Path, profile: EncodingProfile): (r: string)
    ensures profile == AV1 ==> r == Render(outfileBase) + ".mkv"
    ensures profile == FLAC ==> r == Render(outfileBase) + ".flac"
  {
    Render(outfileBase) + "." + SettingsOf(profile).ext
  }

  /** `_clip`: the FFmpeg argument list that seeks to `start`, encodes `duration`, and writes the outfile. */
  function ClipArgs(infile: Path, outfileBase: Path, start: string, duration: string, profile: EncodingProfile)
    : (args: seq<string>)
    ensures |args| >= 7 && args[0] == "-ss" && args[1] == start && args[2] == "-i" && args[3] == Render(infile)
    ensures args[4] == "-t" && args[5] == duration && args[|args| - 1] == ClipOutfile(outfileBase, profile)
    ensures args[6..|args| - 1] == ArgsOf(SettingsOf(profile).params)
  {
    ["-ss", start, "-i", Render(infile), "-t", duration]
      + ArgsOf(SettingsOf(profile).params) + [ClipOutfile(outfileBase, profile)]
  }

  /** The `-ss` and `-t` strings of a clip denote its start and its length. */
  lemma ClipTimesMean(start: Timestamp, end: Timestamp)
    requires Canonical(start) && Canonical(end) && Less(start, end)
    ensures end.hours < 100 ==>
      && IsClockDuration(TimestampToString(start)) && ClockDurationMillis(TimestampToString(start)) == ToMillis(start)
      && IsClockDuration(TimestampToString(Sub(end, start)))
      && ToMillis(start) + ClockDurationMillis(TimestampToString(Sub(end, start))) == ToMillis(end)
  {
    if end.hours < 100 {
      LessIsEarlier(start, end);
      TimestampStringMeansOffset(start);
      TimestampStringMeansOffset(Sub(end, start));
    }
  }

  /**
   * `clip`: refuses a cue that does not end after it starts; otherwise the
   * FFmpeg arguments that cut from `start` for `end - start`.
   */
  function Clip(infile: Path, outfile: Path, start: Timestamp, end: Timestamp, profile: EncodingProfile)
    : (r: Result<seq<string>, ClipError>)
    requires Canonical(start) && Canonical(end)
    ensures r.Err? <==> !Less(start, end)
    ensures r.Ok? ==> |r.value| >= 7 && r.value[0] == "-ss" && r.value[2] == "-i" && r.value[4] == "-t"
    ensures r.Ok? ==> r.value[3] == Render(infile) && r.value[|r.value| - 1] == ClipOutfile(outfile, profile)
    ensures r.Ok? ==> r.value[6..|r.value| - 1] == ArgsOf(SettingsOf(profile).params)
    ensures r.Ok? && end.hours < 100 ==>
      && IsClockDuration(r.value[1]) && ClockDurationMillis(r.value[1]) == ToMillis(start)
      && IsClockDuration(r.value[5]) && ToMillis(start) + ClockDurationMillis(r.value[5]) == ToMillis(end)
  {
    if !Less(start, end) then Err(EndNotAfterStart)
    else
      var duration := Sub(end, start);
      ClipTimesMean(start, end);
      Ok(ClipArgs(infile, outfile, TimestampToString(start), TimestampToString(duration), profile))
  }
}
