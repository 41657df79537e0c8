# magiclip, modelled in Dafny

magiclip cuts short video clips out of films by their subtitles. It reads
video paths on standard input. For each video it probes the subtitle streams
with `ffprobe`, extracts each stream into a cache directory under
`/tmp/tmp.Z3fu02h0P5`, and parses the `.srt` files. Every cue becomes a
search label, and the labels are offered for fuzzy selection. For each
selected cue, FFmpeg encodes the stretch of the video between the cue's
start and end under an encoding profile (AV1 or FLAC). A subtitle database
entry records when a video was indexed; `has_changed` tells whether the
video was touched since then.

The model covers the decisions the program makes between those external
steps:

- `sub.dfy`: staleness of a database entry. This is a nanosecond `ctime`/`mtime`
  with checked 64-bit arithmetic, compared against the scan time. The
  `anyhow!(ctime > 0)` lines build an error and drop it, so negative
  timestamps pass through.
- `timestamps.dfy`: the serde mirror of `srtlib::Timestamp`. It covers its
  getters, its derived lexicographic order, and the offset arithmetic behind
  `Timestamp::sub`.
- `ffmpeg.dfy`:
  - the encoding-profile table and `settings_to_args`;
  - the `HH:MM:SS.mmm` rendering handed to FFmpeg;
  - the `[STREAM]` count of an `ffprobe` run;
  - the subtitle files `get_sub_files` returns;
  - the argument list of `clip`/`_clip`.
- `util.dfy`: `escape_for_unix_filename`, as a loop, proved equal to a
  per-character rewrite.
- `driver.dfy`: the steps of `main`:
  - a video's cache location, with the root directory encoded as `!…root…!`,
    and its decoding back;
  - the search labels and the label-to-cue map (a later cue with the same
    label replaces an earlier one);
  - the lookup of the selected labels;
  - the output file name;
  - the result of each selected clip, and the output files each clip leaves
    for the clips after it.
- `paths.dfy`, `text.dfy`, `fmt.dfy`, `ints.dfy`, `wrappers.dfy`: the parts of
  Rust's `std::path`, `str`, `format!` and `i64` the program relies on.
  Paths are sequences of components. Joining a path that holds a root
  starts over at that root, as `PathBuf::push` does.

A video path under a directory literally named `!…root…!` does not
round-trip. Decoding turns that directory into the root, and the clip then
reads the wrong file. `Driver.MarkerInPathMisdecodes` gives such an input.
Every other well-formed path round-trips (`Driver.InfileOfSubFile`).

The call sites that panic (`expect`, the `IMPOSSIBLE` lookup) are
preconditions of the members that model them. Those members are the
`Parent` of a subtitle file and the presence of each selected label in the
map. The lookup can in fact fail, as "Left out" explains: a line break in a
video's path splits its labels across two selector lines. For the table lookup in `_clip`, `Ffmpeg.SettingsOf` proves that it
cannot fail.

The clips of one run are not independent. The output file name depends on
the cue's text and start time, the video's stem and the profile, and not on
the subtitle stream. Two streams of one video that hold the same cue
therefore have two labels but one output file (`Driver.TwoStreamsOneOutfile`,
`Driver.TwoStreamsTwoLabels`). When both are selected, the second FFmpeg run
meets an existing file. FFmpeg does not overwrite it, and the scope guard
of `_clip` then removes the file that the first clip reported as written
(`Driver.SharedOutfileCollides`). Selections with pairwise different output
files do not affect each other (`Driver.RunBatchIsolation`).

## Model

| member | source | states |
|---|---|---|
| Sub.RelevantTimestamp | src/sub.rs:81-87 | Ok exactly when both `ctime` and `mtime` fit in i64 nanoseconds (seconds·10⁹ + nanos, checked). The value is then the later of the two. Otherwise the error is the overflow error. |
| Sub.HasChanged | src/sub.rs:76-121 | A missing file or a non-file is `NoLongerExists`, and no error happens before that check. A missing scan time or unreadable metadata gives its own error. Overflow is an error exactly when a timestamp does not fit. `Yes` holds exactly when the relevant timestamp is ≥ the scan time; `No` exactly when it is below. |
| Sub.NoIsMonotone | src/sub.rs:116-120 | An entry unchanged at scan time t stays unchanged for every later scan time. |
| Sub.YesIsAntitone | src/sub.rs:116-120 | An entry changed at scan time t stays changed for every earlier scan time. |
| Sub.EqualTimeIsChange | src/sub.rs:116-120 | A file whose last change equals the scan time counts as changed (`>=`). |
| Sub.NegativeTimestampsClassified | src/sub.rs:84-86 | Negative change times are not rejected: they are compared like any other value. |
| Sub.FarFutureOverflows | src/sub.rs:82-83 | A change time whose nanosecond count exceeds i64 is reported as overflow. |
| Timestamps.New | src/sub.rs:288-295 | `get` of a new timestamp returns the four arguments. |
| Timestamps.GettersAgree | src/sub.rs:297-315 | Each getter returns its component, and the getters rebuild the same timestamp. |
| Timestamps.FromMirror | src/sub.rs:318-323 | The conversion to `srtlib::Timestamp` keeps all four components. |
| Timestamps.LessStrictTotal | src/sub.rs:272-285 | The derived order is irreflexive, transitive, total and asymmetric. |
| Timestamps.LessIsEarlier | src/sub.rs:272-285 | On timestamps in clock ranges, the derived order is the order of their millisecond offsets (both directions). |
| Timestamps.LessNotEarlierOffCanonical | src/sub.rs:272-285 | Outside clock ranges the two orders differ: 0:0:200 sorts before 0:1:0 but is later. |
| Timestamps.FromMillis | src/ffmpeg.rs:148-149 | Every offset below 256 hours has a timestamp in clock ranges with exactly that offset. |
| Timestamps.ToMillisBound | src/ffmpeg.rs:148-149 | A timestamp in clock ranges lies below 256 hours. |
| Timestamps.Sub | src/ffmpeg.rs:148-149 | `end - start` is in clock ranges, positive, and adds to `start` to give `end`. |
| Ffmpeg.ProfileName | src/main.rs:134 | The profile's name in the output file is its variant name: `AV1` exactly for AV1, `FLAC` exactly for FLAC. |
| Ffmpeg.SettingsOf | src/ffmpeg.rs:165-167 | Every profile is in `ENCODING_PROFILES`, so the `expect` never fires. |
| Ffmpeg.ProfileExtensions | src/ffmpeg.rs:31-62 | AV1 writes `mkv`, FLAC writes `flac`. |
| Ffmpeg.FlacArgs | src/ffmpeg.rs:52-58 | The FLAC arguments are `-c:v none -c:a flac -ac 2`. |
| Ffmpeg.SettingsToArgs | src/ffmpeg.rs:200-209 | The loop's result is the pairs flattened in order, each empty value dropped. |
| Ffmpeg.NonEmptyValuesAppend | src/ffmpeg.rs:202-207 | The non-empty-value count of a concatenation is the sum of the counts. |
| Ffmpeg.ArgsLength | src/ffmpeg.rs:200-209 | The argument list holds one flag per pair plus one entry per non-empty value. |
| Ffmpeg.ArgsLayout | src/ffmpeg.rs:202-207 | Pair i's flag sits after all earlier arguments. Its value follows exactly when it is non-empty, and the next pair starts after it. |
| Ffmpeg.TimestampToString | src/ffmpeg.rs:257-260 | For fields below 100 (ms below 1000): 12 characters, `:` at 2 and 5, `.` at 8, each field zero-padded to 2 or 3 digits. |
| Ffmpeg.TimestampStringMeansOffset | src/ffmpeg.rs:217-260 | For hours, minutes and seconds below 100 and milliseconds below 1000, FFmpeg reads the string back as exactly the timestamp's millisecond offset. |
| Ffmpeg.TimestampToStringInjective | src/ffmpeg.rs:257-260 | Distinct timestamps in that range render differently. |
| Ffmpeg.TimestampToStringExample | src/ffmpeg.rs:266-272 | (1, 2, 3, 50) renders as `01:02:03.050`. |
| Ffmpeg.HowManySubs | src/ffmpeg.rs:115-132 | A spawn failure or an unsuccessful exit is an error. A successful run gives `Ok` with exactly the number of lines whose trimmed text is `[STREAM]`, at most one per stdout line. |
| Ffmpeg.CountStreamsBound | src/ffmpeg.rs:123-131 | The count never exceeds the number of lines. |
| Ffmpeg.CountStreamsCounts | src/ffmpeg.rs:123-131 | The count is the number of lines whose trimmed text is `[STREAM]`. |
| Ffmpeg.HowManySubsExample | src/ffmpeg.rs:126-131 | Undecodable and other lines are skipped; surrounding whitespace is ignored. |
| Ffmpeg.SubFilePath | src/ffmpeg.rs:98 | Stream i's file is `<output_dir>/<i>.srt`. |
| Ffmpeg.SubFileNamesDistinct | src/ffmpeg.rs:98 | Distinct streams get distinct file names. |
| Ffmpeg.Kept | src/ffmpeg.rs:96-112 | The kept streams are exactly those below n that satisfy the filter, in increasing order. |
| Ffmpeg.ExtractionsRun | src/ffmpeg.rs:99-108 | FFmpeg is run for stream i exactly when its file is not present. |
| Ffmpeg.PathsOf | src/ffmpeg.rs:96-112 | One file per listed stream, in stream order. |
| Ffmpeg.PathsOfMembers | src/ffmpeg.rs:96-112 | Stream i's file is listed exactly when i is among the streams. |
| Ffmpeg.PathsOfBelow | src/ffmpeg.rs:96-112 | Every listed file belongs to a stream below the count. |
| Ffmpeg.PathsOfDistinct | src/ffmpeg.rs:96-112 | No file is listed twice. |
| Ffmpeg.GetSubFiles | src/ffmpeg.rs:95-113 | Errors exactly when the probe does. Stream i's file is in the result exactly when it was present or its extraction succeeded; failed extractions are dropped silently. A stream with no extraction run (its file present) is always listed. Nothing else is listed, and there are no duplicates. |
| Ffmpeg.GetSubFilesAllStreams | src/ffmpeg.rs:95-113 | When every stream succeeds, the result is `0.srt … (n-1).srt` in order. |
| Ffmpeg.AllKept | src/ffmpeg.rs:96-112 | A filter that keeps everything keeps 0 … n-1 in order. |
| Ffmpeg.ClipTimesMean | src/ffmpeg.rs:147-154 | When the cue ends below 100 hours, the `-ss` string denotes the cue's start offset, and start plus the `-t` duration is the cue's end offset. |
| Ffmpeg.ClipOutfile | src/ffmpeg.rs:168 | The output file is the base path's text with `.mkv` for AV1 and `.flac` for FLAC. |
| Ffmpeg.ClipArgs | src/ffmpeg.rs:175-187 | `-ss <start> -i <infile> -t <duration>`, then exactly the profile's encoder arguments, then the output file. |
| Ffmpeg.Clip | src/ffmpeg.rs:140-198 | Refused exactly when the end is not after the start. Otherwise the argument list is `-ss <start> -i <infile> -t <duration>`, then the profile's encoder arguments, then `<outfile>.<ext>`. Below 100 hours its times mean the cue's start and length. |
| Util.EscapeForUnixFilename | src/util.rs:3-18 | The loop computes the mapping pipeline followed by the `\n`, then `\r` replacements. |
| Util.ReplaceEachLineBreaks | src/util.rs:14-16 | The loop's two passes are the line-break replacement. |
| Util.ReplaceLineBreaksAppend | src/util.rs:14-16 | The line-break replacement works piecewise over concatenation. |
| Util.ReplaceLineBreaksChar | src/util.rs:4-16 | For one character, the three passes produce its per-character rewrite. |
| Util.ReplaceLineBreaksMapChars | src/util.rs:4-16 | Mapping then replacing equals the per-character rewrite of non-initial characters. |
| Util.EscapedPerChar | src/util.rs:3-18 | The escape is the per-character rewrite, with the leading `-` rule on the first character. |
| Util.EscapeFromFacts | src/util.rs:4-16 | The rewrite leaves no special or line-break character, keeps a leading `-` out, and grows by 2 per line break. |
| Util.EscapedIsSafe | src/util.rs:3-18 | The result has none of `/ * ? : \| ' "`, NUL, `\n` or `\r`. It never starts with `-`. It is empty only for empty input. Its length is the input's plus 2 per line break. |
| Util.EscapeFromSafe | src/util.rs:4-16 | Safe text is left unchanged. |
| Util.EscapedIdempotent | src/util.rs:3-18 | Escaping twice equals escaping once. |
| Util.EscapedExample | src/util.rs:3-18 | `-a/b\nc` becomes `_a_b___c`. |
| Text.ReplaceAppend | src/util.rs:15 | `replace` works piecewise over concatenation. |
| Text.ReplaceSingle | src/util.rs:15 | On one character, `replace` substitutes exactly when it is the pattern. |
| Text.ReplaceByChar | src/main.rs:83 | Replacing by one character keeps the length and rewrites exactly the pattern's positions. |
| Text.ReplaceRemoves | src/util.rs:15 | Afterwards the pattern is absent; the length changes by (|rep|-1) per occurrence. |
| Text.ReplaceAbsent | src/util.rs:15 | Replacing an absent character changes nothing. |
| Text.Take | src/main.rs:123-128 | `take(n)` keeps a prefix of the string: all of it when it has at most n characters, otherwise exactly its first n. |
| Fmt.DigitChar | src/ffmpeg.rs:259 | The digit character denotes its value. |
| Fmt.Digits | src/ffmpeg.rs:98 | The numeral is non-empty and all digits. |
| Fmt.Zeros | src/ffmpeg.rs:259 | k zero characters. |
| Fmt.ZeroPad | src/ffmpeg.rs:259 | Padded numerals consist of digits. |
| Fmt.ValueDigits | src/ffmpeg.rs:98 | A numeral denotes its number. |
| Fmt.ValueLeadingZero | src/ffmpeg.rs:259 | A leading zero does not change the value. |
| Fmt.ValueZeros | src/ffmpeg.rs:259 | Leading zeros do not change the value. |
| Fmt.ValueZeroPad | src/ffmpeg.rs:259 | A zero-padded numeral denotes its number. |
| Fmt.DigitsLength | src/ffmpeg.rs:259 | Numbers below 10, 100 and 1000 have at most 1, 2 and 3 digits. |
| Fmt.ZeroPadWidth | src/ffmpeg.rs:259 | `{:02}` below 100 and `{:03}` below 1000 have exactly the width. |
| Fmt.DigitsInjective | src/ffmpeg.rs:98 | Distinct numbers have distinct numerals. |
| Paths.JoinRelative | src/main.rs:33-45 | Joining a path without a root appends its components. |
| Paths.CollectWellFormed | src/main.rs:36-44 | Collecting a well-formed component list gives the same path. |
| Paths.JoinFromLastRoot | src/main.rs:110-117 | A root inside the joined components discards everything before it. |
| Paths.Parent | src/main.rs:104-107 | A parent exists exactly when the path ends in a non-root component, which it then drops. |
| Paths.FileName | src/ffmpeg.rs:68-73 | The file name exists exactly when the last component is a normal name, and is that name. |
| Paths.LastDot | src/main.rs:129-132 | The index found is a dot with no dot after it; with no index there is no dot. |
| Paths.FileStem | src/main.rs:129-132 | A stem exists exactly when a file name does. It is the whole name when the name has no dot after its first character. Otherwise it is the non-empty part before the last dot. |
| Paths.JoinWithSlashContains | src/main.rs:84 | Every character of a component appears in the joined text. |
| Paths.RenderContains | src/main.rs:84 | Every character of every component appears in the rendered path. |
| Paths.JoinWithSlashSnoc | src/main.rs:84 | Joining one more component appends a `/` and that component's text. |
| Paths.RenderSnoc | src/main.rs:84 | Rendering a path with a component pushed gives the path's text, a `/`, and the component's text. |
| Paths.StripPrefix | src/main.rs:108 | Succeeds exactly when the base is a component-wise prefix; the base plus the rest is the path. |
| Driver.EncodeRoot | src/main.rs:36-44 | Same length, no root left; each root becomes `!…root…!` and every other component stays. |
| Driver.CachePath | src/main.rs:33-51 | The cache path is `OUTPUT_DIR` followed by the encoded video path, and it always has a parent. |
| Driver.SubtitleDir | src/ffmpeg.rs:68-73 | For a video path ending in a name, the subtitle directory is exactly its cache path. |
| Driver.DecodeEachCollect | src/main.rs:109-117 | Decoding a root-free path without the marker gives it back; a leading marker becomes the root. |
| Driver.DecodeRoot | src/main.rs:109-117 | A path with neither root nor marker decodes to itself. A path whose only marker is in front decodes to the root followed by the rest. |
| Driver.DecodeEncode | src/main.rs:109-117 | Decoding undoes encoding on every well-formed path without a `!…root…!` component. |
| Driver.InfileOf | src/main.rs:104-117 | Errs exactly when the subtitle file's directory is not under `OUTPUT_DIR`; otherwise decodes the rest. |
| Driver.InfileOfSubFile | src/main.rs:104-117 | Every extracted subtitle file leads back to its own video. |
| Driver.DecodeRestartsAtMarker | src/main.rs:110-117 | A marker in the middle of the path restarts the decoded path at the root. |
| Driver.MarkerInPathMisdecodes | src/main.rs:110-117 | `/home/!…root…!/x.mkv` is decoded as `/x.mkv`. |
| Driver.SearchLabel | src/main.rs:81-87 | The label starts with the cue text (line breaks as `↳`), ` (`, the subtitle file's path and `, [`, and it ends with `])`. |
| Driver.SearchLabelOneLine | src/main.rs:81-87 | The label starts with the cue text with every line break shown as `↳`, so the text part is one line. |
| Driver.SearchLabelPathLineBreak | src/main.rs:84 | A line break in any component of the subtitle file's path appears in the label. |
| Driver.VideoLineBreakSplitsLabel | src/main.rs:84 | For the video `/a<line break>b.mkv`, every cue's label holds a line break. |
| Driver.CollectByKeyKeys | src/main.rs:77-91 | The map's keys are exactly the keys of the items. |
| Driver.CollectByKeyValues | src/main.rs:77-91 | Each value is an item whose key is its key. |
| Driver.CollectByKeyLast | src/main.rs:77-91 | The value under a key is the last item with that key. |
| Driver.CollectByKeySize | src/main.rs:77-91 | The map has no more entries than there are items. |
| Driver.CollectByKeyCollapse | src/main.rs:77-91 | Two items with one key leave the map strictly smaller than the list. |
| Driver.SearchStrings | src/main.rs:77-91 | The labels are exactly those of the cues, and each maps to a cue of the list that renders to it. |
| Driver.SearchStringsLastWins | src/main.rs:77-91 | Of cues sharing a label, the last one is kept. |
| Driver.SearchStringsCollapse | src/main.rs:77-91 | Cues sharing a label lose entries: fewer labels than cues. |
| Driver.ResolveSelection | src/main.rs:92-99 | One cue per selected label, in selection order, each the map's entry for it. |
| Driver.ResolveSelectionLabels | src/main.rs:92-99 | Each resolved cue renders to exactly the selected label and comes from the cue list. |
| Driver.OutputLabel | src/main.rs:121-135 | The name starts with at most 64 characters of cue text, then ` (` and the video's stem (or `…empty…`). It ends with `, [<start>], p=<profile>)`. |
| Driver.OutFile | src/main.rs:118-135 | The outfile is one escaped name inside `OUTPUT_DIR/!out`. The name is non-empty, has no `/` or other special character, and does not start with `-`. |
| Driver.Target | src/ffmpeg.rs:168 | The file a clip writes exists exactly when the subtitle file decodes to a video. |
| Driver.ProcessItem | src/main.rs:103-150 | A cue outside `OUTPUT_DIR` fails first. Success holds exactly when decoding works, the directory is created, the cue ends after it starts, and FFmpeg succeeds on `clip`'s arguments given whether the output file already exists. The result is then the outfile. A failed `create_dir_all` gives `CreateDirFailed` before FFmpeg is considered. A reversed cue is refused after the directory is created. Only a cue that reaches FFmpeg can yield FFmpeg's error, and then it does when FFmpeg fails. |
| Driver.FilesAfter | src/ffmpeg.rs:168-197 | After a clip, no other output file has changed. A clip that succeeded leaves its output file. When FFmpeg could not be run or failed, the scope guard leaves no output file there, even one an earlier clip wrote. A clip that stopped before FFmpeg changes nothing. |
| Driver.RunInOrder | src/main.rs:101-151 | One result per item, in order. Each step sees the state the steps before it left. |
| Driver.RunInOrderKeeps | src/main.rs:101-151 | A property of the state that every step keeps holds after all of them. |
| Driver.RunInOrderLast | src/main.rs:101-151 | The final state is the state after the last step, applied to the state the earlier steps left. |
| Driver.RunBatch | src/main.rs:101-151 | One result per selection, in order. Each result is that selection's clip, given whether its output file exists after the selections before it. |
| Driver.RunBatchFiles | src/main.rs:101-151 | The output files after a batch are those the last selection leaves, applied to the files the earlier selections left. |
| Driver.RunBatchKeeps | src/main.rs:101-151 | An output file that no selection writes is present after the batch exactly when it was present before. |
| Driver.RunBatchIsolation | src/main.rs:101-151 | When no two selections write the same output file, each result is what that selection yields alone on the starting files. |
| Driver.RunBatchTwo | src/main.rs:101-151 | In a batch of two, the second sees the files the first left, and the final files are what the second leaves on those. |
| Driver.ProcessItemOverExisting | src/ffmpeg.rs:175-193 | If FFmpeg never overwrites, a clip that reaches it while its output file exists fails with FFmpeg's error. |
| Driver.SharedOutfileCollides | src/ffmpeg.rs:171-193 | If FFmpeg never overwrites and two selections share an output file, then when the first succeeds, the second fails. Its scope guard then removes the file the first reported. |
| Driver.TwoStreamsOneOutfile | src/main.rs:118-135 | Two streams of one video whose cues have the same text and times have different subtitle files but write the same output file. |
| Driver.SearchLabelsDiffer | src/main.rs:84 | One cue in two files whose rendered paths differ and have the same length gets two labels. |
| Driver.SubtitleLabelsDiffer | src/main.rs:84 | One cue in the files of two different streams in one directory, with file names of one width, gets two labels. |
| Driver.TwoStreamsTwoLabels | src/main.rs:84 | The two subtitle files of that example give two labels, so both can be selected. |
| Driver.ClipSelection | src/main.rs:77-151 | One result per selected label. The i-th selection resolves to a cue of the list that renders to its label. Its result is that cue's clip, given whether its output file exists after the first i selections. |

## Left out

- Running `ffprobe`, `ffmpeg` and `fzf` is not modelled. Their outcomes are inputs: `ProbeRun`, the `extracted` predicate, `World.runFfmpeg`, and the selected labels.
- Of the file system, only the set of output files the clipping loop writes is modelled. `exists`/`is_file`/`metadata` become `FileStatus`. `create_dir_all` becomes `World.createDirAll`, a fixed answer per directory; in `get_sub_files_in_dir` the call is left out.
- FFmpeg's behaviour on an existing output file is an input: `World.runFfmpeg` receives whether the file exists. `_clip` passes no `-y` and runs FFmpeg with standard input closed, so FFmpeg does not overwrite (`Driver.KeepsExisting`). This is a property of FFmpeg, which is not part of this model, so it is stated as a premise of `Driver.SharedOutfileCollides` and not assumed elsewhere.
- Driver.FilesAfter: the scope guard's `remove_file` ignores its result (src/ffmpeg.rs:172). The model takes the removal as successful, and takes a successful FFmpeg run as leaving its output file.
- `get_sub_files_in_dir`: the directory walk, symlinks and `read_dir` are left out. Only the file case is modelled (`Driver.SubtitleDir` feeding `Ffmpeg.GetSubFiles`).
- `canonicalize` and reading standard input are left out. A video path is taken as already canonical, and the same path stands for the raw line.
- `SubDB::load` and all serde (de)serialisation are left out; `chrono`'s `timestamp_nanos_opt` becomes an `Option<int64>` scan time.
- `srtlib` is left out: parsing `.srt` files, `Subtitles::parse_from_file`, and the `Display` of a timestamp. `Display` is a function parameter `show`.
- Printing errors and results, and the `partition_result` of the input stage, are left out.
- Timestamps.Sub: models `srtlib`'s `Timestamp::sub` as millisecond arithmetic on timestamps in clock ranges. Out-of-range timestamps are outside the model.
- Ffmpeg.Clip: requires both timestamps in clock ranges (minutes and seconds below 60, milliseconds below 1000). This assumes `srtlib`'s parser yields only such timestamps; the parser is not part of this model, and the timestamp mirror itself accepts any components. The meaning of the `-ss` and `-t` strings is stated only when the end lies below 100 hours (`end.hours < 100`); from 100 hours on, `{:02}` widens the hour field.
- Driver.ProcessItem: requires cue times in clock ranges, under the same assumption about the external parser.
- Driver.RunBatch: requires cue times in clock ranges, under the same assumption about the external parser.
- Driver.ClipSelection: requires cue times in clock ranges, under the same assumption about the external parser.
- Driver.ResolveSelection: requires every selected label to be in the map, which excludes the `IMPOSSIBLE` panic. The panic is reachable. A label holds the subtitle file's path, and that path holds the video's path (`Driver.VideoLineBreakSplitsLabel`). The selector receives the labels joined by line breaks (src/fzf.rs:13), so one label can arrive as two lines, and selecting either line panics.
- Driver.ClipSelection: the same requirement on the selected labels, for the same reason.
- Ffmpeg.TimestampToString: says nothing about hours or fields of 100 or more, where `{:02}` widens the field.
- Ffmpeg.TimestampStringMeansOffset: requires every field below 100 (milliseconds below 1000). From 100 on, `{:02}` widens the field, and reading the wider string back is not modelled.
- Ffmpeg.ClipTimesMean: states the meaning of the `-ss` and `-t` strings only when the cue ends below 100 hours, for the same reason.
- Paths are sequences of components rather than OS strings. Non-UTF-8 names and `to_string_lossy` replacement characters are not modelled.
- `ffprobe`'s standard output is given already split into lines. An undecodable line is `None`.
- `Key::new` is the `Sub.Key` constructor. `_index_with_text` is `todo!()` in the source and is not modelled.
