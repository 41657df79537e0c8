/**
 * The subtitle database entry of src/sub.rs and its staleness oracle,
 * `Entry::has_changed`: is the video behind a cached entry gone, changed
 * since it was scanned, or unchanged?
 */
module Sub {
  import opened Wrappers
  import opened Ints
  import opened Paths
  import opened Timestamps

  /** `Key::new` is the constructor: the key owns a copy of the video path. */
  datatype Key = Key(videoPath: Path)

  datatype SubPath = InternalFFmpeg(streamId: uint32) | External(path: Path)

  /** One parsed cue (`srtlib::Subtitle`; `num` is a `usize`). */
  datatype Subtitle = Subtitle(num: nat, startTime: Timestamp, endTime: Timestamp, text: string)

  /**
   * `time` is the scan time as `DateTime::timestamp_nanos_opt` gives it:
   * nanoseconds since the epoch, `None` when they do not fit an i64.
   */
  datatype Metadata = Metadata(videoPath: Path, time: Option<int64>)

  datatype Entry = Entry(meta: Metadata, subFiles: seq<(SubPath, seq<Subtitle>)>)

  datatype EntryChanged = NoLongerExists | Yes | No

  /** The four i64 fields of `MetadataExt` the oracle reads. */
  datatype Stat = Stat(ctime: int64, ctimeNsec: int64, mtime: int64, mtimeNsec: int64)

  /**
   * What the file system answers about the video path: `exists()` (found),
   * `is_file()`, and `metadata()` (`None` when that call fails).
   */
  datatype FileStatus = FileStatus(found: bool, isFile: bool, stat: Option<Stat>)

  datatype StaleError =
    | ScanTimeOutOfRange  // the entry's scan time has no i64 nanosecond count
    | MetadataUnreadable  // `metadata()` failed on an existing regular file
    | NanosOverflow       // seconds * 10^9 + nanoseconds left the i64 range

  const NanosPerSecond: int64 := 1_000_000_000

  /** `sec.checked_mul(10^9).and_then(|ts| ts.checked_add(nsec))`. */
  function CheckedNanos(sec: int64, nsec: int64): Option<int64>
  {
    match CheckedMul(sec, NanosPerSecond)
    case None => None
    case Some(ts) => CheckedAdd(ts, nsec)
  }

  /** Both steps of the nanosecond conversion stay inside the i64 range. */
  predicate NanosFit(sec: int, nsec: int)
  {
    InI64(sec * NanosPerSecond) && InI64(sec * NanosPerSecond + nsec)
  }

  /** The later of change time and modification time, in exact nanoseconds. */
  function LatestNanos(st: Stat): int
  {
    var c := st.ctime * NanosPerSecond + st.ctimeNsec;
    var m := st.mtime * NanosPerSecond + st.mtimeNsec;
    if c >= m then c else m
  }

  /**
   * `relevant_timestamp`: change time and modification time in nanoseconds,
   * whichever is later, or an overflow error. Non-positive times are accepted:
   * the source builds an error value for them and discards it.
   */
  function RelevantTimestamp(st: Stat): (r: Result<int64, StaleError>)
    ensures r.Ok? <==> NanosFit(st.ctime, st.ctimeNsec) && NanosFit(st.mtime, st.mtimeNsec)
    ensures r.Ok? ==> r.value == LatestNanos(st)
    ensures r.Err? ==> r.error == NanosOverflow
  {
    match CheckedNanos(st.ctime, st.ctimeNsec)
    case None => Err(NanosOverflow)
    case Some(ctime) =>
      match CheckedNanos(st.mtime, st.mtimeNsec)
      case None => Err(NanosOverflow)
      case Some(mtime) => Ok(if ctime >= mtime then ctime else mtime)
  }

  /** `Entry::has_changed`, with the file system's answers as the input `fs`. */
  function HasChanged(e: Entry, fs: FileStatus): (r: Result<EntryChanged, StaleError>)
    // a missing path or a non-file is reported before anything can fail
    ensures !fs.found || !fs.isFile ==> r == Ok(NoLongerExists)
    ensures r.Err? ==> fs.found && fs.isFile
    ensures fs.found && fs.isFile && e.meta.time.None? ==> r == Err(ScanTimeOutOfRange)
    ensures fs.found && fs.isFile && e.meta.time.Some? && fs.stat.None? ==> r == Err(MetadataUnreadable)
    ensures r == Err(NanosOverflow) <==>
      && fs.found && fs.isFile && e.meta.time.Some? && fs.stat.Some?
      && !(NanosFit(fs.stat.value.ctime, fs.stat.value.ctimeNsec) && NanosFit(fs.stat.value.mtime, fs.stat.value.mtimeNsec))
    // a change at or after the scan instant counts as a change
    ensures r == Ok(Yes) <==>
      && fs.found && fs.isFile && e.meta.time.Some? && fs.stat.Some?
      && NanosFit(fs.stat.value.ctime, fs.stat.value.ctimeNsec) && NanosFit(fs.stat.value.mtime, fs.stat.value.mtimeNsec)
      && LatestNanos(fs.stat.value) >= e.meta.time.value
    ensures r == Ok(No) <==>
      && fs.found && fs.isFile && e.meta.time.Some? && fs.stat.Some?
      && NanosFit(fs.stat.value.ctime, fs.stat.value.ctimeNsec) && NanosFit(fs.stat.value.mtime, fs.stat.value.mtimeNsec)
      && LatestNanos(fs.stat.value) < e.meta.time.value
  {
    if !fs.found || !fs.isFile then Ok(NoLongerExists)
    else match e.meta.time
      case None => Err(ScanTimeOutOfRange)
      case Some(scanNanos) =>
        match fs.stat
        case None => Err(MetadataUnreadable)
        case Some(st) =>
          match RelevantTimestamp(st)
          case Err(err) => Err(err)
          case Ok(fsNanos) => if fsNanos >= scanNanos then Ok(Yes) else Ok(No)
  }

  /** The entry with its scan time replaced. */
  function WithScanTime(e: Entry, time: Option<int64>): Entry
  {
    e.(meta := e.meta.(time := time))
  }

  /** Unchanged at scan time `t` means unchanged at every later scan time, with the same file metadata. */
  lemma NoIsMonotone(e: Entry, fs: FileStatus, t: int64, t': int64)
    requires HasChanged(WithScanTime(e, Some(t)), fs) == Ok(No)
    requires t <= t'
    ensures HasChanged(WithScanTime(e, Some(t')), fs) == Ok(No)
  {
  }

  /** Changed at scan time `t` means changed at every earlier scan time. */
  lemma YesIsAntitone(e: Entry, fs: FileStatus, t: int64, t': int64)
    requires HasChanged(WithScanTime(e, Some(t)), fs) == Ok(Yes)
    requires t' <= t
    ensures HasChanged(WithScanTime(e, Some(t')), fs) == Ok(Yes)
  {
  }

  /** A file last touched exactly at the scan instant counts as changed. */
  lemma EqualTimeIsChange(e: Entry, st: Stat)
    requires NanosFit(st.ctime, st.ctimeNsec) && NanosFit(st.mtime, st.mtimeNsec)
    requires e.meta.time == Some(LatestNanos(st))
    ensures HasChanged(e, FileStatus(true, true, Some(st))) == Ok(Yes)
  {
  }

  /** Timestamps before the epoch are classified like any other. */
  lemma NegativeTimestampsClassified(e: Entry)
    requires e.meta.time == Some(0)
    ensures HasChanged(e, FileStatus(true, true, Some(Stat(-5, 0, -7, 999_999_999)))) == Ok(No)
  {
  }

  /** A change time past the year 2262 has no i64 nanosecond count: the oracle reports overflow. */
  lemma FarFutureOverflows(e: Entry)
    requires e.meta.time.Some?
    ensures HasChanged(e, FileStatus(true, true, Some(Stat(10_000_000_000, 0, 0, 0)))) == Err(NanosOverflow)
  {
  }
}
