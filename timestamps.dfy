/**
 * Subtitle timestamps: the serde mirror of `srtlib::Timestamp` in src/sub.rs
 * (four fixed-width components, derived lexicographic order) and the
 * millisecond arithmetic that `srtlib`'s subtraction performs.
 */
module Timestamps {
  import opened Ints

  datatype Timestamp = Timestamp(hours: uint8, minutes: uint8, seconds: uint8, milliseconds: uint16)

  /** `Timestamp::new`. */
  function New(hours: uint8, minutes: uint8, seconds: uint8, milliseconds: uint16): (t: Timestamp)
    ensures Get(t) == (hours, minutes, seconds, milliseconds)
  {
    Timestamp(hours, minutes, seconds, milliseconds)
  }

  /** `Timestamp::get`: the four components in declaration order. */
  function Get(t: Timestamp): (uint8, uint8, uint8, uint16)
  {
    (t.hours, t.minutes, t.seconds, t.milliseconds)
  }

  function GetHours(t: Timestamp): uint8 { Get(t).0 }
  function GetMinutes(t: Timestamp): uint8 { Get(t).1 }
  function GetSeconds(t: Timestamp): uint8 { Get(t).2 }
  function GetMilliseconds(t: Timestamp): uint16 { Get(t).3 }

  /** Each getter returns the component it names, and `get` determines the timestamp. */
  lemma GettersAgree(t: Timestamp)
    ensures GetHours(t) == t.hours && GetMinutes(t) == t.minutes
    ensures GetSeconds(t) == t.seconds && GetMilliseconds(t) == t.milliseconds
    ensures New(GetHours(t), GetMinutes(t), GetSeconds(t), GetMilliseconds(t)) == t
  {
  }

  /** `From<Timestamp> for srtlib::Timestamp`: rebuilds the library value from `get`. */
  function FromMirror(t: Timestamp): (r: Timestamp)
    ensures Get(r) == Get(t)
  {
    var (h, m, s, ms) := Get(t);
    New(h, m, s, ms)
  }

  /** The derived `Ord`: hours first, then minutes, seconds and milliseconds. */
  predicate Less(a: Timestamp, b: Timestamp)
  {
    || a.hours < b.hours
    || (a.hours == b.hours && a.minutes < b.minutes)
    || (a.hours == b.hours && a.minutes == b.minutes && a.seconds < b.seconds)
    || (a.hours == b.hours && a.minutes == b.minutes && a.seconds == b.seconds && a.milliseconds < b.milliseconds)
  }

  /** The derived order is a strict total order. */
  lemma LessStrictTotal(a: Timestamp, b: Timestamp, c: Timestamp)
    ensures !Less(a, a)
    ensures Less(a, b) && Less(b, c) ==> Less(a, c)
    ensures a == b || Less(a, b) || Less(b, a)
    ensures !(Less(a, b) && Less(b, a))
  {
  }

  /** Components in their clock ranges, as a parsed subtitle time has them. */
  predicate Canonical(t: Timestamp)
  {
    t.minutes < 60 && t.seconds < 60 && t.milliseconds < 1000
  }

  /** The offset the timestamp stands for, in milliseconds. */
  function ToMillis(t: Timestamp): nat
  {
    t.hours * 3_600_000 + t.minutes * 60_000 + t.seconds * 1000 + t.milliseconds
  }

  /** On canonical timestamps the derived order is the order of the offsets. */
  lemma LessIsEarlier(a: Timestamp, b: Timestamp)
    requires Canonical(a) && Canonical(b)
    ensures Less(a, b) <==> ToMillis(a) < ToMillis(b)
  {
  }

  /** Off the clock ranges the derived order and the offsets disagree. */
  lemma LessNotEarlierOffCanonical()
    ensures Less(Timestamp(0, 0, 200, 0), Timestamp(0, 1, 0, 0))
    ensures ToMillis(Timestamp(0, 0, 200, 0)) > ToMillis(Timestamp(0, 1, 0, 0))
  {
  }

  /** Offsets a canonical timestamp can express: fewer than 256 hours. */
  const MillisBound: nat := 256 * 3_600_000

  /** The canonical timestamp of an offset. */
  function FromMillis(n: nat): (t: Timestamp)
    requires n < MillisBound
    ensures Canonical(t) && ToMillis(t) == n
  {
    var h, belowHour := n / 3_600_000, n % 3_600_000;
    var m, belowMinute := belowHour / 60_000, belowHour % 60_000;
    var s, ms := belowMinute / 1000, belowMinute % 1000;
    assert h * 3_600_000 <= n;
    assert h < 256;
    Timestamp(h, m, s, ms)
  }

  lemma ToMillisBound(t: Timestamp)
    requires Canonical(t)
    ensures ToMillis(t) < MillisBound
  {
  }

  /** `srtlib`'s `Timestamp::sub` on canonical times, as arithmetic on offsets. */
  function Sub(end: Timestamp, start: Timestamp): (d: Timestamp)
    requires Canonical(end) && Canonical(start) && Less(start, end)
    ensures Canonical(d) && 0 < ToMillis(d) && ToMillis(start) + ToMillis(d) == ToMillis(end)
  {
    LessIsEarlier(start, end);
    ToMillisBound(end);
    FromMillis(ToMillis(end) - ToMillis(start))
  }
}
