/**
  * DateTime: instants as integer nanoseconds on the Unix time line, the
  * Add* helpers, the comparison against a textual date and the rendering of
  * an instant as RFC 3339 text.
  *
  * The textual layer (time.Format and time.Parse with the RFC 3339 layout)
  * is library code: it is carried by a `TimeFormat` value whose two
  * functions are the formatter and the parser, and `IsRfc3339` states the one
  * property of them the program relies on.
  */
module Dates {
  import opened Wrappers

  const Second: int := 1_000_000_000
  const Minute: int := 60 * Second
  const Hour: int := 60 * Minute

  /** Go's zero time.Time (January 1 of year 1, UTC), which time.Parse
    * returns on failure, on the Unix nanosecond time line. */
  const ZeroTime: int := -62_135_596_800 * Second

  const MinInt64: int := -0x8000_0000_0000_0000
  const MaxInt64: int := 0x7FFF_FFFF_FFFF_FFFF

  /** The instants RFC 3339 text can name: from January 1 of year 0000 up to,
    * not including, January 1 of year 10000, UTC. */
  const Rfc3339First: int := -62_167_219_200 * Second
  const Rfc3339End: int := 253_402_300_800 * Second

  /** A point in time, in nanoseconds since the Unix epoch. */
  datatype DateTime = DateTime(nanos: int) {

    /** dt.Add(time.Duration(hours) * time.Hour), with the product taken
      * in unbounded integers (see AddHoursAsWritten). */
    function AddHours(hours: int): DateTime {
      DateTime(nanos + hours * Hour)
    }

    /** dt.Add(time.Duration(minutes) * time.Minute), unbounded. */
    function AddMinutes(minutes: int): DateTime {
      DateTime(nanos + minutes * Minute)
    }

    /** dt.Add(time.Duration(seconds) * time.Second), unbounded. */
    function AddSeconds(seconds: int): DateTime {
      DateTime(nanos + seconds * Second)
    }

    /** AddHours exactly as Go evaluates it: time.Duration is a signed 64-bit
      * count of nanoseconds, so the product wraps around. */
    function AddHoursAsWritten(hours: int): DateTime
      requires MinInt64 <= hours <= MaxInt64
    {
      DateTime(nanos + WrapInt64(hours * Hour))
    }
  }

  /** Two's-complement wrap-around of an integer into int64. */
  function WrapInt64(x: int): (r: int)
    ensures MinInt64 <= r <= MaxInt64
    ensures (r - x) % 0x1_0000_0000_0000_0000 == 0
    ensures MinInt64 <= x <= MaxInt64 ==> r == x
  {
    var m := 0x1_0000_0000_0000_0000;
    var r := (x - MinInt64) % m + MinInt64;
    assert r - x == -((x - MinInt64) / m) * m;
    r
  }

  /** Saturation into int64: what time.Time.Sub returns when the difference
    * does not fit a Duration. */
  function SaturateInt64(x: int): (r: int)
    ensures MinInt64 <= r <= MaxInt64
    ensures MinInt64 <= x <= MaxInt64 ==> r == x
    ensures x < MinInt64 ==> r == MinInt64
    ensures x > MaxInt64 ==> r == MaxInt64
  {
    if x < MinInt64 then MinInt64 else if x > MaxInt64 then MaxInt64 else x
  }

  /** utils.Now: the clock reading (a parameter here) plus zero seconds. */
  function Now(clock: int): DateTime {
    DateTime(clock).AddSeconds(0)
  }

  /** The formatter and parser of the RFC 3339 layout. */
  datatype TimeFormat = TimeFormat(format: int -> string, parse: string -> Option<int>)

  /** An instant truncated to whole seconds: what RFC 3339 text without a
    * fractional part can carry. */
  function TruncateToSecond(t: int): int {
    t - t % Second
  }

  /** Whether an instant has a year RFC 3339 text can write (0000 to 9999). */
  predicate InRfc3339Range(t: int) {
    Rfc3339First <= t < Rfc3339End
  }

  /** The round trip the RFC 3339 layout guarantees: parsing a formatted
    * instant of years 0000 to 9999 gives the instant back, truncated to the
    * second. Outside those years time.Parse rejects the text. */
  ghost predicate IsRfc3339(f: TimeFormat) {
    forall t :: InRfc3339Range(t) ==> f.parse(f.format(t)) == Some(TruncateToSecond(t))
  }

  /** DateTime.ToString: the instant rendered with the RFC 3339 layout. */
  function ToString(dt: DateTime, f: TimeFormat): string {
    f.format(dt.nanos)
  }

  /** time.Parse, falling back to the zero time when the text does not parse. */
  function ParseOrZero(text: string, f: TimeFormat): int {
    f.parse(text).GetOr(ZeroTime)
  }

  /** NowIsAfterOrEqualCompareDate: now is not before the parsed date. */
  function NowIsAfterOrEqualCompareDate(dateToCompare: string, now: DateTime, f: TimeFormat): (r: bool)
    ensures f.parse(dateToCompare).None? ==> (r <==> now.nanos >= ZeroTime)
  {
    !(now.nanos < ParseOrZero(dateToCompare, f))
  }

  /** GetTimeRemaining: the parsed date minus now, as a Duration: time.Sub
    * saturates at the int64 bounds. */
  function GetTimeRemaining(futureDateToCompare: string, now: DateTime, f: TimeFormat): int {
    SaturateInt64(ParseOrZero(futureDateToCompare, f) - now.nanos)
  }

  // ---------------------------------------------------------------------
  // Lemmas
  // ---------------------------------------------------------------------

  /** Now adds nothing to the clock. */
  lemma NowIsClock(clock: int)
    ensures Now(clock).nanos == clock
  {
  }

  /** The three Add functions are one: hours and minutes are multiples of seconds. */
  lemma AddUnitsAgree(dt: DateTime, n: int)
    ensures dt.AddHours(n) == dt.AddSeconds(3600 * n)
    ensures dt.AddMinutes(n) == dt.AddSeconds(60 * n)
    ensures dt.AddSeconds(n).nanos - dt.nanos == n * Second
  {
  }

  /** Minutes and hours may be added in either order. */
  lemma AddMinutesHoursCommute(dt: DateTime, minutes: int, hours: int)
    ensures dt.AddMinutes(minutes).AddHours(hours) == dt.AddHours(hours).AddMinutes(minutes)
    ensures dt.AddMinutes(minutes).AddHours(hours).nanos == dt.nanos + 60 * minutes * Second + 3600 * hours * Second
  {
  }

  /** A larger argument never gives an earlier instant. */
  lemma AddIsMonotone(dt: DateTime, a: int, b: int)
    requires a <= b
    ensures dt.AddHours(a).nanos <= dt.AddHours(b).nanos
    ensures dt.AddMinutes(a).nanos <= dt.AddMinutes(b).nanos
    ensures dt.AddSeconds(a).nanos <= dt.AddSeconds(b).nanos
  {
  }

  /** Within the range where the product fits in int64, Go's AddHours agrees
    * with the unbounded one. */
  lemma AddHoursAsWrittenInRange(dt: DateTime, hours: int)
    requires MinInt64 <= hours * Hour <= MaxInt64
    ensures MinInt64 <= hours <= MaxInt64
    ensures dt.AddHoursAsWritten(hours) == dt.AddHours(hours)
  {
  }

  /** Go's AddHours is not monotone: 2562048 hours overflow int64
    * nanoseconds and land almost 300 years in the past. */
  lemma AddHoursAsWrittenOverflows(dt: DateTime)
    ensures dt.AddHoursAsWritten(2_562_048).nanos < dt.AddHoursAsWritten(0).nanos
  {
    assert 2_562_048 * Hour == 9_223_372_800_000_000_000;
    assert WrapInt64(2_562_048 * Hour) == -9_223_371_273_709_551_616;
  }

  /** Remaining time is non-positive exactly when now has reached the date. */
  lemma TimeRemainingAgreesWithCompare(date: string, now: DateTime, f: TimeFormat)
    ensures GetTimeRemaining(date, now, f) <= 0 <==> NowIsAfterOrEqualCompareDate(date, now, f)
  {
  }

  /** A date rendered by ToString compares as the instant it was rendered
    * from, truncated to the second. */
  lemma CompareRenderedDate(dt: DateTime, now: DateTime, f: TimeFormat)
    requires IsRfc3339(f) && InRfc3339Range(dt.nanos)
    ensures NowIsAfterOrEqualCompareDate(ToString(dt, f), now, f) <==> now.nanos >= TruncateToSecond(dt.nanos)
    ensures GetTimeRemaining(ToString(dt, f), now, f) == SaturateInt64(TruncateToSecond(dt.nanos) - now.nanos)
  {
    assert f.parse(f.format(dt.nanos)) == Some(TruncateToSecond(dt.nanos));
  }

  /** Truncation loses less than a second and never moves an instant later. */
  lemma TruncateToSecondBounds(t: int)
    ensures TruncateToSecond(t) <= t < TruncateToSecond(t) + Second
    ensures TruncateToSecond(t) % Second == 0
  {
  }
}
