/** csc::date: a time of day packed as milliseconds, the unit structs that
    build one, and DateTime, a calendar date paired with a time. */
module Dates {
  import opened Wrappers
  import Text

  // The std::ratio constants of Time.
  const MsPerSecond: nat := 1000
  const SecondsPerMinute: nat := 60
  const MinutesPerHour: nat := 60
  const HoursPerDay: nat := 24
  const MsPerMinute: nat := 60000
  const MsPerHour: nat := 3600000
  const MsPerDay: nat := 86400000

  const U32Modulus: nat := 0x1_0000_0000
  const U8Modulus: nat := 0x100

  /** std::uint32_t */
  type U32 = n: nat | n < 0x1_0000_0000

  /** std::uint8_t */
  type U8 = n: nat | n < 0x100

  /** The ratios are products of one another, as the static_asserts check. */
  lemma RatioProducts()
    ensures MsPerMinute == SecondsPerMinute * MsPerSecond
    ensures MsPerHour == MinutesPerHour * MsPerMinute
    ensures MsPerDay == HoursPerDay * MsPerHour
  {
  }

  // ---------------------------------------------------------------- Time

  /** Time: milliseconds since midnight, held in a std::uint32_t. Only the
      raw-count constructor keeps it below one day. */
  datatype Time = Time(ms: U32) {
    predicate InDay() {
      ms < MsPerDay
    }
  }

  /** Time(std::uint32_t ms): out_of_range for a count of one day or more. */
  function TimeOf(ms: U32): (r: Result<Time>)
    ensures r.Ok? <==> ms < MsPerDay
    ensures r.Ok? ==> r.value.ms == ms && r.value.InDay()
    ensures r.Err? ==> r.error == OutOfRange("Time out of range")
  {
    if ms >= MsPerDay then Err(OutOfRange("Time out of range")) else Ok(Time(ms))
  }

  /** The duration hour:minute:second.milli in milliseconds, unbounded. */
  function PartsTotal(hour: nat, minute: nat, second: nat, milli: nat): nat {
    hour * MsPerHour + minute * MsPerMinute + second * MsPerSecond + milli
  }

  /** Time(hour, minute, second, milli): the sum is formed in std::size_t and
      stored in the std::uint32_t field without any range check. Reducing
      modulo 2^64 and then 2^32 is reducing modulo 2^32, so the stored count
      is the exact sum modulo 2^32. */
  method TimeOfParts(hour: nat, minute: nat, second: nat, milli: nat) returns (t: Time)
    ensures t.ms == PartsTotal(hour, minute, second, milli) % U32Modulus
    ensures PartsTotal(hour, minute, second, milli) < U32Modulus ==>
              t.ms == PartsTotal(hour, minute, second, milli)
  {
    var total := hour * MsPerHour;
    total := total + minute * MsPerMinute;
    total := total + second * MsPerSecond;
    total := total + milli;
    t := Time(total % U32Modulus);
  }

  predicate TimeLess(a: Time, b: Time) { a.ms < b.ms }
  predicate TimeLessEq(a: Time, b: Time) { a.ms <= b.ms }
  predicate TimeGreater(a: Time, b: Time) { a.ms > b.ms }
  predicate TimeGreaterEq(a: Time, b: Time) { a.ms >= b.ms }
  predicate TimeEqual(a: Time, b: Time) { a.ms == b.ms }

  /** The Time comparisons are the integer order on the count: <= is a total
      order, == is identity, and the other three derive from them. */
  lemma TimeOrder(a: Time, b: Time, c: Time)
    ensures TimeEqual(a, b) <==> a == b
    ensures TimeLessEq(a, a)
    ensures TimeLessEq(a, b) && TimeLessEq(b, a) ==> a == b
    ensures TimeLessEq(a, b) && TimeLessEq(b, c) ==> TimeLessEq(a, c)
    ensures TimeLessEq(a, b) || TimeLessEq(b, a)
    ensures TimeLess(a, b) <==> TimeLessEq(a, b) && a != b
    ensures TimeGreater(a, b) <==> TimeLess(b, a)
    ensures TimeGreaterEq(a, b) <==> TimeLessEq(b, a)
  {
  }

  // ----------------------------------------------------------- TimeSplit

  /** Time::TimeSplit. The source declares all four fields std::uint8_t. */
  datatype TimeSplit = TimeSplit(hours: U8, minutes: U8, seconds: U8, milliseconds: U8) {
    /** total_time_ms() */
    function TotalTimeMs(): nat {
      hours * MsPerHour + minutes * MsPerMinute + seconds * MsPerSecond + milliseconds
    }
  }

  /** The decomposition TimeSplit(ms) computes, each part narrowed to uint8_t. */
  function SplitOf(ms: U32): (s: TimeSplit)
    ensures s.hours < U8Modulus && s.minutes < U8Modulus
    ensures s.seconds < U8Modulus && s.milliseconds < U8Modulus
    ensures ms < MsPerDay ==>
              && s.hours == ms / MsPerHour && s.hours < HoursPerDay
              && s.minutes < MinutesPerHour && s.seconds < SecondsPerMinute
              && s.milliseconds == ms % MsPerSecond % U8Modulus
  {
    TimeSplit((ms / MsPerHour) % U8Modulus,
              (ms % MsPerHour / MsPerMinute) % U8Modulus,
              (ms % MsPerMinute / MsPerSecond) % U8Modulus,
              (ms % MsPerSecond) % U8Modulus)
  }

  /** Reducing by an hour and then by a minute is reducing by a minute, and
      likewise for a minute and then a second. */
  lemma ModOfMod(ms: nat)
    ensures ms % MsPerHour % MsPerMinute == ms % MsPerMinute
    ensures ms % MsPerMinute % MsPerSecond == ms % MsPerSecond
  {
    var hours, inHour := ms / MsPerHour, ms % MsPerHour;
    var minutes, inMinute := inHour / MsPerMinute, inHour % MsPerMinute;
    assert ms == (hours * 60 + minutes) * MsPerMinute + inMinute;
    DivisionUnique(ms, MsPerMinute, hours * 60 + minutes, inMinute);
    var wholeMinutes, rest := ms / MsPerMinute, ms % MsPerMinute;
    var seconds, inSecond := rest / MsPerSecond, rest % MsPerSecond;
    assert ms == (wholeMinutes * 60 + seconds) * MsPerSecond + inSecond;
    DivisionUnique(ms, MsPerSecond, wholeMinutes * 60 + seconds, inSecond);
  }

  /** Quotient and remainder are the only pair that rebuilds n. */
  lemma DivisionUnique(n: nat, d: nat, q: nat, r: nat)
    requires 0 <= r < d && n == q * d + r
    ensures n % d == r
  {
    var k, m := n / d, n % d;
    assert n == k * d + m;
    assert (q - k) * d == m - r;
    SmallMultiple(q - k, d);
  }

  /** The only multiple of d strictly between -d and d is 0. */
  lemma SmallMultiple(x: int, d: int)
    requires d > 0 && -d < x * d < d
    ensures x == 0
  {
  }

  /** The TimeSplit constructor: peels off hours, minutes and seconds, reducing
      the remaining count after each, and narrows every part to uint8_t. */
  method NewTimeSplit(ms: U32) returns (split: TimeSplit)
    ensures split == SplitOf(ms)
  {
    ModOfMod(ms);
    var rest: nat := ms;
    var hours := rest / MsPerHour;
    rest := rest % MsPerHour;
    var minutes := rest / MsPerMinute;
    rest := rest % MsPerMinute;
    var seconds := rest / MsPerSecond;
    rest := rest % MsPerSecond;
    split := TimeSplit(hours % U8Modulus, minutes % U8Modulus,
                       seconds % U8Modulus, rest % U8Modulus);
  }

  /** Every count is its hours, minutes, seconds and leftover milliseconds. */
  lemma Decompose(ms: nat)
    ensures ms == (ms / MsPerHour) * MsPerHour + (ms % MsPerHour / MsPerMinute) * MsPerMinute
                  + (ms % MsPerMinute / MsPerSecond) * MsPerSecond + ms % MsPerSecond
  {
    ModOfMod(ms);
    var inHour, inMinute := ms % MsPerHour, ms % MsPerMinute;
    assert ms == (ms / MsPerHour) * MsPerHour + inHour;
    assert inHour == (inHour / MsPerMinute) * MsPerMinute + inHour % MsPerMinute;
    assert inMinute == (inMinute / MsPerSecond) * MsPerSecond + inMinute % MsPerSecond;
  }

  /** total_time_ms() gives back the count of an in-day Time exactly when the
      millisecond part survives the uint8_t field, i.e. is below 256. */
  lemma SplitTotalRoundTrip(ms: U32)
    requires ms < MsPerDay
    ensures SplitOf(ms).TotalTimeMs() == ms <==> ms % MsPerSecond < U8Modulus
  {
    Decompose(ms);
    var h, m, sec, milli := ms / MsPerHour, ms % MsPerHour / MsPerMinute,
                            ms % MsPerMinute / MsPerSecond, ms % MsPerSecond;
    assert h < 24 && m < 60 && sec < 60;
    assert SplitOf(ms) == TimeSplit(h, m, sec, milli % U8Modulus);
    assert SplitOf(ms).TotalTimeMs() == ms - milli + milli % U8Modulus;
  }

  /** With the bounds of a clock reading, splitting the composed count gives
      the parts back, except the milliseconds, which lose all but 8 bits. */
  lemma SplitOfParts(hour: nat, minute: nat, second: nat, milli: nat)
    requires hour < HoursPerDay && minute < MinutesPerHour
    requires second < SecondsPerMinute && milli < MsPerSecond
    ensures PartsTotal(hour, minute, second, milli) < MsPerDay
    ensures SplitOf(PartsTotal(hour, minute, second, milli))
            == TimeSplit(hour, minute, second, milli % U8Modulus)
  {
    var ms := PartsTotal(hour, minute, second, milli);
    var rest := minute * MsPerMinute + second * MsPerSecond + milli;
    assert ms == hour * MsPerHour + rest && rest < MsPerHour;
    assert ms / MsPerHour == hour && ms % MsPerHour == rest;
    var low := second * MsPerSecond + milli;
    assert rest == minute * MsPerMinute + low && low < MsPerMinute;
    assert rest / MsPerMinute == minute;
    assert ms % MsPerMinute == low;
    assert low / MsPerSecond == second && low % MsPerSecond == milli;
    assert ms % MsPerSecond == milli;
  }

  /** A Time of 999 ms splits into 231 ms: the uint8_t field drops the high bits. */
  lemma SplitTruncatesMilliseconds()
    ensures SplitOf(999).milliseconds == 231
    ensures SplitOf(999).TotalTimeMs() != 999
  {
  }

  // ----------------------------------------------------------- Unit structs

  /** Milli, Second, Minute, Hour: a std::uint32_t count of one unit. */
  datatype Milli = Milli(value: U32)
  datatype Second = Second(value: U32)
  datatype Minute = Minute(value: U32)
  datatype Hour = Hour(value: U32)

  /** count * unit in uint32_t arithmetic, passed to the range-checked Time
      constructor. The conversions are declared noexcept, so in the source
      the out_of_range ends the program; here it is the Err value. */
  function UnitToTime(count: U32, unitMs: nat): (r: Result<Time>)
    ensures count * unitMs < U32Modulus ==>
              && (r.Ok? <==> count * unitMs < MsPerDay)
              && (r.Ok? ==> r.value.ms == count * unitMs)
    ensures r.Ok? ==> r.value.ms == count * unitMs % U32Modulus
  {
    TimeOf(count * unitMs % U32Modulus)
  }

  /** Milli -> Time: the count itself. */
  function MilliToTime(x: Milli): (r: Result<Time>)
    ensures r.Ok? <==> x.value < MsPerDay
    ensures r.Ok? ==> r.value.ms == x.value
  {
    UnitToTime(x.value, 1)
  }

  /** Second -> Time: 1000 ms per second. */
  function SecondToTime(x: Second): (r: Result<Time>)
    ensures x.value * MsPerSecond < U32Modulus ==>
              && (r.Ok? <==> x.value * MsPerSecond < MsPerDay)
              && (r.Ok? ==> r.value.ms == x.value * MsPerSecond)
  {
    UnitToTime(x.value, MsPerSecond)
  }

  /** Minute -> Time: 60 000 ms per minute. */
  function MinuteToTime(x: Minute): (r: Result<Time>)
    ensures x.value * MsPerMinute < U32Modulus ==>
              && (r.Ok? <==> x.value * MsPerMinute < MsPerDay)
              && (r.Ok? ==> r.value.ms == x.value * MsPerMinute)
  {
    UnitToTime(x.value, MsPerMinute)
  }

  /** Hour -> Time: 3 600 000 ms per hour. */
  function HourToTime(x: Hour): (r: Result<Time>)
    ensures x.value * MsPerHour < U32Modulus ==>
              && (r.Ok? <==> x.value * MsPerHour < MsPerDay)
              && (r.Ok? ==> r.value.ms == x.value * MsPerHour)
  {
    UnitToTime(x.value, MsPerHour)
  }

  /** Hour{1194} is 4 298 400 000 ms, which wraps in uint32_t to 3 432 704 ms
      and so passes the range check as a time just before 1 a.m. */
  lemma HourConversionWraps()
    ensures HourToTime(Hour(1194)) == Ok(Time(3432704))
  {
  }

  // ------------------------------------------------------ operator/ overloads

  function HourMinute(h: Hour, m: Minute): (r: Minute)
    ensures h.value * MinutesPerHour + m.value < U32Modulus ==>
              r.value == h.value * MinutesPerHour + m.value
  {
    Minute((h.value * MinutesPerHour + m.value) % U32Modulus)
  }

  function MinuteSecond(m: Minute, s: Second): (r: Second)
    ensures m.value * SecondsPerMinute + s.value < U32Modulus ==>
              r.value == m.value * SecondsPerMinute + s.value
  {
    Second((m.value * SecondsPerMinute + s.value) % U32Modulus)
  }

  function SecondMilli(s: Second, x: Milli): (r: Milli)
    ensures s.value * MsPerSecond + x.value < U32Modulus ==>
              r.value == s.value * MsPerSecond + x.value
  {
    Milli((s.value * MsPerSecond + x.value) % U32Modulus)
  }

  /** Hour / Second goes through milliseconds: h * 3 600 000 / 1000 + s. */
  function HourSecond(h: Hour, s: Second): (r: Second)
    ensures h.value * 3600 + s.value < U32Modulus ==> r.value == h.value * 3600 + s.value
  {
    Second((h.value * MsPerHour / MsPerSecond + s.value) % U32Modulus)
  }

  function MinuteMilli(m: Minute, x: Milli): (r: Milli)
    ensures m.value * MsPerMinute + x.value < U32Modulus ==>
              r.value == m.value * MsPerMinute + x.value
  {
    Milli((m.value * MsPerMinute + x.value) % U32Modulus)
  }

  function HourMilli(h: Hour, x: Milli): (r: Milli)
    ensures h.value * MsPerHour + x.value < U32Modulus ==>
              r.value == h.value * MsPerHour + x.value
  {
    Milli((h.value * MsPerHour + x.value) % U32Modulus)
  }

  /** Composing with / and then converting is the same as converting the sum
      of the two durations, for every overload, as long as nothing wraps. */
  lemma CompositionAddsDurations(h: Hour, m: Minute, s: Second, x: Milli)
    requires PartsTotal(h.value, m.value, s.value, x.value) < U32Modulus
    ensures MinuteToTime(HourMinute(h, m)) == TimeOf(h.value * MsPerHour + m.value * MsPerMinute)
    ensures SecondToTime(MinuteSecond(m, s)) == TimeOf(m.value * MsPerMinute + s.value * MsPerSecond)
    ensures MilliToTime(SecondMilli(s, x)) == TimeOf(s.value * MsPerSecond + x.value)
    ensures SecondToTime(HourSecond(h, s)) == TimeOf(h.value * MsPerHour + s.value * MsPerSecond)
    ensures MilliToTime(MinuteMilli(m, x)) == TimeOf(m.value * MsPerMinute + x.value)
    ensures MilliToTime(HourMilli(h, x)) == TimeOf(h.value * MsPerHour + x.value)
  {
  }

  // --------------------------------------------------------------- DateTime

  /** std::chrono::year_month_day as a (year, month, day) triple. */
  datatype Date = Date(year: nat, month: nat, day: nat)

  /** year_month_day ordering: year, then month, then day. */
  predicate DateLess(a: Date, b: Date) {
    || a.year < b.year
    || (a.year == b.year && a.month < b.month)
    || (a.year == b.year && a.month == b.month && a.day < b.day)
  }

  predicate DateLessEq(a: Date, b: Date) {
    DateLess(a, b) || a == b
  }

  /** The date comparison is a strict total order. */
  lemma DateOrder(a: Date, b: Date, c: Date)
    ensures !DateLess(a, a)
    ensures DateLess(a, b) && DateLess(b, c) ==> DateLess(a, c)
    ensures DateLess(a, b) || a == b || DateLess(b, a)
    ensures DateLessEq(a, b) <==> !DateLess(b, a)
  {
  }

  /** csc::date::DateTime */
  datatype DateTime = DateTime(date: Date, time: Time)

  // The five comparison operators join the date comparison and the time
  // comparison with a logical AND, as the source writes them.

  predicate DateTimeLess(a: DateTime, b: DateTime) {
    DateLess(a.date, b.date) && TimeLess(a.time, b.time)
  }

  predicate DateTimeLessEq(a: DateTime, b: DateTime) {
    DateLessEq(a.date, b.date) && TimeLessEq(a.time, b.time)
  }

  predicate DateTimeGreater(a: DateTime, b: DateTime) {
    DateLess(b.date, a.date) && TimeGreater(a.time, b.time)
  }

  predicate DateTimeGreaterEq(a: DateTime, b: DateTime) {
    DateLessEq(b.date, a.date) && TimeGreaterEq(a.time, b.time)
  }

  predicate DateTimeEqual(a: DateTime, b: DateTime) {
    a.date == b.date && TimeEqual(a.time, b.time)
  }

  /** == holds exactly when both the date and the time are the same. */
  lemma DateTimeEqualIsIdentity(a: DateTime, b: DateTime)
    ensures DateTimeEqual(a, b) <==> a == b
  {
  }

  /** > and >= are the converses of < and <=. */
  lemma DateTimeConverse(a: DateTime, b: DateTime)
    ensures DateTimeGreater(a, b) <==> DateTimeLess(b, a)
    ensures DateTimeGreaterEq(a, b) <==> DateTimeLessEq(b, a)
  {
  }

  /** <= is a partial order: reflexive, antisymmetric, transitive. */
  lemma DateTimeLessEqPartialOrder(a: DateTime, b: DateTime, c: DateTime)
    ensures DateTimeLessEq(a, a)
    ensures DateTimeLessEq(a, b) && DateTimeLessEq(b, a) ==> a == b
    ensures DateTimeLessEq(a, b) && DateTimeLessEq(b, c) ==> DateTimeLessEq(a, c)
  {
  }

  /** < is a strict partial order: irreflexive, transitive, hence asymmetric,
      and it implies <=. */
  lemma DateTimeLessStrictOrder(a: DateTime, b: DateTime, c: DateTime)
    ensures !DateTimeLess(a, a)
    ensures DateTimeLess(a, b) && DateTimeLess(b, c) ==> DateTimeLess(a, c)
    ensures DateTimeLess(a, b) ==> !DateTimeLess(b, a)
    ensures DateTimeLess(a, b) ==> DateTimeLessEq(a, b) && a != b
  {
  }

  /** On one day, two different times are neither < nor > each other. */
  lemma SameDateIncomparable(a: DateTime, b: DateTime)
    requires a.date == b.date
    ensures !DateTimeLess(a, b) && !DateTimeGreater(a, b)
  {
  }

  /** Two date-times with the same time of day are never < each other. */
  lemma SameTimeNeverLess(a: DateTime, b: DateTime)
    requires a.time == b.time
    ensures !DateTimeLess(a, b)
  {
  }

  /** The order is not total: an earlier day at a later hour and a later day
      at an earlier hour are not related by <= either way. */
  lemma DateTimeOrderNotTotal()
    ensures exists a: DateTime, b: DateTime :: !DateTimeLessEq(a, b) && !DateTimeLessEq(b, a)
  {
    var a := DateTime(Date(2023, 1, 1), Time(MsPerHour));
    var b := DateTime(Date(2023, 1, 2), Time(0));
    assert !DateTimeLessEq(a, b) && !DateTimeLessEq(b, a);
  }

  /** The lexicographic order (date first, time on equal dates). */
  predicate LexicographicLess(a: DateTime, b: DateTime) {
    DateLess(a.date, b.date) || (a.date == b.date && TimeLess(a.time, b.time))
  }

  /** The componentwise < is strictly finer than the lexicographic one: every
      pair it orders is ordered the same way lexicographically, not conversely. */
  lemma LessRefinesLexicographic(a: DateTime, b: DateTime)
    ensures DateTimeLess(a, b) ==> LexicographicLess(a, b)
    ensures exists c: DateTime, d: DateTime :: LexicographicLess(c, d) && !DateTimeLess(c, d)
  {
    var c := DateTime(Date(2023, 1, 1), Time(0));
    var d := DateTime(Date(2023, 1, 1), Time(1));
    assert LexicographicLess(c, d) && !DateTimeLess(c, d);
  }

  // -------------------------------------------------------------- Rendering

  /** {:%F}: year padded to four digits, month and day to two. */
  function DateText(d: Date): string {
    Text.ZeroPad(Text.NatText(d.year), 4) + "-" + Text.ZeroPad(Text.NatText(d.month), 2)
      + "-" + Text.ZeroPad(Text.NatText(d.day), 2)
  }

  /** Time::to_string: "{}h {}min {}s {}ms" of the (uint8_t) split. */
  function TimeText(t: Time): string {
    var s := SplitOf(t.ms);
    Text.NatText(s.hours) + "h " + Text.NatText(s.minutes) + "min "
      + Text.NatText(s.seconds) + "s " + Text.NatText(s.milliseconds) + "ms"
  }

  /** DateTime::to_string: the date, a space, the time. */
  function DateTimeText(dt: DateTime): string {
    DateText(dt.date) + " " + TimeText(dt.time)
  }
}
