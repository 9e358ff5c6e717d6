// The proleptic Gregorian calendar and POSIX time (openbsd-compat/libtls/a_time_posix.c).
//
// The conversions are written over 64-bit and 32-bit integer types, so that every
// intermediate value is shown to stay in range. They are proved against a calendar that
// counts days by adding up the lengths of years and months.
module Calendar {
  import opened Common
  import opened Modular

  newtype int32 = x: int | -0x8000_0000 <= x < 0x8000_0000
  newtype int64 = x: int | -0x8000_0000_0000_0000 <= x < 0x8000_0000_0000_0000

  const INT64_MAX: int64 := 0x7fff_ffff_ffff_ffff
  const INT64_MIN: int64 := -0x8000_0000_0000_0000
  const SECS_PER_HOUR: int64 := 3600
  const SECS_PER_DAY: int64 := 86400
  const MIN_POSIX_TIME: int64 := -62167219200
  const MAX_POSIX_TIME: int64 := 253402300799

  // C's division and remainder, which round toward zero.
  function CDiv(a: int64, b: int64): (q: int64)
    requires 0 < b
    ensures a >= 0 ==> q as int == a as int / b as int
    ensures a < 0 ==> q as int == -(-(a as int) / b as int)
  {
    if a >= 0 then (a as int / b as int) as int64 else (-(-(a as int) / b as int)) as int64
  }

  function CMod(a: int64, b: int64): (r: int64)
    requires 0 < b
    ensures if a >= 0 then 0 <= r < b && r as int == a as int % b as int
            else -b < r <= 0 && r as int == -(-(a as int) % b as int)
  {
    if a >= 0 then (a as int % b as int) as int64 else (-(-(a as int) % b as int)) as int64
  }

  datatype Utc = Utc(year: int64, month: int64, day: int64, hours: int32, minutes: int32, seconds: int32)

  // struct tm, the fields this code uses.
  datatype Tm = Tm(sec: int32, min: int32, hour: int32, mday: int32, mon: int32, year: int32)

  /*** The conversions ***/

  predicate IsValidDate(year: int64, month: int64, day: int64) {
    if day < 1 || month < 1 || year < 0 || year > 9999 then false
    else if month in {1, 3, 5, 7, 8, 10, 12} then day <= 31
    else if month in {4, 6, 9, 11} then day <= 30
    else if month == 2 then
      day <= (if (CMod(year, 4) == 0 && CMod(year, 100) != 0) || CMod(year, 400) == 0 then 29 else 28)
    else false
  }

  predicate IsValidTime(hours: int32, minutes: int32, seconds: int32) {
    hours >= 0 && minutes >= 0 && seconds >= 0 && hours <= 23 && minutes <= 59 && seconds <= 59
  }

  predicate IsValidPosixTime(time: int64) {
    MIN_POSIX_TIME <= time <= MAX_POSIX_TIME
  }

  predicate ValidUtc(u: Utc) {
    IsValidDate(u.year, u.month, u.day) && IsValidTime(u.hours, u.minutes, u.seconds)
  }

  // The era of 400 years that a year lies in.
  function EraOf(year: int64): (e: int64)
    requires -1 <= year <= 9999
    ensures e as int == year as int / 400
  {
    CDiv(if year >= 0 then year else year - 399, 400)
  }

  // The day, counted from March 1, on which a month counted from March starts.
  function MonthStart(m: int64): (d: int64)
    requires 0 <= m <= 11
    ensures d as int == (153 * m as int + 2) / 5 && 0 <= d <= 337
  {
    CDiv(153 * m + 2, 5)
  }

  function PosixDays(year0: int64, month: int64, day: int64): (days: int64)
    requires IsValidDate(year0, month, day)
    ensures days as int == MarchYears(year0 as int - if month <= 2 then 1 else 0)
                           + MonthStart(if month > 2 then month - 3 else month + 9) as int + day as int - 1 - 719468
    ensures -1000000 <= days <= 10000000
  {
    var year := if month <= 2 then year0 - 1 else year0;
    var era := EraOf(year);
    var yearOfEra := year - era * 400;
    var dayOfYear := MonthStart(if month > 2 then month - 3 else month + 9) + day - 1;
    var dayOfEra := yearOfEra * 365 + CDiv(yearOfEra, 4) - CDiv(yearOfEra, 100) + dayOfYear;
    EraSplit(year as int);
    era * 146097 + dayOfEra - 719468
  }

  // posix_time_from_utc
  function PosixTimeFromUtc(u: Utc): Option<int64> {
    if !ValidUtc(u) then None
    else
      Some(PosixDays(u.year, u.month, u.day) * SECS_PER_DAY + u.hours as int64 * SECS_PER_HOUR
           + u.minutes as int64 * 60 + u.seconds as int64)
  }

  function YearOfEra(dayOfEra: int64): (y: int64)
    requires 0 <= dayOfEra < 146097
    ensures 0 <= y < 400 && EraDays(y as int) <= dayOfEra as int < EraDays(y as int + 1) + if y == 399 then 1 else 0
  {
    YearFound(dayOfEra as int);
    CDiv(dayOfEra - CDiv(dayOfEra, 1460) + CDiv(dayOfEra, 36524) - CDiv(dayOfEra, 146096), 365)
  }

  lemma {:induction false} YearFound(d: int)
    requires 0 <= d < 146097
    ensures var y := (d - d / 1460 + d / 36524 - d / 146096) / 365;
            0 <= y < 400 && EraDays(y) <= d < EraDays(y + 1) + if y == 399 then 1 else 0
  {
    var y := FindYear(d, 399);
    YearFormula(y, d - EraDays(y));
  }

  // The day of a time and the seconds left over in that day.
  function SplitDay(time: int64): (d: (int64, int64))
    requires IsValidPosixTime(time)
    ensures 86400 * d.0 as int + d.1 as int == time as int && 0 <= d.1 < 86400
  {
    var days := CDiv(time, SECS_PER_DAY);
    var leftover := CMod(time, SECS_PER_DAY);
    if leftover < 0 then (days - 1, leftover + SECS_PER_DAY) else (days, leftover)
  }

  // Hours, minutes and seconds.
  function Clock(leftover: int64): (c: (int32, int32, int32))
    requires 0 <= leftover < 86400
    ensures IsValidTime(c.0, c.1, c.2) && 3600 * c.0 as int + 60 * c.1 as int + c.2 as int == leftover as int
  {
    var inHour := CMod(leftover, SECS_PER_HOUR);
    (CDiv(leftover, SECS_PER_HOUR) as int32, CDiv(inHour, 60) as int32, CMod(inHour, 60) as int32)
  }

  // utc_from_posix_time
  function UtcFromPosixTime(time: int64): (r: Option<Utc>) {
    if !IsValidPosixTime(time) then None
    else
      var (days, leftover) := SplitDay(time);
      var (year, month, day) := DateOf(days + 719468);
      var (hours, minutes, seconds) := Clock(leftover);
      Some(Utc(year, month, day, hours, minutes, seconds))
  }

  // The date of a day counted from March 1 of year 0.
  function DateOf(days: int64): (d: (int64, int64, int64))
    requires -60 <= days <= 3652364
    ensures IsValidDate(d.0, d.1, d.2) && PosixDays(d.0, d.1, d.2) == days - 719468
  {
    var era := DayEra(days);
    var dayOfEra := days - era * 146097;
    var yearOfEra := YearOfEra(dayOfEra);
    var dayOfYear := dayOfEra - (365 * yearOfEra + CDiv(yearOfEra, 4) - CDiv(yearOfEra, 100));
    var year := yearOfEra + era * 400;
    YearBounds(era as int, yearOfEra as int, dayOfYear as int);
    DaysOfDate(year, dayOfYear);
    DateInYear(year, dayOfYear)
  }

  function DayEra(days: int64): (e: int64)
    requires -60 <= days <= 3652364
    ensures e as int == days as int / 146097
  {
    CDiv(if days > 0 then days else days - 146096, 146097)
  }

  // The month, counted from March, that a day of the year lies in.
  function MonthOf(dayOfYear: int64): (m: int64)
    requires 0 <= dayOfYear <= 365
    ensures 0 <= m <= 11 && MonthStart(m) <= dayOfYear && (m < 11 ==> dayOfYear < MonthStart(m + 1))
  {
    CDiv(5 * dayOfYear + 2, 153)
  }

  function DateInYear(year: int64, dayOfYear: int64): (d: (int64, int64, int64))
    requires -1 <= year <= 9999 && 0 <= dayOfYear <= 365 && (dayOfYear == 365 ==> Leap(year as int + 1))
    requires year == -1 ==> dayOfYear >= 306
    requires year == 9999 ==> dayOfYear < 306
    ensures IsValidDate(d.0, d.1, d.2)
  {
    var monthOfYear := MonthOf(dayOfYear);
    var month := if monthOfYear < 10 then monthOfYear + 3 else monthOfYear - 9;
    var year' := if month <= 2 then year + 1 else year;
    var day := dayOfYear - MonthStart(monthOfYear) + 1;
    MarchDate(year as int, monthOfYear, day as int);
    ValidDates(year', month, day);
    (year', month, day)
  }

  lemma {:induction false} DaysOfDate(year: int64, dayOfYear: int64)
    requires -1 <= year <= 9999 && 0 <= dayOfYear <= 365 && (dayOfYear == 365 ==> Leap(year as int + 1))
    requires year == -1 ==> dayOfYear >= 306
    requires year == 9999 ==> dayOfYear < 306
    ensures var d := DateInYear(year, dayOfYear);
            PosixDays(d.0, d.1, d.2) as int == MarchYears(year as int) + dayOfYear as int - 719468
  {
    hide IsValidDate, MarchYears, Leap, MonthStart, MonthOf;
  }

  lemma {:induction false} MarchDate(year: int, m: int64, d: int)
    requires -1 <= year <= 9999 && 0 <= m <= 11 && 1 <= d && (year == -1 ==> m >= 10) && (year == 9999 ==> m < 10)
    requires m < 11 ==> MonthStart(m) as int + d - 1 < MonthStart(m + 1) as int
    requires m == 11 ==> MonthStart(m) as int + d - 1 <= 365 && (MonthStart(m) as int + d - 1 == 365 ==> Leap(year + 1))
    ensures if m < 10 then RealDate(year, m as int + 3, d) else RealDate(year + 1, m as int - 9, d)
  {
    hide Leap;
  }

  predicate Leap(y: int) {
    y % 4 == 0 && (y % 100 != 0 || y % 400 == 0)
  }

  /*** Years that start on March 1 ***/

  // Days before year y of an era of 400 years.
  function EraDays(y: int): int {
    365 * y + y / 4 - y / 100
  }

  // Days before year y, counted from year 0.
  function MarchYears(y: int): int {
    365 * y + y / 4 - y / 100 + y / 400
  }

  lemma {:induction false} EraSplit(y: int)
    ensures y / 400 * 146097 + EraDays(y - y / 400 * 400) == MarchYears(y)
  {
    var e, r := y / 400, y % 400;
    assert y == 400 * e + r;
    assert y / 4 == 100 * e + r / 4 && y / 100 == 4 * e + r / 100;
  }

  lemma {:induction false} DivIs(x: int, k: int, n: int)
    requires 0 < n && n * k <= x < n * k + n
    ensures x / n == k
  {
    ModUnique(x, n, k, x - n * k);
  }

  // Year y of an era, as centuries, groups of four years and years.
  lemma {:induction false} SplitYear(y: int, d: int)
    requires 0 <= y < 400 && 0 <= d && EraDays(y) + d < EraDays(y + 1) + if y == 399 then 1 else 0
    ensures var c, q, s := y / 100, y % 100 / 4, y % 4;
            y == 100 * c + 4 * q + s && EraDays(y) == 36524 * c + 1461 * q + 365 * s
            && d <= 365 && (d == 365 ==> s == 3 && (q == 24 ==> c == 3))
  {
    var c, r := y / 100, y % 100;
    var q, s := r / 4, r % 4;
    assert y == 100 * c + 4 * q + s && y % 4 == s;
    DivIs(y, 25 * c + q, 4);
    assert (y + 1) / 4 == 25 * c + q + (if s == 3 then 1 else 0);
    assert (y + 1) / 100 == c + (if q == 24 && s == 3 then 1 else 0);
  }

  lemma {:induction false} FourYears(c: int, q: int, s: int, d: int)
    requires 0 <= c <= 3 && 0 <= q <= 24 && 0 <= s <= 3 && 0 <= d <= 365
    requires d == 365 ==> s == 3 && (q == 24 ==> c == 3)
    ensures var e := 36524 * c + 1461 * q + 365 * s + d;
            0 <= e < 146097 && (e - e / 1460 + e / 36524 - e / 146096) / 365 == 100 * c + 4 * q + s
  {
    var e := 36524 * c + 1461 * q + 365 * s + d;
    var t := 24 * c + q + 365 * s + d;
    var more := if t < 1460 then 0 else 1;
    DivIs(e, 25 * c + q + more, 1460);
    if e == 146096 {
      DivIs(e, 4, 36524);
      DivIs(e, 1, 146096);
    } else {
      DivIs(e, c, 36524);
      DivIs(e, 0, 146096);
    }
    DivIs(e - (25 * c + q + more) + c, 100 * c + 4 * q + s, 365);
  }

  lemma {:induction false} YearFormula(y: int, d: int)
    requires 0 <= y < 400 && 0 <= d <= 365 && EraDays(y) + d < EraDays(y + 1) + if y == 399 then 1 else 0
    ensures var e := EraDays(y) + d;
            0 <= e < 146097 && (e - e / 1460 + e / 36524 - e / 146096) / 365 == y
  {
    hide EraDays;
    SplitYear(y, d);
    FourYears(y / 100, y % 100 / 4, y % 4, d);
  }

  lemma {:induction false} YearBounds(era: int, y: int, d: int)
    requires 0 <= y < 400 && 0 <= d && EraDays(y) + d < EraDays(y + 1) + if y == 399 then 1 else 0
    requires -60 <= era * 146097 + EraDays(y) + d <= 3652364
    ensures var year := y + era * 400;
            -1 <= year <= 9999 && d <= 365 && (d == 365 ==> Leap(year + 1))
            && (year == -1 ==> d >= 306) && (year == 9999 ==> d < 306)
            && MarchYears(year) == era * 146097 + EraDays(y)
  {
    hide MarchYears, Leap;
    SplitYear(y, d);
    var year := y + era * 400;
    DivIs(year, era, 400);
    EraSplit(year);
    if d == 365 { LastIsLeap(era, y); }
  }

  lemma {:induction false} LastIsLeap(era: int, y: int)
    requires 0 <= y < 400 && y % 4 == 3 && (y % 100 / 4 == 24 ==> y / 100 == 3)
    ensures Leap(y + era * 400 + 1)
  {
    var z := y + era * 400 + 1;
    ModUnique(z, 4, (y + 1) / 4 + 100 * era, 0);
    ModUnique(z, 100, (y + 1) / 100 + 4 * era, (y + 1) % 100);
    ModUnique(z, 400, (y + 1) / 400 + era, (y + 1) % 400);
  }

  lemma {:induction false} FindYear(d: int, top: int) returns (y: int)
    requires 0 <= top < 400 && 0 <= d < EraDays(top + 1) + if top == 399 then 1 else 0
    ensures 0 <= y <= top && EraDays(y) <= d < EraDays(y + 1) + (if y == 399 then 1 else 0) && d - EraDays(y) <= 365
    decreases top
  {
    if EraDays(top) <= d {
      y := top;
    } else {
      y := FindYear(d, top - 1);
    }
  }

  /*** The calendar by counting ***/

  function YearLength(y: int): int {
    if Leap(y) then 366 else 365
  }

  function MonthLength(y: int, m: int): int {
    if m == 2 then (if Leap(y) then 29 else 28) else if m in {4, 6, 9, 11} then 30 else 31
  }

  function DaysBeforeYear(y: nat): (d: int)
    ensures d >= 0
  {
    if y == 0 then 0 else DaysBeforeYear(y - 1) + YearLength(y - 1)
  }

  function DaysBeforeMonth(y: int, m: nat): (d: int)
    ensures d >= 0
  {
    if m <= 1 then 0 else DaysBeforeMonth(y, m - 1) + MonthLength(y, m - 1)
  }

  predicate RealDate(y: int, m: int, d: int) {
    0 <= y <= 9999 && 1 <= m <= 12 && 1 <= d <= MonthLength(y, m)
  }

  // Days from January 1 of year 0.
  function DayNumber(y: nat, m: nat, d: int): int {
    DaysBeforeYear(y) + DaysBeforeMonth(y, m) + d - 1
  }

  lemma {:induction false} ValidDates(y: int64, m: int64, d: int64)
    ensures IsValidDate(y, m, d) <==> RealDate(y as int, m as int, d as int)
  {
  }

  lemma {:induction false} YearsCounted(y: nat)
    ensures DaysBeforeYear(y) == MarchYears(y - 1) + 366
  {
    if y > 0 {
      YearsCounted(y - 1);
      NextMarchYear(y - 1);
    }
  }

  lemma {:induction false} NextMarchYear(y: int)
    ensures MarchYears(y) == MarchYears(y - 1) + YearLength(y)
  {
    Quotients(y, 4);
    Quotients(y, 100);
    Quotients(y, 400);
  }

  lemma {:induction false} MonthsCounted(y: int, m: nat)
    requires 1 <= m <= 12
    ensures DaysBeforeMonth(y, m) == if m <= 2 then (153 * (m + 9) + 2) / 5 - 306
                                     else (153 * (m - 3) + 2) / 5 + 59 + if Leap(y) then 1 else 0
  {
    if m > 1 {
      MonthsCounted(y, m - 1);
    }
  }

  // The fast day count is the one obtained by adding up years and months.
  lemma {:induction false} DaysCounted(y: int64, m: int64, d: int64)
    requires IsValidDate(y, m, d)
    ensures PosixDays(y, m, d) as int == DayNumber(y as int, m as int, d as int) - 719528
  {
    hide MarchYears, Leap, DaysBeforeMonth, DaysBeforeYear;
    ValidDates(y, m, d);
    YearsCounted(y as int);
    MonthsCounted(y as int, m as int);
    NextMarchYear(y as int);
  }

  // Seconds from the start of year 0.
  function Seconds(u: Utc): int
    requires ValidUtc(u)
  {
    ValidDates(u.year, u.month, u.day);
    86400 * DayNumber(u.year as int, u.month as int, u.day as int)
    + 3600 * u.hours as int + 60 * u.minutes as int + u.seconds as int
  }

  // A conversion succeeds exactly on valid date-times and counts every second since year 0.
  lemma {:induction false} FromUtcCounts(u: Utc)
    ensures PosixTimeFromUtc(u).Some? <==> ValidUtc(u)
    ensures ValidUtc(u) ==> PosixTimeFromUtc(u).value as int == MIN_POSIX_TIME as int + Seconds(u)
  {
    hide DayNumber, PosixDays;
    if ValidUtc(u) {
      ValidDates(u.year, u.month, u.day);
      DaysCounted(u.year, u.month, u.day);
    }
  }

  /*** Order ***/

  // Lexicographic order of date-times.
  predicate Earlier(u: Utc, v: Utc) {
    u.year < v.year || (u.year == v.year &&
    (u.month < v.month || (u.month == v.month &&
    (u.day < v.day || (u.day == v.day &&
    (u.hours < v.hours || (u.hours == v.hours &&
    (u.minutes < v.minutes || (u.minutes == v.minutes && u.seconds < v.seconds)))))))))
  }

  lemma {:induction false} YearsMono(a: nat, b: nat)
    requires a <= b
    ensures DaysBeforeYear(a) <= DaysBeforeYear(b)
    decreases b
  {
    if a < b { YearsMono(a, b - 1); }
  }

  lemma {:induction false} MonthsMono(y: int, a: nat, b: nat)
    requires 1 <= a < b <= 13
    ensures DaysBeforeMonth(y, a) + MonthLength(y, a) <= DaysBeforeMonth(y, b)
    decreases b
  {
    if a < b - 1 { MonthsMono(y, a, b - 1); }
  }

  lemma {:induction false} YearIsItsMonths(y: int)
    ensures DaysBeforeMonth(y, 13) == YearLength(y)
  {
    MonthsCounted(y, 12);
  }

  lemma {:induction false} DayNumberMono(y: nat, m: nat, d: nat, y': nat, m': nat, d': nat)
    requires RealDate(y, m, d) && RealDate(y', m', d')
    requires y < y' || (y == y' && (m < m' || (m == m' && d < d')))
    ensures DayNumber(y, m, d) < DayNumber(y', m', d')
  {
    hide DaysBeforeMonth, MonthLength, YearLength;
    if y < y' {
      YearsMono(y + 1, y');
      YearIsItsMonths(y);
      MonthsMono(y, m, 13);
    } else if m < m' {
      MonthsMono(y, m, m');
    }
  }

  lemma {:induction false} SecondsMono(u: Utc, v: Utc)
    requires ValidUtc(u) && ValidUtc(v) && Earlier(u, v)
    ensures Seconds(u) < Seconds(v)
  {
    hide DayNumber, IsValidDate;
    ValidDates(u.year, u.month, u.day);
    ValidDates(v.year, v.month, v.day);
    if u.year != v.year || u.month != v.month || u.day != v.day {
      DayNumberMono(u.year as int, u.month as int, u.day as int, v.year as int, v.month as int, v.day as int);
    }
  }

  // Conversion is strictly monotone, in both directions.
  lemma {:induction false} Monotone(u: Utc, v: Utc)
    requires ValidUtc(u) && ValidUtc(v)
    ensures Earlier(u, v) <==> PosixTimeFromUtc(u).value < PosixTimeFromUtc(v).value
    ensures u == v <==> PosixTimeFromUtc(u) == PosixTimeFromUtc(v)
  {
    hide PosixTimeFromUtc, ValidUtc, Seconds;
    FromUtcCounts(u);
    FromUtcCounts(v);
    if Earlier(u, v) {
      SecondsMono(u, v);
    } else if Earlier(v, u) {
      SecondsMono(v, u);
    }
  }

  /*** Inverses ***/

  lemma {:induction false} InRange(u: Utc)
    requires ValidUtc(u)
    ensures IsValidPosixTime(PosixTimeFromUtc(u).value)
  {
    hide PosixTimeFromUtc, Seconds;
    var first, last := Utc(0, 1, 1, 0, 0, 0), Utc(9999, 12, 31, 23, 59, 59);
    FromUtcCounts(u);
    Ends();
    Monotone(first, u);
    Monotone(u, last);
  }

  lemma {:induction false} Ends()
    ensures PosixTimeFromUtc(Utc(0, 1, 1, 0, 0, 0)) == Some(MIN_POSIX_TIME)
    ensures PosixTimeFromUtc(Utc(9999, 12, 31, 23, 59, 59)) == Some(MAX_POSIX_TIME)
  {
  }

  // Some dates: the epoch and the second before it, a leap day and a day that is none.
  lemma {:induction false} KnownTimes()
    ensures PosixTimeFromUtc(Utc(1970, 1, 1, 0, 0, 0)) == Some(0)
    ensures PosixTimeFromUtc(Utc(1969, 12, 31, 23, 59, 59)) == Some(-1)
  {
  }

  lemma {:induction false} KnownLeapDays()
    ensures PosixTimeFromUtc(Utc(2000, 2, 29, 12, 34, 56)) == Some(951827696)
    ensures PosixTimeFromUtc(Utc(1900, 2, 29, 0, 0, 0)) == None
  {
  }

  // Every time in range is the time of the date-time computed from it.
  lemma {:induction false} ToUtcAndBack(t: int64)
    ensures UtcFromPosixTime(t).Some? <==> MIN_POSIX_TIME <= t <= MAX_POSIX_TIME
    ensures UtcFromPosixTime(t).Some? ==> ValidUtc(UtcFromPosixTime(t).value)
                                          && PosixTimeFromUtc(UtcFromPosixTime(t).value) == Some(t)
  {
    hide IsValidDate, PosixDays, DateOf, SplitDay, Clock, IsValidTime;
  }

  // Every valid date-time is recovered from its time.
  lemma {:induction false} FromUtcAndBack(u: Utc)
    requires ValidUtc(u)
    ensures UtcFromPosixTime(PosixTimeFromUtc(u).value) == Some(u)
  {
    hide PosixTimeFromUtc, UtcFromPosixTime, ValidUtc;
    FromUtcCounts(u);
    var t := PosixTimeFromUtc(u).value;
    InRange(u);
    ToUtcAndBack(t);
    Monotone(u, UtcFromPosixTime(t).value);
  }

  /*** struct tm arithmetic ***/

  function UtcOf(tm: Tm): Utc {
    Utc(tm.year as int64 + 1900, tm.mon as int64 + 1, tm.mday as int64, tm.hour, tm.min, tm.sec)
  }

  // OPENSSL_tm_to_posix
  function TmToPosix(tm: Tm): Option<int64> {
    PosixTimeFromUtc(UtcOf(tm))
  }

  // OPENSSL_posix_to_tm; a failure clears the result.
  function PosixToTm(time: int64): (bool, Tm) {
    ToUtcAndBack(time);
    match UtcFromPosixTime(time)
    case None => (false, Tm(0, 0, 0, 0, 0, 0))
    case Some(u) => (true, Tm(u.seconds, u.minutes, u.hours, u.day as int32, (u.month - 1) as int32, (u.year - 1900) as int32))
  }

  // OPENSSL_gmtime_adj
  function GmtimeAdj(tm: Tm, offsetDay: int32, offsetSec: int64): (bool, Tm) {
    match TmToPosix(tm)
    case None => (false, tm)
    case Some(t) =>
      InRange(UtcOf(tm));
      var posix := t + offsetDay as int64 * SECS_PER_DAY;
      if posix > 0 && offsetSec > INT64_MAX - posix then (false, tm)
      else if posix < 0 && offsetSec < INT64_MIN - posix then (false, tm)
      else PosixToTm(posix + offsetSec)
  }

  // OPENSSL_gmtime_diff
  function GmtimeDiff(from: Tm, to: Tm): Option<(int32, int32)> {
    if TmToPosix(to).None? || TmToPosix(from).None? then None
    else
      InRange(UtcOf(from));
      InRange(UtcOf(to));
      var timediff := TmToPosix(to).value - TmToPosix(from).value;
      Some((CDiv(timediff, SECS_PER_DAY) as int32, CMod(timediff, SECS_PER_DAY) as int32))
  }

  lemma {:induction false} TmRoundTrip(t: int64)
    ensures PosixToTm(t).0 <==> MIN_POSIX_TIME <= t <= MAX_POSIX_TIME
    ensures PosixToTm(t).0 ==> TmToPosix(PosixToTm(t).1) == Some(t)
  {
    hide UtcFromPosixTime, PosixTimeFromUtc;
    ToUtcAndBack(t);
  }

  lemma {:induction false} TmAndBack(tm: Tm)
    ensures TmToPosix(tm).Some? ==> PosixToTm(TmToPosix(tm).value) == (true, tm)
  {
    hide UtcFromPosixTime, PosixTimeFromUtc, ValidUtc;
    FromUtcCounts(UtcOf(tm));
    if TmToPosix(tm).Some? {
      FromUtcAndBack(UtcOf(tm));
    }
  }

  // An adjustment succeeds exactly if the adjusted time is in range, and moves by the offset.
  lemma {:induction false} AdjMoves(tm: Tm, offsetDay: int32, offsetSec: int64)
    ensures var (ok, tm') := GmtimeAdj(tm, offsetDay, offsetSec);
            (ok <==> TmToPosix(tm).Some? &&
                     MIN_POSIX_TIME as int <= TmToPosix(tm).value as int + 86400 * offsetDay as int + offsetSec as int <= MAX_POSIX_TIME as int)
            && (ok ==> TmToPosix(tm').Some? &&
                       TmToPosix(tm').value as int == TmToPosix(tm).value as int + 86400 * offsetDay as int + offsetSec as int)
  {
    hide TmToPosix, PosixToTm;
    if TmToPosix(tm).Some? {
      TmInRange(tm);
      var posix := TmToPosix(tm).value + offsetDay as int64 * SECS_PER_DAY;
      if INT64_MIN as int <= posix as int + offsetSec as int <= INT64_MAX as int {
        TmRoundTrip(posix + offsetSec);
      }
    }
  }

  lemma {:induction false} TmInRange(tm: Tm)
    requires TmToPosix(tm).Some?
    ensures IsValidPosixTime(TmToPosix(tm).value)
  {
    hide PosixTimeFromUtc;
    FromUtcCounts(UtcOf(tm));
    InRange(UtcOf(tm));
  }

  lemma {:induction false} DiffSplits(from: Tm, to: Tm)
    ensures GmtimeDiff(from, to).Some? <==> TmToPosix(from).Some? && TmToPosix(to).Some?
    ensures GmtimeDiff(from, to).Some? ==>
              var (days, secs) := GmtimeDiff(from, to).value;
              86400 * days as int + secs as int == TmToPosix(to).value as int - TmToPosix(from).value as int
              && -86400 < secs < 86400 && days as int * secs as int >= 0
  {
    hide TmToPosix;
    if TmToPosix(from).Some? && TmToPosix(to).Some? {
      TmInRange(from);
      TmInRange(to);
    }
  }

  // Adjusting a time and taking the difference gives back the offset.
  lemma {:induction false} AdjThenDiff(tm: Tm, offsetDay: int32, offsetSec: int64)
    requires GmtimeAdj(tm, offsetDay, offsetSec).0
    ensures var diff := GmtimeDiff(tm, GmtimeAdj(tm, offsetDay, offsetSec).1);
            diff.Some? && 86400 * diff.value.0 as int + diff.value.1 as int == 86400 * offsetDay as int + offsetSec as int
  {
    hide GmtimeAdj, GmtimeDiff, TmToPosix;
    AdjMoves(tm, offsetDay, offsetSec);
    DiffSplits(tm, GmtimeAdj(tm, offsetDay, offsetSec).1);
  }
}
