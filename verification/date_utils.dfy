/**
 * Time arithmetic of the attendance service: the computed checkout instant
 * and the per-time-zone calendar-day key ("YYYY-MM-DD") that joins a user's
 * instants to that day's attendance record.
 *
 * Instants are whole milliseconds since 1970-01-01T00:00:00Z, as JavaScript
 * dates are. A time zone is a fixed offset from UTC; the day key is the
 * proleptic Gregorian date of the instant shifted by that offset.
 */
module DateUtils {
  import opened Wrappers
  import StringOrder

  /** Milliseconds since the Unix epoch. */
  type Instant = int

  const MsPerMinute: int := 60000
  const MsPerDay: int := 86400000

  /** A named zone with a fixed offset from UTC, in minutes (east positive). */
  datatype TimeZone = TimeZone(name: string, offsetMinutes: int)

  /** The zone used when the caller gives none. */
  const DefaultZone: TimeZone := TimeZone("Asia/Kolkata", 330)

  // ---------------------------------------------------------------------------
  // Computed checkout

  /** Check-in plus a whole number of minutes, exactly. */
  function ComputeCheckout(checkIn: Instant, durationMinutes: int): (r: Instant)
    ensures durationMinutes >= 0 ==> checkIn <= r
    ensures durationMinutes > 0 ==> checkIn < r
    ensures (r - checkIn) % MsPerMinute == 0
  {
    checkIn + durationMinutes * MsPerMinute
  }

  /** Computing a checkout twice adds the two durations. */
  lemma ComputeCheckoutAdditive(t: Instant, a: int, b: int)
    ensures ComputeCheckout(ComputeCheckout(t, a), b) == ComputeCheckout(t, a + b)
  {
  }

  /** The computed checkout determines the duration it was computed from. */
  lemma ComputeCheckoutInjective(t: Instant, a: int, b: int)
    requires ComputeCheckout(t, a) == ComputeCheckout(t, b)
    ensures a == b
  {
  }

  // ---------------------------------------------------------------------------
  // The proleptic Gregorian calendar

  predicate IsLeapYear(y: int)
  {
    y % 4 == 0 && (y % 100 != 0 || y % 400 == 0)
  }

  function DaysInYear(y: int): int
  {
    if IsLeapYear(y) then 366 else 365
  }

  /** Days of year `y` before the first of month `m`; month 13 stands for the next 1 January. */
  function DaysBeforeMonth(y: int, m: int): int
    requires 1 <= m <= 13
  {
    var leap := if IsLeapYear(y) then 1 else 0;
    if m == 1 then 0
    else if m == 2 then 31
    else if m == 3 then 59 + leap
    else if m == 4 then 90 + leap
    else if m == 5 then 120 + leap
    else if m == 6 then 151 + leap
    else if m == 7 then 181 + leap
    else if m == 8 then 212 + leap
    else if m == 9 then 243 + leap
    else if m == 10 then 273 + leap
    else if m == 11 then 304 + leap
    else if m == 12 then 334 + leap
    else 365 + leap
  }

  function DaysInMonth(y: int, m: int): int
    requires 1 <= m <= 12
  {
    DaysBeforeMonth(y, m + 1) - DaysBeforeMonth(y, m)
  }

  lemma DaysBeforeMonthStep(y: int, m: int)
    requires 1 <= m <= 12
    ensures 28 <= DaysInMonth(y, m) <= 31
    ensures DaysBeforeMonth(y, 13) == DaysInYear(y)
  {
  }

  /** Earlier months start earlier in the year. */
  lemma {:induction false} DaysBeforeMonthMonotone(y: int, m: int, n: int)
    requires 1 <= m < n <= 13
    ensures DaysBeforeMonth(y, m) < DaysBeforeMonth(y, n)
    decreases n - m
  {
    DaysBeforeMonthStep(y, m);
    if m + 1 < n {
      DaysBeforeMonthMonotone(y, m + 1, n);
    }
  }

  datatype CivilDate = CivilDate(year: int, month: int, day: int)

  /** A date that exists on the calendar. */
  predicate ValidDate(d: CivilDate)
  {
    1 <= d.month <= 12 && 1 <= d.day <= DaysInMonth(d.year, d.month)
  }

  /** Chronological order of calendar dates. */
  predicate DateLessEq(a: CivilDate, b: CivilDate)
  {
    a.year < b.year || (a.year == b.year && (a.month < b.month || (a.month == b.month && a.day <= b.day)))
  }

  /** Days from 1970-01-01 to 1 January of year `y` (negative before 1970). */
  function DaysBeforeYear(y: int): int
    decreases if y >= 1970 then y - 1970 else 1970 - y
  {
    if y == 1970 then 0
    else if y > 1970 then DaysBeforeYear(y - 1) + DaysInYear(y - 1)
    else DaysBeforeYear(y + 1) - DaysInYear(y)
  }

  lemma DaysBeforeYearStep(y: int)
    ensures DaysBeforeYear(y + 1) == DaysBeforeYear(y) + DaysInYear(y)
  {
  }

  /** Later years start later. */
  lemma {:induction false} DaysBeforeYearMonotone(y: int, z: int)
    requires y < z
    ensures DaysBeforeYear(y) < DaysBeforeYear(z)
    decreases z - y
  {
    DaysBeforeYearStep(y);
    if y + 1 < z {
      DaysBeforeYearMonotone(y + 1, z);
    }
  }

  /** From 1970 to 2100 every fourth year from 1972 on is a leap year, so year starts have a closed form. */
  lemma {:induction false} DaysBeforeYearNear1970(y: int)
    requires 1970 <= y <= 2100
    ensures DaysBeforeYear(y) == 365 * (y - 1970) + (y - 1969) / 4
    decreases y - 1970
  {
    if y > 1970 {
      DaysBeforeYearNear1970(y - 1);
    }
  }

  /** Walks forward from 1 January of `y` by `offset` days; answers the year and the day of that year. */
  function YearForward(y: int, offset: nat): (r: (int, nat))
    ensures y <= r.0 && r.1 < DaysInYear(r.0)
    ensures DaysBeforeYear(r.0) + r.1 == DaysBeforeYear(y) + offset
    decreases offset
  {
    DaysBeforeYearStep(y);
    if offset < DaysInYear(y) then (y, offset)
    else YearForward(y + 1, offset - DaysInYear(y))
  }

  /** Walks backward from 1 January of `y` by `-offset` days. */
  function YearBackward(y: int, offset: int): (r: (int, nat))
    requires offset < 0
    ensures r.0 < y && r.1 < DaysInYear(r.0)
    ensures DaysBeforeYear(r.0) + r.1 == DaysBeforeYear(y) + offset
    decreases -offset
  {
    DaysBeforeYearStep(y - 1);
    var o := offset + DaysInYear(y - 1);
    if o >= 0 then (y - 1, o) else YearBackward(y - 1, o)
  }

  /** The year a day number falls in, and the day of that year (0 for 1 January). */
  function YearAndDay(days: int): (r: (int, nat))
    ensures r.1 < DaysInYear(r.0)
    ensures DaysBeforeYear(r.0) + r.1 == days
  {
    if days >= 0 then YearForward(1970, days) else YearBackward(1970, days)
  }

  /** The month, searched downwards from `m`, that holds day `dayOfYear` of year `y`. */
  function MonthOf(y: int, dayOfYear: nat, m: int): (r: int)
    requires 1 <= m <= 12 && dayOfYear < DaysBeforeMonth(y, m + 1)
    ensures 1 <= r <= m
    ensures DaysBeforeMonth(y, r) <= dayOfYear < DaysBeforeMonth(y, r + 1)
    decreases m
  {
    if DaysBeforeMonth(y, m) <= dayOfYear then m else MonthOf(y, dayOfYear, m - 1)
  }

  /** Day number (days since 1970-01-01) of a calendar date. */
  function DaysFromCivil(d: CivilDate): int
    requires 1 <= d.month <= 12
  {
    DaysBeforeYear(d.year) + DaysBeforeMonth(d.year, d.month) + d.day - 1
  }

  /** The calendar date of a day number. */
  function CivilFromDays(days: int): (d: CivilDate)
    ensures ValidDate(d)
    ensures DaysFromCivil(d) == days
  {
    var yd := YearAndDay(days);
    DaysBeforeMonthStep(yd.0, 12);
    var m := MonthOf(yd.0, yd.1, 12);
    CivilDate(yd.0, m, yd.1 - DaysBeforeMonth(yd.0, m) + 1)
  }

  /** Chronological order of valid dates is the order of their day numbers. */
  lemma DaysFromCivilOrder(a: CivilDate, b: CivilDate)
    requires ValidDate(a) && ValidDate(b)
    ensures DateLessEq(a, b) <==> DaysFromCivil(a) <= DaysFromCivil(b)
    ensures a == b <==> DaysFromCivil(a) == DaysFromCivil(b)
  {
    forall x: CivilDate, y: CivilDate | ValidDate(x) && ValidDate(y) && !DateLessEq(y, x)
      ensures DaysFromCivil(x) < DaysFromCivil(y)
    {
      DaysBeforeMonthStep(x.year, x.month);
      DaysBeforeMonthStep(y.year, y.month);
      if x.year < y.year {
        DaysBeforeYearStep(x.year);
        if x.month < 12 {
          DaysBeforeMonthMonotone(x.year, x.month + 1, 13);
        }
        if x.year + 1 < y.year {
          DaysBeforeYearMonotone(x.year + 1, y.year);
        }
      } else if x.month < y.month {
        DaysBeforeMonthMonotone(x.year, x.month + 1, y.month + 1);
      }
    }
  }

  /** Round trip: a valid date is recovered from its day number. */
  lemma CivilFromDaysInverse(d: CivilDate)
    requires ValidDate(d)
    ensures CivilFromDays(DaysFromCivil(d)) == d
  {
    DaysFromCivilOrder(CivilFromDays(DaysFromCivil(d)), d);
  }

  /** Later day numbers fall on later dates. */
  lemma CivilFromDaysOrder(x: int, y: int)
    ensures x <= y <==> DateLessEq(CivilFromDays(x), CivilFromDays(y))
    ensures x == y <==> CivilFromDays(x) == CivilFromDays(y)
  {
    DaysFromCivilOrder(CivilFromDays(x), CivilFromDays(y));
  }

  // ---------------------------------------------------------------------------
  // "YYYY-MM-DD" text

  predicate IsDigit(c: char)
  {
    '0' <= c <= '9'
  }

  function DigitChar(n: int): (c: char)
    requires 0 <= n <= 9
    ensures IsDigit(c)
  {
    ('0' as int + n) as char
  }

  function Pow10(w: nat): (p: nat)
    ensures p >= 1
  {
    if w == 0 then 1 else 10 * Pow10(w - 1)
  }

  /** The last `width` decimal digits of `n`, zero-padded on the left. */
  function Digits(n: nat, width: nat): (s: string)
    ensures |s| == width
    ensures forall i :: 0 <= i < width ==> IsDigit(s[i])
  {
    if width == 0 then [] else Digits(n / 10, width - 1) + [DigitChar(n % 10)]
  }

  /** For numbers that fit the width, digit strings compare as the numbers do. */
  lemma {:induction false} DigitsOrder(m: nat, n: nat, width: nat)
    requires m < Pow10(width) && n < Pow10(width)
    ensures StringOrder.LessEq(Digits(m, width), Digits(n, width)) <==> m <= n
    ensures Digits(m, width) == Digits(n, width) <==> m == n
    decreases width
  {
    if width > 0 {
      DigitsOrder(m / 10, n / 10, width - 1);
      StringOrder.LessEqAppend(Digits(m / 10, width - 1), Digits(n / 10, width - 1),
                               [DigitChar(m % 10)], [DigitChar(n % 10)]);
    }
  }

  /** The year part of a day key: four digits within 0000..9999, a signed six-digit year outside. */
  function YearText(y: int): string
  {
    if 0 <= y <= 9999 then Digits(y, 4)
    else if y > 9999 then "+" + Digits(y, 6)
    else "-" + Digits(-y, 6)
  }

  /** Calendar date as "YYYY-MM-DD". */
  function FormatDate(d: CivilDate): string
    requires ValidDate(d)
  {
    YearText(d.year) + ("-" + (Digits(d.month, 2) + ("-" + Digits(d.day, 2))))
  }

  /** The shape a day key has, and the one the history bounds are checked against. */
  predicate IsDayKeyShape(s: string)
  {
    |s| == 10 && s[4] == '-' && s[7] == '-'
    && forall i :: 0 <= i < 10 && i != 4 && i != 7 ==> IsDigit(s[i])
  }

  predicate InFourDigitYears(d: CivilDate)
  {
    0 <= d.year <= 9999
  }

  lemma FormatDateShape(d: CivilDate)
    requires ValidDate(d) && InFourDigitYears(d)
    ensures IsDayKeyShape(FormatDate(d))
  {
    var s := FormatDate(d);
    assert s == Digits(d.year, 4) + ['-'] + Digits(d.month, 2) + ['-'] + Digits(d.day, 2);
  }

  /** Day keys of valid dates in years 0000..9999 sort chronologically. */
  lemma FormatDateOrder(a: CivilDate, b: CivilDate)
    requires ValidDate(a) && ValidDate(b) && InFourDigitYears(a) && InFourDigitYears(b)
    ensures StringOrder.LessEq(FormatDate(a), FormatDate(b)) <==> DateLessEq(a, b)
    ensures FormatDate(a) == FormatDate(b) <==> a == b
  {
    assert Pow10(2) == 100 && Pow10(4) == 10000;
    DaysBeforeMonthStep(a.year, a.month);
    DaysBeforeMonthStep(b.year, b.month);
    DigitsOrder(a.year, b.year, 4);
    DigitsOrder(a.month, b.month, 2);
    DigitsOrder(a.day, b.day, 2);
    var dayA, dayB := Digits(a.day, 2), Digits(b.day, 2);
    var monA, monB := Digits(a.month, 2), Digits(b.month, 2);
    StringOrder.LessEqAppend("-", "-", dayA, dayB);
    StringOrder.LessEqAppend(monA, monB, "-" + dayA, "-" + dayB);
    StringOrder.LessEqAppend("-", "-", monA + ("-" + dayA), monB + ("-" + dayB));
    StringOrder.LessEqAppend(Digits(a.year, 4), Digits(b.year, 4),
                             "-" + (monA + ("-" + dayA)), "-" + (monB + ("-" + dayB)));
  }

  // ---------------------------------------------------------------------------
  // Day keys of instants

  /** Day number of the calendar day, in `zone`, that instant `t` falls on (floor division). */
  function LocalDayNumber(t: Instant, zone: TimeZone): int
  {
    (t + zone.offsetMinutes * MsPerMinute) / MsPerDay
  }

  /** The calendar date, in `zone`, of instant `t`. */
  function LocalDate(t: Instant, zone: TimeZone): (d: CivilDate)
    ensures ValidDate(d)
  {
    CivilFromDays(LocalDayNumber(t, zone))
  }

  /** The day key of instant `t` in `zone`, or in the default zone when none is given. */
  function FormatDateToLocal(t: Instant, zone: Option<TimeZone>): string
  {
    FormatDate(LocalDate(t, zone.GetOr(DefaultZone)))
  }

  /** Today's day key: the day key of the clock reading `now`. */
  function GetTodayDate(now: Instant, zone: Option<TimeZone>): string
  {
    FormatDateToLocal(now, zone)
  }

  /** Without a zone, day keys are those of Asia/Kolkata (UTC+05:30). */
  lemma DefaultZoneIsKolkata(t: Instant)
    ensures FormatDateToLocal(t, None) == FormatDateToLocal(t, Some(TimeZone("Asia/Kolkata", 330)))
  {
  }

  /** Instants whose local date lies in years 0000..9999. */
  predicate InKeyRange(t: Instant, zone: TimeZone)
  {
    InFourDigitYears(LocalDate(t, zone))
  }

  /** A day key has the YYYY-MM-DD shape. */
  lemma DayKeyShape(t: Instant, zone: Option<TimeZone>)
    requires InKeyRange(t, zone.GetOr(DefaultZone))
    ensures IsDayKeyShape(FormatDateToLocal(t, zone))
  {
    FormatDateShape(LocalDate(t, zone.GetOr(DefaultZone)));
  }

  /** Later instants never fall on an earlier local day. */
  lemma LocalDayNumberMonotone(t: Instant, u: Instant, zone: TimeZone)
    requires t <= u
    ensures LocalDayNumber(t, zone) <= LocalDayNumber(u, zone)
  {
  }

  /**
   * Day keys in one zone compare as the local days they name: the string
   * order of keys is the order of days, and equal keys mean the same day.
   */
  lemma DayKeyOrder(t: Instant, u: Instant, zone: TimeZone)
    requires InKeyRange(t, zone) && InKeyRange(u, zone)
    ensures StringOrder.LessEq(FormatDateToLocal(t, Some(zone)), FormatDateToLocal(u, Some(zone)))
            <==> LocalDayNumber(t, zone) <= LocalDayNumber(u, zone)
    ensures FormatDateToLocal(t, Some(zone)) == FormatDateToLocal(u, Some(zone))
            <==> LocalDayNumber(t, zone) == LocalDayNumber(u, zone)
  {
    FormatDateOrder(LocalDate(t, zone), LocalDate(u, zone));
    CivilFromDaysOrder(LocalDayNumber(t, zone), LocalDayNumber(u, zone));
  }
}
