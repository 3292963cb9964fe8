/**
 * lib/date-utils.ts: the reporting windows (current month, last month, last
 * seven days, today, yesterday) and the relative date label.  Dates are
 * local calendar values on the proleptic Gregorian calendar; a JavaScript
 * `Date` is the millisecond count `Instant` of such a value, and the wall
 * clock `now` is a parameter.
 */
module DateUtils {
  import opened Wrappers
  import opened Seqs
  import opened Decimal

  datatype Date = Date(year: int, month: int, day: int)

  datatype DateTime = DateTime(date: Date, hour: int, minute: int, second: int, millisecond: int)

  /** The `{ start, end }` object every range function returns. */
  datatype Range = Range(start: DateTime, end: DateTime)

  /** `24 * 60 * 60 * 1000`. */
  const MS_PER_DAY: int := 86400000

  predicate IsLeapYear(y: int)
  {
    y % 4 == 0 && (y % 100 != 0 || y % 400 == 0)
  }

  function DaysInMonth(y: int, m: int): (n: int)
    requires 1 <= m <= 12
    ensures 28 <= n <= 31
  {
    if m == 2 then (if IsLeapYear(y) then 29 else 28)
    else if m == 4 || m == 6 || m == 9 || m == 11 then 30
    else 31
  }

  predicate ValidDate(d: Date)
  {
    1 <= d.month <= 12 && 1 <= d.day <= DaysInMonth(d.year, d.month)
  }

  predicate ValidDateTime(t: DateTime)
  {
    ValidDate(t.date) && 0 <= t.hour < 24 && 0 <= t.minute < 60 && 0 <= t.second < 60
    && 0 <= t.millisecond < 1000
  }

  /** The number of leap years among 1..n (for n >= 0; a floor count otherwise). */
  function Leaps(n: int): int
  {
    n / 4 - n / 100 + n / 400
  }

  /** Days from 1970-01-01 to January 1 of year `y`. */
  function DaysBeforeYear(y: int): int
  {
    365 * (y - 1970) + Leaps(y - 1) - Leaps(1969)
  }

  /** Days from January 1 to the first of month `m` of year `y`. */
  function DaysBeforeMonth(y: int, m: int): int
    requires 1 <= m <= 12
  {
    [0, 31, 59, 90, 120, 151, 181, 212, 243, 273, 304, 334][m - 1]
    + (if m > 2 && IsLeapYear(y) then 1 else 0)
  }

  /** Days since 1970-01-01 (negative before it). */
  function DayNumber(d: Date): int
    requires 1 <= d.month <= 12
  {
    DaysBeforeYear(d.year) + DaysBeforeMonth(d.year, d.month) + d.day - 1
  }

  function TimeOfDay(t: DateTime): int
  {
    ((t.hour * 60 + t.minute) * 60 + t.second) * 1000 + t.millisecond
  }

  /** `date.getTime()` of a local date and time, in milliseconds since the epoch. */
  function Instant(t: DateTime): int
    requires 1 <= t.date.month <= 12
  {
    DayNumber(t.date) * MS_PER_DAY + TimeOfDay(t)
  }

  lemma {:induction false} DayNumberAnchors()
    ensures DayNumber(Date(1970, 1, 1)) == 0
    ensures DayNumber(Date(2000, 3, 1)) == 11017
    ensures DayNumber(Date(1969, 12, 31)) == -1
  {
  }

  /** A year has 366 days exactly when it is a leap year. */
  lemma {:induction false} YearLength(y: int)
    ensures DaysBeforeYear(y + 1) - DaysBeforeYear(y) == if IsLeapYear(y) then 366 else 365
  {
    LeapsStep(y);
  }

  lemma {:induction false} LeapsStep(n: int)
    ensures Leaps(n) - Leaps(n - 1) == if IsLeapYear(n) then 1 else 0
  {
    DivStep(n, 4);
    DivStep(n, 100);
    DivStep(n, 400);
  }

  lemma {:induction false} DivStep(n: int, k: int)
    requires k == 4 || k == 100 || k == 400
    ensures n / k - (n - 1) / k == if n % k == 0 then 1 else 0
  {
    if k == 4 {
      assert n / 4 - (n - 1) / 4 == if n % 4 == 0 then 1 else 0;
    } else if k == 100 {
      assert n / 100 - (n - 1) / 100 == if n % 100 == 0 then 1 else 0;
    } else {
      assert n / 400 - (n - 1) / 400 == if n % 400 == 0 then 1 else 0;
    }
  }

  /** The calendar day before `d`. */
  function PrevDay(d: Date): (r: Date)
    requires ValidDate(d)
    ensures ValidDate(r)
  {
    if d.day > 1 then Date(d.year, d.month, d.day - 1)
    else if d.month > 1 then Date(d.year, d.month - 1, DaysInMonth(d.year, d.month - 1))
    else Date(d.year - 1, 12, 31)
  }

  /** `PrevDay` is exactly one day earlier, across month and year boundaries. */
  lemma {:induction false} PrevDayNumber(d: Date)
    requires ValidDate(d)
    ensures DayNumber(PrevDay(d)) == DayNumber(d) - 1
  {
    if d.day == 1 && d.month == 1 {
      YearLength(d.year - 1);
    }
  }

  /** Within a year, the days of month `m` come right before month `m + 1`. */
  lemma {:induction false} MonthLength(y: int, m: int)
    requires 1 <= m < 12
    ensures DaysBeforeMonth(y, m + 1) == DaysBeforeMonth(y, m) + DaysInMonth(y, m)
  {
  }

  lemma {:induction false} DayInYear(d: Date)
    requires ValidDate(d)
    ensures 0 <= DayNumber(d) - DaysBeforeYear(d.year) < DaysBeforeYear(d.year + 1) - DaysBeforeYear(d.year)
  {
    YearLength(d.year);
  }

  lemma {:induction false} DaysBeforeYearMonotone(a: int, b: int)
    requires a < b
    ensures DaysBeforeYear(a + 1) <= DaysBeforeYear(b)
    decreases b - a
  {
    if a + 1 < b {
      DaysBeforeYearMonotone(a, b - 1);
      YearLength(b - 1);
    }
  }

  /** Different valid dates have different day numbers. */
  lemma {:induction false} DayNumberInjective(d: Date, e: Date)
    requires ValidDate(d) && ValidDate(e) && DayNumber(d) == DayNumber(e)
    ensures d == e
  {
    DayInYear(d);
    DayInYear(e);
    if d.year < e.year {
      DaysBeforeYearMonotone(d.year, e.year);
      assert false;
    } else if e.year < d.year {
      DaysBeforeYearMonotone(e.year, d.year);
      assert false;
    }
    if d.month < e.month {
      MonthsBefore(d.year, d.month, e.month);
      assert false;
    } else if e.month < d.month {
      MonthsBefore(d.year, e.month, d.month);
      assert false;
    }
  }

  lemma {:induction false} MonthsBefore(y: int, m: int, n: int)
    requires 1 <= m < n <= 12
    ensures DaysBeforeMonth(y, m) + DaysInMonth(y, m) <= DaysBeforeMonth(y, n)
  {
  }

  lemma {:induction false} TimeOfDayBounds(t: DateTime)
    requires ValidDateTime(t)
    ensures 0 <= TimeOfDay(t) < MS_PER_DAY
  {
  }

  /** A valid local date and time is determined by its instant. */
  lemma {:induction false} InstantInjective(s: DateTime, t: DateTime)
    requires ValidDateTime(s) && ValidDateTime(t) && Instant(s) == Instant(t)
    ensures s == t
  {
    TimeOfDayBounds(s);
    TimeOfDayBounds(t);
    DayNumberInjective(s.date, t.date);
  }

  function StartOfDay(d: Date): DateTime
  {
    DateTime(d, 0, 0, 0, 0)
  }

  /** date-fns `startOfMonth`: day 1 of the month, 00:00:00.000. */
  function StartOfMonth(t: DateTime): DateTime
  {
    StartOfDay(Date(t.date.year, t.date.month, 1))
  }

  /** date-fns `endOfMonth`: the last day of the month, 23:59:59.999. */
  function EndOfMonth(t: DateTime): DateTime
    requires 1 <= t.date.month <= 12
  {
    DateTime(Date(t.date.year, t.date.month, DaysInMonth(t.date.year, t.date.month)), 23, 59, 59, 999)
  }

  /** `getCurrentMonthRange`. */
  function CurrentMonthRange(now: DateTime): Range
    requires ValidDateTime(now)
  {
    Range(StartOfMonth(now), EndOfMonth(now))
  }

  /**
   * The current-month window runs from the first instant of the reference
   * month to its last instant, and so contains `now`.
   */
  lemma {:induction false} CurrentMonthRangeSpec(now: DateTime)
    requires ValidDateTime(now)
    ensures var r := CurrentMonthRange(now);
      ValidDateTime(r.start) && ValidDateTime(r.end)
      && r.start.date == Date(now.date.year, now.date.month, 1) && TimeOfDay(r.start) == 0
      && r.end.date == Date(now.date.year, now.date.month, DaysInMonth(now.date.year, now.date.month))
      && TimeOfDay(r.end) == MS_PER_DAY - 1
      && Instant(r.start) <= Instant(now) <= Instant(r.end)
  {
    TimeOfDayBounds(now);
  }

  /** date-fns `subMonths(t, 1)`: the same day of the preceding month, clamped to its length; the time is kept. */
  function SubOneMonth(t: DateTime): DateTime
    requires ValidDateTime(t)
  {
    var y := if t.date.month == 1 then t.date.year - 1 else t.date.year;
    var m := if t.date.month == 1 then 12 else t.date.month - 1;
    var day := if t.date.day <= DaysInMonth(y, m) then t.date.day else DaysInMonth(y, m);
    DateTime(Date(y, m, day), t.hour, t.minute, t.second, t.millisecond)
  }

  lemma {:induction false} SubOneMonthSpec(t: DateTime)
    requires ValidDateTime(t)
    ensures var p := SubOneMonth(t);
      ValidDateTime(p) && TimeOfDay(p) == TimeOfDay(t)
      && (t.date.month == 1 ==> p.date.year == t.date.year - 1 && p.date.month == 12)
      && (t.date.month > 1 ==> p.date.year == t.date.year && p.date.month == t.date.month - 1)
      && p.date.day <= t.date.day
      && (p.date.day == t.date.day || p.date.day == DaysInMonth(p.date.year, p.date.month))
  {
  }

  /** `getLastMonthRange`. */
  function LastMonthRange(now: DateTime): Range
    requires ValidDateTime(now)
  {
    var lastMonth := SubOneMonth(now);
    Range(StartOfMonth(lastMonth), EndOfMonth(lastMonth))
  }

  /** The last-month window is the whole preceding month; January maps to December of the year before. */
  lemma {:induction false} LastMonthRangeSpec(now: DateTime)
    requires ValidDateTime(now)
    ensures var r := LastMonthRange(now);
      var y := if now.date.month == 1 then now.date.year - 1 else now.date.year;
      var m := if now.date.month == 1 then 12 else now.date.month - 1;
      ValidDateTime(r.start) && ValidDateTime(r.end)
      && r.start.date == Date(y, m, 1) && TimeOfDay(r.start) == 0
      && r.end.date == Date(y, m, DaysInMonth(y, m)) && TimeOfDay(r.end) == MS_PER_DAY - 1
  {
  }

  /**
   * The two month windows are adjacent: the last-month window ends on the
   * day before the current month starts, one millisecond before it.
   */
  lemma {:induction false} LastMonthAdjoinsCurrent(now: DateTime)
    requires ValidDateTime(now)
    ensures var last := LastMonthRange(now);
      var current := CurrentMonthRange(now);
      last.end.date == PrevDay(current.start.date)
      && Instant(last.end) + 1 == Instant(current.start)
  {
    var first := Date(now.date.year, now.date.month, 1);
    PrevDayNumber(first);
  }

  /** `getTodayRange`: local midnight to 23:59:59 (milliseconds zero) of the reference date. */
  function TodayRange(now: DateTime): Range
    requires ValidDateTime(now)
  {
    Range(StartOfDay(now.date), DateTime(now.date, 23, 59, 59, 0))
  }

  lemma {:induction false} TodayRangeSpec(now: DateTime)
    requires ValidDateTime(now)
    ensures var r := TodayRange(now);
      ValidDateTime(r.start) && ValidDateTime(r.end)
      && r.start.date == now.date && r.end.date == now.date
      && TimeOfDay(r.start) == 0 && TimeOfDay(r.end) == MS_PER_DAY - 1000
      && Instant(r.start) <= Instant(now)
      && Instant(r.start) < Instant(r.end)
      && Instant(r.end) - Instant(r.start) == MS_PER_DAY - 1000
  {
  }

  /**
   * `new Date(now.getTime() - 24 * 60 * 60 * 1000)`: the same wall-clock
   * time on the previous calendar day.
   */
  function OneDayEarlier(now: DateTime): DateTime
    requires ValidDateTime(now)
  {
    DateTime(PrevDay(now.date), now.hour, now.minute, now.second, now.millisecond)
  }

  /** `OneDayEarlier` is the only valid date and time whose instant is one day before `now`. */
  lemma {:induction false} OneDayEarlierSpec(now: DateTime, t: DateTime)
    requires ValidDateTime(now)
    ensures ValidDateTime(OneDayEarlier(now))
    ensures Instant(OneDayEarlier(now)) == Instant(now) - MS_PER_DAY
    ensures ValidDateTime(t) && Instant(t) == Instant(now) - MS_PER_DAY ==> t == OneDayEarlier(now)
  {
    PrevDayNumber(now.date);
    if ValidDateTime(t) && Instant(t) == Instant(now) - MS_PER_DAY {
      InstantInjective(t, OneDayEarlier(now));
    }
  }

  /** `getYesterdayRange`. */
  function YesterdayRange(now: DateTime): Range
    requires ValidDateTime(now)
  {
    var yesterday := OneDayEarlier(now);
    Range(StartOfDay(yesterday.date), DateTime(yesterday.date, 23, 59, 59, 0))
  }

  /** Yesterday's window covers the calendar day before `now`'s and ends one second before today's window starts. */
  lemma {:induction false} YesterdayRangeSpec(now: DateTime)
    requires ValidDateTime(now)
    ensures var r := YesterdayRange(now);
      ValidDateTime(r.start) && ValidDateTime(r.end)
      && r.start.date == PrevDay(now.date) && r.end.date == PrevDay(now.date)
      && TimeOfDay(r.start) == 0 && TimeOfDay(r.end) == MS_PER_DAY - 1000
      && Instant(r.start) < Instant(r.end)
      && Instant(r.end) + 1000 == Instant(TodayRange(now).start)
  {
    PrevDayNumber(now.date);
  }

  /** The date `n` calendar days before `d`. */
  function DaysBack(d: Date, n: nat): (r: Date)
    requires ValidDate(d)
    ensures ValidDate(r)
  {
    if n == 0 then d else PrevDay(DaysBack(d, n - 1))
  }

  lemma {:induction false} DaysBackNumber(d: Date, n: nat)
    requires ValidDate(d)
    ensures DayNumber(DaysBack(d, n)) == DayNumber(d) - n
  {
    if n > 0 {
      DaysBackNumber(d, n - 1);
      PrevDayNumber(DaysBack(d, n - 1));
    }
  }

  /** `new Date(now.getTime() - 7 * 24 * 60 * 60 * 1000)`: the same wall-clock time seven days earlier. */
  function SevenDaysEarlier(now: DateTime): DateTime
    requires ValidDateTime(now)
  {
    DateTime(DaysBack(now.date, 7), now.hour, now.minute, now.second, now.millisecond)
  }

  /** `getLast7DaysRange`. */
  function Last7DaysRange(now: DateTime): Range
    requires ValidDateTime(now)
  {
    Range(SevenDaysEarlier(now), now)
  }

  /** The seven-day window ends at `now` and starts exactly 604 800 000 ms before it. */
  lemma {:induction false} Last7DaysRangeSpec(now: DateTime, t: DateTime)
    requires ValidDateTime(now)
    ensures var r := Last7DaysRange(now);
      ValidDateTime(r.start) && r.end == now
      && Instant(r.end) - Instant(r.start) == 7 * MS_PER_DAY
      && (ValidDateTime(t) && Instant(t) == Instant(now) - 7 * MS_PER_DAY ==> t == r.start)
  {
    DaysBackNumber(now.date, 7);
    if ValidDateTime(t) && Instant(t) == Instant(now) - 7 * MS_PER_DAY {
      InstantInjective(t, SevenDaysEarlier(now));
    }
  }

  /** The `MMM` month names of the default English locale. */
  const MONTH_ABBREVIATIONS: seq<string> :=
    ["Jan", "Feb", "Mar", "Apr", "May", "Jun", "Jul", "Aug", "Sep", "Oct", "Nov", "Dec"]

  /** The `yyyy` year: the era year (1 BC is year 0), at least four digits. */
  function YearDigits(year: int): (s: string)
    ensures |s| >= 4 && IsDigits(s)
  {
    PadZeros(NatToString(if year > 0 then year else 1 - year), 4)
  }

  /** `format(d, 'MMM d, yyyy')`. */
  function DateLabel(d: Date): string
    requires ValidDate(d)
  {
    MONTH_ABBREVIATIONS[d.month - 1] + " " + NatToString(d.day) + ", " + YearDigits(d.year)
  }

  /** `formatDate`: "Today", else "Yesterday", else the full date. */
  function FormatDate(d: DateTime, now: DateTime): string
    requires ValidDateTime(d) && ValidDateTime(now)
  {
    if d.date == now.date then "Today"
    else if d.date == PrevDay(now.date) then "Yesterday"
    else DateLabel(d.date)
  }

  /** The three labels are told apart exactly by the calendar day of `d` relative to `now`. */
  lemma {:induction false} FormatDateCases(d: DateTime, now: DateTime)
    requires ValidDateTime(d) && ValidDateTime(now)
    ensures FormatDate(d, now) == "Today" <==> d.date == now.date
    ensures FormatDate(d, now) == "Yesterday" <==> d.date == PrevDay(now.date)
    ensures d.date != now.date && d.date != PrevDay(now.date) && d.date.year >= 1 ==>
      ReadDateLabel(FormatDate(d, now)) == Some(d.date)
  {
    PrevDayNumber(now.date);
    DateLabelLength(d.date);
    if d.date != now.date && d.date != PrevDay(now.date) && d.date.year >= 1 {
      DateLabelRoundTrip(d.date);
    }
  }

  lemma {:induction false} DateLabelLength(d: Date)
    requires ValidDate(d)
    ensures |DateLabel(d)| >= 10
  {
    MonthName(d.month);
  }

  lemma {:induction false} MonthName(m: int)
    requires 1 <= m <= 12
    ensures |MONTH_ABBREVIATIONS[m - 1]| == 3 && MonthOf(MONTH_ABBREVIATIONS[m - 1]) == m
  {
  }

  function MonthOf(name: string): int
  {
    if name == "Jan" then 1 else if name == "Feb" then 2 else if name == "Mar" then 3
    else if name == "Apr" then 4 else if name == "May" then 5 else if name == "Jun" then 6
    else if name == "Jul" then 7 else if name == "Aug" then 8 else if name == "Sep" then 9
    else if name == "Oct" then 10 else if name == "Nov" then 11 else if name == "Dec" then 12
    else 0
  }

  /** Reads a `MMM d, yyyy` label back into a date (years from 1 on). */
  function ReadDateLabel(s: string): Option<Date>
  {
    if |s| < 4 || s[3] != ' ' || MonthOf(s[..3]) == 0 then None
    else
      var rest := s[4..];
      var i := IndexOf(rest, ',');
      if i == 0 || i + 2 > |rest| || rest[i + 1..i + 2] != " " then None
      else if !IsDigits(rest[..i]) || !IsDigits(rest[i + 2..]) || |rest[i + 2..]| == 0 then None
      else Some(Date(DigitsValue(rest[i + 2..]), MonthOf(s[..3]), DigitsValue(rest[..i])))
  }

  /** The full date label is readable: for years from 1 on it determines the date. */
  lemma {:induction false} DateLabelRoundTrip(d: Date)
    requires ValidDate(d) && d.year >= 1
    ensures ReadDateLabel(DateLabel(d)) == Some(d)
  {
    var name := MONTH_ABBREVIATIONS[d.month - 1];
    var dd := NatToString(d.day);
    var yy := YearDigits(d.year);
    assert DateLabel(d) == name + " " + dd + ", " + yy;
    MonthName(d.month);
    assert DigitsValue(yy) == d.year;
    ReadLabelParts(name, dd, yy);
  }

  /** A month name, a space, day digits, a comma, a space and year digits read back as that date. */
  lemma {:induction false} ReadLabelParts(name: string, dd: string, yy: string)
    requires |name| == 3 && MonthOf(name) != 0
    requires IsDigits(dd) && |dd| >= 1 && IsDigits(yy) && |yy| >= 1
    ensures ReadDateLabel(name + " " + dd + ", " + yy)
      == Some(Date(DigitsValue(yy), MonthOf(name), DigitsValue(dd)))
  {
    var s := name + " " + dd + ", " + yy;
    assert s[..3] == name && s[3] == ' ';
    var rest := s[4..];
    assert rest == dd + ", " + yy;
    CommaAfterDigits(dd, yy);
    assert rest[..|dd|] == dd;
    assert rest[|dd| + 1..|dd| + 2] == " ";
    assert rest[|dd| + 2..] == yy;
  }

  lemma {:induction false} CommaAfterDigits(dd: string, yy: string)
    requires IsDigits(dd)
    ensures IndexOf(dd + ", " + yy, ',') == |dd|
    decreases |dd|
  {
    if dd == [] {
      assert (dd + ", " + yy)[0] == ',';
    } else {
      assert (dd + ", " + yy)[1..] == dd[1..] + ", " + yy;
      CommaAfterDigits(dd[1..], yy);
    }
  }
}
