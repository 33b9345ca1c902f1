/**
 * Calendar arithmetic behind the app's date keys. A day is an integer count of days from
 * 1970-01-01 (day 0, a Thursday), in the proleptic Gregorian calendar. The source keeps dates
 * as `YYYY-MM-DD` strings and JavaScript `Date` objects; here they are day numbers, with the
 * conversion to (year, month, day), the `YYYY-MM-DD` text, JavaScript's `new Date(y, m, d)`
 * month arithmetic and the ISO 8601 week key written out.
 */
module Calendar {
  import opened Text
  import opened Wrappers

  /** Days since 1970-01-01. */
  type Day = int

  /** A calendar date; `month` is 1..12 as in `YYYY-MM-DD`. */
  datatype Date = Date(year: int, month: int, day: int)

  predicate IsLeap(y: int) {
    y % 4 == 0 && (y % 100 != 0 || y % 400 == 0)
  }

  function DaysInYear(y: int): int {
    if IsLeap(y) then 366 else 365
  }

  function DaysInMonth(y: int, m: int): int
    requires 1 <= m <= 12
  {
    if m == 2 then (if IsLeap(y) then 29 else 28)
    else if m == 4 || m == 6 || m == 9 || m == 11 then 30
    else 31
  }

  predicate ValidDate(d: Date) {
    1 <= d.month <= 12 && 1 <= d.day <= DaysInMonth(d.year, d.month)
  }

  /** Leap years among 1..y (for y >= 0; shifted consistently for y < 0). */
  function LeapYearsThrough(y: int): int {
    y / 4 - y / 100 + y / 400
  }

  /** Days from 1970-01-01 to January 1st of year `y`. */
  function DaysBeforeYear(y: int): int {
    365 * (y - 1970) + LeapYearsThrough(y - 1) - LeapYearsThrough(1969)
  }

  /** Days from January 1st to the first of month `m` (13 stands for the next January). */
  function DaysBeforeMonth(y: int, m: int): int
    requires 1 <= m <= 13
  {
    var leap := if IsLeap(y) then 1 else 0;
    if m == 1 then 0
    else if m == 2 then 31
    else if m == 3 then 59 + leap
    else if m == 4 then 90 + leap
    else if m == 5 then 120 + leap
    else if m == 6 then 151 + leap
    else if m == 7 then 181 + leap
    else if m == 8 then 212 + leap
    else if m == 9 then 243 + leap
    else if m == 10 then 273 + leap
    else if m == 11 then 304 + leap
    else if m == 12 then 334 + leap
    else 365 + leap
  }

  lemma StepOfDivision4(y: int)
    ensures y / 4 - (y - 1) / 4 == (if y % 4 == 0 then 1 else 0)
  {
  }

  lemma StepOfDivision100(y: int)
    ensures y / 100 - (y - 1) / 100 == (if y % 100 == 0 then 1 else 0)
  {
  }

  lemma StepOfDivision400(y: int)
    ensures y / 400 - (y - 1) / 400 == (if y % 400 == 0 then 1 else 0)
  {
  }

  lemma CenturiesDivisible(y: int)
    ensures y % 100 == 0 ==> y % 4 == 0
    ensures y % 400 == 0 ==> y % 100 == 0
  {
    if y % 100 == 0 {
      CenturyDivisibleBy4(y / 100);
      assert y == 100 * (y / 100);
    }
    if y % 400 == 0 {
      FourCenturiesDivisibleBy100(y / 400);
      assert y == 400 * (y / 400);
    }
  }

  lemma CenturyDivisibleBy4(q: int)
    ensures (100 * q) % 4 == 0
  {
    var m := 25 * q;
    assert 100 * q == 4 * m;
  }

  lemma FourCenturiesDivisibleBy100(q: int)
    ensures (400 * q) % 100 == 0
  {
    var m := 4 * q;
    assert 400 * q == 100 * m;
  }

  /** Consecutive New Years are one year length apart. */
  lemma YearLength(y: int)
    ensures DaysBeforeYear(y + 1) == DaysBeforeYear(y) + DaysInYear(y)
  {
    StepOfDivision4(y);
    StepOfDivision100(y);
    StepOfDivision400(y);
    CenturiesDivisible(y);
    assert LeapYearsThrough(y) - LeapYearsThrough(y - 1) == (if IsLeap(y) then 1 else 0);
  }

  /** Consecutive months are one month length apart, and the twelve months fill the year. */
  lemma MonthLength(y: int, m: int)
    requires 1 <= m <= 12
    ensures DaysBeforeMonth(y, m + 1) == DaysBeforeMonth(y, m) + DaysInMonth(y, m)
    ensures DaysBeforeMonth(y, 13) == DaysInYear(y)
  {
  }

  /** The day number of a date. */
  function DaysFromCivil(d: Date): Day
    requires ValidDate(d)
  {
    DaysBeforeYear(d.year) + DaysBeforeMonth(d.year, d.month) + d.day - 1
  }

  /**
   * Splits `k` days after January 1st of year `y` into a year and a day of that year.
   * It walks year by year, so its contract is proved from the contracts of the recursive calls.
   */
  function YearSplit(y: int, k: int): (r: (int, int))
    ensures 0 <= r.1 < DaysInYear(r.0)
    ensures DaysBeforeYear(r.0) + r.1 == DaysBeforeYear(y) + k
    decreases if k < 0 then 366 - k else k
  {
    if k < 0 then
      YearLength(y - 1);
      YearSplit(y - 1, k + DaysInYear(y - 1))
    else if k >= DaysInYear(y) then
      YearLength(y);
      YearSplit(y + 1, k - DaysInYear(y))
    else
      (y, k)
  }

  /** Splits day `k` of year `y`, counted from the first of month `m`, into a month and a day index. */
  function MonthSplit(y: int, m: int, k: int): (r: (int, int))
    requires 1 <= m <= 12 && 0 <= k < DaysInYear(y) - DaysBeforeMonth(y, m)
    ensures 1 <= r.0 <= 12 && 0 <= r.1 < DaysInMonth(y, r.0)
    ensures DaysBeforeMonth(y, r.0) + r.1 == DaysBeforeMonth(y, m) + k
    decreases 12 - m
  {
    MonthLength(y, m);
    if k < DaysInMonth(y, m) then (m, k)
    else MonthSplit(y, m + 1, k - DaysInMonth(y, m))
  }

  /** The date of a day number; it is valid and converts back to the same day. */
  function CivilFromDays(n: Day): (d: Date)
    ensures ValidDate(d) && DaysFromCivil(d) == n
  {
    var yk := YearSplit(1970, n);
    var md := MonthSplit(yk.0, 1, yk.1);
    Date(yk.0, md.0, md.1 + 1)
  }

  /** Chronological order of dates: year, then month, then day. */
  predicate DateBefore(a: Date, b: Date) {
    a.year < b.year
    || (a.year == b.year && (a.month < b.month || (a.month == b.month && a.day < b.day)))
  }

  lemma {:induction false} YearsIncrease(a: int, b: int)
    requires a < b
    ensures DaysBeforeYear(a) + DaysInYear(a) <= DaysBeforeYear(b)
    decreases b - a
  {
    YearLength(a);
    if a + 1 < b {
      YearsIncrease(a + 1, b);
    }
  }

  lemma MonthsIncrease(y: int, a: int, b: int)
    requires 1 <= a < b <= 13
    ensures DaysBeforeMonth(y, a) + DaysInMonth(y, a) <= DaysBeforeMonth(y, b)
  {
  }

  lemma DayOfYearInRange(d: Date)
    requires ValidDate(d)
    ensures 0 <= DaysBeforeMonth(d.year, d.month) + d.day - 1 < DaysInYear(d.year)
  {
    MonthLength(d.year, d.month);
    if d.month < 12 {
      MonthsIncrease(d.year, d.month + 1, 13);
    }
  }

  /** Later dates have larger day numbers. */
  lemma CivilIncreasing(a: Date, b: Date)
    requires ValidDate(a) && ValidDate(b) && DateBefore(a, b)
    ensures DaysFromCivil(a) < DaysFromCivil(b)
  {
    DayOfYearInRange(a);
    DayOfYearInRange(b);
    if a.year < b.year {
      YearsIncrease(a.year, b.year);
    } else if a.month < b.month {
      MonthsIncrease(a.year, a.month, b.month);
    }
  }

  /** Distinct valid dates have distinct day numbers. */
  lemma CivilInjective(a: Date, b: Date)
    requires ValidDate(a) && ValidDate(b) && DaysFromCivil(a) == DaysFromCivil(b)
    ensures a == b
  {
    if DateBefore(a, b) {
      CivilIncreasing(a, b);
    } else if DateBefore(b, a) {
      CivilIncreasing(b, a);
    }
  }

  /** Converting a valid date to its day number and back gives the same date. */
  lemma CivilRoundTrip(d: Date)
    requires ValidDate(d)
    ensures CivilFromDays(DaysFromCivil(d)) == d
  {
    CivilInjective(CivilFromDays(DaysFromCivil(d)), d);
  }

  /** Day numbers and dates are ordered alike. */
  lemma DayOrderIsDateOrder(m: Day, n: Day)
    ensures m < n <==> DateBefore(CivilFromDays(m), CivilFromDays(n))
  {
    var a, b := CivilFromDays(m), CivilFromDays(n);
    if DateBefore(a, b) {
      CivilIncreasing(a, b);
    } else if m < n {
      if DateBefore(b, a) {
        CivilIncreasing(b, a);
      }
    }
  }

  /** The year of a day is the year whose span contains it. */
  lemma YearOfDay(n: Day, y: int)
    requires DaysBeforeYear(y) <= n < DaysBeforeYear(y) + DaysInYear(y)
    ensures CivilFromDays(n).year == y
  {
    var d := CivilFromDays(n);
    DayOfYearInRange(d);
    if d.year < y {
      YearsIncrease(d.year, y);
    } else if y < d.year {
      YearsIncrease(y, d.year);
    }
  }

  // ---------------------------------------------------------------------------
  // YYYY-MM-DD
  // ---------------------------------------------------------------------------

  /** Days whose year has four digits, the range where `toISOString` writes `YYYY-MM-DD`. */
  predicate HasFourDigitYear(n: Day) {
    0 <= CivilFromDays(n).year <= 9999
  }

  /** The `YYYY-MM-DD` key of a day (`toISOString().split('T')[0]`). */
  function DateText(n: Day): (s: string)
    requires HasFourDigitYear(n)
    ensures |s| == 10 && s[4] == '-' && s[7] == '-'
  {
    DateFields(CivilFromDays(n))
  }

  /** A date with a four-digit year as `YYYY-MM-DD`. */
  function DateFields(d: Date): (s: string)
    requires ValidDate(d) && 0 <= d.year <= 9999
    ensures |s| == 10 && s[4] == '-' && s[7] == '-'
  {
    assert Pow10(4) == 10000 && Pow10(2) == 100;
    FixedDigits(d.year, 4) + "-" + FixedDigits(d.month, 2) + "-" + FixedDigits(d.day, 2)
  }

  /** Reads a `YYYY-MM-DD` key; `None` for text that is not a valid date in that form. */
  function ParseDateText(s: string): (r: Option<Day>)
    ensures r.Some? ==> HasFourDigitYear(r.value)
  {
    if |s| == 10 && s[4] == '-' && s[7] == '-'
       && IsDigits(s[..4]) && IsDigits(s[5..7]) && IsDigits(s[8..]) then
      var d := Date(ParseDigits(s[..4]), ParseDigits(s[5..7]), ParseDigits(s[8..]));
      if ValidDate(d) && d.year <= 9999 then
        CivilRoundTrip(d);
        Some(DaysFromCivil(d))
      else None
    else None
  }

  /** Writing a day as `YYYY-MM-DD` and reading it back gives the same day. */
  lemma DateTextRoundTrip(n: Day)
    requires HasFourDigitYear(n)
    ensures ParseDateText(DateText(n)) == Some(n)
  {
    var d := CivilFromDays(n);
    assert Pow10(4) == 10000 && Pow10(2) == 100;
    var ys, ms, ds := FixedDigits(d.year, 4), FixedDigits(d.month, 2), FixedDigits(d.day, 2);
    var s := DateText(n);
    assert s[..4] == ys && s[5..7] == ms && s[8..] == ds;
    FixedDigitsRoundTrip(d.year, 4);
    FixedDigitsRoundTrip(d.month, 2);
    FixedDigitsRoundTrip(d.day, 2);
  }

  /** Three fields joined by dashes, with the first two of equal widths, compare field by field. */
  lemma DashedFieldsOrder(a1: string, a2: string, a3: string, b1: string, b2: string, b3: string)
    requires |a1| == |b1| && |a2| == |b2|
    ensures LexLess(a1 + "-" + a2 + "-" + a3, b1 + "-" + b2 + "-" + b3) <==>
      LexLess(a1, b1) || (a1 == b1 && (LexLess(a2, b2) || (a2 == b2 && LexLess(a3, b3))))
  {
    LexLessIrreflexive("-");
    assert a1 + "-" + a2 + "-" + a3 == (a1 + "-") + ((a2 + "-") + a3);
    assert b1 + "-" + b2 + "-" + b3 == (b1 + "-") + ((b2 + "-") + b3);
    LexLessConcat(a1 + "-", (a2 + "-") + a3, b1 + "-", (b2 + "-") + b3);
    LexLessConcat(a1, "-", b1, "-");
    LexLessConcat(a2 + "-", a3, b2 + "-", b3);
    LexLessConcat(a2, "-", b2, "-");
    assert a1 + "-" == b1 + "-" ==> a1 == b1 by {
      if a1 + "-" == b1 + "-" {
        assert a1 == (a1 + "-")[..|a1|];
        assert b1 == (b1 + "-")[..|b1|];
      }
    }
    assert a2 + "-" == b2 + "-" ==> a2 == b2 by {
      if a2 + "-" == b2 + "-" {
        assert a2 == (a2 + "-")[..|a2|];
        assert b2 == (b2 + "-")[..|b2|];
      }
    }
  }

  /** Equal fixed-width digit strings stand for equal numbers. */
  lemma FixedDigitsInjective(x: nat, y: nat, w: nat)
    requires x < Pow10(w) && y < Pow10(w)
    ensures FixedDigits(x, w) == FixedDigits(y, w) <==> x == y
  {
    FixedDigitsRoundTrip(x, w);
    FixedDigitsRoundTrip(y, w);
  }

  /**
   * `YYYY-MM-DD` keys compare as strings exactly as the days compare: the source's
   * `a.nextReviewDate <= todayStr` and `m.deadline < today` on strings are day comparisons.
   */
  lemma DateTextOrder(m: Day, n: Day)
    requires HasFourDigitYear(m) && HasFourDigitYear(n)
    ensures LexLess(DateText(m), DateText(n)) <==> m < n
    ensures LexLessEq(DateText(m), DateText(n)) <==> m <= n
  {
    var a, b := CivilFromDays(m), CivilFromDays(n);
    DateFieldsOrder(a, b);
    DayOrderIsDateOrder(m, n);
    if DateText(m) == DateText(n) {
      DateTextRoundTrip(m);
      DateTextRoundTrip(n);
    }
  }

  /** The dashed fields of two dates with four-digit years compare as strings as the dates do. */
  lemma DateFieldsOrder(a: Date, b: Date)
    requires ValidDate(a) && ValidDate(b) && 0 <= a.year <= 9999 && 0 <= b.year <= 9999
    ensures LexLess(DateFields(a), DateFields(b)) <==> DateBefore(a, b)
  {
    assert Pow10(4) == 10000 && Pow10(2) == 100;
    var ya, ma, da := FixedDigits(a.year, 4), FixedDigits(a.month, 2), FixedDigits(a.day, 2);
    var yb, mb, db := FixedDigits(b.year, 4), FixedDigits(b.month, 2), FixedDigits(b.day, 2);
    DashedFieldsOrder(ya, ma, da, yb, mb, db);
    FixedDigitsOrder(a.year, b.year, 4);
    FixedDigitsOrder(a.month, b.month, 2);
    FixedDigitsOrder(a.day, b.day, 2);
    FixedDigitsInjective(a.year, b.year, 4);
    FixedDigitsInjective(a.month, b.month, 2);
  }

  // ---------------------------------------------------------------------------
  // weekdays and JavaScript's month arithmetic
  // ---------------------------------------------------------------------------

  /** `getDay()`: 0 for Sunday .. 6 for Saturday. */
  function JsDay(n: Day): int {
    (n + 4) % 7
  }

  /** The weekday counted from Monday: 0 for Monday .. 6 for Sunday. */
  function Weekday(n: Day): (w: int)
    ensures 0 <= w < 7
  {
    (n + 3) % 7
  }

  /** The Monday starting the week of `n`. */
  function MondayOf(n: Day): (m: Day)
    ensures Weekday(m) == 0 && m <= n < m + 7
  {
    n - Weekday(n)
  }

  /** Moving by whole weeks keeps the weekday. */
  lemma WeekdayPeriodic(n: Day, k: int)
    ensures Weekday(n + 7 * k) == Weekday(n)
    ensures MondayOf(n + 7 * k) == MondayOf(n) + 7 * k
  {
  }

  /**
   * `new Date(year, month, day)` with a 0-based month as JavaScript computes it: months outside
   * 0..11 carry into the year and days outside the month carry into neighbouring months.
   */
  function MakeDay(year: int, month: int, day: int): (r: Day)
    ensures 0 <= month <= 11 ==> r == DaysFromCivil(Date(year, month + 1, 1)) + day - 1
  {
    assert 0 <= month <= 11 ==> month / 12 == 0 && month % 12 == month;
    DaysFromCivil(Date(year + month / 12, month % 12 + 1, 1)) + day - 1
  }

  /** `new Date(year, month + 1, 0).getDate()`: a day of a month, whatever the arguments. */
  function DaysInMonthJs(year: int, month: int): (r: int)
    ensures 1 <= r <= 31
  {
    CivilFromDays(MakeDay(year, month + 1, 0)).day
  }

  /** `new Date(year, month + 1, 1)` for a 0-based month in range: the day after its last day. */
  lemma NextMonthStart(year: int, month: int)
    requires 0 <= month <= 11
    ensures MakeDay(year, month + 1, 1) == DaysBeforeYear(year) + DaysBeforeMonth(year, month + 2)
  {
    if month == 11 {
      assert (month + 1) / 12 == 1 && (month + 1) % 12 == 0;
      assert MakeDay(year, month + 1, 1) == DaysBeforeYear(year + 1);
      YearLength(year);
      MonthLength(year, 12);
    } else {
      assert (month + 1) / 12 == 0 && (month + 1) % 12 == month + 1;
    }
  }

  /** The day-zero trick of DaysInMonthJs gives the length of the month. */
  lemma DaysInMonthJsIsMonthLength(year: int, month: int)
    requires 0 <= month <= 11
    ensures DaysInMonthJs(year, month) == DaysInMonth(year, month + 1)
  {
    var last := Date(year, month + 1, DaysInMonth(year, month + 1));
    NextMonthStart(year, month);
    MonthLength(year, month + 1);
    assert MakeDay(year, month + 1, 0) == DaysFromCivil(last);
    CivilRoundTrip(last);
  }

  /** `new Date(year, month, d)` for an in-range 0-based month and day is that calendar date. */
  lemma MakeDayInRange(year: int, month: int, day: int)
    requires 0 <= month <= 11 && 1 <= day <= DaysInMonth(year, month + 1)
    ensures MakeDay(year, month, day) == DaysFromCivil(Date(year, month + 1, day))
    ensures CivilFromDays(MakeDay(year, month, day)) == Date(year, month + 1, day)
  {
    var date := Date(year, month + 1, day);
    assert DaysFromCivil(date) == DaysBeforeYear(year) + DaysBeforeMonth(year, month + 1) + day - 1;
    CivilRoundTrip(date);
  }

  /** The last day of a 0-based month, `new Date(year, month + 1, 0)`, closes a span of the month's length. */
  lemma MonthSpan(year: int, month: int)
    requires 0 <= month <= 11
    ensures MakeDay(year, month + 1, 0) == MakeDay(year, month, 1) + DaysInMonth(year, month + 1) - 1
  {
    NextMonthStart(year, month);
    MonthLength(year, month + 1);
  }

  // ---------------------------------------------------------------------------
  // ISO 8601 week key
  // ---------------------------------------------------------------------------

  /** A week key `year-Wweek`. */
  datatype WeekKey = WeekKey(year: int, week: int)

  /** `Math.ceil(a / b)` for a positive divisor. */
  function CeilDiv(a: int, b: int): (q: int)
    requires b > 0
    ensures (q - 1) * b < a <= q * b
  {
    (a + b - 1) / b
  }

  /** The Thursday of the Monday-to-Sunday week containing `n`. */
  function ThursdayOf(n: Day): Day {
    MondayOf(n) + 3
  }

  /** The day of its year (0 = January 1st) of `n`. */
  function DayOfYear(n: Day): (k: int)
    ensures 0 <= k < DaysInYear(CivilFromDays(n).year)
  {
    var d := CivilFromDays(n);
    DayOfYearInRange(d);
    n - DaysBeforeYear(d.year)
  }

  /** The Thursday the source's getWeekKey moves to: `getUTCDay() || 7` numbers Monday 1 .. Sunday 7. */
  function IsoThursday(n: Day): (t: Day)
    ensures t == ThursdayOf(n)
  {
    n + 4 - (if JsDay(n) == 0 then 7 else JsDay(n))
  }

  /** Week `k / 7 + 1` holds day `k` (from 0) of a year whose week 1 starts on January 1st. */
  lemma WeekOfDayIndex(k: int)
    requires k >= 0
    ensures CeilDiv(k + 1, 7) == k / 7 + 1
  {
  }

  /**
   * The source's getWeekKey: move to the Thursday of the week, take that Thursday's year, and
   * count weeks from that year's January 1st.
   */
  function IsoWeekKey(n: Day): (k: WeekKey)
    ensures 1 <= k.week <= 53
    ensures k.year == CivilFromDays(ThursdayOf(n)).year
  {
    var thursday := IsoThursday(n);
    var year := CivilFromDays(thursday).year;
    var jan1 := DaysFromCivil(Date(year, 1, 1));
    WeekOfDayIndex(DayOfYear(thursday));
    WeekKey(year, CeilDiv((thursday - jan1) + 1, 7))
  }

  /** The week number is the count of whole weeks before the Thursday in its year, plus one. */
  lemma WeekNumber(n: Day)
    ensures IsoWeekKey(n).week == DayOfYear(ThursdayOf(n)) / 7 + 1
  {
    WeekOfDayIndex(DayOfYear(ThursdayOf(n)));
  }

  /** All seven days of a Monday-to-Sunday week get the same key. */
  lemma SameWeekSameKey(a: Day, b: Day)
    requires MondayOf(a) == MondayOf(b)
    ensures IsoWeekKey(a) == IsoWeekKey(b)
  {
    WeekNumber(a);
    WeekNumber(b);
  }

  /** January 4th is always in week 1 of its own year, as ISO 8601 requires. */
  lemma January4InWeekOne(y: int)
    ensures IsoWeekKey(DaysFromCivil(Date(y, 1, 4))) == WeekKey(y, 1)
  {
    var n := DaysFromCivil(Date(y, 1, 4));
    var t := ThursdayOf(n);
    assert DaysBeforeYear(y) <= t < DaysBeforeYear(y) + 7;
    YearOfDay(t, y);
    WeekNumber(n);
  }

  /** Week keys in year-then-week order. */
  predicate KeyBefore(a: WeekKey, b: WeekKey) {
    a.year < b.year || (a.year == b.year && a.week < b.week)
  }

  /** A week later, a day is either seven days further into the same year or early in the next one. */
  lemma WeekLaterInYear(t: Day)
    ensures var y := CivilFromDays(t).year;
      if DayOfYear(t) + 7 < DaysInYear(y) then
        CivilFromDays(t + 7).year == y && DayOfYear(t + 7) == DayOfYear(t) + 7
      else
        CivilFromDays(t + 7).year == y + 1 && DayOfYear(t + 7) == DayOfYear(t) + 7 - DaysInYear(y)
  {
    var y := CivilFromDays(t).year;
    var start, len := DaysBeforeYear(y), DaysInYear(y);
    assert DayOfYear(t) == t - start;
    if DayOfYear(t) + 7 < len {
      WeekLaterSameYear(t, y);
    } else {
      WeekLaterNextYear(t, y);
    }
  }

  /** Seven days on from `t`, still inside year `y`. */
  lemma WeekLaterSameYear(t: Day, y: int)
    requires DaysBeforeYear(y) <= t && t + 7 < DaysBeforeYear(y) + DaysInYear(y)
    ensures CivilFromDays(t + 7).year == y && DayOfYear(t + 7) == t + 7 - DaysBeforeYear(y)
  {
    DayOfYearFromStart(t + 7, y);
  }

  /** Seven days on from the last week of year `y`, into the next year. */
  lemma WeekLaterNextYear(t: Day, y: int)
    requires t < DaysBeforeYear(y) + DaysInYear(y) <= t + 7
    ensures CivilFromDays(t + 7).year == y + 1
    ensures DayOfYear(t + 7) == t + 7 - DaysBeforeYear(y) - DaysInYear(y)
  {
    YearLength(y);
    DayOfYearFromStart(t + 7, y + 1);
  }

  /** A day in the span of year `y` lies in year `y`, that many days after its January 1st. */
  lemma DayOfYearFromStart(n: Day, y: int)
    requires DaysBeforeYear(y) <= n < DaysBeforeYear(y) + DaysInYear(y)
    ensures CivilFromDays(n).year == y && DayOfYear(n) == n - DaysBeforeYear(y)
  {
    YearOfDay(n, y);
  }

  /** The week after the week of `n` has the next key: the next week number, or week 1 of the next year. */
  lemma NextWeekKey(n: Day)
    ensures IsoWeekKey(n + 7) ==
      (var k := IsoWeekKey(n);
       if DayOfYear(ThursdayOf(n)) + 7 < DaysInYear(k.year) then WeekKey(k.year, k.week + 1)
       else WeekKey(k.year + 1, 1))
  {
    var t := ThursdayOf(n);
    WeekdayPeriodic(n, 1);
    assert ThursdayOf(n + 7) == t + 7;
    WeekNumber(n);
    WeekNumber(n + 7);
    WeekLaterInYear(t);
    var doy := DayOfYear(t);
    assert (doy + 7) / 7 == doy / 7 + 1;
  }

  lemma KeyBeforeTransitive(a: WeekKey, b: WeekKey, c: WeekKey)
    requires KeyBefore(a, b) && KeyBefore(b, c)
    ensures KeyBefore(a, c)
  {
  }

  /** Later weeks have later keys, so different weeks never share a key. */
  lemma {:induction false} LaterWeekLaterKey(n: Day, j: nat)
    requires j > 0
    ensures KeyBefore(IsoWeekKey(n), IsoWeekKey(n + 7 * j))
  {
    var p := n + 7 * (j - 1);
    NextWeekLaterKey(p);
    assert p + 7 == n + 7 * j;
    if j > 1 {
      LaterWeekLaterKey(n, j - 1);
      KeyBeforeTransitive(IsoWeekKey(n), IsoWeekKey(p), IsoWeekKey(p + 7));
    }
  }

  /** The next week's key comes after this week's. */
  lemma NextWeekLaterKey(n: Day)
    ensures KeyBefore(IsoWeekKey(n), IsoWeekKey(n + 7))
  {
    NextWeekKey(n);
  }

  /** Two Mondays lie a whole number of weeks apart. */
  lemma MondaysWeeksApart(a: Day, b: Day)
    requires Weekday(a) == 0 && Weekday(b) == 0 && a < b
    ensures b == a + 7 * ((b - a) / 7) && (b - a) / 7 > 0
  {
    assert (a + 3) % 7 == 0 && (b + 3) % 7 == 0;
    assert a + 3 == 7 * ((a + 3) / 7);
    assert b + 3 == 7 * ((b + 3) / 7);
    assert b - a == 7 * ((b + 3) / 7 - (a + 3) / 7);
  }

  /** Two days get the same week key exactly when they fall in the same Monday-to-Sunday week. */
  lemma SameKeyIffSameWeek(a: Day, b: Day)
    ensures IsoWeekKey(a) == IsoWeekKey(b) <==> MondayOf(a) == MondayOf(b)
  {
    if MondayOf(a) < MondayOf(b) {
      EarlierWeekEarlierKey(a, b);
    } else if MondayOf(b) < MondayOf(a) {
      EarlierWeekEarlierKey(b, a);
    } else {
      SameWeekSameKey(a, b);
    }
  }

  /** A day of an earlier week has an earlier key. */
  lemma EarlierWeekEarlierKey(a: Day, b: Day)
    requires MondayOf(a) < MondayOf(b)
    ensures KeyBefore(IsoWeekKey(a), IsoWeekKey(b))
  {
    var ma, mb := MondayOf(a), MondayOf(b);
    var k := (mb - ma) / 7;
    assert k > 0 && ma + 7 * k == mb by { MondaysWeeksApart(ma, mb); }
    assert KeyBefore(IsoWeekKey(ma), IsoWeekKey(mb)) by { LaterWeekLaterKey(ma, k); }
    assert IsoWeekKey(a) == IsoWeekKey(ma) by { SameWeekSameKey(a, ma); }
    assert IsoWeekKey(b) == IsoWeekKey(mb) by { SameWeekSameKey(b, mb); }
  }

  /** getWeekKey's text, `${year}-W${week}`, with the week number not zero-padded. */
  function WeekKeyText(k: WeekKey): (t: string)
    requires k.year >= 0 && k.week >= 0
    ensures |t| == |Decimal(k.year)| + 2 + |Decimal(k.week)|
    ensures t[|Decimal(k.year)|] == '-' && t[|Decimal(k.year)| + 1] == 'W'
  {
    Decimal(k.year) + "-W" + Decimal(k.week)
  }

  /** Different week keys have different texts, so comparing texts compares keys. */
  lemma WeekKeyTextInjective(a: WeekKey, b: WeekKey)
    requires a.year >= 0 && a.week >= 0 && b.year >= 0 && b.week >= 0
    requires WeekKeyText(a) == WeekKeyText(b)
    ensures a == b
  {
    var ya, yb := Decimal(a.year), Decimal(b.year);
    var t := WeekKeyText(a);
    assert ya == t[..|ya|] == yb;
    assert Decimal(a.week) == t[|ya| + 2..] == Decimal(b.week);
    DecimalRoundTrip(a.year);
    DecimalRoundTrip(b.year);
    DecimalRoundTrip(a.week);
    DecimalRoundTrip(b.week);
  }
}
