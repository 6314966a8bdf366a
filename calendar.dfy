/** Gregorian dates as Python's `datetime.date` computes with them: years 1 to
    9999, day ordinals counted from 0001-01-01 (ordinal 1, a Monday), weekdays
    with Monday = 0, comparison in (year, month, day) order, `replace(year=...)`,
    adding days, and the `%d.%m.%Y` text form. */
module Calendar {

  const MinYear: int := 1
  const MaxYear: int := 9999
  /** The ordinal of 9999-12-31, the last date Python can represent. */
  const MaxOrdinal: int := 3652059

  datatype Date = Date(year: int, month: int, day: int)

  predicate IsLeapYear(y: int)
  {
    y % 4 == 0 && (y % 100 != 0 || y % 400 == 0)
  }

  function DaysInYear(y: int): int
  {
    if IsLeapYear(y) then 366 else 365
  }

  function DaysInMonth(y: int, m: int): (n: int)
    requires 1 <= m <= 12
    ensures 28 <= n <= 31
  {
    if m == 2 then (if IsLeapYear(y) then 29 else 28)
    else if m == 4 || m == 6 || m == 9 || m == 11 then 30
    else 31
  }

  /** A date Python's `date` constructor accepts. */
  predicate ValidDate(d: Date)
  {
    MinYear <= d.year <= MaxYear && 1 <= d.month <= 12 && 1 <= d.day <= DaysInMonth(d.year, d.month)
  }

  /** Days in the years before year `y`. */
  function DaysBeforeYear(y: int): int
    requires y >= 1
  {
    var p := y - 1;
    p * 365 + p / 4 - p / 100 + p / 400
  }

  /** Days in the months of year `y` before month `m`. */
  function DaysBeforeMonth(y: int, m: int): int
    requires 1 <= m <= 12
  {
    var base :=
      if m == 1 then 0 else if m == 2 then 31 else if m == 3 then 59
      else if m == 4 then 90 else if m == 5 then 120 else if m == 6 then 151
      else if m == 7 then 181 else if m == 8 then 212 else if m == 9 then 243
      else if m == 10 then 273 else if m == 11 then 304 else 334;
    base + (if m > 2 && IsLeapYear(y) then 1 else 0)
  }

  /** `d.toordinal()`: 0001-01-01 is day 1. */
  function ToOrdinal(d: Date): int
    requires ValidDate(d)
  {
    DaysBeforeYear(d.year) + DaysBeforeMonth(d.year, d.month) + d.day
  }

  /** `d.weekday()`: Monday is 0, Saturday 5, Sunday 6. */
  function Weekday(d: Date): (w: int)
    requires ValidDate(d)
    ensures 0 <= w < 7
  {
    (ToOrdinal(d) + 6) % 7
  }

  /** `a < b` on dates: (year, month, day) compared lexicographically. */
  predicate Before(a: Date, b: Date)
  {
    a.year < b.year || (a.year == b.year && (a.month < b.month || (a.month == b.month && a.day < b.day)))
  }

  // ---------------------------------------------------------------------------
  // The ordinal is an order isomorphism

  lemma DaysBeforeYearStep(y: int)
    requires y >= 1
    ensures DaysBeforeYear(y + 1) == DaysBeforeYear(y) + DaysInYear(y)
  {
    var p := y - 1;
    assert (p + 1) / 4 == p / 4 + (if y % 4 == 0 then 1 else 0);
    assert (p + 1) / 100 == p / 100 + (if y % 100 == 0 then 1 else 0);
    assert (p + 1) / 400 == p / 400 + (if y % 400 == 0 then 1 else 0);
  }

  lemma {:induction false} DaysBeforeYearMonotone(y1: int, y2: int)
    requires 1 <= y1 <= y2
    ensures DaysBeforeYear(y1) + 365 * (y2 - y1) <= DaysBeforeYear(y2)
    decreases y2 - y1
  {
    if y1 < y2 {
      DaysBeforeYearStep(y1);
      DaysBeforeYearMonotone(y1 + 1, y2);
    }
  }

  /** The months of a year follow each other without gaps and fill the year. */
  lemma MonthTable(y: int, m: int)
    requires 1 <= m <= 12
    ensures m < 12 ==> DaysBeforeMonth(y, m + 1) == DaysBeforeMonth(y, m) + DaysInMonth(y, m)
    ensures m == 12 ==> DaysBeforeMonth(y, m) + DaysInMonth(y, m) == DaysInYear(y)
  {
  }

  lemma {:induction false} MonthsMonotone(y: int, m1: int, m2: int)
    requires 1 <= m1 < m2 <= 12
    ensures DaysBeforeMonth(y, m1) + DaysInMonth(y, m1) <= DaysBeforeMonth(y, m2)
    decreases m2 - m1
  {
    MonthTable(y, m1);
    if m1 + 1 < m2 {
      MonthsMonotone(y, m1 + 1, m2);
    }
  }

  /** The day of the year of a valid date lies in 1 .. days in that year. */
  lemma DayOfYearBounds(d: Date)
    requires ValidDate(d)
    ensures 1 <= DaysBeforeMonth(d.year, d.month) + d.day <= DaysInYear(d.year)
  {
    MonthTable(d.year, 12);
    if d.month < 12 {
      MonthsMonotone(d.year, d.month, 12);
    }
  }

  /** Comparing dates is comparing their ordinals. */
  lemma BeforeIsOrdinalOrder(a: Date, b: Date)
    requires ValidDate(a) && ValidDate(b)
    ensures Before(a, b) <==> ToOrdinal(a) < ToOrdinal(b)
  {
    if Before(a, b) {
      OrdinalIncreases(a, b);
    } else if a == b {
    } else {
      assert Before(b, a);
      OrdinalIncreases(b, a);
    }
  }

  lemma OrdinalIncreases(a: Date, b: Date)
    requires ValidDate(a) && ValidDate(b) && Before(a, b)
    ensures ToOrdinal(a) < ToOrdinal(b)
  {
    if a.year < b.year {
      DayOfYearBounds(a);
      DayOfYearBounds(b);
      DaysBeforeYearStep(a.year);
      DaysBeforeYearMonotone(a.year + 1, b.year);
    } else if a.month < b.month {
      MonthsMonotone(a.year, a.month, b.month);
    }
  }

  /** Distinct dates have distinct ordinals. */
  lemma OrdinalInjective(a: Date, b: Date)
    requires ValidDate(a) && ValidDate(b) && ToOrdinal(a) == ToOrdinal(b)
    ensures a == b
  {
    BeforeIsOrdinalOrder(a, b);
    BeforeIsOrdinalOrder(b, a);
  }

  lemma OrdinalRange(d: Date)
    requires ValidDate(d)
    ensures 1 <= ToOrdinal(d) <= MaxOrdinal
  {
    DayOfYearBounds(d);
    assert ToOrdinal(Date(MaxYear, 12, 31)) == MaxOrdinal;
    if d != Date(MaxYear, 12, 31) {
      OrdinalIncreases(d, Date(MaxYear, 12, 31));
    }
  }

  // ---------------------------------------------------------------------------
  // Adding days

  /** The day after `d` (a date past 9999-12-31 is not valid). */
  function NextDay(d: Date): Date
    requires ValidDate(d)
  {
    if d.day < DaysInMonth(d.year, d.month) then Date(d.year, d.month, d.day + 1)
    else if d.month < 12 then Date(d.year, d.month + 1, 1)
    else Date(d.year + 1, 1, 1)
  }

  /** The next day is one ordinal later, and valid unless `d` is the last date. */
  lemma NextDayOrdinal(d: Date)
    requires ValidDate(d) && ToOrdinal(d) < MaxOrdinal
    ensures ValidDate(NextDay(d))
    ensures ToOrdinal(NextDay(d)) == ToOrdinal(d) + 1
  {
    assert ToOrdinal(Date(MaxYear, 12, 31)) == MaxOrdinal;
    MonthTable(d.year, d.month);
    if d.day == DaysInMonth(d.year, d.month) && d.month == 12 {
      DaysBeforeYearStep(d.year);
    }
  }

  /** `d + timedelta(days=n)` for a result that Python can represent. */
  function AddDays(d: Date, n: nat): (r: Date)
    requires ValidDate(d) && ToOrdinal(d) + n <= MaxOrdinal
    ensures ValidDate(r) && ToOrdinal(r) == ToOrdinal(d) + n
    decreases n
  {
    if n == 0 then d
    else
      NextDayOrdinal(d);
      AddDays(NextDay(d), n - 1)
  }

  /** Moving `n` days forward moves the weekday `n` places forward. */
  lemma WeekdayAfter(d: Date, n: nat)
    requires ValidDate(d) && ToOrdinal(d) + n <= MaxOrdinal
    ensures Weekday(AddDays(d, n)) == (Weekday(d) + n) % 7
  {
    ModSevenAdd(ToOrdinal(d) + 6, n);
  }

  lemma ModSevenAdd(a: int, n: int)
    ensures (a + n) % 7 == (a % 7 + n) % 7
  {
    var k := a / 7;
    assert a == 7 * k + a % 7;
    assert a + n == 7 * k + (a % 7 + n);
  }

  // ---------------------------------------------------------------------------
  // The weekend shift of a congratulation date

  /** The congratulation date for a birthday on `d`: a Saturday or Sunday moves
      forward by `7 - weekday` days, to the Monday after; other days stay. */
  function MoveOffWeekend(d: Date): (r: Date)
    requires ValidDate(d)
    ensures ValidDate(r)
  {
    if Weekday(d) >= 5 then
      ShiftStaysInRange(d);
      AddDays(d, 7 - Weekday(d))
    else d
  }

  /** 9999-12-31 is a Friday, so the Monday after any weekend day up to it still
      exists. */
  lemma ShiftStaysInRange(d: Date)
    requires ValidDate(d) && Weekday(d) >= 5
    ensures ToOrdinal(d) + (7 - Weekday(d)) <= MaxOrdinal
  {
    OrdinalRange(d);
    WeekendBeforeEnd(ToOrdinal(d));
  }

  /** The same on day numbers: the last day number falls on a Friday. */
  lemma WeekendBeforeEnd(o: int)
    requires 1 <= o <= MaxOrdinal && (o + 6) % 7 >= 5
    ensures o + (7 - (o + 6) % 7) <= MaxOrdinal
  {
    var q := (o + 6) / 7;
    assert o + 6 == 7 * q + (o + 6) % 7;
    assert q <= 521722;
  }

  /** The congratulation date is never a weekend day; a weekend birthday moves to
      the Monday after it (Saturday by two days, Sunday by one), and a weekday
      birthday is its own congratulation date. */
  lemma MoveOffWeekendSpec(d: Date)
    requires ValidDate(d)
    ensures Weekday(MoveOffWeekend(d)) < 5
    ensures Weekday(d) < 5 ==> MoveOffWeekend(d) == d
    ensures Weekday(d) >= 5 ==> Weekday(MoveOffWeekend(d)) == 0
    ensures Weekday(d) == 5 ==> ToOrdinal(MoveOffWeekend(d)) == ToOrdinal(d) + 2
    ensures Weekday(d) == 6 ==> ToOrdinal(MoveOffWeekend(d)) == ToOrdinal(d) + 1
  {
    if Weekday(d) >= 5 {
      ShiftStaysInRange(d);
      WeekdayAfter(d, 7 - Weekday(d));
    }
  }

  // ---------------------------------------------------------------------------
  // replace(year=...)

  datatype Option<T> = None | Some(value: T)

  /** `d.replace(year=y)`: None where Python raises ValueError (29 February in a
      year that is not a leap year, or a year outside 1 .. 9999). */
  function ReplaceYear(d: Date, y: int): (r: Option<Date>)
    requires ValidDate(d)
    ensures r.Some? <==> MinYear <= y <= MaxYear && !(d.month == 2 && d.day == 29 && !IsLeapYear(y))
    ensures r.Some? ==> ValidDate(r.value) && r.value == Date(y, d.month, d.day)
  {
    if MinYear <= y <= MaxYear && d.day <= DaysInMonth(y, d.month) then Some(Date(y, d.month, d.day))
    else None
  }

  // ---------------------------------------------------------------------------
  // strftime("%d.%m.%Y") and reading it back

  function DigitChar(n: int): char
    requires 0 <= n < 10
  {
    ('0' as int + n) as char
  }

  function Pow10(w: nat): nat
  {
    if w == 0 then 1 else 10 * Pow10(w - 1)
  }

  /** `n` written with exactly `w` decimal digits, zero-padded on the left. */
  function Digits(n: nat, w: nat): (s: string)
    ensures |s| == w
    decreases w
  {
    if w == 0 then "" else Digits(n / 10, w - 1) + [DigitChar(n % 10)]
  }

  /** The number a string of decimal digits denotes. */
  function DigitsValue(s: string): int
    decreases |s|
  {
    if s == [] then 0 else 10 * DigitsValue(s[..|s| - 1]) + (s[|s| - 1] as int - '0' as int)
  }

  /** Zero padding loses nothing: the digits read back as the number. */
  lemma {:induction false} DigitsRoundTrip(n: nat, w: nat)
    requires n < Pow10(w)
    ensures DigitsValue(Digits(n, w)) == n
    decreases w
  {
    if w > 0 {
      assert n / 10 < Pow10(w - 1);
      DigitsRoundTrip(n / 10, w - 1);
      var s := Digits(n, w);
      assert s[..|s| - 1] == Digits(n / 10, w - 1);
    }
  }

  /** `d.strftime("%d.%m.%Y")`. */
  function Format(d: Date): (s: string)
    requires ValidDate(d)
    ensures |s| == 10 && s[2] == '.' && s[5] == '.'
  {
    Digits(d.day, 2) + "." + Digits(d.month, 2) + "." + Digits(d.year, 4)
  }

  /** The date a `DD.MM.YYYY` string names. */
  function ParseDate(s: string): Date
    requires |s| == 10
  {
    Date(DigitsValue(s[6..10]), DigitsValue(s[3..5]), DigitsValue(s[..2]))
  }

  /** The key text names its date: reading it back gives the date, so distinct
      dates never share a key. */
  lemma FormatRoundTrip(d: Date)
    requires ValidDate(d)
    ensures ParseDate(Format(d)) == d
  {
    var s := Format(d);
    assert s[..2] == Digits(d.day, 2);
    assert s[3..5] == Digits(d.month, 2);
    assert s[6..10] == Digits(d.year, 4);
    DigitsRoundTrip(d.day, 2);
    DigitsRoundTrip(d.month, 2);
    DigitsRoundTrip(d.year, 4);
  }

  lemma FormatInjective(a: Date, b: Date)
    requires ValidDate(a) && ValidDate(b)
    ensures Format(a) == Format(b) <==> a == b
  {
    if Format(a) == Format(b) {
      FormatRoundTrip(a);
      FormatRoundTrip(b);
    }
  }
}
