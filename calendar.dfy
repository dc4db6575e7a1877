/** Proleptic Gregorian calendar dates as Python's `datetime.date` holds them:
    years 1 to 9999, an ordinal day number (0001-01-01 is day 1), a weekday
    derived from it (Monday is 0), lexicographic comparison, `replace(year=…)`
    and adding whole days. */
module Calendar {
  import opened Outcomes

  const MinYear := 1
  const MaxYear := 9999

  datatype Date = Date(year: int, month: int, day: int)

  /** The last date Python can represent. */
  const MaxDate := Date(MaxYear, 12, 31)

  const Monday := 0
  const Saturday := 5
  const Sunday := 6

  predicate IsLeapYear(y: int)
  {
    y % 4 == 0 && (y % 100 != 0 || y % 400 == 0)
  }

  function DaysInMonth(y: int, m: int): int
    requires 1 <= m <= 12
  {
    if m == 2 then (if IsLeapYear(y) then 29 else 28)
    else if m == 4 || m == 6 || m == 9 || m == 11 then 30
    else 31
  }

  function DaysInYear(y: int): int
  {
    if IsLeapYear(y) then 366 else 365
  }

  /** A date Python's `date` constructor accepts. */
  predicate ValidDate(d: Date)
  {
    MinYear <= d.year <= MaxYear && 1 <= d.month <= 12 && 1 <= d.day <= DaysInMonth(d.year, d.month)
  }

  /** Days in the years before `y`, as Python's `_days_before_year`:
      365 per year plus one per leap year. */
  function DaysBeforeYear(y: int): int
    requires y >= 1
  {
    var p := y - 1;
    p * 365 + p / 4 - p / 100 + p / 400
  }

  /** Days in the months of year `y` before month `m`. */
  function DaysBeforeMonth(y: int, m: int): int
    requires 1 <= m <= 12
  {
    [0, 0, 31, 59, 90, 120, 151, 181, 212, 243, 273, 304, 334][m]
      + (if m > 2 && IsLeapYear(y) then 1 else 0)
  }

  /** The ordinal of a date, as `date.toordinal()`: 0001-01-01 is day 1. */
  function DayNumber(d: Date): int
    requires ValidDate(d)
  {
    DaysBeforeYear(d.year) + DaysBeforeMonth(d.year, d.month) + d.day
  }

  /** As `date.weekday()`: Monday is 0, Saturday 5, Sunday 6. */
  function Weekday(d: Date): (w: int)
    requires ValidDate(d)
    ensures 0 <= w <= 6
  {
    (DayNumber(d) + 6) % 7
  }

  /** Python's `a < b` on dates: the (year, month, day) tuples in lexicographic order. */
  predicate Before(a: Date, b: Date)
  {
    a.year < b.year || (a.year == b.year && (a.month < b.month || (a.month == b.month && a.day < b.day)))
  }


  /** How many multiples of `d` (4, 100 or 400) lie in 1 .. p + 1, from those in 1 .. p. */
  lemma QuotientStep4(p: nat)
    ensures (p + 1) / 4 == p / 4 + (if (p + 1) % 4 == 0 then 1 else 0)
  {
    var q, r := p / 4, p % 4;
    assert p == 4 * q + r;
    if r == 3 {
      assert p + 1 == 4 * (q + 1);
    } else {
      assert p + 1 == 4 * q + (r + 1);
    }
  }

  lemma QuotientStep100(p: nat)
    ensures (p + 1) / 100 == p / 100 + (if (p + 1) % 100 == 0 then 1 else 0)
  {
    var q, r := p / 100, p % 100;
    assert p == 100 * q + r;
    if r == 99 {
      assert p + 1 == 100 * (q + 1);
    } else {
      assert p + 1 == 100 * q + (r + 1);
    }
  }

  lemma QuotientStep400(p: nat)
    ensures (p + 1) / 400 == p / 400 + (if (p + 1) % 400 == 0 then 1 else 0)
  {
    var q, r := p / 400, p % 400;
    assert p == 400 * q + r;
    if r == 399 {
      assert p + 1 == 400 * (q + 1);
    } else {
      assert p + 1 == 400 * q + (r + 1);
    }
  }

  lemma MultipleOf400IsMultipleOf100(y: int)
    requires y % 400 == 0
    ensures y % 100 == 0
  {
    var q := y / 400;
    assert y == 100 * (4 * q);
  }

  lemma MultipleOf100IsMultipleOf4(y: int)
    requires y % 100 == 0
    ensures y % 4 == 0
  {
    var q := y / 100;
    assert y == 4 * (25 * q);
  }

  /** A year is leap when 4 divides it, unless 100 does, unless 400 does:
      as a count, +1 for 4, -1 for 100, +1 for 400. */
  lemma LeapYearCount(y: int)
    ensures (if IsLeapYear(y) then 1 else 0)
            == (if y % 4 == 0 then 1 else 0) - (if y % 100 == 0 then 1 else 0) + (if y % 400 == 0 then 1 else 0)
  {
    if y % 400 == 0 {
      MultipleOf400IsMultipleOf100(y);
    }
    if y % 100 == 0 {
      MultipleOf100IsMultipleOf4(y);
    }
  }

  /** Counting days year by year: year `y` adds its own length to the days before it. */
  lemma DaysBeforeYearStep(y: int)
    requires y >= 1
    ensures DaysBeforeYear(y + 1) == DaysBeforeYear(y) + DaysInYear(y)
  {
    var p := y - 1;
    QuotientStep4(p);
    QuotientStep100(p);
    QuotientStep400(p);
    LeapYearCount(y);
  }

  lemma DaysBeforeMonthStep(y: int, m: int)
    requires 1 <= m < 12
    ensures DaysBeforeMonth(y, m + 1) == DaysBeforeMonth(y, m) + DaysInMonth(y, m)
  {
  }

  /** The day after `d`; defined for every representable date but the last. */
  function NextDay(d: Date): (e: Date)
    requires ValidDate(d) && d != MaxDate
    ensures ValidDate(e) && DayNumber(e) == DayNumber(d) + 1
  {
    if d.day < DaysInMonth(d.year, d.month) then
      Date(d.year, d.month, d.day + 1)
    else if d.month < 12 then
      DaysBeforeMonthStep(d.year, d.month);
      Date(d.year, d.month + 1, 1)
    else
      DaysBeforeYearStep(d.year);
      Date(d.year + 1, 1, 1)
  }

  /** Every date of year `y` has an ordinal in (DaysBeforeYear(y), DaysBeforeYear(y + 1)]. */
  lemma DayNumberWithinYear(d: Date)
    requires ValidDate(d)
    ensures DaysBeforeYear(d.year) < DayNumber(d) <= DaysBeforeYear(d.year) + DaysInYear(d.year)
  {
  }

  lemma {:induction false} DaysBeforeYearMonotone(y1: int, y2: int)
    requires 1 <= y1 < y2
    ensures DaysBeforeYear(y1) + DaysInYear(y1) <= DaysBeforeYear(y2)
    decreases y2 - y1
  {
    DaysBeforeYearStep(y1);
    if y1 + 1 < y2 {
      DaysBeforeYearMonotone(y1 + 1, y2);
    }
  }

  lemma {:induction false} DaysBeforeMonthMonotone(y: int, m1: int, m2: int)
    requires 1 <= m1 < m2 <= 12
    ensures DaysBeforeMonth(y, m1) + DaysInMonth(y, m1) <= DaysBeforeMonth(y, m2)
    decreases m2 - m1
  {
    DaysBeforeMonthStep(y, m1);
    if m1 + 1 < m2 {
      DaysBeforeMonthMonotone(y, m1 + 1, m2);
    }
  }

  /** Python's tuple comparison of dates agrees with the order of their ordinals. */
  lemma BeforeIsDayNumberOrder(a: Date, b: Date)
    requires ValidDate(a) && ValidDate(b)
    ensures Before(a, b) <==> DayNumber(a) < DayNumber(b)
    ensures a == b <==> DayNumber(a) == DayNumber(b)
  {
    if a.year < b.year {
      DayNumberWithinYear(a);
      DayNumberWithinYear(b);
      DaysBeforeYearMonotone(a.year, b.year);
    } else if b.year < a.year {
      DayNumberWithinYear(a);
      DayNumberWithinYear(b);
      DaysBeforeYearMonotone(b.year, a.year);
    } else if a.month < b.month {
      DaysBeforeMonthMonotone(a.year, a.month, b.month);
    } else if b.month < a.month {
      DaysBeforeMonthMonotone(a.year, b.month, a.month);
    }
  }

  /** No representable date lies after the last one. */
  lemma DayNumberAtMost(d: Date)
    requires ValidDate(d)
    ensures DayNumber(d) <= DayNumber(MaxDate)
  {
    BeforeIsDayNumberOrder(MaxDate, d);
  }

  /** As `d + timedelta(days=k)` for k >= 0: the date k days later, or an
      OverflowError when that would pass 9999-12-31. */
  function AddDays(d: Date, k: nat): (r: Result<Date>)
    requires ValidDate(d)
    ensures r.Ok? <==> DayNumber(d) + k <= DayNumber(MaxDate)
    ensures r.Ok? ==> ValidDate(r.value) && DayNumber(r.value) == DayNumber(d) + k
    ensures r.Err? ==> r.error == DateOverflow
    decreases k
  {
    if k == 0 then
      DayNumberAtMost(d);
      Ok(d)
    else if d == MaxDate then
      Err(DateOverflow)
    else
      AddDays(NextDay(d), k - 1)
  }

  /** As `d.replace(year=y)`: the year is checked before the day of the month. */
  function ReplaceYear(d: Date, y: int): (r: Result<Date>)
    requires ValidDate(d)
    ensures r.Ok? <==> MinYear <= y <= MaxYear && d.day <= DaysInMonth(y, d.month)
    ensures r.Ok? ==> ValidDate(r.value) && r.value.year == y && r.value.month == d.month && r.value.day == d.day
    ensures r.Err? ==> r.error == if !(MinYear <= y <= MaxYear) then YearOutOfRange else DayOutOfRange
  {
    if !(MinYear <= y <= MaxYear) then Err(YearOutOfRange)
    else if d.day > DaysInMonth(y, d.month) then Err(DayOutOfRange)
    else Ok(Date(y, d.month, d.day))
  }

  /** 9999-12-31 is day 3652059, a Friday. */
  lemma MaxDateIsFriday()
    ensures DayNumber(MaxDate) == 3652059
    ensures Weekday(MaxDate) == 4
  {
  }
}
