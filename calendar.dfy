/** The proleptic Gregorian calendar as Python's `datetime.date` implements it:
    dates from 0001-01-01 to 9999-12-31, each numbered by its ordinal (day 1 is
    0001-01-01), so that subtracting a number of days is subtraction of
    ordinals. */
module Calendar {
  import opened Outcomes

  const MinYear := 1
  const MaxYear := 9999
  /** The ordinal of 9999-12-31, the last representable date. */
  const MaxOrdinal := 3652059

  datatype Date = Date(year: int, month: int, day: int)

  predicate IsLeapYear(y: int) {
    y % 4 == 0 && (y % 100 != 0 || y % 400 == 0)
  }

  function DaysInYear(y: int): int {
    if IsLeapYear(y) then 366 else 365
  }

  function DaysInMonth(y: int, m: int): int
    requires 1 <= m <= 12
  {
    if m == 2 then (if IsLeapYear(y) then 29 else 28)
    else if m == 4 || m == 6 || m == 9 || m == 11 then 30
    else 31
  }

  /** A date Python can represent. */
  predicate IsValid(d: Date) {
    && MinYear <= d.year <= MaxYear
    && 1 <= d.month <= 12
    && 1 <= d.day <= DaysInMonth(d.year, d.month)
  }

  /** Chronological order: earlier year, else earlier month, else earlier day. */
  predicate Before(a: Date, b: Date) {
    || a.year < b.year
    || (a.year == b.year && a.month < b.month)
    || (a.year == b.year && a.month == b.month && a.day < b.day)
  }

  /** Number of days in the years 1 .. y-1. */
  function DaysBeforeYear(y: int): int
    requires y >= 1
  {
    var p := y - 1;
    365 * p + p / 4 - p / 100 + p / 400
  }

  /** Number of days in the months 1 .. m-1 of year y (m == 13 gives the whole year). */
  function DaysBeforeMonth(y: int, m: int): int
    requires 1 <= m <= 13
  {
    [0, 31, 59, 90, 120, 151, 181, 212, 243, 273, 304, 334, 365][m - 1]
      + (if m > 2 && IsLeapYear(y) then 1 else 0)
  }

  /** Moving from y - 1 to y passes one more multiple of k exactly when k divides y. */
  lemma DivStep4(y: int)
    ensures y / 4 == (y - 1) / 4 + (if y % 4 == 0 then 1 else 0)
  {
  }

  lemma DivStep100(y: int)
    ensures y / 100 == (y - 1) / 100 + (if y % 100 == 0 then 1 else 0)
  {
  }

  lemma DivStep400(y: int)
    ensures y / 400 == (y - 1) / 400 + (if y % 400 == 0 then 1 else 0)
  {
  }

  /** Divisibility by 400 implies divisibility by 100. */
  lemma Mod400Mod100(y: int)
    requires y % 400 == 0
    ensures y % 100 == 0
  {
    var q := y / 400;
    assert y == 100 * (4 * q);
  }

  /** Divisibility by 100 implies divisibility by 4. */
  lemma Mod100Mod4(y: int)
    requires y % 100 == 0
    ensures y % 4 == 0
  {
    var q := y / 100;
    assert y == 4 * (25 * q);
  }

  lemma YearStep(y: int)
    requires y >= 1
    ensures DaysBeforeYear(y + 1) == DaysBeforeYear(y) + DaysInYear(y)
  {
    DivStep4(y);
    DivStep100(y);
    DivStep400(y);
    if y % 400 == 0 {
      Mod400Mod100(y);
    }
    if y % 100 == 0 {
      Mod100Mod4(y);
    }
    var a, b, c := y % 4 == 0, y % 100 == 0, y % 400 == 0;
    assert DaysBeforeYear(y + 1) - DaysBeforeYear(y)
      == 365 + (if a then 1 else 0) - (if b then 1 else 0) + (if c then 1 else 0);
  }

  lemma {:induction false} YearsMonotone(a: int, b: int)
    requires 1 <= a <= b
    ensures DaysBeforeYear(a) + 365 * (b - a) <= DaysBeforeYear(b)
    decreases b - a
  {
    if a < b {
      YearStep(a);
      YearsMonotone(a + 1, b);
    }
  }

  lemma MonthStep(y: int, m: int)
    requires 1 <= m <= 12
    ensures DaysBeforeMonth(y, m + 1) == DaysBeforeMonth(y, m) + DaysInMonth(y, m)
  {
  }

  lemma {:induction false} MonthsMonotone(y: int, a: int, b: int)
    requires 1 <= a <= b <= 13
    ensures DaysBeforeMonth(y, a) + 28 * (b - a) <= DaysBeforeMonth(y, b)
    decreases b - a
  {
    if a < b {
      MonthStep(y, a);
      MonthsMonotone(y, a + 1, b);
    }
  }

  /** Days of date d's own year up to and including d lie within that year. */
  lemma DayOfYearBounds(d: Date)
    requires IsValid(d)
    ensures 1 <= DaysBeforeMonth(d.year, d.month) + d.day <= DaysInYear(d.year)
  {
    MonthStep(d.year, d.month);
    MonthsMonotone(d.year, d.month + 1, 13);
  }

  /** Python's `date.toordinal()`: 0001-01-01 is day 1. */
  function ToOrdinal(d: Date): (n: int)
    requires IsValid(d)
    ensures 1 <= n <= MaxOrdinal
    ensures DaysBeforeYear(d.year) < n <= DaysBeforeYear(d.year + 1)
  {
    DayOfYearBounds(d);
    YearStep(d.year);
    YearsMonotone(d.year + 1, MaxYear + 1);
    DaysBeforeYear(d.year) + DaysBeforeMonth(d.year, d.month) + d.day
  }

  /** The year that holds day n, searching upward from year y. */
  function YearOf(n: int, y: int): (r: int)
    requires MinYear <= y <= MaxYear && DaysBeforeYear(y) < n <= MaxOrdinal
    ensures y <= r <= MaxYear && DaysBeforeYear(r) < n <= DaysBeforeYear(r + 1)
    decreases MaxYear - y
  {
    if n <= DaysBeforeYear(y + 1) then y else YearOf(n, y + 1)
  }

  /** The month of year y that holds its day number doy, searching upward from month m. */
  function MonthOf(y: int, doy: int, m: int): (r: int)
    requires 1 <= m <= 12 && DaysBeforeMonth(y, m) < doy <= DaysInYear(y)
    ensures m <= r <= 12 && DaysBeforeMonth(y, r) < doy <= DaysBeforeMonth(y, r + 1)
    decreases 12 - m
  {
    if doy <= DaysBeforeMonth(y, m + 1) then m else MonthOf(y, doy, m + 1)
  }

  /** Python's `date.fromordinal(n)`: the date whose ordinal is n. */
  function FromOrdinal(n: int): (d: Date)
    requires 1 <= n <= MaxOrdinal
    ensures IsValid(d) && ToOrdinal(d) == n
  {
    var y := YearOf(n, MinYear);
    YearStep(y);
    var doy := n - DaysBeforeYear(y);
    var m := MonthOf(y, doy, 1);
    MonthStep(y, m);
    Date(y, m, doy - DaysBeforeMonth(y, m))
  }

  /** Ordinals follow the calendar: a date is earlier exactly when its ordinal is smaller. */
  lemma OrdinalOrder(a: Date, b: Date)
    requires IsValid(a) && IsValid(b)
    ensures Before(a, b) <==> ToOrdinal(a) < ToOrdinal(b)
    ensures a == b <==> ToOrdinal(a) == ToOrdinal(b)
  {
    if Before(a, b) {
      OrdinalOrderForward(a, b);
    } else if Before(b, a) {
      OrdinalOrderForward(b, a);
    }
  }

  lemma OrdinalOrderForward(a: Date, b: Date)
    requires IsValid(a) && IsValid(b) && Before(a, b)
    ensures ToOrdinal(a) < ToOrdinal(b)
  {
    if a.year < b.year {
      YearsMonotone(a.year + 1, b.year);
    } else if a.month < b.month {
      MonthStep(a.year, a.month);
      MonthsMonotone(a.year, a.month + 1, b.month);
    }
  }

  /** Every valid date is recovered from its ordinal. */
  lemma FromToOrdinal(d: Date)
    requires IsValid(d)
    ensures FromOrdinal(ToOrdinal(d)) == d
  {
    OrdinalOrder(FromOrdinal(ToOrdinal(d)), d);
  }

  /** The day before d, by the calendar's own rules: back one day in the month,
      else to the last day of the previous month, else to 31 December of the
      previous year. */
  function PrevDay(d: Date): (r: Date)
    requires IsValid(d) && d != Date(MinYear, 1, 1)
    ensures IsValid(r) && ToOrdinal(r) + 1 == ToOrdinal(d)
  {
    if d.day > 1 then Date(d.year, d.month, d.day - 1)
    else if d.month > 1 then
      MonthStep(d.year, d.month - 1);
      Date(d.year, d.month - 1, DaysInMonth(d.year, d.month - 1))
    else
      YearStep(d.year - 1);
      Date(d.year - 1, 12, 31)
  }

  /** Walking back k days one at a time. */
  function StepBack(d: Date, k: nat): (r: Date)
    requires IsValid(d) && k < ToOrdinal(d)
    ensures IsValid(r) && ToOrdinal(r) == ToOrdinal(d) - k
    decreases k
  {
    if k == 0 then d
    else
      var prev := StepBack(d, k - 1);
      assert prev != Date(MinYear, 1, 1) by {
        assert ToOrdinal(prev) > 1;
      }
      PrevDay(prev)
  }

  /** Python's `d - timedelta(days=n)`: None where Python raises OverflowError
      because the result falls outside 0001-01-01 .. 9999-12-31. */
  function MinusDays(d: Date, n: int): (r: Option<Date>)
    requires IsValid(d)
    ensures r.Some? <==> 1 <= ToOrdinal(d) - n <= MaxOrdinal
    ensures r.Some? ==> IsValid(r.value) && ToOrdinal(r.value) == ToOrdinal(d) - n
  {
    var k := ToOrdinal(d) - n;
    if 1 <= k <= MaxOrdinal then Some(FromOrdinal(k)) else None
  }

  /** Subtracting zero days gives the same date. */
  lemma MinusZero(d: Date)
    requires IsValid(d)
    ensures MinusDays(d, 0) == Some(d)
  {
    FromToOrdinal(d);
  }

  /** Subtracting n days is walking back n days one at a time. */
  lemma MinusDaysIsStepBack(d: Date, n: nat)
    requires IsValid(d) && n < ToOrdinal(d)
    ensures MinusDays(d, n) == Some(StepBack(d, n))
  {
    OrdinalOrder(MinusDays(d, n).value, StepBack(d, n));
  }

  /** Subtracting one more day gives the previous day. */
  lemma MinusDaysSucc(d: Date, n: int)
    requires IsValid(d) && MinusDays(d, n).Some? && MinusDays(d, n).value != Date(MinYear, 1, 1)
    ensures MinusDays(d, n + 1) == Some(PrevDay(MinusDays(d, n).value))
  {
    var p := PrevDay(MinusDays(d, n).value);
    OrdinalOrder(MinusDays(d, n + 1).value, p);
  }

  /** Larger offsets give strictly earlier dates. */
  lemma MinusDaysAntitone(d: Date, m: int, n: int)
    requires IsValid(d) && m > n
    requires MinusDays(d, m).Some? && MinusDays(d, n).Some?
    ensures Before(MinusDays(d, m).value, MinusDays(d, n).value)
  {
    OrdinalOrder(MinusDays(d, m).value, MinusDays(d, n).value);
  }

  /** Two subtractions in a row add up. */
  lemma MinusDaysCompose(d: Date, m: int, n: int)
    requires IsValid(d) && MinusDays(d, m).Some?
    ensures MinusDays(MinusDays(d, m).value, n) == MinusDays(d, m + n)
  {
    var e := MinusDays(d, m).value;
    if MinusDays(e, n).Some? {
      OrdinalOrder(MinusDays(e, n).value, MinusDays(d, m + n).value);
    }
  }
}
