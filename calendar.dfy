/** The proleptic Gregorian calendar as Python's `datetime.date` implements it:
    leap years, month lengths, the day ordinal counted from 0001-01-01 and the
    signed day difference `(b - a).days` between two dates. */
module Gregorian {

  /** The range of years a Python `date` can hold (`datetime.MINYEAR`, `datetime.MAXYEAR`). */
  const MinYear: int := 1
  const MaxYear: int := 9999

  datatype Date = Date(year: int, month: int, day: int)

  /** Divisible by 4, and not by 100 unless also by 400. */
  predicate IsLeap(y: int): (b: bool)
    ensures y % 4 != 0 ==> !b
    ensures y % 4 == 0 && y % 100 != 0 ==> b
    ensures y % 100 == 0 && y % 400 != 0 ==> !b
    ensures y % 400 == 0 ==> b
  {
    y % 4 == 0 && (y % 100 != 0 || y % 400 == 0)
  }

  function DaysInYear(y: int): (n: int) {
    if IsLeap(y) then 366 else 365
  }

  /** Number of days in month `m` of year `y` (the second component of `calendar.monthrange`). */
  function DaysInMonth(y: int, m: int): (n: int)
    requires 1 <= m <= 12
    ensures 28 <= n <= 31
    ensures n == 30 <==> m == 4 || m == 6 || m == 9 || m == 11
    ensures m == 2 ==> n == (if IsLeap(y) then 29 else 28)
    ensures m != 2 ==> n >= 30
  {
    [31, 28, 31, 30, 31, 30, 31, 31, 30, 31, 30, 31][m - 1] + (if m == 2 && IsLeap(y) then 1 else 0)
  }

  /** A date that exists in the proleptic calendar (any year). */
  predicate WellFormed(d: Date) {
    1 <= d.month <= 12 && 1 <= d.day <= DaysInMonth(d.year, d.month)
  }

  /** A date that a Python `date` object can represent. */
  predicate ValidDate(d: Date) {
    MinYear <= d.year <= MaxYear && WellFormed(d)
  }

  /** Days in the years before `y`; years before year 1 count negatively. */
  function DaysBeforeYear(y: int): (n: int) {
    365 * (y - 1) + (y - 1) / 4 - (y - 1) / 100 + (y - 1) / 400
  }

  /** Days in the months of year `y` before month `m`. */
  function DaysBeforeMonth(y: int, m: int): (n: int)
    requires 1 <= m <= 12
  {
    [0, 31, 59, 90, 120, 151, 181, 212, 243, 273, 304, 334][m - 1] + (if m > 2 && IsLeap(y) then 1 else 0)
  }

  /** The day number of `d`, with 0001-01-01 as day 1 (`date.toordinal`); the ordinal
      of a real date lies within the days of its year. */
  function Ordinal(d: Date): (o: int)
    requires 1 <= d.month <= 12
    ensures WellFormed(d) ==> DaysBeforeYear(d.year) < o <= DaysBeforeYear(d.year) + DaysInYear(d.year)
  {
    DaysBeforeMonthStep(d.year, 12);
    if d.month < 12 then
      DaysBeforeMonthOrder(d.year, d.month, 12);
      DaysBeforeYear(d.year) + DaysBeforeMonth(d.year, d.month) + d.day
    else
      DaysBeforeYear(d.year) + DaysBeforeMonth(d.year, d.month) + d.day
  }

  /** `(b - a).days`: the signed number of days from `a` to `b`. It is zero exactly for the
      same date and positive whenever `b` lies in a later month. */
  function Diff(a: Date, b: Date): (r: int)
    requires 1 <= a.month <= 12 && 1 <= b.month <= 12
    ensures WellFormed(a) && WellFormed(b) ==> (r == 0 <==> a == b)
    ensures WellFormed(a) && WellFormed(b) && MonthIndex(a) < MonthIndex(b) ==> r > 0
  {
    if WellFormed(a) && WellFormed(b) then
      OrdinalInjective(a, b);
      if MonthIndex(a) < MonthIndex(b) then
        OrdinalMonthOrder(a, b);
        Ordinal(b) - Ordinal(a)
      else
        Ordinal(b) - Ordinal(a)
    else
      Ordinal(b) - Ordinal(a)
  }

  /** The months counted from month 1 of year 0: consecutive months have consecutive indices. */
  function MonthIndex(d: Date): (k: int) {
    12 * d.year + (d.month - 1)
  }

  /** The calendar's successor: the next day, rolling over month and year ends. */
  function NextDay(d: Date): (r: Date)
    requires WellFormed(d)
    ensures WellFormed(r)
    ensures MonthIndex(r) == MonthIndex(d) || (MonthIndex(r) == MonthIndex(d) + 1 && r.day == 1)
  {
    if d.day < DaysInMonth(d.year, d.month) then Date(d.year, d.month, d.day + 1)
    else if d.month < 12 then Date(d.year, d.month + 1, 1)
    else Date(d.year + 1, 1, 1)
  }

  /** `k` steps of the successor from `d`. */
  function AddDays(d: Date, k: nat): (r: Date)
    requires WellFormed(d)
    ensures WellFormed(r)
    decreases k
  {
    if k == 0 then d else AddDays(NextDay(d), k - 1)
  }

  // ---------------------------------------------------------------------------
  // Facts about the day ordinal

  lemma DaysBeforeYearStep(y: int)
    ensures DaysBeforeYear(y + 1) == DaysBeforeYear(y) + DaysInYear(y)
  {
    var leaps := (y / 4 - (y - 1) / 4) - (y / 100 - (y - 1) / 100) + (y / 400 - (y - 1) / 400);
    assert y / 4 - (y - 1) / 4 == if y % 4 == 0 then 1 else 0;
    assert y / 100 - (y - 1) / 100 == if y % 100 == 0 then 1 else 0;
    assert y / 400 - (y - 1) / 400 == if y % 400 == 0 then 1 else 0;
    assert leaps == if IsLeap(y) then 1 else 0;
  }

  /** Every year before year `z` ends no later than year `z` starts. */
  lemma {:induction false} DaysBeforeYearOrder(y: int, z: int)
    requires y < z
    ensures DaysBeforeYear(y) + DaysInYear(y) <= DaysBeforeYear(z)
    decreases z - y
  {
    DaysBeforeYearStep(y);
    if y + 1 < z {
      DaysBeforeYearOrder(y + 1, z);
    }
  }

  /** Month `m` of year `y` begins right after the months before it, and December ends the year. */
  lemma DaysBeforeMonthStep(y: int, m: int)
    requires 1 <= m <= 12
    ensures m < 12 ==> DaysBeforeMonth(y, m + 1) == DaysBeforeMonth(y, m) + DaysInMonth(y, m)
    ensures m == 12 ==> DaysBeforeMonth(y, m) + DaysInMonth(y, m) == DaysInYear(y)
  {
  }

  /** Every month before month `n` of the same year ends no later than month `n` starts. */
  lemma {:induction false} DaysBeforeMonthOrder(y: int, m: int, n: int)
    requires 1 <= m < n <= 12
    ensures DaysBeforeMonth(y, m) + DaysInMonth(y, m) <= DaysBeforeMonth(y, n)
    decreases n - m
  {
    DaysBeforeMonthStep(y, m);
    if m + 1 < n {
      DaysBeforeMonthOrder(y, m + 1, n);
    }
  }

  /** Ordinals of dates in an earlier month are strictly smaller. */
  lemma OrdinalMonthOrder(a: Date, b: Date)
    requires WellFormed(a) && WellFormed(b)
    requires MonthIndex(a) < MonthIndex(b)
    ensures Ordinal(a) < Ordinal(b)
  {
    if a.year < b.year {
      DaysBeforeYearOrder(a.year, b.year);
    } else {
      assert a.year == b.year && a.month < b.month;
      DaysBeforeMonthOrder(a.year, a.month, b.month);
    }
  }

  /** Distinct calendar dates have distinct ordinals, so a zero difference means the same date. */
  lemma OrdinalInjective(a: Date, b: Date)
    requires WellFormed(a) && WellFormed(b)
    ensures Ordinal(a) == Ordinal(b) <==> a == b
  {
    if MonthIndex(a) < MonthIndex(b) {
      OrdinalMonthOrder(a, b);
    } else if MonthIndex(b) < MonthIndex(a) {
      OrdinalMonthOrder(b, a);
    } else {
      assert a.year == b.year && a.month == b.month;
    }
  }

  /** Day 1 is 0001-01-01, the first date Python can represent. */
  lemma OrdinalEpoch()
    ensures Ordinal(Date(MinYear, 1, 1)) == 1
  {
  }

  /** Each successor adds exactly one day to the ordinal. */
  lemma OrdinalNextDay(d: Date)
    requires WellFormed(d)
    ensures Ordinal(NextDay(d)) == Ordinal(d) + 1
  {
    if d.day < DaysInMonth(d.year, d.month) {
    } else if d.month < 12 {
      DaysBeforeMonthStep(d.year, d.month);
    } else {
      DaysBeforeMonthStep(d.year, d.month);
      DaysBeforeYearStep(d.year);
    }
  }

  /** Stepping `k` days forward moves the ordinal by exactly `k`. */
  lemma {:induction false} OrdinalAddDays(d: Date, k: nat)
    requires WellFormed(d)
    ensures Diff(d, AddDays(d, k)) == k
    decreases k
  {
    if k > 0 {
      OrdinalNextDay(d);
      OrdinalAddDays(NextDay(d), k - 1);
    }
  }

  /** The difference counts days exactly: a date `b` whose ordinal is not below that of `a`
      is reached from `a` by exactly `Diff(a, b)` successor steps. */
  lemma DiffCountsDays(a: Date, b: Date)
    requires WellFormed(a) && WellFormed(b)
    requires Ordinal(a) <= Ordinal(b)
    ensures AddDays(a, Diff(a, b)) == b
  {
    var k := Diff(a, b);
    OrdinalAddDays(a, k);
    OrdinalInjective(AddDays(a, k), b);
  }
}
