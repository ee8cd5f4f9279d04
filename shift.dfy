/** Month arithmetic of `selected_date + relativedelta(months=n)` and the
    day difference `(result_date - selected_date).days` that the calculator reports. */
module MonthShift {
  import opened Gregorian

  function Min(a: int, b: int): (m: int) {
    if a <= b then a else b
  }

  function Abs(x: int): (a: nat) {
    if x < 0 then -x else x
  }

  /** The date `n` months after `d` (before it when `n < 0`): the month count moves by
      exactly `n`, and a day that the target month lacks is clamped to that month's last day. */
  function AddMonths(d: Date, n: int): (r: Date)
    requires WellFormed(d)
    ensures WellFormed(r)
    ensures MonthIndex(r) == MonthIndex(d) + n
    ensures r.day == Min(d.day, DaysInMonth(r.year, r.month))
  {
    var total := d.month - 1 + n;
    var year := d.year + total / 12;
    var month := total % 12 + 1;
    Date(year, month, Min(d.day, DaysInMonth(year, month)))
  }

  // ---------------------------------------------------------------------------
  // dateutil's own route to the same date

  /** `relativedelta(months=n)` normalises its month count so that at most 11 months
      remain; the whole years move to the `years` field, both keeping the sign of `n`. */
  function NormalizeMonths(n: int): (ym: (int, int))
    ensures -11 <= ym.1 <= 11
    ensures 12 * ym.0 + ym.1 == n
    ensures ym.0 == 0 || (ym.0 < 0) == (n < 0)
    ensures ym.1 == 0 || (ym.1 < 0) == (n < 0)
  {
    if Abs(n) > 11 then
      var s := if n < 0 then -1 else 1;
      var q, m := (n * s) / 12, (n * s) % 12;
      (q * s, m * s)
    else
      (0, n)
  }

  /** `date + relativedelta`: add the years, then the remaining months with a single
      carry into the year, then clamp the day to the length of the resulting month. */
  function RelativeDeltaAdd(d: Date, n: int): (r: Date)
    requires WellFormed(d)
    ensures WellFormed(r)
    ensures MonthIndex(r) == MonthIndex(d) + n
  {
    var (years, months) := NormalizeMonths(n);
    var year := d.year + years;
    var month := d.month + months;
    var (y, m) :=
      if month > 12 then (year + 1, month - 12)
      else if month < 1 then (year - 1, month + 12)
      else (year, month);
    Date(y, m, Min(d.day, DaysInMonth(y, m)))
  }

  /** A month index belongs to exactly one (year, month) pair. */
  lemma MonthIndexUnique(a: Date, b: Date)
    requires 1 <= a.month <= 12 && 1 <= b.month <= 12
    requires MonthIndex(a) == MonthIndex(b)
    ensures a.year == b.year && a.month == b.month
  {
  }

  /** The floored division and modulo of `AddMonths` give the same date as
      dateutil's normalise-then-carry computation, for every sign and size of `n`. */
  lemma RelativeDeltaAgrees(d: Date, n: int)
    requires WellFormed(d)
    ensures RelativeDeltaAdd(d, n) == AddMonths(d, n)
  {
    MonthIndexUnique(RelativeDeltaAdd(d, n), AddMonths(d, n));
  }

  // ---------------------------------------------------------------------------
  // Properties of the month shift

  /** The year changes exactly when the month count crosses a year boundary, in either direction. */
  lemma YearRollover(d: Date, n: int)
    requires WellFormed(d)
    ensures AddMonths(d, n).year > d.year <==> d.month + n > 12
    ensures AddMonths(d, n).year < d.year <==> d.month + n < 1
  {
  }

  /** The day is kept when the target month has it, and clamped to that month's last day otherwise. */
  lemma ClampToMonthEnd(d: Date, n: int)
    requires WellFormed(d)
    ensures AddMonths(d, n).day <= d.day
    ensures AddMonths(d, n).day == d.day <==> d.day <= DaysInMonth(AddMonths(d, n).year, AddMonths(d, n).month)
    ensures AddMonths(d, n).day < d.day ==> AddMonths(d, n).day == DaysInMonth(AddMonths(d, n).year, AddMonths(d, n).month)
  {
  }

  /** Shifting by zero months is the identity, with no days between the dates. */
  lemma ZeroShift(d: Date)
    requires WellFormed(d)
    ensures AddMonths(d, 0) == d
    ensures Diff(d, AddMonths(d, 0)) == 0
  {
  }

  /** More months give a strictly later date. */
  lemma ShiftMonotone(d: Date, m: int, n: int)
    requires WellFormed(d)
    requires m < n
    ensures Diff(AddMonths(d, m), AddMonths(d, n)) > 0
  {
    OrdinalMonthOrder(AddMonths(d, m), AddMonths(d, n));
  }

  /** The day difference has the sign of the month offset: positive when months are added,
      negative when they are subtracted, zero only for a zero shift. */
  lemma SignOfShift(d: Date, n: int)
    requires WellFormed(d)
    ensures Diff(d, AddMonths(d, n)) > 0 <==> n > 0
    ensures Diff(d, AddMonths(d, n)) < 0 <==> n < 0
    ensures Diff(d, AddMonths(d, n)) == 0 <==> n == 0
  {
    ZeroShift(d);
    if n > 0 {
      ShiftMonotone(d, 0, n);
    } else if n < 0 {
      ShiftMonotone(d, n, 0);
    }
  }

  /** Two shifts land in the month of the combined shift, never on a later day than it,
      and exactly on it when the first shift kept the day. */
  lemma ComposeShifts(d: Date, m: int, n: int)
    requires WellFormed(d)
    ensures MonthIndex(AddMonths(AddMonths(d, m), n)) == MonthIndex(AddMonths(d, m + n))
    ensures AddMonths(AddMonths(d, m), n).day <= AddMonths(d, m + n).day
    ensures AddMonths(d, m).day == d.day ==> AddMonths(AddMonths(d, m), n) == AddMonths(d, m + n)
  {
    var r1, r2, s := AddMonths(d, m), AddMonths(AddMonths(d, m), n), AddMonths(d, m + n);
    MonthIndexUnique(r2, s);
  }

  /** Shifting back by the same number of months returns to the start when the forward
      shift kept the day (then the backward shift cannot clamp either). */
  lemma RoundTrip(d: Date, n: int)
    requires WellFormed(d)
    requires AddMonths(d, n).day == d.day
    ensures AddMonths(AddMonths(d, n), -n) == d
  {
    ComposeShifts(d, n, -n);
    ZeroShift(d);
  }

  /** Clamping loses the day: 2024-01-31 plus one month minus one month is 2024-01-29. */
  lemma ClampingIsNotInvertible()
    ensures AddMonths(Date(2024, 1, 31), 1) == Date(2024, 2, 29)
    ensures AddMonths(AddMonths(Date(2024, 1, 31), 1), -1) == Date(2024, 1, 29)
  {
    assert IsLeap(2024) && DaysInMonth(2024, 2) == 29 && DaysInMonth(2024, 1) == 31;
  }

  // ---------------------------------------------------------------------------
  // The shift as the calculator performs it, with Python's range error

  datatype ShiftOutcome =
    | Shifted(date: Date, days: int)
    | OutOfRange(year: int)

  /** `selected_date + relativedelta(months=n)` followed by `(result - selected).days`.
      `date.replace` raises an exception when the target year is not one a `date` can hold
      (`ValueError`, or `OverflowError` for a year beyond a C `int`). */
  function Shift(start: Date, n: int): (r: ShiftOutcome)
    requires ValidDate(start)
    ensures r.Shifted? <==> ValidDate(AddMonths(start, n))
    ensures r.OutOfRange? ==> r.year == AddMonths(start, n).year && (r.year < MinYear || r.year > MaxYear)
    ensures r.Shifted? ==> r.date == AddMonths(start, n) && Ordinal(start) + r.days == Ordinal(r.date)
    ensures r.Shifted? ==> (r.days > 0 <==> n > 0) && (r.days < 0 <==> n < 0) && (r.days == 0 <==> n == 0)
  {
    var target := AddMonths(start, n);
    if MinYear <= target.year <= MaxYear then
      SignOfShift(start, n);
      Shifted(target, Diff(start, target))
    else
      OutOfRange(target.year)
  }

  /** Month-end clamping into February, in a leap year and in a common year. */
  lemma ClampingExamples()
    ensures Shift(Date(2024, 1, 31), 1) == Shifted(Date(2024, 2, 29), 29)
    ensures Shift(Date(2023, 1, 31), 1) == Shifted(Date(2023, 2, 28), 28)
  {
    assert AddMonths(Date(2024, 1, 31), 1) == Date(2024, 2, 29);
    assert AddMonths(Date(2023, 1, 31), 1) == Date(2023, 2, 28);
  }

  /** Negative offsets, within the year and across the start of the year. */
  lemma NegativeExamples()
    ensures Shift(Date(2024, 3, 15), -1) == Shifted(Date(2024, 2, 15), -29)
    ensures Shift(Date(2024, 1, 15), -1) == Shifted(Date(2023, 12, 15), -31)
  {
    assert AddMonths(Date(2024, 3, 15), -1) == Date(2024, 2, 15);
    assert AddMonths(Date(2024, 1, 15), -1) == Date(2023, 12, 15);
  }

  /** Year rollover forwards (with clamping) and backwards. */
  lemma RolloverExamples()
    ensures Shift(Date(2024, 11, 30), 3) == Shifted(Date(2025, 2, 28), 90)
    ensures Shift(Date(2024, 2, 1), -3) == Shifted(Date(2023, 11, 1), -92)
  {
    assert AddMonths(Date(2024, 11, 30), 3) == Date(2025, 2, 28);
    assert AddMonths(Date(2024, 2, 1), -3) == Date(2023, 11, 1);
  }

  /** Day counts across leap days: ten years from 2000 hold three of them, and the year
      from 2023-02-28 ends the day before 2024-02-29. */
  lemma LeapDayExamples()
    ensures Shift(Date(2000, 1, 1), 120) == Shifted(Date(2010, 1, 1), 3653)
    ensures Shift(Date(2023, 2, 28), 12) == Shifted(Date(2024, 2, 28), 365)
  {
    assert AddMonths(Date(2000, 1, 1), 120) == Date(2010, 1, 1);
    assert AddMonths(Date(2023, 2, 28), 12) == Date(2024, 2, 28);
  }

  /** The range error at either end of the years a `date` can hold. */
  lemma RangeErrorExamples()
    ensures Shift(Date(9999, 12, 1), 1) == OutOfRange(10000)
    ensures Shift(Date(1, 1, 1), -1) == OutOfRange(0)
  {
    assert AddMonths(Date(9999, 12, 1), 1).year == 10000;
    assert AddMonths(Date(1, 1, 1), -1).year == 0;
  }
}
