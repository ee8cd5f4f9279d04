/** What the calculator page derives from its two inputs: the input bounds of the
    date picker and the month field, the hint under the month field, and the
    lines of the calculation details box. */
module Page {
  import opened Gregorian
  import opened MonthShift

  /** The date picker's bounds, 2000-01-01 to 2050-12-31: the dates whose ordinal lies
      between the ordinals of the two bounds. */
  predicate StartInBounds(d: Date): (b: bool)
    ensures b <==> ValidDate(d) && Ordinal(Date(2000, 1, 1)) <= Ordinal(d) <= Ordinal(Date(2050, 12, 31))
  {
    if ValidDate(d) then
      BoundsAsDates(d);
      2000 <= d.year <= 2050
    else
      false
  }

  lemma BoundsAsDates(d: Date)
    requires ValidDate(d)
    ensures 2000 <= d.year <= 2050 <==> Ordinal(Date(2000, 1, 1)) <= Ordinal(d) <= Ordinal(Date(2050, 12, 31))
  {
    var lo, hi := Date(2000, 1, 1), Date(2050, 12, 31);
    if d.year < 2000 {
      OrdinalMonthOrder(d, lo);
    } else if d.year > 2050 {
      OrdinalMonthOrder(hi, d);
    } else {
      if MonthIndex(lo) < MonthIndex(d) {
        OrdinalMonthOrder(lo, d);
      }
      if MonthIndex(d) < MonthIndex(hi) {
        OrdinalMonthOrder(d, hi);
      }
    }
  }

  /** The month field's bounds and its initial value. */
  const MinMonths: int := -120
  const MaxMonths: int := 120
  const DefaultMonths: int := 0

  /** The month field accepts offsets of at most ten years either way, its initial value included. */
  predicate MonthsInBounds(n: int): (b: bool)
    ensures b <==> Abs(n) <= 120
    ensures n == DefaultMonths ==> b
  {
    MinMonths <= n <= MaxMonths
  }

  /** Inside the page's input bounds the result stays in 1990..2060, so the shift never
      reaches the year range error. */
  lemma InputBoundsNeverOverflow(d: Date, n: int)
    requires StartInBounds(d) && MonthsInBounds(n)
    ensures 1990 <= AddMonths(d, n).year <= 2060
    ensures Shift(d, n).Shifted?
  {
  }

  /** The year bounds are reached: 2000-01-01 minus 120 months and 2050-12-31 plus 120 months. */
  lemma InputBoundsAreTight()
    ensures AddMonths(Date(2000, 1, 1), MinMonths) == Date(1990, 1, 1)
    ensures AddMonths(Date(2050, 12, 31), MaxMonths) == Date(2060, 12, 31)
  {
  }

  /** The line written under the month field. */
  datatype Hint =
    | Adding(count: int)
    | Subtracting(count: int)
    | EnterMonths

  /** Which hint the month field shows and the count it displays. */
  function HintFor(n: int): (h: Hint)
    ensures h.EnterMonths? <==> n == 0
    ensures h.Adding? <==> n > 0
    ensures h.Subtracting? <==> n < 0
    ensures !h.EnterMonths? ==> h.count > 0 && h.count == Abs(n)
  {
    if n > 0 then Adding(n)
    else if n < 0 then Subtracting(Abs(n))
    else EnterMonths
  }

  /** The direction word of the "Months" line. */
  datatype Direction = Added | Subtracted

  /** What the details box shows, apart from the translated captions. */
  datatype Details = Details(start: Date, direction: Direction, months: nat, result: Date, days: nat)

  /** What pressing the calculate button produces: the details, or the exception
      `date.replace` raises for an out-of-range year. */
  datatype Calculation =
    | Shown(details: Details)
    | Failed(year: int)

  /** The details box: the direction word chosen by `n >= 0`, the month and day counts as
      magnitudes. The direction word always agrees with where the result lies in time. */
  function Calculate(start: Date, n: int): (c: Calculation)
    requires ValidDate(start)
    ensures c.Failed? <==> !ValidDate(AddMonths(start, n))
    ensures c.Shown? ==> c.details.start == start && c.details.result == AddMonths(start, n)
    ensures c.Shown? ==> (c.details.direction == Added <==> n >= 0)
    ensures c.Shown? ==> n == (if c.details.direction == Added then c.details.months else -(c.details.months as int))
    ensures c.Shown? ==> c.details.days == Abs(Diff(start, c.details.result))
    ensures c.Shown? && c.details.direction == Added ==> Ordinal(start) <= Ordinal(c.details.result)
    ensures c.Shown? && c.details.direction == Subtracted ==> Ordinal(c.details.result) < Ordinal(start)
  {
    match Shift(start, n)
    case OutOfRange(y) => Failed(y)
    case Shifted(result, days) =>
      Shown(Details(start, if n >= 0 then Added else Subtracted, Abs(n), result, Abs(days)))
  }

  /** With the month field at its initial value the page asks for input, and a calculation
      shows the start date itself, "added: 0" months and a difference of 0 days. */
  lemma DefaultInput(start: Date)
    requires ValidDate(start)
    ensures HintFor(DefaultMonths) == EnterMonths
    ensures Calculate(start, DefaultMonths) == Shown(Details(start, Added, 0, start, 0))
  {
    ZeroShift(start);
  }
}
