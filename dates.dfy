/** Calendar dates as java.time.LocalDate has them (ISO proleptic calendar),
    and the whole-year count of Period.between(start, end).getYears(). */
module Dates {

  datatype Date = Date(year: int, month: int, day: int) {

    /** The month and day exist in the ISO calendar. */
    predicate Valid() {
      1 <= month <= 12 && 1 <= day <= DaysInMonth(year, month)
    }

    /** LocalDate.isAfter: later in (year, month, day) order. Between dates
        that exist this is a later proleptic month, or the same month and a
        later day. */
    predicate IsAfter(other: Date)
      ensures Valid() && other.Valid() ==>
        (IsAfter(other) <==>
          (ProlepticMonth(this) > ProlepticMonth(other)
           || (ProlepticMonth(this) == ProlepticMonth(other) && day > other.day)))
    {
      year > other.year
      || (year == other.year && month > other.month)
      || (year == other.year && month == other.month && day > other.day)
    }
  }

  /** A LocalDate value: a date that exists. */
  type LocalDate = d: Date | d.Valid() witness Date(2000, 1, 1)

  /** IsoChronology.isLeapYear. */
  predicate IsLeapYear(y: int) {
    y % 4 == 0 && (y % 100 != 0 || y % 400 == 0)
  }

  function DaysInMonth(y: int, m: int): int {
    if m == 2 then (if IsLeapYear(y) then 29 else 28)
    else if m == 4 || m == 6 || m == 9 || m == 11 then 30
    else 31
  }

  /** The anniversary of `start` in the year of `end` falls after `end`. */
  predicate AnniversaryPending(start: Date, end: Date) {
    end.month < start.month || (end.month == start.month && end.day < start.day)
  }

  /** Integer division that truncates toward zero, as Java's long `/` does. */
  function JavaDiv(a: int, b: int): int
    requires b > 0
  {
    if a >= 0 then a / b else -((-a) / b)
  }

  /** LocalDate.getProlepticMonth: months counted from year 0, January. */
  function ProlepticMonth(d: Date): int {
    d.year * 12 + d.month - 1
  }

  /** The total month count of Period.between(start, end) after the day
      adjustment of LocalDate.until: a month that is not complete does not count. */
  function WholeMonthsBetween(start: LocalDate, end: LocalDate): int {
    var total := ProlepticMonth(end) - ProlepticMonth(start);
    var days := end.day - start.day;
    if total > 0 && days < 0 then total - 1
    else if total < 0 && days > 0 then total + 1
    else total
  }

  /** Period.between(start, end).getYears(): whole months divided by 12,
      truncated toward zero.  When `start` is not after `end` this is the
      number of birthdays reached: the difference of the years, less one when
      the anniversary of `start` in the year of `end` lies after `end`. */
  function YearsBetween(start: LocalDate, end: LocalDate): (r: int)
    ensures !start.IsAfter(end) ==> r >= 0
    ensures !start.IsAfter(end) ==>
      r == end.year - start.year - (if AnniversaryPending(start, end) then 1 else 0)
    ensures start.IsAfter(end) ==> r <= 0
  {
    WholeMonthsBounds(start, end);
    JavaDiv(WholeMonthsBetween(start, end), 12)
  }

  /** Where the whole-month count lies, relative to multiples of twelve. */
  lemma WholeMonthsBounds(start: LocalDate, end: LocalDate)
    ensures var m, dy := WholeMonthsBetween(start, end), end.year - start.year;
      && (start.IsAfter(end) ==> m <= 0)
      && (!start.IsAfter(end) && AnniversaryPending(start, end) ==> 0 <= 12 * (dy - 1) <= m < 12 * dy)
      && (!start.IsAfter(end) && !AnniversaryPending(start, end) ==> 0 <= 12 * dy <= m < 12 * (dy + 1))
  {
  }

  /** Period.between(start, end).getYears() never decreases as `end` moves
      forward, whatever `start` is. */
  lemma YearsBetweenMonotone(start: LocalDate, end1: LocalDate, end2: LocalDate)
    requires !end1.IsAfter(end2)
    ensures YearsBetween(start, end1) <= YearsBetween(start, end2)
  {
    var m1, m2 := WholeMonthsBetween(start, end1), WholeMonthsBetween(start, end2);
    var p1, p2 := ProlepticMonth(end1), ProlepticMonth(end2);
    assert p1 <= p2;
    if p1 == p2 {
      assert end1.day <= end2.day;
    }
    assert m1 <= m2;
    JavaDivMonotone(m1, m2);
  }

  /** Truncating division by 12 is monotone. */
  lemma JavaDivMonotone(a: int, b: int)
    requires a <= b
    ensures JavaDiv(a, 12) <= JavaDiv(b, 12)
  {
  }

  /** "Not after" is transitive: the dates are totally ordered. */
  lemma NotAfterTransitive(a: Date, b: Date, c: Date)
    requires !a.IsAfter(b) && !b.IsAfter(c)
    ensures !a.IsAfter(c)
  {
  }
}
