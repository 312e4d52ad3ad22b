/** Dates as year, month and day; months also as a running count, so that stepping over years is addition. */
module Calendar {
  datatype Date = Date(year: int, month: int, day: int)

  predicate IsLeap(y: int) { y % 4 == 0 && (y % 100 != 0 || y % 400 == 0) }

  /** Months since year 0. */
  function MonthOf(d: Date): (m: int) { 12 * d.year + d.month - 1 }

  function YearIn(m: int): (y: int) { m / 12 }

  function MonthIn(m: int): (n: int)
    ensures 1 <= n <= 12 && 12 * YearIn(m) + n - 1 == m
  {
    m % 12 + 1
  }

  function Length(m: int): (days: int)
    ensures 28 <= days <= 31
  {
    var n := MonthIn(m);
    if n == 2 then (if IsLeap(YearIn(m)) then 29 else 28)
    else if n == 4 || n == 6 || n == 9 || n == 11 then 30
    else 31
  }

  /** Month `n` of a year, and when the second has a day more. */
  lemma MonthLength(y: int, n: int)
    requires 1 <= n <= 12
    ensures Length(12 * y + n - 1)
         == if n in {1, 3, 5, 7, 8, 10, 12} then 31
            else if n != 2 then 30
            else if y % 400 == 0 || (y % 4 == 0 && y % 100 != 0) then 29 else 28
  {
    assert YearIn(12 * y + n - 1) == y && MonthIn(12 * y + n - 1) == n;
  }

  predicate Valid(d: Date) { 1 <= d.month <= 12 && 1 <= d.day <= Length(MonthOf(d)) }

  function In(m: int, day: int): (d: Date)
    ensures MonthOf(d) == m && d.day == day && 1 <= d.month <= 12
  {
    Date(YearIn(m), MonthIn(m), day)
  }

  predicate After(a: Date, b: Date) {
    a.year > b.year || (a.year == b.year && (a.month > b.month || (a.month == b.month && a.day > b.day)))
  }

  lemma SameMonth(a: Date, b: Date)
    requires 1 <= a.month <= 12 && 1 <= b.month <= 12
    ensures MonthOf(a) == MonthOf(b) <==> a.year == b.year && a.month == b.month
    ensures MonthOf(a) == MonthOf(b) && a.day == b.day ==> a == b
  {
  }

  lemma AfterByMonth(a: Date, b: Date)
    requires 1 <= a.month <= 12 && 1 <= b.month <= 12
    ensures After(a, b) <==> MonthOf(a) > MonthOf(b) || (MonthOf(a) == MonthOf(b) && a.day > b.day)
  {
  }
}
