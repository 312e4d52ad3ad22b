/** The dates the repeat spec expects, computed the way it does, with JavaScript's `new Date(year, monthIndex, day)`. */
module DateOracle {
  import opened Arithmetic
  import opened Basics
  import opened Calendar

  /** `new Date(y, monthIndex, day)`: month indices run over years, and day 0 is the last of the month before. */
  function NewDate(y: int, monthIndex: int, day: int): (d: Date)
    requires 0 <= day <= Length(12 * y + monthIndex)
    ensures Valid(d)
  {
    var m := 12 * y + monthIndex;
    if day == 0 then In(m - 1, Length(m - 1)) else In(m, day)
  }

  /** `monthOn`: a month on from today, clamped to that month's length. */
  function MonthOn(today: Date): (d: Date)
    requires Valid(today)
  {
    var y, m := today.year, today.month;
    var lastDay := NewDate(y, m + 1, 0).day;
    NewDate(y, m, Min(today.day, lastDay))
  }

  /** It is a date of the next month, and keeps the day unless that month is shorter: then it is the month's last. */
  lemma MonthOnIs(today: Date)
    requires Valid(today)
    ensures Valid(MonthOn(today)) && MonthOf(MonthOn(today)) == MonthOf(today) + 1
    ensures MonthOn(today).day == if today.day <= Length(MonthOf(today) + 1) then today.day else Length(MonthOf(today) + 1)
  {
  }

  /** The least 5th of a month strictly after `today`. */
  ghost predicate IsNextFifth(d: Date, today: Date) {
    && Valid(d) && d.day == 5 && After(d, today)
    && forall m :: After(In(m, 5), today) ==> MonthOf(d) <= m
  }

  /**
   * The catch-up loop, from the 5th of any month before today's, however stale:
   * it ends, and on the least 5th strictly after today.
   */
  method CatchUpFifth(today: Date, monthsBack: nat) returns (stale: Date, fifth: Date)
    requires Valid(today) && monthsBack >= 1
    ensures stale == In(MonthOf(today) - monthsBack, 5)
    ensures IsNextFifth(fifth, today)
  {
    fifth := NewDate(today.year, today.month - 1 - monthsBack, 5);
    stale := fifth;
    while !After(fifth, today)
      invariant Valid(fifth) && fifth.day == 5 && MonthOf(fifth) <= MonthOf(today) + 1
      invariant forall m :: After(In(m, 5), today) ==> MonthOf(fifth) <= m
      decreases MonthOf(today) + 1 - MonthOf(fifth)
    {
      AfterByMonth(fifth, today);
      forall m | After(In(m, 5), today)
        ensures MonthOf(fifth) + 1 <= m
      {
        AfterByMonth(In(m, 5), today);
      }
      fifth := NewDate(fifth.year, fifth.month, 5);
    }
  }

  /** There is one such date, and where it is follows from today's day. */
  lemma NextFifthIs(d: Date, today: Date)
    requires Valid(today)
    ensures IsNextFifth(d, today) <==> d == In(MonthOf(today) + if today.day >= 5 then 1 else 0, 5)
  {
    var m0 := MonthOf(today) + if today.day >= 5 then 1 else 0;
    forall m
      ensures After(In(m, 5), today) <==> m0 <= m
    {
      AfterByMonth(In(m, 5), today);
    }
    if IsNextFifth(d, today) {
      AfterByMonth(d, today);
      SameMonth(d, In(m0, 5));
      assert After(In(m0, 5), today);
      assert MonthOf(In(m0, 5)) == m0;
      assert After(d, today) ==> MonthOf(d) >= m0;
    }
  }
}
