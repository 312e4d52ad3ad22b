/** The backend's month and year recurrence: one shift, the `++` catch-up in its two places, and the sticky clamp. */
module Recurrence {
  import opened Arithmetic
  import opened Basics
  import opened Calendar
  import opened CatchingUp
  import DateOracle

  const MIN_CALENDAR_YEAR: int := 1900
  const MAX_CALENDAR_YEAR: int := 2200
  const CATCH_UP_BUDGET: nat := 10000

  /** `NaiveDate::from_ymd_opt`. */
  function FromYmd(y: int, m: int, d: int): (date: Option<Date>) {
    if Valid(Date(y, m, d)) then Some(Date(y, m, d)) else None
  }

  /** `pred_opt`. */
  function Pred(d: Date): (p: Date) {
    if d.day > 1 then Date(d.year, d.month, d.day - 1) else In(MonthOf(d) - 1, Length(MonthOf(d) - 1))
  }

  /** `days_in_month`: the day before the first of the next month. */
  function DaysInMonth(year: int, month: int): (days: int) {
    match FromYmd(if month == 12 then year + 1 else year, if month == 12 then 1 else month + 1, 1)
    case None => 28
    case Some(d) => Pred(d).day
  }

  lemma DaysInMonthIs(year: int, month: int)
    requires 1 <= month <= 12
    ensures DaysInMonth(year, month) == Length(12 * year + month - 1)
  {
  }

  predicate InRail(year: int) { MIN_CALENDAR_YEAR <= year <= MAX_CALENDAR_YEAR }

  /** `shift_by_months`. */
  function ShiftByMonths(base: Date, n: int): (d: Option<Date>) {
    var total := base.year * 12 + (base.month - 1) + n;
    var newYear, newMonth := total / 12, total % 12 + 1;
    if !InRail(newYear) then None
    else FromYmd(newYear, newMonth, Min(base.day, DaysInMonth(newYear, newMonth)))
  }

  /** The intervals counted in months or years. */
  datatype Interval = Monthly | Yearly | EveryMonths(n: nat) | EveryYears(n: nat)

  /** The arms of `try_shift_date_once`; none is its overflow. */
  function TryShift(base: Date, i: Interval): (d: Option<Date>) {
    match i
    case Yearly => ShiftByMonths(base, 12)
    case Monthly =>
      var newMonth := if base.month == 12 then 1 else base.month + 1;
      var newYear := if base.month == 12 then base.year + 1 else base.year;
      (match FromYmd(newYear, newMonth, Min(base.day, DaysInMonth(newYear, newMonth)))
       case None => None
       case Some(d) => if InRail(d.year) then Some(d) else None)
    case EveryMonths(n) => ShiftByMonths(base, n)
    case EveryYears(n) => ShiftByMonths(base, n * 12)
  }

  function Months(i: Interval): (n: nat) {
    match i
    case Monthly => 1
    case Yearly => 12
    case EveryMonths(n) => n
    case EveryYears(n) => n * 12
  }

  /** A date `n` months on, clamped to the month's length, rail aside. */
  function Shifted(base: Date, n: int): (d: Date) {
    var m := MonthOf(base) + n;
    In(m, Min(base.day, Length(m)))
  }

  lemma InMonth(m: int, day: int)
    requires day >= 1
    ensures Valid(In(m, Min(day, Length(m)))) && DaysInMonth(YearIn(m), MonthIn(m)) == Length(m)
  {
    DaysInMonthIs(YearIn(m), MonthIn(m));
  }

  lemma NextMonth(base: Date)
    requires 1 <= base.month <= 12
    ensures YearIn(MonthOf(base) + 1) == if base.month == 12 then base.year + 1 else base.year
    ensures MonthIn(MonthOf(base) + 1) == if base.month == 12 then 1 else base.month + 1
  {
  }

  lemma ByMonthsIs(base: Date, n: int)
    requires Valid(base)
    ensures Valid(Shifted(base, n))
    ensures ShiftByMonths(base, n) == if InRail(Shifted(base, n).year) then Some(Shifted(base, n)) else None
  {
    InMonth(MonthOf(base) + n, base.day);
    assert base.year * 12 + (base.month - 1) == MonthOf(base);
  }

  /** `next` is `n` months on from `base`, or there is none because that leaves the rail. */
  predicate IsShift(base: Date, n: int, next: Option<Date>) {
    next == if 1900 <= Shifted(base, n).year <= 2200 then Some(Shifted(base, n)) else None
  }

  lemma MonthlyIs(base: Date)
    requires Valid(base)
    ensures Valid(Shifted(base, 1)) && IsShift(base, 1, TryShift(base, Monthly))
  {
    var d := Shifted(base, 1);
    NextMonth(base);
    InMonth(MonthOf(base) + 1, base.day);
    assert d.year == (if base.month == 12 then base.year + 1 else base.year);
    assert d.month == (if base.month == 12 then 1 else base.month + 1);
    assert d.day == Min(base.day, DaysInMonth(d.year, d.month));
    assert FromYmd(d.year, d.month, d.day) == Some(d);
  }

  /** All arms are one shift, clamped, and fail exactly when it leaves the rail. */
  lemma ShiftIs(base: Date, i: Interval)
    requires Valid(base)
    ensures Valid(Shifted(base, Months(i))) && IsShift(base, Months(i), TryShift(base, i))
    ensures Months(i) == match i { case Monthly => 1 case Yearly => 12 case EveryMonths(n) => n case EveryYears(n) => 12 * n }
  {
    match i
    case Monthly => MonthlyIs(base);
    case Yearly => ByMonthsIs(base, 12);
    case EveryMonths(n) => ByMonthsIs(base, n);
    case EveryYears(n) => ByMonthsIs(base, n * 12);
  }

  // -------------------------------------------------------------- catch up ---

  type Shift = Date -> Option<Date>

  function ShiftBy(i: Interval): (shift: Shift) { (base: Date) => TryShift(base, i) }

  function StepBy(n: int): (step: Date -> Date) { (base: Date) => Shifted(base, n) }

  function DueAfter(today: Date): (due: Date -> bool) { (d: Date) => After(d, today) }

  const IS_VALID: Date -> bool := (d: Date) => Valid(d)

  const IN_RAIL: Date -> bool := (d: Date) => InRail(d.year)

  lemma IntervalSteps(i: Interval)
    ensures StepsOnRail(ShiftBy(i), StepBy(Months(i)), IS_VALID, IN_RAIL)
  {
    forall base | Valid(base)
      ensures Valid(Shifted(base, Months(i))) && IsShift(base, Months(i), TryShift(base, i))
    {
      ShiftIs(base, i);
    }
  }

  /** The `++` arm of `shift_date`. */
  method ShiftPlusPlus(shift: Shift, original: Date, today: Date) returns (c: CaughtUp<Date>)
    ensures c == CatchUp(shift, DueAfter(today), original, 10_000)
  {
    var current := original;
    var hitCap := true;
    for k := 0 to CATCH_UP_BUDGET
      invariant hitCap
      invariant CatchUp(shift, DueAfter(today), original, CATCH_UP_BUDGET)
             == CatchUp(shift, DueAfter(today), current, CATCH_UP_BUDGET - k)
    {
      var next := shift(current);
      if next.None? { return Overflow; }
      current := next.value;
      if After(current, today) {
        hitCap := false;
        return Caught(current);
      }
    }
    return CapExceeded;
  }

  /** `catch_up_past_today`, the projection's own copy: it has a date exactly when the other has, and the same one. */
  method CatchUpPastToday(shift: Shift, base: Date, today: Date) returns (d: Option<Date>)
    ensures var c := CatchUp(shift, DueAfter(today), base, 10_000); d == if c.Caught? then Some(c.date) else None
  {
    var c := base;
    for k := 0 to CATCH_UP_BUDGET
      invariant CatchUp(shift, DueAfter(today), base, CATCH_UP_BUDGET)
             == CatchUp(shift, DueAfter(today), c, CATCH_UP_BUDGET - k)
    {
      var next := shift(c);
      if next.None? { return None; }
      c := next.value;
      if After(c, today) { return Some(c); }
    }
    return None;
  }

  /** The `k`-th occurrence of a series, `n` months apart. */
  function Occurrence(base: Date, n: nat, k: nat): (d: Date) { Nth(StepBy(n), base, k) }

  lemma {:induction false} OccurrenceValid(base: Date, n: nat, k: nat)
    requires Valid(base)
    ensures Valid(Occurrence(base, n, k)) && MonthOf(Occurrence(base, n, k)) == MonthOf(base) + n * k
  {
    if k > 0 {
      OccurrenceValid(base, n, k - 1);
      assert n * k == n * (k - 1) + n;
    } else {
      assert n * 0 == 0;
    }
  }

  /**
   * The cap of steps is never what ends it, for any date and any interval but a
   * count of zero, which is refused as malformed: the rail is shorter than the budget.
   */
  lemma CapIsSlack(base: Date, i: Interval, today: Date)
    requires Valid(base) && Months(i) > 0
    ensures !CatchUp(ShiftBy(i), DueAfter(today), base, CATCH_UP_BUDGET).CapExceeded?
  {
    IntervalSteps(i);
    var next := Shifted(base, Months(i));
    if InRail(next.year) {
      NeverCapped(ShiftBy(i), StepBy(Months(i)), IS_VALID, IN_RAIL, DueAfter(today), (d: Date) => MonthOf(d),
                  12 * (MAX_CALENDAR_YEAR + 1), base, CATCH_UP_BUDGET);
    }
  }

  // ------------------------------------------------------- engine and oracle ---

  lemma {:induction false} FifthsFollow(base: Date, k: nat)
    requires Valid(base) && base.day == 5
    ensures Occurrence(base, 1, k) == In(MonthOf(base) + k, 5)
  {
    if k > 0 {
      FifthsFollow(base, k - 1);
    } else {
      SameMonth(base, In(MonthOf(base), 5));
    }
  }

  lemma InRailBetween(from: int, to: int)
    requires YearIn(from) >= MIN_CALENDAR_YEAR && YearIn(to) <= MAX_CALENDAR_YEAR
    ensures forall m :: from <= m <= to ==> InRail(YearIn(m))
    ensures to - from < 12 * (MAX_CALENDAR_YEAR - MIN_CALENDAR_YEAR + 1)
  {
  }

  lemma PassedFifths(stale: Date, today: Date, k: nat)
    requires Valid(today) && Valid(stale) && stale.day == 5
    requires forall m :: MonthOf(stale) + 1 <= m < MonthOf(stale) + k ==> InRail(YearIn(m)) && !After(In(m, 5), today)
    ensures forall j: nat :: 1 <= j < k ==> IsPassed(StepBy(1), IN_RAIL, DueAfter(today), stale, j)
  {
    forall j: nat | 1 <= j < k
      ensures IsPassed(StepBy(1), IN_RAIL, DueAfter(today), stale, j)
    {
      FifthsFollow(stale, j);
      assert Occurrence(stale, 1, j) == In(MonthOf(stale) + j, 5);
    }
  }

  /** The first shift is not below the calendar rail, and the date looked for is not above it. */
  predicate OnRail(stale: Date, fifth: Date) {
    YearIn(MonthOf(stale) + 1) >= 1900 && fifth.year <= 2200
  }

  lemma BelowRail(shift: Shift, today: Date, stale: Date)
    requires StepsOnRail(shift, StepBy(1), IS_VALID, IN_RAIL)
    requires Valid(stale) && stale.day == 5 && YearIn(MonthOf(stale) + 1) < MIN_CALENDAR_YEAR
    ensures CatchUp(shift, DueAfter(today), stale, CATCH_UP_BUDGET) == Overflow
  {
    FifthsFollow(stale, 1);
    assert Occurrence(stale, 1, 1) == Nth(StepBy(1), stale, 1);
    CatchUpFinds(shift, StepBy(1), IS_VALID, IN_RAIL, DueAfter(today), stale, CATCH_UP_BUDGET, 1);
  }

  lemma MeetsOnRail(shift: Shift, today: Date, stale: Date, fifth: Date, k: nat)
    requires StepsOnRail(shift, StepBy(1), IS_VALID, IN_RAIL)
    requires Valid(today) && DateOracle.IsNextFifth(fifth, today) && fifth == In(MonthOf(stale) + k, 5) && k >= 1
    requires Valid(stale) && stale.day == 5 && OnRail(stale, fifth)
    ensures CatchUp(shift, DueAfter(today), stale, CATCH_UP_BUDGET) == Caught(fifth)
  {
    FifthsFollow(stale, k);
    InRailBetween(MonthOf(stale) + 1, MonthOf(fifth));
    NotYetDue(today, fifth);
    PassedFifths(stale, today, k);
    assert Occurrence(stale, 1, k) == Nth(StepBy(1), stale, k);
    CatchUpFinds(shift, StepBy(1), IS_VALID, IN_RAIL, DueAfter(today), stale, CATCH_UP_BUDGET, k);
  }

  lemma MonthlyMeetsOracle(shift: Shift, today: Date, stale: Date, fifth: Date)
    requires StepsOnRail(shift, StepBy(1), IS_VALID, IN_RAIL)
    requires Valid(today) && DateOracle.IsNextFifth(fifth, today)
    requires Valid(stale) && stale.day == 5 && MonthOf(stale) < MonthOf(today)
    ensures CatchUp(shift, DueAfter(today), stale, CATCH_UP_BUDGET) == Caught(fifth) <==> OnRail(stale, fifth)
  {
    DateOracle.NextFifthIs(fifth, today);
    if YearIn(MonthOf(stale) + 1) < MIN_CALENDAR_YEAR {
      BelowRail(shift, today, stale);
    } else if fifth.year <= MAX_CALENDAR_YEAR {
      MeetsOnRail(shift, today, stale, fifth, MonthOf(fifth) - MonthOf(stale));
    } else {
      CaughtIsDue(shift, StepBy(1), IS_VALID, IN_RAIL, DueAfter(today), stale, CATCH_UP_BUDGET);
    }
  }

  lemma NotYetDue(today: Date, fifth: Date)
    requires Valid(today) && DateOracle.IsNextFifth(fifth, today)
    ensures forall m :: m < MonthOf(fifth) ==> !After(In(m, 5), today)
  {
  }

  /**
   * The spec's oracle is right about the engine. For every day and however
   * stale a 5th, completing a `++` monthly task due then gives the oracle's next
   * 5th, exactly when the shifts stay on the calendar rail.
   */
  lemma CatchUpMeetsOracle(today: Date, monthsBack: nat, fifth: Date)
    requires Valid(today) && monthsBack >= 1 && DateOracle.IsNextFifth(fifth, today)
    ensures var stale := In(MonthOf(today) - monthsBack, 5);
            CatchUp(ShiftBy(Monthly), DueAfter(today), stale, CATCH_UP_BUDGET) == Caught(fifth) <==> OnRail(stale, fifth)
  {
    IntervalSteps(Monthly);
    MonthlyMeetsOracle(ShiftBy(Monthly), today, In(MonthOf(today) - monthsBack, 5), fifth);
  }

  /** A `.+` monthly task completed today is due on the oracle's date, exactly when that is on the rail. */
  lemma MonthOnMeetsOracle(today: Date)
    requires Valid(today)
    ensures TryShift(today, Monthly) == Some(DateOracle.MonthOn(today)) <==> InRail(DateOracle.MonthOn(today).year)
  {
    DateOracle.MonthOnIs(today);
    ShiftIs(today, Monthly);
    SameMonth(DateOracle.MonthOn(today), Shifted(today, 1));
  }

  // ----------------------------------------------------------- sticky clamp ---

  /** The length of the month of the `j`-th occurrence. */
  function LengthAt(base: Date, n: nat, j: nat): (days: int) { Length(MonthOf(base) + n * j) }

  /** The day after `k` steps: no longer than the base's, nor than any month passed; and one of these. */
  lemma {:induction false} StickyDay(base: Date, n: nat, k: nat)
    requires Valid(base)
    ensures var d := Occurrence(base, n, k).day;
            && d <= base.day
            && (forall j: nat :: 1 <= j <= k ==> d <= LengthAt(base, n, j))
            && (d == base.day || exists j: nat :: 1 <= j <= k && d == LengthAt(base, n, j))
  {
    if k > 0 {
      StickyDay(base, n, k - 1);
      OneStep(base, n, k);
    }
  }

  lemma OneStep(base: Date, n: nat, k: nat)
    requires Valid(base) && k > 0
    ensures Occurrence(base, n, k).day == Min(Occurrence(base, n, k - 1).day, LengthAt(base, n, k))
  {
    OccurrenceValid(base, n, k - 1);
    assert n * k == n * (k - 1) + n;
  }

  /**
   * The clamp sticks, exactly so far: `k` steps come to the date one step of
   * `k` times the months would give if and only if no month passed on the way is
   * too short for that date's day.
   */
  lemma ClampSticks(base: Date, n: nat, k: nat)
    requires Valid(base)
    ensures var direct := Shifted(base, n * k);
            Occurrence(base, n, k) == direct <==> forall j: nat :: 1 <= j < k ==> LengthAt(base, n, j) >= direct.day
  {
    var direct, d := Shifted(base, n * k), Occurrence(base, n, k);
    OccurrenceValid(base, n, k);
    StickyDay(base, n, k);
    SameMonth(d, direct);
    if k == 0 { assert n * k == 0; }
    assert direct.day == Min(base.day, LengthAt(base, n, k));
  }

  /** Up to the 28th nothing is ever clamped, so all steps agree. */
  lemma EarlyDaysNeverClamp(base: Date, n: nat, k: nat)
    requires Valid(base) && base.day <= 28
    ensures Occurrence(base, n, k) == Shifted(base, n * k) && Occurrence(base, n, k).day == base.day
  {
    ClampSticks(base, n, k);
    StickyDay(base, n, k);
  }
}
