/**
 * Shifting until a date is due, over any dates: what a bounded catch-up loop
 * finds in the series of occurrences.
 */
module CatchingUp {
  import opened Basics

  datatype CaughtUp<T> = Caught(date: T) | Overflow | CapExceeded

  function CatchUp<T>(shift: T -> Option<T>, due: T -> bool, base: T, budget: nat): (c: CaughtUp<T>)
    decreases budget
  {
    if budget == 0 then CapExceeded
    else match shift(base)
      case None => Overflow
      case Some(next) => if due(next) then Caught(next) else CatchUp(shift, due, next, budget - 1)
  }

  /** The `k`-th occurrence: each step starts from the one before it. */
  function Nth<T>(step: T -> T, base: T, k: nat): (d: T) {
    if k == 0 then base else step(Nth(step, base, k - 1))
  }

  /** `shift` makes one step, and fails exactly when that leaves the rail. */
  ghost predicate StepsOnRail<T(!new)>(shift: T -> Option<T>, step: T -> T, valid: T -> bool, inRail: T -> bool) {
    forall base {:trigger shift(base)} :: valid(base) ==>
      valid(step(base)) && shift(base) == if inRail(step(base)) then Some(step(base)) else None
  }

  /** The `j`-th occurrence is on the rail and not due. */
  ghost predicate IsPassed<T>(step: T -> T, inRail: T -> bool, due: T -> bool, base: T, j: nat) {
    inRail(Nth(step, base, j)) && !due(Nth(step, base, j))
  }

  lemma OneSkip<T(!new)>(shift: T -> Option<T>, step: T -> T, valid: T -> bool, inRail: T -> bool, due: T -> bool, d: T, budget: nat)
    requires StepsOnRail(shift, step, valid, inRail) && valid(d) && budget > 0
    requires inRail(step(d)) && !due(step(d))
    ensures valid(step(d)) && CatchUp(shift, due, d, budget) == CatchUp(shift, due, step(d), budget - 1)
  {
    assert shift(d) == Some(step(d));
  }

  /** Occurrences that are passed are skipped, one step of the budget each. */
  lemma {:induction false} PassedAreSkipped<T(!new)>(shift: T -> Option<T>, step: T -> T, valid: T -> bool, inRail: T -> bool,
                                                     due: T -> bool, base: T, budget: nat, k: nat)
    requires StepsOnRail(shift, step, valid, inRail) && valid(base) && k <= budget
    requires forall j: nat :: 1 <= j <= k ==> IsPassed(step, inRail, due, base, j)
    ensures valid(Nth(step, base, k))
    ensures CatchUp(shift, due, base, budget) == CatchUp(shift, due, Nth(step, base, k), budget - k)
    decreases k
  {
    if k > 0 {
      PassedAreSkipped(shift, step, valid, inRail, due, base, budget, k - 1);
      assert IsPassed(step, inRail, due, base, k);
      OneSkip(shift, step, valid, inRail, due, Nth(step, base, k - 1), budget - k + 1);
    }
  }

  /**
   * What catching up finds, of the occurrences after the base: the first that is
   * due; and an overflow where one leaves the rail before that.
   */
  lemma CatchUpFinds<T(!new)>(shift: T -> Option<T>, step: T -> T, valid: T -> bool, inRail: T -> bool,
                              due: T -> bool, base: T, budget: nat, k: nat)
    requires StepsOnRail(shift, step, valid, inRail) && valid(base) && 1 <= k <= budget
    requires forall j: nat :: 1 <= j < k ==> IsPassed(step, inRail, due, base, j)
    ensures var d := Nth(step, base, k);
            && (!inRail(d) ==> CatchUp(shift, due, base, budget) == Overflow)
            && (inRail(d) && due(d) ==> CatchUp(shift, due, base, budget) == Caught(d))
  {
    PassedAreSkipped(shift, step, valid, inRail, due, base, budget, k - 1);
  }

  /** The cap ends it exactly when as many occurrences as it allows are passed. */
  lemma CapMeans<T(!new)>(shift: T -> Option<T>, step: T -> T, valid: T -> bool, inRail: T -> bool,
                          due: T -> bool, base: T, budget: nat)
    requires StepsOnRail(shift, step, valid, inRail) && valid(base)
    ensures CatchUp(shift, due, base, budget).CapExceeded?
       <==> forall j: nat :: 1 <= j <= budget ==> IsPassed(step, inRail, due, base, j)
  {
    var k: nat := 1;
    while k <= budget && IsPassed(step, inRail, due, base, k)
      invariant 1 <= k <= budget + 1
      invariant forall j: nat :: 1 <= j < k ==> IsPassed(step, inRail, due, base, j)
      decreases budget - k
    {
      k := k + 1;
    }
    if k <= budget {
      CatchUpFinds(shift, step, valid, inRail, due, base, budget, k);
    } else {
      PassedAreSkipped(shift, step, valid, inRail, due, base, budget, budget);
    }
  }

  /** And whatever is caught is due and on the rail. */
  lemma {:induction false} CaughtIsDue<T(!new)>(shift: T -> Option<T>, step: T -> T, valid: T -> bool, inRail: T -> bool,
                                          due: T -> bool, base: T, budget: nat)
    requires StepsOnRail(shift, step, valid, inRail) && valid(base)
    ensures var c := CatchUp(shift, due, base, budget); c.Caught? ==> inRail(c.date) && due(c.date)
    decreases budget
  {
    if budget > 0 && shift(base).Some? && !due(step(base)) {
      CaughtIsDue(shift, step, valid, inRail, due, step(base), budget - 1);
    }
  }

  /** A loop that moves up at every step on a rail with a top does not run out of a budget larger than the rail. */
  lemma {:induction false} NeverCapped<T(!new)>(shift: T -> Option<T>, step: T -> T, valid: T -> bool, inRail: T -> bool,
                                          due: T -> bool, height: T -> int, top: int, base: T, budget: nat)
    requires StepsOnRail(shift, step, valid, inRail) && valid(base)
    requires forall d :: valid(d) ==> height(step(d)) > height(d)
    requires forall d :: valid(d) && inRail(d) ==> height(d) < top
    requires budget > 0 && budget > top - height(step(base))
    ensures !CatchUp(shift, due, base, budget).CapExceeded?
    decreases budget
  {
    var next := step(base);
    if shift(base) == Some(next) && !due(next) {
      NeverCapped(shift, step, valid, inRail, due, height, top, next, budget - 1);
    }
  }
}
