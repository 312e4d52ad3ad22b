/** Pressing "Load more" until it goes away, against a pager that may misbehave. */
module Paging {
  import opened Arithmetic
  import opened Basics

  /**
   * What the page shows after each press: whether Load more is offered, how many
   * matches are listed before it is pressed, and how many once it has settled.
   */
  datatype Pager = Pager(offered: nat -> bool, listed: nat -> nat)

  datatype Outcome = Listed(count: nat, presses: nat) | StillOffered(presses: nat) | NothingAdded(presses: nat)

  /** `Math.ceil(seeded / pageSize)`. */
  function Pages(seeded: nat, pageSize: nat): (n: nat)
    requires pageSize > 0
  {
    (seeded + pageSize - 1) / pageSize
  }

  /** A press the loop makes and is satisfied with. */
  predicate Advances(pager: Pager, press: nat) {
    pager.offered(press) && pager.listed(press + 1) > pager.listed(press)
  }

  /** Every press before `p` adds to the list, and none is offered then. */
  ghost predicate StopsAt(pager: Pager, p: nat) {
    !pager.offered(p) && forall k: nat :: k < p ==> Advances(pager, k)
  }

  /** Every press before `p` adds to the list, and another is offered still. */
  ghost predicate GoesOnAt(pager: Pager, p: nat) {
    pager.offered(p) && forall k: nat :: k < p ==> Advances(pager, k)
  }

  lemma NoStop(pager: Pager, press: nat)
    requires GoesOnAt(pager, press)
    ensures forall p: nat :: p <= press || !Advances(pager, press) ==> !StopsAt(pager, p)
  {
    forall p: nat | p <= press || !Advances(pager, press)
      ensures !StopsAt(pager, p)
    {
      if p < press {
        assert Advances(pager, p);
      } else if p > press {
        assert !Advances(pager, press);
      }
    }
  }

  /**
   * `loadEveryPage`. It ends for every pager: with the listed count where the
   * presses stop, if that is before the seeded rows need no more; rejecting a
   * pager that still offers one there; and rejecting a press that adds nothing.
   */
  method LoadEveryPage(seeded: nat, pageSize: nat, pager: Pager) returns (o: Outcome)
    requires seeded > 0 && pageSize > 0
    ensures o.Listed? <==> exists p: nat :: p < Pages(seeded, pageSize) && StopsAt(pager, p)
    ensures o.Listed? ==>
      o.presses < Pages(seeded, pageSize) && StopsAt(pager, o.presses) && o.count == pager.listed(o.presses)
    ensures o.StillOffered? <==> Pages(seeded, pageSize) >= 1 && GoesOnAt(pager, Pages(seeded, pageSize) - 1)
    ensures o.StillOffered? ==> o.presses == Pages(seeded, pageSize) - 1
    ensures o.NothingAdded? ==>
      o.presses < Pages(seeded, pageSize) - 1 && GoesOnAt(pager, o.presses) && !Advances(pager, o.presses)
    ensures forall k: nat :: k < o.presses ==> pager.offered(k) && pager.listed(k + 1) > pager.listed(k)
    ensures o.Listed? <==> !pager.offered(o.presses)
    ensures o.NothingAdded? ==> pager.listed(o.presses + 1) <= pager.listed(o.presses)
  {
    SomePage(seeded, pageSize);
    var maxPresses: nat := Pages(seeded, pageSize) - 1;
    var press: nat := 0;
    while pager.offered(press)
      invariant press <= maxPresses
      invariant forall k: nat :: k < press ==> Advances(pager, k)
      invariant forall k: nat :: k < press ==> pager.offered(k) && pager.listed(k + 1) > pager.listed(k)
      decreases maxPresses - press
    {
      var before := pager.listed(press);
      if press == maxPresses {
        NoStop(pager, press);
        return StillOffered(press);
      }
      if pager.listed(press + 1) <= before {
        assert !Advances(pager, press);
        NoStop(pager, press);
        return NothingAdded(press);
      }
      press := press + 1;
    }
    assert !Advances(pager, press) && StopsAt(pager, press);
    return Listed(pager.listed(press), press);
  }

  lemma SomePage(seeded: nat, pageSize: nat)
    requires seeded > 0 && pageSize > 0
    ensures Pages(seeded, pageSize) >= 1
    ensures (Pages(seeded, pageSize) - 1) * pageSize < seeded <= Pages(seeded, pageSize) * pageSize
  {
    var x := seeded + pageSize - 1;
    assert x == x / pageSize * pageSize + x % pageSize;
    assert (x / pageSize - 1) * pageSize == x / pageSize * pageSize - pageSize;
    assert x / pageSize * pageSize > 0;
  }

  /** A pager that shows one page more at each press, and offers a press while there is more. */
  function Correct(matches: nat, pageSize: nat): (pager: Pager) {
    Pager((press: nat) => Shown(matches, pageSize, press) < matches, (press: nat) => Shown(matches, pageSize, press))
  }

  function Shown(matches: nat, pageSize: nat, press: nat): (n: nat) {
    if (press + 1) * pageSize < matches then (press + 1) * pageSize else matches
  }

  /** With a correct pager, `LoadEveryPage` presses exactly as often as there are further pages, and lists every match. */
  method LoadCorrect(matches: nat, pageSize: nat) returns (o: Outcome)
    requires matches > 0 && pageSize > 0
    ensures o == Listed(matches, Pages(matches, pageSize) - 1)
  {
    var pager, last := Correct(matches, pageSize), Pages(matches, pageSize) - 1;
    EveryPageCounts(matches, pageSize);
    assert StopsAt(pager, last);
    o := LoadEveryPage(matches, pageSize, pager);
    OneStop(pager, o.presses, last);
  }

  /** A pager's presses stop in one place, and only before it do they go on. */
  lemma OneStop(pager: Pager, p: nat, last: nat)
    requires StopsAt(pager, last)
    ensures StopsAt(pager, p) ==> p == last
    ensures GoesOnAt(pager, p) ==> p < last && Advances(pager, p)
  {
    if p < last {
      assert Advances(pager, p);
    } else {
      assert !Advances(pager, last);
    }
  }

  /** Before the last page each press is offered and adds to the list; the last page lists everything. */
  lemma EveryPageCounts(matches: nat, pageSize: nat)
    requires matches > 0 && pageSize > 0
    ensures Pages(matches, pageSize) >= 1
    ensures forall k :: 0 <= k < Pages(matches, pageSize) - 1 ==> Advances(Correct(matches, pageSize), k)
    ensures Shown(matches, pageSize, Pages(matches, pageSize) - 1) == matches
  {
    SomePage(matches, pageSize);
    var pages := Pages(matches, pageSize);
    forall k: nat | k < pages - 1
      ensures Advances(Correct(matches, pageSize), k)
    {
      assert (k + 1) * pageSize < matches by {
        if k + 1 < pages - 1 { MulAtLeast(pages - 1 - (k + 1), pageSize); }
        assert (pages - 1 - (k + 1)) * pageSize == (pages - 1) * pageSize - (k + 1) * pageSize;
      }
      assert (k + 2) * pageSize == (k + 1) * pageSize + pageSize;
    }
  }
}
