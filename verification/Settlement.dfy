/**
 * Which event settles a pipelined JSON-RPC request. Both clients keep a map of
 * pending requests that is never pruned, and a promise that ignores every
 * settlement but its first; this is that rule, over histories.
 */
module Settlement {
  import opened Basics

  /** What `JSON.parse` makes of a line. An id that is not a non-negative integer matches no request. */
  datatype Decoded = Malformed | Null | Message(id: Option<nat>, body: string)

  datatype Happening =
    | Issued(id: nat)
    | Arrived(line: Decoded)
    | Exited(code: int)
    | Fired(id: nat)

  datatype Outcome = Reply(message: Decoded) | ProcessExited(code: int) | TimedOut

  /** What `h` would settle request `id` with, were it pending. */
  function Effect(h: Happening, id: nat): (o: Option<Outcome>) {
    match h
    case Issued(_) => None
    case Arrived(line) => if line.Message? && line.id == Some(id) then Some(Reply(line)) else None
    case Exited(code) => Some(ProcessExited(code))
    case Fired(i) => if i == id then Some(TimedOut) else None
  }

  /** The promises after `h`: it settles what is pending and not settled yet. */
  function Settle(pending: set<nat>, outcomes: map<nat, Outcome>, h: Happening): (after: map<nat, Outcome>) {
    outcomes + map id | id in pending && id !in outcomes && Effect(h, id).Some? :: Effect(h, id).value
  }

  function Pending(history: seq<Happening>): (ids: set<nat>) {
    if history == [] then {}
    else
      var last := history[|history| - 1];
      Pending(history[..|history| - 1]) + if last.Issued? then {last.id} else {}
  }

  /** Every promise settled so far, with what. */
  function Outcomes(history: seq<Happening>): (o: map<nat, Outcome>) {
    if history == [] then map[]
    else
      var before := history[..|history| - 1];
      Settle(Pending(before), Outcomes(before), history[|history| - 1])
  }

  // One more happening.

  lemma OneMore(history: seq<Happening>, h: Happening)
    ensures Pending(history + [h]) == Pending(history) + if h.Issued? then {h.id} else {}
    ensures Outcomes(history + [h]) == Settle(Pending(history), Outcomes(history), h)
  {
    assert (history + [h])[..|history + [h]| - 1] == history;
  }

  lemma SettleIssued(pending: set<nat>, outcomes: map<nat, Outcome>, id: nat)
    ensures Settle(pending, outcomes, Issued(id)) == outcomes
  {
  }

  /** The one request a line or a timer concerns. */
  lemma SettleOne(pending: set<nat>, outcomes: map<nat, Outcome>, h: Happening)
    requires h.Arrived? || h.Fired?
    ensures h.Arrived? ==>
      Settle(pending, outcomes, h) ==
        if h.line.Message? && h.line.id.Some? && h.line.id.value in pending && h.line.id.value !in outcomes
        then outcomes[h.line.id.value := Reply(h.line)] else outcomes
    ensures h.Fired? ==>
      Settle(pending, outcomes, h) ==
        if h.id in pending && h.id !in outcomes then outcomes[h.id := TimedOut] else outcomes
  {
  }

  // ------------------------------------------------------------ the rule ---

  /** Ids are issued once each and in order. */
  ghost predicate IssuesInOrder(h: seq<Happening>) {
    forall i, j :: 0 <= i < j < |h| && h[i].Issued? && h[j].Issued? ==> h[i].id < h[j].id
  }

  lemma OnlyIssue(h: seq<Happening>, id: nat, i: nat, j: nat)
    requires IssuesInOrder(h)
    requires i < |h| && j <= |h| && h[i] == Issued(id) && Issued(id) in h[..j]
    ensures i < j
  {
    var a :| 0 <= a < j && h[..j][a] == Issued(id);
    assert h[a] == Issued(id);
    assert a == i;
  }

  /** `history[k]` is the first happening after the issue of `id` that has an effect on it. */
  ghost predicate SettledAt(history: seq<Happening>, id: nat, k: nat) {
    && k < |history|
    && Issued(id) in history[..k]
    && Effect(history[k], id).Some?
    && forall j :: 0 <= j < k && Issued(id) in history[..j] ==> Effect(history[j], id).None?
  }

  lemma {:induction false} PendingIssued(history: seq<Happening>, id: nat)
    ensures id in Pending(history) <==> Issued(id) in history
  {
    if history != [] {
      var before := history[..|history| - 1];
      PendingIssued(before, id);
      assert history == before + [history[|history| - 1]];
    }
  }

  lemma PrefixOf(history: seq<Happening>, k: nat)
    requires k < |history|
    ensures forall j :: 0 <= j <= k ==> history[..k][..j] == history[..j]
  {
  }

  /**
   * First wins: a request is settled exactly when some happening after its
   * issue has an effect on it, and then with the first such happening's effect,
   * whatever the order of replies and whatever else is in the history.
   */
  lemma FirstWins(history: seq<Happening>, id: nat)
    ensures id in Outcomes(history) <==> exists k :: SettledAt(history, id, k)
    ensures forall k: nat :: SettledAt(history, id, k) ==>
      id in Outcomes(history) && Outcomes(history)[id] == Effect(history[k], id).value
  {
    if id in Outcomes(history) {
      var k := SettledSomewhere(history, id);
    }
    forall k: nat | SettledAt(history, id, k)
      ensures id in Outcomes(history) && Outcomes(history)[id] == Effect(history[k], id).value
    {
      SettledThere(history, id, k);
    }
  }

  lemma {:induction false} SettledSomewhere(history: seq<Happening>, id: nat) returns (k: nat)
    requires id in Outcomes(history)
    ensures SettledAt(history, id, k)
  {
    var n := |history| - 1;
    var before := history[..n];
    PrefixOf(history, n);
    if id in Outcomes(before) {
      k := SettledSomewhere(before, id);
    } else {
      k := n;
      PendingIssued(before, id);
      forall j | 0 <= j < n && Issued(id) in history[..j]
        ensures Effect(history[j], id).None?
      {
        UnsettledBefore(before, id, j);
      }
    }
  }

  lemma SettledWasIssued(history: seq<Happening>, id: nat)
    requires id in Outcomes(history)
    ensures Issued(id) in history
  {
    var k := SettledSomewhere(history, id);
    var a :| 0 <= a < |history[..k]| && history[..k][a] == Issued(id);
    assert history[a] == Issued(id);
  }

  /** What `h` does to a pending request. */
  lemma OneSettle(pending: set<nat>, outcomes: map<nat, Outcome>, h: Happening, id: nat)
    requires id in pending
    ensures var after := Settle(pending, outcomes, h);
            && (id in after <==> id in outcomes || Effect(h, id).Some?)
            && (id in outcomes ==> after[id] == outcomes[id])
            && (id !in outcomes && id in after ==> after[id] == Effect(h, id).value)
  {
  }

  lemma {:induction false} SettledThere(history: seq<Happening>, id: nat, k: nat)
    requires SettledAt(history, id, k)
    ensures id in Outcomes(history) && Outcomes(history)[id] == Effect(history[k], id).value
  {
    var n := |history| - 1;
    var before := history[..n];
    PrefixOf(history, n);
    if k < n {
      assert SettledAt(before, id, k);
      SettledThere(before, id, k);
    } else {
      PendingIssued(before, id);
      if id in Outcomes(before) {
        var j := SettledSomewhere(before, id);
        assert false;
      }
    }
  }

  /** While `id` is unsettled, no happening since its issue had an effect on it. */
  lemma {:induction false} UnsettledBefore(history: seq<Happening>, id: nat, j: nat)
    requires id !in Outcomes(history)
    requires j < |history| && Issued(id) in history[..j]
    ensures Effect(history[j], id).None?
  {
    var n := |history| - 1;
    var before := history[..n];
    PrefixOf(history, n);
    if j < n {
      UnsettledBefore(before, id, j);
    } else {
      PendingIssued(before, id);
    }
  }

  /** The first happening after the issue of `id` that has an effect on it is its outcome. */
  lemma FirstEffect(h: seq<Happening>, id: nat, i: nat, k: nat)
    requires IssuesInOrder(h)
    requires i < k < |h| && h[i] == Issued(id) && Effect(h[k], id).Some?
    requires forall j :: i < j < k ==> Effect(h[j], id).None?
    ensures id in Outcomes(h) && Outcomes(h)[id] == Effect(h[k], id).value
  {
    assert h[..k][i] == Issued(id);
    forall j | 0 <= j < k && Issued(id) in h[..j]
      ensures Effect(h[j], id).None?
    {
      OnlyIssue(h, id, i, j);
    }
    assert SettledAt(h, id, k);
    FirstWins(h, id);
  }

  /** The outcome of a request comes from the first happening after its issue that has an effect on it. */
  lemma WhichEffect(h: seq<Happening>, id: nat, i: nat) returns (k: nat)
    requires IssuesInOrder(h)
    requires i < |h| && h[i] == Issued(id) && id in Outcomes(h)
    ensures i < k < |h| && Effect(h[k], id) == Some(Outcomes(h)[id])
    ensures forall j :: i < j < k ==> Effect(h[j], id).None?
  {
    FirstWins(h, id);
    k :| SettledAt(h, id, k);
    OnlyIssue(h, id, i, k);
    forall j | i < j < k
      ensures Effect(h[j], id).None?
    {
      assert h[..j][i] == Issued(id);
    }
  }

  /** A request is open exactly while nothing since its issue has had an effect on it. */
  lemma OpenUntilEffect(h: seq<Happening>, id: nat, i: nat)
    requires IssuesInOrder(h)
    requires i < |h| && h[i] == Issued(id)
    ensures id in Outcomes(h) <==> exists k :: i < k < |h| && Effect(h[k], id).Some?
  {
    if id in Outcomes(h) {
      var k := WhichEffect(h, id, i);
    } else {
      forall k | i < k < |h|
        ensures Effect(h[k], id).None?
      {
        assert h[..k][i] == Issued(id);
        UnsettledBefore(h, id, k);
      }
    }
  }

  /** Settled at most once: whatever happens later, an outcome stays what it is. */
  lemma {:induction false} SettledOnce(history: seq<Happening>, later: seq<Happening>, id: nat)
    requires id in Outcomes(history)
    ensures id in Outcomes(history + later) && Outcomes(history + later)[id] == Outcomes(history)[id]
    decreases |later|
  {
    if later == [] {
      assert history + later == history;
    } else {
      var n := |later| - 1;
      SettledOnce(history, later[..n], id);
      assert (history + later)[..|history + later| - 1] == history + later[..n];
    }
  }

  /** A message without an id, or with the id of no pending request, changes no promise. */
  lemma UnknownIdChangesNothing(history: seq<Happening>, line: Decoded)
    requires line.Message? ==> line.id.None? || line.id.value !in Pending(history)
    ensures Outcomes(history + [Arrived(line)]) == Outcomes(history)
  {
    var all := history + [Arrived(line)];
    assert all[..|all| - 1] == history;
  }
}
