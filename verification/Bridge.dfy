/** The stdio bridge: requests settled by a reply line, the process's exit or a timeout. */
module Bridges {
  import opened Basics
  import opened Settlement

  datatype Event = Request | Line(line: string) | Exit(code: int) | Timeout(id: nat)

  datatype State = State(nextId: nat, exited: bool, history: seq<Happening>)

  const FRESH := State(1, false, [])

  /**
   * `exit` is listened to once. A request's timer exists from its issue on, so a
   * timeout can only name an issued id.
   */
  function Step(decode: string -> Decoded, s: State, e: Event): (after: State) {
    match e
    case Request => State(s.nextId + 1, s.exited, s.history + [Issued(s.nextId)])
    case Line(line) => s.(history := s.history + [Arrived(decode(line))])
    case Exit(code) => if s.exited then s else s.(exited := true, history := s.history + [Exited(code)])
    case Timeout(id) => if 1 <= id < s.nextId then s.(history := s.history + [Fired(id)]) else s
  }

  function Run(decode: string -> Decoded, events: seq<Event>): (s: State) {
    if events == [] then FRESH
    else Step(decode, Run(decode, events[..|events| - 1]), events[|events| - 1])
  }

  class Bridge {
    const decode: string -> Decoded
    var nextId: nat
    /** The keys of the source's map; none is ever removed. */
    var pending: set<nat>
    /** The promises that have settled. */
    var promises: map<nat, Outcome>
    /** Whether the one `exit` listener has run. */
    var exited: bool
    ghost var history: seq<Happening>

    ghost predicate Valid()
      reads this
    {
      && pending == Pending(history) && promises == Outcomes(history)
      && nextId >= 1
      && forall id: nat :: id in pending <==> 1 <= id < nextId
    }

    ghost function View(): State
      reads this
    {
      State(nextId, exited, history)
    }

    constructor (decode: string -> Decoded)
      ensures Valid() && View() == FRESH && this.decode == decode
    {
      this.decode := decode;
      nextId, pending, promises, exited, history := 1, {}, map[], false, [];
    }

    method Request() returns (id: nat)
      requires Valid()
      modifies this
      ensures Valid() && View() == Step(decode, old(View()), Event.Request)
      ensures id == old(nextId) && pending == old(pending) + {id} && promises == old(promises)
    {
      id := nextId;
      nextId := nextId + 1;
      pending := pending + {id};
      OneMore(history, Issued(id));
      SettleIssued(Pending(history), Outcomes(history), id);
      history := history + [Issued(id)];
    }

    /** `resolve` or `reject`: a promise that has settled ignores it. */
    method SettlePromise(id: nat, o: Outcome)
      modifies this`promises
      ensures promises == if id in old(promises) then old(promises) else old(promises)[id := o]
    {
      if id !in promises {
        promises := promises[id := o];
      }
    }

    /** A line of stdout; a line that does not parse, or parses to `null`, throws and changes nothing. */
    method OnLine(line: string) returns (threw: bool)
      requires Valid()
      modifies this
      ensures Valid() && View() == Step(decode, old(View()), Line(line))
      ensures threw <==> !decode(line).Message?
      ensures var reply := decode(line);
        promises == if reply.Message? && reply.id.Some? && reply.id.value in old(pending) && reply.id.value !in old(promises)
                    then old(promises)[reply.id.value := Reply(reply)] else old(promises)
    {
      var reply := decode(line);
      OneMore(history, Arrived(reply));
      SettleOne(Pending(history), Outcomes(history), Arrived(reply));
      threw := !reply.Message?;
      if reply.Message? && reply.id.Some? && reply.id.value in pending {
        SettlePromise(reply.id.value, Reply(reply));
      }
      history := history + [Arrived(reply)];
    }

    /** Rejects every pending request. */
    method RejectAll(code: int)
      modifies this`promises
      ensures promises == Settle(pending, old(promises), Exited(code))
      ensures promises == old(promises) + map id | id in pending && id !in old(promises) :: ProcessExited(code)
    {
      var todo := pending;
      while todo != {}
        invariant todo <= pending
        invariant promises == old(promises) + map id | id in pending - todo && id !in old(promises) :: ProcessExited(code)
        decreases todo
      {
        var id :| id in todo;
        todo := todo - {id};
        SettlePromise(id, ProcessExited(code));
      }
    }

    method OnExit(code: int)
      requires Valid()
      modifies this
      ensures Valid() && View() == Step(decode, old(View()), Exit(code))
      ensures promises == if old(exited) then old(promises)
                          else old(promises) + map id | id in old(pending) && id !in old(promises) :: ProcessExited(code)
    {
      if exited { return; }
      exited := true;
      OneMore(history, Exited(code));
      RejectAll(code);
      history := history + [Exited(code)];
    }

    /** A request's timer fires. */
    method OnTimeout(id: nat)
      requires Valid()
      requires id in pending
      modifies this
      ensures Valid() && View() == Step(decode, old(View()), Timeout(id))
      ensures promises == if id in old(promises) then old(promises) else old(promises)[id := TimedOut]
    {
      OneMore(history, Fired(id));
      SettleOne(Pending(history), Outcomes(history), Fired(id));
      SettlePromise(id, TimedOut);
      history := history + [Fired(id)];
    }
  }

  // --------------------------------------------------------- properties ---

  /** Of every state of a run: ids in order and once each, one exit at most, timeouts only of issued requests. */
  ghost predicate Orderly(s: State) {
    && s.nextId >= 1
    && (forall id: nat :: Issued(id) in s.history <==> 1 <= id < s.nextId)
    && IssuesInOrder(s.history)
    && (forall i, j :: 0 <= i < j < |s.history| && s.history[i].Exited? ==> !s.history[j].Exited?)
    && (s.exited <==> exists i :: 0 <= i < |s.history| && s.history[i].Exited?)
    && (forall i :: 0 <= i < |s.history| && s.history[i].Fired? ==> TimerRuns(s.history, i))
  }

  /** The timeout at `i` is of a request issued before. */
  ghost predicate TimerRuns(h: seq<Happening>, i: nat)
    requires i < |h| && h[i].Fired?
  {
    exists k :: 0 <= k < i && h[k] == Issued(h[i].id)
  }

  lemma OrderlySnoc(s: State, h: Happening, after: State)
    requires Orderly(s) && after.history == s.history + [h]
    requires match h {
               case Issued(id) => id == s.nextId && after.nextId == id + 1 && after.exited == s.exited
               case Arrived(_) => after.nextId == s.nextId && after.exited == s.exited
               case Exited(_) => after.nextId == s.nextId && !s.exited && after.exited
               case Fired(id) => after.nextId == s.nextId && after.exited == s.exited && 1 <= id < s.nextId
             }
    ensures Orderly(after)
  {
    IssuesSnoc(s.history, h, s.nextId);
    OneExitSnoc(s.history, h, s.exited);
    forall i | 0 <= i < |after.history| && after.history[i].Fired?
      ensures TimerRuns(after.history, i)
    {
      TimersSnoc(s.history, h, i);
    }
  }

  lemma IssuesSnoc(history: seq<Happening>, h: Happening, next: nat)
    requires IssuesInOrder(history)
    requires forall id: nat :: Issued(id) in history ==> id < next
    requires h.Issued? ==> h.id == next
    ensures IssuesInOrder(history + [h])
  {
    forall i | 0 <= i < |history| && history[i].Issued?
      ensures history[i].id < next
    {
      assert Issued(history[i].id) in history;
    }
  }

  lemma OneExitSnoc(history: seq<Happening>, h: Happening, exited: bool)
    requires exited <==> exists i :: 0 <= i < |history| && history[i].Exited?
    ensures (exited || h.Exited?) <==> exists i :: 0 <= i < |history + [h]| && (history + [h])[i].Exited?
  {
    var all := history + [h];
    assert forall i :: 0 <= i < |history| ==> all[i] == history[i];
    assert all[|history|] == h;
  }

  lemma TimersSnoc(history: seq<Happening>, h: Happening, i: nat)
    requires i < |history + [h]| && (history + [h])[i].Fired?
    requires i < |history| ==> TimerRuns(history, i)
    requires h.Fired? ==> Issued(h.id) in history
    ensures TimerRuns(history + [h], i)
  {
    var all := history + [h];
    var k :| 0 <= k < |history| && k < i && history[k] == Issued(all[i].id);
    assert all[k] == history[k];
  }

  lemma {:induction false} RunIsOrderly(decode: string -> Decoded, events: seq<Event>)
    ensures Orderly(Run(decode, events))
  {
    if events != [] {
      var before, e := Run(decode, events[..|events| - 1]), events[|events| - 1];
      RunIsOrderly(decode, events[..|events| - 1]);
      var after := Step(decode, before, e);
      if after != before {
        OrderlySnoc(before, after.history[|before.history|], after);
      }
    }
  }

  /** Every settlement stands, whatever the rest of the run brings. */
  lemma {:induction false} SettledForGood(decode: string -> Decoded, events: seq<Event>, later: seq<Event>, id: nat)
    requires id in Outcomes(Run(decode, events).history)
    ensures var o := Outcomes(Run(decode, events + later).history);
            id in o && o[id] == Outcomes(Run(decode, events).history)[id]
  {
    var more := HistoryGrows(decode, events, later);
    SettledOnce(Run(decode, events).history, more, id);
  }

  lemma {:induction false} HistoryGrows(decode: string -> Decoded, events: seq<Event>, later: seq<Event>)
    returns (more: seq<Happening>)
    ensures Run(decode, events + later).history == Run(decode, events).history + more
    decreases |later|
  {
    if later == [] {
      assert events + later == events;
      more := [];
    } else {
      var all, n := events + later, |later| - 1;
      more := HistoryGrows(decode, events, later[..n]);
      assert all[..|all| - 1] == events + later[..n];
      var before, after := Run(decode, events + later[..n]), Run(decode, all);
      if after.history != before.history {
        Assoc(Run(decode, events).history, more, [after.history[|before.history|]]);
        more := more + [after.history[|before.history|]];
      }
    }
  }

  // ------------------------------------------------ from the events alone ---

  function Requests(events: seq<Event>): (n: nat) {
    if events == [] then 0
    else Requests(events[..|events| - 1]) + if events[|events| - 1].Request? then 1 else 0
  }

  predicate HasExited(events: seq<Event>) { exists e <- events :: e.Exit? }

  /** What event `i` has to leave in the history: the next id, the line, the first exit, the timer of a request made by then. */
  function Trace(decode: string -> Decoded, events: seq<Event>, i: nat): (t: seq<Happening>)
    requires i < |events|
  {
    match events[i]
    case Request => [Issued(Requests(events[..i]) + 1)]
    case Line(line) => [Arrived(decode(line))]
    case Exit(code) => if HasExited(events[..i]) then [] else [Exited(code)]
    case Timeout(id) => if 1 <= id <= Requests(events[..i]) then [Fired(id)] else []
  }

  function Traces(decode: string -> Decoded, events: seq<Event>): (t: seq<seq<Happening>>) {
    seq(|events|, i requires 0 <= i < |events| => Trace(decode, events, i))
  }

  lemma TracesSnoc(decode: string -> Decoded, events: seq<Event>)
    requires events != []
    ensures var n := |events| - 1; Traces(decode, events) == Traces(decode, events[..n]) + [Trace(decode, events, n)]
  {
    var n := |events| - 1;
    forall i | 0 <= i < n
      ensures Trace(decode, events[..n], i) == Trace(decode, events, i)
    {
      assert events[..n][..i] == events[..i];
    }
  }

  /** The history of a run records its events, all of them and nothing else, in their order. */
  lemma {:induction false} RunRecordsEvents(decode: string -> Decoded, events: seq<Event>)
    ensures Run(decode, events).history == Concat(Traces(decode, events))
    ensures Run(decode, events).nextId == Requests(events) + 1
    ensures Run(decode, events).exited <==> HasExited(events)
  {
    if events != [] {
      var n := |events| - 1;
      RunRecordsEvents(decode, events[..n]);
      StepTrace(decode, events, n, Run(decode, events[..n]));
      TracesSnoc(decode, events);
      ConcatAppend(Traces(decode, events[..n]), [Trace(decode, events, n)]);
      assert Concat([Trace(decode, events, n)]) == Trace(decode, events, n) + Concat([Trace(decode, events, n)][1..]);
      assert events == events[..n] + [events[n]];
    }
  }

  /** Event `k` ends request `id`, if nothing has before: a message with its id, the first exit, its timeout. */
  ghost predicate EndsAt(decode: string -> Decoded, events: seq<Event>, k: nat, id: nat)
    requires k < |events|
  {
    match events[k]
    case Request => false
    case Line(line) => decode(line).Message? && decode(line).id == Some(id)
    case Exit(_) => forall j :: 0 <= j < k ==> !events[j].Exit?
    case Timeout(t) => t == id
  }

  ghost predicate NoneEnds(decode: string -> Decoded, events: seq<Event>, i: nat, k: nat, id: nat)
    requires k <= |events|
  {
    forall j :: i < j < k ==> !EndsAt(decode, events, j, id)
  }

  lemma EndsAtInPrefix(decode: string -> Decoded, events: seq<Event>, k: nat, n: nat, id: nat)
    requires k < n <= |events|
    ensures EndsAt(decode, events[..n], k, id) <==> EndsAt(decode, events, k, id)
  {
  }

  lemma NoneInPrefix(decode: string -> Decoded, events: seq<Event>, i: nat, k: nat, n: nat, id: nat)
    requires k <= n <= |events| && NoneEnds(decode, events, i, k, id)
    ensures NoneEnds(decode, events[..n], i, k, id)
  {
    forall j | i < j < k
      ensures !EndsAt(decode, events[..n], j, id)
    {
      EndsAtInPrefix(decode, events, j, n, id);
    }
  }

  function ResultOf(decode: string -> Decoded, e: Event): (o: Outcome) {
    match e
    case Line(line) => Reply(decode(line))
    case Exit(code) => ProcessExited(code)
    case _ => TimedOut
  }

  lemma {:induction false} RequestsGrow(events: seq<Event>, i: nat)
    requires i < |events| && events[i].Request?
    ensures Requests(events[..i]) < Requests(events)
  {
    var n := |events| - 1;
    if i < n {
      RequestsGrow(events[..n], i);
      assert events[..n][..i] == events[..i];
    }
  }

  /** What a request has come to, if it is settled. */
  function OutcomeOf(decode: string -> Decoded, events: seq<Event>, id: nat): (o: Option<Outcome>) {
    var outcomes := Outcomes(Run(decode, events).history);
    if id in outcomes then Some(outcomes[id]) else None
  }

  /** A request not made yet is not settled. */
  lemma NotYetSettled(decode: string -> Decoded, events: seq<Event>, id: nat)
    requires id > Requests(events)
    ensures OutcomeOf(decode, events, id) == None
  {
    RunIsOrderly(decode, events);
    RunRecordsEvents(decode, events);
    if id in Outcomes(Run(decode, events).history) {
      SettledWasIssued(Run(decode, events).history, id);
    }
  }

  /** What the last event leaves. */
  lemma LastTrace(decode: string -> Decoded, events: seq<Event>)
    requires events != []
    ensures var n := |events| - 1;
            Run(decode, events).history == Run(decode, events[..n]).history + Trace(decode, events, n)
  {
    var n := |events| - 1;
    RunRecordsEvents(decode, events[..n]);
    StepTrace(decode, events, n, Run(decode, events[..n]));
  }

  lemma StepTrace(decode: string -> Decoded, events: seq<Event>, n: nat, s: State)
    requires n < |events| && s.nextId == Requests(events[..n]) + 1 && (s.exited <==> HasExited(events[..n]))
    ensures Step(decode, s, events[n]).history == s.history + Trace(decode, events, n)
  {
    assert s.history + [] == s.history;
  }

  /** An event ends an issued request exactly when what it leaves has an effect on it. */
  lemma TraceEnds(decode: string -> Decoded, events: seq<Event>, k: nat, id: nat)
    requires k < |events| && 1 <= id <= Requests(events[..k])
    ensures |Trace(decode, events, k)| <= 1
    ensures EndsAt(decode, events, k, id)
       <==> Trace(decode, events, k) != [] && Effect(Trace(decode, events, k)[0], id) == Some(ResultOf(decode, events[k]))
    ensures !EndsAt(decode, events, k, id)
       <==> Trace(decode, events, k) == [] || Effect(Trace(decode, events, k)[0], id).None?
  {
    assert HasExited(events[..k]) <==> exists j :: 0 <= j < k && events[j].Exit?;
  }

  /** What the last event does to an issued request. */
  lemma LastEvent(decode: string -> Decoded, events: seq<Event>, id: nat)
    requires events != [] && 1 <= id <= Requests(events[..|events| - 1])
    ensures var n := |events| - 1;
            var before := OutcomeOf(decode, events[..n], id);
            OutcomeOf(decode, events, id)
            == if before.None? && EndsAt(decode, events, n, id) then Some(ResultOf(decode, events[n])) else before
  {
    var n := |events| - 1;
    var h, t := Run(decode, events[..n]).history, Trace(decode, events, n);
    RunRecordsEvents(decode, events[..n]);
    RunIsOrderly(decode, events[..n]);
    PendingIssued(h, id);
    LastTrace(decode, events);
    TraceEnds(decode, events, n, id);
    if t == [] {
      assert h + t == h;
    } else {
      assert t == [t[0]];
      OneMore(h, t[0]);
      OneSettle(Pending(h), Outcomes(h), t[0], id);
    }
  }

  lemma JustMade(decode: string -> Decoded, events: seq<Event>, id: nat)
    requires events != [] && events[|events| - 1].Request? && id == Requests(events[..|events| - 1]) + 1
    ensures OutcomeOf(decode, events, id) == None
  {
    var s := Run(decode, events[..|events| - 1]);
    NotYetSettled(decode, events[..|events| - 1], id);
    OneMore(s.history, Issued(s.nextId));
    SettleIssued(Pending(s.history), Outcomes(s.history), s.nextId);
  }

  /** While no event since its issue ends it, a request is open. */
  lemma {:induction false} StaysOpen(decode: string -> Decoded, events: seq<Event>, i: nat, id: nat)
    requires i < |events| && events[i].Request? && id == Requests(events[..i]) + 1
    requires NoneEnds(decode, events, i, |events|, id)
    ensures OutcomeOf(decode, events, id) == None
    decreases |events|
  {
    var n := |events| - 1;
    if i == n {
      JustMade(decode, events, id);
    } else {
      assert events[..n][..i] == events[..i];
      NoneInPrefix(decode, events, i, n, n, id);
      StaysOpen(decode, events[..n], i, id);
      RequestsGrow(events[..n], i);
      LastEvent(decode, events, id);
    }
  }

  /** The first event since its issue that ends it does, for good. */
  lemma EndsThere(decode: string -> Decoded, events: seq<Event>, i: nat, id: nat, k: nat)
    requires i < k < |events| && events[i].Request? && id == Requests(events[..i]) + 1
    requires EndsAt(decode, events, k, id) && NoneEnds(decode, events, i, k, id)
    ensures OutcomeOf(decode, events, id) == Some(ResultOf(decode, events[k]))
  {
    var until := events[..k + 1];
    assert until[..i] == events[..i] && until + events[k + 1..] == events;
    NoneInPrefix(decode, events, i, k, k + 1, id);
    EndsAtInPrefix(decode, events, k, k + 1, id);
    EndsLast(decode, until, i, id);
    SettledForGood(decode, until, events[k + 1..], id);
  }

  lemma EndsLast(decode: string -> Decoded, events: seq<Event>, i: nat, id: nat)
    requires i < |events| - 1 && events[i].Request? && id == Requests(events[..i]) + 1
    requires EndsAt(decode, events, |events| - 1, id) && NoneEnds(decode, events, i, |events| - 1, id)
    ensures OutcomeOf(decode, events, id) == Some(ResultOf(decode, events[|events| - 1]))
  {
    var n := |events| - 1;
    assert events[..n][..i] == events[..i];
    NoneInPrefix(decode, events, i, n, n, id);
    StaysOpen(decode, events[..n], i, id);
    RequestsGrow(events[..n], i);
    LastEvent(decode, events, id);
  }

  /**
   * How a request ends, over all runs. It is open until the first of: a line
   * with its id, the process's one exit, its timeout; and that first one is its
   * outcome. So a reply is the outcome exactly when it comes before the exit and
   * before the timeout, and otherwise the request is rejected.
   */
  lemma FirstOfThree(decode: string -> Decoded, events: seq<Event>, i: nat, id: nat)
    requires i < |events| && events[i].Request? && id == Requests(events[..i]) + 1
    ensures OutcomeOf(decode, events, id).Some? <==> exists k :: i < k < |events| && EndsAt(decode, events, k, id)
    ensures forall k :: i < k < |events| && EndsAt(decode, events, k, id) && NoneEnds(decode, events, i, k, id) ==>
      OutcomeOf(decode, events, id) == Some(ResultOf(decode, events[k]))
  {
    if exists k :: i < k < |events| && EndsAt(decode, events, k, id) {
      var k := FirstEnd(decode, events, i, id);
      EndsThere(decode, events, i, id, k);
    } else {
      StaysOpen(decode, events, i, id);
    }
    forall k | i < k < |events| && EndsAt(decode, events, k, id) && NoneEnds(decode, events, i, k, id)
      ensures OutcomeOf(decode, events, id) == Some(ResultOf(decode, events[k]))
    {
      EndsThere(decode, events, i, id, k);
    }
  }

  /** Every request ends: once its timer has fired it is settled, whatever the process did. */
  lemma TimerEnds(decode: string -> Decoded, events: seq<Event>, i: nat, id: nat)
    requires i < |events| && events[i].Request? && id == Requests(events[..i]) + 1
    requires Timeout(id) in events[i + 1..]
    ensures OutcomeOf(decode, events, id).Some?
  {
    var k :| 0 <= k < |events[i + 1..]| && events[i + 1..][k] == Timeout(id);
    assert EndsAt(decode, events, i + 1 + k, id);
    FirstOfThree(decode, events, i, id);
  }

  /**
   * A request sent after the exit: the exit does not reach it. If no line with
   * its id comes (the process is gone), only its timeout settles it.
   */
  lemma SentAfterExit(decode: string -> Decoded, events: seq<Event>, x: nat, i: nat, id: nat)
    requires x < i < |events| && events[x].Exit? && events[i].Request? && id == Requests(events[..i]) + 1
    ensures var o := OutcomeOf(decode, events, id);
            && (o.Some? ==> !o.value.ProcessExited?)
            && ((forall k :: i < k < |events| && events[k].Line? ==> !EndsAt(decode, events, k, id)) ==>
                  o == if Timeout(id) in events[i + 1..] then Some(TimedOut) else None)
  {
    var o := OutcomeOf(decode, events, id);
    FirstOfThree(decode, events, i, id);
    if o.Some? {
      var k := FirstEnd(decode, events, i, id);
      assert !events[k].Exit?;
      assert events[i + 1..][k - i - 1] == events[k];
    }
    if Timeout(id) in events[i + 1..] { TimerEnds(decode, events, i, id); }
  }

  lemma {:induction false} FirstEnd(decode: string -> Decoded, events: seq<Event>, i: nat, id: nat) returns (k: nat)
    requires exists k :: i < k < |events| && EndsAt(decode, events, k, id)
    ensures i < k < |events| && EndsAt(decode, events, k, id)
    ensures NoneEnds(decode, events, i, k, id)
  {
    k := i + 1;
    while !EndsAt(decode, events, k, id)
      invariant i < k < |events| && forall j :: i < j < k ==> !EndsAt(decode, events, j, id)
      decreases |events| - k
    {
      assert exists m :: k < m < |events| && EndsAt(decode, events, m, id);
      k := k + 1;
    }
  }
}
