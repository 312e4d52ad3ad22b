/** Newline-delimited JSON-RPC over an MCP socket, requests pipelined. */
module McpClients {
  import opened Basics
  import opened Settlement
  import opened LineFraming

  // ----------------------------------------------------- specification ---

  datatype Event = Request | Data(chunk: string)

  datatype Client = Client(nextId: nat, buffer: string, history: seq<Happening>)

  const FRESH := Client(1, "", [])

  function Arrivals(decode: string -> Decoded, lines: seq<string>): (h: seq<Happening>) {
    seq(|lines|, i requires 0 <= i < |lines| => Arrived(decode(lines[i])))
  }

  function Step(decode: string -> Decoded, c: Client, e: Event): (after: Client) {
    match e
    case Request => c.(nextId := c.nextId + 1, history := c.history + [Issued(c.nextId)])
    case Data(chunk) => DrainAll(decode, c.(buffer := c.buffer + chunk))
  }

  /** Every line the buffer holds has arrived, up to one that throws. */
  function DrainAll(decode: string -> Decoded, c: Client): (after: Client) {
    var d := Drain(decode, c.buffer);
    c.(buffer := d.rest, history := c.history + Arrivals(decode, d.lines))
  }

  /** A whole run, in any order of requests and chunks. */
  function Run(decode: string -> Decoded, events: seq<Event>): (c: Client) {
    if events == [] then FRESH
    else Step(decode, Run(decode, events[..|events| - 1]), events[|events| - 1])
  }

  // ------------------------------------------------------------- client ---

  class McpClient {
    const decode: string -> Decoded
    var nextId: nat
    var buffer: string
    /** The keys of the source's map; a key stays when its promise settles. */
    var pending: set<nat>
    /** The promises that have settled. */
    var promises: map<nat, Outcome>
    ghost var history: seq<Happening>

    ghost predicate Valid()
      reads this`pending, this`promises, this`history
    {
      pending == Pending(history) && promises == Outcomes(history)
    }

    ghost function View(): Client
      reads this
    {
      Client(nextId, buffer, history)
    }

    constructor (decode: string -> Decoded)
      ensures Valid() && View() == FRESH && this.decode == decode
    {
      this.decode := decode;
      nextId, buffer, pending, promises, history := 1, "", {}, map[], [];
    }

    /** `request`: registers the id that goes out on the wire. */
    method Request() returns (id: nat)
      requires Valid()
      modifies this
      ensures Valid() && View() == Step(decode, old(View()), Event.Request)
      ensures id == old(nextId) && Issued(id) in history
      ensures buffer == old(buffer) && pending == old(pending) + {id} && promises == old(promises)
    {
      id := nextId;
      nextId := nextId + 1;
      pending := pending + {id};
      OneMore(history, Issued(id));
      SettleIssued(Pending(history), Outcomes(history), id);
      history := history + [Issued(id)];
    }

    /** `pending.get(message.id)?.(message)`, for a line that parsed. */
    method Deliver(message: Decoded)
      requires Valid()
      modifies this`promises, this`history
      ensures Valid() && history == old(history) + [Arrived(message)]
      ensures promises == if message.Message? && message.id.Some? && message.id.value in pending && message.id.value !in old(promises)
                          then old(promises)[message.id.value := Reply(message)] else old(promises)
    {
      OneMore(history, Arrived(message));
      SettleOne(Pending(history), Outcomes(history), Arrived(message));
      if message.Message? && message.id.Some? && message.id.value in pending {
        if message.id.value !in promises {
          promises := promises[message.id.value := Reply(message)];
        }
      }
      history := history + [Arrived(message)];
    }

    /** One turn of the handler's loop; `threw` when parsing or reading the line ended the event. */
    method TakeLine(newline: nat) returns (threw: bool)
      requires Valid() && newline == NewlineIn(buffer)
      modifies this
      ensures Valid() && (threw || |buffer| < old(|buffer|))
      ensures DrainAll(decode, old(View())) == if threw then View() else DrainAll(decode, View())
      ensures Throws(decode, old(buffer)) <==> threw || Throws(decode, buffer)
    {
      var line := buffer[..newline];
      var message := decode(line);
      ghost var next := Client(nextId, buffer[newline + 1..], history + [Arrived(message)]);
      Turn(decode, View(), line, next);
      if message.Malformed? { return true; }
      buffer := buffer[newline + 1..];
      Deliver(message);
      assert View() == next;
      return message.Null?;
    }

    /** The `data` handler; `threw` when a line ended the event. */
    method OnData(chunk: string) returns (threw: bool)
      requires Valid()
      modifies this
      ensures Valid() && View() == Step(decode, old(View()), Data(chunk))
      ensures threw <==> Throws(decode, old(buffer) + chunk)
    {
      ghost var target := Step(decode, View(), Data(chunk));
      buffer := buffer + chunk;
      ghost var fails := Throws(decode, buffer);
      var newline := NewlineIn(buffer);
      while newline != -1
        invariant newline == NewlineIn(buffer)
        invariant Valid() && DrainAll(decode, View()) == target
        invariant fails <==> Throws(decode, buffer)
        decreases |buffer|
      {
        threw := TakeLine(newline);
        if threw { return; }
        newline := NewlineIn(buffer);
      }
      NoMoreLines(decode, View());
      return false;
    }
  }

  /** One turn of the loop, as `DrainAll` counts it. */
  lemma Turn(decode: string -> Decoded, c: Client, line: string, next: Client)
    requires NewlineIn(c.buffer) >= 0 && line == c.buffer[..NewlineIn(c.buffer)]
    requires next == Client(c.nextId, c.buffer[NewlineIn(c.buffer) + 1..], c.history + [Arrived(decode(line))])
    ensures decode(line).Malformed? ==> DrainAll(decode, c) == c
    ensures decode(line).Null? ==> DrainAll(decode, c) == next
    ensures decode(line).Message? ==> DrainAll(decode, c) == DrainAll(decode, next)
    ensures Throws(decode, c.buffer) <==> !decode(line).Message? || Throws(decode, next.buffer)
  {
    match decode(line)
    case Malformed => NoArrival(decode, c.history);
    case Null => OneArrival(decode, c.history, line, []);
    case Message(_, _) => OneArrival(decode, c.history, line, Drain(decode, next.buffer).lines);
  }

  lemma NoMoreLines(decode: string -> Decoded, c: Client)
    requires NewlineIn(c.buffer) < 0
    ensures DrainAll(decode, c) == c
  {
    NoArrival(decode, c.history);
  }

  lemma NoArrival(decode: string -> Decoded, h: seq<Happening>)
    ensures h + Arrivals(decode, []) == h
  {
  }

  lemma OneArrival(decode: string -> Decoded, h: seq<Happening>, line: string, lines: seq<string>)
    ensures h + Arrivals(decode, [line] + lines) == (h + [Arrived(decode(line))]) + Arrivals(decode, lines)
    ensures lines == [] ==> h + Arrivals(decode, [line]) == h + [Arrived(decode(line))]
  {
    ArrivalsAppend(decode, [line], lines);
    assert Arrivals(decode, [line]) == [Arrived(decode(line))];
    Assoc(h, [Arrived(decode(line))], Arrivals(decode, lines));
  }

  /** Whether draining `buffer` ends in an exception. */
  predicate Throws(decode: string -> Decoded, buffer: string)
    decreases |buffer|
  {
    var i := NewlineIn(buffer);
    i >= 0 && (!decode(buffer[..i]).Message? || Throws(decode, buffer[i + 1..]))
  }

  // --------------------------------------------------------- properties ---

  /** The ids issued so far are 1 to `nextId - 1`, each once, in order; besides, only lines arrive. */
  ghost predicate Orderly(c: Client) {
    && (forall id: nat :: Issued(id) in c.history <==> 1 <= id < c.nextId)
    && IssuesInOrder(c.history)
    && (forall h <- c.history :: h.Issued? || h.Arrived?)
  }

  lemma StepKeepsOrder(decode: string -> Decoded, c: Client, e: Event)
    requires Orderly(c) && c.nextId >= 1
    ensures Orderly(Step(decode, c, e))
  {
    var after := Step(decode, c, e);
    var more := after.history[|c.history|..];
    assert after.history == c.history + more;
    assert forall h <- more :: if e.Request? then h == Issued(c.nextId) else h.Arrived?;
    if e.Request? {
      assert Issued(c.nextId) in more;
      forall i | 0 <= i < |c.history| && c.history[i].Issued?
        ensures c.history[i].id < c.nextId
      {
        assert Issued(c.history[i].id) in c.history;
      }
    }
  }

  /** Ids are unique in every run. */
  lemma {:induction false} IdsAreUnique(decode: string -> Decoded, events: seq<Event>)
    ensures Orderly(Run(decode, events)) && Run(decode, events).nextId >= 1
  {
    if events != [] {
      IdsAreUnique(decode, events[..|events| - 1]);
      StepKeepsOrder(decode, Run(decode, events[..|events| - 1]), events[|events| - 1]);
    }
  }

  // ------------------------------------------------ from the events alone ---

  function Requests(events: seq<Event>): (n: nat) {
    if events == [] then 0
    else Requests(events[..|events| - 1]) + if events[|events| - 1].Request? then 1 else 0
  }

  function Chunks(events: seq<Event>): (chunks: seq<string>) {
    if events == [] then []
    else Chunks(events[..|events| - 1]) + if events[|events| - 1].Data? then [events[|events| - 1].chunk] else []
  }

  /** The lines a run has read: what framing its chunks gives, requests aside. */
  function LinesRead(decode: string -> Decoded, events: seq<Event>): (lines: seq<string>) {
    Feed(decode, "", Chunks(events)).lines
  }

  /** What arrived, in order. */
  function ArrivedIn(h: seq<Happening>): (arrived: seq<Happening>) {
    if h == [] then []
    else ArrivedIn(h[..|h| - 1]) + if h[|h| - 1].Arrived? then [h[|h| - 1]] else []
  }

  lemma {:induction false} ArrivedInAppend(a: seq<Happening>, b: seq<Happening>)
    ensures ArrivedIn(a + b) == ArrivedIn(a) + ArrivedIn(b)
    decreases |b|
  {
    if b == [] {
      assert a + b == a;
    } else {
      ArrivedInAppend(a, b[..|b| - 1]);
      assert (a + b)[..|a + b| - 1] == a + b[..|b| - 1];
    }
  }

  lemma {:induction false} AllArrived(h: seq<Happening>)
    requires forall x <- h :: x.Arrived?
    ensures ArrivedIn(h) == h
  {
    if h != [] {
      AllArrived(h[..|h| - 1]);
      assert h == h[..|h| - 1] + [h[|h| - 1]];
    }
  }

  lemma FeedSnoc(decode: string -> Decoded, buffer: string, chunks: seq<string>, c: string)
    ensures var before := Feed(decode, buffer, chunks);
            var d := Drain(decode, before.rest + c);
            Feed(decode, buffer, chunks + [c]) == Drained(before.lines + d.lines, d.rest)
  {
    FeedAppend(decode, buffer, chunks, [c]);
    var d := Drain(decode, Feed(decode, buffer, chunks).rest + c);
    assert Feed(decode, d.rest, [c][1..]) == Drained([], d.rest) && d.lines + [] == d.lines;
  }

  /** What has arrived and what is buffered is what framing the chunks gives. */
  ghost predicate HasRead(decode: string -> Decoded, c: Client, chunks: seq<string>) {
    && ArrivedIn(c.history) == Arrivals(decode, Feed(decode, "", chunks).lines)
    && c.buffer == Feed(decode, "", chunks).rest
  }

  /**
   * In whatever order requests and chunks come: the lines that arrive and the
   * buffer are those of the chunks, as if no request had been made; and the ids
   * issued are as many as the requests.
   */
  lemma {:induction false} RunReadsChunks(decode: string -> Decoded, events: seq<Event>)
    ensures HasRead(decode, Run(decode, events), Chunks(events))
    ensures Run(decode, events).nextId == Requests(events) + 1
  {
    if events != [] {
      var before, e := events[..|events| - 1], events[|events| - 1];
      var c := Run(decode, before);
      RunReadsChunks(decode, before);
      assert Chunks(before) + [] == Chunks(before);
      match e {
        case Request => IssueReadsNothing(c.history, c.nextId);
        case Data(chunk) => ChunkIsRead(decode, c, Chunks(before), chunk);
      }
    }
  }

  lemma IssueReadsNothing(h: seq<Happening>, id: nat)
    ensures ArrivedIn(h + [Issued(id)]) == ArrivedIn(h)
  {
    ArrivedInAppend(h, [Issued(id)]);
  }

  lemma ChunkIsRead(decode: string -> Decoded, c: Client, chunks: seq<string>, chunk: string)
    requires HasRead(decode, c, chunks)
    ensures HasRead(decode, DrainAll(decode, c.(buffer := c.buffer + chunk)), chunks + [chunk])
  {
    var d := Drain(decode, c.buffer + chunk);
    FeedSnoc(decode, "", chunks, chunk);
    ArrivedInAppend(c.history, Arrivals(decode, d.lines));
    AllArrived(Arrivals(decode, d.lines));
    ArrivalsAppend(decode, Feed(decode, "", chunks).lines, d.lines);
  }

  /** Nothing is lost or added in any run: what arrived, with its newlines, and the buffer make up the chunks. */
  lemma RunConserves(decode: string -> Decoded, events: seq<Event>)
    ensures Unlines(LinesRead(decode, events)) + Run(decode, events).buffer == Concat(Chunks(events))
    ensures ArrivedIn(Run(decode, events).history) == Arrivals(decode, LinesRead(decode, events))
  {
    RunReadsChunks(decode, events);
    FeedConserves(decode, "", Chunks(events));
    assert "" + Concat(Chunks(events)) == Concat(Chunks(events));
  }

  /** Requests do not disturb what is being received: without them the same arrives, and the same is left. */
  lemma RequestsDoNotMatter(decode: string -> Decoded, events: seq<Event>, others: seq<Event>)
    requires Chunks(events) == Chunks(others)
    ensures ArrivedIn(Run(decode, events).history) == ArrivedIn(Run(decode, others).history)
    ensures Run(decode, events).buffer == Run(decode, others).buffer
  {
    RunReadsChunks(decode, events);
    RunReadsChunks(decode, others);
  }

  predicate IsReply(h: Happening, id: nat) {
    h.Arrived? && h.line.Message? && h.line.id == Some(id)
  }

  /** What the first reply among the messages settles a request with. */
  function FirstReply(arrived: seq<Happening>, id: nat): (o: Option<Outcome>) {
    if arrived == [] then None
    else
      var earlier, last := FirstReply(arrived[..|arrived| - 1], id), arrived[|arrived| - 1];
      if earlier.None? && IsReply(last, id) then Some(Reply(last.line)) else earlier
  }

  lemma {:induction false} FirstReplyIs(arrived: seq<Happening>, id: nat)
    ensures FirstReply(arrived, id).Some? <==> exists m :: 0 <= m < |arrived| && IsReply(arrived[m], id)
    ensures forall m :: 0 <= m < |arrived| && IsReply(arrived[m], id) && (forall j :: 0 <= j < m ==> !IsReply(arrived[j], id)) ==>
      FirstReply(arrived, id) == Some(Reply(arrived[m].line))
  {
    if arrived != [] {
      var n := |arrived| - 1;
      FirstReplyIs(arrived[..n], id);
      assert forall m :: 0 <= m < n ==> arrived[..n][m] == arrived[m];
    }
  }

  function OutcomeIn(h: seq<Happening>, id: nat): (o: Option<Outcome>) {
    if id in Outcomes(h) then Some(Outcomes(h)[id]) else None
  }

  /** After a request is issued the first reply that arrives resolves it. */
  lemma {:induction false} ResolvedAmong(before: seq<Happening>, id: nat, since: seq<Happening>)
    requires id !in Outcomes(before) && forall h <- since :: h.Issued? || h.Arrived?
    ensures OutcomeIn(before + [Issued(id)] + since, id) == FirstReply(ArrivedIn(since), id)
    decreases |since|
  {
    if since == [] {
      assert before + [Issued(id)] + since == before + [Issued(id)];
      OneMore(before, Issued(id));
      SettleIssued(Pending(before), Outcomes(before), id);
    } else {
      var n := |since| - 1;
      var h := before + [Issued(id)] + since[..n];
      ResolvedAmong(before, id, since[..n]);
      assert before + [Issued(id)] + since == h + [since[n]] && since[n] in since;
      assert h[|before|] == Issued(id) && h[|before|] in h;
      ResolvedStep(h, since[n], id, ArrivedIn(since[..n]));
    }
  }

  lemma ResolvedStep(h: seq<Happening>, x: Happening, id: nat, arrived: seq<Happening>)
    requires Issued(id) in h && (x.Issued? || x.Arrived?) && OutcomeIn(h, id) == FirstReply(arrived, id)
    ensures OutcomeIn(h + [x], id) == FirstReply(arrived + if x.Arrived? then [x] else [], id)
  {
    OneMore(h, x);
    PendingIssued(h, id);
    OneSettle(Pending(h), Outcomes(h), x, id);
    if x.Arrived? {
      assert (arrived + [x])[..|arrived|] == arrived;
    } else {
      assert arrived + [] == arrived;
    }
  }

  lemma {:induction false} ChunksAppend(a: seq<Event>, b: seq<Event>)
    ensures Chunks(a + b) == Chunks(a) + Chunks(b)
    decreases |b|
  {
    if b == [] {
      assert a + b == a;
    } else {
      ChunksAppend(a, b[..|b| - 1]);
      assert (a + b)[..|a + b| - 1] == a + b[..|b| - 1];
    }
  }

  /** What has been read stays read. */
  lemma ReadBefore(decode: string -> Decoded, events: seq<Event>, i: nat)
    requires i <= |events|
    ensures LinesRead(decode, events[..i]) <= LinesRead(decode, events)
  {
    assert events == events[..i] + events[i..];
    ChunksAppend(events[..i], events[i..]);
    FeedAppend(decode, "", Chunks(events[..i]), Chunks(events[i..]));
  }

  /** The lines read after the first `i` events. */
  function LinesSince(decode: string -> Decoded, events: seq<Event>, i: nat): (lines: seq<string>)
    requires i <= |events|
  {
    ReadBefore(decode, events, i);
    LinesRead(decode, events)[|LinesRead(decode, events[..i])|..]
  }

  lemma {:induction false} HistoryGrows(decode: string -> Decoded, events: seq<Event>, i: nat) returns (more: seq<Happening>)
    requires i <= |events|
    ensures Run(decode, events).history == Run(decode, events[..i]).history + more
    decreases |events|
  {
    var n := |events| - 1;
    if i == |events| {
      assert events[..i] == events;
      more := [];
    } else {
      more := HistoryGrows(decode, events[..n], i);
      assert events[..n][..i] == events[..i];
      var before, after := Run(decode, events[..n]).history, Run(decode, events).history;
      Assoc(Run(decode, events[..i]).history, more, after[|before|..]);
      assert after == before + after[|before|..];
      more := more + after[|before|..];
    }
  }

  /** What arrives after a request is what is read since. */
  lemma SinceIs(decode: string -> Decoded, events: seq<Event>, i: nat, h: seq<Happening>, since: seq<Happening>)
    requires i < |events| && events[i].Request? && h == Run(decode, events[..i + 1]).history
    requires Run(decode, events).history == h + since
    ensures ArrivedIn(since) == Arrivals(decode, LinesSince(decode, events, i))
  {
    assert events[..i + 1][..i] == events[..i];
    assert Chunks(events[..i + 1]) == Chunks(events[..i]) + [] == Chunks(events[..i]);
    RunReadsChunks(decode, events[..i + 1]);
    RunReadsChunks(decode, events);
    ReadBefore(decode, events, i);
    RestArrived(decode, h, since, LinesRead(decode, events[..i]), LinesRead(decode, events));
  }

  lemma RestArrived(decode: string -> Decoded, h: seq<Happening>, since: seq<Happening>, before: seq<string>, all: seq<string>)
    requires before <= all && ArrivedIn(h) == Arrivals(decode, before) && ArrivedIn(h + since) == Arrivals(decode, all)
    ensures ArrivedIn(since) == Arrivals(decode, all[|before|..])
  {
    ArrivedInAppend(h, since);
    ArrivalsAppend(decode, before, all[|before|..]);
    assert all == before + all[|before|..];
    SameRest(ArrivedIn(h), ArrivedIn(since), Arrivals(decode, all[|before|..]));
  }

  lemma SameRest<T>(a: seq<T>, b: seq<T>, c: seq<T>)
    requires a + b == a + c
    ensures b == c
  {
    assert b == (a + b)[|a|..] && c == (a + c)[|a|..];
  }

  /** The line with which the first reply comes. */
  lemma FirstReplyLine(decode: string -> Decoded, lines: seq<string>, id: nat, o: Option<Outcome>)
    requires o == FirstReply(Arrivals(decode, lines), id)
    ensures o.Some? <==> exists m :: 0 <= m < |lines| && IsReply(Arrived(decode(lines[m])), id)
    ensures forall m :: 0 <= m < |lines| && IsReply(Arrived(decode(lines[m])), id)
                        && (forall j :: 0 <= j < m ==> !IsReply(Arrived(decode(lines[j])), id)) ==>
      o == Some(Reply(decode(lines[m])))
  {
    var arrived := Arrivals(decode, lines);
    FirstReplyIs(arrived, id);
    assert forall m :: 0 <= m < |lines| ==> arrived[m] == Arrived(decode(lines[m]));
  }

  /**
   * Pipelining, over all runs: a request is resolved exactly when a message
   * with its id is among the lines read since it was made, and then with the
   * first such message, whatever the order of the replies and however the bytes
   * are cut.
   */
  lemma ResolvedByFirstReply(decode: string -> Decoded, events: seq<Event>, i: nat, id: nat)
    requires i < |events| && events[i].Request? && id == Requests(events[..i]) + 1
    ensures var o, lines := OutcomeIn(Run(decode, events).history, id), LinesSince(decode, events, i);
            && (o.Some? <==> exists m :: 0 <= m < |lines| && IsReply(Arrived(decode(lines[m])), id))
            && forall m :: 0 <= m < |lines| && IsReply(Arrived(decode(lines[m])), id)
                           && (forall j :: 0 <= j < m ==> !IsReply(Arrived(decode(lines[j])), id)) ==>
                 o == Some(Reply(decode(lines[m])))
  {
    ResolvedAs(decode, events, i, id);
    FirstReplyLine(decode, LinesSince(decode, events, i), id, OutcomeIn(Run(decode, events).history, id));
  }

  lemma ResolvedAs(decode: string -> Decoded, events: seq<Event>, i: nat, id: nat)
    requires i < |events| && events[i].Request? && id == Requests(events[..i]) + 1
    ensures OutcomeIn(Run(decode, events).history, id) == FirstReply(Arrivals(decode, LinesSince(decode, events, i)), id)
  {
    var before, h := Run(decode, events[..i]).history, Run(decode, events[..i + 1]).history;
    var since := HistoryGrows(decode, events, i + 1);
    assert events[..i + 1][..i] == events[..i];
    RunReadsChunks(decode, events[..i]);
    assert h == before + [Issued(id)];
    NotYetResolved(decode, events[..i], id);
    OnlyIssuesAndLines(decode, events, h, since);
    ResolvedAmong(before, id, since);
    SinceIs(decode, events, i, h, since);
  }

  lemma NotYetResolved(decode: string -> Decoded, events: seq<Event>, id: nat)
    requires id > Requests(events)
    ensures id !in Outcomes(Run(decode, events).history)
  {
    var h := Run(decode, events).history;
    IdsAreUnique(decode, events);
    RunReadsChunks(decode, events);
    if id in Outcomes(h) { SettledWasIssued(h, id); }
  }

  lemma OnlyIssuesAndLines(decode: string -> Decoded, events: seq<Event>, h: seq<Happening>, more: seq<Happening>)
    requires Run(decode, events).history == h + more
    ensures forall x <- more :: x.Issued? || x.Arrived?
  {
    IdsAreUnique(decode, events);
    assert forall x <- more :: x in h + more;
  }

  /**
   * Between events of a run that has read no `null`, the buffer's first line is
   * incomplete or malformed.
   */
  lemma {:induction false} RunIsQuiet(decode: string -> Decoded, events: seq<Event>)
    requires Arrived(Null) !in Run(decode, events).history
    ensures Quiet(decode, Run(decode, events).buffer)
  {
    if events != [] {
      var c, e := Run(decode, events[..|events| - 1]), events[|events| - 1];
      assert forall h <- c.history :: h in Step(decode, c, e).history;
      RunIsQuiet(decode, events[..|events| - 1]);
      if e.Data? {
        NoNullRead(decode, c.history, Drain(decode, c.buffer + e.chunk).lines);
        DrainedIsQuiet(decode, c.buffer + e.chunk);
      }
    }
  }

  lemma NoNullRead(decode: string -> Decoded, h: seq<Happening>, lines: seq<string>)
    requires Arrived(Null) !in h + Arrivals(decode, lines)
    ensures forall line <- lines :: !decode(line).Null?
  {
    var all := h + Arrivals(decode, lines);
    forall i | 0 <= i < |lines|
      ensures !decode(lines[i]).Null?
    {
      assert all[|h| + i] == Arrived(decode(lines[i])) && all[|h| + i] in all;
    }
  }

  /**
   * After any run, of requests and chunks in any order, that has read no `null`:
   * where the bytes that follow are cut into chunks makes no difference to any
   * promise or to the buffer, so long as they bring no `null` before their last
   * line.
   */
  lemma CutsDoNotMatter(decode: string -> Decoded, events: seq<Event>, a: seq<string>, b: seq<string>)
    requires Arrived(Null) !in Run(decode, events).history
    requires Concat(a) == Concat(b)
    requires NullOnlyLast(decode, Lines(decode, Run(decode, events).buffer + Concat(a)).lines)
    ensures Run(decode, events + Chunked(a)) == Run(decode, events + Chunked(b))
  {
    var buffer := Run(decode, events).buffer;
    RunIsQuiet(decode, events);
    RunIsFeed(decode, events, a);
    RunIsFeed(decode, events, b);
    FeedReadsLines(decode, buffer, a);
    FeedReadsLines(decode, buffer, b);
  }

  function Chunked(chunks: seq<string>): (events: seq<Event>) {
    seq(|chunks|, i requires 0 <= i < |chunks| => Data(chunks[i]))
  }

  /** Data events after a run add to it what `Feed` says. */
  lemma {:induction false} RunIsFeed(decode: string -> Decoded, events: seq<Event>, chunks: seq<string>)
    ensures var c, d := Run(decode, events), Feed(decode, Run(decode, events).buffer, chunks);
            Run(decode, events + Chunked(chunks))
            == Client(c.nextId, d.rest, c.history + Arrivals(decode, d.lines))
    decreases |chunks|
  {
    var c := Run(decode, events);
    if chunks == [] {
      assert events + Chunked(chunks) == events;
      assert c.history + Arrivals(decode, []) == c.history;
    } else {
      var one := events + [Data(chunks[0])];
      assert one[..|one| - 1] == events;
      RunIsFeed(decode, one, chunks[1..]);
      FirstChunk(events, chunks);
      var first := Drain(decode, c.buffer + chunks[0]);
      var next := Feed(decode, first.rest, chunks[1..]);
      ArrivalsAppend(decode, first.lines, next.lines);
      Assoc(c.history, Arrivals(decode, first.lines), Arrivals(decode, next.lines));
    }
  }

  lemma FirstChunk(events: seq<Event>, chunks: seq<string>)
    requires chunks != []
    ensures events + Chunked(chunks) == (events + [Data(chunks[0])]) + Chunked(chunks[1..])
  {
  }

  lemma ArrivalsAppend(decode: string -> Decoded, a: seq<string>, b: seq<string>)
    ensures Arrivals(decode, a + b) == Arrivals(decode, a) + Arrivals(decode, b)
  {
  }
}
