/** Typing with read-back: the retry loop around `Typing`, and the editor it drives. */
module VerifiedTyping {
  import opened Basics
  import opened Typing

  /** The white space `trim` removes. */
  predicate IsSpace(c: char) {
    var u := c as int;
    || 9 <= u <= 13 || u == 0x20 || u == 0xA0 || u == 0x1680 || 0x2000 <= u <= 0x200A
    || u == 0x2028 || u == 0x2029 || u == 0x202F || u == 0x205F || u == 0x3000 || u == 0xFEFF
  }

  function TrimStart(s: string): (t: string)
    ensures |t| <= |s|
  {
    if s != "" && IsSpace(s[0]) then TrimStart(s[1..]) else s
  }

  function TrimEnd(s: string): (t: string)
    ensures |t| <= |s|
  {
    if s != "" && IsSpace(s[|s| - 1]) then TrimEnd(s[..|s| - 1]) else s
  }

  function Trim(s: string): (t: string) { TrimEnd(TrimStart(s)) }

  /** White space and line ends as ECMAScript has them, by code. */
  lemma SpacesAre(c: char)
    ensures IsSpace(c) <==>
      c as int in {0x09, 0x0A, 0x0B, 0x0C, 0x0D, 0x20, 0xA0, 0x1680, 0x2000, 0x2001, 0x2002, 0x2003, 0x2004, 0x2005, 0x2006,
                   0x2007, 0x2008, 0x2009, 0x200A, 0x2028, 0x2029, 0x202F, 0x205F, 0x3000, 0xFEFF}
  {
  }

  ghost predicate AllSpace(s: string) { forall i :: 0 <= i < |s| ==> IsSpace(s[i]) }

  lemma {:induction false} TrimStartIs(s: string) returns (front: string)
    ensures AllSpace(front) && s == front + TrimStart(s) && (TrimStart(s) == "" || !IsSpace(TrimStart(s)[0]))
  {
    if s != "" && IsSpace(s[0]) {
      front := TrimStartIs(s[1..]);
      front := [s[0]] + front;
    } else {
      front := "";
    }
  }

  lemma {:induction false} TrimEndIs(s: string) returns (back: string)
    ensures AllSpace(back) && s == TrimEnd(s) + back && (TrimEnd(s) == "" || !IsSpace(TrimEnd(s)[|TrimEnd(s)| - 1]))
  {
    if s != "" && IsSpace(s[|s| - 1]) {
      back := TrimEndIs(s[..|s| - 1]);
      back := back + [s[|s| - 1]];
    } else {
      back := "";
    }
  }

  /** Trimming takes the white space off both ends, all of it, and nothing else. */
  lemma TrimIs(s: string) returns (front: string, back: string)
    ensures AllSpace(front) && AllSpace(back) && s == front + (Trim(s) + back)
    ensures Trim(s) != "" ==> !IsSpace(Trim(s)[0]) && !IsSpace(Trim(s)[|Trim(s)| - 1])
  {
    front := TrimStartIs(s);
    back := TrimEndIs(TrimStart(s));
  }

  /** One read-back under `waitUntil` that did not throw, and when it was made. */
  datatype Read = Read(text: string, at: int)

  const SETTLED_MS: int := 400

  /**
   * What the polling loop ends on: the first read that is the text, or has stood
   * unchanged long enough, or the last one the budget allows.
   */
  function LastSeen(polls: seq<Read>, text: string, previous: Option<string>, changedAt: int): (seen: string)
    requires polls != []
  {
    var seen := Trim(polls[0].text);
    var since := if previous == Some(seen) then changedAt else polls[0].at;
    if seen == text || polls[0].at - since >= SETTLED_MS || |polls| == 1 then seen
    else LastSeen(polls[1..], text, Some(seen), since)
  }

  /** What an attempt leaves in `lastSeen`: when every read throws, what was there before. */
  function SeenAfter(polls: seq<Read>, text: string, lastSeen: string): (seen: string) {
    if polls == [] then lastSeen else LastSeen(polls, text, None, polls[0].at)
  }

  /** The first of the reads up to `i` that showed what read `i` shows and since which nothing changed. */
  function UnchangedSince(polls: seq<Read>, i: nat): (j: nat)
    requires i < |polls|
    ensures j <= i
  {
    if i > 0 && Trim(polls[i - 1].text) == Trim(polls[i].text) then UnchangedSince(polls, i - 1) else i
  }

  /** Read `i` ends the polling: it is the text, or unchanged for 400 ms, or the last there is. */
  predicate EndsPolling(polls: seq<Read>, text: string, i: nat)
    requires i < |polls|
  {
    || Trim(polls[i].text) == text
    || polls[i].at - polls[UnchangedSince(polls, i)].at >= 400
    || i == |polls| - 1
  }

  /** What the loop knows before read `i`. */
  function PreviousAt(polls: seq<Read>, i: nat): (previous: Option<string>)
    requires i < |polls|
  {
    if i == 0 then None else Some(Trim(polls[i - 1].text))
  }

  function ChangedAt(polls: seq<Read>, i: nat): (at: int)
    requires i < |polls|
  {
    if i == 0 then polls[0].at else polls[UnchangedSince(polls, i - 1)].at
  }

  /** Polling goes on up to the first read that ends it, and what that read shows is what is seen. */
  lemma {:induction false} PollingEnds(polls: seq<Read>, text: string, i: nat, end: nat)
    requires i <= end < |polls| && EndsPolling(polls, text, end)
    requires forall j :: i <= j < end ==> !EndsPolling(polls, text, j)
    ensures LastSeen(polls[i..], text, PreviousAt(polls, i), ChangedAt(polls, i)) == Trim(polls[end].text)
    decreases end - i
  {
    OneMorePoll(polls, text, i, polls[i..]);
    if i < end { PollingEnds(polls, text, i + 1, end); }
  }

  lemma OneMorePoll(polls: seq<Read>, text: string, i: nat, rest: seq<Read>)
    requires i < |polls| && rest == polls[i..]
    ensures LastSeen(rest, text, PreviousAt(polls, i), ChangedAt(polls, i))
         == if EndsPolling(polls, text, i) then Trim(polls[i].text)
            else LastSeen(polls[i + 1..], text, PreviousAt(polls, i + 1), ChangedAt(polls, i + 1))
  {
    assert rest[0] == polls[i] && rest[1..] == polls[i + 1..];
  }

  lemma SeenIs(polls: seq<Read>, text: string, lastSeen: string, end: nat)
    requires end < |polls| && EndsPolling(polls, text, end)
    requires forall j :: 0 <= j < end ==> !EndsPolling(polls, text, j)
    ensures SeenAfter(polls, text, lastSeen) == Trim(polls[end].text)
  {
    PollingEnds(polls, text, 0, end);
    assert polls[0..] == polls;
  }

  /** A read-back that always shows what the box holds. */
  ghost predicate Reliable(look: (nat, string) -> seq<Read>) {
    forall attempt, content ::
      look(attempt, content) != [] && forall r <- look(attempt, content) :: r.text == content
  }

  lemma {:induction false} ReliableSeen(polls: seq<Read>, text: string, previous: Option<string>, changedAt: int, content: string)
    requires polls != [] && forall r <- polls :: r.text == content
    ensures LastSeen(polls, text, previous, changedAt) == Trim(content)
    decreases |polls|
  {
    assert polls[0] in polls;
    if |polls| > 1 {
      var seen := Trim(polls[0].text);
      var since := if previous == Some(seen) then changedAt else polls[0].at;
      ReliableSeen(polls[1..], text, Some(seen), since, content);
    }
  }

  /** A focused text box with its caret between `before` and `after`. */
  class TextBox {
    var before: string
    var after: string

    function Content(): string
      reads this
    {
      before + after
    }

    constructor (before: string, after: string)
      ensures this.before == before && this.after == after
    {
      this.before, this.after := before, after;
    }

    /** One `browser.keys` call: the driver loses a key pressed again while held. */
    method Keys(keys: string)
      modifies this
      ensures before == old(before) + Delivered({}, keys) && after == old(after)
    {
      before := before + Delivered({}, keys);
    }

    /** Control-A, then Delete. */
    method Clear()
      modifies this
      ensures before == "" && after == ""
    {
      before, after := "", "";
    }
  }

  /** `Array.from(text)`: a call per key. */
  function Singles(text: string): (chunks: seq<string>) {
    seq(|text|, i requires 0 <= i < |text| => [text[i]])
  }

  lemma {:induction false} SinglesAreExact(text: string)
    ensures Sent(Singles(text)) == text
  {
    if text != "" {
      SinglesAreExact(text[1..]);
      assert Singles(text)[1..] == Singles(text[1..]);
      assert Delivered({}, [text[0]]) == [text[0]] + Delivered({text[0]}, [text[0]][1..]);
    }
  }

  lemma SentOne(keys: string)
    ensures Sent([keys]) == Delivered({}, keys)
  {
    assert Sent([keys]) == Delivered({}, keys) + Sent([keys][1..]);
  }

  lemma {:induction false} SentSnoc(calls: seq<string>, last: string)
    ensures Sent(calls + [last]) == Sent(calls) + Delivered({}, last)
  {
    if calls == [] {
      SentOne(last);
      assert [] + [last] == [last];
    } else {
      SentSnoc(calls[1..], last);
      assert (calls + [last])[1..] == calls[1..] + [last];
      Assoc(Delivered({}, calls[0]), Sent(calls[1..]), Delivered({}, last));
    }
  }

  /** The calls of one attempt, one after the other. */
  method SendAll(box: TextBox, calls: seq<string>)
    modifies box
    ensures box.before == old(box.before) + Sent(calls) && box.after == old(box.after)
  {
    for i := 0 to |calls|
      invariant box.before == old(box.before) + Sent(calls[..i]) && box.after == old(box.after)
    {
      SentSnoc(calls[..i], calls[i]);
      assert calls[..i + 1] == calls[..i] + [calls[i]];
      Assoc(old(box.before), Sent(calls[..i]), Delivered({}, calls[i]));
      box.Keys(calls[i]);
    }
    assert calls[..|calls|] == calls;
  }

  /** The keys of one attempt: in distinct chunks first, one at a time in a retry. */
  method TypeOnce(box: TextBox, text: string, attempt: nat) returns (chunks: seq<string>)
    modifies box
    ensures chunks == if attempt == 1 then Greedy(text) else Singles(text)
    ensures box.before == old(box.before) + Sent(chunks) && box.after == old(box.after)
    ensures box.Content() == old(box.before) + text + old(box.after)
    ensures old(box.Content()) == "" ==> box.Content() == text
  {
    GreedyIsExact(text);
    SinglesAreExact(text);
    chunks := Singles(text);
    if attempt == 1 {
      chunks := DistinctKeyChunks(text);
    }
    SendAll(box, chunks);
  }

  /** The `waitUntil` of one attempt, over the reads that did not throw; its own rejection is caught. */
  method Poll(polls: seq<Read>, text: string, before: string) returns (lastSeen: string)
    ensures lastSeen == SeenAfter(polls, text, before)
  {
    lastSeen := before;
    if polls == [] { return; }
    ghost var seen := LastSeen(polls, text, None, polls[0].at);
    var previous: Option<string> := None;
    var changedAt := polls[0].at;
    var i := 0;
    while i < |polls|
      invariant 0 <= i <= |polls|
      invariant i < |polls| ==> seen == LastSeen(polls[i..], text, previous, changedAt)
      invariant i == |polls| ==> lastSeen == seen
    {
      lastSeen := Trim(polls[i].text);
      Tail(polls, i);
      if previous != Some(lastSeen) {
        previous := Some(lastSeen);
        changedAt := polls[i].at;
      }
      if lastSeen == text || polls[i].at - changedAt >= SETTLED_MS { return; }
      i := i + 1;
    }
  }

  datatype Typed = Typed(attempt: nat) | NeverMatched(lastSeen: string)

  const MAX_TYPE_ATTEMPTS: nat := 3

  /** What the box holds when an attempt is read back: the first types into what was there, a retry into a cleared box. */
  function ContentAt(attempt: nat, before: string, text: string, after: string): (content: string) {
    if attempt == 1 then before + text + after else text
  }

  /** Whether the read-back of an attempt ends on the text. */
  ghost predicate Matches(look: (nat, string) -> seq<Read>, attempt: nat, before: string, text: string, after: string) {
    var polls := look(attempt, ContentAt(attempt, before, text, after));
    polls != [] && LastSeen(polls, text, None, polls[0].at) == text
  }

  /**
   * Whether an attempt is taken for a success. `lastSeen` starts out empty, so a
   * first attempt without a single read passes for the empty text.
   */
  ghost predicate Succeeds(look: (nat, string) -> seq<Read>, attempt: nat, before: string, text: string, after: string) {
    || Matches(look, attempt, before, text, after)
    || (attempt == 1 && text == "" && look(1, ContentAt(1, before, text, after)) == [])
  }

  /** What `lastSeen` holds after the first `attempts`: an attempt none of whose reads succeeds leaves it. */
  ghost function SeenThrough(look: (nat, string) -> seq<Read>, attempts: nat, before: string, text: string, after: string): (seen: string) {
    if attempts == 0 then ""
    else SeenAfter(look(attempts, ContentAt(attempts, before, text, after)), text,
                   SeenThrough(look, attempts - 1, before, text, after))
  }

  /** What `typeVerified` can come to: the first of its attempts that succeeds, or that none did. */
  ghost predicate IsVerdict(look: (nat, string) -> seq<Read>, before: string, text: string, after: string, r: Typed) {
    match r
    case Typed(attempt) =>
      && 1 <= attempt <= 3 && Succeeds(look, attempt, before, text, after)
      && forall a :: 1 <= a < attempt ==> !Succeeds(look, a, before, text, after)
    case NeverMatched(lastSeen) =>
      && lastSeen != text && lastSeen == SeenThrough(look, 3, before, text, after)
      && forall a :: 1 <= a <= 3 ==> !Succeeds(look, a, before, text, after)
  }

  /** None of the first attempts ended on the text. */
  ghost predicate NotYet(look: (nat, string) -> seq<Read>, attempts: nat, before: string, text: string, after: string) {
    attempts == 0
    || (NotYet(look, attempts - 1, before, text, after) && SeenThrough(look, attempts, before, text, after) != text)
  }

  /** When an attempt succeeds. */
  lemma OneAttempt(look: (nat, string) -> seq<Read>, attempt: nat, before: string, text: string, after: string)
    requires attempt >= 1 && NotYet(look, attempt - 1, before, text, after)
    ensures SeenThrough(look, attempt, before, text, after) == text <==> Succeeds(look, attempt, before, text, after)
  {
  }

  lemma {:induction false} NoneSucceeded(look: (nat, string) -> seq<Read>, attempts: nat, before: string, text: string, after: string)
    requires NotYet(look, attempts, before, text, after)
    ensures forall a :: 1 <= a <= attempts ==> !Succeeds(look, a, before, text, after)
  {
    if attempts > 0 {
      NoneSucceeded(look, attempts - 1, before, text, after);
      OneAttempt(look, attempts, before, text, after);
    }
  }

  lemma VerdictIs(look: (nat, string) -> seq<Read>, attempt: nat, before: string, text: string, after: string)
    requires 1 <= attempt <= 3 && NotYet(look, attempt - 1, before, text, after)
    ensures SeenThrough(look, attempt, before, text, after) == text ==> IsVerdict(look, before, text, after, Typed(attempt))
    ensures attempt == 3 && SeenThrough(look, 3, before, text, after) != text ==>
      IsVerdict(look, before, text, after, NeverMatched(SeenThrough(look, 3, before, text, after)))
  {
    OneAttempt(look, attempt, before, text, after);
    NoneSucceeded(look, attempt - 1, before, text, after);
  }

  /**
   * `typeVerified` with the default clear, over a driver that loses repeats.
   * `look` is what the page shows: the reads of an attempt that do not throw, of
   * which there may be none. It returns at the first attempt that succeeds, the
   * box as that attempt left it, and otherwise rejects.
   */
  method TypeVerified(box: TextBox, text: string, look: (nat, string) -> seq<Read>) returns (r: Typed)
    modifies box
    ensures IsVerdict(look, old(box.before), text, old(box.after), r)
    ensures r.Typed? ==> box.Content() == ContentAt(r.attempt, old(box.before), text, old(box.after))
    ensures r.NeverMatched? ==> box.Content() == text
  {
    var lastSeen := "";
    ghost var before, after := box.before, box.after;
    for attempt := 1 to MAX_TYPE_ATTEMPTS + 1
      invariant attempt == 1 ==> box.before == before && box.after == after
      invariant 1 < attempt <= MAX_TYPE_ATTEMPTS ==> box.before == "" && box.after == ""
      invariant attempt > MAX_TYPE_ATTEMPTS ==> box.Content() == text
      invariant lastSeen == SeenThrough(look, attempt - 1, before, text, after)
      invariant NotYet(look, attempt - 1, before, text, after)
    {
      var _ := TypeOnce(box, text, attempt);
      assert box.Content() == ContentAt(attempt, before, text, after);
      lastSeen := Poll(look(attempt, box.Content()), text, lastSeen);
      VerdictIs(look, attempt, before, text, after);
      if lastSeen == text { return Typed(attempt); }
      if attempt < MAX_TYPE_ATTEMPTS {
        box.Clear();
      }
    }
    VerdictIs(look, MAX_TYPE_ATTEMPTS, before, text, after);
    return NeverMatched(lastSeen);
  }

  /**
   * A success rests on a read-back that is the text, except exactly when the
   * text is empty and every read of the first attempt throws.
   */
  lemma SuccessIsReadBack(look: (nat, string) -> seq<Read>, before: string, text: string, after: string, r: Typed)
    requires IsVerdict(look, before, text, after, r) && r.Typed?
    ensures Matches(look, r.attempt, before, text, after)
       <==> text != "" || look(1, ContentAt(1, before, text, after)) != []
  {
    if text == "" && look(1, ContentAt(1, before, text, after)) == [] {
      assert Succeeds(look, 1, before, text, after);
    }
  }

  /** Then it says nothing of the box: whatever is in it, typing the empty text succeeds unread. */
  lemma UnreadSuccess(before: string, after: string, r: Typed)
    requires IsVerdict((attempt: nat, shown: string) => [], before, "", after, r)
    ensures r == Typed(1) && ContentAt(1, before, "", after) == before + after
  {
    assert Succeeds((attempt: nat, shown: string) => [], 1, before, "", after);
    assert before + "" == before;
  }

  /**
   * With a reliable read-back, from any starting content and caret: the text is
   * typed if and only if trimming leaves it as it is, and then within two
   * attempts.
   */
  lemma TypedWithinTwo(look: (nat, string) -> seq<Read>, before: string, text: string, after: string, r: Typed)
    requires Reliable(look) && IsVerdict(look, before, text, after, r)
    ensures r.Typed? <==> Trim(text) == text
    ensures r.Typed? ==> r.attempt <= 2
  {
    if Trim(text) == text {
      MatchIsTrimmed(look, 2, before, text, after);
      assert Succeeds(look, 2, before, text, after);
    } else if r.Typed? {
      assert look(1, ContentAt(1, before, text, after)) != [];
      MatchIsTrimmed(look, r.attempt, before, text, after);
      TrimIsStable(ContentAt(r.attempt, before, text, after));
    }
  }

  lemma MatchIsTrimmed(look: (nat, string) -> seq<Read>, a: nat, before: string, text: string, after: string)
    requires Reliable(look)
    ensures Matches(look, a, before, text, after) <==> Trim(ContentAt(a, before, text, after)) == text
  {
    var content := ContentAt(a, before, text, after);
    ReliableSeen(look(a, content), text, None, look(a, content)[0].at, content);
  }

  lemma {:induction false} TrimEndKeepsStart(s: string)
    requires s == "" || !IsSpace(s[0])
    ensures TrimStart(TrimEnd(s)) == TrimEnd(s) == TrimEnd(TrimEnd(s))
    decreases |s|
  {
    if s != "" && IsSpace(s[|s| - 1]) {
      TrimEndKeepsStart(s[..|s| - 1]);
    }
  }

  lemma {:induction false} TrimStartStrips(s: string)
    ensures var t := TrimStart(s); t == "" || !IsSpace(t[0])
  {
    if s != "" && IsSpace(s[0]) {
      TrimStartStrips(s[1..]);
    }
  }

  lemma TrimIsStable(s: string)
    ensures Trim(Trim(s)) == Trim(s)
  {
    TrimStartStrips(s);
    TrimEndKeepsStart(TrimStart(s));
  }
}
