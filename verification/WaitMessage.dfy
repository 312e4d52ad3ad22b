/**
 * The message of a failed element wait, and the parser that recovers the
 * selector and the awaited state from it. The regular expression is read as
 * what it does: leftmost start, greedy selector, first alternative that goes on.
 */
module WaitMessages {
  import opened Basics

  /** The state a wait was for. */
  datatype Awaited = WithinViewport | Displayed | Clickable | Enabled | Existing

  function Text(s: Awaited): (t: string) {
    match s
    case WithinViewport => "displayed within viewport"
    case Displayed => "displayed"
    case Clickable => "clickable"
    case Enabled => "enabled"
    case Existing => "existing"
  }

  const HEAD := "element (\""
  const CLOSE := "\") still not "
  const CLOSE_REVERSE := "\") still "
  const AFTER := " after "
  const UNIT := "ms"

  /** What `.` does not match. */
  predicate IsTerminator(c: char) {
    c == '\n' || c == '\r' || c as int == 0x2028 || c as int == 0x2029
  }

  predicate OneLine(s: string) { forall i :: 0 <= i < |s| ==> !IsTerminator(s[i]) }

  predicate IsDigit(c: char) { '0' <= c <= '9' }

  // ------------------------------------------------------------- template ---

  function Decimal(n: nat): (s: string)
    ensures s != "" && forall i :: 0 <= i < |s| ==> IsDigit(s[i])
  {
    if n < 10 then [('0' as int + n) as char] else Decimal(n / 10) + [('0' as int + n % 10) as char]
  }

  /** The template's end, from the closing quote on. */
  function Tail(close: string, awaited: Awaited, timeout: nat): (t: string) {
    close + (Text(awaited) + (AFTER + (Decimal(timeout) + UNIT)))
  }

  function Render(selector: string, awaited: Awaited, timeout: nat): (message: string) {
    HEAD + (selector + Tail(CLOSE, awaited, timeout))
  }

  function RenderReverse(selector: string, awaited: Awaited, timeout: nat): (message: string) {
    HEAD + (selector + Tail(CLOSE_REVERSE, awaited, timeout))
  }

  // --------------------------------------------------------------- parser ---

  function DigitRun(s: string): (n: nat)
    ensures n <= |s|
  {
    if s != "" && IsDigit(s[0]) then 1 + DigitRun(s[1..]) else 0
  }

  /** ` after \d+ms` at the front of `s`. */
  predicate IsAfter(s: string) {
    AFTER <= s && var rest := s[|AFTER|..]; DigitRun(rest) > 0 && UNIT <= rest[DigitRun(rest)..]
  }

  predicate IsState(awaited: Awaited, s: string) {
    Text(awaited) <= s && IsAfter(s[|Text(awaited)|..])
  }

  /** The alternatives, in their order. */
  function ParseState(s: string): (awaited: Option<Awaited>) {
    if IsState(WithinViewport, s) then Some(WithinViewport)
    else if IsState(Displayed, s) then Some(Displayed)
    else if IsState(Clickable, s) then Some(Clickable)
    else if IsState(Enabled, s) then Some(Enabled)
    else if IsState(Existing, s) then Some(Existing)
    else None
  }

  /** Everything behind the selector. */
  function ParseTail(s: string): (awaited: Option<Awaited>) {
    if CLOSE <= s then ParseState(s[|CLOSE|..]) else None
  }

  datatype WaitFailure = WaitFailure(selector: string, waitedFor: Awaited)

  /** Where the line that holds `from` ends. */
  function LineEnd(s: string, from: nat): (end: nat)
    requires from <= |s|
    ensures from <= end <= |s| && OneLine(s[from..end])
    decreases |s| - from
  {
    if from == |s| || IsTerminator(s[from]) then from
    else
      var end := LineEnd(s, from + 1);
      assert s[from..end] == [s[from]] + s[from + 1..end];
      end
  }

  /** The greedy `.+`: the longest selector from `start`, ending at `end` at most, that a tail can follow. */
  function ParseSelector(tail: string -> Option<Awaited>, s: string, start: nat, end: nat): (w: Option<WaitFailure>)
    requires start <= end <= |s|
    decreases end
  {
    if end == start then None
    else if tail(s[end..]).Some? then Some(WaitFailure(s[start..end], tail(s[end..]).value))
    else ParseSelector(tail, s, start, end - 1)
  }

  /** The match that starts at `from`, or the next one. */
  function ParseFrom(tail: string -> Option<Awaited>, s: string, from: nat): (w: Option<WaitFailure>)
    requires from <= |s|
    decreases |s| - from
  {
    var here := if HEAD <= s[from..] then ParseSelector(tail, s, from + |HEAD|, LineEnd(s, from + |HEAD|)) else None;
    if here.Some? || from == |s| then here else ParseFrom(tail, s, from + 1)
  }

  function ParseWaitFailure(message: string): (w: Option<WaitFailure>) {
    ParseFrom(ParseTail, message, 0)
  }

  // ----------------------------------------------------------- properties ---

  lemma {:induction false} ParsedSelector(tail: string -> Option<Awaited>, s: string, start: nat, end: nat)
    requires start <= end <= |s| && OneLine(s[start..end])
    ensures var w := ParseSelector(tail, s, start, end);
            w.Some? ==> w.value.selector != "" && OneLine(w.value.selector)
    decreases end
  {
    if start < end {
      assert s[start..end - 1] == s[start..end][..end - 1 - start];
      ParsedSelector(tail, s, start, end - 1);
    }
  }

  /** A parsed selector is not empty and is on one line. */
  lemma {:induction false} ParsedIsOneLine(tail: string -> Option<Awaited>, s: string, from: nat)
    requires from <= |s|
    ensures var w := ParseFrom(tail, s, from);
            w.Some? ==> w.value.selector != "" && OneLine(w.value.selector)
    decreases |s| - from
  {
    if HEAD <= s[from..] {
      ParsedSelector(tail, s, from + |HEAD|, LineEnd(s, from + |HEAD|));
    }
    if from < |s| { ParsedIsOneLine(tail, s, from + 1); }
  }

  lemma {:induction false} DigitsRun(digits: string, rest: string)
    requires forall i :: 0 <= i < |digits| ==> IsDigit(digits[i])
    requires rest == "" || !IsDigit(rest[0])
    ensures DigitRun(digits + rest) == |digits|
  {
    if digits != "" {
      assert (digits + rest)[1..] == digits[1..] + rest;
      DigitsRun(digits[1..], rest);
    } else {
      assert digits + rest == rest;
    }
  }

  lemma AfterParses(timeout: nat)
    ensures IsAfter(AFTER + (Decimal(timeout) + UNIT))
  {
    var digits := Decimal(timeout);
    var s := AFTER + (digits + UNIT);
    assert s[|AFTER|..] == digits + UNIT;
    DigitsRun(digits, UNIT);
    assert (digits + UNIT)[|digits|..] == UNIT;
  }

  /** A text that differs from `other` at `i` does not match that alternative. */
  lemma Differs(other: Awaited, s: string, i: nat)
    requires i < |Text(other)| && i < |s| && Text(other)[i] != s[i]
    ensures !IsState(other, s)
  {
  }

  /** The rendered state is recovered, whichever alternatives come before it. */
  lemma StateParses(awaited: Awaited, rest: string)
    requires IsAfter(rest)
    ensures ParseState(Text(awaited) + rest) == Some(awaited)
  {
    var t, s := Text(awaited), Text(awaited) + rest;
    assert s[|t|..] == rest && IsState(awaited, s);
    assert s[0] == t[0] && s[1] == t[1];
    if awaited.Displayed? {
      assert AFTER[1] == 'a' && rest[1] == AFTER[1] && s[10] == rest[1];
      Differs(WithinViewport, s, 10);
    } else if !awaited.WithinViewport? {
      Differs(WithinViewport, s, 0);
      Differs(Displayed, s, 0);
      if !awaited.Clickable? { Differs(Clickable, s, 0); }
      if awaited.Existing? { Differs(Enabled, s, 1); }
    }
  }

  lemma TailParses(awaited: Awaited, timeout: nat)
    ensures ParseTail(Tail(CLOSE, awaited, timeout)) == Some(awaited)
  {
    AfterParses(timeout);
    StateParses(awaited, AFTER + (Decimal(timeout) + UNIT));
    var t := Tail(CLOSE, awaited, timeout);
    assert t[|CLOSE|..] == Text(awaited) + (AFTER + (Decimal(timeout) + UNIT));
  }

  predicate Plain(s: string) { forall i :: 0 <= i < |s| ==> s[i] != '"' && !IsTerminator(s[i]) }

  lemma PlainAppend(a: string, b: string)
    requires Plain(a) && Plain(b)
    ensures Plain(a + b)
  {
  }

  lemma TextIsPlain(awaited: Awaited)
    ensures Plain(Text(awaited))
  {
  }

  lemma RestIsPlain(awaited: Awaited, timeout: nat)
    ensures Plain(Text(awaited) + (AFTER + (Decimal(timeout) + UNIT)))
  {
    var digits := Decimal(timeout);
    assert forall i :: 0 <= i < |digits| ==> IsDigit(digits[i]);
    PlainAppend(digits, UNIT);
    PlainAppend(AFTER, digits + UNIT);
    TextIsPlain(awaited);
    PlainAppend(Text(awaited), AFTER + (digits + UNIT));
  }

  /** After its first character the tail has no quote and no line end. */
  lemma TailIsPlain(close: string, awaited: Awaited, timeout: nat, t: string)
    requires close == CLOSE || close == CLOSE_REVERSE
    requires t == Tail(close, awaited, timeout)
    ensures OneLine(t) && forall i :: 0 < i < |t| ==> t[i] != '"'
  {
    RestIsPlain(awaited, timeout);
    FrontIsPlain(close, Text(awaited) + (AFTER + (Decimal(timeout) + UNIT)));
  }

  lemma FrontIsPlain(close: string, rest: string)
    requires Plain(rest) && (close == CLOSE || close == CLOSE_REVERSE)
    ensures OneLine(close + rest) && forall i :: 0 < i < |close + rest| ==> (close + rest)[i] != '"'
  {
  }

  lemma {:induction false} OneLineTo(s: string, from: nat, end: nat)
    requires from <= end <= |s| && OneLine(s[from..end]) && (end == |s| || IsTerminator(s[end]))
    ensures LineEnd(s, from) == end
    decreases end - from
  {
    if from < end {
      assert !IsTerminator(s[from..end][0]);
      assert s[from + 1..end] == s[from..end][1..];
      OneLineTo(s, from + 1, end);
    }
  }

  lemma NoTailAt(s: string, i: nat)
    requires i <= |s| && (i < |s| ==> s[i] != '"')
    ensures ParseTail(s[i..]).None?
  {
    assert s[i..] == "" || s[i..][0] != CLOSE[0];
  }

  /** Greed stops at the last place a tail can follow. */
  lemma {:induction false} GreedStops(tail: string -> Option<Awaited>, s: string, start: nat, at: nat, end: nat, awaited: Awaited)
    requires start < at <= end <= |s|
    requires tail(s[at..]) == Some(awaited)
    requires forall i :: at < i <= |s| ==> tail(s[i..]).None?
    ensures ParseSelector(tail, s, start, end) == Some(WaitFailure(s[start..at], awaited))
    decreases end
  {
    if end > at { GreedStops(tail, s, start, at, end - 1, awaited); }
  }

  /** From the message's own start, the greedy selector goes up to the last tail. */
  lemma LastTailWins(tail: string -> Option<Awaited>, selector: string, t: string, awaited: Awaited, s: string)
    requires selector != "" && OneLine(selector) && OneLine(t) && s == HEAD + (selector + t)
    requires tail(t) == Some(awaited) && forall i :: 0 < i <= |t| ==> tail(t[i..]).None?
    ensures ParseFrom(tail, s, 0) == Some(WaitFailure(selector, awaited))
  {
    var at := |HEAD| + |selector|;
    SelectorAndTail(HEAD, selector, t);
    OneLineTo(s, |HEAD|, |s|);
    forall i | at < i <= |s|
      ensures tail(s[i..]).None?
    {
      assert s[i..] == t[i - at..];
    }
    GreedStops(tail, s, |HEAD|, at, |s|, awaited);
    assert s[0..] == s;
  }

  /**
   * The parser undoes the template, with its exact condition: for every state
   * and timeout, the selector and the state are recovered if and only if the
   * selector is not empty and is on one line, whatever quotes, parentheses or
   * copies of the message it holds.
   */
  lemma ParserUndoesTemplate(selector: string, awaited: Awaited, timeout: nat)
    ensures ParseWaitFailure(Render(selector, awaited, timeout)) == Some(WaitFailure(selector, awaited))
       <==> selector != "" && OneLine(selector)
  {
    var s := Render(selector, awaited, timeout);
    if selector != "" && OneLine(selector) {
      var t := Tail(CLOSE, awaited, timeout);
      TailIsPlain(CLOSE, awaited, timeout, t);
      TailParses(awaited, timeout);
      forall i | 0 < i <= |t|
        ensures ParseTail(t[i..]).None?
      {
        NoTailAt(t, i);
      }
      LastTailWins(ParseTail, selector, t, awaited, s);
    } else {
      ParsedIsOneLine(ParseTail, s, 0);
    }
  }

  lemma SelectorAndTail(head: string, selector: string, t: string)
    requires OneLine(selector) && OneLine(t)
    ensures var s := head + (selector + t);
            && head <= s && s[|head|..|head| + |selector|] == selector && s[|head| + |selector|..] == t
            && OneLine(s[|head|..|s|])
  {
    var s := head + (selector + t);
    assert s[|head|..|s|] == selector + t;
  }

  // -------------------------------------------------------- as they are written ---

  /** The messages, letter by letter. */
  lemma MessageReads(selector: string, timeout: nat)
    ensures var tail := " after " + (Decimal(timeout) + "ms");
            && Render(selector, WithinViewport, timeout)
               == "element (\"" + (selector + ("\") still not " + ("displayed within viewport" + tail)))
            && Render(selector, Displayed, timeout) == "element (\"" + (selector + ("\") still not " + ("displayed" + tail)))
            && Render(selector, Clickable, timeout) == "element (\"" + (selector + ("\") still not " + ("clickable" + tail)))
            && Render(selector, Enabled, timeout) == "element (\"" + (selector + ("\") still not " + ("enabled" + tail)))
            && Render(selector, Existing, timeout) == "element (\"" + (selector + ("\") still not " + ("existing" + tail)))
            && RenderReverse(selector, Displayed, timeout) == "element (\"" + (selector + ("\") still " + ("displayed" + tail)))
  {
  }

  /** A line ends at LF, CR, LS or PS, and nowhere else. */
  lemma OneLineIs(s: string)
    ensures OneLine(s) <==> forall c <- s :: c as int !in {0x0A, 0x0D, 0x2028, 0x2029}
  {
    if !OneLine(s) {
      var i :| 0 <= i < |s| && IsTerminator(s[i]);
      assert s[i] in s;
    }
  }

  function DecimalValue(s: string): (n: nat)
    requires forall i :: 0 <= i < |s| ==> '0' <= s[i] <= '9'
  {
    if s == "" then 0 else 10 * DecimalValue(s[..|s| - 1]) + (s[|s| - 1] as int - '0' as int)
  }

  lemma {:induction false} DecimalRoundTrip(n: nat)
    ensures forall i :: 0 <= i < |Decimal(n)| ==> '0' <= Decimal(n)[i] <= '9'
    ensures DecimalValue(Decimal(n)) == n
  {
    if n >= 10 {
      DecimalRoundTrip(n / 10);
      assert Decimal(n)[..|Decimal(n)| - 1] == Decimal(n / 10);
    }
  }

  ghost predicate AllDigits(s: string) { forall i :: 0 <= i < |s| ==> '0' <= s[i] <= '9' }

  lemma {:induction false} RunIs(s: string)
    ensures AllDigits(s[..DigitRun(s)])
  {
    if s != "" && IsDigit(s[0]) {
      RunIs(s[1..]);
      assert s[..DigitRun(s)] == [s[0]] + s[1..][..DigitRun(s[1..])];
    }
  }

  /** `text` stands at the front of `s`, then a time-out. */
  ghost predicate SaysAfter(s: string, text: string, digits: string, rest: string) {
    digits != "" && AllDigits(digits) && s == text + (" after " + (digits + ("ms" + rest)))
  }

  lemma AfterIs(s: string, text: string)
    ensures text <= s && IsAfter(s[|text|..]) <==> exists digits, rest :: SaysAfter(s, text, digits, rest)
  {
    if text <= s && IsAfter(s[|text|..]) {
      var x := s[|text|..][|AFTER|..];
      var n := DigitRun(x);
      RunIs(x);
      assert x == x[..n] + x[n..] && x[n..] == UNIT + x[n..][|UNIT|..];
      assert s[|text|..] == AFTER + x && s == text + s[|text|..];
      assert SaysAfter(s, text, x[..n], x[n..][|UNIT|..]);
    }
    forall digits, rest | SaysAfter(s, text, digits, rest)
      ensures text <= s && IsAfter(s[|text|..])
    {
      var y := "ms" + rest;
      assert s[|text|..] == AFTER + (digits + y) && s[|text|..][|AFTER|..] == digits + y;
      DigitsRun(digits, y);
      assert (digits + y)[|digits|..] == y;
    }
  }

  /** What the parser takes for the end of a message: this, wherever it goes on. */
  ghost predicate IsTail(s: string, awaited: Awaited) {
    && "\") still not " <= s
    && exists digits, rest :: SaysAfter(s[|"\") still not "|..], Text(awaited), digits, rest)
  }

  lemma TailIs(s: string, awaited: Awaited)
    ensures ParseTail(s) == Some(awaited) <==> IsTail(s, awaited)
  {
    if CLOSE <= s {
      var x := s[|CLOSE|..];
      AfterIs(x, Text(awaited));
      if IsState(awaited, x) {
        StateParses(awaited, x[|Text(awaited)|..]);
        assert x == Text(awaited) + x[|Text(awaited)|..];
      }
    }
  }

  // -------------------------------------------------------- reverse waits ---

  /** A match of the expression: its head at `b`, the selector up to `e`, and a tail there. */
  ghost predicate MatchAt(tail: string -> Option<Awaited>, s: string, b: nat, e: nat) {
    b + |HEAD| < e <= |s| && HEAD <= s[b..] && OneLine(s[b + |HEAD|..e]) && tail(s[e..]).Some?
  }

  lemma {:induction false} SelectorFound(tail: string -> Option<Awaited>, s: string, start: nat, end: nat)
    requires start <= end <= |s|
    ensures ParseSelector(tail, s, start, end).Some? <==> exists e :: start < e <= end && tail(s[e..]).Some?
    decreases end
  {
    if start < end { SelectorFound(tail, s, start, end - 1); }
  }

  /** A line's end is as far as one line goes. */
  lemma {:induction false} LineEndIs(s: string, from: nat, e: nat)
    requires from <= e <= |s|
    ensures e <= LineEnd(s, from) <==> OneLine(s[from..e])
    decreases e - from
  {
    if from < e {
      if !IsTerminator(s[from]) {
        LineEndIs(s, from + 1, e);
        assert s[from..e] == [s[from]] + s[from + 1..e];
      } else {
        assert s[from..e][0] == s[from];
      }
    }
  }

  lemma MatchHere(tail: string -> Option<Awaited>, s: string, b: nat)
    requires b <= |s| && HEAD <= s[b..]
    ensures ParseSelector(tail, s, b + |HEAD|, LineEnd(s, b + |HEAD|)).Some? <==> exists e :: MatchAt(tail, s, b, e)
  {
    var start, end := b + |HEAD|, LineEnd(s, b + |HEAD|);
    SelectorFound(tail, s, start, end);
    forall e: nat
      ensures MatchAt(tail, s, b, e) <==> start < e <= end && tail(s[e..]).Some?
    {
      if start < e <= |s| { LineEndIs(s, start, e); }
    }
  }

  lemma {:induction false} ParsedMatches(tail: string -> Option<Awaited>, s: string, from: nat) returns (b: nat, e: nat)
    requires from <= |s| && ParseFrom(tail, s, from).Some?
    ensures from <= b && MatchAt(tail, s, b, e)
    decreases |s| - from
  {
    if HEAD <= s[from..] { MatchHere(tail, s, from); }
    if HEAD <= s[from..] && ParseSelector(tail, s, from + |HEAD|, LineEnd(s, from + |HEAD|)).Some? {
      b := from;
      e :| MatchAt(tail, s, b, e);
    } else {
      b, e := ParsedMatches(tail, s, from + 1);
    }
  }

  lemma {:induction false} MatchIsParsed(tail: string -> Option<Awaited>, s: string, from: nat, b: nat, e: nat)
    requires from <= b && MatchAt(tail, s, b, e)
    ensures from <= |s| && ParseFrom(tail, s, from).Some?
    decreases b - from
  {
    if from < b {
      MatchIsParsed(tail, s, from + 1, b, e);
    } else {
      MatchHere(tail, s, b);
    }
  }

  /** The parser finds something exactly when there is a match. */
  lemma ParseFinds(tail: string -> Option<Awaited>, s: string)
    ensures ParseFrom(tail, s, 0).Some? <==> exists b: nat, e: nat :: MatchAt(tail, s, b, e)
  {
    if ParseFrom(tail, s, 0).Some? {
      var b, e := ParsedMatches(tail, s, 0);
    }
    if b: nat, e: nat :| MatchAt(tail, s, b, e) {
      MatchIsParsed(tail, s, 0, b, e);
    }
  }

  /**
   * The text quotes a wait: from its start, or behind a quoted head, one line
   * leads to a quoted tail.
   */
  ghost predicate Quotes(tail: string -> Option<Awaited>, selector: string, k: nat, i: nat) {
    && k < i < |selector| && (k == 0 || (k >= |HEAD| && selector[k - |HEAD|..k] == HEAD))
    && OneLine(selector[k..i]) && tail(selector[i..]).Some?
  }

  lemma {:induction false} RunUpToQuote(x: string, t: string)
    requires t != "" && !IsDigit(t[0])
    ensures DigitRun(x + t) == DigitRun(x)
  {
    if x == "" {
      assert x + t == t;
    } else {
      RunUpToQuote(x[1..], t);
      assert (x + t)[1..] == x[1..] + t;
    }
  }

  /** No prefix without a quote reaches into what starts with one. */
  lemma PrefixUpToQuote(p: string, x: string, t: string)
    requires t != "" && t[0] == '"' && forall k :: 0 <= k < |p| ==> p[k] != '"'
    ensures p <= x + t <==> p <= x
  {
    if |p| <= |x| {
      assert (x + t)[..|p|] == x[..|p|];
    } else {
      assert p[|x|] != '"' && (x + t)[|x|] == '"';
    }
  }

  lemma DropUpTo(x: string, t: string, n: nat)
    requires n <= |x|
    ensures (x + t)[n..] == x[n..] + t
  {
  }

  lemma AfterUpToQuote(x: string, t: string)
    requires t != "" && t[0] == '"'
    ensures IsAfter(x + t) <==> IsAfter(x)
  {
    PrefixUpToQuote(AFTER, x, t);
    if AFTER <= x {
      var rest := x[|AFTER|..];
      DropUpTo(x, t, |AFTER|);
      RunUpToQuote(rest, t);
      DropUpTo(rest, t, DigitRun(rest));
      PrefixUpToQuote(UNIT, rest[DigitRun(rest)..], t);
    }
  }

  lemma StateUpToQuote(x: string, t: string, awaited: Awaited)
    requires t != "" && t[0] == '"'
    ensures IsState(awaited, x + t) <==> IsState(awaited, x)
  {
    TextIsPlain(awaited);
    PrefixUpToQuote(Text(awaited), x, t);
    if Text(awaited) <= x {
      DropUpTo(x, t, |Text(awaited)|);
      AfterUpToQuote(x[|Text(awaited)|..], t);
    }
  }

  lemma ParseStateUpToQuote(x: string, t: string)
    requires t != "" && t[0] == '"'
    ensures ParseState(x + t) == ParseState(x)
  {
    StateUpToQuote(x, t, WithinViewport);
    StateUpToQuote(x, t, Displayed);
    StateUpToQuote(x, t, Clickable);
    StateUpToQuote(x, t, Enabled);
    StateUpToQuote(x, t, Existing);
  }

  /** A tail that starts before the next quote ends before it. */
  lemma TailUpToQuote(x: string, t: string)
    requires x != "" && t != "" && t[0] == '"'
    ensures ParseTail(x + t) == ParseTail(x)
  {
    var close := CLOSE[1..];
    PrefixUpToQuote(close, x[1..], t);
    assert (x + t)[0] == x[0] && (x + t)[1..] == x[1..] + t;
    assert CLOSE == [CLOSE[0]] + close;
    assert CLOSE <= x + t <==> CLOSE[0] == x[0] && close <= x[1..] + t;
    assert CLOSE <= x <==> CLOSE[0] == x[0] && close <= x[1..];
    if CLOSE <= x {
      DropUpTo(x, t, |CLOSE|);
      ParseStateUpToQuote(x[|CLOSE|..], t);
    }
  }

  /** The tail of a reverse wait is no tail, from none of its characters on. */
  lemma NoReverseTail(t: string, awaited: Awaited, timeout: nat, i: nat)
    requires t == Tail(CLOSE_REVERSE, awaited, timeout) && i <= |t|
    ensures ParseTail(t[i..]).None?
  {
    TailIsPlain(CLOSE_REVERSE, awaited, timeout, t);
    if i == 0 {
      assert t[i..] == t && t[9] == Text(awaited)[0];
      assert CLOSE[9] == 'n';
    } else {
      NoTailAt(t, i);
    }
  }

  /** Where the tail of a message with a reverse wait can be: inside the selector. */
  lemma TailInSelector(selector: string, t: string, awaited: Awaited, timeout: nat, i: nat)
    requires t == Tail(CLOSE_REVERSE, awaited, timeout) && i <= |selector + t|
    ensures ParseTail((selector + t)[i..]) == if i < |selector| then ParseTail(selector[i..]) else None
  {
    if i < |selector| {
      DropUpTo(selector, t, i);
      assert t[0] == '"';
      TailUpToQuote(selector[i..], t);
    } else {
      assert (selector + t)[i..] == t[i - |selector|..];
      NoReverseTail(t, awaited, timeout, i - |selector|);
    }
  }

  /** A second head does not overlap the message's own. */
  lemma HeadStandsAlone(m: string, b: nat)
    requires 0 < b < |HEAD| && b <= |HEAD + m|
    ensures !(HEAD <= (HEAD + m)[b..])
  {
    var s := HEAD + m;
    var x := s[b..];
    assert HEAD == "element (\"";
    assert |x| >= |HEAD| ==> x[0] == s[b] && x[1] == s[b + 1];
    assert s[b] == HEAD[b] && (b + 1 < |HEAD| ==> s[b + 1] == HEAD[b + 1]);
  }

  /** A match in the message is a quotation in the selector. */
  lemma MatchIsQuotation(tail: string -> Option<Awaited>, selector: string, t: string, s: string, b: nat, i: nat)
    requires s == HEAD + (selector + t) && b < i <= |selector + t|
    requires tail((selector + t)[i..]) == if i < |selector| then tail(selector[i..]) else None
    ensures MatchAt(tail, s, b, i + |HEAD|) <==> Quotes(tail, selector, b, i)
  {
    assert s[i + |HEAD|..] == (selector + t)[i..];
    if i < |selector| {
      assert s[b + |HEAD|..i + |HEAD|] == selector[b..i];
      HeadAt(selector, t, s, b);
    }
  }

  lemma HeadAt(selector: string, t: string, s: string, b: nat)
    requires s == HEAD + (selector + t) && b < |selector|
    ensures HEAD <= s[b..] <==> b == 0 || (b >= |HEAD| && selector[b - |HEAD|..b] == HEAD)
  {
    if 0 < b < |HEAD| {
      HeadStandsAlone(selector + t, b);
    } else if b >= |HEAD| {
      assert s[b..][..|HEAD|] == selector[b - |HEAD|..b];
    }
  }

  /**
   * Reverse waits, whose verdict would come out inverted, are unmatched except
   * exactly when the selector itself quotes a wait.
   */
  lemma ReverseIsUnmatched(selector: string, awaited: Awaited, timeout: nat)
    ensures ParseWaitFailure(RenderReverse(selector, awaited, timeout)).None?
       <==> !exists k, i :: Quotes(ParseTail, selector, k, i)
  {
    var t := Tail(CLOSE_REVERSE, awaited, timeout);
    forall i | 0 <= i <= |selector + t|
      ensures ParseTail((selector + t)[i..]) == if i < |selector| then ParseTail(selector[i..]) else None
    {
      TailInSelector(selector, t, awaited, timeout, i);
    }
    MatchesAreQuotations(ParseTail, selector, t, RenderReverse(selector, awaited, timeout));
    ParseFinds(ParseTail, RenderReverse(selector, awaited, timeout));
  }

  lemma MatchesAreQuotations(tail: string -> Option<Awaited>, selector: string, t: string, s: string)
    requires s == HEAD + (selector + t)
    requires forall i :: 0 <= i <= |selector + t| ==>
      tail((selector + t)[i..]) == if i < |selector| then tail(selector[i..]) else None
    ensures (exists b: nat, e: nat :: MatchAt(tail, s, b, e)) <==> exists k, i :: Quotes(tail, selector, k, i)
  {
    forall b: nat, e: nat | MatchAt(tail, s, b, e)
      ensures Quotes(tail, selector, b, e - |HEAD|)
    {
      MatchIsQuotation(tail, selector, t, s, b, e - |HEAD|);
    }
    forall k: nat, i: nat | Quotes(tail, selector, k, i)
      ensures MatchAt(tail, s, k, i + |HEAD|)
    {
      MatchIsQuotation(tail, selector, t, s, k, i);
    }
  }

  /** On one line that is: when a tail stands in the selector, anywhere but at its start. */
  lemma ReverseOnOneLine(selector: string, awaited: Awaited, timeout: nat)
    requires OneLine(selector)
    ensures ParseWaitFailure(RenderReverse(selector, awaited, timeout)).Some?
       <==> exists i :: 0 < i <= |selector| && ParseTail(selector[i..]).Some?
  {
    ReverseIsUnmatched(selector, awaited, timeout);
    NoTailAt(selector, |selector|);
    QuotesOnOneLine(ParseTail, selector);
  }

  lemma QuotesOnOneLine(tail: string -> Option<Awaited>, selector: string)
    requires OneLine(selector) && tail(selector[|selector|..]).None?
    ensures (exists k, i :: Quotes(tail, selector, k, i)) <==> exists i :: 0 < i <= |selector| && tail(selector[i..]).Some?
  {
    forall i | 0 < i <= |selector| && tail(selector[i..]).Some?
      ensures Quotes(tail, selector, 0, i)
    {
    }
  }

  lemma NoTailInside(t: string, reversed: string, awaited: Awaited, timeout: nat, i: nat)
    requires reversed == Tail(CLOSE_REVERSE, awaited, timeout) && 0 < i <= |t + reversed|
    requires forall k :: 0 < k < |t| ==> t[k] != '"'
    ensures ParseTail((t + reversed)[i..]).None?
  {
    TailInSelector(t, reversed, awaited, timeout, i);
    if i < |t| { NoTailAt(t, i); }
  }

  /**
   * It does happen: a reverse wait on a selector that quotes a wait is taken for
   * that wait, with the opposite meaning.
   */
  lemma ReverseIsInverted(selector: string, awaited: Awaited, quoted: nat, opposite: Awaited, timeout: nat)
    requires selector != "" && OneLine(selector)
    ensures ParseWaitFailure(RenderReverse(selector + Tail(CLOSE, awaited, quoted), opposite, timeout))
         == Some(WaitFailure(selector, awaited))
  {
    var t, reversed := Tail(CLOSE, awaited, quoted), Tail(CLOSE_REVERSE, opposite, timeout);
    TailIsPlain(CLOSE, awaited, quoted, t);
    TailIsPlain(CLOSE_REVERSE, opposite, timeout, reversed);
    TailParses(awaited, quoted);
    assert reversed[0] == '"';
    TailUpToQuote(t, reversed);
    Assoc(selector, t, reversed);
    forall i | 0 < i <= |t + reversed|
      ensures ParseTail((t + reversed)[i..]).None?
    {
      NoTailInside(t, reversed, opposite, timeout, i);
    }
    LastTailWins(ParseTail, selector, t + reversed, awaited, RenderReverse(selector + t, opposite, timeout));
  }
}
