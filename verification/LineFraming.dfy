/**
 * Newline framing of the MCP socket: the drain loop of the `data` handler, run
 * once per chunk, against the stream the chunks are cut from.
 */
module LineFraming {
  import opened Basics
  import opened Settlement

  /** Index of the first newline, or -1. */
  function NewlineIn(s: string): (i: int)
    ensures -1 <= i < |s|
    ensures i == -1 ==> '\n' !in s
    ensures i >= 0 ==> s[i] == '\n' && '\n' !in s[..i]
  {
    if s == "" then -1
    else if s[0] == '\n' then 0
    else
      var i := NewlineIn(s[1..]);
      assert i >= 0 ==> s[..i + 1] == [s[0]] + s[1..][..i];
      if i < 0 then -1 else i + 1
  }

  lemma {:induction false} FirstNewline(line: string, rest: string)
    requires '\n' !in line
    ensures NewlineIn(line + "\n" + rest) == |line|
  {
    var s := line + "\n" + rest;
    if line != "" {
      assert line[0] in line;
      FirstNewline(line[1..], rest);
      assert s[1..] == line[1..] + "\n" + rest;
    }
  }

  /** Lines taken off the front of a buffer, and the buffer left. */
  datatype Drained = Drained(lines: seq<string>, rest: string)

  /**
   * One run of the loop. `JSON.parse` throws on a malformed line before the
   * buffer moves past it; reading `id` of a parsed `null` throws after. Either
   * ends the event.
   */
  function Drain(decode: string -> Decoded, buffer: string): (d: Drained)
    decreases |buffer|
  {
    var i := NewlineIn(buffer);
    if i < 0 || decode(buffer[..i]).Malformed? then Drained([], buffer)
    else if decode(buffer[..i]).Null? then Drained([buffer[..i]], buffer[i + 1..])
    else
      var next := Drain(decode, buffer[i + 1..]);
      Drained([buffer[..i]] + next.lines, next.rest)
  }

  /** The chunks of a stream, one `data` event each. */
  function Feed(decode: string -> Decoded, buffer: string, chunks: seq<string>): (d: Drained)
    decreases |chunks|
  {
    if chunks == [] then Drained([], buffer)
    else
      var first := Drain(decode, buffer + chunks[0]);
      var next := Feed(decode, first.rest, chunks[1..]);
      Drained(first.lines + next.lines, next.rest)
  }

  /** The lines of a stream up to the first malformed one, read without events. */
  function Lines(decode: string -> Decoded, stream: string): (d: Drained)
    decreases |stream|
  {
    var i := NewlineIn(stream);
    if i < 0 || decode(stream[..i]).Malformed? then Drained([], stream)
    else
      var next := Lines(decode, stream[i + 1..]);
      Drained([stream[..i]] + next.lines, next.rest)
  }

  /** Lines with their newlines. */
  function Unlines(lines: seq<string>): (s: string) {
    if lines == [] then "" else lines[0] + "\n" + Unlines(lines[1..])
  }

  lemma {:induction false} UnlinesAppend(a: seq<string>, b: seq<string>)
    ensures Unlines(a + b) == Unlines(a) + Unlines(b)
  {
    if a == [] {
      assert a + b == b;
    } else {
      UnlinesAppend(a[1..], b);
      assert (a + b)[1..] == a[1..] + b;
    }
  }

  // -------------------------------------------------------- conservation ---

  lemma {:induction false} DrainConserves(decode: string -> Decoded, buffer: string)
    ensures var d := Drain(decode, buffer); Unlines(d.lines) + d.rest == buffer
    decreases |buffer|
  {
    var i := NewlineIn(buffer);
    if i >= 0 && !decode(buffer[..i]).Malformed? {
      assert buffer == buffer[..i] + "\n" + buffer[i + 1..];
      if decode(buffer[..i]).Null? {
        assert Unlines([buffer[..i]]) == buffer[..i] + "\n";
      } else {
        DrainConserves(decode, buffer[i + 1..]);
        var next := Drain(decode, buffer[i + 1..]);
        assert ([buffer[..i]] + next.lines)[1..] == next.lines;
      }
    }
  }

  /** Nothing is lost or added, however the stream is cut: the lines taken and the buffer make up the input so far. */
  lemma {:induction false} FeedConserves(decode: string -> Decoded, buffer: string, chunks: seq<string>)
    ensures var d := Feed(decode, buffer, chunks); Unlines(d.lines) + d.rest == buffer + Concat(chunks)
    decreases |chunks|
  {
    if chunks != [] {
      var first := Drain(decode, buffer + chunks[0]);
      DrainConserves(decode, buffer + chunks[0]);
      FeedConserves(decode, first.rest, chunks[1..]);
      var next := Feed(decode, first.rest, chunks[1..]);
      UnlinesAppend(first.lines, next.lines);
      Regroup(Unlines(first.lines), Unlines(next.lines), next.rest, first.rest, Concat(chunks[1..]), buffer, chunks[0]);
    }
  }

  lemma Regroup(a: string, b: string, c: string, d: string, e: string, f: string, g: string)
    requires b + c == d + e && a + d == f + g
    ensures (a + b) + c == f + (g + e)
  {
    Assoc(a, b, c);
    Assoc(a, d, e);
    Assoc(f, g, e);
  }

  /** Two stretches of chunks, one after the other. */
  lemma {:induction false} FeedAppend(decode: string -> Decoded, buffer: string, a: seq<string>, b: seq<string>)
    ensures var first := Feed(decode, buffer, a);
            var next := Feed(decode, first.rest, b);
            Feed(decode, buffer, a + b) == Drained(first.lines + next.lines, next.rest)
    decreases |a|
  {
    var first := Feed(decode, buffer, a);
    var next := Feed(decode, first.rest, b);
    if a == [] {
      assert a + b == b && [] + next.lines == next.lines;
    } else {
      var d := Drain(decode, buffer + a[0]);
      FeedAppend(decode, d.rest, a[1..], b);
      assert (a + b)[0] == a[0] && (a + b)[1..] == a[1..] + b;
      Assoc(d.lines, Feed(decode, d.rest, a[1..]).lines, next.lines);
    }
  }

  // ------------------------------------------------------- what one event reads ---

  /** Complete lines, and what follows the last newline. */
  ghost predicate IsCut(lines: seq<string>, tail: string) {
    '\n' !in tail && forall line <- lines :: '\n' !in line
  }

  lemma {:induction false} CutOf(buffer: string) returns (lines: seq<string>, tail: string)
    ensures IsCut(lines, tail) && buffer == Unlines(lines) + tail
    decreases |buffer|
  {
    var i := NewlineIn(buffer);
    if i < 0 {
      lines, tail := [], buffer;
    } else {
      var rest;
      rest, tail := CutOf(buffer[i + 1..]);
      lines := [buffer[..i]] + rest;
      assert lines[1..] == rest;
      assert buffer == buffer[..i] + "\n" + buffer[i + 1..];
    }
  }

  lemma DrainTakesOne(decode: string -> Decoded, line: string, rest: string, next: Drained)
    requires '\n' !in line && next == Drain(decode, rest)
    ensures Drain(decode, line + "\n" + rest)
            == match decode(line) {
                 case Malformed => Drained([], line + "\n" + rest)
                 case Null => Drained([line], rest)
                 case Message(_, _) => Drained([line] + next.lines, next.rest)
               }
  {
    var s := line + "\n" + rest;
    FirstNewline(line, rest);
    assert s[..|line|] == line && s[|line| + 1..] == rest;
  }

  /** Lines that are messages are read, whatever follows. */
  lemma {:induction false} MessagesAreRead(decode: string -> Decoded, messages: seq<string>, rest: string, next: Drained)
    requires forall line <- messages :: '\n' !in line && decode(line).Message?
    requires next == Drain(decode, rest)
    ensures Drain(decode, Unlines(messages) + rest) == Drained(messages + next.lines, next.rest)
    decreases |messages|
  {
    if messages == [] {
      assert Unlines(messages) + rest == rest && messages + next.lines == next.lines;
    } else {
      var line, more := messages[0], messages[1..];
      assert line in messages;
      MessagesAreRead(decode, more, rest, next);
      DrainTakesOne(decode, line, Unlines(more) + rest, Drained(more + next.lines, next.rest));
      Assoc(line + "\n", Unlines(more), rest);
      assert messages == [line] + more;
      Assoc([line], more, next.lines);
    }
  }

  /** Where reading stops, at a line that is no message or behind the last one. */
  lemma StopsThere(decode: string -> Decoded, lines: seq<string>, tail: string)
    requires IsCut(lines, tail) && (lines == [] || !decode(lines[0]).Message?)
    ensures Drain(decode, Unlines(lines) + tail)
         == if lines != [] && decode(lines[0]).Null? then Drained([lines[0]], Unlines(lines[1..]) + tail)
            else Drained([], Unlines(lines) + tail)
  {
    if lines != [] {
      var rest := Unlines(lines[1..]) + tail;
      assert lines[0] in lines;
      Assoc(lines[0] + "\n", Unlines(lines[1..]), tail);
      DrainTakesOne(decode, lines[0], rest, Drain(decode, rest));
    } else {
      assert Unlines(lines) + tail == tail;
    }
  }

  /**
   * What one event reads, told from the lines: all of them, if they all are
   * messages; otherwise those before the first that is none, and that one too if
   * it is `null`. A malformed line stays at the front of the buffer.
   */
  lemma DrainIs(decode: string -> Decoded, messages: seq<string>, lines: seq<string>, tail: string)
    requires IsCut(messages + lines, tail) && forall line <- messages :: decode(line).Message?
    requires lines == [] || !decode(lines[0]).Message?
    ensures Drain(decode, Unlines(messages + lines) + tail)
         == if lines != [] && decode(lines[0]).Null? then Drained(messages + [lines[0]], Unlines(lines[1..]) + tail)
            else Drained(messages, Unlines(lines) + tail)
  {
    assert forall line <- messages :: line in messages + lines;
    assert forall line <- lines :: line in messages + lines;
    StopsThere(decode, lines, tail);
    MessagesAreRead(decode, messages, Unlines(lines) + tail, Drain(decode, Unlines(lines) + tail));
    UnlinesAppend(messages, lines);
    Assoc(Unlines(messages), Unlines(lines), tail);
    assert messages + [] == messages;
  }

  // -------------------------------------------------- chunk independence ---

  /** No line but the last parses to `null`. */
  ghost predicate NullOnlyLast(decode: string -> Decoded, lines: seq<string>) {
    forall k :: 0 <= k < |lines| - 1 ==> !decode(lines[k]).Null?
  }

  /** Between events the buffer's first line is incomplete or malformed. */
  ghost predicate Quiet(decode: string -> Decoded, buffer: string) {
    Lines(decode, buffer) == Drained([], buffer)
  }

  lemma LinesTakeOne(decode: string -> Decoded, line: string, tail: string)
    requires '\n' !in line
    ensures var next := Lines(decode, tail);
            Lines(decode, line + "\n" + tail)
            == if decode(line).Malformed? then Drained([], line + "\n" + tail)
               else Drained([line] + next.lines, next.rest)
  {
    var s := line + "\n" + tail;
    FirstNewline(line, tail);
    assert s[..|line|] == line && s[|line| + 1..] == tail;
  }

  lemma SplitLine(a: string, i: nat, b: string)
    requires i < |a| && a[i] == '\n'
    ensures a + b == a[..i] + "\n" + (a[i + 1..] + b)
  {
  }

  /** Reading a stream in two parts. */
  lemma {:induction false} LinesInParts(decode: string -> Decoded, a: string, b: string, first: Drained, next: Drained)
    requires first == Lines(decode, a) && next == Lines(decode, first.rest + b)
    ensures Lines(decode, a + b) == Drained(first.lines + next.lines, next.rest)
    decreases |a|
  {
    var i := NewlineIn(a);
    if i >= 0 && !decode(a[..i]).Malformed? {
      var line, tail := a[..i], a[i + 1..];
      LinesInParts(decode, tail, b, Lines(decode, tail), next);
      SplitLine(a, i, b);
      LinesTakeOne(decode, line, tail + b);
      Assoc([line], Lines(decode, tail).lines, next.lines);
    }
  }

  lemma {:induction false} RestIsQuiet(decode: string -> Decoded, s: string)
    ensures Quiet(decode, Lines(decode, s).rest)
    decreases |s|
  {
    var i := NewlineIn(s);
    if i >= 0 && !decode(s[..i]).Malformed? {
      RestIsQuiet(decode, s[i + 1..]);
    }
  }

  /** After an event that read no `null`, too. */
  lemma {:induction false} DrainedIsQuiet(decode: string -> Decoded, s: string)
    requires forall line <- Drain(decode, s).lines :: !decode(line).Null?
    ensures Quiet(decode, Drain(decode, s).rest)
    decreases |s|
  {
    var i := NewlineIn(s);
    if i >= 0 && !decode(s[..i]).Malformed? {
      var d, next := Drain(decode, s), Drain(decode, s[i + 1..]);
      assert d.lines[0] == s[..i] && d.lines[0] in d.lines;
      assert d.lines == [s[..i]] + next.lines;
      DrainedIsQuiet(decode, s[i + 1..]);
    }
  }

  /** One event reads all there is to read, unless a `null` stops it short. */
  lemma {:induction false} DrainReadsLines(decode: string -> Decoded, s: string)
    requires NullOnlyLast(decode, Lines(decode, s).lines)
    ensures Drain(decode, s) == Lines(decode, s)
    decreases |s|
  {
    var i := NewlineIn(s);
    if i >= 0 && !decode(s[..i]).Malformed? {
      var next := Lines(decode, s[i + 1..]);
      var lines := [s[..i]] + next.lines;
      assert Lines(decode, s).lines == lines;
      if decode(s[..i]).Null? {
        assert decode(lines[0]).Null?;
        assert next.lines == [];
        RestIsQuiet(decode, s[i + 1..]);
        assert next.rest == s[i + 1..] by { DrainNothing(decode, s[i + 1..]); }
      } else {
        forall k | 0 <= k < |next.lines| - 1
          ensures !decode(next.lines[k]).Null?
        {
          assert lines[k + 1] == next.lines[k];
        }
        DrainReadsLines(decode, s[i + 1..]);
      }
    }
  }

  lemma DrainNothing(decode: string -> Decoded, s: string)
    requires Lines(decode, s).lines == []
    ensures Lines(decode, s).rest == s
  {
  }

  /** A `null` that is not last does stop an event short. */
  lemma {:induction false} DrainStopsAtNull(decode: string -> Decoded, s: string)
    requires !NullOnlyLast(decode, Lines(decode, s).lines)
    ensures |Drain(decode, s).lines| < |Lines(decode, s).lines|
    decreases |s|
  {
    var i := NewlineIn(s);
    var next := Lines(decode, s[i + 1..]);
    var lines := [s[..i]] + next.lines;
    assert Lines(decode, s).lines == lines;
    if !decode(s[..i]).Null? {
      var k :| 0 <= k < |lines| - 1 && decode(lines[k]).Null?;
      assert lines[k] == next.lines[k - 1];
      DrainStopsAtNull(decode, s[i + 1..]);
    }
  }

  /** Cut anywhere, the stream is read as a whole, when no `null` line comes before the last line read. */
  lemma {:induction false} FeedReadsLines(decode: string -> Decoded, buffer: string, chunks: seq<string>)
    requires Quiet(decode, buffer)
    requires NullOnlyLast(decode, Lines(decode, buffer + Concat(chunks)).lines)
    ensures Feed(decode, buffer, chunks) == Lines(decode, buffer + Concat(chunks))
    decreases |chunks|
  {
    if chunks == [] {
      assert buffer + Concat(chunks) == buffer;
    } else {
      var s, tail := buffer + chunks[0], Concat(chunks[1..]);
      var first := Lines(decode, s);
      var next := Lines(decode, first.rest + tail);
      LinesInParts(decode, s, tail, first, next);
      Assoc(buffer, chunks[0], tail);
      NullInParts(decode, first.lines, next.lines);
      DrainReadsLines(decode, s);
      RestIsQuiet(decode, s);
      FeedReadsLines(decode, first.rest, chunks[1..]);
    }
  }

  lemma NullInParts(decode: string -> Decoded, a: seq<string>, b: seq<string>)
    requires NullOnlyLast(decode, a + b)
    ensures NullOnlyLast(decode, a) && NullOnlyLast(decode, b)
  {
    var lines := a + b;
    assert forall k :: 0 <= k < |a| ==> lines[k] == a[k];
    forall k | 0 <= k < |b| - 1
      ensures !decode(b[k]).Null?
    {
      assert lines[|a| + k] == b[k];
    }
  }

  /** The finest cut: a chunk per character. */
  function Characters(s: string): (chunks: seq<string>)
    ensures Concat(chunks) == s
  {
    if s == "" then [] else [[s[0]]] + Characters(s[1..])
  }

  /** One character completes at most one line. */
  lemma OneMoreCharacter(decode: string -> Decoded, buffer: string, c: char)
    requires Quiet(decode, buffer)
    ensures |Lines(decode, buffer + [c]).lines| <= 1
  {
    var s := buffer + [c];
    var i := NewlineIn(buffer);
    if i >= 0 {
      assert s == buffer[..i] + "\n" + (buffer[i + 1..] + [c]);
      LinesTakeOne(decode, buffer[..i], buffer[i + 1..] + [c]);
    } else if c == '\n' {
      assert s == buffer + "\n" + "";
      LinesTakeOne(decode, buffer, "");
    }
  }

  lemma {:induction false} FeedCharacters(decode: string -> Decoded, buffer: string, s: string)
    requires Quiet(decode, buffer)
    ensures Feed(decode, buffer, Characters(s)) == Lines(decode, buffer + s)
    decreases |s|
  {
    if s == "" {
      assert buffer + s == buffer;
    } else {
      var first := buffer + [s[0]];
      OneMoreCharacter(decode, buffer, s[0]);
      DrainReadsLines(decode, first);
      RestIsQuiet(decode, first);
      var d := Lines(decode, first);
      FeedCharacters(decode, d.rest, s[1..]);
      LinesInParts(decode, first, s[1..], d, Lines(decode, d.rest + s[1..]));
      MoveHead(buffer, s);
    }
  }

  /**
   * Framing does not depend on where the stream is cut, with its exact
   * condition: all cuts give the same lines and the same buffer if and only if
   * no line parses to `null` before the last line read. Malformed lines do no
   * harm to that: every cut stops in front of the first one.
   */
  lemma CutsAgree(decode: string -> Decoded, stream: string)
    ensures (forall a, b | Concat(a) == stream && Concat(b) == stream :: Feed(decode, "", a) == Feed(decode, "", b))
       <==> NullOnlyLast(decode, Lines(decode, stream).lines)
  {
    if NullOnlyLast(decode, Lines(decode, stream).lines) {
      forall a, b | Concat(a) == stream && Concat(b) == stream
        ensures Feed(decode, "", a) == Feed(decode, "", b)
      {
        assert "" + stream == stream;
        FeedReadsLines(decode, "", a);
        FeedReadsLines(decode, "", b);
      }
    } else {
      var whole, fine := [stream], Characters(stream);
      DrainStopsAtNull(decode, stream);
      FeedCharacters(decode, "", stream);
      assert "" + stream == stream;
      assert Concat(whole) == stream + Concat(whole[1..]);
      assert Feed(decode, "", whole).lines == Drain(decode, stream).lines + [];
      assert Feed(decode, "", whole) != Feed(decode, "", fine);
    }
  }

  /** A stream without `null` lines is read the same however it is cut, and its buffer then holds a newline only behind a malformed line. */
  lemma CutsAgreeWithoutNull(decode: string -> Decoded, chunks: seq<string>)
    requires forall line <- Lines(decode, Concat(chunks)).lines :: !decode(line).Null?
    ensures var d := Feed(decode, "", chunks);
            && d == Lines(decode, Concat(chunks))
            && ('\n' in d.rest <==> NewlineIn(d.rest) >= 0 && decode(d.rest[..NewlineIn(d.rest)]).Malformed?)
  {
    assert "" + Concat(chunks) == Concat(chunks);
    FeedReadsLines(decode, "", chunks);
    RestIsQuiet(decode, Concat(chunks));
  }
}
