/**
 * The editor positions of a place in the text. A document is its tokens in a
 * row, and a position counts the tokens in front of it; both editors' documents
 * are runs of nodes that hold one text each between other tokens.
 */
module Positions {
  import opened Basics

  datatype Token = Open | Close | Char(c: char)

  /** `lead` tokens, the text, `trail` tokens. */
  datatype Node = Node(lead: seq<Token>, text: string, trail: seq<Token>)

  /** A line of the source buffer. */
  function LineNode(text: string): (n: Node) { Node([Open], text, [Close]) }

  /** A page-mode block: its first content node holds the text, `rest` are the tokens of the others. */
  function BlockNode(text: string, rest: seq<Token>): (n: Node) {
    Node([Open, Open], text, [Close] + rest + [Close])
  }

  function Chars(text: string): (t: seq<Token>) {
    seq(|text|, i requires 0 <= i < |text| => Char(text[i]))
  }

  function NodeTokens(n: Node): (t: seq<Token>) { n.lead + Chars(n.text) + n.trail }

  /** `nodeSize`. */
  function NodeSize(n: Node): (size: nat) { |n.lead| + |n.text| + |n.trail| }

  function Tokens(doc: seq<Node>): (t: seq<Token>) {
    if doc == [] then [] else NodeTokens(doc[0]) + Tokens(doc[1..])
  }

  /** Where node `i` starts. */
  function Start(doc: seq<Node>, i: nat): (pos: nat)
    requires i <= |doc|
  {
    if i == 0 then 0 else Start(doc, i - 1) + NodeSize(doc[i - 1])
  }

  /** The position `offset` characters into the text of node `i`. */
  function Place(doc: seq<Node>, i: nat, offset: nat): (pos: nat)
    requires i < |doc|
  {
    Start(doc, i) + |doc[i].lead| + offset
  }

  function LineNodes(lines: seq<string>): (doc: seq<Node>) {
    seq(|lines|, i requires 0 <= i < |lines| => LineNode(lines[i]))
  }

  /** `at({ line, offset })` of the source buffer. */
  method SourceAt(lines: seq<string>, line: nat, offset: nat) returns (pos: nat)
    requires line < |lines|
    ensures pos == Place(LineNodes(lines), line, offset)
  {
    var doc := LineNodes(lines);
    pos := 1;
    for i := 0 to line
      invariant pos == 1 + Start(doc, i)
    {
      pos := pos + NodeSize(doc[i]);
    }
    pos := pos + offset;
  }

  /** The position `pageModeCaret` selects; `None` asks for the end of the text. */
  method PageModeCaret(doc: seq<Node>, index: nat, into: Option<nat>) returns (caret: nat)
    requires index < |doc| && forall n <- doc :: |n.lead| == 2
    ensures caret == Place(doc, index, if into.Some? then into.value else |doc[index].text|)
  {
    var pos := 0;
    for i := 0 to index
      invariant pos == Start(doc, i)
    {
      pos := pos + NodeSize(doc[i]);
    }
    var length := |doc[index].text|;
    assert doc[index] in doc;
    return pos + 2 + match into case None => length case Some(offset) => offset;
  }

  // ----------------------------------------------------------- properties ---

  /** Every text stands between tokens of its own node. */
  ghost predicate Framed(doc: seq<Node>) {
    forall n <- doc :: n.lead != [] && n.trail != []
  }

  lemma {:induction false} StartIsCount(doc: seq<Node>, i: nat)
    requires i <= |doc|
    ensures Start(doc, i) == |Tokens(doc[..i])|
  {
    if i > 0 {
      StartIsCount(doc, i - 1);
      assert doc[..i] == doc[..i - 1] + [doc[i - 1]];
      TokensAppend(doc[..i - 1], [doc[i - 1]]);
      assert Tokens([doc[i - 1]]) == NodeTokens(doc[i - 1]) + Tokens([doc[i - 1]][1..]);
    }
  }

  lemma {:induction false} TokensAppend(a: seq<Node>, b: seq<Node>)
    ensures Tokens(a + b) == Tokens(a) + Tokens(b)
  {
    if a == [] {
      assert a + b == b;
    } else {
      TokensAppend(a[1..], b);
      assert (a + b)[0] == a[0] && (a + b)[1..] == a[1..] + b;
      Assoc(NodeTokens(a[0]), Tokens(a[1..]), Tokens(b));
    }
  }

  /** The places of a text are where its characters are in the document. */
  lemma PlaceHoldsText(doc: seq<Node>, i: nat)
    requires i < |doc|
    ensures Place(doc, i, |doc[i].text|) <= |Tokens(doc)|
    ensures Tokens(doc)[Place(doc, i, 0)..Place(doc, i, |doc[i].text|)] == Chars(doc[i].text)
  {
    var before, n, after := doc[..i], doc[i], doc[i + 1..];
    TokensAround(doc, i);
    StartIsCount(doc, i);
    Middle(Tokens(before), n.lead, Chars(n.text), n.trail, Tokens(after));
  }

  lemma TokensAround(doc: seq<Node>, i: nat)
    requires i < |doc|
    ensures Tokens(doc) == Tokens(doc[..i]) + (NodeTokens(doc[i]) + Tokens(doc[i + 1..]))
  {
    var before, from := doc[..i], doc[i..];
    assert doc == before + from;
    TokensAppend(before, from);
    assert from[0] == doc[i] && from[1..] == doc[i + 1..];
  }

  lemma Middle<T>(a: seq<T>, b: seq<T>, c: seq<T>, d: seq<T>, e: seq<T>)
    ensures (a + (b + c + d + e))[|a| + |b|..|a| + |b| + |c|] == c
  {
  }

  lemma {:induction false} StartsGrow(doc: seq<Node>, i: nat, j: nat)
    requires i < j <= |doc|
    ensures Start(doc, i) + NodeSize(doc[i]) <= Start(doc, j)
    decreases j
  {
    if i < j - 1 { StartsGrow(doc, i, j - 1); }
  }

  /** Order: an earlier place, by node and then by offset, has the smaller position. */
  lemma PlacesInOrder(doc: seq<Node>, i: nat, o: nat, j: nat, q: nat)
    requires Framed(doc) && i < |doc| && j < |doc| && o <= |doc[i].text| && q <= |doc[j].text|
    ensures Place(doc, i, o) < Place(doc, j, q) <==> i < j || (i == j && o < q)
  {
    assert doc[i] in doc && doc[j] in doc;
    if i < j { StartsGrow(doc, i, j); }
    if j < i { StartsGrow(doc, j, i); }
  }

  /** The text a position is in, looked for from node `i` on. */
  function Resolve(doc: seq<Node>, pos: nat, i: nat): (spot: Option<(nat, nat)>)
    requires i <= |doc|
    decreases |doc| - i
  {
    if i == |doc| then None
    else if Place(doc, i, 0) <= pos <= Place(doc, i, |doc[i].text|) then Some((i, pos - Place(doc, i, 0)))
    else Resolve(doc, pos, i + 1)
  }

  /** What is resolved is a place within a text. */
  lemma {:induction false} ResolvedIsPlace(doc: seq<Node>, pos: nat, from: nat)
    requires from <= |doc| && Resolve(doc, pos, from).Some?
    ensures var (i, o) := Resolve(doc, pos, from).value;
            from <= i < |doc| && o <= |doc[i].text| && Place(doc, i, o) == pos
    decreases |doc| - from
  {
    if !(Place(doc, from, 0) <= pos <= Place(doc, from, |doc[from].text|)) {
      ResolvedIsPlace(doc, pos, from + 1);
    }
  }

  lemma {:induction false} PlaceIsResolved(doc: seq<Node>, from: nat, i: nat, o: nat)
    requires Framed(doc) && from <= i < |doc| && o <= |doc[i].text|
    ensures Resolve(doc, Place(doc, i, o), from) == Some((i, o))
    decreases i - from
  {
    if from < i {
      PlacesInOrder(doc, from, |doc[from].text|, i, o);
      PlaceIsResolved(doc, from + 1, i, o);
    }
  }

  /**
   * Resolving undoes placing. The pair comes back exactly when the offset is
   * within the text: the source does not check it, and a larger one points past
   * its own text.
   */
  lemma ResolveUndoesPlace(doc: seq<Node>, i: nat, o: nat)
    requires Framed(doc) && i < |doc|
    ensures Resolve(doc, Place(doc, i, o), 0) == Some((i, o)) <==> o <= |doc[i].text|
  {
    if o <= |doc[i].text| {
      PlaceIsResolved(doc, 0, i, o);
    } else if Resolve(doc, Place(doc, i, o), 0).Some? {
      ResolvedIsPlace(doc, Place(doc, i, o), 0);
    }
  }

  function TotalLength(lines: seq<string>): (n: nat) {
    if lines == [] then 0 else TotalLength(lines[..|lines| - 1]) + |lines[|lines| - 1]|
  }

  /** In the source buffer every line costs two tokens besides its text. */
  lemma {:induction false} SourcePlaceIs(lines: seq<string>, line: nat, offset: nat)
    requires line < |lines|
    ensures Place(LineNodes(lines), line, offset) == TotalLength(lines[..line]) + 2 * line + 1 + offset
    decreases line
  {
    if line > 0 {
      SourcePlaceIs(lines, line - 1, offset);
      assert lines[..line][..line - 1] == lines[..line - 1];
    }
  }

  /** How many nodes are open after the tokens. */
  function Nesting(t: seq<Token>): (n: int) {
    if t == [] then 0
    else Nesting(t[..|t| - 1]) + match t[|t| - 1] case Open => 1 case Close => 0 - 1 case Char(_) => 0
  }

  lemma {:induction false} NestingAppend(a: seq<Token>, b: seq<Token>)
    ensures Nesting(a + b) == Nesting(a) + Nesting(b)
    decreases |b|
  {
    if b == [] {
      assert a + b == a;
    } else {
      NestingAppend(a, b[..|b| - 1]);
      assert (a + b)[..|a + b| - 1] == a + b[..|b| - 1];
    }
  }

  lemma {:induction false} TextIsFlat(text: string)
    ensures Nesting(Chars(text)) == 0
  {
    if text != "" {
      TextIsFlat(text[..|text| - 1]);
      assert Chars(text)[..|text| - 1] == Chars(text[..|text| - 1]);
    }
  }

  lemma {:induction false} NodesClose(doc: seq<Node>)
    requires forall n <- doc :: Nesting(NodeTokens(n)) == 0
    ensures Nesting(Tokens(doc)) == 0
  {
    if doc != [] {
      NodesClose(doc[1..]);
      NestingAppend(NodeTokens(doc[0]), Tokens(doc[1..]));
    }
  }

  /** Every place is at the nesting of its node's text, if each node closes what it opens. */
  lemma PlaceIsNested(doc: seq<Node>, i: nat, o: nat)
    requires i < |doc| && o <= |doc[i].text| && forall n <- doc :: Nesting(NodeTokens(n)) == 0
    ensures Place(doc, i, o) <= |Tokens(doc)|
    ensures Nesting(Tokens(doc)[..Place(doc, i, o)]) == Nesting(doc[i].lead)
  {
    var before, n := Tokens(doc[..i]), doc[i];
    var inside := n.lead + Chars(n.text[..o]);
    TokensAround(doc, i);
    StartIsCount(doc, i);
    UpTo(before, n.lead, Chars(n.text), n.trail, Tokens(doc[i + 1..]), o);
    assert Chars(n.text)[..o] == Chars(n.text[..o]);
    NodesClose(doc[..i]);
    TextIsFlat(n.text[..o]);
    NestingAppend(n.lead, Chars(n.text[..o]));
    NestingAppend(before, inside);
  }

  lemma UpTo<T>(a: seq<T>, b: seq<T>, c: seq<T>, d: seq<T>, e: seq<T>, o: nat)
    requires o <= |c|
    ensures (a + (b + c + d + e))[..|a| + |b| + o] == a + (b + c[..o])
  {
  }

  lemma NestingOfOne(t: Token)
    ensures Nesting([t]) == match t case Open => 1 case Close => 0 - 1 case Char(_) => 0
  {
    assert [t][..0] == [];
  }

  /** A line's text is one level down, and a block's two, in documents that close what they open. */
  lemma EditorsNest(text: string, rest: seq<Token>)
    requires Nesting(rest) == 0
    ensures Nesting(LineNode(text).lead) == 1 && Nesting(NodeTokens(LineNode(text))) == 0
    ensures Nesting(BlockNode(text, rest).lead) == 2 && Nesting(NodeTokens(BlockNode(text, rest))) == 0
  {
    NestingOfOne(Open);
    NestingOfOne(Close);
    TextIsFlat(text);
    NestingAppend([Open], [Open]);
    assert [Open] + [Open] == [Open, Open];
    NestingAppend([Open], Chars(text));
    NestingAppend([Open] + Chars(text), [Close]);
    NestingAppend([Close], rest);
    NestingAppend([Close] + rest, [Close]);
    NestingAppend([Open, Open], Chars(text));
    NestingAppend([Open, Open] + Chars(text), [Close] + rest + [Close]);
  }

  /** Both editors' documents are framed, so all of this holds of them. */
  lemma EditorsAreFramed(lines: seq<string>, doc: seq<Node>)
    requires forall n <- doc :: exists rest :: n == BlockNode(n.text, rest)
    ensures Framed(LineNodes(lines)) && Framed(doc) && forall n <- doc :: |n.lead| == 2
  {
    forall n <- doc
      ensures n.lead != [] && n.trail != [] && |n.lead| == 2
    {
      var rest :| n == BlockNode(n.text, rest);
    }
  }
}
