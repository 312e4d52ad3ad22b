/**
 * How a tar archive is cut into blocks: a header block per member, its data
 * padded to whole blocks, two zero blocks at the end. What a header says is a
 * parameter here (`TarArchive` supplies it), so this is the framing alone.
 */
module TarFraming {
  import opened Basics

  type Byte = b: int | 0 <= b < 256

  const BLOCK: nat := 512

  function Zeros(n: nat): (z: seq<Byte>)
    ensures |z| == n
  {
    seq(n, _ => 0)
  }

  type Block = s: seq<Byte> | |s| == BLOCK witness Zeros(512)

  datatype Entry = Entry(name: seq<Byte>, data: seq<Byte>)

  /** What the reader makes of one header block. */
  datatype Head = End | Head(name: seq<Byte>, size: nat, regular: bool)

  function Padding(size: nat): (n: nat) {
    (BLOCK - size % BLOCK) % BLOCK
  }

  function RoundUp(size: nat): (n: nat)
    ensures size <= n
  {
    (size + BLOCK - 1) / BLOCK * BLOCK
  }

  lemma RoundUpIsPadding(size: nat)
    ensures RoundUp(size) == size + Padding(size)
  {
    var q, r := size / BLOCK, size % BLOCK;
    assert size == q * BLOCK + r;
    assert (size + BLOCK - 1) / BLOCK == if r == 0 then q else q + 1;
  }

  // --------------------------------------------------------------- writer ---

  function Member(head: Entry -> Block, e: Entry): (m: seq<Byte>) {
    head(e) + e.data + Zeros(Padding(|e.data|))
  }

  function Archive(head: Entry -> Block, entries: seq<Entry>): (a: seq<Byte>) {
    if entries == [] then Zeros(2 * BLOCK)
    else Member(head, entries[0]) + Archive(head, entries[1..])
  }

  /** The archive is whole blocks of 512 bytes, the last two of them zero. */
  lemma {:induction false} WholeBlocks(head: Entry -> Block, entries: seq<Entry>) returns (blocks: nat)
    ensures |Archive(head, entries)| == blocks * 512 && blocks >= 2
    ensures Archive(head, entries)[(blocks - 2) * 512..] == Zeros(2 * 512)
    ensures forall i :: 0 <= i < 1024 ==> Zeros(1024)[i] == 0
  {
    if entries == [] {
      blocks := 2;
    } else {
      var size := |entries[0].data|;
      var rest := WholeBlocks(head, entries[1..]);
      RoundUpIsPadding(size);
      blocks := rest + 1 + (size + BLOCK - 1) / BLOCK;
      var m, a := Member(head, entries[0]), Archive(head, entries[1..]);
      assert |m| == (blocks - rest) * BLOCK;
      assert (m + a)[(blocks - 2) * BLOCK..] == a[(rest - 2) * BLOCK..];
    }
  }

  // --------------------------------------------------------------- reader ---

  /** The member whose header stands at `offset`, if it is one the reader keeps. */
  function Found(archive: seq<Byte>, offset: nat, h: Head): (entries: seq<Entry>)
    requires h.Head?
  {
    var start := offset + BLOCK;
    if h.regular && start + h.size <= |archive|
    then [Entry(h.name, archive[start..start + h.size])]
    else []
  }

  /** The members found from `offset` on. */
  function ReadFrom(parse: Block -> Head, archive: seq<Byte>, offset: nat): (entries: seq<Entry>)
    decreases |archive| - offset
  {
    if offset + BLOCK > |archive| then []
    else
      var h := parse(archive[offset..offset + BLOCK]);
      if h.End? then []
      else Found(archive, offset, h) + ReadFrom(parse, archive, offset + BLOCK + RoundUp(h.size))
  }

  // ----------------------------------------------------------- properties ---

  lemma SliceOf<T>(pre: seq<T>, x: seq<T>, post: seq<T>)
    ensures (pre + (x + post))[|pre|..|pre| + |x|] == x
  {
  }

  /** Where the header and the first `n` data bytes lie in `pre, header, data, padding, rest`. */
  lemma Layout<T>(pre: seq<T>, header: seq<T>, data: seq<T>, padding: seq<T>, rest: seq<T>, n: nat)
    requires n <= |data|
    ensures var a := pre + (header + data + padding + rest);
            && a[|pre|..|pre| + |header|] == header
            && a[|pre| + |header|..|pre| + |header| + n] == data[..n]
  {
    var a := pre + (header + data + padding + rest);
    assert a == pre + (header + (data + padding + rest));
    SliceOf(pre, header, data + padding + rest);
    assert a == (pre + header) + (data[..n] + (data[n..] + padding + rest));
    SliceOf(pre + header, data[..n], data[n..] + padding + rest);
  }

  lemma ReadOne(parse: Block -> Head, a: seq<Byte>, offset: nat, header: Block)
    requires offset + BLOCK <= |a| && a[offset..offset + BLOCK] == header
    requires parse(header).Head?
    ensures var h := parse(header);
            ReadFrom(parse, a, offset) == Found(a, offset, h) + ReadFrom(parse, a, offset + BLOCK + RoundUp(h.size))
  {
  }

  lemma NoMoreMembers(parse: Block -> Head, a: seq<Byte>, offset: nat, header: Block, entries: seq<Entry>)
    requires offset + BLOCK <= |a| && a[offset..offset + BLOCK] == header && parse(header).End?
    ensures entries + ReadFrom(parse, a, offset) == entries
  {
  }

  /** One turn of the reader's loop: the member is kept or not, and the next header is at `next`. */
  lemma OneMoreMember(parse: Block -> Head, a: seq<Byte>, offset: nat, header: Block, h: Head,
                      entries: seq<Entry>, kept: seq<Entry>, next: nat)
    requires offset + BLOCK <= |a| && a[offset..offset + BLOCK] == header && h == parse(header) && h.Head?
    requires kept == entries + Found(a, offset, h) && next == offset + BLOCK + RoundUp(h.size)
    ensures entries + ReadFrom(parse, a, offset) == kept + ReadFrom(parse, a, next)
  {
    ReadOne(parse, a, offset, header);
    Assoc(entries, Found(a, offset, h), ReadFrom(parse, a, next));
  }

  lemma FoundAt(head: Entry -> Block, pre: seq<Byte>, e: Entry, rest: seq<Byte>, h: Head)
    requires h.Head? && h.regular && h.size <= |e.data|
    ensures var a := pre + (Member(head, e) + rest);
            && |pre| + BLOCK <= |a| && a[|pre|..|pre| + BLOCK] == head(e)
            && Found(a, |pre|, h) == [Entry(h.name, e.data[..h.size])]
  {
    Layout(pre, head(e), e.data, Zeros(Padding(|e.data|)), rest, h.size);
  }

  /** Where a member starts, the reader finds its header and, as data, as many of its bytes as the size it read. */
  lemma ReadStep(parse: Block -> Head, head: Entry -> Block, pre: seq<Byte>, e: Entry, a: seq<Byte>, rest: seq<Byte>)
    requires a == pre + (Member(head, e) + rest)
    requires parse(head(e)).Head? && parse(head(e)).regular && parse(head(e)).size <= |e.data|
    ensures var h := parse(head(e));
            ReadFrom(parse, a, |pre|)
            == [Entry(h.name, e.data[..h.size])] + ReadFrom(parse, a, |pre| + BLOCK + RoundUp(h.size))
  {
    FoundAt(head, pre, e, rest, parse(head(e)));
    ReadOne(parse, a, |pre|, head(e));
  }

  ghost predicate ReadsBack(parse: Block -> Head, head: Entry -> Block, e: Entry) {
    parse(head(e)) == Head(e.name, |e.data|, true)
  }

  /** After a member whose header reads back, the reader stands at the next one. */
  lemma ReadMember(parse: Block -> Head, head: Entry -> Block, pre: seq<Byte>, e: Entry, rest: seq<Byte>)
    requires ReadsBack(parse, head, e)
    ensures ReadFrom(parse, pre + (Member(head, e) + rest), |pre|)
         == [e] + ReadFrom(parse, (pre + Member(head, e)) + rest, |pre + Member(head, e)|)
  {
    var m := Member(head, e);
    ReadStep(parse, head, pre, e, pre + (m + rest), rest);
    RoundUpIsPadding(|e.data|);
    WholeOf(e.data);
    Assoc(pre, m, rest);
  }

  lemma WholeOf<T>(s: seq<T>)
    ensures s[..|s|] == s
  {
  }

  /** A member that is no regular file is passed over, data and padding: the reader finds nothing in it and stands behind it. */
  lemma OthersArePassed(parse: Block -> Head, pre: seq<Byte>, header: Block, data: seq<Byte>, rest: seq<Byte>)
    requires parse(header).Head? && !parse(header).regular && parse(header).size == |data|
    ensures var m := header + data + Zeros(Padding(|data|));
            ReadFrom(parse, pre + (m + rest), |pre|) == ReadFrom(parse, (pre + m) + rest, |pre + m|)
  {
    var m := header + data + Zeros(Padding(|data|));
    var a := pre + (m + rest);
    Layout(pre, header, data, Zeros(Padding(|data|)), rest, |data|);
    ReadOne(parse, a, |pre|, header);
    RoundUpIsPadding(|data|);
    Assoc(pre, m, rest);
    NothingFound(ReadFrom(parse, a, |pre| + BLOCK + RoundUp(|data|)));
  }

  lemma NothingFound(more: seq<Entry>)
    ensures [] + more == more
  {
  }

  /** The reader undoes the writer, wherever in a larger byte sequence the archive stands. */
  lemma {:induction false} ReadUndoesWrite(parse: Block -> Head, head: Entry -> Block,
                                           pre: seq<Byte>, entries: seq<Entry>, post: seq<Byte>)
    requires parse(Zeros(BLOCK)) == End
    requires forall e <- entries :: ReadsBack(parse, head, e)
    ensures ReadFrom(parse, pre + (Archive(head, entries) + post), |pre|) == entries
    decreases entries
  {
    if entries == [] {
      var z := Zeros(BLOCK);
      assert Zeros(2 * BLOCK) == z + z;
      assert pre + (z + z + post) == pre + (z + (z + post));
      SliceOf(pre, z, z + post);
    } else {
      var e, rest := entries[0], Archive(head, entries[1..]) + post;
      assert Archive(head, entries) + post == Member(head, e) + rest;
      ReadMember(parse, head, pre, e, rest);
      ReadUndoesWrite(parse, head, pre + Member(head, e), entries[1..], post);
    }
  }

  /** A header read as something else, but no longer than its data, makes the archive read as something else. */
  ghost predicate ReadsAltered(parse: Block -> Head, head: Entry -> Block, e: Entry) {
    var h := parse(head(e));
    && h.Head? && h.regular && h.size <= |e.data|
    && (h.name != e.name || h.size < |e.data|)
  }

  lemma {:induction false} AlteredIsLost(parse: Block -> Head, head: Entry -> Block,
                                         pre: seq<Byte>, entries: seq<Entry>)
    requires forall e <- entries :: ReadsBack(parse, head, e) || ReadsAltered(parse, head, e)
    requires exists e <- entries :: ReadsAltered(parse, head, e)
    ensures ReadFrom(parse, pre + Archive(head, entries), |pre|) != entries
    decreases entries
  {
    var e, rest := entries[0], Archive(head, entries[1..]);
    if ReadsAltered(parse, head, e) {
      ReadStep(parse, head, pre, e, pre + Archive(head, entries), rest);
    } else {
      ReadMember(parse, head, pre, e, rest);
      AlteredIsLost(parse, head, pre + Member(head, e), entries[1..]);
    }
  }

  /** A member still complete after a cut is found the same; one that is not is dropped, and nothing follows it. */
  lemma CutMember(parse: Block -> Head, short: seq<Byte>, archive: seq<Byte>, offset: nat, h: Head)
    requires short <= archive && offset + BLOCK <= |short| && h.Head?
    ensures Found(short, offset, h) == Found(archive, offset, h)
      || (Found(short, offset, h) == [] && ReadFrom(parse, short, offset + BLOCK + RoundUp(h.size)) == [])
  {
    var start := offset + BLOCK;
    if start + h.size <= |short| {
      assert short[start..start + h.size] == archive[start..start + h.size];
    }
  }

  lemma CutOne<T>(cut: seq<T>, found: seq<T>, cutRest: seq<T>, rest: seq<T>)
    requires cutRest <= rest && (cut == found || (cut == [] && cutRest == []))
    ensures cut + cutRest <= found + rest
  {
  }

  lemma {:induction false} ShortReadsLess(parse: Block -> Head, short: seq<Byte>, archive: seq<Byte>, offset: nat)
    requires short <= archive
    ensures ReadFrom(parse, short, offset) <= ReadFrom(parse, archive, offset)
    decreases |archive| - offset
  {
    if offset + BLOCK <= |short| {
      var header: Block := short[offset..offset + BLOCK];
      assert archive[offset..offset + BLOCK] == header;
      var h := parse(header);
      if h.Head? {
        var next := offset + BLOCK + RoundUp(h.size);
        ShortReadsLess(parse, short, archive, next);
        CutMember(parse, short, archive, offset, h);
        CutOne(Found(short, offset, h), Found(archive, offset, h), ReadFrom(parse, short, next), ReadFrom(parse, archive, next));
      }
    }
  }

  /**
   * A partial archive is tolerated: cutting any byte sequence short only drops
   * members from the end of what is read, it never invents or alters one.
   */
  lemma TruncationKeepsAPrefix(parse: Block -> Head, archive: seq<Byte>, n: nat, offset: nat)
    requires n <= |archive|
    ensures ReadFrom(parse, archive[..n], offset) <= ReadFrom(parse, archive, offset)
  {
    ShortReadsLess(parse, archive[..n], archive, offset);
  }
}
