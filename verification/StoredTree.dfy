/**
 * The depth-first flattening of a page's blocks, given as rows that point to
 * their parents, and the way back from ids and depths.
 */
module StoredTrees {
  import opened Basics

  type Id = string

  datatype Block = Block(id: Id, parent: Option<Id>, position: Option<int>)

  datatype Row = Row(block: Block, depth: nat)

  /** Block ids are the rows' key. */
  ghost predicate UniqueIds(blocks: seq<Block>) {
    forall i, j :: 0 <= i < j < |blocks| ==> blocks[i].id != blocks[j].id
  }

  // ------------------------------------------------------------- siblings ---

  function Rank(b: Block): (r: int) { if b.position.Some? then b.position.value else 0 }

  /** `blocks.filter(block => block.parent_id === p)`. */
  function ChildrenOf(blocks: seq<Block>, p: Id): (kids: seq<Block>) {
    if blocks == [] then []
    else (if blocks[0].parent == Some(p) then [blocks[0]] else []) + ChildrenOf(blocks[1..], p)
  }

  /** `b` before every block it does not rank after. */
  function Insert(b: Block, sorted: seq<Block>): (s: seq<Block>) {
    if sorted == [] || Rank(b) <= Rank(sorted[0]) then [b] + sorted
    else [sorted[0]] + Insert(b, sorted[1..])
  }

  /** `toSorted` by position; equal positions keep their order. */
  function SortByPosition(blocks: seq<Block>): (s: seq<Block>) {
    if blocks == [] then [] else Insert(blocks[0], SortByPosition(blocks[1..]))
  }

  function Kids(blocks: seq<Block>, p: Id): (kids: seq<Block>) {
    SortByPosition(ChildrenOf(blocks, p))
  }

  ghost predicate Ranked(s: seq<Block>) {
    forall i, j :: 0 <= i < j < |s| ==> Rank(s[i]) <= Rank(s[j])
  }

  /** The blocks of rank `r`, in order: what a stable sort leaves alone. */
  function OfRank(s: seq<Block>, r: int): (t: seq<Block>) {
    if s == [] then []
    else (if Rank(s[0]) == r then [s[0]] else []) + OfRank(s[1..], r)
  }

  lemma {:induction false} InsertIs(b: Block, s: seq<Block>)
    ensures multiset(Insert(b, s)) == multiset{b} + multiset(s)
    ensures forall x :: x in Insert(b, s) <==> x == b || x in s
  {
    if s != [] && Rank(b) > Rank(s[0]) {
      InsertIs(b, s[1..]);
      assert s == [s[0]] + s[1..];
    }
  }

  lemma {:induction false} InsertRanked(b: Block, s: seq<Block>)
    requires Ranked(s)
    ensures Ranked(Insert(b, s))
  {
    if s != [] && Rank(b) > Rank(s[0]) {
      InsertRanked(b, s[1..]);
      InsertIs(b, s[1..]);
      assert forall x <- Insert(b, s[1..]) :: Rank(s[0]) <= Rank(x);
    }
  }

  lemma OfRankCons(b: Block, s: seq<Block>, r: int)
    ensures OfRank([b] + s, r) == (if Rank(b) == r then [b] else []) + OfRank(s, r)
  {
    assert ([b] + s)[1..] == s;
  }

  lemma {:induction false} InsertStable(b: Block, s: seq<Block>, r: int)
    ensures OfRank(Insert(b, s), r) == OfRank([b] + s, r)
  {
    if s != [] && Rank(b) > Rank(s[0]) {
      var first, rest := s[0], s[1..];
      InsertStable(b, rest, r);
      OfRankCons(first, Insert(b, rest), r);
      OfRankCons(b, rest, r);
      OfRankCons(b, s, r);
      OfRankCons(first, rest, r);
      assert s == [first] + rest;
      RankedApart(OfRank(rest, r), b, first, r);
    }
  }

  /** Blocks of different ranks are not both kept, so their order does not show. */
  lemma RankedApart(t: seq<Block>, a: Block, b: Block, r: int)
    requires Rank(a) != Rank(b)
    ensures (if Rank(a) == r then [a] else []) + ((if Rank(b) == r then [b] else []) + t)
         == (if Rank(b) == r then [b] else []) + ((if Rank(a) == r then [a] else []) + t)
  {
    assert [] + t == t;
    if Rank(a) == r { assert [] + ([a] + t) == [a] + t; }
    if Rank(b) == r { assert [] + ([b] + t) == [b] + t; }
  }

  lemma {:induction false} InsertUnique(b: Block, s: seq<Block>)
    requires UniqueIds(s) && forall x <- s :: x.id != b.id
    ensures UniqueIds(Insert(b, s))
  {
    if s != [] && Rank(b) > Rank(s[0]) {
      InsertUnique(b, s[1..]);
      InsertIs(b, s[1..]);
      assert forall x <- Insert(b, s[1..]) :: x.id != s[0].id;
    }
  }

  lemma {:induction false} SortKeeps(blocks: seq<Block>)
    ensures multiset(SortByPosition(blocks)) == multiset(blocks)
    ensures forall x :: x in SortByPosition(blocks) <==> x in blocks
  {
    if blocks != [] {
      SortKeeps(blocks[1..]);
      InsertIs(blocks[0], SortByPosition(blocks[1..]));
      assert blocks == [blocks[0]] + blocks[1..];
    }
  }

  lemma {:induction false} SortRanks(blocks: seq<Block>)
    ensures Ranked(SortByPosition(blocks))
  {
    if blocks != [] {
      SortRanks(blocks[1..]);
      InsertRanked(blocks[0], SortByPosition(blocks[1..]));
    }
  }

  lemma {:induction false} SortIsStable(blocks: seq<Block>, r: int)
    ensures OfRank(SortByPosition(blocks), r) == OfRank(blocks, r)
  {
    if blocks != [] {
      var b, tail := blocks[0], SortByPosition(blocks[1..]);
      SortIsStable(blocks[1..], r);
      InsertStable(b, tail, r);
      OfRankCons(b, tail, r);
      OfRankCons(b, blocks[1..], r);
      assert blocks == [b] + blocks[1..];
    }
  }

  lemma {:induction false} SortUnique(blocks: seq<Block>)
    requires UniqueIds(blocks)
    ensures UniqueIds(SortByPosition(blocks))
  {
    if blocks != [] {
      SortUnique(blocks[1..]);
      SortKeeps(blocks[1..]);
      assert forall x <- blocks[1..] :: x.id != blocks[0].id;
      InsertUnique(blocks[0], SortByPosition(blocks[1..]));
    }
  }

  /** The sort is a stable permutation into position order. */
  lemma SortSorts(blocks: seq<Block>, r: int)
    ensures Ranked(SortByPosition(blocks)) && multiset(SortByPosition(blocks)) == multiset(blocks)
    ensures forall x :: x in SortByPosition(blocks) <==> x in blocks
    ensures OfRank(SortByPosition(blocks), r) == OfRank(blocks, r)
    ensures UniqueIds(blocks) ==> UniqueIds(SortByPosition(blocks))
  {
    SortKeeps(blocks);
    SortRanks(blocks);
    SortIsStable(blocks, r);
    if UniqueIds(blocks) { SortUnique(blocks); }
  }

  lemma {:induction false} ChildrenAre(blocks: seq<Block>, p: Id)
    ensures forall b :: b in ChildrenOf(blocks, p) <==> b in blocks && b.parent == Some(p)
  {
    if blocks != [] { ChildrenAre(blocks[1..], p); }
  }

  lemma {:induction false} ChildrenUnique(blocks: seq<Block>, p: Id)
    requires UniqueIds(blocks)
    ensures UniqueIds(ChildrenOf(blocks, p))
  {
    if blocks != [] {
      ChildrenUnique(blocks[1..], p);
      ChildrenAre(blocks[1..], p);
      var kids := ChildrenOf(blocks[1..], p);
      forall i | 0 <= i < |kids|
        ensures kids[i].id != blocks[0].id
      {
        assert kids[i] in blocks[1..];
        var k :| 0 <= k < |blocks[1..]| && blocks[1..][k] == kids[i];
        assert blocks[k + 1] == kids[i];
      }
    }
  }

  /** `a` stands before `b` in the blocks as received. */
  ghost predicate IsReceivedFirst(blocks: seq<Block>, a: Block, b: Block) {
    exists m, n :: 0 <= m < n < |blocks| && blocks[m] == a && blocks[n] == b
  }

  /** `a` belongs before `b`: by position, none counting as 0, and at equal positions as received. */
  ghost predicate ComesFirst(blocks: seq<Block>, a: Block, b: Block) {
    var x := if a.position == None then 0 else a.position.value;
    var y := if b.position == None then 0 else b.position.value;
    x < y || (x == y && IsReceivedFirst(blocks, a, b))
  }

  ghost predicate InOrder(blocks: seq<Block>, s: seq<Block>) {
    forall i, j :: 0 <= i < j < |s| ==> ComesFirst(blocks, s[i], s[j])
  }

  lemma {:induction false} InsertInOrder(blocks: seq<Block>, b: Block, s: seq<Block>)
    requires InOrder(blocks, s) && forall x <- s :: IsReceivedFirst(blocks, b, x)
    ensures InOrder(blocks, Insert(b, s))
  {
    if s != [] && Rank(b) > Rank(s[0]) {
      InsertInOrder(blocks, b, s[1..]);
      InsertIs(b, s[1..]);
      assert forall x <- Insert(b, s[1..]) :: ComesFirst(blocks, s[0], x);
    }
  }

  lemma LaterReceived(blocks: seq<Block>, x: Block)
    requires blocks != [] && x in blocks[1..]
    ensures IsReceivedFirst(blocks, blocks[0], x)
  {
    var k :| 0 <= k < |blocks[1..]| && blocks[1..][k] == x;
    assert blocks[k + 1] == x;
  }

  lemma ReceivedInTail(blocks: seq<Block>, a: Block, b: Block)
    requires blocks != [] && IsReceivedFirst(blocks[1..], a, b)
    ensures IsReceivedFirst(blocks, a, b)
  {
    var m, n :| 0 <= m < n < |blocks[1..]| && blocks[1..][m] == a && blocks[1..][n] == b;
    assert blocks[m + 1] == a && blocks[n + 1] == b;
  }

  lemma {:induction false} SortInOrder(blocks: seq<Block>)
    ensures InOrder(blocks, SortByPosition(blocks))
  {
    if blocks != [] {
      var rest := SortByPosition(blocks[1..]);
      SortInOrder(blocks[1..]);
      SortKeeps(blocks[1..]);
      forall x <- rest
        ensures IsReceivedFirst(blocks, blocks[0], x)
      {
        LaterReceived(blocks, x);
      }
      forall i, j | 0 <= i < j < |rest|
        ensures ComesFirst(blocks, rest[i], rest[j])
      {
        if IsReceivedFirst(blocks[1..], rest[i], rest[j]) { ReceivedInTail(blocks, rest[i], rest[j]); }
      }
      InsertInOrder(blocks, blocks[0], rest);
    }
  }

  lemma {:induction false} ChildrenAsReceived(blocks: seq<Block>, p: Id, a: Block, b: Block)
    requires IsReceivedFirst(ChildrenOf(blocks, p), a, b)
    ensures IsReceivedFirst(blocks, a, b)
  {
    var own := if blocks[0].parent == Some(p) then [blocks[0]] else [];
    var rest := ChildrenOf(blocks[1..], p);
    ChildrenAre(blocks[1..], p);
    FirstOrLater(own, rest, a, b);
    if IsReceivedFirst(rest, a, b) {
      ChildrenAsReceived(blocks[1..], p, a, b);
      ReceivedInTail(blocks, a, b);
    } else {
      LaterReceived(blocks, b);
    }
  }

  lemma FirstOrLater(own: seq<Block>, rest: seq<Block>, a: Block, b: Block)
    requires |own| <= 1 && IsReceivedFirst(own + rest, a, b)
    ensures IsReceivedFirst(rest, a, b) || (own == [a] && b in rest)
  {
    var m, n :| 0 <= m < n < |own + rest| && (own + rest)[m] == a && (own + rest)[n] == b;
    assert rest[n - |own|] == b;
    if m >= |own| { assert rest[m - |own|] == a; }
  }

  lemma KidsInOrder(blocks: seq<Block>, p: Id)
    ensures InOrder(blocks, Kids(blocks, p))
  {
    var kids := Kids(blocks, p);
    SortInOrder(ChildrenOf(blocks, p));
    forall i, j | 0 <= i < j < |kids|
      ensures ComesFirst(blocks, kids[i], kids[j])
    {
      if IsReceivedFirst(ChildrenOf(blocks, p), kids[i], kids[j]) { ChildrenAsReceived(blocks, p, kids[i], kids[j]); }
    }
  }

  /** Each child exactly once, whatever the sort does. */
  lemma KidsAre(blocks: seq<Block>, p: Id)
    requires UniqueIds(blocks)
    ensures forall b :: b in Kids(blocks, p) <==> b in blocks && b.parent == Some(p)
    ensures UniqueIds(Kids(blocks, p))
  {
    ChildrenAre(blocks, p);
    ChildrenUnique(blocks, p);
    SortSorts(ChildrenOf(blocks, p), 0);
  }

  // --------------------------------------------------------------- chains ---

  ghost predicate HasEdge(blocks: seq<Block>, p: Id, c: Id) {
    exists b <- blocks :: b.id == c && b.parent == Some(p)
  }

  function Last(path: seq<Id>): (id: Id)
    requires path != []
  {
    path[|path| - 1]
  }

  function Init(path: seq<Id>): (front: seq<Id>)
    requires path != []
  {
    path[..|path| - 1]
  }

  /** Ids from the page down, each the parent of the next. */
  ghost predicate Chain(blocks: seq<Block>, page: Id, path: seq<Id>) {
    && path != []
    && if |path| == 1 then path[0] == page
       else Chain(blocks, page, Init(path)) && HasEdge(blocks, Last(Init(path)), Last(path))
  }

  /** The page is not below itself. */
  ghost predicate Rooted(blocks: seq<Block>, page: Id) {
    forall path {:trigger HasEdge(blocks, Last(path), page)} ::
      Chain(blocks, page, path) ==> !HasEdge(blocks, Last(path), page)
  }

  lemma OneParent(blocks: seq<Block>, p: Id, q: Id, c: Id)
    requires UniqueIds(blocks) && HasEdge(blocks, p, c) && HasEdge(blocks, q, c)
    ensures p == q
  {
    var a :| a in blocks && a.id == c && a.parent == Some(p);
    var b :| b in blocks && b.id == c && b.parent == Some(q);
    var i :| 0 <= i < |blocks| && blocks[i] == a;
    var j :| 0 <= j < |blocks| && blocks[j] == b;
    assert i == j;
  }

  lemma ChainSnoc(blocks: seq<Block>, page: Id, path: seq<Id>, c: Id)
    requires Chain(blocks, page, path) && HasEdge(blocks, Last(path), c)
    ensures Chain(blocks, page, path + [c])
  {
    assert Init(path + [c]) == path;
  }

  lemma {:induction false} ChainTo(blocks: seq<Block>, page: Id, path: seq<Id>, n: nat)
    requires Chain(blocks, page, path) && 0 < n <= |path|
    ensures Chain(blocks, page, path[..n]) && path[0] == page
    ensures n < |path| ==> HasEdge(blocks, path[n - 1], path[n])
    decreases |path|
  {
    if n < |path| - 1 {
      ChainTo(blocks, page, Init(path), n);
      assert Init(path)[..n] == path[..n];
    } else {
      assert path[..|path|] == path;
      if |path| > 1 { ChainTo(blocks, page, Init(path), |path| - 1); }
    }
  }

  /** There is one way down to each block. */
  lemma {:induction false} OneChain(blocks: seq<Block>, page: Id, a: seq<Id>, b: seq<Id>)
    requires UniqueIds(blocks) && Rooted(blocks, page)
    requires Chain(blocks, page, a) && Chain(blocks, page, b) && Last(a) == Last(b)
    ensures a == b
    decreases |a|
  {
    if |a| > 1 && |b| > 1 {
      var a', b' := Init(a), Init(b);
      OneParent(blocks, Last(a'), Last(b'), Last(a));
      OneChain(blocks, page, a', b');
      assert a == a' + [Last(a)] && b == b' + [Last(b)];
    }
  }

  /** A chain does not come back to where it was. */
  lemma NoReturn(blocks: seq<Block>, page: Id, path: seq<Id>, c: Id)
    requires UniqueIds(blocks) && Rooted(blocks, page)
    requires Chain(blocks, page, path) && HasEdge(blocks, Last(path), c)
    ensures c !in path
  {
    if k :| 0 <= k < |path| && path[k] == c {
      ChainSnoc(blocks, page, path, c);
      var start := path[..k + 1];
      ChainTo(blocks, page, path, k + 1);
      OneChain(blocks, page, start, path + [c]);
      assert false;
    }
  }

  // ----------------------------------------------------------------- walk ---

  function Ids(blocks: seq<Block>): (ids: set<Id>) { set b <- blocks :: b.id }

  function Members(path: seq<Id>): (ids: set<Id>) { set id <- path }

  /** From the end of a chain to a child of it: a longer chain, and fewer blocks off it. */
  lemma StepDown(blocks: seq<Block>, page: Id, path: seq<Id>, kid: Block)
    requires UniqueIds(blocks) && Rooted(blocks, page) && Chain(blocks, page, path)
    requires kid in blocks && kid.parent == Some(Last(path))
    ensures Chain(blocks, page, path + [kid.id])
    ensures Ids(blocks) - Members(path + [kid.id]) < Ids(blocks) - Members(path)
    ensures |Ids(blocks) - Members(path + [kid.id])| < |Ids(blocks) - Members(path)|
  {
    assert HasEdge(blocks, Last(path), kid.id);
    NoReturn(blocks, page, path, kid.id);
    ChainSnoc(blocks, page, path, kid.id);
    var left := Ids(blocks) - Members(path);
    assert kid.id in left && Ids(blocks) - Members(path + [kid.id]) == left - {kid.id};
  }

  /** The rows below the end of `path`, which a walk from the page has reached. */
  function Below(blocks: seq<Block>, page: Id, path: seq<Id>): (rows: seq<Row>)
    requires UniqueIds(blocks) && Rooted(blocks, page) && Chain(blocks, page, path)
    decreases Ids(blocks) - Members(path), 1, 0
  {
    KidsAre(blocks, Last(path));
    BelowKids(blocks, page, path, Kids(blocks, Last(path)))
  }

  function BelowKids(blocks: seq<Block>, page: Id, path: seq<Id>, kids: seq<Block>): (rows: seq<Row>)
    requires UniqueIds(blocks) && Rooted(blocks, page) && Chain(blocks, page, path)
    requires forall b <- kids :: b in blocks && b.parent == Some(Last(path))
    decreases Ids(blocks) - Members(path), 0, |kids|
  {
    if kids == [] then []
    else
      var c := kids[0].id;
      StepDown(blocks, page, path, kids[0]);
      [Row(kids[0], |path| - 1)] + Below(blocks, page, path + [c]) + BelowKids(blocks, page, path, kids[1..])
  }

  lemma BelowKidsIs(blocks: seq<Block>, page: Id, path: seq<Id>, kids: seq<Block>)
    requires UniqueIds(blocks) && Rooted(blocks, page) && Chain(blocks, page, path)
    requires kids != [] && forall b <- kids :: b in blocks && b.parent == Some(Last(path))
    ensures Chain(blocks, page, path + [kids[0].id])
    ensures Ids(blocks) - Members(path + [kids[0].id]) < Ids(blocks) - Members(path)
    ensures |Ids(blocks) - Members(path + [kids[0].id])| < |Ids(blocks) - Members(path)|
    ensures BelowKids(blocks, page, path, kids)
         == [Row(kids[0], |path| - 1)] + Below(blocks, page, path + [kids[0].id]) + BelowKids(blocks, page, path, kids[1..])
  {
    StepDown(blocks, page, path, kids[0]);
  }

  /** The page's blocks depth-first, each with its depth. */
  function StoredTree(blocks: seq<Block>, page: Id): (tree: seq<Row>)
    requires UniqueIds(blocks) && Rooted(blocks, page)
  {
    Below(blocks, page, [page])
  }

  /** The closure `walk` and the list it pushes into. */
  class Walker {
    const blocks: seq<Block>
    var tree: seq<Row>

    constructor (blocks: seq<Block>)
      ensures this.blocks == blocks && tree == []
    {
      this.blocks := blocks;
      tree := [];
    }

    method Walk(parentId: Id, depth: nat, ghost page: Id, ghost path: seq<Id>)
      requires UniqueIds(blocks) && Rooted(blocks, page) && Chain(blocks, page, path)
      requires parentId == Last(path) && depth == |path| - 1
      modifies this
      ensures tree == old(tree) + Below(blocks, page, path)
      decreases Ids(blocks) - Members(path)
    {
      var children := Kids(blocks, parentId);
      KidsAre(blocks, parentId);
      for i := 0 to |children|
        invariant old(tree) + Below(blocks, page, path) == tree + BelowKids(blocks, page, path, children[i..])
      {
        var block := children[i];
        Tail(children, i);
        BelowKidsIs(blocks, page, path, children[i..]);
        ghost var rest := BelowKids(blocks, page, path, children[i + 1..]);
        ghost var under := Below(blocks, page, path + [block.id]);
        Assoc(tree, [Row(block, depth)] + under, rest);
        Assoc(tree, [Row(block, depth)], under);
        tree := tree + [Row(block, depth)];
        Walk(block.id, depth + 1, page, path + [block.id]);
      }
    }
  }

  /** `storedTree`, from the rows the backend sent. */
  method ReadStoredTree(blocks: seq<Block>, page: Id) returns (tree: seq<Row>)
    requires UniqueIds(blocks) && Rooted(blocks, page)
    ensures tree == StoredTree(blocks, page)
  {
    var walker := new Walker(blocks);
    walker.Walk(page, 0, page, [page]);
    tree := walker.tree;
    assert [] + Below(blocks, page, [page]) == Below(blocks, page, [page]);
  }

  // ------------------------------------------------- what the walk lists ---

  /** The chain a row stands at the end of. */
  ghost predicate RowOf(blocks: seq<Block>, page: Id, path: seq<Id>, row: Row, chain: seq<Id>) {
    && Chain(blocks, page, chain) && path < chain
    && Last(chain) == row.block.id && row.depth == |chain| - 2
    && row.block in blocks && row.block.parent == Some(chain[|chain| - 2])
  }

  /** Every row is a block of the page, at a depth one more than its parent's. */
  lemma {:induction false} RowHasChain(blocks: seq<Block>, page: Id, path: seq<Id>, row: Row) returns (chain: seq<Id>)
    requires UniqueIds(blocks) && Rooted(blocks, page) && Chain(blocks, page, path)
    requires row in Below(blocks, page, path)
    ensures RowOf(blocks, page, path, row, chain)
    decreases Ids(blocks) - Members(path), 1, 0
  {
    KidsAre(blocks, Last(path));
    chain := KidRowHasChain(blocks, page, path, Kids(blocks, Last(path)), row);
  }

  lemma {:induction false} KidRowHasChain(blocks: seq<Block>, page: Id, path: seq<Id>, kids: seq<Block>, row: Row)
    returns (chain: seq<Id>)
    requires UniqueIds(blocks) && Rooted(blocks, page) && Chain(blocks, page, path)
    requires forall b <- kids :: b in blocks && b.parent == Some(Last(path))
    requires row in BelowKids(blocks, page, path, kids)
    ensures RowOf(blocks, page, path, row, chain)
    decreases Ids(blocks) - Members(path), 0, |kids|
  {
    var own, down := Row(kids[0], |path| - 1), path + [kids[0].id];
    BelowKidsIs(blocks, page, path, kids);
    InParts(own, Below(blocks, page, down), BelowKids(blocks, page, path, kids[1..]), row);
    if row == own {
      chain := down;
    } else if row in Below(blocks, page, down) {
      chain := RowHasChain(blocks, page, down, row);
      assert path < down < chain;
    } else {
      chain := KidRowHasChain(blocks, page, path, kids[1..], row);
    }
  }

  lemma InParts(own: Row, sub: seq<Row>, rest: seq<Row>, row: Row)
    ensures row in [own] + sub + rest <==> row == own || row in sub || row in rest
  {
  }

  /** The blocks of the rows under parent `p`, in the order of the rows. */
  function Under(rows: seq<Row>, p: Id): (blocks: seq<Block>) {
    if rows == [] then []
    else (if rows[0].block.parent == Some(p) then [rows[0].block] else []) + Under(rows[1..], p)
  }

  lemma {:induction false} UnderAppend(a: seq<Row>, b: seq<Row>, p: Id)
    ensures Under(a + b, p) == Under(a, p) + Under(b, p)
  {
    if a == [] {
      assert a + b == b;
    } else {
      UnderAppend(a[1..], b, p);
      assert (a + b)[0] == a[0] && (a + b)[1..] == a[1..] + b;
      Assoc(if a[0].block.parent == Some(p) then [a[0].block] else [], Under(a[1..], p), Under(b, p));
    }
  }

  lemma UnderParts(own: Row, sub: seq<Row>, rest: seq<Row>, p: Id)
    ensures Under([own] + sub + rest, p)
         == (if own.block.parent == Some(p) then [own.block] else []) + Under(sub, p) + Under(rest, p)
  {
    UnderAppend([own] + sub, rest, p);
    UnderAppend([own], sub, p);
    assert Under([own], p) == (if own.block.parent == Some(p) then [own.block] else []) + Under([own][1..], p);
  }

  lemma {:induction false} UnderNone(rows: seq<Row>, p: Id)
    requires forall row <- rows :: row.block.parent != Some(p)
    ensures Under(rows, p) == []
  {
    if rows != [] { UnderNone(rows[1..], p); }
  }

  /** The subtree at `path + [c]` lists nothing under a block that is not in it. */
  lemma OtherSubtree(blocks: seq<Block>, page: Id, path: seq<Id>, q: seq<Id>)
    requires UniqueIds(blocks) && Rooted(blocks, page) && Chain(blocks, page, path)
    requires Chain(blocks, page, q) && !(path <= q)
    ensures Under(Below(blocks, page, path), Last(q)) == []
  {
    forall row <- Below(blocks, page, path)
      ensures row.block.parent != Some(Last(q))
    {
      var chain := RowHasChain(blocks, page, path, row);
      var up := Init(chain);
      if Last(up) == Last(q) {
        OneChain(blocks, page, up, q);
        assert false;
      }
    }
    UnderNone(Below(blocks, page, path), Last(q));
  }

  /** Below `path`, the children of any block `q` reaches there are listed once, in sibling order. */
  lemma {:induction false} ListsChildren(blocks: seq<Block>, page: Id, path: seq<Id>, q: seq<Id>)
    requires UniqueIds(blocks) && Rooted(blocks, page) && Chain(blocks, page, path)
    requires Chain(blocks, page, q) && path <= q
    ensures Under(Below(blocks, page, path), Last(q)) == Kids(blocks, Last(q))
    decreases Ids(blocks) - Members(path), 1, 0
  {
    var kids := Kids(blocks, Last(path));
    KidsAre(blocks, Last(path));
    ListsChildrenOf(blocks, page, path, q, kids);
    if path != q { NextIsKid(blocks, page, path, q); }
  }

  lemma NextIsKid(blocks: seq<Block>, page: Id, path: seq<Id>, q: seq<Id>)
    requires UniqueIds(blocks) && Chain(blocks, page, path) && Chain(blocks, page, q) && path < q
    ensures HasId(Kids(blocks, Last(path)), q[|path|])
  {
    KidsAre(blocks, Last(path));
    ChainTo(blocks, page, q, |path|);
    var b :| b in blocks && b.id == q[|path|] && b.parent == Some(Last(path));
    assert b in Kids(blocks, Last(path));
  }

  predicate HasId(kids: seq<Block>, id: Id) { exists b <- kids :: b.id == id }

  lemma {:induction false} ListsChildrenOf(blocks: seq<Block>, page: Id, path: seq<Id>, q: seq<Id>, kids: seq<Block>)
    requires UniqueIds(blocks) && Rooted(blocks, page) && Chain(blocks, page, path)
    requires Chain(blocks, page, q) && path <= q
    requires UniqueIds(kids) && forall b <- kids :: b in blocks && b.parent == Some(Last(path))
    ensures Under(BelowKids(blocks, page, path, kids), Last(q)) == Expected(blocks, path, q, kids)
    decreases Ids(blocks) - Members(path), 0, |kids|, 1
  {
    if kids == [] {
      assert BelowKids(blocks, page, path, kids) == [];
    } else {
      BelowKidsIs(blocks, page, path, kids);
      UnderKids(blocks, page, path, q, kids, Below(blocks, page, path + [kids[0].id]), BelowKids(blocks, page, path, kids[1..]));
    }
  }

  lemma {:induction false} UnderKids(blocks: seq<Block>, page: Id, path: seq<Id>, q: seq<Id>, kids: seq<Block>,
                                     sub: seq<Row>, rest: seq<Row>)
    requires UniqueIds(blocks) && Rooted(blocks, page) && Chain(blocks, page, path)
    requires Chain(blocks, page, q) && path <= q && kids != []
    requires UniqueIds(kids) && forall b <- kids :: b in blocks && b.parent == Some(Last(path))
    requires Chain(blocks, page, path + [kids[0].id])
    requires Ids(blocks) - Members(path + [kids[0].id]) < Ids(blocks) - Members(path)
    requires sub == Below(blocks, page, path + [kids[0].id]) && rest == BelowKids(blocks, page, path, kids[1..])
    ensures Under([Row(kids[0], |path| - 1)] + sub + rest, Last(q)) == Expected(blocks, path, q, kids)
    decreases Ids(blocks) - Members(path), 0, |kids|, 0
  {
    ListsChildrenOf(blocks, page, path, q, kids[1..]);
    SubtreeLists(blocks, page, path + [kids[0].id], q);
    OwnParent(blocks, page, path, q, kids[0]);
    UnderOneKid(blocks, path, q, kids, Row(kids[0], |path| - 1), sub, rest);
  }

  lemma {:induction false} SubtreeLists(blocks: seq<Block>, page: Id, path: seq<Id>, q: seq<Id>)
    requires UniqueIds(blocks) && Rooted(blocks, page) && Chain(blocks, page, path) && Chain(blocks, page, q)
    ensures Under(Below(blocks, page, path), Last(q)) == if path <= q then Kids(blocks, Last(q)) else []
    decreases Ids(blocks) - Members(path), 2, 0
  {
    if path <= q {
      ListsChildren(blocks, page, path, q);
    } else {
      OtherSubtree(blocks, page, path, q);
    }
  }

  lemma OwnParent(blocks: seq<Block>, page: Id, path: seq<Id>, q: seq<Id>, kid: Block)
    requires UniqueIds(blocks) && Rooted(blocks, page) && Chain(blocks, page, path) && Chain(blocks, page, q)
    requires kid.parent == Some(Last(path))
    ensures kid.parent == Some(Last(q)) <==> path == q
  {
    if Last(path) == Last(q) { OneChain(blocks, page, path, q); }
  }

  lemma UnderOneKid(blocks: seq<Block>, path: seq<Id>, q: seq<Id>, kids: seq<Block>, own: Row, sub: seq<Row>, rest: seq<Row>)
    requires path <= q && q != [] && kids != [] && UniqueIds(kids) && own.block == kids[0]
    requires own.block.parent == Some(Last(q)) <==> path == q
    requires Under(sub, Last(q)) == if path + [kids[0].id] <= q then Kids(blocks, Last(q)) else []
    requires Under(rest, Last(q)) == Expected(blocks, path, q, kids[1..])
    ensures Under([own] + sub + rest, Last(q)) == Expected(blocks, path, q, kids)
  {
    UnderParts(own, sub, rest, Last(q));
    ExpectedSplit(blocks, path, q, kids);
  }

  /** What of `kids` and below is under the end of `q`. */
  function Expected(blocks: seq<Block>, path: seq<Id>, q: seq<Id>, kids: seq<Block>): (e: seq<Block>)
    requires path <= q && q != []
  {
    if path == q then kids else if HasId(kids, q[|path|]) then Kids(blocks, Last(q)) else []
  }

  lemma ExpectedSplit(blocks: seq<Block>, path: seq<Id>, q: seq<Id>, kids: seq<Block>)
    requires path <= q && q != [] && kids != [] && UniqueIds(kids)
    ensures Expected(blocks, path, q, kids)
         == (if path == q then [kids[0]] else [])
          + (if path + [kids[0].id] <= q then Kids(blocks, Last(q)) else [])
          + Expected(blocks, path, q, kids[1..])
  {
    if path != q {
      HasIdSplit(kids, q[|path|]);
      assert path + [kids[0].id] <= q <==> q[|path|] == kids[0].id;
    }
  }

  lemma HasIdSplit(kids: seq<Block>, id: Id)
    requires kids != [] && UniqueIds(kids)
    ensures HasId(kids, id) <==> kids[0].id == id || HasId(kids[1..], id)
    ensures kids[0].id == id ==> !HasId(kids[1..], id)
  {
    assert kids == [kids[0]] + kids[1..];
    assert forall b <- kids[1..] :: b.id != kids[0].id;
    assert kids[0] in kids;
  }

  /** A block under the page, or the page itself. */
  ghost predicate Reachable(blocks: seq<Block>, page: Id, id: Id) {
    exists path :: Chain(blocks, page, path) && Last(path) == id
  }

  /**
   * The children of the page, and of every block under it, are listed exactly
   * once each, in position order with equal positions in the order received.
   */
  lemma SiblingsInOrder(blocks: seq<Block>, page: Id, p: Id, r: int)
    requires UniqueIds(blocks) && Rooted(blocks, page) && Reachable(blocks, page, p)
    ensures var listed := Under(StoredTree(blocks, page), p);
            && multiset(listed) == multiset(ChildrenOf(blocks, p))
            && (forall b :: b in listed <==> b in blocks && b.parent == Some(p))
            && InOrder(blocks, listed)
            && Ranked(listed) && OfRank(listed, r) == OfRank(ChildrenOf(blocks, p), r)
  {
    var q :| Chain(blocks, page, q) && Last(q) == p;
    ChainTo(blocks, page, q, 1);
    ListsChildren(blocks, page, [page], q);
    SortSorts(ChildrenOf(blocks, p), r);
    ChildrenAre(blocks, p);
    KidsInOrder(blocks, p);
  }

  /** Of two rows with the same parent, the first belongs first. */
  lemma RowsInOrder(blocks: seq<Block>, page: Id, i: nat, j: nat)
    requires UniqueIds(blocks) && Rooted(blocks, page) && i < j < |StoredTree(blocks, page)|
    requires StoredTree(blocks, page)[i].block.parent == StoredTree(blocks, page)[j].block.parent
    ensures ComesFirst(blocks, StoredTree(blocks, page)[i].block, StoredTree(blocks, page)[j].block)
  {
    var tree := StoredTree(blocks, page);
    assert tree[j] in tree;
    var chain := RowHasChain(blocks, page, [page], tree[j]);
    var p := Last(Init(chain));
    SiblingsInOrder(blocks, page, p, 0);
    UnderKeepsOrder(tree, i, j, p, blocks);
  }

  lemma {:induction false} UnderKeepsOrder(rows: seq<Row>, i: nat, j: nat, p: Id, blocks: seq<Block>)
    requires i < j < |rows| && rows[i].block.parent == rows[j].block.parent == Some(p)
    requires InOrder(blocks, Under(rows, p))
    ensures ComesFirst(blocks, rows[i].block, rows[j].block)
  {
    var rest := Under(rows[1..], p);
    var own := |Under(rows, p)| - |rest|;
    assert forall k :: 0 <= k < |rest| ==> Under(rows, p)[k + own] == rest[k];
    if i == 0 {
      UnderAt(rows[1..], j - 1, p);
      var k :| 0 <= k < |rest| && rest[k] == rows[j].block;
      assert Under(rows, p)[0] == rows[0].block;
    } else {
      UnderKeepsOrder(rows[1..], i - 1, j - 1, p, blocks);
    }
  }

  lemma {:induction false} UnderHas(rows: seq<Row>, p: Id, b: Block)
    ensures b in Under(rows, p) ==> exists row <- rows :: row.block == b
  {
    if rows != [] && b in Under(rows, p) {
      if b in Under(rows[1..], p) {
        UnderHas(rows[1..], p, b);
      } else {
        assert rows[0].block == b;
      }
    }
  }

  lemma {:induction false} UnderTwice(rows: seq<Row>, i: nat, j: nat, p: Id)
    requires i < j < |rows| && rows[i].block == rows[j].block && rows[j].block.parent == Some(p)
    ensures !UniqueIds(Under(rows, p))
  {
    var rest := Under(rows[1..], p);
    if i == 0 {
      UnderAt(rows[1..], j - 1, p);
      var k :| 0 <= k < |rest| && rest[k] == rows[j].block;
      assert Under(rows, p)[0] == rows[0].block && Under(rows, p)[k + 1] == rest[k];
    } else {
      UnderTwice(rows[1..], i - 1, j - 1, p);
      var a, b :| 0 <= a < b < |rest| && rest[a].id == rest[b].id;
      var d := |Under(rows, p)| - |rest|;
      assert Under(rows, p)[a + d] == rest[a] && Under(rows, p)[b + d] == rest[b];
    }
  }

  lemma {:induction false} UnderAt(rows: seq<Row>, j: nat, p: Id)
    requires j < |rows| && rows[j].block.parent == Some(p)
    ensures rows[j].block in Under(rows, p)
  {
    if j > 0 { UnderAt(rows[1..], j - 1, p); }
  }

  /**
   * The walk lists each block under the page exactly once and nothing else,
   * at the depth its chain of parents gives it.
   */
  lemma ListsEachOnce(blocks: seq<Block>, page: Id)
    requires UniqueIds(blocks) && Rooted(blocks, page)
    ensures var tree := StoredTree(blocks, page);
            && (forall row <- tree :: row.block in blocks && exists chain :: RowOf(blocks, page, [page], row, chain))
            && (forall path :: Chain(blocks, page, path) && |path| > 1 ==>
                  exists row <- tree :: row.block.id == Last(path) && row.depth == |path| - 2)
            && (forall i, j :: 0 <= i < j < |tree| ==> tree[i].block.id != tree[j].block.id)
  {
    var tree := StoredTree(blocks, page);
    forall row <- tree
      ensures row.block in blocks && exists chain :: RowOf(blocks, page, [page], row, chain)
    {
      var chain := RowHasChain(blocks, page, [page], row);
    }
    forall path | Chain(blocks, page, path) && |path| > 1
      ensures exists row <- tree :: row.block.id == Last(path) && row.depth == |path| - 2
    {
      IsListed(blocks, page, path);
    }
    forall i, j | 0 <= i < j < |tree|
      ensures tree[i].block.id != tree[j].block.id
    {
      ListedOnce(blocks, page, tree, i, j);
    }
  }

  lemma IsListed(blocks: seq<Block>, page: Id, path: seq<Id>)
    requires UniqueIds(blocks) && Rooted(blocks, page) && Chain(blocks, page, path) && |path| > 1
    ensures exists row <- StoredTree(blocks, page) :: row.block.id == Last(path) && row.depth == |path| - 2
  {
    var up := Init(path);
    ChainTo(blocks, page, up, 1);
    ListsChildren(blocks, page, [page], up);
    KidsAre(blocks, Last(up));
    var b :| b in blocks && b.id == Last(path) && b.parent == Some(Last(up));
    UnderHas(StoredTree(blocks, page), Last(up), b);
    var row :| row in StoredTree(blocks, page) && row.block == b;
    var chain := RowHasChain(blocks, page, [page], row);
    OneChain(blocks, page, chain, path);
  }

  lemma ListedOnce(blocks: seq<Block>, page: Id, tree: seq<Row>, i: nat, j: nat)
    requires UniqueIds(blocks) && Rooted(blocks, page) && tree == StoredTree(blocks, page)
    requires i < j < |tree|
    ensures tree[i].block.id != tree[j].block.id
  {
    assert tree[i] in tree && tree[j] in tree;
    var chain := RowHasChain(blocks, page, [page], tree[j]);
    var other := RowHasChain(blocks, page, [page], tree[i]);
    var up := Init(chain);
    ChainTo(blocks, page, up, 1);
    ListsChildren(blocks, page, [page], up);
    KidsAre(blocks, Last(up));
    if tree[i].block.id == tree[j].block.id {
      SameBlock(blocks, tree[i].block, tree[j].block);
      UnderTwice(tree, i, j, Last(up));
      assert false;
    }
  }

  lemma SameBlock(blocks: seq<Block>, a: Block, b: Block)
    requires UniqueIds(blocks) && a in blocks && b in blocks && a.id == b.id
    ensures a == b
  {
    var i :| 0 <= i < |blocks| && blocks[i] == a;
    var j :| 0 <= j < |blocks| && blocks[j] == b;
    assert i == j;
  }

  // ----------------------------------------------------- the way back up ---

  /** What a reader of the buffer sees of a row. */
  datatype Line = Line(id: Id, depth: nat)

  function Lines(rows: seq<Row>): (lines: seq<Line>) {
    seq(|rows|, i requires 0 <= i < |rows| => Line(rows[i].block.id, rows[i].depth))
  }

  /** The parent of each line, from a stack of the ids that are open on its level and above. */
  function Parents(open: seq<Id>, lines: seq<Line>): (parents: Option<seq<Id>>)
    decreases |lines|
  {
    if lines == [] then Some([])
    else if lines[0].depth >= |open| then None
    else
      var rest := Parents(open[..lines[0].depth + 1] + [lines[0].id], lines[1..]);
      if rest.None? then None else Some([open[lines[0].depth]] + rest.value)
  }

  /** The stack after the lines. */
  function Opened(open: seq<Id>, lines: seq<Line>): (after: seq<Id>)
    decreases |lines|
  {
    if lines == [] || lines[0].depth >= |open| then open
    else Opened(open[..lines[0].depth + 1] + [lines[0].id], lines[1..])
  }

  lemma {:induction false} ParentsAppend(open: seq<Id>, a: seq<Line>, b: seq<Line>)
    requires Parents(open, a).Some? && Parents(Opened(open, a), b).Some?
    ensures Parents(open, a + b) == Some(Parents(open, a).value + Parents(Opened(open, a), b).value)
    ensures Opened(open, a + b) == Opened(Opened(open, a), b)
    decreases |a|
  {
    if a == [] {
      assert a + b == b;
      var more := Parents(open, b).value;
      assert [] + more == more;
    } else {
      var next := open[..a[0].depth + 1] + [a[0].id];
      ParentsAppend(next, a[1..], b);
      assert (a + b)[1..] == a[1..] + b;
      var top, rest := [open[a[0].depth]], Parents(next, a[1..]).value;
      var more := Parents(Opened(next, a[1..]), b).value;
      assert Parents(open, a) == Some(top + rest) && Opened(open, a) == Opened(next, a[1..]);
      assert (a + b)[0] == a[0];
      assert Parents(open, a + b) == Some(top + (rest + more));
      Assoc(top, rest, more);
    }
  }

  /** Line `j` is the nearest line above line `i` that is one level up. */
  ghost predicate IsNearestAbove(lines: seq<Line>, i: nat, j: nat)
    requires i < |lines|
  {
    j < i && lines[j].depth + 1 == lines[i].depth && forall k :: j < k < i ==> lines[k].depth + 1 != lines[i].depth
  }

  /** No line above line `i` is one level up. */
  ghost predicate NoneAbove(lines: seq<Line>, i: nat)
    requires i < |lines|
  {
    forall j :: 0 <= j < i ==> lines[j].depth + 1 != lines[i].depth
  }

  /** The line `j` whose id is line `i`'s parent, or none above is. */
  ghost predicate IsAnswer(lines: seq<Line>, i: nat, j: Option<nat>)
    requires i < |lines|
  {
    if j.Some? then IsNearestAbove(lines, i, j.value) else NoneAbove(lines, i)
  }

  lemma {:induction false} StackAnswers(open: seq<Id>, lines: seq<Line>, i: nat, j: Option<nat>)
    requires Parents(open, lines).Some? && i < |lines| && IsAnswer(lines, i, j)
    ensures |Parents(open, lines).value| == |lines|
    ensures j.None? ==> lines[i].depth < |open|
    ensures Parents(open, lines).value[i] == if j.Some? then lines[j.value].id else open[lines[i].depth]
    decreases |lines|
  {
    var d, tail := lines[0].depth, lines[1..];
    var next := open[..d + 1] + [lines[0].id];
    assert Parents(open, lines).value == [open[d]] + Parents(next, tail).value;
    if i == 0 {
      ParentsLength(next, tail);
    } else {
      var k := AnswerInTail(lines, tail, i, j);
      StackAnswers(next, tail, i - 1, k);
      OnStack(open, d, lines[0].id, lines[i].depth);
      assert tail[i - 1] == lines[i];
    }
  }

  lemma {:induction false} ParentsLength(open: seq<Id>, lines: seq<Line>)
    requires Parents(open, lines).Some?
    ensures |Parents(open, lines).value| == |lines|
    decreases |lines|
  {
    if lines != [] { ParentsLength(open[..lines[0].depth + 1] + [lines[0].id], lines[1..]); }
  }

  /** The answer among the lines after the first, unless it is the first. */
  lemma AnswerInTail(lines: seq<Line>, tail: seq<Line>, i: nat, j: Option<nat>) returns (k: Option<nat>)
    requires 0 < i < |lines| && tail == lines[1..] && IsAnswer(lines, i, j)
    ensures IsAnswer(tail, i - 1, k)
    ensures k == if j.Some? && j.value > 0 then Some(j.value - 1) else None
    ensures j == Some(0) <==> k.None? && lines[0].depth + 1 == lines[i].depth
  {
    k := if j.Some? && j.value > 0 then Some(j.value - 1) else None;
    assert forall n :: 0 <= n < |tail| ==> tail[n] == lines[n + 1];
    if k.None? {
      forall n | 0 <= n < i - 1
        ensures tail[n].depth + 1 != tail[i - 1].depth
      {
        assert lines[n + 1].depth + 1 != lines[i].depth;
      }
    }
  }

  lemma OnStack(open: seq<Id>, d: nat, id: Id, e: nat)
    requires d < |open|
    ensures var next := open[..d + 1] + [id];
            e < |next| ==> next[e] == if e == d + 1 then id else open[e]
  {
  }

  /** The stack gives each line the nearest line above that is one level up, and where there is none what was open there before. */
  lemma StackIsNearest(open: seq<Id>, lines: seq<Line>, i: nat)
    requires Parents(open, lines).Some? && i < |lines|
    ensures var parents := Parents(open, lines).value;
            && |parents| == |lines|
            && (forall j: nat :: IsNearestAbove(lines, i, j) ==> parents[i] == lines[j].id)
            && (NoneAbove(lines, i) ==> lines[i].depth < |open| && parents[i] == open[lines[i].depth])
  {
    ParentsLength(open, lines);
    forall j: nat | IsNearestAbove(lines, i, j)
      ensures Parents(open, lines).value[i] == lines[j].id
    {
      StackAnswers(open, lines, i, Some(j));
    }
    if NoneAbove(lines, i) { StackAnswers(open, lines, i, None); }
  }

  /** The parents the rows came with. */
  ghost predicate AreParents(parents: seq<Id>, rows: seq<Row>) {
    |parents| == |rows| && forall i :: 0 <= i < |rows| ==> rows[i].block.parent == Some(parents[i])
  }

  /** What reading the rows below `path` does to a stack that has `path` at its bottom. */
  ghost predicate Recovered(open: seq<Id>, path: seq<Id>, rows: seq<Row>) {
    && Parents(open, Lines(rows)).Some?
    && AreParents(Parents(open, Lines(rows)).value, rows)
    && path <= Opened(open, Lines(rows))
  }

  lemma RecoveredAppend(open: seq<Id>, path: seq<Id>, a: seq<Row>, b: seq<Row>)
    requires Recovered(open, path, a) && Recovered(Opened(open, Lines(a)), path, b)
    ensures Recovered(open, path, a + b)
  {
    var la, lb := Lines(a), Lines(b);
    LinesAppend(a, b);
    ParentsAppend(open, la, lb);
    AreParentsAppend(Parents(open, la).value, a, Parents(Opened(open, la), lb).value, b);
  }

  lemma LinesAppend(a: seq<Row>, b: seq<Row>)
    ensures Lines(a + b) == Lines(a) + Lines(b)
  {
  }

  lemma AreParentsAppend(p: seq<Id>, a: seq<Row>, q: seq<Id>, b: seq<Row>)
    requires AreParents(p, a) && AreParents(q, b)
    ensures AreParents(p + q, a + b)
  {
  }

  lemma RecoveredOne(open: seq<Id>, path: seq<Id>, row: Row)
    requires path <= open && path != [] && row.depth == |path| - 1 && row.block.parent == Some(Last(path))
    ensures Recovered(open, path, [row]) && Opened(open, Lines([row])) == path + [row.block.id]
  {
    var lines := Lines([row]);
    assert open[..row.depth + 1] == path;
    assert lines[1..] == [];
    assert Parents(open, lines) == Some([open[row.depth]] + []);
  }

  lemma {:induction false} WalkIsRecovered(blocks: seq<Block>, page: Id, path: seq<Id>, open: seq<Id>)
    requires UniqueIds(blocks) && Rooted(blocks, page) && Chain(blocks, page, path) && path <= open
    ensures Recovered(open, path, Below(blocks, page, path))
    decreases Ids(blocks) - Members(path), 1, 0
  {
    KidsAre(blocks, Last(path));
    KidsAreRecovered(blocks, page, path, open, Kids(blocks, Last(path)));
  }

  lemma {:induction false} KidsAreRecovered(blocks: seq<Block>, page: Id, path: seq<Id>, open: seq<Id>, kids: seq<Block>)
    requires UniqueIds(blocks) && Rooted(blocks, page) && Chain(blocks, page, path) && path <= open
    requires forall b <- kids :: b in blocks && b.parent == Some(Last(path))
    ensures Recovered(open, path, BelowKids(blocks, page, path, kids))
    decreases Ids(blocks) - Members(path), 0, |kids|
  {
    if kids != [] {
      var c := kids[0].id;
      BelowKidsIs(blocks, page, path, kids);
      var own, sub := [Row(kids[0], |path| - 1)], Below(blocks, page, path + [c]);
      RecoveredOne(open, path, own[0]);
      WalkIsRecovered(blocks, page, path + [c], path + [c]);
      RecoveredAppend(open, path, own, sub);
      KidsAreRecovered(blocks, page, path, Opened(open, Lines(own + sub)), kids[1..]);
      RecoveredAppend(open, path, own + sub, BelowKids(blocks, page, path, kids[1..]));
    }
  }

  /** Rebuilding parents from ids and depths undoes the walk. */
  lemma ParentsRebuilt(blocks: seq<Block>, page: Id)
    requires UniqueIds(blocks) && Rooted(blocks, page)
    ensures var tree := StoredTree(blocks, page);
            var parents := Parents([page], Lines(tree));
            parents.Some? && AreParents(parents.value, tree)
  {
    WalkIsRecovered(blocks, page, [page], [page]);
  }

  lemma {:induction false} NearestExists(lines: seq<Line>, i: nat, n: nat) returns (j: nat)
    requires n <= i < |lines| && exists k :: 0 <= k < n && lines[k].depth + 1 == lines[i].depth
    requires forall k :: n <= k < i ==> lines[k].depth + 1 != lines[i].depth
    ensures IsNearestAbove(lines, i, j)
    decreases n
  {
    if lines[n - 1].depth + 1 == lines[i].depth {
      j := n - 1;
    } else {
      j := NearestExists(lines, i, n - 1);
    }
  }

  /**
   * So the parent of a row is the nearest row above that is one level up; at
   * depth 0, where there is no such row, it is the page.
   */
  lemma NearestAboveIsParent(blocks: seq<Block>, page: Id, i: nat)
    requires UniqueIds(blocks) && Rooted(blocks, page) && i < |StoredTree(blocks, page)|
    ensures var tree := StoredTree(blocks, page);
            if tree[i].depth == 0 then tree[i].block.parent == Some(page)
            else exists j: nat :: IsNearestAbove(Lines(tree), i, j) && tree[i].block.parent == Some(tree[j].block.id)
  {
    var lines := Lines(StoredTree(blocks, page));
    ParentsRebuilt(blocks, page);
    StackIsNearest([page], lines, i);
    if lines[i].depth > 0 {
      assert !NoneAbove(lines, i);
      var j := NearestExists(lines, i, i);
    }
  }

  /** So ids and depths determine the parent map: two block lists that show the same lines have the same parents. */
  lemma LinesDetermineParents(a: seq<Block>, b: seq<Block>, page: Id, i: nat)
    requires UniqueIds(a) && Rooted(a, page) && UniqueIds(b) && Rooted(b, page)
    requires Lines(StoredTree(a, page)) == Lines(StoredTree(b, page)) && i < |StoredTree(a, page)|
    ensures i < |StoredTree(b, page)|
    ensures StoredTree(a, page)[i].block.id == StoredTree(b, page)[i].block.id
    ensures StoredTree(a, page)[i].block.parent == StoredTree(b, page)[i].block.parent
  {
    ParentsRebuilt(a, page);
    ParentsRebuilt(b, page);
    assert |Lines(StoredTree(a, page))| == |Lines(StoredTree(b, page))|;
    assert Lines(StoredTree(a, page))[i] == Lines(StoredTree(b, page))[i];
  }

  // ---------------------------------------------------------- termination ---

  /** The ids after the page on a chain are different blocks, so there are no more of them than blocks. */
  lemma {:induction false} ChainsAreShort(blocks: seq<Block>, page: Id, path: seq<Id>)
    requires UniqueIds(blocks) && Rooted(blocks, page) && Chain(blocks, page, path)
    ensures Members(path) <= Ids(blocks) + {page}
    ensures |path| == |Members(path)| <= |Ids(blocks)| + 1
    decreases |path|
  {
    if |path| == 1 {
      assert Members(path) == {page};
    } else {
      var up, c := Init(path), Last(path);
      ChainsAreShort(blocks, page, up);
      NoReturn(blocks, page, up, c);
      assert path == up + [c];
      assert Members(path) == Members(up) + {c};
    }
    SizeOfSubset(Members(path), Ids(blocks) + {page});
  }

  lemma {:induction false} SizeOfSubset<T>(a: set<T>, b: set<T>)
    requires a <= b
    ensures |a| <= |b|
  {
    if x :| x in a {
      SizeOfSubset(a - {x}, b - {x});
    }
  }

  /** Below a page that is below itself, chains go on for ever. */
  lemma {:induction false} ChainsGoOn(blocks: seq<Block>, page: Id, loop: seq<Id>, n: nat) returns (path: seq<Id>)
    requires Chain(blocks, page, loop) && HasEdge(blocks, Last(loop), page)
    ensures Chain(blocks, page, path) && |path| > n && Last(path) == Last(loop)
  {
    if n == 0 {
      path := loop;
    } else {
      path := ChainsGoOn(blocks, page, loop, n - 1);
      path := FollowAgain(blocks, page, path, loop);
    }
  }

  lemma {:induction false} FollowAgain(blocks: seq<Block>, page: Id, path: seq<Id>, loop: seq<Id>) returns (longer: seq<Id>)
    requires Chain(blocks, page, path) && Chain(blocks, page, loop) && HasEdge(blocks, Last(path), page)
    ensures Chain(blocks, page, longer) && |longer| > |path| && Last(longer) == Last(loop)
    decreases |loop|
  {
    if |loop| == 1 {
      ChainSnoc(blocks, page, path, page);
      longer := path + [page];
    } else {
      var up := FollowAgain(blocks, page, path, Init(loop));
      ChainSnoc(blocks, page, up, Last(loop));
      longer := up + [Last(loop)];
    }
  }

  /**
   * The chains from the page are bounded exactly when the page is not below
   * itself. Cycles among blocks the page does not reach do not matter.
   */
  lemma ChainsEnd(blocks: seq<Block>, page: Id)
    requires UniqueIds(blocks)
    ensures (exists bound: nat :: Bounded(blocks, page, bound)) <==> Rooted(blocks, page)
    ensures Rooted(blocks, page) ==> Bounded(blocks, page, |Ids(blocks)| + 1)
  {
    if Rooted(blocks, page) {
      forall path | Chain(blocks, page, path)
        ensures |path| <= |Ids(blocks)| + 1
      {
        ChainsAreShort(blocks, page, path);
      }
      assert Bounded(blocks, page, |Ids(blocks)| + 1);
    } else {
      var loop :| Chain(blocks, page, loop) && HasEdge(blocks, Last(loop), page);
      forall bound: nat
        ensures !Bounded(blocks, page, bound)
      {
        var path := ChainsGoOn(blocks, page, loop, bound);
      }
    }
  }

  ghost predicate Bounded(blocks: seq<Block>, page: Id, bound: nat) {
    forall path :: Chain(blocks, page, path) ==> |path| <= bound
  }

  /** The walk as it is written, on any blocks, to a depth of `fuel` calls: none when that is not enough. */
  function FuelWalk(blocks: seq<Block>, parentId: Id, depth: nat, fuel: nat): (rows: Option<seq<Row>>)
    decreases fuel, 0
  {
    if fuel == 0 then None else FuelKids(blocks, Kids(blocks, parentId), depth, fuel - 1)
  }

  function FuelKids(blocks: seq<Block>, kids: seq<Block>, depth: nat, fuel: nat): (rows: Option<seq<Row>>)
    decreases fuel, |kids|
  {
    if kids == [] then Some([])
    else
      var sub := FuelWalk(blocks, kids[0].id, depth + 1, fuel);
      var rest := FuelKids(blocks, kids[1..], depth, fuel);
      if sub.None? || rest.None? then None else Some([Row(kids[0], depth)] + sub.value + rest.value)
  }

  lemma {:induction false} KidReturned(blocks: seq<Block>, kids: seq<Block>, depth: nat, fuel: nat, b: Block)
    requires FuelKids(blocks, kids, depth, fuel).Some? && b in kids
    ensures FuelWalk(blocks, b.id, depth + 1, fuel).Some?
    decreases |kids|
  {
    if b != kids[0] { KidReturned(blocks, kids[1..], depth, fuel, b); }
  }

  lemma {:induction false} ChainFromSecond(blocks: seq<Block>, page: Id, path: seq<Id>)
    requires Chain(blocks, page, path) && |path| > 1
    ensures Chain(blocks, path[1], path[1..]) && path[0] == page
    decreases |path|
  {
    if |path| > 2 {
      ChainFromSecond(blocks, page, Init(path));
      assert Init(path)[1] == path[1] && Init(path)[1..] == Init(path[1..]);
    }
  }

  /** The second block of a chain is a child of the first, and the chain goes on from there. */
  lemma SecondIsKid(blocks: seq<Block>, p: Id, path: seq<Id>) returns (b: Block)
    requires UniqueIds(blocks) && Chain(blocks, p, path) && |path| > 1
    ensures b in Kids(blocks, p) && b.id == path[1] && Chain(blocks, b.id, path[1..])
  {
    ChainFromSecond(blocks, p, path);
    ChainTo(blocks, p, path, 1);
    KidsAre(blocks, p);
    b :| b in blocks && b.id == path[1] && b.parent == Some(p);
  }

  lemma OneCallDown(blocks: seq<Block>, p: Id, depth: nat, fuel: nat, kids: seq<Block>)
    requires kids == Kids(blocks, p)
    ensures FuelWalk(blocks, p, depth, fuel) == if fuel == 0 then None else FuelKids(blocks, kids, depth, fuel - 1)
  {
  }

  /** A walk that returns has made a call for every step of every chain. */
  lemma {:induction false} FuelCoversChains(blocks: seq<Block>, p: Id, depth: nat, fuel: nat, path: seq<Id>)
    requires UniqueIds(blocks) && FuelWalk(blocks, p, depth, fuel).Some? && Chain(blocks, p, path)
    ensures |path| <= fuel
    decreases |path|
  {
    OneCallDown(blocks, p, depth, fuel, Kids(blocks, p));
    if |path| > 1 {
      var b := SecondIsKid(blocks, p, path);
      KidReturned(blocks, Kids(blocks, p), depth, fuel - 1, b);
      FuelCoversChains(blocks, b.id, depth + 1, fuel - 1, path[1..]);
    }
  }

  /** The children one call goes through, in both forms of the walk. */
  lemma OneLevel(blocks: seq<Block>, page: Id, path: seq<Id>, fuel: nat) returns (kids: seq<Block>)
    requires UniqueIds(blocks) && Rooted(blocks, page) && Chain(blocks, page, path) && fuel > 0
    ensures forall b <- kids :: b in blocks && b.parent == Some(Last(path))
    ensures Below(blocks, page, path) == BelowKids(blocks, page, path, kids)
    ensures FuelWalk(blocks, Last(path), |path| - 1, fuel) == FuelKids(blocks, kids, |path| - 1, fuel - 1)
  {
    kids := Kids(blocks, Last(path));
    KidsAre(blocks, Last(path));
  }

  /** How many blocks a walk that has come to the end of `path` can still come to. */
  function Room(blocks: seq<Block>, path: seq<Id>): (n: nat) { |Ids(blocks) - Members(path)| }

  /** On a rooted page the walk returns the tree with a call more than there are blocks. */
  lemma {:induction false} FuelSuffices(blocks: seq<Block>, page: Id, path: seq<Id>, fuel: nat, room: nat, rows: seq<Row>)
    requires UniqueIds(blocks) && Rooted(blocks, page) && Chain(blocks, page, path)
    requires room == Room(blocks, path) && fuel > room && rows == Below(blocks, page, path)
    ensures FuelWalk(blocks, Last(path), |path| - 1, fuel) == Some(rows)
    decreases room, 1, 0
  {
    var kids := OneLevel(blocks, page, path, fuel);
    KidsFuelSuffices(blocks, page, path, fuel - 1, kids, room, rows);
  }

  lemma {:induction false} KidsFuelSuffices(blocks: seq<Block>, page: Id, path: seq<Id>, fuel: nat, kids: seq<Block>, room: nat,
                                            rows: seq<Row>)
    requires UniqueIds(blocks) && Rooted(blocks, page) && Chain(blocks, page, path)
    requires forall b <- kids :: b in blocks && b.parent == Some(Last(path))
    requires room == Room(blocks, path) && fuel >= room && rows == BelowKids(blocks, page, path, kids)
    ensures FuelKids(blocks, kids, |path| - 1, fuel) == Some(rows)
    decreases room, 0, |kids|
  {
    if kids != [] {
      var down := path + [kids[0].id];
      BelowKidsIs(blocks, page, path, kids);
      assert Init(down) == path && HasEdge(blocks, Last(path), Last(down));
      var sub, rest := Below(blocks, page, down), BelowKids(blocks, page, path, kids[1..]);
      FuelSuffices(blocks, page, down, fuel, Room(blocks, down), sub);
      KidsFuelSuffices(blocks, page, path, fuel, kids[1..], room, rest);
      KidsOneMore(blocks, kids, |path| - 1, fuel, sub, rest);
    }
  }

  lemma KidsOneMore(blocks: seq<Block>, kids: seq<Block>, depth: nat, fuel: nat, sub: seq<Row>, rest: seq<Row>)
    requires kids != [] && FuelWalk(blocks, kids[0].id, depth + 1, fuel) == Some(sub)
    requires FuelKids(blocks, kids[1..], depth, fuel) == Some(rest)
    ensures FuelKids(blocks, kids, depth, fuel) == Some([Row(kids[0], depth)] + sub + rest)
  {
  }

  /**
   * The walk returns, on any blocks with different ids, if and only if the page
   * is not below itself; and then it returns the tree, nesting its calls at most
   * one deeper than there are blocks.
   */
  lemma WalkEnds(blocks: seq<Block>, page: Id)
    requires UniqueIds(blocks)
    ensures (exists fuel: nat :: FuelWalk(blocks, page, 0, fuel).Some?) <==> Rooted(blocks, page)
    ensures Rooted(blocks, page) ==> FuelWalk(blocks, page, 0, |Ids(blocks)| + 1) == Some(StoredTree(blocks, page))
  {
    ChainsEnd(blocks, page);
    if Rooted(blocks, page) {
      SizeOfSubset(Ids(blocks) - Members([page]), Ids(blocks));
      FuelSuffices(blocks, page, [page], |Ids(blocks)| + 1, Room(blocks, [page]), StoredTree(blocks, page));
    } else if fuel: nat :| FuelWalk(blocks, page, 0, fuel).Some? {
      forall path | Chain(blocks, page, path)
        ensures |path| <= fuel
      {
        FuelCoversChains(blocks, page, 0, fuel, path);
      }
      assert Bounded(blocks, page, fuel);
    }
  }
}
