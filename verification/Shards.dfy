/** Round-robin dealing of the spec files, and the contiguous slices a shard runs. */
module Shards {
  import opened Arithmetic
  import opened Basics

  /** `files.filter((_, i) => i % n === shard)`, starting at index `from`. */
  function Group<T>(files: seq<T>, n: nat, shard: nat, from: nat): (g: seq<T>)
    requires n > 0 && from <= |files|
    decreases |files| - from
  {
    if from == |files| then []
    else (if from % n == shard then [files[from]] else []) + Group(files, n, shard, from + 1)
  }

  /** The groups from `shard` on, each as `Array.from` makes it. */
  function Groups<T>(files: seq<T>, n: nat, shard: nat): (gs: seq<seq<T>>)
    requires n > 0 && shard <= n
    decreases n - shard
  {
    if shard == n then [] else [Group(files, n, shard, 0)] + Groups(files, n, shard + 1)
  }

  /** `dealtSpecs`. */
  function Dealt<T>(files: seq<T>, n: nat): (specs: seq<T>) {
    if n == 0 then [] else Concat(Groups(files, n, 0))
  }

  /** No shards are dealt nothing. */
  lemma NoShards<T>(files: seq<T>)
    ensures Dealt(files, 0) == []
  {
  }

  // ----------------------------------------------------------- one group ---

  /** How many of the indices below `length` are `shard` modulo `n`. */
  function GroupSize(length: nat, n: nat, shard: nat): (k: nat)
    requires n > 0 && shard < n
  {
    length / n + if shard < length % n then 1 else 0
  }

  lemma DivisionStep(length: nat, n: nat, shard: nat)
    requires n > 0 && shard < n
    ensures GroupSize(length + 1, n, shard) == GroupSize(length, n, shard) + if length % n == shard then 1 else 0
  {
    var q, r := length / n, length % n;
    if r + 1 < n {
      DivisionIs(length + 1, n, q, r + 1);
    } else {
      assert (q + 1) * n == q * n + n;
      DivisionIs(length + 1, n, q + 1, 0);
    }
  }

  /** How many files a group takes from index `from` on. */
  lemma {:induction false} GroupLength<T>(files: seq<T>, n: nat, shard: nat, from: nat)
    requires n > 0 && shard < n && from <= |files|
    ensures |Group(files, n, shard, from)| == GroupSize(|files|, n, shard) - GroupSize(from, n, shard)
    decreases |files| - from
  {
    if from < |files| {
      GroupLength(files, n, shard, from + 1);
      DivisionStep(from, n, shard);
    }
  }

  /** A group holds the files of its residue class, in order: file `i` is its `i / n`-th. */
  lemma {:induction false} GroupHas<T>(files: seq<T>, n: nat, shard: nat, from: nat, i: nat, k: int)
    requires n > 0 && shard < n && from <= i < |files| && i % n == shard
    requires k == i / n - GroupSize(from, n, shard)
    ensures 0 <= k < |Group(files, n, shard, from)| && Group(files, n, shard, from)[k] == files[i]
    decreases |files| - from
  {
    if from < i {
      var own := if from % n == shard then 1 else 0;
      DivisionStep(from, n, shard);
      GroupHas(files, n, shard, from + 1, i, k - own);
      GroupSkips(files, n, shard, from, own, k);
    }
  }

  lemma GroupSkips<T>(files: seq<T>, n: nat, shard: nat, from: nat, own: nat, k: int)
    requires n > 0 && from < |files| && own == if from % n == shard then 1 else 0
    requires 0 <= k - own < |Group(files, n, shard, from + 1)|
    ensures 0 <= k < |Group(files, n, shard, from)|
    ensures Group(files, n, shard, from)[k] == Group(files, n, shard, from + 1)[k - own]
  {
  }

  // ---------------------------------------------------------- all groups ---

  /** Where group `shard` starts: the sizes of the groups before it. */
  function Start(length: nat, n: nat, shard: nat): (s: nat)
    requires n > 0 && shard <= n
  {
    if shard == 0 then 0 else Start(length, n, shard - 1) + GroupSize(length, n, shard - 1)
  }

  lemma {:induction false} StartIs(length: nat, n: nat, shard: nat)
    requires n > 0 && shard <= n
    ensures Start(length, n, shard) == shard * (length / n) + Min(shard, length % n)
  {
    if shard > 0 {
      StartIs(length, n, shard - 1);
      assert shard * (length / n) == (shard - 1) * (length / n) + length / n;
    }
  }

  /** The groups together are as long as the list. */
  lemma StartAll(length: nat, n: nat)
    requires n > 0
    ensures Start(length, n, n) == length
  {
    StartIs(length, n, n);
    assert n * (length / n) + length % n == length;
  }

  lemma NoneBelow(n: nat, shard: nat)
    requires n > 0 && shard < n
    ensures GroupSize(0, n, shard) == 0
  {
  }

  lemma {:induction false} GroupsAt<T>(files: seq<T>, n: nat, from: nat, shard: nat, g: seq<T>, at: int)
    requires n > 0 && from <= shard < n && g == Group(files, n, shard, 0)
    requires at == Start(|files|, n, shard) - Start(|files|, n, from)
    ensures var all := Concat(Groups(files, n, from));
            0 <= at && at + |g| <= |all| && all[at..at + |g|] == g
    decreases shard - from
  {
    FirstGroup(files, n, from);
    var first, rest := Group(files, n, from, 0), Concat(Groups(files, n, from + 1));
    if from < shard {
      GroupsAt(files, n, from + 1, shard, g, at - |first|);
      SliceAfter(first, rest, at - |first|, at - |first| + |g|);
    }
  }

  lemma FirstGroup<T>(files: seq<T>, n: nat, from: nat)
    requires n > 0 && from < n
    ensures Concat(Groups(files, n, from)) == Group(files, n, from, 0) + Concat(Groups(files, n, from + 1))
    ensures Start(|files|, n, from + 1) == Start(|files|, n, from) + |Group(files, n, from, 0)|
  {
    GroupLength(files, n, from, 0);
    NoneBelow(n, from);
    assert Groups(files, n, from)[1..] == Groups(files, n, from + 1);
  }

  lemma SliceAfter<T>(a: seq<T>, b: seq<T>, from: nat, to: nat)
    requires from <= to <= |b|
    ensures (a + b)[|a| + from..|a| + to] == b[from..to]
  {
  }

  lemma {:induction false} DealtLength<T>(files: seq<T>, n: nat, shard: nat)
    requires n > 0 && shard <= n
    ensures |Concat(Groups(files, n, shard))| == |files| - Start(|files|, n, shard)
    decreases n - shard
  {
    if shard == n {
      StartAll(|files|, n);
    } else {
      GroupLength(files, n, shard, 0);
      NoneBelow(n, shard);
      DealtLength(files, n, shard + 1);
      assert Groups(files, n, shard)[1..] == Groups(files, n, shard + 1);
    }
  }

  /** Where file `i` lands, in closed form. */
  function Place(length: nat, n: nat, i: nat): (p: nat)
    requires n > 0
  {
    Start(length, n, i % n) + i / n
  }

  lemma PlaceClosedForm(length: nat, n: nat, i: nat)
    requires n > 0
    ensures Place(length, n, i) == (i % n) * (length / n) + Min(i % n, length % n) + i / n
  {
    StartIs(length, n, i % n);
  }

  /** The dealt list holds file `i` at its place, and nothing else. */
  lemma DealtAt<T>(files: seq<T>, n: nat, i: nat)
    requires n > 0 && i < |files|
    ensures |Dealt(files, n)| == |files|
    ensures Place(|files|, n, i) < |files| && Dealt(files, n)[Place(|files|, n, i)] == files[i]
  {
    DealtLength(files, n, 0);
    NoneBelow(n, i % n);
    GroupHas(files, n, i % n, 0, i, i / n);
    GroupsAt(files, n, 0, i % n, Group(files, n, i % n, 0), Start(|files|, n, i % n) - Start(|files|, n, 0));
    var g, at := Group(files, n, i % n, 0), Start(|files|, n, i % n);
    assert Dealt(files, n)[at..at + |g|][i / n] == Dealt(files, n)[at + i / n];
  }

  /** Every place below the end of group `shard` is some file's. */
  lemma {:induction false} FileAtPlace(length: nat, n: nat, p: nat, shard: nat) returns (i: nat)
    requires n > 0 && shard <= n && p < Start(length, n, shard)
    ensures i < length && Place(length, n, i) == p
    decreases shard
  {
    var start := Start(length, n, shard - 1);
    if p < start {
      i := FileAtPlace(length, n, p, shard - 1);
    } else {
      i := MemberOf(length, n, shard - 1, p - start);
    }
  }

  /** The `k`-th file of group `shard`. */
  lemma MemberOf(length: nat, n: nat, shard: nat, k: nat) returns (i: nat)
    requires n > 0 && shard < n && k < GroupSize(length, n, shard)
    ensures i < length && i % n == shard && i / n == k
  {
    i := k * n + shard;
    DivisionIs(i, n, k, shard);
    var q, r := length / n, length % n;
    assert length == q * n + r;
    if k < q {
      MulAtLeast(q - k, n);
      assert (q - k) * n == q * n - k * n;
    }
  }

  /** Two files never land on the same place. */
  lemma PlaceIsInjective(length: nat, n: nat, i: nat, j: nat)
    requires n > 0 && i < j < length
    ensures Place(length, n, i) != Place(length, n, j)
  {
    var indices := seq(length, k => k);
    DealtAt(indices, n, i);
    DealtAt(indices, n, j);
  }

  ghost predicate IsPlaceOfSome<T>(files: seq<T>, n: nat, p: nat)
    requires n > 0
  {
    exists i: nat :: i < |files| && Place(|files|, n, i) == p && p < |Dealt(files, n)| && Dealt(files, n)[p] == files[i]
  }

  /**
   * Dealing is a permutation: places and files correspond one to one, so any
   * cut of the dealt list into contiguous slices runs every file exactly once.
   */
  lemma DealtIsPermutation<T>(files: seq<T>, n: nat)
    requires n > 0
    ensures |Dealt(files, n)| == |files|
    ensures forall p :: 0 <= p < |files| ==> IsPlaceOfSome(files, n, p)
    ensures forall i, j :: 0 <= i < j < |files| ==> Place(|files|, n, i) != Place(|files|, n, j)
    ensures forall i :: 0 <= i < |files| ==> 0 <= Place(|files|, n, i) < |files|
  {
    DealtLength(files, n, 0);
    forall p | 0 <= p < |files|
      ensures IsPlaceOfSome(files, n, p)
    {
      StartAll(|files|, n);
      var i := FileAtPlace(|files|, n, p, n);
      DealtAt(files, n, i);
    }
    forall i, j | 0 <= i < j < |files|
      ensures Place(|files|, n, i) != Place(|files|, n, j)
    {
      PlaceIsInjective(|files|, n, i, j);
    }
    forall i | 0 <= i < |files|
      ensures 0 <= Place(|files|, n, i) < |files|
    {
      DealtAt(files, n, i);
    }
  }

  /** Contiguous slices, by where each begins; together they cover the list. */
  ghost predicate Slicing(cuts: seq<nat>, length: nat) {
    && |cuts| > 0 && cuts[0] == 0 && cuts[|cuts| - 1] == length
    && forall i, j :: 0 <= i <= j < |cuts| ==> cuts[i] <= cuts[j]
  }

  /** However the dealt list is cut into contiguous slices, each file is run by exactly one slice. */
  lemma EachFileRunsOnce<T>(files: seq<T>, n: nat, cuts: seq<nat>, i: nat) returns (slice: nat)
    requires n > 0 && Slicing(cuts, |files|) && i < |files|
    ensures slice + 1 < |cuts| && cuts[slice] <= Place(|files|, n, i) < cuts[slice + 1]
    ensures forall s :: 0 <= s < |cuts| - 1 && s != slice ==> !(cuts[s] <= Place(|files|, n, i) < cuts[s + 1])
  {
    DealtAt(files, n, i);
    var p := Place(|files|, n, i);
    slice := 0;
    while cuts[slice + 1] <= p
      invariant slice + 1 < |cuts| && cuts[slice] <= p
      decreases |cuts| - slice
    {
      assert slice + 1 != |cuts| - 1;
      slice := slice + 1;
    }
    forall s | 0 <= s < |cuts| - 1 && s != slice
      ensures !(cuts[s] <= p < cuts[s + 1])
    {
      if s < slice { assert cuts[s + 1] <= cuts[slice]; } else { assert cuts[slice + 1] <= cuts[s]; }
    }
  }

  /**
   * Slices of the group sizes hold the residue classes, so files next to each
   * other in name order, up to `n` of them, run in different shards.
   */
  lemma NeighboursApart<T>(files: seq<T>, n: nat, i: nat, j: nat)
    requires n > 0 && i < |files| && j < |files|
    ensures Start(|files|, n, i % n) <= Place(|files|, n, i) < Start(|files|, n, i % n + 1)
    ensures i < j < i + n ==> i % n != j % n
  {
    NoneBelow(n, i % n);
    GroupLength(files, n, i % n, 0);
    GroupHas(files, n, i % n, 0, i, i / n);
    if i < j < i + n && i % n == j % n {
      SameResidue(n, i, j);
    }
  }

  lemma SameResidue(n: nat, i: nat, j: nat)
    requires n > 0 && i % n == j % n && i <= j < i + n
    ensures i == j
  {
    assert i == i / n * n + i % n && j == j / n * n + j % n;
    assert (j / n - i / n) * n == j / n * n - i / n * n;
    SmallMultiple(j / n - i / n, n);
  }
}
