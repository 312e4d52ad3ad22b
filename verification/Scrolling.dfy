/** Reading every row of a virtualized list by scrolling it end to end. Lengths are real pixels. */
module Scrolling {
  import opened Basics

  /** Row `i` reaches from `edges[i]` to `edges[i + 1]`. */
  datatype Layout = Layout(viewport: real, edges: seq<real>)

  /** The rows tile the list from its top, each over one pixel high. */
  ghost predicate Tiled(l: Layout) {
    && l.viewport >= 0.0 && |l.edges| > 0 && l.edges[0] == 0.0
    && forall i :: 0 <= i < |l.edges| - 1 ==> l.edges[i + 1] > l.edges[i] + 1.0
  }

  function Rows(l: Layout): (n: nat)
    requires |l.edges| > 0
  {
    |l.edges| - 1
  }

  function RealMax(a: real, b: real): (m: real) { if a < b then b else a }

  function RealMin(a: real, b: real): (m: real) { if a < b then a else b }

  function ScrollHeight(l: Layout): (h: real)
    requires |l.edges| > 0
  {
    RealMax(l.edges[Rows(l)], l.viewport)
  }

  /** What one turn of the loop adds to `scrollTop`. */
  function Stride(l: Layout): (d: real) { RealMax(1.0, l.viewport / 2.0) }

  /** Assigning `scrollTop` clamps it to the scroll range. */
  function Clamp(l: Layout, top: real): (t: real)
    requires |l.edges| > 0
  {
    RealMin(RealMax(top, 0.0), ScrollHeight(l) - l.viewport)
  }

  /** `scrollTop` in turn `k`. */
  function ScrollAt(l: Layout, k: nat): (top: real)
    requires |l.edges| > 0
  {
    if k == 0 then 0.0 else Clamp(l, ScrollAt(l, k - 1) + Stride(l))
  }

  /** The loop's end test. */
  predicate AtEnd(l: Layout, top: real)
    requires |l.edges| > 0
  {
    top + l.viewport >= ScrollHeight(l) - 1.0
  }

  /** Row `i` meets the viewport. */
  predicate Meets(l: Layout, top: real, i: nat)
    requires |l.edges| > 0 && i < Rows(l)
  {
    l.edges[i] < top + l.viewport && l.edges[i + 1] > top
  }

  /** A virtualizer: which rows are mounted at a scroll position. */
  type Virtualizer = real -> set<nat>

  /** It mounts every row that meets the viewport, and perhaps some around it. */
  ghost predicate MountsWhatShows(l: Layout, mounted: Virtualizer)
    requires |l.edges| > 0
  {
    forall top, i: nat :: (i in mounted(top) ==> i < Rows(l)) && (i < Rows(l) && Meets(l, top, i) ==> i in mounted(top))
  }

  /** It mounts no others. */
  ghost predicate MountsNoMore(l: Layout, mounted: Virtualizer)
    requires |l.edges| > 0
  {
    forall top, i: nat :: i in mounted(top) ==> i < Rows(l) && Meets(l, top, i)
  }

  const STEPS: nat := 500

  /** The turns the loop makes before `k`: none after the end test holds. */
  predicate Running(l: Layout, k: nat)
    requires |l.edges| > 0
  {
    k == 0 || (Running(l, k - 1) && !AtEnd(l, ScrollAt(l, k - 1)))
  }

  /** The rows mounted in some turn before `k`. */
  function SeenBefore(l: Layout, mounted: Virtualizer, k: nat): (rows: set<nat>)
    requires |l.edges| > 0
  {
    if k == 0 then {}
    else SeenBefore(l, mounted, k - 1) + if Running(l, k - 1) then mounted(ScrollAt(l, k - 1)) else {}
  }

  /** The entries below `n`, sorted by index. */
  function InOrder(seen: map<nat, string>, n: nat): (texts: seq<string>) {
    if n == 0 then [] else InOrder(seen, n - 1) + if n - 1 in seen then [seen[n - 1]] else []
  }

  /** Rows with their texts, under their indices. */
  function TextsOf(rows: set<nat>, texts: seq<string>): (entries: map<nat, string>) {
    map i | i in rows && i < |texts| :: texts[i]
  }

  lemma TextsOfBoth(a: set<nat>, b: set<nat>, texts: seq<string>)
    ensures TextsOf(a + b, texts) == TextsOf(a, texts) + TextsOf(b, texts)
  {
  }

  /** What `ListedRows` returns, as a function. */
  function Listed(l: Layout, texts: seq<string>, mounted: Virtualizer): (listed: seq<string>)
    requires |l.edges| > 0
  {
    InOrder(TextsOf(SeenBefore(l, mounted, STEPS), texts), |texts|)
  }

  class ListBox {
    const layout: Layout
    const texts: seq<string>
    const mounted: Virtualizer
    var scrollTop: real

    constructor (layout: Layout, texts: seq<string>, mounted: Virtualizer)
      ensures this.layout == layout && this.texts == texts && this.mounted == mounted
    {
      this.layout, this.texts, this.mounted, scrollTop := layout, texts, mounted, 0.0;
    }

    /** Every row mounted now goes into `seen` under its index. */
    method ReadMounted(seen: map<nat, string>) returns (after: map<nat, string>)
      requires forall i :: i in mounted(scrollTop) ==> i < |texts|
      ensures after == seen + TextsOf(mounted(scrollTop), texts)
    {
      after := seen;
      var todo := mounted(scrollTop);
      while todo != {}
        invariant todo <= mounted(scrollTop)
        invariant after == seen + map i | i in mounted(scrollTop) - todo :: texts[i]
        decreases todo
      {
        var i :| i in todo;
        todo := todo - {i};
        after := after[i := texts[i]];
      }
      assert TextsOf(mounted(scrollTop), texts) == map i | i in mounted(scrollTop) :: texts[i];
    }

    /** `listedRows`. */
    method ListedRows() returns (listed: seq<string>)
      requires |layout.edges| == |texts| + 1 && Tiled(layout) && MountsWhatShows(layout, mounted)
      modifies this
      ensures listed == Listed(layout, texts, mounted)
    {
      var seen: map<nat, string> := map[];
      scrollTop := 0.0;
      var step := 0;
      while step < STEPS
        invariant 0 <= step <= STEPS
        invariant Running(layout, step)
        invariant scrollTop == ScrollAt(layout, step)
        invariant seen == TextsOf(SeenBefore(layout, mounted, step), texts)
      {
        seen := ReadMounted(seen);
        step := step + 1;
        TextsOfBoth(SeenBefore(layout, mounted, step - 1), mounted(scrollTop), texts);
        if scrollTop + layout.viewport >= ScrollHeight(layout) - 1.0 {
          StopsForGood(layout, mounted, step, STEPS);
          break;
        }
        scrollTop := Clamp(layout, scrollTop + RealMax(1.0, layout.viewport / 2.0));
      }
      return InOrder(seen, |texts|);
    }
  }

  lemma {:induction false} StopsForGood(l: Layout, mounted: Virtualizer, k: nat, n: nat)
    requires |l.edges| > 0 && !Running(l, k) && k <= n
    ensures !Running(l, n) && SeenBefore(l, mounted, n) == SeenBefore(l, mounted, k)
    decreases n - k
  {
    if k < n { StopsForGood(l, mounted, k, n - 1); }
  }

  // ------------------------------------------------------------- coverage ---

  lemma {:induction false} EdgesGrow(l: Layout, i: nat, j: nat)
    requires Tiled(l) && i <= j <= Rows(l)
    ensures i < j ==> l.edges[j] > l.edges[i] + 1.0
    ensures 0.0 <= l.edges[i] <= l.edges[j]
    decreases j
  {
    if i < j {
      EdgesGrow(l, i, j - 1);
    } else if i > 0 {
      EdgesGrow(l, 0, i - 1);
    }
  }

  lemma Distribute(k: nat, d: real)
    ensures (k + 1) as real * d == k as real * d + d
  {
  }

  /** A turn goes down by a stride at most, and within the range. */
  lemma {:induction false} ScrollGrows(l: Layout, k: nat)
    requires Tiled(l)
    ensures 0.0 <= ScrollAt(l, k) <= ScrollHeight(l) - l.viewport
    ensures k > 0 ==> ScrollAt(l, k - 1) <= ScrollAt(l, k) <= ScrollAt(l, k - 1) + Stride(l)
  {
    if k > 0 { ScrollGrows(l, k - 1); }
  }

  /** The turns go down by the stride until they reach the end of the range. */
  lemma {:induction false} ScrollIs(l: Layout, k: nat)
    requires Tiled(l)
    ensures ScrollAt(l, k) == RealMin(k as real * Stride(l), ScrollHeight(l) - l.viewport)
  {
    ScrollGrows(l, k);
    if k > 0 {
      ScrollIs(l, k - 1);
      Distribute(k - 1, Stride(l));
    }
  }

  /** The scroll position in turn `k`, from the layout alone: a half viewport or a pixel further each time, down to the end. */
  function TurnTop(l: Layout, k: nat): (top: real)
    requires |l.edges| > 0
  {
    var stride := if l.viewport / 2.0 > 1.0 then l.viewport / 2.0 else 1.0;
    var range := if l.edges[|l.edges| - 1] > l.viewport then l.edges[|l.edges| - 1] - l.viewport else 0.0;
    if k as real * stride < range then k as real * stride else range
  }

  /** Which turns the loop makes: those before which no turn came within a pixel of the end. */
  lemma {:induction false} TurnsMade(l: Layout, k: nat)
    requires Tiled(l)
    ensures Running(l, k) <==> forall j: nat :: j < k ==> TurnTop(l, j) + l.viewport < l.edges[|l.edges| - 1] - 1.0
  {
    if k > 0 {
      TurnsMade(l, k - 1);
      TurnIs(l, k - 1);
    }
  }

  lemma TurnIs(l: Layout, k: nat)
    requires Tiled(l)
    ensures ScrollAt(l, k) == TurnTop(l, k)
    ensures AtEnd(l, ScrollAt(l, k)) <==> TurnTop(l, k) + l.viewport >= l.edges[|l.edges| - 1] - 1.0
  {
    EdgesGrow(l, 0, Rows(l));
    ScrollIs(l, k);
    StrideBy(l, k as real);
  }

  lemma StrideBy(l: Layout, k: real)
    requires |l.edges| > 0
    ensures k * Stride(l) == k * (if l.viewport / 2.0 > 1.0 then l.viewport / 2.0 else 1.0)
  {
  }

  lemma {:induction false} SeenGrows(l: Layout, mounted: Virtualizer, k: nat, n: nat)
    requires |l.edges| > 0 && k <= n
    ensures SeenBefore(l, mounted, k) <= SeenBefore(l, mounted, n)
    decreases n - k
  {
    if k < n { SeenGrows(l, mounted, k, n - 1); }
  }

  /** A row whose top the viewport's lower edge has passed was mounted on the way: no stride jumps over a row. */
  lemma {:induction false} PassedIsSeen(l: Layout, mounted: Virtualizer, k: nat, i: nat)
    requires Tiled(l) && MountsWhatShows(l, mounted) && i < Rows(l)
    requires Running(l, k) && l.edges[i] < ScrollAt(l, k) + l.viewport
    ensures i in SeenBefore(l, mounted, k + 1)
    decreases k
  {
    EdgesGrow(l, 0, i);
    ScrollGrows(l, k);
    if k > 0 && l.edges[i] < ScrollAt(l, k - 1) + l.viewport {
      PassedIsSeen(l, mounted, k - 1, i);
    } else {
      assert l.edges[i + 1] > l.edges[i] + 1.0;
      assert Meets(l, ScrollAt(l, k), i);
    }
  }

  /** Only rows whose top the lower edge has passed are seen by a virtualizer that mounts no more than what shows. */
  lemma {:induction false} SeenIsPassed(l: Layout, mounted: Virtualizer, k: nat, i: nat)
    requires Tiled(l) && MountsNoMore(l, mounted) && i in SeenBefore(l, mounted, k)
    ensures k > 0 && i < Rows(l) && l.edges[i] < ScrollAt(l, k - 1) + l.viewport
  {
    if i in SeenBefore(l, mounted, k - 1) {
      SeenIsPassed(l, mounted, k - 1, i);
      ScrollGrows(l, k - 1);
    }
  }

  /** Whether the last turn the loop can make brings the last row into view. */
  predicate InReach(l: Layout)
    requires |l.edges| > 0
  {
    Rows(l) == 0 || l.edges[Rows(l) - 1] < 499.0 * Stride(l) + l.viewport
  }

  /** The first turn at the end of the list, if there is one in time. */
  lemma {:induction false} LastTurn(l: Layout, n: nat) returns (k: nat)
    requires Tiled(l)
    ensures k <= n && Running(l, k) && (k == n || AtEnd(l, ScrollAt(l, k)))
  {
    if n == 0 {
      k := 0;
    } else {
      k := LastTurn(l, n - 1);
      if !AtEnd(l, ScrollAt(l, k)) {
        k := n;
      }
    }
  }

  lemma EveryRowSeen(l: Layout, mounted: Virtualizer)
    requires Tiled(l) && MountsWhatShows(l, mounted) && InReach(l)
    ensures forall i: nat :: i < Rows(l) ==> i in SeenBefore(l, mounted, STEPS)
  {
    var k := LastTurn(l, STEPS - 1);
    ScrollIs(l, k);
    forall i: nat | i < Rows(l)
      ensures i in SeenBefore(l, mounted, STEPS)
    {
      EdgesGrow(l, i, Rows(l));
      EdgesGrow(l, i, Rows(l) - 1);
      assert l.edges[i] < ScrollAt(l, k) + l.viewport;
      PassedIsSeen(l, mounted, k, i);
      SeenGrows(l, mounted, k + 1, STEPS);
    }
  }

  lemma {:induction false} AllInOrder(seen: map<nat, string>, texts: seq<string>, n: nat)
    requires n <= |texts| && forall i: nat :: i < n ==> i in seen && seen[i] == texts[i]
    ensures InOrder(seen, n) == texts[..n]
  {
    if n > 0 {
      AllInOrder(seen, texts, n - 1);
      assert texts[..n] == texts[..n - 1] + [texts[n - 1]];
    }
  }

  lemma {:induction false} FewerInOrder(seen: map<nat, string>, n: nat, missing: nat)
    requires missing < n && missing !in seen
    ensures |InOrder(seen, n)| < n
  {
    if missing < n - 1 {
      FewerInOrder(seen, n - 1, missing);
    } else {
      AtMost(seen, n - 1);
    }
  }

  lemma {:induction false} AtMost(seen: map<nat, string>, n: nat)
    ensures |InOrder(seen, n)| <= n
  {
    if n > 0 { AtMost(seen, n - 1); }
  }

  lemma {:induction false} OrderIs(seen: map<nat, string>, n: nat) returns (rows: seq<nat>)
    ensures forall i: nat :: i in rows <==> i < n && i in seen
    ensures forall j, k :: 0 <= j < k < |rows| ==> rows[j] < rows[k]
    ensures |InOrder(seen, n)| == |rows| && forall k :: 0 <= k < |rows| ==> InOrder(seen, n)[k] == seen[rows[k]]
  {
    rows := [];
    if n > 0 {
      rows := OrderIs(seen, n - 1);
      assert forall k :: 0 <= k < |rows| ==> rows[k] in rows;
      if n - 1 in seen { rows := rows + [n - 1]; }
    }
  }

  /** What is listed, whether it is every row or not: the texts of the rows seen, by their index, once each. */
  lemma ListsWhatWasSeen(l: Layout, texts: seq<string>, mounted: Virtualizer) returns (rows: seq<nat>)
    requires |l.edges| > 0
    ensures forall i: nat :: i in rows <==> i < |texts| && SeenInTurn(l, mounted, i)
    ensures forall j, k :: 0 <= j < k < |rows| ==> rows[j] < rows[k]
    ensures |Listed(l, texts, mounted)| == |rows|
    ensures forall k :: 0 <= k < |rows| ==> rows[k] < |texts| && Listed(l, texts, mounted)[k] == texts[rows[k]]
  {
    rows := OrderIs(TextsOf(SeenBefore(l, mounted, STEPS), texts), |texts|);
    forall i: nat
      ensures i in SeenBefore(l, mounted, 500) <==> SeenInTurn(l, mounted, i)
    {
      SeenIs(l, mounted, 500, i);
    }
    assert forall k :: 0 <= k < |rows| ==> rows[k] in rows;
  }

  /** The row is mounted in a turn the loop makes, of which there are 500 at most. */
  ghost predicate SeenInTurn(l: Layout, mounted: Virtualizer, i: nat)
    requires |l.edges| > 0
  {
    exists k: nat :: k < 500 && MountedIn(l, mounted, k, i)
  }

  predicate MountedIn(l: Layout, mounted: Virtualizer, k: nat, i: nat)
    requires |l.edges| > 0
  {
    Running(l, k) && i in mounted(ScrollAt(l, k))
  }

  lemma {:induction false} SeenIs(l: Layout, mounted: Virtualizer, n: nat, i: nat)
    requires |l.edges| > 0
    ensures i in SeenBefore(l, mounted, n) <==> exists k: nat :: k < n && MountedIn(l, mounted, k, i)
  {
    if n > 0 {
      SeenIs(l, mounted, n - 1, i);
      assert i in SeenBefore(l, mounted, n) <==> i in SeenBefore(l, mounted, n - 1) || MountedIn(l, mounted, n - 1, i);
    }
  }

  /**
   * Scrolling misses no row. When the last turn brings the last row into view,
   * every row is listed once and in order, for every viewport height; and with a
   * virtualizer that mounts just what shows, only then.
   */
  lemma ScrollingMissesNoRow(l: Layout, texts: seq<string>, mounted: Virtualizer)
    requires Tiled(l) && |l.edges| == |texts| + 1 && MountsWhatShows(l, mounted)
    ensures InReach(l) ==> Listed(l, texts, mounted) == texts
    ensures MountsNoMore(l, mounted) ==> (Listed(l, texts, mounted) == texts <==> InReach(l))
  {
    var seen := TextsOf(SeenBefore(l, mounted, STEPS), texts);
    if InReach(l) {
      EveryRowSeen(l, mounted);
      AllInOrder(seen, texts, |texts|);
      assert texts[..|texts|] == texts;
    } else if MountsNoMore(l, mounted) {
      var last := Rows(l) - 1;
      if last in SeenBefore(l, mounted, STEPS) {
        SeenIsPassed(l, mounted, STEPS, last);
        ScrollIs(l, STEPS - 1);
        assert false;
      }
      FewerInOrder(seen, |texts|, last);
    }
  }

  /** In the spec's terms: a viewport of two pixels or more, and a scroll range of at most 499 half viewports. */
  lemma RangeSuffices(l: Layout)
    requires Tiled(l) && l.viewport >= 2.0
    requires ScrollHeight(l) - l.viewport <= 499.0 * (l.viewport / 2.0)
    ensures InReach(l)
  {
    if Rows(l) > 0 {
      EdgesGrow(l, Rows(l) - 1, Rows(l));
    }
  }
}
