/**
 * Why an element was not displayed: the probe of the page, which walks from the
 * element up to the root, and the explanation drawn from its facts.
 */
module Diagnosis {
  import opened Basics
  import opened WaitMessages

  // ------------------------------------------------------------- the page ---

  datatype Visibility = Shown | Hidden | Collapse

  /** The computed style the walk reads; an opacity the engine has not resolved is none. */
  datatype Style = Style(
    displayNone: bool, visibility: Visibility, opacity: Option<real>, contentHidden: bool, pointerNone: bool)

  datatype Box = Box(left: real, top: real, width: real, height: real)

  /** `true`, `false`, or `null` where the question has no answer. */
  datatype Answer = Yes | No | Unknown

  /** `engine` is what `checkVisibility` answers, if the engine has it. */
  datatype Element = Element(
    style: Style, box: Box, disabled: bool, ariaDisabled: bool, engine: Answer, children: seq<Element>)

  /** The way down from the root, child index by child index. */
  type Address = seq<nat>

  datatype Hit = Throws | Nothing | On(address: Address)

  datatype Page = Page(root: Element, width: int, height: int, elementFromPoint: (int, int) -> Hit)

  /** An argument of `querySelectorAll`, by what it matches in the document. */
  datatype Selector = Invalid | Css(matches: Address -> bool)

  predicate IsAddress(e: Element, a: Address)
    decreases |a|
  {
    a == [] || (a[0] < |e.children| && IsAddress(e.children[a[0]], a[1..]))
  }

  function ElementAt(e: Element, a: Address): (found: Element)
    requires IsAddress(e, a)
    decreases |a|
  {
    if a == [] then e else ElementAt(e.children[a[0]], a[1..])
  }

  function Below(i: nat, addresses: seq<Address>): (below: seq<Address>) {
    seq(|addresses|, k requires 0 <= k < |addresses| => [i] + addresses[k])
  }

  /** Every address, in document order. */
  function Addresses(e: Element): (all: seq<Address>)
    decreases e, |e.children| + 1
  {
    [[]] + AddressesUnder(e, 0)
  }

  function AddressesUnder(e: Element, i: nat): (all: seq<Address>)
    requires i <= |e.children|
    decreases e, |e.children| - i
  {
    if i == |e.children| then [] else Below(i, Addresses(e.children[i])) + AddressesUnder(e, i + 1)
  }

  function Filter(addresses: seq<Address>, matches: Address -> bool): (found: seq<Address>)
    ensures forall a :: a in found <==> a in addresses && matches(a)
  {
    if addresses == [] then []
    else (if matches(addresses[0]) then [addresses[0]] else []) + Filter(addresses[1..], matches)
  }

  lemma {:induction false} AddressesAreAll(e: Element, a: Address)
    ensures a in Addresses(e) <==> IsAddress(e, a)
    decreases e, |e.children| + 1
  {
    AddressesUnderAreAll(e, 0, a);
    assert a in Addresses(e) <==> a == [] || a in AddressesUnder(e, 0);
  }

  lemma {:induction false} AddressesUnderAreAll(e: Element, i: nat, a: Address)
    requires i <= |e.children|
    ensures a in AddressesUnder(e, i) <==> a != [] && i <= a[0] && IsAddress(e, a)
    decreases e, |e.children| - i
  {
    if i < |e.children| {
      AddressesUnderAreAll(e, i + 1, a);
      var inner := Addresses(e.children[i]);
      if a != [] {
        AddressesAreAll(e.children[i], a[1..]);
        assert a == [a[0]] + a[1..];
        if a[0] == i && a[1..] in inner {
          var k :| 0 <= k < |inner| && inner[k] == a[1..];
          assert Below(i, inner)[k] == a;
        }
      }
      if a in Below(i, inner) {
        var k :| 0 <= k < |inner| && Below(i, inner)[k] == a;
        assert a[1..] == inner[k];
      }
    }
  }

  // -------------------------------------------------------- document order ---

  /** `a` is before `b`: above it, or at the smaller child index where they part. */
  ghost predicate Precedes(a: Address, b: Address) {
    a < b || exists k :: 0 <= k < |a| && k < |b| && a[..k] == b[..k] && a[k] < b[k]
  }

  ghost predicate InDocumentOrder(addresses: seq<Address>) {
    forall i, j :: 0 <= i < j < |addresses| ==> Precedes(addresses[i], addresses[j])
  }

  lemma ChildrenPrecede(i: nat, a: Address, b: Address)
    requires Precedes(a, b)
    ensures Precedes([i] + a, [i] + b)
  {
    if !(a < b) {
      var k :| 0 <= k < |a| && k < |b| && a[..k] == b[..k] && a[k] < b[k];
      assert ([i] + a)[..k + 1] == [i] + a[..k] == ([i] + b)[..k + 1];
      assert ([i] + a)[k + 1] == a[k] && ([i] + b)[k + 1] == b[k];
    }
  }

  lemma EarlierChild(a: Address, b: Address)
    requires a != [] && b != [] && a[0] < b[0]
    ensures Precedes(a, b)
  {
    assert a[..0] == b[..0];
  }

  lemma OrderedAppend(a: seq<Address>, b: seq<Address>)
    requires InDocumentOrder(a) && InDocumentOrder(b) && forall x <- a, y <- b :: Precedes(x, y)
    ensures InDocumentOrder(a + b)
  {
  }

  lemma {:induction false} AddressesInOrder(e: Element)
    ensures InDocumentOrder(Addresses(e))
    decreases e, |e.children| + 1
  {
    AddressesUnderInOrder(e, 0);
    forall y <- AddressesUnder(e, 0)
      ensures Precedes([], y)
    {
      AddressesUnderAreAll(e, 0, y);
    }
    OrderedAppend([[]], AddressesUnder(e, 0));
  }

  lemma {:induction false} AddressesUnderInOrder(e: Element, i: nat)
    requires i <= |e.children|
    ensures InDocumentOrder(AddressesUnder(e, i))
    decreases e, |e.children| - i
  {
    if i < |e.children| {
      var inner, rest := Addresses(e.children[i]), AddressesUnder(e, i + 1);
      AddressesInOrder(e.children[i]);
      AddressesUnderInOrder(e, i + 1);
      forall j, k | 0 <= j < k < |inner|
        ensures Precedes(Below(i, inner)[j], Below(i, inner)[k])
      {
        ChildrenPrecede(i, inner[j], inner[k]);
      }
      forall x <- Below(i, inner), y <- rest
        ensures Precedes(x, y)
      {
        AddressesUnderAreAll(e, i + 1, y);
        EarlierChild(x, y);
      }
      OrderedAppend(Below(i, inner), rest);
    }
  }

  lemma {:induction false} FilterInOrder(addresses: seq<Address>, matches: Address -> bool)
    requires InDocumentOrder(addresses)
    ensures InDocumentOrder(Filter(addresses, matches))
  {
    if addresses != [] {
      FilterInOrder(addresses[1..], matches);
      forall y <- Filter(addresses[1..], matches)
        ensures Precedes(addresses[0], y)
      {
        var k :| 0 <= k < |addresses[1..]| && addresses[1..][k] == y;
        assert addresses[k + 1] == y;
      }
      OrderedAppend(if matches(addresses[0]) then [addresses[0]] else [], Filter(addresses[1..], matches));
    }
  }

  lemma NotBothWays(a: Address, b: Address)
    requires Precedes(a, b)
    ensures a != b && !Precedes(b, a)
  {
  }

  // ------------------------------------------------------------ the probe ---

  datatype Status = Absent | Present | Unsupported

  datatype Reason = DisplayNone | VisibilityIs(v: Visibility) | OpacityZero | ContentVisibilityHidden

  datatype Hiding = Hiding(depth: nat, node: Address, reasons: seq<Reason>)

  datatype Blocking = PointerEvents(depth: nat, node: Address) | DisabledAttribute | AriaDisabled | Covered(byNode: Address)

  datatype Probe = Probe(
    status: Status, matchCount: nat, width: int, height: int, hiddenBy: seq<Hiding>,
    checkVisibility: Answer, inViewport: Answer, blockedBy: seq<Blocking>)

  function NoElement(status: Status): (p: Probe) {
    Probe(status, 0, 0, 0, [], Unknown, Unknown, [])
  }

  function Reasons(s: Style): (r: seq<Reason>) {
    (if s.displayNone then [DisplayNone] else [])
    + (if s.visibility != Shown then [VisibilityIs(s.visibility)] else [])
    + (if s.opacity == Some(0.0) then [OpacityZero] else [])
    + (if s.contentHidden then [ContentVisibilityHidden] else [])
  }

  /** The style takes the element off screen for this reason. */
  predicate Applies(s: Style, r: Reason) {
    match r
    case DisplayNone => s.displayNone
    case VisibilityIs(v) => v == s.visibility && (v == Hidden || v == Collapse)
    case OpacityZero => s.opacity == Some(0.0)
    case ContentVisibilityHidden => s.contentHidden
  }

  function ReasonRank(r: Reason): (n: nat) {
    match r
    case DisplayNone => 0
    case VisibilityIs(_) => 1
    case OpacityZero => 2
    case ContentVisibilityHidden => 3
  }

  /** The reasons given are those that apply, once each and in the order of the tests. */
  lemma ReasonsAre(s: Style)
    ensures forall r :: r in Reasons(s) <==> Applies(s, r)
    ensures forall i, j :: 0 <= i < j < |Reasons(s)| ==> ReasonRank(Reasons(s)[i]) < ReasonRank(Reasons(s)[j])
  {
  }

  /** `Math.round`. */
  function Round(x: real): (n: int) { (x + 0.5).Floor }

  /** The nearest integer, halves up. */
  lemma RoundIs(x: real, n: int)
    ensures Round(x) == n <==> n as real - 0.5 <= x < n as real + 0.5
  {
  }

  function Ancestor(a: Address, depth: nat): (up: Address)
    requires depth <= |a|
  {
    a[..|a| - depth]
  }

  lemma ParentIsNext(a: Address, depth: nat)
    requires depth <= |a|
    ensures Ancestor(a, depth) == [] <==> depth == |a|
    ensures depth < |a| ==> Ancestor(a, depth)[..|Ancestor(a, depth)| - 1] == Ancestor(a, depth + 1)
  {
  }

  lemma {:induction false} AncestorIsAddress(e: Element, a: Address, depth: nat)
    requires IsAddress(e, a) && depth <= |a|
    ensures IsAddress(e, Ancestor(a, depth))
    decreases |a|
  {
    if depth < |a| {
      AncestorIsAddress(e.children[a[0]], a[1..], depth);
      assert Ancestor(a, depth)[1..] == Ancestor(a[1..], depth);
    }
  }

  function StyleUp(page: Page, a: Address, depth: nat): (s: Style)
    requires IsAddress(page.root, a) && depth <= |a|
  {
    AncestorIsAddress(page.root, a, depth);
    ElementAt(page.root, Ancestor(a, depth)).style
  }

  /** What a walk of `n` nodes up from `a` finds hiding. */
  function HidingUp(page: Page, a: Address, n: nat): (h: seq<Hiding>)
    requires IsAddress(page.root, a) && n <= |a| + 1
  {
    if n == 0 then []
    else
      var reasons := Reasons(StyleUp(page, a, n - 1));
      HidingUp(page, a, n - 1) + if reasons == [] then [] else [Hiding(n - 1, Ancestor(a, n - 1), reasons)]
  }

  function PointerUp(page: Page, a: Address, n: nat): (b: seq<Blocking>)
    requires IsAddress(page.root, a) && n <= |a| + 1
  {
    if n == 0 then []
    else PointerUp(page, a, n - 1)
         + if StyleUp(page, a, n - 1).pointerNone then [PointerEvents(n - 1, Ancestor(a, n - 1))] else []
  }

  /** What the hit test at the centre lands on, if it is neither the element nor in it. */
  function CentreFact(page: Page, a: Address, box: Box): (b: seq<Blocking>) {
    var x, y := Round(box.left + box.width / 2.0), Round(box.top + box.height / 2.0);
    if x < 0 || y < 0 || x >= page.width || y >= page.height then []
    else match page.elementFromPoint(x, y)
      case On(hit) => if a <= hit then [] else [Covered(hit)]
      case _ => []
  }

  /** A box of no size has no centre and no place in the viewport. */
  predicate HasSize(box: Box) { Round(box.width) > 0 && Round(box.height) > 0 }

  /** Whether the box meets the viewport. */
  function InViewport(page: Page, box: Box): (meets: Answer) {
    if !HasSize(box) then Unknown
    else if box.left + box.width > 0.0 && box.top + box.height > 0.0
            && box.left < page.width as real && box.top < page.height as real
    then Yes
    else No
  }

  /** Everything that can keep a visible element from being clicked. */
  function BlockedBy(page: Page, a: Address): (b: seq<Blocking>)
    requires IsAddress(page.root, a)
  {
    var element := ElementAt(page.root, a);
    PointerUp(page, a, |a| + 1)
    + (if element.disabled then [DisabledAttribute] else [])
    + (if element.ariaDisabled then [AriaDisabled] else [])
    + (if HasSize(element.box) then CentreFact(page, a, element.box) else [])
  }

  /** What the selector matches, in document order. */
  function Matches(page: Page, selector: Selector): (found: seq<Address>)
    requires selector.Css?
  {
    Filter(Addresses(page.root), selector.matches)
  }

  ghost predicate IsMatch(page: Page, selector: Selector, a: Address)
    requires selector.Css?
  {
    IsAddress(page.root, a) && selector.matches(a)
  }

  /** The match before all others in the document. */
  ghost predicate IsFirstMatch(page: Page, selector: Selector, a: Address)
    requires selector.Css?
  {
    IsMatch(page, selector, a) && forall b :: IsMatch(page, selector, b) && b != a ==> Precedes(a, b)
  }

  /** All that matches is listed, once each and in document order. */
  lemma MatchesAre(page: Page, selector: Selector)
    requires selector.Css?
    ensures var found := Matches(page, selector);
            && (forall a :: a in found <==> IsMatch(page, selector, a))
            && InDocumentOrder(found) && Distinct(found)
            && (found != [] ==> IsFirstMatch(page, selector, found[0]))
  {
    var found := Matches(page, selector);
    forall a
      ensures a in found <==> IsMatch(page, selector, a)
    {
      AddressesAreAll(page.root, a);
    }
    AddressesInOrder(page.root);
    FilterInOrder(Addresses(page.root), selector.matches);
    forall i, j | 0 <= i < j < |found|
      ensures found[i] != found[j]
    {
      NotBothWays(found[i], found[j]);
    }
    if found != [] { HeadIsFirst(page, selector, found); }
  }

  lemma HeadIsFirst(page: Page, selector: Selector, found: seq<Address>)
    requires selector.Css? && found != [] && InDocumentOrder(found)
    requires forall a :: a in found <==> IsMatch(page, selector, a)
    ensures IsFirstMatch(page, selector, found[0])
  {
    assert found[0] in found;
    forall b | IsMatch(page, selector, b) && b != found[0]
      ensures Precedes(found[0], b)
    {
      var k :| 0 <= k < |found| && found[k] == b;
    }
  }

  lemma {:induction false} DistinctCounts<T>(s: seq<T>, all: set<T>)
    requires Distinct(s) && forall x :: x in s <==> x in all
    ensures |s| == |all|
    decreases |s|
  {
    if s != [] {
      DistinctSlice(s, 1, |s|);
      assert s[1..|s|] == s[1..] && s == [s[0]] + s[1..];
      assert s[0] !in s[1..];
      DistinctCounts(s[1..], all - {s[0]});
    } else {
      assert all == {};
    }
  }

  /** So the number a probe reports is that of the elements that match. */
  lemma MatchesCount(page: Page, selector: Selector, all: set<Address>)
    requires selector.Css? && forall a :: a in all <==> IsMatch(page, selector, a)
    ensures |Matches(page, selector)| == |all|
  {
    MatchesAre(page, selector);
    DistinctCounts(Matches(page, selector), all);
  }

  /** What a probe says of the page, and of the first match in it. */
  ghost predicate Describes(page: Page, selector: Selector, p: Probe) {
    && (p.status.Unsupported? <==> selector.Invalid?)
    && (!p.status.Present? ==>
          && p.matchCount == 0 && p.width == 0 && p.height == 0 && p.hiddenBy == [] && p.blockedBy == []
          && p.checkVisibility == Unknown && p.inViewport == Unknown)
    && (selector.Css? ==>
          var found := Matches(page, selector);
          && (p.status.Absent? <==> found == [])
          && (p.status.Absent? <==> !exists a :: IsMatch(page, selector, a))
          && (found != [] ==> p.matchCount == |found| && IsFirstMatch(page, selector, found[0]) && DescribesNode(page, found[0], p)))
  }

  ghost predicate DescribesNode(page: Page, a: Address, p: Probe)
    requires IsAddress(page.root, a)
  {
    var element := ElementAt(page.root, a);
    && p.hiddenBy == HidingUp(page, a, |a| + 1)
    && p.blockedBy == BlockedBy(page, a)
    && p.checkVisibility == element.engine
    && p.width == Round(element.box.width) && p.height == Round(element.box.height)
    && p.inViewport == InViewport(page, element.box)
  }

  /** The walk from the element to the root. */
  method WalkUp(page: Page, a: Address) returns (hiddenBy: seq<Hiding>, blockedBy: seq<Blocking>)
    requires IsAddress(page.root, a)
    ensures hiddenBy == HidingUp(page, a, |a| + 1) && blockedBy == PointerUp(page, a, |a| + 1)
  {
    hiddenBy, blockedBy := [], [];
    assert Ancestor(a, 0) == a;
    var node := Some(a);
    var depth := 0;
    while node.Some?
      invariant 0 <= depth <= |a| + 1
      invariant node == if depth <= |a| then Some(Ancestor(a, depth)) else None
      invariant hiddenBy == HidingUp(page, a, depth) && blockedBy == PointerUp(page, a, depth)
      decreases |a| + 1 - depth
    {
      AncestorIsAddress(page.root, a, depth);
      var style := ElementAt(page.root, node.value).style;
      var reasons := Reasons(style);
      ghost var hidden, blocked := hiddenBy, blockedBy;
      if |reasons| > 0 {
        hiddenBy := hiddenBy + [Hiding(depth, node.value, reasons)];
      }
      if style.pointerNone {
        blockedBy := blockedBy + [PointerEvents(depth, node.value)];
      }
      OneUp(page, a, depth, style, reasons, hidden, blocked, hiddenBy, blockedBy);
      ParentIsNext(a, depth);
      node := if node.value == [] then None else Some(node.value[..|node.value| - 1]);
      depth := depth + 1;
    }
  }

  /** What one node more adds to the walk. */
  lemma OneUp(page: Page, a: Address, depth: nat, style: Style, reasons: seq<Reason>,
              hidden: seq<Hiding>, blocked: seq<Blocking>, hiddenBy: seq<Hiding>, blockedBy: seq<Blocking>)
    requires IsAddress(page.root, a) && depth <= |a| && style == StyleUp(page, a, depth) && reasons == Reasons(style)
    requires hidden == HidingUp(page, a, depth) && blocked == PointerUp(page, a, depth)
    requires hiddenBy == if |reasons| > 0 then hidden + [Hiding(depth, Ancestor(a, depth), reasons)] else hidden
    requires blockedBy == if style.pointerNone then blocked + [PointerEvents(depth, Ancestor(a, depth))] else blocked
    ensures hiddenBy == HidingUp(page, a, depth + 1) && blockedBy == PointerUp(page, a, depth + 1)
  {
    assert hidden + [] == hidden && blocked + [] == blocked;
  }

  /** `probeVisibilityInPage`. */
  method ProbeVisibilityInPage(page: Page, selector: Selector) returns (p: Probe)
    ensures Describes(page, selector, p)
  {
    if selector.Invalid? { return NoElement(Unsupported); }
    var found := Matches(page, selector);
    MatchesAre(page, selector);
    if |found| == 0 { return NoElement(Absent); }
    assert found[0] in found;
    p := ProbeNode(page, found[0], |found|);
  }

  method ProbeNode(page: Page, a: Address, matchCount: nat) returns (p: Probe)
    requires IsAddress(page.root, a)
    ensures p.status.Present? && p.matchCount == matchCount && DescribesNode(page, a, p)
  {
    var element := ElementAt(page.root, a);
    var hiddenBy, blockedBy := WalkUp(page, a);
    if element.disabled { blockedBy := blockedBy + [DisabledAttribute]; }
    if element.ariaDisabled { blockedBy := blockedBy + [AriaDisabled]; }
    var width, height := Round(element.box.width), Round(element.box.height);
    var inViewport := Unknown;
    if width > 0 && height > 0 {
      inViewport := InViewport(page, element.box);
      blockedBy := blockedBy + CentreFact(page, a, element.box);
    }
    return Probe(Present, matchCount, width, height, hiddenBy, element.engine, inViewport, blockedBy);
  }

  // ------------------------------------------------------ the explanation ---

  /** What a sentence of the message says. */
  datatype Part =
    | NotCss
    | Missing
    | Facts(width: int, height: int, matchCount: nat, engine: Answer)
    | LateOrAnotherNode
    | ForReference(hiddenBy: seq<Hiding>)
    | Rendering(hiddenBy: seq<Hiding>)
    | EngineDisagrees
    | RenderingUnmodelled
    | ZeroSize
    | OutsideViewport(engineAgrees: bool)
    | VisibilityDoesNotDecide(engineAgrees: bool)
    | Timing
    | NoVerdict
    | EnoughToFail
    | Additionally(facts: seq<Blocking>, outside: bool)
    | Interaction(blockedBy: seq<Blocking>)
    | NotReachable
    | NoVerdictOnInteraction
    | Caveat(several: bool)

  /** The sentences that conclude something about the failure, be it that nothing can be concluded. */
  predicate Concludes(p: Part) {
    match p
    case NotCss | Missing | LateOrAnotherNode | Rendering(_) | RenderingUnmodelled | ZeroSize | OutsideViewport(_)
         | Timing | NoVerdict | Interaction(_) | NotReachable | NoVerdictOnInteraction => true
    case _ => false
  }

  function Conclusions(parts: seq<Part>): (c: seq<Part>) {
    if parts == [] then []
    else Conclusions(parts[..|parts| - 1]) + if Concludes(parts[|parts| - 1]) then [parts[|parts| - 1]] else []
  }

  /** The sentences that only add facts, in their order. */
  function Asides(parts: seq<Part>): (a: seq<Part>) {
    if parts == [] then []
    else Asides(parts[..|parts| - 1]) + if Concludes(parts[|parts| - 1]) then [] else [parts[|parts| - 1]]
  }

  lemma Push(parts: seq<Part>, p: Part)
    ensures Concludes(p) ==> Conclusions(parts + [p]) == Conclusions(parts) + [p] && Asides(parts + [p]) == Asides(parts)
    ensures !Concludes(p) ==> Conclusions(parts + [p]) == Conclusions(parts) && Asides(parts + [p]) == Asides(parts) + [p]
  {
    assert (parts + [p])[..|parts + [p]| - 1] == parts;
  }

  predicate IsInteraction(w: Awaited) { w == Clickable || w == Enabled }

  /** Something about visibility alone explains the failure. */
  predicate NotVisible(p: Probe) {
    p.hiddenBy != [] || p.checkVisibility == No || p.width == 0 || p.height == 0
  }

  /** When a conclusion is the right one: for which wait, and on which facts. */
  ghost predicate Justified(c: Part, w: Awaited, p: Probe) {
    match c
    case NotCss => p.status.Unsupported?
    case Missing => p.status.Absent?
    case LateOrAnotherNode => p.status.Present? && w == Existing
    case Rendering(nodes) => p.status.Present? && w != Existing && nodes == p.hiddenBy && nodes != []
    case RenderingUnmodelled => p.status.Present? && w != Existing && p.hiddenBy == [] && p.checkVisibility == No
    case ZeroSize =>
      p.status.Present? && w != Existing && p.hiddenBy == [] && p.checkVisibility != No
      && (p.width == 0 || p.height == 0)
    case OutsideViewport(agrees) =>
      p.status.Present? && !NotVisible(p) && w == WithinViewport && p.inViewport == No
      && agrees == (p.checkVisibility == Yes)
    case Timing =>
      p.status.Present? && !NotVisible(p) && p.checkVisibility == Yes
      && (w == Displayed || (w == WithinViewport && p.inViewport != No))
    case NoVerdict =>
      p.status.Present? && !NotVisible(p) && p.checkVisibility == Unknown
      && (w == Displayed || (w == WithinViewport && p.inViewport != No))
    case Interaction(facts) =>
      p.status.Present? && !NotVisible(p) && IsInteraction(w) && facts == p.blockedBy && facts != []
    case NotReachable =>
      p.status.Present? && !NotVisible(p) && IsInteraction(w) && p.blockedBy == [] && p.inViewport == No
    case NoVerdictOnInteraction =>
      p.status.Present? && !NotVisible(p) && IsInteraction(w) && p.blockedBy == [] && p.inViewport != No
    case _ => false
  }

  /** One conclusion, and the right one. */
  ghost predicate Concluded(parts: seq<Part>, w: Awaited, p: Probe) {
    exists c :: Justified(c, w, p) && Conclusions(parts) == [c]
  }

  function VisibilityAsides(w: Awaited, p: Probe): (a: seq<Part>) {
    if p.hiddenBy != [] && p.checkVisibility == Yes then [EngineDisagrees]
    else if IsInteraction(w) && !NotVisible(p) then [VisibilityDoesNotDecide(p.checkVisibility == Yes)]
    else []
  }

  /** What else bears on a click, of an element that is not visible. */
  function InteractionAsides(p: Probe): (a: seq<Part>) {
    if !NotVisible(p) then []
    else
      var outside := p.inViewport == No;
      [EnoughToFail] + if p.blockedBy != [] || outside then [Additionally(p.blockedBy, outside)] else []
  }

  function ExistingAsides(p: Probe): (a: seq<Part>) {
    if p.hiddenBy != [] then [ForReference(p.hiddenBy)] else []
  }

  /** What the probe found, as it is told first. */
  function FactsOf(p: Probe): (q: Part) { Facts(p.width, p.height, p.matchCount, p.checkVisibility) }

  /** The facts about a node that was found. */
  function FoundAsides(w: Awaited, p: Probe): (a: seq<Part>) {
    if w == Existing then [FactsOf(p)] + ExistingAsides(p)
    else if IsInteraction(w) then [FactsOf(p)] + VisibilityAsides(w, p) + InteractionAsides(p)
    else [FactsOf(p)] + VisibilityAsides(w, p)
  }

  /** The facts that belong beside the conclusion. */
  function AsidesFor(w: Awaited, p: Probe): (a: seq<Part>) {
    if p.status.Present? then FoundAsides(w, p) + [Caveat(p.matchCount > 1)] else []
  }

  /**
   * `explainVisibilityProbe`: one message carries exactly one conclusion, the
   * one its facts justify, whatever facts occur together. The other facts stand
   * beside it, none dropped, and a verdict on a node that was found has the
   * caveat last.
   */
  method ExplainVisibilityProbe(w: Awaited, p: Probe) returns (parts: seq<Part>)
    ensures Concluded(parts, w, p)
    ensures Asides(parts) == AsidesFor(w, p)
    ensures p.status.Present? ==> |parts| >= 2 && parts[0] == FactsOf(p) && parts[|parts| - 1] == Caveat(p.matchCount > 1)
  {
    parts := [];
    if p.status.Unsupported? {
      parts := Conclude(parts, NotCss, w, p);
    } else if p.status.Absent? {
      parts := Conclude(parts, Missing, w, p);
    } else {
      parts := ExplainFound(w, p);
      parts := Say(parts, Caveat(p.matchCount > 1));
    }
  }

  /** Everything said of a node that was found, up to the caveat. */
  method ExplainFound(w: Awaited, p: Probe) returns (parts: seq<Part>)
    requires p.status.Present?
    ensures Concluded(parts, w, p) && parts != [] && parts[0] == FactsOf(p)
    ensures Asides(parts) == FoundAsides(w, p)
  {
    parts := Say([], FactsOf(p));
    assert Asides(parts) == [FactsOf(p)];
    if w == Existing {
      parts := ExplainExisting(p, parts);
      return;
    }
    parts := ExplainVisibility(w, p, parts);
    if IsInteraction(w) {
      parts := ExplainInteraction(w, p, parts);
    }
  }

  /** A wait for `existing`, which hiding does not affect. */
  method ExplainExisting(p: Probe, said: seq<Part>) returns (parts: seq<Part>)
    requires p.status.Present? && Conclusions(said) == []
    ensures Concluded(parts, Existing, p) && Begins(said, parts)
    ensures Asides(parts) == Asides(said) + ExistingAsides(p)
  {
    assert Asides(said) + [] == Asides(said);
    parts := Conclude(said, LateOrAnotherNode, Existing, p);
    if |p.hiddenBy| > 0 {
      parts := Say(parts, ForReference(p.hiddenBy));
    }
  }

  /** The message still begins as it did. */
  predicate Begins(said: seq<Part>, parts: seq<Part>) { said == [] || (parts != [] && parts[0] == said[0]) }

  method Say(parts: seq<Part>, p: Part) returns (more: seq<Part>)
    ensures more != [] && more[|more| - 1] == p && Begins(parts, more)
    ensures Concludes(p) ==> Conclusions(more) == Conclusions(parts) + [p] && Asides(more) == Asides(parts)
    ensures !Concludes(p) ==> Conclusions(more) == Conclusions(parts) && Asides(more) == Asides(parts) + [p]
  {
    Push(parts, p);
    more := parts + [p];
  }

  /** The one sentence that concludes. */
  method Conclude(said: seq<Part>, c: Part, w: Awaited, p: Probe) returns (parts: seq<Part>)
    requires Conclusions(said) == [] && Concludes(c) && Justified(c, w, p)
    ensures Concluded(parts, w, p) && Begins(said, parts)
    ensures Asides(parts) == Asides(said)
  {
    parts := Say(said, c);
  }

  /** The chain over what can be seen. It concludes, unless the wait is for an interaction and the element is visible. */
  method ExplainVisibility(w: Awaited, p: Probe, said: seq<Part>) returns (parts: seq<Part>)
    requires p.status.Present? && w != Existing && Conclusions(said) == []
    ensures if IsInteraction(w) && !NotVisible(p) then Conclusions(parts) == [] else Concluded(parts, w, p)
    ensures Asides(parts) == Asides(said) + VisibilityAsides(w, p) && Begins(said, parts)
  {
    assert Asides(said) + [] == Asides(said);
    if |p.hiddenBy| > 0 {
      parts := Conclude(said, Rendering(p.hiddenBy), w, p);
      if p.checkVisibility == Yes {
        parts := Say(parts, EngineDisagrees);
      }
    } else if p.checkVisibility == No {
      parts := Conclude(said, RenderingUnmodelled, w, p);
    } else if p.width == 0 || p.height == 0 {
      parts := Conclude(said, ZeroSize, w, p);
    } else {
      VisibleAsides(w, p, Asides(said));
      parts := ExplainVisible(w, p, said);
    }
  }

  lemma VisibleAsides(w: Awaited, p: Probe, asides: seq<Part>)
    requires !NotVisible(p)
    ensures asides + VisibilityAsides(w, p)
         == if IsInteraction(w) then asides + [VisibilityDoesNotDecide(p.checkVisibility == Yes)] else asides
  {
    assert asides + [] == asides;
  }

  /** Its arms for an element nothing hides. */
  method ExplainVisible(w: Awaited, p: Probe, said: seq<Part>) returns (parts: seq<Part>)
    requires p.status.Present? && w != Existing && !NotVisible(p) && Conclusions(said) == []
    ensures IsInteraction(w) ==>
      Conclusions(parts) == [] && Asides(parts) == Asides(said) + [VisibilityDoesNotDecide(p.checkVisibility == Yes)]
    ensures !IsInteraction(w) ==> Concluded(parts, w, p) && Asides(parts) == Asides(said)
    ensures Begins(said, parts)
  {
    var engineAgrees := p.checkVisibility == Yes;
    if w == WithinViewport && p.inViewport == No {
      parts := Conclude(said, OutsideViewport(engineAgrees), w, p);
    } else if IsInteraction(w) {
      parts := Say(said, VisibilityDoesNotDecide(engineAgrees));
    } else if engineAgrees {
      parts := Conclude(said, Timing, w, p);
    } else {
      parts := Conclude(said, NoVerdict, w, p);
    }
  }

  /** Its arm for an element that is not visible, on which the other chain has concluded. */
  method TellBlocking(p: Probe, said: seq<Part>) returns (parts: seq<Part>)
    requires NotVisible(p)
    ensures Conclusions(parts) == Conclusions(said) && Begins(said, parts)
    ensures Asides(parts) == Asides(said) + InteractionAsides(p)
  {
    parts := Say(said, EnoughToFail);
    var outside := p.inViewport == No;
    if |p.blockedBy| > 0 || outside {
      parts := Say(parts, Additionally(p.blockedBy, outside));
    }
  }

  /** The chain over what can be clicked. It concludes exactly when the other did not. */
  method ExplainInteraction(w: Awaited, p: Probe, said: seq<Part>) returns (parts: seq<Part>)
    requires p.status.Present? && IsInteraction(w)
    requires if NotVisible(p) then Concluded(said, w, p) else Conclusions(said) == []
    ensures Concluded(parts, w, p)
    ensures Asides(parts) == Asides(said) + InteractionAsides(p) && Begins(said, parts)
  {
    assert Asides(said) + [] == Asides(said);
    if NotVisible(p) {
      parts := TellBlocking(p, said);
    } else if |p.blockedBy| > 0 {
      parts := Conclude(said, Interaction(p.blockedBy), w, p);
    } else if p.inViewport == No {
      parts := Conclude(said, NotReachable, w, p);
    } else {
      parts := Conclude(said, NoVerdictOnInteraction, w, p);
    }
  }

  // ------------------------------------------------------- what is on screen ---

  /**
   * A node with this style hides the element `depth` levels below it, as an
   * engine judges: `display:none` and `opacity:0` take all that is below with
   * them; `visibility` is inherited but can be set back, so only the element's
   * own counts; and `content-visibility:hidden` skips what is in the node, not
   * the node.
   */
  predicate HidesAt(s: Style, depth: nat) {
    || s.displayNone || s.opacity == Some(0.0)
    || (depth == 0 && s.visibility != Shown)
    || (depth > 0 && s.contentHidden)
  }

  /** The walk names the node too, though it does not hide the element. */
  predicate MisleadsAt(s: Style, depth: nat) {
    !HidesAt(s, depth) && (if depth == 0 then s.contentHidden else s.visibility != Shown)
  }

  /** The element is not on screen. */
  ghost predicate IsHidden(page: Page, a: Address)
    requires IsAddress(page.root, a)
  {
    exists depth :: 0 <= depth <= |a| && HidesAt(StyleUp(page, a, depth), depth)
  }

  /** The element's own contents are skipped, or the `visibility` of an ancestor is not the default. */
  ghost predicate HasMisleading(page: Page, a: Address)
    requires IsAddress(page.root, a)
  {
    StyleUp(page, a, 0).contentHidden || exists depth :: 1 <= depth <= |a| && StyleUp(page, a, depth).visibility != Shown
  }

  lemma NamedAt(s: Style, depth: nat)
    ensures Reasons(s) != [] <==> HidesAt(s, depth) || MisleadsAt(s, depth)
  {
  }

  lemma {:induction false} NamedAsWalked(page: Page, a: Address, n: nat)
    requires IsAddress(page.root, a) && n <= |a| + 1
    ensures forall h <- HidingUp(page, a, n) ::
      h.depth < n && h.node == Ancestor(a, h.depth) && h.reasons == Reasons(StyleUp(page, a, h.depth)) && h.reasons != []
    ensures forall i, j :: 0 <= i < j < |HidingUp(page, a, n)| ==>
      HidingUp(page, a, n)[i].depth < HidingUp(page, a, n)[j].depth
  {
    if n > 0 {
      NamedAsWalked(page, a, n - 1);
      var before := HidingUp(page, a, n - 1);
      assert forall i :: 0 <= i < |before| ==> before[i] in before;
    }
  }

  /** What the walk names hides the element or misleads, and it is named in order from the element up. */
  lemma NamedHides(page: Page, a: Address, n: nat)
    requires IsAddress(page.root, a) && n <= |a| + 1
    ensures forall h <- HidingUp(page, a, n) ::
      && h.depth < n && h.node == Ancestor(a, h.depth) && h.reasons == Reasons(StyleUp(page, a, h.depth))
      && (HidesAt(StyleUp(page, a, h.depth), h.depth) || MisleadsAt(StyleUp(page, a, h.depth), h.depth))
    ensures forall i, j :: 0 <= i < j < |HidingUp(page, a, n)| ==>
      HidingUp(page, a, n)[i].depth < HidingUp(page, a, n)[j].depth
  {
    NamedAsWalked(page, a, n);
    forall h <- HidingUp(page, a, n)
      ensures HidesAt(StyleUp(page, a, h.depth), h.depth) || MisleadsAt(StyleUp(page, a, h.depth), h.depth)
    {
      NamedAt(StyleUp(page, a, h.depth), h.depth);
    }
  }

  /** What hides the element, or misleads, is named. */
  lemma {:induction false} HidersAreNamed(page: Page, a: Address, n: nat, depth: nat)
    requires IsAddress(page.root, a) && depth < n <= |a| + 1 && Reasons(StyleUp(page, a, depth)) != []
    ensures Hiding(depth, Ancestor(a, depth), Reasons(StyleUp(page, a, depth))) in HidingUp(page, a, n)
  {
    if depth < n - 1 { HidersAreNamed(page, a, n - 1, depth); }
  }

  /** Something is named exactly when the element is hidden or the path misleads. */
  lemma RenderingMeans(page: Page, a: Address)
    requires IsAddress(page.root, a)
    ensures HidingUp(page, a, |a| + 1) != [] <==> IsHidden(page, a) || HasMisleading(page, a)
  {
    if HidingUp(page, a, |a| + 1) != [] {
      NamedMeans(page, a, HidingUp(page, a, |a| + 1));
    }
    if IsHidden(page, a) || HasMisleading(page, a) {
      var depth := NamedDepth(page, a);
      HidersAreNamed(page, a, |a| + 1, depth);
    }
  }

  lemma NamedMeans(page: Page, a: Address, named: seq<Hiding>)
    requires IsAddress(page.root, a) && named == HidingUp(page, a, |a| + 1) && named != []
    ensures IsHidden(page, a) || HasMisleading(page, a)
  {
    NamedHides(page, a, |a| + 1);
    var h := named[0];
    assert h in named;
    var s := StyleUp(page, a, h.depth);
    assert HidesAt(s, h.depth) || MisleadsAt(s, h.depth);
  }

  lemma NamedDepth(page: Page, a: Address) returns (depth: nat)
    requires IsAddress(page.root, a) && (IsHidden(page, a) || HasMisleading(page, a))
    ensures depth <= |a| && Reasons(StyleUp(page, a, depth)) != []
  {
    if IsHidden(page, a) {
      depth :| 0 <= depth <= |a| && HidesAt(StyleUp(page, a, depth), depth);
    } else if StyleUp(page, a, 0).contentHidden {
      depth := 0;
    } else {
      depth :| 1 <= depth <= |a| && StyleUp(page, a, depth).visibility != Shown;
    }
    NamedAt(StyleUp(page, a, depth), depth);
  }

  /** The box is laid out beside the viewport. */
  predicate IsOutside(page: Page, box: Box) {
    box.width >= 0.5 && box.height >= 0.5
    && (box.left + box.width <= 0.0 || box.top + box.height <= 0.0
        || box.left >= page.width as real || box.top >= page.height as real)
  }

  /** At the centre of the box, in the viewport, the page shows something else. */
  predicate IsCovered(page: Page, a: Address, box: Box) {
    var x, y := Round(box.left + box.width / 2.0), Round(box.top + box.height / 2.0);
    && box.width >= 0.5 && box.height >= 0.5 && 0 <= x < page.width && 0 <= y < page.height
    && var hit := page.elementFromPoint(x, y);
    hit.On? && !(a <= hit.address)
  }

  /** Something keeps the element from being clicked, visible or not. */
  ghost predicate IsBlocked(page: Page, a: Address)
    requires IsAddress(page.root, a)
  {
    var element := ElementAt(page.root, a);
    || (exists depth :: 0 <= depth <= |a| && StyleUp(page, a, depth).pointerNone)
    || element.disabled || element.ariaDisabled || IsCovered(page, a, element.box)
  }

  lemma {:induction false} PointerFound(page: Page, a: Address, n: nat) returns (depth: nat)
    requires IsAddress(page.root, a) && n <= |a| + 1 && PointerUp(page, a, n) != []
    ensures depth < n && StyleUp(page, a, depth).pointerNone
  {
    depth := n - 1;
    if !StyleUp(page, a, depth).pointerNone {
      depth := PointerFound(page, a, n - 1);
    }
  }

  lemma {:induction false} PointerListed(page: Page, a: Address, n: nat, depth: nat)
    requires IsAddress(page.root, a) && depth < n <= |a| + 1 && StyleUp(page, a, depth).pointerNone
    ensures |PointerUp(page, a, n)| > 0
  {
    if depth < n - 1 { PointerListed(page, a, n - 1, depth); }
  }

  lemma PointerMeans(page: Page, a: Address)
    requires IsAddress(page.root, a)
    ensures |PointerUp(page, a, |a| + 1)| > 0 <==> exists depth :: 0 <= depth <= |a| && StyleUp(page, a, depth).pointerNone
  {
    if PointerUp(page, a, |a| + 1) != [] {
      var depth := PointerFound(page, a, |a| + 1);
    }
    if depth :| 0 <= depth <= |a| && StyleUp(page, a, depth).pointerNone {
      PointerListed(page, a, |a| + 1, depth);
    }
  }

  lemma BlockedMeans(page: Page, a: Address)
    requires IsAddress(page.root, a)
    ensures BlockedBy(page, a) != [] <==> IsBlocked(page, a)
  {
    PointerMeans(page, a);
  }

  /** The fact is one that keeps the element from being clicked. */
  ghost predicate Blocks(page: Page, a: Address, b: Blocking)
    requires IsAddress(page.root, a)
  {
    var element := ElementAt(page.root, a);
    match b
    case PointerEvents(depth, node) => depth <= |a| && node == a[..|a| - depth] && StyleUp(page, a, depth).pointerNone
    case DisabledAttribute => element.disabled
    case AriaDisabled => element.ariaDisabled
    case Covered(hit) =>
      IsCovered(page, a, element.box)
      && page.elementFromPoint(Round(element.box.left + element.box.width / 2.0),
                               Round(element.box.top + element.box.height / 2.0)) == On(hit)
  }

  /** Where a fact stands in the list of an element `depth` levels down. */
  function BlockingRank(depth: nat, b: Blocking): (n: nat) {
    match b
    case PointerEvents(d, _) => d
    case DisabledAttribute => depth + 1
    case AriaDisabled => depth + 2
    case Covered(_) => depth + 3
  }

  ghost predicate RankedBlocking(depth: nat, facts: seq<Blocking>) {
    forall i, j :: 0 <= i < j < |facts| ==> BlockingRank(depth, facts[i]) < BlockingRank(depth, facts[j])
  }

  lemma {:induction false} PointerUpIs(page: Page, a: Address, n: nat)
    requires IsAddress(page.root, a) && n <= |a| + 1
    ensures forall b :: b in PointerUp(page, a, n) <==>
      b.PointerEvents? && b.depth < n && b.node == a[..|a| - b.depth] && StyleUp(page, a, b.depth).pointerNone
    ensures RankedBlocking(|a|, PointerUp(page, a, n))
  {
    if n > 0 {
      PointerUpIs(page, a, n - 1);
      var before := PointerUp(page, a, n - 1);
      assert forall i :: 0 <= i < |before| ==> before[i] in before;
    }
  }

  /** What is listed as blocking is all that is, once each: from the element up, then its own attributes, then what covers it. */
  lemma BlockedAre(page: Page, a: Address)
    requires IsAddress(page.root, a)
    ensures forall b :: b in BlockedBy(page, a) <==> Blocks(page, a, b)
    ensures RankedBlocking(|a|, BlockedBy(page, a))
  {
    var element, up, centre := BlockedParts(page, a);
    forall b
      ensures b in BlockedBy(page, a) <==> Blocks(page, a, b)
    {
      BlocksIs(page, a, b, element, up, centre);
    }
  }

  lemma BlockedParts(page: Page, a: Address) returns (element: Element, up: seq<Blocking>, centre: seq<Blocking>)
    requires IsAddress(page.root, a)
    ensures element == ElementAt(page.root, a)
    ensures forall b :: b in up <==>
      b.PointerEvents? && b.depth < |a| + 1 && b.node == a[..|a| - b.depth] && StyleUp(page, a, b.depth).pointerNone
    ensures forall b :: b in centre <==>
      && b.Covered? && IsCovered(page, a, element.box)
      && page.elementFromPoint(Round(element.box.left + element.box.width / 2.0),
                               Round(element.box.top + element.box.height / 2.0)) == On(b.byNode)
    ensures forall b :: b in BlockedBy(page, a) <==>
      || (b.DisabledAttribute? && element.disabled) || (b.AriaDisabled? && element.ariaDisabled) || b in up || b in centre
    ensures RankedBlocking(|a|, BlockedBy(page, a))
  {
    element := ElementAt(page.root, a);
    up := PointerUp(page, a, |a| + 1);
    centre := if HasSize(element.box) then CentreFact(page, a, element.box) else [];
    PointerUpIs(page, a, |a| + 1);
    CoveredIs(page, a, element.box, centre);
    FactsInOrder(up, element.disabled, element.ariaDisabled, centre, |a|);
  }

  lemma BlocksIs(page: Page, a: Address, b: Blocking, element: Element, up: seq<Blocking>, centre: seq<Blocking>)
    requires IsAddress(page.root, a) && element == ElementAt(page.root, a)
    requires b in up <==>
      b.PointerEvents? && b.depth < |a| + 1 && b.node == a[..|a| - b.depth] && StyleUp(page, a, b.depth).pointerNone
    requires b in centre <==>
      && b.Covered? && IsCovered(page, a, element.box)
      && page.elementFromPoint(Round(element.box.left + element.box.width / 2.0),
                               Round(element.box.top + element.box.height / 2.0)) == On(b.byNode)
    ensures Blocks(page, a, b) <==>
      (b.DisabledAttribute? && element.disabled) || (b.AriaDisabled? && element.ariaDisabled) || b in up || b in centre
  {
  }

  lemma CoveredIs(page: Page, a: Address, box: Box, centre: seq<Blocking>)
    requires centre == if HasSize(box) then CentreFact(page, a, box) else []
    ensures |centre| <= 1
    ensures forall b :: b in centre <==>
      && b.Covered? && IsCovered(page, a, box)
      && page.elementFromPoint(Round(box.left + box.width / 2.0), Round(box.top + box.height / 2.0)) == On(b.byNode)
  {
  }

  lemma FactsInOrder(up: seq<Blocking>, disabled: bool, ariaDisabled: bool, centre: seq<Blocking>, depth: nat)
    requires RankedBlocking(depth, up) && forall b <- up :: b.PointerEvents? && b.depth <= depth
    requires |centre| <= 1 && forall b <- centre :: b.Covered?
    ensures var all := up + (if disabled then [DisabledAttribute] else [])
                       + (if ariaDisabled then [AriaDisabled] else []) + centre;
            && (forall b :: b in all <==>
                  || (b.DisabledAttribute? && disabled) || (b.AriaDisabled? && ariaDisabled) || b in up || b in centre)
            && RankedBlocking(depth, all)
  {
    var own := (if disabled then [DisabledAttribute] else []) + if ariaDisabled then [AriaDisabled] else [];
    var all := up + (if disabled then [DisabledAttribute] else []) + (if ariaDisabled then [AriaDisabled] else []) + centre;
    assert all == up + own + centre;
    RankedAppend(up, own, depth);
    RankedAppend(up + own, centre, depth);
  }

  lemma RankedAppend(a: seq<Blocking>, b: seq<Blocking>, depth: nat)
    requires RankedBlocking(depth, a) && RankedBlocking(depth, b)
    requires forall x <- a, y <- b :: BlockingRank(depth, x) < BlockingRank(depth, y)
    ensures RankedBlocking(depth, a + b) && forall x :: x in a + b <==> x in a || x in b
  {
  }

  /** What can be true of an element and its page. */
  datatype Truth = Truth(
    named: bool, hiding: seq<Hiding>, engine: Answer, width: int, height: int, flat: bool, outside: bool,
    blocked: bool, blocking: seq<Blocking>)

  ghost function TruthOf(page: Page, a: Address): (t: Truth)
    requires IsAddress(page.root, a)
  {
    var element := ElementAt(page.root, a);
    Truth(IsHidden(page, a) || HasMisleading(page, a), HidingUp(page, a, |a| + 1), element.engine,
          Round(element.box.width), Round(element.box.height),
          -0.5 <= element.box.width < 0.5 || -0.5 <= element.box.height < 0.5,
          IsOutside(page, element.box), IsBlocked(page, a), BlockedBy(page, a))
  }

  /** Nothing about visibility explains the failure. */
  predicate Unexplained(t: Truth) { !t.named && t.engine != No && !t.flat }

  /** `q` is true, as a conclusion on a failed wait. */
  predicate IsTrue(t: Truth, w: Awaited, q: Part) {
    match q
    case LateOrAnotherNode => w == Existing
    case Rendering(nodes) => w != Existing && t.named && nodes == t.hiding
    case RenderingUnmodelled => w != Existing && !t.named && t.engine == No
    case ZeroSize => w != Existing && !t.named && t.engine != No && t.flat
    case OutsideViewport(agrees) => w == WithinViewport && Unexplained(t) && t.outside && agrees == (t.engine == Yes)
    case Timing => (w == Displayed || (w == WithinViewport && !t.outside)) && Unexplained(t) && t.engine == Yes
    case NoVerdict => (w == Displayed || (w == WithinViewport && !t.outside)) && Unexplained(t) && t.engine == Unknown
    case Interaction(facts) => IsInteraction(w) && Unexplained(t) && t.blocked && facts == t.blocking
    case NotReachable => IsInteraction(w) && Unexplained(t) && !t.blocked && t.outside
    case NoVerdictOnInteraction => IsInteraction(w) && Unexplained(t) && !t.blocked && !t.outside
    case _ => false
  }

  /** `q` is true of the page, as a conclusion on the element at `a`. */
  ghost predicate Holds(page: Page, a: Address, w: Awaited, q: Part)
    requires IsAddress(page.root, a)
  {
    IsTrue(TruthOf(page, a), w, q)
  }

  /** `q` is a fact that belongs beside the conclusion; `count` elements match. */
  predicate IsBeside(t: Truth, w: Awaited, count: nat, q: Part) {
    match q
    case Facts(width, height, matches, engine) =>
      width == t.width && height == t.height && matches == count && engine == t.engine
    case ForReference(hiding) => w == Existing && t.named && hiding == t.hiding
    case EngineDisagrees => w != Existing && t.named && t.engine == Yes
    case VisibilityDoesNotDecide(agrees) => IsInteraction(w) && Unexplained(t) && agrees == (t.engine == Yes)
    case EnoughToFail => IsInteraction(w) && !Unexplained(t)
    case Additionally(facts, outside) =>
      IsInteraction(w) && !Unexplained(t) && (t.blocked || t.outside) && facts == t.blocking && outside == t.outside
    case Caveat(several) => several == (count > 1)
    case _ => false
  }

  /** The probe's facts are the truth. */
  ghost predicate Tells(p: Probe, t: Truth) {
    && p.hiddenBy == t.hiding && (|p.hiddenBy| > 0 <==> t.named)
    && p.blockedBy == t.blocking && (|p.blockedBy| > 0 <==> t.blocked)
    && p.width == t.width && p.height == t.height
    && p.checkVisibility == t.engine && (p.inViewport == No <==> t.outside)
    && (p.width == 0 || p.height == 0 <==> t.flat)
  }

  lemma ProbeTells(page: Page, a: Address, p: Probe)
    requires IsAddress(page.root, a) && DescribesNode(page, a, p)
    ensures Tells(p, TruthOf(page, a))
  {
    RenderingMeans(page, a);
    BlockedMeans(page, a);
    OutsideMeans(page, ElementAt(page.root, a).box);
  }

  lemma OutsideMeans(page: Page, box: Box)
    ensures InViewport(page, box) == No <==> IsOutside(page, box)
    ensures InViewport(page, box) == Unknown <==> !(box.width >= 0.5 && box.height >= 0.5)
  {
  }

  /** What the facts justify is what is true. */
  lemma JustifiedIsTrue(w: Awaited, p: Probe, t: Truth, q: Part)
    requires p.status.Present? && Tells(p, t)
    ensures Justified(q, w, p) <==> IsTrue(t, w, q)
  {
    match q
    case Rendering(nodes) => assert |nodes| > 0 <==> nodes != [];
    case Interaction(facts) => assert |facts| > 0 <==> facts != [];
    case _ =>
  }

  /** The facts beside the conclusion are those that belong there. */
  lemma AsidesAreBeside(w: Awaited, p: Probe, t: Truth, q: Part)
    requires p.status.Present? && Tells(p, t)
    ensures q in AsidesFor(w, p) <==> IsBeside(t, w, p.matchCount, q)
  {
    InBoth(FoundAsides(w, p), [Caveat(p.matchCount > 1)], q);
    if w == Existing {
      InBoth([FactsOf(p)], ExistingAsides(p), q);
      assert q in ExistingAsides(p) <==> |p.hiddenBy| > 0 && q == ForReference(p.hiddenBy);
    } else {
      InBoth([FactsOf(p)] + VisibilityAsides(w, p), InteractionAsides(p), q);
      InBoth([FactsOf(p)], VisibilityAsides(w, p), q);
      VisibilityAsidesAre(w, p, q);
      InteractionAsidesAre(p, q);
    }
  }

  lemma VisibilityAsidesAre(w: Awaited, p: Probe, q: Part)
    ensures q in VisibilityAsides(w, p) <==>
      || (q == EngineDisagrees && |p.hiddenBy| > 0 && p.checkVisibility == Yes)
      || (q == VisibilityDoesNotDecide(p.checkVisibility == Yes) && IsInteraction(w) && !NotVisible(p))
  {
  }

  lemma InteractionAsidesAre(p: Probe, q: Part)
    ensures q in InteractionAsides(p) <==>
      NotVisible(p) && (q == EnoughToFail
        || (q == Additionally(p.blockedBy, p.inViewport == No) && (|p.blockedBy| > 0 || p.inViewport == No)))
  {
  }

  // ----------------------------------------------------------- properties ---

  /** The facts justify one conclusion and no other. */
  lemma OneIsJustified(c: Part, d: Part, w: Awaited, p: Probe)
    requires Justified(c, w, p) && Justified(d, w, p)
    ensures c == d
  {
  }

  /**
   * Nothing a reader of an interaction failure needs is dropped with the verdict
   * it would have carried: what blocks the element is told in any case, as the
   * conclusion or beside it.
   */
  lemma BlockingIsTold(parts: seq<Part>, w: Awaited, p: Probe)
    requires Concluded(parts, w, p) && Asides(parts) == AsidesFor(w, p)
    requires p.status.Present? && IsInteraction(w) && p.blockedBy != []
    ensures if NotVisible(p) then Additionally(p.blockedBy, p.inViewport == No) in parts
            else Interaction(p.blockedBy) in parts
  {
    if NotVisible(p) {
      var more := Additionally(p.blockedBy, p.inViewport == No);
      assert more in InteractionAsides(p);
      assert more in AsidesFor(w, p);
      SaidIs(parts, more);
    } else {
      OneIsJustified(Conclusions(parts)[0], Interaction(p.blockedBy), w, p);
      assert Interaction(p.blockedBy) in Conclusions(parts);
      SaidIs(parts, Interaction(p.blockedBy));
    }
  }

  /** A lookup within a scope: what matches strictly below it. */
  ghost predicate FoundInScope(page: Page, selector: Selector, scope: Address, a: Address)
    requires selector.Css?
  {
    IsAddress(page.root, scope) && scope < a && IsAddress(page.root, a) && selector.matches(a)
  }

  /** Nothing matches exactly when the list of matches is empty, and then nothing matches in any scope. */
  lemma MissingMeans(page: Page, selector: Selector)
    requires selector.Css?
    ensures var found := Matches(page, selector);
            && (found == [] <==> forall a :: IsAddress(page.root, a) ==> !selector.matches(a))
            && (found == [] ==> forall scope, a :: !FoundInScope(page, selector, scope, a))
            && (found != [] ==> IsAddress(page.root, found[0]))
  {
    var found := Matches(page, selector);
    forall a
      ensures a in found <==> IsAddress(page.root, a) && selector.matches(a)
    {
      AddressesAreAll(page.root, a);
    }
    if found != [] { assert found[0] in found; }
  }

  /** The one conclusion that holds of the first match. */
  lemma FoundMeans(page: Page, selector: Selector, w: Awaited, p: Probe, c: Part)
    requires selector.Css? && Matches(page, selector) != []
    requires Describes(page, selector, p) && Justified(c, w, p)
    ensures var a := Matches(page, selector)[0];
            IsAddress(page.root, a) && forall q :: Holds(page, a, w, q) <==> q == c
  {
    var a := Matches(page, selector)[0];
    ProbeTells(page, a, p);
    forall q
      ensures Holds(page, a, w, q) <==> q == c
    {
      JustifiedIsTrue(w, p, TruthOf(page, a), q);
      if Justified(q, w, p) { OneIsJustified(c, q, w, p); }
    }
  }

  /**
   * RENDERING by a named node can be false, and exactly so: the element is on
   * screen, but its own contents are skipped or an ancestor's `visibility` is
   * not the default.
   */
  lemma FalseRendering(page: Page, a: Address, w: Awaited, p: Probe, c: Part)
    requires IsAddress(page.root, a) && p.status.Present? && DescribesNode(page, a, p)
    requires w != Existing && Justified(c, w, p)
    ensures c.Rendering? <==> IsHidden(page, a) || HasMisleading(page, a)
    ensures c.Rendering? && !IsHidden(page, a) <==> HasMisleading(page, a) && !IsHidden(page, a)
  {
    RenderingMeans(page, a);
  }

  /** A page where it is: hidden by `visibility`, with a child that is set back to visible, as the engine says. */
  lemma ShownYetRendering() returns (page: Page, a: Address)
    ensures IsAddress(page.root, a) && !IsHidden(page, a) && ElementAt(page.root, a).engine == Yes
    ensures forall w :: w != Existing ==> Holds(page, a, w, Rendering([Hiding(1, [], [VisibilityIs(Hidden)])]))
  {
    var box := Box(0.0, 0.0, 10.0, 10.0);
    var child := Element(Style(false, Shown, None, false, false), box, false, false, Yes, []);
    var root := Element(Style(false, Hidden, None, false, false), box, false, false, No, [child]);
    page, a := Page(root, 100, 100, (x: int, y: int) => Nothing), [0];
    assert a[1..] == [] && ElementAt(page.root, a) == child;
    assert Ancestor(a, 0) == a && Ancestor(a, 1) == [];
    assert StyleUp(page, a, 0) == child.style && StyleUp(page, a, 1) == root.style;
    assert Reasons(child.style) == [] && Reasons(root.style) == [VisibilityIs(Hidden)];
    assert HidingUp(page, a, 0) == [] && HidingUp(page, a, 1) == [] + [];
    assert HidingUp(page, a, 1) == [] && HidingUp(page, a, 2) == [Hiding(1, [], [VisibilityIs(Hidden)])];
  }

  /** The engine answers as it judges. */
  ghost predicate EngineKnows(page: Page, a: Address)
    requires IsAddress(page.root, a)
  {
    ElementAt(page.root, a).engine == if IsHidden(page, a) then No else Yes
  }

  /** A message's sentences are its conclusions and its other facts. */
  lemma {:induction false} SaidIs(parts: seq<Part>, q: Part)
    ensures q in parts <==> if Concludes(q) then q in Conclusions(parts) else q in Asides(parts)
    ensures q in Conclusions(parts) ==> Concludes(q)
    ensures q in Asides(parts) ==> !Concludes(q)
  {
    if parts != [] {
      SaidIs(parts[..|parts| - 1], q);
      assert parts == parts[..|parts| - 1] + [parts[|parts| - 1]];
    }
  }

  lemma InBoth<T>(a: seq<T>, b: seq<T>, x: T)
    ensures x in a + b <==> x in a || x in b
  {
  }

  lemma WhenDisagrees(w: Awaited, p: Probe)
    requires p.status.Present? && w != Existing
    ensures EngineDisagrees in AsidesFor(w, p) <==> |p.hiddenBy| > 0 && p.checkVisibility == Yes
  {
    var q := EngineDisagrees;
    InBoth(FoundAsides(w, p), [Caveat(p.matchCount > 1)], q);
    InBoth([FactsOf(p)] + VisibilityAsides(w, p), InteractionAsides(p), q);
    InBoth([FactsOf(p)], VisibilityAsides(w, p), q);
    assert q !in InteractionAsides(p);
    assert q in VisibilityAsides(w, p) <==> |p.hiddenBy| > 0 && p.checkVisibility == Yes;
  }

  /** Then the DISAGREEMENT stands beside exactly the false RENDERINGs. */
  lemma DisagreementMeans(page: Page, a: Address, w: Awaited, p: Probe, parts: seq<Part>, c: Part)
    requires IsAddress(page.root, a) && p.status.Present? && DescribesNode(page, a, p) && w != Existing
    requires Asides(parts) == AsidesFor(w, p) && Justified(c, w, p) && EngineKnows(page, a)
    ensures EngineDisagrees in parts <==> c.Rendering? && !IsHidden(page, a)
  {
    SaidIs(parts, EngineDisagrees);
    WhenDisagrees(w, p);
    FalseRendering(page, a, w, p, c);
    RenderingMeans(page, a);
  }

  /** And hiding that the walk cannot name is never concluded: what such an engine judges by, the walk models. */
  lemma NothingUnmodelled(page: Page, a: Address, w: Awaited)
    requires IsAddress(page.root, a) && EngineKnows(page, a)
    ensures !Holds(page, a, w, RenderingUnmodelled)
  {
  }

  lemma OneFirstMatch(page: Page, selector: Selector, a: Address, b: Address)
    requires selector.Css? && IsFirstMatch(page, selector, a) && IsFirstMatch(page, selector, b)
    ensures a == b
  {
    if a != b { NotBothWays(a, b); }
  }

  /**
   * What is said of the element at `a`: one conclusion, the only one true of it,
   * and beside it exactly the facts that belong there. Beside a false RENDERING
   * stands the engine's disagreement, if the engine answers as it judges.
   */
  ghost predicate IsSaidOf(page: Page, a: Address, count: nat, w: Awaited, parts: seq<Part>, c: Part)
    requires IsAddress(page.root, a)
  {
    && (forall q :: Holds(page, a, w, q) <==> q == c)
    && (forall q :: q in parts <==> q == c || IsBeside(TruthOf(page, a), w, count, q))
    && |parts| >= 2 && parts[0].Facts? && parts[|parts| - 1].Caveat?
    && (w != Existing && EngineKnows(page, a) ==> (EngineDisagrees in parts <==> c.Rendering? && !IsHidden(page, a)))
  }

  /**
   * A diagnosis of what a wait was for: one conclusion; Missing exactly when
   * nothing matches, and then no lookup in any scope finds anything either, and
   * nothing else is said; otherwise what is to be said of the first match in the
   * document.
   */
  ghost predicate IsDiagnosis(page: Page, selector: Selector, w: Awaited, parts: seq<Part>) {
    && |Conclusions(parts)| == 1
    && var c := Conclusions(parts)[0];
    && (c.NotCss? <==> selector.Invalid?)
    && (c.Missing? <==> selector.Css? && forall a :: IsAddress(page.root, a) ==> !selector.matches(a))
    && (c.Missing? ==> forall scope, a :: !FoundInScope(page, selector, scope, a))
    && (c.NotCss? || c.Missing? ==> forall q :: q in parts <==> q == c)
    && (selector.Css? ==> forall a :: IsFirstMatch(page, selector, a) ==>
          IsSaidOf(page, a, |Matches(page, selector)|, w, parts, c))
  }

  lemma PartsAre(w: Awaited, p: Probe, t: Truth, parts: seq<Part>, c: Part)
    requires p.status.Present? && Tells(p, t)
    requires Conclusions(parts) == [c] && Asides(parts) == AsidesFor(w, p)
    ensures forall q :: q in parts <==> q == c || IsBeside(t, w, p.matchCount, q)
  {
    assert c in Conclusions(parts);
    SaidIs(parts, c);
    forall q
      ensures q in parts <==> q == c || IsBeside(t, w, p.matchCount, q)
    {
      SaidIs(parts, q);
      AsidesAreBeside(w, p, t, q);
    }
  }

  lemma SaidOf(page: Page, a: Address, count: nat, w: Awaited, p: Probe, parts: seq<Part>, c: Part)
    requires IsAddress(page.root, a) && p.status.Present? && DescribesNode(page, a, p) && count == p.matchCount
    requires Justified(c, w, p) && forall q :: Holds(page, a, w, q) <==> q == c
    requires Conclusions(parts) == [c] && Asides(parts) == AsidesFor(w, p)
    requires |parts| >= 2 && parts[0].Facts? && parts[|parts| - 1].Caveat?
    ensures IsSaidOf(page, a, count, w, parts, c)
  {
    ProbeTells(page, a, p);
    PartsAre(w, p, TruthOf(page, a), parts, c);
    if w != Existing && EngineKnows(page, a) {
      DisagreementMeans(page, a, w, p, parts, c);
    }
  }

  lemma NothingElse(parts: seq<Part>, c: Part)
    requires Conclusions(parts) == [c] && Asides(parts) == []
    ensures forall q :: q in parts <==> q == c
  {
    forall q
      ensures q in parts <==> q == c
    {
      SaidIs(parts, q);
      SaidIs(parts, c);
    }
  }

  /** The whole diagnosis, from the page. */
  method Diagnose(page: Page, selector: Selector, w: Awaited) returns (parts: seq<Part>)
    ensures IsDiagnosis(page, selector, w, parts)
  {
    var p := ProbeVisibilityInPage(page, selector);
    parts := ExplainVisibilityProbe(w, p);
    var c := Conclusions(parts)[0];
    if selector.Css? {
      MissingMeans(page, selector);
      if Matches(page, selector) != [] {
        var a := Matches(page, selector)[0];
        FoundMeans(page, selector, w, p, c);
        SaidOf(page, a, |Matches(page, selector)|, w, p, parts, c);
        forall b | IsFirstMatch(page, selector, b)
          ensures b == a
        {
          OneFirstMatch(page, selector, a, b);
        }
      }
    }
    if !p.status.Present? { NothingElse(parts, c); }
  }

  /**
   * From the message of a failed test to the verdict. Every wait with a selector
   * on one line is diagnosed as the wait it was, and a reverse wait is not taken
   * for one, unless its selector quotes one.
   */
  method ExplainFailure(page: Page, resolve: string -> Selector, message: string) returns (parts: Option<seq<Part>>)
    ensures forall selector, awaited, timeout ::
      message == Render(selector, awaited, timeout) && selector != "" && OneLine(selector) ==>
        parts.Some? && IsDiagnosis(page, resolve(selector), awaited, parts.value)
    ensures forall selector, awaited, timeout ::
      message == RenderReverse(selector, awaited, timeout) ==>
        (parts.None? <==> !exists k, i :: Quotes(ParseTail, selector, k, i))
    ensures parts.Some? ==> ParseWaitFailure(message).Some?
  {
    var wait := ParseWaitFailure(message);
    parts := None;
    if wait.Some? {
      var said := Diagnose(page, resolve(wait.value.selector), wait.value.waitedFor);
      parts := Some(said);
    }
    ParsesWaits(message);
  }

  lemma ParsesWaits(message: string)
    ensures forall selector, awaited, timeout ::
      message == Render(selector, awaited, timeout) && selector != "" && OneLine(selector) ==>
        ParseWaitFailure(message) == Some(WaitFailure(selector, awaited))
    ensures forall selector, awaited, timeout ::
      message == RenderReverse(selector, awaited, timeout) ==>
        (ParseWaitFailure(message).None? <==> !exists k, i :: Quotes(ParseTail, selector, k, i))
  {
    forall selector, awaited, timeout | message == Render(selector, awaited, timeout) && selector != "" && OneLine(selector)
      ensures ParseWaitFailure(message) == Some(WaitFailure(selector, awaited))
    {
      ParserUndoesTemplate(selector, awaited, timeout);
    }
    forall selector, awaited, timeout | message == RenderReverse(selector, awaited, timeout)
      ensures ParseWaitFailure(message).None? <==> !exists k, i :: Quotes(ParseTail, selector, k, i)
    {
      ReverseIsUnmatched(selector, awaited, timeout);
    }
  }
}
