/**
 * htmler's `Html`: the document value, its constructors, the root-element
 * lookup and the double-ended `select` iterator.
 */
module Htmler {
  import opened Wrappers
  import opened NodeTree

  datatype QuirksMode = NoQuirks | LimitedQuirks | Quirks

  /** An HTML tree with its parse errors and quirks mode. */
  datatype Html = Html(errors: seq<string>, quirksMode: QuirksMode, tree: Tree)

  /** `Html::new_document`: no errors, no quirks, a lone Document root. */
  function NewDocument(): (h: Html)
    ensures h.errors == [] && h.quirksMode == NoQuirks
    ensures h.tree.Valid() && |h.tree.nodes| == 1 && h.tree.nodes[0].kind == Document
  {
    Html([], NoQuirks, Tree([Node(Document, None, [])]))
  }

  /** `Html::new_fragment`: as `NewDocument`, with a Fragment root. */
  function NewFragment(): (h: Html)
    ensures h.errors == [] && h.quirksMode == NoQuirks
    ensures h.tree.Valid() && |h.tree.nodes| == 1 && h.tree.nodes[0].kind == Fragment
  {
    Html([], NoQuirks, Tree([Node(Fragment, None, [])]))
  }

  /**
   * A compiled selector. Its compiler and matcher are not part of this model:
   * `matches` is any total predicate on a node in its tree.
   */
  datatype Selector = Selector(matches: (Tree, nat) -> bool)

  /** A compound selector `name.cls`: an element with that local name and that class. */
  function TypeAndClass(name: string, cls: string): Selector {
    Selector((t: Tree, i: nat) =>
      i < |t.nodes| && t.nodes[i].kind.Element? &&
      t.nodes[i].kind.name == name && cls in t.nodes[i].kind.classes)
  }

  /** A type selector `name`. */
  function TypeOnly(name: string): Selector {
    Selector((t: Tree, i: nat) =>
      i < |t.nodes| && t.nodes[i].kind.Element? && t.nodes[i].kind.name == name)
  }

  /** `Node::wrap` succeeds exactly on element nodes. */
  predicate IsElement(t: Tree, i: nat)
    requires i < |t.nodes|
  {
    t.nodes[i].kind.Element?
  }

  /** The test `next` and `next_back` apply to each node the traversal hands out. */
  predicate Selects(t: Tree, sel: Selector, i: nat)
    requires i < |t.nodes|
  {
    IsElement(t, i) && t.nodes[i].parent.Some? && sel.matches(t, i)
  }

  /** The nodes of the arena range `[lo, hi)` that pass the filter, in arena order. */
  function Matching(t: Tree, sel: Selector, lo: nat, hi: nat): seq<nat>
    requires lo <= hi <= |t.nodes|
    decreases hi - lo
  {
    if lo == hi then []
    else (if Selects(t, sel, lo) then [lo] else []) + Matching(t, sel, lo + 1, hi)
  }

  function Reverse<T>(s: seq<T>): (r: seq<T>)
    ensures |r| == |s|
  {
    if s == [] then [] else [s[|s| - 1]] + Reverse(s[..|s| - 1])
  }

  /** A node is in `Matching(lo, hi)` exactly when it lies in the range and passes the filter. */
  lemma {:induction false} MatchingMembership(t: Tree, sel: Selector, lo: nat, hi: nat)
    requires lo <= hi <= |t.nodes|
    ensures forall i :: i in Matching(t, sel, lo, hi) <==> lo <= i < hi && Selects(t, sel, i)
    decreases hi - lo
  {
    if lo < hi {
      MatchingMembership(t, sel, lo + 1, hi);
    }
  }

  /** The filtered nodes come out strictly increasing: arena order and no repeats. */
  lemma {:induction false} MatchingIncreasing(t: Tree, sel: Selector, lo: nat, hi: nat)
    requires lo <= hi <= |t.nodes|
    ensures forall j, k :: 0 <= j < k < |Matching(t, sel, lo, hi)| ==>
      Matching(t, sel, lo, hi)[j] < Matching(t, sel, lo, hi)[k]
    decreases hi - lo
  {
    if lo < hi {
      MatchingIncreasing(t, sel, lo + 1, hi);
      MatchingMembership(t, sel, lo + 1, hi);
      var m := Matching(t, sel, lo, hi);
      var tail := Matching(t, sel, lo + 1, hi);
      if Selects(t, sel, lo) {
        assert m == [lo] + tail;
        forall j, k | 0 <= j < k < |m| ensures m[j] < m[k] {
          assert m[k] == tail[k - 1];
          if j == 0 {
            assert tail[k - 1] in tail;
          } else {
            assert m[j] == tail[j - 1];
          }
        }
      } else {
        assert m == tail;
      }
    }
  }

  /** Peeling the last node of the range, as `next_back` does. */
  lemma {:induction false} MatchingSnoc(t: Tree, sel: Selector, lo: nat, hi: nat)
    requires lo < hi <= |t.nodes|
    ensures Matching(t, sel, lo, hi) ==
      Matching(t, sel, lo, hi - 1) + (if Selects(t, sel, hi - 1) then [hi - 1] else [])
    decreases hi - lo
  {
    if lo < hi - 1 {
      MatchingSnoc(t, sel, lo + 1, hi);
      var h := if Selects(t, sel, lo) then [lo] else [];
      var l := if Selects(t, sel, hi - 1) then [hi - 1] else [];
      calc {
        Matching(t, sel, lo, hi);
        h + Matching(t, sel, lo + 1, hi);
        h + (Matching(t, sel, lo + 1, hi - 1) + l);
        (h + Matching(t, sel, lo + 1, hi - 1)) + l;
        Matching(t, sel, lo, hi - 1) + l;
      }
    }
  }

  /** The filter never keeps more nodes than the range holds. */
  lemma {:induction false} MatchingLength(t: Tree, sel: Selector, lo: nat, hi: nat)
    requires lo <= hi <= |t.nodes|
    ensures |Matching(t, sel, lo, hi)| <= hi - lo
    decreases hi - lo
  {
    if lo < hi {
      MatchingLength(t, sel, lo + 1, hi);
    }
  }

  /** In a valid tree the root is never selected, whatever the selector. */
  lemma RootNeverSelected(t: Tree, sel: Selector)
    requires t.Valid()
    ensures 0 !in Matching(t, sel, 0, |t.nodes|)
  {
    MatchingMembership(t, sel, 0, |t.nodes|);
  }

  /** The first element among the children `cs`. */
  function FirstElement(t: Tree, cs: seq<nat>): (r: Option<nat>)
    requires forall k :: 0 <= k < |cs| ==> cs[k] < |t.nodes|
    ensures r.None? <==> (forall k :: 0 <= k < |cs| ==> !IsElement(t, cs[k]))
    ensures r.Some? ==>
      (exists k :: 0 <= k < |cs| && cs[k] == r.value && IsElement(t, cs[k]) &&
        forall j :: 0 <= j < k ==> !IsElement(t, cs[j]))
  {
    if cs == [] then None
    else if IsElement(t, cs[0]) then Some(cs[0])
    else
      var r := FirstElement(t, cs[1..]);
      assert forall k :: 0 < k < |cs| ==> cs[k] == cs[1..][k - 1];
      if r.Some? then
        var k :| 0 <= k < |cs| - 1 && cs[1..][k] == r.value &&
          IsElement(t, cs[1..][k]) && forall j :: 0 <= j < k ==> !IsElement(t, cs[1..][j]);
        assert cs[k + 1] == r.value;
        r
      else r
  }

  /**
   * `Html::root_element`: the first element child of the root, skipping
   * doctype, comment and text children; "html node missing" when there is none.
   */
  function RootElement(h: Html): (r: Result<nat>)
    requires h.tree.Valid()
    ensures r.Ok? ==>
      (r.value < |h.tree.nodes| && IsElement(h.tree, r.value) &&
       h.tree.nodes[r.value].parent == Some(0))
    ensures r.Ok? ==>
      (exists k :: 0 <= k < |h.tree.nodes[0].children| && h.tree.nodes[0].children[k] == r.value &&
        forall j :: 0 <= j < k ==> !IsElement(h.tree, h.tree.nodes[0].children[j]))
    ensures r.Err? <==>
      (forall k :: 0 <= k < |h.tree.nodes[0].children| ==> !IsElement(h.tree, h.tree.nodes[0].children[k]))
    ensures r.Err? ==> r.error == "html node missing"
  {
    match FirstElement(h.tree, h.tree.nodes[0].children)
    case Some(e) => Ok(e)
    case None => Err("html node missing")
  }

  /** `first_child()?.as_text()?`: the text of a node's first child, when that child is text. */
  function FirstChildText(t: Tree, i: nat): Option<string>
    requires t.Valid() && i < |t.nodes|
  {
    var cs := t.nodes[i].children;
    if cs != [] && t.nodes[cs[0]].kind.Text? then Some(t.nodes[cs[0]].kind.text) else None
  }

  /** The first-child texts of `ids`, in order, up to the first node whose first child is not text. */
  function LeadingTexts(t: Tree, ids: seq<nat>): (r: seq<string>)
    requires t.Valid() && forall k :: 0 <= k < |ids| ==> ids[k] < |t.nodes|
    ensures |r| <= |ids|
    ensures forall k :: 0 <= k < |r| ==> FirstChildText(t, ids[k]) == Some(r[k])
    ensures |r| < |ids| ==> FirstChildText(t, ids[|r|]).None?
  {
    if ids == [] then []
    else match FirstChildText(t, ids[0])
      case None => []
      case Some(s) => [s] + LeadingTexts(t, ids[1..])
  }

  /** Every filtered node lies in the range. */
  lemma {:induction false} MatchingInRange(t: Tree, sel: Selector, lo: nat, hi: nat)
    requires lo <= hi <= |t.nodes|
    ensures forall k :: 0 <= k < |Matching(t, sel, lo, hi)| ==> lo <= Matching(t, sel, lo, hi)[k] < hi
    decreases hi - lo
  {
    if lo < hi {
      MatchingInRange(t, sel, lo + 1, hi);
    }
  }

  /** The texts a walk over the filtered range `[lo, hi)` reads before it stops. */
  ghost function SelectedTexts(t: Tree, sel: Selector, lo: nat, hi: nat): seq<string>
    requires t.Valid() && lo <= hi <= |t.nodes|
  {
    MatchingInRange(t, sel, lo, hi);
    LeadingTexts(t, Matching(t, sel, lo, hi))
  }

  /**
   * One step of that walk: the first filtered node's text followed by the
   * texts of the rest of the range, or nothing when its first child is not text.
   */
  lemma SelectedTextsStep(t: Tree, sel: Selector, lo: nat, mid: nat, hi: nat)
    requires t.Valid() && lo <= mid <= hi <= |t.nodes|
    requires Matching(t, sel, lo, hi) != [] && Matching(t, sel, mid, hi) == Matching(t, sel, lo, hi)[1..]
    ensures Matching(t, sel, lo, hi)[0] < |t.nodes|
    ensures FirstChildText(t, Matching(t, sel, lo, hi)[0]).None? ==> SelectedTexts(t, sel, lo, hi) == []
    ensures FirstChildText(t, Matching(t, sel, lo, hi)[0]).Some? ==>
      SelectedTexts(t, sel, lo, hi) ==
        [FirstChildText(t, Matching(t, sel, lo, hi)[0]).value] + SelectedTexts(t, sel, mid, hi)
  {
    MatchingInRange(t, sel, lo, hi);
  }

  /**
   * `HtmlSelect`: the arena traversal `Nodes` is the index range
   * `[front, back)`; `next` consumes from the front, `next_back` from the back.
   * The ghost fields record what each end has yielded so far.
   */
  class HtmlSelect {
    const tree: Tree
    const selector: Selector
    var front: nat
    var back: nat
    ghost var yielded: seq<nat>
    ghost var yieldedBack: seq<nat>

    /**
     * Whatever has been yielded from the front, what is left, and whatever has
     * been yielded from the back (in reverse) make up the whole selection.
     */
    ghost predicate Valid()
      reads this
    {
      front <= back <= |tree.nodes| &&
      yielded + Matching(tree, selector, front, back) + Reverse(yieldedBack)
        == Matching(tree, selector, 0, |tree.nodes|)
    }

    /** The nodes the iterator has yet to yield, in arena order. */
    ghost function Remaining(): seq<nat>
      reads this
      requires front <= back <= |tree.nodes|
    {
      Matching(tree, selector, front, back)
    }

    /** `Html::select`: a fresh traversal of the whole arena. */
    constructor (html: Html, selector: Selector)
      ensures Valid()
      ensures tree == html.tree && this.selector == selector
      ensures front == 0 && back == |tree.nodes|
      ensures Remaining() == Matching(tree, selector, 0, |tree.nodes|)
      ensures yielded == [] && yieldedBack == []
    {
      tree := html.tree;
      this.selector := selector;
      front, back := 0, |html.tree.nodes|;
      yielded, yieldedBack := [], [];
    }

    /**
     * `next`: skips nodes that fail the filter, yields the first one that
     * passes and consumes it; when none is left the traversal is exhausted.
     */
    method Next() returns (r: Option<nat>)
      requires Valid()
      modifies this
      ensures Valid()
      ensures back == old(back) && yieldedBack == old(yieldedBack)
      ensures old(Remaining()) == [] ==> r == None && front == back && yielded == old(yielded)
      ensures old(Remaining()) != [] ==>
        r == Some(old(Remaining())[0]) && front == r.value + 1 &&
        Remaining() == old(Remaining())[1..] && yielded == old(yielded) + [r.value]
      ensures r.Some? ==> old(front) <= r.value < back && Selects(tree, selector, r.value)
    {
      while front < back
        invariant old(front) <= front <= back == old(back)
        invariant yielded == old(yielded) && yieldedBack == old(yieldedBack)
        invariant Matching(tree, selector, old(front), back) == Matching(tree, selector, front, back)
        decreases back - front
      {
        var node := front;
        front := front + 1;
        if IsElement(tree, node) && tree.nodes[node].parent.Some? && selector.matches(tree, node) {
          yielded := yielded + [node];
          assert old(yielded) + Matching(tree, selector, node, back) + Reverse(yieldedBack)
            == yielded + Matching(tree, selector, front, back) + Reverse(yieldedBack);
          return Some(node);
        }
      }
      return None;
    }

    /**
     * `next_back`: the mirror image of `Next`, consuming the traversal from
     * its back end.
     */
    method NextBack() returns (r: Option<nat>)
      requires Valid()
      modifies this
      ensures Valid()
      ensures front == old(front) && yielded == old(yielded)
      ensures old(Remaining()) == [] ==> r == None && front == back && yieldedBack == old(yieldedBack)
      ensures old(Remaining()) != [] ==>
        r == Some(old(Remaining())[|old(Remaining())| - 1]) && back == r.value &&
        Remaining() == old(Remaining())[..|old(Remaining())| - 1] &&
        yieldedBack == old(yieldedBack) + [r.value]
      ensures r.Some? ==> front <= r.value < old(back) && Selects(tree, selector, r.value)
    {
      while front < back
        invariant old(front) == front <= back <= old(back)
        invariant yielded == old(yielded) && yieldedBack == old(yieldedBack)
        invariant Matching(tree, selector, front, old(back)) == Matching(tree, selector, front, back)
        decreases back - front
      {
        MatchingSnoc(tree, selector, front, back);
        back := back - 1;
        var node := back;
        if IsElement(tree, node) && tree.nodes[node].parent.Some? && selector.matches(tree, node) {
          ghost var before := yieldedBack;
          yieldedBack := yieldedBack + [node];
          assert yieldedBack[..|yieldedBack| - 1] == before;
          assert Reverse(yieldedBack) == [node] + Reverse(before);
          assert yielded + Matching(tree, selector, front, node + 1) + Reverse(before)
            == yielded + Matching(tree, selector, front, back) + Reverse(yieldedBack);
          return Some(node);
        }
      }
      return None;
    }

    /**
     * `size_hint`: the lower bound is 0, the upper bound the count of nodes
     * left in the unfiltered traversal; together they bound what is left.
     */
    function SizeHint(): (r: (nat, Option<nat>))
      reads this
      requires Valid()
      ensures r.0 == 0 && r.1 == Some(back - front)
      ensures r.0 <= |Remaining()| <= r.1.value
    {
      MatchingLength(tree, selector, front, back);
      (0, Some(back - front))
    }
  }

  /** In any interleaving of `Next` and `NextBack`, no node is yielded twice. */
  lemma YieldedAtMostOnce(it: HtmlSelect)
    requires it.Valid()
    ensures var s := it.yielded + it.Remaining() + Reverse(it.yieldedBack);
      forall j, k :: 0 <= j < k < |s| ==> s[j] < s[k]
  {
    assert it.yielded + it.Remaining() + Reverse(it.yieldedBack)
      == Matching(it.tree, it.selector, 0, |it.tree.nodes|);
    MatchingIncreasing(it.tree, it.selector, 0, |it.tree.nodes|);
  }

  /** Draining with `next` (`collect`) yields exactly the remaining selection. */
  method DrainForward(it: HtmlSelect) returns (xs: seq<nat>)
    requires it.Valid()
    modifies it
    ensures it.Valid() && it.Remaining() == []
    ensures xs == old(it.Remaining())
  {
    xs := [];
    while true
      invariant it.Valid()
      invariant xs + it.Remaining() == old(it.Remaining())
      decreases it.back - it.front
    {
      ghost var rest := it.Remaining();
      var r := it.Next();
      if r.None? {
        return;
      }
      assert rest == [r.value] + it.Remaining();
      xs := xs + [r.value];
    }
  }

  /** Draining with `next_back` (`rev().collect()`) yields the remaining selection reversed. */
  method DrainBackward(it: HtmlSelect) returns (xs: seq<nat>)
    requires it.Valid()
    modifies it
    ensures it.Valid() && it.Remaining() == []
    ensures xs == Reverse(old(it.Remaining()))
  {
    xs := [];
    while true
      invariant it.Valid()
      invariant xs + Reverse(it.Remaining()) == Reverse(old(it.Remaining()))
      decreases it.back - it.front
    {
      ghost var rest := it.Remaining();
      var r := it.NextBack();
      if r.None? {
        return;
      }
      assert rest[..|rest| - 1] == it.Remaining();
      assert Reverse(rest) == [r.value] + Reverse(it.Remaining());
      xs := xs + [r.value];
    }
  }
}
