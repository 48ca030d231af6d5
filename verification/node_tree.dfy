/**
 * The node model both crates share: an arena of nodes addressed by index
 * (ego_tree's `Tree<NodeKind>`), and, for code that only walks downward from
 * one node, the same subtree seen as a value.
 */
module NodeTree {
  import opened Wrappers

  /** The tagged content of a node (`NodeKind` in htmler, `Node` in scraper). */
  datatype NodeKind =
    | Document
    | Fragment
    | Doctype(doctypeName: string, publicId: string, systemId: string)
    | Comment(comment: string)
    | Text(text: string)
      /**
       * An element: its local name, its class list as the library yields it
       * (derived from the `class` attribute) and its attributes by name.
       */
    | Element(name: string, classes: seq<string>, attrs: map<string, string>)
    | ProcessingInstruction(target: string, data: string)

  /** One arena slot: the content, the parent link and the ordered child links. */
  datatype Node = Node(kind: NodeKind, parent: Option<nat>, children: seq<nat>)

  /** The arena. Index 0 is the root that `Tree::new` creates. */
  datatype Tree = Tree(nodes: seq<Node>) {

    /**
     * The structural invariant ego_tree keeps: one parentless Document or
     * Fragment root at index 0, and matched child and parent links. Other
     * nodes may be parentless (created, not yet attached).
     */
    ghost predicate Valid() {
      |nodes| > 0 && nodes[0].parent == None &&
      (nodes[0].kind.Document? || nodes[0].kind.Fragment?) &&
      ChildLinks() && ParentLinks()
    }

    /** Every child link stays inside the arena and is matched by the child's parent link. */
    ghost predicate ChildLinks() {
      forall i, k :: 0 <= i < |nodes| && 0 <= k < |nodes[i].children| ==>
        nodes[i].children[k] < |nodes| && nodes[nodes[i].children[k]].parent == Some(i)
    }

    /** Every parent link stays inside the arena and is matched by a child link. */
    ghost predicate ParentLinks() {
      forall i :: 0 <= i < |nodes| && nodes[i].parent.Some? ==>
        nodes[i].parent.value < |nodes| && i in nodes[nodes[i].parent.value].children
    }
  }

  /** A node together with everything below it, as a `NodeRef` walking downward sees it. */
  datatype Dom = Dom(kind: NodeKind, children: seq<Dom>)

  /** `has_class` on a node: only elements have classes; membership is exact. */
  predicate HasClass(d: Dom, cls: string) {
    d.kind.Element? && cls in d.kind.classes
  }

  /** ego_tree's `descendants()`: the node itself, then its subtrees in pre-order. */
  function Descendants(d: Dom): (r: seq<Dom>)
    decreases d, 1
    ensures |r| > 0 && r[0] == d
  {
    [d] + ChildDescendants(d, |d.children|)
  }

  /** The pre-order descendants of the first `k` children of `d`. */
  function ChildDescendants(d: Dom, k: nat): seq<Dom>
    requires k <= |d.children|
    decreases d, 0, k
  {
    if k == 0 then [] else ChildDescendants(d, k - 1) + Descendants(d.children[k - 1])
  }

  /** Every descendant of a child is a descendant of its parent. */
  lemma {:induction false} DescendantOfChild(d: Dom, i: nat, e: Dom)
    requires i < |d.children| && e in Descendants(d.children[i])
    ensures e in Descendants(d)
  {
    ChildDescendantsGrow(d, |d.children|, i, e);
  }

  lemma {:induction false} ChildDescendantsGrow(d: Dom, m: nat, i: nat, e: Dom)
    requires i < m <= |d.children| && e in Descendants(d.children[i])
    ensures e in ChildDescendants(d, m)
    decreases m
  {
    if m == i + 1 {
    } else {
      ChildDescendantsGrow(d, m - 1, i, e);
    }
  }
}
