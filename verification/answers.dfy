/**
 * `ZhihuAnswer` (question answers): the same extractor shape as the article,
 * with a renderer that walks a span's class list instead of testing one class.
 */
module Answers {
  import opened Wrappers
  import opened Strings
  import opened NodeTree
  import opened Rendering
  import Htmler
  import Zhuanlans

  /** What `read_content_node` appends for `d`, and whether it panics. */
  function RenderNode(d: Dom): Outcome
    decreases d, 2
  {
    match d.kind
    case Text(t) => Emit(Trim(t))
    case Element(name, classes, attrs) =>
      if name == "p" then RenderChildren(d, |d.children|).Then(Emit("\n\n"))
      else if name == "span" then RenderClasses(d, |classes|)
      else Outcome("", Some(UnknownElement(name)))
    case _ => Emit("")
  }

  /**
   * One turn of the span's class loop: a class containing `ztext-math` emits
   * the formula, any other class renders all the children again.
   */
  function RenderClass(d: Dom, cls: string): Outcome
    requires d.kind.Element?
    decreases d, 1, 0
  {
    if Contains(cls, MathClass) then Emit(MathMarkup(d.kind.attrs))
    else RenderChildren(d, |d.children|)
  }

  /** The first `k` turns of the span's class loop, stopping at a panic. */
  function RenderClasses(d: Dom, k: nat): Outcome
    requires d.kind.Element? && k <= |d.kind.classes|
    decreases d, 1, k
  {
    if k == 0 then Emit("")
    else RenderClasses(d, k - 1).Then(RenderClass(d, d.kind.classes[k - 1]))
  }

  /** The first `k` children of `d` rendered in order, stopping at a panic. */
  function RenderChildren(d: Dom, k: nat): Outcome
    requires k <= |d.children|
    decreases d, 0, k
  {
    if k == 0 then Emit("")
    else RenderChildren(d, k - 1).Then(RenderNode(d.children[k - 1]))
  }

  /** Once a child panics, the later children are never rendered. */
  lemma {:induction false} ChildrenPanicSticks(d: Dom, k: nat, m: nat)
    requires k <= m <= |d.children| && RenderChildren(d, k).panic.Some?
    ensures RenderChildren(d, m) == RenderChildren(d, k)
    decreases m
  {
    if m > k {
      ChildrenPanicSticks(d, k, m - 1);
    }
  }

  /** Once a class turn panics, the remaining classes are never visited. */
  lemma {:induction false} ClassesPanicSticks(d: Dom, k: nat, m: nat)
    requires d.kind.Element? && k <= m <= |d.kind.classes| && RenderClasses(d, k).panic.Some?
    ensures RenderClasses(d, m) == RenderClasses(d, k)
    decreases m
  {
    if m > k {
      ClassesPanicSticks(d, k, m - 1);
    }
  }

  /** `s` written `n` times in a row. */
  function Repeat(s: string, n: nat): string {
    if n == 0 then "" else Repeat(s, n - 1) + s
  }

  /**
   * A span none of whose classes mentions `ztext-math` renders its children
   * once per class.
   */
  lemma ChildrenOncePerClass(d: Dom)
    requires d.kind.Element? && d.kind.name == "span"
    requires forall k :: 0 <= k < |d.kind.classes| ==> !Contains(d.kind.classes[k], MathClass)
    requires RenderChildren(d, |d.children|).panic == None
    ensures RenderNode(d) == Emit(Repeat(RenderChildren(d, |d.children|).text, |d.kind.classes|))
  {
    ClassesRepeatChildren(d, |d.kind.classes|);
  }

  lemma {:induction false} ClassesRepeatChildren(d: Dom, k: nat)
    requires d.kind.Element? && k <= |d.kind.classes|
    requires forall j :: 0 <= j < |d.kind.classes| ==> !Contains(d.kind.classes[j], MathClass)
    requires RenderChildren(d, |d.children|).panic == None
    ensures RenderClasses(d, k) == Emit(Repeat(RenderChildren(d, |d.children|).text, k))
  {
    if k > 0 {
      ClassesRepeatChildren(d, k - 1);
    }
  }

  /** A span without classes appends nothing: the class loop never runs. */
  lemma SpanWithoutClassesIsSilent(d: Dom)
    requires d.kind.Element? && d.kind.name == "span" && d.kind.classes == []
    ensures RenderNode(d) == Emit("")
  {
  }

  /**
   * An element on which the two renderers agree: neither `br` nor `figure`
   * (only the article knows them), and a span only with exactly one class
   * that is `ztext-math` itself or does not mention it.
   */
  predicate RenderedAlike(e: Dom) {
    e.kind.Element? ==>
      e.kind.name != "br" && e.kind.name != "figure" &&
      (e.kind.name == "span" ==>
        |e.kind.classes| == 1 &&
        (e.kind.classes[0] == MathClass || !Contains(e.kind.classes[0], MathClass)))
  }

  /** On such subtrees the answer renderer behaves exactly as the article renderer. */
  lemma {:induction false} AgreesWithArticle(d: Dom)
    requires forall e :: e in Descendants(d) ==> RenderedAlike(e)
    ensures RenderNode(d) == Zhuanlans.RenderNode(d)
    decreases d, 1
  {
    assert d in Descendants(d);
    match d.kind
    case Element(name, classes, attrs) =>
      if name == "p" {
        ChildrenAgree(d, |d.children|);
      } else if name == "span" {
        var c := classes[0];
        ContainsSelf(MathClass);
        var x := RenderClass(d, c);
        assert RenderClasses(d, 1) == Emit("").Then(x);
        assert "" + x.text == x.text;
        if c != MathClass {
          assert MathClass !in classes;
          ChildrenAgree(d, |d.children|);
        }
      }
    case _ =>
  }

  lemma {:induction false} ChildrenAgree(d: Dom, k: nat)
    requires k <= |d.children|
    requires forall e :: e in Descendants(d) ==> RenderedAlike(e)
    ensures RenderChildren(d, k) == Zhuanlans.RenderChildren(d, k)
    decreases d, 0, k
  {
    if k > 0 {
      ChildrenAgree(d, k - 1);
      forall e | e in Descendants(d.children[k - 1]) ensures RenderedAlike(e) {
        DescendantOfChild(d, k - 1, e);
      }
      AgreesWithArticle(d.children[k - 1]);
    }
  }

  /** The constant selector `h1.QuestionHeader-title`. */
  function TitleSelector(): Htmler.Selector {
    Htmler.TypeAndClass("h1", "QuestionHeader-title")
  }

  /** The text of the first child of the first `h1.QuestionHeader-title`, when it is text. */
  ghost function QuestionTitle(t: NodeTree.Tree): Option<string>
    requires t.Valid()
  {
    var m := Htmler.Matching(t, TitleSelector(), 0, |t.nodes|);
    Htmler.MatchingInRange(t, TitleSelector(), 0, |t.nodes|);
    if m == [] then None else Htmler.FirstChildText(t, m[0])
  }

  class ZhihuAnswer {
    var title: string
    var content: string

    /** `ZhihuAnswer::new`: empty title and content. */
    constructor ()
      ensures title == "" && content == ""
    {
      title, content := "", "";
    }

    /** `Display`: a level-one heading with the title, a blank line, then the content. */
    function Display(): (r: string)
      reads this
      ensures |r| == |title| + |content| + 4
      ensures r[..2] == "# " && r[2..2 + |title|] == title &&
        r[2 + |title|..4 + |title|] == "\n\n" && r[4 + |title|..] == content
    {
      "# " + title + "\n\n" + content
    }

    /**
     * `extract_title`: the text child of the first `h1.QuestionHeader-title`;
     * when there is no such heading, or its first child is not text, the
     * title keeps its previous value.
     */
    method ExtractTitle(html: Htmler.Html)
      requires html.tree.Valid()
      modifies this`title
      ensures title == QuestionTitle(html.tree).GetOr(old(title))
      ensures content == old(content)
    {
      var it := new Htmler.HtmlSelect(html, TitleSelector());
      var node := it.Next();
      if node.Some? {
        var text := Htmler.FirstChildText(html.tree, node.value);
        if text.Some? {
          title := text.value;
        }
      }
    }

    /**
     * `read_content_node`: appends the Markdown for `node` to `content`,
     * returning the panic message when it meets an element other than p or span.
     */
    method ReadContentNode(node: Dom) returns (panic: Option<string>)
      modifies this`content
      decreases node, 3
      ensures title == old(title)
      ensures content == old(content) + RenderNode(node).text
      ensures panic == RenderNode(node).panic
    {
      panic := None;
      match node.kind {
        case Text(t) =>
          content := content + Trim(t);
        case Element(_, _, _) =>
          panic := ReadElement(node);
        case _ =>
      }
    }

    /** The element arm of `read_content_node`, dispatching on the tag name. */
    method ReadElement(node: Dom) returns (panic: Option<string>)
      requires node.kind.Element?
      modifies this`content
      decreases node, 2
      ensures content == old(content) + RenderNode(node).text
      ensures panic == RenderNode(node).panic
    {
      var name := node.kind.name;
      panic := None;
      if name == "p" {
        panic := ReadChildren(node);
        if panic.None? {
          content := content + "\n\n";
        }
      } else if name == "span" {
        panic := ReadClasses(node);
      } else {
        panic := Some(UnknownElement(name));
      }
    }

    /**
     * The span branch: `for child in e.classes()`, one turn per class. The
     * `node.select(&script)` in each turn builds an iterator that is dropped
     * unused, so it has no effect and is not modelled.
     */
    method ReadClasses(node: Dom) returns (panic: Option<string>)
      requires node.kind.Element?
      modifies this`content
      decreases node, 1
      ensures content == old(content) + RenderClasses(node, |node.kind.classes|).text
      ensures panic == RenderClasses(node, |node.kind.classes|).panic
    {
      var classes := node.kind.classes;
      var j := 0;
      while j < |classes|
        invariant 0 <= j <= |classes|
        invariant content == old(content) + RenderClasses(node, j).text
        invariant RenderClasses(node, j).panic == None
      {
        ghost var before := RenderClasses(node, j);
        if Contains(classes[j], MathClass) {
          content := content + MathMarkup(node.kind.attrs);
          panic := None;
        } else {
          panic := ReadChildren(node);
        }
        j := j + 1;
        assert RenderClasses(node, j) == before.Then(RenderClass(node, classes[j - 1]));
        if panic.Some? {
          ClassesPanicSticks(node, j, |classes|);
          return;
        }
      }
      panic := None;
    }

    /** The `for child in node.children()` loop: each child in order, stopping at a panic. */
    method ReadChildren(node: Dom) returns (panic: Option<string>)
      modifies this`content
      decreases node, 0
      ensures content == old(content) + RenderChildren(node, |node.children|).text
      ensures panic == RenderChildren(node, |node.children|).panic
    {
      var i := 0;
      while i < |node.children|
        invariant 0 <= i <= |node.children|
        invariant content == old(content) + RenderChildren(node, i).text
        invariant RenderChildren(node, i).panic == None
      {
        ghost var before := RenderChildren(node, i);
        panic := ReadContentNode(node.children[i]);
        i := i + 1;
        assert RenderChildren(node, i) == before.Then(RenderNode(node.children[i - 1]));
        if panic.Some? {
          ChildrenPanicSticks(node, i, |node.children|);
          return;
        }
      }
      panic := None;
    }
  }
}
