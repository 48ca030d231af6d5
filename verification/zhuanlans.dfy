/**
 * `ZhihuArticle` (zhuanlan column articles): the title and Markdown content
 * the extractor fills in, and the recursive renderer `read_content_node`.
 */
module Zhuanlans {
  import opened Wrappers
  import opened Strings
  import opened NodeTree
  import opened Rendering
  import Htmler

  /** Node-level `get_attribute`: the value, or "" for a non-element or a missing attribute. */
  function AttributeOrEmpty(d: Dom, name: string): string {
    if d.kind.Element? && name in d.kind.attrs then d.kind.attrs[name] else ""
  }

  /** A descendant a figure takes its picture from: class `img`, non-empty `data-original`. */
  predicate IsPicture(d: Dom) {
    HasClass(d, "img") && AttributeOrEmpty(d, "data-original") != ""
  }

  /** The `data-original` of the first picture among `ds`. */
  function FirstPicture(ds: seq<Dom>): Option<string> {
    if ds == [] then None
    else if IsPicture(ds[0]) then Some(AttributeOrEmpty(ds[0], "data-original"))
    else FirstPicture(ds[1..])
  }

  /**
   * `FirstPicture` finds nothing exactly when no element of `ds` is a picture,
   * and otherwise the url of the first picture.
   */
  lemma {:induction false} FirstPictureIsFirst(ds: seq<Dom>)
    ensures FirstPicture(ds).None? <==> (forall k :: 0 <= k < |ds| ==> !IsPicture(ds[k]))
    ensures FirstPicture(ds).Some? ==>
      (exists k :: 0 <= k < |ds| && IsPicture(ds[k]) &&
        FirstPicture(ds).value == AttributeOrEmpty(ds[k], "data-original") &&
        forall j :: 0 <= j < k ==> !IsPicture(ds[j]))
  {
    if ds != [] && !IsPicture(ds[0]) {
      FirstPictureIsFirst(ds[1..]);
      assert forall k :: 0 < k < |ds| ==> ds[k] == ds[1..][k - 1];
      if FirstPicture(ds).Some? {
        var k :| 0 <= k < |ds| - 1 && IsPicture(ds[1..][k]) &&
          FirstPicture(ds).value == AttributeOrEmpty(ds[1..][k], "data-original") &&
          forall j :: 0 <= j < k ==> !IsPicture(ds[1..][j]);
        assert IsPicture(ds[k + 1]);
      }
    }
  }

  function ImageMarkdown(url: Option<string>): string {
    if url.Some? then "![](" + url.value + ")" else ""
  }

  /** The element names the article renderer knows. */
  predicate KnownElement(e: Dom) {
    e.kind.Element? ==> e.kind.name in {"p", "span", "br", "figure"}
  }

  /** What `read_content_node` appends for `d`, and whether it panics. */
  function RenderNode(d: Dom): Outcome
    decreases d, 1
  {
    match d.kind
    case Text(t) => Emit(Trim(t))
    case Element(name, classes, attrs) =>
      if name == "p" then RenderChildren(d, |d.children|).Then(Emit("\n\n"))
      else if name == "span" then
        if MathClass in classes then Emit(MathMarkup(attrs))
        else RenderChildren(d, |d.children|)
      else if name == "br" then Emit("\n")
      else if name == "figure" then Emit(ImageMarkdown(FirstPicture(Descendants(d))))
      else Outcome("", Some(UnknownElement(name)))
    case _ => Emit("")
  }

  /** The first `k` children of `d` rendered in order, stopping at a panic. */
  function RenderChildren(d: Dom, k: nat): Outcome
    requires k <= |d.children|
    decreases d, 0, k
  {
    if k == 0 then Emit("")
    else RenderChildren(d, k - 1).Then(RenderNode(d.children[k - 1]))
  }

  /** One turn of the children loop, taken when no earlier child panicked. */
  lemma ChildrenStep(d: Dom, k: nat)
    requires k < |d.children| && RenderChildren(d, k).panic == None
    ensures RenderChildren(d, k + 1).text == RenderChildren(d, k).text + RenderNode(d.children[k]).text
    ensures RenderChildren(d, k + 1).panic == RenderNode(d.children[k]).panic
  {
  }

  /** Once a child panics, the later children are never rendered. */
  lemma {:induction false} ChildrenPanicSticks(d: Dom, k: nat, m: nat)
    requires k <= m <= |d.children| && RenderChildren(d, k).panic.Some?
    ensures RenderChildren(d, m) == RenderChildren(d, k)
    decreases m
  {
    if m > k {
      ChildrenPanicSticks(d, k, m - 1);
    }
  }

  /** A panic always names an element of the subtree that the renderer does not know. */
  lemma {:induction false} PanicCause(d: Dom)
    decreases d, 1
    ensures RenderNode(d).panic.Some? ==>
      exists e :: e in Descendants(d) && !KnownElement(e) &&
        RenderNode(d).panic == Some(UnknownElement(e.kind.name))
  {
    match d.kind
    case Element(name, classes, attrs) =>
      if name == "p" || (name == "span" && MathClass !in classes) {
        ChildrenPanicCause(d, |d.children|);
      } else {
        assert d in Descendants(d);
      }
    case _ =>
  }

  lemma {:induction false} ChildrenPanicCause(d: Dom, k: nat)
    requires k <= |d.children|
    decreases d, 0, k
    ensures RenderChildren(d, k).panic.Some? ==>
      exists e :: e in Descendants(d) && !KnownElement(e) &&
        RenderChildren(d, k).panic == Some(UnknownElement(e.kind.name))
  {
    if k > 0 {
      var child := d.children[k - 1];
      if RenderChildren(d, k - 1).panic.Some? {
        ChildrenPanicCause(d, k - 1);
      } else {
        PanicCause(child);
        if RenderNode(child).panic.Some? {
          var e :| e in Descendants(child) && !KnownElement(e) &&
            RenderNode(child).panic == Some(UnknownElement(e.kind.name));
          DescendantOfChild(d, k - 1, e);
        }
      }
    }
  }

  /** A subtree made of p, span, br and figure elements (and other node kinds) never panics. */
  lemma KnownElementsNeverPanic(d: Dom)
    requires forall e :: e in Descendants(d) ==> KnownElement(e)
    ensures RenderNode(d).panic == None
  {
    PanicCause(d);
  }

  /**
   * A figure appends nothing, or exactly one `![](url)` whose url is the
   * non-empty `data-original` of a descendant with class `img`.
   */
  lemma FigureEmitsAtMostOneImage(d: Dom)
    requires d.kind.Element? && d.kind.name == "figure"
    ensures RenderNode(d).panic == None
    ensures RenderNode(d).text == "" <==> (forall e :: e in Descendants(d) ==> !IsPicture(e))
    ensures RenderNode(d).text != "" ==>
      exists e :: e in Descendants(d) && IsPicture(e) &&
        RenderNode(d).text == "![](" + AttributeOrEmpty(e, "data-original") + ")"
  {
    var ds := Descendants(d);
    FirstPictureIsFirst(ds);
    if FirstPicture(ds).Some? {
      var k :| 0 <= k < |ds| && IsPicture(ds[k]) &&
        FirstPicture(ds).value == AttributeOrEmpty(ds[k], "data-original") &&
        forall j :: 0 <= j < k ==> !IsPicture(ds[j]);
      assert ds[k] in ds;
    } else {
      forall e | e in ds ensures !IsPicture(e) {
        var k :| 0 <= k < |ds| && ds[k] == e;
      }
    }
  }

  /** A math span is rendered from its attributes alone: its children are never visited. */
  lemma MathSpanIgnoresChildren(kind: NodeKind, cs1: seq<Dom>, cs2: seq<Dom>)
    requires kind.Element? && kind.name == "span" && MathClass in kind.classes
    ensures RenderNode(Dom(kind, cs1)) == RenderNode(Dom(kind, cs2)) == Emit(MathMarkup(kind.attrs))
  {
  }

  class ZhihuArticle {
    var title: string
    var content: string

    /** `ZhihuArticle::default`: empty title and content. */
    constructor ()
      ensures title == "" && content == ""
    {
      title, content := "", "";
    }

    /** `Display`: a level-one heading with the title, a blank line, then the content. */
    function Display(): (r: string)
      reads this
      ensures |r| == |title| + |content| + 4
      ensures r[..2] == "# " && r[2..2 + |title|] == title &&
        r[2 + |title|..4 + |title|] == "\n\n" && r[4 + |title|..] == content
    {
      "# " + title + "\n\n" + content
    }

    /**
     * `extract_title`: the text `select_text` found under `h1.Post-Title`, or
     * the empty string when nothing matched. `select_text` is not part of this
     * model, so its answer is the parameter.
     */
    method ExtractTitle(selected: Option<string>)
      modifies this`title
      ensures title == selected.GetOr("")
      ensures content == old(content)
    {
      title := selected.GetOr("");
    }

    /**
     * `extract_description`: walks the `div.QuestionRichText` matches, stopping
     * at the first whose first child is not text. Its only effect is printing
     * those texts; the model returns them and changes no field.
     */
    method ExtractDescription(html: Htmler.Html) returns (printed: seq<string>)
      requires html.tree.Valid()
      ensures printed == Htmler.SelectedTexts(html.tree, DescriptionSelector(), 0, |html.tree.nodes|)
    {
      var it := new Htmler.HtmlSelect(html, DescriptionSelector());
      printed := [];
      while true
        invariant it.Valid() && it.tree == html.tree && it.selector == DescriptionSelector()
        invariant printed + Htmler.SelectedTexts(html.tree, DescriptionSelector(), it.front, it.back) ==
          Htmler.SelectedTexts(html.tree, DescriptionSelector(), 0, |html.tree.nodes|)
      decreases it.back - it.front
      {
        ghost var lo := it.front;
        var node := it.Next();
        if node.None? {
          return;
        }
        Htmler.SelectedTextsStep(html.tree, DescriptionSelector(), lo, it.front, it.back);
        var text := Htmler.FirstChildText(html.tree, node.value);
        if text.None? {
          return;
        }
        printed := printed + [text.value];
      }
    }

    /**
     * `read_content_node`: appends the Markdown for `node` to `content`,
     * returning the panic message when it meets an unknown element.
     */
    method ReadContentNode(node: Dom) returns (panic: Option<string>)
      modifies this`content
      decreases node, 2
      ensures title == old(title)
      ensures content == old(content) + RenderNode(node).text
      ensures panic == RenderNode(node).panic
    {
      panic := None;
      match node.kind {
        case Text(t) =>
          content := content + Trim(t);
        case Element(_, _, _) =>
          panic := ReadElement(node);
        case _ =>
      }
    }

    /** The element arm of `read_content_node`, dispatching on the tag name. */
    method ReadElement(node: Dom) returns (panic: Option<string>)
      requires node.kind.Element?
      modifies this`content
      decreases node, 1
      ensures content == old(content) + RenderNode(node).text
      ensures panic == RenderNode(node).panic
    {
      var name := node.kind.name;
      panic := None;
      if name == "p" {
        panic := ReadChildren(node);
        if panic.None? {
          content := content + "\n\n";
        }
      } else if name == "span" {
        if MathClass in node.kind.classes {
          content := content + MathMarkup(node.kind.attrs);
        } else {
          panic := ReadChildren(node);
        }
      } else if name == "br" {
        content := content + "\n";
      } else if name == "figure" {
        AppendFirstPicture(node);
      } else {
        panic := Some(UnknownElement(name));
      }
    }

    /**
     * The figure branch: scans the descendants with class `img` in pre-order
     * and writes `![](url)` for the first non-empty `data-original`, then stops.
     */
    method AppendFirstPicture(node: Dom)
      modifies this`content
      ensures content == old(content) + ImageMarkdown(FirstPicture(Descendants(node)))
    {
      var ds := Descendants(node);
      var i := 0;
      while i < |ds|
        invariant 0 <= i <= |ds|
        invariant content == old(content)
        invariant FirstPicture(ds) == FirstPicture(ds[i..])
      {
        var original := AttributeOrEmpty(ds[i], "data-original");
        if HasClass(ds[i], "img") && original != "" {
          assert FirstPicture(ds[i..]) == Some(original);
          content := content + "![](" + original + ")";
          return;
        }
        assert ds[i..][1..] == ds[i + 1..];
        i := i + 1;
      }
    }

    /** The `for child in node.children()` loop: each child in order, stopping at a panic. */
    method ReadChildren(node: Dom) returns (panic: Option<string>)
      modifies this`content
      decreases node, 0
      ensures content == old(content) + RenderChildren(node, |node.children|).text
      ensures panic == RenderChildren(node, |node.children|).panic
    {
      var i := 0;
      while i < |node.children|
        invariant 0 <= i <= |node.children|
        invariant content == old(content) + RenderChildren(node, i).text
        invariant RenderChildren(node, i).panic == None
      {
        ChildrenStep(node, i);
        panic := ReadContentNode(node.children[i]);
        i := i + 1;
        if panic.Some? {
          ChildrenPanicSticks(node, i, |node.children|);
          return;
        }
      }
      panic := None;
    }
  }

  /** The constant selector `div.QuestionRichText`. */
  function DescriptionSelector(): Htmler.Selector {
    Htmler.TypeAndClass("div", "QuestionRichText")
  }
}
