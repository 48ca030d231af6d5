/**
 * The trees html5ever builds for the documents in htmler's unit tests, and
 * what the select iterator and the root lookup give on them.
 */
module HtmlerExamples {
  import opened Wrappers
  import opened NodeTree
  import opened Htmler

  /**
   * The one parse error html5ever records for a document that opens without
   * a doctype (its message when exact errors are off); the same token also
   * switches the document to quirks mode.
   */
  const MissingDoctype := "Unexpected token"

  function El(name: string): NodeKind {
    Element(name, [], map[])
  }

  /**
   * `<p>element1</p><p>element2</p><p>element3</p>` parsed as a document: ten
   * nodes, and, with no doctype, quirks mode and one parse error.
   */
  function ThreeParagraphs(): Html {
    Html([MissingDoctype], Quirks, Tree([
      Node(Document, None, [1]),
      Node(El("html"), Some(0), [2, 3]),
      Node(El("head"), Some(1), []),
      Node(El("body"), Some(1), [4, 6, 8]),
      Node(El("p"), Some(3), [5]),
      Node(Text("element1"), Some(4), []),
      Node(El("p"), Some(3), [7]),
      Node(Text("element2"), Some(6), []),
      Node(El("p"), Some(3), [9]),
      Node(Text("element3"), Some(8), [])
    ]))
  }

  /** Selecting `p` in arena order gives the three paragraphs. */
  lemma ThreeParagraphsForward()
    ensures Matching(ThreeParagraphs().tree, TypeOnly("p"), 0, 10) == [4, 6, 8]
  {
    var t, sel := ThreeParagraphs().tree, TypeOnly("p");
    assert Matching(t, sel, 9, 10) == [];
    assert Matching(t, sel, 8, 10) == [8];
    assert Matching(t, sel, 7, 10) == [8];
    assert Matching(t, sel, 6, 10) == [6, 8];
    assert Matching(t, sel, 5, 10) == [6, 8];
    assert Matching(t, sel, 4, 10) == [4, 6, 8];
    assert Matching(t, sel, 3, 10) == [4, 6, 8];
    assert Matching(t, sel, 2, 10) == [4, 6, 8];
    assert Matching(t, sel, 1, 10) == [4, 6, 8];
  }

  /** The `select_is_reversible` test: draining from the back gives element3, element2, element1. */
  method SelectIsReversible() returns (xs: seq<nat>)
    ensures xs == [8, 6, 4]
    ensures ThreeParagraphs().tree.Valid()
    ensures FirstChildText(ThreeParagraphs().tree, xs[0]) == Some("element3")
    ensures FirstChildText(ThreeParagraphs().tree, xs[1]) == Some("element2")
    ensures FirstChildText(ThreeParagraphs().tree, xs[2]) == Some("element1")
  {
    var it := new HtmlSelect(ThreeParagraphs(), TypeOnly("p"));
    ThreeParagraphsForward();
    ParagraphsReversed();
    ParagraphTexts();
    xs := DrainBackward(it);
  }

  /** The three paragraphs hold the texts element1, element2 and element3. */
  lemma ParagraphTexts()
    ensures ThreeParagraphs().tree.Valid()
    ensures FirstChildText(ThreeParagraphs().tree, 4) == Some("element1")
    ensures FirstChildText(ThreeParagraphs().tree, 6) == Some("element2")
    ensures FirstChildText(ThreeParagraphs().tree, 8) == Some("element3")
  {
    ParagraphsValid();
  }

  /** The tree of `ThreeParagraphs` is well formed. */
  lemma ParagraphsValid()
    ensures ThreeParagraphs().tree.Valid()
  {
    ParagraphChildLinks();
    ParagraphParentLinks();
  }

  lemma ParagraphParentLinks()
    ensures ThreeParagraphs().tree.ParentLinks()
  {
    var t := ThreeParagraphs().tree;
    assert t.nodes[1].children == [2, 3] && t.nodes[3].children == [4, 6, 8];
  }

  lemma ParagraphChildLinks()
    ensures ThreeParagraphs().tree.ChildLinks()
  {
    var t := ThreeParagraphs().tree;
    assert t.nodes[1].children == [2, 3] && t.nodes[3].children == [4, 6, 8];
  }

  lemma ParagraphsReversed()
    ensures Reverse([4, 6, 8]) == [8, 6, 4]
  {
    assert [4, 6, 8][..2] == [4, 6] && [4, 6][..1] == [4];
  }

  /** The `select_has_a_size_hint` test: `(0, Some(10))` before anything is consumed. */
  method SelectHasASizeHint() returns (hint: (nat, Option<nat>))
    ensures hint == (0, Some(10))
  {
    var it := new HtmlSelect(ThreeParagraphs(), TypeOnly("p"));
    hint := it.SizeHint();
  }

  /** `<!DOCTYPE html>\n<title>abc</title>` parsed as a document. */
  function DoctypeDocument(): Html {
    Html([], NoQuirks, Tree([
      Node(Document, None, [1, 2]),
      Node(Doctype("html", "", ""), Some(0), []),
      Node(El("html"), Some(0), [3, 6]),
      Node(El("head"), Some(2), [4]),
      Node(El("title"), Some(3), [5]),
      Node(Text("abc"), Some(4), []),
      Node(El("body"), Some(2), [])
    ]))
  }

  /**
   * `<!-- comment --><title>abc</title>` parsed as a document: the comment goes
   * to the root, and the `title` start tag, met before any doctype, is a parse
   * error that sets quirks mode.
   */
  function CommentDocument(): Html {
    Html([MissingDoctype], Quirks, Tree([
      Node(Document, None, [1, 2]),
      Node(Comment(" comment "), Some(0), []),
      Node(El("html"), Some(0), [3, 6]),
      Node(El("head"), Some(2), [4]),
      Node(El("title"), Some(3), [5]),
      Node(Text("abc"), Some(4), []),
      Node(El("body"), Some(2), [])
    ]))
  }

  /** `<a href="http://github.com">1</a>` parsed as a fragment in a `body` context. */
  function LinkFragment(): Html {
    Html([], NoQuirks, Tree([
      Node(Fragment, None, [2]),
      Node(El("body"), None, []),
      Node(El("html"), Some(0), [3]),
      Node(Element("a", [], map["href" := "http://github.com"]), Some(2), [4]),
      Node(Text("1"), Some(3), [])
    ]))
  }

  lemma DoctypeChildLinks()
    ensures DoctypeDocument().tree.ChildLinks()
  {
    var d := DoctypeDocument().tree;
    assert d.nodes[0].children == [1, 2] && d.nodes[2].children == [3, 6];
  }

  lemma DoctypeParentLinks()
    ensures DoctypeDocument().tree.ParentLinks()
  {
  }

  lemma CommentChildLinks()
    ensures CommentDocument().tree.ChildLinks()
  {
    var c := CommentDocument().tree;
    assert c.nodes[0].children == [1, 2] && c.nodes[2].children == [3, 6];
  }

  lemma CommentParentLinks()
    ensures CommentDocument().tree.ParentLinks()
  {
  }

  /** The tree of `DoctypeDocument` is well formed. */
  lemma DoctypeDocumentValid()
    ensures DoctypeDocument().tree.Valid()
  {
    DoctypeChildLinks();
    DoctypeParentLinks();
  }

  /** The tree of `CommentDocument` is well formed. */
  lemma CommentDocumentValid()
    ensures CommentDocument().tree.Valid()
  {
    CommentChildLinks();
    CommentParentLinks();
  }

  /** The root lookup steps over a leading doctype to the `html` element. */
  lemma RootElementSkipsDoctype()
    ensures DoctypeDocument().tree.Valid() && RootElement(DoctypeDocument()) == Ok(2)
  {
    DoctypeDocumentValid();
    var d := DoctypeDocument().tree;
    assert d.nodes[0].children == [1, 2];
    assert !IsElement(d, 1) && IsElement(d, 2);
    assert FirstElement(d, [1, 2]) == FirstElement(d, [2]);
  }

  /** The root lookup steps over a leading comment to the `html` element. */
  lemma RootElementSkipsComment()
    ensures CommentDocument().tree.Valid() && RootElement(CommentDocument()) == Ok(2)
  {
    CommentDocumentValid();
    var c := CommentDocument().tree;
    assert c.nodes[0].children == [1, 2];
    assert !IsElement(c, 1) && IsElement(c, 2);
    assert FirstElement(c, [1, 2]) == FirstElement(c, [2]);
  }

  /** In a fragment the root lookup finds the `html` element around the content. */
  lemma RootElementOfFragment()
    ensures LinkFragment().tree.Valid() && RootElement(LinkFragment()) == Ok(2)
  {
    var f := LinkFragment().tree;
    assert f.nodes[0].children == [2] && IsElement(f, 2);
  }

  /**
   * The parentless `body` context element of the fragment is an element, yet
   * the select iterator's parent test keeps it out: selecting `body` finds
   * nothing, and selecting `a` finds the link.
   */
  lemma OrphanContextNotSelected()
    ensures IsElement(LinkFragment().tree, 1) && TypeOnly("body").matches(LinkFragment().tree, 1)
    ensures Matching(LinkFragment().tree, TypeOnly("body"), 0, 5) == []
    ensures Matching(LinkFragment().tree, TypeOnly("a"), 0, 5) == [3]
  {
    var f := LinkFragment().tree;
    assert Matching(f, TypeOnly("body"), 1, 5) == [];
    assert Matching(f, TypeOnly("a"), 3, 5) == [3];
    assert Matching(f, TypeOnly("a"), 1, 5) == [3];
  }

  /** A freshly created document or fragment has no root element and selects nothing. */
  lemma EmptyTreesHoldNothing(sel: Selector)
    ensures RootElement(NewDocument()) == Err("html node missing")
    ensures RootElement(NewFragment()) == Err("html node missing")
    ensures Matching(NewDocument().tree, sel, 0, 1) == []
    ensures Matching(NewFragment().tree, sel, 0, 1) == []
  {
  }
}
