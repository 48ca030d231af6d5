/** Small subtrees on which the article and answer renderers are compared. */
module RenderExamples {
  import opened Wrappers
  import opened NodeTree
  import opened Rendering
  import Strings
  import Zhuanlans
  import Answers

  function Span(classes: seq<string>, attrs: map<string, string>, children: seq<Dom>): Dom {
    Dom(Element("span", classes, attrs), children)
  }

  /** Text is trimmed on both sides. */
  lemma TrimExample()
    ensures Strings.Trim(" hi ") == "hi"
  {
    assert Strings.TrimStart(" hi ") == "hi ";
    assert Strings.TrimEnd("hi ") == "hi";
  }

  /** A paragraph ends with a blank line in both renderers. */
  lemma ParagraphOfText()
    ensures Zhuanlans.RenderNode(Dom(Element("p", [], map[]), [Dom(Text("hi"), [])])) == Emit("hi\n\n")
    ensures Answers.RenderNode(Dom(Element("p", [], map[]), [Dom(Text("hi"), [])])) == Emit("hi\n\n")
  {
    var d := Dom(Element("p", [], map[]), [Dom(Text("hi"), [])]);
    Strings.TrimUntouched("hi");
    assert Zhuanlans.RenderChildren(d, 1) == Emit("").Then(Emit("hi"));
    assert Answers.RenderChildren(d, 1) == Emit("").Then(Emit("hi"));
  }

  /** `br` is a line break for articles and a panic for answers. */
  lemma LineBreakOnlyInArticles()
    ensures Zhuanlans.RenderNode(Dom(Element("br", [], map[]), [])) == Emit("\n")
    ensures Answers.RenderNode(Dom(Element("br", [], map[]), [])) ==
      Outcome("", Some("unknown element: br"))
  {
    assert UnknownElement("br") == "unknown element: br";
  }

  /** A class that merely contains `ztext-math` is a formula for answers, not for articles. */
  lemma SubstringClassIsMathOnlyInAnswers()
    ensures Zhuanlans.RenderNode(Span(["ztext-math-block"], map["data-tex" := "x"], [])) == Emit("")
    ensures Answers.RenderNode(Span(["ztext-math-block"], map["data-tex" := "x"], [])) == Emit(" $$x$$ ")
  {
    assert Strings.StartsWith("ztext-math-block", MathClass);
    assert Answers.RenderClasses(Span(["ztext-math-block"], map["data-tex" := "x"], []), 1)
      == Emit("").Then(Emit(" $$x$$ "));
  }

  /** An answer span with two ordinary classes writes its children twice. */
  lemma ChildrenTwiceForTwoClasses()
    ensures Zhuanlans.RenderNode(Span(["a", "b"], map[], [Dom(Text("x"), [])])) == Emit("x")
    ensures Answers.RenderNode(Span(["a", "b"], map[], [Dom(Text("x"), [])])) == Emit("xx")
  {
    var d := Span(["a", "b"], map[], [Dom(Text("x"), [])]);
    Strings.TrimUntouched("x");
    assert !Strings.Contains("a", MathClass) && !Strings.Contains("b", MathClass);
    assert Answers.RenderChildren(d, 1) == Emit("").Then(Emit("x"));
    assert Answers.RenderClasses(d, 1) == Emit("").Then(Emit("x"));
    assert Answers.RenderClasses(d, 2) == Emit("x").Then(Emit("x"));
  }
}
