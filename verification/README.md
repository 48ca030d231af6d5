# zhihu-markdown core, modelled in Dafny

This project models two small layers of the zhihu-markdown repository.

1. **htmler's `Html`** (`projects/htmler/src/html/mod.rs`). This is the parsed
   document: an ego_tree arena of nodes, the parse errors and the quirks mode.
   The model covers its two constructors, the root-element lookup and the
   double-ended `select` iterator `HtmlSelect`.
2. **The zhihu Markdown renderers.** `ZhihuArticle` (`zhuanlans/mod.rs`) and
   `ZhihuAnswer` (`answers/mod.rs`) each hold a `title` and a `content` string.
   Their `read_content_node` walks an HTML subtree and appends Markdown to
   `content`.

Files:

- `wrappers.dfy`: `Option` and `Result`.
- `strings.dfy`: `str::trim`, over Unicode's White_Space set as Rust's
  `char::is_whitespace` defines it, and `str::contains`.
- `node_tree.dfy`:
  - the node kinds;
  - the arena `Tree`, with its structural invariant `Valid`;
  - `Dom`, a node with its subtree as a value, which is what a `NodeRef`
    walking downward sees;
  - pre-order `Descendants`.
- `htmler.dfy`:
  - `Html`, `NewDocument` and `NewFragment`;
  - `Selector`, which holds any total predicate on a node in its tree;
  - the filter `Matching`, which is the specification of what the iterator
    yields;
  - `RootElement`;
  - the class `HtmlSelect`, whose cursor pair `[front, back)` is ego_tree's
    `Nodes` range;
  - two client loops that drain the iterator.
- `htmler_examples.dfy`: the `Html` values html5ever builds for the documents
  in htmler's unit tests (tree, quirks mode and parse errors), and what the
  model gives on them. The two documents without a doctype are in quirks mode
  and carry one parse error, which html5ever words `Unexpected token` when
  exact errors are off. The parsed fragment's arena also holds the `body`
  context element, which the fragment parser creates as a parentless node
  before the `html` root element.
- `rendering.dfy`: `Outcome`, which holds the text a walk appends and the panic
  that stopped it. It also holds the formula markup both renderers share.
- `zhuanlans.dfy`: the article.
  - `RenderNode` and `RenderChildren` specify the output.
  - The class `ZhihuArticle` has imperative methods proved against them.
- `answers.dfy`: the answer, in the same shape. It adds the per-class loop of
  the span branch and a lemma saying where the two renderers agree.
- `render_examples.dfy`: concrete subtrees on which the two renderers are
  compared.

Modelling choices:

- **Selector.** `Node::wrap` is taken to succeed exactly on element nodes.
  `Selector::matches` is left abstract. The fixed selectors, such as
  `h1.QuestionHeader-title`, are read as "element with this name and this
  class".
- **Panics.** A `panic!("unknown element: …")` in the renderers is modelled
  as a returned message. The text appended before it is kept. The
  `.expect("html node missing")` of `root_element` is a panic too; the model
  returns it as `Err("html node missing")`.
- **scraper.** The answer renderer imports `Html`, `Node` and `Selector` from
  scraper, not from htmler. scraper's source is not part of this model. Its
  `Html::select` is the same filter over an ego_tree arena as htmler's
  `HtmlSelect`, so the model runs `ZhihuAnswer` on htmler's `Html` and
  iterator.
- **Traversal order.** The iterator goes in arena (creation) order, because
  ego_tree's `nodes()` walks the arena's index range. That is not always
  document order: the two differ when the tree builder has moved nodes, and
  the model follows the code.

## Model

| member | source | states |
|---|---|---|
| `Htmler.NewDocument` | projects/htmler/src/html/mod.rs:35-38 | no errors, `NoQuirks`, and a valid tree whose only node is a Document root |
| `Htmler.NewFragment` | projects/htmler/src/html/mod.rs:40-43 | same as `NewDocument`, with a Fragment root |
| `HtmlerExamples.EmptyTreesHoldNothing` | projects/htmler/src/html/mod.rs:36-43 | a new document or fragment has no root element and selects nothing, for any selector |
| `Htmler.FirstElement` | projects/htmler/src/html/mod.rs:83 | `find(is_element)`: None exactly when no child is an element; otherwise the first element child, every earlier child being a non-element |
| `Htmler.RootElement` | projects/htmler/src/html/mod.rs:81-85 | the first element child of the root, whose parent is the root, skipping doctype/comment/text siblings; "html node missing" exactly when the root has no element child |
| `Htmler.HtmlSelect.constructor` | projects/htmler/src/html/mod.rs:76-79 | `select` starts a traversal of the whole arena; what remains is the whole selection |
| `Htmler.HtmlSelect.Next` | projects/htmler/src/html/mod.rs:110-122 | yields the first remaining match and consumes it, skipping non-matching nodes; None with the traversal exhausted when nothing matches; a yielded node is an element, has a parent and satisfies the selector |
| `Htmler.HtmlSelect.NextBack` | projects/htmler/src/html/mod.rs:131-140 | mirror of `Next`: yields the last remaining match and consumes the traversal from the back, on the same cursor pair |
| `Htmler.HtmlSelect.SizeHint` | projects/htmler/src/html/mod.rs:124-127 | lower bound 0, upper bound the unfiltered remaining count `back - front`, and the true remaining count lies between them |
| `Htmler.MatchingMembership` | projects/htmler/src/html/mod.rs:111-121 | a node is selected exactly when it is in the range, is an element, has a parent and matches |
| `Htmler.MatchingIncreasing` | projects/htmler/src/html/mod.rs:111-121 | the selection is strictly increasing in arena order, so no node appears twice |
| `Htmler.MatchingSnoc` | projects/htmler/src/html/mod.rs:132-138 | taking the last node off the range removes exactly that node from the selection, if it was selected |
| `Htmler.MatchingLength` | projects/htmler/src/html/mod.rs:124-127 | filtering never yields more nodes than the unfiltered range holds |
| `Htmler.RootNeverSelected` | projects/htmler/src/html/mod.rs:114 | in a valid tree the parentless root is never selected, whatever the selector |
| `Htmler.YieldedAtMostOnce` | projects/htmler/src/html/mod.rs:110-140 | under any interleaving of `Next` and `NextBack`, the front yields, the remainder and the reversed back yields are together strictly increasing, so no node is yielded twice |
| `Htmler.DrainForward` | projects/htmler/src/html/mod.rs:110-122 | draining with `next` yields exactly the remaining selection, in order |
| `Htmler.DrainBackward` | projects/htmler/src/html/mod.rs:130-140 | draining with `next_back` yields exactly the reverse of the remaining selection |
| `HtmlerExamples.ThreeParagraphsForward` | projects/htmler/src/html/mod.rs:175-181 | on the three-paragraph document, selecting `p` gives the three paragraph elements in order |
| `HtmlerExamples.SelectIsReversible` | projects/htmler/src/html/mod.rs:176-181 | `select(p).rev()` on that document gives the paragraphs in reverse, whose text children are element3, element2, element1 |
| `HtmlerExamples.SelectHasASizeHint` | projects/htmler/src/html/mod.rs:183-190 | on that document `size_hint` is `(0, Some(10))` |
| `HtmlerExamples.RootElementSkipsDoctype` | projects/htmler/src/html/mod.rs:159-165 | with a leading doctype, the root lookup finds the `html` element |
| `HtmlerExamples.RootElementSkipsComment` | projects/htmler/src/html/mod.rs:167-173 | with a leading comment, the root lookup finds the `html` element |
| `HtmlerExamples.RootElementOfFragment` | projects/htmler/src/html/mod.rs:150-157 | in a parsed fragment, whose arena holds the parentless `body` context element at index 1, the root lookup finds the `html` element at index 2 that wraps the content |
| `HtmlerExamples.OrphanContextNotSelected` | projects/htmler/src/html/mod.rs:110-122 | the parentless `body` context element is an element that matches `body`, yet the parent test keeps it out of the selection; selecting `a` in the fragment finds the link |
| `Htmler.LeadingTexts` | projects/zhihu-link/src/zhuanlans/mod.rs:81-86 | each text returned is the first-child text of the node at the same position, and the walk stops exactly at the first node whose first child is not text |
| `Strings.TrimIsSlice` | projects/zhihu-link/src/zhuanlans/mod.rs:115 | `str::trim` keeps a slice of the input, cuts off only whitespace on either side, and leaves no whitespace at either end of the result |
| `Strings.TrimUntouched` | projects/zhihu-link/src/answers/mod.rs:80 | a string without surrounding whitespace is unchanged by trimming |
| `Strings.ContainsIffOccurs` | projects/zhihu-link/src/answers/mod.rs:94 | `contains` holds exactly when the pattern occurs at some position |
| `Strings.ContainsSelf` | projects/zhihu-link/src/answers/mod.rs:94 | the exact class `ztext-math` also passes the substring test |
| `Rendering.MathMarkup` | projects/zhihu-link/src/zhuanlans/mod.rs:128-135 | with `data-tex` present: ` $$`, the attribute, then `$$ `; otherwise nothing |
| `Zhuanlans.ZhihuArticle.constructor` | projects/zhihu-link/src/zhuanlans/mod.rs:17-21 | `default()` has empty title and content |
| `Zhuanlans.ZhihuArticle.Display` | projects/zhihu-link/src/zhuanlans/mod.rs:23-27 | the output splits into `# `, the title, a blank line, then the content |
| `Zhuanlans.ZhihuArticle.ExtractTitle` | projects/zhihu-link/src/zhuanlans/mod.rs:75-78 | the title becomes the selected text, or "" when nothing matched; content unchanged |
| `Zhuanlans.ZhihuArticle.ExtractDescription` | projects/zhihu-link/src/zhuanlans/mod.rs:79-88 | walks the `div.QuestionRichText` matches, returns the texts printed up to the first match without a text first child, and changes no field |
| `Zhuanlans.ZhihuArticle.ReadContentNode` | projects/zhihu-link/src/zhuanlans/mod.rs:100-164 | only appends: content becomes the old content followed by the node's rendering; the title is unchanged; the panic is that of the rendering |
| `Zhuanlans.ZhihuArticle.ReadElement` | projects/zhihu-link/src/zhuanlans/mod.rs:117-157 | the element arm: appends the element's rendering by tag name (p, span, br, figure) and panics on any other name |
| `Zhuanlans.ZhihuArticle.ReadChildren` | projects/zhihu-link/src/zhuanlans/mod.rs:120-122 | appends the children's renderings in child order, stopping at the first panic |
| `Zhuanlans.ZhihuArticle.AppendFirstPicture` | projects/zhihu-link/src/zhuanlans/mod.rs:147-155 | appends `![](url)` for the first pre-order descendant with class `img` and a non-empty `data-original`, or nothing |
| `Zhuanlans.FirstPictureIsFirst` | projects/zhihu-link/src/zhuanlans/mod.rs:148-153 | the picture search finds nothing exactly when no descendant qualifies; otherwise it returns the url of the first qualifying descendant |
| `Zhuanlans.FigureEmitsAtMostOneImage` | projects/zhihu-link/src/zhuanlans/mod.rs:147-155 | a figure never panics; it appends nothing exactly when no descendant is a picture, and otherwise exactly one `![](url)` for a picture descendant |
| `Zhuanlans.MathSpanIgnoresChildren` | projects/zhihu-link/src/zhuanlans/mod.rs:125-136 | a `ztext-math` span renders only its formula markup, whatever its children |
| `Zhuanlans.ChildrenPanicSticks` | projects/zhihu-link/src/zhuanlans/mod.rs:120-122 | after a child panics, no later child changes the outcome |
| `Zhuanlans.PanicCause` | projects/zhihu-link/src/zhuanlans/mod.rs:156 | every panic is "unknown element: " followed by the name of an element in the subtree other than p, span, br or figure |
| `Zhuanlans.ChildrenPanicCause` | projects/zhihu-link/src/zhuanlans/mod.rs:139-141 | same as `PanicCause`, for the children loop |
| `Zhuanlans.KnownElementsNeverPanic` | projects/zhihu-link/src/zhuanlans/mod.rs:117-157 | a subtree whose elements are all p, span, br or figure never panics |
| `Answers.ZhihuAnswer.constructor` | projects/zhihu-link/src/answers/mod.rs:20-22 | `new()` has empty title and content |
| `Answers.ZhihuAnswer.Display` | projects/zhihu-link/src/answers/mod.rs:13-17 | the output splits into `# `, the title, a blank line, then the content |
| `Answers.ZhihuAnswer.ExtractTitle` | projects/zhihu-link/src/answers/mod.rs:33-42 | the title becomes the first-child text of the first `h1.QuestionHeader-title` when that exists; otherwise it keeps its old value; content unchanged |
| `Answers.ZhihuAnswer.ReadContentNode` | projects/zhihu-link/src/answers/mod.rs:66-120 | only appends the node's rendering; the title is unchanged; any element other than p or span panics |
| `Answers.ZhihuAnswer.ReadElement` | projects/zhihu-link/src/answers/mod.rs:82-113 | the element arm: appends the element's rendering for p and span and panics on any other name |
| `Answers.ZhihuAnswer.ReadClasses` | projects/zhihu-link/src/answers/mod.rs:90-110 | one turn per class: formula markup for a class containing `ztext-math`, all the children again for any other class; stops at a panic |
| `Answers.ZhihuAnswer.ReadChildren` | projects/zhihu-link/src/answers/mod.rs:85-87 | appends the children's renderings in child order, stopping at the first panic |
| `Answers.ChildrenPanicSticks` | projects/zhihu-link/src/answers/mod.rs:105-107 | after a child panics, no later child changes the outcome |
| `Answers.ClassesPanicSticks` | projects/zhihu-link/src/answers/mod.rs:91-109 | after a class turn panics, no later class changes the outcome |
| `Answers.ChildrenOncePerClass` | projects/zhihu-link/src/answers/mod.rs:104-108 | a span with no math class renders its children once per class |
| `Answers.ClassesRepeatChildren` | projects/zhihu-link/src/answers/mod.rs:91-109 | after k such class turns, the children's text has been written k times |
| `Answers.SpanWithoutClassesIsSilent` | projects/zhihu-link/src/answers/mod.rs:90-91 | a span without classes appends nothing, its children included |
| `Answers.AgreesWithArticle` | projects/zhihu-link/src/answers/mod.rs:66-120 | on subtrees without br or figure, whose spans each carry one class that is either exactly `ztext-math` or does not mention it, the answer renderer gives the article's outcome |
| `Answers.ChildrenAgree` | projects/zhihu-link/src/answers/mod.rs:85-87 | same as `AgreesWithArticle`, for the children loop |
| `RenderExamples.TrimExample` | projects/zhihu-link/src/zhuanlans/mod.rs:115 | `" hi "` is appended as `hi` |
| `RenderExamples.ParagraphOfText` | projects/zhihu-link/src/zhuanlans/mod.rs:119-124 | a paragraph of text renders as the text and a blank line, in both renderers |
| `RenderExamples.LineBreakOnlyInArticles` | projects/zhihu-link/src/answers/mod.rs:112 | `br` is `"\n"` for an article and panics with "unknown element: br" for an answer |
| `RenderExamples.SubstringClassIsMathOnlyInAnswers` | projects/zhihu-link/src/answers/mod.rs:94 | a span of class `ztext-math-block` is a formula for an answer, but for an article it renders its (here empty) children |
| `RenderExamples.ChildrenTwiceForTwoClasses` | projects/zhihu-link/src/answers/mod.rs:104-108 | an answer span with classes `a` and `b` writes its text child twice; the article writes it once |

## Left out

- Parsing (`parse_document`, `parse_fragment`) runs html5ever's driver, which
  is not part of this model. The trees in `htmler_examples.dfy` are written out
  by hand, as html5ever builds them.
- The `tree_sink` and `serializable` modules, and `as_html`, are not part of this
  model.
- The selector compiler and matcher in `crate::selector` are not part of this
  model. A selector is any total predicate.
- `Node::wrap` is not part of this model. It is taken to accept exactly element
  nodes.
- `Htmler.HtmlSelect.constructor`, `Next`, `NextBack`: the ghost fields
  `yielded` and `yieldedBack` record history for the proofs only. The node a
  call returns is its arena index rather than a `Node` handle.
- `ZhihuArticle::new`, `request` (network I/O) and `save` (file I/O) are left out.
  So are `FromStr`/`do_parse` and `ZhihuAnswer::parse`, which only run the
  extractors in sequence on a parser result.
- `extract_content` (both renderers) is left out. It renders the children of the
  first `span.CopyrightRichText-richText`. The model's renderer takes a subtree
  as a value (`Dom`), and the step from an arena index to that value is not
  modelled.
- `ZhihuAnswer::extract_description` is left out. It is not part of the modelled
  core, and it is the same walk as the article's.
- `Zhuanlans.ZhihuArticle.ExtractTitle`: `utils::select_text` is not part of this
  model. Its `Option<String>` answer is the method's parameter.
- `println!` diagnostics have no effect on state and are left out.
  `ExtractDescription` returns the texts it would print.
- `Zhuanlans.ZhihuArticle.ReadContentNode` and
  `Answers.ZhihuAnswer.ReadContentNode`:
  - A panic is returned as a message rather than unwinding.
  - The `fmt::Error` path of `write!` is not modelled, because writing into a
    `String` cannot fail.
- `Answers.ZhihuAnswer.ReadClasses` visits the classes in the order the
  element's class list gives them. How the library orders and de-duplicates the
  classes of the `class` attribute is not part of this model.
- The `LazyLock` statics are plain constant selectors.
