/**
 * What one call of a `read_content_node` walk produces: the Markdown text it
 * appends, and the panic that stopped it, if any.
 */
module Rendering {
  import opened Wrappers

  /**
   * `text` is everything appended to `content`; `panic` is the message of the
   * `panic!` that ended the walk, or None when the walk returned normally.
   */
  datatype Outcome = Outcome(text: string, panic: Option<string>) {
    /** Runs `next` after this step, unless this step panicked. */
    function Then(next: Outcome): Outcome {
      if panic.Some? then this else Outcome(text + next.text, next.panic)
    }
  }

  function Emit(s: string): Outcome {
    Outcome(s, None)
  }

  /** The message of the `panic!` on an element the renderer does not know. */
  function UnknownElement(name: string): string {
    "unknown element: " + name
  }

  /** The class that marks an inline TeX formula. */
  const MathClass: string := "ztext-math"

  /** A formula: the `data-tex` attribute wrapped in ` $$`…`$$ `, or nothing without it. */
  function MathMarkup(attrs: map<string, string>): (r: string)
    ensures "data-tex" in attrs ==>
      |r| == |attrs["data-tex"]| + 6 && r[..3] == " $$" && r[3..|r| - 3] == attrs["data-tex"] &&
      r[|r| - 3..] == "$$ "
    ensures "data-tex" !in attrs ==> r == ""
  {
    if "data-tex" in attrs then " $$" + attrs["data-tex"] + "$$ " else ""
  }
}
