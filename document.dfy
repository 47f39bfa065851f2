// A document as the editor sees it: its text, in which the line of an
// offset is the number of line breaks before it (`Document.getLineNumber`),
// and the start of the line that holds an offset (`getLineStartOffset`).
module Documents {
  import opened Wrappers

  /**
   * `Document.getLineNumber`: the zero-based line holding the offset, the
   * number of line breaks before it. An offset past the end of the text
   * counts as the end of the text.
   */
  function LineNumber(text: string, offset: nat): nat
  {
    if offset == 0 then 0
    else LineNumber(text, offset - 1) + (if offset - 1 < |text| && text[offset - 1] == '\n' then 1 else 0)
  }

  /** A line break lies in the text between the two offsets. */
  predicate BreakBetween(text: string, a: nat, b: nat)
  {
    exists k :: a <= k < b && k < |text| && text[k] == '\n'
  }

  /**
   * Lines never decrease along the text, and the line of `b` is past the
   * line of `a` exactly when a line break lies between them.
   */
  lemma {:induction false} LineOrder(text: string, a: nat, b: nat)
    requires a <= b
    ensures LineNumber(text, a) <= LineNumber(text, b)
    ensures LineNumber(text, a) < LineNumber(text, b) <==> BreakBetween(text, a, b)
    decreases b - a
  {
    if a < b {
      LineOrder(text, a, b - 1);
      if BreakBetween(text, a, b) {
        var k :| a <= k < b && k < |text| && text[k] == '\n';
        if k < b - 1 {
          assert BreakBetween(text, a, b - 1);
        }
      }
      if BreakBetween(text, a, b - 1) {
        var k :| a <= k < b - 1 && k < |text| && text[k] == '\n';
        assert BreakBetween(text, a, b);
      }
    }
  }

  /** The line of `b` is past the line of `a` exactly when a line break lies between them. */
  lemma LineBreaks(text: string, a: nat, b: nat)
    ensures LineNumber(text, a) < LineNumber(text, b) <==> BreakBetween(text, a, b)
  {
    if a <= b {
      LineOrder(text, a, b);
    } else {
      LineOrder(text, b, a);
    }
  }

  /** The last line break before the offset, if any. */
  function LastBreakBefore(text: string, offset: nat): (r: Option<nat>)
    ensures r.Some? ==> r.value < offset && r.value < |text| && text[r.value] == '\n'
    ensures r.Some? ==> !BreakBetween(text, r.value + 1, offset)
    ensures r.None? ==> !BreakBetween(text, 0, offset)
  {
    if offset == 0 then None
    else if offset - 1 < |text| && text[offset - 1] == '\n' then Some(offset - 1)
    else LastBreakBefore(text, offset - 1)
  }

  /**
   * The start of the line that holds the offset: just after the last line
   * break before it, or the start of the text.
   */
  function LineStart(text: string, offset: nat): (r: nat)
    ensures r <= offset && (r == 0 || (r - 1 < |text| && text[r - 1] == '\n'))
    ensures !BreakBetween(text, r, offset)
  {
    match LastBreakBefore(text, offset)
    case None => 0
    case Some(j) => j + 1
  }

  /** The line start holds the same line as the offset, and the first line is the one without a break before it. */
  lemma LineStartSameLine(text: string, offset: nat)
    ensures LineNumber(text, LineStart(text, offset)) == LineNumber(text, offset)
    ensures LineNumber(text, offset) == 0 <==> LastBreakBefore(text, offset).None?
  {
    LineOrder(text, LineStart(text, offset), offset);
    LineOrder(text, 0, offset);
    if LastBreakBefore(text, offset).Some? {
      assert BreakBetween(text, 0, offset);
    }
  }

  /** A position with no line break between it and the offset, at the start of the text or just after a break, is the line start. */
  lemma LineStartUnique(text: string, offset: nat, r: nat)
    requires r <= offset && (r == 0 || (r - 1 < |text| && text[r - 1] == '\n'))
    requires !BreakBetween(text, r, offset)
    ensures r == LineStart(text, offset)
  {
  }

  /** The line start after a line break is one line further down than the offset of the break. */
  lemma NextLine(text: string, j: nat)
    requires j < |text| && text[j] == '\n'
    ensures LineNumber(text, j + 1) == LineNumber(text, j) + 1
  {
  }
}
