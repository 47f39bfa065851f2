// Properties of the NASM grammar recognizer: operator precedence, the
// stopping rule of its repetition loops, pinned directives, brace-delimited
// token runs, the lookahead that ends a conditional block's body, and the
// order in which a source line's alternatives are tried.
module GrammarProperties {
  import opened Wrappers
  import opened Tokens
  import opened ParserCursor
  import opened NasmGrammar

  // ---------------------------------------------------------------- operators

  /** A NUMBER token on its own is an atom. */
  lemma NumberAtom(t: seq<Kind>, p: nat)
    requires p < |t| && t[p] == NUMBER
    ensures AtomExpr(t, p) == Some(p + 1)
  {
  }

  /**
   * A NUMBER followed by a token that continues no expression at the
   * multiplicative level (here `+`, or the end of input) is a whole mul_expr.
   */
  lemma NumberMulExpr(t: seq<Kind>, p: nat)
    requires p < |t| && t[p] == NUMBER
    requires p + 1 == |t| || t[p + 1] !in {MUL, DIV, SIGNED_DIV, MOD, SIGNED_MOD, PASTE_OP}
    ensures MulExpr(t, p) == Some(p + 1)
  {
    NumberAtom(t, p);
    assert PostfixExpr(t, p) == Some(p + 1);
    assert UnaryExpr(t, p) == Some(p + 1);
    assert MulExpr_1_0(t, p + 1).None?;
  }

  /**
   * NUMBER * NUMBER, followed by the end of input or a token that continues
   * no product, is a whole mul_expr.
   */
  lemma ProductMulExpr(t: seq<Kind>, p: nat)
    requires p + 3 <= |t| && t[p] == NUMBER && t[p + 1] == MUL && t[p + 2] == NUMBER
    requires p + 3 == |t| || t[p + 3] !in {MUL, DIV, SIGNED_DIV, MOD, SIGNED_MOD, PASTE_OP}
    ensures MulExpr(t, p) == Some(p + 3)
  {
    NumberAtom(t, p);
    assert UnaryExpr(t, p) == Some(p + 1) by {
      assert PostfixExpr(t, p) == Some(p + 1);
    }
    assert MulExpr_1_0(t, p + 1) == Some(p + 3) by {
      assert MulOp(t, p + 1) == Some(p + 2);
      assert UnaryExpr(t, p + 2) == Some(p + 3) by {
        NumberAtom(t, p + 2);
        assert PostfixExpr(t, p + 2) == Some(p + 3);
      }
    }
    NumberMulExpr(t, p + 2);
    assert MulExpr_1_0(t, p + 3).None?;
    assert MulExpr_1(t, p + 3) == Some(p + 3);
    assert MulExpr_1(t, p + 1) == Some(p + 3);
  }

  /**
   * `*` binds tighter than `+`: wherever NUMBER + NUMBER * NUMBER stands in
   * the token stream, followed by the end of input or a token that continues
   * neither level, the operand of `+` on the left ends before the `+`, the
   * operand on the right takes in the whole product, and add_expr spans all
   * five tokens.
   */
  lemma MulBindsTighter(t: seq<Kind>, p: nat)
    requires p + 5 <= |t| && t[p..p + 5] == [NUMBER, PLUS, NUMBER, MUL, NUMBER]
    requires p + 5 == |t| || t[p + 5] !in {MUL, DIV, SIGNED_DIV, MOD, SIGNED_MOD, PASTE_OP, PLUS, MINUS}
    ensures MulExpr(t, p) == Some(p + 1)
    ensures MulExpr(t, p + 2) == Some(p + 5)
    ensures AddExpr(t, p) == Some(p + 5)
  {
    assert t[p] == NUMBER && t[p + 1] == PLUS && t[p + 2] == NUMBER && t[p + 3] == MUL && t[p + 4] == NUMBER by {
      assert t[p..p + 5][0] == NUMBER && t[p..p + 5][1] == PLUS && t[p..p + 5][2] == NUMBER;
      assert t[p..p + 5][3] == MUL && t[p..p + 5][4] == NUMBER;
    }
    NumberMulExpr(t, p);
    ProductMulExpr(t, p + 2);
    assert AddExpr_1_0(t, p + 1) == Some(p + 5);
    assert AddExpr_1_0(t, p + 5).None?;
    assert AddExpr_1(t, p + 5) == Some(p + 5);
    assert AddExpr_1(t, p + 1) == Some(p + 5);
  }

  // ---------------------------------------------------------------- loops

  /**
   * The loop of add_expr written as the generated parser writes it: repeat
   * `(PLUS | MINUS) mul_expr` until an iteration fails or consumes nothing.
   * It ends where the recursive rendering ends, and there one more iteration
   * would fail.
   */
  method AddExprLoop(t: seq<Kind>, p: nat) returns (q: nat)
    requires p <= |t|
    ensures AddExpr_1(t, p) == Some(q)
    ensures AddExpr_1_0(t, q).None?
  {
    q := p;
    while true
      invariant p <= q <= |t|
      invariant AddExpr_1(t, p) == AddExpr_1(t, q)
      decreases |t| - q
    {
      var next := AddExpr_1_0(t, q);
      if next.None? || next.value == q {
        break;
      }
      q := next.value;
    }
  }

  /** source_lines stops only at a position where no further source_line parses. */
  lemma ProgramStops(t: seq<Kind>)
    ensures Program(t, 0).Some?
    ensures Program(t, 0).value == |t| || SourceLine(t, Program(t, 0).value).None?
  {
  }

  // ---------------------------------------------------------------- pinned rules

  /**
   * absolute_dir is pinned on its keyword: it succeeds exactly when the
   * cursor is at ABSOLUTE_KW, and then takes the following const_expr when
   * there is one and stops after the keyword when there is not.
   */
  lemma AbsoluteDirPinned(t: seq<Kind>, p: nat)
    requires p <= |t|
    ensures AbsoluteDir(t, p).Some? <==> NextTokenIs(t, p, {ABSOLUTE_KW})
    ensures NextTokenIs(t, p, {ABSOLUTE_KW}) && ConstExpr(t, p + 1).None? ==>
      AbsoluteDir(t, p) == Some(p + 1)
    ensures NextTokenIs(t, p, {ABSOLUTE_KW}) && ConstExpr(t, p + 1).Some? ==>
      AbsoluteDir(t, p) == ConstExpr(t, p + 1)
  {
  }

  /**
   * common_dir pins on the first token of its run `COMMON_KW IDENTIFIER`:
   * after COMMON_KW it succeeds whether or not the IDENTIFIER follows, and
   * the const_expr is tried where the run stopped.
   */
  lemma CommonDirPinned(t: seq<Kind>, p: nat)
    requires p < |t| && t[p] == COMMON_KW
    ensures CommonDir(t, p).Some?
    ensures p + 1 < |t| && t[p + 1] == IDENTIFIER ==>
      CommonDir(t, p) == Some(Tried(t, p + 2, ConstExpr(t, p + 2)))
    ensures (p + 1 == |t| || t[p + 1] != IDENTIFIER) ==>
      CommonDir(t, p) == Some(Tried(t, p + 1, ConstExpr(t, p + 1)))
  {
    var run := ConsumeTokens(t, p, 1, [COMMON_KW, IDENTIFIER]);
    assert t[p..p + 1] == [COMMON_KW][..1];
    assert run.ok;
    if p + 1 < |t| && t[p + 1] == IDENTIFIER {
      assert run.pos == p + 2;
    } else {
      assert run.pos == p + 1;
    }
  }

  // ---------------------------------------------------------------- brace runs

  /** A brace token run never starts at `}`. */
  lemma BraceSequenceNotAtCloser(t: seq<Kind>, p: nat)
    requires p < |t| && t[p] == RBRACE
    ensures BraceTokenSequence(t, p).None?
  {
  }

  /**
   * A `}` right after an element ends the run there: the run does not reach
   * past the first closing brace that follows one of its elements.
   */
  lemma BraceSequenceStopsAtCloser(t: seq<Kind>, p: nat, m: nat)
    requires p <= |t| && BraceToken(t, p) == Some(m)
    requires m < |t| && t[m] == RBRACE
    ensures BraceTokenSequence(t, p) == Some(m)
  {
    assert BraceToken(t, m).None?;
  }

  // ---------------------------------------------------------------- conditional bodies

  /**
   * The lines of a conditional branch never start by consuming %elif,
   * %elifmacro, %else or %endif: at one of them the body is empty and the
   * token is left for the enclosing block.
   */
  lemma ConditionalLinesStopAtMarker(t: seq<Kind>, p: nat)
    requires p < |t| && t[p] in {MACRO_ELIF, MACRO_ELIFMACRO, MACRO_ELSE, MACRO_ENDIF}
    ensures ConditionalSourceLines(t, p) == Some(p)
  {
    assert ConditionalMarker(t, p).Some?;
  }

  /**
   * A conditional branch's lines end either at a branch marker or where no
   * source_line parses.
   */
  lemma ConditionalLinesEnd(t: seq<Kind>, p: nat)
    requires p <= |t|
    ensures ConditionalSourceLines(t, p).Some?
    ensures var q := ConditionalSourceLines(t, p).value;
      ConditionalMarker(t, q).Some? || SourceLine(t, q).None?
  {
    var q := ConditionalSourceLines(t, p).value;
    assert ConditionalSourceLines_0(t, q).None?;
  }

  // ---------------------------------------------------------------- ordered choice

  /** source_line takes equ_line whenever it applies, before any other alternative. */
  lemma EquLineFirst(t: seq<Kind>, p: nat)
    requires p <= |t| && EquLine(t, p).Some?
    ensures SourceLine(t, p) == EquLine(t, p)
  {
  }

  /**
   * Whenever label_with_data_line applies and none of the four alternatives
   * listed before it does, source_line takes it, whatever unlabeled_content
   * (listed after it) would give.
   */
  lemma LabelWithDataFirst(t: seq<Kind>, p: nat)
    requires p <= |t|
    requires EquLine(t, p).None? && LabelWithColonLine(t, p).None?
    requires PpAssignmentLine(t, p).None? && TimesPrefixedLine(t, p).None?
    requires LabelWithDataLine(t, p).Some?
    ensures SourceLine(t, p) == LabelWithDataLine(t, p)
  {
  }
}
