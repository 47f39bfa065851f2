// The value layer of the constant-expression evaluator
// (NasmConstExprEvaluator.kt): evaluation results, the binary and unary
// operator tables, number and character literals, and the search for the
// operator an expression splits at.
module ConstExpr {
  import opened Wrappers
  import opened Longs
  import opened Tokens
  import opened JavaNumbers
  import Text

  /** A value, "not a constant" (an unresolved or unsupported part), or an error with its message. */
  datatype EvalResult = Value(value: Long) | NotConstant | Error(message: string)

  // ---------------------------------------------------------------------------
  // Operators

  predicate IsDivisionOp(op: Kind)
  {
    op == DIV || op == SIGNED_DIV || op == MOD || op == SIGNED_MOD
  }

  /** The comparisons, the logical operators and `<=>`: operators whose result is a truth value or a sign. */
  predicate IsComparisonOp(op: Kind)
  {
    || op == EQ_EQ || op == NOT_EQUAL_1 || op == NOT_EQUAL_2 || op == LT || op == LTE || op == GT || op == GTE
    || op == SPACESHIP || op == BOOLEAN_AND || op == BOOLEAN_OR || op == BOOLEAN_XOR
  }

  predicate IsArithmeticOp(op: Kind)
  {
    || op == PLUS || op == MINUS || op == MUL || IsDivisionOp(op) || op == AMP || op == PIPE || op == CARET
    || op == LSHIFT || op == LSHIFT_COMPLETE || op == RSHIFT || op == RSHIFT_COMPLETE
  }

  predicate IsBinaryOperator(op: Kind)
  {
    IsArithmeticOp(op) || IsComparisonOp(op)
  }

  predicate IsUnaryOperator(op: Kind)
  {
    op == PLUS || op == MINUS || op == TILDE || op == EXCLAIM || op == SEG
  }

  /** A truth value as NASM writes it: 1 or 0. */
  function Truth(b: bool): (v: Long)
    ensures v == 0 || v == 1
    ensures v == 1 <==> b
  {
    if b then 1 else 0
  }

  /**
   * The comparison half of `applyBinaryOperator`: 0 or 1 for the
   * comparisons and logical operators, treating any nonzero operand as
   * true, and the sign of the comparison for `<=>`.
   */
  function Compare(op: Kind, left: Long, right: Long): (v: Long)
    requires IsComparisonOp(op)
    ensures op != SPACESHIP ==> v == 0 || v == 1
    ensures op == EQ_EQ ==> (v == 1 <==> left == right)
    ensures op == NOT_EQUAL_1 || op == NOT_EQUAL_2 ==> (v == 1 <==> left != right)
    ensures op == LT ==> (v == 1 <==> left < right)
    ensures op == LTE ==> (v == 1 <==> left <= right)
    ensures op == GT ==> (v == 1 <==> left > right)
    ensures op == GTE ==> (v == 1 <==> left >= right)
    ensures op == BOOLEAN_AND ==> (v == 1 <==> left != 0 && right != 0)
    ensures op == BOOLEAN_OR ==> (v == 1 <==> left != 0 || right != 0)
    ensures op == BOOLEAN_XOR ==> (v == 1 <==> (left != 0) != (right != 0))
    ensures op == SPACESHIP ==> -1 <= v <= 1 && (v == -1 <==> left < right) && (v == 0 <==> left == right)
  {
    if op == EQ_EQ then Truth(left == right)
    else if op == NOT_EQUAL_1 || op == NOT_EQUAL_2 then Truth(left != right)
    else if op == LT then Truth(left < right)
    else if op == LTE then Truth(left <= right)
    else if op == GT then Truth(left > right)
    else if op == GTE then Truth(left >= right)
    else if op == SPACESHIP then (if left < right then -1 else if left > right then 1 else 0)
    else if op == BOOLEAN_AND then Truth(left != 0 && right != 0)
    else if op == BOOLEAN_OR then Truth(left != 0 || right != 0)
    else Truth((left != 0) != (right != 0))
  }

  /** The arithmetic half of `applyBinaryOperator`; a zero divisor is the only error. */
  function Arithmetic(op: Kind, left: Long, right: Long): (r: EvalResult)
    requires IsArithmeticOp(op)
    ensures r != NotConstant
    ensures r.Error? <==> IsDivisionOp(op) && right == 0
    ensures r.Error? ==> r.message == "Division by zero"
  {
    if IsDivisionOp(op) && right == 0 then Error("Division by zero")
    else if op == PLUS then Value(Add(left, right))
    else if op == MINUS then Value(Sub(left, right))
    else if op == MUL then Value(Mul(left, right))
    else if op == DIV || op == SIGNED_DIV then Value(Quot(left, right))
    else if op == MOD || op == SIGNED_MOD then Value(Rem(left, right))
    else if op == AMP then Value(And(left, right))
    else if op == PIPE then Value(Or(left, right))
    else if op == CARET then Value(Xor(left, right))
    else if op == LSHIFT || op == LSHIFT_COMPLETE then Value(Shl(left, right))
    else Value(Ushr(left, right))
  }

  /**
   * `applyBinaryOperator`. Both division operators divide signed and both
   * remainder operators take the signed remainder; a zero divisor is an
   * error; comparisons and logical operators yield 0 or 1; a token that is
   * not a binary operator is not a constant.
   */
  function ApplyBinary(op: Kind, left: Long, right: Long): (r: EvalResult)
    ensures r == NotConstant <==> !IsBinaryOperator(op)
    ensures r.Error? <==> IsDivisionOp(op) && right == 0
    ensures r.Error? ==> r.message == "Division by zero"
    ensures IsComparisonOp(op) ==> r.Value? && r.value == Compare(op, left, right)
  {
    if IsComparisonOp(op) then Value(Compare(op, left, right))
    else if IsArithmeticOp(op) then Arithmetic(op, left, right)
    else NotConstant
  }

  /**
   * `applyUnaryOperator`: a result that is not a value passes through
   * unchanged; `+` is the identity; `-` gives the additive inverse and `~`
   * the value whose sum with the operand is -1, both modulo 2^64; `!` gives
   * 1 exactly for 0; `seg` needs run-time information and is not a constant.
   */
  function ApplyUnary(op: Kind, operand: EvalResult): (r: EvalResult)
    ensures !operand.Value? ==> r == operand
    ensures operand.Value? ==> (r == NotConstant <==> !(op == PLUS || op == MINUS || op == TILDE || op == EXCLAIM))
    ensures op == PLUS ==> r == operand
    ensures operand.Value? && op == MINUS ==> r.Value? && Add(r.value, operand.value) == 0
    ensures operand.Value? && op == TILDE ==> r.Value? && Add(r.value, operand.value) == -1
    ensures operand.Value? && op == EXCLAIM ==> r.Value? && (r.value == 1 <==> operand.value == 0)
    ensures operand.Value? && op == EXCLAIM ==> r == Value(0) || r == Value(1)
  {
    if !operand.Value? then operand
    else
      var v := operand.value;
      if op == PLUS then Value(v)
      else if op == MINUS then NegSum(v); Value(Neg(v))
      else if op == TILDE then Value(Inv(v))
      else if op == EXCLAIM then Value(Truth(v == 0))
      else NotConstant  // `seg`, and any other token
  }

  lemma NegSum(v: Long)
    ensures Add(Neg(v), v) == 0
  {
    WrapCongruent(Neg(v) + v, 0);
  }

  /** Signed and unsigned division agree. */
  lemma DivisionSignedness(left: Long, right: Long)
    ensures ApplyBinary(DIV, left, right) == ApplyBinary(SIGNED_DIV, left, right)
    ensures ApplyBinary(MOD, left, right) == ApplyBinary(SIGNED_MOD, left, right)
  {
    assert ApplyBinary(DIV, left, right) == ApplyBinary(SIGNED_DIV, left, right) by {
      assert ApplyBinary(DIV, left, right) == Arithmetic(DIV, left, right);
      assert ApplyBinary(SIGNED_DIV, left, right) == Arithmetic(SIGNED_DIV, left, right);
    }
    assert ApplyBinary(MOD, left, right) == Arithmetic(MOD, left, right);
    assert ApplyBinary(SIGNED_MOD, left, right) == Arithmetic(SIGNED_MOD, left, right);
  }

  /** Quotient and remainder recompose the dividend; the remainder is smaller than the divisor and has the dividend's sign. */
  lemma DivisionRecomposes(left: Long, right: Long)
    requires right != 0
    ensures ApplyBinary(DIV, left, right).Value? && ApplyBinary(MOD, left, right).Value?
    ensures ApplyBinary(PLUS, Mul(ApplyBinary(DIV, left, right).value, right), ApplyBinary(MOD, left, right).value)
            == Value(left)
    ensures Abs(ApplyBinary(MOD, left, right).value) < Abs(right)
    ensures ApplyBinary(MOD, left, right) == Value(0) || (ApplyBinary(MOD, left, right).value < 0 <==> left < 0)
  {
    assert ApplyBinary(DIV, left, right) == Value(Quot(left, right));
    assert ApplyBinary(MOD, left, right) == Value(Rem(left, right));
    QuotRem(left, right);
  }

  /** Shift counts are taken modulo 64: shifting by 64 changes nothing. */
  lemma ShiftByWidth(x: Long)
    ensures ApplyBinary(LSHIFT, x, 64) == Value(x)
    ensures ApplyBinary(RSHIFT, x, 64) == Value(x)
  {
    assert ShiftCount(64) == 0;
    assert ApplyBinary(LSHIFT, x, 64) == Arithmetic(LSHIFT, x, 64);
    assert ApplyBinary(RSHIFT, x, 64) == Arithmetic(RSHIFT, x, 64);
    WrapCongruent(Unsigned(x), x);
  }

  /** A left shift by one doubles. */
  lemma ShiftDoubles(x: Long)
    ensures ApplyBinary(LSHIFT, x, 1) == ApplyBinary(PLUS, x, x)
  {
    assert ApplyBinary(LSHIFT, x, 1) == Arithmetic(LSHIFT, x, 1);
    assert ApplyBinary(PLUS, x, x) == Arithmetic(PLUS, x, x);
    ShlDoubles(x);
  }

  /** `<=>` is antisymmetric. */
  lemma SpaceshipAntisymmetric(a: Long, b: Long)
    ensures ApplyBinary(SPACESHIP, a, b).value == -ApplyBinary(SPACESHIP, b, a).value
  {
  }

  /** Each ordering test is the negation of its complement, and `<` is `>` with the operands swapped. */
  lemma ComparisonComplements(a: Long, b: Long)
    ensures ApplyUnary(EXCLAIM, ApplyBinary(LT, a, b)) == ApplyBinary(GTE, a, b)
    ensures ApplyUnary(EXCLAIM, ApplyBinary(GT, a, b)) == ApplyBinary(LTE, a, b)
    ensures ApplyUnary(EXCLAIM, ApplyBinary(EQ_EQ, a, b)) == ApplyBinary(NOT_EQUAL_1, a, b)
    ensures ApplyBinary(LT, a, b) == ApplyBinary(GT, b, a)
  {
    assert ApplyUnary(EXCLAIM, ApplyBinary(LT, a, b)) == ApplyBinary(GTE, a, b) by {
      assert ApplyBinary(LT, a, b) == Value(Truth(a < b));
    }
    assert ApplyUnary(EXCLAIM, ApplyBinary(GT, a, b)) == ApplyBinary(LTE, a, b) by {
      assert ApplyBinary(GT, a, b) == Value(Truth(a > b));
    }
    assert ApplyUnary(EXCLAIM, ApplyBinary(EQ_EQ, a, b)) == ApplyBinary(NOT_EQUAL_1, a, b) by {
      assert ApplyBinary(EQ_EQ, a, b) == Value(Truth(a == b));
    }
  }

  /** `-` undoes itself. */
  lemma NegTwice(v: Long)
    ensures ApplyUnary(MINUS, ApplyUnary(MINUS, Value(v))) == Value(v)
  {
    var w := Neg(v);
    assert ApplyUnary(MINUS, Value(v)) == Value(w);
    assert ApplyUnary(MINUS, Value(w)) == Value(Neg(w));
    NegInvolutive(v);
  }

  /** `~` undoes itself, and `~x` is `-x - 1`. */
  lemma ComplementTwice(v: Long)
    ensures ApplyUnary(TILDE, ApplyUnary(TILDE, Value(v))) == Value(v)
    ensures ApplyUnary(TILDE, Value(v)) == Value(Sub(Neg(v), 1))
  {
    NegInvolutive(v);
    assert ApplyUnary(TILDE, Value(v)) == Value(Inv(v));
  }

  /** `!!x` normalises `x` to a truth value. */
  lemma NotTwice(v: Long)
    ensures ApplyUnary(EXCLAIM, ApplyUnary(EXCLAIM, Value(v))) == Value(Truth(v != 0))
  {
    assert ApplyUnary(EXCLAIM, Value(v)) == Value(Truth(v == 0));
  }

  // ---------------------------------------------------------------------------
  // Number literals

  /** `startsWith("0" + c, ignoreCase = true)` for a lower-case letter `c`. */
  predicate HasRadixPrefix(s: string, c: char)
  {
    |s| >= 2 && s[0] == '0' && Text.LowerChar(s[1]) == c
  }

  /** `endsWith("d", ignoreCase = true)`. */
  predicate EndsWithD(s: string)
  {
    |s| >= 1 && Text.LowerChar(s[|s| - 1]) == 'd'
  }

  /** `replace("_", "")`. */
  function RemoveUnderscores(s: string): (r: string)
    ensures forall i :: 0 <= i < |r| ==> r[i] != '_'
    ensures (forall i :: 0 <= i < |s| ==> s[i] != '_') ==> r == s
  {
    if s == [] then []
    else (if s[0] == '_' then [] else [s[0]]) + RemoveUnderscores(s[1..])
  }

  function NumberResult(parsed: Option<Long>, text: string): EvalResult
  {
    match parsed
    case Some(v) => Value(v)
    case None => Error("Invalid number format: " + text)
  }

  /**
   * `evaluateNumber`: `0x`, `0b` and `0d` prefixes in either case select
   * radix 16, 2 and 10; otherwise a trailing `d` or `D` on a literal longer
   * than one character is dropped; underscores are ignored; text that is
   * not a `Long` in that radix is an error naming the literal.
   */
  function EvaluateNumber(text: string): (r: EvalResult)
    ensures r.Value? || r == Error("Invalid number format: " + text)
  {
    if HasRadixPrefix(text, 'x') then NumberResult(ParseLong(RemoveUnderscores(text[2..]), 16), text)
    else if HasRadixPrefix(text, 'b') then NumberResult(ParseLong(RemoveUnderscores(text[2..]), 2), text)
    else if HasRadixPrefix(text, 'd') then NumberResult(ParseLong(RemoveUnderscores(text[2..]), 10), text)
    else if EndsWithD(text) && |text| > 1 then
      NumberResult(ParseLong(RemoveUnderscores(text[..|text| - 1]), 10), text)
    else NumberResult(ParseLong(RemoveUnderscores(text), 10), text)
  }

  /** A plain decimal literal reads back as the non-negative `Long` it writes. */
  lemma NumberDecimal(n: nat)
    requires n < TWO_63
    ensures EvaluateNumber(ToDigits(n, 10)) == Value(n)
  {
    var dec := ToDigits(n, 10);
    DecimalDigits(n);
    DecimalParses(n);
    assert !EndsWithD(dec) by {
      assert '0' <= dec[|dec| - 1] <= '9';
    }
  }

  /**
   * A decimal literal with the `d` suffix reads back as its number, except
   * `0d`, which the prefix test takes for a `0d` prefix with no digits.
   */
  lemma NumberSuffixD(n: nat, suffix: char)
    requires 0 < n < TWO_63 && (suffix == 'd' || suffix == 'D')
    ensures EvaluateNumber(ToDigits(n, 10) + [suffix]) == Value(n)
  {
    var dec := ToDigits(n, 10);
    DecimalDigits(n);
    DecimalParses(n);
    var t := dec + [suffix];
    assert t[..|t| - 1] == dec;
    assert t[0] == dec[0];
    if n < 10 {
      assert dec == [DigitChar(n)];
    } else {
      assert |dec| >= 2 && t[1] == dec[1];
      assert !HasRadixPrefix(t, 'x') && !HasRadixPrefix(t, 'b') && !HasRadixPrefix(t, 'd');
    }
    assert EndsWithD(t);
  }

  /** `0d` alone is not a number. */
  lemma NumberZeroD()
    ensures EvaluateNumber("0d") == Error("Invalid number format: 0d")
    ensures EvaluateNumber("0D") == Error("Invalid number format: 0D")
  {
    assert "0d"[2..] == [] && "0D"[2..] == [];
  }

  /** `0x` or `0X` selects radix 16. */
  lemma NumberHex(n: nat, x: char)
    requires n < TWO_63 && (x == 'x' || x == 'X')
    ensures EvaluateNumber(['0', x] + ToDigits(n, 16)) == Value(n)
  {
    var t := ['0', x] + ToDigits(n, 16);
    assert t[2..] == ToDigits(n, 16);
    assert HasRadixPrefix(t, 'x');
    DigitsParse(n, 16);
  }

  /** `0b` or `0B` selects radix 2. */
  lemma NumberBinary(n: nat, b: char)
    requires n < TWO_63 && (b == 'b' || b == 'B')
    ensures EvaluateNumber(['0', b] + ToDigits(n, 2)) == Value(n)
  {
    var t := ['0', b] + ToDigits(n, 2);
    assert t[2..] == ToDigits(n, 2);
    assert Text.LowerChar(t[1]) == 'b';
    DigitsParse(n, 2);
  }

  /** `0d` or `0D` selects radix 10. */
  lemma NumberPrefixD(n: nat, d: char)
    requires n < TWO_63 && (d == 'd' || d == 'D')
    ensures EvaluateNumber(['0', d] + ToDigits(n, 10)) == Value(n)
  {
    var t := ['0', d] + ToDigits(n, 10);
    assert t[2..] == ToDigits(n, 10);
    assert Text.LowerChar(t[1]) == 'd';
    DigitsParse(n, 10);
  }

  /** The digits `Long.toString` writes, underscores removed (there are none), parse back. */
  lemma DigitsParse(n: nat, radix: nat)
    requires n < TWO_63 && 2 <= radix <= 36
    ensures ParseLong(RemoveUnderscores(ToDigits(n, radix)), radix) == Some(n)
  {
    var digits := ToDigits(n, radix);
    ToDigitsAreDigits(n, radix);
    DigitsRoundTrip(n, radix);
    NoUnderscoreDigits(digits, radix);
    assert IsDigitIn(digits[0], radix);
  }

  /** Underscores separate digit groups and are ignored. */
  lemma NumberUnderscores()
    ensures EvaluateNumber("1_0") == Value(10)
  {
    assert RemoveUnderscores("1_0") == "10";
    assert DigitsValue("10", 10) == Some(10) by {
      assert "10"[..1] == "1";
    }
  }

  lemma NumberHexUnderscores()
    ensures EvaluateNumber("0xF_F") == Value(255)
  {
    assert "0xF_F"[2..] == "F_F";
    assert RemoveUnderscores("F_F") == "FF";
    assert DigitsValue("FF", 16) == Some(255) by {
      assert "FF"[..1] == "F";
    }
  }

  /** Text that is not a number in its radix is an error naming the literal. */
  lemma NumberInvalid()
    ensures EvaluateNumber("0x") == Error("Invalid number format: 0x")
    ensures EvaluateNumber("12g") == Error("Invalid number format: 12g")
    ensures EvaluateNumber("0b12") == Error("Invalid number format: 0b12")
  {
    assert "0x"[2..] == [];
    assert RemoveUnderscores("12g") == "12g";
    ParseLongRejects("12g", 10, 2);
    assert "0b12"[2..] == "12";
    assert RemoveUnderscores("12") == "12";
    ParseLongRejects("12", 2, 1);
  }

  /** The decimal digits of a number neither start with a radix prefix nor contain an underscore. */
  lemma DecimalDigits(n: nat)
    ensures var dec := ToDigits(n, 10);
      && (forall i :: 0 <= i < |dec| ==> '0' <= dec[i] <= '9') && RemoveUnderscores(dec) == dec
      && !HasRadixPrefix(dec, 'x') && !HasRadixPrefix(dec, 'b') && !HasRadixPrefix(dec, 'd')
  {
    var dec := ToDigits(n, 10);
    ToDigitsAreDigits(n, 10);
    ToDigitsAreDecimal(n, 10);
    NoUnderscoreDigits(dec, 10);
    if |dec| >= 2 {
      assert '0' <= dec[1] <= '9';
    }
  }

  lemma DecimalParses(n: nat)
    requires n < TWO_63
    ensures ParseLong(ToDigits(n, 10), 10) == Some(n)
  {
    var dec := ToDigits(n, 10);
    ToDigitsAreDigits(n, 10);
    DigitsRoundTrip(n, 10);
    assert IsDigitIn(dec[0], 10);
  }

  lemma NoUnderscoreDigits(s: string, radix: nat)
    requires 2 <= radix <= 36
    requires forall i :: 0 <= i < |s| ==> IsDigitIn(s[i], radix)
    ensures RemoveUnderscores(s) == s
  {
    forall i | 0 <= i < |s|
      ensures s[i] != '_'
    {
      assert IsDigitIn(s[i], radix);
    }
  }

  // ---------------------------------------------------------------------------
  // Character literals

  /** The one-character escapes `\n \r \t \\ \' \" \0`. */
  function SimpleEscape(c: char): Option<char>
  {
    match c
    case 'n' => Some('\n')
    case 'r' => Some('\r')
    case 't' => Some('\t')
    case '\\' => Some('\\')
    case '\'' => Some('\'')
    case '"' => Some('"')
    case '0' => Some('\0')
    case _ => None
  }

  /** Two characters read by `toInt(16)` (a sign is allowed), then `toChar()`, which keeps 16 bits. */
  function HexEscape(h: string): (r: Option<char>)
    requires |h| == 2
  {
    match ParseLong(h, 16)
    case None => None
    case Some(v) =>
      HexEscapeBound(h);
      var code := v % 0x1_0000;
      Some(code as char)
  }

  lemma HexEscapeBound(h: string)
    requires |h| == 2 && ParseLong(h, 16).Some?
    ensures -16 < ParseLong(h, 16).value < 256
  {
    assert Power(16, 2) == 256 && Power(16, 1) == 16;
    if h[0] == '-' || h[0] == '+' {
      DigitsValueBound(h[1..], 16);
    } else {
      DigitsValueBound(h, 16);
    }
  }

  /** One step of the escape scan: the character it appends and how many input characters it consumes. */
  datatype Step = Step(c: char, width: nat)

  /**
   * The step at `s[i]`: a simple escape takes two characters, `\x` with two
   * hexadecimal digits four; a backslash that starts neither (an unknown
   * escape, an incomplete `\x`, a backslash at the end) is kept on its own.
   */
  function EscapeStep(s: string, i: nat): (st: Step)
    requires i < |s|
    ensures 1 <= st.width <= |s| - i
    ensures st.width > 1 ==> s[i] == '\\'
    ensures s[i] != '\\' ==> st == Step(s[i], 1)
  {
    if s[i] == '\\' && i + 1 < |s| then
      match SimpleEscape(s[i + 1])
      case Some(c) => Step(c, 2)
      case None =>
        if s[i + 1] == 'x' && i + 3 < |s| && HexEscape(s[i + 2..i + 4]).Some? then
          Step(HexEscape(s[i + 2..i + 4]).value, 4)
        else Step(s[i], 1)
    else Step(s[i], 1)
  }

  /** The characters `parseEscapeSequences` produces for `s[i..]`. */
  function EscapesFrom(s: string, i: nat): (r: seq<char>)
    requires i <= |s|
    decreases |s| - i
  {
    if i == |s| then []
    else
      var st := EscapeStep(s, i);
      [st.c] + EscapesFrom(s, i + st.width)
  }

  function Escapes(s: string): seq<char>
  {
    EscapesFrom(s, 0)
  }

  /** `parseEscapeSequences`, a left-to-right scan that appends one character per step. */
  method ParseEscapeSequences(str: string) returns (result: seq<char>)
    ensures result == Escapes(str)
  {
    result := [];
    var i := 0;
    while i < |str|
      invariant 0 <= i <= |str|
      invariant result + EscapesFrom(str, i) == Escapes(str)
      decreases |str| - i
    {
      var c: char, width: nat;
      if str[i] == '\\' && i + 1 < |str| {
        var simple := SimpleEscape(str[i + 1]);
        if simple.Some? {
          c, width := simple.value, 2;
        } else if str[i + 1] == 'x' {
          if i + 3 < |str| {
            var hex := HexEscape(str[i + 2..i + 4]);
            if hex.Some? {
              c, width := hex.value, 4;
            } else {
              c, width := str[i], 1;
            }
          } else {
            c, width := str[i], 1;
          }
        } else {
          // an unknown escape keeps its backslash
          c, width := str[i], 1;
        }
        assert Step(c, width) == EscapeStep(str, i);
      } else {
        c, width := str[i], 1;
      }
      ScanStep(str, i, result);
      result := result + [c];
      i := i + width;
    }
  }

  /** Appending the character of one step keeps the scan's invariant. */
  lemma ScanStep(s: string, i: nat, done: seq<char>)
    requires i < |s| && done + EscapesFrom(s, i) == Escapes(s)
    ensures (done + [EscapeStep(s, i).c]) + EscapesFrom(s, i + EscapeStep(s, i).width) == Escapes(s)
  {
    EscapesFromUnfold(s, i);
    var st := EscapeStep(s, i);
    assert (done + [st.c]) + EscapesFrom(s, i + st.width) == done + ([st.c] + EscapesFrom(s, i + st.width));
  }

  lemma EscapesFromUnfold(s: string, i: nat)
    requires i < |s|
    ensures EscapesFrom(s, i) == [EscapeStep(s, i).c] + EscapesFrom(s, i + EscapeStep(s, i).width)
  {
  }

  /** A step looks only at the text from its own position on. */
  lemma EscapeStepSuffix(t: string, j: nat, s: string, i: nat)
    requires j < |t| && i < |s| && t[j..] == s[i..]
    ensures EscapeStep(t, j) == EscapeStep(s, i)
  {
    assert t[j] == t[j..][0] == s[i..][0] == s[i];
    if i + 1 < |s| {
      assert t[j + 1] == t[j..][1] == s[i..][1] == s[i + 1];
    }
    if i + 3 < |s| {
      assert t[j + 2..j + 4] == t[j..][2..4] == s[i..][2..4] == s[i + 2..i + 4];
    }
  }

  /** The escape scan from a position looks only at the text from there on. */
  lemma {:induction false} EscapesFromSuffix(t: string, j: nat, s: string, i: nat)
    requires j <= |t| && i <= |s| && t[j..] == s[i..]
    ensures EscapesFrom(t, j) == EscapesFrom(s, i)
    decreases |s| - i
  {
    if i < |s| {
      EscapeStepSuffix(t, j, s, i);
      var w := EscapeStep(s, i).width;
      assert t[j + w..] == t[j..][w..] == s[i..][w..] == s[i + w..];
      EscapesFromSuffix(t, j + w, s, i + w);
    }
  }

  /** The escape scan of `p + s` from inside `s` does not look at `p`. */
  lemma EscapesFromShift(p: string, s: string, i: nat)
    requires i <= |s|
    ensures EscapesFrom(p + s, |p| + i) == EscapesFrom(s, i)
  {
    assert (p + s)[|p| + i..] == s[i..];
    EscapesFromSuffix(p + s, |p| + i, s, i);
  }

  /** Text without a backslash comes through unchanged. */
  lemma {:induction false} EscapesPlain(s: string, i: nat)
    requires i <= |s| && '\\' !in s
    ensures EscapesFrom(s, i) == s[i..]
    decreases |s| - i
  {
    if i < |s| {
      EscapesPlain(s, i + 1);
    }
  }

  /** Each of the seven simple escapes becomes its one character. */
  lemma EscapeSimple(c: char, rest: string)
    requires SimpleEscape(c).Some?
    ensures Escapes(['\\', c] + rest) == [SimpleEscape(c).value] + Escapes(rest)
  {
    EscapesFromUnfold(['\\', c] + rest, 0);
    EscapesFromShift(['\\', c], rest, 0);
  }

  /** `\x` and two hex digits become the character with that code. */
  lemma EscapeHex(h1: char, h2: char, rest: string)
    requires IsDigitIn(h1, 16) && IsDigitIn(h2, 16)
    ensures Escapes(['\\', 'x', h1, h2] + rest) == [(16 * DigitValue(h1) + DigitValue(h2)) as char] + Escapes(rest)
  {
    var p := ['\\', 'x', h1, h2];
    var s := p + rest;
    assert s[2..4] == [h1, h2];
    HexDigits(h1, h2);
    assert EscapeStep(s, 0) == Step((16 * DigitValue(h1) + DigitValue(h2)) as char, 4);
    EscapesFromUnfold(s, 0);
    EscapesFromShift(p, rest, 0);
  }

  lemma HexDigits(h1: char, h2: char)
    requires IsDigitIn(h1, 16) && IsDigitIn(h2, 16)
    ensures HexEscape([h1, h2]) == Some((16 * DigitValue(h1) + DigitValue(h2)) as char)
  {
    assert [h1, h2][..1] == [h1];
    assert [h1][..0] == [];
    assert DigitsValue([h1], 16) == Some(DigitValue(h1));
    assert DigitsValue([h1, h2], 16) == Some(16 * DigitValue(h1) + DigitValue(h2));
  }

  /** `toInt(16)` accepts a sign, and `toChar()` keeps 16 bits: `\x-f` is the character 0xFFF1. */
  lemma EscapeHexSigned()
    ensures Escapes("\\x-f") == [0xFFF1 as char]
  {
    var s := "\\x-f";
    assert s[2..4] == "-f";
    assert "-f"[1..] == "f";
    assert ParseLong("-f", 16) == Some(-15) by {
      assert DigitsValue("f", 16) == Some(15) by {
        assert "f"[..0] == [];
      }
    }
    assert EscapeStep(s, 0) == Step(0xFFF1 as char, 4);
    EscapesFromUnfold(s, 0);
  }

  /** An unknown escape keeps the backslash and goes on with the next character. */
  lemma EscapeUnknown(c: char, rest: string)
    requires SimpleEscape(c).None? && c != 'x'
    ensures Escapes(['\\', c] + rest) == ['\\'] + Escapes([c] + rest)
  {
    assert (['\\', c] + rest) == ['\\'] + ([c] + rest);
    EscapesFromUnfold(['\\', c] + rest, 0);
    EscapesFromShift(['\\'], [c] + rest, 0);
  }

  /** A backslash at the very end, or a `\x` with fewer than two characters after it, is kept. */
  lemma EscapeIncomplete()
    ensures Escapes("\\") == "\\"
    ensures Escapes("\\x4") == "\\x4"
  {
    assert EscapesFrom("\\x4", 1) == "x4";
  }

  /** The low byte of a character code, as `code.toLong() and 0xFF`. */
  function LowByte(c: char): (b: nat)
    ensures b < 256
  {
    c as int % 256
  }

  /** Little-endian packing: the first character is the lowest byte. */
  function Pack(chars: seq<char>): nat
  {
    if chars == [] then 0 else LowByte(chars[0]) + 256 * Pack(chars[1..])
  }

  /**
   * `evaluateString`: a literal shorter than two characters is an error;
   * the quotes are dropped; no content is 0, one character is its code,
   * more are packed little-endian a byte each, keeping the low 64 bits.
   */
  function StringValue(text: string): EvalResult
  {
    if |text| < 2 then Error("Invalid string literal")
    else
      var content := text[1..|text| - 1];
      if content == [] then Value(0)
      else
        var chars := Escapes(content);
        if |chars| == 1 then Value(chars[0] as int)
        else Value(Wrap(Pack(chars)))
  }

  /** `evaluateString`, packing from the last character to the first. */
  method EvaluateString(text: string) returns (r: EvalResult)
    ensures r == StringValue(text)
  {
    if |text| < 2 {
      return Error("Invalid string literal");
    }
    var content := text[1..|text| - 1];
    if content == [] {
      return Value(0);
    }
    var chars := ParseEscapeSequences(content);
    if |chars| == 1 {
      return Value(chars[0] as int);
    }
    var value: Long := 0;
    var i := |chars|;
    while i > 0
      invariant 0 <= i <= |chars|
      invariant value == Wrap(Pack(chars[i..]))
      decreases i
    {
      i := i - 1;
      PackStep(chars, i, value);
      // the low byte of `value shl 8` is zero, so `or` with a byte adds it
      value := Shl(value, 8) + LowByte(chars[i]);
    }
    assert chars[0..] == chars;
    r := Value(value);
  }

  lemma PackStep(chars: seq<char>, i: nat, w: Long)
    requires i < |chars| && w == Wrap(Pack(chars[i + 1..]))
    ensures -TWO_63 <= Shl(w, 8) + LowByte(chars[i]) < TWO_63
    ensures Shl(w, 8) + LowByte(chars[i]) == Wrap(Pack(chars[i..]))
  {
    var p := Pack(chars[i + 1..]);
    var b := LowByte(chars[i]);
    assert chars[i..][1..] == chars[i + 1..];
    assert Pack(chars[i..]) == b + 256 * p;
    Pow2Byte();
    assert ShiftCount(8) == 8;
    var s := Shl(w, 8);
    assert s == Wrap(w * 256);
    ShiftedLowByteClear(w);
    assert Wrap(s + b) == s + b;
    WrapPlus(w * 256, b);
    assert s + b == Wrap(w * 256 + b);
    WrapTimesPlus(p, 256, b);
    assert Wrap(p) * 256 + b == w * 256 + b;
  }

  /** `value shl 8` leaves room for one more byte below the top of the `Long` range. */
  lemma ShiftedLowByteClear(w: Long)
    ensures Wrap(w * 256) <= TWO_63 - 256
  {
    var r := Wrap(w * 256);
    var k := (w * 256 - r) / TWO_64;
    assert w * 256 - r == k * TWO_64;
    assert r == 256 * (w - k * 0x100_0000_0000_0000);
  }

  /** `'AB'` packs to 0x4241: the first character is the low byte. */
  lemma StringPacking()
    ensures StringValue("'AB'") == Value(0x4241)
    ensures StringValue("'A'") == Value(65)
    ensures StringValue("''") == Value(0)
    ensures StringValue("'") == Error("Invalid string literal")
  {
    assert "'AB'"[1..3] == "AB";
    EscapesPlain("AB", 0);
    assert Pack("AB"[1..]) == 66 by {
      assert "AB"[1..][1..] == [];
    }
    assert "'A'"[1..2] == "A";
    EscapesPlain("A", 0);
  }

  /** Byte `i` of `v`, counting the least significant byte as byte 0. */
  function ByteOf(v: nat, i: nat): (b: nat)
    ensures b < 256
  {
    if i == 0 then v % 256 else ByteOf(v / 256, i - 1)
  }

  /** Packing is reversible: byte `i` of the packed value is the low byte of character `i`. */
  lemma {:induction false} PackByte(chars: seq<char>, i: nat)
    requires i < |chars|
    ensures ByteOf(Pack(chars), i) == LowByte(chars[i])
    decreases i
  {
    ByteSplit(LowByte(chars[0]), Pack(chars[1..]));
    if i > 0 {
      PackByte(chars[1..], i - 1);
    }
  }

  lemma ByteSplit(b: nat, p: nat)
    requires b < 256
    ensures (b + 256 * p) % 256 == b && (b + 256 * p) / 256 == p
  {
  }

  /** At most eight characters fit: the packed value is exactly their bytes. */
  lemma {:induction false} PackBound(chars: seq<char>)
    ensures Pack(chars) < Power(256, |chars|)
  {
    if chars != [] {
      PackBound(chars[1..]);
      assert Pack(chars) <= 255 + 256 * (Power(256, |chars| - 1) - 1);
    }
  }

  /** Characters past the eighth are shifted out of the 64-bit value. */
  lemma {:induction false} PackTruncates(chars: seq<char>)
    requires |chars| > 8
    ensures Wrap(Pack(chars)) == Wrap(Pack(chars[..8]))
  {
    PackSplit(chars, 8);
    assert Power(256, 8) == TWO_64;
    var k := Pack(chars[8..]);
    assert Pack(chars) - Pack(chars[..8]) == k * TWO_64;
    WrapCongruent(Pack(chars), Pack(chars[..8]));
  }

  lemma {:induction false} PackSplit(chars: seq<char>, n: nat)
    requires n <= |chars|
    ensures Pack(chars) == Pack(chars[..n]) + Power(256, n) * Pack(chars[n..])
    decreases n
  {
    if n > 0 {
      var tail := chars[1..];
      PackSplit(tail, n - 1);
      assert chars[..n][1..] == tail[..n - 1];
      assert tail[n - 1..] == chars[n..];
      var b, lo, hi, q := LowByte(chars[0]), Pack(tail[..n - 1]), Pack(chars[n..]), Power(256, n - 1);
      assert Pack(chars[..n]) == b + 256 * lo;
      assert Pack(tail) == lo + q * hi;
      assert Pack(chars) == b + 256 * Pack(tail);
      assert Power(256, n) == 256 * q;
      Distribute(256, lo, q, hi);
    }
  }

  lemma Distribute(a: int, lo: int, q: int, hi: int)
    ensures a * (lo + q * hi) == a * lo + (a * q) * hi
  {
    calc {
      a * (lo + q * hi);
      a * lo + a * (q * hi);
      { MulAssociates(a, q, hi); }
      a * lo + (a * q) * hi;
    }
  }

  lemma MulAssociates(a: int, b: int, c: int)
    ensures a * (b * c) == (a * b) * c
  {
  }

  /**
   * The value of a literal of two or more characters holds, in byte `i`,
   * the low byte of character `i`, for each of the first eight characters.
   */
  lemma PackedBytes(chars: seq<char>, i: nat)
    requires i < |chars| && i < 8
    ensures ByteOf(Unsigned(Wrap(Pack(chars))), i) == LowByte(chars[i])
  {
    var c8 := if |chars| > 8 then chars[..8] else chars;
    if |chars| > 8 {
      PackTruncates(chars);
    }
    PackBound(c8);
    PowerMonotone(256, |c8|, 8);
    assert Power(256, 8) == TWO_64;
    UnsignedWrap(Pack(c8));
    PackByte(c8, i);
  }

  lemma {:induction false} PowerMonotone(b: nat, m: nat, n: nat)
    requires b >= 1 && m <= n
    ensures Power(b, m) <= Power(b, n)
    decreases n
  {
    if m < n {
      PowerMonotone(b, m, n - 1);
      var q := Power(b, n - 1);
      assert Power(b, n) == b * q;
      MulAtLeast(b, q);
    }
  }

  lemma MulAtLeast(b: nat, q: nat)
    requires b >= 1
    ensures b * q >= q
  {
  }

  // ---------------------------------------------------------------------------
  // Operator search over the significant children of an expression

  /** The number of precedence levels of `operatorsByPrecedence`. */
  const LEVELS: nat := 11

  /**
   * `operatorsByPrecedence`, as the level each operator is listed in, from
   * the loosest-binding (0: `||`) to the tightest (10: `%+`); `LEVELS` for a
   * token that is in no level.
   */
  function LevelOf(op: Kind): (lv: nat)
    ensures lv <= LEVELS
  {
    if op == BOOLEAN_OR then 0
    else if op == BOOLEAN_XOR then 1
    else if op == BOOLEAN_AND then 2
    else if op == PIPE then 3
    else if op == CARET then 4
    else if op == AMP then 5
    else if || op == EQ_EQ || op == NOT_EQUAL_1 || op == NOT_EQUAL_2 || op == LT || op == LTE || op == GT || op == GTE
            || op == SPACESHIP then 6
    else if op == LSHIFT || op == LSHIFT_COMPLETE || op == RSHIFT || op == RSHIFT_COMPLETE then 7
    else if op == PLUS || op == MINUS then 8
    else if op == MUL || IsDivisionOp(op) then 9
    else if op == PASTE_OP then 10
    else LEVELS
  }

  /** Every operator of the precedence table except `%+` is one `applyBinaryOperator` evaluates. */
  lemma LevelsAreOperators(op: Kind)
    ensures LevelOf(op) < LEVELS && op != PASTE_OP ==> IsBinaryOperator(op)
    ensures IsBinaryOperator(op) ==> LevelOf(op) < LEVELS
  {
  }

  /** The operator split: operator kind, its index, and the nodes left and right of it. */
  datatype BinaryOpInfo<N> = BinaryOpInfo(op: Kind, index: nat, left: seq<N>, right: seq<N>)
  datatype UnaryOpInfo<N> = UnaryOpInfo(op: Kind, operand: seq<N>)

  /** Node `j` is an operator token of precedence level `level`. */
  predicate HasKindIn(kinds: seq<Option<Kind>>, j: nat, level: nat)
    requires j < |kinds|
  {
    kinds[j].Some? && LevelOf(kinds[j].value) == level
  }

  /** The largest index in `[1, n)` whose token is of level `level`, or -1. */
  function LastIndexIn(kinds: seq<Option<Kind>>, level: nat, n: nat): (r: int)
    requires n <= |kinds|
    ensures r == -1 || 1 <= r < n
    ensures r >= 1 ==> HasKindIn(kinds, r, level)
    ensures r >= 1 ==> forall j :: r < j < n ==> !HasKindIn(kinds, j, level)
    ensures r == -1 ==> forall j :: 1 <= j < n ==> !HasKindIn(kinds, j, level)
  {
    if n <= 1 then -1
    else if HasKindIn(kinds, n - 1, level) then n - 1
    else LastIndexIn(kinds, level, n - 1)
  }

  /** The split at the first level, from `k` on, that has an operator after index 0. */
  function SplitFrom<N>(nodes: seq<N>, kinds: seq<Option<Kind>>, k: nat): (r: Option<BinaryOpInfo<N>>)
    requires |kinds| == |nodes| && k <= LEVELS
    decreases LEVELS - k
  {
    if k == LEVELS then None
    else
      var j := LastIndexIn(kinds, k, |kinds|);
      if j >= 1 then Some(BinaryOpInfo(kinds[j].value, j, nodes[..j], nodes[j + 1..]))
      else SplitFrom(nodes, kinds, k + 1)
  }

  /** `findBinaryOperator`, given the token kind of each node (None for a composite node). */
  function BinarySplit<N>(nodes: seq<N>, kinds: seq<Option<Kind>>): Option<BinaryOpInfo<N>>
    requires |kinds| == |nodes|
  {
    SplitFrom(nodes, kinds, 0)
  }

  /**
   * The split is at the loosest-binding level that occurs anywhere but at
   * index 0, at its rightmost occurrence (so operators of one level
   * associate to the left); without any such operator there is no split.
   */
  lemma {:induction false} SplitFromNone<N>(nodes: seq<N>, kinds: seq<Option<Kind>>, k: nat)
    requires |kinds| == |nodes| && k <= LEVELS
    ensures SplitFrom(nodes, kinds, k).None? <==>
      forall lv, j :: k <= lv < LEVELS && 1 <= j < |kinds| ==> !HasKindIn(kinds, j, lv)
    decreases LEVELS - k
  {
    if k < LEVELS {
      var j := LastIndexIn(kinds, k, |kinds|);
      if j < 1 {
        assert SplitFrom(nodes, kinds, k) == SplitFrom(nodes, kinds, k + 1);
        SplitFromNone(nodes, kinds, k + 1);
      } else {
        assert SplitFrom(nodes, kinds, k).Some?;
        assert HasKindIn(kinds, j, k);
      }
    }
  }

  lemma SplitFromSome<N>(nodes: seq<N>, kinds: seq<Option<Kind>>, k: nat)
    requires |kinds| == |nodes| && k <= LEVELS && SplitFrom(nodes, kinds, k).Some?
    ensures var info := SplitFrom(nodes, kinds, k).value;
      && 1 <= info.index < |nodes| && kinds[info.index] == Some(info.op)
      && info.left == nodes[..info.index] && info.right == nodes[info.index + 1..]
    ensures var info := SplitFrom(nodes, kinds, k).value;
      && k <= LevelOf(info.op) < LEVELS
      && (forall j :: info.index < j < |kinds| ==> !HasKindIn(kinds, j, LevelOf(info.op)))
    ensures var lv := LevelOf(SplitFrom(nodes, kinds, k).value.op);
      forall l2, j :: k <= l2 < lv && 1 <= j < |kinds| ==> !HasKindIn(kinds, j, l2)
  {
    SplitFromShape(nodes, kinds, k);
    SplitFromLevel(nodes, kinds, k);
  }

  lemma {:induction false} SplitFromShape<N>(nodes: seq<N>, kinds: seq<Option<Kind>>, k: nat)
    requires |kinds| == |nodes| && k <= LEVELS && SplitFrom(nodes, kinds, k).Some?
    ensures var info := SplitFrom(nodes, kinds, k).value;
      && 1 <= info.index < |nodes| && kinds[info.index] == Some(info.op)
      && info.left == nodes[..info.index] && info.right == nodes[info.index + 1..]
    decreases LEVELS - k
  {
    var j := LastIndexIn(kinds, k, |kinds|);
    if j < 1 {
      assert SplitFrom(nodes, kinds, k) == SplitFrom(nodes, kinds, k + 1);
      SplitFromShape(nodes, kinds, k + 1);
    }
  }

  lemma {:induction false} SplitFromLevel<N>(nodes: seq<N>, kinds: seq<Option<Kind>>, k: nat)
    requires |kinds| == |nodes| && k <= LEVELS && SplitFrom(nodes, kinds, k).Some?
    ensures var info := SplitFrom(nodes, kinds, k).value;
      && info.index < |kinds|
      && k <= LevelOf(info.op) < LEVELS
      && (forall j :: info.index < j < |kinds| ==> !HasKindIn(kinds, j, LevelOf(info.op)))
    ensures var lv := LevelOf(SplitFrom(nodes, kinds, k).value.op);
      forall l2, j :: k <= l2 < lv && 1 <= j < |kinds| ==> !HasKindIn(kinds, j, l2)
    decreases LEVELS - k
  {
    var j := LastIndexIn(kinds, k, |kinds|);
    if j < 1 {
      assert SplitFrom(nodes, kinds, k) == SplitFrom(nodes, kinds, k + 1);
      SplitFromLevel(nodes, kinds, k + 1);
    } else {
      assert SplitFrom(nodes, kinds, k).value.op == kinds[j].value;
      assert HasKindIn(kinds, j, k);
    }
  }

  /** `findBinaryOperator`: for each level, scan all nodes and remember the last operator after index 0. */
  method FindBinaryOperator<N>(nodes: seq<N>, kinds: seq<Option<Kind>>) returns (r: Option<BinaryOpInfo<N>>)
    requires |kinds| == |nodes|
    ensures r == BinarySplit(nodes, kinds)
  {
    var k := 0;
    while k < LEVELS
      invariant 0 <= k <= LEVELS
      invariant SplitFrom(nodes, kinds, k) == BinarySplit(nodes, kinds)
      decreases LEVELS - k
    {
      var lastIndex := LastOperatorIndex(kinds, k);
      if lastIndex >= 0 {
        return Some(BinaryOpInfo(kinds[lastIndex].value, lastIndex, nodes[..lastIndex], nodes[lastIndex + 1..]));
      }
      k := k + 1;
    }
    return None;
  }

  /** The inner loop of `findBinaryOperator`: the last node after index 0 whose operator is of level `k`. */
  method LastOperatorIndex(kinds: seq<Option<Kind>>, k: nat) returns (lastIndex: int)
    ensures lastIndex == LastIndexIn(kinds, k, |kinds|)
  {
    lastIndex := -1;
    var index := 0;
    while index < |kinds|
      invariant 0 <= index <= |kinds|
      invariant lastIndex == LastIndexIn(kinds, k, index)
      decreases |kinds| - index
    {
      if kinds[index].Some? && LevelOf(kinds[index].value) == k && index > 0 {
        lastIndex := index;
      }
      index := index + 1;
    }
  }

  /** `findUnaryOperator`: a unary operator in front of at least one more node. */
  function FindUnaryOperator<N>(nodes: seq<N>, kinds: seq<Option<Kind>>): (r: Option<UnaryOpInfo<N>>)
    requires |kinds| == |nodes|
    ensures r.Some? <==> |nodes| >= 2 && kinds[0].Some? && IsUnaryOperator(kinds[0].value)
    ensures r.Some? ==> Some(r.value.op) == kinds[0] && r.value.operand == nodes[1..]
  {
    if |nodes| >= 2 && kinds[0].Some? && IsUnaryOperator(kinds[0].value) then
      Some(UnaryOpInfo(kinds[0].value, nodes[1..]))
    else None
  }

  /** `1 + 2 * 3` splits at `+`. */
  lemma SplitSum()
    ensures BinarySplit([1, 2, 3, 4, 5], [None, Some(PLUS), None, Some(MUL), None]) ==
            Some(BinaryOpInfo(PLUS, 1, [1], [3, 4, 5]))
  {
    var nodes := [1, 2, 3, 4, 5];
    var a: seq<Option<Kind>> := [None, Some(PLUS), None, Some(MUL), None];
    assert LevelOf(PLUS) == 8 && LevelOf(MUL) == 9;
    SkipLevels(nodes, a, 0, 8);
    SumLastPlus(a);
    assert nodes[..1] == [1] && nodes[2..] == [3, 4, 5];
  }

  lemma SumLastPlus(a: seq<Option<Kind>>)
    requires a == [None, Some(PLUS), None, Some(MUL), None]
    ensures LastIndexIn(a, 8, 5) == 1
  {
    assert LevelOf(PLUS) == 8 && LevelOf(MUL) == 9;
    assert a[4] == None && a[3] == Some(MUL) && a[2] == None;
    assert LastIndexIn(a, 8, 5) == LastIndexIn(a, 8, 4);
    assert LastIndexIn(a, 8, 4) == LastIndexIn(a, 8, 3);
    assert LastIndexIn(a, 8, 3) == LastIndexIn(a, 8, 2);
    assert HasKindIn(a, 1, 8);
  }

  /** `8 - 3 - 2` splits at the second `-`, so subtraction associates to the left. */
  lemma SplitDifference()
    ensures BinarySplit([1, 2, 3, 4, 5], [None, Some(MINUS), None, Some(MINUS), None]) ==
            Some(BinaryOpInfo(MINUS, 3, [1, 2, 3], [5]))
  {
    var nodes := [1, 2, 3, 4, 5];
    var b: seq<Option<Kind>> := [None, Some(MINUS), None, Some(MINUS), None];
    assert LevelOf(MINUS) == 8;
    SkipLevels(nodes, b, 0, 8);
    assert LastIndexIn(b, 8, 5) == LastIndexIn(b, 8, 4) == 3;
    assert nodes[..3] == [1, 2, 3] && nodes[4..] == [5];
  }

  /** A leading `-` is never split at. */
  lemma SplitLeadingMinus()
    ensures BinarySplit([1, 2], [Some(MINUS), None]) == None
  {
    SplitFromNone([1, 2], [Some(MINUS), None], 0);
  }

  /** Levels without an operator after index 0 are passed over. */
  lemma {:induction false} SkipLevels<N>(nodes: seq<N>, kinds: seq<Option<Kind>>, k: nat, m: nat)
    requires |kinds| == |nodes| && k <= m <= LEVELS
    requires forall lv, j :: k <= lv < m && 1 <= j < |kinds| ==> !HasKindIn(kinds, j, lv)
    ensures SplitFrom(nodes, kinds, k) == SplitFrom(nodes, kinds, m)
    decreases m - k
  {
    if k < m {
      assert LastIndexIn(kinds, k, |kinds|) == -1;
      SkipLevels(nodes, kinds, k + 1, m);
    }
  }
}
