// Operand type names in the instruction documentation: each name split into
// a base type and a size, and a base written with the sizes seen for it.
module OperandDocs {
  import opened Wrappers
  import opened Text
  import opened InstructionDatabase

  /** `OperandType.toString()`: the enum constant's name. */
  function OperandTypeName(t: OperandType): string
  {
    match t
    case REG => "REG" case REG8 => "REG8" case REG16 => "REG16" case REG32 => "REG32" case REG64 => "REG64"
    case MEM => "MEM" case IMM => "IMM" case IMM8 => "IMM8" case IMM16 => "IMM16" case IMM32 => "IMM32"
    case IMM64 => "IMM64" case LABEL => "LABEL" case R_M => "R_M" case R_M8 => "R_M8" case R_M16 => "R_M16"
    case R_M32 => "R_M32" case R_M64 => "R_M64" case SREG => "SREG" case CREG => "CREG" case DREG => "DREG"
    case XMM => "XMM" case YMM => "YMM" case ZMM => "ZMM" case MM => "MM" case ST => "ST" case ANY => "ANY"
  }

  // ---------------------------------------------------------------- parseOperandType

  /** The whole name is `<letter>\d+` (the `R\d+` and `M\d+` patterns). */
  predicate LetterThenDigits(t: string, c: char)
  {
    |t| >= 2 && t[0] == c && forall k :: 1 <= k < |t| ==> IsAsciiDigit(t[k])
  }

  /** `lowercase().replace("_", "/")`. */
  function SlashLower(s: string): (r: string)
    ensures |r| == |s|
    ensures forall k :: 0 <= k < |s| ==> r[k] == if s[k] == '_' then '/' else LowerChar(s[k])
  {
    seq(|s|, k requires 0 <= k < |s| => if s[k] == '_' then '/' else LowerChar(s[k]))
  }

  /** The number of ASCII digits the string ends with. */
  function TrailingDigits(t: string): (n: nat)
    ensures n <= |t|
    ensures forall k :: |t| - n <= k < |t| ==> IsAsciiDigit(t[k])
    ensures n < |t| ==> !IsAsciiDigit(t[|t| - n - 1])
  {
    if t == [] || !IsAsciiDigit(t[|t| - 1]) then 0 else 1 + TrailingDigits(t[..|t| - 1])
  }

  /**
   * Where `^(.+?)(\d+)$` splits t, if it matches: the shortest base of at
   * least one character after which only digits remain.
   */
  function LazySplit(t: string): (b: Option<nat>)
  {
    var n := TrailingDigits(t);
    if n == 0 || |t| < 2 then None
    else if n == |t| then Some(1)
    else Some(|t| - n)
  }

  /**
   * Whether the regex can split t at b: a base of at least one character,
   * then at least one digit, and nothing else. Here `.` takes any character
   * and `$` matches only at the very end. In Java, `.` takes no line
   * terminator and `$` also matches just before a final one; operand type
   * strings hold no line terminators, and on such strings the two readings
   * agree. Java's `\d` is the ASCII digits, as IsAsciiDigit is.
   */
  predicate SplitsAt(t: string, b: nat)
  {
    1 <= b < |t| && forall k :: b <= k < |t| ==> IsAsciiDigit(t[k])
  }

  /**
   * LazySplit is the regex's lazy match: it finds a split when there is one,
   * and the shortest base. This is the regex's reading on strings without
   * line terminators, which operand type strings are (see SplitsAt).
   */
  lemma LazySplitIsRegex(t: string)
    ensures LazySplit(t).None? <==> forall b: nat :: !SplitsAt(t, b)
    ensures LazySplit(t).Some? ==>
      (SplitsAt(t, LazySplit(t).value) && forall b: nat :: b < LazySplit(t).value ==> !SplitsAt(t, b))
  {
    var n := TrailingDigits(t);
    match LazySplit(t)
    case None =>
      forall b: nat
        ensures !SplitsAt(t, b)
      {
        if 1 <= b < |t| && n < |t| {
          assert !IsAsciiDigit(t[|t| - n - 1]);
        }
      }
    case Some(v) =>
      assert SplitsAt(t, v);
      forall b: nat | b < v
        ensures !SplitsAt(t, b)
      {
        if 1 <= b {
          assert !IsAsciiDigit(t[|t| - n - 1]);
        }
      }
  }

  /** `parseOperandType`: the base type and the size of an operand type name, the patterns tried in order. */
  function ParseOperandType(t: string): (r: (string, string))
  {
    if StartsWith(t, "R_M") then ("r/m", t[3..])
    else if StartsWith(t, "IMM") then ("imm", t[3..])
    else if StartsWith(t, "REG") then ("r", t[3..])
    else if LetterThenDigits(t, 'R') then ("r", t[1..])
    else if LetterThenDigits(t, 'M') then ("m", t[1..])
    else if StartsWith(t, "MOFFS") then ("moffs", t[5..])
    else if StartsWith(t, "REL") then ("rel", t[3..])
    else if StartsWith(t, "XMM") then ("xmm", "")
    else if StartsWith(t, "YMM") then ("ymm", "")
    else if StartsWith(t, "ZMM") then ("zmm", "")
    else if StartsWith(t, "MM") then ("mm", "")
    else if StartsWith(t, "SREG") then ("sreg", "")
    else if StartsWith(t, "ST") then ("st", "")
    else
      match LazySplit(t)
      case Some(b) => (SlashLower(t[..b]), t[b..])
      case None => (SlashLower(t), "")
  }

  /** A string that differs from p at k does not start with p. */
  lemma Differs(s: string, p: string, k: nat)
    requires k < |s| && k < |p| && s[k] != p[k]
    ensures !StartsWith(s, p)
  {
    if |p| <= |s| {
      assert s[..|p|][k] == s[k];
    }
  }

  /** A string that agrees with p on p's length starts with p. */
  lemma Agrees(s: string, p: string)
    requires |p| <= |s| && forall k :: 0 <= k < |p| ==> s[k] == p[k]
    ensures StartsWith(s, p)
  {
    assert s[..|p|] == p;
  }

  /** The sized families split after their prefix, with or without a size. */
  lemma ParseSizedTypes()
    ensures ParseOperandType("R_M16") == ("r/m", "16") && ParseOperandType("R_M") == ("r/m", "")
    ensures ParseOperandType("IMM32") == ("imm", "32") && ParseOperandType("IMM") == ("imm", "")
    ensures ParseOperandType("REG64") == ("r", "64") && ParseOperandType("REG") == ("r", "")
  {
    Agrees("R_M16", "R_M");
    Agrees("R_M", "R_M");
    Differs("IMM32", "R_M", 0);
    Agrees("IMM32", "IMM");
    Differs("IMM", "R_M", 0);
    Agrees("IMM", "IMM");
    Differs("REG64", "R_M", 1);
    Differs("REG64", "IMM", 0);
    Agrees("REG64", "REG");
    Differs("REG", "R_M", 1);
    Differs("REG", "IMM", 0);
    Agrees("REG", "REG");
  }

  /** A register or memory size written after a single letter. */
  lemma ParseLetterSized()
    ensures ParseOperandType("M64") == ("m", "64") && ParseOperandType("R8") == ("r", "8")
  {
    Differs("M64", "R_M", 0);
    Differs("M64", "IMM", 0);
    Differs("M64", "REG", 0);
    assert IsAsciiDigit("M64"[1]) && IsAsciiDigit("M64"[2]);
    assert LetterThenDigits("M64", 'M');
    Differs("R8", "R_M", 1);
    Differs("R8", "IMM", 0);
    Differs("R8", "REG", 1);
    assert IsAsciiDigit("R8"[1]);
    assert LetterThenDigits("R8", 'R');
  }

  /** The vector registers lose their number. */
  lemma ParseVectorTypes()
    ensures ParseOperandType("XMM") == ("xmm", "") && ParseOperandType("XMM0") == ("xmm", "")
  {
    Differs("XMM", "R_M", 0);
    Differs("XMM", "IMM", 0);
    Differs("XMM", "REG", 0);
    Differs("XMM", "MOFFS", 0);
    Differs("XMM", "REL", 0);
    Agrees("XMM", "XMM");
    Differs("XMM0", "R_M", 0);
    Differs("XMM0", "IMM", 0);
    Differs("XMM0", "REG", 0);
    Differs("XMM0", "MOFFS", 0);
    Differs("XMM0", "REL", 0);
    Agrees("XMM0", "XMM");
  }

  /**
   * A name whose first letter starts none of the patterns goes to the
   * fallback: split before its trailing digits when the regex splits it,
   * lowercased and slashed whole otherwise.
   */
  lemma FallbackApplies(t: string)
    requires t != [] && t[0] !in {'R', 'I', 'M', 'X', 'Y', 'Z', 'S'}
    ensures LazySplit(t).Some? ==> ParseOperandType(t) == (SlashLower(t[..LazySplit(t).value]), t[LazySplit(t).value..])
    ensures LazySplit(t).None? ==> ParseOperandType(t) == (SlashLower(t), "")
  {
    Differs(t, "R_M", 0);
    Differs(t, "IMM", 0);
    Differs(t, "REG", 0);
    Differs(t, "MOFFS", 0);
    Differs(t, "REL", 0);
    Differs(t, "XMM", 0);
    Differs(t, "YMM", 0);
    Differs(t, "ZMM", 0);
    Differs(t, "MM", 0);
    Differs(t, "SREG", 0);
    Differs(t, "ST", 0);
  }

  /** MEM matches no pattern and has no trailing number: it is lowercased whole. */
  lemma ParseMemType()
    ensures ParseOperandType("MEM") == ("mem", "")
  {
    Differs("MEM", "R_M", 0);
    Differs("MEM", "IMM", 0);
    Differs("MEM", "REG", 0);
    assert !IsAsciiDigit("MEM"[1]) && !IsAsciiDigit("MEM"[2]);
    assert !LetterThenDigits("MEM", 'M');
    Differs("MEM", "MOFFS", 1);
    Differs("MEM", "REL", 0);
    Differs("MEM", "XMM", 0);
    Differs("MEM", "YMM", 0);
    Differs("MEM", "ZMM", 0);
    Differs("MEM", "MM", 1);
    Differs("MEM", "SREG", 0);
    Differs("MEM", "ST", 0);
    assert TrailingDigits("MEM") == 0;
    assert SlashLower("MEM") == "mem";
  }

  /** CREG starts no pattern and has no trailing number: it is lowercased whole. */
  lemma ParseControlRegisterType()
    ensures ParseOperandType("CREG") == ("creg", "")
  {
    FallbackApplies("CREG");
    assert !IsAsciiDigit("CREG"[3]);
    assert TrailingDigits("CREG") == 0;
    assert SlashLower("CREG") == "creg";
  }

  /** The fallback keeps every character: the base is the lowered, slashed front and the size the digits after it. */
  lemma FallbackSplit(t: string)
    requires LazySplit(t).Some?
    ensures var b := LazySplit(t).value;
      t[b..] != [] && (forall k :: 0 <= k < |t[b..]| ==> IsAsciiDigit(t[b..][k])) && SlashLower(t[..b]) != []
  {
  }

  // ---------------------------------------------------------------- formatOperandWithSizes

  /** `formatOperandWithSizes`. */
  function FormatOperandWithSizes(baseType: string, sizes: seq<string>): string
  {
    if sizes == [] || (|sizes| == 1 && sizes[0] == []) then baseType
    else if |sizes| == 1 then baseType + sizes[0]
    else baseType + "{" + JoinWith(sizes, ",") + "}"
  }

  /**
   * No size, or one empty size, leaves the base alone; one size is
   * appended; several are listed in braces, and the list splits back into
   * the sizes when none of them has a comma.
   */
  lemma FormatOperandCases(baseType: string, sizes: seq<string>)
    ensures sizes == [] ==> FormatOperandWithSizes(baseType, sizes) == baseType
    ensures |sizes| == 1 ==> FormatOperandWithSizes(baseType, sizes) == baseType + sizes[0]
    ensures |sizes| >= 2 && (forall k :: 0 <= k < |sizes| ==> ',' !in sizes[k]) ==>
      var f := FormatOperandWithSizes(baseType, sizes);
      |f| >= |baseType| + 2 && f[..|baseType|] == baseType && f[|baseType|] == '{' && f[|f| - 1] == '}' &&
      Split(f[|baseType| + 1..|f| - 1], ',') == sizes
  {
    if |sizes| >= 2 && (forall k :: 0 <= k < |sizes| ==> ',' !in sizes[k]) {
      var inner := JoinWith(sizes, ",");
      var f := FormatOperandWithSizes(baseType, sizes);
      assert f == baseType + "{" + inner + "}";
      assert f[|baseType| + 1..|f| - 1] == inner;
      SplitJoin(sizes, ',');
    }
  }

  // ---------------------------------------------------------------- clean base types

  /** No operand type name is empty or holds a comma. */
  lemma TypeNameClean(t: OperandType)
    ensures OperandTypeName(t) != "" && ',' !in OperandTypeName(t)
  {
  }

  /** Lowering and slashing adds no comma. */
  lemma SlashLowerNoComma(x: string)
    requires ',' !in x
    ensures ',' !in SlashLower(x)
  {
    forall k | 0 <= k < |x|
      ensures SlashLower(x)[k] != ','
    {
      assert x[k] != ',';
    }
  }

  /** Parsing a non-empty name without commas gives a non-empty base without commas. */
  lemma BaseClean(t: string)
    requires t != [] && ',' !in t
    ensures ParseOperandType(t).0 != "" && ',' !in ParseOperandType(t).0
  {
    match LazySplit(t)
    case Some(b) => SlashLowerNoComma(t[..b]);
    case None => SlashLowerNoComma(t);
  }
}
