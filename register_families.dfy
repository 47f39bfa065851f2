// The related-register list of the register documentation: which family a
// register name belongs to, as the general-purpose, r8-r15 and SIMD
// families are written out.
module RegisterFamilies {
  import opened Text

  const RaxFamily: seq<string> := ["rax", "eax", "ax", "al", "ah"]
  const RbxFamily: seq<string> := ["rbx", "ebx", "bx", "bl", "bh"]
  const RcxFamily: seq<string> := ["rcx", "ecx", "cx", "cl", "ch"]
  const RdxFamily: seq<string> := ["rdx", "edx", "dx", "dl", "dh"]
  const RsiFamily: seq<string> := ["rsi", "esi", "si", "sil"]
  const RdiFamily: seq<string> := ["rdi", "edi", "di", "dil"]
  const RspFamily: seq<string> := ["rsp", "esp", "sp", "spl"]
  const RbpFamily: seq<string> := ["rbp", "ebp", "bp", "bpl"]

  // ---------------------------------------------------------------- general-purpose registers

  /** `getGeneralRegisterFamily` as written: the letters a to d are checked before the two-letter pairs. */
  function GeneralFamilyAsWritten(name: string): (f: seq<string>)
    ensures f in {RaxFamily, RbxFamily, RcxFamily, RdxFamily, RsiFamily, RdiFamily, RspFamily, RbpFamily, []}
  {
    if 'a' in name then RaxFamily
    else if 'b' in name then RbxFamily
    else if 'c' in name then RcxFamily
    else if 'd' in name then RdxFamily
    else if 's' in name && 'i' in name then RsiFamily
    else if 'd' in name && 'i' in name then RdiFamily
    else if 's' in name && 'p' in name then RspFamily
    else if 'b' in name && 'p' in name then RbpFamily
    else []
  }

  /**
   * The registers the as-written test puts in the wrong family: `rdi`,
   * `edi`, `di` and `dil` contain a `d` and get the rdx family, and `rbp`,
   * `ebp`, `bp` and `bpl` contain a `b` and get the rbx family; the
   * `d`-and-`i` and `b`-and-`p` branches are never reached.
   */
  lemma GeneralFamilyAsWrittenMisfiles()
    ensures forall m :: m in RdiFamily ==> GeneralFamilyAsWritten(m) == RdxFamily
    ensures forall m :: m in RbpFamily ==> GeneralFamilyAsWritten(m) == RbxFamily
    ensures forall name :: !('d' in name && 'i' in name && GeneralFamilyAsWritten(name) == RdiFamily)
  {
    forall m | m in RdiFamily
      ensures GeneralFamilyAsWritten(m) == RdxFamily
    {
      assert 'a' !in m && 'b' !in m && 'c' !in m && 'd' in m;
    }
    forall m | m in RbpFamily
      ensures GeneralFamilyAsWritten(m) == RbxFamily
    {
      assert 'a' !in m && 'b' in m;
    }
  }

  /** The family a general-purpose register name belongs to: the two-letter pairs decide before the single letters. */
  function GeneralFamily(name: string): (f: seq<string>)
    ensures f in {RaxFamily, RbxFamily, RcxFamily, RdxFamily, RsiFamily, RdiFamily, RspFamily, RbpFamily, []}
  {
    if 's' in name && 'i' in name then RsiFamily
    else if 'd' in name && 'i' in name then RdiFamily
    else if 's' in name && 'p' in name then RspFamily
    else if 'b' in name && 'p' in name then RbpFamily
    else if 'a' in name then RaxFamily
    else if 'b' in name then RbxFamily
    else if 'c' in name then RcxFamily
    else if 'd' in name then RdxFamily
    else []
  }

  // ---------------------------------------------------------------- name shapes

  /** The name without one leading `r` or `e` (the `[re]?` of the patterns). */
  function StripSizePrefix(name: string): (c: string)
    ensures c == name || (|name| > 0 && c == name[1..])
  {
    if |name| > 0 && (name[0] == 'r' || name[0] == 'e') then name[1..] else name
  }

  /** `[re]?[abcd]x|[abcd][lh]`. */
  predicate AxShape(name: string)
  {
    var c := StripSizePrefix(name);
    (|c| == 2 && c[0] in "abcd" && c[1] == 'x') ||
    (|name| == 2 && name[0] in "abcd" && (name[1] == 'l' || name[1] == 'h'))
  }

  /** `[re]?[xy]<second>l?` for the letters x, y of `first` and the second letter. */
  predicate PairShape(name: string, first: string, second: char)
  {
    var c := StripSizePrefix(name);
    (|c| == 2 || (|c| == 3 && c[2] == 'l')) && c[0] in first && c[1] == second
  }

  /** `r(8|9|1[0-5])[dwb]?`. */
  predicate ExtendedShape(name: string)
  {
    |name| >= 2 && name[0] == 'r' &&
    var n := if |name| >= 3 && name[1] == '1' && '0' <= name[2] <= '5' then 2
             else if name[1] == '8' || name[1] == '9' then 1 else 0;
    n > 0 && (|name| == 1 + n || (|name| == 2 + n && name[1 + n] in "dwb"))
  }

  /** `[xyz]mm\d+`. */
  predicate SimdShape(name: string)
  {
    |name| >= 4 && name[0] in "xyz" && name[1] == 'm' && name[2] == 'm' &&
    forall k :: 3 <= k < |name| ==> IsAsciiDigit(name[k])
  }

  // ---------------------------------------------------------------- r8-r15 and SIMD

  /** An `r` followed by a digit at index k. */
  predicate RDigitAt(name: string, k: nat)
    requires k + 1 < |name|
  {
    name[k] == 'r' && IsAsciiDigit(name[k + 1])
  }

  /** One of x, y, z followed by `mm` and a digit at index k. */
  predicate SimdAt(name: string, k: nat)
    requires k + 3 < |name|
  {
    name[k] in "xyz" && name[k + 1] == 'm' && name[k + 2] == 'm' && IsAsciiDigit(name[k + 3])
  }

  /** The first index from i on where `r` is followed by a digit (`Regex("r(\d+)").find`). */
  function FindRDigits(name: string, i: nat): (r: nat)
    requires i <= |name|
    ensures i <= r <= |name|
    ensures r < |name| ==> r + 1 < |name| && RDigitAt(name, r)
    ensures forall k :: i <= k < r && k + 1 < |name| ==> !RDigitAt(name, k)
    decreases |name| - i
  {
    if i + 1 >= |name| then |name|
    else if RDigitAt(name, i) then i
    else FindRDigits(name, i + 1)
  }

  predicate IsDigits(s: string)
  {
    forall k :: 0 <= k < |s| ==> IsAsciiDigit(s[k])
  }

  /** A list rN, rNd, rNw, rNb for a non-empty run of digits N. */
  predicate IsExtendedList(f: seq<string>)
  {
    |f| == 4 && |f[0]| >= 2 && f[0][0] == 'r' && IsDigits(f[0][1..])
    && f[1] == f[0] + "d" && f[2] == f[0] + "w" && f[3] == f[0] + "b"
  }

  /** `getExtendedRegisterFamily`: rN, rNd, rNw, rNb for the first digits after an `r`. */
  function ExtendedFamily(name: string): (f: seq<string>)
    ensures f == [] <==> forall k :: 0 <= k && k + 1 < |name| ==> !RDigitAt(name, k)
    ensures f != [] ==> IsExtendedList(f)
  {
    var i := FindRDigits(name, 0);
    if i == |name| then []
    else
      var num := name[i + 1..i + 1 + DigitRun(name, i + 1)];
      ["r" + num, "r" + num + "d", "r" + num + "w", "r" + num + "b"]
  }

  /** The first index from i on where one of x, y, z is followed by `mm` and a digit. */
  function FindSimd(name: string, i: nat): (r: nat)
    requires i <= |name|
    ensures i <= r <= |name|
    ensures r < |name| ==> r + 3 < |name| && SimdAt(name, r)
    ensures forall k :: i <= k < r && k + 3 < |name| ==> !SimdAt(name, k)
    decreases |name| - i
  {
    if i + 3 >= |name| then |name|
    else if SimdAt(name, i) then i
    else FindSimd(name, i + 1)
  }

  /** A list zmmN, ymmN, xmmN for a non-empty run of digits N. */
  predicate IsSimdList(f: seq<string>)
  {
    |f| == 3 && |f[0]| >= 4 && f[0][..3] == "zmm" && IsDigits(f[0][3..])
    && f[1] == "ymm" + f[0][3..] && f[2] == "xmm" + f[0][3..]
  }

  /** `getSimdRegisterFamily`: zmmN, ymmN, xmmN. */
  function SimdFamily(name: string): (f: seq<string>)
    ensures f == [] <==> forall k :: 0 <= k && k + 3 < |name| ==> !SimdAt(name, k)
    ensures f != [] ==> IsSimdList(f)
  {
    var i := FindSimd(name, 0);
    if i == |name| then []
    else
      var num := name[i + 3..i + 3 + DigitRun(name, i + 3)];
      ["zmm" + num, "ymm" + num, "xmm" + num]
  }

  /**
   * The family the documentation lists for a lowercased register name, as
   * the code is written: the patterns tried in order, a general-purpose
   * shape handed to the as-written letter test; empty when none applies.
   * That test never yields the rdi or the rbp family.
   */
  function RegisterFamily(name: string): (f: seq<string>)
    ensures f in {RaxFamily, RbxFamily, RcxFamily, RdxFamily, RsiFamily, RspFamily, []}
            || IsExtendedList(f) || IsSimdList(f)
  {
    if GeneralShape(name) then GeneralFamilyAsWritten(name)
    else if ExtendedShape(name) then ExtendedFamily(name)
    else if SimdShape(name) then SimdFamily(name)
    else []
  }

  /** One of the four general-purpose patterns, in the order they are tried. */
  predicate GeneralShape(name: string)
  {
    AxShape(name) || PairShape(name, "bs", 'i') || PairShape(name, "bd", 'i') || PairShape(name, "sb", 'p')
  }

  /**
   * The family as evidently intended: the same patterns, a general-purpose
   * shape handed to the letter test that looks at the two-letter pairs first.
   */
  function RegisterFamilyCorrected(name: string): (f: seq<string>)
    ensures f in {RaxFamily, RbxFamily, RcxFamily, RdxFamily, RsiFamily, RdiFamily, RspFamily, RbpFamily, []}
            || IsExtendedList(f) || IsSimdList(f)
  {
    if GeneralShape(name) then GeneralFamily(name)
    else if ExtendedShape(name) then ExtendedFamily(name)
    else if SimdShape(name) then SimdFamily(name)
    else []
  }

  // ---------------------------------------------------------------- properties

  /** Every register of the rax family is listed with exactly that family. */
  lemma RaxFamilyClosed(m: string)
    requires m in RaxFamily
    ensures RegisterFamily(m) == RaxFamily
  {
    assert m == "rax" || m == "eax" || m == "ax" || m == "al" || m == "ah";
    assert AxShape(m);
    assert 'a' in m;
  }

  /** Every register of the rbx family is listed with exactly that family. */
  lemma RbxFamilyClosed(m: string)
    requires m in RbxFamily
    ensures RegisterFamily(m) == RbxFamily
  {
    assert m == "rbx" || m == "ebx" || m == "bx" || m == "bl" || m == "bh";
    assert AxShape(m);
    assert 'a' !in m && 'b' in m;
  }

  /** Every register of the rcx family is listed with exactly that family. */
  lemma RcxFamilyClosed(m: string)
    requires m in RcxFamily
    ensures RegisterFamily(m) == RcxFamily
  {
    assert m == "rcx" || m == "ecx" || m == "cx" || m == "cl" || m == "ch";
    assert AxShape(m);
    assert 'a' !in m && 'b' !in m && 'c' in m;
  }

  /** Every register of the rdx family is listed with exactly that family. */
  lemma RdxFamilyClosed(m: string)
    requires m in RdxFamily
    ensures RegisterFamily(m) == RdxFamily
  {
    assert m == "rdx" || m == "edx" || m == "dx" || m == "dl" || m == "dh";
    assert AxShape(m);
    assert 'a' !in m && 'b' !in m && 'c' !in m && 'd' in m;
  }

  /** Every register of the rsi family is listed with exactly that family. */
  lemma RsiFamilyClosed(m: string)
    requires m in RsiFamily
    ensures RegisterFamily(m) == RsiFamily
  {
    assert m == "rsi" || m == "esi" || m == "si" || m == "sil";
    assert PairShape(m, "bs", 'i');
    assert 'a' !in m && 'b' !in m && 'c' !in m && 'd' !in m && 's' in m && 'i' in m;
  }

  /** With the corrected letter test, every register of the rdi family is listed with exactly that family. */
  lemma RdiFamilyClosed(m: string)
    requires m in RdiFamily
    ensures RegisterFamilyCorrected(m) == RdiFamily
  {
    assert m == "rdi" || m == "edi" || m == "di" || m == "dil";
    assert PairShape(m, "bd", 'i');
    assert 's' !in m && 'd' in m && 'i' in m;
  }

  /** Every register of the rsp family is listed with exactly that family. */
  lemma RspFamilyClosed(m: string)
    requires m in RspFamily
    ensures RegisterFamily(m) == RspFamily
  {
    assert m == "rsp" || m == "esp" || m == "sp" || m == "spl";
    assert PairShape(m, "sb", 'p');
    assert 'a' !in m && 'b' !in m && 'c' !in m && 'd' !in m && 'i' !in m && 's' in m && 'p' in m;
  }

  /** With the corrected letter test, every register of the rbp family is listed with exactly that family. */
  lemma RbpFamilyClosed(m: string)
    requires m in RbpFamily
    ensures RegisterFamilyCorrected(m) == RbpFamily
  {
    assert m == "rbp" || m == "ebp" || m == "bp" || m == "bpl";
    assert PairShape(m, "sb", 'p');
    assert 'i' !in m && 's' !in m && 'b' in m && 'p' in m;
  }

  /**
   * As written, the documentation of `rdi`, `edi`, `di` and `dil` lists the
   * rdx family, and that of `rbp`, `ebp`, `bp` and `bpl` the rbx family.
   */
  lemma RegisterFamilyMisfiles(m: string)
    requires m in RdiFamily || m in RbpFamily
    ensures m in RdiFamily ==> RegisterFamily(m) == RdxFamily
    ensures m in RbpFamily ==> RegisterFamily(m) == RbxFamily
  {
    if m in RdiFamily {
      assert m == "rdi" || m == "edi" || m == "di" || m == "dil";
      assert PairShape(m, "bd", 'i');
    } else {
      assert m == "rbp" || m == "ebp" || m == "bp" || m == "bpl";
      assert PairShape(m, "sb", 'p');
    }
    GeneralFamilyAsWrittenMisfiles();
  }

  /**
   * The as-written and the corrected family differ only on names holding a
   * `d` and an `i` or a `b` and a `p`: on every other name they agree.
   */
  lemma RegisterFamilyAgrees(name: string)
    requires !('d' in name && 'i' in name) && !('b' in name && 'p' in name)
    ensures RegisterFamily(name) == RegisterFamilyCorrected(name)
  {
    if AxShape(name) {
      AxShapeAgrees(name);
    } else if GeneralShape(name) {
      PairShapeAgrees(name);
    }
  }

  /** A name of the `ax` patterns holds no `s`, `i` or `p`, so both letter tests agree on it. */
  lemma AxShapeAgrees(name: string)
    requires AxShape(name)
    ensures GeneralFamilyAsWritten(name) == GeneralFamily(name)
  {
    var c := StripSizePrefix(name);
    assert forall x :: x in name && x != 'r' && x != 'e' ==> x in c;
    assert 's' !in name && 'i' !in name && 'p' !in name;
  }

  /**
   * A name of the `si`, `di`, `sp` or `bp` patterns holds no `a` or `c`, and
   * an `s` only without a `b` or `d`, so both letter tests agree on it unless
   * it holds a `d` and an `i` or a `b` and a `p`.
   */
  lemma PairShapeAgrees(name: string)
    requires PairShape(name, "bs", 'i') || PairShape(name, "bd", 'i') || PairShape(name, "sb", 'p')
    requires !('d' in name && 'i' in name) && !('b' in name && 'p' in name)
    ensures GeneralFamilyAsWritten(name) == GeneralFamily(name)
  {
    var c := StripSizePrefix(name);
    assert forall x :: x in name && x != 'r' && x != 'e' ==> x in c;
    assert 'a' !in name && 'c' !in name;
    assert 's' in name ==> 'b' !in name && 'd' !in name;
  }

  /** The r8-r15 family of a name of that shape: its number with each size suffix. */
  lemma ExtendedFamilyOf(num: string, suffix: string)
    requires (|num| == 1 && num[0] in "89") || (|num| == 2 && num[0] == '1' && '0' <= num[1] <= '5')
    requires suffix == [] || (|suffix| == 1 && suffix[0] in "dwb")
    ensures RegisterFamily("r" + num + suffix) == ["r" + num, "r" + num + "d", "r" + num + "w", "r" + num + "b"]
  {
    var name := "r" + num + suffix;
    assert name[0] == 'r' && name[1..1 + |num|] == num;
    assert forall k :: 1 <= k < 1 + |num| ==> name[k] == num[k - 1];
    assert 1 + |num| < |name| ==> name[1 + |num|] == suffix[0];
    assert StripSizePrefix(name) == name[1..];
    assert !AxShape(name);
    assert !PairShape(name, "bs", 'i') && !PairShape(name, "bd", 'i') && !PairShape(name, "sb", 'p');
    assert ExtendedShape(name);
    assert FindRDigits(name, 0) == 0;
    DigitRunIs(name, 1, |num|);
  }

  /** The SIMD family of a name of that shape: the same number at each width, widest first. */
  lemma SimdFamilyOf(c: char, num: string)
    requires c in "xyz" && |num| > 0 && forall k :: 0 <= k < |num| ==> IsAsciiDigit(num[k])
    ensures RegisterFamily([c] + "mm" + num) == ["zmm" + num, "ymm" + num, "xmm" + num]
  {
    var name := [c] + "mm" + num;
    assert name[0] == c && name[1] == 'm' && name[2] == 'm' && name[3..] == num;
    assert forall k :: 3 <= k < |name| ==> name[k] == num[k - 3];
    assert StripSizePrefix(name) == name;
    assert !AxShape(name) && !ExtendedShape(name);
    assert !PairShape(name, "bs", 'i') && !PairShape(name, "bd", 'i') && !PairShape(name, "sb", 'p');
    assert SimdShape(name);
    assert FindSimd(name, 0) == 0;
    DigitRunIs(name, 3, |num|);
    assert name[3..3 + |num|] == num;
  }
}
