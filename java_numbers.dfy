// `java.lang.Long.parseLong(s, radix)` (Kotlin `String.toLong(radix)`) and its
// inverse `Long.toString(x, radix)`, on ASCII digits.
module JavaNumbers {
  import opened Wrappers
  import opened Longs

  /** `Character.digit(c, 36)` on ASCII: `0`-`9`, then letters of either case from 10; -1 otherwise. */
  function DigitValue(c: char): (d: int)
    ensures -1 <= d < 36
  {
    if '0' <= c <= '9' then c as int - '0' as int
    else if 'a' <= c <= 'z' then c as int - 'a' as int + 10
    else if 'A' <= c <= 'Z' then c as int - 'A' as int + 10
    else -1
  }

  predicate IsDigitIn(c: char, radix: nat)
  {
    0 <= DigitValue(c) < radix
  }

  function Power(b: nat, n: nat): (r: nat)
  {
    if n == 0 then 1 else b * Power(b, n - 1)
  }

  /** The value of an unsigned digit string, most significant digit first; None on a non-digit. */
  function DigitsValue(s: string, radix: nat): (r: Option<nat>)
    requires 2 <= radix
    decreases |s|
  {
    if s == [] then Some(0)
    else
      var init := DigitsValue(s[..|s| - 1], radix);
      if init.Some? && IsDigitIn(s[|s| - 1], radix) then
        Some(init.value * radix + DigitValue(s[|s| - 1]))
      else None
  }

  /** `k` digits hold a value below `radix^k`. */
  lemma {:induction false} DigitsValueBound(s: string, radix: nat)
    requires 2 <= radix && DigitsValue(s, radix).Some?
    ensures DigitsValue(s, radix).value < Power(radix, |s|)
    decreases |s|
  {
    if s != [] {
      var init := s[..|s| - 1];
      var d := DigitValue(s[|s| - 1]);
      assert DigitsValue(init, radix).Some? && 0 <= d < radix;
      var v := DigitsValue(init, radix).value;
      assert DigitsValue(s, radix).value == v * radix + d;
      DigitsValueBound(init, radix);
      var p := Power(radix, |init|);
      assert Power(radix, |s|) == radix * p;
      AppendDigitBound(v, d, radix, p);
    }
  }

  lemma AppendDigitBound(v: nat, d: nat, radix: nat, p: nat)
    requires v < p && d < radix
    ensures v * radix + d < radix * p
  {
    assert (v + 1) * radix <= p * radix;
  }

  /** A digit string has a value exactly when every character is a digit of the radix. */
  lemma {:induction false} DigitsValueDefined(s: string, radix: nat)
    requires 2 <= radix
    ensures DigitsValue(s, radix).Some? <==> forall i :: 0 <= i < |s| ==> IsDigitIn(s[i], radix)
    decreases |s|
  {
    if s != [] {
      DigitsValueDefined(s[..|s| - 1], radix);
      assert forall i :: 0 <= i < |s| - 1 ==> s[..|s| - 1][i] == s[i];
    }
  }

  /**
   * `Long.parseLong(s, radix)`: an optional `+` or `-`, at least one digit,
   * and a value inside the `Long` range; None where Java throws
   * `NumberFormatException`.
   */
  function ParseLong(s: string, radix: nat): (r: Option<Long>)
    requires 2 <= radix <= 36
    ensures r.Some? ==> s != [] && (s[0] == '+' || s[0] == '-' ==> |s| >= 2)
  {
    if s == [] then None
    else
      var signed := s[0] == '-' || s[0] == '+';
      var digits := if signed then s[1..] else s;
      if digits == [] then None
      else match DigitsValue(digits, radix)
        case None => None
        case Some(m) =>
          var v := if s[0] == '-' then -(m as int) else m;
          if -TWO_63 <= v < TWO_63 then Some(v) else None
  }

  /** The lower-case digit `Long.toString` writes for `d`. */
  function DigitChar(d: nat): (c: char)
    requires d < 36
    ensures DigitValue(c) == d
  {
    if d < 10 then ('0' as int + d) as char else ('a' as int + d - 10) as char
  }

  /** The digits of `n` in `radix`, most significant first, without leading zeros. */
  function ToDigits(n: nat, radix: nat): (s: string)
    requires 2 <= radix <= 36
    ensures |s| >= 1
    decreases n
  {
    if n < radix then [DigitChar(n)]
    else ToDigits(n / radix, radix) + [DigitChar(n % radix)]
  }

  predicate AllDigitsIn(s: string, radix: nat)
  {
    forall i :: 0 <= i < |s| ==> IsDigitIn(s[i], radix)
  }

  lemma AllDigitsAppend(s: string, c: char, radix: nat)
    requires AllDigitsIn(s, radix) && IsDigitIn(c, radix)
    ensures AllDigitsIn(s + [c], radix)
  {
    var t := s + [c];
    forall i | 0 <= i < |t|
      ensures IsDigitIn(t[i], radix)
    {
      if i < |s| {
        assert t[i] == s[i];
      }
    }
  }

  /** `Long.toString` writes only digits of the radix. */
  lemma {:induction false} ToDigitsAreDigits(n: nat, radix: nat)
    requires 2 <= radix <= 36
    ensures AllDigitsIn(ToDigits(n, radix), radix)
    decreases n
  {
    if n < radix {
      DigitCharIsDigit(n, radix);
    } else {
      var q, d := n / radix, n % radix;
      QuotientSmaller(n, radix);
      ToDigitsAreDigits(q, radix);
      DigitCharIsDigit(d, radix);
      AllDigitsAppend(ToDigits(q, radix), DigitChar(d), radix);
    }
  }

  /** Up to radix 10, `Long.toString` writes only `0`-`9`. */
  lemma ToDigitsAreDecimal(n: nat, radix: nat)
    requires 2 <= radix <= 10
    ensures forall i :: 0 <= i < |ToDigits(n, radix)| ==> '0' <= ToDigits(n, radix)[i] <= '9'
  {
    ToDigitsAreDigits(n, radix);
    forall i | 0 <= i < |ToDigits(n, radix)|
      ensures '0' <= ToDigits(n, radix)[i] <= '9'
    {
      assert IsDigitIn(ToDigits(n, radix)[i], radix);
    }
  }

  lemma DigitCharIsDigit(d: nat, radix: nat)
    requires d < radix <= 36
    ensures IsDigitIn(DigitChar(d), radix)
  {
  }

  lemma QuotientSmaller(n: nat, radix: nat)
    requires 2 <= radix && 1 <= n
    ensures n / radix < n
  {
    assert n / radix * radix <= n;
  }

  /** `Long.toString(x, radix)`. */
  function LongToString(x: Long, radix: nat): (s: string)
    requires 2 <= radix <= 36
  {
    if x < 0 then "-" + ToDigits(-(x as int), radix) else ToDigits(x, radix)
  }

  /** Reading back the digits `ToDigits` writes gives the number again. */
  lemma {:induction false} DigitsRoundTrip(n: nat, radix: nat)
    requires 2 <= radix <= 36
    ensures DigitsValue(ToDigits(n, radix), radix) == Some(n)
    decreases n
  {
    if n < radix {
      AppendDigit([], 0, n, radix);
      assert ToDigits(n, radix) == [] + [DigitChar(n)];
    } else {
      DigitsRoundTrip(n / radix, radix);
      DigitsRoundTripStep(n, radix);
    }
  }

  lemma DigitsRoundTripStep(n: nat, radix: nat)
    requires 2 <= radix <= 36 && n >= radix
    requires DigitsValue(ToDigits(n / radix, radix), radix) == Some(n / radix)
    ensures DigitsValue(ToDigits(n, radix), radix) == Some(n)
  {
    var q, d := n / radix, n % radix;
    AppendDigit(ToDigits(q, radix), q, d, radix);
    DivModSplit(n, radix);
  }

  lemma DivModSplit(n: nat, radix: nat)
    requires radix >= 1
    ensures (n / radix) * radix + n % radix == n
  {
  }

  /** Appending one digit multiplies the value by the radix and adds the digit. */
  lemma AppendDigit(s: string, v: nat, d: nat, radix: nat)
    requires 2 <= radix <= 36 && d < radix
    requires DigitsValue(s, radix) == Some(v)
    ensures DigitsValue(s + [DigitChar(d)], radix) == Some(v * radix + d)
  {
    var c := DigitChar(d);
    var t := s + [c];
    assert t[..|t| - 1] == s && t[|t| - 1] == c;
    DigitCharIsDigit(d, radix);
    assert DigitsValue(t, radix) == Some(v * radix + DigitValue(c));
  }

  /** `parseLong` inverts `Long.toString` on every `Long`, in every radix. */
  lemma ParseLongRoundTrip(x: Long, radix: nat)
    requires 2 <= radix <= 36
    ensures ParseLong(LongToString(x, radix), radix) == Some(x)
  {
    var s := LongToString(x, radix);
    if x < 0 {
      var m := -(x as int);
      DigitsRoundTrip(m, radix);
      assert s[0] == '-' && s[1..] == ToDigits(m, radix);
      assert DigitsValue(s[1..], radix) == Some(m);
    } else {
      DigitsRoundTrip(x, radix);
      ToDigitsAreDigits(x, radix);
      assert IsDigitIn(s[0], radix);
      assert s[0] != '-' && s[0] != '+';
      assert DigitsValue(s, radix) == Some(x);
    }
  }

  /** A digit string whose value leaves the `Long` range is rejected. */
  lemma ParseLongOverflow(n: nat, radix: nat)
    requires 2 <= radix <= 36 && n >= TWO_63
    ensures ParseLong(ToDigits(n, radix), radix) == None
  {
    DigitsRoundTrip(n, radix);
    ToDigitsAreDigits(n, radix);
    var s := ToDigits(n, radix);
    assert IsDigitIn(s[0], radix);
  }

  /** Any character that is not a digit of the radix, after the optional sign, makes parsing fail. */
  lemma ParseLongRejects(s: string, radix: nat, i: nat)
    requires 2 <= radix <= 36
    requires 0 < i < |s| || (i == 0 < |s| && s[0] != '+' && s[0] != '-')
    requires !IsDigitIn(s[i], radix)
    ensures ParseLong(s, radix) == None
  {
    if s[0] == '-' || s[0] == '+' {
      assert s[1..][i - 1] == s[i];
      DigitsValueDefined(s[1..], radix);
    } else {
      DigitsValueDefined(s, radix);
    }
  }
}
