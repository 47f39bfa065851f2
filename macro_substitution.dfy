// Textual expansion of a function-like `%define` macro: the arguments of a
// call are substituted for the parameters in the macro body, as text, before
// the body is parsed again and evaluated.
module MacroSubstitution {
  import opened Wrappers
  import opened Seqs
  import opened Text
  import opened LinkedMaps

  /** A parameter name that the regex `\bname\b` reads literally: one or more word characters. */
  predicate IsWord(s: string)
  {
    |s| >= 1 && forall i :: 0 <= i < |s| ==> IsWordChar(s[i])
  }

  predicate AllWords(names: seq<string>)
  {
    forall i :: 0 <= i < |names| ==> IsWord(names[i])
  }

  /** `\b` in front of a word character at `i`: nothing or a non-word character before it. */
  predicate BoundaryBefore(text: string, i: nat)
    requires i <= |text|
  {
    i == 0 || !IsWordChar(text[i - 1])
  }

  /** `\b` behind a word character ending at `j`. */
  predicate BoundaryAfter(text: string, j: nat)
    requires j <= |text|
  {
    j == |text| || !IsWordChar(text[j])
  }

  /** The regex `\bname\b` matches `text` at `i`. */
  predicate MatchAt(text: string, name: string, i: nat)
  {
    i + |name| <= |text| && text[i..i + |name|] == name
    && BoundaryBefore(text, i) && BoundaryAfter(text, i + |name|)
  }

  /** The regex finds a match at `i` or later. */
  function HasMatchFrom(text: string, name: string, i: nat): (b: bool)
    requires i <= |text|
    decreases |text| - i
  {
    i < |text| && (MatchAt(text, name, i) || HasMatchFrom(text, name, i + 1))
  }

  lemma {:induction false} HasMatchFromSpec(text: string, name: string, i: nat)
    requires i <= |text|
    ensures HasMatchFrom(text, name, i) <==> exists k :: i <= k < |text| && MatchAt(text, name, k)
    decreases |text| - i
  {
    if i < |text| {
      HasMatchFromSpec(text, name, i + 1);
    }
  }

  // ---------------------------------------------------------------- replacement strings

  function Prepend(prefix: string, rest: Option<string>): (r: Option<string>)
    ensures r.Some? <==> rest.Some?
    ensures r.Some? ==> r.value == prefix + rest.value
  {
    match rest
    case None => None
    case Some(s) => Some(prefix + s)
  }

  /** The zeros `$0` swallows: a group number keeps growing while it names an existing group. */
  function DropZeros(s: string): (r: string)
    ensures |r| <= |s|
    ensures r == [] || r[0] != '0'
  {
    if s != [] && s[0] == '0' then DropZeros(s[1..]) else s
  }

  /**
   * `Matcher.replaceAll`'s reading of a replacement string for a pattern
   * without groups: `\c` stands for `c`, `$0` (and `$00`, ...) for the
   * matched text, and every other use of `$` or a trailing `\` throws;
   * None where it throws.
   */
  function Expand(replacement: string, matched: string): (r: Option<string>)
    decreases |replacement|
  {
    if replacement == [] then Some([])
    else if replacement[0] == '\\' then
      if |replacement| == 1 then None
      else Prepend([replacement[1]], Expand(replacement[2..], matched))
    else if replacement[0] == '$' then
      if |replacement| >= 2 && replacement[1] == '0' then
        Prepend(matched, Expand(DropZeros(replacement[2..]), matched))
      else None
    else Prepend([replacement[0]], Expand(replacement[1..], matched))
  }

  predicate IsLiteral(s: string)
  {
    forall i :: 0 <= i < |s| ==> s[i] != '$' && s[i] != '\\'
  }

  /** A replacement without `$` and `\` stands for itself. */
  lemma {:induction false} ExpandLiteral(s: string, matched: string)
    requires IsLiteral(s)
    ensures Expand(s, matched) == Some(s)
    decreases |s|
  {
    if s != [] {
      assert IsLiteral(s[1..]) by {
        forall i | 0 <= i < |s[1..]|
          ensures s[1..][i] != '$' && s[1..][i] != '\\'
        {
          assert s[1..][i] == s[i + 1];
        }
      }
      ExpandLiteral(s[1..], matched);
      assert [s[0]] + s[1..] == s;
    }
  }

  /** `Matcher.quoteReplacement` (`Regex.escapeReplacement`): a backslash in front of each `\` and `$`. */
  function Quote(s: string): (r: string)
    ensures |r| >= |s|
  {
    if s == [] then []
    else if s[0] == '\\' || s[0] == '$' then ['\\', s[0]] + Quote(s[1..])
    else [s[0]] + Quote(s[1..])
  }

  /** An escaped replacement stands for the original text, whatever it holds. */
  lemma {:induction false} ExpandQuote(s: string, matched: string)
    ensures Expand(Quote(s), matched) == Some(s)
    decreases |s|
  {
    if s != [] {
      ExpandQuote(s[1..], matched);
      var q := Quote(s);
      if s[0] == '\\' || s[0] == '$' {
        assert q[0] == '\\' && q[1] == s[0] && q[2..] == Quote(s[1..]);
      } else {
        assert q[0] == s[0] && q[1..] == Quote(s[1..]);
      }
      assert [s[0]] + s[1..] == s;
    }
  }

  // ---------------------------------------------------------------- one parameter

  /** `text` from `i` on, with each match of `\bname\b`, leftmost first, replaced by `rep`. */
  function ReplaceFrom(text: string, name: string, rep: string, i: nat): (r: string)
    requires IsWord(name) && i <= |text|
    decreases |text| - i
  {
    if i == |text| then []
    else if MatchAt(text, name, i) then rep + ReplaceFrom(text, name, rep, i + |name|)
    else [text[i]] + ReplaceFrom(text, name, rep, i + 1)
  }

  /**
   * `text.replace("\\bname\\b".toRegex(), value)`: the text itself when
   * nothing matches (the replacement is then never read); otherwise
   * every match replaced by the expanded replacement, or None where
   * the replacement string throws.
   */
  function ReplaceWord(text: string, name: string, value: string): (r: Option<string>)
    requires IsWord(name)
  {
    if !HasMatchFrom(text, name, 0) then Some(text)
    else match Expand(value, name)
      case None => None
      case Some(rep) => Some(ReplaceFrom(text, name, rep, 0))
  }

  lemma {:induction false} ReplaceFromNoMatch(text: string, name: string, rep: string, i: nat)
    requires IsWord(name) && i <= |text|
    requires !HasMatchFrom(text, name, i)
    ensures ReplaceFrom(text, name, rep, i) == text[i..]
    decreases |text| - i
  {
    if i < |text| {
      ReplaceFromNoMatch(text, name, rep, i + 1);
      assert [text[i]] + text[i + 1..] == text[i..];
    }
  }

  /** A text without a whole-word occurrence of the name comes back unchanged, whatever the value. */
  lemma ReplaceWordNoMatch(text: string, name: string, value: string)
    requires IsWord(name)
    requires forall k :: 0 <= k < |text| ==> !MatchAt(text, name, k)
    ensures ReplaceWord(text, name, value) == Some(text)
  {
    HasMatchFromSpec(text, name, 0);
  }

  // ---------------------------------------------------------------- sorting the parameters

  predicate LongestFirst(s: seq<string>)
  {
    forall i, j :: 0 <= i < j < |s| ==> |s[i]| >= |s[j]|
  }

  /** One step of a stable sort by descending length: `x` goes behind every element at least as long. */
  function InsertByLength(x: string, s: seq<string>): (r: seq<string>)
    decreases |s|
  {
    if s == [] then [x]
    else if |s[0]| >= |x| then [s[0]] + InsertByLength(x, s[1..])
    else [x] + s
  }

  /** `keys.sortedByDescending { it.length }`, a stable sort. */
  function SortByLengthDescending(s: seq<string>): (r: seq<string>)
    decreases |s|
  {
    if s == [] then []
    else InsertByLength(s[|s| - 1], SortByLengthDescending(s[..|s| - 1]))
  }

  lemma {:induction false} InsertPermutes(x: string, s: seq<string>)
    ensures multiset(InsertByLength(x, s)) == multiset(s) + multiset{x}
    decreases |s|
  {
    if s != [] && |s[0]| >= |x| {
      InsertPermutes(x, s[1..]);
      assert s == [s[0]] + s[1..];
    }
  }

  /** The sorted keys are the keys, each as often as before. */
  lemma {:induction false} SortPermutes(s: seq<string>)
    ensures multiset(SortByLengthDescending(s)) == multiset(s)
    decreases |s|
  {
    if s != [] {
      SortPermutes(s[..|s| - 1]);
      InsertPermutes(s[|s| - 1], SortByLengthDescending(s[..|s| - 1]));
      assert s == s[..|s| - 1] + [s[|s| - 1]];
    }
  }

  predicate AllAtMost(s: seq<string>, n: nat)
  {
    forall k :: 0 <= k < |s| ==> |s[k]| <= n
  }

  lemma {:induction false} InsertAtMost(x: string, s: seq<string>, n: nat)
    requires AllAtMost(s, n) && |x| <= n
    ensures AllAtMost(InsertByLength(x, s), n)
    decreases |s|
  {
    if s != [] && |s[0]| >= |x| {
      InsertAtMost(x, s[1..], n);
      var r := InsertByLength(x, s[1..]);
      assert InsertByLength(x, s) == [s[0]] + r;
      assert forall k :: 1 <= k < |r| + 1 ==> ([s[0]] + r)[k] == r[k - 1];
    }
  }

  lemma LongestFirstCons(h: string, rest: seq<string>)
    requires LongestFirst(rest) && AllAtMost(rest, |h|)
    ensures LongestFirst([h] + rest)
  {
    var t := [h] + rest;
    forall i, j | 0 <= i < j < |t|
      ensures |t[i]| >= |t[j]|
    {
      assert t[j] == rest[j - 1];
      if i > 0 {
        assert t[i] == rest[i - 1];
      }
    }
  }

  lemma SortedAtMost(s: seq<string>)
    requires LongestFirst(s) && s != []
    ensures LongestFirst(s[1..]) && AllAtMost(s[1..], |s[0]|)
  {
    assert forall k :: 0 <= k < |s[1..]| ==> s[1..][k] == s[k + 1];
  }

  lemma {:induction false} InsertLongestFirst(x: string, s: seq<string>)
    requires LongestFirst(s)
    ensures LongestFirst(InsertByLength(x, s))
    decreases |s|
  {
    if s == [] {
    } else if |s[0]| >= |x| {
      SortedAtMost(s);
      InsertLongestFirst(x, s[1..]);
      InsertAtMost(x, s[1..], |s[0]|);
      LongestFirstCons(s[0], InsertByLength(x, s[1..]));
    } else {
      assert s == [s[0]] + s[1..];
      SortedAtMost(s);
      assert AllAtMost(s, |x|) by {
        assert forall k :: 1 <= k < |s| ==> s[k] == s[1..][k - 1];
      }
      LongestFirstCons(x, s);
    }
  }

  /** The sorted keys come longest first. */
  lemma {:induction false} SortLongestFirst(s: seq<string>)
    ensures LongestFirst(SortByLengthDescending(s))
    decreases |s|
  {
    if s != [] {
      SortLongestFirst(s[..|s| - 1]);
      InsertLongestFirst(s[|s| - 1], SortByLengthDescending(s[..|s| - 1]));
    }
  }

  /** The elements of length `n`, in order. */
  function OfLength(s: seq<string>, n: nat): (r: seq<string>)
  {
    if s == [] then []
    else (if |s[0]| == n then [s[0]] else []) + OfLength(s[1..], n)
  }

  lemma {:induction false} OfLengthAppend(a: seq<string>, b: seq<string>, n: nat)
    ensures OfLength(a + b, n) == OfLength(a, n) + OfLength(b, n)
    decreases |a|
  {
    if a == [] {
      assert a + b == b;
    } else {
      assert (a + b)[0] == a[0] && (a + b)[1..] == a[1..] + b;
      OfLengthAppend(a[1..], b, n);
    }
  }

  lemma {:induction false} OfLengthNone(s: seq<string>, n: nat)
    requires forall k :: 0 <= k < |s| ==> |s[k]| < n
    ensures OfLength(s, n) == []
    decreases |s|
  {
    if s != [] {
      OfLengthNone(s[1..], n);
    }
  }

  lemma {:induction false} InsertOfLength(x: string, s: seq<string>, n: nat)
    requires LongestFirst(s)
    ensures OfLength(InsertByLength(x, s), n) == OfLength(s, n) + (if |x| == n then [x] else [])
    decreases |s|, 1
  {
    if s == [] {
      assert OfLength([x], n) == (if |x| == n then [x] else []) + OfLength([], n);
    } else if |s[0]| >= |x| {
      InsertBehind(x, s, n);
    } else {
      InsertInFront(x, s, n);
    }
  }

  /** `x` goes behind the longer-or-equal head of `s`. */
  lemma {:induction false} InsertBehind(x: string, s: seq<string>, n: nat)
    requires LongestFirst(s) && s != [] && |s[0]| >= |x|
    ensures OfLength(InsertByLength(x, s), n) == OfLength(s, n) + (if |x| == n then [x] else [])
    decreases |s|, 0
  {
    SortedAtMost(s);
    InsertOfLength(x, s[1..], n);
    var rest := InsertByLength(x, s[1..]);
    var t := [s[0]] + rest;
    assert InsertByLength(x, s) == t;
    assert t[0] == s[0] && t[1..] == rest;
    var h := if |s[0]| == n then [s[0]] else [];
    var xs := if |x| == n then [x] else [];
    assert OfLength(t, n) == h + OfLength(rest, n);
    assert OfLength(s, n) == h + OfLength(s[1..], n);
    assert h + (OfLength(s[1..], n) + xs) == (h + OfLength(s[1..], n)) + xs;
  }

  /** `x` is longer than every element of `s`, so it goes in front. */
  lemma InsertInFront(x: string, s: seq<string>, n: nat)
    requires LongestFirst(s) && s != [] && |s[0]| < |x|
    ensures OfLength(InsertByLength(x, s), n) == OfLength(s, n) + (if |x| == n then [x] else [])
  {
    var t := [x] + s;
    assert InsertByLength(x, s) == t;
    assert t[0] == x && t[1..] == s;
    if |x| == n {
      SortedAtMost(s);
      ShorterNone(s[1..], |s[0]|, n);
      assert OfLength(s, n) == [] + OfLength(s[1..], n);
    }
  }

  lemma ShorterNone(s: seq<string>, m: nat, n: nat)
    requires AllAtMost(s, m) && m < n
    ensures OfLength(s, n) == []
  {
    OfLengthNone(s, n);
  }

  /** The sort is stable: names of the same length keep their relative order. */
  lemma {:induction false} SortStable(s: seq<string>, n: nat)
    ensures OfLength(SortByLengthDescending(s), n) == OfLength(s, n)
    decreases |s|
  {
    if s != [] {
      var init, last := s[..|s| - 1], s[|s| - 1];
      SortStable(init, n);
      SortLongestFirst(init);
      InsertOfLength(last, SortByLengthDescending(init), n);
      assert s == init + [last];
      OfLengthAppend(init, [last], n);
    }
  }

  lemma AllWordsSorted(names: seq<string>)
    requires AllWords(names)
    ensures AllWords(SortByLengthDescending(names))
  {
    var sorted := SortByLengthDescending(names);
    SortPermutes(names);
    forall i | 0 <= i < |sorted|
      ensures IsWord(sorted[i])
    {
      assert sorted[i] in multiset(names);
    }
  }

  // ---------------------------------------------------------------- all parameters, one after the other

  /**
   * The parameters replaced in turn, each in the text the previous ones
   * left; a name without a value is skipped; None once a replacement
   * string throws.
   */
  function SubstituteAll(text: string, names: seq<string>, values: map<string, string>): (r: Option<string>)
    requires AllWords(names)
    decreases |names|
  {
    if names == [] then Some(text)
    else if names[0] !in values then SubstituteAll(text, names[1..], values)
    else match ReplaceWord(text, names[0], values[names[0]])
      case None => None
      case Some(t) => SubstituteAll(t, names[1..], values)
  }

  /**
   * `substituteParameters(text, paramMap)`, with the `LinkedHashMap` as
   * its entries in insertion order: the keys sorted longest first, then
   * each replaced as a whole word by its value.
   */
  method SubstituteParameters(text: string, paramMap: seq<(string, string)>) returns (r: Option<string>)
    requires AllWords(Keys(paramMap))
    ensures AllWords(SortByLengthDescending(Keys(paramMap)))
    ensures r == SubstituteAll(text, SortByLengthDescending(Keys(paramMap)), MapOf(paramMap))
  {
    var values := MapOf(paramMap);
    var sortedParams := SortByLengthDescending(Keys(paramMap));
    AllWordsSorted(Keys(paramMap));
    var result := text;
    var i := 0;
    while i < |sortedParams|
      invariant 0 <= i <= |sortedParams|
      invariant SubstituteAll(text, sortedParams, values) == SubstituteAll(result, sortedParams[i..], values)
    {
      var paramName := sortedParams[i];
      assert sortedParams[i..][1..] == sortedParams[i + 1..];
      if paramName !in values {
        i := i + 1;
        continue;
      }
      var replaced := ReplaceWord(result, paramName, values[paramName]);
      if replaced.None? {
        return None;
      }
      result := replaced.value;
      i := i + 1;
    }
    return Some(result);
  }

  // ---------------------------------------------------------------- the parameter map

  function Zip(a: seq<string>, b: seq<string>): (r: seq<(string, string)>)
    ensures |r| == if |a| <= |b| then |a| else |b|
    ensures forall i :: 0 <= i < |r| ==> r[i] == (a[i], b[i])
  {
    if a == [] || b == [] then [] else [(a[0], b[0])] + Zip(a[1..], b[1..])
  }

  function TrimAll(args: seq<string>): (r: seq<string>)
    ensures |r| == |args|
    ensures forall i :: 0 <= i < |args| ==> r[i] == Trim(args[i])
  {
    if args == [] then [] else [Trim(args[0])] + TrimAll(args[1..])
  }

  /** `params.zip(args).associate { (p, a) -> p to a.text.trim() }`, as a `LinkedHashMap`. */
  function ParamMap(params: seq<string>, args: seq<string>): (r: seq<(string, string)>)
  {
    PutAll([], Zip(params, TrimAll(args)))
  }

  /** Each parameter once, in its first position; a repeated parameter takes its last argument. */
  lemma ParamMapContents(params: seq<string>, args: seq<string>)
    requires |params| == |args|
    ensures Keys(ParamMap(params, args)) == Distinct(params)
    ensures MapOf(ParamMap(params, args)) == MapOf(Zip(params, TrimAll(args)))
  {
    var pairs := Zip(params, TrimAll(args));
    PutAllFreshKeys(pairs);
    PutAllFreshMap(pairs);
    ZipKeys(params, TrimAll(args));
  }

  lemma ZipKeys(a: seq<string>, b: seq<string>)
    requires |a| == |b|
    ensures Keys(Zip(a, b)) == a
  {
    KeysIndex(Zip(a, b));
  }

  // ---------------------------------------------------------------- substituting simultaneously

  /** The end of the run of word characters that starts at `i`. */
  function WordEnd(text: string, i: nat): (j: nat)
    requires i <= |text|
    ensures i <= j <= |text|
    ensures forall k :: i <= k < j ==> IsWordChar(text[k])
    ensures BoundaryAfter(text, j)
    decreases |text| - i
  {
    if i < |text| && IsWordChar(text[i]) then WordEnd(text, i + 1) else i
  }

  lemma {:induction false} WordEndAt(text: string, i: nat, j: nat)
    requires i <= j <= |text|
    requires forall k :: i <= k < j ==> IsWordChar(text[k])
    requires BoundaryAfter(text, j)
    ensures WordEnd(text, i) == j
    decreases j - i
  {
    if i < j {
      WordEndAt(text, i + 1, j);
    }
  }

  /** `\bname\b` matches exactly where the whole word starting there is the name. */
  lemma MatchAtWord(text: string, name: string, i: nat)
    requires IsWord(name) && i <= |text|
    ensures MatchAt(text, name, i) <==> BoundaryBefore(text, i) && text[i..WordEnd(text, i)] == name
  {
    if MatchAt(text, name, i) {
      forall k | i <= k < i + |name|
        ensures IsWordChar(text[k])
      {
        assert text[k] == text[i..i + |name|][k - i];
      }
      WordEndAt(text, i, i + |name|);
    }
  }

  /** `text` from `i` on, with every whole word that is a parameter replaced by its value, read literally. */
  function SubstituteFrom(text: string, values: map<string, string>, i: nat): (r: string)
    requires i <= |text|
    decreases |text| - i
  {
    if i == |text| then []
    else
      var j := WordEnd(text, i);
      if BoundaryBefore(text, i) && i < j && text[i..j] in values then
        values[text[i..j]] + SubstituteFrom(text, values, j)
      else [text[i]] + SubstituteFrom(text, values, i + 1)
  }

  /** Substituting all parameters at once: values are inserted literally and never substituted again. */
  function Substitute(text: string, values: map<string, string>): (r: string)
  {
    SubstituteFrom(text, values, 0)
  }

  /**
   * For one parameter, replacing with a replacement string that expands to
   * `v` is substituting `v`: the two definitions differ only through the
   * replacement syntax and through the order of several parameters.
   */
  lemma {:induction false} ReplaceFromIsSubstitute(text: string, name: string, v: string, i: nat)
    requires IsWord(name) && i <= |text|
    ensures ReplaceFrom(text, name, v, i) == SubstituteFrom(text, map[name := v], i)
    decreases |text| - i
  {
    if i < |text| {
      SubstituteOneStep(text, name, v, i);
      if MatchAt(text, name, i) {
        ReplaceFromIsSubstitute(text, name, v, i + |name|);
      } else {
        ReplaceFromIsSubstitute(text, name, v, i + 1);
      }
    }
  }

  /** One step of substituting a single parameter: its match, or one copied character. */
  lemma SubstituteOneStep(text: string, name: string, v: string, i: nat)
    requires IsWord(name) && i < |text|
    ensures MatchAt(text, name, i) ==>
      (i + |name| <= |text| && SubstituteFrom(text, map[name := v], i) == v + SubstituteFrom(text, map[name := v], i + |name|))
    ensures !MatchAt(text, name, i) ==>
      SubstituteFrom(text, map[name := v], i) == [text[i]] + SubstituteFrom(text, map[name := v], i + 1)
  {
    MatchAtWord(text, name, i);
    var j := WordEnd(text, i);
    if MatchAt(text, name, i) {
      assert j == i + |name|;
    } else {
      assert !(BoundaryBefore(text, i) && i < j && text[i..j] in map[name := v]);
    }
  }

  lemma ReplaceWordIsSubstitute(text: string, name: string, rep: string, v: string)
    requires IsWord(name) && Expand(rep, name) == Some(v)
    ensures ReplaceWord(text, name, rep) == Some(Substitute(text, map[name := v]))
  {
    ReplaceFromIsSubstitute(text, name, v, 0);
    if !HasMatchFrom(text, name, 0) {
      ReplaceFromNoMatch(text, name, v, 0);
    }
  }

  /** A literal argument for a single parameter: the as-written replacement equals the simultaneous one. */
  lemma LiteralSingleParameter(text: string, name: string, v: string)
    requires IsWord(name) && IsLiteral(v)
    ensures ReplaceWord(text, name, v) == Some(Substitute(text, map[name := v]))
  {
    ExpandLiteral(v, name);
    ReplaceWordIsSubstitute(text, name, v, v);
  }

  /** Escaping the argument first makes any argument, `$` and `\` included, substitute literally. */
  lemma QuotedSingleParameter(text: string, name: string, v: string)
    requires IsWord(name)
    ensures ReplaceWord(text, name, Quote(v)) == Some(Substitute(text, map[name := v]))
  {
    ExpandQuote(v, name);
    ReplaceWordIsSubstitute(text, name, Quote(v), v);
  }

  /** A text in which no whole word is a parameter is unchanged. */
  lemma {:induction false} SubstituteFromNoParameter(text: string, values: map<string, string>, i: nat)
    requires i <= |text|
    requires forall k :: i <= k < |text| && BoundaryBefore(text, k) && k < WordEnd(text, k) ==> text[k..WordEnd(text, k)] !in values
    ensures SubstituteFrom(text, values, i) == text[i..]
    decreases |text| - i
  {
    if i < |text| {
      SubstituteFromNoParameter(text, values, i + 1);
      assert [text[i]] + text[i + 1..] == text[i..];
    }
  }

  /** The first characters of the parameter names. */
  function Initials(values: map<string, string>): (r: set<char>)
    ensures forall p :: p in values && p != [] ==> p[0] in r
  {
    set p | p in values && p != [] :: p[0]
  }

  /** A text in which no character starts a parameter name is unchanged. */
  lemma SubstituteFromNoInitial(text: string, values: map<string, string>, i: nat)
    requires i <= |text|
    requires forall k :: i <= k < |text| ==> text[k] !in Initials(values)
    ensures SubstituteFrom(text, values, i) == text[i..]
  {
    forall k | i <= k < |text| && BoundaryBefore(text, k) && k < WordEnd(text, k)
      ensures text[k..WordEnd(text, k)] !in values
    {
      var w := text[k..WordEnd(text, k)];
      assert w != [] && w[0] == text[k];
    }
    SubstituteFromNoParameter(text, values, i);
  }

  /** A parameter name has no whitespace to trim. */
  lemma TrimWord(p: string)
    requires IsWord(p)
    ensures Trim(p) == p
  {
    assert LeadingWhitespace(p) == 0;
    assert p[0..] == p;
    assert TrailingWhitespace(p) == 0;
    assert p[0..|p|] == p;
  }

  // ---------------------------------------------------------------- all parameters in turn: what they keep and what they change

  /** Parameters without a value, or without a whole-word occurrence in the text, pass it on as it is. */
  lemma {:induction false} SubstituteAllSkip(text: string, names: seq<string>, values: map<string, string>, i: nat)
    requires AllWords(names) && i <= |names|
    requires forall j, k :: 0 <= j < i && names[j] in values && 0 <= k < |text| ==> !MatchAt(text, names[j], k)
    ensures SubstituteAll(text, names, values) == SubstituteAll(text, names[i..], values)
    decreases i
  {
    if i > 0 {
      if names[0] in values {
        ReplaceWordNoMatch(text, names[0], values[names[0]]);
      }
      SubstituteAllSkip(text, names[1..], values, i - 1);
      assert names[1..][i - 1..] == names[i..];
    }
  }

  /** A text in which no parameter with a value occurs as a whole word comes back unchanged. */
  lemma SubstituteAllUnchanged(text: string, names: seq<string>, values: map<string, string>)
    requires AllWords(names)
    requires forall n, k :: n in names && n in values && 0 <= k < |text| ==> !MatchAt(text, n, k)
    ensures SubstituteAll(text, names, values) == Some(text)
  {
    SubstituteAllSkip(text, names, values, |names|);
  }

  /** A text in which no character starts a parameter name comes back unchanged. */
  lemma SubstituteAllNoInitial(text: string, names: seq<string>, values: map<string, string>)
    requires AllWords(names)
    requires forall k :: 0 <= k < |text| ==> text[k] !in Initials(values)
    ensures SubstituteAll(text, names, values) == Some(text)
  {
    forall n, k | n in names && n in values && 0 <= k < |text|
      ensures !MatchAt(text, n, k)
    {
      if k + |n| <= |text| {
        assert text[k..k + |n|][0] == text[k];
      }
    }
    SubstituteAllUnchanged(text, names, values);
  }

  /** Replacement strings without `$` and `\` never throw, so the replacements then always succeed. */
  lemma {:induction false} SubstituteAllLiteral(text: string, names: seq<string>, values: map<string, string>)
    requires AllWords(names)
    ensures (forall p :: p in names && p in values ==> IsLiteral(values[p])) ==> SubstituteAll(text, names, values).Some?
    decreases |names|
  {
    if names != [] && forall p :: p in names && p in values ==> IsLiteral(values[p]) {
      var n := names[0];
      if n in values {
        ExpandLiteral(values[n], n);
        SubstituteAllLiteral(ReplaceWord(text, n, values[n]).value, names[1..], values);
      } else {
        SubstituteAllLiteral(text, names[1..], values);
      }
    }
  }

  /**
   * A text that is just a parameter: the longer parameters before it cannot
   * match, it becomes its expanded argument, and the parameters after it are
   * then replaced inside that argument.
   */
  lemma SubstituteParameterAlone(p: string, names: seq<string>, values: map<string, string>, i: nat)
    requires AllWords(names) && LongestFirst(names)
    requires i < |names| && names[i] == p && p !in names[..i] && p in values
    ensures SubstituteAll(p, names, values) == match Expand(values[p], p)
      case None => None
      case Some(v) => SubstituteAll(v, names[i + 1..], values)
  {
    LongerNamesSkip(p, names, values, i);
    ReplaceWholeText(p, values[p]);
    assert names[i..][0] == p && names[i..][1..] == names[i + 1..];
  }

  /** Names at least as long as `p` and different from it cannot match in the text `p`. */
  lemma LongerNamesSkip(p: string, names: seq<string>, values: map<string, string>, i: nat)
    requires AllWords(names) && LongestFirst(names)
    requires i < |names| && names[i] == p && p !in names[..i]
    ensures SubstituteAll(p, names, values) == SubstituteAll(p, names[i..], values)
  {
    forall j, k | 0 <= j < i && names[j] in values && 0 <= k < |p|
      ensures !MatchAt(p, names[j], k)
    {
      assert names[..i][j] == names[j];
      assert |names[j]| >= |p|;
      assert p[0..|p|] == p;
    }
    SubstituteAllSkip(p, names, values, i);
  }

  /** Replacing a name in a text that is just that name gives the expanded replacement. */
  lemma ReplaceWholeText(p: string, value: string)
    requires IsWord(p)
    ensures ReplaceWord(p, p, value) == match Expand(value, p)
      case None => None
      case Some(v) => Some(v)
  {
    assert MatchAt(p, p, 0) by {
      assert p[0..|p|] == p;
    }
    assert HasMatchFrom(p, p, 0);
    match Expand(value, p)
    case None =>
    case Some(rep) =>
      assert ReplaceFrom(p, p, rep, |p|) == [];
      assert rep + [] == rep;
  }

  // ---------------------------------------------------------------- the sorted keys have no repeats

  lemma SortMembers(s: seq<string>)
    ensures forall x :: x in SortByLengthDescending(s) <==> x in s
  {
    SortPermutes(s);
    assert forall x :: x in SortByLengthDescending(s) <==> x in multiset(SortByLengthDescending(s));
  }

  lemma NoDuplicatesCons(h: string, r: seq<string>)
    requires NoDuplicates(r) && h !in r
    ensures NoDuplicates([h] + r)
  {
    var t := [h] + r;
    forall i, j | 0 <= i < j < |t|
      ensures t[i] != t[j]
    {
      assert t[j] == r[j - 1];
      if i > 0 {
        assert t[i] == r[i - 1];
      }
    }
  }

  lemma {:induction false} InsertNoDuplicates(x: string, s: seq<string>)
    requires NoDuplicates(s) && x !in s
    ensures NoDuplicates(InsertByLength(x, s))
    decreases |s|
  {
    if s == [] {
    } else if |s[0]| >= |x| {
      var tail := s[1..];
      assert NoDuplicates(tail) by {
        forall i, j | 0 <= i < j < |tail|
          ensures tail[i] != tail[j]
        {
          assert tail[i] == s[i + 1] && tail[j] == s[j + 1];
        }
      }
      assert s[0] !in tail by {
        forall j | 0 <= j < |tail|
          ensures tail[j] != s[0]
        {
          assert tail[j] == s[j + 1];
        }
      }
      InsertNoDuplicates(x, tail);
      InsertPermutes(x, tail);
      assert s[0] !in multiset(InsertByLength(x, tail));
      NoDuplicatesCons(s[0], InsertByLength(x, tail));
    } else {
      NoDuplicatesCons(x, s);
    }
  }

  /** Sorting keys that have no repeats gives a list without repeats. */
  lemma {:induction false} SortNoDuplicates(s: seq<string>)
    requires NoDuplicates(s)
    ensures NoDuplicates(SortByLengthDescending(s))
    decreases |s|
  {
    if s != [] {
      var init := s[..|s| - 1];
      var last := s[|s| - 1];
      assert NoDuplicates(init) by {
        forall i, j | 0 <= i < j < |init|
          ensures init[i] != init[j]
        {
          assert init[i] == s[i] && init[j] == s[j];
        }
      }
      assert last !in init by {
        forall j | 0 <= j < |init|
          ensures init[j] != last
        {
          assert init[j] == s[j];
        }
      }
      SortNoDuplicates(init);
      SortMembers(init);
      InsertNoDuplicates(last, SortByLengthDescending(init));
    }
  }

  // ---------------------------------------------------------------- expanding a macro call

  /** The keys of a call's parameter map are its parameters, so they are words when the parameters are. */
  lemma ParamMapWords(params: seq<string>, args: seq<string>)
    requires AllWords(params) && |params| == |args|
    ensures AllWords(SortByLengthDescending(Keys(ParamMap(params, args))))
    ensures NoDuplicates(SortByLengthDescending(Keys(ParamMap(params, args))))
    ensures forall q :: q in SortByLengthDescending(Keys(ParamMap(params, args))) <==> q in params
  {
    ParamMapContents(params, args);
    DistinctSpec(params);
    var keys := Distinct(params);
    assert AllWords(keys) by {
      forall i | 0 <= i < |keys|
        ensures IsWord(keys[i])
      {
        assert keys[i] in params;
      }
    }
    AllWordsSorted(keys);
    SortNoDuplicates(keys);
    SortMembers(keys);
  }

  /** Each parameter with a value takes the trimmed argument of one of its positions. */
  lemma ParamMapValueAt(params: seq<string>, args: seq<string>, p: string) returns (i: nat)
    requires |params| == |args| && p in MapOf(ParamMap(params, args))
    ensures i < |params| && params[i] == p && MapOf(ParamMap(params, args))[p] == Trim(args[i])
  {
    ParamMapContents(params, args);
    var pairs := Zip(params, TrimAll(args));
    MapOfValue(pairs, p);
    i :| 0 <= i < |pairs| && pairs[i] == (p, MapOf(pairs)[p]);
  }

  /** The parameter map has a value for exactly the parameters. */
  lemma ParamMapDomain(params: seq<string>, args: seq<string>)
    requires |params| == |args|
    ensures forall p :: p in MapOf(ParamMap(params, args)) <==> p in params
  {
    forall p | p in params
      ensures p in MapOf(ParamMap(params, args))
    {
      var i :| 0 <= i < |params| && params[i] == p;
      ParamMapHasParameter(params, args, i);
    }
    forall p | p in MapOf(ParamMap(params, args))
      ensures p in params
    {
      var i := ParamMapValueAt(params, args, p);
    }
  }

  lemma ParamMapHasParameter(params: seq<string>, args: seq<string>, i: nat)
    requires |params| == |args| && i < |params|
    ensures params[i] in MapOf(ParamMap(params, args))
  {
    ParamMapContents(params, args);
    var pairs := Zip(params, TrimAll(args));
    MapOfDomain(pairs);
    assert pairs[i].0 == params[i];
  }

  /** Arguments without `$` and `\` give values without them. */
  lemma ParamMapLiteral(params: seq<string>, args: seq<string>)
    requires |params| == |args|
    ensures (forall i :: 0 <= i < |args| ==> IsLiteral(Trim(args[i]))) ==>
      forall p :: p in MapOf(ParamMap(params, args)) ==> IsLiteral(MapOf(ParamMap(params, args))[p])
  {
    if forall i :: 0 <= i < |args| ==> IsLiteral(Trim(args[i])) {
      forall p | p in MapOf(ParamMap(params, args))
        ensures IsLiteral(MapOf(ParamMap(params, args))[p])
      {
        var i := ParamMapValueAt(params, args, p);
      }
    }
  }

  /**
   * `expandAndEvaluateMacroCall`'s text: the trimmed body, with the trimmed
   * arguments replaced in turn, longest parameter first, each in the text the
   * previous ones left; None where a replacement string throws, which cannot
   * happen when no argument holds `$` or `\`.
   */
  function ExpandMacroBody(body: string, params: seq<string>, args: seq<string>): (r: Option<string>)
    requires AllWords(params) && |params| == |args|
    ensures (forall i :: 0 <= i < |args| ==> IsLiteral(Trim(args[i]))) ==> r.Some?
  {
    var paramMap := ParamMap(params, args);
    var sorted := SortByLengthDescending(Keys(paramMap));
    ParamMapWords(params, args);
    ParamMapLiteral(params, args);
    SubstituteAllLiteral(Trim(body), sorted, MapOf(paramMap));
    SubstituteAll(Trim(body), sorted, MapOf(paramMap))
  }

  /** A body in which no parameter occurs as a whole word is just trimmed. */
  lemma ExpandMacroBodyNoParameter(body: string, params: seq<string>, args: seq<string>)
    requires AllWords(params) && |params| == |args|
    requires forall q, k :: q in params && 0 <= k < |Trim(body)| ==> !MatchAt(Trim(body), q, k)
    ensures ExpandMacroBody(body, params, args) == Some(Trim(body))
  {
    ParamMapWords(params, args);
    SubstituteAllUnchanged(Trim(body), SortByLengthDescending(Keys(ParamMap(params, args))), MapOf(ParamMap(params, args)));
  }

  /**
   * A body that is one parameter expands to that parameter's last trimmed
   * argument, provided the argument holds neither `$` nor `\` and no other
   * parameter occurs in it as a whole word (else it is replaced again).
   */
  lemma ExpandMacroBodyParameter(p: string, params: seq<string>, args: seq<string>, i: nat)
    requires AllWords(params) && |params| == |args|
    requires i < |params| && params[i] == p
    requires forall j :: i < j < |params| ==> params[j] != p
    requires IsLiteral(Trim(args[i]))
    requires forall q, k :: q in params && q != p && 0 <= k < |Trim(args[i])| ==> !MatchAt(Trim(args[i]), q, k)
    ensures ExpandMacroBody(p, params, args) == Some(Trim(args[i]))
  {
    var v := Trim(args[i]);
    var later := ExpandParameterAlone(p, params, args, i);
    ExpandLiteral(v, p);
    SubstituteAllUnchanged(v, later, MapOf(ParamMap(params, args)));
  }

  /** A body that is one parameter fails to expand when that parameter's argument is a replacement string that throws. */
  lemma ExpandMacroBodyParameterThrows(p: string, params: seq<string>, args: seq<string>, i: nat)
    requires AllWords(params) && |params| == |args|
    requires i < |params| && params[i] == p
    requires forall j :: i < j < |params| ==> params[j] != p
    requires Expand(Trim(args[i]), p) == None
    ensures ExpandMacroBody(p, params, args) == None
  {
    var later := ExpandParameterAlone(p, params, args, i);
  }

  /** A body that is one parameter becomes its expanded argument, in which the shorter parameters are then replaced. */
  lemma ExpandParameterAlone(p: string, params: seq<string>, args: seq<string>, i: nat) returns (later: seq<string>)
    requires AllWords(params) && |params| == |args|
    requires i < |params| && params[i] == p
    requires forall j :: i < j < |params| ==> params[j] != p
    ensures AllWords(later) && p !in later && forall q :: q in later ==> q in params
    ensures ExpandMacroBody(p, params, args) == match Expand(Trim(args[i]), p)
      case None => None
      case Some(v) => SubstituteAll(v, later, MapOf(ParamMap(params, args)))
  {
    var values := MapOf(ParamMap(params, args));
    var sorted := SortByLengthDescending(Keys(ParamMap(params, args)));
    var idx := SortedPlace(p, params, args);
    later := sorted[idx + 1..];
    assert forall q :: q in later ==> q in sorted;
    ParamMapLast(params, args, i);
    assert values[p] == Trim(args[i]);
    ExpandParameterBody(p, params, args);
    assert ExpandMacroBody(p, params, args) == SubstituteAll(p, sorted, values);
    SubstituteParameterAlone(p, sorted, values, idx);
  }

  /** Where a parameter sits among the sorted keys: once, behind the ones at least as long. */
  lemma SortedPlace(p: string, params: seq<string>, args: seq<string>) returns (idx: nat)
    requires AllWords(params) && |params| == |args| && p in params
    ensures AllWords(SortByLengthDescending(Keys(ParamMap(params, args))))
    ensures LongestFirst(SortByLengthDescending(Keys(ParamMap(params, args))))
    ensures forall q :: q in SortByLengthDescending(Keys(ParamMap(params, args))) <==> q in params
    ensures idx < |SortByLengthDescending(Keys(ParamMap(params, args)))|
    ensures SortByLengthDescending(Keys(ParamMap(params, args)))[idx] == p
    ensures p !in SortByLengthDescending(Keys(ParamMap(params, args)))[..idx]
    ensures p !in SortByLengthDescending(Keys(ParamMap(params, args)))[idx + 1..]
  {
    var sorted := SortByLengthDescending(Keys(ParamMap(params, args)));
    ParamMapWords(params, args);
    SortLongestFirst(Keys(ParamMap(params, args)));
    idx :| 0 <= idx < |sorted| && sorted[idx] == p;
    UniqueBefore(sorted, idx);
    UniqueAfter(sorted, idx);
  }

  /** A body that is one parameter name is its own trimmed text. */
  lemma ExpandParameterBody(p: string, params: seq<string>, args: seq<string>)
    requires AllWords(params) && |params| == |args| && IsWord(p)
    ensures AllWords(SortByLengthDescending(Keys(ParamMap(params, args))))
    ensures ExpandMacroBody(p, params, args)
      == SubstituteAll(p, SortByLengthDescending(Keys(ParamMap(params, args))), MapOf(ParamMap(params, args)))
  {
    ParamMapWords(params, args);
    TrimWord(p);
  }

  /** The parameter map gives a parameter its last argument, trimmed. */
  lemma ParamMapLast(params: seq<string>, args: seq<string>, i: nat)
    requires |params| == |args| && i < |params|
    requires forall j :: i < j < |params| ==> params[j] != params[i]
    ensures params[i] in MapOf(ParamMap(params, args))
    ensures MapOf(ParamMap(params, args))[params[i]] == Trim(args[i])
  {
    ParamMapContents(params, args);
    MapOfLaterWins(Zip(params, TrimAll(args)), i);
  }

  lemma UniqueBefore(s: seq<string>, i: nat)
    requires NoDuplicates(s) && i < |s|
    ensures s[i] !in s[..i]
  {
    forall j | 0 <= j < i
      ensures s[..i][j] != s[i]
    {
      assert s[..i][j] == s[j];
    }
  }

  lemma UniqueAfter(s: seq<string>, i: nat)
    requires NoDuplicates(s) && i < |s|
    ensures s[i] !in s[i + 1..]
  {
    var after := s[i + 1..];
    forall j | 0 <= j < |after|
      ensures after[j] != s[i]
    {
      assert after[j] == s[i + 1 + j];
    }
  }

  // ---------------------------------------------------------------- in turn versus at once

  /** A single character that is not a word character. */
  predicate IsSeparator(t: string)
  {
    |t| == 1 && !IsWordChar(t[0])
  }

  /** The text cut into maximal runs of word characters and single other characters. */
  function Tokens(s: string): (r: seq<string>)
    decreases |s|
  {
    if s == [] then []
    else if IsWordChar(s[0]) then
      var j := WordEnd(s, 0);
      assert j == WordEnd(s, 1);
      [s[..j]] + Tokens(s[j..])
    else [[s[0]]] + Tokens(s[1..])
  }

  function Join(ts: seq<string>): (r: string)
  {
    if ts == [] then [] else ts[0] + Join(ts[1..])
  }

  /** Cutting a text into tokens loses nothing. */
  lemma {:induction false} JoinTokens(s: string)
    ensures Join(Tokens(s)) == s
    decreases |s|
  {
    if s != [] {
      if IsWordChar(s[0]) {
        var j := LeadingWord(s);
        JoinTokens(s[j..]);
        JoinCons(s[..j], Tokens(s[j..]));
        assert s[..j] + s[j..] == s;
      } else {
        assert Tokens(s) == [[s[0]]] + Tokens(s[1..]);
        JoinTokens(s[1..]);
        JoinCons([s[0]], Tokens(s[1..]));
        assert [s[0]] + s[1..] == s;
      }
    }
  }

  lemma JoinCons(t: string, ts: seq<string>)
    ensures Join([t] + ts) == t + Join(ts)
  {
    assert ([t] + ts)[0] == t && ([t] + ts)[1..] == ts;
  }

  /** Every token a word or a separator, and no two words side by side. */
  predicate WellTokens(ts: seq<string>)
    decreases |ts|
  {
    ts == [] ||
    ((IsWord(ts[0]) || IsSeparator(ts[0]))
     && (|ts| == 1 || IsSeparator(ts[0]) || IsSeparator(ts[1]))
     && WellTokens(ts[1..]))
  }

  lemma {:induction false} TokensWell(s: string)
    ensures WellTokens(Tokens(s))
    decreases |s|
  {
    if s != [] {
      if IsWordChar(s[0]) {
        var j := WordEnd(s, 0);
        assert j == WordEnd(s, 1);
        TokensWell(s[j..]);
        assert IsWord(s[..j]);
        if j < |s| {
          assert s[j..][0] == s[j];
        }
        assert Tokens(s)[1..] == Tokens(s[j..]);
      } else {
        TokensWell(s[1..]);
        assert Tokens(s)[1..] == Tokens(s[1..]);
      }
    }
  }

  /** A word or a separator is a single token. */
  lemma TokenAlone(t: string)
    requires IsWord(t) || IsSeparator(t)
    ensures Tokens(t) == [t]
  {
    if IsWord(t) {
      WordEndAt(t, 0, |t|);
      assert t[..|t|] == t;
      assert t[|t|..] == [];
    } else {
      assert t[1..] == [];
      assert [t[0]] == t;
    }
  }

  /** A text that starts with a word of length `j` cuts into that word and the tokens of the rest. */
  lemma WordTokenSplit(s: string, j: nat)
    requires 0 < j <= |s|
    requires forall k :: 0 <= k < j ==> IsWordChar(s[k])
    requires BoundaryAfter(s, j)
    ensures Tokens(s) == [s[..j]] + Tokens(s[j..])
  {
    WordEndAt(s, 0, j);
  }

  /** Cutting a concatenation cuts each part when a non-word character sits at the seam. */
  lemma {:induction false} TokensAppend(a: string, b: string)
    requires a == [] || b == [] || !IsWordChar(a[|a| - 1]) || !IsWordChar(b[0])
    ensures Tokens(a + b) == Tokens(a) + Tokens(b)
    decreases |a|, 1
  {
    if a == [] {
      assert a + b == b;
    } else if b == [] {
      assert a + b == a;
    } else if IsWordChar(a[0]) {
      TokensAppendWord(a, b);
    } else {
      TokensAppendSeparator(a, b);
    }
  }

  lemma {:induction false} TokensAppendWord(a: string, b: string)
    requires a != [] && b != [] && IsWordChar(a[0])
    requires !IsWordChar(a[|a| - 1]) || !IsWordChar(b[0])
    ensures Tokens(a + b) == Tokens(a) + Tokens(b)
    decreases |a|, 0
  {
    var j := LeadingWord(a);
    if j < |a| {
      LeadingWordSplit(a, b, j);
      TokensAppend(a[j..], b);
      AppendAssoc(a[..j], Tokens(a[j..]), Tokens(b));
    } else {
      WholeWordAppend(a, b);
    }
  }

  /** The leading word of a text that starts with a word character. */
  lemma LeadingWord(a: string) returns (j: nat)
    requires a != [] && IsWordChar(a[0])
    ensures 0 < j <= |a| && j == WordEnd(a, 0)
    ensures Tokens(a) == [a[..j]] + Tokens(a[j..])
  {
    j := WordEnd(a, 0);
    assert j == WordEnd(a, 1);
    WordTokenSplit(a, j);
  }

  lemma AppendAssoc(w: string, x: seq<string>, y: seq<string>)
    ensures [w] + (x + y) == ([w] + x) + y
  {
  }

  lemma WordCharsPrefix(a: string, b: string, j: nat)
    requires j <= |a| && forall k :: 0 <= k < j ==> IsWordChar(a[k])
    ensures forall k :: 0 <= k < j ==> IsWordChar((a + b)[k])
    ensures a + b == a[..j] + (a[j..] + b)
  {
    assert a == a[..j] + a[j..];
  }

  lemma SeamBoundary(a: string, b: string, j: nat)
    requires j <= |a| && BoundaryAfter(a, j)
    requires j < |a| || b == [] || !IsWordChar(b[0])
    ensures BoundaryAfter(a + b, j)
  {
    if j < |a| {
      assert (a + b)[j] == a[j];
    } else if b != [] {
      assert (a + b)[j] == b[0];
    }
  }

  /** A text that is one word stays one token in front of text that starts with a non-word character. */
  lemma WholeWordAppend(a: string, b: string)
    requires a != [] && b != [] && WordEnd(a, 0) == |a| && !IsWordChar(b[0])
    ensures Tokens(a + b) == Tokens(a) + Tokens(b)
  {
    var j := |a|;
    LeadingWordSplit(a, b, j);
    assert a[j..] == [] && a[j..] + b == b;
    WordTokenSplit(a, j);
    assert a[..j] == a;
    assert Tokens(a) == [a];
  }

  /** The leading word of `a` stays the leading token of `a + b` when a non-word character follows it. */
  lemma LeadingWordSplit(a: string, b: string, j: nat)
    requires 0 < j <= |a| && j == WordEnd(a, 0)
    requires j < |a| || b == [] || !IsWordChar(b[0])
    ensures Tokens(a + b) == [a[..j]] + Tokens(a[j..] + b)
  {
    WordCharsPrefix(a, b, j);
    SeamBoundary(a, b, j);
    SplitAt(a + b, a[..j], a[j..] + b, j);
  }

  lemma SplitAt(s: string, w: string, rest: string, j: nat)
    requires 0 < j <= |s| && s == w + rest && |w| == j
    requires forall k :: 0 <= k < j ==> IsWordChar(s[k])
    requires BoundaryAfter(s, j)
    ensures Tokens(s) == [w] + Tokens(rest)
  {
    WordTokenSplit(s, j);
    assert s[..j] == w && s[j..] == rest;
  }

  lemma {:induction false} TokensAppendSeparator(a: string, b: string)
    requires a != [] && !IsWordChar(a[0])
    requires b == [] || !IsWordChar(a[|a| - 1]) || !IsWordChar(b[0])
    ensures Tokens(a + b) == Tokens(a) + Tokens(b)
    decreases |a|, 0
  {
    var s := a + b;
    assert s[0] == a[0] && s[1..] == a[1..] + b;
    TokensAppend(a[1..], b);
  }

  /** A token as the simultaneous substitution leaves it: a word that is a parameter becomes its value. */
  function Image(t: string, values: map<string, string>): string
  {
    if IsWord(t) && t in values then values[t] else t
  }

  function SubstituteTokens(ts: seq<string>, values: map<string, string>): string
  {
    if ts == [] then [] else Image(ts[0], values) + SubstituteTokens(ts[1..], values)
  }

  /** A position at which a token starts. */
  predicate TokenStart(text: string, i: nat)
    requires i <= |text|
  {
    i == |text| || !IsWordChar(text[i]) || BoundaryBefore(text, i)
  }

  /** Inside a word no position starts a match, so the rest of the word is copied. */
  lemma {:induction false} InsideWord(text: string, values: map<string, string>, k: nat, j: nat)
    requires 0 < k <= j <= |text|
    requires forall m :: k - 1 <= m < j ==> IsWordChar(text[m])
    ensures SubstituteFrom(text, values, k) == text[k..j] + SubstituteFrom(text, values, j)
    decreases j - k
  {
    if k < j {
      NotAtBoundary(text, values, k);
      InsideWord(text, values, k + 1, j);
      assert text[k..j] == [text[k]] + text[k + 1..j];
    } else {
      assert text[k..j] == [];
    }
  }

  /** Behind a word character no match starts, so the character is copied. */
  lemma NotAtBoundary(text: string, values: map<string, string>, k: nat)
    requires 0 < k < |text| && IsWordChar(text[k - 1])
    ensures SubstituteFrom(text, values, k) == [text[k]] + SubstituteFrom(text, values, k + 1)
  {
    assert !BoundaryBefore(text, k);
  }

  /** The simultaneous substitution works token by token. */
  lemma {:induction false} SubstituteFromTokens(text: string, values: map<string, string>, i: nat)
    requires i <= |text| && TokenStart(text, i)
    ensures SubstituteFrom(text, values, i) == SubstituteTokens(Tokens(text[i..]), values)
    decreases |text| - i, 1
  {
    if i < |text| {
      if IsWordChar(text[i]) {
        SubstituteFromWord(text, values, i);
      } else {
        SubstituteFromSeparator(text, values, i);
      }
    }
  }

  lemma {:induction false} SubstituteFromSeparator(text: string, values: map<string, string>, i: nat)
    requires i < |text| && !IsWordChar(text[i])
    ensures SubstituteFrom(text, values, i) == SubstituteTokens(Tokens(text[i..]), values)
    decreases |text| - i, 0
  {
    var s := text[i..];
    assert s[0] == text[i] && s[1..] == text[i + 1..];
    assert Tokens(s) == [[text[i]]] + Tokens(text[i + 1..]);
    SubstituteTokensCons([text[i]], Tokens(text[i + 1..]), values);
    assert Image([text[i]], values) == [text[i]] by {
      assert [text[i]][0] == text[i];
    }
    assert SubstituteFrom(text, values, i) == [text[i]] + SubstituteFrom(text, values, i + 1) by {
      assert WordEnd(text, i) == i;
    }
    SubstituteFromTokens(text, values, i + 1);
  }

  lemma {:induction false} SubstituteFromWord(text: string, values: map<string, string>, i: nat)
    requires i < |text| && IsWordChar(text[i]) && BoundaryBefore(text, i)
    ensures SubstituteFrom(text, values, i) == SubstituteTokens(Tokens(text[i..]), values)
    decreases |text| - i, 0
  {
    var j := WordAt(text, i);
    SubstituteTokensCons(text[i..j], Tokens(text[j..]), values);
    SubstituteFromTokens(text, values, j);
    SubstituteFromAtWord(text, values, i, j);
  }

  /** At the start of a word the substitution emits the word's image and goes on behind it. */
  lemma SubstituteFromAtWord(text: string, values: map<string, string>, i: nat, j: nat)
    requires i < j <= |text| && j == WordEnd(text, i) && BoundaryBefore(text, i)
    requires IsWord(text[i..j]) && forall m :: i <= m < j ==> IsWordChar(text[m])
    ensures SubstituteFrom(text, values, i) == Image(text[i..j], values) + SubstituteFrom(text, values, j)
  {
    var w := text[i..j];
    if w !in values {
      assert SubstituteFrom(text, values, i) == [text[i]] + SubstituteFrom(text, values, i + 1);
      InsideWord(text, values, i + 1, j);
      assert w == [text[i]] + text[i + 1..j];
    }
  }

  lemma SubstituteTokensCons(t: string, ts: seq<string>, values: map<string, string>)
    ensures SubstituteTokens([t] + ts, values) == Image(t, values) + SubstituteTokens(ts, values)
  {
    assert ([t] + ts)[0] == t && ([t] + ts)[1..] == ts;
  }

  /** The word that starts at `i` is the first token of the text from `i` on. */
  lemma WordAt(text: string, i: nat) returns (j: nat)
    requires i < |text| && IsWordChar(text[i])
    ensures j == WordEnd(text, i) && i < j <= |text|
    ensures IsWord(text[i..j]) && TokenStart(text, j)
    ensures forall m :: i <= m < j ==> IsWordChar(text[m])
    ensures Tokens(text[i..]) == [text[i..j]] + Tokens(text[j..])
  {
    var s := text[i..];
    j := WordEnd(text, i);
    assert j == WordEnd(text, i + 1);
    forall k | 0 <= k < j - i
      ensures IsWordChar(s[k])
    {
      assert s[k] == text[i + k];
    }
    WordTokenSplit(s, j - i);
    assert s[..j - i] == text[i..j];
    assert s[j - i..] == text[j..];
  }

  lemma SubstituteIsTokenwise(text: string, values: map<string, string>)
    ensures Substitute(text, values) == SubstituteTokens(Tokens(text), values)
  {
    SubstituteFromTokens(text, values, 0);
    assert text[0..] == text;
  }

  /** The tokens of each token's image, one after the other. */
  function ImageTokens(ts: seq<string>, values: map<string, string>): seq<string>
  {
    if ts == [] then [] else Tokens(Image(ts[0], values)) + ImageTokens(ts[1..], values)
  }

  /** Word tokens never touch, so the substituted text cuts into the tokens of the images. */
  lemma {:induction false} TokensOfSubstituted(ts: seq<string>, values: map<string, string>)
    requires WellTokens(ts)
    ensures Tokens(SubstituteTokens(ts, values)) == ImageTokens(ts, values)
    decreases |ts|
  {
    if ts != [] {
      TokensOfSubstituted(ts[1..], values);
      var a := Image(ts[0], values);
      var b := SubstituteTokens(ts[1..], values);
      if IsSeparator(ts[0]) {
        assert a == ts[0];
      } else if |ts| > 1 {
        assert IsSeparator(ts[1]);
        assert b == Image(ts[1], values) + SubstituteTokens(ts[1..][1..], values);
        assert Image(ts[1], values) == ts[1];
      }
      TokensAppend(a, b);
    }
  }

  lemma {:induction false} SubstituteTokensAppend(a: seq<string>, b: seq<string>, values: map<string, string>)
    ensures SubstituteTokens(a + b, values) == SubstituteTokens(a, values) + SubstituteTokens(b, values)
    decreases |a|
  {
    if a == [] {
      assert a + b == b;
    } else {
      SubstituteTokensAppend(a[1..], b, values);
      assert (a + b)[1..] == a[1..] + b;
      assert (a + b)[0] == a[0];
    }
  }

  lemma {:induction false} SubstituteTokensNone(ts: seq<string>, values: map<string, string>)
    requires forall t :: t in ts && IsWord(t) ==> t !in values
    ensures SubstituteTokens(ts, values) == Join(ts)
    decreases |ts|
  {
    if ts != [] {
      assert ts[0] in ts;
      SubstituteTokensNone(ts[1..], values);
    }
  }

  /** One token substituted twice is substituted once, the first map winning. */
  lemma ImageTwice(t: string, first: map<string, string>, second: map<string, string>)
    requires IsWord(t) || IsSeparator(t)
    requires forall p, u :: p in first && u in Tokens(first[p]) && IsWord(u) ==> u !in second
    ensures SubstituteTokens(Tokens(Image(t, first)), second) == Image(t, second + first)
  {
    if IsWord(t) && t in first {
      SubstituteTokensNone(Tokens(first[t]), second);
      JoinTokens(first[t]);
    } else {
      TokenAlone(t);
      assert SubstituteTokens([t], second) == Image(t, second) + SubstituteTokens([], second);
    }
  }

  /** Substituting twice is substituting once, the first map winning, when no value of the first holds a parameter of the second. */
  lemma {:induction false} SubstituteTokensTwice(ts: seq<string>, first: map<string, string>, second: map<string, string>)
    requires WellTokens(ts)
    requires forall p, t :: p in first && t in Tokens(first[p]) && IsWord(t) ==> t !in second
    ensures SubstituteTokens(ImageTokens(ts, first), second) == SubstituteTokens(ts, second + first)
    decreases |ts|
  {
    if ts != [] {
      SubstituteTokensAppend(Tokens(Image(ts[0], first)), ImageTokens(ts[1..], first), second);
      SubstituteTokensTwice(ts[1..], first, second);
      ImageTwice(ts[0], first, second);
    }
  }

  lemma SubstituteTwice(text: string, first: map<string, string>, second: map<string, string>)
    requires forall p, t :: p in first && t in Tokens(first[p]) && IsWord(t) ==> t !in second
    ensures Substitute(Substitute(text, first), second) == Substitute(text, second + first)
  {
    var ts := Tokens(text);
    SubstituteIsTokenwise(text, first);
    TokensWell(text);
    TokensOfSubstituted(ts, first);
    SubstituteIsTokenwise(Substitute(text, first), second);
    SubstituteTokensTwice(ts, first, second);
    SubstituteIsTokenwise(text, second + first);
  }

  /** A word token of a text is a whole-word match in it. */
  lemma {:induction false} TokenMatch(s: string, t: string) returns (k: nat)
    requires t in Tokens(s) && IsWord(t)
    ensures k < |s| && MatchAt(s, t, k)
    decreases |s|, 1
  {
    if IsWordChar(s[0]) {
      k := TokenMatchWord(s, t);
    } else {
      k := TokenMatchSeparator(s, t);
    }
  }

  lemma {:induction false} TokenMatchWord(s: string, t: string) returns (k: nat)
    requires s != [] && IsWordChar(s[0]) && t in Tokens(s) && IsWord(t)
    ensures k < |s| && MatchAt(s, t, k)
    decreases |s|, 0
  {
    var j := LeadingWord(s);
    if t == s[..j] {
      k := 0;
      assert s[0..|t|] == t;
    } else {
      assert t in Tokens(s[j..]);
      var k' := TokenMatch(s[j..], t);
      MatchInSuffix(s, j, t, k');
      k := j + k';
    }
  }

  lemma {:induction false} TokenMatchSeparator(s: string, t: string) returns (k: nat)
    requires s != [] && !IsWordChar(s[0]) && t in Tokens(s) && IsWord(t)
    ensures k < |s| && MatchAt(s, t, k)
    decreases |s|, 0
  {
    assert Tokens(s) == [[s[0]]] + Tokens(s[1..]);
    assert t != [s[0]] by {
      assert IsWordChar(t[0]);
    }
    assert t in Tokens(s[1..]);
    var k' := TokenMatch(s[1..], t);
    MatchInSuffix(s, 1, t, k');
    k := 1 + k';
  }

  /** A match in a suffix is a match in the whole text when the suffix starts at a word boundary or the match is inside it. */
  lemma MatchInSuffix(s: string, j: nat, t: string, k: nat)
    requires 0 < j <= |s| && IsWord(t) && MatchAt(s[j..], t, k)
    requires k > 0 || !IsWordChar(s[j - 1]) || !IsWordChar(s[j])
    ensures MatchAt(s, t, j + k)
  {
    var u := s[j..];
    assert s[j + k..j + k + |t|] == u[k..k + |t|];
    assert u[k] == u[k..k + |t|][0];
    if k > 0 {
      assert u[k - 1] == s[j + k - 1];
    }
    if j + k + |t| < |s| {
      assert u[k + |t|] == s[j + k + |t|];
    }
  }

  /** The parameters in `names` that have a value, with their values. */
  function Restrict(values: map<string, string>, names: seq<string>): (r: map<string, string>)
    ensures forall p :: p in r <==> p in values && p in names
    ensures forall p :: p in r ==> r[p] == values[p]
  {
    map p | p in values && p in names :: values[p]
  }

  /**
   * Replacing the parameters in turn is substituting them all at once as
   * long as the values hold neither `$` nor `\` and no value holds another
   * parameter as a whole word; the order of the names is then irrelevant.
   */
  lemma {:induction false} SequentialIsSimultaneous(text: string, names: seq<string>, values: map<string, string>)
    requires AllWords(names) && NoDuplicates(names)
    requires forall p :: p in names && p in values ==> IsLiteral(values[p])
    requires forall p, q, k :: p in names && q in names && p != q && p in values && q in values && 0 <= k < |values[p]| ==> !MatchAt(values[p], q, k)
    ensures SubstituteAll(text, names, values) == Some(Substitute(text, Restrict(values, names)))
    decreases |names|
  {
    if names == [] {
      assert Restrict(values, names) == map[];
      SubstituteFromNoParameter(text, map[], 0);
      assert text[0..] == text;
    } else {
      var n := names[0];
      var rest := names[1..];
      HeadNotInTail(names);
      if n !in values {
        SequentialIsSimultaneous(text, rest, values);
        assert Restrict(values, names) == Restrict(values, rest);
      } else {
        var v := values[n];
        LiteralSingleParameter(text, n, v);
        SequentialIsSimultaneous(Substitute(text, map[n := v]), rest, values);
        FirstThenRest(text, names, values);
      }
    }
  }

  lemma HeadNotInTail(names: seq<string>)
    requires NoDuplicates(names) && names != []
    ensures names[0] !in names[1..] && NoDuplicates(names[1..])
  {
    var rest := names[1..];
    forall j | 0 <= j < |rest|
      ensures rest[j] != names[0]
    {
      assert rest[j] == names[j + 1];
    }
    forall i, j | 0 <= i < j < |rest|
      ensures rest[i] != rest[j]
    {
      assert rest[i] == names[i + 1] && rest[j] == names[j + 1];
    }
  }

  /** Substituting the first parameter, then the others at once, is substituting all of them at once. */
  lemma FirstThenRest(text: string, names: seq<string>, values: map<string, string>)
    requires names != [] && names[0] in values && names[0] !in names[1..]
    requires forall q, k :: q in names && q != names[0] && q in values && 0 <= k < |values[names[0]]| ==> !MatchAt(values[names[0]], q, k)
    ensures Substitute(Substitute(text, map[names[0] := values[names[0]]]), Restrict(values, names[1..]))
      == Substitute(text, Restrict(values, names))
  {
    var n := names[0];
    var v := values[n];
    var later := Restrict(values, names[1..]);
    forall p, t | p in map[n := v] && t in Tokens(map[n := v][p]) && IsWord(t)
      ensures t !in later
    {
      if t in later {
        var k := TokenMatch(v, t);
      }
    }
    SubstituteTwice(text, map[n := v], later);
    assert later + map[n := v] == Restrict(values, names);
  }

  /**
   * The expansion of a call equals substituting every trimmed argument at
   * once when no argument holds `$`, `\` or another parameter as a whole word.
   */
  lemma ExpandMacroBodySimultaneous(body: string, params: seq<string>, args: seq<string>)
    requires AllWords(params) && |params| == |args|
    requires forall i :: 0 <= i < |args| ==> IsLiteral(Trim(args[i]))
    requires forall i, j, k :: 0 <= i < |params| && 0 <= j < |params| && params[i] != params[j] && 0 <= k < |Trim(args[i])| ==> !MatchAt(Trim(args[i]), params[j], k)
    ensures ExpandMacroBody(body, params, args) == Some(Substitute(Trim(body), MapOf(ParamMap(params, args))))
  {
    var values := MapOf(ParamMap(params, args));
    var sorted := SortByLengthDescending(Keys(ParamMap(params, args)));
    ParamMapWords(params, args);
    ParamMapDomain(params, args);
    ParamMapLiteral(params, args);
    forall p, q, k | p in sorted && q in sorted && p != q && p in values && q in values && 0 <= k < |values[p]|
      ensures !MatchAt(values[p], q, k)
    {
      var i := ParamMapValueAt(params, args, p);
      var j :| 0 <= j < |params| && params[j] == q;
    }
    SequentialIsSimultaneous(Trim(body), sorted, values);
    assert Restrict(values, sorted) == values;
  }

  // ---------------------------------------------------------------- the two discrepancies

  lemma ChainFirstStep(t: string)
    requires t == "x+y"
    ensures ReplaceWord(t, "x", "y") == Some("y+y")
  {
    assert MatchAt(t, "x", 0) && !MatchAt(t, "x", 1) && !MatchAt(t, "x", 2);
    assert HasMatchFrom(t, "x", 0);
    ExpandLiteral("y", "x");
    assert ReplaceFrom(t, "x", "y", 3) == [];
    assert ReplaceFrom(t, "x", "y", 2) == "y";
    assert ReplaceFrom(t, "x", "y", 1) == "+y";
    assert ReplaceFrom(t, "x", "y", 0) == "y+y";
  }

  lemma ChainSecondStep(t: string)
    requires t == "y+y"
    ensures ReplaceWord(t, "y", "1") == Some("1+1")
  {
    assert MatchAt(t, "y", 0) && !MatchAt(t, "y", 1) && MatchAt(t, "y", 2);
    assert HasMatchFrom(t, "y", 0);
    ExpandLiteral("1", "y");
    assert ReplaceFrom(t, "y", "1", 3) == [];
    assert ReplaceFrom(t, "y", "1", 2) == "1";
    assert ReplaceFrom(t, "y", "1", 1) == "+1";
    assert ReplaceFrom(t, "y", "1", 0) == "1+1";
  }

  /** Sequential replacement substitutes again inside an earlier argument: `F(y, 1)` of `x+y` gives `1+1`. */
  lemma ChainedSubstitution(t: string, values: map<string, string>)
    requires t == "x+y" && values == map["x" := "y", "y" := "1"]
    ensures SubstituteAll(t, ["x", "y"], values) == Some("1+1")
  {
    ChainFirstStep(t);
    ChainSecondStep("y+y");
    assert ["x", "y"][1..] == ["y"];
    assert SubstituteAll(t, ["x", "y"], values) == SubstituteAll("y+y", ["y"], values);
    assert SubstituteAll("y+y", ["y"], values) == SubstituteAll("1+1", [], values);
  }

  /** Substituting at once, the argument `y` stays `y`. */
  lemma SimultaneousSubstitution(t: string, values: map<string, string>)
    requires t == "x+y" && values == map["x" := "y", "y" := "1"]
    ensures Substitute(t, values) == "y+1"
  {
    WordEndAt(t, 0, 1);
    WordEndAt(t, 1, 1);
    WordEndAt(t, 2, 3);
    assert t[0..1] == "x" && t[2..3] == "y";
    assert SubstituteFrom(t, values, 3) == [];
    assert SubstituteFrom(t, values, 2) == "1";
    assert SubstituteFrom(t, values, 1) == "+1";
  }

  /** A `$` argument (NASM's current position) is read as a group reference and the replacement throws. */
  lemma DollarArgumentThrows(t: string)
    requires t == "x - start"
    ensures ReplaceWord(t, "x", "$") == None
  {
    assert MatchAt(t, "x", 0);
    assert HasMatchFrom(t, "x", 0);
    assert Expand("$", "x") == None;
  }

  /** Taken literally, the same `$` argument simply replaces the parameter. */
  lemma DollarArgumentLiteral(t: string, values: map<string, string>)
    requires t == "x - start" && values == map["x" := "$"]
    ensures Substitute(t, values) == "$ - start"
  {
    var rest := " - start";
    assert t == "x" + rest;
    assert forall k :: 0 <= k < |rest| ==> rest[k] in {' ', '-', 's', 't', 'a', 'r'};
    SubstituteLeadingParameter("x", rest, values);
  }

  /** A parameter at the start, followed by text in which no character starts a parameter name. */
  lemma SubstituteLeadingParameter(p: string, rest: string, values: map<string, string>)
    requires IsWord(p) && p in values && rest != [] && !IsWordChar(rest[0])
    requires forall k :: 0 <= k < |rest| ==> rest[k] !in Initials(values)
    ensures Substitute(p + rest, values) == values[p] + rest
  {
    var t := p + rest;
    WordEndAt(t, 0, |p|);
    assert t[0..|p|] == p;
    assert SubstituteFrom(t, values, 0) == values[p] + SubstituteFrom(t, values, |p|);
    SubstituteFromNoInitial(t, values, |p|);
    assert t[|p|..] == rest;
  }
}
