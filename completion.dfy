// Code completion: the context the caret is in (a jump target, a memory
// operand, a `global` line, ...), what each context offers, and the rules
// that pick the context from the text of the line before the caret.
module Completion {
  import opened Wrappers
  import opened Text
  import Documents

  // ---------------------------------------------------------------- what a context offers

  /** The kinds of user-defined symbol a completion list can hold. */
  datatype VariantType =
    | Labels | EquConstants | MultiLineMacros | SingleLineMacros
    | Assigns | CommandLineMacros | Externs

  const AllVariantTypes: set<VariantType> :=
    {Labels, EquConstants, MultiLineMacros, SingleLineMacros, Assigns, CommandLineMacros, Externs}

  datatype CompletionContext =
    | JumpTarget | MemoryOperand | DataOperand | GlobalDirective
    | ExternDirective | LineStart | AfterPercent | General

  /**
   * What a context offers: the user symbols it lists, the priority they are
   * given, and which of the built-in groups (registers, instructions,
   * directives, preprocessor functions) are shown.
   */
  datatype Offer = Offer(
    allowedSymbolTypes: set<VariantType>,
    userSymbolPriority: real,
    showRegisters: bool,
    showInstructions: bool,
    showDirectives: bool,
    showPreprocessorFunctions: bool)

  /** The offer of each context; every group not named is off. */
  function OfferOf(c: CompletionContext): (o: Offer)
    ensures o.allowedSymbolTypes <= AllVariantTypes
    ensures o.allowedSymbolTypes == AllVariantTypes <==> c == DataOperand || c == General
    ensures o.allowedSymbolTypes == {} <==> c == AfterPercent
    ensures Externs in o.allowedSymbolTypes <==> c in {ExternDirective, LineStart, DataOperand, General}
    ensures Labels in o.allowedSymbolTypes <==> c !in {ExternDirective, AfterPercent}
    ensures o.showRegisters <==> c in {MemoryOperand, DataOperand, General}
    ensures o.showInstructions <==> c in {LineStart, General}
    ensures o.showDirectives <==> c in {LineStart, AfterPercent, General}
    ensures o.showPreprocessorFunctions <==> c in {MemoryOperand, DataOperand, AfterPercent, General}
  {
    match c
    case JumpTarget => Offer({Labels, MultiLineMacros}, 95.0, false, false, false, false)
    case MemoryOperand =>
      Offer({Labels, EquConstants, SingleLineMacros, Assigns}, 92.0, true, false, false, true)
    case DataOperand => Offer(AllVariantTypes, 90.0, true, false, false, true)
    case GlobalDirective => Offer({Labels, MultiLineMacros}, 100.0, false, false, false, false)
    case ExternDirective => Offer({Externs}, 100.0, false, false, false, false)
    case LineStart =>
      Offer({Labels, EquConstants, SingleLineMacros, MultiLineMacros, Assigns, Externs},
            105.0, false, true, true, false)
    case AfterPercent => Offer({}, 0.0, false, false, true, true)
    case General => Offer(AllVariantTypes, 850.0, true, true, true, true)
  }

  /**
   * Command-line macros are offered only where every kind of symbol is, and
   * the general context ranks user symbols above every specific one.
   */
  lemma OfferRanking(c: CompletionContext)
    ensures CommandLineMacros in OfferOf(c).allowedSymbolTypes <==> c == DataOperand || c == General
    ensures c != General ==> OfferOf(c).userSymbolPriority < OfferOf(General).userSymbolPriority
  {
  }

  // ---------------------------------------------------------------- the text before the caret

  /** The text of the caret's line up to the caret. */
  function LineTextBeforeCursor(text: string, offset: nat): (r: string)
    requires offset <= |text|
    ensures |r| <= offset && r == text[offset - |r|..offset]
    ensures '\n' !in r
    ensures offset - |r| == 0 || text[offset - |r| - 1] == '\n'
  {
    var start := Documents.LineStart(text, offset);
    assert forall k :: start <= k < offset ==> text[k] != '\n';
    text[start..offset]
  }

  /** The line before the caret with its comment cut off at the first `;`, trimmed. */
  function CleanLine(line: string): string
  {
    Trim(SplitOnce(line, ';').0)
  }

  /** Opening minus closing square brackets. */
  function BracketDepth(s: string): int
  {
    multiset(s)['['] as int - multiset(s)[']'] as int
  }

  /** The walk back from the caret to just after the previous line break, or to the start of the text. */
  method WalkToLineStart(text: string, offset: nat) returns (lineStart: nat)
    requires offset <= |text|
    ensures lineStart == Documents.LineStart(text, offset)
  {
    lineStart := offset;
    while lineStart > 0 && text[lineStart - 1] != '\n'
      invariant lineStart <= offset
      invariant !Documents.BreakBetween(text, lineStart, offset)
    {
      lineStart := lineStart - 1;
    }
    Documents.LineStartUnique(text, offset, lineStart);
  }

  /** The text from the start of the caret's line to the caret. */
  method GetLineTextBeforeCursor(text: string, offset: nat) returns (s: string)
    requires offset <= |text|
    ensures s == LineTextBeforeCursor(text, offset)
  {
    if offset == 0 {
      return "";
    }
    var lineStart := WalkToLineStart(text, offset);
    s := text[lineStart..offset];
  }

  /** The caret is inside square brackets when more of them open than close on its line before it. */
  method IsInsideBrackets(text: string, offset: nat) returns (inside: bool)
    requires offset <= |text|
    ensures inside <==> offset > 0 && BracketDepth(LineTextBeforeCursor(text, offset)) > 0
  {
    if offset == 0 {
      return false;
    }
    var lineStart := WalkToLineStart(text, offset);
    var depth := 0;
    for i := lineStart to offset
      invariant depth == BracketDepth(text[lineStart..i])
    {
      assert text[lineStart..i + 1] == text[lineStart..i] + [text[i]];
      if text[i] == '[' {
        depth := depth + 1;
      } else if text[i] == ']' {
        depth := depth - 1;
      }
    }
    inside := depth > 0;
  }

  // ---------------------------------------------------------------- instruction lines

  /** `[.a-zA-Z_]`, the first character of a label. */
  predicate IsLabelStart(c: char)
  {
    c == '.' || IsAsciiLetter(c) || c == '_'
  }

  /** `c[..p]` is a label with its colon, `[.a-zA-Z_][a-zA-Z0-9_]*:`. */
  predicate LabelAt(c: string, p: nat)
  {
    && 2 <= p <= |c|
    && IsLabelStart(c[0])
    && (forall k :: 1 <= k < p - 1 ==> IsWordChar(c[k]))
    && c[p - 1] == ':'
  }

  /** Where the label at the start of the line ends, after its colon, when it has one. */
  function LabelEnd(c: string): (r: Option<nat>)
    ensures r.Some? ==> LabelAt(c, r.value)
  {
    if c != [] && IsLabelStart(c[0]) then
      var k := 1 + WordRun(c, 1);
      if k < |c| && c[k] == ':' then Some(k + 1) else None
    else None
  }

  /** `jmp|call|j[a-z]+|loop[a-z]*|jecxz|jrcxz`, ignoring case, on a run of letters. */
  predicate IsJumpMnemonic(w: string)
  {
    var lw := Lower(w);
    || lw == "jmp" || lw == "call" || (2 <= |lw| && lw[0] == 'j')
    || StartsWith(lw, "loop") || lw == "jecxz" || lw == "jrcxz"
  }

  /** `[a-z]+`: every run of letters is a mnemonic. */
  predicate AnyMnemonic(w: string)
  {
    true
  }

  /** No regex space `\s` from s on: the `\S*$` at the end of the line. */
  predicate NoSpaceFrom(c: string, s: nat)
  {
    forall k :: s <= k < |c| ==> !IsRegexSpace(c[k])
  }

  /** From r on: at least one space (the whole run of them), then no space to the end. */
  predicate OperandFrom(c: string, r: nat)
  {
    var s := r + SpaceRun(c, r);
    r < s && NoSpaceFrom(c, s)
  }

  /** From q on: a mnemonic, the whole run of letters, then an operand. */
  predicate MnemonicFrom(c: string, q: nat, mnemonic: string -> bool)
    requires q <= |c|
  {
    var r := q + LetterRun(c, q);
    q < r && mnemonic(c[q..r]) && OperandFrom(c, r)
  }

  /** From p on: spaces (the whole run of them), then a mnemonic. */
  predicate InstructionFrom(c: string, p: nat, mnemonic: string -> bool)
    requires p <= |c|
  {
    MnemonicFrom(c, p + SpaceRun(c, p), mnemonic)
  }

  /**
   * The regex `^(?:[.a-zA-Z_][a-zA-Z0-9_]*:)?\s*MNEMONIC\s+\S*$`, ignoring
   * case, read left to right: every part of it is a maximal run, so there
   * is one way to try it with the label and one without.
   */
  predicate InstructionLine(c: string, mnemonic: string -> bool)
  {
    || InstructionFrom(c, 0, mnemonic)
    || (LabelEnd(c).Some? && InstructionFrom(c, LabelEnd(c).value, mnemonic))
  }

  /** One way the regex can match: label (or nothing) up to p, spaces up to q, the mnemonic up to r, spaces up to s. */
  predicate InstructionSplit(c: string, mnemonic: string -> bool, p: nat, q: nat, r: nat, s: nat)
  {
    && p <= q < r < s <= |c|
    && (p == 0 || LabelAt(c, p))
    && (forall k :: p <= k < q ==> IsRegexSpace(c[k]))
    && (forall k :: q <= k < r ==> IsAsciiLetter(c[k])) && mnemonic(c[q..r])
    && (forall k :: r <= k < s ==> IsRegexSpace(c[k]))
    && NoSpaceFrom(c, s)
  }

  /** The reading left to right matches exactly when some split of the line does. */
  lemma InstructionLineIsRegex(c: string, mnemonic: string -> bool)
    ensures InstructionLine(c, mnemonic) <==> exists p, q, r, s :: InstructionSplit(c, mnemonic, p, q, r, s)
  {
    if InstructionLine(c, mnemonic) {
      ReadingIsSplit(c, mnemonic);
    }
    if exists p, q, r, s :: InstructionSplit(c, mnemonic, p, q, r, s) {
      var p, q, r, s :| InstructionSplit(c, mnemonic, p, q, r, s);
      SplitIsReading(c, mnemonic, p, q, r, s);
      if p != 0 {
        LabelEndIs(c, p);
      }
    }
  }

  /** The runs the reading finds make a split. */
  lemma ReadingIsSplit(c: string, mnemonic: string -> bool)
    requires InstructionLine(c, mnemonic)
    ensures exists p, q, r, s :: InstructionSplit(c, mnemonic, p, q, r, s)
  {
    var p := if InstructionFrom(c, 0, mnemonic) then 0 else LabelEnd(c).value;
    assert p == 0 || LabelAt(c, p);
    assert InstructionFrom(c, p, mnemonic);
    FromIsSplit(c, mnemonic, p);
  }

  /** The runs the reading finds from p on make a split. */
  lemma FromIsSplit(c: string, mnemonic: string -> bool, p: nat)
    requires p <= |c| && (p == 0 || LabelAt(c, p)) && InstructionFrom(c, p, mnemonic)
    ensures exists q, r, s :: InstructionSplit(c, mnemonic, p, q, r, s)
  {
    var q := p + SpaceRun(c, p);
    var r := q + LetterRun(c, q);
    var s := r + SpaceRun(c, r);
    assert InstructionSplit(c, mnemonic, p, q, r, s);
  }

  /** A split of the line is the one the left-to-right reading finds from the end of its label. */
  lemma SplitIsReading(c: string, mnemonic: string -> bool, p: nat, q: nat, r: nat, s: nat)
    requires InstructionSplit(c, mnemonic, p, q, r, s)
    ensures InstructionFrom(c, p, mnemonic)
  {
    OperandAt(c, r, s);
    MnemonicAt(c, mnemonic, q, r);
    SpacesThenMnemonic(c, mnemonic, p, q);
  }

  lemma OperandAt(c: string, r: nat, s: nat)
    requires r < s <= |c| && (forall k :: r <= k < s ==> IsRegexSpace(c[k])) && NoSpaceFrom(c, s)
    ensures OperandFrom(c, r)
  {
    SpaceRunIs(c, r, s - r);
  }

  lemma MnemonicAt(c: string, mnemonic: string -> bool, q: nat, r: nat)
    requires q < r < |c| && (forall k :: q <= k < r ==> IsAsciiLetter(c[k])) && IsRegexSpace(c[r])
    requires mnemonic(c[q..r]) && OperandFrom(c, r)
    ensures MnemonicFrom(c, q, mnemonic)
  {
    LetterRunIs(c, q, r - q);
  }

  lemma SpacesThenMnemonic(c: string, mnemonic: string -> bool, p: nat, q: nat)
    requires p <= q < |c| && (forall k :: p <= k < q ==> IsRegexSpace(c[k])) && IsAsciiLetter(c[q])
    requires MnemonicFrom(c, q, mnemonic)
    ensures InstructionFrom(c, p, mnemonic)
  {
    SpaceRunIs(c, p, q - p);
  }

  /** A label at the start of the line is the one LabelEnd finds. */
  lemma LabelEndIs(c: string, p: nat)
    requires LabelAt(c, p)
    ensures LabelEnd(c) == Some(p)
  {
    WordRunIs(c, 1, p - 2);
  }

  // ---------------------------------------------------------------- keyword lines

  /** `^KEYWORD\s+.*$`, read left to right: the keyword, the whole run of spaces after it, then any text of the line. */
  predicate KeywordThenText(c: string, kw: string)
  {
    StartsWith(c, kw) && 0 < SpaceRun(c, |kw|) && AnyLineText(c[|kw| + SpaceRun(c, |kw|)..])
  }

  /** `^KEYWORD\s*$`: the keyword and nothing but spaces after it. */
  predicate KeywordAlone(c: string, kw: string)
  {
    StartsWith(c, kw) && |kw| + SpaceRun(c, |kw|) == |c|
  }

  /** The `global` or `extern` rule: either regex, with the keyword all lower case or all upper case. */
  predicate KeywordLine(c: string, lower: string, upper: string)
  {
    || KeywordThenText(c, lower) || KeywordThenText(c, upper)
    || KeywordAlone(c, lower) || KeywordAlone(c, upper)
  }

  /** Taking the whole run of spaces loses no match of `\s+.*`: some split after at least one space leaves line text. */
  lemma KeywordThenTextIsRegex(c: string, kw: string)
    ensures KeywordThenText(c, kw) <==>
      StartsWith(c, kw) &&
      exists j :: |kw| < j <= |c| && (forall k :: |kw| <= k < j ==> IsRegexSpace(c[k])) && AnyLineText(c[j..])
  {
    if StartsWith(c, kw) {
      var n := |kw| + SpaceRun(c, |kw|);
      if exists j :: |kw| < j <= |c| && (forall k :: |kw| <= k < j ==> IsRegexSpace(c[k])) && AnyLineText(c[j..]) {
        var j :| |kw| < j <= |c| && (forall k :: |kw| <= k < j ==> IsRegexSpace(c[k])) && AnyLineText(c[j..]);
        assert j <= n;
        assert forall k :: n <= k < |c| ==> c[k] == c[j..][k - j];
      }
      if KeywordThenText(c, kw) {
        assert |kw| < n <= |c|;
      }
    }
  }

  /** On a trimmed line, `KEYWORD\s*$` is the keyword alone. */
  lemma KeywordAloneOnTrimmed(c: string, kw: string)
    requires c == [] || !IsWhitespace(c[|c| - 1])
    ensures KeywordAlone(c, kw) <==> c == kw
  {
  }

  // ---------------------------------------------------------------- the rules

  /** How a rule tests the caret's position. */
  datatype Matcher =
    | PercentBefore      // the character before the caret is `%`
    | InsideBrackets     // more `[` than `]` on the line before the caret
    | JumpInstruction    // a jump or call with at most a partial target
    | GlobalKeyword      // a `global` line
    | ExternKeyword      // an `extern` line
    | DataInstruction    // after a comma, or an instruction with at most a partial operand
    | BlankLine          // nothing but whitespace before the caret

  datatype ContextRule = ContextRule(context: CompletionContext, precedence: int, matcher: Matcher)

  /** The rules in the order they are declared. */
  const Rules: seq<ContextRule> := [
    ContextRule(AfterPercent, 1000, PercentBefore),
    ContextRule(MemoryOperand, 900, InsideBrackets),
    ContextRule(JumpTarget, 800, JumpInstruction),
    ContextRule(GlobalDirective, 750, GlobalKeyword),
    ContextRule(ExternDirective, 740, ExternKeyword),
    ContextRule(DataOperand, 700, DataInstruction),
    ContextRule(LineStart, 100, BlankLine)
  ]

  /** The character just before the caret, when there is one. */
  function CharBefore(text: string, offset: nat): Option<char>
    requires offset <= |text|
  {
    if offset > 0 then Some(text[offset - 1]) else None
  }

  // Each matcher looks at the character just before the caret, when there
  // is one, and at the text of the caret's line before it.

  /** After Percent Sign: the character before the caret is `%`. */
  predicate PercentSignBefore(before: Option<char>, line: string)
  {
    before == Some('%')
  }

  /** Memory Operand: more `[` than `]` on the line before the caret. */
  predicate OpenBracketBefore(before: Option<char>, line: string)
  {
    before.Some? && BracketDepth(line) > 0
  }

  /** Jump Target: a jump or call, at most a partial target after it. */
  predicate JumpLine(before: Option<char>, line: string)
  {
    InstructionLine(CleanLine(line), IsJumpMnemonic)
  }

  /** Global Directive: a `global` line. */
  predicate GlobalLine(before: Option<char>, line: string)
  {
    KeywordLine(CleanLine(line), "global", "GLOBAL")
  }

  /** Extern Directive: an `extern` line. */
  predicate ExternLine(before: Option<char>, line: string)
  {
    KeywordLine(CleanLine(line), "extern", "EXTERN")
  }

  /** Data Operand: a comma before the caret, or an instruction with at most a partial operand after it. */
  predicate DataLine(before: Option<char>, line: string)
  {
    ',' in CleanLine(line) || InstructionLine(CleanLine(line), AnyMnemonic)
  }

  /** Line Start: nothing but whitespace before the caret on its line. */
  predicate BlankBefore(before: Option<char>, line: string)
  {
    Trim(line) == []
  }

  /** Every jump line is also a data line: only its higher precedence makes it a jump target. */
  lemma JumpLineIsDataLine(before: Option<char>, line: string)
    requires JumpLine(before, line)
    ensures DataLine(before, line)
  {
    var c := CleanLine(line);
    if !InstructionFrom(c, 0, IsJumpMnemonic) {
      assert InstructionFrom(c, LabelEnd(c).value, IsJumpMnemonic);
    }
  }

  /** The test of each matcher. */
  function MatcherTest(m: Matcher): (Option<char>, string) -> bool
  {
    match m
    case PercentBefore => PercentSignBefore
    case InsideBrackets => OpenBracketBefore
    case JumpInstruction => JumpLine
    case GlobalKeyword => GlobalLine
    case ExternKeyword => ExternLine
    case DataInstruction => DataLine
    case BlankLine => BlankBefore
  }

  /** Whether a rule's matcher accepts the caret at `offset`. */
  predicate Matches(m: Matcher, text: string, offset: nat)
    requires offset <= |text|
  {
    MatcherTest(m)(CharBefore(text, offset), LineTextBeforeCursor(text, offset))
  }

  predicate ByPrecedence(rules: seq<ContextRule>)
  {
    forall i, j :: 0 <= i < j < |rules| ==> rules[i].precedence >= rules[j].precedence
  }

  /** Inserts `x` before the first rule of no higher precedence. */
  function InsertByPrecedence(x: ContextRule, rules: seq<ContextRule>): seq<ContextRule>
  {
    if rules == [] || x.precedence >= rules[0].precedence then [x] + rules
    else [rules[0]] + InsertByPrecedence(x, rules[1..])
  }

  /** `sortedByDescending { it.precedence }`: a stable insertion sort, highest precedence first. */
  function SortByPrecedence(rules: seq<ContextRule>): seq<ContextRule>
  {
    if rules == [] then [] else InsertByPrecedence(rules[0], SortByPrecedence(rules[1..]))
  }

  /** Inserting adds just `x`. */
  lemma {:induction false} InsertPermutes(x: ContextRule, rules: seq<ContextRule>)
    ensures multiset(InsertByPrecedence(x, rules)) == multiset(rules) + multiset{x}
  {
    if rules != [] && x.precedence < rules[0].precedence {
      InsertPermutes(x, rules[1..]);
      assert rules == [rules[0]] + rules[1..];
    }
  }

  /** Inserting into rules in order of precedence keeps them in order. */
  lemma {:induction false} InsertKeepsOrder(x: ContextRule, rules: seq<ContextRule>)
    requires ByPrecedence(rules)
    ensures ByPrecedence(InsertByPrecedence(x, rules))
  {
    if rules == [] || x.precedence >= rules[0].precedence {
      ConsInOrder(x, rules);
    } else {
      var rest := InsertByPrecedence(x, rules[1..]);
      InsertKeepsOrder(x, rules[1..]);
      InsertPermutes(x, rules[1..]);
      assert forall k :: 0 <= k < |rest| ==> rules[0].precedence >= rest[k].precedence by {
        forall k | 0 <= k < |rest|
          ensures rules[0].precedence >= rest[k].precedence
        {
          assert rest[k] in multiset(rest);
          assert rest[k] == x || rest[k] in multiset(rules[1..]);
        }
      }
      ConsInOrder(rules[0], rest);
    }
  }

  /** A rule of precedence at least that of every rule after it heads rules in order. */
  lemma ConsInOrder(h: ContextRule, rules: seq<ContextRule>)
    requires ByPrecedence(rules)
    requires rules == [] || h.precedence >= rules[0].precedence
    ensures ByPrecedence([h] + rules)
  {
  }

  /** The sorted rules are in order of precedence and are the same rules. */
  lemma {:induction false} SortSpec(rules: seq<ContextRule>)
    ensures ByPrecedence(SortByPrecedence(rules))
    ensures multiset(SortByPrecedence(rules)) == multiset(rules)
  {
    if rules != [] {
      SortSpec(rules[1..]);
      InsertKeepsOrder(rules[0], SortByPrecedence(rules[1..]));
      InsertPermutes(rules[0], SortByPrecedence(rules[1..]));
      assert rules == [rules[0]] + rules[1..];
    }
  }

  /** The sort is stable: rules already in order of precedence stay as they are. */
  lemma {:induction false} SortKeepsOrdered(rules: seq<ContextRule>)
    requires ByPrecedence(rules)
    ensures SortByPrecedence(rules) == rules
  {
    if rules != [] {
      SortKeepsOrdered(rules[1..]);
      assert rules == [rules[0]] + rules[1..];
    }
  }

  /** The rules are declared in order of precedence, so sorting leaves them as they are. */
  lemma RulesInOrder()
    ensures SortByPrecedence(Rules) == Rules
    ensures ByPrecedence(Rules)
  {
    assert ByPrecedence(Rules);
    SortKeepsOrdered(Rules);
  }

  /**
   * No rule is for General, the first rule looks for `%`, and the only rule
   * for LineStart is the last, the only one that looks for a blank line.
   */
  lemma RuleFacts()
    ensures forall i :: 0 <= i < |Rules| ==> Rules[i].context != General
    ensures |Rules| == 7 && Rules[0].context == AfterPercent && Rules[0].matcher == PercentBefore
    ensures Rules[6].context == LineStart && Rules[6].matcher == BlankLine
    ensures forall i :: 0 <= i < 6 ==> Rules[i].context != LineStart && Rules[i].matcher != BlankLine
  {
  }

  /** The first rule from index i on that `matched` accepts. */
  function FirstMatchFrom(rules: seq<ContextRule>, matched: Matcher -> bool, i: nat): (r: Option<nat>)
    ensures r.None? <==> forall j :: i <= j < |rules| ==> !matched(rules[j].matcher)
    ensures r.Some? ==> i <= r.value < |rules| && matched(rules[r.value].matcher)
    ensures r.Some? ==> forall j :: i <= j < r.value ==> !matched(rules[j].matcher)
    decreases |rules| - i
  {
    if |rules| <= i then None
    else if matched(rules[i].matcher) then Some(i)
    else FirstMatchFrom(rules, matched, i + 1)
  }

  /**
   * The context the sorted rules pick: that of the first rule whose matcher
   * accepts, and General when none does. `matched` tells which matchers
   * accept the caret.
   */
  function Pick(sorted: seq<ContextRule>, matched: Matcher -> bool): CompletionContext
  {
    match FirstMatchFrom(sorted, matched, 0)
    case None => General
    case Some(i) => sorted[i].context
  }

  /** Which matchers accept the caret at `offset`. */
  function MatchesAt(text: string, offset: nat): Matcher -> bool
    requires offset <= |text|
  {
    m => Matches(m, text, offset)
  }

  /** `detectContext`: without a file the context is General; otherwise the rules, highest precedence first, pick it. */
  function DetectContext(file: Option<string>, offset: nat): CompletionContext
    requires file.Some? ==> offset <= |file.value|
  {
    match file
    case None => General
    case Some(text) => Pick(SortByPrecedence(Rules), MatchesAt(text, offset))
  }

  /**
   * Rule k wins: its matcher accepts, no rule before it matches, and its
   * precedence is at least that of every matching rule.
   */
  predicate Winner(rules: seq<ContextRule>, matched: Matcher -> bool, k: nat)
  {
    && k < |rules| && matched(rules[k].matcher)
    && (forall j :: 0 <= j < k ==> !matched(rules[j].matcher))
    && (forall j :: 0 <= j < |rules| && matched(rules[j].matcher) ==> rules[k].precedence >= rules[j].precedence)
  }

  /** The rules pick General exactly when none matches, and otherwise the context of the winning rule. */
  lemma PickSpec(rules: seq<ContextRule>, matched: Matcher -> bool)
    requires ByPrecedence(rules)
    requires forall i :: 0 <= i < |rules| ==> rules[i].context != General
    ensures Pick(rules, matched) == General <==> forall i :: 0 <= i < |rules| ==> !matched(rules[i].matcher)
    ensures Pick(rules, matched) != General ==>
      exists k: nat :: Winner(rules, matched, k) && rules[k].context == Pick(rules, matched)
  {
    var r := FirstMatchFrom(rules, matched, 0);
    if r.Some? {
      var k := r.value;
      assert forall j :: 0 <= j < |rules| && matched(rules[j].matcher) ==> k <= j;
      assert Winner(rules, matched, k);
    }
  }

  /** The rules pick the context of a matching rule when no rule before it matches. */
  lemma PickAt(rules: seq<ContextRule>, matched: Matcher -> bool, k: nat)
    requires k < |rules| && matched(rules[k].matcher)
    requires forall j :: 0 <= j < k ==> !matched(rules[j].matcher)
    ensures Pick(rules, matched) == rules[k].context
  {
  }

  /**
   * `detectContext` on a file: General exactly when no rule matches;
   * otherwise the context of the winning rule.
   */
  lemma DetectContextSpec(text: string, offset: nat)
    requires offset <= |text|
    ensures DetectContext(Some(text), offset) == General <==>
      forall i :: 0 <= i < |Rules| ==> !Matches(Rules[i].matcher, text, offset)
    ensures DetectContext(Some(text), offset) != General ==>
      exists k: nat :: Winner(Rules, MatchesAt(text, offset), k) && Rules[k].context == DetectContext(Some(text), offset)
  {
    RulesInOrder();
    RuleFacts();
    PickSpec(Rules, MatchesAt(text, offset));
  }

  /** A `%` just before the caret wins over every other rule. */
  lemma AfterPercentFirst(text: string, offset: nat)
    requires 0 < offset <= |text| && text[offset - 1] == '%'
    ensures DetectContext(Some(text), offset) == AfterPercent
  {
    RulesInOrder();
    RuleFacts();
    assert MatchesAt(text, offset)(PercentBefore);
    PickAt(Rules, MatchesAt(text, offset), 0);
  }

  /** The caret is in the LineStart context exactly when only whitespace precedes it on its line. */
  lemma LineStartIff(text: string, offset: nat)
    requires offset <= |text|
    ensures DetectContext(Some(text), offset) == LineStart <==> Trim(LineTextBeforeCursor(text, offset)) == []
  {
    if Trim(LineTextBeforeCursor(text, offset)) == [] {
      LineStartWhenBlank(text, offset);
    } else {
      NotLineStartWhenText(text, offset);
    }
  }

  lemma LineStartWhenBlank(text: string, offset: nat)
    requires offset <= |text| && Trim(LineTextBeforeCursor(text, offset)) == []
    ensures DetectContext(Some(text), offset) == LineStart
  {
    BlankLineMatchesNothingElse(text, offset);
    assert MatchesAt(text, offset)(BlankLine);
    OnlyBlankLine(MatchesAt(text, offset));
  }

  /** When the blank-line matcher is the only one that accepts, the context is LineStart. */
  lemma OnlyBlankLine(matched: Matcher -> bool)
    requires matched(BlankLine) && forall m :: m != BlankLine ==> !matched(m)
    ensures Pick(SortByPrecedence(Rules), matched) == LineStart
  {
    RulesInOrder();
    RuleFacts();
    assert forall j :: 0 <= j < 6 ==> !matched(Rules[j].matcher);
    PickAt(Rules, matched, 6);
  }

  lemma NotLineStartWhenText(text: string, offset: nat)
    requires offset <= |text| && Trim(LineTextBeforeCursor(text, offset)) != []
    ensures DetectContext(Some(text), offset) != LineStart
  {
    RulesInOrder();
    RuleFacts();
    PickSpec(Rules, MatchesAt(text, offset));
    assert !MatchesAt(text, offset)(BlankLine);
  }

  /** Before a caret with only whitespace in front of it on its line, no rule but the LineStart one matches. */
  lemma BlankLineMatchesNothingElse(text: string, offset: nat)
    requires offset <= |text|
    requires Trim(LineTextBeforeCursor(text, offset)) == []
    ensures forall m :: m != BlankLine ==> !MatchesAt(text, offset)(m)
  {
    var line := LineTextBeforeCursor(text, offset);
    TrimEmptyIff(line);
    BlankNoPercent(text, offset, line);
    BlankMatchesNothing(CharBefore(text, offset), line);
  }

  /** The character before the caret is whitespace or a line break when only whitespace precedes it on its line. */
  lemma BlankNoPercent(text: string, offset: nat, line: string)
    requires offset <= |text| && line == LineTextBeforeCursor(text, offset)
    requires forall k :: 0 <= k < |line| ==> IsWhitespace(line[k])
    ensures CharBefore(text, offset) != Some('%')
  {
    if 0 < offset && |line| > 0 {
      assert line[|line| - 1] == text[offset - 1];
    }
  }

  /** Only the blank-line matcher accepts a line of whitespace with no `%` before the caret. */
  lemma BlankMatchesNothing(before: Option<char>, line: string)
    requires before != Some('%')
    requires forall k :: 0 <= k < |line| ==> IsWhitespace(line[k])
    ensures forall m :: m != BlankLine ==> !MatcherTest(m)(before, line)
  {
    BlankNoBracket(line);
    BlankCleanLine(line);
    EmptyLineNoInstruction();
  }

  /** A line of whitespace opens no bracket. */
  lemma BlankNoBracket(line: string)
    requires forall k :: 0 <= k < |line| ==> IsWhitespace(line[k])
    ensures BracketDepth(line) <= 0
  {
    assert forall k :: 0 <= k < |line| ==> line[k] != '[';
    assert '[' !in line;
  }

  /** The empty line is no instruction and no keyword line. */
  lemma EmptyLineNoInstruction()
    ensures !InstructionLine([], IsJumpMnemonic) && !InstructionLine([], AnyMnemonic)
    ensures !KeywordLine([], "global", "GLOBAL") && !KeywordLine([], "extern", "EXTERN")
  {
    assert LabelEnd([]).None?;
  }

  /** A line of whitespace has nothing left once cleaned. */
  lemma BlankCleanLine(line: string)
    requires forall k :: 0 <= k < |line| ==> IsWhitespace(line[k])
    ensures CleanLine(line) == []
  {
    var before := SplitOnce(line, ';').0;
    if SplitOnce(line, ';').1.Some? {
      assert forall k :: 0 <= k < |before| ==> before[k] == line[k];
    }
    TrimEmptyIff(before);
  }
}
