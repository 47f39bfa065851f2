// The Enter key in a NASM file: after Enter is pressed on a `%macro` line or
// on a line opening a conditional block, when the block has no closing
// directive yet, an empty body line and the closing `%endmacro` or `%endif`
// are inserted below, indented like the opening line, and the caret is put
// on the empty line.
module EnterHandler {
  import opened Wrappers
  import opened Text
  import opened Documents

  // ---------------------------------------------------------------- line patterns

  /**
   * `^%macro\s+\w+\s+.*`, matched against the whole line: `%macro`, spaces,
   * a name, spaces, and anything up to the end of the line. Spaces and word
   * characters do not overlap, so each run is the longest one.
   */
  predicate MacroDefinitionLine(line: string)
  {
    && StartsWith(line, "%macro")
    && var a := 6 + SpaceRun(line, 6);
    && a > 6
    && var b := a + WordRun(line, a);
    && b > a
    && var c := b + SpaceRun(line, b);
    && c > b
    && AnyLineText(line[c..])
  }

  /** `\b` after a word character: the end of the line or a character that is not one. */
  predicate WordEnds(line: string, j: nat)
  {
    j >= |line| || !IsWordChar(line[j])
  }

  /** `^<directive>\b.*`, for a directive whose last character is a word character. */
  predicate DirectiveLine(line: string, directive: string)
  {
    StartsWith(line, directive) && WordEnds(line, |directive|) && AnyLineText(line[|directive|..])
  }

  /** The alternatives of `%(if|ifdef|…|iftoken)`. */
  const IfKeywords: set<string> :=
    {"if", "ifdef", "ifndef", "ifmacro", "ifnmacro", "ifctx", "ifnctx", "ifidn", "ifidni", "ifnum", "ifstr", "iftoken"}

  /**
   * `^%(if|ifdef|ifndef|ifmacro|ifnmacro|ifctx|ifnctx|ifidn|ifidni|ifnum|ifstr|iftoken)\b.*`
   * as the regex engine reads it: some alternative, then a word boundary,
   * then line text.
   */
  predicate IfAlternation(line: string)
  {
    exists k :: k in IfKeywords && DirectiveLine(line, "%" + k)
  }

  /** The word right after a leading `%`. */
  function DirectiveWord(line: string): string
  {
    if line == [] then [] else line[1..1 + WordRun(line, 1)]
  }

  /** An %if-family line: the word after the `%` is one of the alternatives, and the rest is line text. */
  predicate IfDirectiveLine(line: string)
  {
    && StartsWith(line, "%")
    && DirectiveWord(line) in IfKeywords
    && AnyLineText(line[1 + |DirectiveWord(line)|..])
  }

  /** `^%endmacro\b.*`. */
  predicate EndMacroLine(line: string)
  {
    DirectiveLine(line, "%endmacro")
  }

  /** `^%endif\b.*`. */
  predicate EndIfLine(line: string)
  {
    DirectiveLine(line, "%endif")
  }

  /**
   * Any line of the shape `%macro`, a non-empty run of spaces up to a, a
   * non-empty name up to b, a non-empty run of spaces up to c and line text
   * after it matches the macro regex.
   */
  lemma MacroDefinitionShape(line: string, a: nat, b: nat, c: nat)
    requires StartsWith(line, "%macro") && 6 < a < b < c <= |line|
    requires forall k :: 6 <= k < a ==> IsRegexSpace(line[k])
    requires forall k :: a <= k < b ==> IsWordChar(line[k])
    requires forall k :: b <= k < c ==> IsRegexSpace(line[k])
    requires c == |line| || !IsRegexSpace(line[c])
    requires AnyLineText(line[c..])
    ensures MacroDefinitionLine(line)
  {
    SpaceRunIs(line, 6, a - 6);
    WordRunIs(line, a, b - a);
    SpaceRunIs(line, b, c - b);
    MacroLineFromRuns(line, a, b, c);
  }

  lemma MacroLineFromRuns(line: string, a: nat, b: nat, c: nat)
    requires StartsWith(line, "%macro") && 6 < a < b < c <= |line|
    requires 6 + SpaceRun(line, 6) == a && a + WordRun(line, a) == b && b + SpaceRun(line, b) == c
    requires AnyLineText(line[c..])
    ensures MacroDefinitionLine(line)
  {
  }

  /** Every alternative is made of word characters. */
  lemma KeywordIsWord(k: string)
    requires k in IfKeywords
    ensures k != [] && forall j :: 0 <= j < |k| ==> IsWordChar(k[j])
  {
  }

  /**
   * Since every alternative is a word, a line matches the alternation exactly
   * when the word right after its `%` is one of the alternatives (and the
   * rest is line text): which alternative the regex tries first does not
   * matter.
   */
  lemma IfAlternationIsWord(line: string)
    ensures IfAlternation(line) <==> IfDirectiveLine(line)
  {
    if IfAlternation(line) {
      var k :| k in IfKeywords && DirectiveLine(line, "%" + k);
      AlternativeWord(line, k);
    }
    if IfDirectiveLine(line) {
      WordAlternative(line);
    }
  }

  lemma WordAlternative(line: string)
    requires IfDirectiveLine(line)
    ensures DirectiveLine(line, "%" + DirectiveWord(line))
  {
    var k := DirectiveWord(line);
    assert line[..1 + |k|] == "%" + k;
  }

  lemma AlternativeWord(line: string, k: string)
    requires k in IfKeywords && DirectiveLine(line, "%" + k)
    ensures DirectiveWord(line) == k
  {
    KeywordIsWord(k);
    assert forall j :: 1 <= j < 1 + |k| ==> line[j] == k[j - 1];
    WordRunIs(line, 1, |k|);
    assert line[1..1 + |k|] == k;
  }

  // ---------------------------------------------------------------- nesting

  /** The two kinds of block the handler closes. */
  datatype BlockKind = MacroBlock | IfBlock

  /** What a line, once trimmed, does to the nesting: the opener test comes first. */
  function Effect(kind: BlockKind, line: string): (e: int)
    ensures -1 <= e <= 1
  {
    var trimmed := Trim(line);
    if Opens(kind, trimmed) then 1 else if Closes(kind, trimmed) then -1 else 0
  }

  /** The line opens a block of the kind. */
  predicate Opens(kind: BlockKind, line: string)
  {
    match kind
    case MacroBlock => MacroDefinitionLine(line)
    case IfBlock => IfDirectiveLine(line)
  }

  /** The line closes a block of the kind. */
  predicate Closes(kind: BlockKind, line: string)
  {
    match kind
    case MacroBlock => EndMacroLine(line)
    case IfBlock => EndIfLine(line)
  }

  /** The directive that closes a block of the kind. */
  function Closing(kind: BlockKind): string
  {
    match kind
    case MacroBlock => "%endmacro"
    case IfBlock => "%endif"
  }

  /** The offset of the next `\n` from pos on, or the end of the text (`indexOf('\n', pos)`). */
  function LineEndFrom(text: string, pos: nat): (e: nat)
    requires pos <= |text|
    ensures pos <= e <= |text|
    ensures e < |text| ==> text[e] == '\n'
    ensures forall k :: pos <= k < e ==> text[k] != '\n'
    decreases |text| - pos
  {
    if pos == |text| || text[pos] == '\n' then pos else LineEndFrom(text, pos + 1)
  }

  /** The lines of the text from pos on, each up to its `\n`. */
  function LinesFrom(text: string, pos: nat): seq<string>
    decreases |text| - pos
  {
    if pos >= |text| then []
    else
      var e := LineEndFrom(text, pos);
      [text[pos..e]] + LinesFrom(text, e + 1)
  }

  /** The effect of each line on a block of the kind, as a function value. */
  function EffectOf(kind: BlockKind): string -> int
  {
    line => Effect(kind, line)
  }

  /** What each line does to the nesting, in order. */
  function Effects(effect: string -> int, lines: seq<string>): (r: seq<int>)
    ensures |r| == |lines|
  {
    if lines == [] then [] else [effect(lines[0])] + Effects(effect, lines[1..])
  }

  lemma {:induction false} EffectsAt(effect: string -> int, lines: seq<string>, k: nat)
    requires k < |lines|
    ensures Effects(effect, lines)[k] == effect(lines[k])
  {
    if k > 0 {
      EffectsAt(effect, lines[1..], k - 1);
    }
  }

  /** The nesting level after the first n effects, starting inside one block. */
  function Level(effects: seq<int>, n: nat): int
    requires n <= |effects|
  {
    if n == 0 then 1 else Level(effects, n - 1) + effects[n - 1]
  }

  /** The nesting level reaches zero after some line. */
  predicate ReachesZero(effects: seq<int>)
  {
    exists n :: 0 < n <= |effects| && Level(effects, n) == 0
  }

  /** The block is closed: the nesting level reaches zero after some line. */
  predicate Closed(kind: BlockKind, lines: seq<string>)
  {
    ReachesZero(Effects(EffectOf(kind), lines))
  }

  /**
   * The loop state over the lines from the scan's start and their effects:
   * n lines read, pos at the start of the next one, and the level still
   * positive before the last line read.
   */
  predicate Scanned(text: string, lines: seq<string>, effects: seq<int>, pos: nat, n: nat, level: int)
  {
    && |effects| == |lines| && n <= |lines|
    && LinesFrom(text, pos) == lines[n..]
    && level == Level(effects, n)
    && forall m :: 0 < m < n ==> Level(effects, m) > 0
  }

  /**
   * `hasMatchingEndMacro` and `hasMatchingEndIf`: reads the text line by line
   * from the end of the opening line, one level deeper for each opening line
   * and one level up for each closing line, until the level reaches zero or
   * the text ends.
   */
  method HasMatchingEnd(kind: BlockKind, text: string, start: nat) returns (r: bool)
    ensures r <==> Closed(kind, LinesFrom(text, start))
  {
    r := ScanNesting(text, start, EffectOf(kind));
  }

  /** The loop of both methods, over the effect a trimmed line has on the level. */
  method ScanNesting(text: string, start: nat, effect: string -> int) returns (r: bool)
    requires forall line :: -1 <= effect(line) <= 1
    ensures r <==> ReachesZero(Effects(effect, LinesFrom(text, start)))
  {
    ghost var lines := LinesFrom(text, start);
    ghost var effects := Effects(effect, lines);
    var nestLevel := 1;
    var pos := start;
    ghost var n := 0;
    while pos < |text| && nestLevel > 0
      invariant Scanned(text, lines, effects, pos, n, nestLevel) && nestLevel >= 0
      decreases |text| - pos
    {
      pos, nestLevel := ReadLine(text, effect, lines, effects, pos, n, nestLevel);
      n := n + 1;
    }
    r := nestLevel == 0;
    ScanDone(text, lines, effects, pos, n, nestLevel);
  }

  /** One iteration: the line from pos to the next `\n` moves the level. */
  method ReadLine(text: string, effect: string -> int, ghost lines: seq<string>, ghost effects: seq<int>,
                  pos: nat, ghost n: nat, level: int)
    returns (pos': nat, level': int)
    requires forall line :: -1 <= effect(line) <= 1
    requires effects == Effects(effect, lines)
    requires pos < |text| && level > 0 && Scanned(text, lines, effects, pos, n, level)
    ensures Scanned(text, lines, effects, pos', n + 1, level') && level' >= 0 && pos' > pos
  {
    var lineEnd := LineEndFrom(text, pos);
    var line := text[pos..lineEnd];
    ScanLine(text, lines, effects, pos, n, level);
    EffectsAt(effect, lines, n);
    level' := level + effect(line);
    pos' := lineEnd + 1;
  }

  lemma ScanDone(text: string, lines: seq<string>, effects: seq<int>, pos: nat, n: nat, level: int)
    requires Scanned(text, lines, effects, pos, n, level) && level >= 0
    requires pos >= |text| || level == 0
    ensures level == 0 <==> ReachesZero(effects)
  {
    if level != 0 {
      assert n == |effects|;
      assert forall m :: 0 < m <= |effects| ==> Level(effects, m) != 0;
    }
  }

  lemma ScanLine(text: string, lines: seq<string>, effects: seq<int>, pos: nat, n: nat, level: int)
    requires pos < |text| && level > 0 && Scanned(text, lines, effects, pos, n, level)
    ensures var e := LineEndFrom(text, pos);
      && n < |lines| && lines[n] == text[pos..e]
      && Scanned(text, lines, effects, e + 1, n + 1, level + effects[n])
  {
    var e := LineEndFrom(text, pos);
    LinesFromStep(text, pos);
    HeadOfSuffix(lines, n, text[pos..e], LinesFrom(text, e + 1));
  }

  /** The lines from pos on: the one up to the next `\n`, then the lines after it. */
  lemma LinesFromStep(text: string, pos: nat)
    requires pos < |text|
    ensures LinesFrom(text, pos) == [text[pos..LineEndFrom(text, pos)]] + LinesFrom(text, LineEndFrom(text, pos) + 1)
  {
  }

  lemma HeadOfSuffix<T>(s: seq<T>, n: nat, x: T, rest: seq<T>)
    requires n <= |s| && s[n..] == [x] + rest
    ensures n < |s| && s[n] == x && s[n + 1..] == rest
  {
    assert s[n..][0] == x;
    assert s[n + 1..] == s[n..][1..];
  }

  method HasMatchingEndMacro(text: string, macroLineEnd: nat) returns (r: bool)
    ensures r <==> Closed(MacroBlock, LinesFrom(text, macroLineEnd))
  {
    r := HasMatchingEnd(MacroBlock, text, macroLineEnd);
  }

  method HasMatchingEndIf(text: string, ifLineEnd: nat) returns (r: bool)
    ensures r <==> Closed(IfBlock, LinesFrom(text, ifLineEnd))
  {
    r := HasMatchingEnd(IfBlock, text, ifLineEnd);
  }

  /** A closing line (that does not also open a block) right below the opening line closes the block. */
  lemma ClosedByNextLine(kind: BlockKind, lines: seq<string>)
    requires lines != [] && Closes(kind, Trim(lines[0])) && !Opens(kind, Trim(lines[0]))
    ensures Closed(kind, lines)
  {
    EffectsAt(EffectOf(kind), lines, 0);
    assert Level(Effects(EffectOf(kind), lines), 1) == 0;
  }

  /** Without a closing line the level never drops below one: the block is never closed. */
  lemma {:induction false} NeverBelowOne(effects: seq<int>, n: nat)
    requires n <= |effects|
    requires forall k :: 0 <= k < |effects| ==> effects[k] >= 0
    ensures Level(effects, n) >= 1
  {
    if n > 0 {
      NeverBelowOne(effects, n - 1);
    }
  }

  lemma NeverClosed(kind: BlockKind, lines: seq<string>)
    requires forall k :: 0 <= k < |lines| ==> !Closes(kind, Trim(lines[k]))
    ensures !Closed(kind, lines)
  {
    var effects := Effects(EffectOf(kind), lines);
    forall k | 0 <= k < |effects|
      ensures effects[k] >= 0
    {
      EffectsAt(EffectOf(kind), lines, k);
    }
    forall n | 0 < n <= |effects|
      ensures Level(effects, n) != 0
    {
      NeverBelowOne(effects, n);
    }
  }

  // ---------------------------------------------------------------- indentation

  /** `getIndent`: the leading whitespace of the line, as much of it as there is. */
  method GetIndent(line: string) returns (indent: string)
    ensures |indent| <= |line| && indent == line[..|indent|]
    ensures forall k :: 0 <= k < |indent| ==> IsWhitespace(indent[k])
    ensures |indent| < |line| ==> !IsWhitespace(line[|indent|])
  {
    var i := 0;
    while i < |line| && IsWhitespace(line[i])
      invariant i <= |line|
      invariant forall k :: 0 <= k < i ==> IsWhitespace(line[k])
    {
      i := i + 1;
    }
    indent := line[..i];
  }

  /** The indentation as a value: the leading whitespace. */
  function Indent(line: string): (r: string)
    ensures |r| <= |line| && r == line[..|r|]
    ensures forall k :: 0 <= k < |r| ==> IsWhitespace(r[k])
    ensures |r| < |line| ==> !IsWhitespace(line[|r|])
  {
    line[..LeadingWhitespace(line)]
  }

  /** Two strings that are both the maximal whitespace prefix of the line are the same. */
  lemma IndentUnique(line: string, a: string, b: string)
    requires |a| <= |line| && a == line[..|a|] && (forall k :: 0 <= k < |a| ==> IsWhitespace(a[k])) && (|a| < |line| ==> !IsWhitespace(line[|a|]))
    requires |b| <= |line| && b == line[..|b|] && (forall k :: 0 <= k < |b| ==> IsWhitespace(b[k])) && (|b| < |line| ==> !IsWhitespace(line[|b|]))
    ensures a == b
  {
  }

  // ---------------------------------------------------------------- the handler

  /** `EnterHandlerDelegate.Result`. */
  datatype EnterResult = Continue | Stop

  /** What Enter inserts: the text, where it goes, and where the caret ends. */
  datatype Insertion = Insertion(at: nat, text: string, caret: nat)

  /** The line the caret left: the line above the caret's line. */
  function PreviousLine(text: string, offset: nat): (r: Option<(nat, nat)>)
    requires offset <= |text|
    ensures r.Some? <==> LineNumber(text, offset) > 0
    ensures r.Some? ==> r.value.0 <= r.value.1 < |text| && text[r.value.1] == '\n'
    ensures r.Some? ==> r.value.1 + 1 == LineStart(text, offset)
    ensures r.Some? ==> r.value.0 == LineStart(text, r.value.1)
  {
    LineStartSameLine(text, offset);
    match LastBreakBefore(text, offset)
    case None => None
    case Some(j) => Some((LineStart(text, j), j))
  }

  /**
   * The insertion for a block of the kind opened on the line from prevStart
   * to prevEnd: when the trimmed line opens such a block and the block is
   * not closed further down, the indentation, a line break, the indentation
   * and the closing directive go at the start of the next line, and the caret
   * goes after the first indentation.
   */
  function InsertionFor(kind: BlockKind, text: string, prevStart: nat, prevEnd: nat): (r: Option<Insertion>)
    requires prevStart <= prevEnd < |text|
  {
    var prevLine := text[prevStart..prevEnd];
    var indent := Indent(prevLine);
    if Opens(kind, Trim(prevLine)) && !Closed(kind, LinesFrom(text, prevEnd)) then
      Some(ClosingInsertion(prevEnd + 1, indent, Closing(kind)))
    else None
  }

  /**
   * The insertion `postProcessEnter` makes: none outside a NASM file or on
   * the first line; otherwise the one for a macro definition on the line
   * above, or else the one for an %if-family line there.
   */
  function PlannedInsertion(isNasmFile: bool, text: string, offset: nat): (r: Option<Insertion>)
    requires offset <= |text|
  {
    if !isNasmFile then None
    else match PreviousLine(text, offset)
      case None => None
      case Some((prevStart, prevEnd)) =>
        match InsertionFor(MacroBlock, text, prevStart, prevEnd)
        case Some(ins) => Some(ins)
        case None => InsertionFor(IfBlock, text, prevStart, prevEnd)
  }

  /**
   * The insertion of a closing directive at the start of a line: the
   * indentation, a line break, the indentation again and the directive, with
   * the caret after the first indentation.
   */
  function ClosingInsertion(at: nat, indent: string, closing: string): Insertion
  {
    Insertion(at, indent + "\n" + indent + closing, at + |indent|)
  }

  /** The text after an insertion. */
  function Apply(text: string, ins: Insertion): string
    requires ins.at <= |text|
  {
    text[..ins.at] + ins.text + text[ins.at..]
  }

  /**
   * An insertion goes right after the opening line, at the start of the next
   * line; afterwards the caret sits at the end of the indentation on a line
   * of its own, and the closing directive, indented alike, is on the line
   * below.
   */
  lemma InsertionShape(kind: BlockKind, text: string, prevStart: nat, prevEnd: nat)
    requires prevStart <= prevEnd < |text| && InsertionFor(kind, text, prevStart, prevEnd).Some?
    ensures InsertionFor(kind, text, prevStart, prevEnd).value
         == ClosingInsertion(prevEnd + 1, Indent(text[prevStart..prevEnd]), Closing(kind))
  {
  }

  /** The text of a closing insertion, laid out: indentation, line break, indentation and directive. */
  lemma ClosingLines(text: string, at: nat, indent: string, closing: string)
    requires at <= |text|
    ensures var ins := ClosingInsertion(at, indent, closing);
      var after := Apply(text, ins);
      && after[ins.at..ins.caret] == indent
      && after[ins.caret] == '\n'
      && after[ins.caret + 1..ins.at + |ins.text|] == indent + closing
  {
    var ins := ClosingInsertion(at, indent, closing);
    var after := Apply(text, ins);
    assert after[ins.at..ins.at + |ins.text|] == ins.text;
  }

  /** Nothing is inserted for a block that is already closed further down. */
  lemma NoInsertionWhenClosed(kind: BlockKind, text: string, prevStart: nat, prevEnd: nat)
    requires prevStart <= prevEnd < |text| && Closed(kind, LinesFrom(text, prevEnd))
    ensures InsertionFor(kind, text, prevStart, prevEnd).None?
  {
  }

  /** The editor's document text and caret. */
  class Editor {
    var text: string
    var caret: nat

    predicate Valid()
      reads this
    {
      caret <= |text|
    }

    constructor(text: string, caret: nat)
      requires caret <= |text|
      ensures Valid() && this.text == text && this.caret == caret
    {
      this.text := text;
      this.caret := caret;
    }

    /** `postProcessEnter`: makes the planned insertion, if any, and stops; otherwise changes nothing and continues. */
    method PostProcessEnter(isNasmFile: bool) returns (r: EnterResult)
      requires Valid()
      modifies this
      ensures Valid()
      ensures var ins := PlannedInsertion(isNasmFile, old(text), old(caret));
        && (r == Stop <==> ins.Some?)
        && (ins.Some? ==> ins.value.at <= |old(text)| && text == Apply(old(text), ins.value) && caret == ins.value.caret)
        && (ins.None? ==> text == old(text) && caret == old(caret))
    {
      if !isNasmFile {
        return Continue;
      }
      var prev := PreviousLine(text, caret);
      if prev.None? {
        return Continue;
      }
      var (prevStart, prevEnd) := prev.value;
      var done := InsertClosing(MacroBlock, prevStart, prevEnd);
      if done {
        return Stop;
      }
      done := InsertClosing(IfBlock, prevStart, prevEnd);
      if done {
        return Stop;
      }
      return Continue;
    }

    /** One of the two checks of `postProcessEnter`: inserts the closing directive of a block opened on the line above. */
    method InsertClosing(kind: BlockKind, prevStart: nat, prevEnd: nat) returns (done: bool)
      requires Valid() && prevStart <= prevEnd < |text|
      modifies this
      ensures Valid()
      ensures var ins := InsertionFor(kind, old(text), prevStart, prevEnd);
        && (done <==> ins.Some?)
        && (ins.Some? ==> ins.value.at <= |old(text)| && text == Apply(old(text), ins.value) && caret == ins.value.caret)
        && (ins.None? ==> text == old(text) && caret == old(caret))
    {
      var prevLine := text[prevStart..prevEnd];
      if !Opens(kind, Trim(prevLine)) {
        return false;
      }
      var closed := HasMatchingEnd(kind, text, prevEnd);
      if closed {
        return false;
      }
      var indent := GetIndent(prevLine);
      IndentUnique(prevLine, indent, Indent(prevLine));
      var currentLineStart := prevEnd + 1;
      InsertionShape(kind, text, prevStart, prevEnd);
      Insert(ClosingInsertion(currentLineStart, indent, Closing(kind)));
      return true;
    }

    /** Inserts the text at its offset and moves the caret where the insertion says. */
    method Insert(ins: Insertion)
      requires ins.at <= |text| && ins.caret <= |text| + |ins.text|
      modifies this
      ensures Valid() && text == Apply(old(text), ins) && caret == ins.caret
    {
      text := text[..ins.at] + ins.text + text[ins.at..];
      caret := ins.caret;
    }
  }
}
