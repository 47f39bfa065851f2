// Command-line handling shared by the compilation-database and make-output
// readers: splitting a command string into arguments, and the `-o` flag.
module CommandLine {
  import opened Wrappers
  import opened Text
  import Paths

  // The tokenizer's state after some prefix of the command.
  datatype TokState = TokState(tokens: seq<string>, current: string, inQuotes: bool, escapeNext: bool)

  const Start := TokState([], [], false, false)

  /** One character: escaped, escape, quote toggle, unquoted whitespace separator, or plain. */
  function Step(st: TokState, c: char, quotes: set<char>): TokState
  {
    if st.escapeNext then st.(current := st.current + [c], escapeNext := false)
    else if c == '\\' then st.(escapeNext := true)
    else if c in quotes then st.(inQuotes := !st.inQuotes)
    else if IsWhitespace(c) && !st.inQuotes then
      if st.current != [] then st.(tokens := st.tokens + [st.current], current := []) else st
    else st.(current := st.current + [c])
  }

  function Run(s: string, quotes: set<char>): TokState
    decreases |s|
  {
    if s == [] then Start else Step(Run(s[..|s| - 1], quotes), s[|s| - 1], quotes)
  }

  function Finish(st: TokState): seq<string>
  {
    if st.current != [] then st.tokens + [st.current] else st.tokens
  }

  /**
   * The arguments of a command string.  Double quotes (and, where `quotes`
   * holds it too, single quotes) toggle one shared quoting flag and are
   * dropped; a backslash is dropped and the next character is kept as is.
   */
  function Tokens(command: string, quotes: set<char>): seq<string>
  {
    Finish(Run(command, quotes))
  }

  /** The loop of `parseCommandString` / `tokenizeCommandLine`. */
  method Tokenize(command: string, quotes: set<char>) returns (args: seq<string>)
    ensures args == Tokens(command, quotes)
  {
    var tokens: seq<string> := [];
    var current: string := [];
    var inQuotes := false;
    var escapeNext := false;
    for i := 0 to |command|
      invariant TokState(tokens, current, inQuotes, escapeNext) == Run(command[..i], quotes)
    {
      var c := command[i];
      assert command[..i + 1][..i] == command[..i];
      if escapeNext {
        current := current + [c];
        escapeNext := false;
      } else if c == '\\' {
        escapeNext := true;
      } else if c in quotes {
        inQuotes := !inQuotes;
      } else if IsWhitespace(c) && !inQuotes {
        if current != [] {
          tokens := tokens + [current];
          current := [];
        }
      } else {
        current := current + [c];
      }
    }
    assert command[..|command|] == command;
    if current != [] {
      tokens := tokens + [current];
    }
    args := tokens;
  }

  predicate AllNonEmpty(ts: seq<string>)
  {
    forall i :: 0 <= i < |ts| ==> ts[i] != []
  }

  lemma {:induction false} RunNonEmpty(s: string, quotes: set<char>)
    ensures AllNonEmpty(Run(s, quotes).tokens)
    decreases |s|
  {
    if s != [] {
      RunNonEmpty(s[..|s| - 1], quotes);
    }
  }

  /** No argument is ever empty. */
  lemma TokensNonEmpty(command: string, quotes: set<char>)
    ensures forall i :: 0 <= i < |Tokens(command, quotes)| ==> Tokens(command, quotes)[i] != []
  {
    RunNonEmpty(command, quotes);
  }

  predicate CharsFreeOf(t: string, bad: set<char>)
  {
    forall j :: 0 <= j < |t| ==> t[j] !in bad
  }

  predicate FreeOf(ts: seq<string>, bad: set<char>)
  {
    forall i :: 0 <= i < |ts| ==> CharsFreeOf(ts[i], bad)
  }

  lemma {:induction false} RunWithoutEscapes(s: string, quotes: set<char>)
    requires '\\' !in s
    ensures !Run(s, quotes).escapeNext
    ensures FreeOf(Run(s, quotes).tokens, quotes + {'\\'})
    ensures CharsFreeOf(Run(s, quotes).current, quotes + {'\\'})
    decreases |s|
  {
    if s != [] {
      assert s[|s| - 1] in s;
      assert forall c :: c in s[..|s| - 1] ==> c in s;
      RunWithoutEscapes(s[..|s| - 1], quotes);
    }
  }

  /** Without backslashes, quote characters never reach an argument: they only toggle quoting. */
  lemma QuotesDropped(command: string, quotes: set<char>)
    requires '\\' !in command
    ensures FreeOf(Tokens(command, quotes), quotes + {'\\'})
  {
    RunWithoutEscapes(command, quotes);
  }

  lemma {:induction false} RunPlain(s: string, quotes: set<char>)
    requires '\\' !in s
    requires forall c :: c in s ==> c !in quotes
    ensures !Run(s, quotes).escapeNext && !Run(s, quotes).inQuotes
    ensures forall i, j :: 0 <= i < |Run(s, quotes).tokens| && 0 <= j < |Run(s, quotes).tokens[i]| ==> !IsWhitespace(Run(s, quotes).tokens[i][j])
    ensures forall j :: 0 <= j < |Run(s, quotes).current| ==> !IsWhitespace(Run(s, quotes).current[j])
    ensures Concat(Run(s, quotes).tokens) + Run(s, quotes).current == NonWhitespace(s)
    decreases |s|
  {
    if s != [] {
      var p := s[..|s| - 1];
      var c := s[|s| - 1];
      assert s == p + [c];
      assert c in s;
      assert forall x :: x in p ==> x in s;
      RunPlain(p, quotes);
      NonWhitespaceAppend(p, c);
      var st := Run(p, quotes);
      if IsWhitespace(c) && st.current != [] {
        ConcatAppend(st.tokens, st.current);
      }
    }
  }

  /**
   * Without backslashes and quotes the arguments are the whitespace-separated
   * words: no argument holds whitespace, and together they are the text minus its whitespace.
   */
  lemma PlainTokens(command: string, quotes: set<char>)
    requires '\\' !in command
    requires forall c :: c in command ==> c !in quotes
    ensures forall i, j :: 0 <= i < |Tokens(command, quotes)| && 0 <= j < |Tokens(command, quotes)[i]| ==> !IsWhitespace(Tokens(command, quotes)[i][j])
    ensures Concat(Tokens(command, quotes)) == NonWhitespace(command)
  {
    RunPlain(command, quotes);
    var st := Run(command, quotes);
    if st.current != [] {
      ConcatAppend(st.tokens, st.current);
    }
  }

  lemma RunSnoc(s: string, c: char, quotes: set<char>)
    ensures Run(s + [c], quotes) == Step(Run(s, quotes), c, quotes)
  {
    assert (s + [c])[..|s|] == s;
  }

  lemma NotWhitespace()
    ensures !IsWhitespace('\'') && !IsWhitespace('a') && !IsWhitespace('b') && !IsWhitespace('\\') && IsWhitespace(' ')
  {
  }

  /** Single quotes do not delimit a quoted run when only double quotes are quote characters. */
  lemma SingleQuotesPlain()
    ensures Tokens("'a b'", {'"'}) == ["'a", "b'"]
  {
    var d: set<char> := {'"'};
    assert Run("", d) == Start;
    NotWhitespace();
    RunSnoc("", '\'', d);
    assert "" + ['\''] == "'";
    assert Step(Start, '\'', d) == TokState([], [] + ['\''], false, false);
    assert Run("'", d) == TokState([], "'", false, false);
    RunSnoc("'", 'a', d);
    assert "'" + ['a'] == "'a";
    assert Run("'a", d) == TokState([], "'a", false, false);
    RunSnoc("'a", ' ', d);
    assert "'a" + [' '] == "'a ";
    assert Run("'a ", d) == TokState(["'a"], "", false, false);
    RunSnoc("'a ", 'b', d);
    assert "'a " + ['b'] == "'a b";
    assert Run("'a b", d) == TokState(["'a"], "b", false, false);
    RunSnoc("'a b", '\'', d);
    assert "'a b" + ['\''] == "'a b'";
    assert Run("'a b'", d) == TokState(["'a"], "b'", false, false);
  }

  /** With single quotes as quote characters, as for make output, a quoted run keeps its space. */
  lemma SingleQuotesDelimit()
    ensures Tokens("'a b'", {'"', '\''}) == ["a b"]
  {
    var m: set<char> := {'"', '\''};
    assert Run("", m) == Start;
    NotWhitespace();
    RunSnoc("", '\'', m);
    assert "" + ['\''] == "'";
    assert Run("'", m) == TokState([], "", true, false);
    RunSnoc("'", 'a', m);
    assert "'" + ['a'] == "'a";
    assert Run("'a", m) == TokState([], "a", true, false);
    RunSnoc("'a", ' ', m);
    assert "'a" + [' '] == "'a ";
    assert Run("'a ", m) == TokState([], "a ", true, false);
    RunSnoc("'a ", 'b', m);
    assert "'a " + ['b'] == "'a b";
    assert Run("'a b", m) == TokState([], "a b", true, false);
    RunSnoc("'a b", '\'', m);
    assert "'a b" + ['\''] == "'a b'";
    assert Run("'a b'", m) == TokState([], "a b", false, false);
  }

  /** A backslash protects the next character, here a space. */
  lemma EscapeExample()
    ensures Tokens("a\\ b", {'"'}) == ["a b"]
  {
    var d: set<char> := {'"'};
    NotWhitespace();
    var s1 := ['a'];
    var s2 := s1 + ['\\'];
    var s3 := s2 + [' '];
    var s4 := s3 + ['b'];
    RunSnoc([], 'a', d);
    assert [] + ['a'] == s1;
    assert Run(s1, d) == TokState([], ['a'], false, false);
    RunSnoc(s1, '\\', d);
    assert Run(s2, d) == TokState([], ['a'], false, true);
    RunSnoc(s2, ' ', d);
    assert Run(s3, d) == TokState([], ['a', ' '], false, false);
    RunSnoc(s3, 'b', d);
    assert Run(s4, d) == TokState([], ['a', ' ', 'b'], false, false);
    assert s4 == "a\\ b";
  }

  /** `-o<file>` with something after the flag, or `-o <file>` with a next argument. */
  predicate IsOutputFlagAt(args: seq<string>, j: int)
    requires 0 <= j < |args|
  {
    (StartsWith(args[j], "-o") && |args[j]| > 2) || (args[j] == "-o" && j + 1 < |args|)
  }

  function OutputAt(args: seq<string>, j: int): string
    requires 0 <= j < |args|
  {
    if StartsWith(args[j], "-o") && |args[j]| > 2 then args[j][2..]
    else if j + 1 < |args| then args[j + 1]
    else ""
  }

  /** Index of the first `-o` flag at or after `from`. */
  function FirstOutputFlag(args: seq<string>, from: nat): (r: Option<nat>)
    requires from <= |args|
    ensures r.Some? ==> from <= r.value < |args| && IsOutputFlagAt(args, r.value)
    ensures forall k :: from <= k < |args| && (r.None? || k < r.value) ==> !IsOutputFlagAt(args, k)
    decreases |args| - from
  {
    if from == |args| then None
    else if IsOutputFlagAt(args, from) then Some(from)
    else FirstOutputFlag(args, from + 1)
  }

  /** The output file: the first `-o` occurrence, joined or separate, or none. */
  function OutputFile(args: seq<string>): (r: Option<Paths.Path>)
    ensures r.None? <==> forall j :: 0 <= j < |args| ==> !IsOutputFlagAt(args, j)
    ensures r.Some? ==> exists j :: 0 <= j < |args| && IsOutputFlagAt(args, j)
                          && (forall k :: 0 <= k < j ==> !IsOutputFlagAt(args, k))
                          && r.value == Paths.Parse(OutputAt(args, j))
  {
    match FirstOutputFlag(args, 0)
    case None => None
    case Some(j) => Some(Paths.Parse(OutputAt(args, j)))
  }

  /** The `extractOutputFile` loop. */
  method ExtractOutputFile(args: seq<string>) returns (r: Option<Paths.Path>)
    ensures r == OutputFile(args)
  {
    var i := 0;
    while i < |args|
      invariant 0 <= i <= |args|
      invariant FirstOutputFlag(args, 0) == FirstOutputFlag(args, i)
    {
      var arg := args[i];
      if StartsWith(arg, "-o") && |arg| > 2 {
        return Some(Paths.Parse(arg[2..]));
      } else if arg == "-o" && i + 1 < |args| {
        return Some(Paths.Parse(args[i + 1]));
      }
      i := i + 1;
    }
    return None;
  }
}
