// Reading NASM compilations out of the text a `make -nB` dry run prints.
// Running make is left to the caller; locating a source file is a parameter.
module MakeOutput {
  import opened Wrappers
  import opened Text
  import opened Seqs
  import opened Paths
  import opened CommandLine
  import opened CompilationInfo

  /** Make output quotes with either kind of quote mark, toggling one shared flag. */
  const MakeQuotes: set<char> := {'"', '\''}

  predicate MentionsNasm(token: string)
  {
    ContainsIgnoreCase(token, "nasm")
  }

  /** A source argument: not an option, and ending in `.asm` or `.nasm` in any case. */
  predicate IsSourceArg(arg: string)
  {
    !StartsWith(arg, "-") && (EndsWithIgnoreCase(arg, ".asm") || EndsWithIgnoreCase(arg, ".nasm"))
  }

  /** Index of the first token mentioning nasm (`indexOfFirst`). */
  function NasmIndex(tokens: seq<string>, from: nat): (r: Option<nat>)
    requires from <= |tokens|
    ensures r.Some? ==> from <= r.value < |tokens| && MentionsNasm(tokens[r.value])
    ensures forall j :: from <= j < |tokens| && (r.None? || j < r.value) ==> !MentionsNasm(tokens[j])
    decreases |tokens| - from
  {
    if from == |tokens| then None
    else if MentionsNasm(tokens[from]) then Some(from)
    else NasmIndex(tokens, from + 1)
  }

  /** The source file: the first argument that looks like one, if any. */
  function SourceFile(args: seq<string>): (r: Option<string>)
    ensures r.Some? ==> exists j :: 0 <= j < |args| && args[j] == r.value && IsSourceArg(r.value)
                          && forall k :: 0 <= k < j ==> !IsSourceArg(args[k])
    ensures r.None? <==> forall j :: 0 <= j < |args| ==> !IsSourceArg(args[j])
  {
    if args == [] then None
    else if IsSourceArg(args[0]) then Some(args[0])
    else
      var r := SourceFile(args[1..]);
      assert r.Some? ==> exists j :: 1 <= j < |args| && args[j] == r.value && forall k :: 0 <= k < j ==> !IsSourceArg(args[k]) by {
        if r.Some? {
          var j :| 0 <= j < |args[1..]| && args[1..][j] == r.value && IsSourceArg(r.value)
                   && forall k :: 0 <= k < j ==> !IsSourceArg(args[1..][k]);
          assert args[j + 1] == r.value;
          assert forall k :: 1 <= k < j + 1 ==> args[k] == args[1..][k - 1];
        }
      }
      assert r.None? ==> forall j :: 1 <= j < |args| ==> args[j] == args[1..][j - 1];
      r
  }

  /**
   * `parseNasmCommand` after tokenizing, given how source paths resolve:
   * arguments are the tokens after the nasm one; compiler arguments omit the source.
   */
  function NasmCommand(tokens: seq<string>, workingDirectory: string, resolve: string -> Option<string>): (r: Option<NasmCompilationInfo>)
  {
    match NasmIndex(tokens, 0)
    case None => None
    case Some(n) =>
      var arguments := tokens[n + 1..];
      match SourceFile(arguments)
      case None => None
      case Some(source) =>
        match resolve(source)
        case None => None
        case Some(file) =>
          var compilerArguments := Without(arguments, {source});
          Some(NasmCompilationInfo(file, Parse(workingDirectory), compilerArguments, OutputFile(compilerArguments)))
  }

  /** A command yields an info iff it has a nasm token, then a source argument, and the source resolves. */
  lemma NasmCommandSpec(tokens: seq<string>, workingDirectory: string, resolve: string -> Option<string>)
    ensures NasmIndex(tokens, 0).None? ==> NasmCommand(tokens, workingDirectory, resolve).None?
    ensures NasmCommand(tokens, workingDirectory, resolve).Some? ==>
              var n := NasmIndex(tokens, 0).value;
              var source := SourceFile(tokens[n + 1..]).value;
              var info := NasmCommand(tokens, workingDirectory, resolve).value;
              && Some(info.file) == resolve(source)
              && info.workingDirectory == Parse(workingDirectory)
              && source !in info.compilerArguments
              && (forall a :: a in info.compilerArguments <==> a in tokens[n + 1..] && a != source)
              && info.outputFile == OutputFile(info.compilerArguments)
  {
  }

  /** A dry-run line worth reading: not blank, not a `#` comment, and mentioning nasm. */
  predicate IsCandidate(trimmed: string)
  {
    trimmed != [] && !StartsWith(trimmed, "#") && ContainsIgnoreCase(trimmed, "nasm")
  }

  /** The compilations of the given lines, in order. */
  function LineEntries(lines: seq<string>, workingDirectory: string, resolve: string -> Option<string>): seq<(string, NasmCompilationInfo)>
    decreases |lines|
  {
    if lines == [] then []
    else
      var before := LineEntries(lines[..|lines| - 1], workingDirectory, resolve);
      var trimmed := Trim(lines[|lines| - 1]);
      if !IsCandidate(trimmed) then before
      else match NasmCommand(Tokens(trimmed, MakeQuotes), workingDirectory, resolve)
        case None => before
        case Some(info) => before + [(info.file, info)]
  }

  /** `parseMakeOutput`: each line's compilation is entered under its file, a later line replacing an earlier. */
  method ParseMakeOutput(output: string, workingDirectory: string, resolve: string -> Option<string>)
    returns (compilations: map<string, NasmCompilationInfo>)
    ensures compilations == MapOf(LineEntries(Lines(output), workingDirectory, resolve))
  {
    var lines := Lines(output);
    compilations := map[];
    for i := 0 to |lines|
      invariant compilations == MapOf(LineEntries(lines[..i], workingDirectory, resolve))
    {
      compilations := EnterLine(compilations, lines, i, workingDirectory, resolve);
    }
    assert lines[..|lines|] == lines;
  }

  /** One line of `parseMakeOutput`'s loop: a nasm command line enters its compilation. */
  method EnterLine(compilations: map<string, NasmCompilationInfo>, lines: seq<string>, i: nat,
                   workingDirectory: string, resolve: string -> Option<string>)
    returns (r: map<string, NasmCompilationInfo>)
    requires i < |lines|
    requires compilations == MapOf(LineEntries(lines[..i], workingDirectory, resolve))
    ensures r == MapOf(LineEntries(lines[..i + 1], workingDirectory, resolve))
  {
    ghost var done := lines[..i];
    assert lines[..i + 1][..i] == done;
    r := compilations;
    var trimmed := Trim(lines[i]);
    if trimmed == [] || StartsWith(trimmed, "#") {
      return;
    }
    if !ContainsIgnoreCase(trimmed, "nasm") {
      return;
    }
    var tokens := Tokenize(trimmed, MakeQuotes);
    var info := NasmCommand(tokens, workingDirectory, resolve);
    if info.Some? {
      MapOfSnoc(LineEntries(done, workingDirectory, resolve), info.value.file, info.value);
      r := compilations[info.value.file := info.value];
    }
  }

  /** Skipped lines contribute nothing: an entry needs a candidate line. */
  lemma SkippedLine(lines: seq<string>, line: string, workingDirectory: string, resolve: string -> Option<string>)
    requires !IsCandidate(Trim(line))
    ensures LineEntries(lines + [line], workingDirectory, resolve) == LineEntries(lines, workingDirectory, resolve)
  {
    assert (lines + [line])[..|lines|] == lines;
  }

  /** Of two lines compiling the same file, the later one's result is kept. */
  lemma LaterLineWins(lines: seq<string>, workingDirectory: string, resolve: string -> Option<string>, i: nat)
    requires i < |LineEntries(lines, workingDirectory, resolve)|
    requires forall j :: i < j < |LineEntries(lines, workingDirectory, resolve)| ==>
               LineEntries(lines, workingDirectory, resolve)[j].0 != LineEntries(lines, workingDirectory, resolve)[i].0
    ensures LineEntries(lines, workingDirectory, resolve)[i].0 in MapOf(LineEntries(lines, workingDirectory, resolve))
    ensures MapOf(LineEntries(lines, workingDirectory, resolve))[LineEntries(lines, workingDirectory, resolve)[i].0]
            == LineEntries(lines, workingDirectory, resolve)[i].1
  {
    MapOfLaterWins(LineEntries(lines, workingDirectory, resolve), i);
  }
}
