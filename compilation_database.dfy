// Reading NASM entries out of a `compile_commands.json` compilation database.
// The JSON text is taken as already decoded into entries; locating a source
// file on disk is a parameter.
module CompilationDatabase {
  import opened Wrappers
  import opened Text
  import opened Seqs
  import opened Paths
  import opened CommandLine
  import opened CompilationInfo

  /** One entry of the database. */
  datatype CompileCommand = CompileCommand(
    directory: string,
    command: Option<string>,
    arguments: Option<seq<string>>,
    file: string,
    output: Option<string>)

  /** The path without its trailing `/`s, as `java.io.File` normalizes it. */
  function StripTrailingSlashes(path: string): (r: string)
    ensures |r| <= |path| && r == path[..|r|]
    ensures forall k :: |r| <= k < |path| ==> path[k] == '/'
    ensures r == [] || r[|r| - 1] != '/'
    decreases |path|
  {
    if path != [] && path[|path| - 1] == '/' then StripTrailingSlashes(path[..|path| - 1]) else path
  }

  /** The text after the last `/`. */
  function LastSegment(path: string): (r: string)
    ensures '/' !in r
    ensures EndsWith(path, r)
    ensures r != path ==> EndsWith(path, "/" + r)
    ensures path != [] && path[|path| - 1] != '/' ==> r != []
    decreases |path|
  {
    if path == [] then []
    else if path[|path| - 1] == '/' then []
    else
      var r := LastSegment(path[..|path| - 1]);
      if r == path[..|path| - 1] then path
      else r + [path[|path| - 1]]
  }

  /**
   * `File(path).name`: the last segment of the path once trailing `/`s are
   * dropped; it is empty only for a path made of `/`s.
   */
  function FileName(path: string): (r: string)
    ensures '/' !in r
    ensures EndsWith(StripTrailingSlashes(path), r)
    ensures r != StripTrailingSlashes(path) ==> EndsWith(StripTrailingSlashes(path), "/" + r)
    ensures r == [] <==> forall k :: 0 <= k < |path| ==> path[k] == '/'
  {
    var stripped := StripTrailingSlashes(path);
    assert stripped == [] ==> forall k :: 0 <= k < |path| ==> path[k] == '/';
    assert stripped != [] ==> path[|stripped| - 1] == stripped[|stripped| - 1];
    LastSegment(stripped)
  }

  lemma {:induction false} LastSegmentWhole(s: string)
    requires '/' !in s
    ensures LastSegment(s) == s
    decreases |s|
  {
    if s != [] {
      var init := s[..|s| - 1];
      assert '/' !in init by {
        assert forall c :: c in init ==> c in s;
      }
      LastSegmentWhole(init);
    }
  }

  /** A file name followed by `/` still names that file. */
  lemma DirectoryName(name: string)
    requires name != [] && '/' !in name
    ensures FileName(name + "/") == name
  {
    var path := name + "/";
    assert path[..|path| - 1] == name;
    assert name[|name| - 1] in name;
    assert StripTrailingSlashes(path) == name;
    LastSegmentWhole(name);
  }

  /** A path `base.ext/` names `base.ext`, with extension `ext`: a trailing `/` does not hide the extension. */
  lemma TrailingSlashExtension(base: string, ext: string)
    requires '/' !in base && '/' !in ext && '.' !in ext
    ensures FileName(base + "." + ext + "/") == base + "." + ext
    ensures Extension(base + "." + ext + "/") == ext
  {
    var name := base + "." + ext;
    assert '/' !in name by {
      assert forall c :: c in name ==> c in base || c == '.' || c in ext;
    }
    DirectoryName(name);
    LastIndexOfAt(base, '.', ext);
    assert name[|base| + 1..] == ext;
  }

  /** The last `c` of `a + [c] + b` is the one after `a` when `b` has none. */
  lemma {:induction false} LastIndexOfAt(a: string, c: char, b: string)
    requires c !in b
    ensures LastIndexOf(a + [c] + b, c) == Some(|a|)
    decreases |b|
  {
    var s := a + [c] + b;
    if b != [] {
      var init := b[..|b| - 1];
      assert b[|b| - 1] in b;
      assert s[..|s| - 1] == a + [c] + init;
      assert c !in init by {
        assert forall x :: x in init ==> x in b;
      }
      LastIndexOfAt(a, c, init);
    }
  }

  /** `File.extension`: the text after the last `.` of the name, or "" without a dot. */
  function Extension(path: string): (r: string)
    ensures '.' !in r && '/' !in r
    ensures r != [] ==> EndsWith(FileName(path), "." + r)
  {
    NameExtension(FileName(path))
  }

  /** The text after the last `.` of a file name. */
  function NameExtension(name: string): (r: string)
    requires '/' !in name
    ensures '.' !in r && '/' !in r
    ensures r != [] ==> EndsWith(name, "." + r)
  {
    var k := LastIndexOf(name, '.');
    if k.None? then []
    else
      AfterDot(name, k.value);
      name[k.value + 1..]
  }

  lemma AfterDot(name: string, k: nat)
    requires k < |name| && name[k] == '.' && '/' !in name
    ensures '/' !in name[k + 1..]
    ensures EndsWith(name, "." + name[k + 1..])
  {
    var r := name[k + 1..];
    assert name[|name| - |"." + r|..] == name[k..] == "." + r;
    forall c | c in r
      ensures c in name
    {
      var j :| 0 <= j < |r| && r[j] == c;
      assert name[k + 1 + j] == c;
    }
  }

  /** Index of the last occurrence of `c`. */
  function LastIndexOf(s: string, c: char): (r: Option<nat>)
    ensures r.Some? ==> r.value < |s| && s[r.value] == c && c !in s[r.value + 1..]
    ensures r.None? ==> c !in s
    decreases |s|
  {
    if s == [] then None
    else if s[|s| - 1] == c then Some(|s| - 1)
    else
      var r := LastIndexOf(s[..|s| - 1], c);
      assert r.Some? ==> s[r.value + 1..] == s[..|s| - 1][r.value + 1..] + [s[|s| - 1]];
      assert r.None? ==> s == s[..|s| - 1] + [s[|s| - 1]];
      r
  }

  /** The command line as a string: the command, else the arguments joined by spaces, else "". */
  function CommandLineText(entry: CompileCommand): string
  {
    match entry.command
    case Some(c) => c
    case None => match entry.arguments
      case Some(args) => JoinWith(args, " ")
      case None => ""
  }

  /** `isNasmCompilation`. */
  predicate IsNasmCompilation(entry: CompileCommand)
  {
    var extension := Lower(Extension(entry.file));
    if extension != "asm" && extension != "nasm" then false
    else ContainsIgnoreCase(CommandLineText(entry), "nasm")
  }

  predicate MentionsNasm(arg: string)
  {
    ContainsIgnoreCase(arg, "nasm")
  }

  /** `dropWhile { !mentions nasm }.drop(1)`: what follows the first argument mentioning nasm. */
  function AfterCompiler(args: seq<string>): (r: seq<string>)
    ensures (forall i :: 0 <= i < |args| ==> !MentionsNasm(args[i])) ==> r == []
    ensures forall i :: 0 <= i < |args| && MentionsNasm(args[i]) && (forall j :: 0 <= j < i ==> !MentionsNasm(args[j]))
              ==> r == args[i + 1..]
    decreases |args|
  {
    if args == [] then []
    else if MentionsNasm(args[0]) then args[1..]
    else
      var r := AfterCompiler(args[1..]);
      assert forall i :: 1 <= i < |args| ==> args[i + 1..] == args[1..][i..];
      r
  }

  /** The arguments: the list when the entry has one, else the tokenized command string. */
  function EntryArguments(entry: CompileCommand): seq<string>
  {
    match entry.arguments
    case Some(args) => args
    case None => Tokens(entry.command.GetOr(""), {'"'})
  }

  /**
   * `parseNasmEntry`, given where the source file was found (`None` when it
   * could not be resolved): compiler arguments follow the nasm executable and
   * omit the source file; an explicit output wins over a `-o` flag.
   */
  function ParseNasmEntry(entry: CompileCommand, sourcePath: Option<string>): (r: Option<NasmCompilationInfo>)
    ensures r.Some? <==> sourcePath.Some?
    ensures r.Some? ==> r.value.file == sourcePath.value
  {
    match sourcePath
    case None => None
    case Some(source) =>
      var compilerArguments := Without(AfterCompiler(EntryArguments(entry)), {entry.file, source});
      var outputFile := if entry.output.Some? then Some(Parse(entry.output.value)) else OutputFile(compilerArguments);
      Some(NasmCompilationInfo(source, Parse(entry.directory), compilerArguments, outputFile))
  }

  /**
   * An entry whose file was found gives an info for that file; its compiler
   * arguments are exactly what follows the executable minus the source file,
   * and an explicit output wins over a `-o` flag.
   */
  lemma ParseNasmEntrySpec(entry: CompileCommand, sourcePath: Option<string>)
    ensures sourcePath.None? <==> ParseNasmEntry(entry, sourcePath).None?
    ensures ParseNasmEntry(entry, sourcePath).Some? ==>
              var info := ParseNasmEntry(entry, sourcePath).value;
              && info.file == sourcePath.value
              && info.workingDirectory == Parse(entry.directory)
              && (forall a :: a in info.compilerArguments <==> a in AfterCompiler(EntryArguments(entry)) && a != entry.file && a != sourcePath.value)
              && (entry.output.Some? ==> info.outputFile == Some(Parse(entry.output.value)))
              && (entry.output.None? ==> info.outputFile == OutputFile(info.compilerArguments))
  {
  }

  /** Nothing before the nasm executable, nor the executable itself, is a compiler argument. */
  lemma CompilerArgumentsFollowExecutable(args: seq<string>, i: nat)
    requires i < |args| && MentionsNasm(args[i])
    requires forall j :: 0 <= j < i ==> !MentionsNasm(args[j])
    ensures AfterCompiler(args) == args[i + 1..]
  {
  }

  predicate KeyedByFile(found: seq<(string, NasmCompilationInfo)>)
  {
    forall k :: 0 <= k < |found| ==> found[k].0 == found[k].1.file
  }

  /** The entries that are NASM compilations and whose source file can be found, in order, each keyed by its own source file. */
  function NasmEntries(entries: seq<CompileCommand>, resolve: (string, string) -> Option<string>): (r: seq<(string, NasmCompilationInfo)>)
    ensures KeyedByFile(r)
  {
    if entries == [] then []
    else
      var rest := NasmEntries(entries[1..], resolve);
      var e := entries[0];
      if IsNasmCompilation(e) then
        match ParseNasmEntry(e, resolve(e.file, e.directory))
        case Some(info) =>
          KeyedCons(info, rest);
          [(info.file, info)] + rest
        case None => rest
      else rest
  }

  lemma KeyedCons(info: NasmCompilationInfo, rest: seq<(string, NasmCompilationInfo)>)
    requires KeyedByFile(rest)
    ensures KeyedByFile([(info.file, info)] + rest)
  {
    var s := [(info.file, info)] + rest;
    assert forall k :: 1 <= k < |s| ==> s[k] == rest[k - 1];
  }

  /** `parse` on decoded entries: the entries keyed by file, a later one replacing an earlier; none gives `None`. */
  function ParseDatabase(entries: seq<CompileCommand>, resolve: (string, string) -> Option<string>): (r: Option<NasmProjectCompilationInfo>)
    ensures r.None? <==> NasmEntries(entries, resolve) == []
    ensures r.Some? ==> r.value.compilations == MapOf(NasmEntries(entries, resolve))
  {
    var found := NasmEntries(entries, resolve);
    var compilations := MapOf(found);
    MapOfDomain(found);
    assert found != [] ==> found[0].0 in compilations;
    if compilations == map[] then None
    else Some(NasmProjectCompilationInfo(compilations))
  }
}
