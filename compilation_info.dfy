// Compilation information for one NASM source file, and the include
// directories and macro definitions read from its compiler arguments.
module CompilationInfo {
  import opened Wrappers
  import opened Text
  import opened Seqs
  import opened Paths
  import LinkedMaps

  datatype NasmCompilationInfo = NasmCompilationInfo(
    file: string,
    workingDirectory: Path,
    compilerArguments: seq<string>,
    outputFile: Option<Path>)

  /** All compilations of a project, keyed by source file. */
  datatype NasmProjectCompilationInfo = NasmProjectCompilationInfo(compilations: map<string, NasmCompilationInfo>)
  {
    /** `getCompilationInfo`: the entry for the file, if the project compiles it. */
    function GetCompilationInfo(file: string): (r: Option<NasmCompilationInfo>)
      ensures r.Some? <==> file in compilations
      ensures r.Some? ==> r.value == compilations[file] && r.value.compilerArguments == compilations[file].compilerArguments
    {
      if file in compilations then Some(compilations[file]) else None
    }

    function CompiledFiles(): (r: set<string>)
      ensures forall f :: f in r <==> GetCompilationInfo(f).Some?
    {
      compilations.Keys
    }
  }

  /** `resolveToAbsolute`: normalized, and relative paths are first put under the working directory. */
  function ResolveToAbsolute(path: Path, workingDir: Path): (r: Path)
    ensures Normalized(r)
    ensures r.absolute <==> path.absolute || workingDir.absolute
    ensures ValidPath(path) && ValidPath(workingDir) ==> ValidPath(r)
    ensures path.absolute ==> r == Normalize(path)
  {
    if path.absolute then Normalize(path) else Normalize(Resolve(workingDir, path))
  }

  predicate IsIncludeFlag(arg: string)
  {
    arg == "-I" || arg == "-i"
  }

  /** `-I<path>` or `-i<path>`: the flag glued to a non-empty path. */
  predicate IsJoinedInclude(arg: string)
  {
    (StartsWith(arg, "-I") && |arg| > 2) || (StartsWith(arg, "-i") && |arg| > 2)
  }

  /** The include directories named by `args[i..]`, in argument order, before deduplication. */
  function IncludeDirsFrom(args: seq<string>, i: nat, workingDir: Path): (r: seq<Path>)
    requires i <= |args|
    decreases |args| - i
  {
    if i == |args| then []
    else if IsJoinedInclude(args[i]) then [ResolveToAbsolute(Parse(args[i][2..]), workingDir)] + IncludeDirsFrom(args, i + 1, workingDir)
    else if IsIncludeFlag(args[i]) && i + 1 < |args| then [ResolveToAbsolute(Parse(args[i + 1]), workingDir)] + IncludeDirsFrom(args, i + 2, workingDir)
    else IncludeDirsFrom(args, i + 1, workingDir)
  }

  /** The `extractIncludePaths` loop, with the insertion-ordered set as a list without repeats. */
  method ExtractIncludePaths(args: seq<string>, workingDir: Path) returns (paths: seq<Path>)
    ensures paths == Distinct(IncludeDirsFrom(args, 0, workingDir))
  {
    paths := [];
    ghost var collected: seq<Path> := [];
    var i := 0;
    while i < |args|
      invariant 0 <= i <= |args|
      invariant collected + IncludeDirsFrom(args, i, workingDir) == IncludeDirsFrom(args, 0, workingDir)
      invariant paths == Distinct(collected)
      decreases |args| - i
    {
      var arg := args[i];
      if IsJoinedInclude(arg) {
        var p := ResolveToAbsolute(Parse(arg[2..]), workingDir);
        assert IncludeDirsFrom(args, i, workingDir) == [p] + IncludeDirsFrom(args, i + 1, workingDir);
        Regroup(collected, p, IncludeDirsFrom(args, i + 1, workingDir));
        paths := AddPath(paths, collected, p);
        collected := collected + [p];
      } else if IsIncludeFlag(arg) && i + 1 < |args| {
        var p := ResolveToAbsolute(Parse(args[i + 1]), workingDir);
        assert IncludeDirsFrom(args, i, workingDir) == [p] + IncludeDirsFrom(args, i + 2, workingDir);
        Regroup(collected, p, IncludeDirsFrom(args, i + 2, workingDir));
        paths := AddPath(paths, collected, p);
        collected := collected + [p];
        i := i + 1; // the path argument
      }
      i := i + 1;
    }
    assert collected + [] == collected;
  }

  lemma Regroup<T>(a: seq<T>, x: T, b: seq<T>)
    ensures a + ([x] + b) == (a + [x]) + b
  {
  }

  /** One insertion into the ordered set: skipped when the path is already there. */
  method AddPath(paths: seq<Path>, ghost collected: seq<Path>, p: Path) returns (r: seq<Path>)
    requires paths == Distinct(collected)
    ensures r == Distinct(collected + [p])
  {
    DistinctSnoc(collected, p);
    DistinctSpec(collected);
    if p in paths {
      r := paths;
    } else {
      r := paths + [p];
    }
  }

  lemma {:induction false} IncludeDirsNormalized(args: seq<string>, i: nat, workingDir: Path)
    requires i <= |args|
    ensures forall k :: 0 <= k < |IncludeDirsFrom(args, i, workingDir)| ==> Normalized(IncludeDirsFrom(args, i, workingDir)[k])
    ensures workingDir.absolute ==> forall k :: 0 <= k < |IncludeDirsFrom(args, i, workingDir)| ==> IncludeDirsFrom(args, i, workingDir)[k].absolute
    decreases |args| - i
  {
    if i < |args| {
      if IsJoinedInclude(args[i]) {
        IncludeDirsNormalized(args, i + 1, workingDir);
      } else if IsIncludeFlag(args[i]) && i + 1 < |args| {
        IncludeDirsNormalized(args, i + 2, workingDir);
      } else {
        IncludeDirsNormalized(args, i + 1, workingDir);
      }
    }
  }

  /** The include paths are normalized, repeat-free, and exactly the directories the flags name. */
  lemma IncludePathsSpec(args: seq<string>, workingDir: Path)
    ensures NoDuplicates(Distinct(IncludeDirsFrom(args, 0, workingDir)))
    ensures forall p :: p in Distinct(IncludeDirsFrom(args, 0, workingDir)) <==> p in IncludeDirsFrom(args, 0, workingDir)
    ensures forall p :: p in Distinct(IncludeDirsFrom(args, 0, workingDir)) ==> Normalized(p)
    ensures workingDir.absolute ==> forall p :: p in Distinct(IncludeDirsFrom(args, 0, workingDir)) ==> p.absolute
  {
    DistinctSpec(IncludeDirsFrom(args, 0, workingDir));
    IncludeDirsNormalized(args, 0, workingDir);
  }

  /** In the separate form the following argument is taken as the path even when it looks like a flag. */
  lemma SeparateFormSkipsNext(wd: Path)
    ensures IncludeDirsFrom(["-I", "-ifoo"], 0, wd) == [ResolveToAbsolute(Parse("-ifoo"), wd)]
  {
    assert IncludeDirsFrom(["-I", "-ifoo"], 2, wd) == [];
  }

  /** A lone `-I` or `-i` as the last argument names nothing. */
  lemma TrailingFlagIgnored(args: seq<string>, wd: Path)
    requires |args| > 0 && IsIncludeFlag(args[|args| - 1])
    ensures IncludeDirsFrom(args, |args| - 1, wd) == []
  {
  }

  /** One `-D` definition as `split('=', limit = 2)` reads it: the name, and the value if there is an `=`. */
  function Definition(text: string): (d: (string, Option<string>))
    ensures '=' !in d.0
    ensures d.1.None? ==> d.0 == text
    ensures d.1.Some? ==> text == d.0 + "=" + d.1.value
  {
    SplitOnce(text, '=')
  }

  predicate IsJoinedDefine(arg: string)
  {
    StartsWith(arg, "-D") && |arg| > 2
  }

  /** The macro definitions of `args[i..]`, in argument order. */
  function DefinitionsFrom(args: seq<string>, i: nat): (r: seq<(string, Option<string>)>)
    requires i <= |args|
    decreases |args| - i
  {
    if i == |args| then []
    else if IsJoinedDefine(args[i]) then [Definition(args[i][2..])] + DefinitionsFrom(args, i + 1)
    else if args[i] == "-D" && i + 1 < |args| then [Definition(args[i + 1])] + DefinitionsFrom(args, i + 2)
    else DefinitionsFrom(args, i + 1)
  }

  /** The `extractMacroDefinitions` loop, filling an insertion-ordered map (its entries). */
  method ExtractMacroDefinitions(args: seq<string>) returns (macros: seq<(string, Option<string>)>)
    ensures macros == LinkedMaps.PutAll([], DefinitionsFrom(args, 0))
  {
    macros := [];
    ghost var collected: seq<(string, Option<string>)> := [];
    var i := 0;
    while i < |args|
      invariant 0 <= i <= |args|
      invariant collected + DefinitionsFrom(args, i) == DefinitionsFrom(args, 0)
      invariant macros == LinkedMaps.PutAll([], collected)
      decreases |args| - i
    {
      var arg := args[i];
      if IsJoinedDefine(arg) {
        var parts := SplitOnce(arg[2..], '=');
        assert DefinitionsFrom(args, i) == [parts] + DefinitionsFrom(args, i + 1);
        Regroup(collected, parts, DefinitionsFrom(args, i + 1));
        assert (collected + [parts])[..|collected|] == collected;
        macros := LinkedMaps.Put(macros, parts.0, parts.1);
        collected := collected + [parts];
      } else if arg == "-D" && i + 1 < |args| {
        var parts := SplitOnce(args[i + 1], '=');
        assert DefinitionsFrom(args, i) == [parts] + DefinitionsFrom(args, i + 2);
        Regroup(collected, parts, DefinitionsFrom(args, i + 2));
        assert (collected + [parts])[..|collected|] == collected;
        macros := LinkedMaps.Put(macros, parts.0, parts.1);
        collected := collected + [parts];
        i := i + 1; // the definition argument
      }
      i := i + 1;
    }
    assert collected + [] == collected;
  }

  /**
   * The macro map holds each defined name once, in order of first definition,
   * and maps it to the value of its last definition.
   */
  lemma MacroDefinitionsSpec(args: seq<string>)
    ensures NoDuplicates(LinkedMaps.Keys(LinkedMaps.PutAll([], DefinitionsFrom(args, 0))))
    ensures LinkedMaps.Keys(LinkedMaps.PutAll([], DefinitionsFrom(args, 0))) == Distinct(LinkedMaps.Keys(DefinitionsFrom(args, 0)))
    ensures MapOf(LinkedMaps.PutAll([], DefinitionsFrom(args, 0))) == MapOf(DefinitionsFrom(args, 0))
  {
    var d := DefinitionsFrom(args, 0);
    var none: seq<(string, Option<string>)> := [];
    LinkedMaps.PutAllKeys(none, d);
    LinkedMaps.PutAllMap(none, d);
    assert LinkedMaps.Keys(none) + LinkedMaps.Keys(d) == LinkedMaps.Keys(d);
    assert MapOf(none) + MapOf(d) == MapOf(d);
  }

  /** Defining a name twice keeps the later value; every defined name comes from some definition. */
  lemma LaterDefinitionWins(args: seq<string>, i: nat)
    requires i < |DefinitionsFrom(args, 0)|
    requires forall j :: i < j < |DefinitionsFrom(args, 0)| ==> DefinitionsFrom(args, 0)[j].0 != DefinitionsFrom(args, 0)[i].0
    ensures DefinitionsFrom(args, 0)[i].0 in MapOf(DefinitionsFrom(args, 0))
    ensures MapOf(DefinitionsFrom(args, 0))[DefinitionsFrom(args, 0)[i].0] == DefinitionsFrom(args, 0)[i].1
    ensures forall k :: k in MapOf(DefinitionsFrom(args, 0)) <==> exists j :: 0 <= j < |DefinitionsFrom(args, 0)| && DefinitionsFrom(args, 0)[j].0 == k
  {
    MapOfLaterWins(DefinitionsFrom(args, 0), i);
    MapOfDomain(DefinitionsFrom(args, 0));
  }

  /** Joined and separate `-D` forms; without `=` there is no value, and the value keeps later `=`s. */
  lemma DefinitionExamples()
    ensures DefinitionsFrom(["-DA=1=2", "-D", "B"], 0) == [("A", Some("1=2")), ("B", None)]
  {
    var args := ["-DA=1=2", "-D", "B"];
    assert args[0][2..] == "A=1=2";
    assert SplitOnce("B", '=') == ("B", None);
    assert SplitOnce("=1=2", '=') == ([], Some("1=2"));
    assert "A=1=2"[1..] == "=1=2" && "=1=2"[1..] == "1=2";
    assert SplitOnce("A=1=2", '=') == (['A'] + [], Some("1=2"));
    assert ['A'] + [] == "A";
    assert DefinitionsFrom(args, 3) == [];
  }
}
