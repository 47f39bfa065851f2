// The two include-path resolvers: the settings-based fallback and the
// project-model resolver that merges per-file compiler paths in front of it.
module IncludePaths {
  import opened Wrappers
  import opened Seqs
  import opened Paths

  /** One configured entry: absolute entries are kept, relative ones are resolved against the base. */
  function ResolveSetting(basePath: string, path: string): (r: string)
    ensures Parse(path).absolute ==> Parse(r) == Parse(path)
    ensures !Parse(path).absolute ==> Parse(r) == Normalize(Resolve(Parse(basePath), Parse(path)))
    ensures !Parse(path).absolute ==> Normalized(Parse(r)) && Parse(r).absolute == Parse(basePath).absolute
  {
    var p := Parse(path);
    if p.absolute then
      ParseToString(p);
      ToString(p)
    else
      var q := Normalize(Resolve(Parse(basePath), p));
      ParseToString(q);
      ToString(q)
  }

  /** The fallback resolver: nothing without a project base path, else one entry per setting, in order. */
  function FallbackIncludePaths(basePath: Option<string>, settingsPaths: seq<string>): (r: seq<string>)
    ensures basePath.None? ==> r == []
    ensures basePath.Some? ==> |r| == |settingsPaths|
    ensures basePath.Some? ==> forall i :: 0 <= i < |r| ==> r[i] == ResolveSetting(basePath.value, settingsPaths[i])
  {
    match basePath
    case None => []
    case Some(base) => seq(|settingsPaths|, i requires 0 <= i < |settingsPaths| => ResolveSetting(base, settingsPaths[i]))
  }

  /** Under an absolute base every fallback path is absolute. */
  lemma FallbackPathsAbsolute(base: string, settingsPaths: seq<string>)
    requires Parse(base).absolute
    ensures forall i :: 0 <= i < |settingsPaths| ==> Parse(FallbackIncludePaths(Some(base), settingsPaths)[i]).absolute
  {
  }

  /** The project-model resolver: per-file paths (if any) then the global ones, deduplicated. */
  function MergedIncludePaths(perFile: Option<seq<string>>, global: seq<string>): (r: seq<string>)
  {
    Distinct(perFile.GetOr([]) + global)
  }

  /** No duplicates, nothing lost, per-file paths first, and just the global paths without compilation info. */
  lemma MergedIncludePathsSpec(perFile: Option<seq<string>>, global: seq<string>)
    ensures NoDuplicates(MergedIncludePaths(perFile, global))
    ensures forall x :: x in MergedIncludePaths(perFile, global) <==> x in perFile.GetOr([]) || x in global
    ensures perFile.None? ==> MergedIncludePaths(perFile, global) == Distinct(global)
    ensures perFile.Some? ==> Distinct(perFile.value) <= MergedIncludePaths(perFile, global)
  {
    var pf := perFile.GetOr([]);
    DistinctSpec(pf + global);
    DistinctConcat(pf, global);
    if perFile.None? {
      assert pf + global == global;
    }
  }
}
