// Command-line macros: the comma-separated `MACRO[=value]` project setting,
// and the merge with the per-file `-D` definitions of the compilation database.
module CommandLineMacros {
  import opened Wrappers
  import opened Text
  import opened Seqs
  import LinkedMaps
  import CompilationInfo

  datatype CommandLineMacro = CommandLineMacro(name: string, value: Option<string>)

  /** The text NASM would see after `%define`: "name value", or the bare name. */
  function DefinitionText(m: CommandLineMacro): string
  {
    match m.value
    case None => m.name
    case Some(v) => m.name + " " + v
  }

  /** The definition text splits back at its first space into the name and the value. */
  lemma DefinitionTextSplits(m: CommandLineMacro)
    requires ' ' !in m.name
    ensures SplitOnce(DefinitionText(m), ' ') == (m.name, m.value)
  {
    match m.value
    case None =>
      SplitOnceAt(m.name, ' ', []);
    case Some(v) =>
      SplitOnceAt(m.name, ' ', v);
      assert m.name + " " + v == m.name + [' '] + v;
  }

  predicate IsNameStart(c: char)
  {
    IsAsciiLetter(c) || c == '_'
  }

  predicate IsNameChar(c: char)
  {
    IsAsciiLetter(c) || IsAsciiDigit(c) || c == '_'
  }

  /** A letter or underscore, then letters, digits and underscores. */
  predicate IsValidMacroName(name: string)
  {
    name != [] && IsNameStart(name[0]) && forall i :: 0 <= i < |name| ==> IsNameChar(name[i])
  }

  /** `parseMacroDefinition`: the trimmed text before the first `=` names the macro, the untrimmed rest is its value. */
  function ParseMacroDefinition(definition: string): (r: Option<CommandLineMacro>)
    ensures r.Some? ==> IsValidMacroName(r.value.name)
    ensures r.Some? ==> r.value.name == Trim(SplitOnce(definition, '=').0) && r.value.value == SplitOnce(definition, '=').1
    ensures r.None? <==> !IsValidMacroName(Trim(SplitOnce(definition, '=').0))
  {
    var parts := SplitOnce(definition, '=');
    var name := Trim(parts.0);
    if name == [] || !IsValidMacroName(name) then None
    else Some(CommandLineMacro(name, parts.1))
  }

  /** How a macro is written in the setting: `NAME` or `NAME=value`. */
  function SettingsEntry(m: CommandLineMacro): string
  {
    match m.value
    case None => m.name
    case Some(v) => m.name + "=" + v
  }

  /** Reading back an entry written from a valid macro gives the macro. */
  lemma ParseSettingsEntry(m: CommandLineMacro)
    requires IsValidMacroName(m.name)
    ensures ParseMacroDefinition(SettingsEntry(m)) == Some(m)
  {
    assert '=' !in m.name by {
      assert forall i :: 0 <= i < |m.name| ==> m.name[i] != '=';
    }
    NameIsClean(m.name);
    match m.value
    case None =>
      SplitOnceAt(m.name, '=', []);
    case Some(v) =>
      SplitOnceAt(m.name, '=', v);
      assert m.name + "=" + v == m.name + ['='] + v;
  }

  lemma NameIsClean(name: string)
    requires IsValidMacroName(name)
    ensures Trim(name) == name
  {
    TrimClean(name);
  }

  /** The entries of the setting after trimming, with empty ones dropped and invalid ones skipped. */
  function MacrosOf(pieces: seq<string>): (r: seq<CommandLineMacro>)
    ensures forall i :: 0 <= i < |r| ==> IsValidMacroName(r[i].name)
  {
    if pieces == [] then []
    else
      var entry := Trim(pieces[0]);
      var here := if entry == [] then None else ParseMacroDefinition(entry);
      (if here.Some? then [here.value] else []) + MacrosOf(pieces[1..])
  }

  /** `getGlobalMacros`: the macros of the project setting's text. */
  function GlobalMacros(setting: string): (r: seq<CommandLineMacro>)
    ensures forall i :: 0 <= i < |r| ==> IsValidMacroName(r[i].name)
    ensures (forall i :: 0 <= i < |setting| ==> IsWhitespace(setting[i])) ==> r == []
  {
    TrimEmptyIff(setting);
    var text := Trim(setting);
    if text == [] then [] else MacrosOf(Split(text, ','))
  }

  function Entries(ms: seq<CommandLineMacro>): (r: seq<string>)
    ensures |r| == |ms|
    ensures forall i :: 0 <= i < |ms| ==> r[i] == SettingsEntry(ms[i])
  {
    if ms == [] then [] else [SettingsEntry(ms[0])] + Entries(ms[1..])
  }

  /** A macro that survives being written into the setting and read back. */
  predicate Writable(m: CommandLineMacro)
  {
    IsValidMacroName(m.name)
    && (m.value.Some? ==> ',' !in m.value.value && (m.value.value == [] || !IsWhitespace(m.value.value[|m.value.value| - 1])))
  }

  lemma EntryShape(m: CommandLineMacro)
    requires Writable(m)
    ensures SettingsEntry(m) != []
    ensures ',' !in SettingsEntry(m)
    ensures !IsWhitespace(SettingsEntry(m)[0]) && !IsWhitespace(SettingsEntry(m)[|SettingsEntry(m)| - 1])
  {
    assert ',' !in m.name by {
      assert forall i :: 0 <= i < |m.name| ==> m.name[i] != ',';
    }
    var e := SettingsEntry(m);
    assert e[0] == m.name[0];
    match m.value
    case None =>
    case Some(v) =>
      assert e == m.name + ['='] + v;
      assert forall c :: c in e ==> c in m.name || c == '=' || c in v;
      if v != [] {
        assert e[|e| - 1] == v[|v| - 1];
      }
  }

  lemma {:induction false} MacrosOfEntries(ms: seq<CommandLineMacro>)
    requires forall i :: 0 <= i < |ms| ==> Writable(ms[i])
    ensures MacrosOf(Entries(ms)) == ms
    decreases |ms|
  {
    if ms != [] {
      var e := SettingsEntry(ms[0]);
      EntryShape(ms[0]);
      TrimClean(e);
      ParseSettingsEntry(ms[0]);
      MacrosOfCons(Entries(ms), ms[0]);
      assert Entries(ms)[1..] == Entries(ms[1..]);
      MacrosOfEntries(ms[1..]);
      HeadTail(ms);
    }
  }

  lemma HeadTail<T>(s: seq<T>)
    requires s != []
    ensures [s[0]] + s[1..] == s
  {
  }

  /** A clean first piece that parses contributes its macro first. */
  lemma MacrosOfCons(pieces: seq<string>, m: CommandLineMacro)
    requires pieces != [] && pieces[0] != [] && Trim(pieces[0]) == pieces[0]
    requires ParseMacroDefinition(pieces[0]) == Some(m)
    ensures MacrosOf(pieces) == [m] + MacrosOf(pieces[1..])
  {
  }

  /** Writing macros as a comma-separated setting and reading it back gives the same macros, in order. */
  lemma GlobalMacrosRoundTrip(ms: seq<CommandLineMacro>)
    requires forall i :: 0 <= i < |ms| ==> Writable(ms[i])
    ensures GlobalMacros(JoinWith(Entries(ms), [','])) == ms
  {
    var parts := Entries(ms);
    var text := JoinWith(parts, [',']);
    if ms == [] {
      assert text == [];
    } else {
      JoinedEntriesClean(ms);
      EntriesFreeOfComma(ms);
      SplitJoin(parts, ',');
      MacrosOfEntries(ms);
    }
  }

  lemma JoinedEntriesClean(ms: seq<CommandLineMacro>)
    requires ms != []
    requires forall i :: 0 <= i < |ms| ==> Writable(ms[i])
    ensures Trim(JoinWith(Entries(ms), [','])) == JoinWith(Entries(ms), [','])
    ensures JoinWith(Entries(ms), [',']) != []
  {
    var parts := Entries(ms);
    var text := JoinWith(parts, [',']);
    EntryShape(ms[0]);
    EntryShape(ms[|ms| - 1]);
    JoinWithEnds(parts, [',']);
    var first := parts[0];
    var last := parts[|parts| - 1];
    assert text[0] == first[0];
    assert text[|text| - 1] == text[|text| - |last|..][|last| - 1];
    TrimClean(text);
  }

  lemma EntriesFreeOfComma(ms: seq<CommandLineMacro>)
    requires forall i :: 0 <= i < |ms| ==> Writable(ms[i])
    ensures forall i :: 0 <= i < |Entries(ms)| ==> ',' !in Entries(ms)[i]
  {
    forall i | 0 <= i < |ms|
      ensures ',' !in Entries(ms)[i]
    {
      EntryShape(ms[i]);
    }
  }

  /** A bare name has no value. */
  lemma ParseBareName()
    ensures ParseMacroDefinition("DEBUG") == Some(CommandLineMacro("DEBUG", None))
  {
    var debug := CommandLineMacro("DEBUG", None);
    assert IsValidMacroName(debug.name);
    ParseSettingsEntry(debug);
  }

  /** `NAME=` gives an empty value, not a missing one. */
  lemma ParseEmptyValue()
    ensures ParseMacroDefinition("VERSION=") == Some(CommandLineMacro("VERSION", Some("")))
  {
    var version := CommandLineMacro("VERSION", Some(""));
    assert IsValidMacroName(version.name);
    ParseSettingsEntry(version);
    assert SettingsEntry(version) == "VERSION=";
  }

  /** A name may not start with a digit. */
  lemma ParseRejectsDigitStart()
    ensures ParseMacroDefinition("9LIVES=1") == None
  {
    var name := "9LIVES";
    assert !IsNameStart(name[0]);
    SplitOnceAt(name, '=', "1");
    assert "9LIVES=1" == name + ['='] + "1";
    assert name[|name| - 1] == 'S';
    TrimClean(name);
  }

  /** `findMacroByName`: the first macro with exactly this name. */
  function FindMacroByName(macros: seq<CommandLineMacro>, name: string): (r: Option<CommandLineMacro>)
    ensures r.None? <==> forall i :: 0 <= i < |macros| ==> macros[i].name != name
    ensures r.Some? ==> exists i :: 0 <= i < |macros| && macros[i] == r.value && r.value.name == name
                          && forall j :: 0 <= j < i ==> macros[j].name != name
  {
    if macros == [] then None
    else if macros[0].name == name then Some(macros[0])
    else
      var r := FindMacroByName(macros[1..], name);
      assert forall i :: 1 <= i < |macros| ==> macros[i] == macros[1..][i - 1];
      r
  }

  /** Global macros as map entries keyed by name, in order. */
  function GlobalEntries(global: seq<CommandLineMacro>): (r: seq<(string, CommandLineMacro)>)
    ensures |r| == |global|
    ensures forall i :: 0 <= i < |global| ==> r[i] == (global[i].name, global[i])
    decreases |global|
  {
    if global == [] then []
    else GlobalEntries(global[..|global| - 1]) + [(global[|global| - 1].name, global[|global| - 1])]
  }

  /** Per-file definitions as map entries, each made into a macro. */
  function PerFileEntries(perFile: seq<(string, Option<string>)>): (r: seq<(string, CommandLineMacro)>)
    ensures |r| == |perFile|
    ensures forall i :: 0 <= i < |perFile| ==> r[i] == (perFile[i].0, CommandLineMacro(perFile[i].0, perFile[i].1))
    decreases |perFile|
  {
    if perFile == [] then []
    else
      var (n, v) := perFile[|perFile| - 1];
      PerFileEntries(perFile[..|perFile| - 1]) + [(n, CommandLineMacro(n, v))]
  }

  lemma GlobalEntriesSnoc(global: seq<CommandLineMacro>, i: nat)
    requires i < |global|
    ensures GlobalEntries(global[..i + 1]) == GlobalEntries(global[..i]) + [(global[i].name, global[i])]
  {
    assert global[..i + 1][..i] == global[..i];
  }

  lemma PerFileEntriesSnoc(perFile: seq<(string, Option<string>)>, j: nat)
    requires j < |perFile|
    ensures PerFileEntries(perFile[..j + 1]) == PerFileEntries(perFile[..j]) + [(perFile[j].0, CommandLineMacro(perFile[j].0, perFile[j].1))]
  {
    assert perFile[..j + 1][..j] == perFile[..j];
  }

  /** The per-file definitions of a file's compilation information, or none. */
  function PerFileMacros(info: Option<CompilationInfo.NasmCompilationInfo>): seq<(string, Option<string>)>
  {
    match info
    case None => []
    case Some(c) => LinkedMaps.PutAll([], CompilationInfo.DefinitionsFrom(c.compilerArguments, 0))
  }

  /** The merged map: the global macros put first, then the per-file ones. */
  function Merged(global: seq<CommandLineMacro>, perFile: seq<(string, Option<string>)>): seq<(string, CommandLineMacro)>
  {
    LinkedMaps.PutAll(LinkedMaps.PutAll([], GlobalEntries(global)), PerFileEntries(perFile))
  }

  /** `getCommandLineMacros`, with the project setting's text and the file's compilation information (if any). */
  method CommandLineMacros(setting: string, info: Option<CompilationInfo.NasmCompilationInfo>) returns (result: seq<CommandLineMacro>)
    ensures result == LinkedMaps.Values(Merged(GlobalMacros(setting), PerFileMacros(info)))
  {
    var perFile: seq<(string, Option<string>)> := [];
    if info.Some? {
      perFile := CompilationInfo.ExtractMacroDefinitions(info.value.compilerArguments);
    }
    var global := GlobalMacros(setting);
    var merged: seq<(string, CommandLineMacro)> := [];
    for i := 0 to |global|
      invariant merged == LinkedMaps.PutAll([], GlobalEntries(global[..i]))
    {
      GlobalEntriesSnoc(global, i);
      LinkedMaps.PutAllSnoc([], GlobalEntries(global[..i]), global[i].name, global[i]);
      merged := LinkedMaps.Put(merged, global[i].name, global[i]);
    }
    assert global[..|global|] == global;
    ghost var start := merged;
    for j := 0 to |perFile|
      invariant merged == LinkedMaps.PutAll(start, PerFileEntries(perFile[..j]))
    {
      PerFileEntriesSnoc(perFile, j);
      LinkedMaps.PutAllSnoc(start, PerFileEntries(perFile[..j]), perFile[j].0, CommandLineMacro(perFile[j].0, perFile[j].1));
      merged := LinkedMaps.Put(merged, perFile[j].0, CommandLineMacro(perFile[j].0, perFile[j].1));
    }
    assert perFile[..|perFile|] == perFile;
    result := LinkedMaps.Values(merged);
  }

  /** Every entry's key is its macro's name. */
  predicate KeyedByName(entries: seq<(string, CommandLineMacro)>)
  {
    forall i :: 0 <= i < |entries| ==> entries[i].1.name == entries[i].0
  }

  lemma {:induction false} PutKeyed(entries: seq<(string, CommandLineMacro)>, m: CommandLineMacro)
    requires KeyedByName(entries)
    ensures KeyedByName(LinkedMaps.Put(entries, m.name, m))
    decreases |entries|
  {
    var put := LinkedMaps.Put(entries, m.name, m);
    if entries == [] {
    } else if entries[0].0 == m.name {
      assert forall i :: 1 <= i < |put| ==> put[i] == entries[i];
    } else {
      PutKeyed(entries[1..], m);
      assert forall i :: 1 <= i < |put| ==> put[i] == LinkedMaps.Put(entries[1..], m.name, m)[i - 1];
    }
  }

  lemma {:induction false} PutAllKeyed(start: seq<(string, CommandLineMacro)>, pairs: seq<(string, CommandLineMacro)>)
    requires KeyedByName(start) && KeyedByName(pairs)
    ensures KeyedByName(LinkedMaps.PutAll(start, pairs))
    decreases |pairs|
  {
    if pairs != [] {
      var init := pairs[..|pairs| - 1];
      assert KeyedByName(init) by {
        assert forall i :: 0 <= i < |init| ==> init[i] == pairs[i];
      }
      PutAllKeyed(start, init);
      var last := pairs[|pairs| - 1];
      assert last == (last.1.name, last.1);
      PutKeyed(LinkedMaps.PutAll(start, init), last.1);
    }
  }

  /** In a map keyed by name, the first macro with a name is the map's entry for it. */
  lemma {:induction false} FindInValues(entries: seq<(string, CommandLineMacro)>, name: string)
    requires KeyedByName(entries) && NoDuplicates(LinkedMaps.Keys(entries))
    ensures FindMacroByName(LinkedMaps.Values(entries), name)
            == if name in MapOf(entries) then Some(MapOf(entries)[name]) else None
    decreases |entries|
  {
    if entries == [] {
      assert LinkedMaps.Values(entries) == [];
    } else {
      var rest := entries[1..];
      LinkedMaps.NoDuplicatesTail(entries);
      LinkedMaps.MapOfCons(entries[0], rest);
      assert entries == [entries[0]] + rest;
      var vs := LinkedMaps.Values(entries);
      if entries[0].0 != name {
        assert vs[1..] == LinkedMaps.Values(rest);
        FindInValues(rest, name);
      }
    }
  }

  /** The per-file entries hold the same names as the per-file definitions, each made into a macro. */
  lemma {:induction false} PerFileEntriesMap(perFile: seq<(string, Option<string>)>)
    ensures forall n :: n in MapOf(PerFileEntries(perFile)) <==> n in MapOf(perFile)
    ensures forall n :: n in MapOf(perFile) ==> MapOf(PerFileEntries(perFile))[n] == CommandLineMacro(n, MapOf(perFile)[n])
    decreases |perFile|
  {
    if perFile != [] {
      var init := perFile[..|perFile| - 1];
      var (n, v) := perFile[|perFile| - 1];
      PerFileEntriesMap(init);
      assert perFile == init + [(n, v)];
      MapOfSnoc(init, n, v);
      MapOfSnoc(PerFileEntries(init), n, CommandLineMacro(n, v));
    }
  }

  lemma MergedShape(global: seq<CommandLineMacro>, perFile: seq<(string, Option<string>)>)
    ensures KeyedByName(Merged(global, perFile))
    ensures NoDuplicates(LinkedMaps.Keys(Merged(global, perFile)))
    ensures LinkedMaps.Keys(Merged(global, perFile)) == Distinct(LinkedMaps.Keys(GlobalEntries(global)) + LinkedMaps.Keys(perFile))
    ensures MapOf(Merged(global, perFile)) == MapOf(GlobalEntries(global)) + MapOf(PerFileEntries(perFile))
  {
    var none: seq<(string, CommandLineMacro)> := [];
    var g := GlobalEntries(global);
    var p := PerFileEntries(perFile);
    var start := LinkedMaps.PutAll(none, g);
    PutAllKeyed(none, g);
    PutAllKeyed(start, p);
    LinkedMaps.PutAllKeys(none, g);
    LinkedMaps.PutAllKeys(start, p);
    LinkedMaps.PutAllMap(none, g);
    LinkedMaps.PutAllMap(start, p);
    assert LinkedMaps.Keys(none) + LinkedMaps.Keys(g) == LinkedMaps.Keys(g);
    assert MapOf(none) + MapOf(g) == MapOf(g);
    LinkedMaps.KeysIndex(p);
    LinkedMaps.KeysIndex(perFile);
    assert LinkedMaps.Keys(p) == LinkedMaps.Keys(perFile);
    DistinctOfPrefix(LinkedMaps.Keys(g), LinkedMaps.Keys(p));
  }

  /**
   * Looking a name up in the merged macros finds the file's own definition
   * when it has one, and otherwise the (last) global macro of that name.
   */
  lemma PerFileOverridesGlobal(global: seq<CommandLineMacro>, perFile: seq<(string, Option<string>)>, name: string)
    ensures FindMacroByName(LinkedMaps.Values(Merged(global, perFile)), name)
            == if name in MapOf(perFile) then Some(CommandLineMacro(name, MapOf(perFile)[name]))
               else if name in MapOf(GlobalEntries(global)) then Some(MapOf(GlobalEntries(global))[name])
               else None
  {
    MergedShape(global, perFile);
    FindInValues(Merged(global, perFile), name);
    PerFileEntriesMap(perFile);
  }

  /** The merged names: the global names in order, then the file's new names, each once. */
  lemma MergedNames(global: seq<CommandLineMacro>, perFile: seq<(string, Option<string>)>)
    ensures NoDuplicates(Names(LinkedMaps.Values(Merged(global, perFile))))
    ensures Names(LinkedMaps.Values(Merged(global, perFile))) == Distinct(Names(global) + LinkedMaps.Keys(perFile))
  {
    var merged := Merged(global, perFile);
    MergedShape(global, perFile);
    LinkedMaps.KeysIndex(merged);
    assert Names(LinkedMaps.Values(merged)) == LinkedMaps.Keys(merged);
    LinkedMaps.KeysIndex(GlobalEntries(global));
    assert LinkedMaps.Keys(GlobalEntries(global)) == Names(global);
  }

  function Names(macros: seq<CommandLineMacro>): (r: seq<string>)
    ensures |r| == |macros|
    ensures forall i :: 0 <= i < |macros| ==> r[i] == macros[i].name
  {
    if macros == [] then [] else [macros[0].name] + Names(macros[1..])
  }
}
