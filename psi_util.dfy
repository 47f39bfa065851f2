// Lookups over a NASM file's syntax tree: label definitions with their
// local-label scoping, the path text of an `%include`, the transitive
// include closure, and the named elements of a file.
module PsiUtil {
  import opened Wrappers
  import opened Text
  import opened Seqs
  import LinkedMaps

  // ---------------------------------------------------------------------
  // Labels
  // ---------------------------------------------------------------------

  /** A label definition of the file, in document order: its name (which the tree may lack) and its text offset. */
  datatype Label = Label(name: Option<string>, offset: int)

  /**
   * Where a lookup starts: the text offset of the referring element and, when
   * it sits inside a multi-line macro, the labels defined inside that macro,
   * given as the range [lo, hi) of the file's labels (they are contiguous in
   * document order).
   */
  datatype Reference = Reference(offset: int, macroLabels: Option<(nat, nat)>)

  predicate ValidReference(labels: seq<Label>, ref: Option<Reference>)
  {
    ref.Some? && ref.value.macroLabels.Some? ==>
      ref.value.macroLabels.value.0 <= ref.value.macroLabels.value.1 <= |labels|
  }

  /** `firstOrNull { it.name == name }` over labels[from..to]: the first label there with that name. */
  function FirstNamedIn(labels: seq<Label>, name: string, lo: nat, hi: nat): (r: Option<nat>)
    requires lo <= hi <= |labels|
    ensures r.Some? ==> lo <= r.value < hi && labels[r.value].name == Some(name)
    ensures forall k :: lo <= k < hi && (r.None? || k < r.value) ==> labels[k].name != Some(name)
    decreases hi - lo
  {
    if lo == hi then None
    else if labels[lo].name == Some(name) then Some(lo)
    else FirstNamedIn(labels, name, lo + 1, hi)
  }

  function FirstNamed(labels: seq<Label>, name: string): (r: Option<nat>)
    ensures r.Some? ==> r.value < |labels| && labels[r.value].name == Some(name)
    ensures forall k :: 0 <= k < |labels| && (r.None? || k < r.value) ==> labels[k].name != Some(name)
  {
    FirstNamedIn(labels, name, 0, |labels|)
  }

  /** A global label: it has a name, and the name starts neither with `.` nor with `%%`. */
  predicate IsGlobalName(n: string)
  {
    !StartsWith(n, ".") && !StartsWith(n, "%%")
  }

  predicate IsParentCandidate(l: Label, offset: int)
  {
    l.name.Some? && IsGlobalName(l.name.value) && l.offset < offset
  }

  /** `findParentGlobalLabel`: the last global label that starts before the offset. */
  function ParentGlobalLabel(labels: seq<Label>, offset: int): (r: Option<nat>)
    ensures r.Some? ==> r.value < |labels| && IsParentCandidate(labels[r.value], offset)
    ensures forall k :: 0 <= k < |labels| && (r.None? || r.value < k) ==> !IsParentCandidate(labels[k], offset)
    decreases |labels|
  {
    if labels == [] then None
    else if IsParentCandidate(labels[|labels| - 1], offset) then Some(|labels| - 1)
    else ParentGlobalLabel(labels[..|labels| - 1], offset)
  }

  // The scan of `findLocalLabelInScope`, as the source writes it: a named label
  // that does not start with `.` stops the scan before the `%%` test is reached,
  // so that test never skips anything and a macro-local label ends the scope.

  function ScanAsWritten(labels: seq<Label>, i: nat, local: string): (r: Option<nat>)
    requires i <= |labels|
    ensures r.Some? ==> i <= r.value < |labels| && labels[r.value].name == Some(local)
    decreases |labels| - i
  {
    if i == |labels| then None
    else if labels[i].name.None? then ScanAsWritten(labels, i + 1, local)
    else if !StartsWith(labels[i].name.value, ".") then None
    else if StartsWith(labels[i].name.value, "%%") then ScanAsWritten(labels, i + 1, local)
    else if labels[i].name.value == local then Some(i)
    else ScanAsWritten(labels, i + 1, local)
  }

  /** The loop of `findLocalLabelInScope` as written, from the global label at `globalIndex`. */
  method FindLocalLabelInScopeAsWritten(labels: seq<Label>, globalIndex: nat, local: string) returns (r: Option<nat>)
    requires globalIndex < |labels|
    ensures r == ScanAsWritten(labels, globalIndex + 1, local)
  {
    for i := globalIndex + 1 to |labels|
      invariant ScanAsWritten(labels, globalIndex + 1, local) == ScanAsWritten(labels, i, local)
    {
      var name := labels[i].name;
      if name.Some? {
        if !StartsWith(name.value, ".") {
          break;
        }
        if StartsWith(name.value, "%%") {
          continue;
        }
        if name.value == local {
          return Some(i);
        }
      }
    }
    return None;
  }

  /** As written, any named label that does not start with `.` ends the scope, a `%%` label included. */
  predicate EndsScopeAsWritten(l: Label)
  {
    l.name.Some? && !StartsWith(l.name.value, ".")
  }

  /** The local label `local` in the scope of the global label at `globalIndex`, as written. */
  function LocalInScopeAsWritten(labels: seq<Label>, globalIndex: nat, local: string): Option<nat>
    requires globalIndex < |labels|
  {
    ScanAsWritten(labels, globalIndex + 1, local)
  }

  /** Where the scope starting at `i` ends as written: the first named label at or after `i` not starting with `.`. */
  function ScopeEndAsWritten(labels: seq<Label>, i: nat): (r: nat)
    requires i <= |labels|
    ensures i <= r <= |labels|
    ensures r < |labels| ==> EndsScopeAsWritten(labels[r])
    ensures forall k :: i <= k < r ==> !EndsScopeAsWritten(labels[k])
    decreases |labels| - i
  {
    if i == |labels| then i
    else if EndsScopeAsWritten(labels[i]) then i
    else ScopeEndAsWritten(labels, i + 1)
  }

  /**
   * As written, the scan finds exactly the first label named `local` between
   * its start and the next named label not starting with `.`, which may be a
   * macro-local label; only unnamed labels are passed over.
   */
  lemma {:induction false} ScanAsWrittenMeaning(labels: seq<Label>, i: nat, local: string)
    requires i <= |labels|
    requires StartsWith(local, ".")
    ensures ScanAsWritten(labels, i, local) == FirstNamedIn(labels, local, i, ScopeEndAsWritten(labels, i))
    decreases |labels| - i
  {
    if i < |labels| {
      var name := labels[i].name;
      if name.None? {
        ScanAsWrittenMeaning(labels, i + 1, local);
      } else if StartsWith(name.value, ".") {
        ScanAsWrittenMeaning(labels, i + 1, local);
        assert !StartsWith(name.value, "%%") by {
          assert name.value[0] == '.';
        }
      }
    }
  }

  /** The scope ends at the next global label; unnamed and macro-local labels are passed over. */
  predicate EndsScope(l: Label)
  {
    l.name.Some? && IsGlobalName(l.name.value)
  }

  /** The scan with the macro-local test before the scope test, as its comment intends. */
  function Scan(labels: seq<Label>, i: nat, local: string): (r: Option<nat>)
    requires i <= |labels|
    ensures r.Some? ==> i <= r.value < |labels| && labels[r.value].name == Some(local)
    decreases |labels| - i
  {
    if i == |labels| then None
    else if labels[i].name.None? || StartsWith(labels[i].name.value, "%%") then Scan(labels, i + 1, local)
    else if !StartsWith(labels[i].name.value, ".") then None
    else if labels[i].name.value == local then Some(i)
    else Scan(labels, i + 1, local)
  }

  /** The local label `local` in the scope of the global label at `globalIndex`. */
  function LocalInScope(labels: seq<Label>, globalIndex: nat, local: string): Option<nat>
    requires globalIndex < |labels|
  {
    Scan(labels, globalIndex + 1, local)
  }

  /** The corrected loop of `findLocalLabelInScope`. */
  method FindLocalLabelInScope(labels: seq<Label>, globalIndex: nat, local: string) returns (r: Option<nat>)
    requires globalIndex < |labels|
    ensures r == LocalInScope(labels, globalIndex, local)
  {
    for i := globalIndex + 1 to |labels|
      invariant Scan(labels, globalIndex + 1, local) == Scan(labels, i, local)
    {
      var name := labels[i].name;
      if name.Some? {
        if StartsWith(name.value, "%%") {
          continue;
        }
        if !StartsWith(name.value, ".") {
          break;
        }
        if name.value == local {
          return Some(i);
        }
      }
    }
    return None;
  }

  /** Where the scope starting at `i` ends: the first global label at or after `i`, or the end of the file. */
  function ScopeEnd(labels: seq<Label>, i: nat): (r: nat)
    requires i <= |labels|
    ensures i <= r <= |labels|
    ensures r < |labels| ==> EndsScope(labels[r])
    ensures forall k :: i <= k < r ==> !EndsScope(labels[k])
    decreases |labels| - i
  {
    if i == |labels| then i
    else if EndsScope(labels[i]) then i
    else ScopeEnd(labels, i + 1)
  }

  /**
   * The scan finds exactly the first label named `local` between its start and
   * the next global label; unnamed and macro-local labels in between do not matter.
   */
  lemma {:induction false} ScanMeaning(labels: seq<Label>, i: nat, local: string)
    requires i <= |labels|
    requires StartsWith(local, ".")
    ensures Scan(labels, i, local) == FirstNamedIn(labels, local, i, ScopeEnd(labels, i))
    decreases |labels| - i
  {
    if i < |labels| {
      var name := labels[i].name;
      if name.None? || StartsWith(name.value, "%%") {
        ScanMeaning(labels, i + 1, local);
        if name.Some? {
          assert name.value[0] == '%' && local[0] == '.';
        }
      } else if StartsWith(name.value, ".") {
        ScanMeaning(labels, i + 1, local);
        assert !StartsWith(name.value, "%%");
      }
    }
  }

  /** A label reference `g.loc`: a dot, but not at the start. */
  predicate IsQualified(name: string)
  {
    '.' in name && !StartsWith(name, ".")
  }

  /** The global part of `g.loc`: the text before the first dot. */
  function GlobalPart(name: string): string
  {
    SplitOnce(name, '.').0
  }

  /** The local part of `g.loc`: a dot and the text after the first dot. */
  function LocalPart(name: string): (r: string)
    ensures StartsWith(r, ".")
  {
    "." + SplitOnce(name, '.').1.GetOr([])
  }

  predicate InMacroContext(labels: seq<Label>, name: string, ref: Option<Reference>)
  {
    StartsWith(name, "%%") && ref.Some? && ref.value.macroLabels.Some?
  }

  /**
   * `findLabelDefinition` as written: the index of the label a name refers to,
   * tried in order as a macro-local label of the enclosing macro, as
   * `global.local`, as a local label of the enclosing global label, and by
   * plain name; the local-label scans stop at a macro-local label.
   */
  function FindLabelDefinition(labels: seq<Label>, name: string, ref: Option<Reference>): (r: Option<nat>)
    requires ValidReference(labels, ref)
    ensures r.Some? ==> r.value < |labels|
    ensures r.Some? ==> labels[r.value].name == Some(name)
                        || (IsQualified(name) && labels[r.value].name == Some(LocalPart(name)))
    ensures r.Some? && InMacroContext(labels, name, ref) ==>
              ref.value.macroLabels.value.0 <= r.value < ref.value.macroLabels.value.1
  {
    if InMacroContext(labels, name, ref) then
      FirstNamedIn(labels, name, ref.value.macroLabels.value.0, ref.value.macroLabels.value.1)
    else if IsQualified(name) && FirstNamed(labels, GlobalPart(name)).Some? then
      LocalInScopeAsWritten(labels, FirstNamed(labels, GlobalPart(name)).value, LocalPart(name))
    else if StartsWith(name, ".") && ref.Some? && ParentGlobalLabel(labels, ref.value.offset).Some? then
      LocalInScopeAsWritten(labels, ParentGlobalLabel(labels, ref.value.offset).value, name)
    else
      FirstNamed(labels, name)
  }

  /**
   * `g.loc` with a label `g` is the first `.loc` after the first `g` and before
   * the next named label not starting with `.`; it is not found anywhere else.
   */
  lemma QualifiedLookup(labels: seq<Label>, name: string, ref: Option<Reference>, g: nat)
    requires ValidReference(labels, ref)
    requires IsQualified(name) && !InMacroContext(labels, name, ref)
    requires FirstNamed(labels, GlobalPart(name)) == Some(g)
    ensures FindLabelDefinition(labels, name, ref) == FirstNamedIn(labels, LocalPart(name), g + 1, ScopeEndAsWritten(labels, g + 1))
  {
    ScanAsWrittenMeaning(labels, g + 1, LocalPart(name));
  }

  /**
   * `.loc` with a context is looked up after the last global label before the
   * reference, up to the next named label not starting with `.`.
   */
  lemma LocalLookup(labels: seq<Label>, name: string, ref: Option<Reference>, p: nat)
    requires ValidReference(labels, ref)
    requires StartsWith(name, ".") && ref.Some?
    requires ParentGlobalLabel(labels, ref.value.offset) == Some(p)
    ensures FindLabelDefinition(labels, name, ref) == FirstNamedIn(labels, name, p + 1, ScopeEndAsWritten(labels, p + 1))
  {
    assert name[0] == '.';
    assert !StartsWith(name, "%%");
    assert !IsQualified(name);
    ScanAsWrittenMeaning(labels, p + 1, name);
  }

  /** The lookup with the corrected scan, in which a macro-local label does not end a scope. */
  function FindLabelDefinitionCorrected(labels: seq<Label>, name: string, ref: Option<Reference>): (r: Option<nat>)
    requires ValidReference(labels, ref)
    ensures r.Some? ==> r.value < |labels|
    ensures r.Some? ==> labels[r.value].name == Some(name)
                        || (IsQualified(name) && labels[r.value].name == Some(LocalPart(name)))
    ensures r.Some? && InMacroContext(labels, name, ref) ==>
              ref.value.macroLabels.value.0 <= r.value < ref.value.macroLabels.value.1
  {
    if InMacroContext(labels, name, ref) then
      FirstNamedIn(labels, name, ref.value.macroLabels.value.0, ref.value.macroLabels.value.1)
    else if IsQualified(name) && FirstNamed(labels, GlobalPart(name)).Some? then
      LocalInScope(labels, FirstNamed(labels, GlobalPart(name)).value, LocalPart(name))
    else if StartsWith(name, ".") && ref.Some? && ParentGlobalLabel(labels, ref.value.offset).Some? then
      LocalInScope(labels, ParentGlobalLabel(labels, ref.value.offset).value, name)
    else
      FirstNamed(labels, name)
  }

  /** With the corrected scan, `g.loc` is the first `.loc` between the first `g` and the next global label. */
  lemma QualifiedLookupCorrected(labels: seq<Label>, name: string, ref: Option<Reference>, g: nat)
    requires ValidReference(labels, ref)
    requires IsQualified(name) && !InMacroContext(labels, name, ref)
    requires FirstNamed(labels, GlobalPart(name)) == Some(g)
    ensures FindLabelDefinitionCorrected(labels, name, ref) == FirstNamedIn(labels, LocalPart(name), g + 1, ScopeEnd(labels, g + 1))
  {
    ScanMeaning(labels, g + 1, LocalPart(name));
  }

  /** With the corrected scan, `.loc` is looked up in the whole scope of the last global label before the reference. */
  lemma LocalLookupCorrected(labels: seq<Label>, name: string, ref: Option<Reference>, p: nat)
    requires ValidReference(labels, ref)
    requires StartsWith(name, ".") && ref.Some?
    requires ParentGlobalLabel(labels, ref.value.offset) == Some(p)
    ensures FindLabelDefinitionCorrected(labels, name, ref) == FirstNamedIn(labels, name, p + 1, ScopeEnd(labels, p + 1))
  {
    assert name[0] == '.';
    assert !StartsWith(name, "%%");
    assert !IsQualified(name);
    ScanMeaning(labels, p + 1, name);
  }

  /** Both scans agree on labels none of which is macro-local. */
  lemma {:induction false} ScansAgree(labels: seq<Label>, i: nat, local: string)
    requires i <= |labels|
    requires forall k :: i <= k < |labels| && labels[k].name.Some? ==> !StartsWith(labels[k].name.value, "%%")
    ensures ScanAsWritten(labels, i, local) == Scan(labels, i, local)
    decreases |labels| - i
  {
    if i < |labels| {
      ScansAgree(labels, i + 1, local);
    }
  }

  /** Without macro-local labels, the lookup as written and the corrected one give the same label. */
  lemma LookupsAgree(labels: seq<Label>, name: string, ref: Option<Reference>)
    requires ValidReference(labels, ref)
    requires forall k :: 0 <= k < |labels| && labels[k].name.Some? ==> !StartsWith(labels[k].name.value, "%%")
    ensures FindLabelDefinition(labels, name, ref) == FindLabelDefinitionCorrected(labels, name, ref)
  {
    if IsQualified(name) && FirstNamed(labels, GlobalPart(name)).Some? {
      ScansAgree(labels, FirstNamed(labels, GlobalPart(name)).value + 1, LocalPart(name));
    }
    if StartsWith(name, ".") && ref.Some? && ParentGlobalLabel(labels, ref.value.offset).Some? {
      ScansAgree(labels, ParentGlobalLabel(labels, ref.value.offset).value + 1, name);
    }
  }

  /** Without a dot and outside a macro, the lookup is the first label with exactly that name. */
  lemma PlainLookup(labels: seq<Label>, name: string, ref: Option<Reference>)
    requires ValidReference(labels, ref)
    requires '.' !in name && !InMacroContext(labels, name, ref)
    ensures FindLabelDefinition(labels, name, ref) == FirstNamed(labels, name)
  {
    assert name == [] || name[0] != '.' by {
      if name != [] {
        assert name[0] in name;
      }
    }
  }

  // The finding: a macro-local label between a global label and its local label.

  const ScopeSample: seq<Label> := [Label(Some("g"), 0), Label(Some("%%m"), 4), Label(Some(".x"), 8)]

  /** As written, `g.x` is not found past the macro-local label `%%m`. */
  lemma MacroLocalEndsScopeAsWritten()
    ensures ScanAsWritten(ScopeSample, 1, ".x") == None
    ensures FindLabelDefinition(ScopeSample, "g.x", None) == None
  {
    var labels := ScopeSample;
    assert labels[0] == Label(Some("g"), 0);
    assert labels[1] == Label(Some("%%m"), 4);
    assert !StartsWith("%%m", ".") by {
      assert "%%m"[..1][0] == '%';
    }
    GDotX();
    assert FirstNamed(labels, "g") == Some(0);
  }

  lemma GDotX()
    ensures IsQualified("g.x") && GlobalPart("g.x") == "g" && LocalPart("g.x") == ".x"
  {
    SplitOnceAt("g", '.', "x");
    assert "g" + ['.'] + "x" == "g.x";
    assert "g.x"[1] == '.';
    assert !StartsWith("g.x", ".") by {
      assert "g.x"[..1] != ".";
    }
    assert "." + "x" == ".x";
  }

  /** With the corrected scan, `g.x` is found: the `%%m` label lies inside `g`'s scope. */
  lemma MacroLocalSkipped()
    ensures FindLabelDefinitionCorrected(ScopeSample, "g.x", None) == Some(2)
  {
    var labels := ScopeSample;
    assert labels[0] == Label(Some("g"), 0);
    assert labels[1] == Label(Some("%%m"), 4);
    assert labels[2] == Label(Some(".x"), 8);
    GDotX();
    assert FirstNamed(labels, "g") == Some(0);
    assert StartsWith("%%m", "%%") && StartsWith(".x", ".");
    assert ScopeEnd(labels, 1) == 3;
    QualifiedLookupCorrected(labels, "g.x", None, 0);
    assert FirstNamedIn(labels, ".x", 1, 3) == Some(2);
  }

  // A small file: main, .loop, other, .loop.
  const Sample: seq<Label> := [Label(Some("main"), 0), Label(Some(".loop"), 5), Label(Some("other"), 10), Label(Some(".loop"), 15)]

  lemma SampleShape()
    ensures Sample[0] == Label(Some("main"), 0) && Sample[1] == Label(Some(".loop"), 5)
    ensures Sample[2] == Label(Some("other"), 10) && Sample[3] == Label(Some(".loop"), 15)
    ensures StartsWith(".loop", ".") && IsGlobalName("main") && IsGlobalName("other")
  {
    assert "main"[..1][0] == 'm' && "main"[..2][0] == 'm';
    assert "other"[..1][0] == 'o' && "other"[..2][0] == 'o';
    assert ".loop"[..1] == ".";
  }

  /** `.loop` from inside `other`'s body refers to `other`'s `.loop`. */
  lemma LocalLookupExample()
    ensures FindLabelDefinition(Sample, ".loop", Some(Reference(12, None))) == Some(3)
  {
    var labels := Sample;
    SampleShape();
    assert ParentGlobalLabel(labels, 12) == Some(2) by {
      assert IsParentCandidate(labels[2], 12);
      assert !IsParentCandidate(labels[3], 12);
    }
    LocalLookup(labels, ".loop", Some(Reference(12, None)), 2);
    assert ScopeEndAsWritten(labels, 3) == 4;
    assert FirstNamedIn(labels, ".loop", 3, 4) == Some(3);
  }

  lemma MainDotLoop()
    ensures IsQualified("main.loop") && GlobalPart("main.loop") == "main" && LocalPart("main.loop") == ".loop"
  {
    SplitOnceAt("main", '.', "loop");
    assert "main" + ['.'] + "loop" == "main.loop";
    assert "main.loop"[4] == '.';
    assert !StartsWith("main.loop", ".") by {
      assert "main.loop"[..1] != ".";
    }
    assert "." + "loop" == ".loop";
  }

  /** `main.loop` refers to `main`'s `.loop`, not to the later one. */
  lemma QualifiedLookupExample()
    ensures FindLabelDefinition(Sample, "main.loop", None) == Some(1)
  {
    var labels := Sample;
    SampleShape();
    MainDotLoop();
    assert FirstNamed(labels, "main") == Some(0);
    assert ScopeEndAsWritten(labels, 1) == 2;
    QualifiedLookup(labels, "main.loop", None, 0);
    assert FirstNamedIn(labels, ".loop", 1, 2) == Some(1);
  }

  // ---------------------------------------------------------------------
  // Include statements
  // ---------------------------------------------------------------------

  /** The argument of an `%include`: a string token, `<NAME>`, or neither. */
  datatype IncludeArgument = StringToken(text: string) | AngleName(ident: string) | NoArgument

  predicate IsQuote(c: char)
  {
    c == '"' || c == '\''
  }

  /**
   * The text of a string token opening with a quote loses its first and its
   * last character, whatever that last character is; other text is kept.
   */
  function StripQuotes(text: string): (r: string)
    ensures |text| >= 2 && IsQuote(text[0]) ==> |r| == |text| - 2 && [text[0]] + r + [text[|text| - 1]] == text
    ensures !(|text| >= 2 && IsQuote(text[0])) ==> r == text
  {
    if |text| >= 2 && IsQuote(text[0]) then text[1..|text| - 1] else text
  }

  /** `getIncludePath`: the unquoted string, the bare name between angle brackets, or none. */
  function GetIncludePath(arg: IncludeArgument): (r: Option<string>)
    ensures r.None? <==> arg.NoArgument?
    ensures arg.AngleName? ==> r == Some(arg.ident)
  {
    match arg
    case StringToken(text) => Some(StripQuotes(text))
    case AngleName(ident) => Some(ident)
    case NoArgument => None
  }

  /** A path written between matching quotes of either kind comes back as written. */
  lemma QuotedPathRoundTrip(path: string, q: char)
    requires IsQuote(q)
    ensures GetIncludePath(StringToken([q] + path + [q])) == Some(path)
  {
    var text := [q] + path + [q];
    assert text[1..|text| - 1] == path;
  }

  /** An unquoted token is taken as it stands. */
  lemma UnquotedPathKept(text: string)
    requires text == [] || !IsQuote(text[0])
    ensures GetIncludePath(StringToken(text)) == Some(text)
  {
  }

  // ---------------------------------------------------------------------
  // The include closure
  // ---------------------------------------------------------------------

  type File = string

  /**
   * Each file's `%include` statements in document order, each resolved to
   * a file, or to None when it has no path or the path does not resolve.
   */
  type IncludeGraph = map<File, seq<Option<File>>>

  function Includes(graph: IncludeGraph, f: File): seq<Option<File>>
  {
    if f in graph then graph[f] else []
  }

  /** The files `f` includes directly. */
  function Targets(graph: IncludeGraph, f: File): set<File>
  {
    set k | 0 <= k < |Includes(graph, f)| && Includes(graph, f)[k].Some? :: Includes(graph, f)[k].value
  }

  /** The files of `s` and the files they include directly. */
  function Step(graph: IncludeGraph, s: set<File>): set<File>
  {
    s + set v, t | v in s && t in Targets(graph, v) :: t
  }

  /** The files reached from `root` through at most `n` includes. */
  function Reach(graph: IncludeGraph, root: File, n: nat): set<File>
  {
    if n == 0 then {root} else Step(graph, Reach(graph, root, n - 1))
  }

  ghost predicate Reachable(graph: IncludeGraph, root: File, f: File)
  {
    exists n: nat :: f in Reach(graph, root, n)
  }

  /** Every file the graph mentions. */
  function Nodes(graph: IncludeGraph): set<File>
  {
    Step(graph, graph.Keys)
  }

  /** The visited files are the root and the collected files. */
  ghost predicate Tracks(visited: set<File>, root: File, result: seq<File>)
  {
    forall x :: x in visited <==> x == root || x in result
  }

  /** Every file of `s`, except those of `open`, has all its includes in `s`. */
  ghost predicate Closed(graph: IncludeGraph, s: set<File>, open: set<File>)
  {
    forall v, t :: v in s && v !in open && t in Targets(graph, v) ==> t in s
  }

  /** Each collected file is included by the root or by a file collected before it. */
  ghost predicate DiscoveredInOrder(graph: IncludeGraph, root: File, result: seq<File>)
  {
    forall i :: 0 <= i < |result| ==>
      result[i] in Targets(graph, root) || exists j :: 0 <= j < i && result[i] in Targets(graph, result[j])
  }

  ghost predicate SoundResult(graph: IncludeGraph, root: File, result: seq<File>)
  {
    NoDuplicates(result) && root !in result && DiscoveredInOrder(graph, root, result)
  }

  /** Appending `g`, an include of `f` not yet visited, keeps the result sound and in step with `visited`. */
  lemma Append(graph: IncludeGraph, root: File, result: seq<File>, visited: set<File>, f: File, i: nat, g: File)
    requires SoundResult(graph, root, result) && (f == root || f in result)
    requires Tracks(visited, root, result) && g !in visited
    requires i < |Includes(graph, f)| && Includes(graph, f)[i] == Some(g)
    ensures SoundResult(graph, root, result + [g])
    ensures Tracks(visited + {g}, root, result + [g])
  {
    Discover(graph, root, result, g, f, i);
    var r := result + [g];
    assert forall k :: 0 <= k < |result| ==> r[k] == result[k];
  }

  /** Once all of `f`'s includes are visited, `f` may leave the open set. */
  lemma Finish(graph: IncludeGraph, visited: set<File>, open: set<File>, f: File)
    requires Closed(graph, visited, open)
    requires forall k :: 0 <= k < |Includes(graph, f)| && Includes(graph, f)[k].Some? ==> Includes(graph, f)[k].value in visited
    ensures Closed(graph, visited, open - {f})
  {
  }

  lemma Shrinks(n: set<File>, a: set<File>, b: set<File>, x: File)
    requires a + {x} <= b && x in n && x !in a
    ensures |n - b| < |n - a|
  {
    var smaller := (n - a) - {x};
    assert n - b <= smaller;
    SubsetCard(n - b, smaller);
    assert n - a == smaller + {x};
  }

  lemma {:induction false} SubsetCard(a: set<File>, b: set<File>)
    requires a <= b
    ensures |a| <= |b|
    decreases |b|
  {
    if a != {} {
      var x :| x in a;
      SubsetCard(a - {x}, b - {x});
    }
  }

  /** The `visited` set and `result` list that `collectIncludedFiles` threads through its recursion. */
  class IncludeCollector {
    const graph: IncludeGraph
    ghost const root: File
    var visited: set<File>
    var result: seq<File>

    constructor (graph: IncludeGraph, root: File)
      ensures this.graph == graph && this.root == root
      ensures visited == {} && result == []
    {
      this.graph := graph;
      this.root := root;
      visited := {};
      result := [];
    }

    /**
     * `collectIncludedFiles` on `f`, called on the root or right after `f`
     * joined the result; `open` holds the files whose own loop is still running.
     */
    method Collect(f: File, ghost open: set<File>)
      modifies this
      requires SoundResult(graph, root, result) && (f == root || f in result)
      requires Tracks(visited + {f}, root, result)
      requires open <= visited && f !in open
      requires Closed(graph, visited, open)
      ensures SoundResult(graph, root, result) && Tracks(visited, root, result)
      ensures f in visited && old(visited) <= visited && old(result) <= result
      ensures Closed(graph, visited, open)
      decreases |Nodes(graph) - visited|, 3
    {
      if f in visited {
        return;
      }
      visited := visited + {f};
      CollectIncludes(f, open);
      Finish(graph, visited, open + {f}, f);
      assert open + {f} - {f} == open;
    }

    /** The loop of `collectIncludedFiles` over the includes of `f`, which has just been marked visited. */
    method CollectIncludes(f: File, ghost open: set<File>)
      modifies this
      requires SoundResult(graph, root, result) && (f == root || f in result)
      requires Tracks(visited, root, result) && f in visited
      requires open <= visited && f !in open
      requires Closed(graph, visited, open + {f})
      ensures SoundResult(graph, root, result) && Tracks(visited, root, result)
      ensures old(visited) <= visited && old(result) <= result
      ensures Closed(graph, visited, open + {f})
      ensures forall k :: 0 <= k < |Includes(graph, f)| && Includes(graph, f)[k].Some? ==> Includes(graph, f)[k].value in visited
      decreases |Nodes(graph) - (visited - {f})|, 2
    {
      ghost var visited0 := visited;
      var includes := Includes(graph, f);
      for i := 0 to |includes|
        invariant Progress(f, open, visited0, i) && old(result) <= result
      {
        CollectInclude(f, i, open, visited0);
      }
    }

    /**
     * The state of the loop over the includes of `f` after `i` turns: the
     * result is sound and tracked, and the first `i` includes are visited.
     */
    ghost predicate Progress(f: File, open: set<File>, visited0: set<File>, i: nat)
      reads this
    {
      && i <= |Includes(graph, f)|
      && SoundResult(graph, root, result) && (f == root || f in result)
      && Tracks(visited, root, result) && f in visited0 && visited0 <= visited
      && open <= visited0 && f !in open
      && Closed(graph, visited, open + {f})
      && forall k :: 0 <= k < i && Includes(graph, f)[k].Some? ==> Includes(graph, f)[k].value in visited
    }

    /** One turn of the loop over the includes of `f`: the `i`-th include is visited unless it already was. */
    method CollectInclude(f: File, i: nat, ghost open: set<File>, ghost visited0: set<File>)
      modifies this
      requires i < |Includes(graph, f)| && Progress(f, open, visited0, i)
      ensures Progress(f, open, visited0, i + 1) && old(result) <= result
      decreases |Nodes(graph) - (visited0 - {f})|, 1
    {
      var next := Includes(graph, f)[i];
      if next.Some? && next.value !in visited {
        assert f in graph.Keys;
        Shrinks(Nodes(graph), visited0 - {f}, visited, f);
        Visit(f, i, next.value, open + {f});
      }
    }

    /** The loop body of `collectIncludedFiles`: an unvisited include `g` of `f` joins the result and is collected. */
    method Visit(f: File, i: nat, g: File, ghost open: set<File>)
      modifies this
      requires SoundResult(graph, root, result) && (f == root || f in result)
      requires Tracks(visited, root, result) && g !in visited
      requires i < |Includes(graph, f)| && Includes(graph, f)[i] == Some(g)
      requires open <= visited && Closed(graph, visited, open)
      ensures SoundResult(graph, root, result) && Tracks(visited, root, result)
      ensures old(visited) + {g} <= visited && old(result) <= result
      ensures Closed(graph, visited, open)
      decreases |Nodes(graph) - visited| + 1, 0
    {
      Append(graph, root, result, visited, f, i, g);
      result := result + [g];
      Collect(g, open);
    }
  }

  /** Appending `g`, an include of `f`, keeps the result in discovery order. */
  lemma Discover(graph: IncludeGraph, root: File, result: seq<File>, g: File, f: File, i: nat)
    requires f == root || f in result
    requires i < |Includes(graph, f)| && Includes(graph, f)[i] == Some(g)
    requires DiscoveredInOrder(graph, root, result)
    ensures DiscoveredInOrder(graph, root, result + [g])
  {
    assert g in Targets(graph, f);
    var r := result + [g];
    if f != root {
      var j :| 0 <= j < |result| && result[j] == f;
      assert r[j] == f;
    }
    forall n | 0 <= n < |r|
      ensures r[n] in Targets(graph, root) || exists j :: 0 <= j < n && r[n] in Targets(graph, r[j])
    {
      if n < |result| {
        assert r[n] == result[n];
        if r[n] !in Targets(graph, root) {
          var j :| 0 <= j < n && result[n] in Targets(graph, result[j]);
          assert r[j] == result[j];
        }
      }
    }
  }

  lemma {:induction false} ReachGrows(graph: IncludeGraph, root: File, m: nat, n: nat)
    requires m <= n
    ensures Reach(graph, root, m) <= Reach(graph, root, n)
    decreases n - m
  {
    if m < n {
      ReachGrows(graph, root, m, n - 1);
    }
  }

  /** A set holding the root and closed under includes holds everything reachable. */
  lemma {:induction false} ClosedHoldsReach(graph: IncludeGraph, root: File, s: set<File>, n: nat)
    requires root in s && Closed(graph, s, {})
    ensures Reach(graph, root, n) <= s
    decreases n
  {
    if n > 0 {
      ClosedHoldsReach(graph, root, s, n - 1);
    }
  }

  /** A file collected in discovery order is reachable within one more include than its position. */
  lemma {:induction false} DiscoveredReached(graph: IncludeGraph, root: File, result: seq<File>, i: nat)
    requires DiscoveredInOrder(graph, root, result) && i < |result|
    ensures result[i] in Reach(graph, root, i + 1)
    decreases i
  {
    var j := DiscoveredFrom(graph, root, result, i);
    var m: nat := j + 1;
    if j >= 0 {
      DiscoveredReached(graph, root, result, j);
    }
    assert (if j < 0 then root else result[j]) in Reach(graph, root, m);
    ReachNext(graph, root, m, if j < 0 then root else result[j], result[i]);
    ReachGrows(graph, root, m + 1, i + 1);
  }

  /** The earlier file, or the root (-1), whose includes name `result[i]`. */
  lemma DiscoveredFrom(graph: IncludeGraph, root: File, result: seq<File>, i: nat) returns (j: int)
    requires DiscoveredInOrder(graph, root, result) && i < |result|
    ensures -1 <= j < i
    ensures j < 0 ==> result[i] in Targets(graph, root)
    ensures j >= 0 ==> result[i] in Targets(graph, result[j])
  {
    if result[i] in Targets(graph, root) {
      j := -1;
    } else {
      j :| 0 <= j < i && result[i] in Targets(graph, result[j]);
    }
  }

  /** One more include step reaches the includes of every file reached so far. */
  lemma ReachNext(graph: IncludeGraph, root: File, n: nat, v: File, t: File)
    requires v in Reach(graph, root, n) && t in Targets(graph, v)
    ensures t in Reach(graph, root, n + 1)
  {
    assert Reach(graph, root, n + 1) == Step(graph, Reach(graph, root, n));
    StepContains(graph, Reach(graph, root, n), v, t);
  }

  lemma StepContains(graph: IncludeGraph, s: set<File>, v: File, t: File)
    requires v in s && t in Targets(graph, v)
    ensures t in Step(graph, s)
  {
  }

  /**
   * `getIncludedFiles`: every file reachable from `root` through resolved
   * includes, each once and never `root` itself, also when includes form cycles.
   */
  method IncludedFiles(graph: IncludeGraph, root: File) returns (files: seq<File>)
    ensures NoDuplicates(files) && root !in files
    ensures forall x :: x in files <==> x != root && Reachable(graph, root, x)
  {
    var c := new IncludeCollector(graph, root);
    c.Collect(root, {});
    files := c.result;
    forall x | x in files
      ensures Reachable(graph, root, x)
    {
      var i :| 0 <= i < |files| && files[i] == x;
      DiscoveredReached(graph, root, files, i);
    }
    forall x | x != root && Reachable(graph, root, x)
      ensures x in files
    {
      var n: nat :| x in Reach(graph, root, n);
      ClosedHoldsReach(graph, root, c.visited, n);
    }
  }
}
