// The operand summary of an instruction: its variants grouped by the base
// types of their operands, the sizes of each group merged position by
// position, and one sorted line per group.
module VariantGroups {
  import opened Seqs
  import opened Text
  import opened LinkedMaps
  import opened InstructionDatabase
  import opened OperandDocs
  import StringOrder

  // ---------------------------------------------------------------- a variant's pattern

  /** An operand's type name parsed into its base type and size. */
  function ParsedType(op: OperandSpec): (string, string)
  {
    ParseOperandType(OperandTypeName(op.operandType))
  }

  /** The base type of an operand. */
  function BaseOf(op: OperandSpec): string
  {
    ParsedType(op).0
  }

  /** The size of an operand, "" when its type carries none. */
  function SizeOf(op: OperandSpec): string
  {
    ParsedType(op).1
  }

  function IsOptional(op: OperandSpec): bool
  {
    op.optional
  }

  /** f applied to each element in turn. */
  function MapEach<A, B>(s: seq<A>, f: A -> B): seq<B>
  {
    if s == [] then [] else MapEach(s[..|s| - 1], f) + [f(s[|s| - 1])]
  }

  /** Position k of the list comes from element k. */
  lemma {:induction false} MapEachIndex<A, B>(s: seq<A>, f: A -> B)
    ensures |MapEach(s, f)| == |s|
    ensures forall k :: 0 <= k < |s| ==> MapEach(s, f)[k] == f(s[k])
    decreases |s|
  {
    if s != [] {
      var init := s[..|s| - 1];
      MapEachIndex(init, f);
      assert forall k :: 0 <= k < |init| ==> init[k] == s[k];
    }
  }

  /** A variant's base types, sizes and optional flags, position by position. */
  datatype Pattern = Pattern(types: seq<string>, sizes: seq<string>, optional: seq<bool>)

  function PatternOf(v: InstructionVariant): Pattern
  {
    Pattern(MapEach(v.operands, BaseOf), MapEach(v.operands, SizeOf), MapEach(v.operands, IsOptional))
  }

  /** The patterns of the variants, in order. */
  function PatternsOf(variants: seq<InstructionVariant>): seq<Pattern>
  {
    MapEach(variants, PatternOf)
  }

  /** The pattern key: the base types joined with commas. */
  function KeyOf(p: Pattern): string
  {
    JoinWith(p.types, ",")
  }

  // ---------------------------------------------------------------- the pattern map

  /** A group of variants: its base types and optional flags, and the sizes seen at each position as a sorted set. */
  datatype PatternGroup = PatternGroup(operandTypes: seq<string>, sizesByPosition: map<nat, seq<string>>, optional: seq<bool>)

  /** The sizes recorded at a position, none when the position has no entry. */
  function SizesAt(m: map<nat, seq<string>>, idx: nat): seq<string>
  {
    if idx in m then m[idx] else []
  }

  /** Recording each non-empty size at its position. */
  function AddSizes(m: map<nat, seq<string>>, sizes: seq<string>): map<nat, seq<string>>
  {
    if sizes == [] then m
    else
      var before := AddSizes(m, sizes[..|sizes| - 1]);
      var idx := |sizes| - 1;
      if sizes[idx] == "" then before
      else before[idx := StringOrder.AddToSet(SizesAt(before, idx), sizes[idx])]
  }

  /** The group of the pattern's key once the pattern is in: `getOrPut`, then its sizes recorded. */
  function AbsorbedGroup(m: map<string, PatternGroup>, p: Pattern): PatternGroup
  {
    var key := KeyOf(p);
    var group := if key in m then m[key] else PatternGroup(p.types, map[], p.optional);
    group.(sizesByPosition := AddSizes(group.sizesByPosition, p.sizes))
  }

  /** The pattern map after the patterns, as entries in first-insertion order. */
  function GroupsOf(patterns: seq<Pattern>): seq<(string, PatternGroup)>
  {
    if patterns == [] then []
    else
      var before := GroupsOf(patterns[..|patterns| - 1]);
      var p := patterns[|patterns| - 1];
      Put(before, KeyOf(p), AbsorbedGroup(MapOf(before), p))
  }

  // ---------------------------------------------------------------- the lines

  /** The operand at a position, with its sizes, in brackets when the group marks it optional. */
  function FormattedOperand(g: PatternGroup, idx: nat): string
    requires idx < |g.operandTypes|
  {
    var formatted := FormatOperandWithSizes(g.operandTypes[idx], SizesAt(g.sizesByPosition, idx));
    if idx < |g.optional| && g.optional[idx] then "[" + formatted + "]" else formatted
  }

  /** A group's line: its operands joined with ", ", or "" when it has none. */
  function Render(g: PatternGroup): string
  {
    if g.operandTypes == [] then ""
    else JoinWith(seq(|g.operandTypes|, k requires 0 <= k < |g.operandTypes| => FormattedOperand(g, k)), ", ")
  }

  /** The lines of the groups, the empty ones dropped. */
  function NonEmptyRenders(groups: seq<PatternGroup>): seq<string>
  {
    if groups == [] then []
    else
      var line := Render(groups[|groups| - 1]);
      NonEmptyRenders(groups[..|groups| - 1]) + (if line == "" then [] else [line])
  }

  /** `groupVariantsByPattern`: the sorted non-empty lines of the pattern map. */
  function GroupedLines(variants: seq<InstructionVariant>): seq<string>
  {
    StringOrder.Sort(NonEmptyRenders(Values(GroupsOf(PatternsOf(variants)))))
  }

  // ---------------------------------------------------------------- the loops

  /** The inner loop over a variant's operands: each type parsed into its base and size, with its optional flag. */
  method SplitOperands(ops: seq<OperandSpec>) returns (types: seq<string>, sizes: seq<string>, optional: seq<bool>)
    ensures Pattern(types, sizes, optional) == PatternOf(InstructionVariant(ops))
  {
    types, sizes, optional := [], [], [];
    for j := 0 to |ops|
      invariant types == MapEach(ops[..j], BaseOf)
      invariant sizes == MapEach(ops[..j], SizeOf)
      invariant optional == MapEach(ops[..j], IsOptional)
    {
      assert ops[..j + 1][..j] == ops[..j];
      var parsed := ParseOperandType(OperandTypeName(ops[j].operandType));
      types := types + [parsed.0];
      sizes := sizes + [parsed.1];
      optional := optional + [ops[j].optional];
    }
    assert ops[..|ops|] == ops;
  }

  /** The `forEachIndexed` over the sizes: each non-empty size added to its position's set. */
  method RecordSizes(m: map<nat, seq<string>>, sizes: seq<string>) returns (sizesByPosition: map<nat, seq<string>>)
    ensures sizesByPosition == AddSizes(m, sizes)
  {
    sizesByPosition := m;
    for idx := 0 to |sizes|
      invariant sizesByPosition == AddSizes(m, sizes[..idx])
    {
      assert sizes[..idx + 1][..idx] == sizes[..idx];
      if sizes[idx] != "" {
        var seen := if idx in sizesByPosition then sizesByPosition[idx] else [];
        sizesByPosition := sizesByPosition[idx := StringOrder.AddToSet(seen, sizes[idx])];
      }
    }
    assert sizes[..|sizes|] == sizes;
  }

  /** The `map` and `filter` over the groups: each group's line, the empty ones dropped. */
  method RenderGroups(groups: seq<PatternGroup>) returns (rendered: seq<string>)
    ensures rendered == NonEmptyRenders(groups)
  {
    rendered := [];
    for g := 0 to |groups|
      invariant rendered == NonEmptyRenders(groups[..g])
    {
      var line := Render(groups[g]);
      NonEmptyRendersStep(groups, g, line);
      if line != "" {
        rendered := rendered + [line];
      }
    }
    assert groups[..|groups|] == groups;
  }

  /** One more group adds its line unless the line is empty. */
  lemma NonEmptyRendersStep(groups: seq<PatternGroup>, g: nat, line: string)
    requires g < |groups| && line == Render(groups[g])
    ensures NonEmptyRenders(groups[..g + 1]) == NonEmptyRenders(groups[..g]) + if line == "" then [] else [line]
  {
    assert groups[..g + 1][..g] == groups[..g];
  }

  /** `groupVariantsByPattern` as the source runs it, loop by loop. */
  method GroupVariantsByPattern(variants: seq<InstructionVariant>) returns (lines: seq<string>)
    ensures lines == GroupedLines(variants)
  {
    var patternMap: seq<(string, PatternGroup)> := [];
    ghost var patterns: seq<Pattern> := [];
    for i := 0 to |variants|
      invariant patterns == PatternsOf(variants[..i])
      invariant patternMap == GroupsOf(patterns)
    {
      var types, sizes, optional := SplitOperands(variants[i].operands);
      var key := JoinWith(types, ",");
      var group := if key in MapOf(patternMap) then MapOf(patternMap)[key] else PatternGroup(types, map[], optional);
      var sizesByPosition := RecordSizes(group.sizesByPosition, sizes);
      patternMap := Put(patternMap, key, group.(sizesByPosition := sizesByPosition));
      assert variants[..i + 1][..i] == variants[..i];
      patterns := patterns + [Pattern(types, sizes, optional)];
      assert patterns[..|patterns| - 1] == PatternsOf(variants[..i]);
    }
    assert variants[..|variants|] == variants;
    var rendered := RenderGroups(Values(patternMap));
    lines := StringOrder.Sort(rendered);
  }

  // ---------------------------------------------------------------- the groups

  /** The pattern map as a map from key to group. */
  function Groups(patterns: seq<Pattern>): map<string, PatternGroup>
  {
    MapOf(GroupsOf(patterns))
  }

  /** Some pattern has the key. */
  predicate HasKey(patterns: seq<Pattern>, key: string)
  {
    exists i :: 0 <= i < |patterns| && KeyOf(patterns[i]) == key
  }

  /** Pattern i is the first with the key. */
  predicate FirstWithKey(patterns: seq<Pattern>, key: string, i: nat)
  {
    i < |patterns| && KeyOf(patterns[i]) == key && forall j :: 0 <= j < i ==> KeyOf(patterns[j]) != key
  }

  /** Some pattern with the key has the size s at position idx. */
  predicate SizeSeen(patterns: seq<Pattern>, key: string, idx: nat, s: string)
  {
    exists i :: 0 <= i < |patterns| && KeyOf(patterns[i]) == key && idx < |patterns[i].sizes| && patterns[i].sizes[idx] == s
  }

  /** Recording sizes keeps each position a sorted set and adds exactly the non-empty size at that position. */
  lemma {:induction false} AddSizesAt(m: map<nat, seq<string>>, sizes: seq<string>, idx: nat)
    requires StringOrder.StrictlySorted(SizesAt(m, idx))
    ensures StringOrder.StrictlySorted(SizesAt(AddSizes(m, sizes), idx))
    ensures forall s :: s in SizesAt(AddSizes(m, sizes), idx) <==>
      s in SizesAt(m, idx) || (idx < |sizes| && sizes[idx] == s && s != "")
    decreases |sizes|
  {
    if sizes != [] {
      var init := sizes[..|sizes| - 1];
      AddSizesAt(m, init, idx);
      var before := AddSizes(m, init);
      var last := |sizes| - 1;
      if idx == last && sizes[last] != "" {
        StringOrder.AddToSetSpec(SizesAt(before, idx), sizes[last]);
      }
      if idx < last {
        assert init[idx] == sizes[idx];
      }
    }
  }

  /** The pattern map never holds a key twice. */
  lemma {:induction false} GroupsNoDuplicates(patterns: seq<Pattern>)
    ensures NoDuplicates(Keys(GroupsOf(patterns)))
    decreases |patterns|
  {
    if patterns != [] {
      var init := patterns[..|patterns| - 1];
      GroupsNoDuplicates(init);
      var last := patterns[|patterns| - 1];
      PutNoDuplicates(GroupsOf(init), KeyOf(last), AbsorbedGroup(Groups(init), last));
    }
  }

  /** Entering a pattern updates only its own key's group. */
  lemma GroupsStep(patterns: seq<Pattern>)
    requires patterns != []
    ensures var init := patterns[..|patterns| - 1];
      var last := patterns[|patterns| - 1];
      Groups(patterns) == Groups(init)[KeyOf(last) := AbsorbedGroup(Groups(init), last)]
  {
    var init := patterns[..|patterns| - 1];
    var last := patterns[|patterns| - 1];
    GroupsNoDuplicates(init);
    PutMap(GroupsOf(init), KeyOf(last), AbsorbedGroup(Groups(init), last));
  }

  /** With one more pattern, a key is had when it was had before or the new pattern has it. */
  lemma HasKeyStep(patterns: seq<Pattern>, key: string)
    requires patterns != []
    ensures HasKey(patterns, key) <==> HasKey(patterns[..|patterns| - 1], key) || KeyOf(patterns[|patterns| - 1]) == key
  {
    var init := patterns[..|patterns| - 1];
    if HasKey(patterns, key) {
      var i :| 0 <= i < |patterns| && KeyOf(patterns[i]) == key;
      if i < |init| {
        assert init[i] == patterns[i];
      }
    }
    if HasKey(init, key) {
      var i :| 0 <= i < |init| && KeyOf(init[i]) == key;
      assert patterns[i] == init[i];
    }
  }

  /** There is a group for a key exactly when some pattern has that key. */
  lemma {:induction false} GroupKeys(patterns: seq<Pattern>)
    ensures forall key :: key in Groups(patterns) <==> HasKey(patterns, key)
    decreases |patterns|
  {
    if patterns != [] {
      GroupKeys(patterns[..|patterns| - 1]);
      GroupsStep(patterns);
      forall key {
        HasKeyStep(patterns, key);
      }
    }
  }

  /** A group's base types and optional flags are those of the first pattern with its key. */
  lemma {:induction false} GroupFirst(patterns: seq<Pattern>, key: string, i: nat)
    requires FirstWithKey(patterns, key, i)
    ensures key in Groups(patterns)
    ensures Groups(patterns)[key].operandTypes == patterns[i].types
    ensures Groups(patterns)[key].optional == patterns[i].optional
    decreases |patterns|
  {
    var init := patterns[..|patterns| - 1];
    GroupsStep(patterns);
    GroupKeys(init);
    if i == |patterns| - 1 {
      assert !HasKey(init, key) by {
        forall j | 0 <= j < |init|
          ensures KeyOf(init[j]) != key
        {
          assert init[j] == patterns[j];
        }
      }
    } else {
      assert forall j :: 0 <= j < i ==> init[j] == patterns[j];
      GroupFirst(init, key, i);
    }
  }

  /** A size seen among the patterns was seen before the last one or at the last one. */
  lemma SizeSeenStep(patterns: seq<Pattern>, key: string, idx: nat, s: string)
    requires patterns != []
    ensures var init := patterns[..|patterns| - 1];
      var last := patterns[|patterns| - 1];
      SizeSeen(patterns, key, idx, s) <==>
        SizeSeen(init, key, idx, s) || (KeyOf(last) == key && idx < |last.sizes| && last.sizes[idx] == s)
  {
    var init := patterns[..|patterns| - 1];
    if SizeSeen(patterns, key, idx, s) {
      var i :| 0 <= i < |patterns| && KeyOf(patterns[i]) == key && idx < |patterns[i].sizes| && patterns[i].sizes[idx] == s;
      if i < |init| {
        assert init[i] == patterns[i];
      }
    }
    if SizeSeen(init, key, idx, s) {
      var i :| 0 <= i < |init| && KeyOf(init[i]) == key && idx < |init[i].sizes| && init[i].sizes[idx] == s;
      assert patterns[i] == init[i];
    }
  }

  /**
   * At each position a group holds, as a sorted set, exactly the non-empty
   * sizes that the patterns with its key have there.
   */
  lemma {:induction false} GroupSizes(patterns: seq<Pattern>, key: string, idx: nat)
    requires key in Groups(patterns)
    ensures StringOrder.StrictlySorted(SizesAt(Groups(patterns)[key].sizesByPosition, idx))
    ensures forall s :: s in SizesAt(Groups(patterns)[key].sizesByPosition, idx) <==>
      s != "" && SizeSeen(patterns, key, idx, s)
    decreases |patterns|
  {
    var init := patterns[..|patterns| - 1];
    var last := patterns[|patterns| - 1];
    GroupsStep(patterns);
    GroupKeys(init);
    forall s {
      SizeSeenStep(patterns, key, idx, s);
    }
    if key == KeyOf(last) {
      if key in Groups(init) {
        GroupSizes(init, key, idx);
        AddSizesAt(Groups(init)[key].sizesByPosition, last.sizes, idx);
      } else {
        assert forall s :: !SizeSeen(init, key, idx, s);
        AddSizesAt(map[], last.sizes, idx);
      }
    } else {
      GroupSizes(init, key, idx);
    }
  }

  // ---------------------------------------------------------------- the key determines the types

  /** Every base type of the pattern is non-empty and has no comma. */
  predicate CleanTypes(p: Pattern)
  {
    forall k :: 0 <= k < |p.types| ==> p.types[k] != "" && ',' !in p.types[k]
  }

  /** The base types the parse gives are clean. */
  lemma PatternClean(v: InstructionVariant)
    ensures CleanTypes(PatternOf(v))
  {
    MapEachIndex(v.operands, BaseOf);
    forall k | 0 <= k < |v.operands|
      ensures BaseOf(v.operands[k]) != "" && ',' !in BaseOf(v.operands[k])
    {
      TypeNameClean(v.operands[k].operandType);
      BaseClean(OperandTypeName(v.operands[k].operandType));
    }
  }

  /** Two clean patterns with the same key have the same base types: joining with commas loses nothing. */
  lemma SameKeySameTypes(p: Pattern, q: Pattern)
    requires CleanTypes(p) && CleanTypes(q) && KeyOf(p) == KeyOf(q)
    ensures p.types == q.types
  {
    if p.types != [] {
      JoinWithEnds(p.types, ",");
    }
    if q.types != [] {
      JoinWithEnds(q.types, ",");
    }
    if p.types != [] && q.types != [] {
      SplitJoin(p.types, ',');
      SplitJoin(q.types, ',');
    }
  }

  /** The first pattern with a key, found from any pattern with it. */
  lemma {:induction false} FindFirst(patterns: seq<Pattern>, key: string, i: nat) returns (j: nat)
    requires i < |patterns| && KeyOf(patterns[i]) == key
    ensures j <= i && FirstWithKey(patterns, key, j)
    decreases i
  {
    if exists j0 :: 0 <= j0 < i && KeyOf(patterns[j0]) == key {
      var j0 :| 0 <= j0 < i && KeyOf(patterns[j0]) == key;
      j := FindFirst(patterns, key, j0);
    } else {
      j := i;
    }
  }

  /** Every variant with a group's key has exactly the group's base types. */
  lemma GroupTypes(variants: seq<InstructionVariant>, i: nat)
    requires i < |variants|
    ensures var patterns := PatternsOf(variants);
      KeyOf(PatternOf(variants[i])) in Groups(patterns) &&
      Groups(patterns)[KeyOf(PatternOf(variants[i]))].operandTypes == MapEach(variants[i].operands, BaseOf)
  {
    var patterns := PatternsOf(variants);
    MapEachIndex(variants, PatternOf);
    var key := KeyOf(patterns[i]);
    var j := FindFirst(patterns, key, i);
    GroupFirst(patterns, key, j);
    PatternClean(variants[i]);
    PatternClean(variants[j]);
    SameKeySameTypes(patterns[j], patterns[i]);
  }

  /**
   * An operand is bracketed exactly when the first variant with the group's
   * key marks it optional, whatever later variants with that key say.
   */
  lemma OptionalBracketed(variants: seq<InstructionVariant>, i: nat, idx: nat)
    requires i < |variants| && FirstWithKey(PatternsOf(variants), KeyOf(PatternOf(variants[i])), i)
    requires idx < |variants[i].operands|
    ensures KeyOf(PatternOf(variants[i])) in Groups(PatternsOf(variants))
    ensures var g := Groups(PatternsOf(variants))[KeyOf(PatternOf(variants[i]))];
      var op := variants[i].operands[idx];
      var formatted := FormatOperandWithSizes(BaseOf(op), SizesAt(g.sizesByPosition, idx));
      idx < |g.operandTypes| && FormattedOperand(g, idx) == if op.optional then "[" + formatted + "]" else formatted
  {
    var patterns := PatternsOf(variants);
    MapEachIndex(variants, PatternOf);
    GroupFirst(patterns, KeyOf(patterns[i]), i);
    MapEachIndex(variants[i].operands, BaseOf);
    MapEachIndex(variants[i].operands, IsOptional);
  }

  /** Some variant with the key has an operand of size s at position idx. */
  predicate VariantSizeSeen(variants: seq<InstructionVariant>, key: string, idx: nat, s: string)
  {
    exists j :: 0 <= j < |variants| && KeyOf(PatternOf(variants[j])) == key &&
      idx < |variants[j].operands| && SizeOf(variants[j].operands[idx]) == s
  }

  /**
   * At each position the group of a variant's key lists, as a sorted set, the
   * non-empty sizes that the variants with that key have there.
   */
  lemma VariantSizes(variants: seq<InstructionVariant>, i: nat, idx: nat, s: string)
    requires i < |variants|
    ensures var key := KeyOf(PatternOf(variants[i]));
      key in Groups(PatternsOf(variants)) &&
      var sizes := SizesAt(Groups(PatternsOf(variants))[key].sizesByPosition, idx);
      StringOrder.StrictlySorted(sizes) &&
      (s in sizes <==> s != "" && VariantSizeSeen(variants, key, idx, s))
  {
    var patterns := PatternsOf(variants);
    MapEachIndex(variants, PatternOf);
    var key := KeyOf(patterns[i]);
    GroupKeys(patterns);
    assert HasKey(patterns, key);
    GroupSizes(patterns, key, idx);
    if SizeSeen(patterns, key, idx, s) {
      var j :| 0 <= j < |patterns| && KeyOf(patterns[j]) == key && idx < |patterns[j].sizes| && patterns[j].sizes[idx] == s;
      MapEachIndex(variants[j].operands, SizeOf);
    }
    if VariantSizeSeen(variants, key, idx, s) {
      var j :| 0 <= j < |variants| && KeyOf(PatternOf(variants[j])) == key &&
        idx < |variants[j].operands| && SizeOf(variants[j].operands[idx]) == s;
      MapEachIndex(variants[j].operands, SizeOf);
      assert patterns[j].sizes[idx] == s;
    }
  }

  // ---------------------------------------------------------------- properties of the lines

  /** Some group of the list renders to l. */
  predicate SomeRenders(groups: seq<PatternGroup>, l: string)
  {
    exists i :: 0 <= i < |groups| && Render(groups[i]) == l
  }

  /** Some group of the pattern map renders to l. */
  predicate SomeGroupRenders(patterns: seq<Pattern>, l: string)
  {
    exists key :: key in Groups(patterns) && Render(Groups(patterns)[key]) == l
  }

  /** A line is listed iff it is non-empty and some group renders it. */
  lemma {:induction false} NonEmptyRendersIff(groups: seq<PatternGroup>)
    ensures forall l :: l in NonEmptyRenders(groups) <==> l != "" && SomeRenders(groups, l)
    decreases |groups|
  {
    if groups != [] {
      var init := groups[..|groups| - 1];
      NonEmptyRendersIff(init);
      forall l
        ensures SomeRenders(groups, l) <==> SomeRenders(init, l) || Render(groups[|groups| - 1]) == l
      {
        if SomeRenders(groups, l) {
          var i :| 0 <= i < |groups| && Render(groups[i]) == l;
          if i < |init| {
            assert init[i] == groups[i];
          }
        }
        if SomeRenders(init, l) {
          var i :| 0 <= i < |init| && Render(init[i]) == l;
          assert groups[i] == init[i];
        }
      }
    }
  }

  /** Each entry's group is the map's group for the entry's key. */
  lemma EntryGroup(patterns: seq<Pattern>, i: nat)
    requires i < |GroupsOf(patterns)|
    ensures GroupsOf(patterns)[i].0 in Groups(patterns)
    ensures Groups(patterns)[GroupsOf(patterns)[i].0] == GroupsOf(patterns)[i].1
  {
    var entries := GroupsOf(patterns);
    GroupsNoDuplicates(patterns);
    KeysIndex(entries);
    assert forall j :: i < j < |entries| ==> Keys(entries)[j] != Keys(entries)[i];
    MapOfLaterWins(entries, i);
  }

  /** The groups in the entry list are the groups of the map. */
  lemma GroupValues(patterns: seq<Pattern>)
    ensures forall g :: g in Values(GroupsOf(patterns)) <==> exists key :: key in Groups(patterns) && Groups(patterns)[key] == g
  {
    var entries := GroupsOf(patterns);
    forall g
      ensures g in Values(entries) <==> exists key :: key in Groups(patterns) && Groups(patterns)[key] == g
    {
      if g in Values(entries) {
        var i :| 0 <= i < |entries| && Values(entries)[i] == g;
        EntryGroup(patterns, i);
      }
      if exists key :: key in Groups(patterns) && Groups(patterns)[key] == g {
        var key :| key in Groups(patterns) && Groups(patterns)[key] == g;
        MapOfDomain(entries);
        var i :| 0 <= i < |entries| && entries[i].0 == key;
        EntryGroup(patterns, i);
        assert Values(entries)[i] == g;
      }
    }
  }

  /**
   * The result is sorted, holds one line per group whose line is not
   * empty, and a line is in it iff it is not empty and some group renders to it.
   */
  lemma GroupedLinesSpec(variants: seq<InstructionVariant>)
    ensures StringOrder.Sorted(GroupedLines(variants))
    ensures multiset(GroupedLines(variants)) == multiset(NonEmptyRenders(Values(GroupsOf(PatternsOf(variants)))))
    ensures forall l :: l in GroupedLines(variants) <==> l != "" && SomeGroupRenders(PatternsOf(variants), l)
  {
    var patterns := PatternsOf(variants);
    var groups := Values(GroupsOf(patterns));
    var rendered := NonEmptyRenders(groups);
    StringOrder.SortSpec(rendered);
    NonEmptyRendersIff(groups);
    GroupValues(patterns);
    forall l
      ensures l in GroupedLines(variants) <==> l in rendered
    {
      assert l in GroupedLines(variants) <==> l in multiset(GroupedLines(variants));
    }
    forall l
      ensures SomeRenders(groups, l) <==> SomeGroupRenders(patterns, l)
    {
      if SomeRenders(groups, l) {
        var i :| 0 <= i < |groups| && Render(groups[i]) == l;
        assert groups[i] in groups;
      }
      if SomeGroupRenders(patterns, l) {
        var key :| key in Groups(patterns) && Render(Groups(patterns)[key]) == l;
        var g := Groups(patterns)[key];
        assert g in groups;
        var i :| 0 <= i < |groups| && groups[i] == g;
      }
    }
  }

  // ---------------------------------------------------------------- the documented example

  /** One variant taking a single required operand of the given type. */
  function SingleOperand(t: OperandType): InstructionVariant
  {
    InstructionVariant([OperandSpec(t, false)])
  }

  /** The groups the r/m example builds, one variant after the other. */
  const RmGroup16 := PatternGroup(["r/m"], map[0 := ["16"]], [false])
  const RmGroup32 := PatternGroup(["r/m"], map[0 := ["16", "32"]], [false])
  const RmGroup64 := PatternGroup(["r/m"], map[0 := ["16", "32", "64"]], [false])

  /** Each r/m variant has the one base `r/m`, its size, and no optional operand. */
  lemma RmVariant(t: OperandType, size: string)
    requires (t == R_M16 && size == "16") || (t == R_M32 && size == "32") || (t == R_M64 && size == "64")
    ensures PatternOf(SingleOperand(t)) == Pattern(["r/m"], [size], [false])
    ensures KeyOf(PatternOf(SingleOperand(t))) == "r/m"
  {
    var ops := SingleOperand(t).operands;
    var name := OperandTypeName(t);
    assert name == "R_M" + size;
    assert StartsWith(name, "R_M") && name[3..] == size;
    assert ParsedType(ops[0]) == ("r/m", size);
    assert ops[..0] == [];
  }

  lemma RmFirst()
    ensures GroupsOf([Pattern(["r/m"], ["16"], [false])]) == [("r/m", RmGroup16)]
  {
    var p := Pattern(["r/m"], ["16"], [false]);
    assert [p][..0] == [];
    assert ["16"][..0] == [];
    assert AddSizes(map[], ["16"]) == map[0 := ["16"]];
    assert MapOf<string, PatternGroup>([]) == map[];
    assert AbsorbedGroup(map[], p) == RmGroup16;
  }

  lemma RmSecond()
    ensures GroupsOf([Pattern(["r/m"], ["16"], [false]), Pattern(["r/m"], ["32"], [false])]) == [("r/m", RmGroup32)]
  {
    var p := Pattern(["r/m"], ["32"], [false]);
    var ps := [Pattern(["r/m"], ["16"], [false]), p];
    RmFirst();
    assert ps[..1] == [Pattern(["r/m"], ["16"], [false])];
    assert [("r/m", RmGroup16)][..0] == [];
    assert MapOf([("r/m", RmGroup16)]) == map["r/m" := RmGroup16];
    assert StringOrder.Less("16", "32") && !StringOrder.LessEq("32", "16");
    assert StringOrder.AddToSet(["16"], "32") == ["16", "32"];
    assert ["32"][..0] == [];
    assert AddSizes(RmGroup16.sizesByPosition, ["32"]) == map[0 := ["16", "32"]];
    assert AbsorbedGroup(map["r/m" := RmGroup16], p) == RmGroup32;
  }

  lemma RmThird()
    ensures GroupsOf([Pattern(["r/m"], ["16"], [false]), Pattern(["r/m"], ["32"], [false]), Pattern(["r/m"], ["64"], [false])]) ==
      [("r/m", RmGroup64)]
  {
    var p := Pattern(["r/m"], ["64"], [false]);
    var ps := [Pattern(["r/m"], ["16"], [false]), Pattern(["r/m"], ["32"], [false]), p];
    RmSecond();
    assert ps[..2] == [Pattern(["r/m"], ["16"], [false]), Pattern(["r/m"], ["32"], [false])];
    assert [("r/m", RmGroup32)][..0] == [];
    assert MapOf([("r/m", RmGroup32)]) == map["r/m" := RmGroup32];
    assert !StringOrder.LessEq("64", "16") && !StringOrder.LessEq("64", "32");
    assert ["16", "32"][1..] == ["32"];
    assert StringOrder.AddToSet(["16", "32"], "64") == ["16", "32", "64"];
    assert ["64"][..0] == [];
    assert AddSizes(RmGroup32.sizesByPosition, ["64"]) == map[0 := ["16", "32", "64"]];
    assert AbsorbedGroup(map["r/m" := RmGroup32], p) == RmGroup64;
  }

  lemma RmRender()
    ensures Render(RmGroup64) == "r/m{16,32,64}"
  {
    assert ["16", "32", "64"][1..] == ["32", "64"];
    assert ["32", "64"][1..] == ["64"];
    assert JoinWith(["16", "32", "64"], ",") == "16,32,64";
    assert FormattedOperand(RmGroup64, 0) == "r/m{16,32,64}";
    assert seq(1, k requires 0 <= k < 1 => FormattedOperand(RmGroup64, k)) == ["r/m{16,32,64}"];
  }

  /** f over a three-element list. */
  lemma MapEachThree<A, B>(a: A, b: A, c: A, f: A -> B)
    ensures MapEach([a, b, c], f) == [f(a), f(b), f(c)]
  {
    assert [a][..0] == [];
    assert MapEach([a], f) == [f(a)];
    assert [a, b][..1] == [a];
    assert MapEach([a, b], f) == [f(a), f(b)];
    assert [a, b, c][..2] == [a, b];
  }

  lemma RmPatterns()
    ensures PatternsOf([SingleOperand(R_M16), SingleOperand(R_M32), SingleOperand(R_M64)]) ==
      [Pattern(["r/m"], ["16"], [false]), Pattern(["r/m"], ["32"], [false]), Pattern(["r/m"], ["64"], [false])]
  {
    RmVariant(R_M16, "16");
    RmVariant(R_M32, "32");
    RmVariant(R_M64, "64");
    MapEachThree(SingleOperand(R_M16), SingleOperand(R_M32), SingleOperand(R_M64), PatternOf);
  }

  lemma RmLines()
    ensures var ps := [Pattern(["r/m"], ["16"], [false]), Pattern(["r/m"], ["32"], [false]), Pattern(["r/m"], ["64"], [false])];
      StringOrder.Sort(NonEmptyRenders(Values(GroupsOf(ps)))) == ["r/m{16,32,64}"]
  {
    RmThird();
    RmRender();
    assert Values([("r/m", RmGroup64)]) == [RmGroup64];
    assert [RmGroup64][..0] == [];
    assert NonEmptyRenders([RmGroup64]) == ["r/m{16,32,64}"];
    assert ["r/m{16,32,64}"][..0] == [];
    assert StringOrder.Sort(["r/m{16,32,64}"]) == ["r/m{16,32,64}"];
  }

  /** PUSH's three r/m variants collapse to the one line `r/m{16,32,64}`. */
  lemma RegisterOrMemoryExample()
    ensures GroupedLines([SingleOperand(R_M16), SingleOperand(R_M32), SingleOperand(R_M64)]) == ["r/m{16,32,64}"]
  {
    RmPatterns();
    RmLines();
  }
}
