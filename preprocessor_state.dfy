// Which branches of `%if`/`%ifdef`/`%ifndef` blocks are active, given the
// macros defined on the command line and by `%define`/`%assign` before them.
module PreprocessorState {
  import opened Wrappers
  import opened Text
  import opened Seqs
  import CommandLineMacros
  import LinkedMaps

  datatype MacroDefinition = MacroDefinition(name: string, value: Option<string>, isCommandLine: bool)

  /** The condition of a directive.  A `%if` expression is not evaluated, so its text is not kept. */
  datatype ConditionalType = Ifdef(macroName: string) | Ifndef(macroName: string) | If

  /** A directive of a block: its offsets in the file and its condition. */
  datatype Directive = Directive(start: int, end: int, condition: ConditionalType)

  /** A conditional block: `%if…`, any `%elif…`, an optional `%else` (its start and end), the `%endif` start if present. */
  datatype ConditionalBlock = ConditionalBlock(
    ifDir: Directive,
    elifDirs: seq<Directive>,
    elseDir: Option<(int, int)>,
    endifStart: Option<int>,
    blockEnd: int)

  datatype BranchType = IF | ELIF | ELSE

  datatype ConditionalBranch = ConditionalBranch(startOffset: int, endOffset: int, isActive: bool, branchType: BranchType)

  /**
   * `extractConditionType`: the directive keyword, compared lower-cased, and
   * the macro name it refers to (empty when there is none).
   */
  function ExtractConditionType(keyword: string, macroName: Option<string>): (r: ConditionalType)
    ensures r.Ifdef? <==> Lower(keyword) == "%ifdef" || Lower(keyword) == "%elifdef"
    ensures r.Ifndef? <==> Lower(keyword) == "%ifndef" || Lower(keyword) == "%elifndef"
    ensures (r.Ifdef? || r.Ifndef?) ==> r.macroName == macroName.GetOr("")
  {
    var k := Lower(keyword);
    if k == "%ifdef" || k == "%elifdef" then Ifdef(macroName.GetOr(""))
    else if k == "%ifndef" || k == "%elifndef" then Ifndef(macroName.GetOr(""))
    else If
  }

  /** The keyword's case does not matter. */
  lemma ExtractIgnoresCase(keyword: string, macroName: Option<string>)
    ensures ExtractConditionType(keyword, macroName) == ExtractConditionType(Lower(keyword), macroName)
  {
    LowerIdempotent(keyword);
  }

  /** `evaluateCondition`: known for `%ifdef`/`%ifndef`, unknown (`None`) for `%if`. */
  function EvaluateCondition(c: ConditionalType, macros: map<string, MacroDefinition>): Option<bool>
  {
    match c
    case Ifdef(n) => Some(n in macros)
    case Ifndef(n) => Some(n !in macros)
    case If => None
  }

  /** `%ifdef` holds iff the name is defined, `%ifndef` is its negation, and `%if` is never known. */
  lemma ConditionMeaning(n: string, macros: map<string, MacroDefinition>)
    ensures EvaluateCondition(Ifdef(n), macros) == Some(true) <==> n in macros
    ensures EvaluateCondition(Ifndef(n), macros).Some? && EvaluateCondition(Ifdef(n), macros).Some?
    ensures EvaluateCondition(Ifndef(n), macros).value == !EvaluateCondition(Ifdef(n), macros).value
    ensures EvaluateCondition(If, macros).None?
  {
  }

  /** The condition results of the `%if` and then each `%elif`, in order. */
  function Conditions(block: ConditionalBlock, macros: map<string, MacroDefinition>): (r: seq<Option<bool>>)
    ensures |r| == |block.elifDirs| + 1
    ensures r[0] == EvaluateCondition(block.ifDir.condition, macros)
  {
    ConditionsUpTo(block, macros, |block.elifDirs|)
  }

  /** The condition results of the `%if` and the first `k` `%elif`s. */
  function ConditionsUpTo(block: ConditionalBlock, macros: map<string, MacroDefinition>, k: nat): (r: seq<Option<bool>>)
    requires k <= |block.elifDirs|
    ensures |r| == k + 1
    ensures r[0] == EvaluateCondition(block.ifDir.condition, macros)
    ensures forall i :: 0 <= i < k ==> r[i + 1] == EvaluateCondition(block.elifDirs[i].condition, macros)
  {
    if k == 0 then [EvaluateCondition(block.ifDir.condition, macros)]
    else ConditionsUpTo(block, macros, k - 1) + [EvaluateCondition(block.elifDirs[k - 1].condition, macros)]
  }

  lemma ConditionAt(block: ConditionalBlock, macros: map<string, MacroDefinition>, i: nat)
    requires i < |block.elifDirs|
    ensures Conditions(block, macros)[i + 1] == EvaluateCondition(block.elifDirs[i].condition, macros)
  {
  }

  /** The number of leading conditions that could be evaluated. */
  function KnownCount(conds: seq<Option<bool>>): (m: nat)
    ensures m <= |conds|
    ensures forall j :: 0 <= j < m ==> conds[j].Some?
    ensures m < |conds| ==> conds[m].None?
  {
    if conds == [] || conds[0].None? then 0
    else
      var m := KnownCount(conds[1..]);
      assert forall j :: 1 <= j < m + 1 ==> conds[j] == conds[1..][j - 1];
      1 + m
  }

  /** Branch `k` is the first whose condition holds. */
  predicate FirstTrue(conds: seq<Option<bool>>, k: nat)
    requires k < |conds|
  {
    conds[k] == Some(true) && forall j :: 0 <= j < k ==> conds[j] == Some(false)
  }

  /** None of the first `m` conditions holds. */
  predicate NoneTrue(conds: seq<Option<bool>>, m: nat)
    requires m <= |conds|
  {
    forall j :: 0 <= j < m ==> conds[j] == Some(false)
  }

  /** A branch is reported only when its range is non-empty. */
  function MakeBranch(start: int, end: int, active: bool, t: BranchType): (r: seq<ConditionalBranch>)
    ensures |r| <= 1
    ensures r != [] <==> end > start
    ensures r != [] ==> r[0] == ConditionalBranch(start, end, active, t)
  {
    if end > start then [ConditionalBranch(start, end, active, t)] else []
  }

  /** Where the branches that run to the block's end stop: the `%endif`, or the block's own end. */
  function BlockStop(block: ConditionalBlock): int
  {
    block.endifStart.GetOr(block.blockEnd)
  }

  /** `getIfBranchRange` end: the first `%elif`, else the `%else`, else the block's stop. */
  function IfEnd(block: ConditionalBlock): int
  {
    if |block.elifDirs| > 0 then block.elifDirs[0].start
    else if block.elseDir.Some? then block.elseDir.value.0
    else BlockStop(block)
  }

  function IfBranch(block: ConditionalBlock, active: bool): seq<ConditionalBranch>
  {
    MakeBranch(block.ifDir.end, IfEnd(block), active, IF)
  }

  /** `getElifBranchRange`: up to the next `%elif` or `%else`, or the `%endif`; with none of them there is no range. */
  function ElifBranch(block: ConditionalBlock, i: nat, active: bool): seq<ConditionalBranch>
    requires i < |block.elifDirs|
  {
    var next :=
      if i + 1 < |block.elifDirs| then Some(block.elifDirs[i + 1].start)
      else if block.elseDir.Some? then Some(block.elseDir.value.0)
      else block.endifStart;
    match next
    case None => []
    case Some(end) => MakeBranch(block.elifDirs[i].end, end, active, ELIF)
  }

  function ElseBranch(block: ConditionalBlock, active: bool): seq<ConditionalBranch>
    requires block.elseDir.Some?
  {
    MakeBranch(block.elseDir.value.1, BlockStop(block), active, ELSE)
  }

  /** The branches of the first `k` `%elif`s, `flags[i]` saying whether the `i`-th is active. */
  function ElifBranches(block: ConditionalBlock, flags: seq<bool>, k: nat): seq<ConditionalBranch>
    requires k <= |block.elifDirs| && |flags| == |block.elifDirs|
  {
    if k == 0 then [] else ElifBranches(block, flags, k - 1) + ElifBranch(block, k - 1, flags[k - 1])
  }

  /** An `%elif` is active iff it is the first branch whose condition holds. */
  function ElifFlags(block: ConditionalBlock, conds: seq<Option<bool>>): (flags: seq<bool>)
    requires |conds| == |block.elifDirs| + 1
    ensures |flags| == |block.elifDirs|
  {
    seq(|block.elifDirs|, i requires 0 <= i < |block.elifDirs| => FirstTrue(conds, i + 1))
  }

  lemma FlagAt(block: ConditionalBlock, conds: seq<Option<bool>>, i: nat)
    requires |conds| == |block.elifDirs| + 1 && i < |block.elifDirs|
    ensures ElifFlags(block, conds)[i] == FirstTrue(conds, i + 1)
  {
  }

  /**
   * The branches of a block under an active parent: the `%if` branch is active
   * iff its condition holds, an `%elif` iff it is the first one that holds, the
   * `%else` iff none holds.  Branches are reported up to the first condition
   * that cannot be evaluated; with an unknown `%if` condition there are none.
   */
  function BlockBranches(block: ConditionalBlock, macros: map<string, MacroDefinition>): seq<ConditionalBranch>
  {
    var conds := Conditions(block, macros);
    var m := KnownCount(conds);
    if m == 0 then []
    else
      IfBranch(block, conds[0] == Some(true))
        + ElifBranches(block, ElifFlags(block, conds), m - 1)
        + (if m == |conds| && block.elseDir.Some? then ElseBranch(block, NoneTrue(conds, |conds|)) else [])
  }

  lemma BlockBranchesStopped(block: ConditionalBlock, macros: map<string, MacroDefinition>, i: nat)
    requires i < |block.elifDirs|
    requires forall j :: 0 <= j <= i ==> Conditions(block, macros)[j].Some?
    requires Conditions(block, macros)[i + 1].None?
    ensures BlockBranches(block, macros)
            == IfBranch(block, Conditions(block, macros)[0] == Some(true)) + ElifBranches(block, ElifFlags(block, Conditions(block, macros)), i)
  {
    var conds := Conditions(block, macros);
    assert KnownCount(conds) == i + 1;
  }

  lemma BlockBranchesComplete(block: ConditionalBlock, macros: map<string, MacroDefinition>)
    requires forall j :: 0 <= j < |Conditions(block, macros)| ==> Conditions(block, macros)[j].Some?
    ensures BlockBranches(block, macros)
            == IfBranch(block, Conditions(block, macros)[0] == Some(true))
               + ElifBranches(block, ElifFlags(block, Conditions(block, macros)), |block.elifDirs|)
               + (if block.elseDir.Some? then ElseBranch(block, NoneTrue(Conditions(block, macros), |block.elifDirs| + 1)) else [])
  {
    var conds := Conditions(block, macros);
    assert KnownCount(conds) == |conds|;
  }

  lemma NoneTrueStep(conds: seq<Option<bool>>, i: nat)
    requires i + 1 < |conds| && conds[i + 1].Some?
    ensures FirstTrue(conds, i + 1) == (NoneTrue(conds, i + 1) && conds[i + 1].value)
    ensures NoneTrue(conds, i + 2) == (NoneTrue(conds, i + 1) && !conds[i + 1].value)
  {
  }

  /** `evaluateConditionalBlock`, with its running `activeBranchFound` flag. */
  method EvaluateConditionalBlock(block: ConditionalBlock, macros: map<string, MacroDefinition>) returns (branches: seq<ConditionalBranch>)
    ensures branches == BlockBranches(block, macros)
  {
    ghost var conds := Conditions(block, macros);
    var ifResult := EvaluateCondition(block.ifDir.condition, macros);
    if ifResult.None? {
      return [];
    }
    var activeBranchFound := ifResult.value;
    branches := IfBranch(block, ifResult.value);
    assert branches + [] == branches;
    for i := 0 to |block.elifDirs|
      invariant Scanned(block, macros, i, activeBranchFound, branches)
    {
      var elifResult := EvaluateCondition(block.elifDirs[i].condition, macros);
      ConditionAt(block, macros, i);
      if elifResult.None? {
        BlockBranchesStopped(block, macros, i);
        return;
      }
      var elifTrue := !activeBranchFound && elifResult.value;
      ScanStep(block, macros, i, activeBranchFound, branches);
      if elifTrue {
        activeBranchFound := true;
      }
      branches := branches + ElifBranch(block, i, elifTrue);
    }
    BlockBranchesComplete(block, macros);
    if block.elseDir.Some? {
      branches := branches + ElseBranch(block, !activeBranchFound);
    } else {
      assert branches + [] == branches;
    }
  }

  /**
   * The state of `evaluateConditionalBlock` after the first `i` `%elif`s:
   * every condition so far is known, `found` says whether one held, and the
   * branches are the `%if` branch and those of the first `i` `%elif`s.
   */
  ghost predicate Scanned(block: ConditionalBlock, macros: map<string, MacroDefinition>, i: nat, found: bool, branches: seq<ConditionalBranch>)
  {
    var conds := Conditions(block, macros);
    && i <= |block.elifDirs|
    && (forall j :: 0 <= j <= i ==> conds[j].Some?)
    && found == !NoneTrue(conds, i + 1)
    && branches == IfBranch(block, conds[0] == Some(true)) + ElifBranches(block, ElifFlags(block, conds), i)
  }

  /** One `%elif` whose condition is known: it is active iff it holds and none before did. */
  lemma ScanStep(block: ConditionalBlock, macros: map<string, MacroDefinition>, i: nat, found: bool, branches: seq<ConditionalBranch>)
    requires i < |block.elifDirs| && Scanned(block, macros, i, found, branches)
    requires Conditions(block, macros)[i + 1].Some?
    ensures var t := !found && Conditions(block, macros)[i + 1].value;
      Scanned(block, macros, i + 1, found || t, branches + ElifBranch(block, i, t))
  {
    var conds := Conditions(block, macros);
    var flags := ElifFlags(block, conds);
    var t := !found && conds[i + 1].value;
    NoneTrueStep(conds, i);
    FlagAt(block, conds, i);
    assert t == flags[i];
    var ifPart := IfBranch(block, conds[0] == Some(true));
    assert branches + ElifBranch(block, i, t) == ifPart + ElifBranches(block, flags, i + 1);
    assert forall j :: 0 <= j <= i + 1 ==> conds[j].Some?;
  }

  /** The branches of a block under an inactive parent: every one reported, none active. */
  /** `n` flags, none of them set. */
  function NoFlags(n: nat): (r: seq<bool>)
    ensures |r| == n && forall i :: 0 <= i < n ==> !r[i]
  {
    if n == 0 then [] else NoFlags(n - 1) + [false]
  }

  function InactiveBranches(block: ConditionalBlock): seq<ConditionalBranch>
  {
    IfBranch(block, false)
      + ElifBranches(block, NoFlags(|block.elifDirs|), |block.elifDirs|)
      + (if block.elseDir.Some? then ElseBranch(block, false) else [])
  }

  /** `markAllBranchesInactive`. */
  method MarkAllBranchesInactive(block: ConditionalBlock) returns (branches: seq<ConditionalBranch>)
    ensures branches == InactiveBranches(block)
  {
    ghost var flags := NoFlags(|block.elifDirs|);
    branches := IfBranch(block, false);
    ghost var ifPart := branches;
    for i := 0 to |block.elifDirs|
      invariant branches == ifPart + ElifBranches(block, flags, i)
    {
      branches := branches + ElifBranch(block, i, false);
    }
    if block.elseDir.Some? {
      branches := branches + ElseBranch(block, false);
    } else {
      assert branches + [] == branches;
    }
  }

  function CountActive(bs: seq<ConditionalBranch>): nat
  {
    if bs == [] then 0 else (if bs[0].isActive then 1 else 0) + CountActive(bs[1..])
  }

  lemma {:induction false} CountActiveConcat(a: seq<ConditionalBranch>, b: seq<ConditionalBranch>)
    ensures CountActive(a + b) == CountActive(a) + CountActive(b)
    decreases |a|
  {
    if a == [] {
      assert a + b == b;
    } else {
      assert (a + b)[1..] == a[1..] + b;
      CountActiveConcat(a[1..], b);
    }
  }

  /** The index of the first condition that holds, if every condition before it is known to fail. */
  function FirstTrueIndex(conds: seq<Option<bool>>): (r: Option<nat>)
    ensures r.Some? ==> r.value < |conds|
  {
    if conds == [] || conds[0].None? then None
    else if conds[0].value then Some(0)
    else match FirstTrueIndex(conds[1..])
      case None => None
      case Some(j) => Some(j + 1)
  }

  lemma {:induction false} FirstTrueIndexSpec(conds: seq<Option<bool>>, k: nat)
    requires k < |conds|
    ensures FirstTrue(conds, k) <==> FirstTrueIndex(conds) == Some(k)
    ensures NoneTrue(conds, |conds|) ==> FirstTrueIndex(conds).None?
    decreases |conds|
  {
    if k > 0 {
      FirstTrueIndexSpec(conds[1..], k - 1);
      assert FirstTrue(conds, k) <==> conds[0] == Some(false) && FirstTrue(conds[1..], k - 1) by {
        assert forall j :: 1 <= j < k ==> conds[j] == conds[1..][j - 1];
      }
      assert NoneTrue(conds, |conds|) ==> NoneTrue(conds[1..], |conds| - 1) by {
        assert forall j :: 0 <= j < |conds| - 1 ==> conds[1..][j] == conds[j + 1];
      }
    } else if |conds| > 1 {
      FirstTrueIndexSpec(conds[1..], 0);
      assert NoneTrue(conds, |conds|) ==> NoneTrue(conds[1..], |conds| - 1) by {
        assert forall j :: 0 <= j < |conds| - 1 ==> conds[1..][j] == conds[j + 1];
      }
    }
  }

  /** How many of the first `k` `%elif` branches can be active: only the first that holds, if any. */
  function ElifActiveBound(conds: seq<Option<bool>>, k: nat): nat
  {
    match FirstTrueIndex(conds)
    case Some(j) => if 1 <= j <= k then 1 else 0
    case None => 0
  }

  lemma ElifActiveCount(block: ConditionalBlock, conds: seq<Option<bool>>, k: nat)
    requires |conds| == |block.elifDirs| + 1 && k <= |block.elifDirs|
    ensures CountActive(ElifBranches(block, ElifFlags(block, conds), k)) <= ElifActiveBound(conds, k)
  {
    var flags := ElifFlags(block, conds);
    var first := FirstTrueIndex(conds);
    forall i | 0 <= i < |flags|
      ensures flags[i] == (first == Some(i + 1))
    {
      FlagIsIndex(block, conds, i);
    }
    FlagsActiveCount(block, flags, k, first);
  }

  /** When only the `%elif` whose index `first` names is flagged, at most that one of the first `k` is active. */
  lemma {:induction false} FlagsActiveCount(block: ConditionalBlock, flags: seq<bool>, k: nat, first: Option<nat>)
    requires |flags| == |block.elifDirs| && k <= |block.elifDirs|
    requires forall i :: 0 <= i < |flags| ==> flags[i] == (first == Some(i + 1))
    ensures CountActive(ElifBranches(block, flags, k)) <= if first.Some? && 1 <= first.value <= k then 1 else 0
    decreases k
  {
    if k > 0 {
      var before := ElifBranches(block, flags, k - 1);
      var last := ElifBranch(block, k - 1, flags[k - 1]);
      assert ElifBranches(block, flags, k) == before + last;
      FlagsActiveCount(block, flags, k - 1, first);
      ElifBranchActive(block, k - 1, flags[k - 1]);
      CountActiveConcat(before, last);
      if first == Some(k) {
        assert CountActive(before) == 0;
      } else {
        assert CountActive(last) == 0;
      }
    }
  }

  lemma FlagIsIndex(block: ConditionalBlock, conds: seq<Option<bool>>, i: nat)
    requires |conds| == |block.elifDirs| + 1 && i < |block.elifDirs|
    ensures ElifFlags(block, conds)[i] == (FirstTrueIndex(conds) == Some(i + 1))
  {
    FlagAt(block, conds, i);
    FirstTrueIndexSpec(conds, i + 1);
  }

  lemma ElifBranchActive(block: ConditionalBlock, i: nat, active: bool)
    requires i < |block.elifDirs|
    ensures CountActive(ElifBranch(block, i, active)) <= if active then 1 else 0
  {
  }

  /** At most one branch of a block is active. */
  lemma AtMostOneActive(block: ConditionalBlock, macros: map<string, MacroDefinition>)
    ensures CountActive(BlockBranches(block, macros)) <= 1
  {
    var conds := Conditions(block, macros);
    var m := KnownCount(conds);
    if m > 0 {
      var hasElse := m == |conds| && block.elseDir.Some?;
      var ifPart := IfBranch(block, conds[0] == Some(true));
      var elifs := ElifBranches(block, ElifFlags(block, conds), m - 1);
      var elsePart := if hasElse then ElseBranch(block, NoneTrue(conds, |conds|)) else [];
      assert BlockBranches(block, macros) == ifPart + elifs + elsePart;
      CountActiveThree(ifPart, elifs, elsePart);
      PartsAtMostOne(block, conds, m - 1, hasElse);
    }
  }

  lemma CountActiveThree(a: seq<ConditionalBranch>, b: seq<ConditionalBranch>, c: seq<ConditionalBranch>)
    ensures CountActive(a + b + c) == CountActive(a) + CountActive(b) + CountActive(c)
  {
    CountActiveConcat(a + b, c);
    CountActiveConcat(a, b);
  }

  /** The `%if` branch, the first `k` `%elif` branches and the `%else` branch hold at most one active branch. */
  lemma PartsAtMostOne(block: ConditionalBlock, conds: seq<Option<bool>>, k: nat, hasElse: bool)
    requires |conds| == |block.elifDirs| + 1 && k < |conds|
    requires hasElse ==> block.elseDir.Some?
    ensures CountActive(IfBranch(block, conds[0] == Some(true)))
          + CountActive(ElifBranches(block, ElifFlags(block, conds), k))
          + CountActive(if hasElse then ElseBranch(block, NoneTrue(conds, |conds|)) else [])
          <= 1
  {
    IfPartActive(block, conds[0] == Some(true));
    ElifActiveCount(block, conds, k);
    ElsePartActive(block, conds, hasElse);
    BoundsAtMostOne(conds, k, hasElse);
    SumAtMostOne(CountActive(IfBranch(block, conds[0] == Some(true))),
                 CountActive(ElifBranches(block, ElifFlags(block, conds), k)),
                 CountActive(if hasElse then ElseBranch(block, NoneTrue(conds, |conds|)) else []),
                 if conds[0] == Some(true) then 1 else 0,
                 ElifActiveBound(conds, k),
                 if hasElse && NoneTrue(conds, |conds|) then 1 else 0);
  }

  lemma SumAtMostOne(a: nat, b: nat, c: nat, x: nat, y: nat, z: nat)
    requires a <= x && b <= y && c <= z && x + y + z <= 1
    ensures a + b + c <= 1
  {
  }

  lemma IfPartActive(block: ConditionalBlock, active: bool)
    ensures CountActive(IfBranch(block, active)) <= if active then 1 else 0
  {
    MakeBranchActive(block.ifDir.end, IfEnd(block), active, IF);
  }

  lemma ElsePartActive(block: ConditionalBlock, conds: seq<Option<bool>>, hasElse: bool)
    requires hasElse ==> block.elseDir.Some?
    ensures CountActive(if hasElse then ElseBranch(block, NoneTrue(conds, |conds|)) else [])
            <= if hasElse && NoneTrue(conds, |conds|) then 1 else 0
  {
    if hasElse {
      MakeBranchActive(block.elseDir.value.1, BlockStop(block), NoneTrue(conds, |conds|), ELSE);
    }
  }

  /** Only the first condition that holds can make its branch active. */
  lemma BoundsAtMostOne(conds: seq<Option<bool>>, k: nat, hasElse: bool)
    requires k < |conds|
    ensures (if conds[0] == Some(true) then 1 else 0) + ElifActiveBound(conds, k)
          + (if hasElse && NoneTrue(conds, |conds|) then 1 else 0) <= 1
  {
    FirstTrueIndexSpec(conds, 0);
    assert FirstTrue(conds, 0) <==> conds[0] == Some(true);
  }

  lemma MakeBranchActive(start: int, end: int, active: bool, t: BranchType)
    ensures CountActive(MakeBranch(start, end, active, t)) <= if active then 1 else 0
  {
  }

  /** Every reported branch covers a non-empty range. */
  predicate NonEmptyRanges(bs: seq<ConditionalBranch>)
  {
    forall i :: 0 <= i < |bs| ==> bs[i].endOffset > bs[i].startOffset
  }

  lemma {:induction false} ElifRangesNonEmpty(block: ConditionalBlock, flags: seq<bool>, k: nat)
    requires k <= |block.elifDirs| && |flags| == |block.elifDirs|
    ensures NonEmptyRanges(ElifBranches(block, flags, k))
    decreases k
  {
    if k > 0 {
      ElifRangesNonEmpty(block, flags, k - 1);
    }
  }

  lemma BranchRangesNonEmpty(block: ConditionalBlock, macros: map<string, MacroDefinition>)
    ensures NonEmptyRanges(BlockBranches(block, macros))
    ensures NonEmptyRanges(InactiveBranches(block))
  {
    var conds := Conditions(block, macros);
    var m := KnownCount(conds);
    if m > 0 {
      var hasElse := m == |conds| && block.elseDir.Some?;
      var elifs := ElifBranches(block, ElifFlags(block, conds), m - 1);
      var elsePart := if hasElse then ElseBranch(block, NoneTrue(conds, |conds|)) else [];
      assert BlockBranches(block, macros) == IfBranch(block, conds[0] == Some(true)) + elifs + elsePart;
      ElifRangesNonEmpty(block, ElifFlags(block, conds), m - 1);
      PartsNonEmpty(block, conds[0] == Some(true), elifs, hasElse, NoneTrue(conds, |conds|));
    }
    ElifRangesNonEmpty(block, NoFlags(|block.elifDirs|), |block.elifDirs|);
    PartsNonEmpty(block, false, ElifBranches(block, NoFlags(|block.elifDirs|), |block.elifDirs|), block.elseDir.Some?, false);
  }

  lemma PartsNonEmpty(block: ConditionalBlock, ifActive: bool, elifs: seq<ConditionalBranch>, hasElse: bool, elseActive: bool)
    requires NonEmptyRanges(elifs) && (hasElse ==> block.elseDir.Some?)
    ensures NonEmptyRanges(IfBranch(block, ifActive) + elifs + (if hasElse then ElseBranch(block, elseActive) else []))
  {
    var a := IfBranch(block, ifActive);
    var c := if hasElse then ElseBranch(block, elseActive) else [];
    assert NonEmptyRanges(a) && NonEmptyRanges(c);
    var r := a + elifs + c;
    forall i | 0 <= i < |r|
      ensures r[i].endOffset > r[i].startOffset
    {
      if i < |a| {
        assert r[i] == a[i];
      } else if i < |a| + |elifs| {
        assert r[i] == elifs[i - |a|];
      } else {
        assert r[i] == c[i - |a| - |elifs|];
      }
    }
  }

  /** The same branch with its activity cleared. */
  function Deactivate(bs: seq<ConditionalBranch>): (r: seq<ConditionalBranch>)
    ensures |r| == |bs|
    ensures forall i :: 0 <= i < |bs| ==> r[i] == bs[i].(isActive := false)
  {
    seq(|bs|, i requires 0 <= i < |bs| => bs[i].(isActive := false))
  }

  lemma DeactivateConcat(a: seq<ConditionalBranch>, b: seq<ConditionalBranch>)
    ensures Deactivate(a + b) == Deactivate(a) + Deactivate(b)
  {
  }

  lemma {:induction false} ElifShapes(block: ConditionalBlock, flags: seq<bool>, k: nat)
    requires k <= |block.elifDirs| && |flags| == |block.elifDirs|
    ensures Deactivate(ElifBranches(block, flags, k)) == ElifBranches(block, NoFlags(|block.elifDirs|), k)
    decreases k
  {
    if k > 0 {
      ElifShapes(block, flags, k - 1);
      DeactivateConcat(ElifBranches(block, flags, k - 1), ElifBranch(block, k - 1, flags[k - 1]));
    }
  }

  /** Under an inactive parent no branch is active. */
  lemma InactiveParentBranches(block: ConditionalBlock)
    ensures CountActive(InactiveBranches(block)) == 0
  {
    var none := NoFlags(|block.elifDirs|);
    var elifs := ElifBranches(block, none, |block.elifDirs|);
    var elsePart := if block.elseDir.Some? then ElseBranch(block, false) else [];
    ElifActiveZero(block, |block.elifDirs|);
    CountActiveConcat(IfBranch(block, false) + elifs, elsePart);
    CountActiveConcat(IfBranch(block, false), elifs);
  }

  /** When every condition is known, an inactive parent reports the same branches as an active one, deactivated. */
  lemma InactiveSameBranches(block: ConditionalBlock, macros: map<string, MacroDefinition>)
    requires KnownCount(Conditions(block, macros)) == |block.elifDirs| + 1
    ensures Deactivate(BlockBranches(block, macros)) == InactiveBranches(block)
  {
    var conds := Conditions(block, macros);
    var flags := ElifFlags(block, conds);
    var activeElifs := ElifBranches(block, flags, |block.elifDirs|);
    var activeElse := if block.elseDir.Some? then ElseBranch(block, NoneTrue(conds, |conds|)) else [];
    var ifPart := IfBranch(block, conds[0] == Some(true));
    assert BlockBranches(block, macros) == ifPart + activeElifs + activeElse;
    DeactivateConcat(ifPart + activeElifs, activeElse);
    DeactivateConcat(ifPart, activeElifs);
    ElifShapes(block, flags, |block.elifDirs|);
    ElseShape(block, NoneTrue(conds, |conds|));
    assert Deactivate(ifPart) == IfBranch(block, false);
  }

  lemma ElseShape(block: ConditionalBlock, active: bool)
    ensures block.elseDir.Some? ==> Deactivate(ElseBranch(block, active)) == ElseBranch(block, false)
  {
  }

  lemma {:induction false} ElifActiveZero(block: ConditionalBlock, k: nat)
    requires k <= |block.elifDirs|
    ensures CountActive(ElifBranches(block, NoFlags(|block.elifDirs|), k)) == 0
    decreases k
  {
    if k > 0 {
      var none := NoFlags(|block.elifDirs|);
      ElifActiveZero(block, k - 1);
      CountActiveConcat(ElifBranches(block, none, k - 1), ElifBranch(block, k - 1, none[k - 1]));
    }
  }

  /** The parts of a file the evaluator looks at; anything else is `Other` with its children. */
  datatype Element =
    | Block(block: ConditionalBlock)
    | Define(defineName: Option<string>)
    | Assign(assignName: Option<string>)
    | Other(children: seq<Element>)

  datatype EvalState = EvalState(macros: map<string, MacroDefinition>, branches: seq<ConditionalBranch>)

  /**
   * `evaluateFileRecursively` on one element: a block's branches are reported
   * (and its contents not entered); `%define`/`%assign` record their name when
   * the parent is active; other elements are walked child by child.
   */
  function WalkOne(e: Element, st: EvalState, parentActive: bool): EvalState
    decreases e, 1
  {
    match e
    case Block(b) =>
      if parentActive then st.(branches := st.branches + BlockBranches(b, st.macros))
      else st.(branches := st.branches + InactiveBranches(b))
    case Define(n) =>
      if parentActive && n.Some? then st.(macros := st.macros[n.value := MacroDefinition(n.value, None, false)]) else st
    case Assign(n) =>
      if parentActive && n.Some? then st.(macros := st.macros[n.value := MacroDefinition(n.value, None, false)]) else st
    case Other(kids) => WalkAll(kids, st, parentActive)
  }

  function WalkAll(es: seq<Element>, st: EvalState, parentActive: bool): EvalState
    decreases es, 0
  {
    if es == [] then st else WalkOne(es[|es| - 1], WalkAll(es[..|es| - 1], st, parentActive), parentActive)
  }

  /** `evaluateFileRecursively`, updating the macro map and the branch list. */
  method EvaluateRecursively(e: Element, macros: map<string, MacroDefinition>, branches: seq<ConditionalBranch>, parentActive: bool)
    returns (macrosOut: map<string, MacroDefinition>, branchesOut: seq<ConditionalBranch>)
    ensures EvalState(macrosOut, branchesOut) == WalkOne(e, EvalState(macros, branches), parentActive)
    decreases e, 1
  {
    macrosOut, branchesOut := macros, branches;
    match e {
      case Block(b) =>
        if parentActive {
          var found := EvaluateConditionalBlock(b, macros);
          branchesOut := branches + found;
        } else {
          var marked := MarkAllBranchesInactive(b);
          branchesOut := branches + marked;
        }
      case Define(n) =>
        if parentActive && n.Some? {
          macrosOut := macros[n.value := MacroDefinition(n.value, None, false)];
        }
      case Assign(n) =>
        if parentActive && n.Some? {
          macrosOut := macros[n.value := MacroDefinition(n.value, None, false)];
        }
      case Other(kids) =>
        for i := 0 to |kids|
          invariant EvalState(macrosOut, branchesOut) == WalkAll(kids[..i], EvalState(macros, branches), parentActive)
        {
          assert kids[..i + 1][..i] == kids[..i];
          assert kids[i] in kids;
          macrosOut, branchesOut := EvaluateRecursively(kids[i], macrosOut, branchesOut, parentActive);
        }
        assert kids[..|kids|] == kids;
    }
  }

  /** Walking never removes a macro or a reported branch (there is no `%undef`). */
  lemma {:induction false} WalkOneGrows(e: Element, st: EvalState, parentActive: bool)
    ensures st.branches <= WalkOne(e, st, parentActive).branches
    ensures forall n :: n in st.macros ==> n in WalkOne(e, st, parentActive).macros
    ensures !parentActive ==> WalkOne(e, st, parentActive).macros == st.macros
    decreases e, 1
  {
    match e
    case Other(kids) => WalkAllGrows(kids, st, parentActive);
    case _ =>
  }

  lemma {:induction false} WalkAllGrows(es: seq<Element>, st: EvalState, parentActive: bool)
    ensures st.branches <= WalkAll(es, st, parentActive).branches
    ensures forall n :: n in st.macros ==> n in WalkAll(es, st, parentActive).macros
    ensures !parentActive ==> WalkAll(es, st, parentActive).macros == st.macros
    decreases es, 0
  {
    if es != [] {
      var mid := WalkAll(es[..|es| - 1], st, parentActive);
      WalkAllGrows(es[..|es| - 1], st, parentActive);
      WalkOneGrows(es[|es| - 1], mid, parentActive);
    }
  }

  /** A `%define` seen before a block makes that block's `%ifdef` of the name hold. */
  lemma DefineThenIfdef(name: string, b: ConditionalBlock, st: EvalState)
    requires b.ifDir.condition == Ifdef(name)
    ensures WalkAll([Define(Some(name)), Block(b)], st, true).branches
            == st.branches + BlockBranches(b, st.macros[name := MacroDefinition(name, None, false)])
    ensures Conditions(b, st.macros[name := MacroDefinition(name, None, false)])[0] == Some(true)
  {
    var es := [Define(Some(name)), Block(b)];
    var defined := st.(macros := st.macros[name := MacroDefinition(name, None, false)]);
    assert es[..1] == [Define(Some(name))];
    assert es[..1][..0] == [];
    assert WalkAll(es[..1], st, true) == WalkOne(Define(Some(name)), st, true) == defined;
    assert WalkAll(es, st, true) == WalkOne(Block(b), defined, true);
  }

  /** The command-line macros as macro definitions, by name. */
  function CommandLinePairs(cmd: seq<CommandLineMacros.CommandLineMacro>): (r: seq<(string, MacroDefinition)>)
    ensures |r| == |cmd|
    ensures forall i :: 0 <= i < |cmd| ==> r[i] == (cmd[i].name, MacroDefinition(cmd[i].name, cmd[i].value, true))
    decreases |cmd|
  {
    if cmd == [] then []
    else
      var m := cmd[|cmd| - 1];
      CommandLinePairs(cmd[..|cmd| - 1]) + [(m.name, MacroDefinition(m.name, m.value, true))]
  }

  lemma CommandLinePairsSnoc(cmd: seq<CommandLineMacros.CommandLineMacro>, i: nat)
    requires i < |cmd|
    ensures MapOf(CommandLinePairs(cmd[..i + 1]))
            == MapOf(CommandLinePairs(cmd[..i]))[cmd[i].name := MacroDefinition(cmd[i].name, cmd[i].value, true)]
  {
    assert cmd[..i + 1][..i] == cmd[..i];
    MapOfSnoc(CommandLinePairs(cmd[..i]), cmd[i].name, MacroDefinition(cmd[i].name, cmd[i].value, true));
  }

  function InitialMacros(cmd: seq<CommandLineMacros.CommandLineMacro>): map<string, MacroDefinition>
  {
    MapOf(CommandLinePairs(cmd))
  }

  /** Every command-line macro starts out defined, and nothing else does. */
  lemma InitialMacrosDefined(cmd: seq<CommandLineMacros.CommandLineMacro>)
    ensures forall n :: n in InitialMacros(cmd) <==> exists i :: 0 <= i < |cmd| && cmd[i].name == n
    ensures forall n :: n in InitialMacros(cmd) ==> InitialMacros(cmd)[n].isCommandLine
  {
    MapOfDomain(CommandLinePairs(cmd));
    MapOfValues(CommandLinePairs(cmd));
  }

  lemma {:induction false} MapOfValues(pairs: seq<(string, MacroDefinition)>)
    requires forall i :: 0 <= i < |pairs| ==> pairs[i].1.isCommandLine
    ensures forall n :: n in MapOf(pairs) ==> MapOf(pairs)[n].isCommandLine
    decreases |pairs|
  {
    if pairs != [] {
      MapOfValues(pairs[..|pairs| - 1]);
    }
  }

  /**
   * `doEvaluateFile`: the global command-line macros (no per-file ones: no file
   * is passed) start out defined, then the file's root is walked as active.
   */
  method DoEvaluateFile(setting: string, root: Element) returns (branches: seq<ConditionalBranch>)
    ensures branches == WalkOne(root, EvalState(InitialMacros(LinkedMaps.Values(CommandLineMacros.Merged(CommandLineMacros.GlobalMacros(setting), []))), []), true).branches
  {
    var cmd := CommandLineMacros.CommandLineMacros(setting, None);
    var macros: map<string, MacroDefinition> := map[];
    for i := 0 to |cmd|
      invariant macros == MapOf(CommandLinePairs(cmd[..i]))
    {
      CommandLinePairsSnoc(cmd, i);
      macros := macros[cmd[i].name := MacroDefinition(cmd[i].name, cmd[i].value, true)];
    }
    assert cmd[..|cmd|] == cmd;
    var finalMacros;
    finalMacros, branches := EvaluateRecursively(root, macros, [], true);
  }
}
