// The instruction database: operand specifications of each variant,
// documentation, and the lookups by name and by prefix over the list of
// instructions the XML resource provides.
module InstructionDatabase {
  import opened Wrappers
  import opened Seqs
  import opened Text

  datatype Category =
    | DataMovement | Arithmetic | Logic | ControlFlow | StringOps
    | BitManipulation | System | FloatingPoint | Simd | Other

  datatype OperandType =
    | REG | REG8 | REG16 | REG32 | REG64 | MEM
    | IMM | IMM8 | IMM16 | IMM32 | IMM64 | LABEL
    | R_M | R_M8 | R_M16 | R_M32 | R_M64
    | SREG | CREG | DREG | XMM | YMM | ZMM | MM | ST | ANY

  datatype OperandSpec = OperandSpec(operandType: OperandType, optional: bool)

  /** One operand combination an instruction accepts. */
  datatype InstructionVariant = InstructionVariant(operands: seq<OperandSpec>)

  datatype InstructionDocumentation = InstructionDocumentation(
    summary: string, description: string, operation: string, flagsAffected: string, notes: string)

  datatype UnifiedInstruction = UnifiedInstruction(
    name: string, description: string, category: Category,
    variants: seq<InstructionVariant>, documentation: Option<InstructionDocumentation>)

  // ---------------------------------------------------------------- operand counts

  /** The operands a variant cannot do without, in order. */
  function RequiredOperands(ops: seq<OperandSpec>): (r: seq<OperandSpec>)
    ensures |r| <= |ops|
    ensures forall x :: x in r <==> x in ops && !x.optional
  {
    if ops == [] then [] else (if ops[0].optional then [] else [ops[0]]) + RequiredOperands(ops[1..])
  }

  /** All operands are required exactly when none is optional, and none is exactly when all are. */
  lemma {:induction false} RequiredOperandsCount(ops: seq<OperandSpec>)
    ensures |RequiredOperands(ops)| == |ops| <==> forall k :: 0 <= k < |ops| ==> !ops[k].optional
    ensures |RequiredOperands(ops)| == 0 <==> forall k :: 0 <= k < |ops| ==> ops[k].optional
  {
    if ops != [] {
      RequiredOperandsCount(ops[1..]);
      assert forall k :: 1 <= k < |ops| ==> ops[k] == ops[1..][k - 1];
    }
  }

  /** `operandCount`: the number of operands that are not optional. */
  function OperandCount(v: InstructionVariant): (n: nat)
    ensures n <= MaxOperandCount(v)
    ensures n == MaxOperandCount(v) <==> forall k :: 0 <= k < |v.operands| ==> !v.operands[k].optional
    ensures n == 0 <==> forall k :: 0 <= k < |v.operands| ==> v.operands[k].optional
  {
    RequiredOperandsCount(v.operands);
    |RequiredOperands(v.operands)|
  }

  /** `maxOperandCount`: every operand, optional or not. */
  function MaxOperandCount(v: InstructionVariant): nat
  {
    |v.operands|
  }

  /** The required operands of a concatenation are those of each part: the counts are additive over an operand list. */
  lemma {:induction false} RequiredOperandsAppend(a: seq<OperandSpec>, b: seq<OperandSpec>)
    ensures RequiredOperands(a + b) == RequiredOperands(a) + RequiredOperands(b)
  {
    if a != [] {
      assert (a + b)[1..] == a[1..] + b;
      RequiredOperandsAppend(a[1..], b);
      var head: seq<OperandSpec> := if a[0].optional then [] else [a[0]];
      assert RequiredOperands(a + b) == head + RequiredOperands(a[1..] + b);
      assert head + (RequiredOperands(a[1..]) + RequiredOperands(b)) == (head + RequiredOperands(a[1..])) + RequiredOperands(b);
    } else {
      assert a + b == b;
    }
  }

  // ---------------------------------------------------------------- documentation

  /** `isEmpty`: every field of the documentation is empty. */
  predicate IsEmpty(d: InstructionDocumentation)
  {
    d.summary == [] && d.description == [] && d.operation == [] && d.flagsAffected == [] && d.notes == []
  }

  /** `hasDocumentation`: there is documentation and it is not empty. */
  predicate HasDocumentation(i: UnifiedInstruction)
  {
    i.documentation.Some? && !IsEmpty(i.documentation.value)
  }

  /** `acceptsAnyOperands`: an instruction without variants takes any operands. */
  predicate AcceptsAnyOperands(i: UnifiedInstruction)
  {
    i.variants == []
  }

  /** An instruction is documented exactly when it has documentation with some non-empty field. */
  lemma HasDocumentationIff(i: UnifiedInstruction)
    ensures HasDocumentation(i) <==>
      match i.documentation
      case None => false
      case Some(d) => |d.summary| + |d.description| + |d.operation| + |d.flagsAffected| + |d.notes| > 0
  {
  }

  // ---------------------------------------------------------------- lookups

  /** The entries of the by-name map: each instruction under its lowercased name. */
  function Keyed(list: seq<UnifiedInstruction>): (r: seq<(string, UnifiedInstruction)>)
    ensures |r| == |list|
    ensures forall k :: 0 <= k < |r| ==> r[k] == (Lower(list[k].name), list[k])
  {
    seq(|list|, k requires 0 <= k < |list| => (Lower(list[k].name), list[k]))
  }

  /** `associateBy { it.name.lowercase() }`. */
  function ByName(list: seq<UnifiedInstruction>): map<string, UnifiedInstruction>
  {
    MapOf(Keyed(list))
  }

  /** `getInstruction`: the lookup of the lowercased name. */
  function GetInstruction(list: seq<UnifiedInstruction>, name: string): Option<UnifiedInstruction>
  {
    var m := ByName(list);
    if Lower(name) in m then Some(m[Lower(name)]) else None
  }

  /** No later instruction has the same name as the one at k, up to case. */
  predicate LastNamed(list: seq<UnifiedInstruction>, k: nat)
    requires k < |list|
  {
    forall l :: k < l < |list| ==> Lower(list[l].name) != Lower(list[k].name)
  }

  /** A lookup finds an instruction exactly when some instruction has the same name up to case. */
  lemma GetInstructionFound(list: seq<UnifiedInstruction>, name: string)
    ensures GetInstruction(list, name).Some? <==> exists k :: 0 <= k < |list| && Lower(list[k].name) == Lower(name)
  {
    var entries := Keyed(list);
    MapOfDomain(entries);
    if exists k :: 0 <= k < |list| && Lower(list[k].name) == Lower(name) {
      var k :| 0 <= k < |list| && Lower(list[k].name) == Lower(name);
      assert entries[k].0 == Lower(name);
    }
  }

  /** On names that are equal up to case, the last instruction of that name wins. */
  lemma GetInstructionLastWins(list: seq<UnifiedInstruction>, name: string, k: nat)
    requires k < |list| && Lower(list[k].name) == Lower(name) && LastNamed(list, k)
    ensures GetInstruction(list, name) == Some(list[k])
  {
    var entries := Keyed(list);
    forall l | k < l < |entries|
      ensures entries[l].0 != entries[k].0
    {
      assert entries[l].0 == Lower(list[l].name);
    }
    MapOfLaterWins(entries, k);
  }

  /** The lookup ignores case. */
  lemma GetInstructionIgnoresCase(list: seq<UnifiedInstruction>, name: string)
    ensures GetInstruction(list, name) == GetInstruction(list, Lower(name)) == GetInstruction(list, Upper(name))
  {
    LowerIdempotent(name);
    assert Lower(Upper(name)) == Lower(name);
  }

  /** The instructions that satisfy `p`, in the order of the list. */
  function Filter(list: seq<UnifiedInstruction>, p: UnifiedInstruction -> bool): (r: seq<UnifiedInstruction>)
    ensures |r| <= |list|
    ensures forall x :: x in r <==> x in list && p(x)
  {
    if list == [] then []
    else (if p(list[0]) then [list[0]] else []) + Filter(list[1..], p)
  }

  /** Filtering keeps order: the filtered list of a concatenation is the concatenation of the filtered lists. */
  lemma {:induction false} FilterAppend(a: seq<UnifiedInstruction>, b: seq<UnifiedInstruction>, p: UnifiedInstruction -> bool)
    ensures Filter(a + b, p) == Filter(a, p) + Filter(b, p)
  {
    if a != [] {
      assert (a + b)[1..] == a[1..] + b;
      FilterAppend(a[1..], b, p);
      var head: seq<UnifiedInstruction> := if p(a[0]) then [a[0]] else [];
      assert Filter(a + b, p) == head + Filter(a[1..] + b, p);
      assert head + (Filter(a[1..], p) + Filter(b, p)) == (head + Filter(a[1..], p)) + Filter(b, p);
    } else {
      assert a + b == b;
    }
  }

  /** Whether the name, as stored, starts with the prefix. */
  function NameStartsWith(prefix: string): UnifiedInstruction -> bool
  {
    (i: UnifiedInstruction) => StartsWith(i.name, prefix)
  }

  /** `getInstructionsByPrefix`: only the prefix is lowercased, the stored names are compared as they are. */
  function GetInstructionsByPrefix(list: seq<UnifiedInstruction>, prefix: string): seq<UnifiedInstruction>
  {
    Filter(list, NameStartsWith(Lower(prefix)))
  }

  /**
   * The prefix search returns the instructions whose stored name starts
   * with the lowercased prefix; a stored name whose first letter is
   * uppercase is never found by a prefix that is not empty.
   */
  lemma ByPrefixSpec(list: seq<UnifiedInstruction>, prefix: string)
    ensures forall x :: x in GetInstructionsByPrefix(list, prefix) <==> x in list && StartsWith(x.name, Lower(prefix))
    ensures forall x :: x in list && |prefix| > 0 && |x.name| > 0 && 'A' <= x.name[0] <= 'Z' ==>
      x !in GetInstructionsByPrefix(list, prefix)
  {
    var r := GetInstructionsByPrefix(list, prefix);
    forall x | x in list && |prefix| > 0 && |x.name| > 0 && 'A' <= x.name[0] <= 'Z'
      ensures x !in r
    {
      assert Lower(prefix)[0] == LowerChar(prefix[0]);
    }
  }

  /** `getInstructionsWithDocumentation`. */
  function GetInstructionsWithDocumentation(list: seq<UnifiedInstruction>): seq<UnifiedInstruction>
  {
    Filter(list, (i: UnifiedInstruction) => HasDocumentation(i))
  }

  /** Exactly the documented instructions are listed, in the order of the list. */
  lemma WithDocumentationSpec(list: seq<UnifiedInstruction>)
    ensures forall x :: x in GetInstructionsWithDocumentation(list) <==> x in list && HasDocumentation(x)
  {
  }
}
