// The tree walk of the constant-expression evaluator
// (NasmConstExprEvaluator.kt): expressions as lists of child nodes, atoms,
// symbol references resolved through a table of definitions, function-like
// macro calls, and the set of symbols being evaluated that turns a circular
// definition into an error.
module ConstEval {
  import opened Wrappers
  import opened Longs
  import opened Tokens
  import opened JavaNumbers
  import opened ConstExpr
  import Text
  import MacroSubstitution

  // ---------------------------------------------------------------------------
  // The syntax tree

  /**
   * A node of the syntax tree as the evaluator sees it: a token, an
   * expression with all its child nodes (tokens included), an atom, a
   * symbol reference, or an element of any other type together with the
   * first expression below it, if there is one.
   */
  datatype Node =
    | Leaf(kind: Kind, text: string)
    | Expression(children: seq<Node>)
    | Atom(content: AtomContent)
    | SymbolRef(name: string)
    | Other(expression: Option<Node>)

  /**
   * What an atom holds: a symbol reference, a nested expression (its child
   * nodes), a function-like macro call, a construct the evaluator does not
   * support (built-in function, macro expansion, environment variable,
   * float format), or just a first token.
   */
  datatype AtomContent =
    | AtomSymbol(name: string)
    | AtomExpression(children: seq<Node>)
    | AtomCall(call: MacroCall)
    | AtomUnsupported
    | AtomToken(kind: Kind, text: string)
    | AtomEmpty

  /**
   * A call `name(args)` of a function-like macro. `params` is None when the
   * call does not resolve to a `%define` with a parameter list and a body.
   * `expansion` is the expression parsed from `mov rax, <body with the
   * parameters substituted>`, None when that text holds no expression.
   */
  datatype MacroCall = MacroCall(name: string, params: Option<seq<string>>, args: seq<string>, expansion: Option<Node>)

  /**
   * The body of a single-line `%define`: an expression found in it, blank
   * text, a single number token, a single identifier, or any other text,
   * with the child nodes of the expression it re-parses to, if any.
   */
  datatype MacroBody =
    | BodyExpression(children: seq<Node>)
    | BodyBlank
    | BodyNumber(text: string)
    | BodySymbol(name: string)
    | BodyReparsed(expression: Option<seq<Node>>)

  /** What a symbol resolves to; the expressions are given by their child nodes. */
  datatype Definition =
    | Equ(expression: Option<seq<Node>>)
    | Assign(expression: Option<seq<Node>>)
    | Define(body: Option<MacroBody>)
    | OtherDefinition

  /**
   * Symbol resolution. `resolve` is what a reference's `resolve()` finds,
   * included files too; `context` is what re-parsed text is resolved
   * against: the context file's own named elements, the first of each name.
   */
  datatype Env = Env(resolve: map<string, Definition>, context: map<string, Definition>)

  /** Every name either lookup knows. */
  function Names(env: Env): (r: set<string>)
    ensures forall name :: name in r <==> name in env.resolve || name in env.context
  {
    env.resolve.Keys + env.context.Keys
  }

  /** The definitions a walk looks names up in: re-parsed text searches the context file only. */
  function Definitions(env: Env, mode: Mode): (defs: map<string, Definition>)
    ensures mode.InContext? ==> defs == env.context
    ensures !mode.InContext? ==> defs == env.resolve
  {
    if mode.InContext? then env.context else env.resolve
  }

  /**
   * `findChildrenOfType(contextFile, NasmNamedElement).firstOrNull { it.name == symbolName }`
   * for every name at once: a name maps to the definition of its first element.
   */
  function FirstByName(elements: seq<(string, Definition)>): (m: map<string, Definition>)
    ensures forall name :: name in m <==> exists i :: 0 <= i < |elements| && elements[i].0 == name
  {
    if elements == [] then map[]
    else
      var rest := FirstByName(elements[1..]);
      assert forall i :: 1 <= i < |elements| ==> elements[i] == elements[1..][i - 1];
      rest[elements[0].0 := elements[0].1]
  }

  /** The first element of a name gives that name's definition: a later element of the same name is ignored. */
  lemma {:induction false} FirstByNameFirst(elements: seq<(string, Definition)>, i: nat)
    requires i < |elements| && forall j :: 0 <= j < i ==> elements[j].0 != elements[i].0
    ensures elements[i].0 in FirstByName(elements) && FirstByName(elements)[elements[i].0] == elements[i].1
    decreases i
  {
    if i > 0 {
      var tail := elements[1..];
      assert tail[i - 1] == elements[i];
      forall j | 0 <= j < i - 1
        ensures tail[j].0 != tail[i - 1].0
      {
        assert tail[j] == elements[j + 1];
      }
      FirstByNameFirst(tail, i - 1);
    }
  }

  /**
   * The three walks of the source: plain evaluation, evaluation under a
   * table of preprocessor macro values, and evaluation of re-parsed text.
   */
  datatype Mode = Normal | WithMacros(values: map<string, Long>) | InContext

  function Size(n: Node): (s: nat)
    ensures s >= 1
  {
    match n
    case Leaf(_, _) => 1
    case Expression(cs) => 1 + SizeAll(cs)
    case Atom(c) => 1 + AtomSize(c)
    case SymbolRef(_) => 1
    case Other(None) => 1
    case Other(Some(e)) => 1 + Size(e)
  }

  function AtomSize(c: AtomContent): nat
  {
    match c
    case AtomExpression(cs) => SizeAll(cs)
    case AtomCall(MacroCall(_, _, _, Some(e))) => Size(e)
    case _ => 0
  }

  function SizeAll(ns: seq<Node>): nat
  {
    if ns == [] then 0 else Size(ns[0]) + SizeAll(ns[1..])
  }

  function DefinitionSize(d: Definition): nat
  {
    match d
    case Equ(e) => if e.Some? then SizeAll(e.value) else 0
    case Assign(e) => if e.Some? then SizeAll(e.value) else 0
    case Define(b) =>
      if b.Some? && b.value.BodyExpression? then SizeAll(b.value.children)
      else if b.Some? && b.value.BodyReparsed? && b.value.expression.Some? then SizeAll(b.value.expression.value)
      else 0
    case OtherDefinition => 0
  }

  lemma {:induction false} SizeAllAppend(a: seq<Node>, b: seq<Node>)
    ensures SizeAll(a + b) == SizeAll(a) + SizeAll(b)
    decreases |a|
  {
    if a == [] {
      assert a + b == b;
    } else {
      assert (a + b)[0] == a[0] && (a + b)[1..] == a[1..] + b;
      SizeAllAppend(a[1..], b);
    }
  }

  /** Taking node `j` out splits the size into the parts before and after it. */
  lemma SizeAllSplit(ns: seq<Node>, j: nat)
    requires j < |ns|
    ensures SizeAll(ns[..j]) + Size(ns[j]) + SizeAll(ns[j + 1..]) == SizeAll(ns)
  {
    var tail := [ns[j]] + ns[j + 1..];
    assert ns == ns[..j] + tail;
    SizeAllAppend(ns[..j], tail);
    assert tail[1..] == ns[j + 1..];
  }

  // ---------------------------------------------------------------------------
  // Node lists

  /** The token kind of a node; None for a composite element. */
  function KindOf(n: Node): Option<Kind>
  {
    if n.Leaf? then Some(n.kind) else None
  }

  function Kinds(ns: seq<Node>): (r: seq<Option<Kind>>)
    ensures |r| == |ns| && forall i :: 0 <= i < |ns| ==> r[i] == KindOf(ns[i])
  {
    seq(|ns|, i requires 0 <= i < |ns| => KindOf(ns[i]))
  }

  predicate IsWhitespace(n: Node)
  {
    n.Leaf? && n.kind == WHITE_SPACE
  }

  /** The child nodes without the whitespace tokens, in order. */
  function Significant(ns: seq<Node>): (r: seq<Node>)
    ensures SizeAll(r) <= SizeAll(ns)
    ensures forall i :: 0 <= i < |r| ==> !IsWhitespace(r[i])
  {
    if ns == [] then []
    else
      var rest := Significant(ns[1..]);
      if IsWhitespace(ns[0]) then rest
      else
        assert ([ns[0]] + rest)[1..] == rest;
        [ns[0]] + rest
  }

  /** The child elements: the composite nodes among the children, in order. */
  function Composites(ns: seq<Node>): (r: seq<Node>)
    ensures SizeAll(r) <= SizeAll(ns)
    ensures forall i :: 0 <= i < |r| ==> !r[i].Leaf?
  {
    if ns == [] then []
    else
      var rest := Composites(ns[1..]);
      if ns[0].Leaf? then rest
      else
        assert ([ns[0]] + rest)[1..] == rest;
        [ns[0]] + rest
  }

  /** Where a binary split cuts the node list. */
  lemma SplitParts(nodes: seq<Node>, kinds: seq<Option<Kind>>)
    requires |kinds| == |nodes| && BinarySplit(nodes, kinds).Some?
    ensures var b := BinarySplit(nodes, kinds).value;
      1 <= b.index < |nodes| && b.left == nodes[..b.index] && b.right == nodes[b.index + 1..]
  {
    SplitFromSome(nodes, kinds, 0);
  }

  /** Both sides of a binary split are smaller than the node list. */
  lemma SplitSmaller(nodes: seq<Node>, kinds: seq<Option<Kind>>)
    requires |kinds| == |nodes| && BinarySplit(nodes, kinds).Some?
    ensures SizeAll(BinarySplit(nodes, kinds).value.left) < SizeAll(nodes)
    ensures SizeAll(BinarySplit(nodes, kinds).value.right) < SizeAll(nodes)
  {
    var b := BinarySplit(nodes, kinds).value;
    SplitParts(nodes, kinds);
    SizeAllSplit(nodes, b.index);
    assert Size(nodes[b.index]) >= 1;
  }

  // ---------------------------------------------------------------------------
  // Evaluation

  function CircularReference(name: string): EvalResult
  {
    Error("Circular reference detected: " + name)
  }

  function ArityMismatch(name: string, expected: nat, got: nat): EvalResult
  {
    Error("Macro function " + name + " expects " + ToDigits(expected, 10) + " arguments, got " + ToDigits(got, 10))
  }

  /**
   * Combining the two operands of a binary operator: a value only when both
   * are values; an error in either operand is never lost, the left one
   * being reported first; anything else is not a constant.
   */
  function CombineBinary(op: Kind, left: EvalResult, right: EvalResult): (r: EvalResult)
    ensures left.Value? && right.Value? ==> r == ApplyBinary(op, left.value, right.value)
    ensures r.Value? ==> left.Value? && right.Value?
    ensures left.Error? ==> r == left
    ensures right.Error? && !left.Error? ==> r == right
    ensures r == NotConstant <==> !left.Error? && !right.Error? && (left == NotConstant || right == NotConstant ||
                                  ApplyBinary(op, left.value, right.value) == NotConstant)
  {
    if left.Value? && right.Value? then ApplyBinary(op, left.value, right.value)
    else if left.Error? then left
    else if right.Error? then right
    else NotConstant
  }

  /** A number or string token; any other token is not a constant. */
  function EvalToken(kind: Kind, text: string): EvalResult
  {
    if kind == NUMBER then EvaluateNumber(text)
    else if kind == STRING then StringValue(text)
    else NotConstant
  }

  /**
   * `evaluateExpression` (plain walk), `evaluateWithMacroContext` (macro
   * walk) and `evaluateWithCustomContext` (re-parsed text). Only the plain
   * walk evaluates a bare number or string token.
   */
  function Eval(env: Env, visited: set<string>, mode: Mode, n: Node): EvalResult
    decreases Names(env) - visited, Size(n), 0
  {
    match n
    case Leaf(k, text) => if mode.Normal? then EvalToken(k, text) else NotConstant
    case Expression(cs) => EvalExpression(env, visited, mode, cs)
    case Atom(c) => EvalAtom(env, visited, mode, c)
    case SymbolRef(name) => EvalSymbol(env, visited, mode, name)
    case Other(e) => if e.Some? then Eval(env, visited, mode, e.value) else NotConstant
  }

  /**
   * `evaluateNasmExpression` and its two variants: one significant child is
   * evaluated alone; then a leading unary operator, then a binary split;
   * then `( e )`; then a single child element; otherwise not a constant.
   */
  function EvalExpression(env: Env, visited: set<string>, mode: Mode, cs: seq<Node>): EvalResult
    decreases Names(env) - visited, SizeAll(cs), 1
  {
    var sig := Significant(cs);
    var kinds := Kinds(sig);
    if |sig| == 1 then Eval(env, visited, mode, sig[0])
    else match FindUnaryOperator(sig, kinds)
      case Some(u) => ApplyUnary(u.op, EvalNodes(env, visited, mode, u.operand))
      case None =>
        match BinarySplit(sig, kinds)
        case Some(b) =>
          SplitSmaller(sig, kinds);
          CombineBinary(b.op, EvalNodes(env, visited, mode, b.left), EvalNodes(env, visited, mode, b.right))
        case None =>
          if |sig| == 3 && kinds[0] == Some(LPAREN) && kinds[2] == Some(RPAREN) then
            SizeAllSplit(sig, 1);
            Eval(env, visited, mode, sig[1])
          else
            var elements := Composites(cs);
            if |elements| == 1 then Eval(env, visited, mode, elements[0]) else NotConstant
  }

  /**
   * `evaluateNodesCore` on an operand's node list: nothing is not a
   * constant; one significant node is evaluated alone; then a leading unary
   * operator, then a binary split; otherwise the first node.
   */
  function EvalNodes(env: Env, visited: set<string>, mode: Mode, nodes: seq<Node>): EvalResult
    decreases Names(env) - visited, SizeAll(nodes), 1
  {
    if nodes == [] then NotConstant
    else
      var sig := Significant(nodes);
      var kinds := Kinds(sig);
      if |sig| == 1 then Eval(env, visited, mode, sig[0])
      else match FindUnaryOperator(sig, kinds)
        case Some(u) => ApplyUnary(u.op, EvalNodes(env, visited, mode, u.operand))
        case None =>
          match BinarySplit(sig, kinds)
          case Some(b) =>
            SplitSmaller(sig, kinds);
            CombineBinary(b.op, EvalNodes(env, visited, mode, b.left), EvalNodes(env, visited, mode, b.right))
          case None => if |sig| > 0 then Eval(env, visited, mode, sig[0]) else NotConstant
  }

  /**
   * `evaluateAtomExprCore`. A function-like macro call with the wrong number
   * of arguments is an error; its expansion is evaluated as re-parsed text.
   */
  function EvalAtom(env: Env, visited: set<string>, mode: Mode, c: AtomContent): EvalResult
    decreases Names(env) - visited, AtomSize(c), 2
  {
    match c
    case AtomSymbol(name) => EvalSymbol(env, visited, mode, name)
    case AtomExpression(cs) => EvalExpression(env, visited, mode, cs)
    case AtomCall(call) =>
      if call.params.None? then NotConstant
      else if |call.args| != |call.params.value| then ArityMismatch(call.name, |call.params.value|, |call.args|)
      else if call.expansion.None? then NotConstant
      else Eval(env, visited, InContext, call.expansion.value)
    case AtomUnsupported => NotConstant
    case AtomToken(k, text) => EvalToken(k, text)
    case AtomEmpty => NotConstant
  }

  /**
   * A symbol reference. Under a macro table a macro value comes first.
   * Otherwise `evaluateResolvedSymbol`: a symbol already being evaluated
   * is a circular reference; a symbol that resolves to nothing is not a
   * constant; otherwise its definition is evaluated with the symbol added
   * to the set, which is what the caller's set is again afterwards.
   */
  function EvalSymbol(env: Env, visited: set<string>, mode: Mode, name: string): EvalResult
    decreases Names(env) - visited, 0, 0
  {
    if mode.WithMacros? && name in mode.values then Value(mode.values[name])
    else if name in visited then CircularReference(name)
    else if name !in Definitions(env, mode) then NotConstant
    else
      assert name in Names(env) - visited;
      EvalDefinition(env, visited + {name}, Definitions(env, mode)[name])
  }

  /**
   * The definition a symbol resolves to: `equ` and `%assign` evaluate their
   * expression, `%define` its body (`evaluateMacroBody`); anything else is
   * not a constant.
   */
  function EvalDefinition(env: Env, visited: set<string>, d: Definition): EvalResult
    decreases Names(env) - visited, DefinitionSize(d), 2
  {
    match d
    case Equ(e) => if e.Some? then EvalExpression(env, visited, Normal, e.value) else NotConstant
    case Assign(e) => if e.Some? then EvalExpression(env, visited, Normal, e.value) else NotConstant
    case Define(body) =>
      if body.None? then NotConstant
      else (match body.value
        case BodyExpression(cs) => EvalExpression(env, visited, Normal, cs)
        case BodyBlank => NotConstant
        case BodyNumber(text) => EvaluateNumber(text)
        case BodySymbol(name) => EvalSymbol(env, visited, Normal, name)
        case BodyReparsed(e) => if e.Some? then EvalExpression(env, visited, InContext, e.value) else NotConstant)
    case OtherDefinition => NotConstant
  }

  /** The walk `evaluate` starts: under a macro table when one is given. */
  function ModeOf(macroValues: Option<map<string, Long>>): Mode
  {
    if macroValues.Some? then WithMacros(macroValues.value) else Normal
  }

  // ---------------------------------------------------------------------------
  // Properties of the walk

  predicate NoWhitespace(ns: seq<Node>)
  {
    forall i :: 0 <= i < |ns| ==> !IsWhitespace(ns[i])
  }

  lemma {:induction false} SignificantKeeps(ns: seq<Node>)
    requires NoWhitespace(ns)
    ensures Significant(ns) == ns
    decreases |ns|
  {
    if ns != [] {
      assert NoWhitespace(ns[1..]) by {
        forall i | 0 <= i < |ns| - 1 ensures !IsWhitespace(ns[1..][i]) {
          assert ns[1..][i] == ns[i + 1];
        }
      }
      SignificantKeeps(ns[1..]);
      assert !IsWhitespace(ns[0]);
      assert [ns[0]] + ns[1..] == ns;
    }
  }

  lemma {:induction false} SignificantIdempotent(ns: seq<Node>)
    ensures Significant(Significant(ns)) == Significant(ns)
  {
    SignificantKeeps(Significant(ns));
  }

  /** Dropping the whitespace tokens leaves the child elements as they were. */
  lemma {:induction false} CompositesOfSignificant(ns: seq<Node>)
    ensures Composites(Significant(ns)) == Composites(ns)
    decreases |ns|
  {
    if ns != [] {
      CompositesOfSignificant(ns[1..]);
      var rest := Significant(ns[1..]);
      if !IsWhitespace(ns[0]) {
        var t := [ns[0]] + rest;
        assert t[0] == ns[0] && t[1..] == rest;
      }
    }
  }

  /** Whitespace tokens between the children of an expression make no difference. */
  lemma WhitespaceIgnored(env: Env, visited: set<string>, mode: Mode, cs: seq<Node>)
    ensures EvalExpression(env, visited, mode, Significant(cs)) == EvalExpression(env, visited, mode, cs)
  {
    SignificantIdempotent(cs);
    CompositesOfSignificant(cs);
  }

  /** A single composite node as a node list is evaluated as that node. */
  lemma EvalSingle(env: Env, visited: set<string>, mode: Mode, n: Node)
    requires !n.Leaf?
    ensures EvalNodes(env, visited, mode, [n]) == Eval(env, visited, mode, n)
  {
    assert [n][1..] == [];
    assert Significant([n]) == [n];
  }

  /** `( e )` has the value of `e`. */
  lemma ParenthesesTransparent(env: Env, visited: set<string>, mode: Mode, e: Node, lt: string, rt: string)
    requires !e.Leaf?
    ensures EvalExpression(env, visited, mode, [Leaf(LPAREN, lt), e, Leaf(RPAREN, rt)]) == Eval(env, visited, mode, e)
  {
    var cs := [Leaf(LPAREN, lt), e, Leaf(RPAREN, rt)];
    SignificantKeeps(cs);
    var kinds := Kinds(cs);
    assert kinds == [Some(LPAREN), None, Some(RPAREN)];
    assert LevelOf(RPAREN) == LEVELS;
    SplitFromNone(cs, kinds, 0);
  }

  /** The split of `l op r` is at `op` whenever `op` is in the precedence table. */
  lemma SplitThree(l: Node, op: Kind, t: string, r: Node)
    requires !l.Leaf? && !r.Leaf? && LevelOf(op) < LEVELS
    ensures var ns := [l, Leaf(op, t), r];
      BinarySplit(ns, Kinds(ns)) == Some(BinaryOpInfo(op, 1, [l], [r]))
  {
    var ns := [l, Leaf(op, t), r];
    var kinds := Kinds(ns);
    assert kinds == [None, Some(op), None];
    var lv := LevelOf(op);
    SkipLevels(ns, kinds, 0, lv);
    assert LastIndexIn(kinds, lv, 3) == LastIndexIn(kinds, lv, 2) == 1;
    assert ns[..1] == [l] && ns[2..] == [r];
  }

  /** `l op r`: both operands are evaluated from the same set of symbols and then combined. */
  lemma EvalBinary(env: Env, visited: set<string>, mode: Mode, l: Node, op: Kind, t: string, r: Node)
    requires !l.Leaf? && !r.Leaf? && LevelOf(op) < LEVELS
    ensures EvalExpression(env, visited, mode, [l, Leaf(op, t), r]) ==
            CombineBinary(op, Eval(env, visited, mode, l), Eval(env, visited, mode, r))
    ensures EvalNodes(env, visited, mode, [l, Leaf(op, t), r]) ==
            CombineBinary(op, Eval(env, visited, mode, l), Eval(env, visited, mode, r))
  {
    var ns := [l, Leaf(op, t), r];
    SignificantKeeps(ns);
    SplitThree(l, op, t, r);
    EvalSingle(env, visited, mode, l);
    EvalSingle(env, visited, mode, r);
  }

  /** A leading unary operator applies to everything after it. */
  lemma EvalUnary(env: Env, visited: set<string>, mode: Mode, op: Kind, t: string, rest: seq<Node>)
    requires IsUnaryOperator(op) && |rest| >= 1 && NoWhitespace(rest)
    ensures EvalExpression(env, visited, mode, [Leaf(op, t)] + rest) ==
            ApplyUnary(op, EvalNodes(env, visited, mode, rest))
  {
    var ns := [Leaf(op, t)] + rest;
    assert NoWhitespace(ns) by {
      forall i | 0 <= i < |ns| ensures !IsWhitespace(ns[i]) {
        if i > 0 {
          assert ns[i] == rest[i - 1];
        }
      }
    }
    SignificantKeeps(ns);
    assert ns[1..] == rest;
  }

  /**
   * In `a op1 b op2 c` the looser-binding operator is applied last, and
   * operators of one level associate to the left.
   */
  lemma SplitFive(a: Node, op1: Kind, t1: string, b: Node, op2: Kind, t2: string, c: Node)
    requires !a.Leaf? && !b.Leaf? && !c.Leaf? && LevelOf(op1) < LEVELS && LevelOf(op2) < LEVELS
    ensures var ns := [a, Leaf(op1, t1), b, Leaf(op2, t2), c];
      BinarySplit(ns, Kinds(ns)) ==
        if LevelOf(op1) < LevelOf(op2) then Some(BinaryOpInfo(op1, 1, [a], [b, Leaf(op2, t2), c]))
        else Some(BinaryOpInfo(op2, 3, [a, Leaf(op1, t1), b], [c]))
  {
    var ns := [a, Leaf(op1, t1), b, Leaf(op2, t2), c];
    assert Kinds(ns) == [None, Some(op1), None, Some(op2), None];
    SplitFiveKinds(ns, op1, op2);
    assert ns[..1] == [a] && ns[2..] == [b, Leaf(op2, t2), c];
    assert ns[..3] == [a, Leaf(op1, t1), b] && ns[4..] == [c];
  }

  /** Five nodes with operators at 1 and 3 split at the looser one, at 3 when both are of one level. */
  lemma SplitFiveKinds(ns: seq<Node>, op1: Kind, op2: Kind)
    requires |ns| == 5 && LevelOf(op1) < LEVELS && LevelOf(op2) < LEVELS
    ensures var kinds := [None, Some(op1), None, Some(op2), None];
      BinarySplit(ns, kinds) ==
        if LevelOf(op1) < LevelOf(op2) then Some(BinaryOpInfo(op1, 1, ns[..1], ns[2..]))
        else Some(BinaryOpInfo(op2, 3, ns[..3], ns[4..]))
  {
    var kinds := [None, Some(op1), None, Some(op2), None];
    var lo := if LevelOf(op1) < LevelOf(op2) then LevelOf(op1) else LevelOf(op2);
    forall lv, j | 0 <= lv < lo && 1 <= j < |kinds|
      ensures !HasKindIn(kinds, j, lv)
    {
    }
    SkipLevels(ns, kinds, 0, lo);
    assert LastIndexIn(kinds, lo, 5) == LastIndexIn(kinds, lo, 4);
    if LevelOf(op2) == lo {
      assert LastIndexIn(kinds, lo, 4) == 3;
    } else {
      assert LastIndexIn(kinds, lo, 4) == LastIndexIn(kinds, lo, 3) == LastIndexIn(kinds, lo, 2) == 1;
    }
  }

  /** `1 + 2 * 3` is `1 + (2 * 3)`: the tighter-binding operator is applied first. */
  lemma EvalPrecedence(env: Env, visited: set<string>, mode: Mode,
                       a: Node, op1: Kind, t1: string, b: Node, op2: Kind, t2: string, c: Node)
    requires !a.Leaf? && !b.Leaf? && !c.Leaf? && LevelOf(op1) < LevelOf(op2) < LEVELS
    ensures EvalExpression(env, visited, mode, [a, Leaf(op1, t1), b, Leaf(op2, t2), c]) ==
            CombineBinary(op1, Eval(env, visited, mode, a),
                          CombineBinary(op2, Eval(env, visited, mode, b), Eval(env, visited, mode, c)))
  {
    var ns := [a, Leaf(op1, t1), b, Leaf(op2, t2), c];
    SignificantKeeps(ns);
    SplitFive(a, op1, t1, b, op2, t2, c);
    EvalExpressionSplit(env, visited, mode, ns);
    EvalSingle(env, visited, mode, a);
    EvalBinary(env, visited, mode, b, op2, t2, c);
  }

  /** Without whitespace or a leading unary operator, an expression with a binary split combines its two sides. */
  lemma EvalExpressionSplit(env: Env, visited: set<string>, mode: Mode, cs: seq<Node>)
    requires Significant(cs) == cs && |cs| != 1
    requires FindUnaryOperator(cs, Kinds(cs)).None? && BinarySplit(cs, Kinds(cs)).Some?
    ensures var b := BinarySplit(cs, Kinds(cs)).value;
      EvalExpression(env, visited, mode, cs) ==
        CombineBinary(b.op, EvalNodes(env, visited, mode, b.left), EvalNodes(env, visited, mode, b.right))
  {
  }

  /** `8 - 3 - 2` is `(8 - 3) - 2`: operators of one level associate to the left. */
  lemma EvalLeftAssociative(env: Env, visited: set<string>, mode: Mode,
                            a: Node, op1: Kind, t1: string, b: Node, op2: Kind, t2: string, c: Node)
    requires !a.Leaf? && !b.Leaf? && !c.Leaf? && LevelOf(op2) <= LevelOf(op1) < LEVELS
    ensures EvalExpression(env, visited, mode, [a, Leaf(op1, t1), b, Leaf(op2, t2), c]) ==
            CombineBinary(op2, CombineBinary(op1, Eval(env, visited, mode, a), Eval(env, visited, mode, b)),
                          Eval(env, visited, mode, c))
  {
    var ns := [a, Leaf(op1, t1), b, Leaf(op2, t2), c];
    SignificantKeeps(ns);
    SplitFive(a, op1, t1, b, op2, t2, c);
    EvalExpressionSplit(env, visited, mode, ns);
    EvalBinary(env, visited, mode, a, op1, t1, b);
    EvalSingle(env, visited, mode, c);
  }

  /** A value from the preprocessor's macro table wins over any definition and over the set. */
  lemma MacroValueFirst(env: Env, visited: set<string>, values: map<string, Long>, name: string)
    requires name in values
    ensures Eval(env, visited, WithMacros(values), SymbolRef(name)) == Value(values[name])
    ensures Eval(env, visited, WithMacros(values), Atom(AtomSymbol(name))) == Value(values[name])
  {
  }

  /** A symbol that resolves to nothing is not a constant. */
  lemma UnresolvedNotConstant(env: Env, visited: set<string>, mode: Mode, name: string)
    requires name !in Definitions(env, mode) && name !in visited && !(mode.WithMacros? && name in mode.values)
    ensures Eval(env, visited, mode, SymbolRef(name)) == NotConstant
  {
  }

  /** `A equ A`: a symbol defined by itself is a circular reference. */
  lemma SelfReference(env: Env, visited: set<string>, mode: Mode, name: string)
    requires name in Definitions(env, mode) && Definitions(env, mode)[name] == Equ(Some([SymbolRef(name)]))
    requires !(mode.WithMacros? && name in mode.values)
    ensures Eval(env, visited, mode, SymbolRef(name)) == CircularReference(name)
  {
    if name !in visited {
      var inner := visited + {name};
      RefersTo(env, inner, name);
      assert EvalSymbol(env, visited, mode, name) == EvalDefinition(env, inner, Definitions(env, mode)[name]);
    }
  }

  /** An expression that is just a reference to `name` evaluates that symbol. */
  lemma RefersTo(env: Env, visited: set<string>, name: string)
    ensures EvalExpression(env, visited, Normal, [SymbolRef(name)]) == EvalSymbol(env, visited, Normal, name)
  {
    assert [SymbolRef(name)][1..] == [];
    assert Significant([SymbolRef(name)]) == [SymbolRef(name)];
  }

  /** `A equ B` and `B equ A`: evaluating `A` reaches `A` again and reports it. */
  lemma MutualReference(env: Env, visited: set<string>, a: string, b: string)
    requires a != b && a !in visited && b !in visited
    requires a in env.resolve && b in env.resolve
    requires env.resolve[a] == Equ(Some([SymbolRef(b)])) && env.resolve[b] == Equ(Some([SymbolRef(a)]))
    ensures Eval(env, visited, Normal, SymbolRef(a)) == CircularReference(a)
  {
    var va := visited + {a};
    var vab := va + {b};
    RefersTo(env, vab, a);
    assert EvalSymbol(env, vab, Normal, a) == CircularReference(a);
    RefersTo(env, va, b);
    assert EvalSymbol(env, va, Normal, b) == EvalDefinition(env, vab, env.resolve[b]);
    assert EvalSymbol(env, visited, Normal, a) == EvalDefinition(env, va, env.resolve[a]);
  }

  /** The re-parsed body `s + 1` of a `%define`. */
  function SumBody(s: string): Definition
  {
    Define(Some(BodyReparsed(Some([Atom(AtomSymbol(s)), Leaf(PLUS, "+"), Atom(AtomToken(NUMBER, "1"))]))))
  }

  /** A re-parsed `s + 1` adds `1` to whatever `s` evaluates to in context. */
  lemma SumBodyEval(env: Env, visited: set<string>, s: string)
    ensures EvalDefinition(env, visited, SumBody(s)) ==
            CombineBinary(PLUS, EvalSymbol(env, visited, InContext, s), Eval(env, visited, InContext, Atom(AtomToken(NUMBER, "1"))))
  {
    ReparsedBinary(env, visited, s, PLUS, "+", Atom(AtomToken(NUMBER, "1")));
  }

  /** A re-parsed body `s op r` combines the value of `s` in context with that of `r`. */
  lemma ReparsedBinary(env: Env, visited: set<string>, s: string, op: Kind, t: string, r: Node)
    requires !r.Leaf? && LevelOf(op) < LEVELS
    ensures EvalDefinition(env, visited, Define(Some(BodyReparsed(Some([Atom(AtomSymbol(s)), Leaf(op, t), r]))))) ==
            CombineBinary(op, EvalSymbol(env, visited, InContext, s), Eval(env, visited, InContext, r))
  {
    ReparsedBody(env, visited, [Atom(AtomSymbol(s)), Leaf(op, t), r]);
    EvalBinary(env, visited, InContext, Atom(AtomSymbol(s)), op, t, r);
    EvalAtomSymbol(env, visited, InContext, s);
  }

  /** An operand that is a symbol has that symbol's value. */
  lemma EvalAtomSymbol(env: Env, visited: set<string>, mode: Mode, s: string)
    ensures Eval(env, visited, mode, Atom(AtomSymbol(s))) == EvalSymbol(env, visited, mode, s)
  {
  }

  /** A `%define` body that must be re-parsed is evaluated as an expression in context. */
  lemma ReparsedBody(env: Env, visited: set<string>, e: seq<Node>)
    ensures EvalDefinition(env, visited, Define(Some(BodyReparsed(Some(e))))) == EvalExpression(env, visited, InContext, e)
  {
  }

  /**
   * `%define A B + 1` and `%define B A + 1`, with `B` in the context file:
   * both bodies need re-parsing, and evaluating `A` ends in a circular
   * reference to `A`.
   */
  lemma DefineCycle(env: Env)
    requires "A" in env.resolve && "B" in env.context
    requires env.resolve["A"] == SumBody("B") && env.context["B"] == SumBody("A")
    ensures Eval(env, {}, Normal, SymbolRef("A")) == CircularReference("A")
  {
    var va: set<string> := {"A"};
    var vab: set<string> := {"A", "B"};
    assert {} + {"A"} == va && va + {"B"} == vab;
    assert Eval(env, {}, Normal, SymbolRef("A")) == EvalDefinition(env, va, env.resolve["A"]);
    SumBodyEval(env, va, "B");
    assert "B" !in va;
    assert EvalSymbol(env, va, InContext, "B") == EvalDefinition(env, vab, env.context["B"]);
    SumBodyEval(env, vab, "A");
    assert EvalSymbol(env, vab, InContext, "A") == CircularReference("A");
  }

  /**
   * A name defined only in an included file is not found by re-parsed text:
   * `%define X S + 1` is not a constant when the context file itself has no
   * `S`, whatever the included file defines `S` to be.
   */
  lemma IncludedSymbolOutOfContext(env: Env, x: string, s: string)
    requires x in env.resolve && env.resolve[x] == SumBody(s) && s !in env.context && s != x
    ensures Eval(env, {}, Normal, SymbolRef(x)) == NotConstant
  {
    var vx: set<string> := {x};
    assert {} + {x} == vx;
    assert Eval(env, {}, Normal, SymbolRef(x)) == EvalDefinition(env, vx, env.resolve[x]);
    SumBodyEval(env, vx, s);
    assert EvalSymbol(env, vx, InContext, s) == NotConstant;
    NumberDecimal(1);
    assert ToDigits(1, 10) == "1";
  }

  /** A call with the wrong number of arguments is an error, whatever its expansion. */
  lemma ArityChecked(env: Env, visited: set<string>, mode: Mode, call: MacroCall)
    requires call.params.Some? && |call.args| != |call.params.value|
    ensures Eval(env, visited, mode, Atom(AtomCall(call))).Error?
    ensures "Macro function " <= Eval(env, visited, mode, Atom(AtomCall(call))).message
  {
  }

  /**
   * A call whose expansion is what `expandAndEvaluateMacroCall` re-parses:
   * the definition's body with the trimmed arguments put in for the
   * parameters one after another (MacroSubstitution.ExpandMacroBody), read
   * back by `parse`, which stands for parsing `mov rax, <text>` and taking
   * its expression.
   */
  predicate ExpandsFrom(call: MacroCall, body: string, parse: string -> Option<Node>)
  {
    && call.params.Some?
    && MacroSubstitution.AllWords(call.params.value)
    && |call.args| == |call.params.value|
    && var text := MacroSubstitution.ExpandMacroBody(body, call.params.value, call.args);
       text.Some? && call.expansion == parse(text.value)
  }

  /**
   * A call of a macro whose body is one of its parameters evaluates, in the
   * context file, what that parameter's trimmed argument re-parses to,
   * provided the argument is a literal replacement holding no other
   * parameter as a whole word.
   */
  lemma CallOfParameterBody(env: Env, visited: set<string>, mode: Mode, call: MacroCall, i: nat, parse: string -> Option<Node>)
    requires call.params.Some? && MacroSubstitution.AllWords(call.params.value)
    requires |call.args| == |call.params.value| && i < |call.params.value|
    requires forall j :: i < j < |call.params.value| ==> call.params.value[j] != call.params.value[i]
    requires MacroSubstitution.IsLiteral(Text.Trim(call.args[i]))
    requires forall q, k :: q in call.params.value && q != call.params.value[i] && 0 <= k < |Text.Trim(call.args[i])| ==>
               !MacroSubstitution.MatchAt(Text.Trim(call.args[i]), q, k)
    requires call.expansion == parse(Text.Trim(call.args[i]))
    ensures ExpandsFrom(call, call.params.value[i], parse)
    ensures call.expansion.Some? ==> Eval(env, visited, mode, Atom(AtomCall(call))) == Eval(env, visited, InContext, call.expansion.value)
    ensures call.expansion.None? ==> Eval(env, visited, mode, Atom(AtomCall(call))) == NotConstant
  {
    MacroSubstitution.ExpandMacroBodyParameter(call.params.value[i], call.params.value, call.args, i);
    EvalCall(env, visited, mode, call);
  }

  /** A call with the right number of arguments evaluates its expansion in the context file, if it has one. */
  lemma EvalCall(env: Env, visited: set<string>, mode: Mode, call: MacroCall)
    requires call.params.Some? && |call.args| == |call.params.value|
    ensures call.expansion.Some? ==> Eval(env, visited, mode, Atom(AtomCall(call))) == Eval(env, visited, InContext, call.expansion.value)
    ensures call.expansion.None? ==> Eval(env, visited, mode, Atom(AtomCall(call))) == NotConstant
  {
  }

  // ---------------------------------------------------------------------------
  // The evaluator with its mutable context

  /**
   * The evaluator's per-thread context: the symbols being evaluated and
   * whether a preprocessor evaluation is running. Each method computes the
   * function of the same name above and leaves the set as it found it.
   */
  class Evaluator {
    const env: Env
    var visited: set<string>
    var insidePreprocessorEvaluation: bool

    constructor (env: Env)
      ensures this.env == env && visited == {} && !insidePreprocessorEvaluation
    {
      this.env := env;
      visited := {};
      insidePreprocessorEvaluation := false;
    }

    /**
     * `evaluate`: no expression is not a constant; otherwise the set is
     * cleared, the expression evaluated (under the macro table, with the
     * preprocessor flag raised, when one is given) and the set cleared again.
     */
    method Evaluate(expr: Option<Node>, macroValues: Option<map<string, Long>>) returns (r: EvalResult)
      modifies this
      ensures r == (if expr.None? then NotConstant else Eval(env, {}, ModeOf(macroValues), expr.value))
      ensures visited == (if expr.None? then old(visited) else {})
      ensures insidePreprocessorEvaluation == old(insidePreprocessorEvaluation)
    {
      if expr.None? {
        return NotConstant;
      }
      visited := {};
      var wasInside := insidePreprocessorEvaluation;
      if macroValues.Some? {
        insidePreprocessorEvaluation := true;
      }
      r := EvaluateNode(ModeOf(macroValues), expr.value);
      insidePreprocessorEvaluation := wasInside;
      visited := {};
    }

    method EvaluateNode(mode: Mode, n: Node) returns (r: EvalResult)
      modifies this
      ensures r == Eval(env, old(visited), mode, n)
      ensures visited == old(visited) && insidePreprocessorEvaluation == old(insidePreprocessorEvaluation)
      decreases Names(env) - visited, Size(n), 0
    {
      match n
      case Leaf(k, text) =>
        if mode.Normal? {
          r := EvaluateToken(k, text);
        } else {
          r := NotConstant;
        }
      case Expression(cs) => r := EvaluateExpression(mode, cs);
      case Atom(c) => r := EvaluateAtom(mode, c);
      case SymbolRef(name) => r := EvaluateSymbol(mode, name);
      case Other(e) =>
        if e.Some? {
          r := EvaluateNode(mode, e.value);
        } else {
          r := NotConstant;
        }
    }

    method EvaluateToken(kind: Kind, text: string) returns (r: EvalResult)
      ensures r == EvalToken(kind, text)
    {
      if kind == NUMBER {
        r := EvaluateNumber(text);
      } else if kind == STRING {
        r := EvaluateString(text);
      } else {
        r := NotConstant;
      }
    }

    method EvaluateExpression(mode: Mode, cs: seq<Node>) returns (r: EvalResult)
      modifies this
      ensures r == EvalExpression(env, old(visited), mode, cs)
      ensures visited == old(visited) && insidePreprocessorEvaluation == old(insidePreprocessorEvaluation)
      decreases Names(env) - visited, SizeAll(cs), 1
    {
      var sig := Significant(cs);
      var kinds := Kinds(sig);
      if |sig| == 1 {
        r := EvaluateNode(mode, sig[0]);
        return;
      }
      var unary := FindUnaryOperator(sig, kinds);
      if unary.Some? {
        var operand := EvaluateNodes(mode, unary.value.operand);
        return ApplyUnary(unary.value.op, operand);
      }
      var binary := FindBinaryOperator(sig, kinds);
      if binary.Some? {
        r := EvaluateBinaryOp(mode, sig, kinds, binary.value);
        return;
      }
      if |sig| == 3 && kinds[0] == Some(LPAREN) && kinds[2] == Some(RPAREN) {
        SizeAllSplit(sig, 1);
        r := EvaluateNode(mode, sig[1]);
        return;
      }
      var elements := Composites(cs);
      if |elements| == 1 {
        r := EvaluateNode(mode, elements[0]);
      } else {
        r := NotConstant;
      }
    }

    /** `evaluateBinaryOp`: both sides are evaluated, left first, and then combined. */
    method EvaluateBinaryOp(mode: Mode, sig: seq<Node>, kinds: seq<Option<Kind>>, b: BinaryOpInfo<Node>)
      returns (r: EvalResult)
      requires kinds == Kinds(sig) && BinarySplit(sig, kinds) == Some(b)
      modifies this
      ensures r == CombineBinary(b.op, EvalNodes(env, old(visited), mode, b.left), EvalNodes(env, old(visited), mode, b.right))
      ensures visited == old(visited) && insidePreprocessorEvaluation == old(insidePreprocessorEvaluation)
      decreases Names(env) - visited, SizeAll(sig), 0
    {
      SplitSmaller(sig, kinds);
      var left := EvaluateNodes(mode, b.left);
      assert Names(env) - visited == Names(env) - old(visited);
      var right := EvaluateNodes(mode, b.right);
      r := CombineBinary(b.op, left, right);
    }

    method EvaluateNodes(mode: Mode, nodes: seq<Node>) returns (r: EvalResult)
      modifies this
      ensures r == EvalNodes(env, old(visited), mode, nodes)
      ensures visited == old(visited) && insidePreprocessorEvaluation == old(insidePreprocessorEvaluation)
      decreases Names(env) - visited, SizeAll(nodes), 1
    {
      if nodes == [] {
        return NotConstant;
      }
      var sig := Significant(nodes);
      var kinds := Kinds(sig);
      if |sig| == 1 {
        r := EvaluateNode(mode, sig[0]);
        return;
      }
      var unary := FindUnaryOperator(sig, kinds);
      if unary.Some? {
        var operand := EvaluateNodes(mode, unary.value.operand);
        return ApplyUnary(unary.value.op, operand);
      }
      var binary := FindBinaryOperator(sig, kinds);
      if binary.Some? {
        r := EvaluateBinaryOp(mode, sig, kinds, binary.value);
        return;
      }
      if |sig| > 0 {
        r := EvaluateNode(mode, sig[0]);
      } else {
        r := NotConstant;
      }
    }

    method EvaluateAtom(mode: Mode, c: AtomContent) returns (r: EvalResult)
      modifies this
      ensures r == EvalAtom(env, old(visited), mode, c)
      ensures visited == old(visited) && insidePreprocessorEvaluation == old(insidePreprocessorEvaluation)
      decreases Names(env) - visited, AtomSize(c), 2
    {
      match c
      case AtomSymbol(name) => r := EvaluateSymbol(mode, name);
      case AtomExpression(cs) => r := EvaluateExpression(mode, cs);
      case AtomCall(call) =>
        if call.params.None? {
          r := NotConstant;
        } else if |call.args| != |call.params.value| {
          r := ArityMismatch(call.name, |call.params.value|, |call.args|);
        } else if call.expansion.None? {
          r := NotConstant;
        } else {
          r := EvaluateNode(InContext, call.expansion.value);
        }
      case AtomUnsupported => r := NotConstant;
      case AtomToken(k, text) => r := EvaluateToken(k, text);
      case AtomEmpty => r := NotConstant;
    }

    /** `evaluateResolvedSymbol`: the symbol is in the set exactly while its definition is evaluated. */
    method EvaluateSymbol(mode: Mode, name: string) returns (r: EvalResult)
      modifies this
      ensures r == EvalSymbol(env, old(visited), mode, name)
      ensures visited == old(visited) && insidePreprocessorEvaluation == old(insidePreprocessorEvaluation)
      decreases Names(env) - visited, 0, 0
    {
      if mode.WithMacros? && name in mode.values {
        return Value(mode.values[name]);
      }
      if name in visited {
        return CircularReference(name);
      }
      ghost var visited0 := visited;
      visited := visited + {name};
      var defs := if mode.InContext? then env.context else env.resolve;
      if name in defs {
        r := EvaluateDefinition(defs[name]);
      } else {
        r := NotConstant;
      }
      visited := visited - {name};
      assert visited == visited0;
    }

    method EvaluateDefinition(d: Definition) returns (r: EvalResult)
      modifies this
      ensures r == EvalDefinition(env, old(visited), d)
      ensures visited == old(visited) && insidePreprocessorEvaluation == old(insidePreprocessorEvaluation)
      decreases Names(env) - visited, DefinitionSize(d), 2
    {
      match d
      case Equ(e) =>
        if e.Some? {
          r := EvaluateExpression(Normal, e.value);
        } else {
          r := NotConstant;
        }
      case Assign(e) =>
        if e.Some? {
          r := EvaluateExpression(Normal, e.value);
        } else {
          r := NotConstant;
        }
      case Define(body) =>
        if body.None? {
          r := NotConstant;
        } else {
          match body.value
          case BodyExpression(cs) => r := EvaluateExpression(Normal, cs);
          case BodyBlank => r := NotConstant;
          case BodyNumber(text) => r := EvaluateNumber(text);
          case BodySymbol(name) => r := EvaluateSymbol(Normal, name);
          case BodyReparsed(e) =>
            if e.Some? {
              r := EvaluateExpression(InContext, e.value);
            } else {
              r := NotConstant;
            }
        }
      case OtherDefinition => r := NotConstant;
    }
  }
}
