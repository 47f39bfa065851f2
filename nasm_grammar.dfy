// The NASM grammar recognizer: one function per rule of the generated
// parser (NasmParser.java), over the significant token kinds. `F(t, p)` is
// `Some(q)` when rule F, started at position p, returns true and leaves the
// cursor at q, and `None` when it returns false (its marker then rolls the
// cursor back to p). Each numbered private sub-rule of the generated parser is
// a function of its own, named after its rule with the numbers kept
// (`add_expr_1_0` is AddExpr_1_0); a choice among single tokens is written in
// place, as TokenIn.
//
// Termination: every call is either at a later position, or at the same
// position to a rule of lower rank (the second `decreases` component). A rule
// that cannot match empty input says so in its contract (`p < r.value`);
// a rule that cannot fail says `r.Some?`.
module NasmGrammar {
  import opened Wrappers
  import opened Tokens
  import opened ParserCursor

  // `absolute_dir`, NasmParser.java:40-50
  function AbsoluteDir(t: seq<Kind>, p: nat): (r: Option<nat>)
    requires p <= |t|
    ensures r.Some? ==> p < r.value <= |t|
    ensures r.Some? ==> NextTokenIs(t, p, {ABSOLUTE_KW})
    decreases |t| - p, 0
  {
    if !NextTokenIs(t, p, {ABSOLUTE_KW}) then None else
    match Token(t, p, ABSOLUTE_KW)
    case None => None
    case Some(q1) =>
    var q2 := Tried(t, q1, ConstExpr(t, q1));
    Some(q2)
  }

  // `add_expr`, NasmParser.java:54-62
  function AddExpr(t: seq<Kind>, p: nat): (r: Option<nat>)
    requires p <= |t|
    ensures r.Some? ==> p < r.value <= |t|
    decreases |t| - p, 9
  {
    match MulExpr(t, p)
    case None => None
    case Some(q1) =>
    AddExpr_1(t, q1)
  }

  // `add_expr_1`, NasmParser.java:65-73
  function AddExpr_1(t: seq<Kind>, p: nat): (r: Option<nat>)
    requires p <= |t|
    ensures r.Some?
    ensures r.Some? ==> p <= r.value <= |t|
    ensures r.Some? ==> AddExpr_1_0(t, r.value).None?
    ensures r.Some? && p < r.value ==> NextTokenIs(t, p, {MINUS, PLUS})
    decreases |t| - p, 2
  {
    match AddExpr_1_0(t, p)
    case None => Some(p)
    case Some(q1) => if q1 == p then Some(p) else AddExpr_1(t, q1)
  }

  // `add_expr_1_0`, NasmParser.java:76-84
  function AddExpr_1_0(t: seq<Kind>, p: nat): (r: Option<nat>)
    requires p <= |t|
    ensures r.Some? ==> p < r.value <= |t|
    ensures r.Some? ==> NextTokenIs(t, p, {MINUS, PLUS})
    decreases |t| - p, 1
  {
    match TokenIn(t, p, {PLUS, MINUS})
    case None => None
    case Some(q1) =>
    MulExpr(t, q1)
  }

  // `align_dir`, NasmParser.java:98-106
  function AlignDir(t: seq<Kind>, p: nat): (r: Option<nat>)
    requires p <= |t|
    ensures r.Some? ==> p < r.value <= |t|
    ensures r.Some? ==> NextTokenIs(t, p, {ALIGNB_KW, ALIGN_KW, SECTALIGN_KW})
    decreases |t| - p, 2
  {
    var r1 := AlignDir_0(t, p);
    if r1.Some? then r1 else
    AlignDir_1(t, p)
  }

  // `align_dir_0`, NasmParser.java:109-118
  function AlignDir_0(t: seq<Kind>, p: nat): (r: Option<nat>)
    requires p <= |t|
    ensures r.Some? ==> p < r.value <= |t|
    ensures r.Some? ==> NextTokenIs(t, p, {ALIGNB_KW, ALIGN_KW})
    decreases |t| - p, 1
  {
    match TokenIn(t, p, {ALIGN_KW, ALIGNB_KW})
    case None => None
    case Some(q1) =>
    match ConstExpr(t, q1)
    case None => None
    case Some(q2) =>
    AlignDir_0_2(t, q2)
  }

  // `align_dir_0_2`, NasmParser.java:130-134
  function AlignDir_0_2(t: seq<Kind>, p: nat): (r: Option<nat>)
    requires p <= |t|
    ensures r.Some?
    ensures r.Some? ==> p <= r.value <= |t|
    ensures r.Some? && p < r.value ==> NextTokenIs(t, p, {COMMA})
    decreases |t| - p, 1
  {
    Some(Tried(t, p, AlignDir_0_2_0(t, p)))
  }

  // `align_dir_0_2_0`, NasmParser.java:137-145
  function AlignDir_0_2_0(t: seq<Kind>, p: nat): (r: Option<nat>)
    requires p <= |t|
    ensures r.Some? ==> p < r.value <= |t|
    ensures r.Some? ==> NextTokenIs(t, p, {COMMA})
    decreases |t| - p, 0
  {
    match Token(t, p, COMMA)
    case None => None
    case Some(q1) =>
    AlignFill(t, q1)
  }

  // `align_dir_1`, NasmParser.java:148-156
  function AlignDir_1(t: seq<Kind>, p: nat): (r: Option<nat>)
    requires p <= |t|
    ensures r.Some? ==> p < r.value <= |t|
    ensures r.Some? ==> NextTokenIs(t, p, {SECTALIGN_KW})
    decreases |t| - p, 0
  {
    match Token(t, p, SECTALIGN_KW)
    case None => None
    case Some(q1) =>
    ConstExpr(t, q1)
  }

  // `align_fill`, NasmParser.java:160-168
  function AlignFill(t: seq<Kind>, p: nat): (r: Option<nat>)
    requires p <= |t|
    ensures r.Some? ==> p < r.value <= |t|
    decreases |t| - p, 20
  {
    var r1 := AlignFill_0(t, p);
    if r1.Some? then r1 else
    ConstExpr(t, p)
  }

  // `align_fill_0`, NasmParser.java:171-179
  function AlignFill_0(t: seq<Kind>, p: nat): (r: Option<nat>)
    requires p <= |t|
    ensures r.Some? ==> p < r.value <= |t|
    ensures r.Some? ==> NextTokenIs(t, p, {DATA_SIZE})
    decreases |t| - p, 0
  {
    match Token(t, p, DATA_SIZE)
    case None => None
    case Some(q1) =>
    DataList(t, q1)
  }

  // `and_expr`, NasmParser.java:183-191
  function AndExpr(t: seq<Kind>, p: nat): (r: Option<nat>)
    requires p <= |t|
    ensures r.Some? ==> p < r.value <= |t|
    decreases |t| - p, 11
  {
    match ShiftExpr(t, p)
    case None => None
    case Some(q1) =>
    AndExpr_1(t, q1)
  }

  // `and_expr_1`, NasmParser.java:194-202
  function AndExpr_1(t: seq<Kind>, p: nat): (r: Option<nat>)
    requires p <= |t|
    ensures r.Some?
    ensures r.Some? ==> p <= r.value <= |t|
    ensures r.Some? ==> AndExpr_1_0(t, r.value).None?
    ensures r.Some? && p < r.value ==> NextTokenIs(t, p, {AMP})
    decreases |t| - p, 1
  {
    match AndExpr_1_0(t, p)
    case None => Some(p)
    case Some(q1) => if q1 == p then Some(p) else AndExpr_1(t, q1)
  }

  // `and_expr_1_0`, NasmParser.java:205-213
  function AndExpr_1_0(t: seq<Kind>, p: nat): (r: Option<nat>)
    requires p <= |t|
    ensures r.Some? ==> p < r.value <= |t|
    ensures r.Some? ==> NextTokenIs(t, p, {AMP})
    decreases |t| - p, 0
  {
    match Token(t, p, AMP)
    case None => None
    case Some(q1) =>
    ShiftExpr(t, q1)
  }

  // `arg_directive`, NasmParser.java:217-226
  function ArgDirective(t: seq<Kind>, p: nat): (r: Option<nat>)
    requires p <= |t|
    ensures r.Some? ==> p < r.value <= |t|
    ensures r.Some? ==> NextTokenIs(t, p, {IDENTIFIER})
    decreases |t| - p, 0
  {
    if !NextTokenIs(t, p, {IDENTIFIER}) then None else
    match Token(t, p, IDENTIFIER)
    case None => None
    case Some(q1) =>
    ArgDirective_1(t, q1)
  }

  // `arg_directive_1`, NasmParser.java:229-237
  function ArgDirective_1(t: seq<Kind>, p: nat): (r: Option<nat>)
    requires p <= |t|
    ensures r.Some?
    ensures r.Some? ==> p <= r.value <= |t|
    ensures r.Some? ==> ArgDirective_1_0(t, r.value).None?
    ensures r.Some? && p < r.value ==> NextTokenIs(t, p, {COMMA})
    decreases |t| - p, 1
  {
    match ArgDirective_1_0(t, p)
    case None => Some(p)
    case Some(q1) => if q1 == p then Some(p) else ArgDirective_1(t, q1)
  }

  // `arg_directive_1_0`, NasmParser.java:240-247
  function ArgDirective_1_0(t: seq<Kind>, p: nat): (r: Option<nat>)
    requires p <= |t|
    ensures r.Some? ==> p < r.value <= |t|
    ensures r.Some? ==> NextTokenIs(t, p, {COMMA})
    decreases |t| - p, 0
  {
    var s1 := ConsumeTokens(t, p, 0, [COMMA, IDENTIFIER]);
    if s1.ok then Some(s1.pos) else
    None
  }

  // `assignment`, NasmParser.java:253-262
  function Assignment(t: seq<Kind>, p: nat): (r: Option<nat>)
    requires p <= |t|
    ensures r.Some? ==> p < r.value <= |t|
    ensures r.Some? ==> NextTokenIs(t, p, {CONTEXT_LOCAL_REF, IDENTIFIER, MACRO_ASSIGN, MACRO_DEFINE, MACRO_EXPANSION_START, MACRO_EXPLICIT_START, MACRO_LOCAL_REF, MACRO_PARAM, MACRO_PARAM_GREEDY, MACRO_PARAM_REVERSE})
    decreases |t| - p, 6
  {
    var r1 := EquDefinition(t, p);
    if r1.Some? then r1 else
    var r2 := PpAssignStmt(t, p);
    if r2.Some? then r2 else
    PpDefineStmt(t, p)
  }

  // `at_directive`, NasmParser.java:266-278
  function AtDirective(t: seq<Kind>, p: nat): (r: Option<nat>)
    requires p <= |t|
    ensures r.Some? ==> p < r.value <= |t|
    ensures r.Some? ==> NextTokenIs(t, p, {AT_KW})
    decreases |t| - p, 0
  {
    if !NextTokenIs(t, p, {AT_KW}) then None else
    match Token(t, p, AT_KW)
    case None => None
    case Some(q1) =>
    var q2 := Tried(t, q1, SymbolRef(t, q1));
    var q3 := Tried(t, q2, Token(t, q2, COMMA));
    var q4 := Tried(t, q3, DataDef(t, q3));
    Some(q4)
  }

  // `atom_expr`, NasmParser.java:294-313
  function AtomExpr(t: seq<Kind>, p: nat): (r: Option<nat>)
    requires p <= |t|
    ensures r.Some? ==> p < r.value <= |t|
    decreases |t| - p, 5
  {
    var r1 := AtomExpr_0(t, p);
    if r1.Some? then r1 else
    var r2 := AtomExpr_1(t, p);
    if r2.Some? then r2 else
    var r3 := FunctionMacroCall(t, p);
    if r3.Some? then r3 else
    var r4 := BuiltinFunction(t, p);
    if r4.Some? then r4 else
    var r5 := MacroExpansion(t, p);
    if r5.Some? then r5 else
    var r6 := EnvVarRef(t, p);
    if r6.Some? then r6 else
    var r7 := FloatFormat(t, p);
    if r7.Some? then r7 else
    var r8 := Register(t, p);
    if r8.Some? then r8 else
    var r9 := SymbolRef(t, p);
    if r9.Some? then r9 else
    var r10 := Token(t, p, NUMBER);
    if r10.Some? then r10 else
    var r11 := Token(t, p, STRING);
    if r11.Some? then r11 else
    var r12 := Token(t, p, FLOAT);
    if r12.Some? then r12 else
    Token(t, p, SPECIAL_FLOAT)
  }

  // `atom_expr_0`, NasmParser.java:316-325
  function AtomExpr_0(t: seq<Kind>, p: nat): (r: Option<nat>)
    requires p <= |t|
    ensures r.Some? ==> p < r.value <= |t|
    ensures r.Some? ==> NextTokenIs(t, p, {LPAREN})
    decreases |t| - p, 0
  {
    match Token(t, p, LPAREN)
    case None => None
    case Some(q1) =>
    match Expression(t, q1)
    case None => None
    case Some(q2) =>
    Token(t, q2, RPAREN)
  }

  // `atom_expr_1`, NasmParser.java:328-337
  function AtomExpr_1(t: seq<Kind>, p: nat): (r: Option<nat>)
    requires p <= |t|
    ensures r.Some? ==> p < r.value <= |t|
    ensures r.Some? ==> NextTokenIs(t, p, {LBRACE})
    decreases |t| - p, 0
  {
    match Token(t, p, LBRACE)
    case None => None
    case Some(q1) =>
    match BraceTokenSequence(t, q1)
    case None => None
    case Some(q2) =>
    Token(t, q2, RBRACE)
  }

  // `base_token_element`, NasmParser.java:360-384
  function BaseTokenElement(t: seq<Kind>, p: nat): (r: Option<nat>)
    requires p <= |t|
    ensures r.Some? ==> p < r.value <= |t|
    decreases |t| - p, 2
  {
    var r1 := PreprocessorId(t, p);
    if r1.Some? then r1 else
    var r2 := MacroExpansion(t, p);
    if r2.Some? then r2 else
    var r3 := MacroParamRef(t, p);
    if r3.Some? then r3 else
    var r4 := ContextRef(t, p);
    if r4.Some? then r4 else
    var r5 := StringizeOp(t, p);
    if r5.Some? then r5 else
    var r6 := Token(t, p, IDENTIFIER);
    if r6.Some? then r6 else
    var r7 := Token(t, p, NUMBER);
    if r7.Some? then r7 else
    var r8 := Token(t, p, STRING);
    if r8.Some? then r8 else
    var r9 := Token(t, p, REGISTER);
    if r9.Some? then r9 else
    var r10 := Token(t, p, SEG_REGISTER);
    if r10.Some? then r10 else
    var r11 := Token(t, p, MASK_REG);
    if r11.Some? then r11 else
    var r12 := Token(t, p, SIZE_SPEC);
    if r12.Some? then r12 else
    var r13 := Token(t, p, DATA_SIZE);
    if r13.Some? then r13 else
    var r14 := Token(t, p, SPACE_SIZE);
    if r14.Some? then r14 else
    var r15 := Token(t, p, BUILTIN_FUNC);
    if r15.Some? then r15 else
    var r16 := Token(t, p, STRING_FUNC);
    if r16.Some? then r16 else
    var r17 := Token(t, p, FLOAT);
    if r17.Some? then r17 else
    var r18 := Token(t, p, SPECIAL_FLOAT);
    if r18.Some? then r18 else
    var r19 := Operator(t, p);
    if r19.Some? then r19 else
    Separator(t, p)
  }

  // `bits_dir`, NasmParser.java:391-401
  function BitsDir(t: seq<Kind>, p: nat): (r: Option<nat>)
    requires p <= |t|
    ensures r.Some? ==> p < r.value <= |t|
    ensures r.Some? ==> NextTokenIs(t, p, {BITS_KW, USE16_KW, USE32_KW, USE64_KW})
    decreases |t| - p, 1
  {
    var r1 := BitsDir_0(t, p);
    if r1.Some? then r1 else
    var r2 := Token(t, p, USE16_KW);
    if r2.Some? then r2 else
    var r3 := Token(t, p, USE32_KW);
    if r3.Some? then r3 else
    Token(t, p, USE64_KW)
  }

  // `bits_dir_0`, NasmParser.java:404-412
  function BitsDir_0(t: seq<Kind>, p: nat): (r: Option<nat>)
    requires p <= |t|
    ensures r.Some? ==> p < r.value <= |t|
    ensures r.Some? ==> NextTokenIs(t, p, {BITS_KW})
    decreases |t| - p, 0
  {
    match Token(t, p, BITS_KW)
    case None => None
    case Some(q1) =>
    ConstExpr(t, q1)
  }

  // `brace_token`, NasmParser.java:416-424
  function BraceToken(t: seq<Kind>, p: nat): (r: Option<nat>)
    requires p <= |t|
    ensures r.Some? ==> p < r.value <= |t|
    decreases |t| - p, 4
  {
    match BraceToken_0(t, p)
    case None => None
    case Some(q1) =>
    PreprocessorToken(t, q1)
  }

  // `brace_token_0`, NasmParser.java:427-434
  function BraceToken_0(t: seq<Kind>, p: nat): (r: Option<nat>)
    requires p <= |t|
    ensures r.Some? ==> p <= r.value <= |t|
    ensures r.Some? ==> r.value == p
    decreases |t| - p, 0
  {
    if Token(t, p, RBRACE).Some? then None else Some(p)
  }

  // `brace_token_sequence`, NasmParser.java:438-450
  function BraceTokenSequence(t: seq<Kind>, p: nat): (r: Option<nat>)
    requires p <= |t|
    ensures r.Some? ==> p < r.value <= |t|
    ensures r.Some? ==> BraceToken(t, r.value).None?
    decreases |t| - p, 5
  {
    match BraceToken(t, p)
    case None => None
    case Some(q1) => if q1 == p then Some(p) else Some(Tried(t, q1, BraceTokenSequence(t, q1)))
  }

  // `bracketed_directive`, NasmParser.java:455-464
  function BracketedDirective(t: seq<Kind>, p: nat): (r: Option<nat>)
    requires p <= |t|
    ensures r.Some? ==> p < r.value <= |t|
    ensures r.Some? ==> NextTokenIs(t, p, {LBRACKET})
    decreases |t| - p, 1
  {
    if !NextTokenIs(t, p, {LBRACKET}) then None else
    var r1 := BracketedDirective_0(t, p);
    if r1.Some? then r1 else
    BracketedDirective_1(t, p)
  }

  // `bracketed_directive_0`, NasmParser.java:467-476
  function BracketedDirective_0(t: seq<Kind>, p: nat): (r: Option<nat>)
    requires p <= |t|
    ensures r.Some? ==> p < r.value <= |t|
    ensures r.Some? ==> NextTokenIs(t, p, {LBRACKET})
    decreases |t| - p, 0
  {
    var s2 := ConsumeTokens(t, p, 0, [LBRACKET, DEFAULT_KW]);
    if !s2.ok then None else
    var q1 := s2.pos;
    match DefaultOption(t, q1)
    case None => None
    case Some(q3) =>
    Token(t, q3, RBRACKET)
  }

  // `bracketed_directive_1`, NasmParser.java:479-488
  function BracketedDirective_1(t: seq<Kind>, p: nat): (r: Option<nat>)
    requires p <= |t|
    ensures r.Some? ==> p < r.value <= |t|
    ensures r.Some? ==> NextTokenIs(t, p, {LBRACKET})
    decreases |t| - p, 0
  {
    var s2 := ConsumeTokens(t, p, 0, [LBRACKET, IDENTIFIER]);
    if !s2.ok then None else
    var q1 := s2.pos;
    match BracketedDirective_1_2(t, q1)
    case None => None
    case Some(q3) =>
    Token(t, q3, RBRACKET)
  }

  // `bracketed_directive_1_2`, NasmParser.java:491-503
  function BracketedDirective_1_2(t: seq<Kind>, p: nat): (r: Option<nat>)
    requires p <= |t|
    ensures r.Some? ==> p < r.value <= |t|
    ensures r.Some? ==> Token(t, r.value, IDENTIFIER).None?
    ensures r.Some? ==> NextTokenIs(t, p, {IDENTIFIER})
    decreases |t| - p, 0
  {
    match Token(t, p, IDENTIFIER)
    case None => None
    case Some(q1) => if q1 == p then Some(p) else Some(Tried(t, q1, BracketedDirective_1_2(t, q1)))
  }

  // `builtin_function`, NasmParser.java:510-520
  function BuiltinFunction(t: seq<Kind>, p: nat): (r: Option<nat>)
    requires p <= |t|
    ensures r.Some? ==> p < r.value <= |t|
    ensures r.Some? ==> NextTokenIs(t, p, {BUILTIN_FUNC, DEFINED, MACRO_STRCAT, MACRO_STRLEN, MACRO_SUBSTR, PREPROCESSOR_DIRECTIVE, QUERY, QUERY_EXPAND, STRING_FUNC})
    decreases |t| - p, 2
  {
    var r1 := IntegerFunction(t, p);
    if r1.Some? then r1 else
    var r2 := PreprocessorFunction(t, p);
    if r2.Some? then r2 else
    var r3 := StringTransform(t, p);
    if r3.Some? then r3 else
    QueryFunction(t, p)
  }

  // `clear_dir`, NasmParser.java:526-535
  function ClearDir(t: seq<Kind>, p: nat): (r: Option<nat>)
    requires p <= |t|
    ensures r.Some? ==> p < r.value <= |t|
    ensures r.Some? ==> NextTokenIs(t, p, {MACRO_CLEAR, MACRO_UNDEF, MACRO_UNMACRO})
    decreases |t| - p, 1
  {
    var r1 := ClearDir_0(t, p);
    if r1.Some? then r1 else
    var r2 := ParseTokens(t, p, 0, [MACRO_UNDEF, IDENTIFIER]);
    if r2.Some? then r2 else
    ClearDir_2(t, p)
  }

  // `clear_dir_0`, NasmParser.java:538-546
  function ClearDir_0(t: seq<Kind>, p: nat): (r: Option<nat>)
    requires p <= |t|
    ensures r.Some? ==> p < r.value <= |t|
    ensures r.Some? ==> NextTokenIs(t, p, {MACRO_CLEAR})
    decreases |t| - p, 0
  {
    match Token(t, p, MACRO_CLEAR)
    case None => None
    case Some(q1) =>
    ClearDir_0_1(t, q1)
  }

  // `clear_dir_0_1`, NasmParser.java:549-553
  function ClearDir_0_1(t: seq<Kind>, p: nat): (r: Option<nat>)
    requires p <= |t|
    ensures r.Some?
    ensures r.Some? ==> p <= r.value <= |t|
    ensures r.Some? && p < r.value ==> NextTokenIs(t, p, {IDENTIFIER})
    decreases |t| - p, 1
  {
    Some(Tried(t, p, ClearTarget(t, p)))
  }

  // `clear_dir_2`, NasmParser.java:556-564
  function ClearDir_2(t: seq<Kind>, p: nat): (r: Option<nat>)
    requires p <= |t|
    ensures r.Some? ==> p < r.value <= |t|
    ensures r.Some? ==> NextTokenIs(t, p, {MACRO_UNMACRO})
    decreases |t| - p, 0
  {
    var s2 := ConsumeTokens(t, p, 0, [MACRO_UNMACRO, IDENTIFIER]);
    if !s2.ok then None else
    var q1 := s2.pos;
    ClearDir_2_2(t, q1)
  }

  // `clear_dir_2_2`, NasmParser.java:567-571
  function ClearDir_2_2(t: seq<Kind>, p: nat): (r: Option<nat>)
    requires p <= |t|
    ensures r.Some?
    ensures r.Some? ==> p <= r.value <= |t|
    ensures r.Some? && p < r.value ==> NextTokenIs(t, p, {NUMBER})
    decreases |t| - p, 1
  {
    Some(Tried(t, p, ParamCount(t, p)))
  }

  // `clear_target`, NasmParser.java:575-583
  function ClearTarget(t: seq<Kind>, p: nat): (r: Option<nat>)
    requires p <= |t|
    ensures r.Some? <==> NextTokenIs(t, p, {IDENTIFIER})
    ensures r.Some? ==> r.value == p + 1
    decreases |t| - p, 0
  {
    if !NextTokenIs(t, p, {IDENTIFIER}) then None else
    Token(t, p, IDENTIFIER)
  }

  // `common_dir`, NasmParser.java:587-597
  function CommonDir(t: seq<Kind>, p: nat): (r: Option<nat>)
    requires p <= |t|
    ensures r.Some? ==> p < r.value <= |t|
    ensures r.Some? ==> NextTokenIs(t, p, {COMMON_KW})
    decreases |t| - p, 0
  {
    if !NextTokenIs(t, p, {COMMON_KW}) then None else
    var s2 := ConsumeTokens(t, p, 1, [COMMON_KW, IDENTIFIER]);
    if !s2.ok then None else
    var q1 := s2.pos;
    var q3 := Tried(t, q1, ConstExpr(t, q1));
    Some(q3)
  }

  // `comparison_expr`, NasmParser.java:601-609
  function ComparisonExpr(t: seq<Kind>, p: nat): (r: Option<nat>)
    requires p <= |t|
    ensures r.Some? ==> p < r.value <= |t|
    decreases |t| - p, 17
  {
    match LogicalOrExpr(t, p)
    case None => None
    case Some(q1) =>
    ComparisonExpr_1(t, q1)
  }

  // `comparison_expr_1`, NasmParser.java:612-620
  function ComparisonExpr_1(t: seq<Kind>, p: nat): (r: Option<nat>)
    requires p <= |t|
    ensures r.Some?
    ensures r.Some? ==> p <= r.value <= |t|
    ensures r.Some? ==> ComparisonExpr_1_0(t, r.value).None?
    ensures r.Some? && p < r.value ==> NextTokenIs(t, p, {EQ_EQ, GT, GTE, LT, LTE, NOT_EQUAL_1, NOT_EQUAL_2, SPACESHIP})
    decreases |t| - p, 2
  {
    match ComparisonExpr_1_0(t, p)
    case None => Some(p)
    case Some(q1) => if q1 == p then Some(p) else ComparisonExpr_1(t, q1)
  }

  // `comparison_expr_1_0`, NasmParser.java:623-631
  function ComparisonExpr_1_0(t: seq<Kind>, p: nat): (r: Option<nat>)
    requires p <= |t|
    ensures r.Some? ==> p < r.value <= |t|
    ensures r.Some? ==> NextTokenIs(t, p, {EQ_EQ, GT, GTE, LT, LTE, NOT_EQUAL_1, NOT_EQUAL_2, SPACESHIP})
    decreases |t| - p, 1
  {
    match ComparisonOp(t, p)
    case None => None
    case Some(q1) =>
    LogicalOrExpr(t, q1)
  }

  // `comparison_op`, NasmParser.java:635-647
  function ComparisonOp(t: seq<Kind>, p: nat): (r: Option<nat>)
    requires p <= |t|
    ensures r.Some? <==> NextTokenIs(t, p, {EQ_EQ, NOT_EQUAL_1, NOT_EQUAL_2, LT, LTE, GT, GTE, SPACESHIP})
    ensures r.Some? ==> r.value == p + 1
    decreases |t| - p, 0
  {
    var r1 := Token(t, p, EQ_EQ);
    if r1.Some? then r1 else
    var r2 := Token(t, p, NOT_EQUAL_1);
    if r2.Some? then r2 else
    var r3 := Token(t, p, NOT_EQUAL_2);
    if r3.Some? then r3 else
    var r4 := Token(t, p, LT);
    if r4.Some? then r4 else
    var r5 := Token(t, p, LTE);
    if r5.Some? then r5 else
    var r6 := Token(t, p, GT);
    if r6.Some? then r6 else
    var r7 := Token(t, p, GTE);
    if r7.Some? then r7 else
    Token(t, p, SPACESHIP)
  }

  // `condition`, NasmParser.java:652-660
  function Condition(t: seq<Kind>, p: nat): (r: Option<nat>)
    requires p <= |t|
    ensures r.Some? ==> p < r.value <= |t|
    decreases |t| - p, 20
  {
    var r1 := TokenComparison(t, p);
    if r1.Some? then r1 else
    ConstExpr(t, p)
  }

  // `conditional_block`, NasmParser.java:664-676
  function ConditionalBlock(t: seq<Kind>, p: nat): (r: Option<nat>)
    requires p <= |t|
    ensures r.Some? ==> p < r.value <= |t|
    ensures r.Some? ==> NextTokenIs(t, p, {MACRO_IF, MACRO_IFDEF, MACRO_IFMACRO, MACRO_IFNDEF})
    decreases |t| - p, 2
  {
    match IfDir(t, p)
    case None => None
    case Some(q1) =>
    var q2 := Tried(t, q1, Token(t, q1, CRLF));
    var q3 := Tried(t, q2, ConditionalContent(t, q2));
    var q4 := Tried(t, q3, EndifDir(t, q3));
    var q5 := Tried(t, q4, ConditionalBlock_4(t, q4));
    Some(q5)
  }

  // `conditional_block_4`, NasmParser.java:679-683
  function ConditionalBlock_4(t: seq<Kind>, p: nat): (r: Option<nat>)
    requires p <= |t|
    ensures r.Some?
    ensures r.Some? ==> p <= r.value <= |t|
    ensures r.Some? && p < r.value ==> NextTokenIs(t, p, {CRLF})
    decreases |t| - p, 0
  {
    Some(Tried(t, p, Token(t, p, CRLF)))
  }

  // `conditional_content`, NasmParser.java:687-695
  function ConditionalContent(t: seq<Kind>, p: nat): (r: Option<nat>)
    requires p <= |t|
    ensures r.Some?
    ensures r.Some? ==> p <= r.value <= |t|
    decreases |t| - p, 11
  {
    match ConditionalSourceLines(t, p)
    case None => None
    case Some(q1) =>
    ConditionalContent_1(t, q1)
  }

  // `conditional_content_1`, NasmParser.java:698-702
  function ConditionalContent_1(t: seq<Kind>, p: nat): (r: Option<nat>)
    requires p <= |t|
    ensures r.Some?
    ensures r.Some? ==> p <= r.value <= |t|
    ensures r.Some? && p < r.value ==> NextTokenIs(t, p, {MACRO_ELIF, MACRO_ELIFMACRO, MACRO_ELSE})
    decreases |t| - p, 6
  {
    Some(Tried(t, p, ElifOrElsePart(t, p)))
  }

  // `conditional_data`, NasmParser.java:709-725
  function ConditionalData(t: seq<Kind>, p: nat): (r: Option<nat>)
    requires p <= |t|
    ensures r.Some? ==> p < r.value <= |t|
    ensures r.Some? ==> NextTokenIs(t, p, {MACRO_IF})
    decreases |t| - p, 0
  {
    if !NextTokenIs(t, p, {MACRO_IF}) then None else
    match Token(t, p, MACRO_IF)
    case None => None
    case Some(q1) =>
    var q2 := Tried(t, q1, Condition(t, q1));
    var q3 := Tried(t, q2, Token(t, q2, CRLF));
    var q4 := Tried(t, q3, DataItem(t, q3));
    var q5 := Tried(t, q4, Token(t, q4, CRLF));
    var q6 := Tried(t, q5, ConditionalData_5(t, q5));
    var q7 := Tried(t, q6, ConditionalData_6(t, q6));
    var q8 := Tried(t, q7, Token(t, q7, MACRO_ENDIF));
    Some(q8)
  }

  // `conditional_data_5`, NasmParser.java:728-736
  function ConditionalData_5(t: seq<Kind>, p: nat): (r: Option<nat>)
    requires p <= |t|
    ensures r.Some?
    ensures r.Some? ==> p <= r.value <= |t|
    ensures r.Some? ==> ConditionalData_5_0(t, r.value).None?
    ensures r.Some? && p < r.value ==> NextTokenIs(t, p, {MACRO_ELIF})
    decreases |t| - p, 1
  {
    match ConditionalData_5_0(t, p)
    case None => Some(p)
    case Some(q1) => if q1 == p then Some(p) else ConditionalData_5(t, q1)
  }

  // `conditional_data_5_0`, NasmParser.java:739-750
  function ConditionalData_5_0(t: seq<Kind>, p: nat): (r: Option<nat>)
    requires p <= |t|
    ensures r.Some? ==> p < r.value <= |t|
    ensures r.Some? ==> NextTokenIs(t, p, {MACRO_ELIF})
    decreases |t| - p, 0
  {
    match Token(t, p, MACRO_ELIF)
    case None => None
    case Some(q1) =>
    match Condition(t, q1)
    case None => None
    case Some(q2) =>
    match Token(t, q2, CRLF)
    case None => None
    case Some(q3) =>
    match DataItem(t, q3)
    case None => None
    case Some(q4) =>
    Token(t, q4, CRLF)
  }

  // `conditional_data_6`, NasmParser.java:753-757
  function ConditionalData_6(t: seq<Kind>, p: nat): (r: Option<nat>)
    requires p <= |t|
    ensures r.Some?
    ensures r.Some? ==> p <= r.value <= |t|
    ensures r.Some? && p < r.value ==> NextTokenIs(t, p, {MACRO_ELSE})
    decreases |t| - p, 1
  {
    Some(Tried(t, p, ConditionalData_6_0(t, p)))
  }

  // `conditional_data_6_0`, NasmParser.java:760-769
  function ConditionalData_6_0(t: seq<Kind>, p: nat): (r: Option<nat>)
    requires p <= |t|
    ensures r.Some? ==> p < r.value <= |t|
    ensures r.Some? ==> NextTokenIs(t, p, {MACRO_ELSE})
    decreases |t| - p, 0
  {
    var s2 := ConsumeTokens(t, p, 0, [MACRO_ELSE, CRLF]);
    if !s2.ok then None else
    var q1 := s2.pos;
    match DataItem(t, q1)
    case None => None
    case Some(q3) =>
    Token(t, q3, CRLF)
  }

  // `conditional_marker`, NasmParser.java:773-781
  function ConditionalMarker(t: seq<Kind>, p: nat): (r: Option<nat>)
    requires p <= |t|
    ensures r.Some? <==> NextTokenIs(t, p, {MACRO_ELIF, MACRO_ELIFMACRO, MACRO_ELSE, MACRO_ENDIF})
    ensures r.Some? ==> r.value == p + 1
    decreases |t| - p, 0
  {
    var r1 := Token(t, p, MACRO_ELIF);
    if r1.Some? then r1 else
    var r2 := Token(t, p, MACRO_ELIFMACRO);
    if r2.Some? then r2 else
    var r3 := Token(t, p, MACRO_ELSE);
    if r3.Some? then r3 else
    Token(t, p, MACRO_ENDIF)
  }

  // `conditional_operand`, NasmParser.java:788-804
  function ConditionalOperand(t: seq<Kind>, p: nat): (r: Option<nat>)
    requires p <= |t|
    ensures r.Some? ==> p < r.value <= |t|
    ensures r.Some? ==> NextTokenIs(t, p, {MACRO_IF})
    decreases |t| - p, 0
  {
    if !NextTokenIs(t, p, {MACRO_IF}) then None else
    match Token(t, p, MACRO_IF)
    case None => None
    case Some(q1) =>
    var q2 := Tried(t, q1, Condition(t, q1));
    var q3 := Tried(t, q2, Token(t, q2, CRLF));
    var q4 := Tried(t, q3, Operand(t, q3));
    var q5 := Tried(t, q4, Token(t, q4, CRLF));
    var q6 := Tried(t, q5, ConditionalOperand_5(t, q5));
    var q7 := Tried(t, q6, ConditionalOperand_6(t, q6));
    var q8 := Tried(t, q7, Token(t, q7, MACRO_ENDIF));
    Some(q8)
  }

  // `conditional_operand_5`, NasmParser.java:807-815
  function ConditionalOperand_5(t: seq<Kind>, p: nat): (r: Option<nat>)
    requires p <= |t|
    ensures r.Some?
    ensures r.Some? ==> p <= r.value <= |t|
    ensures r.Some? ==> ConditionalOperand_5_0(t, r.value).None?
    ensures r.Some? && p < r.value ==> NextTokenIs(t, p, {MACRO_ELIF})
    decreases |t| - p, 1
  {
    match ConditionalOperand_5_0(t, p)
    case None => Some(p)
    case Some(q1) => if q1 == p then Some(p) else ConditionalOperand_5(t, q1)
  }

  // `conditional_operand_5_0`, NasmParser.java:818-829
  function ConditionalOperand_5_0(t: seq<Kind>, p: nat): (r: Option<nat>)
    requires p <= |t|
    ensures r.Some? ==> p < r.value <= |t|
    ensures r.Some? ==> NextTokenIs(t, p, {MACRO_ELIF})
    decreases |t| - p, 0
  {
    match Token(t, p, MACRO_ELIF)
    case None => None
    case Some(q1) =>
    match Condition(t, q1)
    case None => None
    case Some(q2) =>
    match Token(t, q2, CRLF)
    case None => None
    case Some(q3) =>
    match Operand(t, q3)
    case None => None
    case Some(q4) =>
    Token(t, q4, CRLF)
  }

  // `conditional_operand_6`, NasmParser.java:832-836
  function ConditionalOperand_6(t: seq<Kind>, p: nat): (r: Option<nat>)
    requires p <= |t|
    ensures r.Some?
    ensures r.Some? ==> p <= r.value <= |t|
    ensures r.Some? && p < r.value ==> NextTokenIs(t, p, {MACRO_ELSE})
    decreases |t| - p, 1
  {
    Some(Tried(t, p, ConditionalOperand_6_0(t, p)))
  }

  // `conditional_operand_6_0`, NasmParser.java:839-848
  function ConditionalOperand_6_0(t: seq<Kind>, p: nat): (r: Option<nat>)
    requires p <= |t|
    ensures r.Some? ==> p < r.value <= |t|
    ensures r.Some? ==> NextTokenIs(t, p, {MACRO_ELSE})
    decreases |t| - p, 0
  {
    var s2 := ConsumeTokens(t, p, 0, [MACRO_ELSE, CRLF]);
    if !s2.ok then None else
    var q1 := s2.pos;
    match Operand(t, q1)
    case None => None
    case Some(q3) =>
    Token(t, q3, CRLF)
  }

  // `conditional_source_lines`, NasmParser.java:852-860
  function ConditionalSourceLines(t: seq<Kind>, p: nat): (r: Option<nat>)
    requires p <= |t|
    ensures r.Some?
    ensures r.Some? ==> p <= r.value <= |t|
    ensures r.Some? ==> ConditionalSourceLines_0(t, r.value).None?
    decreases |t| - p, 10
  {
    match ConditionalSourceLines_0(t, p)
    case None => Some(p)
    case Some(q1) => if q1 == p then Some(p) else ConditionalSourceLines(t, q1)
  }

  // `conditional_source_lines_0`, NasmParser.java:863-871
  function ConditionalSourceLines_0(t: seq<Kind>, p: nat): (r: Option<nat>)
    requires p <= |t|
    ensures r.Some? ==> p < r.value <= |t|
    decreases |t| - p, 9
  {
    match ConditionalSourceLines_0_0(t, p)
    case None => None
    case Some(q1) =>
    SourceLine(t, q1)
  }

  // `conditional_source_lines_0_0`, NasmParser.java:874-881
  function ConditionalSourceLines_0_0(t: seq<Kind>, p: nat): (r: Option<nat>)
    requires p <= |t|
    ensures r.Some? ==> p <= r.value <= |t|
    ensures r.Some? ==> r.value == p
    decreases |t| - p, 1
  {
    if ConditionalMarker(t, p).Some? then None else Some(p)
  }

  // `const_expr`, NasmParser.java:885-887
  function ConstExpr(t: seq<Kind>, p: nat): (r: Option<nat>)
    requires p <= |t|
    ensures r.Some? ==> p < r.value <= |t|
    decreases |t| - p, 19
  {
    Expression(t, p)
  }

  // `context_dir`, NasmParser.java:896-908
  function ContextDir(t: seq<Kind>, p: nat): (r: Option<nat>)
    requires p <= |t|
    ensures r.Some? ==> p < r.value <= |t|
    ensures r.Some? ==> NextTokenIs(t, p, {MACRO_ARG_DECL, MACRO_LOCAL, MACRO_POP, MACRO_PUSH, MACRO_REPL, MACRO_STACKSIZE})
    decreases |t| - p, 1
  {
    var r1 := ContextDir_0(t, p);
    if r1.Some? then r1 else
    var r2 := Token(t, p, MACRO_POP);
    if r2.Some? then r2 else
    var r3 := ContextDir_2(t, p);
    if r3.Some? then r3 else
    var r4 := ContextDir_3(t, p);
    if r4.Some? then r4 else
    var r5 := ContextDir_4(t, p);
    if r5.Some? then r5 else
    ContextDir_5(t, p)
  }

  // `context_dir_0`, NasmParser.java:911-919
  function ContextDir_0(t: seq<Kind>, p: nat): (r: Option<nat>)
    requires p <= |t|
    ensures r.Some? ==> p < r.value <= |t|
    ensures r.Some? ==> NextTokenIs(t, p, {MACRO_PUSH})
    decreases |t| - p, 0
  {
    match Token(t, p, MACRO_PUSH)
    case None => None
    case Some(q1) =>
    ContextDir_0_1(t, q1)
  }

  // `context_dir_0_1`, NasmParser.java:922-926
  function ContextDir_0_1(t: seq<Kind>, p: nat): (r: Option<nat>)
    requires p <= |t|
    ensures r.Some?
    ensures r.Some? ==> p <= r.value <= |t|
    ensures r.Some? && p < r.value ==> NextTokenIs(t, p, {IDENTIFIER})
    decreases |t| - p, 1
  {
    Some(Tried(t, p, ContextName(t, p)))
  }

  // `context_dir_2`, NasmParser.java:929-937
  function ContextDir_2(t: seq<Kind>, p: nat): (r: Option<nat>)
    requires p <= |t|
    ensures r.Some? ==> p < r.value <= |t|
    ensures r.Some? ==> NextTokenIs(t, p, {MACRO_REPL})
    decreases |t| - p, 0
  {
    match Token(t, p, MACRO_REPL)
    case None => None
    case Some(q1) =>
    ContextName(t, q1)
  }

  // `context_dir_3`, NasmParser.java:940-948
  function ContextDir_3(t: seq<Kind>, p: nat): (r: Option<nat>)
    requires p <= |t|
    ensures r.Some? ==> p < r.value <= |t|
    ensures r.Some? ==> NextTokenIs(t, p, {MACRO_ARG_DECL})
    decreases |t| - p, 0
  {
    match Token(t, p, MACRO_ARG_DECL)
    case None => None
    case Some(q1) =>
    ArgDirective(t, q1)
  }

  // `context_dir_4`, NasmParser.java:951-959
  function ContextDir_4(t: seq<Kind>, p: nat): (r: Option<nat>)
    requires p <= |t|
    ensures r.Some? ==> p < r.value <= |t|
    ensures r.Some? ==> NextTokenIs(t, p, {MACRO_STACKSIZE})
    decreases |t| - p, 0
  {
    match Token(t, p, MACRO_STACKSIZE)
    case None => None
    case Some(q1) =>
    ConstExpr(t, q1)
  }

  // `context_dir_5`, NasmParser.java:962-970
  function ContextDir_5(t: seq<Kind>, p: nat): (r: Option<nat>)
    requires p <= |t|
    ensures r.Some? ==> p < r.value <= |t|
    ensures r.Some? ==> NextTokenIs(t, p, {MACRO_LOCAL})
    decreases |t| - p, 0
  {
    match Token(t, p, MACRO_LOCAL)
    case None => None
    case Some(q1) =>
    LocalDirective(t, q1)
  }

  // `context_local_ref`, NasmParser.java:974-981
  function ContextLocalRef(t: seq<Kind>, p: nat): (r: Option<nat>)
    requires p <= |t|
    ensures r.Some? <==> NextTokenIs(t, p, {CONTEXT_LOCAL_REF, MACRO_LOCAL_REF})
    ensures r.Some? ==> r.value == p + 1
    decreases |t| - p, 0
  {
    if !NextTokenIs(t, p, {CONTEXT_LOCAL_REF, MACRO_LOCAL_REF}) then None else
    var r1 := Token(t, p, CONTEXT_LOCAL_REF);
    if r1.Some? then r1 else
    Token(t, p, MACRO_LOCAL_REF)
  }

  // `context_name`, NasmParser.java:985-993
  function ContextName(t: seq<Kind>, p: nat): (r: Option<nat>)
    requires p <= |t|
    ensures r.Some? <==> NextTokenIs(t, p, {IDENTIFIER})
    ensures r.Some? ==> r.value == p + 1
    decreases |t| - p, 0
  {
    if !NextTokenIs(t, p, {IDENTIFIER}) then None else
    Token(t, p, IDENTIFIER)
  }

  // `context_ref`, NasmParser.java:997-1006
  function ContextRef(t: seq<Kind>, p: nat): (r: Option<nat>)
    requires p <= |t|
    ensures r.Some? <==> NextTokenIs(t, p, {MACRO_LOCAL_REF, CONTEXT_LOCAL_REF})
    ensures r.Some? ==> r.value == p + 1
    decreases |t| - p, 0
  {
    if !NextTokenIs(t, p, {CONTEXT_LOCAL_REF, MACRO_LOCAL_REF}) then None else
    var r1 := Token(t, p, MACRO_LOCAL_REF);
    if r1.Some? then r1 else
    Token(t, p, CONTEXT_LOCAL_REF)
  }

  // `cpu_dir`, NasmParser.java:1010-1019
  function CpuDir(t: seq<Kind>, p: nat): (r: Option<nat>)
    requires p <= |t|
    ensures r.Some? ==> p < r.value <= |t|
    ensures r.Some? ==> NextTokenIs(t, p, {CPU_KW})
    decreases |t| - p, 0
  {
    if !NextTokenIs(t, p, {CPU_KW}) then None else
    var s2 := ConsumeTokens(t, p, 1, [CPU_KW, IDENTIFIER]);
    if !s2.ok then None else
    var q1 := s2.pos;
    Some(q1)
  }

  // `data_def`, NasmParser.java:1023-1033
  function DataDef(t: seq<Kind>, p: nat): (r: Option<nat>)
    requires p <= |t|
    ensures r.Some? ==> p < r.value <= |t|
    ensures r.Some? ==> NextTokenIs(t, p, {DATA_SIZE, MACRO_REP, TIMES})
    decreases |t| - p, 3
  {
    match DataDef_0(t, p)
    case None => None
    case Some(q1) =>
    match Token(t, q1, DATA_SIZE)
    case None => None
    case Some(q2) =>
    var q3 := Tried(t, q2, DataList(t, q2));
    Some(q3)
  }

  // `data_def_0`, NasmParser.java:1036-1040
  function DataDef_0(t: seq<Kind>, p: nat): (r: Option<nat>)
    requires p <= |t|
    ensures r.Some?
    ensures r.Some? ==> p <= r.value <= |t|
    ensures r.Some? && p < r.value ==> NextTokenIs(t, p, {MACRO_REP, TIMES})
    decreases |t| - p, 2
  {
    Some(Tried(t, p, TimesExpr(t, p)))
  }

  // `data_expr`, NasmParser.java:1044-1052
  function DataExpr(t: seq<Kind>, p: nat): (r: Option<nat>)
    requires p <= |t|
    ensures r.Some? ==> p < r.value <= |t|
    decreases |t| - p, 20
  {
    match ConstExpr(t, p)
    case None => None
    case Some(q1) =>
    DataExpr_1(t, q1)
  }

  // `data_expr_1`, NasmParser.java:1055-1059
  function DataExpr_1(t: seq<Kind>, p: nat): (r: Option<nat>)
    requires p <= |t|
    ensures r.Some?
    ensures r.Some? ==> p <= r.value <= |t|
    ensures r.Some? && p < r.value ==> NextTokenIs(t, p, {DUP})
    decreases |t| - p, 1
  {
    Some(Tried(t, p, DataExpr_1_0(t, p)))
  }

  // `data_expr_1_0`, NasmParser.java:1062-1071
  function DataExpr_1_0(t: seq<Kind>, p: nat): (r: Option<nat>)
    requires p <= |t|
    ensures r.Some? ==> p < r.value <= |t|
    ensures r.Some? ==> NextTokenIs(t, p, {DUP})
    decreases |t| - p, 0
  {
    var s2 := ConsumeTokens(t, p, 0, [DUP, LPAREN]);
    if !s2.ok then None else
    var q1 := s2.pos;
    match DataList(t, q1)
    case None => None
    case Some(q3) =>
    Token(t, q3, RPAREN)
  }

  // `data_item`, NasmParser.java:1079-1090
  function DataItem(t: seq<Kind>, p: nat): (r: Option<nat>)
    requires p <= |t|
    ensures r.Some? ==> p < r.value <= |t|
    decreases |t| - p, 21
  {
    var r1 := StringFunction(t, p);
    if r1.Some? then r1 else
    var r2 := ConditionalData(t, p);
    if r2.Some? then r2 else
    var r3 := Token(t, p, QUESTION_MARK);
    if r3.Some? then r3 else
    var r4 := DataExpr(t, p);
    if r4.Some? then r4 else
    MacroExpansion(t, p)
  }

  // `data_list`, NasmParser.java:1094-1102
  function DataList(t: seq<Kind>, p: nat): (r: Option<nat>)
    requires p <= |t|
    ensures r.Some? ==> p < r.value <= |t|
    decreases |t| - p, 22
  {
    match DataItem(t, p)
    case None => None
    case Some(q1) =>
    DataList_1(t, q1)
  }

  // `data_list_1`, NasmParser.java:1105-1113
  function DataList_1(t: seq<Kind>, p: nat): (r: Option<nat>)
    requires p <= |t|
    ensures r.Some?
    ensures r.Some? ==> p <= r.value <= |t|
    ensures r.Some? ==> DataList_1_0(t, r.value).None?
    ensures r.Some? && p < r.value ==> NextTokenIs(t, p, {COMMA})
    decreases |t| - p, 1
  {
    match DataList_1_0(t, p)
    case None => Some(p)
    case Some(q1) => if q1 == p then Some(p) else DataList_1(t, q1)
  }

  // `data_list_1_0`, NasmParser.java:1116-1124
  function DataList_1_0(t: seq<Kind>, p: nat): (r: Option<nat>)
    requires p <= |t|
    ensures r.Some? ==> p < r.value <= |t|
    ensures r.Some? ==> NextTokenIs(t, p, {COMMA})
    decreases |t| - p, 0
  {
    match Token(t, p, COMMA)
    case None => None
    case Some(q1) =>
    DataItem(t, q1)
  }

  // `decorator`, NasmParser.java:1128-1139
  function Decorator(t: seq<Kind>, p: nat): (r: Option<nat>)
    requires p <= |t|
    ensures r.Some? ==> p < r.value <= |t|
    ensures r.Some? ==> NextTokenIs(t, p, {LBRACE})
    decreases |t| - p, 0
  {
    if !NextTokenIs(t, p, {LBRACE}) then None else
    match Token(t, p, LBRACE)
    case None => None
    case Some(q1) =>
    match DecoratorList(t, q1)
    case None => None
    case Some(q2) =>
    var q3 := Tried(t, q2, Token(t, q2, RBRACE));
    Some(q3)
  }

  // `decorator_item`, NasmParser.java:1143-1154
  function DecoratorItem(t: seq<Kind>, p: nat): (r: Option<nat>)
    requires p <= |t|
    ensures r.Some? <==> NextTokenIs(t, p, {MASK_REG, ZEROING, BROADCAST, ROUNDING, SAE})
    ensures r.Some? ==> r.value == p + 1
    decreases |t| - p, 0
  {
    var r1 := Token(t, p, MASK_REG);
    if r1.Some? then r1 else
    var r2 := Token(t, p, ZEROING);
    if r2.Some? then r2 else
    var r3 := Token(t, p, BROADCAST);
    if r3.Some? then r3 else
    var r4 := Token(t, p, ROUNDING);
    if r4.Some? then r4 else
    Token(t, p, SAE)
  }

  // `decorator_list`, NasmParser.java:1158-1166
  function DecoratorList(t: seq<Kind>, p: nat): (r: Option<nat>)
    requires p <= |t|
    ensures r.Some? ==> p < r.value <= |t|
    ensures r.Some? ==> NextTokenIs(t, p, {BROADCAST, MASK_REG, ROUNDING, SAE, ZEROING})
    decreases |t| - p, 1
  {
    match DecoratorItem(t, p)
    case None => None
    case Some(q1) =>
    DecoratorList_1(t, q1)
  }

  // `decorator_list_1`, NasmParser.java:1169-1177
  function DecoratorList_1(t: seq<Kind>, p: nat): (r: Option<nat>)
    requires p <= |t|
    ensures r.Some?
    ensures r.Some? ==> p <= r.value <= |t|
    ensures r.Some? ==> DecoratorList_1_0(t, r.value).None?
    ensures r.Some? && p < r.value ==> NextTokenIs(t, p, {COMMA})
    decreases |t| - p, 1
  {
    match DecoratorList_1_0(t, p)
    case None => Some(p)
    case Some(q1) => if q1 == p then Some(p) else DecoratorList_1(t, q1)
  }

  // `decorator_list_1_0`, NasmParser.java:1180-1188
  function DecoratorList_1_0(t: seq<Kind>, p: nat): (r: Option<nat>)
    requires p <= |t|
    ensures r.Some? ==> p < r.value <= |t|
    ensures r.Some? ==> NextTokenIs(t, p, {COMMA})
    decreases |t| - p, 0
  {
    match Token(t, p, COMMA)
    case None => None
    case Some(q1) =>
    DecoratorItem(t, q1)
  }

  // `default_dir`, NasmParser.java:1192-1202
  function DefaultDir(t: seq<Kind>, p: nat): (r: Option<nat>)
    requires p <= |t|
    ensures r.Some? ==> p < r.value <= |t|
    ensures r.Some? ==> NextTokenIs(t, p, {DEFAULT_KW})
    decreases |t| - p, 0
  {
    if !NextTokenIs(t, p, {DEFAULT_KW}) then None else
    match Token(t, p, DEFAULT_KW)
    case None => None
    case Some(q1) =>
    var q2 := Tried(t, q1, DefaultOption(t, q1));
    Some(q2)
  }

  // `default_option`, NasmParser.java:1206-1215
  function DefaultOption(t: seq<Kind>, p: nat): (r: Option<nat>)
    requires p <= |t|
    ensures r.Some? <==> NextTokenIs(t, p, {REL, ABS, INSTRUCTION_PREFIX})
    ensures r.Some? ==> r.value == p + 1
    decreases |t| - p, 0
  {
    var r1 := Token(t, p, REL);
    if r1.Some? then r1 else
    var r2 := Token(t, p, ABS);
    if r2.Some? then r2 else
    Token(t, p, INSTRUCTION_PREFIX)
  }

  // `default_value`, NasmParser.java:1219-1226
  function DefaultValue(t: seq<Kind>, p: nat): (r: Option<nat>)
    requires p <= |t|
    ensures r.Some? ==> p < r.value <= |t|
    decreases |t| - p, 5
  {
    TokenSequence(t, p)
  }

  // `defined_func`, NasmParser.java:1230-1239
  function DefinedFunc(t: seq<Kind>, p: nat): (r: Option<nat>)
    requires p <= |t|
    ensures r.Some? ==> p < r.value <= |t|
    ensures r.Some? ==> NextTokenIs(t, p, {DEFINED})
    decreases |t| - p, 0
  {
    if !NextTokenIs(t, p, {DEFINED}) then None else
    var s2 := ConsumeTokens(t, p, 1, [DEFINED, LPAREN, IDENTIFIER, RPAREN]);
    if !s2.ok then None else
    var q1 := s2.pos;
    Some(q1)
  }

  // `ea_expr`, NasmParser.java:1243-1251
  function EaExpr(t: seq<Kind>, p: nat): (r: Option<nat>)
    requires p <= |t|
    ensures r.Some? ==> p < r.value <= |t|
    decreases |t| - p, 21
  {
    match EaTerm(t, p)
    case None => None
    case Some(q1) =>
    EaExpr_1(t, q1)
  }

  // `ea_expr_1`, NasmParser.java:1254-1262
  function EaExpr_1(t: seq<Kind>, p: nat): (r: Option<nat>)
    requires p <= |t|
    ensures r.Some?
    ensures r.Some? ==> p <= r.value <= |t|
    ensures r.Some? ==> EaExpr_1_0(t, r.value).None?
    ensures r.Some? && p < r.value ==> NextTokenIs(t, p, {MINUS, PLUS})
    decreases |t| - p, 2
  {
    match EaExpr_1_0(t, p)
    case None => Some(p)
    case Some(q1) => if q1 == p then Some(p) else EaExpr_1(t, q1)
  }

  // `ea_expr_1_0`, NasmParser.java:1265-1273
  function EaExpr_1_0(t: seq<Kind>, p: nat): (r: Option<nat>)
    requires p <= |t|
    ensures r.Some? ==> p < r.value <= |t|
    ensures r.Some? ==> NextTokenIs(t, p, {MINUS, PLUS})
    decreases |t| - p, 1
  {
    match TokenIn(t, p, {PLUS, MINUS})
    case None => None
    case Some(q1) =>
    EaTerm(t, q1)
  }

  // `ea_term`, NasmParser.java:1291-1303
  function EaTerm(t: seq<Kind>, p: nat): (r: Option<nat>)
    requires p <= |t|
    ensures r.Some? ==> p < r.value <= |t|
    decreases |t| - p, 20
  {
    var r1 := EaTerm_0(t, p);
    if r1.Some? then r1 else
    var r2 := EaTerm_1(t, p);
    if r2.Some? then r2 else
    var r3 := Register(t, p);
    if r3.Some? then r3 else
    var r4 := ConstExpr(t, p);
    if r4.Some? then r4 else
    var r5 := SymbolRef(t, p);
    if r5.Some? then r5 else
    MacroExpansion(t, p)
  }

  // `ea_term_0`, NasmParser.java:1306-1314
  function EaTerm_0(t: seq<Kind>, p: nat): (r: Option<nat>)
    requires p <= |t|
    ensures r.Some? ==> p < r.value <= |t|
    ensures r.Some? ==> NextTokenIs(t, p, {REL})
    decreases |t| - p, 0
  {
    match Token(t, p, REL)
    case None => None
    case Some(q1) =>
    SymbolRef(t, q1)
  }

  // `ea_term_1`, NasmParser.java:1317-1326
  function EaTerm_1(t: seq<Kind>, p: nat): (r: Option<nat>)
    requires p <= |t|
    ensures r.Some? ==> p < r.value <= |t|
    ensures r.Some? ==> NextTokenIs(t, p, {MASK_REG, REGISTER, SEG_REGISTER})
    decreases |t| - p, 1
  {
    match Register(t, p)
    case None => None
    case Some(q1) =>
    match Token(t, q1, MUL)
    case None => None
    case Some(q2) =>
    Scale(t, q2)
  }

  // `effective_addr`, NasmParser.java:1330-1338
  function EffectiveAddr(t: seq<Kind>, p: nat): (r: Option<nat>)
    requires p <= |t|
    ensures r.Some? ==> p < r.value <= |t|
    decreases |t| - p, 22
  {
    match EffectiveAddr_0(t, p)
    case None => None
    case Some(q1) =>
    EaExpr(t, q1)
  }

  // `effective_addr_0`, NasmParser.java:1341-1345
  function EffectiveAddr_0(t: seq<Kind>, p: nat): (r: Option<nat>)
    requires p <= |t|
    ensures r.Some?
    ensures r.Some? ==> p <= r.value <= |t|
    ensures r.Some? && p < r.value ==> NextTokenIs(t, p, {SEG_REGISTER})
    decreases |t| - p, 2
  {
    Some(Tried(t, p, EffectiveAddr_0_0(t, p)))
  }

  // `effective_addr_0_0`, NasmParser.java:1348-1356
  function EffectiveAddr_0_0(t: seq<Kind>, p: nat): (r: Option<nat>)
    requires p <= |t|
    ensures r.Some? ==> p < r.value <= |t|
    ensures r.Some? ==> NextTokenIs(t, p, {SEG_REGISTER})
    decreases |t| - p, 1
  {
    match SegmentReg(t, p)
    case None => None
    case Some(q1) =>
    Token(t, q1, COLON)
  }

  // `elif_block`, NasmParser.java:1360-1371
  function ElifBlock(t: seq<Kind>, p: nat): (r: Option<nat>)
    requires p <= |t|
    ensures r.Some? ==> p < r.value <= |t|
    ensures r.Some? ==> NextTokenIs(t, p, {MACRO_ELIF, MACRO_ELIFMACRO})
    decreases |t| - p, 2
  {
    if !NextTokenIs(t, p, {MACRO_ELIF, MACRO_ELIFMACRO}) then None else
    match ElifDir(t, p)
    case None => None
    case Some(q1) =>
    var q2 := Tried(t, q1, Token(t, q1, CRLF));
    var q3 := Tried(t, q2, ConditionalSourceLines(t, q2));
    Some(q3)
  }

  // `elif_blocks`, NasmParser.java:1375-1388
  function ElifBlocks(t: seq<Kind>, p: nat): (r: Option<nat>)
    requires p <= |t|
    ensures r.Some? ==> p < r.value <= |t|
    ensures r.Some? ==> ElifBlock(t, r.value).None?
    ensures r.Some? ==> NextTokenIs(t, p, {MACRO_ELIF, MACRO_ELIFMACRO})
    decreases |t| - p, 3
  {
    match ElifBlock(t, p)
    case None => None
    case Some(q1) => if q1 == p then Some(p) else Some(Tried(t, q1, ElifBlocks(t, q1)))
  }

  // `elif_dir`, NasmParser.java:1393-1402
  function ElifDir(t: seq<Kind>, p: nat): (r: Option<nat>)
    requires p <= |t|
    ensures r.Some? ==> p < r.value <= |t|
    ensures r.Some? ==> NextTokenIs(t, p, {MACRO_ELIF, MACRO_ELIFMACRO})
    decreases |t| - p, 1
  {
    if !NextTokenIs(t, p, {MACRO_ELIF, MACRO_ELIFMACRO}) then None else
    var r1 := ElifDir_0(t, p);
    if r1.Some? then r1 else
    ElifDir_1(t, p)
  }

  // `elif_dir_0`, NasmParser.java:1405-1413
  function ElifDir_0(t: seq<Kind>, p: nat): (r: Option<nat>)
    requires p <= |t|
    ensures r.Some? ==> p < r.value <= |t|
    ensures r.Some? ==> NextTokenIs(t, p, {MACRO_ELIF})
    decreases |t| - p, 0
  {
    match Token(t, p, MACRO_ELIF)
    case None => None
    case Some(q1) =>
    ElifDir_0_1(t, q1)
  }

  // `elif_dir_0_1`, NasmParser.java:1416-1420
  function ElifDir_0_1(t: seq<Kind>, p: nat): (r: Option<nat>)
    requires p <= |t|
    ensures r.Some?
    ensures r.Some? ==> p <= r.value <= |t|
    decreases |t| - p, 21
  {
    Some(Tried(t, p, Condition(t, p)))
  }

  // `elif_dir_1`, NasmParser.java:1423-1432
  function ElifDir_1(t: seq<Kind>, p: nat): (r: Option<nat>)
    requires p <= |t|
    ensures r.Some? ==> p < r.value <= |t|
    ensures r.Some? ==> NextTokenIs(t, p, {MACRO_ELIFMACRO})
    decreases |t| - p, 0
  {
    match Token(t, p, MACRO_ELIFMACRO)
    case None => None
    case Some(q1) =>
    match MacroRef(t, q1)
    case None => None
    case Some(q2) =>
    ParamCount(t, q2)
  }

  // `elif_or_else_part`, NasmParser.java:1437-1445
  function ElifOrElsePart(t: seq<Kind>, p: nat): (r: Option<nat>)
    requires p <= |t|
    ensures r.Some? ==> p < r.value <= |t|
    ensures r.Some? ==> NextTokenIs(t, p, {MACRO_ELIF, MACRO_ELIFMACRO, MACRO_ELSE})
    decreases |t| - p, 5
  {
    var r1 := ElifOrElsePart_0(t, p);
    if r1.Some? then r1 else
    ElseBlock(t, p)
  }

  // `elif_or_else_part_0`, NasmParser.java:1448-1456
  function ElifOrElsePart_0(t: seq<Kind>, p: nat): (r: Option<nat>)
    requires p <= |t|
    ensures r.Some? ==> p < r.value <= |t|
    ensures r.Some? ==> NextTokenIs(t, p, {MACRO_ELIF, MACRO_ELIFMACRO})
    decreases |t| - p, 4
  {
    match ElifBlocks(t, p)
    case None => None
    case Some(q1) =>
    ElifOrElsePart_0_1(t, q1)
  }

  // `elif_or_else_part_0_1`, NasmParser.java:1459-1463
  function ElifOrElsePart_0_1(t: seq<Kind>, p: nat): (r: Option<nat>)
    requires p <= |t|
    ensures r.Some?
    ensures r.Some? ==> p <= r.value <= |t|
    ensures r.Some? && p < r.value ==> NextTokenIs(t, p, {MACRO_ELSE})
    decreases |t| - p, 2
  {
    Some(Tried(t, p, ElseBlock(t, p)))
  }

  // `else_block`, NasmParser.java:1467-1478
  function ElseBlock(t: seq<Kind>, p: nat): (r: Option<nat>)
    requires p <= |t|
    ensures r.Some? ==> p < r.value <= |t|
    ensures r.Some? ==> NextTokenIs(t, p, {MACRO_ELSE})
    decreases |t| - p, 1
  {
    if !NextTokenIs(t, p, {MACRO_ELSE}) then None else
    match ElseDir(t, p)
    case None => None
    case Some(q1) =>
    var q2 := Tried(t, q1, Token(t, q1, CRLF));
    var q3 := Tried(t, q2, ConditionalSourceLines(t, q2));
    Some(q3)
  }

  // `else_dir`, NasmParser.java:1482-1490
  function ElseDir(t: seq<Kind>, p: nat): (r: Option<nat>)
    requires p <= |t|
    ensures r.Some? <==> NextTokenIs(t, p, {MACRO_ELSE})
    ensures r.Some? ==> r.value == p + 1
    decreases |t| - p, 0
  {
    if !NextTokenIs(t, p, {MACRO_ELSE}) then None else
    Token(t, p, MACRO_ELSE)
  }

  // `endif_dir`, NasmParser.java:1494-1502
  function EndifDir(t: seq<Kind>, p: nat): (r: Option<nat>)
    requires p <= |t|
    ensures r.Some? <==> NextTokenIs(t, p, {MACRO_ENDIF})
    ensures r.Some? ==> r.value == p + 1
    decreases |t| - p, 0
  {
    if !NextTokenIs(t, p, {MACRO_ENDIF}) then None else
    Token(t, p, MACRO_ENDIF)
  }

  // `env_var_ref`, NasmParser.java:1506-1515
  function EnvVarRef(t: seq<Kind>, p: nat): (r: Option<nat>)
    requires p <= |t|
    ensures r.Some? ==> p < r.value <= |t|
    ensures r.Some? ==> NextTokenIs(t, p, {ENV_VAR_PREFIX})
    decreases |t| - p, 0
  {
    if !NextTokenIs(t, p, {ENV_VAR_PREFIX}) then None else
    match Token(t, p, ENV_VAR_PREFIX)
    case None => None
    case Some(q1) =>
    TokenIn(t, q1, {IDENTIFIER, STRING})
  }

  // `equ_definition`, NasmParser.java:1528-1538
  function EquDefinition(t: seq<Kind>, p: nat): (r: Option<nat>)
    requires p <= |t|
    ensures r.Some? ==> p < r.value <= |t|
    ensures r.Some? ==> NextTokenIs(t, p, {CONTEXT_LOCAL_REF, IDENTIFIER, MACRO_EXPANSION_START, MACRO_EXPLICIT_START, MACRO_LOCAL_REF, MACRO_PARAM, MACRO_PARAM_GREEDY, MACRO_PARAM_REVERSE})
    decreases |t| - p, 5
  {
    match EquDefinition_0(t, p)
    case None => None
    case Some(q1) =>
    match Token(t, q1, EQU)
    case None => None
    case Some(q2) =>
    var q3 := Tried(t, q2, ConstExpr(t, q2));
    Some(q3)
  }

  // `equ_definition_0`, NasmParser.java:1541-1548
  function EquDefinition_0(t: seq<Kind>, p: nat): (r: Option<nat>)
    requires p <= |t|
    ensures r.Some? ==> p < r.value <= |t|
    ensures r.Some? ==> NextTokenIs(t, p, {CONTEXT_LOCAL_REF, IDENTIFIER, MACRO_EXPANSION_START, MACRO_EXPLICIT_START, MACRO_LOCAL_REF, MACRO_PARAM, MACRO_PARAM_GREEDY, MACRO_PARAM_REVERSE})
    decreases |t| - p, 4
  {
    var r1 := Token(t, p, IDENTIFIER);
    if r1.Some? then r1 else
    var r2 := ContextRef(t, p);
    if r2.Some? then r2 else
    MacroParamConcat(t, p)
  }

  // `equ_line`, NasmParser.java:1552-1560
  function EquLine(t: seq<Kind>, p: nat): (r: Option<nat>)
    requires p <= |t|
    ensures r.Some? ==> p < r.value <= |t|
    ensures r.Some? ==> NextTokenIs(t, p, {CONTEXT_LOCAL_REF, IDENTIFIER, MACRO_EXPANSION_START, MACRO_EXPLICIT_START, MACRO_LOCAL_REF, MACRO_PARAM, MACRO_PARAM_GREEDY, MACRO_PARAM_REVERSE})
    decreases |t| - p, 6
  {
    match EquDefinition(t, p)
    case None => None
    case Some(q1) =>
    EquLine_1(t, q1)
  }

  // `equ_line_1`, NasmParser.java:1563-1567
  function EquLine_1(t: seq<Kind>, p: nat): (r: Option<nat>)
    requires p <= |t|
    ensures r.Some?
    ensures r.Some? ==> p <= r.value <= |t|
    ensures r.Some? && p < r.value ==> NextTokenIs(t, p, {CRLF})
    decreases |t| - p, 0
  {
    Some(Tried(t, p, Token(t, p, CRLF)))
  }

  // `exit_dir`, NasmParser.java:1571-1580
  function ExitDir(t: seq<Kind>, p: nat): (r: Option<nat>)
    requires p <= |t|
    ensures r.Some? <==> NextTokenIs(t, p, {MACRO_EXITMACRO, MACRO_EXITREP})
    ensures r.Some? ==> r.value == p + 1
    decreases |t| - p, 0
  {
    if !NextTokenIs(t, p, {MACRO_EXITMACRO, MACRO_EXITREP}) then None else
    var r1 := Token(t, p, MACRO_EXITMACRO);
    if r1.Some? then r1 else
    Token(t, p, MACRO_EXITREP)
  }

  // `expanded_operand`, NasmParser.java:1590-1603
  function ExpandedOperand(t: seq<Kind>, p: nat): (r: Option<nat>)
    requires p <= |t|
    ensures r.Some? ==> p < r.value <= |t|
    decreases |t| - p, 21
  {
    var r1 := ExpandedOperand_0(t, p);
    if r1.Some? then r1 else
    var r2 := ExpandedOperand_1(t, p);
    if r2.Some? then r2 else
    var r3 := MemoryExpr(t, p);
    if r3.Some? then r3 else
    var r4 := ConditionalOperand(t, p);
    if r4.Some? then r4 else
    var r5 := FarJumpOperand(t, p);
    if r5.Some? then r5 else
    var r6 := Register(t, p);
    if r6.Some? then r6 else
    ConstExpr(t, p)
  }

  // `expanded_operand_0`, NasmParser.java:1606-1614
  function ExpandedOperand_0(t: seq<Kind>, p: nat): (r: Option<nat>)
    requires p <= |t|
    ensures r.Some? ==> p < r.value <= |t|
    ensures r.Some? ==> NextTokenIs(t, p, {SIZE_SPEC})
    decreases |t| - p, 0
  {
    match Token(t, p, SIZE_SPEC)
    case None => None
    case Some(q1) =>
    ConstExpr(t, q1)
  }

  // `expanded_operand_1`, NasmParser.java:1617-1625
  function ExpandedOperand_1(t: seq<Kind>, p: nat): (r: Option<nat>)
    requires p <= |t|
    ensures r.Some? ==> p < r.value <= |t|
    ensures r.Some? ==> NextTokenIs(t, p, {SIZE_SPEC})
    decreases |t| - p, 0
  {
    match Token(t, p, SIZE_SPEC)
    case None => None
    case Some(q1) =>
    Register(t, q1)
  }

  // `expression`, NasmParser.java:1629-1637
  function Expression(t: seq<Kind>, p: nat): (r: Option<nat>)
    requires p <= |t|
    ensures r.Some? ==> p < r.value <= |t|
    decreases |t| - p, 18
  {
    match ComparisonExpr(t, p)
    case None => None
    case Some(q1) =>
    Expression_1(t, q1)
  }

  // `expression_1`, NasmParser.java:1640-1644
  function Expression_1(t: seq<Kind>, p: nat): (r: Option<nat>)
    requires p <= |t|
    ensures r.Some?
    ensures r.Some? ==> p <= r.value <= |t|
    ensures r.Some? && p < r.value ==> NextTokenIs(t, p, {WRT})
    decreases |t| - p, 1
  {
    Some(Tried(t, p, WrtSuffix(t, p)))
  }

  // `extern_dir`, NasmParser.java:1648-1658
  function ExternDir(t: seq<Kind>, p: nat): (r: Option<nat>)
    requires p <= |t|
    ensures r.Some? ==> p < r.value <= |t|
    ensures r.Some? ==> NextTokenIs(t, p, {EXTERN_KW})
    decreases |t| - p, 0
  {
    if !NextTokenIs(t, p, {EXTERN_KW}) then None else
    match Token(t, p, EXTERN_KW)
    case None => None
    case Some(q1) =>
    var q2 := Tried(t, q1, SymbolList(t, q1));
    Some(q2)
  }

  // `far_jump_operand`, NasmParser.java:1662-1672
  function FarJumpOperand(t: seq<Kind>, p: nat): (r: Option<nat>)
    requires p <= |t|
    ensures r.Some? ==> p < r.value <= |t|
    decreases |t| - p, 20
  {
    match ConstExpr(t, p)
    case None => None
    case Some(q1) =>
    match Token(t, q1, COLON)
    case None => None
    case Some(q2) =>
    var q3 := Tried(t, q2, ConstExpr(t, q2));
    Some(q3)
  }

  // `float_dir`, NasmParser.java:1676-1685
  function FloatDir(t: seq<Kind>, p: nat): (r: Option<nat>)
    requires p <= |t|
    ensures r.Some? ==> p < r.value <= |t|
    ensures r.Some? ==> NextTokenIs(t, p, {FLOAT_KW})
    decreases |t| - p, 0
  {
    if !NextTokenIs(t, p, {FLOAT_KW}) then None else
    var s2 := ConsumeTokens(t, p, 1, [FLOAT_KW, IDENTIFIER]);
    if !s2.ok then None else
    var q1 := s2.pos;
    Some(q1)
  }

  // `float_format`, NasmParser.java:1689-1700
  function FloatFormat(t: seq<Kind>, p: nat): (r: Option<nat>)
    requires p <= |t|
    ensures r.Some? ==> p < r.value <= |t|
    ensures r.Some? ==> NextTokenIs(t, p, {FLOAT_FUNC})
    decreases |t| - p, 0
  {
    if !NextTokenIs(t, p, {FLOAT_FUNC}) then None else
    var s2 := ConsumeTokens(t, p, 2, [FLOAT_FUNC, LPAREN]);
    if !s2.ok then None else
    var q1 := s2.pos;
    var q3 := Tried(t, q1, FloatValue(t, q1));
    var q4 := Tried(t, q3, Token(t, q3, RPAREN));
    Some(q4)
  }

  // `float_value`, NasmParser.java:1704-1713
  function FloatValue(t: seq<Kind>, p: nat): (r: Option<nat>)
    requires p <= |t|
    ensures r.Some? <==> NextTokenIs(t, p, {FLOAT, NUMBER, SPECIAL_FLOAT})
    ensures r.Some? ==> r.value == p + 1
    decreases |t| - p, 0
  {
    var r1 := Token(t, p, FLOAT);
    if r1.Some? then r1 else
    var r2 := Token(t, p, NUMBER);
    if r2.Some? then r2 else
    Token(t, p, SPECIAL_FLOAT)
  }

  // `function_macro_call`, NasmParser.java:1717-1728
  function FunctionMacroCall(t: seq<Kind>, p: nat): (r: Option<nat>)
    requires p <= |t|
    ensures r.Some? ==> p < r.value <= |t|
    ensures r.Some? ==> NextTokenIs(t, p, {IDENTIFIER})
    decreases |t| - p, 0
  {
    if !NextTokenIs(t, p, {IDENTIFIER}) then None else
    var s2 := ConsumeTokens(t, p, 2, [IDENTIFIER, LPAREN]);
    if !s2.ok then None else
    var q1 := s2.pos;
    var q3 := Tried(t, q1, FunctionMacroCall_2(t, q1));
    var q4 := Tried(t, q3, Token(t, q3, RPAREN));
    Some(q4)
  }

  // `function_macro_call_2`, NasmParser.java:1731-1735
  function FunctionMacroCall_2(t: seq<Kind>, p: nat): (r: Option<nat>)
    requires p <= |t|
    ensures r.Some?
    ensures r.Some? ==> p <= r.value <= |t|
    decreases |t| - p, 7
  {
    Some(Tried(t, p, MacroArgList(t, p)))
  }

  // `global_dir`, NasmParser.java:1740-1749
  function GlobalDir(t: seq<Kind>, p: nat): (r: Option<nat>)
    requires p <= |t|
    ensures r.Some? ==> p < r.value <= |t|
    ensures r.Some? ==> NextTokenIs(t, p, {GLOBAL_KW, MACRO_PUSH})
    decreases |t| - p, 1
  {
    if !NextTokenIs(t, p, {GLOBAL_KW, MACRO_PUSH}) then None else
    var r1 := GlobalDir_0(t, p);
    if r1.Some? then r1 else
    GlobalDir_1(t, p)
  }

  // `global_dir_0`, NasmParser.java:1752-1760
  function GlobalDir_0(t: seq<Kind>, p: nat): (r: Option<nat>)
    requires p <= |t|
    ensures r.Some? ==> p < r.value <= |t|
    ensures r.Some? ==> NextTokenIs(t, p, {GLOBAL_KW})
    decreases |t| - p, 0
  {
    match Token(t, p, GLOBAL_KW)
    case None => None
    case Some(q1) =>
    SymbolList(t, q1)
  }

  // `global_dir_1`, NasmParser.java:1763-1771
  function GlobalDir_1(t: seq<Kind>, p: nat): (r: Option<nat>)
    requires p <= |t|
    ensures r.Some? ==> p < r.value <= |t|
    ensures r.Some? ==> NextTokenIs(t, p, {MACRO_PUSH})
    decreases |t| - p, 0
  {
    match Token(t, p, MACRO_PUSH)
    case None => None
    case Some(q1) =>
    SymbolList(t, q1)
  }

  // `global_label`, NasmParser.java:1777-1786
  function GlobalLabel(t: seq<Kind>, p: nat): (r: Option<nat>)
    requires p <= |t|
    ensures r.Some? ==> p < r.value <= |t|
    ensures r.Some? ==> NextTokenIs(t, p, {CONTEXT_LOCAL_REF, IDENTIFIER, MACRO_EXPANSION_START, MACRO_EXPLICIT_START, MACRO_LOCAL_REF, MACRO_PARAM, MACRO_PARAM_GREEDY, MACRO_PARAM_REVERSE})
    decreases |t| - p, 4
  {
    var r1 := MacroParamConcat(t, p);
    if r1.Some? then r1 else
    var r2 := ContextRef(t, p);
    if r2.Some? then r2 else
    Token(t, p, IDENTIFIER)
  }

  // `if_dir`, NasmParser.java:1793-1803
  function IfDir(t: seq<Kind>, p: nat): (r: Option<nat>)
    requires p <= |t|
    ensures r.Some? ==> p < r.value <= |t|
    ensures r.Some? ==> NextTokenIs(t, p, {MACRO_IF, MACRO_IFDEF, MACRO_IFMACRO, MACRO_IFNDEF})
    decreases |t| - p, 1
  {
    var r1 := IfDir_0(t, p);
    if r1.Some? then r1 else
    var r2 := IfDir_1(t, p);
    if r2.Some? then r2 else
    var r3 := IfDir_2(t, p);
    if r3.Some? then r3 else
    IfDir_3(t, p)
  }

  // `if_dir_0`, NasmParser.java:1806-1814
  function IfDir_0(t: seq<Kind>, p: nat): (r: Option<nat>)
    requires p <= |t|
    ensures r.Some? ==> p < r.value <= |t|
    ensures r.Some? ==> NextTokenIs(t, p, {MACRO_IF})
    decreases |t| - p, 0
  {
    match Token(t, p, MACRO_IF)
    case None => None
    case Some(q1) =>
    IfDir_0_1(t, q1)
  }

  // `if_dir_0_1`, NasmParser.java:1817-1821
  function IfDir_0_1(t: seq<Kind>, p: nat): (r: Option<nat>)
    requires p <= |t|
    ensures r.Some?
    ensures r.Some? ==> p <= r.value <= |t|
    decreases |t| - p, 21
  {
    Some(Tried(t, p, Condition(t, p)))
  }

  // `if_dir_1`, NasmParser.java:1824-1832
  function IfDir_1(t: seq<Kind>, p: nat): (r: Option<nat>)
    requires p <= |t|
    ensures r.Some? ==> p < r.value <= |t|
    ensures r.Some? ==> NextTokenIs(t, p, {MACRO_IFDEF})
    decreases |t| - p, 0
  {
    match Token(t, p, MACRO_IFDEF)
    case None => None
    case Some(q1) =>
    MacroRef(t, q1)
  }

  // `if_dir_2`, NasmParser.java:1835-1843
  function IfDir_2(t: seq<Kind>, p: nat): (r: Option<nat>)
    requires p <= |t|
    ensures r.Some? ==> p < r.value <= |t|
    ensures r.Some? ==> NextTokenIs(t, p, {MACRO_IFNDEF})
    decreases |t| - p, 0
  {
    match Token(t, p, MACRO_IFNDEF)
    case None => None
    case Some(q1) =>
    MacroRef(t, q1)
  }

  // `if_dir_3`, NasmParser.java:1846-1855
  function IfDir_3(t: seq<Kind>, p: nat): (r: Option<nat>)
    requires p <= |t|
    ensures r.Some? ==> p < r.value <= |t|
    ensures r.Some? ==> NextTokenIs(t, p, {MACRO_IFMACRO})
    decreases |t| - p, 0
  {
    match Token(t, p, MACRO_IFMACRO)
    case None => None
    case Some(q1) =>
    match MacroRef(t, q1)
    case None => None
    case Some(q2) =>
    ParamCount(t, q2)
  }

  // `include_dir`, NasmParser.java:1861-1870
  function IncludeDir(t: seq<Kind>, p: nat): (r: Option<nat>)
    requires p <= |t|
    ensures r.Some? ==> p < r.value <= |t|
    ensures r.Some? ==> NextTokenIs(t, p, {INCBIN_KW, MACRO_INCLUDE, MACRO_USE})
    decreases |t| - p, 1
  {
    var r1 := IncludeDir_0(t, p);
    if r1.Some? then r1 else
    var r2 := IncludeDir_1(t, p);
    if r2.Some? then r2 else
    IncludeDir_2(t, p)
  }

  // `include_dir_0`, NasmParser.java:1873-1881
  function IncludeDir_0(t: seq<Kind>, p: nat): (r: Option<nat>)
    requires p <= |t|
    ensures r.Some? ==> p < r.value <= |t|
    ensures r.Some? ==> NextTokenIs(t, p, {INCBIN_KW})
    decreases |t| - p, 0
  {
    var s2 := ConsumeTokens(t, p, 0, [INCBIN_KW, STRING]);
    if !s2.ok then None else
    var q1 := s2.pos;
    IncludeDir_0_2(t, q1)
  }

  // `include_dir_0_2`, NasmParser.java:1884-1888
  function IncludeDir_0_2(t: seq<Kind>, p: nat): (r: Option<nat>)
    requires p <= |t|
    ensures r.Some?
    ensures r.Some? ==> p <= r.value <= |t|
    ensures r.Some? && p < r.value ==> NextTokenIs(t, p, {COMMA})
    decreases |t| - p, 1
  {
    Some(Tried(t, p, IncludeDir_0_2_0(t, p)))
  }

  // `include_dir_0_2_0`, NasmParser.java:1891-1900
  function IncludeDir_0_2_0(t: seq<Kind>, p: nat): (r: Option<nat>)
    requires p <= |t|
    ensures r.Some? ==> p < r.value <= |t|
    ensures r.Some? ==> NextTokenIs(t, p, {COMMA})
    decreases |t| - p, 0
  {
    match Token(t, p, COMMA)
    case None => None
    case Some(q1) =>
    match ConstExpr(t, q1)
    case None => None
    case Some(q2) =>
    IncludeDir_0_2_0_2(t, q2)
  }

  // `include_dir_0_2_0_2`, NasmParser.java:1903-1907
  function IncludeDir_0_2_0_2(t: seq<Kind>, p: nat): (r: Option<nat>)
    requires p <= |t|
    ensures r.Some?
    ensures r.Some? ==> p <= r.value <= |t|
    ensures r.Some? && p < r.value ==> NextTokenIs(t, p, {COMMA})
    decreases |t| - p, 1
  {
    Some(Tried(t, p, IncludeDir_0_2_0_2_0(t, p)))
  }

  // `include_dir_0_2_0_2_0`, NasmParser.java:1910-1918
  function IncludeDir_0_2_0_2_0(t: seq<Kind>, p: nat): (r: Option<nat>)
    requires p <= |t|
    ensures r.Some? ==> p < r.value <= |t|
    ensures r.Some? ==> NextTokenIs(t, p, {COMMA})
    decreases |t| - p, 0
  {
    match Token(t, p, COMMA)
    case None => None
    case Some(q1) =>
    ConstExpr(t, q1)
  }

  // `include_dir_1`, NasmParser.java:1921-1929
  function IncludeDir_1(t: seq<Kind>, p: nat): (r: Option<nat>)
    requires p <= |t|
    ensures r.Some? ==> p < r.value <= |t|
    ensures r.Some? ==> NextTokenIs(t, p, {MACRO_INCLUDE})
    decreases |t| - p, 0
  {
    match Token(t, p, MACRO_INCLUDE)
    case None => None
    case Some(q1) =>
    StringOrEnv(t, q1)
  }

  // `include_dir_2`, NasmParser.java:1932-1940
  function IncludeDir_2(t: seq<Kind>, p: nat): (r: Option<nat>)
    requires p <= |t|
    ensures r.Some? ==> p < r.value <= |t|
    ensures r.Some? ==> NextTokenIs(t, p, {MACRO_USE})
    decreases |t| - p, 0
  {
    match Token(t, p, MACRO_USE)
    case None => None
    case Some(q1) =>
    PackageName(t, q1)
  }

  // `instruction`, NasmParser.java:1944-1953
  function Instruction(t: seq<Kind>, p: nat): (r: Option<nat>)
    requires p <= |t|
    ensures r.Some? ==> p < r.value <= |t|
    ensures r.Some? ==> NextTokenIs(t, p, {CONTEXT_LOCAL_REF, IDENTIFIER, INSTRUCTION_PREFIX, MACRO_EXPANSION_START, MACRO_EXPLICIT_START, MACRO_LOCAL_REF, MACRO_PARAM, MACRO_PARAM_GREEDY, MACRO_PARAM_REVERSE, MACRO_REP, SEG_REGISTER, TIMES})
    decreases |t| - p, 5
  {
    match Instruction_0(t, p)
    case None => None
    case Some(q1) =>
    match Mnemonic(t, q1)
    case None => None
    case Some(q2) =>
    Instruction_2(t, q2)
  }

  // `instruction_0`, NasmParser.java:1956-1960
  function Instruction_0(t: seq<Kind>, p: nat): (r: Option<nat>)
    requires p <= |t|
    ensures r.Some?
    ensures r.Some? ==> p <= r.value <= |t|
    ensures r.Some? && p < r.value ==> NextTokenIs(t, p, {INSTRUCTION_PREFIX, MACRO_REP, SEG_REGISTER, TIMES})
    decreases |t| - p, 4
  {
    Some(Tried(t, p, InstructionPrefixes(t, p)))
  }

  // `instruction_2`, NasmParser.java:1963-1967
  function Instruction_2(t: seq<Kind>, p: nat): (r: Option<nat>)
    requires p <= |t|
    ensures r.Some?
    ensures r.Some? ==> p <= r.value <= |t|
    decreases |t| - p, 25
  {
    Some(Tried(t, p, OperandList(t, p)))
  }

  // `instruction_prefixes`, NasmParser.java:1971-1983
  function InstructionPrefixes(t: seq<Kind>, p: nat): (r: Option<nat>)
    requires p <= |t|
    ensures r.Some?
    ensures r.Some? ==> p <= r.value <= |t|
    ensures r.Some? && p < r.value ==> NextTokenIs(t, p, {INSTRUCTION_PREFIX, MACRO_REP, SEG_REGISTER, TIMES})
    decreases |t| - p, 3
  {
    match InstructionPrefixes_0(t, p)
    case None => None
    case Some(q1) =>
    match InstructionPrefixes_1(t, q1)
    case None => None
    case Some(q2) =>
    match InstructionPrefixes_2(t, q2)
    case None => None
    case Some(q3) =>
    match InstructionPrefixes_3(t, q3)
    case None => None
    case Some(q4) =>
    match InstructionPrefixes_4(t, q4)
    case None => None
    case Some(q5) =>
    InstructionPrefixes_5(t, q5)
  }

  // `instruction_prefixes_0`, NasmParser.java:1986-1990
  function InstructionPrefixes_0(t: seq<Kind>, p: nat): (r: Option<nat>)
    requires p <= |t|
    ensures r.Some?
    ensures r.Some? ==> p <= r.value <= |t|
    ensures r.Some? && p < r.value ==> NextTokenIs(t, p, {MACRO_REP, TIMES})
    decreases |t| - p, 2
  {
    Some(Tried(t, p, TimesExpr(t, p)))
  }

  // `instruction_prefixes_1`, NasmParser.java:1993-1997
  function InstructionPrefixes_1(t: seq<Kind>, p: nat): (r: Option<nat>)
    requires p <= |t|
    ensures r.Some?
    ensures r.Some? ==> p <= r.value <= |t|
    ensures r.Some? && p < r.value ==> NextTokenIs(t, p, {INSTRUCTION_PREFIX})
    decreases |t| - p, 0
  {
    Some(Tried(t, p, Token(t, p, INSTRUCTION_PREFIX)))
  }

  // `instruction_prefixes_2`, NasmParser.java:2000-2004
  function InstructionPrefixes_2(t: seq<Kind>, p: nat): (r: Option<nat>)
    requires p <= |t|
    ensures r.Some?
    ensures r.Some? ==> p <= r.value <= |t|
    ensures r.Some? && p < r.value ==> NextTokenIs(t, p, {INSTRUCTION_PREFIX})
    decreases |t| - p, 1
  {
    Some(Tried(t, p, LockPrefix(t, p)))
  }

  // `instruction_prefixes_3`, NasmParser.java:2007-2011
  function InstructionPrefixes_3(t: seq<Kind>, p: nat): (r: Option<nat>)
    requires p <= |t|
    ensures r.Some?
    ensures r.Some? ==> p <= r.value <= |t|
    ensures r.Some? && p < r.value ==> NextTokenIs(t, p, {SEG_REGISTER})
    decreases |t| - p, 2
  {
    Some(Tried(t, p, SegmentOverride(t, p)))
  }

  // `instruction_prefixes_4`, NasmParser.java:2014-2018
  function InstructionPrefixes_4(t: seq<Kind>, p: nat): (r: Option<nat>)
    requires p <= |t|
    ensures r.Some?
    ensures r.Some? ==> p <= r.value <= |t|
    ensures r.Some? && p < r.value ==> NextTokenIs(t, p, {INSTRUCTION_PREFIX})
    decreases |t| - p, 1
  {
    Some(Tried(t, p, SizeOverride(t, p)))
  }

  // `instruction_prefixes_5`, NasmParser.java:2021-2025
  function InstructionPrefixes_5(t: seq<Kind>, p: nat): (r: Option<nat>)
    requires p <= |t|
    ensures r.Some?
    ensures r.Some? ==> p <= r.value <= |t|
    ensures r.Some? && p < r.value ==> NextTokenIs(t, p, {INSTRUCTION_PREFIX})
    decreases |t| - p, 1
  {
    Some(Tried(t, p, VexPrefix(t, p)))
  }

  // `integer_function`, NasmParser.java:2029-2040
  function IntegerFunction(t: seq<Kind>, p: nat): (r: Option<nat>)
    requires p <= |t|
    ensures r.Some? ==> p < r.value <= |t|
    ensures r.Some? ==> NextTokenIs(t, p, {BUILTIN_FUNC})
    decreases |t| - p, 0
  {
    if !NextTokenIs(t, p, {BUILTIN_FUNC}) then None else
    var s2 := ConsumeTokens(t, p, 2, [BUILTIN_FUNC, LPAREN]);
    if !s2.ok then None else
    var q1 := s2.pos;
    var q3 := Tried(t, q1, ConstExpr(t, q1));
    var q4 := Tried(t, q3, Token(t, q3, RPAREN));
    Some(q4)
  }

  // `invocation`, NasmParser.java:2047-2057
  function Invocation(t: seq<Kind>, p: nat): (r: Option<nat>)
    requires p <= |t|
    ensures r.Some? ==> p < r.value <= |t|
    decreases |t| - p, 3
  {
    var r1 := MacroCall(t, p);
    if r1.Some? then r1 else
    var r2 := SmacroExpansion(t, p);
    if r2.Some? then r2 else
    var r3 := BuiltinFunction(t, p);
    if r3.Some? then r3 else
    MacroParamInvocation(t, p)
  }

  // `istruc_block`, NasmParser.java:2061-2073
  function IstrucBlock(t: seq<Kind>, p: nat): (r: Option<nat>)
    requires p <= |t|
    ensures r.Some? ==> p < r.value <= |t|
    ensures r.Some? ==> NextTokenIs(t, p, {ISTRUC_KW})
    decreases |t| - p, 0
  {
    if !NextTokenIs(t, p, {ISTRUC_KW}) then None else
    var s2 := ConsumeTokens(t, p, 1, [ISTRUC_KW, IDENTIFIER, CRLF]);
    if !s2.ok then None else
    var q1 := s2.pos;
    var q3 := Tried(t, q1, SourceLines(t, q1));
    var q4 := Tried(t, q3, IstrucBlock_4(t, q3));
    var q5 := Tried(t, q4, Token(t, q4, IEND_KW));
    Some(q5)
  }

  // `istruc_block_4`, NasmParser.java:2076-2084
  function IstrucBlock_4(t: seq<Kind>, p: nat): (r: Option<nat>)
    requires p <= |t|
    ensures r.Some?
    ensures r.Some? ==> p <= r.value <= |t|
    ensures r.Some? ==> Token(t, r.value, CRLF).None?
    ensures r.Some? && p < r.value ==> NextTokenIs(t, p, {CRLF})
    decreases |t| - p, 0
  {
    match Token(t, p, CRLF)
    case None => Some(p)
    case Some(q1) => if q1 == p then Some(p) else IstrucBlock_4(t, q1)
  }

  // `keyword_as_name`, NasmParser.java:2088-2102
  function KeywordAsName(t: seq<Kind>, p: nat): (r: Option<nat>)
    requires p <= |t|
    ensures r.Some? <==> NextTokenIs(t, p, {ABS, REL, SEG, STRICT, DUP, WRT, AT_KW, DEFAULT_KW})
    ensures r.Some? ==> r.value == p + 1
    decreases |t| - p, 0
  {
    var r1 := Token(t, p, ABS);
    if r1.Some? then r1 else
    var r2 := Token(t, p, REL);
    if r2.Some? then r2 else
    var r3 := Token(t, p, SEG);
    if r3.Some? then r3 else
    var r4 := Token(t, p, STRICT);
    if r4.Some? then r4 else
    var r5 := Token(t, p, DUP);
    if r5.Some? then r5 else
    var r6 := Token(t, p, WRT);
    if r6.Some? then r6 else
    var r7 := Token(t, p, AT_KW);
    if r7.Some? then r7 else
    Token(t, p, DEFAULT_KW)
  }

  // `label_def`, NasmParser.java:2107-2115
  function LabelDef(t: seq<Kind>, p: nat): (r: Option<nat>)
    requires p <= |t|
    ensures r.Some? ==> p < r.value <= |t|
    ensures r.Some? ==> NextTokenIs(t, p, {CONTEXT_LOCAL_REF, DOT_DOT, IDENTIFIER, MACRO_EXPANSION_START, MACRO_EXPLICIT_START, MACRO_LOCAL_REF, MACRO_PARAM, MACRO_PARAM_GREEDY, MACRO_PARAM_REVERSE})
    decreases |t| - p, 6
  {
    var r1 := LabelDef_0(t, p);
    if r1.Some? then r1 else
    LabelDef_1(t, p)
  }

  // `label_def_0`, NasmParser.java:2118-2126
  function LabelDef_0(t: seq<Kind>, p: nat): (r: Option<nat>)
    requires p <= |t|
    ensures r.Some? ==> p < r.value <= |t|
    ensures r.Some? ==> NextTokenIs(t, p, {CONTEXT_LOCAL_REF, IDENTIFIER, MACRO_EXPANSION_START, MACRO_EXPLICIT_START, MACRO_LOCAL_REF, MACRO_PARAM, MACRO_PARAM_GREEDY, MACRO_PARAM_REVERSE})
    decreases |t| - p, 5
  {
    match GlobalLabel(t, p)
    case None => None
    case Some(q1) =>
    LabelDef_0_1(t, q1)
  }

  // `label_def_0_1`, NasmParser.java:2129-2133
  function LabelDef_0_1(t: seq<Kind>, p: nat): (r: Option<nat>)
    requires p <= |t|
    ensures r.Some?
    ensures r.Some? ==> p <= r.value <= |t|
    ensures r.Some? && p < r.value ==> NextTokenIs(t, p, {COLON})
    decreases |t| - p, 0
  {
    Some(Tried(t, p, Token(t, p, COLON)))
  }

  // `label_def_1`, NasmParser.java:2136-2144
  function LabelDef_1(t: seq<Kind>, p: nat): (r: Option<nat>)
    requires p <= |t|
    ensures r.Some? ==> p < r.value <= |t|
    ensures r.Some? ==> NextTokenIs(t, p, {DOT_DOT, IDENTIFIER, MACRO_LOCAL_REF})
    decreases |t| - p, 3
  {
    match LocalLabel(t, p)
    case None => None
    case Some(q1) =>
    LabelDef_1_1(t, q1)
  }

  // `label_def_1_1`, NasmParser.java:2147-2151
  function LabelDef_1_1(t: seq<Kind>, p: nat): (r: Option<nat>)
    requires p <= |t|
    ensures r.Some?
    ensures r.Some? ==> p <= r.value <= |t|
    ensures r.Some? && p < r.value ==> NextTokenIs(t, p, {COLON})
    decreases |t| - p, 0
  {
    Some(Tried(t, p, Token(t, p, COLON)))
  }

  // `label_with_colon`, NasmParser.java:2156-2164
  function LabelWithColon(t: seq<Kind>, p: nat): (r: Option<nat>)
    requires p <= |t|
    ensures r.Some? ==> p < r.value <= |t|
    ensures r.Some? ==> NextTokenIs(t, p, {CONTEXT_LOCAL_REF, DOT_DOT, IDENTIFIER, MACRO_EXPANSION_START, MACRO_EXPLICIT_START, MACRO_LOCAL_REF, MACRO_PARAM, MACRO_PARAM_GREEDY, MACRO_PARAM_REVERSE})
    decreases |t| - p, 6
  {
    var r1 := LabelWithColon_0(t, p);
    if r1.Some? then r1 else
    LabelWithColon_1(t, p)
  }

  // `label_with_colon_0`, NasmParser.java:2167-2175
  function LabelWithColon_0(t: seq<Kind>, p: nat): (r: Option<nat>)
    requires p <= |t|
    ensures r.Some? ==> p < r.value <= |t|
    ensures r.Some? ==> NextTokenIs(t, p, {CONTEXT_LOCAL_REF, IDENTIFIER, MACRO_EXPANSION_START, MACRO_EXPLICIT_START, MACRO_LOCAL_REF, MACRO_PARAM, MACRO_PARAM_GREEDY, MACRO_PARAM_REVERSE})
    decreases |t| - p, 5
  {
    match GlobalLabel(t, p)
    case None => None
    case Some(q1) =>
    Token(t, q1, COLON)
  }

  // `label_with_colon_1`, NasmParser.java:2178-2186
  function LabelWithColon_1(t: seq<Kind>, p: nat): (r: Option<nat>)
    requires p <= |t|
    ensures r.Some? ==> p < r.value <= |t|
    ensures r.Some? ==> NextTokenIs(t, p, {DOT_DOT, IDENTIFIER, MACRO_LOCAL_REF})
    decreases |t| - p, 3
  {
    match LocalLabel(t, p)
    case None => None
    case Some(q1) =>
    Token(t, q1, COLON)
  }

  // `label_with_colon_line`, NasmParser.java:2190-2199
  function LabelWithColonLine(t: seq<Kind>, p: nat): (r: Option<nat>)
    requires p <= |t|
    ensures r.Some? ==> p < r.value <= |t|
    ensures r.Some? ==> NextTokenIs(t, p, {CONTEXT_LOCAL_REF, DOT_DOT, IDENTIFIER, MACRO_EXPANSION_START, MACRO_EXPLICIT_START, MACRO_LOCAL_REF, MACRO_PARAM, MACRO_PARAM_GREEDY, MACRO_PARAM_REVERSE})
    decreases |t| - p, 7
  {
    match LabelWithColon(t, p)
    case None => None
    case Some(q1) =>
    match LabelWithColonLine_1(t, q1)
    case None => None
    case Some(q2) =>
    LabelWithColonLine_2(t, q2)
  }

  // `label_with_colon_line_1`, NasmParser.java:2202-2206
  function LabelWithColonLine_1(t: seq<Kind>, p: nat): (r: Option<nat>)
    requires p <= |t|
    ensures r.Some?
    ensures r.Some? ==> p <= r.value <= |t|
    decreases |t| - p, 7
  {
    Some(Tried(t, p, NonAssignmentStatement(t, p)))
  }

  // `label_with_colon_line_2`, NasmParser.java:2209-2213
  function LabelWithColonLine_2(t: seq<Kind>, p: nat): (r: Option<nat>)
    requires p <= |t|
    ensures r.Some?
    ensures r.Some? ==> p <= r.value <= |t|
    ensures r.Some? && p < r.value ==> NextTokenIs(t, p, {CRLF})
    decreases |t| - p, 0
  {
    Some(Tried(t, p, Token(t, p, CRLF)))
  }

  // `label_with_data_line`, NasmParser.java:2217-2226
  function LabelWithDataLine(t: seq<Kind>, p: nat): (r: Option<nat>)
    requires p <= |t|
    ensures r.Some? ==> p < r.value <= |t|
    ensures r.Some? ==> NextTokenIs(t, p, {CONTEXT_LOCAL_REF, DOT_DOT, IDENTIFIER, MACRO_EXPANSION_START, MACRO_EXPLICIT_START, MACRO_LOCAL_REF, MACRO_PARAM, MACRO_PARAM_GREEDY, MACRO_PARAM_REVERSE})
    decreases |t| - p, 6
  {
    match LabelWithoutColon(t, p)
    case None => None
    case Some(q1) =>
    match LabelWithDataLine_1(t, q1)
    case None => None
    case Some(q2) =>
    LabelWithDataLine_2(t, q2)
  }

  // `label_with_data_line_1`, NasmParser.java:2229-2235
  function LabelWithDataLine_1(t: seq<Kind>, p: nat): (r: Option<nat>)
    requires p <= |t|
    ensures r.Some? ==> p < r.value <= |t|
    ensures r.Some? ==> NextTokenIs(t, p, {DATA_SIZE, MACRO_REP, SPACE_SIZE, TIMES})
    decreases |t| - p, 4
  {
    var r1 := DataDef(t, p);
    if r1.Some? then r1 else
    SpaceDef(t, p)
  }

  // `label_with_data_line_2`, NasmParser.java:2238-2242
  function LabelWithDataLine_2(t: seq<Kind>, p: nat): (r: Option<nat>)
    requires p <= |t|
    ensures r.Some?
    ensures r.Some? ==> p <= r.value <= |t|
    ensures r.Some? && p < r.value ==> NextTokenIs(t, p, {CRLF})
    decreases |t| - p, 0
  {
    Some(Tried(t, p, Token(t, p, CRLF)))
  }

  // `label_without_colon`, NasmParser.java:2247-2255
  function LabelWithoutColon(t: seq<Kind>, p: nat): (r: Option<nat>)
    requires p <= |t|
    ensures r.Some? ==> p < r.value <= |t|
    ensures r.Some? ==> NextTokenIs(t, p, {CONTEXT_LOCAL_REF, DOT_DOT, IDENTIFIER, MACRO_EXPANSION_START, MACRO_EXPLICIT_START, MACRO_LOCAL_REF, MACRO_PARAM, MACRO_PARAM_GREEDY, MACRO_PARAM_REVERSE})
    decreases |t| - p, 5
  {
    var r1 := GlobalLabel(t, p);
    if r1.Some? then r1 else
    LocalLabel(t, p)
  }

  // `line_dir`, NasmParser.java:2259-2270
  function LineDir(t: seq<Kind>, p: nat): (r: Option<nat>)
    requires p <= |t|
    ensures r.Some? ==> p < r.value <= |t|
    ensures r.Some? ==> NextTokenIs(t, p, {MACRO_LINE})
    decreases |t| - p, 0
  {
    if !NextTokenIs(t, p, {MACRO_LINE}) then None else
    match Token(t, p, MACRO_LINE)
    case None => None
    case Some(q1) =>
    var q2 := Tried(t, q1, ConstExpr(t, q1));
    var q3 := Tried(t, q2, LineDir_2(t, q2));
    Some(q3)
  }

  // `line_dir_2`, NasmParser.java:2273-2277
  function LineDir_2(t: seq<Kind>, p: nat): (r: Option<nat>)
    requires p <= |t|
    ensures r.Some?
    ensures r.Some? ==> p <= r.value <= |t|
    ensures r.Some? && p < r.value ==> NextTokenIs(t, p, {STRING})
    decreases |t| - p, 0
  {
    Some(Tried(t, p, Token(t, p, STRING)))
  }

  // `local_directive`, NasmParser.java:2281-2290
  function LocalDirective(t: seq<Kind>, p: nat): (r: Option<nat>)
    requires p <= |t|
    ensures r.Some? ==> p < r.value <= |t|
    ensures r.Some? ==> NextTokenIs(t, p, {IDENTIFIER})
    decreases |t| - p, 0
  {
    if !NextTokenIs(t, p, {IDENTIFIER}) then None else
    match Token(t, p, IDENTIFIER)
    case None => None
    case Some(q1) =>
    LocalDirective_1(t, q1)
  }

  // `local_directive_1`, NasmParser.java:2293-2301
  function LocalDirective_1(t: seq<Kind>, p: nat): (r: Option<nat>)
    requires p <= |t|
    ensures r.Some?
    ensures r.Some? ==> p <= r.value <= |t|
    ensures r.Some? ==> LocalDirective_1_0(t, r.value).None?
    ensures r.Some? && p < r.value ==> NextTokenIs(t, p, {COMMA})
    decreases |t| - p, 1
  {
    match LocalDirective_1_0(t, p)
    case None => Some(p)
    case Some(q1) => if q1 == p then Some(p) else LocalDirective_1(t, q1)
  }

  // `local_directive_1_0`, NasmParser.java:2304-2311
  function LocalDirective_1_0(t: seq<Kind>, p: nat): (r: Option<nat>)
    requires p <= |t|
    ensures r.Some? ==> p < r.value <= |t|
    ensures r.Some? ==> NextTokenIs(t, p, {COMMA})
    decreases |t| - p, 0
  {
    var s1 := ConsumeTokens(t, p, 0, [COMMA, IDENTIFIER]);
    if s1.ok then Some(s1.pos) else
    None
  }

  // `local_label`, NasmParser.java:2316-2324
  function LocalLabel(t: seq<Kind>, p: nat): (r: Option<nat>)
    requires p <= |t|
    ensures r.Some? ==> p < r.value <= |t|
    ensures r.Some? ==> NextTokenIs(t, p, {DOT_DOT, IDENTIFIER, MACRO_LOCAL_REF})
    decreases |t| - p, 2
  {
    var r1 := LocalLabel_0(t, p);
    if r1.Some? then r1 else
    Token(t, p, MACRO_LOCAL_REF)
  }

  // `local_label_0`, NasmParser.java:2327-2335
  function LocalLabel_0(t: seq<Kind>, p: nat): (r: Option<nat>)
    requires p <= |t|
    ensures r.Some? ==> p < r.value <= |t|
    ensures r.Some? ==> NextTokenIs(t, p, {DOT_DOT, IDENTIFIER})
    decreases |t| - p, 1
  {
    match LocalLabel_0_0(t, p)
    case None => None
    case Some(q1) =>
    Token(t, q1, IDENTIFIER)
  }

  // `local_label_0_0`, NasmParser.java:2338-2342
  function LocalLabel_0_0(t: seq<Kind>, p: nat): (r: Option<nat>)
    requires p <= |t|
    ensures r.Some?
    ensures r.Some? ==> p <= r.value <= |t|
    ensures r.Some? && p < r.value ==> NextTokenIs(t, p, {DOT_DOT})
    decreases |t| - p, 0
  {
    Some(Tried(t, p, Token(t, p, DOT_DOT)))
  }

  // `lock_prefix`, NasmParser.java:2346-2354
  function LockPrefix(t: seq<Kind>, p: nat): (r: Option<nat>)
    requires p <= |t|
    ensures r.Some? <==> NextTokenIs(t, p, {INSTRUCTION_PREFIX})
    ensures r.Some? ==> r.value == p + 1
    decreases |t| - p, 0
  {
    if !NextTokenIs(t, p, {INSTRUCTION_PREFIX}) then None else
    Token(t, p, INSTRUCTION_PREFIX)
  }

  // `logical_and_expr`, NasmParser.java:2358-2366
  function LogicalAndExpr(t: seq<Kind>, p: nat): (r: Option<nat>)
    requires p <= |t|
    ensures r.Some? ==> p < r.value <= |t|
    decreases |t| - p, 14
  {
    match OrExpr(t, p)
    case None => None
    case Some(q1) =>
    LogicalAndExpr_1(t, q1)
  }

  // `logical_and_expr_1`, NasmParser.java:2369-2377
  function LogicalAndExpr_1(t: seq<Kind>, p: nat): (r: Option<nat>)
    requires p <= |t|
    ensures r.Some?
    ensures r.Some? ==> p <= r.value <= |t|
    ensures r.Some? ==> LogicalAndExpr_1_0(t, r.value).None?
    ensures r.Some? && p < r.value ==> NextTokenIs(t, p, {BOOLEAN_AND})
    decreases |t| - p, 1
  {
    match LogicalAndExpr_1_0(t, p)
    case None => Some(p)
    case Some(q1) => if q1 == p then Some(p) else LogicalAndExpr_1(t, q1)
  }

  // `logical_and_expr_1_0`, NasmParser.java:2380-2388
  function LogicalAndExpr_1_0(t: seq<Kind>, p: nat): (r: Option<nat>)
    requires p <= |t|
    ensures r.Some? ==> p < r.value <= |t|
    ensures r.Some? ==> NextTokenIs(t, p, {BOOLEAN_AND})
    decreases |t| - p, 0
  {
    match Token(t, p, BOOLEAN_AND)
    case None => None
    case Some(q1) =>
    OrExpr(t, q1)
  }

  // `logical_or_expr`, NasmParser.java:2392-2400
  function LogicalOrExpr(t: seq<Kind>, p: nat): (r: Option<nat>)
    requires p <= |t|
    ensures r.Some? ==> p < r.value <= |t|
    decreases |t| - p, 16
  {
    match LogicalXorExpr(t, p)
    case None => None
    case Some(q1) =>
    LogicalOrExpr_1(t, q1)
  }

  // `logical_or_expr_1`, NasmParser.java:2403-2411
  function LogicalOrExpr_1(t: seq<Kind>, p: nat): (r: Option<nat>)
    requires p <= |t|
    ensures r.Some?
    ensures r.Some? ==> p <= r.value <= |t|
    ensures r.Some? ==> LogicalOrExpr_1_0(t, r.value).None?
    ensures r.Some? && p < r.value ==> NextTokenIs(t, p, {BOOLEAN_OR})
    decreases |t| - p, 1
  {
    match LogicalOrExpr_1_0(t, p)
    case None => Some(p)
    case Some(q1) => if q1 == p then Some(p) else LogicalOrExpr_1(t, q1)
  }

  // `logical_or_expr_1_0`, NasmParser.java:2414-2422
  function LogicalOrExpr_1_0(t: seq<Kind>, p: nat): (r: Option<nat>)
    requires p <= |t|
    ensures r.Some? ==> p < r.value <= |t|
    ensures r.Some? ==> NextTokenIs(t, p, {BOOLEAN_OR})
    decreases |t| - p, 0
  {
    match Token(t, p, BOOLEAN_OR)
    case None => None
    case Some(q1) =>
    LogicalXorExpr(t, q1)
  }

  // `logical_xor_expr`, NasmParser.java:2426-2434
  function LogicalXorExpr(t: seq<Kind>, p: nat): (r: Option<nat>)
    requires p <= |t|
    ensures r.Some? ==> p < r.value <= |t|
    decreases |t| - p, 15
  {
    match LogicalAndExpr(t, p)
    case None => None
    case Some(q1) =>
    LogicalXorExpr_1(t, q1)
  }

  // `logical_xor_expr_1`, NasmParser.java:2437-2445
  function LogicalXorExpr_1(t: seq<Kind>, p: nat): (r: Option<nat>)
    requires p <= |t|
    ensures r.Some?
    ensures r.Some? ==> p <= r.value <= |t|
    ensures r.Some? ==> LogicalXorExpr_1_0(t, r.value).None?
    ensures r.Some? && p < r.value ==> NextTokenIs(t, p, {BOOLEAN_XOR})
    decreases |t| - p, 1
  {
    match LogicalXorExpr_1_0(t, p)
    case None => Some(p)
    case Some(q1) => if q1 == p then Some(p) else LogicalXorExpr_1(t, q1)
  }

  // `logical_xor_expr_1_0`, NasmParser.java:2448-2456
  function LogicalXorExpr_1_0(t: seq<Kind>, p: nat): (r: Option<nat>)
    requires p <= |t|
    ensures r.Some? ==> p < r.value <= |t|
    ensures r.Some? ==> NextTokenIs(t, p, {BOOLEAN_XOR})
    decreases |t| - p, 0
  {
    match Token(t, p, BOOLEAN_XOR)
    case None => None
    case Some(q1) =>
    LogicalAndExpr(t, q1)
  }

  // `macro_arg`, NasmParser.java:2461-2469
  function MacroArg(t: seq<Kind>, p: nat): (r: Option<nat>)
    requires p <= |t|
    ensures r.Some? ==> p < r.value <= |t|
    decreases |t| - p, 5
  {
    var r1 := MacroArg_0(t, p);
    if r1.Some? then r1 else
    MacroArgTokens(t, p)
  }

  // `macro_arg_0`, NasmParser.java:2472-2481
  function MacroArg_0(t: seq<Kind>, p: nat): (r: Option<nat>)
    requires p <= |t|
    ensures r.Some? ==> p < r.value <= |t|
    ensures r.Some? ==> NextTokenIs(t, p, {LBRACE})
    decreases |t| - p, 0
  {
    match Token(t, p, LBRACE)
    case None => None
    case Some(q1) =>
    match TokenSequence(t, q1)
    case None => None
    case Some(q2) =>
    Token(t, q2, RBRACE)
  }

  // `macro_arg_list`, NasmParser.java:2485-2493
  function MacroArgList(t: seq<Kind>, p: nat): (r: Option<nat>)
    requires p <= |t|
    ensures r.Some? ==> p < r.value <= |t|
    decreases |t| - p, 6
  {
    match MacroArg(t, p)
    case None => None
    case Some(q1) =>
    MacroArgList_1(t, q1)
  }

  // `macro_arg_list_1`, NasmParser.java:2496-2504
  function MacroArgList_1(t: seq<Kind>, p: nat): (r: Option<nat>)
    requires p <= |t|
    ensures r.Some?
    ensures r.Some? ==> p <= r.value <= |t|
    ensures r.Some? ==> MacroArgList_1_0(t, r.value).None?
    ensures r.Some? && p < r.value ==> NextTokenIs(t, p, {COMMA})
    decreases |t| - p, 1
  {
    match MacroArgList_1_0(t, p)
    case None => Some(p)
    case Some(q1) => if q1 == p then Some(p) else MacroArgList_1(t, q1)
  }

  // `macro_arg_list_1_0`, NasmParser.java:2507-2515
  function MacroArgList_1_0(t: seq<Kind>, p: nat): (r: Option<nat>)
    requires p <= |t|
    ensures r.Some? ==> p < r.value <= |t|
    ensures r.Some? ==> NextTokenIs(t, p, {COMMA})
    decreases |t| - p, 0
  {
    match Token(t, p, COMMA)
    case None => None
    case Some(q1) =>
    MacroArg(t, q1)
  }

  // `macro_arg_token`, NasmParser.java:2519-2527
  function MacroArgToken(t: seq<Kind>, p: nat): (r: Option<nat>)
    requires p <= |t|
    ensures r.Some? ==> p < r.value <= |t|
    decreases |t| - p, 3
  {
    match MacroArgToken_0(t, p)
    case None => None
    case Some(q1) =>
    BaseTokenElement(t, q1)
  }

  // `macro_arg_token_0`, NasmParser.java:2530-2537
  function MacroArgToken_0(t: seq<Kind>, p: nat): (r: Option<nat>)
    requires p <= |t|
    ensures r.Some? ==> p <= r.value <= |t|
    ensures r.Some? ==> r.value == p
    decreases |t| - p, 1
  {
    if TokenIn(t, p, {COMMA, RPAREN}).Some? then None else Some(p)
  }

  // `macro_arg_tokens`, NasmParser.java:2550-2562
  function MacroArgTokens(t: seq<Kind>, p: nat): (r: Option<nat>)
    requires p <= |t|
    ensures r.Some? ==> p < r.value <= |t|
    ensures r.Some? ==> MacroArgToken(t, r.value).None?
    decreases |t| - p, 4
  {
    match MacroArgToken(t, p)
    case None => None
    case Some(q1) => if q1 == p then Some(p) else Some(Tried(t, q1, MacroArgTokens(t, q1)))
  }

  // `macro_args`, NasmParser.java:2566-2574
  function MacroArgs(t: seq<Kind>, p: nat): (r: Option<nat>)
    requires p <= |t|
    ensures r.Some? ==> p < r.value <= |t|
    decreases |t| - p, 6
  {
    match MacroArg(t, p)
    case None => None
    case Some(q1) =>
    MacroArgs_1(t, q1)
  }

  // `macro_args_1`, NasmParser.java:2577-2585
  function MacroArgs_1(t: seq<Kind>, p: nat): (r: Option<nat>)
    requires p <= |t|
    ensures r.Some?
    ensures r.Some? ==> p <= r.value <= |t|
    ensures r.Some? ==> MacroArgs_1_0(t, r.value).None?
    ensures r.Some? && p < r.value ==> NextTokenIs(t, p, {COMMA})
    decreases |t| - p, 1
  {
    match MacroArgs_1_0(t, p)
    case None => Some(p)
    case Some(q1) => if q1 == p then Some(p) else MacroArgs_1(t, q1)
  }

  // `macro_args_1_0`, NasmParser.java:2588-2596
  function MacroArgs_1_0(t: seq<Kind>, p: nat): (r: Option<nat>)
    requires p <= |t|
    ensures r.Some? ==> p < r.value <= |t|
    ensures r.Some? ==> NextTokenIs(t, p, {COMMA})
    decreases |t| - p, 0
  {
    match Token(t, p, COMMA)
    case None => None
    case Some(q1) =>
    MacroArg(t, q1)
  }

  // `macro_body_inline`, NasmParser.java:2600-2607
  function MacroBodyInline(t: seq<Kind>, p: nat): (r: Option<nat>)
    requires p <= |t|
    ensures r.Some? ==> p < r.value <= |t|
    decreases |t| - p, 5
  {
    TokenSequence(t, p)
  }

  // `macro_call`, NasmParser.java:2611-2620
  function MacroCall(t: seq<Kind>, p: nat): (r: Option<nat>)
    requires p <= |t|
    ensures r.Some? ==> p < r.value <= |t|
    ensures r.Some? ==> NextTokenIs(t, p, {IDENTIFIER})
    decreases |t| - p, 0
  {
    if !NextTokenIs(t, p, {IDENTIFIER}) then None else
    match Token(t, p, IDENTIFIER)
    case None => None
    case Some(q1) =>
    MacroArgs(t, q1)
  }

  // `macro_dir`, NasmParser.java:2631-2645
  function MacroDir(t: seq<Kind>, p: nat): (r: Option<nat>)
    requires p <= |t|
    ensures r.Some? ==> p < r.value <= |t|
    ensures r.Some? ==> NextTokenIs(t, p, {MACRO_ALIASES, MACRO_DEPEND, MACRO_PATHSEARCH, MACRO_ROTATE, MACRO_STRCAT, MACRO_STRLEN, MACRO_SUBSTR, PREPROCESSOR_DIRECTIVE})
    decreases |t| - p, 1
  {
    var r1 := MacroDir_0(t, p);
    if r1.Some? then r1 else
    var r2 := MacroDir_1(t, p);
    if r2.Some? then r2 else
    var r3 := MacroDir_2(t, p);
    if r3.Some? then r3 else
    var r4 := MacroDir_3(t, p);
    if r4.Some? then r4 else
    var r5 := ParseTokens(t, p, 0, [MACRO_PATHSEARCH, IDENTIFIER, STRING]);
    if r5.Some? then r5 else
    var r6 := ParseTokens(t, p, 0, [MACRO_DEPEND, STRING]);
    if r6.Some? then r6 else
    var r7 := ParseTokens(t, p, 0, [MACRO_ALIASES, IDENTIFIER]);
    if r7.Some? then r7 else
    Token(t, p, PREPROCESSOR_DIRECTIVE)
  }

  // `macro_dir_0`, NasmParser.java:2648-2656
  function MacroDir_0(t: seq<Kind>, p: nat): (r: Option<nat>)
    requires p <= |t|
    ensures r.Some? ==> p < r.value <= |t|
    ensures r.Some? ==> NextTokenIs(t, p, {MACRO_ROTATE})
    decreases |t| - p, 0
  {
    match Token(t, p, MACRO_ROTATE)
    case None => None
    case Some(q1) =>
    ConstExpr(t, q1)
  }

  // `macro_dir_1`, NasmParser.java:2659-2667
  function MacroDir_1(t: seq<Kind>, p: nat): (r: Option<nat>)
    requires p <= |t|
    ensures r.Some? ==> p < r.value <= |t|
    ensures r.Some? ==> NextTokenIs(t, p, {MACRO_STRLEN})
    decreases |t| - p, 0
  {
    var s2 := ConsumeTokens(t, p, 0, [MACRO_STRLEN, IDENTIFIER]);
    if !s2.ok then None else
    var q1 := s2.pos;
    TokenIn(t, q1, {STRING, IDENTIFIER})
  }

  // `macro_dir_2`, NasmParser.java:2679-2689
  function MacroDir_2(t: seq<Kind>, p: nat): (r: Option<nat>)
    requires p <= |t|
    ensures r.Some? ==> p < r.value <= |t|
    ensures r.Some? ==> NextTokenIs(t, p, {MACRO_SUBSTR})
    decreases |t| - p, 0
  {
    var s2 := ConsumeTokens(t, p, 0, [MACRO_SUBSTR, IDENTIFIER]);
    if !s2.ok then None else
    var q1 := s2.pos;
    match TokenIn(t, q1, {STRING, IDENTIFIER})
    case None => None
    case Some(q3) =>
    match ConstExpr(t, q3)
    case None => None
    case Some(q4) =>
    MacroDir_2_4(t, q4)
  }

  // `macro_dir_2_4`, NasmParser.java:2701-2705
  function MacroDir_2_4(t: seq<Kind>, p: nat): (r: Option<nat>)
    requires p <= |t|
    ensures r.Some?
    ensures r.Some? ==> p <= r.value <= |t|
    decreases |t| - p, 20
  {
    Some(Tried(t, p, ConstExpr(t, p)))
  }

  // `macro_dir_3`, NasmParser.java:2708-2716
  function MacroDir_3(t: seq<Kind>, p: nat): (r: Option<nat>)
    requires p <= |t|
    ensures r.Some? ==> p < r.value <= |t|
    ensures r.Some? ==> NextTokenIs(t, p, {MACRO_STRCAT})
    decreases |t| - p, 0
  {
    var s2 := ConsumeTokens(t, p, 0, [MACRO_STRCAT, IDENTIFIER]);
    if !s2.ok then None else
    var q1 := s2.pos;
    MacroDir_3_2(t, q1)
  }

  // `macro_dir_3_2`, NasmParser.java:2719-2731
  function MacroDir_3_2(t: seq<Kind>, p: nat): (r: Option<nat>)
    requires p <= |t|
    ensures r.Some? ==> p < r.value <= |t|
    ensures r.Some? ==> TokenIn(t, r.value, {STRING, IDENTIFIER}).None?
    ensures r.Some? ==> NextTokenIs(t, p, {IDENTIFIER, STRING})
    decreases |t| - p, 1
  {
    match TokenIn(t, p, {STRING, IDENTIFIER})
    case None => None
    case Some(q1) => if q1 == p then Some(p) else Some(Tried(t, q1, MacroDir_3_2(t, q1)))
  }

  // `macro_end_line`, NasmParser.java:2744-2746
  function MacroEndLine(t: seq<Kind>, p: nat): (r: Option<nat>)
    requires p <= |t|
    ensures r.Some? ==> p < r.value <= |t|
    ensures r.Some? ==> NextTokenIs(t, p, {MACRO_END})
    decreases |t| - p, 0
  {
    Token(t, p, MACRO_END)
  }

  // `macro_expansion`, NasmParser.java:2751-2760
  function MacroExpansion(t: seq<Kind>, p: nat): (r: Option<nat>)
    requires p <= |t|
    ensures r.Some? ==> p < r.value <= |t|
    ensures r.Some? ==> NextTokenIs(t, p, {MACRO_EXPANSION_START, MACRO_EXPLICIT_START})
    decreases |t| - p, 1
  {
    if !NextTokenIs(t, p, {MACRO_EXPANSION_START, MACRO_EXPLICIT_START}) then None else
    var r1 := MacroExpansion_0(t, p);
    if r1.Some? then r1 else
    MacroExpansion_1(t, p)
  }

  // `macro_expansion_0`, NasmParser.java:2763-2772
  function MacroExpansion_0(t: seq<Kind>, p: nat): (r: Option<nat>)
    requires p <= |t|
    ensures r.Some? ==> p < r.value <= |t|
    ensures r.Some? ==> NextTokenIs(t, p, {MACRO_EXPANSION_START})
    decreases |t| - p, 0
  {
    match Token(t, p, MACRO_EXPANSION_START)
    case None => None
    case Some(q1) =>
    match MacroExpansionContent(t, q1)
    case None => None
    case Some(q2) =>
    Token(t, q2, RBRACKET)
  }

  // `macro_expansion_1`, NasmParser.java:2775-2784
  function MacroExpansion_1(t: seq<Kind>, p: nat): (r: Option<nat>)
    requires p <= |t|
    ensures r.Some? ==> p < r.value <= |t|
    ensures r.Some? ==> NextTokenIs(t, p, {MACRO_EXPLICIT_START})
    decreases |t| - p, 0
  {
    match Token(t, p, MACRO_EXPLICIT_START)
    case None => None
    case Some(q1) =>
    match MacroExpansionBraceContent(t, q1)
    case None => None
    case Some(q2) =>
    Token(t, q2, RBRACE)
  }

  // `macro_expansion_brace_content`, NasmParser.java:2788-2800
  function MacroExpansionBraceContent(t: seq<Kind>, p: nat): (r: Option<nat>)
    requires p <= |t|
    ensures r.Some? ==> p < r.value <= |t|
    ensures r.Some? ==> MacroExpansionBraceToken(t, r.value).None?
    decreases |t| - p, 4
  {
    match MacroExpansionBraceToken(t, p)
    case None => None
    case Some(q1) => if q1 == p then Some(p) else Some(Tried(t, q1, MacroExpansionBraceContent(t, q1)))
  }

  // `macro_expansion_brace_token`, NasmParser.java:2804-2812
  function MacroExpansionBraceToken(t: seq<Kind>, p: nat): (r: Option<nat>)
    requires p <= |t|
    ensures r.Some? ==> p < r.value <= |t|
    decreases |t| - p, 3
  {
    match MacroExpansionBraceToken_0(t, p)
    case None => None
    case Some(q1) =>
    BaseTokenElement(t, q1)
  }

  // `macro_expansion_brace_token_0`, NasmParser.java:2815-2822
  function MacroExpansionBraceToken_0(t: seq<Kind>, p: nat): (r: Option<nat>)
    requires p <= |t|
    ensures r.Some? ==> p <= r.value <= |t|
    ensures r.Some? ==> r.value == p
    decreases |t| - p, 0
  {
    if Token(t, p, RBRACE).Some? then None else Some(p)
  }

  // `macro_expansion_content`, NasmParser.java:2826-2838
  function MacroExpansionContent(t: seq<Kind>, p: nat): (r: Option<nat>)
    requires p <= |t|
    ensures r.Some? ==> p < r.value <= |t|
    ensures r.Some? ==> MacroExpansionToken(t, r.value).None?
    decreases |t| - p, 4
  {
    match MacroExpansionToken(t, p)
    case None => None
    case Some(q1) => if q1 == p then Some(p) else Some(Tried(t, q1, MacroExpansionContent(t, q1)))
  }

  // `macro_expansion_token`, NasmParser.java:2842-2850
  function MacroExpansionToken(t: seq<Kind>, p: nat): (r: Option<nat>)
    requires p <= |t|
    ensures r.Some? ==> p < r.value <= |t|
    decreases |t| - p, 3
  {
    match MacroExpansionToken_0(t, p)
    case None => None
    case Some(q1) =>
    BaseTokenElement(t, q1)
  }

  // `macro_expansion_token_0`, NasmParser.java:2853-2860
  function MacroExpansionToken_0(t: seq<Kind>, p: nat): (r: Option<nat>)
    requires p <= |t|
    ensures r.Some? ==> p <= r.value <= |t|
    ensures r.Some? ==> r.value == p
    decreases |t| - p, 0
  {
    if Token(t, p, RBRACKET).Some? then None else Some(p)
  }

  // `macro_flags`, NasmParser.java:2864-2873
  function MacroFlags(t: seq<Kind>, p: nat): (r: Option<nat>)
    requires p <= |t|
    ensures r.Some? ==> p < r.value <= |t|
    ensures r.Some? ==> NextTokenIs(t, p, {MINUS, MUL, PLUS})
    decreases |t| - p, 0
  {
    var r1 := Token(t, p, PLUS);
    if r1.Some? then r1 else
    var r2 := Token(t, p, MUL);
    if r2.Some? then r2 else
    ParseTokens(t, p, 0, [MINUS, MUL])
  }

  // `macro_lines`, NasmParser.java:2877-2884
  function MacroLines(t: seq<Kind>, p: nat): (r: Option<nat>)
    requires p <= |t|
    ensures r.Some?
    ensures r.Some? ==> p <= r.value <= |t|
    decreases |t| - p, 10
  {
    SourceLines(t, p)
  }

  // `macro_name`, NasmParser.java:2888-2899
  function MacroName(t: seq<Kind>, p: nat): (r: Option<nat>)
    requires p <= |t|
    ensures r.Some? ==> p < r.value <= |t|
    decreases |t| - p, 1
  {
    var r1 := Token(t, p, IDENTIFIER);
    if r1.Some? then r1 else
    var r2 := PreprocessorId(t, p);
    if r2.Some? then r2 else
    var r3 := ContextRef(t, p);
    if r3.Some? then r3 else
    var r4 := KeywordAsName(t, p);
    if r4.Some? then r4 else
    Token(t, p, SIZE_SPEC)
  }

  // `macro_param_concat`, NasmParser.java:2905-2914
  function MacroParamConcat(t: seq<Kind>, p: nat): (r: Option<nat>)
    requires p <= |t|
    ensures r.Some? ==> p < r.value <= |t|
    ensures r.Some? ==> NextTokenIs(t, p, {CONTEXT_LOCAL_REF, MACRO_EXPANSION_START, MACRO_EXPLICIT_START, MACRO_LOCAL_REF, MACRO_PARAM, MACRO_PARAM_GREEDY, MACRO_PARAM_REVERSE})
    decreases |t| - p, 3
  {
    var r1 := MacroParamConcat_0(t, p);
    if r1.Some? then r1 else
    var r2 := MacroParamConcat_1(t, p);
    if r2.Some? then r2 else
    MacroParamConcat_2(t, p)
  }

  // `macro_param_concat_0`, NasmParser.java:2917-2925
  function MacroParamConcat_0(t: seq<Kind>, p: nat): (r: Option<nat>)
    requires p <= |t|
    ensures r.Some? ==> p < r.value <= |t|
    ensures r.Some? ==> NextTokenIs(t, p, {MACRO_EXPLICIT_START, MACRO_PARAM, MACRO_PARAM_GREEDY, MACRO_PARAM_REVERSE})
    decreases |t| - p, 2
  {
    match MacroParamRef(t, p)
    case None => None
    case Some(q1) =>
    Token(t, q1, IDENTIFIER)
  }

  // `macro_param_concat_1`, NasmParser.java:2928-2936
  function MacroParamConcat_1(t: seq<Kind>, p: nat): (r: Option<nat>)
    requires p <= |t|
    ensures r.Some? ==> p < r.value <= |t|
    ensures r.Some? ==> NextTokenIs(t, p, {CONTEXT_LOCAL_REF, MACRO_LOCAL_REF})
    decreases |t| - p, 1
  {
    match ContextLocalRef(t, p)
    case None => None
    case Some(q1) =>
    Token(t, q1, IDENTIFIER)
  }

  // `macro_param_concat_2`, NasmParser.java:2939-2947
  function MacroParamConcat_2(t: seq<Kind>, p: nat): (r: Option<nat>)
    requires p <= |t|
    ensures r.Some? ==> p < r.value <= |t|
    ensures r.Some? ==> NextTokenIs(t, p, {MACRO_EXPANSION_START, MACRO_EXPLICIT_START})
    decreases |t| - p, 2
  {
    match MacroExpansion(t, p)
    case None => None
    case Some(q1) =>
    Token(t, q1, IDENTIFIER)
  }

  // `macro_param_invocation`, NasmParser.java:2951-2959
  function MacroParamInvocation(t: seq<Kind>, p: nat): (r: Option<nat>)
    requires p <= |t|
    ensures r.Some? ==> p < r.value <= |t|
    ensures r.Some? ==> NextTokenIs(t, p, {MACRO_EXPLICIT_START, MACRO_PARAM, MACRO_PARAM_GREEDY, MACRO_PARAM_REVERSE})
    decreases |t| - p, 2
  {
    match MacroParamRef(t, p)
    case None => None
    case Some(q1) =>
    MacroParamInvocation_1(t, q1)
  }

  // `macro_param_invocation_1`, NasmParser.java:2962-2966
  function MacroParamInvocation_1(t: seq<Kind>, p: nat): (r: Option<nat>)
    requires p <= |t|
    ensures r.Some?
    ensures r.Some? ==> p <= r.value <= |t|
    decreases |t| - p, 7
  {
    Some(Tried(t, p, MacroArgs(t, p)))
  }

  // `macro_param_ref`, NasmParser.java:2974-2985
  function MacroParamRef(t: seq<Kind>, p: nat): (r: Option<nat>)
    requires p <= |t|
    ensures r.Some? ==> p < r.value <= |t|
    ensures r.Some? ==> NextTokenIs(t, p, {MACRO_EXPLICIT_START, MACRO_PARAM, MACRO_PARAM_GREEDY, MACRO_PARAM_REVERSE})
    decreases |t| - p, 1
  {
    var r1 := Token(t, p, MACRO_PARAM);
    if r1.Some? then r1 else
    var r2 := Token(t, p, MACRO_PARAM_GREEDY);
    if r2.Some? then r2 else
    var r3 := Token(t, p, MACRO_PARAM_REVERSE);
    if r3.Some? then r3 else
    var r4 := ParseTokens(t, p, 0, [MACRO_EXPLICIT_START, NUMBER, RBRACE]);
    if r4.Some? then r4 else
    MacroParamRef_4(t, p)
  }

  // `macro_param_ref_4`, NasmParser.java:2988-2997
  function MacroParamRef_4(t: seq<Kind>, p: nat): (r: Option<nat>)
    requires p <= |t|
    ensures r.Some? ==> p < r.value <= |t|
    ensures r.Some? ==> NextTokenIs(t, p, {MACRO_EXPLICIT_START})
    decreases |t| - p, 0
  {
    var s2 := ConsumeTokens(t, p, 0, [MACRO_EXPLICIT_START, NUMBER, COLON]);
    if !s2.ok then None else
    var q1 := s2.pos;
    match DefaultValue(t, q1)
    case None => None
    case Some(q3) =>
    Token(t, q3, RBRACE)
  }

  // `macro_params`, NasmParser.java:3001-3011
  function MacroParams(t: seq<Kind>, p: nat): (r: Option<nat>)
    requires p <= |t|
    ensures r.Some? ==> p < r.value <= |t|
    ensures r.Some? ==> NextTokenIs(t, p, {LPAREN})
    decreases |t| - p, 0
  {
    if !NextTokenIs(t, p, {LPAREN}) then None else
    match Token(t, p, LPAREN)
    case None => None
    case Some(q1) =>
    match ParamList(t, q1)
    case None => None
    case Some(q2) =>
    Token(t, q2, RPAREN)
  }

  // `macro_ref`, NasmParser.java:3015-3023
  function MacroRef(t: seq<Kind>, p: nat): (r: Option<nat>)
    requires p <= |t|
    ensures r.Some? <==> NextTokenIs(t, p, {IDENTIFIER})
    ensures r.Some? ==> r.value == p + 1
    decreases |t| - p, 0
  {
    if !NextTokenIs(t, p, {IDENTIFIER}) then None else
    Token(t, p, IDENTIFIER)
  }

  // `macro_start_line`, NasmParser.java:3027-3039
  function MacroStartLine(t: seq<Kind>, p: nat): (r: Option<nat>)
    requires p <= |t|
    ensures r.Some? ==> p < r.value <= |t|
    ensures r.Some? ==> NextTokenIs(t, p, {MACRO_START})
    decreases |t| - p, 0
  {
    if !NextTokenIs(t, p, {MACRO_START}) then None else
    match Token(t, p, MACRO_START)
    case None => None
    case Some(q1) =>
    match MacroName(t, q1)
    case None => None
    case Some(q2) =>
    match ParamCount(t, q2)
    case None => None
    case Some(q3) =>
    match MacroStartLine_3(t, q3)
    case None => None
    case Some(q4) =>
    MacroStartLine_4(t, q4)
  }

  // `macro_start_line_3`, NasmParser.java:3042-3046
  function MacroStartLine_3(t: seq<Kind>, p: nat): (r: Option<nat>)
    requires p <= |t|
    ensures r.Some?
    ensures r.Some? ==> p <= r.value <= |t|
    ensures r.Some? && p < r.value ==> NextTokenIs(t, p, {NUMBER})
    decreases |t| - p, 1
  {
    Some(Tried(t, p, ParamDefaults(t, p)))
  }

  // `macro_start_line_4`, NasmParser.java:3049-3053
  function MacroStartLine_4(t: seq<Kind>, p: nat): (r: Option<nat>)
    requires p <= |t|
    ensures r.Some?
    ensures r.Some? ==> p <= r.value <= |t|
    ensures r.Some? && p < r.value ==> NextTokenIs(t, p, {MINUS, MUL, PLUS})
    decreases |t| - p, 1
  {
    Some(Tried(t, p, MacroFlags(t, p)))
  }

  // `memory_expr`, NasmParser.java:3059-3068
  function MemoryExpr(t: seq<Kind>, p: nat): (r: Option<nat>)
    requires p <= |t|
    ensures r.Some? ==> p < r.value <= |t|
    ensures r.Some? ==> NextTokenIs(t, p, {LBRACKET, SEG_REGISTER, SIZE_SPEC})
    decreases |t| - p, 3
  {
    var r1 := MemoryExpr_0(t, p);
    if r1.Some? then r1 else
    var r2 := MemoryExpr_1(t, p);
    if r2.Some? then r2 else
    MemoryRef(t, p)
  }

  // `memory_expr_0`, NasmParser.java:3071-3079
  function MemoryExpr_0(t: seq<Kind>, p: nat): (r: Option<nat>)
    requires p <= |t|
    ensures r.Some? ==> p < r.value <= |t|
    ensures r.Some? ==> NextTokenIs(t, p, {SIZE_SPEC})
    decreases |t| - p, 1
  {
    match SizeSpec(t, p)
    case None => None
    case Some(q1) =>
    MemoryRef(t, q1)
  }

  // `memory_expr_1`, NasmParser.java:3082-3090
  function MemoryExpr_1(t: seq<Kind>, p: nat): (r: Option<nat>)
    requires p <= |t|
    ensures r.Some? ==> p < r.value <= |t|
    ensures r.Some? ==> NextTokenIs(t, p, {SEG_REGISTER})
    decreases |t| - p, 2
  {
    match SegmentOverride(t, p)
    case None => None
    case Some(q1) =>
    MemoryRef(t, q1)
  }

  // `memory_ref`, NasmParser.java:3094-3104
  function MemoryRef(t: seq<Kind>, p: nat): (r: Option<nat>)
    requires p <= |t|
    ensures r.Some? ==> p < r.value <= |t|
    ensures r.Some? ==> NextTokenIs(t, p, {LBRACKET})
    decreases |t| - p, 0
  {
    if !NextTokenIs(t, p, {LBRACKET}) then None else
    match Token(t, p, LBRACKET)
    case None => None
    case Some(q1) =>
    match EffectiveAddr(t, q1)
    case None => None
    case Some(q2) =>
    Token(t, q2, RBRACKET)
  }

  // `message_dir`, NasmParser.java:3108-3118
  function MessageDir(t: seq<Kind>, p: nat): (r: Option<nat>)
    requires p <= |t|
    ensures r.Some? ==> p < r.value <= |t|
    ensures r.Some? ==> NextTokenIs(t, p, {MACRO_ERROR})
    decreases |t| - p, 0
  {
    if !NextTokenIs(t, p, {MACRO_ERROR}) then None else
    match Token(t, p, MACRO_ERROR)
    case None => None
    case Some(q1) =>
    var q2 := Tried(t, q1, MessageText(t, q1));
    Some(q2)
  }

  // `message_text`, NasmParser.java:3122-3130
  function MessageText(t: seq<Kind>, p: nat): (r: Option<nat>)
    requires p <= |t|
    ensures r.Some? ==> p < r.value <= |t|
    decreases |t| - p, 5
  {
    var r1 := Token(t, p, STRING);
    if r1.Some? then r1 else
    TokenSequence(t, p)
  }

  // `mnemonic`, NasmParser.java:3136-3145
  function Mnemonic(t: seq<Kind>, p: nat): (r: Option<nat>)
    requires p <= |t|
    ensures r.Some? ==> p < r.value <= |t|
    ensures r.Some? ==> NextTokenIs(t, p, {CONTEXT_LOCAL_REF, IDENTIFIER, MACRO_EXPANSION_START, MACRO_EXPLICIT_START, MACRO_LOCAL_REF, MACRO_PARAM, MACRO_PARAM_GREEDY, MACRO_PARAM_REVERSE})
    decreases |t| - p, 4
  {
    var r1 := MacroParamConcat(t, p);
    if r1.Some? then r1 else
    var r2 := Token(t, p, IDENTIFIER);
    if r2.Some? then r2 else
    MacroExpansion(t, p)
  }

  // `mul_expr`, NasmParser.java:3149-3157
  function MulExpr(t: seq<Kind>, p: nat): (r: Option<nat>)
    requires p <= |t|
    ensures r.Some? ==> p < r.value <= |t|
    decreases |t| - p, 8
  {
    match UnaryExpr(t, p)
    case None => None
    case Some(q1) =>
    MulExpr_1(t, q1)
  }

  // `mul_expr_1`, NasmParser.java:3160-3168
  function MulExpr_1(t: seq<Kind>, p: nat): (r: Option<nat>)
    requires p <= |t|
    ensures r.Some?
    ensures r.Some? ==> p <= r.value <= |t|
    ensures r.Some? ==> MulExpr_1_0(t, r.value).None?
    ensures r.Some? && p < r.value ==> NextTokenIs(t, p, {DIV, MOD, MUL, SIGNED_DIV, SIGNED_MOD})
    decreases |t| - p, 2
  {
    match MulExpr_1_0(t, p)
    case None => Some(p)
    case Some(q1) => if q1 == p then Some(p) else MulExpr_1(t, q1)
  }

  // `mul_expr_1_0`, NasmParser.java:3171-3179
  function MulExpr_1_0(t: seq<Kind>, p: nat): (r: Option<nat>)
    requires p <= |t|
    ensures r.Some? ==> p < r.value <= |t|
    ensures r.Some? ==> NextTokenIs(t, p, {DIV, MOD, MUL, SIGNED_DIV, SIGNED_MOD})
    decreases |t| - p, 1
  {
    match MulOp(t, p)
    case None => None
    case Some(q1) =>
    UnaryExpr(t, q1)
  }

  // `mul_op`, NasmParser.java:3183-3192
  function MulOp(t: seq<Kind>, p: nat): (r: Option<nat>)
    requires p <= |t|
    ensures r.Some? <==> NextTokenIs(t, p, {MUL, DIV, SIGNED_DIV, MOD, SIGNED_MOD})
    ensures r.Some? ==> r.value == p + 1
    decreases |t| - p, 0
  {
    var r1 := Token(t, p, MUL);
    if r1.Some? then r1 else
    var r2 := Token(t, p, DIV);
    if r2.Some? then r2 else
    var r3 := Token(t, p, SIGNED_DIV);
    if r3.Some? then r3 else
    var r4 := Token(t, p, MOD);
    if r4.Some? then r4 else
    Token(t, p, SIGNED_MOD)
  }

  // `multi_line_macro`, NasmParser.java:3196-3207
  function MultiLineMacro(t: seq<Kind>, p: nat): (r: Option<nat>)
    requires p <= |t|
    ensures r.Some? ==> p < r.value <= |t|
    ensures r.Some? ==> NextTokenIs(t, p, {MACRO_START})
    decreases |t| - p, 1
  {
    if !NextTokenIs(t, p, {MACRO_START}) then None else
    match MacroStartLine(t, p)
    case None => None
    case Some(q1) =>
    var q2 := Tried(t, q1, MacroLines(t, q1));
    var q3 := Tried(t, q2, MacroEndLine(t, q2));
    Some(q3)
  }

  // `non_assignment_statement`, NasmParser.java:3211-3220
  function NonAssignmentStatement(t: seq<Kind>, p: nat): (r: Option<nat>)
    requires p <= |t|
    ensures r.Some? ==> p < r.value <= |t|
    decreases |t| - p, 6
  {
    var r1 := Instruction(t, p);
    if r1.Some? then r1 else
    var r2 := PseudoInstruction(t, p);
    if r2.Some? then r2 else
    var r3 := BracketedDirective(t, p);
    if r3.Some? then r3 else
    var r4 := Invocation(t, p);
    if r4.Some? then r4 else
    AtDirective(t, p)
  }

  // `operand`, NasmParser.java:3224-3232
  function Operand(t: seq<Kind>, p: nat): (r: Option<nat>)
    requires p <= |t|
    ensures r.Some? ==> p < r.value <= |t|
    decreases |t| - p, 23
  {
    var r1 := Operand_0(t, p);
    if r1.Some? then r1 else
    Operand_1(t, p)
  }

  // `operand_0`, NasmParser.java:3235-3243
  function Operand_0(t: seq<Kind>, p: nat): (r: Option<nat>)
    requires p <= |t|
    ensures r.Some? ==> p < r.value <= |t|
    decreases |t| - p, 22
  {
    match ExpandedOperand(t, p)
    case None => None
    case Some(q1) =>
    Operand_0_1(t, q1)
  }

  // `operand_0_1`, NasmParser.java:3246-3254
  function Operand_0_1(t: seq<Kind>, p: nat): (r: Option<nat>)
    requires p <= |t|
    ensures r.Some?
    ensures r.Some? ==> p <= r.value <= |t|
    ensures r.Some? ==> Decorator(t, r.value).None?
    ensures r.Some? && p < r.value ==> NextTokenIs(t, p, {LBRACE})
    decreases |t| - p, 1
  {
    match Decorator(t, p)
    case None => Some(p)
    case Some(q1) => if q1 == p then Some(p) else Operand_0_1(t, q1)
  }

  // `operand_1`, NasmParser.java:3257-3269
  function Operand_1(t: seq<Kind>, p: nat): (r: Option<nat>)
    requires p <= |t|
    ensures r.Some? ==> p < r.value <= |t|
    ensures r.Some? ==> Decorator(t, r.value).None?
    ensures r.Some? ==> NextTokenIs(t, p, {LBRACE})
    decreases |t| - p, 1
  {
    match Decorator(t, p)
    case None => None
    case Some(q1) => if q1 == p then Some(p) else Some(Tried(t, q1, Operand_1(t, q1)))
  }

  // `operand_list`, NasmParser.java:3273-3282
  function OperandList(t: seq<Kind>, p: nat): (r: Option<nat>)
    requires p <= |t|
    ensures r.Some? ==> p < r.value <= |t|
    decreases |t| - p, 24
  {
    match Operand(t, p)
    case None => None
    case Some(q1) =>
    var q2 := Tried(t, q1, OperandList_1(t, q1));
    Some(q2)
  }

  // `operand_list_1`, NasmParser.java:3285-3293
  function OperandList_1(t: seq<Kind>, p: nat): (r: Option<nat>)
    requires p <= |t|
    ensures r.Some?
    ensures r.Some? ==> p <= r.value <= |t|
    ensures r.Some? ==> OperandTail(t, r.value).None?
    ensures r.Some? && p < r.value ==> NextTokenIs(t, p, {COMMA})
    decreases |t| - p, 1
  {
    match OperandTail(t, p)
    case None => Some(p)
    case Some(q1) => if q1 == p then Some(p) else OperandList_1(t, q1)
  }

  // `operand_list_recover`, NasmParser.java:3297-3304
  function OperandListRecover(t: seq<Kind>, p: nat): (r: Option<nat>)
    requires p <= |t|
    ensures r.Some? ==> p <= r.value <= |t|
    ensures r.Some? ==> r.value == p
    decreases |t| - p, 1
  {
    if TokenIn(t, p, {CRLF, MACRO_START, MACRO_END, MACRO_IF, MACRO_IFDEF, MACRO_IFNDEF, MACRO_IFMACRO, MACRO_ENDIF}).Some? then None else Some(p)
  }

  // `operand_tail`, NasmParser.java:3323-3333
  function OperandTail(t: seq<Kind>, p: nat): (r: Option<nat>)
    requires p <= |t|
    ensures r.Some? ==> p < r.value <= |t|
    ensures r.Some? ==> NextTokenIs(t, p, {COMMA})
    decreases |t| - p, 0
  {
    if !NextTokenIs(t, p, {COMMA}) then None else
    match Token(t, p, COMMA)
    case None => None
    case Some(q1) =>
    var q2 := Tried(t, q1, OperandTail_1(t, q1));
    Some(q2)
  }

  // `operand_tail_1`, NasmParser.java:3336-3340
  function OperandTail_1(t: seq<Kind>, p: nat): (r: Option<nat>)
    requires p <= |t|
    ensures r.Some?
    ensures r.Some? ==> p <= r.value <= |t|
    decreases |t| - p, 24
  {
    Some(Tried(t, p, Operand(t, p)))
  }

  // `operator`, NasmParser.java:3351-3388
  function Operator(t: seq<Kind>, p: nat): (r: Option<nat>)
    requires p <= |t|
    ensures r.Some? <==> NextTokenIs(t, p, {PLUS, MINUS, MUL, DIV, MOD, SIGNED_DIV, SIGNED_MOD, AMP, PIPE, CARET, TILDE, EXCLAIM, LSHIFT, LSHIFT_COMPLETE, RSHIFT, RSHIFT_COMPLETE, BOOLEAN_AND, BOOLEAN_OR, BOOLEAN_XOR, EQ_EQ, NOT_EQUAL_1, NOT_EQUAL_2, LT, LTE, GT, GTE, SPACESHIP, QUESTION_MARK, PASTE_OP, SEG, WRT})
    ensures r.Some? ==> r.value == p + 1
    decreases |t| - p, 0
  {
    var r1 := Token(t, p, PLUS);
    if r1.Some? then r1 else
    var r2 := Token(t, p, MINUS);
    if r2.Some? then r2 else
    var r3 := Token(t, p, MUL);
    if r3.Some? then r3 else
    var r4 := Token(t, p, DIV);
    if r4.Some? then r4 else
    var r5 := Token(t, p, MOD);
    if r5.Some? then r5 else
    var r6 := Token(t, p, SIGNED_DIV);
    if r6.Some? then r6 else
    var r7 := Token(t, p, SIGNED_MOD);
    if r7.Some? then r7 else
    var r8 := Token(t, p, AMP);
    if r8.Some? then r8 else
    var r9 := Token(t, p, PIPE);
    if r9.Some? then r9 else
    var r10 := Token(t, p, CARET);
    if r10.Some? then r10 else
    var r11 := Token(t, p, TILDE);
    if r11.Some? then r11 else
    var r12 := Token(t, p, EXCLAIM);
    if r12.Some? then r12 else
    var r13 := Token(t, p, LSHIFT);
    if r13.Some? then r13 else
    var r14 := Token(t, p, LSHIFT_COMPLETE);
    if r14.Some? then r14 else
    var r15 := Token(t, p, RSHIFT);
    if r15.Some? then r15 else
    var r16 := Token(t, p, RSHIFT_COMPLETE);
    if r16.Some? then r16 else
    var r17 := Token(t, p, BOOLEAN_AND);
    if r17.Some? then r17 else
    var r18 := Token(t, p, BOOLEAN_OR);
    if r18.Some? then r18 else
    var r19 := Token(t, p, BOOLEAN_XOR);
    if r19.Some? then r19 else
    var r20 := Token(t, p, EQ_EQ);
    if r20.Some? then r20 else
    var r21 := Token(t, p, NOT_EQUAL_1);
    if r21.Some? then r21 else
    var r22 := Token(t, p, NOT_EQUAL_2);
    if r22.Some? then r22 else
    var r23 := Token(t, p, LT);
    if r23.Some? then r23 else
    var r24 := Token(t, p, LTE);
    if r24.Some? then r24 else
    var r25 := Token(t, p, GT);
    if r25.Some? then r25 else
    var r26 := Token(t, p, GTE);
    if r26.Some? then r26 else
    var r27 := Token(t, p, SPACESHIP);
    if r27.Some? then r27 else
    var r28 := Token(t, p, QUESTION_MARK);
    if r28.Some? then r28 else
    var r29 := Token(t, p, PASTE_OP);
    if r29.Some? then r29 else
    var r30 := Token(t, p, SEG);
    if r30.Some? then r30 else
    Token(t, p, WRT)
  }

  // `or_expr`, NasmParser.java:3392-3400
  function OrExpr(t: seq<Kind>, p: nat): (r: Option<nat>)
    requires p <= |t|
    ensures r.Some? ==> p < r.value <= |t|
    decreases |t| - p, 13
  {
    match XorExpr(t, p)
    case None => None
    case Some(q1) =>
    OrExpr_1(t, q1)
  }

  // `or_expr_1`, NasmParser.java:3403-3411
  function OrExpr_1(t: seq<Kind>, p: nat): (r: Option<nat>)
    requires p <= |t|
    ensures r.Some?
    ensures r.Some? ==> p <= r.value <= |t|
    ensures r.Some? ==> OrExpr_1_0(t, r.value).None?
    ensures r.Some? && p < r.value ==> NextTokenIs(t, p, {PIPE})
    decreases |t| - p, 1
  {
    match OrExpr_1_0(t, p)
    case None => Some(p)
    case Some(q1) => if q1 == p then Some(p) else OrExpr_1(t, q1)
  }

  // `or_expr_1_0`, NasmParser.java:3414-3422
  function OrExpr_1_0(t: seq<Kind>, p: nat): (r: Option<nat>)
    requires p <= |t|
    ensures r.Some? ==> p < r.value <= |t|
    ensures r.Some? ==> NextTokenIs(t, p, {PIPE})
    decreases |t| - p, 0
  {
    match Token(t, p, PIPE)
    case None => None
    case Some(q1) =>
    XorExpr(t, q1)
  }

  // `org_dir`, NasmParser.java:3426-3436
  function OrgDir(t: seq<Kind>, p: nat): (r: Option<nat>)
    requires p <= |t|
    ensures r.Some? ==> p < r.value <= |t|
    ensures r.Some? ==> NextTokenIs(t, p, {ORG_KW})
    decreases |t| - p, 0
  {
    if !NextTokenIs(t, p, {ORG_KW}) then None else
    match Token(t, p, ORG_KW)
    case None => None
    case Some(q1) =>
    var q2 := Tried(t, q1, ConstExpr(t, q1));
    Some(q2)
  }

  // `package_name`, NasmParser.java:3440-3448
  function PackageName(t: seq<Kind>, p: nat): (r: Option<nat>)
    requires p <= |t|
    ensures r.Some? <==> NextTokenIs(t, p, {IDENTIFIER})
    ensures r.Some? ==> r.value == p + 1
    decreases |t| - p, 0
  {
    if !NextTokenIs(t, p, {IDENTIFIER}) then None else
    Token(t, p, IDENTIFIER)
  }

  // `param_count`, NasmParser.java:3452-3462
  function ParamCount(t: seq<Kind>, p: nat): (r: Option<nat>)
    requires p <= |t|
    ensures r.Some? ==> p < r.value <= |t|
    ensures r.Some? ==> NextTokenIs(t, p, {NUMBER})
    decreases |t| - p, 0
  {
    if !NextTokenIs(t, p, {NUMBER}) then None else
    match Token(t, p, NUMBER)
    case None => None
    case Some(q1) =>
    var q2 := Tried(t, q1, ParamCount_1(t, q1));
    Some(q2)
  }

  // `param_count_1`, NasmParser.java:3465-3469
  function ParamCount_1(t: seq<Kind>, p: nat): (r: Option<nat>)
    requires p <= |t|
    ensures r.Some?
    ensures r.Some? ==> p <= r.value <= |t|
    ensures r.Some? && p < r.value ==> NextTokenIs(t, p, {MINUS})
    decreases |t| - p, 0
  {
    Some(Tried(t, p, ParseTokens(t, p, 0, [MINUS, NUMBER])))
  }

  // `param_defaults`, NasmParser.java:3473-3482
  function ParamDefaults(t: seq<Kind>, p: nat): (r: Option<nat>)
    requires p <= |t|
    ensures r.Some? ==> p < r.value <= |t|
    ensures r.Some? ==> NextTokenIs(t, p, {NUMBER})
    decreases |t| - p, 0
  {
    if !NextTokenIs(t, p, {NUMBER}) then None else
    match Token(t, p, NUMBER)
    case None => None
    case Some(q1) =>
    ParamDefaults_1(t, q1)
  }

  // `param_defaults_1`, NasmParser.java:3485-3493
  function ParamDefaults_1(t: seq<Kind>, p: nat): (r: Option<nat>)
    requires p <= |t|
    ensures r.Some?
    ensures r.Some? ==> p <= r.value <= |t|
    ensures r.Some? ==> ParamDefaults_1_0(t, r.value).None?
    ensures r.Some? && p < r.value ==> NextTokenIs(t, p, {COMMA})
    decreases |t| - p, 1
  {
    match ParamDefaults_1_0(t, p)
    case None => Some(p)
    case Some(q1) => if q1 == p then Some(p) else ParamDefaults_1(t, q1)
  }

  // `param_defaults_1_0`, NasmParser.java:3496-3503
  function ParamDefaults_1_0(t: seq<Kind>, p: nat): (r: Option<nat>)
    requires p <= |t|
    ensures r.Some? ==> p < r.value <= |t|
    ensures r.Some? ==> NextTokenIs(t, p, {COMMA})
    decreases |t| - p, 0
  {
    var s1 := ConsumeTokens(t, p, 0, [COMMA, NUMBER]);
    if s1.ok then Some(s1.pos) else
    None
  }

  // `param_list`, NasmParser.java:3507-3516
  function ParamList(t: seq<Kind>, p: nat): (r: Option<nat>)
    requires p <= |t|
    ensures r.Some? ==> p < r.value <= |t|
    ensures r.Some? ==> NextTokenIs(t, p, {IDENTIFIER})
    decreases |t| - p, 2
  {
    if !NextTokenIs(t, p, {IDENTIFIER}) then None else
    match ParamSpec(t, p)
    case None => None
    case Some(q1) =>
    ParamList_1(t, q1)
  }

  // `param_list_1`, NasmParser.java:3519-3527
  function ParamList_1(t: seq<Kind>, p: nat): (r: Option<nat>)
    requires p <= |t|
    ensures r.Some?
    ensures r.Some? ==> p <= r.value <= |t|
    ensures r.Some? ==> ParamList_1_0(t, r.value).None?
    ensures r.Some? && p < r.value ==> NextTokenIs(t, p, {COMMA})
    decreases |t| - p, 1
  {
    match ParamList_1_0(t, p)
    case None => Some(p)
    case Some(q1) => if q1 == p then Some(p) else ParamList_1(t, q1)
  }

  // `param_list_1_0`, NasmParser.java:3530-3538
  function ParamList_1_0(t: seq<Kind>, p: nat): (r: Option<nat>)
    requires p <= |t|
    ensures r.Some? ==> p < r.value <= |t|
    ensures r.Some? ==> NextTokenIs(t, p, {COMMA})
    decreases |t| - p, 0
  {
    match Token(t, p, COMMA)
    case None => None
    case Some(q1) =>
    ParamSpec(t, q1)
  }

  // `param_name`, NasmParser.java:3542-3550
  function ParamName(t: seq<Kind>, p: nat): (r: Option<nat>)
    requires p <= |t|
    ensures r.Some? <==> NextTokenIs(t, p, {IDENTIFIER})
    ensures r.Some? ==> r.value == p + 1
    decreases |t| - p, 0
  {
    if !NextTokenIs(t, p, {IDENTIFIER}) then None else
    Token(t, p, IDENTIFIER)
  }

  // `param_qualifier`, NasmParser.java:3557-3567
  function ParamQualifier(t: seq<Kind>, p: nat): (r: Option<nat>)
    requires p <= |t|
    ensures r.Some? ==> p < r.value <= |t|
    ensures r.Some? ==> NextTokenIs(t, p, {EQ, EXCLAIM, MUL, PLUS})
    decreases |t| - p, 1
  {
    var r1 := ParamQualifier_0(t, p);
    if r1.Some? then r1 else
    var r2 := ParamQualifier_1(t, p);
    if r2.Some? then r2 else
    var r3 := ParamQualifier_2(t, p);
    if r3.Some? then r3 else
    ParamQualifier_3(t, p)
  }

  // `param_qualifier_0`, NasmParser.java:3570-3578
  function ParamQualifier_0(t: seq<Kind>, p: nat): (r: Option<nat>)
    requires p <= |t|
    ensures r.Some? ==> p < r.value <= |t|
    ensures r.Some? ==> NextTokenIs(t, p, {EQ})
    decreases |t| - p, 0
  {
    match Token(t, p, EQ)
    case None => None
    case Some(q1) =>
    DefaultValue(t, q1)
  }

  // `param_qualifier_1`, NasmParser.java:3581-3589
  function ParamQualifier_1(t: seq<Kind>, p: nat): (r: Option<nat>)
    requires p <= |t|
    ensures r.Some? ==> p < r.value <= |t|
    ensures r.Some? ==> NextTokenIs(t, p, {PLUS})
    decreases |t| - p, 0
  {
    match Token(t, p, PLUS)
    case None => None
    case Some(q1) =>
    ParamQualifier_1_1(t, q1)
  }

  // `param_qualifier_1_1`, NasmParser.java:3592-3596
  function ParamQualifier_1_1(t: seq<Kind>, p: nat): (r: Option<nat>)
    requires p <= |t|
    ensures r.Some?
    ensures r.Some? ==> p <= r.value <= |t|
    decreases |t| - p, 6
  {
    Some(Tried(t, p, DefaultValue(t, p)))
  }

  // `param_qualifier_2`, NasmParser.java:3599-3607
  function ParamQualifier_2(t: seq<Kind>, p: nat): (r: Option<nat>)
    requires p <= |t|
    ensures r.Some? ==> p < r.value <= |t|
    ensures r.Some? ==> NextTokenIs(t, p, {MUL})
    decreases |t| - p, 0
  {
    match Token(t, p, MUL)
    case None => None
    case Some(q1) =>
    ParamQualifier_2_1(t, q1)
  }

  // `param_qualifier_2_1`, NasmParser.java:3610-3614
  function ParamQualifier_2_1(t: seq<Kind>, p: nat): (r: Option<nat>)
    requires p <= |t|
    ensures r.Some?
    ensures r.Some? ==> p <= r.value <= |t|
    decreases |t| - p, 6
  {
    Some(Tried(t, p, DefaultValue(t, p)))
  }

  // `param_qualifier_3`, NasmParser.java:3617-3625
  function ParamQualifier_3(t: seq<Kind>, p: nat): (r: Option<nat>)
    requires p <= |t|
    ensures r.Some? ==> p < r.value <= |t|
    ensures r.Some? ==> NextTokenIs(t, p, {EXCLAIM})
    decreases |t| - p, 0
  {
    match Token(t, p, EXCLAIM)
    case None => None
    case Some(q1) =>
    ParamQualifier_3_1(t, q1)
  }

  // `param_qualifier_3_1`, NasmParser.java:3628-3632
  function ParamQualifier_3_1(t: seq<Kind>, p: nat): (r: Option<nat>)
    requires p <= |t|
    ensures r.Some?
    ensures r.Some? ==> p <= r.value <= |t|
    decreases |t| - p, 6
  {
    Some(Tried(t, p, DefaultValue(t, p)))
  }

  // `param_spec`, NasmParser.java:3636-3645
  function ParamSpec(t: seq<Kind>, p: nat): (r: Option<nat>)
    requires p <= |t|
    ensures r.Some? ==> p < r.value <= |t|
    ensures r.Some? ==> NextTokenIs(t, p, {IDENTIFIER})
    decreases |t| - p, 1
  {
    if !NextTokenIs(t, p, {IDENTIFIER}) then None else
    match ParamName(t, p)
    case None => None
    case Some(q1) =>
    ParamSpec_1(t, q1)
  }

  // `param_spec_1`, NasmParser.java:3648-3652
  function ParamSpec_1(t: seq<Kind>, p: nat): (r: Option<nat>)
    requires p <= |t|
    ensures r.Some?
    ensures r.Some? ==> p <= r.value <= |t|
    ensures r.Some? && p < r.value ==> NextTokenIs(t, p, {EQ, EXCLAIM, MUL, PLUS})
    decreases |t| - p, 2
  {
    Some(Tried(t, p, ParamQualifier(t, p)))
  }

  // `postfix_expr`, NasmParser.java:3656-3664
  function PostfixExpr(t: seq<Kind>, p: nat): (r: Option<nat>)
    requires p <= |t|
    ensures r.Some? ==> p < r.value <= |t|
    decreases |t| - p, 6
  {
    match AtomExpr(t, p)
    case None => None
    case Some(q1) =>
    PostfixExpr_1(t, q1)
  }

  // `postfix_expr_1`, NasmParser.java:3667-3675
  function PostfixExpr_1(t: seq<Kind>, p: nat): (r: Option<nat>)
    requires p <= |t|
    ensures r.Some?
    ensures r.Some? ==> p <= r.value <= |t|
    ensures r.Some? ==> PostfixExpr_1_0(t, r.value).None?
    ensures r.Some? && p < r.value ==> NextTokenIs(t, p, {PASTE_OP})
    decreases |t| - p, 1
  {
    match PostfixExpr_1_0(t, p)
    case None => Some(p)
    case Some(q1) => if q1 == p then Some(p) else PostfixExpr_1(t, q1)
  }

  // `postfix_expr_1_0`, NasmParser.java:3678-3686
  function PostfixExpr_1_0(t: seq<Kind>, p: nat): (r: Option<nat>)
    requires p <= |t|
    ensures r.Some? ==> p < r.value <= |t|
    ensures r.Some? ==> NextTokenIs(t, p, {PASTE_OP})
    decreases |t| - p, 0
  {
    match Token(t, p, PASTE_OP)
    case None => None
    case Some(q1) =>
    AtomExpr(t, q1)
  }

  // `pp_assign_stmt`, NasmParser.java:3690-3700
  function PpAssignStmt(t: seq<Kind>, p: nat): (r: Option<nat>)
    requires p <= |t|
    ensures r.Some? ==> p < r.value <= |t|
    ensures r.Some? ==> NextTokenIs(t, p, {MACRO_ASSIGN})
    decreases |t| - p, 0
  {
    if !NextTokenIs(t, p, {MACRO_ASSIGN}) then None else
    var s2 := ConsumeTokens(t, p, 1, [MACRO_ASSIGN, IDENTIFIER]);
    if !s2.ok then None else
    var q1 := s2.pos;
    var q3 := Tried(t, q1, ConstExpr(t, q1));
    Some(q3)
  }

  // `pp_assignment_line`, NasmParser.java:3705-3714
  function PpAssignmentLine(t: seq<Kind>, p: nat): (r: Option<nat>)
    requires p <= |t|
    ensures r.Some? ==> p < r.value <= |t|
    ensures r.Some? ==> NextTokenIs(t, p, {MACRO_ASSIGN, MACRO_DEFINE})
    decreases |t| - p, 2
  {
    if !NextTokenIs(t, p, {MACRO_ASSIGN, MACRO_DEFINE}) then None else
    var r1 := PpAssignmentLine_0(t, p);
    if r1.Some? then r1 else
    PpAssignmentLine_1(t, p)
  }

  // `pp_assignment_line_0`, NasmParser.java:3717-3725
  function PpAssignmentLine_0(t: seq<Kind>, p: nat): (r: Option<nat>)
    requires p <= |t|
    ensures r.Some? ==> p < r.value <= |t|
    ensures r.Some? ==> NextTokenIs(t, p, {MACRO_ASSIGN})
    decreases |t| - p, 1
  {
    match PpAssignStmt(t, p)
    case None => None
    case Some(q1) =>
    PpAssignmentLine_0_1(t, q1)
  }

  // `pp_assignment_line_0_1`, NasmParser.java:3728-3732
  function PpAssignmentLine_0_1(t: seq<Kind>, p: nat): (r: Option<nat>)
    requires p <= |t|
    ensures r.Some?
    ensures r.Some? ==> p <= r.value <= |t|
    ensures r.Some? && p < r.value ==> NextTokenIs(t, p, {CRLF})
    decreases |t| - p, 0
  {
    Some(Tried(t, p, Token(t, p, CRLF)))
  }

  // `pp_assignment_line_1`, NasmParser.java:3735-3743
  function PpAssignmentLine_1(t: seq<Kind>, p: nat): (r: Option<nat>)
    requires p <= |t|
    ensures r.Some? ==> p < r.value <= |t|
    ensures r.Some? ==> NextTokenIs(t, p, {MACRO_DEFINE})
    decreases |t| - p, 1
  {
    match PpDefineStmt(t, p)
    case None => None
    case Some(q1) =>
    PpAssignmentLine_1_1(t, q1)
  }

  // `pp_assignment_line_1_1`, NasmParser.java:3746-3750
  function PpAssignmentLine_1_1(t: seq<Kind>, p: nat): (r: Option<nat>)
    requires p <= |t|
    ensures r.Some?
    ensures r.Some? ==> p <= r.value <= |t|
    ensures r.Some? && p < r.value ==> NextTokenIs(t, p, {CRLF})
    decreases |t| - p, 0
  {
    Some(Tried(t, p, Token(t, p, CRLF)))
  }

  // `pp_define_stmt`, NasmParser.java:3754-3766
  function PpDefineStmt(t: seq<Kind>, p: nat): (r: Option<nat>)
    requires p <= |t|
    ensures r.Some? ==> p < r.value <= |t|
    ensures r.Some? ==> NextTokenIs(t, p, {MACRO_DEFINE})
    decreases |t| - p, 0
  {
    if !NextTokenIs(t, p, {MACRO_DEFINE}) then None else
    match Token(t, p, MACRO_DEFINE)
    case None => None
    case Some(q1) =>
    var q2 := Tried(t, q1, MacroName(t, q1));
    var q3 := Tried(t, q2, PpDefineStmt_2(t, q2));
    var q4 := Tried(t, q3, PpDefineStmt_3(t, q3));
    Some(q4)
  }

  // `pp_define_stmt_2`, NasmParser.java:3769-3773
  function PpDefineStmt_2(t: seq<Kind>, p: nat): (r: Option<nat>)
    requires p <= |t|
    ensures r.Some?
    ensures r.Some? ==> p <= r.value <= |t|
    ensures r.Some? && p < r.value ==> NextTokenIs(t, p, {LPAREN})
    decreases |t| - p, 1
  {
    Some(Tried(t, p, MacroParams(t, p)))
  }

  // `pp_define_stmt_3`, NasmParser.java:3776-3780
  function PpDefineStmt_3(t: seq<Kind>, p: nat): (r: Option<nat>)
    requires p <= |t|
    ensures r.Some?
    ensures r.Some? ==> p <= r.value <= |t|
    decreases |t| - p, 6
  {
    Some(Tried(t, p, MacroBodyInline(t, p)))
  }

  // `preprocessor_function`, NasmParser.java:3785-3796
  function PreprocessorFunction(t: seq<Kind>, p: nat): (r: Option<nat>)
    requires p <= |t|
    ensures r.Some? ==> p < r.value <= |t|
    ensures r.Some? ==> NextTokenIs(t, p, {MACRO_STRCAT, MACRO_STRLEN, MACRO_SUBSTR, PREPROCESSOR_DIRECTIVE})
    decreases |t| - p, 1
  {
    match TokenIn(t, p, {MACRO_STRLEN, MACRO_SUBSTR, MACRO_STRCAT, PREPROCESSOR_DIRECTIVE})
    case None => None
    case Some(q1) =>
    match Token(t, q1, LPAREN)
    case None => None
    case Some(q2) =>
    var q3 := Tried(t, q2, PreprocessorFunctionArgs(t, q2));
    var q4 := Tried(t, q3, Token(t, q3, RPAREN));
    Some(q4)
  }

  // `preprocessor_function_arg`, NasmParser.java:3811-3813
  function PreprocessorFunctionArg(t: seq<Kind>, p: nat): (r: Option<nat>)
    requires p <= |t|
    ensures r.Some? ==> p < r.value <= |t|
    decreases |t| - p, 20
  {
    ConstExpr(t, p)
  }

  // `preprocessor_function_args`, NasmParser.java:3817-3825
  function PreprocessorFunctionArgs(t: seq<Kind>, p: nat): (r: Option<nat>)
    requires p <= |t|
    ensures r.Some? ==> p < r.value <= |t|
    decreases |t| - p, 21
  {
    match PreprocessorFunctionArg(t, p)
    case None => None
    case Some(q1) =>
    PreprocessorFunctionArgs_1(t, q1)
  }

  // `preprocessor_function_args_1`, NasmParser.java:3828-3836
  function PreprocessorFunctionArgs_1(t: seq<Kind>, p: nat): (r: Option<nat>)
    requires p <= |t|
    ensures r.Some?
    ensures r.Some? ==> p <= r.value <= |t|
    ensures r.Some? ==> PreprocessorFunctionArgs_1_0(t, r.value).None?
    ensures r.Some? && p < r.value ==> NextTokenIs(t, p, {COMMA})
    decreases |t| - p, 1
  {
    match PreprocessorFunctionArgs_1_0(t, p)
    case None => Some(p)
    case Some(q1) => if q1 == p then Some(p) else PreprocessorFunctionArgs_1(t, q1)
  }

  // `preprocessor_function_args_1_0`, NasmParser.java:3839-3847
  function PreprocessorFunctionArgs_1_0(t: seq<Kind>, p: nat): (r: Option<nat>)
    requires p <= |t|
    ensures r.Some? ==> p < r.value <= |t|
    ensures r.Some? ==> NextTokenIs(t, p, {COMMA})
    decreases |t| - p, 0
  {
    match Token(t, p, COMMA)
    case None => None
    case Some(q1) =>
    PreprocessorFunctionArg(t, q1)
  }

  // `preprocessor_id`, NasmParser.java:3851-3859
  function PreprocessorId(t: seq<Kind>, p: nat): (r: Option<nat>)
    requires p <= |t|
    ensures r.Some? <==> NextTokenIs(t, p, {PREPROCESSOR_DIRECTIVE})
    ensures r.Some? ==> r.value == p + 1
    decreases |t| - p, 0
  {
    if !NextTokenIs(t, p, {PREPROCESSOR_DIRECTIVE}) then None else
    Token(t, p, PREPROCESSOR_DIRECTIVE)
  }

  // `preprocessor_line`, NasmParser.java:3868-3880
  function PreprocessorLine(t: seq<Kind>, p: nat): (r: Option<nat>)
    requires p <= |t|
    ensures r.Some? ==> p < r.value <= |t|
    decreases |t| - p, 2
  {
    var r1 := MacroDir(t, p);
    if r1.Some? then r1 else
    var r2 := ContextDir(t, p);
    if r2.Some? then r2 else
    var r3 := MessageDir(t, p);
    if r3.Some? then r3 else
    var r4 := LineDir(t, p);
    if r4.Some? then r4 else
    var r5 := ClearDir(t, p);
    if r5.Some? then r5 else
    ExitDir(t, p)
  }

  // `preprocessor_token`, NasmParser.java:3885-3893
  function PreprocessorToken(t: seq<Kind>, p: nat): (r: Option<nat>)
    requires p <= |t|
    ensures r.Some? ==> p < r.value <= |t|
    decreases |t| - p, 3
  {
    var r1 := PreprocessorFunction(t, p);
    if r1.Some? then r1 else
    BaseTokenElement(t, p)
  }

  // `program`, NasmParser.java:3897-3899
  function Program(t: seq<Kind>, p: nat): (r: Option<nat>)
    requires p <= |t|
    ensures r.Some?
    ensures r.Some? ==> p <= r.value <= |t|
    decreases |t| - p, 10
  {
    SourceLines(t, p)
  }

  // `pseudo_instruction`, NasmParser.java:3917-3938
  function PseudoInstruction(t: seq<Kind>, p: nat): (r: Option<nat>)
    requires p <= |t|
    ensures r.Some? ==> p < r.value <= |t|
    decreases |t| - p, 4
  {
    var r1 := DataDef(t, p);
    if r1.Some? then r1 else
    var r2 := SpaceDef(t, p);
    if r2.Some? then r2 else
    var r3 := IncludeDir(t, p);
    if r3.Some? then r3 else
    var r4 := SectionDir(t, p);
    if r4.Some? then r4 else
    var r5 := GlobalDir(t, p);
    if r5.Some? then r5 else
    var r6 := ExternDir(t, p);
    if r6.Some? then r6 else
    var r7 := CommonDir(t, p);
    if r7.Some? then r7 else
    var r8 := AlignDir(t, p);
    if r8.Some? then r8 else
    var r9 := OrgDir(t, p);
    if r9.Some? then r9 else
    var r10 := BitsDir(t, p);
    if r10.Some? then r10 else
    var r11 := CpuDir(t, p);
    if r11.Some? then r11 else
    var r12 := FloatDir(t, p);
    if r12.Some? then r12 else
    var r13 := DefaultDir(t, p);
    if r13.Some? then r13 else
    var r14 := AbsoluteDir(t, p);
    if r14.Some? then r14 else
    UsePackage(t, p)
  }

  // `query_function`, NasmParser.java:3944-3953
  function QueryFunction(t: seq<Kind>, p: nat): (r: Option<nat>)
    requires p <= |t|
    ensures r.Some? ==> p < r.value <= |t|
    ensures r.Some? ==> NextTokenIs(t, p, {DEFINED, QUERY, QUERY_EXPAND})
    decreases |t| - p, 1
  {
    var r1 := ParseTokens(t, p, 0, [QUERY, IDENTIFIER]);
    if r1.Some? then r1 else
    var r2 := ParseTokens(t, p, 0, [QUERY_EXPAND, IDENTIFIER]);
    if r2.Some? then r2 else
    DefinedFunc(t, p)
  }

  // `register`, NasmParser.java:3957-3964
  function Register(t: seq<Kind>, p: nat): (r: Option<nat>)
    requires p <= |t|
    ensures r.Some? <==> NextTokenIs(t, p, {REGISTER, SEG_REGISTER, MASK_REG})
    ensures r.Some? ==> r.value == p + 1
    decreases |t| - p, 0
  {
    var r1 := Token(t, p, REGISTER);
    if r1.Some? then r1 else
    var r2 := Token(t, p, SEG_REGISTER);
    if r2.Some? then r2 else
    Token(t, p, MASK_REG)
  }

  // `rep_block`, NasmParser.java:3968-3982
  function RepBlock(t: seq<Kind>, p: nat): (r: Option<nat>)
    requires p <= |t|
    ensures r.Some? ==> p < r.value <= |t|
    ensures r.Some? ==> NextTokenIs(t, p, {MACRO_REP})
    decreases |t| - p, 0
  {
    if !NextTokenIs(t, p, {MACRO_REP}) then None else
    match Token(t, p, MACRO_REP)
    case None => None
    case Some(q1) =>
    var q2 := Tried(t, q1, ConstExpr(t, q1));
    var q3 := Tried(t, q2, Token(t, q2, CRLF));
    var q4 := Tried(t, q3, SourceLines(t, q3));
    var q5 := Tried(t, q4, RepBlock_4(t, q4));
    var q6 := Tried(t, q5, Token(t, q5, MACRO_ENDREP));
    Some(q6)
  }

  // `rep_block_4`, NasmParser.java:3985-3993
  function RepBlock_4(t: seq<Kind>, p: nat): (r: Option<nat>)
    requires p <= |t|
    ensures r.Some?
    ensures r.Some? ==> p <= r.value <= |t|
    ensures r.Some? ==> Token(t, r.value, CRLF).None?
    ensures r.Some? && p < r.value ==> NextTokenIs(t, p, {CRLF})
    decreases |t| - p, 0
  {
    match Token(t, p, CRLF)
    case None => Some(p)
    case Some(q1) => if q1 == p then Some(p) else RepBlock_4(t, q1)
  }

  // `scale`, NasmParser.java:3997-4005
  function Scale(t: seq<Kind>, p: nat): (r: Option<nat>)
    requires p <= |t|
    ensures r.Some? <==> NextTokenIs(t, p, {NUMBER})
    ensures r.Some? ==> r.value == p + 1
    decreases |t| - p, 0
  {
    if !NextTokenIs(t, p, {NUMBER}) then None else
    Token(t, p, NUMBER)
  }

  // `section_attr`, NasmParser.java:4010-4018
  function SectionAttr(t: seq<Kind>, p: nat): (r: Option<nat>)
    requires p <= |t|
    ensures r.Some? ==> p < r.value <= |t|
    ensures r.Some? ==> NextTokenIs(t, p, {ALIGN_KW, BITS_KW, IDENTIFIER, ORG_KW, SECTION_ATTR_KW})
    decreases |t| - p, 2
  {
    var r1 := SectionAttr_0(t, p);
    if r1.Some? then r1 else
    SectionAttrName(t, p)
  }

  // `section_attr_0`, NasmParser.java:4021-4030
  function SectionAttr_0(t: seq<Kind>, p: nat): (r: Option<nat>)
    requires p <= |t|
    ensures r.Some? ==> p < r.value <= |t|
    ensures r.Some? ==> NextTokenIs(t, p, {ALIGN_KW, BITS_KW, IDENTIFIER, ORG_KW, SECTION_ATTR_KW})
    decreases |t| - p, 1
  {
    match SectionAttrName(t, p)
    case None => None
    case Some(q1) =>
    match Token(t, q1, EQ)
    case None => None
    case Some(q2) =>
    ConstExpr(t, q2)
  }

  // `section_attr_name`, NasmParser.java:4034-4045
  function SectionAttrName(t: seq<Kind>, p: nat): (r: Option<nat>)
    requires p <= |t|
    ensures r.Some? <==> NextTokenIs(t, p, {IDENTIFIER, SECTION_ATTR_KW, ALIGN_KW, BITS_KW, ORG_KW})
    ensures r.Some? ==> r.value == p + 1
    decreases |t| - p, 0
  {
    var r1 := Token(t, p, IDENTIFIER);
    if r1.Some? then r1 else
    var r2 := Token(t, p, SECTION_ATTR_KW);
    if r2.Some? then r2 else
    var r3 := Token(t, p, ALIGN_KW);
    if r3.Some? then r3 else
    var r4 := Token(t, p, BITS_KW);
    if r4.Some? then r4 else
    Token(t, p, ORG_KW)
  }

  // `section_attrs`, NasmParser.java:4049-4061
  function SectionAttrs(t: seq<Kind>, p: nat): (r: Option<nat>)
    requires p <= |t|
    ensures r.Some? ==> p < r.value <= |t|
    ensures r.Some? ==> SectionAttr(t, r.value).None?
    ensures r.Some? ==> NextTokenIs(t, p, {ALIGN_KW, BITS_KW, IDENTIFIER, ORG_KW, SECTION_ATTR_KW})
    decreases |t| - p, 3
  {
    match SectionAttr(t, p)
    case None => None
    case Some(q1) => if q1 == p then Some(p) else Some(Tried(t, q1, SectionAttrs(t, q1)))
  }

  // `section_dir`, NasmParser.java:4065-4076
  function SectionDir(t: seq<Kind>, p: nat): (r: Option<nat>)
    requires p <= |t|
    ensures r.Some? ==> p < r.value <= |t|
    ensures r.Some? ==> NextTokenIs(t, p, {SECTION_KW, SEGMENT_KW})
    decreases |t| - p, 1
  {
    if !NextTokenIs(t, p, {SECTION_KW, SEGMENT_KW}) then None else
    match TokenIn(t, p, {SECTION_KW, SEGMENT_KW})
    case None => None
    case Some(q1) =>
    var q2 := Tried(t, q1, SectionName(t, q1));
    var q3 := Tried(t, q2, SectionDir_2(t, q2));
    Some(q3)
  }

  // `section_dir_2`, NasmParser.java:4088-4092
  function SectionDir_2(t: seq<Kind>, p: nat): (r: Option<nat>)
    requires p <= |t|
    ensures r.Some?
    ensures r.Some? ==> p <= r.value <= |t|
    ensures r.Some? && p < r.value ==> NextTokenIs(t, p, {ALIGN_KW, BITS_KW, IDENTIFIER, ORG_KW, SECTION_ATTR_KW})
    decreases |t| - p, 4
  {
    Some(Tried(t, p, SectionAttrs(t, p)))
  }

  // `section_name`, NasmParser.java:4096-4105
  function SectionName(t: seq<Kind>, p: nat): (r: Option<nat>)
    requires p <= |t|
    ensures r.Some? <==> NextTokenIs(t, p, {IDENTIFIER, STRING})
    ensures r.Some? ==> r.value == p + 1
    decreases |t| - p, 0
  {
    if !NextTokenIs(t, p, {IDENTIFIER, STRING}) then None else
    var r1 := Token(t, p, IDENTIFIER);
    if r1.Some? then r1 else
    Token(t, p, STRING)
  }

  // `segment_override`, NasmParser.java:4109-4118
  function SegmentOverride(t: seq<Kind>, p: nat): (r: Option<nat>)
    requires p <= |t|
    ensures r.Some? ==> p < r.value <= |t|
    ensures r.Some? ==> NextTokenIs(t, p, {SEG_REGISTER})
    decreases |t| - p, 1
  {
    if !NextTokenIs(t, p, {SEG_REGISTER}) then None else
    match SegmentReg(t, p)
    case None => None
    case Some(q1) =>
    Token(t, q1, COLON)
  }

  // `segment_reg`, NasmParser.java:4122-4130
  function SegmentReg(t: seq<Kind>, p: nat): (r: Option<nat>)
    requires p <= |t|
    ensures r.Some? <==> NextTokenIs(t, p, {SEG_REGISTER})
    ensures r.Some? ==> r.value == p + 1
    decreases |t| - p, 0
  {
    if !NextTokenIs(t, p, {SEG_REGISTER}) then None else
    Token(t, p, SEG_REGISTER)
  }

  // `separator`, NasmParser.java:4134-4148
  function Separator(t: seq<Kind>, p: nat): (r: Option<nat>)
    requires p <= |t|
    ensures r.Some? <==> NextTokenIs(t, p, {COMMA, COLON, LPAREN, RPAREN, LBRACKET, RBRACKET, LBRACE, RBRACE})
    ensures r.Some? ==> r.value == p + 1
    decreases |t| - p, 0
  {
    var r1 := Token(t, p, COMMA);
    if r1.Some? then r1 else
    var r2 := Token(t, p, COLON);
    if r2.Some? then r2 else
    var r3 := Token(t, p, LPAREN);
    if r3.Some? then r3 else
    var r4 := Token(t, p, RPAREN);
    if r4.Some? then r4 else
    var r5 := Token(t, p, LBRACKET);
    if r5.Some? then r5 else
    var r6 := Token(t, p, RBRACKET);
    if r6.Some? then r6 else
    var r7 := Token(t, p, LBRACE);
    if r7.Some? then r7 else
    Token(t, p, RBRACE)
  }

  // `shift_expr`, NasmParser.java:4152-4160
  function ShiftExpr(t: seq<Kind>, p: nat): (r: Option<nat>)
    requires p <= |t|
    ensures r.Some? ==> p < r.value <= |t|
    decreases |t| - p, 10
  {
    match AddExpr(t, p)
    case None => None
    case Some(q1) =>
    ShiftExpr_1(t, q1)
  }

  // `shift_expr_1`, NasmParser.java:4163-4171
  function ShiftExpr_1(t: seq<Kind>, p: nat): (r: Option<nat>)
    requires p <= |t|
    ensures r.Some?
    ensures r.Some? ==> p <= r.value <= |t|
    ensures r.Some? ==> ShiftExpr_1_0(t, r.value).None?
    ensures r.Some? && p < r.value ==> NextTokenIs(t, p, {LSHIFT, LSHIFT_COMPLETE, RSHIFT, RSHIFT_COMPLETE})
    decreases |t| - p, 2
  {
    match ShiftExpr_1_0(t, p)
    case None => Some(p)
    case Some(q1) => if q1 == p then Some(p) else ShiftExpr_1(t, q1)
  }

  // `shift_expr_1_0`, NasmParser.java:4174-4182
  function ShiftExpr_1_0(t: seq<Kind>, p: nat): (r: Option<nat>)
    requires p <= |t|
    ensures r.Some? ==> p < r.value <= |t|
    ensures r.Some? ==> NextTokenIs(t, p, {LSHIFT, LSHIFT_COMPLETE, RSHIFT, RSHIFT_COMPLETE})
    decreases |t| - p, 1
  {
    match ShiftOp(t, p)
    case None => None
    case Some(q1) =>
    AddExpr(t, q1)
  }

  // `shift_op`, NasmParser.java:4186-4194
  function ShiftOp(t: seq<Kind>, p: nat): (r: Option<nat>)
    requires p <= |t|
    ensures r.Some? <==> NextTokenIs(t, p, {LSHIFT, LSHIFT_COMPLETE, RSHIFT, RSHIFT_COMPLETE})
    ensures r.Some? ==> r.value == p + 1
    decreases |t| - p, 0
  {
    var r1 := Token(t, p, LSHIFT);
    if r1.Some? then r1 else
    var r2 := Token(t, p, LSHIFT_COMPLETE);
    if r2.Some? then r2 else
    var r3 := Token(t, p, RSHIFT);
    if r3.Some? then r3 else
    Token(t, p, RSHIFT_COMPLETE)
  }

  // `size_override`, NasmParser.java:4198-4206
  function SizeOverride(t: seq<Kind>, p: nat): (r: Option<nat>)
    requires p <= |t|
    ensures r.Some? <==> NextTokenIs(t, p, {INSTRUCTION_PREFIX})
    ensures r.Some? ==> r.value == p + 1
    decreases |t| - p, 0
  {
    if !NextTokenIs(t, p, {INSTRUCTION_PREFIX}) then None else
    Token(t, p, INSTRUCTION_PREFIX)
  }

  // `size_spec`, NasmParser.java:4210-4219
  function SizeSpec(t: seq<Kind>, p: nat): (r: Option<nat>)
    requires p <= |t|
    ensures r.Some? ==> p < r.value <= |t|
    ensures r.Some? ==> NextTokenIs(t, p, {SIZE_SPEC})
    decreases |t| - p, 0
  {
    if !NextTokenIs(t, p, {SIZE_SPEC}) then None else
    match Token(t, p, SIZE_SPEC)
    case None => None
    case Some(q1) =>
    SizeSpec_1(t, q1)
  }

  // `size_spec_1`, NasmParser.java:4222-4230
  function SizeSpec_1(t: seq<Kind>, p: nat): (r: Option<nat>)
    requires p <= |t|
    ensures r.Some?
    ensures r.Some? ==> p <= r.value <= |t|
    ensures r.Some? ==> Token(t, r.value, SIZE_SPEC).None?
    ensures r.Some? && p < r.value ==> NextTokenIs(t, p, {SIZE_SPEC})
    decreases |t| - p, 0
  {
    match Token(t, p, SIZE_SPEC)
    case None => Some(p)
    case Some(q1) => if q1 == p then Some(p) else SizeSpec_1(t, q1)
  }

  // `smacro_expansion`, NasmParser.java:4236-4245
  function SmacroExpansion(t: seq<Kind>, p: nat): (r: Option<nat>)
    requires p <= |t|
    ensures r.Some? ==> p < r.value <= |t|
    ensures r.Some? ==> NextTokenIs(t, p, {IDENTIFIER, MACRO_EXPANSION_START, PREPROCESSOR_DIRECTIVE})
    decreases |t| - p, 1
  {
    var r1 := Token(t, p, IDENTIFIER);
    if r1.Some? then r1 else
    var r2 := SmacroExpansion_1(t, p);
    if r2.Some? then r2 else
    PreprocessorId(t, p)
  }

  // `smacro_expansion_1`, NasmParser.java:4248-4257
  function SmacroExpansion_1(t: seq<Kind>, p: nat): (r: Option<nat>)
    requires p <= |t|
    ensures r.Some? ==> p < r.value <= |t|
    ensures r.Some? ==> NextTokenIs(t, p, {MACRO_EXPANSION_START})
    decreases |t| - p, 0
  {
    match Token(t, p, MACRO_EXPANSION_START)
    case None => None
    case Some(q1) =>
    match TokenSequence(t, q1)
    case None => None
    case Some(q2) =>
    Token(t, q2, RBRACKET)
  }

  // `source_line`, NasmParser.java:4273-4292
  function SourceLine(t: seq<Kind>, p: nat): (r: Option<nat>)
    requires p <= |t|
    ensures r.Some? ==> p < r.value <= |t|
    decreases |t| - p, 8
  {
    var r1 := EquLine(t, p);
    if r1.Some? then r1 else
    var r2 := LabelWithColonLine(t, p);
    if r2.Some? then r2 else
    var r3 := PpAssignmentLine(t, p);
    if r3.Some? then r3 else
    var r4 := TimesPrefixedLine(t, p);
    if r4.Some? then r4 else
    var r5 := LabelWithDataLine(t, p);
    if r5.Some? then r5 else
    var r6 := UnlabeledContent(t, p);
    if r6.Some? then r6 else
    var r7 := PreprocessorLine(t, p);
    if r7.Some? then r7 else
    var r8 := ConditionalBlock(t, p);
    if r8.Some? then r8 else
    var r9 := MultiLineMacro(t, p);
    if r9.Some? then r9 else
    var r10 := RepBlock(t, p);
    if r10.Some? then r10 else
    var r11 := StrucBlock(t, p);
    if r11.Some? then r11 else
    var r12 := IstrucBlock(t, p);
    if r12.Some? then r12 else
    Token(t, p, CRLF)
  }

  // `source_lines`, NasmParser.java:4296-4306
  function SourceLines(t: seq<Kind>, p: nat): (r: Option<nat>)
    requires p <= |t|
    ensures r.Some?
    ensures r.Some? ==> p <= r.value <= |t|
    ensures r.Some? ==> SourceLine(t, r.value).None?
    decreases |t| - p, 9
  {
    match SourceLine(t, p)
    case None => Some(p)
    case Some(q1) => if q1 == p then Some(p) else SourceLines(t, q1)
  }

  // `space_def`, NasmParser.java:4310-4320
  function SpaceDef(t: seq<Kind>, p: nat): (r: Option<nat>)
    requires p <= |t|
    ensures r.Some? ==> p < r.value <= |t|
    ensures r.Some? ==> NextTokenIs(t, p, {SPACE_SIZE})
    decreases |t| - p, 0
  {
    if !NextTokenIs(t, p, {SPACE_SIZE}) then None else
    match Token(t, p, SPACE_SIZE)
    case None => None
    case Some(q1) =>
    var q2 := Tried(t, q1, ConstExpr(t, q1));
    Some(q2)
  }

  // `special_symbol`, NasmParser.java:4324-4333
  function SpecialSymbol(t: seq<Kind>, p: nat): (r: Option<nat>)
    requires p <= |t|
    ensures r.Some? <==> NextTokenIs(t, p, {DOLLAR, DOUBLE_DOLLAR, CONTEXT_LOCAL_REF})
    ensures r.Some? ==> r.value == p + 1
    decreases |t| - p, 0
  {
    var r1 := Token(t, p, DOLLAR);
    if r1.Some? then r1 else
    var r2 := Token(t, p, DOUBLE_DOLLAR);
    if r2.Some? then r2 else
    Token(t, p, CONTEXT_LOCAL_REF)
  }

  // `string_function`, NasmParser.java:4337-4346
  function StringFunction(t: seq<Kind>, p: nat): (r: Option<nat>)
    requires p <= |t|
    ensures r.Some? ==> p < r.value <= |t|
    ensures r.Some? ==> NextTokenIs(t, p, {STRING_FUNC})
    decreases |t| - p, 0
  {
    if !NextTokenIs(t, p, {STRING_FUNC}) then None else
    var s2 := ConsumeTokens(t, p, 2, [STRING_FUNC, LPAREN, STRING, RPAREN]);
    if !s2.ok then None else
    var q1 := s2.pos;
    Some(q1)
  }

  // `string_or_env`, NasmParser.java:4352-4361
  function StringOrEnv(t: seq<Kind>, p: nat): (r: Option<nat>)
    requires p <= |t|
    ensures r.Some? ==> p < r.value <= |t|
    ensures r.Some? ==> NextTokenIs(t, p, {ENV_VAR_PREFIX, LT, STRING})
    decreases |t| - p, 1
  {
    var r1 := Token(t, p, STRING);
    if r1.Some? then r1 else
    var r2 := ParseTokens(t, p, 0, [LT, IDENTIFIER, GT]);
    if r2.Some? then r2 else
    EnvVarRef(t, p)
  }

  // `string_transform`, NasmParser.java:4365-4374
  function StringTransform(t: seq<Kind>, p: nat): (r: Option<nat>)
    requires p <= |t|
    ensures r.Some? ==> p < r.value <= |t|
    ensures r.Some? ==> NextTokenIs(t, p, {STRING_FUNC})
    decreases |t| - p, 0
  {
    if !NextTokenIs(t, p, {STRING_FUNC}) then None else
    var s2 := ConsumeTokens(t, p, 2, [STRING_FUNC, LPAREN, STRING, RPAREN]);
    if !s2.ok then None else
    var q1 := s2.pos;
    Some(q1)
  }

  // `stringize_op`, NasmParser.java:4378-4386
  function StringizeOp(t: seq<Kind>, p: nat): (r: Option<nat>)
    requires p <= |t|
    ensures r.Some? ==> p < r.value <= |t|
    ensures r.Some? ==> NextTokenIs(t, p, {ENV_VAR_PREFIX})
    decreases |t| - p, 0
  {
    if !NextTokenIs(t, p, {ENV_VAR_PREFIX}) then None else
    var s1 := ConsumeTokens(t, p, 0, [ENV_VAR_PREFIX, IDENTIFIER]);
    if s1.ok then Some(s1.pos) else
    None
  }

  // `struc_block`, NasmParser.java:4390-4402
  function StrucBlock(t: seq<Kind>, p: nat): (r: Option<nat>)
    requires p <= |t|
    ensures r.Some? ==> p < r.value <= |t|
    ensures r.Some? ==> NextTokenIs(t, p, {STRUC_KW})
    decreases |t| - p, 0
  {
    if !NextTokenIs(t, p, {STRUC_KW}) then None else
    var s2 := ConsumeTokens(t, p, 1, [STRUC_KW, IDENTIFIER, CRLF]);
    if !s2.ok then None else
    var q1 := s2.pos;
    var q3 := Tried(t, q1, SourceLines(t, q1));
    var q4 := Tried(t, q3, StrucBlock_4(t, q3));
    var q5 := Tried(t, q4, Token(t, q4, ENDSTRUC_KW));
    Some(q5)
  }

  // `struc_block_4`, NasmParser.java:4405-4413
  function StrucBlock_4(t: seq<Kind>, p: nat): (r: Option<nat>)
    requires p <= |t|
    ensures r.Some?
    ensures r.Some? ==> p <= r.value <= |t|
    ensures r.Some? ==> Token(t, r.value, CRLF).None?
    ensures r.Some? && p < r.value ==> NextTokenIs(t, p, {CRLF})
    decreases |t| - p, 0
  {
    match Token(t, p, CRLF)
    case None => Some(p)
    case Some(q1) => if q1 == p then Some(p) else StrucBlock_4(t, q1)
  }

  // `symbol_decl`, NasmParser.java:4417-4425
  function SymbolDecl(t: seq<Kind>, p: nat): (r: Option<nat>)
    requires p <= |t|
    ensures r.Some? ==> p < r.value <= |t|
    ensures r.Some? ==> NextTokenIs(t, p, {ABS, AT_KW, DEFAULT_KW, DUP, IDENTIFIER, REL, SECTION_ATTR_KW, SEG, SIZE_SPEC, STRICT, WRT})
    decreases |t| - p, 2
  {
    match SymbolName(t, p)
    case None => None
    case Some(q1) =>
    SymbolDecl_1(t, q1)
  }

  // `symbol_decl_1`, NasmParser.java:4428-4432
  function SymbolDecl_1(t: seq<Kind>, p: nat): (r: Option<nat>)
    requires p <= |t|
    ensures r.Some?
    ensures r.Some? ==> p <= r.value <= |t|
    ensures r.Some? && p < r.value ==> NextTokenIs(t, p, {COLON})
    decreases |t| - p, 1
  {
    Some(Tried(t, p, SymbolDecl_1_0(t, p)))
  }

  // `symbol_decl_1_0`, NasmParser.java:4435-4443
  function SymbolDecl_1_0(t: seq<Kind>, p: nat): (r: Option<nat>)
    requires p <= |t|
    ensures r.Some? ==> p < r.value <= |t|
    ensures r.Some? ==> NextTokenIs(t, p, {COLON})
    decreases |t| - p, 0
  {
    match Token(t, p, COLON)
    case None => None
    case Some(q1) =>
    SymbolName(t, q1)
  }

  // `symbol_list`, NasmParser.java:4447-4455
  function SymbolList(t: seq<Kind>, p: nat): (r: Option<nat>)
    requires p <= |t|
    ensures r.Some? ==> p < r.value <= |t|
    ensures r.Some? ==> NextTokenIs(t, p, {ABS, AT_KW, DEFAULT_KW, DUP, IDENTIFIER, REL, SECTION_ATTR_KW, SEG, SIZE_SPEC, STRICT, WRT})
    decreases |t| - p, 3
  {
    match SymbolDecl(t, p)
    case None => None
    case Some(q1) =>
    SymbolList_1(t, q1)
  }

  // `symbol_list_1`, NasmParser.java:4458-4466
  function SymbolList_1(t: seq<Kind>, p: nat): (r: Option<nat>)
    requires p <= |t|
    ensures r.Some?
    ensures r.Some? ==> p <= r.value <= |t|
    ensures r.Some? ==> SymbolList_1_0(t, r.value).None?
    ensures r.Some? && p < r.value ==> NextTokenIs(t, p, {COMMA})
    decreases |t| - p, 1
  {
    match SymbolList_1_0(t, p)
    case None => Some(p)
    case Some(q1) => if q1 == p then Some(p) else SymbolList_1(t, q1)
  }

  // `symbol_list_1_0`, NasmParser.java:4469-4477
  function SymbolList_1_0(t: seq<Kind>, p: nat): (r: Option<nat>)
    requires p <= |t|
    ensures r.Some? ==> p < r.value <= |t|
    ensures r.Some? ==> NextTokenIs(t, p, {COMMA})
    decreases |t| - p, 0
  {
    match Token(t, p, COMMA)
    case None => None
    case Some(q1) =>
    SymbolDecl(t, q1)
  }

  // `symbol_name`, NasmParser.java:4481-4491
  function SymbolName(t: seq<Kind>, p: nat): (r: Option<nat>)
    requires p <= |t|
    ensures r.Some? ==> p < r.value <= |t|
    ensures r.Some? ==> NextTokenIs(t, p, {ABS, AT_KW, DEFAULT_KW, DUP, IDENTIFIER, REL, SECTION_ATTR_KW, SEG, SIZE_SPEC, STRICT, WRT})
    decreases |t| - p, 1
  {
    var r1 := Token(t, p, IDENTIFIER);
    if r1.Some? then r1 else
    var r2 := Token(t, p, SECTION_ATTR_KW);
    if r2.Some? then r2 else
    var r3 := Token(t, p, SIZE_SPEC);
    if r3.Some? then r3 else
    KeywordAsName(t, p)
  }

  // `symbol_ref`, NasmParser.java:4500-4512
  function SymbolRef(t: seq<Kind>, p: nat): (r: Option<nat>)
    requires p <= |t|
    ensures r.Some? ==> p < r.value <= |t|
    ensures r.Some? ==> NextTokenIs(t, p, {CONTEXT_LOCAL_REF, DOLLAR, DOT_DOT, DOUBLE_DOLLAR, IDENTIFIER, MACRO_EXPANSION_START, MACRO_EXPLICIT_START, MACRO_LOCAL_REF, MACRO_PARAM, MACRO_PARAM_GREEDY, MACRO_PARAM_REVERSE})
    decreases |t| - p, 4
  {
    var r1 := MacroParamConcat(t, p);
    if r1.Some? then r1 else
    var r2 := Token(t, p, IDENTIFIER);
    if r2.Some? then r2 else
    var r3 := LocalLabel(t, p);
    if r3.Some? then r3 else
    var r4 := SpecialSymbol(t, p);
    if r4.Some? then r4 else
    var r5 := MacroParamRef(t, p);
    if r5.Some? then r5 else
    ContextLocalRef(t, p)
  }

  // `times_content`, NasmParser.java:4518-4527
  function TimesContent(t: seq<Kind>, p: nat): (r: Option<nat>)
    requires p <= |t|
    ensures r.Some? ==> p < r.value <= |t|
    decreases |t| - p, 6
  {
    var r1 := TimesInstruction(t, p);
    if r1.Some? then r1 else
    var r2 := TimesContent_1(t, p);
    if r2.Some? then r2 else
    Invocation(t, p)
  }

  // `times_content_1`, NasmParser.java:4530-4538
  function TimesContent_1(t: seq<Kind>, p: nat): (r: Option<nat>)
    requires p <= |t|
    ensures r.Some? ==> p < r.value <= |t|
    ensures r.Some? ==> NextTokenIs(t, p, {DATA_SIZE})
    decreases |t| - p, 0
  {
    match Token(t, p, DATA_SIZE)
    case None => None
    case Some(q1) =>
    DataList(t, q1)
  }

  // `times_expr`, NasmParser.java:4543-4552
  function TimesExpr(t: seq<Kind>, p: nat): (r: Option<nat>)
    requires p <= |t|
    ensures r.Some? ==> p < r.value <= |t|
    ensures r.Some? ==> NextTokenIs(t, p, {MACRO_REP, TIMES})
    decreases |t| - p, 1
  {
    if !NextTokenIs(t, p, {MACRO_REP, TIMES}) then None else
    var r1 := TimesExpr_0(t, p);
    if r1.Some? then r1 else
    TimesExpr_1(t, p)
  }

  // `times_expr_0`, NasmParser.java:4555-4563
  function TimesExpr_0(t: seq<Kind>, p: nat): (r: Option<nat>)
    requires p <= |t|
    ensures r.Some? ==> p < r.value <= |t|
    ensures r.Some? ==> NextTokenIs(t, p, {TIMES})
    decreases |t| - p, 0
  {
    match Token(t, p, TIMES)
    case None => None
    case Some(q1) =>
    ConstExpr(t, q1)
  }

  // `times_expr_1`, NasmParser.java:4566-4574
  function TimesExpr_1(t: seq<Kind>, p: nat): (r: Option<nat>)
    requires p <= |t|
    ensures r.Some? ==> p < r.value <= |t|
    ensures r.Some? ==> NextTokenIs(t, p, {MACRO_REP})
    decreases |t| - p, 0
  {
    match Token(t, p, MACRO_REP)
    case None => None
    case Some(q1) =>
    ConstExpr(t, q1)
  }

  // `times_instruction`, NasmParser.java:4578-4586
  function TimesInstruction(t: seq<Kind>, p: nat): (r: Option<nat>)
    requires p <= |t|
    ensures r.Some? ==> p < r.value <= |t|
    ensures r.Some? ==> NextTokenIs(t, p, {CONTEXT_LOCAL_REF, IDENTIFIER, MACRO_EXPANSION_START, MACRO_EXPLICIT_START, MACRO_LOCAL_REF, MACRO_PARAM, MACRO_PARAM_GREEDY, MACRO_PARAM_REVERSE})
    decreases |t| - p, 5
  {
    match Mnemonic(t, p)
    case None => None
    case Some(q1) =>
    TimesInstruction_1(t, q1)
  }

  // `times_instruction_1`, NasmParser.java:4589-4593
  function TimesInstruction_1(t: seq<Kind>, p: nat): (r: Option<nat>)
    requires p <= |t|
    ensures r.Some?
    ensures r.Some? ==> p <= r.value <= |t|
    decreases |t| - p, 25
  {
    Some(Tried(t, p, OperandList(t, p)))
  }

  // `times_prefixed_line`, NasmParser.java:4597-4609
  function TimesPrefixedLine(t: seq<Kind>, p: nat): (r: Option<nat>)
    requires p <= |t|
    ensures r.Some? ==> p < r.value <= |t|
    ensures r.Some? ==> NextTokenIs(t, p, {TIMES})
    decreases |t| - p, 0
  {
    if !NextTokenIs(t, p, {TIMES}) then None else
    match Token(t, p, TIMES)
    case None => None
    case Some(q1) =>
    var q2 := Tried(t, q1, TimesRepeatCount(t, q1));
    var q3 := Tried(t, q2, TimesContent(t, q2));
    var q4 := Tried(t, q3, TimesPrefixedLine_3(t, q3));
    Some(q4)
  }

  // `times_prefixed_line_3`, NasmParser.java:4612-4616
  function TimesPrefixedLine_3(t: seq<Kind>, p: nat): (r: Option<nat>)
    requires p <= |t|
    ensures r.Some?
    ensures r.Some? ==> p <= r.value <= |t|
    ensures r.Some? && p < r.value ==> NextTokenIs(t, p, {CRLF})
    decreases |t| - p, 0
  {
    Some(Tried(t, p, Token(t, p, CRLF)))
  }

  // `times_repeat_count`, NasmParser.java:4621-4627
  function TimesRepeatCount(t: seq<Kind>, p: nat): (r: Option<nat>)
    requires p <= |t|
    ensures r.Some? ==> p < r.value <= |t|
    decreases |t| - p, 20
  {
    var r1 := MacroParamRef(t, p);
    if r1.Some? then r1 else
    ConstExpr(t, p)
  }

  // `token_comparison`, NasmParser.java:4631-4640
  function TokenComparison(t: seq<Kind>, p: nat): (r: Option<nat>)
    requires p <= |t|
    ensures r.Some? ==> p < r.value <= |t|
    decreases |t| - p, 5
  {
    match TokenOperand(t, p)
    case None => None
    case Some(q1) =>
    match Token(t, q1, COMMA)
    case None => None
    case Some(q2) =>
    TokenOperand(t, q2)
  }

  // `token_operand`, NasmParser.java:4644-4656
  function TokenOperand(t: seq<Kind>, p: nat): (r: Option<nat>)
    requires p <= |t|
    ensures r.Some? ==> p < r.value <= |t|
    ensures r.Some? ==> TokenOperandElement(t, r.value).None?
    decreases |t| - p, 4
  {
    match TokenOperandElement(t, p)
    case None => None
    case Some(q1) => if q1 == p then Some(p) else Some(Tried(t, q1, TokenOperand(t, q1)))
  }

  // `token_operand_element`, NasmParser.java:4660-4668
  function TokenOperandElement(t: seq<Kind>, p: nat): (r: Option<nat>)
    requires p <= |t|
    ensures r.Some? ==> p < r.value <= |t|
    decreases |t| - p, 3
  {
    match TokenOperandElement_0(t, p)
    case None => None
    case Some(q1) =>
    BaseTokenElement(t, q1)
  }

  // `token_operand_element_0`, NasmParser.java:4671-4678
  function TokenOperandElement_0(t: seq<Kind>, p: nat): (r: Option<nat>)
    requires p <= |t|
    ensures r.Some? ==> p <= r.value <= |t|
    ensures r.Some? ==> r.value == p
    decreases |t| - p, 2
  {
    if TokenOperandElement_0_0(t, p).Some? then None else Some(p)
  }

  // `token_operand_element_0_0`, NasmParser.java:4681-4687
  function TokenOperandElement_0_0(t: seq<Kind>, p: nat): (r: Option<nat>)
    requires p <= |t|
    ensures r.Some? ==> p < r.value <= |t|
    ensures r.Some? ==> NextTokenIs(t, p, {COMMA, EQ_EQ, GT, GTE, LT, LTE, NOT_EQUAL_1, NOT_EQUAL_2, SPACESHIP})
    decreases |t| - p, 1
  {
    var r1 := ComparisonOp(t, p);
    if r1.Some? then r1 else
    Token(t, p, COMMA)
  }

  // `token_sequence`, NasmParser.java:4691-4703
  function TokenSequence(t: seq<Kind>, p: nat): (r: Option<nat>)
    requires p <= |t|
    ensures r.Some? ==> p < r.value <= |t|
    ensures r.Some? ==> PreprocessorToken(t, r.value).None?
    decreases |t| - p, 4
  {
    match PreprocessorToken(t, p)
    case None => None
    case Some(q1) => if q1 == p then Some(p) else Some(Tried(t, q1, TokenSequence(t, q1)))
  }

  // `unary_expr`, NasmParser.java:4708-4716
  function UnaryExpr(t: seq<Kind>, p: nat): (r: Option<nat>)
    requires p <= |t|
    ensures r.Some? ==> p < r.value <= |t|
    decreases |t| - p, 7
  {
    var r1 := UnaryExpr_0(t, p);
    if r1.Some? then r1 else
    PostfixExpr(t, p)
  }

  // `unary_expr_0`, NasmParser.java:4719-4727
  function UnaryExpr_0(t: seq<Kind>, p: nat): (r: Option<nat>)
    requires p <= |t|
    ensures r.Some? ==> p < r.value <= |t|
    ensures r.Some? ==> NextTokenIs(t, p, {EXCLAIM, MINUS, PLUS, SEG, TILDE})
    decreases |t| - p, 1
  {
    match UnaryOp(t, p)
    case None => None
    case Some(q1) =>
    UnaryExpr(t, q1)
  }

  // `unary_op`, NasmParser.java:4731-4740
  function UnaryOp(t: seq<Kind>, p: nat): (r: Option<nat>)
    requires p <= |t|
    ensures r.Some? <==> NextTokenIs(t, p, {PLUS, MINUS, TILDE, EXCLAIM, SEG})
    ensures r.Some? ==> r.value == p + 1
    decreases |t| - p, 0
  {
    var r1 := Token(t, p, PLUS);
    if r1.Some? then r1 else
    var r2 := Token(t, p, MINUS);
    if r2.Some? then r2 else
    var r3 := Token(t, p, TILDE);
    if r3.Some? then r3 else
    var r4 := Token(t, p, EXCLAIM);
    if r4.Some? then r4 else
    Token(t, p, SEG)
  }

  // `unlabeled_content`, NasmParser.java:4744-4752
  function UnlabeledContent(t: seq<Kind>, p: nat): (r: Option<nat>)
    requires p <= |t|
    ensures r.Some? ==> p < r.value <= |t|
    decreases |t| - p, 7
  {
    match NonAssignmentStatement(t, p)
    case None => None
    case Some(q1) =>
    UnlabeledContent_1(t, q1)
  }

  // `unlabeled_content_1`, NasmParser.java:4755-4759
  function UnlabeledContent_1(t: seq<Kind>, p: nat): (r: Option<nat>)
    requires p <= |t|
    ensures r.Some?
    ensures r.Some? ==> p <= r.value <= |t|
    ensures r.Some? && p < r.value ==> NextTokenIs(t, p, {CRLF})
    decreases |t| - p, 0
  {
    Some(Tried(t, p, Token(t, p, CRLF)))
  }

  // `use_package`, NasmParser.java:4763-4773
  function UsePackage(t: seq<Kind>, p: nat): (r: Option<nat>)
    requires p <= |t|
    ensures r.Some? ==> p < r.value <= |t|
    ensures r.Some? ==> NextTokenIs(t, p, {MACRO_USE})
    decreases |t| - p, 0
  {
    if !NextTokenIs(t, p, {MACRO_USE}) then None else
    match Token(t, p, MACRO_USE)
    case None => None
    case Some(q1) =>
    var q2 := Tried(t, q1, PackageName(t, q1));
    Some(q2)
  }

  // `vex_prefix`, NasmParser.java:4777-4785
  function VexPrefix(t: seq<Kind>, p: nat): (r: Option<nat>)
    requires p <= |t|
    ensures r.Some? <==> NextTokenIs(t, p, {INSTRUCTION_PREFIX})
    ensures r.Some? ==> r.value == p + 1
    decreases |t| - p, 0
  {
    if !NextTokenIs(t, p, {INSTRUCTION_PREFIX}) then None else
    Token(t, p, INSTRUCTION_PREFIX)
  }

  // `wrt_suffix`, NasmParser.java:4789-4799
  function WrtSuffix(t: seq<Kind>, p: nat): (r: Option<nat>)
    requires p <= |t|
    ensures r.Some? ==> p < r.value <= |t|
    ensures r.Some? ==> NextTokenIs(t, p, {WRT})
    decreases |t| - p, 0
  {
    if !NextTokenIs(t, p, {WRT}) then None else
    match Token(t, p, WRT)
    case None => None
    case Some(q1) =>
    var q2 := Tried(t, q1, WrtSuffix_1(t, q1));
    Some(q2)
  }

  // `wrt_suffix_1`, NasmParser.java:4802-4808
  function WrtSuffix_1(t: seq<Kind>, p: nat): (r: Option<nat>)
    requires p <= |t|
    ensures r.Some? ==> p < r.value <= |t|
    ensures r.Some? ==> NextTokenIs(t, p, {CONTEXT_LOCAL_REF, DOLLAR, DOT_DOT, DOUBLE_DOLLAR, IDENTIFIER, MACRO_EXPANSION_START, MACRO_EXPLICIT_START, MACRO_LOCAL_REF, MACRO_PARAM, MACRO_PARAM_GREEDY, MACRO_PARAM_REVERSE, WRT_SUFFIX})
    decreases |t| - p, 5
  {
    var r1 := SymbolRef(t, p);
    if r1.Some? then r1 else
    Token(t, p, WRT_SUFFIX)
  }

  // `xor_expr`, NasmParser.java:4812-4820
  function XorExpr(t: seq<Kind>, p: nat): (r: Option<nat>)
    requires p <= |t|
    ensures r.Some? ==> p < r.value <= |t|
    decreases |t| - p, 12
  {
    match AndExpr(t, p)
    case None => None
    case Some(q1) =>
    XorExpr_1(t, q1)
  }

  // `xor_expr_1`, NasmParser.java:4823-4831
  function XorExpr_1(t: seq<Kind>, p: nat): (r: Option<nat>)
    requires p <= |t|
    ensures r.Some?
    ensures r.Some? ==> p <= r.value <= |t|
    ensures r.Some? ==> XorExpr_1_0(t, r.value).None?
    ensures r.Some? && p < r.value ==> NextTokenIs(t, p, {CARET})
    decreases |t| - p, 1
  {
    match XorExpr_1_0(t, p)
    case None => Some(p)
    case Some(q1) => if q1 == p then Some(p) else XorExpr_1(t, q1)
  }

  // `xor_expr_1_0`, NasmParser.java:4834-4842
  function XorExpr_1_0(t: seq<Kind>, p: nat): (r: Option<nat>)
    requires p <= |t|
    ensures r.Some? ==> p < r.value <= |t|
    ensures r.Some? ==> NextTokenIs(t, p, {CARET})
    decreases |t| - p, 0
  {
    match Token(t, p, CARET)
    case None => None
    case Some(q1) =>
    AndExpr(t, q1)
  }
}
