// The rename refactoring's name checks: which names are NASM keywords, and
// which strings are acceptable new names for a plain symbol, a local label,
// a macro-local label or a context-local name.
module NamesValidator {
  import opened Text
  import InstructionDatabase

  /** The preprocessor directives, without `%`, that count as keywords. */
  const PreprocessorDirectives: set<string> := {
    "include", "define", "xdefine", "undef", "assign",
    "macro", "endmacro", "if", "ifdef", "ifndef", "else",
    "elif", "endif", "error", "warning", "rep", "endrep"
  }

  /**
   * The databases a keyword is looked up in: the names of the directives
   * and of the registers, and the instruction list. Each database keys its
   * entries by lowercased name.
   */
  datatype Databases = Databases(
    directives: set<string>,
    instructions: seq<InstructionDatabase.UnifiedInstruction>,
    registers: set<string>)

  /** `getDirective(name) != null`. */
  predicate IsDirective(db: Databases, name: string)
  {
    exists d :: d in db.directives && Lower(d) == Lower(name)
  }

  /** `getRegister(name) != null`. */
  predicate IsRegisterName(db: Databases, name: string)
  {
    exists r :: r in db.registers && Lower(r) == Lower(name)
  }

  /**
   * `isKeyword`: the lowercased name is a directive, an instruction, a
   * register or one of the preprocessor directives, checked in that order.
   */
  predicate IsKeyword(db: Databases, name: string)
  {
    var lowerName := Lower(name);
    if IsDirective(db, lowerName) then true
    else if InstructionDatabase.GetInstruction(db.instructions, lowerName).Some? then true
    else if IsRegisterName(db, lowerName) then true
    else lowerName in PreprocessorDirectives
  }

  /** Keywords ignore case: a name and its spelling in capitals are keywords together. */
  lemma KeywordIgnoresCase(db: Databases, name: string)
    ensures IsKeyword(db, name) == IsKeyword(db, Lower(name)) == IsKeyword(db, Upper(name))
  {
    LowerIdempotent(name);
    assert Lower(Upper(name)) == Lower(name);
  }

  /** The preprocessor directives are keywords in every database, in any case. */
  lemma PreprocessorDirectiveIsKeyword(db: Databases, name: string)
    requires Lower(name) in PreprocessorDirectives
    ensures IsKeyword(db, name)
  {
    LowerIdempotent(name);
  }

  /** An instruction of the database is a keyword, in any case. */
  lemma InstructionIsKeyword(db: Databases, k: nat, name: string)
    requires k < |db.instructions| && Lower(db.instructions[k].name) == Lower(name)
    ensures IsKeyword(db, name)
  {
    LowerIdempotent(name);
    InstructionDatabase.GetInstructionFound(db.instructions, Lower(name));
  }

  // ---------------------------------------------------------------- patterns

  /** `[a-zA-Z_@$?]`: what a name may start with. */
  predicate IsNameStart(c: char)
  {
    IsAsciiLetter(c) || c == '_' || c == '@' || c == '$' || c == '?'
  }

  /** `[a-zA-Z0-9_@$?]`: what may follow. */
  predicate IsNamePart(c: char)
  {
    IsNameStart(c) || IsAsciiDigit(c)
  }

  /** From index i to the end, `[a-zA-Z_@$?][a-zA-Z0-9_@$?]*`. */
  predicate NameFrom(s: string, i: nat)
  {
    i < |s| && IsNameStart(s[i]) && forall k :: i < k < |s| ==> IsNamePart(s[k])
  }

  /** `identifierPattern`. */
  predicate MatchesIdentifier(s: string)
  {
    NameFrom(s, 0)
  }

  /** `localLabelPattern`: one or two dots, then a name. */
  predicate MatchesLocalLabel(s: string)
  {
    |s| >= 1 && s[0] == '.' && (NameFrom(s, 1) || (|s| >= 2 && s[1] == '.' && NameFrom(s, 2)))
  }

  /** `macroLocalPattern`: `%%`, then a name. */
  predicate MatchesMacroLocal(s: string)
  {
    StartsWith(s, "%%") && NameFrom(s, 2)
  }

  /** `contextLocalPattern`: `%$`, then a name. */
  predicate MatchesContextLocal(s: string)
  {
    StartsWith(s, "%$") && NameFrom(s, 2)
  }

  /**
   * `isIdentifier`: the empty name is refused; a name with a `%%`, `%$` or
   * `.` prefix must match that prefix's pattern; any other name must match
   * the plain pattern and not be a keyword.
   */
  predicate IsIdentifier(db: Databases, name: string)
  {
    if name == [] then false
    else if StartsWith(name, "%%") then MatchesMacroLocal(name)
    else if StartsWith(name, "%$") then MatchesContextLocal(name)
    else if StartsWith(name, ".") then MatchesLocalLabel(name)
    else MatchesIdentifier(name) && !IsKeyword(db, name)
  }

  // ---------------------------------------------------------------- properties

  /** The empty string is never a name. */
  lemma EmptyNotIdentifier(db: Databases)
    ensures !IsIdentifier(db, "")
  {
  }

  /**
   * Every accepted name is one of the four shapes, whatever the databases
   * hold, and only a name of the plain shape depends on them: it is
   * accepted exactly when it is not a keyword.
   */
  lemma IdentifierIff(db: Databases, name: string)
    ensures IsIdentifier(db, name) <==>
      MatchesMacroLocal(name) || MatchesContextLocal(name) || MatchesLocalLabel(name) ||
      (MatchesIdentifier(name) && !IsKeyword(db, name))
  {
    if |name| > 0 && name[0] == '.' {
      assert StartsWith(name, ".");
    }
  }

  /**
   * A keyword is never accepted as a plain new name, in any case; only the
   * prefixed shapes escape the keyword test.
   */
  lemma KeywordNeverIdentifier(db: Databases, name: string)
    requires IsKeyword(db, name)
    requires !StartsWith(name, "%%") && !StartsWith(name, "%$") && !StartsWith(name, ".")
    ensures !IsIdentifier(db, name)
  {
  }

  /** Prefixed names never consult the databases: whether they are accepted is the same in all of them. */
  lemma PrefixedIndependentOfDatabases(db1: Databases, db2: Databases, name: string)
    requires StartsWith(name, "%%") || StartsWith(name, "%$") || StartsWith(name, ".")
    ensures IsIdentifier(db1, name) == IsIdentifier(db2, name)
  {
  }

  /** A `%%` or `%$` with nothing after it, and `...name`, are refused. */
  lemma BarePrefixesRefused(db: Databases, name: string)
    ensures !IsIdentifier(db, "%%") && !IsIdentifier(db, "%$") && !IsIdentifier(db, ".")
    ensures !IsIdentifier(db, "..." + name)
  {
    var s := "..." + name;
    assert s[0] == '.' && s[1] == '.' && s[2] == '.';
    assert StartsWith(s, ".");
  }
}
