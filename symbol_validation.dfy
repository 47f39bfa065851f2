// The tests that decide whether an unresolved symbol reference deserves a
// warning: special symbols, register names, the preprocessor's built-in
// macros and functions, and macro parameters are never reported.
module SymbolValidation {
  import opened Text

  /** The built-in macros and preprocessor functions, lowercased. */
  const BuiltInPreprocessorNames: set<string> := {
    "__file__", "__line__", "__date__", "__time__", "__utc_date__", "__utc_time__",
    "__pass__", "__output_format__", "__date_num__", "__time_num__",
    "__utc_date_num__", "__utc_time_num__",
    "__nasm_major__", "__nasm_minor__", "__nasm_subminor__", "__nasm_patchlevel__",
    "__nasm_version_id__", "__nasm_ver__",
    "defined", "defineed",
    "strlen", "strcat", "substr",
    "str", "num",
    "sel", "if",
    "round", "trunc", "ceil", "floor"
  }

  /** The register names the check knows, lowercased. */
  const RegisterNames: set<string> := {
    "rax", "rbx", "rcx", "rdx", "rsi", "rdi", "rbp", "rsp",
    "r8", "r9", "r10", "r11", "r12", "r13", "r14", "r15",
    "eax", "ebx", "ecx", "edx", "esi", "edi", "ebp", "esp",
    "ax", "bx", "cx", "dx", "si", "di", "bp", "sp",
    "al", "ah", "bl", "bh", "cl", "ch", "dl", "dh",
    "cs", "ds", "es", "fs", "gs", "ss",
    "rip", "eip", "ip"
  }

  // ---------------------------------------------------------------- fixed sets

  /** `isBuiltInPreprocessorFunction`: membership of the lowercased name. */
  predicate IsBuiltInPreprocessorFunction(name: string)
  {
    Lower(name) in BuiltInPreprocessorNames
  }

  /** `isRegister`: membership of the lowercased name. */
  predicate IsRegister(name: string)
  {
    Lower(name) in RegisterNames
  }

  /** Lowercasing after uppercasing is lowercasing. */
  lemma LowerOfUpper(s: string)
    ensures Lower(Upper(s)) == Lower(s)
  {
  }

  /**
   * Both tests ignore case: a name, its lowercase and its uppercase
   * spelling are all in the set or all out of it.
   */
  lemma FixedSetsIgnoreCase(name: string)
    ensures IsRegister(name) == IsRegister(Lower(name)) == IsRegister(Upper(name))
    ensures IsBuiltInPreprocessorFunction(name) == IsBuiltInPreprocessorFunction(Lower(name))
      == IsBuiltInPreprocessorFunction(Upper(name))
  {
    LowerIdempotent(name);
    LowerOfUpper(name);
  }

  // ---------------------------------------------------------------- special symbols

  /** `isSpecialSymbol`, with its four tests in the order written. */
  predicate IsSpecialSymbol(name: string)
  {
    StartsWith(name, "$") || StartsWith(name, "$$") || name == "?" || StartsWith(name, "@@")
  }

  /** The `$$` test adds nothing: a special symbol starts with `$` or `@@`, or is `?`. */
  lemma SpecialSymbolIff(name: string)
    ensures IsSpecialSymbol(name) <==>
      (|name| >= 1 && name[0] == '$') || name == "?" || (|name| >= 2 && name[0] == '@' && name[1] == '@')
  {
  }

  // ---------------------------------------------------------------- macro parameters

  /** The characters in [i, j) are ASCII digits (`\d`). */
  predicate DigitsIn(s: string, i: nat, j: nat)
    requires i <= j <= |s|
  {
    forall k :: i <= k < j ==> IsAsciiDigit(s[k])
  }

  /** The characters in [i, j) are word characters (`\w`). */
  predicate WordIn(s: string, i: nat, j: nat)
    requires i <= j <= |s|
  {
    forall k :: i <= k < j ==> IsWordChar(s[k])
  }

  /** The whole name matches `%\d+`. */
  predicate NumberedShape(s: string)
  {
    |s| >= 2 && s[0] == '%' && DigitsIn(s, 1, |s|)
  }

  /** The whole name matches `%\d+_\w+`, for some end j of the digits. */
  predicate NumberedConcatShape(s: string)
  {
    |s| >= 4 && s[0] == '%' &&
    exists j: nat :: 2 <= j < |s| - 1 && DigitsIn(s, 1, j) && s[j] == '_' && WordIn(s, j + 1, |s|)
  }

  /** The whole name matches `%\$\w+_\w+`, for some end j of the first word. */
  predicate ContextConcatShape(s: string)
  {
    |s| >= 5 && s[0] == '%' && s[1] == '$' &&
    exists j: nat :: 3 <= j < |s| - 1 && WordIn(s, 2, j) && s[j] == '_' && WordIn(s, j + 1, |s|)
  }

  /** The whole name matches `%\d+\*`. */
  predicate GreedyShape(s: string)
  {
    |s| >= 3 && s[0] == '%' && DigitsIn(s, 1, |s| - 1) && s[|s| - 1] == '*'
  }

  /** The whole name matches `%\-\d+`. */
  predicate ReverseIndexedShape(s: string)
  {
    |s| >= 3 && s[0] == '%' && s[1] == '-' && DigitsIn(s, 2, |s|)
  }

  /**
   * `%\d+_\w+` decided without a search: the digits can only end where the
   * run of digits after the `%` ends, since `_` is not a digit.
   */
  predicate NumberedConcat(s: string)
  {
    |s| >= 1 && s[0] == '%' &&
    var j := 1 + DigitRun(s, 1);
    2 <= j < |s| - 1 && s[j] == '_' && WordRun(s, j + 1) == |s| - (j + 1)
  }

  lemma NumberedConcatIsRegex(s: string)
    ensures NumberedConcat(s) <==> NumberedConcatShape(s)
  {
    if NumberedConcatShape(s) {
      var j: nat :| 2 <= j < |s| - 1 && DigitsIn(s, 1, j) && s[j] == '_' && WordIn(s, j + 1, |s|);
      DigitRunIs(s, 1, j - 1);
      WordRunIs(s, j + 1, |s| - (j + 1));
    }
    if NumberedConcat(s) {
      var j := 1 + DigitRun(s, 1);
      assert DigitsIn(s, 1, j) && WordIn(s, j + 1, |s|);
    }
  }

  /**
   * `isMacroParameter`, its alternatives in the order written; the first
   * that holds accepts the name.
   */
  predicate IsMacroParameter(name: string)
  {
    if NumberedShape(name) then true
    else if NumberedConcat(name) then true
    else if ContextConcatShape(name) then true
    else if name == "%0" || name == "%%" || name == "%+" || name == "%-" then true
    else if StartsWith(name, "%$") || StartsWith(name, "%%") then true
    else GreedyShape(name) || ReverseIndexedShape(name)
  }

  /**
   * What `isMacroParameter` accepts: `%` followed by digits, by digits, `_`
   * and word characters, or by digits and `*`; `%-` followed by nothing or
   * by digits; `%+`; and every name that starts with `%$` or `%%`. The
   * `%$\w+_\w+`, `%0` and `%%` alternatives are covered by the others.
   */
  lemma MacroParameterIff(name: string)
    ensures IsMacroParameter(name) <==>
      NumberedShape(name) || NumberedConcatShape(name) || GreedyShape(name) || ReverseIndexedShape(name)
      || name == "%+" || name == "%-" || StartsWith(name, "%$") || StartsWith(name, "%%")
  {
    NumberedConcatIsRegex(name);
    if name == "%0" {
      assert NumberedShape(name);
    }
    if ContextConcatShape(name) {
      assert name[..2] == "%$";
    }
  }

  /** A macro parameter is `%` and at least one more character. */
  lemma MacroParameterStartsWithPercent(name: string)
    requires IsMacroParameter(name)
    ensures |name| >= 2 && name[0] == '%'
  {
  }

  // ---------------------------------------------------------------- the warning

  /**
   * `validateSymbolReference`: a reference the resolver did not find is
   * reported, as a warning, unless one of the four tests excuses it.
   */
  predicate WarnsUnresolvedSymbol(name: string, resolved: bool)
  {
    !resolved && !IsSpecialSymbol(name) && !IsRegister(name) &&
    !IsBuiltInPreprocessorFunction(name) && !IsMacroParameter(name)
  }

  /**
   * `validateFunctionMacroCall`: a function-like call whose macro is
   * defined neither in the file nor in an included file is reported unless
   * it names a built-in.
   */
  predicate WarnsUnresolvedMacro(name: string, defined: bool)
  {
    !defined && !IsBuiltInPreprocessorFunction(name)
  }

  /**
   * Names that are never reported, whether they resolve or not: anything
   * starting with `$`, `%$` or `%%`, a register in any case, `?`, and `%`
   * followed by digits.
   */
  lemma NeverWarned(name: string, resolved: bool)
    ensures StartsWith(name, "$") || StartsWith(name, "%$") || StartsWith(name, "%%") ==>
      !WarnsUnresolvedSymbol(name, resolved)
    ensures IsRegister(name) || name == "?" || NumberedShape(name) ==> !WarnsUnresolvedSymbol(name, resolved)
  {
    MacroParameterIff(name);
  }

  /**
   * A resolved symbol is never reported; an unresolved plain name is
   * reported exactly when it is neither a register nor a built-in, in any
   * case.
   */
  lemma WarnsPlainName(name: string, resolved: bool)
    requires |name| > 0 && IsAsciiLetter(name[0])
    ensures WarnsUnresolvedSymbol(name, resolved) <==>
      !resolved && Lower(name) !in RegisterNames && Lower(name) !in BuiltInPreprocessorNames
  {
    if IsMacroParameter(name) {
      MacroParameterStartsWithPercent(name);
    }
  }

  /**
   * An undefined function-like macro is reported exactly when it names no
   * built-in, in whatever case it is written; a defined one never is.
   */
  lemma WarnsMacroIff(name: string, defined: bool)
    ensures WarnsUnresolvedMacro(name, defined) <==> !defined && Lower(name) !in BuiltInPreprocessorNames
    ensures WarnsUnresolvedMacro(name, defined) == WarnsUnresolvedMacro(Upper(name), defined)
      == WarnsUnresolvedMacro(Lower(name), defined)
  {
    FixedSetsIgnoreCase(name);
  }
}
