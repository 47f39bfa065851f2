# NASM language support for IntelliJ-based IDEs, modelled in Dafny

This project models the core of a NASM assembly plugin for IntelliJ IDEA and CLion.
It covers everything the plugin computes from text, tokens and settings without
touching the IDE. Each source file becomes one Dafny module. Pure Kotlin logic
becomes functions and lemmas. Loops that update variables become methods, each
proved against a specification function. Objects whose fields are updated in place
become classes.

- **Recognizer** (`NasmParser.java`). `nasm_grammar.dfy` has one function per
  generated parse function. Each takes the significant token kinds (`tokens.dfy`)
  and a position, and returns the position after a match or `None`.
  `parser_cursor.dfy` models the parser utility it relies on: skipping comments and
  whitespace, consuming tokens, and pinned sequences that succeed once their first
  part has. `grammar_properties.dfy` proves operator precedence, pinning, and
  where runs of source lines inside conditional blocks stop.
- **Constant-expression evaluator** (`NasmConstExprEvaluator.kt`).
  - `long_arith.dfy` and `java_numbers.dfy` model 64-bit `Long` arithmetic, with
    wrap-around, and `java.lang.Long.parseLong`.
  - `const_expr.dfy` covers number and character literals, escape sequences, and the
    binary and unary operators.
  - `const_eval.dfy` is the tree evaluator. It is a class that keeps the visited
    symbols used to detect cycles, and the preprocessor-evaluation flag. A symbol
    is resolved through `resolve()`, or, in re-parsed macro text, among the
    context file's own named elements only.
  - `macro_substitution.dfy` is the function-like macro parameter substitution.
- **Command lines and build flags** (`CompilationDatabaseParser.kt`,
  `MakeOutputParser.kt`, `NasmCompilationInfo.kt`, `CommandLineMacroProvider.kt`).
  These cover argument splitting, `-I`/`-i`, `-D` and `-o` handling, and how
  per-file and global macros are merged.
- **Preprocessor branch activity** (`PreprocessorStateEvaluator.kt`): which branch
  of each `%if`/`%ifdef`/`%elif`/`%else` chain is active.
- **Labels and includes** (`NasmPsiUtil.kt`).
  - Local-label scope lookup, and the list of a file's named elements.
  - The include closure, a class with `visited` and `result` fields.
- **Editor**.
  - `folding.dfy`: the folding regions.
  - `enter_handler.dfy`: the closing directive inserted after Enter.
  - `completion.dfy`: the completion context read from the text before the caret.
  - `document.dfy`: line and offset bookkeeping shared by these.
- **Validators**.
  - `section_attributes.dfy`: section attributes and their conflicts.
  - `symbol_validation.dfy`: symbol names.
  - `names_validator.dfy`: rename targets.
- **Documentation and database**.
  - `operand_docs.dfy`: operand descriptions.
  - `variant_groups.dfy`: instruction variants grouped by operand pattern.
  - `register_families.dfy`: related registers.
  - `instruction_database.dfy`: the instruction database queries.
  - `element_handlers.dfy`: the rename handler for each kind of element.
- **Settings and include paths** (`NasmProjectSettings.kt`, the fallback and
  project-model include path resolvers).
- **Kotlin and Java library behaviour the model relies on**.
  - `text.dfy`: `trim`, `split`, `lines`, ASCII case, and regex character classes.
  - `paths.dfy`: `java.nio.file.Path` parsing, `resolve` and `normalize`.
  - `linked_map.dfy`: insertion-ordered `LinkedHashMap`.
  - `seqs.dfy`: `distinct` and maps filled pair by pair.
  - `string_order.dfy`: `String.compareTo` and `sorted`.

The IDE itself never appears in the model. PSI trees, virtual files and the project
model become values passed in: lists of tokens, elements with offsets, and maps from
a file to its includes. File lookups become function parameters.

Where the plugin's specification and its code differ, the model follows the code:

- A `%%` label ends a local-label scope. The skip for it is dead code; see the
  findings below. `PsiUtil.FindLabelDefinition` follows the code, and
  `PsiUtil.FindLabelDefinitionCorrected` is the lookup with the skip in effect.
- The related-register list of the register documentation tests the letters `a` to `d`
  before the `di` and `bp` pairs, so `rdi` is listed with the rdx family and `rbp` with
  the rbx family. `RegisterFamilies.RegisterFamily` follows the code, and
  `RegisterFamilies.RegisterFamilyCorrected` is the family with the pairs checked first.
- `loadState` increases the settings modification count by two, because copying the
  bean goes through the macros setter.
- The preprocessor walk evaluates every file with the global command-line macros only.
- In a function-like macro expansion, the arguments are substituted one after
  another with Java's replacement syntax.
  - A parameter name that appears in an earlier argument is therefore substituted
    again (`MacroSubstitution.ChainedSubstitution`).
  - An argument holding `$` makes the replacement throw
    (`MacroSubstitution.DollarArgumentThrows`).

## Model

| member | source | states |
|---|---|---|
| CommandLine.Tokenize | src/main/kotlin/dev/agb/nasmplugin/clion/projectmodel/CompilationDatabaseParser.kt:147-182 | the character loop with its `inQuotes`/`escapeNext` flags produces exactly the arguments of the tokenizer specification `Tokens`; the loop of MakeOutputParser.kt (lines 130-165) is the same one, called with both quote characters |
| CommandLine.TokensNonEmpty | src/main/kotlin/dev/agb/nasmplugin/clion/projectmodel/CompilationDatabaseParser.kt:165-179 | no argument produced is ever empty |
| CommandLine.QuotesDropped | src/main/kotlin/dev/agb/nasmplugin/clion/projectmodel/CompilationDatabaseParser.kt:159-164 | without backslashes, no quote character ever reaches an argument: quotes only toggle quoting |
| CommandLine.RunWithoutEscapes | src/main/kotlin/dev/agb/nasmplugin/clion/projectmodel/CompilationDatabaseParser.kt:153-175 | the loop invariant behind QuotesDropped: no escape pending and no quote in any argument or in the current buffer |
| CommandLine.PlainTokens | src/main/kotlin/dev/agb/nasmplugin/clion/projectmodel/CompilationDatabaseParser.kt:165-173 | without quotes or backslashes, the arguments hold no whitespace and together spell the command minus its whitespace |
| CommandLine.RunPlain | src/main/kotlin/dev/agb/nasmplugin/clion/projectmodel/CompilationDatabaseParser.kt:153-175 | the prefix invariant behind PlainTokens |
| CommandLine.SingleQuotesPlain | src/main/kotlin/dev/agb/nasmplugin/clion/projectmodel/CompilationDatabaseParser.kt:162-164 | `'a b'` splits into `'a` and `b'`: a single quote is an ordinary character for the compilation database |
| CommandLine.SingleQuotesDelimit | src/main/kotlin/dev/agb/nasmplugin/clion/projectmodel/MakeOutputParser.kt:145-147 | `'a b'` is the one argument `a b` for make output, where single quotes also toggle quoting |
| CommandLine.EscapeExample | src/main/kotlin/dev/agb/nasmplugin/clion/projectmodel/CompilationDatabaseParser.kt:155-161 | a backslash is dropped and protects the next character: `a\ b` is the one argument `a b` |
| CommandLine.FirstOutputFlag | src/main/kotlin/dev/agb/nasmplugin/clion/projectmodel/CompilationDatabaseParser.kt:188-205 | the index found is an `-o<f>` or `-o <f>` flag and no earlier index is one |
| CommandLine.OutputFile | src/main/kotlin/dev/agb/nasmplugin/clion/projectmodel/CompilationDatabaseParser.kt:188-205 | no output file iff no argument is an output flag; otherwise it comes from an output flag |
| CommandLine.ExtractOutputFile | src/main/kotlin/dev/agb/nasmplugin/clion/projectmodel/MakeOutputParser.kt:184-199 | the `while` loop returns the first joined or separate `-o` occurrence, as OutputFile specifies |
| CompilationDatabase.StripTrailingSlashes | src/main/kotlin/dev/agb/nasmplugin/clion/projectmodel/CompilationDatabaseParser.kt:87 | `java.io.File` drops the trailing `/`s of a path: what is left is a prefix followed only by `/`s, and it does not end in `/` |
| CompilationDatabase.LastSegment | src/main/kotlin/dev/agb/nasmplugin/clion/projectmodel/CompilationDatabaseParser.kt:87 | the slash-free tail of a path after its last `/`; non-empty when the path does not end in `/` |
| CompilationDatabase.FileName | src/main/kotlin/dev/agb/nasmplugin/clion/projectmodel/CompilationDatabaseParser.kt:87 | `File(path).name` is the slash-free last segment of the path once trailing `/`s are dropped, and it is empty only for a path made of `/`s |
| CompilationDatabase.LastSegmentWhole | src/main/kotlin/dev/agb/nasmplugin/clion/projectmodel/CompilationDatabaseParser.kt:87 | a path without `/` is its own name |
| CompilationDatabase.DirectoryName | src/main/kotlin/dev/agb/nasmplugin/clion/projectmodel/CompilationDatabaseParser.kt:87 | a name followed by `/` still names that file |
| CompilationDatabase.TrailingSlashExtension | src/main/kotlin/dev/agb/nasmplugin/clion/projectmodel/CompilationDatabaseParser.kt:87-88 | a path `base.ext/` has name `base.ext` and extension `ext`, so its entry is still recognized by extension |
| CompilationDatabase.LastIndexOfAt | src/main/kotlin/dev/agb/nasmplugin/clion/projectmodel/CompilationDatabaseParser.kt:88 | the last `.` of `a.b` is the one after `a` when `b` has none |
| CompilationDatabase.Extension | src/main/kotlin/dev/agb/nasmplugin/clion/projectmodel/CompilationDatabaseParser.kt:88 | the extension holds no dot or slash and, when non-empty, ends the file name after a dot |
| CompilationDatabase.NameExtension | src/main/kotlin/dev/agb/nasmplugin/clion/projectmodel/CompilationDatabaseParser.kt:88 | the text after the last dot of a file name |
| CompilationDatabase.LastIndexOf | src/main/kotlin/dev/agb/nasmplugin/clion/projectmodel/CompilationDatabaseParser.kt:88 | the index holds the character and no later index does; none means the character is absent |
| CompilationDatabase.AfterCompiler | src/main/kotlin/dev/agb/nasmplugin/clion/projectmodel/CompilationDatabaseParser.kt:112-114 | nothing when no argument mentions nasm; otherwise exactly what follows the first one that does |
| CompilationDatabase.CompilerArgumentsFollowExecutable | src/main/kotlin/dev/agb/nasmplugin/clion/projectmodel/CompilationDatabaseParser.kt:112-114 | the arguments up to and including the first one containing "nasm" are dropped |
| CompilationDatabase.ParseNasmEntry | src/main/kotlin/dev/agb/nasmplugin/clion/projectmodel/CompilationDatabaseParser.kt:101-127 | an entry yields an info iff its source file resolves, and the info is keyed by that file |
| CompilationDatabase.ParseNasmEntrySpec | src/main/kotlin/dev/agb/nasmplugin/clion/projectmodel/CompilationDatabaseParser.kt:109-125 | compiler arguments are the arguments after the nasm executable minus the source file (both spellings); the output file is the entry's own, else the first `-o` |
| CompilationDatabase.NasmEntries | src/main/kotlin/dev/agb/nasmplugin/clion/projectmodel/CompilationDatabaseParser.kt:59-64 | only entries passing the NASM test whose file resolves are kept, each keyed by its own file |
| CompilationDatabase.ParseDatabase | src/main/kotlin/dev/agb/nasmplugin/clion/projectmodel/CompilationDatabaseParser.kt:59-72 | no NASM entries gives null; otherwise the map of the entries, a later entry for a file replacing an earlier one |
| CompilationInfo.NasmProjectCompilationInfo.GetCompilationInfo | src/main/kotlin/dev/agb/nasmplugin/clion/projectmodel/NasmCompilationInfo.kt:120 | a plain map lookup: found iff the file is compiled, with its arguments unchanged |
| CompilationInfo.NasmProjectCompilationInfo.CompiledFiles | src/main/kotlin/dev/agb/nasmplugin/clion/projectmodel/NasmCompilationInfo.kt:125 | the compiled files are exactly those getCompilationInfo finds |
| CompilationInfo.ResolveToAbsolute | src/main/kotlin/dev/agb/nasmplugin/clion/projectmodel/NasmCompilationInfo.kt:70-76 | the result is normalized; absolute paths are only normalized; relative ones become absolute under an absolute working directory |
| CompilationInfo.ExtractIncludePaths | src/main/kotlin/dev/agb/nasmplugin/clion/projectmodel/NasmCompilationInfo.kt:39-64 | the `while` loop filling the ordered set yields the distinct `-I`/`-i` directories in first-occurrence order |
| CompilationInfo.AddPath | src/main/kotlin/dev/agb/nasmplugin/clion/projectmodel/NasmCompilationInfo.kt:48 | one insertion into the ordered set keeps it the distinct view of everything collected |
| CompilationInfo.IncludeDirsNormalized | src/main/kotlin/dev/agb/nasmplugin/clion/projectmodel/NasmCompilationInfo.kt:46-58 | every collected directory is normalized, and absolute under an absolute working directory |
| CompilationInfo.IncludePathsSpec | src/main/kotlin/dev/agb/nasmplugin/clion/projectmodel/NasmCompilationInfo.kt:39-64 | the include paths have no duplicates, lose no directory, are normalized, and are absolute under an absolute working directory |
| CompilationInfo.SeparateFormSkipsNext | src/main/kotlin/dev/agb/nasmplugin/clion/projectmodel/NasmCompilationInfo.kt:55-59 | after a separate `-I` the next argument is the path even when it looks like a flag, and it is not read again |
| CompilationInfo.TrailingFlagIgnored | src/main/kotlin/dev/agb/nasmplugin/clion/projectmodel/NasmCompilationInfo.kt:55 | a lone `-I`/`-i` as the last argument names nothing |
| CompilationInfo.Definition | src/main/kotlin/dev/agb/nasmplugin/clion/projectmodel/NasmCompilationInfo.kt:92-93 | split at the first `=`: no `=` gives the whole text and no value, otherwise name `=` value rebuilds the text |
| CompilationInfo.ExtractMacroDefinitions | src/main/kotlin/dev/agb/nasmplugin/clion/projectmodel/NasmCompilationInfo.kt:83-106 | the `while` loop fills the insertion-ordered map with every `-D` definition, joined or separate |
| CompilationInfo.MacroDefinitionsSpec | src/main/kotlin/dev/agb/nasmplugin/clion/projectmodel/NasmCompilationInfo.kt:83-106 | the map keys are the distinct names in first-definition order, and each name maps to its last value |
| CompilationInfo.LaterDefinitionWins | src/main/kotlin/dev/agb/nasmplugin/clion/projectmodel/NasmCompilationInfo.kt:93-99 | a definition not followed by another of the same name gives the name's value; the defined names are exactly the keys |
| CompilationInfo.DefinitionExamples | src/main/kotlin/dev/agb/nasmplugin/clion/projectmodel/NasmCompilationInfo.kt:90-101 | `-DA=1=2 -D B` defines A as `1=2` and B with no value |
| MakeOutput.NasmIndex | src/main/kotlin/dev/agb/nasmplugin/clion/projectmodel/MakeOutputParser.kt:89-92 | the first token containing "nasm" case-insensitively, or none |
| MakeOutput.SourceFile | src/main/kotlin/dev/agb/nasmplugin/clion/projectmodel/MakeOutputParser.kt:98-105 | the first argument not starting with `-` and ending in .asm/.nasm (case-insensitive); none iff there is no such argument |
| MakeOutput.NasmCommandSpec | src/main/kotlin/dev/agb/nasmplugin/clion/projectmodel/MakeOutputParser.kt:80-125 | no nasm token gives null; an info's arguments are those after nasm minus the source, and its output is the first `-o` |
| MakeOutput.ParseMakeOutput | src/main/kotlin/dev/agb/nasmplugin/clion/projectmodel/MakeOutputParser.kt:46-75 | the loop's map equals the map of the lines' compilations, later entries replacing earlier ones |
| MakeOutput.EnterLine | src/main/kotlin/dev/agb/nasmplugin/clion/projectmodel/MakeOutputParser.kt:55-71 | one iteration extends the map by exactly that line's compilation |
| MakeOutput.SkippedLine | src/main/kotlin/dev/agb/nasmplugin/clion/projectmodel/MakeOutputParser.kt:55-66 | blank lines, `#` comments and lines without "nasm" contribute nothing |
| MakeOutput.LaterLineWins | src/main/kotlin/dev/agb/nasmplugin/clion/projectmodel/MakeOutputParser.kt:70 | a file's entry is the one from the last line compiling it |
| IncludePaths.ResolveSetting | src/main/kotlin/dev/agb/nasmplugin/navigation/NasmFallbackIncludePathResolver.kt:33-37 | absolute settings are returned unchanged; relative ones are resolved against the base and normalized |
| IncludePaths.FallbackIncludePaths | src/main/kotlin/dev/agb/nasmplugin/navigation/NasmFallbackIncludePathResolver.kt:27-38 | no base path gives an empty list; otherwise one resolved entry per setting, in order |
| IncludePaths.FallbackPathsAbsolute | src/main/kotlin/dev/agb/nasmplugin/navigation/NasmFallbackIncludePathResolver.kt:33-37 | under an absolute base every returned path is absolute |
| IncludePaths.MergedIncludePathsSpec | src/main/kotlin/dev/agb/nasmplugin/clion/projectmodel/ProjectModelIncludePathResolver.kt:36-45 | per-file paths come first, there are no duplicates, every input path appears, and without compilation info only the global paths remain |
| ProjectSettings.NasmProjectSettings.constructor | src/main/kotlin/dev/agb/nasmplugin/settings/NasmProjectSettings.kt:31-44 | a fresh state: no include paths, no macros, count 0 |
| ProjectSettings.NasmProjectSettings.SetCommandLineMacros | src/main/kotlin/dev/agb/nasmplugin/settings/NasmProjectSettings.kt:44-48 | stores the value and increments the modification count by one |
| ProjectSettings.NasmProjectSettings.SetIncludePaths | src/main/kotlin/dev/agb/nasmplugin/settings/NasmProjectSettings.kt:31 | replacing the list leaves the count unchanged |
| ProjectSettings.NasmProjectSettings.AddIncludePath | src/main/kotlin/dev/agb/nasmplugin/settings/NasmProjectSettings.kt:31 | mutating the list leaves the count unchanged |
| ProjectSettings.NasmProjectSettings.NotifyChanged | src/main/kotlin/dev/agb/nasmplugin/settings/NasmProjectSettings.kt:63-65 | the count strictly increases, by one, and nothing else changes |
| ProjectSettings.NasmProjectSettings.LoadState | src/main/kotlin/dev/agb/nasmplugin/settings/NasmProjectSettings.kt:52-55 | both fields are copied and the count grows by two (the counting setter, then the explicit bump) |
| CommandLineMacros.DefinitionTextSplits | src/main/kotlin/dev/agb/nasmplugin/settings/CommandLineMacroProvider.kt:24-25 | the definition text ("name value", or the bare name without a value) splits back at its first space into the name and the value |
| CommandLineMacros.ParseMacroDefinition | src/main/kotlin/dev/agb/nasmplugin/settings/CommandLineMacroProvider.kt:146-157 | the trimmed text before the first `=` is the name, the untrimmed rest (absent without `=`, "" for `NAME=`) the value; the result is null iff that name is invalid |
| CommandLineMacros.ParseSettingsEntry | src/main/kotlin/dev/agb/nasmplugin/settings/CommandLineMacroProvider.kt:146-157 | parsing an entry written from a valid macro gives back the macro |
| CommandLineMacros.ParseBareName | src/main/kotlin/dev/agb/nasmplugin/settings/CommandLineMacroProvider.kt:142 | "DEBUG" is DEBUG with no value |
| CommandLineMacros.ParseEmptyValue | src/main/kotlin/dev/agb/nasmplugin/settings/CommandLineMacroProvider.kt:144 | "VERSION=" is VERSION with the empty value, not a missing one |
| CommandLineMacros.ParseRejectsDigitStart | src/main/kotlin/dev/agb/nasmplugin/settings/CommandLineMacroProvider.kt:165-174 | a name starting with a digit is rejected |
| CommandLineMacros.MacrosOf | src/main/kotlin/dev/agb/nasmplugin/settings/CommandLineMacroProvider.kt:133-136 | every macro kept from the trimmed, non-empty comma pieces has a valid name |
| CommandLineMacros.GlobalMacros | src/main/kotlin/dev/agb/nasmplugin/settings/CommandLineMacroProvider.kt:124-137 | every global macro has a valid name, and a blank setting gives none |
| CommandLineMacros.EntryShape | src/main/kotlin/dev/agb/nasmplugin/settings/CommandLineMacroProvider.kt:133-135 | an entry written from a clean macro is non-empty, comma-free and already trimmed, so splitting keeps it whole |
| CommandLineMacros.MacrosOfEntries | src/main/kotlin/dev/agb/nasmplugin/settings/CommandLineMacroProvider.kt:133-136 | the pieces written from clean macros parse back into those macros, in order |
| CommandLineMacros.GlobalMacrosRoundTrip | src/main/kotlin/dev/agb/nasmplugin/settings/CommandLineMacroProvider.kt:124-137 | writing macros as a comma-separated setting and reading it back gives the same macros in the same order |
| CommandLineMacros.FindMacroByName | src/main/kotlin/dev/agb/nasmplugin/settings/CommandLineMacroProvider.kt:183-185 | null iff no macro has exactly that name (case-sensitive); otherwise a listed macro with that name |
| CommandLineMacros.CommandLineMacros | src/main/kotlin/dev/agb/nasmplugin/settings/CommandLineMacroProvider.kt:49-72 | the two `forEach` loops leave the insertion-ordered map whose values are returned: globals put first, then per-file definitions |
| CommandLineMacros.MergedShape | src/main/kotlin/dev/agb/nasmplugin/settings/CommandLineMacroProvider.kt:63-68 | the merged map is keyed by name, has distinct keys in first-insertion order, and maps each name to the per-file macro over the global one |
| CommandLineMacros.PerFileOverridesGlobal | src/main/kotlin/dev/agb/nasmplugin/settings/CommandLineMacroProvider.kt:63-66 | a lookup in the merged list finds the file's own definition when there is one, otherwise the last global macro of that name, otherwise null |
| CommandLineMacros.MergedNames | src/main/kotlin/dev/agb/nasmplugin/settings/CommandLineMacroProvider.kt:63-68 | the merged names are the global names then the file's new names, each once |
| CommandLineMacros.FindInValues | src/main/kotlin/dev/agb/nasmplugin/settings/CommandLineMacroProvider.kt:184 | in a map keyed by name, the first value with a name is the map's entry for it |
| CommandLineMacros.PerFileEntriesMap | src/main/kotlin/dev/agb/nasmplugin/settings/CommandLineMacroProvider.kt:66 | each per-file definition becomes the macro of that name and value |
| CommandLineMacros.PutKeyed | src/main/kotlin/dev/agb/nasmplugin/settings/CommandLineMacroProvider.kt:65 | `mergedMacros[it.name] = it` keeps every key equal to the name of the macro it holds |
| CommandLineMacros.PutAllKeyed | src/main/kotlin/dev/agb/nasmplugin/settings/CommandLineMacroProvider.kt:64-66 | after both loops every key of the merged map is the name of the macro it holds |
| PreprocessorState.ExtractConditionType | src/main/kotlin/dev/agb/nasmplugin/preprocessor/PreprocessorStateEvaluator.kt:275-320 | `%ifdef`/`%elifdef` (compared lower-cased) give Ifdef and `%ifndef`/`%elifndef` give Ifndef, of the referenced name or ""; everything else is an `%if` |
| PreprocessorState.ExtractIgnoresCase | src/main/kotlin/dev/agb/nasmplugin/preprocessor/PreprocessorStateEvaluator.kt:277 | the keyword's case does not matter |
| PreprocessorState.ConditionMeaning | src/main/kotlin/dev/agb/nasmplugin/preprocessor/PreprocessorStateEvaluator.kt:349-379 | an ifdef condition holds iff the name is in the macro map, ifndef is its negation, and a `%if` condition is always unknown |
| PreprocessorState.Conditions | src/main/kotlin/dev/agb/nasmplugin/preprocessor/PreprocessorStateEvaluator.kt:202-230 | one condition result for the `%if` and for each `%elif`, in order |
| PreprocessorState.ConditionsUpTo | src/main/kotlin/dev/agb/nasmplugin/preprocessor/PreprocessorStateEvaluator.kt:228-230 | the results of the `%if` and of the first k `%elif`s, each evaluated against the same macros |
| PreprocessorState.KnownCount | src/main/kotlin/dev/agb/nasmplugin/preprocessor/PreprocessorStateEvaluator.kt:207-238 | the leading run of conditions that can be evaluated: all known before it, the next one unknown |
| PreprocessorState.MakeBranch | src/main/kotlin/dev/agb/nasmplugin/preprocessor/PreprocessorStateEvaluator.kt:395-397 | a branch is emitted iff its range is non-empty (end after start), with the given activity and type |
| PreprocessorState.ElifFlags | src/main/kotlin/dev/agb/nasmplugin/preprocessor/PreprocessorStateEvaluator.kt:240-244 | one activity flag per `%elif` |
| PreprocessorState.FlagAt | src/main/kotlin/dev/agb/nasmplugin/preprocessor/PreprocessorStateEvaluator.kt:240-244 | an `%elif` is active iff its condition holds and no earlier branch's condition did |
| PreprocessorState.BlockBranchesStopped | src/main/kotlin/dev/agb/nasmplugin/preprocessor/PreprocessorStateEvaluator.kt:234-238 | an unknown `%elif` condition stops the block but keeps the `%if` and earlier `%elif` branches already emitted |
| PreprocessorState.BlockBranchesComplete | src/main/kotlin/dev/agb/nasmplugin/preprocessor/PreprocessorStateEvaluator.kt:211-269 | with every condition known: the `%if` branch, every `%elif` branch, then the `%else` branch, active iff no condition held |
| PreprocessorState.EvaluateConditionalBlock | src/main/kotlin/dev/agb/nasmplugin/preprocessor/PreprocessorStateEvaluator.kt:192-270 | the loop with its running `activeBranchFound` flag emits exactly the branches BlockBranches specifies (none at all for an unknown `%if`) |
| PreprocessorState.ScanStep | src/main/kotlin/dev/agb/nasmplugin/preprocessor/PreprocessorStateEvaluator.kt:228-256 | one known `%elif` keeps the loop invariant: the flag says whether some condition held so far |
| PreprocessorState.NoneTrueStep | src/main/kotlin/dev/agb/nasmplugin/preprocessor/PreprocessorStateEvaluator.kt:240-244 | `!activeBranchFound && result` is exactly "first to hold", and the flag update tracks "none held yet" |
| PreprocessorState.MarkAllBranchesInactive | src/main/kotlin/dev/agb/nasmplugin/preprocessor/PreprocessorStateEvaluator.kt:429-474 | emits the block's non-empty branches, each inactive |
| PreprocessorState.InactiveParentBranches | src/main/kotlin/dev/agb/nasmplugin/preprocessor/PreprocessorStateEvaluator.kt:149-153 | under an inactive parent no branch is active (lines 429-474 also) |
| PreprocessorState.InactiveSameBranches | src/main/kotlin/dev/agb/nasmplugin/preprocessor/PreprocessorStateEvaluator.kt:429-474 | when every condition is known, the inactive marking emits the same ranges as the evaluation, only deactivated |
| PreprocessorState.AtMostOneActive | src/main/kotlin/dev/agb/nasmplugin/preprocessor/PreprocessorStateEvaluator.kt:211-269 | at most one branch of a block is ever active |
| PreprocessorState.PartsAtMostOne | src/main/kotlin/dev/agb/nasmplugin/preprocessor/PreprocessorStateEvaluator.kt:211-269 | the `%if` branch, the first k `%elif` branches and the `%else` branch hold at most one active branch |
| PreprocessorState.BoundsAtMostOne | src/main/kotlin/dev/agb/nasmplugin/preprocessor/PreprocessorStateEvaluator.kt:214-264 | only the first condition that holds can make its branch active |
| PreprocessorState.FirstTrueIndexSpec | src/main/kotlin/dev/agb/nasmplugin/preprocessor/PreprocessorStateEvaluator.kt:240-244 | "first to hold" picks a single index, and none when no condition holds |
| PreprocessorState.BranchRangesNonEmpty | src/main/kotlin/dev/agb/nasmplugin/preprocessor/PreprocessorStateEvaluator.kt:395-423 | every emitted branch, active or inactive, covers a non-empty range |
| PreprocessorState.ElifRangesNonEmpty | src/main/kotlin/dev/agb/nasmplugin/preprocessor/PreprocessorStateEvaluator.kt:403-412 | every emitted `%elif` branch covers a non-empty range |
| PreprocessorState.EvaluateRecursively | src/main/kotlin/dev/agb/nasmplugin/preprocessor/PreprocessorStateEvaluator.kt:138-187 | the recursive walk updates the macro map and the branch list exactly as the specification WalkOne says |
| PreprocessorState.WalkOneGrows | src/main/kotlin/dev/agb/nasmplugin/preprocessor/PreprocessorStateEvaluator.kt:144-186 | the walk only appends branches and only adds macros, and adds none under an inactive parent |
| PreprocessorState.WalkAllGrows | src/main/kotlin/dev/agb/nasmplugin/preprocessor/PreprocessorStateEvaluator.kt:182-184 | walking children in order only appends branches and only adds macros |
| PreprocessorState.DefineThenIfdef | src/main/kotlin/dev/agb/nasmplugin/preprocessor/PreprocessorStateEvaluator.kt:155-163 | a `%define` seen before a block makes that block's `%ifdef` of the name hold (lines 354-357 also) |
| PreprocessorState.CommandLinePairs | src/main/kotlin/dev/agb/nasmplugin/preprocessor/PreprocessorStateEvaluator.kt:113-119 | each command-line macro becomes a definition marked as from the command line |
| PreprocessorState.InitialMacrosDefined | src/main/kotlin/dev/agb/nasmplugin/preprocessor/PreprocessorStateEvaluator.kt:111-119 | exactly the command-line macros start out defined, each marked as from the command line |
| PreprocessorState.DoEvaluateFile | src/main/kotlin/dev/agb/nasmplugin/preprocessor/PreprocessorStateEvaluator.kt:108-127 | the global command-line macros are entered into the map, then the root is walked as active and its branches returned |
| PsiUtil.FirstNamedIn | src/main/kotlin/dev/agb/nasmplugin/psi/NasmPsiUtil.kt:131-139 | the first label of the range with exactly that name; no earlier label of the range has it, and none means no label there has it |
| PsiUtil.FirstNamed | src/main/kotlin/dev/agb/nasmplugin/psi/NasmPsiUtil.kt:98-117 | without scoping, the first label with the exact name, or none |
| PsiUtil.ParentGlobalLabel | src/main/kotlin/dev/agb/nasmplugin/psi/NasmPsiUtil.kt:145-164 | the last named label before the offset whose name starts neither with `.` nor with `%%`; no later label qualifies |
| PsiUtil.FindLocalLabelInScopeAsWritten | src/main/kotlin/dev/agb/nasmplugin/psi/NasmPsiUtil.kt:169-198 | the `for`/`break`/`continue` loop exactly as written, where the `%%` skip comes after the scope test |
| PsiUtil.ScanAsWritten | src/main/kotlin/dev/agb/nasmplugin/psi/NasmPsiUtil.kt:178-195 | as written, a found label lies at or after the start and has exactly the looked-up name |
| PsiUtil.ScopeEndAsWritten | src/main/kotlin/dev/agb/nasmplugin/psi/NasmPsiUtil.kt:183-186 | as written, the scan stops at the first named label not starting with `.`, a macro-local `%%` label included; unnamed labels pass |
| PsiUtil.ScanAsWrittenMeaning | src/main/kotlin/dev/agb/nasmplugin/psi/NasmPsiUtil.kt:178-195 | as written, looking up `.x` finds the first `.x` between the global label and the next named label not starting with `.` |
| PsiUtil.MacroLocalEndsScopeAsWritten | src/main/kotlin/dev/agb/nasmplugin/psi/NasmPsiUtil.kt:183-190 | as written, the scan from `g` stops at a macro-local label `%%m`, so `g.x` is not found when `.x` follows `%%m` |
| PsiUtil.Scan | src/main/kotlin/dev/agb/nasmplugin/psi/NasmPsiUtil.kt:178-195 | in the corrected scan, with the `%%` skip before the scope test, a found label lies at or after the start and has exactly the looked-up name |
| PsiUtil.FindLocalLabelInScope | src/main/kotlin/dev/agb/nasmplugin/psi/NasmPsiUtil.kt:169-198 | the corrected loop, which skips `%%` labels before the scope test, computes LocalInScope |
| PsiUtil.ScopeEnd | src/main/kotlin/dev/agb/nasmplugin/psi/NasmPsiUtil.kt:187-190 | the intended scope end, with the `%%` skip in effect: the first following label that is global (named, starting neither with `.` nor with `%%`); unnamed and macro-local labels pass. This is the corrected half of the `%%` finding |
| PsiUtil.ScanMeaning | src/main/kotlin/dev/agb/nasmplugin/psi/NasmPsiUtil.kt:187-190 | with the `%%` skip moved before the scope test, looking up `.x` finds the first `.x` between the global label and the intended scope end |
| PsiUtil.LocalPart | src/main/kotlin/dev/agb/nasmplugin/psi/NasmPsiUtil.kt:92-95 | the local part of `g.loc` is a dot followed by the text after the first dot |
| PsiUtil.FindLabelDefinition | src/main/kotlin/dev/agb/nasmplugin/psi/NasmPsiUtil.kt:80-118 | as written: a found label has the name looked up (or, for `g.loc`, the local part); a `%%` name inside a macro is only found among that macro's labels |
| PsiUtil.QualifiedLookup | src/main/kotlin/dev/agb/nasmplugin/psi/NasmPsiUtil.kt:91-104 | `g.loc` splits at the first `.` and is the first `.loc` after the first label `g` and before the next named label not starting with `.`, a `%%` label included |
| PsiUtil.LocalLookup | src/main/kotlin/dev/agb/nasmplugin/psi/NasmPsiUtil.kt:107-114 | `.x` with a context is searched after the last preceding global label, up to the next named label not starting with `.`, a `%%` label included |
| PsiUtil.PlainLookup | src/main/kotlin/dev/agb/nasmplugin/psi/NasmPsiUtil.kt:117 | a name without a dot, outside a macro context, is the first label with that exact name |
| PsiUtil.FindLabelDefinitionCorrected | src/main/kotlin/dev/agb/nasmplugin/psi/NasmPsiUtil.kt:80-118 | the lookup with the `%%` skip in effect: a found label has the name looked up (or the local part of `g.loc`), and a `%%` name inside a macro is only found among its labels |
| PsiUtil.QualifiedLookupCorrected | src/main/kotlin/dev/agb/nasmplugin/psi/NasmPsiUtil.kt:91-104 | with the `%%` skip in effect, `g.loc` is the first `.loc` between the first `g` and the next global label |
| PsiUtil.LocalLookupCorrected | src/main/kotlin/dev/agb/nasmplugin/psi/NasmPsiUtil.kt:107-114 | with the `%%` skip in effect, `.x` is searched in the whole scope of the last preceding global label |
| PsiUtil.ScansAgree | src/main/kotlin/dev/agb/nasmplugin/psi/NasmPsiUtil.kt:178-195 | from a start with no macro-local label after it, the scan as written and the corrected one find the same label |
| PsiUtil.LookupsAgree | src/main/kotlin/dev/agb/nasmplugin/psi/NasmPsiUtil.kt:80-118 | in a file without macro-local labels the lookup as written and the corrected lookup agree, so the `%%` finding matters only when such a label sits in a scope |
| PsiUtil.GDotX | src/main/kotlin/dev/agb/nasmplugin/psi/NasmPsiUtil.kt:91-95 | `g.x` is qualified, with global part `g` and local part `.x` |
| PsiUtil.MacroLocalSkipped | src/main/kotlin/dev/agb/nasmplugin/psi/NasmPsiUtil.kt:187-190 | with the corrected scan, `g.x` is found past the macro-local label |
| PsiUtil.SampleShape | src/main/kotlin/dev/agb/nasmplugin/psi/NasmPsiUtil.kt:157-162 | the sample file's labels and which of them are global |
| PsiUtil.LocalLookupExample | src/main/kotlin/dev/agb/nasmplugin/psi/NasmPsiUtil.kt:107-114 | `.loop` referenced inside `other` is `other`'s `.loop`, not `main`'s |
| PsiUtil.MainDotLoop | src/main/kotlin/dev/agb/nasmplugin/psi/NasmPsiUtil.kt:91-95 | `main.loop` splits into `main` and `.loop` |
| PsiUtil.QualifiedLookupExample | src/main/kotlin/dev/agb/nasmplugin/psi/NasmPsiUtil.kt:91-104 | `main.loop` finds `main`'s `.loop` from anywhere |
| PsiUtil.StripQuotes | src/main/kotlin/dev/agb/nasmplugin/psi/NasmPsiUtil.kt:281-286 | text of length at least 2 starting with `"` or `'` loses exactly its first and last characters; other text is kept |
| PsiUtil.GetIncludePath | src/main/kotlin/dev/agb/nasmplugin/psi/NasmPsiUtil.kt:253-287 | null only without an argument; `<NAME>` gives the bare name |
| PsiUtil.QuotedPathRoundTrip | src/main/kotlin/dev/agb/nasmplugin/psi/NasmPsiUtil.kt:283-285 | a path between matching quotes of either kind comes back as written |
| PsiUtil.UnquotedPathKept | src/main/kotlin/dev/agb/nasmplugin/psi/NasmPsiUtil.kt:286 | an unquoted token is taken as it stands |
| PsiUtil.IncludeCollector.constructor | src/main/kotlin/dev/agb/nasmplugin/psi/NasmPsiUtil.kt:333-334 | empty visited set and empty result |
| PsiUtil.IncludeCollector.Collect | src/main/kotlin/dev/agb/nasmplugin/psi/NasmPsiUtil.kt:344-359 | returns at once on a visited file; otherwise marks it visited, and afterwards everything it includes is visited, the result only grows and holds each file once |
| PsiUtil.IncludeCollector.CollectIncludes | src/main/kotlin/dev/agb/nasmplugin/psi/NasmPsiUtil.kt:348-358 | after the loop over a file's includes, every resolved include of it is visited |
| PsiUtil.IncludeCollector.CollectInclude | src/main/kotlin/dev/agb/nasmplugin/psi/NasmPsiUtil.kt:349-357 | one include statement keeps the loop's progress invariant |
| PsiUtil.IncludeCollector.Visit | src/main/kotlin/dev/agb/nasmplugin/psi/NasmPsiUtil.kt:352-356 | an unvisited included file is appended to the result and then collected recursively |
| PsiUtil.Append | src/main/kotlin/dev/agb/nasmplugin/psi/NasmPsiUtil.kt:352-353 | appending a newly included, unvisited file keeps the result duplicate-free and root-free |
| PsiUtil.Discover | src/main/kotlin/dev/agb/nasmplugin/psi/NasmPsiUtil.kt:352-353 | each appended file is included by the root or by an earlier result file |
| PsiUtil.DiscoveredReached | src/main/kotlin/dev/agb/nasmplugin/psi/NasmPsiUtil.kt:344-359 | every collected file is reachable from the root |
| PsiUtil.ClosedHoldsReach | src/main/kotlin/dev/agb/nasmplugin/psi/NasmPsiUtil.kt:344-359 | the final visited set, which holds the root and is closed under includes, holds every reachable file |
| PsiUtil.IncludedFiles | src/main/kotlin/dev/agb/nasmplugin/psi/NasmPsiUtil.kt:331-342 | the result holds each file at most once, never the root, and exactly the files reachable from the root, also when includes form cycles |
| NamedElements.FirstPerNameSpec | src/main/kotlin/dev/agb/nasmplugin/psi/NasmPsiUtil.kt:67-72 | only the first `%assign` per name is kept: the kept names are the distinct names in first-appearance order, each kept element is the first of its name |
| NamedElements.FirstPerNameAfterNames | src/main/kotlin/dev/agb/nasmplugin/psi/NasmPsiUtil.kt:67-72 | the names kept are the distinct names, in the order they first appear |
| NamedElements.FirstPerNameAfterKeepsFirsts | src/main/kotlin/dev/agb/nasmplugin/psi/NasmPsiUtil.kt:70-71 | every kept element is the first of its name among the `%assign`s |
| NamedElements.ReassignedOnce | src/main/kotlin/dev/agb/nasmplugin/psi/NasmPsiUtil.kt:67-72 | two `%assign`s of one name yield only the first |
| NamedElements.AllNamedElements | src/main/kotlin/dev/agb/nasmplugin/psi/NasmPsiUtil.kt:61-74 | labels, equs, macros and `%define`s come first in that order, each in file order, and externs last; the `%assign`s kept sit between |
| NamedElements.AllNamedElementsSpec | src/main/kotlin/dev/agb/nasmplugin/psi/NasmPsiUtil.kt:61-74 | every label, equ, macro, `%define` and extern is listed, nothing but `%assign`s besides, and one `%assign` per distinct name |
| Documents.LineOrder | src/main/kotlin/dev/agb/nasmplugin/editor/NasmFoldingBuilder.kt:59 | line numbers never decrease along the text, and the line number of a later offset is larger exactly when a line break lies between the two offsets |
| Documents.LineBreaks | src/main/kotlin/dev/agb/nasmplugin/editor/NasmFoldingBuilder.kt:83 | for offsets in either order, "starts on an earlier line" holds exactly when a line break lies between them |
| Documents.LastBreakBefore | src/main/kotlin/dev/agb/nasmplugin/editor/NasmEnterHandler.kt:63-69 | the result is a `\n` before the offset with no later break up to the offset; none means the offset is on the first line |
| Documents.LineStart | src/main/kotlin/dev/agb/nasmplugin/editor/NasmEnterHandler.kt:69 | the line start is at or before the offset, is the text start or follows a `\n`, and no break lies between it and the offset |
| Documents.LineStartSameLine | src/main/kotlin/dev/agb/nasmplugin/editor/NasmEnterHandler.kt:63-64 | a line start has the line number of its offset; line 0 is exactly the case with no earlier break |
| Documents.LineStartUnique | src/main/kotlin/dev/agb/nasmplugin/editor/NasmEnterHandler.kt:69 | any offset with the three line-start properties is the line start |
| Documents.NextLine | src/main/kotlin/dev/agb/nasmplugin/editor/NasmEnterHandler.kt:68 | the offset after a `\n` is exactly one line further down |
| Folding.MacroFold | src/main/kotlin/dev/agb/nasmplugin/editor/NasmFoldingBuilder.kt:54-70 | a macro folds exactly when it spans a line break, over its whole range, with placeholder `%macro <name>...` (or `macro` when unnamed) |
| Folding.RepFold | src/main/kotlin/dev/agb/nasmplugin/editor/NasmFoldingBuilder.kt:123-138 | a `%rep` block folds exactly when it spans a line break, over its range, with placeholder `%rep...` |
| Folding.ConditionHead | src/main/kotlin/dev/agb/nasmplugin/editor/NasmFoldingBuilder.kt:84 | the head is the first 20 characters (or all of a shorter text), position by position, with every `\n` turned into a space, so it holds no `\n` |
| Folding.ConditionalFold | src/main/kotlin/dev/agb/nasmplugin/editor/NasmFoldingBuilder.kt:75-95 | a conditional folds exactly when its `%endif` was found and a line break lies between the `%if` start and the `%endif` end; placeholder is the condition head and `...` |
| Folding.SectionFold | src/main/kotlin/dev/agb/nasmplugin/editor/NasmFoldingBuilder.kt:100-118 | a section folds from the end of its directive to the next section or the end of file, exactly when that is non-empty and a line break lies before its last character; placeholder `section <name>...` |
| Folding.DepthStep | src/main/kotlin/dev/agb/nasmplugin/editor/NasmFoldingBuilder.kt:197-208 | the nesting depth starts at 1 and each `%if` adds one, each `%endif` subtracts one, anything else leaves it |
| Folding.FindEndif | src/main/kotlin/dev/agb/nasmplugin/editor/NasmFoldingBuilder.kt:196-212 | a found `%endif` is the first sibling where the depth reaches 0; none found means the depth stays positive to the end |
| Folding.FindNextSection | src/main/kotlin/dev/agb/nasmplugin/editor/NasmFoldingBuilder.kt:217-228 | the result is a section directive and no sibling before it is one; none means no later sibling is |
| Folding.InsertByStart | src/main/kotlin/dev/agb/nasmplugin/editor/NasmFoldingBuilder.kt:150 | inserting into a sorted list keeps it sorted by start offset and adds exactly the one element |
| Folding.HeadBound | src/main/kotlin/dev/agb/nasmplugin/editor/NasmFoldingBuilder.kt:150 | an element starting no later than the inserted one and than all the others starts no later than anything in the result of the insertion |
| Folding.SortedCons | src/main/kotlin/dev/agb/nasmplugin/editor/NasmFoldingBuilder.kt:150 | an element starting no later than every element of a sorted list can be put in front of it |
| Folding.SortByStart | src/main/kotlin/dev/agb/nasmplugin/editor/NasmFoldingBuilder.kt:150 | `sortedBy` start offset yields a sorted permutation of the data definitions |
| Folding.Closed | src/main/kotlin/dev/agb/nasmplugin/editor/NasmFoldingBuilder.kt:164-167 | a closed run yields one block exactly when it has at least three definitions, from its first to its last |
| Folding.LastRun | src/main/kotlin/dev/agb/nasmplugin/editor/NasmFoldingBuilder.kt:175-178 | the block closed at the end of the definitions is exactly the final maximal run of three or more |
| Folding.ClosedRun | src/main/kotlin/dev/agb/nasmplugin/editor/NasmFoldingBuilder.kt:163-171 | the block closed before a definition that does not join is exactly a maximal run of three or more ending there |
| Folding.BlocksSpec | src/main/kotlin/dev/agb/nasmplugin/editor/NasmFoldingBuilder.kt:150-178 | the blocks found from a run start on are exactly the maximal runs of three or more starting there or later |
| Folding.DataBlocksSpec | src/main/kotlin/dev/agb/nasmplugin/editor/NasmFoldingBuilder.kt:143-179 | data blocks are exactly the runs of at least three definitions, each within one line of the previous, that cannot be extended at either end |
| Folding.BlocksInOrder | src/main/kotlin/dev/agb/nasmplugin/editor/NasmFoldingBuilder.kt:150-178 | the blocks come in document order, each ending before the next begins |
| Folding.DataBlocksInOrder | src/main/kotlin/dev/agb/nasmplugin/editor/NasmFoldingBuilder.kt:143-179 | the data blocks of a file come in document order without overlap |
| Folding.BlocksInRange | src/main/kotlin/dev/agb/nasmplugin/editor/NasmFoldingBuilder.kt:150-178 | every block lies within the sorted definitions |
| Folding.BlockFolds | src/main/kotlin/dev/agb/nasmplugin/editor/NasmFoldingBuilder.kt:181-191 | one fold per block |
| Folding.BlockFoldsSpec | src/main/kotlin/dev/agb/nasmplugin/editor/NasmFoldingBuilder.kt:181-191 | each block's fold runs from the start of its first definition to the end of its last, with placeholder `data block...` |
| Folding.BlockFoldsAppend | src/main/kotlin/dev/agb/nasmplugin/editor/NasmFoldingBuilder.kt:181-191 | folds of appended block lists are the appended folds |
| Folding.AddDataBlockFolding | src/main/kotlin/dev/agb/nasmplugin/editor/NasmFoldingBuilder.kt:143-179 | the loop's folds are the folds of the data blocks of the definitions sorted by start |
| Folding.FoldRuns | src/main/kotlin/dev/agb/nasmplugin/editor/NasmFoldingBuilder.kt:151-178 | the `forEach` over the sorted definitions followed by the closing of the last run yields exactly the folds of the data blocks |
| Folding.ScanStep | src/main/kotlin/dev/agb/nasmplugin/editor/NasmFoldingBuilder.kt:151-172 | one iteration keeps the scan state: the folds so far are those of the blocks closed before the open run |
| Folding.StartScan | src/main/kotlin/dev/agb/nasmplugin/editor/NasmFoldingBuilder.kt:151-154 | the first definition opens a run of one |
| Folding.ExtendBlock | src/main/kotlin/dev/agb/nasmplugin/editor/NasmFoldingBuilder.kt:160-162 | a definition within one line of the run's end extends the run |
| Folding.CloseBlock | src/main/kotlin/dev/agb/nasmplugin/editor/NasmFoldingBuilder.kt:163-171 | a definition that does not join closes the run (folding it when it has three or more) and opens a new run of one |
| Folding.CloseRun | src/main/kotlin/dev/agb/nasmplugin/editor/NasmFoldingBuilder.kt:163-171 | closing a run before a definition that does not join it moves that run's fold, if it has one, from the pending blocks to the folds found |
| Folding.LastBlock | src/main/kotlin/dev/agb/nasmplugin/editor/NasmFoldingBuilder.kt:175-178 | closing the last run completes exactly the folds of all data blocks |
| Folding.ClosedFolds | src/main/kotlin/dev/agb/nasmplugin/editor/NasmFoldingBuilder.kt:165-167 | a closed run contributes one fold when it has three or more definitions and none otherwise |
| EnterHandler.MacroDefinitionShape | src/main/kotlin/dev/agb/nasmplugin/editor/NasmEnterHandler.kt:74 | every line `%macro`, spaces, a word, spaces, anything matches `^%macro\s+\w+\s+.*` |
| EnterHandler.MacroLineFromRuns | src/main/kotlin/dev/agb/nasmplugin/editor/NasmEnterHandler.kt:74 | the greedy runs of spaces, word characters and spaces after `%macro` decide the macro regex |
| EnterHandler.KeywordIsWord | src/main/kotlin/dev/agb/nasmplugin/editor/NasmEnterHandler.kt:96 | every `%if` alternative is a non-empty word |
| EnterHandler.IfAlternationIsWord | src/main/kotlin/dev/agb/nasmplugin/editor/NasmEnterHandler.kt:96 | a line matches the `%(if|ifdef|…)\b` alternation exactly when the word after its `%` is one of the alternatives |
| EnterHandler.WordAlternative | src/main/kotlin/dev/agb/nasmplugin/editor/NasmEnterHandler.kt:96 | a line whose directive word is an alternative matches that alternative followed by a word boundary |
| EnterHandler.AlternativeWord | src/main/kotlin/dev/agb/nasmplugin/editor/NasmEnterHandler.kt:96 | a line matching an alternative with a word boundary has that alternative as its directive word |
| EnterHandler.Effect | src/main/kotlin/dev/agb/nasmplugin/editor/NasmEnterHandler.kt:148-151 | a trimmed line changes the nesting level by -1, 0 or +1 |
| EnterHandler.LineEndFrom | src/main/kotlin/dev/agb/nasmplugin/editor/NasmEnterHandler.kt:144 | `indexOf('\n', pos)` or the text end: the first `\n` at or after pos |
| EnterHandler.Effects | src/main/kotlin/dev/agb/nasmplugin/editor/NasmEnterHandler.kt:142-154 | one nesting effect per line |
| EnterHandler.EffectsAt | src/main/kotlin/dev/agb/nasmplugin/editor/NasmEnterHandler.kt:142-154 | the k-th effect is that of the k-th line |
| EnterHandler.HasMatchingEnd | src/main/kotlin/dev/agb/nasmplugin/editor/NasmEnterHandler.kt:134-184 | true exactly when the nesting level, starting at 1, reaches 0 on some line below the opener |
| EnterHandler.ScanNesting | src/main/kotlin/dev/agb/nasmplugin/editor/NasmEnterHandler.kt:139-156 | the line-by-line loop returns true exactly when the running level reaches zero |
| EnterHandler.ReadLine | src/main/kotlin/dev/agb/nasmplugin/editor/NasmEnterHandler.kt:143-153 | one iteration reads the next line, applies its effect and moves past its `\n`, keeping the scan invariant |
| EnterHandler.ScanDone | src/main/kotlin/dev/agb/nasmplugin/editor/NasmEnterHandler.kt:142-156 | when the loop stops, a zero level means the level reached zero |
| EnterHandler.ScanLine | src/main/kotlin/dev/agb/nasmplugin/editor/NasmEnterHandler.kt:144-153 | the text up to the next `\n` is the next line of the list |
| EnterHandler.LinesFromStep | src/main/kotlin/dev/agb/nasmplugin/editor/NasmEnterHandler.kt:144-153 | the lines from pos are the line up to the next `\n` followed by the lines after it |
| EnterHandler.HasMatchingEndMacro | src/main/kotlin/dev/agb/nasmplugin/editor/NasmEnterHandler.kt:134-157 | true exactly when the `%macro`/`%endmacro` nesting below the line closes |
| EnterHandler.HasMatchingEndIf | src/main/kotlin/dev/agb/nasmplugin/editor/NasmEnterHandler.kt:162-184 | true exactly when the `%if`-family/`%endif` nesting below the line closes |
| EnterHandler.ClosedByNextLine | src/main/kotlin/dev/agb/nasmplugin/editor/NasmEnterHandler.kt:142-156 | a closing line directly below closes the block |
| EnterHandler.NeverBelowOne | src/main/kotlin/dev/agb/nasmplugin/editor/NasmEnterHandler.kt:139-156 | with no closing line the level stays at least one |
| EnterHandler.NeverClosed | src/main/kotlin/dev/agb/nasmplugin/editor/NasmEnterHandler.kt:134-157 | without any closing line below, the block is never closed |
| EnterHandler.GetIndent | src/main/kotlin/dev/agb/nasmplugin/editor/NasmEnterHandler.kt:123-129 | the indent is the longest whitespace prefix of the line |
| EnterHandler.Indent | src/main/kotlin/dev/agb/nasmplugin/editor/NasmEnterHandler.kt:123-129 | the indentation is a whitespace prefix not followed by whitespace |
| EnterHandler.IndentUnique | src/main/kotlin/dev/agb/nasmplugin/editor/NasmEnterHandler.kt:123-129 | only one prefix has those properties, so the method and the function agree |
| EnterHandler.PreviousLine | src/main/kotlin/dev/agb/nasmplugin/editor/NasmEnterHandler.kt:62-71 | a previous line exists exactly off line 0; it ends at the `\n` just before the caret's line start and starts at its own line start |
| EnterHandler.InsertionShape | src/main/kotlin/dev/agb/nasmplugin/editor/NasmEnterHandler.kt:78-86 | an insertion is the indent, `\n`, indent and closing directive at the start of the next line, caret after the first indent |
| EnterHandler.ClosingLines | src/main/kotlin/dev/agb/nasmplugin/editor/NasmEnterHandler.kt:82-86 | after insertion, the caret ends an indented empty line and the indented closing directive is on the line below |
| EnterHandler.NoInsertionWhenClosed | src/main/kotlin/dev/agb/nasmplugin/editor/NasmEnterHandler.kt:76-98 | nothing is inserted when the block is already closed further down |
| EnterHandler.Editor.constructor | src/main/kotlin/dev/agb/nasmplugin/editor/NasmEnterHandler.kt:59-60 | the editor holds the document text and a caret within it |
| EnterHandler.Editor.PostProcessEnter | src/main/kotlin/dev/agb/nasmplugin/editor/NasmEnterHandler.kt:50-118 | Stop exactly when an insertion is planned (macro first, then `%if`), the document and caret then being updated by it; otherwise nothing changes |
| EnterHandler.Editor.InsertClosing | src/main/kotlin/dev/agb/nasmplugin/editor/NasmEnterHandler.kt:74-92 | inserts the closing block for one kind when the line opens an unclosed block, and reports whether it did |
| EnterHandler.Editor.Insert | src/main/kotlin/dev/agb/nasmplugin/editor/NasmEnterHandler.kt:83-86 | the text gains the insertion at its offset and the caret moves to the planned spot |
| Completion.OfferOf | src/main/kotlin/dev/agb/nasmplugin/completion/CompletionContext.kt:30-127 | each context's symbol kinds and flags: only DataOperand and General allow every kind, only AfterPercent allows none, externs only in extern/line-start/data/general, registers only in memory/data/general, instructions only at line start and in general, directives only at line start, after `%` and in general, preprocessor functions only in memory/data/after-`%`/general |
| Completion.OfferRanking | src/main/kotlin/dev/agb/nasmplugin/completion/CompletionContext.kt:58-127 | command-line macros are offered only where every kind is, and General's user-symbol priority (850) exceeds every other context's |
| Completion.LineTextBeforeCursor | src/main/kotlin/dev/agb/nasmplugin/completion/CompletionContextDetector.kt:142-151 | the text before the caret on its line: a suffix of the text up to the caret, holding no `\n`, starting at the text start or after a `\n` |
| Completion.WalkToLineStart | src/main/kotlin/dev/agb/nasmplugin/completion/CompletionContextDetector.kt:145-148 | the backward walk stops at the caret's line start |
| Completion.GetLineTextBeforeCursor | src/main/kotlin/dev/agb/nasmplugin/completion/CompletionContextDetector.kt:142-151 | returns the line's text before the caret, empty at offset 0 |
| Completion.IsInsideBrackets | src/main/kotlin/dev/agb/nasmplugin/completion/CompletionContextDetector.kt:156-175 | true exactly when the caret is past offset 0 and more `[` than `]` precede it on its line |
| Completion.LabelEnd | src/main/kotlin/dev/agb/nasmplugin/completion/CompletionContextDetector.kt:56 | a found end is right after a `[.a-zA-Z_][a-zA-Z0-9_]*:` label at the line start |
| Completion.InstructionLineIsRegex | src/main/kotlin/dev/agb/nasmplugin/completion/CompletionContextDetector.kt:56-103 | the left-to-right reading of an optional label, spaces, a mnemonic, spaces and a non-space operand matches exactly when some split of the line matches the regex |
| Completion.ReadingIsSplit | src/main/kotlin/dev/agb/nasmplugin/completion/CompletionContextDetector.kt:56-103 | a line the reading accepts has a split matching the regex |
| Completion.FromIsSplit | src/main/kotlin/dev/agb/nasmplugin/completion/CompletionContextDetector.kt:56-103 | the runs read from a label end give a split |
| Completion.SplitIsReading | src/main/kotlin/dev/agb/nasmplugin/completion/CompletionContextDetector.kt:56-103 | any split matching the regex is found by the reading |
| Completion.OperandAt | src/main/kotlin/dev/agb/nasmplugin/completion/CompletionContextDetector.kt:56 | spaces followed by a space-free rest read as `\s+\S*$` |
| Completion.MnemonicAt | src/main/kotlin/dev/agb/nasmplugin/completion/CompletionContextDetector.kt:56 | a letter run accepted as mnemonic, then the operand part, reads as a mnemonic |
| Completion.SpacesThenMnemonic | src/main/kotlin/dev/agb/nasmplugin/completion/CompletionContextDetector.kt:56 | spaces before a mnemonic read as `\s*` and the instruction |
| Completion.LabelEndIs | src/main/kotlin/dev/agb/nasmplugin/completion/CompletionContextDetector.kt:56 | a label at the line start is the one found |
| Completion.KeywordThenTextIsRegex | src/main/kotlin/dev/agb/nasmplugin/completion/CompletionContextDetector.kt:69-83 | `KEYWORD\s+.*$` holds exactly when the line starts with the keyword and at least one space follows before line text |
| Completion.KeywordAloneOnTrimmed | src/main/kotlin/dev/agb/nasmplugin/completion/CompletionContextDetector.kt:70-84 | on a trimmed line `KEYWORD\s*$` means the line is the keyword alone |
| Completion.JumpLineIsDataLine | src/main/kotlin/dev/agb/nasmplugin/completion/CompletionContextDetector.kt:56-105 | every jump-target line also satisfies the data-operand rule, which only precedence overrides |
| Completion.InsertPermutes | src/main/kotlin/dev/agb/nasmplugin/completion/CompletionContextDetector.kt:133 | inserting a rule adds just that rule |
| Completion.InsertKeepsOrder | src/main/kotlin/dev/agb/nasmplugin/completion/CompletionContextDetector.kt:133 | inserting into rules ordered by descending precedence keeps the order |
| Completion.ConsInOrder | src/main/kotlin/dev/agb/nasmplugin/completion/CompletionContextDetector.kt:133 | a rule of precedence at least the first's can head an ordered list |
| Completion.SortSpec | src/main/kotlin/dev/agb/nasmplugin/completion/CompletionContextDetector.kt:133 | `sortedByDescending` yields a permutation ordered by descending precedence |
| Completion.SortKeepsOrdered | src/main/kotlin/dev/agb/nasmplugin/completion/CompletionContextDetector.kt:133 | the sort is stable: ordered rules stay as they are |
| Completion.RulesInOrder | src/main/kotlin/dev/agb/nasmplugin/completion/CompletionContextDetector.kt:25-121 | the seven rules are declared in descending precedence, so sorting leaves them |
| Completion.RuleFacts | src/main/kotlin/dev/agb/nasmplugin/completion/CompletionContextDetector.kt:25-121 | no rule yields General; the first rule tests for `%`, the last (and only it) tests for a blank line and yields LineStart |
| Completion.FirstMatchFrom | src/main/kotlin/dev/agb/nasmplugin/completion/CompletionContextDetector.kt:134 | `firstOrNull`: the first matching rule, none exactly when no rule matches |
| Completion.PickSpec | src/main/kotlin/dev/agb/nasmplugin/completion/CompletionContextDetector.kt:132-136 | General exactly when no rule matches; otherwise the context of the first matching rule |
| Completion.PickAt | src/main/kotlin/dev/agb/nasmplugin/completion/CompletionContextDetector.kt:132-136 | a matching rule with none matching before it decides the context |
| Completion.DetectContextSpec | src/main/kotlin/dev/agb/nasmplugin/completion/CompletionContextDetector.kt:126-137 | `detectContext` gives General exactly when no rule matches at the caret, otherwise the winning rule's context |
| Completion.AfterPercentFirst | src/main/kotlin/dev/agb/nasmplugin/completion/CompletionContextDetector.kt:27-34 | a `%` right before the caret always yields AfterPercent |
| Completion.LineStartIff | src/main/kotlin/dev/agb/nasmplugin/completion/CompletionContextDetector.kt:110-118 | the context is LineStart exactly when only whitespace precedes the caret on its line |
| Completion.LineStartWhenBlank | src/main/kotlin/dev/agb/nasmplugin/completion/CompletionContextDetector.kt:110-118 | a blank line before the caret yields LineStart |
| Completion.OnlyBlankLine | src/main/kotlin/dev/agb/nasmplugin/completion/CompletionContextDetector.kt:110-118 | when only the blank-line matcher accepts, the context is LineStart |
| Completion.NotLineStartWhenText | src/main/kotlin/dev/agb/nasmplugin/completion/CompletionContextDetector.kt:110-118 | text before the caret rules LineStart out |
| Completion.BlankLineMatchesNothingElse | src/main/kotlin/dev/agb/nasmplugin/completion/CompletionContextDetector.kt:25-118 | before a blank line prefix no rule but LineStart's matches |
| Completion.BlankNoPercent | src/main/kotlin/dev/agb/nasmplugin/completion/CompletionContextDetector.kt:32 | a blank line prefix has no `%` just before the caret |
| Completion.BlankMatchesNothing | src/main/kotlin/dev/agb/nasmplugin/completion/CompletionContextDetector.kt:41-106 | whitespace with no `%` before it matches none of the other matchers |
| Completion.BlankNoBracket | src/main/kotlin/dev/agb/nasmplugin/completion/CompletionContextDetector.kt:166-174 | whitespace opens no bracket |
| Completion.EmptyLineNoInstruction | src/main/kotlin/dev/agb/nasmplugin/completion/CompletionContextDetector.kt:56-102 | the empty line is neither an instruction line nor a `global`/`extern` line |
| Completion.BlankCleanLine | src/main/kotlin/dev/agb/nasmplugin/completion/CompletionContextDetector.kt:53 | whitespace cleans to the empty line |
| SectionAttributes.SeverityOf | src/main/kotlin/dev/agb/nasmplugin/highlighting/NasmSectionAttributeAnnotator.kt:67-96 | a duplicate is a warning; conflicts, unknown names and a missing value are errors |
| SectionAttributes.OnAttribute | src/main/kotlin/dev/agb/nasmplugin/highlighting/NasmSectionAttributeAnnotator.kt:68-97 | each problem of an attribute becomes one annotation on that attribute, in order |
| SectionAttributes.ValidateSectionAttributes | src/main/kotlin/dev/agb/nasmplugin/highlighting/NasmSectionAttributeAnnotator.kt:55-102 | no attribute list gives no annotation; otherwise the annotations are each attribute's problems against the names before it, attribute by attribute |
| SectionAttributes.AnnotationsStep | src/main/kotlin/dev/agb/nasmplugin/highlighting/NasmSectionAttributeAnnotator.kt:62-101 | one more attribute appends its problems, on it, to the annotations so far |
| SectionAttributes.CheckAttribute | src/main/kotlin/dev/agb/nasmplugin/highlighting/NasmSectionAttributeAnnotator.kt:63-100 | the problems of one attribute against the used names, and the used names with its lowercased name added |
| SectionAttributes.CheckConflicts | src/main/kotlin/dev/agb/nasmplugin/highlighting/NasmSectionAttributeAnnotator.kt:73-84 | the loop over the conflicting pairs reports one conflict per pair with the name on one side and a used name on the other |
| SectionAttributes.HighlightAttributeName | src/main/kotlin/dev/agb/nasmplugin/highlighting/NasmSectionAttributeAnnotator.kt:104-114 | a name gets directive highlighting exactly when, lowercased, it is a known plain or parameter attribute |
| SectionAttributes.NamesBeforeIff | src/main/kotlin/dev/agb/nasmplugin/highlighting/NasmSectionAttributeAnnotator.kt:60-66 | the used names before index i are exactly the lowercased earlier names |
| SectionAttributes.PairConflictsIff | src/main/kotlin/dev/agb/nasmplugin/highlighting/NasmSectionAttributeAnnotator.kt:73-84 | a conflict (a, b) is reported exactly when it is a listed pair, the name is one side and the other side was used |
| SectionAttributes.PairConflictsOnly | src/main/kotlin/dev/agb/nasmplugin/highlighting/NasmSectionAttributeAnnotator.kt:73-84 | the pair loop reports nothing but conflicts |
| SectionAttributes.DuplicateIff | src/main/kotlin/dev/agb/nasmplugin/highlighting/NasmSectionAttributeAnnotator.kt:66-70 | an attribute is a duplicate exactly when its lowercased name occurs at an earlier index |
| SectionAttributes.ConflictIff | src/main/kotlin/dev/agb/nasmplugin/highlighting/NasmSectionAttributeAnnotator.kt:73-84 | an attribute conflicts on (a, b) exactly when it is one side of a listed pair and an earlier attribute is the other side |
| SectionAttributes.UnknownIff | src/main/kotlin/dev/agb/nasmplugin/highlighting/NasmSectionAttributeAnnotator.kt:87-91 | an attribute is unknown exactly when its lowercased name is neither a plain nor a parameter attribute |
| SectionAttributes.MissingValueIff | src/main/kotlin/dev/agb/nasmplugin/highlighting/NasmSectionAttributeAnnotator.kt:94-100 | a missing value is reported exactly for `align` (any case) without an expression |
| SectionAttributes.HighlightedIffKnown | src/main/kotlin/dev/agb/nasmplugin/highlighting/NasmSectionAttributeAnnotator.kt:87-114 | a name is highlighted exactly when it is not reported unknown |
| SectionAttributes.OnAttributeIff | src/main/kotlin/dev/agb/nasmplugin/highlighting/NasmSectionAttributeAnnotator.kt:68-97 | the annotations on one attribute are exactly its problems |
| SectionAttributes.AnnotationsIff | src/main/kotlin/dev/agb/nasmplugin/highlighting/NasmSectionAttributeAnnotator.kt:62-101 | an annotation (i, p) is produced exactly when i is a checked attribute and p one of its problems |
| SectionAttributes.AnnotationsInOrder | src/main/kotlin/dev/agb/nasmplugin/highlighting/NasmSectionAttributeAnnotator.kt:62-101 | annotations come attribute by attribute in order, all on checked attributes |
| SectionAttributes.AnnotatedIff | src/main/kotlin/dev/agb/nasmplugin/highlighting/NasmSectionAttributeAnnotator.kt:55-102 | the annotator reports exactly each attribute's problems, on that attribute |
| SymbolValidation.LowerOfUpper | src/main/kotlin/dev/agb/nasmplugin/highlighting/NasmSymbolValidationAnnotator.kt:133-180 | lowercasing after uppercasing is lowercasing |
| SymbolValidation.FixedSetsIgnoreCase | src/main/kotlin/dev/agb/nasmplugin/highlighting/NasmSymbolValidationAnnotator.kt:131-147 | the register and built-in tests give the same answer for a name, its lowercase and its uppercase (lines 177-195 also) |
| SymbolValidation.SpecialSymbolIff | src/main/kotlin/dev/agb/nasmplugin/highlighting/NasmSymbolValidationAnnotator.kt:149-152 | a special symbol is exactly one starting with `$` or `@@`, or `?` (the `$$` test adds nothing) |
| SymbolValidation.NumberedConcatIsRegex | src/main/kotlin/dev/agb/nasmplugin/highlighting/NasmSymbolValidationAnnotator.kt:160 | the left-to-right reading of `%\d+_\w+` agrees with the regex's shape |
| SymbolValidation.MacroParameterIff | src/main/kotlin/dev/agb/nasmplugin/highlighting/NasmSymbolValidationAnnotator.kt:154-175 | a macro parameter is exactly `%` digits, `%` digits `_` word, `%` digits `*`, `%-` digits, `%+`, `%-`, or anything starting with `%$` or `%%` |
| SymbolValidation.MacroParameterStartsWithPercent | src/main/kotlin/dev/agb/nasmplugin/highlighting/NasmSymbolValidationAnnotator.kt:154-175 | every macro parameter is `%` and at least one more character |
| SymbolValidation.NeverWarned | src/main/kotlin/dev/agb/nasmplugin/highlighting/NasmSymbolValidationAnnotator.kt:81-92 | names starting with `$`, `%$` or `%%`, registers in any case, `?` and `%` digits are never reported |
| SymbolValidation.WarnsPlainName | src/main/kotlin/dev/agb/nasmplugin/highlighting/NasmSymbolValidationAnnotator.kt:66-93 | a resolved symbol is never reported; an unresolved name starting with a letter is reported exactly when it is neither a register nor a built-in, in any case |
| SymbolValidation.WarnsMacroIff | src/main/kotlin/dev/agb/nasmplugin/highlighting/NasmSymbolValidationAnnotator.kt:43-64 | an undefined function-like macro is reported exactly when its lowercased name is no built-in, the same for any case; a defined one never is |
| NamesValidator.KeywordIgnoresCase | src/main/kotlin/dev/agb/nasmplugin/refactoring/NasmNamesValidator.kt:37-61 | a name is a keyword exactly when its lowercase or uppercase spelling is |
| NamesValidator.PreprocessorDirectiveIsKeyword | src/main/kotlin/dev/agb/nasmplugin/refactoring/NasmNamesValidator.kt:17-58 | the preprocessor directive words are keywords in any case, whatever the databases hold |
| NamesValidator.InstructionIsKeyword | src/main/kotlin/dev/agb/nasmplugin/refactoring/NasmNamesValidator.kt:45-48 | an instruction of the database is a keyword in any case |
| NamesValidator.EmptyNotIdentifier | src/main/kotlin/dev/agb/nasmplugin/refactoring/NasmNamesValidator.kt:67 | the empty string is never an identifier |
| NamesValidator.IdentifierIff | src/main/kotlin/dev/agb/nasmplugin/refactoring/NasmNamesValidator.kt:66-76 | a name is accepted exactly when it matches the macro-local, context-local or local-label pattern, or the plain pattern and is no keyword |
| NamesValidator.KeywordNeverIdentifier | src/main/kotlin/dev/agb/nasmplugin/refactoring/NasmNamesValidator.kt:74 | a keyword without a `%%`, `%$` or `.` prefix is never accepted |
| NamesValidator.PrefixedIndependentOfDatabases | src/main/kotlin/dev/agb/nasmplugin/refactoring/NasmNamesValidator.kt:71-73 | prefixed names are judged by their pattern alone, whatever the databases hold |
| NamesValidator.BarePrefixesRefused | src/main/kotlin/dev/agb/nasmplugin/refactoring/NasmNamesValidator.kt:25-73 | `%%`, `%$` and `.` alone, and `...name`, are refused |
| OperandDocs.SlashLower | src/main/kotlin/dev/agb/nasmplugin/documentation/NasmDocumentationProvider.kt:250-252 | `lowercase().replace("_", "/")`: same length, each `_` a `/`, every other character lowercased |
| OperandDocs.TrailingDigits | src/main/kotlin/dev/agb/nasmplugin/documentation/NasmDocumentationProvider.kt:247 | the count of ASCII digits the string ends with: all of them digits, the character before them not |
| OperandDocs.LazySplitIsRegex | src/main/kotlin/dev/agb/nasmplugin/documentation/NasmDocumentationProvider.kt:247-253 | the split of `^(.+?)(\d+)$` exists exactly when some split of a non-empty base and digits does, and it is the shortest such base |
| OperandDocs.Differs | src/main/kotlin/dev/agb/nasmplugin/documentation/NasmDocumentationProvider.kt:211-244 | a string that differs from a prefix at one of its positions does not start with it |
| OperandDocs.Agrees | src/main/kotlin/dev/agb/nasmplugin/documentation/NasmDocumentationProvider.kt:211-244 | a string that agrees with a prefix on its length starts with it |
| OperandDocs.ParseSizedTypes | src/main/kotlin/dev/agb/nasmplugin/documentation/NasmDocumentationProvider.kt:211-222 | `R_M16`, `R_M`, `IMM32`, `IMM`, `REG64`, `REG` split into `r/m`, `imm`, `r` and their size (or none) |
| OperandDocs.ParseLetterSized | src/main/kotlin/dev/agb/nasmplugin/documentation/NasmDocumentationProvider.kt:223-230 | `M64` gives `m`/`64` and `R8` gives `r`/`8` |
| OperandDocs.ParseVectorTypes | src/main/kotlin/dev/agb/nasmplugin/documentation/NasmDocumentationProvider.kt:239 | `XMM` and `XMM0` both give `xmm` with no size |
| OperandDocs.FallbackApplies | src/main/kotlin/dev/agb/nasmplugin/documentation/NasmDocumentationProvider.kt:245-254 | a name no earlier branch takes is split before its trailing digits when the regex matches, and otherwise lowercased and slashed whole |
| OperandDocs.ParseMemType | src/main/kotlin/dev/agb/nasmplugin/documentation/NasmDocumentationProvider.kt:208-256 | `MEM` matches no prefix and has no digits: it gives `mem` with no size |
| OperandDocs.ParseControlRegisterType | src/main/kotlin/dev/agb/nasmplugin/documentation/NasmDocumentationProvider.kt:245-254 | `CREG` gives `creg` with no size |
| OperandDocs.FallbackSplit | src/main/kotlin/dev/agb/nasmplugin/documentation/NasmDocumentationProvider.kt:247-250 | the fallback split has a non-empty base and a non-empty all-digit size |
| OperandDocs.FormatOperandCases | src/main/kotlin/dev/agb/nasmplugin/documentation/NasmDocumentationProvider.kt:261-269 | no sizes give the base alone, one size is appended, and several are listed in braces after the base, a list that splits back into the sizes |
| OperandDocs.TypeNameClean | src/main/kotlin/dev/agb/nasmplugin/database/InstructionDatabase.kt:27-54 | no operand type name is empty or holds a comma |
| OperandDocs.SlashLowerNoComma | src/main/kotlin/dev/agb/nasmplugin/documentation/NasmDocumentationProvider.kt:250-252 | lowering and slashing adds no comma |
| OperandDocs.BaseClean | src/main/kotlin/dev/agb/nasmplugin/documentation/NasmDocumentationProvider.kt:208-256 | a non-empty type name without commas parses to a non-empty base without commas |
| VariantGroups.MapEachIndex | src/main/kotlin/dev/agb/nasmplugin/documentation/NasmDocumentationProvider.kt:166-173 | mapping keeps the length and maps position by position |
| VariantGroups.SplitOperands | src/main/kotlin/dev/agb/nasmplugin/documentation/NasmDocumentationProvider.kt:162-173 | the loop over a variant's operands gives the parsed bases, sizes and optional flags, in order |
| VariantGroups.RecordSizes | src/main/kotlin/dev/agb/nasmplugin/documentation/NasmDocumentationProvider.kt:183-187 | the `forEachIndexed` adds each non-empty size to its position's set |
| VariantGroups.RenderGroups | src/main/kotlin/dev/agb/nasmplugin/documentation/NasmDocumentationProvider.kt:191-202 | the map and filter give each group's line, the empty ones dropped |
| VariantGroups.NonEmptyRendersStep | src/main/kotlin/dev/agb/nasmplugin/documentation/NasmDocumentationProvider.kt:191-202 | one more group adds its line unless it is empty |
| VariantGroups.GroupVariantsByPattern | src/main/kotlin/dev/agb/nasmplugin/documentation/NasmDocumentationProvider.kt:151-203 | the loops compute the sorted non-empty lines of the groups of the variants' patterns |
| VariantGroups.AddSizesAt | src/main/kotlin/dev/agb/nasmplugin/documentation/NasmDocumentationProvider.kt:183-187 | each position keeps a sorted set and gains exactly the non-empty size at that position |
| VariantGroups.GroupsNoDuplicates | src/main/kotlin/dev/agb/nasmplugin/documentation/NasmDocumentationProvider.kt:159-180 | the pattern map never holds a key twice |
| VariantGroups.GroupsStep | src/main/kotlin/dev/agb/nasmplugin/documentation/NasmDocumentationProvider.kt:176-187 | a variant updates only its own key's group |
| VariantGroups.HasKeyStep | src/main/kotlin/dev/agb/nasmplugin/documentation/NasmDocumentationProvider.kt:176-180 | one more pattern adds its key to the keys seen |
| VariantGroups.GroupKeys | src/main/kotlin/dev/agb/nasmplugin/documentation/NasmDocumentationProvider.kt:176-180 | there is a group for a key exactly when some variant has that key |
| VariantGroups.GroupFirst | src/main/kotlin/dev/agb/nasmplugin/documentation/NasmDocumentationProvider.kt:178-180 | a group's base types and optional flags come from the first variant with its key (`getOrPut`) |
| VariantGroups.SizeSeenStep | src/main/kotlin/dev/agb/nasmplugin/documentation/NasmDocumentationProvider.kt:183-187 | a size is seen with one more pattern when it was seen before or the new pattern has it |
| VariantGroups.GroupSizes | src/main/kotlin/dev/agb/nasmplugin/documentation/NasmDocumentationProvider.kt:183-197 | each position of a group holds, sorted and without repeats, exactly the non-empty sizes the variants with its key have there |
| VariantGroups.PatternClean | src/main/kotlin/dev/agb/nasmplugin/documentation/NasmDocumentationProvider.kt:166-176 | the parsed base types are non-empty and comma-free |
| VariantGroups.SameKeySameTypes | src/main/kotlin/dev/agb/nasmplugin/documentation/NasmDocumentationProvider.kt:176 | two variants with the same joined key have the same base types |
| VariantGroups.FindFirst | src/main/kotlin/dev/agb/nasmplugin/documentation/NasmDocumentationProvider.kt:178-180 | from any variant with a key the first variant with that key is found |
| VariantGroups.GroupTypes | src/main/kotlin/dev/agb/nasmplugin/documentation/NasmDocumentationProvider.kt:176-180 | every variant with a group's key has exactly the group's base types |
| VariantGroups.OptionalBracketed | src/main/kotlin/dev/agb/nasmplugin/documentation/NasmDocumentationProvider.kt:195-199 | an operand is bracketed exactly when the first variant with the key marks it optional |
| VariantGroups.VariantSizes | src/main/kotlin/dev/agb/nasmplugin/documentation/NasmDocumentationProvider.kt:183-197 | each position of a variant's group lists, sorted, the non-empty sizes of the variants with that key |
| VariantGroups.NonEmptyRendersIff | src/main/kotlin/dev/agb/nasmplugin/documentation/NasmDocumentationProvider.kt:191-202 | a line is listed exactly when it is non-empty and some group renders it |
| VariantGroups.EntryGroup | src/main/kotlin/dev/agb/nasmplugin/documentation/NasmDocumentationProvider.kt:159-191 | each entry of the insertion-ordered map is the map's group for its key |
| VariantGroups.GroupValues | src/main/kotlin/dev/agb/nasmplugin/documentation/NasmDocumentationProvider.kt:191 | `patternMap.values` are exactly the groups of the map |
| VariantGroups.GroupedLinesSpec | src/main/kotlin/dev/agb/nasmplugin/documentation/NasmDocumentationProvider.kt:151-203 | the result is sorted, holds one line per group with a non-empty line, and a line is in it exactly when it is non-empty and some group renders it |
| VariantGroups.RmVariant | src/main/kotlin/dev/agb/nasmplugin/documentation/NasmDocumentationProvider.kt:211-214 | each r/m variant has base `r/m`, its size and no optional operand |
| VariantGroups.RmFirst | src/main/kotlin/dev/agb/nasmplugin/documentation/NasmDocumentationProvider.kt:178-187 | the first r/m variant opens the `r/m` group with size 16 |
| VariantGroups.RmSecond | src/main/kotlin/dev/agb/nasmplugin/documentation/NasmDocumentationProvider.kt:178-187 | the second adds size 32 |
| VariantGroups.RmThird | src/main/kotlin/dev/agb/nasmplugin/documentation/NasmDocumentationProvider.kt:178-187 | the third adds size 64 |
| VariantGroups.RmRender | src/main/kotlin/dev/agb/nasmplugin/documentation/NasmDocumentationProvider.kt:195-201 | the `r/m` group with sizes 16, 32, 64 renders as `r/m{16,32,64}` (lines 261-269 also) |
| VariantGroups.MapEachThree | src/main/kotlin/dev/agb/nasmplugin/documentation/NasmDocumentationProvider.kt:166-173 | mapping a three-element list maps each element |
| VariantGroups.RmPatterns | src/main/kotlin/dev/agb/nasmplugin/documentation/NasmDocumentationProvider.kt:161-176 | the three r/m variants give three `r/m` patterns |
| VariantGroups.RmLines | src/main/kotlin/dev/agb/nasmplugin/documentation/NasmDocumentationProvider.kt:191-202 | their sorted lines are the single `r/m{16,32,64}` |
| VariantGroups.RegisterOrMemoryExample | src/main/kotlin/dev/agb/nasmplugin/documentation/NasmDocumentationProvider.kt:145-151 | PUSH's `R_M16`, `R_M32`, `R_M64` variants collapse to the one line `r/m{16,32,64}` |
| RegisterFamilies.GeneralFamilyAsWritten | src/main/kotlin/dev/agb/nasmplugin/documentation/NasmDocumentationProvider.kt:399-419 | the general family as written is one of the eight families or empty |
| RegisterFamilies.GeneralFamilyAsWrittenMisfiles | src/main/kotlin/dev/agb/nasmplugin/documentation/NasmDocumentationProvider.kt:400-408 | as written, every rdi-family name gets the rdx family, every rbp-family name the rbx family, and the `d`-and-`i` branch is never taken |
| RegisterFamilies.GeneralFamily | src/main/kotlin/dev/agb/nasmplugin/documentation/NasmDocumentationProvider.kt:399-419 | the corrected family choice is one of the eight families or empty |
| RegisterFamilies.StripSizePrefix | src/main/kotlin/dev/agb/nasmplugin/documentation/NasmDocumentationProvider.kt:372-375 | the `[re]?` of the patterns drops at most one leading character |
| RegisterFamilies.FindRDigits | src/main/kotlin/dev/agb/nasmplugin/documentation/NasmDocumentationProvider.kt:422 | the first `r` followed by a digit from the given index on, if any; no earlier position has one |
| RegisterFamilies.FindSimd | src/main/kotlin/dev/agb/nasmplugin/documentation/NasmDocumentationProvider.kt:428 | the first `x`, `y` or `z` followed by `mm` and a digit, if any; no earlier position has one |
| RegisterFamilies.ExtendedFamily | src/main/kotlin/dev/agb/nasmplugin/documentation/NasmDocumentationProvider.kt:421-425 | empty exactly when no `r` is followed by a digit; otherwise `rN`, `rNd`, `rNw`, `rNb` for a run of digits N |
| RegisterFamilies.SimdFamily | src/main/kotlin/dev/agb/nasmplugin/documentation/NasmDocumentationProvider.kt:427-431 | empty exactly when no `x`, `y` or `z` is followed by `mm` and a digit; otherwise `zmmN`, `ymmN`, `xmmN` for a run of digits N |
| RegisterFamilies.RegisterFamily | src/main/kotlin/dev/agb/nasmplugin/documentation/NasmDocumentationProvider.kt:370-384 | the family chosen for a lowercased name, as the code is written, is one of the rax, rbx, rcx, rdx, rsi or rsp lists (never the rdi or rbp list), an r8-r15 list, a SIMD list, or empty where the source has no family |
| RegisterFamilies.RegisterFamilyCorrected | src/main/kotlin/dev/agb/nasmplugin/documentation/NasmDocumentationProvider.kt:370-384 | with the evidently intended letter test, the family is one of the eight general-purpose lists, an r8-r15 list, a SIMD list, or empty |
| RegisterFamilies.RegisterFamilyMisfiles | src/main/kotlin/dev/agb/nasmplugin/documentation/NasmDocumentationProvider.kt:373-408 | as written, the documentation of `rdi`, `edi`, `di`, `dil` lists the rdx family and that of `rbp`, `ebp`, `bp`, `bpl` the rbx family |
| RegisterFamilies.RegisterFamilyAgrees | src/main/kotlin/dev/agb/nasmplugin/documentation/NasmDocumentationProvider.kt:370-419 | the as-written and the corrected family agree on every name that does not hold both `d` and `i` or both `b` and `p` |
| RegisterFamilies.AxShapeAgrees | src/main/kotlin/dev/agb/nasmplugin/documentation/NasmDocumentationProvider.kt:372-416 | on a name of the `[re]?[abcd]x` or `[abcd][lh]` pattern, the as-written and the corrected letter tests give the same family |
| RegisterFamilies.PairShapeAgrees | src/main/kotlin/dev/agb/nasmplugin/documentation/NasmDocumentationProvider.kt:373-408 | on a name of the `si`/`di`/`sp`/`bp` patterns without both `d` and `i` or both `b` and `p`, the as-written and the corrected letter tests give the same family |
| RegisterFamilies.RaxFamilyClosed | src/main/kotlin/dev/agb/nasmplugin/documentation/NasmDocumentationProvider.kt:372-413 | every rax-family name is listed with the rax family |
| RegisterFamilies.RbxFamilyClosed | src/main/kotlin/dev/agb/nasmplugin/documentation/NasmDocumentationProvider.kt:372-414 | every rbx-family name is listed with the rbx family |
| RegisterFamilies.RcxFamilyClosed | src/main/kotlin/dev/agb/nasmplugin/documentation/NasmDocumentationProvider.kt:372-415 | every rcx-family name is listed with the rcx family |
| RegisterFamilies.RdxFamilyClosed | src/main/kotlin/dev/agb/nasmplugin/documentation/NasmDocumentationProvider.kt:372-416 | every rdx-family name is listed with the rdx family |
| RegisterFamilies.RsiFamilyClosed | src/main/kotlin/dev/agb/nasmplugin/documentation/NasmDocumentationProvider.kt:373-405 | every rsi-family name is listed with the rsi family |
| RegisterFamilies.RdiFamilyClosed | src/main/kotlin/dev/agb/nasmplugin/documentation/NasmDocumentationProvider.kt:374-406 | with the corrected letter test (RegisterFamilyCorrected), every rdi-family name is listed with the rdi family |
| RegisterFamilies.RspFamilyClosed | src/main/kotlin/dev/agb/nasmplugin/documentation/NasmDocumentationProvider.kt:375-407 | every rsp-family name is listed with the rsp family |
| RegisterFamilies.RbpFamilyClosed | src/main/kotlin/dev/agb/nasmplugin/documentation/NasmDocumentationProvider.kt:375-408 | with the corrected letter test (RegisterFamilyCorrected), every rbp-family name is listed with the rbp family |
| RegisterFamilies.ExtendedFamilyOf | src/main/kotlin/dev/agb/nasmplugin/documentation/NasmDocumentationProvider.kt:378-425 | `r8`-`r15` with an optional `d`/`w`/`b` list their number with each size suffix |
| RegisterFamilies.SimdFamilyOf | src/main/kotlin/dev/agb/nasmplugin/documentation/NasmDocumentationProvider.kt:381-431 | `xmmN`, `ymmN`, `zmmN` list `zmmN`, `ymmN`, `xmmN` |
| InstructionDatabase.RequiredOperands | src/main/kotlin/dev/agb/nasmplugin/database/InstructionDatabase.kt:71 | the required operands are exactly the operands not marked optional, in order |
| InstructionDatabase.RequiredOperandsCount | src/main/kotlin/dev/agb/nasmplugin/database/InstructionDatabase.kt:71-72 | all operands are required exactly when none is optional; none is exactly when all are |
| InstructionDatabase.OperandCount | src/main/kotlin/dev/agb/nasmplugin/database/InstructionDatabase.kt:71-72 | `operandCount` is at most `maxOperandCount`, equal exactly when nothing is optional, zero exactly when everything is |
| InstructionDatabase.RequiredOperandsAppend | src/main/kotlin/dev/agb/nasmplugin/database/InstructionDatabase.kt:71 | the required operands of a concatenation are those of each part |
| InstructionDatabase.HasDocumentationIff | src/main/kotlin/dev/agb/nasmplugin/database/InstructionDatabase.kt:85-104 | an instruction is documented exactly when it has documentation with some non-empty field |
| InstructionDatabase.Keyed | src/main/kotlin/dev/agb/nasmplugin/database/InstructionDatabase.kt:125-127 | each instruction is keyed by its lowercased name, in list order |
| InstructionDatabase.GetInstructionFound | src/main/kotlin/dev/agb/nasmplugin/database/InstructionDatabase.kt:129-131 | a lookup finds an instruction exactly when one has the same name up to case |
| InstructionDatabase.GetInstructionLastWins | src/main/kotlin/dev/agb/nasmplugin/database/InstructionDatabase.kt:125-131 | among instructions whose names agree up to case, the last one is found |
| InstructionDatabase.GetInstructionIgnoresCase | src/main/kotlin/dev/agb/nasmplugin/database/InstructionDatabase.kt:129-131 | the lookup gives the same for a name, its lowercase and its uppercase |
| InstructionDatabase.Filter | src/main/kotlin/dev/agb/nasmplugin/database/InstructionDatabase.kt:139-144 | filtering keeps exactly the elements that satisfy the test |
| InstructionDatabase.FilterAppend | src/main/kotlin/dev/agb/nasmplugin/database/InstructionDatabase.kt:139-144 | filtering keeps order: it distributes over concatenation |
| InstructionDatabase.ByPrefixSpec | src/main/kotlin/dev/agb/nasmplugin/database/InstructionDatabase.kt:137-140 | exactly the instructions whose name starts with the lowercased prefix are listed; a name starting in uppercase is never found by a non-empty prefix |
| InstructionDatabase.WithDocumentationSpec | src/main/kotlin/dev/agb/nasmplugin/database/InstructionDatabase.kt:142-144 | exactly the documented instructions are listed |
| ElementHandlers.FirstAssignable | src/main/kotlin/dev/agb/nasmplugin/refactoring/NasmElementHandlers.kt:210-214 | the first table entry the element's class is assignable to, with none before it; none when no entry fits |
| ElementHandlers.EveryKindHandled | src/main/kotlin/dev/agb/nasmplugin/refactoring/NasmElementHandlers.kt:197-204 | the table has a handler for every element kind |
| ElementHandlers.GetHandler | src/main/kotlin/dev/agb/nasmplugin/refactoring/NasmElementHandlers.kt:208-216 | the default handler exactly when no kind fits; otherwise a fitting kind's handler |
| ElementHandlers.GetHandlerOfKind | src/main/kotlin/dev/agb/nasmplugin/refactoring/NasmElementHandlers.kt:197-216 | an element of one kind gets that kind's handler; a label definition always gets the label handler |
| ElementHandlers.LabelPrefix | src/main/kotlin/dev/agb/nasmplugin/refactoring/NasmElementHandlers.kt:23-35 | the label prefix is empty, `.` or `..` |
| ElementHandlers.DummyTextHoldsName | src/main/kotlin/dev/agb/nasmplugin/refactoring/NasmElementHandlers.kt:23-180 | every handler's dummy text is its prefix, the new name and its suffix, so the name sits right after the prefix |
| ElementHandlers.LabelKeepsLocality | src/main/kotlin/dev/agb/nasmplugin/refactoring/NasmElementHandlers.kt:23-35 | a new name with a dot is used as is; otherwise the old name's `..` or `.` is kept, longer first, and a plain old name gives a plain label |
| ConstExpr.Truth | src/main/kotlin/dev/agb/nasmplugin/eval/NasmConstExprEvaluator.kt:436-454 | a truth value is 1 exactly when the condition holds and 0 otherwise |
| ConstExpr.Compare | src/main/kotlin/dev/agb/nasmplugin/eval/NasmConstExprEvaluator.kt:436-454 | each comparison and logical operator gives 1 exactly when its relation holds (any nonzero operand counting as true), and `<=>` gives -1, 0 or 1 by the order of its operands |
| ConstExpr.Arithmetic | src/main/kotlin/dev/agb/nasmplugin/eval/NasmConstExprEvaluator.kt:419-433 | the arithmetic, bitwise and shift operators always give a value except a division or remainder by zero, the one error, "Division by zero" |
| ConstExpr.ApplyBinary | src/main/kotlin/dev/agb/nasmplugin/eval/NasmConstExprEvaluator.kt:415-462 | not a constant exactly for a token that is no binary operator; an error exactly for a zero divisor of `/`, `//`, `%`, `%%`; the comparisons give their truth value |
| ConstExpr.ApplyUnary | src/main/kotlin/dev/agb/nasmplugin/eval/NasmConstExprEvaluator.kt:351-364 | a non-value operand passes through; `+` is the identity, `-x` sums with `x` to 0 and `~x` to -1 modulo 2^64, `!` gives 1 exactly for 0; `seg` and other tokens are not constants |
| ConstExpr.DivisionSignedness | src/main/kotlin/dev/agb/nasmplugin/eval/NasmConstExprEvaluator.kt:422-425 | `/` and `//`, and `%` and `%%`, compute the same (both signed) |
| ConstExpr.DivisionRecomposes | src/main/kotlin/dev/agb/nasmplugin/eval/NasmConstExprEvaluator.kt:422-425 | for a nonzero divisor, quotient times divisor plus remainder is the dividend, modulo 2^64, with the remainder smaller in magnitude than the divisor and either zero or of the dividend's sign |
| ConstExpr.ShiftByWidth | src/main/kotlin/dev/agb/nasmplugin/eval/NasmConstExprEvaluator.kt:430-431 | the shift count is taken modulo 64, so shifting by 64 changes nothing |
| ConstExpr.ShiftDoubles | src/main/kotlin/dev/agb/nasmplugin/eval/NasmConstExprEvaluator.kt:430 | a left shift by one is the value added to itself |
| ConstExpr.SpaceshipAntisymmetric | src/main/kotlin/dev/agb/nasmplugin/eval/NasmConstExprEvaluator.kt:443-447 | swapping the operands of `<=>` negates its result |
| ConstExpr.ComparisonComplements | src/main/kotlin/dev/agb/nasmplugin/eval/NasmConstExprEvaluator.kt:436-442 | `!(a<b)` is `a>=b`, `!(a>b)` is `a<=b`, `!(a==b)` is `a!=b`, and `a<b` is `b>a` (lines 360 also) |
| ConstExpr.NegTwice | src/main/kotlin/dev/agb/nasmplugin/eval/NasmConstExprEvaluator.kt:358 | negating twice gives the value back, including for the smallest `Long` |
| ConstExpr.ComplementTwice | src/main/kotlin/dev/agb/nasmplugin/eval/NasmConstExprEvaluator.kt:359 | `~~x` is `x`, and `~x` is `-x - 1` |
| ConstExpr.NotTwice | src/main/kotlin/dev/agb/nasmplugin/eval/NasmConstExprEvaluator.kt:360 | `!!x` is 1 for a nonzero `x` and 0 for 0 |
| ConstExpr.RemoveUnderscores | src/main/kotlin/dev/agb/nasmplugin/eval/NasmConstExprEvaluator.kt:540-555 | the result holds no underscore, and text without one is unchanged |
| ConstExpr.EvaluateNumber | src/main/kotlin/dev/agb/nasmplugin/eval/NasmConstExprEvaluator.kt:535-562 | every literal gives a value or the error "Invalid number format: " followed by the literal |
| ConstExpr.NumberDecimal | src/main/kotlin/dev/agb/nasmplugin/eval/NasmConstExprEvaluator.kt:555 | the decimal digits of any non-negative `Long` read back as that number |
| ConstExpr.NumberSuffixD | src/main/kotlin/dev/agb/nasmplugin/eval/NasmConstExprEvaluator.kt:549-550 | a positive decimal literal with a `d` or `D` suffix reads back as its number |
| ConstExpr.NumberZeroD | src/main/kotlin/dev/agb/nasmplugin/eval/NasmConstExprEvaluator.kt:547-548 | `0d` and `0D` are taken for the `0d` prefix with no digits, so they are errors |
| ConstExpr.NumberHex | src/main/kotlin/dev/agb/nasmplugin/eval/NasmConstExprEvaluator.kt:539-540 | `0x` or `0X` followed by hexadecimal digits reads as that number in radix 16 |
| ConstExpr.NumberBinary | src/main/kotlin/dev/agb/nasmplugin/eval/NasmConstExprEvaluator.kt:543-544 | `0b` or `0B` followed by binary digits reads as that number in radix 2 |
| ConstExpr.NumberPrefixD | src/main/kotlin/dev/agb/nasmplugin/eval/NasmConstExprEvaluator.kt:547-548 | `0d` or `0D` followed by decimal digits reads as that number in radix 10 |
| ConstExpr.DigitsParse | src/main/kotlin/dev/agb/nasmplugin/eval/NasmConstExprEvaluator.kt:535-556 | the digits of a non-negative `Long` in any radix from 2 to 36 parse back to it |
| ConstExpr.NumberUnderscores | src/main/kotlin/dev/agb/nasmplugin/eval/NasmConstExprEvaluator.kt:555 | `1_0` is 10: underscores are ignored |
| ConstExpr.NumberHexUnderscores | src/main/kotlin/dev/agb/nasmplugin/eval/NasmConstExprEvaluator.kt:540 | `0xF_F` is 255 |
| ConstExpr.NumberInvalid | src/main/kotlin/dev/agb/nasmplugin/eval/NasmConstExprEvaluator.kt:559-561 | `0x`, `12g` and `0b12` are errors naming the literal |
| ConstExpr.HexEscapeBound | src/main/kotlin/dev/agb/nasmplugin/eval/NasmConstExprEvaluator.kt:609-610 | two characters that `toInt(16)` accepts, a sign included, lie strictly between -16 and 256 |
| ConstExpr.EscapeStep | src/main/kotlin/dev/agb/nasmplugin/eval/NasmConstExprEvaluator.kt:596-630 | a step consumes at least one and no more than the remaining characters, more than one only at a backslash, and a non-backslash is kept as is |
| ConstExpr.ParseEscapeSequences | src/main/kotlin/dev/agb/nasmplugin/eval/NasmConstExprEvaluator.kt:592-635 | the `while` loop produces exactly the characters of the escape scan of the whole text |
| ConstExpr.ScanStep | src/main/kotlin/dev/agb/nasmplugin/eval/NasmConstExprEvaluator.kt:596-630 | appending the character of one step keeps the loop invariant: the characters so far followed by the scan of the rest are the scan of the whole text |
| ConstExpr.EscapeStepSuffix | src/main/kotlin/dev/agb/nasmplugin/eval/NasmConstExprEvaluator.kt:597-629 | a step depends only on the text from its position on |
| ConstExpr.EscapesFromSuffix | src/main/kotlin/dev/agb/nasmplugin/eval/NasmConstExprEvaluator.kt:596-632 | the scan from a position depends only on the text from there on |
| ConstExpr.EscapesFromShift | src/main/kotlin/dev/agb/nasmplugin/eval/NasmConstExprEvaluator.kt:596-632 | the scan of a text with a prefix, from inside the text, ignores the prefix |
| ConstExpr.EscapesPlain | src/main/kotlin/dev/agb/nasmplugin/eval/NasmConstExprEvaluator.kt:630-631 | text without a backslash comes through unchanged |
| ConstExpr.EscapeSimple | src/main/kotlin/dev/agb/nasmplugin/eval/NasmConstExprEvaluator.kt:599-605 | each of `\n \r \t \\ \' \" \0` becomes its one character and the scan goes on after it |
| ConstExpr.EscapeHex | src/main/kotlin/dev/agb/nasmplugin/eval/NasmConstExprEvaluator.kt:606-612 | `\x` and two hexadecimal digits become the character with that code |
| ConstExpr.HexDigits | src/main/kotlin/dev/agb/nasmplugin/eval/NasmConstExprEvaluator.kt:609-610 | two hexadecimal digits decode to 16 times the first plus the second |
| ConstExpr.EscapeHexSigned | src/main/kotlin/dev/agb/nasmplugin/eval/NasmConstExprEvaluator.kt:609-610 | `toInt(16)` accepts a sign and `toChar()` keeps 16 bits, so `\x-f` is the character 0xFFF1 |
| ConstExpr.EscapeUnknown | src/main/kotlin/dev/agb/nasmplugin/eval/NasmConstExprEvaluator.kt:621-625 | an unknown escape keeps the backslash and goes on with the next character |
| ConstExpr.EscapeIncomplete | src/main/kotlin/dev/agb/nasmplugin/eval/NasmConstExprEvaluator.kt:616-629 | a backslash at the end, or `\x` with fewer than two characters after it, is kept |
| ConstExpr.LowByte | src/main/kotlin/dev/agb/nasmplugin/eval/NasmConstExprEvaluator.kt:586 | `code.toLong() and 0xFF` is below 256 |
| ConstExpr.EvaluateString | src/main/kotlin/dev/agb/nasmplugin/eval/NasmConstExprEvaluator.kt:564-590 | the method with its reversed packing loop computes the literal's value: an error below two characters, 0 for no content, the code of a single character, and otherwise the characters packed little-endian, the low 64 bits kept |
| ConstExpr.PackStep | src/main/kotlin/dev/agb/nasmplugin/eval/NasmConstExprEvaluator.kt:585-587 | one iteration (`value shl 8 or low byte`) extends the packing of the characters after `i` to the characters from `i`, staying in the `Long` range |
| ConstExpr.ShiftedLowByteClear | src/main/kotlin/dev/agb/nasmplugin/eval/NasmConstExprEvaluator.kt:586 | after `shl 8` the low byte is clear, so `or` with a byte is addition |
| ConstExpr.StringPacking | src/main/kotlin/dev/agb/nasmplugin/eval/NasmConstExprEvaluator.kt:569-590 | `'AB'` is 0x4241 (the first character is the low byte), `'A'` is 65, `''` is 0 and `'` is an error |
| ConstExpr.ByteOf | src/main/kotlin/dev/agb/nasmplugin/eval/NasmConstExprEvaluator.kt:584-587 | a byte of a number is below 256 |
| ConstExpr.PackByte | src/main/kotlin/dev/agb/nasmplugin/eval/NasmConstExprEvaluator.kt:584-587 | packing is reversible: byte `i` of the packed value is the low byte of character `i` |
| ConstExpr.PackBound | src/main/kotlin/dev/agb/nasmplugin/eval/NasmConstExprEvaluator.kt:584-587 | `n` characters pack below 256^n |
| ConstExpr.PackTruncates | src/main/kotlin/dev/agb/nasmplugin/eval/NasmConstExprEvaluator.kt:584-587 | characters past the eighth are shifted out of the 64-bit value |
| ConstExpr.PackSplit | src/main/kotlin/dev/agb/nasmplugin/eval/NasmConstExprEvaluator.kt:584-587 | packing a concatenation is the first part plus the second shifted past it |
| ConstExpr.PackedBytes | src/main/kotlin/dev/agb/nasmplugin/eval/NasmConstExprEvaluator.kt:584-590 | the value of a literal holds, in each of its first eight bytes, the low byte of the matching character |
| ConstExpr.LevelOf | src/main/kotlin/dev/agb/nasmplugin/eval/NasmConstExprEvaluator.kt:269-292 | each operator's level in the precedence list, from `\|\|` (0) to `%+` (10), and 11 for any other token |
| ConstExpr.LevelsAreOperators | src/main/kotlin/dev/agb/nasmplugin/eval/NasmConstExprEvaluator.kt:269-292 | every listed operator except `%+` is one `applyBinaryOperator` evaluates, and every operator it evaluates is listed (lines 415-462 also) |
| ConstExpr.LastIndexIn | src/main/kotlin/dev/agb/nasmplugin/eval/NasmConstExprEvaluator.kt:296-302 | the last index after 0 holding an operator of the level, or -1 when there is none |
| ConstExpr.SplitFromNone | src/main/kotlin/dev/agb/nasmplugin/eval/NasmConstExprEvaluator.kt:294-314 | there is no split exactly when no level from the starting one on has an operator after index 0 |
| ConstExpr.SplitFromSome | src/main/kotlin/dev/agb/nasmplugin/eval/NasmConstExprEvaluator.kt:294-314 | a split is at an operator of the first level that has one after index 0, at its last occurrence, with the nodes before it on the left and after it on the right |
| ConstExpr.SplitFromShape | src/main/kotlin/dev/agb/nasmplugin/eval/NasmConstExprEvaluator.kt:304-311 | the split's operator is at its index, the left part is the nodes before it and the right part the nodes after it |
| ConstExpr.SplitFromLevel | src/main/kotlin/dev/agb/nasmplugin/eval/NasmConstExprEvaluator.kt:294-314 | no operator of the split's level comes after it, and no looser level has an operator after index 0 |
| ConstExpr.FindBinaryOperator | src/main/kotlin/dev/agb/nasmplugin/eval/NasmConstExprEvaluator.kt:265-316 | the nested loops give exactly the split at the loosest level present, at its rightmost operator |
| ConstExpr.LastOperatorIndex | src/main/kotlin/dev/agb/nasmplugin/eval/NasmConstExprEvaluator.kt:296-302 | the inner loop finds the last index after 0 holding an operator of the level, or -1 |
| ConstExpr.FindUnaryOperator | src/main/kotlin/dev/agb/nasmplugin/eval/NasmConstExprEvaluator.kt:318-331 | a unary operator is found exactly when the first node is `+`, `-`, `~`, `!` or `seg` and another node follows; its operand is all the nodes after it |
| ConstExpr.SplitSum | src/main/kotlin/dev/agb/nasmplugin/eval/NasmConstExprEvaluator.kt:265-316 | `1 + 2 * 3` splits at `+` |
| ConstExpr.SplitDifference | src/main/kotlin/dev/agb/nasmplugin/eval/NasmConstExprEvaluator.kt:296-302 | `8 - 3 - 2` splits at the second `-`, so subtraction associates to the left |
| ConstExpr.SplitLeadingMinus | src/main/kotlin/dev/agb/nasmplugin/eval/NasmConstExprEvaluator.kt:299 | an operator at index 0 is never split at |
| ConstExpr.SkipLevels | src/main/kotlin/dev/agb/nasmplugin/eval/NasmConstExprEvaluator.kt:294-314 | levels with no operator after index 0 are passed over |
| Longs.Wrap | src/main/kotlin/dev/agb/nasmplugin/eval/NasmConstExprEvaluator.kt:419-421 | `Long` arithmetic keeps the value congruent modulo 2^64 in the signed range, so results already in range are unchanged |
| Longs.WrapDifference | src/main/kotlin/dev/agb/nasmplugin/eval/NasmConstExprEvaluator.kt:419-421 | a value and its wrapped `Long` differ by a multiple of 2^64 |
| Longs.WrapCongruent | src/main/kotlin/dev/agb/nasmplugin/eval/NasmConstExprEvaluator.kt:419-421 | values congruent modulo 2^64 wrap to the same `Long` |
| Longs.Unsigned | src/main/kotlin/dev/agb/nasmplugin/eval/NasmConstExprEvaluator.kt:431 | the unsigned reading of a `Long` (what `ushr` shifts) is below 2^64, congruent to it, and equal to it when non-negative |
| Longs.RemBound | src/main/kotlin/dev/agb/nasmplugin/eval/NasmConstExprEvaluator.kt:424-425 | the remainder of truncating division is smaller in magnitude than the divisor and zero or of the dividend's sign |
| Longs.QuotRem | src/main/kotlin/dev/agb/nasmplugin/eval/NasmConstExprEvaluator.kt:422-425 | `(a / b) * b + a % b == a` in 64-bit arithmetic, with the remainder smaller in magnitude than the divisor and zero or of the dividend's sign |
| Longs.QuotOverflow | src/main/kotlin/dev/agb/nasmplugin/eval/NasmConstExprEvaluator.kt:422-425 | `Long.MIN_VALUE / -1` is `Long.MIN_VALUE` and the remainder is 0: the JVM raises no exception there |
| Longs.ShiftCount | src/main/kotlin/dev/agb/nasmplugin/eval/NasmConstExprEvaluator.kt:430-431 | a shift uses the low six bits of `right.toInt()`, a distance below 64 |
| Longs.ShlDoubles | src/main/kotlin/dev/agb/nasmplugin/eval/NasmConstExprEvaluator.kt:430 | `x shl 1` is `x + x` modulo 2^64 |
| Longs.UnsignedWrap | src/main/kotlin/dev/agb/nasmplugin/eval/NasmConstExprEvaluator.kt:431 | reading a wrapped 64-bit value back as unsigned recovers it |
| Longs.NegInvolutive | src/main/kotlin/dev/agb/nasmplugin/eval/NasmConstExprEvaluator.kt:358-359 | negation and `inv()` each undo themselves, and `inv()` is `-a - 1` |
| Longs.ShiftCountMasked | src/main/kotlin/dev/agb/nasmplugin/eval/NasmConstExprEvaluator.kt:430-431 | `1 shl 65` is 2, `1 shl 63` is `Long.MIN_VALUE`, `-1 ushr 60` is 15, and shifts by 0 or 64 change nothing |
| JavaNumbers.DigitValue | src/main/kotlin/dev/agb/nasmplugin/eval/NasmConstExprEvaluator.kt:540 | a character's digit value (ASCII `0`-`9`, then letters of either case from 10) lies in -1..35 |
| JavaNumbers.DigitsValueBound | src/main/kotlin/dev/agb/nasmplugin/eval/NasmConstExprEvaluator.kt:540-555 | `k` digits hold a value below radix^k |
| JavaNumbers.DigitsValueDefined | src/main/kotlin/dev/agb/nasmplugin/eval/NasmConstExprEvaluator.kt:540-555 | a digit string has a value exactly when every character is a digit of the radix |
| JavaNumbers.ParseLong | src/main/kotlin/dev/agb/nasmplugin/eval/NasmConstExprEvaluator.kt:540-555 | `toLong(radix)` succeeds only on a non-empty text whose sign, if any, is followed by more |
| JavaNumbers.DigitChar | src/main/kotlin/dev/agb/nasmplugin/eval/NasmConstExprEvaluator.kt:535-562 | the digit written for a value reads back as that value |
| JavaNumbers.ToDigits | src/main/kotlin/dev/agb/nasmplugin/eval/NasmConstExprEvaluator.kt:535-562 | the digits of a number are never empty |
| JavaNumbers.ToDigitsAreDigits | src/main/kotlin/dev/agb/nasmplugin/eval/NasmConstExprEvaluator.kt:535-562 | `Long.toString` writes only digits of the radix |
| JavaNumbers.ToDigitsAreDecimal | src/main/kotlin/dev/agb/nasmplugin/eval/NasmConstExprEvaluator.kt:555 | up to radix 10 the digits are `0`-`9` |
| JavaNumbers.DigitsRoundTrip | src/main/kotlin/dev/agb/nasmplugin/eval/NasmConstExprEvaluator.kt:535-562 | reading back the digits of a number gives the number |
| JavaNumbers.AppendDigit | src/main/kotlin/dev/agb/nasmplugin/eval/NasmConstExprEvaluator.kt:535-562 | one more digit multiplies the value by the radix and adds the digit |
| JavaNumbers.ParseLongRoundTrip | src/main/kotlin/dev/agb/nasmplugin/eval/NasmConstExprEvaluator.kt:540-555 | `toLong(radix)` inverts `Long.toString(radix)` on every `Long` in every radix from 2 to 36 |
| JavaNumbers.ParseLongOverflow | src/main/kotlin/dev/agb/nasmplugin/eval/NasmConstExprEvaluator.kt:559-561 | a digit string whose value leaves the `Long` range is rejected (`NumberFormatException`) |
| JavaNumbers.ParseLongRejects | src/main/kotlin/dev/agb/nasmplugin/eval/NasmConstExprEvaluator.kt:559-561 | any character that is not a digit of the radix, past the optional sign, makes parsing fail |
| ConstEval.FirstByName | src/main/kotlin/dev/agb/nasmplugin/eval/NasmConstExprEvaluator.kt:900-901 | the context lookup knows exactly the names of the context file's named elements |
| ConstEval.FirstByNameFirst | src/main/kotlin/dev/agb/nasmplugin/eval/NasmConstExprEvaluator.kt:900-901 | `firstOrNull` by name: the first element of a name gives its definition, later ones of that name are ignored |
| ConstEval.Significant | src/main/kotlin/dev/agb/nasmplugin/eval/NasmConstExprEvaluator.kt:216 | the kept nodes contain no whitespace token and are no larger than the children |
| ConstEval.Composites | src/main/kotlin/dev/agb/nasmplugin/eval/NasmConstExprEvaluator.kt:244 | `expr.children` holds only composite elements and is no larger than the child nodes |
| ConstEval.SplitSmaller | src/main/kotlin/dev/agb/nasmplugin/eval/NasmConstExprEvaluator.kt:304-311 | both sides of a binary split are smaller than the node list, so the recursive walk ends |
| ConstEval.CombineBinary | src/main/kotlin/dev/agb/nasmplugin/eval/NasmConstExprEvaluator.kt:333-344 | two values are combined by `applyBinaryOperator`; the result is a value only when both operands are; a left error is reported before a right one; otherwise not a constant |
| ConstEval.SignificantKeeps | src/main/kotlin/dev/agb/nasmplugin/eval/NasmConstExprEvaluator.kt:216 | a node list without whitespace is kept as it is |
| ConstEval.SignificantIdempotent | src/main/kotlin/dev/agb/nasmplugin/eval/NasmConstExprEvaluator.kt:216 | dropping whitespace twice is dropping it once |
| ConstEval.CompositesOfSignificant | src/main/kotlin/dev/agb/nasmplugin/eval/NasmConstExprEvaluator.kt:216-244 | dropping whitespace leaves the child elements as they were |
| ConstEval.WhitespaceIgnored | src/main/kotlin/dev/agb/nasmplugin/eval/NasmConstExprEvaluator.kt:211-251 | whitespace between the children of an expression makes no difference to its value |
| ConstEval.EvalSingle | src/main/kotlin/dev/agb/nasmplugin/eval/NasmConstExprEvaluator.kt:384-389 | a single composite node is evaluated as that node |
| ConstEval.ParenthesesTransparent | src/main/kotlin/dev/agb/nasmplugin/eval/NasmConstExprEvaluator.kt:236-241 | `( e )` has the value of `e` |
| ConstEval.SplitThree | src/main/kotlin/dev/agb/nasmplugin/eval/NasmConstExprEvaluator.kt:230-232 | `l op r` splits at `op` whenever `op` is in the precedence table |
| ConstEval.EvalBinary | src/main/kotlin/dev/agb/nasmplugin/eval/NasmConstExprEvaluator.kt:230-232 | `l op r` evaluates both operands from the same set of symbols and combines them, as an expression and as an operand's node list (lines 333-344 also) |
| ConstEval.EvalUnary | src/main/kotlin/dev/agb/nasmplugin/eval/NasmConstExprEvaluator.kt:224-227 | a leading unary operator applies to the value of everything after it (lines 346-349 also) |
| ConstEval.SplitFive | src/main/kotlin/dev/agb/nasmplugin/eval/NasmConstExprEvaluator.kt:265-316 | `a op1 b op2 c` splits at the looser operator, and at the second when both are of one level |
| ConstEval.SplitFiveKinds | src/main/kotlin/dev/agb/nasmplugin/eval/NasmConstExprEvaluator.kt:265-316 | on the token kinds alone: operators at 1 and 3 split at the looser one, and at 3 when both are of one level |
| ConstEval.EvalExpressionSplit | src/main/kotlin/dev/agb/nasmplugin/eval/NasmConstExprEvaluator.kt:223-233 | an expression without whitespace or a leading unary operator that has a binary split combines the values of its two sides |
| ConstEval.EvalPrecedence | src/main/kotlin/dev/agb/nasmplugin/eval/NasmConstExprEvaluator.kt:211-251 | in `a op1 b op2 c` with `op2` binding tighter, `b op2 c` is computed first (lines 265-316 also) |
| ConstEval.EvalLeftAssociative | src/main/kotlin/dev/agb/nasmplugin/eval/NasmConstExprEvaluator.kt:211-251 | with `op2` binding no tighter than `op1`, `a op1 b` is computed first (lines 265-316 also) |
| ConstEval.MacroValueFirst | src/main/kotlin/dev/agb/nasmplugin/eval/NasmConstExprEvaluator.kt:189-196 | a name in the preprocessor's macro table takes its value from there, before any definition or cycle check |
| ConstEval.UnresolvedNotConstant | src/main/kotlin/dev/agb/nasmplugin/eval/NasmConstExprEvaluator.kt:644-690 | a symbol that resolves to nothing (through `resolve()`, or in re-parsed text among the context file's elements), not being evaluated already and not in the macro table, is not a constant |
| ConstEval.SelfReference | src/main/kotlin/dev/agb/nasmplugin/eval/NasmConstExprEvaluator.kt:644-661 | `A equ A` is a circular reference to `A` |
| ConstEval.RefersTo | src/main/kotlin/dev/agb/nasmplugin/eval/NasmConstExprEvaluator.kt:219-220 | an expression that is just a reference evaluates that symbol |
| ConstEval.MutualReference | src/main/kotlin/dev/agb/nasmplugin/eval/NasmConstExprEvaluator.kt:644-661 | `A equ B` with `B equ A` is a circular reference to `A` |
| ConstEval.SumBodyEval | src/main/kotlin/dev/agb/nasmplugin/eval/NasmConstExprEvaluator.kt:702-741 | a `%define` body `s + 1` that must be re-parsed adds the value of `1` to that of `s` looked up among the context file's own named elements (lines 754-776, 896-903 also) |
| ConstEval.ReparsedBody | src/main/kotlin/dev/agb/nasmplugin/eval/NasmConstExprEvaluator.kt:740-776 | a `%define` body that must be re-parsed is evaluated as an expression in context |
| ConstEval.ReparsedBinary | src/main/kotlin/dev/agb/nasmplugin/eval/NasmConstExprEvaluator.kt:740-776 | a re-parsed body `s op r` combines the value of `s`, looked up in context, with that of `r` (lines 896-903 also) |
| ConstEval.DefineCycle | src/main/kotlin/dev/agb/nasmplugin/eval/NasmConstExprEvaluator.kt:644-690 | `%define A B + 1` with `%define B A + 1`, `B` in the context file, ends in a circular reference to `A` (lines 702-776 also) |
| ConstEval.IncludedSymbolOutOfContext | src/main/kotlin/dev/agb/nasmplugin/eval/NasmConstExprEvaluator.kt:896-903 | re-parsed text searches only the context file: `%define X S + 1` is not a constant when `S` is defined only in an included file |
| ConstEval.ArityChecked | src/main/kotlin/dev/agb/nasmplugin/eval/NasmConstExprEvaluator.kt:974-976 | a function-like macro called with the wrong number of arguments is an error starting "Macro function ", whatever its expansion |
| ConstEval.EvalCall | src/main/kotlin/dev/agb/nasmplugin/eval/NasmConstExprEvaluator.kt:966-990 | a call with the right number of arguments evaluates its re-parsed expansion against the context file, and is no constant when that text holds no expression |
| ConstEval.CallOfParameterBody | src/main/kotlin/dev/agb/nasmplugin/eval/NasmConstExprEvaluator.kt:979-990 | a call of a macro whose body is one parameter has as expansion what that trimmed argument re-parses to, which is the text `ExpandMacroBody` gives (`ExpandsFrom`), and evaluates it in the context file, provided the argument is a literal replacement holding no other parameter |
| ConstEval.Evaluator.constructor | src/main/kotlin/dev/agb/nasmplugin/eval/NasmConstExprEvaluator.kt:43-51 | a fresh context holds no symbols and is outside any preprocessor evaluation |
| ConstEval.Evaluator.Evaluate | src/main/kotlin/dev/agb/nasmplugin/eval/NasmConstExprEvaluator.kt:68-112 | no expression is not a constant; otherwise the result is the walk from an empty set, under the macro table when one is given; the set is empty afterwards and the preprocessor flag is what it was |
| ConstEval.Evaluator.EvaluateNode | src/main/kotlin/dev/agb/nasmplugin/eval/NasmConstExprEvaluator.kt:91-112 | the dispatch on the element's type computes `Eval` and leaves the context as it found it (lines 203-209, 789-804 also) |
| ConstEval.Evaluator.EvaluateToken | src/main/kotlin/dev/agb/nasmplugin/eval/NasmConstExprEvaluator.kt:517-533 | a number or string token is evaluated as a literal; any other token is not a constant |
| ConstEval.Evaluator.EvaluateExpression | src/main/kotlin/dev/agb/nasmplugin/eval/NasmConstExprEvaluator.kt:114-145 | the expression walks compute `EvalExpression` and leave the context as they found it (lines 211-251, 806-842 also) |
| ConstEval.Evaluator.EvaluateBinaryOp | src/main/kotlin/dev/agb/nasmplugin/eval/NasmConstExprEvaluator.kt:152-162 | both sides are evaluated from the same set and combined (lines 333-344, 849-859 also) |
| ConstEval.Evaluator.EvaluateNodes | src/main/kotlin/dev/agb/nasmplugin/eval/NasmConstExprEvaluator.kt:375-413 | `evaluateNodesCore` computes `EvalNodes` and leaves the context as it found it |
| ConstEval.Evaluator.EvaluateAtom | src/main/kotlin/dev/agb/nasmplugin/eval/NasmConstExprEvaluator.kt:480-515 | `evaluateAtomExprCore` computes `EvalAtom` and leaves the context as it found it |
| ConstEval.Evaluator.EvaluateSymbol | src/main/kotlin/dev/agb/nasmplugin/eval/NasmConstExprEvaluator.kt:644-690 | the symbol is in the set exactly while its definition is evaluated, and the set is restored afterwards |
| ConstEval.Evaluator.EvaluateDefinition | src/main/kotlin/dev/agb/nasmplugin/eval/NasmConstExprEvaluator.kt:656-685 | `equ` and `%assign` evaluate their expression and `%define` its body, leaving the context as they found it (lines 702-741 also) |
| MacroSubstitution.HasMatchFromSpec | src/main/kotlin/dev/agb/nasmplugin/eval/NasmConstExprEvaluator.kt:1015-1016 | the regex finds a match from a position exactly when `\bname\b` matches at some later index |
| MacroSubstitution.DropZeros | src/main/kotlin/dev/agb/nasmplugin/eval/NasmConstExprEvaluator.kt:1016 | the zeros a `$0` group reference swallows are dropped: the rest is no longer and does not start with `0` |
| MacroSubstitution.ExpandLiteral | src/main/kotlin/dev/agb/nasmplugin/eval/NasmConstExprEvaluator.kt:1016 | a replacement without `$` or `\` stands for itself |
| MacroSubstitution.Quote | src/main/kotlin/dev/agb/nasmplugin/eval/NasmConstExprEvaluator.kt:1016 | escaping a replacement never shortens it |
| MacroSubstitution.ExpandQuote | src/main/kotlin/dev/agb/nasmplugin/eval/NasmConstExprEvaluator.kt:1016 | an escaped replacement expands back to exactly the original text, whatever it holds |
| MacroSubstitution.ReplaceFromNoMatch | src/main/kotlin/dev/agb/nasmplugin/eval/NasmConstExprEvaluator.kt:1016 | without a match from a position the rest of the text is kept |
| MacroSubstitution.ReplaceWordNoMatch | src/main/kotlin/dev/agb/nasmplugin/eval/NasmConstExprEvaluator.kt:1015-1016 | a text without a whole-word occurrence of the name comes back unchanged, whatever the value |
| MacroSubstitution.InsertPermutes | src/main/kotlin/dev/agb/nasmplugin/eval/NasmConstExprEvaluator.kt:1008 | one insertion step of the sort adds exactly its element |
| MacroSubstitution.SortPermutes | src/main/kotlin/dev/agb/nasmplugin/eval/NasmConstExprEvaluator.kt:1008 | `sortedByDescending { it.length }` returns the keys, each as often as before |
| MacroSubstitution.InsertLongestFirst | src/main/kotlin/dev/agb/nasmplugin/eval/NasmConstExprEvaluator.kt:1008 | one insertion step keeps the list longest first |
| MacroSubstitution.SortLongestFirst | src/main/kotlin/dev/agb/nasmplugin/eval/NasmConstExprEvaluator.kt:1008 | the sorted keys come longest first |
| MacroSubstitution.InsertOfLength | src/main/kotlin/dev/agb/nasmplugin/eval/NasmConstExprEvaluator.kt:1008 | inserting adds the element behind the others of its length |
| MacroSubstitution.SortStable | src/main/kotlin/dev/agb/nasmplugin/eval/NasmConstExprEvaluator.kt:1008 | the sort is stable: names of one length keep their order |
| MacroSubstitution.AllWordsSorted | src/main/kotlin/dev/agb/nasmplugin/eval/NasmConstExprEvaluator.kt:1008-1015 | sorting keeps every key a word, so each still reads literally inside `\b...\b` |
| MacroSubstitution.SubstituteParameters | src/main/kotlin/dev/agb/nasmplugin/eval/NasmConstExprEvaluator.kt:1003-1020 | the loop over the sorted keys replaces each parameter, longest first, as a whole word by its value, each in the text the previous ones left, and fails where a replacement string throws |
| MacroSubstitution.Zip | src/main/kotlin/dev/agb/nasmplugin/eval/NasmConstExprEvaluator.kt:979 | `zip` pairs the lists position by position up to the shorter length |
| MacroSubstitution.TrimAll | src/main/kotlin/dev/agb/nasmplugin/eval/NasmConstExprEvaluator.kt:980 | each argument is trimmed |
| MacroSubstitution.ParamMapContents | src/main/kotlin/dev/agb/nasmplugin/eval/NasmConstExprEvaluator.kt:979-981 | the parameter map holds each parameter once, in its first position, mapped to its last trimmed argument |
| MacroSubstitution.ZipKeys | src/main/kotlin/dev/agb/nasmplugin/eval/NasmConstExprEvaluator.kt:979 | zipping equal-length lists keeps the first list as the keys |
| MacroSubstitution.WordEnd | src/main/kotlin/dev/agb/nasmplugin/eval/NasmConstExprEvaluator.kt:1015 | the end of the word starting at a position: only word characters before it and a word boundary at it |
| MacroSubstitution.MatchAtWord | src/main/kotlin/dev/agb/nasmplugin/eval/NasmConstExprEvaluator.kt:1015 | `\bname\b` matches exactly where a word boundary is followed by the whole word `name` |
| MacroSubstitution.ReplaceFromIsSubstitute | src/main/kotlin/dev/agb/nasmplugin/eval/NasmConstExprEvaluator.kt:1016 | for one parameter, regex replacement is the plain whole-word substitution |
| MacroSubstitution.ReplaceWordIsSubstitute | src/main/kotlin/dev/agb/nasmplugin/eval/NasmConstExprEvaluator.kt:1015-1016 | for one parameter, replacing with a replacement string that expands to a value substitutes that value |
| MacroSubstitution.LiteralSingleParameter | src/main/kotlin/dev/agb/nasmplugin/eval/NasmConstExprEvaluator.kt:1015-1016 | an argument without `$` or `\` is substituted literally |
| MacroSubstitution.QuotedSingleParameter | src/main/kotlin/dev/agb/nasmplugin/eval/NasmConstExprEvaluator.kt:1015-1016 | escaping the argument first would make any argument substitute literally |
| MacroSubstitution.SubstituteAllSkip | src/main/kotlin/dev/agb/nasmplugin/eval/NasmConstExprEvaluator.kt:1003-1020 | parameters without a value, or without a whole-word occurrence in the text, leave the text as it is for the rest of the loop |
| MacroSubstitution.SubstituteAllUnchanged | src/main/kotlin/dev/agb/nasmplugin/eval/NasmConstExprEvaluator.kt:1003-1020 | a text in which no parameter with a value occurs as a whole word comes out of the loop unchanged |
| MacroSubstitution.SubstituteAllNoInitial | src/main/kotlin/dev/agb/nasmplugin/eval/NasmConstExprEvaluator.kt:1003-1020 | a text in which no character starts a parameter name comes out of the loop unchanged |
| MacroSubstitution.SubstituteAllLiteral | src/main/kotlin/dev/agb/nasmplugin/eval/NasmConstExprEvaluator.kt:1003-1020 | when no value holds `$` or `\`, no replacement throws and the loop always yields a text |
| MacroSubstitution.SubstituteParameterAlone | src/main/kotlin/dev/agb/nasmplugin/eval/NasmConstExprEvaluator.kt:1003-1020 | a text that is just a parameter: the longer parameters before it cannot match, it becomes its expanded argument, and the later, shorter parameters are then replaced inside that argument |
| MacroSubstitution.LongerNamesSkip | src/main/kotlin/dev/agb/nasmplugin/eval/NasmConstExprEvaluator.kt:1008-1017 | names longest first: the names before `p` in the sorted list never match in the text `p` |
| MacroSubstitution.ReplaceWholeText | src/main/kotlin/dev/agb/nasmplugin/eval/NasmConstExprEvaluator.kt:1015-1016 | replacing a name in a text that is exactly that name gives the expanded replacement string, or fails where that throws |
| MacroSubstitution.SortNoDuplicates | src/main/kotlin/dev/agb/nasmplugin/eval/NasmConstExprEvaluator.kt:1008 | sorting keys without repeats keeps them without repeats |
| MacroSubstitution.ParamMapWords | src/main/kotlin/dev/agb/nasmplugin/eval/NasmConstExprEvaluator.kt:979-1008 | the sorted keys of the parameter map are words, without repeats, and exactly the parameters |
| MacroSubstitution.ParamMapValueAt | src/main/kotlin/dev/agb/nasmplugin/eval/NasmConstExprEvaluator.kt:979-981 | each parameter's value is the trimmed argument at one of its positions |
| MacroSubstitution.ParamMapDomain | src/main/kotlin/dev/agb/nasmplugin/eval/NasmConstExprEvaluator.kt:979-981 | the parameter map has a value for exactly the parameters |
| MacroSubstitution.ParamMapLiteral | src/main/kotlin/dev/agb/nasmplugin/eval/NasmConstExprEvaluator.kt:979-981 | arguments without `$` and `\` give map values without them |
| MacroSubstitution.TrimWord | src/main/kotlin/dev/agb/nasmplugin/eval/NasmConstExprEvaluator.kt:980-984 | a parameter name has no whitespace to trim |
| MacroSubstitution.ExpandMacroBody | src/main/kotlin/dev/agb/nasmplugin/eval/NasmConstExprEvaluator.kt:979-1020 | the call's expansion is the trimmed body with the parameters replaced in turn, longest first; it always yields a text when no trimmed argument holds `$` or `\` |
| MacroSubstitution.ExpandMacroBodyNoParameter | src/main/kotlin/dev/agb/nasmplugin/eval/NasmConstExprEvaluator.kt:979-1020 | a body in which no parameter occurs as a whole word expands to the trimmed body |
| MacroSubstitution.ExpandMacroBodyParameter | src/main/kotlin/dev/agb/nasmplugin/eval/NasmConstExprEvaluator.kt:979-1020 | a body that is one parameter expands to that parameter's last trimmed argument when that argument holds neither `$`, `\` nor another parameter as a whole word |
| MacroSubstitution.ExpandMacroBodyParameterThrows | src/main/kotlin/dev/agb/nasmplugin/eval/NasmConstExprEvaluator.kt:979-1020 | a body that is one parameter fails to expand when its argument is a replacement string that throws |
| MacroSubstitution.ExpandParameterAlone | src/main/kotlin/dev/agb/nasmplugin/eval/NasmConstExprEvaluator.kt:979-1020 | a body that is one parameter becomes its expanded argument, in which only shorter, other parameters are then replaced |
| MacroSubstitution.SubstituteIsTokenwise | src/main/kotlin/dev/agb/nasmplugin/eval/NasmConstExprEvaluator.kt:1015-1016 | whole-word substitution of all parameters at once (the reference the loop is compared with) replaces each word token by its value and keeps every other character |
| MacroSubstitution.SubstituteTwice | src/main/kotlin/dev/agb/nasmplugin/eval/NasmConstExprEvaluator.kt:1003-1020 | substituting two maps one after the other equals substituting once with the first winning, when no value of the first map holds a parameter of the second as a word |
| MacroSubstitution.Restrict | src/main/kotlin/dev/agb/nasmplugin/eval/NasmConstExprEvaluator.kt:1003-1020 | the values of just the listed parameters |
| MacroSubstitution.SequentialIsSimultaneous | src/main/kotlin/dev/agb/nasmplugin/eval/NasmConstExprEvaluator.kt:1003-1020 | the loop's replacement in turn equals substituting all parameters at once when no value holds `$`, `\` or another parameter as a whole word; the order of the names then does not matter |
| MacroSubstitution.FirstThenRest | src/main/kotlin/dev/agb/nasmplugin/eval/NasmConstExprEvaluator.kt:1003-1020 | replacing the first parameter and then the rest at once equals replacing all of them at once, when the first value holds no other parameter |
| MacroSubstitution.ExpandMacroBodySimultaneous | src/main/kotlin/dev/agb/nasmplugin/eval/NasmConstExprEvaluator.kt:979-1020 | a call's expansion equals substituting every trimmed argument at once when no argument holds `$`, `\` or another parameter as a whole word |
| MacroSubstitution.ChainFirstStep | src/main/kotlin/dev/agb/nasmplugin/eval/NasmConstExprEvaluator.kt:1016 | replacing `x` by `y` in `x+y` gives `y+y` |
| MacroSubstitution.ChainSecondStep | src/main/kotlin/dev/agb/nasmplugin/eval/NasmConstExprEvaluator.kt:1016 | replacing `y` by `1` in `y+y` gives `1+1` |
| MacroSubstitution.ChainedSubstitution | src/main/kotlin/dev/agb/nasmplugin/eval/NasmConstExprEvaluator.kt:1010-1017 | the replacements run in turn, so a call `F(y, 1)` of body `x+y` expands to `1+1`: the argument `y` is substituted again |
| MacroSubstitution.SimultaneousSubstitution | src/main/kotlin/dev/agb/nasmplugin/eval/NasmConstExprEvaluator.kt:1003-1020 | the reference substitution of all parameters at once gives `y+1` for the same call |
| MacroSubstitution.DollarArgumentThrows | src/main/kotlin/dev/agb/nasmplugin/eval/NasmConstExprEvaluator.kt:1016 | an argument `$` is read as a group reference and the replacement throws |
| MacroSubstitution.DollarArgumentLiteral | src/main/kotlin/dev/agb/nasmplugin/eval/NasmConstExprEvaluator.kt:1016 | the reference substitution, reading the argument literally, replaces the parameter by `$` |
| ParserCursor.Significant | src/main/kotlin/dev/agb/nasmplugin/parser/NasmParserDefinition.kt:26-35 | the parser sees the token kinds without whitespace and comments, in order |
| ParserCursor.Token | src/main/gen/dev/agb/nasmplugin/parser/NasmParser.java:45 | `consumeToken` advances by one exactly when the token at the cursor is of the kind |
| ParserCursor.TokenIn | src/main/gen/dev/agb/nasmplugin/parser/NasmParser.java:90-91 | a choice among single tokens advances by one exactly when the next token is one of them |
| ParserCursor.Tried | src/main/gen/dev/agb/nasmplugin/parser/NasmParser.java:40-50 | an item tried after a pin leaves the cursor where it was or where the item ended |
| ParserCursor.Matched | src/main/gen/dev/agb/nasmplugin/parser/NasmParser.java:244 | the longest prefix of a token run found at the cursor: it matches there, and the next kind does not |
| ParserCursor.Attempt | src/main/gen/dev/agb/nasmplugin/parser/NasmParser.java:587-597 | each remaining kind of a pinned run is consumed if present and skipped otherwise, moving at most one token per kind |
| ParserCursor.ConsumeTokens | src/main/gen/dev/agb/nasmplugin/parser/NasmParser.java:244 | without a pin the run succeeds exactly when all its kinds follow in order; with a pin it succeeds once the pinned kinds are consumed and moves past at least those (lines 592 also) |
| ParserCursor.ParseTokens | src/main/gen/dev/agb/nasmplugin/parser/NasmParser.java:531 | `parseTokens` without a pin succeeds exactly when the kinds follow in order, and then consumes exactly them |
| GrammarProperties.NumberAtom | src/main/gen/dev/agb/nasmplugin/parser/NasmParser.java:294-313 | a `NUMBER` alone is an atom |
| GrammarProperties.NumberMulExpr | src/main/gen/dev/agb/nasmplugin/parser/NasmParser.java:3149-3157 | a `NUMBER` not followed by a multiplicative operator is a whole `mul_expr` |
| GrammarProperties.ProductMulExpr | src/main/gen/dev/agb/nasmplugin/parser/NasmParser.java:3149-3157 | `NUMBER * NUMBER` not followed by a multiplicative operator is a whole `mul_expr` |
| GrammarProperties.MulBindsTighter | src/main/gen/dev/agb/nasmplugin/parser/NasmParser.java:54-62 | wherever `NUMBER + NUMBER * NUMBER` stands, followed by the end or a token of neither level, the left operand of `+` is the first number, the right one the whole product, and `add_expr` spans all five tokens (lines 3149-3157 also) |
| GrammarProperties.AddExprLoop | src/main/gen/dev/agb/nasmplugin/parser/NasmParser.java:65-73 | the `while (true)` loop with its `empty_element_parsed_guard_` ends where the recursive rendering ends, and one more iteration would fail there |
| GrammarProperties.ProgramStops | src/main/gen/dev/agb/nasmplugin/parser/NasmParser.java:3897-3899 | `program` always succeeds, and stops at the end of input or where no `source_line` parses (lines 4296-4306 also) |
| GrammarProperties.AbsoluteDirPinned | src/main/gen/dev/agb/nasmplugin/parser/NasmParser.java:40-50 | `absolute_dir` succeeds exactly at `ABSOLUTE_KW`, taking the `const_expr` after it when there is one and stopping after the keyword when not |
| GrammarProperties.CommonDirPinned | src/main/gen/dev/agb/nasmplugin/parser/NasmParser.java:587-597 | after `COMMON_KW` `common_dir` succeeds whether or not the `IDENTIFIER` follows, and tries the `const_expr` where the pinned run stopped |
| GrammarProperties.BraceSequenceNotAtCloser | src/main/gen/dev/agb/nasmplugin/parser/NasmParser.java:438-450 | a brace token run never starts at `}` |
| GrammarProperties.BraceSequenceStopsAtCloser | src/main/gen/dev/agb/nasmplugin/parser/NasmParser.java:416-450 | a `}` right after an element ends the run there |
| GrammarProperties.ConditionalLinesStopAtMarker | src/main/gen/dev/agb/nasmplugin/parser/NasmParser.java:852-871 | at `%elif`, `%elifmacro`, `%else` or `%endif` the branch body is empty and the marker is left for the block |
| GrammarProperties.ConditionalLinesEnd | src/main/gen/dev/agb/nasmplugin/parser/NasmParser.java:852-871 | a branch body always parses and ends at a branch marker or where no `source_line` parses |
| GrammarProperties.EquLineFirst | src/main/gen/dev/agb/nasmplugin/parser/NasmParser.java:4273-4292 | `source_line` takes `equ_line` whenever it applies |
| GrammarProperties.LabelWithDataFirst | src/main/gen/dev/agb/nasmplugin/parser/NasmParser.java:4273-4292 | when none of the four alternatives before it applies, `source_line` takes `label_with_data_line` over the later ones |
| Paths.Parse | src/main/kotlin/dev/agb/nasmplugin/navigation/NasmFallbackIncludePathResolver.kt:33 | `Paths.get` yields a valid path that is absolute exactly when the text starts with `/` |
| Paths.ToString | src/main/kotlin/dev/agb/nasmplugin/navigation/NasmFallbackIncludePathResolver.kt:35 | an absolute path prints with a leading `/`, and a non-empty valid path never prints with a trailing `/` |
| Paths.NamesOfJoin | src/main/kotlin/dev/agb/nasmplugin/navigation/NasmFallbackIncludePathResolver.kt:35 | splitting the slash-joined names of a valid name list gives that list back |
| Paths.ParseToString | src/main/kotlin/dev/agb/nasmplugin/navigation/NasmFallbackIncludePathResolver.kt:33-36 | printing a valid path and parsing the text again gives the same path |
| Paths.Resolve | src/main/kotlin/dev/agb/nasmplugin/clion/projectmodel/NasmCompilationInfo.kt:74 | `resolve` returns an absolute argument unchanged and otherwise extends the base's names, keeping the base's absoluteness and validity |
| Paths.Normalize | src/main/kotlin/dev/agb/nasmplugin/clion/projectmodel/NasmCompilationInfo.kt:71-75 | `normalize` keeps absoluteness and validity and yields a normalized path: no `.`, no `..` after a proper name, no `..` in an absolute path |
| Paths.NormalizeFrom | src/main/kotlin/dev/agb/nasmplugin/clion/projectmodel/NasmCompilationInfo.kt:72 | the stack walk over the names keeps the result normalized and made of valid names |
| Paths.NormalizeFromNormalized | src/main/kotlin/dev/agb/nasmplugin/clion/projectmodel/NasmCompilationInfo.kt:72 | the walk leaves already normalized names unchanged |
| Paths.NormalizeIdempotent | src/main/kotlin/dev/agb/nasmplugin/clion/projectmodel/NasmCompilationInfo.kt:71-75 | normalizing a normalized path changes nothing |
| Text.Trim | src/main/kotlin/dev/agb/nasmplugin/clion/projectmodel/MakeOutputParser.kt:55 | `trim()` leaves text that starts and ends with a non-whitespace character, or nothing |
| Text.TrimSlice | src/main/kotlin/dev/agb/nasmplugin/clion/projectmodel/MakeOutputParser.kt:55 | what `trim()` leaves is a contiguous slice of its input |
| Text.TrimEmptyIff | src/main/kotlin/dev/agb/nasmplugin/clion/projectmodel/MakeOutputParser.kt:55 | `trim()` gives the empty string exactly when the input is all whitespace |
| Text.SplitOnce | src/main/kotlin/dev/agb/nasmplugin/clion/projectmodel/NasmCompilationInfo.kt:92-93 | `split('=', limit = 2)`: the name holds no `=`; without `=` it is the whole text, otherwise name, `=` and value rebuild the text |
| Text.SplitOnceAt | src/main/kotlin/dev/agb/nasmplugin/settings/CommandLineMacroProvider.kt:147 | splitting `name=value` at its first `=` gives back exactly that name and value, and text without `=` gives no value |
| Text.Split | src/main/kotlin/dev/agb/nasmplugin/clion/projectmodel/MakeOutputParser.kt:54 | `split(c)` gives at least one piece and no piece holds `c` |
| Text.JoinSplit | src/main/kotlin/dev/agb/nasmplugin/clion/projectmodel/MakeOutputParser.kt:54 | joining the pieces of a split with the separator rebuilds the text |
| Text.Lines | src/main/kotlin/dev/agb/nasmplugin/clion/projectmodel/MakeOutputParser.kt:54 | `lines()` gives at least one line and no line holds a line break |
| Text.LowerIdempotent | src/main/kotlin/dev/agb/nasmplugin/editor/NasmEnterHandler.kt:42 | lower-casing twice is lower-casing once |
| LinkedMaps.PutKeys | src/main/kotlin/dev/agb/nasmplugin/settings/CommandLineMacroProvider.kt:64-66 | `map[k] = v` keeps an existing key in its place and appends a new key |
| LinkedMaps.PutAllKeys | src/main/kotlin/dev/agb/nasmplugin/settings/CommandLineMacroProvider.kt:64-68 | after a sequence of puts the keys have no repeats and are in first-insertion order |
| LinkedMaps.PutAllMap | src/main/kotlin/dev/agb/nasmplugin/settings/CommandLineMacroProvider.kt:64-68 | after a sequence of puts each key holds the value of its last put: the start overridden by the pairs |
| LinkedMaps.PutAllFreshKeys | src/main/kotlin/dev/agb/nasmplugin/clion/projectmodel/NasmCompilationInfo.kt:84-94 | filled from empty, the keys are the distinct keys of the pairs in first-occurrence order |
| LinkedMaps.PutAllFreshMap | src/main/kotlin/dev/agb/nasmplugin/clion/projectmodel/NasmCompilationInfo.kt:84-94 | filled from empty, the map gives each key its last pair's value |
| Seqs.IndexWhereIn | src/main/kotlin/dev/agb/nasmplugin/clion/projectmodel/ProjectModelIncludePathResolver.kt:44 | the index found is the first element in the set; none is found only when no element is |
| Seqs.DistinctSpec | src/main/kotlin/dev/agb/nasmplugin/clion/projectmodel/ProjectModelIncludePathResolver.kt:44 | `distinct()` has no repeats and keeps exactly the elements of its input |
| Seqs.DistinctConcat | src/main/kotlin/dev/agb/nasmplugin/clion/projectmodel/ProjectModelIncludePathResolver.kt:44 | deduplicating `a + b` lists the deduplicated `a` first, then what of `b` is new |
| Seqs.MapOfDomain | src/main/kotlin/dev/agb/nasmplugin/clion/projectmodel/NasmCompilationInfo.kt:84-94 | a key is in the map exactly when some pair has it |
| Seqs.MapOfLaterWins | src/main/kotlin/dev/agb/nasmplugin/clion/projectmodel/NasmCompilationInfo.kt:84-94 | the last pair with a key gives that key's value |
| StringOrder.LessTotal | src/main/kotlin/dev/agb/nasmplugin/documentation/NasmDocumentationProvider.kt:202 | two different strings are ordered one way or the other by `compareTo` |
| StringOrder.LessTransitive | src/main/kotlin/dev/agb/nasmplugin/documentation/NasmDocumentationProvider.kt:202 | the `compareTo` order is transitive |
| StringOrder.SortSpec | src/main/kotlin/dev/agb/nasmplugin/documentation/NasmDocumentationProvider.kt:202 | `sorted()` returns a sorted permutation of its input |
| StringOrder.AddToSetSpec | src/main/kotlin/dev/agb/nasmplugin/documentation/NasmDocumentationProvider.kt:185 | adding to a sorted set keeps it strictly sorted and adds exactly the new element |
| NasmGrammar.AbsoluteDir | src/main/gen/dev/agb/nasmplugin/parser/NasmParser.java:40-50 | `absolute_dir`: a success consumes at least one token; succeeds only when the next token is `ABSOLUTE_KW` |
| NasmGrammar.AddExpr | src/main/gen/dev/agb/nasmplugin/parser/NasmParser.java:54-62 | `add_expr`: a success consumes at least one token |
| NasmGrammar.AddExpr_1 | src/main/gen/dev/agb/nasmplugin/parser/NasmParser.java:65-73 | `add_expr_1`: never fails; a success leaves the cursor within the input, possibly where it was; the repetition stops only where one more `AddExpr_1_0` would fail; it consumes tokens only when the next token is one of `MINUS`, `PLUS` |
| NasmGrammar.AddExpr_1_0 | src/main/gen/dev/agb/nasmplugin/parser/NasmParser.java:76-84 | `add_expr_1_0`: a success consumes at least one token; succeeds only when the next token is one of `MINUS`, `PLUS` |
| NasmGrammar.AlignDir | src/main/gen/dev/agb/nasmplugin/parser/NasmParser.java:98-106 | `align_dir`: a success consumes at least one token; succeeds only when the next token is one of `ALIGNB_KW`, `ALIGN_KW`, `SECTALIGN_KW` |
| NasmGrammar.AlignDir_0 | src/main/gen/dev/agb/nasmplugin/parser/NasmParser.java:109-118 | `align_dir_0`: a success consumes at least one token; succeeds only when the next token is one of `ALIGNB_KW`, `ALIGN_KW` |
| NasmGrammar.AlignDir_0_2 | src/main/gen/dev/agb/nasmplugin/parser/NasmParser.java:130-134 | `align_dir_0_2`: never fails; a success leaves the cursor within the input, possibly where it was; it consumes tokens only when the next token is `COMMA` |
| NasmGrammar.AlignDir_0_2_0 | src/main/gen/dev/agb/nasmplugin/parser/NasmParser.java:137-145 | `align_dir_0_2_0`: a success consumes at least one token; succeeds only when the next token is `COMMA` |
| NasmGrammar.AlignDir_1 | src/main/gen/dev/agb/nasmplugin/parser/NasmParser.java:148-156 | `align_dir_1`: a success consumes at least one token; succeeds only when the next token is `SECTALIGN_KW` |
| NasmGrammar.AlignFill | src/main/gen/dev/agb/nasmplugin/parser/NasmParser.java:160-168 | `align_fill`: a success consumes at least one token |
| NasmGrammar.AlignFill_0 | src/main/gen/dev/agb/nasmplugin/parser/NasmParser.java:171-179 | `align_fill_0`: a success consumes at least one token; succeeds only when the next token is `DATA_SIZE` |
| NasmGrammar.AndExpr | src/main/gen/dev/agb/nasmplugin/parser/NasmParser.java:183-191 | `and_expr`: a success consumes at least one token |
| NasmGrammar.AndExpr_1 | src/main/gen/dev/agb/nasmplugin/parser/NasmParser.java:194-202 | `and_expr_1`: never fails; a success leaves the cursor within the input, possibly where it was; the repetition stops only where one more `AndExpr_1_0` would fail; it consumes tokens only when the next token is `AMP` |
| NasmGrammar.AndExpr_1_0 | src/main/gen/dev/agb/nasmplugin/parser/NasmParser.java:205-213 | `and_expr_1_0`: a success consumes at least one token; succeeds only when the next token is `AMP` |
| NasmGrammar.ArgDirective | src/main/gen/dev/agb/nasmplugin/parser/NasmParser.java:217-226 | `arg_directive`: a success consumes at least one token; succeeds only when the next token is `IDENTIFIER` |
| NasmGrammar.ArgDirective_1 | src/main/gen/dev/agb/nasmplugin/parser/NasmParser.java:229-237 | `arg_directive_1`: never fails; a success leaves the cursor within the input, possibly where it was; the repetition stops only where one more `ArgDirective_1_0` would fail; it consumes tokens only when the next token is `COMMA` |
| NasmGrammar.ArgDirective_1_0 | src/main/gen/dev/agb/nasmplugin/parser/NasmParser.java:240-247 | `arg_directive_1_0`: a success consumes at least one token; succeeds only when the next token is `COMMA` |
| NasmGrammar.Assignment | src/main/gen/dev/agb/nasmplugin/parser/NasmParser.java:253-262 | `assignment`: a success consumes at least one token; succeeds only when the next token is one of `CONTEXT_LOCAL_REF`, `IDENTIFIER`, `MACRO_ASSIGN`, `MACRO_DEFINE`, `MACRO_EXPANSION_START`, `MACRO_EXPLICIT_START`, `MACRO_LOCAL_REF`, `MACRO_PARAM`, `MACRO_PARAM_GREEDY`, `MACRO_PARAM_REVERSE` |
| NasmGrammar.AtDirective | src/main/gen/dev/agb/nasmplugin/parser/NasmParser.java:266-278 | `at_directive`: a success consumes at least one token; succeeds only when the next token is `AT_KW` |
| NasmGrammar.AtomExpr | src/main/gen/dev/agb/nasmplugin/parser/NasmParser.java:294-313 | `atom_expr`: a success consumes at least one token |
| NasmGrammar.AtomExpr_0 | src/main/gen/dev/agb/nasmplugin/parser/NasmParser.java:316-325 | `atom_expr_0`: a success consumes at least one token; succeeds only when the next token is `LPAREN` |
| NasmGrammar.AtomExpr_1 | src/main/gen/dev/agb/nasmplugin/parser/NasmParser.java:328-337 | `atom_expr_1`: a success consumes at least one token; succeeds only when the next token is `LBRACE` |
| NasmGrammar.BaseTokenElement | src/main/gen/dev/agb/nasmplugin/parser/NasmParser.java:360-384 | `base_token_element`: a success consumes at least one token |
| NasmGrammar.BitsDir | src/main/gen/dev/agb/nasmplugin/parser/NasmParser.java:391-401 | `bits_dir`: a success consumes at least one token; succeeds only when the next token is one of `BITS_KW`, `USE16_KW`, `USE32_KW`, `USE64_KW` |
| NasmGrammar.BitsDir_0 | src/main/gen/dev/agb/nasmplugin/parser/NasmParser.java:404-412 | `bits_dir_0`: a success consumes at least one token; succeeds only when the next token is `BITS_KW` |
| NasmGrammar.BraceToken | src/main/gen/dev/agb/nasmplugin/parser/NasmParser.java:416-424 | `brace_token`: a success consumes at least one token |
| NasmGrammar.BraceToken_0 | src/main/gen/dev/agb/nasmplugin/parser/NasmParser.java:427-434 | `brace_token_0`: a success leaves the cursor within the input, possibly where it was; a success consumes nothing |
| NasmGrammar.BraceTokenSequence | src/main/gen/dev/agb/nasmplugin/parser/NasmParser.java:438-450 | `brace_token_sequence`: a success consumes at least one token; the repetition stops only where one more `BraceToken` would fail |
| NasmGrammar.BracketedDirective | src/main/gen/dev/agb/nasmplugin/parser/NasmParser.java:455-464 | `bracketed_directive`: a success consumes at least one token; succeeds only when the next token is `LBRACKET` |
| NasmGrammar.BracketedDirective_0 | src/main/gen/dev/agb/nasmplugin/parser/NasmParser.java:467-476 | `bracketed_directive_0`: a success consumes at least one token; succeeds only when the next token is `LBRACKET` |
| NasmGrammar.BracketedDirective_1 | src/main/gen/dev/agb/nasmplugin/parser/NasmParser.java:479-488 | `bracketed_directive_1`: a success consumes at least one token; succeeds only when the next token is `LBRACKET` |
| NasmGrammar.BracketedDirective_1_2 | src/main/gen/dev/agb/nasmplugin/parser/NasmParser.java:491-503 | `bracketed_directive_1_2`: a success consumes at least one token; it stops only where no further `IDENTIFIER` follows; succeeds only when the next token is `IDENTIFIER` |
| NasmGrammar.BuiltinFunction | src/main/gen/dev/agb/nasmplugin/parser/NasmParser.java:510-520 | `builtin_function`: a success consumes at least one token; succeeds only when the next token is one of `BUILTIN_FUNC`, `DEFINED`, `MACRO_STRCAT`, `MACRO_STRLEN`, `MACRO_SUBSTR`, `PREPROCESSOR_DIRECTIVE`, `QUERY`, `QUERY_EXPAND`, `STRING_FUNC` |
| NasmGrammar.ClearDir | src/main/gen/dev/agb/nasmplugin/parser/NasmParser.java:526-535 | `clear_dir`: a success consumes at least one token; succeeds only when the next token is one of `MACRO_CLEAR`, `MACRO_UNDEF`, `MACRO_UNMACRO` |
| NasmGrammar.ClearDir_0 | src/main/gen/dev/agb/nasmplugin/parser/NasmParser.java:538-546 | `clear_dir_0`: a success consumes at least one token; succeeds only when the next token is `MACRO_CLEAR` |
| NasmGrammar.ClearDir_0_1 | src/main/gen/dev/agb/nasmplugin/parser/NasmParser.java:549-553 | `clear_dir_0_1`: never fails; a success leaves the cursor within the input, possibly where it was; it consumes tokens only when the next token is `IDENTIFIER` |
| NasmGrammar.ClearDir_2 | src/main/gen/dev/agb/nasmplugin/parser/NasmParser.java:556-564 | `clear_dir_2`: a success consumes at least one token; succeeds only when the next token is `MACRO_UNMACRO` |
| NasmGrammar.ClearDir_2_2 | src/main/gen/dev/agb/nasmplugin/parser/NasmParser.java:567-571 | `clear_dir_2_2`: never fails; a success leaves the cursor within the input, possibly where it was; it consumes tokens only when the next token is `NUMBER` |
| NasmGrammar.ClearTarget | src/main/gen/dev/agb/nasmplugin/parser/NasmParser.java:575-583 | `clear_target`: succeeds exactly when the next token is `IDENTIFIER`; a success consumes exactly one token |
| NasmGrammar.CommonDir | src/main/gen/dev/agb/nasmplugin/parser/NasmParser.java:587-597 | `common_dir`: a success consumes at least one token; succeeds only when the next token is `COMMON_KW` |
| NasmGrammar.ComparisonExpr | src/main/gen/dev/agb/nasmplugin/parser/NasmParser.java:601-609 | `comparison_expr`: a success consumes at least one token |
| NasmGrammar.ComparisonExpr_1 | src/main/gen/dev/agb/nasmplugin/parser/NasmParser.java:612-620 | `comparison_expr_1`: never fails; a success leaves the cursor within the input, possibly where it was; the repetition stops only where one more `ComparisonExpr_1_0` would fail; it consumes tokens only when the next token is one of `EQ_EQ`, `GT`, `GTE`, `LT`, `LTE`, `NOT_EQUAL_1`, `NOT_EQUAL_2`, `SPACESHIP` |
| NasmGrammar.ComparisonExpr_1_0 | src/main/gen/dev/agb/nasmplugin/parser/NasmParser.java:623-631 | `comparison_expr_1_0`: a success consumes at least one token; succeeds only when the next token is one of `EQ_EQ`, `GT`, `GTE`, `LT`, `LTE`, `NOT_EQUAL_1`, `NOT_EQUAL_2`, `SPACESHIP` |
| NasmGrammar.ComparisonOp | src/main/gen/dev/agb/nasmplugin/parser/NasmParser.java:635-647 | `comparison_op`: succeeds exactly when the next token is one of `EQ_EQ`, `NOT_EQUAL_1`, `NOT_EQUAL_2`, `LT`, `LTE`, `GT`, `GTE`, `SPACESHIP`; a success consumes exactly one token |
| NasmGrammar.Condition | src/main/gen/dev/agb/nasmplugin/parser/NasmParser.java:652-660 | `condition`: a success consumes at least one token |
| NasmGrammar.ConditionalBlock | src/main/gen/dev/agb/nasmplugin/parser/NasmParser.java:664-676 | `conditional_block`: a success consumes at least one token; succeeds only when the next token is one of `MACRO_IF`, `MACRO_IFDEF`, `MACRO_IFMACRO`, `MACRO_IFNDEF` |
| NasmGrammar.ConditionalBlock_4 | src/main/gen/dev/agb/nasmplugin/parser/NasmParser.java:679-683 | `conditional_block_4`: never fails; a success leaves the cursor within the input, possibly where it was; it consumes tokens only when the next token is `CRLF` |
| NasmGrammar.ConditionalContent | src/main/gen/dev/agb/nasmplugin/parser/NasmParser.java:687-695 | `conditional_content`: never fails; a success leaves the cursor within the input, possibly where it was |
| NasmGrammar.ConditionalContent_1 | src/main/gen/dev/agb/nasmplugin/parser/NasmParser.java:698-702 | `conditional_content_1`: never fails; a success leaves the cursor within the input, possibly where it was; it consumes tokens only when the next token is one of `MACRO_ELIF`, `MACRO_ELIFMACRO`, `MACRO_ELSE` |
| NasmGrammar.ConditionalData | src/main/gen/dev/agb/nasmplugin/parser/NasmParser.java:709-725 | `conditional_data`: a success consumes at least one token; succeeds only when the next token is `MACRO_IF` |
| NasmGrammar.ConditionalData_5 | src/main/gen/dev/agb/nasmplugin/parser/NasmParser.java:728-736 | `conditional_data_5`: never fails; a success leaves the cursor within the input, possibly where it was; the repetition stops only where one more `ConditionalData_5_0` would fail; it consumes tokens only when the next token is `MACRO_ELIF` |
| NasmGrammar.ConditionalData_5_0 | src/main/gen/dev/agb/nasmplugin/parser/NasmParser.java:739-750 | `conditional_data_5_0`: a success consumes at least one token; succeeds only when the next token is `MACRO_ELIF` |
| NasmGrammar.ConditionalData_6 | src/main/gen/dev/agb/nasmplugin/parser/NasmParser.java:753-757 | `conditional_data_6`: never fails; a success leaves the cursor within the input, possibly where it was; it consumes tokens only when the next token is `MACRO_ELSE` |
| NasmGrammar.ConditionalData_6_0 | src/main/gen/dev/agb/nasmplugin/parser/NasmParser.java:760-769 | `conditional_data_6_0`: a success consumes at least one token; succeeds only when the next token is `MACRO_ELSE` |
| NasmGrammar.ConditionalMarker | src/main/gen/dev/agb/nasmplugin/parser/NasmParser.java:773-781 | `conditional_marker`: succeeds exactly when the next token is one of `MACRO_ELIF`, `MACRO_ELIFMACRO`, `MACRO_ELSE`, `MACRO_ENDIF`; a success consumes exactly one token |
| NasmGrammar.ConditionalOperand | src/main/gen/dev/agb/nasmplugin/parser/NasmParser.java:788-804 | `conditional_operand`: a success consumes at least one token; succeeds only when the next token is `MACRO_IF` |
| NasmGrammar.ConditionalOperand_5 | src/main/gen/dev/agb/nasmplugin/parser/NasmParser.java:807-815 | `conditional_operand_5`: never fails; a success leaves the cursor within the input, possibly where it was; the repetition stops only where one more `ConditionalOperand_5_0` would fail; it consumes tokens only when the next token is `MACRO_ELIF` |
| NasmGrammar.ConditionalOperand_5_0 | src/main/gen/dev/agb/nasmplugin/parser/NasmParser.java:818-829 | `conditional_operand_5_0`: a success consumes at least one token; succeeds only when the next token is `MACRO_ELIF` |
| NasmGrammar.ConditionalOperand_6 | src/main/gen/dev/agb/nasmplugin/parser/NasmParser.java:832-836 | `conditional_operand_6`: never fails; a success leaves the cursor within the input, possibly where it was; it consumes tokens only when the next token is `MACRO_ELSE` |
| NasmGrammar.ConditionalOperand_6_0 | src/main/gen/dev/agb/nasmplugin/parser/NasmParser.java:839-848 | `conditional_operand_6_0`: a success consumes at least one token; succeeds only when the next token is `MACRO_ELSE` |
| NasmGrammar.ConditionalSourceLines | src/main/gen/dev/agb/nasmplugin/parser/NasmParser.java:852-860 | `conditional_source_lines`: never fails; a success leaves the cursor within the input, possibly where it was; the repetition stops only where one more `ConditionalSourceLines_0` would fail |
| NasmGrammar.ConditionalSourceLines_0 | src/main/gen/dev/agb/nasmplugin/parser/NasmParser.java:863-871 | `conditional_source_lines_0`: a success consumes at least one token |
| NasmGrammar.ConditionalSourceLines_0_0 | src/main/gen/dev/agb/nasmplugin/parser/NasmParser.java:874-881 | `conditional_source_lines_0_0`: a success leaves the cursor within the input, possibly where it was; a success consumes nothing |
| NasmGrammar.ConstExpr | src/main/gen/dev/agb/nasmplugin/parser/NasmParser.java:885-887 | `const_expr`: a success consumes at least one token |
| NasmGrammar.ContextDir | src/main/gen/dev/agb/nasmplugin/parser/NasmParser.java:896-908 | `context_dir`: a success consumes at least one token; succeeds only when the next token is one of `MACRO_ARG_DECL`, `MACRO_LOCAL`, `MACRO_POP`, `MACRO_PUSH`, `MACRO_REPL`, `MACRO_STACKSIZE` |
| NasmGrammar.ContextDir_0 | src/main/gen/dev/agb/nasmplugin/parser/NasmParser.java:911-919 | `context_dir_0`: a success consumes at least one token; succeeds only when the next token is `MACRO_PUSH` |
| NasmGrammar.ContextDir_0_1 | src/main/gen/dev/agb/nasmplugin/parser/NasmParser.java:922-926 | `context_dir_0_1`: never fails; a success leaves the cursor within the input, possibly where it was; it consumes tokens only when the next token is `IDENTIFIER` |
| NasmGrammar.ContextDir_2 | src/main/gen/dev/agb/nasmplugin/parser/NasmParser.java:929-937 | `context_dir_2`: a success consumes at least one token; succeeds only when the next token is `MACRO_REPL` |
| NasmGrammar.ContextDir_3 | src/main/gen/dev/agb/nasmplugin/parser/NasmParser.java:940-948 | `context_dir_3`: a success consumes at least one token; succeeds only when the next token is `MACRO_ARG_DECL` |
| NasmGrammar.ContextDir_4 | src/main/gen/dev/agb/nasmplugin/parser/NasmParser.java:951-959 | `context_dir_4`: a success consumes at least one token; succeeds only when the next token is `MACRO_STACKSIZE` |
| NasmGrammar.ContextDir_5 | src/main/gen/dev/agb/nasmplugin/parser/NasmParser.java:962-970 | `context_dir_5`: a success consumes at least one token; succeeds only when the next token is `MACRO_LOCAL` |
| NasmGrammar.ContextLocalRef | src/main/gen/dev/agb/nasmplugin/parser/NasmParser.java:974-981 | `context_local_ref`: succeeds exactly when the next token is one of `CONTEXT_LOCAL_REF`, `MACRO_LOCAL_REF`; a success consumes exactly one token |
| NasmGrammar.ContextName | src/main/gen/dev/agb/nasmplugin/parser/NasmParser.java:985-993 | `context_name`: succeeds exactly when the next token is `IDENTIFIER`; a success consumes exactly one token |
| NasmGrammar.ContextRef | src/main/gen/dev/agb/nasmplugin/parser/NasmParser.java:997-1006 | `context_ref`: succeeds exactly when the next token is one of `MACRO_LOCAL_REF`, `CONTEXT_LOCAL_REF`; a success consumes exactly one token |
| NasmGrammar.CpuDir | src/main/gen/dev/agb/nasmplugin/parser/NasmParser.java:1010-1019 | `cpu_dir`: a success consumes at least one token; succeeds only when the next token is `CPU_KW` |
| NasmGrammar.DataDef | src/main/gen/dev/agb/nasmplugin/parser/NasmParser.java:1023-1033 | `data_def`: a success consumes at least one token; succeeds only when the next token is one of `DATA_SIZE`, `MACRO_REP`, `TIMES` |
| NasmGrammar.DataDef_0 | src/main/gen/dev/agb/nasmplugin/parser/NasmParser.java:1036-1040 | `data_def_0`: never fails; a success leaves the cursor within the input, possibly where it was; it consumes tokens only when the next token is one of `MACRO_REP`, `TIMES` |
| NasmGrammar.DataExpr | src/main/gen/dev/agb/nasmplugin/parser/NasmParser.java:1044-1052 | `data_expr`: a success consumes at least one token |
| NasmGrammar.DataExpr_1 | src/main/gen/dev/agb/nasmplugin/parser/NasmParser.java:1055-1059 | `data_expr_1`: never fails; a success leaves the cursor within the input, possibly where it was; it consumes tokens only when the next token is `DUP` |
| NasmGrammar.DataExpr_1_0 | src/main/gen/dev/agb/nasmplugin/parser/NasmParser.java:1062-1071 | `data_expr_1_0`: a success consumes at least one token; succeeds only when the next token is `DUP` |
| NasmGrammar.DataItem | src/main/gen/dev/agb/nasmplugin/parser/NasmParser.java:1079-1090 | `data_item`: a success consumes at least one token |
| NasmGrammar.DataList | src/main/gen/dev/agb/nasmplugin/parser/NasmParser.java:1094-1102 | `data_list`: a success consumes at least one token |
| NasmGrammar.DataList_1 | src/main/gen/dev/agb/nasmplugin/parser/NasmParser.java:1105-1113 | `data_list_1`: never fails; a success leaves the cursor within the input, possibly where it was; the repetition stops only where one more `DataList_1_0` would fail; it consumes tokens only when the next token is `COMMA` |
| NasmGrammar.DataList_1_0 | src/main/gen/dev/agb/nasmplugin/parser/NasmParser.java:1116-1124 | `data_list_1_0`: a success consumes at least one token; succeeds only when the next token is `COMMA` |
| NasmGrammar.Decorator | src/main/gen/dev/agb/nasmplugin/parser/NasmParser.java:1128-1139 | `decorator`: a success consumes at least one token; succeeds only when the next token is `LBRACE` |
| NasmGrammar.DecoratorItem | src/main/gen/dev/agb/nasmplugin/parser/NasmParser.java:1143-1154 | `decorator_item`: succeeds exactly when the next token is one of `MASK_REG`, `ZEROING`, `BROADCAST`, `ROUNDING`, `SAE`; a success consumes exactly one token |
| NasmGrammar.DecoratorList | src/main/gen/dev/agb/nasmplugin/parser/NasmParser.java:1158-1166 | `decorator_list`: a success consumes at least one token; succeeds only when the next token is one of `BROADCAST`, `MASK_REG`, `ROUNDING`, `SAE`, `ZEROING` |
| NasmGrammar.DecoratorList_1 | src/main/gen/dev/agb/nasmplugin/parser/NasmParser.java:1169-1177 | `decorator_list_1`: never fails; a success leaves the cursor within the input, possibly where it was; the repetition stops only where one more `DecoratorList_1_0` would fail; it consumes tokens only when the next token is `COMMA` |
| NasmGrammar.DecoratorList_1_0 | src/main/gen/dev/agb/nasmplugin/parser/NasmParser.java:1180-1188 | `decorator_list_1_0`: a success consumes at least one token; succeeds only when the next token is `COMMA` |
| NasmGrammar.DefaultDir | src/main/gen/dev/agb/nasmplugin/parser/NasmParser.java:1192-1202 | `default_dir`: a success consumes at least one token; succeeds only when the next token is `DEFAULT_KW` |
| NasmGrammar.DefaultOption | src/main/gen/dev/agb/nasmplugin/parser/NasmParser.java:1206-1215 | `default_option`: succeeds exactly when the next token is one of `REL`, `ABS`, `INSTRUCTION_PREFIX`; a success consumes exactly one token |
| NasmGrammar.DefaultValue | src/main/gen/dev/agb/nasmplugin/parser/NasmParser.java:1219-1226 | `default_value`: a success consumes at least one token |
| NasmGrammar.DefinedFunc | src/main/gen/dev/agb/nasmplugin/parser/NasmParser.java:1230-1239 | `defined_func`: a success consumes at least one token; succeeds only when the next token is `DEFINED` |
| NasmGrammar.EaExpr | src/main/gen/dev/agb/nasmplugin/parser/NasmParser.java:1243-1251 | `ea_expr`: a success consumes at least one token |
| NasmGrammar.EaExpr_1 | src/main/gen/dev/agb/nasmplugin/parser/NasmParser.java:1254-1262 | `ea_expr_1`: never fails; a success leaves the cursor within the input, possibly where it was; the repetition stops only where one more `EaExpr_1_0` would fail; it consumes tokens only when the next token is one of `MINUS`, `PLUS` |
| NasmGrammar.EaExpr_1_0 | src/main/gen/dev/agb/nasmplugin/parser/NasmParser.java:1265-1273 | `ea_expr_1_0`: a success consumes at least one token; succeeds only when the next token is one of `MINUS`, `PLUS` |
| NasmGrammar.EaTerm | src/main/gen/dev/agb/nasmplugin/parser/NasmParser.java:1291-1303 | `ea_term`: a success consumes at least one token |
| NasmGrammar.EaTerm_0 | src/main/gen/dev/agb/nasmplugin/parser/NasmParser.java:1306-1314 | `ea_term_0`: a success consumes at least one token; succeeds only when the next token is `REL` |
| NasmGrammar.EaTerm_1 | src/main/gen/dev/agb/nasmplugin/parser/NasmParser.java:1317-1326 | `ea_term_1`: a success consumes at least one token; succeeds only when the next token is one of `MASK_REG`, `REGISTER`, `SEG_REGISTER` |
| NasmGrammar.EffectiveAddr | src/main/gen/dev/agb/nasmplugin/parser/NasmParser.java:1330-1338 | `effective_addr`: a success consumes at least one token |
| NasmGrammar.EffectiveAddr_0 | src/main/gen/dev/agb/nasmplugin/parser/NasmParser.java:1341-1345 | `effective_addr_0`: never fails; a success leaves the cursor within the input, possibly where it was; it consumes tokens only when the next token is `SEG_REGISTER` |
| NasmGrammar.EffectiveAddr_0_0 | src/main/gen/dev/agb/nasmplugin/parser/NasmParser.java:1348-1356 | `effective_addr_0_0`: a success consumes at least one token; succeeds only when the next token is `SEG_REGISTER` |
| NasmGrammar.ElifBlock | src/main/gen/dev/agb/nasmplugin/parser/NasmParser.java:1360-1371 | `elif_block`: a success consumes at least one token; succeeds only when the next token is one of `MACRO_ELIF`, `MACRO_ELIFMACRO` |
| NasmGrammar.ElifBlocks | src/main/gen/dev/agb/nasmplugin/parser/NasmParser.java:1375-1388 | `elif_blocks`: a success consumes at least one token; the repetition stops only where one more `ElifBlock` would fail; succeeds only when the next token is one of `MACRO_ELIF`, `MACRO_ELIFMACRO` |
| NasmGrammar.ElifDir | src/main/gen/dev/agb/nasmplugin/parser/NasmParser.java:1393-1402 | `elif_dir`: a success consumes at least one token; succeeds only when the next token is one of `MACRO_ELIF`, `MACRO_ELIFMACRO` |
| NasmGrammar.ElifDir_0 | src/main/gen/dev/agb/nasmplugin/parser/NasmParser.java:1405-1413 | `elif_dir_0`: a success consumes at least one token; succeeds only when the next token is `MACRO_ELIF` |
| NasmGrammar.ElifDir_0_1 | src/main/gen/dev/agb/nasmplugin/parser/NasmParser.java:1416-1420 | `elif_dir_0_1`: never fails; a success leaves the cursor within the input, possibly where it was |
| NasmGrammar.ElifDir_1 | src/main/gen/dev/agb/nasmplugin/parser/NasmParser.java:1423-1432 | `elif_dir_1`: a success consumes at least one token; succeeds only when the next token is `MACRO_ELIFMACRO` |
| NasmGrammar.ElifOrElsePart | src/main/gen/dev/agb/nasmplugin/parser/NasmParser.java:1437-1445 | `elif_or_else_part`: a success consumes at least one token; succeeds only when the next token is one of `MACRO_ELIF`, `MACRO_ELIFMACRO`, `MACRO_ELSE` |
| NasmGrammar.ElifOrElsePart_0 | src/main/gen/dev/agb/nasmplugin/parser/NasmParser.java:1448-1456 | `elif_or_else_part_0`: a success consumes at least one token; succeeds only when the next token is one of `MACRO_ELIF`, `MACRO_ELIFMACRO` |
| NasmGrammar.ElifOrElsePart_0_1 | src/main/gen/dev/agb/nasmplugin/parser/NasmParser.java:1459-1463 | `elif_or_else_part_0_1`: never fails; a success leaves the cursor within the input, possibly where it was; it consumes tokens only when the next token is `MACRO_ELSE` |
| NasmGrammar.ElseBlock | src/main/gen/dev/agb/nasmplugin/parser/NasmParser.java:1467-1478 | `else_block`: a success consumes at least one token; succeeds only when the next token is `MACRO_ELSE` |
| NasmGrammar.ElseDir | src/main/gen/dev/agb/nasmplugin/parser/NasmParser.java:1482-1490 | `else_dir`: succeeds exactly when the next token is `MACRO_ELSE`; a success consumes exactly one token |
| NasmGrammar.EndifDir | src/main/gen/dev/agb/nasmplugin/parser/NasmParser.java:1494-1502 | `endif_dir`: succeeds exactly when the next token is `MACRO_ENDIF`; a success consumes exactly one token |
| NasmGrammar.EnvVarRef | src/main/gen/dev/agb/nasmplugin/parser/NasmParser.java:1506-1515 | `env_var_ref`: a success consumes at least one token; succeeds only when the next token is `ENV_VAR_PREFIX` |
| NasmGrammar.EquDefinition | src/main/gen/dev/agb/nasmplugin/parser/NasmParser.java:1528-1538 | `equ_definition`: a success consumes at least one token; succeeds only when the next token is one of `CONTEXT_LOCAL_REF`, `IDENTIFIER`, `MACRO_EXPANSION_START`, `MACRO_EXPLICIT_START`, `MACRO_LOCAL_REF`, `MACRO_PARAM`, `MACRO_PARAM_GREEDY`, `MACRO_PARAM_REVERSE` |
| NasmGrammar.EquDefinition_0 | src/main/gen/dev/agb/nasmplugin/parser/NasmParser.java:1541-1548 | `equ_definition_0`: a success consumes at least one token; succeeds only when the next token is one of `CONTEXT_LOCAL_REF`, `IDENTIFIER`, `MACRO_EXPANSION_START`, `MACRO_EXPLICIT_START`, `MACRO_LOCAL_REF`, `MACRO_PARAM`, `MACRO_PARAM_GREEDY`, `MACRO_PARAM_REVERSE` |
| NasmGrammar.EquLine | src/main/gen/dev/agb/nasmplugin/parser/NasmParser.java:1552-1560 | `equ_line`: a success consumes at least one token; succeeds only when the next token is one of `CONTEXT_LOCAL_REF`, `IDENTIFIER`, `MACRO_EXPANSION_START`, `MACRO_EXPLICIT_START`, `MACRO_LOCAL_REF`, `MACRO_PARAM`, `MACRO_PARAM_GREEDY`, `MACRO_PARAM_REVERSE` |
| NasmGrammar.EquLine_1 | src/main/gen/dev/agb/nasmplugin/parser/NasmParser.java:1563-1567 | `equ_line_1`: never fails; a success leaves the cursor within the input, possibly where it was; it consumes tokens only when the next token is `CRLF` |
| NasmGrammar.ExitDir | src/main/gen/dev/agb/nasmplugin/parser/NasmParser.java:1571-1580 | `exit_dir`: succeeds exactly when the next token is one of `MACRO_EXITMACRO`, `MACRO_EXITREP`; a success consumes exactly one token |
| NasmGrammar.ExpandedOperand | src/main/gen/dev/agb/nasmplugin/parser/NasmParser.java:1590-1603 | `expanded_operand`: a success consumes at least one token |
| NasmGrammar.ExpandedOperand_0 | src/main/gen/dev/agb/nasmplugin/parser/NasmParser.java:1606-1614 | `expanded_operand_0`: a success consumes at least one token; succeeds only when the next token is `SIZE_SPEC` |
| NasmGrammar.ExpandedOperand_1 | src/main/gen/dev/agb/nasmplugin/parser/NasmParser.java:1617-1625 | `expanded_operand_1`: a success consumes at least one token; succeeds only when the next token is `SIZE_SPEC` |
| NasmGrammar.Expression | src/main/gen/dev/agb/nasmplugin/parser/NasmParser.java:1629-1637 | `expression`: a success consumes at least one token |
| NasmGrammar.Expression_1 | src/main/gen/dev/agb/nasmplugin/parser/NasmParser.java:1640-1644 | `expression_1`: never fails; a success leaves the cursor within the input, possibly where it was; it consumes tokens only when the next token is `WRT` |
| NasmGrammar.ExternDir | src/main/gen/dev/agb/nasmplugin/parser/NasmParser.java:1648-1658 | `extern_dir`: a success consumes at least one token; succeeds only when the next token is `EXTERN_KW` |
| NasmGrammar.FarJumpOperand | src/main/gen/dev/agb/nasmplugin/parser/NasmParser.java:1662-1672 | `far_jump_operand`: a success consumes at least one token |
| NasmGrammar.FloatDir | src/main/gen/dev/agb/nasmplugin/parser/NasmParser.java:1676-1685 | `float_dir`: a success consumes at least one token; succeeds only when the next token is `FLOAT_KW` |
| NasmGrammar.FloatFormat | src/main/gen/dev/agb/nasmplugin/parser/NasmParser.java:1689-1700 | `float_format`: a success consumes at least one token; succeeds only when the next token is `FLOAT_FUNC` |
| NasmGrammar.FloatValue | src/main/gen/dev/agb/nasmplugin/parser/NasmParser.java:1704-1713 | `float_value`: succeeds exactly when the next token is one of `FLOAT`, `NUMBER`, `SPECIAL_FLOAT`; a success consumes exactly one token |
| NasmGrammar.FunctionMacroCall | src/main/gen/dev/agb/nasmplugin/parser/NasmParser.java:1717-1728 | `function_macro_call`: a success consumes at least one token; succeeds only when the next token is `IDENTIFIER` |
| NasmGrammar.FunctionMacroCall_2 | src/main/gen/dev/agb/nasmplugin/parser/NasmParser.java:1731-1735 | `function_macro_call_2`: never fails; a success leaves the cursor within the input, possibly where it was |
| NasmGrammar.GlobalDir | src/main/gen/dev/agb/nasmplugin/parser/NasmParser.java:1740-1749 | `global_dir`: a success consumes at least one token; succeeds only when the next token is one of `GLOBAL_KW`, `MACRO_PUSH` |
| NasmGrammar.GlobalDir_0 | src/main/gen/dev/agb/nasmplugin/parser/NasmParser.java:1752-1760 | `global_dir_0`: a success consumes at least one token; succeeds only when the next token is `GLOBAL_KW` |
| NasmGrammar.GlobalDir_1 | src/main/gen/dev/agb/nasmplugin/parser/NasmParser.java:1763-1771 | `global_dir_1`: a success consumes at least one token; succeeds only when the next token is `MACRO_PUSH` |
| NasmGrammar.GlobalLabel | src/main/gen/dev/agb/nasmplugin/parser/NasmParser.java:1777-1786 | `global_label`: a success consumes at least one token; succeeds only when the next token is one of `CONTEXT_LOCAL_REF`, `IDENTIFIER`, `MACRO_EXPANSION_START`, `MACRO_EXPLICIT_START`, `MACRO_LOCAL_REF`, `MACRO_PARAM`, `MACRO_PARAM_GREEDY`, `MACRO_PARAM_REVERSE` |
| NasmGrammar.IfDir | src/main/gen/dev/agb/nasmplugin/parser/NasmParser.java:1793-1803 | `if_dir`: a success consumes at least one token; succeeds only when the next token is one of `MACRO_IF`, `MACRO_IFDEF`, `MACRO_IFMACRO`, `MACRO_IFNDEF` |
| NasmGrammar.IfDir_0 | src/main/gen/dev/agb/nasmplugin/parser/NasmParser.java:1806-1814 | `if_dir_0`: a success consumes at least one token; succeeds only when the next token is `MACRO_IF` |
| NasmGrammar.IfDir_0_1 | src/main/gen/dev/agb/nasmplugin/parser/NasmParser.java:1817-1821 | `if_dir_0_1`: never fails; a success leaves the cursor within the input, possibly where it was |
| NasmGrammar.IfDir_1 | src/main/gen/dev/agb/nasmplugin/parser/NasmParser.java:1824-1832 | `if_dir_1`: a success consumes at least one token; succeeds only when the next token is `MACRO_IFDEF` |
| NasmGrammar.IfDir_2 | src/main/gen/dev/agb/nasmplugin/parser/NasmParser.java:1835-1843 | `if_dir_2`: a success consumes at least one token; succeeds only when the next token is `MACRO_IFNDEF` |
| NasmGrammar.IfDir_3 | src/main/gen/dev/agb/nasmplugin/parser/NasmParser.java:1846-1855 | `if_dir_3`: a success consumes at least one token; succeeds only when the next token is `MACRO_IFMACRO` |
| NasmGrammar.IncludeDir | src/main/gen/dev/agb/nasmplugin/parser/NasmParser.java:1861-1870 | `include_dir`: a success consumes at least one token; succeeds only when the next token is one of `INCBIN_KW`, `MACRO_INCLUDE`, `MACRO_USE` |
| NasmGrammar.IncludeDir_0 | src/main/gen/dev/agb/nasmplugin/parser/NasmParser.java:1873-1881 | `include_dir_0`: a success consumes at least one token; succeeds only when the next token is `INCBIN_KW` |
| NasmGrammar.IncludeDir_0_2 | src/main/gen/dev/agb/nasmplugin/parser/NasmParser.java:1884-1888 | `include_dir_0_2`: never fails; a success leaves the cursor within the input, possibly where it was; it consumes tokens only when the next token is `COMMA` |
| NasmGrammar.IncludeDir_0_2_0 | src/main/gen/dev/agb/nasmplugin/parser/NasmParser.java:1891-1900 | `include_dir_0_2_0`: a success consumes at least one token; succeeds only when the next token is `COMMA` |
| NasmGrammar.IncludeDir_0_2_0_2 | src/main/gen/dev/agb/nasmplugin/parser/NasmParser.java:1903-1907 | `include_dir_0_2_0_2`: never fails; a success leaves the cursor within the input, possibly where it was; it consumes tokens only when the next token is `COMMA` |
| NasmGrammar.IncludeDir_0_2_0_2_0 | src/main/gen/dev/agb/nasmplugin/parser/NasmParser.java:1910-1918 | `include_dir_0_2_0_2_0`: a success consumes at least one token; succeeds only when the next token is `COMMA` |
| NasmGrammar.IncludeDir_1 | src/main/gen/dev/agb/nasmplugin/parser/NasmParser.java:1921-1929 | `include_dir_1`: a success consumes at least one token; succeeds only when the next token is `MACRO_INCLUDE` |
| NasmGrammar.IncludeDir_2 | src/main/gen/dev/agb/nasmplugin/parser/NasmParser.java:1932-1940 | `include_dir_2`: a success consumes at least one token; succeeds only when the next token is `MACRO_USE` |
| NasmGrammar.Instruction | src/main/gen/dev/agb/nasmplugin/parser/NasmParser.java:1944-1953 | `instruction`: a success consumes at least one token; succeeds only when the next token is one of `CONTEXT_LOCAL_REF`, `IDENTIFIER`, `INSTRUCTION_PREFIX`, `MACRO_EXPANSION_START`, `MACRO_EXPLICIT_START`, `MACRO_LOCAL_REF`, `MACRO_PARAM`, `MACRO_PARAM_GREEDY`, `MACRO_PARAM_REVERSE`, `MACRO_REP`, `SEG_REGISTER`, `TIMES` |
| NasmGrammar.Instruction_0 | src/main/gen/dev/agb/nasmplugin/parser/NasmParser.java:1956-1960 | `instruction_0`: never fails; a success leaves the cursor within the input, possibly where it was; it consumes tokens only when the next token is one of `INSTRUCTION_PREFIX`, `MACRO_REP`, `SEG_REGISTER`, `TIMES` |
| NasmGrammar.Instruction_2 | src/main/gen/dev/agb/nasmplugin/parser/NasmParser.java:1963-1967 | `instruction_2`: never fails; a success leaves the cursor within the input, possibly where it was |
| NasmGrammar.InstructionPrefixes | src/main/gen/dev/agb/nasmplugin/parser/NasmParser.java:1971-1983 | `instruction_prefixes`: never fails; a success leaves the cursor within the input, possibly where it was; it consumes tokens only when the next token is one of `INSTRUCTION_PREFIX`, `MACRO_REP`, `SEG_REGISTER`, `TIMES` |
| NasmGrammar.InstructionPrefixes_0 | src/main/gen/dev/agb/nasmplugin/parser/NasmParser.java:1986-1990 | `instruction_prefixes_0`: never fails; a success leaves the cursor within the input, possibly where it was; it consumes tokens only when the next token is one of `MACRO_REP`, `TIMES` |
| NasmGrammar.InstructionPrefixes_1 | src/main/gen/dev/agb/nasmplugin/parser/NasmParser.java:1993-1997 | `instruction_prefixes_1`: never fails; a success leaves the cursor within the input, possibly where it was; it consumes tokens only when the next token is `INSTRUCTION_PREFIX` |
| NasmGrammar.InstructionPrefixes_2 | src/main/gen/dev/agb/nasmplugin/parser/NasmParser.java:2000-2004 | `instruction_prefixes_2`: never fails; a success leaves the cursor within the input, possibly where it was; it consumes tokens only when the next token is `INSTRUCTION_PREFIX` |
| NasmGrammar.InstructionPrefixes_3 | src/main/gen/dev/agb/nasmplugin/parser/NasmParser.java:2007-2011 | `instruction_prefixes_3`: never fails; a success leaves the cursor within the input, possibly where it was; it consumes tokens only when the next token is `SEG_REGISTER` |
| NasmGrammar.InstructionPrefixes_4 | src/main/gen/dev/agb/nasmplugin/parser/NasmParser.java:2014-2018 | `instruction_prefixes_4`: never fails; a success leaves the cursor within the input, possibly where it was; it consumes tokens only when the next token is `INSTRUCTION_PREFIX` |
| NasmGrammar.InstructionPrefixes_5 | src/main/gen/dev/agb/nasmplugin/parser/NasmParser.java:2021-2025 | `instruction_prefixes_5`: never fails; a success leaves the cursor within the input, possibly where it was; it consumes tokens only when the next token is `INSTRUCTION_PREFIX` |
| NasmGrammar.IntegerFunction | src/main/gen/dev/agb/nasmplugin/parser/NasmParser.java:2029-2040 | `integer_function`: a success consumes at least one token; succeeds only when the next token is `BUILTIN_FUNC` |
| NasmGrammar.Invocation | src/main/gen/dev/agb/nasmplugin/parser/NasmParser.java:2047-2057 | `invocation`: a success consumes at least one token |
| NasmGrammar.IstrucBlock | src/main/gen/dev/agb/nasmplugin/parser/NasmParser.java:2061-2073 | `istruc_block`: a success consumes at least one token; succeeds only when the next token is `ISTRUC_KW` |
| NasmGrammar.IstrucBlock_4 | src/main/gen/dev/agb/nasmplugin/parser/NasmParser.java:2076-2084 | `istruc_block_4`: never fails; a success leaves the cursor within the input, possibly where it was; it stops only where no further `CRLF` follows; it consumes tokens only when the next token is `CRLF` |
| NasmGrammar.KeywordAsName | src/main/gen/dev/agb/nasmplugin/parser/NasmParser.java:2088-2102 | `keyword_as_name`: succeeds exactly when the next token is one of `ABS`, `REL`, `SEG`, `STRICT`, `DUP`, `WRT`, `AT_KW`, `DEFAULT_KW`; a success consumes exactly one token |
| NasmGrammar.LabelDef | src/main/gen/dev/agb/nasmplugin/parser/NasmParser.java:2107-2115 | `label_def`: a success consumes at least one token; succeeds only when the next token is one of `CONTEXT_LOCAL_REF`, `DOT_DOT`, `IDENTIFIER`, `MACRO_EXPANSION_START`, `MACRO_EXPLICIT_START`, `MACRO_LOCAL_REF`, `MACRO_PARAM`, `MACRO_PARAM_GREEDY`, `MACRO_PARAM_REVERSE` |
| NasmGrammar.LabelDef_0 | src/main/gen/dev/agb/nasmplugin/parser/NasmParser.java:2118-2126 | `label_def_0`: a success consumes at least one token; succeeds only when the next token is one of `CONTEXT_LOCAL_REF`, `IDENTIFIER`, `MACRO_EXPANSION_START`, `MACRO_EXPLICIT_START`, `MACRO_LOCAL_REF`, `MACRO_PARAM`, `MACRO_PARAM_GREEDY`, `MACRO_PARAM_REVERSE` |
| NasmGrammar.LabelDef_0_1 | src/main/gen/dev/agb/nasmplugin/parser/NasmParser.java:2129-2133 | `label_def_0_1`: never fails; a success leaves the cursor within the input, possibly where it was; it consumes tokens only when the next token is `COLON` |
| NasmGrammar.LabelDef_1 | src/main/gen/dev/agb/nasmplugin/parser/NasmParser.java:2136-2144 | `label_def_1`: a success consumes at least one token; succeeds only when the next token is one of `DOT_DOT`, `IDENTIFIER`, `MACRO_LOCAL_REF` |
| NasmGrammar.LabelDef_1_1 | src/main/gen/dev/agb/nasmplugin/parser/NasmParser.java:2147-2151 | `label_def_1_1`: never fails; a success leaves the cursor within the input, possibly where it was; it consumes tokens only when the next token is `COLON` |
| NasmGrammar.LabelWithColon | src/main/gen/dev/agb/nasmplugin/parser/NasmParser.java:2156-2164 | `label_with_colon`: a success consumes at least one token; succeeds only when the next token is one of `CONTEXT_LOCAL_REF`, `DOT_DOT`, `IDENTIFIER`, `MACRO_EXPANSION_START`, `MACRO_EXPLICIT_START`, `MACRO_LOCAL_REF`, `MACRO_PARAM`, `MACRO_PARAM_GREEDY`, `MACRO_PARAM_REVERSE` |
| NasmGrammar.LabelWithColon_0 | src/main/gen/dev/agb/nasmplugin/parser/NasmParser.java:2167-2175 | `label_with_colon_0`: a success consumes at least one token; succeeds only when the next token is one of `CONTEXT_LOCAL_REF`, `IDENTIFIER`, `MACRO_EXPANSION_START`, `MACRO_EXPLICIT_START`, `MACRO_LOCAL_REF`, `MACRO_PARAM`, `MACRO_PARAM_GREEDY`, `MACRO_PARAM_REVERSE` |
| NasmGrammar.LabelWithColon_1 | src/main/gen/dev/agb/nasmplugin/parser/NasmParser.java:2178-2186 | `label_with_colon_1`: a success consumes at least one token; succeeds only when the next token is one of `DOT_DOT`, `IDENTIFIER`, `MACRO_LOCAL_REF` |
| NasmGrammar.LabelWithColonLine | src/main/gen/dev/agb/nasmplugin/parser/NasmParser.java:2190-2199 | `label_with_colon_line`: a success consumes at least one token; succeeds only when the next token is one of `CONTEXT_LOCAL_REF`, `DOT_DOT`, `IDENTIFIER`, `MACRO_EXPANSION_START`, `MACRO_EXPLICIT_START`, `MACRO_LOCAL_REF`, `MACRO_PARAM`, `MACRO_PARAM_GREEDY`, `MACRO_PARAM_REVERSE` |
| NasmGrammar.LabelWithColonLine_1 | src/main/gen/dev/agb/nasmplugin/parser/NasmParser.java:2202-2206 | `label_with_colon_line_1`: never fails; a success leaves the cursor within the input, possibly where it was |
| NasmGrammar.LabelWithColonLine_2 | src/main/gen/dev/agb/nasmplugin/parser/NasmParser.java:2209-2213 | `label_with_colon_line_2`: never fails; a success leaves the cursor within the input, possibly where it was; it consumes tokens only when the next token is `CRLF` |
| NasmGrammar.LabelWithDataLine | src/main/gen/dev/agb/nasmplugin/parser/NasmParser.java:2217-2226 | `label_with_data_line`: a success consumes at least one token; succeeds only when the next token is one of `CONTEXT_LOCAL_REF`, `DOT_DOT`, `IDENTIFIER`, `MACRO_EXPANSION_START`, `MACRO_EXPLICIT_START`, `MACRO_LOCAL_REF`, `MACRO_PARAM`, `MACRO_PARAM_GREEDY`, `MACRO_PARAM_REVERSE` |
| NasmGrammar.LabelWithDataLine_1 | src/main/gen/dev/agb/nasmplugin/parser/NasmParser.java:2229-2235 | `label_with_data_line_1`: a success consumes at least one token; succeeds only when the next token is one of `DATA_SIZE`, `MACRO_REP`, `SPACE_SIZE`, `TIMES` |
| NasmGrammar.LabelWithDataLine_2 | src/main/gen/dev/agb/nasmplugin/parser/NasmParser.java:2238-2242 | `label_with_data_line_2`: never fails; a success leaves the cursor within the input, possibly where it was; it consumes tokens only when the next token is `CRLF` |
| NasmGrammar.LabelWithoutColon | src/main/gen/dev/agb/nasmplugin/parser/NasmParser.java:2247-2255 | `label_without_colon`: a success consumes at least one token; succeeds only when the next token is one of `CONTEXT_LOCAL_REF`, `DOT_DOT`, `IDENTIFIER`, `MACRO_EXPANSION_START`, `MACRO_EXPLICIT_START`, `MACRO_LOCAL_REF`, `MACRO_PARAM`, `MACRO_PARAM_GREEDY`, `MACRO_PARAM_REVERSE` |
| NasmGrammar.LineDir | src/main/gen/dev/agb/nasmplugin/parser/NasmParser.java:2259-2270 | `line_dir`: a success consumes at least one token; succeeds only when the next token is `MACRO_LINE` |
| NasmGrammar.LineDir_2 | src/main/gen/dev/agb/nasmplugin/parser/NasmParser.java:2273-2277 | `line_dir_2`: never fails; a success leaves the cursor within the input, possibly where it was; it consumes tokens only when the next token is `STRING` |
| NasmGrammar.LocalDirective | src/main/gen/dev/agb/nasmplugin/parser/NasmParser.java:2281-2290 | `local_directive`: a success consumes at least one token; succeeds only when the next token is `IDENTIFIER` |
| NasmGrammar.LocalDirective_1 | src/main/gen/dev/agb/nasmplugin/parser/NasmParser.java:2293-2301 | `local_directive_1`: never fails; a success leaves the cursor within the input, possibly where it was; the repetition stops only where one more `LocalDirective_1_0` would fail; it consumes tokens only when the next token is `COMMA` |
| NasmGrammar.LocalDirective_1_0 | src/main/gen/dev/agb/nasmplugin/parser/NasmParser.java:2304-2311 | `local_directive_1_0`: a success consumes at least one token; succeeds only when the next token is `COMMA` |
| NasmGrammar.LocalLabel | src/main/gen/dev/agb/nasmplugin/parser/NasmParser.java:2316-2324 | `local_label`: a success consumes at least one token; succeeds only when the next token is one of `DOT_DOT`, `IDENTIFIER`, `MACRO_LOCAL_REF` |
| NasmGrammar.LocalLabel_0 | src/main/gen/dev/agb/nasmplugin/parser/NasmParser.java:2327-2335 | `local_label_0`: a success consumes at least one token; succeeds only when the next token is one of `DOT_DOT`, `IDENTIFIER` |
| NasmGrammar.LocalLabel_0_0 | src/main/gen/dev/agb/nasmplugin/parser/NasmParser.java:2338-2342 | `local_label_0_0`: never fails; a success leaves the cursor within the input, possibly where it was; it consumes tokens only when the next token is `DOT_DOT` |
| NasmGrammar.LockPrefix | src/main/gen/dev/agb/nasmplugin/parser/NasmParser.java:2346-2354 | `lock_prefix`: succeeds exactly when the next token is `INSTRUCTION_PREFIX`; a success consumes exactly one token |
| NasmGrammar.LogicalAndExpr | src/main/gen/dev/agb/nasmplugin/parser/NasmParser.java:2358-2366 | `logical_and_expr`: a success consumes at least one token |
| NasmGrammar.LogicalAndExpr_1 | src/main/gen/dev/agb/nasmplugin/parser/NasmParser.java:2369-2377 | `logical_and_expr_1`: never fails; a success leaves the cursor within the input, possibly where it was; the repetition stops only where one more `LogicalAndExpr_1_0` would fail; it consumes tokens only when the next token is `BOOLEAN_AND` |
| NasmGrammar.LogicalAndExpr_1_0 | src/main/gen/dev/agb/nasmplugin/parser/NasmParser.java:2380-2388 | `logical_and_expr_1_0`: a success consumes at least one token; succeeds only when the next token is `BOOLEAN_AND` |
| NasmGrammar.LogicalOrExpr | src/main/gen/dev/agb/nasmplugin/parser/NasmParser.java:2392-2400 | `logical_or_expr`: a success consumes at least one token |
| NasmGrammar.LogicalOrExpr_1 | src/main/gen/dev/agb/nasmplugin/parser/NasmParser.java:2403-2411 | `logical_or_expr_1`: never fails; a success leaves the cursor within the input, possibly where it was; the repetition stops only where one more `LogicalOrExpr_1_0` would fail; it consumes tokens only when the next token is `BOOLEAN_OR` |
| NasmGrammar.LogicalOrExpr_1_0 | src/main/gen/dev/agb/nasmplugin/parser/NasmParser.java:2414-2422 | `logical_or_expr_1_0`: a success consumes at least one token; succeeds only when the next token is `BOOLEAN_OR` |
| NasmGrammar.LogicalXorExpr | src/main/gen/dev/agb/nasmplugin/parser/NasmParser.java:2426-2434 | `logical_xor_expr`: a success consumes at least one token |
| NasmGrammar.LogicalXorExpr_1 | src/main/gen/dev/agb/nasmplugin/parser/NasmParser.java:2437-2445 | `logical_xor_expr_1`: never fails; a success leaves the cursor within the input, possibly where it was; the repetition stops only where one more `LogicalXorExpr_1_0` would fail; it consumes tokens only when the next token is `BOOLEAN_XOR` |
| NasmGrammar.LogicalXorExpr_1_0 | src/main/gen/dev/agb/nasmplugin/parser/NasmParser.java:2448-2456 | `logical_xor_expr_1_0`: a success consumes at least one token; succeeds only when the next token is `BOOLEAN_XOR` |
| NasmGrammar.MacroArg | src/main/gen/dev/agb/nasmplugin/parser/NasmParser.java:2461-2469 | `macro_arg`: a success consumes at least one token |
| NasmGrammar.MacroArg_0 | src/main/gen/dev/agb/nasmplugin/parser/NasmParser.java:2472-2481 | `macro_arg_0`: a success consumes at least one token; succeeds only when the next token is `LBRACE` |
| NasmGrammar.MacroArgList | src/main/gen/dev/agb/nasmplugin/parser/NasmParser.java:2485-2493 | `macro_arg_list`: a success consumes at least one token |
| NasmGrammar.MacroArgList_1 | src/main/gen/dev/agb/nasmplugin/parser/NasmParser.java:2496-2504 | `macro_arg_list_1`: never fails; a success leaves the cursor within the input, possibly where it was; the repetition stops only where one more `MacroArgList_1_0` would fail; it consumes tokens only when the next token is `COMMA` |
| NasmGrammar.MacroArgList_1_0 | src/main/gen/dev/agb/nasmplugin/parser/NasmParser.java:2507-2515 | `macro_arg_list_1_0`: a success consumes at least one token; succeeds only when the next token is `COMMA` |
| NasmGrammar.MacroArgToken | src/main/gen/dev/agb/nasmplugin/parser/NasmParser.java:2519-2527 | `macro_arg_token`: a success consumes at least one token |
| NasmGrammar.MacroArgToken_0 | src/main/gen/dev/agb/nasmplugin/parser/NasmParser.java:2530-2537 | `macro_arg_token_0`: a success leaves the cursor within the input, possibly where it was; a success consumes nothing |
| NasmGrammar.MacroArgTokens | src/main/gen/dev/agb/nasmplugin/parser/NasmParser.java:2550-2562 | `macro_arg_tokens`: a success consumes at least one token; the repetition stops only where one more `MacroArgToken` would fail |
| NasmGrammar.MacroArgs | src/main/gen/dev/agb/nasmplugin/parser/NasmParser.java:2566-2574 | `macro_args`: a success consumes at least one token |
| NasmGrammar.MacroArgs_1 | src/main/gen/dev/agb/nasmplugin/parser/NasmParser.java:2577-2585 | `macro_args_1`: never fails; a success leaves the cursor within the input, possibly where it was; the repetition stops only where one more `MacroArgs_1_0` would fail; it consumes tokens only when the next token is `COMMA` |
| NasmGrammar.MacroArgs_1_0 | src/main/gen/dev/agb/nasmplugin/parser/NasmParser.java:2588-2596 | `macro_args_1_0`: a success consumes at least one token; succeeds only when the next token is `COMMA` |
| NasmGrammar.MacroBodyInline | src/main/gen/dev/agb/nasmplugin/parser/NasmParser.java:2600-2607 | `macro_body_inline`: a success consumes at least one token |
| NasmGrammar.MacroCall | src/main/gen/dev/agb/nasmplugin/parser/NasmParser.java:2611-2620 | `macro_call`: a success consumes at least one token; succeeds only when the next token is `IDENTIFIER` |
| NasmGrammar.MacroDir | src/main/gen/dev/agb/nasmplugin/parser/NasmParser.java:2631-2645 | `macro_dir`: a success consumes at least one token; succeeds only when the next token is one of `MACRO_ALIASES`, `MACRO_DEPEND`, `MACRO_PATHSEARCH`, `MACRO_ROTATE`, `MACRO_STRCAT`, `MACRO_STRLEN`, `MACRO_SUBSTR`, `PREPROCESSOR_DIRECTIVE` |
| NasmGrammar.MacroDir_0 | src/main/gen/dev/agb/nasmplugin/parser/NasmParser.java:2648-2656 | `macro_dir_0`: a success consumes at least one token; succeeds only when the next token is `MACRO_ROTATE` |
| NasmGrammar.MacroDir_1 | src/main/gen/dev/agb/nasmplugin/parser/NasmParser.java:2659-2667 | `macro_dir_1`: a success consumes at least one token; succeeds only when the next token is `MACRO_STRLEN` |
| NasmGrammar.MacroDir_2 | src/main/gen/dev/agb/nasmplugin/parser/NasmParser.java:2679-2689 | `macro_dir_2`: a success consumes at least one token; succeeds only when the next token is `MACRO_SUBSTR` |
| NasmGrammar.MacroDir_2_4 | src/main/gen/dev/agb/nasmplugin/parser/NasmParser.java:2701-2705 | `macro_dir_2_4`: never fails; a success leaves the cursor within the input, possibly where it was |
| NasmGrammar.MacroDir_3 | src/main/gen/dev/agb/nasmplugin/parser/NasmParser.java:2708-2716 | `macro_dir_3`: a success consumes at least one token; succeeds only when the next token is `MACRO_STRCAT` |
| NasmGrammar.MacroDir_3_2 | src/main/gen/dev/agb/nasmplugin/parser/NasmParser.java:2719-2731 | `macro_dir_3_2`: a success consumes at least one token; it stops only where no token of `STRING`, `IDENTIFIER` follows; succeeds only when the next token is one of `IDENTIFIER`, `STRING` |
| NasmGrammar.MacroEndLine | src/main/gen/dev/agb/nasmplugin/parser/NasmParser.java:2744-2746 | `macro_end_line`: a success consumes at least one token; succeeds only when the next token is `MACRO_END` |
| NasmGrammar.MacroExpansion | src/main/gen/dev/agb/nasmplugin/parser/NasmParser.java:2751-2760 | `macro_expansion`: a success consumes at least one token; succeeds only when the next token is one of `MACRO_EXPANSION_START`, `MACRO_EXPLICIT_START` |
| NasmGrammar.MacroExpansion_0 | src/main/gen/dev/agb/nasmplugin/parser/NasmParser.java:2763-2772 | `macro_expansion_0`: a success consumes at least one token; succeeds only when the next token is `MACRO_EXPANSION_START` |
| NasmGrammar.MacroExpansion_1 | src/main/gen/dev/agb/nasmplugin/parser/NasmParser.java:2775-2784 | `macro_expansion_1`: a success consumes at least one token; succeeds only when the next token is `MACRO_EXPLICIT_START` |
| NasmGrammar.MacroExpansionBraceContent | src/main/gen/dev/agb/nasmplugin/parser/NasmParser.java:2788-2800 | `macro_expansion_brace_content`: a success consumes at least one token; the repetition stops only where one more `MacroExpansionBraceToken` would fail |
| NasmGrammar.MacroExpansionBraceToken | src/main/gen/dev/agb/nasmplugin/parser/NasmParser.java:2804-2812 | `macro_expansion_brace_token`: a success consumes at least one token |
| NasmGrammar.MacroExpansionBraceToken_0 | src/main/gen/dev/agb/nasmplugin/parser/NasmParser.java:2815-2822 | `macro_expansion_brace_token_0`: a success leaves the cursor within the input, possibly where it was; a success consumes nothing |
| NasmGrammar.MacroExpansionContent | src/main/gen/dev/agb/nasmplugin/parser/NasmParser.java:2826-2838 | `macro_expansion_content`: a success consumes at least one token; the repetition stops only where one more `MacroExpansionToken` would fail |
| NasmGrammar.MacroExpansionToken | src/main/gen/dev/agb/nasmplugin/parser/NasmParser.java:2842-2850 | `macro_expansion_token`: a success consumes at least one token |
| NasmGrammar.MacroExpansionToken_0 | src/main/gen/dev/agb/nasmplugin/parser/NasmParser.java:2853-2860 | `macro_expansion_token_0`: a success leaves the cursor within the input, possibly where it was; a success consumes nothing |
| NasmGrammar.MacroFlags | src/main/gen/dev/agb/nasmplugin/parser/NasmParser.java:2864-2873 | `macro_flags`: a success consumes at least one token; succeeds only when the next token is one of `MINUS`, `MUL`, `PLUS` |
| NasmGrammar.MacroLines | src/main/gen/dev/agb/nasmplugin/parser/NasmParser.java:2877-2884 | `macro_lines`: never fails; a success leaves the cursor within the input, possibly where it was |
| NasmGrammar.MacroName | src/main/gen/dev/agb/nasmplugin/parser/NasmParser.java:2888-2899 | `macro_name`: a success consumes at least one token |
| NasmGrammar.MacroParamConcat | src/main/gen/dev/agb/nasmplugin/parser/NasmParser.java:2905-2914 | `macro_param_concat`: a success consumes at least one token; succeeds only when the next token is one of `CONTEXT_LOCAL_REF`, `MACRO_EXPANSION_START`, `MACRO_EXPLICIT_START`, `MACRO_LOCAL_REF`, `MACRO_PARAM`, `MACRO_PARAM_GREEDY`, `MACRO_PARAM_REVERSE` |
| NasmGrammar.MacroParamConcat_0 | src/main/gen/dev/agb/nasmplugin/parser/NasmParser.java:2917-2925 | `macro_param_concat_0`: a success consumes at least one token; succeeds only when the next token is one of `MACRO_EXPLICIT_START`, `MACRO_PARAM`, `MACRO_PARAM_GREEDY`, `MACRO_PARAM_REVERSE` |
| NasmGrammar.MacroParamConcat_1 | src/main/gen/dev/agb/nasmplugin/parser/NasmParser.java:2928-2936 | `macro_param_concat_1`: a success consumes at least one token; succeeds only when the next token is one of `CONTEXT_LOCAL_REF`, `MACRO_LOCAL_REF` |
| NasmGrammar.MacroParamConcat_2 | src/main/gen/dev/agb/nasmplugin/parser/NasmParser.java:2939-2947 | `macro_param_concat_2`: a success consumes at least one token; succeeds only when the next token is one of `MACRO_EXPANSION_START`, `MACRO_EXPLICIT_START` |
| NasmGrammar.MacroParamInvocation | src/main/gen/dev/agb/nasmplugin/parser/NasmParser.java:2951-2959 | `macro_param_invocation`: a success consumes at least one token; succeeds only when the next token is one of `MACRO_EXPLICIT_START`, `MACRO_PARAM`, `MACRO_PARAM_GREEDY`, `MACRO_PARAM_REVERSE` |
| NasmGrammar.MacroParamInvocation_1 | src/main/gen/dev/agb/nasmplugin/parser/NasmParser.java:2962-2966 | `macro_param_invocation_1`: never fails; a success leaves the cursor within the input, possibly where it was |
| NasmGrammar.MacroParamRef | src/main/gen/dev/agb/nasmplugin/parser/NasmParser.java:2974-2985 | `macro_param_ref`: a success consumes at least one token; succeeds only when the next token is one of `MACRO_EXPLICIT_START`, `MACRO_PARAM`, `MACRO_PARAM_GREEDY`, `MACRO_PARAM_REVERSE` |
| NasmGrammar.MacroParamRef_4 | src/main/gen/dev/agb/nasmplugin/parser/NasmParser.java:2988-2997 | `macro_param_ref_4`: a success consumes at least one token; succeeds only when the next token is `MACRO_EXPLICIT_START` |
| NasmGrammar.MacroParams | src/main/gen/dev/agb/nasmplugin/parser/NasmParser.java:3001-3011 | `macro_params`: a success consumes at least one token; succeeds only when the next token is `LPAREN` |
| NasmGrammar.MacroRef | src/main/gen/dev/agb/nasmplugin/parser/NasmParser.java:3015-3023 | `macro_ref`: succeeds exactly when the next token is `IDENTIFIER`; a success consumes exactly one token |
| NasmGrammar.MacroStartLine | src/main/gen/dev/agb/nasmplugin/parser/NasmParser.java:3027-3039 | `macro_start_line`: a success consumes at least one token; succeeds only when the next token is `MACRO_START` |
| NasmGrammar.MacroStartLine_3 | src/main/gen/dev/agb/nasmplugin/parser/NasmParser.java:3042-3046 | `macro_start_line_3`: never fails; a success leaves the cursor within the input, possibly where it was; it consumes tokens only when the next token is `NUMBER` |
| NasmGrammar.MacroStartLine_4 | src/main/gen/dev/agb/nasmplugin/parser/NasmParser.java:3049-3053 | `macro_start_line_4`: never fails; a success leaves the cursor within the input, possibly where it was; it consumes tokens only when the next token is one of `MINUS`, `MUL`, `PLUS` |
| NasmGrammar.MemoryExpr | src/main/gen/dev/agb/nasmplugin/parser/NasmParser.java:3059-3068 | `memory_expr`: a success consumes at least one token; succeeds only when the next token is one of `LBRACKET`, `SEG_REGISTER`, `SIZE_SPEC` |
| NasmGrammar.MemoryExpr_0 | src/main/gen/dev/agb/nasmplugin/parser/NasmParser.java:3071-3079 | `memory_expr_0`: a success consumes at least one token; succeeds only when the next token is `SIZE_SPEC` |
| NasmGrammar.MemoryExpr_1 | src/main/gen/dev/agb/nasmplugin/parser/NasmParser.java:3082-3090 | `memory_expr_1`: a success consumes at least one token; succeeds only when the next token is `SEG_REGISTER` |
| NasmGrammar.MemoryRef | src/main/gen/dev/agb/nasmplugin/parser/NasmParser.java:3094-3104 | `memory_ref`: a success consumes at least one token; succeeds only when the next token is `LBRACKET` |
| NasmGrammar.MessageDir | src/main/gen/dev/agb/nasmplugin/parser/NasmParser.java:3108-3118 | `message_dir`: a success consumes at least one token; succeeds only when the next token is `MACRO_ERROR` |
| NasmGrammar.MessageText | src/main/gen/dev/agb/nasmplugin/parser/NasmParser.java:3122-3130 | `message_text`: a success consumes at least one token |
| NasmGrammar.Mnemonic | src/main/gen/dev/agb/nasmplugin/parser/NasmParser.java:3136-3145 | `mnemonic`: a success consumes at least one token; succeeds only when the next token is one of `CONTEXT_LOCAL_REF`, `IDENTIFIER`, `MACRO_EXPANSION_START`, `MACRO_EXPLICIT_START`, `MACRO_LOCAL_REF`, `MACRO_PARAM`, `MACRO_PARAM_GREEDY`, `MACRO_PARAM_REVERSE` |
| NasmGrammar.MulExpr | src/main/gen/dev/agb/nasmplugin/parser/NasmParser.java:3149-3157 | `mul_expr`: a success consumes at least one token |
| NasmGrammar.MulExpr_1 | src/main/gen/dev/agb/nasmplugin/parser/NasmParser.java:3160-3168 | `mul_expr_1`: never fails; a success leaves the cursor within the input, possibly where it was; the repetition stops only where one more `MulExpr_1_0` would fail; it consumes tokens only when the next token is one of `DIV`, `MOD`, `MUL`, `SIGNED_DIV`, `SIGNED_MOD` |
| NasmGrammar.MulExpr_1_0 | src/main/gen/dev/agb/nasmplugin/parser/NasmParser.java:3171-3179 | `mul_expr_1_0`: a success consumes at least one token; succeeds only when the next token is one of `DIV`, `MOD`, `MUL`, `SIGNED_DIV`, `SIGNED_MOD` |
| NasmGrammar.MulOp | src/main/gen/dev/agb/nasmplugin/parser/NasmParser.java:3183-3192 | `mul_op`: succeeds exactly when the next token is one of `MUL`, `DIV`, `SIGNED_DIV`, `MOD`, `SIGNED_MOD`; a success consumes exactly one token |
| NasmGrammar.MultiLineMacro | src/main/gen/dev/agb/nasmplugin/parser/NasmParser.java:3196-3207 | `multi_line_macro`: a success consumes at least one token; succeeds only when the next token is `MACRO_START` |
| NasmGrammar.NonAssignmentStatement | src/main/gen/dev/agb/nasmplugin/parser/NasmParser.java:3211-3220 | `non_assignment_statement`: a success consumes at least one token |
| NasmGrammar.Operand | src/main/gen/dev/agb/nasmplugin/parser/NasmParser.java:3224-3232 | `operand`: a success consumes at least one token |
| NasmGrammar.Operand_0 | src/main/gen/dev/agb/nasmplugin/parser/NasmParser.java:3235-3243 | `operand_0`: a success consumes at least one token |
| NasmGrammar.Operand_0_1 | src/main/gen/dev/agb/nasmplugin/parser/NasmParser.java:3246-3254 | `operand_0_1`: never fails; a success leaves the cursor within the input, possibly where it was; the repetition stops only where one more `Decorator` would fail; it consumes tokens only when the next token is `LBRACE` |
| NasmGrammar.Operand_1 | src/main/gen/dev/agb/nasmplugin/parser/NasmParser.java:3257-3269 | `operand_1`: a success consumes at least one token; the repetition stops only where one more `Decorator` would fail; succeeds only when the next token is `LBRACE` |
| NasmGrammar.OperandList | src/main/gen/dev/agb/nasmplugin/parser/NasmParser.java:3273-3282 | `operand_list`: a success consumes at least one token |
| NasmGrammar.OperandList_1 | src/main/gen/dev/agb/nasmplugin/parser/NasmParser.java:3285-3293 | `operand_list_1`: never fails; a success leaves the cursor within the input, possibly where it was; the repetition stops only where one more `OperandTail` would fail; it consumes tokens only when the next token is `COMMA` |
| NasmGrammar.OperandListRecover | src/main/gen/dev/agb/nasmplugin/parser/NasmParser.java:3297-3304 | `operand_list_recover`: a success leaves the cursor within the input, possibly where it was; a success consumes nothing |
| NasmGrammar.OperandTail | src/main/gen/dev/agb/nasmplugin/parser/NasmParser.java:3323-3333 | `operand_tail`: a success consumes at least one token; succeeds only when the next token is `COMMA` |
| NasmGrammar.OperandTail_1 | src/main/gen/dev/agb/nasmplugin/parser/NasmParser.java:3336-3340 | `operand_tail_1`: never fails; a success leaves the cursor within the input, possibly where it was |
| NasmGrammar.Operator | src/main/gen/dev/agb/nasmplugin/parser/NasmParser.java:3351-3388 | `operator`: succeeds exactly when the next token is one of `PLUS`, `MINUS`, `MUL`, `DIV`, `MOD`, `SIGNED_DIV`, `SIGNED_MOD`, `AMP`, `PIPE`, `CARET`, `TILDE`, `EXCLAIM`, `LSHIFT`, `LSHIFT_COMPLETE`, `RSHIFT`, `RSHIFT_COMPLETE`, `BOOLEAN_AND`, `BOOLEAN_OR`, `BOOLEAN_XOR`, `EQ_EQ`, `NOT_EQUAL_1`, `NOT_EQUAL_2`, `LT`, `LTE`, `GT`, `GTE`, `SPACESHIP`, `QUESTION_MARK`, `PASTE_OP`, `SEG`, `WRT`; a success consumes exactly one token |
| NasmGrammar.OrExpr | src/main/gen/dev/agb/nasmplugin/parser/NasmParser.java:3392-3400 | `or_expr`: a success consumes at least one token |
| NasmGrammar.OrExpr_1 | src/main/gen/dev/agb/nasmplugin/parser/NasmParser.java:3403-3411 | `or_expr_1`: never fails; a success leaves the cursor within the input, possibly where it was; the repetition stops only where one more `OrExpr_1_0` would fail; it consumes tokens only when the next token is `PIPE` |
| NasmGrammar.OrExpr_1_0 | src/main/gen/dev/agb/nasmplugin/parser/NasmParser.java:3414-3422 | `or_expr_1_0`: a success consumes at least one token; succeeds only when the next token is `PIPE` |
| NasmGrammar.OrgDir | src/main/gen/dev/agb/nasmplugin/parser/NasmParser.java:3426-3436 | `org_dir`: a success consumes at least one token; succeeds only when the next token is `ORG_KW` |
| NasmGrammar.PackageName | src/main/gen/dev/agb/nasmplugin/parser/NasmParser.java:3440-3448 | `package_name`: succeeds exactly when the next token is `IDENTIFIER`; a success consumes exactly one token |
| NasmGrammar.ParamCount | src/main/gen/dev/agb/nasmplugin/parser/NasmParser.java:3452-3462 | `param_count`: a success consumes at least one token; succeeds only when the next token is `NUMBER` |
| NasmGrammar.ParamCount_1 | src/main/gen/dev/agb/nasmplugin/parser/NasmParser.java:3465-3469 | `param_count_1`: never fails; a success leaves the cursor within the input, possibly where it was; it consumes tokens only when the next token is `MINUS` |
| NasmGrammar.ParamDefaults | src/main/gen/dev/agb/nasmplugin/parser/NasmParser.java:3473-3482 | `param_defaults`: a success consumes at least one token; succeeds only when the next token is `NUMBER` |
| NasmGrammar.ParamDefaults_1 | src/main/gen/dev/agb/nasmplugin/parser/NasmParser.java:3485-3493 | `param_defaults_1`: never fails; a success leaves the cursor within the input, possibly where it was; the repetition stops only where one more `ParamDefaults_1_0` would fail; it consumes tokens only when the next token is `COMMA` |
| NasmGrammar.ParamDefaults_1_0 | src/main/gen/dev/agb/nasmplugin/parser/NasmParser.java:3496-3503 | `param_defaults_1_0`: a success consumes at least one token; succeeds only when the next token is `COMMA` |
| NasmGrammar.ParamList | src/main/gen/dev/agb/nasmplugin/parser/NasmParser.java:3507-3516 | `param_list`: a success consumes at least one token; succeeds only when the next token is `IDENTIFIER` |
| NasmGrammar.ParamList_1 | src/main/gen/dev/agb/nasmplugin/parser/NasmParser.java:3519-3527 | `param_list_1`: never fails; a success leaves the cursor within the input, possibly where it was; the repetition stops only where one more `ParamList_1_0` would fail; it consumes tokens only when the next token is `COMMA` |
| NasmGrammar.ParamList_1_0 | src/main/gen/dev/agb/nasmplugin/parser/NasmParser.java:3530-3538 | `param_list_1_0`: a success consumes at least one token; succeeds only when the next token is `COMMA` |
| NasmGrammar.ParamName | src/main/gen/dev/agb/nasmplugin/parser/NasmParser.java:3542-3550 | `param_name`: succeeds exactly when the next token is `IDENTIFIER`; a success consumes exactly one token |
| NasmGrammar.ParamQualifier | src/main/gen/dev/agb/nasmplugin/parser/NasmParser.java:3557-3567 | `param_qualifier`: a success consumes at least one token; succeeds only when the next token is one of `EQ`, `EXCLAIM`, `MUL`, `PLUS` |
| NasmGrammar.ParamQualifier_0 | src/main/gen/dev/agb/nasmplugin/parser/NasmParser.java:3570-3578 | `param_qualifier_0`: a success consumes at least one token; succeeds only when the next token is `EQ` |
| NasmGrammar.ParamQualifier_1 | src/main/gen/dev/agb/nasmplugin/parser/NasmParser.java:3581-3589 | `param_qualifier_1`: a success consumes at least one token; succeeds only when the next token is `PLUS` |
| NasmGrammar.ParamQualifier_1_1 | src/main/gen/dev/agb/nasmplugin/parser/NasmParser.java:3592-3596 | `param_qualifier_1_1`: never fails; a success leaves the cursor within the input, possibly where it was |
| NasmGrammar.ParamQualifier_2 | src/main/gen/dev/agb/nasmplugin/parser/NasmParser.java:3599-3607 | `param_qualifier_2`: a success consumes at least one token; succeeds only when the next token is `MUL` |
| NasmGrammar.ParamQualifier_2_1 | src/main/gen/dev/agb/nasmplugin/parser/NasmParser.java:3610-3614 | `param_qualifier_2_1`: never fails; a success leaves the cursor within the input, possibly where it was |
| NasmGrammar.ParamQualifier_3 | src/main/gen/dev/agb/nasmplugin/parser/NasmParser.java:3617-3625 | `param_qualifier_3`: a success consumes at least one token; succeeds only when the next token is `EXCLAIM` |
| NasmGrammar.ParamQualifier_3_1 | src/main/gen/dev/agb/nasmplugin/parser/NasmParser.java:3628-3632 | `param_qualifier_3_1`: never fails; a success leaves the cursor within the input, possibly where it was |
| NasmGrammar.ParamSpec | src/main/gen/dev/agb/nasmplugin/parser/NasmParser.java:3636-3645 | `param_spec`: a success consumes at least one token; succeeds only when the next token is `IDENTIFIER` |
| NasmGrammar.ParamSpec_1 | src/main/gen/dev/agb/nasmplugin/parser/NasmParser.java:3648-3652 | `param_spec_1`: never fails; a success leaves the cursor within the input, possibly where it was; it consumes tokens only when the next token is one of `EQ`, `EXCLAIM`, `MUL`, `PLUS` |
| NasmGrammar.PostfixExpr | src/main/gen/dev/agb/nasmplugin/parser/NasmParser.java:3656-3664 | `postfix_expr`: a success consumes at least one token |
| NasmGrammar.PostfixExpr_1 | src/main/gen/dev/agb/nasmplugin/parser/NasmParser.java:3667-3675 | `postfix_expr_1`: never fails; a success leaves the cursor within the input, possibly where it was; the repetition stops only where one more `PostfixExpr_1_0` would fail; it consumes tokens only when the next token is `PASTE_OP` |
| NasmGrammar.PostfixExpr_1_0 | src/main/gen/dev/agb/nasmplugin/parser/NasmParser.java:3678-3686 | `postfix_expr_1_0`: a success consumes at least one token; succeeds only when the next token is `PASTE_OP` |
| NasmGrammar.PpAssignStmt | src/main/gen/dev/agb/nasmplugin/parser/NasmParser.java:3690-3700 | `pp_assign_stmt`: a success consumes at least one token; succeeds only when the next token is `MACRO_ASSIGN` |
| NasmGrammar.PpAssignmentLine | src/main/gen/dev/agb/nasmplugin/parser/NasmParser.java:3705-3714 | `pp_assignment_line`: a success consumes at least one token; succeeds only when the next token is one of `MACRO_ASSIGN`, `MACRO_DEFINE` |
| NasmGrammar.PpAssignmentLine_0 | src/main/gen/dev/agb/nasmplugin/parser/NasmParser.java:3717-3725 | `pp_assignment_line_0`: a success consumes at least one token; succeeds only when the next token is `MACRO_ASSIGN` |
| NasmGrammar.PpAssignmentLine_0_1 | src/main/gen/dev/agb/nasmplugin/parser/NasmParser.java:3728-3732 | `pp_assignment_line_0_1`: never fails; a success leaves the cursor within the input, possibly where it was; it consumes tokens only when the next token is `CRLF` |
| NasmGrammar.PpAssignmentLine_1 | src/main/gen/dev/agb/nasmplugin/parser/NasmParser.java:3735-3743 | `pp_assignment_line_1`: a success consumes at least one token; succeeds only when the next token is `MACRO_DEFINE` |
| NasmGrammar.PpAssignmentLine_1_1 | src/main/gen/dev/agb/nasmplugin/parser/NasmParser.java:3746-3750 | `pp_assignment_line_1_1`: never fails; a success leaves the cursor within the input, possibly where it was; it consumes tokens only when the next token is `CRLF` |
| NasmGrammar.PpDefineStmt | src/main/gen/dev/agb/nasmplugin/parser/NasmParser.java:3754-3766 | `pp_define_stmt`: a success consumes at least one token; succeeds only when the next token is `MACRO_DEFINE` |
| NasmGrammar.PpDefineStmt_2 | src/main/gen/dev/agb/nasmplugin/parser/NasmParser.java:3769-3773 | `pp_define_stmt_2`: never fails; a success leaves the cursor within the input, possibly where it was; it consumes tokens only when the next token is `LPAREN` |
| NasmGrammar.PpDefineStmt_3 | src/main/gen/dev/agb/nasmplugin/parser/NasmParser.java:3776-3780 | `pp_define_stmt_3`: never fails; a success leaves the cursor within the input, possibly where it was |
| NasmGrammar.PreprocessorFunction | src/main/gen/dev/agb/nasmplugin/parser/NasmParser.java:3785-3796 | `preprocessor_function`: a success consumes at least one token; succeeds only when the next token is one of `MACRO_STRCAT`, `MACRO_STRLEN`, `MACRO_SUBSTR`, `PREPROCESSOR_DIRECTIVE` |
| NasmGrammar.PreprocessorFunctionArg | src/main/gen/dev/agb/nasmplugin/parser/NasmParser.java:3811-3813 | `preprocessor_function_arg`: a success consumes at least one token |
| NasmGrammar.PreprocessorFunctionArgs | src/main/gen/dev/agb/nasmplugin/parser/NasmParser.java:3817-3825 | `preprocessor_function_args`: a success consumes at least one token |
| NasmGrammar.PreprocessorFunctionArgs_1 | src/main/gen/dev/agb/nasmplugin/parser/NasmParser.java:3828-3836 | `preprocessor_function_args_1`: never fails; a success leaves the cursor within the input, possibly where it was; the repetition stops only where one more `PreprocessorFunctionArgs_1_0` would fail; it consumes tokens only when the next token is `COMMA` |
| NasmGrammar.PreprocessorFunctionArgs_1_0 | src/main/gen/dev/agb/nasmplugin/parser/NasmParser.java:3839-3847 | `preprocessor_function_args_1_0`: a success consumes at least one token; succeeds only when the next token is `COMMA` |
| NasmGrammar.PreprocessorId | src/main/gen/dev/agb/nasmplugin/parser/NasmParser.java:3851-3859 | `preprocessor_id`: succeeds exactly when the next token is `PREPROCESSOR_DIRECTIVE`; a success consumes exactly one token |
| NasmGrammar.PreprocessorLine | src/main/gen/dev/agb/nasmplugin/parser/NasmParser.java:3868-3880 | `preprocessor_line`: a success consumes at least one token |
| NasmGrammar.PreprocessorToken | src/main/gen/dev/agb/nasmplugin/parser/NasmParser.java:3885-3893 | `preprocessor_token`: a success consumes at least one token |
| NasmGrammar.Program | src/main/gen/dev/agb/nasmplugin/parser/NasmParser.java:3897-3899 | `program`: never fails; a success leaves the cursor within the input, possibly where it was |
| NasmGrammar.PseudoInstruction | src/main/gen/dev/agb/nasmplugin/parser/NasmParser.java:3917-3938 | `pseudo_instruction`: a success consumes at least one token |
| NasmGrammar.QueryFunction | src/main/gen/dev/agb/nasmplugin/parser/NasmParser.java:3944-3953 | `query_function`: a success consumes at least one token; succeeds only when the next token is one of `DEFINED`, `QUERY`, `QUERY_EXPAND` |
| NasmGrammar.Register | src/main/gen/dev/agb/nasmplugin/parser/NasmParser.java:3957-3964 | `register`: succeeds exactly when the next token is one of `REGISTER`, `SEG_REGISTER`, `MASK_REG`; a success consumes exactly one token |
| NasmGrammar.RepBlock | src/main/gen/dev/agb/nasmplugin/parser/NasmParser.java:3968-3982 | `rep_block`: a success consumes at least one token; succeeds only when the next token is `MACRO_REP` |
| NasmGrammar.RepBlock_4 | src/main/gen/dev/agb/nasmplugin/parser/NasmParser.java:3985-3993 | `rep_block_4`: never fails; a success leaves the cursor within the input, possibly where it was; it stops only where no further `CRLF` follows; it consumes tokens only when the next token is `CRLF` |
| NasmGrammar.Scale | src/main/gen/dev/agb/nasmplugin/parser/NasmParser.java:3997-4005 | `scale`: succeeds exactly when the next token is `NUMBER`; a success consumes exactly one token |
| NasmGrammar.SectionAttr | src/main/gen/dev/agb/nasmplugin/parser/NasmParser.java:4010-4018 | `section_attr`: a success consumes at least one token; succeeds only when the next token is one of `ALIGN_KW`, `BITS_KW`, `IDENTIFIER`, `ORG_KW`, `SECTION_ATTR_KW` |
| NasmGrammar.SectionAttr_0 | src/main/gen/dev/agb/nasmplugin/parser/NasmParser.java:4021-4030 | `section_attr_0`: a success consumes at least one token; succeeds only when the next token is one of `ALIGN_KW`, `BITS_KW`, `IDENTIFIER`, `ORG_KW`, `SECTION_ATTR_KW` |
| NasmGrammar.SectionAttrName | src/main/gen/dev/agb/nasmplugin/parser/NasmParser.java:4034-4045 | `section_attr_name`: succeeds exactly when the next token is one of `IDENTIFIER`, `SECTION_ATTR_KW`, `ALIGN_KW`, `BITS_KW`, `ORG_KW`; a success consumes exactly one token |
| NasmGrammar.SectionAttrs | src/main/gen/dev/agb/nasmplugin/parser/NasmParser.java:4049-4061 | `section_attrs`: a success consumes at least one token; the repetition stops only where one more `SectionAttr` would fail; succeeds only when the next token is one of `ALIGN_KW`, `BITS_KW`, `IDENTIFIER`, `ORG_KW`, `SECTION_ATTR_KW` |
| NasmGrammar.SectionDir | src/main/gen/dev/agb/nasmplugin/parser/NasmParser.java:4065-4076 | `section_dir`: a success consumes at least one token; succeeds only when the next token is one of `SECTION_KW`, `SEGMENT_KW` |
| NasmGrammar.SectionDir_2 | src/main/gen/dev/agb/nasmplugin/parser/NasmParser.java:4088-4092 | `section_dir_2`: never fails; a success leaves the cursor within the input, possibly where it was; it consumes tokens only when the next token is one of `ALIGN_KW`, `BITS_KW`, `IDENTIFIER`, `ORG_KW`, `SECTION_ATTR_KW` |
| NasmGrammar.SectionName | src/main/gen/dev/agb/nasmplugin/parser/NasmParser.java:4096-4105 | `section_name`: succeeds exactly when the next token is one of `IDENTIFIER`, `STRING`; a success consumes exactly one token |
| NasmGrammar.SegmentOverride | src/main/gen/dev/agb/nasmplugin/parser/NasmParser.java:4109-4118 | `segment_override`: a success consumes at least one token; succeeds only when the next token is `SEG_REGISTER` |
| NasmGrammar.SegmentReg | src/main/gen/dev/agb/nasmplugin/parser/NasmParser.java:4122-4130 | `segment_reg`: succeeds exactly when the next token is `SEG_REGISTER`; a success consumes exactly one token |
| NasmGrammar.Separator | src/main/gen/dev/agb/nasmplugin/parser/NasmParser.java:4134-4148 | `separator`: succeeds exactly when the next token is one of `COMMA`, `COLON`, `LPAREN`, `RPAREN`, `LBRACKET`, `RBRACKET`, `LBRACE`, `RBRACE`; a success consumes exactly one token |
| NasmGrammar.ShiftExpr | src/main/gen/dev/agb/nasmplugin/parser/NasmParser.java:4152-4160 | `shift_expr`: a success consumes at least one token |
| NasmGrammar.ShiftExpr_1 | src/main/gen/dev/agb/nasmplugin/parser/NasmParser.java:4163-4171 | `shift_expr_1`: never fails; a success leaves the cursor within the input, possibly where it was; the repetition stops only where one more `ShiftExpr_1_0` would fail; it consumes tokens only when the next token is one of `LSHIFT`, `LSHIFT_COMPLETE`, `RSHIFT`, `RSHIFT_COMPLETE` |
| NasmGrammar.ShiftExpr_1_0 | src/main/gen/dev/agb/nasmplugin/parser/NasmParser.java:4174-4182 | `shift_expr_1_0`: a success consumes at least one token; succeeds only when the next token is one of `LSHIFT`, `LSHIFT_COMPLETE`, `RSHIFT`, `RSHIFT_COMPLETE` |
| NasmGrammar.ShiftOp | src/main/gen/dev/agb/nasmplugin/parser/NasmParser.java:4186-4194 | `shift_op`: succeeds exactly when the next token is one of `LSHIFT`, `LSHIFT_COMPLETE`, `RSHIFT`, `RSHIFT_COMPLETE`; a success consumes exactly one token |
| NasmGrammar.SizeOverride | src/main/gen/dev/agb/nasmplugin/parser/NasmParser.java:4198-4206 | `size_override`: succeeds exactly when the next token is `INSTRUCTION_PREFIX`; a success consumes exactly one token |
| NasmGrammar.SizeSpec | src/main/gen/dev/agb/nasmplugin/parser/NasmParser.java:4210-4219 | `size_spec`: a success consumes at least one token; succeeds only when the next token is `SIZE_SPEC` |
| NasmGrammar.SizeSpec_1 | src/main/gen/dev/agb/nasmplugin/parser/NasmParser.java:4222-4230 | `size_spec_1`: never fails; a success leaves the cursor within the input, possibly where it was; it stops only where no further `SIZE_SPEC` follows; it consumes tokens only when the next token is `SIZE_SPEC` |
| NasmGrammar.SmacroExpansion | src/main/gen/dev/agb/nasmplugin/parser/NasmParser.java:4236-4245 | `smacro_expansion`: a success consumes at least one token; succeeds only when the next token is one of `IDENTIFIER`, `MACRO_EXPANSION_START`, `PREPROCESSOR_DIRECTIVE` |
| NasmGrammar.SmacroExpansion_1 | src/main/gen/dev/agb/nasmplugin/parser/NasmParser.java:4248-4257 | `smacro_expansion_1`: a success consumes at least one token; succeeds only when the next token is `MACRO_EXPANSION_START` |
| NasmGrammar.SourceLine | src/main/gen/dev/agb/nasmplugin/parser/NasmParser.java:4273-4292 | `source_line`: a success consumes at least one token |
| NasmGrammar.SourceLines | src/main/gen/dev/agb/nasmplugin/parser/NasmParser.java:4296-4306 | `source_lines`: never fails; a success leaves the cursor within the input, possibly where it was; the repetition stops only where one more `SourceLine` would fail |
| NasmGrammar.SpaceDef | src/main/gen/dev/agb/nasmplugin/parser/NasmParser.java:4310-4320 | `space_def`: a success consumes at least one token; succeeds only when the next token is `SPACE_SIZE` |
| NasmGrammar.SpecialSymbol | src/main/gen/dev/agb/nasmplugin/parser/NasmParser.java:4324-4333 | `special_symbol`: succeeds exactly when the next token is one of `DOLLAR`, `DOUBLE_DOLLAR`, `CONTEXT_LOCAL_REF`; a success consumes exactly one token |
| NasmGrammar.StringFunction | src/main/gen/dev/agb/nasmplugin/parser/NasmParser.java:4337-4346 | `string_function`: a success consumes at least one token; succeeds only when the next token is `STRING_FUNC` |
| NasmGrammar.StringOrEnv | src/main/gen/dev/agb/nasmplugin/parser/NasmParser.java:4352-4361 | `string_or_env`: a success consumes at least one token; succeeds only when the next token is one of `ENV_VAR_PREFIX`, `LT`, `STRING` |
| NasmGrammar.StringTransform | src/main/gen/dev/agb/nasmplugin/parser/NasmParser.java:4365-4374 | `string_transform`: a success consumes at least one token; succeeds only when the next token is `STRING_FUNC` |
| NasmGrammar.StringizeOp | src/main/gen/dev/agb/nasmplugin/parser/NasmParser.java:4378-4386 | `stringize_op`: a success consumes at least one token; succeeds only when the next token is `ENV_VAR_PREFIX` |
| NasmGrammar.StrucBlock | src/main/gen/dev/agb/nasmplugin/parser/NasmParser.java:4390-4402 | `struc_block`: a success consumes at least one token; succeeds only when the next token is `STRUC_KW` |
| NasmGrammar.StrucBlock_4 | src/main/gen/dev/agb/nasmplugin/parser/NasmParser.java:4405-4413 | `struc_block_4`: never fails; a success leaves the cursor within the input, possibly where it was; it stops only where no further `CRLF` follows; it consumes tokens only when the next token is `CRLF` |
| NasmGrammar.SymbolDecl | src/main/gen/dev/agb/nasmplugin/parser/NasmParser.java:4417-4425 | `symbol_decl`: a success consumes at least one token; succeeds only when the next token is one of `ABS`, `AT_KW`, `DEFAULT_KW`, `DUP`, `IDENTIFIER`, `REL`, `SECTION_ATTR_KW`, `SEG`, `SIZE_SPEC`, `STRICT`, `WRT` |
| NasmGrammar.SymbolDecl_1 | src/main/gen/dev/agb/nasmplugin/parser/NasmParser.java:4428-4432 | `symbol_decl_1`: never fails; a success leaves the cursor within the input, possibly where it was; it consumes tokens only when the next token is `COLON` |
| NasmGrammar.SymbolDecl_1_0 | src/main/gen/dev/agb/nasmplugin/parser/NasmParser.java:4435-4443 | `symbol_decl_1_0`: a success consumes at least one token; succeeds only when the next token is `COLON` |
| NasmGrammar.SymbolList | src/main/gen/dev/agb/nasmplugin/parser/NasmParser.java:4447-4455 | `symbol_list`: a success consumes at least one token; succeeds only when the next token is one of `ABS`, `AT_KW`, `DEFAULT_KW`, `DUP`, `IDENTIFIER`, `REL`, `SECTION_ATTR_KW`, `SEG`, `SIZE_SPEC`, `STRICT`, `WRT` |
| NasmGrammar.SymbolList_1 | src/main/gen/dev/agb/nasmplugin/parser/NasmParser.java:4458-4466 | `symbol_list_1`: never fails; a success leaves the cursor within the input, possibly where it was; the repetition stops only where one more `SymbolList_1_0` would fail; it consumes tokens only when the next token is `COMMA` |
| NasmGrammar.SymbolList_1_0 | src/main/gen/dev/agb/nasmplugin/parser/NasmParser.java:4469-4477 | `symbol_list_1_0`: a success consumes at least one token; succeeds only when the next token is `COMMA` |
| NasmGrammar.SymbolName | src/main/gen/dev/agb/nasmplugin/parser/NasmParser.java:4481-4491 | `symbol_name`: a success consumes at least one token; succeeds only when the next token is one of `ABS`, `AT_KW`, `DEFAULT_KW`, `DUP`, `IDENTIFIER`, `REL`, `SECTION_ATTR_KW`, `SEG`, `SIZE_SPEC`, `STRICT`, `WRT` |
| NasmGrammar.SymbolRef | src/main/gen/dev/agb/nasmplugin/parser/NasmParser.java:4500-4512 | `symbol_ref`: a success consumes at least one token; succeeds only when the next token is one of `CONTEXT_LOCAL_REF`, `DOLLAR`, `DOT_DOT`, `DOUBLE_DOLLAR`, `IDENTIFIER`, `MACRO_EXPANSION_START`, `MACRO_EXPLICIT_START`, `MACRO_LOCAL_REF`, `MACRO_PARAM`, `MACRO_PARAM_GREEDY`, `MACRO_PARAM_REVERSE` |
| NasmGrammar.TimesContent | src/main/gen/dev/agb/nasmplugin/parser/NasmParser.java:4518-4527 | `times_content`: a success consumes at least one token |
| NasmGrammar.TimesContent_1 | src/main/gen/dev/agb/nasmplugin/parser/NasmParser.java:4530-4538 | `times_content_1`: a success consumes at least one token; succeeds only when the next token is `DATA_SIZE` |
| NasmGrammar.TimesExpr | src/main/gen/dev/agb/nasmplugin/parser/NasmParser.java:4543-4552 | `times_expr`: a success consumes at least one token; succeeds only when the next token is one of `MACRO_REP`, `TIMES` |
| NasmGrammar.TimesExpr_0 | src/main/gen/dev/agb/nasmplugin/parser/NasmParser.java:4555-4563 | `times_expr_0`: a success consumes at least one token; succeeds only when the next token is `TIMES` |
| NasmGrammar.TimesExpr_1 | src/main/gen/dev/agb/nasmplugin/parser/NasmParser.java:4566-4574 | `times_expr_1`: a success consumes at least one token; succeeds only when the next token is `MACRO_REP` |
| NasmGrammar.TimesInstruction | src/main/gen/dev/agb/nasmplugin/parser/NasmParser.java:4578-4586 | `times_instruction`: a success consumes at least one token; succeeds only when the next token is one of `CONTEXT_LOCAL_REF`, `IDENTIFIER`, `MACRO_EXPANSION_START`, `MACRO_EXPLICIT_START`, `MACRO_LOCAL_REF`, `MACRO_PARAM`, `MACRO_PARAM_GREEDY`, `MACRO_PARAM_REVERSE` |
| NasmGrammar.TimesInstruction_1 | src/main/gen/dev/agb/nasmplugin/parser/NasmParser.java:4589-4593 | `times_instruction_1`: never fails; a success leaves the cursor within the input, possibly where it was |
| NasmGrammar.TimesPrefixedLine | src/main/gen/dev/agb/nasmplugin/parser/NasmParser.java:4597-4609 | `times_prefixed_line`: a success consumes at least one token; succeeds only when the next token is `TIMES` |
| NasmGrammar.TimesPrefixedLine_3 | src/main/gen/dev/agb/nasmplugin/parser/NasmParser.java:4612-4616 | `times_prefixed_line_3`: never fails; a success leaves the cursor within the input, possibly where it was; it consumes tokens only when the next token is `CRLF` |
| NasmGrammar.TimesRepeatCount | src/main/gen/dev/agb/nasmplugin/parser/NasmParser.java:4621-4627 | `times_repeat_count`: a success consumes at least one token |
| NasmGrammar.TokenComparison | src/main/gen/dev/agb/nasmplugin/parser/NasmParser.java:4631-4640 | `token_comparison`: a success consumes at least one token |
| NasmGrammar.TokenOperand | src/main/gen/dev/agb/nasmplugin/parser/NasmParser.java:4644-4656 | `token_operand`: a success consumes at least one token; the repetition stops only where one more `TokenOperandElement` would fail |
| NasmGrammar.TokenOperandElement | src/main/gen/dev/agb/nasmplugin/parser/NasmParser.java:4660-4668 | `token_operand_element`: a success consumes at least one token |
| NasmGrammar.TokenOperandElement_0 | src/main/gen/dev/agb/nasmplugin/parser/NasmParser.java:4671-4678 | `token_operand_element_0`: a success leaves the cursor within the input, possibly where it was; a success consumes nothing |
| NasmGrammar.TokenOperandElement_0_0 | src/main/gen/dev/agb/nasmplugin/parser/NasmParser.java:4681-4687 | `token_operand_element_0_0`: a success consumes at least one token; succeeds only when the next token is one of `COMMA`, `EQ_EQ`, `GT`, `GTE`, `LT`, `LTE`, `NOT_EQUAL_1`, `NOT_EQUAL_2`, `SPACESHIP` |
| NasmGrammar.TokenSequence | src/main/gen/dev/agb/nasmplugin/parser/NasmParser.java:4691-4703 | `token_sequence`: a success consumes at least one token; the repetition stops only where one more `PreprocessorToken` would fail |
| NasmGrammar.UnaryExpr | src/main/gen/dev/agb/nasmplugin/parser/NasmParser.java:4708-4716 | `unary_expr`: a success consumes at least one token |
| NasmGrammar.UnaryExpr_0 | src/main/gen/dev/agb/nasmplugin/parser/NasmParser.java:4719-4727 | `unary_expr_0`: a success consumes at least one token; succeeds only when the next token is one of `EXCLAIM`, `MINUS`, `PLUS`, `SEG`, `TILDE` |
| NasmGrammar.UnaryOp | src/main/gen/dev/agb/nasmplugin/parser/NasmParser.java:4731-4740 | `unary_op`: succeeds exactly when the next token is one of `PLUS`, `MINUS`, `TILDE`, `EXCLAIM`, `SEG`; a success consumes exactly one token |
| NasmGrammar.UnlabeledContent | src/main/gen/dev/agb/nasmplugin/parser/NasmParser.java:4744-4752 | `unlabeled_content`: a success consumes at least one token |
| NasmGrammar.UnlabeledContent_1 | src/main/gen/dev/agb/nasmplugin/parser/NasmParser.java:4755-4759 | `unlabeled_content_1`: never fails; a success leaves the cursor within the input, possibly where it was; it consumes tokens only when the next token is `CRLF` |
| NasmGrammar.UsePackage | src/main/gen/dev/agb/nasmplugin/parser/NasmParser.java:4763-4773 | `use_package`: a success consumes at least one token; succeeds only when the next token is `MACRO_USE` |
| NasmGrammar.VexPrefix | src/main/gen/dev/agb/nasmplugin/parser/NasmParser.java:4777-4785 | `vex_prefix`: succeeds exactly when the next token is `INSTRUCTION_PREFIX`; a success consumes exactly one token |
| NasmGrammar.WrtSuffix | src/main/gen/dev/agb/nasmplugin/parser/NasmParser.java:4789-4799 | `wrt_suffix`: a success consumes at least one token; succeeds only when the next token is `WRT` |
| NasmGrammar.WrtSuffix_1 | src/main/gen/dev/agb/nasmplugin/parser/NasmParser.java:4802-4808 | `wrt_suffix_1`: a success consumes at least one token; succeeds only when the next token is one of `CONTEXT_LOCAL_REF`, `DOLLAR`, `DOT_DOT`, `DOUBLE_DOLLAR`, `IDENTIFIER`, `MACRO_EXPANSION_START`, `MACRO_EXPLICIT_START`, `MACRO_LOCAL_REF`, `MACRO_PARAM`, `MACRO_PARAM_GREEDY`, `MACRO_PARAM_REVERSE`, `WRT_SUFFIX` |
| NasmGrammar.XorExpr | src/main/gen/dev/agb/nasmplugin/parser/NasmParser.java:4812-4820 | `xor_expr`: a success consumes at least one token |
| NasmGrammar.XorExpr_1 | src/main/gen/dev/agb/nasmplugin/parser/NasmParser.java:4823-4831 | `xor_expr_1`: never fails; a success leaves the cursor within the input, possibly where it was; the repetition stops only where one more `XorExpr_1_0` would fail; it consumes tokens only when the next token is `CARET` |
| NasmGrammar.XorExpr_1_0 | src/main/gen/dev/agb/nasmplugin/parser/NasmParser.java:4834-4842 | `xor_expr_1_0`: a success consumes at least one token; succeeds only when the next token is `CARET` |

## Left out

- IDE plumbing: the PSI tree builder, markers and error elements, generated PSI classes, visitors and the lexer adapter. The model works on token kinds and on element lists with offsets.
- The parser's `recursion_guard_` depth limit. Every grammar function terminates by position and rule rank instead.
- NasmGrammar functions: their contracts state progress, bounds and FIRST sets only. The language a rule recognizes is given by the function itself; the properties of whole rules are in GrammarProperties.
- The lexer. Token kinds are inputs, and comments and whitespace are filtered by `ParserCursor.Significant`.
- Re-parsing in the evaluator: `evaluateNasmExpression` on fresh PSI and `reparseAndEvaluate`. ConstEval takes a macro call's re-parsed expansion as part of the call. `ConstEval.ExpandsFrom` ties it to `MacroSubstitution.ExpandMacroBody` through a `parse` function parameter that stands for the parser.
- The evaluator's `ThreadLocal` context and the catch that turns an exception into "Evaluation failed".
  - The context's visited set and preprocessor flag are fields of one `ConstEval.Evaluator`, and threads are not modelled.
  - Java's `replaceAll` throwing on a replacement string with `$` or `\` is modelled, as `None` (MacroSubstitution.ReplaceWord and Expand). Only the catch that turns it into "Evaluation failed" is left out.
- Regex `\b` in parameter substitution is written out as an explicit ASCII word-boundary test (`BoundaryBefore` and `BoundaryAfter` in MacroSubstitution).
- MacroSubstitution.SubstituteParameters: parameter names are taken to be regex word characters (`AllWords`). NASM identifiers may also hold `$`, `.`, `?`, `@`, `#` or `~`, which `\b$param\b` reads as regex syntax (`.` any character, `$` an anchor); such names are not modelled.
- MacroSubstitution.ExpandMacroBody: the same restriction to parameter names made of word characters.
- ConstEval.SumBodyEval: re-parsed text is resolved against one context file for the whole evaluation (`Env.context`). The source passes on the containing file of each normally resolved reference, so after a reference into an included file the context file changes; that switch is not modelled.
- ConstEval.DefineCycle: the same single context file.
- JavaNumbers.DigitValue: reads the ASCII digits `0`-`9` and letters `a`-`z`/`A`-`Z` only. Java's `Character.digit`, which Kotlin's `toInt(radix)` and `toLong(radix)` reach, also takes every other Unicode decimal digit (such as the Arabic-Indic `٤`) and the fullwidth Latin digits and letters. So in the source the escape `\x٤١` in a string is `A` (0x41), while here the hex escape fails and its four characters are kept.
- JavaNumbers.ParseLong: the same ASCII-only reading of digits; text such as `٤١` is rejected here and read as 0x41 in radix 16 by the source.
- JavaNumbers.ParseLongRejects: holds for the model's ASCII reading only; a fullwidth or other Unicode digit of the radix is a digit for Java.
- ConstExpr.EvaluateNumber: the same ASCII-only reading of number tokens; the lexer that produces them is not part of this model.
- ConstExpr.EvaluateString: a string here is a sequence of Unicode scalar values, while a Kotlin string is a sequence of UTF-16 chars. A character outside the Basic Multilingual Plane is one character here and a surrogate pair in the source, so `'😀'` evaluates to 0x1F600 here and to 0x3D in the source (the pair 0xD83D, 0xDE00 packed by low bytes). The positions that the `\x` escape and the length tests count differ in the same way. A Dafny character cannot hold a lone surrogate, so the pair cannot be written out.
- ConstExpr.PackedBytes: takes one byte per Unicode scalar value, where the source takes one per UTF-16 char; the two differ for text outside the Basic Multilingual Plane.
- StringOrder.SortSpec: `StringOrder.Less` compares Unicode scalar values, while Kotlin's `compareTo` compares UTF-16 chars. The two orders differ when a character outside the Basic Multilingual Plane meets one from U+E000 to U+FFFF: the surrogate 0xD83D of `😀` sorts before U+FF01 in Kotlin, and after it here.
- StringOrder.AddToSetSpec: the same order on scalar values, not UTF-16 chars.
- SymbolValidation.LowerOfUpper: case mapping is ASCII-only (Text.Lower and Text.Upper). Kotlin's Unicode `lowercase()`/`uppercase()` also map characters such as `ſ` (to `S`) and the Kelvin sign (to `k`), which the model leaves as they are.
- SymbolValidation.FixedSetsIgnoreCase: the same ASCII-only case mapping; with Unicode mappings `ſp` is no register while `SP` is one.
- NamesValidator.KeywordIgnoresCase: the same ASCII-only case mapping; with Unicode mappings `ſhl` is no keyword while `SHL` is one.
- InstructionDatabase.GetInstructionIgnoresCase: the same ASCII-only case mapping.
- Text.EndsWithIgnoreCase, Text.ContainsIgnoreCase and the `IGNORE_CASE` regexes (read as ASCII letter classes): Kotlin's `ignoreCase` and Java's `IGNORE_CASE` with `UNICODE_CASE` also match non-ASCII case variants, such as `ſ` for `s`; the model matches ASCII only.
- OperandDocs.LazySplitIsRegex: reads `^(.+?)(\d+)$` with `.` as any character and `$` as the very end. Java's `.` excludes line terminators and its `$` also matches before a final one; operand type strings hold no line terminators, so the difference never arises there.
- PsiUtil.ScopeEnd: states the intended scope end, where a `%%` label does not end a scope; the code as written is PsiUtil.ScopeEndAsWritten.
- PsiUtil.ScanMeaning: the intended scan; the code as written is stated by PsiUtil.ScanAsWrittenMeaning.
- PsiUtil.FindLabelDefinitionCorrected: the intended lookup; the code as written is PsiUtil.FindLabelDefinition.
- PsiUtil.QualifiedLookupCorrected: the intended lookup; the code as written is PsiUtil.QualifiedLookup.
- PsiUtil.LocalLookupCorrected: the intended lookup; the code as written is PsiUtil.LocalLookup.
- RegisterFamilies.RegisterFamilyCorrected: the intended family choice; the code as written is RegisterFamilies.RegisterFamily. RegisterFamilies.RdiFamilyClosed and RegisterFamilies.RbpFamilyClosed are about the corrected choice.
- CommandLineMacros.ParseMacroDefinition: names are checked with ASCII letters and digits. Kotlin's `isLetter` and `isLetterOrDigit` also accept non-ASCII letters and digits, which the model rejects.
- PreprocessorState: a `%if` condition's text is not kept, since the source always treats it as unknown. Conditional block contents are never walked, as in the source.
- PreprocessorState.DoEvaluateFile: it uses the global command-line macros only, as the source does (it asks for macros without a file).
- ProjectSettings.NasmProjectSettings.LoadState: the modification count grows by two, because the bean copy goes through the macros setter. This follows the code.
- ProjectSettings.NasmProjectSettings.SetIncludePaths: the include-path list is stored as a value. The Kotlin setter keeps the caller's `MutableList` by reference, and `getState()` returns the settings object itself, so later changes to that list show up in the settings. That aliasing is not modelled.
- File I/O and processes: `make` dry runs, VFS file lookup, reading `compile_commands.json`, and file probing. Files are resolved through function parameters, and the include graph is a map from a file to its resolved includes.
- XML and JSON database loading (`XmlDatabaseLoader`, Gson) and the instruction database tool. The database contents are parameters.
- The other `*Database` objects (directives, registers and so on). They have the same shape as `InstructionDatabase`, which is modelled.
- `validateMacroCall`, which does nothing.
- `extractFunctionMacroName`, `findMacroDefinitionWithIncludes`, `findNameIdentifier`, `extractNewIdentifier` and `setName`. These walk or replace PSI.
- The size grouping that `getRelatedRegisters` reads from the register database. Only the family choice (RegisterFamilies) is modelled.
- `preProcessEnter` of the enter handler, which always continues.
- Annotator, completion-contributor, reference, navigation and structure-view glue, beyond the pure helpers modelled here.
- NasmMacroRedefinitionInspection, the NasmSymbolResolver search order, CommentExtractor and NasmStructureViewElement nesting. These were left out to keep the model's size down.
- Debug logging (`LOG.warn`), CLion/CIDR cross-language executors, workspace listeners, debugger support, and the read/write lock in the project model service.

## Findings

| source | as written | input that shows it | evidently intended | confidence | as-written member | corrected member |
|---|---|---|---|---|---|---|
| src/main/kotlin/dev/agb/nasmplugin/documentation/NasmDocumentationProvider.kt:399-419 | the `contains("d")` test for the rdx family comes before the rdi test, and `contains("b")` for the rbx family before the rbp test | `rdi`, `edi`, `di` or `dil` gives the rdx family; `rbp`, `ebp`, `bp` or `bpl` gives the rbx family | each register gets its own family (`rdi` with `edi`/`di`/`dil`, `rbp` with `ebp`/`bp`/`bpl`) | high, not executed | RegisterFamilies.RegisterFamilyMisfiles | RegisterFamilies.RdiFamilyClosed |
| src/main/kotlin/dev/agb/nasmplugin/psi/NasmPsiUtil.kt:183-190 | the scope test (`!startsWith(".")` breaks) comes before the `%%` skip, so the skip is never reached | labels `g`, `%%m`, `.x`: looking up `.x` in the scope of `g` finds nothing | a macro-local `%%` label does not end the scope of a global label | high, not executed | PsiUtil.MacroLocalEndsScopeAsWritten | PsiUtil.MacroLocalSkipped |
