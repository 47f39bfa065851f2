// The token kinds the lexer hands to the parser (the token half of
// `NasmTypes`), plus the platform's whitespace token. Each kind is an
// element-type object compared by identity in the source; here each one is a
// distinct number.
module Tokens {
  newtype Kind = k: int | 0 <= k < 150

  const ABS: Kind := 0
  const ABSOLUTE_KW: Kind := 1
  const ALIGNB_KW: Kind := 2
  const ALIGN_KW: Kind := 3
  const AMP: Kind := 4
  const AT_KW: Kind := 5
  const BITS_KW: Kind := 6
  const BOOLEAN_AND: Kind := 7
  const BOOLEAN_OR: Kind := 8
  const BOOLEAN_XOR: Kind := 9
  const BROADCAST: Kind := 10
  const BUILTIN_FUNC: Kind := 11
  const CARET: Kind := 12
  const COLON: Kind := 13
  const COMMA: Kind := 14
  const COMMENT: Kind := 15
  const COMMON_KW: Kind := 16
  const CONTEXT_LOCAL_REF: Kind := 17
  const CPU_KW: Kind := 18
  const CRLF: Kind := 19
  const DATA_SIZE: Kind := 20
  const DEFAULT_KW: Kind := 21
  const DEFINED: Kind := 22
  const DIV: Kind := 23
  const DOLLAR: Kind := 24
  const DOT_DOT: Kind := 25
  const DOUBLE_DOLLAR: Kind := 26
  const DUP: Kind := 27
  const ENDSTRUC_KW: Kind := 28
  const ENV_VAR_PREFIX: Kind := 29
  const EQ: Kind := 30
  const EQU: Kind := 31
  const EQ_EQ: Kind := 32
  const EXCLAIM: Kind := 33
  const EXTERN_KW: Kind := 34
  const FLOAT: Kind := 35
  const FLOAT_FUNC: Kind := 36
  const FLOAT_KW: Kind := 37
  const GLOBAL_KW: Kind := 38
  const GT: Kind := 39
  const GTE: Kind := 40
  const IDENTIFIER: Kind := 41
  const IEND_KW: Kind := 42
  const INCBIN_KW: Kind := 43
  const INSTRUCTION_PREFIX: Kind := 44
  const ISTRUC_KW: Kind := 45
  const LBRACE: Kind := 46
  const LBRACKET: Kind := 47
  const LPAREN: Kind := 48
  const LSHIFT: Kind := 49
  const LSHIFT_COMPLETE: Kind := 50
  const LT: Kind := 51
  const LTE: Kind := 52
  const MACRO_ALIASES: Kind := 53
  const MACRO_ARG_DECL: Kind := 54
  const MACRO_ASSIGN: Kind := 55
  const MACRO_CLEAR: Kind := 56
  const MACRO_DEFINE: Kind := 57
  const MACRO_DEPEND: Kind := 58
  const MACRO_ELIF: Kind := 59
  const MACRO_ELIFMACRO: Kind := 60
  const MACRO_ELSE: Kind := 61
  const MACRO_END: Kind := 62
  const MACRO_ENDIF: Kind := 63
  const MACRO_ENDREP: Kind := 64
  const MACRO_ENDWHILE: Kind := 65
  const MACRO_ERROR: Kind := 66
  const MACRO_EXITMACRO: Kind := 67
  const MACRO_EXITREP: Kind := 68
  const MACRO_EXPANSION_START: Kind := 69
  const MACRO_EXPLICIT_START: Kind := 70
  const MACRO_IF: Kind := 71
  const MACRO_IFDEF: Kind := 72
  const MACRO_IFMACRO: Kind := 73
  const MACRO_IFNDEF: Kind := 74
  const MACRO_INCLUDE: Kind := 75
  const MACRO_LINE: Kind := 76
  const MACRO_LOCAL: Kind := 77
  const MACRO_LOCAL_REF: Kind := 78
  const MACRO_PARAM: Kind := 79
  const MACRO_PARAM_GREEDY: Kind := 80
  const MACRO_PARAM_REVERSE: Kind := 81
  const MACRO_PATHSEARCH: Kind := 82
  const MACRO_POP: Kind := 83
  const MACRO_PRAGMA: Kind := 84
  const MACRO_PUSH: Kind := 85
  const MACRO_REP: Kind := 86
  const MACRO_REPL: Kind := 87
  const MACRO_ROTATE: Kind := 88
  const MACRO_STACKSIZE: Kind := 89
  const MACRO_START: Kind := 90
  const MACRO_STRCAT: Kind := 91
  const MACRO_STRLEN: Kind := 92
  const MACRO_SUBSTR: Kind := 93
  const MACRO_UNDEF: Kind := 94
  const MACRO_UNMACRO: Kind := 95
  const MACRO_USE: Kind := 96
  const MACRO_WHILE: Kind := 97
  const MAP_KW: Kind := 98
  const MASK_REG: Kind := 99
  const MINUS: Kind := 100
  const MOD: Kind := 101
  const MUL: Kind := 102
  const NOT_EQUAL_1: Kind := 103
  const NOT_EQUAL_2: Kind := 104
  const NUMBER: Kind := 105
  const ORG_KW: Kind := 106
  const PASTE_OP: Kind := 107
  const PIPE: Kind := 108
  const PLUS: Kind := 109
  const PREPROCESSOR_DIRECTIVE: Kind := 110
  const QUERY: Kind := 111
  const QUERY_EXPAND: Kind := 112
  const QUESTION_MARK: Kind := 113
  const RBRACE: Kind := 114
  const RBRACKET: Kind := 115
  const REGISTER: Kind := 116
  const REL: Kind := 117
  const REQUIRED_KW: Kind := 118
  const ROUNDING: Kind := 119
  const RPAREN: Kind := 120
  const RSHIFT: Kind := 121
  const RSHIFT_COMPLETE: Kind := 122
  const SAE: Kind := 123
  const SECTALIGN_KW: Kind := 124
  const SECTION_ATTR_KW: Kind := 125
  const SECTION_KW: Kind := 126
  const SEG: Kind := 127
  const SEGMENT_KW: Kind := 128
  const SEG_REGISTER: Kind := 129
  const SIGNED_DIV: Kind := 130
  const SIGNED_MOD: Kind := 131
  const SIZE_SPEC: Kind := 132
  const SPACESHIP: Kind := 133
  const SPACE_SIZE: Kind := 134
  const SPECIAL_FLOAT: Kind := 135
  const STATIC_KW: Kind := 136
  const STRICT: Kind := 137
  const STRING: Kind := 138
  const STRING_FUNC: Kind := 139
  const STRUC_KW: Kind := 140
  const TILDE: Kind := 141
  const TIMES: Kind := 142
  const USE16_KW: Kind := 143
  const USE32_KW: Kind := 144
  const USE64_KW: Kind := 145
  const WRT: Kind := 146
  const WRT_SUFFIX: Kind := 147
  const ZEROING: Kind := 148
  const WHITE_SPACE: Kind := 149
}
