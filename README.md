# Peri_Peri interpreter: a Dafny model

Peri_Peri is a toy language whose whole pipeline lives in one Python file,
`peri_interpreter.py`. This project models its three stages:

- **Lexer** (`lexer.dfy`). The ordered token table `TOKENS` and the loop in
  `lex`. At each position the table is tried in order and the first pattern
  that matches wins. Blanks are dropped. A character that no pattern matches
  raises `SyntaxError`.
  - `Lexed` is the function specification. `Lex` is the method with both
    loops, proved equal to it.
  - `Classify` is an independent dispatch on the first character. It is
    proved equal to the ordered first match. The properties below all come
    from it:
    - lexing never fails;
    - `if`, `while` and `print` lex as IDENTIFIER;
    - every token has the shape of its kind;
    - the lexemes spell the input minus the blanks that lie outside
      string literals.
- **Parser** (`parser.dfy`). The reachable part of `parse`. It looks at the
  first token, pops it from the token list and returns one node:
  - a `Number`;
  - the identifier's text;
  - the string literal with its quotes removed.

  Anything else raises `SyntaxError`. The Python list becomes the class
  `TokenList`, and `pop(0)` becomes `PopFront`. `Parse` is proved against
  the function `ParseHead`.
- **Evaluator** (`evaluator.dfy`, `ast.dfy`). The node classes, and `visit`
  and `interpret` as methods of an `Interpreter`. The interpreter owns:
  - the `variables` dictionary;
  - the lines printed so far.

  `Visit` and `Interpret` are proved equal to the functions `Eval` and
  `Run`. Values are Python ints, strs and `None`. Operators follow Python's
  rules for those types, and an exception becomes a `Failure` that keeps
  the effects already made. A raw `str` node evaluates to itself, so a
  variable is never read back.

`numerals.dfy` models Python's `int()` on digit strings and `str()` on ints.
`wrappers.dfy` holds `Option` and `Result`.

The model follows the code wherever it departs from what its token table suggests:
- Keywords are matched after IDENTIFIER, so they never produce keyword
  tokens.
- The final `.` pattern matches every character except a newline, and a
  newline is a blank, so the lexer's error branch cannot be reached.
- There are no `if`/`while` statements, no grammar beyond a single
  primary, no semicolon handling and no variable lookup.

## Model

| member | source | states |
|---|---|---|
| Numerals.DigitChar | peri_interpreter.py:126 | a digit below ten is rendered as a digit character that reads back as the same digit |
| Numerals.Digits | peri_interpreter.py:126 | decimal rendering of a natural number: non-empty, digits only, no leading zero except for 0 itself |
| Numerals.IntToString | peri_interpreter.py:126 | `str()` of an int: non-empty, a leading `-` exactly for negative numbers, then a non-empty run of digits without a leading zero unless it is `0` itself |
| Numerals.IntOf | peri_interpreter.py:78 | `int()` succeeds exactly on a non-empty digit string, optionally signed with `-` or `+`; it gives the decimal value, negated after `-`; every other string (empty, `12a`, `-`, `1-2`) raises ValueError |
| Numerals.DigitsRoundTrip | peri_interpreter.py:78 | reading back the decimal rendering of n gives n |
| Numerals.IntRoundTrip | peri_interpreter.py:78 | `int(str(i)) == i` for every int, negative ones included |
| Lexer.RunLength | peri_interpreter.py:11-12 | the length of the maximal run of digits or word characters: all inside the class, the next one outside |
| Lexer.QuoteIndex | peri_interpreter.py:25 | the position of the first double quote from a given index, or none when there is no quote |
| Lexer.QuoteIndexIs | peri_interpreter.py:25 | a quote with no quote before it (from the start index) is the one QuoteIndex finds |
| Lexer.Match | peri_interpreter.py:10-29 | whenever a table pattern matches, it matches a non-empty prefix of the input |
| Lexer.FirstMatchFrom | peri_interpreter.py:35-43 | from a given table position: a matching pattern with its match length, a non-empty prefix; none only when no pattern from the position on matches |
| Lexer.FirstMatchFromIsFirst | peri_interpreter.py:35-43 | the pattern found is the first that matches: no pattern between the start position and it matches |
| Lexer.Lexed | peri_interpreter.py:32-49 | `lex` as a value: at most one token per input character, every token with a non-empty lexeme and none of kind SKIP; a SyntaxError would carry a non-empty suffix of the input |
| Lexer.Lex | peri_interpreter.py:32-49 | the loop over the input and the inner loop over the table produce exactly the tokens the first-match specification gives |
| Lexer.TryPatterns | peri_interpreter.py:35-44 | the inner loop finds a pattern exactly when some pattern matches, and then finds the first one |
| Lexer.LexedStep | peri_interpreter.py:38-42 | one step of lexing: the matched prefix becomes a token unless it is SKIP, and the rest is lexed on |
| Lexer.Classify | peri_interpreter.py:10-29 | the dispatch on the first character consumes a non-empty prefix |
| Lexer.PatternsRanked | peri_interpreter.py:10-29 | the table has 18 patterns, each at its rank |
| Lexer.NoEarlierMatch | peri_interpreter.py:10-29 | no pattern listed before the one Classify picks matches the input |
| Lexer.ClassifyMatches | peri_interpreter.py:10-29 | the pattern Classify picks matches exactly the length Classify gives |
| Lexer.FirstMatchFromSkips | peri_interpreter.py:35-43 | patterns that do not match are passed over by the ordered search |
| Lexer.FirstMatchIsClassify | peri_interpreter.py:35-43 | the ordered first match equals the first-character dispatch on every non-empty input |
| Lexer.SomePatternMatches | peri_interpreter.py:28-48 | some pattern always matches a non-empty input (the `.` pattern or the blank pattern) |
| Lexer.LexNeverFails | peri_interpreter.py:44-48 | lexing never raises: the error branch is unreachable |
| Lexer.LexedByClassify | peri_interpreter.py:34-43 | lexing is the token of the dispatched prefix followed by lexing the rest |
| Lexer.ClassifiedTokenShaped | peri_interpreter.py:10-29 | the token produced for a dispatched prefix has the shape of its kind |
| Lexer.TokensWellShaped | peri_interpreter.py:10-49 | every token is shaped by its kind: digit runs, identifiers, one-character operators, closed string literals, single stray characters |
| Lexer.NoKeywordOrSkipTokens | peri_interpreter.py:12-40 | lexing never produces IF, WHILE, PRINT or SKIP tokens |
| Lexer.WordLexesAsIdentifier | peri_interpreter.py:12 | an identifier-shaped word lexes to one IDENTIFIER token |
| Lexer.KeywordsLexAsIdentifiers | peri_interpreter.py:12-24 | `if`, `while` and `print` each lex to one IDENTIFIER token, because IDENTIFIER comes first in the table |
| Lexer.DigitRunLexesAsOneNumber | peri_interpreter.py:11 | a digit string lexes to one NUMBER token holding all of it |
| Lexer.UnterminatedQuoteIsMismatch | peri_interpreter.py:25-28 | a quote that is never closed lexes as a one-character MISMATCH token, and lexing carries on after it |
| Lexer.SignificantPrefix | peri_interpreter.py:27 | a prefix free of blanks and quotes is kept whole |
| Lexer.PlainTokenChars | peri_interpreter.py:11-28 | a token that is neither a string nor a blank contains no blank and no quote |
| Lexer.LeadingLexemes | peri_interpreter.py:40-41 | the lexemes of the leading token followed by more tokens are its text followed by theirs |
| Lexer.SignificantStep | peri_interpreter.py:38-42 | each lexing step consumes the leading token's text from the blank-free reading of the input |
| Lexer.SignificantStepPlain | peri_interpreter.py:11-26 | the step for numbers, identifiers and operators |
| Lexer.SignificantStepString | peri_interpreter.py:25 | the step for a closed string literal, which keeps its blanks |
| Lexer.SignificantStepBlank | peri_interpreter.py:27-40 | the step for a blank, which contributes no text |
| Lexer.SignificantStepStrayQuote | peri_interpreter.py:28 | the step for an unmatched quote, which contributes the quote itself |
| Lexer.LexemesAreSignificant | peri_interpreter.py:32-49 | the lexemes, concatenated, equal the input with every blank outside a closed string literal removed |
| Lexer.SignificantWithoutQuotes | peri_interpreter.py:25-27 | without quotes, that reading is the input minus all blanks |
| Lexer.QuoteFreeLexemesDropBlanks | peri_interpreter.py:32-49 | for quote-free input, the lexemes concatenate to the input without its blanks |
| Lexer.StringLiteralIsOneToken | peri_interpreter.py:25 | a closed string literal lexes to one STRING token, blanks inside it included |
| Parser.TokenList.constructor | peri_interpreter.py:76 | the token list holds the given tokens |
| Parser.TokenList.PopFront | peri_interpreter.py:78-82 | `pop(0)` returns the first token and removes it |
| Parser.StripQuotes | peri_interpreter.py:82 | `[1:-1]`: the characters strictly between the first and the last, or empty for a string shorter than two |
| Parser.ParseHead | peri_interpreter.py:76-84 | `parse` succeeds exactly on a leading NUMBER with a valid numeral, IDENTIFIER or STRING, and then consumes that one token. NUMBER gives `Number` of the `int()` value (of the digits, leading zeros included), IDENTIFIER gives its text, and STRING gives the text without its quotes. An empty list is an IndexError. An invalid numeral is a ValueError that still consumes the token. Any other kind is a SyntaxError that consumes nothing |
| Parser.Parse | peri_interpreter.py:76-84 | the method's result and remaining tokens are those of the parse specification |
| Parser.ParseNumeral | peri_interpreter.py:77-78 | a NUMBER token parses to the Number of its value, and only it is consumed |
| Parser.ParseStringLiteral | peri_interpreter.py:81-82 | a quoted STRING token parses to its text without the quotes |
| Parser.LexParseNumeral | peri_interpreter.py:77-78 | lexing then parsing the decimal rendering of n gives `Number(n)` and uses every token |
| Parser.LexParseWord | peri_interpreter.py:79-80 | lexing then parsing an identifier (keywords included) gives its text |
| Parser.LexParseStringLiteral | peri_interpreter.py:81-82 | lexing then parsing a quoted text without inner quotes gives the text back |
| Parser.ParseOfLexedNeverValueError | peri_interpreter.py:77-78 | on lexer output, the model's `int()`, which has no digit limit, never fails, because NUMBER lexemes are digit runs |
| Evaluator.Show | peri_interpreter.py:126 | `str()` of a value: an int is its canonical decimal text (`IntToString`), which reads back as the int; a str is itself; None is `None` |
| Evaluator.Repeat | peri_interpreter.py:119 | `str * int` has length count times the length of the string, is empty for a count of zero or below, and one copy is the string itself |
| Evaluator.RepeatAdds | peri_interpreter.py:119 | repeating m + n times is repeating m times and then n times |
| Evaluator.RepeatAppendsOneCopy | peri_interpreter.py:119 | one more repetition appends one more copy of the string |
| Evaluator.RepeatCharacters | peri_interpreter.py:119 | character j of copy k in `s * n` is character j of s: the result is n copies of s |
| Evaluator.Apply | peri_interpreter.py:114-121 | the four operators under Python's rules for int, str and None. Ints give an int under `+`, `-` and `*`. `str + str` concatenates. `str * int` and `int * str` repeat, while `str * str` is a TypeError. None or mixed operands are a TypeError. `/` never yields a value: ZeroDivisionError exactly for an int zero divisor, otherwise the float is outside the model. Any other op yields None |
| Evaluator.Eval | peri_interpreter.py:108-130 | `visit` as a value: it never raises AttributeError, and assignments and prints return None |
| Evaluator.Run | peri_interpreter.py:132-134 | `interpret` as a value: it never raises AttributeError, only extends the output, and never removes a variable |
| Evaluator.Interpreter.constructor | peri_interpreter.py:104-106 | a new interpreter has no variables and has printed nothing |
| Evaluator.Interpreter.Visit | peri_interpreter.py:108-130 | visiting a node leaves the result and the interpreter state that the evaluation specification gives, exceptions and effects made before them included |
| Evaluator.Interpreter.Interpret | peri_interpreter.py:132-134 | visiting the nodes in list order gives the result and state of running the program, stopping at the first exception |
| Evaluator.ExprEvalIsStateless | peri_interpreter.py:109-128 | numbers, raw strings and operators change no state, and their value does not depend on the variables |
| Evaluator.ArithmeticOnInts | peri_interpreter.py:114-119 | on int operands, `+`, `-` and `*` give the sum, the difference and the product |
| Evaluator.DivisionByZero | peri_interpreter.py:120-125 | dividing an int by zero raises ZeroDivisionError before anything is printed |
| Evaluator.OperandsLeftToRight | peri_interpreter.py:112-113 | the left operand is evaluated before the right: its output comes first |
| Evaluator.AssignBindsOnlyItsName | peri_interpreter.py:122-123 | an assignment binds its name to the value, returns None, prints nothing and leaves every other binding alone |
| Evaluator.PrintAppendsOneLine | peri_interpreter.py:124-126 | a print appends exactly the value's `str()` line, returns None and binds nothing |
| Evaluator.EvalOnlyAppends | peri_interpreter.py:108-130 | evaluation, even a failing one, only extends the output and never removes a variable |
| Evaluator.RunConcat | peri_interpreter.py:132-134 | running two programs in sequence is running their concatenation, unless the first raises |
| Evaluator.RunStraightLine | peri_interpreter.py:122-134 | a program of error-free assignments and prints succeeds, prints one line per print in program order, and leaves each name bound to its last assignment, with all other bindings kept |
| Evaluator.NamesAreNotLookedUp | peri_interpreter.py:123-128 | after `x = 5`, printing the parsed identifier `x` prints `x`, not `5` |
| Evaluator.VisitAsWritten | peri_interpreter.py:108-130 | `visit` exactly as written: only numbers and raw strs evaluate; every other node raises AttributeError, and nothing is ever changed |
| Evaluator.AsWrittenPrintPrintsNothing | peri_interpreter.py:108-126 | as written, visiting a print node raises AttributeError and prints nothing, whereas the intended visit prints one line |

## Findings

| source | as written | input that shows it | evidently intended | confidence | as-written member | corrected member |
|---|---|---|---|---|---|---|
| peri_interpreter.py:104-134 | `visit` is a module-level function, and `interpret` is a local definition nested inside it, so `Interpreter` has neither method. Every `self.visit(...)` call on an `Interpreter` raises AttributeError | visiting `Print(Number(1))` with an `Interpreter` as `self` raises AttributeError and prints nothing | `visit` and `interpret` are methods of `Interpreter`, and the print node prints `1` | high (not executed) | Evaluator.VisitAsWritten, Evaluator.AsWrittenPrintPrintsNothing | Evaluator.Interpreter.Visit, Evaluator.Interpreter.Interpret |

## Left out

- `main` (peri_interpreter.py:138-155): reading the file and the command line. I/O is not modelled. As written, the call `interpreter.interpret(ast)` (peri_interpreter.py:151) raises AttributeError at the attribute lookup, because `Interpreter` has no `interpret` (see Findings). A second defect is that `main` passes the single node returned by `parse` where `interpret` expects a list.
- The statement loop after `raise` in `parse` (peri_interpreter.py:86-98) can never be reached. `parse_expression`, which it calls, is not defined anywhere.
- The debug prints in the lexer's error branch (peri_interpreter.py:46-47) are not modelled. That branch is proved unreachable.
- The regular-expression engine is not modelled. Each pattern of the table is a hand-written prefix matcher.
- The character classes `\d` and `\w` are modelled on ASCII only. Python also matches Unicode digits and letters.
- Numerals.IntOf: surrounding whitespace, `_` separators between digits and non-ASCII decimal digits (such as Arabic-Indic digits), which Python's `int()` also accepts, are not modelled; such a string gives None here where Python gives a value. The modelled lexer, whose `\d` is ASCII-only, never produces them. CPython's limit on decimal conversion is not modelled either. Since 3.11 (and 3.10.7, 3.9.14, 3.8.14), `int()` raises ValueError on a decimal string of more than 4300 digits by default. The limit is changed with `sys.set_int_max_str_digits`. The model's `int()` has no bound.
- Numerals.IntToString: under the same CPython limit, `str()` of an int with more than 4300 decimal digits raises ValueError. The model renders every int.
- Evaluator.Show: printing an int with more than 4300 decimal digits (peri_interpreter.py:126) raises ValueError in CPython under that limit. The model prints every int, so such a print succeeds here.
- Parser.ParseOfLexedNeverValueError: this holds of the model's `int()`, which has no digit limit. In CPython, `parse` raises ValueError on a NUMBER lexeme of more than 4300 digits.
- Evaluator.Repeat: CPython raises OverflowError for `str * int` when the count does not fit in an index-sized integer (beyond `sys.maxsize` in absolute value) or the result would be longer than `sys.maxsize` characters; the model has no such bound and returns the repeated string for every count.
- True division: `/` on two ints yields a float in Python. Floats are not modelled, so a non-zero divisor gives the `TrueDivision` failure instead of a value.
- Operators on floats are not modelled, because floats are not: the only float the source can make is the result of `/`, which is left out as stated above.
- The `RuntimeError` for an unknown node type (peri_interpreter.py:129-130) cannot arise. `Node` is a closed datatype.
- Python's recursion limit on deeply nested nodes is not modelled.
- Output is kept as a sequence of printed lines. A printed string that contains a newline counts as one entry.
- `if`/`while` statements, blocks, semicolon-terminated statements, operator precedence, variable lookup and a separate lexical error type are not part of this model. The source never builds or evaluates them.
