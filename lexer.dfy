/**
 * The lexer of peri_interpreter.py:10-49: an ordered first-match tokenizer.
 * At each position the patterns of the TOKENS table are tried in table
 * order, the first one that matches wins, whitespace (SKIP) matches are
 * dropped and the matched prefix is consumed.  Each regular expression of
 * the table is replaced by a hand-written prefix matcher (Match) that gives
 * the length of the match.
 */
module Lexer {
  import opened Wrappers
  import opened Numerals

  /** The token types of the TOKENS table, named as the table names them. */
  datatype Kind =
    | NUMBER | IDENTIFIER | ASSIGN | PLUS | MINUS | MULTIPLY | DIVIDE
    | LPAREN | RPAREN | LBRACE | RBRACE | IF | WHILE | PRINT
    | STRING | SEMICOLON | SKIP | MISMATCH

  /** A (type, value) pair appended to the token list. */
  datatype Token = Token(kind: Kind, lexeme: string)

  /** The SyntaxError of the for-else branch, with the code that was left. */
  datatype LexError = UnexpectedCharacter(remaining: string)

  /** The TOKENS table in its order; each kind stands for its pattern, see Match. */
  const Patterns: seq<Kind> :=
    [NUMBER, IDENTIFIER, ASSIGN, PLUS, MINUS, MULTIPLY, DIVIDE,
     LPAREN, RPAREN, LBRACE, RBRACE, IF, WHILE, PRINT,
     STRING, SEMICOLON, SKIP, MISMATCH]

  // ---------------------------------------------------------------------
  // Character classes of the patterns (ASCII only, see README)
  // ---------------------------------------------------------------------

  /** [a-zA-Z_] */
  predicate IsIdentStart(c: char) {
    'a' <= c <= 'z' || 'A' <= c <= 'Z' || c == '_'
  }

  /** \w */
  predicate IsWordChar(c: char) {
    IsIdentStart(c) || IsDigit(c)
  }

  /** [ \t\n] */
  predicate IsSkipChar(c: char) {
    c == ' ' || c == '\t' || c == '\n'
  }

  /** The repeated classes of the table: \d in \d+ and \w in \w*. */
  datatype CharClass = Digit | Word

  predicate InClass(cls: CharClass, c: char) {
    match cls
    case Digit => IsDigit(c)
    case Word => IsWordChar(c)
  }

  /** Length of the longest prefix of s whose characters are all in cls. */
  function RunLength(cls: CharClass, s: string): (n: nat)
    ensures n <= |s|
    ensures forall i :: 0 <= i < n ==> InClass(cls, s[i])
    ensures n < |s| ==> !InClass(cls, s[n])
  {
    if s != [] && InClass(cls, s[0]) then 1 + RunLength(cls, s[1..]) else 0
  }

  /** Index of the first '"' in s at or after position from. */
  function QuoteIndex(s: string, from: nat): (r: Option<nat>)
    requires from <= |s|
    ensures r.Some? ==> from <= r.value < |s| && s[r.value] == '"'
    ensures r.Some? ==> forall i :: from <= i < r.value ==> s[i] != '"'
    ensures r.None? ==> forall i :: from <= i < |s| ==> s[i] != '"'
    decreases |s| - from
  {
    if from == |s| then None
    else if s[from] == '"' then Some(from)
    else QuoteIndex(s, from + 1)
  }

  /** The first quote at or after from is the one QuoteIndex finds. */
  lemma QuoteIndexIs(s: string, from: nat, j: nat)
    requires from <= j < |s| && s[j] == '"'
    requires forall i :: from <= i < j ==> s[i] != '"'
    ensures QuoteIndex(s, from) == Some(j)
  {
  }

  /** Match of a fixed word (an operator, a brace or a keyword). */
  function Literal(w: string, s: string): Option<nat> {
    if |w| <= |s| && s[..|w|] == w then Some(|w|) else None
  }

  /**
   * regex.match(code) for the pattern of kind k: the length of the match at
   * the start of s, or None when the pattern does not match there.
   */
  function Match(k: Kind, s: string): (m: Option<nat>)
    ensures m.Some? ==> 0 < m.value <= |s|
  {
    if s == [] then None
    else match k
      case NUMBER => if IsDigit(s[0]) then Some(RunLength(Digit, s)) else None
      case IDENTIFIER => if IsIdentStart(s[0]) then Some(1 + RunLength(Word, s[1..])) else None
      case ASSIGN => Literal("=", s)
      case PLUS => Literal("+", s)
      case MINUS => Literal("-", s)
      case MULTIPLY => Literal("*", s)
      case DIVIDE => Literal("/", s)
      case LPAREN => Literal("(", s)
      case RPAREN => Literal(")", s)
      case LBRACE => Literal("{", s)
      case RBRACE => Literal("}", s)
      case IF => Literal("if", s)
      case WHILE => Literal("while", s)
      case PRINT => Literal("print", s)
      case STRING =>
        if s[0] == '"' then
          match QuoteIndex(s, 1)
          case Some(j) => Some(j + 1)
          case None => None
        else None
      case SEMICOLON => Literal(";", s)
      case SKIP => if IsSkipChar(s[0]) then Some(1) else None
      case MISMATCH => if s[0] != '\n' then Some(1) else None
  }

  /** The first pattern at index i or later of the table that matches code, with its length. */
  function FirstMatchFrom(code: string, i: nat): (r: Option<(Kind, nat)>)
    requires i <= |Patterns|
    ensures r.Some? ==> Match(r.value.0, code) == Some(r.value.1)
    ensures r.Some? ==> 0 < r.value.1 <= |code|
    ensures r.None? ==> forall p :: i <= p < |Patterns| ==> Match(Patterns[p], code).None?
    decreases |Patterns| - i
  {
    if i == |Patterns| then None
    else match Match(Patterns[i], code)
      case Some(n) => Some((Patterns[i], n))
      case None => FirstMatchFrom(code, i + 1)
  }

  /** The pattern FirstMatchFrom finds sits at some position p, and no pattern before p matches. */
  lemma {:induction false} FirstMatchFromIsFirst(code: string, i: nat)
    requires i <= |Patterns|
    requires FirstMatchFrom(code, i).Some?
    ensures exists p :: (i <= p < |Patterns| && Patterns[p] == FirstMatchFrom(code, i).value.0 &&
      forall q :: i <= q < p ==> Match(Patterns[q], code).None?)
    decreases |Patterns| - i
  {
    if Match(Patterns[i], code).Some? {
      assert Patterns[i] == FirstMatchFrom(code, i).value.0;
    } else {
      FirstMatchFromIsFirst(code, i + 1);
      var p :| i + 1 <= p < |Patterns| && Patterns[p] == FirstMatchFrom(code, i + 1).value.0
        && (forall q :: i + 1 <= q < p ==> Match(Patterns[q], code).None?);
      assert forall q :: i <= q < p ==> Match(Patterns[q], code).None?;
    }
  }

  /** The for loop of lex: the first pattern of the whole table that matches. */
  function FirstMatch(code: string): Option<(Kind, nat)> {
    FirstMatchFrom(code, 0)
  }

  /** lex(code), as a value: the token list, or the SyntaxError it raises. */
  function Lexed(code: string): (r: Result<seq<Token>, LexError>)
    ensures r.Success? ==> |r.value| <= |code|
    ensures r.Success? ==> forall t :: t in r.value ==> t.lexeme != [] && t.kind != SKIP
    ensures r.Failure? ==> (0 < |r.error.remaining| <= |code| &&
      r.error.remaining == code[|code| - |r.error.remaining|..])
    decreases |code|
  {
    if code == [] then Success([])
    else match FirstMatch(code)
      case None => Failure(UnexpectedCharacter(code))
      case Some((k, n)) =>
        var rest := Lexed(code[n..]);
        if rest.Failure? then rest
        else Success((if k == SKIP then [] else [Token(k, code[..n])]) + rest.value)
  }

  /**
   * lex: the `while code` loop over shrinking suffixes, and within it the
   * for loop over the table.  The for-else branch that raises SyntaxError
   * is proved unreachable, so the result is always a token list.
   */
  method Lex(code: string) returns (tokens: seq<Token>)
    ensures Lexed(code) == Success(tokens)
  {
    var rest := code;
    tokens := [];
    LexNeverFails(rest);
    assert tokens + Lexed(rest).value == Lexed(rest).value;
    while rest != []
      invariant Lexed(rest).Success?
      invariant Lexed(code) == Success(tokens + Lexed(rest).value)
      decreases |rest|
    {
      SomePatternMatches(rest);
      ghost var old_tokens := tokens;
      var found, kind, len := TryPatterns(rest);
      if !found {
        // the SyntaxError raised when no pattern matches
        assert false;
      }
      LexedStep(rest);
      ghost var kept := if kind == SKIP then [] else [Token(kind, rest[..len])];
      ghost var later := Lexed(rest[len..]).value;
      assert Lexed(rest).value == kept + later;
      if kind != SKIP {
        tokens := tokens + [Token(kind, rest[..len])];
        assert tokens + later == old_tokens + (kept + later);
      } else {
        assert kept + later == later;
      }
      rest := rest[len..];
    }
    assert tokens + Lexed(rest).value == tokens;
  }

  /**
   * The for loop of lex: try the patterns in table order and stop at the
   * first that matches.
   */
  method TryPatterns(code: string) returns (found: bool, kind: Kind, len: nat)
    ensures found <==> FirstMatch(code).Some?
    ensures found ==> FirstMatch(code) == Some((kind, len))
  {
    var i := 0;
    found, kind, len := false, MISMATCH, 0;
    while i < |Patterns| && !found
      invariant 0 <= i <= |Patterns|
      invariant !found ==> FirstMatchFrom(code, i) == FirstMatch(code)
      invariant found ==> FirstMatch(code) == Some((kind, len))
    {
      var m := Match(Patterns[i], code);
      if m.Some? {
        kind, len, found := Patterns[i], m.value, true;
      }
      i := i + 1;
    }
  }

  /**
   * One iteration of lex: the first match is consumed and the rest lexed.
   * This is the step as the loop of Lex sees it, through the ordered search
   * of the table; LexedByClassify restates it through the first-character
   * dispatch, which is the form the lemmas about token shapes and lexemes
   * unfold.
   */
  lemma LexedStep(code: string)
    requires code != [] && FirstMatch(code).Some?
    ensures Lexed(code[FirstMatch(code).value.1..]).Success?
    ensures var (k, n) := FirstMatch(code).value;
      Lexed(code).value == (if k == SKIP then [] else [Token(k, code[..n])]) + Lexed(code[n..]).value
  {
    LexNeverFails(code[FirstMatch(code).value.1..]);
  }

  // ---------------------------------------------------------------------
  // First match in table order, stated as a dispatch on the first character
  // ---------------------------------------------------------------------

  /** The single-character operators of the table, in table order. */
  function OperatorKind(c: char): Option<Kind> {
    if c == '=' then Some(ASSIGN)
    else if c == '+' then Some(PLUS)
    else if c == '-' then Some(MINUS)
    else if c == '*' then Some(MULTIPLY)
    else if c == '/' then Some(DIVIDE)
    else if c == '(' then Some(LPAREN)
    else if c == ')' then Some(RPAREN)
    else if c == '{' then Some(LBRACE)
    else if c == '}' then Some(RBRACE)
    else if c == ';' then Some(SEMICOLON)
    else None
  }

  /**
   * Which token the first character of code starts, and how long it is:
   * the reference that the ordered first-match of the table is proved to
   * agree with (FirstMatchIsClassify).
   */
  function Classify(code: string): (r: (Kind, nat))
    requires code != []
    ensures 0 < r.1 <= |code|
  {
    var c := code[0];
    if IsDigit(c) then (NUMBER, RunLength(Digit, code))
    else if IsIdentStart(c) then (IDENTIFIER, 1 + RunLength(Word, code[1..]))
    else if OperatorKind(c).Some? then (OperatorKind(c).value, 1)
    else if c == '"' && QuoteIndex(code, 1).Some? then (STRING, QuoteIndex(code, 1).value + 1)
    else if IsSkipChar(c) then (SKIP, 1)
    else (MISMATCH, 1)
  }

  /** Position of a kind in the table. */
  function Rank(k: Kind): nat {
    match k
    case NUMBER => 0
    case IDENTIFIER => 1
    case ASSIGN => 2
    case PLUS => 3
    case MINUS => 4
    case MULTIPLY => 5
    case DIVIDE => 6
    case LPAREN => 7
    case RPAREN => 8
    case LBRACE => 9
    case RBRACE => 10
    case IF => 11
    case WHILE => 12
    case PRINT => 13
    case STRING => 14
    case SEMICOLON => 15
    case SKIP => 16
    case MISMATCH => 17
  }

  lemma PatternsRanked()
    ensures |Patterns| == 18
    ensures forall p :: 0 <= p < |Patterns| ==> Rank(Patterns[p]) == p
  {
  }

  /** No pattern placed before the classified one matches. */
  lemma NoEarlierMatch(k: Kind, code: string)
    requires code != []
    requires Rank(k) < Rank(Classify(code).0)
    ensures Match(k, code).None?
  {
  }

  /** The classified pattern does match, with the classified length. */
  lemma ClassifyMatches(code: string)
    requires code != []
    ensures Match(Classify(code).0, code) == Some(Classify(code).1)
  {
    var c := code[0];
    if IsDigit(c) || IsIdentStart(c) {
    } else if OperatorKind(c).Some? {
      assert code[..1] == [c];
    } else if c == '"' && QuoteIndex(code, 1).Some? {
    } else {
    }
  }

  lemma {:induction false} FirstMatchFromSkips(code: string, i: nat, j: nat)
    requires i <= j <= |Patterns|
    requires forall p :: i <= p < j ==> Match(Patterns[p], code).None?
    ensures FirstMatchFrom(code, i) == FirstMatchFrom(code, j)
    decreases j - i
  {
    if i < j {
      FirstMatchFromSkips(code, i + 1, j);
    }
  }

  /**
   * The ordered first-match of the table is the dispatch on the first
   * character: IDENTIFIER, placed before IF, WHILE and PRINT, takes every
   * word; SKIP and MISMATCH together take every other character, so some
   * pattern always matches.
   */
  lemma FirstMatchIsClassify(code: string)
    requires code != []
    ensures FirstMatch(code) == Some(Classify(code))
  {
    var k := Classify(code).0;
    PatternsRanked();
    forall p | 0 <= p < Rank(k)
      ensures Match(Patterns[p], code).None?
    {
      NoEarlierMatch(Patterns[p], code);
    }
    FirstMatchFromSkips(code, 0, Rank(k));
    assert Patterns[Rank(k)] == k;
    ClassifyMatches(code);
  }

  /** Some pattern of the table matches every non-empty code. */
  lemma SomePatternMatches(code: string)
    requires code != []
    ensures FirstMatch(code).Some?
  {
    FirstMatchIsClassify(code);
  }

  /** lex never raises: the for-else branch of peri_interpreter.py:44-48 is dead. */
  lemma {:induction false} LexNeverFails(code: string)
    ensures Lexed(code).Success?
    decreases |code|
  {
    if code != [] {
      FirstMatchIsClassify(code);
      LexNeverFails(code[Classify(code).1..]);
    }
  }

  /** The token kept for the match at the start of code: none for a SKIP match. */
  function Leading(code: string): seq<Token>
    requires code != []
  {
    var (k, n) := Classify(code);
    if k == SKIP then [] else [Token(k, code[..n])]
  }

  /** lex(code), one match at a time. */
  lemma LexedByClassify(code: string)
    requires code != []
    ensures Lexed(code[Classify(code).1..]).Success?
    ensures Lexed(code) == Success(Leading(code) + Lexed(code[Classify(code).1..]).value)
  {
    FirstMatchIsClassify(code);
    LexNeverFails(code[Classify(code).1..]);
  }

  // ---------------------------------------------------------------------
  // Shapes of the tokens lex produces
  // ---------------------------------------------------------------------

  /** [a-zA-Z_]\w* matched in full. */
  predicate IsIdentifier(w: string) {
    |w| > 0 && IsIdentStart(w[0]) && forall i :: 1 <= i < |w| ==> IsWordChar(w[i])
  }

  /** "[^"]*" matched in full. */
  predicate IsStringLiteral(w: string) {
    |w| >= 2 && w[0] == '"' && w[|w| - 1] == '"' && forall i :: 0 < i < |w| - 1 ==> w[i] != '"'
  }

  /** A character that only the catch-all pattern takes. */
  predicate IsStray(c: char) {
    !IsDigit(c) && !IsIdentStart(c) && OperatorKind(c).None? && !IsSkipChar(c)
  }

  /** What a token of each kind looks like; IF, WHILE, PRINT and SKIP tokens are never kept. */
  predicate Shaped(t: Token) {
    match t.kind
    case NUMBER => t.lexeme != [] && AllDigits(t.lexeme)
    case IDENTIFIER => IsIdentifier(t.lexeme)
    case STRING => IsStringLiteral(t.lexeme)
    case MISMATCH => |t.lexeme| == 1 && IsStray(t.lexeme[0])
    case IF => false
    case WHILE => false
    case PRINT => false
    case SKIP => false
    case _ => |t.lexeme| == 1 && OperatorKind(t.lexeme[0]) == Some(t.kind)
  }

  lemma ClassifiedTokenShaped(code: string)
    requires code != [] && Classify(code).0 != SKIP
    ensures Shaped(Token(Classify(code).0, code[..Classify(code).1]))
  {
    var c := code[0];
    if IsDigit(c) {
    } else if IsIdentStart(c) {
      var w := code[..Classify(code).1];
      forall i | 1 <= i < |w| ensures IsWordChar(w[i]) {
        assert w[i] == code[1..][i - 1];
      }
    } else if OperatorKind(c).Some? {
    } else if c == '"' && QuoteIndex(code, 1).Some? {
    } else {
    }
  }

  /** Every token of lex(code) has the shape of its kind. */
  lemma {:induction false} TokensWellShaped(code: string)
    ensures Lexed(code).Success?
    ensures forall t :: t in Lexed(code).value ==> Shaped(t)
    decreases |code|
  {
    LexNeverFails(code);
    if code != [] {
      LexedByClassify(code);
      var (k, n) := Classify(code);
      TokensWellShaped(code[n..]);
      if k != SKIP {
        ClassifiedTokenShaped(code);
      }
    }
  }

  /**
   * First match in table order: IDENTIFIER precedes IF, WHILE and PRINT and
   * SKIP matches are dropped, so none of these four kinds is ever produced.
   */
  lemma NoKeywordOrSkipTokens(code: string)
    ensures Lexed(code).Success?
    ensures forall t :: t in Lexed(code).value ==> t.kind != IF && t.kind != WHILE && t.kind != PRINT && t.kind != SKIP
  {
    TokensWellShaped(code);
  }

  /** A whole word, keyword or not, lexes as exactly one IDENTIFIER token. */
  lemma WordLexesAsIdentifier(w: string)
    requires IsIdentifier(w)
    ensures Lexed(w) == Success([Token(IDENTIFIER, w)])
  {
    assert forall i :: 0 <= i < |w| - 1 ==> InClass(Word, w[1..][i]);
    assert RunLength(Word, w[1..]) == |w| - 1;
    assert Classify(w) == (IDENTIFIER, |w|);
    LexedByClassify(w);
    assert w[|w|..] == [];
    assert Lexed(w[|w|..]) == Success([]);
    assert w[..|w|] == w;
    assert Leading(w) == [Token(IDENTIFIER, w)];
    assert Leading(w) + [] == Leading(w);
  }

  /** if, while and print are identifiers to this lexer, never IF, WHILE or PRINT tokens. */
  lemma KeywordsLexAsIdentifiers(w: string)
    requires w == "if" || w == "while" || w == "print"
    ensures Lexed(w) == Success([Token(IDENTIFIER, w)])
  {
    assert IsIdentifier(w);
    WordLexesAsIdentifier(w);
  }

  /** \d+ is maximal: a run of digits lexes as exactly one NUMBER token. */
  lemma DigitRunLexesAsOneNumber(s: string)
    requires s != [] && AllDigits(s)
    ensures Lexed(s) == Success([Token(NUMBER, s)])
  {
    assert forall i :: 0 <= i < |s| ==> InClass(Digit, s[i]);
    assert RunLength(Digit, s) == |s|;
    assert Classify(s) == (NUMBER, |s|);
    LexedByClassify(s);
    assert s[|s|..] == [];
    assert Lexed(s[|s|..]) == Success([]);
    assert s[..|s|] == s;
    assert Leading(s) == [Token(NUMBER, s)];
    assert Leading(s) + [] == Leading(s);
  }

  /** A '"' without a closing quote is a one-character MISMATCH token. */
  lemma UnterminatedQuoteIsMismatch(code: string)
    requires code != [] && code[0] == '"'
    requires forall i :: 1 <= i < |code| ==> code[i] != '"'
    ensures Lexed(code).Success? && Lexed(code[1..]).Success?
    ensures Lexed(code).value == [Token(MISMATCH, "\"")] + Lexed(code[1..]).value
  {
    assert QuoteIndex(code, 1).None?;
    assert Classify(code) == (MISMATCH, 1);
    LexedByClassify(code);
    assert code[..1] == "\"";
  }

  // ---------------------------------------------------------------------
  // What the lexemes add up to
  // ---------------------------------------------------------------------

  function Lexemes(ts: seq<Token>): string {
    if ts == [] then [] else ts[0].lexeme + Lexemes(ts[1..])
  }

  /**
   * code without the blanks (space, tab, newline) that lie outside complete
   * string literals: a '"' with a later '"' keeps everything up to that
   * quote, any other character is kept unless it is a blank.
   */
  function Significant(code: string): string
    decreases |code|
  {
    if code == [] then []
    else if code[0] == '"' && QuoteIndex(code, 1).Some? then
      var j := QuoteIndex(code, 1).value;
      code[..j + 1] + Significant(code[j + 1..])
    else if IsSkipChar(code[0]) then Significant(code[1..])
    else [code[0]] + Significant(code[1..])
  }

  /** code with every blank removed. */
  function WithoutBlanks(code: string): string {
    if code == [] then []
    else (if IsSkipChar(code[0]) then [] else [code[0]]) + WithoutBlanks(code[1..])
  }

  lemma {:induction false} SignificantPrefix(code: string, n: nat)
    requires n <= |code|
    requires forall i :: 0 <= i < n ==> !IsSkipChar(code[i]) && code[i] != '"'
    ensures Significant(code) == code[..n] + Significant(code[n..])
    decreases n
  {
    if n > 0 {
      SignificantPrefix(code[1..], n - 1);
      assert code[1..][n - 1..] == code[n..];
      assert code[..n] == [code[0]] + code[1..][..n - 1];
    }
  }

  /** The token the first character starts contains no blank and no quote. */
  lemma PlainTokenChars(code: string)
    requires code != []
    requires Classify(code).0 != SKIP && Classify(code).0 != STRING
    requires code[0] != '"'
    ensures forall i :: 0 <= i < Classify(code).1 ==> !IsSkipChar(code[i]) && code[i] != '"'
  {
    if !IsDigit(code[0]) && IsIdentStart(code[0]) {
      forall i | 1 <= i < Classify(code).1
        ensures IsWordChar(code[i])
      {
        assert code[i] == code[1..][i - 1];
      }
    }
  }

  /** The text of the match at the start of code that lex keeps: none for a SKIP match. */
  function LeadingText(code: string): string
    requires code != []
  {
    var (k, n) := Classify(code);
    if k == SKIP then [] else code[..n]
  }

  lemma LeadingLexemes(code: string, rest: seq<Token>)
    requires code != []
    ensures Lexemes(Leading(code) + rest) == LeadingText(code) + Lexemes(rest)
  {
    if Classify(code).0 == SKIP {
      assert Leading(code) + rest == rest;
    } else {
      var ts := Leading(code) + rest;
      assert ts[1..] == rest;
    }
  }

  /** Significant, one match at a time. */
  lemma SignificantStep(code: string)
    requires code != []
    ensures Significant(code) == LeadingText(code) + Significant(code[Classify(code).1..])
  {
    var k := Classify(code).0;
    if k == STRING {
      SignificantStepString(code);
    } else if k == SKIP {
      SignificantStepBlank(code);
    } else if code[0] == '"' {
      SignificantStepStrayQuote(code);
    } else {
      SignificantStepPlain(code);
    }
  }

  lemma SignificantStepPlain(code: string)
    requires code != [] && code[0] != '"'
    requires Classify(code).0 != STRING && Classify(code).0 != SKIP
    ensures Significant(code) == LeadingText(code) + Significant(code[Classify(code).1..])
  {
    var n := Classify(code).1;
    PlainTokenChars(code);
    SignificantPrefix(code, n);
    assert LeadingText(code) == code[..n];
  }

  lemma SignificantStepString(code: string)
    requires code != [] && Classify(code).0 == STRING
    ensures Significant(code) == LeadingText(code) + Significant(code[Classify(code).1..])
  {
  }

  lemma SignificantStepBlank(code: string)
    requires code != [] && Classify(code).0 == SKIP
    ensures Significant(code) == LeadingText(code) + Significant(code[Classify(code).1..])
  {
  }

  lemma SignificantStepStrayQuote(code: string)
    requires code != [] && code[0] == '"' && Classify(code).0 != STRING
    ensures Significant(code) == LeadingText(code) + Significant(code[Classify(code).1..])
  {
    assert QuoteIndex(code, 1).None?;
    assert OperatorKind(code[0]).None?;
    assert Classify(code) == (MISMATCH, 1);
    assert LeadingText(code) == code[..1];
    assert code[..1] == [code[0]];
    assert Significant(code) == [code[0]] + Significant(code[1..]);
  }

  /**
   * Only SKIP matches are dropped and each kept token carries its whole
   * match, so the lexemes of lex(code), concatenated, give back code minus
   * the blanks outside string literals.
   */
  lemma {:induction false} LexemesAreSignificant(code: string)
    ensures Lexed(code).Success?
    ensures Lexemes(Lexed(code).value) == Significant(code)
    decreases |code|
  {
    LexNeverFails(code);
    if code != [] {
      LexedByClassify(code);
      var n := Classify(code).1;
      LexemesAreSignificant(code[n..]);
      LeadingLexemes(code, Lexed(code[n..]).value);
      SignificantStep(code);
    }
  }

  lemma {:induction false} SignificantWithoutQuotes(code: string)
    requires forall i :: 0 <= i < |code| ==> code[i] != '"'
    ensures Significant(code) == WithoutBlanks(code)
    decreases |code|
  {
    if code != [] {
      SignificantWithoutQuotes(code[1..]);
    }
  }

  /** With no string literal in the code, the lexemes are the code minus every blank. */
  lemma QuoteFreeLexemesDropBlanks(code: string)
    requires forall i :: 0 <= i < |code| ==> code[i] != '"'
    ensures Lexed(code).Success?
    ensures Lexemes(Lexed(code).value) == WithoutBlanks(code)
  {
    LexemesAreSignificant(code);
    SignificantWithoutQuotes(code);
  }

  /**
   * A complete string literal lexes as one STRING token, blanks inside it
   * included: the lexemes drop only the blanks outside literals.
   */
  lemma StringLiteralIsOneToken(code: string)
    requires IsStringLiteral(code)
    ensures Lexed(code) == Success([Token(STRING, code)])
  {
    QuoteIndexIs(code, 1, |code| - 1);
    assert Classify(code) == (STRING, |code|);
    LexedByClassify(code);
    assert code[|code|..] == [];
    assert Lexed(code[|code|..]) == Success([]);
    assert code[..|code|] == code;
    assert Leading(code) == [Token(STRING, code)];
    assert Leading(code) + [] == Leading(code);
  }
}
