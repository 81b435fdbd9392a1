/**
 * parse (peri_interpreter.py:76-84): the reachable part reads one token from
 * the front of the token list, removing it in place with pop(0).  The rest
 * of the function body (lines 86-98) cannot be reached and is not modelled.
 */
module Parser {
  import opened Wrappers
  import opened Numerals
  import opened Lexer
  import opened Ast

  /** The exceptions parse can raise. */
  datatype ParseError =
    | IndexError   // tokens[0] on an empty list
    | ValueError   // int() of a NUMBER lexeme that is not a numeral
    | SyntaxError  // "Invalid expression": the head is not NUMBER, IDENTIFIER or STRING

  /** The Python list that lex returns and parse mutates. */
  class TokenList {
    var items: seq<Token>

    constructor (items: seq<Token>)
      ensures this.items == items
    {
      this.items := items;
    }

    /** list.pop(0): remove and return the first element. */
    method PopFront() returns (t: Token)
      requires items != []
      modifies this
      ensures t == old(items)[0] && items == old(items)[1..]
    {
      t := items[0];
      items := items[1..];
    }
  }

  /** s[1:-1]: the string without its first and last character ("" when shorter than 2). */
  function StripQuotes(s: string): (r: string)
    ensures |s| < 2 ==> r == []
    ensures |s| >= 2 ==> |r| == |s| - 2 && forall i :: 0 <= i < |r| ==> r[i] == s[i + 1]
  {
    if |s| >= 2 then s[1..|s| - 1] else []
  }

  /** The kinds parse accepts at the head of the list. */
  predicate IsPrimaryKind(k: Kind) {
    k == NUMBER || k == IDENTIFIER || k == STRING
  }

  /**
   * parse(tokens), as a value: the node (or error) and the list afterwards.
   * At most the head is removed; the errors raised before a pop leave the
   * list as it was, and int() fails only after its pop.
   */
  function ParseHead(ts: seq<Token>): (r: (Result<Node, ParseError>, seq<Token>))
    ensures r.1 == ts || (ts != [] && r.1 == ts[1..])
    ensures r.0.Success? ==> ts != [] && r.1 == ts[1..]
    ensures r.0.Success? <==>
      ts != [] && IsPrimaryKind(ts[0].kind) && (ts[0].kind == NUMBER ==> IntOf(ts[0].lexeme).Some?)
    ensures r.0 == Failure(IndexError) <==> ts == []
    ensures r.0 == Failure(SyntaxError) <==> ts != [] && !IsPrimaryKind(ts[0].kind)
    ensures r.0 == Failure(SyntaxError) ==> r.1 == ts
    ensures r.0 == Failure(ValueError) ==> ts != [] && r.1 == ts[1..]
    ensures r.0 == Failure(ValueError) <==>
      ts != [] && ts[0].kind == NUMBER && IntOf(ts[0].lexeme).None?
    ensures ts != [] && ts[0].kind == NUMBER && IntOf(ts[0].lexeme).Some? ==>
      r.0 == Success(Number(IntOf(ts[0].lexeme).value))
    ensures ts != [] && ts[0].kind == NUMBER && ts[0].lexeme != [] && AllDigits(ts[0].lexeme) ==>
      r.0 == Success(Number(DigitsValue(ts[0].lexeme)))
    ensures ts != [] && ts[0].kind == IDENTIFIER ==> r.0 == Success(Str(ts[0].lexeme))
    ensures ts != [] && ts[0].kind == STRING ==> r.0 == Success(Str(StripQuotes(ts[0].lexeme)))
  {
    if ts == [] then (Failure(IndexError), ts)
    else
      var head := ts[0];
      if head.kind == NUMBER then
        (match IntOf(head.lexeme)
         case Some(v) => Success(Number(v))
         case None => Failure(ValueError), ts[1..])
      else if head.kind == IDENTIFIER then (Success(Str(head.lexeme)), ts[1..])
      else if head.kind == STRING then (Success(Str(StripQuotes(head.lexeme))), ts[1..])
      else (Failure(SyntaxError), ts)
  }

  /** parse: look at tokens[0], pop it for the three accepted kinds, raise otherwise. */
  method Parse(tokens: TokenList) returns (r: Result<Node, ParseError>)
    modifies tokens
    ensures (r, tokens.items) == ParseHead(old(tokens.items))
  {
    if tokens.items == [] {
      return Failure(IndexError);
    }
    var kind := tokens.items[0].kind;
    if kind == NUMBER {
      var t := tokens.PopFront();
      var v := IntOf(t.lexeme);
      r := if v.Some? then Success(Number(v.value)) else Failure(ValueError);
    } else if kind == IDENTIFIER {
      var t := tokens.PopFront();
      r := Success(Str(t.lexeme));
    } else if kind == STRING {
      var t := tokens.PopFront();
      r := Success(Str(StripQuotes(t.lexeme)));
    } else {
      r := Failure(SyntaxError);
    }
  }

  // ---------------------------------------------------------------------
  // Round trips: what parse makes of a numeral, a name and a literal
  // ---------------------------------------------------------------------

  /** A NUMBER token holding the digits of n parses back to Number(n). */
  lemma ParseNumeral(n: nat, rest: seq<Token>)
    ensures ParseHead([Token(NUMBER, Digits(n))] + rest) == (Success(Number(n)), rest)
  {
    DigitsRoundTrip(n);
    assert ([Token(NUMBER, Digits(n))] + rest)[1..] == rest;
  }

  /** A STRING token holding a quoted text parses back to that text. */
  lemma ParseStringLiteral(text: string, rest: seq<Token>)
    ensures ParseHead([Token(STRING, "\"" + text + "\"")] + rest) == (Success(Str(text)), rest)
  {
    var w := "\"" + text + "\"";
    assert w[1..|w| - 1] == text;
    assert ([Token(STRING, w)] + rest)[1..] == rest;
  }

  /** lex then parse on the digits of n gives Number(n) and leaves nothing. */
  lemma LexParseNumeral(n: nat)
    ensures Lexed(Digits(n)).Success?
    ensures ParseHead(Lexed(Digits(n)).value) == (Success(Number(n)), [])
  {
    DigitRunLexesAsOneNumber(Digits(n));
    ParseNumeral(n, []);
    assert [Token(NUMBER, Digits(n))] + [] == [Token(NUMBER, Digits(n))];
  }

  /** lex then parse on a word gives the bare name, keywords included. */
  lemma LexParseWord(w: string)
    requires IsIdentifier(w)
    ensures Lexed(w).Success?
    ensures ParseHead(Lexed(w).value) == (Success(Str(w)), [])
  {
    WordLexesAsIdentifier(w);
    var ts := [Token(IDENTIFIER, w)];
    assert Lexed(w).value == ts;
    assert ParseHead(ts) == (Success(Str(w)), ts[1..]);
  }

  /** lex then parse on a quoted text gives the text without its quotes. */
  lemma LexParseStringLiteral(text: string)
    requires forall i :: 0 <= i < |text| ==> text[i] != '"'
    ensures Lexed("\"" + text + "\"").Success?
    ensures ParseHead(Lexed("\"" + text + "\"").value) == (Success(Str(text)), [])
  {
    var w := "\"" + text + "\"";
    assert forall i :: 0 < i < |w| - 1 ==> w[i] == text[i - 1];
    StringLiteralIsOneToken(w);
    ParseStringLiteral(text, []);
    assert [Token(STRING, w)] + [] == [Token(STRING, w)];
  }

  /**
   * On what lex produces, the model's int(), which has no limit on the
   * number of digits, never fails: every NUMBER lexeme is a numeral, so
   * parse raises only IndexError or SyntaxError.
   */
  lemma ParseOfLexedNeverValueError(code: string)
    ensures Lexed(code).Success?
    ensures ParseHead(Lexed(code).value).0 != Failure(ValueError)
  {
    TokensWellShaped(code);
    var ts := Lexed(code).value;
    if ts != [] {
      assert Shaped(ts[0]);
    }
  }
}
