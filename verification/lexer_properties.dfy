/**
 * Properties of the scanner: what each kind of token reads back to, how the line and
 * column bookkeeping relates to the text, and a few concrete behaviours of the C scanner
 * at its edges.
 */
module LexerProperties {
  import opened Tokens
  import opened Scanner
  import opened CharClasses
  import opened Wrappers

  // ---------------------------------------------------------------------------
  // Position bookkeeping
  // ---------------------------------------------------------------------------

  /**
   * Every token get_next_token returns stands at the line and column of its first
   * character (of the end of the text for the end-of-file token): the newlines before that
   * offset plus one, and its distance from the start of its line plus one.
   */
  lemma NextTokenPositionIsExact(lx: Lexer)
    requires Consistent(lx)
    ensures var start := SkipTrivia(lx);
      && NextToken(lx).0.line == LineOf(lx.source, start.pos)
      && NextToken(lx).0.column == ColumnOf(lx.source, start.pos)
  {
    NextTokenAfterTrivia(lx);
    PositionAtIsLineAndColumn(lx.source, SkipTrivia(lx).pos);
  }

  /** Skipping white space and comments a second time skips nothing. */
  lemma SkipTriviaIdempotent(lx: Lexer)
    requires WellFormed(lx)
    ensures SkipTrivia(SkipTrivia(lx)) == SkipTrivia(lx)
  {
    var r := SkipTrivia(lx);
    if r.pos < |r.source| {
      assert Current(r) == r.source[r.pos];
    }
  }

  /** At the first character of a token, get_next_token skips nothing and dispatches at once. */
  lemma NextTokenAtTokenStart(lx: Lexer)
    requires WellFormed(lx) && lx.pos < |lx.source|
    requires !IsSpace(lx.source[lx.pos]) && !AtCommentStart(lx)
    ensures NextToken(lx) == Scan(lx)
  {
  }

  // ---------------------------------------------------------------------------
  // Integer constants
  // ---------------------------------------------------------------------------

  function DigitChar(d: nat): (c: char)
    requires d < 10
    ensures IsDigit(c) && DigitValue(c) == d
  {
    ('0' as int + d) as char
  }

  /** The decimal numeral of n, without leading zeros. */
  function ShowNat(n: nat): string
    decreases n
  {
    if n < 10 then [DigitChar(n)] else ShowNat(n / 10) + [DigitChar(n % 10)]
  }

  /** A numeral is a non-empty digit string whose base-10 value is the number. */
  lemma {:induction false} ShowNatDigits(n: nat)
    ensures 1 <= |ShowNat(n)|
    ensures forall i :: 0 <= i < |ShowNat(n)| ==> IsDigit(ShowNat(n)[i])
    ensures DigitsValue(ShowNat(n), 10) == n
    decreases n
  {
    if n >= 10 {
      ShowNatDigits(n / 10);
      var s := ShowNat(n);
      assert s[..|s| - 1] == ShowNat(n / 10);
    }
  }

  /** The text w stands in s at offset p. */
  predicate TextAt(s: string, p: nat, w: string)
  {
    p + |w| <= |s| && s[p..p + |w|] == w
  }

  lemma TextAtChars(s: string, p: nat, w: string)
    requires TextAt(s, p, w)
    ensures forall k :: p <= k < p + |w| ==> s[k] == w[k - p]
  {
    forall k | p <= k < p + |w|
      ensures s[k] == w[k - p]
    {
      assert s[p..p + |w|][k - p] == s[k];
    }
  }

  /**
   * Offset e cannot continue a decimal integer: it is the end of the text, or a character
   * that is neither a digit nor an exponent marker, and not a dot followed by a digit.
   */
  predicate EndsDecimalInteger(s: string, e: nat)
  {
    e == |s|
    || (e < |s| && !IsDigit(s[e]) && s[e] != 'e' && s[e] != 'E'
        && !(s[e] == '.' && e + 1 < |s| && IsDigit(s[e + 1])))
  }

  /**
   * A run of decimal digits that cannot continue it is
   * read as one integer constant holding the run's base-10 value.
   */
  lemma ReadDecimalInteger(lx: Lexer, e: nat)
    requires WellFormed(lx) && lx.pos <= e <= |lx.source|
    requires forall k :: lx.pos <= k < e ==> IsDigit(lx.source[k])
    requires EndsDecimalInteger(lx.source, e)
    ensures ReadDecimalNumber(lx).1.pos == e
    ensures ReadDecimalNumber(lx).0
         == Token(IntConst, lx.source[lx.pos..e], lx.line, lx.column, IntValue(DigitsValue(lx.source[lx.pos..e], 10)))
  {
    var a := AdvanceWhile(lx, IsDigit);
    assert a.pos == e;
  }

  /**
   * The numeral of any n, followed by a character that cannot continue a number, is read by
   * read_number as one integer constant with the numeral as lexeme and n as value.
   */
  lemma ReadNumberRoundTrip(lx: Lexer, n: nat)
    requires WellFormed(lx) && TextAt(lx.source, lx.pos, ShowNat(n))
    requires var e := lx.pos + |ShowNat(n)|;
      e == |lx.source| || (!IsIdentChar(lx.source[e]) && lx.source[e] != '.')
    ensures ReadNumber(lx).0 == Token(IntConst, ShowNat(n), lx.line, lx.column, IntValue(n))
    ensures ReadNumber(lx).1.pos == lx.pos + |ShowNat(n)|
  {
    ShowNatDigits(n);
    ReadDigitsRoundTrip(lx, ShowNat(n));
  }

  /** A non-empty digit string followed by a character that cannot continue a number reads as its integer constant. */
  lemma ReadDigitsRoundTrip(lx: Lexer, d: string)
    requires WellFormed(lx) && TextAt(lx.source, lx.pos, d)
    requires 1 <= |d| && forall i :: 0 <= i < |d| ==> IsDigit(d[i])
    requires NumeralEndsAt(lx.source, lx.pos + |d|)
    ensures ReadNumber(lx).0 == Token(IntConst, d, lx.line, lx.column, IntValue(DigitsValue(d, 10)))
    ensures ReadNumber(lx).1.pos == lx.pos + |d|
  {
    var e := lx.pos + |d|;
    DigitsAt(lx, d);
    FollowEndsInteger(lx.source, e);
    ReadDecimalInteger(lx, e);
    var r := ReadDecimalNumber(lx);
    assert lx.source[lx.pos..e] == d;
    assert r.0 == Token(IntConst, d, lx.line, lx.column, IntValue(DigitsValue(d, 10)));
    assert ReadNumber(lx) == r;
  }

  /** Where a digit string stands at the cursor, the text holds digits there and no hex prefix. */
  lemma DigitsAt(lx: Lexer, d: string)
    requires WellFormed(lx) && TextAt(lx.source, lx.pos, d)
    requires 1 <= |d| && forall i :: 0 <= i < |d| ==> IsDigit(d[i])
    requires NumeralEndsAt(lx.source, lx.pos + |d|)
    ensures forall k :: lx.pos <= k < lx.pos + |d| ==> IsDigit(lx.source[k])
    ensures !AtHexPrefix(lx)
  {
    TextAtChars(lx.source, lx.pos, d);
    if 1 < |d| {
      assert IsDigit(lx.source[lx.pos + 1]);
    }
  }

  /** A numeral ends at e when the text ends there or holds a character that cannot continue it. */
  predicate NumeralEndsAt(s: string, e: nat)
  {
    e <= |s| && (e == |s| || (!IsIdentChar(s[e]) && s[e] != '.'))
  }

  /** A character that cannot continue an identifier, and is not a dot, ends a decimal integer. */
  lemma FollowEndsInteger(s: string, e: nat)
    requires NumeralEndsAt(s, e)
    ensures EndsDecimalInteger(s, e)
  {
  }

  /** `0xFF` is the integer 255. */
  lemma HexScenario()
    ensures ReadNumber(Lexer("0xFF", 0, 1, 1)).0 == Token(IntConst, "0xFF", 1, 1, IntValue(255))
  {
    var lx := Lexer("0xFF", 0, 1, 1);
    assert AtHexPrefix(lx);
    var a := Advance(Advance(lx));
    assert AdvanceWhile(a, IsHexDigit).pos == 4;
    assert "0xFF"[0..4] == "0xFF";
    assert "0xFF"[2..4] == "FF";
    assert DigitsValue("FF", 16) == 255 by {
      assert "FF"[..1] == "F";
    }
  }

  /** A bare `0x` is the integer 0: the conversion reads no digits. */
  lemma BareHexPrefixScenario()
    ensures ReadNumber(Lexer("0x", 0, 1, 1)).0 == Token(IntConst, "0x", 1, 1, IntValue(0))
  {
    var lx := Lexer("0x", 0, 1, 1);
    assert AtHexPrefix(lx);
    var r := ReadHexNumber(lx);
    assert r.1.pos == 2;
    assert Consumed(lx, r.1) == "0x";
    assert DigitsValue("0x"[2..], 16) == 0 by {
      assert "0x"[2..] == [];
    }
  }

  /** An exponent marker makes a floating constant even when no exponent digits follow. */
  lemma BareExponentScenario()
    ensures ReadNumber(Lexer("1e", 0, 1, 1)).0.kind == DoubleConst
    ensures ReadNumber(Lexer("1e", 0, 1, 1)).0.lexeme == "1e"
  {
    var lx := Lexer("1e", 0, 1, 1);
    assert !AtHexPrefix(lx);
    assert AdvanceWhile(lx, IsDigit).pos == 1;
    assert "1e"[0..2] == "1e";
  }

  /** `1.23e-5` is one floating constant: digits, fraction, and an exponent with its sign. */
  lemma SignedExponentScenario()
    ensures ReadNumber(Lexer("1.23e-5", 0, 1, 1)).0 == Token(DoubleConst, "1.23e-5", 1, 1, NoValue)
    ensures ReadNumber(Lexer("1.23e-5", 0, 1, 1)).1.pos == 7
  {
    var lx := Lexer("1.23e-5", 0, 1, 1);
    assert !AtHexPrefix(lx);
    SignedExponentEnd();
    assert IsFloatMark(lx.source[1]);
    assert lx.source[0..7] == "1.23e-5";
  }

  /** The decimal literal at the start of `1.23e-5` runs to the end of the text. */
  lemma SignedExponentEnd()
    ensures DecimalEnd("1.23e-5", 0) == 7
  {
    var s := "1.23e-5";
    assert DigitRunEnd(s, 0) == 1;
    assert FractionEnd(s, 1) == 4;
    assert ExponentEnd(s, 4) == 7;
  }

  /** A dot not followed by a digit ends an integer constant and is left unread. */
  lemma TrailingDotScenario()
    ensures ReadNumber(Lexer("1.x", 0, 1, 1)) == (Token(IntConst, "1", 1, 1, IntValue(1)), Lexer("1.x", 1, 1, 2))
  {
    var lx := Lexer("1.x", 0, 1, 1);
    assert ReadNumber(lx) == ReadDecimalNumber(lx) by {
      assert !AtHexPrefix(lx);
    }
    assert EndsDecimalInteger("1.x", 1);
    ReadDecimalInteger(lx, 1);
    LeadingDigitRun();
    LeadingDigitValue();
  }

  /** The digit run of `1.x` is `1`, of value 1. */
  lemma LeadingDigitValue()
    ensures "1.x"[0..1] == "1" && DigitsValue("1", 10) == 1
  {
    assert "1"[..0] == "";
  }

  /** The digit run of `1.x` ends on the dot, at line 1, column 2. */
  lemma LeadingDigitRun()
    ensures ReadDecimalNumber(Lexer("1.x", 0, 1, 1)).1 == Lexer("1.x", 1, 1, 2)
  {
    var lx := Lexer("1.x", 0, 1, 1);
    var one := Advance(lx);
    assert one == Lexer("1.x", 1, 1, 2);
    assert AdvanceWhile(one, IsDigit) == one;
    assert ReadFraction(one) == (one, false);
    assert ReadExponent(one) == (one, false);
  }

  // ---------------------------------------------------------------------------
  // Character constants
  // ---------------------------------------------------------------------------

  /** The text a character is written as between single quotes. */
  function EscapeChar(c: char): string
  {
    match c
    case '\n' => "\\n"
    case '\t' => "\\t"
    case '\r' => "\\r"
    case '\\' => "\\\\"
    case '\'' => "\\'"
    case '\0' => "\\0"
    case _ => [c]
  }

  /** The character literal of c. */
  function Quote(c: char): string
  {
    "'" + EscapeChar(c) + "'"
  }

  /** The literal of every character is a complete literal denoting it. */
  lemma QuoteDenotes(c: char)
    ensures CharLiteralDenotes(Quote(c), c)
  {
  }

  /** At most one complete character literal starts at any offset. */
  lemma CharLiteralUnique(s: string, p: nat, n1: nat, v1: char, n2: nat, v2: char)
    requires CharLiteralAt(s, p, n1, v1) && CharLiteralAt(s, p, n2, v2)
    ensures n1 == n2 && v1 == v2
  {
    var t1 := s[p..p + n1];
    var t2 := s[p..p + n2];
    assert forall i :: 0 <= i < n1 && i < n2 ==> t1[i] == s[p + i] == t2[i];
  }

  /**
   * read_char reads the literal of any character as one character constant with the
   * literal as lexeme and the character as value, whatever follows it.
   */
  lemma ReadCharRoundTrip(lx: Lexer, c: char)
    requires WellFormed(lx) && TextAt(lx.source, lx.pos, Quote(c))
    ensures ReadChar(lx).0 == Token(CharConst, Quote(c), lx.line, lx.column, CharValue(c))
    ensures ReadChar(lx).1.pos == lx.pos + |Quote(c)|
  {
    var q := Quote(c);
    QuoteDenotes(c);
    assert lx.source[lx.pos] == q[0] by { TextAtChars(lx.source, lx.pos, q); }
    assert CharLiteralAt(lx.source, lx.pos, |q|, c);
    var r := ReadChar(lx);
    assert r.0.kind == CharConst;
    CharLiteralUnique(lx.source, lx.pos, r.1.pos - lx.pos, r.0.value.c, |q|, c);
  }

  // ---------------------------------------------------------------------------
  // String constants
  // ---------------------------------------------------------------------------

  /** The text a character is written as inside a string literal. */
  function EscapeInString(c: char): string
  {
    if c == '"' then "\\\"" else if c == '\\' then "\\\\" else [c]
  }

  /** The body of the string literal of t. */
  function EscapeString(t: string): string
  {
    if |t| == 0 then "" else EscapeInString(t[0]) + EscapeString(t[1..])
  }

  /** The string literal of t. */
  function QuoteString(t: string): string
  {
    "\"" + EscapeString(t) + "\""
  }

  /** An escaped text is a string body. */
  lemma {:induction false} EscapeStringIsBody(t: string)
    ensures IsStringBody(EscapeString(t))
  {
    if |t| > 0 {
      var rest := EscapeString(t[1..]);
      EscapeStringIsBody(t[1..]);
      var e := EscapeInString(t[0]);
      var s := e + rest;
      assert s == EscapeString(t);
      assert s[|e|..] == rest;
      assert s[0] == e[0];
    }
  }

  /**
   * The first unescaped double quote ends a string literal: a string body followed by a
   * quote is never extended to a longer body.
   */
  lemma {:induction false} FirstQuoteEndsString(x: string, y: string)
    requires IsStringBody(x)
    ensures !IsStringBody(x + ['"'] + y)
    decreases |x|
  {
    var s := x + ['"'] + y;
    if |x| == 0 {
      assert s[0] == '"';
    } else if x[0] == '\\' {
      FirstQuoteEndsString(x[2..], y);
      assert s[2..] == x[2..] + ['"'] + y;
      assert s[0] == x[0];
    } else {
      FirstQuoteEndsString(x[1..], y);
      assert s[1..] == x[1..] + ['"'] + y;
      assert s[0] == x[0];
    }
  }

  /** The opening quote, body and closing quote of a quoted text standing at p. */
  lemma QuotedText(s: string, p: nat, e: string)
    requires TextAt(s, p, "\"" + e + "\"")
    ensures p + |e| + 1 < |s| && s[p] == '"' && s[p + |e| + 1] == '"'
    ensures s[p + 1..p + |e| + 1] == e
    ensures s[p..p + |e| + 2] == "\"" + e + "\""
  {
    var lit := "\"" + e + "\"";
    TextAtChars(s, p, lit);
    assert s[p + 1..p + |e| + 1] == lit[1..|lit| - 1];
  }

  /** The quotes and the body of the literal of t standing at p. */
  lemma QuotedStringText(s: string, p: nat, t: string)
    requires TextAt(s, p, QuoteString(t))
    ensures var close := p + |EscapeString(t)| + 1;
      && close < |s| && s[p] == '"' && s[close] == '"'
      && IsStringBody(s[p + 1..close])
      && s[p..close + 1] == QuoteString(t)
  {
    QuotedText(s, p, EscapeString(t));
    EscapeStringIsBody(t);
  }

  /** Two closing quotes after the same string body are the same quote. */
  lemma StringEndUnique(s: string, q: nat, m1: nat, m2: nat)
    requires q <= m1 < |s| && q <= m2 < |s|
    requires s[m1] == '"' && IsStringBody(s[q..m1])
    requires s[m2] == '"' && IsStringBody(s[q..m2])
    ensures m1 == m2
  {
    if m1 < m2 {
      assert s[q..m2] == s[q..m1] + ['"'] + s[m1 + 1..m2];
      FirstQuoteEndsString(s[q..m1], s[m1 + 1..m2]);
    } else if m2 < m1 {
      assert s[q..m1] == s[q..m2] + ['"'] + s[m2 + 1..m1];
      FirstQuoteEndsString(s[q..m2], s[m2 + 1..m1]);
    }
  }

  /** A quote closing a string body exists, so read_string does not report an unterminated string. */
  lemma ReadStringCloses(lx: Lexer, close: nat)
    requires WellFormed(lx) && lx.pos < close < |lx.source|
    requires lx.source[lx.pos] == '"' && lx.source[close] == '"'
    requires IsStringBody(lx.source[lx.pos + 1..close])
    ensures ReadString(lx).0.kind == StringConst
  {
    if ReadString(lx).0.kind == Error {
      assert false;
    }
  }

  /** read_string stops at the first quote that closes a string body, whatever follows it. */
  lemma ReadStringEndsAt(lx: Lexer, close: nat)
    requires WellFormed(lx) && lx.pos < close < |lx.source|
    requires lx.source[lx.pos] == '"' && lx.source[close] == '"'
    requires IsStringBody(lx.source[lx.pos + 1..close])
    ensures ReadString(lx).0.kind == StringConst
    ensures ReadString(lx).1.pos == close + 1
  {
    ReadStringCloses(lx, close);
    ClosedStringEnd(lx.source, lx.pos, ReadString(lx).1.pos, close);
  }

  /** A string opened at p and closed before e ends at the quote that closes its body. */
  lemma ClosedStringEnd(s: string, p: nat, e: nat, close: nat)
    requires ClosedStringAt(s, p, e) && p < close < |s| && s[close] == '"' && IsStringBody(s[p + 1..close])
    ensures e == close + 1
  {
    StringEndUnique(s, p + 1, e - 1, close);
  }

  /** The string constant read there spans the literal up to and including that quote. */
  lemma ReadStringClosesAt(lx: Lexer, close: nat)
    requires WellFormed(lx) && lx.pos < close < |lx.source|
    requires lx.source[lx.pos] == '"' && lx.source[close] == '"'
    requires IsStringBody(lx.source[lx.pos + 1..close])
    ensures ReadString(lx).0 == Token(StringConst, lx.source[lx.pos..close + 1], lx.line, lx.column, NoValue)
    ensures ReadString(lx).1.pos == close + 1
  {
    ReadStringEndsAt(lx, close);
  }

  /**
   * read_string reads the literal of any text as one string constant whose lexeme is the
   * whole literal, whatever follows it.
   */
  lemma ReadStringRoundTrip(lx: Lexer, t: string)
    requires WellFormed(lx) && TextAt(lx.source, lx.pos, QuoteString(t))
    ensures ReadString(lx).0 == Token(StringConst, QuoteString(t), lx.line, lx.column, NoValue)
    ensures ReadString(lx).1.pos == lx.pos + |QuoteString(t)|
  {
    QuotedStringText(lx.source, lx.pos, t);
    ReadStringClosesAt(lx, lx.pos + |EscapeString(t)| + 1);
  }

  // ---------------------------------------------------------------------------
  // Identifiers and keywords
  // ---------------------------------------------------------------------------

  /**
   * read_identifier reads an identifier text followed by a character that cannot continue
   * it as one token with the text as lexeme, of the keyword's kind for a reserved word and
   * of kind identifier otherwise.
   */
  lemma ReadIdentifierRoundTrip(lx: Lexer, w: string)
    requires WellFormed(lx) && IsIdentifierText(w) && TextAt(lx.source, lx.pos, w)
    requires lx.pos + |w| == |lx.source| || !IsIdentChar(lx.source[lx.pos + |w|])
    ensures ReadIdentifier(lx).0 == Token(LookupKeyword(w), w, lx.line, lx.column, NoValue)
    ensures ReadIdentifier(lx).1.pos == lx.pos + |w|
  {
    TextAtChars(lx.source, lx.pos, w);
    RunEndUnique(lx.source, lx.pos, ReadIdentifier(lx).1.pos, lx.pos + |w|, IsIdentChar);
  }

  /** A maximal run of characters satisfying f that starts at p has one end. */
  lemma RunEndUnique(s: string, p: nat, e1: nat, e2: nat, f: char -> bool)
    requires p <= e1 <= |s| && p <= e2 <= |s|
    requires forall k :: p <= k < e1 ==> f(s[k])
    requires forall k :: p <= k < e2 ==> f(s[k])
    requires e1 == |s| || !f(s[e1])
    requires e2 == |s| || !f(s[e2])
    ensures e1 == e2
  {
  }

  /** Each reserved word of the table, not followed by an identifier character, reads as its keyword kind. */
  lemma ReadKeywordRoundTrip(lx: Lexer, i: nat)
    requires i < |Keywords| && WellFormed(lx) && TextAt(lx.source, lx.pos, Keywords[i].0)
    requires lx.pos + |Keywords[i].0| == |lx.source| || !IsIdentChar(lx.source[lx.pos + |Keywords[i].0|])
    ensures ReadIdentifier(lx).0 == Token(Keywords[i].1, Keywords[i].0, lx.line, lx.column, NoValue)
  {
    var w := Keywords[i].0;
    assert IsIdentifierText(w);
    ReadIdentifierRoundTrip(lx, w);
    LookupKeywordCorrect(w);
  }

  // ---------------------------------------------------------------------------
  // Operators and delimiters
  // ---------------------------------------------------------------------------

  /** The operator and delimiter kinds. */
  predicate IsOperatorKind(t: TokenType)
  {
    t in {Plus, Minus, Multiply, Divide, Modulo, Assign, Eq, Ne, Lt, Le, Gt, Ge, And, Or, Not,
          Semicolon, Comma, LParen, RParen, LBrace, RBrace, LBracket, RBracket}
  }

  /** How each operator and delimiter is written. */
  function Spelling(t: TokenType): (w: string)
    requires IsOperatorKind(t)
    ensures 1 <= |w| <= 2
  {
    match t
    case Plus => "+" case Minus => "-" case Multiply => "*" case Divide => "/"
    case Modulo => "%" case Assign => "=" case Eq => "==" case Ne => "!=" case Lt => "<"
    case Le => "<=" case Gt => ">" case Ge => ">=" case And => "&&" case Or => "||"
    case Not => "!" case Semicolon => ";" case Comma => "," case LParen => "("
    case RParen => ")" case LBrace => "{" case RBrace => "}" case LBracket => "["
    case RBracket => "]"
  }

  /**
   * The dispatch tables read every spelling back as its kind: a two-character spelling by
   * the two-character table, a one-character spelling by the one-character table. A
   * one-character spelling is taken over by the two-character table exactly when it is
   * `=`, `!`, `<` or `>` and an `=` follows it.
   */
  lemma OperatorTablesRoundTrip(t: TokenType, next: char)
    requires IsOperatorKind(t)
    ensures var w := Spelling(t);
      && (|w| == 2 ==> TwoCharOperator(w[0], w[1]) == Some(t))
      && (|w| == 1 ==> SingleCharOperator(w[0]) == Some(t))
      && (|w| == 1 ==> (TwoCharOperator(w[0], next).Some? <==> next == '=' && t in {Assign, Not, Lt, Gt}))
  {
  }

  /**
   * Every operator or delimiter is read as one token of its kind with its spelling as
   * lexeme; a one-character spelling needs only that the character after it does not
   * complete a two-character operator.
   */
  lemma ReadOperatorRoundTrip(lx: Lexer, t: TokenType)
    requires IsOperatorKind(t) && WellFormed(lx) && TextAt(lx.source, lx.pos, Spelling(t))
    requires |Spelling(t)| == 2 || TwoCharOperator(Spelling(t)[0], Peek(lx)).None?
    ensures ReadOperator(lx).0 == Token(t, Spelling(t), lx.line, lx.column, NoValue)
    ensures ReadOperator(lx).1.pos == lx.pos + |Spelling(t)|
  {
    var w := Spelling(t);
    TextAtChars(lx.source, lx.pos, w);
    OperatorTablesRoundTrip(t, Peek(lx));
    if |w| == 2 {
      ReadTwoCharText(lx, w, t);
    } else {
      ReadOneCharText(lx, w, t);
    }
  }

  /** A two-character operator of the table is read as one token spelled by both characters. */
  lemma ReadTwoCharText(lx: Lexer, w: string, t: TokenType)
    requires WellFormed(lx) && |w| == 2 && TextAt(lx.source, lx.pos, w)
    requires TwoCharOperator(w[0], w[1]) == Some(t)
    ensures ReadOperator(lx).0 == Token(t, w, lx.line, lx.column, NoValue)
    ensures ReadOperator(lx).1.pos == lx.pos + 2
  {
    TextAtChars(lx.source, lx.pos, w);
  }

  /** A one-character operator not starting a two-character one is read as one token. */
  lemma ReadOneCharText(lx: Lexer, w: string, t: TokenType)
    requires WellFormed(lx) && |w| == 1 && TextAt(lx.source, lx.pos, w)
    requires TwoCharOperator(w[0], Peek(lx)).None? && SingleCharOperator(w[0]) == Some(t)
    ensures ReadOperator(lx).0 == Token(t, w, lx.line, lx.column, NoValue)
    ensures ReadOperator(lx).1.pos == lx.pos + 1
  {
    TextAtChars(lx.source, lx.pos, w);
  }

  // ---------------------------------------------------------------------------
  // Dispatch and edge behaviours
  // ---------------------------------------------------------------------------

  /** The first character of a token selects its reader. */
  lemma ScanDispatch(lx: Lexer)
    requires WellFormed(lx) && lx.pos < |lx.source|
    ensures IsIdentStart(lx.source[lx.pos]) ==> Scan(lx) == ReadIdentifier(lx)
    ensures IsDigit(lx.source[lx.pos]) ==> Scan(lx) == ReadNumber(lx)
    ensures lx.source[lx.pos] == '"' ==> Scan(lx) == ReadString(lx)
    ensures lx.source[lx.pos] == '\'' ==> Scan(lx) == ReadChar(lx)
    ensures var c := lx.source[lx.pos];
      !IsIdentStart(c) && !IsDigit(c) && c != '"' && c != '\'' ==> Scan(lx) == ReadOperator(lx)
  {
  }

  /** A `/` that does not start a comment is the division operator. */
  lemma SlashIsDivide(lx: Lexer)
    requires WellFormed(lx) && lx.pos < |lx.source| && lx.source[lx.pos] == '/'
    requires Peek(lx) != '/' && Peek(lx) != '*'
    ensures NextToken(lx).0 == Token(Divide, "/", lx.line, lx.column, NoValue)
    ensures NextToken(lx).1.pos == lx.pos + 1
  {
    NextTokenAtTokenStart(lx);
    ScanOperator(lx);
    ReadDivide(lx);
  }

  lemma ScanOperator(lx: Lexer)
    requires WellFormed(lx) && lx.pos < |lx.source|
    requires var c := lx.source[lx.pos]; !IsIdentStart(c) && !IsDigit(c) && c != '"' && c != '\''
    ensures Scan(lx) == ReadOperator(lx)
  {
  }

  lemma ReadDivide(lx: Lexer)
    requires WellFormed(lx) && lx.pos < |lx.source| && lx.source[lx.pos] == '/'
    requires Peek(lx) != '/' && Peek(lx) != '*'
    ensures ReadOperator(lx).0 == Token(Divide, "/", lx.line, lx.column, NoValue)
    ensures ReadOperator(lx).1.pos == lx.pos + 1
  {
    assert lx.source[lx.pos..lx.pos + 1] == "/";
  }

  /** A character that starts no token yields one error token naming it, and is consumed. */
  lemma IllegalCharacterScenario()
    ensures ReadOperator(Lexer("@", 0, 1, 1)) == (Token(Error, "非法字符: '@'", 1, 1, NoValue), Lexer("@", 1, 1, 2))
  {
    assert IllegalCharacter('@') == "非法字符: '@'";
  }

  /** A line comment and its newline are skipped: the keyword after it starts line 2, column 1. */
  lemma LineCommentScenario()
    ensures NextToken(Lexer("// comment\nint a;", 0, 1, 1)).0 == Token(Int, "int", 2, 1, NoValue)
  {
    var s := "// comment\nint a;";
    var start := SkipTrivia(CreateLexer(s));
    CommentSpanScenario(start);
    LineTwoScenario();
    assert start.pos == 11 && start.line == 2 && start.column == 1;
    IntAfterComment();
    ScanIntKeyword(start);
  }

  /** The trivia that skipping stops after, from offset 0 of the text, is the comment with its newline. */
  lemma CommentSpanScenario(r: Lexer)
    requires r.source == "// comment\nint a;" && WellFormed(r)
    requires TriviaSpan(r.source, 0, r.pos)
    requires r.pos < |r.source| ==> !IsSpace(Current(r)) && !AtCommentStart(r)
    ensures r.pos == 11
  {
    var s := r.source;
    assert r.pos != 0 by {
      if r.pos == 0 {
        assert AtCommentStart(r);
      }
    }
    assert s[0] == '/' && s[1] == '/' && !IsSpace(s[0]);
    assert TriviaSpan(s, LineEnd(s, 2), r.pos);
    LineEndIs(s, 2, 11);
    assert !IsSpace(s[11]) && s[11] != '/';
  }

  /** Offset 11 of the text, just after its first newline, is line 2, column 1. */
  lemma LineTwoScenario()
    ensures PositionAt("// comment\nint a;", 11) == (2, 1)
  {
    var s := "// comment\nint a;";
    FirstLinePosition(s, 10);
  }

  /** Before the first newline, offset p is line 1, column p + 1. */
  lemma {:induction false} FirstLinePosition(s: string, p: nat)
    requires p <= |s|
    requires forall k :: 0 <= k < p ==> s[k] != '\n'
    ensures PositionAt(s, p) == (1, p + 1)
  {
    if p > 0 {
      FirstLinePosition(s, p - 1);
    }
  }

  /** The text holds `int` at offset 11, followed by a space. */
  lemma IntAfterComment()
    ensures TextAt("// comment\nint a;", 11, "int") && !IsIdentChar("// comment\nint a;"[14])
  {
    assert "// comment\nint a;"[11..14] == "int";
  }

  /** The keyword table maps `int` to its keyword kind. */
  lemma IntIsKeyword()
    ensures LookupKeyword("int") == Int
  {
    assert Keywords[1] == ("int", Int);
  }

  /** `int` not followed by an identifier character is scanned as the keyword. */
  lemma ScanIntKeyword(lx: Lexer)
    requires WellFormed(lx) && TextAt(lx.source, lx.pos, "int")
    requires lx.pos + 3 == |lx.source| || !IsIdentChar(lx.source[lx.pos + 3])
    ensures Scan(lx).0 == Token(Int, "int", lx.line, lx.column, NoValue)
  {
    assert lx.source[lx.pos] == 'i' by {
      assert lx.source[lx.pos..lx.pos + 3][0] == 'i';
    }
    assert Scan(lx) == ReadIdentifier(lx);
    ReadIdentifierRoundTrip(lx, "int");
    IntIsKeyword();
  }

  /** A character that starts no token gives one error token, and the stream then ends one column on. */
  lemma IllegalThenEofScenario(lx: Lexer)
    requires lx == CreateLexer("@")
    ensures TokenStream(lx) == [Token(Error, "非法字符: '@'", 1, 1, NoValue), Token(Eof, "", 1, 2, NoValue)]
  {
    StreamOnIllegal(lx);
    var b := Advance(lx);
    assert b.pos == |b.source| && b.line == 1 && b.column == 2;
    StreamAtEnd(b);
    IllegalAtText();
  }

  /** The diagnostic for `@` spelled out. */
  lemma IllegalAtText()
    ensures IllegalCharacter('@') == "非法字符: '@'"
  {
    assert [('@')] == "@";
  }

  /** At an `@`, get_next_token yields the illegal-character error and steps over it. */
  lemma NextTokenOnIllegal(lx: Lexer)
    requires WellFormed(lx) && lx.pos < |lx.source| && lx.source[lx.pos] == '@'
    ensures NextToken(lx) == (Token(Error, IllegalCharacter('@'), lx.line, lx.column, NoValue), Advance(lx))
  {
    assert SkipTrivia(lx) == lx;
    ScanDispatch(lx);
  }

  /** The stream from an `@` is its error token followed by the stream from the next character. */
  lemma StreamOnIllegal(lx: Lexer)
    requires WellFormed(lx) && lx.pos < |lx.source| && lx.source[lx.pos] == '@'
    ensures TokenStream(lx) == [Token(Error, IllegalCharacter('@'), lx.line, lx.column, NoValue)] + TokenStream(Advance(lx))
  {
    NextTokenOnIllegal(lx);
    TokenStreamUnfold(lx);
  }

  /** At the end of the text the stream is the end-of-file token alone, at the cursor's position. */
  lemma StreamAtEnd(lx: Lexer)
    requires WellFormed(lx) && lx.pos == |lx.source|
    ensures TokenStream(lx) == [Token(Eof, "", lx.line, lx.column, NoValue)]
  {
    TokenStreamUnfold(lx);
  }

  /** A string literal without its closing quote is one error token that consumes the rest of the text. */
  lemma UnterminatedStringScenario()
    ensures NextToken(Lexer("\"ab", 0, 1, 1)).0 == Token(Error, UnterminatedString, 1, 1, NoValue)
    ensures NextToken(Lexer("\"ab", 0, 1, 1)).1.pos == 3
  {
    NextTokenOnUnclosedString(Lexer("\"ab", 0, 1, 1));
  }

  /** At a `"` with no `"` after it, get_next_token yields the unterminated-string error and reads to the end. */
  lemma NextTokenOnUnclosedString(lx: Lexer)
    requires WellFormed(lx) && lx.pos < |lx.source| && lx.source[lx.pos] == '"'
    requires forall k :: lx.pos < k < |lx.source| ==> lx.source[k] != '"'
    ensures NextToken(lx).0 == Token(Error, UnterminatedString, lx.line, lx.column, NoValue)
    ensures NextToken(lx).1.pos == |lx.source|
  {
    assert SkipTrivia(lx) == lx;
    ScanDispatch(lx);
    var r := ReadString(lx);
    assert r.0.kind == Error;
  }

  /**
   * At a quote followed by one ordinary character and no closing quote, get_next_token yields
   * the unterminated-character error and resumes right after that character.
   */
  lemma NextTokenOnUnclosedChar(lx: Lexer)
    requires WellFormed(lx) && lx.pos + 2 <= |lx.source| && lx.source[lx.pos] == '\''
    requires lx.source[lx.pos + 1] != '\\' && lx.source[lx.pos + 1] != '\''
    requires lx.pos + 2 == |lx.source| || lx.source[lx.pos + 2] != '\''
    ensures NextToken(lx).0 == Token(Error, UnterminatedChar, lx.line, lx.column, NoValue)
    ensures NextToken(lx).1.pos == lx.pos + 2
  {
    assert SkipTrivia(lx) == lx;
    ScanDispatch(lx);
    var r := ReadChar(lx);
    assert r.0.kind == Error;
  }

  /** At a one-letter identifier that ends the text, get_next_token yields it as an identifier. */
  lemma NextTokenOnLastLetter(lx: Lexer)
    requires WellFormed(lx) && lx.pos + 1 == |lx.source| && IsAlpha(lx.source[lx.pos])
    ensures NextToken(lx).0 == Token(Identifier, [lx.source[lx.pos]], lx.line, lx.column, NoValue)
    ensures NextToken(lx).1.pos == |lx.source|
  {
    var w := [lx.source[lx.pos]];
    assert SkipTrivia(lx) == lx;
    ScanDispatch(lx);
    assert lx.source[lx.pos..lx.pos + 1] == w;
    ReadIdentifierRoundTrip(lx, w);
    ShortWordIsIdentifier(w);
  }

  /** Every keyword has at least two letters, so a one-letter word is an identifier. */
  lemma ShortWordIsIdentifier(w: string)
    requires |w| < 2
    ensures LookupKeyword(w) == Identifier
  {
    LookupKeywordCorrect(w);
    assert forall i :: 0 <= i < |Keywords| ==> |Keywords[i].0| >= 2;
  }

  /**
   * `'ab`: the character literal is unterminated, so the stream is an error at the quote,
   * then the identifier `b` that read_char left unread, then the end.
   */
  lemma UnclosedCharScenario(lx: Lexer)
    requires lx == CreateLexer("'ab")
    ensures TokenStream(lx)
         == [Token(Error, UnterminatedChar, 1, 1, NoValue), Token(Identifier, "b", 1, 3, NoValue), Token(Eof, "", 1, 4, NoValue)]
  {
    QuoteLetterLetter(lx.source);
    NextTokenOnUnclosedChar(lx);
    TokenStreamUnfold(lx);
    var b := NextToken(lx).1;
    assert b.source == "'ab" && b.pos == 2 && b.line == 1 && b.column == 3;
    LetterThenEnd(b);
  }

  /** From offset 2 of `'ab`, the stream is the identifier `b` at column 3 and then the end at column 4. */
  lemma LetterThenEnd(b: Lexer)
    requires b.source == "'ab" && b.pos == 2 && b.line == 1 && b.column == 3
    ensures TokenStream(b) == [Token(Identifier, "b", 1, 3, NoValue), Token(Eof, "", 1, 4, NoValue)]
  {
    QuoteLetterLetter(b.source);
    NextTokenOnLastLetter(b);
    TokenStreamUnfold(b);
    var c := NextToken(b).1;
    assert c.pos == |c.source| && c.line == 1 && c.column == 4;
    StreamAtEnd(c);
  }

  /** The characters of `'ab`, and the positions of its last two offsets. */
  lemma QuoteLetterLetter(s: string)
    requires s == "'ab"
    ensures |s| == 3 && s[0] == '\'' && s[1] == 'a' && s[2] == 'b'
    ensures PositionAt(s, 2) == (1, 3) && PositionAt(s, 3) == (1, 4)
  {
    FirstLinePosition(s, 3);
    FirstLinePosition(s, 2);
  }

  /** An unterminated block comment silently swallows the rest of the text. */
  lemma UnterminatedCommentScenario()
    ensures SkipBlockComment(Lexer("/* x", 0, 1, 1)) == Lexer("/* x", 4, 1, 5)
  {
    var lx := Lexer("/* x", 0, 1, 1);
    assert Advance(Advance(lx)) == Lexer("/* x", 2, 1, 3);
  }
}
