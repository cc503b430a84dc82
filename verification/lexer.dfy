/**
 * The hand-written scanner of the C0 compiler (lexer.c).
 *
 * A lexer is a cursor over a borrowed source text: the offset of the current character
 * and the line and column at which it stands. The C structure also caches the current
 * character; here it is computed from the offset (Current), which is what the C code
 * keeps it equal to. Every reader is a pure function from a cursor to a token and the
 * cursor after it.
 *
 * The text stands for the characters of the C string before its terminating NUL (its
 * length is taken with strlen), and the C tests `current_char != '\0'` are written here
 * as "the offset is before the end of the text". A text from a C string holds no NUL;
 * the model does not require that, and reads a NUL inside the text as an illegal character.
 */
module Scanner {
  import opened Wrappers
  import opened Tokens
  import opened CharClasses

  // ---------------------------------------------------------------------------
  // Character classes (the <ctype.h> predicates, on ASCII)
  // ---------------------------------------------------------------------------

  /** isspace: blank, tab, newline, vertical tab, form feed, carriage return. */
  predicate IsSpace(c: char)
  {
    c == ' ' || c == '\t' || c == '\n' || c == '\U{0B}' || c == '\U{0C}' || c == '\r'
  }

  predicate IsHexDigit(c: char)
  {
    IsDigit(c) || 'a' <= c <= 'f' || 'A' <= c <= 'F'
  }

  predicate IsNotNewline(c: char)
  {
    c != '\n'
  }

  // ---------------------------------------------------------------------------
  // The cursor
  // ---------------------------------------------------------------------------

  datatype Lexer = Lexer(source: string, pos: nat, line: int, column: int)

  /** The offset lies within the text or just after its end. */
  predicate WellFormed(lx: Lexer)
  {
    lx.pos <= |lx.source|
  }

  /** Number of newline characters among the first p characters of s. */
  function NewlinesBefore(s: string, p: nat): nat
    requires p <= |s|
  {
    if p == 0 then 0 else NewlinesBefore(s, p - 1) + (if s[p - 1] == '\n' then 1 else 0)
  }

  /** Offset of the first character of the line holding offset p. */
  function LineStart(s: string, p: nat): (r: nat)
    requires p <= |s|
    ensures r <= p
  {
    if p == 0 then 0 else if s[p - 1] == '\n' then p else LineStart(s, p - 1)
  }

  /** The 1-based line of offset p: one more than the newlines before it. */
  function LineOf(s: string, p: nat): int
    requires p <= |s|
  {
    1 + NewlinesBefore(s, p)
  }

  /** The 1-based column of offset p: its distance from the start of its line, plus one. */
  function ColumnOf(s: string, p: nat): int
    requires p <= |s|
  {
    1 + p - LineStart(s, p)
  }

  /**
   * The line and column reached by counting from (1, 1) over the first p characters of s:
   * a newline moves to column 1 of the next line, any other character one column right.
   */
  function PositionAt(s: string, p: nat): (int, int)
    requires p <= |s|
  {
    if p == 0 then (1, 1)
    else
      var (line, column) := PositionAt(s, p - 1);
      if s[p - 1] == '\n' then (line + 1, 1) else (line, column + 1)
  }

  /** The cursor's line and column are those of its offset. */
  predicate Consistent(lx: Lexer)
  {
    WellFormed(lx) && (lx.line, lx.column) == PositionAt(lx.source, lx.pos)
  }

  /** Counting character by character yields the closed-form line and column of every offset. */
  lemma {:induction false} PositionAtIsLineAndColumn(s: string, p: nat)
    requires p <= |s|
    ensures PositionAt(s, p) == (LineOf(s, p), ColumnOf(s, p))
  {
    if p > 0 {
      PositionAtIsLineAndColumn(s, p - 1);
    }
  }

  /**
   * r is a cursor reached from lx by reading forward: same text, an offset no smaller,
   * and positions kept exact.
   */
  predicate ReadsOn(lx: Lexer, r: Lexer)
  {
    && WellFormed(r)
    && r.source == lx.source
    && lx.pos <= r.pos
    && (Consistent(lx) ==> Consistent(r))
  }

  /** The text read moving the cursor from lx forward to r. */
  function Consumed(lx: Lexer, r: Lexer): string
    requires lx.pos <= r.pos <= |lx.source|
  {
    lx.source[lx.pos..r.pos]
  }

  /** create_lexer: offset 0, line 1, column 1. */
  function CreateLexer(source: string): (lx: Lexer)
    ensures lx.source == source && lx.pos == 0
    ensures Consistent(lx)
  {
    Lexer(source, 0, 1, 1)
  }

  /** The current character, or NUL at the end of the text. */
  function Current(lx: Lexer): (c: char)
    requires WellFormed(lx)
    ensures lx.pos == |lx.source| ==> c == '\0'
    ensures lx.pos < |lx.source| ==> c == lx.source[lx.pos]
  {
    if lx.pos < |lx.source| then lx.source[lx.pos] else '\0'
  }

  /** peek: the character after the current one, or NUL; the cursor is not changed. */
  function Peek(lx: Lexer): (c: char)
    requires WellFormed(lx)
    ensures lx.pos + 1 >= |lx.source| ==> c == '\0'
    ensures lx.pos + 1 < |lx.source| ==> c == lx.source[lx.pos + 1]
  {
    if lx.pos + 1 < |lx.source| then lx.source[lx.pos + 1] else '\0'
  }

  /**
   * advance: at the end of the text nothing changes; otherwise the offset moves one
   * character on, to the next line's column 1 after a newline and one column right
   * after any other character.
   */
  function Advance(lx: Lexer): (r: Lexer)
    requires WellFormed(lx)
    ensures ReadsOn(lx, r)
    ensures lx.pos == |lx.source| ==> r == lx
    ensures lx.pos < |lx.source| ==> r.pos == lx.pos + 1
    ensures lx.pos < |lx.source| && lx.source[lx.pos] == '\n' ==> r.line == lx.line + 1 && r.column == 1
    ensures lx.pos < |lx.source| && lx.source[lx.pos] != '\n' ==> r.line == lx.line && r.column == lx.column + 1
  {
    if lx.pos < |lx.source| then
      if Current(lx) == '\n' then Lexer(lx.source, lx.pos + 1, lx.line + 1, 1)
      else Lexer(lx.source, lx.pos + 1, lx.line, lx.column + 1)
    else lx
  }

  /** The loops that advance while the current character satisfies p and the text has not ended. */
  function AdvanceWhile(lx: Lexer, p: char -> bool): (r: Lexer)
    requires WellFormed(lx)
    decreases |lx.source| - lx.pos
    ensures ReadsOn(lx, r)
    ensures forall k :: lx.pos <= k < r.pos ==> p(lx.source[k])
    ensures r.pos == |lx.source| || !p(lx.source[r.pos])
  {
    if lx.pos < |lx.source| && p(Current(lx)) then AdvanceWhile(Advance(lx), p) else lx
  }

  // ---------------------------------------------------------------------------
  // Whitespace and comments
  // ---------------------------------------------------------------------------

  /** skip_whitespace: consumes the maximal run of white space at the cursor. */
  function SkipWhitespace(lx: Lexer): (r: Lexer)
    requires WellFormed(lx)
    ensures ReadsOn(lx, r)
    ensures forall k :: lx.pos <= k < r.pos ==> IsSpace(lx.source[k])
    ensures r.pos == |lx.source| || !IsSpace(lx.source[r.pos])
  {
    AdvanceWhile(lx, IsSpace)
  }

  function Min(a: int, b: int): int
  {
    if a <= b then a else b
  }

  /**
   * skip_line_comment: consumes the two opening characters, then everything up to and
   * including the next newline, or up to the end of the text when there is none.
   */
  function SkipLineComment(lx: Lexer): (r: Lexer)
    requires WellFormed(lx)
    ensures ReadsOn(lx, r)
    ensures Min(lx.pos + 2, |lx.source|) <= r.pos
    ensures forall k :: Min(lx.pos + 2, |lx.source|) <= k < r.pos - 1 ==> lx.source[k] != '\n'
    ensures r.pos == |lx.source| || (Min(lx.pos + 2, |lx.source|) < r.pos && lx.source[r.pos - 1] == '\n')
  {
    var a := AdvanceWhile(Advance(Advance(lx)), IsNotNewline);
    if Current(a) == '\n' then Advance(a) else a
  }

  /** A comment closer `*` `/` starts at offset k of s. */
  predicate ClosesAt(s: string, k: int)
  {
    0 <= k && k + 1 < |s| && s[k] == '*' && s[k + 1] == '/'
  }

  /** The loop of skip_block_comment, from the cursor on. */
  function BlockCommentRest(lx: Lexer): (r: Lexer)
    requires WellFormed(lx)
    decreases |lx.source| - lx.pos
    ensures ReadsOn(lx, r)
    ensures forall k :: lx.pos <= k < r.pos - 2 ==> !ClosesAt(lx.source, k)
    ensures (lx.pos + 2 <= r.pos && ClosesAt(lx.source, r.pos - 2))
         || (r.pos == |lx.source| && forall k :: lx.pos <= k < |lx.source| ==> !ClosesAt(lx.source, k))
  {
    if lx.pos == |lx.source| then lx
    else if Current(lx) == '*' && Peek(lx) == '/' then Advance(Advance(lx))
    else BlockCommentRest(Advance(lx))
  }

  /**
   * skip_block_comment: consumes the two opening characters, then everything through the
   * first following comment closer, or silently up to the end of the text when there is none.
   */
  function SkipBlockComment(lx: Lexer): (r: Lexer)
    requires WellFormed(lx)
    ensures ReadsOn(lx, r)
    ensures Min(lx.pos + 2, |lx.source|) <= r.pos
    ensures var q := Min(lx.pos + 2, |lx.source|);
      || (q + 2 <= r.pos && ClosesAt(lx.source, r.pos - 2) && forall k :: q <= k < r.pos - 2 ==> !ClosesAt(lx.source, k))
      || (r.pos == |lx.source| && forall k :: q <= k < |lx.source| ==> !ClosesAt(lx.source, k))
  {
    BlockCommentRest(Advance(Advance(lx)))
  }

  /** The offset just after the first newline from i on, or the end of the text: where a line comment stops. */
  function LineEnd(s: string, i: nat): (e: nat)
    requires i <= |s|
    decreases |s| - i
    ensures i <= e <= |s|
  {
    if i == |s| then i else if s[i] == '\n' then i + 1 else LineEnd(s, i + 1)
  }

  /** The offset just after the first comment closer from i on, or the end of the text: where a block comment stops. */
  function BlockEnd(s: string, i: nat): (e: nat)
    requires i <= |s|
    decreases |s| - i
    ensures i <= e <= |s|
  {
    if i == |s| then i else if ClosesAt(s, i) then i + 2 else BlockEnd(s, i + 1)
  }

  /** The end that skip_line_comment reaches is LineEnd after the opening `/` `/`. */
  lemma {:induction false} LineEndIs(s: string, i: nat, e: nat)
    requires i <= e <= |s|
    requires forall k :: i <= k < e - 1 ==> s[k] != '\n'
    requires e == |s| || (i < e && s[e - 1] == '\n')
    ensures LineEnd(s, i) == e
    decreases |s| - i
  {
    if i < |s| && s[i] != '\n' {
      LineEndIs(s, i + 1, e);
    }
  }

  /** The end that skip_block_comment reaches is BlockEnd after the opening `/` `*`. */
  lemma {:induction false} BlockEndIs(s: string, i: nat, e: nat)
    requires i <= e <= |s|
    requires forall k :: i <= k < e - 2 ==> !ClosesAt(s, k)
    requires (i + 2 <= e && ClosesAt(s, e - 2)) || (e == |s| && forall k :: i <= k < |s| ==> !ClosesAt(s, k))
    ensures BlockEnd(s, i) == e
    decreases |s| - i
  {
    if i < |s| && !ClosesAt(s, i) {
      BlockEndIs(s, i + 1, e);
    }
  }

  /**
   * s[p..q] is white space and comments only, split the way get_next_token skips them: a
   * white-space character, a `/` `/` comment through LineEnd, or a `/` `*` comment through BlockEnd.
   */
  predicate TriviaSpan(s: string, p: nat, q: nat)
    decreases |s| - p
  {
    && p <= q <= |s|
    && (|| p == q
        || (IsSpace(s[p]) && TriviaSpan(s, p + 1, q))
        || (p + 1 < |s| && s[p] == '/' && s[p + 1] == '/' && TriviaSpan(s, LineEnd(s, p + 2), q))
        || (p + 1 < |s| && s[p] == '/' && s[p + 1] == '*' && TriviaSpan(s, BlockEnd(s, p + 2), q)))
  }

  /** White space in front of a trivia span extends it. */
  lemma {:induction false} SpacesThenTrivia(s: string, p: nat, m: nat, q: nat)
    requires p <= m && TriviaSpan(s, m, q)
    requires forall k :: p <= k < m ==> IsSpace(s[k])
    ensures TriviaSpan(s, p, q)
    decreases m - p
  {
    if p < m {
      SpacesThenTrivia(s, p + 1, m, q);
    }
  }

  /** A comment at the cursor ends where LineEnd or BlockEnd says. */
  lemma CommentEnds(lx: Lexer)
    requires WellFormed(lx) && lx.pos + 1 < |lx.source| && lx.source[lx.pos] == '/'
    ensures lx.source[lx.pos + 1] == '/' ==> SkipLineComment(lx).pos == LineEnd(lx.source, lx.pos + 2)
    ensures lx.source[lx.pos + 1] == '*' ==> SkipBlockComment(lx).pos == BlockEnd(lx.source, lx.pos + 2)
  {
    if lx.source[lx.pos + 1] == '/' {
      LineEndIs(lx.source, lx.pos + 2, SkipLineComment(lx).pos);
    } else if lx.source[lx.pos + 1] == '*' {
      BlockEndIs(lx.source, lx.pos + 2, SkipBlockComment(lx).pos);
    }
  }

  /** The cursor stands on `/` `/` or `/` `*`. */
  predicate AtCommentStart(lx: Lexer)
    requires WellFormed(lx)
  {
    Current(lx) == '/' && (Peek(lx) == '/' || Peek(lx) == '*')
  }

  /**
   * The skipping part of get_next_token's loop: white space and comments are consumed
   * until the cursor stands on the first character of a token, or at the end.
   */
  function SkipTrivia(lx: Lexer): (r: Lexer)
    requires WellFormed(lx)
    decreases |lx.source| - lx.pos
    ensures ReadsOn(lx, r)
    ensures TriviaSpan(lx.source, lx.pos, r.pos)
    ensures r.pos < |r.source| ==> !IsSpace(Current(r)) && !AtCommentStart(r)
    ensures lx.pos == |lx.source| ==> r == lx
  {
    if lx.pos == |lx.source| then lx
    else if IsSpace(Current(lx)) then
      var m := SkipWhitespace(lx);
      var r := SkipTrivia(m);
      SpacesThenTrivia(lx.source, lx.pos, m.pos, r.pos);
      r
    else if AtCommentStart(lx) then
      var m := if Peek(lx) == '/' then SkipLineComment(lx) else SkipBlockComment(lx);
      var r := SkipTrivia(m);
      CommentThenTrivia(lx, r.pos);
      r
    else lx
  }

  /** A comment at the cursor in front of a trivia span extends it. */
  lemma CommentThenTrivia(lx: Lexer, q: nat)
    requires WellFormed(lx) && lx.pos < |lx.source| && AtCommentStart(lx)
    requires TriviaSpan(lx.source, (if Peek(lx) == '/' then SkipLineComment(lx) else SkipBlockComment(lx)).pos, q)
    ensures TriviaSpan(lx.source, lx.pos, q)
  {
    CommentEnds(lx);
  }

  // ---------------------------------------------------------------------------
  // Identifiers and keywords
  // ---------------------------------------------------------------------------

  /**
   * read_identifier: consumes the maximal run of letters, digits and underscores; the
   * lexeme is that run, the kind its keyword lookup, the position that of its first character.
   */
  function ReadIdentifier(lx: Lexer): (r: (Token, Lexer))
    requires WellFormed(lx)
    ensures ReadsOn(lx, r.1)
    ensures forall k :: lx.pos <= k < r.1.pos ==> IsIdentChar(lx.source[k])
    ensures r.1.pos == |lx.source| || !IsIdentChar(lx.source[r.1.pos])
    ensures IsIdentStart(Current(lx)) ==> lx.pos < r.1.pos
    ensures r.0.lexeme == Consumed(lx, r.1)
    ensures r.0.kind == LookupKeyword(r.0.lexeme)
    ensures r.0.line == lx.line && r.0.column == lx.column && r.0.value == NoValue
  {
    var e := AdvanceWhile(lx, IsIdentChar);
    var lexeme := lx.source[lx.pos..e.pos];
    (CreateToken(LookupKeyword(lexeme), lexeme, lx.line, lx.column), e)
  }

  // ---------------------------------------------------------------------------
  // Numbers
  // ---------------------------------------------------------------------------

  /** The value of a decimal or hexadecimal digit. */
  function DigitValue(c: char): (v: nat)
    requires IsHexDigit(c)
    ensures v < 16
    ensures IsDigit(c) ==> v < 10
  {
    if IsDigit(c) then c as int - '0' as int
    else if 'a' <= c <= 'f' then c as int - 'a' as int + 10
    else c as int - 'A' as int + 10
  }

  /** The value of a digit string in the given base (what atoll and strtoll compute, unbounded). */
  function DigitsValue(s: string, base: nat): nat
    requires forall i :: 0 <= i < |s| ==> IsHexDigit(s[i])
  {
    if |s| == 0 then 0 else DigitsValue(s[..|s| - 1], base) * base + DigitValue(s[|s| - 1])
  }

  /** The cursor stands on `0x` or `0X`. */
  predicate AtHexPrefix(lx: Lexer)
    requires WellFormed(lx)
  {
    Current(lx) == '0' && (Peek(lx) == 'x' || Peek(lx) == 'X')
  }

  /** s[i..e] is a maximal run of digits: every character a digit, and none follows it. */
  predicate DigitRunTo(s: string, i: nat, e: nat)
  {
    && i <= e <= |s|
    && (forall k :: i <= k < e ==> IsDigit(s[k]))
    && (e == |s| || !IsDigit(s[e]))
  }

  /** The end of the maximal run of digits that starts at offset i. */
  function DigitRunEnd(s: string, i: nat): (e: nat)
    requires i <= |s|
    decreases |s| - i
    ensures DigitRunTo(s, i, e)
  {
    if i < |s| && IsDigit(s[i]) then DigitRunEnd(s, i + 1) else i
  }

  /** A maximal run of digits has one end. */
  lemma DigitRunUnique(s: string, i: nat, e1: nat, e2: nat)
    requires DigitRunTo(s, i, e1) && DigitRunTo(s, i, e2)
    ensures e1 == e2
  {
  }

  /** Where the optional fraction that may start at offset a ends: after the digits when a digit follows a `.` there. */
  function FractionEnd(s: string, a: nat): (b: nat)
    requires a <= |s|
    ensures a <= b <= |s|
  {
    if a + 1 < |s| && s[a] == '.' && IsDigit(s[a + 1]) then DigitRunEnd(s, a + 1) else a
  }

  /**
   * Where the optional exponent that may start at offset b ends: at an `e` or `E`, after the
   * marker, an optional `+` or `-` and the digits that follow.
   */
  function ExponentEnd(s: string, b: nat): (e: nat)
    requires b <= |s|
    ensures b <= e <= |s|
  {
    if b < |s| && (s[b] == 'e' || s[b] == 'E') then
      DigitRunEnd(s, if b + 1 < |s| && (s[b + 1] == '+' || s[b + 1] == '-') then b + 2 else b + 1)
    else b
  }

  /** Where a decimal literal that starts at offset p ends: its digits, fraction and exponent, stated on offsets alone. */
  function DecimalEnd(s: string, p: nat): (e: nat)
    requires p <= |s|
    ensures p <= e <= |s|
  {
    ExponentEnd(s, FractionEnd(s, DigitRunEnd(s, p)))
  }

  /** The optional fraction of a decimal literal: `.` is taken only when a digit follows it. */
  function ReadFraction(lx: Lexer): (r: (Lexer, bool))
    requires WellFormed(lx)
    ensures ReadsOn(lx, r.0)
    ensures r.1 <==> Current(lx) == '.' && IsDigit(Peek(lx))
    ensures !r.1 ==> r.0 == lx
    ensures r.1 ==> lx.pos + 2 <= r.0.pos && DigitRunTo(lx.source, lx.pos + 1, r.0.pos)
  {
    if Current(lx) == '.' && IsDigit(Peek(lx)) then (AdvanceWhile(Advance(lx), IsDigit), true)
    else (lx, false)
  }

  /**
   * The optional exponent of a decimal literal: `e` or `E`, an optional sign, and a run of
   * digits that may be empty.
   */
  function ReadExponent(lx: Lexer): (r: (Lexer, bool))
    requires WellFormed(lx)
    ensures ReadsOn(lx, r.0)
    ensures r.1 <==> Current(lx) == 'e' || Current(lx) == 'E'
    ensures !r.1 ==> r.0 == lx
    ensures r.1 ==> lx.pos < r.0.pos
    ensures r.1 ==> DigitRunTo(lx.source, if Peek(lx) == '+' || Peek(lx) == '-' then lx.pos + 2 else lx.pos + 1, r.0.pos)
  {
    if Current(lx) == 'e' || Current(lx) == 'E' then
      var a := Advance(lx);
      var b := if Current(a) == '+' || Current(a) == '-' then Advance(a) else a;
      assert Current(a) == Peek(lx);
      (AdvanceWhile(b, IsDigit), true)
    else (lx, false)
  }

  /** A character that makes a decimal literal a floating constant. */
  predicate IsFloatMark(c: char)
  {
    c == '.' || c == 'e' || c == 'E'
  }

  /** The hexadecimal branch of read_number: `0x`/`0X` and a possibly empty run of hex digits. */
  function ReadHexNumber(lx: Lexer): (r: (Token, Lexer))
    requires WellFormed(lx) && AtHexPrefix(lx)
    ensures ReadsOn(lx, r.1)
    ensures lx.pos + 2 <= r.1.pos
    ensures forall k :: lx.pos + 2 <= k < r.1.pos ==> IsHexDigit(lx.source[k])
    ensures r.1.pos == |lx.source| || !IsHexDigit(lx.source[r.1.pos])
    ensures r.0 == Token(IntConst, Consumed(lx, r.1), lx.line, lx.column,
                         IntValue(DigitsValue(Consumed(lx, r.1)[2..], 16)))
  {
    var e := AdvanceWhile(Advance(Advance(lx)), IsHexDigit);
    (Token(IntConst, lx.source[lx.pos..e.pos], lx.line, lx.column, IntValue(DigitsValue(lx.source[lx.pos + 2..e.pos], 16))), e)
  }

  /**
   * The decimal branch of read_number: digits, then a fraction and an exponent. A fraction
   * or an exponent makes a floating constant; otherwise the token is an integer constant
   * holding the base-10 value of its digits.
   */
  function ReadDecimalNumber(lx: Lexer): (r: (Token, Lexer))
    requires WellFormed(lx)
    ensures ReadsOn(lx, r.1)
    ensures IsDigit(Current(lx)) ==> lx.pos < r.1.pos
    ensures r.0.lexeme == Consumed(lx, r.1)
    ensures r.0.line == lx.line && r.0.column == lx.column
    ensures r.0.kind == IntConst || r.0.kind == DoubleConst
    ensures r.0.kind == DoubleConst <==> exists k :: lx.pos <= k < r.1.pos && IsFloatMark(lx.source[k])
    ensures r.0.kind == DoubleConst ==> r.0.value == NoValue
    ensures r.0.kind == IntConst ==>
      && (forall k :: lx.pos <= k < r.1.pos ==> IsDigit(lx.source[k]))
      && (r.1.pos == |lx.source| || !IsDigit(lx.source[r.1.pos]))
      && r.0.value == IntValue(DigitsValue(r.0.lexeme, 10))
    ensures r.1.pos == DecimalEnd(lx.source, lx.pos)
  {
    var a := AdvanceWhile(lx, IsDigit);
    var (b, fraction) := ReadFraction(a);
    var (e, exponent) := ReadExponent(b);
    var lexeme := lx.source[lx.pos..e.pos];
    DecimalShape(lx);
    DecimalExtent(lx);
    if fraction || exponent then
      (CreateToken(DoubleConst, lexeme, lx.line, lx.column), e)
    else
      (Token(IntConst, lexeme, lx.line, lx.column, IntValue(DigitsValue(lexeme, 10))), e)
  }

  /**
   * The parts of a decimal literal: a fraction or an exponent is present exactly when the
   * text read holds a `.`, `e` or `E`; without either the text is the leading digits alone.
   */
  lemma DecimalShape(lx: Lexer)
    requires WellFormed(lx)
    ensures var a := AdvanceWhile(lx, IsDigit);
      var (b, fraction) := ReadFraction(a);
      var (e, exponent) := ReadExponent(b);
      && (fraction || exponent <==> exists k :: lx.pos <= k < e.pos && IsFloatMark(lx.source[k]))
      && (!fraction && !exponent ==> e == a)
  {
    var a := AdvanceWhile(lx, IsDigit);
    var (b, fraction) := ReadFraction(a);
    var (e, exponent) := ReadExponent(b);
    if fraction || exponent {
      assert IsFloatMark(lx.source[a.pos]);
    }
  }

  /** The three loops of the decimal branch stop where DecimalEnd says. */
  lemma DecimalExtent(lx: Lexer)
    requires WellFormed(lx)
    ensures var a := AdvanceWhile(lx, IsDigit);
      ReadExponent(ReadFraction(a).0).0.pos == DecimalEnd(lx.source, lx.pos)
  {
    var a := AdvanceWhile(lx, IsDigit);
    DigitRunUnique(lx.source, lx.pos, a.pos, DigitRunEnd(lx.source, lx.pos));
    FractionExtent(a);
    ExponentExtent(ReadFraction(a).0);
  }

  /** ReadFraction stops at FractionEnd. */
  lemma FractionExtent(a: Lexer)
    requires WellFormed(a)
    ensures ReadFraction(a).0.pos == FractionEnd(a.source, a.pos)
  {
    var (b, fraction) := ReadFraction(a);
    if fraction {
      DigitRunUnique(a.source, a.pos + 1, b.pos, DigitRunEnd(a.source, a.pos + 1));
    }
  }

  /** ReadExponent stops at ExponentEnd. */
  lemma ExponentExtent(b: Lexer)
    requires WellFormed(b)
    ensures ReadExponent(b).0.pos == ExponentEnd(b.source, b.pos)
  {
    var (e, exponent) := ReadExponent(b);
    if exponent {
      var q := if Peek(b) == '+' || Peek(b) == '-' then b.pos + 2 else b.pos + 1;
      DigitRunUnique(b.source, q, e.pos, DigitRunEnd(b.source, q));
    }
  }

  /**
   * read_number: the hexadecimal branch after `0x`/`0X`, the decimal branch otherwise. The
   * lexeme is the text consumed and the position that of its first character.
   */
  function ReadNumber(lx: Lexer): (r: (Token, Lexer))
    requires WellFormed(lx)
    ensures ReadsOn(lx, r.1)
    ensures IsDigit(Current(lx)) ==> lx.pos < r.1.pos
    ensures r.0.lexeme == Consumed(lx, r.1)
    ensures r.0.line == lx.line && r.0.column == lx.column
    ensures AtHexPrefix(lx) ==> r == ReadHexNumber(lx)
    ensures !AtHexPrefix(lx) ==> r == ReadDecimalNumber(lx)
  {
    if AtHexPrefix(lx) then ReadHexNumber(lx) else ReadDecimalNumber(lx)
  }

  // ---------------------------------------------------------------------------
  // String literals
  // ---------------------------------------------------------------------------

  /** Diagnostic of an unterminated string literal. */
  const UnterminatedString: string := "未结束的字符串"

  /** Diagnostic of an unterminated character literal. */
  const UnterminatedChar: string := "未结束的字符常量"

  /** Diagnostic of a character that starts no token. */
  function IllegalCharacter(c: char): string
  {
    "非法字符: '" + [c] + "'"
  }

  /**
   * The text between the quotes of a string literal: characters other than `"` and `\`,
   * and escape pairs of a backslash and any character.
   */
  predicate IsStringBody(s: string)
    decreases |s|
  {
    if |s| == 0 then true
    else if s[0] == '"' then false
    else if s[0] == '\\' then |s| >= 2 && IsStringBody(s[2..])
    else IsStringBody(s[1..])
  }

  /** The loop of read_string: reads a string body until a closing quote or the end of the text. */
  function StringRest(lx: Lexer): (r: Lexer)
    requires WellFormed(lx)
    decreases |lx.source| - lx.pos
    ensures ReadsOn(lx, r)
    ensures r.pos < |lx.source| ==> lx.source[r.pos] == '"' && IsStringBody(Consumed(lx, r))
    ensures r.pos == |lx.source| ==>
      forall k :: lx.pos <= k < |lx.source| && lx.source[k] == '"' ==> !IsStringBody(lx.source[lx.pos..k])
  {
    if lx.pos == |lx.source| || Current(lx) == '"' then
      assert lx.source[lx.pos..lx.pos] == [];
      lx
    else
      var next := if Current(lx) == '\\' && lx.pos + 1 < |lx.source| then Advance(Advance(lx)) else Advance(lx);
      var r := StringRest(next);
      StringRestStep(lx.source, lx.pos, next.pos, r.pos);
      r
  }

  /** The contract of StringRest carries over one body character or escape pair read from p. */
  lemma StringRestStep(s: string, p: nat, np: nat, e: nat)
    requires p < |s| && s[p] != '"'
    requires np == (if s[p] == '\\' && p + 1 < |s| then p + 2 else p + 1)
    requires np <= e <= |s|
    requires e < |s| ==> s[e] == '"' && IsStringBody(s[np..e])
    requires e == |s| ==> forall k :: np <= k < |s| && s[k] == '"' ==> !IsStringBody(s[np..k])
    ensures e < |s| ==> IsStringBody(s[p..e])
    ensures e == |s| ==> forall k :: p <= k < |s| && s[k] == '"' ==> !IsStringBody(s[p..k])
  {
    if e < |s| {
      StringBodyUnfold(s, p, e);
    } else {
      forall k | p <= k < |s| && s[k] == '"'
        ensures !IsStringBody(s[p..k])
      {
        if k > p {
          StringBodyUnfold(s, p, k);
        }
      }
    }
  }

  /** One step of IsStringBody on a slice of the text. */
  lemma StringBodyUnfold(s: string, p: nat, k: nat)
    requires p < k <= |s|
    ensures IsStringBody(s[p..k]) <==>
      && s[p] != '"'
      && if s[p] == '\\' then p + 2 <= k && IsStringBody(s[p + 2..k]) else IsStringBody(s[p + 1..k])
  {
    var t := s[p..k];
    assert t[0] == s[p];
    if p + 2 <= k {
      assert t[2..] == s[p + 2..k];
    }
    assert t[1..] == s[p + 1..k];
  }

  /**
   * read_string: a string literal is the opening quote, a string body and the closing
   * quote, and its lexeme keeps both quotes. Reaching the end of the text first yields an
   * error token at the opening quote.
   */
  function ReadString(lx: Lexer): (r: (Token, Lexer))
    requires WellFormed(lx)
    ensures ReadsOn(lx, r.1)
    ensures Current(lx) == '"' ==> lx.pos < r.1.pos
    ensures r.0.line == lx.line && r.0.column == lx.column && r.0.value == NoValue
    ensures r.0.kind == StringConst || r.0.kind == Error
    ensures r.0.kind == StringConst ==>
      r.0.lexeme == Consumed(lx, r.1) && ClosedStringAt(lx.source, lx.pos, r.1.pos)
    ensures r.0.kind == Error ==>
      && r.0.lexeme == UnterminatedString
      && r.1.pos == |lx.source|
      && forall k :: lx.pos < k < |lx.source| && lx.source[k] == '"' ==> !IsStringBody(lx.source[lx.pos + 1..k])
  {
    var a := StringRest(Advance(lx));
    if Current(a) != '"' then
      NoClosingQuote(lx, a);
      (CreateToken(Error, UnterminatedString, lx.line, lx.column), a)
    else
      var e := Advance(a);
      ClosingQuote(lx, a);
      (CreateToken(StringConst, lx.source[lx.pos..e.pos], lx.line, lx.column), e)
  }

  /** After the opening quote at p, s[p + 1..e - 1] is a string body closed by the quote at e - 1. */
  predicate ClosedStringAt(s: string, p: nat, e: nat)
  {
    p + 2 <= e <= |s| && s[e - 1] == '"' && IsStringBody(s[p + 1..e - 1])
  }

  /** Where the scan of a string body stops at a quote, that quote closes the string. */
  lemma ClosingQuote(lx: Lexer, a: Lexer)
    requires WellFormed(lx) && a == StringRest(Advance(lx)) && Current(a) == '"'
    ensures var e := Advance(a);
      && lx.pos + 2 <= e.pos && ReadsOn(lx, e) && ClosedStringAt(lx.source, lx.pos, e.pos)
  {
  }

  /** Where the scan of a string body runs off the text, no later quote closes the string. */
  lemma NoClosingQuote(lx: Lexer, a: Lexer)
    requires WellFormed(lx) && a == StringRest(Advance(lx)) && Current(a) != '"'
    ensures ReadsOn(lx, a) && a.pos == |lx.source|
    ensures forall k :: lx.pos < k < |lx.source| && lx.source[k] == '"' ==> !IsStringBody(lx.source[lx.pos + 1..k])
  {
  }

  // ---------------------------------------------------------------------------
  // Character literals
  // ---------------------------------------------------------------------------

  /** The character an escape `\c` denotes; an unlisted c stands for itself. */
  function Unescape(c: char): char
  {
    match c
    case 'n' => '\n'
    case 't' => '\t'
    case 'r' => '\r'
    case '\\' => '\\'
    case '\'' => '\''
    case '0' => '\0'
    case _ => c
  }

  /**
   * s is a complete character literal denoting v: the empty literal `''` (NUL), a quoted
   * character other than a backslash or quote, or a quoted escape.
   */
  predicate CharLiteralDenotes(s: string, v: char)
  {
    || (|s| == 2 && s[0] == '\'' && s[1] == '\'' && v == '\0')
    || (|s| == 3 && s[0] == '\'' && s[1] != '\\' && s[1] != '\'' && s[2] == '\'' && v == s[1])
    || (|s| == 4 && s[0] == '\'' && s[1] == '\\' && s[3] == '\'' && v == Unescape(s[2]))
  }

  /** A complete character literal of n characters, denoting v, starts at offset p of s. */
  predicate CharLiteralAt(s: string, p: nat, n: nat, v: char)
  {
    p + n <= |s| && CharLiteralDenotes(s[p..p + n], v)
  }

  /**
   * The part of read_char after the opening quote: an escape pair, one ordinary character,
   * or nothing (before a quote or at the end); with the character it denotes.
   */
  function CharBody(a: Lexer): (r: (Lexer, char))
    requires WellFormed(a)
    ensures ReadsOn(a, r.0)
    ensures a.pos < |a.source| && a.source[a.pos] == '\\' ==>
      r.0.pos == Min(a.pos + 2, |a.source|) && r.1 == Unescape(Current(Advance(a)))
    ensures a.pos < |a.source| && a.source[a.pos] != '\\' && a.source[a.pos] != '\'' ==>
      r.0.pos == a.pos + 1 && r.1 == a.source[a.pos]
    ensures (a.pos == |a.source| || a.source[a.pos] == '\'') ==> r.0 == a && r.1 == '\0'
  {
    if Current(a) == '\\' then
      var e := Advance(a);
      (Advance(e), Unescape(Current(e)))
    else if a.pos < |a.source| && Current(a) != '\'' then
      (Advance(a), Current(a))
    else
      (a, '\0')
  }

  /** No complete character literal starts at a quote whose three possible closers are all missing. */
  lemma NoCharLiteralAt(s: string, p: nat)
    requires p < |s| && s[p] == '\''
    requires !(p + 1 < |s| && s[p + 1] == '\'')
    requires !(p + 2 < |s| && s[p + 1] != '\\' && s[p + 2] == '\'')
    requires !(p + 3 < |s| && s[p + 1] == '\\' && s[p + 3] == '\'')
    ensures forall n, v :: !CharLiteralAt(s, p, n, v)
  {
    forall n, v ensures !CharLiteralAt(s, p, n, v) {
      if p + n <= |s| {
        var t := s[p..p + n];
        assert |t| == n;
        assert n >= 2 ==> t[1] == s[p + 1];
        assert n >= 3 ==> t[2] == s[p + 2];
        assert n >= 4 ==> t[3] == s[p + 3];
      }
    }
  }

  /**
   * Where the body of a character literal that starts at offset q ends: past an escape pair
   * (or at the end of the text), past one ordinary character, or at q itself before a quote
   * or at the end.
   */
  function CharBodyEnd(s: string, q: nat): nat
    requires q <= |s|
  {
    if q < |s| && s[q] == '\\' then Min(q + 2, |s|)
    else if q < |s| && s[q] != '\'' then q + 1
    else q
  }

  /**
   * read_char, called at an opening quote: a complete character literal there yields a
   * character constant with the quoted text as lexeme and the denoted character as value;
   * otherwise an error token at the opening quote, and no complete literal starts there.
   */
  function ReadChar(lx: Lexer): (r: (Token, Lexer))
    requires WellFormed(lx) && lx.pos < |lx.source| && lx.source[lx.pos] == '\''
    ensures ReadsOn(lx, r.1)
    ensures lx.pos < r.1.pos
    ensures r.0.line == lx.line && r.0.column == lx.column
    ensures r.0.kind == CharConst || r.0.kind == Error
    ensures r.0.kind == CharConst ==>
      && r.0.lexeme == Consumed(lx, r.1)
      && r.0.value.CharValue?
      && CharLiteralAt(lx.source, lx.pos, r.1.pos - lx.pos, r.0.value.c)
    ensures r.0.kind == Error ==>
      && r.0.lexeme == UnterminatedChar && r.0.value == NoValue
      && (forall n, v :: !CharLiteralAt(lx.source, lx.pos, n, v))
      && r.1.pos == CharBodyEnd(lx.source, lx.pos + 1)
    ensures r.0.kind == CharConst ==> r.1.pos == CharBodyEnd(lx.source, lx.pos + 1) + 1
  {
    var a := Advance(lx);
    var (b, v) := CharBody(a);
    if Current(b) != '\'' then
      NoCharLiteralAt(lx.source, lx.pos);
      (CreateToken(Error, UnterminatedChar, lx.line, lx.column), b)
    else
      var e := Advance(b);
      CharLiteralFound(lx, b, v);
      (Token(CharConst, lx.source[lx.pos..e.pos], lx.line, lx.column, CharValue(v)), e)
  }

  /** Where the body of a character literal is followed by a quote, the literal is complete. */
  lemma CharLiteralFound(lx: Lexer, b: Lexer, v: char)
    requires WellFormed(lx) && lx.pos < |lx.source| && lx.source[lx.pos] == '\''
    requires (b, v) == CharBody(Advance(lx)) && Current(b) == '\''
    ensures var e := Advance(b);
      && lx.pos < e.pos && ReadsOn(lx, e) && CharLiteralAt(lx.source, lx.pos, e.pos - lx.pos, v)
  {
    var e := Advance(b);
    var lexeme := lx.source[lx.pos..e.pos];
    assert |lexeme| >= 2 ==> lexeme[1] == lx.source[lx.pos + 1];
    assert |lexeme| >= 3 ==> lexeme[2] == lx.source[lx.pos + 2];
  }

  // ---------------------------------------------------------------------------
  // Operators, delimiters and the token dispatcher
  // ---------------------------------------------------------------------------

  /** The two-character operators, tried before the one-character ones. */
  function TwoCharOperator(c: char, next: char): Option<TokenType>
  {
    if c == '=' && next == '=' then Some(Eq)
    else if c == '!' && next == '=' then Some(Ne)
    else if c == '<' && next == '=' then Some(Le)
    else if c == '>' && next == '=' then Some(Ge)
    else if c == '&' && next == '&' then Some(And)
    else if c == '|' && next == '|' then Some(Or)
    else None
  }

  /** The one-character operators and delimiters. */
  function SingleCharOperator(c: char): Option<TokenType>
  {
    match c
    case '+' => Some(Plus)
    case '-' => Some(Minus)
    case '*' => Some(Multiply)
    case '/' => Some(Divide)
    case '%' => Some(Modulo)
    case '=' => Some(Assign)
    case '<' => Some(Lt)
    case '>' => Some(Gt)
    case '!' => Some(Not)
    case ';' => Some(Semicolon)
    case ',' => Some(Comma)
    case '(' => Some(LParen)
    case ')' => Some(RParen)
    case '{' => Some(LBrace)
    case '}' => Some(RBrace)
    case '[' => Some(LBracket)
    case ']' => Some(RBracket)
    case _ => None
  }

  /** Reads one operator, delimiter or illegal character at the cursor. */
  function ReadOperator(lx: Lexer): (r: (Token, Lexer))
    requires WellFormed(lx) && lx.pos < |lx.source|
    ensures ReadsOn(lx, r.1)
    ensures r.0.line == lx.line && r.0.column == lx.column && r.0.value == NoValue
    ensures TwoCharOperator(Current(lx), Peek(lx)).Some? ==>
      r.0.kind == TwoCharOperator(Current(lx), Peek(lx)).value
      && r.1.pos == lx.pos + 2 && r.0.lexeme == lx.source[lx.pos..lx.pos + 2]
    ensures TwoCharOperator(Current(lx), Peek(lx)).None? && SingleCharOperator(Current(lx)).Some? ==>
      r.0.kind == SingleCharOperator(Current(lx)).value
      && r.1.pos == lx.pos + 1 && r.0.lexeme == lx.source[lx.pos..lx.pos + 1]
    ensures TwoCharOperator(Current(lx), Peek(lx)).None? && SingleCharOperator(Current(lx)).None? ==>
      r.0.kind == Error && r.1.pos == lx.pos + 1 && r.0.lexeme == IllegalCharacter(Current(lx))
  {
    var c := Current(lx);
    var next := Peek(lx);
    match TwoCharOperator(c, next)
    case Some(kind) =>
      assert lx.source[lx.pos..lx.pos + 2][0] == c && lx.source[lx.pos..lx.pos + 2][1] == next;
      assert lx.source[lx.pos..lx.pos + 2] == [c, next];
      (CreateToken(kind, [c, next], lx.line, lx.column), Advance(Advance(lx)))
    case None =>
      match SingleCharOperator(c)
      case Some(kind) =>
        assert lx.source[lx.pos..lx.pos + 1][0] == c;
        assert lx.source[lx.pos..lx.pos + 1] == [c];
        (CreateToken(kind, [c], lx.line, lx.column), Advance(lx))
      case None => (CreateToken(Error, IllegalCharacter(c), lx.line, lx.column), Advance(lx))
  }

  /** The dispatch of get_next_token once the cursor stands on the first character of a token. */
  function Scan(lx: Lexer): (r: (Token, Lexer))
    requires WellFormed(lx) && lx.pos < |lx.source|
    ensures ReadsOn(lx, r.1)
    ensures lx.pos < r.1.pos
    ensures r.0.line == lx.line && r.0.column == lx.column
    ensures r.0.kind != Eof
    ensures r.0.kind != Error ==> r.0.lexeme == Consumed(lx, r.1)
  {
    var c := Current(lx);
    if IsIdentStart(c) then ReadIdentifier(lx)
    else if IsDigit(c) then ReadNumber(lx)
    else if c == '"' then ReadString(lx)
    else if c == '\'' then ReadChar(lx)
    else ReadOperator(lx)
  }

  /**
   * get_next_token: skips white space and comments, then reads one token. At the end of
   * the text it yields an end-of-file token at the cursor's position without moving.
   */
  function NextToken(lx: Lexer): (r: (Token, Lexer))
    requires WellFormed(lx)
    ensures ReadsOn(lx, r.1)
    ensures r.0.kind != Eof ==> lx.pos < r.1.pos
    ensures lx.pos == |lx.source| ==> r == (CreateToken(Eof, "", lx.line, lx.column), lx)
  {
    var start := SkipTrivia(lx);
    if start.pos == |start.source| then (CreateToken(Eof, "", start.line, start.column), start)
    else Scan(start)
  }

  /**
   * The token get_next_token answers stands where skipping white space and comments
   * stopped; it is the end-of-file token exactly when that is the end of the text, and
   * otherwise it consumes at least one character, its lexeme being the text consumed
   * unless it is an error token.
   */
  lemma NextTokenAfterTrivia(lx: Lexer)
    requires WellFormed(lx)
    ensures var start := SkipTrivia(lx);
      var r := NextToken(lx);
      && r.0.line == start.line && r.0.column == start.column
      && (r.0.kind == Eof <==> start.pos == |lx.source|)
      && (r.0.kind == Eof ==> r.1 == start && r.0.lexeme == "")
      && (r.0.kind != Eof ==> start.pos < r.1.pos)
      && (r.0.kind != Eof && r.0.kind != Error ==> r.0.lexeme == lx.source[start.pos..r.1.pos])
  {
  }

  // ---------------------------------------------------------------------------
  // Driver
  // ---------------------------------------------------------------------------

  /** The tokens that successive get_next_token calls yield from lx on, through the first end-of-file token. */
  function TokenStream(lx: Lexer): (ts: seq<Token>)
    requires WellFormed(lx)
    decreases |lx.source| - lx.pos
    ensures 1 <= |ts|
  {
    var step := NextToken(lx);
    if step.0.kind == Eof then [step.0] else [step.0] + TokenStream(step.1)
  }

  /** ts ends with an end-of-file token, and no token before it is one. */
  predicate EofOnlyAtEnd(ts: seq<Token>)
  {
    1 <= |ts| && ts[|ts| - 1].kind == Eof && forall i :: 0 <= i < |ts| - 1 ==> ts[i].kind != Eof
  }

  /**
   * The stream ends with its only end-of-file token, and it holds at most one token per
   * character left plus that end-of-file token: every other call consumes text.
   */
  lemma {:induction false} TokenStreamShape(lx: Lexer)
    requires WellFormed(lx)
    decreases |lx.source| - lx.pos
    ensures EofOnlyAtEnd(TokenStream(lx))
    ensures |TokenStream(lx)| <= |lx.source| - lx.pos + 1
  {
    var step := NextToken(lx);
    TokenStreamUnfold(lx);
    if step.0.kind != Eof {
      TokenStreamShape(step.1);
      EofOnlyLast(step.0, TokenStream(step.1));
    }
  }

  /** The first call of get_next_token gives the stream's head; unless it is end-of-file, the rest follows from its cursor. */
  lemma TokenStreamUnfold(lx: Lexer)
    requires WellFormed(lx)
    ensures var step := NextToken(lx);
      && (step.0.kind == Eof ==> TokenStream(lx) == [step.0])
      && (step.0.kind != Eof ==> lx.pos < step.1.pos && TokenStream(lx) == [step.0] + TokenStream(step.1))
  {
  }

  /** A token other than end-of-file in front of a stream closed by its only end-of-file token keeps it so. */
  lemma EofOnlyLast(t: Token, rest: seq<Token>)
    requires t.kind != Eof && EofOnlyAtEnd(rest)
    ensures EofOnlyAtEnd([t] + rest)
  {
    var ts := [t] + rest;
    forall i | 1 <= i < |ts| - 1
      ensures ts[i].kind != Eof
    {
      assert ts[i] == rest[i - 1];
    }
  }

  /** One more call of get_next_token moves its token from the stream still to come to the tokens collected. */
  lemma TokenStreamStep(ts: seq<Token>, cur: Lexer)
    requires WellFormed(cur)
    ensures var step := NextToken(cur);
      ts + TokenStream(cur) == (ts + [step.0]) + (if step.0.kind == Eof then [] else TokenStream(step.1))
  {
    TokenStreamUnfold(cur);
  }

  /**
   * The driver loop: get_next_token is called until it answers an end-of-file token, which
   * closes the stream; error tokens are kept and scanning goes on.
   */
  method Tokenize(lx: Lexer) returns (ts: seq<Token>)
    requires WellFormed(lx)
    ensures ts == TokenStream(lx)
    ensures 1 <= |ts| <= |lx.source| - lx.pos + 1
    ensures ts[|ts| - 1].kind == Eof
    ensures forall i :: 0 <= i < |ts| - 1 ==> ts[i].kind != Eof
  {
    var cur := lx;
    ts := [];
    while true
      invariant WellFormed(cur) && cur.source == lx.source
      invariant ts + TokenStream(cur) == TokenStream(lx)
      decreases |lx.source| - cur.pos
    {
      var step := NextToken(cur);
      TokenStreamStep(ts, cur);
      ts := ts + [step.0];
      if step.0.kind == Eof {
        TokenStreamShape(lx);
        return;
      }
      cur := step.1;
    }
  }
}
