/**
 * Token kinds, tokens and the keyword table of the C0 scanner (token.h, token.c).
 */
module Tokens {
  import opened Wrappers

  /** The token kinds, in the order of the C enumeration TokenType. */
  datatype TokenType =
    // keywords
    | Const | Int | Double | Char | Void | If | Else | While | For | Return | Break | Continue | Struct
    // identifiers and constants
    | Identifier | IntConst | DoubleConst | CharConst | StringConst
    // operators
    | Plus | Minus | Multiply | Divide | Modulo | Assign | Eq | Ne | Lt | Le | Gt | Ge | And | Or | Not
    // delimiters
    | Semicolon | Comma | LParen | RParen | LBrace | RBrace | LBracket | RBracket
    // special tokens
    | Eof | Error

  /** The name printed for each enumerator (the arms of the switch in token_type_to_string). */
  function KindName(t: TokenType): string
  {
    match t
    case Const => "CONST" case Int => "INT" case Double => "DOUBLE" case Char => "CHAR"
    case Void => "VOID" case If => "IF" case Else => "ELSE" case While => "WHILE"
    case For => "FOR" case Return => "RETURN" case Break => "BREAK"
    case Continue => "CONTINUE" case Struct => "STRUCT"
    case Identifier => "IDENTIFIER" case IntConst => "INT_CONST"
    case DoubleConst => "DOUBLE_CONST" case CharConst => "CHAR_CONST"
    case StringConst => "STRING_CONST"
    case Plus => "PLUS" case Minus => "MINUS" case Multiply => "MULTIPLY"
    case Divide => "DIVIDE" case Modulo => "MODULO" case Assign => "ASSIGN"
    case Eq => "EQ" case Ne => "NE" case Lt => "LT" case Le => "LE" case Gt => "GT"
    case Ge => "GE" case And => "AND" case Or => "OR" case Not => "NOT"
    case Semicolon => "SEMICOLON" case Comma => "COMMA" case LParen => "LPAREN"
    case RParen => "RPAREN" case LBrace => "LBRACE" case RBrace => "RBRACE"
    case LBracket => "LBRACKET" case RBracket => "RBRACKET"
    case Eof => "EOF" case Error => "ERROR"
  }

  /**
   * token_type_to_string: the printed name of a kind. The C switch also has a default arm
   * returning "UNKNOWN" for integers outside the enumeration; a TokenType value here is
   * always one of the enumerators, so that arm is never taken.
   */
  function TokenTypeToString(t: TokenType): string
  {
    KindName(t)
  }

  /** Reads a printed kind name back, dispatching on its first letter; the inverse of KindName. */
  function ParseKindName(s: string): Option<TokenType>
  {
    if |s| == 0 then None
    else match s[0]
      case 'A' => if s == "AND" then Some(And) else if s == "ASSIGN" then Some(Assign) else None
      case 'B' => if s == "BREAK" then Some(Break) else None
      case 'C' =>
        if s == "CONST" then Some(Const) else if s == "CHAR" then Some(Char)
        else if s == "CONTINUE" then Some(Continue) else if s == "CHAR_CONST" then Some(CharConst)
        else if s == "COMMA" then Some(Comma) else None
      case 'D' =>
        if s == "DOUBLE" then Some(Double) else if s == "DOUBLE_CONST" then Some(DoubleConst)
        else if s == "DIVIDE" then Some(Divide) else None
      case 'E' =>
        if s == "ELSE" then Some(Else) else if s == "EQ" then Some(Eq)
        else if s == "EOF" then Some(Eof) else if s == "ERROR" then Some(Error) else None
      case 'F' => if s == "FOR" then Some(For) else None
      case 'G' => if s == "GT" then Some(Gt) else if s == "GE" then Some(Ge) else None
      case 'I' =>
        if s == "INT" then Some(Int) else if s == "IF" then Some(If)
        else if s == "IDENTIFIER" then Some(Identifier) else if s == "INT_CONST" then Some(IntConst)
        else None
      case 'L' =>
        if s == "LT" then Some(Lt) else if s == "LE" then Some(Le) else if s == "LPAREN" then Some(LParen)
        else if s == "LBRACE" then Some(LBrace) else if s == "LBRACKET" then Some(LBracket) else None
      case 'M' =>
        if s == "MINUS" then Some(Minus) else if s == "MULTIPLY" then Some(Multiply)
        else if s == "MODULO" then Some(Modulo) else None
      case 'N' => if s == "NE" then Some(Ne) else if s == "NOT" then Some(Not) else None
      case 'O' => if s == "OR" then Some(Or) else None
      case 'P' => if s == "PLUS" then Some(Plus) else None
      case 'R' =>
        if s == "RETURN" then Some(Return) else if s == "RPAREN" then Some(RParen)
        else if s == "RBRACE" then Some(RBrace) else if s == "RBRACKET" then Some(RBracket) else None
      case 'S' =>
        if s == "STRUCT" then Some(Struct) else if s == "STRING_CONST" then Some(StringConst)
        else if s == "SEMICOLON" then Some(Semicolon) else None
      case 'V' => if s == "VOID" then Some(Void) else None
      case 'W' => if s == "WHILE" then Some(While) else None
      case _ => None
  }

  /** Printed names read back to their kind, and "UNKNOWN" is no kind's name. */
  lemma KindNameRoundTrip(t: TokenType)
    ensures ParseKindName(KindName(t)) == Some(t)
    ensures KindName(t) != "UNKNOWN"
  {
    assert ParseKindName("UNKNOWN") == None;
    match t
    case Const | Int | Double | Char | Void | If | Else | While | For | Return | Break | Continue | Struct =>
      KeywordNamesRoundTrip(t);
    case Identifier | IntConst | DoubleConst | CharConst | StringConst | Eof | Error =>
      OperandNamesRoundTrip(t);
    case Plus | Minus | Multiply | Divide | Modulo | Assign | Eq | Ne | Lt | Le | Gt | Ge | And | Or | Not =>
      OperatorNamesRoundTrip(t);
    case Semicolon | Comma | LParen | RParen =>
      SeparatorNamesRoundTrip(t);
    case _ =>
      BracketNamesRoundTrip(t);
  }

  lemma KeywordNamesRoundTrip(t: TokenType)
    requires t.Const? || t.Int? || t.Double? || t.Char? || t.Void? || t.If? || t.Else?
          || t.While? || t.For? || t.Return? || t.Break? || t.Continue? || t.Struct?
    ensures ParseKindName(KindName(t)) == Some(t)
  {
  }

  lemma OperandNamesRoundTrip(t: TokenType)
    requires t.Identifier? || t.IntConst? || t.DoubleConst? || t.CharConst? || t.StringConst? || t.Eof? || t.Error?
    ensures ParseKindName(KindName(t)) == Some(t)
  {
  }

  lemma OperatorNamesRoundTrip(t: TokenType)
    requires t.Plus? || t.Minus? || t.Multiply? || t.Divide? || t.Modulo? || t.Assign? || t.Eq?
          || t.Ne? || t.Lt? || t.Le? || t.Gt? || t.Ge? || t.And? || t.Or? || t.Not?
    ensures ParseKindName(KindName(t)) == Some(t)
  {
  }

  lemma SeparatorNamesRoundTrip(t: TokenType)
    requires t.Semicolon? || t.Comma? || t.LParen? || t.RParen?
    ensures ParseKindName(KindName(t)) == Some(t)
  {
  }

  lemma BracketNamesRoundTrip(t: TokenType)
    requires t.LBrace? || t.RBrace? || t.LBracket? || t.RBracket?
    ensures ParseKindName(KindName(t)) == Some(t)
  {
  }

  /** token_type_to_string gives every kind its own name, and never answers "UNKNOWN". */
  lemma TokenTypeNamesDistinct(a: TokenType, b: TokenType)
    ensures TokenTypeToString(a) != "UNKNOWN"
    ensures a != b ==> TokenTypeToString(a) != TokenTypeToString(b)
  {
    KindNameRoundTrip(a);
    KindNameRoundTrip(b);
  }

  /** The keyword table: each reserved word with the kind it yields (token.h keywords[]). */
  const Keywords: seq<(string, TokenType)> := [
    ("const", Const), ("int", Int), ("double", Double), ("char", Char), ("void", Void),
    ("if", If), ("else", Else), ("while", While), ("for", For), ("return", Return),
    ("break", Break), ("continue", Continue), ("struct", Struct)
  ]

  /** The thirteen keyword kinds. */
  predicate IsKeywordKind(t: TokenType)
  {
    t in {Const, Int, Double, Char, Void, If, Else, While, For, Return, Break, Continue, Struct}
  }

  /** The table scan of lookup_keyword from entry i on; the scan stops at the NULL sentinel. */
  function LookupFrom(s: string, i: nat): (r: TokenType)
    requires i <= |Keywords|
    decreases |Keywords| - i
    ensures r == Identifier || IsKeywordKind(r)
    ensures r != Identifier ==> exists k :: i <= k < |Keywords| && Keywords[k] == (s, r)
    ensures r == Identifier ==> forall k :: i <= k < |Keywords| ==> Keywords[k].0 != s
  {
    if i == |Keywords| then Identifier
    else if s == Keywords[i].0 then Keywords[i].1
    else LookupFrom(s, i + 1)
  }

  /** lookup_keyword: the paired kind of a reserved word, TOKEN_IDENTIFIER for every other string. */
  function LookupKeyword(s: string): (r: TokenType)
    ensures r == Identifier || IsKeywordKind(r)
    ensures r != Eof
  {
    LookupFrom(s, 0)
  }

  /** The table's words are pairwise distinct. */
  lemma KeywordWordsDistinct()
    ensures forall i, j :: 0 <= i < j < |Keywords| ==> Keywords[i].0 != Keywords[j].0
  {
  }

  /** The table's kinds are exactly the keyword kinds. */
  lemma KeywordKindsCovered()
    ensures forall t :: IsKeywordKind(t) <==> exists i :: 0 <= i < |Keywords| && Keywords[i].1 == t
  {
    forall t | IsKeywordKind(t)
      ensures exists i :: 0 <= i < |Keywords| && Keywords[i].1 == t
    {
      match t
      case Const => assert Keywords[0].1 == t;
      case Int => assert Keywords[1].1 == t;
      case Double => assert Keywords[2].1 == t;
      case Char => assert Keywords[3].1 == t;
      case Void => assert Keywords[4].1 == t;
      case If => assert Keywords[5].1 == t;
      case Else => assert Keywords[6].1 == t;
      case While => assert Keywords[7].1 == t;
      case For => assert Keywords[8].1 == t;
      case Return => assert Keywords[9].1 == t;
      case Break => assert Keywords[10].1 == t;
      case Continue => assert Keywords[11].1 == t;
      case Struct => assert Keywords[12].1 == t;
    }
  }

  /**
   * lookup_keyword answers the paired kind for exactly the thirteen reserved words and
   * TOKEN_IDENTIFIER for every other string.
   */
  lemma LookupKeywordCorrect(s: string)
    ensures forall i :: 0 <= i < |Keywords| && Keywords[i].0 == s ==> LookupKeyword(s) == Keywords[i].1
    ensures LookupKeyword(s) == Identifier <==> forall i :: 0 <= i < |Keywords| ==> Keywords[i].0 != s
  {
    KeywordWordsDistinct();
  }

  /** Matching is exact and case-sensitive: a keyword in other case, or extended, is an identifier. */
  lemma KeywordMatchIsCaseSensitive()
    ensures LookupKeyword("Int") == Identifier
  {
    LookupKeywordCorrect("Int");
  }

  lemma KeywordMatchIsWholeWord()
    ensures LookupKeyword("int_") == Identifier
  {
    LookupKeywordCorrect("int_");
  }

  /** The decoded value a constant token carries; a floating value is not modelled. */
  datatype Literal = NoValue | IntValue(i: int) | CharValue(c: char)

  /** A token: kind, lexeme, and the line and column of its first character. */
  datatype Token = Token(kind: TokenType, lexeme: string, line: int, column: int, value: Literal)

  /** create_token: a token of the given kind, lexeme and position, with no decoded value. */
  function CreateToken(kind: TokenType, lexeme: string, line: int, column: int): (t: Token)
    ensures t.kind == kind && t.lexeme == lexeme && t.line == line && t.column == column
    ensures t.value == NoValue
  {
    Token(kind, lexeme, line, column, NoValue)
  }
}
