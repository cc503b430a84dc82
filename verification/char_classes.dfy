/**
 * The character classes an identifier is built from, shared by the scanner (lexer.c) and
 * the identifier automaton (nfa_dfa.c): the <ctype.h> predicates isalpha and isdigit on
 * ASCII, and the underscore.
 */
module CharClasses {
  predicate IsAlpha(c: char)
  {
    'a' <= c <= 'z' || 'A' <= c <= 'Z'
  }

  predicate IsDigit(c: char)
  {
    '0' <= c <= '9'
  }

  /** A character that may start an identifier: a letter or an underscore. */
  predicate IsIdentStart(c: char)
  {
    IsAlpha(c) || c == '_'
  }

  /** A character that may continue an identifier: a letter, a digit or an underscore. */
  predicate IsIdentChar(c: char)
  {
    IsAlpha(c) || IsDigit(c) || c == '_'
  }

  /** A letter or underscore followed by letters, digits and underscores. */
  predicate IsIdentifierText(w: string)
  {
    1 <= |w| && IsIdentStart(w[0]) && forall i :: 0 <= i < |w| ==> IsIdentChar(w[i])
  }
}
