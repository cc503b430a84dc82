# C0 scanner and automaton toolkit, in Dafny

This project models the two sequential cores of the C0 compiler front end:

- **The finite-automaton toolkit** (`nfa_dfa.c`) covers:
  - duplicate-free state sets (`state_set_contains`, `state_set_add`, `state_set_equal`, `find_state_set_index`);
  - the `move` operation and the ε-closure fixpoint;
  - the fixed NFA for identifiers, `letter(letter|digit)*`;
  - the subset construction `nfa_to_dfa` over the 63-symbol identifier alphabet;
  - the partition-refinement minimisation `minimize_dfa`.
- **The hand-written scanner** (`lexer.c`, plus `lookup_keyword`, `create_token` and `token_type_to_string` from `token.c`) works on a cursor `(source, pos, line, column)`:
  - `advance` and `peek`;
  - the white-space and comment skippers;
  - the readers for identifiers, numbers, strings, characters and operators;
  - the dispatcher `get_next_token`;
  - the tokenize-until-EOF loop of the driver.

## Modules

| file | module | models |
|---|---|---|
| `char_classes.dfy` | `CharClasses` | the ASCII letter, digit and identifier-character classes shared by the scanner and the identifier automaton |
| `wrappers.dfy` | `Wrappers` | `Option` and `Result`, the error path of operations that can fail |
| `tokens.dfy` | `Tokens` | `TokenType`, `Token`, the keyword table, `lookup_keyword`, `create_token`, `token_type_to_string` |
| `lexer.dfy` | `Scanner` | the cursor and every reader of `lexer.c`; `Tokenize` is the driver loop |
| `lexer_properties.dfy` | `LexerProperties` | round trips (text → token) for every reader, and concrete scenarios |
| `automata.dfy` | `Automata` | `MAX_STATES`, `MAX_ALPHABET`, `EPSILON`, NFA and DFA values, state lists, DFA runs |
| `state_sets.dfy` | `StateSets` | `state_set_contains/add/equal` and `find_state_set_index` |
| `nfa_ops.dfy` | `NfaOps` | `move` and `epsilon_closure`, with reference definitions |
| `identifier_nfa.dfy` | `IdentifierNfa` | `create_nfa_for_identifier` and its language |
| `subset.dfy` | `Subset` | `nfa_to_dfa` (worklist loop, capacity failure) |
| `subset_language.dfy` | `SubsetLanguage` | the language accepted by the DFA of `nfa_to_dfa` |
| `identifier_dfa.dfy` | `IdentifierDfa` | `show_minimized_dfa` of `main.c`: identifier NFA, subset construction, minimisation |
| `minimize.dfy` | `Minimize` | `minimize_dfa` (refinement rounds, fixpoint, construction of the class DFA) |

### Modelling choices

- **Values instead of pointers.** Every C structure becomes an immutable value.
  - A `StateSet` is the list `states[0 .. count-1]`, as a `seq<int>`.
  - A DFA transition table is a map from `(state, symbol)` to state. An absent key is the C table's `-1`.
  - A scanner call returns the token together with the advanced cursor.
- **`current_char` is derived.** The C lexer caches the current character. Here it is derived from `pos`, and it is NUL at the end of the text.
- **The text is the C string.** The source text stands for the `strlen` prefix of the C string. A text taken from a C string holds no NUL, but the model does not require that (see "Left out"). Character classes are the ASCII ones.
- **Capacity overflow in `nfa_to_dfa` is an error result.** The C writes past `dfa_states[MAX_STATES]` when a new subset is needed and all 100 slots are taken. The model returns `Failure(TooManyStates(found, from, symbol))` instead, naming the subsets found and the state and symbol whose new successor found no slot.
- **Worklist order.** The worklist is a stack, as in the C, so DFA states are numbered in LIFO discovery order. Only state 0 is fixed, as the closure of the NFA start state. The contract of `NfaToDfa` is therefore stated up to that numbering: each DFA state carries the NFA subset it stands for.
- **Minimisation.**
  - A state is split off when it is distinguishable from its class's first member, and then it always takes a fresh class of its own.
  - So the result is a partition that is stable and respects the final states, but it is not always the coarsest one.
  - Its `num_states` can also count an empty initial class.
  - The model therefore proves three things: the fixpoint condition, the class-image property and language preservation. It does not prove minimality.

## Model

| member | source | states |
|---|---|---|
| Tokens.TokenTypeNamesDistinct | token.c:51-98 | every token kind has a printed name, none is "UNKNOWN", and different kinds have different names |
| Tokens.KindNameRoundTrip | token.c:51-98 | the printed name of every kind reads back to that kind, so the naming is injective |
| Tokens.LookupKeyword | token.c:105-112 | the lookup yields either IDENTIFIER or a keyword kind, never the EOF of the sentinel entry |
| Tokens.KeywordWordsDistinct | token.h:93-108 | the 13 keyword spellings of the table are pairwise different |
| Tokens.KeywordKindsCovered | token.h:93-108 | the table pairs every keyword kind with a spelling, and no other kind |
| Tokens.LookupKeywordCorrect | token.c:105-112 | a string equal to a table spelling yields that entry's kind; IDENTIFIER is returned exactly when no spelling matches |
| Tokens.KeywordMatchIsCaseSensitive | token.c:106-111 | matching is exact: "Int" is an identifier |
| Tokens.KeywordMatchIsWholeWord | token.c:106-111 | matching is whole-string: "int_" is an identifier |
| Tokens.CreateToken | token.c:18-31 | the token carries exactly the given kind, lexeme, line and column, and no value |
| Scanner.CreateLexer | lexer.c:22-37 | a new cursor is at offset 0, and its line and column (1, 1) are those of offset 0 |
| Scanner.PositionAtIsLineAndColumn | lexer.c:53-68 | counting positions character by character, as advance does, gives line = 1 + newlines before, column = distance from the line start + 1 |
| Scanner.Current | lexer.c:62-66 | the cached current character is the character at the offset, or NUL at the end |
| Scanner.Peek | lexer.c:75-80 | peek gives the character after the current one, or NUL when there is none |
| Scanner.Advance | lexer.c:53-68 | no-op at the end; otherwise one character on, with line+1/column 1 after a newline and column+1 otherwise; positions stay exact |
| Scanner.SkipWhitespace | lexer.c:86-90 | consumes exactly the maximal run of white space |
| Scanner.SkipLineComment | lexer.c:96-110 | consumes `//` and everything up to and including the next newline, or to the end |
| Scanner.SkipBlockComment | lexer.c:116-130 | consumes `/*` and everything up to the first following `*/`, or silently to the end when there is none |
| Scanner.CommentEnds | lexer.c:96-130 | a line comment stops at LineEnd (just after the next newline, or the end) and a block comment at BlockEnd (just after the first following `*/`, or the end), both counted from after the opening pair |
| Scanner.SkipTrivia | lexer.c:358-377 | the text skipped is a TriviaSpan (white-space characters, `//` comments through LineEnd, `/*` comments through BlockEnd, in any order); it stops at the end or on a character that starts neither white space nor a comment; at the end it moves nothing |
| Scanner.ReadIdentifier | lexer.c:138-161 | consumes the maximal identifier-character run; lexeme = that slice, kind = its keyword lookup, position = its first character |
| Scanner.ReadFraction | lexer.c:196-205 | takes '.' only when a digit follows, and then the whole digit run |
| Scanner.ReadExponent | lexer.c:207-221 | takes 'e'/'E' exactly when one is at the cursor, then one '+' or '-' when present, then the maximal digit run, which may be empty |
| Scanner.DigitRunEnd | lexer.c:192-194 | the end of the maximal digit run from an offset: every character before it a digit, none at it |
| Scanner.FractionExtent | lexer.c:196-205 | the fraction reader stops at FractionEnd: after the digits when a digit follows a '.', else where it started |
| Scanner.ExponentExtent | lexer.c:207-221 | the exponent reader stops at ExponentEnd: after the marker, optional sign and digit run, else where it started |
| Scanner.DecimalExtent | lexer.c:191-221 | the three loops of the decimal branch stop at DecimalEnd, the maximal digits[.digits][e[±]digits] extent |
| Scanner.ReadHexNumber | lexer.c:181-190 | after `0x`/`0X` consumes the possibly empty hex run; INT_CONST with its base-16 value |
| Scanner.ReadDecimalNumber | lexer.c:191-241 | consumes exactly up to DecimalEnd; DOUBLE_CONST exactly when a fraction or exponent was taken; otherwise INT_CONST of the maximal digit run with its base-10 value |
| Scanner.DecimalShape | lexer.c:191-241 | a fraction or an exponent is taken exactly when the text read holds '.', 'e' or 'E'; without either the literal is the leading digit run alone |
| Scanner.ReadNumber | lexer.c:173-246 | lexeme = the consumed slice at the first character's position; the hex reader runs exactly at a `0x` prefix |
| Scanner.ReadString | lexer.c:254-293 | STRING_CONST whose lexeme is the slice with both quotes and a body in which each backslash escapes one character; ERROR at the opening quote, cursor at the end, exactly when no closing quote ends a body |
| Scanner.CharBody | lexer.c:308-327 | an escape consumes two characters and decodes n, t, r, backslash, quote, 0 (others to themselves); a plain character denotes itself; `''` gives NUL |
| Scanner.ReadChar | lexer.c:301-349 | CHAR_CONST with the quoted slice and its decoded value exactly when a closing quote follows; otherwise ERROR at the opening quote, with the cursor left right after the body (past an escape pair, one ordinary character, or nothing), where the next token starts |
| Scanner.ReadOperator | lexer.c:399-454 | two-character operators before one-character ones; any other character is consumed and yields one ERROR token naming it |
| Scanner.Scan | lexer.c:379-454 | on a token start: progress, the start's position, never EOF, and the lexeme of a non-error token is the consumed slice |
| Scanner.NextToken | lexer.c:357-459 | a non-EOF token means progress; at the end of the text EOF at the current position without moving |
| Scanner.NextTokenAfterTrivia | lexer.c:357-398 | the token sits where trivia skipping stops; EOF exactly when that is the end; a non-error lexeme is the consumed slice |
| Scanner.Tokenize | main.c:101-119 | the loop ends and collects exactly the TokenStream of successive get_next_token calls: at most one token per remaining character plus EOF, and EOF only last |
| Scanner.TokenStreamUnfold | main.c:101-106 | the stream's head is the first get_next_token result; unless it is EOF, the cursor moved and the rest is the stream from there |
| Scanner.TokenStreamShape | main.c:101-119 | the stream ends with its only EOF token and holds at most one token per remaining character plus that EOF |
| LexerProperties.NextTokenPositionIsExact | lexer.c:357-361 | with exact positions, a token's line and column are those of its first character's offset |
| LexerProperties.SkipTriviaIdempotent | lexer.c:358-377 | skipping white space and comments twice is skipping once |
| LexerProperties.NextTokenAtTokenStart | lexer.c:379-454 | on a token start get_next_token dispatches at once |
| LexerProperties.ScanDispatch | lexer.c:379-397 | dispatch order: identifier start, digit, '"', '\'', then operators |
| LexerProperties.ShowNatDigits | lexer.c:238-240 | a decimal spelling is a non-empty digit run whose base-10 value is the number |
| LexerProperties.ReadDecimalInteger | lexer.c:191-241 | a digit run not followed by '.'+digit, 'e' or 'E' is INT_CONST with its base-10 value |
| LexerProperties.ReadDigitsRoundTrip | lexer.c:191-241 | any non-empty digit string followed by a character that cannot continue a number is read as INT_CONST with that string as lexeme and its base-10 value, ending right after it |
| LexerProperties.ReadNumberRoundTrip | lexer.c:173-246 | reading the decimal spelling of n gives INT_CONST n with that spelling |
| LexerProperties.HexScenario | lexer.c:181-238 | "0xFF" reads as INT_CONST 255 |
| LexerProperties.BareHexPrefixScenario | lexer.c:181-190 | "0x" alone reads as INT_CONST 0 |
| LexerProperties.BareExponentScenario | lexer.c:207-221 | "1e" reads as DOUBLE_CONST |
| LexerProperties.SignedExponentScenario | lexer.c:191-234 | "1.23e-5" reads as one DOUBLE_CONST with that lexeme, the cursor at offset 7 |
| LexerProperties.SignedExponentEnd | lexer.c:191-221 | the decimal extent of "1.23e-5" is the whole text: digit run to 1, fraction to 4, signed exponent to 7 |
| LexerProperties.TrailingDotScenario | lexer.c:197 | in "1.x" the dot is not taken: INT_CONST 1, cursor after the 1 |
| LexerProperties.QuoteDenotes | lexer.c:310-327 | quoting any character with the needed escape yields a literal denoting it |
| LexerProperties.CharLiteralUnique | lexer.c:301-349 | at most one character literal starts at an offset |
| LexerProperties.ReadCharRoundTrip | lexer.c:301-349 | reading the quoted form of any character gives CHAR_CONST with that value |
| LexerProperties.EscapeStringIsBody | lexer.c:262-271 | escaping quotes and backslashes yields a string body |
| LexerProperties.FirstQuoteEndsString | lexer.c:262 | an unescaped quote after a body ends the string |
| LexerProperties.StringEndUnique | lexer.c:262-274 | a string has one closing quote |
| LexerProperties.ReadStringClosesAt | lexer.c:254-293 | a string closed by the first quote ending a body reads as STRING_CONST of that slice |
| LexerProperties.ReadStringRoundTrip | lexer.c:254-293 | reading the quoted, escaped form of any text gives STRING_CONST with that spelling |
| LexerProperties.ReadIdentifierRoundTrip | lexer.c:138-161 | reading an identifier text followed by a non-identifier character gives its keyword kind and spelling |
| LexerProperties.ReadKeywordRoundTrip | lexer.c:138-161 | reading each keyword's spelling gives that keyword |
| LexerProperties.OperatorTablesRoundTrip | lexer.c:403-448 | each operator's spelling is recognised as that operator by the two- or one-character table; a one-character spelling is taken over by the two-character table exactly when it is '=', '!', '<' or '>' and '=' follows |
| LexerProperties.ReadOperatorRoundTrip | lexer.c:399-448 | reading each operator's spelling gives that operator, its spelling and a cursor just after it; a one-character spelling needs only that the next character does not complete a two-character operator |
| LexerProperties.SlashIsDivide | lexer.c:369-435 | a '/' that starts no comment is DIVIDE |
| LexerProperties.IllegalCharacterScenario | lexer.c:449-453 | '@' yields one ERROR token naming it, and the cursor moves past it |
| LexerProperties.UnterminatedCommentScenario | lexer.c:116-130 | an unclosed block comment runs silently to the end |
| LexerProperties.LineCommentScenario | lexer.c:357-398 | in "// comment\nint a;" the first token is the keyword `int` at line 2, column 1 |
| LexerProperties.CommentSpanScenario | lexer.c:358-377 | there, trivia skipping from offset 0 stops at offset 11, just after the newline |
| LexerProperties.FirstLinePosition | lexer.c:53-68 | before the first newline, offset p is at line 1, column p + 1 |
| LexerProperties.ScanIntKeyword | lexer.c:138-161 | "int" not followed by an identifier character scans as the keyword INT at the cursor's position |
| LexerProperties.NextTokenOnIllegal | lexer.c:449-453 | at an '@', get_next_token yields the illegal-character ERROR and moves one character on |
| LexerProperties.StreamOnIllegal | lexer.c:449-453 | the stream from an '@' is that ERROR followed by the stream from the next character |
| LexerProperties.StreamAtEnd | lexer.c:457-458 | at the end of the text the stream is one EOF token at the cursor's position |
| LexerProperties.IllegalThenEofScenario | lexer.c:449-453 | the text "@" tokenizes to one ERROR at 1:1 and EOF at 1:2 |
| LexerProperties.NextTokenOnUnclosedString | lexer.c:254-293 | at a '"' with no '"' after it, get_next_token yields the unterminated-string ERROR at the quote and reads to the end |
| LexerProperties.NextTokenOnUnclosedChar | lexer.c:301-334 | at a quote followed by one ordinary character and no closing quote, get_next_token yields the unterminated-character ERROR at the quote and resumes after that character |
| LexerProperties.NextTokenOnLastLetter | lexer.c:138-161 | a single letter at the end of the text is read as an IDENTIFIER token spelled by that letter |
| LexerProperties.ShortWordIsIdentifier | token.c:105-112 | every keyword has at least two letters, so a word shorter than two is an identifier |
| LexerProperties.UnclosedCharScenario | lexer.c:301-334 | "'ab" gives the unterminated-character ERROR at 1:1, then IDENTIFIER "b" at 1:3, then EOF at 1:4 |
| LexerProperties.LetterThenEnd | lexer.c:357-459 | from offset 2 of "'ab" the stream is IDENTIFIER "b" at 1:3 and EOF at 1:4 |
| LexerProperties.UnterminatedStringScenario | lexer.c:254-293 | "\"ab" gives the unterminated-string ERROR at 1:1 with the cursor at offset 3 |
| StateSets.Contains | nfa_dfa.c:149-156 | state_set_contains is list membership |
| StateSets.Add | nfa_dfa.c:163-167 | appends exactly when the state is absent and there is room, otherwise no change; keeps the list duplicate-free |
| StateSets.SetEqual | nfa_dfa.c:175-186 | on duplicate-free lists, state_set_equal is equality of the sets listed |
| StateSets.SetEqualIsSetEquality | nfa_dfa.c:175-186 | equal counts plus inclusion is set equality on duplicate-free lists |
| StateSets.AddHasRoom | nfa_dfa.c:163-167 | with states below n ≤ MAX_STATES there is always room, so adding one state adds exactly it |
| StateSets.FindIndex | nfa_dfa.c:257-264 | the least index whose list is state_set_equal to the target, or -1 when none is |
| StateSets.FindIndexBySets | nfa_dfa.c:257-264 | on duplicate-free lists the index found is the least one listing the same set |
| NfaOps.Move | nfa_dfa.c:231-248 | a duplicate-free list of targets of matching edges |
| NfaOps.MoveExact | nfa_dfa.c:231-248 | on a valid NFA move lists exactly the targets of edges labelled sym from a listed state (empty when none) |
| NfaOps.EpsilonClosure | nfa_dfa.c:194-221 | the loop ends; the result extends the input list and no further pass adds anything |
| NfaOps.ClosureContainsInput | nfa_dfa.c:194-221 | the closure contains its input |
| NfaOps.ClosureIsClosed | nfa_dfa.c:194-221 | the closure has no ε-edge leaving it |
| NfaOps.ClosureLeast | nfa_dfa.c:194-221 | the closure lies in every ε-closed set containing the input: it holds only ε-reachable states |
| NfaOps.ClosureWithin | nfa_dfa.c:194-221 | the closure of states of the NFA holds only states of the NFA |
| IdentifierNfa.CreateIdentifierNfa | nfa_dfa.c:25-93 | two states, start 0, final states exactly {1}, 116 edges |
| IdentifierNfa.IdentifierNfaEdges | nfa_dfa.c:25-93 | the edges are exactly 0→1 on [a-zA-Z_] (53) and 1→1 on [a-zA-Z0-9_] (63), none labelled ε |
| IdentifierNfa.IdentifierNfaValid | nfa_dfa.c:25-93 | every edge joins states of the NFA |
| IdentifierNfa.IdentifierNfaLanguage | nfa_dfa.c:14-17 | the NFA accepts exactly letter(letter\|digit)*, the identifier texts of the scanner |
| IdentifierNfa.IdentifierClosureIsIdentity | nfa_dfa.c:194-221 | without ε-edges the closure of any list is the list itself |
| Subset.AlphabetShape | nfa_dfa.c:286-297 | 63 distinct symbols, all below MAX_ALPHABET, exactly the identifier characters |
| Subset.SuccessorFacts | nfa_dfa.c:328-330 | the closure of a move is duplicate-free, ε-closed and within the NFA |
| Subset.AddEdge | nfa_dfa.c:328-342 | an empty move leaves everything unchanged; otherwise the entry is set to the index of the subset reached, and the list is either unchanged or extended by exactly that successor (pushed on the worklist); fails only when the move is non-empty, its closure is none of the listed subsets, and all MAX_STATES slots are taken |
| Subset.ExpandState | nfa_dfa.c:320-344 | every alphabet symbol of the popped state gets its entry exactly when its move is non-empty, and every new subset is pushed; a failure names the alphabet symbol whose new successor found no slot |
| Subset.GrowKeepsReached | nfa_dfa.c:333-338 | a step that appends only the successor of a listed subset keeps every listed subset reached from the start closure |
| Subset.AppendKeepsReached | nfa_dfa.c:333-338 | appending the successor of a listed subset on an alphabet symbol with a non-empty move keeps every listed subset reached |
| Subset.ReachedIsEntered | nfa_dfa.c:328-342 | once every row is complete, each subset after the first is the target of a table entry leaving a smaller state |
| Subset.SameElementsSameIndex | nfa_dfa.c:257-264 | in a list of pairwise-different subsets, two indices listing the same states are one index |
| Subset.FinalSubsetsMeaning | nfa_dfa.c:349-357 | a DFA state is final exactly when its subset holds a final NFA state |
| Subset.NfaToDfa | nfa_dfa.c:271-360 | on success: state 0 is the closure of the start; subsets pairwise different, duplicate-free, ε-closed; entries set exactly where the move is non-empty and lead to the closure of that move; every state other than 0 is entered by an entry from a smaller state, so only subsets reached from the start are counted; finals as above; on failure too, every listed subset was reached; on failure all MAX_STATES slots were full and the error names a listed state and an alphabet symbol whose move is non-empty and whose closure is none of the listed subsets |
| SubsetLanguage.SuccessorRespectsElements | nfa_dfa.c:328-330 | the closure of a move depends only on the states listed, not their order |
| SubsetLanguage.RunTracksSubsets | nfa_dfa.c:318-345 | reading a word from a DFA state follows the NFA subsets stepped through |
| SubsetLanguage.SubsetConstructionLanguage | nfa_dfa.c:271-360 | the DFA accepts a word over the alphabet exactly when the NFA reaches a final state on it |
| IdentifierDfa.IdentifierRunIsReach | nfa_dfa.c:231-248 | on the identifier NFA, stepping by move and closure goes through exactly the states the NFA reaches |
| IdentifierDfa.IdentifierNfaAccepts | nfa_dfa.c:14-17 | run by subsets from the closure of its start, the identifier NFA accepts exactly the identifier texts |
| IdentifierDfa.IdentifierSubsetsBound | nfa_dfa.c:271-360 | the construction on the identifier NFA can list at most four subsets, one per subset of {0, 1}, so it never runs out of slots |
| IdentifierDfa.IdentifierDfa | main.c:184-205 | create, convert and minimize: the construction succeeds, and the minimized DFA accepts a word over the alphabet exactly when it is an identifier |
| Minimize.InitialPartition | nfa_dfa.c:373-376 | class 1 for final states, class 0 for the others |
| Minimize.RefineRound | nfa_dfa.c:381-431 | a state keeps its class unless it is distinguishable from its class's first member, and then it gets a fresh id no other state has; the id count grows exactly when something moved |
| Minimize.ScanState | nfa_dfa.c:399-425 | one step for class p: the first member seen is remembered, a later member told apart from it gets the next fresh id, and no other state changes |
| Minimize.ScanClass | nfa_dfa.c:387-426 | after class p, exactly the split members of classes 0 .. p carry fresh ids, each owned by one state; every other state keeps its class; states outside class p are untouched and at most one fresh id is used per state |
| Minimize.RoundRefines | nfa_dfa.c:381-431 | a round only splits classes, and a productive round separates a pair of class-mates |
| Minimize.Refine | nfa_dfa.c:378-432 | the loop ends, with every state agreeing with its class's first member on every symbol, and classes are all-final or all-non-final |
| Minimize.StableConsistent | nfa_dfa.c:396-426 | at the fixpoint any two class-mates agree on every symbol |
| Minimize.BuildMinimized | nfa_dfa.c:447-469 | one state per class id, start = class of the start, a class is final exactly when some member is final, same alphabet |
| Minimize.ClassImage | nfa_dfa.c:447-469 | the class DFA is valid and its transitions are the class image of the original ones |
| Minimize.SameLanguage | nfa_dfa.c:368-472 | the class DFA accepts exactly the words over the alphabet that the original accepts |
| Minimize.MinimizeDfa | nfa_dfa.c:368-472 | the result is valid, over the same alphabet, the class image of the input, with the same language |

## Left out

- Printing (`print_nfa`, `print_dfa`, `print_dfa_transition_matrix`, `print_token`), the `main.c` command line and file reading, and the printing part of the tokenize loop: pure output and I/O.
- `malloc`/`free`/`exit(1)` and the `free_*` functions: values are immutable and allocation does not fail.
- The `atof` value of DOUBLE_CONST: floating point. Such a token keeps its kind and lexeme and carries no value.
- `atoll`/`strtoll` overflow: integer values are unbounded.
- C `ctype` locale behaviour: the character classes are the ASCII ones.
- Bytes: the text is a sequence of Dafny `char`s (Unicode scalar values), while the C reads bytes. A character that UTF-8 encodes in several bytes moves the C column once per byte and, outside literals and comments, gives one ERROR token per byte; here it moves the column once and gives one ERROR token.
- Scanner.WellFormed: a text with a NUL inside it is not excluded. The C, which takes the text's length with `strlen`, never sees one; the model reads such a NUL as an illegal character.
- The unused `LexerState` enumeration of `lexer.h`.
- Tokens.TokenTypeToString: the C `default` arm returning "UNKNOWN" serves integers outside the enumeration, which a `TokenType` value cannot be.
- Subset.NfaToDfa: the C has no capacity check and writes past `dfa_states[MAX_STATES]` when a state's successor on a symbol is new and all slots are taken. The model returns `Failure(TooManyStates(found, from, symbol))` there instead.
- Minimize.MinimizeDfa: minimality is not claimed, since equivalent states split off in the same round get different classes. "No more states than the input" is not claimed either, since the count can include an empty initial class, and class ids are unbounded, although the C arrays hold only MAX_STATES of them.
- The DFA table is a map with absent keys for `-1`. Symbols are `char`s, and the table width `MAX_ALPHABET` appears only as a bound on the alphabet.
