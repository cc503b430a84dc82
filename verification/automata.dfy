/**
 * The automaton data of the C0 toolkit (nfa_dfa.h): bounds, NFA transitions, NFAs,
 * DFAs and the state sets of the subset construction.
 */
module Automata {

  /** Capacity of every state array (MAX_STATES). */
  const MaxStates: int := 100

  /** Width of a DFA transition row, one column per byte value below 128 (MAX_ALPHABET). */
  const MaxAlphabet: int := 128

  /** The label of an ε-transition (EPSILON). */
  const Epsilon: int := -1

  /** The "no transition" entry of a DFA table. */
  const NoState: int := -1

  /** One NFA edge; `symbol` is a character code or Epsilon. */
  datatype Transition = Transition(from: int, to: int, symbol: int)

  /**
   * An NFA: states 0 .. numStates-1, a start state, the final states (the `true` entries
   * of final_states) and the transition list in insertion order.
   */
  datatype Nfa = Nfa(numStates: int, start: int, finals: set<int>, transitions: seq<Transition>)

  /** Every state the NFA mentions is one of its states, and there are at most MaxStates. */
  predicate ValidNfa(a: Nfa)
  {
    && 0 <= a.start < a.numStates <= MaxStates
    && (forall i :: 0 <= i < |a.transitions| ==>
          0 <= a.transitions[i].from < a.numStates && 0 <= a.transitions[i].to < a.numStates)
  }

  /**
   * A DFA: states 0 .. numStates-1, start state, final states, alphabet, and the defined
   * entries of the transition table (every entry absent from `delta` holds -1).
   */
  datatype Dfa = Dfa(numStates: int, start: int, finals: set<int>, alphabet: seq<char>, delta: map<(int, char), int>)

  /** The table entry transition[s][c]: the target state, or NoState. */
  function Next(d: Dfa, s: int, c: char): int
  {
    if (s, c) in d.delta then d.delta[(s, c)] else NoState
  }

  /** Every defined table entry leads to a state of the DFA. */
  predicate ValidDfa(d: Dfa)
  {
    && 0 <= d.start < d.numStates
    && forall k :: k in d.delta ==> 0 <= k.0 < d.numStates && 0 <= d.delta[k] < d.numStates
  }

  /** The state reached from s by reading w, or NoState once a table entry is missing. */
  function Run(d: Dfa, s: int, w: string): (r: int)
    decreases |w|
    ensures ValidDfa(d) && 0 <= s < d.numStates ==> r == NoState || 0 <= r < d.numStates
  {
    if |w| == 0 then s
    else
      var t := Next(d, s, w[0]);
      if t == NoState then NoState else Run(d, t, w[1..])
  }

  /** The DFA accepts w when the run from the start state survives and ends in a final state. */
  predicate Accepts(d: Dfa, w: string)
  {
    var r := Run(d, d.start, w);
    r != NoState && r in d.finals
  }

  /** Every character of w is one of the DFA's alphabet symbols. */
  predicate OverAlphabet(w: string, alphabet: seq<char>)
  {
    forall i :: 0 <= i < |w| ==> w[i] in alphabet
  }

  /** The listed states of a StateSet: states[0 .. count-1]. */
  type StateSet = seq<int>

  /** The states a StateSet holds, forgetting order. */
  function Elements(s: StateSet): set<int>
  {
    set x | x in s
  }

  /** No state is listed twice. */
  predicate Distinct(s: StateSet)
  {
    forall i, j :: 0 <= i < j < |s| ==> s[i] != s[j]
  }

  /** Every listed state lies in 0 .. n-1. */
  predicate Within(s: StateSet, n: int)
  {
    forall i :: 0 <= i < |s| ==> 0 <= s[i] < n
  }
}
