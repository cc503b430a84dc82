/**
 * What the table built by nfa_to_dfa means: reading a word over the alphabet, the DFA
 * follows the NFA subsets the construction steps through (move, then ε-closure), and it
 * accepts exactly when the NFA subset reached holds a final NFA state.
 */
module SubsetLanguage {
  import opened Automata
  import opened NfaOps
  import opened Subset

  /** The NFA subsets stepped through while reading w from S: one Successor per character. */
  function SubsetRun(a: Nfa, S: StateSet, w: string): (r: StateSet)
    requires |S| <= MaxStates
    decreases |w|
    ensures |r| <= MaxStates
  {
    if |w| == 0 then S else SubsetRun(a, Successor(a, S, w[0]), w[1..])
  }

  /** The NFA accepts w, reading it from the closure of its start state, when a final state is reached. */
  predicate NfaAccepts(a: Nfa, w: string)
  {
    Elements(SubsetRun(a, EpsilonClosure(a, [a.start]), w)) * a.finals != {}
  }

  /** Successor depends only on the states listed, not on their order. */
  lemma SuccessorRespectsElements(a: Nfa, S1: StateSet, S2: StateSet, c: char)
    requires ValidNfa(a) && Elements(S1) == Elements(S2)
    ensures Elements(Successor(a, S1, c)) == Elements(Successor(a, S2, c))
  {
    var m1, m2 := Move(a, S1, c as int), Move(a, S2, c as int);
    MoveExact(a, S1, c as int);
    MoveExact(a, S2, c as int);
    SuccessorFacts(a, S1, c);
    SuccessorFacts(a, S2, c);
    ClosureContainsInput(a, m1);
    ClosureContainsInput(a, m2);
    ClosureLeast(a, m1, Elements(Successor(a, S2, c)));
    ClosureLeast(a, m2, Elements(Successor(a, S1, c)));
  }

  /** Nothing is reached from the empty subset. */
  lemma {:induction false} SubsetRunFromNothing(a: Nfa, w: string)
    ensures SubsetRun(a, [], w) == []
    decreases |w|
  {
    if |w| > 0 {
      assert Move(a, [], w[0] as int) == [];
      assert Successor(a, [], w[0]) == [];
      SubsetRunFromNothing(a, w[1..]);
    }
  }

  /** A list holds no state exactly when it is empty. */
  lemma NoElements(s: StateSet)
    ensures Elements(s) == {} <==> s == []
  {
    if s != [] {
      assert s[0] in Elements(s);
    }
  }

  /** A word over the alphabet stays over the alphabet without its first character. */
  lemma OverAlphabetTail(w: string, alphabet: seq<char>)
    requires |w| > 0 && OverAlphabet(w, alphabet)
    ensures w[0] in alphabet && OverAlphabet(w[1..], alphabet)
  {
    assert forall i :: 0 <= i < |w[1..]| ==> w[1..][i] == w[i + 1];
  }

  /**
   * From DFA state s standing for the subset S, reading a word over the alphabet leads to
   * the state standing for the subset reached, or to NoState, and then the subset reached is empty.
   */
  lemma {:induction false} RunTracksSubsets(a: Nfa, c: Construction, s: int, S: StateSet, w: string)
    requires ValidNfa(a) && ConstructionOk(a, c)
    requires 0 <= s < |c.subsets| && |S| <= MaxStates && Elements(c.subsets[s]) == Elements(S)
    requires OverAlphabet(w, Alphabet())
    ensures var r := Run(c.dfa, s, w);
      && (r == NoState ==> SubsetRun(a, S, w) == [])
      && (r != NoState ==> 0 <= r < |c.subsets| && Elements(c.subsets[r]) == Elements(SubsetRun(a, S, w)))
    decreases |w|
  {
    var d, sets := c.dfa, c.subsets;
    if |w| > 0 {
      OverAlphabetTail(w, Alphabet());
      var x := w[0];
      assert RowDone(a, sets, d.delta, s, Alphabet());
      MoveExact(a, sets[s], x as int);
      MoveExact(a, S, x as int);
      var next := Successor(a, S, x);
      if (s, x) in d.delta {
        var t := d.delta[(s, x)];
        assert EntryOk(a, sets, d.delta, (s, x));
        SuccessorRespectsElements(a, sets[s], S, x);
        RunTracksSubsets(a, c, t, next, w[1..]);
      } else {
        NoElements(Move(a, S, x as int));
        assert next == [];
        SubsetRunFromNothing(a, w[1..]);
      }
    }
  }

  /**
   * The DFA built by nfa_to_dfa accepts a word over its alphabet exactly when the NFA
   * reaches a final state on it through move and ε-closure.
   */
  lemma SubsetConstructionLanguage(a: Nfa, c: Construction, w: string)
    requires ValidNfa(a) && ConstructionOk(a, c) && OverAlphabet(w, Alphabet())
    ensures Accepts(c.dfa, w) <==> NfaAccepts(a, w)
  {
    var init := EpsilonClosure(a, [a.start]);
    RunTracksSubsets(a, c, 0, init, w);
  }
}
