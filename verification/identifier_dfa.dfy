/**
 * The pipeline of show_minimized_dfa (main.c): the identifier NFA, its subset
 * construction, and the minimized DFA, which accepts exactly the identifiers over the
 * alphabet of letters, digits and `_`.
 */
module IdentifierDfa {
  import opened Wrappers
  import opened Automata
  import opened StateSets
  import opened NfaOps
  import opened Subset
  import opened SubsetLanguage
  import opened Minimize
  import opened IdentifierNfa
  import opened CharClasses

  /** Without ε-edges, the subsets stepped through are the states the NFA reaches. */
  lemma {:induction false} IdentifierRunIsReach(S: StateSet, w: string)
    requires |S| <= MaxStates
    ensures Elements(SubsetRun(CreateIdentifierNfa(), S, w)) == Reach(CreateIdentifierNfa(), Elements(S), w)
    decreases |w|
  {
    if |w| > 0 {
      var a := CreateIdentifierNfa();
      var m := Move(a, S, w[0] as int);
      IdentifierNfaValid();
      MoveExact(a, S, w[0] as int);
      IdentifierClosureIsIdentity(m);
      assert Successor(a, S, w[0]) == m;
      IdentifierRunIsReach(m, w[1..]);
    }
  }

  /** The identifier NFA, run by subsets from its start closure, accepts exactly the identifiers. */
  lemma IdentifierNfaAccepts(w: string)
    ensures NfaAccepts(CreateIdentifierNfa(), w) <==> IsIdentifierText(w)
  {
    StartClosure();
    AcceptsByReach(w);
    IdentifierNfaLanguage(w);
  }

  /** The start state has no ε-edges to follow. */
  lemma StartClosure()
    ensures EpsilonClosure(CreateIdentifierNfa(), [CreateIdentifierNfa().start]) == [0]
  {
    IdentifierClosureIsIdentity([0]);
  }

  /** Read from [0], the run ends in a final subset exactly when the NFA reaches state 1. */
  lemma AcceptsByReach(w: string)
    ensures Elements(SubsetRun(CreateIdentifierNfa(), [0], w)) * CreateIdentifierNfa().finals != {}
        <==> 1 in Reach(CreateIdentifierNfa(), {0}, w)
  {
    assert Elements([0]) == {0};
    IdentifierRunIsReach([0], w);
  }

  /** A number for each subset of {0, 1}; different subsets get different numbers below 4. */
  function PairCode(E: set<int>): (n: int)
    ensures 0 <= n < 4
  {
    (if 0 in E then 1 else 0) + (if 1 in E then 2 else 0)
  }

  /** A duplicate-free list of states of a two-state NFA holds a subset of {0, 1}. */
  lemma PairCodeInjective(s1: StateSet, s2: StateSet)
    requires Within(s1, 2) && Within(s2, 2)
    requires PairCode(Elements(s1)) == PairCode(Elements(s2))
    ensures Elements(s1) == Elements(s2)
  {
    forall x | x in Elements(s1)
      ensures x in Elements(s2)
    {
      var i :| 0 <= i < |s1| && s1[i] == x;
    }
    forall x | x in Elements(s2)
      ensures x in Elements(s1)
    {
      var i :| 0 <= i < |s2| && s2[i] == x;
    }
  }

  /** The construction on the identifier NFA knows at most four subsets, one per subset of {0, 1}. */
  lemma IdentifierSubsetsBound(sets: seq<StateSet>)
    requires SubsetsOk(CreateIdentifierNfa(), sets)
    ensures |sets| <= 4
  {
    var codes := seq(|sets|, i requires 0 <= i < |sets| => PairCode(Elements(sets[i])));
    forall i, j | 0 <= i < j < |codes|
      ensures codes[i] != codes[j]
    {
      if codes[i] == codes[j] {
        PairCodeInjective(sets[i], sets[j]);
      }
    }
    DistinctWithinBound(codes, 4);
  }

  /**
   * show_minimized_dfa: builds the identifier NFA, converts it by subsets and minimizes the
   * result. The construction never runs out of slots, and the minimized DFA accepts a word
   * over the alphabet exactly when it is an identifier.
   */
  method IdentifierDfa() returns (m: Dfa)
    ensures ValidDfa(m) && m.alphabet == Alphabet()
    ensures forall w :: OverAlphabet(w, Alphabet()) ==> (Accepts(m, w) <==> IsIdentifierText(w))
  {
    var a := CreateIdentifierNfa();
    IdentifierNfaValid();
    var r := NfaToDfa(a);
    if r.Failure? {
      IdentifierSubsetsBound(r.error.found);
      assert false;
    }
    var c := r.value;
    var part;
    m, part := MinimizeDfa(c.dfa);
    forall w | OverAlphabet(w, Alphabet())
      ensures Accepts(m, w) <==> IsIdentifierText(w)
    {
      SubsetConstructionLanguage(a, c, w);
      IdentifierNfaAccepts(w);
    }
  }
}
