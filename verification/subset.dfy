/**
 * nfa_to_dfa (nfa_dfa.c): the subset construction over the identifier alphabet, with a
 * LIFO worklist of unmarked DFA states.
 */
module Subset {
  import opened Wrappers
  import opened Automata
  import opened StateSets
  import opened NfaOps
  import opened CharClasses

  /** The characters lo .. hi in increasing order. */
  function CharRange(lo: char, hi: char): (r: seq<char>)
    requires lo <= hi && hi as int < 128
    ensures |r| == hi as int - lo as int + 1
    ensures forall i :: 0 <= i < |r| ==> r[i] as int == lo as int + i
  {
    seq(hi as int - lo as int + 1, i requires 0 <= i <= hi as int - lo as int => (lo as int + i) as char)
  }

  /** The alphabet of nfa_to_dfa: a-z, A-Z, 0-9, then `_`. */
  function Alphabet(): seq<char>
  {
    CharRange('a', 'z') + CharRange('A', 'Z') + CharRange('0', '9') + ['_']
  }

  /** Position i of the alphabet, by block. */
  lemma AlphabetAt(i: int)
    requires 0 <= i < |Alphabet()|
    ensures |Alphabet()| == 63
    ensures i < 26 ==> Alphabet()[i] as int == 'a' as int + i
    ensures 26 <= i < 52 ==> Alphabet()[i] as int == 'A' as int + (i - 26)
    ensures 52 <= i < 62 ==> Alphabet()[i] as int == '0' as int + (i - 52)
    ensures i == 62 ==> Alphabet()[i] == '_'
  {
    var l, u, d := CharRange('a', 'z'), CharRange('A', 'Z'), CharRange('0', '9');
    assert Alphabet() == l + u + d + ['_'];
    if i < 26 {
      assert Alphabet()[i] == l[i];
    } else if i < 52 {
      assert Alphabet()[i] == u[i - 26];
    } else if i < 62 {
      assert Alphabet()[i] == d[i - 52];
    }
  }

  /**
   * The alphabet has 63 pairwise distinct symbols, all below MaxAlphabet, and they are
   * exactly the characters an identifier may contain.
   */
  lemma AlphabetShape()
    ensures |Alphabet()| == 63 <= MaxAlphabet
    ensures forall i :: 0 <= i < |Alphabet()| ==> Alphabet()[i] as int < MaxAlphabet
    ensures forall i, j :: 0 <= i < j < |Alphabet()| ==> Alphabet()[i] != Alphabet()[j]
    ensures forall c :: c in Alphabet() <==> IsIdentChar(c)
  {
    AlphabetAt(0);
    forall i, j | 0 <= i < j < |Alphabet()|
      ensures Alphabet()[i] != Alphabet()[j]
    {
      AlphabetAt(i);
      AlphabetAt(j);
    }
    forall i | 0 <= i < |Alphabet()|
      ensures Alphabet()[i] as int < MaxAlphabet && IsIdentChar(Alphabet()[i])
    {
      AlphabetAt(i);
    }
    forall c | IsIdentChar(c)
      ensures c in Alphabet()
    {
      var i := if 'a' <= c <= 'z' then c as int - 'a' as int
        else if 'A' <= c <= 'Z' then 26 + (c as int - 'A' as int)
        else if '0' <= c <= '9' then 52 + (c as int - '0' as int)
        else 62;
      AlphabetAt(i);
    }
  }

  /** The subset reached from S on c: the ε-closure of move(S, c). */
  function Successor(a: Nfa, S: StateSet, c: char): StateSet
  {
    EpsilonClosure(a, Move(a, S, c as int))
  }

  /** On a valid NFA, the successor of a list of states is a duplicate-free, ε-closed list of states. */
  lemma SuccessorFacts(a: Nfa, S: StateSet, c: char)
    requires ValidNfa(a)
    ensures Distinct(Successor(a, S, c)) && Within(Successor(a, S, c), a.numStates)
    ensures EpsClosed(a, Elements(Successor(a, S, c)))
  {
    var next := Move(a, S, c as int);
    MoveExact(a, S, c as int);
    ClosureWithin(a, next);
    ClosureIsClosed(a, next);
  }

  /** The NFA subsets found so far: duplicate-free lists of NFA states, ε-closed, pairwise different as sets. */
  predicate SubsetsOk(a: Nfa, sets: seq<StateSet>)
  {
    && 1 <= |sets| <= MaxStates
    && (forall k :: 0 <= k < |sets| ==>
          Distinct(sets[k]) && Within(sets[k], a.numStates) && EpsClosed(a, Elements(sets[k])))
    && (forall i, j :: 0 <= i < j < |sets| ==> Elements(sets[i]) != Elements(sets[j]))
  }

  /** A table entry is set only where the move is non-empty, and leads to the subset reached. */
  predicate EntryOk(a: Nfa, sets: seq<StateSet>, delta: map<(int, char), int>, k: (int, char))
    requires k in delta
  {
    && 0 <= k.0 < |sets| && 0 <= delta[k] < |sets|
    && |Move(a, sets[k.0], k.1 as int)| > 0
    && Elements(sets[delta[k]]) == Elements(Successor(a, sets[k.0], k.1))
  }

  predicate TableOk(a: Nfa, sets: seq<StateSet>, delta: map<(int, char), int>)
  {
    forall k :: k in delta ==> EntryOk(a, sets, delta, k)
  }

  /** Row s of the table has an entry for exactly the symbols of syms whose move is non-empty. */
  predicate RowDone(a: Nfa, sets: seq<StateSet>, delta: map<(int, char), int>, s: int, syms: seq<char>)
    requires 0 <= s < |sets|
  {
    forall c :: c in syms ==> ((s, c) in delta <==> |Move(a, sets[s], c as int)| > 0)
  }

  /**
   * Every subset after the first was found as the successor of an earlier subset on an
   * alphabet symbol whose move is non-empty: the construction lists only subsets it reaches.
   */
  predicate Reached(a: Nfa, sets: seq<StateSet>)
  {
    forall s :: 0 < s < |sets| ==> ReachedAt(a, sets, s)
  }

  /** Subset s is the successor of an earlier subset. */
  predicate ReachedAt(a: Nfa, sets: seq<StateSet>, s: int)
    requires 0 <= s < |sets|
  {
    exists t :: 0 <= t < s && SuccessorOf(a, sets[s], sets[t])
  }

  /** S is the successor of P on some alphabet symbol whose move from P is non-empty. */
  predicate SuccessorOf(a: Nfa, S: StateSet, P: StateSet)
  {
    exists c :: c in Alphabet() && |Move(a, P, c as int)| > 0 && S == Successor(a, P, c)
  }

  /** Every DFA state other than the start is entered by an entry leaving a smaller state. */
  predicate Entered(delta: map<(int, char), int>, n: int)
  {
    forall s :: 0 < s < n ==> EnteredAt(delta, s)
  }

  predicate EnteredAt(delta: map<(int, char), int>, s: int)
  {
    exists t, c :: 0 <= t < s && (t, c) in delta && delta[(t, c)] == s
  }

  /** The result of nfa_to_dfa together with the NFA subset each DFA state stands for. */
  datatype Construction = Construction(dfa: Dfa, subsets: seq<StateSet>)

  /**
   * Why the construction stops: a new subset is needed when all MaxStates slots are taken
   * by the subsets found so far.
   */
  datatype BuildError = TooManyStates(found: seq<StateSet>, from: int, symbol: char)

  /**
   * Expanding subset cur on symbol c needs a new subset when all slots are taken: the move
   * is non-empty, its closure is none of the known subsets, and MaxStates subsets are known.
   */
  predicate Overflows(a: Nfa, sets: seq<StateSet>, cur: int, c: char)
  {
    && |sets| == MaxStates && 0 <= cur < |sets|
    && |Move(a, sets[cur], c as int)| > 0
    && forall j :: 0 <= j < |sets| ==> Elements(sets[j]) != Elements(Successor(a, sets[cur], c))
  }

  /**
   * What nfa_to_dfa promises about its result: DFA state s stands for the distinct ε-closed
   * subset subsets[s], state 0 for the closure of the start state; the table sends s on an
   * alphabet symbol c exactly when move(s, c) is non-empty, and then to the state of the
   * subset reached; s is final exactly when its subset holds a final NFA state.
   */
  predicate ConstructionOk(a: Nfa, c: Construction)
  {
    var d, sets := c.dfa, c.subsets;
    && d.numStates == |sets| && d.start == 0 && d.alphabet == Alphabet() && ValidDfa(d)
    && SubsetsOk(a, sets) && sets[0] == EpsilonClosure(a, [a.start])
    && TableOk(a, sets, d.delta) && (forall k :: k in d.delta ==> k.1 in Alphabet())
    && (forall s :: 0 <= s < |sets| ==> RowDone(a, sets, d.delta, s, Alphabet()))
    && (forall s :: s in d.finals ==> 0 <= s < |sets|)
    && (forall s :: 0 <= s < |sets| ==> (s in d.finals <==> Elements(sets[s]) * a.finals != {}))
    && Entered(d.delta, |sets|)
  }

  /** Appending a new subset keeps every existing table entry and finished row valid. */
  lemma GrowKeepsTable(a: Nfa, sets: seq<StateSet>, delta: map<(int, char), int>, next: StateSet)
    requires TableOk(a, sets, delta)
    ensures TableOk(a, sets + [next], delta)
  {
    var sets' := sets + [next];
    forall k | k in delta
      ensures EntryOk(a, sets', delta, k)
    {
      assert EntryOk(a, sets, delta, k);
      assert sets'[k.0] == sets[k.0] && sets'[delta[k]] == sets[delta[k]];
    }
  }

  /** A new subset that is closed and differs from every known one extends a valid list. */
  lemma GrowKeepsSubsets(a: Nfa, sets: seq<StateSet>, next: StateSet)
    requires SubsetsOk(a, sets) && |sets| < MaxStates
    requires Distinct(next) && Within(next, a.numStates) && EpsClosed(a, Elements(next))
    requires forall j :: 0 <= j < |sets| ==> Elements(sets[j]) != Elements(next)
    ensures SubsetsOk(a, sets + [next])
  {
    var sets' := sets + [next];
    forall i, j | 0 <= i < j < |sets'|
      ensures Elements(sets'[i]) != Elements(sets'[j])
    {
      assert sets'[i] == sets[i];
    }
  }

  /** A valid new entry keeps the table valid. */
  lemma SetEntryKeepsTable(a: Nfa, sets: seq<StateSet>, delta: map<(int, char), int>, k: (int, char), v: int)
    requires TableOk(a, sets, delta) && k !in delta
    requires EntryOk(a, sets, delta[k := v], k)
    ensures TableOk(a, sets, delta[k := v])
  {
    var delta' := delta[k := v];
    forall k' | k' in delta'
      ensures EntryOk(a, sets, delta', k')
    {
      if k' != k {
        assert EntryOk(a, sets, delta, k');
      }
    }
  }

  /**
   * Handles one symbol c of the state cur being expanded: computes the successor subset,
   * finds it among the known subsets or appends it (pushing its index on the worklist), and
   * sets the table entry. `ok` is false when a new subset is needed but all slots are taken.
   */
  method AddEdge(a: Nfa, sets: seq<StateSet>, work: seq<int>, delta: map<(int, char), int>, cur: int, c: char)
    returns (ok: bool, sets': seq<StateSet>, work': seq<int>, delta': map<(int, char), int>)
    requires ValidNfa(a) && SubsetsOk(a, sets) && TableOk(a, sets, delta)
    requires 0 <= cur < |sets| && (cur, c) !in delta
    ensures ok ==> SubsetsOk(a, sets') && TableOk(a, sets', delta')
    ensures ok ==> |sets| <= |sets'| <= |sets| + 1 && sets'[..|sets|] == sets
    ensures ok ==> work' == if |sets'| == |sets| then work else work + [|sets|]
    ensures ok ==> sets' == sets || (|Move(a, sets[cur], c as int)| > 0 && sets' == sets + [Successor(a, sets[cur], c)])
    ensures ok ==> if |Move(a, sets[cur], c as int)| > 0
                   then (cur, c) in delta' && delta' == delta[(cur, c) := delta'[(cur, c)]]
                   else delta' == delta
    ensures !ok ==> Overflows(a, sets, cur, c)
  {
    ok, sets', work', delta' := true, sets, work, delta;
    var next := Move(a, sets[cur], c as int);
    if |next| > 0 {
      var succ := EpsilonClosure(a, next);
      SuccessorFacts(a, sets[cur], c);
      assert forall k :: 0 <= k < |sets| ==> Distinct(sets[k]);
      FindIndexBySets(sets, succ);
      var idx := FindIndex(sets, succ);
      if idx == -1 {
        if |sets| == MaxStates {
          return false, sets, work, delta;
        }
        idx := |sets|;
        GrowKeepsTable(a, sets, delta, succ);
        GrowKeepsSubsets(a, sets, succ);
        sets' := sets + [succ];
        work' := work + [idx];
      }
      assert sets'[cur] == sets[cur];
      assert Elements(sets'[idx]) == Elements(succ);
      SetEntryKeepsTable(a, sets', delta, (cur, c), idx);
      delta' := delta[(cur, c) := idx];
    }
  }

  /** The worklist holds distinct indices of known subsets. */
  predicate WorkOk(work: seq<int>, n: int)
  {
    Distinct(work) && forall k :: 0 <= k < |work| ==> 0 <= work[k] < n
  }

  /**
   * The bookkeeping of the outer loop: every entry is on an alphabet symbol and leaves a
   * known state that is off the worklist, and every state off the worklist has its
   * complete row.
   */
  predicate Pending(a: Nfa, alpha: seq<char>, sets: seq<StateSet>, work: seq<int>, delta: map<(int, char), int>)
  {
    && WorkOk(work, |sets|)
    && (forall k :: k in delta ==> k.1 in alpha && 0 <= k.0 < |sets| && k.0 !in work)
    && (forall s :: 0 <= s < |sets| && s !in work ==> RowDone(a, sets, delta, s, alpha))
  }

  /**
   * The bookkeeping of the inner loop while state cur is expanded: its row is complete for
   * the first i symbols and has no other entries.
   */
  predicate Expanding(a: Nfa, alpha: seq<char>, sets: seq<StateSet>, work: seq<int>, delta: map<(int, char), int>,
                      cur: int, i: nat)
  {
    && i <= |alpha| && WorkOk(work, |sets|) && 0 <= cur < |sets| && cur !in work
    && (forall k :: k in delta ==> k.1 in alpha && 0 <= k.0 < |sets| && k.0 !in work)
    && (forall k :: k in delta && k.0 == cur ==> k.1 in alpha[..i])
    && RowDone(a, sets, delta, cur, alpha[..i])
    && (forall s :: 0 <= s < |sets| && s != cur && s !in work ==> RowDone(a, sets, delta, s, alpha))
  }

  /** Popping the last worklist entry starts its expansion. */
  lemma PopStartsExpanding(a: Nfa, alpha: seq<char>, sets: seq<StateSet>, work: seq<int>, delta: map<(int, char), int>)
    requires Pending(a, alpha, sets, work, delta) && |work| > 0
    ensures Expanding(a, alpha, sets, work[..|work| - 1], delta, work[|work| - 1], 0)
  {
    var cur, rest := work[|work| - 1], work[..|work| - 1];
    assert forall k :: 0 <= k < |rest| ==> rest[k] == work[k];
    assert cur in work;
    assert forall k :: k in delta ==> k.0 != cur;
    forall s | 0 <= s < |sets| && s != cur && s !in rest
      ensures RowDone(a, sets, delta, s, alpha)
    {
      assert s !in work;
    }
    assert WorkOk(rest, |sets|) && 0 <= cur < |sets| && cur !in rest;
    assert forall k :: k in delta ==> k.1 in alpha && 0 <= k.0 < |sets| && k.0 !in rest;
    assert forall k :: k in delta && k.0 == cur ==> k.1 in alpha[..0];
    assert RowDone(a, sets, delta, cur, alpha[..0]);
    assert Expanding(a, alpha, sets, rest, delta, cur, 0);
  }

  /** A completely expanded state leaves the outer bookkeeping in place. */
  lemma ExpandedIsPending(a: Nfa, alpha: seq<char>, sets: seq<StateSet>, work: seq<int>, delta: map<(int, char), int>,
                          cur: int)
    requires Expanding(a, alpha, sets, work, delta, cur, |alpha|)
    ensures Pending(a, alpha, sets, work, delta)
  {
    assert alpha[..|alpha|] == alpha;
  }

  /** Growing the subset list and adding at most the entry (cur, c) keeps the other rows as they were. */
  lemma KeepRows(a: Nfa, sets: seq<StateSet>, delta: map<(int, char), int>,
                 sets': seq<StateSet>, delta': map<(int, char), int>, cur: int, c: char, syms: seq<char>)
    requires 0 <= cur < |sets| <= |sets'| && sets'[..|sets|] == sets
    requires delta' == delta || ((cur, c) in delta' && delta' == delta[(cur, c) := delta'[(cur, c)]])
    ensures forall s :: 0 <= s < |sets| && (s != cur || c !in syms) && RowDone(a, sets, delta, s, syms) ==>
      RowDone(a, sets', delta', s, syms)
  {
    forall s | 0 <= s < |sets| && (s != cur || c !in syms) && RowDone(a, sets, delta, s, syms)
      ensures RowDone(a, sets', delta', s, syms)
    {
      assert sets'[s] == sets[s];
    }
  }

  lemma PrefixStep(s: seq<char>, i: nat)
    requires i < |s|
    ensures s[..i + 1] == s[..i] + [s[i]]
  {
  }

  /** Pushing the index of a new subset keeps the worklist valid and adds only that index. */
  lemma PushKeepsWork(work: seq<int>, n: int, n': int, work': seq<int>)
    requires WorkOk(work, n) && 0 <= n <= n' <= n + 1
    requires work' == if n' == n then work else work + [n]
    ensures WorkOk(work', n')
    ensures forall x :: x in work' <==> x in work || (n' > n && x == n)
  {
    if n' > n {
      forall i, j | 0 <= i < j < |work'|
        ensures work'[i] != work'[j]
      {
        assert work'[i] == work[i] && 0 <= work[i] < n;
        if j < |work| {
          assert work'[j] == work[j];
        } else {
          assert work'[j] == n;
        }
      }
      forall k | 0 <= k < |work'|
        ensures 0 <= work'[k] < n'
      {
        if k < |work| {
          assert work'[k] == work[k];
        }
      }
    }
  }

  /** One successful AddEdge on symbol alpha[i] advances the inner bookkeeping by one symbol. */
  lemma EdgeStep(a: Nfa, alpha: seq<char>, sets: seq<StateSet>, work: seq<int>, delta: map<(int, char), int>,
                 cur: int, i: nat, sets': seq<StateSet>, work': seq<int>, delta': map<(int, char), int>)
    requires Expanding(a, alpha, sets, work, delta, cur, i) && i < |alpha| && alpha[i] !in alpha[..i]
    requires |sets| <= |sets'| <= |sets| + 1 && sets'[..|sets|] == sets
    requires work' == if |sets'| == |sets| then work else work + [|sets|]
    requires if |Move(a, sets[cur], alpha[i] as int)| > 0
             then (cur, alpha[i]) in delta' && delta' == delta[(cur, alpha[i]) := delta'[(cur, alpha[i])]]
             else delta' == delta
    ensures Expanding(a, alpha, sets', work', delta', cur, i + 1)
  {
    var c := alpha[i];
    PushKeepsWork(work, |sets|, |sets'|, work');
    KeysStep(alpha, sets, work, delta, cur, i, work', delta');
    KeepRows(a, sets, delta, sets', delta', cur, c, alpha[..i]);
    assert sets'[cur] == sets[cur];
    RowStep(a, sets', delta', cur, alpha, i);
    KeepRows(a, sets, delta, sets', delta', cur, c, alpha);
    assert forall s :: 0 <= s < |sets'| && s != cur && s !in work' ==> s < |sets| && s !in work;
  }

  /** After the step every entry is still on an alphabet symbol and off the worklist, and cur's entries are on alpha[..i + 1]. */
  lemma KeysStep(alpha: seq<char>, sets: seq<StateSet>, work: seq<int>, delta: map<(int, char), int>,
                 cur: int, i: nat, work': seq<int>, delta': map<(int, char), int>)
    requires i < |alpha| && 0 <= cur < |sets| && cur !in work
    requires forall k :: k in delta ==> k.1 in alpha && 0 <= k.0 < |sets| && k.0 !in work
    requires forall k :: k in delta && k.0 == cur ==> k.1 in alpha[..i]
    requires forall x :: x in work' ==> x in work || x == |sets|
    requires delta' == delta || ((cur, alpha[i]) in delta' && delta' == delta[(cur, alpha[i]) := delta'[(cur, alpha[i])]])
    ensures cur !in work'
    ensures forall k :: k in delta' ==> k.1 in alpha && 0 <= k.0 < |sets| && k.0 !in work'
    ensures forall k :: k in delta' && k.0 == cur ==> k.1 in alpha[..i + 1]
  {
    PrefixStep(alpha, i);
  }

  /** The row of cur, complete for the first i symbols and settled for symbol i, is complete for i + 1. */
  lemma RowStep(a: Nfa, sets: seq<StateSet>, delta: map<(int, char), int>, cur: int, alpha: seq<char>, i: nat)
    requires 0 <= cur < |sets| && i < |alpha|
    requires RowDone(a, sets, delta, cur, alpha[..i])
    requires (cur, alpha[i]) in delta <==> |Move(a, sets[cur], alpha[i] as int)| > 0
    ensures RowDone(a, sets, delta, cur, alpha[..i + 1])
  {
    PrefixStep(alpha, i);
  }

  /** The DFA states whose subset holds a final NFA state (the final-state loop of nfa_to_dfa). */
  function FinalSubsets(a: Nfa, sets: seq<StateSet>): set<int>
  {
    set i | 0 <= i < |sets| && exists j :: 0 <= j < |sets[i]| && sets[i][j] in a.finals
  }

  lemma FinalSubsetsMeaning(a: Nfa, sets: seq<StateSet>)
    ensures forall s :: s in FinalSubsets(a, sets) <==> 0 <= s < |sets| && Elements(sets[s]) * a.finals != {}
  {
    forall s | 0 <= s < |sets|
      ensures s in FinalSubsets(a, sets) <==> Elements(sets[s]) * a.finals != {}
    {
      if exists j :: 0 <= j < |sets[s]| && sets[s][j] in a.finals {
        var j :| 0 <= j < |sets[s]| && sets[s][j] in a.finals;
        assert sets[s][j] in Elements(sets[s]) * a.finals;
      } else {
        forall x | x in Elements(sets[s])
          ensures x !in a.finals
        {
          var j :| 0 <= j < |sets[s]| && sets[s][j] == x;
        }
        assert Elements(sets[s]) * a.finals == {};
      }
    }
  }

  /** The initial state: the start closure alone, on the worklist, with an empty table. */
  lemma StartPending(a: Nfa, alpha: seq<char>, init: StateSet)
    requires |init| > 0 && Distinct(init) && Within(init, a.numStates) && EpsClosed(a, Elements(init))
    ensures SubsetsOk(a, [init]) && TableOk(a, [init], map[]) && Pending(a, alpha, [init], [0], map[])
  {
  }

  /** No symbol repeats an earlier one in the alphabet. */
  lemma AlphabetFresh(i: nat)
    requires i < |Alphabet()|
    ensures Alphabet()[i] !in Alphabet()[..i]
  {
    AlphabetShape();
  }

  /** With the worklist empty, the table and final states built make a valid construction. */
  lemma Finished(a: Nfa, init: StateSet, c: Construction)
    requires SubsetsOk(a, c.subsets) && TableOk(a, c.subsets, c.dfa.delta)
    requires Pending(a, Alphabet(), c.subsets, [], c.dfa.delta) && c.subsets[0] == init
    requires init == EpsilonClosure(a, [a.start]) && Reached(a, c.subsets)
    requires c.dfa == Dfa(|c.subsets|, 0, FinalSubsets(a, c.subsets), Alphabet(), c.dfa.delta)
    ensures ConstructionOk(a, c)
  {
    FinalSubsetsMeaning(a, c.subsets);
    var sets, delta := c.subsets, c.dfa.delta;
    forall k | k in delta
      ensures 0 <= delta[k] < |sets|
    {
      assert EntryOk(a, sets, delta, k);
    }
    ReachedIsEntered(a, sets, delta);
  }

  /**
   * The body of the outer loop of nfa_to_dfa for the popped state cur: one AddEdge per
   * alphabet symbol, in alphabet order. Fails when AddEdge does.
   */
  method ExpandState(a: Nfa, sets: seq<StateSet>, work: seq<int>, delta: map<(int, char), int>, cur: int)
    returns (ok: bool, sets': seq<StateSet>, work': seq<int>, delta': map<(int, char), int>, bad: char)
    requires ValidNfa(a) && SubsetsOk(a, sets) && TableOk(a, sets, delta)
    requires Expanding(a, Alphabet(), sets, work, delta, cur, 0) && Reached(a, sets)
    ensures |sets| <= |sets'| && sets'[..|sets|] == sets && SubsetsOk(a, sets') && Reached(a, sets')
    ensures ok ==> TableOk(a, sets', delta') && Pending(a, Alphabet(), sets', work', delta')
    ensures ok ==> |work'| == |work| + (|sets'| - |sets|)
    ensures !ok ==> bad in Alphabet() && Overflows(a, sets', cur, bad)
  {
    var alpha := Alphabet();
    sets', work', delta', bad := sets, work, delta, '\0';
    var i := 0;
    while i < |alpha|
      invariant SubsetsOk(a, sets') && TableOk(a, sets', delta') && Expanding(a, alpha, sets', work', delta', cur, i)
      invariant |sets| <= |sets'| && sets'[..|sets|] == sets && |work'| == |work| + (|sets'| - |sets|)
      invariant Reached(a, sets')
    {
      AlphabetFresh(i);
      assert (cur, alpha[i]) !in delta';
      var ok', sets'', work'', delta'' := AddEdge(a, sets', work', delta', cur, alpha[i]);
      if !ok' {
        return false, sets', work', delta', alpha[i];
      }
      EdgeStep(a, alpha, sets', work', delta', cur, i, sets'', work'', delta'');
      GrowKeepsReached(a, sets', sets'', cur, alpha[i]);
      PrefixKept(sets, sets', sets'');
      sets', work', delta' := sets'', work'', delta'';
      i := i + 1;
    }
    ExpandedIsPending(a, alpha, sets', work', delta', cur);
    return true, sets', work', delta', bad;
  }

  /** Appending the successor of a known subset on an alphabet symbol keeps every subset reached. */
  lemma GrowKeepsReached(a: Nfa, sets: seq<StateSet>, sets': seq<StateSet>, cur: int, c: char)
    requires Reached(a, sets) && 0 <= cur < |sets| && c in Alphabet()
    requires sets' == sets || (|Move(a, sets[cur], c as int)| > 0 && sets' == sets + [Successor(a, sets[cur], c)])
    ensures Reached(a, sets')
  {
    if sets' != sets {
      AppendKeepsReached(a, sets, Successor(a, sets[cur], c), cur, c);
    }
  }

  lemma AppendKeepsReached(a: Nfa, sets: seq<StateSet>, next: StateSet, cur: int, c: char)
    requires Reached(a, sets) && 0 <= cur < |sets| && c in Alphabet()
    requires |Move(a, sets[cur], c as int)| > 0 && next == Successor(a, sets[cur], c)
    ensures Reached(a, sets + [next])
  {
    var sets' := sets + [next];
    forall s | 0 < s < |sets'|
      ensures ReachedAt(a, sets', s)
    {
      if s < |sets| {
        assert ReachedAt(a, sets, s);
        var t :| 0 <= t < s && SuccessorOf(a, sets[s], sets[t]);
        assert sets'[t] == sets[t] && sets'[s] == sets[s];
      } else {
        assert sets'[cur] == sets[cur] && sets'[s] == next;
        assert SuccessorOf(a, next, sets[cur]);
      }
    }
  }

  /**
   * With every row complete, each subset found as a successor is entered by the table entry
   * that found it, since the subsets listed are pairwise different.
   */
  lemma ReachedIsEntered(a: Nfa, sets: seq<StateSet>, delta: map<(int, char), int>)
    requires SubsetsOk(a, sets) && TableOk(a, sets, delta) && Reached(a, sets)
    requires forall s :: 0 <= s < |sets| ==> RowDone(a, sets, delta, s, Alphabet())
    ensures Entered(delta, |sets|)
  {
    forall s | 0 < s < |sets|
      ensures EnteredAt(delta, s)
    {
      assert ReachedAt(a, sets, s);
      var t :| 0 <= t < s && SuccessorOf(a, sets[s], sets[t]);
      var c :| c in Alphabet() && |Move(a, sets[t], c as int)| > 0 && sets[s] == Successor(a, sets[t], c);
      assert RowDone(a, sets, delta, t, Alphabet());
      assert (t, c) in delta;
      assert EntryOk(a, sets, delta, (t, c));
      SameElementsSameIndex(a, sets, delta[(t, c)], s);
    }
  }

  /** Two indices of a valid subset list that list the same states are the same index. */
  lemma SameElementsSameIndex(a: Nfa, sets: seq<StateSet>, i: int, j: int)
    requires SubsetsOk(a, sets) && 0 <= i < |sets| && 0 <= j < |sets|
    requires Elements(sets[i]) == Elements(sets[j])
    ensures i == j
  {
  }

  lemma PrefixKept(a: seq<StateSet>, b: seq<StateSet>, c: seq<StateSet>)
    requires |a| <= |b| <= |c| && b[..|a|] == a && c[..|b|] == b
    ensures c[..|a|] == a
  {
    assert c[..|a|] == c[..|b|][..|a|];
  }

  /**
   * nfa_to_dfa: starting from the ε-closure of the start state, expands each unmarked DFA
   * state (last pushed first) on every alphabet symbol. Each DFA state stands for a
   * distinct ε-closed NFA subset; the table sends state s on c to the subset reached from
   * it exactly when move(s, c) is non-empty; a state is final exactly when its subset
   * holds a final NFA state. Fails when a new subset is needed but all slots are taken.
   */
  method NfaToDfa(a: Nfa) returns (r: Result<Construction, BuildError>)
    requires ValidNfa(a)
    ensures r.Success? ==> ConstructionOk(a, r.value)
    ensures r.Failure? ==>
      |r.error.found| == MaxStates && SubsetsOk(a, r.error.found)
      && r.error.found[0] == EpsilonClosure(a, [a.start])
      && r.error.symbol in Alphabet() && Overflows(a, r.error.found, r.error.from, r.error.symbol)
      && Reached(a, r.error.found)
  {
    var init := EpsilonClosure(a, [a.start]);
    ClosureWithin(a, [a.start]);
    ClosureIsClosed(a, [a.start]);
    var sets := [init];
    var work := [0];
    var delta: map<(int, char), int> := map[];
    StartPending(a, Alphabet(), init);
    while |work| > 0
      invariant SubsetsOk(a, sets) && TableOk(a, sets, delta) && Pending(a, Alphabet(), sets, work, delta)
      invariant sets[0] == init && Reached(a, sets)
      decreases MaxStates - |sets|, |work|
    {
      PopStartsExpanding(a, Alphabet(), sets, work, delta);
      var cur := work[|work| - 1];
      var ok, sets', work', delta', bad := ExpandState(a, sets, work[..|work| - 1], delta, cur);
      assert sets'[0] == sets'[..|sets|][0];
      if !ok {
        return Failure(TooManyStates(sets', cur, bad));
      }
      sets, work, delta := sets', work', delta';
    }
    var c := Construction(Dfa(|sets|, 0, FinalSubsets(a, sets), Alphabet(), delta), sets);
    Finished(a, init, c);
    return Success(c);
  }
}
