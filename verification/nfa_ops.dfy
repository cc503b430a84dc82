/**
 * The two NFA set operations of the subset construction (nfa_dfa.c): `move` and the
 * ε-closure fixpoint, both built from ordered scans of the transition list.
 */
module NfaOps {
  import opened Automata
  import opened StateSets

  /** The targets of the edges labelled sym that leave state x. */
  function Targets(ts: seq<Transition>, x: int, sym: int): set<int>
  {
    set t | t in ts && t.from == x && t.symbol == sym :: t.to
  }

  /** Reference set of `move`: the targets of the edges labelled sym that leave a state of S. */
  function MoveSet(a: Nfa, S: set<int>, sym: int): set<int>
  {
    set t | t in a.transitions && t.from in S && t.symbol == sym :: t.to
  }

  /** T has no ε-edge leaving it. */
  predicate EpsClosed(a: Nfa, T: set<int>)
  {
    forall t :: t in a.transitions && t.symbol == Epsilon && t.from in T ==> t.to in T
  }

  /** The list acc extends to r: r keeps acc as its prefix. */
  predicate Extends(acc: StateSet, r: StateSet)
  {
    |acc| <= |r| && r[..|acc|] == acc
  }

  /** Every edge target of the list is below n. */
  predicate TargetsBelow(ts: seq<Transition>, n: int)
  {
    forall i :: 0 <= i < |ts| ==> 0 <= ts[i].to < n
  }

  /**
   * The inner scan shared by `move` and `epsilon_closure`: walks the transitions in order
   * and state_set_adds the target of each edge that leaves x with label sym.
   */
  function AddTargets(ts: seq<Transition>, x: int, sym: int, acc: StateSet): (r: StateSet)
    decreases |ts|
    ensures Extends(acc, r)
    ensures |acc| <= MaxStates ==> |r| <= MaxStates
    ensures Distinct(acc) ==> Distinct(r)
    ensures Elements(r) <= Elements(acc) + Targets(ts, x, sym)
  {
    if |ts| == 0 then acc
    else
      var acc' := if ts[0].from == x && ts[0].symbol == sym then Add(acc, ts[0].to) else acc;
      var r := AddTargets(ts[1..], x, sym, acc');
      AddTargetsStep(ts, x, sym, acc, r);
      r
  }

  /** The contract of AddTargets carries over the scan of the first edge. */
  lemma AddTargetsStep(ts: seq<Transition>, x: int, sym: int, acc: StateSet, r: StateSet)
    requires |ts| > 0
    requires var acc' := if ts[0].from == x && ts[0].symbol == sym then Add(acc, ts[0].to) else acc;
      && Extends(acc', r) && (|acc'| <= MaxStates ==> |r| <= MaxStates) && (Distinct(acc') ==> Distinct(r))
      && Elements(r) <= Elements(acc') + Targets(ts[1..], x, sym)
    ensures Extends(acc, r) && (|acc| <= MaxStates ==> |r| <= MaxStates) && (Distinct(acc) ==> Distinct(r))
    ensures Elements(r) <= Elements(acc) + Targets(ts, x, sym)
  {
    var acc' := if ts[0].from == x && ts[0].symbol == sym then Add(acc, ts[0].to) else acc;
    assert Extends(acc, acc') by {
      assert acc'[..|acc|] == acc;
    }
    ExtendsTransitive(acc, acc', r);
    TargetsUnfold(ts, x, sym);
  }

  lemma TargetsUnfold(ts: seq<Transition>, x: int, sym: int)
    requires |ts| > 0
    ensures Targets(ts, x, sym)
         == (if ts[0].from == x && ts[0].symbol == sym then {ts[0].to} else {}) + Targets(ts[1..], x, sym)
  {
    assert forall t :: t in ts <==> t == ts[0] || t in ts[1..];
  }

  /** With room for every state below n, the scan adds exactly the targets. */
  lemma {:induction false} AddTargetsExact(ts: seq<Transition>, x: int, sym: int, acc: StateSet, n: nat)
    requires Distinct(acc) && Within(acc, n) && n <= MaxStates && TargetsBelow(ts, n)
    ensures Within(AddTargets(ts, x, sym, acc), n)
    ensures Elements(AddTargets(ts, x, sym, acc)) == Elements(acc) + Targets(ts, x, sym)
    decreases |ts|
  {
    if |ts| > 0 {
      var acc' := if ts[0].from == x && ts[0].symbol == sym then Add(acc, ts[0].to) else acc;
      if ts[0].from == x && ts[0].symbol == sym {
        AddHasRoom(acc, ts[0].to, n);
      }
      TargetsUnfold(ts, x, sym);
      AddTargetsExact(ts[1..], x, sym, acc', n);
    }
  }

  /** The outer loop of `move`: the scan above for each listed state, in order. */
  function MoveFrom(a: Nfa, states: StateSet, sym: int, acc: StateSet): (r: StateSet)
    decreases |states|
    ensures Extends(acc, r)
    ensures |acc| <= MaxStates ==> |r| <= MaxStates
    ensures Distinct(acc) ==> Distinct(r)
    ensures Elements(r) <= Elements(acc) + MoveSet(a, Elements(states), sym)
  {
    if |states| == 0 then acc
    else
      var acc' := AddTargets(a.transitions, states[0], sym, acc);
      MoveSetUnfold(a, states, sym);
      MoveFrom(a, states[1..], sym, acc')
  }

  lemma MoveSetUnfold(a: Nfa, states: StateSet, sym: int)
    requires |states| > 0
    ensures MoveSet(a, Elements(states), sym)
         == Targets(a.transitions, states[0], sym) + MoveSet(a, Elements(states[1..]), sym)
  {
    assert Elements(states) == {states[0]} + Elements(states[1..]);
  }

  /**
   * move: the list of states reached from `states` by one edge labelled sym, each listed
   * once. The empty list when no edge matches.
   */
  function Move(a: Nfa, states: StateSet, sym: int): (r: StateSet)
    ensures Distinct(r) && |r| <= MaxStates
    ensures Elements(r) <= MoveSet(a, Elements(states), sym)
  {
    MoveFrom(a, states, sym, [])
  }

  /** On a valid NFA, move lists exactly the reference set, all of it below numStates. */
  lemma {:induction false} MoveExact(a: Nfa, states: StateSet, sym: int)
    requires ValidNfa(a)
    ensures Within(Move(a, states, sym), a.numStates)
    ensures Elements(Move(a, states, sym)) == MoveSet(a, Elements(states), sym)
  {
    assert TargetsBelow(a.transitions, a.numStates);
    MoveFromExact(a, states, sym, []);
  }

  lemma {:induction false} MoveFromExact(a: Nfa, states: StateSet, sym: int, acc: StateSet)
    requires ValidNfa(a) && Distinct(acc) && Within(acc, a.numStates)
    ensures Within(MoveFrom(a, states, sym, acc), a.numStates)
    ensures Elements(MoveFrom(a, states, sym, acc)) == Elements(acc) + MoveSet(a, Elements(states), sym)
    decreases |states|
  {
    if |states| > 0 {
      assert TargetsBelow(a.transitions, a.numStates);
      AddTargetsExact(a.transitions, states[0], sym, acc, a.numStates);
      MoveSetUnfold(a, states, sym);
      MoveFromExact(a, states[1..], sym, AddTargets(a.transitions, states[0], sym, acc));
    }
  }

  /**
   * One pass of the closure loop from index i: adds the ε-targets of each listed state
   * in turn, including states appended during the pass (the bound is re-read each round).
   */
  function ClosurePass(a: Nfa, c: StateSet, i: nat): (r: StateSet)
    requires i <= |c| <= MaxStates
    decreases MaxStates - i
    ensures Extends(c, r) && |r| <= MaxStates
    ensures Distinct(c) ==> Distinct(r)
    ensures |r| == |c| ==> forall j :: i <= j < |c| ==> AddTargets(a.transitions, c[j], Epsilon, c) == c
  {
    if i == |c| then c
    else
      var c' := AddTargets(a.transitions, c[i], Epsilon, c);
      var r := ClosurePass(a, c', i + 1);
      ClosurePassStep(a, c, i, r);
      r
  }

  /** The pass's contract at i from its contract at i + 1, after the targets of c[i] are added. */
  lemma ClosurePassStep(a: Nfa, c: StateSet, i: nat, r: StateSet)
    requires i < |c| <= MaxStates
    requires var c' := AddTargets(a.transitions, c[i], Epsilon, c);
      && Extends(c', r) && |r| <= MaxStates && (Distinct(c') ==> Distinct(r))
      && (|r| == |c'| ==> forall j :: i + 1 <= j < |c'| ==> AddTargets(a.transitions, c'[j], Epsilon, c') == c')
    ensures Extends(c, r) && |r| <= MaxStates
    ensures Distinct(c) ==> Distinct(r)
    ensures |r| == |c| ==> forall j :: i <= j < |c| ==> AddTargets(a.transitions, c[j], Epsilon, c) == c
  {
    var c' := AddTargets(a.transitions, c[i], Epsilon, c);
    ExtendsTransitive(c, c', r);
    if |r| == |c| {
      assert c' == c by {
        assert |c'| == |c|;
        assert c'[..|c'|] == c';
      }
    }
  }

  /**
   * epsilon_closure: repeats the pass until one adds nothing. Each repeated pass strictly
   * grows a list bounded by MaxStates, so the loop ends.
   */
  function EpsilonClosure(a: Nfa, states: StateSet): (r: StateSet)
    requires |states| <= MaxStates
    decreases MaxStates - |states|
    ensures Extends(states, r) && |r| <= MaxStates
    ensures Distinct(states) ==> Distinct(r)
    ensures forall j :: 0 <= j < |r| ==> AddTargets(a.transitions, r[j], Epsilon, r) == r
  {
    var c := ClosurePass(a, states, 0);
    if |c| > |states| then
      var r := EpsilonClosure(a, c);
      ExtendsTransitive(states, c, r);
      r
    else
      assert c == c[..|states|];
      c
  }

  lemma ExtendsTransitive(a: StateSet, b: StateSet, c: StateSet)
    requires Extends(a, b) && Extends(b, c)
    ensures Extends(a, c)
  {
    assert c[..|a|] == c[..|b|][..|a|];
  }

  /** The closure contains its input. */
  lemma ClosureContainsInput(a: Nfa, states: StateSet)
    requires |states| <= MaxStates
    ensures Elements(states) <= Elements(EpsilonClosure(a, states))
  {
    var r := EpsilonClosure(a, states);
    forall x | x in Elements(states)
      ensures x in Elements(r)
    {
      var k :| 0 <= k < |states| && states[k] == x;
      assert r[..|states|][k] == x;
    }
  }

  /** A scan that adds nothing finds every target already listed. */
  lemma AddTargetsStable(ts: seq<Transition>, x: int, sym: int, acc: StateSet, n: nat)
    requires Distinct(acc) && Within(acc, n) && n <= MaxStates && TargetsBelow(ts, n)
    requires AddTargets(ts, x, sym, acc) == acc
    ensures Targets(ts, x, sym) <= Elements(acc)
  {
    AddTargetsExact(ts, x, sym, acc, n);
  }

  /** On a valid NFA, the closure of states below numStates has no ε-edge leaving it. */
  lemma ClosureIsClosed(a: Nfa, states: StateSet)
    requires ValidNfa(a) && |states| <= MaxStates && Distinct(states) && Within(states, a.numStates)
    ensures EpsClosed(a, Elements(EpsilonClosure(a, states)))
  {
    var r := EpsilonClosure(a, states);
    ClosureWithin(a, states);
    assert TargetsBelow(a.transitions, a.numStates);
    forall t | t in a.transitions && t.symbol == Epsilon && t.from in Elements(r)
      ensures t.to in Elements(r)
    {
      var j :| 0 <= j < |r| && r[j] == t.from;
      AddTargetsStable(a.transitions, r[j], Epsilon, r, a.numStates);
      assert t.to in Targets(a.transitions, r[j], Epsilon);
    }
  }

  /** The scan stays below n when the edges do. */
  lemma ClosurePassWithin(a: Nfa, c: StateSet, i: nat)
    requires ValidNfa(a) && i <= |c| <= MaxStates && Distinct(c) && Within(c, a.numStates)
    ensures Within(ClosurePass(a, c, i), a.numStates)
    decreases MaxStates - i
  {
    if i < |c| {
      assert TargetsBelow(a.transitions, a.numStates);
      AddTargetsExact(a.transitions, c[i], Epsilon, c, a.numStates);
      ClosurePassWithin(a, AddTargets(a.transitions, c[i], Epsilon, c), i + 1);
    }
  }

  lemma ClosureWithin(a: Nfa, states: StateSet)
    requires ValidNfa(a) && |states| <= MaxStates && Distinct(states) && Within(states, a.numStates)
    ensures Within(EpsilonClosure(a, states), a.numStates)
    decreases MaxStates - |states|
  {
    ClosurePassWithin(a, states, 0);
    var c := ClosurePass(a, states, 0);
    if |c| > |states| {
      ClosureWithin(a, c);
    }
  }

  /** A pass never leaves an ε-closed set containing its input. */
  lemma {:induction false} ClosurePassLeast(a: Nfa, c: StateSet, i: nat, T: set<int>)
    requires i <= |c| <= MaxStates && Elements(c) <= T && EpsClosed(a, T)
    ensures Elements(ClosurePass(a, c, i)) <= T
    decreases MaxStates - i
  {
    if i < |c| {
      var c' := AddTargets(a.transitions, c[i], Epsilon, c);
      assert Targets(a.transitions, c[i], Epsilon) <= T;
      ClosurePassLeast(a, c', i + 1, T);
    }
  }

  /**
   * The closure holds only states ε-reachable from the input: it lies inside every
   * ε-closed set that contains the input.
   */
  lemma {:induction false} ClosureLeast(a: Nfa, states: StateSet, T: set<int>)
    requires |states| <= MaxStates && Elements(states) <= T && EpsClosed(a, T)
    ensures Elements(EpsilonClosure(a, states)) <= T
    decreases MaxStates - |states|
  {
    ClosurePassLeast(a, states, 0, T);
    var c := ClosurePass(a, states, 0);
    if |c| > |states| {
      ClosureLeast(a, c, T);
    }
  }
}
