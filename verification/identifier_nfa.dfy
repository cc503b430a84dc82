/**
 * The fixed NFA of create_nfa_for_identifier (nfa_dfa.c) for letter(letter|digit)*,
 * where a letter is a-z, A-Z or `_`: state 0 starts, state 1 is final.
 */
module IdentifierNfa {
  import opened Automata
  import opened NfaOps
  import opened CharClasses

  /** The code of a character that may start an identifier. */
  predicate IsStartCode(x: int)
  {
    'a' as int <= x <= 'z' as int || 'A' as int <= x <= 'Z' as int || x == '_' as int
  }

  /** The code of a character that may continue an identifier. */
  predicate IsPartCode(x: int)
  {
    IsStartCode(x) || '0' as int <= x <= '9' as int
  }

  /** The codes agree with the identifier character classes. */
  lemma CodesMatchClasses(c: char)
    ensures IsStartCode(c as int) <==> IsIdentStart(c)
    ensures IsPartCode(c as int) <==> IsIdentChar(c)
  {
  }

  /** The edges from `from` to `to` on every character lo .. hi, in increasing order (one C for loop). */
  function Edges(from: int, to: int, lo: char, hi: char): (r: seq<Transition>)
    requires lo <= hi
    ensures |r| == hi as int - lo as int + 1
    ensures forall i :: 0 <= i < |r| ==> r[i] == Transition(from, to, lo as int + i)
  {
    seq(hi as int - lo as int + 1, i requires 0 <= i <= hi as int - lo as int => Transition(from, to, lo as int + i))
  }

  /** An edge is among Edges(from, to, lo, hi) exactly when it joins the two states on a symbol in lo .. hi. */
  lemma EdgesMembers(from: int, to: int, lo: char, hi: char, t: Transition)
    requires lo <= hi
    ensures t in Edges(from, to, lo, hi) <==> t.from == from && t.to == to && lo as int <= t.symbol <= hi as int
  {
    var r := Edges(from, to, lo, hi);
    if t.from == from && t.to == to && lo as int <= t.symbol <= hi as int {
      assert r[t.symbol - lo as int] == t;
    }
  }

  /** The 53 edges 0 -> 1 on a-z, A-Z and `_`. */
  function StartEdges(): seq<Transition>
  {
    Edges(0, 1, 'a', 'z') + Edges(0, 1, 'A', 'Z') + [Transition(0, 1, '_' as int)]
  }

  /** The 63 loops 1 -> 1 on a-z, A-Z, 0-9 and `_`. */
  function LoopEdges(): seq<Transition>
  {
    Edges(1, 1, 'a', 'z') + Edges(1, 1, 'A', 'Z') + Edges(1, 1, '0', '9') + [Transition(1, 1, '_' as int)]
  }

  /** create_nfa_for_identifier: two states, start 0, final {1}, the start edges then the loops. */
  function CreateIdentifierNfa(): (a: Nfa)
    ensures a.numStates == 2 && a.start == 0 && a.finals == {1}
    ensures |a.transitions| == 116
  {
    Nfa(2, 0, {1}, StartEdges() + LoopEdges())
  }

  /**
   * The edges are exactly 0 -> 1 on identifier-start codes and 1 -> 1 on identifier
   * codes: 53 and 63 of them, none labelled ε.
   */
  lemma IdentifierNfaEdges(t: Transition)
    ensures t in CreateIdentifierNfa().transitions <==>
      (t.from == 0 && t.to == 1 && IsStartCode(t.symbol)) || (t.from == 1 && t.to == 1 && IsPartCode(t.symbol))
    ensures t in CreateIdentifierNfa().transitions ==> t.symbol != Epsilon
    ensures |StartEdges()| == 53 && |LoopEdges()| == 63
  {
    EdgesMembers(0, 1, 'a', 'z', t);
    EdgesMembers(0, 1, 'A', 'Z', t);
    EdgesMembers(1, 1, 'a', 'z', t);
    EdgesMembers(1, 1, 'A', 'Z', t);
    EdgesMembers(1, 1, '0', '9', t);
    assert CreateIdentifierNfa().transitions == StartEdges() + LoopEdges();
  }

  /** The identifier NFA is valid: both states exist and every edge joins them. */
  lemma IdentifierNfaValid()
    ensures ValidNfa(CreateIdentifierNfa())
  {
    var ts := CreateIdentifierNfa().transitions;
    forall i | 0 <= i < |ts|
      ensures 0 <= ts[i].from < 2 && 0 <= ts[i].to < 2
    {
      IdentifierNfaEdges(ts[i]);
    }
  }

  /** One step from the start state: to {1} on an identifier-start code, nowhere otherwise. */
  lemma StepFromStart(x: int)
    ensures MoveSet(CreateIdentifierNfa(), {0}, x) == if IsStartCode(x) then {1} else {}
  {
    var a := CreateIdentifierNfa();
    if IsStartCode(x) {
      IdentifierNfaEdges(Transition(0, 1, x));
    }
    forall t | t in a.transitions && t.from in {0} && t.symbol == x
      ensures t.to == 1 && IsStartCode(x)
    {
      IdentifierNfaEdges(t);
    }
  }

  /** One step from the final state: back to {1} on an identifier code, nowhere otherwise. */
  lemma StepFromFinal(x: int)
    ensures MoveSet(CreateIdentifierNfa(), {1}, x) == if IsPartCode(x) then {1} else {}
  {
    var a := CreateIdentifierNfa();
    if IsPartCode(x) {
      IdentifierNfaEdges(Transition(1, 1, x));
    }
    forall t | t in a.transitions && t.from in {1} && t.symbol == x
      ensures t.to == 1 && IsPartCode(x)
    {
      IdentifierNfaEdges(t);
    }
  }

  /** The states an ε-free NFA reaches from S by reading w. */
  function Reach(a: Nfa, S: set<int>, w: string): set<int>
    decreases |w|
  {
    if |w| == 0 then S else Reach(a, MoveSet(a, S, w[0] as int), w[1..])
  }

  /** Nothing is reached from no state. */
  lemma {:induction false} ReachFromNothing(w: string)
    ensures Reach(CreateIdentifierNfa(), {}, w) == {}
    decreases |w|
  {
    if |w| > 0 {
      assert MoveSet(CreateIdentifierNfa(), {}, w[0] as int) == {};
      ReachFromNothing(w[1..]);
    }
  }

  /** From the final state, w keeps the NFA in {1} exactly when every character of w may continue an identifier. */
  lemma {:induction false} ReachFromFinal(w: string)
    ensures Reach(CreateIdentifierNfa(), {1}, w)
         == if forall i :: 0 <= i < |w| ==> IsIdentChar(w[i]) then {1} else {}
    decreases |w|
  {
    if |w| > 0 {
      var a := CreateIdentifierNfa();
      var m := MoveSet(a, {1}, w[0] as int);
      assert Reach(a, {1}, w) == Reach(a, m, w[1..]);
      StepFromFinal(w[0] as int);
      CodesMatchClasses(w[0]);
      AllIdentCharsUnfold(w);
      if IsIdentChar(w[0]) {
        ReachFromFinal(w[1..]);
      } else {
        ReachFromNothing(w[1..]);
      }
    }
  }

  lemma AllIdentCharsUnfold(w: string)
    requires |w| > 0
    ensures (forall i :: 0 <= i < |w| ==> IsIdentChar(w[i]))
        <==> IsIdentChar(w[0]) && forall i :: 0 <= i < |w[1..]| ==> IsIdentChar(w[1..][i])
  {
    assert forall i :: 1 <= i < |w| ==> w[1..][i - 1] == w[i];
  }

  /**
   * The identifier NFA accepts exactly the identifier texts of the scanner: a letter or
   * underscore followed by letters, digits and underscores.
   */
  lemma IdentifierNfaLanguage(w: string)
    ensures 1 in Reach(CreateIdentifierNfa(), {0}, w) <==> IsIdentifierText(w)
  {
    if |w| > 0 {
      var a := CreateIdentifierNfa();
      assert Reach(a, {0}, w) == Reach(a, MoveSet(a, {0}, w[0] as int), w[1..]);
      StepFromStart(w[0] as int);
      CodesMatchClasses(w[0]);
      AllIdentCharsUnfold(w);
      if IsIdentStart(w[0]) {
        ReachFromFinal(w[1..]);
      } else {
        ReachFromNothing(w[1..]);
      }
    }
  }

  /** An NFA without ε-edges: the closure of any list is the list itself. */
  lemma {:induction false} NoEpsilonScan(ts: seq<Transition>, x: int, acc: StateSet)
    requires forall i :: 0 <= i < |ts| ==> ts[i].symbol != Epsilon
    ensures AddTargets(ts, x, Epsilon, acc) == acc
    decreases |ts|
  {
    if |ts| > 0 {
      NoEpsilonScan(ts[1..], x, acc);
    }
  }

  lemma {:induction false} NoEpsilonPass(a: Nfa, c: StateSet, i: nat)
    requires i <= |c| <= MaxStates
    requires forall k :: 0 <= k < |a.transitions| ==> a.transitions[k].symbol != Epsilon
    ensures ClosurePass(a, c, i) == c
    decreases MaxStates - i
  {
    if i < |c| {
      NoEpsilonScan(a.transitions, c[i], c);
      NoEpsilonPass(a, c, i + 1);
    }
  }

  /** In the identifier NFA every set is already ε-closed: epsilon_closure returns its input. */
  lemma IdentifierClosureIsIdentity(states: StateSet)
    requires |states| <= MaxStates
    ensures EpsilonClosure(CreateIdentifierNfa(), states) == states
  {
    var a := CreateIdentifierNfa();
    forall k | 0 <= k < |a.transitions|
      ensures a.transitions[k].symbol != Epsilon
    {
      IdentifierNfaEdges(a.transitions[k]);
    }
    NoEpsilonPass(a, states, 0);
  }
}
