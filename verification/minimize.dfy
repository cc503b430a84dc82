/**
 * minimize_dfa (nfa_dfa.c): partition refinement starting from final / non-final, then
 * one DFA state per class. A state leaves its class when some alphabet symbol tells it
 * apart from the class's first member.
 */
module Minimize {
  import opened Automata

  /** A partition of the DFA's states into class ids 0 .. np-1. */
  predicate PartitionOk(d: Dfa, part: seq<int>, np: int)
  {
    && ValidDfa(d) && |part| == d.numStates && 0 <= np
    && forall i :: 0 <= i < |part| ==> 0 <= part[i] < np
  }

  /** The initial partition: class 1 for final states, class 0 for the others. */
  function InitialPartition(d: Dfa): (part: seq<int>)
    requires ValidDfa(d)
    ensures PartitionOk(d, part, 2)
    ensures forall i :: 0 <= i < |part| ==> (part[i] == 1 <==> i in d.finals)
  {
    seq(d.numStates, i => if i in d.finals then 1 else 0)
  }

  /**
   * States s and t agree on c: both have a transition on c or neither has, and when both
   * do, the targets are in the same class.
   */
  predicate Agree(d: Dfa, part: seq<int>, s: int, t: int, c: char)
    requires ValidDfa(d) && |part| == d.numStates && 0 <= s < d.numStates && 0 <= t < d.numStates
  {
    var n1, n2 := Next(d, s, c), Next(d, t, c);
    && (n1 == NoState <==> n2 == NoState)
    && (n1 != NoState && n2 != NoState ==> part[n1] == part[n2])
  }

  /** Some alphabet symbol tells s and t apart (the symbol loop of minimize_dfa). */
  predicate Distinguishable(d: Dfa, part: seq<int>, s: int, t: int)
    requires ValidDfa(d) && |part| == d.numStates && 0 <= s < d.numStates && 0 <= t < d.numStates
  {
    exists j :: 0 <= j < |d.alphabet| && !Agree(d, part, s, t, d.alphabet[j])
  }

  /** The least index from j on whose class is p. */
  function LeastFrom(part: seq<int>, p: int, j: nat): (r: nat)
    requires j <= |part| && exists k :: j <= k < |part| && part[k] == p
    decreases |part| - j
    ensures j <= r < |part| && part[r] == p
    ensures forall k :: j <= k < r ==> part[k] != p
  {
    if part[j] == p then j else LeastFrom(part, p, j + 1)
  }

  /** The first member of i's class: states_in_partition[0] in minimize_dfa. */
  function Leader(part: seq<int>, i: int): (r: nat)
    requires 0 <= i < |part|
    ensures r <= i && part[r] == part[i]
    ensures forall k :: 0 <= k < r ==> part[k] != part[i]
  {
    LeastFrom(part, part[i], 0)
  }

  /** The leader is the one member with no earlier member. */
  lemma LeaderIs(part: seq<int>, i: int, f: int)
    requires 0 <= f <= i < |part| && part[f] == part[i]
    requires forall k :: 0 <= k < f ==> part[k] != part[i]
    ensures Leader(part, i) == f
  {
  }

  /** State i moves to a fresh class in this round: it is not its class's first member and is told apart from it. */
  predicate Split(d: Dfa, part: seq<int>, i: int)
    requires ValidDfa(d) && |part| == d.numStates && 0 <= i < |part|
  {
    Leader(part, i) != i && Distinguishable(d, part, Leader(part, i), i)
  }

  /** Class ids of states already handled when class p is scanned up to state i. */
  predicate Handled(part: seq<int>, p: int, i: int, j: int)
    requires 0 <= j < |part|
  {
    part[j] < p || (part[j] == p && j < i)
  }

  /**
   * What a round has done once the states handled so far are handled: a state marked in sp
   * (split off) holds a fresh id of its own, every other state its old class. owner[t] is
   * the state that took the fresh id t, for np <= t < np'.
   */
  predicate RoundSoFar(part: seq<int>, sp: seq<bool>, np: int, p: int, i: int, part': seq<int>, np': int, owner: seq<int>)
    requires |sp| == |part|
  {
    && |part'| == |part| && 0 <= np <= np' && |owner| == np'
    && (forall j :: 0 <= j < |part| && !(Handled(part, p, i, j) && sp[j]) ==> part'[j] == part[j])
    && (forall j :: 0 <= j < |part| && Handled(part, p, i, j) && sp[j] ==> np <= part'[j] < np' && owner[part'[j]] == j)
    && (forall t :: np <= t < np' ==>
          0 <= owner[t] < |part| && Handled(part, p, i, owner[t]) && sp[owner[t]] && part'[owner[t]] == t)
  }

  /** first is the least state before i in class p, or -1 when there is none: states_in_partition[0] as the scan goes. */
  predicate FirstSoFar(part: seq<int>, p: int, i: int, first: int)
    requires 0 <= i <= |part|
  {
    && (first == -1 <==> forall j :: 0 <= j < i ==> part[j] != p)
    && (first != -1 ==> 0 <= first < i && part[first] == p && forall j :: 0 <= j < first ==> part[j] != p)
  }

  /** Whether state i, scanned while class p is handled, is split off: the test of the inner loop. */
  lemma SplitTest(d: Dfa, part: seq<int>, np: int, p: int, i: int, first: int)
    requires PartitionOk(d, part, np) && 0 <= i < |part| && part[i] == p && FirstSoFar(part, p, i, first)
    ensures Split(d, part, i) <==> first != -1 && Distinguishable(d, part, first, i)
  {
    if first == -1 {
      LeaderIs(part, i, i);
    } else {
      LeaderIs(part, i, first);
    }
  }

  /** Handling a state that stays in its class. */
  lemma RoundKeep(part: seq<int>, sp: seq<bool>, np: int, p: int, i: int, part': seq<int>, np': int, owner: seq<int>)
    requires |sp| == |part| && 0 <= i < |part| && RoundSoFar(part, sp, np, p, i, part', np', owner)
    requires part[i] == p ==> !sp[i]
    ensures RoundSoFar(part, sp, np, p, i + 1, part', np', owner)
  {
    forall j | 0 <= j < |part|
      ensures Handled(part, p, i + 1, j) <==> Handled(part, p, i, j) || (j == i && part[i] == p)
    {
    }
  }

  /** Handling a state that is split off: it takes the next fresh id np'. */
  lemma RoundSplit(part: seq<int>, sp: seq<bool>, np: int, p: int, i: int, part': seq<int>, np': int, owner: seq<int>)
    requires |sp| == |part| && 0 <= i < |part| && RoundSoFar(part, sp, np, p, i, part', np', owner)
    requires part[i] == p && sp[i]
    ensures RoundSoFar(part, sp, np, p, i + 1, part'[i := np'], np' + 1, owner + [i])
  {
    forall j | 0 <= j < |part|
      ensures Handled(part, p, i + 1, j) <==> Handled(part, p, i, j) || j == i
    {
    }
    assert !Handled(part, p, i, i);
  }

  /** Handling state i while class p is scanned, as the inner loop does. */
  lemma HandleState(d: Dfa, part: seq<int>, sp: seq<bool>, np: int, p: int, i: int, part': seq<int>, np': int,
                    owner: seq<int>, first: int, part'': seq<int>, np'': int, owner'': seq<int>, first'': int)
    requires PartitionOk(d, part, np) && |sp| == |part| && 0 <= i < |part| && sp[i] == Split(d, part, i)
    requires RoundSoFar(part, sp, np, p, i, part', np', owner) && FirstSoFar(part, p, i, first)
    requires var split := part[i] == p && first != -1 && Distinguishable(d, part, first, i);
      && part'' == (if split then part'[i := np'] else part') && np'' == (if split then np' + 1 else np')
      && owner'' == (if split then owner + [i] else owner)
    requires first'' == if part[i] == p && first == -1 then i else first
    ensures RoundSoFar(part, sp, np, p, i + 1, part'', np'', owner'') && FirstSoFar(part, p, i + 1, first'')
  {
    if part[i] == p {
      SplitTest(d, part, np, p, i, first);
      if first != -1 && Distinguishable(d, part, first, i) {
        RoundSplit(part, sp, np, p, i, part', np', owner);
        return;
      }
    }
    RoundKeep(part, sp, np, p, i, part', np', owner);
  }

  /** After the last class every state is handled, so the round's promises hold for all states. */
  lemma RoundDone(d: Dfa, part: seq<int>, sp: seq<bool>, np: int, part': seq<int>, np': int, owner: seq<int>)
    requires PartitionOk(d, part, np) && |sp| == |part| && RoundSoFar(part, sp, np, np, 0, part', np', owner)
    requires forall j :: 0 <= j < |part| ==> sp[j] == Split(d, part, j)
    ensures PartitionOk(d, part', np') && np <= np'
    ensures forall i :: 0 <= i < |part| && !Split(d, part, i) ==> part'[i] == part[i]
    ensures forall i :: 0 <= i < |part| && Split(d, part, i) ==> np <= part'[i]
    ensures forall i, j :: 0 <= i < |part| && 0 <= j < |part| && i != j && Split(d, part, i) ==> part'[i] != part'[j]
    ensures np' > np <==> exists i :: 0 <= i < |part| && Split(d, part, i)
  {
    assert forall j :: 0 <= j < |part| ==> Handled(part, np, 0, j);
    if np' > np {
      assert sp[owner[np]];
    }
  }

  /** The next class starts with nothing of it handled beyond the earlier classes. */
  lemma NextClass(part: seq<int>, sp: seq<bool>, np: int, p: int, part': seq<int>, np': int, owner: seq<int>)
    requires |sp| == |part| && RoundSoFar(part, sp, np, p, |part|, part', np', owner)
    ensures RoundSoFar(part, sp, np, p + 1, 0, part', np', owner)
  {
    forall j | 0 <= j < |part|
      ensures Handled(part, p + 1, 0, j) <==> Handled(part, p, |part|, j)
    {
    }
  }

  /**
   * One step of the inner loop for class p at state i: the class's first member is
   * remembered, and a later member told apart from it gets the next fresh id.
   */
  method ScanState(d: Dfa, part: seq<int>, ghost sp: seq<bool>, np: int, p: int, i: int,
                   part': seq<int>, np': int, ghost owner: seq<int>, first: int)
    returns (part'': seq<int>, np'': int, ghost owner'': seq<int>, first'': int)
    requires PartitionOk(d, part, np) && |sp| == |part| && 0 <= i < |part| && sp[i] == Split(d, part, i)
    requires RoundSoFar(part, sp, np, p, i, part', np', owner) && FirstSoFar(part, p, i, first)
    ensures RoundSoFar(part, sp, np, p, i + 1, part'', np'', owner'') && FirstSoFar(part, p, i + 1, first'')
    ensures np' <= np'' <= np' + 1 && forall j :: 0 <= j < |part| && (j != i || part[i] != p) ==> part''[j] == part'[j]
  {
    var split := part[i] == p && first != -1 && Distinguishable(d, part, first, i);
    part'', np'' := if split then part'[i := np'] else part', if split then np' + 1 else np';
    owner'' := if split then owner + [i] else owner;
    first'' := if part[i] == p && first == -1 then i else first;
    HandleState(d, part, sp, np, p, i, part', np', owner, first, part'', np'', owner'', first'');
  }

  /**
   * The inner loop of one round for class p: scans the states in order, remembers the
   * class's first member, and gives every later member told apart from it the next fresh id.
   */
  method ScanClass(d: Dfa, part: seq<int>, ghost sp: seq<bool>, np: int, p: int,
                   part0: seq<int>, np0: int, ghost owner0: seq<int>)
    returns (part': seq<int>, np': int, ghost owner: seq<int>)
    requires PartitionOk(d, part, np) && |sp| == |part|
    requires forall j {:trigger Split(d, part, j)} :: 0 <= j < |part| ==> sp[j] == Split(d, part, j)
    requires RoundSoFar(part, sp, np, p, 0, part0, np0, owner0)
    ensures RoundSoFar(part, sp, np, p + 1, 0, part', np', owner)
    ensures np0 <= np' <= np0 + |part| && forall j :: 0 <= j < |part| && part[j] != p ==> part'[j] == part0[j]
  {
    part', np', owner := part0, np0, owner0;
    var first := -1;
    var i := 0;
    while i < |part|
      invariant 0 <= i <= |part| && RoundSoFar(part, sp, np, p, i, part', np', owner) && FirstSoFar(part, p, i, first)
      invariant np0 <= np' <= np0 + i && forall j :: 0 <= j < |part| && (part[j] != p || i <= j) ==> part'[j] == part0[j]
    {
      part', np', owner, first := ScanState(d, part, sp, np, p, i, part', np', owner, first);
      i := i + 1;
    }
    NextClass(part, sp, np, p, part', np', owner);
  }

  /**
   * One round of the refinement loop of minimize_dfa: for each class in id order, every
   * member told apart from the class's first member moves to a class of its own with the
   * next fresh id; every other state keeps its class. The id count grows exactly when some
   * state moved.
   */
  method RefineRound(d: Dfa, part: seq<int>, np: int) returns (part': seq<int>, np': int)
    requires PartitionOk(d, part, np)
    ensures PartitionOk(d, part', np') && np <= np'
    ensures forall i :: 0 <= i < |part| && !Split(d, part, i) ==> part'[i] == part[i]
    ensures forall i :: 0 <= i < |part| && Split(d, part, i) ==> np <= part'[i]
    ensures forall i, j :: 0 <= i < |part| && 0 <= j < |part| && i != j && Split(d, part, i) ==> part'[i] != part'[j]
    ensures np' > np <==> exists i :: 0 <= i < |part| && Split(d, part, i)
  {
    part', np' := part, np;
    ghost var owner: seq<int> := seq(np, t => -1);
    ghost var sp := seq(|part|, j requires 0 <= j < |part| => Split(d, part, j));
    var p := 0;
    while p < np
      invariant 0 <= p <= np && RoundSoFar(part, sp, np, p, 0, part', np', owner)
    {
      part', np', owner := ScanClass(d, part, sp, np, p, part', np', owner);
      p := p + 1;
    }
    RoundDone(d, part, sp, np, part', np', owner);
  }

  /** Two states of the same class agree on every alphabet symbol. */
  predicate Consistent(d: Dfa, part: seq<int>)
    requires ValidDfa(d) && |part| == d.numStates
  {
    forall i, j, k :: 0 <= i < |part| && 0 <= j < |part| && part[i] == part[j] && 0 <= k < |d.alphabet| ==>
      Agree(d, part, i, j, d.alphabet[k])
  }

  /** No state would move in another round: the loop of minimize_dfa has stopped. */
  predicate Stable(d: Dfa, part: seq<int>)
    requires ValidDfa(d) && |part| == d.numStates
  {
    forall i :: 0 <= i < |part| ==> !Split(d, part, i)
  }

  /** States of one class are all final or all non-final. */
  predicate RespectsFinals(part: seq<int>, finals: set<int>)
  {
    forall i, j :: 0 <= i < |part| && 0 <= j < |part| && part[i] == part[j] ==> (i in finals <==> j in finals)
  }

  /** The pairs of states sharing a class; a round that moves a state removes a pair. */
  function SamePairs(part: seq<int>): set<(int, int)>
  {
    set i, j | 0 <= i < |part| && 0 <= j < |part| && part[i] == part[j] :: (i, j)
  }

  /** A stable partition is consistent: every member agrees with its class's first member, hence with every other. */
  lemma StableConsistent(d: Dfa, part: seq<int>)
    requires ValidDfa(d) && |part| == d.numStates && Stable(d, part)
    ensures Consistent(d, part)
  {
    forall i, j, k | 0 <= i < |part| && 0 <= j < |part| && part[i] == part[j] && 0 <= k < |d.alphabet|
      ensures Agree(d, part, i, j, d.alphabet[k])
    {
      var l := Leader(part, i);
      LeaderIs(part, j, l);
      assert !Split(d, part, i) && !Split(d, part, j);
      assert Agree(d, part, l, i, d.alphabet[k]) && Agree(d, part, l, j, d.alphabet[k]);
    }
  }

  /**
   * A round only splits classes: states sharing a class afterwards shared one before, and
   * when a state moved, the pair it formed with its class's first member is gone.
   */
  lemma RoundRefines(d: Dfa, part: seq<int>, np: int, part': seq<int>, np': int)
    requires PartitionOk(d, part, np) && |part'| == |part|
    requires forall i :: 0 <= i < |part| && !Split(d, part, i) ==> part'[i] == part[i]
    requires forall i, j :: 0 <= i < |part| && 0 <= j < |part| && i != j && Split(d, part, i) ==> part'[i] != part'[j]
    requires np' > np <==> exists i :: 0 <= i < |part| && Split(d, part, i)
    ensures SamePairs(part') <= SamePairs(part)
    ensures np' > np ==> SamePairs(part') < SamePairs(part)
    ensures np' <= np ==> part' == part
  {
    if np' > np {
      var i :| 0 <= i < |part| && Split(d, part, i);
      var l := Leader(part, i);
      assert (l, i) in SamePairs(part);
      assert part'[i] != part'[l];
    }
  }

  /** States sharing a class after a round shared one before, so a partition respecting the finals still does. */
  lemma RoundKeepsFinals(part: seq<int>, part': seq<int>, finals: set<int>)
    requires |part'| == |part| && SamePairs(part') <= SamePairs(part) && RespectsFinals(part, finals)
    ensures RespectsFinals(part', finals)
  {
    forall i, j | 0 <= i < |part| && 0 <= j < |part| && part'[i] == part'[j]
      ensures i in finals <==> j in finals
    {
      assert (i, j) in SamePairs(part');
    }
  }

  /**
   * The refinement loop of minimize_dfa: start from final / non-final and run rounds until
   * one moves nothing. Each productive round removes a pair of class-mates, so the loop ends.
   */
  method Refine(d: Dfa) returns (part: seq<int>, np: int)
    requires ValidDfa(d)
    ensures PartitionOk(d, part, np) && 2 <= np
    ensures Stable(d, part)
    ensures RespectsFinals(part, d.finals)
  {
    part, np := InitialPartition(d), 2;
    var changed := true;
    while changed
      invariant PartitionOk(d, part, np) && 2 <= np
      invariant RespectsFinals(part, d.finals)
      invariant !changed ==> Stable(d, part)
      decreases SamePairs(part), if changed then 1 else 0
    {
      var part', np' := RefineRound(d, part, np);
      RoundRefines(d, part, np, part', np');
      RoundKeepsFinals(part, part', d.finals);
      changed := np' > np;
      part, np := part', np';
    }
  }

  /** Every written entry leads from a class to a class, and every member of its class has that transition into that class. */
  predicate TableGood(d: Dfa, part: seq<int>, np: int, delta: map<(int, char), int>)
    requires ValidDfa(d) && |part| == d.numStates
  {
    forall key :: key in delta ==>
      && 0 <= key.0 < np && 0 <= delta[key] < np && key.1 in d.alphabet
      && forall k :: 0 <= k < |part| && part[k] == key.0 ==>
           Next(d, k, key.1) != NoState && delta[key] == part[Next(d, k, key.1)]
  }

  /**
   * The symbol loop of the construction for state i from symbol j on: each defined
   * transition of i is written to the row of i's class (a later write replaces an earlier one).
   */
  function RowWrites(d: Dfa, part: seq<int>, i: int, j: nat, delta: map<(int, char), int>): map<(int, char), int>
    requires ValidDfa(d) && |part| == d.numStates && 0 <= i < |part| && j <= |d.alphabet|
    decreases |d.alphabet| - j
  {
    if j == |d.alphabet| then delta
    else
      var c := d.alphabet[j];
      var t := Next(d, i, c);
      RowWrites(d, part, i, j + 1, if t != NoState then delta[(part[i], c) := part[t]] else delta)
  }

  /** The state loop of the construction from state i on: the symbol loop for each state in turn. */
  function TableWrites(d: Dfa, part: seq<int>, i: nat, delta: map<(int, char), int>): map<(int, char), int>
    requires ValidDfa(d) && |part| == d.numStates && i <= |part|
    decreases |part| - i
  {
    if i == |part| then delta else TableWrites(d, part, i + 1, RowWrites(d, part, i, 0, delta))
  }

  /** On a consistent partition the symbol loop keeps the table good and writes every defined transition of i. */
  lemma {:induction false} RowWritesFacts(d: Dfa, part: seq<int>, np: int, i: int, j: nat, delta: map<(int, char), int>)
    requires PartitionOk(d, part, np) && Consistent(d, part) && 0 <= i < |part| && j <= |d.alphabet|
    requires TableGood(d, part, np, delta)
    ensures var r := RowWrites(d, part, i, j, delta);
      && TableGood(d, part, np, r) && delta.Keys <= r.Keys
      && forall k :: j <= k < |d.alphabet| && Next(d, i, d.alphabet[k]) != NoState ==> (part[i], d.alphabet[k]) in r
    decreases |d.alphabet| - j
  {
    if j < |d.alphabet| {
      var c := d.alphabet[j];
      var t := Next(d, i, c);
      var delta' := if t != NoState then delta[(part[i], c) := part[t]] else delta;
      if t != NoState {
        forall k | 0 <= k < |part| && part[k] == part[i]
          ensures Next(d, k, c) != NoState && part[t] == part[Next(d, k, c)]
        {
          assert Agree(d, part, i, k, d.alphabet[j]);
        }
      }
      assert TableGood(d, part, np, delta');
      RowWritesFacts(d, part, np, i, j + 1, delta');
    }
  }

  /** On a consistent partition the state loop keeps the table good and writes every defined transition from state i on. */
  lemma {:induction false} TableWritesFacts(d: Dfa, part: seq<int>, np: int, i: nat, delta: map<(int, char), int>)
    requires PartitionOk(d, part, np) && Consistent(d, part) && i <= |part|
    requires TableGood(d, part, np, delta)
    ensures var r := TableWrites(d, part, i, delta);
      && TableGood(d, part, np, r) && delta.Keys <= r.Keys
      && forall s, k :: i <= s < |part| && 0 <= k < |d.alphabet| && Next(d, s, d.alphabet[k]) != NoState ==>
           (part[s], d.alphabet[k]) in r
    decreases |part| - i
  {
    if i < |part| {
      RowWritesFacts(d, part, np, i, 0, delta);
      TableWritesFacts(d, part, np, i + 1, RowWrites(d, part, i, 0, delta));
    }
  }

  /**
   * The construction of minimize_dfa: one state per class id, the class of the old start
   * state as start, the classes of final states as finals, the same alphabet, and the table
   * written state by state, symbol by symbol.
   */
  function BuildMinimized(d: Dfa, part: seq<int>, np: int): (m: Dfa)
    requires PartitionOk(d, part, np)
    ensures m.numStates == np && m.start == part[d.start] && m.alphabet == d.alphabet
    ensures forall p :: p in m.finals <==> exists i :: 0 <= i < |part| && i in d.finals && part[i] == p
  {
    var finals := set i | 0 <= i < |part| && i in d.finals :: part[i];
    Dfa(np, part[d.start], finals, d.alphabet, TableWrites(d, part, 0, map[]))
  }

  /**
   * On a stable partition that respects the finals, the built DFA is valid and is the image
   * of the old one under the class map: a state's class steps to the class of its target,
   * lacks a transition exactly when the state does, and is final exactly when the state is.
   */
  lemma ClassImage(d: Dfa, part: seq<int>, np: int)
    requires PartitionOk(d, part, np) && Stable(d, part) && RespectsFinals(part, d.finals)
    ensures ValidDfa(BuildMinimized(d, part, np))
    ensures forall i, c :: 0 <= i < |part| && c in d.alphabet ==>
      Next(BuildMinimized(d, part, np), part[i], c) == if Next(d, i, c) == NoState then NoState else part[Next(d, i, c)]
    ensures forall i :: 0 <= i < |part| ==> (i in d.finals <==> part[i] in BuildMinimized(d, part, np).finals)
  {
    var m := BuildMinimized(d, part, np);
    StableConsistent(d, part);
    TableWritesFacts(d, part, np, 0, map[]);
    forall i, c | 0 <= i < |part| && c in d.alphabet
      ensures Next(m, part[i], c) == if Next(d, i, c) == NoState then NoState else part[Next(d, i, c)]
    {
      var k :| 0 <= k < |d.alphabet| && d.alphabet[k] == c;
      if (part[i], c) in m.delta {
        assert Next(d, i, c) != NoState;
      }
    }
  }

  /** Reading a word over the alphabet from a state and from its class lead to corresponding places. */
  lemma {:induction false} RunImage(d: Dfa, part: seq<int>, np: int, s: int, w: string)
    requires PartitionOk(d, part, np) && Stable(d, part) && RespectsFinals(part, d.finals)
    requires 0 <= s < |part| && OverAlphabet(w, d.alphabet)
    ensures var r := Run(d, s, w);
      Run(BuildMinimized(d, part, np), part[s], w) == if r == NoState then NoState else part[r]
    decreases |w|
  {
    if |w| > 0 {
      ClassImage(d, part, np);
      var t := Next(d, s, w[0]);
      if t != NoState {
        assert OverAlphabet(w[1..], d.alphabet) by {
          assert forall i :: 0 <= i < |w[1..]| ==> w[1..][i] == w[i + 1];
        }
        RunImage(d, part, np, t, w[1..]);
      }
    }
  }

  /** The built DFA accepts exactly the words over the alphabet that the original accepts. */
  lemma SameLanguage(d: Dfa, part: seq<int>, np: int, w: string)
    requires PartitionOk(d, part, np) && Stable(d, part) && RespectsFinals(part, d.finals)
    requires OverAlphabet(w, d.alphabet)
    ensures Accepts(BuildMinimized(d, part, np), w) <==> Accepts(d, w)
  {
    RunImage(d, part, np, d.start, w);
    ClassImage(d, part, np);
  }

  /**
   * minimize_dfa: refine final / non-final until stable, then build one state per class.
   * The result is a valid DFA over the same alphabet, the class image of the original, and
   * accepts the same words over that alphabet.
   */
  method MinimizeDfa(d: Dfa) returns (m: Dfa, part: seq<int>)
    requires ValidDfa(d)
    ensures ValidDfa(m) && m.alphabet == d.alphabet && |part| == d.numStates && m.start == part[d.start]
    ensures forall i :: 0 <= i < |part| ==> 0 <= part[i] < m.numStates
    ensures forall i, c :: 0 <= i < |part| && c in d.alphabet ==>
      Next(m, part[i], c) == if Next(d, i, c) == NoState then NoState else part[Next(d, i, c)]
    ensures forall i :: 0 <= i < |part| ==> (i in d.finals <==> part[i] in m.finals)
    ensures forall w :: OverAlphabet(w, d.alphabet) ==> (Accepts(m, w) <==> Accepts(d, w))
  {
    var np;
    part, np := Refine(d);
    m := BuildMinimized(d, part, np);
    ClassImage(d, part, np);
    forall w | OverAlphabet(w, d.alphabet)
      ensures Accepts(m, w) <==> Accepts(d, w)
    {
      SameLanguage(d, part, np, w);
    }
  }
}
