/**
 * The state-set helpers of the subset construction (nfa_dfa.c): membership, bounded
 * duplicate-free insertion, set comparison and lookup in a list of sets.
 */
module StateSets {
  import opened Automata

  /** state_set_contains: a scan of the listed states from the front. */
  function Contains(s: StateSet, x: int): (b: bool)
    ensures b <==> x in s
  {
    if |s| == 0 then false else s[0] == x || Contains(s[1..], x)
  }

  /**
   * state_set_add: appends x when it is absent and the array has room; otherwise the set
   * is returned unchanged, so a full set silently drops x.
   */
  function Add(s: StateSet, x: int): (r: StateSet)
    ensures x in s ==> r == s
    ensures x !in s && |s| < MaxStates ==> r == s + [x]
    ensures x !in s && |s| >= MaxStates ==> r == s
    ensures Distinct(s) ==> Distinct(r)
    ensures Elements(r) <= Elements(s) + {x}
  {
    if !Contains(s, x) && |s| < MaxStates then s + [x] else s
  }

  /** All listed states of a, from index i on, are listed in b. */
  function AllListedIn(a: StateSet, b: StateSet, i: nat): (r: bool)
    requires i <= |a|
    decreases |a| - i
    ensures r <==> forall k :: i <= k < |a| ==> a[k] in b
  {
    if i == |a| then true else Contains(b, a[i]) && AllListedIn(a, b, i + 1)
  }

  /**
   * state_set_equal: equal counts and every state of a listed in b. On duplicate-free
   * sets this is set equality.
   */
  function SetEqual(a: StateSet, b: StateSet): (r: bool)
    ensures Distinct(a) && Distinct(b) ==> (r <==> Elements(a) == Elements(b))
  {
    var r := |a| == |b| && AllListedIn(a, b, 0);
    SetEqualIsSetEquality(a, b);
    r
  }

  /** A duplicate-free list has as many elements as its set. */
  lemma {:induction false} DistinctCard(s: StateSet)
    requires Distinct(s)
    ensures |Elements(s)| == |s|
  {
    if |s| > 0 {
      var t := s[..|s| - 1];
      DistinctCard(t);
      assert Elements(s) == Elements(t) + {s[|s| - 1]};
      assert s[|s| - 1] !in Elements(t);
    }
  }

  /** A subset as large as its superset is the superset. */
  lemma SubsetSameCard(a: set<int>, b: set<int>)
    requires a <= b && |b| <= |a|
    ensures a == b
  {
    assert b == a + (b - a);
    assert |b| == |a| + |b - a|;
    assert b - a == {};
  }

  lemma SetEqualIsSetEquality(a: StateSet, b: StateSet)
    ensures Distinct(a) && Distinct(b) ==>
      ((|a| == |b| && AllListedIn(a, b, 0)) <==> Elements(a) == Elements(b))
  {
    if Distinct(a) && Distinct(b) {
      DistinctCard(a);
      DistinctCard(b);
      if |a| == |b| && AllListedIn(a, b, 0) {
        SubsetSameCard(Elements(a), Elements(b));
      }
      if Elements(a) == Elements(b) {
        forall k | 0 <= k < |a|
          ensures a[k] in b
        {
          assert a[k] in Elements(a);
        }
      }
    }
  }

  /** The states 0 .. n-1. */
  function Below(n: nat): (r: set<int>)
    ensures forall x :: x in r <==> 0 <= x < n
    ensures |r| == n
  {
    if n == 0 then {} else Below(n - 1) + {n - 1}
  }

  /** A duplicate-free list of states below n has at most n entries. */
  lemma DistinctWithinBound(s: StateSet, n: nat)
    requires Distinct(s) && Within(s, n)
    ensures |s| <= n
  {
    DistinctCard(s);
    assert Elements(s) <= Below(n);
    SubsetCard(Elements(s), Below(n));
  }

  lemma SubsetCard(a: set<int>, b: set<int>)
    requires a <= b
    ensures |a| <= |b|
  {
    assert b == a + (b - a);
  }

  /**
   * When every state is below n and n is at most MaxStates, a duplicate-free set never
   * runs out of room: adding a state below n always leaves it listed.
   */
  lemma AddHasRoom(s: StateSet, x: int, n: nat)
    requires Distinct(s) && Within(s, n) && n <= MaxStates && 0 <= x < n
    ensures x in Add(s, x)
    ensures Within(Add(s, x), n)
    ensures Elements(Add(s, x)) == Elements(s) + {x}
  {
    if x !in s {
      DistinctWithinBound(s + [x], n);
    }
  }

  /** The index search of find_state_set_index from index i on. */
  function FindFrom(sets: seq<StateSet>, target: StateSet, i: nat): (r: int)
    requires i <= |sets|
    decreases |sets| - i
    ensures r == -1 || i <= r < |sets|
    ensures r != -1 ==> SetEqual(sets[r], target) && forall j :: i <= j < r ==> !SetEqual(sets[j], target)
    ensures r == -1 ==> forall j :: i <= j < |sets| ==> !SetEqual(sets[j], target)
  {
    if i == |sets| then -1
    else if SetEqual(sets[i], target) then i
    else FindFrom(sets, target, i + 1)
  }

  /**
   * find_state_set_index: the least index whose set equals the target by state_set_equal,
   * or -1 when there is none.
   */
  function FindIndex(sets: seq<StateSet>, target: StateSet): (r: int)
    ensures -1 <= r < |sets|
    ensures r != -1 ==> SetEqual(sets[r], target) && forall j :: 0 <= j < r ==> !SetEqual(sets[j], target)
    ensures r == -1 ==> forall j :: 0 <= j < |sets| ==> !SetEqual(sets[j], target)
  {
    FindFrom(sets, target, 0)
  }

  /** On duplicate-free sets, the index found lists the same states as the target, and no earlier one does. */
  lemma FindIndexBySets(sets: seq<StateSet>, target: StateSet)
    requires Distinct(target) && forall j :: 0 <= j < |sets| ==> Distinct(sets[j])
    ensures var r := FindIndex(sets, target);
      && (r != -1 ==> Elements(sets[r]) == Elements(target))
      && (forall j :: 0 <= j < |sets| && (r == -1 || j < r) ==> Elements(sets[j]) != Elements(target))
  {
  }
}
