/**
 The value that `std::nth_element` leaves at index k, described by counting instead of by sorting:
 at most k entries lie strictly below it and more than k entries lie at or below it.
 */
module OrderStatistic {

  /** The keys whose value lies strictly below `v`. */
  function Below(m: map<nat, nat>, v: nat): set<nat>
  {
    set a | a in m && m[a] < v
  }

  function CountBelow(m: map<nat, nat>, v: nat): nat
  {
    |Below(m, v)|
  }

  predicate IsKth(m: map<nat, nat>, k: nat, v: nat)
  {
    CountBelow(m, v) <= k < CountBelow(m, v + 1)
  }

  lemma SubsetSize(a: set<nat>, b: set<nat>)
    requires a <= b
    ensures |a| <= |b|
  {
    assert b == a + (b - a);
    assert |b| == |a| + |b - a|;
  }

  lemma CountBelowMonotone(m: map<nat, nat>, v: nat, w: nat)
    requires v <= w
    ensures CountBelow(m, v) <= CountBelow(m, w)
  {
    SubsetSize(Below(m, v), Below(m, w));
  }

  lemma {:induction false} ValuesAreBounded(m: map<nat, nat>, keys: set<nat>) returns (bound: nat)
    requires keys <= m.Keys
    ensures forall a | a in keys :: m[a] < bound
    decreases keys
  {
    if keys == {} {
      bound := 0;
    } else {
      var a :| a in keys;
      var rest := ValuesAreBounded(m, keys - {a});
      bound := if m[a] < rest then rest else m[a] + 1;
    }
  }

  lemma KthExists(m: map<nat, nat>, k: nat)
    requires k < |m|
    ensures exists v: nat :: IsKth(m, k, v)
  {
    var bound := ValuesAreBounded(m, m.Keys);
    assert Below(m, bound) == m.Keys && |m.Keys| == |m|;
    assert Below(m, 0) == {};
    var v: nat := 0;
    while CountBelow(m, v + 1) <= k
      invariant CountBelow(m, v) <= k
      invariant v <= bound
      decreases bound - v
    {
      if bound < v + 1 {
        CountBelowMonotone(m, bound, v + 1);
      }
      v := v + 1;
    }
    assert IsKth(m, k, v);
  }

  /** At most one value satisfies the counting description. */
  lemma KthIsUnique(m: map<nat, nat>, k: nat, v: nat, w: nat)
    requires IsKth(m, k, v) && IsKth(m, k, w)
    ensures v == w
  {
    if v < w {
      CountBelowMonotone(m, v + 1, w);
    } else if w < v {
      CountBelowMonotone(m, w + 1, v);
    }
  }

  ghost function Kth(m: map<nat, nat>, k: nat): (v: nat)
    requires k < |m|
    ensures IsKth(m, k, v)
  {
    KthExists(m, k);
    var v: nat :| IsKth(m, k, v);
    v
  }

  /** The k-th value reaches `v` exactly when at most k entries lie below `v`. */
  lemma KthReaches(m: map<nat, nat>, k: nat, v: nat)
    requires k < |m|
    ensures Kth(m, k) >= v <==> CountBelow(m, v) <= k
  {
    if Kth(m, k) >= v {
      CountBelowMonotone(m, v, Kth(m, k));
    } else {
      CountBelowMonotone(m, Kth(m, k) + 1, v);
    }
  }

  /** Raising values, over the same keys, never lowers the k-th value. */
  lemma KthMonotone(m: map<nat, nat>, m': map<nat, nat>, k: nat)
    requires k < |m| && m.Keys == m'.Keys
    requires forall a | a in m :: m[a] <= m'[a]
    ensures |m'| == |m| && Kth(m, k) <= Kth(m', k)
  {
    assert |m'| == |m'.Keys| == |m.Keys| == |m|;
    SubsetSize(Below(m', Kth(m, k)), Below(m, Kth(m, k)));
    KthReaches(m', k, Kth(m, k));
  }

  /** The k-th value is one of the values. */
  lemma KthIsAValue(m: map<nat, nat>, k: nat) returns (a: nat)
    requires k < |m|
    ensures a in m && m[a] == Kth(m, k)
  {
    var v := Kth(m, k);
    if Below(m, v + 1) <= Below(m, v) {
      SubsetSize(Below(m, v + 1), Below(m, v));
      assert false;
    }
    a :| a in Below(m, v + 1) && a !in Below(m, v);
  }

  // ---- The same statistic on a vector, as nth_element sees it ----

  function CountBelowIn(s: seq<nat>, v: nat): nat
  {
    if s == [] then 0 else CountBelowIn(s[..|s| - 1], v) + (if s[|s| - 1] < v then 1 else 0)
  }

  lemma {:induction false} CountBelowInZero(s: seq<nat>)
    ensures CountBelowIn(s, 0) == 0
  {
    if s != [] { CountBelowInZero(s[..|s| - 1]); }
  }

  lemma {:induction false} CountBelowInAll(s: seq<nat>, v: nat)
    ensures (forall i | 0 <= i < |s| :: s[i] < v) ==> CountBelowIn(s, v) == |s|
  {
    if s != [] { CountBelowInAll(s[..|s| - 1], v); }
  }

  /** What `std::nth_element(begin, begin + k, end)` leaves at position k. */
  method NthElement(s: seq<nat>, k: nat) returns (v: nat)
    requires k < |s|
    ensures CountBelowIn(s, v) <= k < CountBelowIn(s, v + 1)
  {
    var bound: nat := 0;
    for i := 0 to |s|
      invariant forall j | 0 <= j < i :: s[j] < bound
    {
      if bound <= s[i] { bound := s[i] + 1; }
    }
    CountBelowInAll(s, bound);
    CountBelowInZero(s);
    v := 0;
    var next := CountBelowIn(s, 1);
    while next <= k
      invariant next == CountBelowIn(s, v + 1)
      invariant CountBelowIn(s, v) <= k
      invariant v <= bound
      decreases bound - v
    {
      CountBelowInAll(s, v + 1);
      v := v + 1;
      next := CountBelowIn(s, v + 1);
    }
  }

  // ---- Copying the values of a map into a vector, one key at a time ----

  /** The vector and the keys still to do account for every key of `m`. */
  ghost predicate Counts(m: map<nat, nat>, s: seq<nat>, todo: set<nat>)
  {
    forall v: nat :: CountBelowIn(s, v) + |Below(m, v) * todo| == CountBelow(m, v)
  }

  lemma CountingStarts(m: map<nat, nat>)
    ensures Counts(m, [], m.Keys)
  {
    assert forall v: nat :: Below(m, v) * m.Keys == Below(m, v);
  }

  lemma CountingStep(m: map<nat, nat>, s: seq<nat>, todo: set<nat>, a: nat)
    requires Counts(m, s, todo) && a in todo && a in m
    ensures Counts(m, s + [m[a]], todo - {a})
  {
    forall v: nat
      ensures CountBelowIn(s + [m[a]], v) + |Below(m, v) * (todo - {a})| == CountBelow(m, v)
    {
      assert (s + [m[a]])[..|s|] == s;
      if m[a] < v {
        assert Below(m, v) * todo == Below(m, v) * (todo - {a}) + {a};
      } else {
        assert Below(m, v) * todo == Below(m, v) * (todo - {a});
      }
    }
  }

  lemma CountingEnds(m: map<nat, nat>, s: seq<nat>)
    requires Counts(m, s, {})
    ensures |s| == |m|
    ensures forall v: nat :: CountBelowIn(s, v) == CountBelow(m, v)
  {
    assert forall v: nat :: Below(m, v) * {} == {};
    var bound := ValuesAreBounded(m, m.Keys);
    assert Below(m, bound) == m.Keys && |m.Keys| == |m|;
    var top := bound;
    for i := 0 to |s|
      invariant bound <= top && forall j | 0 <= j < i :: s[j] < top
    {
      if top <= s[i] { top := s[i] + 1; }
    }
    CountBelowInAll(s, top);
    assert Below(m, top) == m.Keys;
  }

  lemma KthIs(m: map<nat, nat>, s: seq<nat>, k: nat, v: nat)
    requires k < |m| && CountBelowIn(s, v) <= k < CountBelowIn(s, v + 1)
    requires forall v: nat :: CountBelowIn(s, v) == CountBelow(m, v)
    ensures v == Kth(m, k)
  {
    KthIsUnique(m, k, v, Kth(m, k));
  }
}
