/** Type names of an ABI: suffixes, and type definitions that stand for other names. */
module AbiTypes {

  import opened Results

  datatype AbiError =
    | CircularDefinition
    | UnknownType
    | TooDeep
    | NotAnArray
    | NotAPair
    | NotAString
    | NotInVariant
    | MissingField
    | UnexpectedField
    | NotAnExtension
    | UnexpectedInput
    | DerivedFromArray
    | StreamEnded
    | NullInArray
    | InvalidTag
    | EmptyStruct
    | BuiltinFailed

  type Typedefs = map<string, string>

  predicate EndsWith(t: string, suffix: string)
  {
    |suffix| <= |t| && t[|t| - |suffix|..] == suffix
  }

  predicate IsArray(t: string)
  {
    EndsWith(t, "[]")
  }

  predicate IsOptional(t: string)
  {
    EndsWith(t, "?")
  }

  predicate IsExtension(t: string)
  {
    EndsWith(t, "$")
  }

  /** `fundamental_type`: the element of an array or optional type. */
  function Fundamental(t: string): string
  {
    if IsArray(t) then t[..|t| - 2] else if IsOptional(t) then t[..|t| - 1] else t
  }

  /** `_remove_bin_extension`. */
  function WithoutExtension(t: string): string
  {
    if IsExtension(t) then t[..|t| - 1] else t
  }

  lemma PlainName(t: string)
    requires |t| == 1 && t != "?" && t != "$"
    ensures !IsArray(t) && !IsOptional(t) && !IsExtension(t) && Fundamental(t) == t && WithoutExtension(t) == t
  {
    assert t[0..] == t;
  }

  /** Each suffix is told from the others, and taken off again. */
  lemma SuffixedNames(t: string)
    ensures IsArray(t + "[]") && !IsOptional(t + "[]") && !IsExtension(t + "[]") && Fundamental(t + "[]") == t
    ensures !IsArray(t + "?") && IsOptional(t + "?") && !IsExtension(t + "?") && Fundamental(t + "?") == t
    ensures !IsArray(t + "$") && !IsOptional(t + "$") && IsExtension(t + "$") && WithoutExtension(t + "$") == t
  {
    assert (t + "[]")[|t|..] == "[]" && (t + "[]")[|t| + 1..] == "]" && (t + "[]")[..|t|] == t;
    OneSuffix(t, '?');
    OneSuffix(t, '$');
  }

  lemma OneSuffix(t: string, c: char)
    requires c != ']'
    ensures EndsWith(t + [c], [c]) && !EndsWith(t + [c], "[]") && (t + [c])[..|t|] == t
    ensures forall d: char :: d != c ==> !EndsWith(t + [c], [d])
  {
    assert (t + [c])[|t|..] == [c] && "[]"[1] == ']';
    assert |t| > 0 ==> (t + [c])[|t| - 1..][1] == c;
  }

  // ---- Type definitions ----

  /** The name `k` definitions further. */
  function Follow(defs: Typedefs, t: string, k: nat): string
  {
    if k == 0 then t
    else
      var u := Follow(defs, t, k - 1);
      if u in defs then defs[u] else u
  }

  /** Following the definitions from `t` comes to a name that is not defined. */
  ghost predicate Ends(defs: Typedefs, t: string)
  {
    exists k: nat :: Follow(defs, t, k) !in defs
  }

  lemma {:induction false} FollowStays(defs: Typedefs, t: string, k: nat, j: nat)
    requires k <= j && Follow(defs, t, k) !in defs
    ensures Follow(defs, t, j) == Follow(defs, t, k)
    decreases j
  {
    if k < j { FollowStays(defs, t, k, j - 1); }
  }

  lemma {:induction false} FollowAdd(defs: Typedefs, t: string, j: nat, k: nat)
    ensures Follow(defs, t, j + k) == Follow(defs, Follow(defs, t, j), k)
    decreases k
  {
    if k > 0 { FollowAdd(defs, t, j, k - 1); }
  }

  /** A repeated name repeats forever. */
  lemma {:induction false} RepeatNeverEnds(defs: Typedefs, t: string, a: nat, b: nat, k: nat)
    requires a < b && Follow(defs, t, a) == Follow(defs, t, b)
    requires forall i: nat :: i < b ==> Follow(defs, t, i) in defs
    ensures Follow(defs, t, k) in defs
    decreases k
  {
    if k >= b {
      RepeatNeverEnds(defs, t, a, b, k - (b - a));
      FollowAdd(defs, t, a, k - b);
      FollowAdd(defs, t, b, k - b);
    }
  }

  function Trail(defs: Typedefs, t: string, k: nat): (s: seq<string>)
    ensures |s| == k && forall i :: 0 <= i < k ==> s[i] == Follow(defs, t, i)
  {
    if k == 0 then [] else Trail(defs, t, k - 1) + [Follow(defs, t, k - 1)]
  }

  /** Distinct members of a set are at most as many as the set has. */
  lemma {:induction false} DistinctFit(s: seq<string>, all: set<string>)
    requires forall i, j :: 0 <= i < j < |s| ==> s[i] != s[j]
    requires forall i :: 0 <= i < |s| ==> s[i] in all
    ensures |s| <= |all|
    decreases |s|
  {
    if s != [] {
      var x := s[|s| - 1];
      DistinctFit(s[..|s| - 1], all - {x});
      assert all == (all - {x}) + {x};
    }
  }

  lemma {:induction false} DefinedBefore(defs: Typedefs, t: string, k: nat)
    requires Follow(defs, t, k) in defs
    ensures forall i: nat :: i <= k ==> Follow(defs, t, i) in defs
    decreases k
  {
    if k > 0 { DefinedBefore(defs, t, k - 1); }
  }

  /** A trail that ends repeats no name on the way, so it ends within as many steps as there are definitions. */
  lemma {:induction false} EndsWithinSize(defs: Typedefs, t: string, k: nat)
    requires Follow(defs, t, k) !in defs
    ensures Follow(defs, t, |defs|) !in defs
    decreases k
  {
    if k > 0 && Follow(defs, t, k - 1) !in defs {
      EndsWithinSize(defs, t, k - 1);
    } else {
      if k > 0 { DefinedBefore(defs, t, k - 1); }
      forall i, j | 0 <= i < j < k
        ensures Follow(defs, t, i) != Follow(defs, t, j)
      {
        if Follow(defs, t, i) == Follow(defs, t, j) { RepeatNeverEnds(defs, t, i, j, k); }
      }
      DistinctFit(Trail(defs, t, k), defs.Keys);
      FollowStays(defs, t, k, |defs|);
    }
  }

  // ---- Resolving ----

  /** `resolve_type`'s loop, with `i` rounds left at the defined name `t`. */
  function ResolveLoop(defs: Typedefs, given: string, t: string, i: nat): string
    requires t in defs
    decreases i
  {
    if i == 0 then given
    else if defs[t] !in defs then defs[t]
    else ResolveLoop(defs, given, defs[t], i - 1)
  }

  function Resolve(defs: Typedefs, t: string): string
  {
    if t in defs then ResolveLoop(defs, t, t, |defs|) else t
  }

  lemma {:induction false} ResolveLoopFollows(defs: Typedefs, given: string, t: string, i: nat)
    requires t in defs && Follow(defs, t, i) !in defs
    ensures ResolveLoop(defs, given, t, i) == Follow(defs, t, i)
    decreases i
  {
    if i > 0 {
      FollowAdd(defs, t, 1, i - 1);
      assert Follow(defs, t, 1) == defs[t];
      if defs[t] in defs {
        ResolveLoopFollows(defs, given, defs[t], i - 1);
      } else {
        FollowStays(defs, defs[t], 0, i - 1);
      }
    }
  }

  /** The bounded loop reaches the end of every trail that has one; the result resolves to itself. */
  lemma ResolveReachesEnd(defs: Typedefs, t: string)
    requires Ends(defs, t)
    ensures Resolve(defs, t) !in defs && Resolve(defs, t) == Follow(defs, t, |defs|)
    ensures Resolve(defs, Resolve(defs, t)) == Resolve(defs, t)
  {
    var k: nat :| Follow(defs, t, k) !in defs;
    EndsWithinSize(defs, t, k);
    if t in defs {
      ResolveLoopFollows(defs, t, t, |defs|);
    } else {
      FollowStays(defs, t, 0, |defs|);
    }
  }

  method ResolveType(defs: Typedefs, t: string) returns (r: string)
    ensures r == Resolve(defs, t)
  {
    if t in defs {
      var cur := t;
      var i := |defs|;
      while i > 0
        invariant cur in defs && 0 <= i
        invariant ResolveLoop(defs, t, cur, i) == Resolve(defs, t)
      {
        var next := defs[cur];
        if next !in defs { return next; }
        cur := next;
        i := i - 1;
      }
    }
    return t;
  }

  // ---- Validating the definitions ----

  ghost predicate AllEnd(defs: Typedefs)
  {
    forall t :: t in defs ==> Ends(defs, t)
  }

  /** What is left of the definitions when the names in `s` were visited. */
  ghost predicate Unvisited(defs: Typedefs, s: seq<string>, left: set<string>)
  {
    forall x :: x in defs && x !in s ==> x in left
  }

  /** The check of one definition: its trail repeats no name, exactly if it ends. */
  method CheckTrail(defs: Typedefs, t: string) returns (r: Result<(), AbiError>)
    requires t in defs
    ensures r.Ok? <==> Ends(defs, t)
    ensures r.Err? ==> r.error == CircularDefinition
  {
    hide Ends, Unvisited, Distinct;
    var seen := [t, defs[t]];
    var cur := defs[t];
    ghost var n, left := 1, defs.Keys - {t};
    TrailStarts(defs, t);
    hide Follow, Trail;
    while cur in defs
      invariant n >= 1 && cur == Follow(defs, t, n) && seen == Trail(defs, t, n + 1)
      invariant Follow(defs, t, n - 1) in defs
      invariant n > 1 ==> Distinct(seen)
      invariant Unvisited(defs, Trail(defs, t, n), left)
      decreases left
    {
      var next := defs[cur];
      FollowNext(defs, t, n);
      if next in seen {
        RepeatedNameRefutes(defs, t, n);
        return Err(CircularDefinition);
      }
      TrailStep(defs, t, n, left);
      seen := seen + [next];
      left := left - {cur};
      cur := next;
      n := n + 1;
    }
    EndsAt(defs, t, n);
    return Ok(());
  }

  lemma TrailStarts(defs: Typedefs, t: string)
    requires t in defs
    ensures Follow(defs, t, 1) == defs[t] && Follow(defs, t, 0) == t && Trail(defs, t, 2) == [t, defs[t]]
    ensures Unvisited(defs, Trail(defs, t, 1), defs.Keys - {t})
  {
    assert Trail(defs, t, 1) == [t];
  }

  lemma TrailStep(defs: Typedefs, t: string, n: nat, left: set<string>)
    requires n >= 1 && Follow(defs, t, n) in defs && Follow(defs, t, n + 1) !in Trail(defs, t, n + 1)
    requires n > 1 ==> Distinct(Trail(defs, t, n + 1))
    requires Unvisited(defs, Trail(defs, t, n), left)
    ensures Trail(defs, t, n + 2) == Trail(defs, t, n + 1) + [Follow(defs, t, n + 1)]
    ensures Distinct(Trail(defs, t, n + 2))
    ensures Follow(defs, t, n) in left && Unvisited(defs, Trail(defs, t, n + 1), left - {Follow(defs, t, n)})
  {
    var s := Trail(defs, t, n + 1);
    assert s == Trail(defs, t, n) + [Follow(defs, t, n)];
    if n == 1 { SelfLoop(defs, t); }
    DistinctAppend(s, Follow(defs, t, n + 1));
    assert s[n] == Follow(defs, t, n) && s[n] !in s[..n] && s[..n] == Trail(defs, t, n);
  }

  /** If the second name differs from the third it differs from the first. */
  lemma SelfLoop(defs: Typedefs, t: string)
    requires Follow(defs, t, 1) in defs && Follow(defs, t, 2) !in Trail(defs, t, 2)
    ensures Distinct(Trail(defs, t, 2))
  {
    assert Trail(defs, t, 2)[1] == Follow(defs, t, 1) && Trail(defs, t, 2)[0] == t;
    var second, third := Follow(defs, t, 1), Follow(defs, t, 2);
    assert third == defs[second];
    assert second == t ==> third == second;
  }

  lemma FollowNext(defs: Typedefs, t: string, n: nat)
    requires Follow(defs, t, n) in defs
    ensures Follow(defs, t, n + 1) == defs[Follow(defs, t, n)]
  {
  }

  lemma EndsAt(defs: Typedefs, t: string, n: nat)
    requires Follow(defs, t, n) !in defs
    ensures Ends(defs, t)
  {
  }

  ghost predicate Distinct(s: seq<string>)
  {
    forall i, j :: 0 <= i < j < |s| ==> s[i] != s[j]
  }

  lemma DistinctAppend(s: seq<string>, x: string)
    requires Distinct(s) && x !in s
    ensures Distinct(s + [x])
  {
  }

  lemma RepeatedNameRefutes(defs: Typedefs, t: string, n: nat)
    requires Follow(defs, t, n) in defs && Follow(defs, t, n + 1) in Trail(defs, t, n + 1)
    ensures !Ends(defs, t)
  {
    DefinedBefore(defs, t, n);
    var trail := Trail(defs, t, n + 1);
    var j :| 0 <= j < |trail| && trail[j] == Follow(defs, t, n + 1);
    forall k: nat
      ensures Follow(defs, t, k) in defs
    {
      RepeatNeverEnds(defs, t, j, n + 1, k);
    }
  }

  /** The first part of `validate`. */
  method ValidateTypedefs(defs: Typedefs) returns (r: Result<(), AbiError>)
    ensures r.Ok? <==> AllEnd(defs)
  {
    var rest := defs.Keys;
    while rest != {}
      invariant rest <= defs.Keys && forall t :: t in defs && t !in rest ==> Ends(defs, t)
      decreases rest
    {
      var t :| t in rest;
      var checked := CheckTrail(defs, t);
      if checked.Err? { return checked; }
      rest := rest - {t};
    }
    return Ok(());
  }
}
