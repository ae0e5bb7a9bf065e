/** What a node keeps in its fork database when the irreversible number drops in the run of `HeaderRuns`. */
module LibDropForks {
  import opened Results
  import opened ForkTree
  import opened ForkDatabaseFile
  import Controller
  import HeaderRuns

  // ---- One branch without forks ----

  /** Block `m` of a branch from the first block, given the irreversible number of each of its blocks. */
  function At(libs: seq<nat>, m: nat): Block
    requires 1 <= m <= |libs|
  {
    Block(BlockId(m, 0), BlockId(m - 1, 0), m, libs[m - 1])
  }

  function Ids(r: nat, n: nat): (ids: set<BlockId>)
    ensures forall id :: id in ids <==> id.hash == 0 && r < id.num <= n
  {
    set m | r < m <= n :: BlockId(m, 0)
  }

  /**
   Block `r` is the root, the blocks after it up to `n` are stored, those up to `v` validated, and `v` is the head.
   */
  function Line(libs: seq<nat>, r: nat, v: nat, n: nat): Tree
    requires 1 <= r <= v <= n <= |libs|
  {
    Tree(At(libs, r), map id | id in Ids(r, n) :: At(libs, id.num), Ids(r, v), At(libs, v))
  }

  /** Up to block `v` the irreversible numbers do not decrease, and lie within the chain. */
  predicate Rising(libs: seq<nat>, v: nat)
  {
    v <= |libs| && (forall i, j | 0 <= i < j < v :: libs[i] <= libs[j]) && forall i | 0 <= i < v :: libs[i] <= i + 1
  }

  lemma LineWellFormed(libs: seq<nat>, r: nat, v: nat, n: nat)
    requires 1 <= r <= v <= n <= |libs|
    ensures WellFormed(Line(libs, r, v, n))
  {
    hide Ids;
    var t := Line(libs, r, v, n);
    forall id | id in t.blocks ensures Known(t, t.blocks[id].prev) {
      assert id == BlockId(id.num, 0);
    }
  }

  lemma LineHeadOk(libs: seq<nat>, r: nat, v: nat, n: nat)
    requires 1 <= r <= v <= n <= |libs| && Rising(libs, v)
    ensures HeadOk(Line(libs, r, v, n))
  {
    hide Ids;
  }

  lemma LineInv(libs: seq<nat>, r: nat, v: nat, n: nat)
    requires 1 <= r <= v <= n <= |libs| && Rising(libs, v)
    ensures Inv(Line(libs, r, v, n))
  {
    hide Line, Rising, WellFormed, HeadOk;
    LineWellFormed(libs, r, v, n);
    LineHeadOk(libs, r, v, n);
  }

  lemma LineStores(libs: seq<nat>, r: nat, v: nat, n: nat)
    requires 1 <= r <= v <= n < |libs| && Rising(libs, v)
    ensures Perform(Line(libs, r, v, n), OpAdd(At(libs, n + 1), false, false)) == Line(libs, r, v, n + 1)
  {
    hide Perform, Ids, Inv;
    var t := Line(libs, r, v, n);
    LineInv(libs, r, v, n);
    assert v > r ==> t.head.id in t.valid;
    assert v == r ==> t.valid == {};
    StoreKeepsHead(t, At(libs, n + 1));
  }

  lemma LineValidates(libs: seq<nat>, r: nat, v: nat, n: nat)
    requires 1 <= r <= v < n <= |libs| && Rising(libs, v + 1)
    ensures Perform(Line(libs, r, v, n), OpMarkValid(BlockId(v + 1, 0))) == Line(libs, r, v + 1, n)
  {
    hide Perform, Ids, Inv;
    var t := Line(libs, r, v, n);
    LineInv(libs, r, v, n);
    ValidateMakesHead(t, BlockId(v + 1, 0));
  }

  lemma {:induction false} LineDescends(libs: seq<nat>, r: nat, v: nat, n: nat, i: nat, j: nat)
    requires 1 <= r <= v <= n <= |libs| && Linked(Line(libs, r, v, n)) && r <= i <= n && r <= j <= n
    ensures Descends(Line(libs, r, v, n), BlockId(i, 0), BlockId(j, 0)) <==> j <= i
    decreases i
  {
    hide Ids, Linked;
    if i > r { LineDescends(libs, r, v, n, i - 1, j); }
  }

  lemma LineSubtree(libs: seq<nat>, r: nat, v: nat, n: nat, r': nat)
    requires 1 <= r < r' <= v <= n <= |libs| && Linked(Line(libs, r, v, n))
    ensures Subtree(Line(libs, r, v, n), BlockId(r', 0)) == Ids(r' - 1, n)
  {
    hide Descends, Linked, Ids;
    forall m | r < m <= n ensures Descends(Line(libs, r, v, n), BlockId(m, 0), BlockId(r', 0)) <==> r' <= m {
      LineDescends(libs, r, v, n, m, r');
    }
  }

  lemma LineAdvances(libs: seq<nat>, r: nat, v: nat, n: nat, r': nat)
    requires 1 <= r < r' <= v <= n <= |libs| && Rising(libs, v)
    ensures Perform(Line(libs, r, v, n), OpAdvanceRoot(BlockId(r', 0))) == Line(libs, r', v, n)
  {
    hide Rising, Descends, Subtree, HalfAdvanced, Ids, HeadOk, Linked, Restrict;
    LineWellFormed(libs, r, v, n);
    LineDescends(libs, r, v, n, v, r');
    LineSubtree(libs, r, v, n, r');
    LineCut(libs, r, v, n, r');
    assert BlockId(r', 0) in Line(libs, r, v, n).blocks;
    hide WellFormed;
  }

  lemma LineCut(libs: seq<nat>, r: nat, v: nat, n: nat, r': nat)
    requires 1 <= r < r' <= v <= n <= |libs|
    ensures Restrict(Line(libs, r, v, n), Ids(r' - 1, n) - {BlockId(r', 0)}).(root := At(libs, r')) ==
      Line(libs, r', v, n)
  {
    hide Ids;
    var t, t' := Restrict(Line(libs, r, v, n), Ids(r' - 1, n) - {BlockId(r', 0)}), Line(libs, r', v, n);
    assert t.blocks == t'.blocks && t.valid == t'.valid;
  }

  /** The root after block `k`: its last irreversible block, or the first block. */
  function RootAt(libs: seq<nat>, k: nat): nat
    requires 1 <= k <= |libs|
  {
    if libs[k - 1] == 0 then 1 else libs[k - 1]
  }

  /** What receiving block `k` does: the block is stored and validated, and the root moves on if the LIB does. */
  function ReceiveOps(libs: seq<nat>, k: nat): seq<Op>
    requires 2 <= k <= |libs|
  {
    [OpAdd(At(libs, k), false, false), OpMarkValid(BlockId(k, 0))] +
    if RootAt(libs, k - 1) < RootAt(libs, k) then [OpAdvanceRoot(BlockId(RootAt(libs, k), 0))] else []
  }

  /** The operations for blocks 2 to `k`. */
  function LineOps(libs: seq<nat>, k: nat): seq<Op>
    requires 1 <= k <= |libs|
  {
    if k == 1 then [] else LineOps(libs, k - 1) + ReceiveOps(libs, k)
  }

  /**
   Storing and validating the blocks of one branch and moving the root whenever the LIB rises leaves exactly the blocks
   after the last irreversible one, with the last block as head.
   */
  lemma {:induction false} LineIsReached(libs: seq<nat>, k: nat)
    requires 1 <= k <= |libs| && Rising(libs, k)
    ensures RootAt(libs, k) <= k
    ensures PerformAll(Reset(At(libs, 1)), LineOps(libs, k)) == Some(Line(libs, RootAt(libs, k), k, k))
  {
    hide Perform, ReceiveOps, PerformAll;
    var t := Reset(At(libs, 1));
    if k == 1 {
      assert Ids(1, 1) == {};
      assert t == Line(libs, 1, 1, 1);
      PerformNothing(t);
    } else {
      hide Line;
      LineIsReached(libs, k - 1);
      LineReceives(libs, t, LineOps(libs, k - 1), k);
    }
  }

  lemma LineReceives(libs: seq<nat>, t: Tree, ops: seq<Op>, k: nat)
    requires 2 <= k <= |libs| && Rising(libs, k) && RootAt(libs, k - 1) < k
    requires PerformAll(t, ops) == Some(Line(libs, RootAt(libs, k - 1), k - 1, k - 1))
    ensures RootAt(libs, k) <= k
    ensures PerformAll(t, ops + ReceiveOps(libs, k)) == Some(Line(libs, RootAt(libs, k), k, k))
  {
    hide Perform, PerformAll, WellFormed, HeadOk, Line;
    var r, r' := RootAt(libs, k - 1), RootAt(libs, k);
    var store, validate := OpAdd(At(libs, k), false, false), OpMarkValid(BlockId(k, 0));
    LineInv(libs, r, k - 1, k - 1);
    LineStores(libs, r, k - 1, k - 1);
    PerformNext(t, ops, Line(libs, r, k - 1, k - 1), store, Line(libs, r, k - 1, k));
    LineInv(libs, r, k - 1, k);
    LineValidates(libs, r, k - 1, k);
    PerformNext(t, ops + [store], Line(libs, r, k - 1, k), validate, Line(libs, r, k, k));
    if r < r' {
      LineInv(libs, r, k, k);
      LineAdvances(libs, r, k, k, r');
      var advance := OpAdvanceRoot(BlockId(r', 0));
      PerformNext(t, ops + [store] + [validate], Line(libs, r, k, k), advance, Line(libs, r', k, k));
      assert ops + [store] + [validate] + [advance] == ops + ReceiveOps(libs, k);
    } else {
      assert ops + [store] + [validate] == ops + ReceiveOps(libs, k);
    }
  }

  /** Each block of such a branch is preferred over the head as soon as it is stored, so it is validated next. */
  lemma LinePending(libs: seq<nat>, r: nat, k: nat)
    requires 1 <= r < k <= |libs| && Rising(libs, k)
    ensures WellFormed(Line(libs, r, k - 1, k)) && PendingHead(Line(libs, r, k - 1, k)) == At(libs, k)
  {
    hide Ids, PendingHead, WellFormed;
    LineWellFormed(libs, r, k - 1, k);
    assert Unvalidated(Line(libs, r, k - 1, k)).Keys == {BlockId(k, 0)};
    OnlyCandidate(Line(libs, r, k - 1, k), At(libs, k));
  }

  lemma OnlyCandidate(t: Tree, b: Block)
    requires WellFormed(t) && Unvalidated(t).Keys == {b.id} && t.blocks[b.id] == b && FirstPreferred(b, t.head)
    ensures PendingHead(t) == b
  {
    hide First, IsFirst;
    var rest := Unvalidated(t);
    assert b.id in rest;
    FirstIsStored(rest, t.valid, First(rest, t.valid));
  }

  // ---- The branch whose irreversible number drops ----

  function DropLibs(): (libs: seq<nat>)
    ensures |libs| == |HeaderRuns.DropStates()|
  {
    seq(|HeaderRuns.DropStates()|,
        (i: nat) requires i < |HeaderRuns.DropStates()| => HeaderRuns.DropStates()[i].irreversible)
  }

  /** The first state is numbered 1, and the numbers rise up to block 10. */
  lemma DropLibsAre()
    ensures forall i | 0 <= i < 12 :: HeaderRuns.DropStates()[i].blockNum == i + 1
    ensures DropLibs() == [0, 0, 2, 3, 3, 3, 4, 4, 4, 5, 3, 8] && Rising(DropLibs(), 10)
  {
    assert DropLibs() == [0, 0, 2, 3, 3, 3, 4, 4, 4, 5, 3, 8];
    hide DropLibs;
    DropRises(DropLibs());
    hide Rising;
  }

  lemma DropRises(libs: seq<nat>)
    requires libs == [0, 0, 2, 3, 3, 3, 4, 4, 4, 5, 3, 8]
    ensures Rising(libs, 10)
  {
  }

  /**
   Block 10 is the head and made block 5 the root; the blocks after it, up to `last`, are stored but not validated.
   */
  function DropTree(last: nat): Tree
    requires last == 11 || last == 12
  {
    Line(DropLibs(), 5, 10, last)
  }

  /** Blocks 2 to 10 are received, then block 11 and block 12 are stored. */
  function DropOps(last: nat): seq<Op>
    requires last == 11 || last == 12
  {
    LineOps(DropLibs(), 10) + [OpAdd(At(DropLibs(), 11), false, false)] +
    if last == 11 then [] else [OpAdd(At(DropLibs(), 12), false, false)]
  }

  lemma DropTreeIsReached(last: nat)
    requires last == 11 || last == 12
    ensures PerformAll(Reset(At(DropLibs(), 1)), DropOps(last)) == Some(DropTree(last)) && Inv(DropTree(last))
  {
    hide DropLibs, LineOps, Perform, PerformAll, Rising, HeadOk, Linked, Line;
    var libs := DropLibs();
    DropLibsAre();
    var t, ops := Reset(At(libs, 1)), LineOps(libs, 10);
    LineIsReached(libs, 10);
    LineInv(libs, 5, 10, 10);
    LineStores(libs, 5, 10, 10);
    PerformNext(t, ops, Line(libs, 5, 10, 10), OpAdd(At(libs, 11), false, false), DropTree(11));
    LineInv(libs, 5, 10, 11);
    LineStores(libs, 5, 10, 11);
    PerformNext(t, ops + [OpAdd(At(libs, 11), false, false)], DropTree(11), OpAdd(At(libs, 12), false, false),
                DropTree(12));
    LineInv(libs, 5, 10, 12);
    assert DropOps(11) == ops + [OpAdd(At(libs, 11), false, false)];
  }

  /** The tree is saved with block 11 before its parent, and does not reload. */
  lemma DropTreeDoesNotReload(f: Saved)
    requires IsSave(DropTree(11), f)
    ensures PerformAll(Reset(At(DropLibs(), 1)), DropOps(11)) == Some(DropTree(11))
    ensures Inv(DropTree(11)) && !LibsGrow(DropTree(11))
    ensures EntriesOk(f.entries) && Reopen(f) == Err(Unlinkable)
  {
    hide DropLibs, IsSave, Inv, Rising, PerformAll, DropOps;
    DropTreeIsReached(11);
    DropLibsAre();
    assert !LibsGrow(DropTree(11)) by {
      var t := DropTree(11);
      assert t.blocks[BlockId(11, 0)].prev == BlockId(10, 0) && t.blocks[BlockId(10, 0)].lib == 5;
    }
    hide DropTree;
    ReopenRestoresExactly(DropTree(11), f);
  }

  /** Block 11 is not preferred over the head, so it is not validated. */
  lemma DropTreeKeepsHead()
    ensures WellFormed(DropTree(11)) && PendingHead(DropTree(11)) == DropTree(11).head
  {
    hide DropLibs, Rising, PerformAll, DropOps, First;
    DropTreeIsReached(11);
    DropLibsAre();
    var t := DropTree(11);
    assert Unvalidated(t).Keys == {BlockId(11, 0)};
  }

  lemma DropPending()
    ensures WellFormed(DropTree(12)) && PendingHead(DropTree(12)) == At(DropLibs(), 12)
  {
    hide DropLibs, First, Rising, PerformAll, DropOps;
    var t, b := DropTree(12), At(DropLibs(), 12);
    DropTreeIsReached(12);
    DropLibsAre();
    var rest := Unvalidated(t);
    assert rest.Keys == {BlockId(11, 0), BlockId(12, 0)} && rest[BlockId(12, 0)] == b;
    hide WellFormed, Ids;
    FirstIsUnique(rest, t.valid, b, First(rest, t.valid));
  }

  /** When block 12 arrives it is preferred over the head, two blocks below it: nothing is popped to switch to it. */
  lemma DropTreeSkipsChild()
    ensures PerformAll(Reset(At(DropLibs(), 1)), DropOps(12)) == Some(DropTree(12)) && Inv(DropTree(12))
    ensures PendingHead(DropTree(12)) == At(DropLibs(), 12)
    ensures Controller.SkipsChild(DropTree(12), DropTree(12).head, At(DropLibs(), 12))
  {
    hide DropLibs, PendingHead, Linked, PerformAll, DropOps, Descends, Rising;
    DropTreeIsReached(12);
    DropPending();
    DropLibsAre();
    LineDescends(DropLibs(), 5, 10, 12, 12, 10);
  }
}
