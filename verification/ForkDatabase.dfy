/** The fork database as the node keeps it: an index of blocks updated in place. */
module ForkDatabase {
  import opened Results
  import T = ForkTree
  import opened ForkTree

  /** What the caller of a database operation sees, given what the tree model says of it. */
  ghost predicate Follows(spec: Result<Tree, ForkError>, before: Tree, after: Tree, r: Result<(), ForkError>)
  {
    match spec
    case Ok(t) => r == Ok(()) && after == t
    case Err(e) => r == Err(e) && after == before
  }

  /** The blocks of `after` are blocks of `before`, with the same flags. */
  ghost predicate Thinned(before: Tree, after: Tree)
  {
    && (forall x | x in after.blocks :: x in before.blocks && after.blocks[x] == before.blocks[x])
    && (forall x | x in after.blocks :: x in after.valid <==> x in before.valid)
  }

  /** Exactly the blocks that descend from `id` are gone. */
  ghost predicate RemovedUnder(before: Tree, after: Tree, id: BlockId)
    requires Linked(before)
  {
    Thinned(before, after) && forall x | x in before.blocks :: x in after.blocks <==> !Descends(before, x, id)
  }

  /** Exactly the strict descendants of `id` are left. */
  ghost predicate KeptAbove(before: Tree, after: Tree, id: BlockId)
    requires Linked(before)
  {
    Thinned(before, after) && forall x | x in before.blocks :: x in after.blocks <==> x != id && Descends(before, x, id)
  }

  lemma RemoveIs(t: Tree, id: BlockId)
    requires Linked(t) && T.Remove(t, id).Ok?
    ensures var t' := T.Remove(t, id).value; t'.root == t.root && t'.head == t.head && RemovedUnder(t, t', id)
  {
  }

  lemma AdvanceRootIs(t: Tree, id: BlockId)
    requires WellFormed(t) && T.AdvanceRoot(t, id).Ok?
    ensures var t' := T.AdvanceRoot(t, id).value;
      t'.root == t.blocks[id] && t'.head == t.head && KeptAbove(t, t', id)
  {
  }

  // ---- The removal worklist ----

  predicate Distinct(q: seq<BlockId>)
  {
    forall i, j | 0 <= i < j < |q| :: q[i] != q[j]
  }

  /** The first `i` entries of the queue have had their children queued. */
  ghost predicate Worklist(t: Tree, id: BlockId, q: seq<BlockId>, i: nat)
    requires Linked(t)
  {
    && i <= |q| && |q| > 0 && q[0] == id && Distinct(q)
    && (forall j | 0 <= j < |q| :: Descends(t, q[j], id))
    && (forall j | 0 < j < |q| :: q[j] in t.blocks && t.blocks[q[j]].prev in q[..i])
    && (forall x | x in t.blocks && t.blocks[x].prev in q[..i] :: x in q)
  }

  predicate ChildrenOf(blocks: map<BlockId, Block>, id: BlockId, cs: seq<BlockId>)
  {
    && Distinct(cs)
    && (forall c | c in cs :: c in blocks && blocks[c].prev == id)
    && (forall x | x in blocks && blocks[x].prev == id :: x in cs)
  }

  lemma WorklistStep(t: Tree, id: BlockId, q: seq<BlockId>, i: nat, cs: seq<BlockId>)
    requires Linked(t) && Worklist(t, id, q, i) && i < |q| && ChildrenOf(t.blocks, q[i], cs)
    ensures Worklist(t, id, q + cs, i + 1)
  {
    var q' := q + cs;
    assert q'[..i + 1] == q[..i] + [q[i]];
    forall j, k | 0 <= j < |q| && 0 <= k < |cs| ensures q[j] != cs[k] {
      assert cs[k] in cs;
      if j == 0 { DescendsNumber(t, q[i], id); }
    }
    forall j | 0 <= j < |q'| ensures Descends(t, q'[j], id) {
      if |q| <= j { assert q'[j] in cs; }
    }
    forall j | 0 < j < |q'| ensures q'[j] in t.blocks && t.blocks[q'[j]].prev in q'[..i + 1] {
      if |q| <= j { assert q'[j] in cs; }
    }
  }

  lemma WorklistStarts(t: Tree, id: BlockId)
    requires Linked(t)
    ensures Worklist(t, id, [id], 0)
  {
  }

  /** An entry not yet handled differs from every handled one, so handling it makes progress. */
  lemma InQueueOnce(t: Tree, id: BlockId, q: seq<BlockId>, i: nat)
    requires Linked(t) && Worklist(t, id, q, i) && i < |q|
    ensures q[i] in t.blocks.Keys + {id} && q[i] !in q[..i] && Descends(t, q[i], id)
  {
  }

  /** A finished worklist holds exactly the block and its descendants. */
  lemma {:induction false} WorklistComplete(t: Tree, id: BlockId, q: seq<BlockId>, x: BlockId)
    requires Linked(t) && Worklist(t, id, q, |q|)
    requires Descends(t, x, id)
    ensures x in q
    decreases x.num
  {
    if x != id {
      WorklistComplete(t, id, q, t.blocks[x].prev);
      assert q[..|q|] == q;
    }
  }

  function Ids(q: seq<BlockId>): set<BlockId>
  {
    set x | x in q
  }

  lemma WorklistIsSubtree(t: Tree, id: BlockId, q: seq<BlockId>)
    requires Linked(t) && Worklist(t, id, q, |q|)
    ensures Subtree(t, id) == Ids(q) * t.blocks.Keys
    ensures forall x :: Descends(t, x, id) <==> x in q
  {
    forall x ensures Descends(t, x, id) <==> x in q {
      if Descends(t, x, id) { WorklistComplete(t, id, q, x); }
    }
  }

  // ---- Advancing the root ----

  /** With `id` erased, its descendants no longer reach any lower ancestor. */
  lemma {:induction false} CutOff(t: Tree, id: BlockId, tk: Tree, x: BlockId, a: BlockId)
    requires Linked(t) && Linked(tk) && id !in tk.blocks && a.num < id.num
    requires forall y | y in tk.blocks :: y in t.blocks && tk.blocks[y] == t.blocks[y]
    requires Descends(t, x, id)
    ensures !Descends(tk, x, a)
    decreases x.num
  {
    DescendsNumber(t, x, id);
    if x != id && x in tk.blocks { CutOff(t, id, tk, t.blocks[x].prev, a); }
  }

  /** Blocks outside the subtree of `low` keep their ancestors. */
  lemma {:induction false} KeptAncestry(t: Tree, id: BlockId, low: BlockId, tk: Tree, x: BlockId, a: BlockId)
    requires WellFormed(t) && Linked(tk) && tk == Restrict(t, Keep(t, id, low))
    requires Known(t, x) && !Descends(t, x, low)
    ensures Descends(tk, x, a) <==> Descends(t, x, a)
    decreases x.num
  {
    if x != a && x in t.blocks { KeptAncestry(t, id, low, tk, t.blocks[x].prev, a); }
  }

  /** One `remove` of the loop in advance_root, on the tree left by the ones before it. */
  lemma PruneStep(t: Tree, id: BlockId, low: BlockId)
    requires Inv(t) && id in t.blocks && Descends(t, id, low) && low in t.blocks
    requires Descends(t, t.head.id, id) || !Descends(t, t.head.id, low)
    ensures var tk, a := Restrict(t, Keep(t, id, low)), t.blocks[low].prev;
      && Linked(tk) && id !in tk.blocks
      && Remove(tk, a) == (if Descends(t, t.head.id, id) || !Descends(t, t.head.id, a)
                           then Ok(Restrict(t, Keep(t, id, a))) else Err(WouldRemoveHead))
  {
    var tk, a := Restrict(t, Keep(t, id, low)), t.blocks[low].prev;
    DescendsNumber(t, id, low);
    assert id !in tk.blocks && a.num < id.num;
    forall x | Known(t, x) && (x == t.head.id || x in tk.blocks)
      ensures Descends(tk, x, a) <==> Descends(t, x, a) && !Descends(t, x, id)
    {
      if Descends(t, x, id) {
        CutOff(t, id, tk, x, a);
      } else {
        KeptAncestry(t, id, low, tk, x, a);
      }
    }
    PrunedKeys(t, id, low, tk, a);
  }

  lemma PrunedKeys(t: Tree, id: BlockId, low: BlockId, tk: Tree, a: BlockId)
    requires WellFormed(t) && Linked(tk) && tk == Restrict(t, Keep(t, id, low))
    requires id in t.blocks && low in t.blocks && Descends(t, id, low) && a == t.blocks[low].prev
    requires forall x | x in tk.blocks :: Descends(tk, x, a) <==> Descends(t, x, a) && !Descends(t, x, id)
    ensures Restrict(tk, tk.blocks.Keys - Subtree(tk, a)) == Restrict(t, Keep(t, id, a))
  {
    forall x | x in t.blocks
      ensures x in tk.blocks && !Descends(tk, x, a) <==> x in Keep(t, id, a)
    {
      if Descends(t, x, id) { DescendsTransitive(t, x, id, low); }
      if Descends(t, x, low) { DescendsTransitive(t, x, low, a); }
    }
    var s1, s2 := Restrict(tk, tk.blocks.Keys - Subtree(tk, a)), Restrict(t, Keep(t, id, a));
    assert s1.blocks == s2.blocks;
    assert s1.valid == s2.valid;
  }

  lemma KeepAtStart(t: Tree, id: BlockId)
    requires Linked(t)
    ensures t.blocks.Keys - Ids([id]) == Keep(t, id, id) && Descends(t, id, id)
  {
  }

  lemma AncestorStep(t: Tree, id: BlockId, low: BlockId, ids: seq<BlockId>, k: nat)
    requires WellFormed(t) && id in t.blocks && |ids| == |Chain(t, id)| && k < |ids|
    requires forall j | 0 <= j < |ids| :: ids[j] == Chain(t, id)[j].prev
    requires low == (if k == 0 then id else ids[k - 1]) && Descends(t, id, low)
    ensures low in t.blocks && t.blocks[low].prev == ids[k] && Descends(t, id, ids[k])
  {
    var c := Chain(t, id);
    ChainSuffix(t, id, k);
    if k > 0 {
      ChainSuffix(t, id, k - 1);
      assert c[k - 1..][1..] == c[k..];
    }
    assert c[k].id == low;
    DescendsTransitive(t, id, low, ids[k]);
  }

  /** Pruning from `low` on stops where pruning from `id` on does. */
  predicate StopsLike(t: Tree, id: BlockId, low: BlockId)
    requires WellFormed(t) && id in t.blocks
  {
    low in t.blocks && StopAt(t, low) == StopAt(t, id)
  }

  lemma StopStep(t: Tree, id: BlockId, low: BlockId)
    requires Inv(t) && id in t.blocks && StopsLike(t, id, low)
    ensures var a := t.blocks[low].prev;
      if Descends(t, t.head.id, a) then StopAt(t, id) == low else StopsLike(t, id, a)
  {
    var a := t.blocks[low].prev;
    DescendsIffOnChain(t, t.head.id, a);
  }

  lemma ReachedRoot(t: Tree, id: BlockId, low: BlockId, ids: seq<BlockId>)
    requires WellFormed(t) && id in t.blocks && |ids| == |Chain(t, id)|
    requires forall j | 0 <= j < |ids| :: ids[j] == Chain(t, id)[j].prev
    requires low == ids[|ids| - 1]
    ensures low == t.root.id && Keep(t, id, low) == Subtree(t, id) - {id}
    ensures Known(t, t.head.id) ==> Descends(t, t.head.id, low)
  {
    if Known(t, t.head.id) { DescendsIffOnChain(t, t.head.id, t.head.id); }
    var c := Chain(t, id);
    ChainSuffix(t, id, |c| - 1);
    forall x | x in t.blocks ensures Descends(t, x, t.root.id) {
      DescendsIffOnChain(t, x, x);
    }
  }

  // ---- Branches ----

  /** The blocks of a branch numbered at most `n`. */
  function UpTo(c: seq<Block>, n: nat): seq<Block>
  {
    if c == [] then []
    else if c[|c| - 1].num <= n then UpTo(c[..|c| - 1], n) + [c[|c| - 1]]
    else UpTo(c[..|c| - 1], n)
  }

  /** `p` and `q` lead from `a` and `b` to just above their lowest common ancestor. */
  predicate Forks(t: Tree, a: BlockId, b: BlockId, p: seq<Block>, q: seq<Block>)
    requires WellFormed(t) && Known(t, a) && Known(t, b)
  {
    && p <= Chain(t, a) && q <= Chain(t, b)
    && Chain(t, a)[|p|..] == Chain(t, b)[|q|..]
    && Disjoint(p, q)
  }

  predicate Disjoint(p: seq<Block>, q: seq<Block>)
  {
    forall i, j | 0 <= i < |p| && 0 <= j < |q| :: p[i] != q[j]
  }

  /** The common ancestors are exactly the root and the blocks below both branches. */
  lemma ForksAtLowestCommonAncestor(t: Tree, a: BlockId, b: BlockId, p: seq<Block>, q: seq<Block>, x: BlockId)
    requires WellFormed(t) && Known(t, a) && Known(t, b) && Forks(t, a, b, p, q)
    ensures Descends(t, a, x) && Descends(t, b, x) <==> x == t.root.id || OnChain(Chain(t, a)[|p|..], x)
  {
    hide Descends;
    var c, d := Chain(t, a), Chain(t, b);
    DescendsIffOnChain(t, a, x);
    DescendsIffOnChain(t, b, x);
    ChainNumbers(t, a);
    ChainNumbers(t, b);
    hide Chain, WellFormed;
    if OnChain(c[|p|..], x) {
      var m :| 0 <= m < |c[|p|..]| && c[|p|..][m].id == x;
      assert c[|p| + m].id == x && d[|q| + m].id == x;
    } else if OnChain(c, x) && OnChain(d, x) {
      OnlyBelowTheFork(c, d, p, q, a.num, x, t.blocks);
    }
  }

  /** The second branch is empty exactly when the second block is an ancestor of the first. */
  lemma NothingToPop(t: Tree, a: BlockId, b: BlockId, p: seq<Block>, q: seq<Block>)
    requires WellFormed(t) && Known(t, a) && Known(t, b) && Forks(t, a, b, p, q)
    ensures q == [] <==> Descends(t, a, b)
  {
    var d := Chain(t, b);
    ForksAtLowestCommonAncestor(t, a, b, p, q, b);
    ChainNumbers(t, b);
    assert Descends(t, b, b);
    hide Descends;
    if b != t.root.id {
      assert d[0].id == b;
      assert q == [] ==> d[|q|..][0].id == b;
      assert forall i | 0 <= i < |d[|q|..]| :: d[|q|..][i] == d[|q| + i];
    }
  }

  lemma OnlyBelowTheFork(c: seq<Block>, d: seq<Block>, p: seq<Block>, q: seq<Block>, top: nat, x: BlockId,
                         blocks: map<BlockId, Block>)
    requires p <= c && q <= d && c[|p|..] == d[|q|..] && Disjoint(p, q) && |c| <= top
    requires forall i | 0 <= i < |c| :: c[i].num == top - i && c[i].id in blocks && blocks[c[i].id] == c[i]
    requires forall i | 0 <= i < |d| :: d[i].id in blocks && blocks[d[i].id] == d[i]
    requires OnChain(c, x) && OnChain(d, x)
    ensures OnChain(c[|p|..], x)
  {
    var i :| 0 <= i < |c| && c[i].id == x;
    var j :| 0 <= j < |d| && d[j].id == x;
    assert c[i] == d[j];
    if j >= |q| {
      assert d[|q|..][j - |q|] == d[j];
      assert c[|p|..][j - |q|].id == x;
    } else {
      assert c[|p|..][i - |p|] == c[i];
    }
  }

  /** Having collected `p` on the way down from `a`, the walk stands at `at`. */
  predicate Walked(t: Tree, a: BlockId, p: seq<Block>, at: Block)
    requires WellFormed(t) && Known(t, a)
  {
    Known(t, at.id) && Get(t, at.id) == at && p + Chain(t, at.id) == Chain(t, a)
  }

  lemma WalkStep(t: Tree, a: BlockId, p: seq<Block>, at: Block)
    requires WellFormed(t) && Known(t, a) && Walked(t, a, p, at) && at.id != t.root.id
    ensures Known(t, at.prev) && Walked(t, a, p + [at], Get(t, at.prev))
  {
    assert Chain(t, at.id) == [at] + Chain(t, at.prev);
  }

  lemma WalkNumbers(t: Tree, a: BlockId, p: seq<Block>, at: Block)
    requires WellFormed(t) && Known(t, a) && Walked(t, a, p, at)
    ensures at.num == at.id.num == a.num - |p| && t.root.num <= at.num
    ensures at.num == t.root.num <==> at.id == t.root.id
    ensures forall i | 0 <= i < |p| :: p[i].num == a.num - i
  {
    ChainNumbers(t, a);
    ChainNumbers(t, at.id);
    assert forall i | 0 <= i < |p| :: p[i] == Chain(t, a)[i];
  }

  lemma WalkStarts(t: Tree, a: BlockId)
    requires WellFormed(t) && Known(t, a)
    ensures Walked(t, a, [], Get(t, a))
  {
  }

  /** Two walks that arrive at the same block have found the branches. */
  lemma WalksMeet(t: Tree, a: BlockId, b: BlockId, p: seq<Block>, q: seq<Block>, id: BlockId)
    requires WellFormed(t) && Known(t, a) && Known(t, b) && Known(t, id)
    requires Walked(t, a, p, Get(t, id)) && Walked(t, b, q, Get(t, id)) && Disjoint(p, q)
    ensures Forks(t, a, b, p, q)
  {
    assert (p + Chain(t, id))[|p|..] == Chain(t, id);
    assert (q + Chain(t, id))[|q|..] == Chain(t, id);
  }

  /** Two different blocks on one level, with different parents: the parents are stored and differ. */
  lemma LevelStep(t: Tree, a: BlockId, b: BlockId, p: seq<Block>, q: seq<Block>, fb: Block, sb: Block)
    requires WellFormed(t) && Known(t, a) && Known(t, b) && Walked(t, a, p, fb) && Walked(t, b, q, sb)
    requires fb.num == sb.num && fb.id != sb.id && fb.id != t.root.id && sb.id != t.root.id && fb.prev != sb.prev
    requires Disjoint(p, q)
    ensures fb.prev in t.blocks && sb.prev in t.blocks && t.blocks[fb.prev].num == t.blocks[sb.prev].num < fb.num
    ensures Walked(t, a, p + [fb], t.blocks[fb.prev]) && Walked(t, b, q + [sb], t.blocks[sb.prev])
    ensures Disjoint(p + [fb], q + [sb])
    ensures t.blocks[fb.prev].id == fb.prev != t.root.id && t.blocks[sb.prev].id == sb.prev != t.root.id
  {
    WalkNumbers(t, a, p, fb);
    WalkNumbers(t, b, q, sb);
    WalkStep(t, a, p, fb);
    WalkStep(t, b, q, sb);
    WalkNumbers(t, a, p + [fb], Get(t, fb.prev));
    WalkNumbers(t, b, q + [sb], Get(t, sb.prev));
  }

  class ForkDatabase {
    var root: Block
    var index: map<BlockId, Block>
    var validated: set<BlockId>
    var head: Block

    ghost function State(): Tree
      reads this
    {
      Tree(root, index, validated, head)
    }

    constructor (rootBhs: Block)
      ensures State() == T.Reset(rootBhs)
    {
      root, index, validated, head := rootBhs, map[], {}, rootBhs;
    }

    method Reset(rootBhs: Block)
      modifies this
      ensures State() == T.Reset(rootBhs)
      ensures root == head == rootBhs && index == map[] && validated == {}
    {
      index, validated := map[], {};
      root := rootBhs;
      head := root;
    }

    method RollbackHeadToRoot()
      requires WellFormed(State())
      modifies this
      ensures State() == T.RollbackHeadToRoot(old(State()))
      ensures root == old(root) && index == old(index) && validated == {} && head == root
    {
      var todo := index.Keys;
      while todo != {}
        invariant validated <= todo
        invariant root == old(root) && index == old(index) && head == old(head)
        decreases todo
      {
        var id :| id in todo;
        validated := validated - {id};
        todo := todo - {id};
      }
      head := root;
    }

    /** The first entry of an ordered index over the blocks of `s`. */
    method Begin(s: map<BlockId, Block>) returns (b: Block)
      requires s != map[] && forall id | id in s :: s[id].id == id
      ensures b == First(s, validated)
    {
      var id :| id in s;
      b := s[id];
      var todo := s.Keys - {id};
      while todo != {}
        invariant todo <= s.Keys && b.id in s && s[b.id] == b
        invariant forall x | x in s && x !in todo :: s[x] == b || Before(validated, b, s[x])
        decreases todo
      {
        var x :| x in todo;
        if Before(validated, s[x], b) { b := s[x]; }
        todo := todo - {x};
      }
      assert IsFirst(s, validated, b);
      FirstIsUnique(s, validated, b, First(s, validated));
    }

    method Add(b: Block, isValid: bool, ignoreDuplicate: bool) returns (r: Result<(), ForkError>)
      requires Inv(State()) && BlockOk(b)
      modifies this
      ensures Follows(T.Add(old(State()), b, isValid, ignoreDuplicate), old(State()), State(), r)
      ensures Inv(State()) && root == old(root)
      ensures r == if b.prev != root.id && b.prev !in old(index) then Err(Unlinkable)
                   else if b.id in old(index) && !ignoreDuplicate then Err(DuplicateBlock)
                   else Ok(())
      ensures r.Err? || b.id in old(index) ==> State() == old(State())
      ensures r.Ok? && b.id !in old(index) ==>
        && index == old(index)[b.id := b] && validated == (if isValid then old(validated) + {b.id} else old(validated))
        && (if validated == {} then head == old(head) else head.id in validated)
    {
      AddKeepsInv(State(), b, isValid, ignoreDuplicate);
      if b.prev != root.id && b.prev !in index { return Err(Unlinkable); }
      if b.id in index {
        if ignoreDuplicate { return Ok(()); }
        return Err(DuplicateBlock);
      }
      index := index[b.id := b];
      if isValid { validated := validated + {b.id}; }
      assert b.id in index;
      var candidate := Begin(index);
      FirstIsBestValid(index, validated, candidate);
      assert forall id | id in index :: index[id].id == id;
      if candidate.id in validated { head := candidate; }
      return Ok(());
    }

    method MarkValid(id: BlockId) returns (r: Result<(), ForkError>)
      requires Inv(State())
      modifies this
      ensures Follows(T.MarkValid(old(State()), id), old(State()), State(), r)
      ensures Inv(State()) && root == old(root) && index == old(index)
      ensures r == if id == root.id || id in index then Ok(()) else Err(NotInDatabase)
      ensures validated == if id in index then old(validated) + {id} else old(validated)
      ensures head == if id in index && id !in old(validated) && FirstPreferred(index[id], old(head)) then index[id]
                      else old(head)
    {
      MarkValidKeepsInv(State(), id);
      if id in index && id !in validated {
        if FirstPreferred(index[id], head) {
          ValidateMakesHead(State(), id);
        } else {
          ValidateKeepsHead(State(), id);
        }
      }
      if id == root.id || id in validated { return Ok(()); }
      if id !in index { return Err(NotInDatabase); }
      validated := validated + {id};
      var candidate := Begin(index);
      if FirstPreferred(candidate, head) { head := candidate; }
      return Ok(());
    }

    /** The entries of the by_prev index for one parent. */
    method Children(id: BlockId) returns (cs: seq<BlockId>)
      ensures ChildrenOf(index, id, cs)
    {
      cs := [];
      var todo := set x | x in index && index[x].prev == id;
      while todo != {}
        invariant Distinct(cs) && forall c | c in cs :: c in index && index[c].prev == id && c !in todo
        invariant forall x | x in todo :: x in index && index[x].prev == id
        invariant forall x | x in index && index[x].prev == id :: x in cs || x in todo
        decreases todo
      {
        var c :| c in todo;
        cs, todo := cs + [c], todo - {c};
      }
    }

    method Erase(ids: seq<BlockId>)
      requires validated <= index.Keys
      modifies this
      ensures State() == Restrict(old(State()), old(index).Keys - Ids(ids))
    {
      for i := 0 to |ids|
        invariant State() == Restrict(old(State()), old(index).Keys - Ids(ids[..i]))
      {
        index := index - {ids[i]};
        validated := validated - {ids[i]};
        assert Ids(ids[..i + 1]) == Ids(ids[..i]) + {ids[i]};
      }
      assert ids[..|ids|] == ids;
    }

    /** Grows the removal queue until it holds the whole subtree, or stops at the head. */
    method CollectSubtree(id: BlockId) returns (queue: seq<BlockId>, hitHead: bool)
      requires Linked(State())
      ensures hitHead <==> Descends(State(), head.id, id)
      ensures !hitHead ==> Subtree(State(), id) == Ids(queue) * index.Keys
    {
      hide Subtree, ChildrenOf, Worklist, Descends, Linked;
      ghost var t := State();
      queue := [id];
      var i := 0;
      ghost var todo := index.Keys + {id};
      WorklistStarts(t, id);
      while i < |queue|
        invariant i <= |queue| && Worklist(t, id, queue, i)
        invariant todo == index.Keys + {id} - Ids(queue[..i])
        invariant head.id !in queue[..i]
        decreases todo
      {
        InQueueOnce(t, id, queue, i);
        if queue[i] == head.id { return queue, true; }
        var cs := Children(queue[i]);
        WorklistStep(t, id, queue, i, cs);
        assert (queue + cs)[..i + 1] == queue[..i] + [queue[i]];
        todo := todo - {queue[i]};
        queue, i := queue + cs, i + 1;
      }
      assert queue[..i] == queue;
      WorklistIsSubtree(t, id, queue);
      return queue, false;
    }

    /** Removes a block and everything built on it, unless that would remove the head. */
    method Remove(id: BlockId) returns (r: Result<(), ForkError>)
      requires Linked(State()) && validated <= index.Keys
      modifies this
      ensures Follows(T.Remove(old(State()), id), old(State()), State(), r)
      ensures root == old(root) && head == old(head)
      ensures r == if Descends(old(State()), head.id, id) then Err(WouldRemoveHead) else Ok(())
      ensures r.Ok? ==> RemovedUnder(old(State()), State(), id)
    {
      hide Descends, Subtree, Restrict, Linked, RemovedUnder;
      var queue, hitHead := CollectSubtree(id);
      if hitHead { return Err(WouldRemoveHead); }
      assert index.Keys - Ids(queue) == index.Keys - Subtree(State(), id);
      RemoveIs(State(), id);
      Erase(queue);
      return Ok(());
    }

    /** The parents of a block, ending with the root. */
    method Ancestors(id: BlockId) returns (r: Result<seq<BlockId>, ForkError>)
      requires WellFormed(State()) && id in index
      ensures r.Ok? && |r.value| == |Chain(State(), id)|
      ensures forall j | 0 <= j < |r.value| :: r.value[j] == Chain(State(), id)[j].prev
    {
      ghost var t := State();
      ghost var c := Chain(t, id);
      var ids: seq<BlockId> := [];
      var b := index[id];
      while true
        invariant |ids| < |c| && b.id in index && b == index[b.id] && c[|ids|..] == Chain(t, b.id)
        invariant forall j | 0 <= j < |ids| :: ids[j] == c[j].prev
        decreases b.num
      {
        assert c[|ids|] == b;
        assert c[|ids| + 1..] == Chain(t, b.id)[1..] == Chain(t, b.prev);
        ids := ids + [b.prev];
        if b.prev in index {
          b := index[b.prev];
        } else if b.prev == root.id {
          return Ok(ids);
        } else {
          return Err(OrphanedBranch);
        }
      }
    }

    /**
     Makes a validated block the root, leaving precisely its strict descendants. When the head lies
     outside its subtree the removal stops half way: the block itself is already gone.
     */
    method AdvanceRoot(id: BlockId) returns (r: Result<(), ForkError>)
      requires Inv(State())
      modifies this
      ensures id !in old(index) || id !in old(validated) || Descends(old(State()), old(head).id, id) ==>
        Follows(T.AdvanceRoot(old(State()), id), old(State()), State(), r) && Inv(State())
      ensures T.AdvanceRoot(old(State()), id) == Err(WouldRemoveHead) ==>
        r == Err(WouldRemoveHead) && State() == HalfAdvanced(old(State()), id)
      ensures State() == Perform(old(State()), OpAdvanceRoot(id))
      ensures r.Ok? <==> id in old(index) && id in old(validated) && Descends(old(State()), old(head).id, id)
      ensures r.Ok? ==> root == old(index)[id] && head == old(head)
      ensures r.Ok? ==> KeptAbove(old(State()), State(), id)
    {
      hide Descends, Subtree, Keep, Chain, StopAt;
      ghost var t := State();
      AdvanceRootKeepsInv(t, id);
      if T.AdvanceRoot(t, id).Ok? { AdvanceRootIs(t, id); }
      hide KeptAbove, RemovedUnder;
      if id !in index { return Err(NotInDatabase); }
      if id !in validated { return Err(NotValidated); }
      var newRoot := index[id];
      var ancestors := Ancestors(id);
      var ids := ancestors.value;
      Erase([id]);
      ghost var low := id;
      KeepAtStart(t, id);
      hide WellFormed, HeadOk;
      for k := 0 to |ids|
        invariant State() == Restrict(t, Keep(t, id, low)) && Descends(t, id, low)
        invariant low == (if k == 0 then id else ids[k - 1])
        invariant Descends(t, t.head.id, id) || !Descends(t, t.head.id, low)
        invariant Descends(t, t.head.id, id) || StopsLike(t, id, low)
      {
        AncestorStep(t, id, low, ids, k);
        PruneStep(t, id, low);
        if !Descends(t, t.head.id, id) { StopStep(t, id, low); }
        r := Remove(ids[k]);
        if r.Err? { return; }
        low := ids[k];
      }
      ReachedRoot(t, id, low, ids);
      root := newRoot;
      return Ok(());
    }

    /** The best block overall: the best unvalidated one if it is preferred over the head. */
    method GetPendingHead() returns (b: Block)
      requires WellFormed(State())
      ensures b == PendingHead(State())
    {
      hide First;
      var rest := map id | id in index && id !in validated :: index[id];
      if rest != map[] {
        var candidate := Begin(rest);
        if FirstPreferred(candidate, head) { return candidate; }
      }
      return head;
    }

    /** The branch of `h` above the root, newest first, without the blocks numbered above `trim`. */
    method FetchBranch(h: BlockId, trim: nat) returns (result: seq<Block>)
      requires WellFormed(State())
      ensures result == (if h in index then UpTo(Chain(State(), h), trim) else [])
    {
      result := [];
      if h !in index { return; }
      ghost var t := State();
      ghost var c := Chain(t, h);
      ghost var n := 0;
      var s := index[h];
      while true
        invariant n < |c| && s.id in index && s == index[s.id] && c[n..] == Chain(t, s.id)
        invariant result == UpTo(c[..n], trim)
        decreases s.num
      {
        assert c[n] == s && c[n + 1..] == Chain(t, s.id)[1..] == Chain(t, s.prev);
        assert c[..n + 1][..n] == c[..n];
        if s.num <= trim { result := result + [s]; }
        n := n + 1;
        if s.prev !in index { break; }
        s := index[s.prev];
      }
      assert c[..n] == c;
    }

    /** Walks down from `a` until the block number reaches `num`. */
    method Descend(a: BlockId, from: Block, num: nat) returns (r: Result<(seq<Block>, Block), ForkError>)
      requires WellFormed(State()) && Known(State(), a) && from == Get(State(), a) && root.num <= num
      ensures r.Ok? && Walked(State(), a, r.value.0, r.value.1)
      ensures r.value.1.num == (if num < from.num then num else from.num)
    {
      hide Chain, WellFormed;
      ghost var t := State();
      var p: seq<Block> := [];
      var at := from;
      WalkStarts(t, a);
      while at.num > num
        invariant Walked(t, a, p, at)
        invariant at.num >= (if num < from.num then num else from.num) && at.num <= from.num
        decreases at.num
      {
        WalkNumbers(t, a, p, at);
        WalkStep(t, a, p, at);
        WalkNumbers(t, a, p + [at], Get(t, at.prev));
        p := p + [at];
        var prev := at.prev;
        if prev == root.id {
          at := root;
        } else if prev in index {
          at := index[prev];
        } else {
          return Err(BlockNotFound);
        }
      }
      return Ok((p, at));
    }

    /** The two branches from `first` and `second` to just above their lowest common ancestor. */
    method FetchBranchFrom(first: BlockId, second: BlockId) returns (r: Result<(seq<Block>, seq<Block>), ForkError>)
      requires WellFormed(State())
      ensures r.Ok? <==> Known(State(), first) && Known(State(), second)
      ensures r.Ok? ==> Forks(State(), first, second, r.value.0, r.value.1)
      ensures r.Err? ==> r.error == BlockNotFound
    {
      hide Chain, WellFormed;
      ghost var t := State();
      if first != root.id && first !in index { return Err(BlockNotFound); }
      if second != root.id && second !in index { return Err(BlockNotFound); }
      var firstBlock := if first == root.id then root else index[first];
      var secondBlock := if second == root.id then root else index[second];
      WalkStarts(t, first);
      WalkStarts(t, second);
      WalkNumbers(t, first, [], firstBlock);
      WalkNumbers(t, second, [], secondBlock);
      var r1 := Descend(first, firstBlock, secondBlock.num);
      var p, fb := r1.value.0, r1.value.1;
      WalkNumbers(t, first, p, fb);
      var r2 := Descend(second, secondBlock, fb.num);
      var q, sb := r2.value.0, r2.value.1;
      WalkNumbers(t, second, q, sb);
      assert p == [] || q == [];
      if fb.id == sb.id {
        WalksMeet(t, first, second, p, q, fb.id);
        return Ok((p, q));
      }
      p, q, fb, sb := MatchLevels(first, second, p, q, fb, sb);
      WalkStep(t, first, p, fb);
      WalkStep(t, second, q, sb);
      WalksMeet(t, first, second, p + [fb], q + [sb], fb.prev);
      return Ok((p + [fb], q + [sb]));
    }

    /** The third loop: both walks go down together until they share a parent. */
    method MatchLevels(first: BlockId, second: BlockId, p0: seq<Block>, q0: seq<Block>, fb0: Block, sb0: Block)
      returns (p: seq<Block>, q: seq<Block>, fb: Block, sb: Block)
      requires WellFormed(State()) && Known(State(), first) && Known(State(), second)
      requires Walked(State(), first, p0, fb0) && Walked(State(), second, q0, sb0)
      requires fb0.num == sb0.num && fb0.id != sb0.id && (p0 == [] || q0 == [])
      ensures Walked(State(), first, p, fb) && Walked(State(), second, q, sb)
      ensures fb.id != root.id && sb.id != root.id && fb.prev == sb.prev
      ensures Disjoint(p + [fb], q + [sb])
    {
      hide Chain, WellFormed;
      ghost var t := State();
      p, q, fb, sb := p0, q0, fb0, sb0;
      WalkNumbers(t, first, p, fb);
      WalkNumbers(t, second, q, sb);
      while fb.prev != sb.prev
        invariant Walked(t, first, p, fb) && Walked(t, second, q, sb)
        invariant fb.num == sb.num && fb.id != sb.id && fb.id != root.id && sb.id != root.id
        invariant Disjoint(p, q)
        decreases fb.num
      {
        LevelStep(t, first, second, p, q, fb, sb);
        p, q := p + [fb], q + [sb];
        fb, sb := index[fb.prev], index[sb.prev];
      }
      WalkNumbers(t, first, p, fb);
      WalkNumbers(t, second, q, sb);
    }
  }
}
