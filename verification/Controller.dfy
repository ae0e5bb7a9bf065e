/** The controller's steps over the fork database: popping blocks, switching forks, logging irreversible blocks. */
module Controller {
  import opened Results
  import T = ForkTree
  import opened ForkTree
  import opened ForkDatabase
  import opened NodeState

  datatype ControllerError =
    | Database(error: ForkError)
    | PopBeyondIrreversible
    | LossOfSync
    | BlockRejected
    | ReadPastEnd
    | RootMismatch
    | AppendPosition

  /** The log ends with the root of the fork tree. */
  predicate Logged(firstBlockNum: nat, log: seq<Block>, root: Block)
  {
    firstBlockNum + |log| == root.num + 1 && (log != [] ==> log[|log| - 1] == root)
  }

  predicate SameLinks(t: Tree, t': Tree)
  {
    t.root == t'.root && t.blocks == t'.blocks
  }

  /** The fork head stays or moves to a stored block; it stays when no block was newly validated. */
  predicate HeadMoved(t: Tree, t': Tree)
  {
    (t'.head == t.head || t'.head.id in t'.blocks) && (t'.valid == t.valid ==> t'.head == t.head)
  }

  // ---- Walking a branch upwards ----

  lemma WalkFrom(t: Tree, a: BlockId, p: seq<Block>, at: Block)
    requires WellFormed(t) && Known(t, a) && p != []
    ensures Walked(t, a, p, at) <==>
      a != t.root.id && p[0] == t.blocks[a] && Walked(t, t.blocks[a].prev, p[1..], at)
  {
    if a != t.root.id && Known(t, at.id) {
      var d, e := Chain(t, at.id), Chain(t, t.blocks[a].prev);
      assert Chain(t, a) == [t.blocks[a]] + e;
      hide Chain;
      assert p + d == [p[0]] + (p[1..] + d);
      assert ([p[0]] + (p[1..] + d))[1..] == p[1..] + d;
      assert ([t.blocks[a]] + e)[1..] == e;
    }
  }

  /** The last block of a walk is a child of the block the walk stands at. */
  lemma {:induction false} WalkBack(t: Tree, a: BlockId, p: seq<Block>, at: Block)
    requires WellFormed(t) && Known(t, a) && Walked(t, a, p, at) && p != []
    ensures var b := p[|p| - 1];
      && b.id in t.blocks && t.blocks[b.id] == b && b.prev == at.id
      && Walked(t, a, p[..|p| - 1], b)
    decreases |p|
  {
    hide Chain;
    WalkFrom(t, a, p, at);
    var prev := t.blocks[a].prev;
    if |p| == 1 {
      SameChain(t, prev, at.id) by { assert Walked(t, prev, [], at); }
    } else {
      var k := |p| - 1;
      WalkBack(t, prev, p[1..], at);
      assert p[1..][..k - 1] == p[..k][1..];
      WalkFrom(t, a, p[..k], p[k]);
    }
  }

  lemma SameChain(t: Tree, a: BlockId, b: BlockId)
    requires WellFormed(t) && Known(t, a) && Known(t, b) && Chain(t, a) == Chain(t, b)
    ensures a == b
  {
  }

  /** A block stays on the way of every walk through it. */
  lemma WalkDescends(t: Tree, a: BlockId, p: seq<Block>, at: Block)
    requires WellFormed(t) && Known(t, a) && Walked(t, a, p, at)
    ensures Descends(t, a, at.id)
    decreases |p|
  {
    if p == [] {
      SameChain(t, a, at.id);
    } else {
      WalkBack(t, a, p, at);
      WalkDescends(t, a, p[..|p| - 1], p[|p| - 1]);
      DescendsTransitive(t, a, p[|p| - 1].id, at.id);
    }
  }

  lemma {:induction false} AcceptedAncestors<S>(apply: (S, Block) -> Option<S>, base: S, t: Tree, a: BlockId,
                                                x: BlockId)
    requires WellFormed(t) && Known(t, a) && Descends(t, a, x) && Replay(apply, base, t, a).Some?
    ensures Known(t, x) && Replay(apply, base, t, x).Some?
    decreases a.num
  {
    if a != x { AcceptedAncestors(apply, base, t, t.blocks[a].prev, x); }
  }

  /** The lowest block on the way to `id` that is rejected. */
  ghost function Rejected<S>(apply: (S, Block) -> Option<S>, base: S, t: Tree, id: BlockId): (bad: BlockId)
    requires WellFormed(t) && Known(t, id) && Replay(apply, base, t, id).None?
    ensures bad in t.blocks && Replay(apply, base, t, bad).None? && Replay(apply, base, t, t.blocks[bad].prev).Some?
    ensures Descends(t, id, bad)
    decreases id.num
  {
    if Replay(apply, base, t, t.blocks[id].prev).None? then Rejected(apply, base, t, t.blocks[id].prev) else id
  }

  lemma {:induction false} RejectedIs<S>(apply: (S, Block) -> Option<S>, base: S, t: Tree, id: BlockId, bad: BlockId)
    requires WellFormed(t) && Known(t, id) && bad in t.blocks && Descends(t, id, bad)
    requires Replay(apply, base, t, bad).None? && Replay(apply, base, t, t.blocks[bad].prev).Some?
    ensures Replay(apply, base, t, id).None? && Rejected(apply, base, t, id) == bad
    decreases id.num
  {
    if id != bad { RejectedIs(apply, base, t, t.blocks[id].prev, bad); }
  }

  /** The stored blocks outside the subtree of `bad`. */
  function Without(t: Tree, bad: BlockId): map<BlockId, Block>
    requires WellFormed(t)
  {
    map x | x in t.blocks && !Descends(t, x, bad) :: t.blocks[x]
  }

  /** The head has moved to `newHead` and its branch has been applied and validated. */
  ghost predicate Switched<S>(apply: (S, Block) -> Option<S>, base: S, t: Tree, newHead: Block,
                              t': Tree, head: Block, state: S)
    requires WellFormed(t) && Known(t, newHead.id)
  {
    && head == newHead && Replay(apply, base, t, newHead.id) == Some(state)
    && SameLinks(t, t') && t'.valid == t.valid + BlockIds(Chain(t, newHead.id)) && HeadMoved(t, t')
  }

  /**
   Only the first rejected block on the way to `newHead` and its descendants are gone; the blocks below it have been
   applied and validated.
   */
  ghost predicate Refused<S>(apply: (S, Block) -> Option<S>, base: S, t: Tree, newHead: Block, t': Tree)
    requires WellFormed(t) && Known(t, newHead.id)
  {
    && Replay(apply, base, t, newHead.id).None?
    && var bad := Rejected(apply, base, t, newHead.id);
    && t'.root == t.root && t'.blocks == Without(t, bad)
    && t'.valid == t.valid + BlockIds(Chain(t, t.blocks[bad].prev))
    && (t'.head == t.head || t'.head.id in t'.blocks)
  }

  /** The log grows by the head's branch from just above the root up to the block numbered LIB. */
  ghost predicate LogsTo(t: Tree, head: Block, log: seq<Block>, log': seq<Block>)
    requires WellFormed(t) && Known(t, head.id)
  {
    log' == log + if head.lib <= t.root.num then [] else Oldest(UpTo(Chain(t, head.id), head.lib))
  }

  /** The new head lies two or more blocks up from the head on the head's own branch. */
  ghost predicate SkipsChild(t: Tree, head: Block, newHead: Block)
    requires Linked(t)
  {
    Descends(t, newHead.id, head.id) && head.num + 2 <= newHead.num
  }

  /**
   The node went for the best block of `t`: it is the head now and what it makes irreversible is logged, or the first
   rejected block of its branch is gone.
   */
  ghost predicate Followed<S>(apply: (S, Block) -> Option<S>, base: S, t: Tree, oldHead: Block, oldLog: seq<Block>,
                              t': Tree, head: Block, log: seq<Block>, r: Result<(), ControllerError>)
  {
    && WellFormed(t)
    && var best := PendingHead(t);
    && Known(t, best.id)
    && (r.Ok? <==> Replay(apply, base, t, best.id).Some?)
    && (r.Ok? ==> head == t'.head == best && LogsTo(t, best, oldLog, log))
    && (r.Err? ==> Refused(apply, base, t, best, t'))
    && (r.Err? ==> r.error == if SkipsChild(t, oldHead, best) then ReadPastEnd else BlockRejected)
  }

  /** All that a node holds. */
  datatype Snapshot<S> = Snapshot(base: S, tree: Tree, head: Block, state: S, undo: seq<S>, log: seq<Block>)

  /** The database refuses block `b` and nothing changes, or the node, with the block stored, goes for the best one. */
  ghost predicate Received<S>(apply: (S, Block) -> Option<S>, s: Snapshot<S>, b: Block, s': Snapshot<S>,
                              r: Result<(), ControllerError>)
  {
    && WellFormed(s.tree)
    && var added := T.Add(s.tree, b, false, false);
    && (r.Err? ==> s'.head == s.head && s'.state == s.state && s'.undo == s.undo && s'.log == s.log)
    && if added.Err? then r == Err(Database(added.error)) && s'.tree == s.tree
       else Followed(apply, s.base, added.value, s.head, s.log, s'.tree, s'.head, s'.log, r)
  }

  /** Each block is received in the state that the one before left. */
  ghost predicate ReceivedAll<S>(apply: (S, Block) -> Option<S>, ss: seq<Snapshot<S>>, bs: seq<Block>,
                                 rs: seq<Result<(), ControllerError>>)
  {
    |ss| == |rs| + 1 && |rs| <= |bs| && forall i | 0 <= i < |rs| :: Received(apply, ss[i], bs[i], ss[i + 1], rs[i])
  }

  lemma ReceivedNone<S>(apply: (S, Block) -> Option<S>, s: Snapshot<S>, bs: seq<Block>)
    ensures ReceivedAll(apply, [s], bs, [])
  {
  }

  lemma ReceivedNext<S>(apply: (S, Block) -> Option<S>, ss: seq<Snapshot<S>>, bs: seq<Block>,
                        rs: seq<Result<(), ControllerError>>, s: Snapshot<S>, r: Result<(), ControllerError>)
    requires ReceivedAll(apply, ss, bs, rs) && |rs| < |bs| && Received(apply, ss[|rs|], bs[|rs|], s, r)
    ensures ReceivedAll(apply, ss + [s], bs, rs + [r])
  {
    hide Received;
  }

  lemma SkipsChildIs(t: Tree, head: Block, newHead: Block)
    requires WellFormed(t) && Known(t, head.id) && Get(t, head.id) == head
    requires Known(t, newHead.id) && Get(t, newHead.id) == newHead
    ensures SkipsChild(t, head, newHead) <==>
      Descends(t, newHead.id, head.id) && newHead.prev != head.id && newHead.id != head.id
  {
    if Descends(t, newHead.id, head.id) && newHead.id != head.id {
      DescendsNumber(t, newHead.prev, head.id);
    }
  }

  class Controller<S> {
    /** Deterministic application of a block's transactions, which may fail. */
    const apply: (S, Block) -> Option<S>
    const forkDb: ForkDatabase
    const firstBlockNum: nat
    ghost var base: S
    var head: Block
    var state: S
    var undo: seq<S>
    var log: seq<Block>

    ghost predicate InStep()
      reads this, forkDb
    {
      NodeOk(apply, base, forkDb.State(), head, state, undo)
    }

    /** Everything the head makes irreversible has been logged. */
    ghost predicate Ready()
      reads this, forkDb
    {
      InStep() && Logged(firstBlockNum, log, forkDb.root) && head.lib <= forkDb.root.num
    }

    /** Starts from a database at the root of a fresh fork tree and a log that ends with the root. */
    constructor (apply: (S, Block) -> Option<S>, root: Block, state: S, log: seq<Block>, firstBlockNum: nat)
      requires BlockOk(root) && root.lib <= root.num && Logged(firstBlockNum, log, root)
      ensures Ready() && fresh(forkDb) && this.apply == apply && this.firstBlockNum == firstBlockNum
      ensures Now() == Snapshot(state, T.Reset(root), root, state, [], log)
    {
      this.apply, this.firstBlockNum, this.log := apply, firstBlockNum, log;
      this.head, this.state, this.undo, this.base := root, state, [], state;
      forkDb := new ForkDatabase(root);
    }

    method PopBlock() returns (r: Result<(), ControllerError>)
      requires WellFormed(forkDb.State())
      requires Synced(apply, base, forkDb.State(), head, state, undo)
      modifies this`head, this`state, this`undo
      ensures r.Ok? <==> Known(forkDb.State(), old(head).prev)
      ensures r.Err? ==> head == old(head) && state == old(state) && undo == old(undo)
      ensures old(head).id != forkDb.root.id ==>
        && r.Ok? && head == Get(forkDb.State(), old(head).prev)
        && Synced(apply, base, forkDb.State(), head, state, undo)
    {
      PopMaybe(apply, base, forkDb.State(), head, state, undo);
      if head.prev !in forkDb.index && head.prev != forkDb.root.id { return Err(PopBeyondIrreversible); }
      head := if head.prev in forkDb.index then forkDb.index[head.prev] else forkDb.root;
      if |undo| > 0 {
        state, undo := undo[|undo| - 1], undo[..|undo| - 1];
      }
      return Ok(());
    }

    /** Applies a block inside a new undo session; a failure leaves the database as it was. */
    method ApplyBlock(b: Block) returns (ok: bool)
      modifies this`state, this`undo
      ensures ok <==> apply(old(state), b).Some?
      ensures ok ==> state == apply(old(state), b).value && undo == old(undo) + [old(state)]
      ensures !ok ==> state == old(state) && undo == old(undo)
    {
      var next := apply(state, b);
      if next.None? { return false; }
      state, undo := next.value, undo + [state];
      return true;
    }

    /** Pops the blocks of `q`, the newest part of the head's branch. */
    method PopBranch(q: seq<Block>, ghost at: Block) returns (r: Result<(), ControllerError>)
      requires InStep() && Walked(forkDb.State(), head.id, q, at)
      modifies this`head, this`state, this`undo
      ensures r.Ok? && head == at && InStep()
    {
      hide Chain, WellFormed, Synced, TreeOk, HeadValid, Walked;
      ghost var t, top := forkDb.State(), head.id;
      NodeWellFormed(apply, base, t, head, state, undo);
      AncestorInStep(apply, base, t, head, state, undo, q, at);
      WalkStarts(t, top);
      for i := 0 to |q|
        invariant Synced(apply, base, t, head, state, undo) && Walked(t, top, q[..i], head)
      {
        WalkOn(t, top, q, i, head, at);
        r := PopBlock();
        if r.Err? { return; }
      }
      assert q[..|q|] == q;
      WalkEnd(t, top, q, head, at);
      return Ok(());
    }

    /** Re-applies the blocks of `q`, which lead from `top` down to the head, oldest first. */
    method ReapplyBranch(q: seq<Block>, top: Block) returns (r: Result<(), ControllerError>)
      requires InStep() && HeadValid(forkDb.State(), top) && Walked(forkDb.State(), top.id, q, head)
      modifies this`head, this`state, this`undo
      ensures r.Ok? && head == top && InStep()
    {
      hide Chain, WellFormed, Synced, Replay, Walked, TreeOk;
      ghost var t := forkDb.State();
      NodeWellFormed(apply, base, t, head, state, undo);
      HeadReplays(apply, base, t, top);
      var i := |q|;
      assert q[..i] == q;
      while i > 0
        invariant 0 <= i <= |q|
        invariant Synced(apply, base, t, head, state, undo) && Walked(t, top.id, q[..i], head)
      {
        WalkBack(t, top.id, q[..i], head);
        var b := q[i - 1];
        assert q[..i][..i - 1] == q[..i - 1];
        WalkDescends(t, top.id, q[..i - 1], b);
        AcceptedAncestors(apply, base, t, top.id, b.id);
        ApplySynced(apply, base, t, head, state, undo, b);
        var ok := ApplyBlock(b);
        if !ok { return Err(BlockRejected); }
        head := b;
        i := i - 1;
      }
      WalkEnd(t, top.id, [], head, top) by { WalkStarts(t, top.id); }
      return Ok(());
    }

    /** Applies a child of the head; if it is accepted, marks it valid and moves the head to it. */
    method ApplyAndMark(b: Block) returns (ok: bool)
      requires InStep() && b.id in forkDb.index && forkDb.index[b.id] == b && b.prev == head.id
      modifies this`head, this`state, this`undo, forkDb
      ensures InStep() && SameLinks(old(forkDb.State()), forkDb.State())
      ensures ok <==> apply(old(state), b).Some?
      ensures ok ==>
        head == b && state == apply(old(state), b).value && forkDb.validated == old(forkDb.validated) + {b.id}
      ensures HeadMoved(old(forkDb.State()), forkDb.State())
      ensures !ok ==>
        head == old(head) && state == old(state) && undo == old(undo) && forkDb.State() == old(forkDb.State())
    {
      hide NodeOk, Inv, T.MarkValid;
      NodeWellFormed(apply, base, forkDb.State(), head, state, undo);
      ghost var before := state;
      ok := ApplyBlock(b);
      if ok {
        AcceptChild(apply, base, forkDb.State(), head, before, undo[..|undo| - 1], b) by {
          assert undo[..|undo| - 1] == old(undo);
        }
        var r := forkDb.MarkValid(b.id);
        head := b;
      }
    }

    /** Applies and marks valid the blocks of `p`, oldest first; stops at the first one that is rejected. */
    method ApplyBranch(p: seq<Block>, ghost newHead: Block) returns (left: nat)
      requires InStep() && Known(forkDb.State(), newHead.id) && Walked(forkDb.State(), newHead.id, p, head)
      modifies this`head, this`state, this`undo, forkDb
      ensures InStep() && SameLinks(old(forkDb.State()), forkDb.State())
      ensures left <= |p| && Walked(forkDb.State(), newHead.id, p[..left], head)
      ensures left > 0 ==> apply(state, p[left - 1]).None?
      ensures forkDb.validated == old(forkDb.validated) + BlockIds(p[left..])
      ensures HeadMoved(old(forkDb.State()), forkDb.State())
    {
      hide Chain, NodeOk, Walked, Inv, WellFormed;
      NodeWellFormed(apply, base, forkDb.State(), head, state, undo);
      left := |p|;
      assert p[..left] == p && BlockIds(p[left..]) == {};
      while left > 0
        invariant left <= |p| && InStep() && SameLinks(old(forkDb.State()), forkDb.State())
        invariant WellFormed(forkDb.State()) && Known(forkDb.State(), newHead.id)
        invariant Walked(forkDb.State(), newHead.id, p[..left], head)
        invariant forkDb.validated == old(forkDb.validated) + BlockIds(p[left..])
        invariant HeadMoved(old(forkDb.State()), forkDb.State())
      {
        ghost var t := forkDb.State();
        WalkBack(t, newHead.id, p[..left], head);
        var b := p[left - 1];
        assert p[..left][..left - 1] == p[..left - 1] && p[left - 1..] == [b] + p[left..];
        var ok := ApplyAndMark(b);
        if !ok { return; }
        NodeWellFormed(apply, base, forkDb.State(), head, state, undo);
        WalkedFrame(t, forkDb.State(), newHead.id, p[..left - 1], b);
        left := left - 1;
      }
    }

    /** The new head is a child of the current one. */
    method PushChild(newHead: Block) returns (r: Result<(), ControllerError>)
      requires InStep() && newHead.id in forkDb.index && forkDb.index[newHead.id] == newHead && newHead.prev == head.id
      modifies this`head, this`state, this`undo, forkDb
      ensures InStep()
      ensures r.Ok? ==> Switched(apply, base, old(forkDb.State()), newHead, forkDb.State(), head, state)
      ensures r.Err? ==> Refused(apply, base, old(forkDb.State()), newHead, forkDb.State())
      ensures r.Err? ==> head == old(head) && state == old(state) && undo == old(undo)
      ensures r.Err? ==> r.error == BlockRejected
    {
      hide Chain, NodeOk, Inv, T.Remove, Refused;
      ghost var t := forkDb.State();
      AcceptedChild(apply, base, t, head, state, undo, newHead);
      var ok := ApplyAndMark(newHead);
      if ok { return Ok(()); }
      RejectChild(apply, base, t, head, state, undo, newHead);
      RejectedChild(apply, base, t, head, state, undo, newHead);
      NodeLinked(apply, base, t, head, state, undo);
      var removed := forkDb.Remove(newHead.id);
      return Err(BlockRejected);
    }

    /** Finds where the branches of the head and of `newHead` part and pops the head's branch down to there. */
    method Unwind(newHead: Block) returns (r: Result<(seq<Block>, seq<Block>), ControllerError>, ghost at: Block)
      requires InStep() && Known(forkDb.State(), newHead.id)
      modifies this`head, this`state, this`undo
      ensures r.Ok? && InStep() && head == at && Known(forkDb.State(), old(head).id)
      ensures Walked(forkDb.State(), newHead.id, r.value.0, at) && Walked(forkDb.State(), old(head).id, r.value.1, at)
      ensures r.value.1 == [] <==> Descends(forkDb.State(), newHead.id, old(head).id)
    {
      hide NodeOk, Chain, Inv, Walked, Forks, WellFormed;
      ghost var t := forkDb.State();
      NodeWellFormed(apply, base, t, head, state, undo);
      var branches := forkDb.FetchBranchFrom(newHead.id, head.id);
      var p, q := branches.value.0, branches.value.1;
      at := ForkPoint(t, newHead.id, head.id, p, q);
      NothingToPop(t, newHead.id, head.id, p, q);
      if q != [] { WalkBack(t, head.id, q, at); }
      var popped := PopBranch(q, at);
      if popped.Err? { return Err(PopBeyondIrreversible), at; }
      if q != [] && head.id != q[|q| - 1].prev { return Err(LossOfSync), at; }
      return Ok((p, q)), at;
    }

    /**
     The new head lies on another branch, or further up the head's own. In the latter case, with nothing to pop, the
     reversal of a failed switch reads the last block of an empty branch: what is stated then is the state at that read.
     */
    method SwitchForks(newHead: Block) returns (r: Result<(), ControllerError>)
      requires InStep() && Known(forkDb.State(), newHead.id) && Get(forkDb.State(), newHead.id) == newHead
      modifies this`head, this`state, this`undo, forkDb
      ensures InStep()
      ensures r.Ok? ==> Switched(apply, base, old(forkDb.State()), newHead, forkDb.State(), head, state)
      ensures r.Err? ==> Refused(apply, base, old(forkDb.State()), newHead, forkDb.State())
      ensures r.Err? ==> head == old(head) && state == old(state) && undo == old(undo)
      ensures r.Err? ==>
        r.error == if Descends(old(forkDb.State()), newHead.id, old(head).id) then ReadPastEnd else BlockRejected
    {
      hide NodeOk, Chain, Inv, Walked, Switched, Refused, WellFormed, BlockIds, Replay, Descends, Known, Get;
      hide SameLinks, HeadMoved;
      ghost var t := forkDb.State();
      var oldHead := head;
      var unwound, at := Unwind(newHead);
      var p, q := unwound.value.0, unwound.value.1;
      ghost var atState, atUndo := state, undo;
      var left := ApplyBranch(p, newHead);
      if left == 0 {
        assert p[0..] == p && p[..0] == [];
        BranchApplied(apply, base, t, newHead, p, at, atState, atUndo, forkDb.State(), head, state, undo);
        r := Ok(());
      } else {
        r := RevertSwitch(newHead, oldHead, p, q, left, t, at, old(state), old(undo));
      }
    }

    /** Drops the rejected block, pops what was applied of the new branch and re-applies the old one. */
    method RevertSwitch(ghost newHead: Block, oldHead: Block, p: seq<Block>, q: seq<Block>, left: nat,
                        ghost t: Tree, ghost at: Block, ghost oldState: S, ghost oldUndo: seq<S>)
      returns (r: Result<(), ControllerError>)
      requires InStep() && NodeOk(apply, base, t, oldHead, oldState, oldUndo) && SameLinks(t, forkDb.State())
      requires 0 < left <= |p| && forkDb.validated == t.valid + BlockIds(p[left..])
      requires HeadMoved(t, forkDb.State())
      requires Known(t, newHead.id) && Get(t, newHead.id) == newHead
      requires Walked(t, newHead.id, p, at) && Walked(t, oldHead.id, q, at)
      requires Walked(forkDb.State(), newHead.id, p[..left], head)
      requires apply(state, p[left - 1]).None?
      modifies this`head, this`state, this`undo, forkDb
      ensures InStep() && r == Err(if q == [] then ReadPastEnd else BlockRejected)
      ensures Refused(apply, base, t, newHead, forkDb.State())
      ensures head == oldHead && state == oldState && undo == oldUndo
    {
      hide NodeOk, Chain, HeadValid, Walked, T.Remove, Refused, Inv, WellFormed, Linked;
      var bad := p[left - 1];
      BranchRejected(apply, base, t, oldHead, oldState, oldUndo, newHead, p, at,
                     forkDb.State(), head, state, undo, left - 1, q);
      assert Linked(forkDb.State()) && forkDb.validated <= forkDb.index.Keys by {
        NodeLinked(apply, base, forkDb.State(), head, state, undo);
      }
      var removed := forkDb.Remove(bad.id);
      ghost var t2 := forkDb.State();
      NodeWellFormed(apply, base, t, oldHead, oldState, oldUndo);
      if q != [] { WalkBack(t, oldHead.id, q, at); }
      r := PopBranch(p[left..], at);
      if r.Err? { return; }
      if q == [] {
        WalkEnd(t, oldHead.id, q, oldHead, at) by { WalkStarts(t, oldHead.id); }
        BackInStep(apply, base, t, t2, oldHead, oldState, oldUndo, state, undo);
        return Err(ReadPastEnd);
      }
      if head.id != q[|q| - 1].prev { return Err(LossOfSync); }
      r := ReapplyBranch(q, oldHead);
      if r.Err? { return; }
      BackInStep(apply, base, t, t2, oldHead, oldState, oldUndo, state, undo);
      return Err(BlockRejected);
    }

    /** Moves the head to `newHead`, or leaves head and state alone and drops the rejected block's subtree. */
    method SwitchTo(newHead: Block) returns (r: Result<(), ControllerError>)
      requires InStep() && Known(forkDb.State(), newHead.id) && Get(forkDb.State(), newHead.id) == newHead
      modifies this`head, this`state, this`undo, forkDb
      ensures InStep() && forkDb.root == old(forkDb.root)
      ensures r.Ok? <==> Replay(apply, base, old(forkDb.State()), newHead.id).Some?
      ensures r.Ok? ==>
        head == newHead && Switched(apply, base, old(forkDb.State()), newHead, forkDb.State(), head, state)
      ensures r.Err? ==> Refused(apply, base, old(forkDb.State()), newHead, forkDb.State())
      ensures r.Err? ==> head == old(head) && state == old(state) && undo == old(undo)
      ensures r.Err? ==>
        r.error == if SkipsChild(old(forkDb.State()), old(head), newHead) then ReadPastEnd else BlockRejected
    {
      hide Chain;
      ghost var t := forkDb.State();
      assert newHead.prev == head.id ==> newHead.id in forkDb.index by {
        ChainNumbers(t, head.id);
      }
      SkipsChildIs(t, head, newHead);
      if newHead.prev == head.id {
        r := PushChild(newHead);
      } else if newHead.id != head.id {
        r := SwitchForks(newHead);
      } else {
        ValidChain(t, head);
        return Ok(());
      }
    }

    /** `block_log::append`, with its check that the block comes next. */
    method Append(b: Block) returns (ok: bool)
      modifies this`log
      ensures ok <==> b.num == firstBlockNum + |old(log)|
      ensures log == if ok then old(log) + [b] else old(log)
    {
      if |log| != b.num - firstBlockNum { return false; }
      log := log + [b];
      return true;
    }

    /** Appends every block that the head makes irreversible and moves the root to the last of them. */
    method LogIrreversible() returns (r: Result<(), ControllerError>)
      requires InStep() && Logged(firstBlockNum, log, forkDb.root) && forkDb.head == head
      modifies this`log, this`undo, this`base, forkDb
      ensures r.Ok? && Ready() && forkDb.head == head && LogsTo(old(forkDb.State()), head, old(log), log)
      ensures head.lib <= old(forkDb.root).num ==> forkDb.State() == old(forkDb.State())
      ensures head.lib > old(forkDb.root).num ==> forkDb.root.num == head.lib
    {
      var libNum := if log != [] then log[|log| - 1].num else firstBlockNum - 1;
      if log != [] {
        if log[|log| - 1].id != forkDb.root.id { return Err(RootMismatch); }
      } else if forkDb.root.num != libNum {
        return Err(RootMismatch);
      }
      if head.lib <= libNum { return Ok(()); }
      hide Chain, NodeOk, UpTo, Oldest;
      r := LogBranch();
    }

    method LogBranch() returns (r: Result<(), ControllerError>)
      requires InStep() && Logged(firstBlockNum, log, forkDb.root) && forkDb.head == head && head.lib > forkDb.root.num
      modifies this`log, this`undo, this`base, forkDb
      ensures r.Ok? && Ready() && forkDb.head == head && forkDb.root.num == head.lib
      ensures log == old(log) + Oldest(UpTo(Chain(old(forkDb.State()), head.id), head.lib))
    {
      hide Chain, NodeOk, Inv, WellFormed, UpTo, Descends, Replay;
      ghost var t, stack := forkDb.State(), undo;
      NodeWellFormed(apply, base, t, head, state, undo);
      HeadLibBelow(apply, base, t, head, state, undo);
      NodeSynced(apply, base, t, head, state, undo);
      var branch := forkDb.FetchBranch(head.id, head.lib);
      IrreversiblePart(t, head, branch);
      hide T.AdvanceRoot, Known, Get;
      var ok := AppendBranch(branch);
      if !ok { return Err(AppendPosition); }
      var rootId := branch[0].id;
      assert log[|log| - 1] == branch[0];
      hide Oldest;
      AdvanceKeepsNode(apply, base, t, head, state, stack, rootId);
      base := Replay(apply, base, t, rootId).value;
      r := MoveRoot(rootId);
    }

    /** Commits and appends the blocks of `branch`, oldest first. */
    method AppendBranch(branch: seq<Block>) returns (ok: bool)
      requires |branch| <= |undo| <= head.num
      requires forall i | 0 <= i < |branch| :: branch[i].num == firstBlockNum + |log| + |branch| - 1 - i
      requires |branch| > 0 ==> firstBlockNum + |log| + |undo| == head.num + 1
      modifies this`log, this`undo
      ensures ok && log == old(log) + Oldest(branch) && undo == old(undo)[|branch|..]
    {
      var i := |branch|;
      assert branch[i..] == [];
      while i > 0
        invariant 0 <= i <= |branch|
        invariant log == old(log) + Oldest(branch[i..]) && undo == old(undo)[|branch| - i..]
      {
        var b := branch[i - 1];
        undo := undo[|undo| - (head.num - b.num)..];
        assert branch[i - 1..] == [b] + branch[i..];
        ok := Append(b);
        if !ok { return; }
        i := i - 1;
      }
      assert branch[0..] == branch;
      return true;
    }

    /** Switches to the best block known and logs what it makes irreversible. */
    method MaybeSwitchForks(newHead: Block) returns (r: Result<(), ControllerError>)
      requires Ready() && newHead == PendingHead(forkDb.State())
      modifies this, forkDb
      ensures Ready() && old(log) <= log
      ensures r.Ok? <==> Replay(apply, old(base), old(forkDb.State()), newHead.id).Some?
      ensures r.Ok? ==> head == forkDb.head == newHead && LogsTo(old(forkDb.State()), newHead, old(log), log)
      ensures r.Err? ==> head == old(head) && state == old(state) && undo == old(undo) && log == old(log)
      ensures r.Err? ==> Refused(apply, old(base), old(forkDb.State()), newHead, forkDb.State())
      ensures r.Err? ==>
        r.error == if SkipsChild(old(forkDb.State()), old(head), newHead) then ReadPastEnd else BlockRejected
    {
      hide NodeOk, Chain, PendingHead, Inv, WellFormed, Switched, Refused, Replay, LogsTo, Logged;
      ghost var t := forkDb.State();
      NodeWellFormed(apply, base, t, head, state, undo);
      PendingHeadKnown(t);
      var headChanged := newHead.prev == head.id || newHead.id != head.id;
      r := SwitchTo(newHead);
      if r.Err? { return; }
      NodeWellFormed(apply, base, forkDb.State(), head, state, undo);
      PendingBecomesHead(apply, base, t, old(head), old(state), old(undo), forkDb.State(), head, state);
      LogsFrame(apply, base, t, newHead, forkDb.State(), head, state, undo, log);
      if headChanged {
        r := LogIrreversible();
      }
    }

    /** Receives a block: stores it, then follows the best branch. */
    method PushBlock(b: Block) returns (r: Result<(), ControllerError>)
      requires Ready() && BlockOk(b) && b.lib <= b.num
      modifies this, forkDb
      ensures Ready() && old(log) <= log
      ensures r.Err? ==> head == old(head) && state == old(state) && undo == old(undo) && log == old(log)
      ensures Received(apply, old(Now()), b, Now(), r)
    {
      hide NodeOk, PendingHead, Inv, WellFormed, Refused, Replay, T.Add, LogsTo, Logged;
      ghost var t := forkDb.State();
      NodeWellFormed(apply, base, t, head, state, undo);
      if T.Add(t, b, false, false).Ok? { StoreBlock(apply, base, t, head, state, undo, b); }
      var added := forkDb.Add(b, false, false);
      if added.Err? { return Err(Database(added.error)); }
      NodeWellFormed(apply, base, forkDb.State(), head, state, undo);
      PendingHeadKnown(forkDb.State());
      var best := forkDb.GetPendingHead();
      r := MaybeSwitchForks(best);
    }

    ghost function Now(): Snapshot<S>
      reads this, forkDb
    {
      Snapshot(base, forkDb.State(), head, state, undo, log)
    }

    /**
     Any run of pushed blocks, up to a read past the end of a branch: each block is received as by `PushBlock`, and
     irreversible history only grows.
     */
    method PushBlocks(bs: seq<Block>)
      returns (n: nat, r: Result<(), ControllerError>, ghost ss: seq<Snapshot<S>>,
               ghost rs: seq<Result<(), ControllerError>>)
      requires Ready() && forall b | b in bs :: BlockOk(b) && b.lib <= b.num
      modifies this, forkDb
      ensures n <= |bs| && Ready() && old(log) <= log
      ensures n < |bs| <==> r == Err(ReadPastEnd)
      ensures |ss| == |rs| + 1 && |rs| == (if n < |bs| then n + 1 else n) && (rs != [] ==> r == rs[|rs| - 1])
      ensures ss[0] == old(Now()) && ss[|rs|] == Now()
      ensures ReceivedAll(apply, ss, bs, rs)
    {
      hide Controller.Ready, ReceivedAll, Received, BlockOk;
      n, r, ss, rs := 0, Ok(()), [Now()], [];
      ReceivedNone(apply, ss[0], bs);
      while n < |bs|
        invariant n <= |bs| && Ready() && old(log) <= log && r != Err(ReadPastEnd)
        invariant |rs| == n && |ss| == n + 1 && (rs != [] ==> r == rs[n - 1]) && ss[0] == old(Now()) && ss[n] == Now()
        invariant ReceivedAll(apply, ss, bs, rs)
      {
        assert bs[n] in bs;
        r := PushBlock(bs[n]);
        ReceivedNext(apply, ss, bs, rs, Now(), r);
        ss, rs := ss + [Now()], rs + [r];
        if r == Err(ReadPastEnd) { return; }
        n := n + 1;
      }
    }

    method MoveRoot(id: BlockId) returns (r: Result<(), ControllerError>)
      requires Inv(forkDb.State()) && T.AdvanceRoot(forkDb.State(), id).Ok?
      modifies forkDb
      ensures r == Ok(()) && forkDb.State() == T.AdvanceRoot(old(forkDb.State()), id).value
    {
      var moved := forkDb.AdvanceRoot(id);
      if moved.Err? { return Err(LossOfSync); }
      return Ok(());
    }
  }

  // ---- Pieces of pushing a block ----

  lemma PendingHeadKnown(t: Tree)
    requires Inv(t)
    ensures Known(t, PendingHead(t).id) && Get(t, PendingHead(t).id) == PendingHead(t)
  {
    hide FirstPreferred, First;
    PendingHeadIsBest(t);
  }

  /** Once the pending head's branch is validated, the fork database's head is that block. */
  lemma PendingBecomesHead<S>(apply: (S, Block) -> Option<S>, base: S, t: Tree, oldHead: Block, oldState: S,
                              oldUndo: seq<S>, t': Tree, head: Block, state: S)
    requires NodeOk(apply, base, t, oldHead, oldState, oldUndo) && Inv(t') && Known(t, PendingHead(t).id)
    requires Switched(apply, base, t, PendingHead(t), t', head, state)
    ensures t'.head == PendingHead(t)
  {
    hide First, Replay;
    var ph := PendingHead(t);
    PendingHeadIsBest(t);
    if ph == t.head {
      ValidChain(t, ph);
    } else {
      ChainNumbers(t, ph.id);
      assert ph == Chain(t, ph.id)[0] && ph.id in BlockIds(Chain(t, ph.id));
      PreferredIsHead(t, t', ph);
    }
  }

  lemma PreferredIsHead(t: Tree, t': Tree, ph: Block)
    requires Inv(t) && Inv(t') && SameLinks(t, t') && ph.id in t'.valid && ph.id in t.blocks && t.blocks[ph.id] == ph
    requires FirstPreferred(ph, t.head) && (forall id | id in t.blocks :: !FirstPreferred(t.blocks[id], ph))
    requires t'.valid == t.valid + BlockIds(Chain(t, ph.id))
    requires t'.head == t.head || t'.head.id in t'.blocks
    ensures t'.head == ph
  {
    assert !FirstPreferred(ph, t'.head);
    assert t'.head != t.head;
    var h := t'.head.id;
    assert h in t'.valid && h in t.blocks;
    assert t.blocks[h].lib == ph.lib && t.blocks[h].num == ph.num;
    assert h !in t.valid;
    var b :| b in Chain(t, ph.id) && b.id == h;
    ChainNumbers(t, ph.id);
    var i :| 0 <= i < |Chain(t, ph.id)| && Chain(t, ph.id)[i] == b;
    assert i == 0;
  }

  lemma StoreBlock<S>(apply: (S, Block) -> Option<S>, base: S, t: Tree, head: Block, state: S, undo: seq<S>, b: Block)
    requires NodeOk(apply, base, t, head, state, undo) && BlockOk(b) && b.lib <= b.num && T.Add(t, b, false, false).Ok?
    ensures NodeOk(apply, base, T.Add(t, b, false, false).value, head, state, undo)
    ensures T.Add(t, b, false, false).value.root == t.root
  {
    hide T.Add, Replay, Undoes, HeadOk;
    AddKeepsTree(apply, base, t, b);
    SyncedFrame(apply, base, t, T.Add(t, b, false, false).value, head, state, undo);
  }

  // ---- Pieces of irreversible logging ----

  /** What is logged depends on the links alone. */
  lemma LogsFrame<S>(apply: (S, Block) -> Option<S>, base: S, t: Tree, newHead: Block,
                     t': Tree, head: Block, state: S, undo: seq<S>, log: seq<Block>)
    requires WellFormed(t) && Known(t, newHead.id) && NodeOk(apply, base, t', head, state, undo)
    requires Switched(apply, base, t, newHead, t', head, state)
    ensures WellFormed(t') && Known(t', head.id)
    ensures forall log' :: LogsTo(t', head, log, log') <==> LogsTo(t, newHead, log, log')
    ensures forall log' | LogsTo(t', head, log, log') :: log <= log'
    ensures newHead.lib <= t.root.num ==> LogsTo(t, newHead, log, log)
  {
    hide Replay, HeadOk, Undoes;
    ChainFrame(t, t', newHead.id);
  }

  /** A branch read from its oldest block. */
  function Oldest(c: seq<Block>): (r: seq<Block>)
    ensures |r| == |c| && forall i | 0 <= i < |c| :: r[i] == c[|c| - 1 - i]
  {
    if c == [] then [] else Oldest(c[1..]) + [c[0]]
  }

  lemma {:induction false} UpToIsSuffix(c: seq<Block>, n: nat, top: nat)
    requires |c| <= top + 1 && forall i | 0 <= i < |c| :: c[i].num == top - i
    ensures UpTo(c, n) == if top <= n then c else if top - n <= |c| then c[top - n..] else []
    decreases |c|
  {
    if c != [] {
      var front := c[..|c| - 1];
      UpToIsSuffix(front, n, top);
      assert c == front + [c[|c| - 1]];
    }
  }

  /** The blocks to log: the head's branch from the block numbered LIB down to just above the root. */
  lemma IrreversibleBranch(t: Tree, head: Block, branch: seq<Block>)
    requires WellFormed(t) && head.id in t.blocks && t.blocks[head.id] == head && t.root.num < head.lib <= head.num
    requires branch == UpTo(Chain(t, head.id), head.lib)
    ensures |Chain(t, head.id)| == head.num - t.root.num && |branch| == head.lib - t.root.num
    ensures branch == Chain(t, head.id)[head.num - head.lib..]
  {
    StoredNumber(t, head.id);
    hide Chain, UpTo, WellFormed;
    ChainNumbers(t, head.id);
    UpToIsSuffix(Chain(t, head.id), head.lib, head.num);
  }

  lemma IrreversibleNumbers(t: Tree, head: Block, branch: seq<Block>)
    requires WellFormed(t) && head.id in t.blocks && t.blocks[head.id] == head && t.root.num < head.lib <= head.num
    requires |Chain(t, head.id)| == head.num - t.root.num && branch == Chain(t, head.id)[head.num - head.lib..]
    ensures forall i | 0 <= i < |branch| :: branch[i].num == head.lib - i
  {
    var c := Chain(t, head.id);
    assert forall i | 0 <= i < |c| :: c[i].num == head.num - i by { ChainNumbers(t, head.id); }
  }

  /** The last of them is a stored ancestor of the head. */
  lemma IrreversibleRoot(t: Tree, head: Block, k: nat)
    requires WellFormed(t) && head.id in t.blocks && k < |Chain(t, head.id)|
    ensures var b := Chain(t, head.id)[k];
      b.id in t.blocks && t.blocks[b.id] == b && b.id.num == b.num && Descends(t, head.id, b.id)
  {
    ChainNumbers(t, head.id);
    hide Chain;
    DescendsIffOnChain(t, head.id, Chain(t, head.id)[k].id);
    StoredNumber(t, Chain(t, head.id)[k].id);
  }

  lemma StoredNumber(t: Tree, id: BlockId)
    requires WellFormed(t) && id in t.blocks
    ensures t.blocks[id].num == id.num
  {
  }

  lemma IrreversiblePart(t: Tree, head: Block, branch: seq<Block>)
    requires WellFormed(t) && head.id in t.blocks && t.blocks[head.id] == head && t.root.num < head.lib <= head.num
    requires branch == UpTo(Chain(t, head.id), head.lib)
    ensures |branch| == head.lib - t.root.num && forall i | 0 <= i < |branch| :: branch[i].num == head.lib - i
    ensures var b := branch[0];
      b.id in t.blocks && t.blocks[b.id] == b && b.id.num == b.num && Descends(t, head.id, b.id)
  {
    hide Chain, WellFormed, UpTo, Descends;
    IrreversibleBranch(t, head, branch);
    IrreversibleNumbers(t, head, branch);
    IrreversibleRoot(t, head, head.num - head.lib);
  }

  lemma HeadLibBelow<S>(apply: (S, Block) -> Option<S>, base: S, t: Tree, head: Block, state: S, undo: seq<S>)
    requires NodeOk(apply, base, t, head, state, undo)
    ensures head.lib > t.root.num ==> head.id in t.blocks && head.lib <= head.num
  {
    hide Replay, Undoes;
  }

  // ---- Pieces of the switch ----

  /** Both branches of a fork lead down to the same block. */
  lemma ForkPoint(t: Tree, a: BlockId, b: BlockId, p: seq<Block>, q: seq<Block>) returns (at: Block)
    requires WellFormed(t) && Known(t, a) && Known(t, b) && Forks(t, a, b, p, q)
    ensures Walked(t, a, p, at) && Walked(t, b, q, at)
  {
    var c, d := Chain(t, a), Chain(t, b);
    if |p| < |c| {
      ChainSuffix(t, a, |p|);
      at := c[|p|];
      ChainNumbers(t, a);
    } else {
      at := t.root;
    }
    assert p + c[|p|..] == c && q + d[|q|..] == d;
  }

  lemma WalkSplit(t: Tree, a: BlockId, p: seq<Block>, at: Block, k: nat, mid: Block)
    requires WellFormed(t) && Known(t, a) && k <= |p| && Walked(t, a, p, at) && Walked(t, a, p[..k], mid)
    ensures Walked(t, mid.id, p[k..], at)
  {
    var d := Chain(t, at.id);
    hide Chain;
    assert p + d == p[..k] + (p[k..] + d);
    assert (p + d)[k..] == p[k..] + d;
    assert (p[..k] + Chain(t, mid.id))[k..] == Chain(t, mid.id);
  }

  /** The branch of a validated head is validated. */
  lemma {:induction false} ValidChain(t: Tree, head: Block)
    requires WellFormed(t) && ParentsValid(t) && HeadValid(t, head)
    ensures BlockIds(Chain(t, head.id)) <= t.valid
    decreases head.id.num
  {
    if head != t.root {
      var prev := head.prev;
      ValidChain(t, Get(t, prev));
      assert BlockIds(Chain(t, head.id)) == {head.id} + BlockIds(Chain(t, prev));
    }
  }

  lemma ChainIds(t: Tree, a: BlockId, p: seq<Block>, at: Block)
    requires WellFormed(t) && Known(t, a) && Walked(t, a, p, at)
    ensures BlockIds(Chain(t, a)) == BlockIds(p) + BlockIds(Chain(t, at.id))
  {
  }

  /** A block below a validated head is a validated head itself. */
  lemma AncestorInStep<S>(apply: (S, Block) -> Option<S>, base: S, t: Tree, head: Block, state: S, undo: seq<S>,
                          q: seq<Block>, at: Block)
    requires NodeOk(apply, base, t, head, state, undo) && Walked(t, head.id, q, at)
    ensures TreeOk(apply, base, t) && Synced(apply, base, t, head, state, undo) && HeadValid(t, at)
  {
    WalkDescends(t, head.id, q, at);
    ValidAncestors(t, head.id, at.id);
  }

  lemma AcceptedChild<S>(apply: (S, Block) -> Option<S>, base: S, t: Tree, head: Block, state: S, undo: seq<S>,
                         b: Block)
    requires NodeOk(apply, base, t, head, state, undo)
    requires b.id in t.blocks && t.blocks[b.id] == b && b.prev == head.id
    ensures Replay(apply, base, t, b.id) == apply(state, b)
    ensures t.valid + {b.id} == t.valid + BlockIds(Chain(t, b.id))
  {
    hide HeadOk;
    ApplySynced(apply, base, t, head, state, undo, b);
    ValidChain(t, head);
    assert BlockIds(Chain(t, b.id)) == {b.id} + BlockIds(Chain(t, head.id));
  }

  lemma RejectedChild<S>(apply: (S, Block) -> Option<S>, base: S, t: Tree, head: Block, state: S, undo: seq<S>,
                         b: Block)
    requires NodeOk(apply, base, t, head, state, undo) && apply(state, b).None?
    requires b.id in t.blocks && t.blocks[b.id] == b && b.prev == head.id
    ensures T.Remove(t, b.id).Ok? ==> Refused(apply, base, t, b, T.Remove(t, b.id).value)
  {
    hide HeadOk, Undoes, Chain;
    RejectChild(apply, base, t, head, state, undo, b);
    RejectedIs(apply, base, t, b.id, b.id);
    ValidChain(t, head);
  }

  lemma BranchApplied<S>(apply: (S, Block) -> Option<S>, base: S, t: Tree, newHead: Block,
                         p: seq<Block>, at: Block, atState: S, atUndo: seq<S>,
                         t1: Tree, head: Block, state: S, undo: seq<S>)
    requires NodeOk(apply, base, t, at, atState, atUndo) && Known(t, newHead.id) && Get(t, newHead.id) == newHead
    requires Walked(t, newHead.id, p, at)
    requires NodeOk(apply, base, t1, head, state, undo) && SameLinks(t, t1) && Walked(t1, newHead.id, [], head)
    requires t1.valid == t.valid + BlockIds(p) && HeadMoved(t, t1)
    ensures Switched(apply, base, t, newHead, t1, head, state)
  {
    hide HeadOk, Linked;
    WalkStarts(t1, newHead.id);
    WalkEnd(t1, newHead.id, [], head, newHead);
    ReplayFrame(apply, base, t1, t, newHead.id);
    ChainIds(t, newHead.id, p, at);
    ValidChain(t, at);
  }

  lemma BranchRejected<S>(apply: (S, Block) -> Option<S>, base: S, t: Tree, oldHead: Block, oldState: S,
                          oldUndo: seq<S>, newHead: Block,
                          p: seq<Block>, at: Block, t1: Tree, head: Block, state: S, undo: seq<S>,
                          k: nat, q: seq<Block>)
    requires NodeOk(apply, base, t, oldHead, oldState, oldUndo) && Known(t, newHead.id) && Get(t, newHead.id) == newHead
    requires Walked(t, newHead.id, p, at) && Walked(t, oldHead.id, q, at)
    requires NodeOk(apply, base, t1, head, state, undo) && SameLinks(t, t1)
    requires k < |p| && Walked(t1, newHead.id, p[..k + 1], head) && apply(state, p[k]).None?
    requires t1.valid == t.valid + BlockIds(p[k + 1..]) && (t1.head == t.head || t1.head.id in t1.blocks)
    ensures p[k].id in t1.blocks && T.Remove(t1, p[k].id).Ok?
    ensures var t2 := T.Remove(t1, p[k].id).value;
      && NodeOk(apply, base, t2, head, state, undo) && Walked(t2, head.id, p[k + 1..], at)
      && Known(t2, oldHead.id) && Get(t2, oldHead.id) == oldHead && Walked(t2, oldHead.id, q, at)
      && HeadValid(t2, oldHead) && Replay(apply, base, t2, oldHead.id).Some? && Within(t2, t)
      && Refused(apply, base, t, newHead, t2)
  {
    hide HeadOk, Linked, Undoes, Rejected, T.Remove, Refused, Chain, Replay, Descends, BlockIds, Walked;
    WalkedFrame(t1, t, newHead.id, p[..k + 1], head);
    WalkSplit(t, newHead.id, p, at, k + 1, head);
    AncestorInStep(apply, base, t, oldHead, oldState, oldUndo, q, at);
    MarkedAbove(t, head.id, p[k + 1..], at);
    BranchRejectedRemoval(apply, base, t, newHead, p, t1, head, state, undo, k);
    var t2 := T.Remove(t1, p[k].id).value;
    assert t2.valid == t1.valid && HeadValid(t2, oldHead);
    assert Replay(apply, base, t2, oldHead.id).Some? by { HeadReplays(apply, base, t2, oldHead); }
    BackWalk(t, t2, oldHead.id, q, at);
    BackWalk(t, t2, head.id, p[k + 1..], at);
  }

  /** Marking the blocks above a validated one marks the whole branch. */
  lemma MarkedAbove(t: Tree, a: BlockId, p: seq<Block>, at: Block)
    requires WellFormed(t) && ParentsValid(t) && HeadValid(t, at) && Known(t, a) && Walked(t, a, p, at)
    ensures t.valid + BlockIds(p) == t.valid + BlockIds(Chain(t, a))
  {
    hide Chain;
    ChainIds(t, a, p, at);
    ValidChain(t, at);
  }

  lemma HeadReplays<S>(apply: (S, Block) -> Option<S>, base: S, t: Tree, head: Block)
    requires TreeOk(apply, base, t) && HeadValid(t, head)
    ensures Known(t, head.id) && Replay(apply, base, t, head.id).Some?
  {
  }

  /** A walk down from a block that survives a removal is still there. */
  lemma BackWalk(t: Tree, t2: Tree, a: BlockId, p: seq<Block>, at: Block)
    requires WellFormed(t) && WellFormed(t2) && Within(t2, t) && Known(t2, a) && Known(t, a) && Walked(t, a, p, at)
    ensures Walked(t2, a, p, at)
    decreases |p|
  {
    if p == [] {
      SameChain(t, a, at.id);
    } else {
      WalkFrom(t, a, p, at);
      BackWalk(t, t2, t.blocks[a].prev, p[1..], at);
      WalkFrom(t2, a, p, at);
    }
  }

  lemma BranchRejectedRemoval<S>(apply: (S, Block) -> Option<S>, base: S, t: Tree, newHead: Block, p: seq<Block>,
                                 t1: Tree, head: Block, state: S, undo: seq<S>, k: nat)
    requires WellFormed(t) && Known(t, newHead.id) && SameLinks(t, t1)
    requires NodeOk(apply, base, t1, head, state, undo) && t1.valid == t.valid + BlockIds(Chain(t, head.id))
    requires k < |p| && Walked(t1, newHead.id, p[..k + 1], head) && apply(state, p[k]).None?
    requires t1.head == t.head || t1.head.id in t1.blocks
    ensures p[k].id in t1.blocks && T.Remove(t1, p[k].id).Ok?
    ensures var t2 := T.Remove(t1, p[k].id).value;
      && NodeOk(apply, base, t2, head, state, undo) && Within(t2, t) && t2.valid == t1.valid
      && Refused(apply, base, t, newHead, t2)
  {
    hide HeadOk, Undoes, Chain;
    var b := p[k];
    assert p[..k + 1][k] == b;
    WalkBack(t1, newHead.id, p[..k + 1], head);
    WalkDescends(t1, newHead.id, p[..k + 1][..k], b);
    RejectChild(apply, base, t1, head, state, undo, b);
    RemoveKeepsTree(apply, base, t1, b.id);
    SameAncestry(t1, t, newHead.id, b.id);
    ReplayFrame(apply, base, t1, t, b.id);
    ReplayFrame(apply, base, t1, t, b.prev);
    RejectedIs(apply, base, t, newHead.id, b.id);
    forall x | x in t.blocks ensures Descends(t1, x, b.id) <==> Descends(t, x, b.id) {
      SameAncestry(t1, t, x, b.id);
    }
    hide Replay, Rejected;
    RefusedBy(apply, base, t, newHead, t1, b.id);
  }

  lemma {:induction false} SameAncestry(t: Tree, t': Tree, x: BlockId, a: BlockId)
    requires WellFormed(t) && WellFormed(t') && SameLinks(t, t')
    ensures Descends(t, x, a) <==> Descends(t', x, a)
    decreases x.num
  {
    if x != a && x in t.blocks { SameAncestry(t, t', t.blocks[x].prev, a); }
  }

  lemma RefusedBy<S>(apply: (S, Block) -> Option<S>, base: S, t: Tree, newHead: Block, t1: Tree, bad: BlockId)
    requires WellFormed(t) && Known(t, newHead.id) && Replay(apply, base, t, newHead.id).None?
    requires Rejected(apply, base, t, newHead.id) == bad
    requires Inv(t1) && SameLinks(t, t1) && t1.valid == t.valid + BlockIds(Chain(t, t.blocks[bad].prev))
    requires T.Remove(t1, bad).Ok?
    requires T.Remove(t1, bad).value.valid == t1.valid && (t1.head == t.head || t1.head.id in t1.blocks)
    requires forall x | x in t.blocks :: Descends(t1, x, bad) <==> Descends(t, x, bad)
    ensures Refused(apply, base, t, newHead, T.Remove(t1, bad).value)
  {
    hide Replay, Rejected, Chain, BlockIds, HeadOk;
    var t2 := T.Remove(t1, bad).value;
    assert t2.blocks == Without(t, bad);
    assert t1.head.id in t1.blocks ==> t1.head.id in t2.blocks;
  }

  /** Back at the old head, the state and the undo stack are the old ones. */
  lemma BackInStep<S>(apply: (S, Block) -> Option<S>, base: S, t: Tree, t2: Tree, oldHead: Block,
                      oldState: S, oldUndo: seq<S>, state: S, undo: seq<S>)
    requires NodeOk(apply, base, t, oldHead, oldState, oldUndo) && NodeOk(apply, base, t2, oldHead, state, undo)
    requires Within(t2, t)
    ensures state == oldState && undo == oldUndo
  {
    hide Undoes, Replay, HeadOk;
    SyncedFrame(apply, base, t2, t, oldHead, state, undo);
    SyncedIsUnique(apply, base, t, oldHead, state, undo, oldState, oldUndo);
  }

  lemma NodeSynced<S>(apply: (S, Block) -> Option<S>, base: S, t: Tree, head: Block, state: S, undo: seq<S>)
    requires NodeOk(apply, base, t, head, state, undo)
    ensures |undo| == head.num - t.root.num
  {
    UndoDepth(apply, base, t, head.id, undo);
  }

  lemma NodeLinked<S>(apply: (S, Block) -> Option<S>, base: S, t: Tree, head: Block, state: S, undo: seq<S>)
    requires NodeOk(apply, base, t, head, state, undo)
    ensures Linked(t) && t.valid <= t.blocks.Keys
  {
  }

  lemma NodeWellFormed<S>(apply: (S, Block) -> Option<S>, base: S, t: Tree, head: Block, state: S, undo: seq<S>)
    requires NodeOk(apply, base, t, head, state, undo)
    ensures Inv(t) && WellFormed(t) && Known(t, head.id) && Get(t, head.id) == head
  {
  }

  lemma {:induction false} ChainFrame(t: Tree, t': Tree, id: BlockId)
    requires WellFormed(t) && WellFormed(t') && Within(t, t') && Known(t, id)
    ensures Known(t', id) && Chain(t', id) == Chain(t, id)
    decreases id.num
  {
    if id != t.root.id { ChainFrame(t, t', t.blocks[id].prev); }
  }

  lemma WalkedFrame(t: Tree, t': Tree, a: BlockId, p: seq<Block>, at: Block)
    requires WellFormed(t) && WellFormed(t') && Within(t, t') && Known(t, a) && Walked(t, a, p, at)
    ensures Known(t', a) && Walked(t', a, p, at)
  {
    hide Chain;
    ChainFrame(t, t', a);
    ChainFrame(t, t', at.id);
  }

  /** A child of the head that is accepted can be marked valid and become the head. */
  lemma AcceptChild<S>(apply: (S, Block) -> Option<S>, base: S, t: Tree, head: Block, state: S, undo: seq<S>, b: Block)
    requires NodeOk(apply, base, t, head, state, undo) && apply(state, b).Some?
    requires b.id in t.blocks && t.blocks[b.id] == b && b.prev == head.id
    ensures MarkValid(t, b.id).Ok?
    ensures var t' := MarkValid(t, b.id).value;
      && NodeOk(apply, base, t', b, apply(state, b).value, undo + [state])
      && SameLinks(t, t') && t'.valid == t.valid + {b.id} && HeadMoved(t, t')
  {
    hide Replay, Undoes, MarkValid, HeadOk;
    ApplySynced(apply, base, t, head, state, undo, b);
    MarkKeepsTree(apply, base, t, b.id);
    SyncedFrame(apply, base, t, MarkValid(t, b.id).value, b, apply(state, b).value, undo + [state]);
  }

  /** A child of the head that is rejected can be removed with its descendants; the head stays in step. */
  lemma RejectChild<S>(apply: (S, Block) -> Option<S>, base: S, t: Tree, head: Block, state: S, undo: seq<S>, b: Block)
    requires NodeOk(apply, base, t, head, state, undo) && apply(state, b).None?
    requires b.id in t.blocks && t.blocks[b.id] == b && b.prev == head.id
    ensures b.id !in t.valid && T.Remove(t, b.id).Ok?
    ensures Replay(apply, base, t, b.id).None? && Replay(apply, base, t, b.prev).Some?
    ensures NodeOk(apply, base, T.Remove(t, b.id).value, head, state, undo)
    ensures Within(T.Remove(t, b.id).value, t)
    ensures forall x | x == t.root.id || x in t.valid :: Known(t, x) && Known(T.Remove(t, b.id).value, x)
  {
    hide Undoes, HeadOk, T.Remove;
    ApplySynced(apply, base, t, head, state, undo, b);
    RemoveKeepsTree(apply, base, t, b.id);
    var t' := T.Remove(t, b.id).value;
    forall x | x == t.root.id || x in t.valid ensures Known(t, x) && Known(t', x) {
      if Descends(t, x, b.id) { ValidAncestors(t, x, b.id); }
    }
    SyncedFrame(apply, base, t', t, head, state, undo);
  }

  /** A walk that has collected a prefix of `q` can go on: it stands at the next block of `q`. */
  lemma WalkOn(t: Tree, a: BlockId, q: seq<Block>, i: nat, at: Block, end: Block)
    requires WellFormed(t) && Known(t, a) && i < |q|
    requires Walked(t, a, q, end) && Walked(t, a, q[..i], at)
    ensures at == q[i] && at.id != t.root.id && Known(t, at.prev) && Walked(t, a, q[..i + 1], Get(t, at.prev))
  {
    var c := Chain(t, a);
    assert c[i..] == Chain(t, at.id);
    assert c[i] == q[i];
    assert Chain(t, at.id) != [];
    WalkStep(t, a, q[..i], at);
    assert q[..i + 1] == q[..i] + [q[i]];
  }

  lemma WalkEnd(t: Tree, a: BlockId, q: seq<Block>, at: Block, end: Block)
    requires WellFormed(t) && Known(t, a) && Walked(t, a, q, at) && Walked(t, a, q, end)
    ensures at == end
  {
    assert Chain(t, at.id) == Chain(t, a)[|q|..] == Chain(t, end.id);
    SameChain(t, at.id, end.id);
  }

  lemma PopMaybe<S>(apply: (S, Block) -> Option<S>, base: S, t: Tree, head: Block, state: S, undo: seq<S>)
    requires WellFormed(t) && Synced(apply, base, t, head, state, undo)
    ensures head.id != t.root.id ==>
      && |undo| > 0 && Known(t, head.prev)
      && Synced(apply, base, t, Get(t, head.prev), undo[|undo| - 1], undo[..|undo| - 1])
  {
    if head.id != t.root.id { PopSynced(apply, base, t, head, state, undo); }
  }
}
