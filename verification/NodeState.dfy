/**
 What keeps the chain database, the undo stack and the fork tree in step: the database state at a
 block is the one obtained by applying the blocks between the root and it.
 */
module NodeState {
  import opened Results
  import opened ForkTree

  /** The state at block `id`, starting from `base` at the root; None if a block on the way is rejected. */
  ghost function Replay<S>(apply: (S, Block) -> Option<S>, base: S, t: Tree, id: BlockId): Option<S>
    requires WellFormed(t) && Known(t, id)
    decreases id.num
  {
    if id == t.root.id then Some(base)
    else
      var before := Replay(apply, base, t, t.blocks[id].prev);
      if before.None? then None else apply(before.value, t.blocks[id])
  }

  /** The undo stack holds the state before each block between the root and `id`, oldest first. */
  ghost predicate Undoes<S>(apply: (S, Block) -> Option<S>, base: S, t: Tree, id: BlockId, undo: seq<S>)
    requires WellFormed(t) && Known(t, id)
    decreases id.num
  {
    if id == t.root.id then undo == []
    else
      && |undo| > 0
      && Replay(apply, base, t, t.blocks[id].prev) == Some(undo[|undo| - 1])
      && Undoes(apply, base, t, t.blocks[id].prev, undo[..|undo| - 1])
  }

  ghost predicate Synced<S>(apply: (S, Block) -> Option<S>, base: S, t: Tree, head: Block, state: S, undo: seq<S>)
    requires WellFormed(t)
  {
    && Known(t, head.id) && Get(t, head.id) == head
    && Replay(apply, base, t, head.id) == Some(state)
    && Undoes(apply, base, t, head.id, undo)
  }

  /** State and undo stack at a block are determined by the tree. */
  lemma SyncedIsUnique<S>(apply: (S, Block) -> Option<S>, base: S, t: Tree, head: Block,
                          state: S, undo: seq<S>, state': S, undo': seq<S>)
    requires WellFormed(t) && Synced(apply, base, t, head, state, undo) && Synced(apply, base, t, head, state', undo')
    ensures state == state' && undo == undo'
  {
    UndoesIsUnique(apply, base, t, head.id, undo, undo');
  }

  lemma {:induction false} UndoesIsUnique<S>(apply: (S, Block) -> Option<S>, base: S, t: Tree, id: BlockId,
                                             undo: seq<S>, undo': seq<S>)
    requires WellFormed(t) && Known(t, id)
    requires Undoes(apply, base, t, id, undo) && Undoes(apply, base, t, id, undo')
    ensures undo == undo'
    decreases id.num
  {
    if id != t.root.id {
      UndoesIsUnique(apply, base, t, t.blocks[id].prev, undo[..|undo| - 1], undo'[..|undo'| - 1]);
      assert undo == undo[..|undo| - 1] + [undo[|undo| - 1]];
      assert undo' == undo'[..|undo'| - 1] + [undo'[|undo'| - 1]];
    }
  }

  lemma {:induction false} UndoDepth<S>(apply: (S, Block) -> Option<S>, base: S, t: Tree, id: BlockId, undo: seq<S>)
    requires WellFormed(t) && Known(t, id) && Undoes(apply, base, t, id, undo)
    ensures |undo| == id.num - t.root.num
    decreases id.num
  {
    if id != t.root.id { UndoDepth(apply, base, t, t.blocks[id].prev, undo[..|undo| - 1]); }
  }

  /** Popping the newest block restores the state before it. */
  lemma PopSynced<S>(apply: (S, Block) -> Option<S>, base: S, t: Tree, head: Block, state: S, undo: seq<S>)
    requires WellFormed(t) && Synced(apply, base, t, head, state, undo) && head.id != t.root.id
    ensures |undo| > 0 && Known(t, head.prev)
    ensures Synced(apply, base, t, Get(t, head.prev), undo[|undo| - 1], undo[..|undo| - 1])
  {
  }

  /** Applying a child of the head that is accepted moves the head to it. */
  lemma ApplySynced<S>(apply: (S, Block) -> Option<S>, base: S, t: Tree, head: Block, state: S, undo: seq<S>, b: Block)
    requires WellFormed(t) && Synced(apply, base, t, head, state, undo)
    requires b.id in t.blocks && t.blocks[b.id] == b && b.prev == head.id
    ensures Replay(apply, base, t, b.id) == apply(state, b)
    ensures apply(state, b).Some? ==> Synced(apply, base, t, b, apply(state, b).value, undo + [state])
  {
    assert (undo + [state])[..|undo|] == undo;
  }

  // ---- Changing the tree ----

  /** Every block of `t` is in `t'` as well. */
  predicate Within(t: Tree, t': Tree)
  {
    t.root == t'.root && forall x | x in t.blocks :: x in t'.blocks && t'.blocks[x] == t.blocks[x]
  }

  lemma {:induction false} ReplayFrame<S>(apply: (S, Block) -> Option<S>, base: S, t: Tree, t': Tree, id: BlockId)
    requires WellFormed(t) && WellFormed(t') && Within(t, t') && Known(t, id)
    ensures Known(t', id) && Replay(apply, base, t, id) == Replay(apply, base, t', id)
    decreases id.num
  {
    if id != t.root.id { ReplayFrame(apply, base, t, t', t.blocks[id].prev); }
  }

  lemma {:induction false} UndoesFrame<S>(apply: (S, Block) -> Option<S>, base: S, t: Tree, t': Tree, id: BlockId,
                                          undo: seq<S>)
    requires WellFormed(t) && WellFormed(t') && Within(t, t') && Known(t, id)
    ensures Undoes(apply, base, t, id, undo) <==> Undoes(apply, base, t', id, undo)
    decreases id.num
  {
    if id != t.root.id {
      ReplayFrame(apply, base, t, t', t.blocks[id].prev);
      if |undo| > 0 { UndoesFrame(apply, base, t, t', t.blocks[id].prev, undo[..|undo| - 1]); }
    }
  }

  /** Being in step does not depend on blocks outside the head's branch, nor on flags. */
  lemma SyncedFrame<S>(apply: (S, Block) -> Option<S>, base: S, t: Tree, t': Tree, head: Block, state: S, undo: seq<S>)
    requires WellFormed(t) && WellFormed(t') && Within(t, t') && Known(t, head.id)
    ensures Synced(apply, base, t, head, state, undo) <==> Synced(apply, base, t', head, state, undo)
  {
    ReplayFrame(apply, base, t, t', head.id);
    UndoesFrame(apply, base, t, t', head.id, undo);
  }

  // ---- Moving the root up ----

  /** `t'` is what advancing the root of `t` to `id` leaves. */
  predicate Advanced(t: Tree, id: BlockId, t': Tree)
    requires WellFormed(t) && WellFormed(t') && id in t.blocks
  {
    && t'.root == t.blocks[id]
    && (forall x | x in t'.blocks :: x in t.blocks && t'.blocks[x] == t.blocks[x])
    && (forall x | x in t.blocks :: x in t'.blocks <==> x != id && Descends(t, x, id))
  }

  lemma {:induction false} ReplayAdvanced<S>(apply: (S, Block) -> Option<S>, base: S, t: Tree, id: BlockId, t': Tree,
                                             base': S, x: BlockId)
    requires WellFormed(t) && WellFormed(t') && id in t.blocks && Advanced(t, id, t')
    requires Replay(apply, base, t, id) == Some(base') && Known(t', x)
    ensures Known(t, x) && Replay(apply, base', t', x) == Replay(apply, base, t, x)
    decreases x.num
  {
    if x != id { ReplayAdvanced(apply, base, t, id, t', base', t.blocks[x].prev); }
  }

  lemma {:induction false} UndoesAdvanced<S>(apply: (S, Block) -> Option<S>, base: S, t: Tree, id: BlockId, t': Tree,
                                             base': S, x: BlockId, undo: seq<S>)
    requires WellFormed(t) && WellFormed(t') && id in t.blocks && Advanced(t, id, t')
    requires Replay(apply, base, t, id) == Some(base') && Known(t', x)
    requires Known(t, x) && Undoes(apply, base, t, x, undo)
    ensures |undo| == x.num - t.root.num >= x.num - id.num >= 0
    ensures Undoes(apply, base', t', x, undo[id.num - t.root.num..])
    decreases x.num
  {
    UndoDepth(apply, base, t, x, undo);
    ChainNumbers(t, id);
    ChainNumbers(t', x);
    if x != id {
      var prev := t.blocks[x].prev;
      var k := id.num - t.root.num;
      UndoesAdvanced(apply, base, t, id, t', base', prev, undo[..|undo| - 1]);
      ReplayAdvanced(apply, base, t, id, t', base', prev);
      assert undo[k..][..|undo[k..]| - 1] == undo[..|undo| - 1][k..];
    }
  }

  // ---- The invariant of a running node ----

  /** The parent of a validated block is the root or validated. */
  predicate ParentsValid(t: Tree)
    requires WellFormed(t)
  {
    forall id | id in t.valid :: t.blocks[id].prev == t.root.id || t.blocks[id].prev in t.valid
  }

  ghost predicate ValidReplays<S>(apply: (S, Block) -> Option<S>, base: S, t: Tree)
    requires WellFormed(t)
  {
    forall id | id in t.valid :: Replay(apply, base, t, id).Some?
  }

  predicate LibsBelow(t: Tree)
  {
    t.root.lib <= t.root.num && forall id | id in t.blocks :: t.blocks[id].lib <= t.blocks[id].num
  }

  ghost predicate TreeOk<S>(apply: (S, Block) -> Option<S>, base: S, t: Tree)
  {
    Inv(t) && ParentsValid(t) && ValidReplays(apply, base, t) && LibsBelow(t)
  }

  predicate HeadValid(t: Tree, head: Block)
  {
    head == t.root || (head.id in t.valid && head.id in t.blocks && t.blocks[head.id] == head)
  }

  ghost predicate NodeOk<S>(apply: (S, Block) -> Option<S>, base: S, t: Tree, head: Block, state: S, undo: seq<S>)
  {
    TreeOk(apply, base, t) && HeadValid(t, head) && Synced(apply, base, t, head, state, undo)
  }

  /** Ancestors of a validated block are validated, down to the root. */
  lemma {:induction false} ValidAncestors(t: Tree, x: BlockId, a: BlockId)
    requires WellFormed(t) && ParentsValid(t) && (x == t.root.id || x in t.valid) && Descends(t, x, a)
    ensures a == t.root.id || a in t.valid
    decreases x.num
  {
    if x != a { ValidAncestors(t, t.blocks[x].prev, a); }
  }

  lemma AddKeepsTree<S>(apply: (S, Block) -> Option<S>, base: S, t: Tree, b: Block)
    requires TreeOk(apply, base, t) && BlockOk(b) && b.lib <= b.num && Add(t, b, false, false).Ok?
    ensures var t' := Add(t, b, false, false).value;
      TreeOk(apply, base, t') && Within(t, t') && t'.blocks == t.blocks[b.id := b] && t'.valid == t.valid
  {
    hide First, Replay;
    AddKeepsInv(t, b, false, false);
    var t' := Add(t, b, false, false).value;
    forall id | id in t'.valid ensures Replay(apply, base, t', id).Some? {
      ReplayFrame(apply, base, t, t', id);
    }
  }

  lemma MarkKeepsTree<S>(apply: (S, Block) -> Option<S>, base: S, t: Tree, id: BlockId)
    requires TreeOk(apply, base, t) && Known(t, id)
    requires id in t.blocks ==> t.blocks[id].prev == t.root.id || t.blocks[id].prev in t.valid
    requires Replay(apply, base, t, id).Some?
    ensures MarkValid(t, id).Ok?
    ensures var t' := MarkValid(t, id).value;
      && TreeOk(apply, base, t') && t'.blocks == t.blocks && t'.root == t.root
      && t'.valid == (if id == t.root.id then t.valid else t.valid + {id})
      && (t'.head == t.head || t'.head.id in t'.blocks) && (t'.valid == t.valid ==> t'.head == t.head)
  {
    hide First, Replay, FirstPreferred, HeadOk, BlockOk;
    if id != t.root.id && id !in t.valid {
      MarkValidKeepsInv(t, id);
      var t' := MarkValid(t, id).value;
      FirstIsStored(t.blocks, t.valid + {id}, First(t.blocks, t.valid + {id}));
      hide MarkValid, IsFirst;
      forall x | x in t'.valid ensures Replay(apply, base, t', x).Some? {
        ReplayFrame(apply, base, t, t', x);
      }
    }
  }

  /** Removing a block that was rejected, with its descendants, touches nothing that was validated. */
  lemma RemoveKeepsTree<S>(apply: (S, Block) -> Option<S>, base: S, t: Tree, id: BlockId)
    requires TreeOk(apply, base, t) && id in t.blocks && id !in t.valid
    ensures Remove(t, id).Ok?
    ensures var t' := Remove(t, id).value;
      && TreeOk(apply, base, t') && Within(t', t) && t'.valid == t.valid && t'.head == t.head
      && forall x | Known(t, x) :: Known(t', x) <==> !Descends(t, x, id)
  {
    hide FirstPreferred, Replay;
    if Descends(t, t.head.id, id) { ValidAncestors(t, t.head.id, id); }
    RemoveKeepsInv(t, id);
    var t' := Remove(t, id).value;
    forall x | x in t.valid ensures x in t'.valid && Replay(apply, base, t', x).Some? {
      if Descends(t, x, id) { ValidAncestors(t, x, id); }
      ReplayFrame(apply, base, t', t, x);
    }
    assert t'.valid == t.valid;
  }

  /** Advancing the root along the head's branch keeps the node in step; the oldest undo entries go. */
  lemma AdvanceKeepsNode<S>(apply: (S, Block) -> Option<S>, base: S, t: Tree, head: Block, state: S, undo: seq<S>,
                            id: BlockId)
    requires NodeOk(apply, base, t, head, state, undo) && t.head == head && id in t.blocks && Descends(t, head.id, id)
    ensures AdvanceRoot(t, id).Ok? && Replay(apply, base, t, id).Some? && 0 <= id.num - t.root.num <= |undo|
    ensures var t', base' := AdvanceRoot(t, id).value, Replay(apply, base, t, id).value;
      && t'.root == t.blocks[id] && t'.head == head
      && NodeOk(apply, base', t', head, state, undo[id.num - t.root.num..])
  {
    hide Replay, Undoes, FirstPreferred;
    ValidAncestors(t, head.id, id);
    AdvanceRootKeepsInv(t, id);
    var t', base' := AdvanceRoot(t, id).value, Replay(apply, base, t, id).value;
    assert Advanced(t, id, t');
    AdvanceKeepsTree(apply, base, t, id, t', base');
    assert Known(t', head.id) && Get(t', head.id) == head;
    ReplayAdvanced(apply, base, t, id, t', base', head.id);
    UndoesAdvanced(apply, base, t, id, t', base', head.id, undo);
    ChainNumbers(t, id);
  }

  lemma AdvanceKeepsTree<S>(apply: (S, Block) -> Option<S>, base: S, t: Tree, id: BlockId, t': Tree, base': S)
    requires TreeOk(apply, base, t) && Inv(t') && id in t.blocks && Advanced(t, id, t')
    requires t'.valid <= t.valid && (forall x | x in t'.blocks :: x in t.valid <==> x in t'.valid)
    requires Replay(apply, base, t, id) == Some(base')
    ensures TreeOk(apply, base', t')
  {
    hide Replay, FirstPreferred, HeadOk;
    forall x | x in t'.valid ensures Replay(apply, base', t', x).Some? {
      ReplayAdvanced(apply, base, t, id, t', base', x);
    }
  }
}
