/**
 The tree of unconfirmed blocks as a value: what each operation of the fork database makes of it,
 and what every run of operations keeps.
 */
module ForkTree {
  import opened Results

  /** A block id carries the block's number next to its hash. */
  datatype BlockId = BlockId(num: nat, hash: nat)

  datatype Block = Block(id: BlockId, prev: BlockId, num: nat, lib: nat)

  /** What hashing a header guarantees: the id holds the number, which is one more than the parent's. */
  predicate BlockOk(b: Block)
  {
    b.num == b.id.num == b.prev.num + 1
  }

  datatype Tree = Tree(root: Block, blocks: map<BlockId, Block>, valid: set<BlockId>, head: Block)

  datatype ForkError =
    | Unlinkable
    | DuplicateBlock
    | NotInDatabase
    | NotValidated
    | WouldRemoveHead
    | OrphanedBranch
    | BlockNotFound
    | HeadNotFound
    | HeadNotRoot
    | HeadNotBest

  predicate Known(t: Tree, id: BlockId)
  {
    id == t.root.id || id in t.blocks
  }

  function Get(t: Tree, id: BlockId): Block
    requires Known(t, id)
  {
    if id == t.root.id then t.root else t.blocks[id]
  }

  /** Blocks are stored under their ids and point to lower numbers; some may be orphans. */
  predicate Linked(t: Tree)
  {
    forall id {:trigger t.blocks[id]} | id in t.blocks :: t.blocks[id].id == id && BlockOk(t.blocks[id])
  }

  /** Every stored block links to the root or to a stored block whose number is one less. */
  predicate WellFormed(t: Tree)
  {
    && Linked(t)
    && BlockOk(t.root) && t.root.id !in t.blocks
    && t.valid <= t.blocks.Keys
    && forall id {:trigger t.blocks[id].prev} | id in t.blocks :: Known(t, t.blocks[id].prev)
  }

  // ---- Preference ----

  predicate FirstPreferred(a: Block, b: Block)
  {
    a.lib > b.lib || (a.lib == b.lib && a.num > b.num)
  }

  predicate IdLess(a: BlockId, b: BlockId)
  {
    a.num < b.num || (a.num == b.num && a.hash < b.hash)
  }

  /** The order of the by_lib_block_num index. */
  predicate Before(valid: set<BlockId>, a: Block, b: Block)
  {
    if (a.id in valid) != (b.id in valid) then a.id in valid
    else if a.lib != b.lib then a.lib > b.lib
    else if a.num != b.num then a.num > b.num
    else IdLess(a.id, b.id)
  }

  /** `b` stands first among the blocks of `s` in index order. */
  ghost predicate IsFirst(s: map<BlockId, Block>, valid: set<BlockId>, b: Block)
  {
    b in s.Values && forall id | id in s :: s[id] == b || Before(valid, b, s[id])
  }

  lemma {:induction false} FirstExists(s: map<BlockId, Block>, valid: set<BlockId>)
    requires s != map[] && forall id | id in s :: s[id].id == id
    ensures exists b :: IsFirst(s, valid, b)
    decreases |s|
  {
    var id :| id in s;
    var rest := s - {id};
    assert s == rest[id := s[id]] && |rest| < |s|;
    if rest == map[] {
      assert IsFirst(s, valid, s[id]);
    } else {
      FirstExists(rest, valid);
      var b :| IsFirst(rest, valid, b);
      assert rest[b.id] == b;
      assert IsFirst(s, valid, if Before(valid, s[id], b) then s[id] else b);
    }
  }

  ghost function First(s: map<BlockId, Block>, valid: set<BlockId>): (b: Block)
    requires s != map[] && forall id | id in s :: s[id].id == id
    ensures IsFirst(s, valid, b)
  {
    FirstExists(s, valid);
    var b :| IsFirst(s, valid, b);
    b
  }

  lemma FirstIsUnique(s: map<BlockId, Block>, valid: set<BlockId>, a: Block, b: Block)
    requires forall id | id in s :: s[id].id == id
    requires IsFirst(s, valid, a) && IsFirst(s, valid, b)
    ensures a == b
  {
    assert s[a.id] == a && s[b.id] == b;
  }

  /** Of two blocks alike in flag, LIB and number the one with the smaller hash comes first. */
  lemma SmallerHashIsFirst(s: map<BlockId, Block>, valid: set<BlockId>, b: Block, id: BlockId)
    requires IsFirst(s, valid, b) && id in s && s[id].id == id && b.id.num == b.num && id.num == s[id].num
    requires (b.id in valid <==> id in valid) && s[id].lib == b.lib && s[id].num == b.num
    ensures s[id] == b || b.id.hash < id.hash
  {
  }

  // ---- Ancestry ----

  /** `anc` lies on the way from `id` to the root, both ends included. */
  predicate Descends(t: Tree, id: BlockId, anc: BlockId)
    requires Linked(t)
    decreases id.num
  {
    id == anc || (id in t.blocks && Descends(t, t.blocks[id].prev, anc))
  }

  /** The blocks from `id` down to just above the root, newest first. */
  function Chain(t: Tree, id: BlockId): (c: seq<Block>)
    requires WellFormed(t) && Known(t, id)
    ensures id != t.root.id ==> |c| > 0 && c[0] == t.blocks[id]
    decreases id.num
  {
    if id == t.root.id then [] else [t.blocks[id]] + Chain(t, t.blocks[id].prev)
  }

  /** Numbers along a chain step down by one to the block just above the root. */
  lemma {:induction false} ChainNumbers(t: Tree, id: BlockId)
    requires WellFormed(t) && Known(t, id)
    ensures var c := Chain(t, id);
      && |c| == id.num - t.root.num
      && forall i | 0 <= i < |c| :: c[i].num == id.num - i && c[i].id in t.blocks && t.blocks[c[i].id] == c[i]
    decreases id.num
  {
    if id != t.root.id { ChainNumbers(t, t.blocks[id].prev); }
  }

  /** The rest of a chain is the chain of the block it starts with. */
  lemma {:induction false} ChainSuffix(t: Tree, id: BlockId, i: nat)
    requires WellFormed(t) && Known(t, id) && i < |Chain(t, id)|
    ensures Chain(t, id)[i].id in t.blocks && Chain(t, id)[i..] == Chain(t, Chain(t, id)[i].id)
    decreases i
  {
    if i > 0 { ChainSuffix(t, t.blocks[id].prev, i - 1); }
  }

  predicate OnChain(c: seq<Block>, id: BlockId)
  {
    exists i | 0 <= i < |c| :: c[i].id == id
  }

  /** Every stored block descends from the root, and its ancestors are exactly the ids on its chain. */
  lemma {:induction false} DescendsIffOnChain(t: Tree, id: BlockId, anc: BlockId)
    requires WellFormed(t) && Known(t, id)
    ensures Descends(t, id, t.root.id)
    ensures Descends(t, id, anc) <==> anc == t.root.id || OnChain(Chain(t, id), anc)
    decreases id.num
  {
    if id != t.root.id {
      var c, r := Chain(t, id), Chain(t, t.blocks[id].prev);
      DescendsIffOnChain(t, t.blocks[id].prev, anc);
      assert c == [t.blocks[id]] + r;
      if OnChain(r, anc) {
        var i :| 0 <= i < |r| && r[i].id == anc;
        assert c[i + 1].id == anc;
      }
      if id == anc {
        assert c[0].id == anc;
      } else if OnChain(c, anc) {
        var i :| 0 <= i < |c| && c[i].id == anc;
        assert r[i - 1].id == anc;
      }
    }
  }

  lemma {:induction false} DescendsNumber(t: Tree, id: BlockId, anc: BlockId)
    requires Linked(t) && Descends(t, id, anc)
    ensures anc.num <= id.num && (anc.num == id.num ==> anc == id)
    decreases id.num
  {
    if id != anc { DescendsNumber(t, t.blocks[id].prev, anc); }
  }

  lemma {:induction false} DescendsTransitive(t: Tree, a: BlockId, b: BlockId, c: BlockId)
    requires Linked(t) && Descends(t, a, b) && Descends(t, b, c)
    ensures Descends(t, a, c)
    decreases a.num
  {
    if a != b { DescendsTransitive(t, t.blocks[a].prev, b, c); }
  }

  // ---- Operations ----

  function Reset(root: Block): Tree
  {
    Tree(root, map[], {}, root)
  }

  function RollbackHeadToRoot(t: Tree): Tree
  {
    t.(valid := {}, head := t.root)
  }

  ghost function Add(t: Tree, b: Block, validated: bool, ignoreDuplicate: bool): Result<Tree, ForkError>
    requires WellFormed(t)
  {
    if !Known(t, b.prev) then Err(Unlinkable)
    else if b.id in t.blocks then (if ignoreDuplicate then Ok(t) else Err(DuplicateBlock))
    else
      var blocks := t.blocks[b.id := b];
      var valid := if validated then t.valid + {b.id} else t.valid;
      assert b.id in blocks;
      var candidate := First(blocks, valid);
      Ok(Tree(t.root, blocks, valid, if candidate.id in valid then candidate else t.head))
  }

  ghost function MarkValid(t: Tree, id: BlockId): Result<Tree, ForkError>
    requires WellFormed(t)
  {
    if id == t.root.id || id in t.valid then Ok(t)
    else if id !in t.blocks then Err(NotInDatabase)
    else
      var valid := t.valid + {id};
      var candidate := First(t.blocks, valid);
      Ok(t.(valid := valid, head := if FirstPreferred(candidate, t.head) then candidate else t.head))
  }

  /** Keeps the blocks whose ids are in `keep`. */
  function Restrict(t: Tree, keep: set<BlockId>): Tree
  {
    t.(blocks := map x | x in t.blocks && x in keep :: t.blocks[x], valid := t.valid * keep)
  }

  /** The stored blocks that `id` is an ancestor of, `id` itself included. */
  function Subtree(t: Tree, id: BlockId): set<BlockId>
    requires Linked(t)
  {
    set x | x in t.blocks && Descends(t, x, id)
  }

  function Remove(t: Tree, id: BlockId): Result<Tree, ForkError>
    requires Linked(t)
  {
    if Descends(t, t.head.id, id) then Err(WouldRemoveHead)
    else Ok(Restrict(t, t.blocks.Keys - Subtree(t, id)))
  }

  function AdvanceRoot(t: Tree, id: BlockId): Result<Tree, ForkError>
    requires WellFormed(t)
  {
    if id !in t.blocks then Err(NotInDatabase)
    else if id !in t.valid then Err(NotValidated)
    else if !Descends(t, t.head.id, id) then Err(WouldRemoveHead)
    else Ok(Restrict(t, Subtree(t, id) - {id}).(root := t.blocks[id]))
  }

  /** What is left once `id` and every block under `low` but not under `id` are gone. */
  function Keep(t: Tree, id: BlockId, low: BlockId): set<BlockId>
    requires Linked(t)
  {
    (Subtree(t, id) - {id}) + (t.blocks.Keys - Subtree(t, low))
  }

  /** The last ancestor of `low`, itself included, that the head does not descend from. */
  function StopAt(t: Tree, low: BlockId): BlockId
    requires WellFormed(t) && low in t.blocks
    decreases low.num
  {
    var a := t.blocks[low].prev;
    if a == t.root.id || Descends(t, t.head.id, a) then low else StopAt(t, a)
  }

  /**
   What a failed advance of the root leaves behind, when the head lies outside the subtree of `id`: the block itself is
   gone, and so are its ancestors, with everything on them, up to where the head's branch parts.
   */
  function HalfAdvanced(t: Tree, id: BlockId): Tree
    requires WellFormed(t) && id in t.blocks
  {
    Restrict(t, Keep(t, id, StopAt(t, id)))
  }

  function Unvalidated(t: Tree): map<BlockId, Block>
  {
    map id | id in t.blocks && id !in t.valid :: t.blocks[id]
  }

  ghost function PendingHead(t: Tree): Block
    requires WellFormed(t)
  {
    var rest := Unvalidated(t);
    if rest == map[] then t.head
    else
      var candidate := First(rest, t.valid);
      if FirstPreferred(candidate, t.head) then candidate else t.head
  }

  // ---- What every operation keeps ----

  /** The head is the root or a stored validated block, and no validated block is strictly preferred. */
  predicate HeadOk(t: Tree)
  {
    && (t.head == t.root || (t.head.id in t.valid && t.head.id in t.blocks && t.blocks[t.head.id] == t.head))
    && forall id | id in t.valid && id in t.blocks :: !FirstPreferred(t.blocks[id], t.head)
  }

  predicate Inv(t: Tree)
  {
    WellFormed(t) && HeadOk(t)
  }

  lemma FirstIsBestValid(s: map<BlockId, Block>, valid: set<BlockId>, b: Block)
    requires IsFirst(s, valid, b)
    ensures (exists id :: id in s && s[id].id in valid) ==> b.id in valid
    ensures forall id | id in s && (b.id !in valid || s[id].id in valid) :: !FirstPreferred(s[id], b)
  {
  }

  lemma AddKeepsWellFormed(t: Tree, b: Block, valid: set<BlockId>, head: Block)
    requires WellFormed(t) && BlockOk(b) && Known(t, b.prev) && valid <= t.blocks.Keys + {b.id}
    ensures WellFormed(Tree(t.root, t.blocks[b.id := b], valid, head))
  {
    ChainNumbers(t, b.prev);
  }

  lemma AddKeepsInv(t: Tree, b: Block, validated: bool, ignoreDuplicate: bool)
    requires Inv(t) && BlockOk(b)
    ensures Add(t, b, validated, ignoreDuplicate).Ok? ==> Inv(Add(t, b, validated, ignoreDuplicate).value)
  {
    if Known(t, b.prev) && b.id !in t.blocks {
      var blocks := t.blocks[b.id := b];
      var valid := if validated then t.valid + {b.id} else t.valid;
      assert b.id in blocks;
      hide First, IsFirst, FirstPreferred;
      var c := First(blocks, valid);
      FirstIsBestValid(blocks, valid, c);
      FirstIsStored(blocks, valid, c);
      AddKeepsWellFormed(t, b, valid, if c.id in valid then c else t.head);
      assert forall id | id in blocks :: blocks[id].id == id;
      hide WellFormed;
      if c.id !in valid {
        assert forall id | id in blocks :: blocks[id].id !in valid;
      }
    }
  }

  lemma FirstIsStored(s: map<BlockId, Block>, valid: set<BlockId>, b: Block)
    requires IsFirst(s, valid, b) && forall id | id in s :: s[id].id == id
    ensures b.id in s && s[b.id] == b
  {
  }

  lemma MarkValidKeepsInv(t: Tree, id: BlockId)
    requires Inv(t)
    ensures MarkValid(t, id).Ok? ==> Inv(MarkValid(t, id).value)
  {
    if id in t.blocks {
      var valid := t.valid + {id};
      hide First, IsFirst;
      var c := First(t.blocks, valid);
      FirstIsBestValid(t.blocks, valid, c);
      FirstIsStored(t.blocks, valid, c);
      assert t.blocks[id].id in valid && c.id in valid;
      assert WellFormed(t.(valid := valid, head := if FirstPreferred(c, t.head) then c else t.head));
      assert forall x | x in t.blocks :: t.blocks[x].id == x;
      hide WellFormed;
    }
  }

  lemma RemoveKeepsInv(t: Tree, id: BlockId)
    requires Inv(t)
    ensures Remove(t, id).Ok? ==> Inv(Remove(t, id).value)
  {
    hide FirstPreferred;
  }

  lemma AdvanceRootKeepsInv(t: Tree, id: BlockId)
    requires Inv(t)
    ensures AdvanceRoot(t, id).Ok? ==> Inv(AdvanceRoot(t, id).value)
  {
    hide FirstPreferred;
    if AdvanceRoot(t, id).Ok? {
      var t' := AdvanceRoot(t, id).value;
      forall x | x in t'.blocks ensures Known(t', t'.blocks[x].prev) {
        assert Descends(t, t.blocks[x].prev, id);
      }
      assert t.head.id == id ==> t.head == t'.root;
    }
  }

  ghost predicate HasChild(t: Tree, id: BlockId)
  {
    exists x :: x in t.blocks && t.blocks[x].prev == id
  }

  lemma {:induction false} DescendantHasChild(t: Tree, x: BlockId, id: BlockId)
    requires Linked(t) && Descends(t, x, id) && x != id
    ensures HasChild(t, id)
    decreases x.num
  {
    if t.blocks[x].prev != id { DescendantHasChild(t, t.blocks[x].prev, id); }
  }

  lemma {:induction false} StopAtIs(t: Tree, low: BlockId)
    requires WellFormed(t) && low in t.blocks
    ensures StopAt(t, low) in t.blocks && Descends(t, low, StopAt(t, low))
    ensures !Descends(t, t.head.id, low) ==> !Descends(t, t.head.id, StopAt(t, low))
    decreases low.num
  {
    var a := t.blocks[low].prev;
    if a != t.root.id && !Descends(t, t.head.id, a) { StopAtIs(t, a); }
  }

  lemma ChildIsOrphaned(t: Tree, id: BlockId, x: BlockId)
    requires Inv(t) && id in t.blocks && x in t.blocks && t.blocks[x].prev == id
    ensures !WellFormed(HalfAdvanced(t, id))
  {
    hide FirstPreferred, StopAt, HeadOk;
    var t' := HalfAdvanced(t, id);
    StopAtIs(t, id);
    assert Descends(t, x, id);
    assert x in t'.blocks && t'.blocks[x].prev == id && id !in t'.blocks;
  }

  lemma ChildlessKeepsInv(t: Tree, id: BlockId, low: BlockId)
    requires Inv(t) && id in t.blocks && low in t.blocks && Descends(t, id, low) && !Descends(t, t.head.id, low)
    requires !HasChild(t, id)
    ensures Inv(Restrict(t, Keep(t, id, low)))
  {
    hide FirstPreferred, HasChild;
    var t' := Restrict(t, Keep(t, id, low));
    forall x | x in t'.blocks ensures !Descends(t, x, low) {
      if x != id && Descends(t, x, id) { DescendantHasChild(t, x, id); }
    }
    forall x | x in t'.blocks ensures Known(t', t'.blocks[x].prev) {
      assert !Descends(t, t.blocks[x].prev, low);
    }
  }

  /** A failed advance keeps the invariant exactly when the block has no child, which would be left an orphan. */
  lemma HalfAdvancedKeepsInvExactly(t: Tree, id: BlockId)
    requires Inv(t) && id in t.blocks && !Descends(t, t.head.id, id)
    ensures Inv(HalfAdvanced(t, id)) <==> !HasChild(t, id)
  {
    if HasChild(t, id) {
      var x :| x in t.blocks && t.blocks[x].prev == id;
      hide WellFormed, HeadOk, Restrict, Keep, StopAt;
      ChildIsOrphaned(t, id, x);
    } else {
      hide Inv, Restrict, Keep, StopAt, Descends;
      StopAtIs(t, id);
      ChildlessKeepsInv(t, id, StopAt(t, id));
    }
  }

  /** Of equal LIB and number, so that neither is preferred. */
  predicate Alike(a: Block, b: Block)
  {
    a.lib == b.lib && a.num == b.num
  }

  /** Adding a block makes the head, if anything is validated, the one with the smallest hash of its likes. */
  lemma AddedHeadHasSmallestHash(t: Tree, b: Block, validated: bool, id: BlockId)
    requires Inv(t) && BlockOk(b) && b.id !in t.blocks && Add(t, b, validated, false).Ok?
    requires var t' := Add(t, b, validated, false).value;
      id in t'.valid && id in t'.blocks && Alike(t'.blocks[id], t'.head)
    ensures var head := Add(t, b, validated, false).value.head; head.id == id || head.id.hash < id.hash
  {
    hide First;
    AddKeepsInv(t, b, validated, false);
    var t' := Add(t, b, validated, false).value;
    var c := First(t'.blocks, t'.valid);
    FirstIsBestValid(t'.blocks, t'.valid, c);
    FirstIsStored(t'.blocks, t'.valid, c);
    assert t'.blocks[id].id == id && c.id in t'.valid && t'.head == c;
    SmallerHashIsFirst(t'.blocks, t'.valid, c, id);
  }

  /** No stored block at all is strictly preferred over the pending head. */
  lemma PendingHeadIsBest(t: Tree)
    requires Inv(t)
    ensures forall id | id in t.blocks :: !FirstPreferred(t.blocks[id], PendingHead(t))
    ensures PendingHead(t) == t.head ||
      (PendingHead(t).id in t.blocks && t.blocks[PendingHead(t).id] == PendingHead(t) && PendingHead(t).id !in t.valid)
    ensures PendingHead(t) == t.head || FirstPreferred(PendingHead(t), t.head)
    ensures PendingHead(t) != t.head ==> forall id | id in t.blocks && id !in t.valid ::
      Alike(t.blocks[id], PendingHead(t)) ==> id == PendingHead(t).id || PendingHead(t).id.hash < id.hash
  {
    var rest := Unvalidated(t);
    if rest != map[] {
      hide First, IsFirst;
      forall id | id in rest && Alike(rest[id], First(rest, t.valid))
        ensures id == First(rest, t.valid).id || First(rest, t.valid).id.hash < id.hash
      {
        FirstIsStored(rest, t.valid, First(rest, t.valid));
        SmallerHashIsFirst(rest, t.valid, First(rest, t.valid), id);
      }
      FirstIsBestValid(rest, t.valid, First(rest, t.valid));
      FirstIsStored(rest, t.valid, First(rest, t.valid));
      forall id | id in t.blocks ensures !FirstPreferred(t.blocks[id], PendingHead(t)) {
        if id !in t.valid { assert id in rest; }
      }
    } else {
      assert forall id | id in t.blocks :: id !in t.valid ==> id in rest;
    }
  }

  // ---- Whole runs ----

  datatype Op =
    | OpReset(root: Block)
    | OpAdd(b: Block, validated: bool, ignoreDuplicate: bool)
    | OpMarkValid(id: BlockId)
    | OpRemove(id: BlockId)
    | OpRollback
    | OpAdvanceRoot(id: BlockId)

  predicate OpOk(op: Op)
  {
    match op
    case OpReset(root) => BlockOk(root)
    case OpAdd(b, _, _) => BlockOk(b)
    case _ => true
  }

  function OrElse(t: Tree, r: Result<Tree, ForkError>): Tree
  {
    if r.Ok? then r.value else t
  }

  /** Advancing the root to `id` throws half way. */
  predicate StopsHalfWay(t: Tree, id: BlockId)
    requires WellFormed(t)
  {
    id in t.blocks && id in t.valid && !Descends(t, t.head.id, id)
  }

  ghost function Perform(t: Tree, op: Op): Tree
    requires WellFormed(t)
  {
    match op
    case OpReset(root) => Reset(root)
    case OpAdd(b, validated, ignoreDuplicate) => OrElse(t, Add(t, b, validated, ignoreDuplicate))
    case OpMarkValid(id) => OrElse(t, MarkValid(t, id))
    case OpRemove(id) => OrElse(t, Remove(t, id))
    case OpRollback => RollbackHeadToRoot(t)
    case OpAdvanceRoot(id) => if StopsHalfWay(t, id) then HalfAdvanced(t, id) else OrElse(t, AdvanceRoot(t, id))
  }

  /** No root is advanced half way to a block that has children. */
  ghost predicate Safe(t: Tree, op: Op)
    requires WellFormed(t)
  {
    op.OpAdvanceRoot? && StopsHalfWay(t, op.id) ==> !HasChild(t, op.id)
  }

  lemma PerformKeepsInvExactly(t: Tree, op: Op)
    requires Inv(t) && OpOk(op)
    ensures Inv(Perform(t, op)) <==> Safe(t, op)
  {
    match op
    case OpReset(root) =>
    case OpAdd(b, validated, ignoreDuplicate) =>
      hide Inv;
      AddKeepsInv(t, b, validated, ignoreDuplicate);
    case OpMarkValid(id) =>
      hide Inv;
      MarkValidKeepsInv(t, id);
    case OpRemove(id) =>
      hide Inv;
      RemoveKeepsInv(t, id);
    case OpRollback =>
    case OpAdvanceRoot(id) =>
      hide Inv, HasChild, HalfAdvanced;
      if StopsHalfWay(t, id) { HalfAdvancedKeepsInvExactly(t, id); }
      AdvanceRootKeepsInv(t, id);
  }

  /**
   The trees of a run, each made from the one before by an operation of the database; what follows a tree that is not
   well formed is left open.
   */
  ghost predicate IsRun(ts: seq<Tree>, ops: seq<Op>)
  {
    && |ts| == |ops| + 1
    && forall i | 0 <= i < |ops| :: OpOk(ops[i]) && (WellFormed(ts[i]) ==> ts[i + 1] == Perform(ts[i], ops[i]))
  }

  /** The operations before the `n`-th were safe. */
  ghost predicate SafeUntil(ts: seq<Tree>, ops: seq<Op>, n: nat)
    requires IsRun(ts, ops) && n < |ts|
  {
    forall i | 0 <= i < n :: WellFormed(ts[i]) ==> Safe(ts[i], ops[i])
  }

  /**
   The fork tree invariant over all runs: it holds as long as every operation is safe, and the first unsafe one breaks
   it.
   */
  lemma {:induction false} RunKeepsInv(ts: seq<Tree>, ops: seq<Op>, n: nat)
    requires IsRun(ts, ops) && Inv(ts[0]) && n < |ts| && SafeUntil(ts, ops, n)
    ensures Inv(ts[n])
    ensures forall id | id in ts[n].blocks :: !FirstPreferred(ts[n].blocks[id], PendingHead(ts[n]))
    ensures forall id | id in ts[n].blocks :: Descends(ts[n], id, ts[n].root.id)
    ensures n < |ops| ==> (Inv(ts[n + 1]) <==> Safe(ts[n], ops[n]))
  {
    hide Perform, HeadOk, Descends, PendingHead, Safe;
    if n > 0 { RunKeepsInv(ts, ops, n - 1); }
    if n < |ops| { PerformKeepsInvExactly(ts[n], ops[n]); }
    PendingHeadIsBest(ts[n]);
    forall id | id in ts[n].blocks ensures Descends(ts[n], id, ts[n].root.id) {
      DescendsIffOnChain(ts[n], id, id);
    }
  }

  /** What the operations make of `t`, one after the other; None if one would meet a tree that is not well formed. */
  ghost function PerformAll(t: Tree, ops: seq<Op>): Option<Tree>
  {
    if ops == [] then Some(t)
    else
      var before := PerformAll(t, ops[..|ops| - 1]);
      if before.None? || !WellFormed(before.value) || !OpOk(ops[|ops| - 1]) then None
      else Some(Perform(before.value, ops[|ops| - 1]))
  }

  lemma PerformNext(t: Tree, ops: seq<Op>, t': Tree, op: Op, t'': Tree)
    requires PerformAll(t, ops) == Some(t') && WellFormed(t') && OpOk(op) && Perform(t', op) == t''
    ensures PerformAll(t, ops + [op]) == Some(t'')
  {
    hide Perform, WellFormed, OpOk;
    assert (ops + [op])[..|ops|] == ops;
  }

  /** Such operations make a run of well-formed trees. */
  lemma {:induction false} PerformAllIsRun(t: Tree, ops: seq<Op>) returns (ts: seq<Tree>)
    requires PerformAll(t, ops).Some?
    ensures IsRun(ts, ops) && ts[0] == t && ts[|ops|] == PerformAll(t, ops).value
    ensures forall i | 0 <= i < |ops| :: WellFormed(ts[i])
    decreases |ops|
  {
    hide Perform, WellFormed, OpOk;
    if ops == [] {
      ts := [t];
    } else {
      var front := PerformAllIsRun(t, ops[..|ops| - 1]);
      ts := front + [PerformAll(t, ops).value];
    }
  }

  // ---- Where the head goes ----

  /** A block stored unvalidated leaves the head where it is, if that is preferred over every other validated block. */
  lemma StoreKeepsHead(t: Tree, b: Block)
    requires Inv(t) && BlockOk(b) && Known(t, b.prev) && b.id !in t.blocks && (t.valid == {} || t.head.id in t.valid)
    requires forall id | id in t.valid :: t.blocks[id] == t.head || FirstPreferred(t.head, t.blocks[id])
    ensures Perform(t, OpAdd(b, false, false)) == t.(blocks := t.blocks[b.id := b])
  {
    var blocks := t.blocks[b.id := b];
    assert b.id in blocks;
    hide First;
    if t.valid != {} {
      assert blocks[t.head.id] == t.head;
      FirstIsUnique(blocks, t.valid, t.head, First(blocks, t.valid));
    }
  }

  /** A block that is preferred over the head becomes the head when it is validated. */
  lemma ValidateMakesHead(t: Tree, id: BlockId)
    requires Inv(t) && id in t.blocks && id !in t.valid && FirstPreferred(t.blocks[id], t.head)
    ensures Perform(t, OpMarkValid(id)) == t.(valid := t.valid + {id}, head := t.blocks[id])
  {
    hide First;
    var valid := t.valid + {id};
    assert t.blocks[id] in t.blocks.Values;
    FirstIsUnique(t.blocks, valid, t.blocks[id], First(t.blocks, valid));
  }

  /** A block that is not preferred over the head leaves it where it is when it is validated. */
  lemma ValidateKeepsHead(t: Tree, id: BlockId)
    requires Inv(t) && id in t.blocks && id !in t.valid && !FirstPreferred(t.blocks[id], t.head)
    ensures Perform(t, OpMarkValid(id)) == t.(valid := t.valid + {id})
  {
    hide First;
    var c := First(t.blocks, t.valid + {id});
    FirstIsBestValid(t.blocks, t.valid + {id}, c);
    FirstIsStored(t.blocks, t.valid + {id}, c);
    assert t.blocks[id].id in t.valid + {id};
  }

  // ---- Rolling back and validating again ----

  /** The rollback keeps every block where it is. */
  lemma {:induction false} RollbackKeepsAncestry(t: Tree, x: BlockId, a: BlockId)
    requires WellFormed(t)
    ensures var t' := RollbackHeadToRoot(t);
      && WellFormed(t') && (Known(t', x) <==> Known(t, x)) && (Descends(t', x, a) <==> Descends(t, x, a))
      && (Known(t, x) ==> Get(t', x) == Get(t, x) && Chain(t', x) == Chain(t, x))
    decreases x.num
  {
    if x in t.blocks { RollbackKeepsAncestry(t, t.blocks[x].prev, a); }
  }

  /** Validates the blocks of a branch, oldest first. */
  function MarkOps(c: seq<Block>): seq<Op>
  {
    if c == [] then [] else MarkOps(c[1..]) + [OpMarkValid(c[0].id)]
  }

  function BlockIds(c: seq<Block>): set<BlockId>
  {
    set b | b in c :: b.id
  }

  /** The most preferred of the root and the blocks up to `id`. */
  function BestUpTo(t: Tree, id: BlockId): Block
    requires WellFormed(t) && Known(t, id)
    decreases id.num
  {
    if id == t.root.id then t.root
    else
      var below := BestUpTo(t, t.blocks[id].prev);
      if FirstPreferred(t.blocks[id], below) then t.blocks[id] else below
  }

  function Remarked(t: Tree, id: BlockId): Tree
    requires WellFormed(t) && Known(t, id)
  {
    Tree(t.root, t.blocks, BlockIds(Chain(t, id)), BestUpTo(t, id))
  }

  lemma {:induction false} BestIsOnChain(t: Tree, id: BlockId)
    requires WellFormed(t) && Known(t, id)
    ensures var best := BestUpTo(t, id);
      && (best == t.root || (OnChain(Chain(t, id), best.id) && best.id in t.blocks && t.blocks[best.id] == best))
      && !FirstPreferred(t.root, best)
      && forall i | 0 <= i < |Chain(t, id)| :: !FirstPreferred(Chain(t, id)[i], best)
    decreases id.num
  {
    if id != t.root.id {
      var prev, c := t.blocks[id].prev, Chain(t, id);
      BestIsOnChain(t, prev);
      assert c == [t.blocks[id]] + Chain(t, prev);
      assert c[0].id == id;
      assert OnChain(c, id);
      if i :| 0 <= i < |Chain(t, prev)| && Chain(t, prev)[i].id == BestUpTo(t, prev).id {
        assert c[i + 1].id == BestUpTo(t, prev).id;
      }
    }
  }

  lemma RemarkedInv(t: Tree, id: BlockId)
    requires WellFormed(t) && Known(t, id)
    ensures Inv(Remarked(t, id))
  {
    hide FirstPreferred;
    var c := Chain(t, id);
    ChainNumbers(t, id);
    BestIsOnChain(t, id);
    hide Chain, BestUpTo;
    forall x | x in BlockIds(c) ensures x in t.blocks && !FirstPreferred(t.blocks[x], BestUpTo(t, id)) {
      var b :| b in c && b.id == x;
      var i :| 0 <= i < |c| && c[i] == b;
    }
  }

  /** Validating a branch again after a rollback validates exactly its blocks and makes the most preferred the head. */
  lemma {:induction false} BranchIsRemarked(t: Tree, id: BlockId)
    requires WellFormed(t) && Known(t, id)
    ensures PerformAll(RollbackHeadToRoot(t), MarkOps(Chain(t, id))) == Some(Remarked(t, id))
    decreases id.num
  {
    hide Perform, PerformAll, FirstPreferred;
    var t' := RollbackHeadToRoot(t);
    if id == t.root.id {
      assert BlockIds([]) == {};
      PerformNothing(t');
    } else {
      var prev, c := t.blocks[id].prev, Chain(t, id);
      BranchIsRemarked(t, prev);
      assert c[1..] == Chain(t, prev) && c[0].id == id;
      RemarkedNext(t, id);
      RemarkedInv(t, prev);
      PerformNext(t', MarkOps(c[1..]), Remarked(t, prev), OpMarkValid(id), Remarked(t, id));
    }
  }

  lemma RemarkedNext(t: Tree, id: BlockId)
    requires WellFormed(t) && id in t.blocks
    ensures var prev := t.blocks[id].prev;
      && Known(t, prev) && WellFormed(Remarked(t, prev))
      && Perform(Remarked(t, prev), OpMarkValid(id)) == Remarked(t, id)
  {
    hide Perform, FirstPreferred;
    var prev, c := t.blocks[id].prev, Chain(t, id);
    var s := Remarked(t, prev);
    ChainNumbers(t, prev);
    RemarkedInv(t, prev);
    assert c == [t.blocks[id]] + Chain(t, prev);
    assert BlockIds(c) == BlockIds(Chain(t, prev)) + {id};
    assert id !in s.valid;
    if FirstPreferred(t.blocks[id], s.head) {
      ValidateMakesHead(s, id);
    } else {
      ValidateKeepsHead(s, id);
    }
  }

  /**
   After a rollback, validating the old head's branch again, oldest first, brings back the old flags on that branch and,
   if and only if the old head was the root or preferred over it, the old head.
   */
  lemma RollbackIsUndone(t: Tree)
    requires Inv(t) && BlockIds(Chain(t, t.head.id)) <= t.valid
    ensures var r := PerformAll(RollbackHeadToRoot(t), MarkOps(Chain(t, t.head.id)));
      && r.Some? && r.value.root == t.root && r.value.blocks == t.blocks
      && r.value.valid == t.valid * BlockIds(Chain(t, t.head.id))
      && (r.value.head == t.head <==> t.head == t.root || FirstPreferred(t.head, t.root))
      && (r.value.head == t.head || r.value.head == t.root)
  {
    hide PerformAll, Chain;
    BranchIsRemarked(t, t.head.id);
    assert t.valid * BlockIds(Chain(t, t.head.id)) == BlockIds(Chain(t, t.head.id));
    BestIsOldHead(t);
  }

  lemma BestIsOldHead(t: Tree)
    requires Inv(t) && BlockIds(Chain(t, t.head.id)) <= t.valid
    ensures BestUpTo(t, t.head.id) == if FirstPreferred(t.head, t.root) then t.head else t.root
  {
    hide BestUpTo, Chain;
    var best, c := BestUpTo(t, t.head.id), Chain(t, t.head.id);
    BestIsOnChain(t, t.head.id);
    ChainNumbers(t, t.head.id);
    if t.head != t.root { HeadIsOnChain(t); }
    if best != t.root {
      var i :| 0 <= i < |c| && c[i].id == best.id;
      assert c[i] in c && c[i].id in BlockIds(c);
      assert c[i] == best && !FirstPreferred(best, t.head);
    }
  }

  lemma HeadIsOnChain(t: Tree)
    requires Inv(t) && t.head != t.root
    ensures |Chain(t, t.head.id)| > 0 && Chain(t, t.head.id)[0] == t.head
  {
  }

  // ---- A failed advance that leaves an orphan ----

  /** Two branches on the root: a validated block with a child, and the head. */
  function Forked(): Tree
  {
    var root := Block(BlockId(1, 0), BlockId(0, 0), 1, 0);
    var a := Block(BlockId(2, 0), root.id, 2, 0);
    var child := Block(BlockId(3, 0), a.id, 3, 0);
    var head := Block(BlockId(2, 1), root.id, 2, 1);
    Tree(root, map[a.id := a, child.id := child, head.id := head], {a.id, head.id}, head)
  }

  /** Both branches are stored, and the head's overtakes a block that already has a child. */
  function ForkedOps(): seq<Op>
  {
    var t := Forked();
    [OpAdd(t.blocks[BlockId(2, 0)], false, false), OpMarkValid(BlockId(2, 0)),
     OpAdd(t.blocks[BlockId(3, 0)], false, false), OpAdd(t.head, false, false), OpMarkValid(t.head.id)]
  }

  /** The trees on the way. */
  function ForkedAt(n: nat): Tree
    requires 1 <= n <= 4
  {
    var root, bs := Forked().root, Forked().blocks;
    var a, child := BlockId(2, 0), BlockId(3, 0);
    match n
    case 1 => Tree(root, map[a := bs[a]], {}, root)
    case 2 => Tree(root, map[a := bs[a]], {a}, bs[a])
    case 3 => Tree(root, map[a := bs[a], child := bs[child]], {a}, bs[a])
    case 4 => Tree(root, bs, {a}, bs[a])
  }

  lemma ForkedFirst()
    ensures Perform(Reset(Forked().root), ForkedOps()[0]) == ForkedAt(1) && WellFormed(ForkedAt(1))
    ensures Perform(ForkedAt(1), ForkedOps()[1]) == ForkedAt(2) && WellFormed(ForkedAt(2))
  {
    hide Perform;
    StoreKeepsHead(Reset(Forked().root), Forked().blocks[BlockId(2, 0)]);
    ValidateMakesHead(ForkedAt(1), BlockId(2, 0));
  }

  lemma ForkedLast()
    ensures WellFormed(ForkedAt(2)) && Perform(ForkedAt(2), ForkedOps()[2]) == ForkedAt(3) && WellFormed(ForkedAt(3))
    ensures Perform(ForkedAt(3), ForkedOps()[3]) == ForkedAt(4) && WellFormed(ForkedAt(4))
    ensures Perform(ForkedAt(4), ForkedOps()[4]) == Forked() && Inv(Forked())
  {
    hide Perform;
    StoreKeepsHead(ForkedAt(2), Forked().blocks[BlockId(3, 0)]);
    StoreKeepsHead(ForkedAt(3), Forked().head);
    ValidateMakesHead(ForkedAt(4), Forked().head.id);
  }

  lemma ForkedIsReached()
    ensures PerformAll(Reset(Forked().root), ForkedOps()) == Some(Forked()) && Inv(Forked())
  {
    hide Perform, PerformAll;
    var ops, t0 := ForkedOps(), Reset(Forked().root);
    PerformNothing(t0);
    ForkedFirst();
    PerformNext(t0, [], t0, ops[0], ForkedAt(1));
    PerformNext(t0, [] + [ops[0]], ForkedAt(1), ops[1], ForkedAt(2));
    ForkedLast();
    PerformNext(t0, [] + [ops[0]] + [ops[1]], ForkedAt(2), ops[2], ForkedAt(3));
    PerformNext(t0, [] + [ops[0]] + [ops[1]] + [ops[2]], ForkedAt(3), ops[3], ForkedAt(4));
    PerformNext(t0, [] + [ops[0]] + [ops[1]] + [ops[2]] + [ops[3]], ForkedAt(4), ops[4], Forked());
    assert [] + [ops[0]] + [ops[1]] + [ops[2]] + [ops[3]] + [ops[4]] == ops;
  }

  lemma PerformNothing(t: Tree)
    ensures PerformAll(t, []) == Some(t)
  {
  }

  /** The failed advance that follows leaves an orphan. */
  lemma FailedAdvanceLeavesOrphan()
    ensures PerformAll(Reset(Forked().root), ForkedOps()) == Some(Forked()) && Inv(Forked())
    ensures AdvanceRoot(Forked(), BlockId(2, 0)) == Err(WouldRemoveHead)
    ensures !Inv(Perform(Forked(), OpAdvanceRoot(BlockId(2, 0))))
  {
    hide PerformAll;
    ForkedIsReached();
    var t, id := Forked(), BlockId(2, 0);
    assert !Descends(t, t.root.id, id) && !Descends(t, t.head.id, id);
    assert HasChild(t, id) by { assert t.blocks[BlockId(3, 0)].prev == id; }
    PerformKeepsInvExactly(t, OpAdvanceRoot(id));
  }
}
