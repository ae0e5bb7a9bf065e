/** Saving the fork database on close and rebuilding it on open. */
module ForkDatabaseFile {
  import opened Results
  import T = ForkTree
  import opened ForkTree
  import opened ForkDatabase

  datatype Entry = Entry(block: Block, validated: bool)

  datatype Saved = Saved(root: Block, entries: seq<Entry>, headId: BlockId)

  /** Least preferred first. */
  predicate Ascending(es: seq<Entry>)
  {
    forall i, j | 0 <= i < j < |es| :: !FirstPreferred(es[i].block, es[j].block)
  }

  predicate DistinctIds(es: seq<Entry>)
  {
    forall i, j | 0 <= i < j < |es| :: es[i].block.id != es[j].block.id
  }

  /** The entries are the stored blocks with their flags, each once. */
  predicate Lists(t: Tree, es: seq<Entry>)
  {
    && DistinctIds(es)
    && (forall e | e in es ::
          e.block.id in t.blocks && t.blocks[e.block.id] == e.block && (e.validated <==> e.block.id in t.valid))
    && (forall id | id in t.blocks :: Entry(t.blocks[id], id in t.valid) in es)
  }

  predicate IsSave(t: Tree, f: Saved)
  {
    f.root == t.root && f.headId == t.head.id && Lists(t, f.entries) && Ascending(f.entries)
  }

  // ---- Writing ----

  /** The by_lib_block_num index read from begin to end. */
  predicate IsIndex(t: Tree, s: seq<Block>)
  {
    && (forall i, j | 0 <= i < j < |s| :: Before(t.valid, s[i], s[j]))
    && (forall i | 0 <= i < |s| :: s[i].id in t.blocks && t.blocks[s[i].id] == s[i])
    && (forall id | id in t.blocks :: t.blocks[id] in s)
  }

  /** Every block has been read or is still to come. */
  predicate AllRead(t: Tree, s: seq<Block>, rest: map<BlockId, Block>)
  {
    forall id | id in t.blocks :: id in rest || t.blocks[id] in s
  }

  /** `s` has been read from the index and `rest` is still to come. */
  ghost predicate Reading(t: Tree, s: seq<Block>, rest: map<BlockId, Block>)
  {
    && (forall id | id in rest :: id in t.blocks && rest[id] == t.blocks[id])
    && (forall i, j | 0 <= i < j < |s| :: Before(t.valid, s[i], s[j]))
    && (forall i | 0 <= i < |s| :: s[i].id in t.blocks && t.blocks[s[i].id] == s[i])
    && (forall i, id | 0 <= i < |s| && id in rest :: Before(t.valid, s[i], rest[id]))
    && AllRead(t, s, rest)
  }

  lemma AllReadNext(t: Tree, s: seq<Block>, rest: map<BlockId, Block>, b: Block)
    requires AllRead(t, s, rest) && b.id in t.blocks && t.blocks[b.id] == b
    ensures AllRead(t, s + [b], rest - {b.id})
  {
    var s' := s + [b];
    assert s'[|s|] == b;
    forall id | id in t.blocks && id !in rest ensures t.blocks[id] in s' {
      var i :| 0 <= i < |s| && s[i] == t.blocks[id];
      assert s'[i] == t.blocks[id];
    }
  }

  lemma ReadNext(t: Tree, s: seq<Block>, rest: map<BlockId, Block>, b: Block)
    requires WellFormed(t) && Reading(t, s, rest) && IsFirst(rest, t.valid, b)
    ensures b.id in rest && Reading(t, s + [b], rest - {b.id})
  {
    FirstIsStored(rest, t.valid, b);
    AllReadNext(t, s, rest, b);
    hide Before, AllRead;
  }

  method IndexOrder(db: ForkDatabase) returns (s: seq<Block>)
    requires WellFormed(db.State())
    ensures IsIndex(db.State(), s)
  {
    hide Before, First;
    ghost var t := db.State();
    s := [];
    var rest := db.index;
    while rest != map[]
      invariant Reading(t, s, rest)
      decreases rest.Keys
    {
      var b := db.Begin(rest);
      ReadNext(t, s, rest, b);
      s, rest := s + [b], rest - {b.id};
    }
  }

  /** What is left to merge is not below what has been written. */
  predicate Rest(s: seq<Block>, lo: nat, hi: nat, out: seq<Entry>)
    requires hi <= |s|
  {
    forall i, j | 0 <= i < |out| && lo <= j < hi :: !FirstPreferred(out[i].block, s[j]) && out[i].block.id != s[j].id
  }

  /** Everything from `lo` on has been written. */
  predicate Written(t: Tree, s: seq<Block>, lo: nat, hi: nat, out: seq<Entry>)
    requires hi <= |s|
  {
    forall j | lo <= j < hi :: Entry(s[j], s[j].id in t.valid) in out
  }

  predicate Sound(t: Tree, out: seq<Entry>)
  {
    && Ascending(out) && DistinctIds(out)
    && forall e | e in out ::
         e.block.id in t.blocks && t.blocks[e.block.id] == e.block && (e.validated <==> e.block.id in t.valid)
  }

  /** State of the merge: validated entries s[..v] and unvalidated entries s[k..u] remain. */
  ghost predicate Merging(t: Tree, s: seq<Block>, k: nat, v: nat, u: nat, out: seq<Entry>)
  {
    && IsIndex(t, s) && v <= k <= u <= |s|
    && (forall j | 0 <= j < |s| :: s[j].id in t.valid <==> j < k)
    && Sound(t, out)
    && Rest(s, 0, v, out) && Rest(s, k, u, out)
    && Written(t, s, v, k, out) && Written(t, s, u, |s|, out)
  }

  lemma SoundStep(t: Tree, out: seq<Entry>, s: seq<Block>, lo: nat, n: nat, flag: bool)
    requires Sound(t, out) && lo <= n < |s| && Rest(s, lo, n + 1, out)
    requires s[n].id in t.blocks && t.blocks[s[n].id] == s[n] && (flag <==> s[n].id in t.valid)
    ensures Sound(t, out + [Entry(s[n], flag)])
  {
    hide FirstPreferred;
  }

  lemma RestStep(s: seq<Block>, lo: nat, hi: nat, out: seq<Entry>, e: Entry)
    requires hi <= |s| && Rest(s, lo, hi, out)
    requires forall j | lo <= j < hi :: !FirstPreferred(e.block, s[j]) && e.block.id != s[j].id
    ensures Rest(s, lo, hi, out + [e])
  {
    hide FirstPreferred;
  }

  lemma WrittenStep(t: Tree, s: seq<Block>, lo: nat, hi: nat, out: seq<Entry>, e: Entry)
    requires hi <= |s| && Written(t, s, lo, hi, out)
    ensures Written(t, s, lo, hi, out + [e])
    ensures 0 < lo <= hi && e == Entry(s[lo - 1], s[lo - 1].id in t.valid) ==> Written(t, s, lo - 1, hi, out + [e])
  {
    var out' := out + [e];
    assert out'[|out|] == e;
    forall j | lo <= j < hi ensures Entry(s[j], s[j].id in t.valid) in out' {
      assert Entry(s[j], s[j].id in t.valid) in out;
    }
  }

  /** Writing the last entry of one side, which is not preferred over anything left on the other. */
  lemma MergeStep(t: Tree, s: seq<Block>, k: nat, v: nat, u: nat, out: seq<Entry>, takeValid: bool)
    requires Merging(t, s, k, v, u, out)
    requires takeValid ==> v > 0 && (u > k ==> !FirstPreferred(s[v - 1], s[u - 1]))
    requires !takeValid ==> u > k && (v > 0 ==> FirstPreferred(s[v - 1], s[u - 1]))
    ensures var n := if takeValid then v - 1 else u - 1;
      Merging(t, s, k, if takeValid then n else v, if takeValid then u else n, out + [Entry(s[n], takeValid)])
  {
    var n := if takeValid then v - 1 else u - 1;
    var e := Entry(s[n], takeValid);
    var v', u' := if takeValid then n else v, if takeValid then u else n;
    forall j | 0 <= j < v' || k <= j < u' ensures !FirstPreferred(s[n], s[j]) && s[n].id != s[j].id {
      SortedPreference(t, s, j, n, if takeValid then u else v, k, takeValid);
    }
    hide FirstPreferred, Before, Sound;
    SoundStep(t, out, s, if takeValid then 0 else k, n, takeValid);
    assert Rest(s, 0, v', out) && Rest(s, k, u', out);
    hide Rest, Written;
    RestStep(s, 0, v', out, e);
    RestStep(s, k, u', out, e);
    WrittenStep(t, s, v, k, out, e);
    WrittenStep(t, s, u, |s|, out, e);
  }

  lemma SortedPreference(t: Tree, s: seq<Block>, j: nat, n: nat, other: nat, k: nat, takeValid: bool)
    requires IsIndex(t, s) && j < |s| && n < |s| && k <= |s| && other <= |s|
    requires forall j | 0 <= j < |s| :: s[j].id in t.valid <==> j < k
    requires takeValid <==> n < k
    requires takeValid ==> j < n || (k <= j < other && !FirstPreferred(s[n], s[other - 1]))
    requires !takeValid ==> k <= j < n || (j < other <= k && FirstPreferred(s[other - 1], s[n]))
    ensures !FirstPreferred(s[n], s[j]) && s[n].id != s[j].id
  {
    if j < n { assert Before(t.valid, s[j], s[n]); }
    if other > 0 && j < other - 1 { assert Before(t.valid, s[j], s[other - 1]); }
  }

  /** Merges the reversed halves of the index: validated blocks s[..k], the others s[k..]. */
  method MergeHalves(ghost t: Tree, s: seq<Block>, k: nat) returns (out: seq<Entry>)
    requires k <= |s| && WellFormed(t) && Merging(t, s, k, k, |s|, [])
    ensures Lists(t, out) && Ascending(out)
  {
    hide FirstPreferred, Merging, Lists, Ascending, WellFormed;
    var v: nat, u: nat := k, |s|;
    out := [];
    while u > k || v > 0
      invariant v <= k <= u <= |s| && Merging(t, s, k, v, u, out)
      decreases u + v
    {
      var takeValid := v > 0;
      if u > k && v > 0 {
        takeValid := !FirstPreferred(s[v - 1], s[u - 1]);
      }
      MergeStep(t, s, k, v, u, out, takeValid);
      if takeValid {
        out, v := out + [Entry(s[v - 1], true)], v - 1;
      } else {
        out, u := out + [Entry(s[u - 1], false)], u - 1;
      }
    }
    MergeEnds(t, s, k, out);
  }

  /** `close`: writes the merged halves of the index and empties it. */
  method Close(db: ForkDatabase) returns (f: Saved)
    requires Inv(db.State())
    modifies db
    ensures IsSave(old(db.State()), f)
    ensures db.index == map[]
  {
    hide IsIndex, HeadOk, Lists, Ascending;
    ghost var t := db.State();
    var s := IndexOrder(db);
    var k := 0;
    while k < |s| && s[k].id in db.validated
      invariant k <= |s| && forall j | 0 <= j < k :: s[j].id in t.valid
      modifies {}
    {
      k := k + 1;
    }
    MergeStarts(t, s, k);
    var out := MergeHalves(t, s, k);
    f := Saved(db.root, out, db.head.id);
    db.index, db.validated := map[], {};
  }

  lemma MergeStarts(t: Tree, s: seq<Block>, k: nat)
    requires WellFormed(t) && IsIndex(t, s) && k <= |s|
    requires forall j | 0 <= j < k :: s[j].id in t.valid
    requires k < |s| ==> s[k].id !in t.valid
    ensures Merging(t, s, k, k, |s|, [])
  {
    forall j | k <= j < |s| ensures s[j].id !in t.valid {
      if k < j { assert Before(t.valid, s[k], s[j]); }
    }
  }

  lemma MergeEnds(t: Tree, s: seq<Block>, k: nat, out: seq<Entry>)
    requires WellFormed(t) && Merging(t, s, k, 0, k, out)
    ensures Lists(t, out) && Ascending(out)
  {
    forall id | id in t.blocks ensures Entry(t.blocks[id], id in t.valid) in out {
      var j :| 0 <= j < |s| && s[j] == t.blocks[id];
    }
  }

  // ---- Reading back ----

  predicate EntriesOk(es: seq<Entry>)
  {
    forall i | 0 <= i < |es| :: BlockOk(es[i].block)
  }

  /** Adds the entries one after the other to a database reset to `root`. */
  ghost function Load(root: Block, es: seq<Entry>): (r: Result<Tree, ForkError>)
    requires BlockOk(root) && EntriesOk(es)
    ensures r.Ok? ==> Inv(r.value)
  {
    if es == [] then Ok(T.Reset(root)) else
    var r := Load(root, es[..|es| - 1]);
    if r.Err? then r else
    var e := es[|es| - 1];
    AddKeepsInv(r.value, e.block, e.validated, false);
    T.Add(r.value, e.block, e.validated, false)
  }

  /** Installs the saved head and checks that no better one is available. */
  ghost function WithHead(t: Tree, headId: BlockId): Result<Tree, ForkError>
    requires WellFormed(t)
  {
    if !Known(t, headId) then Err(HeadNotFound) else
    var t' := t.(head := Get(t, headId));
    if t.blocks == map[] || First(t.blocks, t.valid).id !in t.valid then
      (if headId == t.root.id then Ok(t') else Err(HeadNotRoot))
    else
      (if FirstPreferred(First(t.blocks, t.valid), t'.head) then Err(HeadNotBest) else Ok(t'))
  }

  ghost function Reopen(f: Saved): Result<Tree, ForkError>
    requires BlockOk(f.root) && EntriesOk(f.entries)
  {
    var r := Load(f.root, f.entries);
    if r.Err? then r else WithHead(r.value, f.headId)
  }

  /** `open`: rebuilds the database from a file. */
  method Open(db: ForkDatabase, f: Saved) returns (r: Result<(), ForkError>)
    requires BlockOk(f.root) && EntriesOk(f.entries)
    modifies db
    ensures r == (if Reopen(f).Ok? then Ok(()) else Err(Reopen(f).error))
    ensures r.Ok? ==> db.State() == Reopen(f).value
  {
    hide First, T.Add, IsFirst;
    db.Reset(f.root);
    for i := 0 to |f.entries|
      invariant Load(f.root, f.entries[..i]) == Ok(db.State())
    {
      assert f.entries[..i + 1][..i] == f.entries[..i];
      var e := f.entries[i];
      r := db.Add(e.block, e.validated, false);
      if r.Err? {
        LoadErrorStays(f.root, f.entries, i + 1);
        return;
      }
    }
    assert f.entries[..|f.entries|] == f.entries;
    r := RestoreHead(db, f.headId);
  }

  method RestoreHead(db: ForkDatabase, headId: BlockId) returns (r: Result<(), ForkError>)
    requires WellFormed(db.State())
    modifies db
    ensures var spec := WithHead(old(db.State()), headId);
      r == (if spec.Ok? then Ok(()) else Err(spec.error)) && (r.Ok? ==> db.State() == spec.value)
  {
    hide First, IsFirst;
    if headId == db.root.id {
      db.head := db.root;
    } else if headId in db.index {
      db.head := db.index[headId];
    } else {
      return Err(HeadNotFound);
    }
    var noCandidate := db.index == map[];
    if !noCandidate {
      var candidate := db.Begin(db.index);
      if candidate.id in db.validated {
        if FirstPreferred(candidate, db.head) { return Err(HeadNotBest); }
      } else {
        noCandidate := true;
      }
    }
    if noCandidate && headId != db.root.id { return Err(HeadNotRoot); }
    return Ok(());
  }

  lemma {:induction false} LoadErrorStays(root: Block, es: seq<Entry>, n: nat)
    requires BlockOk(root) && EntriesOk(es) && n <= |es| && Load(root, es[..n]).Err?
    ensures Load(root, es) == Load(root, es[..n])
    decreases |es|
  {
    if n < |es| {
      var front := es[..|es| - 1];
      assert front[..n] == es[..n];
      LoadErrorStays(root, front, n);
    } else {
      assert es[..n] == es;
    }
  }

  // ---- Saving and reopening restores the database ----

  /** Along every stored link the irreversible number does not decrease. */
  predicate LibsGrow(t: Tree)
  {
    forall id | id in t.blocks && t.blocks[id].prev in t.blocks ::
      t.blocks[t.blocks[id].prev].lib <= t.blocks[id].lib
  }

  function PrefixIds(es: seq<Entry>): set<BlockId>
  {
    set e | e in es :: e.block.id
  }

  /** The tree holds exactly the first entries of a save of `t`. */
  predicate IsPrefix(t: Tree, es: seq<Entry>, t': Tree)
  {
    && t'.root == t.root
    && t'.blocks == Only(t.blocks, PrefixIds(es))
    && t'.valid == t.valid * PrefixIds(es)
  }

  lemma NotInPrefix(es: seq<Entry>, n: nat, i: nat)
    requires DistinctIds(es) && n <= i < |es|
    ensures es[i].block.id !in PrefixIds(es[..n])
  {
    forall e | e in es[..n] ensures e.block.id != es[i].block.id {
      var j :| 0 <= j < |es[..n]| && es[..n][j] == e;
    }
  }

  /** In a save, a block comes after its stored parent exactly when the parent's number is not higher. */
  lemma ParentPosition(t: Tree, es: seq<Entry>, n: nat)
    requires WellFormed(t) && Lists(t, es) && Ascending(es) && n < |es|
    requires es[n].block.prev in t.blocks
    ensures es[n].block.prev in PrefixIds(es[..n]) <==> t.blocks[es[n].block.prev].lib <= es[n].block.lib
  {
    var p := es[n].block.prev;
    assert es[n] in es;
    assert Entry(t.blocks[p], p in t.valid) in es;
    var i :| 0 <= i < |es| && es[i] == Entry(t.blocks[p], p in t.valid);
    assert es[i].block.num < es[n].block.num;
    if i < n {
      assert es[..n][i] == es[i];
    } else {
      NotInPrefix(es, n, i);
    }
  }

  lemma PrefixGrows(es: seq<Entry>, n: nat)
    requires n < |es|
    ensures PrefixIds(es[..n + 1]) == PrefixIds(es[..n]) + {es[n].block.id}
  {
    assert es[..n + 1] == es[..n] + [es[n]];
  }

  predicate LinkGrows(t: Tree, b: Block)
  {
    b.prev in t.blocks ==> t.blocks[b.prev].lib <= b.lib
  }

  function Only(all: map<BlockId, Block>, ids: set<BlockId>): map<BlockId, Block>
  {
    map id | id in all && id in ids :: all[id]
  }

  lemma OnlyGrows(all: map<BlockId, Block>, ids: set<BlockId>, b: Block)
    requires b.id in all && all[b.id] == b
    ensures Only(all, ids)[b.id := b] == Only(all, ids + {b.id})
  {
  }

  lemma PrefixStep(t: Tree, es: seq<Entry>, n: nat, t': Tree, t'': Tree)
    requires Lists(t, es) && n < |es| && IsPrefix(t, es[..n], t')
    requires t''.root == t'.root && t''.blocks == t'.blocks[es[n].block.id := es[n].block]
    requires t''.valid == (if es[n].validated then t'.valid + {es[n].block.id} else t'.valid)
    ensures IsPrefix(t, es[..n + 1], t'')
  {
    assert es[n] in es;
    hide PrefixIds, Only, Lists;
    PrefixGrows(es, n);
    OnlyGrows(t.blocks, PrefixIds(es[..n]), es[n].block);
  }

  /** Adding the next entry succeeds exactly when its parent is already there. */
  lemma LoadStep(t: Tree, es: seq<Entry>, n: nat, t': Tree)
    requires WellFormed(t) && Lists(t, es) && Ascending(es) && n < |es|
    requires WellFormed(t') && IsPrefix(t, es[..n], t')
    ensures var r := T.Add(t', es[n].block, es[n].validated, false);
      if LinkGrows(t, es[n].block) then r.Ok? && IsPrefix(t, es[..n + 1], r.value) else r == Err(Unlinkable)
  {
    var e := es[n];
    assert e in es;
    NotInPrefix(es, n, n);
    if e.block.prev in t.blocks { ParentPosition(t, es, n); }
    assert Known(t', e.block.prev) <==> LinkGrows(t, e.block);
    if LinkGrows(t, e.block) {
      hide First, Ascending, PrefixIds, Linked, WellFormed;
      PrefixStep(t, es, n, t', T.Add(t', e.block, e.validated, false).value);
    }
  }

  /** Loading a save yields its entries, or stops at the first link whose number decreases. */
  lemma {:induction false} LoadsPrefix(t: Tree, es: seq<Entry>, n: nat)
    requires WellFormed(t) && Lists(t, es) && Ascending(es) && EntriesOk(es) && n <= |es|
    ensures var r := Load(t.root, es[..n]);
      if forall i | 0 <= i < n :: LinkGrows(t, es[i].block) then r.Ok? && IsPrefix(t, es[..n], r.value)
      else r == Err(Unlinkable)
  {
    hide Lists, Ascending, LinkGrows, IsPrefix, T.Add, Inv;
    if n == 0 {
      assert IsPrefix(t, [], T.Reset(t.root)) by { EmptyPrefix(t); }
    } else {
      LoadsPrefix(t, es, n - 1);
      assert es[..n][..n - 1] == es[..n - 1];
      var r := Load(t.root, es[..n - 1]);
      if r.Ok? {
        assert WellFormed(r.value) by { InvIsWellFormed(r.value); }
        LoadStep(t, es, n - 1, r.value);
      }
    }
  }

  lemma EmptyPrefix(t: Tree)
    ensures IsPrefix(t, [], T.Reset(t.root))
  {
  }

  lemma InvIsWellFormed(t: Tree)
    requires Inv(t)
    ensures WellFormed(t)
  {
  }

  lemma SavedBlocksOk(t: Tree, es: seq<Entry>)
    requires WellFormed(t) && Lists(t, es)
    ensures EntriesOk(es)
    ensures (forall i | 0 <= i < |es| :: LinkGrows(t, es[i].block)) <==> LibsGrow(t)
    ensures t.blocks.Keys <= PrefixIds(es)
  {
    forall i | 0 <= i < |es| ensures BlockOk(es[i].block) && es[i].block.id in t.blocks {
      assert es[i] in es;
    }
    forall id | id in t.blocks
      ensures id in PrefixIds(es)
      ensures (forall i | 0 <= i < |es| :: LinkGrows(t, es[i].block)) ==> LinkGrows(t, t.blocks[id])
    {
      assert Entry(t.blocks[id], id in t.valid) in es;
    }
  }

  lemma HeadIsRestored(t: Tree, t': Tree)
    requires Inv(t) && WellFormed(t') && t' == t.(head := t'.head)
    ensures WithHead(t', t.head.id) == Ok(t)
  {
    hide First, IsFirst, FirstPreferred;
    if t.blocks != map[] {
      var c := First(t.blocks, t.valid);
      FirstIsBestValid(t.blocks, t.valid, c);
      FirstIsStored(t.blocks, t.valid, c);
    }
  }

  /** Reopening a saved database restores it exactly when no stored link lowers the number. */
  lemma ReopenRestoresExactly(t: Tree, f: Saved)
    requires Inv(t) && IsSave(t, f)
    ensures EntriesOk(f.entries)
    ensures Reopen(f) == (if LibsGrow(t) then Ok(t) else Err(Unlinkable))
  {
    hide Lists, Ascending, LibsGrow, LinkGrows, WithHead, HeadOk, Linked;
    var es := f.entries;
    SavedBlocksOk(t, es);
    LoadsPrefix(t, es, |es|);
    assert es[..|es|] == es;
    if LibsGrow(t) {
      var t' := Load(t.root, es).value;
      assert t'.blocks == t.blocks && t'.valid == t.valid;
      HeadIsRestored(t, t');
    }
  }

  // ---- Which files open ----

  /** Every entry links to the root or to an earlier entry. */
  predicate LinksBack(root: Block, es: seq<Entry>)
  {
    forall i | 0 <= i < |es| :: es[i].block.prev == root.id || es[i].block.prev in PrefixIds(es[..i])
  }

  lemma LastEntry(es: seq<Entry>)
    requires es != []
    ensures var n := |es| - 1;
      && (DistinctIds(es) <==> DistinctIds(es[..n]) && es[n].block.id !in PrefixIds(es[..n]))
      && PrefixIds(es) == PrefixIds(es[..n]) + {es[n].block.id}
  {
    var n := |es| - 1;
    assert es[..n + 1] == es;
    PrefixGrows(es, n);
    if DistinctIds(es) { NotInPrefix(es, n, n); }
    if DistinctIds(es[..n]) && es[n].block.id !in PrefixIds(es[..n]) {
      forall i, j | 0 <= i < j < |es| ensures es[i].block.id != es[j].block.id {
        if j == n { assert es[i] in es[..n]; }
      }
    }
  }

  lemma LastLink(root: Block, es: seq<Entry>)
    requires es != []
    ensures var n := |es| - 1;
      LinksBack(root, es) <==>
        LinksBack(root, es[..n]) && (es[n].block.prev == root.id || es[n].block.prev in PrefixIds(es[..n]))
  {
    hide PrefixIds;
    var n := |es| - 1;
    assert forall i | 0 <= i < n :: es[..n][..i] == es[..i];
    assert forall i | 0 <= i < n :: es[..n][i] == es[i];
  }

  /** The tree holds the entries, and the blocks have the flags of theirs. */
  ghost predicate Holds(t: Tree, es: seq<Entry>)
  {
    && t.blocks.Keys == PrefixIds(es)
    && forall e | e in es ::
         e.block.id in t.blocks && t.blocks[e.block.id] == e.block && (e.validated <==> e.block.id in t.valid)
  }

  lemma HoldsOneMore(t: Tree, es: seq<Entry>, t': Tree)
    requires es != [] && Holds(t, es[..|es| - 1]) && es[|es| - 1].block.id !in t.blocks && t.valid <= t.blocks.Keys
    requires var e := es[|es| - 1];
      && t'.blocks == t.blocks[e.block.id := e.block]
      && t'.valid == if e.validated then t.valid + {e.block.id} else t.valid
    ensures Holds(t', es)
  {
    var n := |es| - 1;
    LastEntry(es);
    forall e | e in es
      ensures e.block.id in t'.blocks && t'.blocks[e.block.id] == e.block && (e.validated <==> e.block.id in t'.valid)
    {
      if e != es[n] {
        var i :| 0 <= i < |es| && es[i] == e;
        assert es[..n][i] == e;
        assert e in es[..n];
      }
    }
  }

  /** Exactly the files load whose entries are distinct and link back; the tree then holds the entries. */
  lemma {:induction false} LoadsExactly(root: Block, es: seq<Entry>)
    requires BlockOk(root) && EntriesOk(es)
    ensures var r := Load(root, es);
      && (r.Ok? <==> DistinctIds(es) && LinksBack(root, es))
      && (r.Ok? ==> r.value.root == root && Holds(r.value, es))
    decreases |es|
  {
    if es != [] {
      hide DistinctIds, LinksBack, PrefixIds, Holds, First, Inv;
      var n := |es| - 1;
      LoadsExactly(root, es[..n]);
      LastEntry(es);
      LastLink(root, es);
      var r, e := Load(root, es[..n]), es[n];
      if r.Ok? {
        InvIsWellFormed(r.value);
        HoldsKeys(r.value, es[..n]);
        var r' := T.Add(r.value, e.block, e.validated, false);
        if r'.Ok? { HoldsOneMore(r.value, es, r'.value); }
      }
    }
  }

  lemma HoldsKeys(t: Tree, es: seq<Entry>)
    requires Holds(t, es)
    ensures t.blocks.Keys == PrefixIds(es)
  {
  }

  /** The block that the file names as its head. */
  predicate IsHead(f: Saved, h: Block)
  {
    h.id == f.headId && if f.headId == f.root.id then h == f.root else exists e | e in f.entries :: e.block == h
  }

  predicate AnyValidated(es: seq<Entry>)
  {
    exists e | e in es :: e.validated
  }

  /** No validated block is preferred over the head, and without validated blocks the head is the root. */
  ghost predicate HeadFits(f: Saved, h: Block)
  {
    && (forall e | e in f.entries && e.validated :: !FirstPreferred(e.block, h))
    && (h != f.root ==> AnyValidated(f.entries))
  }

  lemma KnownHead(t: Tree, f: Saved)
    requires WellFormed(t) && t.root == f.root && Holds(t, f.entries)
    ensures Known(t, f.headId) ==> IsHead(f, Get(t, f.headId))
    ensures forall h | IsHead(f, h) :: Known(t, f.headId) && Get(t, f.headId) == h
    ensures t.valid != {} <==> AnyValidated(f.entries)
  {
    if f.headId in t.blocks { assert f.headId in PrefixIds(f.entries); }
    if t.valid != {} {
      var id :| id in t.valid;
      assert id in PrefixIds(f.entries);
      var e :| e in f.entries && e.block.id == id;
      assert e.validated;
    }
  }

  lemma NoneBetter(t: Tree, f: Saved, h: Block)
    requires WellFormed(t) && Holds(t, f.entries)
    ensures (forall id | id in t.valid :: !FirstPreferred(t.blocks[id], h)) <==>
      forall e | e in f.entries && e.validated :: !FirstPreferred(e.block, h)
  {
    forall id | id in t.valid
      ensures exists e :: e in f.entries && e.validated && e.block == t.blocks[id]
    {
      assert id in PrefixIds(f.entries);
      var e :| e in f.entries && e.block.id == id;
      assert e.validated;
    }
  }

  /** The head is accepted if it is known, and is the root or has no better validated block beside it. */
  lemma HeadAccepted(t: Tree, headId: BlockId)
    requires WellFormed(t)
    ensures WithHead(t, headId).Ok? <==>
      && Known(t, headId) && (t.valid == {} ==> headId == t.root.id)
      && forall id | id in t.valid :: !FirstPreferred(t.blocks[id], Get(t, headId))
    ensures WithHead(t, headId).Ok? ==> WithHead(t, headId).value == t.(head := Get(t, headId))
  {
    hide First, IsFirst;
    if t.blocks != map[] {
      var c := First(t.blocks, t.valid);
      FirstIsBestValid(t.blocks, t.valid, c);
      FirstIsStored(t.blocks, t.valid, c);
    }
  }

  lemma HoldsAnyHead(t: Tree, es: seq<Entry>, h: Block)
    requires Holds(t, es)
    ensures Holds(t.(head := h), es)
  {
  }

  lemma HeadFitsExactly(t: Tree, f: Saved)
    requires WellFormed(t) && t.root == f.root && Holds(t, f.entries)
    ensures WithHead(t, f.headId).Ok? <==> exists h :: IsHead(f, h) && HeadFits(f, h)
  {
    hide First, IsFirst, FirstPreferred, Holds, IsHead, WithHead, AnyValidated;
    KnownHead(t, f);
    HeadAccepted(t, f.headId);
    if Known(t, f.headId) {
      var h := Get(t, f.headId);
      NoneBetter(t, f, h);
      assert IsHead(f, h);
    }
  }

  /**
   Exactly these files open: distinct entries that link back, and a head that fits. The database then holds them and
   has that head; whether it is a validated block is not looked at, and decides if the invariant holds.
   */
  lemma OpensExactly(f: Saved)
    requires BlockOk(f.root) && EntriesOk(f.entries)
    ensures Reopen(f).Ok? <==>
      DistinctIds(f.entries) && LinksBack(f.root, f.entries) && exists h :: IsHead(f, h) && HeadFits(f, h)
    ensures Reopen(f).Ok? ==> (
      var t := Reopen(f).value;
      && t.root == f.root && Holds(t, f.entries) && IsHead(f, t.head)
      && (Inv(t) <==> f.headId == f.root.id || f.headId in t.valid))
  {
    hide DistinctIds, LinksBack, First, IsFirst, FirstPreferred, Holds, IsHead, HeadFits, WithHead;
    LoadsExactly(f.root, f.entries);
    var r := Load(f.root, f.entries);
    if r.Ok? {
      InvIsWellFormed(r.value);
      HeadFitsExactly(r.value, f);
      KnownHead(r.value, f);
      HeadAccepted(r.value, f.headId);
      if Known(r.value, f.headId) { HoldsAnyHead(r.value, f.entries, Get(r.value, f.headId)); }
    }
  }

  /** A file whose head is not validated, beside a validated block of the same number and LIB. */
  function UnvalidatedHead(): Saved
  {
    var root := Block(BlockId(1, 0), BlockId(0, 0), 1, 0);
    var a := Block(BlockId(2, 1), root.id, 2, 0);
    var b := Block(BlockId(2, 2), root.id, 2, 0);
    Saved(root, [Entry(a, true), Entry(b, false)], b.id)
  }

  /** It opens, with a head that is not validated. */
  lemma UnvalidatedHeadOpens()
    ensures Reopen(UnvalidatedHead()).Ok? && !Inv(Reopen(UnvalidatedHead()).value)
  {
    var f := UnvalidatedHead();
    var es := f.entries;
    assert EntriesOk(es) && DistinctIds(es) && LinksBack(f.root, es);
    assert es[0] in es && es[0].validated && es[1] in es;
    assert IsHead(f, es[1].block) && HeadFits(f, es[1].block);
    hide Reopen;
    OpensExactly(f);
  }
}
