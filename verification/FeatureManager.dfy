/**
 Protocol features: the set of recognized features, and the manager's activation stack, kept twice -
 as a vector of activations and as a list linked through the slots of the builtin features.
 */
module FeatureManager {

  import opened Results
  import OrderStatistic

  const NO_PREVIOUS: nat := 0xFFFF_FFFF_FFFF_FFFF
  const NOT_ACTIVE: nat := 0xFFFF_FFFF

  type Num = n: nat | n <= NOT_ACTIVE
  type Digest = nat

  datatype FeatureError =
    | UnsupportedCodename
    | AlreadyAdded
    | UnknownDependency
    | MissingBuiltins
    | DuplicateDigest
    | NotInitialized
    | AlreadyInitialized
    | Unrecognized
    | OutOfOrder
    | NotBuiltin
    | UnsupportedSlot
    | AlreadyActivated

  // ---- Recognized features ----

  datatype Feature = Feature(builtin: Option<nat>, dependencies: set<Digest>)

  type Recognized = map<Digest, Feature>
  type Slots = seq<Option<Digest>>

  /** Some of the dependencies is the builtin feature `c`. */
  ghost predicate HasBuiltin(recognized: Recognized, dependencies: set<Digest>, c: nat)
  {
    exists e :: e in dependencies && e in recognized && recognized[e].builtin == Some(c)
  }

  /** The expected builtin features among the dependencies. */
  function Found(recognized: Recognized, dependencies: set<Digest>, expected: set<nat>): set<nat>
  {
    set d |
      && d in dependencies && d in recognized
      && recognized[d].builtin.Some? && recognized[d].builtin.value in expected
      :: recognized[d].builtin.value
  }

  /** A recognized feature has its own slot, and its dependencies are recognized and include all the expected ones. */
  ghost predicate FeatureOk(codenames: map<nat, set<nat>>, recognized: Recognized, slots: Slots, d: Digest)
    requires d in recognized
  {
    var f := recognized[d];
    && f.builtin.Some? && f.builtin.value < |slots| && slots[f.builtin.value] == Some(d)
    && f.builtin.value in codenames
    && f.dependencies <= recognized.Keys
    && forall c :: c in codenames[f.builtin.value] ==> HasBuiltin(recognized, f.dependencies, c)
  }

  ghost predicate SlotOk(recognized: Recognized, slots: Slots, i: nat)
    requires i < |slots|
  {
    slots[i].Some? ==> slots[i].value in recognized && recognized[slots[i].value].builtin == Some(i)
  }

  ghost predicate SetOk(codenames: map<nat, set<nat>>, recognized: Recognized, slots: Slots)
  {
    && (forall i :: 0 <= i < |slots| ==> SlotOk(recognized, slots, i))
    && (forall d :: d in recognized ==> FeatureOk(codenames, recognized, slots, d))
  }

  ghost predicate Addable(codenames: map<nat, set<nat>>, recognized: Recognized, slots: Slots, codename: nat,
                          digest: Digest, dependencies: set<Digest>)
  {
    && codename in codenames
    && (codename < |slots| ==> slots[codename].None?)
    && digest !in recognized
    && dependencies <= recognized.Keys
    && forall c :: c in codenames[codename] ==> HasBuiltin(recognized, dependencies, c)
  }

  function Padded(slots: Slots, n: nat): (r: Slots)
    ensures |r| >= n && slots <= r && forall i :: |slots| <= i < |r| ==> r[i].None?
  {
    if n <= |slots| then slots else slots + seq(n - |slots|, _ => None)
  }

  lemma AddKeepsSetOk(codenames: map<nat, set<nat>>, recognized: Recognized, slots: Slots, codename: nat,
                      digest: Digest, dependencies: set<Digest>)
    requires SetOk(codenames, recognized, slots)
    requires Addable(codenames, recognized, slots, codename, digest, dependencies)
    ensures SetOk(codenames, recognized[digest := Feature(Some(codename), dependencies)],
                  Padded(slots, codename + 1)[codename := Some(digest)])
  {
    hide Padded, HasBuiltin;
    var f := Feature(Some(codename), dependencies);
    var recognized', slots' := recognized[digest := f], Padded(slots, codename + 1)[codename := Some(digest)];
    forall c, deps | HasBuiltin(recognized, deps, c)
      ensures HasBuiltin(recognized', deps, c)
    {
      BuiltinStays(recognized, digest, f, deps, c);
    }
    forall d | d in recognized'
      ensures FeatureOk(codenames, recognized', slots', d)
    {
      if d != digest {
        assert FeatureOk(codenames, recognized, slots, d);
      }
    }
    forall i | 0 <= i < |slots'|
      ensures SlotOk(recognized', slots', i)
    {
      if i < |slots| { assert SlotOk(recognized, slots, i); }
    }
  }

  lemma BuiltinStays(recognized: Recognized, digest: Digest, f: Feature, deps: set<Digest>, c: nat)
    requires digest !in recognized && HasBuiltin(recognized, deps, c)
    ensures HasBuiltin(recognized[digest := f], deps, c)
  {
    var e :| e in deps && e in recognized && recognized[e].builtin == Some(c);
    assert e in recognized[digest := f] && recognized[digest := f][e].builtin == Some(c);
  }

  lemma FoundAll(recognized: Recognized, dependencies: set<Digest>, expected: set<nat>)
    ensures |expected| <= |Found(recognized, dependencies, expected)| <==>
      forall c :: c in expected ==> HasBuiltin(recognized, dependencies, c)
  {
    EnoughMeansAll(Found(recognized, dependencies, expected), expected);
    if forall c :: c in expected ==> HasBuiltin(recognized, dependencies, c) {
      forall c | c in expected
        ensures c in Found(recognized, dependencies, expected)
      {
        assert HasBuiltin(recognized, dependencies, c);
      }
    }
  }

  class FeatureSet {
    /** The builtin features the software knows, with the builtin features each depends on. */
    const codenames: map<nat, set<nat>>
    var recognized: Recognized
    var slots: Slots

    ghost predicate Valid()
      reads this
    {
      SetOk(codenames, recognized, slots)
    }

    constructor (known: map<nat, set<nat>>)
      ensures Valid() && recognized == map[] && slots == [] && codenames == known
    {
      codenames := known;
      recognized := map[];
      slots := [];
    }

    method Satisfied(dependencies: set<Digest>, expected: set<nat>) returns (r: Result<set<nat>, FeatureError>)
      ensures r.Ok? <==> dependencies <= recognized.Keys
      ensures r.Ok? ==> r.value == Found(recognized, dependencies, expected)
      ensures r.Err? ==> r.error == UnknownDependency
    {
      var rest, found := dependencies, {};
      while rest != {}
        invariant rest <= dependencies && dependencies - rest <= recognized.Keys
        invariant found == Found(recognized, dependencies - rest, expected)
        decreases rest
      {
        var d :| d in rest;
        if d !in recognized { return Err(UnknownDependency); }
        if recognized[d].builtin.Some? && recognized[d].builtin.value in expected {
          found := found + {recognized[d].builtin.value};
        }
        rest := rest - {d};
      }
      assert dependencies - rest == dependencies;
      return Ok(found);
    }

    /** Adds a feature exactly when its slot is free, its digest new and its dependencies complete. */
    method AddFeature(codename: nat, digest: Digest, dependencies: set<Digest>)
      returns (r: Result<Feature, FeatureError>)
      requires Valid()
      modifies this
      ensures Valid()
      ensures r.Ok? <==> Addable(codenames, old(recognized), old(slots), codename, digest, dependencies)
      ensures r.Err? ==> recognized == old(recognized) && slots == old(slots)
      ensures r.Ok? ==>
        r.value == Feature(Some(codename), dependencies) && recognized == old(recognized)[digest := r.value]
    {
      hide SetOk, Found, HasBuiltin;
      if codename !in codenames { return Err(UnsupportedCodename); }
      if codename < |slots| && slots[codename].Some? { return Err(AlreadyAdded); }
      var expected := codenames[codename];
      var found := Satisfied(dependencies, expected);
      if found.Err? { return Err(UnknownDependency); }
      FoundAll(recognized, dependencies, expected);
      if |expected| > |found.value| { return Err(MissingBuiltins); }
      if digest in recognized { return Err(DuplicateDigest); }
      AddKeepsSetOk(codenames, recognized, slots, codename, digest, dependencies);
      var f := Feature(Some(codename), dependencies);
      recognized := recognized[digest := f];
      slots := Padded(slots, codename + 1);
      slots := slots[codename := Some(digest)];
      return Ok(f);
    }
  }

  lemma EnoughMeansAll(found: set<nat>, expected: set<nat>)
    requires found <= expected
    ensures |expected| <= |found| <==> expected == found
  {
    OrderStatistic.SubsetSize(found, expected);
    if expected != found {
      var x :| x in expected && x !in found;
      OrderStatistic.SubsetSize(found + {x}, expected);
    }
  }

  // ---- The activation stack ----

  datatype Activation = Activation(digest: Digest, slot: nat, num: Num)

  datatype Entry = Entry(previous: nat, num: Num)

  const INACTIVE: Entry := Entry(NO_PREVIOUS, NOT_ACTIVE)

  /** Following the links from `head` visits the slots of `list`, in order, and ends. */
  predicate Reads(builtins: seq<Entry>, head: nat, list: seq<nat>)
    decreases |list|
  {
    if list == [] then head == NO_PREVIOUS
    else head == list[0] && head < |builtins| && Reads(builtins, builtins[head].previous, list[1..])
  }

  /** The slots activated, the latest first. */
  function Latest(acts: seq<Activation>): (r: seq<nat>)
    ensures |r| == |acts| && forall i :: 0 <= i < |r| ==> r[i] == acts[|acts| - 1 - i].slot
  {
    if acts == [] then [] else [acts[|acts| - 1].slot] + Latest(acts[..|acts| - 1])
  }

  ghost predicate Activated(acts: seq<Activation>, slot: nat)
  {
    exists i :: 0 <= i < |acts| && acts[i].slot == slot
  }

  ghost predicate InOrder(acts: seq<Activation>)
  {
    forall i, j :: 0 <= i < j < |acts| ==> acts[i].num <= acts[j].num
  }

  ghost predicate Distinct(acts: seq<Activation>)
  {
    forall i, j :: 0 <= i < j < |acts| ==> acts[i].slot != acts[j].slot
  }

  /** Every activation is in its slot, and every other slot is inactive. */
  ghost predicate SlotsAgree(acts: seq<Activation>, builtins: seq<Entry>)
  {
    && (forall i :: 0 <= i < |acts| ==>
          acts[i].slot < |builtins| && builtins[acts[i].slot].num == acts[i].num < NOT_ACTIVE)
    && (forall k :: 0 <= k < |builtins| && !Activated(acts, k) ==> builtins[k] == INACTIVE)
  }

  /** The list is the vector reversed, and says the same about every slot. */
  ghost predicate Agrees(acts: seq<Activation>, builtins: seq<Entry>, head: nat)
  {
    && |builtins| <= NO_PREVIOUS
    && InOrder(acts) && Distinct(acts) && SlotsAgree(acts, builtins)
    && Reads(builtins, head, Latest(acts))
  }

  lemma {:induction false} ReadsFrame(builtins: seq<Entry>, builtins': seq<Entry>, head: nat, list: seq<nat>)
    requires Reads(builtins, head, list) && |builtins| == |builtins'|
    requires forall i :: 0 <= i < |list| && list[i] < |builtins| ==> builtins[list[i]] == builtins'[list[i]]
    ensures Reads(builtins', head, list)
    decreases |list|
  {
    if list != [] {
      assert forall i :: 0 <= i < |list[1..]| ==> list[1..][i] == list[i + 1];
      ReadsFrame(builtins, builtins', builtins[head].previous, list[1..]);
    }
  }

  /**
   One activation more, on the vector, in the slot and at the head of the list, keeps them in agreement exactly unless
   it is at the number that marks a slot inactive.
   */
  lemma PushKeepsAgreement(acts: seq<Activation>, builtins: seq<Entry>, head: nat, act: Activation)
    requires Agrees(acts, builtins, head) && act.slot < |builtins|
    requires builtins[act.slot].num == NOT_ACTIVE
    requires acts != [] ==> acts[|acts| - 1].num <= act.num
    ensures Agrees(acts + [act], builtins[act.slot := Entry(head, act.num)], act.slot) <==> act.num < NOT_ACTIVE
  {
    hide Reads, Latest;
    NumbersBelow(acts + [act], builtins[act.slot := Entry(head, act.num)], act.slot);
    var acts', builtins' := acts + [act], builtins[act.slot := Entry(head, act.num)];
    assert forall k :: !Activated(acts', k) ==> !Activated(acts, k) && k != act.slot by {
      forall k | Activated(acts, k)
        ensures Activated(acts', k)
      {
        var i :| 0 <= i < |acts| && acts[i].slot == k;
        assert acts'[i].slot == k;
      }
      assert acts'[|acts|].slot == act.slot;
    }
    PushReads(acts, builtins, head, act);
  }

  lemma NumbersBelow(acts: seq<Activation>, builtins: seq<Entry>, head: nat)
    ensures Agrees(acts, builtins, head) ==> forall i :: 0 <= i < |acts| ==> acts[i].num < NOT_ACTIVE
  {
  }

  lemma PushReads(acts: seq<Activation>, builtins: seq<Entry>, head: nat, act: Activation)
    requires SlotsAgree(acts, builtins) && Reads(builtins, head, Latest(acts)) && act.slot < |builtins|
    requires builtins[act.slot].num == NOT_ACTIVE
    ensures Reads(builtins[act.slot := Entry(head, act.num)], act.slot, Latest(acts + [act]))
  {
    var acts' := acts + [act];
    assert acts'[..|acts|] == acts;
    assert Latest(acts')[1..] == Latest(acts);
    ReadsFrame(builtins, builtins[act.slot := Entry(head, act.num)], head, Latest(acts));
  }

  lemma HeadIsLatest(acts: seq<Activation>, builtins: seq<Entry>, head: nat)
    requires Agrees(acts, builtins, head)
    ensures acts == [] <==> head == NO_PREVIOUS
    ensures acts != [] ==> (
      var last := acts[|acts| - 1];
      head < |builtins| && head == last.slot && builtins[head].num == last.num)
  {
  }

  /** One activation less: the head's slot becomes inactive. */
  lemma PopKeepsAgreement(acts: seq<Activation>, builtins: seq<Entry>, head: nat)
    requires Agrees(acts, builtins, head) && acts != []
    ensures head < |builtins| && head == acts[|acts| - 1].slot
    ensures Agrees(acts[..|acts| - 1], builtins[head := INACTIVE], builtins[head].previous)
  {
    hide Reads, Latest, SlotsAgree, InOrder, Distinct;
    HeadIsLatest(acts, builtins, head);
    PopReads(acts, builtins, head);
    PopSlots(acts, builtins, head);
    PopOrder(acts);
  }

  lemma PopReads(acts: seq<Activation>, builtins: seq<Entry>, head: nat)
    requires acts != [] && Distinct(acts) && Reads(builtins, head, Latest(acts))
    ensures head < |builtins| && Reads(builtins[head := INACTIVE], builtins[head].previous, Latest(acts[..|acts| - 1]))
  {
    var rest := acts[..|acts| - 1];
    assert Latest(acts)[0] == acts[|acts| - 1].slot;
    assert Latest(acts)[1..] == Latest(rest);
    ReadsFrame(builtins, builtins[head := INACTIVE], builtins[head].previous, Latest(rest));
  }

  lemma PopSlots(acts: seq<Activation>, builtins: seq<Entry>, head: nat)
    requires acts != [] && Distinct(acts) && SlotsAgree(acts, builtins) && head == acts[|acts| - 1].slot
    ensures SlotsAgree(acts[..|acts| - 1], builtins[head := INACTIVE])
  {
    var rest := acts[..|acts| - 1];
    forall k | Activated(acts, k) && k != head
      ensures Activated(rest, k)
    {
      var i :| 0 <= i < |acts| && acts[i].slot == k;
      assert rest[i].slot == k;
    }
  }

  lemma PopOrder(acts: seq<Activation>)
    requires acts != [] && InOrder(acts) && Distinct(acts)
    ensures InOrder(acts[..|acts| - 1]) && Distinct(acts[..|acts| - 1])
  {
  }

  /** The vector determines the slots and the head. */
  lemma {:induction false} AgreementDetermines(acts: seq<Activation>, b1: seq<Entry>, h1: nat, b2: seq<Entry>, h2: nat)
    requires Agrees(acts, b1, h1) && Agrees(acts, b2, h2) && |b1| == |b2|
    ensures b1 == b2 && h1 == h2
    decreases |acts|
  {
    if acts == [] {
    } else {
      PopKeepsAgreement(acts, b1, h1);
      PopKeepsAgreement(acts, b2, h2);
      AgreementDetermines(acts[..|acts| - 1], b1[h1 := INACTIVE], b1[h1].previous, b2[h2 := INACTIVE], b2[h2].previous);
      var n := |acts| - 1;
      assert b1[h1].num == acts[n].num && b2[h2].num == acts[n].num;
      forall k | 0 <= k < |b1| && k != h1
        ensures b1[k] == b2[k]
      {
        assert b1[h1 := INACTIVE][k] == b2[h2 := INACTIVE][k];
      }
    }
  }

  /** The next of the stored activations is accepted. */
  lemma CanActivateNext(features: Recognized, acts: seq<Activation>, i: nat, builtins: seq<Entry>, head: nat)
    requires i < |acts| && Restorable(features, |builtins|, acts) && Agrees(acts[..i], builtins, head)
    ensures acts[i].num < NOT_ACTIVE && (i > 0 ==> acts[i - 1].num <= acts[i].num)
    ensures acts[i].digest in features && features[acts[i].digest].builtin == Some(acts[i].slot)
    ensures acts[i].slot < |builtins| && builtins[acts[i].slot].num == NOT_ACTIVE
  {
    hide Reads, Latest;
    assert !Activated(acts[..i], acts[i].slot);
  }

  // ---- Searching by block number ----

  /** `lower_bound`: the first activation at or after a block number. */
  function LowerBound(acts: seq<Activation>, num: nat): (r: nat)
    requires InOrder(acts)
    ensures r <= |acts|
    ensures forall i :: 0 <= i < |acts| ==> (i < r <==> acts[i].num < num)
  {
    if acts == [] || acts[|acts| - 1].num < num then |acts| else LowerBound(acts[..|acts| - 1], num)
  }

  /** `upper_bound`: the first activation after a block number. */
  function UpperBound(acts: seq<Activation>, num: nat): (r: nat)
    requires InOrder(acts)
    ensures r <= |acts|
    ensures forall i :: 0 <= i < |acts| ==> (i < r <==> acts[i].num <= num)
  {
    LowerBound(acts, num + 1)
  }

  /** Popping to a block from before some activations restores the slots and the list of that time. */
  lemma PopUndoes(acts: seq<Activation>, builtins: seq<Entry>, head: nat,
                  later: seq<Activation>, num: Num, builtins': seq<Entry>, head': nat)
    requires Agrees(acts, builtins, head) && InOrder(acts + later)
    requires forall i :: 0 <= i < |acts| ==> acts[i].num <= num
    requires forall i :: 0 <= i < |later| ==> num < later[i].num
    requires |builtins'| == |builtins| && Agrees((acts + later)[..UpperBound(acts + later, num)], builtins', head')
    ensures builtins' == builtins && head' == head
  {
    hide Agrees, InOrder, UpperBound;
    var n := UpperBound(acts + later, num);
    assert acts != [] ==> (acts + later)[|acts| - 1] == acts[|acts| - 1];
    assert later != [] ==> (acts + later)[|acts|] == later[0];
    assert (acts + later)[..n] == acts;
    AgreementDetermines(acts, builtins, head, builtins', head');
  }

  lemma SlotsFit(acts: seq<Activation>, builtins: seq<Entry>, head: nat)
    requires Agrees(acts, builtins, head)
    ensures |builtins| <= NO_PREVIOUS
  {
  }

  /** A slot that links to itself heads no list: what a second activation at the reserved number leaves behind. */
  lemma {:induction false} SelfLoopIsNoList(builtins: seq<Entry>, head: nat, list: seq<nat>)
    requires head < |builtins| <= NO_PREVIOUS && builtins[head].previous == head
    ensures !Reads(builtins, head, list)
    decreases |list|
  {
    if list != [] { SelfLoopIsNoList(builtins, head, list[1..]); }
  }

  // ---- The manager ----

  /** Activations a manager with these features and so many slots can make, in this order, from an empty stack. */
  ghost predicate Restorable(features: Recognized, slots: nat, acts: seq<Activation>)
  {
    && InOrder(acts) && Distinct(acts)
    && forall i :: 0 <= i < |acts| ==>
         && acts[i].num < NOT_ACTIVE
         && acts[i].digest in features && features[acts[i].digest].builtin == Some(acts[i].slot) && acts[i].slot < slots
  }

  ghost predicate Stored(acts: seq<Activation>, saved: seq<(Digest, Num)>)
  {
    |saved| == |acts| && forall i :: 0 <= i < |acts| ==> saved[i] == (acts[i].digest, acts[i].num)
  }

  class FeatureManager {
    const features: Recognized
    var activated: seq<Activation>
    var builtins: seq<Entry>
    var head: nat
    var initialized: bool

    ghost predicate Valid()
      reads this
    {
      Agrees(activated, builtins, head)
    }

    constructor (recognized: Recognized, slots: nat)
      requires slots <= NO_PREVIOUS
      ensures Valid() && activated == [] && features == recognized && |builtins| == slots && !initialized
    {
      features := recognized;
      activated, builtins, head, initialized := [], seq(slots, _ => INACTIVE), NO_PREVIOUS, false;
    }

    /**
     A feature counts as active at a number exactly when the vector has it at or before; the largest number is the
     exception.
     */
    method IsBuiltinActivated(slot: nat, num: Num) returns (r: bool)
      requires Valid()
      ensures r <==>
        || (exists i :: 0 <= i < |activated| && activated[i].slot == slot && activated[i].num <= num)
        || (slot < |builtins| && num == NOT_ACTIVE)
    {
      hide Reads, Latest;
      if slot >= |builtins| { return false; }
      r := builtins[slot].num <= num;
      if r && num < NOT_ACTIVE {
        assert Activated(activated, slot);
      }
    }

    ghost predicate Activatable(digest: Digest, num: Num)
      reads this
    {
      && initialized
      && digest in features
      && (activated != [] ==> activated[|activated| - 1].num <= num)
      && features[digest].builtin.Some?
      && features[digest].builtin.value < |builtins|
      && builtins[features[digest].builtin.value].num == NOT_ACTIVE
    }

    method ActivateFeature(digest: Digest, num: Num) returns (r: Result<(), FeatureError>)
      modifies this
      ensures initialized == old(initialized)
      ensures r.Ok? <==> old(Activatable(digest, num))
      ensures r.Err? ==> activated == old(activated) && builtins == old(builtins) && head == old(head)
      ensures r.Ok? ==> (
        var slot := features[digest].builtin.value;
        && activated == old(activated) + [Activation(digest, slot, num)]
        && builtins == old(builtins)[slot := Entry(old(head), num)]
        && head == slot)
      ensures old(Valid()) && r.Ok? ==> (Valid() <==> num < NOT_ACTIVE)
      ensures r.Ok? ==> forall later: Num :: num <= later ==> (Activatable(digest, later) <==> num == NOT_ACTIVE)
    {
      hide Reads, Latest, InOrder, Distinct, SlotsAgree;
      if !initialized { return Err(NotInitialized); }
      if digest !in features { return Err(Unrecognized); }
      if |activated| > 0 && activated[|activated| - 1].num > num { return Err(OutOfOrder); }
      if features[digest].builtin.None? { return Err(NotBuiltin); }
      var slot := features[digest].builtin.value;
      if slot >= |builtins| { return Err(UnsupportedSlot); }
      if builtins[slot].num != NOT_ACTIVE { return Err(AlreadyActivated); }
      if Agrees(activated, builtins, head) {
        PushKeepsAgreement(activated, builtins, head, Activation(digest, slot, num));
      }
      activated := activated + [Activation(digest, slot, num)];
      builtins := builtins[slot := builtins[slot].(previous := head)];
      builtins := builtins[slot := builtins[slot].(num := num)];
      head := slot;
      return Ok(());
    }

    /** Activated twice at the reserved number, a feature's slot links to itself and the list is lost. */
    method ActivateTwiceAtReserved(digest: Digest)
      requires Valid() && Activatable(digest, NOT_ACTIVE)
      modifies this
      ensures |activated| == |old(activated)| + 2 && head == features[digest].builtin.value
      ensures head < |builtins| && builtins[head].previous == head
      ensures forall list :: !Reads(builtins, head, list)
    {
      hide Reads, Agrees;
      assert |builtins| <= NO_PREVIOUS by { SlotsFit(activated, builtins, head); }
      var first := ActivateFeature(digest, NOT_ACTIVE);
      var second := ActivateFeature(digest, NOT_ACTIVE);
      forall list
        ensures !Reads(builtins, head, list)
      {
        SelfLoopIsNoList(builtins, head, list);
      }
    }

    /** `init`: replays the stored activations; what a stack of these features stored comes back whole. */
    method Init(saved: seq<(Digest, Num)>, ghost acts: seq<Activation>) returns (r: Result<(), FeatureError>)
      modifies this
      ensures |builtins| == old(|builtins|)
      ensures old(Valid()) && (forall i :: 0 <= i < |saved| ==> saved[i].1 < NOT_ACTIVE) ==> Valid()
      ensures r.Ok? && Valid() ==> forall i :: 0 <= i < |saved| ==> saved[i].1 < NOT_ACTIVE
      ensures old(initialized) ==> r == Err(AlreadyInitialized) && activated == old(activated) && initialized
      ensures !old(initialized) ==> initialized == r.Ok?
      ensures
        && old(Valid()) && !old(initialized) && old(activated) == []
        && Stored(acts, saved) && Restorable(features, |builtins|, acts) ==>
        r.Ok? && activated == acts
    {
      hide Agrees, Restorable;
      if initialized { return Err(AlreadyInitialized); }
      initialized := true;
      ghost var restores := Valid() && activated == [] && Stored(acts, saved) && Restorable(features, |builtins|, acts);
      for i := 0 to |saved|
        invariant initialized && |builtins| == old(|builtins|)
        invariant old(Valid()) && (forall j :: 0 <= j < i ==> saved[j].1 < NOT_ACTIVE) ==> Valid()
        invariant |activated| == |old(activated)| + i
        invariant forall j :: 0 <= j < i ==> activated[|old(activated)| + j].num == saved[j].1
        invariant restores ==> Valid() && activated == acts[..i]
      {
        if restores { CanActivateNext(features, acts, i, builtins, head); }
        var done := ActivateFeature(saved[i].0, saved[i].1);
        if done.Err? {
          initialized := false;
          return done;
        }
        if restores { assert activated == acts[..i + 1]; }
      }
      NumbersBelow(activated, builtins, head);
      assert forall i :: 0 <= i < |saved| ==> activated[|old(activated)| + i].num == saved[i].1;
      return Ok(());
    }

    /** Undoes exactly the activations made after the block, in the list and in the vector. */
    method PoppedBlocksTo(num: Num) returns (r: Result<(), FeatureError>)
      requires Valid()
      modifies this
      ensures Valid() && initialized == old(initialized) && |builtins| == old(|builtins|)
      ensures r.Ok? <==> initialized
      ensures r.Err? ==> activated == old(activated)
      ensures r.Ok? ==> activated == old(activated)[..UpperBound(old(activated), num)]
    {
      hide Reads, Latest, SlotsAgree, InOrder, Distinct, UpperBound;
      if !initialized { return Err(NotInitialized); }
      UnwindList(num);
      ghost var n := |activated|;
      while |activated| > 0 && num < activated[|activated| - 1].num
        invariant UpperBound(old(activated), num) <= |activated| <= n
        invariant activated == old(activated)[..|activated|]
        invariant initialized
        invariant Agrees(old(activated)[..UpperBound(old(activated), num)], builtins, head)
        invariant |builtins| == old(|builtins|)
      {
        activated := activated[..|activated| - 1];
      }
      return Ok(());
    }

    method UnwindList(num: Num)
      requires Valid()
      modifies this`builtins, this`head
      ensures Agrees(activated[..UpperBound(activated, num)], builtins, head) && |builtins| == old(|builtins|)
    {
      hide Reads, Latest, SlotsAgree, InOrder, Distinct, UpperBound;
      ghost var n := |activated|;
      assert activated[..n] == activated;
      while head != NO_PREVIOUS
        invariant UpperBound(activated, num) <= n <= |activated|
        invariant Agrees(activated[..n], builtins, head) && |builtins| == old(|builtins|)
        decreases n
      {
        HeadIsLatest(activated[..n], builtins, head);
        if builtins[head].num <= num { break; }
        PopKeepsAgreement(activated[..n], builtins, head);
        assert activated[..n][..n - 1] == activated[..n - 1];
        var e := builtins[head];
        builtins := builtins[head := INACTIVE];
        head := e.previous;
        n := n - 1;
      }
      HeadIsLatest(activated[..n], builtins, head);
    }
  }
}
