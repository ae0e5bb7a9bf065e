/** Soundness of the last irreversible block number in every state reachable from genesis. */
module LastIrreversibleNumber {
  import opened Results
  import opened OrderStatistic
  import opened BlockHeaderState
  import opened DposFinality

  /** The state a new chain starts from: one producer, and the same schedule already pending. */
  function Genesis(producer: AccountName, slot: nat): HeaderState
  {
    var initial := Schedule(0, [producer]);
    HeaderState(1, slot, 0, 0, initial, ScheduleInfo(0, initial), map[], map[], [])
  }

  predicate KeysAreActive(st: HeaderState)
  {
    st.lastImplied.Keys == Names(st.active.producers)
  }

  ghost predicate PromotedBy(st: HeaderState, h: Header)
  {
    Promotes(st.pending, StepLib(st, h))
  }

  /** A promotion makes the map's keys the active producers, and every later step keeps them so. */
  lemma StepKeys(st: HeaderState, h: Header, st': HeaderState)
    requires Steps(st, h, st')
    requires KeysAreActive(st) || PromotedBy(st, h)
    ensures KeysAreActive(st')
  {
    hide LastIrreversible, Confirm, Grow, DoubleConfirms, Steps, StepConfirmation;
    StepFacts(st, h, st');
  }

  /** The map from which the block's irreversible number was computed. */
  function Considered(st: HeaderState, h: Header): map<AccountName, nat>
  {
    WithImplied(st.lastImplied, h.producer, st.proposedIrreversible)
  }

  function AtLeast(m: map<AccountName, nat>, v: nat): set<AccountName>
  {
    set p | p in m && m[p] >= v
  }

  /** More than two thirds of the producers considered imply the irreversible number or a later one. */
  lemma LibHasTwoThirds(st: HeaderState, h: Header, st': HeaderState)
    requires Steps(st, h, st') && st.lastImplied.Keys != {}
    ensures var m := Considered(st, h);
      3 * |AtLeast(m, st'.irreversible)| > 2 * |m|
  {
    StepFacts(st, h, st');
    var m := Considered(st, h);
    assert m.Keys == st.lastImplied.Keys && |m| == |m.Keys| > 0 by { NonEmptySize(m); }
    AtOrAbove(m, st'.irreversible);
  }

  lemma NonEmptySize(m: map<AccountName, nat>)
    requires m.Keys != {}
    ensures |m| > 0
  {
    var p :| p in m.Keys;
    SubsetSize({p}, m.Keys);
    assert |m| == |m.Keys|;
  }

  lemma AtOrAbove(m: map<AccountName, nat>, v: nat)
    requires |m| > 0 && v == Kth(m, (|m| - 1) / 3)
    ensures 3 * |AtLeast(m, v)| > 2 * |m|
  {
    assert m.Keys == Below(m, v) + AtLeast(m, v);
    assert |m.Keys| == |Below(m, v)| + |AtLeast(m, v)|;
    assert CountBelow(m, v) <= (|m| - 1) / 3;
  }

  /**
   The exact condition under which the next irreversible number reaches `v`: at most a third (rounded
   down, less one) of the producers considered imply something below `v`. Taking the current number
   for `v`, this says exactly when a promotion lowers the number.
   */
  lemma LibReachesExactly(st: HeaderState, h: Header, st': HeaderState, v: nat)
    requires Steps(st, h, st') && st.lastImplied.Keys != {}
    ensures var m := Considered(st, h);
      st'.irreversible >= v <==> CountBelow(m, v) <= (|m| - 1) / 3
  {
    hide CountBelow, Confirm, Grow;
    StepFacts(st, h, st');
    var m := Considered(st, h);
    assert m.Keys == st.lastImplied.Keys;
    NonEmptySize(m);
    KthReaches(m, (|m| - 1) / 3, v);
  }

  /** Without a promotion the irreversible number is the order statistic of the resulting map. */
  predicate LibOfMap(st: HeaderState, v: nat)
  {
    |st.lastImplied| > 0 && IsKth(st.lastImplied, (|st.lastImplied| - 1) / 3, v)
  }

  lemma StepLibOfMap(st: HeaderState, h: Header, st': HeaderState)
    requires Steps(st, h, st') && KeysAreActive(st) && !PromotedBy(st, h)
    ensures st'.lastImplied == Considered(st, h)
    ensures LibOfMap(st', st'.irreversible)
  {
    hide CountBelow, Confirm, Grow;
    StepFacts(st, h, st');
    var m := Considered(st, h);
    assert h.producer in st.lastImplied;
    assert st'.lastImplied == m;
    NonEmptySize(m);
  }

  /** Over one schedule's map the irreversible number never decreases. */
  lemma LibNeverDecreases(st0: HeaderState, h0: Header, st1: HeaderState, h1: Header, st2: HeaderState)
    requires StateOk(st0) && KeysAreActive(st0)
    requires Steps(st0, h0, st1) && !PromotedBy(st0, h0) && Steps(st1, h1, st2)
    ensures st1.irreversible <= st2.irreversible
  {
    hide CountBelow, Confirm, Grow, Steps, StateOk, DoubleConfirms, LastIrreversible, IsKth;
    StepKeepsStateOk(st0, h0, st1);
    StepLibOfMap(st0, h0, st1);
    StepFacts(st1, h1, st2);
    RaisedLib(st1.lastImplied, h1.producer, st1.proposedIrreversible, st1.irreversible) by {
      assert AtMost(st1.lastImplied, st1.proposedIrreversible) by { StateOkBounds(st1); }
    }
  }

  lemma StateOkBounds(st: HeaderState)
    requires StateOk(st)
    ensures AtMost(st.lastImplied, st.proposedIrreversible)
  {
  }

  lemma RaisedLib(implied: map<AccountName, nat>, p: AccountName, proposed: nat, v: nat)
    requires AtMost(implied, proposed) && |implied| > 0 && IsKth(implied, (|implied| - 1) / 3, v)
    ensures v <= LastIrreversible(implied, p, proposed)
  {
    hide CountBelow;
    var k := (|implied| - 1) / 3;
    var m := WithImplied(implied, p, proposed);
    KthIsUnique(implied, k, v, Kth(implied, k));
    KthMonotone(implied, m, k);
  }

  /** Without a promotion, more than two thirds of the producers in the resulting map imply the irreversible number. */
  lemma OwnMapHasTwoThirds(st: HeaderState, h: Header, st': HeaderState)
    requires Steps(st, h, st') && KeysAreActive(st) && !PromotedBy(st, h)
    ensures 3 * |AtLeast(st'.lastImplied, st'.irreversible)| > 2 * |st'.lastImplied|
  {
    hide Steps, PromotedBy, AtLeast, IsKth, CountBelow, Kth;
    StepLibOfMap(st, h, st');
    var m, k := st'.lastImplied, (|st'.lastImplied| - 1) / 3;
    KthIsUnique(m, k, st'.irreversible, Kth(m, k));
    AtOrAbove(m, st'.irreversible);
  }

  /** The producers of the schedule taking over that are known to imply less than the irreversible number. */
  ghost function Lagging(st: HeaderState, h: Header): set<AccountName>
  {
    set a |
      && a in st.pending.schedule.producers && a != h.producer
      && a in st.lastImplied && st.lastImplied[a] < StepLib(st, h)
  }

  /** With a promotion that is so if and only if fewer than a third of the producers taking over lag behind. */
  lemma PromotedMapHasTwoThirds(st: HeaderState, h: Header, st': HeaderState)
    requires Steps(st, h, st') && StateOk(st) && PromotedBy(st, h)
    ensures 3 * |AtLeast(st'.lastImplied, st'.irreversible)| > 2 * |st'.lastImplied| <==>
      3 * |Lagging(st, h)| < |Names(st.pending.schedule.producers)|
  {
    hide Steps, LastIrreversible, StepConfirmation, DoubleConfirms, AtLeast, Carry, Names, Lagging;
    StepFacts(st, h, st');
    LibAtMostProposed(st.lastImplied, h.producer, st.proposedIrreversible);
    CarriedAtLeast(st, h, st'.lastImplied);
  }

  lemma CarriedAtLeast(st: HeaderState, h: Header, m: map<AccountName, nat>)
    requires StepLib(st, h) <= st.proposedIrreversible
    requires m == Carry(st.pending.schedule.producers, st.lastImplied, h.producer, st.proposedIrreversible,
      StepLib(st, h))
    ensures var all := Names(st.pending.schedule.producers);
      |m| == |all| && |AtLeast(m, StepLib(st, h))| + |Lagging(st, h)| == |all|
  {
    hide StepLib;
    var all := Names(st.pending.schedule.producers);
    assert m.Keys == all && |m| == |m.Keys|;
    assert AtLeast(m, StepLib(st, h)) == all - Lagging(st, h);
    PartsAddUp(Lagging(st, h), all);
  }

  lemma PartsAddUp(part: set<AccountName>, all: set<AccountName>)
    requires part <= all
    ensures |all - part| + |part| == |all|
  {
    assert all == (all - part) + part;
  }

  // ---- Runs from genesis ----

  lemma GenesisOk(producer: AccountName, slot: nat)
    ensures StateOk(Genesis(producer, slot))
  {
  }

  /** The genesis state already promotes its pending schedule, so the keys match from the first block on. */
  lemma {:induction false} ReachableKeys(producer: AccountName, slot: nat, ss: seq<HeaderState>, hs: seq<Header>,
                                         n: nat)
    requires IsRun(ss, hs) && ss[0] == Genesis(producer, slot) && 1 <= n < |ss|
    ensures KeysAreActive(ss[n])
  {
    hide Steps, KeysAreActive;
    if n == 1 {
      assert ss[0].lastImplied == map[] && |WithImplied(map[], hs[0].producer, 0)| == 0;
    } else {
      ReachableKeys(producer, slot, ss, hs, n - 1);
    }
    StepKeys(ss[n - 1], hs[n - 1], ss[n]);
  }

  lemma PromotedActive(st: HeaderState, h: Header, st': HeaderState)
    requires Steps(st, h, st') && PromotedBy(st, h)
    ensures st'.active.producers == st.pending.schedule.producers
  {
    hide Steps, LastIrreversible, StepConfirmation, DoubleConfirms, Carry;
    StepFacts(st, h, st');
  }

  /** LIB soundness in every state reachable from genesis. */
  lemma LibSoundness(producer: AccountName, slot: nat, ss: seq<HeaderState>, hs: seq<Header>, n: nat)
    requires IsRun(ss, hs) && ss[0] == Genesis(producer, slot) && n < |ss|
    ensures ss[n].irreversible <= ss[n].proposedIrreversible <= ss[n].blockNum
    ensures forall p | p in ss[n].lastImplied :: ss[n].lastImplied[p] <= ss[n].proposedIrreversible
    ensures n > 0 ==> ss[n - 1].proposedIrreversible <= ss[n].proposedIrreversible
    ensures n > 0 ==> ss[n].lastImplied.Keys == Names(ss[n].active.producers)
    ensures n > 2 && !PromotedBy(ss[n - 2], hs[n - 2]) ==> ss[n - 1].irreversible <= ss[n].irreversible
    ensures n > 1 && !PromotedBy(ss[n - 1], hs[n - 1]) ==>
      3 * |AtLeast(ss[n].lastImplied, ss[n].irreversible)| > 2 * |ss[n].lastImplied|
    ensures n > 0 && PromotedBy(ss[n - 1], hs[n - 1]) ==>
      (3 * |AtLeast(ss[n].lastImplied, ss[n].irreversible)| > 2 * |ss[n].lastImplied| <==>
       3 * |Lagging(ss[n - 1], hs[n - 1])| < |Names(ss[n].active.producers)|)
  {
    hide Steps, AtLeast, Lagging, PromotedBy;
    GenesisOk(producer, slot);
    RunKeepsStateOk(ss, hs);
    if n > 0 { ReachableKeys(producer, slot, ss, hs, n); }
    if n > 2 && !PromotedBy(ss[n - 2], hs[n - 2]) {
      ReachableKeys(producer, slot, ss, hs, n - 2);
      LibNeverDecreases(ss[n - 2], hs[n - 2], ss[n - 1], hs[n - 1], ss[n]);
    }
    if n > 0 && PromotedBy(ss[n - 1], hs[n - 1]) {
      PromotedMapHasTwoThirds(ss[n - 1], hs[n - 1], ss[n]);
      PromotedActive(ss[n - 1], hs[n - 1], ss[n]);
    } else if n > 1 {
      ReachableKeys(producer, slot, ss, hs, n - 1);
      OwnMapHasTwoThirds(ss[n - 1], hs[n - 1], ss[n]);
    }
  }
}
