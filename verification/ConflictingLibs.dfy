/**
 What it costs the producers when two branches under one schedule make different blocks of one height irreversible.
 */
module ConflictingLibs {
  import opened Results
  import opened OrderStatistic
  import opened BlockHeaderState
  import opened DposFinality
  import opened LastIrreversibleNumber

  /** A run under one list of producers, from a state as they are reached from genesis. */
  ghost predicate Branch(ss: seq<HeaderState>, hs: seq<Header>, producers: seq<AccountName>)
  {
    IsRun(ss, hs) && hs != [] && StateOk(ss[0]) && KeysAreActive(ss[0]) && UnderSchedule(ss, hs, producers)
  }

  /** The producers of the first `n` headers that were made on top of a proposed number of at least `j`. */
  function Impliers(ss: seq<HeaderState>, hs: seq<Header>, n: nat, j: nat): set<AccountName>
    requires |ss| == |hs| + 1 && n <= |hs|
  {
    set i | 0 <= i < n && ss[i].proposedIrreversible >= j :: hs[i].producer
  }

  lemma ImpliersGrow(ss: seq<HeaderState>, hs: seq<Header>, n: nat, j: nat)
    requires |ss| == |hs| + 1 && n < |hs|
    ensures Impliers(ss, hs, n + 1, j) ==
      Impliers(ss, hs, n, j) + if ss[n].proposedIrreversible >= j then {hs[n].producer} else {}
  {
  }

  /** Under one list of producers a step changes the implied number of its producer alone, also when it promotes. */
  lemma StepImplies(st: HeaderState, h: Header, st': HeaderState)
    requires Steps(st, h, st') && KeysAreActive(st) && st'.active.producers == st.active.producers
    ensures st'.lastImplied == st.lastImplied[h.producer := st.proposedIrreversible] && KeysAreActive(st')
  {
    hide Steps, LastIrreversible, StepConfirmation, DoubleConfirms;
    StepFacts(st, h, st');
    assert h.producer in st.lastImplied;
  }

  /** Whoever implies `j`, a height of the run, made a block of the run on top of a proposed number of at least `j`. */
  lemma {:induction false} ImpliedByImpliers(ss: seq<HeaderState>, hs: seq<Header>, producers: seq<AccountName>, n: nat,
                                             j: nat)
    requires Branch(ss, hs, producers) && n < |hs| && j > ss[0].blockNum
    ensures KeysAreActive(ss[n]) && AtLeast(ss[n].lastImplied, j) <= Impliers(ss, hs, n, j)
  {
    if n == 0 {
      assert AtLeast(ss[0].lastImplied, j) == {};
    } else {
      hide Steps, StateOk, KeysAreActive, Impliers;
      ImpliedByImpliers(ss, hs, producers, n - 1, j);
      StepImplies(ss[n - 1], hs[n - 1], ss[n]);
      ImpliersGrow(ss, hs, n - 1, j);
    }
  }

  /** A number becomes irreversible only when more than two thirds of the producers made blocks that imply it. */
  lemma LibHasImpliers(ss: seq<HeaderState>, hs: seq<Header>, producers: seq<AccountName>, j: nat)
    requires Branch(ss, hs, producers) && ss[0].blockNum < j <= ss[|hs|].irreversible
    ensures Impliers(ss, hs, |hs|, j) <= Names(producers)
    ensures 3 * |Impliers(ss, hs, |hs|, j)| > 2 * |Names(producers)|
  {
    hide Steps, StateOk, Impliers;
    var n := |hs| - 1;
    var m, all := Considered(ss[n], hs[n]), Impliers(ss, hs, n + 1, j);
    ImpliedByImpliers(ss, hs, producers, n, j);
    ImpliersGrow(ss, hs, n, j);
    ImpliersAreProducers(ss, hs, producers, n + 1, j);
    assert m.Keys == Names(producers) && |m| == |m.Keys|;
    SomeProducer(ss[n], hs[n], ss[n + 1]);
    LibHasTwoThirds(ss[n], hs[n], ss[n + 1]);
    assert AtLeast(m, ss[n + 1].irreversible) <= all;
    SubsetSize(AtLeast(m, ss[n + 1].irreversible), all);
  }

  lemma SomeProducer(st: HeaderState, h: Header, st': HeaderState)
    requires Steps(st, h, st') && KeysAreActive(st)
    ensures st.lastImplied.Keys != {}
  {
    StepFacts(st, h, st');
    assert h.producer in st.lastImplied;
  }

  lemma ProducerIsNamed(st: HeaderState, h: Header, st': HeaderState, producers: seq<AccountName>)
    requires Steps(st, h, st') && st.active.producers == producers
    ensures h.producer in Names(producers)
  {
    StepFacts(st, h, st');
    hide Steps;
  }

  lemma {:induction false} ImpliersAreProducers(ss: seq<HeaderState>, hs: seq<Header>, producers: seq<AccountName>,
                                                n: nat, j: nat)
    requires IsRun(ss, hs) && UnderSchedule(ss, hs, producers) && n <= |hs|
    ensures Impliers(ss, hs, n, j) <= Names(producers)
  {
    if n > 0 {
      hide Impliers, Steps, StateOk, Names;
      ImpliersAreProducers(ss, hs, producers, n - 1, j);
      ImpliersGrow(ss, hs, n - 1, j);
      ProducerIsNamed(ss[n - 1], hs[n - 1], ss[n], producers);
    }
  }

  /** Before that a quorum of distinct producers confirmed a block of the run at that height or above. */
  lemma LibHasQuorum(ss: seq<HeaderState>, hs: seq<Header>, producers: seq<AccountName>, j: nat) returns (k: nat)
    requires Branch(ss, hs, producers) && ss[0].blockNum < j <= ss[|hs|].irreversible && NoRepeats(ss, hs, |hs|)
    ensures j <= k && |Confirmers(Votes(ss, hs), k)| >= Required(|producers|)
    ensures Confirmers(Votes(ss, hs), k) <= Names(producers)
  {
    hide Steps, StateOk, KeysAreActive, Confirmers, NoRepeats, RepeatsVote, Votes;
    RunKeepsStateOk(ss, hs);
    var n := |hs|;
    NumbersInOrder(ss[0]);
    NumbersInOrder(ss[n]);
    while ss[n - 1].proposedIrreversible == ss[n].proposedIrreversible
      invariant 0 < n <= |hs| && j <= ss[n].proposedIrreversible
      decreases n
    {
      n := n - 1;
    }
    k := ss[n].proposedIrreversible;
    PrefixRun(ss, hs, producers, n);
    ProposedHasQuorum(ss[..n + 1], hs[..n], producers);
    PrefixConfirmers(ss, hs, n, k);
    ConfirmersOfRun(ss, hs, producers, k);
    SubsetSize(Confirmers(Votes(ss[..n + 1], hs[..n]), k), Confirmers(Votes(ss, hs), k));
  }

  lemma NumbersInOrder(st: HeaderState)
    requires StateOk(st)
    ensures st.irreversible <= st.proposedIrreversible <= st.blockNum
  {
  }

  lemma PrefixRun(ss: seq<HeaderState>, hs: seq<Header>, producers: seq<AccountName>, n: nat)
    requires IsRun(ss, hs) && UnderSchedule(ss, hs, producers) && NoRepeats(ss, hs, |hs|) && n <= |hs|
    ensures IsRun(ss[..n + 1], hs[..n]) && UnderSchedule(ss[..n + 1], hs[..n], producers)
    ensures NoRepeats(ss[..n + 1], hs[..n], n)
  {
    hide Steps, RepeatsVote, Votes;
    forall i | 0 <= i < n ensures Votes(ss[..n + 1], hs[..n][..i]) == Votes(ss, hs[..i]) {
      assert hs[..n][..i] == hs[..i];
      VotesOfPrefix(ss, hs, n, i);
    }
  }

  lemma {:induction false} VotesOfPrefix(ss: seq<HeaderState>, hs: seq<Header>, n: nat, i: nat)
    requires |ss| == |hs| + 1 && i <= n <= |hs|
    ensures Votes(ss[..n + 1], hs[..i]) == Votes(ss, hs[..i])
    decreases i
  {
    if i > 0 {
      VotesOfPrefix(ss, hs, n, i - 1);
      assert hs[..i][..i - 1] == hs[..i - 1];
    }
  }

  lemma {:induction false} VotesGrow(ss: seq<HeaderState>, hs: seq<Header>, n: nat)
    requires |ss| == |hs| + 1 && n <= |hs|
    ensures forall v | v in Votes(ss, hs[..n]) :: v in Votes(ss, hs)
    decreases |hs| - n
  {
    if n < |hs| {
      VotesStep(ss, hs, n);
      VotesGrow(ss, hs, n + 1);
    } else {
      assert hs[..n] == hs;
    }
  }

  lemma PrefixConfirmers(ss: seq<HeaderState>, hs: seq<Header>, n: nat, k: nat)
    requires |ss| == |hs| + 1 && n <= |hs|
    ensures Confirmers(Votes(ss[..n + 1], hs[..n]), k) <= Confirmers(Votes(ss, hs), k)
  {
    hide Votes;
    assert hs[..n][..n] == hs[..n];
    VotesOfPrefix(ss, hs, n, n);
    VotesGrow(ss, hs, n);
  }

  lemma ConfirmersOfRun(ss: seq<HeaderState>, hs: seq<Header>, producers: seq<AccountName>, k: nat)
    requires IsRun(ss, hs) && StateOk(ss[0]) && UnderSchedule(ss, hs, producers) && NoRepeats(ss, hs, |hs|)
    ensures Confirmers(Votes(ss, hs), k) <= Names(producers)
  {
    hide Steps, StateOk, RepeatsVote, Votes;
    CountsAreQuorumMinusConfirmers(ss, hs, producers, |hs|);
    assert hs[..|hs|] == hs;
    ConfirmersAreVoters(Votes(ss, hs), k, producers);
  }

  /**
   Two branches under one schedule whose irreversible numbers both cover height `j`, and do not share its block: more
   than a third of the producers made a block on each of them on top of a proposed number of at least `j`, and on each,
   unless votes are repeated, a quorum confirmed some block at or above `j`.
   */
  lemma ConflictingLibsShareImpliers(
    ss1: seq<HeaderState>, hs1: seq<Header>, ss2: seq<HeaderState>, hs2: seq<Header>,
    producers: seq<AccountName>, j: nat)
    requires Branch(ss1, hs1, producers) && ss1[0].blockNum < j <= ss1[|hs1|].irreversible
    requires Branch(ss2, hs2, producers) && ss2[0].blockNum < j <= ss2[|hs2|].irreversible
    ensures 3 * |Impliers(ss1, hs1, |hs1|, j) * Impliers(ss2, hs2, |hs2|, j)| > |Names(producers)|
    ensures NoRepeats(ss1, hs1, |hs1|) ==>
      exists k | j <= k :: |Confirmers(Votes(ss1, hs1), k)| >= Required(|producers|)
    ensures NoRepeats(ss2, hs2, |hs2|) ==>
      exists k | j <= k :: |Confirmers(Votes(ss2, hs2), k)| >= Required(|producers|)
  {
    hide Steps, StateOk, KeysAreActive, UnderSchedule, Impliers, Names, NoRepeats, Votes, Confirmers;
    LibHasImpliers(ss1, hs1, producers, j);
    LibHasImpliers(ss2, hs2, producers, j);
    TwoThirdsOverlap(Impliers(ss1, hs1, |hs1|, j), Impliers(ss2, hs2, |hs2|, j), Names(producers));
    if NoRepeats(ss1, hs1, |hs1|) { var k := LibHasQuorum(ss1, hs1, producers, j); }
    if NoRepeats(ss2, hs2, |hs2|) { var k := LibHasQuorum(ss2, hs2, producers, j); }
  }

  lemma TwoThirdsOverlap(a: set<AccountName>, b: set<AccountName>, all: set<AccountName>)
    requires a <= all && b <= all && 3 * |a| > 2 * |all| && 3 * |b| > 2 * |all|
    ensures 3 * |a * b| > |all|
  {
    assert |a + b| + |a * b| == |a| + |b|;
    SubsetSize(a + b, all);
  }
}
