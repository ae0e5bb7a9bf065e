/**
 Finality over whole runs of the header state machine: how many distinct producers stand behind a
 proposed irreversible block, and what two conflicting branches cost the producers.
 */
module DposFinality {
  import opened Results
  import opened OrderStatistic
  import opened BlockHeaderState

  // ---- Counts addressed by block number ----

  predicate Tracked(counts: seq<nat>, num: nat, j: nat)
  {
    num - |counts| < j <= num
  }

  function CountOf(counts: seq<nat>, num: nat, j: nat): nat
    requires Tracked(counts, num, j)
  {
    counts[|counts| - 1 - (num - j)]
  }

  predicate InRange(counts: seq<nat>)
  {
    forall i | 0 <= i < |counts| :: 1 <= counts[i] <= 255
  }

  /** The tracked window starts after the proposed block and no counter is zero. */
  predicate CountsOk(counts: seq<nat>, num: nat, proposed: nat)
  {
    InRange(counts) && proposed + |counts| <= num
  }

  lemma GrowByNumber(counts: seq<nat>, required: nat, num: nat, proposed: nat)
    requires CountsOk(counts, num, proposed) && 1 <= required <= 255
    ensures var grown := Grow(counts, required);
      && CountsOk(grown, num + 1, proposed)
      && Tracked(grown, num + 1, num + 1) && CountOf(grown, num + 1, num + 1) == required
      && forall j: nat | Tracked(grown, num + 1, j) && j <= num ::
           Tracked(counts, num, j) && CountOf(grown, num + 1, j) == CountOf(counts, num, j)
    ensures forall j: nat | Tracked(counts, num, j) ::
      Tracked(Grow(counts, required), num + 1, j) || (|counts| >= 1024 && j + |counts| == num + 1)
  {
  }

  /** Confirming the newest `k` blocks turned `counts` into `c`, block by block. */
  ghost predicate ConfirmedByNumber(counts: seq<nat>, num: nat, proposed: nat, k: nat, c: Confirmation)
  {
    && CountsOk(c.counts, num, c.proposed)
    && proposed <= c.proposed <= num
    && (forall j: nat | Tracked(c.counts, num, j) ::
          && Tracked(counts, num, j)
          && CountOf(c.counts, num, j) == CountOf(counts, num, j) - (if num < j + k then 1 else 0))
    && (c.proposed != proposed ==>
          && Tracked(counts, num, c.proposed) && CountOf(counts, num, c.proposed) == 1 && num < c.proposed + k
          && |c.counts| == num - c.proposed)
  }

  lemma ConfirmWithoutZero(counts: seq<nat>, num: nat, proposed: nat, k: nat)
    requires CountsOk(counts, num, proposed)
    requires IsNewestAtOne(counts, OldestConfirmed(counts, k), -1)
    ensures ConfirmedByNumber(counts, num, proposed, k,
              ConfirmAt(counts, num, proposed, OldestConfirmed(counts, k), -1))
  {
    hide DecrementAll;
    var lo := OldestConfirmed(counts, k);
    var c := ConfirmAt(counts, num, proposed, lo, -1);
    assert |c.counts| == |counts|;
    forall j: nat | Tracked(c.counts, num, j)
      ensures CountOf(c.counts, num, j) == CountOf(counts, num, j) - (if num < j + k then 1 else 0)
    {
    }
    assert forall i | lo <= i < |counts| :: c.counts[i] == Dec8(counts[i]);
  }

  lemma ConfirmWithZero(counts: seq<nat>, num: nat, proposed: nat, k: nat, z: nat)
    requires CountsOk(counts, num, proposed)
    requires IsNewestAtOne(counts, OldestConfirmed(counts, k), z)
    ensures ConfirmedByNumber(counts, num, proposed, k,
              ConfirmAt(counts, num, proposed, OldestConfirmed(counts, k), z))
  {
    hide DecrementAll;
    var c := ConfirmAt(counts, num, proposed, OldestConfirmed(counts, k), z);
    assert |c.counts| == |counts| - z - 1;
    assert forall i | 0 <= i < |c.counts| :: c.counts[i] == Dec8(counts[i + z + 1]);
  }

  /** No counter ever wraps: each confirmed count drops by one and stays positive while it is tracked. */
  lemma ConfirmByNumber(counts: seq<nat>, num: nat, proposed: nat, k: nat)
    requires CountsOk(counts, num, proposed)
    ensures ConfirmedByNumber(counts, num, proposed, k, Confirm(counts, num, proposed, k))
  {
    hide ConfirmedByNumber, ConfirmAt, NewestAtOne;
    var z := NewestAtOne(counts, OldestConfirmed(counts, k));
    if z == -1 {
      ConfirmWithoutZero(counts, num, proposed, k);
    } else {
      ConfirmWithZero(counts, num, proposed, k, z);
    }
  }

  // ---- Runs ----

  /** What the producer-setting intrinsic guarantees about an announced schedule. */
  predicate AnnouncedOk(h: Header)
  {
    h.newProducers.Some? ==> |h.newProducers.value.producers| <= MAX_PRODUCERS
  }

  predicate SchedulesOk(st: HeaderState)
  {
    1 <= |st.active.producers| <= MAX_PRODUCERS && |st.pending.schedule.producers| <= MAX_PRODUCERS
  }

  predicate AtMost(m: map<AccountName, nat>, bound: nat)
  {
    forall p | p in m :: m[p] <= bound
  }

  /** implied irreversible numbers and LIB <= proposed <= block number, and the counts are in order. */
  predicate StateOk(st: HeaderState)
  {
    && SchedulesOk(st)
    && CountsOk(st.confirmCount, st.blockNum, st.proposedIrreversible)
    && AtMost(st.lastProduced, st.blockNum)
    && AtMost(st.lastImplied, st.proposedIrreversible)
    && st.irreversible <= st.proposedIrreversible <= st.blockNum
  }

  /** Header `h` is accepted on top of `st` and yields `st'`. */
  ghost predicate Steps(st: HeaderState, h: Header, st': HeaderState)
  {
    && AnnouncedOk(h)
    && st.active.producers != [] && |st.confirmCount| <= st.blockNum
    && Advance(st, h) == Ok(st')
  }

  /** The states and the accepted headers of one branch. */
  ghost predicate IsRun(ss: seq<HeaderState>, hs: seq<Header>)
  {
    |ss| == |hs| + 1 && forall i | 0 <= i < |hs| :: Steps(ss[i], hs[i], ss[i + 1])
  }

  /** The confirmation performed by an accepted header. */
  function StepConfirmation(st: HeaderState, h: Header): Confirmation
    requires |st.confirmCount| <= st.blockNum
  {
    Confirm(Grow(st.confirmCount, Required(|st.active.producers|)), st.blockNum + 1,
            st.proposedIrreversible, h.confirmed + 1)
  }

  ghost function StepLib(st: HeaderState, h: Header): nat
  {
    LastIrreversible(st.lastImplied, h.producer, st.proposedIrreversible)
  }

  /** An accepted header agrees with its template in every field. */
  lemma StepFacts(st: HeaderState, h: Header, st': HeaderState)
    requires Steps(st, h, st')
    ensures h.producer == ScheduledProducer(st.active, h.slot) && h.slot > st.slot && st'.slot == h.slot
    ensures !DoubleConfirms(st, h.producer, h.confirmed) && AnnouncedOk(h)
    ensures st'.blockNum == st.blockNum + 1
    ensures st'.confirmCount == StepConfirmation(st, h).counts
    ensures st'.proposedIrreversible == StepConfirmation(st, h).proposed
    ensures st'.irreversible == StepLib(st, h)
    ensures var promote := st.pending.schedule.producers != [] && StepLib(st, h) >= st.pending.libNum;
      && st'.active == (if promote then st.pending.schedule else st.active)
      && st'.lastProduced == (if promote
           then Carry(st'.active.producers, st.lastProduced, h.producer, st'.blockNum, st'.irreversible)
                [h.producer := st'.blockNum]
           else st.lastProduced[h.producer := st'.blockNum])
      && st'.lastImplied == (if promote
           then Carry(st'.active.producers, st.lastImplied, h.producer, st.proposedIrreversible, st'.irreversible)
           else st.lastImplied[h.producer := st.proposedIrreversible])
      && st'.pending == (
           if h.newProducers.Some? then ScheduleInfo(st'.blockNum, h.newProducers.value)
           else if promote then ScheduleInfo(st.pending.libNum, Schedule(st.pending.schedule.version, []))
           else st.pending)
  {
    hide Confirm, Grow, LastIrreversible, Carry, ScheduledProducer, DoubleConfirms, Required;
  }

  /**
   The maps a promoted schedule starts with: the block's producer has its own numbers, the others keep theirs, and those
   who had none begin at the irreversible number.
   */
  lemma PromotedMaps(st: HeaderState, h: Header, st': HeaderState, a: AccountName)
    requires Steps(st, h, st') && st.pending.schedule.producers != [] && StepLib(st, h) >= st.pending.libNum
    ensures a in st'.lastImplied <==> a in st'.active.producers
    ensures a in st'.lastProduced <==> a in st'.active.producers || a == h.producer
    ensures a in st'.lastImplied ==>
      st'.lastImplied[a] == if a == h.producer then st.proposedIrreversible
                            else if a in st.lastImplied then st.lastImplied[a] else st'.irreversible
    ensures a in st'.lastProduced ==>
      st'.lastProduced[a] == if a == h.producer then st'.blockNum
                             else if a in st.lastProduced then st.lastProduced[a] else st'.irreversible
  {
    hide Steps, StepConfirmation, StepLib, ScheduledProducer, DoubleConfirms;
    StepFacts(st, h, st');
  }

  /** The range of the next block by `p` reaches, in 32-bit arithmetic, only above the last block that `p` produced. */
  predicate RangeIsNew(st: HeaderState, p: AccountName, confirmed: UInt16)
  {
    p in st.lastProduced ==> st.lastProduced[p] < (st.blockNum + 1 - confirmed) % 0x1_0000_0000
  }

  /** A schedule may be announced: none is pending, and the version is the next one. */
  predicate MayAnnounce(st: HeaderState, s: Schedule)
  {
    st.pending.schedule.producers == [] && s.version == st.active.version + 1
  }

  /** Which headers are accepted on top of a state. */
  lemma AcceptedExactly(st: HeaderState, h: Header)
    requires st.active.producers != [] && |st.confirmCount| <= st.blockNum
    ensures Advance(st, h).Ok? <==>
      && h.slot > st.slot
      && h.producer == st.active.producers[h.slot % |st.active.producers|]
      && RangeIsNew(st, h.producer, h.confirmed)
      && h.scheduleVersion == st.active.version
      && (h.newProducers.Some? ==> MayAnnounce(st, h.newProducers.value))
  {
    hide Confirm, Grow, LastIrreversible, Carry, Required;
  }

  /** The irreversible number is implied by some producer, so it stays at or below the proposed number. */
  lemma LibAtMostProposed(implied: map<AccountName, nat>, p: AccountName, proposed: nat)
    requires AtMost(implied, proposed)
    ensures LastIrreversible(implied, p, proposed) <= proposed
  {
    var m := WithImplied(implied, p, proposed);
    if |m| != 0 {
      var a := KthIsAValue(m, (|m| - 1) / 3);
    }
  }

  lemma StepCounts(st: HeaderState, h: Header)
    requires SchedulesOk(st) && CountsOk(st.confirmCount, st.blockNum, st.proposedIrreversible)
    ensures var grown := Grow(st.confirmCount, Required(|st.active.producers|));
      && CountsOk(grown, st.blockNum + 1, st.proposedIrreversible)
      && ConfirmedByNumber(grown, st.blockNum + 1, st.proposedIrreversible, h.confirmed + 1, StepConfirmation(st, h))
  {
    hide Grow, Confirm, ConfirmedByNumber, CountsOk;
    GrowByNumber(st.confirmCount, Required(|st.active.producers|), st.blockNum, st.proposedIrreversible);
    ConfirmByNumber(Grow(st.confirmCount, Required(|st.active.producers|)), st.blockNum + 1,
                    st.proposedIrreversible, h.confirmed + 1);
  }

  lemma StepKeepsStateOk(st: HeaderState, h: Header, st': HeaderState)
    requires Steps(st, h, st') && StateOk(st)
    ensures StateOk(st')
    ensures st.proposedIrreversible <= st'.proposedIrreversible
  {
    hide StepConfirmation, Grow, LastIrreversible, Steps, ScheduledProducer, DoubleConfirms, Required, CountOf;
    StepFacts(st, h, st');
    StepCounts(st, h);
    LibAtMostProposed(st.lastImplied, h.producer, st.proposedIrreversible);
  }

  // ---- Who confirmed what ----

  /** A block's producer confirms the blocks numbered num - confirmed up to num. */
  datatype Vote = Vote(producer: AccountName, num: nat, confirmed: nat)

  predicate Covers(v: Vote, j: nat)
  {
    v.num <= j + v.confirmed && j <= v.num
  }

  function VoteOf(st: HeaderState, h: Header): Vote
  {
    Vote(h.producer, st.blockNum + 1, h.confirmed)
  }

  function Votes(ss: seq<HeaderState>, hs: seq<Header>): seq<Vote>
    requires |hs| <= |ss|
  {
    if hs == [] then []
    else Votes(ss, hs[..|hs| - 1]) + [VoteOf(ss[|hs| - 1], hs[|hs| - 1])]
  }

  /** The distinct producers whose confirmed range covers block number `j`. */
  function Confirmers(votes: seq<Vote>, j: nat): set<AccountName>
  {
    set v | v in votes && Covers(v, j) :: v.producer
  }

  function Names(producers: seq<AccountName>): set<AccountName>
  {
    set p | p in producers
  }

  lemma ConfirmersGrow(votes: seq<Vote>, v: Vote, j: nat)
    ensures Confirmers(votes + [v], j) == Confirmers(votes, j) + (if Covers(v, j) then {v.producer} else {})
  {
  }

  /**
   The double-confirm check compares with a 32-bit difference. It rejects every overlap with the
   producer's previous range exactly when the range does not reach below block zero.
   */
  lemma DoubleConfirmCheckIsExact(st: HeaderState, p: AccountName, confirmed: UInt16)
    requires p in st.lastProduced && st.lastProduced[p] <= st.blockNum < 0xFFFF_0000
    ensures (!DoubleConfirms(st, p, confirmed) <==> st.lastProduced[p] < st.blockNum + 1 - confirmed)
      <==> confirmed <= st.blockNum + 1
  {
    if confirmed > st.blockNum + 1 {
      assert st.blockNum + 1 - confirmed + 0x1_0000_0000 < 0x1_0000_0000;
      assert Sub32(st.blockNum + 1, confirmed) == st.blockNum + 1 - confirmed + 0x1_0000_0000;
    }
  }

  /** Every vote of the run is recorded, and each tracked count is the quorum minus its distinct confirmers. */
  ghost predicate CountInv(st: HeaderState, votes: seq<Vote>, base: nat, producers: seq<AccountName>)
  {
    && (forall j: nat | Tracked(st.confirmCount, st.blockNum, j) && j > base ::
          CountOf(st.confirmCount, st.blockNum, j) + |Confirmers(votes, j)| == Required(|producers|))
    && VotesKnown(st, votes, base, producers)
  }

  ghost predicate VotesKnown(st: HeaderState, votes: seq<Vote>, base: nat, producers: seq<AccountName>)
  {
    && (forall v | v in votes :: base < v.num <= st.blockNum && v.producer in producers)
    && (st.active.producers == producers ==>
          forall v | v in votes :: v.producer in st.lastProduced && v.num <= st.lastProduced[v.producer])
  }

  /** Block `j` was still counted, or just became proposed, in the step to `st'`. */
  predicate Counted(st: HeaderState, st': HeaderState, j: nat)
  {
    Tracked(st'.confirmCount, st'.blockNum, j) || (j == st'.proposedIrreversible && j != st.proposedIrreversible)
  }

  /** The count of `j` after the step, zero once it is proposed, is the quorum minus its distinct confirmers. */
  ghost predicate CountsRight(st: HeaderState, st': HeaderState, votes: seq<Vote>, producers: seq<AccountName>, j: nat)
    requires Counted(st, st', j)
  {
    var count := if Tracked(st'.confirmCount, st'.blockNum, j) then CountOf(st'.confirmCount, st'.blockNum, j) else 0;
    count + |Confirmers(votes, j)| == Required(|producers|)
  }

  ghost predicate AllCountsRight(st: HeaderState, st': HeaderState, votes: seq<Vote>, base: nat,
                                 producers: seq<AccountName>)
  {
    forall j: nat | Counted(st, st', j) && j > base :: CountsRight(st, st', votes, producers, j)
  }

  /** Block `j` is tracked and no newer block is one confirmation short. */
  predicate Outlasts(counts: seq<nat>, num: nat, j: nat)
  {
    Tracked(counts, num, j) && forall i: nat | j < i <= num :: CountOf(counts, num, i) != 1
  }

  /** Confirming the whole window, with the next block added to it, leaves `j` counted. */
  predicate StaysCounted(st: HeaderState, j: nat)
  {
    Outlasts(Grow(st.confirmCount, Required(|st.active.producers|)), st.blockNum + 1, j)
  }

  /** The header's range wraps, and its producer has made a block of the run that stays counted. */
  ghost predicate RepeatsVote(st: HeaderState, h: Header, votes: seq<Vote>)
  {
    h.confirmed > st.blockNum + 1 && exists v :: v in votes && v.producer == h.producer && StaysCounted(st, v.num)
  }

  /** A range that reaches past the window drops everything below the newest block that was one confirmation short. */
  lemma ConfirmPastWindow(counts: seq<nat>, num: nat, proposed: nat, k: nat, j: nat)
    requires CountsOk(counts, num, proposed) && k >= |counts|
    ensures var c := Confirm(counts, num, proposed, k);
      && |c.counts| == |counts| - 1 - NewestAtOne(counts, 0)
      && (Tracked(c.counts, num, j) || (j == c.proposed && j != proposed) <==> Outlasts(counts, num, j))
  {
    hide NewestAtOne, DecrementAll;
    var z := NewestAtOne(counts, 0);
    if Tracked(counts, num, j) {
      if z > |counts| - 1 - (num - j) {
        assert CountOf(counts, num, num - (|counts| - 1 - z)) == 1;
      }
    }
  }

  /** Which blocks a wrapped range still counts is known before the header is applied. */
  lemma StaysCountedIs(st: HeaderState, h: Header, st': HeaderState, j: nat)
    requires Steps(st, h, st') && StateOk(st) && h.confirmed > st.blockNum + 1
    ensures Counted(st, st', j) <==> StaysCounted(st, j)
  {
    hide Steps, Confirm, LastIrreversible, Carry, DoubleConfirms, Required, Grow, Outlasts, ConfirmedByNumber;
    StepFacts(st, h, st');
    StepCounts(st, h);
    ConfirmPastWindow(Grow(st.confirmCount, Required(|st.active.producers|)), st'.blockNum, st.proposedIrreversible,
                      h.confirmed + 1, j);
  }

  /** A producer that confirms `j` now, within the chain, has not confirmed it before. */
  lemma NewConfirmer(st: HeaderState, h: Header, votes: seq<Vote>, j: nat)
    requires forall v | v in votes :: v.producer in st.lastProduced && v.num <= st.lastProduced[v.producer]
    requires !DoubleConfirms(st, h.producer, h.confirmed) && h.confirmed <= st.blockNum + 1
    requires Covers(VoteOf(st, h), j)
    ensures h.producer !in Confirmers(votes, j)
  {
  }

  /** A counted block is counted right exactly if the producer does not confirm it a second time. */
  lemma StepCountOf(st: HeaderState, h: Header, st': HeaderState, votes: seq<Vote>, base: nat,
                    producers: seq<AccountName>, j: nat)
    requires Steps(st, h, st') && StateOk(st)
    requires st.active.producers == producers && CountInv(st, votes, base, producers) && base <= st.blockNum
    requires j > base && Counted(st, st', j)
    ensures CountsRight(st, st', votes + [VoteOf(st, h)], producers, j) <==>
      !(Covers(VoteOf(st, h), j) && h.producer in Confirmers(votes, j))
  {
    hide Steps, StepConfirmation, LastIrreversible, Carry, DoubleConfirms, Grow, Required;
    hide Confirmers, VotesKnown, CountInv;
    var grown := Grow(st.confirmCount, Required(|producers|));
    StepFacts(st, h, st');
    StepCounts(st, h);
    ConfirmersGrow(votes, VoteOf(st, h), j);
    assert Tracked(grown, st'.blockNum, j);
    GrownCount(st, votes, base, producers, j);
    hide CountOf, StateOk;
    assert Covers(VoteOf(st, h), j) <==> st'.blockNum < j + (h.confirmed + 1);
  }

  /** With the next block added, each tracked count is still the quorum minus the distinct confirmers. */
  lemma GrownCount(st: HeaderState, votes: seq<Vote>, base: nat, producers: seq<AccountName>, j: nat)
    requires StateOk(st) && st.active.producers == producers && CountInv(st, votes, base, producers)
    requires j > base && Tracked(Grow(st.confirmCount, Required(|producers|)), st.blockNum + 1, j)
    ensures CountOf(Grow(st.confirmCount, Required(|producers|)), st.blockNum + 1, j) + |Confirmers(votes, j)| ==
      Required(|producers|)
  {
    hide Grow, Required;
    var required := Required(|producers|);
    assert 1 <= required <= 255 by { RequiredFits(|producers|); }
    GrowByNumber(st.confirmCount, required, st.blockNum, st.proposedIrreversible);
    if j > st.blockNum { assert Confirmers(votes, j) == {}; }
  }

  lemma RequiredFits(n: nat)
    requires n <= MAX_PRODUCERS
    ensures 1 <= Required(n) <= 255
  {
  }

  /** Counted blocks reach from some number up to the newest. */
  lemma CountedUpwards(st: HeaderState, h: Header, st': HeaderState, j: nat, k: nat)
    requires Steps(st, h, st') && StateOk(st) && Counted(st, st', j) && j <= k <= st'.blockNum
    ensures Counted(st, st', k)
  {
    hide Steps, StepConfirmation, LastIrreversible, Carry, DoubleConfirms, Grow, Required, CountOf;
    StepFacts(st, h, st');
    StepCounts(st, h);
  }

  lemma StepKeepsVotesKnown(st: HeaderState, h: Header, st': HeaderState, votes: seq<Vote>, base: nat,
                            producers: seq<AccountName>)
    requires Steps(st, h, st') && st.active.producers == producers && base <= st.blockNum
    requires VotesKnown(st, votes, base, producers) && AtMost(st.lastProduced, st.blockNum)
    ensures VotesKnown(st', votes + [VoteOf(st, h)], base, producers)
  {
    hide Steps, AtMost;
    StepProduced(st, h, st');
  }

  /** The producer's entry is the new block; the entries of the others that stay active are kept. */
  lemma StepProduced(st: HeaderState, h: Header, st': HeaderState)
    requires Steps(st, h, st') && AtMost(st.lastProduced, st.blockNum)
    ensures st'.blockNum == st.blockNum + 1 && h.producer in st.active.producers
    ensures h.producer in st'.lastProduced && st'.lastProduced[h.producer] == st'.blockNum
    ensures forall a | a in st.lastProduced && a in st'.active.producers ::
      a in st'.lastProduced && st.lastProduced[a] <= st'.lastProduced[a]
  {
    hide Steps, LastIrreversible, DoubleConfirms, StepConfirmation;
    StepFacts(st, h, st');
  }

  /** After the step every counted block is counted right if and only if the header does not repeat a counted vote. */
  lemma StepKeepsCountsExactly(st: HeaderState, h: Header, st': HeaderState, votes: seq<Vote>, base: nat,
                               producers: seq<AccountName>)
    requires Steps(st, h, st') && StateOk(st)
    requires st.active.producers == producers && CountInv(st, votes, base, producers) && base <= st.blockNum
    ensures AllCountsRight(st, st', votes + [VoteOf(st, h)], base, producers) <==> !RepeatsVote(st, h, votes)
  {
    hide StateOk, Counted, StaysCounted, Steps, CountsRight, Covers;
    hide DoubleConfirms, Required, CountOf, ScheduledProducer;
    var v := VoteOf(st, h);
    if RepeatsVote(st, h, votes) {
      var w :| w in votes && w.producer == h.producer && StaysCounted(st, w.num);
      StaysCountedIs(st, h, st', w.num);
      RepeatIsMiscounted(st, h, st', votes, base, producers, w);
    } else {
      forall j: nat | Counted(st, st', j) && j > base
        ensures CountsRight(st, st', votes + [v], producers, j)
      {
        StepCountOf(st, h, st', votes, base, producers, j);
        NoRepeatNoMiscount(st, h, st', votes, base, producers, j);
      }
    }
  }

  lemma RepeatIsMiscounted(st: HeaderState, h: Header, st': HeaderState, votes: seq<Vote>, base: nat,
                           producers: seq<AccountName>, w: Vote)
    requires Steps(st, h, st') && StateOk(st) && h.confirmed > st.blockNum + 1
    requires st.active.producers == producers && CountInv(st, votes, base, producers) && base <= st.blockNum
    requires w in votes && w.producer == h.producer && Counted(st, st', w.num)
    ensures w.num > base && !CountsRight(st, st', votes + [VoteOf(st, h)], producers, w.num)
  {
    hide StateOk, Counted, Steps, CountsRight, Required, CountOf;
    assert Covers(w, w.num) && w.producer in Confirmers(votes, w.num);
    StepCountOf(st, h, st', votes, base, producers, w.num);
  }

  lemma NoRepeatNoMiscount(st: HeaderState, h: Header, st': HeaderState, votes: seq<Vote>, base: nat,
                           producers: seq<AccountName>, j: nat)
    requires Steps(st, h, st') && StateOk(st) && !RepeatsVote(st, h, votes)
    requires st.active.producers == producers && CountInv(st, votes, base, producers) && Counted(st, st', j)
    ensures !(Covers(VoteOf(st, h), j) && h.producer in Confirmers(votes, j))
  {
    hide StateOk, Counted, StaysCounted, Required, CountOf;
    assert !DoubleConfirms(st, h.producer, h.confirmed) && st'.blockNum == st.blockNum + 1 by { StepFacts(st, h, st'); }
    hide Steps;
    if Covers(VoteOf(st, h), j) && h.confirmed <= st.blockNum + 1 {
      NewConfirmer(st, h, votes, j);
    } else if h.producer in Confirmers(votes, j) {
      var w :| w in votes && Covers(w, j) && w.producer == h.producer;
      if h.confirmed > st.blockNum + 1 {
        CountedUpwards(st, h, st', j, w.num);
        StaysCountedIs(st, h, st', w.num);
      }
    }
  }

  lemma StepKeepsCountInv(st: HeaderState, h: Header, st': HeaderState, votes: seq<Vote>, base: nat,
                          producers: seq<AccountName>)
    requires Steps(st, h, st') && StateOk(st) && !RepeatsVote(st, h, votes)
    requires st.active.producers == producers && CountInv(st, votes, base, producers) && base <= st.blockNum
    ensures CountInv(st', votes + [VoteOf(st, h)], base, producers)
  {
    hide Steps, RepeatsVote, Required, CountOf, VotesKnown, Confirmers;
    StepKeepsCountsExactly(st, h, st', votes, base, producers);
    StepKeepsVotesKnown(st, h, st', votes, base, producers);
    forall j: nat | Tracked(st'.confirmCount, st'.blockNum, j) && j > base
      ensures CountOf(st'.confirmCount, st'.blockNum, j) + |Confirmers(votes + [VoteOf(st, h)], j)| ==
        Required(|producers|)
    {
      assert Counted(st, st', j) && CountsRight(st, st', votes + [VoteOf(st, h)], producers, j);
    }
  }

  // ---- The theorems over one branch ----

  /** All headers are signed under the same list of producers. */
  ghost predicate UnderSchedule(ss: seq<HeaderState>, hs: seq<Header>, producers: seq<AccountName>)
    requires |ss| == |hs| + 1
  {
    forall i | 0 <= i < |hs| :: ss[i].active.producers == producers
  }

  /** No header before the `n`-th repeats a vote that is still counted. */
  ghost predicate NoRepeats(ss: seq<HeaderState>, hs: seq<Header>, n: nat)
    requires |ss| == |hs| + 1 && n <= |hs|
  {
    forall i | 0 <= i < n :: !RepeatsVote(ss[i], hs[i], Votes(ss, hs[..i]))
  }

  /** Headers whose range stays within the chain repeat nothing. */
  lemma RangesWithinChain(ss: seq<HeaderState>, hs: seq<Header>)
    requires |ss| == |hs| + 1 && forall i | 0 <= i < |hs| :: hs[i].confirmed <= ss[i].blockNum + 1
    ensures NoRepeats(ss, hs, |hs|)
  {
  }

  /** Every state of a run keeps the order of its numbers, and the proposed number never decreases. */
  lemma {:induction false} RunKeepsStateOk(ss: seq<HeaderState>, hs: seq<Header>)
    requires IsRun(ss, hs) && StateOk(ss[0])
    ensures forall i | 0 <= i < |ss| :: StateOk(ss[i]) && ss[i].blockNum == ss[0].blockNum + i
    ensures forall i, j | 0 <= i <= j < |ss| :: ss[i].proposedIrreversible <= ss[j].proposedIrreversible
  {
    hide Steps, StateOk;
    var n := 0;
    while n < |hs|
      invariant 0 <= n <= |hs|
      invariant forall i | 0 <= i <= n :: StateOk(ss[i]) && ss[i].blockNum == ss[0].blockNum + i
      invariant forall i, j | 0 <= i <= j <= n :: ss[i].proposedIrreversible <= ss[j].proposedIrreversible
    {
      StepKeepsStateOk(ss[n], hs[n], ss[n + 1]);
      StepFacts(ss[n], hs[n], ss[n + 1]);
      n := n + 1;
    }
  }

  /**
   Distinct-quorum confirmation: the counts of all blocks produced in the run are right as long as no header repeats a
   counted vote, and the first one that does makes one wrong.
   */
  lemma {:induction false} CountsAreQuorumMinusConfirmers(
    ss: seq<HeaderState>, hs: seq<Header>, producers: seq<AccountName>, n: nat)
    requires IsRun(ss, hs) && StateOk(ss[0]) && UnderSchedule(ss, hs, producers) && n <= |hs| && NoRepeats(ss, hs, n)
    ensures CountInv(ss[n], Votes(ss, hs[..n]), ss[0].blockNum, producers)
    ensures n < |hs| ==>
      (AllCountsRight(ss[n], ss[n + 1], Votes(ss, hs[..n + 1]), ss[0].blockNum, producers) <==>
       !RepeatsVote(ss[n], hs[n], Votes(ss, hs[..n])))
    decreases n
  {
    hide Steps, StateOk, RepeatsVote, CountInv, AllCountsRight;
    RunKeepsStateOk(ss, hs);
    if n == 0 {
      EmptyCountInv(ss[0], producers);
    } else {
      CountsAreQuorumMinusConfirmers(ss, hs, producers, n - 1);
      VotesStep(ss, hs, n - 1);
      StepKeepsCountInv(ss[n - 1], hs[n - 1], ss[n], Votes(ss, hs[..n - 1]), ss[0].blockNum, producers);
    }
    if n < |hs| {
      VotesStep(ss, hs, n);
      StepKeepsCountsExactly(ss[n], hs[n], ss[n + 1], Votes(ss, hs[..n]), ss[0].blockNum, producers);
    }
  }

  lemma EmptyCountInv(st: HeaderState, producers: seq<AccountName>)
    ensures CountInv(st, [], st.blockNum, producers)
  {
  }

  lemma VotesStep(ss: seq<HeaderState>, hs: seq<Header>, n: nat)
    requires |ss| == |hs| + 1 && n < |hs|
    ensures Votes(ss, hs[..n + 1]) == Votes(ss, hs[..n]) + [VoteOf(ss[n], hs[n])]
  {
    assert hs[..n + 1][..n] == hs[..n];
  }

  /**
   The block that a header on top of `st` makes proposed irreversible: the newest one in its range that is one
   confirmation short.
   */
  function NextProposed(st: HeaderState, h: Header): Option<nat>
    requires |st.confirmCount| <= st.blockNum
  {
    var grown := Grow(st.confirmCount, Required(|st.active.producers|));
    var z := NewestAtOne(grown, OldestConfirmed(grown, h.confirmed + 1));
    if z == -1 then None else Some(st.blockNum + 1 - (|grown| - 1 - z))
  }

  lemma NextProposedIs(st: HeaderState, h: Header, st': HeaderState)
    requires Steps(st, h, st') && StateOk(st)
    ensures st'.proposedIrreversible ==
      if NextProposed(st, h).Some? then NextProposed(st, h).value else st.proposedIrreversible
    ensures NextProposed(st, h).Some? ==> NextProposed(st, h).value > st.proposedIrreversible
  {
    hide Steps, LastIrreversible, Carry, DoubleConfirms, NewestAtOne, DecrementAll, Required, ConfirmedByNumber, Grow;
    StepFacts(st, h, st');
    StepCounts(st, h);
  }

  /**
   The header that makes block `j` of the run proposed irreversible, the first that may repeat a vote, does so with a
   quorum of distinct confirmers if and only if its producer has not confirmed that block before.
   */
  lemma ProposedHasQuorumExactly(ss: seq<HeaderState>, hs: seq<Header>, producers: seq<AccountName>, j: nat)
    requires IsRun(ss, hs) && StateOk(ss[0]) && UnderSchedule(ss, hs, producers)
    requires hs != [] && NoRepeats(ss, hs, |hs| - 1)
    requires Steps(ss[|hs| - 1], hs[|hs| - 1], ss[|hs|]) && NextProposed(ss[|hs| - 1], hs[|hs| - 1]) == Some(j)
    requires j > ss[0].blockNum
    ensures ss[|hs|].proposedIrreversible == j
    ensures var n := |hs| - 1;
      |Confirmers(Votes(ss, hs), j)| == |producers| * 2 / 3 + 1 <==>
        !(Covers(VoteOf(ss[n], hs[n]), j) && hs[n].producer in Confirmers(Votes(ss, hs[..n]), j))
  {
    hide Steps, StateOk, Confirmers, RepeatsVote, Votes, Covers, VotesKnown, NextProposed;
    var n := |hs| - 1;
    assert hs[..n + 1] == hs;
    VotesStep(ss, hs, n);
    RunKeepsStateOk(ss, hs);
    NextProposedIs(ss[n], hs[n], ss[n + 1]);
    CountsAreQuorumMinusConfirmers(ss, hs, producers, n);
    NotTracked(ss, hs);
    StepCountOf(ss[n], hs[n], ss[n + 1], Votes(ss, hs[..n]), ss[0].blockNum, producers, j);
  }

  /** A block of the run becomes proposed irreversible only with a quorum of distinct confirmers. */
  lemma ProposedHasQuorum(ss: seq<HeaderState>, hs: seq<Header>, producers: seq<AccountName>)
    requires IsRun(ss, hs) && StateOk(ss[0]) && UnderSchedule(ss, hs, producers) && hs != [] && NoRepeats(ss, hs, |hs|)
    requires ss[|hs|].proposedIrreversible != ss[|hs| - 1].proposedIrreversible
    requires ss[|hs|].proposedIrreversible > ss[0].blockNum
    ensures var c := Confirmers(Votes(ss, hs), ss[|hs|].proposedIrreversible);
      |c| == |producers| * 2 / 3 + 1 && c <= Names(producers)
  {
    hide Steps, StateOk, Confirmers, RepeatsVote, Votes;
    var n := |hs|;
    assert hs[..n] == hs;
    CountsAreQuorumMinusConfirmers(ss, hs, producers, n - 1);
    CountsAreQuorumMinusConfirmers(ss, hs, producers, n);
    assert Counted(ss[n - 1], ss[n], ss[n].proposedIrreversible);
    NotTracked(ss, hs);
    ConfirmersAreVoters(Votes(ss, hs), ss[n].proposedIrreversible, producers);
  }

  lemma NotTracked(ss: seq<HeaderState>, hs: seq<Header>)
    requires IsRun(ss, hs) && StateOk(ss[0])
    ensures var st := ss[|hs|]; !Tracked(st.confirmCount, st.blockNum, st.proposedIrreversible)
  {
    hide Steps;
    RunKeepsStateOk(ss, hs);
  }

  lemma ConfirmersAreVoters(votes: seq<Vote>, j: nat, producers: seq<AccountName>)
    requires forall v | v in votes :: v.producer in producers
    ensures Confirmers(votes, j) <= Names(producers)
  {
  }

  // ---- Two branches ----

  lemma {:induction false} NamesAtMostLength(producers: seq<AccountName>)
    ensures |Names(producers)| <= |producers|
  {
    if producers == [] {
      assert Names(producers) == {};
    } else {
      NamesAtMostLength(producers[1..]);
      assert Names(producers) == Names(producers[1..]) + {producers[0]};
    }
  }

  /**
   Accountable safety: if two branches signed under the same schedule both drive the count of block
   number `j` to zero, more than a third of the producers confirmed that height on both.
   */
  lemma ConflictingBranchesShareConfirmers(
    ss1: seq<HeaderState>, hs1: seq<Header>, ss2: seq<HeaderState>, hs2: seq<Header>,
    producers: seq<AccountName>, j: nat)
    requires IsRun(ss1, hs1) && StateOk(ss1[0]) && UnderSchedule(ss1, hs1, producers)
    requires hs1 != [] && NoRepeats(ss1, hs1, |hs1|)
    requires IsRun(ss2, hs2) && StateOk(ss2[0]) && UnderSchedule(ss2, hs2, producers)
    requires hs2 != [] && NoRepeats(ss2, hs2, |hs2|)
    requires j > ss1[0].blockNum && j > ss2[0].blockNum
    requires j == ss1[|hs1|].proposedIrreversible != ss1[|hs1| - 1].proposedIrreversible
    requires j == ss2[|hs2|].proposedIrreversible != ss2[|hs2| - 1].proposedIrreversible
    ensures 3 * |Confirmers(Votes(ss1, hs1), j) * Confirmers(Votes(ss2, hs2), j)| > |producers|
  {
    hide Steps, UnderSchedule, StateOk, Confirmers, Votes, Names, NoRepeats;
    ProposedHasQuorum(ss1, hs1, producers);
    ProposedHasQuorum(ss2, hs2, producers);
    NamesAtMostLength(producers);
    QuorumsOverlap(Confirmers(Votes(ss1, hs1), j), Confirmers(Votes(ss2, hs2), j), Names(producers), |producers|);
  }

  lemma QuorumsOverlap(a: set<AccountName>, b: set<AccountName>, all: set<AccountName>, n: nat)
    requires a <= all && b <= all && |all| <= n
    requires |a| == |b| == n * 2 / 3 + 1
    ensures 3 * |a * b| > n
  {
    assert |a + b| + |a * b| == |a| + |b|;
    SubsetSize(a + b, all);
  }
}
