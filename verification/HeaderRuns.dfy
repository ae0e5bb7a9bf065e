/** Two runs from genesis that show where finality falls short. */
module HeaderRuns {
  import opened Results
  import opened OrderStatistic
  import opened BlockHeaderState
  import opened DposFinality
  import opened LastIrreversibleNumber

  // ---- Computing one step ----

  lemma {:induction false} NewestIs(counts: seq<nat>, lo: nat, z: int)
    requires IsNewestAtOne(counts, lo, z)
    ensures NewestAtOne(counts, lo) == z
    decreases |counts|
  {
    if |counts| > lo && Dec8(counts[|counts| - 1]) != 0 { NewestIs(counts[..|counts| - 1], lo, z); }
  }

  /** The confirmation of a step: `z` is the newest index whose count reaches zero, `counts` what is left. */
  lemma CountsTo(st: HeaderState, h: Header, z: int, counts: seq<nat>)
    requires |st.confirmCount| <= st.blockNum && |st.confirmCount| < MAXIMUM_TRACKED_DPOS_CONFIRMATIONS
    requires var grown := st.confirmCount + [Required(|st.active.producers|) % 256];
      var lo := OldestConfirmed(grown, h.confirmed + 1);
      && IsNewestAtOne(grown, lo, z)
      && if z == -1 then
           && |counts| == |grown|
           && forall i | 0 <= i < |grown| :: counts[i] == if i < lo then grown[i] else Dec8(grown[i])
         else
           && |counts| == |grown| - z - 1
           && forall i | 0 <= i < |counts| :: counts[i] == Dec8(grown[z + 1 + i])
    ensures StepConfirmation(st, h) == Confirmation(counts, if z == -1 then st.proposedIrreversible
                                                            else st.blockNum + 1 - (|st.confirmCount| - z))
  {
    hide DecrementAll, NewestAtOne;
    var grown := st.confirmCount + [Required(|st.active.producers|) % 256];
    NewestIs(grown, OldestConfirmed(grown, h.confirmed + 1), z);
    assert StepConfirmation(st, h).counts == counts;
  }

  lemma LibOfNone(st: HeaderState, h: Header)
    requires st.lastImplied == map[]
    ensures StepLib(st, h) == 0
  {
    assert WithImplied(st.lastImplied, h.producer, st.proposedIrreversible) == map[];
  }

  lemma LibIs(st: HeaderState, h: Header, m: map<AccountName, nat>, below: set<AccountName>, upTo: set<AccountName>,
              v: nat)
    requires m == WithImplied(st.lastImplied, h.producer, st.proposedIrreversible) && m.Keys != {}
    requires Below(m, v) <= below && upTo <= Below(m, v + 1) && |below| <= (|m.Keys| - 1) / 3 < |upTo|
    ensures StepLib(st, h) == v
  {
    hide WithImplied;
    NonEmptySize(m);
    var k := (|m| - 1) / 3;
    assert |m| == |m.Keys|;
    SubsetSize(Below(m, v), below);
    SubsetSize(upTo, Below(m, v + 1));
    KthIsUnique(m, k, v, Kth(m, k));
  }

  lemma LibOfOne(st: HeaderState, h: Header)
    requires st.lastImplied.Keys == {h.producer}
    ensures StepLib(st, h) == st.proposedIrreversible
  {
    var m := WithImplied(st.lastImplied, h.producer, st.proposedIrreversible);
    assert m.Keys == {h.producer};
    LibIs(st, h, m, {}, {h.producer}, st.proposedIrreversible);
  }

  /** What a producer implies when the header is made. */
  function Implied(st: HeaderState, h: Header, a: AccountName): nat
    requires a in st.lastImplied
  {
    if a == h.producer then st.proposedIrreversible else st.lastImplied[a]
  }

  /** Of two producers, the lower number. */
  lemma LibOfTwo(st: HeaderState, h: Header, x: AccountName, y: AccountName)
    requires x != y && st.lastImplied.Keys == {x, y}
    requires Implied(st, h, x) <= Implied(st, h, y)
    ensures StepLib(st, h) == Implied(st, h, x)
  {
    var m := WithImplied(st.lastImplied, h.producer, st.proposedIrreversible);
    assert m.Keys == {x, y};
    LibIs(st, h, m, {}, {x}, m[x]);
  }

  /** Of four producers, the second lowest number. */
  lemma LibOfFour(st: HeaderState, h: Header, w: AccountName, x: AccountName, y: AccountName, z: AccountName)
    requires w != x && w != y && w != z && x != y && x != z && y != z && st.lastImplied.Keys == {w, x, y, z}
    requires Implied(st, h, w) <= Implied(st, h, x) <= Implied(st, h, y) && Implied(st, h, x) <= Implied(st, h, z)
    ensures StepLib(st, h) == Implied(st, h, x)
  {
    var m := WithImplied(st.lastImplied, h.producer, st.proposedIrreversible);
    assert m.Keys == {w, x, y, z};
    LibIs(st, h, m, {w}, {w, x}, m[x]);
  }

  ghost predicate Agrees(st: HeaderState, h: Header, next: HeaderState)
  {
    && AnnouncedOk(h) && st.active.producers != [] && |st.confirmCount| <= st.blockNum && h.slot > st.slot
    && h.producer == ScheduledProducer(st.active, h.slot) && h.scheduleVersion == st.active.version
    && !DoubleConfirms(st, h.producer, h.confirmed)
    && next.blockNum == st.blockNum + 1 && next.slot == h.slot
    && StepConfirmation(st, h) == Confirmation(next.confirmCount, next.proposedIrreversible)
    && StepLib(st, h) == next.irreversible
  }

  /** A header is accepted under the same schedule; it may announce another. */
  lemma StepsOn(st: HeaderState, h: Header, next: HeaderState)
    requires Agrees(st, h, next) && !Promotes(st.pending, next.irreversible) && next.active == st.active
    requires next.lastProduced == st.lastProduced[h.producer := next.blockNum]
    requires next.lastImplied == st.lastImplied[h.producer := st.proposedIrreversible]
    requires if h.newProducers.None? then next.pending == st.pending
      else && st.pending.schedule.producers == [] && h.newProducers.value.version == st.active.version + 1
           && next.pending == ScheduleInfo(next.blockNum, h.newProducers.value)
    ensures Steps(st, h, next)
  {
    hide Confirm, LastIrreversible, DoubleConfirms, ScheduledProducer, Carry;
  }

  /** A header is accepted and promotes the pending schedule. */
  lemma StepsToPending(st: HeaderState, h: Header, next: HeaderState)
    requires Agrees(st, h, next) && Promotes(st.pending, next.irreversible)
    requires next.active == st.pending.schedule && h.newProducers.None?
    requires next.lastProduced ==
      Carry(next.active.producers, st.lastProduced, h.producer, next.blockNum, next.irreversible)
        [h.producer := next.blockNum]
    requires next.lastImplied ==
      Carry(next.active.producers, st.lastImplied, h.producer, st.proposedIrreversible, next.irreversible)
    requires next.pending == ScheduleInfo(st.pending.libNum, Schedule(st.pending.schedule.version, []))
    ensures Steps(st, h, next)
  {
    hide Confirm, LastIrreversible, DoubleConfirms, ScheduledProducer, Carry;
  }

  // ---- The irreversible number drops ----

  function Drop1(): HeaderState
  {
    HeaderState(2, 1, 2, 0, Schedule(0, [0]), ScheduleInfo(0, Schedule(0, [])),
                map[0 := 2], map[0 := 0], [])
  }

  function Drop2(): HeaderState
  {
    HeaderState(3, 2, 3, 2, Schedule(0, [0]), ScheduleInfo(3, Schedule(1, [0, 1, 2, 3])),
                map[0 := 3], map[0 := 2], [])
  }

  function Drop3(): HeaderState
  {
    HeaderState(4, 4, 4, 3, Schedule(1, [0, 1, 2, 3]), ScheduleInfo(3, Schedule(1, [])),
                map[0 := 4, 1 := 3, 2 := 3, 3 := 3], map[0 := 3, 1 := 3, 2 := 3, 3 := 3], [])
  }

  function Drop4(): HeaderState
  {
    HeaderState(5, 5, 4, 3, Schedule(1, [0, 1, 2, 3]), ScheduleInfo(5, Schedule(2, [3, 9])),
                map[0 := 4, 1 := 5, 2 := 3, 3 := 3], map[0 := 3, 1 := 4, 2 := 3, 3 := 3], [2])
  }

  function Drop5(): HeaderState
  {
    HeaderState(6, 6, 4, 3, Schedule(1, [0, 1, 2, 3]), ScheduleInfo(5, Schedule(2, [3, 9])),
                map[0 := 4, 1 := 5, 2 := 6, 3 := 3], map[0 := 3, 1 := 4, 2 := 4, 3 := 3], [1, 2])
  }

  function Drop6(): HeaderState
  {
    HeaderState(7, 8, 5, 4, Schedule(1, [0, 1, 2, 3]), ScheduleInfo(5, Schedule(2, [3, 9])),
                map[0 := 7, 1 := 5, 2 := 6, 3 := 3], map[0 := 4, 1 := 4, 2 := 4, 3 := 3], [1, 2])
  }

  function Drop7(): HeaderState
  {
    HeaderState(8, 9, 6, 4, Schedule(1, [0, 1, 2, 3]), ScheduleInfo(5, Schedule(2, [3, 9])),
                map[0 := 7, 1 := 8, 2 := 6, 3 := 3], map[0 := 4, 1 := 5, 2 := 4, 3 := 3], [1, 2])
  }

  function Drop8(): HeaderState
  {
    HeaderState(9, 10, 7, 4, Schedule(1, [0, 1, 2, 3]), ScheduleInfo(5, Schedule(2, [3, 9])),
                map[0 := 7, 1 := 8, 2 := 9, 3 := 3], map[0 := 4, 1 := 5, 2 := 6, 3 := 3], [1, 2])
  }

  function Drop9(): HeaderState
  {
    HeaderState(10, 12, 8, 5, Schedule(2, [3, 9]), ScheduleInfo(5, Schedule(2, [])),
                map[0 := 10, 3 := 3, 9 := 5], map[3 := 3, 9 := 5], [1, 2])
  }

  function Drop10(): HeaderState
  {
    HeaderState(11, 13, 8, 3, Schedule(2, [3, 9]), ScheduleInfo(5, Schedule(2, [])),
                map[0 := 10, 3 := 3, 9 := 11], map[3 := 3, 9 := 8], [1, 2, 1])
  }

  function Drop11(): HeaderState
  {
    HeaderState(12, 14, 8, 8, Schedule(2, [3, 9]), ScheduleInfo(5, Schedule(2, [])),
                map[0 := 10, 3 := 12, 9 := 11], map[3 := 8, 9 := 8], [1, 2, 1, 1])
  }

  function DropStates(): seq<HeaderState>
  {
    [Genesis(0, 0), Drop1(), Drop2(), Drop3(), Drop4(), Drop5(), Drop6(), Drop7(), Drop8(), Drop9(), Drop10(), Drop11()]
  }

  function DropHeaders(): seq<Header>
  {
    [Header(1, 0, 0, 0, None), Header(2, 0, 0, 0, Some(Schedule(1, [0, 1, 2, 3]))), Header(4, 0, 0, 0, None),
     Header(5, 1, 0, 1, Some(Schedule(2, [3, 9]))), Header(6, 2, 1, 1, None), Header(8, 0, 2, 1, None),
     Header(9, 1, 2, 1, None), Header(10, 2, 2, 1, None), Header(12, 0, 2, 1, None), Header(13, 9, 0, 2, None),
     Header(14, 3, 0, 2, None)]
  }

  lemma DropStep0()
    ensures Steps(Genesis(0, 0), Header(1, 0, 0, 0, None), Drop1())
  {
    hide StepLib, StepConfirmation, Steps;
    LibOfNone(Genesis(0, 0), Header(1, 0, 0, 0, None));
    CountsTo(Genesis(0, 0), Header(1, 0, 0, 0, None), 0, Drop1().confirmCount);
    StepsToPending(Genesis(0, 0), Header(1, 0, 0, 0, None), Drop1());
  }

  lemma DropStep1()
    ensures Steps(Drop1(), Header(2, 0, 0, 0, Some(Schedule(1, [0, 1, 2, 3]))), Drop2())
  {
    hide StepLib, StepConfirmation, Steps;
    LibOfOne(Drop1(), Header(2, 0, 0, 0, Some(Schedule(1, [0, 1, 2, 3]))));
    CountsTo(Drop1(), Header(2, 0, 0, 0, Some(Schedule(1, [0, 1, 2, 3]))), 0, Drop2().confirmCount);
    StepsOn(Drop1(), Header(2, 0, 0, 0, Some(Schedule(1, [0, 1, 2, 3]))), Drop2());
  }

  lemma DropStep2()
    ensures Steps(Drop2(), Header(4, 0, 0, 0, None), Drop3())
  {
    hide StepLib, StepConfirmation, Steps;
    LibOfOne(Drop2(), Header(4, 0, 0, 0, None));
    CountsTo(Drop2(), Header(4, 0, 0, 0, None), 0, Drop3().confirmCount);
    StepsToPending(Drop2(), Header(4, 0, 0, 0, None), Drop3());
  }

  lemma DropLib3()
    ensures StepLib(Drop3(), Header(5, 1, 0, 1, Some(Schedule(2, [3, 9])))) == 3
  {
    hide StepLib;
    LibOfFour(Drop3(), Header(5, 1, 0, 1, Some(Schedule(2, [3, 9]))), 0, 2, 3, 1);
  }

  lemma DropStep3()
    ensures Steps(Drop3(), Header(5, 1, 0, 1, Some(Schedule(2, [3, 9]))), Drop4())
  {
    hide StepLib, StepConfirmation, Steps;
    DropLib3();
    CountsTo(Drop3(), Header(5, 1, 0, 1, Some(Schedule(2, [3, 9]))), -1, Drop4().confirmCount);
    StepsOn(Drop3(), Header(5, 1, 0, 1, Some(Schedule(2, [3, 9]))), Drop4());
  }

  lemma DropLib4()
    ensures StepLib(Drop4(), Header(6, 2, 1, 1, None)) == 3
  {
    hide StepLib;
    LibOfFour(Drop4(), Header(6, 2, 1, 1, None), 0, 3, 1, 2);
  }

  lemma DropStep4()
    ensures Steps(Drop4(), Header(6, 2, 1, 1, None), Drop5())
  {
    hide StepLib, StepConfirmation, Steps;
    DropLib4();
    CountsTo(Drop4(), Header(6, 2, 1, 1, None), -1, Drop5().confirmCount);
    StepsOn(Drop4(), Header(6, 2, 1, 1, None), Drop5());
  }

  lemma DropLib5()
    ensures StepLib(Drop5(), Header(8, 0, 2, 1, None)) == 4
  {
    hide StepLib;
    LibOfFour(Drop5(), Header(8, 0, 2, 1, None), 3, 0, 1, 2);
  }

  lemma DropStep5()
    ensures Steps(Drop5(), Header(8, 0, 2, 1, None), Drop6())
  {
    hide StepLib, StepConfirmation, Steps;
    DropLib5();
    CountsTo(Drop5(), Header(8, 0, 2, 1, None), 0, Drop6().confirmCount);
    StepsOn(Drop5(), Header(8, 0, 2, 1, None), Drop6());
  }

  lemma DropLib6()
    ensures StepLib(Drop6(), Header(9, 1, 2, 1, None)) == 4
  {
    hide StepLib;
    LibOfFour(Drop6(), Header(9, 1, 2, 1, None), 3, 0, 2, 1);
  }

  lemma DropStep6()
    ensures Steps(Drop6(), Header(9, 1, 2, 1, None), Drop7())
  {
    hide StepLib, StepConfirmation, Steps;
    DropLib6();
    CountsTo(Drop6(), Header(9, 1, 2, 1, None), 0, Drop7().confirmCount);
    StepsOn(Drop6(), Header(9, 1, 2, 1, None), Drop7());
  }

  lemma DropLib7()
    ensures StepLib(Drop7(), Header(10, 2, 2, 1, None)) == 4
  {
    hide StepLib;
    LibOfFour(Drop7(), Header(10, 2, 2, 1, None), 3, 0, 1, 2);
  }

  lemma DropStep7()
    ensures Steps(Drop7(), Header(10, 2, 2, 1, None), Drop8())
  {
    hide StepLib, StepConfirmation, Steps;
    DropLib7();
    CountsTo(Drop7(), Header(10, 2, 2, 1, None), 0, Drop8().confirmCount);
    StepsOn(Drop7(), Header(10, 2, 2, 1, None), Drop8());
  }

  lemma DropLib8()
    ensures StepLib(Drop8(), Header(12, 0, 2, 1, None)) == 5
  {
    hide StepLib;
    LibOfFour(Drop8(), Header(12, 0, 2, 1, None), 3, 1, 2, 0);
  }

  lemma DropProduced8()
    ensures Drop9().lastProduced == Carry([3, 9], Drop8().lastProduced, 0, 10, 5)[0 := 10]
  {
    assert Carry([3, 9], Drop8().lastProduced, 0, 10, 5) == map[3 := 3, 9 := 5];
  }

  lemma DropImplied8()
    ensures Drop9().lastImplied == Carry([3, 9], Drop8().lastImplied, 0, 7, 5)
  {
  }

  lemma DropStep8()
    ensures Steps(Drop8(), Header(12, 0, 2, 1, None), Drop9())
  {
    hide StepLib, StepConfirmation, Steps, Carry;
    DropLib8();
    DropProduced8();
    DropImplied8();
    CountsTo(Drop8(), Header(12, 0, 2, 1, None), 0, Drop9().confirmCount);
    StepsToPending(Drop8(), Header(12, 0, 2, 1, None), Drop9());
  }

  lemma DropLib9()
    ensures StepLib(Drop9(), Header(13, 9, 0, 2, None)) == 3
  {
    hide StepLib;
    LibOfTwo(Drop9(), Header(13, 9, 0, 2, None), 3, 9);
  }

  lemma DropStep9()
    ensures Steps(Drop9(), Header(13, 9, 0, 2, None), Drop10())
  {
    hide StepLib, StepConfirmation, Steps;
    DropLib9();
    CountsTo(Drop9(), Header(13, 9, 0, 2, None), -1, Drop10().confirmCount);
    StepsOn(Drop9(), Header(13, 9, 0, 2, None), Drop10());
  }

  lemma DropLib10()
    ensures StepLib(Drop10(), Header(14, 3, 0, 2, None)) == 8
  {
    hide StepLib;
    LibOfTwo(Drop10(), Header(14, 3, 0, 2, None), 3, 9);
  }

  lemma DropStep10()
    ensures Steps(Drop10(), Header(14, 3, 0, 2, None), Drop11())
  {
    hide StepLib, StepConfirmation, Steps;
    DropLib10();
    CountsTo(Drop10(), Header(14, 3, 0, 2, None), -1, Drop11().confirmCount);
    StepsOn(Drop10(), Header(14, 3, 0, 2, None), Drop11());
  }

  // ---- A range that wraps, after the first three blocks of the run above ----

  function Wrap4(): HeaderState
  {
    HeaderState(5, 8, 4, 3, Schedule(1, [0, 1, 2, 3]), ScheduleInfo(3, Schedule(1, [])),
                map[0 := 5, 1 := 3, 2 := 3, 3 := 3], map[0 := 4, 1 := 3, 2 := 3, 3 := 3], [2])
  }

  function Wrap5(): HeaderState
  {
    HeaderState(6, 12, 4, 3, Schedule(1, [0, 1, 2, 3]), ScheduleInfo(3, Schedule(1, [])),
                map[0 := 6, 1 := 3, 2 := 3, 3 := 3], map[0 := 4, 1 := 3, 2 := 3, 3 := 3], [1, 2])
  }

  function Wrap6(): HeaderState
  {
    HeaderState(7, 16, 5, 3, Schedule(1, [0, 1, 2, 3]), ScheduleInfo(3, Schedule(1, [])),
                map[0 := 7, 1 := 3, 2 := 3, 3 := 3], map[0 := 4, 1 := 3, 2 := 3, 3 := 3], [1, 2])
  }

  function WrapStates(): seq<HeaderState>
  {
    [Genesis(0, 0), Drop1(), Drop2(), Drop3(), Wrap4(), Wrap5(), Wrap6()]
  }

  function WrapHeaders(): seq<Header>
  {
    [Header(1, 0, 0, 0, None), Header(2, 0, 0, 0, Some(Schedule(1, [0, 1, 2, 3]))), Header(4, 0, 0, 0, None),
     Header(8, 0, 0, 1, None), Header(12, 0, 60000, 1, None), Header(16, 0, 60000, 1, None)]
  }

  lemma WrapLib3()
    ensures StepLib(Drop3(), Header(8, 0, 0, 1, None)) == 3
  {
    hide StepLib;
    LibOfFour(Drop3(), Header(8, 0, 0, 1, None), 1, 2, 3, 0);
  }

  lemma WrapStep3()
    ensures Steps(Drop3(), Header(8, 0, 0, 1, None), Wrap4())
  {
    hide StepLib, StepConfirmation, Steps;
    WrapLib3();
    CountsTo(Drop3(), Header(8, 0, 0, 1, None), -1, Wrap4().confirmCount);
    StepsOn(Drop3(), Header(8, 0, 0, 1, None), Wrap4());
  }

  lemma WrapLib4()
    ensures StepLib(Wrap4(), Header(12, 0, 60000, 1, None)) == 3
  {
    hide StepLib;
    LibOfFour(Wrap4(), Header(12, 0, 60000, 1, None), 1, 2, 3, 0);
  }

  lemma WrapStep4()
    ensures Steps(Wrap4(), Header(12, 0, 60000, 1, None), Wrap5())
  {
    hide StepLib, StepConfirmation, Steps;
    WrapLib4();
    CountsTo(Wrap4(), Header(12, 0, 60000, 1, None), -1, Wrap5().confirmCount);
    StepsOn(Wrap4(), Header(12, 0, 60000, 1, None), Wrap5());
  }

  lemma WrapLib5()
    ensures StepLib(Wrap5(), Header(16, 0, 60000, 1, None)) == 3
  {
    hide StepLib;
    LibOfFour(Wrap5(), Header(16, 0, 60000, 1, None), 1, 2, 3, 0);
  }

  lemma WrapStep5()
    ensures Steps(Wrap5(), Header(16, 0, 60000, 1, None), Wrap6())
  {
    hide StepLib, StepConfirmation, Steps;
    WrapLib5();
    CountsTo(Wrap5(), Header(16, 0, 60000, 1, None), 0, Wrap6().confirmCount);
    StepsOn(Wrap5(), Header(16, 0, 60000, 1, None), Wrap6());
  }

  // ---- What the runs show ----

  lemma DropRun()
    ensures IsRun(DropStates(), DropHeaders()) && DropStates()[0] == Genesis(0, 0)
  {
    hide Steps;
    DropStep0(); DropStep1(); DropStep2(); DropStep3(); DropStep4(); DropStep5();
    DropStep6(); DropStep7(); DropStep8(); DropStep9(); DropStep10();
  }

  /** A promotion lowers the irreversible number: the tenth block's is 5, the eleventh's 3. */
  lemma PromotionCanLowerLib()
    ensures var ss, hs := DropStates(), DropHeaders();
      && IsRun(ss, hs) && ss[0] == Genesis(0, 0) && PromotedBy(ss[8], hs[8])
      && ss[9].blockNum == 10 && ss[10].irreversible == 3 < 5 == ss[9].irreversible
  {
    hide IsRun, StepLib;
    DropRun();
    DropLib8();
  }

  /** The promotion also leaves a map of which only half imply the irreversible number. */
  lemma PromotionCanLoseTwoThirds()
    ensures var st := DropStates()[9];
      3 * |AtLeast(st.lastImplied, st.irreversible)| <= 2 * |st.lastImplied|
  {
    var st := Drop9();
    assert AtLeast(st.lastImplied, 5) == {9};
    assert st.lastImplied.Keys == {3, 9} && |st.lastImplied| == |st.lastImplied.Keys|;
  }

  lemma WrapRun()
    ensures IsRun(WrapStates(), WrapHeaders()) && WrapStates()[0] == Genesis(0, 0)
  {
    hide Steps;
    DropStep0(); DropStep1(); DropStep2(); WrapStep3(); WrapStep4(); WrapStep5();
  }

  /** The part of the run under the schedule of four. */
  function FourStates(): seq<HeaderState>
  {
    WrapStates()[3..]
  }

  function FourHeaders(): seq<Header>
  {
    WrapHeaders()[3..]
  }

  lemma FourRun()
    ensures FourStates() == [Drop3(), Wrap4(), Wrap5(), Wrap6()] && |FourHeaders()| == 3
    ensures IsRun(FourStates(), FourHeaders()) && StateOk(Drop3())
    ensures UnderSchedule(FourStates(), FourHeaders(), [0, 1, 2, 3])
  {
    hide Steps;
    WrapStep3(); WrapStep4(); WrapStep5();
  }

  /** All three of its headers are of producer 0. */
  lemma FourVotes()
    ensures Votes(FourStates(), FourHeaders()) == [Vote(0, 5, 0), Vote(0, 6, 60000), Vote(0, 7, 60000)]
  {
    var ss, hs := FourStates(), FourHeaders();
    VotesStep(ss, hs, 0);
    VotesStep(ss, hs, 1);
    VotesStep(ss, hs, 2);
    assert hs[..3] == hs && hs[..0] == [];
  }

  lemma OneConfirmer(votes: seq<Vote>)
    requires votes == [Vote(0, 5, 0), Vote(0, 6, 60000), Vote(0, 7, 60000)]
    ensures Confirmers(votes, 5) == {0} && |Confirmers(votes, 5)| == 1
  {
    assert votes[0] in votes && Covers(votes[0], 5);
  }

  /**
   Without the condition on repeated votes the quorum theorem fails: in a run from genesis, under a schedule of four
   producers, block 5 becomes proposed with a single confirmer.
   */
  lemma WrappedRangeBreaksQuorum()
    ensures IsRun(WrapStates(), WrapHeaders()) && WrapStates()[0] == Genesis(0, 0)
    ensures var ss, hs, producers := FourStates(), FourHeaders(), [0, 1, 2, 3];
      && |ss| == 4 && IsRun(ss, hs) && StateOk(ss[0]) && UnderSchedule(ss, hs, producers)
      && ss[0].blockNum < ss[3].proposedIrreversible == 5 != ss[2].proposedIrreversible
      && Confirmers(Votes(ss, hs), 5) == {0} && Required(|producers|) == 3
      && !NoRepeats(ss, hs, 3)
  {
    WrapRun();
    FourRun();
    FourVotes();
    hide IsRun, Votes, NoRepeats, Confirmers, UnderSchedule, StateOk, WrapStates, FourStates, FourHeaders;
    OneConfirmer(Votes(FourStates(), FourHeaders()));
    if NoRepeats(FourStates(), FourHeaders(), 3) {
      ProposedHasQuorum(FourStates(), FourHeaders(), [0, 1, 2, 3]);
    }
  }
}
