/**
 The DPoS header state machine: how one block header turns the confirmation counts, the proposed and
 actual last irreversible block numbers and the producer schedule of its parent into its own.
 */
module BlockHeaderState {
  import opened Results
  import opened OrderStatistic

  type AccountName = nat
  type UInt16 = n: nat | n < 0x1_0000

  const PRODUCER_REPETITIONS: nat := 1
  const MAX_PRODUCERS: nat := 102
  const MAXIMUM_TRACKED_DPOS_CONFIRMATIONS: nat := 1024

  datatype Schedule = Schedule(version: nat, producers: seq<AccountName>)

  /** A schedule waiting for the block that announced it to become irreversible. */
  datatype ScheduleInfo = ScheduleInfo(libNum: nat, schedule: Schedule)

  datatype HeaderState = HeaderState(
    blockNum: nat,
    slot: nat,
    proposedIrreversible: nat,
    irreversible: nat,
    active: Schedule,
    pending: ScheduleInfo,
    lastProduced: map<AccountName, nat>,
    lastImplied: map<AccountName, nat>,
    confirmCount: seq<nat>)

  /** The template computed from the parent before the header itself is compared with it. */
  datatype PendingHeader = PendingHeader(
    blockNum: nat,
    slot: nat,
    producer: AccountName,
    confirmed: UInt16,
    scheduleVersion: nat,
    proposedIrreversible: nat,
    irreversible: nat,
    active: Schedule,
    prevPending: ScheduleInfo,
    promoted: bool,
    lastProduced: map<AccountName, nat>,
    lastImplied: map<AccountName, nat>,
    confirmCount: seq<nat>)

  datatype Header = Header(
    slot: nat,
    producer: AccountName,
    confirmed: UInt16,
    scheduleVersion: nat,
    newProducers: Option<Schedule>)

  datatype HeaderError =
    | NotInFuture
    | DoubleConfirm
    | TimestampMismatch
    | ConfirmedMismatch
    | WrongProducer
    | ScheduleVersionMismatch
    | PendingSetWhilePromoting
    | WrongScheduleVersion
    | PendingNotConfirmed

  // ---- The pieces of one step ----

  /** Round robin over the active schedule. */
  function ScheduledProducer(active: Schedule, slot: nat): (p: AccountName)
    requires active.producers != []
    ensures p in active.producers
    ensures p == active.producers[slot / PRODUCER_REPETITIONS % |active.producers|]
  {
    active.producers[slot % (|active.producers| * PRODUCER_REPETITIONS) / PRODUCER_REPETITIONS]
  }

  /** Unsigned 32-bit subtraction. */
  function Sub32(a: nat, b: nat): nat
  {
    (a - b) % 0x1_0000_0000
  }

  function Required(n: nat): nat
  {
    n * 2 / 3 + 1
  }

  /** Decrement of an unsigned 8-bit counter. */
  function Dec8(c: nat): nat
  {
    if c == 0 then 255 else c - 1
  }

  function DecrementAll(s: seq<nat>): (r: seq<nat>)
    ensures |r| == |s| && forall i | 0 <= i < |s| :: r[i] == Dec8(s[i])
  {
    if s == [] then [] else DecrementAll(s[..|s| - 1]) + [Dec8(s[|s| - 1])]
  }

  /** Appends the entry of the new block, dropping the oldest entry of a full window. */
  function Grow(counts: seq<nat>, required: nat): seq<nat>
  {
    if |counts| < MAXIMUM_TRACKED_DPOS_CONFIRMATIONS then counts + [required % 256]
    else counts[1..] + [required % 256]
  }

  /** `z` is the newest index at or above `lo` whose count would reach zero, or -1 for none. */
  predicate IsNewestAtOne(counts: seq<nat>, lo: nat, z: int)
  {
    && lo <= |counts| && -1 <= z < |counts|
    && (z != -1 ==> lo <= z && Dec8(counts[z]) == 0)
    && forall i | lo <= i < |counts| && z < i :: Dec8(counts[i]) != 0
  }

  function NewestAtOne(counts: seq<nat>, lo: nat): (z: int)
    requires lo <= |counts|
    ensures IsNewestAtOne(counts, lo, z)
    decreases |counts|
  {
    if |counts| == lo then -1
    else if Dec8(counts[|counts| - 1]) == 0 then |counts| - 1
    else NewestAtOne(counts[..|counts| - 1], lo)
  }

  datatype Confirmation = Confirmation(counts: seq<nat>, proposed: nat)

  /** The oldest index that a range of `k` blocks reaches. */
  function OldestConfirmed(counts: seq<nat>, k: nat): (lo: nat)
    ensures lo <= |counts|
  {
    if k < |counts| then |counts| - k else 0
  }

  function ConfirmAt(counts: seq<nat>, blockNum: nat, proposed: nat, lo: nat, z: int): Confirmation
    requires |counts| <= blockNum && IsNewestAtOne(counts, lo, z)
  {
    if z == -1 then Confirmation(counts[..lo] + DecrementAll(counts[lo..]), proposed)
    else Confirmation(DecrementAll(counts[z + 1..]), blockNum - (|counts| - 1 - z))
  }

  /**
   Confirms the newest `k` tracked blocks. The newest block whose count reaches zero becomes the
   proposed irreversible block and everything at or below it is no longer tracked.
   */
  function Confirm(counts: seq<nat>, blockNum: nat, proposed: nat, k: nat): Confirmation
    requires |counts| <= blockNum
  {
    var lo := OldestConfirmed(counts, k);
    ConfirmAt(counts, blockNum, proposed, lo, NewestAtOne(counts, lo))
  }

  /** The implied map with the next producer's entry replaced; no entry is added. */
  function WithImplied(implied: map<AccountName, nat>, p: AccountName, proposed: nat): map<AccountName, nat>
  {
    map a | a in implied :: if a == p then proposed else implied[a]
  }

  /** The value that more than two thirds of the producers in the map imply or exceed. */
  ghost function LastIrreversible(implied: map<AccountName, nat>, p: AccountName, proposed: nat): nat
  {
    var m := WithImplied(implied, p, proposed);
    assert m.Keys == implied.Keys;
    if |m| == 0 then 0 else Kth(m, (|m| - 1) / 3)
  }

  /** The map a promoted schedule starts from: known producers keep their value, new ones get `initial`. */
  function Carry(producers: seq<AccountName>, known: map<AccountName, nat>, p: AccountName, own: nat, initial: nat)
    : map<AccountName, nat>
  {
    map a | a in producers :: if a == p then own else if a in known then known[a] else initial
  }

  predicate DoubleConfirms(st: HeaderState, p: AccountName, confirmed: UInt16)
  {
    p in st.lastProduced && !(st.lastProduced[p] < Sub32(st.blockNum + 1, confirmed))
  }

  /** Whether a pending schedule takes over: the block that announced it has become irreversible. */
  predicate Promotes(pending: ScheduleInfo, lib: nat)
  {
    pending.schedule.producers != [] && lib >= pending.libNum
  }

  /** The schedule and the producer maps of the block that `p` produces on top of `st`. */
  function Assemble(st: HeaderState, slot: nat, p: AccountName, confirmed: UInt16, c: Confirmation, lib: nat)
    : PendingHeader
  {
    var num := st.blockNum + 1;
    var promote := Promotes(st.pending, lib);
    var active := if promote then st.pending.schedule else st.active;
    PendingHeader(
      num, slot, p, confirmed, st.active.version, c.proposed, lib, active, st.pending, promote,
      if promote then Carry(active.producers, st.lastProduced, p, num, lib)[p := num]
      else st.lastProduced[p := num],
      if promote then Carry(active.producers, st.lastImplied, p, st.proposedIrreversible, lib)
      else st.lastImplied[p := st.proposedIrreversible],
      c.counts)
  }

  /** The block that `p` produces on top of `st`, its range accepted. */
  ghost function Produce(st: HeaderState, slot: nat, p: AccountName, confirmed: UInt16): PendingHeader
    requires |st.confirmCount| <= st.blockNum
  {
    var grown := Grow(st.confirmCount, Required(|st.active.producers|));
    var c := Confirm(grown, st.blockNum + 1, st.proposedIrreversible, confirmed + 1);
    var lib := LastIrreversible(st.lastImplied, p, st.proposedIrreversible);
    Assemble(st, slot, p, confirmed, c, lib)
  }

  /** The template for the block following `st`. */
  ghost function Next(st: HeaderState, when: nat, confirmed: UInt16): Result<PendingHeader, HeaderError>
    requires st.active.producers != []
    requires |st.confirmCount| <= st.blockNum
  {
    if when != 0 && when <= st.slot then Err(NotInFuture) else
    var slot := if when != 0 then when else st.slot + 1;
    var p := ScheduledProducer(st.active, slot);
    if DoubleConfirms(st, p, confirmed) then Err(DoubleConfirm)
    else Ok(Produce(st, slot, p, confirmed))
  }

  /** Compares the header with its template and installs a newly announced schedule. */
  function Finish(t: PendingHeader, h: Header): Result<HeaderState, HeaderError>
  {
    if h.slot != t.slot then Err(TimestampMismatch)
    else if h.confirmed != t.confirmed then Err(ConfirmedMismatch)
    else if h.producer != t.producer then Err(WrongProducer)
    else if h.scheduleVersion != t.scheduleVersion then Err(ScheduleVersionMismatch)
    else if h.newProducers.Some? && t.promoted then Err(PendingSetWhilePromoting)
    else if h.newProducers.Some? && h.newProducers.value.version != t.active.version + 1 then
      Err(WrongScheduleVersion)
    else if h.newProducers.Some? && t.prevPending.schedule.producers != [] then Err(PendingNotConfirmed)
    else
      var pending :=
        if h.newProducers.Some? then ScheduleInfo(t.blockNum, h.newProducers.value)
        else if t.promoted then ScheduleInfo(t.prevPending.libNum, Schedule(t.prevPending.schedule.version, []))
        else t.prevPending;
      Ok(HeaderState(t.blockNum, t.slot, t.proposedIrreversible, t.irreversible, t.active, pending,
                     t.lastProduced, t.lastImplied, t.confirmCount))
  }

  ghost function Advance(st: HeaderState, h: Header): Result<HeaderState, HeaderError>
    requires st.active.producers != []
    requires |st.confirmCount| <= st.blockNum
  {
    var t := Next(st, h.slot, h.confirmed);
    if t.Err? then Err(t.error) else Finish(t.value, h)
  }

  // ---- The step as the node performs it ----

  /** `calc_dpos_last_irreversible`: collects the implied numbers and picks the entry one third in. */
  method CalcDposLastIrreversible(implied: map<AccountName, nat>, p: AccountName, proposed: nat)
    returns (lib: nat)
    ensures lib == LastIrreversible(implied, p, proposed)
  {
    hide Counts, Kth, CountBelow, CountBelowIn;
    ghost var m := WithImplied(implied, p, proposed);
    var blocknums: seq<nat> := [];
    var todo := implied.Keys;
    assert m.Keys == todo;
    CountingStarts(m);
    while todo != {}
      invariant todo <= implied.Keys == m.Keys
      invariant Counts(m, blocknums, todo)
    {
      var a :| a in todo;
      var b := if a == p then proposed else implied[a];
      CountingStep(m, blocknums, todo, a);
      blocknums, todo := blocknums + [b], todo - {a};
    }
    CountingEnds(m, blocknums);
    if |blocknums| == 0 { return 0; }
    var index := (|blocknums| - 1) / 3;
    lib := NthElement(blocknums, index);
    KthIs(m, blocknums, index, lib);
  }

  lemma DecrementedTail(counts: seq<nat>, cc: seq<nat>, lo: nat)
    requires lo <= |counts| == |cc|
    requires forall j | lo <= j < |counts| :: cc[j] == Dec8(counts[j])
    ensures DecrementAll(counts[lo..]) == cc[lo..]
  {
  }

  /** The countdown loop over the newest entries. */
  method CountDown(counts: seq<nat>, blockNum: nat, proposed: nat, k: nat) returns (c: Confirmation)
    requires |counts| <= blockNum
    ensures c == Confirm(counts, blockNum, proposed, k)
  {
    hide NewestAtOne, DecrementAll;
    var cc := counts;
    var i := |counts| - 1;
    var blocksToConfirm := k;
    ghost var lo := OldestConfirmed(counts, k);
    while i >= 0 && blocksToConfirm != 0
      invariant -1 <= i < |counts|
      invariant blocksToConfirm + (|counts| - 1 - i) == k && lo <= i + 1
      invariant |cc| == |counts| && forall j | 0 <= j <= i :: cc[j] == counts[j]
      invariant forall j | i < j < |counts| :: cc[j] == Dec8(counts[j]) != 0
    {
      cc := cc[i := Dec8(cc[i])];
      if cc[i] == 0 {
        assert IsNewestAtOne(counts, lo, i);
        DecrementedTail(counts, cc, i + 1);
        return Confirmation(cc[i + 1..], blockNum - (|cc| - 1 - i));
      }
      i, blocksToConfirm := i - 1, blocksToConfirm - 1;
    }
    assert IsNewestAtOne(counts, lo, -1);
    DecrementedTail(counts, cc, lo);
    assert cc == cc[..lo] + cc[lo..] && cc[..lo] == counts[..lo];
    c := Confirmation(cc, proposed);
  }

  /** The loop that builds a promoted schedule's map. */
  method CarryOver(producers: seq<AccountName>, known: map<AccountName, nat>, p: AccountName, own: nat, initial: nat)
    returns (m: map<AccountName, nat>)
    ensures m == Carry(producers, known, p, own, initial)
  {
    m := map[];
    for i := 0 to |producers|
      invariant m == Carry(producers[..i], known, p, own, initial)
    {
      var a := producers[i];
      m := m[a := if a == p then own else if a in known then known[a] else initial];
      assert producers[..i + 1] == producers[..i] + [a];
    }
    assert producers[..|producers|] == producers;
  }

  /** The promotion branch of `next`, map by map. */
  method AssembleTemplate(st: HeaderState, slot: nat, p: AccountName, confirmed: UInt16, c: Confirmation, lib: nat)
    returns (t: PendingHeader)
    ensures t == Assemble(st, slot, p, confirmed, c, lib) && t.slot == slot
  {
    var num := st.blockNum + 1;
    if st.pending.schedule.producers != [] && lib >= st.pending.libNum {
      var active := st.pending.schedule;
      var produced := CarryOver(active.producers, st.lastProduced, p, num, lib);
      produced := produced[p := num];
      var implied := CarryOver(active.producers, st.lastImplied, p, st.proposedIrreversible, lib);
      return PendingHeader(num, slot, p, confirmed, st.active.version, c.proposed, lib, active, st.pending, true,
                           produced, implied, c.counts);
    }
    return PendingHeader(num, slot, p, confirmed, st.active.version, c.proposed, lib, st.active, st.pending, false,
                         st.lastProduced[p := num], st.lastImplied[p := st.proposedIrreversible], c.counts);
  }

  /** The counting part of `next`. */
  method ProduceTemplate(st: HeaderState, slot: nat, p: AccountName, confirmed: UInt16) returns (t: PendingHeader)
    requires |st.confirmCount| <= st.blockNum
    ensures t == Produce(st, slot, p, confirmed) && t.slot == slot
  {
    hide LastIrreversible, Confirm, Assemble;
    var grown := Grow(st.confirmCount, Required(|st.active.producers|));
    var c := CountDown(grown, st.blockNum + 1, st.proposedIrreversible, confirmed + 1);
    var lib := CalcDposLastIrreversible(st.lastImplied, p, st.proposedIrreversible);
    t := AssembleTemplate(st, slot, p, confirmed, c, lib);
  }

  /** `block_header_state::next`. */
  method ComputeNext(st: HeaderState, when: nat, confirmed: UInt16) returns (r: Result<PendingHeader, HeaderError>)
    requires st.active.producers != []
    requires |st.confirmCount| <= st.blockNum
    ensures r == Next(st, when, confirmed)
    ensures r == Err(NotInFuture) <==> 0 < when <= st.slot
    ensures r.Ok? ==> st.slot < r.value.slot == if when == 0 then st.slot + 1 else when
  {
    hide Produce;
    var slot := when;
    if when != 0 {
      if when <= st.slot { return Err(NotInFuture); }
    } else {
      slot := st.slot + 1;
    }
    var p := ScheduledProducer(st.active, slot);
    if p in st.lastProduced {
      if !(st.lastProduced[p] < Sub32(st.blockNum + 1, confirmed)) { return Err(DoubleConfirm); }
    }
    var t := ProduceTemplate(st, slot, p, confirmed);
    return Ok(t);
  }
}
