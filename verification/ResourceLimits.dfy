/**
 Account limits: committed values, pending values that replace them at the next boundary, and the
 chain-wide totals of the committed ones.
 */
module ResourceLimits {

  import opened Results
  import MapSum

  const UINT64_MAX: nat := 0xFFFF_FFFF_FFFF_FFFF

  type UInt64 = n: nat | n <= UINT64_MAX
  type Int64 = n: int | -0x8000_0000_0000_0000 <= n <= 0x7FFF_FFFF_FFFF_FFFF
  type Account = nat

  datatype Limits = Limits(mem: Int64, net: Int64, cpu: Int64)
  datatype Totals = Totals(mem: UInt64, net: UInt64, cpu: UInt64)

  datatype LimitError = NoSuchAccount | AccountExists | TotalUnderflow | TotalOverflow

  /** Negative limits mean unlimited and add nothing to a total. */
  function Counted(value: Int64): (n: UInt64)
  {
    if value > 0 then value else 0
  }

  datatype Kind = Mem | Net | Cpu

  function Value(l: Limits, k: Kind): Int64
  {
    match k case Mem => l.mem case Net => l.net case Cpu => l.cpu
  }

  function TotalOf(t: Totals, k: Kind): UInt64
  {
    match k case Mem => t.mem case Net => t.net case Cpu => t.cpu
  }

  ghost function CountedValues(m: map<Account, Limits>, k: Kind): map<Account, int>
  {
    map a | a in m :: Counted(Value(m[a], k))
  }

  ghost function SumOf(m: map<Account, Limits>, k: Kind): int
  {
    MapSum.Sum(CountedValues(m, k))
  }

  /** Each total is the sum of the positive committed values. */
  ghost predicate TotalsAgree(committed: map<Account, Limits>, totals: Totals)
  {
    forall k: Kind :: TotalOf(totals, k) == SumOf(committed, k)
  }

  function Positive(n: int): int
  {
    if n > 0 then n else 0
  }

  ghost function MemLimits(m: map<Account, Limits>): map<Account, int>
  {
    map a | a in m :: Positive(m[a].mem)
  }

  ghost function NetLimits(m: map<Account, Limits>): map<Account, int>
  {
    map a | a in m :: Positive(m[a].net)
  }

  ghost function CpuLimits(m: map<Account, Limits>): map<Account, int>
  {
    map a | a in m :: Positive(m[a].cpu)
  }

  /** The same field by field: the sums of the positive memory, net and CPU limits. */
  ghost predicate FieldTotals(committed: map<Account, Limits>, totals: Totals)
  {
    && totals.mem == MapSum.Sum(MemLimits(committed))
    && totals.net == MapSum.Sum(NetLimits(committed))
    && totals.cpu == MapSum.Sum(CpuLimits(committed))
  }

  lemma TotalsByField(committed: map<Account, Limits>, totals: Totals)
    requires TotalsAgree(committed, totals)
    ensures FieldTotals(committed, totals)
  {
    assert CountedValues(committed, Mem) == MemLimits(committed);
    assert CountedValues(committed, Net) == NetLimits(committed);
    assert CountedValues(committed, Cpu) == CpuLimits(committed);
    assert TotalOf(totals, Mem) == SumOf(committed, Mem);
    assert TotalOf(totals, Net) == SumOf(committed, Net);
    assert TotalOf(totals, Cpu) == SumOf(committed, Cpu);
  }

  /** What `get_account_limits` answers: the pending limits, or else the committed ones. */
  function Current(committed: map<Account, Limits>, pending: map<Account, Limits>, a: Account): Option<Limits>
  {
    if a in pending then Some(pending[a]) else if a in committed then Some(committed[a]) else None
  }

  /** `update_state_and_value`: takes the old value out of the total and puts the new one in. */
  function Replace(total: UInt64, value: Int64, pending: Int64): Result<UInt64, LimitError>
  {
    if value > 0 && total < value then Err(TotalUnderflow)
    else
      var rest := if value > 0 then total - value else total;
      if pending > 0 && UINT64_MAX - rest < pending then Err(TotalOverflow)
      else Ok(if pending > 0 then rest + pending else rest)
  }

  lemma SumCoversValue(m: map<Account, Limits>, a: Account, k: Kind)
    requires a in m
    ensures Counted(Value(m[a], k)) <= SumOf(m, k)
  {
    MapSum.SumAtLeast(CountedValues(m, k), a);
  }

  lemma SumUpdate(m: map<Account, Limits>, a: Account, l: Limits, k: Kind)
    ensures SumOf(m[a := l], k) == SumOf(m, k) + Counted(Value(l, k)) - (if a in m then Counted(Value(m[a], k)) else 0)
  {
    MapSum.SumUpdate(CountedValues(m, k), a, Counted(Value(l, k)));
    assert CountedValues(m[a := l], k) == CountedValues(m, k)[a := Counted(Value(l, k))];
  }

  lemma SumWithout(m: map<Account, Limits>, a: Account, k: Kind)
    requires a in m
    ensures SumOf(m, k) == Counted(Value(m[a], k)) + SumOf(m - {a}, k)
  {
    MapSum.SumWithout(CountedValues(m, k), a);
    assert CountedValues(m - {a}, k) == CountedValues(m, k) - {a};
  }

  lemma SumIsNonNegative(m: map<Account, Limits>, k: Kind)
    ensures SumOf(m, k) >= 0
  {
    MapSum.SumNonNegative(CountedValues(m, k));
  }

  /** With totals that agree, only an overflow can stop a replacement, and then the new total would not fit. */
  lemma ReplaceIsExact(committed: map<Account, Limits>, totals: Totals, a: Account, p: Limits, k: Kind)
    requires TotalsAgree(committed, totals) && a in committed
    ensures var r := Replace(TotalOf(totals, k), Value(committed[a], k), Value(p, k));
      r == if SumOf(committed[a := p], k) <= UINT64_MAX then Ok(SumOf(committed[a := p], k)) else Err(TotalOverflow)
  {
    hide SumOf;
    SumCoversValue(committed, a, k);
    SumUpdate(committed, a, p, k);
  }

  ghost predicate SumsFit(m: map<Account, Limits>)
  {
    forall k: Kind :: SumOf(m, k) <= UINT64_MAX
  }

  /** Room for the committed and the pending values together, in every total. */
  ghost predicate RoomForBoth(committed: map<Account, Limits>, pending: map<Account, Limits>)
  {
    forall k: Kind :: SumOf(committed, k) + SumOf(pending, k) <= UINT64_MAX
  }

  lemma RoomStays(committed: map<Account, Limits>, pending: map<Account, Limits>, a: Account)
    requires a in committed && a in pending && RoomForBoth(committed, pending)
    ensures RoomForBoth(committed[a := pending[a]], pending - {a}) && SumsFit(committed[a := pending[a]])
  {
    hide SumOf;
    forall k: Kind
      ensures SumOf(committed[a := pending[a]], k) + SumOf(pending - {a}, k) <= UINT64_MAX
      ensures SumOf(committed[a := pending[a]], k) <= UINT64_MAX
    {
      SumUpdate(committed, a, pending[a], k);
      SumWithout(pending, a, k);
      SumIsNonNegative(pending - {a}, k);
      SumCoversValue(committed, a, k);
    }
  }

  /** The pending limits of the accounts up to `a`, in the order of their names. */
  function UpTo(pending: map<Account, Limits>, a: Account): map<Account, Limits>
  {
    map b | b in pending && b <= a :: pending[b]
  }

  /** However far the replacements go, in the order of the names, the totals fit. */
  ghost predicate PrefixesFit(committed: map<Account, Limits>, pending: map<Account, Limits>)
  {
    forall a :: a in pending ==> SumsFit(committed + UpTo(pending, a))
  }

  predicate IsSmallest(s: set<Account>, a: Account)
  {
    a in s && forall b :: b in s ==> a <= b
  }

  lemma {:induction false} SmallestExists(s: set<Account>)
    requires s != {}
    ensures exists a :: IsSmallest(s, a)
  {
    var a :| a in s;
    if IsSmallest(s, a) {
    } else {
      var smaller :| smaller in s && smaller < a;
      assert smaller in s - {a};
      SmallestExists(s - {a});
      var b :| IsSmallest(s - {a}, b);
      assert forall c :: c in s && c != a ==> c in s - {a};
      assert IsSmallest(s, b);
    }
  }

  /** `committed` and `pending` are what is left after the accounts before all the pending ones were collapsed. */
  ghost predicate CollapsedBefore(committed: map<Account, Limits>, pending: map<Account, Limits>,
                                  committed': map<Account, Limits>, pending': map<Account, Limits>)
  {
    && pending.Keys <= committed.Keys
    && pending' == (map a | a in pending && a in pending' :: pending[a])
    && (forall a, b :: a in pending - pending'.Keys && b in pending' ==> a < b)
    && committed' == committed + (pending - pending'.Keys)
  }

  lemma CollapseNext(committed: map<Account, Limits>, pending: map<Account, Limits>,
                     committed': map<Account, Limits>, pending': map<Account, Limits>, a: Account)
    requires CollapsedBefore(committed, pending, committed', pending')
    requires IsSmallest(pending'.Keys, a)
    ensures CollapsedBefore(committed, pending, committed'[a := pending'[a]], pending' - {a})
    ensures committed'[a := pending'[a]] == committed + UpTo(pending, a)
  {
    var collapsed := committed'[a := pending'[a]];
    assert forall b :: b in pending && b <= a <==> b in pending && (b !in pending' || b == a);
    assert collapsed == committed + UpTo(pending, a);
    assert UpTo(pending, a) == pending - (pending' - {a}).Keys;
  }

  class ResourceLimits {
    var committed: map<Account, Limits>
    var pending: map<Account, Limits>
    var totals: Totals

    ghost predicate Valid()
      reads this
    {
      pending.Keys <= committed.Keys && TotalsAgree(committed, totals)
    }

    constructor ()
      ensures Valid() && committed == map[] && pending == map[]
    {
      committed, pending, totals := map[], map[], Totals(0, 0, 0);
      assert forall k: Kind :: CountedValues(map[], k) == map[];
    }

    method InitializeAccount(a: Account) returns (r: Result<(), LimitError>)
      requires Valid()
      modifies this
      ensures Valid() && pending == old(pending) && totals == old(totals)
      ensures r.Ok? <==> a !in old(committed)
      ensures committed == if r.Ok? then old(committed)[a := Limits(-1, -1, -1)] else old(committed)
    {
      hide SumOf;
      if a in committed { return Err(AccountExists); }
      forall k: Kind
        ensures SumOf(committed[a := Limits(-1, -1, -1)], k) == SumOf(committed, k)
      {
        SumUpdate(committed, a, Limits(-1, -1, -1), k);
      }
      committed := committed[a := Limits(-1, -1, -1)];
      return Ok(());
    }

    /** Sets the pending limits; the answer says whether the memory limit went down. */
    method SetAccountLimits(a: Account, l: Limits) returns (r: Result<bool, LimitError>)
      requires Valid()
      modifies this
      ensures Valid() && committed == old(committed) && totals == old(totals)
      ensures r.Ok? <==> a in committed
      ensures pending == if r.Ok? then old(pending)[a := l] else old(pending)
      ensures r.Ok? ==> (
        var before := old(Current(committed, pending, a));
        before.Some? && (r.value <==> l.mem >= 0 && (before.value.mem < 0 || l.mem < before.value.mem)))
    {
      hide TotalsAgree;
      if a !in pending {
        if a !in committed { return Err(NoSuchAccount); }
        pending := pending[a := committed[a]];
      }
      var decreased := false;
      if l.mem >= 0 {
        decreased := pending[a].mem < 0 || l.mem < pending[a].mem;
      }
      pending := pending[a := l];
      return Ok(decreased);
    }

    /** Collapses one account's pending limits into its committed ones. */
    method Collapse(a: Account) returns (r: Result<(), LimitError>)
      requires Valid() && a in pending
      modifies this
      ensures r.Ok? <==> SumsFit(old(committed)[a := old(pending)[a]])
      ensures r.Ok? ==> Valid() && committed == old(committed)[a := old(pending)[a]] && pending == old(pending) - {a}
      ensures r.Ok? ==> FieldTotals(committed, totals)
      ensures r.Err? ==> r.error == TotalOverflow
    {
      hide SumOf, Replace;
      ghost var committed' := committed[a := pending[a]];
      forall k: Kind
        ensures var r := Replace(TotalOf(totals, k), Value(committed[a], k), Value(pending[a], k));
          if SumOf(committed', k) <= UINT64_MAX then r == Ok(SumOf(committed', k)) else r == Err(TotalOverflow)
      {
        ReplaceIsExact(committed, totals, a, pending[a], k);
      }
      var l, p := committed[a], pending[a];
      var mem := Replace(TotalOf(totals, Mem), Value(l, Mem), Value(p, Mem));
      if mem.Err? { return Err(mem.error); }
      var cpu := Replace(TotalOf(totals, Cpu), Value(l, Cpu), Value(p, Cpu));
      if cpu.Err? { return Err(cpu.error); }
      var net := Replace(TotalOf(totals, Net), Value(l, Net), Value(p, Net));
      if net.Err? { return Err(net.error); }
      totals := Totals(mem.value, net.value, cpu.value);
      committed := committed[a := p];
      pending := pending - {a};
      TotalsByField(committed, totals);
      return Ok(());
    }

    /**
     Collapses everything pending, in the order of the names: the totals follow, nothing stays pending, and no answer
     changes. It succeeds exactly if the totals fit on the way.
     */
    method ProcessAccountLimitUpdates() returns (r: Result<(), LimitError>)
      requires Valid()
      modifies this
      ensures r.Ok? ==> Valid() && pending == map[] && committed == old(committed) + old(pending)
      ensures r.Ok? ==> FieldTotals(committed, totals)
      ensures r.Ok? ==> forall a :: Current(committed, pending, a) == old(Current(committed, pending, a))
      ensures r.Err? ==> r.error == TotalOverflow
      ensures r.Ok? <==> old(PrefixesFit(committed, pending))
      ensures old(RoomForBoth(committed, pending)) ==> r.Ok?
    {
      hide RoomForBoth, SumsFit, TotalsAgree, UpTo, CollapsedBefore;
      Untouched(committed, pending);
      while pending.Keys != {}
        invariant Valid() && CollapsedBefore(old(committed), old(pending), committed, pending)
        invariant forall a :: a in old(pending) && a !in pending ==> SumsFit(old(committed) + UpTo(old(pending), a))
        invariant old(RoomForBoth(committed, pending)) ==> RoomForBoth(committed, pending)
        decreases pending.Keys
      {
        SmallestExists(pending.Keys);
        var a :| a in pending && IsSmallest(pending.Keys, a);
        ghost var c, p := committed, pending;
        CollapseNext(old(committed), old(pending), c, p, a);
        assert a in old(pending) by { StillPending(old(committed), old(pending), c, p); }
        var done := Collapse(a);
        if RoomForBoth(c, p) { RoomStays(c, p, a); }
        if done.Err? { return done; }
      }
      AllCollapsed(old(committed), old(pending), committed, pending);
      TotalsByField(committed, totals);
      return Ok(());
    }
  }

  lemma Untouched(committed: map<Account, Limits>, pending: map<Account, Limits>)
    requires pending.Keys <= committed.Keys
    ensures CollapsedBefore(committed, pending, committed, pending)
  {
  }

  lemma StillPending(committed: map<Account, Limits>, pending: map<Account, Limits>,
                     committed': map<Account, Limits>, pending': map<Account, Limits>)
    requires CollapsedBefore(committed, pending, committed', pending')
    ensures pending'.Keys <= pending.Keys
  {
    assert forall a :: a in pending' ==> a in (map b | b in pending && b in pending' :: pending[b]);
  }

  lemma AllCollapsed(committed: map<Account, Limits>, pending: map<Account, Limits>,
                     committed': map<Account, Limits>, pending': map<Account, Limits>)
    requires CollapsedBefore(committed, pending, committed', pending') && pending'.Keys == {}
    ensures pending' == map[] && committed' == committed + pending
    ensures forall a :: Current(committed', pending', a) == Current(committed, pending, a)
  {
    assert pending - pending'.Keys == pending;
  }
}
