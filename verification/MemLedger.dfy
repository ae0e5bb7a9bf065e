/**
 Memory billing: contract tables and rows and deferred transactions are paid for by accounts, and each
 account's usage is the sum of what it pays for. An exception discards what the operation had changed.
 */
module MemLedger {

  import opened Results
  import MapSum

  const UINT64_MAX: nat := 0xFFFF_FFFF_FFFF_FFFF
  const TWO63: nat := 0x8000_0000_0000_0000
  const TWO64: nat := 0x1_0000_0000_0000_0000

  /** A transaction's fee in memory. */
  const TRANSACTION_FEE: nat := 32

  type UInt64 = n: nat | n <= UINT64_MAX
  type Size = n: nat | n < 0x1_0000_0000
  type Account = nat

  /** The empty account name. */
  const NOBODY: Account := 0

  datatype MemError =
    | NoSuchAccount
    | Overflow
    | Underflow
    | NotAuthorized
    | InvalidPayer
    | DuplicateKey
    | NoSuchRow
    | AccessViolation
    | DeferredDuplicate
    | ReplaceDisabled

  // ---- What is paid for ----

  datatype TableId = TableId(code: Account, scope: nat, table: nat)

  datatype Key =
    | RowKey(t: TableId, id: nat)
    | TableKey(t: TableId)
    | DeferredKey(sender: Account, senderId: nat)

  datatype Item =
    | Row(payer: Account, size: Size)
    | Table(payer: Account, count: nat)
    | Deferred(payer: Account, size: Size)

  type Store = map<Key, Item>
  type Usage = map<Account, UInt64>

  /** Fixed fields plus 32 bytes an index, rounded up to the billing alignment of 16. */
  function BillableSize(fields: nat, indices: nat): nat
  {
    (fields + 32 * indices + 15) / 16 * 16
  }

  function Billable(item: Item): (n: nat)
    ensures n == if item.Table? then 112 else if item.Row? then 112 + item.size else 272 + item.size
  {
    match item
    case Row(_, size) => BillableSize(44, 2) + size
    case Table(_, _) => BillableSize(44, 2)
    case Deferred(_, size) => BillableSize(100, 5) + size
  }

  function Refund(item: Item): int
  {
    var n: int := Billable(item);
    -n
  }

  function Bill(item: Item, a: Account): nat
  {
    if item.payer == a then Billable(item) else 0
  }

  ghost function Bills(store: Store, a: Account): map<Key, int>
  {
    map k | k in store :: Bill(store[k], a)
  }

  /** The billable size of everything an account pays for. */
  ghost function Paid(store: Store, a: Account): int
  {
    MapSum.Sum(Bills(store, a))
  }

  lemma PaidPut(store: Store, k: Key, item: Item, a: Account)
    ensures Paid(store[k := item], a) == Paid(store, a) + Bill(item, a) - (if k in store then Bill(store[k], a) else 0)
  {
    MapSum.SumUpdate(Bills(store, a), k, Bill(item, a));
    assert Bills(store[k := item], a) == Bills(store, a)[k := Bill(item, a)];
  }

  lemma PaidWithout(store: Store, k: Key, a: Account)
    requires k in store
    ensures Paid(store, a) == Bill(store[k], a) + Paid(store - {k}, a)
    ensures Paid(store - {k}, a) >= 0
  {
    MapSum.SumWithout(Bills(store, a), k);
    assert Bills(store - {k}, a) == Bills(store, a) - {k};
    MapSum.SumNonNegative(Bills(store - {k}, a));
  }

  lemma PaidIsNonNegative(store: Store, a: Account)
    ensures Paid(store, a) >= 0
  {
    MapSum.SumNonNegative(Bills(store, a));
  }

  // ---- Tables count their rows ----

  function IsRowOf(k: Key, t: TableId): int
  {
    if k.RowKey? && k.t == t then 1 else 0
  }

  ghost function RowMarks(store: Store, t: TableId): map<Key, int>
  {
    map k | k in store :: IsRowOf(k, t)
  }

  ghost function RowCount(store: Store, t: TableId): int
  {
    MapSum.Sum(RowMarks(store, t))
  }

  lemma RowCountPut(store: Store, k: Key, item: Item, t: TableId)
    ensures RowCount(store[k := item], t) == RowCount(store, t) + (if k in store then 0 else IsRowOf(k, t))
  {
    MapSum.SumUpdate(RowMarks(store, t), k, IsRowOf(k, t));
    assert RowMarks(store[k := item], t) == RowMarks(store, t)[k := IsRowOf(k, t)];
  }

  lemma RowCountWithout(store: Store, k: Key, t: TableId)
    requires k in store
    ensures RowCount(store, t) == IsRowOf(k, t) + RowCount(store - {k}, t)
  {
    MapSum.SumWithout(RowMarks(store, t), k);
    assert RowMarks(store - {k}, t) == RowMarks(store, t) - {k};
  }

  lemma RowCountCovers(store: Store, k: Key)
    requires k in store && k.RowKey?
    ensures RowCount(store, k.t) >= 1
  {
    MapSum.SumAtLeast(RowMarks(store, k.t), k);
  }

  /** Keys hold items of their kind. */
  ghost predicate KindOk(k: Key, item: Item)
  {
    (k.RowKey? <==> item.Row?) && (k.TableKey? <==> item.Table?)
  }

  /** A table exists exactly while it has rows, and its count is their number. */
  ghost predicate TablesOk(store: Store)
  {
    && (forall k :: k in store ==> KindOk(k, store[k]))
    && (forall k :: k in store && k.RowKey? ==> TableKey(k.t) in store)
    && (forall t :: TableKey(t) in store ==> store[TableKey(t)].count == RowCount(store, t) > 0)
  }

  lemma NoTableNoRows(store: Store, t: TableId)
    requires TablesOk(store) && TableKey(t) !in store
    ensures RowCount(store, t) == 0
  {
    MapSum.SumZero(RowMarks(store, t));
  }

  function CountOf(store: Store, t: TableId): nat
  {
    if TableKey(t) in store && store[TableKey(t)].Table? then store[TableKey(t)].count else 0
  }

  lemma CountIsRowCount(store: Store, t: TableId)
    requires TablesOk(store)
    ensures CountOf(store, t) == RowCount(store, t)
    ensures TableKey(t) in store ==> store[TableKey(t)].Table?
  {
    hide RowCount;
    if TableKey(t) !in store { NoTableNoRows(store, t); } else { assert KindOk(TableKey(t), store[TableKey(t)]); }
  }

  /** A row more, and its table's count. */
  function WithRow(store: Store, t: TableId, id: nat, row: Item, tablePayer: Account): Store
  {
    store[RowKey(t, id) := row][TableKey(t) := Table(tablePayer, CountOf(store, t) + 1)]
  }

  lemma StoreKeepsTables(store: Store, t: TableId, id: nat, row: Item, tablePayer: Account)
    requires TablesOk(store) && RowKey(t, id) !in store && row.Row?
    ensures TablesOk(WithRow(store, t, id, row, tablePayer))
  {
    hide RowCount;
    var store1 := store[RowKey(t, id) := row];
    var table := Table(tablePayer, CountOf(store, t) + 1);
    CountIsRowCount(store, t);
    forall u
      ensures RowCount(store1[TableKey(t) := table], u) == RowCount(store, u) + IsRowOf(RowKey(t, id), u)
    {
      RowCountPut(store, RowKey(t, id), row, u);
      RowCountPut(store1, TableKey(t), table, u);
    }
  }

  /** A row less, and its table's count; the last row takes the table with it. */
  function WithoutRow(store: Store, t: TableId, id: nat): Store
    requires TableKey(t) in store
  {
    var rest := store - {RowKey(t, id)};
    if CountOf(store, t) <= 1 then rest - {TableKey(t)}
    else rest[TableKey(t) := Table(store[TableKey(t)].payer, CountOf(store, t) - 1)]
  }

  lemma RemoveKeepsTables(store: Store, t: TableId, id: nat)
    requires TablesOk(store) && RowKey(t, id) in store
    ensures TableKey(t) in store && TablesOk(WithoutRow(store, t, id))
  {
    hide RowCount;
    var rest := store - {RowKey(t, id)};
    CountIsRowCount(store, t);
    forall u
      ensures RowCount(rest, u) == RowCount(store, u) - IsRowOf(RowKey(t, id), u)
    {
      RowCountWithout(store, RowKey(t, id), u);
    }
    if CountOf(store, t) <= 1 {
      forall k | k in rest && k.RowKey?
        ensures k.t != t
      {
        RowCountCovers(rest, k);
      }
      forall u
        ensures RowCount(rest - {TableKey(t)}, u) == RowCount(rest, u)
      {
        RowCountWithout(rest, TableKey(t), u);
      }
    } else {
      var table := Table(store[TableKey(t)].payer, CountOf(store, t) - 1);
      forall u
        ensures RowCount(rest[TableKey(t) := table], u) == RowCount(rest, u)
      {
        RowCountPut(rest, TableKey(t), table, u);
      }
    }
  }

  lemma PutKeepsTables(store: Store, k: Key, item: Item)
    requires TablesOk(store) && KindOk(k, item)
    requires k.DeferredKey? || (k in store && k.RowKey?)
    ensures TablesOk(store[k := item])
  {
    hide RowCount;
    forall u
      ensures RowCount(store[k := item], u) == RowCount(store, u)
    {
      RowCountPut(store, k, item, u);
    }
  }

  lemma EraseKeepsTables(store: Store, k: Key)
    requires TablesOk(store) && k in store && k.DeferredKey?
    ensures TablesOk(store - {k})
  {
    hide RowCount;
    forall u
      ensures RowCount(store - {k}, u) == RowCount(store, u)
    {
      RowCountWithout(store, k, u);
    }
  }

  // ---- The balance of an account ----

  function Correction(corrections: Usage, a: Account): nat
  {
    if a in corrections then corrections[a] else 0
  }

  /** Usage is other charges, plus everything paid for, plus the outstanding correction. */
  ghost predicate Balanced(usage: Usage, other: map<Account, nat>, store: Store, corrections: Usage)
  {
    && other.Keys == usage.Keys
    && corrections.Keys <= usage.Keys
    && (forall k :: k in store ==> store[k].payer in usage)
    && forall a :: a in usage ==> usage[a] == other[a] + Paid(store, a) + Correction(corrections, a)
  }

  /** `add_pending_mem_usage`. */
  function AddPending(usage: Usage, a: Account, delta: int): Result<Usage, MemError>
  {
    if delta == 0 then Ok(usage)
    else if a !in usage then Err(NoSuchAccount)
    else if delta > 0 && UINT64_MAX - usage[a] < delta then Err(Overflow)
    else if delta < 0 && usage[a] < -delta then Err(Underflow)
    else Ok(usage[a := usage[a] + delta])
  }

  predicate CanPay(usage: Usage, a: Account, delta: int)
  {
    a in usage && usage[a] + delta <= UINT64_MAX
  }

  /** Whether a row may be given this payer and size. */
  predicate Updatable(usage: Usage, was: Item, payer: Account, size: Size, chargeable: set<Account>)
  {
    if payer == NOBODY || payer == was.payer then
      && (Billable(Row(was.payer, size)) > Billable(was) ==> was.payer in chargeable)
      && CanPay(usage, was.payer, Billable(Row(was.payer, size)) - Billable(was))
    else
      payer in chargeable && CanPay(usage, payer, Billable(Row(payer, size)))
  }

  lemma CreateBalances(usage: Usage, other: map<Account, nat>, store: Store, corrections: Usage, k: Key, item: Item)
    requires Balanced(usage, other, store, corrections) && k !in store
    ensures var r := AddPending(usage, item.payer, Billable(item));
      r.Ok? ==> Balanced(r.value, other, store[k := item], corrections)
  {
    hide Paid, Billable;
    forall a
      ensures Paid(store[k := item], a) == Paid(store, a) + Bill(item, a)
    {
      PaidPut(store, k, item, a);
    }
  }

  /** A refund never underflows, and keeps the balance. */
  lemma EraseBalances(usage: Usage, other: map<Account, nat>, store: Store, corrections: Usage, k: Key)
    requires Balanced(usage, other, store, corrections) && k in store
    ensures var r := AddPending(usage, store[k].payer, Refund(store[k]));
      r.Ok? && Balanced(r.value, other, store - {k}, corrections)
  {
    hide Paid, Billable;
    forall a
      ensures Paid(store, a) == Bill(store[k], a) + Paid(store - {k}, a) && Paid(store - {k}, a) >= 0
    {
      PaidWithout(store, k, a);
    }
  }

  /** Changing an item that keeps its bill leaves the balance alone. */
  lemma SameBillBalances(usage: Usage, other: map<Account, nat>, store: Store, corrections: Usage, k: Key, item: Item)
    requires Balanced(usage, other, store, corrections) && k in store
    requires item.payer == store[k].payer && Billable(item) == Billable(store[k])
    ensures Balanced(usage, other, store[k := item], corrections)
  {
    hide Paid, Billable;
    forall a
      ensures Paid(store[k := item], a) == Paid(store, a)
    {
      PaidPut(store, k, item, a);
    }
  }

  /** Replacing an item while its payer stays: the difference is charged or refunded. */
  lemma ResizeBalances(usage: Usage, other: map<Account, nat>, store: Store, corrections: Usage, k: Key, item: Item)
    requires Balanced(usage, other, store, corrections) && k in store && item.payer == store[k].payer
    ensures var r := AddPending(usage, item.payer, Billable(item) - Billable(store[k]));
      && (r.Ok? ==> Balanced(r.value, other, store[k := item], corrections))
      && item.payer in usage && r != Err(Underflow)
  {
    hide Paid, Billable;
    PaidWithout(store, k, item.payer);
    forall a
      ensures Paid(store[k := item], a) == Paid(store, a) + Bill(item, a) - Bill(store[k], a)
    {
      PaidPut(store, k, item, a);
    }
  }

  /** Dropping an item without a refund and noting its bill as a correction keeps the balance, without wrapping. */
  lemma CorrectionBalances(usage: Usage, other: map<Account, nat>, store: Store, corrections: Usage, k: Key)
    requires Balanced(usage, other, store, corrections) && k in store
    ensures var p := store[k].payer;
      && p in usage && Correction(corrections, p) + Billable(store[k]) <= usage[p]
      && Balanced(usage, other, store - {k}, corrections[p := Correction(corrections, p) + Billable(store[k])])
  {
    hide Paid, Billable;
    forall a
      ensures Paid(store, a) == Bill(store[k], a) + Paid(store - {k}, a) && Paid(store - {k}, a) >= 0
    {
      PaidWithout(store, k, a);
    }
  }

  /** A correction is covered by the usage, and taking both away keeps the balance. */
  lemma SettleBalances(usage: Usage, other: map<Account, nat>, store: Store, corrections: Usage, a: Account)
    requires Balanced(usage, other, store, corrections) && a in corrections
    ensures a in usage && corrections[a] <= usage[a]
    ensures Balanced(usage[a := usage[a] - corrections[a]], other, store, corrections - {a})
  {
    hide Paid;
    PaidIsNonNegative(store, a);
  }

  lemma NewAccountBalances(usage: Usage, other: map<Account, nat>, store: Store, corrections: Usage, a: Account)
    requires Balanced(usage, other, store, corrections) && a !in usage
    ensures Balanced(usage[a := 0], other[a := 0], store, corrections)
  {
    assert Paid(store, a) == 0 by { MapSum.SumZero(Bills(store, a)); }
    hide Paid;
  }

  lemma OtherKeys(usage: Usage, other: map<Account, nat>, store: Store, corrections: Usage)
    requires Balanced(usage, other, store, corrections)
    ensures other.Keys == usage.Keys
  {
  }

  lemma FeeBalances(usage: Usage, other: map<Account, nat>, store: Store, corrections: Usage, a: Account)
    requires Balanced(usage, other, store, corrections) && a in usage && a in other
    ensures var usage' := usage[a := (usage[a] + TRANSACTION_FEE) % TWO64];
      Balanced(usage', other[a := other[a] + TRANSACTION_FEE], store, corrections) <==>
        usage[a] + TRANSACTION_FEE <= UINT64_MAX
  {
    hide Paid;
    var usage', other' := usage[a := (usage[a] + TRANSACTION_FEE) % TWO64], other[a := other[a] + TRANSACTION_FEE];
    assert usage'[a] == other'[a] + Paid(store, a) + Correction(corrections, a) <==>
           usage[a] + TRANSACTION_FEE <= UINT64_MAX;
  }

  lemma OtherBalances(usage: Usage, other: map<Account, nat>, store: Store, corrections: Usage, a: Account, delta: int)
    requires Balanced(usage, other, store, corrections) && a in usage && a in other
    ensures var r := AddPending(usage, a, delta);
      && (r == Err(Underflow) ==> other[a] + delta < 0)
      && (r.Ok? && other[a] + delta >= 0 ==> Balanced(r.value, other[a := other[a] + delta], store, corrections))
      && (r.Ok? && other[a] + delta < 0 ==> !Balanced(r.value, other, store, corrections))
  {
    hide Paid;
    PaidIsNonNegative(store, a);
    assert delta == 0 ==> other[a := other[a] + delta] == other;
  }

  // ---- 64-bit casts ----

  /** `static_cast<int64_t>`. */
  function ToInt64(n: UInt64): int
  {
    if n < TWO63 then n else n - TWO64
  }

  /** The negation of a 64-bit signed number; the most negative one is its own negation. */
  function NegInt64(n: int): int
  {
    var low: int := TWO63;
    if n == -low then n else -n
  }

  /** A covered correction is taken off exactly, if its cast to a signed number keeps its magnitude. */
  lemma SettleCast(usage: Usage, a: Account, c: UInt64)
    requires a in usage && c <= usage[a]
    ensures AddPending(usage, a, NegInt64(ToInt64(c))) ==
      if c <= TWO63 then Ok(usage[a := usage[a] - c]) else Err(Overflow)
  {
    assert c == 0 ==> usage[a := usage[a] - c] == usage;
  }

  // ---- The ledger ----

  class MemLedger {
    var usage: Usage
    var store: Store
    var corrections: Usage
    /** Whether the REPLACE_DEFERRED feature is active. */
    var replaceDeferred: bool
    /** Fees and the charges of objects outside the store. */
    ghost var other: map<Account, nat>

    ghost predicate Valid()
      reads this
    {
      && TablesOk(store)
      && Balanced(usage, other, store, corrections)
      && (replaceDeferred ==> corrections == map[])
    }

    constructor ()
      ensures Valid() && usage == map[] && store == map[] && corrections == map[] && !replaceDeferred
    {
      usage, store, corrections, replaceDeferred, other := map[], map[], map[], false, map[];
    }

    ghost predicate Same(u: Usage, s: Store, c: Usage)
      reads this
    {
      usage == u && store == s && corrections == c
    }

    /** Charges for a new item and stores it. */
    method Create(k: Key, item: Item) returns (r: Result<(), MemError>)
      requires Balanced(usage, other, store, corrections) && k !in store
      modifies this`usage, this`store
      ensures r.Ok? ==>
        Balanced(usage, other, store, corrections) && store == old(store)[k := item] && item.payer in usage
      ensures r.Ok? <==> AddPending(old(usage), item.payer, Billable(item)).Ok?
      ensures r.Ok? ==> AddPending(old(usage), item.payer, Billable(item)) == Ok(usage)
      ensures r.Err? ==> usage == old(usage) && store == old(store) && r.error != Underflow
    {
      hide Balanced, Billable;
      CreateBalances(usage, other, store, corrections, k, item);
      var charged := AddPending(usage, item.payer, Billable(item));
      if charged.Err? { return Err(charged.error); }
      store := store[k := item];
      usage := charged.value;
      return Ok(());
    }

    /** Refunds an item and removes it: nothing can fail. */
    method Erase(k: Key)
      requires Balanced(usage, other, store, corrections) && k in store
      modifies this`usage, this`store
      ensures Balanced(usage, other, store, corrections) && store == old(store) - {k}
      ensures AddPending(old(usage), old(store)[k].payer, Refund(old(store)[k])) == Ok(usage)
    {
      hide Balanced, Billable;
      EraseBalances(usage, other, store, corrections, k);
      var refunded := AddPending(usage, store[k].payer, Refund(store[k]));
      usage := refunded.value;
      store := store - {k};
    }

    /** Sets a table's row count. */
    method Recount(t: TableId, count: nat)
      requires Balanced(usage, other, store, corrections) && TableKey(t) in store && store[TableKey(t)].Table?
      modifies this`store
      ensures Balanced(usage, other, store, corrections)
      ensures store == old(store)[TableKey(t) := Table(old(store)[TableKey(t)].payer, count)]
    {
      hide Balanced;
      var table := store[TableKey(t)].(count := count);
      SameBillBalances(usage, other, store, corrections, TableKey(t), table);
      store := store[TableKey(t) := table];
    }

    method Restore(u: Usage, s: Store, c: Usage)
      modifies this`usage, this`store, this`corrections
      ensures Same(u, s, c)
    {
      usage, store, corrections := u, s, c;
    }

    /** `newaccount`: an account starts with no usage. */
    method NewAccount(a: Account) returns (r: Result<(), MemError>)
      requires Valid()
      modifies this`usage, this`other
      ensures Valid()
      ensures r.Ok? <==> a !in old(usage)
      ensures usage == if r.Ok? then old(usage)[a := 0] else old(usage)
    {
      hide Balanced, TablesOk;
      if a in usage { return Err(DuplicateKey); }
      NewAccountBalances(usage, other, store, corrections, a);
      usage := usage[a := 0];
      other := other[a := 0];
      return Ok(());
    }

    /** `db_store_i64`: the table is created and charged first if it is not there. */
    method StoreRow(t: TableId, payer: Account, id: nat, size: Size, chargeable: set<Account>)
      returns (r: Result<(), MemError>)
      requires Valid()
      modifies this`usage, this`store, this`corrections
      ensures Valid()
      ensures r.Ok? <==>
        && RowKey(t, id) !in old(store)
        && payer in chargeable && payer != NOBODY
        && CanPay(old(usage), payer,
                  Billable(Row(payer, size)) + (if TableKey(t) in old(store) then 0 else Billable(Table(payer, 0))))
      ensures r.Ok? ==> (
        var tablePayer := if TableKey(t) in old(store) then old(store)[TableKey(t)].payer else payer;
        store == WithRow(old(store), t, id, Row(payer, size), tablePayer) && corrections == old(corrections))
      ensures r.Err? ==> Same(old(usage), old(store), old(corrections)) && r.error != Underflow
    {
      hide Balanced, TablesOk, Billable, Paid;
      var u, s, c := usage, store, corrections;
      var tk, rk := TableKey(t), RowKey(t, id);
      CountIsRowCount(store, t);
      if tk !in store {
        if payer !in chargeable { return Err(NotAuthorized); }
        var made := Create(tk, Table(payer, 0));
        if made.Err? { return made; }
      }
      if payer == NOBODY { Restore(u, s, c); return Err(InvalidPayer); }
      if rk in store { Restore(u, s, c); return Err(DuplicateKey); }
      if payer !in chargeable { Restore(u, s, c); return Err(NotAuthorized); }
      var stored := Create(rk, Row(payer, size));
      if stored.Err? { Restore(u, s, c); return stored; }
      Recount(t, store[tk].count + 1);
      StoreKeepsTables(s, t, id, Row(payer, size), store[tk].payer);
      assert store == WithRow(s, t, id, Row(payer, size), store[tk].payer);
      return Ok(());
    }

    /** `db_update_i64`: a new payer is charged after the old one is refunded; the same payer pays the difference. */
    method UpdateRow(receiver: Account, t: TableId, id: nat, payer: Account, size: Size, chargeable: set<Account>)
      returns (r: Result<(), MemError>)
      requires Valid()
      modifies this`usage, this`store, this`corrections
      ensures Valid()
      ensures r.Ok? <==>
        && RowKey(t, id) in old(store) && receiver == t.code
        && Updatable(old(usage), old(store)[RowKey(t, id)], payer, size, chargeable)
      ensures r.Ok? ==> (
        var payer' := if payer == NOBODY then old(store)[RowKey(t, id)].payer else payer;
        store == old(store)[RowKey(t, id) := Row(payer', size)] && corrections == old(corrections))
      ensures r.Err? ==> Same(old(usage), old(store), old(corrections)) && r.error != Underflow
    {
      hide Balanced, TablesOk, Billable, Paid;
      var u, s, c := usage, store, corrections;
      var k := RowKey(t, id);
      if k !in store { return Err(NoSuchRow); }
      if t.code != receiver { return Err(AccessViolation); }
      var was := store[k];
      var row := Row(if payer == NOBODY then was.payer else payer, size);
      PutKeepsTables(store, k, row);
      if was.payer != row.payer {
        Erase(k);
        if row.payer !in chargeable { Restore(u, s, c); return Err(NotAuthorized); }
        var charged := Create(k, row);
        if charged.Err? { Restore(u, s, c); return charged; }
        assert (s - {k})[k := row] == s[k := row];
      } else {
        if Billable(row) > Billable(was) && row.payer !in chargeable { return Err(NotAuthorized); }
        ResizeBalances(usage, other, store, corrections, k, row);
        var paid := AddPending(usage, row.payer, Billable(row) - Billable(was));
        if paid.Err? { return Err(paid.error); }
        usage := paid.value;
        store := store[k := row];
      }
      return Ok(());
    }

    /** `db_remove_i64`: the last row of a table takes the table with it. */
    method RemoveRow(receiver: Account, t: TableId, id: nat) returns (r: Result<(), MemError>)
      requires Valid()
      modifies this`usage, this`store
      ensures Valid()
      ensures r.Ok? <==> RowKey(t, id) in old(store) && receiver == t.code
      ensures r.Ok? ==> TableKey(t) in old(store) && store == WithoutRow(old(store), t, id)
      ensures r.Err? ==> Same(old(usage), old(store), corrections)
    {
      hide Balanced, Billable, Paid, RowCount;
      ghost var s := store;
      var k := RowKey(t, id);
      if k !in store { return Err(NoSuchRow); }
      if t.code != receiver { return Err(AccessViolation); }
      RemoveKeepsTables(store, t, id);
      assert KindOk(TableKey(t), store[TableKey(t)]);
      hide TablesOk;
      Erase(k);
      Recount(t, store[TableKey(t)].count - 1);
      if store[TableKey(t)].count == 0 {
        Erase(TableKey(t));
        assert store == s - {k} - {TableKey(t)};
      }
      return Ok(());
    }

    /** `add_to_mem_correction`. */
    method AddToMemCorrection(a: Account, bytes: UInt64)
      modifies this`corrections
      ensures corrections == old(corrections)[a := (Correction(old(corrections), a) + bytes) % TWO64]
    {
      if a in corrections {
        corrections := corrections[a := (corrections[a] + bytes) % TWO64];
      } else {
        corrections := corrections[a := bytes];
      }
    }

    /**
     `schedule_deferred_transaction`: replacing a deferred transaction refunds its payer once REPLACE_DEFERRED
     is active; before, the payer keeps the charge and the overcharge is noted.
     */
    method ScheduleDeferred(sender: Account, senderId: nat, payer: Account, size: Size,
                            replaceExisting: bool, replaceAllowed: bool, chargeable: set<Account>)
      returns (r: Result<(), MemError>)
      requires Valid()
      modifies this`usage, this`store, this`corrections
      ensures Valid()
      ensures r.Ok? <==>
        && payer in chargeable
        && (DeferredKey(sender, senderId) in old(store) ==> replaceExisting && (replaceDeferred || replaceAllowed))
        && CanPay(old(usage), payer, Billable(Deferred(payer, size)) -
             (if DeferredKey(sender, senderId) in old(store) && replaceDeferred
              then Bill(old(store)[DeferredKey(sender, senderId)], payer) else 0))
      ensures r.Ok? ==> store == old(store)[DeferredKey(sender, senderId) := Deferred(payer, size)]
      ensures r.Ok? && (replaceDeferred || DeferredKey(sender, senderId) !in old(store)) ==>
        corrections == old(corrections)
      ensures r.Ok? && !replaceDeferred && DeferredKey(sender, senderId) in old(store) ==>
        forall a :: Correction(corrections, a) ==
                    Correction(old(corrections), a) + Bill(old(store)[DeferredKey(sender, senderId)], a)
      ensures r.Err? ==> Same(old(usage), old(store), old(corrections)) && r.error != Underflow
    {
      hide Balanced, TablesOk, Billable, Paid;
      var u, s, c := usage, store, corrections;
      var k := DeferredKey(sender, senderId);
      if payer !in chargeable { return Err(NotAuthorized); }
      PutKeepsTables(store, k, Deferred(payer, size));
      if k in store {
        if !replaceExisting { return Err(DeferredDuplicate); }
        if !replaceDeferred && !replaceAllowed { return Err(ReplaceDisabled); }
        if replaceDeferred {
          Erase(k);
        } else {
          CorrectionBalances(usage, other, store, corrections, k);
          AddToMemCorrection(store[k].payer, Billable(store[k]));
          store := store - {k};
        }
        assert (s - {k})[k := Deferred(payer, size)] == s[k := Deferred(payer, size)];
      }
      var charged := Create(k, Deferred(payer, size));
      if charged.Err? { Restore(u, s, c); return charged; }
      return Ok(());
    }

    /** `schedule_transaction`: a delayed transaction has no sender and is paid for by its first authorizer. */
    method ScheduleDelayed(senderId: nat, payer: Account, size: Size) returns (r: Result<(), MemError>)
      requires Valid()
      modifies this`usage, this`store
      ensures Valid()
      ensures r.Ok? <==>
        DeferredKey(NOBODY, senderId) !in old(store) && CanPay(old(usage), payer, Billable(Deferred(payer, size)))
      ensures r.Ok? ==> store == old(store)[DeferredKey(NOBODY, senderId) := Deferred(payer, size)]
      ensures r.Err? ==> Same(old(usage), old(store), corrections) && r.error != Underflow
    {
      hide Balanced, TablesOk, Billable, Paid;
      var k := DeferredKey(NOBODY, senderId);
      if k in store { return Err(DuplicateKey); }
      PutKeepsTables(store, k, Deferred(payer, size));
      r := Create(k, Deferred(payer, size));
    }

    /** `cancel_deferred_transaction`, and `remove_scheduled_transaction` when one is retired. */
    method RemoveDeferred(sender: Account, senderId: nat) returns (found: bool)
      requires Valid()
      modifies this`usage, this`store
      ensures Valid()
      ensures found <==> DeferredKey(sender, senderId) in old(store)
      ensures store == old(store) - {DeferredKey(sender, senderId)}
      ensures !found ==> usage == old(usage)
    {
      hide Balanced, TablesOk, Billable, Paid;
      var k := DeferredKey(sender, senderId);
      found := k in store;
      if found {
        EraseKeepsTables(store, k);
        Erase(k);
      } else {
        assert store - {k} == store;
      }
    }

    /**
     The fee a transaction leaves on its payers' usage is added without a check: the balance survives unless it wraps.
     */
    method ChargeFee(a: Account) returns (r: Result<(), MemError>)
      requires Valid()
      modifies this`usage, this`other
      ensures r.Ok? <==> a in old(usage)
      ensures r.Ok? ==> usage == old(usage)[a := (old(usage)[a] + TRANSACTION_FEE) % TWO64]
      ensures r.Ok? ==> (Valid() <==> old(usage)[a] + TRANSACTION_FEE <= UINT64_MAX)
      ensures r.Err? ==> Valid() && usage == old(usage)
    {
      hide TablesOk, Balanced;
      if a !in usage { return Err(NoSuchAccount); }
      OtherKeys(usage, other, store, corrections);
      FeeBalances(usage, other, store, corrections, a);
      usage := usage[a := (usage[a] + TRANSACTION_FEE) % TWO64];
      other := other[a := other[a] + TRANSACTION_FEE];
      return Ok(());
    }

    /** Charges for objects outside the store: the balance survives exactly if no more is refunded than was charged. */
    method ChargeOther(a: Account, delta: int) returns (r: Result<(), MemError>)
      requires Valid()
      modifies this`usage, this`other
      ensures r.Ok? <==> delta == 0 || (a in old(usage) && 0 <= old(usage)[a] + delta <= UINT64_MAX)
      ensures r.Ok? && a in old(usage) ==>
        a in usage && usage[a] == old(usage)[a] + delta && usage - {a} == old(usage) - {a}
      ensures r.Ok? && a in old(usage) ==> (Valid() <==> old(other)[a] + delta >= 0)
      ensures r.Err? || a !in old(usage) ==> Valid() && usage == old(usage)
      ensures r == Err(Underflow) ==> a in old(other) && old(other)[a] + delta < 0
    {
      hide TablesOk, Balanced;
      OtherKeys(usage, other, store, corrections);
      if a in usage { OtherBalances(usage, other, store, corrections, a, delta); }
      var charged := AddPending(usage, a, delta);
      if charged.Err? { return Err(charged.error); }
      usage := charged.value;
      if a in usage && other[a] + delta >= 0 { other := other[a := other[a] + delta]; }
      return Ok(());
    }

    /**
     Activation of REPLACE_DEFERRED: every correction is taken off its account's usage. The branch that would
     clamp a correction to the usage is never taken; the cast of a correction decides whether it succeeds.
     */
    method ActivateReplaceDeferred() returns (r: Result<(), MemError>)
      requires Valid() && !replaceDeferred
      modifies this`usage, this`corrections, this`replaceDeferred
      ensures Valid() && store == old(store)
      ensures r.Ok? <==> forall a :: a in old(corrections) ==> old(corrections)[a] <= TWO63
      ensures r.Ok? ==> corrections == map[] && replaceDeferred && usage.Keys == old(usage).Keys
      ensures r.Ok? ==> forall a :: a in usage ==> usage[a] == old(usage)[a] - Correction(old(corrections), a)
      ensures r.Err? ==> Same(old(usage), old(store), old(corrections)) && r.error == Overflow && !replaceDeferred
    {
      hide Balanced, TablesOk, AddPending;
      var u, c := usage, corrections;
      while corrections.Keys != {}
        modifies this`usage, this`corrections
        invariant Balanced(usage, other, store, corrections) && usage.Keys == u.Keys
        invariant corrections.Keys <= c.Keys && forall a :: a in corrections ==> corrections[a] == c[a]
        invariant forall a :: a in c && a !in corrections ==> c[a] <= TWO63
        invariant forall a :: a in usage ==> usage[a] == u[a] - Correction(c, a) + Correction(corrections, a)
        decreases corrections.Keys
      {
        var a :| a in corrections;
        SettleBalances(usage, other, store, corrections, a);
        if corrections[a] > usage[a] {
          assert false;
        }
        SettleCast(usage, a, corrections[a]);
        var settled := AddPending(usage, a, NegInt64(ToInt64(corrections[a])));
        if settled.Err? {
          usage, corrections := u, c;
          return Err(settled.error);
        }
        usage := settled.value;
        corrections := corrections - {a};
      }
      replaceDeferred := true;
      return Ok(());
    }
  }
}
