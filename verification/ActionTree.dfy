/**
 The actions of a transaction: contracts notify accounts and send inline actions while they run,
 and every action scheduled so becomes a trace. What a contract does is arbitrary: it is a function of how
 many actions ran before and of the trace it runs for.
 */
module ActionTree {

  import opened Results

  type Account = nat

  datatype Action = Action(code: Account, name: nat, data: seq<int>)

  datatype Request =
    | Notify(recipient: Account)
    | Inline(act: Action)
    | ContextFreeInline(act: Action)

  /** What one contract call asks for, and the accounts the native handler created. */
  datatype Outcome = Outcome(requests: seq<Request>, created: set<Account>)

  datatype TxError = NoSuchAccount | ContractFailed | TooDeep

  /** Ordinals count traces from 1; 0 is the transaction itself. */
  datatype Trace = Trace(
    act: Action,
    receiver: Account,
    contextFree: bool,
    creator: nat,
    ancestor: nat,
    receipt: Option<nat>)

  type Contract = (nat, nat) -> Result<Outcome, TxError>

  // ---- Traces ----

  predicate Done(traces: seq<Trace>, o: nat)
  {
    1 <= o <= |traces| && traces[o - 1].receipt.Some?
  }

  /**
   The creator comes before; the ancestor is the creator's own unnotified action; a notification repeats their action.
   */
  ghost predicate TraceOk(traces: seq<Trace>, o: nat)
    requires 1 <= o <= |traces|
  {
    var t := traces[o - 1];
    && t.ancestor <= t.creator < o
    && (t.creator == 0 <==> t.ancestor == 0)
    && (t.ancestor > 0 ==> traces[t.ancestor - 1].receiver == traces[t.ancestor - 1].act.code)
    && (t.receiver != t.act.code ==> t.creator > 0 && t.act == traces[t.creator - 1].act == traces[t.ancestor - 1].act)
  }

  ghost predicate TracesOk(traces: seq<Trace>)
  {
    forall o :: 1 <= o <= |traces| ==> TraceOk(traces, o)
  }

  /** Receipts and executed actions name each other: each executed action has one receipt, and no other. */
  ghost predicate ReceiptsOk(traces: seq<Trace>, executed: seq<nat>)
  {
    && (forall k :: 0 <= k < |executed| ==> 1 <= executed[k] <= |traces| && traces[executed[k] - 1].receipt == Some(k))
    && (forall o :: Done(traces, o) ==>
          traces[o - 1].receipt.value < |executed| && executed[traces[o - 1].receipt.value] == o)
  }

  /** Later traces keep what the earlier ones were, apart from a receipt for `o`. */
  ghost predicate Kept(before: seq<Trace>, after: seq<Trace>, o: nat)
  {
    && |before| <= |after|
    && forall i :: 0 <= i < |before| ==>
         (if i + 1 == o then after[i] == before[i].(receipt := after[i].receipt) else after[i] == before[i])
  }

  lemma ScheduleKeepsTraces(traces: seq<Trace>, executed: seq<nat>, t: Trace)
    requires TracesOk(traces) && ReceiptsOk(traces, executed) && t.receipt.None?
    requires TraceOk(traces + [t], |traces| + 1)
    ensures TracesOk(traces + [t]) && ReceiptsOk(traces + [t], executed)
  {
    forall o | 1 <= o <= |traces|
      ensures TraceOk(traces + [t], o)
    {
      assert TraceOk(traces, o);
    }
    assert forall o :: Done(traces + [t], o) ==> Done(traces, o);
  }

  function WithReceipt(traces: seq<Trace>, o: nat, k: nat): seq<Trace>
    requires 1 <= o <= |traces|
  {
    traces[o - 1 := traces[o - 1].(receipt := Some(k))]
  }

  lemma ReceiptKeepsTraces(traces: seq<Trace>, executed: seq<nat>, o: nat)
    requires TracesOk(traces) && ReceiptsOk(traces, executed) && 1 <= o <= |traces| && !Done(traces, o)
    ensures TracesOk(WithReceipt(traces, o, |executed|))
    ensures ReceiptsOk(WithReceipt(traces, o, |executed|), executed + [o])
  {
    forall p | 1 <= p <= |traces|
      ensures TraceOk(WithReceipt(traces, o, |executed|), p)
    {
      assert TraceOk(traces, p);
    }
    assert forall p :: Done(WithReceipt(traces, o, |executed|), p) && p != o ==> Done(traces, p);
  }

  lemma KeptTransitive(a: seq<Trace>, b: seq<Trace>, c: seq<Trace>, o: nat, p: nat)
    requires Kept(a, b, o) && Kept(b, c, p) && (p == o || p > |a|)
    ensures Kept(a, c, o)
  {
  }

  // ---- What one context scheduled ----

  datatype Notice = Notice(receiver: Account, ordinal: nat)

  function Ordinals(notified: seq<Notice>): (r: seq<nat>)
    ensures |r| == |notified| && forall i :: 0 <= i < |r| ==> r[i] == notified[i].ordinal
  {
    if notified == [] then [] else Ordinals(notified[..|notified| - 1]) + [notified[|notified| - 1].ordinal]
  }

  function Receivers(notified: seq<Notice>): (r: set<Account>)
    ensures forall a :: a in r <==> exists i :: 0 <= i < |notified| && notified[i].receiver == a
  {
    if notified == [] then {} else Receivers(notified[..|notified| - 1]) + {notified[|notified| - 1].receiver}
  }

  ghost predicate DistinctReceivers(notified: seq<Notice>)
  {
    forall i, j :: 0 <= i < j < |notified| ==> notified[i].receiver != notified[j].receiver
  }

  ghost predicate Increasing(s: seq<nat>)
  {
    forall i, j :: 0 <= i < j < |s| ==> s[i] < s[j]
  }

  /** The ordinals after `base` and up to `n` are in exactly one of the lists, each list in order. */
  ghost predicate Dealt(base: nat, n: nat, notices: seq<nat>, cfa: seq<nat>, inl: seq<nat>)
  {
    && base <= n
    && Increasing(notices) && Increasing(cfa) && Increasing(inl)
    && (forall o :: o in notices ==> base < o <= n && o !in cfa && o !in inl)
    && (forall o :: o in cfa ==> base < o <= n && o !in inl)
    && (forall o :: o in inl ==> base < o <= n)
    && (forall o :: base < o <= n ==> o in notices || o in cfa || o in inl)
  }

  lemma DealNext(base: nat, n: nat, notices: seq<nat>, cfa: seq<nat>, inl: seq<nat>)
    requires Dealt(base, n, notices, cfa, inl)
    ensures Dealt(base, n + 1, notices + [n + 1], cfa, inl)
    ensures Dealt(base, n + 1, notices, cfa + [n + 1], inl)
    ensures Dealt(base, n + 1, notices, cfa, inl + [n + 1])
  {
    IncreasingAppend(notices, n + 1);
    IncreasingAppend(cfa, n + 1);
    IncreasingAppend(inl, n + 1);
  }

  lemma IncreasingAppend(s: seq<nat>, x: nat)
    requires Increasing(s) && forall y :: y in s ==> y < x
    ensures Increasing(s + [x])
  {
    forall i, j | 0 <= i < j < |s| + 1
      ensures (s + [x])[i] < (s + [x])[j]
    {
      assert s[i] in s;
    }
  }

  /**
   A context that runs the unnotified action `first`: its notices start with that action's own, name distinct
   receivers of the same action, and with its inline actions make up everything scheduled since `base`.
   */
  ghost predicate ContextOk(base: nat, first: nat, traces: seq<Trace>, notified: seq<Notice>, cfa: seq<nat>,
                            inl: seq<nat>)
  {
    && 1 <= first <= base <= |traces|
    && traces[first - 1].receiver == traces[first - 1].act.code
    && notified != [] && notified[0] == Notice(traces[first - 1].receiver, first)
    && DistinctReceivers(notified)
    && Dealt(base, |traces|, Ordinals(notified[1..]), cfa, inl)
    && (forall i :: 0 <= i < |notified| ==> NoticeOk(first, traces, notified[i]))
    && (forall o :: o in cfa || o in inl ==> InlineOk(traces, o))
  }

  ghost predicate NoticeOk(first: nat, traces: seq<Trace>, notice: Notice)
    requires 1 <= first <= |traces|
  {
    && first <= notice.ordinal <= |traces|
    && traces[notice.ordinal - 1].act == traces[first - 1].act
    && traces[notice.ordinal - 1].receiver == notice.receiver
  }

  ghost predicate InlineOk(traces: seq<Trace>, o: nat)
  {
    1 <= o <= |traces| && traces[o - 1].receiver == traces[o - 1].act.code
  }

  lemma NewTraceOk(traces: seq<Trace>, first: nat, o: nat, t: Trace)
    requires 1 <= first <= o <= |traces| && traces[first - 1].receiver == traces[first - 1].act.code
    requires traces[o - 1].act == traces[first - 1].act
    requires t.creator == o && t.ancestor == first && (t.receiver == t.act.code || t.act == traces[o - 1].act)
    ensures TraceOk(traces + [t], |traces| + 1)
  {
  }

  /** Scheduling keeps the context: a notice to a new receiver, or an inline action. */
  lemma NotifyKeepsContext(base: nat, first: nat, traces: seq<Trace>, notified: seq<Notice>, cfa: seq<nat>,
                           inl: seq<nat>, t: Trace)
    requires ContextOk(base, first, traces, notified, cfa, inl)
    requires t.act == traces[first - 1].act && t.receiver !in Receivers(notified)
    ensures ContextOk(base, first, traces + [t], notified + [Notice(t.receiver, |traces| + 1)], cfa, inl)
  {
    hide Dealt, Ordinals, Receivers, DistinctReceivers;
    var notice := Notice(t.receiver, |traces| + 1);
    OrdinalsOfTail(notified, notice);
    DealNext(base, |traces|, Ordinals(notified[1..]), cfa, inl);
    InContextAfter(first, traces, notified, cfa, inl, t);
    DistinctAppend(notified, notice);
  }

  lemma OrdinalsOfTail(notified: seq<Notice>, notice: Notice)
    requires notified != []
    ensures Ordinals((notified + [notice])[1..]) == Ordinals(notified[1..]) + [notice.ordinal]
  {
    assert (notified + [notice])[1..] == notified[1..] + [notice];
  }

  lemma DistinctAppend(notified: seq<Notice>, notice: Notice)
    requires DistinctReceivers(notified) && notice.receiver !in Receivers(notified)
    ensures DistinctReceivers(notified + [notice])
  {
    assert forall i :: 0 <= i < |notified| ==> notified[i].receiver in Receivers(notified);
  }

  lemma InlineKeepsContext(base: nat, first: nat, traces: seq<Trace>, notified: seq<Notice>, cfa: seq<nat>,
                           inl: seq<nat>, t: Trace)
    requires ContextOk(base, first, traces, notified, cfa, inl) && t.receiver == t.act.code
    ensures ContextOk(base, first, traces + [t], notified, cfa + [|traces| + 1], inl)
    ensures ContextOk(base, first, traces + [t], notified, cfa, inl + [|traces| + 1])
  {
    hide Dealt;
    DealNext(base, |traces|, Ordinals(notified[1..]), cfa, inl);
    InContextAfter(first, traces, notified, cfa, inl, t);
  }

  lemma InContextAfter(first: nat, traces: seq<Trace>, notified: seq<Notice>, cfa: seq<nat>, inl: seq<nat>, t: Trace)
    requires 1 <= first <= |traces|
    requires forall i :: 0 <= i < |notified| ==> NoticeOk(first, traces, notified[i])
    requires forall o :: o in cfa || o in inl ==> InlineOk(traces, o)
    ensures forall i :: 0 <= i < |notified| ==> NoticeOk(first, traces + [t], notified[i])
    ensures forall o :: o in cfa || o in inl ==> InlineOk(traces + [t], o)
  {
    assert forall o :: o in cfa || o in inl ==> InlineOk(traces, o);
  }

  lemma ReceiptKeepsContext(base: nat, first: nat, traces: seq<Trace>, notified: seq<Notice>, cfa: seq<nat>,
                            inl: seq<nat>, o: nat, k: nat)
    requires ContextOk(base, first, traces, notified, cfa, inl) && 1 <= o <= |traces|
    ensures ContextOk(base, first, WithReceipt(traces, o, k), notified, cfa, inl)
  {
    hide Dealt;
    var traces' := WithReceipt(traces, o, k);
    forall i | 0 <= i < |notified|
      ensures NoticeOk(first, traces', notified[i])
    {
      assert NoticeOk(first, traces, notified[i]);
    }
    forall p | p in cfa || p in inl
      ensures InlineOk(traces', p)
    {
      assert InlineOk(traces, p);
    }
  }

  // ---- What ran ----

  /** Beyond what was done before: the action `first`, those in `ran`, and everything scheduled after `n`. */
  ghost predicate RanAre(before: seq<Trace>, traces: seq<Trace>, first: nat, ran: seq<nat>, n: nat)
  {
    forall o :: 1 <= o <= |traces| ==> (Done(traces, o) <==> Done(before, o) || o == first || o in ran || o > n)
  }

  lemma RanOne(before: seq<Trace>, t0: seq<Trace>, t1: seq<Trace>, first: nat, ran: seq<nat>, o: nat)
    requires RanAre(before, t0, first, ran, |t0|) && RanAre(t0, t1, o, [], |t1|)
    requires |before| <= |t0| <= |t1| && 1 <= o <= |t0| && first <= |t0| && forall p :: p in ran ==> p <= |t0|
    ensures RanAre(before, t1, first, ran + [o], |t1|)
  {
  }

  lemma RanWhole(before: seq<Trace>, t0: seq<Trace>, t1: seq<Trace>, first: nat, ran: seq<nat>, n: nat, o: nat)
    requires RanAre(before, t0, first, ran, n) && RanAre(t0, t1, o, [], |t0|)
    requires |before| <= n <= |t0| <= |t1| && 1 <= o <= |t0| && first <= |t0| && forall p :: p in ran ==> p <= |t0|
    ensures RanAre(before, t1, first, ran + [o], n)
  {
  }

  lemma OrdinalsAppend(notified: seq<Notice>, i: nat)
    requires 1 <= i < |notified|
    ensures Ordinals(notified[1..i + 1]) == Ordinals(notified[1..i]) + [notified[i].ordinal]
  {
    assert notified[1..i + 1] == notified[1..i] + [notified[i]];
  }

  /** A notice that has not run yet is not done: its ordinal is new, and unlike those before it. */
  lemma NextNotice(base: nat, first: nat, before: seq<Trace>, traces: seq<Trace>, notified: seq<Notice>, cfa: seq<nat>,
                   inl: seq<nat>, i: nat)
    requires ContextOk(base, first, traces, notified, cfa, inl) && |before| == base && 1 <= i < |notified|
    requires RanAre(before, traces, first, Ordinals(notified[1..i]), |traces|)
    ensures base < notified[i].ordinal <= |traces| && !Done(traces, notified[i].ordinal)
    ensures NoticeOk(first, traces, notified[i])
    ensures forall p :: p in Ordinals(notified[1..i]) ==> p <= |traces|
  {
    var all := Ordinals(notified[1..]);
    var o := notified[i].ordinal;
    assert o == all[i - 1] && o in all;
    assert forall k :: 0 <= k < i - 1 ==> Ordinals(notified[1..i])[k] == all[k];
    assert o !in Ordinals(notified[1..i]);
  }

  lemma ReceiversGrow(notified: seq<Notice>, i: nat)
    requires DistinctReceivers(notified) && i < |notified|
    ensures Receivers(notified[..i + 1]) == Receivers(notified[..i]) + {notified[i].receiver}
    ensures notified[i].receiver !in Receivers(notified[..i])
  {
    assert notified[..i + 1][..i] == notified[..i];
  }

  lemma FirstContext(first: nat, traces: seq<Trace>)
    requires 1 <= first <= |traces| && InlineOk(traces, first)
    ensures ContextOk(|traces|, first, traces, [Notice(traces[first - 1].receiver, first)], [], [])
  {
  }

  /** When all lists ran, everything scheduled since ran. */
  lemma AllRan(before: seq<Trace>, traces: seq<Trace>, first: nat, notices: seq<nat>, cfa: seq<nat>, inl: seq<nat>,
               n: nat)
    requires RanAre(before, traces, first, notices + cfa + inl, n) && Dealt(|before|, n, notices, cfa, inl)
    ensures RanAre(before, traces, first, [], |before|)
  {
    assert forall o :: o in notices + cfa + inl <==> o in notices || o in cfa || o in inl;
  }

  /** The unnotified actions in a list, none of them run yet. */
  ghost predicate Waiting(traces: seq<Trace>, base: nat, n: nat, ran: seq<nat>, list: seq<nat>)
  {
    && Increasing(list)
    && (forall o :: o in list ==> base < o <= n && o !in ran && InlineOk(traces, o))
  }

  lemma StillInline(before: seq<Trace>, after: seq<Trace>, p: nat, o: nat)
    requires Kept(before, after, p) && InlineOk(before, o)
    ensures InlineOk(after, o)
  {
  }

  lemma NextWaiting(before: seq<Trace>, traces: seq<Trace>, first: nat, ran: seq<nat>, n: nat, list: seq<nat>, i: nat)
    requires i < |list| && RanAre(before, traces, first, ran + list[..i], n) && first <= |before| <= n <= |traces|
    requires Waiting(traces, |before|, n, ran, list)
    ensures |before| < list[i] <= n && InlineOk(traces, list[i]) && !Done(traces, list[i])
  {
    assert list[i] in list;
    assert list[i] !in list[..i];
  }

  lemma StillWaiting(t0: seq<Trace>, t1: seq<Trace>, o: nat, base: nat, n: nat, ran: seq<nat>, list: seq<nat>)
    requires Waiting(t0, base, n, ran, list) && Kept(t0, t1, o)
    ensures Waiting(t1, base, n, ran, list)
  {
    forall p | p in list
      ensures InlineOk(t1, p)
    {
      StillInline(t0, t1, o, p);
    }
  }

  /** After the notices, both lists of inline actions wait, the second whatever the first runs. */
  lemma InlinesWait(base: nat, first: nat, traces: seq<Trace>, notified: seq<Notice>, cfa: seq<nat>, inl: seq<nat>)
    requires ContextOk(base, first, traces, notified, cfa, inl)
    ensures var notices := Ordinals(notified[1..]);
      && Waiting(traces, base, |traces|, notices, cfa)
      && Waiting(traces, base, |traces|, notices + cfa, inl)
      && Dealt(base, |traces|, notices, cfa, inl)
      && forall p :: p in notices + cfa + inl ==> base < p <= |traces|
  {
  }

  // ---- Who was notified, and how deep ----

  predicate IsNotice(t: Trace)
  {
    t.receiver != t.act.code
  }

  predicate SameNotice(t: Trace, u: Trace)
  {
    IsNotice(t) && IsNotice(u) && t.ancestor == u.ancestor
  }

  /** Nobody is notified twice of the same action. */
  ghost predicate NotifiedOnce(traces: seq<Trace>)
  {
    forall i, j :: 0 <= i < j < |traces| && SameNotice(traces[i], traces[j]) ==>
      traces[i].receiver != traces[j].receiver
  }

  /** How many inline actions lie between the transaction and action `o`; a notice is as deep as its action. */
  function Depth(traces: seq<Trace>, o: nat): nat
    decreases o
  {
    if !(1 <= o <= |traces|) || traces[o - 1].ancestor == 0 || traces[o - 1].ancestor >= o then 0
    else Depth(traces, traces[o - 1].ancestor) + if IsNotice(traces[o - 1]) then 0 else 1
  }

  ghost predicate DepthsOk(traces: seq<Trace>, maxDepth: nat)
  {
    forall o: nat :: Depth(traces, o) <= maxDepth
  }

  /** Only an executed action has caused others. */
  ghost predicate CausesDone(traces: seq<Trace>)
  {
    forall i :: 0 <= i < |traces| && traces[i].ancestor > 0 ==> Done(traces, traces[i].ancestor)
  }

  /** What holds between actions. */
  ghost predicate Settled(traces: seq<Trace>, maxDepth: nat)
  {
    NotifiedOnce(traces) && DepthsOk(traces, maxDepth) && CausesDone(traces) && CreatorsDone(traces)
  }

  // ---- What was asked for ----

  /** The inline actions among the requests, and whether they are context-free. */
  function Inlines(requests: seq<Request>): seq<(Action, bool)>
  {
    if requests == [] then []
    else
      Inlines(requests[..|requests| - 1]) +
      match requests[|requests| - 1]
      case Notify(_) => []
      case Inline(act) => [(act, false)]
      case ContextFreeInline(act) => [(act, true)]
  }

  /** The inline actions that action `o` created, in the order of their ordinals. */
  function CreatedInlines(traces: seq<Trace>, o: nat): seq<(Action, bool)>
  {
    if traces == [] then []
    else
      var t := traces[|traces| - 1];
      CreatedInlines(traces[..|traces| - 1], o) +
      if t.creator == o && !IsNotice(t) then [(t.act, t.contextFree)] else []
  }

  /** The action that `o` is, or is a notice of. */
  function Own(traces: seq<Trace>, o: nat): nat
    requires 1 <= o <= |traces|
  {
    if IsNotice(traces[o - 1]) then traces[o - 1].ancestor else o
  }

  /** Account `a` is the receiver of action `own` itself or of a notice of it. */
  ghost predicate Receives(traces: seq<Trace>, own: nat, a: Account)
  {
    || (1 <= own <= |traces| && traces[own - 1].receiver == a)
    || exists i :: 0 <= i < |traces| && IsNotice(traces[i]) && traces[i].ancestor == own && traces[i].receiver == a
  }

  /**
   What action `o` created is what its contract asked for: its inline actions one for one and in order, each account to
   be notified is a receiver of the action, and nobody else was notified.
   */
  ghost predicate Answers(traces: seq<Trace>, o: nat, requests: seq<Request>)
    requires 1 <= o <= |traces|
  {
    && CreatedInlines(traces, o) == Inlines(requests)
    && (forall a :: Notify(a) in requests ==> Receives(traces, Own(traces, o), a))
    && (forall i :: 0 <= i < |traces| && IsNotice(traces[i]) && traces[i].creator == o ==>
          !traces[i].contextFree && Notify(traces[i].receiver) in requests)
  }

  /** The `k`-th executed action answers the outcome of its contract call. */
  ghost predicate Answered(contract: Contract, traces: seq<Trace>, executed: seq<nat>, k: nat)
    requires k < |executed|
  {
    var outcome := contract(k, executed[k]);
    1 <= executed[k] <= |traces| && outcome.Ok? && Answers(traces, executed[k], outcome.value.requests)
  }

  ghost predicate AllAnswered(contract: Contract, traces: seq<Trace>, executed: seq<nat>)
  {
    forall k :: 0 <= k < |executed| ==> Answered(contract, traces, executed, k)
  }

  /** The accounts that the native handler of action `o` created; it runs for the action itself only. */
  ghost function CreatedBy(contract: Contract, traces: seq<Trace>, k: nat, o: nat): set<Account>
  {
    if 1 <= o <= |traces| && !IsNotice(traces[o - 1]) && contract(k, o).Ok? then contract(k, o).value.created else {}
  }

  /** The accounts that the executed actions created. */
  ghost function CreatedAccounts(contract: Contract, traces: seq<Trace>, executed: seq<nat>): set<Account>
  {
    if executed == [] then {}
    else
      var k := |executed| - 1;
      CreatedAccounts(contract, traces, executed[..k]) + CreatedBy(contract, traces, k, executed[k])
  }

  /** The receiver and the account of every executed action exist. */
  ghost predicate ReceiversExist(traces: seq<Trace>, executed: seq<nat>, accounts: set<Account>)
  {
    forall k :: 0 <= k < |executed| && 1 <= executed[k] <= |traces| ==>
      traces[executed[k] - 1].receiver in accounts && traces[executed[k] - 1].act.code in accounts
  }

  lemma ReceiversExistNext(before: seq<Trace>, after: seq<Trace>, executed: seq<nat>, o: nat, a: set<Account>,
                           b: set<Account>)
    requires ReceiversExist(before, executed, a) && a <= b && ReceiptsOk(before, executed)
    requires Kept(before, after, o) && 1 <= o <= |before| && before[o - 1].receiver in b && before[o - 1].act.code in b
    ensures ReceiversExist(after, executed + [o], b)
  {
  }

  lemma {:induction false} CreatedAccountsKept(contract: Contract, before: seq<Trace>, after: seq<Trace>,
                                               executed: seq<nat>)
    requires |before| <= |after|
    requires forall i :: 0 <= i < |before| ==> after[i] == before[i].(receipt := after[i].receipt)
    requires forall k :: 0 <= k < |executed| ==> 1 <= executed[k] <= |before|
    ensures CreatedAccounts(contract, after, executed) == CreatedAccounts(contract, before, executed)
    decreases |executed|
  {
    if executed != [] { CreatedAccountsKept(contract, before, after, executed[..|executed| - 1]); }
  }

  lemma CreatedAccountsNext(contract: Contract, before: seq<Trace>, after: seq<Trace>, executed: seq<nat>, o: nat)
    requires ReceiptsOk(before, executed) && Kept(before, after, o) && 1 <= o <= |before|
    ensures CreatedAccounts(contract, after, executed + [o]) ==
      CreatedAccounts(contract, before, executed) + CreatedBy(contract, before, |executed|, o)
  {
    assert forall k :: 0 <= k < |executed| ==> 1 <= executed[k] <= |before|;
    assert CreatedBy(contract, after, |executed|, o) == CreatedBy(contract, before, |executed|, o);
    CreatedAccountsKept(contract, before, after, executed);
    hide CreatedBy, ReceiptsOk, Kept;
    assert (executed + [o])[..|executed|] == executed && (executed + [o])[|executed|] == o;
  }

  // ---- Why it can stop ----

  /** Running action `o` as the `k`-th fails: its contract does, or an account that it needs does not exist. */
  ghost predicate Fails(contract: Contract, t: Trace, k: nat, o: nat, accounts: set<Account>, e: TxError)
  {
    || contract(k, o) == Err(e)
    || (e == NoSuchAccount && (t.receiver !in accounts || t.act.code !in accounts))
    || (e == NoSuchAccount && contract(k, o).Ok? &&
        exists i :: 0 <= i < |contract(k, o).value.requests| && Unknown(contract(k, o).value.requests[i], accounts))
  }

  predicate Unknown(req: Request, accounts: set<Account>)
  {
    !req.Notify? && req.act.code !in accounts
  }

  /** An executed action at the depth limit sent an inline action. */
  ghost predicate DeepInline(traces: seq<Trace>, maxDepth: nat, o: nat)
  {
    && Done(traces, o) && Depth(traces, o) >= maxDepth
    && exists i :: 0 <= i < |traces| && !IsNotice(traces[i]) && traces[i].ancestor == o
  }

  /** Why a transaction stops with error `e`. */
  ghost predicate Stops(contract: Contract, maxDepth: nat, traces: seq<Trace>, executed: seq<nat>,
                        accounts: set<Account>, e: TxError)
  {
    || (exists o: nat ::
          1 <= o <= |traces| && !Done(traces, o) && Fails(contract, traces[o - 1], |executed|, o, accounts, e))
    || (e == TooDeep && exists o: nat :: DeepInline(traces, maxDepth, o))
  }

  /** Only an executed action has created others. */
  ghost predicate CreatorsDone(traces: seq<Trace>)
  {
    forall i :: 0 <= i < |traces| && traces[i].creator > 0 ==> Done(traces, traces[i].creator)
  }

  /** What one request of action `o`, run for `first`, adds to the traces. */
  ghost predicate Scheduled(before: seq<Trace>, after: seq<Trace>, o: nat, first: nat, req: Request)
    requires 1 <= first <= |before|
  {
    match req
    case Inline(act) => after == before + [Trace(act, act.code, false, o, first, None)]
    case ContextFreeInline(act) => after == before + [Trace(act, act.code, true, o, first, None)]
    case Notify(a) =>
      after == if Receives(before, first, a) then before
               else before + [Trace(before[first - 1].act, a, false, o, first, None)]
  }

  lemma {:induction false} CreatedKept(before: seq<Trace>, after: seq<Trace>, o: nat)
    requires |before| == |after|
    requires forall i :: 0 <= i < |before| ==> after[i] == before[i].(receipt := after[i].receipt)
    ensures CreatedInlines(after, o) == CreatedInlines(before, o)
    decreases |before|
  {
    if before != [] { CreatedKept(before[..|before| - 1], after[..|after| - 1], o); }
  }

  lemma {:induction false} NothingCreated(traces: seq<Trace>, o: nat)
    requires forall i :: 0 <= i < |traces| ==> traces[i].creator != o
    ensures CreatedInlines(traces, o) == []
    decreases |traces|
  {
    if traces != [] { NothingCreated(traces[..|traces| - 1], o); }
  }

  lemma CreatedNext(traces: seq<Trace>, t: Trace, o: nat)
    ensures CreatedInlines(traces + [t], o) ==
      CreatedInlines(traces, o) + if t.creator == o && !IsNotice(t) then [(t.act, t.contextFree)] else []
  {
    assert (traces + [t])[..|traces|] == traces;
  }

  lemma InlinesNext(requests: seq<Request>, i: nat)
    requires i < |requests|
    ensures Inlines(requests[..i + 1]) ==
      Inlines(requests[..i]) +
      match requests[i]
      case Notify(_) => []
      case Inline(act) => [(act, false)]
      case ContextFreeInline(act) => [(act, true)]
  {
    assert requests[..i + 1][..i] == requests[..i];
  }

  lemma ReceivesKept(traces: seq<Trace>, t: Trace, own: nat, a: Account)
    requires Receives(traces, own, a)
    ensures Receives(traces + [t], own, a)
  {
    if i :| 0 <= i < |traces| && IsNotice(traces[i]) && traces[i].ancestor == own && traces[i].receiver == a {
      assert (traces + [t])[i] == traces[i];
    }
  }

  /** A trace that another action creates changes nothing. */
  lemma OthersAnswer(traces: seq<Trace>, t: Trace, o: nat, requests: seq<Request>)
    requires 1 <= o <= |traces| && t.creator != o && Answers(traces, o, requests)
    ensures Answers(traces + [t], o, requests)
  {
    hide CreatedInlines, Inlines, Receives;
    CreatedNext(traces, t, o);
    forall a | Notify(a) in requests
      ensures Receives(traces + [t], Own(traces + [t], o), a)
    {
      ReceivesKept(traces, t, Own(traces, o), a);
    }
  }

  lemma ReceiptAnswers(traces: seq<Trace>, p: nat, k: nat, o: nat, requests: seq<Request>)
    requires 1 <= o <= |traces| && 1 <= p <= |traces| && Answers(traces, o, requests)
    ensures Answers(WithReceipt(traces, p, k), o, requests)
  {
    hide CreatedInlines, Inlines;
    var after := WithReceipt(traces, p, k);
    CreatedKept(traces, after, o);
    var own := Own(traces, o);
    forall a | Notify(a) in requests
      ensures Receives(after, Own(after, o), a)
    {
      if i :| 0 <= i < |traces| && IsNotice(traces[i]) && traces[i].ancestor == own && traces[i].receiver == a {
        assert IsNotice(after[i]) && after[i].ancestor == own && after[i].receiver == a;
      }
    }
  }

  /** The requests up to the next one are answered once that one is. */
  lemma AnswersInline(traces: seq<Trace>, t: Trace, o: nat, requests: seq<Request>, i: nat)
    requires 1 <= o <= |traces| && i < |requests| && Answers(traces, o, requests[..i])
    requires t.creator == o && !IsNotice(t) && t.receipt.None?
    requires requests[i] == if t.contextFree then ContextFreeInline(t.act) else Inline(t.act)
    ensures Answers(traces + [t], o, requests[..i + 1])
  {
    hide CreatedInlines, Inlines, Receives;
    CreatedNext(traces, t, o);
    InlinesNext(requests, i);
    assert requests[..i + 1] == requests[..i] + [requests[i]];
    forall a | Notify(a) in requests[..i + 1]
      ensures Receives(traces + [t], Own(traces + [t], o), a)
    {
      ReceivesKept(traces, t, Own(traces, o), a);
    }
  }

  lemma AnswersNotice(traces: seq<Trace>, t: Trace, o: nat, requests: seq<Request>, i: nat)
    requires 1 <= o <= |traces| && i < |requests| && Answers(traces, o, requests[..i])
    requires t.creator == o && IsNotice(t) && !t.contextFree && t.ancestor == Own(traces, o)
    requires requests[i] == Notify(t.receiver)
    ensures Answers(traces + [t], o, requests[..i + 1])
  {
    hide CreatedInlines, Inlines;
    CreatedNext(traces, t, o);
    InlinesNext(requests, i);
    assert requests[..i + 1] == requests[..i] + [requests[i]];
    assert (traces + [t])[|traces|] == t;
    assert Receives(traces + [t], Own(traces, o), t.receiver);
    forall a | Notify(a) in requests[..i + 1]
      ensures Receives(traces + [t], Own(traces + [t], o), a)
    {
      if Notify(a) in requests[..i] { ReceivesKept(traces, t, Own(traces, o), a); }
    }
  }

  lemma AnswersKnown(traces: seq<Trace>, o: nat, requests: seq<Request>, i: nat)
    requires 1 <= o <= |traces| && i < |requests| && Answers(traces, o, requests[..i])
    requires requests[i].Notify? && Receives(traces, Own(traces, o), requests[i].recipient)
    ensures Answers(traces, o, requests[..i + 1])
  {
    hide CreatedInlines, Inlines, Receives;
    InlinesNext(requests, i);
    assert requests[..i + 1] == requests[..i] + [requests[i]];
  }

  lemma {:induction false} DepthKept(before: seq<Trace>, after: seq<Trace>, p: nat, o: nat)
    requires Kept(before, after, p) && o <= |before|
    ensures Depth(after, o) == Depth(before, o)
    decreases o
  {
    if 1 <= o && 0 < before[o - 1].ancestor < o { DepthKept(before, after, p, before[o - 1].ancestor); }
  }

  /** What `first` caused is what was added after the first `base` traces. */
  ghost predicate CausedBy(first: nat, base: nat, traces: seq<Trace>)
  {
    forall i :: 0 <= i < |traces| ==> (traces[i].ancestor == first <==> base <= i)
  }

  /** The notices of the running context are the only ones for its action. */
  lemma NoticesOnce(base: nat, first: nat, before: seq<Trace>, traces: seq<Trace>,
                    notified: seq<Notice>, cfa: seq<nat>, inl: seq<nat>)
    requires |before| == base && NotifiedOnce(before) && CausesDone(before) && !Done(before, first)
    requires Kept(before, traces, first) && ContextOk(base, first, traces, notified, cfa, inl)
    requires CausedBy(first, base, traces)
    ensures NotifiedOnce(traces)
  {
    hide Done, Receivers;
    assert forall i :: 0 <= i < base ==> before[i].ancestor != first;
    forall i, j | 0 <= i < j < |traces| && SameNotice(traces[i], traces[j])
      ensures traces[i].receiver != traces[j].receiver
    {
      if j < base {
        assert before[i].receiver != before[j].receiver;
      } else if i >= base {
        var k := NoticeOf(base, first, traces, notified, cfa, inl, i);
        var l := NoticeOf(base, first, traces, notified, cfa, inl, j);
      }
    }
  }

  lemma NoticeOf(base: nat, first: nat, traces: seq<Trace>, notified: seq<Notice>, cfa: seq<nat>, inl: seq<nat>, i: nat)
    returns (k: nat)
    requires ContextOk(base, first, traces, notified, cfa, inl) && base <= i < |traces| && IsNotice(traces[i])
    ensures k < |notified| && notified[k] == Notice(traces[i].receiver, i + 1)
  {
    hide Receivers;
    var notices := Ordinals(notified[1..]);
    assert i + 1 in cfa || i + 1 in inl ==> InlineOk(traces, i + 1);
    assert i + 1 in notices;
    var m :| 0 <= m < |notices| && notices[m] == i + 1;
    k := m + 1;
    assert NoticeOk(first, traces, notified[k]);
  }

  /** When its notices have run, an action has caused notices as deep as itself and inline actions one deeper. */
  lemma CausedDepth(base: nat, first: nat, before: seq<Trace>, traces: seq<Trace>, o: nat)
    requires |before| == base && 1 <= first <= base && Kept(before, traces, first) && CausedBy(first, base, traces)
    ensures Depth(traces, first) == Depth(before, first)
    ensures Depth(traces, o) ==
      if o <= base || o > |traces| then Depth(before, o)
      else Depth(before, first) + if IsNotice(traces[o - 1]) then 0 else 1
  {
    DepthKept(before, traces, first, first);
    if o <= base { DepthKept(before, traces, first, o); }
  }

  lemma CausesStayDone(base: nat, first: nat, before: seq<Trace>, traces: seq<Trace>, ran: seq<nat>)
    requires |before| == base && CausesDone(before) && 1 <= first <= base
    requires Kept(before, traces, first) && CausedBy(first, base, traces)
    requires RanAre(before, traces, first, ran, |traces|)
    ensures CausesDone(traces)
  {
    forall i | 0 <= i < |traces| && traces[i].ancestor > 0
      ensures Done(traces, traces[i].ancestor)
    {
      if i < base { assert Done(before, before[i].ancestor); }
    }
  }

  /** After the notices the traces are settled again, if what waits is not too deep. */
  lemma NoticesSettle(base: nat, first: nat, before: seq<Trace>, traces: seq<Trace>,
                      notified: seq<Notice>, cfa: seq<nat>, inl: seq<nat>, maxDepth: nat)
    requires |before| == base && Settled(before, maxDepth) && !Done(before, first)
    requires Kept(before, traces, first) && ContextOk(base, first, traces, notified, cfa, inl)
    requires CausedBy(first, base, traces) && RanAre(before, traces, first, Ordinals(notified[1..]), |traces|)
    requires CreatorsDone(traces)
    requires cfa != [] || inl != [] ==> Depth(before, first) < maxDepth
    ensures Settled(traces, maxDepth)
    ensures forall o :: o in cfa || o in inl ==> Depth(traces, o) == Depth(before, first) + 1
  {
    hide Depth, Done, Ordinals, Receivers, Kept, CausedBy, RanAre, NotifiedOnce, CausesDone, ContextOk, CreatorsDone;
    ContextBase(base, first, traces, notified, cfa, inl);
    NoticesOnce(base, first, before, traces, notified, cfa, inl);
    CausesStayDone(base, first, before, traces, Ordinals(notified[1..]));
    forall o: nat
      ensures Depth(traces, o) <= maxDepth
      ensures o in cfa || o in inl ==> Depth(traces, o) == Depth(before, first) + 1
    {
      CausedDepth(base, first, before, traces, o);
      if base < o <= |traces| && !IsNotice(traces[o - 1]) {
        InlineIsDealt(base, first, traces, notified, cfa, inl, o);
      }
    }
  }

  lemma ContextBase(base: nat, first: nat, traces: seq<Trace>, notified: seq<Notice>, cfa: seq<nat>, inl: seq<nat>)
    requires ContextOk(base, first, traces, notified, cfa, inl)
    ensures 1 <= first <= base <= |traces| && notified != []
    ensures forall o :: o in cfa || o in inl ==> base < o <= |traces| && !IsNotice(traces[o - 1])
  {
    assert forall o :: o in cfa || o in inl ==> InlineOk(traces, o);
  }

  lemma InlineIsDealt(base: nat, first: nat, traces: seq<Trace>, notified: seq<Notice>, cfa: seq<nat>, inl: seq<nat>,
                      o: nat)
    requires ContextOk(base, first, traces, notified, cfa, inl) && base < o <= |traces| && !IsNotice(traces[o - 1])
    ensures o in cfa || o in inl
  {
    hide Receivers;
    var notices := Ordinals(notified[1..]);
    forall m | 0 <= m < |notices|
      ensures IsNotice(traces[notices[m] - 1])
    {
      assert NoticeOk(first, traces, notified[m + 1]);
      assert notified[0].receiver != notified[m + 1].receiver;
    }
  }
}
