/** The classes that run a transaction: each action has a context that runs it, its notices and its inline actions. */
module Execution {

  import opened Results
  import opened ActionTree
  import opened ActionOrder

  class Transaction {
    const contract: Contract
    const maxDepth: nat
    var traces: seq<Trace>
    /** The ordinals of the executed actions, in the order of their receipts. */
    var executed: seq<nat>
    var accounts: set<Account>
    /** The accounts that existed before. */
    ghost const known: set<Account>

    ghost predicate AccountsOk()
      reads this
    {
      accounts == known + CreatedAccounts(contract, traces, executed) && ReceiversExist(traces, executed, accounts)
    }

    ghost predicate Stopped(e: TxError)
      reads this
    {
      Stops(contract, maxDepth, traces, executed, accounts, e)
    }

    ghost predicate Valid()
      reads this
    {
      TracesOk(traces) && ReceiptsOk(traces, executed) && AllAnswered(contract, traces, executed)
    }

    constructor (c: Contract, depth: nat, known: set<Account>)
      ensures Valid() && AccountsOk() && traces == [] && executed == []
      ensures contract == c && maxDepth == depth && accounts == this.known == known
    {
      contract, maxDepth, traces, executed, accounts, this.known := c, depth, [], [], known, known;
    }

    method ScheduleAction(act: Action, receiver: Account, contextFree: bool, creator: nat, ancestor: nat)
      returns (o: nat)
      requires Valid()
      requires TraceOk(traces + [Trace(act, receiver, contextFree, creator, ancestor, None)], |traces| + 1)
      requires !Done(traces, creator)
      modifies this`traces
      ensures Valid() && o == |traces|
      ensures traces == old(traces) + [Trace(act, receiver, contextFree, creator, ancestor, None)]
    {
      hide TracesOk, ReceiptsOk;
      ScheduleKeepsTraces(traces, executed, Trace(act, receiver, contextFree, creator, ancestor, None));
      ScheduleKeepsAnswers(contract, traces, executed, Trace(act, receiver, contextFree, creator, ancestor, None));
      o := |traces| + 1;
      traces := traces + [Trace(act, receiver, contextFree, creator, ancestor, None)];
    }

    method AddReceipt(o: nat)
      requires Valid() && 1 <= o <= |traces| && !Done(traces, o)
      requires contract(|executed|, o).Ok? && Answers(traces, o, contract(|executed|, o).value.requests)
      modifies this`traces, this`executed
      ensures Valid() && traces == WithReceipt(old(traces), o, |old(executed)|) && executed == old(executed) + [o]
    {
      hide TracesOk, ReceiptsOk, Answers;
      ReceiptKeepsTraces(traces, executed, o);
      ReceiptKeepsAnswers(contract, traces, executed, o);
      traces := traces[o - 1 := traces[o - 1].(receipt := Some(|executed|))];
      executed := executed + [o];
    }

    method ScheduleOriginals(acts: seq<Action>, contextFree: bool)
      requires Valid()
      modifies this`traces
      ensures Valid() && traces == old(traces) + Originals(acts, contextFree)
    {
      hide TracesOk, ReceiptsOk;
      for i := 0 to |acts|
        invariant Valid() && traces == old(traces) + Originals(acts[..i], contextFree)
      {
        assert acts[..i + 1][..i] == acts[..i];
        var _ := ScheduleAction(acts[i], acts[i].code, contextFree, 0, 0);
      }
      assert acts[..|acts|] == acts;
    }

    /**
     `exec`: a transaction that ends without exception ran every action scheduled, each exactly once. A delayed
     transaction only runs its context-free actions.
     */
    method Exec(contextFreeActions: seq<Action>, actions: seq<Action>, applyContextFree: bool, delayed: bool)
      returns (r: Result<(), TxError>)
      requires Valid() && AccountsOk() && traces == [] && executed == []
      modifies this
      ensures r.Ok? ==> Valid() && |executed| == |traces|
      ensures r.Ok? ==> forall o :: 1 <= o <= |traces| ==> Done(traces, o)
      ensures r.Ok? ==> (
        var originals := (if applyContextFree then Originals(contextFreeActions, true) else []) +
                         (if delayed then [] else Originals(actions, false));
        |originals| <= |traces| && forall i :: 0 <= i < |originals| ==> traces[i].(receipt := None) == originals[i])
      ensures r.Ok? ==> NotifiedOnce(traces) && DepthsOk(traces, maxDepth)
      ensures r.Ok? ==> AllAnswered(contract, traces, executed) && AccountsOk()
      ensures r.Err? ==> Stopped(r.error)
      ensures r.Ok? ==> (
        var n := (if applyContextFree then |contextFreeActions| else 0) + (if delayed then 0 else |actions|);
        n <= |traces| && executed == OrderAll(traces, 0, OneTo(n)))
    {
      hide TracesOk, ReceiptsOk, AllAnswered, Order, OrderAll, OneTo, OriginalsRan, NotifiedOnce, DepthsOk, Originals;
      if applyContextFree { ScheduleOriginals(contextFreeActions, true); }
      if !delayed { ScheduleOriginals(actions, false); }
      ghost var originals := traces;
      r := RunOriginals();
      if r.Ok? { RanAll(originals, traces); }
    }

    /** Runs the original actions in order, each with everything it causes. */
    method RunOriginals() returns (r: Result<(), TxError>)
      requires Valid() && AccountsOk() && executed == [] && AreOriginal(traces)
      modifies this
      ensures r.Ok? ==> Valid() && |old(traces)| <= |traces| && |executed| == |traces|
      ensures r.Ok? ==> OriginalsRan(old(traces), traces, |old(traces)|)
      ensures r.Ok? ==> AccountsOk()
      ensures r.Err? ==> Stopped(r.error)
      ensures r.Ok? ==> NotifiedOnce(traces) && DepthsOk(traces, maxDepth)
      ensures r.Ok? ==> executed == OrderAll(traces, 0, OneTo(|old(traces)|))
    {
      hide TracesOk, ReceiptsOk, RanAre, Kept, Settled, AllAnswered, Order, OrderAll, OneTo, OriginalsRan, AreOriginal;
      hide Extends, AddedOutside, Stops, CreatedAccounts, ReceiversExist;
      ghost var originals := traces;
      OriginalsSettled(originals, maxDepth);
      var n := |traces|;
      NoOrder(traces, 0, OneTo(n));
      NoneRan(originals);
      for i := 0 to n
        invariant Valid() && OriginalsRan(originals, traces, i) && Settled(traces, maxDepth) && n <= |traces|
        invariant executed == OrderAll(traces, 0, OneTo(n)[..i]) && AccountsOk()
      {
        ghost var t0 := traces;
        ExecutedAreDone(t0, executed, OrderAll(t0, 0, OneTo(n)[..i]), []);
        NextIsOriginal(originals, t0, i);
        var done := ExecuteAction(i + 1, 0);
        if done.Err? { return done; }
        NextOriginal(originals, t0, traces, i);
        RanExtends(t0, traces, i + 1, [], |t0|);
        OrderAllFrame(t0, traces, 0, OneTo(n)[..i]);
        OrderAllNext(traces, 0, OneTo(n), i);
      }
      assert OneTo(n)[..n] == OneTo(n);
      RanAll(originals, traces);
      AllDoneCounts(traces, executed);
      SettledMeans(traces, maxDepth);
      return Ok(());
    }

    /** `execute_action`: runs the action and everything scheduled because of it, and nothing else. */
    method ExecuteAction(o: nat, depth: nat) returns (r: Result<(), TxError>)
      requires Valid() && depth <= maxDepth && InlineOk(traces, o) && !Done(traces, o)
      requires Settled(traces, maxDepth) && Depth(traces, o) == depth
      requires AccountsOk()
      modifies this
      ensures r.Ok? ==> AccountsOk()
      ensures r.Err? ==> Stopped(r.error)
      ensures old(accounts) <= accounts
      ensures r.Ok? ==> Settled(traces, maxDepth)
      ensures r.Ok? ==> Valid() && |old(traces)| <= |traces| && executed == old(executed) + Order(traces, o)
      ensures r.Ok? ==> Kept(old(traces), traces, o) && RanAre(old(traces), traces, o, [], |old(traces)|)
      ensures r.Ok? ==> AddedOutside(old(traces), traces)
      decreases maxDepth - depth, 3
    {
      hide TracesOk, ReceiptsOk, RanAre, Kept, Settled, Stops, CreatedAccounts, AllAnswered, ReceiversExist;
      var context := new ApplyContext(this, o, depth);
      r := context.Exec();
    }
  }

  class ApplyContext {
    const trx: Transaction
    const depth: nat
    const first: nat
    ghost const base: nat
    var receiver: Account
    var ordinal: nat
    var notified: seq<Notice>
    var cfa: seq<nat>
    var inl: seq<nat>

    ghost predicate Valid()
      reads this, trx
    {
      trx.Valid() && ContextOk(base, first, trx.traces, notified, cfa, inl) && KindsOk(trx.traces, cfa, inl)
    }

    /** The context runs for a notice of its action. */
    ghost predicate Running()
      reads this, trx
    {
      && first <= ordinal <= |trx.traces| && 1 <= first
      && NoticeOk(first, trx.traces, Notice(receiver, ordinal)) && Own(trx.traces, ordinal) == first
    }

    constructor (t: Transaction, o: nat, d: nat)
      requires 1 <= o <= |t.traces|
      ensures trx == t && first == o && depth == d && base == |t.traces|
      ensures receiver == t.traces[o - 1].receiver && ordinal == o && notified == [] && cfa == [] && inl == []
    {
      trx, depth, first, base := t, d, o, |t.traces|;
      receiver, ordinal, notified, cfa, inl := t.traces[o - 1].receiver, o, [], [], [];
    }

    /** `has_recipient`. */
    method HasRecipient(a: Account) returns (r: bool)
      ensures r <==> a in Receivers(notified)
    {
      for i := 0 to |notified|
        invariant forall j :: 0 <= j < i ==> notified[j].receiver != a
      {
        if notified[i].receiver == a { return true; }
      }
      return false;
    }

    /** One request of the running contract: an inline action is scheduled, a receiver notified unless it is already. */
    method Handle(req: Request) returns (r: Result<(), TxError>)
      requires Valid() && Running() && CausedBy(first, base, trx.traces) && !Done(trx.traces, ordinal)
      modifies this`notified, this`cfa, this`inl, trx`traces
      ensures r.Ok? ==> Valid() && Running() && CausedBy(first, base, trx.traces) && old(notified) <= notified
      ensures r.Ok? ==> Scheduled(old(trx.traces), trx.traces, ordinal, first, req)
      ensures r.Err? <==> Unknown(req, trx.accounts)
      ensures r.Err? ==> r.error == NoSuchAccount && trx.traces == old(trx.traces)
    {
      hide TracesOk, ReceiptsOk, ContextOk, TraceOk, AllAnswered, KindsOk, Receives, Receivers;
      assert ContextOk(base, first, trx.traces, notified, cfa, inl);
      FirstIsUnnotified();
      ghost var t0 := trx.traces;
      match req {
        case Notify(recipient) =>
          var known := HasRecipient(recipient);
          ReceiversAre(base, first, t0, notified, cfa, inl, recipient);
          if !known {
            ghost var t := Trace(trx.traces[ordinal - 1].act, recipient, false, ordinal, first, None);
            NewTraceOk(t0, first, ordinal, t);
            KindsNext(t0, t, cfa, inl);
            NotifyKeepsContext(base, first, t0, notified, cfa, inl, t);
            var o := trx.ScheduleAction(trx.traces[ordinal - 1].act, recipient, false, ordinal, first);
            notified := notified + [Notice(recipient, o)];
          }
        case Inline(act) =>
          if act.code !in trx.accounts { return Err(NoSuchAccount); }
          ghost var t := Trace(act, act.code, false, ordinal, first, None);
          NewTraceOk(t0, first, ordinal, t);
          KindsNext(t0, t, cfa, inl);
          InlineKeepsContext(base, first, t0, notified, cfa, inl, t);
          var o := trx.ScheduleAction(act, act.code, false, ordinal, first);
          inl := inl + [o];
        case ContextFreeInline(act) =>
          if act.code !in trx.accounts { return Err(NoSuchAccount); }
          ghost var t := Trace(act, act.code, true, ordinal, first, None);
          NewTraceOk(t0, first, ordinal, t);
          KindsNext(t0, t, cfa, inl);
          InlineKeepsContext(base, first, t0, notified, cfa, inl, t);
          var o := trx.ScheduleAction(act, act.code, true, ordinal, first);
          cfa := cfa + [o];
      }
      return Ok(());
    }

    lemma FirstIsUnnotified()
      requires Valid()
      ensures notified != [] && 1 <= first <= base <= |trx.traces|
      ensures trx.traces[first - 1].receiver == trx.traces[first - 1].act.code
    {
    }

    lemma RunningFails(k: nat, e: TxError, i: nat)
      requires Running() && !Done(trx.traces, ordinal) && k == |trx.executed|
      requires
        || trx.contract(k, ordinal) == Err(e)
        || (e == NoSuchAccount && (receiver !in trx.accounts || trx.traces[ordinal - 1].act.code !in trx.accounts))
        || (e == NoSuchAccount && trx.contract(k, ordinal).Ok? && i < |trx.contract(k, ordinal).value.requests| &&
            Unknown(trx.contract(k, ordinal).value.requests[i], trx.accounts))
      ensures trx.Stopped(e)
    {
      assert Fails(trx.contract, trx.traces[ordinal - 1], k, ordinal, trx.accounts, e);
    }

    /** `exec_one`: runs the contract for the current notice, schedules what it asks for and writes the receipt. */
    method ExecOne() returns (r: Result<(), TxError>)
      requires Valid() && Running() && !Done(trx.traces, ordinal)
      requires CausedBy(first, base, trx.traces) && CreatorsDone(trx.traces)
      requires trx.AccountsOk()
      modifies this`notified, this`cfa, this`inl, trx
      ensures r.Ok? ==> trx.AccountsOk()
      ensures r.Err? ==> trx.Stopped(r.error)
      ensures r.Ok? ==> Valid() && Running() && old(notified) <= notified && |old(trx.traces)| <= |trx.traces|
      ensures r.Ok? ==>
        Kept(old(trx.traces), trx.traces, ordinal) && RanAre(old(trx.traces), trx.traces, ordinal, [], |trx.traces|)
      ensures r.Ok? ==> trx.executed == old(trx.executed) + [ordinal] && receiver in trx.accounts
      ensures r.Ok? ==> CausedBy(first, base, trx.traces) && CreatorsDone(trx.traces)
      ensures old(trx.accounts) <= trx.accounts && (ordinal != first ==> trx.accounts == old(trx.accounts))
    {
      hide TracesOk, ReceiptsOk, ContextOk, AllAnswered, Answers, Receives, Own, CausedBy, KindsOk;
      hide Kept, RanAre, CreatorsDone, CreatedSince, Stops, Fails, CreatedAccounts, ReceiversExist;
      ghost var t0, k := trx.traces, |trx.executed|;
      OwnIsFirst(t0, ordinal, first);
      if receiver !in trx.accounts {
        RunningFails(k, NoSuchAccount, 0);
        return Err(NoSuchAccount);
      }
      var outcome := trx.contract(|trx.executed|, ordinal);
      if outcome.Err? {
        RunningFails(k, outcome.error, 0);
        return Err(outcome.error);
      }
      if ordinal == first { trx.accounts := trx.accounts + outcome.value.created; }
      var handled, at := HandleAll(outcome.value.requests);
      if handled.Err? {
        RunningFails(k, NoSuchAccount, at);
        return handled;
      }
      if trx.traces[ordinal - 1].act.code !in trx.accounts {
        RunningFails(k, NoSuchAccount, 0);
        return Err(NoSuchAccount);
      }
      ReceiptKeepsContext(base, first, trx.traces, notified, cfa, inl, ordinal, |trx.executed|);
      KindsReceipt(trx.traces, cfa, inl, ordinal, |trx.executed|);
      ghost var t2 := trx.traces;
      trx.AddReceipt(ordinal);
      ExecutedOne(t0, t2, first, base, ordinal, k);
      CreatedAccountsNext(trx.contract, t0, trx.traces, old(trx.executed), ordinal);
      ReceiversExistNext(t0, trx.traces, old(trx.executed), ordinal, old(trx.accounts), trx.accounts);
      return Ok(());
    }

    /** What the contract asked for, one request after the other. */
    method HandleAll(requests: seq<Request>) returns (r: Result<(), TxError>, ghost at: nat)
      requires Valid() && Running() && !Done(trx.traces, ordinal)
      requires CausedBy(first, base, trx.traces) && CreatorsDone(trx.traces)
      modifies this`notified, this`cfa, this`inl, trx`traces
      ensures Running() && !Done(trx.traces, ordinal) && old(trx.traces) <= trx.traces
      ensures r.Ok? ==> Valid() && old(notified) <= notified && CausedBy(first, base, trx.traces)
      ensures r.Ok? ==> CreatedSince(ordinal, |old(trx.traces)|, trx.traces) && Answers(trx.traces, ordinal, requests)
      ensures r.Err? ==> r.error == NoSuchAccount && at < |requests| && Unknown(requests[at], trx.accounts)
      ensures r.Ok? ==> forall i :: 0 <= i < |requests| ==> !Unknown(requests[i], trx.accounts)
    {
      hide TracesOk, ReceiptsOk, ContextOk, AllAnswered, Answers, Receives, Own, CausedBy, KindsOk, CreatorsDone,
        CreatedSince;
      at := 0;
      ghost var t0 := trx.traces;
      NothingAnswered(t0, ordinal, requests);
      NothingSince(ordinal, t0);
      for i := 0 to |requests|
        invariant Valid() && Running() && old(notified) <= notified
        invariant t0 <= trx.traces && CausedBy(first, base, trx.traces)
        invariant CreatedSince(ordinal, |t0|, trx.traces) && !Done(trx.traces, ordinal)
        invariant Answers(trx.traces, ordinal, requests[..i])
        invariant forall j :: 0 <= j < i ==> !Unknown(requests[j], trx.accounts)
      {
        ghost var t1 := trx.traces;
        FirstIsUnnotified();
        at := i;
        r := Handle(requests[i]);
        if r.Err? { return; }
        RequestAnswered(t1, trx.traces, ordinal, first, requests, i);
        SinceTransitive(ordinal, t0, t1, trx.traces);
      }
      assert requests[..|requests|] == requests;
      return Ok(()), 0;
    }

    /**
     The first part of `exec`: the action's own receiver, then each receiver notified, also those notified meanwhile.
     */
    method ExecNotices() returns (r: Result<(), TxError>)
      requires trx.Valid() && base == |trx.traces| && ordinal == first
      requires InlineOk(trx.traces, first) && !Done(trx.traces, first)
      requires receiver == trx.traces[first - 1].receiver && notified == [] && cfa == [] && inl == []
      requires CausesDone(trx.traces) && CreatorsDone(trx.traces)
      requires trx.AccountsOk()
      modifies this, trx
      ensures r.Ok? ==> trx.AccountsOk()
      ensures r.Err? ==> trx.Stopped(r.error)
      ensures old(trx.accounts) <= trx.accounts
      ensures r.Ok? ==> Valid() && Kept(old(trx.traces), trx.traces, first)
      ensures r.Ok? ==> trx.executed == old(trx.executed) + [first] + Ordinals(notified[1..])
      ensures r.Ok? ==> RanAre(old(trx.traces), trx.traces, first, Ordinals(notified[1..]), |trx.traces|)
      ensures r.Ok? ==> CausedBy(first, base, trx.traces) && CreatorsDone(trx.traces)
    {
      hide TracesOk, ReceiptsOk, ContextOk, RanAre, Kept, Ordinals, Receivers, AllAnswered, CreatorsDone;
      hide KindsOk, CausedBy, CausesDone, NoticeOk, Own, ApplyContext.Running, Transaction.AccountsOk,
        Transaction.Stopped;
      ghost var before := trx.traces;
      FirstContext(first, trx.traces);
      StartsCaused(trx.traces, first);
      NoKinds(trx.traces);
      notified := notified + [Notice(receiver, ordinal)];
      assert notified == [Notice(receiver, ordinal)];
      FirstRuns();
      var done := ExecOne();
      if done.Err? { return done; }
      var i := 1;
      NoOrdinals(notified);
      while i < |notified|
        invariant Valid() && 1 <= i <= |notified| && old(trx.accounts) <= trx.accounts
        invariant trx.executed == old(trx.executed) + [first] + Ordinals(notified[1..i])
        invariant base <= |trx.traces| && Kept(before, trx.traces, first) && CausedBy(first, base, trx.traces)
        invariant CreatorsDone(trx.traces) && trx.AccountsOk()
        invariant RanAre(before, trx.traces, first, Ordinals(notified[1..i]), |trx.traces|)
        decreases trx.accounts - Receivers(notified[..i])
      {
        ghost var n0, t0, a0 := notified, trx.traces, trx.accounts;
        NextNotice(base, first, before, trx.traces, notified, cfa, inl, i);
        receiver, ordinal := notified[i].receiver, notified[i].ordinal;
        NoticeRuns(i);
        done := ExecOne();
        if done.Err? { return done; }
        assert notified[1..i] == n0[1..i] && notified[i] == n0[i] && notified[..i] == n0[..i];
        RanOne(before, t0, trx.traces, first, Ordinals(n0[1..i]), ordinal);
        OrdinalsAppend(notified, i);
        KeptTransitive(before, t0, trx.traces, first, ordinal);
        ReceiversGrow(notified, i) by { DistinctNotices(); }
        i := i + 1;
      }
      assert notified[1..i] == notified[1..];
      return Ok(());
    }

    lemma FirstRuns()
      requires InlineOk(trx.traces, first) && ordinal == first && receiver == trx.traces[first - 1].receiver
      ensures Running()
    {
    }

    lemma NoticeRuns(i: nat)
      requires Valid() && CausedBy(first, base, trx.traces) && 1 <= i < |notified|
      requires receiver == notified[i].receiver && ordinal == notified[i].ordinal
      ensures Running()
    {
      hide ContextOk;
      FirstIsUnnotified();
      NoticeIsTrace(base, first, trx.traces, notified, cfa, inl, i);
      assert NoticeOk(first, trx.traces, notified[i]) by { NoticesAreOk(i); }
    }

    lemma NoticesAreOk(i: nat)
      requires Valid() && i < |notified|
      ensures 1 <= first <= |trx.traces| && NoticeOk(first, trx.traces, notified[i])
    {
    }

    lemma DistinctNotices()
      requires Valid()
      ensures DistinctReceivers(notified)
    {
    }

    /** Runs a list of inline actions one level deeper, in order. */
    method ExecInlines(list: seq<nat>, ghost before: seq<Trace>, ghost ran: seq<nat>, ghost n: nat)
      returns (r: Result<(), TxError>)
      requires trx.Valid() && depth < trx.maxDepth && 1 <= first <= |before| <= n <= |trx.traces|
      requires Kept(before, trx.traces, first) && RanAre(before, trx.traces, first, ran, n)
      requires Waiting(trx.traces, |before|, n, ran, list) && forall p :: p in ran ==> p <= n
      requires Within(list, first, n)
      requires Settled(trx.traces, trx.maxDepth) && forall o :: o in list ==> Depth(trx.traces, o) == depth + 1
      requires trx.AccountsOk()
      modifies trx
      ensures r.Ok? ==> trx.AccountsOk()
      ensures r.Err? ==> trx.Stopped(r.error)
      ensures old(trx.accounts) <= trx.accounts
      ensures r.Ok? ==> trx.Valid() && n <= |trx.traces| && |old(trx.traces)| <= |trx.traces|
      ensures r.Ok? ==> trx.executed == old(trx.executed) + OrderAll(trx.traces, first, list)
      ensures r.Ok? ==> Extends(old(trx.traces), trx.traces) && AddedOutside(old(trx.traces), trx.traces)
      ensures r.Ok? ==> Kept(before, trx.traces, first) && RanAre(before, trx.traces, first, ran + list, n)
      ensures r.Ok? ==> forall o :: InlineOk(old(trx.traces), o) ==> InlineOk(trx.traces, o)
      ensures r.Ok? ==> Settled(trx.traces, trx.maxDepth)
      ensures r.Ok? ==> forall o :: 0 <= o <= n ==> Depth(trx.traces, o) == Depth(old(trx.traces), o)
      decreases trx.maxDepth - depth, 0
    {
      hide TracesOk, ReceiptsOk, RanAre, Kept, InlineOk, Waiting, Settled, Depth, AllAnswered;
      hide Transaction.AccountsOk, Transaction.Stopped;
      hide Order, OrderAll, Extends, AddedOutside;
      NoOrder(trx.traces, first, list);
      ExtendsItself(trx.traces);
      assert ran + list[..0] == ran;
      for i := 0 to |list|
        invariant trx.AccountsOk()
        invariant trx.Valid() && n <= |trx.traces| && old(trx.accounts) <= trx.accounts
        invariant |old(trx.traces)| <= |trx.traces| && Within(list, first, n)
        invariant trx.executed == old(trx.executed) + OrderAll(trx.traces, first, list[..i])
        invariant Extends(old(trx.traces), trx.traces) && AddedOutside(old(trx.traces), trx.traces)
        invariant Kept(before, trx.traces, first) && RanAre(before, trx.traces, first, ran + list[..i], n)
        invariant Waiting(trx.traces, |before|, n, ran, list)
        invariant forall o :: InlineOk(old(trx.traces), o) ==> InlineOk(trx.traces, o)
        invariant Settled(trx.traces, trx.maxDepth)
        invariant forall o :: 0 <= o <= n ==> Depth(trx.traces, o) == Depth(old(trx.traces), o)
      {
        ghost var t0, e0 := trx.traces, trx.executed;
        ExecutedAreDone(t0, e0, OrderAll(t0, first, list[..i]), old(trx.executed));
        NextWaiting(before, t0, first, ran, n, list, i);
        var done := trx.ExecuteAction(list[i], depth + 1);
        if done.Err? { return done; }
        RanExtends(t0, trx.traces, list[i], [], |t0|);
        OrderAllFrame(t0, trx.traces, first, list[..i]);
        OrderAllNext(trx.traces, first, list, i);
        OutsideTransitive(old(trx.traces), t0, trx.traces);
        ListBound(t0, |before|, n, ran, list, i);
        RanWhole(before, t0, trx.traces, first, ran + list[..i], n, list[i]);
        assert ran + list[..i] + [list[i]] == ran + list[..i + 1];
        KeptTransitive(before, t0, trx.traces, first, list[i]);
        StillWaiting(t0, trx.traces, list[i], |before|, n, ran, list);
        forall o | InlineOk(t0, o)
          ensures InlineOk(trx.traces, o)
        {
          StillInline(t0, trx.traces, list[i], o);
        }
        forall o | 0 <= o <= n
          ensures Depth(trx.traces, o) == Depth(t0, o)
        {
          DepthKept(t0, trx.traces, list[i], o);
        }
      }
      assert list[..|list|] == list;
      return Ok(());
    }

    /** `exec`: the notices, then the context-free inline actions, then the other inline actions. */
    method Exec() returns (r: Result<(), TxError>)
      requires trx.Valid() && base == |trx.traces| && ordinal == first
      requires InlineOk(trx.traces, first) && !Done(trx.traces, first)
      requires receiver == trx.traces[first - 1].receiver && notified == []
      requires cfa == [] && inl == [] && depth <= trx.maxDepth
      requires Settled(trx.traces, trx.maxDepth) && Depth(trx.traces, first) == depth
      requires trx.AccountsOk()
      modifies this, trx
      ensures r.Ok? ==> trx.AccountsOk()
      ensures r.Err? ==> trx.Stopped(r.error)
      ensures r.Ok? ==> Settled(trx.traces, trx.maxDepth)
      ensures old(trx.accounts) <= trx.accounts
      ensures r.Ok? ==> trx.Valid() && |old(trx.traces)| <= |trx.traces|
      ensures r.Ok? ==> trx.executed == old(trx.executed) + Order(trx.traces, first)
      ensures r.Ok? ==> AddedOutside(old(trx.traces), trx.traces)
      ensures r.Ok? ==>
        Kept(old(trx.traces), trx.traces, first) && RanAre(old(trx.traces), trx.traces, first, [], |old(trx.traces)|)
      decreases trx.maxDepth - depth, 2
    {
      hide TracesOk, ReceiptsOk, RanAre, Kept, ContextOk, Ordinals, Waiting, Settled, Depth, CausedBy, AllAnswered;
      hide Order, Extends, AddedOutside, Children, KindsOk, Transaction.AccountsOk, Transaction.Stopped;
      hide CreatorsDone, CausesDone, Done, InlineOk;
      ghost var before := trx.traces;
      SettledMeans(before, trx.maxDepth);
      r := ExecNotices();
      if r.Err? { return; }
      FirstIsUnnotified();
      ghost var t1, notices := trx.traces, Ordinals(notified[1..]);
      NoticesOrdered(before, t1);
      if |cfa| > 0 || |inl| > 0 {
        if depth >= trx.maxDepth {
          SentTooDeep(before, t1);
          return Err(TooDeep);
        }
        NoticesLeave(before, t1, notices);
        r := ExecListed(before, t1, old(trx.executed), notices);
        if r.Err? { return; }
        OutsideTransitive(before, t1, trx.traces);
      } else {
        NoticesLeave(before, t1, notices);
        OrderOfLeaf(t1, first, notices, cfa, inl);
        assert old(trx.executed) + [first] + notices == old(trx.executed) + ([first] + notices);
        assert notices + cfa + inl == notices;
      }
      AllListed(before, t1, trx.traces, notices);
      return Ok(());
    }

    /** What is left to do after the notices. */
    lemma NoticesLeave(before: seq<Trace>, t1: seq<Trace>, notices: seq<nat>)
      requires Valid() && t1 == trx.traces && notified != [] && notices == Ordinals(notified[1..]) && |before| == base
      requires Settled(before, trx.maxDepth) && !Done(before, first) && CreatorsDone(t1)
      requires Kept(before, t1, first) && CausedBy(first, base, t1) && RanAre(before, t1, first, notices, |t1|)
      requires cfa != [] || inl != [] ==> Depth(before, first) < trx.maxDepth
      ensures Settled(t1, trx.maxDepth)
      ensures forall o :: o in cfa || o in inl ==> Depth(t1, o) == Depth(before, first) + 1
      ensures Waiting(t1, base, |t1|, notices, cfa) && Waiting(t1, base, |t1|, notices + cfa, inl)
      ensures forall p :: p in notices + cfa + inl ==> base < p <= |t1|
    {
      hide ContextOk, Settled, Kept, CausedBy, RanAre, Ordinals, Waiting, Depth, Dealt;
      InlinesWait(base, first, t1, notified, cfa, inl);
      NoticesSettle(base, first, before, t1, notified, cfa, inl, trx.maxDepth);
    }

    lemma AllListed(before: seq<Trace>, t1: seq<Trace>, t: seq<Trace>, notices: seq<nat>)
      requires notified != [] && notices == Ordinals(notified[1..]) && ContextOk(base, first, t1, notified, cfa, inl)
      requires |before| == base && RanAre(before, t, first, notices + cfa + inl, |t1|)
      ensures RanAre(before, t, first, [], |before|)
    {
      hide RanAre, Ordinals;
      AllRan(before, t, first, notices, cfa, inl, |t1|);
    }

    /** Runs the context-free inline actions, then the others. */
    method ExecListed(ghost before: seq<Trace>, ghost t1: seq<Trace>, ghost e0: seq<nat>, ghost notices: seq<nat>)
      returns (r: Result<(), TxError>)
      requires trx.Valid() && depth < trx.maxDepth && t1 == trx.traces && 1 <= first <= |before| == base <= |t1|
      requires trx.executed == e0 + [first] + notices
      requires Kept(before, t1, first) && RanAre(before, t1, first, notices, |t1|) && Done(t1, first)
      requires Waiting(t1, base, |t1|, notices, cfa) && Waiting(t1, base, |t1|, notices + cfa, inl)
      requires forall p :: p in notices + cfa + inl ==> base < p <= |t1|
      requires Settled(t1, trx.maxDepth) && forall o :: o in cfa || o in inl ==> Depth(t1, o) == depth + 1
      requires Children(t1, first, 0) == notices && Children(t1, first, 1) == cfa && Children(t1, first, 2) == inl
      requires trx.AccountsOk()
      modifies trx
      ensures r.Ok? ==> trx.AccountsOk()
      ensures r.Err? ==> trx.Stopped(r.error)
      ensures old(trx.accounts) <= trx.accounts
      ensures r.Ok? ==> trx.Valid() && Settled(trx.traces, trx.maxDepth) && |t1| <= |trx.traces|
      ensures r.Ok? ==>
        Kept(before, trx.traces, first) && RanAre(before, trx.traces, first, notices + cfa + inl, |t1|)
      ensures r.Ok? ==> trx.executed == e0 + Order(trx.traces, first)
      ensures r.Ok? ==> Extends(t1, trx.traces) && AddedOutside(t1, trx.traces)
      decreases trx.maxDepth - depth, 1
    {
      hide TracesOk, ReceiptsOk, RanAre, Kept, Waiting, Settled, Depth, AllAnswered;
      hide Transaction.AccountsOk, Transaction.Stopped;
      hide Order, OrderAll, Extends, AddedOutside, Children, InlineOk;
      ghost var n, e1 := |t1|, trx.executed;
      ListWithin(t1, base, n, notices, cfa);
      r := ExecInlines(cfa, before, notices, n);
      if r.Err? { return; }
      ghost var t2, e2 := trx.traces, trx.executed;
      ExecutedAreDone(t2, e2, OrderAll(t2, first, cfa), e1);
      WaitingCarriesOver(t1, t2, base, n, notices + cfa, inl);
      ListWithin(t2, base, n, notices + cfa, inl);
      r := ExecInlines(inl, before, notices + cfa, n);
      if r.Err? { return; }
      OrderOfContext(t1, t2, trx.traces, first, notices, cfa, inl);
      OutsideTransitive(t1, t2, trx.traces);
      assert trx.executed == e0 + ([first] + notices + OrderAll(t2, first, cfa) + OrderAll(trx.traces, first, inl));
    }

    lemma SentTooDeep(before: seq<Trace>, t1: seq<Trace>)
      requires Valid() && t1 == trx.traces && |before| == base && Kept(before, t1, first) && CausedBy(first, base, t1)
      requires Done(t1, first) && Depth(before, first) >= trx.maxDepth && (cfa != [] || inl != [])
      ensures trx.Stopped(TooDeep)
    {
      hide ContextOk, KindsOk, TracesOk, ReceiptsOk, AllAnswered;
      FirstIsUnnotified();
      ContextBase(base, first, t1, notified, cfa, inl);
      DepthKept(before, t1, first, first);
      var o := if cfa != [] then cfa[0] else inl[0];
      assert o in cfa || o in inl;
      assert !IsNotice(t1[o - 1]) && t1[o - 1].ancestor == first;
      assert DeepInline(t1, trx.maxDepth, first);
    }

    lemma NoticesOrdered(before: seq<Trace>, t1: seq<Trace>)
      requires Valid() && t1 == trx.traces && |before| == base && Kept(before, t1, first) && CausedBy(first, base, t1)
      requires RanAre(before, t1, first, Ordinals(notified[1..]), |t1|) && !Done(before, first)
      ensures Extends(before, t1) && AddedOutside(before, t1) && Done(t1, first)
      ensures Children(t1, first, 0) == Ordinals(notified[1..])
      ensures Children(t1, first, 1) == cfa && Children(t1, first, 2) == inl
    {
      hide ContextOk, Ordinals, Children;
      FirstIsUnnotified();
      RanExtends(before, t1, first, Ordinals(notified[1..]), |t1|);
      CausedOutside(before, t1, first);
      ListsAreChildren(base, first, t1, notified, cfa, inl);
    }
  }
}
