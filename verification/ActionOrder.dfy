/** In which order the actions of a transaction run, and what a run of all the original ones amounts to. */
module ActionOrder {

  import opened Results
  import opened ActionTree

  /** Of what an action causes, notices run first, then context-free inline actions, then the others. */
  function Rank(t: Trace): nat
  {
    if IsNotice(t) then 0 else if t.contextFree then 1 else 2
  }

  predicate Within(list: seq<nat>, o: nat, n: nat)
  {
    forall i :: 0 <= i < |list| ==> o < list[i] <= n
  }

  /** What action `o` caused of one rank, in the order of the ordinals. */
  function Children(traces: seq<Trace>, o: nat, rank: nat): (r: seq<nat>)
    ensures forall z :: z in r <==> o < z <= |traces| && traces[z - 1].ancestor == o && Rank(traces[z - 1]) == rank
    ensures Increasing(r) && Within(r, o, |traces|)
  {
    if traces == [] then []
    else
      var n := |traces|;
      var before := Children(traces[..n - 1], o, rank);
      if o < n && traces[n - 1].ancestor == o && Rank(traces[n - 1]) == rank then
        IncreasingAppend(before, n);
        before + [n]
      else before
  }

  /** The action, then its notices, then depth first its context-free inline actions and its other inline actions. */
  function Order(traces: seq<Trace>, o: nat): seq<nat>
    requires o <= |traces|
    decreases |traces| - o, 1, 0
  {
    [o] + Children(traces, o, 0) + OrderAll(traces, o, Children(traces, o, 1)) +
      OrderAll(traces, o, Children(traces, o, 2))
  }

  function OrderAll(traces: seq<Trace>, o: nat, list: seq<nat>): seq<nat>
    requires o <= |traces| && Within(list, o, |traces|)
    decreases |traces| - o, 0, |list|
  {
    if list == [] then [] else OrderAll(traces, o, list[..|list| - 1]) + Order(traces, list[|list| - 1])
  }

  ghost predicate SameElements(a: seq<nat>, b: seq<nat>)
  {
    forall z: nat :: z in a <==> z in b
  }

  lemma {:induction false} SameIncreasing(a: seq<nat>, b: seq<nat>)
    requires Increasing(a) && Increasing(b) && SameElements(a, b)
    ensures a == b
    decreases |a|
  {
    assert a != [] ==> a[0] in a;
    assert b != [] ==> b[0] in b;
    if a != [] {
      hide Increasing, SameElements;
      FrontsAreSame(a, b);
      SameIncreasing(a[..|a| - 1], b[..|b| - 1]);
      assert a == a[..|a| - 1] + [a[|a| - 1]] && b == b[..|b| - 1] + [b[|b| - 1]];
    }
  }

  lemma FrontsAreSame(a: seq<nat>, b: seq<nat>)
    requires Increasing(a) && Increasing(b) && SameElements(a, b) && a != [] && b != []
    ensures a[|a| - 1] == b[|b| - 1]
    ensures Increasing(a[..|a| - 1]) && Increasing(b[..|b| - 1]) && SameElements(a[..|a| - 1], b[..|b| - 1])
  {
    var x, y, front, front' := a[|a| - 1], b[|b| - 1], a[..|a| - 1], b[..|b| - 1];
    assert x in a && y in b;
    FrontOf(a, y);
    FrontOf(b, x);
    forall z: nat
      ensures z in front <==> z in front'
    {
      FrontOf(a, z);
      FrontOf(b, z);
      assert z in a <==> z in b;
    }
  }

  lemma FrontOf(a: seq<nat>, z: nat)
    requires Increasing(a) && a != []
    ensures z in a[..|a| - 1] <==> z in a && z < a[|a| - 1]
    ensures z in a ==> z <= a[|a| - 1]
  {
    if z in a {
      var i :| 0 <= i < |a| && a[i] == z;
      if i < |a| - 1 { assert a[..|a| - 1][i] == z; }
    }
  }

  /** Later traces keep what the earlier ones were, apart from receipts, and what was done is done. */
  ghost predicate Extends(before: seq<Trace>, after: seq<Trace>)
  {
    && |before| <= |after|
    && (forall i :: 0 <= i < |before| ==> after[i] == before[i].(receipt := after[i].receipt))
    && forall z :: Done(before, z) ==> Done(after, z)
  }

  /** The traces added do not belong to anything that was done before. */
  ghost predicate AddedOutside(before: seq<Trace>, after: seq<Trace>)
  {
    forall i :: |before| <= i < |after| ==> !Done(before, after[i].ancestor)
  }

  lemma ChildrenFrame(before: seq<Trace>, after: seq<Trace>, o: nat, rank: nat)
    requires Extends(before, after) && Done(before, o) && AddedOutside(before, after)
    ensures Children(after, o, rank) == Children(before, o, rank)
  {
    hide Children, Increasing, Done;
    assert SameElements(Children(after, o, rank), Children(before, o, rank));
    SameIncreasing(Children(after, o, rank), Children(before, o, rank));
  }

  /** The order of what is done does not change any more. */
  lemma {:induction false} OrderFrame(before: seq<Trace>, after: seq<Trace>, o: nat)
    requires Extends(before, after) && AddedOutside(before, after) && 1 <= o <= |before|
    requires forall z :: z in Order(before, o) ==> Done(before, z)
    ensures Order(after, o) == Order(before, o)
    decreases |before| - o, 1, 0
  {
    hide Children, Increasing, Done;
    assert o in Order(before, o);
    ChildrenFrame(before, after, o, 0);
    ChildrenFrame(before, after, o, 1);
    ChildrenFrame(before, after, o, 2);
    OrderAllFrame(before, after, o, Children(before, o, 1));
    OrderAllFrame(before, after, o, Children(before, o, 2));
  }

  lemma {:induction false} OrderAllFrame(before: seq<Trace>, after: seq<Trace>, o: nat, list: seq<nat>)
    requires Extends(before, after) && AddedOutside(before, after) && o <= |before| && Within(list, o, |before|)
    requires forall z :: z in OrderAll(before, o, list) ==> Done(before, z)
    ensures OrderAll(after, o, list) == OrderAll(before, o, list)
    decreases |before| - o, 0, |list|
  {
    hide Order, Children, Done;
    if list != [] {
      OrderFrame(before, after, list[|list| - 1]);
      OrderAllFrame(before, after, o, list[..|list| - 1]);
    }
  }

  lemma OutsideTransitive(a: seq<Trace>, b: seq<Trace>, c: seq<Trace>)
    requires Extends(a, b) && Extends(b, c) && AddedOutside(a, b) && AddedOutside(b, c)
    ensures Extends(a, c) && AddedOutside(a, c)
  {
  }

  lemma RanExtends(before: seq<Trace>, after: seq<Trace>, o: nat, ran: seq<nat>, n: nat)
    requires Kept(before, after, o) && RanAre(before, after, o, ran, n)
    ensures Extends(before, after)
  {
  }

  lemma CausedOutside(before: seq<Trace>, after: seq<Trace>, first: nat)
    requires CausedBy(first, |before|, after) && !Done(before, first)
    ensures AddedOutside(before, after)
  {
  }

  /** The order of an action whose notices ran at `t1`, context-free inline actions at `t2` and others at `t3`. */
  lemma OrderOfContext(t1: seq<Trace>, t2: seq<Trace>, t3: seq<Trace>, first: nat, notices: seq<nat>,
                       cfa: seq<nat>, inl: seq<nat>)
    requires 1 <= first <= |t1| && Done(t1, first)
    requires Children(t1, first, 0) == notices && Children(t1, first, 1) == cfa && Children(t1, first, 2) == inl
    requires Extends(t1, t2) && AddedOutside(t1, t2) && Extends(t2, t3) && AddedOutside(t2, t3)
    requires forall z :: z in OrderAll(t2, first, cfa) ==> Done(t2, z)
    ensures Order(t3, first) == [first] + notices + OrderAll(t2, first, cfa) + OrderAll(t3, first, inl)
  {
    hide Children, OrderAll, Done, Extends, AddedOutside, Increasing;
    OutsideTransitive(t1, t2, t3);
    ChildrenFrame(t1, t3, first, 0);
    ChildrenFrame(t1, t3, first, 1);
    ChildrenFrame(t1, t3, first, 2);
    assert |t1| <= |t2| <= |t3| by { ExtendsLength(t1, t2); ExtendsLength(t2, t3); }
    OrderAllFrame(t2, t3, first, cfa);
  }

  lemma ExtendsLength(a: seq<Trace>, b: seq<Trace>)
    requires Extends(a, b)
    ensures |a| <= |b|
  {
  }

  lemma NoOrdinals(notified: seq<Notice>)
    requires notified != []
    ensures Ordinals(notified[1..1]) == []
  {
  }

  lemma OrderAllNext(traces: seq<Trace>, o: nat, list: seq<nat>, i: nat)
    requires o <= |traces| && i < |list| && Within(list, o, |traces|)
    ensures OrderAll(traces, o, list[..i + 1]) == OrderAll(traces, o, list[..i]) + Order(traces, list[i])
  {
    hide Order;
    assert list[..i + 1][..i] == list[..i];
  }

  lemma ExecutedAreDone(traces: seq<Trace>, executed: seq<nat>, ran: seq<nat>, earlier: seq<nat>)
    requires ReceiptsOk(traces, executed) && executed == earlier + ran
    ensures forall z :: z in ran ==> Done(traces, z)
  {
    forall z | z in ran
      ensures Done(traces, z)
    {
      assert z in executed;
    }
  }

  /** The context-free actions on a context's lists are on the first. */
  ghost predicate KindsOk(traces: seq<Trace>, cfa: seq<nat>, inl: seq<nat>)
  {
    && (forall o :: o in cfa ==> 1 <= o <= |traces| && traces[o - 1].contextFree)
    && (forall o :: o in inl ==> 1 <= o <= |traces| && !traces[o - 1].contextFree)
  }

  lemma KindsNext(traces: seq<Trace>, t: Trace, cfa: seq<nat>, inl: seq<nat>)
    requires KindsOk(traces, cfa, inl)
    ensures KindsOk(traces + [t], cfa, inl)
    ensures if t.contextFree then KindsOk(traces + [t], cfa + [|traces| + 1], inl)
            else KindsOk(traces + [t], cfa, inl + [|traces| + 1])
  {
  }

  lemma KindsReceipt(traces: seq<Trace>, cfa: seq<nat>, inl: seq<nat>, o: nat, k: nat)
    requires KindsOk(traces, cfa, inl) && 1 <= o <= |traces|
    ensures KindsOk(WithReceipt(traces, o, k), cfa, inl)
  {
  }

  /** The lists of a context are what its action caused. */
  lemma ListsAreChildren(base: nat, first: nat, traces: seq<Trace>, notified: seq<Notice>, cfa: seq<nat>, inl: seq<nat>)
    requires ContextOk(base, first, traces, notified, cfa, inl)
    requires CausedBy(first, base, traces) && KindsOk(traces, cfa, inl)
    ensures Children(traces, first, 0) == Ordinals(notified[1..])
    ensures Children(traces, first, 1) == cfa && Children(traces, first, 2) == inl
  {
    hide Children, Receivers, DistinctReceivers;
    var notices := Ordinals(notified[1..]);
    forall z | base < z <= |traces|
      ensures z in notices <==> Rank(traces[z - 1]) == 0
      ensures z in cfa <==> Rank(traces[z - 1]) == 1
      ensures z in inl <==> Rank(traces[z - 1]) == 2
    {
      RankOfListed(base, first, traces, notified, cfa, inl, z);
    }
    SameIncreasing(Children(traces, first, 0), notices);
    SameIncreasing(Children(traces, first, 1), cfa);
    SameIncreasing(Children(traces, first, 2), inl);
  }

  lemma RankOfListed(base: nat, first: nat, traces: seq<Trace>, notified: seq<Notice>, cfa: seq<nat>, inl: seq<nat>,
                     z: nat)
    requires ContextOk(base, first, traces, notified, cfa, inl) && KindsOk(traces, cfa, inl) && base < z <= |traces|
    ensures z in Ordinals(notified[1..]) <==> Rank(traces[z - 1]) == 0
    ensures z in cfa <==> Rank(traces[z - 1]) == 1
    ensures z in inl <==> Rank(traces[z - 1]) == 2
  {
    hide Receivers;
    var notices := Ordinals(notified[1..]);
    assert z in cfa || z in inl ==> InlineOk(traces, z);
    if m :| 0 <= m < |notices| && notices[m] == z {
      NoticeIsTrace(base, first, traces, notified, cfa, inl, m + 1);
    }
  }

  // ---- Original actions ----

  function Original(act: Action, contextFree: bool): Trace
  {
    Trace(act, act.code, contextFree, 0, 0, None)
  }

  function Originals(acts: seq<Action>, contextFree: bool): (r: seq<Trace>)
    ensures |r| == |acts| && forall i :: 0 <= i < |r| ==> r[i] == Original(acts[i], contextFree)
  {
    if acts == [] then [] else Originals(acts[..|acts| - 1], contextFree) + [Original(acts[|acts| - 1], contextFree)]
  }

  /** The first `i` originals ran with all they caused; the rest are as they were scheduled. */
  ghost predicate OriginalsRan(originals: seq<Trace>, traces: seq<Trace>, i: nat)
  {
    && i <= |originals| <= |traces|
    && (forall o :: 1 <= o <= |traces| ==> (Done(traces, o) <==> o <= i || o > |originals|))
    && (forall k :: 0 <= k < |originals| ==> traces[k].(receipt := None) == originals[k])
  }

  lemma NextOriginal(originals: seq<Trace>, t0: seq<Trace>, t1: seq<Trace>, i: nat)
    requires OriginalsRan(originals, t0, i) && i < |originals| && |t0| <= |t1|
    requires Kept(t0, t1, i + 1) && RanAre(t0, t1, i + 1, [], |t0|)
    ensures OriginalsRan(originals, t1, i + 1)
  {
  }

  /** Distinct numbers from 1 to n are at most n. */
  lemma {:induction false} DistinctBounded(s: seq<nat>, n: nat)
    requires forall i, j :: 0 <= i < j < |s| ==> s[i] != s[j]
    requires forall i :: 0 <= i < |s| ==> 1 <= s[i] <= n
    ensures |s| <= n
    decreases n
  {
    if |s| > 0 {
      assert 1 <= s[0] <= n;
      if k :| 0 <= k < |s| && s[k] == n {
        DistinctBounded(s[..k] + s[k + 1..], n - 1);
      } else {
        DistinctBounded(s, n - 1);
      }
    }
  }

  function ReceiptNumbers(traces: seq<Trace>): (r: seq<nat>)
    ensures |r| == |traces|
    ensures forall i :: 0 <= i < |r| ==> r[i] == if traces[i].receipt.Some? then traces[i].receipt.value + 1 else 0
  {
    if traces == [] then [] else
    var receipt := traces[|traces| - 1].receipt;
    ReceiptNumbers(traces[..|traces| - 1]) + [if receipt.Some? then receipt.value + 1 else 0]
  }

  lemma ReceiptOf(traces: seq<Trace>, executed: seq<nat>, i: nat)
    requires ReceiptsOk(traces, executed) && i < |traces| && Done(traces, i + 1)
    ensures var k := ReceiptNumbers(traces)[i]; 1 <= k <= |executed| && executed[k - 1] == i + 1
  {
    hide ReceiptNumbers;
  }

  lemma ExecutedOnce(traces: seq<Trace>, executed: seq<nat>)
    requires ReceiptsOk(traces, executed)
    ensures forall i, j :: 0 <= i < j < |executed| ==> executed[i] != executed[j]
    ensures forall i :: 0 <= i < |executed| ==> 1 <= executed[i] <= |traces|
  {
  }

  /** With every trace done there are as many receipts as traces. */
  lemma AllDoneCounts(traces: seq<Trace>, executed: seq<nat>)
    requires ReceiptsOk(traces, executed) && forall o :: 1 <= o <= |traces| ==> Done(traces, o)
    ensures |executed| == |traces|
  {
    hide ReceiptNumbers, ReceiptsOk, Done;
    ExecutedOnce(traces, executed);
    DistinctBounded(executed, |traces|);
    var numbers := ReceiptNumbers(traces);
    forall i | 0 <= i < |traces|
      ensures 1 <= numbers[i] <= |executed| && executed[numbers[i] - 1] == i + 1
    {
      assert Done(traces, i + 1);
      ReceiptOf(traces, executed, i);
    }
    DistinctBounded(numbers, |executed|);
  }

  /** No trace has a creator, and none has run. */
  ghost predicate AreOriginal(traces: seq<Trace>)
  {
    forall k :: 0 <= k < |traces| ==> traces[k] == Original(traces[k].act, traces[k].contextFree)
  }

  lemma NoneRan(originals: seq<Trace>)
    requires AreOriginal(originals)
    ensures OriginalsRan(originals, originals, 0)
  {
  }

  lemma NextIsOriginal(originals: seq<Trace>, traces: seq<Trace>, i: nat)
    requires AreOriginal(originals) && OriginalsRan(originals, traces, i) && i < |originals|
    ensures InlineOk(traces, i + 1) && !Done(traces, i + 1) && Depth(traces, i + 1) == 0
  {
    assert traces[i].(receipt := None) == originals[i];
  }

  lemma RanAll(originals: seq<Trace>, traces: seq<Trace>)
    requires OriginalsRan(originals, traces, |originals|)
    ensures |originals| <= |traces| && forall o :: 1 <= o <= |traces| ==> Done(traces, o)
    ensures forall i :: 0 <= i < |originals| ==> traces[i].(receipt := None) == originals[i]
  {
  }

  function OneTo(n: nat): (r: seq<nat>)
    ensures |r| == n && (forall i :: 0 <= i < n ==> r[i] == i + 1)
  {
    if n == 0 then [] else OneTo(n - 1) + [n]
  }

  lemma ScheduleKeepsAnswers(contract: Contract, traces: seq<Trace>, executed: seq<nat>, t: Trace)
    requires AllAnswered(contract, traces, executed) && ReceiptsOk(traces, executed) && !Done(traces, t.creator)
    ensures AllAnswered(contract, traces + [t], executed)
  {
    hide Answers;
    forall k | 0 <= k < |executed|
      ensures Answered(contract, traces + [t], executed, k)
    {
      assert Answered(contract, traces, executed, k);
      OthersAnswer(traces, t, executed[k], contract(k, executed[k]).value.requests);
    }
  }

  lemma ReceiptKeepsAnswers(contract: Contract, traces: seq<Trace>, executed: seq<nat>, o: nat)
    requires AllAnswered(contract, traces, executed) && 1 <= o <= |traces|
    requires contract(|executed|, o).Ok? && Answers(traces, o, contract(|executed|, o).value.requests)
    ensures AllAnswered(contract, WithReceipt(traces, o, |executed|), executed + [o])
  {
    hide Answers;
    forall k | 0 <= k < |executed| + 1
      ensures Answered(contract, WithReceipt(traces, o, |executed|), executed + [o], k)
    {
      if k < |executed| { assert Answered(contract, traces, executed, k); }
      var p := (executed + [o])[k];
      ReceiptAnswers(traces, o, |executed|, p, contract(k, p).value.requests);
    }
  }

  /** The traces added since were created by `o` and have no receipt. */
  ghost predicate CreatedSince(o: nat, n: nat, traces: seq<Trace>)
  {
    forall i :: n <= i < |traces| ==> traces[i].creator == o && traces[i].receipt.None?
  }

  lemma NothingSince(o: nat, traces: seq<Trace>)
    ensures CreatedSince(o, |traces|, traces)
  {
  }

  lemma SinceTransitive(o: nat, t0: seq<Trace>, t1: seq<Trace>, t2: seq<Trace>)
    requires t0 <= t1 <= t2 && CreatedSince(o, |t0|, t1) && CreatedSince(o, |t1|, t2)
    ensures t0 <= t2 && CreatedSince(o, |t0|, t2)
  {
  }

  /** The receivers on a context's list are those of its action. */
  lemma ReceiversAre(base: nat, first: nat, traces: seq<Trace>, notified: seq<Notice>, cfa: seq<nat>, inl: seq<nat>,
                     a: Account)
    requires ContextOk(base, first, traces, notified, cfa, inl) && CausedBy(first, base, traces)
    ensures a in Receivers(notified) <==> Receives(traces, first, a)
  {
    hide Receivers, Dealt, DistinctReceivers;
    if i :| 0 <= i < |notified| && notified[i].receiver == a {
      if i > 0 { NoticeIsTrace(base, first, traces, notified, cfa, inl, i); }
    }
    if i :| 0 <= i < |traces| && IsNotice(traces[i]) && traces[i].ancestor == first && traces[i].receiver == a {
      var k := NoticeOf(base, first, traces, notified, cfa, inl, i);
    }
    assert notified[0].receiver == traces[first - 1].receiver;
  }

  // ---- Pieces of an execution ----

  lemma NoticeIsTrace(base: nat, first: nat, traces: seq<Trace>, notified: seq<Notice>, cfa: seq<nat>, inl: seq<nat>,
                      i: nat)
    requires ContextOk(base, first, traces, notified, cfa, inl) && 1 <= i < |notified|
    ensures var o := notified[i].ordinal;
      base < o <= |traces| && IsNotice(traces[o - 1]) && traces[o - 1].receiver == notified[i].receiver
  {
    hide Receivers;
    assert NoticeOk(first, traces, notified[i]) && NoticeOk(first, traces, notified[0]);
    assert Ordinals(notified[1..])[i - 1] == notified[i].ordinal;
    assert notified[i].ordinal in Ordinals(notified[1..]);
    assert notified[0].receiver != notified[i].receiver;
  }

  lemma NothingAnswered(traces: seq<Trace>, o: nat, requests: seq<Request>)
    requires CreatorsDone(traces) && 1 <= o <= |traces| && !Done(traces, o)
    ensures Answers(traces, o, requests[..0])
  {
    hide CreatedInlines;
    NothingCreated(traces, o);
  }

  lemma RequestAnswered(t1: seq<Trace>, t2: seq<Trace>, o: nat, first: nat, requests: seq<Request>, i: nat)
    requires 1 <= first <= |t1| && 1 <= o <= |t1| && Own(t1, o) == first && i < |requests|
    requires t1[first - 1].receiver == t1[first - 1].act.code && Answers(t1, o, requests[..i])
    requires Scheduled(t1, t2, o, first, requests[i])
    ensures Answers(t2, o, requests[..i + 1]) && t1 <= t2 && CreatedSince(o, |t1|, t2)
  {
    hide Answers;
    if t2 == t1 {
      AnswersKnown(t1, o, requests, i);
    } else if requests[i].Notify? {
      AnswersNotice(t1, t2[|t1|], o, requests, i);
    } else {
      AnswersInline(t1, t2[|t1|], o, requests, i);
    }
  }

  /** The receipt completes one execution. */
  lemma ExecutedOne(t0: seq<Trace>, t2: seq<Trace>, first: nat, base: nat, o: nat, k: nat)
    requires t0 <= t2 && CreatedSince(o, |t0|, t2) && CreatorsDone(t0) && CausedBy(first, base, t2)
    requires 1 <= o <= |t0| && !Done(t0, o)
    ensures var t := WithReceipt(t2, o, k);
      && Kept(t0, t, o) && RanAre(t0, t, o, [], |t|) && CreatorsDone(t) && CausedBy(first, base, t)
      && Own(t, o) == Own(t2, o)
  {
    var t := WithReceipt(t2, o, k);
    forall i | 0 <= i < |t| && t[i].creator > 0
      ensures Done(t, t[i].creator)
    {
      if i < |t0| { assert Done(t0, t0[i].creator); }
    }
  }

  lemma OwnIsFirst(traces: seq<Trace>, o: nat, first: nat)
    requires 1 <= first <= o <= |traces| && Own(traces, o) == first
    requires TracesOk(traces)
    ensures IsNotice(traces[o - 1]) <==> o != first
  {
    assert TraceOk(traces, o);
  }

  lemma StartsCaused(traces: seq<Trace>, first: nat)
    requires CausesDone(traces) && 1 <= first && !Done(traces, first)
    ensures CausedBy(first, |traces|, traces)
  {
  }

  lemma NoKinds(traces: seq<Trace>)
    ensures KindsOk(traces, [], [])
  {
  }

  lemma OrderOfLeaf(t1: seq<Trace>, first: nat, notices: seq<nat>, cfa: seq<nat>, inl: seq<nat>)
    requires 1 <= first <= |t1| && Children(t1, first, 0) == notices
    requires Children(t1, first, 1) == cfa == [] && Children(t1, first, 2) == inl == []
    ensures Order(t1, first) == [first] + notices
  {
    hide Children;
    assert [first] + notices + [] + [] == [first] + notices;
  }

  lemma NoOrder(traces: seq<Trace>, o: nat, list: seq<nat>)
    requires o <= |traces|
    ensures list[..0] == [] && OrderAll(traces, o, list[..0]) == []
  {
  }

  lemma ListWithin(traces: seq<Trace>, base: nat, n: nat, ran: seq<nat>, list: seq<nat>)
    requires Waiting(traces, base, n, ran, list)
    ensures Within(list, base, n)
  {
    forall i | 0 <= i < |list|
      ensures base < list[i] <= n
    {
      assert list[i] in list;
    }
  }

  lemma ExtendsItself(traces: seq<Trace>)
    ensures Extends(traces, traces) && AddedOutside(traces, traces)
  {
  }

  lemma OriginalsSettled(originals: seq<Trace>, maxDepth: nat)
    requires AreOriginal(originals)
    ensures Settled(originals, maxDepth)
  {
  }

  lemma SettledMeans(traces: seq<Trace>, maxDepth: nat)
    requires Settled(traces, maxDepth)
    ensures NotifiedOnce(traces) && DepthsOk(traces, maxDepth) && CausesDone(traces) && CreatorsDone(traces)
  {
  }

  lemma ListBound(traces: seq<Trace>, base: nat, n: nat, ran: seq<nat>, list: seq<nat>, i: nat)
    requires Waiting(traces, base, n, ran, list) && n <= |traces| && i <= |list| && forall p :: p in ran ==> p <= n
    ensures forall p :: p in ran + list[..i] ==> p <= |traces|
  {
    forall p | p in ran + list[..i]
      ensures p <= |traces|
    {
      assert p in ran || p in list;
    }
  }

  lemma WaitingCarriesOver(t0: seq<Trace>, t1: seq<Trace>, base: nat, n: nat, ran: seq<nat>, list: seq<nat>)
    requires Waiting(t0, base, n, ran, list) && forall o :: InlineOk(t0, o) ==> InlineOk(t1, o)
    ensures Waiting(t1, base, n, ran, list)
  {
  }
}
