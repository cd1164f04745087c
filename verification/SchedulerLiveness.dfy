/**
 When a run of SystemStarter that has come to its end has run every item: exactly
 if the dependencies can be met in some order.
 */
module SchedulerLiveness {
  import opened Lists
  import opened SchedulerSpec
  import opened SchedulerSafety
  import opened SchedulerRuns

  ghost predicate UniqueProviders(all: set<Item>) {
    forall i, j :: i in all && j in all && i != j ==> !Share(i, j)
  }

  /** Item d comes before item i: on start i requires or uses what d provides, on stop the other way round. */
  predicate Precedes(d: Item, i: Item, action: Action) {
    match action
    case Start => exists s :: s in d.offers && (s in i.needs || s in i.uses)
    case Stop => exists s :: s in i.offers && (s in d.needs || s in d.uses)
    case Restart => false
  }

  /** A member of a group that no member precedes. */
  ghost predicate Free(i: Item, group: set<Item>, action: Action) {
    i in group && forall d :: d in group ==> !Precedes(d, i, action)
  }

  /** No group of items waits for itself. */
  ghost predicate Acyclic(all: set<Item>, action: Action) {
    forall group: set<Item> :: group <= all && group != {} ==> exists i :: Free(i, group, action)
  }

  ghost predicate Provided(all: set<Item>) {
    forall i, s :: i in all && s in i.needs ==> exists d :: d in all && s in d.offers
  }

  /** Every attempt forked, and every process exited cleanly. */
  ghost predicate NoFailures(events: seq<Event>) {
    forall k :: 0 <= k < |events| ==> events[k].Launched? || (events[k].Exited? && events[k].ok)
  }

  /** The items listed so that none comes before an earlier one, or itself. */
  ghost predicate Orderly(order: seq<Item>, action: Action) {
    forall j, k :: 0 <= j <= k < |order| ==> !Precedes(order[k], order[j], action)
  }

  lemma {:induction false} AcyclicHasOrder(all: set<Item>, action: Action) returns (order: seq<Item>)
    requires Acyclic(all, action)
    ensures Elements(order) == all && Distinct(order) && Orderly(order, action)
  {
    if all == {} {
      order := [];
    } else {
      assert all <= all;
      var i :| Free(i, all, action);
      assert Acyclic(all - {i}, action) by {
        assert forall group: set<Item> :: group <= all - {i} ==> group <= all;
      }
      var rest := AcyclicHasOrder(all - {i}, action);
      order := [i] + rest;
      assert Elements(order) == {i} + Elements(rest);
      DistinctCons(i, rest);
      forall j, k | 0 <= j <= k < |order| ensures !Precedes(order[k], order[j], action) {
        assert order[k] in Elements(order);
      }
    }
  }

  lemma {:induction false} OrderlyIsAcyclic(order: seq<Item>, action: Action)
    requires Orderly(order, action)
    ensures Acyclic(Elements(order), action)
  {
    forall group: set<Item> | group <= Elements(order) && group != {}
      ensures exists i :: Free(i, group, action)
    {
      var k := FirstMember(order, group);
      forall d | d in group ensures !Precedes(d, order[k], action) {
        assert d in Elements(order);
        var j :| 0 <= j < |order| && order[j] == d;
        assert order[j] in group;
      }
      assert Free(order[k], group, action);
    }
  }

  lemma {:induction false} FirstMember(order: seq<Item>, group: set<Item>) returns (k: nat)
    requires group <= Elements(order) && group != {}
    ensures k < |order| && order[k] in group && forall j :: 0 <= j < k ==> order[j] !in group
  {
    var x :| x in group;
    assert x in Elements(order);
    if order[0] in group {
      k := 0;
    } else {
      assert order == [order[0]] + order[1..];
      assert group <= Elements(order[1..]);
      k := FirstMember(order[1..], group);
      k := k + 1;
    }
  }

  // ---------- A run over with items left ----------

  /** Nothing waiting has succeeded: with unique providers, only the item itself could have brought its services up. */
  lemma NoDuplicates(trace: seq<Context>, events: seq<Event>, action: Action, k: nat, i: Item)
    requires IsRun(trace, events, action) && k <= |events| && UniqueProviders(Elements(trace[0].waiting))
    requires i in trace[k].waiting && i !in trace[k].pid
    ensures forall s :: s in i.offers ==> !Succeeded(trace[k].status, s)
    ensures Running(trace[k]) == {} ==> !IsDuplicate(trace[k], i)
  {
    var c, all := trace[k], Elements(trace[0].waiting);
    InvariantHolds(trace, events, action, k);
    assert i in Elements(c.waiting);
    forall s | s in i.offers ensures !Succeeded(c.status, s) {
      if Succeeded(c.status, s) {
        ProviderIsGone(trace, events, action, k, i, s);
      }
    }
    forall s, d | s in i.offers && d in c.waiting && s in d.offers
      ensures d == i
    {
      assert d in Elements(c.waiting);
      assert Share(i, d);
    }
  }

  /** With unique providers, an item whose service has succeeded has been removed. */
  lemma ProviderIsGone(trace: seq<Context>, events: seq<Event>, action: Action, k: nat, i: Item, s: Service)
    requires IsRun(trace, events, action) && k <= |events| && UniqueProviders(Elements(trace[0].waiting))
    requires i in trace[0].waiting && s in i.offers && Succeeded(trace[k].status, s)
    ensures i !in trace[k].waiting
  {
    SuccessHasACause(trace, events, action, k, s);
    var j :| 0 <= j < k && s in events[j].item.offers && Removes(events[j], events[j].item);
    OnlyListedItems(trace, events, action, j);
    assert Share(i, events[j].item);
    assert i in Elements(trace[0].waiting) && events[j].item in Elements(trace[0].waiting);
    Accounts(trace, events, action, k, i);
  }

  /** Without failures, an item gone has brought all its services up. */
  lemma GoneHasSucceeded(trace: seq<Context>, events: seq<Event>, action: Action, k: nat, d: Item, s: Service)
    requires IsRun(trace, events, action) && k <= |events| && NoFailures(events)
    requires d in trace[0].waiting && d !in trace[k].waiting && s in d.offers
    ensures Succeeded(trace[k].status, s)
  {
    Accounts(trace, events, action, k, d);
    var j :| 0 <= j < k && Removes(events[j], d);
    StepAt(trace, events, action, j);
    assert s in trace[j + 1].status;
    StatusIsWrittenOnce(trace, events, action, j + 1, k, s);
    AllSucceeded(trace, events, action, k);
  }

  lemma {:induction false} AllSucceeded(trace: seq<Context>, events: seq<Event>, action: Action, k: nat)
    requires IsRun(trace, events, action) && k <= |events| && NoFailures(events)
    ensures forall s :: s in trace[k].status ==> trace[k].status[s]
  {
    if k > 0 {
      hide Invariant, IsReady;
      AllSucceeded(trace, events, action, k - 1);
      StepAt(trace, events, action, k - 1);
    }
  }

  /** An idle context whose waiting items include one that none of them precedes has a ready item. */
  lemma FreeItemIsReady(trace: seq<Context>, events: seq<Event>, action: Action, i: Item)
    requires IsRun(trace, events, action) && UniqueProviders(Elements(trace[0].waiting))
    requires action == Start ==> NoFailures(events) && Provided(Elements(trace[0].waiting))
    requires Running(trace[|events|]) == {} && i in trace[|events|].waiting
    requires forall d :: d in trace[|events|].waiting ==> !Precedes(d, i, action)
    ensures IsReady(trace[|events|], i, action)
  {
    var n, c, all := |events|, trace[|events|], Elements(trace[0].waiting);
    InvariantHolds(trace, events, action, n);
    assert i !in Running(c);
    NoDuplicates(trace, events, action, n, i);
    assert i in Elements(c.waiting);
    if action == Start {
      forall s | s in i.needs ensures Succeeded(c.status, s) {
        var d :| d in all && s in d.offers;
        GoneHasSucceeded(trace, events, action, n, d, s);
      }
      UnmetCountMeans(c.status, i.needs);
    } else if action == Stop {
      DependantsCountMeans(c.waiting, i.offers, Requires);
      forall s | s in i.offers ensures Matching(c.waiting, Requires, s) == [] {
        NoneMatching(c.waiting, Requires, s);
      }
    }
    forall s, m | s in SoftServices(i, action) && m in c.waiting && action != Restart
      ensures s !in ListOf(m, SoftKey(action))
    {
      assert !Precedes(m, i, action);
    }
  }

  // ---------- A run that took every item ----------

  /** When an item is attempted, none of the items still untaken precedes it. */
  lemma AttemptFollows(trace: seq<Context>, events: seq<Event>, action: Action, k: nat, i: Item, d: Item)
    requires IsRun(trace, events, action) && UniqueProviders(Elements(trace[0].waiting))
    requires k < |events| && Attempts(events[k], i)
    requires d in trace[0].waiting && !Taken(trace[k], d)
    ensures !Precedes(d, i, action)
  {
    hide Matching, UnmetCount, DependantsCount, IsDuplicate, UniqueProviders;
    var c := trace[k];
    StepAt(trace, events, action, k);
    StepEffect(c, events[k], trace[k + 1], action, Elements(trace[0].waiting));
    assert IsReady(c, i, action);
    match action
    case Restart =>
    case Start =>
      UnmetCountMeans(c.status, i.needs);
      UnmetCountMeans(c.status, i.uses);
      NoDuplicates(trace, events, action, k, d);
      forall s | s in d.offers ensures s !in i.needs && s !in i.uses {
        assert s in ListOf(d, Provides);
        assert s in i.uses ==> IsPending(c, i.uses, Provides);
      }
    case Stop =>
      DependantsCountMeans(c.waiting, i.offers, Requires);
      DependantsCountMeans(c.waiting, i.offers, Uses);
      forall s | s in i.offers ensures s !in d.needs && s !in d.uses {
        NoneMatching(c.waiting, Requires, s);
        NoneMatching(c.waiting, Uses, s);
        assert s in d.needs ==> s in ListOf(d, Requires);
        assert s in d.uses ==> s in ListOf(d, Uses);
        assert s in d.uses ==> IsPending(c, i.offers, Uses);
      }
  }

  /** The earliest attempt of a member of a group. */
  lemma {:induction false} FirstAttempt(events: seq<Event>, group: set<Item>, n: nat) returns (k: nat)
    requires n <= |events|
    requires exists j, i :: 0 <= j < n && i in group && Attempts(events[j], i)
    ensures k < n && events[k].item in group && Attempts(events[k], events[k].item)
    ensures forall j, i :: 0 <= j < k && i in group ==> !Attempts(events[j], i)
  {
    if j, i :| 0 <= j < n - 1 && i in group && Attempts(events[j], i) {
      k := FirstAttempt(events, group, n - 1);
    } else {
      k := n - 1;
    }
  }

  lemma AllTakenIsAcyclic(trace: seq<Context>, events: seq<Event>, action: Action)
    requires IsRun(trace, events, action) && UniqueProviders(Elements(trace[0].waiting))
    requires trace[|events|].waiting == []
    ensures Acyclic(Elements(trace[0].waiting), action)
  {
    forall group: set<Item> | group <= Elements(trace[0].waiting) && group != {}
      ensures exists i :: Free(i, group, action)
    {
      var x :| x in group;
      assert x in Elements(trace[0].waiting);
      Accounts(trace, events, action, |events|, x);
      var k := FirstAttempt(events, group, |events|);
      forall d | d in group ensures !Precedes(d, events[k].item, action) {
        assert d in Elements(trace[0].waiting);
        Accounts(trace, events, action, k, d);
        AttemptFollows(trace, events, action, k, events[k].item, d);
      }
      assert Free(events[k].item, group, action);
    }
  }

  lemma AllTakenIsProvided(trace: seq<Context>, events: seq<Event>)
    requires IsRun(trace, events, Start) && trace[|events|].waiting == []
    ensures Provided(Elements(trace[0].waiting))
  {
    var all := Elements(trace[0].waiting);
    forall i, s | i in all && s in i.needs ensures exists d :: d in all && s in d.offers {
      Accounts(trace, events, Start, |events|, i);
      var k :| 0 <= k < |events| && Attempts(events[k], i);
      StartOrder(trace, events, k, i, s);
      var j :| 0 <= j < k && s in events[j].item.offers && events[j] == Exited(events[j].item, true);
      OnlyListedItems(trace, events, Start, j);
    }
  }

  // ---------- Liveness ----------

  lemma FreeItem(c: Context, all: set<Item>, action: Action) returns (i: Item)
    requires Acyclic(all, action) && Elements(c.waiting) <= all && c.waiting != []
    ensures i in c.waiting && forall d :: d in c.waiting ==> !Precedes(d, i, action)
  {
    var group := Elements(c.waiting);
    assert c.waiting[0] in group;
    i :| Free(i, group, action);
    forall d | d in c.waiting ensures !Precedes(d, i, action) {
      assert d in group;
    }
  }

  /**
   When each service has one provider, a run that is over has emptied the waiting list
   exactly if no group of items waits for itself and, on start, every required service
   is provided; on start when nothing fails, on stop and restart whatever fails.
   */
  lemma Liveness(trace: seq<Context>, events: seq<Event>, action: Action)
    requires IsRun(trace, events, action) && IsOver(trace[|events|], action)
    requires UniqueProviders(Elements(trace[0].waiting))
    requires action == Start ==> NoFailures(events)
    ensures trace[|events|].waiting == [] <==>
            Acyclic(Elements(trace[0].waiting), action) && (action == Start ==> Provided(Elements(trace[0].waiting)))
  {
    hide Acyclic, Provided, IsReady, UniqueProviders, NoFailures;
    var c, all := trace[|events|], Elements(trace[0].waiting);
    if c.waiting == [] {
      AllTakenIsAcyclic(trace, events, action);
      if action == Start {
        AllTakenIsProvided(trace, events);
      }
    } else if Acyclic(all, action) && (action == Start ==> Provided(all)) {
      InvariantHolds(trace, events, action, |events|);
      assert Running(c) == {};
      var i := FreeItem(c, all, action);
      FreeItemIsReady(trace, events, action, i);
    }
  }

  /** Then, on start, every item was launched once, exited cleanly, and brought its services up. */
  lemma EveryItemStarts(trace: seq<Context>, events: seq<Event>, i: Item)
    requires IsRun(trace, events, Start) && IsOver(trace[|events|], Start)
    requires UniqueProviders(Elements(trace[0].waiting)) && NoFailures(events)
    requires Acyclic(Elements(trace[0].waiting), Start) && Provided(Elements(trace[0].waiting))
    requires i in trace[0].waiting
    ensures exists k :: 0 <= k < |events| && events[k] == Exited(i, true)
    ensures forall s :: s in i.offers ==> Succeeded(trace[|events|].status, s)
  {
    Liveness(trace, events, Start);
    Accounts(trace, events, Start, |events|, i);
    var k :| 0 <= k < |events| && Removes(events[k], i);
    assert events[k] == Exited(i, true);
    forall s | s in i.offers ensures Succeeded(trace[|events|].status, s) {
      GoneHasSucceeded(trace, events, Start, |events|, i, s);
    }
  }

  // ---------- On start, whatever fails: what is left, and why ----------

  /** An item requires a service that nothing provides, or whose provider failed. */
  ghost predicate HasRootCause(c: Context, all: set<Item>, i: Item) {
    exists s :: s in i.needs && forall d :: d in all && s in d.offers ==> d in c.failed
  }

  /** Another item, or the item itself, still waits and comes before it. */
  ghost predicate IsHeldUp(c: Context, i: Item) {
    exists d :: d in c.waiting && Precedes(d, i, Start)
  }

  /** A provider that is gone and has not failed has brought its services up. */
  lemma GoneOrFailed(trace: seq<Context>, events: seq<Event>, k: nat, d: Item, s: Service)
    requires IsRun(trace, events, Start) && k <= |events| && UniqueProviders(Elements(trace[0].waiting))
    requires d in trace[0].waiting && d !in trace[k].waiting && d !in trace[k].failed && s in d.offers
    ensures Succeeded(trace[k].status, s)
  {
    Accounts(trace, events, Start, k, d);
    var j :| 0 <= j < k && Removes(events[j], d);
    assert events[j] == Exited(d, true) by {
      assert !Fails(events[j], d);
    }
    StepAt(trace, events, Start, j);
    var all := Elements(trace[0].waiting);
    if s in trace[j].status {
      var i :| i in all && i !in trace[j].waiting && s in i.offers;
      assert d in all && Share(i, d);
    }
    StatusIsWrittenOnce(trace, events, Start, j + 1, k, s);
  }

  /** A service whose provider failed has not succeeded. */
  lemma FailedIsNotUp(trace: seq<Context>, events: seq<Event>, k: nat, d: Item, s: Service)
    requires IsRun(trace, events, Start) && k <= |events| && UniqueProviders(Elements(trace[0].waiting))
    requires d in trace[0].waiting && d in trace[k].failed && s in d.offers
    ensures !Succeeded(trace[k].status, s)
  {
    if Succeeded(trace[k].status, s) {
      SuccessHasACause(trace, events, Start, k, s);
      var j :| 0 <= j < k && s in events[j].item.offers && events[j] == Exited(events[j].item, true);
      OnlyListedItems(trace, events, Start, j);
      assert Share(events[j].item, d) && d in Elements(trace[0].waiting) && events[j].item in Elements(trace[0].waiting);
      Accounts(trace, events, Start, k, d);
      var l :| 0 <= l < k && Fails(events[l], d);
      if l < j {
        OnceEach(trace, events, Start, l, j, d);
      } else if j < l {
        OnceEach(trace, events, Start, j, l, d);
      }
    }
  }

  /** A service has succeeded exactly if it has a provider and that one is gone and has not failed. */
  lemma UpExactly(trace: seq<Context>, events: seq<Event>, k: nat, s: Service)
    requires IsRun(trace, events, Start) && k <= |events| && UniqueProviders(Elements(trace[0].waiting))
    ensures Succeeded(trace[k].status, s) <==>
            exists d :: d in Elements(trace[0].waiting) && s in d.offers && d !in trace[k].waiting && d !in trace[k].failed
  {
    hide UniqueProviders;
    if Succeeded(trace[k].status, s) {
      SuccessHasACause(trace, events, Start, k, s);
      var j :| 0 <= j < k && s in events[j].item.offers && events[j] == Exited(events[j].item, true);
      var d := events[j].item;
      OnlyListedItems(trace, events, Start, j);
      Accounts(trace, events, Start, k, d);
      assert Removes(events[j], d);
      if d in trace[k].failed {
        FailedIsNotUp(trace, events, k, d, s);
      }
      assert d in Elements(trace[0].waiting);
    } else {
      forall d | d in Elements(trace[0].waiting) && s in d.offers && d !in trace[k].waiting ensures d in trace[k].failed {
        if d !in trace[k].failed {
          GoneOrFailed(trace, events, k, d, s);
        }
      }
    }
  }

  /** In a context where nothing runs, an item that waits is ready unless it has a root cause or is held up. */
  lemma WaitingIsReady(trace: seq<Context>, events: seq<Event>, i: Item)
    requires IsRun(trace, events, Start) && UniqueProviders(Elements(trace[0].waiting))
    requires Running(trace[|events|]) == {} && i in trace[|events|].waiting
    requires !HasRootCause(trace[|events|], Elements(trace[0].waiting), i) && !IsHeldUp(trace[|events|], i)
    ensures IsReady(trace[|events|], i, Start)
  {
    hide UniqueProviders, IsDuplicate;
    var n, c, all := |events|, trace[|events|], Elements(trace[0].waiting);
    InvariantHolds(trace, events, Start, n);
    assert i !in Running(c);
    NoDuplicates(trace, events, Start, n, i);
    forall s | s in i.needs ensures Succeeded(c.status, s) {
      UpExactly(trace, events, n, s);
      var d :| d in all && s in d.offers && d !in c.failed;
      assert d in c.waiting ==> Precedes(d, i, Start);
    }
    UnmetCountMeans(c.status, i.needs);
    forall s, m | s in i.uses && m in c.waiting ensures s !in ListOf(m, Provides) {
      assert !Precedes(m, i, Start);
    }
  }

  /** An item that was attempted had no root cause and was not held up. */
  lemma AttemptedHadNone(trace: seq<Context>, events: seq<Event>, k: nat, i: Item)
    requires IsRun(trace, events, Start) && UniqueProviders(Elements(trace[0].waiting))
    requires k < |events| && Attempts(events[k], i)
    requires Running(trace[|events|]) == {}
    ensures !HasRootCause(trace[|events|], Elements(trace[0].waiting), i) && !IsHeldUp(trace[|events|], i)
  {
    hide UniqueProviders, IsDuplicate;
    var n, c, all := |events|, trace[|events|], Elements(trace[0].waiting);
    forall s | s in i.needs ensures exists d :: d in all && s in d.offers && d !in c.failed {
      StartOrder(trace, events, k, i, s);
      var j :| 0 <= j < k && s in events[j].item.offers && events[j] == Exited(events[j].item, true);
      StepAt(trace, events, Start, k);
      StepEffect(trace[k], events[k], trace[k + 1], Start, all);
      UnmetCountMeans(trace[k].status, i.needs);
      StatusIsWrittenOnce(trace, events, Start, k, n, s);
      UpExactly(trace, events, n, s);
    }
    forall d | d in c.waiting ensures !Precedes(d, i, Start) {
      InvariantHolds(trace, events, Start, n);
      assert d in Elements(c.waiting) && d !in Running(c);
      Accounts(trace, events, Start, n, d);
      Accounts(trace, events, Start, k, d);
      AttemptFollows(trace, events, Start, k, i, d);
    }
  }

  /**
   On start, whatever fails: in a run that is over, with one provider a service, an item
   is left waiting exactly if it requires a service that nothing provides or whose
   provider failed, or requires or uses one whose provider is left waiting.
   */
  lemma LeftExactly(trace: seq<Context>, events: seq<Event>, i: Item)
    requires IsRun(trace, events, Start) && IsOver(trace[|events|], Start)
    requires UniqueProviders(Elements(trace[0].waiting)) && i in trace[0].waiting
    ensures i in trace[|events|].waiting <==>
            HasRootCause(trace[|events|], Elements(trace[0].waiting), i) || IsHeldUp(trace[|events|], i)
  {
    hide UniqueProviders, IsReady, HasRootCause, IsHeldUp;
    var c := trace[|events|];
    InvariantHolds(trace, events, Start, |events|);
    assert Running(c) == {};
    if i in c.waiting {
      if !HasRootCause(c, Elements(trace[0].waiting), i) && !IsHeldUp(c, i) {
        WaitingIsReady(trace, events, i);
      }
    } else {
      Accounts(trace, events, Start, |events|, i);
      var k :| 0 <= k < |events| && Attempts(events[k], i);
      AttemptedHadNone(trace, events, k, i);
    }
  }

  /** A chain of items left waiting, each held up by the one before it, from one with a root cause. */
  ghost predicate IsChain(path: seq<Item>, c: Context, all: set<Item>) {
    && path != [] && HasRootCause(c, all, path[0])
    && (forall x :: x in path ==> x in c.waiting)
    && forall j :: 0 < j < |path| ==> Precedes(path[j - 1], path[j], Start)
  }

  lemma {:induction false} ChainTo(trace: seq<Context>, events: seq<Event>, order: seq<Item>, k: nat) returns (path: seq<Item>)
    requires IsRun(trace, events, Start) && IsOver(trace[|events|], Start)
    requires UniqueProviders(Elements(trace[0].waiting)) && Elements(order) == Elements(trace[0].waiting)
    requires Orderly(order, Start) && k < |order| && order[k] in trace[|events|].waiting
    ensures IsChain(path, trace[|events|], Elements(trace[0].waiting)) && path[|path| - 1] == order[k]
    decreases k
  {
    hide UniqueProviders, IsOver, Step, HasRootCause, Precedes;
    var c, i := trace[|events|], order[k];
    assert i in Elements(order);
    LeftExactly(trace, events, i);
    if HasRootCause(c, Elements(trace[0].waiting), i) {
      path := [i];
    } else {
      var d :| d in c.waiting && Precedes(d, i, Start);
      WaitedAllAlong(trace, events, d);
      var j :| 0 <= j < |order| && order[j] == d;
      var before := ChainTo(trace, events, order, j);
      path := before + [i];
    }
  }

  lemma WaitedAllAlong(trace: seq<Context>, events: seq<Event>, d: Item)
    requires IsRun(trace, events, Start) && d in trace[|events|].waiting
    ensures d in Elements(trace[0].waiting)
  {
    InvariantHolds(trace, events, Start, |events|);
    assert d in Elements(trace[|events|].waiting);
  }

  /** And where no group of items waits for itself, everything left goes back to a service missing or failed. */
  lemma LeftHasARootCause(trace: seq<Context>, events: seq<Event>, i: Item)
    requires IsRun(trace, events, Start) && IsOver(trace[|events|], Start)
    requires UniqueProviders(Elements(trace[0].waiting)) && Acyclic(Elements(trace[0].waiting), Start)
    requires i in trace[|events|].waiting
    ensures exists path :: IsChain(path, trace[|events|], Elements(trace[0].waiting)) && path[|path| - 1] == i
  {
    hide UniqueProviders, Acyclic, Step, IsOver, HasRootCause;
    var order := AcyclicHasOrder(Elements(trace[0].waiting), Start);
    WaitedAllAlong(trace, events, i);
    var k :| 0 <= k < |order| && order[k] == i;
    var path := ChainTo(trace, events, order, k);
  }
}
