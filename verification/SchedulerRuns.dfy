/**
 What holds over a whole run of SystemStarter: what an earlier step settled, no
 later step undoes, and every item is accounted for exactly once.
 */
module SchedulerRuns {
  import opened Lists
  import opened SchedulerSpec
  import opened SchedulerSafety

  predicate Attempts(e: Event, i: Item) {
    (e.Launched? || e.Refused?) && e.item == i
  }

  predicate Removes(e: Event, i: Item) {
    (e.Exited? || e.Refused?) && e.item == i
  }

  predicate Fails(e: Event, i: Item) {
    (e.Refused? || (e.Exited? && !e.ok)) && e.item == i
  }

  /** No longer open to being chosen. */
  predicate Taken(c: Context, i: Item) {
    i !in c.waiting || i in c.pid
  }

  // ---------- One step ----------

  /** How one step changes what is known of every item and every service. */
  lemma StepEffect(c: Context, e: Event, c': Context, action: Action, all: set<Item>)
    requires Invariant(c, all) && Step(c, e, c', action)
    ensures forall i :: i in c'.waiting <==> i in c.waiting && !Removes(e, i)
    ensures forall i :: i in c.waiting ==> (Taken(c', i) <==> Taken(c, i) || Attempts(e, i))
    ensures forall i :: i !in c.waiting ==> !Attempts(e, i) && !Removes(e, i)
    ensures forall i :: Attempts(e, i) ==> IsReady(c, i, action)
    ensures forall i :: i in c'.failed <==> i in c.failed || Fails(e, i)
    ensures 2 * |c'.waiting| - c'.running < 2 * |c.waiting| - c.running
  {
    match e
    case Launched(i, pid) =>
      ChosenIsReady(c, i, action);
    case Refused(i, why) =>
      ChosenIsReady(c, i, action);
      RemovalKeeps(c, i, c');
      WithoutMeans(c.waiting, i);
    case Exited(i, ok) =>
      RemovalKeeps(c, i, c');
      WithoutMeans(c.waiting, i);
  }

  /** A status once recorded stays; a success is recorded by a clean exit or, on stop, by a stub. */
  lemma StepStatus(c: Context, e: Event, c': Context, action: Action)
    requires Step(c, e, c', action)
    ensures forall s :: s in c.status ==> s in c'.status && c'.status[s] == c.status[s]
    ensures forall s :: Succeeded(c'.status, s) && !Succeeded(c.status, s) ==>
              s in e.item.offers && (e == Exited(e.item, true) || (action == Stop && e == Refused(e.item, Stubbed)))
  {
  }

  // ---------- Runs ----------

  lemma {:induction false} InvariantHolds(trace: seq<Context>, events: seq<Event>, action: Action, k: nat)
    requires IsRun(trace, events, action) && k <= |events|
    ensures Invariant(trace[k], Elements(trace[0].waiting))
  {
    if k == 0 {
      InitInvariant(trace[0]);
    } else {
      InvariantHolds(trace, events, action, k - 1);
      assert Step(trace[k - 1], events[k - 1], trace[k - 1 + 1], action);
      StepKeeps(trace[k - 1], events[k - 1], trace[k], action, Elements(trace[0].waiting));
    }
  }

  /** The running count is the number of waiting items with a process, and no two of those provide a common service. */
  lemma RunningItems(trace: seq<Context>, events: seq<Event>, action: Action, k: nat)
    requires IsRun(trace, events, action) && k <= |events|
    ensures trace[k].running == |set i | i in trace[k].waiting && i in trace[k].pid|
    ensures forall i, j, s :: IsRunning(trace[k], i) && IsRunning(trace[k], j) && s in i.offers && s in j.offers ==> i == j
  {
    InvariantHolds(trace, events, action, k);
    var c := trace[k];
    assert Running(c) == set i | i in c.waiting && i in c.pid;
    forall i, j, s | IsRunning(c, i) && IsRunning(c, j) && s in i.offers && s in j.offers ensures i == j {
      assert Share(i, j);
      assert i in Running(c) && j in Running(c);
    }
  }

  lemma StepAt(trace: seq<Context>, events: seq<Event>, action: Action, k: nat)
    requires IsRun(trace, events, action) && k < |events|
    ensures Step(trace[k], events[k], trace[k + 1], action)
    ensures Invariant(trace[k], Elements(trace[0].waiting))
  {
    InvariantHolds(trace, events, action, k);
  }

  /** A recorded service status never changes. */
  lemma {:induction false} StatusIsWrittenOnce(trace: seq<Context>, events: seq<Event>, action: Action, j: nat, k: nat, s: Service)
    requires IsRun(trace, events, action) && j <= k <= |events| && s in trace[j].status
    ensures s in trace[k].status && trace[k].status[s] == trace[j].status[s]
    decreases k
  {
    if j < k {
      StatusIsWrittenOnce(trace, events, action, j, k - 1, s);
      StepAt(trace, events, action, k - 1);
      StepStatus(trace[k - 1], events[k - 1], trace[k], action);
    }
  }

  /** No item is attempted once one of its services has succeeded. */
  lemma NoneForASuccessfulService(trace: seq<Context>, events: seq<Event>, action: Action, j: nat, k: nat, i: Item, s: Service)
    requires IsRun(trace, events, action) && j <= k < |events|
    requires s in i.offers && Succeeded(trace[j].status, s)
    ensures !Attempts(events[k], i)
  {
    StatusIsWrittenOnce(trace, events, action, j, k, s);
    StepAt(trace, events, action, k);
    StepEffect(trace[k], events[k], trace[k + 1], action, Elements(trace[0].waiting));
  }

  /**
   Conservation: in every context an item waits exactly if no event has removed it,
   is taken exactly if an event has attempted it, and has failed exactly if one says so.
   */
  lemma {:induction false} Accounts(trace: seq<Context>, events: seq<Event>, action: Action, k: nat, i: Item)
    requires IsRun(trace, events, action) && k <= |events| && i in trace[0].waiting
    ensures i !in trace[k].waiting <==> exists j :: 0 <= j < k && Removes(events[j], i)
    ensures Taken(trace[k], i) <==> exists j :: 0 <= j < k && Attempts(events[j], i)
    ensures i in trace[k].failed <==> exists j :: 0 <= j < k && Fails(events[j], i)
  {
    hide Step, Invariant, IsReady;
    if k > 0 {
      Accounts(trace, events, action, k - 1, i);
      StepAt(trace, events, action, k - 1);
      StepEffect(trace[k - 1], events[k - 1], trace[k], action, Elements(trace[0].waiting));
    }
  }

  /** Nothing but the items it began with is ever attempted or removed. */
  lemma {:induction false} OnlyListedItems(trace: seq<Context>, events: seq<Event>, action: Action, k: nat)
    requires IsRun(trace, events, action) && k < |events|
    ensures events[k].item in trace[0].waiting
  {
    StepAt(trace, events, action, k);
    var e, c := events[k], trace[k];
    StepEffect(c, e, trace[k + 1], action, Elements(trace[0].waiting));
    assert Attempts(e, e.item) || Removes(e, e.item);
    assert e.item in Elements(c.waiting);
  }

  /** Each item is attempted at most once and removed at most once. */
  lemma OnceEach(trace: seq<Context>, events: seq<Event>, action: Action, j: nat, k: nat, i: Item)
    requires IsRun(trace, events, action) && j < k < |events|
    ensures !(Attempts(events[j], i) && Attempts(events[k], i))
    ensures !(Removes(events[j], i) && Removes(events[k], i))
  {
    if Attempts(events[j], i) || Removes(events[j], i) {
      OnlyListedItems(trace, events, action, j);
      Accounts(trace, events, action, k, i);
      StepAt(trace, events, action, k);
      StepEffect(trace[k], events[k], trace[k + 1], action, Elements(trace[0].waiting));
      assert Attempts(events[k], i) ==> IsReady(trace[k], i, action);
    }
  }

  /** A run takes at most two steps an item, so the loop terminates. */
  lemma {:induction false} RunsAreShort(trace: seq<Context>, events: seq<Event>, action: Action, k: nat)
    requires IsRun(trace, events, action) && k <= |events|
    ensures k <= 2 * |trace[0].waiting| - (2 * |trace[k].waiting| - trace[k].running)
    ensures trace[k].running <= |trace[k].waiting|
    ensures k <= 2 * |trace[0].waiting|
  {
    InvariantHolds(trace, events, action, k);
    RunningFits(trace[k]);
    hide Step, Invariant, IsReady;
    if k > 0 {
      RunsAreShort(trace, events, action, k - 1);
      StepAt(trace, events, action, k - 1);
      StepEffect(trace[k - 1], events[k - 1], trace[k], action, Elements(trace[0].waiting));
    }
  }

  lemma RunningFits(c: Context)
    requires Distinct(c.waiting) && c.running == |Running(c)|
    ensures c.running <= |c.waiting|
  {
    SizeOfElements(c.waiting);
    SubsetSize(Running(c), Elements(c.waiting));
  }

  lemma {:induction false} SizeOfElements(q: seq<Item>)
    ensures |Elements(q)| <= |q|
  {
    if q != [] {
      SizeOfElements(q[1..]);
      assert q == [q[0]] + q[1..];
      assert Elements(q) == {q[0]} + Elements(q[1..]);
    } else {
      assert Elements(q) == {};
    }
  }

  /** When the loop leaves off, an item still waits, never attempted, or was attempted and removed. */
  lemma EachWaitsOrWasRemoved(trace: seq<Context>, events: seq<Event>, action: Action, i: Item)
    requires IsRun(trace, events, action) && IsOver(trace[|events|], action) && i in trace[0].waiting
    ensures i in trace[|events|].waiting <==> !exists j :: 0 <= j < |events| && Attempts(events[j], i)
    ensures i in trace[|events|].waiting <==> !exists j :: 0 <= j < |events| && Removes(events[j], i)
  {
    var c := trace[|events|];
    Accounts(trace, events, action, |events|, i);
    InvariantHolds(trace, events, action, |events|);
    assert Running(c) == {};
    assert i !in Running(c);
  }

  // ---------- Order ----------

  lemma {:induction false} SuccessHasACause(trace: seq<Context>, events: seq<Event>, action: Action, k: nat, s: Service)
    requires IsRun(trace, events, action) && k <= |events| && Succeeded(trace[k].status, s)
    ensures exists j :: 0 <= j < k && s in events[j].item.offers &&
              (events[j] == Exited(events[j].item, true) || (action == Stop && events[j] == Refused(events[j].item, Stubbed)))
  {
    if Succeeded(trace[k - 1].status, s) {
      SuccessHasACause(trace, events, action, k - 1, s);
    } else {
      StepAt(trace, events, action, k - 1);
      StepStatus(trace[k - 1], events[k - 1], trace[k], action);
    }
  }

  /** On start, an item is attempted only after each service it requires came from an item that exited cleanly. */
  lemma StartOrder(trace: seq<Context>, events: seq<Event>, k: nat, i: Item, s: Service)
    requires IsRun(trace, events, Start) && k < |events| && Attempts(events[k], i) && s in i.needs
    ensures exists j :: 0 <= j < k && s in events[j].item.offers && events[j] == Exited(events[j].item, true)
  {
    StepAt(trace, events, Start, k);
    StepEffect(trace[k], events[k], trace[k + 1], Start, Elements(trace[0].waiting));
    UnmetCountMeans(trace[k].status, i.needs);
    SuccessHasACause(trace, events, Start, k, s);
  }

  /** On stop, an item is attempted only after every listed item requiring one of its services was attempted and removed. */
  lemma StopOrder(trace: seq<Context>, events: seq<Event>, k: nat, i: Item, d: Item, s: Service)
    requires IsRun(trace, events, Stop) && k < |events| && Attempts(events[k], i)
    requires d in trace[0].waiting && s in d.needs && s in i.offers
    ensures d != i
    ensures exists j :: 0 <= j < k && Attempts(events[j], d)
    ensures exists j :: 0 <= j < k && Removes(events[j], d)
  {
    var c := trace[k];
    StepAt(trace, events, Stop, k);
    StepEffect(c, events[k], trace[k + 1], Stop, Elements(trace[0].waiting));
    DependantsCountMeans(c.waiting, i.offers, Requires);
    NoneMatching(c.waiting, Requires, s);
    assert s in ListOf(d, Requires);
    Accounts(trace, events, Stop, k, d);
  }
}
