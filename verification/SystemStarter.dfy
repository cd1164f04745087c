/**
 SystemStarter's run loop (SystemStarter/SystemStarter.c, StartupItems.c, IPC.c):
 every pass through it is a step of the scheduler, and it ends.
 */
module SystemStarter {
  import opened Lists
  import opened Options
  import opened SchedulerSpec
  import opened SchedulerSafety
  import opened SchedulerRuns
  import opened Dependents

  /** What the system answers when an item is run; `pid` is what fork gives the parent, -1 if it fails. */
  datatype Answer = NoPath | NoAccess | Forked(pid: int)

  predicate IsAnswer(answer: Answer) {
    answer.Forked? ==> answer.pid == -1 || 0 < answer.pid
  }

  /** countUnmetRequirements */
  method CountUnmetRequirements(status: map<Service, bool>, services: seq<Service>) returns (count: nat)
    ensures count == UnmetCount(status, services)
  {
    count := 0;
    for k := 0 to |services|
      invariant count == UnmetCount(status, services[..k])
    {
      assert services[..k + 1][..k] == services[..k];
      if services[k] !in status || !status[services[k]] {
        count := count + 1;
      }
    }
    assert services[..|services|] == services;
  }

  /** countDependantsPresent */
  method CountDependantsPresent(waiting: seq<Item>, services: seq<Service>, key: Key) returns (count: nat)
    ensures count == DependantsCount(waiting, services, key)
  {
    count := 0;
    for k := 0 to |services|
      invariant count == DependantsCount(waiting, services[..k], key)
    {
      assert services[..k + 1][..k] == services[..k];
      var matches := CopyMatches(waiting, key, services[k]);
      count := count + |matches|;
    }
    assert services[..|services|] == services;
  }

  /** The startup context, with the process IDs kept beside the items. */
  class StartupContext {
    var waiting: seq<Item>
    var failed: seq<Item>
    var status: map<Service, bool>
    var pid: map<Item, int>
    var running: int

    constructor (items: seq<Item>)
      ensures View() == Context(items, [], map[], map[], 0)
    {
      waiting, failed, status, pid, running := items, [], map[], map[], 0;
    }

    function View(): Context
      reads this
    {
      Context(waiting, failed, status, pid, running)
    }

    /** pendingAntecedents */
    method PendingAntecedents(services: seq<Service>, key: Key) returns (pending: bool)
      ensures pending <==> IsPending(View(), services, key)
    {
      hide Matching;
      for k := 0 to |services|
        invariant forall s, m :: s in services[..k] && m in waiting && s in ListOf(m, key) ==> m in pid && s in status
      {
        var s := services[k];
        var matches := CopyMatches(waiting, key, s);
        MatchingMeans(waiting, key, s);
        for j := 0 to |matches|
          invariant forall m :: m in matches[..j] ==> m in pid && s in status
        {
          if matches[j] !in pid || s !in status {
            assert s in services && matches[j] in matches;
            return true;
          }
        }
        assert matches[..|matches|] == matches;
        assert services[..k + 1] == services[..k] + [s];
      }
      assert services[..|services|] == services;
      return false;
    }

    /** checkForDuplicates */
    method CheckForDuplicates(i: Item) returns (duplicate: bool)
      ensures duplicate <==> IsDuplicate(View(), i)
    {
      hide Matching;
      for k := 0 to |i.offers|
        invariant forall s :: s in i.offers[..k] ==> !Succeeded(status, s)
        invariant forall s, d :: s in i.offers[..k] && d in waiting && s in d.offers ==> d !in pid && i.domain <= d.domain
      {
        var s := i.offers[k];
        assert s in i.offers;
        if s in status && status[s] {
          assert Succeeded(status, s);
          return true;
        }
        var matches := CopyMatches(waiting, Provides, s);
        MatchingMeans(waiting, Provides, s);
        for j := 0 to |matches|
          invariant forall d :: d in matches[..j] ==> d !in pid && i.domain <= d.domain
        {
          if matches[j] in pid || i.domain > matches[j].domain {
            assert s in i.offers && matches[j] in matches && s in ListOf(matches[j], Provides);
            return true;
          }
        }
        assert matches[..|matches|] == matches;
        forall d | d in waiting && s in d.offers ensures d in matches {
          assert s in ListOf(d, Provides);
        }
        assert i.offers[..k + 1] == i.offers[..k] + [s];
      }
      assert i.offers[..|i.offers|] == i.offers;
      return false;
    }

    /** The two filters on an item that is no duplicate: its hard dependencies, then its soft ones. */
    method Examine(i: Item, action: Action) returns (ready: bool, unmet: nat)
      requires i !in pid && !IsDuplicate(View(), i)
      ensures ready <==> IsReady(View(), i, action)
      ensures ready ==> unmet == SoftCount(View(), i, action)
      ensures action == Restart ==> ready
    {
      hide IsDuplicate, IsPending, UnmetCount, DependantsCount;
      if action == Restart {
        return true, 0;
      }
      var hard: nat;
      if action == Start {
        hard := CountUnmetRequirements(status, i.needs);
      } else {
        hard := CountDependantsPresent(waiting, i.offers, Requires);
      }
      if hard != 0 {
        return false, 0;
      }
      if action == Start {
        unmet := CountUnmetRequirements(status, i.uses);
      } else {
        unmet := CountDependantsPresent(waiting, i.offers, Uses);
      }
      ready := true;
      if unmet > 0 {
        var pending := PendingAntecedents(SoftServices(i, action), SoftKey(action));
        ready := !pending;
      }
    }

    /** StartupItemListGetNext: the place of the best pick, or none. */
    method GetNext(action: Action) returns (next: Option<nat>)
      ensures next.Some? ==> IsChoice(View(), next.value, action)
      ensures next.None? <==> NoneReady(View(), action)
    {
      hide IsReady, IsDuplicate, SoftCount;
      ghost var c := View();
      var fewest: nat := 0;
      next := None;
      for k := 0 to |waiting|
        invariant next.None? ==> NoneBefore(c, k, action)
        invariant action == Restart ==> next.None?
        invariant next.Some? ==> BestBefore(c, next.value, k, action) && fewest == SoftCount(c, waiting[next.value], action)
      {
        var i := waiting[k];
        if i in pid {
          Unready(c, i, action);
          continue;
        }
        var duplicate := CheckForDuplicates(i);
        if duplicate {
          Unready(c, i, action);
          continue;
        }
        var ready, unmet := Examine(i, action);
        if action == Restart {
          // Nothing is unmet on a restart, so the first ready item is the best.
          RestartFirst(c, k);
          return Some(k);
        }
        if !ready || (next.Some? && unmet >= fewest) {
          continue;
        }
        fewest := unmet;
        next := Some(k);
      }
    }

    /** StartupItemSetStatus without replacement, for every service of the item. */
    method ItemExit(i: Item, ok: bool)
      modifies `status
      ensures status == Recorded(old(status), i, ok)
    {
      for k := 0 to |i.offers|
        invariant status == Recorded(old(status), i.(offers := i.offers[..k]), ok)
      {
        RecordedOne(old(status), i, k, ok);
        if i.offers[k] !in status {
          status := status[i.offers[k] := ok];
        }
      }
      assert i.offers[..|i.offers|] == i.offers;
    }

    /** Removes the first occurrence of the item. */
    method RemoveFromWaitingList(i: Item)
      modifies `waiting
      ensures waiting == Without(old(waiting), i)
    {
      var k := 0;
      while k < |waiting| && waiting[k] != i
        invariant k <= |waiting|
        invariant i !in waiting[..k]
      {
        k := k + 1;
      }
      WithoutAt(waiting, i, k);
      if k < |waiting| {
        waiting := waiting[..k] + waiting[k + 1..];
      }
    }

    /** StartupItemRun: forks the item's process, or records why there is none. */
    method ItemRun(i: Item, action: Action, answer: Answer) returns (outcome: Event)
      requires IsAnswer(answer)
      modifies `pid, `status
      ensures outcome.Launched? ==> status == old(status) && pid == old(pid)[i := outcome.pid]
      ensures outcome.Launched? <==> answer.Forked? && 0 < answer.pid && !(action == Stop && IsStub(i))
      ensures outcome.Launched? ==> outcome == Launched(i, answer.pid)
      ensures outcome.Refused? ==> outcome.item == i && (outcome.why == Stubbed <==> action == Stop && IsStub(i))
      ensures outcome.Refused? ==> AfterRefusal(old(View()), i, outcome.why).status == status
      ensures outcome.Refused? ==> AfterRefusal(old(View()), i, outcome.why).pid == pid
      ensures !outcome.Exited?
    {
      if action == Stop {
        var s := 0;
        while s < |i.offers| && i.offers[s] !in STUB_ITEMS
          invariant s <= |i.offers|
          invariant forall k :: 0 <= k < s ==> i.offers[k] !in STUB_ITEMS
        {
          s := s + 1;
        }
        if s < |i.offers| {
          assert i.offers[s] in i.offers;
          pid := pid[i := -1];
          ItemExit(i, true);
          return Refused(i, Stubbed);
        }
      }
      match answer
      case NoPath =>
        return Refused(i, BadPath);
      case NoAccess =>
        pid := pid[i := -1];
        ItemExit(i, false);
        return Refused(i, NotExecutable);
      case Forked(p) =>
        if p == -1 {
          ItemExit(i, false);
          return Refused(i, ForkFailed);
        }
        pid := pid[i := p];
        return Launched(i, p);
    }

    /** startupItemTerminated: a running item's process has ended. */
    method Terminated(i: Item, ok: bool)
      requires IsRunning(View(), i)
      modifies this
      ensures View() == AfterExit(old(View()), i, ok)
    {
      running := running - 1;
      ItemExit(i, ok);
      if !ok {
        failed := failed + [i];
      }
      RemoveFromWaitingList(i);
    }

    /** The first half of a pass: the chosen item is run, or given up. */
    method Attempt(i: Item, action: Action, answer: Answer) returns (outcome: Event)
      requires IsAnswer(answer)
      requires IsChosen(View(), i, action)
      modifies this
      ensures Step(old(View()), outcome, View(), action) && !outcome.Exited? && outcome.item == i
    {
      outcome := ItemRun(i, action, answer);
      if outcome.Launched? {
        running := running + 1;
      } else {
        failed := failed + [i];
        RemoveFromWaitingList(i);
      }
    }

    /**
     The run loop: the answers of the system, the moment a process ends and its exit
     status are arbitrary.  A process that cannot be watched when it has just been
     launched counts as ended at once.  It returns after a run of the scheduler that is
     over.
     */
    method RunLoop(action: Action) returns (ghost trace: seq<Context>, ghost events: seq<Event>)
      requires Init(View())
      modifies this
      ensures IsRun(trace, events, action) && trace[0] == old(View())
      ensures trace[|events|] == View() && IsOver(View(), action)
    {
      hide IsChoice, IsReady, NoneReady, Step, Init;
      trace, events := [View()], [];
      while true
        invariant IsRun(trace, events, action) && trace[0] == old(View()) && trace[|events|] == View()
        decreases 2 * |waiting| - running
      {
        InvariantHolds(trace, events, action, |events|);
        var next := GetNext(action);
        if next.Some? {
          var answer: Answer := *;
          if !IsAnswer(answer) {
            answer := Forked(-1);
          }
          var i := ChosenItem(next.value, action);
          ghost var before := View();
          var e := Attempt(i, action, answer);
          Took(trace, events, e, View(), action);
          trace, events := trace + [View()], events + [e];
          // MonitorStartupItem
          var lost: bool := *;
          if e.Launched? && lost {
            var ok: bool := *;
            LaunchedRuns(before, e, View(), action);
            ExitIsStep(View(), i, ok, action);
            Terminated(i, ok);
            Took(trace, events, Exited(i, ok), View(), action);
            trace, events := trace + [View()], events + [Exited(i, ok)];
          }
        } else if running == 0 {
          break;
        } else {
          SomeoneRuns(View(), Elements(trace[0].waiting));
          var i :| i in waiting && IsRunning(View(), i);
          var ok: bool := *;
          ExitIsStep(View(), i, ok, action);
          Terminated(i, ok);
          Took(trace, events, Exited(i, ok), View(), action);
          trace, events := trace + [View()], events + [Exited(i, ok)];
        }
      }
    }

    method ChosenItem(k: nat, action: Action) returns (i: Item)
      requires IsChoice(View(), k, action)
      ensures IsChosen(View(), i, action)
    {
      i := waiting[k];
    }
  }

  ghost predicate NoneBefore(c: Context, k: int, action: Action)
    requires 0 <= k <= |c.waiting|
  {
    forall j :: 0 <= j < k ==> !IsReady(c, c.waiting[j], action)
  }

  /** The best pick among the first k. */
  ghost predicate BestBefore(c: Context, b: int, k: int, action: Action)
    requires 0 <= k <= |c.waiting|
  {
    && 0 <= b < k && IsReady(c, c.waiting[b], action)
    && forall j :: 0 <= j < k && IsReady(c, c.waiting[j], action) ==>
         SoftCount(c, c.waiting[b], action) < SoftCount(c, c.waiting[j], action)
         || (SoftCount(c, c.waiting[b], action) == SoftCount(c, c.waiting[j], action) && b <= j)
  }

  lemma RecordedOne(status: map<Service, bool>, i: Item, k: nat, ok: bool)
    requires k < |i.offers|
    ensures var before := Recorded(status, i.(offers := i.offers[..k]), ok);
            Recorded(status, i.(offers := i.offers[..k + 1]), ok) ==
            if i.offers[k] in before then before else before[i.offers[k] := ok]
  {
    var s := i.offers[k];
    var before := Recorded(status, i.(offers := i.offers[..k]), ok);
    var after := Recorded(status, i.(offers := i.offers[..k + 1]), ok);
    assert i.offers[..k + 1] == i.offers[..k] + [s];
    assert after.Keys == before.Keys + {s};
  }

  /** Removing an item found at place k. */
  lemma {:induction false} WithoutAt(q: seq<Item>, i: Item, k: nat)
    requires k <= |q| && i !in q[..k] && (k < |q| ==> q[k] == i)
    ensures Without(q, i) == if k < |q| then q[..k] + q[k + 1..] else q
  {
    if k > 0 {
      assert q[0] in q[..k];
      assert q[..k][1..] == q[1..][..k - 1];
      WithoutAt(q[1..], i, k - 1);
    }
  }

  lemma Unready(c: Context, i: Item, action: Action)
    requires i in c.pid || IsDuplicate(c, i)
    ensures !IsReady(c, i, action)
  {
  }

  lemma RestartFirst(c: Context, k: nat)
    requires k < |c.waiting| && NoneBefore(c, k, Restart) && IsReady(c, c.waiting[k], Restart)
    ensures IsChoice(c, k, Restart)
  {
  }

  lemma SomeoneRuns(c: Context, all: set<Item>)
    requires Invariant(c, all) && c.running != 0
    ensures exists i :: i in c.waiting && IsRunning(c, i)
  {
    if Running(c) != {} {
      var i :| i in Running(c);
      assert IsRunning(c, i);
    }
  }

  lemma LaunchedRuns(c: Context, e: Event, c': Context, action: Action)
    requires Step(c, e, c', action) && e.Launched?
    ensures IsRunning(c', e.item)
  {
  }

  lemma ExitIsStep(c: Context, i: Item, ok: bool, action: Action)
    requires IsRunning(c, i)
    ensures Step(c, Exited(i, ok), AfterExit(c, i, ok), action)
  {
  }

  /** A step more makes a longer run, and brings the loop nearer its end. */
  lemma Took(trace: seq<Context>, events: seq<Event>, e: Event, c: Context, action: Action)
    requires IsRun(trace, events, action) && Step(trace[|events|], e, c, action)
    ensures IsRun(trace + [c], events + [e], action)
    ensures 0 <= 2 * |c.waiting| - c.running < 2 * |trace[|events|].waiting| - trace[|events|].running
  {
    hide Step, Init, IsReady;
    InvariantHolds(trace, events, action, |events|);
    StepEffect(trace[|events|], e, c, action, Elements(trace[0].waiting));
    RunGrows(trace, events, e, c, action);
    RunsAreShort(trace + [c], events + [e], action, |events| + 1);
  }

  lemma RunGrows(trace: seq<Context>, events: seq<Event>, e: Event, c: Context, action: Action)
    requires IsRun(trace, events, action) && Step(trace[|events|], e, c, action)
    ensures IsRun(trace + [c], events + [e], action)
  {
    var trace', events' := trace + [c], events + [e];
    forall k | 0 <= k < |events'| ensures Step(trace'[k], events'[k], trace'[k + 1], action) {
      if k < |events| {
        assert Step(trace[k], events[k], trace[k + 1], action);
      }
    }
  }

  /** system_starter: the run loop over every item, or over those one service concerns. */
  method Starter(items: seq<Item>, service: Option<Service>, action: Action)
    returns (code: int, ghost trace: seq<Context>, ghost events: seq<Event>)
    requires Distinct(items)
    ensures code == 1 <==> service.Some? && forall i :: i in items ==> service.value !in i.offers
    ensures code == 0 || code == 1
    ensures code == 0 ==> IsRun(trace, events, action) && IsOver(trace[|events|], action)
    ensures code == 0 && service.None? ==> trace[0].waiting == items
    ensures code == 0 && service.Some? ==>
      exists k :: IsProvider(items, service.value, k)
        && IsClosure(trace[0].waiting, items, items[k], action) && IsSmallest(trace[0].waiting, items, items[k], action)
    ensures code == 0 && service.Some? ==> DepthFirst(items, trace[0].waiting, 0, action)
  {
    var list := items;
    trace, events := [], [];
    if service.Some? {
      var selection := CreateDependentsList(items, service.value, action);
      if selection.UnknownService? {
        return 1, [], [];
      }
      list := selection.dependents;
    }
    var context := new StartupContext(list);
    trace, events := context.RunLoop(action);
    return 0, trace, events;
  }
}
