/**
 That shutdown comes to its end once the jobs are gone, and where its last phase falls
 short: a shutdown monitor that is itself dirty at shutdown.
 */
module ShutdownProgress {
  import opened Options
  import opened ShutdownSpec
  import opened ShutdownSafety

  /** Shutting down throughout, with no managed job active but a monitor. */
  ghost predicate Quiet(m: Mgr)
    decreases m
  {
    m.shutting && NoSweptActive(m.jobs) && forall s :: s in m.subs ==> Quiet(s) && !s.monitorShutdown
  }

  ghost predicate NoMonitor(jobs: seq<Job>) {
    forall j :: j in jobs ==> !j.monitor
  }

  lemma KeptMonitor(jobs: seq<Job>, dirtied: bool)
    ensures NoMonitor(Kept(jobs, dirtied)) <==> NoMonitor(jobs)
    ensures NoSweptActive(jobs) ==> NoSweptActive(Kept(jobs, dirtied))
    ensures forall j :: j in Kept(jobs, dirtied) && Swept(j) ==> Active(j)
  {
    KeptMeans(jobs, dirtied);
    forall i | i in jobs && i.monitor ensures i in Kept(jobs, dirtied) {
      assert Handled(i, dirtied) == i;
    }
  }

  lemma MonitorFound(jobs: seq<Job>)
    ensures MonitorAt(jobs).None? <==> NoMonitor(jobs)
  {
    MonitorAtMeans(jobs);
    if !NoMonitor(jobs) {
      var j :| j in jobs && j.monitor;
      var k :| 0 <= k < |jobs| && jobs[k] == j;
    }
  }

  lemma CleanedMonitor(jobs: seq<Job>)
    ensures NoMonitor(Cleaned(jobs)) <==> NoMonitor(jobs)
  {
    CleanedMeans(jobs);
    forall i | i in jobs ensures Closing(i) in Cleaned(jobs) {
      var k :| 0 <= k < |jobs| && jobs[k] == i;
      assert Cleaned(jobs)[k] in Cleaned(jobs);
    }
    CleanedKeeps(jobs);
  }

  /** One pass takes a quiet tree of managers away, all but a root whose monitor is still to be stopped. */
  lemma {:induction false} QuietTreeGoes(m: Mgr)
    requires Quiet(m)
    ensures PassAll(m.subs).0 == []
    ensures Pass(m).left.None? <==> !m.monitorShutdown || NoMonitor(m.jobs)
    ensures Pass(m).left.Some? ==> exists at, j :: MonitorStopped(at, j) in Pass(m).events
    decreases m
  {
    QuietTreesGo(m.subs);
    QuietSweep(m.(subs := []));
  }

  lemma {:induction false} QuietTreesGo(ms: seq<Mgr>)
    requires forall s :: s in ms ==> Quiet(s) && !s.monitorShutdown
    ensures PassAll(ms).0 == []
    decreases ms
  {
    hide Pass;
    if ms != [] {
      QuietTreeGoes(ms[0]);
      QuietTreesGo(ms[1..]);
    }
  }

  lemma QuietSweep(m: Mgr)
    requires m.shutting && NoSweptActive(m.jobs) && m.subs == []
    ensures Sweep(m).left.None? <==> !m.monitorShutdown || NoMonitor(m.jobs)
    ensures Sweep(m).left.Some? ==> exists at, j :: MonitorStopped(at, j) in Sweep(m).events
  {
    var swept := m.(jobs := Kept(m.jobs, m.dirtied), dirtied := true);
    KeptMonitor(m.jobs, m.dirtied);
    OrdinaryActiveMeans(swept.jobs);
    SweptActiveMeans(swept.jobs);
    CleanedMonitor(swept.jobs);
    MonitorFound(swept.jobs);
    MonitorFound(Cleaned(swept.jobs));
    if m.monitorShutdown && !NoMonitor(m.jobs) {
      var done := Done(swept);
      MonitorAtMeans(done.jobs);
      assert MonitorStopped(done, done.jobs[MonitorAt(done.jobs).value]) in Sweep(m).events;
    }
  }

  /**
   After the monitor has been stopped: the root goes when the monitor's process is gone,
   or at once, with the process still active, if the monitor is dirty at shutdown.
   */
  lemma MonitorIsWaitedForUnlessDirty(m: Mgr, k: nat)
    requires m.shutting && m.dirtied && m.cleaned && m.subs == [] && NoMonitor(m.jobs)
    requires k < |m.jobs| && !m.jobs[k].anonymous && forall i :: 0 <= i < |m.jobs| && i != k ==> m.jobs[i].anonymous
    ensures Pass(m).left.None? <==> !Active(m.jobs[k]) || m.jobs[k].dirty
  {
    var swept := m.(jobs := Kept(m.jobs, true));
    assert PassAll(m.subs) == ([], []);
    assert m.(subs := []) == m;
    KeptMeans(m.jobs, true);
    OrdinaryActiveMeans(swept.jobs);
    KeptMonitor(m.jobs, true);
    MonitorFound(swept.jobs);
    assert m.jobs[k] in m.jobs && Swept(m.jobs[k]);
    forall j | j in swept.jobs && Swept(j) ensures j == Handled(m.jobs[k], true) {
      var i :| i in m.jobs && j == Handled(i, true);
      var x :| 0 <= x < |m.jobs| && m.jobs[x] == i;
    }
  }

  /** So with a monitor that is dirty at shutdown two passes remove the root while its process runs. */
  lemma DirtyMonitorIsLeftRunning(m: Mgr, j: Job)
    requires m.shutting && m.monitorShutdown && m.subs == [] && m.jobs == [j]
    requires j.monitor && j.dirty && j.running && !j.anonymous
    ensures Pass(m).left.Some? && Pass(m).left.value.jobs == [j.(monitor := false, stopped := true)]
    ensures Pass(Pass(m).left.value).left.None?
  {
    hide Kept, Cleaned, MonitorAt, OrdinaryActive, SweptActive, Openings, Closings;
    LoneMonitor(j, m);
    assert m.(subs := []) == m && PassAll(m.subs) == ([], []);
    var j' := j.(monitor := false, stopped := true);
    assert [j][0 := j'] == [j'];
    MonitorIsWaitedForUnlessDirty(m.(jobs := [j'], dirtied := true, cleaned := true), 0);
  }

  lemma LoneMonitor(j: Job, m: Mgr)
    requires j.monitor
    ensures Kept([j], m.dirtied) == [j] && Cleaned([j]) == [j] && MonitorAt([j]) == Some(0)
    ensures OrdinaryActive([j]) == 0 && SweptActive([j]) == 0
  {
    assert [j][..0] == [];
  }

  /** After a pass every managed process left in a manager shutting down, the monitor's apart, has been told to stop. */
  lemma AllToldToStop(m: Mgr)
    requires m.shutting && Pass(m).left.Some?
    ensures AllStopped(Pass(m).left.value.jobs)
  {
    hide Sweep, AllStopped;
    SweepStops(m.(subs := PassAll(m.subs).0));
  }

  lemma SweepStops(m: Mgr)
    ensures Sweep(m).left.Some? ==> AllStopped(Sweep(m).left.value.jobs)
  {
    hide Finish, Kept, AllStopped, OrdinaryActive, Openings;
    KeptStops(m.jobs, m.dirtied);
    FinishStops(m.(jobs := Kept(m.jobs, m.dirtied), dirtied := true));
  }

  lemma KeptStops(jobs: seq<Job>, dirtied: bool)
    ensures AllStopped(Kept(jobs, dirtied))
  {
    KeptMeans(jobs, dirtied);
  }

  ghost predicate AllStopped(jobs: seq<Job>) {
    forall j :: j in jobs && Swept(j) && j.running ==> j.stopped
  }

  lemma FinishStops(m: Mgr)
    requires AllStopped(m.jobs)
    ensures Finish(m).left.Some? ==> AllStopped(Finish(m).left.value.jobs)
  {
    hide Closings, SweptActive;
    CleanedKeeps(m.jobs);
    assert AllStopped(Done(m).jobs);
    MonitorAtMeans(Done(m).jobs);
  }

  // ---------- No manager is lost ----------

  /** The names of the managers of a tree. */
  function Managers(m: Mgr): multiset<string>
    decreases m
  {
    multiset{m.name} + ManagersOf(m.subs)
  }

  function ManagersOf(ms: seq<Mgr>): multiset<string>
    decreases ms
  {
    if ms == [] then multiset{} else Managers(ms[0]) + ManagersOf(ms[1..])
  }

  function ManagersLeft(left: Option<Mgr>): multiset<string> {
    if left.Some? then Managers(left.value) else multiset{}
  }

  /** Those that events remove. */
  function RemovedBy(events: seq<Event>): multiset<string> {
    if events == [] then multiset{}
    else RemovedBy(events[1..]) + if events[0].Removed? then multiset{events[0].at.name} else multiset{}
  }

  lemma {:induction false} RemovedTogether(a: seq<Event>, b: seq<Event>)
    ensures RemovedBy(a + b) == RemovedBy(a) + RemovedBy(b)
  {
    if a == [] {
      assert a + b == b;
    } else {
      assert (a + b)[1..] == a[1..] + b;
      RemovedTogether(a[1..], b);
    }
  }

  lemma {:induction false} NoneRemoved(events: seq<Event>)
    requires forall e :: e in events ==> !e.Removed?
    ensures RemovedBy(events) == multiset{}
  {
    if events != [] {
      NoneRemoved(events[1..]);
    }
  }

  lemma SameManagers(m: Mgr, m': Mgr)
    requires m'.name == m.name && m'.subs == m.subs
    ensures Managers(m') == Managers(m)
  {
  }

  lemma FinishConserves(m: Mgr)
    ensures Managers(m) == ManagersLeft(Finish(m).left) + RemovedBy(Finish(m).events)
  {
    hide Closings, Cleaned, SweptActive, MonitorAt;
    ClosingsMean(m, m.jobs);
    MonitorAtMeans(Done(m).jobs);
    var closed := if m.cleaned then [] else Closings(m, m.jobs);
    NoneRemoved(closed);
    RemovedTogether(closed, [Removed(Done(m))]);
    assert RemovedBy([Removed(Done(m))]) == multiset{m.name};
    var k := MonitorAt(Done(m).jobs);
    if k.Some? {
      RemovedTogether(closed, [MonitorStopped(Done(m), Done(m).jobs[k.value])]);
      assert RemovedBy([MonitorStopped(Done(m), Done(m).jobs[k.value])]) == multiset{};
    }
  }

  lemma SweepConserves(m: Mgr)
    ensures Managers(m) == ManagersLeft(Sweep(m).left) + RemovedBy(Sweep(m).events)
  {
    hide Kept, Openings, OrdinaryActive, Finish, Managers, RemovedBy;
    var swept := m.(jobs := Kept(m.jobs, m.dirtied), dirtied := true);
    var begun := if m.dirtied then [] else Openings(m, m.jobs);
    OpeningsMean(m, m.jobs);
    NoneRemoved(begun);
    NoneRemoved([]);
    SameManagers(m, swept);
    FinishConserves(swept);
    RemovedTogether(begun, Finish(swept).events);
    RemovedTogether(begun, []);
  }

  lemma {:induction false} ManagersTogether(a: seq<Mgr>, b: seq<Mgr>)
    ensures ManagersOf(a + b) == ManagersOf(a) + ManagersOf(b)
  {
    if a == [] {
      assert a + b == b;
    } else {
      assert (a + b)[1..] == a[1..] + b;
      ManagersTogether(a[1..], b);
    }
  }

  /** A pass loses no manager: each is left in the tree, or its removal is among what happened. */
  lemma {:induction false} ManagersAreConserved(m: Mgr)
    ensures Managers(m) == ManagersLeft(Pass(m).left) + RemovedBy(Pass(m).events)
    decreases m
  {
    hide Sweep, PassAll, ManagersOf, RemovedBy;
    var (subs, events) := PassAll(m.subs);
    AllAreConserved(m.subs);
    var here := m.(subs := subs);
    assert Managers(m) == Managers(here) + RemovedBy(events);
    if m.shutting {
      SweepConserves(here);
      RemovedTogether(events, Sweep(here).events);
    }
  }

  lemma {:induction false} AllAreConserved(ms: seq<Mgr>)
    ensures ManagersOf(ms) == ManagersOf(PassAll(ms).0) + RemovedBy(PassAll(ms).1)
    decreases ms
  {
    hide Pass;
    if ms != [] {
      var first, rest := Pass(ms[0]), PassAll(ms[1..]);
      ManagersAreConserved(ms[0]);
      AllAreConserved(ms[1..]);
      RemovedTogether(first.events, rest.1);
      var here := if first.left.Some? then [first.left.value] else [];
      ManagersTogether(here, rest.0);
      assert ManagersOf(here) == ManagersLeft(first.left);
    }
  }
}
