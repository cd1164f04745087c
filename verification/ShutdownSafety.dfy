/**
 The phases of shutdown, over every run of passes between which jobs exit, start, come
 and go as they like.
 */
module ShutdownSafety {
  import opened Options
  import opened ShutdownSpec

  ghost predicate NoOrdinaryActive(jobs: seq<Job>) {
    forall j :: j in jobs && Swept(j) && Active(j) ==> j.dirty
  }

  ghost predicate NoSweptActive(jobs: seq<Job>) {
    forall j :: j in jobs && Swept(j) ==> !Active(j)
  }

  /** When each thing may be done. */
  ghost predicate Permitted(e: Event) {
    match e
    case Began(at, j) => j in at.jobs && Swept(j) && j.dirty && j.compliant && at.shutting && !at.dirtied
    case Closed(at, j) => j in at.jobs && Swept(j) && j.dirty && Active(j) && at.shutting && !at.cleaned && NoOrdinaryActive(at.jobs)
    case MonitorStopped(at, j) => j in at.jobs && j.monitor && at.monitorShutdown && at.shutting && at.subs == [] && NoSweptActive(at.jobs)
    case Removed(at) => at.shutting && at.subs == [] && NoSweptActive(at.jobs)
  }

  predicate CleanMonitor(jobs: seq<Job>) {
    forall j :: j in jobs && j.monitor ==> !j.dirty && !j.anonymous
  }

  /** The shutdown monitor, wherever in the tree, is a managed job that is not dirty at shutdown. */
  ghost predicate CleanMonitors(m: Mgr)
    decreases m
  {
    CleanMonitor(m.jobs) && forall s :: s in m.subs ==> CleanMonitors(s)
  }

  /** Once the transactions are closed no job is dirty. */
  ghost predicate InPhase(m: Mgr)
    decreases m
  {
    && (m.cleaned ==> m.dirtied && m.shutting)
    && (m.cleaned ==> forall j :: j in m.jobs && Swept(j) ==> !j.dirty)
    && forall s :: s in m.subs ==> InPhase(s)
  }

  // ---------- The loops ----------

  lemma {:induction false} KeptMeans(jobs: seq<Job>, dirtied: bool)
    ensures forall j :: j in Kept(jobs, dirtied) ==>
      exists i :: i in jobs && j == Handled(i, dirtied) && (Swept(j) ==> Active(j))
    ensures forall i :: i in jobs && (!Swept(i) || Active(i)) ==> Handled(i, dirtied) in Kept(jobs, dirtied)
  {
    if jobs != [] {
      var n := |jobs| - 1;
      KeptMeans(jobs[..n], dirtied);
      assert jobs == jobs[..n] + [jobs[n]];
    }
  }

  lemma {:induction false} OrdinaryActiveMeans(jobs: seq<Job>)
    ensures OrdinaryActive(jobs) == 0 <==> NoOrdinaryActive(jobs)
  {
    if jobs != [] {
      var n := |jobs| - 1;
      OrdinaryActiveMeans(jobs[..n]);
      assert jobs == jobs[..n] + [jobs[n]];
    }
  }

  lemma {:induction false} SweptActiveMeans(jobs: seq<Job>)
    ensures SweptActive(jobs) == 0 <==> NoSweptActive(jobs)
  {
    if jobs != [] {
      var n := |jobs| - 1;
      SweptActiveMeans(jobs[..n]);
      assert jobs == jobs[..n] + [jobs[n]];
    }
  }

  lemma {:induction false} CleanedMeans(jobs: seq<Job>)
    ensures |Cleaned(jobs)| == |jobs| && forall k :: 0 <= k < |jobs| ==> Cleaned(jobs)[k] == Closing(jobs[k])
  {
    if jobs != [] {
      var n := |jobs| - 1;
      CleanedMeans(jobs[..n]);
    }
  }

  /** Exactly the active dirty jobs have their transactions closed. */
  lemma {:induction false} ClosingsMean(at: Mgr, jobs: seq<Job>)
    ensures forall e :: e in Closings(at, jobs) <==>
      e.Closed? && e.at == at && e.job in jobs && Swept(e.job) && Active(e.job) && e.job.dirty
  {
    if jobs != [] {
      var n := |jobs| - 1;
      ClosingsMean(at, jobs[..n]);
      assert jobs == jobs[..n] + [jobs[n]];
    }
  }

  /** Exactly the compliant dirty jobs have transactions opened. */
  lemma {:induction false} OpeningsMean(at: Mgr, jobs: seq<Job>)
    ensures forall e :: e in Openings(at, jobs) <==>
      e.Began? && e.at == at && e.job in jobs && Swept(e.job) && e.job.dirty && e.job.compliant
  {
    if jobs != [] {
      var n := |jobs| - 1;
      OpeningsMean(at, jobs[..n]);
      assert jobs == jobs[..n] + [jobs[n]];
    }
  }

  // ---------- One pass ----------

  /** The manager when the second loop, if it is due, has run. */
  function Done(m: Mgr): Mgr {
    if m.cleaned then m else m.(jobs := Cleaned(m.jobs), cleaned := true)
  }

  lemma DoneInPhase(m: Mgr)
    requires InPhase(m) && m.shutting && m.dirtied && forall j :: j in m.jobs && Swept(j) ==> Active(j)
    ensures InPhase(Done(m)) && (NoSweptActive(m.jobs) ==> NoSweptActive(Done(m).jobs))
    ensures CleanMonitor(m.jobs) ==> CleanMonitor(Done(m).jobs)
  {
    CleanedKeeps(m.jobs);
  }

  lemma FinishKeeps(m: Mgr)
    requires InPhase(m) && CleanMonitor(m.jobs) && m.shutting && m.dirtied && NoOrdinaryActive(m.jobs)
    requires forall j :: j in m.jobs && Swept(j) ==> Active(j)
    ensures forall e :: e in Finish(m).events ==> Permitted(e)
    ensures Finish(m).left.Some? ==> InPhase(Finish(m).left.value)
  {
    hide Cleaned, Closings, SweptActive, MonitorAt;
    DoneInPhase(m);
    ClosingsMean(m, m.jobs);
    SweptActiveMeans(m.jobs);
    MonitorAtMeans(Done(m).jobs);
    assert m.cleaned ==> NoSweptActive(m.jobs);
    var k := MonitorAt(Done(m).jobs);
    if k.Some? {
      StoppedInPhase(Done(m), k.value);
    }
  }

  /** The monitor, stopped and now a job like any other, is not dirty. */
  lemma StoppedInPhase(m: Mgr, k: nat)
    requires InPhase(m) && CleanMonitor(m.jobs) && k < |m.jobs| && m.jobs[k].monitor
    ensures InPhase(m.(jobs := m.jobs[k := Stopped(m.jobs[k].(monitor := false))]))
  {
    var jobs := m.jobs[k := Stopped(m.jobs[k].(monitor := false))];
    forall j | j in jobs && Swept(j) ensures !j.dirty || j in m.jobs {
      var i :| 0 <= i < |jobs| && jobs[i] == j;
      assert m.jobs[i] in m.jobs;
    }
  }

  /** Closing transactions changes nothing else about a job. */
  lemma CleanedKeeps(jobs: seq<Job>)
    ensures forall j :: j in Cleaned(jobs) ==> exists i :: i in jobs && j == Closing(i)
    ensures NoSweptActive(jobs) ==> NoSweptActive(Cleaned(jobs))
  {
    CleanedMeans(jobs);
    forall j | j in Cleaned(jobs) ensures exists i :: i in jobs && j == Closing(i) {
      var k :| 0 <= k < |jobs| && Cleaned(jobs)[k] == j;
      assert jobs[k] in jobs;
    }
  }

  lemma SweepKeeps(m: Mgr)
    requires InPhase(m) && CleanMonitor(m.jobs) && m.shutting
    ensures forall e :: e in Sweep(m).events ==> Permitted(e)
    ensures Sweep(m).left.Some? ==> InPhase(Sweep(m).left.value)
  {
    hide Finish;
    KeptMeans(m.jobs, m.dirtied);
    OpeningsMean(m, m.jobs);
    var swept := m.(jobs := Kept(m.jobs, m.dirtied), dirtied := true);
    OrdinaryActiveMeans(swept.jobs);
    assert InPhase(swept);
    if OrdinaryActive(swept.jobs) == 0 {
      FinishKeeps(swept);
    }
  }

  lemma {:induction false} PassKeeps(m: Mgr)
    requires InPhase(m) && CleanMonitors(m)
    ensures forall e :: e in Pass(m).events ==> Permitted(e)
    ensures Pass(m).left.Some? ==> InPhase(Pass(m).left.value)
    decreases m
  {
    hide Sweep, Permitted;
    PassAllKeeps(m.subs);
    var here := m.(subs := PassAll(m.subs).0);
    assert InPhase(here);
    if m.shutting {
      SweepKeeps(here);
    }
  }

  lemma {:induction false} PassAllKeeps(ms: seq<Mgr>)
    requires forall s :: s in ms ==> InPhase(s) && CleanMonitors(s)
    ensures forall e :: e in PassAll(ms).1 ==> Permitted(e)
    ensures forall s :: s in PassAll(ms).0 ==> InPhase(s)
    decreases ms
  {
    hide Permitted, InPhase, CleanMonitors;
    if ms != [] {
      PassKeeps(ms[0]);
      PassAllKeeps(ms[1..]);
    }
  }

  // ---------- Runs ----------

  /** A pass over the manager at the end of a path of submanagers. */
  function PassAt(m: Mgr, path: seq<nat>): Outcome
    decreases path
  {
    if path == [] then Pass(m)
    else if path[0] >= |m.subs| then Outcome(Some(m), [])
    else
      var k := path[0];
      var inner := PassAt(m.subs[k], path[1..]);
      var left := if inner.left.Some? then [inner.left.value] else [];
      Outcome(Some(m.(subs := m.subs[..k] + left + m.subs[k + 1..])), inner.events)
  }

  lemma {:induction false} PassAtKeeps(m: Mgr, path: seq<nat>)
    requires InPhase(m) && CleanMonitors(m)
    ensures forall e :: e in PassAt(m, path).events ==> Permitted(e)
    ensures PassAt(m, path).left.Some? ==> InPhase(PassAt(m, path).left.value)
    decreases path
  {
    hide Permitted, Pass;
    if path == [] {
      PassKeeps(m);
    } else if path[0] < |m.subs| {
      PassAtKeeps(m.subs[path[0]], path[1..]);
    }
  }

  /** A job that was there before, or one that may appear: an anonymous process, or any job while not shutting down. */
  ghost predicate MayBe(m: Mgr, j': Job) {
    || (exists j :: j in m.jobs && Became(j, j'))
    || (j'.anonymous && !j'.monitor)
    || !m.shutting
  }

  /** What may happen to a job between passes: it exits, starts, or its ports change; a monitor that exits is one no more. */
  ghost predicate Became(j: Job, j': Job) {
    && j'.name == j.name && j'.anonymous == j.anonymous && j'.dirty == j.dirty && (j'.monitor ==> j.monitor)
    && (j.monitor && !j'.monitor ==> !j'.running)
  }

  ghost predicate NewManager(m: Mgr) {
    !m.shutting && !m.dirtied && !m.cleaned && m.subs == []
  }

  /** What may happen to a tree of managers between passes, the start of its shutdown included. */
  ghost predicate Drifts(m: Mgr, m': Mgr)
    decreases m'
  {
    && m'.name == m.name && m'.dirtied == m.dirtied && m'.cleaned == m.cleaned && m'.monitorShutdown == m.monitorShutdown
    && (m.shutting ==> m'.shutting)
    && (forall j' :: j' in m'.jobs ==> MayBe(m, j'))
    && forall s' :: s' in m'.subs ==> NewManager(s') || exists s :: s in m.subs && Drifts(s, s')
  }

  lemma {:induction false} DriftKeeps(m: Mgr, m': Mgr)
    requires InPhase(m) && CleanMonitors(m) && Drifts(m, m')
    ensures InPhase(m')
    decreases m'
  {
    forall s' | s' in m'.subs ensures InPhase(s') {
      if !NewManager(s') {
        var s :| s in m.subs && Drifts(s, s');
        DriftKeeps(s, s');
      }
    }
  }

  datatype Step = PassStep(path: seq<nat>) | DriftStep

  ghost predicate Next(m: Option<Mgr>, e: Step, m': Option<Mgr>, events: seq<Event>) {
    match e
    case PassStep(path) => m.Some? && Outcome(m', events) == PassAt(m.value, path)
    case DriftStep => m.Some? && m'.Some? && events == [] && Drifts(m.value, m'.value)
  }

  /** A run from a tree whose shutdown has not begun; `logs` holds what each step did. */
  ghost predicate IsRun(trace: seq<Option<Mgr>>, steps: seq<Step>, logs: seq<seq<Event>>) {
    && |trace| == |steps| + 1 == |logs| + 1
    && trace[0].Some? && NewManager(trace[0].value)
    && forall k :: 0 <= k < |steps| ==> Next(trace[k], steps[k], trace[k + 1], logs[k])
  }

  /** In no state is the monitor dirty at shutdown. */
  ghost predicate MonitorsStayClean(trace: seq<Option<Mgr>>) {
    forall k :: 0 <= k < |trace| && trace[k].Some? ==> CleanMonitors(trace[k].value)
  }

  lemma {:induction false} EveryRunInPhase(trace: seq<Option<Mgr>>, steps: seq<Step>, logs: seq<seq<Event>>, k: nat)
    requires IsRun(trace, steps, logs) && k <= |steps| && MonitorsStayClean(trace)
    ensures trace[k].Some? ==> InPhase(trace[k].value)
  {
    if k > 0 {
      EveryRunInPhase(trace, steps, logs, k - 1);
      assert Next(trace[k - 1], steps[k - 1], trace[k - 1 + 1], logs[k - 1]);
      match steps[k - 1]
      case PassStep(path) => PassAtKeeps(trace[k - 1].value, path);
      case DriftStep => DriftKeeps(trace[k - 1].value, trace[k].value);
    }
  }

  /**
   Over every run in which the monitor is not dirty at shutdown: a shutdown transaction is closed only while no ordinary job of its
   manager is active, the monitor is stopped only when every other managed job is
   inactive and no submanager is left, and a manager is removed only like that.
   */
  lemma EveryEventPermitted(trace: seq<Option<Mgr>>, steps: seq<Step>, logs: seq<seq<Event>>, k: nat, e: Event)
    requires IsRun(trace, steps, logs) && MonitorsStayClean(trace) && k < |steps| && e in logs[k]
    ensures Permitted(e)
  {
    EveryRunInPhase(trace, steps, logs, k);
    assert Next(trace[k], steps[k], trace[k + 1], logs[k]);
    match steps[k]
    case PassStep(path) => PassAtKeeps(trace[k].value, path);
    case DriftStep =>
  }
}
