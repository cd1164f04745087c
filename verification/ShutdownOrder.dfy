/**
 That shutdown transactions are closed only after they were opened, over every run, and
 what a pass waits for.
 */
module ShutdownOrder {
  import opened Lists
  import opened Options
  import opened ShutdownSpec
  import opened ShutdownSafety

  /** Among these events a transaction was opened for a job of a manager whose process could be marked. */
  ghost predicate HasOpening(events: seq<Event>, at: string, job: string) {
    exists e :: e in events && e.Began? && e.at.name == at && e.job.name == job && e.job.dirty && e.job.compliant
  }

  /** Every closing among the later events was opened before, among the earlier or the later ones. */
  ghost predicate Founded(earlier: seq<Event>, later: seq<Event>) {
    forall y :: 0 <= y < |later| && later[y].Closed? ==> HasOpening(earlier + later[..y], later[y].at.name, later[y].job.name)
  }

  /** Once the first pass has been made, every job held dirty had its transaction opened. */
  ghost predicate Traced(m: Mgr, events: seq<Event>)
    decreases m
  {
    && (m.dirtied ==> m.shutting)
    && (m.dirtied ==> forall j :: j in m.jobs && Swept(j) && j.dirty ==> HasOpening(events, m.name, j.name))
    && forall s :: s in m.subs ==> Traced(s, events)
  }

  lemma OpeningStays(events: seq<Event>, more: seq<Event>, at: string, job: string)
    requires HasOpening(events, at, job)
    ensures HasOpening(events + more, at, job)
  {
    var e :| e in events && e.Began? && e.at.name == at && e.job.name == job && e.job.dirty && e.job.compliant;
    assert e in events + more;
  }

  lemma {:induction false} TracedStays(m: Mgr, events: seq<Event>, more: seq<Event>)
    requires Traced(m, events)
    ensures Traced(m, events + more)
    decreases m
  {
    hide HasOpening;
    forall j | m.dirtied && j in m.jobs && Swept(j) && j.dirty ensures HasOpening(events + more, m.name, j.name) {
      OpeningStays(events, more, m.name, j.name);
    }
    forall s | s in m.subs ensures Traced(s, events + more) {
      TracedStays(s, events, more);
    }
  }

  lemma FoundedTogether(earlier: seq<Event>, a: seq<Event>, b: seq<Event>)
    requires Founded(earlier, a) && Founded(earlier + a, b)
    ensures Founded(earlier, a + b)
  {
    hide HasOpening;
    var all := a + b;
    forall y | 0 <= y < |all| && all[y].Closed?
      ensures HasOpening(earlier + all[..y], all[y].at.name, all[y].job.name)
    {
      if y < |a| {
        assert all[..y] == a[..y] && all[y] == a[y];
      } else {
        assert all[..y] == a + b[..y - |a|] && all[y] == b[y - |a|];
        assert earlier + (a + b[..y - |a|]) == (earlier + a) + b[..y - |a|];
      }
    }
  }

  // ---------- One pass over a manager's own jobs ----------

  lemma ClosingsFounded(m: Mgr, earlier: seq<Event>, last: seq<Event>)
    requires Traced(m, earlier) && m.dirtied && forall e :: e in last ==> !e.Closed?
    ensures Founded(earlier, Closings(m, m.jobs) + last)
  {
    hide HasOpening, Closings;
    ClosingsMean(m, m.jobs);
    var all := Closings(m, m.jobs) + last;
    assert forall e :: e in all ==> e in Closings(m, m.jobs) || e in last;
    forall y | 0 <= y < |all| && all[y].Closed?
      ensures HasOpening(earlier + all[..y], all[y].at.name, all[y].job.name)
    {
      assert all[y] in all;
      OpeningStays(earlier, all[..y], m.name, all[y].job.name);
    }
  }

  lemma FinishTraced(m: Mgr, earlier: seq<Event>)
    requires Traced(m, earlier) && m.dirtied && m.shutting && CleanMonitor(m.jobs)
    ensures Founded(earlier, Finish(m).events)
    ensures Finish(m).left.Some? ==> Traced(Finish(m).left.value, earlier)
  {
    hide HasOpening, Closings, Cleaned, MonitorAt, SweptActive, Founded;
    CleanedKeeps(m.jobs);
    MonitorAtMeans(Done(m).jobs);
    DoneTraced(m, earlier);
    ClosingsFounded(m, earlier, []);
    ClosingsFounded(m, earlier, [Removed(Done(m))]);
    assert Closings(m, m.jobs) + [] == Closings(m, m.jobs);
    NothingFounded(earlier, [Removed(Done(m))]);
    NothingFounded(earlier, []);
    var k := MonitorAt(Done(m).jobs);
    if k.Some? {
      var e := MonitorStopped(Done(m), Done(m).jobs[k.value]);
      ClosingsFounded(m, earlier, [e]);
      NothingFounded(earlier, [e]);
      assert [] + [e] == [e];
      StoppedTraced(Done(m), k.value, earlier);
    }
    assert [] + [Removed(Done(m))] == [Removed(Done(m))];
  }

  lemma NothingFounded(earlier: seq<Event>, events: seq<Event>)
    requires forall e :: e in events ==> !e.Closed?
    ensures Founded(earlier, events)
  {
  }

  lemma DoneTraced(m: Mgr, earlier: seq<Event>)
    requires Traced(m, earlier) && CleanMonitor(m.jobs)
    ensures Traced(Done(m), earlier) && CleanMonitor(Done(m).jobs)
  {
    hide HasOpening, Cleaned;
    CleanedKeeps(m.jobs);
  }

  lemma StoppedTraced(m: Mgr, k: nat, earlier: seq<Event>)
    requires Traced(m, earlier) && CleanMonitor(m.jobs) && k < |m.jobs| && m.jobs[k].monitor
    ensures Traced(m.(jobs := m.jobs[k := Stopped(m.jobs[k].(monitor := false))]), earlier)
  {
    hide HasOpening;
    var jobs := m.jobs[k := Stopped(m.jobs[k].(monitor := false))];
    forall j | j in jobs && Swept(j) && j.dirty ensures j in m.jobs {
      var i :| 0 <= i < |jobs| && jobs[i] == j;
      assert m.jobs[i] in m.jobs;
    }
  }

  /** The jobs kept by the first loop: those held dirty have had their transactions opened, now or before. */
  lemma KeptTraced(m: Mgr, earlier: seq<Event>)
    requires Traced(m, earlier) && m.shutting && CleanMonitor(m.jobs)
    ensures var begun := if m.dirtied then [] else Openings(m, m.jobs);
            var swept := m.(jobs := Kept(m.jobs, m.dirtied), dirtied := true);
            Traced(swept, earlier + begun) && CleanMonitor(swept.jobs) && Founded(earlier, begun)
  {
    hide Kept, Openings;
    KeptMeans(m.jobs, m.dirtied);
    OpeningsMean(m, m.jobs);
    var begun := if m.dirtied then [] else Openings(m, m.jobs);
    var swept := m.(jobs := Kept(m.jobs, m.dirtied), dirtied := true);
    NothingFounded(earlier, begun);
    forall j | j in swept.jobs && Swept(j) && j.dirty ensures HasOpening(earlier + begun, m.name, j.name) {
      var i :| i in m.jobs && j == Handled(i, m.dirtied);
      if m.dirtied {
        OpeningStays(earlier, begun, m.name, i.name);
      } else {
        assert Began(m, i) in begun;
        assert Began(m, i) in earlier + begun;
      }
    }
    forall s | s in m.subs ensures Traced(s, earlier + begun) {
      TracedStays(s, earlier, begun);
    }
  }

  lemma SweepTraced(m: Mgr, earlier: seq<Event>)
    requires Traced(m, earlier) && m.shutting && CleanMonitor(m.jobs)
    ensures Founded(earlier, Sweep(m).events)
    ensures Sweep(m).left.Some? ==> Traced(Sweep(m).left.value, earlier + Sweep(m).events)
  {
    hide HasOpening, Founded, Traced, Kept, Openings, Finish, CleanMonitor;
    KeptTraced(m, earlier);
    var begun := if m.dirtied then [] else Openings(m, m.jobs);
    var swept := m.(jobs := Kept(m.jobs, m.dirtied), dirtied := true);
    assert begun + [] == begun;
    if OrdinaryActive(swept.jobs) == 0 {
      FinishTraced(swept, earlier + begun);
      FoundedTogether(earlier, begun, Finish(swept).events);
      assert earlier + (begun + Finish(swept).events) == (earlier + begun) + Finish(swept).events;
      if Finish(swept).left.Some? {
        TracedStays(Finish(swept).left.value, earlier + begun, Finish(swept).events);
      }
    }
  }

  /** In a first pass a transaction is closed only if it was opened: for a dirty job whose process could be marked. */
  lemma FirstPassClosesWhatItOpened(m: Mgr, e: Event)
    requires InPhase(m) && m.shutting && !m.dirtied && e in Sweep(m).events && e.Closed?
    ensures exists i :: i in m.jobs && i.name == e.job.name && i.dirty && i.compliant && Began(m, i) in Sweep(m).events
  {
    hide Kept, Openings, Closings, Cleaned, InPhase;
    var swept := m.(jobs := Kept(m.jobs, false), dirtied := true);
    KeptMeans(m.jobs, false);
    OpeningsMean(m, m.jobs);
    ClosingsMean(swept, swept.jobs);
    assert e in Closings(swept, swept.jobs);
    var i :| i in m.jobs && e.job == Handled(i, false);
    assert Began(m, i) in Openings(m, m.jobs);
  }

  // ---------- What a pass waits for ----------

  /** An active job that holds the others' transactions open: one not dirty, or dirty but never marked so. */
  predicate IsAwaited(j: Job, dirtied: bool) {
    !j.anonymous && !j.monitor && (j.running || j.portsBusy) && !(j.dirty && (dirtied || j.compliant))
  }

  /**
   A pass over a manager's jobs goes on to close their transactions if and only if no
   active job is to be waited for: on the first pass neither one that is not dirty nor
   one whose process cannot be marked, later none that is not dirty.
   */
  lemma PassWaitsExactly(m: Mgr)
    requires m.shutting && !m.cleaned
    ensures (Sweep(m).left.Some? && !Sweep(m).left.value.cleaned) <==> exists j :: j in m.jobs && IsAwaited(j, m.dirtied)
    ensures (exists j :: j in m.jobs && IsAwaited(j, m.dirtied)) ==> forall e :: e in Sweep(m).events ==> e.Began?
  {
    hide Kept, Openings, Closings, Cleaned, OrdinaryActive, SweptActive, MonitorAt;
    var swept := m.(jobs := Kept(m.jobs, m.dirtied), dirtied := true);
    KeptMeans(m.jobs, m.dirtied);
    OrdinaryActiveMeans(swept.jobs);
    OpeningsMean(m, m.jobs);
    if j :| j in m.jobs && IsAwaited(j, m.dirtied) {
      assert Handled(j, m.dirtied) in swept.jobs;
    } else {
      forall j | j in swept.jobs && Swept(j) && Active(j) ensures j.dirty {
        var i :| i in m.jobs && j == Handled(i, m.dirtied);
        assert !IsAwaited(i, m.dirtied);
      }
    }
  }

  lemma FinishLeaves(m: Mgr, k: nat)
    requires k < |m.jobs| && m.jobs[k].anonymous && !m.jobs[k].monitor && Finish(m).left.Some?
    ensures k < |Finish(m).left.value.jobs| && Finish(m).left.value.jobs[k] == m.jobs[k]
  {
    hide Closings, Cleaned, SweptActive, MonitorAt;
    CleanedMeans(m.jobs);
    MonitorAtMeans(Done(m).jobs);
    assert Done(m).jobs[k] == m.jobs[k];
  }

  /** Anonymous processes are left as they are. */
  lemma AnonymousStay(m: Mgr, j: Job)
    requires m.shutting && j in m.jobs && j.anonymous && !j.monitor && Sweep(m).left.Some?
    ensures j in Sweep(m).left.value.jobs
  {
    hide Kept, Openings, Finish, OrdinaryActive;
    var swept := m.(jobs := Kept(m.jobs, m.dirtied), dirtied := true);
    KeptMeans(m.jobs, m.dirtied);
    assert Handled(j, m.dirtied) == j && j in swept.jobs;
    var k :| 0 <= k < |swept.jobs| && swept.jobs[k] == j;
    if OrdinaryActive(swept.jobs) == 0 {
      FinishLeaves(swept, k);
    }
  }

  /** The monitor is left as it is, or the pass is the one that stops it. */
  lemma MonitorStays(m: Mgr, j: Job)
    requires m.shutting && j in m.jobs && j.monitor && Sweep(m).left.Some?
    ensures j in Sweep(m).left.value.jobs || exists e :: e in Sweep(m).events && e.MonitorStopped? && e.job == j
  {
    hide Kept, Openings, Finish, OrdinaryActive;
    var swept := m.(jobs := Kept(m.jobs, m.dirtied), dirtied := true);
    KeptMeans(m.jobs, m.dirtied);
    assert Handled(j, m.dirtied) == j && j in swept.jobs;
    var k :| 0 <= k < |swept.jobs| && swept.jobs[k] == j;
    if OrdinaryActive(swept.jobs) == 0 {
      FinishSpares(swept, k);
    }
  }

  lemma FinishSpares(m: Mgr, k: nat)
    requires k < |m.jobs| && m.jobs[k].monitor && Finish(m).left.Some?
    ensures (k < |Finish(m).left.value.jobs| && Finish(m).left.value.jobs[k] == m.jobs[k])
            || MonitorStopped(Done(m), m.jobs[k]) in Finish(m).events
  {
    hide Closings, Cleaned, SweptActive, MonitorAt;
    CleanedMeans(m.jobs);
    MonitorAtMeans(Done(m).jobs);
    assert Done(m).jobs[k] == m.jobs[k];
  }

  // ---------- One pass over a tree ----------

  lemma {:induction false} PassTraced(m: Mgr, earlier: seq<Event>)
    requires Traced(m, earlier) && CleanMonitors(m)
    ensures Founded(earlier, Pass(m).events)
    ensures Pass(m).left.Some? ==> Traced(Pass(m).left.value, earlier + Pass(m).events)
    decreases m
  {
    hide HasOpening, Founded, Sweep;
    var (subs, events) := PassAll(m.subs);
    PassAllTraced(m.subs, earlier);
    var here := m.(subs := subs);
    assert Traced(here, earlier + events) by {
      OwnTraced(m, earlier, events);
    }
    if m.shutting {
      SweepTraced(here, earlier + events);
      FoundedTogether(earlier, events, Sweep(here).events);
      assert earlier + (events + Sweep(here).events) == (earlier + events) + Sweep(here).events;
    }
  }

  /** What is known of a manager's own jobs stays known. */
  lemma OwnTraced(m: Mgr, earlier: seq<Event>, more: seq<Event>)
    requires Traced(m, earlier)
    ensures forall subs: seq<Mgr> :: (forall s :: s in subs ==> Traced(s, earlier + more)) ==> Traced(m.(subs := subs), earlier + more)
  {
    hide HasOpening;
    forall j | m.dirtied && j in m.jobs && Swept(j) && j.dirty ensures HasOpening(earlier + more, m.name, j.name) {
      OpeningStays(earlier, more, m.name, j.name);
    }
  }

  lemma {:induction false} PassAllTraced(ms: seq<Mgr>, earlier: seq<Event>)
    requires forall s :: s in ms ==> Traced(s, earlier) && CleanMonitors(s)
    ensures Founded(earlier, PassAll(ms).1)
    ensures forall s :: s in PassAll(ms).0 ==> Traced(s, earlier + PassAll(ms).1)
    decreases ms
  {
    hide HasOpening, Founded, Traced, CleanMonitors;
    if ms == [] {
      NothingFounded(earlier, []);
    } else {
      var a, b := Pass(ms[0]).events, PassAll(ms[1..]).1;
      PassTraced(ms[0], earlier);
      forall s | s in ms[1..] ensures Traced(s, earlier + a) {
        TracedStays(s, earlier, a);
      }
      PassAllTraced(ms[1..], earlier + a);
      FoundedTogether(earlier, a, b);
      assert earlier + (a + b) == (earlier + a) + b;
      if Pass(ms[0]).left.Some? {
        TracedStays(Pass(ms[0]).left.value, earlier + a, b);
      }
    }
  }

  lemma {:induction false} PassAtTraced(m: Mgr, path: seq<nat>, earlier: seq<Event>)
    requires Traced(m, earlier) && CleanMonitors(m)
    ensures Founded(earlier, PassAt(m, path).events)
    ensures PassAt(m, path).left.Some? ==> Traced(PassAt(m, path).left.value, earlier + PassAt(m, path).events)
    decreases path
  {
    hide HasOpening, Founded, Pass;
    if path == [] {
      PassTraced(m, earlier);
    } else if path[0] >= |m.subs| {
      NothingFounded(earlier, []);
      assert earlier + [] == earlier;
    } else {
      var inner := PassAt(m.subs[path[0]], path[1..]);
      PassAtTraced(m.subs[path[0]], path[1..], earlier);
      OwnTraced(m, earlier, inner.events);
      forall s | s in m.subs ensures Traced(s, earlier + inner.events) {
        TracedStays(s, earlier, inner.events);
      }
    }
  }

  lemma {:induction false} DriftTraced(m: Mgr, m': Mgr, events: seq<Event>)
    requires Traced(m, events) && CleanMonitors(m) && Drifts(m, m')
    ensures Traced(m', events)
    decreases m'
  {
    hide HasOpening;
    forall s' | s' in m'.subs ensures Traced(s', events) {
      if !NewManager(s') {
        var s :| s in m.subs && Drifts(s, s');
        DriftTraced(s, s', events);
      }
    }
    forall j' | m'.dirtied && j' in m'.jobs && Swept(j') && j'.dirty ensures HasOpening(events, m'.name, j'.name) {
      var j :| j in m.jobs && Became(j, j');
      assert Swept(j) && j.dirty;
    }
  }

  // ---------- Runs ----------

  /** What happened in the first k steps. */
  function History(logs: seq<seq<Event>>, k: nat): seq<Event>
    requires k <= |logs|
  {
    if k == 0 then [] else History(logs, k - 1) + logs[k - 1]
  }

  lemma {:induction false} EveryRunTraced(trace: seq<Option<Mgr>>, steps: seq<Step>, logs: seq<seq<Event>>, k: nat)
    requires IsRun(trace, steps, logs) && MonitorsStayClean(trace) && k <= |steps|
    ensures trace[k].Some? ==> Traced(trace[k].value, History(logs, k))
    ensures k < |steps| ==> Founded(History(logs, k), logs[k])
  {
    hide Traced, Founded, Drifts, CleanMonitors, NewManager;
    if k == 0 {
      NewTraced(trace[0].value);
    } else {
      EveryRunTraced(trace, steps, logs, k - 1);
      StepTraced(trace, steps, logs, k - 1);
    }
    if k < |steps| {
      StepTraced(trace, steps, logs, k);
    }
  }

  lemma NewTraced(m: Mgr)
    requires NewManager(m)
    ensures Traced(m, [])
  {
  }

  lemma StepTraced(trace: seq<Option<Mgr>>, steps: seq<Step>, logs: seq<seq<Event>>, k: nat)
    requires IsRun(trace, steps, logs) && MonitorsStayClean(trace) && k < |steps|
    requires trace[k].Some? ==> Traced(trace[k].value, History(logs, k))
    ensures Founded(History(logs, k), logs[k])
    ensures trace[k + 1].Some? ==> Traced(trace[k + 1].value, History(logs, k + 1))
  {
    hide Traced, Founded, Drifts, CleanMonitors, NewManager, HasOpening;
    assert Next(trace[k], steps[k], trace[k + 1], logs[k]);
    match steps[k]
    case PassStep(path) => PassAtTraced(trace[k].value, path, History(logs, k));
    case DriftStep =>
      DriftTraced(trace[k].value, trace[k + 1].value, History(logs, k));
      NothingFounded(History(logs, k), []);
      assert History(logs, k) + [] == History(logs, k);
  }

  /**
   Over every run in which the monitor is not dirty at shutdown: a transaction is closed
   only after it was opened, for the same job of the same manager, whose process could
   be marked dirty.
   */
  lemma EveryClosedWasOpened(trace: seq<Option<Mgr>>, steps: seq<Step>, logs: seq<seq<Event>>, k: nat, y: nat)
    requires IsRun(trace, steps, logs) && MonitorsStayClean(trace) && k < |steps| && y < |logs[k]| && logs[k][y].Closed?
    ensures exists e :: e in History(logs, k) + logs[k][..y] && e.Began?
              && e.at.name == logs[k][y].at.name && e.job.name == logs[k][y].job.name && e.job.dirty && e.job.compliant
  {
    EveryRunTraced(trace, steps, logs, k);
    assert HasOpening(History(logs, k) + logs[k][..y], logs[k][y].at.name, logs[k][y].job.name);
  }
}
