/**
 jobmgr_do_garbage_collection as it loops over submanagers and jobs.
 */
module ShutdownPass {
  import opened Lists
  import opened Options
  import opened ShutdownSpec

  lemma KeptStep(jobs: seq<Job>, dirtied: bool, k: nat)
    requires k < |jobs|
    ensures var j := Handled(jobs[k], dirtied);
            Kept(jobs[..k + 1], dirtied) == Kept(jobs[..k], dirtied) + if Swept(j) && !Active(j) then [] else [j]
  {
    assert jobs[..k + 1][..k] == jobs[..k];
  }

  lemma OpeningsStep(at: Mgr, jobs: seq<Job>, k: nat)
    requires k < |jobs|
    ensures Openings(at, jobs[..k + 1]) ==
            Openings(at, jobs[..k]) + if Swept(jobs[k]) && jobs[k].dirty && jobs[k].compliant then [Began(at, jobs[k])] else []
  {
    assert jobs[..k + 1][..k] == jobs[..k];
  }

  lemma OrdinaryStep(kept: seq<Job>, j: Job)
    ensures OrdinaryActive(kept + [j]) == OrdinaryActive(kept) + if Swept(j) && Active(j) && !j.dirty then 1 else 0
  {
    assert (kept + [j])[..|kept|] == kept;
  }

  /** The first loop: opens transactions, removes inactive jobs, stops active ones and counts them. */
  method SweepJobs(at: Mgr) returns (kept: seq<Job>, actives: nat, events: seq<Event>)
    ensures kept == Kept(at.jobs, at.dirtied) && actives == OrdinaryActive(kept)
    ensures events == if at.dirtied then [] else Openings(at, at.jobs)
  {
    hide Kept, OrdinaryActive, Openings;
    var jobs, dirtied := at.jobs, at.dirtied;
    kept, actives, events := [], 0, [];
    NothingKept(at);
    for k := 0 to |jobs|
      invariant kept == Kept(jobs[..k], dirtied) && actives == OrdinaryActive(kept)
      invariant events == if dirtied then [] else Openings(at, jobs[..k])
    {
      var j := jobs[k];
      KeptStep(jobs, dirtied, k);
      OpeningsStep(at, jobs, k);
      if j.anonymous || j.monitor {
        OrdinaryStep(kept, j);
        kept := kept + [j];
        continue;
      }
      if j.dirty && !dirtied {
        if j.compliant {
          events := events + [Began(at, j)];
        } else {
          j := j.(dirty := false);
        }
      }
      if Active(j) {
        j := Stopped(j);
        OrdinaryStep(kept, j);
        kept := kept + [j];
        if !j.dirty {
          actives := actives + 1;
        }
      }
    }
    assert jobs[..|jobs|] == jobs;
  }

  lemma NothingKept(at: Mgr)
    ensures Kept([], at.dirtied) == [] && OrdinaryActive([]) == 0 && Openings(at, []) == []
  {
  }

  /** The second loop: closes the transactions of the jobs still active. */
  method CleanJobs(at: Mgr) returns (jobs: seq<Job>, actives: nat, events: seq<Event>)
    ensures jobs == Cleaned(at.jobs) && actives == SweptActive(at.jobs) && events == Closings(at, at.jobs)
  {
    jobs, actives, events := [], 0, [];
    for k := 0 to |at.jobs|
      invariant jobs == Cleaned(at.jobs[..k]) && actives == SweptActive(at.jobs[..k]) && events == Closings(at, at.jobs[..k])
    {
      var j := at.jobs[k];
      assert at.jobs[..k + 1][..k] == at.jobs[..k];
      if j.anonymous || !Active(j) || j.monitor {
        jobs := jobs + [j];
        continue;
      }
      if j.dirty {
        events := events + [Closed(at, j)];
        j := j.(dirty := false);
      }
      jobs, actives := jobs + [j], actives + 1;
    }
    assert at.jobs[..|at.jobs|] == at.jobs;
  }

  /** The job that the shutdown monitor pointer leads to. */
  method FindMonitor(jobs: seq<Job>) returns (k: Option<nat>)
    ensures k == MonitorAt(jobs)
  {
    for i := 0 to |jobs|
      invariant MonitorAt(jobs[..i]) == None
    {
      assert jobs[..i + 1][..i] == jobs[..i];
      if jobs[i].monitor {
        MonitorAtFirst(jobs, i);
        return Some(i);
      }
    }
    assert jobs[..|jobs|] == jobs;
    return None;
  }

  lemma {:induction false} MonitorAtFirst(jobs: seq<Job>, i: nat)
    requires i < |jobs| && MonitorAt(jobs[..i]) == None && jobs[i].monitor
    ensures MonitorAt(jobs) == Some(i)
  {
    var n := |jobs| - 1;
    if i < n {
      assert jobs[..n][..i] == jobs[..i];
      MonitorAtFirst(jobs[..n], i);
    }
  }

  /** The loop over the submanagers. */
  method CollectSubmanagers(ms: seq<Mgr>) returns (left: seq<Mgr>, events: seq<Event>)
    ensures (left, events) == PassAll(ms)
    decreases ms
  {
    left, events := [], [];
    assert ms[0..] == ms;
    for k := 0 to |ms|
      invariant PassAll(ms).0 == left + PassAll(ms[k..]).0
      invariant PassAll(ms).1 == events + PassAll(ms[k..]).1
    {
      PassAllStep(ms[k..]);
      var sub, happened := CollectGarbage(ms[k]);
      var kept := if sub.Some? then [sub.value] else [];
      Assoc(left, kept, PassAll(ms[k..][1..]).0);
      Assoc(events, happened, PassAll(ms[k..][1..]).1);
      assert ms[k..][1..] == ms[k + 1..];
      left, events := left + kept, events + happened;
    }
    assert ms[|ms|..] == [] && left + [] == left && events + [] == events;
  }

  /** The rest of a pass, over the manager's own jobs. */
  method SweepManager(m: Mgr) returns (left: Option<Mgr>, events: seq<Event>)
    ensures Outcome(left, events) == Sweep(m)
  {
    hide Kept, OrdinaryActive, Cleaned, SweptActive, Closings, MonitorAt, Openings;
    var jobs, actives, begun := SweepJobs(m);
    events := begun;
    var here := m.(jobs := jobs, dirtied := true);
    if actives == 0 {
      if !here.cleaned {
        var closed;
        jobs, actives, closed := CleanJobs(here);
        events := events + closed;
        here := here.(jobs := jobs, cleaned := true);
      }
      if here.subs == [] && actives == 0 {
        var monitor := None;
        if m.monitorShutdown {
          monitor := FindMonitor(here.jobs);
        }
        MonitorAtMeans(here.jobs);
        if monitor.Some? {
          var k := monitor.value;
          events := events + [MonitorStopped(here, here.jobs[k])];
          here := here.(jobs := here.jobs[k := Stopped(here.jobs[k].(monitor := false))]);
        } else {
          return None, events + [Removed(here)];
        }
      }
    }
    return Some(here), events;
  }

  /** jobmgr_do_garbage_collection: the manager as it is left, if it is. */
  method CollectGarbage(m: Mgr) returns (left: Option<Mgr>, events: seq<Event>)
    ensures Outcome(left, events) == Pass(m)
    decreases m
  {
    hide Sweep;
    var subs;
    subs, events := CollectSubmanagers(m.subs);
    var here := m.(subs := subs);
    if !m.shutting {
      return Some(here), events;
    }
    var happened;
    left, happened := SweepManager(here);
    events := events + happened;
  }

  lemma PassAllStep(ms: seq<Mgr>)
    requires ms != []
    ensures PassAll(ms) ==
            ((if Pass(ms[0]).left.Some? then [Pass(ms[0]).left.value] else []) + PassAll(ms[1..]).0,
             Pass(ms[0]).events + PassAll(ms[1..]).1)
  {
  }
}
