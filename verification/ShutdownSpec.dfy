/**
 Shutting a tree of job managers down: one garbage-collection pass and what it does to
 jobs, as a function on the tree (src/core.c, jobmgr_do_garbage_collection).
 */
module ShutdownSpec {
  import opened Options

  /**
   A job, as far as shutdown looks at it.  `dirty` is dirty_at_shutdown; `compliant`
   says whether the kernel lets its process be marked dirty; `stopped` says that its
   process has been sent a signal to end.
   */
  datatype Job = Job(name: string, anonymous: bool, monitor: bool, dirty: bool, compliant: bool,
                     running: bool, portsBusy: bool, stopped: bool)

  /** A job manager; the root of PID 1 has `monitorShutdown`. */
  datatype Mgr = Mgr(name: string, shutting: bool, dirtied: bool, cleaned: bool, monitorShutdown: bool,
                     jobs: seq<Job>, subs: seq<Mgr>)

  /** What a pass does, with the manager as it then stands. */
  datatype Event =
    | Began(at: Mgr, job: Job)
    | Closed(at: Mgr, job: Job)
    | MonitorStopped(at: Mgr, job: Job)
    | Removed(at: Mgr)

  /** job_active */
  predicate Active(j: Job) {
    j.running || j.portsBusy
  }

  /** A job the pass deals with: neither an anonymous process nor the shutdown monitor. */
  predicate Swept(j: Job) {
    !j.anonymous && !j.monitor
  }

  // ---------- The first loop ----------

  /** A job after its shutdown transaction has been opened, if this is the first pass. */
  function Opened(j: Job, dirtied: bool): Job {
    if j.dirty && !dirtied && !j.compliant then j.(dirty := false) else j
  }

  /** job_stop */
  function Stopped(j: Job): Job {
    if j.running && !j.anonymous then j.(stopped := true) else j
  }

  /** A job after the loop has come to it. */
  function Handled(j: Job, dirtied: bool): Job {
    if Swept(j) then Stopped(Opened(j, dirtied)) else j
  }

  /** The jobs kept: inactive ones are removed, the others are told to stop. */
  function Kept(jobs: seq<Job>, dirtied: bool): seq<Job> {
    if jobs == [] then []
    else
      var n := |jobs| - 1;
      var j := Handled(jobs[n], dirtied);
      Kept(jobs[..n], dirtied) + if Swept(j) && !Active(j) then [] else [j]
  }

  /** The transactions opened on the first pass, in order. */
  function Openings(at: Mgr, jobs: seq<Job>): seq<Event> {
    if jobs == [] then []
    else
      var n := |jobs| - 1;
      Openings(at, jobs[..n]) + if Swept(jobs[n]) && jobs[n].dirty && jobs[n].compliant then [Began(at, jobs[n])] else []
  }

  /** How many of the jobs are active and not held back as dirty. */
  function OrdinaryActive(jobs: seq<Job>): nat {
    if jobs == [] then 0
    else
      var n := |jobs| - 1;
      OrdinaryActive(jobs[..n]) + if Swept(jobs[n]) && Active(jobs[n]) && !jobs[n].dirty then 1 else 0
  }

  // ---------- The second loop ----------

  function Closing(j: Job): Job {
    if Swept(j) && Active(j) then j.(dirty := false) else j
  }

  function Cleaned(jobs: seq<Job>): seq<Job> {
    if jobs == [] then []
    else
      var n := |jobs| - 1;
      Cleaned(jobs[..n]) + [Closing(jobs[n])]
  }

  function SweptActive(jobs: seq<Job>): nat {
    if jobs == [] then 0
    else
      var n := |jobs| - 1;
      SweptActive(jobs[..n]) + if Swept(jobs[n]) && Active(jobs[n]) then 1 else 0
  }

  /** The transactions closed, in order. */
  function Closings(at: Mgr, jobs: seq<Job>): seq<Event> {
    if jobs == [] then []
    else
      var n := |jobs| - 1;
      Closings(at, jobs[..n]) + if Swept(jobs[n]) && Active(jobs[n]) && jobs[n].dirty then [Closed(at, jobs[n])] else []
  }

  // ---------- The shutdown monitor ----------

  /** The job the monitor pointer leads to, if it is in this manager. */
  function MonitorAt(jobs: seq<Job>): Option<nat> {
    if jobs == [] then None
    else
      var n := |jobs| - 1;
      match MonitorAt(jobs[..n])
      case Some(k) => Some(k)
      case None => if jobs[n].monitor then Some(n) else None
  }

  lemma {:induction false} MonitorAtMeans(jobs: seq<Job>)
    ensures MonitorAt(jobs).Some? ==> MonitorAt(jobs).value < |jobs| && jobs[MonitorAt(jobs).value].monitor
    ensures MonitorAt(jobs).None? <==> forall k :: 0 <= k < |jobs| ==> !jobs[k].monitor
  {
    if jobs != [] {
      var n := |jobs| - 1;
      MonitorAtMeans(jobs[..n]);
      assert forall k :: 0 <= k < n ==> jobs[..n][k] == jobs[k];
    }
  }

  // ---------- One pass ----------

  /** A manager once its submanagers have been passed over, and what happened. */
  datatype Outcome = Outcome(left: Option<Mgr>, events: seq<Event>)

  /** The end of a pass, when no ordinary job is active. */
  function Finish(m: Mgr): Outcome {
    var busy := if m.cleaned then 0 else SweptActive(m.jobs);
    var done := if m.cleaned then m else m.(jobs := Cleaned(m.jobs), cleaned := true);
    var events := if m.cleaned then [] else Closings(m, m.jobs);
    if m.subs != [] || busy > 0 then Outcome(Some(done), events)
    else
      match if m.monitorShutdown then MonitorAt(done.jobs) else None
      case None => Outcome(None, events + [Removed(done)])
      case Some(k) =>
        MonitorAtMeans(done.jobs);
        var stopped := done.jobs[k := Stopped(done.jobs[k].(monitor := false))];
        Outcome(Some(done.(jobs := stopped)), events + [MonitorStopped(done, done.jobs[k])])
  }

  function Sweep(m: Mgr): Outcome {
    var swept := m.(jobs := Kept(m.jobs, m.dirtied), dirtied := true);
    var begun := if m.dirtied then [] else Openings(m, m.jobs);
    var finished := if OrdinaryActive(swept.jobs) > 0 then Outcome(Some(swept), []) else Finish(swept);
    finished.(events := begun + finished.events)
  }

  /** jobmgr_do_garbage_collection */
  function Pass(m: Mgr): Outcome
    decreases m
  {
    var (subs, events) := PassAll(m.subs);
    if !m.shutting then Outcome(Some(m.(subs := subs)), events)
    else
      var swept := Sweep(m.(subs := subs));
      swept.(events := events + swept.events)
  }

  /** The submanagers left, and what happened in them. */
  function PassAll(ms: seq<Mgr>): (seq<Mgr>, seq<Event>)
    decreases ms
  {
    if ms == [] then ([], [])
    else
      var first, (rest, events) := Pass(ms[0]), PassAll(ms[1..]);
      ((if first.left.Some? then [first.left.value] else []) + rest, first.events + events)
  }
}
