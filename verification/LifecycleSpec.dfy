/**
 Jobs starting and exiting, and the counters and indices launchd keeps of them
 (src/core.c, src/runtime.c).
 */
module LifecycleSpec {
  import opened Lists

  type JobId = nat
  type MgrId = nat

  /** A job: its manager, whether it is anonymous, its process or 0, and whether it holds a reference. */
  datatype Job = Job(mgr: MgrId, anonymous: bool, p: nat, holdsRef: bool)

  /**
   `active` are the managers' pid buckets, `managed` the global ones; lists are in
   order.  `timer` says whether the idle-exit timer is armed.
   */
  datatype State = State(
    jobs: map<JobId, Job>,
    active: map<(MgrId, nat), seq<JobId>>,
    managed: map<nat, seq<JobId>>,
    children: int,
    anons: int,
    normal: map<MgrId, int>,
    busy: int,
    timer: bool,
    pid1: bool)

  const BUCKETS: nat := 32

  function Hash(p: nat): nat {
    p % BUCKETS
  }

  function Bucket(s: State, m: MgrId, h: nat): seq<JobId> {
    if (m, h) in s.active then s.active[(m, h)] else []
  }

  function ManagedBucket(s: State, h: nat): seq<JobId> {
    if h in s.managed then s.managed[h] else []
  }

  function Normal(s: State, m: MgrId): int {
    if m in s.normal then s.normal[m] else 0
  }

  // ---------- Steps ----------

  /** runtime_add_ref */
  function AddRef(s: State): State {
    s.(busy := s.busy + 1, timer := s.timer && (s.pid1 || s.busy + 1 <= 0))
  }

  /** runtime_del_ref */
  function DelRef(s: State): State {
    s.(busy := s.busy - 1, timer := s.timer || (!s.pid1 && s.busy - 1 == 0))
  }

  /** A job is made known, with no process yet. */
  function Create(s: State, j: JobId, m: MgrId): State {
    s.(jobs := s.jobs[j := Job(m, false, 0, false)])
  }

  /** The parent's side of a successful fork in job_start. */
  function Start(s: State, j: JobId, p: nat): State
    requires j in s.jobs
  {
    var job, s := s.jobs[j], AddRef(s);
    s.(children := s.children + 1,
       active := s.active[(job.mgr, Hash(p)) := [j] + Bucket(s, job.mgr, Hash(p))],
       managed := s.managed[Hash(p) := [j] + ManagedBucket(s, Hash(p))],
       normal := s.normal[job.mgr := Normal(s, job.mgr) + 1],
       jobs := s.jobs[j := job.(p := p)])
  }

  /** job_new_anonymous */
  function Adopt(s: State, j: JobId, m: MgrId, p: nat): State {
    s.(anons := s.anons + 1,
       active := s.active[(m, Hash(p)) := [j] + Bucket(s, m, Hash(p))],
       jobs := s.jobs[j := Job(m, true, p, false)])
  }

  /** An anonymous job that creates a subset keeps launchd from idling out. */
  function HoldRef(s: State, j: JobId): State
    requires j in s.jobs
  {
    if s.jobs[j].anonymous && !s.jobs[j].holdsRef
    then AddRef(s).(jobs := s.jobs[j := s.jobs[j].(holdsRef := true)])
    else s
  }

  /** job_reap */
  function Reap(s: State, j: JobId): State
    requires j in s.jobs
  {
    var job, h := s.jobs[j], Hash(s.jobs[j].p);
    var s := s.(active := s.active[(job.mgr, h) := Without(Bucket(s, job.mgr, h), j)],
                managed := if job.anonymous then s.managed else s.managed[h := Without(ManagedBucket(s, h), j)]);
    var s :=
      if job.anonymous then (if job.holdsRef then DelRef(s) else s).(anons := s.anons - 1)
      else DelRef(s).(children := s.children - 1, normal := s.normal[job.mgr := Normal(s, job.mgr) - 1]);
    s.(jobs := s.jobs[j := job.(p := 0)])
  }

  /** job_remove: a managed job with a process stays until it exits. */
  function Remove(s: State, j: JobId): State
    requires j in s.jobs
  {
    if s.jobs[j].p != 0 && !s.jobs[j].anonymous then s
    else
      var s := if s.jobs[j].p != 0 then Reap(s, j) else s;
      s.(jobs := s.jobs - {j})
  }

  datatype Step =
    | CreateStep(j: JobId, m: MgrId)
    | StartStep(j: JobId, p: nat)
    | AdoptStep(j: JobId, m: MgrId, p: nat)
    | HoldStep(j: JobId)
    | ReapStep(j: JobId)
    | RemoveStep(j: JobId)

  /** A managed job is started while it has no process, and reaped while it has one; an anonymous one goes when it exits. */
  ghost predicate Next(s: State, e: Step, s': State) {
    match e
    case CreateStep(j, m) => j !in s.jobs && s' == Create(s, j, m)
    case StartStep(j, p) => j in s.jobs && !s.jobs[j].anonymous && s.jobs[j].p == 0 && p != 0 && s' == Start(s, j, p)
    case AdoptStep(j, m, p) => j !in s.jobs && p != 0 && s' == Adopt(s, j, m, p)
    case HoldStep(j) => j in s.jobs && s.jobs[j].p != 0 && s' == HoldRef(s, j)
    case ReapStep(j) => j in s.jobs && !s.jobs[j].anonymous && s.jobs[j].p != 0 && s' == Reap(s, j)
    case RemoveStep(j) => j in s.jobs && s' == Remove(s, j)
  }

  // ---------- Consistency ----------

  predicate Live(s: State, j: JobId) {
    j in s.jobs && s.jobs[j].p != 0
  }

  predicate LiveManaged(s: State, j: JobId) {
    Live(s, j) && !s.jobs[j].anonymous
  }

  function Managed(s: State): set<JobId> {
    set j | j in s.jobs && LiveManaged(s, j)
  }

  function ManagedIn(s: State, m: MgrId): set<JobId> {
    set j | j in s.jobs && LiveManaged(s, j) && s.jobs[j].mgr == m
  }

  function Anonymous(s: State): set<JobId> {
    set j | j in s.jobs && Live(s, j) && s.jobs[j].anonymous
  }

  function Holders(s: State): set<JobId> {
    set j | j in s.jobs && Live(s, j) && s.jobs[j].anonymous && s.jobs[j].holdsRef
  }

  /** The counters say how many live jobs there are of each kind; the timer is armed only when nothing is busy. */
  ghost predicate Counted(s: State) {
    && s.children == |Managed(s)|
    && s.anons == |Anonymous(s)|
    && (forall m :: Normal(s, m) == |ManagedIn(s, m)|)
    && s.busy == |Managed(s)| + |Holders(s)|
    && (s.timer ==> s.busy == 0 && !s.pid1)
  }

  ghost predicate BucketHolds(s: State, m: MgrId, h: nat) {
    && Distinct(Bucket(s, m, h))
    && forall j :: j in Bucket(s, m, h) <==> Live(s, j) && s.jobs[j].mgr == m && Hash(s.jobs[j].p) == h
  }

  ghost predicate ManagedBucketHolds(s: State, h: nat) {
    && Distinct(ManagedBucket(s, h))
    && forall j :: j in ManagedBucket(s, h) <==> LiveManaged(s, j) && Hash(s.jobs[j].p) == h
  }

  /** Each live job is once in its manager's bucket for its process, and once in the global one if managed; nothing else is. */
  ghost predicate Indexed(s: State) {
    (forall m, h :: BucketHolds(s, m, h)) && (forall h :: ManagedBucketHolds(s, h))
  }

  ghost predicate Init(s: State) {
    s == State(map[], map[], map[], 0, 0, map[], 0, false, s.pid1)
  }

  ghost predicate IsRun(trace: seq<State>, steps: seq<Step>) {
    && |trace| == |steps| + 1 && Init(trace[0])
    && forall k :: 0 <= k < |steps| ==> Next(trace[k], steps[k], trace[k + 1])
  }
}
