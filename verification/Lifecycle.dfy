/**
 launchd's own bookkeeping as its fields change: runtime references, job_start's parent
 side, job_new_anonymous, job_reap, job_remove, and the lookup by process.
 */
module Lifecycle {
  import opened Lists
  import opened Options
  import opened LifecycleSpec
  import opened LifecycleSafety
  import opened LifecycleLookup

  class Launchd {
    var jobs: map<JobId, Job>
    var active: map<(MgrId, nat), seq<JobId>>
    var managed: map<nat, seq<JobId>>
    var children: int
    var anons: int
    var normal: map<MgrId, int>
    var busy: int
    var timer: bool
    const pid1: bool

    function View(): State
      reads this
    {
      State(jobs, active, managed, children, anons, normal, busy, timer, pid1)
    }

    /** Counters and indices agree with the jobs, and the two kinds of bucket with each other. */
    ghost predicate Valid()
      reads this
    {
      Agrees(View())
    }

    constructor (pid1: bool)
      ensures Init(View()) && this.pid1 == pid1 && Valid()
    {
      this.pid1 := pid1;
      jobs, active, managed, normal := map[], map[], map[], map[];
      children, anons, busy, timer := 0, 0, 0, false;
      new;
      EveryStateAgrees([View()], [], 0);
      EveryStateOrdered([View()], [], 0);
    }

    method RuntimeAddRef()
      modifies `busy, `timer
      ensures View() == AddRef(old(View()))
    {
      busy := busy + 1;
      if !pid1 && busy > 0 {
        timer := false;
      }
    }

    method RuntimeDelRef()
      modifies `busy, `timer
      ensures View() == DelRef(old(View()))
    {
      busy := busy - 1;
      if !pid1 && busy == 0 {
        timer := true;
      }
    }

    /** A job is made known. */
    method JobNew(j: JobId, m: MgrId)
      modifies `jobs
      ensures View() == Create(old(View()), j, m)
      ensures old(Valid()) && j !in old(jobs) ==> Valid()
    {
      ghost var before := View();
      jobs := jobs[j := Job(m, false, 0, false)];
      Kept(before, CreateStep(j, m), View());
    }

    method JobStarted(j: JobId, p: nat)
      requires j in jobs
      modifies this
      ensures View() == Start(old(View()), j, p)
      ensures old(Valid()) && !old(jobs[j]).anonymous && old(jobs[j]).p == 0 && p != 0 ==> Valid()
    {
      ghost var before := View();
      var job := jobs[j];
      RuntimeAddRef();
      children := children + 1;
      active := active[(job.mgr, Hash(p)) := [j] + Bucket(View(), job.mgr, Hash(p))];
      managed := managed[Hash(p) := [j] + ManagedBucket(View(), Hash(p))];
      jobs := jobs[j := job.(p := p)];
      normal := normal[job.mgr := Normal(View(), job.mgr) + 1];
      Kept(before, StartStep(j, p), View());
    }

    method JobNewAnonymous(j: JobId, m: MgrId, p: nat)
      modifies this
      ensures View() == Adopt(old(View()), j, m, p)
      ensures old(Valid()) && j !in old(jobs) && p != 0 ==> Valid()
    {
      ghost var before := View();
      anons := anons + 1;
      active := active[(m, Hash(p)) := [j] + Bucket(View(), m, Hash(p))];
      jobs := jobs[j := Job(m, true, p, false)];
      Kept(before, AdoptStep(j, m, p), View());
    }

    /** An anonymous job that makes a subset keeps launchd from idling out, once. */
    method JobHoldRef(j: JobId)
      requires j in jobs
      modifies this
      ensures View() == HoldRef(old(View()), j)
      ensures old(Valid()) && old(jobs[j]).p != 0 ==> Valid()
    {
      ghost var before := View();
      if jobs[j].anonymous && !jobs[j].holdsRef {
        RuntimeAddRef();
        jobs := jobs[j := jobs[j].(holdsRef := true)];
      }
      Kept(before, HoldStep(j), View());
    }

    method JobReap(j: JobId)
      requires j in jobs
      modifies this
      ensures View() == Reap(old(View()), j)
      ensures old(Valid()) && old(jobs[j]).p != 0 ==> Valid()
    {
      hide Hash, Without, Agrees, Reap, Bucket, ManagedBucket, Normal;
      ghost var before := View();
      var job := jobs[j];
      var here, all, others := Bucket(View(), job.mgr, Hash(job.p)), ManagedBucket(View(), Hash(job.p)), Normal(View(), job.mgr);
      active := active[(job.mgr, Hash(job.p)) := Without(here, j)];
      if !job.anonymous {
        managed := managed[Hash(job.p) := Without(all, j)];
        normal := normal[job.mgr := others - 1];
      }
      if job.anonymous {
        anons := anons - 1;
        if job.holdsRef {
          RuntimeDelRef();
        }
      } else {
        RuntimeDelRef();
        children := children - 1;
      }
      jobs := jobs[j := job.(p := 0)];
      ReapParts(before, j, View());
      Reaped(before, j, View());
    }

    method JobRemove(j: JobId)
      requires j in jobs
      modifies this
      ensures View() == Remove(old(View()), j)
      ensures old(Valid()) ==> Valid()
    {
      ghost var before := View();
      if jobs[j].p != 0 {
        if !jobs[j].anonymous {
          return;
        }
        JobReap(j);
      }
      jobs := jobs - {j};
      Kept(before, RemoveStep(j), View());
    }

    /** managed_job: along the manager's links from the head of the global bucket. */
    method ManagedJob(p: nat) returns (found: Option<JobId>)
      ensures found == FindManaged(View(), p)
    {
      var s := View();
      var head := Head(s, Hash(p));
      if head.None? || head.value !in jobs {
        return None;
      }
      var q := From(Bucket(s, jobs[head.value].mgr, Hash(p)), head.value);
      var k := 0;
      while k < |q|
        invariant k <= |q| && FirstWithPid(s, q, p) == FirstWithPid(s, q[k..], p)
      {
        if q[k] in jobs && jobs[q[k]].p == p {
          return Some(q[k]);
        }
        assert q[k..][1..] == q[k + 1..];
        k := k + 1;
      }
      return None;
    }
  }

  ghost predicate Agrees(s: State) {
    Counted(s) && Indexed(s) && Ordered(s)
  }

  lemma Kept(s: State, e: Step, s': State)
    ensures Agrees(s) && Next(s, e, s') ==> Agrees(s')
  {
    hide Counted, Indexed, Ordered, Next;
    if Agrees(s) && Next(s, e, s') {
      NextCounts(s, e, s');
      NextIndexes(s, e, s');
      NextOrders(s, e, s');
    }
  }

  /** The state after a reaping, field by field. */
  lemma ReapParts(s: State, j: JobId, s': State)
    requires j in s.jobs
    requires
      var job, h := s.jobs[j], Hash(s.jobs[j].p);
      var released := !job.anonymous || job.holdsRef;
      && s'.jobs == s.jobs[j := job.(p := 0)]
      && s'.active == s.active[(job.mgr, h) := Without(Bucket(s, job.mgr, h), j)]
      && s'.managed == (if job.anonymous then s.managed else s.managed[h := Without(ManagedBucket(s, h), j)])
      && s'.children == s.children - (if job.anonymous then 0 else 1)
      && s'.anons == s.anons - (if job.anonymous then 1 else 0)
      && s'.busy == s.busy - (if released then 1 else 0)
      && s'.timer == (s.timer || (released && !s.pid1 && s'.busy == 0)) && s'.pid1 == s.pid1
      && s'.normal == (if job.anonymous then s.normal else s.normal[job.mgr := Normal(s, job.mgr) - 1])
    ensures s' == Reap(s, j)
  {
  }

  lemma Reaped(s: State, j: JobId, s': State)
    requires j in s.jobs && s' == Reap(s, j)
    ensures Agrees(s) && s.jobs[j].p != 0 ==> Agrees(s')
  {
    hide Counted, Indexed, Ordered, Reap;
    if Agrees(s) && s.jobs[j].p != 0 {
      ReapCounts(s, j);
      ReapIndexes(s, j);
      ReapOrders(s, j);
    }
  }
}
