/**
 The counters and indices agree with the jobs in every state a run reaches.
 */
module LifecycleSafety {
  import opened Lists
  import opened LifecycleSpec

  // ---------- Counters ----------

  lemma CreateCounts(s: State, j: JobId, m: MgrId)
    requires Counted(s) && j !in s.jobs
    ensures Counted(Create(s, j, m))
  {
    var s' := Create(s, j, m);
    assert Managed(s') == Managed(s) && Anonymous(s') == Anonymous(s) && Holders(s') == Holders(s);
    forall n ensures Normal(s', n) == |ManagedIn(s', n)| {
      assert ManagedIn(s', n) == ManagedIn(s, n);
    }
  }

  lemma StartCounts(s: State, j: JobId, p: nat)
    requires Counted(s) && j in s.jobs && !s.jobs[j].anonymous && s.jobs[j].p == 0 && p != 0
    ensures Counted(Start(s, j, p))
  {
    hide Managed, ManagedIn, Anonymous, Holders, Live, LiveManaged;
    var s' := Start(s, j, p);
    StartedSets(s, s', j, p);
    forall n ensures Normal(s', n) == |ManagedIn(s', n)| {
      assert ManagedIn(s', n) == ManagedIn(s, n) + if n == s.jobs[j].mgr then {j} else {};
    }
  }

  lemma StartedSets(s: State, s': State, j: JobId, p: nat)
    requires j in s.jobs && !s.jobs[j].anonymous && s.jobs[j].p == 0 && p != 0
    requires s'.jobs == s.jobs[j := s.jobs[j].(p := p)]
    ensures Managed(s') == Managed(s) + {j} && Anonymous(s') == Anonymous(s) && Holders(s') == Holders(s)
    ensures forall n :: ManagedIn(s', n) == ManagedIn(s, n) + if n == s.jobs[j].mgr then {j} else {}
    ensures j !in Managed(s) && forall n :: j !in ManagedIn(s, n)
  {
    forall n ensures ManagedIn(s', n) == ManagedIn(s, n) + if n == s.jobs[j].mgr then {j} else {} {
    }
  }

  lemma AdoptCounts(s: State, j: JobId, m: MgrId, p: nat)
    requires Counted(s) && j !in s.jobs && p != 0
    ensures Counted(Adopt(s, j, m, p))
  {
    hide Managed, ManagedIn, Anonymous, Holders, Live, LiveManaged;
    var s' := Adopt(s, j, m, p);
    AdoptedSets(s, s', j, m, p);
    forall n ensures Normal(s', n) == |ManagedIn(s', n)| {
      assert ManagedIn(s', n) == ManagedIn(s, n);
    }
  }

  lemma AdoptedSets(s: State, s': State, j: JobId, m: MgrId, p: nat)
    requires j !in s.jobs && p != 0 && s'.jobs == s.jobs[j := Job(m, true, p, false)]
    ensures Managed(s') == Managed(s) && Anonymous(s') == Anonymous(s) + {j} && Holders(s') == Holders(s)
    ensures j !in Anonymous(s) && forall n :: ManagedIn(s', n) == ManagedIn(s, n)
  {
    forall n ensures ManagedIn(s', n) == ManagedIn(s, n) {
    }
  }

  lemma HoldCounts(s: State, j: JobId)
    requires Counted(s) && j in s.jobs && s.jobs[j].p != 0
    ensures Counted(HoldRef(s, j))
  {
    var s' := HoldRef(s, j);
    if s' != s {
      assert Managed(s') == Managed(s) && Anonymous(s') == Anonymous(s) && Holders(s') == Holders(s) + {j};
      forall n ensures Normal(s', n) == |ManagedIn(s', n)| {
        assert ManagedIn(s', n) == ManagedIn(s, n);
      }
    }
  }

  lemma ReapCounts(s: State, j: JobId)
    requires Counted(s) && j in s.jobs && s.jobs[j].p != 0
    ensures Counted(Reap(s, j))
  {
    hide Without, Hash, Managed, ManagedIn, Anonymous, Holders, Live, LiveManaged, Reap;
    var s', job := Reap(s, j), s.jobs[j];
    ReapNumbers(s, j);
    ReapShape(s, j);
    ReapedSets(s, s', j);
    forall n ensures Normal(s', n) == |ManagedIn(s', n)| {
      assert ManagedIn(s', n) == ManagedIn(s, n) - {j};
    }
  }

  lemma ReapNumbers(s: State, j: JobId)
    requires j in s.jobs
    ensures
      var job, s' := s.jobs[j], Reap(s, j);
      var released := !job.anonymous || job.holdsRef;
      && s'.children == s.children - (if job.anonymous then 0 else 1)
      && s'.anons == s.anons - (if job.anonymous then 1 else 0)
      && s'.busy == s.busy - (if released then 1 else 0)
      && s'.timer == (s.timer || (released && !s.pid1 && s'.busy == 0)) && s'.pid1 == s.pid1
      && forall n :: Normal(s', n) == Normal(s, n) - if !job.anonymous && n == job.mgr then 1 else 0
  {
  }

  lemma ReapedSets(s: State, s': State, j: JobId)
    requires j in s.jobs && s.jobs[j].p != 0 && s'.jobs == s.jobs[j := s.jobs[j].(p := 0)]
    ensures Managed(s') == Managed(s) - {j} && Anonymous(s') == Anonymous(s) - {j} && Holders(s') == Holders(s) - {j}
    ensures forall n :: ManagedIn(s', n) == ManagedIn(s, n) - {j}
    ensures j in Managed(s) <==> !s.jobs[j].anonymous
    ensures j in Anonymous(s) <==> s.jobs[j].anonymous
    ensures j in Holders(s) <==> s.jobs[j].anonymous && s.jobs[j].holdsRef
    ensures forall n :: j in ManagedIn(s, n) <==> !s.jobs[j].anonymous && n == s.jobs[j].mgr
  {
    forall n ensures ManagedIn(s', n) == ManagedIn(s, n) - {j} {
    }
  }

  lemma ForgetCounts(s: State, j: JobId)
    requires Counted(s) && j in s.jobs && s.jobs[j].p == 0
    ensures Counted(s.(jobs := s.jobs - {j}))
  {
    var s' := s.(jobs := s.jobs - {j});
    assert Managed(s') == Managed(s) && Anonymous(s') == Anonymous(s) && Holders(s') == Holders(s);
    forall n ensures Normal(s', n) == |ManagedIn(s', n)| {
      assert ManagedIn(s', n) == ManagedIn(s, n);
    }
  }

  lemma NextCounts(s: State, e: Step, s': State)
    requires Counted(s) && Next(s, e, s')
    ensures Counted(s')
  {
    hide Counted, Start, Adopt, Create, HoldRef;
    match e
    case CreateStep(j, m) => CreateCounts(s, j, m);
    case StartStep(j, p) => StartCounts(s, j, p);
    case AdoptStep(j, m, p) => AdoptCounts(s, j, m, p);
    case HoldStep(j) => HoldCounts(s, j);
    case ReapStep(j) => ReapCounts(s, j);
    case RemoveStep(j) =>
      if s.jobs[j].p == 0 {
        ForgetCounts(s, j);
      } else if s.jobs[j].anonymous {
        ReapCounts(s, j);
        ForgetCounts(Reap(s, j), j);
      }
  }

  // ---------- Indices ----------

  lemma StartIndexes(s: State, j: JobId, p: nat)
    requires Indexed(s) && j in s.jobs && !s.jobs[j].anonymous && s.jobs[j].p == 0 && p != 0
    ensures Indexed(Start(s, j, p))
  {
    hide Hash, Distinct;
    var m, h, s' := s.jobs[j].mgr, Hash(p), Start(s, j, p);
    forall n, i ensures BucketHolds(s', n, i) {
      assert BucketHolds(s, n, i);
      if n == m && i == h {
        DistinctCons(j, Bucket(s, m, h));
      }
    }
    forall i ensures ManagedBucketHolds(s', i) {
      assert ManagedBucketHolds(s, i);
      if i == h {
        DistinctCons(j, ManagedBucket(s, h));
      }
    }
  }

  lemma AdoptIndexes(s: State, j: JobId, m: MgrId, p: nat)
    requires Indexed(s) && j !in s.jobs && p != 0
    ensures Indexed(Adopt(s, j, m, p))
  {
    hide Hash, Distinct;
    var h, s' := Hash(p), Adopt(s, j, m, p);
    forall n, i ensures BucketHolds(s', n, i) {
      assert BucketHolds(s, n, i);
      if n == m && i == h {
        DistinctCons(j, Bucket(s, m, h));
      }
    }
    forall i ensures ManagedBucketHolds(s', i) {
      assert ManagedBucketHolds(s, i);
    }
  }

  lemma ReapIndexes(s: State, j: JobId)
    requires Indexed(s) && j in s.jobs && s.jobs[j].p != 0
    ensures Indexed(Reap(s, j))
  {
    forall n, i ensures BucketHolds(Reap(s, j), n, i) {
      ReapBucket(s, j, n, i);
    }
    forall i ensures ManagedBucketHolds(Reap(s, j), i) {
      ReapManagedBucket(s, j, i);
    }
  }

  lemma ReapShape(s: State, j: JobId)
    requires j in s.jobs
    ensures
      var job, h, s' := s.jobs[j], Hash(s.jobs[j].p), Reap(s, j);
      && s'.jobs == s.jobs[j := job.(p := 0)]
      && s'.active == s.active[(job.mgr, h) := Without(Bucket(s, job.mgr, h), j)]
      && s'.managed == if job.anonymous then s.managed else s.managed[h := Without(ManagedBucket(s, h), j)]
  {
  }

  lemma ReapBucket(s: State, j: JobId, m: MgrId, h: nat)
    requires Indexed(s) && j in s.jobs && s.jobs[j].p != 0
    ensures BucketHolds(Reap(s, j), m, h)
  {
    hide Hash, Distinct, Reap;
    ReapShape(s, j);
    assert BucketHolds(s, m, h);
    WithoutMeans(Bucket(s, m, h), j);
  }

  lemma ReapManagedBucket(s: State, j: JobId, h: nat)
    requires Indexed(s) && j in s.jobs && s.jobs[j].p != 0
    ensures ManagedBucketHolds(Reap(s, j), h)
  {
    hide Hash, Distinct, Reap;
    ReapShape(s, j);
    assert ManagedBucketHolds(s, h);
    WithoutMeans(ManagedBucket(s, h), j);
  }

  /** Steps that change no process and no list. */
  lemma SameIndexes(s: State, s': State)
    requires Indexed(s) && s'.active == s.active && s'.managed == s.managed
    requires forall j :: Live(s', j) <==> Live(s, j)
    requires forall j :: j in s.jobs && j in s'.jobs ==> s'.jobs[j].(holdsRef := s.jobs[j].holdsRef) == s.jobs[j]
    ensures Indexed(s')
  {
    hide Hash, Distinct;
    forall n, i ensures BucketHolds(s', n, i) {
      assert BucketHolds(s, n, i);
    }
    forall i ensures ManagedBucketHolds(s', i) {
      assert ManagedBucketHolds(s, i);
    }
  }

  lemma NextIndexes(s: State, e: Step, s': State)
    requires Indexed(s) && Next(s, e, s')
    ensures Indexed(s')
  {
    hide Indexed, Hash, Start, Adopt;
    match e
    case CreateStep(j, m) => SameIndexes(s, s');
    case StartStep(j, p) => StartIndexes(s, j, p);
    case AdoptStep(j, m, p) => AdoptIndexes(s, j, m, p);
    case HoldStep(j) => SameIndexes(s, s');
    case ReapStep(j) => ReapIndexes(s, j);
    case RemoveStep(j) =>
      if s.jobs[j].p == 0 {
        SameIndexes(s, s');
      } else if s.jobs[j].anonymous {
        ReapIndexes(s, j);
        SameIndexes(Reap(s, j), s');
      }
  }

  /** In every state a run reaches, the counters and the indices agree with the jobs. */
  lemma {:induction false} EveryStateAgrees(trace: seq<State>, steps: seq<Step>, k: nat)
    requires IsRun(trace, steps) && k <= |steps|
    ensures Counted(trace[k]) && Indexed(trace[k])
  {
    if k == 0 {
      var s := trace[0];
      assert Managed(s) == {} && Anonymous(s) == {} && Holders(s) == {};
      forall m ensures Normal(s, m) == |ManagedIn(s, m)| {
        assert ManagedIn(s, m) == {};
      }
    } else {
      EveryStateAgrees(trace, steps, k - 1);
      assert Next(trace[k - 1], steps[k - 1], trace[k - 1 + 1]);
      NextCounts(trace[k - 1], steps[k - 1], trace[k]);
      NextIndexes(trace[k - 1], steps[k - 1], trace[k]);
    }
  }

  // ---------- What stays and what goes ----------

  /** Removing takes a job away unless it is managed and has a process, which stays as it was; other jobs are not touched. */
  lemma RemoveMeans(s: State, j: JobId)
    requires j in s.jobs
    ensures
      var s', job := Remove(s, j), s.jobs[j];
      && (j in s'.jobs <==> job.p != 0 && !job.anonymous) && (j in s'.jobs ==> s' == s)
      && (forall i :: i != j ==> (i in s'.jobs <==> i in s.jobs) && (i in s.jobs ==> s'.jobs[i] == s.jobs[i]))
  {
    hide Hash, Without;
  }

  /** Over any step a managed job with a process keeps it, unless its process is reaped. */
  lemma LiveManagedStays(s: State, e: Step, s': State, j: JobId)
    requires Next(s, e, s') && LiveManaged(s, j) && e != ReapStep(j)
    ensures j in s'.jobs && s'.jobs[j] == s.jobs[j]
  {
    hide Hash, Without;
  }

  /** An anonymous job takes one reference however often it makes subsets; a managed one takes none. */
  lemma HoldsOnce(s: State, j: JobId)
    requires j in s.jobs
    ensures
      var s' := HoldRef(s, j);
      && j in s'.jobs && HoldRef(s', j) == s'
      && s'.busy == s.busy + (if s.jobs[j].anonymous && !s.jobs[j].holdsRef then 1 else 0)
      && (s.jobs[j].anonymous ==> s'.jobs[j].holdsRef) && (!s.jobs[j].anonymous ==> s' == s)
  {
  }

  /** How one step moves the references and the timer. */
  lemma NextTimer(s: State, e: Step, s': State)
    requires Counted(s) && Counted(s') && Next(s, e, s')
    ensures s'.pid1 == s.pid1
    ensures s.busy > 0 ==> (s'.timer <==> !s.pid1 && s'.busy == 0)
    ensures s.busy == 0 ==> s'.busy >= 0 && (s'.timer <==> s.timer && s'.busy == 0)
  {
    hide Hash, Without, Counted, Bucket, ManagedBucket, Normal;
    assert s.timer ==> s.busy == 0 && !s.pid1 by { TimerIsIdle(s); }
    assert s'.timer ==> s'.busy == 0 && !s'.pid1 by { TimerIsIdle(s'); }
    assert s'.busy >= 0 && s.busy >= 0 by { TimerIsIdle(s); TimerIsIdle(s'); }
  }

  lemma TimerIsIdle(s: State)
    requires Counted(s)
    ensures s.timer ==> s.busy == 0 && !s.pid1
    ensures s.busy >= 0
  {
  }

  /**
   Over every run the idle-exit timer is armed exactly while nothing is busy but something
   has been, and never in PID 1.
   */
  lemma {:induction false} TimerExactly(trace: seq<State>, steps: seq<Step>, k: nat)
    requires IsRun(trace, steps) && k <= |steps|
    ensures trace[k].pid1 == trace[0].pid1
    ensures trace[k].timer <==> !trace[0].pid1 && trace[k].busy == 0 && exists j :: 0 <= j < k && trace[j].busy > 0
  {
    hide Counted, Next;
    EveryStateAgrees(trace, steps, k);
    if k > 0 {
      TimerExactly(trace, steps, k - 1);
      EveryStateAgrees(trace, steps, k - 1);
      TimerIsIdle(trace[k - 1]);
      assert Next(trace[k - 1], steps[k - 1], trace[k - 1 + 1]);
      NextTimer(trace[k - 1], steps[k - 1], trace[k]);
    }
  }
}
