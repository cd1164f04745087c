/**
 managed_job (src/core.c), which starts at the head of a global bucket and then follows
 the links of the manager's bucket: when it finds a job, and when it misses one.
 */
module LifecycleLookup {
  import opened Lists
  import opened Options
  import opened LifecycleSpec
  import opened LifecycleSafety

  function From(q: seq<JobId>, j: JobId): seq<JobId> {
    if q == [] || q[0] == j then q else From(q[1..], j)
  }

  function FirstWithPid(s: State, q: seq<JobId>, p: nat): Option<JobId> {
    if q == [] then None
    else if q[0] in s.jobs && s.jobs[q[0]].p == p then Some(q[0])
    else FirstWithPid(s, q[1..], p)
  }

  /** The job the global bucket starts with: the one started last of those alive in it. */
  function Head(s: State, h: nat): Option<JobId> {
    var q := ManagedBucket(s, h);
    if q == [] || q[0] !in s.jobs then None else Some(q[0])
  }

  function FindManaged(s: State, p: nat): Option<JobId> {
    match Head(s, Hash(p))
    case None => None
    case Some(head) =>
      if head !in s.jobs then None
      else FirstWithPid(s, From(Bucket(s, s.jobs[head].mgr, Hash(p)), head), p)
  }

  // ---------- The two orders agree ----------

  function OnlyManaged(s: State, q: seq<JobId>): seq<JobId> {
    if q == [] then []
    else (if q[0] in s.jobs && !s.jobs[q[0]].anonymous then [q[0]] else []) + OnlyManaged(s, q[1..])
  }

  function OnlyIn(s: State, q: seq<JobId>, m: MgrId): seq<JobId> {
    if q == [] then []
    else (if q[0] in s.jobs && s.jobs[q[0]].mgr == m then [q[0]] else []) + OnlyIn(s, q[1..], m)
  }

  ghost predicate BucketOrdered(s: State, m: MgrId, h: nat) {
    OnlyManaged(s, Bucket(s, m, h)) == OnlyIn(s, ManagedBucket(s, h), m)
  }

  /** A manager's bucket holds its managed jobs in the order of the global bucket. */
  ghost predicate Ordered(s: State) {
    forall m, h :: BucketOrdered(s, m, h)
  }

  /** Two states that agree on what kind the listed jobs are. */
  ghost predicate SameKinds(s: State, s': State, q: seq<JobId>) {
    forall j :: j in q ==> j in s.jobs && j in s'.jobs && s'.jobs[j].anonymous == s.jobs[j].anonymous && s'.jobs[j].mgr == s.jobs[j].mgr
  }

  lemma {:induction false} SameOnly(s: State, s': State, q: seq<JobId>, m: MgrId)
    requires SameKinds(s, s', q)
    ensures OnlyManaged(s', q) == OnlyManaged(s, q) && OnlyIn(s', q, m) == OnlyIn(s, q, m)
  {
    if q != [] {
      assert q == [q[0]] + q[1..];
      SameOnly(s, s', q[1..], m);
    }
  }

  lemma {:induction false} OnlyWithout(s: State, q: seq<JobId>, j: JobId, m: MgrId)
    requires Distinct(q)
    ensures OnlyManaged(s, Without(q, j)) == Without(OnlyManaged(s, q), j)
    ensures OnlyIn(s, Without(q, j), m) == Without(OnlyIn(s, q, m), j)
  {
    if q != [] {
      assert q == [q[0]] + q[1..];
      OnlyWithout(s, q[1..], j, m);
      OnlyMembers(s, q[1..], m);
      OnlyStep(s, q, m);
      if q[0] == j {
        assert j !in q[1..];
        WithoutAbsent(OnlyManaged(s, q[1..]), j);
        WithoutAbsent(OnlyIn(s, q[1..], m), j);
        WithoutFirst(j, OnlyManaged(s, q[1..]));
        WithoutFirst(j, OnlyIn(s, q[1..], m));
      } else {
        assert Without(q, j)[1..] == Without(q[1..], j);
        OnlyStep(s, Without(q, j), m);
        WithoutLater(q[0], OnlyManaged(s, q[1..]), j);
        WithoutLater(q[0], OnlyIn(s, q[1..], m), j);
      }
    }
  }

  lemma OnlyStep(s: State, q: seq<JobId>, m: MgrId)
    requires q != []
    ensures var rest := OnlyManaged(s, q[1..]);
            OnlyManaged(s, q) == if q[0] in s.jobs && !s.jobs[q[0]].anonymous then [q[0]] + rest else rest
    ensures var rest := OnlyIn(s, q[1..], m);
            OnlyIn(s, q, m) == if q[0] in s.jobs && s.jobs[q[0]].mgr == m then [q[0]] + rest else rest
  {
    assert [] + OnlyManaged(s, q[1..]) == OnlyManaged(s, q[1..]);
    assert [] + OnlyIn(s, q[1..], m) == OnlyIn(s, q[1..], m);
  }

  lemma WithoutFirst(j: JobId, q: seq<JobId>)
    ensures Without([j] + q, j) == q
  {
    assert ([j] + q)[1..] == q;
  }

  lemma WithoutLater(i: JobId, q: seq<JobId>, j: JobId)
    requires i != j
    ensures Without([i] + q, j) == [i] + Without(q, j)
  {
    assert ([i] + q)[1..] == q;
  }

  lemma {:induction false} OnlyMembers(s: State, q: seq<JobId>, m: MgrId)
    ensures forall j :: j in OnlyManaged(s, q) <==> j in q && j in s.jobs && !s.jobs[j].anonymous
    ensures forall j :: j in OnlyIn(s, q, m) <==> j in q && j in s.jobs && s.jobs[j].mgr == m
  {
    if q != [] {
      assert q == [q[0]] + q[1..];
      OnlyMembers(s, q[1..], m);
    }
  }

  lemma {:induction false} WithoutAbsent(q: seq<JobId>, j: JobId)
    requires j !in q
    ensures Without(q, j) == q
  {
    if q != [] {
      assert q == [q[0]] + q[1..];
      WithoutAbsent(q[1..], j);
    }
  }

  // ---------- Steps keep the order ----------

  lemma StartOrders(s: State, j: JobId, p: nat)
    requires Ordered(s) && Indexed(s) && j in s.jobs && !s.jobs[j].anonymous && s.jobs[j].p == 0 && p != 0
    ensures Ordered(Start(s, j, p))
  {
    hide Hash, Distinct;
    var s' := Start(s, j, p);
    forall m, h ensures BucketOrdered(s', m, h) {
      assert BucketOrdered(s, m, h) && BucketHolds(s, m, h) && ManagedBucketHolds(s, h);
      SameOnly(s, s', Bucket(s, m, h), m);
      SameOnly(s, s', ManagedBucket(s, h), m);
    }
  }

  lemma AdoptOrders(s: State, j: JobId, m: MgrId, p: nat)
    requires Ordered(s) && Indexed(s) && j !in s.jobs && p != 0
    ensures Ordered(Adopt(s, j, m, p))
  {
    hide Hash, Distinct;
    var s' := Adopt(s, j, m, p);
    forall n, h ensures BucketOrdered(s', n, h) {
      assert BucketOrdered(s, n, h) && BucketHolds(s, n, h) && ManagedBucketHolds(s, h);
      SameOnly(s, s', Bucket(s, n, h), n);
      SameOnly(s, s', ManagedBucket(s, h), n);
    }
  }

  lemma ReapOrders(s: State, j: JobId)
    requires Ordered(s) && Indexed(s) && j in s.jobs && s.jobs[j].p != 0
    ensures Ordered(Reap(s, j))
  {
    forall m, h ensures BucketOrdered(Reap(s, j), m, h) {
      ReapBucketOrders(s, j, m, h);
    }
  }

  /** Reaping takes the job out of whatever list has it. */
  lemma ReapedLists(s: State, j: JobId, m: MgrId, h: nat)
    requires Indexed(s) && j in s.jobs && s.jobs[j].p != 0
    ensures Bucket(Reap(s, j), m, h) == Without(Bucket(s, m, h), j)
    ensures ManagedBucket(Reap(s, j), h) == Without(ManagedBucket(s, h), j)
  {
    hide Hash, Reap, Distinct, Without;
    ReapShape(s, j);
    assert BucketHolds(s, m, h) && ManagedBucketHolds(s, h);
    if j !in Bucket(s, m, h) {
      WithoutAbsent(Bucket(s, m, h), j);
    }
    if j !in ManagedBucket(s, h) {
      WithoutAbsent(ManagedBucket(s, h), j);
    }
  }

  lemma ReapBucketOrders(s: State, j: JobId, m: MgrId, h: nat)
    requires Ordered(s) && Indexed(s) && j in s.jobs && s.jobs[j].p != 0
    ensures BucketOrdered(Reap(s, j), m, h)
  {
    hide Hash, Reap, Distinct, Without, Bucket, ManagedBucket, OnlyManaged, OnlyIn;
    var s', here, all := Reap(s, j), Bucket(s, m, h), ManagedBucket(s, h);
    ReapShape(s, j);
    ReapedLists(s, j, m, h);
    assert BucketOrdered(s, m, h) && BucketHolds(s, m, h) && ManagedBucketHolds(s, h);
    OnlyWithout(s, here, j, m);
    OnlyWithout(s, all, j, m);
    WithoutMeans(here, j);
    WithoutMeans(all, j);
    SameOnly(s, s', Without(here, j), m);
    SameOnly(s, s', Without(all, j), m);
  }

  lemma SameOrders(s: State, s': State)
    requires Ordered(s) && Indexed(s) && s'.active == s.active && s'.managed == s.managed
    requires forall j :: Live(s, j) ==> j in s'.jobs && s'.jobs[j].anonymous == s.jobs[j].anonymous && s'.jobs[j].mgr == s.jobs[j].mgr
    ensures Ordered(s')
  {
    hide Hash, Distinct;
    forall m, h ensures BucketOrdered(s', m, h) {
      assert BucketOrdered(s, m, h) && BucketHolds(s, m, h) && ManagedBucketHolds(s, h);
      SameOnly(s, s', Bucket(s, m, h), m);
      SameOnly(s, s', ManagedBucket(s, h), m);
    }
  }

  lemma NextOrders(s: State, e: Step, s': State)
    requires Ordered(s) && Indexed(s) && Next(s, e, s')
    ensures Ordered(s')
  {
    hide Indexed, Ordered, Hash, Start, Adopt;
    match e
    case CreateStep(j, m) => SameOrders(s, s');
    case StartStep(j, p) => StartOrders(s, j, p);
    case AdoptStep(j, m, p) => AdoptOrders(s, j, m, p);
    case HoldStep(j) => SameOrders(s, s');
    case ReapStep(j) => ReapOrders(s, j);
    case RemoveStep(j) =>
      if s.jobs[j].p == 0 {
        SameOrders(s, s');
      } else if s.jobs[j].anonymous {
        ReapOrders(s, j);
        ReapIndexes(s, j);
        SameOrders(Reap(s, j), s');
      }
  }

  lemma {:induction false} EveryStateOrdered(trace: seq<State>, steps: seq<Step>, k: nat)
    requires IsRun(trace, steps) && k <= |steps|
    ensures Ordered(trace[k])
  {
    if k > 0 {
      EveryStateOrdered(trace, steps, k - 1);
      EveryStateAgrees(trace, steps, k - 1);
      assert Next(trace[k - 1], steps[k - 1], trace[k - 1 + 1]);
      NextOrders(trace[k - 1], steps[k - 1], trace[k]);
    }
  }

  // ---------- What the lookup finds ----------

  lemma {:induction false} FromHas(s: State, q: seq<JobId>, head: JobId, j: JobId)
    requires OnlyManaged(s, q) != [] && OnlyManaged(s, q)[0] == head
    requires j in q && j in s.jobs && !s.jobs[j].anonymous
    ensures j in From(q, head)
  {
    assert q == [q[0]] + q[1..];
    if q[0] != head {
      FromHas(s, q[1..], head, j);
    }
  }

  lemma {:induction false} FromPart(q: seq<JobId>, head: JobId)
    ensures forall i :: i in From(q, head) ==> i in q
  {
    if q != [] && q[0] != head {
      FromPart(q[1..], head);
    }
  }

  lemma {:induction false} FirstMeans(s: State, q: seq<JobId>, p: nat)
    ensures var r := FirstWithPid(s, q, p);
            if r.Some? then r.value in q && r.value in s.jobs && s.jobs[r.value].p == p
            else forall i :: i in q && i in s.jobs ==> s.jobs[i].p != p
  {
    if q != [] {
      assert q == [q[0]] + q[1..];
      FirstMeans(s, q[1..], p);
    }
  }

  /**
   managed_job finds the live managed job of a process exactly if that job is in the same
   manager as the job started last of those in its hash bucket; otherwise it finds none.
   */
  lemma FoundExactly(s: State, j: JobId)
    requires Indexed(s) && Ordered(s) && LiveManaged(s, j)
    requires forall i :: Live(s, i) && s.jobs[i].p == s.jobs[j].p ==> i == j
    ensures Head(s, Hash(s.jobs[j].p)).Some? && Head(s, Hash(s.jobs[j].p)).value in s.jobs
    ensures
      var p := s.jobs[j].p;
      FindManaged(s, p) == if s.jobs[Head(s, Hash(p)).value].mgr == s.jobs[j].mgr then Some(j) else None
  {
    hide Hash, Distinct;
    var p := s.jobs[j].p;
    var h := Hash(p);
    assert ManagedBucketHolds(s, h) && j in ManagedBucket(s, h);
    var all := ManagedBucket(s, h);
    assert all[0] in all;
    var head := all[0];
    var m := s.jobs[head].mgr;
    var here := Bucket(s, m, h);
    assert BucketHolds(s, m, h) && BucketOrdered(s, m, h);
    FromPart(here, head);
    FirstMeans(s, From(here, head), p);
    if m == s.jobs[j].mgr {
      assert OnlyIn(s, all, m)[0] == head;
      FromHas(s, here, head, j);
    }
  }

  // ---------- Who was started last ----------

  /** The step that last started a job, or -1. */
  function LastStart(steps: seq<Step>, k: nat, j: JobId): (r: int)
    requires k <= |steps|
    ensures -1 <= r < k
    ensures r >= 0 ==> steps[r].StartStep? && steps[r].j == j
    ensures forall l :: r < l < k ==> !(steps[l].StartStep? && steps[l].j == j)
  {
    if k == 0 then -1
    else if steps[k - 1].StartStep? && steps[k - 1].j == j then k - 1
    else LastStart(steps, k - 1, j)
  }

  /** Jobs that were started later come first. */
  predicate Recent(q: seq<JobId>, steps: seq<Step>, k: nat)
    requires k <= |steps|
  {
    forall a, b :: 0 <= a < b < |q| ==> LastStart(steps, k, q[a]) > LastStart(steps, k, q[b])
  }

  lemma {:induction false} RecentWithout(q: seq<JobId>, steps: seq<Step>, k: nat, j: JobId)
    requires k <= |steps| && Recent(q, steps, k)
    ensures Recent(Without(q, j), steps, k)
  {
    hide LastStart;
    if q != [] && q[0] != j {
      RecentWithout(q[1..], steps, k, j);
      WithoutMeans(q[1..], j);
      var rest := Without(q[1..], j);
      assert Without(q, j) == [q[0]] + rest;
      forall b | 0 <= b < |rest| ensures LastStart(steps, k, q[0]) > LastStart(steps, k, rest[b]) {
        assert rest[b] in q[1..];
      }
    }
  }

  /** What one step does to a global bucket. */
  lemma BucketStep(s: State, e: Step, s': State, h: nat)
    requires Next(s, e, s')
    ensures ManagedBucket(s', h) ==
            if e.StartStep? && Hash(e.p) == h then [e.j] + ManagedBucket(s, h)
            else if e.ReapStep? && Hash(s.jobs[e.j].p) == h then Without(ManagedBucket(s, h), e.j)
            else ManagedBucket(s, h)
  {
    hide Hash, Without, Bucket;
  }

  /** In every state of every run the global buckets list their jobs latest start first. */
  lemma {:induction false} EveryBucketRecent(trace: seq<State>, steps: seq<Step>, k: nat, h: nat)
    requires IsRun(trace, steps) && k <= |steps|
    ensures Recent(ManagedBucket(trace[k], h), steps, k)
  {
    hide Hash, Next, Indexed, Without;
    if k > 0 {
      var e, q := steps[k - 1], ManagedBucket(trace[k - 1], h);
      EveryBucketRecent(trace, steps, k - 1, h);
      EveryStateAgrees(trace, steps, k - 1);
      assert Next(trace[k - 1], e, trace[k - 1 + 1]);
      BucketStep(trace[k - 1], e, trace[k], h);
      StartedIsNew(trace[k - 1], e, trace[k], h);
      assert Recent(q, steps, k);
      if e.ReapStep? {
        RecentWithout(q, steps, k, e.j);
      }
    }
  }

  lemma StartedIsNew(s: State, e: Step, s': State, h: nat)
    requires Indexed(s) && Next(s, e, s')
    ensures e.StartStep? ==> e.j !in ManagedBucket(s, h)
  {
    hide Hash, Start, Distinct;
    assert ManagedBucketHolds(s, h);
  }

  /**
   Over every run: managed_job finds the live managed job of a process if and only if the
   job started last, of those alive whose process IDs leave the same remainder by 32, is
   in the same manager.
   */
  lemma FoundOverRuns(trace: seq<State>, steps: seq<Step>, k: nat, j: JobId) returns (last: JobId)
    requires IsRun(trace, steps) && k <= |steps| && LiveManaged(trace[k], j)
    requires forall i :: Live(trace[k], i) && trace[k].jobs[i].p == trace[k].jobs[j].p ==> i == j
    ensures
      var s, p := trace[k], trace[k].jobs[j].p;
      && LiveManaged(s, last) && s.jobs[last].p % 32 == p % 32
      && (forall i :: LiveManaged(s, i) && s.jobs[i].p % 32 == p % 32 && i != last ==>
            LastStart(steps, k, i) < LastStart(steps, k, last))
      && FindManaged(s, p) == if s.jobs[last].mgr == s.jobs[j].mgr then Some(j) else None
  {
    hide Indexed, Ordered, Next, FindManaged, LastStart;
    var s, p := trace[k], trace[k].jobs[j].p;
    EveryStateAgrees(trace, steps, k);
    EveryStateOrdered(trace, steps, k);
    FoundExactly(s, j);
    last := Head(s, Hash(p)).value;
    var q := ManagedBucket(s, Hash(p));
    assert q[0] == last && q[0] in q;
    HoldsOf(s, Hash(p));
    EveryBucketRecent(trace, steps, k, Hash(p));
    forall i | LiveManaged(s, i) && s.jobs[i].p % 32 == p % 32 && i != last
      ensures LastStart(steps, k, i) < LastStart(steps, k, last)
    {
      assert i in q;
    }
  }

  lemma HoldsOf(s: State, h: nat)
    requires Indexed(s)
    ensures forall j :: j in ManagedBucket(s, h) <==> LiveManaged(s, j) && Hash(s.jobs[j].p) == h
  {
    hide Distinct, Hash;
    assert ManagedBucketHolds(s, h);
  }

  // ---------- A job that is missed ----------

  /** The states of a run: two jobs made known to two managers, then started as processes that hash alike. */
  function Missing(pid1: bool, i: JobId, m: MgrId, j: JobId, n: MgrId, p: nat): (trace: seq<State>)
    requires i != j
  {
    var s0 := State(map[], map[], map[], 0, 0, map[], 0, false, pid1);
    var s1 := Create(s0, i, m);
    var s2 := Create(s1, j, n);
    var s3 := Start(s2, i, p);
    [s0, s1, s2, s3, Start(s3, j, p + 32)]
  }

  /** After it, the lookup misses the first of them, which is alive. */
  lemma MissedJob(pid1: bool, i: JobId, m: MgrId, j: JobId, n: MgrId, p: nat)
    requires i != j && m != n && 0 < p
    ensures var trace := Missing(pid1, i, m, j, n, p);
            && IsRun(trace, [CreateStep(i, m), CreateStep(j, n), StartStep(i, p), StartStep(j, p + 32)])
            && LiveManaged(trace[4], i) && trace[4].jobs[i].p == p
            && FindManaged(trace[4], p) == None
  {
    hide Indexed, Ordered, FindManaged;
    var trace := Missing(pid1, i, m, j, n, p);
    var steps := [CreateStep(i, m), CreateStep(j, n), StartStep(i, p), StartStep(j, p + 32)];
    SameHash(p);
    assert IsRun(trace, steps);
    EveryStateAgrees(trace, steps, 4);
    EveryStateOrdered(trace, steps, 4);
    var s := trace[4];
    assert Head(s, Hash(p)) == Some(j);
    FoundExactly(s, i);
  }

  lemma SameHash(p: nat)
    ensures Hash(p + 32) == Hash(p)
  {
  }
}
