/**
 Suspending the launchd of a user (src/core.c): jobs that suspend it hold entries for it,
 and it is not started while any entry is held.
 */
module PerUser {
  import opened Lists

  type JobId = nat

  /**
   A job: whether it is a user's launchd, has a process, is listened for on its sockets
   and services, and was told to stop; `count` is its peruser_suspend_count, `holds` its
   suspended_perusers.
   */
  datatype Job = Job(perUser: bool, running: bool, listening: bool, stopped: bool, count: int, holds: seq<JobId>)

  function NewJob(perUser: bool): Job {
    Job(perUser, false, false, false, 0, [])
  }

  type Jobs = map<JobId, Job>

  datatype Answer = Done | Twice | NotHeld

  /** job_dispatch: starts the job, if asked outright or if it is to be kept alive, or listens for it. */
  function Dispatch(s: Jobs, u: JobId, kickstart: bool, keepalive: bool): Jobs
    requires u in s
  {
    if s[u].running || (s[u].perUser && s[u].count > 0) then s
    else if kickstart || keepalive then s[u := s[u].(running := true, listening := false, stopped := false)]
    else s[u := s[u].(listening := true)]
  }

  /** VPROC_GSK_PERUSER_SUSPEND */
  function Suspend(s: Jobs, j: JobId, u: JobId): Jobs
    requires j in s && u in s
  {
    if u in s[j].holds then s
    else
      var s := if s[u].count == 0 then s[u := s[u].(listening := false)] else s;
      var s := s[u := s[u].(count := s[u].count + 1)];
      var s := s[j := s[j].(holds := [u] + s[j].holds)];
      Stop(s, u)
  }

  /** job_stop */
  function Stop(s: Jobs, u: JobId): Jobs
    requires u in s
  {
    if s[u].running then s[u := s[u].(stopped := true)] else s
  }

  /** The entry of j for u is taken away. */
  function GiveUp(s: Jobs, j: JobId, u: JobId): (r: Jobs)
    requires j in s && u in s
    ensures r.Keys == s.Keys
  {
    var s := s[u := s[u].(count := s[u].count - 1)];
    s[j := s[j].(holds := Without(s[j].holds, u))]
  }

  /** VPROC_GSK_PERUSER_RESUME */
  function Resume(s: Jobs, j: JobId, u: JobId, keepalive: bool): Jobs
    requires j in s && u in s
  {
    if u !in s[j].holds then s
    else
      var s := GiveUp(s, j, u);
      if s[u].count == 0 then Dispatch(s[u := s[u].(listening := true)], u, false, keepalive) else s
  }

  /** The first entry of an exiting job is given up. */
  function Release(s: Jobs, j: JobId, keepalive: set<JobId>): (r: Jobs)
    requires j in s && s[j].holds != [] && s[j].holds[0] in s
    ensures r.Keys == s.Keys && r[j].holds == s[j].holds[1..]
  {
    var u := s[j].holds[0];
    var s := s[u := s[u].(count := s[u].count - 1)];
    var s := if s[u].count == 0 then Dispatch(s, u, false, u in keepalive) else s;
    s[j := s[j].(holds := s[j].holds[1..])]
  }

  /** What job_reap does with an exiting job's entries, one after another. */
  function ReleaseAll(s: Jobs, j: JobId, keepalive: set<JobId>): (r: Jobs)
    requires j in s && forall u :: u in s[j].holds ==> u in s
    ensures r.Keys == s.Keys
    decreases |s[j].holds|
  {
    if s[j].holds == [] then s else ReleaseAll(Release(s, j, keepalive), j, keepalive)
  }

  function Exit(s: Jobs, j: JobId, keepalive: set<JobId>): Jobs
    requires j in s && forall u :: u in s[j].holds ==> u in s
  {
    var s := ReleaseAll(s, j, keepalive);
    s[j := s[j].(running := false)]
  }

  // ---------- The invariant ----------

  function Holders(s: Jobs, u: JobId): set<JobId> {
    set j | j in s && u in s[j].holds
  }

  /** The count is the number of jobs that hold an entry, at most one each. */
  ghost predicate Counted(s: Jobs) {
    CountsRight(s) && Listed(s)
  }

  ghost predicate CountsRight(s: Jobs) {
    forall u :: u in s ==> s[u].count == |Holders(s, u)|
  }

  ghost predicate Listed(s: Jobs) {
    && (forall j :: j in s ==> Distinct(s[j].holds))
    && (forall j, u :: j in s && u in s[j].holds ==> u in s && s[u].perUser)
  }

  /** And only jobs with a process hold one. */
  ghost predicate HeldByLive(s: Jobs) {
    forall j :: j in s && s[j].holds != [] ==> s[j].running
  }

  /** A launchd that is suspended is not listened for, and if it still runs it was told to stop. */
  ghost predicate Quiet(s: Jobs) {
    forall u :: u in s && s[u].count > 0 ==> !s[u].listening && (s[u].running ==> s[u].stopped)
  }

  // ---------- What the operations change ----------

  /** All jobs keep what they are, the entries they hold, and but for u their counts and how they are listened for. */
  ghost predicate OnlyTouches(s: Jobs, s': Jobs, u: JobId) {
    && s'.Keys == s.Keys
    && (forall i :: i in s ==> s'[i].perUser == s[i].perUser && s'[i].holds == s[i].holds)
    && (forall i :: i in s && i != u ==> s'[i] == s[i])
  }

  lemma DispatchShape(s: Jobs, u: JobId, kickstart: bool, keepalive: bool)
    requires u in s
    ensures var s' := Dispatch(s, u, kickstart, keepalive);
            && OnlyTouches(s, s', u) && s'[u].count == s[u].count && (s[u].running ==> s'[u].running)
            && (s[u].perUser && s[u].count > 0 ==> s' == s)
  {
  }

  /** A job after a suspension: its entries if it asked, its count and state if it is the one suspended. */
  lemma SuspendAt(s: Jobs, j: JobId, u: JobId, i: JobId)
    requires j in s && u in s && i in s && u !in s[j].holds
    ensures
      var job, s' := s[i], Suspend(s, j, u);
      && s'.Keys == s.Keys
      && s'[i] == job.(holds := if i == j then [u] + s[j].holds else job.holds,
                       count := if i == u then job.count + 1 else job.count,
                       listening := job.listening && (i != u || job.count != 0),
                       stopped := job.stopped || (i == u && job.running))
  {
  }

  lemma SuspendShape(s: Jobs, j: JobId, u: JobId)
    requires j in s && u in s && u !in s[j].holds
    ensures var s' := Suspend(s, j, u);
            && s'.Keys == s.Keys
            && (forall i :: i in s ==> s'[i].perUser == s[i].perUser && s'[i].running == s[i].running)
            && (forall i :: i in s ==> s'[i].holds == if i == j then [u] + s[j].holds else s[i].holds)
            && (forall i :: i in s && i != u ==>
                  s'[i].count == s[i].count && s'[i].listening == s[i].listening && s'[i].stopped == s[i].stopped)
            && s'[u].count == s[u].count + 1
            && s'[u].listening == (s[u].listening && s[u].count != 0)
            && s'[u].stopped == (s[u].stopped || s[u].running)
  {
    hide Suspend;
    forall i | i in s {
      SuspendAt(s, j, u, i);
    }
  }

  /** What is left of a job when u has lost an entry: all the same but for u, and for u too while it is suspended. */
  predicate AtLoss(s: Jobs, s': Jobs, u: JobId, i: JobId)
    requires i in s && i in s'
  {
    && s'[i].perUser == s[i].perUser && (s[i].running ==> s'[i].running)
    && s'[i].count == (if i == u then s[i].count - 1 else s[i].count)
    && (i != u || s'[i].count != 0 ==> s'[i].(holds := [], count := 0) == s[i].(holds := [], count := 0))
  }

  /** What the loss of an entry for u leaves: the entries of j are `left`, and u is started only at a count of 0. */
  ghost predicate GivesUp(s: Jobs, s': Jobs, j: JobId, u: JobId, left: seq<JobId>)
    requires j in s && u in s
  {
    && s'.Keys == s.Keys
    && (forall i :: i in s ==> AtLoss(s, s', u, i))
    && (forall i :: i in s ==> s'[i].holds == if i == j then left else s[i].holds)
  }

  lemma DispatchAt(s: Jobs, u: JobId, keepalive: bool, i: JobId)
    requires u in s && i in s
    ensures var s' := Dispatch(s, u, false, keepalive);
            && s'.Keys == s.Keys && (i != u ==> s'[i] == s[i])
            && s'[i].perUser == s[i].perUser && s'[i].holds == s[i].holds && s'[i].count == s[i].count
            && (s[i].running ==> s'[i].running)
  {
  }

  lemma ReleaseAt(s: Jobs, j: JobId, keepalive: set<JobId>, i: JobId)
    requires j in s && s[j].holds != [] && s[j].holds[0] in s && i in s
    ensures
      var s' := Release(s, j, keepalive);
      && s'.Keys == s.Keys && AtLoss(s, s', s[j].holds[0], i)
      && s'[i].holds == (if i == j then s[j].holds[1..] else s[i].holds)
  {
    var u := s[j].holds[0];
    var lower := s[u := s[u].(count := s[u].count - 1)];
    DispatchAt(lower, u, u in keepalive, i);
    hide Dispatch;
  }

  lemma ReleaseShape(s: Jobs, j: JobId, keepalive: set<JobId>)
    requires j in s && s[j].holds != [] && s[j].holds[0] in s
    ensures GivesUp(s, Release(s, j, keepalive), j, s[j].holds[0], s[j].holds[1..])
  {
    hide Release;
    forall i | i in s {
      ReleaseAt(s, j, keepalive, i);
    }
  }

  lemma GiveUpAt(s: Jobs, j: JobId, u: JobId, i: JobId)
    requires j in s && u in s && i in s
    ensures GiveUp(s, j, u)[i] == s[i].(holds := if i == j then Without(s[j].holds, u) else s[i].holds,
                                        count := if i == u then s[i].count - 1 else s[i].count)
  {
  }

  lemma ResumeAt(s: Jobs, j: JobId, u: JobId, keepalive: bool, i: JobId)
    requires j in s && u in s && u in s[j].holds && i in s
    ensures
      var s' := Resume(s, j, u, keepalive);
      && s'.Keys == s.Keys && AtLoss(s, s', u, i)
      && s'[i].holds == (if i == j then Without(s[j].holds, u) else s[i].holds)
  {
    hide Without, GiveUp, Dispatch;
    var gone := GiveUp(s, j, u);
    GiveUpAt(s, j, u, i);
    GiveUpAt(s, j, u, u);
    DispatchAt(gone[u := gone[u].(listening := true)], u, keepalive, i);
  }

  lemma ResumeShape(s: Jobs, j: JobId, u: JobId, keepalive: bool)
    requires j in s && u in s && u in s[j].holds
    ensures GivesUp(s, Resume(s, j, u, keepalive), j, u, Without(s[j].holds, u))
  {
    hide Resume, Without;
    forall i | i in s {
      ResumeAt(s, j, u, keepalive, i);
    }
  }

  /** Adding or taking away the entry of j for u. */
  lemma HoldersChange(s: Jobs, s': Jobs, j: JobId, u: JobId)
    requires j in s && s'.Keys == s.Keys
    requires forall i :: i in s && i != j ==> s'[i].holds == s[i].holds
    requires forall v :: v != u ==> (v in s'[j].holds <==> v in s[j].holds)
    ensures forall v :: v != u ==> Holders(s', v) == Holders(s, v)
    ensures u in s'[j].holds ==> Holders(s', u) == Holders(s, u) + {j}
    ensures u !in s'[j].holds ==> Holders(s', u) == Holders(s, u) - {j}
  {
    forall v | v != u ensures Holders(s', v) == Holders(s, v) {
      forall i ensures i in Holders(s', v) <==> i in Holders(s, v) {
      }
    }
  }

  /** Whether a job runs does not matter to the counts. */
  lemma DispatchCounts(s: Jobs, u: JobId, kickstart: bool, keepalive: bool)
    requires Counted(s) && u in s
    ensures Counted(Dispatch(s, u, kickstart, keepalive))
  {
    hide Distinct;
    var s' := Dispatch(s, u, kickstart, keepalive);
    DispatchShape(s, u, kickstart, keepalive);
    forall v ensures Holders(s', v) == Holders(s, v) {
    }
  }

  lemma SuspendCounts(s: Jobs, j: JobId, u: JobId)
    requires Counted(s) && j in s && u in s && s[u].perUser
    ensures Counted(Suspend(s, j, u))
  {
    hide CountsRight, Distinct;
    if u !in s[j].holds {
      var s' := Suspend(s, j, u);
      SuspendShape(s, j, u);
      hide Suspend;
      assert Distinct(s[j].holds);
      DistinctCons(u, s[j].holds);
      forall i | i in s' ensures Distinct(s'[i].holds) {
        assert Distinct(s[i].holds);
      }
      TakeUpRight(s, s', j, u);
    }
  }

  lemma TakeUpRight(s: Jobs, s': Jobs, j: JobId, u: JobId)
    requires CountsRight(s) && j in s && u in s && u !in s[j].holds
    requires s'.Keys == s.Keys && s'[u].count == s[u].count + 1
    requires forall i :: i in s ==> (i != u ==> s'[i].count == s[i].count)
    requires forall i :: i in s ==> s'[i].holds == if i == j then [u] + s[j].holds else s[i].holds
    ensures CountsRight(s')
  {
    HoldersChange(s, s', j, u);
    assert j !in Holders(s, u) && u in s'[j].holds;
    hide Holders;
    forall v | v in s' ensures s'[v].count == |Holders(s', v)| {
    }
  }

  lemma GiveUpCounts(s: Jobs, s': Jobs, j: JobId, u: JobId)
    requires Counted(s) && j in s && u in s && u in s[j].holds
    requires s'.Keys == s.Keys && s'[u].count == s[u].count - 1
    requires forall i :: i in s ==> s'[i].perUser == s[i].perUser && (i != u ==> s'[i].count == s[i].count)
    requires forall i :: i in s ==> s'[i].holds == if i == j then Without(s[j].holds, u) else s[i].holds
    ensures Counted(s')
  {
    hide CountsRight, Distinct, Without;
    assert Distinct(s[j].holds);
    WithoutMeans(s[j].holds, u);
    GiveUpRight(s, s', j, u);
    forall i | i in s' ensures Distinct(s'[i].holds) {
      assert Distinct(s[i].holds);
    }
  }

  lemma GiveUpRight(s: Jobs, s': Jobs, j: JobId, u: JobId)
    requires CountsRight(s) && j in s && u in s && u in s[j].holds
    requires s'.Keys == s.Keys && s'[u].count == s[u].count - 1
    requires forall i :: i in s && i != u ==> s'[i].count == s[i].count
    requires forall i :: i in s && i != j ==> s'[i].holds == s[i].holds
    requires forall v :: v in s'[j].holds <==> v in s[j].holds && v != u
    ensures CountsRight(s')
  {
    HoldersChange(s, s', j, u);
    assert j in Holders(s, u);
    hide Holders;
    forall v | v in s' ensures s'[v].count == |Holders(s', v)| {
    }
  }

  lemma ResumeCounts(s: Jobs, j: JobId, u: JobId, keepalive: bool)
    requires Counted(s) && j in s && u in s
    ensures Counted(Resume(s, j, u, keepalive))
  {
    hide Counted;
    if u in s[j].holds {
      ResumeShape(s, j, u, keepalive);
      GiveUpCounts(s, Resume(s, j, u, keepalive), j, u);
    }
  }

  lemma ReleaseCounts(s: Jobs, j: JobId, keepalive: set<JobId>)
    requires Counted(s) && j in s && s[j].holds != [] && s[j].holds[0] in s
    ensures Counted(Release(s, j, keepalive))
  {
    ReleaseShape(s, j, keepalive);
    hide Release;
    FirstGone(s, j);
    GiveUpCounts(s, Release(s, j, keepalive), j, s[j].holds[0]);
  }

  lemma FirstGone(s: Jobs, j: JobId)
    requires Counted(s) && j in s && s[j].holds != []
    ensures s[j].holds[0] in s[j].holds && Without(s[j].holds, s[j].holds[0]) == s[j].holds[1..]
  {
    assert Distinct(s[j].holds);
  }

  lemma {:induction false} ReleaseAllCounts(s: Jobs, j: JobId, keepalive: set<JobId>)
    requires Counted(s) && j in s
    ensures var s' := ReleaseAll(s, j, keepalive);
            Counted(s') && s'.Keys == s.Keys && s'[j].holds == []
    ensures forall i :: i in s && i != j ==> ReleaseAll(s, j, keepalive)[i].holds == s[i].holds
    ensures forall i :: i in s && s[i].running ==> ReleaseAll(s, j, keepalive)[i].running
    decreases |s[j].holds|
  {
    hide Counted, Release;
    if s[j].holds != [] {
      FirstHeld(s, j);
      ReleaseShape(s, j, keepalive);
      ReleaseCounts(s, j, keepalive);
      ReleaseAllCounts(Release(s, j, keepalive), j, keepalive);
    }
  }

  lemma FirstHeld(s: Jobs, j: JobId)
    requires Counted(s) && j in s
    ensures forall u :: u in s[j].holds ==> u in s
    ensures s[j].holds != [] ==> s[j].holds[0] in s[j].holds
  {
  }

  // ---------- Runs ----------

  datatype Step =
    | CreateStep(j: JobId, perUser: bool)
    | DispatchStep(u: JobId, kickstart: bool, keepalive: bool)
    | SuspendStep(j: JobId, u: JobId)
    | ResumeStep(j: JobId, u: JobId, keepalive: bool)
    | ExitStep(j: JobId, willing: set<JobId>)

  /** Only a job that runs asks for anything; a job that exits was running. */
  ghost predicate Next(s: Jobs, e: Step, s': Jobs) {
    match e
    case CreateStep(j, perUser) => j !in s && s' == s[j := NewJob(perUser)]
    case DispatchStep(u, kickstart, keepalive) => u in s && s' == Dispatch(s, u, kickstart, keepalive)
    case SuspendStep(j, u) => j in s && s[j].running && u in s && s[u].perUser && s' == Suspend(s, j, u)
    case ResumeStep(j, u, keepalive) => j in s && s[j].running && u in s && s' == Resume(s, j, u, keepalive)
    case ExitStep(j, willing) =>
      j in s && s[j].running && (forall u :: u in s[j].holds ==> u in s) && s' == Exit(s, j, willing)
  }

  lemma CreateCounts(s: Jobs, j: JobId, perUser: bool)
    requires Counted(s) && j !in s
    ensures Counted(s[j := NewJob(perUser)])
  {
    var s' := s[j := NewJob(perUser)];
    NewHoldsNothing(s, j, perUser);
    hide Holders, Distinct;
    forall i | i in s' ensures Distinct(s'[i].holds) {
      assert i in s ==> Distinct(s[i].holds);
      NoneDistinct();
    }
  }

  lemma NoneDistinct()
    ensures Distinct<JobId>([])
  {
  }

  lemma NewHoldsNothing(s: Jobs, j: JobId, perUser: bool)
    requires Listed(s) && j !in s
    ensures var s' := s[j := NewJob(perUser)];
            Holders(s', j) == {} && forall v :: Holders(s', v) == Holders(s, v)
  {
    hide Distinct;
    var s' := s[j := NewJob(perUser)];
    forall v ensures Holders(s', v) == Holders(s, v) {
    }
  }

  lemma NextKeeps(s: Jobs, e: Step, s': Jobs)
    requires Counted(s) && HeldByLive(s) && Next(s, e, s')
    ensures Counted(s') && HeldByLive(s')
  {
    hide Counted, Exit;
    match e
    case CreateStep(j, perUser) => CreateCounts(s, j, perUser);
    case DispatchStep(u, kickstart, keepalive) => DispatchCounts(s, u, kickstart, keepalive);
    case SuspendStep(j, u) => SuspendCounts(s, j, u);
    case ResumeStep(j, u, keepalive) => ResumeCounts(s, j, u, keepalive);
    case ExitStep(j, willing) => ExitCounts(s, j, willing);
  }

  lemma ExitCounts(s: Jobs, j: JobId, willing: set<JobId>)
    requires Counted(s) && HeldByLive(s) && j in s && forall u :: u in s[j].holds ==> u in s
    ensures Counted(Exit(s, j, willing)) && HeldByLive(Exit(s, j, willing))
  {
    hide Counted, ReleaseAll;
    ReleaseAllCounts(s, j, willing);
    StoppedCounts(ReleaseAll(s, j, willing), j);
  }

  lemma StoppedCounts(s: Jobs, j: JobId)
    requires Counted(s) && j in s
    ensures Counted(s[j := s[j].(running := false)])
  {
    var s' := s[j := s[j].(running := false)];
    forall v ensures Holders(s', v) == Holders(s, v) {
    }
  }

  lemma {:induction false} ReleaseAllQuiet(s: Jobs, j: JobId, keepalive: set<JobId>)
    requires Counted(s) && Quiet(s) && j in s
    ensures Quiet(ReleaseAll(s, j, keepalive))
    decreases |s[j].holds|
  {
    hide Counted, Release;
    if s[j].holds != [] {
      FirstHeld(s, j);
      ReleaseShape(s, j, keepalive);
      ReleaseCounts(s, j, keepalive);
      ReleaseAllQuiet(Release(s, j, keepalive), j, keepalive);
    }
  }

  lemma NextQuiet(s: Jobs, e: Step, s': Jobs)
    requires Counted(s) && Quiet(s) && Next(s, e, s')
    ensures Quiet(s')
  {
    hide Counted, ReleaseAll;
    match e
    case CreateStep(j, perUser) =>
    case DispatchStep(u, kickstart, keepalive) => DispatchQuiet(s, u, kickstart, keepalive);
    case SuspendStep(j, u) => SuspendQuiet(s, j, u);
    case ResumeStep(j, u, keepalive) => ResumeQuiet(s, j, u, keepalive);
    case ExitStep(j, willing) =>
      ReleaseAllQuiet(s, j, willing);
      ReleaseAllCounts(s, j, willing);
  }

  /** Counts are positive only of launchds of users. */
  lemma OnlyPerUser(s: Jobs, u: JobId)
    requires Counted(s) && u in s && s[u].count > 0
    ensures s[u].perUser
  {
    assert Holders(s, u) != {};
    var j :| j in Holders(s, u);
  }

  lemma DispatchQuiet(s: Jobs, u: JobId, kickstart: bool, keepalive: bool)
    requires Counted(s) && Quiet(s) && u in s
    ensures Quiet(Dispatch(s, u, kickstart, keepalive))
  {
    DispatchShape(s, u, kickstart, keepalive);
    if s[u].count > 0 {
      OnlyPerUser(s, u);
    }
    hide Counted, Dispatch;
  }

  lemma SuspendQuiet(s: Jobs, j: JobId, u: JobId)
    requires Quiet(s) && j in s && u in s
    ensures Quiet(Suspend(s, j, u))
  {
    if u !in s[j].holds {
      SuspendShape(s, j, u);
      hide Suspend;
    }
  }

  lemma ResumeQuiet(s: Jobs, j: JobId, u: JobId, keepalive: bool)
    requires Quiet(s) && j in s && u in s
    ensures Quiet(Resume(s, j, u, keepalive))
  {
    if u in s[j].holds {
      ResumeShape(s, j, u, keepalive);
      hide Resume;
    }
  }

  ghost predicate IsRun(trace: seq<Jobs>, steps: seq<Step>) {
    && |trace| == |steps| + 1 && trace[0] == map[]
    && forall k :: 0 <= k < |steps| ==> Next(trace[k], steps[k], trace[k + 1])
  }

  /**
   The count of a per-user launchd is always the number of live jobs that hold an entry
   for it; while it is positive the launchd is not listened for, and is stopping if it runs.
   */
  lemma {:induction false} CountIsHolders(trace: seq<Jobs>, steps: seq<Step>, k: nat)
    requires IsRun(trace, steps) && k <= |steps|
    ensures Counted(trace[k]) && HeldByLive(trace[k]) && Quiet(trace[k])
    ensures forall u :: u in trace[k] ==>
      trace[k][u].count == |set j | j in trace[k] && trace[k][j].running && u in trace[k][j].holds|
  {
    if k > 0 {
      CountIsHolders(trace, steps, k - 1);
      assert Next(trace[k - 1], steps[k - 1], trace[k - 1 + 1]);
      NextKeeps(trace[k - 1], steps[k - 1], trace[k]);
      NextQuiet(trace[k - 1], steps[k - 1], trace[k]);
    }
    forall u | u in trace[k]
      ensures trace[k][u].count == |set j | j in trace[k] && trace[k][j].running && u in trace[k][j].holds|
    {
      assert Holders(trace[k], u) == set j | j in trace[k] && trace[k][j].running && u in trace[k][j].holds;
    }
  }

  // ---------- Starting ----------

  /** An exiting job touches only those it holds entries for, and starts only those no one holds any more. */
  lemma {:induction false} ReleaseAllStarts(s: Jobs, j: JobId, willing: set<JobId>, u: JobId)
    requires Counted(s) && j in s && u in s
    ensures var s' := ReleaseAll(s, j, willing);
            && u in s' && s'[u].perUser == s[u].perUser
            && (u !in s[j].holds ==> s'[u].count == s[u].count && s'[u].running == s[u].running)
            && (s[u].perUser && !s[u].running && s'[u].running ==> s'[u].count == 0)
    decreases |s[j].holds|
  {
    hide Counted, Distinct, Release;
    if s[j].holds != [] {
      FirstHeld(s, j);
      ReleaseShape(s, j, willing);
      ReleaseCounts(s, j, willing);
      RestHeld(s, j);
      ReleaseAllStarts(Release(s, j, willing), j, willing, u);
    }
  }

  lemma RestHeld(s: Jobs, j: JobId)
    requires Counted(s) && j in s && s[j].holds != []
    ensures s[j].holds[0] !in s[j].holds[1..] && forall v :: v in s[j].holds[1..] ==> v in s[j].holds
  {
    assert Distinct(s[j].holds);
  }

  lemma StartedAtZero(s: Jobs, e: Step, s': Jobs, u: JobId)
    requires Counted(s) && HeldByLive(s) && Next(s, e, s')
    requires u in s && s[u].perUser && !s[u].running && u in s' && s'[u].running
    ensures s'[u].count == 0
  {
    hide Counted, ReleaseAll, Suspend, Resume, Holders;
    match e
    case CreateStep(j, perUser) =>
    case DispatchStep(v, kickstart, keepalive) =>
      assert s[u].count >= 0 by { CountIsNat(s, u); }
    case SuspendStep(j, v) => SuspendStartsNone(s, j, v);
    case ResumeStep(j, v, keepalive) =>
      ResumeStartsAtZero(s, j, v, keepalive);
    case ExitStep(j, willing) => ReleaseAllStarts(s, j, willing, u);
  }

  lemma CountIsNat(s: Jobs, u: JobId)
    requires Counted(s) && u in s
    ensures s[u].count >= 0
  {
    assert s[u].count == |Holders(s, u)|;
  }

  lemma SuspendStartsNone(s: Jobs, j: JobId, u: JobId)
    requires j in s && u in s
    ensures forall i :: i in s ==> i in Suspend(s, j, u) && Suspend(s, j, u)[i].running == s[i].running
  {
    if u !in s[j].holds {
      SuspendShape(s, j, u);
      hide Suspend;
    }
  }

  lemma ResumeStartsAtZero(s: Jobs, j: JobId, u: JobId, keepalive: bool)
    requires j in s && u in s
    ensures var s' := Resume(s, j, u, keepalive);
            forall i :: i in s ==> i in s' && (!s[i].running && s'[i].running ==> s'[i].count == 0)
  {
    if u in s[j].holds {
      ResumeShape(s, j, u, keepalive);
      hide Resume;
    }
  }

  /** No step starts a per-user launchd, kickstart included, that is suspended then or afterwards. */
  lemma NeverStartedSuspended(s: Jobs, e: Step, s': Jobs, u: JobId)
    requires Counted(s) && HeldByLive(s) && Next(s, e, s')
    requires u in s && s[u].perUser && !s[u].running && u in s' && s'[u].running
    ensures s'[u].count == 0
    ensures Holders(s', u) == {}
  {
    StartedAtZero(s, e, s', u);
    hide Next, Holders;
    NextKeeps(s, e, s');
  }

  // ---------- Suspended and resumed ----------

  /**
   A dispatch starts a job that does not run, outright or kept alive, unless someone
   suspends it; one neither started nor suspended is listened for; no other job is touched.
   */
  lemma DispatchMeans(s: Jobs, u: JobId, kickstart: bool, keepalive: bool)
    requires Counted(s) && u in s
    ensures
      var s', suspended := Dispatch(s, u, kickstart, keepalive), exists j :: j in s && u in s[j].holds;
      && s'.Keys == s.Keys && (forall j :: j in s && j != u ==> s'[j] == s[j])
      && (s'[u].running <==> s[u].running || ((kickstart || keepalive) && !suspended))
      && (!s'[u].running && !suspended ==> s'[u].listening)
      && (s[u].running || suspended ==> s' == s)
  {
    if j :| j in s && u in s[j].holds {
      assert j in Holders(s, u);
      assert s[u].perUser;
    } else {
      assert Holders(s, u) == {};
    }
  }

  /**
   A launchd suspended by one job can be started by no one, not even outright; resumed by
   the same job it is kept alive or listened for again, can be started outright, and all
   else is as it was; if it runs it is still stopping.
   */
  lemma SuspendThenResume(s: Jobs, j: JobId, u: JobId, keepalive: bool)
    requires j in s && u in s && s[u].perUser && s[u].count == 0 && u !in s[j].holds
    ensures var away := Suspend(s, j, u); Dispatch(away, u, true, true) == away
    ensures
      var back := Resume(Suspend(s, j, u), j, u, keepalive);
      && back == s[u := if s[u].running then s[u].(listening := true, stopped := true)
                        else if keepalive then s[u].(running := true, listening := false, stopped := false)
                        else s[u].(listening := true)]
      && Dispatch(back, u, true, false)[u].running
  {
    hide Suspend, Resume, Without;
    SuspendAt(s, j, u, u);
    SuspendAt(s, j, u, j);
    WithoutFirst(u, s[j].holds);
    var away := Suspend(s, j, u);
    var back := Resume(away, j, u, keepalive);
    assert away[j].holds == [u] + s[j].holds;
    ResumeAt(away, j, u, keepalive, u);
    ResumedFully(away, j, u, keepalive);
    forall i | i in s && i != u ensures back[i] == s[i] {
      SuspendAt(s, j, u, i);
      ResumeAt(away, j, u, keepalive, i);
    }
  }

  lemma WithoutFirst(u: JobId, q: seq<JobId>)
    ensures Without([u] + q, u) == q
  {
    assert ([u] + q)[1..] == q;
  }

  /** When the last entry for it is given up a launchd is kept alive or listened for. */
  lemma ResumedFully(s: Jobs, j: JobId, u: JobId, keepalive: bool)
    requires j in s && u in s && u in s[j].holds && s[u].count == 1
    ensures
      var back := Resume(s, j, u, keepalive);
      && u in back && back[u].count == 0
      && back[u].running == (s[u].running || keepalive)
      && back[u].listening == (s[u].running || !keepalive)
      && back[u].stopped == (s[u].stopped && (s[u].running || !keepalive))
  {
    hide Without;
    GiveUpAt(s, j, u, u);
  }

  /** When the last job that holds an entry exits, the launchd runs or is listened for, and runs if it is to be kept alive. */
  lemma {:induction false} ReleasedFully(s: Jobs, j: JobId, willing: set<JobId>, u: JobId)
    requires Counted(s) && j in s && u in s[j].holds
    ensures var s' := ReleaseAll(s, j, willing);
            && u in s' && s'[u].count == s[u].count - 1
            && (s'[u].count == 0 ==> s'[u].running || (u !in willing && s'[u].listening))
    decreases |s[j].holds|
  {
    hide Counted, Distinct, Release;
    FirstHeld(s, j);
    ReleaseCounts(s, j, willing);
    ReleaseShape(s, j, willing);
    RestHeld(s, j);
    var next := Release(s, j, willing);
    if s[j].holds[0] == u {
      ReleasedFirst(s, j, willing);
      ReleaseAllSpares(next, j, willing, u);
    } else {
      FirstHeld(next, j);
      ReleasedFully(next, j, willing, u);
    }
  }

  lemma ReleasedFirst(s: Jobs, j: JobId, willing: set<JobId>)
    requires j in s && s[j].holds != [] && s[j].holds[0] in s
    ensures var u, s' := s[j].holds[0], Release(s, j, willing);
            s'[u].count == 0 ==> s'[u].running || (u !in willing && s'[u].listening)
  {
  }

  /** A launchd for which an exiting job holds no entry is not touched. */
  lemma {:induction false} ReleaseAllSpares(s: Jobs, j: JobId, willing: set<JobId>, u: JobId)
    requires Counted(s) && j in s && u in s && u !in s[j].holds
    ensures var s' := ReleaseAll(s, j, willing);
            u in s' && s'[u].(holds := []) == s[u].(holds := [])
    decreases |s[j].holds|
  {
    hide Counted, Distinct, Release;
    if s[j].holds != [] {
      FirstHeld(s, j);
      ReleaseCounts(s, j, willing);
      ReleaseShape(s, j, willing);
      RestHeld(s, j);
      assert s[j].holds[0] != u;
      assert AtLoss(s, Release(s, j, willing), s[j].holds[0], u);
      ReleaseAllSpares(Release(s, j, willing), j, willing, u);
    }
  }

  // ---------- The code's own form ----------

  class Table {
    var jobs: Jobs

    ghost predicate Valid()
      reads this
    {
      Counted(jobs) && Quiet(jobs)
    }

    method Dispatched(u: JobId, kickstart: bool, keepalive: bool)
      requires u in jobs
      modifies this
      ensures jobs == Dispatch(old(jobs), u, kickstart, keepalive)
      ensures old(Valid()) ==> Valid()
    {
      ghost var before := jobs;
      if !jobs[u].running {
        if jobs[u].perUser && jobs[u].count > 0 {
          return;
        }
        if kickstart || keepalive {
          jobs := jobs[u := jobs[u].(running := true, listening := false, stopped := false)];
        } else {
          jobs := jobs[u := jobs[u].(listening := true)];
        }
      }
      Kept(before, DispatchStep(u, kickstart, keepalive));
    }

    method PeruserSuspend(j: JobId, u: JobId) returns (answer: Answer)
      requires j in jobs && u in jobs
      modifies this
      ensures jobs == Suspend(old(jobs), j, u)
      ensures answer == if u in old(jobs)[j].holds then Twice else Done
      ensures old(Valid()) && old(jobs)[u].perUser ==> Valid()
    {
      ghost var before := jobs;
      if u in jobs[j].holds {
        return Twice;
      }
      if jobs[u].count == 0 {
        jobs := jobs[u := jobs[u].(listening := false)];
      }
      jobs := jobs[u := jobs[u].(count := jobs[u].count + 1)];
      jobs := jobs[j := jobs[j].(holds := [u] + jobs[j].holds)];
      if jobs[u].running {
        jobs := jobs[u := jobs[u].(stopped := true)];
      }
      Kept(before, SuspendStep(j, u));
      return Done;
    }

    method PeruserResume(j: JobId, u: JobId, keepalive: bool) returns (answer: Answer)
      requires j in jobs && u in jobs
      modifies this
      ensures jobs == Resume(old(jobs), j, u, keepalive)
      ensures answer == if u in old(jobs)[j].holds then Done else NotHeld
      ensures old(Valid()) ==> Valid()
    {
      ghost var before := jobs;
      if u !in jobs[j].holds {
        return NotHeld;
      }
      jobs := jobs[u := jobs[u].(count := jobs[u].count - 1)];
      jobs := jobs[j := jobs[j].(holds := Without(jobs[j].holds, u))];
      if jobs[u].count == 0 {
        jobs := jobs[u := jobs[u].(listening := true)];
        Dispatched(u, false, keepalive);
      }
      Kept(before, ResumeStep(j, u, keepalive));
      return Done;
    }

    /** The part of job_reap that gives up the entries of the job that exited. */
    method ReapSuspensions(j: JobId, willing: set<JobId>)
      requires j in jobs && Counted(jobs)
      modifies this
      ensures jobs == Exit(old(jobs), j, willing)
      ensures Counted(jobs) && jobs[j].holds == [] && (old(Valid()) ==> Valid())
    {
      hide Counted, Release, Quiet;
      ghost var first := jobs;
      FirstHeld(jobs, j);
      while jobs[j].holds != []
        invariant j in jobs && Counted(jobs)
        invariant forall u :: u in jobs[j].holds ==> u in jobs
        invariant ReleaseAll(old(jobs), j, willing) == ReleaseAll(jobs, j, willing)
        decreases |jobs[j].holds|
      {
        ghost var before := jobs;
        FirstHeld(jobs, j);
        ReleaseCounts(jobs, j, willing);
        var u := jobs[j].holds[0];
        jobs := jobs[u := jobs[u].(count := jobs[u].count - 1)];
        if jobs[u].count == 0 {
          Dispatched(u, false, u in willing);
        }
        jobs := jobs[j := jobs[j].(holds := jobs[j].holds[1..])];
        ReleaseStep(before, jobs, j, willing);
        FirstHeld(jobs, j);
      }
      StoppedCounts(jobs, j);
      jobs := jobs[j := jobs[j].(running := false)];
      ExitQuiet(first, j, willing);
    }
  }

  /** What the steps do to a table, whoever asks. */
  lemma Kept(s: Jobs, e: Step)
    ensures e.DispatchStep? && e.u in s && Counted(s) && Quiet(s) ==>
      var s' := Dispatch(s, e.u, e.kickstart, e.keepalive); Counted(s') && Quiet(s')
    ensures e.SuspendStep? && e.j in s && e.u in s && s[e.u].perUser && Counted(s) && Quiet(s) ==>
      var s' := Suspend(s, e.j, e.u); Counted(s') && Quiet(s')
    ensures e.ResumeStep? && e.j in s && e.u in s && Counted(s) && Quiet(s) ==>
      var s' := Resume(s, e.j, e.u, e.keepalive); Counted(s') && Quiet(s')
  {
    hide Counted, Quiet, Dispatch, Suspend, Resume;
    if Counted(s) && Quiet(s) {
      if e.DispatchStep? && e.u in s {
        DispatchCounts(s, e.u, e.kickstart, e.keepalive);
        DispatchQuiet(s, e.u, e.kickstart, e.keepalive);
      } else if e.SuspendStep? && e.j in s && e.u in s && s[e.u].perUser {
        SuspendCounts(s, e.j, e.u);
        SuspendQuiet(s, e.j, e.u);
      } else if e.ResumeStep? && e.j in s && e.u in s {
        ResumeCounts(s, e.j, e.u, e.keepalive);
        ResumeQuiet(s, e.j, e.u, e.keepalive);
      }
    }
  }

  lemma ExitQuiet(s: Jobs, j: JobId, willing: set<JobId>)
    requires Counted(s) && j in s && forall u :: u in s[j].holds ==> u in s
    ensures Quiet(s) ==> Quiet(Exit(s, j, willing))
  {
    hide Counted, ReleaseAll;
    if Quiet(s) {
      ReleaseAllQuiet(s, j, willing);
      ReleaseAllCounts(s, j, willing);
    }
  }

  lemma ReleaseStep(s: Jobs, s': Jobs, j: JobId, willing: set<JobId>)
    requires j in s && s[j].holds != [] && s[j].holds[0] in s
    requires
      var u := s[j].holds[0];
      var t := s[u := s[u].(count := s[u].count - 1)];
      var t := if t[u].count == 0 then Dispatch(t, u, false, u in willing) else t;
      s' == t[j := t[j].(holds := t[j].holds[1..])]
    ensures s' == Release(s, j, willing) && s'[j].holds == s[j].holds[1..]
  {
  }
}
