/**
 One owner for every name, over every run: services belong to the job that made them, a
 table holds a name once, and a service is claimed again only after its right came back.
 */
module NamespaceSafety {
  import opened Options
  import opened NamespaceSpec

  /** Two services that cannot both be there. */
  predicate Clash(a: Service, b: Service) {
    a.id == b.id || (a.space == b.space && a.name == b.name && !a.perPid && !b.perPid)
  }

  ghost predicate Apart(services: seq<Service>) {
    services == [] || (Apart(services[1..]) && forall ms :: ms in services[1..] ==> !Clash(services[0], ms))
  }

  /** Each table holds a name at most once (per-PID services aside), and ids are not reused. */
  ghost predicate OneEach(s: State) {
    ValidTree(s) && Apart(s.services) && forall ms :: ms in s.services ==> ms.id < s.nextId
  }

  lemma {:induction false} ApartMeans(services: seq<Service>, a: Service, b: Service)
    requires Apart(services) && a in services && b in services && Clash(a, b)
    ensures a == b
  {
    assert services == [services[0]] + services[1..];
    assert forall ms :: ms in services[1..] ==> !Clash(services[0], ms) && !Clash(ms, services[0]);
    if a in services[1..] && b in services[1..] {
      ApartMeans(services[1..], a, b);
    }
  }

  lemma {:induction false} InTableMeans(services: seq<Service>, space: MgrId, name: string)
    ensures var r := InTable(services, space, name);
            r.Some? ==> r.value in services && r.value.space == space && r.value.name == name && !r.value.perPid
    ensures InTable(services, space, name).None? <==>
            forall ms :: ms in services ==> !(ms.space == space && ms.name == name && !ms.perPid)
  {
    if services != [] {
      assert services == [services[0]] + services[1..];
      InTableMeans(services[1..], space, name);
    }
  }

  lemma {:induction false} PerPidMeans(services: seq<Service>, j: JobId, name: string)
    ensures var r := PerPid(services, j, name);
            r.Some? ==> r.value in services && r.value.job == j && r.value.perPid && r.value.name == name
    ensures PerPid(services, j, name).None? <==>
            forall ms :: ms in services ==> !(ms.job == j && ms.perPid && ms.name == name)
  {
    if services != [] {
      assert services == [services[0]] + services[1..];
      PerPidMeans(services[1..], j, name);
    }
  }

  lemma {:induction false} DeleteMeans(services: seq<Service>, id: nat)
    requires Apart(services)
    ensures Apart(Delete(services, id))
    ensures forall ms :: ms in Delete(services, id) <==> ms in services && ms.id != id
  {
    if services != [] {
      assert services == [services[0]] + services[1..];
      if services[0].id != id {
        DeleteMeans(services[1..], id);
        assert Delete(services, id)[1..] == Delete(services[1..], id);
      }
    }
  }

  lemma {:induction false} ReplaceMeans(services: seq<Service>, was: Service, ms: Service)
    requires Apart(services) && was in services && ms.id == was.id
    requires ms.space == was.space && ms.name == was.name && ms.perPid == was.perPid
    ensures Apart(Replace(services, ms))
    ensures forall x :: x in Replace(services, ms) <==> x == ms || (x in services && x.id != ms.id)
  {
    assert services == [services[0]] + services[1..];
    if services[0].id != ms.id {
      ReplaceMeans(services[1..], was, ms);
      assert Replace(services, ms)[1..] == Replace(services[1..], ms);
      assert !Clash(services[0], was);
    } else {
      assert services[0] == was by {
        ApartMeans(services, services[0], was);
      }
      assert Replace(services, ms)[1..] == services[1..];
    }
  }

  lemma {:induction false} PortDiedMeans(services: seq<Service>, p: Port)
    requires Apart(services)
    ensures Apart(PortDied(services, p))
    ensures forall ms :: ms in PortDied(services, p) <==> ms in services && !(ms.port == p && !ms.recv)
  {
    if services != [] {
      assert services == [services[0]] + services[1..];
      var rest := PortDied(services[1..], p);
      PortDiedMeans(services[1..], p);
      AddedApart(rest, services[0]);
      assert [] + rest == rest;
    }
  }

  lemma {:induction false} DroppedMeans(services: seq<Service>, j: JobId)
    requires Apart(services)
    ensures Apart(Dropped(services, j))
    ensures forall ms :: ms in Dropped(services, j) <==> ms in services && ms.job != j
  {
    if services != [] {
      assert services == [services[0]] + services[1..];
      var rest := Dropped(services[1..], j);
      DroppedMeans(services[1..], j);
      AddedApart(rest, services[0]);
      assert [] + rest == rest;
    }
  }

  lemma {:induction false} OwnerMeans(services: seq<Service>, p: Port)
    ensures var r := Owner(services, p); r.Some? ==> r.value in services && r.value.recv && r.value.port == p
  {
    if services != [] {
      assert services == [services[0]] + services[1..];
      OwnerMeans(services[1..], p);
    }
  }

  lemma FoundMeans(s: State, j: JobId, name: string, perPid: bool)
    requires ValidTree(s) && j in s.jobs
    ensures var r := Found(s, j, name, perPid);
            r.Some? ==> r.value in s.services && r.value.name == name && r.value.perPid == perPid
    ensures !perPid && Found(s, j, name, perPid).Some? ==> Found(s, j, name, perPid).value.space == Space(s, s.jobs[j].mgr)
    ensures !perPid && Found(s, j, name, perPid).None? ==>
            forall ms :: ms in s.services ==> !(ms.space == Space(s, s.jobs[j].mgr) && ms.name == name && !ms.perPid)
  {
    InTableMeans(s.services, Space(s, s.jobs[j].mgr), name);
    PerPidMeans(s.services, j, name);
  }

  lemma {:induction false} AddedApart(services: seq<Service>, ms: Service)
    requires Apart(services) && forall x :: x in services ==> !Clash(ms, x)
    ensures Apart([ms] + services)
  {
    assert ([ms] + services)[1..] == services;
  }

  // ---------- What one step does ----------

  /** The services a job's own calls leave alone are all those of other jobs. */
  ghost predicate OnlyTouches(s: State, s': State, j: JobId) {
    forall ms: Service :: ms.job != j ==> (ms in s'.services <==> ms in s.services)
  }

  ghost predicate Keeps(s: State, s': State) {
    s'.parent == s.parent && s'.explicitSubset == s.explicitSubset && s'.flat == s.flat && s'.jobs == s.jobs
  }

  lemma SameTree(s: State, s': State)
    requires ValidTree(s) && s'.parent == s.parent
    ensures ValidTree(s')
  {
  }

  lemma SetupEffect(s: State, j: JobId, name: string, made: Port, reset: bool)
    requires OneEach(s) && j in s.jobs
    ensures var s' := Setup(s, j, name, made, reset);
            OneEach(s') && OnlyTouches(s, s', j) && Keeps(s, s') && s.nextId <= s'.nextId
    ensures forall ms :: ms in s.services ==> ms in Setup(s, j, name, made, reset).services
  {
    FoundMeans(s, j, name, false);
    if Found(s, j, name, false).None? {
      var s' := Setup(s, j, name, made, reset);
      AddedApart(s.services, s'.services[0]);
    }
  }

  lemma CheckInEffect(s: State, j: JobId, name: string, perPid: bool, strict: bool, made: Port)
    requires OneEach(s) && j in s.jobs
    ensures var (r, s') := CheckIn(s, j, name, perPid, strict, made);
            OneEach(s') && OnlyTouches(s, s', j) && Keeps(s, s') && s.nextId <= s'.nextId
    ensures !CheckIn(s, j, name, perPid, strict, made).0.Success? ==> CheckIn(s, j, name, perPid, strict, made).1 == s
    ensures forall ms :: ms in s.services && ms.active ==> ms in CheckIn(s, j, name, perPid, strict, made).1.services
  {
    hide Found, Apart, Replace, Lookup, InTable, PerPid, ValidTree;
    FoundMeans(s, j, name, perPid);
    var (r, s') := CheckIn(s, j, name, perPid, strict, made);
    SameTree(s, s');
    var found := Found(s, j, name, perPid);
    if r.Success? {
      if found.None? {
        AddedApart(s.services, s'.services[0]);
      } else {
        MadeActive(s, found.value);
      }
    }
  }

  /** A successful check-in leaves the service active, and the job's; it was not active before. */
  lemma CheckInClaims(s: State, j: JobId, name: string, perPid: bool, strict: bool, made: Port)
    requires OneEach(s) && j in s.jobs && CheckIn(s, j, name, perPid, strict, made).0.Success?
    ensures var (r, s') := CheckIn(s, j, name, perPid, strict, made);
            exists ms :: ms in s'.services && ms.id == r.id && Claimed(s, ms, j, name, perPid)
    ensures var (r, s') := CheckIn(s, j, name, perPid, strict, made);
            forall ms :: ms in s.services && ms.id == r.id ==> !ms.active
  {
    hide Found, Apart, Replace, Lookup, InTable, PerPid;
    FoundMeans(s, j, name, perPid);
    var (r, s') := CheckIn(s, j, name, perPid, strict, made);
    var found := Found(s, j, name, perPid);
    if found.None? {
      assert s'.services[0] in s'.services && Claimed(s, s'.services[0], j, name, perPid);
    } else {
      MadeActive(s, found.value);
      var ms := found.value.(active := true);
      assert ms in s'.services && Claimed(s, ms, j, name, perPid);
    }
  }

  predicate Claimed(s: State, ms: Service, j: JobId, name: string, perPid: bool)
    requires j in s.jobs
  {
    ms.active && ms.job == j && ms.name == name && ms.perPid == perPid && (!perPid ==> ms.space == Space(s, s.jobs[j].mgr))
  }

  lemma MadeActive(s: State, ms: Service)
    requires OneEach(s) && ms in s.services
    ensures Apart(Replace(s.services, ms.(active := true)))
    ensures forall x :: x in Replace(s.services, ms.(active := true)) <==> x == ms.(active := true) || (x in s.services && x != ms)
    ensures forall x :: x in s.services && x.id == ms.id ==> x == ms
  {
    OnlyWithId(s, ms);
    ReplaceMeans(s.services, ms, ms.(active := true));
  }

  lemma RegisterEffect(s: State, j: JobId, name: string, perPid: bool, port: Port, dead: bool)
    requires OneEach(s) && j in s.jobs
    ensures var (r, s') := Register(s, j, name, perPid, port, dead);
            OneEach(s') && OnlyTouches(s, s', j) && Keeps(s, s') && s.nextId <= s'.nextId
    ensures var (r, s') := Register(s, j, name, perPid, port, dead);
            forall ms :: ms in s.services && ms.active ==> ms in s'.services
    ensures var (r, s') := Register(s, j, name, perPid, port, dead);
            forall ms :: ms in s.services && ms !in s'.services ==> ms.job == j && ms.name == name && ms.perPid == perPid
    ensures var (r, s') := Register(s, j, name, perPid, port, dead);
            forall ms :: ms in s'.services ==> ms in s.services || ms.id == s.nextId
  {
    hide Found, Apart, Delete, Lookup, InTable, PerPid, ValidTree;
    FoundMeans(s, j, name, perPid);
    var found := Found(s, j, name, perPid);
    var (r, s') := Register(s, j, name, perPid, port, dead);
    SameTree(s, s');
    if found.Some? {
      FoundDeleted(s, found.value);
    }
    if r.Success? {
      var rest := if found.Some? then Delete(s.services, found.value.id) else s.services;
      AddedApart(rest, s'.services[0]);
    }
  }

  /** A registration leaves the caller's port active under the name; giving the name up leaves no service under it. */
  lemma RegisterClaims(s: State, j: JobId, name: string, perPid: bool, port: Port, dead: bool)
    requires OneEach(s) && j in s.jobs
    ensures var (r, s') := Register(s, j, name, perPid, port, dead);
            r.Success? ==> exists ms :: ms in s'.services && ms.id == r.id && ms.port == port && !ms.recv && Claimed(s, ms, j, name, perPid)
    ensures var (r, s') := Register(s, j, name, perPid, port, dead);
            r.Unregistered? && !perPid ==>
              forall ms :: ms in s'.services ==> ms.perPid || ms.name != name || ms.space != Space(s, s.jobs[j].mgr)
  {
    hide Found, Apart, Delete, Lookup, InTable, PerPid;
    FoundMeans(s, j, name, perPid);
    var found := Found(s, j, name, perPid);
    var (r, s') := Register(s, j, name, perPid, port, dead);
    if found.Some? {
      FoundDeleted(s, found.value);
    }
    if r.Success? {
      assert s'.services[0] in s'.services && Claimed(s, s'.services[0], j, name, perPid);
    }
  }

  /** A configured service is there afterwards, ready to be checked in, unless the name was another's. */
  lemma SetupClaims(s: State, j: JobId, name: string, made: Port, reset: bool)
    requires OneEach(s) && j in s.jobs
    ensures var s' := Setup(s, j, name, made, reset); var found := Found(s', j, name, false);
            found.Some? && (Found(s, j, name, false).None? ==>
              found.value.job == j && !found.value.active && found.value.recv && found.value.port == made && found.value.reset == reset)
  {
    InTableMeans(s.services, Space(s, s.jobs[j].mgr), name);
  }

  /** Once a receive right has come back, its owner can check the service in again. */
  lemma ReturnedCanBeClaimed(s: State, p: Port, made: Port, strict: bool, other: Port)
    requires OneEach(s) && Owner(s.services, p).Some?
    requires var ms := Owner(s.services, p).value;
             !ms.deleteOnReturn && !ms.perPid && ms.job in s.jobs && ms.space == Space(s, s.jobs[ms.job].mgr)
    ensures ValidTree(Returned(s, p, made))
    ensures var ms := Owner(s.services, p).value;
            var (r, _) := CheckIn(Returned(s, p, made), ms.job, ms.name, false, strict, other);
            r == Success(if ms.reset then made else p, ms.id)
  {
    hide Replace, Apart;
    OwnerMeans(s.services, p);
    ReturnedEffect(s, p, made);
    var ms, s' := Owner(s.services, p).value, Returned(s, p, made);
    var back := ms.(active := false, port := if ms.reset then made else ms.port);
    ReplaceMeans(s.services, ms, back);
    FoundMeans(s', ms.job, ms.name, false);
    ApartMeans(s'.services, Found(s', ms.job, ms.name, false).value, back);
  }

  // ---------- Which answer a call gives ----------

  /** The service has the name in the table of the job's manager. */
  predicate Bound(s: State, j: JobId, name: string, ms: Service)
    requires j in s.jobs
  {
    ms in s.services && !ms.perPid && ms.name == name && ms.space == Space(s, s.jobs[j].mgr)
  }

  lemma BoundIsFound(s: State, j: JobId, name: string)
    requires OneEach(s) && j in s.jobs
    ensures forall ms :: Bound(s, j, name, ms) <==> Found(s, j, name, false) == Some(ms)
  {
    hide Apart, Lookup;
    FoundMeans(s, j, name, false);
    forall ms | Bound(s, j, name, ms) ensures Found(s, j, name, false) == Some(ms) {
      ApartMeans(s.services, ms, Found(s, j, name, false).value);
    }
  }

  /** A check-in is refused for another job's service, for an active one, and if strict for want of one; else it succeeds. */
  lemma CheckInAnswers(s: State, j: JobId, name: string, strict: bool, made: Port)
    requires OneEach(s) && j in s.jobs
    ensures
      var (r, s') := CheckIn(s, j, name, false, strict, made);
      && (r.NotPrivileged? <==> exists ms :: Bound(s, j, name, ms) && ms.job != j)
      && (r.ServiceActive? <==> exists ms :: Bound(s, j, name, ms) && ms.job == j && ms.active)
      && (r.UnknownService? <==> strict && forall ms :: !Bound(s, j, name, ms))
      && (r.Success? <==> (exists ms :: Bound(s, j, name, ms) && ms.job == j && !ms.active)
                          || (!strict && forall ms :: !Bound(s, j, name, ms)))
  {
    hide Bound, Found, OneEach;
    BoundIsFound(s, j, name);
  }

  /** The port handed out is that of the service bound, or, for a name not bound, the new one, whose right returns only for old jobs. */
  lemma CheckInPort(s: State, j: JobId, name: string, strict: bool, made: Port)
    requires OneEach(s) && j in s.jobs
    ensures
      var (r, s') := CheckIn(s, j, name, false, strict, made);
      r.Success? ==>
        && (forall ms :: Bound(s, j, name, ms) ==> r.port == ms.port && r.id == ms.id)
        && ((forall ms :: !Bound(s, j, name, ms)) ==>
              r.port == made && s'.services != [] && s'.services[0].port == made
              && (s'.services[0].recv <==> s.jobs[j].legacyMach))
  {
    hide Bound, Found, OneEach;
    BoundIsFound(s, j, name);
  }

  /**
   A registration is refused for another job's service, for an active one, and for one
   whose right launchd hands out; with no port it gives the name up; a dead port
   registers nothing.
   */
  lemma RegisterAnswers(s: State, j: JobId, name: string, port: Port, dead: bool)
    requires OneEach(s) && j in s.jobs
    ensures
      var (r, s') := Register(s, j, name, false, port, dead);
      && (r.NotPrivileged? <==> exists ms :: Bound(s, j, name, ms) && (ms.job != j || (!ms.active && ms.recv && port != 0)))
      && (r.ServiceActive? <==> exists ms :: Bound(s, j, name, ms) && ms.job == j && ms.active)
      && (r.Unregistered? <==> port == 0 && forall ms :: Bound(s, j, name, ms) ==> ms.job == j && !ms.active)
      && (r.NoMemory? <==> port != 0 && dead && forall ms :: Bound(s, j, name, ms) ==> ms.job == j && !ms.active && !ms.recv)
      && (r.Success? <==> port != 0 && !dead && forall ms :: Bound(s, j, name, ms) ==> ms.job == j && !ms.active && !ms.recv)
  {
    hide Bound, Found, OneEach, Delete;
    BoundIsFound(s, j, name);
  }

  /** Among its own per-PID services a job meets no other's: if strict it is refused exactly for want of one. */
  lemma PerPidAnswers(s: State, j: JobId, name: string, strict: bool, made: Port)
    requires ValidTree(s) && j in s.jobs
    ensures
      var (r, s') := CheckIn(s, j, name, true, strict, made);
      && !r.NotPrivileged?
      && (r.UnknownService? <==> strict && forall ms :: ms in s.services ==> !(ms.job == j && ms.perPid && ms.name == name))
      && (r.ServiceActive? ==> exists ms :: ms in s.services && ms.job == j && ms.perPid && ms.name == name && ms.active)
  {
    PerPidMeans(s.services, j, name);
  }

  /** Whatever a refused call asked for, nothing has changed. */
  lemma RefusedChangesNothing(s: State, j: JobId, name: string, perPid: bool, strict: bool, port: Port, dead: bool, made: Port)
    requires ValidTree(s) && j in s.jobs
    ensures var (r, s') := CheckIn(s, j, name, perPid, strict, made); !r.Success? ==> s' == s
    ensures var (r, s') := Register(s, j, name, perPid, port, dead); r.NotPrivileged? || r.ServiceActive? ==> s' == s
  {
    hide Found;
  }

  /** In the flat namespace all managers but explicit subsets share one table, in the other each has its own. */
  lemma WhoSharesNames(s: State, m: MgrId, n: MgrId, name: string)
    requires ValidTree(s)
    ensures s.flat && m !in s.explicitSubset && n !in s.explicitSubset ==>
      Lookup(s, m, name, false) == Lookup(s, n, name, false)
    ensures !s.flat || m in s.explicitSubset ==>
      var found := Lookup(s, m, name, false);
      (found.Some? ==> found.value.space == m) && (found.None? ==> forall ms :: ms in s.services ==> ms.space != m || ms.perPid || ms.name != name)
  {
    InTableMeans(s.services, Space(s, m), name);
  }

  /** Taking a service away frees its name and leaves all others. */
  lemma FoundDeleted(s: State, ms: Service)
    requires OneEach(s) && ms in s.services
    ensures Apart(Delete(s.services, ms.id))
    ensures forall x :: x in Delete(s.services, ms.id) <==> x in s.services && x != ms
    ensures forall x :: x in Delete(s.services, ms.id) ==> !Clash(x, ms) && !Clash(ms, x)
  {
    DeleteMeans(s.services, ms.id);
    forall x | x in s.services && (Clash(x, ms) || Clash(ms, x)) ensures x == ms {
      ApartMeans(s.services, x, ms);
    }
  }

  lemma ReturnedEffect(s: State, p: Port, made: Port)
    requires OneEach(s)
    ensures OneEach(Returned(s, p, made)) && Keeps(s, Returned(s, p, made)) && s.nextId == Returned(s, p, made).nextId
    ensures var owner := Owner(s.services, p);
            forall ms :: ms in s.services && (owner.Some? ==> ms.id != owner.value.id) ==> ms in Returned(s, p, made).services
  {
    OwnerMeans(s.services, p);
    var owner := Owner(s.services, p);
    if owner.Some? {
      var ms := owner.value;
      ReplaceMeans(s.services, ms, ms.(active := false, port := if ms.reset then made else ms.port));
      DeleteMeans(s.services, ms.id);
    }
  }

  lemma NextKeeps(s: State, e: Step, s': State, r: Status)
    requires OneEach(s) && Next(s, e, s', r)
    ensures OneEach(s') && s'.parent == s.parent && s'.explicitSubset == s.explicitSubset && s'.flat == s.flat
    ensures s.nextId <= s'.nextId
  {
    hide Setup, CheckIn, Register, Returned;
    match e
    case SetupStep(j, name, made, reset) => SetupEffect(s, j, name, made, reset);
    case CheckInStep(j, name, perPid, strict, made) => CheckInEffect(s, j, name, perPid, strict, made);
    case RegisterStep(j, name, perPid, port, dead) => RegisterEffect(s, j, name, perPid, port, dead);
    case DiedStep(p) => PortDiedMeans(s.services, p);
    case ReturnStep(p, made) => ReturnedEffect(s, p, made);
    case RemoveStep(j) => DroppedMeans(s.services, j);
    case AddStep(_, _) =>
  }

  /** Whose call a step is. */
  function Caller(e: Step): Option<JobId> {
    match e
    case SetupStep(j, _, _, _) => Some(j)
    case CheckInStep(j, _, _, _, _) => Some(j)
    case RegisterStep(j, _, _, _, _) => Some(j)
    case RemoveStep(j) => Some(j)
    case _ => None
  }

  /** Only its owner can make a service active, replace it, or take it away; otherwise only its port can. */
  lemma OnlyTheOwner(s: State, e: Step, s': State, r: Status, ms: Service)
    requires OneEach(s) && Next(s, e, s', r) && Caller(e).Some? && ms.job != Caller(e).value
    ensures ms in s'.services <==> ms in s.services
  {
    hide Setup, CheckIn, Register, Returned;
    match e
    case SetupStep(j, name, made, reset) => SetupEffect(s, j, name, made, reset);
    case CheckInStep(j, name, perPid, strict, made) => CheckInEffect(s, j, name, perPid, strict, made);
    case RegisterStep(j, name, perPid, port, dead) => RegisterEffect(s, j, name, perPid, port, dead);
    case RemoveStep(j) => DroppedMeans(s.services, j);
  }

  // ---------- Runs ----------

  ghost predicate Init(s: State) {
    ValidTree(s) && s.services == [] && s.nextId == 0
  }

  ghost predicate IsRun(trace: seq<State>, steps: seq<Step>, answers: seq<Status>) {
    && |trace| == |steps| + 1 == |answers| + 1 && Init(trace[0])
    && forall k :: 0 <= k < |steps| ==> Next(trace[k], steps[k], trace[k + 1], answers[k])
  }

  lemma {:induction false} EveryStateOneEach(trace: seq<State>, steps: seq<Step>, answers: seq<Status>, k: nat)
    requires IsRun(trace, steps, answers) && k <= |steps|
    ensures OneEach(trace[k])
  {
    hide OneEach, Next;
    if k == 0 {
      InitOneEach(trace[0]);
    } else {
      EveryStateOneEach(trace, steps, answers, k - 1);
      assert Next(trace[k - 1], steps[k - 1], trace[k - 1 + 1], answers[k - 1]);
      NextKeeps(trace[k - 1], steps[k - 1], trace[k], answers[k - 1]);
    }
  }

  lemma InitOneEach(s: State)
    requires Init(s)
    ensures OneEach(s)
  {
  }

  /** In every state no table holds a name twice. */
  lemma NamesAreUnique(trace: seq<State>, steps: seq<Step>, answers: seq<Status>, k: nat, a: Service, b: Service)
    requires IsRun(trace, steps, answers) && k <= |steps| && a in trace[k].services && b in trace[k].services
    requires a.space == b.space && a.name == b.name && !a.perPid && !b.perPid
    ensures a == b
  {
    EveryStateOneEach(trace, steps, answers, k);
    ApartMeans(trace[k].services, a, b);
  }

  /** Step k takes the receive right of a service back, or deletes the service. */
  ghost predicate Frees(trace: seq<State>, steps: seq<Step>, k: nat, id: nat)
    requires k < |steps| && k + 1 < |trace|
  {
    || (steps[k].ReturnStep? && Owner(trace[k].services, steps[k].p).Some? && Owner(trace[k].services, steps[k].p).value.id == id)
    || ((exists ms :: ms in trace[k].services && ms.id == id) && forall ms :: ms in trace[k + 1].services ==> ms.id != id)
  }

  /** An active service stays as it is, unless its right returns or it is deleted. */
  lemma ActiveStays(s: State, e: Step, s': State, r: Status, ms: Service)
    requires OneEach(s) && Next(s, e, s', r) && ms in s.services && ms.active
    requires !(e.ReturnStep? && Owner(s.services, e.p).Some? && Owner(s.services, e.p).value.id == ms.id)
    ensures ms in s'.services || forall x :: x in s'.services ==> x.id != ms.id
  {
    hide Setup, CheckIn, Register, Returned;
    match e
    case SetupStep(j, name, made, reset) => SetupEffect(s, j, name, made, reset);
    case CheckInStep(j, name, perPid, strict, made) => CheckInEffect(s, j, name, perPid, strict, made);
    case RegisterStep(j, name, perPid, port, dead) => RegisterEffect(s, j, name, perPid, port, dead);
    case DiedStep(p) =>
      PortDiedMeans(s.services, p);
      OnlyWithId(s, ms);
    case ReturnStep(p, made) => ReturnedEffect(s, p, made);
    case RemoveStep(j) =>
      DroppedMeans(s.services, j);
      OnlyWithId(s, ms);
    case AddStep(_, _) =>
  }

  lemma OnlyWithId(s: State, ms: Service)
    requires OneEach(s) && ms in s.services
    ensures forall x :: x in s.services && x.id == ms.id ==> x == ms
  {
    forall x | x in s.services && x.id == ms.id ensures x == ms {
      ApartMeans(s.services, x, ms);
    }
  }

  lemma {:induction false} ActiveUntilFreed(trace: seq<State>, steps: seq<Step>, answers: seq<Status>, k: nat, l: nat, ms: Service)
    requires IsRun(trace, steps, answers) && k <= l <= |steps| && ms in trace[k].services && ms.active
    ensures ms in trace[l].services || exists i :: k <= i < l && Frees(trace, steps, i, ms.id)
    decreases l
  {
    if k < l {
      ActiveUntilFreed(trace, steps, answers, k, l - 1, ms);
      if ms in trace[l - 1].services {
        EveryStateOneEach(trace, steps, answers, l - 1);
        assert Next(trace[l - 1], steps[l - 1], trace[l - 1 + 1], answers[l - 1]);
        if !Frees(trace, steps, l - 1, ms.id) {
          ActiveStays(trace[l - 1], steps[l - 1], trace[l], answers[l - 1], ms);
        }
      } else {
        var i :| k <= i < l - 1 && Frees(trace, steps, i, ms.id);
      }
    }
  }

  /** Step k is a successful check-in of a name in a table. */
  ghost predicate ChecksIn(trace: seq<State>, steps: seq<Step>, answers: seq<Status>, k: nat, space: MgrId, name: string)
    requires k < |steps| && k < |answers| && k < |trace|
  {
    && steps[k].CheckInStep? && !steps[k].perPid && steps[k].name == name && answers[k].Success?
    && steps[k].j in trace[k].jobs && Space(trace[k], trace[k].jobs[steps[k].j].mgr) == space
  }

  /** Between two successful check-ins of one name its receive right came back, or the service was deleted. */
  lemma CheckInsAreSeparated(trace: seq<State>, steps: seq<Step>, answers: seq<Status>, k: nat, l: nat, space: MgrId, name: string)
    requires IsRun(trace, steps, answers) && k < l < |steps|
    requires ChecksIn(trace, steps, answers, k, space, name) && ChecksIn(trace, steps, answers, l, space, name)
    ensures exists i :: k < i < l && Frees(trace, steps, i, answers[k].id)
  {
    var e := steps[k];
    EveryStateOneEach(trace, steps, answers, k);
    assert Next(trace[k], e, trace[k + 1], answers[k]);
    CheckInClaims(trace[k], e.j, name, false, e.strict, e.made);
    var ms :| ms in trace[k + 1].services && ms.id == answers[k].id && Claimed(trace[k], ms, e.j, name, false);
    ActiveUntilFreed(trace, steps, answers, k + 1, l, ms);
    if ms in trace[l].services {
      EveryStateOneEach(trace, steps, answers, l);
      ActiveRefuses(trace[l], steps[l], trace[l + 1], answers[l], ms);
    }
  }

  /** A name that is active cannot be checked in. */
  lemma ActiveRefuses(s: State, e: Step, s': State, r: Status, ms: Service)
    requires OneEach(s) && Next(s, e, s', r) && e.CheckInStep? && !e.perPid
    requires ms in s.services && ms.active && !ms.perPid && ms.name == e.name && ms.space == Space(s, s.jobs[e.j].mgr)
    ensures !r.Success?
  {
    FoundMeans(s, e.j, e.name, false);
    ApartMeans(s.services, Found(s, e.j, e.name, false).value, ms);
  }
}
