/**
 Mach services: names kept for job managers, and the calls that create, claim, replace
 and return them (src/core.c).
 */
module NamespaceSpec {
  import opened Options

  type JobId = nat
  type MgrId = nat
  type Port = nat

  /**
   A service.  `space` is the manager whose table holds its name; `recv` says that
   launchd made the port and hands its receive right out; `id` tells services apart that
   follow one another under a name.  `deleteOnReturn` is delete_on_destruction, which
   nothing sets but a copy from another service.
   */
  datatype Service = Service(
    id: nat, name: string, job: JobId, space: MgrId, perPid: bool,
    active: bool, recv: bool, port: Port, reset: bool, deleteOnReturn: bool)

  datatype Job = Job(mgr: MgrId, legacyMach: bool)

  /** Managers point to their parents, which are older; `services` is in the order of the lists, newest first. */
  datatype State = State(
    parent: map<MgrId, MgrId>, explicitSubset: set<MgrId>, flat: bool,
    jobs: map<JobId, Job>, services: seq<Service>, nextId: nat)

  const ROOT: MgrId := 0
  const NULL_PORT: Port := 0

  predicate ValidTree(s: State) {
    && (forall m :: m in s.parent ==> s.parent[m] < m)
    && forall m :: m in s.parent && s.parent[m] != ROOT ==> s.parent[m] in s.parent
  }

  /** The table a manager's services are put in and looked up in. */
  function Space(s: State, m: MgrId): MgrId {
    if s.flat && m !in s.explicitSubset then ROOT else m
  }

  /** The first service of a name in a table. */
  function InTable(services: seq<Service>, space: MgrId, name: string): Option<Service> {
    if services == [] then None
    else if services[0].space == space && !services[0].perPid && services[0].name == name then Some(services[0])
    else InTable(services[1..], space, name)
  }

  /** The first per-PID service of a name among a job's own. */
  function PerPid(services: seq<Service>, j: JobId, name: string): Option<Service> {
    if services == [] then None
    else if services[0].job == j && services[0].perPid && services[0].name == name then Some(services[0])
    else PerPid(services[1..], j, name)
  }

  /** jobmgr_lookup_service, with no target process. */
  function Lookup(s: State, m: MgrId, name: string, checkParent: bool): Option<Service>
    requires ValidTree(s)
    decreases m
  {
    var found := InTable(s.services, Space(s, m), name);
    if found.Some? || m !in s.parent || !checkParent then found
    else Lookup(s, s.parent[m], name, true)
  }

  // ---------- Changes to the lists ----------

  /** machservice_new */
  function New(s: State, j: JobId, name: string, perPid: bool, port: Port, made: Port): State
    requires j in s.jobs
  {
    var own := port == NULL_PORT;
    var ms := Service(s.nextId, name, j, Space(s, s.jobs[j].mgr), perPid, !own, own, if own then made else port, false, false);
    s.(services := [ms] + s.services, nextId := s.nextId + 1)
  }

  /** machservice_delete */
  function Delete(services: seq<Service>, id: nat): seq<Service> {
    if services == [] then []
    else if services[0].id == id then services[1..]
    else [services[0]] + Delete(services[1..], id)
  }

  function Replace(services: seq<Service>, ms: Service): seq<Service> {
    if services == [] then []
    else if services[0].id == ms.id then [ms] + services[1..]
    else [services[0]] + Replace(services[1..], ms)
  }

  // ---------- Calls ----------

  datatype Status = Success(port: Port, id: nat) | NotPrivileged | ServiceActive | UnknownService | NoMemory | Unregistered

  /** What a call finds under a name: a per-PID service of the calling process, or the name in the job's own table. */
  function Found(s: State, j: JobId, name: string, perPid: bool): Option<Service>
    requires ValidTree(s) && j in s.jobs
  {
    if perPid then PerPid(s.services, j, name) else Lookup(s, s.jobs[j].mgr, name, false)
  }

  /** machservice_setup, from a job's configuration; `made` is the port the kernel makes. */
  function Setup(s: State, j: JobId, name: string, made: Port, reset: bool): State
    requires ValidTree(s) && j in s.jobs
  {
    if Found(s, j, name, false).Some? then s
    else
      var s' := New(s, j, name, false, NULL_PORT, made);
      s'.(services := [s'.services[0].(reset := reset)] + s.services)
  }

  /** job_mig_check_in2 */
  function CheckIn(s: State, j: JobId, name: string, perPid: bool, strict: bool, made: Port): (Status, State)
    requires ValidTree(s) && j in s.jobs
  {
    match Found(s, j, name, perPid)
    case None =>
      if strict then (UnknownService, s)
      else
        // Treated like a legacy job's, unless it is one.
        var s' := New(s, j, name, perPid, NULL_PORT, made);
        var ms := s'.services[0].(active := true, recv := s.jobs[j].legacyMach);
        (Success(ms.port, ms.id), s'.(services := [ms] + s.services))
    case Some(ms) =>
      if ms.job != j then (NotPrivileged, s)
      else if ms.active then (ServiceActive, s)
      else (Success(ms.port, ms.id), s.(services := Replace(s.services, ms.(active := true))))
  }

  /** job_mig_register2, with a port of the caller's, or none to give the name up; `dead` ports register nothing. */
  function Register(s: State, j: JobId, name: string, perPid: bool, port: Port, dead: bool): (Status, State)
    requires ValidTree(s) && j in s.jobs
  {
    var found := Found(s, j, name, perPid);
    if found.Some? && found.value.job != j then (NotPrivileged, s)
    else if found.Some? && found.value.active then (ServiceActive, s)
    else if found.Some? && found.value.recv && port != NULL_PORT then (NotPrivileged, s)
    else
      var s := if found.Some? then s.(services := Delete(s.services, found.value.id)) else s;
      if port == NULL_PORT then (Unregistered, s)
      else if dead then (NoMemory, s)
      else
        var s' := New(s, j, name, perPid, port, NULL_PORT);
        (Success(port, s.nextId), s')
  }

  /** The services a dead port belonged to, whose receive rights were never launchd's. */
  function PortDied(services: seq<Service>, p: Port): seq<Service> {
    if services == [] then []
    else (if services[0].port == p && !services[0].recv then [] else [services[0]]) + PortDied(services[1..], p)
  }

  /** The service whose receive right a port is. */
  function Owner(services: seq<Service>, p: Port): Option<Service> {
    if services == [] then None
    else if services[0].recv && services[0].port == p then Some(services[0])
    else Owner(services[1..], p)
  }

  /** job_ack_port_destruction: a receive right comes back; `made` is the port that replaces it on a reset. */
  function Returned(s: State, p: Port, made: Port): State {
    match Owner(s.services, p)
    case None => s
    case Some(ms) =>
      s.(services := if ms.deleteOnReturn then Delete(s.services, ms.id)
                     else Replace(s.services, ms.(active := false, port := if ms.reset then made else ms.port)))
  }

  /** job_remove, as to a job's services. */
  function Dropped(services: seq<Service>, j: JobId): seq<Service> {
    if services == [] then []
    else (if services[0].job == j then [] else [services[0]]) + Dropped(services[1..], j)
  }

  datatype Step =
    | SetupStep(j: JobId, name: string, made: Port, reset: bool)
    | CheckInStep(j: JobId, name: string, perPid: bool, strict: bool, made: Port)
    | RegisterStep(j: JobId, name: string, perPid: bool, port: Port, dead: bool)
    | DiedStep(p: Port)
    | ReturnStep(p: Port, made: Port)
    | RemoveStep(j: JobId)
    | AddStep(j: JobId, job: Job)

  /** A step and what it answers. */
  ghost predicate Next(s: State, e: Step, s': State, r: Status) {
    ValidTree(s) &&
    match e
    case SetupStep(j, name, made, reset) => j in s.jobs && s' == Setup(s, j, name, made, reset) && r == Unregistered
    case CheckInStep(j, name, perPid, strict, made) => j in s.jobs && (r, s') == CheckIn(s, j, name, perPid, strict, made)
    case RegisterStep(j, name, perPid, port, dead) => j in s.jobs && (r, s') == Register(s, j, name, perPid, port, dead)
    case DiedStep(p) => s' == s.(services := PortDied(s.services, p)) && r == Unregistered
    case ReturnStep(p, made) => s' == Returned(s, p, made) && r == Unregistered
    case RemoveStep(j) => j in s.jobs && s' == s.(services := Dropped(s.services, j), jobs := s.jobs - {j}) && r == Unregistered
    case AddStep(j, job) =>
      && j !in s.jobs && (forall ms :: ms in s.services ==> ms.job != j)
      && s' == s.(jobs := s.jobs[j := job]) && r == Unregistered
  }
}
