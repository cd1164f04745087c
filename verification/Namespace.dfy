/**
 The calls on Mach services as they walk and change launchd's lists.
 */
module Namespace {
  import opened Options
  import opened NamespaceSpec
  import opened NamespaceSafety

  class Bootstrap {
    const parent: map<MgrId, MgrId>
    const explicitSubset: set<MgrId>
    const flat: bool
    var jobs: map<JobId, Job>
    var services: seq<Service>
    var nextId: nat

    function View(): State
      reads this
    {
      State(parent, explicitSubset, flat, jobs, services, nextId)
    }

    constructor (parent: map<MgrId, MgrId>, explicitSubset: set<MgrId>, flat: bool)
      requires forall m :: m in parent ==> parent[m] < m
      requires forall m :: m in parent && parent[m] != ROOT ==> parent[m] in parent
      ensures Init(View())
    {
      this.parent, this.explicitSubset, this.flat := parent, explicitSubset, flat;
      jobs, services, nextId := map[], [], 0;
    }

    /** jobmgr_lookup_service: the manager's own table, then, if asked, its parents'. */
    method LookupService(m: MgrId, name: string, checkParent: bool) returns (found: Option<Service>)
      requires ValidTree(View())
      ensures found == Lookup(View(), m, name, checkParent)
      decreases m
    {
      var where := Space(View(), m);
      var k := 0;
      while k < |services|
        invariant k <= |services|
        invariant InTable(services, where, name) == InTable(services[k..], where, name)
      {
        var ms := services[k];
        if ms.space == where && !ms.perPid && ms.name == name {
          return Some(ms);
        }
        assert services[k..][1..] == services[k + 1..];
        k := k + 1;
      }
      if m !in parent || !checkParent {
        return None;
      }
      found := LookupService(parent[m], name, true);
    }

    /** The lookup of a per-PID service among the calling job's own. */
    method LookupPerPid(j: JobId, name: string) returns (found: Option<Service>)
      ensures found == PerPid(services, j, name)
    {
      for k := 0 to |services|
        invariant PerPid(services, j, name) == PerPid(services[k..], j, name)
      {
        var ms := services[k];
        if ms.job == j && ms.perPid && ms.name == name {
          return Some(ms);
        }
        assert services[k..][1..] == services[k + 1..];
      }
      return None;
    }

    method Find(j: JobId, name: string, perPid: bool) returns (found: Option<Service>)
      requires ValidTree(View()) && j in jobs
      ensures found == Found(View(), j, name, perPid)
    {
      if perPid {
        found := LookupPerPid(j, name);
      } else {
        found := LookupService(jobs[j].mgr, name, false);
      }
    }

    /** machservice_new: the service goes to the front of the lists. */
    method MachserviceNew(j: JobId, name: string, perPid: bool, port: Port, made: Port) returns (ms: Service)
      requires j in jobs
      modifies `services, `nextId
      ensures View() == New(old(View()), j, name, perPid, port, made) && ms == services[0]
    {
      var space := Space(View(), jobs[j].mgr);
      if port == NULL_PORT {
        ms := Service(nextId, name, j, space, perPid, false, true, made, false, false);
      } else {
        ms := Service(nextId, name, j, space, perPid, true, false, port, false, false);
      }
      services := [ms] + services;
      nextId := nextId + 1;
    }

    /** machservice_setup */
    method MachserviceSetup(j: JobId, name: string, made: Port, reset: bool)
      requires ValidTree(View()) && j in jobs
      modifies `services, `nextId
      ensures View() == Setup(old(View()), j, name, made, reset)
    {
      var found := Find(j, name, false);
      if found.Some? {
        return;
      }
      ghost var before := services;
      var ms := MachserviceNew(j, name, false, NULL_PORT, made);
      assert services[1..] == before;
      services := [ms.(reset := reset)] + services[1..];
    }

    method CheckIn2(j: JobId, name: string, perPid: bool, strict: bool, made: Port) returns (r: Status)
      requires ValidTree(View()) && j in jobs
      modifies `services, `nextId
      ensures (r, View()) == CheckIn(old(View()), j, name, perPid, strict, made)
    {
      hide Found, Replace;
      var found := Find(j, name, perPid);
      if strict {
        if found.None? {
          return UnknownService;
        } else if found.value.job != j {
          return NotPrivileged;
        } else if found.value.active {
          return ServiceActive;
        }
      } else if found.None? {
        ghost var before := services;
        var ms := MachserviceNew(j, name, perPid, NULL_PORT, made);
        if !jobs[j].legacyMach {
          ms := ms.(active := true, recv := false);
        }
        // machservice_request_notifications
        ms := ms.(active := true);
        assert services[1..] == before;
        services := [ms] + services[1..];
        return Success(ms.port, ms.id);
      } else if found.value.job != j {
        return NotPrivileged;
      } else if found.value.active {
        return ServiceActive;
      }
      var ms := found.value.(active := true);
      services := Replace(services, ms);
      return Success(ms.port, ms.id);
    }

    method Register2(j: JobId, name: string, perPid: bool, port: Port, dead: bool) returns (r: Status)
      requires ValidTree(View()) && j in jobs
      modifies `services, `nextId
      ensures (r, View()) == Register(old(View()), j, name, perPid, port, dead)
    {
      hide Found, Delete;
      var found := Find(j, name, perPid);
      if found.Some? {
        if found.value.job != j {
          return NotPrivileged;
        }
        if found.value.active {
          return ServiceActive;
        }
        if found.value.recv && port != NULL_PORT {
          return NotPrivileged;
        }
        services := Delete(services, found.value.id);
      }
      if port == NULL_PORT {
        return Unregistered;
      }
      if dead {
        return NoMemory;
      }
      var ms := MachserviceNew(j, name, perPid, port, NULL_PORT);
      return Success(port, ms.id);
    }

    /** jobmgr_delete_anything_with_port, as to services. */
    method DeleteAnythingWithPort(p: Port)
      modifies `services
      ensures services == PortDied(old(services), p)
    {
      var kept := [];
      for k := 0 to |services|
        invariant services == old(services)
        invariant PortDied(services, p) == kept + PortDied(services[k..], p)
      {
        assert services[k..][1..] == services[k + 1..];
        if !(services[k].port == p && !services[k].recv) {
          kept := kept + [services[k]];
        }
      }
      services := kept;
    }

    /** job_ack_port_destruction */
    method AckPortDestruction(p: Port, made: Port) returns (known: bool)
      modifies `services
      ensures View() == Returned(old(View()), p, made) && (known <==> Owner(old(services), p).Some?)
    {
      var k := 0;
      while k < |services| && !(services[k].recv && services[k].port == p)
        invariant k <= |services| && Owner(services, p) == Owner(services[k..], p)
      {
        assert services[k..][1..] == services[k + 1..];
        k := k + 1;
      }
      if k == |services| {
        return false;
      }
      var ms := services[k].(active := false);
      if ms.deleteOnReturn {
        services := Delete(services, ms.id);
        return true;
      } else if ms.reset {
        ms := ms.(port := made);
      }
      services := Replace(services, ms);
      return true;
    }
  }
}
