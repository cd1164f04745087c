/**
 Looking a service up (src/core.c, jobmgr_lookup_service): in the hierarchical namespace
 of PID 1 the nearest enclosing manager that has the name answers.
 */
module NamespaceLookup {
  import opened Options
  import opened NamespaceSpec
  import opened NamespaceSafety

  /** A manager and those that enclose it, nearest first. */
  function Path(s: State, m: MgrId): (path: seq<MgrId>)
    requires ValidTree(s)
    ensures path != [] && path[0] == m
    decreases m
  {
    if m in s.parent then [m] + Path(s, s.parent[m]) else [m]
  }

  predicate Binds(s: State, m: MgrId, name: string) {
    InTable(s.services, m, name).Some?
  }

  /** The place on the path of the first manager with the name, or the path's end. */
  function NearestAt(s: State, path: seq<MgrId>, name: string): (k: nat)
    ensures k <= |path|
  {
    if path == [] || Binds(s, path[0], name) then 0 else 1 + NearestAt(s, path[1..], name)
  }

  lemma {:induction false} LookupAlong(s: State, m: MgrId, name: string)
    requires ValidTree(s) && !s.flat
    ensures var path := Path(s, m); var k := NearestAt(s, path, name);
            Lookup(s, m, name, true) == if k < |path| then InTable(s.services, path[k], name) else None
    decreases m
  {
    var path := Path(s, m);
    if m in s.parent && !Binds(s, m, name) {
      assert path[1..] == Path(s, s.parent[m]);
      LookupAlong(s, s.parent[m], name);
    } else {
      assert path[1..] == [] || Binds(s, m, name);
    }
  }

  lemma {:induction false} NearestBinds(s: State, path: seq<MgrId>, name: string)
    ensures
      var k := NearestAt(s, path, name);
      (k < |path| ==> Binds(s, path[k], name)) && forall i :: 0 <= i < k ==> !Binds(s, path[i], name)
  {
    if path != [] && !Binds(s, path[0], name) {
      NearestBinds(s, path[1..], name);
      var k := NearestAt(s, path[1..], name);
      assert forall i :: 1 <= i < k + 1 ==> path[i] == path[1..][i - 1];
    }
  }

  /** The service found is that of the nearest manager on the path with the name; none is found if none has it. */
  lemma NearestAnswers(s: State, m: MgrId, name: string)
    requires ValidTree(s) && !s.flat
    ensures Lookup(s, m, name, true).None? <==> forall i :: 0 <= i < |Path(s, m)| ==> !Binds(s, Path(s, m)[i], name)
    ensures Lookup(s, m, name, true).Some? ==> exists k :: AnswersAt(s, Path(s, m), k, name, Lookup(s, m, name, true).value)
  {
    var path := Path(s, m);
    var k := NearestAt(s, path, name);
    LookupAlong(s, m, name);
    NearestBinds(s, path, name);
    if k < |path| {
      InTableMeans(s.services, path[k], name);
      assert AnswersAt(s, path, k, name, Lookup(s, m, name, true).value);
    }
  }

  /** A service of the name in the k-th manager of a path, none before which has the name. */
  ghost predicate AnswersAt(s: State, path: seq<MgrId>, k: int, name: string, ms: Service) {
    && 0 <= k < |path| && ms in s.services && ms.space == path[k] && ms.name == name && !ms.perPid
    && forall i :: 0 <= i < k ==> !Binds(s, path[i], name)
  }

  /** One more service, put at the front as machservice_new does. */
  function Adding(s: State, ms: Service): State {
    s.(services := [ms] + s.services)
  }

  lemma AddedBinding(s: State, ms: Service, m: MgrId, name: string)
    ensures
      var r := InTable(Adding(s, ms).services, m, name);
      if m == ms.space && name == ms.name && !ms.perPid then r == Some(ms) else r == InTable(s.services, m, name)
  {
    assert ([ms] + s.services)[1..] == s.services;
  }

  /** The first place of a manager on a path. */
  lemma {:induction false} NearestMoves(s: State, ms: Service, path: seq<MgrId>)
    requires !ms.perPid
    ensures
      var k, k' := NearestAt(s, path, ms.name), NearestAt(Adding(s, ms), path, ms.name);
      if exists i :: 0 <= i < k && path[i] == ms.space then k' < k && path[k'] == ms.space else k' == k
    decreases |path|
  {
    if path != [] {
      AddedBinding(s, ms, path[0], ms.name);
      if path[0] != ms.space && !Binds(s, path[0], ms.name) {
        NearestMoves(s, ms, path[1..]);
        var k, k1 := NearestAt(s, path, ms.name), NearestAt(s, path[1..], ms.name);
        if i :| 0 <= i < k && path[i] == ms.space {
          assert path[1..][i - 1] == ms.space;
        } else {
          assert forall i :: 0 <= i < k1 ==> path[1..][i] == path[i + 1];
        }
      }
    }
  }

  lemma {:induction false} SamePath(s: State, ms: Service, m: MgrId)
    requires ValidTree(s)
    ensures ValidTree(Adding(s, ms)) && Path(Adding(s, ms), m) == Path(s, m)
    decreases m
  {
    if m in s.parent {
      SamePath(s, ms, s.parent[m]);
    }
  }

  lemma {:induction false} OtherNamesStay(s: State, ms: Service, path: seq<MgrId>, name: string)
    requires name != ms.name
    ensures NearestAt(Adding(s, ms), path, name) == NearestAt(s, path, name)
  {
    if path != [] {
      AddedBinding(s, ms, path[0], name);
      OtherNamesStay(s, ms, path[1..], name);
    }
  }

  /**
   A service newly added in a manager changes the answer for its name exactly where the
   manager lies on the way before any other with the name; every other answer stays.
   */
  lemma AddingIsLocal(s: State, ms: Service, m: MgrId, name: string)
    requires ValidTree(s) && !s.flat && !ms.perPid && !Binds(s, ms.space, ms.name)
    ensures ValidTree(Adding(s, ms))
    ensures
      var path := Path(s, m);
      Lookup(Adding(s, ms), m, name, true) ==
        if name == ms.name && exists i :: 0 <= i < NearestAt(s, path, name) && path[i] == ms.space then Some(ms)
        else Lookup(s, m, name, true)
  {
    var path, s' := Path(s, m), Adding(s, ms);
    SamePath(s, ms, m);
    LookupAlong(s, m, name);
    LookupAlong(s', m, name);
    if name == ms.name {
      NearestMoves(s, ms, path);
    } else {
      OtherNamesStay(s, ms, path, name);
    }
    var k := NearestAt(s', path, name);
    if k < |path| {
      AddedBinding(s, ms, path[k], name);
      NearestBinds(s, path, name);
    }
  }
}
