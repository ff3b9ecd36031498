/** The GitLab reconciler as one program (roles/gitlab_rbac/_archive/reconcile.rb): admins, groups,
    memberships, projects and SSH keys, in that order, on one instance. */
module GitlabRbac {
  import opened Basics
  import opened Reconcile
  import opened GitlabGroups
  import opened GitlabMembers
  import opened GitlabProjects
  import opened GitlabKeys

  datatype Desired = Desired(admins: seq<string>, enforceAdmins: bool, groups: seq<GroupSpec>, members: seq<MemberSpec>,
                             deleteProjects: seq<Path>, projects: seq<ProjectSpec>, userKeys: seq<UserKeys>)

  /** How the instance itself behaves. */
  datatype Server = Server(refusedGroups: set<Path>, refusedProjects: set<Path>, guarded: bool, defaultDesk: bool)

  datatype World = World(users: Users, groups: Groups, direct: Direct, raised: bool, projects: Projects, keys: Keys)

  function ManagedPaths(gs: seq<GroupSpec>): seq<Path> {
    seq(|gs|, i requires 0 <= i < |gs| => Full(gs[i]))
  }

  // ----- admins

  /** The human admins who are neither listed nor root. */
  predicate Demotable(users: Users, admins: seq<string>, u: string) {
    u in users && users[u].admin && users[u].human && u !in admins && u != "root"
  }

  function Extra(users: Users, admins: seq<string>): set<string> {
    set u | u in users && Demotable(users, admins, u)
  }

  function Missing(users: Users, admins: seq<string>): set<string> {
    set u | u in users && u in admins && !users[u].admin
  }

  function WithAdmin(users: Users, who: set<string>, admin: bool): Users {
    map u | u in users :: if u in who then users[u].(admin := admin) else users[u]
  }

  lemma WithOneMore(users: Users, who: set<string>, u: string, admin: bool)
    requires u in users && u !in who
    ensures WithAdmin(users, who, admin)[u := users[u].(admin := admin)] == WithAdmin(users, who + {u}, admin)
  {
  }

  function RunAdmins(users: Users, admins: seq<string>, enforce: bool): Out<Users> {
    var extra := if enforce then Extra(users, admins) else {};
    var demoted := WithAdmin(users, extra, false);
    var missing := Missing(demoted, admins);
    Out(WithAdmin(demoted, missing, true), |extra| + |missing|)
  }

  /** The listed users are admins. With exactness enforced no other human is, root aside; without, nobody is
      demoted. Bots and root are never demoted, and no account that is not listed is promoted. */
  lemma AdminsExactAndConverge(users: Users, admins: seq<string>, enforce: bool)
    ensures var t := RunAdmins(users, admins, enforce).state;
      && t.Keys == users.Keys
      && (forall u :: u in users ==> t[u].human == users[u].human)
      && (forall u :: u in users && u in admins ==> t[u].admin)
      && (forall u :: u in users && u !in admins ==>
            t[u].admin == (users[u].admin && !(enforce && users[u].human && u != "root")))
      && RunAdmins(t, admins, enforce) == Out(t, 0)
  {
    var t := RunAdmins(users, admins, enforce).state;
    assert Extra(t, admins) == {} || !enforce;
    assert WithAdmin(t, {}, false) == t && WithAdmin(t, {}, true) == t;
    assert Missing(t, admins) == {};
  }

  // ----- the whole run

  function SiteOf(server: Server, users: Users, groups: Groups): Site {
    Site(groups.Keys, users, server.guarded)
  }

  function HostOf(server: Server, groups: Groups): Host {
    Host(groups.Keys, server.refusedProjects, server.defaultDesk)
  }

  /** The sections after admins and groups. */
  function Later(server: Server, users: Users, groups: Groups, w: World, d: Desired): Out<World> {
    var m := RunMembers(SiteOf(server, users, groups), w.direct, ManagedPaths(d.groups), d.members);
    if m.state.raised then Out(World(users, groups, m.state.direct, true, w.projects, w.keys), m.changes)
    else
      var p := RunProjects(HostOf(server, groups), w.projects, d.deleteProjects, d.projects);
      var k := RunKeys(users, w.keys, d.userKeys);
      Out(World(users, groups, m.state.direct, false, p.state, k.state), m.changes + p.changes + k.changes)
  }

  function Reconciled(server: Server, w: World, d: Desired): Out<World> {
    var a := RunAdmins(w.users, d.admins, d.enforceAdmins);
    var g := RunGroups(server.refusedGroups, w.groups, d.groups);
    var l := Later(server, a.state, g.state, w, d);
    Out(l.state, a.changes + g.changes + l.changes)
  }

  /** No group and no membership is declared twice. */
  ghost predicate Unique(d: Desired) {
    UniqueGroups(d.groups) && UniquePairs(d.members)
  }

  /** Once the groups are there, no grant is refused, no deletion takes what is created, and entries for one
      project and for the keys of one account agree. */
  ghost predicate LaterTakes(server: Server, users: Users, groups: Groups, w: World, d: Desired) {
    && GrantsTake(SiteOf(server, users, groups), w.direct, ManagedPaths(d.groups), d.members)
    && DeletesDisjoint(HostOf(server, groups), d.deleteProjects, d.projects)
    && ProjectsAgree(HostOf(server, groups), Remaining(w.projects, d.deleteProjects), d.projects)
    && KeysAgree(users, d.userKeys)
  }

  ghost predicate RestTakes(server: Server, w: World, d: Desired) {
    LaterTakes(server, w.users, RunGroups(server.refusedGroups, w.groups, d.groups).state, w, d)
  }

  /** What the desired state must be for one run to be enough. */
  ghost predicate WellFormed(server: Server, w: World, d: Desired) {
    Unique(d) && ParentsFirst(server.refusedGroups, w.groups, d.groups) && RestTakes(server, w, d)
  }

  ghost predicate GrantsTake(site: Site, direct: Direct, managed: seq<Path>, ms: seq<MemberSpec>) {
    AllTake(site, Left(site, direct, managed, ms), ms)
  }

  lemma SameLeft(site: Site, site': Site, direct: Direct, managed: seq<Path>, ms: seq<MemberSpec>)
    requires site'.groups == site.groups && site'.users.Keys == site.users.Keys
    requires forall u :: u in site.users ==> site.users[u].human == site'.users[u].human
    ensures Left(site', direct, managed, ms) == Left(site, direct, managed, ms)
  {
    PrunedExactly(site, direct, managed, ms);
    PrunedExactly(site', direct, managed, ms);
    assert managed[..|managed|] == managed;
  }

  /** The members section looks at who is human, not at who is admin. */
  lemma AdminsDoNotMatter(site: Site, site': Site, direct: Direct, managed: seq<Path>, ms: seq<MemberSpec>)
    requires site'.groups == site.groups && site'.guarded == site.guarded && site'.users.Keys == site.users.Keys
    requires forall u :: u in site.users ==> site.users[u].human == site'.users[u].human
    ensures GrantsTake(site, direct, managed, ms) <==> GrantsTake(site', direct, managed, ms)
  {
    SameLeft(site, site', direct, managed, ms);
    var d1 := Left(site, direct, managed, ms);
    forall k | 0 <= k < |ms| ensures Takes(site, d1, ms, k) <==> Takes(site', d1, ms, k) {
      forall p ensures SetBefore(site', ms, k, p) == SetBefore(site, ms, k, p) {
      }
    }
  }

  lemma TakesAlike(server: Server, users: Users, users': Users, groups: Groups, w: World, d: Desired)
    requires users'.Keys == users.Keys && forall u :: u in users ==> users[u].human == users'[u].human
    ensures LaterTakes(server, users, groups, w, d) <==> LaterTakes(server, users', groups, w, d)
  {
    AdminsDoNotMatter(SiteOf(server, users, groups), SiteOf(server, users', groups),
                      w.direct, ManagedPaths(d.groups), d.members);
  }

  /** Every section has reached what is desired of it, and has left the rest. */
  ghost predicate AllSections(server: Server, w: World, d: Desired, t: World) {
    && t.users == RunAdmins(w.users, d.admins, d.enforceAdmins).state
    && (forall u :: u in t.users && u in d.admins ==> t.users[u].admin)
    && GroupsInv(server.refusedGroups, w.groups, d.groups, t.groups, |d.groups|)
    && Exact(SiteOf(server, t.users, t.groups), ManagedPaths(d.groups), d.members, t.direct)
    && Framed(SiteOf(server, t.users, t.groups), ManagedPaths(d.groups), d.members, w.direct, t.direct)
    && (forall j :: 0 <= j < |d.projects| ==> ProjectReached(HostOf(server, t.groups), t.projects, d.projects[j]))
    && (forall j :: 0 <= j < |d.userKeys| ==> KeysReached(t.users, t.keys, d.userKeys[j]))
    && KeysFramed(d.userKeys, |d.userKeys|, w.keys, t.keys)
  }

  lemma LaterSilentExactly(server: Server, users: Users, groups: Groups, w: World, d: Desired)
    requires Unique(d)
    ensures var t, take := Later(server, users, groups, w, d).state, LaterTakes(server, users, groups, w, d);
      && (!t.raised && Later(server, users, groups, t, d).changes == 0 <==> take)
      && (take ==> Later(server, users, groups, t, d) == Out(t, 0))
  {
    var site := SiteOf(server, users, groups);
    MembersSettleExactly(site, w.direct, ManagedPaths(d.groups), d.members);
    if GrantsTake(site, w.direct, ManagedPaths(d.groups), d.members) {
      TakenConverges(site, w.direct, ManagedPaths(d.groups), d.members);
    }
    ProjectsConvergeExactly(HostOf(server, groups), w.projects, d.deleteProjects, d.projects);
    KeysSettleExactly(users, w.keys, d.userKeys);
    if KeysAgree(users, d.userKeys) {
      KeysConverge(users, w.keys, d.userKeys);
    }
  }

  /** The run is not stopped and a second run counts no change if and only if every group rests where the first
      left it, no grant is refused, no deletion takes what is created and entries for one project and for the keys
      of one account agree; and then the second writes nothing. */
  lemma SecondRunSilentExactly(server: Server, w: World, d: Desired)
    requires Unique(d)
    ensures
      var t, rest := Reconciled(server, w, d).state,
        AllRest(server.refusedGroups, w.groups.Keys, d.groups) && RestTakes(server, w, d);
      && (!t.raised && Reconciled(server, t, d).changes == 0 <==> rest)
      && (rest ==> Reconciled(server, t, d) == Out(t, 0))
  {
    var t := Reconciled(server, w, d).state;
    AdminsExactAndConverge(w.users, d.admins, d.enforceAdmins);
    TakesAlike(server, w.users, t.users, t.groups, w, d);
    SecondPassSilentExactly(server.refusedGroups, w.groups, d.groups);
    LaterSilentExactly(server, t.users, t.groups, w, d);
  }

  /** With parents first, one run reaches the desired state in every section, and the next one writes nothing
      and reports no change. */
  lemma SecondRunSilent(server: Server, w: World, d: Desired)
    requires WellFormed(server, w, d)
    ensures var t := Reconciled(server, w, d).state;
      !t.raised && AllSections(server, w, d, t) && Reconciled(server, t, d) == Out(t, 0)
  {
    var t := Reconciled(server, w, d).state;
    InOrderIsSited(server.refusedGroups, w.groups.Keys, d.groups);
    SecondRunSilentExactly(server, w, d);
    AdminsExactAndConverge(w.users, d.admins, d.enforceAdmins);
    GroupsConverge(server.refusedGroups, w.groups, d.groups);
    TakesAlike(server, w.users, t.users, t.groups, w, d);
    TakenConverges(SiteOf(server, t.users, t.groups), w.direct, ManagedPaths(d.groups), d.members);
    ProjectsConvergeExactly(HostOf(server, t.groups), w.projects, d.deleteProjects, d.projects);
    KeysConverge(t.users, w.keys, d.userKeys);
  }

  // ----- the program

  class Instance {
    const server: Server
    var users: Users
    var groups: Groups
    var direct: Direct
    var raised: bool
    var projects: Projects
    var keys: Keys
    var changes: nat

    ghost function Now(): World
      reads this
    {
      World(users, groups, direct, raised, projects, keys)
    }

    constructor (server: Server, w: World)
      requires !w.raised
      ensures this.server == server && Now() == w && changes == 0
    {
      this.server := server;
      users, groups, direct, raised, projects, keys := w.users, w.groups, w.direct, w.raised, w.projects, w.keys;
      changes := 0;
    }

    method ReconcileAdmins(admins: seq<string>, enforce: bool)
      modifies `users, `changes
      ensures changes >= old(changes)
      ensures Out(users, changes - old(changes)) == RunAdmins(old(users), admins, enforce)
    {
      assert WithAdmin(users, {}, false) == users;
      if enforce {
        DemoteExtra(admins);
      }
      PromoteMissing(admins);
    }

    method DemoteExtra(admins: seq<string>)
      modifies `users, `changes
      ensures users == WithAdmin(old(users), Extra(old(users), admins), false)
      ensures changes == old(changes) + |Extra(old(users), admins)|
    {
      ghost var before, gone := users, {};
      var todo := set u | u in users && users[u].admin && u !in admins && u != "root";
      while todo != {}
        invariant forall u :: u in todo ==> u in before && u in users && users[u] == before[u] && u !in gone
        invariant forall u :: u in todo ==> before[u].admin && u !in admins && u != "root"
        invariant forall u :: u in before && Demotable(before, admins, u) ==> u in gone || u in todo
        invariant forall u :: u in gone ==> u in before && Demotable(before, admins, u)
        invariant users == WithAdmin(before, gone, false)
        invariant changes == old(changes) + |gone|
        decreases todo
      {
        var u :| u in todo;
        todo := todo - {u};
        if users[u].human {
          WithOneMore(before, gone, u, false);
          users := users[u := users[u].(admin := false)];
          changes := changes + 1;
          gone := gone + {u};
        }
      }
      assert gone == Extra(before, admins);
    }

    method PromoteMissing(admins: seq<string>)
      modifies `users, `changes
      ensures users == WithAdmin(old(users), Missing(old(users), admins), true)
      ensures changes == old(changes) + |Missing(old(users), admins)|
    {
      ghost var before, done := users, {};
      for i := 0 to |admins|
        invariant forall u :: u in done <==> u in before && u in admins[..i] && !before[u].admin
        invariant users == WithAdmin(before, done, true)
        invariant changes == old(changes) + |done|
      {
        var un := admins[i];
        assert admins[..i + 1] == admins[..i] + [un];
        if un in users && !users[un].admin {
          WithOneMore(before, done, un, true);
          users := users[un := users[un].(admin := true)];
          changes := changes + 1;
          done := done + {un};
        }
      }
      assert admins[..|admins|] == admins;
      assert done == Missing(before, admins);
    }

    method ReconcileGroups(gs: seq<GroupSpec>)
      modifies `groups, `changes
      ensures changes >= old(changes)
      ensures Out(groups, changes - old(changes)) == RunGroups(server.refusedGroups, old(groups), gs)
    {
      ghost var step := GroupSteps(server.refusedGroups);
      for i := 0 to |gs|
        invariant changes >= old(changes)
        invariant Out(groups, changes - old(changes)) == Run(step, old(groups), gs[..i])
      {
        RunOne(step, old(groups), gs, i);
        var g := gs[i];
        var full := Full(g);
        if full !in groups {
          var at := if g.parent.Some? && g.parent.value !in groups then [g.path] else full;
          if at !in groups && at !in server.refusedGroups {
            groups := groups[at := g.want];
            changes := changes + 1;
          }
        } else if groups[full] != g.want {
          groups := groups[full := g.want];
          changes := changes + 1;
        }
      }
      assert gs[..|gs|] == gs;
    }

    method PruneMembers(managed: seq<Path>, ms: seq<MemberSpec>)
      requires !raised
      modifies `direct, `changes
      ensures changes >= old(changes)
      ensures Out(Members(direct, false), changes - old(changes)) ==
              Pruned(SiteOf(server, users, groups), old(direct), managed, ms)
    {
      var desired := DesiredPairs(ms);
      ghost var site := SiteOf(server, users, groups);
      ghost var step := PruneSteps(site, desired);
      for i := 0 to |managed|
        invariant changes >= old(changes)
        invariant Out(Members(direct, false), changes - old(changes))
               == Run(step, Members(old(direct), false), managed[..i])
      {
        RunOne(step, Members(old(direct), false), managed, i);
        var path := managed[i];
        if path in groups {
          PruneGroup(path, desired);
        } else {
          assert direct - {} == direct;
        }
      }
      assert managed[..|managed|] == managed;
    }

    method PruneGroup(path: Path, desired: set<Pair>)
      requires path in groups
      modifies `direct, `changes
      ensures direct == old(direct) - Dead(SiteOf(server, users, groups), desired, old(direct), path)
      ensures changes == old(changes) + |Dead(SiteOf(server, users, groups), desired, old(direct), path)|
    {
      ghost var before, gone := direct, {};
      ghost var site := SiteOf(server, users, groups);
      var todo := set p | p in direct && p.0 == path;
      assert direct - {} == direct;
      while todo != {}
        invariant forall p :: p in todo ==> p in before && p.0 == path && p !in gone
        invariant forall p :: p in before && p.0 == path ==>
              p in todo || (p in gone <==> Prunable(site, p.1) && p !in desired)
        invariant forall p :: p in gone ==> p in before && p.0 == path
        invariant direct == before - gone && changes == old(changes) + |gone|
        decreases todo
      {
        var mem :| mem in todo;
        var un := mem.1;
        todo := todo - {mem};
        if un in users && un != "root" && users[un].human && mem !in desired {
          MinusOneMore(before, gone, mem);
          direct := direct - {mem};
          changes := changes + 1;
          gone := gone + {mem};
        }
      }
      assert gone == Dead(site, desired, before, path);
    }

    method AddMembers(ms: seq<MemberSpec>)
      requires !raised
      modifies `direct, `changes, `raised
      ensures changes >= old(changes)
      ensures Out(Members(direct, raised), changes - old(changes)) ==
              Run(AddSteps(SiteOf(server, users, groups)), Members(old(direct), false), ms)
    {
      ghost var site := SiteOf(server, users, groups);
      ghost var step := AddSteps(site);
      for i := 0 to |ms|
        invariant changes >= old(changes)
        invariant Out(Members(direct, raised), changes - old(changes))
               == Run(step, Members(old(direct), false), ms[..i])
      {
        RunOne(step, Members(old(direct), false), ms, i);
        var m := ms[i];
        var key := KeyOf(m);
        if !raised && m.group in groups && m.user in users {
          var refused := server.guarded && Floored(direct, key, m.level);
          if key !in direct {
            if !refused {
              direct := direct[key := m.level];
            }
            changes := changes + 1;
          } else if direct[key] != m.level {
            if refused {
              raised := true;
            } else {
              direct := direct[key := m.level];
              changes := changes + 1;
            }
          }
        }
      }
      assert ms[..|ms|] == ms;
    }

    method ReconcileMembers(managed: seq<Path>, ms: seq<MemberSpec>)
      requires !raised
      modifies `direct, `changes, `raised
      ensures changes >= old(changes)
      ensures Out(Members(direct, raised), changes - old(changes)) ==
              RunMembers(SiteOf(server, users, groups), old(direct), managed, ms)
    {
      PruneMembers(managed, ms);
      AddMembers(ms);
    }

    method DeleteProjects(deletes: seq<Path>)
      modifies `projects, `changes
      ensures changes >= old(changes)
      ensures Out(projects, changes - old(changes)) == Run(DeleteSteps(), old(projects), deletes)
    {
      for i := 0 to |deletes|
        invariant changes >= old(changes)
        invariant Out(projects, changes - old(changes)) == Run(DeleteSteps(), old(projects), deletes[..i])
      {
        RunOne(DeleteSteps(), old(projects), deletes, i);
        if deletes[i] in projects {
          projects := projects - {deletes[i]};
          changes := changes + 1;
        }
      }
      assert deletes[..|deletes|] == deletes;
    }

    method ReconcileProjects(pjs: seq<ProjectSpec>)
      modifies `projects, `changes
      ensures changes >= old(changes)
      ensures Out(projects, changes - old(changes)) == Run(ProjectSteps(HostOf(server, groups)), old(projects), pjs)
    {
      ghost var step := ProjectSteps(HostOf(server, groups));
      for i := 0 to |pjs|
        invariant changes >= old(changes)
        invariant Out(projects, changes - old(changes)) == Run(step, old(projects), pjs[..i])
      {
        RunOne(step, old(projects), pjs, i);
        ReconcileProject(pjs[i]);
      }
      assert pjs[..|pjs|] == pjs;
    }

    method ReconcileProject(pj: ProjectSpec)
      modifies `projects, `changes
      ensures changes >= old(changes)
      ensures Out(projects, changes - old(changes)) == ProjectStep(HostOf(server, groups), old(projects), pj)
    {
      var full := ProjectPath(pj);
      if full !in projects {
        if pj.group !in groups || full in server.refusedProjects {
          return;
        }
        projects := projects[full := Project(OrElse(pj.description, ""), OrElse(pj.visibility, PRIVATE),
            server.defaultDesk)];
        changes := changes + 1;
      }
      var want := Levelled(projects[full], pj);
      if want != projects[full] {
        projects := projects[full := want];
        changes := changes + 1;
      }
      assert projects == old(projects)[full := want];
    }

    method DeleteAndReconcileProjects(deletes: seq<Path>, pjs: seq<ProjectSpec>)
      modifies `projects, `changes
      ensures changes >= old(changes)
      ensures Out(projects, changes - old(changes)) == RunProjects(HostOf(server, groups), old(projects), deletes, pjs)
    {
      DeleteProjects(deletes);
      ReconcileProjects(pjs);
    }

    method ReconcileKeys(uks: seq<UserKeys>)
      modifies `keys, `changes
      ensures changes >= old(changes)
      ensures Out(keys, changes - old(changes)) == RunKeys(users, old(keys), uks)
    {
      ghost var step := UserSteps(users);
      for i := 0 to |uks|
        invariant changes >= old(changes)
        invariant Out(keys, changes - old(changes)) == Run(step, old(keys), uks[..i])
      {
        RunOne(step, old(keys), uks, i);
        if uks[i].user in users {
          ReconcileUserKeys(uks[i]);
        }
      }
      assert uks[..|uks|] == uks;
    }

    method ReconcileUserKeys(uk: UserKeys)
      requires uk.user in users
      modifies `keys, `changes
      ensures changes >= old(changes)
      ensures Out(keys, changes - old(changes)) == UserStep(users, old(keys), uk)
    {
      PruneKeys(uk);
      ghost var left, count, step := keys, changes, KeySteps(uk.user);
      for i := 0 to |uk.ssh|
        invariant changes >= count
        invariant Out(keys, changes - count) == Run(step, left, uk.ssh[..i])
      {
        RunOne(step, left, uk.ssh, i);
        var k := uk.ssh[i];
        var slot := (uk.user, Title(k));
        if slot !in keys {
          keys := keys[slot := k.key];
          changes := changes + 1;
        } else if keys[slot].material != k.key.material {
          ghost var was := keys;
          keys := keys - {slot};
          keys := keys[slot := k.key];
          assert keys == was[slot := k.key];
          changes := changes + 1;
        }
      }
      assert uk.ssh[..|uk.ssh|] == uk.ssh;
    }

    method PruneKeys(uk: UserKeys)
      modifies `keys, `changes
      ensures keys == old(keys) - DeadKeys(old(keys), uk)
      ensures changes == old(changes) + |DeadKeys(old(keys), uk)|
    {
      var want := Wanted(uk);
      ghost var before, gone := keys, {};
      var todo := set s | s in keys && s.0 == uk.user && Managed(s.1);
      assert keys - {} == keys;
      while todo != {}
        invariant forall s :: s in todo ==> s in before && s !in gone
        invariant forall s :: s in before && s.0 == uk.user && Managed(s.1) ==>
              s in todo || (s in gone <==> s.1 !in want)
        invariant forall s :: s in gone ==> s in before && s.0 == uk.user && Managed(s.1)
        invariant forall s :: s in todo ==> s.0 == uk.user && Managed(s.1)
        invariant keys == before - gone && changes == old(changes) + |gone|
        decreases todo
      {
        var s :| s in todo;
        todo := todo - {s};
        if s.1 !in want {
          MinusOneMore(before, gone, s);
          keys := keys - {s};
          changes := changes + 1;
          gone := gone + {s};
        }
      }
      assert gone == DeadKeys(before, uk);
    }

    method Reconcile(d: Desired)
      requires !raised
      modifies this
      ensures changes >= old(changes)
      ensures Out(Now(), changes - old(changes)) == Reconciled(server, old(Now()), d)
    {
      ReconcileAdmins(d.admins, d.enforceAdmins);
      ReconcileGroups(d.groups);
      ReconcileMembers(ManagedPaths(d.groups), d.members);
      if raised {
        return;
      }
      DeleteAndReconcileProjects(d.deleteProjects, d.projects);
      ReconcileKeys(d.userKeys);
    }
  }
}
