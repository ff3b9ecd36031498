/** What a run of the GitLab reconciler means for what is declared, entry by entry
    (roles/gitlab_rbac/_archive/reconcile.rb). */
module GitlabDeclared {
  import opened Basics
  import opened Reconcile
  import opened GitlabGroups
  import opened GitlabMembers
  import opened GitlabProjects
  import opened GitlabKeys
  import opened GitlabRbac

  /** The group's path: its parent's components, if it has one, and its own. */
  ghost predicate StandsAt(g: GroupSpec, p: Path) {
    p == (if g.parent.Some? then g.parent.value else []) + [g.path]
  }

  ghost predicate IsDeclared(gs: seq<GroupSpec>, p: Path) {
    exists g :: g in gs && StandsAt(g, p)
  }

  ghost predicate Lists(ms: seq<MemberSpec>, p: Path, user: string) {
    exists m :: m in ms && m.group == p && m.user == user
  }

  lemma ManagedExactly(gs: seq<GroupSpec>, p: Path)
    ensures p in ManagedPaths(gs) <==> IsDeclared(gs, p)
  {
    if p in ManagedPaths(gs) {
      var i :| 0 <= i < |gs| && ManagedPaths(gs)[i] == p;
      assert StandsAt(gs[i], p);
    }
    if g :| g in gs && StandsAt(g, p) {
      var i :| 0 <= i < |gs| && gs[i] == g;
      assert ManagedPaths(gs)[i] == p;
    }
  }

  lemma DesiredExactly(ms: seq<MemberSpec>, p: Path, user: string)
    ensures (p, user) in DesiredPairs(ms) <==> Lists(ms, p, user)
  {
    if m :| m in ms && m.group == p && m.user == user {
      var i :| 0 <= i < |ms| && ms[i] == m;
      assert KeyOf(ms[i]) == (p, user);
    }
  }

  /** A person's direct grant is one the run may take away: root's and a bot's are not. */
  ghost predicate IsPersons(users: Users, user: string) {
    user in users && users[user].human && user != "root"
  }

  /** Whatever is declared, and even if the run is stopped: on a declared group that is there, a person's direct
      grant is left exactly when it is listed as a membership; every other grant is left, with its level if it
      is not listed; and none appears that is not listed. */
  lemma GrantsLeftExactly(server: Server, w: World, d: Desired, p: Path, user: string)
    ensures
      var t := Reconciled(server, w, d).state;
      var goes := IsDeclared(d.groups, p) && p in t.groups && IsPersons(w.users, user) && !Lists(d.members, p, user);
      && (p, user) in w.direct ==> ((p, user) in t.direct <==> !goes)
    ensures
      var t := Reconciled(server, w, d).state;
      (p, user) in t.direct && !Lists(d.members, p, user) ==>
        (p, user) in w.direct && t.direct[(p, user)] == w.direct[(p, user)]
  {
    var t := Reconciled(server, w, d).state;
    var managed := ManagedPaths(d.groups);
    var site := SiteOf(server, t.users, t.groups);
    var left := Left(site, w.direct, managed, d.members);
    AdminsExactAndConverge(w.users, d.admins, d.enforceAdmins);
    ManagedExactly(d.groups, p);
    DesiredExactly(d.members, p, user);
    PrunedExactly(site, w.direct, managed, d.members);
    assert managed[..|managed|] == managed && d.members[..|d.members|] == d.members;
    NoneTaken(site, left, d.members, |d.members|);
    OnlyDesiredAdded(site, left, d.members, |d.members|);
  }

  // ----- the whole run

  /** Every declared group that can be created is at its path with its settings; the others are as before. */
  ghost predicate GroupsMean(server: Server, w: World, d: Desired, t: World) {
    && (forall g, p :: g in d.groups && StandsAt(g, p) ==>
          if p in t.groups then t.groups[p] == g.want else p in server.refusedGroups)
    && (forall p :: !IsDeclared(d.groups, p) ==>
          (p in t.groups <==> p in w.groups) && (p in w.groups ==> t.groups[p] == w.groups[p]))
  }

  ghost predicate MembersMean(w: World, d: Desired, t: World) {
    forall m :: m in d.members && m.group in t.groups && m.user in w.users ==>
      (m.group, m.user) in t.direct && t.direct[(m.group, m.user)] == m.level
  }

  /** The entry's project is there as it says, or its group is missing or it is refused. */
  ghost predicate EntryMeans(server: Server, t: World, pj: ProjectSpec, p: Path) {
    if p in t.projects then
      && (pj.description.Some? ==> t.projects[p].description == pj.description.value)
      && (pj.visibility.Some? ==> t.projects[p].visibility == pj.visibility.value)
      && (pj.serviceDesk.Some? ==> t.projects[p].serviceDesk == pj.serviceDesk.value)
    else pj.group !in t.groups || p in server.refusedProjects
  }

  ghost predicate IsFor(pj: ProjectSpec, p: Path) {
    p == pj.group + [pj.path]
  }

  /** The project before the entries: as it was, or new, private and without a description. */
  ghost function Start(server: Server, w: World, d: Desired, p: Path): Project {
    if p in w.projects && p !in d.deleteProjects then w.projects[p] else Project("", 0, server.defaultDesk)
  }

  /** What no entry sets is as at the start, and so are projects without an entry. */
  ghost predicate ProjectMeans(server: Server, w: World, d: Desired, t: World, p: Path)
    requires p in t.projects
  {
    var was, now := Start(server, w, d, p), t.projects[p];
    && ((forall pj :: pj in d.projects && IsFor(pj, p) ==> pj.description.None?) ==> now.description == was.description)
    && ((forall pj :: pj in d.projects && IsFor(pj, p) ==> pj.visibility.None?) ==> now.visibility == was.visibility)
    && ((forall pj :: pj in d.projects && IsFor(pj, p) ==> pj.serviceDesk.None?) ==> now.serviceDesk == was.serviceDesk)
  }

  ghost predicate ProjectsMean(server: Server, w: World, d: Desired, t: World) {
    && (forall pj, p :: pj in d.projects && IsFor(pj, p) ==> EntryMeans(server, t, pj, p))
    && (forall p :: p in w.projects && p !in d.deleteProjects ==> p in t.projects)
    && (forall p :: p in t.projects ==> ProjectMeans(server, w, d, t, p))
    && (forall p :: p in t.projects ==>
          (p in w.projects && p !in d.deleteProjects) || exists pj :: pj in d.projects && IsFor(pj, p))
  }

  /** The person's managed keys are the declared ones, each with its text up to the comment. */
  ghost predicate KeysMean(w: World, d: Desired, t: World) {
    && (forall uk, k :: uk in d.userKeys && uk.user in w.users && k in uk.ssh ==>
          && (uk.user, Ansible(k.label_)) in t.keys
          && t.keys[(uk.user, Ansible(k.label_))].material == k.key.material)
    && (forall uk, label_ :: uk in d.userKeys && uk.user in w.users && (uk.user, Ansible(label_)) in t.keys ==>
          exists k :: k in uk.ssh && k.label_ == label_)
    && (forall s: Slot :: s.1.HandMade? || (forall uk :: uk in d.userKeys ==> uk.user != s.0) ==>
          (s in t.keys <==> s in w.keys) && (s in w.keys ==> t.keys[s] == w.keys[s]))
  }

  lemma GroupsAreMeant(server: Server, w: World, d: Desired, t: World)
    requires GroupsInv(server.refusedGroups, w.groups, d.groups, t.groups, |d.groups|)
    ensures GroupsMean(server, w, d, t)
  {
    forall g, p | g in d.groups && StandsAt(g, p)
      ensures if p in t.groups then t.groups[p] == g.want else p in server.refusedGroups
    {
      var i :| 0 <= i < |d.groups| && d.groups[i] == g;
      assert GitlabGroups.Reached(server.refusedGroups, t.groups, d.groups[i]) && Full(g) == p;
    }
    forall p | !IsDeclared(d.groups, p) ensures !Listed(d.groups, |d.groups|, p) {
      if j :| 0 <= j < |d.groups| && Full(d.groups[j]) == p {
        assert StandsAt(d.groups[j], p);
      }
    }
  }

  lemma MembersAreMeant(server: Server, w: World, d: Desired, t: World)
    requires t.users.Keys == w.users.Keys
    requires Exact(SiteOf(server, t.users, t.groups), ManagedPaths(d.groups), d.members, t.direct)
    ensures MembersMean(w, d, t)
  {
    forall m | m in d.members && m.group in t.groups && m.user in w.users
      ensures (m.group, m.user) in t.direct && t.direct[(m.group, m.user)] == m.level
    {
      var i :| 0 <= i < |d.members| && d.members[i] == m;
      assert Applies(SiteOf(server, t.users, t.groups), d.members[i]);
    }
  }

  lemma KeysAreMeant(w: World, d: Desired, t: World)
    requires t.users.Keys == w.users.Keys && KeysFramed(d.userKeys, |d.userKeys|, w.keys, t.keys)
    requires forall j :: 0 <= j < |d.userKeys| ==> KeysReached(t.users, t.keys, d.userKeys[j])
    ensures KeysMean(w, d, t)
  {
    forall uk, k | uk in d.userKeys && uk.user in w.users && k in uk.ssh
      ensures (uk.user, Ansible(k.label_)) in t.keys
      ensures t.keys[(uk.user, Ansible(k.label_))].material == k.key.material
    {
      var j :| 0 <= j < |d.userKeys| && d.userKeys[j] == uk;
      var i :| 0 <= i < |uk.ssh| && uk.ssh[i] == k;
      assert InPlace(t.keys, uk.user, uk.ssh[i]);
    }
    forall uk, label_ | uk in d.userKeys && uk.user in w.users && (uk.user, Ansible(label_)) in t.keys
      ensures exists k :: k in uk.ssh && k.label_ == label_
    {
      var j :| 0 <= j < |d.userKeys| && d.userKeys[j] == uk;
      assert Ansible(label_) in Wanted(uk);
      var k :| k in uk.ssh && Title(k) == Ansible(label_);
    }
    forall s: Slot | s.1.HandMade? || (forall uk :: uk in d.userKeys ==> uk.user != s.0)
      ensures Same(w.keys, t.keys, s)
    {
      assert !Managed(s.1) || !ListedUser(d.userKeys, |d.userKeys|, s.0);
    }
  }

  lemma EntriesAreMeant(server: Server, w: World, d: Desired, t: World)
    requires forall j :: 0 <= j < |d.projects| ==> ProjectReached(HostOf(server, t.groups), t.projects, d.projects[j])
    ensures forall pj, p :: pj in d.projects && IsFor(pj, p) ==> EntryMeans(server, t, pj, p)
  {
    forall pj, p | pj in d.projects && IsFor(pj, p) ensures EntryMeans(server, t, pj, p) {
      var j :| 0 <= j < |d.projects| && d.projects[j] == pj;
      assert ProjectPath(pj) == p;
    }
  }

  lemma ProjectIsMeant(server: Server, w: World, d: Desired, t: World, p: Path)
    requires p in t.projects
    requires FieldsFrom(HostOf(server, t.groups), Remaining(w.projects, d.deleteProjects), d.projects, |d.projects|, p,
                        t.projects[p])
    ensures ProjectMeans(server, w, d, t, p)
  {
    assert p in First(d.deleteProjects, |d.deleteProjects|) <==> p in d.deleteProjects;
    assert Start(server, w, d, p) == Before(HostOf(server, t.groups), Remaining(w.projects, d.deleteProjects), p);
    forall j | 0 <= j < |d.projects| && ProjectPath(d.projects[j]) == p
      ensures d.projects[j] in d.projects && IsFor(d.projects[j], p)
    {
    }
  }

  lemma ProjectsAreMeant(server: Server, w: World, d: Desired, t: World)
    requires t.projects == RunProjects(HostOf(server, t.groups), w.projects, d.deleteProjects, d.projects).state
    requires ProjectsAgree(HostOf(server, t.groups), Remaining(w.projects, d.deleteProjects), d.projects)
    requires forall j :: 0 <= j < |d.projects| ==> ProjectReached(HostOf(server, t.groups), t.projects, d.projects[j])
    ensures ProjectsMean(server, w, d, t)
  {
    EntriesAreMeant(server, w, d, t);
    var h, d1 := HostOf(server, t.groups), Remaining(w.projects, d.deleteProjects);
    assert d.deleteProjects[..|d.deleteProjects|] == d.deleteProjects;
    DeletedExactly(w.projects, d.deleteProjects, |d.deleteProjects|);
    ProjectsConverge(h, d1, d.projects);
    FieldsComeFrom(h, d1, d.projects);
    assert forall p :: p in d1 <==> p in w.projects && p !in d.deleteProjects;
    forall p | p in t.projects
      ensures ProjectMeans(server, w, d, t, p)
      ensures p in d1 || exists pj :: pj in d.projects && IsFor(pj, p)
    {
      ProjectIsMeant(server, w, d, t, p);
      if p !in d1 {
        assert Touched(h, d1, d.projects, |d.projects|, p);
        var j :| 0 <= j < |d.projects| && ProjectPath(d.projects[j]) == p;
        assert IsFor(d.projects[j], p);
      }
    }
  }

  /** One run, from what the source promises of its input to what it leaves, section by section. */
  lemma RunMeans(server: Server, w: World, d: Desired)
    requires WellFormed(server, w, d)
    ensures var t := Reconciled(server, w, d).state;
      && GroupsMean(server, w, d, t) && MembersMean(w, d, t) && ProjectsMean(server, w, d, t) && KeysMean(w, d, t)
  {
    var t := Reconciled(server, w, d).state;
    SecondRunSilent(server, w, d);
    AdminsExactAndConverge(w.users, d.admins, d.enforceAdmins);
    GroupsAreMeant(server, w, d, t);
    MembersAreMeant(server, w, d, t);
    KeysAreMeant(w, d, t);
    ProjectsAreMeant(server, w, d, t);
  }
}
