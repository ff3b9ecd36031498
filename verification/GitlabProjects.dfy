/** Sections 5 and 6 of the GitLab reconciler (roles/gitlab_rbac/_archive/reconcile.rb): projects
    deleted, then created or levelled. */
module GitlabProjects {
  import opened Basics
  import opened Reconcile
  import opened GitlabGroups

  datatype Project = Project(description: string, visibility: nat, serviceDesk: bool)
  type Projects = map<Path, Project>

  datatype ProjectSpec = ProjectSpec(group: Path, path: string, description: Option<string>,
                                     visibility: Option<nat>, serviceDesk: Option<bool>)

  const PRIVATE: nat := 0

  /** The groups there are, the paths the create service turns down, and the flag a new project has. */
  datatype Host = Host(groups: set<Path>, refused: set<Path>, defaultDesk: bool)

  function ProjectPath(pj: ProjectSpec): Path {
    pj.group + [pj.path]
  }

  predicate Creatable(h: Host, pj: ProjectSpec) {
    pj.group in h.groups && ProjectPath(pj) !in h.refused
  }

  function Levelled(p: Project, pj: ProjectSpec): Project {
    Project(OrElse(pj.description, p.description), OrElse(pj.visibility, p.visibility),
        OrElse(pj.serviceDesk, p.serviceDesk))
  }

  function DeleteStep(ps: Projects, path: Path): Out<Projects> {
    if path in ps then Out(ps - {path}, 1) else Out(ps, 0)
  }

  function DeleteSteps(): (Projects, Path) -> Out<Projects> {
    (ps, path) => DeleteStep(ps, path)
  }

  function ProjectStep(h: Host, ps: Projects, pj: ProjectSpec): Out<Projects> {
    var full := ProjectPath(pj);
    if full !in ps && !Creatable(h, pj) then Out(ps, 0)
    else
      var p := if full in ps then ps[full]
               else Project(OrElse(pj.description, ""), OrElse(pj.visibility, PRIVATE), h.defaultDesk);
      Out(ps[full := Levelled(p, pj)], (if full in ps then 0 else 1) + (if Levelled(p, pj) == p then 0 else 1))
  }

  function ProjectSteps(h: Host): (Projects, ProjectSpec) -> Out<Projects> {
    (ps, pj) => ProjectStep(h, ps, pj)
  }

  function RunProjects(h: Host, ps: Projects, deletes: seq<Path>, pjs: seq<ProjectSpec>): Out<Projects> {
    var d := Run(DeleteSteps(), ps, deletes);
    var c := Run(ProjectSteps(h), d.state, pjs);
    Out(c.state, d.changes + c.changes)
  }

  function First(deletes: seq<Path>, n: nat): set<Path>
    requires n <= |deletes|
  {
    set i | 0 <= i < n :: deletes[i]
  }

  lemma DeleteOneMore(ps: Projects, deletes: seq<Path>, n: nat)
    requires n < |deletes|
    ensures var r := DeleteStep(ps - First(deletes, n), deletes[n]);
      && r.state == ps - First(deletes, n + 1)
      && (r.changes == 0 <==> deletes[n] !in ps - First(deletes, n))
  {
    assert First(deletes, n + 1) == First(deletes, n) + {deletes[n]};
  }

  /** The deletion in closed form: the listed projects go, one change for each that was there. */
  lemma {:induction false} DeletedExactly(ps: Projects, deletes: seq<Path>, n: nat)
    requires n <= |deletes|
    ensures var r := Run(DeleteSteps(), ps, deletes[..n]);
      && r.state == ps - First(deletes, n)
      && (r.changes == 0 <==> forall i :: 0 <= i < n ==> deletes[i] !in ps)
  {
    if n == 0 {
      assert ps - First(deletes, n) == ps;
    } else {
      DeletedExactly(ps, deletes, n - 1);
      RunOne(DeleteSteps(), ps, deletes, n - 1);
      DeleteOneMore(ps, deletes, n - 1);
    }
  }

  predicate Agree<T(==)>(a: Option<T>, b: Option<T>) {
    a.Some? && b.Some? ==> a.value == b.value
  }

  predicate SpecsAgree(a: ProjectSpec, b: ProjectSpec) {
    Agree(a.description, b.description) && Agree(a.visibility, b.visibility) && Agree(a.serviceDesk, b.serviceDesk)
  }

  /** Entries for one project, if it is there or can be created, set nothing to different values. */
  ghost predicate ProjectsAgree(h: Host, ps: Projects, pjs: seq<ProjectSpec>) {
    forall i, j :: 0 <= i < |pjs| && 0 <= j < |pjs| && Possible(h, ps, pjs[i]) && OneProject(pjs[i], pjs[j])
      ==> SpecsAgree(pjs[i], pjs[j])
  }

  predicate Possible(h: Host, ps: Projects, pj: ProjectSpec) {
    ProjectPath(pj) in ps || Creatable(h, pj)
  }

  predicate OneProject(a: ProjectSpec, b: ProjectSpec) {
    ProjectPath(a) == ProjectPath(b)
  }

  lemma SamePath(h: Host, a: ProjectSpec, b: ProjectSpec)
    requires ProjectPath(a) == ProjectPath(b)
    ensures Creatable(h, a) == Creatable(h, b)
  {
    assert ProjectPath(a)[..|a.group|] == a.group && ProjectPath(b)[..|b.group|] == b.group;
  }

  /** As declared; or absent, and not to be created. */
  ghost predicate ProjectReached(h: Host, ps: Projects, pj: ProjectSpec) {
    var full := ProjectPath(pj);
    if full in ps then Levelled(ps[full], pj) == ps[full] else !Creatable(h, pj)
  }

  lemma ProjectSettled(h: Host, ps: Projects, pj: ProjectSpec)
    ensures ProjectReached(h, ps, pj) <==> ProjectStep(h, ps, pj) == Out(ps, 0)
    ensures ProjectReached(h, ProjectStep(h, ps, pj).state, pj)
  {
    var full := ProjectPath(pj);
    if full in ps && Levelled(ps[full], pj) == ps[full] {
      assert ps[full := ps[full]] == ps;
    }
  }

  /** Before step k: nothing has gone, the first k projects are reached, and no other has been touched. */
  ghost predicate ProjectsInv(h: Host, ps: Projects, pjs: seq<ProjectSpec>, t: Projects, k: nat) {
    && k <= |pjs| && ps.Keys <= t.Keys
    && (forall j :: 0 <= j < k ==> ProjectReached(h, t, pjs[j]))
    && (forall p :: p in t && (p !in ps || t[p] != ps[p]) ==> Touched(h, ps, pjs, k, p))
  }

  /** One of the first k entries is for this project, and it was there or can be created. */
  ghost predicate Touched(h: Host, ps: Projects, pjs: seq<ProjectSpec>, k: nat, p: Path)
    requires k <= |pjs|
  {
    exists j :: 0 <= j < k && ProjectPath(pjs[j]) == p && (p in ps || Creatable(h, pjs[j]))
  }

  ghost function ProjectsInvOf(h: Host, ps: Projects, pjs: seq<ProjectSpec>): Inv<Projects> {
    (t: Projects, k: nat) => ProjectsInv(h, ps, pjs, t, k)
  }

  /** A step for the same project leaves it reached for an entry that agrees. */
  lemma StaysReachedAlike(h: Host, t: Projects, a: ProjectSpec, b: ProjectSpec)
    requires ProjectReached(h, t, a) && ProjectPath(a) == ProjectPath(b)
    requires Possible(h, t, a) ==> SpecsAgree(a, b)
    ensures ProjectReached(h, ProjectStep(h, t, b).state, a)
  {
    SamePath(h, a, b);
  }

  lemma StepOnlyAt(h: Host, t: Projects, pj: ProjectSpec)
    ensures var t' := ProjectStep(h, t, pj).state;
      && t.Keys <= t'.Keys
      && (forall p :: p != ProjectPath(pj) ==> (p in t' <==> p in t) && (p in t ==> t'[p] == t[p]))
      && (ProjectPath(pj) in t' ==> ProjectPath(pj) in t || Creatable(h, pj))
  {
  }

  lemma ProjectStepKeeps(h: Host, ps: Projects, pjs: seq<ProjectSpec>, t: Projects, k: nat)
    requires ProjectsAgree(h, ps, pjs) && k < |pjs| && ProjectsInv(h, ps, pjs, t, k)
    ensures ProjectsInv(h, ps, pjs, ProjectStep(h, t, pjs[k]).state, k + 1)
  {
    var full, t' := ProjectPath(pjs[k]), ProjectStep(h, t, pjs[k]).state;
    ProjectSettled(h, t, pjs[k]);
    StepOnlyAt(h, t, pjs[k]);
    forall j | 0 <= j < k ensures ProjectReached(h, t', pjs[j]) {
      if ProjectPath(pjs[j]) == full {
        if full in t {
          TheSameProject(h, ps, pjs, t, k, full);
        }
        SamePath(h, pjs[j], pjs[k]);
        StaysReachedAlike(h, t, pjs[j], pjs[k]);
      }
    }
    forall p | p in t' && (p !in ps || t'[p] != ps[p]) ensures Touched(h, ps, pjs, k + 1, p) {
      if p in t && (p !in ps || t[p] != ps[p]) {
        assert Touched(h, ps, pjs, k, p);
      } else {
        assert ProjectPath(pjs[k]) == p;
      }
    }
  }

  /** A project that is there was there at the start, or an entry for it could create it; so can all. */
  lemma TheSameProject(h: Host, ps: Projects, pjs: seq<ProjectSpec>, t: Projects, k: nat, full: Path)
    requires k <= |pjs| && ProjectsInv(h, ps, pjs, t, k) && full in t
    ensures forall j :: 0 <= j < |pjs| && ProjectPath(pjs[j]) == full ==> full in ps || Creatable(h, pjs[j])
  {
    if full !in ps {
      assert Touched(h, ps, pjs, k, full);
      var i :| 0 <= i < k && ProjectPath(pjs[i]) == full && Creatable(h, pjs[i]);
      forall j | 0 <= j < |pjs| && ProjectPath(pjs[j]) == full ensures Creatable(h, pjs[j]) {
        SamePath(h, pjs[i], pjs[j]);
      }
    }
  }

  /** When entries for one project agree: one pass reaches every project, touches no other, and a second
      pass changes nothing. */
  lemma ProjectsConverge(h: Host, ps: Projects, pjs: seq<ProjectSpec>)
    requires ProjectsAgree(h, ps, pjs)
    ensures var t := Run(ProjectSteps(h), ps, pjs).state;
      ProjectsInv(h, ps, pjs, t, |pjs|) && Run(ProjectSteps(h), t, pjs) == Out(t, 0)
  {
    var step, inv := ProjectSteps(h), ProjectsInvOf(h, ps, pjs);
    forall t, k: nat | k < |pjs| && inv(t, k) ensures inv(step(t, pjs[k]).state, k + 1) {
      ProjectStepKeeps(h, ps, pjs, t, k);
    }
    RunKeeps(step, inv, ps, pjs, |pjs|);
    assert pjs[..|pjs|] == pjs;
    var t := Run(step, ps, pjs).state;
    forall k | 0 <= k < |pjs| ensures Settled(step, t, pjs[k]) {
      ProjectSettled(h, t, pjs[k]);
    }
    SettledRun(step, t, pjs);
  }

  lemma {:induction false} NothingGoes(h: Host, ps: Projects, pjs: seq<ProjectSpec>)
    ensures ps.Keys <= Run(ProjectSteps(h), ps, pjs).state.Keys
  {
    if pjs != [] {
      NothingGoes(h, ps, pjs[..|pjs| - 1]);
    }
  }

  lemma SettledIsReached(h: Host, t: Projects, pjs: seq<ProjectSpec>)
    requires Run(ProjectSteps(h), t, pjs).changes == 0
    ensures forall k :: 0 <= k < |pjs| ==> ProjectReached(h, t, pjs[k])
  {
    forall s, pj | ProjectSteps(h)(s, pj).changes == 0 ensures ProjectSteps(h)(s, pj).state == s {
    }
    SilentExactly(ProjectSteps(h), t, pjs);
    forall k | 0 <= k < |pjs| ensures ProjectReached(h, t, pjs[k]) {
      assert Settled(ProjectSteps(h), t, pjs[k]);
      ProjectSettled(h, t, pjs[k]);
    }
  }

  lemma ReachedAgree(h: Host, ps: Projects, t: Projects, pjs: seq<ProjectSpec>)
    requires ps.Keys <= t.Keys && forall k :: 0 <= k < |pjs| ==> ProjectReached(h, t, pjs[k])
    ensures ProjectsAgree(h, ps, pjs)
  {
    forall i, j | 0 <= i < |pjs| && 0 <= j < |pjs| && Possible(h, ps, pjs[i]) && OneProject(pjs[i], pjs[j])
      ensures SpecsAgree(pjs[i], pjs[j])
    {
      assert ProjectReached(h, t, pjs[i]) && ProjectReached(h, t, pjs[j]);
    }
  }

  /** No listed deletion names a project the same run creates. */
  ghost predicate DeletesDisjoint(h: Host, deletes: seq<Path>, pjs: seq<ProjectSpec>) {
    forall i, j :: 0 <= i < |deletes| && 0 <= j < |pjs| && deletes[i] == ProjectPath(pjs[j]) ==> !Creatable(h, pjs[j])
  }

  function Remaining(ps: Projects, deletes: seq<Path>): Projects {
    ps - First(deletes, |deletes|)
  }

  lemma NoDeleteComesBack(h: Host, ps: Projects, deletes: seq<Path>, pjs: seq<ProjectSpec>, t: Projects)
    requires DeletesDisjoint(h, deletes, pjs) && ProjectsInv(h, Remaining(ps, deletes), pjs, t, |pjs|)
    ensures forall i :: 0 <= i < |deletes| ==> deletes[i] !in t
  {
    forall i | 0 <= i < |deletes| ensures deletes[i] !in t {
      assert deletes[i] !in Remaining(ps, deletes);
      assert !Touched(h, Remaining(ps, deletes), pjs, |pjs|, deletes[i]);
    }
  }

  lemma SilentIsDisjoint(h: Host, ps: Projects, deletes: seq<Path>, pjs: seq<ProjectSpec>, t: Projects)
    requires t == RunProjects(h, ps, deletes, pjs).state && RunProjects(h, t, deletes, pjs).changes == 0
    ensures DeletesDisjoint(h, deletes, pjs) && ProjectsAgree(h, Remaining(ps, deletes), pjs)
  {
    assert deletes[..|deletes|] == deletes;
    DeletedExactly(ps, deletes, |deletes|);
    DeletedExactly(t, deletes, |deletes|);
    assert t - First(deletes, |deletes|) == t;
    SettledIsReached(h, t, pjs);
    NothingGoes(h, Remaining(ps, deletes), pjs);
    ReachedAgree(h, Remaining(ps, deletes), t, pjs);
    forall i, j | 0 <= i < |deletes| && 0 <= j < |pjs| && deletes[i] == ProjectPath(pjs[j])
      ensures !Creatable(h, pjs[j])
    {
      assert ProjectReached(h, t, pjs[j]);
    }
  }

  /** The two project sections converge exactly when the deletions and the creations are disjoint, and entries
      for one project agree. */
  lemma ProjectsConvergeExactly(h: Host, ps: Projects, deletes: seq<Path>, pjs: seq<ProjectSpec>)
    ensures
      var t, agree := RunProjects(h, ps, deletes, pjs).state, ProjectsAgree(h, Remaining(ps, deletes), pjs);
      && (RunProjects(h, t, deletes, pjs).changes == 0 <==> DeletesDisjoint(h, deletes, pjs) && agree)
      && (DeletesDisjoint(h, deletes, pjs) && agree ==> RunProjects(h, t, deletes, pjs) == Out(t, 0))
      && (agree ==> forall j :: 0 <= j < |pjs| ==> ProjectReached(h, t, pjs[j]))
  {
    assert deletes[..|deletes|] == deletes;
    DeletedExactly(ps, deletes, |deletes|);
    var d := Remaining(ps, deletes);
    var t := RunProjects(h, ps, deletes, pjs).state;
    DeletedExactly(t, deletes, |deletes|);
    if ProjectsAgree(h, d, pjs) {
      ProjectsConverge(h, d, pjs);
    }
    if DeletesDisjoint(h, deletes, pjs) && ProjectsAgree(h, d, pjs) {
      NoDeleteComesBack(h, ps, deletes, pjs, t);
      assert t - First(deletes, |deletes|) == t;
    } else if RunProjects(h, t, deletes, pjs).changes == 0 {
      SilentIsDisjoint(h, ps, deletes, pjs, t);
    }
  }

  // ----- where the fields come from

  /** What a project is before any entry: itself, or as it is created. */
  ghost function Before(h: Host, ps: Projects, p: Path): Project {
    if p in ps then ps[p] else Project("", 0, h.defaultDesk)
  }

  /** Each field is as it was before, or as one of the first k entries for the project says. */
  ghost predicate FieldsFrom(h: Host, ps: Projects, pjs: seq<ProjectSpec>, k: nat, p: Path, now: Project)
    requires k <= |pjs|
  {
    && (now.description == Before(h, ps, p).description
        || exists j :: 0 <= j < k && ProjectPath(pjs[j]) == p && pjs[j].description == Some(now.description))
    && (now.visibility == Before(h, ps, p).visibility
        || exists j :: 0 <= j < k && ProjectPath(pjs[j]) == p && pjs[j].visibility == Some(now.visibility))
    && (now.serviceDesk == Before(h, ps, p).serviceDesk
        || exists j :: 0 <= j < k && ProjectPath(pjs[j]) == p && pjs[j].serviceDesk == Some(now.serviceDesk))
  }

  ghost predicate AllFrom(h: Host, ps: Projects, pjs: seq<ProjectSpec>, t: Projects, k: nat) {
    k <= |pjs| && ps.Keys <= t.Keys && forall p :: p in t ==> FieldsFrom(h, ps, pjs, k, p, t[p])
  }

  lemma FromStep(h: Host, ps: Projects, pjs: seq<ProjectSpec>, t: Projects, k: nat)
    requires k < |pjs| && AllFrom(h, ps, pjs, t, k)
    ensures AllFrom(h, ps, pjs, ProjectStep(h, t, pjs[k]).state, k + 1)
  {
    var t' := ProjectStep(h, t, pjs[k]).state;
    StepOnlyAt(h, t, pjs[k]);
    forall p | p in t' ensures FieldsFrom(h, ps, pjs, k + 1, p, t'[p]) {
      if p in t {
        assert FieldsFrom(h, ps, pjs, k, p, t[p]);
      }
    }
  }

  lemma FieldsComeFrom(h: Host, ps: Projects, pjs: seq<ProjectSpec>)
    ensures AllFrom(h, ps, pjs, Run(ProjectSteps(h), ps, pjs).state, |pjs|)
  {
    var inv: Inv<Projects> := (t: Projects, k: nat) => AllFrom(h, ps, pjs, t, k);
    forall t, k: nat | k < |pjs| && inv(t, k) ensures inv(ProjectSteps(h)(t, pjs[k]).state, k + 1) {
      FromStep(h, ps, pjs, t, k);
    }
    RunKeeps(ProjectSteps(h), inv, ps, pjs, |pjs|);
    assert pjs[..|pjs|] == pjs;
  }
}
