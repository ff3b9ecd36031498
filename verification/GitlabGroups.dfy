/** Section 3 of the GitLab reconciler (roles/gitlab_rbac/_archive/reconcile.rb): groups. */
module GitlabGroups {
  import opened Basics
  import opened Reconcile

  /** A full path, one component per level. */
  type Path = seq<string>

  datatype Settings = Settings(visibility: int, projectCreation: int, subgroupCreation: int)

  datatype GroupSpec = GroupSpec(parent: Option<Path>, path: string, want: Settings)

  type Groups = map<Path, Settings>

  function Full(g: GroupSpec): Path {
    match g.parent
    case None => [g.path]
    case Some(p) => p + [g.path]
  }

  predicate ParentExists(groups: Groups, g: GroupSpec) {
    g.parent.Some? ==> g.parent.value in groups
  }

  /** Where the create call puts the group: with its parent absent no parent_id is sent, and the
      group lands at the top level. */
  function CreatedAt(groups: Groups, g: GroupSpec): Path {
    if ParentExists(groups, g) then Full(g) else [g.path]
  }

  /** One desired group. `refused` holds the paths the create service turns down; a taken path is
      turned down too. */
  function GroupStep(refused: set<Path>, groups: Groups, g: GroupSpec): Out<Groups> {
    if Full(g) in groups then
      if groups[Full(g)] == g.want then Out(groups, 0) else Out(groups[Full(g) := g.want], 1)
    else
      var at := CreatedAt(groups, g);
      if at in groups || at in refused then Out(groups, 0) else Out(groups[at := g.want], 1)
  }

  function GroupSteps(refused: set<Path>): (Groups, GroupSpec) -> Out<Groups> {
    (groups, g) => GroupStep(refused, groups, g)
  }

  function RunGroups(refused: set<Path>, groups: Groups, gs: seq<GroupSpec>): Out<Groups> {
    Run(GroupSteps(refused), groups, gs)
  }

  // ----- convergence

  ghost predicate UniqueGroups(gs: seq<GroupSpec>) {
    forall i, j :: 0 <= i < j < |gs| ==> Full(gs[i]) != Full(gs[j])
  }

  /** Each parent exists at the start or is listed earlier (and can be created). */
  ghost predicate ParentsFirst(refused: set<Path>, groups: Groups, gs: seq<GroupSpec>) {
    forall i :: 0 <= i < |gs| && gs[i].parent.Some? ==>
      || gs[i].parent.value in groups
      || exists j :: 0 <= j < i && Full(gs[j]) == gs[i].parent.value && Full(gs[j]) !in refused
  }

  /** The group is as declared, or the service refuses to create it. */
  ghost predicate Reached(refused: set<Path>, t: Groups, g: GroupSpec) {
    if Full(g) in t then t[Full(g)] == g.want else Full(g) in refused
  }

  ghost predicate Listed(gs: seq<GroupSpec>, k: nat, p: Path)
    requires k <= |gs|
  {
    exists j :: 0 <= j < k && Full(gs[j]) == p
  }

  /** Before step k: nothing has disappeared, the first k groups exist unless refused, and no other
      group has been touched. */
  ghost predicate GroupsInv(refused: set<Path>, groups: Groups, gs: seq<GroupSpec>, t: Groups, k: nat) {
    && k <= |gs|
    && groups.Keys <= t.Keys
    && (forall j :: 0 <= j < k ==> Reached(refused, t, gs[j]))
    && (forall p :: p in t && !Listed(gs, k, p) ==> p in groups && t[p] == groups[p])
  }

  ghost function GroupsInvOf(refused: set<Path>, groups: Groups, gs: seq<GroupSpec>): Inv<Groups> {
    (t: Groups, k: nat) => GroupsInv(refused, groups, gs, t, k)
  }

  lemma ParentReady(refused: set<Path>, groups: Groups, gs: seq<GroupSpec>, t: Groups, k: nat, i: nat)
    requires ParentsFirst(refused, groups, gs) && GroupsInv(refused, groups, gs, t, k) && i <= k && i < |gs|
    ensures ParentExists(t, gs[i])
  {
  }

  /** With its parent there, a step writes at the group's own path or nowhere, and settles it. */
  lemma GroupStepShape(refused: set<Path>, t: Groups, g: GroupSpec)
    requires ParentExists(t, g)
    ensures var t' := GroupStep(refused, t, g).state;
      (t' == t || t' == t[Full(g) := g.want]) && Reached(refused, t', g)
  {
  }

  lemma GroupWriteKeeps(refused: set<Path>, groups: Groups, gs: seq<GroupSpec>, t: Groups, t': Groups, k: nat)
    requires UniqueGroups(gs) && k < |gs| && GroupsInv(refused, groups, gs, t, k)
    requires (t' == t || t' == t[Full(gs[k]) := gs[k].want]) && Reached(refused, t', gs[k])
    ensures GroupsInv(refused, groups, gs, t', k + 1)
  {
  }

  lemma GroupStepKeeps(refused: set<Path>, groups: Groups, gs: seq<GroupSpec>, t: Groups, k: nat)
    requires UniqueGroups(gs) && ParentsFirst(refused, groups, gs)
    requires k < |gs| && GroupsInv(refused, groups, gs, t, k)
    ensures GroupsInv(refused, groups, gs, GroupStep(refused, t, gs[k]).state, k + 1)
  {
    ParentReady(refused, groups, gs, t, k, k);
    GroupStepShape(refused, t, gs[k]);
    GroupWriteKeeps(refused, groups, gs, t, GroupStep(refused, t, gs[k]).state, k);
  }

  lemma GroupsKeep(refused: set<Path>, groups: Groups, gs: seq<GroupSpec>)
    requires UniqueGroups(gs) && ParentsFirst(refused, groups, gs)
    ensures Keeps(GroupSteps(refused), GroupsInvOf(refused, groups, gs), gs)
  {
    var step, inv := GroupSteps(refused), GroupsInvOf(refused, groups, gs);
    forall t, k: nat | k < |gs| && inv(t, k) ensures inv(step(t, gs[k]).state, k + 1) {
      GroupStepKeeps(refused, groups, gs, t, k);
    }
  }

  // ----- when the groups are reached, exactly

  /** What a step does to the paths that exist; settings do not matter to it. */
  function PathStep(refused: set<Path>, paths: set<Path>, g: GroupSpec): set<Path> {
    var at := if g.parent.Some? && g.parent.value !in paths then [g.path] else Full(g);
    if Full(g) in paths || at in refused then paths else paths + {at}
  }

  /** The paths that exist after the first n groups. */
  function PathsAfter(refused: set<Path>, paths: set<Path>, gs: seq<GroupSpec>, n: nat): set<Path>
    requires n <= |gs|
  {
    if n == 0 then paths else PathStep(refused, PathsAfter(refused, paths, gs, n - 1), gs[n - 1])
  }

  function After(refused: set<Path>, groups: Groups, gs: seq<GroupSpec>, n: nat): Groups
    requires n <= |gs|
  {
    if n == 0 then groups else GroupStep(refused, After(refused, groups, gs, n - 1), gs[n - 1]).state
  }

  lemma {:induction false} AfterIsTheRun(refused: set<Path>, groups: Groups, gs: seq<GroupSpec>, n: nat)
    requires n <= |gs|
    ensures RunGroups(refused, groups, gs[..n]).state == After(refused, groups, gs, n)
  {
    if n > 0 {
      AfterIsTheRun(refused, groups, gs, n - 1);
      RunOne(GroupSteps(refused), groups, gs, n - 1);
    }
  }

  lemma StepHasThePaths(refused: set<Path>, t: Groups, g: GroupSpec, t': Groups, paths: set<Path>)
    requires t' == GroupStep(refused, t, g).state && paths == t.Keys
    ensures t'.Keys == PathStep(refused, paths, g)
  {
  }

  lemma {:induction false} AfterHasThePaths(refused: set<Path>, groups: Groups, gs: seq<GroupSpec>, n: nat)
    requires n <= |gs|
    ensures After(refused, groups, gs, n).Keys == PathsAfter(refused, groups.Keys, gs, n)
  {
    if n > 0 {
      AfterHasThePaths(refused, groups, gs, n - 1);
      StepHasThePaths(refused, After(refused, groups, gs, n - 1), gs[n - 1],
                      After(refused, groups, gs, n), PathsAfter(refused, groups.Keys, gs, n - 1));
    }
  }

  /** At its turn the group is there, or its parent is, or it needs none, or it is refused anyway. */
  predicate Sited(refused: set<Path>, paths: set<Path>, g: GroupSpec) {
    || g.parent.None? || g.parent.value == [] || g.parent.value in paths
    || Full(g) in paths || Full(g) in refused
  }

  ghost predicate AllSited(refused: set<Path>, paths: set<Path>, gs: seq<GroupSpec>) {
    forall i :: 0 <= i < |gs| ==> Sited(refused, PathsAfter(refused, paths, gs, i), gs[i])
  }

  ghost predicate AllReached(refused: set<Path>, t: Groups, gs: seq<GroupSpec>) {
    forall i :: 0 <= i < |gs| ==> Reached(refused, t, gs[i])
  }

  lemma SitedStepReaches(refused: set<Path>, t: Groups, g: GroupSpec, t': Groups)
    requires Sited(refused, t.Keys, g) && t' == GroupStep(refused, t, g).state
    ensures Reached(refused, t', g)
  {
    assert g.parent == Some([]) ==> Full(g) == [g.path];
  }

  lemma StepStaysReached(refused: set<Path>, t: Groups, gs: seq<GroupSpec>, i: nat, k: nat, t': Groups)
    requires UniqueGroups(gs) && i < k < |gs| && t' == GroupStep(refused, t, gs[k]).state
    requires Reached(refused, t, gs[i])
    ensures Reached(refused, t', gs[i])
  {
  }

  /** A misplaced group stays missing: only its own step could create it. */
  lemma StepStaysMissing(refused: set<Path>, t: Groups, gs: seq<GroupSpec>, i: nat, k: nat, t': Groups)
    requires UniqueGroups(gs) && i < k < |gs| && t' == GroupStep(refused, t, gs[k]).state
    requires Full(gs[i]) !in t && |Full(gs[i])| > 1
    ensures Full(gs[i]) !in t'
  {
  }

  lemma {:induction false} SitedAreReached(refused: set<Path>, groups: Groups, gs: seq<GroupSpec>, i: nat, n: nat)
    requires UniqueGroups(gs) && i < n <= |gs| && Sited(refused, After(refused, groups, gs, i).Keys, gs[i])
    ensures Reached(refused, After(refused, groups, gs, n), gs[i])
    decreases n
  {
    var before, now := After(refused, groups, gs, n - 1), After(refused, groups, gs, n);
    if i < n - 1 {
      SitedAreReached(refused, groups, gs, i, n - 1);
      StepStaysReached(refused, before, gs, i, n - 1, now);
    } else {
      SitedStepReaches(refused, before, gs[i], now);
    }
  }

  /** The step that finds it so does not create it either. */
  lemma MisplacedStepMisses(refused: set<Path>, t: Groups, g: GroupSpec, t': Groups)
    requires !Sited(refused, t.Keys, g) && t' == GroupStep(refused, t, g).state
    ensures Full(g) !in t' && |Full(g)| > 1
  {
  }

  lemma {:induction false} MisplacedIsMissing(refused: set<Path>, groups: Groups, gs: seq<GroupSpec>, i: nat, n: nat)
    requires UniqueGroups(gs) && i < n <= |gs| && !Sited(refused, After(refused, groups, gs, i).Keys, gs[i])
    ensures Full(gs[i]) !in After(refused, groups, gs, n) && |Full(gs[i])| > 1
    decreases n
  {
    var before, now := After(refused, groups, gs, n - 1), After(refused, groups, gs, n);
    if i < n - 1 {
      MisplacedIsMissing(refused, groups, gs, i, n - 1);
      StepStaysMissing(refused, before, gs, i, n - 1, now);
    } else {
      MisplacedStepMisses(refused, before, gs[i], now);
    }
  }

  /** One run reaches every group that is not refused if and only if each finds its parent, or itself,
      among the paths that exist at its turn; which these are follows from the declaration alone. */
  lemma GroupsReachedExactly(refused: set<Path>, groups: Groups, gs: seq<GroupSpec>)
    requires UniqueGroups(gs)
    ensures AllReached(refused, RunGroups(refused, groups, gs).state, gs) <==> AllSited(refused, groups.Keys, gs)
  {
    AfterIsTheRun(refused, groups, gs, |gs|);
    assert gs[..|gs|] == gs;
    forall i | 0 <= i < |gs|
      ensures Reached(refused, RunGroups(refused, groups, gs).state, gs[i])
              <==> Sited(refused, PathsAfter(refused, groups.Keys, gs, i), gs[i])
    {
      AfterHasThePaths(refused, groups, gs, i);
      if Sited(refused, After(refused, groups, gs, i).Keys, gs[i]) {
        SitedAreReached(refused, groups, gs, i, |gs|);
      } else {
        MisplacedIsMissing(refused, groups, gs, i, |gs|);
      }
    }
  }

  /** Subgroups have their parents. */
  ghost predicate Rooted(paths: set<Path>) {
    forall p :: p in paths && |p| > 1 ==> p[..|p| - 1] in paths
  }

  ghost predicate ParentsNamed(gs: seq<GroupSpec>) {
    forall i :: 0 <= i < |gs| && gs[i].parent.Some? ==> gs[i].parent.value != []
  }

  /** What is refused below its parent is refused at the top level too. */
  ghost predicate RefusedByName(refused: set<Path>, gs: seq<GroupSpec>) {
    forall i :: 0 <= i < |gs| && Full(gs[i]) in refused ==> [gs[i].path] in refused
  }

  /** Listed among the first n and not refused. */
  ghost predicate Offered(refused: set<Path>, gs: seq<GroupSpec>, n: nat, p: Path)
    requires n <= |gs|
  {
    p !in refused && Listed(gs, n, p)
  }

  /** Each group that is not refused has its parent at the start, or listed earlier and not refused. */
  ghost predicate InOrder(refused: set<Path>, paths: set<Path>, gs: seq<GroupSpec>) {
    forall i :: 0 <= i < |gs| && gs[i].parent.Some? && Full(gs[i]) !in refused
      ==> gs[i].parent.value in paths || Offered(refused, gs, i, gs[i].parent.value)
  }

  lemma OfferedBefore(refused: set<Path>, gs: seq<GroupSpec>, n: nat, p: Path)
    requires n < |gs| && Offered(refused, gs, n + 1, p)
    ensures p == Full(gs[n]) || Offered(refused, gs, n, p)
  {
  }

  lemma OfferedIsPlaced(refused: set<Path>, paths: set<Path>, gs: seq<GroupSpec>, n: nat, before: set<Path>)
    requires n < |gs| && InOrder(refused, paths, gs) && paths <= before
    requires forall p :: Offered(refused, gs, n, p) ==> p in before
    ensures Full(gs[n]) !in refused ==> Full(gs[n]) in PathStep(refused, before, gs[n])
  {
  }

  lemma {:induction false} OfferedExist(refused: set<Path>, paths: set<Path>, gs: seq<GroupSpec>, n: nat)
    requires n <= |gs| && InOrder(refused, paths, gs)
    ensures paths <= PathsAfter(refused, paths, gs, n)
    ensures forall p :: Offered(refused, gs, n, p) ==> p in PathsAfter(refused, paths, gs, n)
  {
    if n > 0 {
      OfferedExist(refused, paths, gs, n - 1);
      OfferedIsPlaced(refused, paths, gs, n - 1, PathsAfter(refused, paths, gs, n - 1));
      forall p | Offered(refused, gs, n, p) ensures p in PathsAfter(refused, paths, gs, n) {
        OfferedBefore(refused, gs, n - 1, p);
      }
    }
  }

  lemma SitedStepAdds(refused: set<Path>, before: set<Path>, g: GroupSpec, p: Path)
    requires Sited(refused, before, g) && (Full(g) in refused ==> [g.path] in refused)
    requires p in PathStep(refused, before, g) && p !in before
    ensures p == Full(g) && p !in refused
  {
    assert g.parent == Some([]) ==> Full(g) == [g.path];
  }

  lemma OfferedStays(refused: set<Path>, gs: seq<GroupSpec>, n: nat, p: Path)
    requires n < |gs| && Offered(refused, gs, n, p)
    ensures Offered(refused, gs, n + 1, p)
  {
  }

  lemma {:induction false} NothingElseExists(refused: set<Path>, paths: set<Path>, gs: seq<GroupSpec>, n: nat)
    requires n <= |gs| && RefusedByName(refused, gs) && AllSited(refused, paths, gs)
    ensures forall p :: p in PathsAfter(refused, paths, gs, n) ==> p in paths || Offered(refused, gs, n, p)
  {
    if n > 0 {
      NothingElseExists(refused, paths, gs, n - 1);
      var before, g := PathsAfter(refused, paths, gs, n - 1), gs[n - 1];
      assert Sited(refused, before, g) && Listed(gs, n, Full(g));
      forall p | p in PathStep(refused, before, g) ensures p in paths || Offered(refused, gs, n, p) {
        if p !in before {
          SitedStepAdds(refused, before, g, p);
        } else if p !in paths {
          OfferedStays(refused, gs, n - 1, p);
        }
      }
    }
  }

  lemma InOrderIsSited(refused: set<Path>, paths: set<Path>, gs: seq<GroupSpec>)
    requires InOrder(refused, paths, gs)
    ensures AllSited(refused, paths, gs)
  {
    forall i | 0 <= i < |gs| ensures Sited(refused, PathsAfter(refused, paths, gs, i), gs[i]) {
      OfferedExist(refused, paths, gs, i);
    }
  }

  lemma SitedIsInOrder(refused: set<Path>, paths: set<Path>, gs: seq<GroupSpec>)
    requires UniqueGroups(gs) && ParentsNamed(gs) && Rooted(paths) && RefusedByName(refused, gs)
    requires AllSited(refused, paths, gs)
    ensures InOrder(refused, paths, gs)
  {
    forall i | 0 <= i < |gs| && gs[i].parent.Some? && Full(gs[i]) !in refused
      ensures gs[i].parent.value in paths || Offered(refused, gs, i, gs[i].parent.value)
    {
      NothingElseExists(refused, paths, gs, i);
      assert !Listed(gs, i, Full(gs[i]));
      assert Full(gs[i])[..|Full(gs[i])| - 1] == gs[i].parent.value;
    }
  }

  /** On an instance whose subgroups have their parents, one run reaches every group that is not refused
      if and only if each such group has its parent there already, or listed before it and not refused. */
  lemma OrderDecides(refused: set<Path>, groups: Groups, gs: seq<GroupSpec>)
    requires UniqueGroups(gs) && ParentsNamed(gs) && Rooted(groups.Keys) && RefusedByName(refused, gs)
    ensures AllReached(refused, RunGroups(refused, groups, gs).state, gs) <==> InOrder(refused, groups.Keys, gs)
  {
    GroupsReachedExactly(refused, groups, gs);
    if InOrder(refused, groups.Keys, gs) {
      InOrderIsSited(refused, groups.Keys, gs);
    }
    if AllSited(refused, groups.Keys, gs) {
      SitedIsInOrder(refused, groups.Keys, gs);
    }
  }

  /** When nothing is refused: every listed group is at its own path, with its settings, if and only if
      no group is listed before a parent it needs. */
  lemma PlacedExactlyInOrder(groups: Groups, gs: seq<GroupSpec>)
    requires UniqueGroups(gs) && ParentsNamed(gs) && Rooted(groups.Keys)
    ensures var t := RunGroups({}, groups, gs).state;
      (forall i :: 0 <= i < |gs| ==> Full(gs[i]) in t && t[Full(gs[i])] == gs[i].want) <==> ParentsFirst({}, groups, gs)
  {
    OrderDecides({}, groups, gs);
    var t := RunGroups({}, groups, gs).state;
    assert forall g: GroupSpec :: Reached({}, t, g) <==> Full(g) in t && t[Full(g)] == g.want;
  }

  // ----- when a second run is silent, exactly

  lemma {:induction false} PathsGrow(refused: set<Path>, paths: set<Path>, gs: seq<GroupSpec>, i: nat, n: nat)
    requires i <= n <= |gs|
    ensures PathsAfter(refused, paths, gs, i) <= PathsAfter(refused, paths, gs, n)
    decreases n
  {
    if i < n {
      PathsGrow(refused, paths, gs, i, n - 1);
    }
  }

  /** It has its place, or its parent is still missing after the run, so that it stays at the top level. */
  predicate Rests(refused: set<Path>, paths: set<Path>, gs: seq<GroupSpec>, i: nat)
    requires i < |gs|
  {
    || Sited(refused, PathsAfter(refused, paths, gs, i), gs[i])
    || gs[i].parent.value !in PathsAfter(refused, paths, gs, |gs|)
  }

  ghost predicate AllRest(refused: set<Path>, paths: set<Path>, gs: seq<GroupSpec>) {
    forall i :: 0 <= i < |gs| ==> Rests(refused, paths, gs, i)
  }

  /** With its parent missing to the end, the group or what is refused of it is at the top level. */
  lemma TopLevelTaken(refused: set<Path>, before: set<Path>, g: GroupSpec, after: set<Path>)
    requires PathStep(refused, before, g) <= after && before <= after && Full(g) !in after
    requires g.parent.Some? && g.parent.value !in after
    ensures [g.path] in after || [g.path] in refused
  {
  }

  lemma RestsExactly(refused: set<Path>, t: Groups, before: set<Path>, g: GroupSpec)
    requires before <= t.Keys && PathStep(refused, before, g) <= t.Keys
    requires if Sited(refused, before, g) then Reached(refused, t, g) else Full(g) !in t
    ensures GroupStep(refused, t, g) == Out(t, 0)
            <==> Sited(refused, before, g) || g.parent.value !in t
  {
    if g.parent.Some? && g.parent.value !in t && Full(g) !in t {
      TopLevelTaken(refused, before, g, t.Keys);
    }
  }

  lemma StepAmongAll(refused: set<Path>, groups: Groups, gs: seq<GroupSpec>, i: nat)
    requires i < |gs|
    ensures var before, all := PathsAfter(refused, groups.Keys, gs, i), After(refused, groups, gs, |gs|).Keys;
      before <= all && PathStep(refused, before, gs[i]) <= all && before == After(refused, groups, gs, i).Keys
      && all == PathsAfter(refused, groups.Keys, gs, |gs|)
  {
    AfterHasThePaths(refused, groups, gs, i);
    AfterHasThePaths(refused, groups, gs, |gs|);
    PathsGrow(refused, groups.Keys, gs, i, |gs|);
    PathsGrow(refused, groups.Keys, gs, i + 1, |gs|);
  }

  lemma RestingIsSettled(refused: set<Path>, groups: Groups, gs: seq<GroupSpec>, t: Groups, i: nat)
    requires UniqueGroups(gs) && i < |gs| && t == After(refused, groups, gs, |gs|)
    ensures GroupStep(refused, t, gs[i]) == Out(t, 0) <==> Rests(refused, groups.Keys, gs, i)
  {
    var before := PathsAfter(refused, groups.Keys, gs, i);
    StepAmongAll(refused, groups, gs, i);
    if Sited(refused, before, gs[i]) {
      SitedAreReached(refused, groups, gs, i, |gs|);
    } else {
      MisplacedIsMissing(refused, groups, gs, i, |gs|);
    }
    RestsExactly(refused, t, before, gs[i]);
  }

  /** A second run counts no change if and only if every group that did not find its parent at its turn
      does not find it after the run either; and then nothing is written. */
  lemma SecondPassSilentExactly(refused: set<Path>, groups: Groups, gs: seq<GroupSpec>)
    requires UniqueGroups(gs)
    ensures var t := RunGroups(refused, groups, gs).state;
      && (RunGroups(refused, t, gs).changes == 0 <==> AllRest(refused, groups.Keys, gs))
      && (AllRest(refused, groups.Keys, gs) ==> RunGroups(refused, t, gs) == Out(t, 0))
  {
    var step, t := GroupSteps(refused), RunGroups(refused, groups, gs).state;
    AfterIsTheRun(refused, groups, gs, |gs|);
    assert gs[..|gs|] == gs;
    forall i | 0 <= i < |gs| ensures Settled(step, t, gs[i]) <==> Rests(refused, groups.Keys, gs, i) {
      RestingIsSettled(refused, groups, gs, t, i);
    }
    SilentExactly(step, t, gs);
  }

  /** In particular with parents first: one run brings every listed group that can be created to its settings
      and touches no other, and a second run makes no change. */
  lemma GroupsConverge(refused: set<Path>, groups: Groups, gs: seq<GroupSpec>)
    requires UniqueGroups(gs) && ParentsFirst(refused, groups, gs)
    ensures var t := RunGroups(refused, groups, gs).state;
      GroupsInv(refused, groups, gs, t, |gs|) && RunGroups(refused, t, gs) == Out(t, 0)
  {
    GroupsKeep(refused, groups, gs);
    RunKeeps(GroupSteps(refused), GroupsInvOf(refused, groups, gs), groups, gs, |gs|);
    assert gs[..|gs|] == gs;
    InOrderIsSited(refused, groups.Keys, gs);
    SecondPassSilentExactly(refused, groups, gs);
  }

  /** A child listed before the parent it needs is created at the top level; the second run, with
      the parent there, creates it again in its place. */
  lemma ChildFirstDoesNotConverge(parent: string, child: string, w: Settings)
    requires parent != child
    ensures var gs := [GroupSpec(Some([parent]), child, w), GroupSpec(None, parent, w)];
      var t := RunGroups({}, map[], gs).state;
      && t == map[[child] := w, [parent] := w]
      && RunGroups({}, t, gs).changes == 1
  {
    var c, p := GroupSpec(Some([parent]), child, w), GroupSpec(None, parent, w);
    var step := GroupSteps({});
    var s0: Groups := map[];
    assert Full(c) == [parent, child] && [c, p][..1] == [c] && [c][..0] == [];
    assert [parent] != [child] && [child] != [parent, child] by {
      assert [parent][0] == parent;
    }
    var s1: Groups := map[[child] := w];
    assert step(s0, c) == Out(s1, 1);
    assert Run(step, s0, [c]) == Out(s1, 1);
    var t: Groups := map[[child] := w, [parent] := w];
    assert t == s1[[parent] := w];
    assert step(s1, p) == Out(t, 1);
    assert Run(step, t, [c]) == Out(t[[parent, child] := w], 1);
  }
}
