/** Section 4 of the GitLab reconciler (roles/gitlab_rbac/_archive/reconcile.rb): direct
    memberships, pruned first and then added or levelled. */
module GitlabMembers {
  import opened Reconcile
  import opened GitlabGroups

  datatype User = User(human: bool, admin: bool)
  type Users = map<string, User>

  /** A direct membership is keyed by its group and its user. */
  type Pair = (Path, string)
  type Direct = map<Pair, nat>

  datatype MemberSpec = MemberSpec(group: Path, user: string, level: nat)

  /** What the instance answers from: existing groups, users, and whether it refuses a direct grant
      below an inherited one. */
  datatype Site = Site(groups: set<Path>, users: Users, guarded: bool)

  /** `raised`: a refused `update!` has stopped the program. */
  datatype Members = Members(direct: Direct, raised: bool)

  function KeyOf(m: MemberSpec): Pair {
    (m.group, m.user)
  }

  function DesiredPairs(ms: seq<MemberSpec>): set<Pair> {
    set i | 0 <= i < |ms| :: KeyOf(ms[i])
  }

  // ----- prune

  /** Never root, never a membership without a user, never a bot. */
  predicate Prunable(site: Site, user: string) {
    user in site.users && user != "root" && site.users[user].human
  }

  function Dead(site: Site, desired: set<Pair>, direct: Direct, path: Path): set<Pair> {
    if path in site.groups then set p | p in direct && p.0 == path && Prunable(site, p.1) && p !in desired else {}
  }

  function PruneStep(site: Site, desired: set<Pair>, s: Members, path: Path): Out<Members> {
    var dead := Dead(site, desired, s.direct, path);
    Out(s.(direct := s.direct - dead), |dead|)
  }

  function PruneSteps(site: Site, desired: set<Pair>): (Members, Path) -> Out<Members> {
    (s, path) => PruneStep(site, desired, s, path)
  }

  // ----- add

  /** Some ancestor group already grants the user more. */
  predicate Floored(direct: Direct, key: Pair, level: nat) {
    exists p :: p in direct && p.0 < key.0 && p.1 == key.1 && direct[p] > level
  }

  function AddStep(site: Site, s: Members, m: MemberSpec): Out<Members> {
    var key := KeyOf(m);
    if s.raised || m.group !in site.groups || m.user !in site.users then Out(s, 0)
    else if key !in s.direct then
      // a refused add_member returns an invalid record, and is counted all the same
      if site.guarded && Floored(s.direct, key, m.level) then Out(s, 1)
      else Out(s.(direct := s.direct[key := m.level]), 1)
    else if s.direct[key] == m.level then Out(s, 0)
    else if site.guarded && Floored(s.direct, key, m.level) then Out(s.(raised := true), 0)
    else Out(s.(direct := s.direct[key := m.level]), 1)
  }

  function AddSteps(site: Site): (Members, MemberSpec) -> Out<Members> {
    (s, m) => AddStep(site, s, m)
  }

  function Pruned(site: Site, direct: Direct, managed: seq<Path>, ms: seq<MemberSpec>): Out<Members> {
    Run(PruneSteps(site, DesiredPairs(ms)), Members(direct, false), managed)
  }

  /** The whole section. */
  function RunMembers(site: Site, direct: Direct, managed: seq<Path>, ms: seq<MemberSpec>): Out<Members> {
    var p := Pruned(site, direct, managed, ms);
    var a := Run(AddSteps(site), p.state, ms);
    Out(a.state, p.changes + a.changes)
  }

  // ----- the prune, in closed form

  predicate Goes(site: Site, managed: seq<Path>, ms: seq<MemberSpec>, p: Pair) {
    p.0 in managed && p.0 in site.groups && Prunable(site, p.1) && p !in DesiredPairs(ms)
  }

  /** What is left once the first n managed paths are pruned. */
  ghost predicate PruneInv(site: Site, direct: Direct, managed: seq<Path>, ms: seq<MemberSpec>, s: Members, n: nat) {
    && n <= |managed| && !s.raised
    && (forall p :: p in s.direct <==> p in direct && !Goes(site, managed[..n], ms, p))
    && (forall p :: p in s.direct ==> s.direct[p] == direct[p])
  }

  ghost function PruneInvOf(site: Site, direct: Direct, managed: seq<Path>, ms: seq<MemberSpec>): Inv<Members> {
    (s: Members, n: nat) => PruneInv(site, direct, managed, ms, s, n)
  }

  lemma PruneStepKeeps(site: Site, direct: Direct, managed: seq<Path>, ms: seq<MemberSpec>, s: Members, n: nat)
    requires n < |managed| && PruneInv(site, direct, managed, ms, s, n)
    ensures PruneInv(site, direct, managed, ms, PruneStep(site, DesiredPairs(ms), s, managed[n]).state, n + 1)
  {
  }

  lemma PrunedExactly(site: Site, direct: Direct, managed: seq<Path>, ms: seq<MemberSpec>)
    ensures PruneInv(site, direct, managed, ms, Pruned(site, direct, managed, ms).state, |managed|)
  {
    var step, inv := PruneSteps(site, DesiredPairs(ms)), PruneInvOf(site, direct, managed, ms);
    forall s, n: nat | n < |managed| && inv(s, n) ensures inv(step(s, managed[n]).state, n + 1) {
      PruneStepKeeps(site, direct, managed, ms, s, n);
    }
    RunKeeps(step, inv, Members(direct, false), managed, |managed|);
    assert managed[..|managed|] == managed;
  }

  lemma PrunedSilent(site: Site, direct: Direct, managed: seq<Path>, ms: seq<MemberSpec>)
    requires forall p :: p in direct ==> !Goes(site, managed, ms, p)
    ensures Pruned(site, direct, managed, ms) == Out(Members(direct, false), 0)
  {
    var step, s := PruneSteps(site, DesiredPairs(ms)), Members(direct, false);
    forall n | 0 <= n < |managed| ensures Settled(step, s, managed[n]) {
      NoneDead(site, direct, managed, ms, managed[n]);
      assert direct - {} == direct;
    }
    SettledRun(step, s, managed);
  }

  lemma NoneDead(site: Site, direct: Direct, managed: seq<Path>, ms: seq<MemberSpec>, path: Path)
    requires path in managed && forall p :: p in direct ==> !Goes(site, managed, ms, p)
    ensures Dead(site, DesiredPairs(ms), direct, path) == {}
  {
  }

  // ----- the add, level by level

  ghost predicate UniquePairs(ms: seq<MemberSpec>) {
    forall i, j :: 0 <= i < j < |ms| ==> KeyOf(ms[i]) != KeyOf(ms[j])
  }

  predicate Applies(site: Site, m: MemberSpec) {
    m.group in site.groups && m.user in site.users
  }

  predicate Differs(direct: Direct, m: MemberSpec) {
    KeyOf(m) !in direct || direct[KeyOf(m)] != m.level
  }

  /** The pair grants the same user something in a group above. */
  predicate Above(p: Pair, m: MemberSpec) {
    p.0 < m.group && p.1 == m.user
  }

  /** One of the first k grants sets the pair. */
  predicate SetBefore(site: Site, ms: seq<MemberSpec>, k: nat, p: Pair)
    requires k <= |ms|
  {
    exists i :: 0 <= i < k && Applies(site, ms[i]) && KeyOf(ms[i]) == p
  }

  /** When the k-th grant comes, its user has more in a group above: by a grant listed earlier, or by a
      membership that none of those sets. */
  predicate Blocked(site: Site, direct: Direct, ms: seq<MemberSpec>, k: nat)
    requires k < |ms|
  {
    || (exists i :: 0 <= i < k && Applies(site, ms[i]) && Above(KeyOf(ms[i]), ms[k]) && ms[i].level > ms[k].level)
    || (exists p :: p in direct && Above(p, ms[k]) && !SetBefore(site, ms, k, p) && direct[p] > ms[k].level)
  }

  predicate Takes(site: Site, direct: Direct, ms: seq<MemberSpec>, k: nat)
    requires k < |ms|
  {
    Applies(site, ms[k]) && Differs(direct, ms[k]) ==> !(site.guarded && Blocked(site, direct, ms, k))
  }

  /** No grant that has something to write is refused. */
  predicate AllTake(site: Site, direct: Direct, ms: seq<MemberSpec>) {
    forall k :: 0 <= k < |ms| ==> Takes(site, direct, ms, k)
  }

  ghost predicate InForce(direct: Direct, m: MemberSpec) {
    KeyOf(m) in direct && direct[KeyOf(m)] == m.level
  }

  /** Before step k: the first k desired grants are in force, and nothing else has been touched. */
  ghost predicate AddInv(site: Site, direct: Direct, ms: seq<MemberSpec>, s: Members, k: nat) {
    && k <= |ms| && !s.raised
    && (forall i :: 0 <= i < k && Applies(site, ms[i]) ==> InForce(s.direct, ms[i]))
    && (forall p :: !SetBefore(site, ms, k, p) ==>
          (p in s.direct <==> p in direct) && (p in direct ==> s.direct[p] == direct[p]))
  }

  function Added(site: Site, direct: Direct, ms: seq<MemberSpec>, k: nat): Members
    requires k <= |ms|
  {
    Run(AddSteps(site), Members(direct, false), ms[..k]).state
  }

  lemma AddedOneMore(site: Site, direct: Direct, ms: seq<MemberSpec>, k: nat)
    requires k < |ms|
    ensures Added(site, direct, ms, k + 1) == AddStep(site, Added(site, direct, ms, k), ms[k]).state
  {
    RunOne(AddSteps(site), Members(direct, false), ms, k);
  }

  lemma FlooredIsBlocked(site: Site, direct: Direct, ms: seq<MemberSpec>, s: Members, k: nat)
    requires k < |ms| && AddInv(site, direct, ms, s, k)
    ensures Floored(s.direct, KeyOf(ms[k]), ms[k].level) <==> Blocked(site, direct, ms, k)
  {
    if i :| 0 <= i < k && Applies(site, ms[i]) && Above(KeyOf(ms[i]), ms[k]) && ms[i].level > ms[k].level {
      assert InForce(s.direct, ms[i]);
    }
    if p :| p in s.direct && Above(p, ms[k]) && s.direct[p] > ms[k].level {
      if SetBefore(site, ms, k, p) {
        var i :| 0 <= i < k && Applies(site, ms[i]) && KeyOf(ms[i]) == p;
        assert InForce(s.direct, ms[i]);
      }
    }
  }

  lemma NotSetBefore(site: Site, ms: seq<MemberSpec>, k: nat)
    requires UniquePairs(ms) && k < |ms|
    ensures !SetBefore(site, ms, k, KeyOf(ms[k]))
  {
  }

  lemma SetOneMore(site: Site, ms: seq<MemberSpec>, k: nat, p: Pair)
    requires k < |ms|
    ensures SetBefore(site, ms, k + 1, p) <==> SetBefore(site, ms, k, p) || (Applies(site, ms[k]) && KeyOf(ms[k]) == p)
  {
  }

  /** What a step does to the grant whose turn it is. */
  lemma AddStepAtItsTurn(site: Site, direct: Direct, ms: seq<MemberSpec>, s: Members, k: nat)
    requires UniquePairs(ms) && k < |ms| && AddInv(site, direct, ms, s, k)
    ensures var s' := AddStep(site, s, ms[k]).state;
      if Takes(site, direct, ms, k)
      then s' == (if Applies(site, ms[k]) then s.(direct := s.direct[KeyOf(ms[k]) := ms[k].level]) else s)
      else (s' == s && KeyOf(ms[k]) !in s.direct) || s'.raised
  {
    FlooredIsBlocked(site, direct, ms, s, k);
    NotSetBefore(site, ms, k);
    assert InForce(s.direct, ms[k]) ==> s.direct[KeyOf(ms[k]) := ms[k].level] == s.direct;
  }

  lemma TakenKeeps(site: Site, direct: Direct, ms: seq<MemberSpec>, s: Members, k: nat)
    requires UniquePairs(ms) && k < |ms| && AddInv(site, direct, ms, s, k) && Takes(site, direct, ms, k)
    ensures AddInv(site, direct, ms, AddStep(site, s, ms[k]).state, k + 1)
  {
    var s' := AddStep(site, s, ms[k]).state;
    AddStepAtItsTurn(site, direct, ms, s, k);
    forall i | 0 <= i < k && Applies(site, ms[i]) ensures InForce(s'.direct, ms[i]) {
      assert KeyOf(ms[i]) != KeyOf(ms[k]);
    }
    forall p ensures SetBefore(site, ms, k + 1, p)
        <==> SetBefore(site, ms, k, p) || (Applies(site, ms[k]) && KeyOf(ms[k]) == p) {
      SetOneMore(site, ms, k, p);
    }
  }

  lemma {:induction false} TakenSoFar(site: Site, direct: Direct, ms: seq<MemberSpec>, k: nat)
    requires UniquePairs(ms) && k <= |ms| && forall i :: 0 <= i < k ==> Takes(site, direct, ms, i)
    ensures AddInv(site, direct, ms, Added(site, direct, ms, k), k)
  {
    if k > 0 {
      TakenSoFar(site, direct, ms, k - 1);
      AddedOneMore(site, direct, ms, k - 1);
      TakenKeeps(site, direct, ms, Added(site, direct, ms, k - 1), k - 1);
    }
  }

  // ----- a grant that is refused

  /** A step for another pair leaves this one, unless it stops the program. */
  lemma OtherPairStays(site: Site, s: Members, m: MemberSpec, p: Pair)
    requires KeyOf(m) != p
    ensures var s' := AddStep(site, s, m).state;
      (s.raised ==> s'.raised) && (p in s'.direct <==> p in s.direct) && (p in s.direct ==> s'.direct[p] == s.direct[p])
  {
  }

  /** From its turn on, a pair is as its own step left it. */
  lemma {:induction false} PairStays(site: Site, direct: Direct, ms: seq<MemberSpec>, i: nat, n: nat)
    requires UniquePairs(ms) && i < n <= |ms|
    ensures var p, s, t := KeyOf(ms[i]), Added(site, direct, ms, i + 1), Added(site, direct, ms, n);
      (s.raised ==> t.raised) && (p in t.direct <==> p in s.direct) && (p in s.direct ==> t.direct[p] == s.direct[p])
    decreases n
  {
    if i + 1 < n {
      PairStays(site, direct, ms, i, n - 1);
      AddedOneMore(site, direct, ms, n - 1);
      OtherPairStays(site, Added(site, direct, ms, n - 1), ms[n - 1], KeyOf(ms[i]));
    }
  }

  lemma {:induction false} FirstRefused(site: Site, direct: Direct, ms: seq<MemberSpec>, n: nat) returns (k: nat)
    requires n < |ms| && !Takes(site, direct, ms, n)
    ensures k <= n && !Takes(site, direct, ms, k) && forall i :: 0 <= i < k ==> Takes(site, direct, ms, i)
  {
    if i: nat :| i < n && !Takes(site, direct, ms, i) {
      k := FirstRefused(site, direct, ms, i);
    } else {
      k := n;
    }
  }

  lemma TakenStays(site: Site, direct: Direct, ms: seq<MemberSpec>, i: nat)
    requires UniquePairs(ms) && i < |ms| && Applies(site, ms[i])
    requires forall j :: 0 <= j <= i ==> Takes(site, direct, ms, j)
    ensures InForce(Added(site, direct, ms, |ms|).direct, ms[i])
  {
    TakenSoFar(site, direct, ms, i + 1);
    PairStays(site, direct, ms, i, |ms|);
  }

  /** The first refused grant: it stops the program, or is missing at the end while all before it are in
      force. */
  lemma RefusedIsMissing(site: Site, direct: Direct, ms: seq<MemberSpec>, n: nat) returns (k: nat)
    requires UniquePairs(ms) && n < |ms| && !Takes(site, direct, ms, n)
    ensures k < |ms| && Applies(site, ms[k])
    ensures var t := Added(site, direct, ms, |ms|);
      t.raised || (KeyOf(ms[k]) !in t.direct && forall i :: 0 <= i < k && Applies(site, ms[i]) ==>
            InForce(t.direct, ms[i]))
  {
    k := FirstRefused(site, direct, ms, n);
    TakenSoFar(site, direct, ms, k);
    AddStepAtItsTurn(site, direct, ms, Added(site, direct, ms, k), k);
    AddedOneMore(site, direct, ms, k);
    PairStays(site, direct, ms, k, |ms|);
    forall i | 0 <= i < k && Applies(site, ms[i]) ensures InForce(Added(site, direct, ms, |ms|).direct, ms[i]) {
      TakenStays(site, direct, ms, i);
    }
  }

  /** It is written again, and counted again, by the next run. */
  lemma MissingIsCounted(site: Site, t: Members, ms: seq<MemberSpec>, k: nat)
    requires k < |ms| && !t.raised && Applies(site, ms[k]) && KeyOf(ms[k]) !in t.direct
    requires forall i :: 0 <= i < k && Applies(site, ms[i]) ==> InForce(t.direct, ms[i])
    ensures Run(AddSteps(site), t, ms).changes > 0
  {
    forall i | 0 <= i < k ensures Settled(AddSteps(site), t, ms[..k][i]) {
      assert ms[..k][i] == ms[i];
    }
    SettledRun(AddSteps(site), t, ms[..k]);
    RunOne(AddSteps(site), t, ms, k);
    RunGrows(AddSteps(site), t, ms, k + 1);
  }

  lemma {:induction false} OnlyDesiredAdded(site: Site, direct: Direct, ms: seq<MemberSpec>, k: nat)
    requires k <= |ms|
    ensures forall p :: p in Added(site, direct, ms, k).direct ==> p in direct || p in DesiredPairs(ms)
  {
    if k > 0 {
      OnlyDesiredAdded(site, direct, ms, k - 1);
      AddedOneMore(site, direct, ms, k - 1);
      assert KeyOf(ms[k - 1]) in DesiredPairs(ms);
    }
  }

  /** No step takes a membership away, or changes one that is not desired. */
  lemma {:induction false} NoneTaken(site: Site, direct: Direct, ms: seq<MemberSpec>, k: nat)
    requires k <= |ms|
    ensures forall p :: p in direct ==> p in Added(site, direct, ms, k).direct
    ensures forall p :: p in direct && p !in DesiredPairs(ms) ==> Added(site, direct, ms, k).direct[p] == direct[p]
  {
    if k > 0 {
      NoneTaken(site, direct, ms, k - 1);
      AddedOneMore(site, direct, ms, k - 1);
      assert KeyOf(ms[k - 1]) in DesiredPairs(ms);
    }
  }

  // ----- the theorems

  /** After a run the direct human non-root members of every managed group are exactly the desired
      pairs whose user exists, each at its level. */
  ghost predicate Exact(site: Site, managed: seq<Path>, ms: seq<MemberSpec>, direct: Direct) {
    && (forall p: Pair :: p.0 in managed && p.0 in site.groups && Prunable(site, p.1)
          ==> (p in direct <==> p in DesiredPairs(ms)))
    && (forall j :: 0 <= j < |ms| && Applies(site, ms[j]) ==>
          KeyOf(ms[j]) in direct && direct[KeyOf(ms[j])] == ms[j].level)
  }

  /** Root, bots, memberships without a user and groups that are not managed keep what they had,
      unless a desired pair names them. */
  ghost predicate Framed(site: Site, managed: seq<Path>, ms: seq<MemberSpec>, before: Direct, after: Direct) {
    forall p :: p !in DesiredPairs(ms) && !Goes(site, managed, ms, p)
      ==> (p in after <==> p in before) && (p in before ==> after[p] == before[p])
  }

  /** What the prune leaves. */
  function Left(site: Site, direct: Direct, managed: seq<Path>, ms: seq<MemberSpec>): Direct {
    Pruned(site, direct, managed, ms).state.direct
  }

  lemma SecondPrunesNothing(site: Site, direct: Direct, managed: seq<Path>, ms: seq<MemberSpec>)
    ensures var t := RunMembers(site, direct, managed, ms).state;
      && t == Added(site, Left(site, direct, managed, ms), ms, |ms|)
      && Pruned(site, t.direct, managed, ms) == Out(Members(t.direct, false), 0)
  {
    var d1 := Left(site, direct, managed, ms);
    PrunedExactly(site, direct, managed, ms);
    assert managed[..|managed|] == managed && ms[..|ms|] == ms;
    OnlyDesiredAdded(site, d1, ms, |ms|);
    PrunedSilent(site, Added(site, d1, ms, |ms|).direct, managed, ms);
  }

  /** With no grant refused, the members are exact, the others keep what they had, and a second run finds
      nothing to do. */
  lemma TakenConverges(site: Site, direct: Direct, managed: seq<Path>, ms: seq<MemberSpec>)
    requires UniquePairs(ms) && AllTake(site, Left(site, direct, managed, ms), ms)
    ensures var t := RunMembers(site, direct, managed, ms).state;
      && !t.raised && Exact(site, managed, ms, t.direct) && Framed(site, managed, ms, direct, t.direct)
      && RunMembers(site, t.direct, managed, ms) == Out(t, 0)
  {
    var d1 := Left(site, direct, managed, ms);
    PrunedExactly(site, direct, managed, ms);
    assert managed[..|managed|] == managed;
    SecondPrunesNothing(site, direct, managed, ms);
    TakenSoFar(site, d1, ms, |ms|);
    var t := Added(site, d1, ms, |ms|);
    forall i | 0 <= i < |ms| ensures Settled(AddSteps(site), t, ms[i]) {
    }
    SettledRun(AddSteps(site), t, ms);
    TakenIsExact(site, direct, managed, ms, t);
  }

  lemma TakenIsExact(site: Site, direct: Direct, managed: seq<Path>, ms: seq<MemberSpec>, t: Members)
    requires PruneInv(site, direct, managed, ms, Members(Left(site, direct, managed, ms), false), |managed|)
    requires AddInv(site, Left(site, direct, managed, ms), ms, t, |ms|)
    ensures Exact(site, managed, ms, t.direct) && Framed(site, managed, ms, direct, t.direct)
  {
    assert managed[..|managed|] == managed;
    forall p: Pair | p.0 in managed && p.0 in site.groups && Prunable(site, p.1)
      ensures p in t.direct <==> p in DesiredPairs(ms)
    {
      if p in DesiredPairs(ms) {
        var i :| 0 <= i < |ms| && KeyOf(ms[i]) == p;
        assert InForce(t.direct, ms[i]);
      } else {
        assert !SetBefore(site, ms, |ms|, p) && Goes(site, managed, ms, p);
      }
    }
    forall p | p !in DesiredPairs(ms) ensures !SetBefore(site, ms, |ms|, p) {
    }
  }

  /** On every instance, with pairs listed once: the run is not stopped and the members are exact if and
      only if no grant that has something to write comes, at its turn, below a higher one in a group above
      on an instance that refuses that; and exactly then a second run counts no change. */
  lemma MembersSettleExactly(site: Site, direct: Direct, managed: seq<Path>, ms: seq<MemberSpec>)
    requires UniquePairs(ms)
    ensures var t, take := RunMembers(site, direct, managed, ms).state,
        AllTake(site, Left(site, direct, managed, ms), ms);
      && (!t.raised && Exact(site, managed, ms, t.direct) <==> take)
      && (!t.raised && RunMembers(site, t.direct, managed, ms).changes == 0 <==> take)
  {
    var d1 := Left(site, direct, managed, ms);
    if AllTake(site, d1, ms) {
      TakenConverges(site, direct, managed, ms);
    } else {
      var n :| 0 <= n < |ms| && !Takes(site, d1, ms, n);
      var k := RefusedIsMissing(site, d1, ms, n);
      SecondPrunesNothing(site, direct, managed, ms);
      var t := Added(site, d1, ms, |ms|);
      if !t.raised {
        MissingIsCounted(site, t, ms, k);
      }
    }
  }

  /** For one user, a parent group's grant is listed before the child's and is not higher. */
  ghost predicate ParentGrantsFirst(ms: seq<MemberSpec>) {
    forall i, j :: 0 <= i < |ms| && 0 <= j < |ms| && ms[i].user == ms[j].user && ms[i].group < ms[j].group
      ==> i < j && ms[i].level <= ms[j].level
  }

  /** No membership that survives the prune outside the desired pairs floors a desired one. */
  ghost predicate NoSurvivorAbove(site: Site, direct: Direct, managed: seq<Path>, ms: seq<MemberSpec>) {
    forall p, j :: p in direct && !Goes(site, managed, ms, p) && p !in DesiredPairs(ms) && 0 <= j < |ms|
        && Above(p, ms[j])
      ==> direct[p] <= ms[j].level
  }

  lemma ParentsFirstTake(site: Site, direct: Direct, managed: seq<Path>, ms: seq<MemberSpec>)
    requires ParentGrantsFirst(ms) && NoSurvivorAbove(site, direct, managed, ms)
    requires forall p :: p in direct ==> p.0 in site.groups
    ensures AllTake(site, Left(site, direct, managed, ms), ms)
  {
    var d1 := Left(site, direct, managed, ms);
    PrunedExactly(site, direct, managed, ms);
    assert managed[..|managed|] == managed;
    forall k | 0 <= k < |ms| && Applies(site, ms[k]) ensures !Blocked(site, d1, ms, k) {
      forall p | p in d1 && Above(p, ms[k]) && !SetBefore(site, ms, k, p) ensures d1[p] <= ms[k].level {
        if p in DesiredPairs(ms) {
          var i :| 0 <= i < |ms| && KeyOf(ms[i]) == p;
          assert i < k && Applies(site, ms[i]);
        }
      }
    }
  }

  /** So it is when parent groups' grants are listed first and never fall towards the child. */
  lemma MembersExactAndConverge(site: Site, direct: Direct, managed: seq<Path>, ms: seq<MemberSpec>)
    requires UniquePairs(ms) && (site.guarded ==> ParentGrantsFirst(ms) && NoSurvivorAbove(site, direct, managed, ms))
    requires forall p :: p in direct ==> p.0 in site.groups
    ensures var t := RunMembers(site, direct, managed, ms).state;
      && !t.raised
      && Exact(site, managed, ms, t.direct)
      && Framed(site, managed, ms, direct, t.direct)
      && RunMembers(site, t.direct, managed, ms) == Out(t, 0)
  {
    if site.guarded {
      ParentsFirstTake(site, direct, managed, ms);
    }
    TakenConverges(site, direct, managed, ms);
  }

  /** Why the prune comes first: a stale owner grant on the parent makes a guarded instance refuse
      the lower grant on the subgroup; once it is pruned the same step applies. */
  lemma PruneFirstMatters(parent: Path, sub: string, user: string)
    requires user != "root" && parent != []
    ensures var m := MemberSpec(parent + [sub], user, 30);
      var site := Site({parent, m.group}, map[user := User(true, false)], true);
      var stale: Direct := map[(parent, user) := 50];
      && AddStep(site, Members(stale, false), m) == Out(Members(stale, false), 1)
      && RunMembers(site, stale, [parent, m.group], [m]).state == Members(map[KeyOf(m) := 30], false)
  {
    var m := MemberSpec(parent + [sub], user, 30);
    var site := Site({parent, m.group}, map[user := User(true, false)], true);
    var stale: Direct := map[(parent, user) := 50];
    assert parent < m.group && parent != m.group;
    assert Floored(stale, KeyOf(m), 30) by {
      assert (parent, user) in stale;
    }
    assert KeyOf(m) !in stale;
    var managed, ms := [parent, m.group], [m];
    assert DesiredPairs(ms) == {KeyOf(m)} by {
      assert ms[0] == m;
    }
    PrunedExactly(site, stale, managed, ms);
    assert managed[..2] == managed && managed[0] == parent;
    assert Goes(site, managed, ms, (parent, user));
    assert Pruned(site, stale, managed, ms).state == Members(map[], false);
    assert ms[..0] == [];
    assert Run(AddSteps(site), Members(map[], false), ms[..0]) == Out(Members(map[], false), 0);
  }
}
