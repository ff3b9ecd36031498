/** Which plays a change reaches (scripts/impacted_plays.py): the reverse worklist over role
    references, and the set of playbooks to dry-run. */
module RoleClosure {
  import opened Digraph
  import FactSearch

  /** `uses` maps each role directory to the names its files reference. */
  ghost predicate ReverseOf(uses: Edges, reverse: Edges) {
    forall p, r :: p in Succ(reverse, r) <==> r in Succ(uses, p)
  }

  method BuildReverse(uses: Edges) returns (reverse: Edges)
    ensures ReverseOf(uses, reverse)
  {
    reverse := map[];
    var dirs := uses.Keys;
    while dirs != {}
      invariant dirs <= uses.Keys
      invariant forall p, r :: p in Succ(reverse, r) <==> p !in dirs && r in Succ(uses, p)
    {
      var dir :| dir in dirs;
      reverse := AddUses(reverse, dir, uses[dir]);
      dirs := dirs - {dir};
    }
  }

  /** One role's references: it is a user of each. */
  method AddUses(reverse0: Edges, dir: Name, refs: set<Name>) returns (reverse: Edges)
    ensures forall p, r :: p in Succ(reverse, r) <==> p in Succ(reverse0, r) || (p == dir && r in refs)
  {
    reverse := reverse0;
    var todo := refs;
    while todo != {}
      invariant todo <= refs
      invariant forall p, r :: p in Succ(reverse, r) <==>
            p in Succ(reverse0, r) || (p == dir && r in refs && r !in todo)
    {
      ghost var before := reverse;
      var r :| r in todo;
      reverse := reverse[r := Succ(reverse, r) + {dir}];
      todo := todo - {r};
      assert forall q :: Succ(reverse, q) == if q == r then Succ(before, r) + {dir} else Succ(before, q);
    }
  }

  /** Every role that references a member is a member. */
  ghost predicate ClosedUnderUse(uses: Edges, s: set<Name>) {
    forall p, r :: r in s && r in Succ(uses, p) ==> p in s
  }

  /** r pulls in some seed role, directly or through other roles. */
  ghost predicate PullsIn(uses: Edges, r: Name, seed: set<Name>) {
    exists x :: x in seed && Reaches(uses, r, x)
  }

  ghost predicate IsImpact(uses: Edges, seed: set<Name>, s: set<Name>) {
    forall r :: r in s <==> PullsIn(uses, r, seed)
  }

  ghost predicate IsLeastClosed(uses: Edges, seed: set<Name>, s: set<Name>) {
    && seed <= s && ClosedUnderUse(uses, s)
    && forall t: set<Name> :: seed <= t && ClosedUnderUse(uses, t) ==> s <= t
  }

  /** The names list each member of s once, and nothing else. */
  ghost predicate ExactlyOnce(names: seq<Name>, s: set<Name>) {
    && (forall i, j :: 0 <= i < j < |names| ==> names[i] != names[j])
    && (forall n :: n in names <==> n in s)
  }

  lemma PullsInVia(uses: Edges, p: Name, r: Name, seed: set<Name>)
    requires r in Succ(uses, p) && PullsIn(uses, r, seed)
    ensures PullsIn(uses, p, seed)
  {
    var x :| x in seed && Reaches(uses, r, x);
    ReachesVia(uses, p, r, x);
  }

  lemma SeedPullsIn(uses: Edges, r: Name, seed: set<Name>)
    requires r in seed
    ensures PullsIn(uses, r, seed)
  {
    ReachesSelf(uses, r);
  }

  lemma {:induction false} PathPullsIn(uses: Edges, t: set<Name>, p: seq<Name>)
    requires ClosedUnderUse(uses, t) && IsPath(uses, p) && p[|p| - 1] in t
    ensures p[0] in t
    decreases |p|
  {
    if |p| > 1 {
      PathPullsIn(uses, t, p[1..]);
      assert p[1] in Succ(uses, p[0]);
    }
  }

  lemma ClosedHoldsImpact(uses: Edges, seed: set<Name>, t: set<Name>, r: Name)
    requires seed <= t && ClosedUnderUse(uses, t) && PullsIn(uses, r, seed)
    ensures r in t
  {
    var x :| x in seed && Reaches(uses, r, x);
    var p :| IsPathFromTo(uses, p, r, x);
    PathPullsIn(uses, t, p);
  }

  /** The transitive impact is the least superset of the seed closed under "is referenced by". */
  lemma ImpactIsLeastClosed(uses: Edges, seed: set<Name>, s: set<Name>)
    ensures IsImpact(uses, seed, s) <==> IsLeastClosed(uses, seed, s)
  {
    if IsImpact(uses, seed, s) {
      forall r | r in seed ensures r in s {
        SeedPullsIn(uses, r, seed);
      }
      forall p, r | r in s && r in Succ(uses, p) ensures p in s {
        PullsInVia(uses, p, r, seed);
      }
      forall t: set<Name>, r | seed <= t && ClosedUnderUse(uses, t) && r in s ensures r in t {
        ClosedHoldsImpact(uses, seed, t, r);
      }
    }
    if IsLeastClosed(uses, seed, s) {
      var t := set r | r in s && PullsIn(uses, r, seed);
      assert seed <= t by {
        forall r | r in seed ensures r in t {
          SeedPullsIn(uses, r, seed);
        }
      }
      assert ClosedUnderUse(uses, t) by {
        forall p, r | r in t && r in Succ(uses, p) ensures p in t {
          PullsInVia(uses, p, r, seed);
        }
      }
      forall r | PullsIn(uses, r, seed) ensures r in s {
        ClosedHoldsImpact(uses, seed, s, r);
      }
    }
  }

  /** The parents of one expanded role: those not yet reached join the closure and the next round. */
  method AddParents(parents: set<Name>, closure0: set<Name>, nxt0: set<Name>)
    returns (closure: set<Name>, nxt: set<Name>)
    ensures closure == closure0 + parents
    ensures nxt == nxt0 + (parents - closure0)
  {
    closure, nxt := closure0, nxt0;
    var todo := parents;
    while todo != {}
      invariant todo <= parents
      invariant closure == closure0 + (parents - todo)
      invariant nxt == nxt0 + (parents - todo - closure0)
      decreases todo
    {
      var parent :| parent in todo;
      if parent !in closure {
        closure := closure + {parent};
        nxt := nxt + {parent};
      }
      todo := todo - {parent};
    }
  }

  /** Everything that references a member of s. */
  ghost function Users(reverse: Edges, s: set<Name>): set<Name> {
    set r, p | r in s && p in Succ(reverse, r) :: p
  }

  /** One round: every role of the frontier is expanded. */
  method Round(reverse: Edges, frontier: set<Name>, closure0: set<Name>, ghost expanded0: seq<Name>)
    returns (closure: set<Name>, nxt: set<Name>, ghost expanded: seq<Name>)
    requires frontier <= closure0 && ExactlyOnce(expanded0, closure0 - frontier)
    ensures closure == closure0 + Users(reverse, frontier)
    ensures closure0 <= closure && nxt == closure - closure0
    ensures ExactlyOnce(expanded, closure0)
  {
    closure, nxt, expanded := closure0, {}, expanded0;
    var todo := frontier;
    while todo != {}
      invariant todo <= frontier
      invariant closure == closure0 + Users(reverse, frontier - todo)
      invariant nxt == closure - closure0
      invariant ExactlyOnce(expanded, closure0 - todo)
      decreases todo
    {
      var r :| r in todo;
      closure, nxt := AddParents(Succ(reverse, r), closure, nxt);
      assert r !in closure0 - todo;
      expanded := expanded + [r];
      todo := todo - {r};
    }
    assert frontier - todo == frontier;
  }

  /** Between rounds: everything reached pulls in the seed, and all users of what left the
      frontier are reached. */
  ghost predicate Progress(uses: Edges, seed: set<Name>, closure: set<Name>, frontier: set<Name>) {
    && seed <= closure <= seed + uses.Keys && frontier <= closure
    && (forall r :: r in closure ==> PullsIn(uses, r, seed))
    && (forall p, r :: r in closure && r !in frontier && r in Succ(uses, p) ==> p in closure)
  }

  lemma RoundKeepsProgress(uses: Edges, reverse: Edges, seed: set<Name>, closure: set<Name>, frontier: set<Name>,
                           closure': set<Name>, frontier': set<Name>)
    requires ReverseOf(uses, reverse) && Progress(uses, seed, closure, frontier)
    requires closure' == closure + Users(reverse, frontier)
    requires frontier' == closure' - closure
    ensures Progress(uses, seed, closure', frontier')
  {
    forall p | p in closure' && p !in closure ensures PullsIn(uses, p, seed) && p in uses {
      var r :| r in frontier && p in Succ(reverse, r);
      PullsInVia(uses, p, r, seed);
    }
    forall p, r | r in closure' && r !in frontier' && r in Succ(uses, p) ensures p in closure' {
      if r in frontier {
        assert p in Succ(reverse, r);
      }
    }
  }

  lemma SeedProgress(uses: Edges, seed: set<Name>)
    ensures Progress(uses, seed, seed, seed)
  {
    forall r | r in seed ensures PullsIn(uses, r, seed) {
      SeedPullsIn(uses, r, seed);
    }
  }

  lemma ProgressDone(uses: Edges, seed: set<Name>, closure: set<Name>)
    requires Progress(uses, seed, closure, {})
    ensures IsImpact(uses, seed, closure)
  {
    forall r | PullsIn(uses, r, seed) ensures r in closure {
      ClosedHoldsImpact(uses, seed, closure, r);
    }
  }

  /** A round reaches more of what can be reached, or leaves nothing to expand. */
  lemma MeasureFalls(all: set<Name>, before: set<Name>, after: set<Name>, frontier: set<Name>)
    requires before <= after <= all && frontier != {}
    ensures all - after < all - before || (all - after == all - before && after - before < frontier)
  {
    if x :| x in after && x !in before {
      assert x in all - before && x !in all - after;
    } else {
      assert after == before;
    }
  }

  lemma AllButNew(before: set<Name>, after: set<Name>)
    requires before <= after
    ensures after - (after - before) == before
  {
  }

  /** The worklist: terminates, expands each reached name exactly once, and finds the impact. */
  method Closure(uses: Edges, seed: set<Name>) returns (closure: set<Name>, ghost expanded: seq<Name>)
    ensures IsImpact(uses, seed, closure)
    ensures ExactlyOnce(expanded, closure)
  {
    var reverse := BuildReverse(uses);
    closure := seed;
    var frontier := seed;
    expanded := [];
    SeedProgress(uses, seed);
    while frontier != {}
      invariant Progress(uses, seed, closure, frontier)
      invariant ExactlyOnce(expanded, closure - frontier)
      decreases seed + uses.Keys - closure, frontier
    {
      ghost var before := closure;
      ghost var old_ := frontier;
      closure, frontier, expanded := Round(reverse, frontier, closure, expanded);
      RoundKeepsProgress(uses, reverse, seed, before, old_, closure, frontier);
      AllButNew(before, closure);
      MeasureFalls(seed + uses.Keys, before, closure, old_);
    }
    ProgressDone(uses, seed, closure);
  }

  /** Reaching from two changes is reaching from each: impact distributes over union. */
  lemma ImpactOfUnion(uses: Edges, a: set<Name>, b: set<Name>, ia: set<Name>, ib: set<Name>)
    requires IsImpact(uses, a, ia) && IsImpact(uses, b, ib)
    ensures IsImpact(uses, a + b, ia + ib)
  {
  }

  // ----- backward and forward agree

  /** All references of each role, as the worklist reads them. */
  ghost function RawUses(c: FactSearch.Catalogue): Edges {
    map r | r in c :: set x | x in c[r].refs
  }

  ghost function Readers(c: FactSearch.Catalogue): set<Name> {
    set d | d in c && FactSearch.Direct(c, d)
  }

  lemma {:induction false} ForwardPath(c: FactSearch.Catalogue, p: seq<Name>)
    requires IsPath(RawUses(c), p) && p[|p| - 1] in c
    ensures Reaches(FactSearch.Uses(c), p[0], p[|p| - 1])
    decreases |p|
  {
    var e := FactSearch.Uses(c);
    if |p| == 1 {
      ReachesSelf(e, p[0]);
    } else {
      ForwardPath(c, p[1..]);
      assert p[1] in Succ(RawUses(c), p[0]);
      assert p[1] in c by {
        if |p| > 2 {
          assert p[2] in Succ(RawUses(c), p[1]);
        }
      }
      if p[1] != p[0] {
        FactSearch.KeptMembers(c, p[0], c[p[0]].refs);
        ReachesVia(e, p[0], p[1], p[|p| - 1]);
      }
    }
  }

  lemma BackwardPath(c: FactSearch.Catalogue, r: Name, d: Name)
    requires Reaches(FactSearch.Uses(c), r, d)
    ensures Reaches(RawUses(c), r, d)
  {
    var p :| IsPathFromTo(FactSearch.Uses(c), p, r, d);
    forall i | 0 <= i < |p| - 1 ensures p[i + 1] in Succ(RawUses(c), p[i]) {
      assert p[i + 1] in Succ(FactSearch.Uses(c), p[i]);
      FactSearch.KeptMembers(c, p[i], c[p[i]].refs);
    }
    assert IsPathFromTo(RawUses(c), p, r, d);
  }

  /** Over one reference relation, the backward worklist seeded with the fact readers and the
      forward memoised search name the same roles. */
  lemma BackwardMeetsForward(c: FactSearch.Catalogue, closure: set<Name>, r: Name)
    requires IsImpact(RawUses(c), Readers(c), closure)
    ensures r in closure <==> FactSearch.Search(c, map[], r, {}).needs
  {
    FactSearch.FreshQueryExact(c, r);
    if r in closure {
      var d :| d in Readers(c) && Reaches(RawUses(c), r, d);
      var p :| IsPathFromTo(RawUses(c), p, r, d);
      ForwardPath(c, p);
    }
    if FactSearch.Needs(c, r) {
      var d :| FactSearch.Direct(c, d) && Reaches(FactSearch.Uses(c), r, d);
      BackwardPath(c, r, d);
      assert d in Readers(c);
    }
  }

  // ----- the plays to dry-run

  /** A repository path, split at its slashes. */
  type Path = seq<string>

  /** A file under roles/<name>/… changes that role. */
  function SeedRoles(files: set<Path>): set<Name> {
    set f | f in files && |f| > 2 && f[0] == "roles" :: f[1]
  }

  predicate Contains(s: string, sub: string) {
    exists i :: 0 <= i <= |s| && sub <= s[i..]
  }

  predicate Archived(pb: Path) {
    exists i :: 0 <= i < |pb| && Contains(pb[i], "_archive")
  }

  predicate EndsWith(s: string, suffix: string) {
    |s| >= |suffix| && s[|s| - |suffix|..] == suffix
  }

  predicate IsPlaybook(f: Path) {
    |f| > 1 && f[0] == "playbooks" && (EndsWith(f[|f| - 1], ".yml") || EndsWith(f[|f| - 1], ".yaml"))
  }

  /** Some component has `_archive` in it. */
  ghost predicate LiesInArchive(pb: Path) {
    exists i, a, b :: 0 <= i < |pb| && pb[i] == a + "_archive" + b
  }

  lemma ArchivedExactly(pb: Path)
    ensures Archived(pb) <==> LiesInArchive(pb)
  {
    if i :| 0 <= i < |pb| && Contains(pb[i], "_archive") {
      var s := pb[i];
      var k :| 0 <= k <= |s| && "_archive" <= s[k..];
      assert s == s[..k] + "_archive" + s[k..][|"_archive"|..];
    }
    if i, a, b :| 0 <= i < |pb| && pb[i] == a + "_archive" + b {
      assert pb[i][|a|..] == "_archive" + b;
      assert Contains(pb[i], "_archive");
    }
  }

  /** A changed file that is a playbook: below `playbooks`, with one of the two endings. */
  ghost predicate PlaybookChanged(files: set<Path>, pb: Path) {
    && pb in files && |pb| > 1 && pb[0] == "playbooks"
    && exists a :: pb[|pb| - 1] == a + ".yml" || pb[|pb| - 1] == a + ".yaml"
  }

  lemma EndsExactly(s: string, suffix: string)
    ensures EndsWith(s, suffix) <==> exists a :: s == a + suffix
  {
    if EndsWith(s, suffix) {
      assert s == s[..|s| - |suffix|] + suffix;
    }
  }

  lemma PlaybookExactly(files: set<Path>, pb: Path)
    ensures pb in files && IsPlaybook(pb) <==> PlaybookChanged(files, pb)
  {
    if |pb| > 1 {
      EndsExactly(pb[|pb| - 1], ".yml");
      EndsExactly(pb[|pb| - 1], ".yaml");
    }
  }

  /** A changed file lies below roles/<name>. */
  ghost predicate RoleChanged(files: set<Path>, name: Name) {
    exists f :: f in files && |f| > 2 && f[0] == "roles" && f[1] == name
  }

  /** What the report promises: the playbook changed, or it names a role that pulls in a changed one. */
  ghost predicate MustDryRun(files: set<Path>, uses: Edges, pb: Path, named: set<Name>) {
    && !LiesInArchive(pb)
    && (PlaybookChanged(files, pb) || exists r, x :: r in named && RoleChanged(files, x) && Reaches(uses, r, x))
  }

  /** The same, as the program puts it. */
  lemma DryRunExactly(files: set<Path>, uses: Edges, pb: Path, named: set<Name>, roles: set<Name>)
    requires IsImpact(uses, SeedRoles(files), roles)
    ensures MustDryRun(files, uses, pb, named)
            <==> !Archived(pb) && ((pb in files && IsPlaybook(pb)) || named * roles != {})
  {
    ArchivedExactly(pb);
    PlaybookExactly(files, pb);
    forall x ensures x in SeedRoles(files) <==> RoleChanged(files, x) {
      if f :| f in files && |f| > 2 && f[0] == "roles" && f[1] == x {
        assert f[1] in SeedRoles(files);
      }
    }
    if r, x :| r in named && RoleChanged(files, x) && Reaches(uses, r, x) {
      assert r in named * roles;
    }
    if named * roles != {} {
      var r :| r in named * roles;
      var x :| x in SeedRoles(files) && Reaches(uses, r, x);
    }
  }

  /** `playbooks` maps every playbook file to the roles it names. */
  method ImpactedPlays(files: set<Path>, playbooks: map<Path, set<Name>>, uses: Edges) returns (impacted: set<Path>)
    ensures forall pb :: pb in impacted <==> pb in playbooks && MustDryRun(files, uses, pb, playbooks[pb])
  {
    var roles, _ := Closure(uses, SeedRoles(files));
    var changedPlaybooks := set f | f in files && IsPlaybook(f);
    impacted := {};
    var todo := playbooks.Keys;
    while todo != {}
      invariant todo <= playbooks.Keys
      invariant forall pb :: pb in impacted <==>
                  pb in playbooks && pb !in todo && MustDryRun(files, uses, pb, playbooks[pb])
      decreases todo
    {
      var pb :| pb in todo;
      todo := todo - {pb};
      DryRunExactly(files, uses, pb, playbooks[pb], roles);
      if Archived(pb) {
        continue;
      }
      if pb in changedPlaybooks {
        impacted := impacted + {pb};
        continue;
      }
      var hit := playbooks[pb] * roles;
      if hit != {} {
        impacted := impacted + {pb};
      }
    }
  }
}
