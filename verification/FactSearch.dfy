/** The search for roles that read facts without gathering them
    (scripts/check_service_contract.py), and the memo it shares across services. */
module FactSearch {
  import opened Digraph

  /** What the role's files say: it reads a fact, it runs the setup module, the roles it names. */
  datatype Role = Role(readsFacts: bool, gathers: bool, refs: seq<Name>)

  /** The directories under roles/. */
  type Catalogue = map<Name, Role>

  type Cache = map<Name, bool>

  datatype Found = Found(needs: bool, cache: Cache)

  predicate Direct(c: Catalogue, r: Name) {
    r in c && c[r].readsFacts && !c[r].gathers
  }

  /** The references the search follows: not itself, and only roles that exist. */
  function Kept(c: Catalogue, r: Name, refs: seq<Name>): seq<Name> {
    if refs == [] then []
    else if refs[0] != r && refs[0] in c then [refs[0]] + Kept(c, r, refs[1..])
    else Kept(c, r, refs[1..])
  }

  function Refs(c: Catalogue, r: Name): seq<Name> {
    if r in c then Kept(c, r, c[r].refs) else []
  }

  /** What the search follows: the references to other roles that exist. */
  ghost function Uses(c: Catalogue): Edges {
    map r | r in c :: set x | x in c[r].refs && x != r && x in c
  }

  /** The question the search answers: some role reached from r reads facts it does not gather. */
  ghost predicate Needs(c: Catalogue, r: Name) {
    exists d :: Direct(c, d) && Reaches(Uses(c), r, d)
  }

  /** One query: the memo first, then the role itself, then its references left to right, with
      the roles of the current path cut off. */
  function Search(c: Catalogue, cache: Cache, r: Name, seen: set<Name>): Found
    decreases c.Keys - seen, 0
  {
    if r in cache then Found(cache[r], cache)
    else if r in seen then Found(false, cache)
    else if r !in c then Found(false, cache[r := false])
    else
      var f := if Direct(c, r) then Found(true, cache) else SearchAny(c, cache, Refs(c, r), seen + {r});
      Found(f.needs, f.cache[r := f.needs])
  }

  /** `any` over the references: it stops at the first one that needs facts. */
  function SearchAny(c: Catalogue, cache: Cache, refs: seq<Name>, seen: set<Name>): Found
    decreases c.Keys - seen, |refs|
  {
    if refs == [] then Found(false, cache)
    else
      var f := Search(c, cache, refs[0], seen);
      if f.needs then f else SearchAny(c, f.cache, refs[1..], seen)
  }

  /** A history of queries on one memo. */
  function History(c: Catalogue, cache: Cache, queries: seq<Name>): (h: (seq<bool>, Cache))
    ensures |h.0| == |queries|
    decreases |queries|
  {
    if queries == [] then ([], cache)
    else
      var f := Search(c, cache, queries[0], {});
      var rest := History(c, f.cache, queries[1..]);
      ([f.needs] + rest.0, rest.1)
  }

  // ----- what one query does to the memo

  ghost predicate Grows(old_: Cache, new_: Cache, seen: set<Name>) {
    && (forall x :: x in old_ ==> x in new_ && new_[x] == old_[x])
    && (forall x :: x in new_ && x !in old_ ==> x !in seen)
  }

  /** Every cached True is justified. */
  ghost predicate TrueSound(c: Catalogue, k: Cache) {
    forall x :: x in k && k[x] ==> Needs(c, x)
  }

  /** A role answered False: it is not a reader, and its references were answered False or cut. */
  ghost predicate Settled(c: Catalogue, k: Cache, x: Name, seen: set<Name>) {
    && !Direct(c, x)
    && forall y :: y in Refs(c, x) ==> AnsweredFalse(k, y) || y in seen
  }

  ghost predicate AnsweredFalse(k: Cache, x: Name) {
    x in k && !k[x]
  }

  /** The False part of the memo is closed under references and holds no reader. */
  ghost predicate FalseClosed(c: Catalogue, k: Cache) {
    forall x :: AnsweredFalse(k, x) ==> Settled(c, k, x, {})
  }

  /** Every False cached since `old_` is settled, up to the path `seen`. */
  ghost predicate NewSettled(c: Catalogue, old_: Cache, new_: Cache, seen: set<Name>) {
    forall x :: x in new_ && x !in old_ ==> AnsweredFalse(new_, x) && Settled(c, new_, x, seen)
  }

  lemma KeptMembers(c: Catalogue, r: Name, refs: seq<Name>)
    ensures forall x :: x in Kept(c, r, refs) <==> x in refs && x != r && x in c
  {
  }

  lemma RefsExactly(c: Catalogue, r: Name)
    ensures forall x :: x in Refs(c, r) <==> x in Succ(Uses(c), r)
  {
    if r in c {
      KeptMembers(c, r, c[r].refs);
    }
  }

  lemma NeedsVia(c: Catalogue, r: Name, x: Name)
    requires x in Refs(c, r) && Needs(c, x)
    ensures Needs(c, r)
  {
    var d :| Direct(c, d) && Reaches(Uses(c), x, d);
    RefsExactly(c, r);
    ReachesVia(Uses(c), r, x, d);
  }

  lemma {:induction false} SearchGrows(c: Catalogue, k: Cache, r: Name, seen: set<Name>)
    ensures Grows(k, Search(c, k, r, seen).cache, seen)
    decreases c.Keys - seen, 0
  {
    if r !in k && r !in seen && r in c && !Direct(c, r) {
      SearchAnyGrows(c, k, Refs(c, r), seen + {r});
    }
  }

  lemma {:induction false} SearchAnyGrows(c: Catalogue, k: Cache, refs: seq<Name>, seen: set<Name>)
    ensures Grows(k, SearchAny(c, k, refs, seen).cache, seen)
    decreases c.Keys - seen, |refs|
  {
    if refs != [] {
      SearchGrows(c, k, refs[0], seen);
      SearchAnyGrows(c, Search(c, k, refs[0], seen).cache, refs[1..], seen);
    }
  }

  /** On any graph, whatever is cut: a True, answered or cached, is right. */
  lemma {:induction false} SearchTrueSound(c: Catalogue, k: Cache, r: Name, seen: set<Name>)
    requires TrueSound(c, k)
    ensures TrueSound(c, Search(c, k, r, seen).cache)
    ensures Search(c, k, r, seen).needs ==> Needs(c, r)
    decreases c.Keys - seen, 0
  {
    if r !in k && r !in seen && r in c {
      if Direct(c, r) {
        ReachesSelf(Uses(c), r);
      } else {
        SearchAnyTrueSound(c, k, r, Refs(c, r), seen + {r});
      }
    }
  }

  lemma {:induction false} SearchAnyTrueSound(c: Catalogue, k: Cache, r: Name, refs: seq<Name>, seen: set<Name>)
    requires TrueSound(c, k) && forall x :: x in refs ==> x in Refs(c, r)
    ensures TrueSound(c, SearchAny(c, k, refs, seen).cache)
    ensures SearchAny(c, k, refs, seen).needs ==> Needs(c, r)
    decreases c.Keys - seen, |refs|
  {
    if refs != [] {
      var f := Search(c, k, refs[0], seen);
      SearchTrueSound(c, k, refs[0], seen);
      if f.needs {
        NeedsVia(c, r, refs[0]);
      } else {
        SearchAnyTrueSound(c, f.cache, r, refs[1..], seen);
      }
    }
  }

  /** A query answered False visited everything: what it cached is closed, up to its own path. */
  lemma {:induction false} SearchFalseSettles(c: Catalogue, k: Cache, r: Name, seen: set<Name>)
    requires !Search(c, k, r, seen).needs
    ensures var k' := Search(c, k, r, seen).cache;
      NewSettled(c, k, k', seen) && (AnsweredFalse(k', r) || r in seen)
    decreases c.Keys - seen, 0
  {
    if r !in k && r !in seen && r in c {
      var k1 := SearchAny(c, k, Refs(c, r), seen + {r}).cache;
      SearchAnyFalseSettles(c, k, Refs(c, r), seen + {r});
      SearchAnyGrows(c, k, Refs(c, r), seen + {r});
      assert Search(c, k, r, seen).cache == k1[r := false];
    }
  }

  lemma {:induction false} SearchAnyFalseSettles(c: Catalogue, k: Cache, refs: seq<Name>, seen: set<Name>)
    requires !SearchAny(c, k, refs, seen).needs
    ensures var k' := SearchAny(c, k, refs, seen).cache;
      NewSettled(c, k, k', seen) && forall y :: y in refs ==> AnsweredFalse(k', y) || y in seen
    decreases c.Keys - seen, |refs|
  {
    if refs != [] {
      var k1 := Search(c, k, refs[0], seen).cache;
      SearchFalseSettles(c, k, refs[0], seen);
      SearchAnyFalseSettles(c, k1, refs[1..], seen);
      SearchAnyGrows(c, k1, refs[1..], seen);
    }
  }

  /** A role whose references end in a closed False region reaches no reader. */
  lemma FalseIsRight(c: Catalogue, k: Cache, r: Name)
    requires FalseClosed(c, k) && AnsweredFalse(k, r)
    ensures !Needs(c, r)
  {
    var s := set x | x in k && !k[x];
    assert Closed(Uses(c), s) by {
      forall n | n in s ensures Succ(Uses(c), n) <= s {
        RefsExactly(c, n);
        assert Settled(c, k, n, {});
      }
    }
    forall d | Reaches(Uses(c), r, d) ensures !Direct(c, d) {
      ClosedReach(Uses(c), s, r, d);
      assert Settled(c, k, d, {});
    }
  }

  // ----- the theorems

  /** A query is exact whenever the False part of the memo is closed; in particular from an empty
      memo, on every graph, cycles included. A False answer leaves the memo closed. */
  lemma QueryExact(c: Catalogue, k: Cache, r: Name)
    requires TrueSound(c, k) && FalseClosed(c, k)
    ensures Search(c, k, r, {}).needs <==> Needs(c, r)
    ensures !Search(c, k, r, {}).needs ==> FalseClosed(c, Search(c, k, r, {}).cache)
  {
    var f := Search(c, k, r, {});
    SearchTrueSound(c, k, r, {});
    if !f.needs {
      SearchFalseSettles(c, k, r, {});
      SearchGrows(c, k, r, {});
      assert FalseClosed(c, f.cache) by {
        forall x | AnsweredFalse(f.cache, x) ensures Settled(c, f.cache, x, {}) {
          if x in k {
            assert Settled(c, k, x, {});
          }
        }
      }
      FalseIsRight(c, f.cache, r);
    }
  }

  lemma FreshQueryExact(c: Catalogue, r: Name)
    ensures Search(c, map[], r, {}).needs <==> Needs(c, r)
  {
    QueryExact(c, map[], r);
  }

  /** Cached answers of roles that meet no cycle are exact. */
  ghost predicate ExactOffCycles(c: Catalogue, k: Cache) {
    TrueSound(c, k) && forall x :: AnsweredFalse(k, x) && CycleFree(Uses(c), x) ==> !Needs(c, x)
  }

  /** The roles on the current path all lead to r. */
  ghost predicate LeadTo(c: Catalogue, seen: set<Name>, r: Name) {
    forall s :: s in seen ==> s != r ==> exists n :: n in Succ(Uses(c), s) && Reaches(Uses(c), n, r)
  }

  lemma LeadOn(c: Catalogue, seen: set<Name>, r: Name, x: Name)
    requires LeadTo(c, seen, r) && x in Succ(Uses(c), r)
    ensures LeadTo(c, seen + {r}, x)
    ensures CycleFree(Uses(c), r) ==> x !in seen + {r}
  {
    var e := Uses(c);
    ReachesSelf(e, x);
    ReachesVia(e, r, x, x);
    ReachesSelf(e, r);
    forall s | s in seen + {r} ensures exists n :: n in Succ(e, s) && Reaches(e, n, x) {
      if s == r {
        assert x in Succ(e, s) && Reaches(e, x, x);
      } else {
        var n :| n in Succ(e, s) && Reaches(e, n, r);
        ReachesTransitive(e, n, r, x);
      }
    }
    if x in seen + {r} {
      var n :| n in Succ(e, x) && Reaches(e, n, r);
      ReachesVia(e, x, n, r);
      assert OnCycle(e, r);
    }
  }

  lemma {:induction false} SearchOffCycles(c: Catalogue, k: Cache, r: Name, seen: set<Name>)
    requires ExactOffCycles(c, k) && LeadTo(c, seen, r)
    ensures ExactOffCycles(c, Search(c, k, r, seen).cache)
    ensures !Search(c, k, r, seen).needs && CycleFree(Uses(c), r) && r !in seen ==> !Needs(c, r)
    decreases c.Keys - seen, 0
  {
    SearchTrueSound(c, k, r, seen);
    if r !in k && r !in seen {
      if r !in c {
        assert !Needs(c, r) by {
          forall d | Direct(c, d) && Reaches(Uses(c), r, d) ensures false {
            var _ := FirstStep(Uses(c), r, d);
          }
        }
      } else if !Direct(c, r) {
        RefsExactly(c, r);
        SearchAnyOffCycles(c, k, r, Refs(c, r), seen);
        if !Search(c, k, r, seen).needs && CycleFree(Uses(c), r) {
          forall d | Direct(c, d) && Reaches(Uses(c), r, d) ensures false {
            var x := FirstStep(Uses(c), r, d);
            assert x in Refs(c, r) && Needs(c, x);
          }
        }
      }
    }
  }

  lemma {:induction false} SearchAnyOffCycles(c: Catalogue, k: Cache, r: Name, refs: seq<Name>, seen: set<Name>)
    requires ExactOffCycles(c, k) && LeadTo(c, seen, r)
    requires forall x :: x in refs ==> x in Succ(Uses(c), r)
    ensures ExactOffCycles(c, SearchAny(c, k, refs, seen + {r}).cache)
    ensures !SearchAny(c, k, refs, seen + {r}).needs && CycleFree(Uses(c), r)
      ==> forall x :: x in refs ==> !Needs(c, x)
    decreases c.Keys - (seen + {r}), |refs|
  {
    if refs != [] {
      var f := Search(c, k, refs[0], seen + {r});
      LeadOn(c, seen, r, refs[0]);
      SearchOffCycles(c, k, refs[0], seen + {r});
      if !f.needs {
        SearchAnyOffCycles(c, f.cache, r, refs[1..], seen);
        if CycleFree(Uses(c), r) {
          CycleFreeSucc(Uses(c), r, refs[0]);
        }
      }
    }
  }

  lemma HistoryFirst(c: Catalogue, k: Cache, queries: seq<Name>, i: nat)
    requires i < |queries|
    ensures var f := Search(c, k, queries[0], {});
      var rest := History(c, f.cache, queries[1..]);
      && History(c, k, queries).1 == rest.1
      && History(c, k, queries).0[i] == if i == 0 then f.needs else rest.0[i - 1]
  {
  }

  ghost predicate RightOffCycles(c: Catalogue, r: Name, needs: bool) {
    (needs ==> Needs(c, r)) && (CycleFree(Uses(c), r) ==> (needs <==> Needs(c, r)))
  }

  /** Any history, any graph: a True answer is right, and the answer about a role that meets no
      cycle is exact. */
  lemma {:induction false} HistoryOffCycles(c: Catalogue, k: Cache, queries: seq<Name>)
    requires ExactOffCycles(c, k)
    ensures var h := History(c, k, queries);
      && ExactOffCycles(c, h.1)
      && forall i :: 0 <= i < |queries| ==> RightOffCycles(c, queries[i], h.0[i])
    decreases |queries|
  {
    if queries != [] {
      var f := Search(c, k, queries[0], {});
      SearchOffCycles(c, k, queries[0], {});
      SearchTrueSound(c, k, queries[0], {});
      HistoryOffCycles(c, f.cache, queries[1..]);
      HistoryFirst(c, k, queries, 0);
      forall i | 0 <= i < |queries| ensures RightOffCycles(c, queries[i], History(c, k, queries).0[i]) {
        HistoryFirst(c, k, queries, i);
        assert i > 0 ==> queries[i] == queries[1..][i - 1];
      }
    }
  }

  /** Any graph: as long as every earlier answer was False, the next one is exact. */
  lemma {:induction false} FirstTrueExact(c: Catalogue, k: Cache, queries: seq<Name>, i: nat)
    requires TrueSound(c, k) && FalseClosed(c, k) && i < |queries|
    requires forall j :: 0 <= j < i ==> !History(c, k, queries).0[j]
    ensures History(c, k, queries).0[i] <==> Needs(c, queries[i])
    decreases i
  {
    var f := Search(c, k, queries[0], {});
    QueryExact(c, k, queries[0]);
    if i > 0 {
      assert !History(c, k, queries).0[0];
      SearchTrueSound(c, k, queries[0], {});
      forall j | 0 <= j < i - 1 ensures !History(c, f.cache, queries[1..]).0[j] {
        assert !History(c, k, queries).0[j + 1];
      }
      FirstTrueExact(c, f.cache, queries[1..], i - 1);
    }
  }

  /** Without cycles the answer about a role does not depend on what was asked before it. */
  lemma OrderIndependent(c: Catalogue, qs: seq<Name>, qs': seq<Name>, i: nat, j: nat)
    requires Acyclic(Uses(c)) && i < |qs| && j < |qs'| && qs[i] == qs'[j]
    ensures History(c, map[], qs).0[i] == History(c, map[], qs').0[j]
  {
    HistoryOffCycles(c, map[], qs);
    HistoryOffCycles(c, map[], qs');
    assert CycleFree(Uses(c), qs[i]);
  }

  /** Between queries every reference of a role cached False is itself cached. */
  ghost predicate AtRest(c: Catalogue, k: Cache, seen: set<Name>) {
    forall x :: AnsweredFalse(k, x) ==> !Direct(c, x) && forall y :: y in Refs(c, x) ==> y in k || y in seen
  }

  lemma {:induction false} SearchAtRest(c: Catalogue, k: Cache, r: Name, seen: set<Name>)
    requires AtRest(c, k, seen)
    ensures var f := Search(c, k, r, seen); AtRest(c, f.cache, seen) && (f.needs || r in f.cache || r in seen)
    decreases c.Keys - seen, 0
  {
    if r !in k && r !in seen && r in c && !Direct(c, r) {
      SearchAnyAtRest(c, k, Refs(c, r), seen + {r});
    }
  }

  lemma {:induction false} SearchAnyAtRest(c: Catalogue, k: Cache, refs: seq<Name>, seen: set<Name>)
    requires AtRest(c, k, seen)
    ensures var f := SearchAny(c, k, refs, seen);
      AtRest(c, f.cache, seen) && (f.needs || forall y :: y in refs ==> y in f.cache || y in seen)
    decreases c.Keys - seen, |refs|
  {
    if refs != [] {
      var f := Search(c, k, refs[0], seen);
      SearchAtRest(c, k, refs[0], seen);
      if !f.needs {
        SearchAnyAtRest(c, f.cache, refs[1..], seen);
        SearchAnyGrows(c, f.cache, refs[1..], seen);
      }
    }
  }

  lemma {:induction false} HistoryAtRest(c: Catalogue, k: Cache, queries: seq<Name>)
    requires TrueSound(c, k) && AtRest(c, k, {})
    ensures var k' := History(c, k, queries).1; TrueSound(c, k') && AtRest(c, k', {})
    decreases |queries|
  {
    if queries != [] {
      SearchAtRest(c, k, queries[0], {});
      SearchTrueSound(c, k, queries[0], {});
      HistoryAtRest(c, Search(c, k, queries[0], {}).cache, queries[1..]);
    }
  }

  /** When the memo can be trusted, exactly: after any history on any graph, every further query
      is answered right if and only if the False part of the memo is closed under references. */
  lemma TrustedExactlyWhenClosed(c: Catalogue, queries: seq<Name>)
    ensures var k := History(c, map[], queries).1;
      FalseClosed(c, k) <==> forall r :: Search(c, k, r, {}).needs <==> Needs(c, r)
  {
    var k := History(c, map[], queries).1;
    HistoryAtRest(c, map[], queries);
    if FalseClosed(c, k) {
      forall r ensures Search(c, k, r, {}).needs <==> Needs(c, r) {
        QueryExact(c, k, r);
      }
    }
    if forall r :: Search(c, k, r, {}).needs <==> Needs(c, r) {
      forall x, y | AnsweredFalse(k, x) && y in Refs(c, x) ensures AnsweredFalse(k, y) {
        assert !Search(c, k, x, {}).needs;
        if Needs(c, y) {
          NeedsVia(c, x, y);
        }
        assert y in k;
      }
    }
  }

  /** `b` uses `a`; `a` uses `b` and then the reader `d`. */
  function TwoCycle(a: Name, b: Name, d: Name): Catalogue {
    map[a := Role(false, false, [b, d]), b := Role(false, false, [a]), d := Role(true, false, [])]
  }

  lemma TwoCycleRefs(a: Name, b: Name, d: Name)
    requires a != b && b != d && a != d
    ensures var c := TwoCycle(a, b, d); Refs(c, a) == [b, d] && Refs(c, b) == [a]
  {
    var c := TwoCycle(a, b, d);
    assert [b, d][1..] == [d] && [a][1..] == [] && [d][1..] == [];
    assert Kept(c, a, [d]) == [d] && Kept(c, b, [a]) == [a];
  }

  /** With a cycle it does depend: asked after `a`, `b` is answered False from the memo; asked
      first, it is answered True. */
  lemma StaleFalse(a: Name, b: Name, d: Name)
    requires a != b && b != d && a != d
    ensures var c := TwoCycle(a, b, d);
      && Needs(c, b)
      && History(c, map[], [a, b]).0 == [true, false]
      && History(c, map[], [b, a]).0 == [true, true]
  {
    TwoCycleRefs(a, b, d);
    StaleRun(TwoCycle(a, b, d), a, b, d);
  }

  lemma StaleRun(c: Catalogue, a: Name, b: Name, d: Name)
    requires a != b && b != d && a != d
    requires a in c && b in c && Direct(c, d) && !Direct(c, a) && !Direct(c, b)
    requires Refs(c, a) == [b, d] && Refs(c, b) == [a]
    ensures Needs(c, b)
    ensures History(c, map[], [a, b]).0 == [true, false]
    ensures History(c, map[], [b, a]).0 == [true, true]
  {
    var k1: Cache := map[b := false];
    // a -> b, and back to a, which is cut: b is cached False before d answers True
    assert Search(c, map[], a, {a, b}) == Found(false, map[]);
    assert SearchAny(c, map[], [a], {a, b}) == Found(false, map[]);
    assert {a} + {b} == {a, b};
    assert Search(c, map[], b, {a}) == Found(false, k1);
    var k2 := k1[d := true];
    assert Search(c, k1, d, {a}) == Found(true, k2);
    assert [b, d][1..] == [d];
    assert SearchAny(c, k1, [d], {a}) == Found(true, k2);
    assert SearchAny(c, map[], [b, d], {a}) == Found(true, k2);
    assert {} + {a} == {a};
    assert Search(c, map[], a, {}) == Found(true, k2[a := true]);
    assert Search(c, k2[a := true], b, {}).needs == false;
    assert [a, b][1..] == [b];
    assert History(c, k2[a := true], [b]).0 == [false];
    QueryExact(c, map[], b);
    ReachesSelf(Uses(c), d);
    assert Needs(c, d);
    NeedsVia(c, a, d);
    NeedsVia(c, b, a);
    var f := Search(c, map[], b, {});
    SearchTrueSound(c, map[], b, {});
    assert [b, a][1..] == [a];
    // asked first, b goes through a to d, and a is cached True on the way
    assert {} + {b} == {b};
    assert {b} + {a} == {b, a};
    assert Search(c, map[], b, {b, a}) == Found(false, map[]);
    assert SearchAny(c, map[], [b, d], {b, a}).needs by {
      assert Search(c, map[], d, {b, a}).needs;
      assert SearchAny(c, map[], [d], {b, a}).needs;
    }
    assert Search(c, map[], a, {b}).needs;
    assert f.cache[a];
    assert History(c, f.cache, [a]).0 == [true];
  }

  // ----- the program: a recursive method that writes the shared memo, and the loop over services

  datatype Play = Play(gathersFacts: bool, roles: seq<Name>)

  /** The roles of the service's plays that skip fact gathering. */
  ghost function Asked(plays: seq<Play>): seq<Name> {
    if plays == [] then []
    else Asked(plays[..|plays| - 1]) + if plays[|plays| - 1].gathersFacts then [] else plays[|plays| - 1].roles
  }

  /** Some play that skips fact gathering uses the role. */
  ghost predicate UsedWithoutFacts(plays: seq<Play>, r: Name) {
    exists p :: p in plays && !p.gathersFacts && r in p.roles
  }

  lemma {:induction false} AskedExactly(plays: seq<Play>, r: Name)
    ensures r in Asked(plays) <==> UsedWithoutFacts(plays, r)
  {
    if plays != [] {
      var last := |plays| - 1;
      AskedExactly(plays[..last], r);
      assert forall p :: p in plays <==> p in plays[..last] || p == plays[last];
    }
  }

  lemma {:induction false} HistoryAppend(c: Catalogue, k: Cache, qs: seq<Name>, qs': seq<Name>)
    ensures var h, h' := History(c, k, qs), History(c, History(c, k, qs).1, qs');
      History(c, k, qs + qs') == (h.0 + h'.0, h'.1)
    decreases |qs|
  {
    if qs == [] {
      assert qs + qs' == qs';
      assert [] + History(c, k, qs').0 == History(c, k, qs').0;
    } else {
      assert (qs + qs')[1..] == qs[1..] + qs';
      var f := Search(c, k, qs[0], {});
      HistoryAppend(c, f.cache, qs[1..], qs');
      var h, h' := History(c, f.cache, qs[1..]), History(c, History(c, k, qs).1, qs');
      assert ([f.needs] + h.0) + h'.0 == [f.needs] + (h.0 + h'.0);
    }
  }

  lemma HistoryOne(c: Catalogue, k: Cache, r: Name)
    ensures var f := Search(c, k, r, {}); History(c, k, [r]) == ([f.needs], f.cache)
  {
    assert [r][1..] == [] && [Search(c, k, r, {}).needs] + [] == [Search(c, k, r, {}).needs];
  }

  /** The roles named: only roles that need facts and that a play without them uses, and off the cycles
      all of those. */
  ghost predicate Verdict(c: Catalogue, plays: seq<Play>, bad: set<Name>) {
    && (forall r :: r in bad ==> UsedWithoutFacts(plays, r) && Needs(c, r))
    && (forall r :: UsedWithoutFacts(plays, r) && CycleFree(Uses(c), r) && Needs(c, r) ==> r in bad)
  }

  lemma HistoryVerdict(c: Catalogue, k: Cache, plays: seq<Play>, bad: set<Name>)
    requires ExactOffCycles(c, k) && bad == Flagged(c, k, Asked(plays))
    ensures Verdict(c, plays, bad) && ExactOffCycles(c, History(c, k, Asked(plays)).1)
  {
    var asked := Asked(plays);
    HistoryOffCycles(c, k, asked);
    forall r ensures r in asked <==> UsedWithoutFacts(plays, r) {
      AskedExactly(plays, r);
    }
  }

  /** The roles of a history that were answered True. */
  ghost function Flagged(c: Catalogue, k: Cache, asked: seq<Name>): set<Name> {
    set i | 0 <= i < |asked| && History(c, k, asked).0[i] :: asked[i]
  }

  lemma FlaggedOneMore(c: Catalogue, k: Cache, asked: seq<Name>, r: Name)
    ensures var f := Search(c, History(c, k, asked).1, r, {});
      && History(c, k, asked + [r]).1 == f.cache
      && Flagged(c, k, asked + [r]) == Flagged(c, k, asked) + if f.needs then {r} else {}
  {
    HistoryAppend(c, k, asked, [r]);
    HistoryOne(c, History(c, k, asked).1, r);
    var h, more := History(c, k, asked).0, History(c, k, asked + [r]).0;
    var all := asked + [r];
    forall x ensures x in Flagged(c, k, all) <==> x in Flagged(c, k, asked) || (more[|asked|] && x == r) {
      if x in Flagged(c, k, asked) {
        var i :| 0 <= i < |asked| && h[i] && asked[i] == x;
        assert more[i] && all[i] == x;
      }
      if more[|asked|] && x == r {
        assert all[|asked|] == x;
      }
    }
  }

  class ContractCheck {
    const roles: Catalogue
    var factsCache: Cache

    constructor (roles: Catalogue)
      ensures this.roles == roles && factsCache == map[]
    {
      this.roles := roles;
      factsCache := map[];
    }

    method NeedsFacts(role: Name, seen: set<Name>) returns (result: bool)
      modifies this
      ensures Found(result, factsCache) == Search(roles, old(factsCache), role, seen)
      decreases roles.Keys - seen, 0
    {
      if role in factsCache {
        return factsCache[role];
      }
      if role in seen {
        return false;
      }
      if role !in roles {
        factsCache := factsCache[role := false];
        return false;
      }
      result := roles[role].readsFacts && !roles[role].gathers;
      if !result {
        var refs, i := Refs(roles, role), 0;
        while i < |refs| && !result
          invariant 0 <= i <= |refs|
          invariant SearchAny(roles, old(factsCache), refs, seen + {role})
                 == if result then Found(true, factsCache) else SearchAny(roles, factsCache, refs[i..], seen + {role})
        {
          result := NeedsFacts(refs[i], seen + {role});
          i := i + 1;
        }
      }
      factsCache := factsCache[role := result];
    }

    /** The facts failures of one service: the roles its fact-less plays must not use. */
    method FactsFailures(plays: seq<Play>) returns (bad: set<Name>)
      modifies this
      ensures factsCache == History(roles, old(factsCache), Asked(plays)).1
      ensures bad == Flagged(roles, old(factsCache), Asked(plays))
      ensures ExactOffCycles(roles, old(factsCache)) ==>
          Verdict(roles, plays, bad) && ExactOffCycles(roles, factsCache)
    {
      bad := {};
      for i := 0 to |plays|
        invariant factsCache == History(roles, old(factsCache), Asked(plays[..i])).1
        invariant bad == Flagged(roles, old(factsCache), Asked(plays[..i]))
      {
        assert plays[..i + 1][..i] == plays[..i];
        if plays[i].gathersFacts {
          assert Asked(plays[..i]) + [] == Asked(plays[..i]);
          continue;
        }
        var used := plays[i].roles;
        assert Asked(plays[..i]) + used[..0] == Asked(plays[..i]);
        for j := 0 to |used|
          invariant factsCache == History(roles, old(factsCache), Asked(plays[..i]) + used[..j]).1
          invariant bad == Flagged(roles, old(factsCache), Asked(plays[..i]) + used[..j])
        {
          var needs := NeedsFacts(used[j], {});
          FlaggedOneMore(roles, old(factsCache), Asked(plays[..i]) + used[..j], used[j]);
          assert Asked(plays[..i]) + used[..j + 1] == Asked(plays[..i]) + used[..j] + [used[j]];
          if needs {
            bad := bad + {used[j]};
          }
        }
        assert used[..|used|] == used;
      }
      assert plays[..|plays|] == plays;
      if ExactOffCycles(roles, old(factsCache)) {
        HistoryVerdict(roles, old(factsCache), plays, bad);
      }
    }

    /** All services in turn, on one memo: no false alarm on any graph; off the cycles a role is
        named exactly when it needs facts, whatever the order of services and plays. */
    method Check(services: seq<seq<Play>>) returns (bad: seq<set<Name>>)
      requires factsCache == map[]
      modifies this
      ensures |bad| == |services|
      ensures forall s, r :: 0 <= s < |services| && r in bad[s] ==> UsedWithoutFacts(services[s], r) && Needs(roles, r)
      ensures forall s, p, r :: 0 <= s < |services| && p in services[s] && !p.gathersFacts && r in p.roles ==>
          (Needs(roles, r) && CycleFree(Uses(roles), r) ==> r in bad[s])
    {
      bad := [];
      for s := 0 to |services|
        invariant |bad| == s && ExactOffCycles(roles, factsCache)
        invariant forall t :: 0 <= t < s ==> Verdict(roles, services[t], bad[t])
      {
        var b := FactsFailures(services[s]);
        bad := bad + [b];
      }
      forall s, p, r | 0 <= s < |services| && p in services[s] && !p.gathersFacts && r in p.roles
        ensures UsedWithoutFacts(services[s], r)
      {
      }
    }
  }
}
