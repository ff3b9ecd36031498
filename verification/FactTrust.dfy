/** On which role graphs the memo of scripts/check_service_contract.py can be shared: told from single
    queries, before any history. */
module FactTrust {
  import opened Digraph
  import opened FactSearch

  /** Every cached False is right. */
  ghost predicate FalseRight(c: Catalogue, k: Cache) {
    forall x :: AnsweredFalse(k, x) ==> !Needs(c, x)
  }

  ghost predicate NothingTrue(k: Cache) {
    forall x :: x in k ==> !k[x]
  }

  /** One query on an empty memo leaves nothing wrong in it, whatever role is asked about. */
  ghost predicate SingleQueriesClosed(c: Catalogue) {
    forall r :: FalseClosed(c, Search(c, map[], r, {}).cache)
  }

  ghost predicate HistoriesRight(c: Catalogue) {
    forall queries, i :: 0 <= i < |queries| ==> (History(c, map[], queries).0[i] <==> Needs(c, queries[i]))
  }

  lemma ClosedIsRight(c: Catalogue, k: Cache)
    requires FalseClosed(c, k)
    ensures FalseRight(c, k)
  {
    forall x | AnsweredFalse(k, x) ensures !Needs(c, x) {
      FalseIsRight(c, k, x);
    }
  }

  /** Below a role that needs no facts no role does. */
  lemma {:induction false} UnneededStaysRight(c: Catalogue, k: Cache, r: Name, seen: set<Name>)
    requires FalseRight(c, k) && !Needs(c, r)
    ensures FalseRight(c, Search(c, k, r, seen).cache)
    decreases c.Keys - seen, 0
  {
    if r !in k && r !in seen && r in c && !Direct(c, r) {
      UnneededAnyStaysRight(c, k, r, Refs(c, r), seen + {r});
    }
  }

  lemma {:induction false} UnneededAnyStaysRight(c: Catalogue, k: Cache, r: Name, refs: seq<Name>, seen: set<Name>)
    requires FalseRight(c, k) && !Needs(c, r) && forall x :: x in refs ==> x in Refs(c, r)
    ensures FalseRight(c, SearchAny(c, k, refs, seen).cache)
    decreases c.Keys - seen, |refs|
  {
    if refs != [] {
      if Needs(c, refs[0]) {
        NeedsVia(c, r, refs[0]);
      }
      UnneededStaysRight(c, k, refs[0], seen);
      UnneededAnyStaysRight(c, Search(c, k, refs[0], seen).cache, r, refs[1..], seen);
    }
  }

  lemma FewerEntriesAreRight(c: Catalogue, k: Cache, k': Cache)
    requires FalseRight(c, k') && forall x :: x in k ==> x in k' && k'[x] == k[x]
    ensures FalseRight(c, k)
  {
    forall x | AnsweredFalse(k, x) ensures AnsweredFalse(k', x) {
    }
  }

  /** What the memo f of a single query has come to: nothing but right False answers. */
  ghost predicate Fresh(c: Catalogue, f: Cache) {
    NothingTrue(f) && FalseRight(c, f)
  }

  ghost predicate Right(c: Catalogue, k: Cache) {
    TrueSound(c, k) && FalseRight(c, k)
  }

  /** Where a fresh search goes nowhere wrong, neither does one that finds more in its memo: it answers
      True where the fresh one does, and explores nothing beyond it that needs facts. */
  lemma {:induction false} SearchAlike(c: Catalogue, k: Cache, f: Cache, r: Name, seen: set<Name>)
    requires Right(c, k) && Fresh(c, f) && FalseRight(c, Search(c, f, r, seen).cache)
    ensures Right(c, Search(c, k, r, seen).cache)
    ensures Search(c, f, r, seen).needs ==> Search(c, k, r, seen).needs
    decreases c.Keys - seen, 0
  {
    SearchTrueSound(c, k, r, seen);
    SearchTrueSound(c, f, r, seen);
    if r in f {
      assert AnsweredFalse(f, r);
      UnneededStaysRight(c, k, r, seen);
    } else if r in k {
      assert Needs(c, r) ==> !AnsweredFalse(k, r);
    } else if r !in seen {
      if r in c && !Direct(c, r) {
        var g, m := SearchAny(c, f, Refs(c, r), seen + {r}), SearchAny(c, k, Refs(c, r), seen + {r});
        SearchAnyGrows(c, f, Refs(c, r), seen + {r});
        FewerEntriesAreRight(c, g.cache, Search(c, f, r, seen).cache);
        SearchAnyAlike(c, k, f, Refs(c, r), seen + {r});
      }
      assert !Search(c, f, r, seen).needs ==> AnsweredFalse(Search(c, f, r, seen).cache, r);
    }
  }

  lemma {:induction false} SearchAnyAlike(c: Catalogue, k: Cache, f: Cache, refs: seq<Name>, seen: set<Name>)
    requires Right(c, k) && Fresh(c, f) && FalseRight(c, SearchAny(c, f, refs, seen).cache)
    ensures FalseRight(c, SearchAny(c, k, refs, seen).cache)
    ensures SearchAny(c, f, refs, seen).needs ==> SearchAny(c, k, refs, seen).needs
    decreases c.Keys - seen, |refs|
  {
    if refs != [] {
      var fx, kx := Search(c, f, refs[0], seen), Search(c, k, refs[0], seen);
      if !fx.needs {
        SearchAnyGrows(c, fx.cache, refs[1..], seen);
        FewerEntriesAreRight(c, fx.cache, SearchAny(c, f, refs, seen).cache);
      }
      SearchAlike(c, k, f, refs[0], seen);
      if !kx.needs {
        SearchFalseSettles(c, f, refs[0], seen);
        SearchGrows(c, f, refs[0], seen);
        SearchAnyAlike(c, kx.cache, fx.cache, refs[1..], seen);
      }
    }
  }

  lemma QueryStaysRight(c: Catalogue, k: Cache, r: Name)
    requires SingleQueriesClosed(c) && Right(c, k)
    ensures Right(c, Search(c, k, r, {}).cache) && (Search(c, k, r, {}).needs <==> Needs(c, r))
  {
    assert FalseClosed(c, Search(c, map[], r, {}).cache);
    ClosedIsRight(c, Search(c, map[], r, {}).cache);
    SearchAlike(c, k, map[], r, {});
    SearchTrueSound(c, k, r, {});
    if !Search(c, k, r, {}).needs {
      SearchFalseSettles(c, k, r, {});
    }
  }

  lemma {:induction false} HistoryStaysRight(c: Catalogue, k: Cache, queries: seq<Name>, i: nat)
    requires SingleQueriesClosed(c) && Right(c, k) && i < |queries|
    ensures History(c, k, queries).0[i] <==> Needs(c, queries[i])
    decreases i
  {
    QueryStaysRight(c, k, queries[0]);
    if i > 0 {
      HistoryStaysRight(c, Search(c, k, queries[0], {}).cache, queries[1..], i - 1);
    }
  }

  lemma SecondAnswer(c: Catalogue, r: Name, q: Name)
    ensures History(c, map[], [r]).1 == Search(c, map[], r, {}).cache
    ensures History(c, map[], [r, q]).0[1] == Search(c, Search(c, map[], r, {}).cache, q, {}).needs
  {
    HistoryOne(c, map[], r);
    assert [r, q] == [r] + [q];
    HistoryAppend(c, map[], [r], [q]);
    HistoryOne(c, Search(c, map[], r, {}).cache, q);
  }

  /** Every answer of every history is right if and only if every single query on an empty memo leaves
      its False answers closed under references. */
  lemma HistoriesRightExactly(c: Catalogue)
    ensures HistoriesRight(c) <==> SingleQueriesClosed(c)
  {
    if SingleQueriesClosed(c) {
      forall queries, i | 0 <= i < |queries| ensures History(c, map[], queries).0[i] <==> Needs(c, queries[i]) {
        HistoryStaysRight(c, map[], queries, i);
      }
    }
    if HistoriesRight(c) {
      forall r ensures FalseClosed(c, Search(c, map[], r, {}).cache) {
        forall q ensures Search(c, Search(c, map[], r, {}).cache, q, {}).needs <==> Needs(c, q) {
          SecondAnswer(c, r, q);
          assert History(c, map[], [r, q]).0[1] <==> Needs(c, [r, q][1]);
        }
        SecondAnswer(c, r, r);
        TrustedExactlyWhenClosed(c, [r]);
      }
    }
  }
}
