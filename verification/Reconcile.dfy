/** Desired-state reconciliation as a fold: one step per desired item, each reporting how many
    changes it made. What the three reconcilers share is proved here once. */
module Reconcile {

  datatype Out<S> = Out(state: S, changes: nat)

  /** All items in order, the changes added up. */
  function Run<S, I>(step: (S, I) -> Out<S>, s: S, items: seq<I>): Out<S> {
    if items == [] then Out(s, 0)
    else
      var last := |items| - 1;
      var before := Run(step, s, items[..last]);
      var now := step(before.state, items[last]);
      Out(now.state, before.changes + now.changes)
  }

  lemma RunOne<S, I>(step: (S, I) -> Out<S>, s: S, items: seq<I>, i: nat)
    requires i < |items|
    ensures var before := Run(step, s, items[..i]);
      var now := step(before.state, items[i]);
      Run(step, s, items[..i + 1]) == Out(now.state, before.changes + now.changes)
  {
    assert items[..i + 1][..i] == items[..i];
  }

  lemma {:induction false} RunAppend<S, I>(step: (S, I) -> Out<S>, s: S, a: seq<I>, b: seq<I>)
    ensures var r, q := Run(step, s, a), Run(step, Run(step, s, a).state, b);
      Run(step, s, a + b) == Out(q.state, r.changes + q.changes)
    decreases |b|
  {
    if b == [] {
      assert a + b == a;
    } else {
      var last := |b| - 1;
      RunAppend(step, s, a, b[..last]);
      assert (a + b)[..|a + b| - 1] == a + b[..last];
    }
  }

  lemma {:induction false} RunGrows<S, I>(step: (S, I) -> Out<S>, s: S, items: seq<I>, i: nat)
    requires i <= |items|
    ensures Run(step, s, items[..i]).changes <= Run(step, s, items).changes
    decreases |items|
  {
    if i < |items| {
      var last := |items| - 1;
      RunGrows(step, s, items[..last], i);
      assert items[..last][..i] == items[..i];
    } else {
      assert items[..i] == items;
    }
  }

  /** The item asks for nothing: the state is as it wants it. */
  ghost predicate Settled<S, I>(step: (S, I) -> Out<S>, s: S, item: I) {
    step(s, item) == Out(s, 0)
  }

  lemma {:induction false} SettledRun<S, I>(step: (S, I) -> Out<S>, s: S, items: seq<I>)
    requires forall k :: 0 <= k < |items| ==> Settled(step, s, items[k])
    ensures Run(step, s, items) == Out(s, 0)
  {
    if items != [] {
      var last := |items| - 1;
      forall k | 0 <= k < last ensures Settled(step, s, items[..last][k]) {
        assert items[..last][k] == items[k];
      }
      SettledRun(step, s, items[..last]);
      assert Settled(step, s, items[last]);
    }
  }

  /** A step that writes counts a change. */
  ghost predicate CountsWrites<S(!new), I(!new)>(step: (S, I) -> Out<S>) {
    forall s, item :: step(s, item).changes == 0 ==> step(s, item).state == s
  }

  /** Then a run counts no change exactly when every item is settled from the start. */
  lemma {:induction false} SilentExactly<S(!new), I(!new)>(step: (S, I) -> Out<S>, s: S, items: seq<I>)
    requires CountsWrites(step)
    ensures Run(step, s, items).changes == 0 <==> forall k :: 0 <= k < |items| ==> Settled(step, s, items[k])
    ensures Run(step, s, items).changes == 0 ==> Run(step, s, items).state == s
  {
    if items != [] {
      var last := |items| - 1;
      SilentExactly(step, s, items[..last]);
      assert forall k :: 0 <= k < last ==> items[..last][k] == items[k];
      var before := Run(step, s, items[..last]);
      assert step(before.state, items[last]).changes == 0 ==> step(before.state, items[last]) == Out(before.state, 0);
    }
  }

  /** Holds before the k-th step. */
  type Inv<!S> = (S, nat) -> bool

  ghost predicate Keeps<S(!new), I>(step: (S, I) -> Out<S>, inv: Inv<S>, items: seq<I>) {
    forall t, k: nat :: k < |items| && inv(t, k) ==> inv(step(t, items[k]).state, k + 1)
  }

  /** What every step keeps, the run keeps. */
  lemma {:induction false} RunKeeps<S(!new), I>(step: (S, I) -> Out<S>, inv: Inv<S>, s: S, items: seq<I>, n: nat)
    requires n <= |items| && inv(s, 0) && Keeps(step, inv, items)
    ensures inv(Run(step, s, items[..n]).state, n)
  {
    if n > 0 {
      RunKeeps(step, inv, s, items, n - 1);
      RunOne(step, s, items, n - 1);
    }
  }

  lemma MinusOneMore<K, V>(m: map<K, V>, gone: set<K>, k: K)
    ensures m - gone - {k} == m - (gone + {k})
  {
  }
}
