/** Finite directed graphs over names, their paths, and reachability.
    The role searches and the inventory resolver are all stated against this one notion. */
module Digraph {

  type Name = string

  /** The successors of each name; a name without an entry has none. */
  type Edges = map<Name, set<Name>>

  function Succ(e: Edges, n: Name): set<Name> {
    if n in e then e[n] else {}
  }

  ghost predicate IsPath(e: Edges, p: seq<Name>) {
    && |p| > 0
    && forall i :: 0 <= i < |p| - 1 ==> p[i + 1] in Succ(e, p[i])
  }

  ghost predicate IsPathFromTo(e: Edges, p: seq<Name>, a: Name, b: Name) {
    IsPath(e, p) && p[0] == a && p[|p| - 1] == b
  }

  /** b is reached from a by following zero or more edges. */
  ghost predicate Reaches(e: Edges, a: Name, b: Name) {
    exists p :: IsPathFromTo(e, p, a, b)
  }

  ghost predicate Closed(e: Edges, s: set<Name>) {
    forall n :: n in s ==> Succ(e, n) <= s
  }

  lemma ReachesSelf(e: Edges, a: Name)
    ensures Reaches(e, a, a)
  {
    assert IsPathFromTo(e, [a], a, a);
  }

  lemma ReachesVia(e: Edges, a: Name, b: Name, c: Name)
    requires b in Succ(e, a) && Reaches(e, b, c)
    ensures Reaches(e, a, c)
  {
    var p :| IsPathFromTo(e, p, b, c);
    assert IsPathFromTo(e, [a] + p, a, c);
  }

  lemma ReachesTransitive(e: Edges, a: Name, b: Name, c: Name)
    requires Reaches(e, a, b) && Reaches(e, b, c)
    ensures Reaches(e, a, c)
  {
    var p :| IsPathFromTo(e, p, a, b);
    var q :| IsPathFromTo(e, q, b, c);
    var r := p + q[1..];
    assert forall i :: |p| <= i < |r| ==> r[i] == q[i - |p| + 1];
    assert IsPathFromTo(e, r, a, c);
  }

  /** A path that goes anywhere leaves through a successor. */
  lemma FirstStep(e: Edges, a: Name, c: Name) returns (b: Name)
    requires Reaches(e, a, c) && a != c
    ensures b in Succ(e, a) && Reaches(e, b, c)
  {
    var p :| IsPathFromTo(e, p, a, c);
    b := p[1];
    assert IsPathFromTo(e, p[1..], b, c);
  }

  /** Nothing is reached out of a closed set. */
  lemma {:induction false} ClosedContains(e: Edges, s: set<Name>, p: seq<Name>)
    requires Closed(e, s) && IsPath(e, p) && p[0] in s
    ensures p[|p| - 1] in s
    decreases |p|
  {
    if |p| > 1 {
      assert p[1] in Succ(e, p[0]);
      ClosedContains(e, s, p[1..]);
    }
  }

  lemma ClosedReach(e: Edges, s: set<Name>, a: Name, b: Name)
    requires Closed(e, s) && a in s && Reaches(e, a, b)
    ensures b in s
  {
    var p :| IsPathFromTo(e, p, a, b);
    ClosedContains(e, s, p);
  }

  ghost predicate OnCycle(e: Edges, n: Name) {
    exists m :: m in Succ(e, n) && Reaches(e, m, n)
  }

  /** No cycle can be met from n. */
  ghost predicate CycleFree(e: Edges, n: Name) {
    forall m :: Reaches(e, n, m) ==> !OnCycle(e, m)
  }

  ghost predicate Acyclic(e: Edges) {
    forall n :: !OnCycle(e, n)
  }

  lemma CycleFreeSucc(e: Edges, n: Name, m: Name)
    requires CycleFree(e, n) && m in Succ(e, n)
    ensures CycleFree(e, m)
  {
    forall k | Reaches(e, m, k) ensures !OnCycle(e, k) {
      ReachesVia(e, n, m, k);
    }
  }
}
