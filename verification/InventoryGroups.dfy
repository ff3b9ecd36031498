/** The inventory's groups and the hosts they hold, children included
    (tests/test_certs_sync_covers_consumers.py, `_groups`). */
module InventoryGroups {
  import opened Digraph

  type Hosts = map<Name, set<Name>>

  /** A group of the inventory file: its own hosts and its named children, in file order. */
  datatype Node = Node(hosts: set<Name>, children: Forest)
  datatype Forest = Nil | Cons(name: Name, node: Node, rest: Forest)

  /** Somewhere in these trees a group called g lists host h. */
  ghost predicate Lists(trees: Forest, g: Name, h: Name) {
    match trees
    case Nil => false
    case Cons(name, node, rest) =>
      (g == name && h in node.hosts) || Lists(node.children, g, h) || Lists(rest, g, h)
  }

  predicate HasRoot(trees: Forest, k: Name) {
    trees.Cons? && (trees.name == k || HasRoot(trees.rest, k))
  }

  /** Somewhere in these trees a group called g has a child called k. */
  ghost predicate HasChild(trees: Forest, g: Name, k: Name) {
    match trees
    case Nil => false
    case Cons(name, node, rest) =>
      (g == name && HasRoot(node.children, k)) || HasChild(node.children, g, k) || HasChild(rest, g, k)
  }

  /** The two tables the walk fills. */
  datatype Tables = Tables(direct: Hosts, children: Edges)

  function Walked(t: Tables, name: Name, node: Node): Tables
    decreases node, 1
  {
    WalkedAll(t.(direct := t.direct[name := Succ(t.direct, name) + node.hosts]), name, node.children)
  }

  function WalkedAll(t: Tables, parent: Name, trees: Forest): Tables
    decreases trees, 0
  {
    match trees
    case Nil => t
    case Cons(name, node, rest) =>
      var t' := t.(children := t.children[parent := Succ(t.children, parent) + {name}]);
      WalkedAll(Walked(t', name, node), parent, rest)
  }

  /** The walk adds exactly what the trees say, wherever the same name occurs. */
  lemma {:induction false} WalkedMeans(t: Tables, parent: Name, trees: Forest, g: Name, x: Name)
    ensures var t' := WalkedAll(t, parent, trees);
      && (x in Succ(t'.direct, g) <==> x in Succ(t.direct, g) || Lists(trees, g, x))
      && (x in Succ(t'.children, g) <==>
          x in Succ(t.children, g) || (g == parent && HasRoot(trees, x)) || HasChild(trees, g, x))
    decreases trees
  {
    match trees
    case Nil =>
    case Cons(name, node, rest) =>
      var t1 := t.(children := t.children[parent := Succ(t.children, parent) + {name}]);
      var t2 := t1.(direct := t1.direct[name := Succ(t1.direct, name) + node.hosts]);
      WalkedMeans(t2, name, node.children, g, x);
      WalkedMeans(Walked(t1, name, node), parent, rest, g, x);
  }

  function WalkedFile(t: Tables, trees: Forest): Tables
    decreases trees
  {
    match trees
    case Nil => t
    case Cons(name, node, rest) => WalkedFile(Walked(t, name, node), rest)
  }

  lemma {:induction false} WalkedFileMeans(t: Tables, trees: Forest, g: Name, x: Name)
    ensures var t' := WalkedFile(t, trees);
      && (x in Succ(t'.direct, g) <==> x in Succ(t.direct, g) || Lists(trees, g, x))
      && (x in Succ(t'.children, g) <==> x in Succ(t.children, g) || HasChild(trees, g, x))
    decreases trees
  {
    match trees
    case Nil =>
    case Cons(name, node, rest) =>
      WalkedMeans(t.(direct := t.direct[name := Succ(t.direct, name) + node.hosts]), name, node.children, g, x);
      WalkedFileMeans(Walked(t, name, node), rest, g, x);
  }

  class Inventory {
    var direct: Hosts
    var children: Edges

    constructor ()
      ensures direct == map[] && children == map[]
    {
      direct, children := map[], map[];
    }

    method Walk(name: Name, node: Node)
      modifies this
      ensures Tables(direct, children) == Walked(Tables(old(direct), old(children)), name, node)
      decreases node
    {
      direct := direct[name := Succ(direct, name) + node.hosts];
      var rest := node.children;
      while rest.Cons?
        invariant rest == node.children || rest < node.children
        invariant Walked(Tables(old(direct), old(children)), name, node)
               == WalkedAll(Tables(direct, children), name, rest)
        decreases rest
      {
        children := children[name := Succ(children, name) + {rest.name}];
        Walk(rest.name, rest.node);
        rest := rest.rest;
      }
    }
  }

  // ----- resolution

  /** A path that, after its first group, stays out of `seen`. */
  ghost predicate Avoids(e: Edges, p: seq<Name>, a: Name, b: Name, seen: set<Name>) {
    IsPathFromTo(e, p, a, b) && forall i :: 1 <= i < |p| ==> p[i] !in seen
  }

  /** h is a host of a group met from `name` without going back into `seen`. */
  ghost predicate Held(direct: Hosts, e: Edges, name: Name, seen: set<Name>, h: Name) {
    exists g, p :: h in Succ(direct, g) && Avoids(e, p, name, g, seen)
  }

  lemma {:induction false} LastVisit(p: seq<Name>, n: Name) returns (j: nat)
    requires n in p
    ensures j < |p| && p[j] == n && n !in p[j + 1..]
  {
    if n in p[1..] {
      var k := LastVisit(p[1..], n);
      j := k + 1;
      assert p[1..][k + 1..] == p[j + 1..];
    } else {
      j := 0;
    }
  }

  /** The simple-path step: cutting a path at its last visit to `name` leaves a child and a path
      that avoids `name` too. */
  lemma CutAtLastVisit(e: Edges, p: seq<Name>, name: Name, g: Name, seen: set<Name>) returns (q: seq<Name>)
    requires Avoids(e, p, name, g, seen) && g != name
    ensures |q| > 0 && q[0] in Succ(e, name) - seen && Avoids(e, q, q[0], g, seen + {name})
  {
    var j := LastVisit(p, name);
    q := p[j + 1..];
    assert p[j + 1] in Succ(e, p[j]);
    forall i | 0 <= i < |q| ensures q[i] !in seen + {name} {
      assert q[i] == p[j + 1 + i];
    }
    forall i | 0 <= i < |q| - 1 ensures q[i + 1] in Succ(e, q[i]) {
      assert p[j + 1 + i + 1] in Succ(e, p[j + 1 + i]);
    }
  }

  lemma HeldStep(direct: Hosts, e: Edges, name: Name, seen: set<Name>, h: Name)
    ensures Held(direct, e, name, seen, h) <==>
      || h in Succ(direct, name)
      || exists child :: child in Succ(e, name) - seen && Held(direct, e, child, seen + {name}, h)
  {
    if Held(direct, e, name, seen, h) {
      var g, p :| h in Succ(direct, g) && Avoids(e, p, name, g, seen);
      if g != name {
        var q := CutAtLastVisit(e, p, name, g, seen);
        assert Held(direct, e, q[0], seen + {name}, h);
      }
    }
    if h in Succ(direct, name) {
      assert Avoids(e, [name], name, name, seen);
    }
    if child :| child in Succ(e, name) - seen && Held(direct, e, child, seen + {name}, h) {
      var g, q :| h in Succ(direct, g) && Avoids(e, q, child, g, seen + {name});
      assert Avoids(e, [name] + q, name, g, seen);
    }
  }

  /** Terminates on every child relation, self-loops and cycles included, and returns exactly the
      hosts of the groups met without going back into `seen`. */
  method Resolve(direct: Hosts, children: Edges, name: Name, seen: set<Name>) returns (hosts: set<Name>)
    ensures forall h :: h in hosts <==> Held(direct, children, name, seen, h)
    decreases children.Keys - seen, if name in seen then 1 else 0
  {
    hosts := Succ(direct, name);
    var todo := Succ(children, name) - seen;
    while todo != {}
      invariant todo <= Succ(children, name) - seen
      invariant forall h :: h in hosts <==>
                  || h in Succ(direct, name)
                  || exists child :: child in Succ(children, name) - seen - todo
                      && Held(direct, children, child, seen + {name}, h)
      decreases todo
    {
      var child :| child in todo;
      if name in seen {
        assert seen + {name} == seen;
      }
      var more := Resolve(direct, children, child, seen + {name});
      hosts := hosts + more;
      todo := todo - {child};
    }
    forall h ensures h in hosts <==> Held(direct, children, name, seen, h) {
      HeldStep(direct, children, name, seen, h);
      assert Succ(children, name) - seen - todo == Succ(children, name) - seen;
    }
  }

  lemma HeldFromScratch(direct: Hosts, e: Edges, name: Name, h: Name)
    ensures Held(direct, e, name, {}, h) <==> exists g :: h in Succ(direct, g) && Reaches(e, name, g)
  {
    if g :| h in Succ(direct, g) && Reaches(e, name, g) {
      var p :| IsPathFromTo(e, p, name, g);
      assert Avoids(e, p, name, g, {});
    }
  }

  /** Every group of the file, with exactly the hosts of all groups reachable from it. */
  method Groups(inventory: Forest) returns (groups: Hosts, direct: Hosts, children: Edges)
    ensures forall g, h :: h in Succ(direct, g) <==> Lists(inventory, g, h)
    ensures forall g, k :: k in Succ(children, g) <==> HasChild(inventory, g, k)
    ensures groups.Keys == direct.Keys + children.Keys
    ensures forall name, h :: name in groups ==>
              (h in groups[name] <==> exists g :: h in Succ(direct, g) && Reaches(children, name, g))
  {
    var inv := new Inventory();
    var rest := inventory;
    while rest.Cons?
      invariant WalkedFile(Tables(map[], map[]), inventory) == WalkedFile(Tables(inv.direct, inv.children), rest)
      decreases rest
    {
      inv.Walk(rest.name, rest.node);
      rest := rest.rest;
    }
    forall g, x ensures x in Succ(inv.direct, g) <==> Lists(inventory, g, x)
                ensures x in Succ(inv.children, g) <==> HasChild(inventory, g, x)
    {
      WalkedFileMeans(Tables(map[], map[]), inventory, g, x);
    }
    direct, children, groups := inv.direct, inv.children, map[];
    var todo := direct.Keys + children.Keys;
    while todo != {}
      invariant groups.Keys == direct.Keys + children.Keys - todo && todo <= direct.Keys + children.Keys
      invariant forall name, h :: name in groups ==>
                  (h in groups[name] <==> exists g :: h in Succ(direct, g) && Reaches(children, name, g))
      decreases todo
    {
      var name :| name in todo;
      var hosts := Resolve(direct, children, name, {});
      forall h ensures h in hosts <==> exists g :: h in Succ(direct, g) && Reaches(children, name, g) {
        HeldFromScratch(direct, children, name, h);
      }
      groups := groups[name := hosts];
      todo := todo - {name};
    }
  }
}
