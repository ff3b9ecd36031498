/** When setting files aside loses something (playbooks/controller-files.yml): `mv` replaces a file that is
    already in the set-aside area, or in a copy of the folder that has been moved there. */
module ControllerLoss {
  import opened ControllerFiles

  /** A file with other contents is where the move puts an undeclared one: at its own path, or inside a
      directory of that name. */
  predicate Replaces(area: Tree, f: Path, n: Node) {
    var g := Target(area, f);
    g in area && area[g].File? && area[g] != n
  }

  /** The copy of the folder can be moved to its place. */
  predicate CanPlace(d0: Disk, b: string) {
    b in d0.beside && Home(b) !in d0.aside && NotAFile(d0.aside, [COPIES])
  }

  /** The move of the file replaces nothing with other contents, in the area or in a copy moved there. */
  ghost predicate Harmless(d0: Disk, f: Path, n: Node) {
    && !Replaces(d0.aside, f, n)
    && forall b :: CanPlace(d0, b) ==> !Replaces(Placed(b, d0.beside[b]), f, n)
  }

  ghost predicate NoneReplaces(keep: Keep, d0: Disk) {
    forall f :: IsOther(keep, d0.tree, f) ==> Harmless(d0, f, d0.tree[f])
  }

  // ----- what it means that nothing is lost

  /** Where a file can come to be put. */
  predicate IsSpot(f: Path, g: Path) {
    g == f || (f != [] && g == f + [f[|f| - 1]])
  }

  ghost predicate OtherKept(d0: Disk, d: Disk, f: Path)
    requires f in d0.tree
  {
    || (f in d.tree && d.tree[f] == d0.tree[f])
    || exists g :: IsSpot(f, g) && g in d.aside && d.aside[g] == d0.tree[f]
  }

  ghost predicate CopyKept(d0: Disk, d: Disk, b: string)
    requires b in d0.beside
  {
    || (b in d.beside && d.beside[b] == d0.beside[b])
    || Holds(d.aside, Placed(b, d0.beside[b]))
  }

  /** Nothing is lost: the declared files, what was set aside, the undeclared files and the copies of the
      folder all have their contents somewhere. */
  ghost predicate KeepsContents(keep: Keep, d0: Disk, d: Disk) {
    && (forall p :: IsKept(keep, d0.tree, p) ==> p in d.tree && d.tree[p] == d0.tree[p])
    && Holds(d.aside, d0.aside)
    && (forall f :: IsOther(keep, d0.tree, f) ==> OtherKept(d0, d, f))
    && (forall b :: b in d0.beside ==> CopyKept(d0, d, b))
  }

  /** What is in the area was there, is a directory of the plan, or has come from where it no longer is. */
  ghost predicate Explained(keep: Keep, d0: Disk, d: Disk, p: Path)
    requires p in d.aside
  {
    || (p in d0.aside && d.aside[p] == d0.aside[p])
    || (d.aside[p].Dir? && IsMade(keep, d0, p))
    || (d.aside[p].File? && exists f :: CameFrom(keep, d0, d, f, p))
    || exists b :: IsCopied(d0, b, p, d.aside[p])
  }

  ghost predicate CameFrom(keep: Keep, d0: Disk, d: Disk, f: Path, p: Path) {
    IsOther(keep, d0.tree, f) && f !in d.tree && IsSpot(f, p)
  }

  ghost predicate IsCopied(d0: Disk, b: string, p: Path, n: Node) {
    CanPlace(d0, b) && var copy := Placed(b, d0.beside[b]); p in copy && copy[p] == n
  }

  ghost predicate Holding(keep: Keep, d0: Disk, d: Disk) {
    && KeepsContents(keep, d0, d) && IsTree(d.aside)
    && (forall p :: p in d.tree ==> p in d0.tree && d.tree[p] == d0.tree[p])
    && (forall b :: b in d.beside ==> b in d0.beside && d.beside[b] == d0.beside[b])
    && (forall p :: p in d.aside ==> Explained(keep, d0, d, p))
  }

  lemma SpotsDiffer(keep: Keep, d0: Disk, f: Path, e: Path, g: Path)
    requires IsTree(d0.tree) && IsOther(keep, d0.tree, f) && IsOther(keep, d0.tree, e) && f != e
    requires IsSpot(f, g)
    ensures !IsSpot(e, g)
  {
    assert Parent(f) != e && Parent(e) != f by {
      assert IsDir(d0.tree, Parent(f)) && IsDir(d0.tree, Parent(e));
    }
    assert Parent(f + [f[|f| - 1]]) == f && Parent(e + [e[|e| - 1]]) == e;
  }

  // ----- one command

  /** The area only grows, and what is new in it is explained. */
  lemma GrownHolds(keep: Keep, d0: Disk, d: Disk, d': Disk)
    requires Holding(keep, d0, d) && IsTree(d'.aside) && Holds(d'.aside, d.aside)
    requires forall p :: p in d'.tree ==> p in d.tree && d'.tree[p] == d.tree[p]
    requires forall b :: b in d'.beside ==> b in d.beside && d'.beside[b] == d.beside[b]
    requires forall p :: IsKept(keep, d0.tree, p) ==> p in d'.tree
    requires forall f :: IsOther(keep, d0.tree, f) && f in d.tree ==> OtherKept(d0, d', f)
    requires forall b :: b in d.beside ==> CopyKept(d0, d', b)
    requires forall p :: p in d'.aside && p !in d.aside ==> Explained(keep, d0, d', p)
    ensures Holding(keep, d0, d')
  {
    forall f | IsOther(keep, d0.tree, f) ensures OtherKept(d0, d', f) {
      assert OtherKept(d0, d, f);
    }
    forall b | b in d0.beside ensures CopyKept(d0, d', b) {
      assert CopyKept(d0, d, b);
    }
    forall p | p in d.aside ensures Explained(keep, d0, d', p) {
      StaysExplained(keep, d0, d, d', p);
    }
  }

  lemma StaysExplained(keep: Keep, d0: Disk, d: Disk, d': Disk, p: Path)
    requires p in d.aside && p in d'.aside && d'.aside[p] == d.aside[p] && Explained(keep, d0, d, p)
    requires forall q :: q in d'.tree ==> q in d.tree
    ensures Explained(keep, d0, d', p)
  {
    if f :| CameFrom(keep, d0, d, f, p) {
      assert CameFrom(keep, d0, d', f, p);
    }
  }

  lemma DirsAdded(t: Tree, p: Path, t': Tree)
    requires IsTree(t) && !Blocked(t, p) && t' == t + map q | q in NewDirs(t, p) :: Dir
    ensures IsTree(t')
  {
    forall q | q in t' ensures IsDir(t', Parent(q)) {
      if q in t {
        assert IsDir(t, Parent(q));
      } else {
        var k :| 0 < k <= |p| && p[..k] !in t && p[..k] == q;
        assert Parent(q) == p[..k - 1];
      }
    }
  }

  lemma MakeDirHolds(keep: Keep, d0: Disk, d: Disk, p: Path)
    requires Holding(keep, d0, d) && Planned(keep, d0, MakeDir(p))
    ensures Holding(keep, d0, Do(d, MakeDir(p)).disk)
  {
    var d' := Do(d, MakeDir(p)).disk;
    if d' != d {
      forall k | 0 < k <= |p| ensures IsMade(keep, d0, p[..k]) {
        PrefixIsMade(keep, d0, p, k);
      }
      DirsAdded(d.aside, p, d'.aside);
      GrownHolds(keep, d0, d, d');
    }
  }

  lemma CopyAdded(t: Tree, b: string, copy: Tree)
    requires IsTree(t) && IsDir(t, [COPIES]) && IsTree(copy) && Home(b) !in t
    ensures IsTree(t + Placed(b, copy)) && Holds(t + Placed(b, copy), t)
  {
    var placed := Placed(b, copy);
    forall p | p in placed ensures p !in t && IsDir(t + placed, Parent(p)) {
      if p in t {
        InsideOf(t, p, b);
      }
      PlacedIsTree(b, copy, p);
    }
    forall p | p in t ensures IsDir(t + placed, Parent(p)) {
      assert IsDir(t, Parent(p));
    }
  }

  /** What is in a placed copy lies in a directory of it, and the copy itself in the place of the copies. */
  lemma PlacedIsTree(b: string, copy: Tree, p: Path)
    requires IsTree(copy) && p in Placed(b, copy)
    ensures if |p| == 2 then Parent(p) == [COPIES] else IsIn(b, Parent(p)) && IsDir(Placed(b, copy), Parent(p))
  {
    if |p| == 2 {
      assert p == Home(b);
    } else {
      assert Parent(p)[2..] == Parent(p[2..]);
      assert IsDir(copy, Parent(p[2..]));
    }
  }

  lemma MoveCopyHolds(keep: Keep, d0: Disk, d: Disk, b: string)
    requires IsDisk(d0) && Holding(keep, d0, d) && b in d0.beside
    ensures Holding(keep, d0, Do(d, MoveCopy(b)).disk)
  {
    var d' := Do(d, MoveCopy(b)).disk;
    if d' != d {
      CopyAdded(d.aside, b, d0.beside[b]);
      PlacedHolds(keep, d0, d, b, Placed(b, d0.beside[b]), d');
    }
  }

  lemma PlacedHolds(keep: Keep, d0: Disk, d: Disk, b: string, copy: Tree, d': Disk)
    requires Holding(keep, d0, d) && b in d.beside && Home(b) !in d.aside && IsDir(d.aside, [COPIES])
    requires copy == Placed(b, d0.beside[b]) && IsTree(d'.aside) && Holds(d'.aside, d.aside)
    requires d' == d.(aside := d.aside + copy, beside := d.beside - {b})
    ensures Holding(keep, d0, d')
  {
    CanBePlaced(keep, d0, d, b);
    forall p | p in d'.aside && p !in d.aside ensures Explained(keep, d0, d', p) {
      CopiedIsExplained(keep, d0, d', b, copy, p);
    }
    forall c | c in d.beside ensures CopyKept(d0, d', c) {
      assert c == b ==> Holds(d'.aside, copy);
    }
    GrownHolds(keep, d0, d, d');
  }

  lemma CanBePlaced(keep: Keep, d0: Disk, d: Disk, b: string)
    requires Holding(keep, d0, d) && b in d.beside && Home(b) !in d.aside && IsDir(d.aside, [COPIES])
    ensures CanPlace(d0, b)
  {
  }

  lemma CopiedIsExplained(keep: Keep, d0: Disk, d: Disk, b: string, copy: Tree, p: Path)
    requires CanPlace(d0, b) && copy == Placed(b, d0.beside[b]) && p in copy && p in d.aside && d.aside[p] == copy[p]
    ensures Explained(keep, d0, d, p)
  {
    assert IsCopied(d0, b, p, copy[p]);
  }

  /** What the move of a file finds where it goes: nothing, or a file with the same contents. */
  lemma SpotIsFree(keep: Keep, d0: Disk, d: Disk, f: Path)
    requires IsDisk(d0) && Holding(keep, d0, d)
    requires IsOther(keep, d0.tree, f) && f in d.tree && Harmless(d0, f, d0.tree[f])
    requires Target(d.aside, f) in d.aside && d.aside[Target(d.aside, f)].File?
    ensures d.aside[Target(d.aside, f)] == d0.tree[f]
  {
    var g := Target(d.aside, f);
    assert Explained(keep, d0, d, g);
    if g in d0.aside {
      assert IsDir(d0.aside, Parent(g));
      SameTarget(d0.aside, d.aside, f, g);
    } else if e :| CameFrom(keep, d0, d, e, g) {
      SpotsDiffer(keep, d0, e, f, g);
    } else {
      var b :| IsCopied(d0, b, g, d.aside[g]);
      PlacedIsTree(b, d0.beside[b], g);
      SameTarget(Placed(b, d0.beside[b]), d.aside, f, g);
    }
  }

  /** The area sends the file where the part does, if the part holds the place or the directory it is in. */
  lemma SameTarget(part: Tree, area: Tree, f: Path, g: Path)
    requires g == Target(area, f) && g in part && part[g].File? && IsDir(part, Parent(g))
    ensures Target(part, f) == g
  {
    assert g != f ==> Parent(g) == f;
  }

  lemma LeafAdded(t: Tree, g: Path, n: Node)
    requires IsTree(t) && g != [] && IsDir(t, Parent(g)) && (g in t ==> t[g] == n)
    ensures IsTree(t[g := n])
  {
    forall p | p in t[g := n] ensures IsDir(t[g := n], Parent(p)) {
      if p in t {
        assert IsDir(t, Parent(p));
      }
    }
  }

  lemma MoveFileHolds(keep: Keep, d0: Disk, d: Disk, f: Path)
    requires IsDisk(d0) && Holding(keep, d0, d) && IsOther(keep, d0.tree, f) && Harmless(d0, f, d0.tree[f])
    ensures Holding(keep, d0, Do(d, MoveFile(f)).disk)
  {
    var d', g := Do(d, MoveFile(f)).disk, Target(d.aside, f);
    if d' != d {
      if g in d.aside {
        SpotIsFree(keep, d0, d, f);
      }
      LeafAdded(d.aside, g, d.tree[f]);
      MovedHolds(keep, d0, d, d', f, g);
    }
  }

  lemma MovedHolds(keep: Keep, d0: Disk, d: Disk, d': Disk, f: Path, g: Path)
    requires Holding(keep, d0, d) && IsOther(keep, d0.tree, f) && f in d.tree && IsSpot(f, g)
    requires g in d.aside ==> d.aside[g] == d.tree[f]
    requires d' == d.(tree := d.tree - {f}, aside := d.aside[g := d.tree[f]]) && IsTree(d'.aside)
    ensures Holding(keep, d0, d')
  {
    forall p | p in d'.aside && p !in d.aside ensures Explained(keep, d0, d', p) {
      assert CameFrom(keep, d0, d', f, p);
    }
    GrownHolds(keep, d0, d, d');
  }

  lemma RemoveDirHolds(keep: Keep, d0: Disk, d: Disk, x: Path)
    requires Holding(keep, d0, d) && IsDead(keep, d0.tree, x)
    ensures Holding(keep, d0, Do(d, RemoveDir(x)).disk)
  {
    GrownHolds(keep, d0, d, Do(d, RemoveDir(x)).disk);
  }

  // ----- in any order

  ghost predicate AllPlanned(keep: Keep, d0: Disk, ops: seq<Op>) {
    forall i :: 0 <= i < |ops| ==> Planned(keep, d0, ops[i])
  }

  lemma {:induction false} AllHold(keep: Keep, d0: Disk, d: Disk, ops: seq<Op>)
    requires IsDisk(d0) && NoneReplaces(keep, d0) && AllPlanned(keep, d0, ops) && Holding(keep, d0, d)
    ensures Holding(keep, d0, Each(d, ops).disk)
    decreases |ops|
  {
    if ops != [] {
      assert Planned(keep, d0, ops[0]);
      match ops[0] {
        case MakeDir(p) => MakeDirHolds(keep, d0, d, p);
        case MoveCopy(b) => MoveCopyHolds(keep, d0, d, b);
        case MoveFile(f) => MoveFileHolds(keep, d0, d, f);
        case RemoveDir(x) => RemoveDirHolds(keep, d0, d, x);
      }
      AllHold(keep, d0, Do(d, ops[0]).disk, ops[1..]);
    }
  }

  lemma HoldsAtStart(keep: Keep, d0: Disk)
    requires IsTree(d0.aside)
    ensures Holding(keep, d0, d0)
  {
    forall f | IsOther(keep, d0.tree, f) ensures OtherKept(d0, d0, f) {
    }
  }

  ghost predicate NeverLoses(keep: Keep, d0: Disk) {
    forall ops :: AllPlanned(keep, d0, ops) ==> KeepsContents(keep, d0, Each(d0, ops).disk)
  }

  /** With this part in the area, the move puts the file over a file of the part. */
  lemma PutsOver(d: Disk, f: Path, part: Tree)
    requires f in d.tree && Holds(d.aside, part) && Replaces(part, f, d.tree[f]) && [] !in part
    requires IsDir(d.aside, Parent(Target(part, f)))
    ensures Do(d, MoveFile(f)).disk == d.(tree := d.tree - {f}, aside := d.aside[Target(part, f) := d.tree[f]])
    ensures !Holds(Do(d, MoveFile(f)).disk.aside, part)
  {
    assert Target(d.aside, f) == Target(part, f);
  }

  lemma ReplacingLoses(keep: Keep, d0: Disk, f: Path)
    requires IsDisk(d0) && IsOther(keep, d0.tree, f) && Replaces(d0.aside, f, d0.tree[f])
    ensures !NeverLoses(keep, d0)
  {
    assert AllPlanned(keep, d0, [MoveFile(f)]);
    PutsOver(d0, f, d0.aside);
    assert [MoveFile(f)][1..] == [];
    assert Each(d0, [MoveFile(f)]).disk == Do(d0, MoveFile(f)).disk;
  }

  /** A copy that can be moved to its place is moved there once that has been made. */
  lemma CopyIsMoved(d0: Disk, b: string) returns (moved: Disk)
    requires CanPlace(d0, b)
    ensures moved == Do(Do(d0, MakeDir([COPIES])).disk, MoveCopy(b)).disk
    ensures moved.tree == d0.tree && b !in moved.beside && Holds(moved.aside, Placed(b, d0.beside[b]))
  {
    var made, p := Do(d0, MakeDir([COPIES])).disk, [COPIES];
    assert p[..1] == p && !Blocked(d0.aside, p);
    assert NewDirs(d0.aside, p) == if p in d0.aside then {} else {p};
    assert made.aside == d0.aside[p := Dir];
    moved := Do(made, MoveCopy(b)).disk;
  }

  lemma EachOfThree(d: Disk, a: Op, b: Op, c: Op)
    ensures Each(d, [a, b, c]).disk == Do(Do(Do(d, a).disk, b).disk, c).disk
  {
    assert [a, b, c][1..] == [b, c] && [b, c][1..] == [c] && [c][1..] == [];
    var d2 := Do(Do(d, a).disk, b).disk;
    assert Each(d2, [c]).disk == Do(d2, c).disk;
    assert Each(Do(d, a).disk, [b, c]).disk == Each(d2, [c]).disk;
  }

  /** A copy that is in the area and no more beside the folder is lost once a file is put over one in it. */
  lemma CopyPutOver(d: Disk, f: Path, b: string, copy: Tree)
    requires IsTree(copy) && f in d.tree && Holds(d.aside, Placed(b, copy))
    requires Replaces(Placed(b, copy), f, d.tree[f])
    ensures !Holds(Do(d, MoveFile(f)).disk.aside, Placed(b, copy))
    ensures Do(d, MoveFile(f)).disk.beside == d.beside
  {
    PlacedIsTree(b, copy, Target(Placed(b, copy), f));
    PutsOver(d, f, Placed(b, copy));
  }

  /** The place of the copies is made, a copy is moved there, and the file over a file in it. */
  lemma DisplacingLoses(keep: Keep, d0: Disk, f: Path, b: string)
    requires IsDisk(d0) && IsOther(keep, d0.tree, f) && CanPlace(d0, b)
    requires Replaces(Placed(b, d0.beside[b]), f, d0.tree[f])
    ensures !NeverLoses(keep, d0)
  {
    var ops := [MakeDir([COPIES]), MoveCopy(b), MoveFile(f)];
    var moved := CopyIsMoved(d0, b);
    CopyPutOver(moved, f, b, d0.beside[b]);
    EachOfThree(d0, MakeDir([COPIES]), MoveCopy(b), MoveFile(f));
    CopyLost(keep, d0, b, ops, Do(moved, MoveFile(f)).disk);
  }

  lemma CopyLost(keep: Keep, d0: Disk, b: string, ops: seq<Op>, end: Disk)
    requires AllPlanned(keep, d0, ops) && end == Each(d0, ops).disk && b in d0.beside && b !in end.beside
    requires !Holds(end.aside, Placed(b, d0.beside[b]))
    ensures !NeverLoses(keep, d0)
  {
    assert !CopyKept(d0, end, b);
  }

  /** Whatever commands of the plan have run, in any order and cut off anywhere, nothing is lost if and
      only if no undeclared file would replace one with other contents: one that is in the set-aside area
      already, or one in a copy of the folder that can be moved there. */
  lemma NothingLostExactly(keep: Keep, d0: Disk)
    requires IsDisk(d0)
    ensures NeverLoses(keep, d0) <==> NoneReplaces(keep, d0)
  {
    if NoneReplaces(keep, d0) {
      HoldsAtStart(keep, d0);
      forall ops | AllPlanned(keep, d0, ops) ensures KeepsContents(keep, d0, Each(d0, ops).disk) {
        AllHold(keep, d0, d0, ops);
      }
    } else {
      var f :| IsOther(keep, d0.tree, f) && !Harmless(d0, f, d0.tree[f]);
      if Replaces(d0.aside, f, d0.tree[f]) {
        ReplacingLoses(keep, d0, f);
      } else {
        var b :| CanPlace(d0, b) && Replaces(Placed(b, d0.beside[b]), f, d0.tree[f]);
        DisplacingLoses(keep, d0, f, b);
      }
    }
  }
}
