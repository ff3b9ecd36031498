/** Setting aside the controller's undeclared credential files (playbooks/controller-files.yml):
    what is moved, in which order directories go, and what a crash at any point leaves. */
module ControllerFiles {

  /** A path, one component per level. */
  type Path = seq<string>

  datatype Node = File(content: string) | Dir

  type Tree = map<Path, Node>

  /** The folder without its set-aside area, the area (paths inside it), and the copies of the whole
      folder beside it, each a directory with what is in it. */
  datatype Disk = Disk(tree: Tree, aside: Tree, beside: map<string, Tree>)

  /** Which paths of the folder are declared. */
  type Keep = Path -> bool

  const COPIES := "_copies"

  function Parent(p: Path): (q: Path)
    ensures q <= p && (p != [] ==> q < p)
  {
    if p == [] then [] else p[..|p| - 1]
  }

  predicate IsDir(t: Tree, p: Path) {
    p == [] || (p in t && t[p].Dir?)
  }

  /** Everything lies in a directory. */
  ghost predicate IsTree(t: Tree) {
    [] !in t && forall p {:trigger Parent(p)} :: p in t ==> IsDir(t, Parent(p))
  }

  lemma {:induction false} AncestorIsDir(t: Tree, p: Path, k: nat)
    requires IsTree(t) && p in t && k < |p|
    ensures IsDir(t, p[..k])
    decreases |p|
  {
    assert IsDir(t, Parent(p));
    if k < |p| - 1 {
      AncestorIsDir(t, Parent(p), k);
      assert Parent(p)[..k] == p[..k];
    } else {
      assert Parent(p) == p[..k];
    }
  }

  ghost predicate IsDisk(d: Disk) {
    IsTree(d.tree) && IsTree(d.aside) && forall b :: b in d.beside ==> IsTree(d.beside[b])
  }

  /** All that is in the part is in the tree. */
  ghost predicate Holds(t: Tree, part: Tree) {
    forall p :: p in part ==> p in t && t[p] == part[p]
  }

  function Home(b: string): Path {
    [COPIES, b]
  }

  predicate InCopies(p: Path) {
    p != [] && p[0] == COPIES
  }

  predicate IsIn(b: string, p: Path) {
    |p| > 1 && p[0] == COPIES && p[1] == b
  }

  /** A copy of the folder, moved to its place: the directory and all that is in it. */
  function Placed(b: string, t: Tree): (r: Tree)
    ensures forall p :: p in r <==> IsIn(b, p) && (|p| == 2 || p[2..] in t)
    ensures forall p :: p in r ==> IsIn(b, p) && r[p] == if |p| == 2 then Dir else t[p[2..]]
  {
    var paths := set p | p in t :: Home(b) + p;
    assert forall p :: IsIn(b, p) ==> p == Home(b) + p[2..];
    assert forall p :: p in t ==> IsIn(b, Home(b) + p) && (Home(b) + p)[2..] == p;
    assert forall p :: p == Home(b) <==> IsIn(b, p) && |p| == 2;
    assert forall p :: p in paths <==> IsIn(b, p) && p[2..] in t;
    map p | p in paths + {Home(b)} :: if |p| == 2 then Dir else t[p[2..]]
  }

  // ----- kept, not declared, dead directories

  predicate IsKept(keep: Keep, t: Tree, p: Path) {
    p in t && t[p].File? && keep(p)
  }

  predicate IsOther(keep: Keep, t: Tree, p: Path) {
    p in t && t[p].File? && !keep(p)
  }

  /** The directory of a kept file, and the directory above it. */
  ghost predicate IsAlive(keep: Keep, t: Tree, p: Path) {
    p != [] && exists f :: IsKept(keep, t, f) && (p == Parent(f) || p == Parent(Parent(f)))
  }

  ghost predicate IsDead(keep: Keep, t: Tree, p: Path) {
    p in t && t[p].Dir? && !IsAlive(keep, t, p)
  }

  // ----- one command at a time

  datatype Op = MakeDir(p: Path) | MoveCopy(b: string) | MoveFile(f: Path) | RemoveDir(d: Path)

  datatype Result = Result(disk: Disk, ok: bool)

  predicate Blocked(t: Tree, p: Path) {
    exists k :: 0 < k <= |p| && p[..k] in t && t[p[..k]].File?
  }

  /** The directory and those above it that are not there yet. */
  function NewDirs(t: Tree, p: Path): set<Path> {
    set k | 0 < k <= |p| && p[..k] !in t :: p[..k]
  }

  predicate HasChild(t: Tree, d: Path) {
    exists q :: q in t && q != [] && Parent(q) == d
  }

  /** `mv` onto an existing directory lands inside it. */
  function Target(t: Tree, f: Path): Path {
    if f != [] && f in t && t[f].Dir? then f + [f[|f| - 1]] else f
  }

  /** What the command does, and whether it succeeds; a command that fails changes nothing. */
  function Do(d: Disk, op: Op): Result {
    match op
    case MakeDir(p) =>
      if Blocked(d.aside, p) then Result(d, false)
      else Result(d.(aside := d.aside + map q | q in NewDirs(d.aside, p) :: Dir), true)
    case MoveCopy(b) =>
      if b !in d.beside || Home(b) in d.aside then Result(d, true)
      else if !IsDir(d.aside, [COPIES]) then Result(d, false)
      else Result(d.(aside := d.aside + Placed(b, d.beside[b]), beside := d.beside - {b}), true)
    case MoveFile(f) =>
      if f !in d.tree then Result(d, true)
      else
        var target := Target(d.aside, f);
        if !IsDir(d.aside, Parent(target)) || IsDir(d.aside, target) then Result(d, false)
        else Result(d.(tree := d.tree - {f}, aside := d.aside[target := d.tree[f]]), true)
    case RemoveDir(x) =>
      if x !in d.tree then Result(d, true)
      else if d.tree[x].File? || HasChild(d.tree, x) then Result(d, false)
      else Result(d.(tree := d.tree - {x}), true)
  }

  /** One task: every command of its loop, in order; it fails when one of them did. */
  function Each(d: Disk, ops: seq<Op>): Result
    decreases |ops|
  {
    if ops == [] then Result(d, true)
    else
      var r := Do(d, ops[0]);
      var rest := Each(r.disk, ops[1..]);
      Result(rest.disk, r.ok && rest.ok)
  }

  /** The tasks in order, up to the first that fails. */
  function Run(d: Disk, tasks: seq<seq<Op>>): Result
    decreases |tasks|
  {
    if tasks == [] then Result(d, true)
    else
      var r := Each(d, tasks[0]);
      if r.ok then Run(r.disk, tasks[1..]) else r
  }

  lemma {:induction false} EachOneMore(d: Disk, ops: seq<Op>, op: Op)
    ensures var r, last := Each(d, ops), Do(Each(d, ops).disk, op);
      Each(d, ops + [op]) == Result(last.disk, r.ok && last.ok)
    decreases |ops|
  {
    if ops != [] {
      assert (ops + [op])[1..] == ops[1..] + [op];
      EachOneMore(Do(d, ops[0]).disk, ops[1..], op);
    }
  }

  // ----- conservation: whatever commands of the plan have run

  /** A directory, or nothing yet. */
  predicate NotAFile(t: Tree, p: Path) {
    p in t ==> t[p].Dir?
  }

  /** The set-aside area shares no path with what is to be moved there. */
  ghost predicate NoClash(keep: Keep, d: Disk) {
    && NotAFile(d.aside, [COPIES])
    && (forall f :: IsOther(keep, d.tree, f) ==>
          f !in d.aside && !InCopies(f) && forall k :: 0 < k < |f| ==> NotAFile(d.aside, f[..k]))
    && (forall b :: b in d.beside ==> Home(b) !in d.aside)
  }

  /** For instance an undeclared file, an empty area and a copy of the folder. */
  lemma ReadyExample(keep: Keep, d: Disk, name: string, text: string, b: string)
    requires name != "_copies" && d == Disk(map[[name] := File(text)], map[], map[b := map[[name] := File(text)]])
    ensures Ready(keep, d)
  {
    assert Parent([name]) == [];
  }

  ghost predicate Ready(keep: Keep, d: Disk) {
    IsDisk(d) && NoClash(keep, d)
  }

  /** A directory the plan makes. */
  ghost predicate IsMade(keep: Keep, d: Disk, p: Path) {
    p == [COPIES] || exists f :: IsOther(keep, d.tree, f) && p < f && p != []
  }

  ghost predicate Planned(keep: Keep, d: Disk, op: Op) {
    match op
    case MakeDir(p) => p == [] || IsMade(keep, d, p)
    case MoveCopy(b) => b in d.beside
    case MoveFile(f) => IsOther(keep, d.tree, f)
    case RemoveDir(x) => IsDead(keep, d.tree, x)
  }

  /** An undeclared file is still in its place, or set aside under the same path: never both, never
      neither. */
  ghost predicate Conserved(d0: Disk, d: Disk, f: Path)
    requires f in d0.tree
  {
    || (f in d.tree && d.tree[f] == d0.tree[f] && f !in d.aside)
    || (f !in d.tree && f in d.aside && d.aside[f] == d0.tree[f])
  }

  ghost predicate CopyConserved(d0: Disk, d: Disk, b: string)
    requires b in d0.beside
  {
    || (b in d.beside && d.beside[b] == d0.beside[b] && Home(b) !in d.aside)
    || (b !in d.beside && Holds(d.aside, Placed(b, d0.beside[b])))
  }

  /** What is in the set-aside area was there, was made by the plan, or was moved there. */
  ghost predicate Accounted(keep: Keep, d0: Disk, d: Disk, p: Path)
    requires p in d.aside
  {
    || (p in d0.aside && d.aside[p] == d0.aside[p])
    || (d.aside[p].Dir? && IsMade(keep, d0, p))
    || IsOther(keep, d0.tree, p)
    || (exists b :: InMovedCopy(d0, d, b, p))
  }

  ghost predicate InMovedCopy(d0: Disk, d: Disk, b: string, p: Path) {
    b in d0.beside && b !in d.beside && IsIn(b, p)
  }

  ghost predicate Safe(keep: Keep, d0: Disk, d: Disk) {
    && IsTree(d.tree)
    && (forall p :: p in d.tree ==> p in d0.tree && d.tree[p] == d0.tree[p])
    && (forall p :: IsKept(keep, d0.tree, p) ==> p in d.tree)
    && (forall p :: p in d0.aside ==> p in d.aside && d.aside[p] == d0.aside[p])
    && (forall f :: IsOther(keep, d0.tree, f) ==> Conserved(d0, d, f))
    && d.beside.Keys <= d0.beside.Keys && (forall b :: b in d0.beside ==> CopyConserved(d0, d, b))
    && (forall p :: p in d.aside ==> Accounted(keep, d0, d, p))
  }

  lemma MadeIsNoTarget(keep: Keep, d0: Disk, p: Path)
    requires Ready(keep, d0) && IsMade(keep, d0, p)
    ensures !IsOther(keep, d0.tree, p) && (forall b :: !IsIn(b, p)) && NotAFile(d0.aside, p)
  {
    if p != [COPIES] {
      var f :| IsOther(keep, d0.tree, f) && p < f && p != [];
      assert p == f[..|p|] && !InCopies(f);
      AncestorIsDir(d0.tree, f, |p|);
    }
  }

  lemma PrefixIsMade(keep: Keep, d0: Disk, p: Path, k: nat)
    requires IsMade(keep, d0, p) && 0 < k <= |p|
    ensures IsMade(keep, d0, p[..k])
  {
  }

  /** Where a copy goes there is nothing yet. */
  lemma NothingIn(keep: Keep, d0: Disk, d: Disk, b: string, p: Path)
    requires Ready(keep, d0) && Safe(keep, d0, d) && b in d0.beside && b in d.beside && IsIn(b, p)
    ensures p !in d.aside
  {
    if p in d.aside {
      assert Accounted(keep, d0, d, p);
      if p in d0.aside {
        InsideOf(d0.aside, p, b);
      } else if IsMade(keep, d0, p) {
        MadeIsNoTarget(keep, d0, p);
      }
    }
  }

  lemma InsideOf(t: Tree, p: Path, b: string)
    requires IsTree(t) && p in t && IsIn(b, p)
    ensures Home(b) in t
  {
    assert p[..2] == Home(b);
    if |p| > 2 {
      AncestorIsDir(t, p, 2);
    } else {
      assert p == Home(b);
    }
  }

  /** What a step leaves alone in the area, and beside the folder, is as safe as it was. */
  lemma CopyStays(d0: Disk, d: Disk, d': Disk, b: string)
    requires b in d0.beside && CopyConserved(d0, d, b) && Holds(d'.aside, d.aside)
    requires (b in d'.beside <==> b in d.beside) && (b in d'.beside ==> d'.beside[b] == d.beside[b])
    requires Home(b) in d'.aside ==> Home(b) in d.aside
    ensures CopyConserved(d0, d', b)
  {
  }

  lemma StaysAccounted(keep: Keep, d0: Disk, d: Disk, d': Disk, p: Path)
    requires p in d.aside && p in d'.aside && d'.aside[p] == d.aside[p] && Accounted(keep, d0, d, p)
    requires forall b :: b in d'.beside ==> b in d.beside
    ensures Accounted(keep, d0, d', p)
  {
    if b :| InMovedCopy(d0, d, b, p) {
      assert InMovedCopy(d0, d', b, p);
    }
  }

  lemma MadeIsNotBlocked(keep: Keep, d0: Disk, d: Disk, p: Path)
    requires Ready(keep, d0) && Safe(keep, d0, d) && IsMade(keep, d0, p)
    ensures NotAFile(d.aside, p)
  {
    MadeIsNoTarget(keep, d0, p);
    if p in d.aside {
      assert Accounted(keep, d0, d, p);
    }
  }

  lemma MakeDirSafe(keep: Keep, d0: Disk, d: Disk, p: Path)
    requires Ready(keep, d0) && Safe(keep, d0, d) && Planned(keep, d0, MakeDir(p))
    ensures Safe(keep, d0, Do(d, MakeDir(p)).disk) && Do(d, MakeDir(p)).ok
  {
    forall k | 0 < k <= |p| ensures IsMade(keep, d0, p[..k]) && NotAFile(d.aside, p[..k]) {
      PrefixIsMade(keep, d0, p, k);
      MadeIsNotBlocked(keep, d0, d, p[..k]);
    }
    var news := map q | q in NewDirs(d.aside, p) :: Dir;
    DirsAddedSafe(keep, d0, d, news, d.(aside := d.aside + news));
  }

  lemma DirsAddedSafe(keep: Keep, d0: Disk, d: Disk, news: Tree, d': Disk)
    requires Ready(keep, d0) && Safe(keep, d0, d) && d' == d.(aside := d.aside + news)
    requires forall q :: q in news ==> q !in d.aside && news[q].Dir? && IsMade(keep, d0, q)
    ensures Safe(keep, d0, d')
  {
    forall f | IsOther(keep, d0.tree, f) ensures Conserved(d0, d', f) {
      assert Conserved(d0, d, f);
      if f in news {
        MadeIsNoTarget(keep, d0, f);
      }
    }
    forall b | b in d0.beside ensures CopyConserved(d0, d', b) {
      if Home(b) in news {
        MadeIsNoTarget(keep, d0, Home(b));
      }
      CopyStays(d0, d, d', b);
    }
    forall q | q in d'.aside ensures Accounted(keep, d0, d', q) {
      if q in d.aside {
        StaysAccounted(keep, d0, d, d', q);
      }
    }
  }

  lemma MoveCopySafe(keep: Keep, d0: Disk, d: Disk, b: string)
    requires Ready(keep, d0) && Safe(keep, d0, d) && b in d0.beside
    ensures Safe(keep, d0, Do(d, MoveCopy(b)).disk)
  {
    var d' := Do(d, MoveCopy(b)).disk;
    if d' != d {
      assert CopyConserved(d0, d, b);
      var copy := Placed(b, d0.beside[b]);
      forall p | p in copy ensures IsIn(b, p) && p !in d.aside {
        NothingIn(keep, d0, d, b, p);
      }
      CopyPlacedSafe(keep, d0, d, b, copy, d');
    }
  }

  lemma CopyPlacedSafe(keep: Keep, d0: Disk, d: Disk, b: string, copy: Tree, d': Disk)
    requires Ready(keep, d0) && Safe(keep, d0, d) && b in d0.beside && copy == Placed(b, d0.beside[b])
    requires forall p :: p in copy ==> IsIn(b, p) && p !in d.aside
    requires d' == d.(aside := d.aside + copy, beside := d.beside - {b})
    ensures Safe(keep, d0, d')
  {
    forall f | IsOther(keep, d0.tree, f) ensures Conserved(d0, d', f) {
      assert Conserved(d0, d, f) && !InCopies(f);
    }
    forall c | c in d0.beside ensures CopyConserved(d0, d', c) {
      if c != b {
        assert !IsIn(b, Home(c));
        CopyStays(d0, d, d', c);
      }
    }
    forall q | q in d'.aside ensures Accounted(keep, d0, d', q) {
      if q in copy {
        assert InMovedCopy(d0, d', b, q);
      } else {
        StaysAccounted(keep, d0, d, d', q);
      }
    }
  }

  lemma LeafGone(t: Tree, x: Path)
    requires IsTree(t) && forall p :: p in t ==> Parent(p) != x
    ensures IsTree(t - {x})
  {
  }

  lemma FileGone(t: Tree, f: Path)
    requires IsTree(t) && f in t && t[f].File?
    ensures IsTree(t - {f})
  {
    forall p | p in t ensures Parent(p) != f {
      assert IsDir(t, Parent(p));
    }
    LeafGone(t, f);
  }

  lemma MoveFileSafe(keep: Keep, d0: Disk, d: Disk, f: Path)
    requires Ready(keep, d0) && Safe(keep, d0, d) && IsOther(keep, d0.tree, f)
    ensures Safe(keep, d0, Do(d, MoveFile(f)).disk)
  {
    var d' := Do(d, MoveFile(f)).disk;
    assert Conserved(d0, d, f);
    if d' != d {
      FileGone(d.tree, f);
      MovedSafe(keep, d0, d, f, d');
    }
  }

  lemma MovedSafe(keep: Keep, d0: Disk, d: Disk, f: Path, d': Disk)
    requires Ready(keep, d0) && Safe(keep, d0, d) && IsOther(keep, d0.tree, f) && f in d.tree && f !in d.aside
    requires d' == d.(tree := d.tree - {f}, aside := d.aside[f := d.tree[f]]) && IsTree(d'.tree)
    ensures Safe(keep, d0, d')
  {
    forall g | IsOther(keep, d0.tree, g) ensures Conserved(d0, d', g) {
      assert Conserved(d0, d, g);
    }
    forall c | c in d0.beside ensures CopyConserved(d0, d', c) {
      assert !InCopies(f) && InCopies(Home(c));
      CopyStays(d0, d, d', c);
    }
    forall q | q in d'.aside ensures Accounted(keep, d0, d', q) {
      if q != f {
        StaysAccounted(keep, d0, d, d', q);
      }
    }
  }

  lemma RemoveDirSafe(keep: Keep, d0: Disk, d: Disk, x: Path)
    requires Ready(keep, d0) && Safe(keep, d0, d) && IsDead(keep, d0.tree, x)
    ensures Safe(keep, d0, Do(d, RemoveDir(x)).disk)
  {
    var d' := Do(d, RemoveDir(x)).disk;
    if d' != d {
      LeafGone(d.tree, x);
      forall f | IsOther(keep, d0.tree, f) ensures Conserved(d0, d', f) {
        assert Conserved(d0, d, f);
      }
      forall c | c in d0.beside ensures CopyConserved(d0, d', c) {
        CopyStays(d0, d, d', c);
      }
      forall q | q in d'.aside ensures Accounted(keep, d0, d', q) {
        StaysAccounted(keep, d0, d, d', q);
      }
    }
  }

  lemma StepSafe(keep: Keep, d0: Disk, d: Disk, op: Op)
    requires Ready(keep, d0) && Safe(keep, d0, d) && Planned(keep, d0, op)
    ensures Safe(keep, d0, Do(d, op).disk)
  {
    match op
    case MakeDir(p) => MakeDirSafe(keep, d0, d, p);
    case MoveCopy(b) => MoveCopySafe(keep, d0, d, b);
    case MoveFile(f) => MoveFileSafe(keep, d0, d, f);
    case RemoveDir(x) => RemoveDirSafe(keep, d0, d, x);
  }

  /** Nothing is lost: after any commands of the plan, in any order, cut off anywhere, every declared
      file is in place, every undeclared file is in its place or set aside, every copy of the folder
      is beside it or set aside, and what was set aside before is untouched. */
  lemma {:induction false} NothingLost(keep: Keep, d0: Disk, d: Disk, ops: seq<Op>)
    requires Ready(keep, d0) && Safe(keep, d0, d) && forall i :: 0 <= i < |ops| ==> Planned(keep, d0, ops[i])
    ensures Safe(keep, d0, Each(d, ops).disk)
    decreases |ops|
  {
    if ops != [] {
      StepSafe(keep, d0, d, ops[0]);
      NothingLost(keep, d0, Do(d, ops[0]).disk, ops[1..]);
    }
  }

  lemma SafeAtStart(keep: Keep, d: Disk)
    requires Ready(keep, d)
    ensures Safe(keep, d, d)
  {
  }

  // ----- the plan and what it reaches

  function MakeDirs(ps: seq<Path>): seq<Op> {
    seq(|ps|, i requires 0 <= i < |ps| => MakeDir(ps[i]))
  }

  function MoveCopies(bs: seq<string>): seq<Op> {
    seq(|bs|, i requires 0 <= i < |bs| => MoveCopy(bs[i]))
  }

  function MoveFiles(fs: seq<Path>): seq<Op> {
    seq(|fs|, i requires 0 <= i < |fs| => MoveFile(fs[i]))
  }

  function RemoveDirs(ds: seq<Path>): seq<Op> {
    seq(|ds|, i requires 0 <= i < |ds| => RemoveDir(ds[i]))
  }

  function Plan(places: seq<Path>, copies: seq<string>, others: seq<Path>, dead: seq<Path>): seq<seq<Op>> {
    [MakeDirs(places), MoveCopies(copies), MoveFiles(others), RemoveDirs(dead)]
  }

  ghost predicate AllOther(keep: Keep, d0: Disk, fs: seq<Path>) {
    forall i :: 0 <= i < |fs| ==> IsOther(keep, d0.tree, fs[i])
  }

  /** The area, the place of the copies, and the directory of each file to be moved, in any order. */
  ghost predicate PlacesFor(places: seq<Path>, others: seq<Path>) {
    && [] in places && [COPIES] in places
    && (forall f :: f in others ==> Parent(f) in places)
    && (forall p :: p in places ==> p == [] || p == [COPIES] || exists f :: f in others && p == Parent(f))
  }

  lemma PlacesPlanned(keep: Keep, d0: Disk, places: seq<Path>, others: seq<Path>)
    requires AllOther(keep, d0, others) && PlacesFor(places, others)
    ensures forall i :: 0 <= i < |places| ==> Planned(keep, d0, MakeDir(places[i]))
  {
    forall i | 0 <= i < |places| ensures Planned(keep, d0, MakeDir(places[i])) {
      var p := places[i];
      if p != [] && p != [COPIES] {
        assert p in places;
        var f :| f in others && p == Parent(f);
        assert IsOther(keep, d0.tree, f) && p < f;
      }
    }
  }

  lemma MakeDirWorks(keep: Keep, d0: Disk, d: Disk, p: Path)
    requires Ready(keep, d0) && Safe(keep, d0, d) && Planned(keep, d0, MakeDir(p))
    ensures var r := Do(d, MakeDir(p));
      && r.ok && Safe(keep, d0, r.disk) && IsDir(r.disk.aside, p)
      && r.disk.tree == d.tree && r.disk.beside == d.beside
      && forall q :: IsDir(d.aside, q) ==> IsDir(r.disk.aside, q)
  {
    MakeDirSafe(keep, d0, d, p);
    assert p[..|p|] == p;
  }

  lemma MakeFirst(d: Disk, ps: seq<Path>)
    requires ps != []
    ensures var r := Do(d, MakeDir(ps[0]));
      var rest := Each(r.disk, MakeDirs(ps[1..]));
      Each(d, MakeDirs(ps)) == Result(rest.disk, r.ok && rest.ok)
  {
    assert MakeDirs(ps)[1..] == MakeDirs(ps[1..]);
  }

  lemma {:induction false} MakeDirsWork(keep: Keep, d0: Disk, d: Disk, ps: seq<Path>)
    requires Ready(keep, d0) && Safe(keep, d0, d)
    requires forall i :: 0 <= i < |ps| ==> Planned(keep, d0, MakeDir(ps[i]))
    ensures var r := Each(d, MakeDirs(ps));
      && r.ok && Safe(keep, d0, r.disk) && r.disk.tree == d.tree && r.disk.beside == d.beside
      && (forall i :: 0 <= i < |ps| ==> IsDir(r.disk.aside, ps[i]))
      && (forall q :: IsDir(d.aside, q) ==> IsDir(r.disk.aside, q))
    decreases |ps|
  {
    if ps != [] {
      MakeFirst(d, ps);
      MakeDirWorks(keep, d0, d, ps[0]);
      MakeDirsWork(keep, d0, Do(d, MakeDir(ps[0])).disk, ps[1..]);
      var aside := Each(d, MakeDirs(ps)).disk.aside;
      forall i | 0 <= i < |ps| ensures IsDir(aside, ps[i]) {
        assert i > 0 ==> ps[i] == ps[1..][i - 1];
      }
    }
  }

  lemma MoveCopyEffect(keep: Keep, d0: Disk, d: Disk, b: string)
    requires Ready(keep, d0) && Safe(keep, d0, d) && IsDir(d.aside, [COPIES]) && b in d0.beside
    ensures var r := Do(d, MoveCopy(b));
      && r.ok && r.disk.tree == d.tree && r.disk.beside.Keys == d.beside.Keys - {b}
      && forall p :: IsDir(d.aside, p) ==> IsDir(r.disk.aside, p)
  {
    if b in d.beside {
      assert CopyConserved(d0, d, b);
      forall p | IsIn(b, p) ensures p !in d.aside {
        NothingIn(keep, d0, d, b, p);
      }
    }
  }

  lemma MoveCopyWorks(keep: Keep, d0: Disk, d: Disk, b: string)
    requires Ready(keep, d0) && Safe(keep, d0, d) && IsDir(d.aside, [COPIES]) && b in d0.beside
    ensures var r := Do(d, MoveCopy(b));
      && r.ok && Safe(keep, d0, r.disk) && r.disk.tree == d.tree && r.disk.beside.Keys == d.beside.Keys - {b}
      && forall p :: IsDir(d.aside, p) ==> IsDir(r.disk.aside, p)
  {
    MoveCopyEffect(keep, d0, d, b);
    MoveCopySafe(keep, d0, d, b);
  }

  lemma CopyFirst(d: Disk, bs: seq<string>)
    requires bs != []
    ensures var r := Do(d, MoveCopy(bs[0]));
      var rest := Each(r.disk, MoveCopies(bs[1..]));
      Each(d, MoveCopies(bs)) == Result(rest.disk, r.ok && rest.ok)
  {
    assert MoveCopies(bs)[1..] == MoveCopies(bs[1..]);
  }

  lemma {:induction false} MoveCopiesWork(keep: Keep, d0: Disk, d: Disk, bs: seq<string>)
    requires Ready(keep, d0) && Safe(keep, d0, d) && IsDir(d.aside, [COPIES])
    requires forall i :: 0 <= i < |bs| ==> bs[i] in d0.beside
    ensures var r := Each(d, MoveCopies(bs));
      && r.ok && Safe(keep, d0, r.disk) && r.disk.tree == d.tree
      && (forall b :: b in r.disk.beside <==> b in d.beside && b !in bs)
      && (forall p :: IsDir(d.aside, p) ==> IsDir(r.disk.aside, p))
    decreases |bs|
  {
    if bs != [] {
      CopyFirst(d, bs);
      MoveCopyWorks(keep, d0, d, bs[0]);
      var d1 := Do(d, MoveCopy(bs[0])).disk;
      MoveCopiesWork(keep, d0, d1, bs[1..]);
      assert forall b :: b in d1.beside <==> b in d1.beside.Keys;
      assert forall b :: b in bs <==> b == bs[0] || b in bs[1..];
    }
  }

  lemma MoveFileWorks(keep: Keep, d0: Disk, d: Disk, f: Path)
    requires Ready(keep, d0) && Safe(keep, d0, d) && IsOther(keep, d0.tree, f) && IsDir(d.aside, Parent(f))
    ensures var r := Do(d, MoveFile(f));
      && r.ok && Safe(keep, d0, r.disk) && r.disk.beside == d.beside
      && (forall p :: p in r.disk.tree <==> p in d.tree && p != f)
      && forall p :: IsDir(d.aside, p) ==> IsDir(r.disk.aside, p)
  {
    assert Conserved(d0, d, f);
    MoveFileSafe(keep, d0, d, f);
  }

  lemma {:induction false} MoveFilesWork(keep: Keep, d0: Disk, d: Disk, fs: seq<Path>)
    requires Ready(keep, d0) && Safe(keep, d0, d) && AllOther(keep, d0, fs)
    requires forall i :: 0 <= i < |fs| ==> IsDir(d.aside, Parent(fs[i]))
    ensures var r := Each(d, MoveFiles(fs));
      && r.ok && Safe(keep, d0, r.disk) && r.disk.beside == d.beside
      && forall p :: p in r.disk.tree <==> p in d.tree && p !in fs
    decreases |fs|
  {
    if fs != [] {
      assert MoveFiles(fs)[1..] == MoveFiles(fs[1..]);
      MoveFileWorks(keep, d0, d, fs[0]);
      var d1 := Do(d, MoveFile(fs[0])).disk;
      assert AllOther(keep, d0, fs[1..]);
      MoveFilesWork(keep, d0, d1, fs[1..]);
      assert forall p :: p in fs <==> p == fs[0] || p in fs[1..];
    }
  }

  // ----- the directories left empty

  /** A directory above a kept file. */
  ghost predicate IsAbove(keep: Keep, t: Tree, p: Path) {
    p != [] && exists f :: IsKept(keep, t, f) && p < f
  }

  /** Every directory above a kept file is one the play leaves alone. */
  ghost predicate Covered(keep: Keep, t: Tree) {
    forall p :: IsAbove(keep, t, p) ==> IsAlive(keep, t, p)
  }

  /** The list names each dead directory once, and none before what lies in it. */
  ghost predicate DeepFirst(keep: Keep, t: Tree, ds: seq<Path>) {
    && (forall p :: p in ds <==> IsDead(keep, t, p))
    && (forall i, j :: 0 <= i < j < |ds| ==> ds[i] != ds[j] && !(ds[i] < ds[j]))
  }

  /** What is left once the first i dead directories had their turn: of them, only those above a kept
      file. */
  ghost predicate LeftAfter(keep: Keep, t: Tree, ds: seq<Path>, i: nat, now: Tree)
    requires i <= |ds|
  {
    && (forall p :: p in now ==> p in t && now[p] == t[p])
    && (forall p :: p in now <==> p in t && !IsOther(keep, t, p) && (p in ds[..i] ==> IsAbove(keep, t, p)))
  }

  lemma AliveIsAbove(keep: Keep, t: Tree, p: Path) returns (f: Path)
    requires IsAlive(keep, t, p)
    ensures IsKept(keep, t, f) && p < f && |f| <= |p| + 2 && IsAbove(keep, t, p)
  {
    f :| IsKept(keep, t, f) && (p == Parent(f) || p == Parent(Parent(f)));
    var q := Parent(f);
    if p != q {
      assert p == Parent(q);
      assert |p| < |q| && p == q[..|p|];
    }
    assert p == f[..|p|];
  }

  lemma AboveParent(keep: Keep, t: Tree, c: Path)
    requires (IsKept(keep, t, c) || IsAbove(keep, t, c)) && c != []
    ensures Parent(c) == [] || IsAbove(keep, t, Parent(c))
  {
  }

  /** In the list from the i-th on. */
  predicate Later(ds: seq<Path>, i: nat, c: Path) {
    exists j :: i <= j < |ds| && ds[j] == c
  }

  lemma LaterLiesElsewhere(keep: Keep, t: Tree, ds: seq<Path>, i: nat, c: Path)
    requires DeepFirst(keep, t, ds) && i < |ds| && Later(ds, i, c) && c != []
    ensures Parent(c) != ds[i]
  {
  }

  lemma LeftLiesWell(keep: Keep, t: Tree, ds: seq<Path>, i: nat, now: Tree, c: Path)
    requires IsTree(t) && DeepFirst(keep, t, ds) && i < |ds| && LeftAfter(keep, t, ds, i, now)
    requires c in now
    ensures Parent(c) == [] || IsAbove(keep, t, Parent(c)) || Later(ds, i, c)
  {
    if IsKept(keep, t, c) || IsAbove(keep, t, c) {
      AboveParent(keep, t, c);
    } else {
      if IsAlive(keep, t, c) {
        var _ := AliveIsAbove(keep, t, c);
      }
      assert IsDead(keep, t, c);
      assert c in ds && c !in ds[..i];
    }
  }

  lemma HoldsTheNext(keep: Keep, t: Tree, x: Path) returns (c: Path)
    requires IsTree(t) && IsAbove(keep, t, x)
    ensures c in t && c != [] && Parent(c) == x && (IsKept(keep, t, c) || IsAbove(keep, t, c)) && !IsOther(keep, t, c)
  {
    var f :| IsKept(keep, t, f) && x < f;
    c := f[..|x| + 1];
    assert c[..|x|] == x;
    if |c| < |f| {
      AncestorIsDir(t, f, |c|);
      assert c < f;
    } else {
      assert c == f;
    }
  }

  /** Its turn come, a dead directory is empty exactly when it is above no kept file. */
  lemma EmptyAtItsTurn(keep: Keep, t: Tree, ds: seq<Path>, i: nat, now: Tree)
    requires IsTree(t) && DeepFirst(keep, t, ds) && i < |ds| && LeftAfter(keep, t, ds, i, now)
    ensures ds[i] in t && t[ds[i]].Dir? && ds[i] in now
    ensures HasChild(now, ds[i]) <==> IsAbove(keep, t, ds[i])
  {
    var x := ds[i];
    assert x in ds && IsDead(keep, t, x);
    assert ds[i] !in ds[..i];
    if IsAbove(keep, t, x) {
      var c := HoldsTheNext(keep, t, x);
      assert c in now;
    } else {
      forall c | c in now && c != [] ensures Parent(c) != x {
        LeftLiesWell(keep, t, ds, i, now, c);
        if Later(ds, i, c) {
          LaterLiesElsewhere(keep, t, ds, i, c);
        }
      }
    }
  }

  lemma OneMoreTurn(keep: Keep, t: Tree, ds: seq<Path>, i: nat, now: Tree, next: Tree)
    requires i < |ds| && LeftAfter(keep, t, ds, i, now)
    requires next == if IsAbove(keep, t, ds[i]) then now else now - {ds[i]}
    ensures LeftAfter(keep, t, ds, i + 1, next)
  {
    assert forall p :: p in ds[..i + 1] <==> p in ds[..i] || p == ds[i];
  }

  ghost predicate NoneAbove(keep: Keep, t: Tree, ds: seq<Path>, i: nat) {
    forall j :: i <= j < |ds| ==> !IsAbove(keep, t, ds[j])
  }

  lemma RemovalStep(keep: Keep, t: Tree, ds: seq<Path>, i: nat, d: Disk)
    requires IsTree(t) && DeepFirst(keep, t, ds) && i < |ds| && LeftAfter(keep, t, ds, i, d.tree)
    ensures var r := Do(d, RemoveDir(ds[i]));
      && LeftAfter(keep, t, ds, i + 1, r.disk.tree) && r.disk.aside == d.aside && r.disk.beside == d.beside
      && r.ok == !IsAbove(keep, t, ds[i])
  {
    EmptyAtItsTurn(keep, t, ds, i, d.tree);
    RemoveDirEffect(d, ds[i]);
    OneMoreTurn(keep, t, ds, i, d.tree, Do(d, RemoveDir(ds[i])).disk.tree);
  }

  lemma RemoveDirEffect(d: Disk, x: Path)
    requires x in d.tree && d.tree[x].Dir?
    ensures Do(d, RemoveDir(x))
        == if HasChild(d.tree, x) then Result(d, false) else Result(d.(tree := d.tree - {x}), true)
  {
  }

  /** The removals in that order leave, of the dead directories, exactly those above a kept file, and
      fail exactly when there is one. */
  lemma {:induction false} RemovalsLeave(keep: Keep, t: Tree, ds: seq<Path>, i: nat, d: Disk)
    requires IsTree(t) && DeepFirst(keep, t, ds) && i <= |ds| && LeftAfter(keep, t, ds, i, d.tree)
    ensures var r := Each(d, RemoveDirs(ds[i..]));
      && LeftAfter(keep, t, ds, |ds|, r.disk.tree) && r.disk.aside == d.aside && r.disk.beside == d.beside
      && (r.ok <==> NoneAbove(keep, t, ds, i))
    decreases |ds| - i
  {
    if i < |ds| {
      RemovalStep(keep, t, ds, i, d);
      var d1 := Do(d, RemoveDir(ds[i])).disk;
      assert RemoveDirs(ds[i..])[1..] == RemoveDirs(ds[i + 1..]);
      RemovalsLeave(keep, t, ds, i + 1, d1);
    }
  }

  // ----- the whole play

  /** What the filters over the listing of the folder hand to the tasks. */
  ghost predicate PlanFor(keep: Keep, d: Disk, places: seq<Path>, copies: seq<string>, others: seq<Path>,
      dead: seq<Path>) {
    && (forall f :: f in others <==> IsOther(keep, d.tree, f))
    && (forall b :: b in copies <==> b in d.beside)
    && PlacesFor(places, others) && DeepFirst(keep, d.tree, dead)
  }

  /** Everything not declared is in the set-aside area, under its own path. */
  ghost predicate AllAside(keep: Keep, d0: Disk, d: Disk) {
    && d.beside == map[]
    && (forall f :: IsOther(keep, d0.tree, f) ==> f !in d.tree && f in d.aside && d.aside[f] == d0.tree[f])
    && (forall b :: b in d0.beside ==> Holds(d.aside, Placed(b, d0.beside[b])))
  }

  lemma CoveredMeansNoneAbove(keep: Keep, t: Tree, ds: seq<Path>)
    requires IsTree(t) && DeepFirst(keep, t, ds)
    ensures Covered(keep, t) <==> NoneAbove(keep, t, ds, 0)
  {
    forall j | 0 <= j < |ds| ensures !IsAlive(keep, t, ds[j]) {
      assert ds[j] in ds;
    }
    forall p | IsAbove(keep, t, p) ensures IsAlive(keep, t, p) || p in ds {
      var f :| IsKept(keep, t, f) && p < f;
      AncestorIsDir(t, f, |p|);
      assert p == f[..|p|];
    }
  }

  lemma LeftAtTheEnd(keep: Keep, t: Tree, ds: seq<Path>, now: Tree, p: Path)
    requires IsTree(t) && DeepFirst(keep, t, ds) && LeftAfter(keep, t, ds, |ds|, now)
    ensures p in now <==> IsKept(keep, t, p) || IsAbove(keep, t, p)
  {
    assert ds[..|ds|] == ds;
    if IsAbove(keep, t, p) {
      var f :| IsKept(keep, t, f) && p < f;
      AncestorIsDir(t, f, |p|);
      assert p == f[..|p|];
    } else if p in t && t[p].Dir? && IsAlive(keep, t, p) {
      var _ := AliveIsAbove(keep, t, p);
    }
  }

  lemma MovesDone(keep: Keep, d: Disk, places: seq<Path>, copies: seq<string>, others: seq<Path>, dead: seq<Path>)
    returns (moved: Disk)
    requires Ready(keep, d) && PlanFor(keep, d, places, copies, others, dead)
    ensures Safe(keep, d, moved) && moved.beside == map[]
    ensures LeftAfter(keep, d.tree, dead, 0, moved.tree)
    ensures Run(d, Plan(places, copies, others, dead)) == Each(moved, RemoveDirs(dead))
  {
    SafeAtStart(keep, d);
    PlacesPlanned(keep, d, places, others);
    MakeDirsWork(keep, d, d, places);
    var made := Each(d, MakeDirs(places)).disk;
    MoveCopiesWork(keep, d, made, copies);
    var copied := Each(made, MoveCopies(copies)).disk;
    MoveFilesWork(keep, d, copied, others);
    moved := Each(copied, MoveFiles(others)).disk;
    RunFour(d, MakeDirs(places), MoveCopies(copies), MoveFiles(others), RemoveDirs(dead));
    assert forall b :: b !in copied.beside;
  }

  lemma RunFirst(d: Disk, t: seq<Op>, ts: seq<seq<Op>>)
    ensures Run(d, [t] + ts) == if Each(d, t).ok then Run(Each(d, t).disk, ts) else Each(d, t)
  {
  }

  lemma RunFour(d: Disk, a: seq<Op>, b: seq<Op>, c: seq<Op>, e: seq<Op>)
    ensures
      var d1 := Each(d, a);
      var d2 := Each(d1.disk, b);
      var d3 := Each(d2.disk, c);
      d1.ok && d2.ok && d3.ok ==> Run(d, [a, b, c, e]) == Each(d3.disk, e)
  {
    var d1 := Each(d, a);
    var d2 := Each(d1.disk, b);
    var d3 := Each(d2.disk, c);
    RunFirst(d, a, [b, c, e]);
    RunFirst(d1.disk, b, [c, e]);
    RunFirst(d2.disk, c, [e]);
    RunFirst(d3.disk, e, []);
    assert [a, b, c, e] == [a] + [b, c, e] && [b, c, e] == [b] + [c, e] && [c, e] == [c] + [e] && [e] == [e] + [];
    assert Run(Each(d3.disk, e).disk, []) == Result(Each(d3.disk, e).disk, true);
  }

  /** A run sets everything undeclared aside under its own path, and leaves the declared files and the
      directories above them; it reports failure exactly when one of those directories is neither a
      declared file's own nor the one above that. */
  lemma SetAsideExactly(keep: Keep, d: Disk, places: seq<Path>, copies: seq<string>, others: seq<Path>, dead: seq<Path>)
    requires Ready(keep, d) && PlanFor(keep, d, places, copies, others, dead)
    ensures var r := Run(d, Plan(places, copies, others, dead));
      && Safe(keep, d, r.disk) && AllAside(keep, d, r.disk)
      && (forall p :: p in r.disk.tree <==> IsKept(keep, d.tree, p) || IsAbove(keep, d.tree, p))
      && (r.ok <==> Covered(keep, d.tree))
  {
    var moved := MovesDone(keep, d, places, copies, others, dead);
    assert RemoveDirs(dead[0..]) == RemoveDirs(dead);
    RemovalsLeave(keep, d.tree, dead, 0, moved);
    CoveredMeansNoneAbove(keep, d.tree, dead);
    forall i | 0 <= i < |dead| ensures Planned(keep, d, RemoveDirs(dead)[i]) {
      assert dead[i] in dead;
    }
    NothingLost(keep, d, moved, RemoveDirs(dead));
    var end := Each(moved, RemoveDirs(dead)).disk;
    forall p ensures p in end.tree <==> IsKept(keep, d.tree, p) || IsAbove(keep, d.tree, p) {
      LeftAtTheEnd(keep, d.tree, dead, end.tree, p);
    }
    AsideAtTheEnd(keep, d, end, dead);
  }

  lemma AsideAtTheEnd(keep: Keep, d0: Disk, d: Disk, dead: seq<Path>)
    requires Safe(keep, d0, d) && d.beside == map[] && LeftAfter(keep, d0.tree, dead, |dead|, d.tree)
    ensures AllAside(keep, d0, d)
  {
    forall f | IsOther(keep, d0.tree, f) ensures f !in d.tree && f in d.aside && d.aside[f] == d0.tree[f] {
      assert Conserved(d0, d, f);
    }
    forall b | b in d0.beside ensures Holds(d.aside, Placed(b, d0.beside[b])) {
      assert CopyConserved(d0, d, b);
    }
  }

  /** Declared files at most two directories deep are enough for the removals to succeed. */
  lemma TwoDeepIsCovered(keep: Keep, t: Tree)
    requires forall f :: IsKept(keep, t, f) ==> |f| <= 3
    ensures Covered(keep, t)
  {
  }

  /** A first-level directory whose declared files all lie three directories deep or more counts as
      dead and is never empty: then the run fails, whether or not anything is undeclared. */
  lemma ThreeDeepFails(keep: Keep, t: Tree, f: Path)
    requires IsKept(keep, t, f) && |f| > 1 && forall g :: IsKept(keep, t, g) && f[..1] < g ==> |g| > 3
    ensures !Covered(keep, t)
  {
    assert f[..1] < f && IsAbove(keep, t, f[..1]);
    if IsAlive(keep, t, f[..1]) {
      var g := AliveIsAbove(keep, t, f[..1]);
      assert false;
    }
  }

  lemma ThreeDeepTree(f: Path, t: Tree)
    requires |f| == 4 && t == map[f[..1] := Dir, f[..2] := Dir, f[..3] := Dir, f := File("")]
    ensures IsTree(t) && f in t && t[f].File? && forall p :: p in t && t[p].File? ==> p == f
  {
    assert Parent(f) == f[..3] && Parent(f[..3]) == f[..2] && Parent(f[..2]) == f[..1] && Parent(f[..1]) == [];
  }

  /** Such a folder: one declared file, three directories deep. */
  lemma ThreeDeepExample(f: Path, t: Tree)
    requires |f| == 4 && t == map[f[..1] := Dir, f[..2] := Dir, f[..3] := Dir, f := File("")]
    ensures Ready(p => true, Disk(t, map[], map[])) && IsKept(p => true, t, f)
    ensures forall g :: IsKept(p => true, t, g) && f[..1] < g ==> |g| > 3
  {
    ThreeDeepTree(f, t);
  }
}
