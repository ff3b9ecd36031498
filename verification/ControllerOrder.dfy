/** When setting files aside loses something in the order of the play (playbooks/controller-files.yml): the
    directories first, then the copies of the folder, then the files, then the removals. */
module ControllerOrder {
  import opened ControllerFiles
  import opened ControllerLoss

  /** The first k tasks have gone well. */
  predicate GetsTo(d: Disk, tasks: seq<seq<Op>>, k: nat)
    requires k <= |tasks|
  {
    Run(d, tasks[..k]).ok
  }

  /** They are done, and n commands of the next. */
  function AtCut(d: Disk, tasks: seq<seq<Op>>, k: nat, n: nat): Disk
    requires k < |tasks| && n <= |tasks[k]|
  {
    Each(Run(d, tasks[..k]).disk, tasks[k][..n]).disk
  }

  ghost predicate KeptAtCut(keep: Keep, d: Disk, tasks: seq<seq<Op>>, k: nat, n: nat)
    requires k < |tasks| && n <= |tasks[k]|
  {
    GetsTo(d, tasks, k) ==> KeepsContents(keep, d, AtCut(d, tasks, k, n))
  }

  /** Nothing is lost wherever the play stops. */
  ghost predicate PlayKeeps(keep: Keep, d: Disk, tasks: seq<seq<Op>>) {
    forall k, n :: 0 <= k < |tasks| && 0 <= n <= |tasks[k]| ==> KeptAtCut(keep, d, tasks, k, n)
  }

  /** The state in which the directories of the plan are there. */
  function Made(d: Disk, places: seq<Path>): Result {
    Each(d, MakeDirs(places))
  }

  // ----- a cut of the play is some commands of the plan

  lemma {:induction false} EachAppend(d: Disk, a: seq<Op>, b: seq<Op>)
    ensures Each(d, a + b).disk == Each(Each(d, a).disk, b).disk
    decreases |a|
  {
    if a == [] {
      assert a + b == b;
    } else {
      assert (a + b)[1..] == a[1..] + b;
      EachAppend(Do(d, a[0]).disk, a[1..], b);
    }
  }

  lemma CutAfterFirst(d: Disk, tasks: seq<seq<Op>>, k: nat, n: nat)
    requires 0 < k < |tasks| && n <= |tasks[k]|
    ensures var first := Each(d, tasks[0]);
      && GetsTo(d, tasks, k) == (first.ok && GetsTo(first.disk, tasks[1..], k - 1))
      && (first.ok ==> AtCut(d, tasks, k, n) == AtCut(first.disk, tasks[1..], k - 1, n))
  {
    assert tasks[..k][1..] == tasks[1..][..k - 1] && tasks[..k][0] == tasks[0];
  }

  lemma {:induction false} CutIsEach(keep: Keep, d0: Disk, d: Disk, tasks: seq<seq<Op>>, k: nat, n: nat)
    returns (ops: seq<Op>)
    requires k < |tasks| && n <= |tasks[k]| && GetsTo(d, tasks, k)
    requires forall i :: 0 <= i < |tasks| ==> AllPlanned(keep, d0, tasks[i])
    ensures AllPlanned(keep, d0, ops) && AtCut(d, tasks, k, n) == Each(d, ops).disk
    decreases k
  {
    if k == 0 {
      ops := tasks[0][..n];
    } else {
      var first := Each(d, tasks[0]).disk;
      CutAfterFirst(d, tasks, k, n);
      var rest := CutIsEach(keep, d0, first, tasks[1..], k - 1, n);
      EachAppend(d, tasks[0], rest);
      ops := tasks[0] + rest;
    }
  }

  // ----- the directories

  lemma FirstIsMade(d: Disk, p: Path, d': Disk)
    requires IsTree(d.aside) && d' == Do(d, MakeDir(p)).disk
    ensures IsTree(d'.aside) && (Do(d, MakeDir(p)).ok ==> IsDir(d'.aside, p))
  {
    if !Blocked(d.aside, p) {
      DirsAdded(d.aside, p, d'.aside);
      assert p[..|p|] == p;
    }
  }

  lemma {:induction false} MadeGrows(d: Disk, places: seq<Path>)
    requires IsTree(d.aside)
    ensures var r := Made(d, places);
      && r.disk.tree == d.tree && r.disk.beside == d.beside
      && IsTree(r.disk.aside) && Holds(r.disk.aside, d.aside)
      && (forall p :: p in r.disk.aside && p !in d.aside ==> r.disk.aside[p].Dir?)
    decreases |places|
  {
    if places != [] {
      MakeFirst(d, places);
      var d1 := Do(d, MakeDir(places[0])).disk;
      FirstIsMade(d, places[0], d1);
      MadeGrows(d1, places[1..]);
    }
  }

  lemma {:induction false} MadeAreThere(d: Disk, places: seq<Path>, i: nat)
    requires IsTree(d.aside) && Made(d, places).ok && i < |places|
    ensures IsDir(Made(d, places).disk.aside, places[i])
    decreases |places|
  {
    MakeFirst(d, places);
    var d1 := Do(d, MakeDir(places[0])).disk;
    FirstIsMade(d, places[0], d1);
    MadeGrows(d1, places[1..]);
    if i > 0 {
      MadeAreThere(d1, places[1..], i - 1);
    }
  }

  /** They can be made exactly when none of them meets a file in the area. */
  lemma {:induction false} MadeExactly(d: Disk, places: seq<Path>)
    requires IsTree(d.aside)
    ensures Made(d, places).ok <==> forall p :: p in places ==> !Blocked(d.aside, p)
    decreases |places|
  {
    if places != [] {
      MakeFirst(d, places);
      var d1 := Do(d, MakeDir(places[0])).disk;
      FirstIsMade(d, places[0], d1);
      MadeExactly(d1, places[1..]);
      forall p ensures Blocked(d1.aside, p) <==> Blocked(d.aside, p) {
      }
      assert forall p :: p in places <==> p == places[0] || p in places[1..];
    }
  }

  // ----- nothing to replace, nothing lost

  lemma KeptFrom(keep: Keep, d0: Disk, d1: Disk, d: Disk)
    requires d1.tree == d0.tree && d1.beside == d0.beside && Holds(d1.aside, d0.aside) && KeepsContents(keep, d1, d)
    ensures KeepsContents(keep, d0, d)
  {
    forall f | IsOther(keep, d0.tree, f) ensures OtherKept(d0, d, f) {
      assert OtherKept(d1, d, f);
    }
    forall b | b in d0.beside ensures CopyKept(d0, d, b) {
      assert CopyKept(d1, d, b);
    }
  }

  lemma PartOfMake(keep: Keep, d: Disk, places: seq<Path>, n: nat)
    requires IsDisk(d) && n <= |places|
    ensures KeepsContents(keep, d, Each(d, MakeDirs(places)[..n]).disk)
  {
    assert MakeDirs(places)[..n] == MakeDirs(places[..n]);
    MadeGrows(d, places[..n]);
    HoldsAtStart(keep, d);
    var now := Made(d, places[..n]).disk;
    forall f | IsOther(keep, d.tree, f) ensures OtherKept(d, now, f) {
    }
  }

  lemma TasksArePlanned(keep: Keep, d: Disk, places: seq<Path>, copies: seq<string>, others: seq<Path>,
                        dead: seq<Path>, i: nat)
    requires PlanFor(keep, d, places, copies, others, dead) && 0 < i < 4
    ensures AllPlanned(keep, d, Plan(places, copies, others, dead)[i])
  {
    forall j | 0 <= j < |copies| ensures copies[j] in d.beside {
      assert copies[j] in copies;
    }
    forall j | 0 <= j < |others| ensures IsOther(keep, d.tree, others[j]) {
      assert others[j] in others;
    }
    forall j | 0 <= j < |dead| ensures IsDead(keep, d.tree, dead[j]) {
      assert dead[j] in dead;
    }
  }

  lemma CutKeeps(keep: Keep, d: Disk, places: seq<Path>, copies: seq<string>, others: seq<Path>, dead: seq<Path>,
                 k: nat, n: nat)
    requires IsDisk(d) && PlanFor(keep, d, places, copies, others, dead)
    requires Made(d, places).ok ==> NoneReplaces(keep, Made(d, places).disk)
    requires var tasks := Plan(places, copies, others, dead); k < |tasks| && n <= |tasks[k]|
    ensures KeptAtCut(keep, d, Plan(places, copies, others, dead), k, n)
  {
    var tasks := Plan(places, copies, others, dead);
    if k == 0 {
      PartOfMake(keep, d, places, n);
    } else if GetsTo(d, tasks, k) {
      var d1 := Made(d, places).disk;
      CutAfterFirst(d, tasks, k, n);
      MadeGrows(d, places);
      forall i | 0 <= i < |tasks[1..]| ensures AllPlanned(keep, d1, tasks[1..][i]) {
        TasksArePlanned(keep, d, places, copies, others, dead, i + 1);
      }
      var ops := CutIsEach(keep, d1, d1, tasks[1..], k - 1, n);
      NothingLostExactly(keep, d1);
      KeptFrom(keep, d, d1, Each(d1, ops).disk);
    }
  }

  // ----- what is replaced is replaced in the play

  /** The copies that have no place yet are moved. */
  lemma {:induction false} CopiesLeave(d: Disk, bs: seq<string>)
    requires IsDir(d.aside, [COPIES])
    ensures var r := Each(d, MoveCopies(bs));
      && r.ok && r.disk.tree == d.tree
      && (forall b :: b in r.disk.beside ==> b in d.beside && !(b in bs && Home(b) !in d.aside))
    decreases |bs|
  {
    if bs != [] {
      CopyFirst(d, bs);
      var d1 := Do(d, MoveCopy(bs[0])).disk;
      CopiesLeave(d1, bs[1..]);
      assert forall b :: b in bs <==> b == bs[0] || b in bs[1..];
      assert forall b :: b != bs[0] ==> !IsIn(bs[0], Home(b));
    }
  }

  lemma CopiesMoved(d: Disk, places: seq<Path>, copies: seq<string>)
    requires IsTree(d.aside) && Made(d, places).ok && [COPIES] in places
    ensures var r := Each(Made(d, places).disk, MoveCopies(copies));
      && r.ok && r.disk.tree == d.tree
      && forall b :: b in r.disk.beside ==>
           b in d.beside && !(b in copies && Home(b) !in Made(d, places).disk.aside)
  {
    var i :| 0 <= i < |places| && places[i] == [COPIES];
    MadeGrows(d, places);
    MadeAreThere(d, places, i);
    CopiesLeave(Made(d, places).disk, copies);
  }

  lemma FileFirst(d: Disk, fs: seq<Path>)
    requires fs != []
    ensures var r := Do(d, MoveFile(fs[0]));
      var rest := Each(r.disk, MoveFiles(fs[1..]));
      Each(d, MoveFiles(fs)) == Result(rest.disk, r.ok && rest.ok)
  {
    assert MoveFiles(fs)[1..] == MoveFiles(fs[1..]);
  }

  lemma OneMoreFile(d: Disk, fs: seq<Path>, i: nat)
    requires i < |fs|
    ensures Each(d, MoveFiles(fs[..i + 1])).disk == Do(Each(d, MoveFiles(fs[..i])).disk, MoveFile(fs[i])).disk
  {
    assert MoveFiles(fs[..i + 1]) == MoveFiles(fs[..i]) + [MoveFile(fs[i])];
    EachOneMore(d, MoveFiles(fs[..i]), MoveFile(fs[i]));
  }

  lemma {:induction false} OthersStay(d: Disk, fs: seq<Path>, f: Path)
    requires f !in fs && f in d.tree
    ensures var now := Each(d, MoveFiles(fs)).disk;
      f in now.tree && now.tree[f] == d.tree[f] && now.beside == d.beside
    decreases |fs|
  {
    if fs != [] {
      FileFirst(d, fs);
      OthersStay(Do(d, MoveFile(fs[0])).disk, fs[1..], f);
    }
  }

  lemma {:induction false} FirstAt(fs: seq<Path>, f: Path, n: nat) returns (i: nat)
    requires n < |fs| && fs[n] == f
    ensures i <= n && fs[i] == f && f !in fs[..i]
  {
    if f in fs[..n] {
      var j :| 0 <= j < n && fs[..n][j] == f;
      i := FirstAt(fs, f, j);
    } else {
      i := n;
    }
  }

  /** The third task is reached whenever the directories are there. */
  lemma FilesTask(d: Disk, places: seq<Path>, copies: seq<string>, others: seq<Path>, dead: seq<Path>, n: nat)
    requires IsTree(d.aside) && Made(d, places).ok && [COPIES] in places && n <= |others|
    ensures var tasks := Plan(places, copies, others, dead);
      && GetsTo(d, tasks, 2)
      && AtCut(d, tasks, 2, n) == Each(Each(Made(d, places).disk, MoveCopies(copies)).disk, MoveFiles(others[..n])).disk
  {
    var tasks := Plan(places, copies, others, dead);
    CopiesMoved(d, places, copies);
    CutAfterFirst(d, tasks, 2, n);
    CutAfterFirst(Made(d, places).disk, tasks[1..], 1, n);
    assert MoveFiles(others)[..n] == MoveFiles(others[..n]);
    assert tasks[1..][1..][..0] == [];
  }

  lemma KeptInFilesTask(keep: Keep, d: Disk, places: seq<Path>, copies: seq<string>, others: seq<Path>,
                        dead: seq<Path>, n: nat)
    requires IsTree(d.aside) && Made(d, places).ok && [COPIES] in places && n <= |others|
    requires PlayKeeps(keep, d, Plan(places, copies, others, dead))
    ensures KeepsContents(keep, d,
                          Each(Each(Made(d, places).disk, MoveCopies(copies)).disk, MoveFiles(others[..n])).disk)
  {
    FilesTask(d, places, copies, others, dead, n);
    assert KeptAtCut(keep, d, Plan(places, copies, others, dead), 2, n);
  }

  /** The state before the file's turn, and the one after it. */
  lemma AroundItsTurn(keep: Keep, d: Disk, places: seq<Path>, copies: seq<string>, others: seq<Path>,
                      dead: seq<Path>, f: Path)
    returns (before: Disk, after: Disk)
    requires IsDisk(d) && PlanFor(keep, d, places, copies, others, dead) && Made(d, places).ok
    requires PlayKeeps(keep, d, Plan(places, copies, others, dead)) && IsOther(keep, d.tree, f)
    ensures after == Do(before, MoveFile(f)).disk
    ensures KeepsContents(keep, d, before) && KeepsContents(keep, d, after)
    ensures f in before.tree && before.tree[f] == d.tree[f]
    ensures forall b :: b in before.beside ==> b in d.beside && !(b in copies && Home(b) !in Made(d, places).disk.aside)
  {
    var n :| 0 <= n < |others| && others[n] == f;
    var i := FirstAt(others, f, n);
    var d2 := Each(Made(d, places).disk, MoveCopies(copies)).disk;
    CopiesMoved(d, places, copies);
    KeptInFilesTask(keep, d, places, copies, others, dead, i);
    KeptInFilesTask(keep, d, places, copies, others, dead, i + 1);
    before := Each(d2, MoveFiles(others[..i])).disk;
    after := Each(d2, MoveFiles(others[..i + 1])).disk;
    OneMoreFile(d2, others, i);
    OthersStay(d2, others[..i], f);
  }

  lemma ReplacedInPlay(keep: Keep, d: Disk, places: seq<Path>, copies: seq<string>, others: seq<Path>,
                       dead: seq<Path>, f: Path)
    requires IsDisk(d) && PlanFor(keep, d, places, copies, others, dead) && Made(d, places).ok
    requires IsOther(keep, d.tree, f) && !Harmless(Made(d, places).disk, f, d.tree[f])
    ensures !PlayKeeps(keep, d, Plan(places, copies, others, dead))
  {
    if PlayKeeps(keep, d, Plan(places, copies, others, dead)) {
      var before, after := AroundItsTurn(keep, d, places, copies, others, dead, f);
      var d1 := Made(d, places).disk;
      MadeGrows(d, places);
      if Replaces(d1.aside, f, d.tree[f]) {
        var g := Target(d1.aside, f);
        assert g in d.aside && IsDir(d.aside, Parent(g));
        SameTarget(d.aside, d1.aside, f, g);
        PutsOver(before, f, d.aside);
        assert false;
      } else {
        var b :| CanPlace(d1, b) && Replaces(Placed(b, d1.beside[b]), f, d.tree[f]);
        assert CopyKept(d, before, b) && CopyKept(d, after, b);
        CopyPutOver(before, f, b, d.beside[b]);
        assert false;
      }
    }
  }

  /** Wherever the play stops, nothing is lost if and only if the directories cannot all be made, so that it
      stops there, or no undeclared file would, once they are made, replace one with other contents. */
  lemma PlayKeepsExactly(keep: Keep, d: Disk, places: seq<Path>, copies: seq<string>, others: seq<Path>,
                         dead: seq<Path>)
    requires IsDisk(d) && PlanFor(keep, d, places, copies, others, dead)
    ensures PlayKeeps(keep, d, Plan(places, copies, others, dead))
            <==> (Made(d, places).ok ==> NoneReplaces(keep, Made(d, places).disk))
  {
    var tasks := Plan(places, copies, others, dead);
    MadeGrows(d, places);
    if Made(d, places).ok && !NoneReplaces(keep, Made(d, places).disk) {
      var f :| IsOther(keep, d.tree, f) && !Harmless(Made(d, places).disk, f, d.tree[f]);
      ReplacedInPlay(keep, d, places, copies, others, dead, f);
    } else {
      forall k, n | 0 <= k < |tasks| && 0 <= n <= |tasks[k]| ensures KeptAtCut(keep, d, tasks, k, n) {
        CutKeeps(keep, d, places, copies, others, dead, k, n);
      }
    }
  }

  // ----- how a copy is lost

  /** What is made is a place or above one. */
  lemma {:induction false} MadeWithin(d: Disk, places: seq<Path>, p: Path)
    requires p in Made(d, places).disk.aside && p !in d.aside
    ensures exists q :: q in places && p <= q
    decreases |places|
  {
    if places != [] {
      MakeFirst(d, places);
      var d1 := Do(d, MakeDir(places[0])).disk;
      if p !in d1.aside {
        MadeWithin(d1, places[1..], p);
        var q :| q in places[1..] && p <= q;
        assert q in places;
      } else {
        assert places[0] in places;
      }
    }
  }

  lemma Namesake(b: string, copy: Tree, f: Path, n: Node)
    requires IsTree(copy) && (IsIn(b, f) ==> |f| == 2)
    ensures Replaces(Placed(b, copy), f, n)
            <==> f == Home(b) && [b] in copy && copy[[b]].File? && copy[[b]] != n
  {
    assert IsIn(b, f) ==> f == Home(b);
    assert Home(b) + [b] == [COPIES, b, b] && [COPIES, b, b][2..] == [b];
  }

  /** In the order of the play a file can replace one in a copy only if it is called like the place of the copy,
      and the copy holds a file that is called like the copy. */
  lemma OnlyNamesakes(d: Disk, places: seq<Path>, others: seq<Path>, f: Path, n: Node, b: string)
    requires IsDisk(d) && PlacesFor(places, others) && Made(d, places).ok && f in others
    requires b in d.beside && Home(b) !in Made(d, places).disk.aside
    ensures Replaces(Placed(b, d.beside[b]), f, n)
            <==> f == Home(b) && [b] in d.beside[b] && d.beside[b][[b]].File? && d.beside[b][[b]] != n
  {
    if |f| > 2 && IsIn(b, f) {
      var i :| 0 <= i < |places| && places[i] == Parent(f);
      MadeAreThere(d, places, i);
      MadeGrows(d, places);
      InsideOf(Made(d, places).disk.aside, Parent(f), b);
    }
    Namesake(b, d.beside[b], f, n);
  }

  /** A folder and an empty area for which that is so: whatever the lists, the play loses the copy. */
  lemma CopyLostExample(keep: Keep, d: Disk, b: string, text: string, other: string,
                        places: seq<Path>, copies: seq<string>, others: seq<Path>, dead: seq<Path>)
    requires text != other && !keep(Home(b))
    requires d == Disk(map[[COPIES] := Dir, Home(b) := File(text)], map[], map[b := map[[b] := File(other)]])
    requires PlanFor(keep, d, places, copies, others, dead)
    ensures IsDisk(d) && !PlayKeeps(keep, d, Plan(places, copies, others, dead))
  {
    assert Parent(Home(b)) == [COPIES] && Parent([COPIES]) == [] && Parent([b]) == [] && Home(b) != [COPIES];
    MadeExactly(d, places);
    MadeGrows(d, places);
    var d1 := Made(d, places).disk;
    assert Home(b) !in d1.aside by {
      if Home(b) in d1.aside {
        MadeWithin(d, places, Home(b));
      }
    }
    assert CanPlace(d1, b) by {
      assert [COPIES] in d1.aside ==> d1.aside[[COPIES]].Dir?;
    }
    OnlyNamesakes(d, places, others, Home(b), File(text), b);
    ReplacedInPlay(keep, d, places, copies, others, dead, Home(b));
  }
}
