/** The filters and the task loops of the controller-files play (playbooks/controller-files.yml): from
    the listing of the folder to the commands, and the commands one after the other. */
module ControllerPlay {

  import opened ControllerFiles

  // ----- sorting paths: by their text, letter case folded

  predicate Less(a: string, b: string) {
    b != "" && (a == "" || a[0] < b[0] || (a[0] == b[0] && Less(a[1..], b[1..])))
  }

  lemma {:induction false} LessAfter(c: string, a: string, b: string)
    ensures Less(c + a, c + b) == Less(a, b)
  {
    if c == "" {
      assert c + a == a && c + b == b;
    } else {
      assert (c + a)[1..] == c[1..] + a && (c + b)[1..] == c[1..] + b;
      LessAfter(c[1..], a, b);
    }
  }

  lemma {:induction false} LessAsymmetric(a: string, b: string)
    requires Less(a, b)
    ensures !Less(b, a)
  {
    if a != "" && a[0] == b[0] {
      LessAsymmetric(a[1..], b[1..]);
    }
  }

  lemma {:induction false} LessSplits(a: string, b: string, c: string)
    requires Less(a, c)
    ensures Less(a, b) || Less(b, c)
  {
    if a != "" && b != "" && a[0] == b[0] == c[0] {
      LessSplits(a[1..], b[1..], c[1..]);
    }
  }

  /** The text a path is sorted by: its components folded, with slashes between them. */
  function Key(fold: string -> string, p: Path): string {
    if p == [] then "" else if |p| == 1 then fold(p[0]) else fold(p[0]) + ("/" + Key(fold, p[1..]))
  }

  /** A directory sorts before what lies in it. */
  lemma {:induction false} AboveSortsFirst(fold: string -> string, p: Path, q: Path)
    requires p != [] && p < q
    ensures Less(Key(fold, p), Key(fold, q))
  {
    var c := fold(p[0]);
    var rest := "/" + Key(fold, q[1..]);
    if |p| == 1 {
      LessAfter(c, "", rest);
      assert c + "" == c;
    } else {
      AboveSortsFirst(fold, p[1..], q[1..]);
      LessAfter("/", Key(fold, p[1..]), Key(fold, q[1..]));
      LessAfter(c, "/" + Key(fold, p[1..]), rest);
    }
  }

  /** Sorting downwards may put p before q. */
  predicate MayPrecede(fold: string -> string, p: Path, q: Path) {
    !Less(Key(fold, p), Key(fold, q))
  }

  function Insert(fold: string -> string, p: Path, ps: seq<Path>): seq<Path> {
    if ps == [] || MayPrecede(fold, p, ps[0]) then [p] + ps else [ps[0]] + Insert(fold, p, ps[1..])
  }

  /** `sort(reverse=true)` */
  function SortDown(fold: string -> string, ps: seq<Path>): seq<Path> {
    if ps == [] then [] else Insert(fold, ps[0], SortDown(fold, ps[1..]))
  }

  ghost predicate Down(fold: string -> string, ps: seq<Path>) {
    forall i, j :: 0 <= i < j < |ps| ==> MayPrecede(fold, ps[i], ps[j])
  }

  lemma PrecedesThrough(fold: string -> string, p: Path, q: Path, r: Path)
    ensures MayPrecede(fold, p, q) && MayPrecede(fold, q, r) ==> MayPrecede(fold, p, r)
    ensures MayPrecede(fold, p, q) || MayPrecede(fold, q, p)
  {
    var (a, b, c) := (Key(fold, p), Key(fold, q), Key(fold, r));
    if Less(a, c) {
      LessSplits(a, b, c);
    }
    if Less(a, b) {
      LessAsymmetric(a, b);
    }
  }

  lemma {:induction false} InsertInserts(fold: string -> string, p: Path, ps: seq<Path>)
    ensures multiset(Insert(fold, p, ps)) == multiset(ps) + multiset{p}
  {
    if ps != [] {
      assert ps == [ps[0]] + ps[1..];
      InsertInserts(fold, p, ps[1..]);
    }
  }

  lemma {:induction false} InsertKeepsDown(fold: string -> string, p: Path, ps: seq<Path>)
    requires Down(fold, ps)
    ensures Down(fold, Insert(fold, p, ps))
  {
    if ps == [] {
    } else if MayPrecede(fold, p, ps[0]) {
      forall j | 0 <= j < |ps| ensures MayPrecede(fold, p, ps[j]) {
        PrecedesThrough(fold, p, ps[0], ps[j]);
      }
    } else {
      var rest := Insert(fold, p, ps[1..]);
      InsertKeepsDown(fold, p, ps[1..]);
      PrecedesThrough(fold, p, ps[0], p);
      InsertInserts(fold, p, ps[1..]);
      forall j | 0 <= j < |rest| ensures MayPrecede(fold, ps[0], rest[j]) {
        assert rest[j] in multiset(rest);
        assert rest[j] == p || rest[j] in ps[1..];
      }
    }
  }

  lemma {:induction false} SortSorts(fold: string -> string, ps: seq<Path>)
    ensures Down(fold, SortDown(fold, ps)) && multiset(SortDown(fold, ps)) == multiset(ps)
  {
    if ps != [] {
      SortSorts(fold, ps[1..]);
      InsertKeepsDown(fold, ps[0], SortDown(fold, ps[1..]));
      InsertInserts(fold, ps[0], SortDown(fold, ps[1..]));
      assert ps == [ps[0]] + ps[1..];
    }
  }

  ghost predicate Distinct(ps: seq<Path>) {
    forall i, j :: 0 <= i < j < |ps| ==> ps[i] != ps[j]
  }

  lemma SameOnce(ps: seq<Path>, qs: seq<Path>)
    requires multiset(ps) == multiset(qs) && Distinct(ps)
    ensures Distinct(qs)
  {
    forall i, j | 0 <= i < j < |qs| ensures qs[i] != qs[j] {
      if qs[i] == qs[j] {
        TwiceMeansTwo(qs, i, j);
        OnceMeansOne(ps, qs[i]);
      }
    }
  }

  lemma TwiceMeansTwo(qs: seq<Path>, i: nat, j: nat)
    requires i < j < |qs| && qs[i] == qs[j]
    ensures multiset(qs)[qs[i]] >= 2
  {
    assert qs == qs[..j] + [qs[j]] + qs[j + 1..];
    assert qs[..j][i] == qs[i];
    assert multiset(qs) == multiset(qs[..j]) + multiset{qs[j]} + multiset(qs[j + 1..]);
    assert qs[i] in multiset(qs[..j]);
  }

  lemma {:induction false} OnceMeansOne(ps: seq<Path>, p: Path)
    requires Distinct(ps)
    ensures multiset(ps)[p] <= 1
  {
    if ps != [] {
      assert ps == [ps[0]] + ps[1..];
      OnceMeansOne(ps[1..], p);
      assert p == ps[0] ==> p !in ps[1..];
    }
  }

  // ----- the filters

  function Select(ps: seq<Path>, want: Path -> bool): seq<Path> {
    if ps == [] then [] else (if want(ps[0]) then [ps[0]] else []) + Select(ps[1..], want)
  }

  lemma {:induction false} SelectSelects(ps: seq<Path>, want: Path -> bool)
    ensures forall p :: p in Select(ps, want) <==> p in ps && want(p)
    ensures Distinct(ps) ==> Distinct(Select(ps, want))
  {
    if ps != [] {
      SelectSelects(ps[1..], want);
    }
  }

  lemma {:induction false} SelectNothing(ps: seq<Path>, want: Path -> bool)
    requires forall p :: p in ps ==> !want(p)
    ensures Select(ps, want) == []
  {
    if ps != [] {
      SelectNothing(ps[1..], want);
    }
  }

  function AliveDirs(kept: seq<Path>): set<Path> {
    (set f | f in kept :: Parent(f)) + (set f | f in kept :: Parent(Parent(f))) - {[]}
  }

  function Others(keep: Keep, files: seq<Path>): seq<Path> {
    Select(files, p => !keep(p))
  }

  function DeadDirs(keep: Keep, fold: string -> string, files: seq<Path>, dirs: seq<Path>): seq<Path> {
    var alive := AliveDirs(Select(files, keep));
    SortDown(fold, Select(dirs, p => p !in alive))
  }

  function Places(others: seq<Path>): seq<Path> {
    [[], [COPIES]] + seq(|others|, i requires 0 <= i < |others| => Parent(others[i]))
  }

  /** What `find` lists: each file and each directory of the folder. */
  ghost predicate Lists(t: Tree, files: seq<Path>, dirs: seq<Path>) {
    && (forall p :: p in files <==> p in t && t[p].File?)
    && (forall p :: p in dirs <==> p in t && t[p].Dir?)
    && Distinct(dirs)
  }

  lemma AliveExactly(keep: Keep, t: Tree, files: seq<Path>, dirs: seq<Path>, p: Path)
    requires Lists(t, files, dirs)
    ensures p in AliveDirs(Select(files, keep)) <==> IsAlive(keep, t, p)
  {
    var kept := Select(files, keep);
    SelectSelects(files, keep);
    assert forall f :: f in kept <==> IsKept(keep, t, f);
  }

  /** Sorted downwards, no dead directory comes before what lies in it. */
  lemma DeadDirsDeepFirst(keep: Keep, fold: string -> string, t: Tree, files: seq<Path>, dirs: seq<Path>)
    requires IsTree(t) && Lists(t, files, dirs)
    ensures DeepFirst(keep, t, DeadDirs(keep, fold, files, dirs))
  {
    var alive := AliveDirs(Select(files, keep));
    var picked := Select(dirs, p => p !in alive);
    var ds := SortDown(fold, picked);
    SelectSelects(dirs, p => p !in alive);
    SortSorts(fold, picked);
    SameOnce(picked, ds);
    forall p ensures p in ds <==> IsDead(keep, t, p) {
      AliveExactly(keep, t, files, dirs, p);
      assert p in ds <==> p in multiset(ds);
      assert p in picked <==> p in multiset(picked);
    }
    forall i, j | 0 <= i < j < |ds| ensures !(ds[i] < ds[j]) {
      if ds[i] < ds[j] {
        assert ds[i] in ds && IsDead(keep, t, ds[i]);
        AboveSortsFirst(fold, ds[i], ds[j]);
      }
    }
  }

  lemma FiltersPlan(keep: Keep, fold: string -> string, d: Disk, files: seq<Path>, dirs: seq<Path>, copies: seq<string>)
    requires IsTree(d.tree) && Lists(d.tree, files, dirs) && forall b :: b in copies <==> b in d.beside
    ensures var others := Others(keep, files);
      PlanFor(keep, d, Places(others), copies, others, DeadDirs(keep, fold, files, dirs))
  {
    var others := Others(keep, files);
    SelectSelects(files, p => !keep(p));
    DeadDirsDeepFirst(keep, fold, d.tree, files, dirs);
    PlacesAreRight(others, Places(others));
  }

  lemma PlacesAreRight(others: seq<Path>, places: seq<Path>)
    requires places == Places(others)
    ensures PlacesFor(places, others)
  {
    assert places[0] == [] && places[1] == [COPIES];
    forall f | f in others ensures Parent(f) in places {
      var i :| 0 <= i < |others| && others[i] == f;
      assert places[i + 2] == Parent(f);
    }
    forall p | p in places ensures p == [] || p == [COPIES] || exists f :: f in others && p == Parent(f) {
      var i :| 0 <= i < |places| && places[i] == p;
      if i >= 2 {
        assert others[i - 2] in others && p == Parent(others[i - 2]);
      }
    }
  }

  /** After a set-aside run, failed or not, the next check finds nothing undeclared and no copy of the
      folder. */
  lemma NextCheckHolds(keep: Keep, fold: string -> string, d: Disk,
                       files: seq<Path>, dirs: seq<Path>, copies: seq<string>,
                       later: seq<Path>, laterDirs: seq<Path>)
    requires Ready(keep, d) && Lists(d.tree, files, dirs) && forall b :: b in copies <==> b in d.beside
    requires var others := Others(keep, files);
      Lists(Run(d, Plan(Places(others), copies, others, DeadDirs(keep, fold, files, dirs))).disk.tree, later, laterDirs)
    ensures var others := Others(keep, files);
      var r := Run(d, Plan(Places(others), copies, others, DeadDirs(keep, fold, files, dirs)));
      Others(keep, later) == [] && r.disk.beside == map[] && (r.ok <==> Covered(keep, d.tree))
  {
    var others := Others(keep, files);
    var dead := DeadDirs(keep, fold, files, dirs);
    FiltersPlan(keep, fold, d, files, dirs, copies);
    SetAsideExactly(keep, d, Places(others), copies, others, dead);
    var end := Run(d, Plan(Places(others), copies, others, dead)).disk;
    forall p | p in later ensures keep(p) {
      assert !IsOther(keep, d.tree, p);
    }
    SelectNothing(later, p => !keep(p));
  }

  /** Each copy of the folder is below `_copies`, under its own name, with all that was in it. */
  ghost predicate CopiesAreAside(beside: map<string, Tree>, aside: Tree) {
    forall b, p :: b in beside && p in beside[b] ==>
      ["_copies", b] + p in aside && aside[["_copies", b] + p] == beside[b][p]
  }

  lemma CopiesFound(keep: Keep, d0: Disk, d: Disk)
    requires IsDisk(d0) && AllAside(keep, d0, d)
    ensures CopiesAreAside(d0.beside, d.aside)
  {
    forall b, p | b in d0.beside && p in d0.beside[b]
      ensures ["_copies", b] + p in d.aside && d.aside[["_copies", b] + p] == d0.beside[b][p]
    {
      var at := Home(b) + p;
      assert p != [] && at[2..] == p && IsIn(b, at) && at in Placed(b, d0.beside[b]);
    }
  }

  // ----- the tasks

  class Controller {
    var tree: Tree
    var aside: Tree
    var beside: map<string, Tree>

    constructor (d: Disk)
      ensures Now() == d
    {
      tree, aside, beside := d.tree, d.aside, d.beside;
    }

    function Now(): Disk
      reads this
    {
      Disk(tree, aside, beside)
    }

    method Command(op: Op) returns (ok: bool)
      modifies this
      ensures Result(Now(), ok) == Do(old(Now()), op)
    {
      ok := true;
      match op {
        case MakeDir(p) =>
          if Blocked(aside, p) {
            ok := false;
          } else {
            aside := aside + map q | q in NewDirs(aside, p) :: Dir;
          }
        case MoveCopy(b) =>
          if b in beside && Home(b) !in aside {
            if IsDir(aside, [COPIES]) {
              aside := aside + Placed(b, beside[b]);
              beside := beside - {b};
            } else {
              ok := false;
            }
          }
        case MoveFile(f) =>
          if f in tree {
            var target := Target(aside, f);
            if IsDir(aside, Parent(target)) && !IsDir(aside, target) {
              aside := aside[target := tree[f]];
              tree := tree - {f};
            } else {
              ok := false;
            }
          }
        case RemoveDir(x) =>
          if x in tree {
            if tree[x].Dir? && !HasChild(tree, x) {
              tree := tree - {x};
            } else {
              ok := false;
            }
          }
      }
    }

    /** One task: its loop goes on past a command that fails. */
    method Task(ops: seq<Op>) returns (ok: bool)
      modifies this
      ensures Result(Now(), ok) == Each(old(Now()), ops)
    {
      ok := true;
      var i := 0;
      while i < |ops|
        invariant 0 <= i <= |ops|
        invariant Result(Now(), ok) == Each(old(Now()), ops[..i])
      {
        EachOneMore(old(Now()), ops[..i], ops[i]);
        assert ops[..i + 1] == ops[..i] + [ops[i]];
        var done := Command(ops[i]);
        ok := ok && done;
        i := i + 1;
      }
      assert ops[..i] == ops;
    }

    method Play(tasks: seq<seq<Op>>) returns (ok: bool)
      modifies this
      ensures Result(Now(), ok) == Run(old(Now()), tasks)
    {
      ok := true;
      var i := 0;
      while i < |tasks| && ok
        invariant 0 <= i <= |tasks|
        invariant ok ==> Run(old(Now()), tasks) == Run(Now(), tasks[i..])
        invariant !ok ==> Result(Now(), ok) == Run(old(Now()), tasks)
      {
        assert tasks[i..][1..] == tasks[i + 1..];
        ok := Task(tasks[i]);
        i := i + 1;
      }
    }

    /** The play with `controller_files_set_aside`, on the listings it took at its start. */
    method SetAside(keep: Keep, fold: string -> string, files: seq<Path>, dirs: seq<Path>, copies: seq<string>)
      returns (ok: bool)
      requires Ready(keep, Now()) && Lists(tree, files, dirs) && forall b :: b in copies <==> b in beside
      modifies this
      ensures Safe(keep, old(Now()), Now()) && AllAside(keep, old(Now()), Now())
      ensures forall p :: p in tree <==> IsKept(keep, old(tree), p) || IsAbove(keep, old(tree), p)
      ensures CopiesAreAside(old(beside), aside)
      ensures ok <==> Covered(keep, old(tree))
    {
      var others := Others(keep, files);
      var dead := DeadDirs(keep, fold, files, dirs);
      FiltersPlan(keep, fold, Now(), files, dirs, copies);
      SetAsideExactly(keep, Now(), Places(others), copies, others, dead);
      ghost var d0 := Now();
      ok := Play(Plan(Places(others), copies, others, dead));
      CopiesFound(keep, d0, Now());
    }
  }
}
