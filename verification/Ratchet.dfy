/** The embedded-scripts ratchet (`ratchet`, `totals` and the `--ratchet` path of
    scripts/check_no_embedded_scripts.py): counts per category and file that may only go down. */
module Ratchet {

  datatype Category =
    | ShellTasks | ScriptModule | RawModule | InlineInterpreters | ScriptFiles | ConsolePrograms | PipeLookups

  type File = string

  type Counts = map<File, nat>

  /** A baseline may lack a category; what is found has them all. */
  type Table = map<Category, Counts>

  const CATEGORIES := [ShellTasks, ScriptModule, RawModule, InlineInterpreters, ScriptFiles, ConsolePrograms,
      PipeLookups]

  function In(m: Counts, f: File): nat {
    if f in m then m[f] else 0
  }

  function Row(t: Table, c: Category): Counts {
    if c in t then t[c] else map[]
  }

  function Count(t: Table, c: Category, f: File): nat {
    In(Row(t, c), f)
  }

  lemma EveryCategory(c: Category)
    ensures c in CATEGORIES
  {
  }

  // ----- one comparison

  datatype Rise = Rise(category: Category, file: File, count: nat, allowed: nat)

  function RisesAmong(m: Counts, allowed: Counts, c: Category, files: set<File>): set<Rise> {
    set f | f in files && In(m, f) > In(allowed, f) :: Rise(c, f, In(m, f), In(allowed, f))
  }

  function Rises(found: Table, baseline: Table, c: Category): set<Rise> {
    RisesAmong(Row(found, c), Row(baseline, c), c, Row(found, c).Keys)
  }

  function AllRises(found: Table, baseline: Table, cs: seq<Category>): set<Rise> {
    if cs == [] then {} else AllRises(found, baseline, cs[..|cs| - 1]) + Rises(found, baseline, cs[|cs| - 1])
  }

  predicate FellAmong(m: Counts, allowed: Counts, files: set<File>) {
    exists f :: f in files && In(m, f) < In(allowed, f)
  }

  predicate FellIn(found: Table, baseline: Table, c: Category) {
    FellAmong(Row(found, c), Row(baseline, c), Row(baseline, c).Keys)
  }

  predicate Fell(found: Table, baseline: Table, cs: seq<Category>) {
    exists i :: 0 <= i < |cs| && FellIn(found, baseline, cs[i])
  }

  lemma RisesMore(m: Counts, allowed: Counts, c: Category, files: set<File>, f: File)
    ensures RisesAmong(m, allowed, c, files + {f})
            == RisesAmong(m, allowed, c, files)
               + if In(m, f) > In(allowed, f) then {Rise(c, f, In(m, f), In(allowed, f))} else {}
  {
  }

  method RoseInRow(m: Counts, allowed: Counts, c: Category) returns (rose: set<Rise>)
    ensures rose == RisesAmong(m, allowed, c, m.Keys)
  {
    rose := {};
    var todo := m.Keys;
    while todo != {}
      invariant todo <= m.Keys
      invariant rose == RisesAmong(m, allowed, c, m.Keys - todo)
    {
      var f :| f in todo;
      assert m.Keys - (todo - {f}) == (m.Keys - todo) + {f};
      RisesMore(m, allowed, c, m.Keys - todo, f);
      todo := todo - {f};
      if m[f] > In(allowed, f) {
        rose := rose + {Rise(c, f, m[f], In(allowed, f))};
      }
    }
  }

  method FellInRow(m: Counts, allowed: Counts) returns (fell: bool)
    ensures fell <==> FellAmong(m, allowed, allowed.Keys)
  {
    fell := false;
    var todo := allowed.Keys;
    while todo != {}
      invariant todo <= allowed.Keys
      invariant fell <==> FellAmong(m, allowed, allowed.Keys - todo)
    {
      var f :| f in todo;
      assert allowed.Keys - (todo - {f}) == (allowed.Keys - todo) + {f};
      todo := todo - {f};
      if In(m, f) < allowed[f] {
        assert In(m, f) < In(allowed, f);
        fell := true;
      }
    }
  }

  /** What rose, and whether anything went down. */
  method Ratchet(found: Table, baseline: Table) returns (rose: set<Rise>, fell: bool)
    requires forall c :: c in found
    ensures rose == AllRises(found, baseline, CATEGORIES) && (fell <==> Fell(found, baseline, CATEGORIES))
    ensures forall r :: r in rose <==>
      && r.count == Count(found, r.category, r.file) && r.allowed == Count(baseline, r.category, r.file)
      && r.count > r.allowed
    ensures fell <==> exists c, f :: Count(found, c, f) < Count(baseline, c, f)
  {
    rose, fell := {}, false;
    for i := 0 to |CATEGORIES|
      invariant rose == AllRises(found, baseline, CATEGORIES[..i])
      invariant fell <==> Fell(found, baseline, CATEGORIES[..i])
    {
      assert CATEGORIES[..i + 1] == CATEGORIES[..i] + [CATEGORIES[i]];
      var allowed := Row(baseline, CATEGORIES[i]);
      var up := RoseInRow(found[CATEGORIES[i]], allowed, CATEGORIES[i]);
      var down := FellInRow(found[CATEGORIES[i]], allowed);
      FellMore(found, baseline, CATEGORIES[..i], CATEGORIES[i]);
      rose := rose + up;
      fell := fell || down;
    }
    assert CATEGORIES[..|CATEGORIES|] == CATEGORIES;
    forall r ensures r in rose <==>
        && r.count == Count(found, r.category, r.file) && r.allowed == Count(baseline, r.category, r.file)
        && r.count > r.allowed
    {
      RisesExactly(found, baseline, CATEGORIES, r);
      EveryCategory(r.category);
    }
    SomethingFell(found, baseline);
  }

  /** A rise is a count above the one allowed, with both. */
  lemma {:induction false} RisesExactly(found: Table, baseline: Table, cs: seq<Category>, r: Rise)
    ensures r in AllRises(found, baseline, cs) <==>
      && r.category in cs && r.count == Count(found, r.category, r.file)
      && r.allowed == Count(baseline, r.category, r.file) && r.count > r.allowed
  {
    if cs != [] {
      var last := |cs| - 1;
      RisesExactly(found, baseline, cs[..last], r);
      assert r.category in cs <==> r.category in cs[..last] || r.category == cs[last];
    }
  }

  lemma FellMore(found: Table, baseline: Table, cs: seq<Category>, c: Category)
    ensures Fell(found, baseline, cs + [c]) <==> Fell(found, baseline, cs) || FellIn(found, baseline, c)
  {
    var more := cs + [c];
    assert more[|cs|] == c;
    forall i | 0 <= i < |cs| ensures more[i] == cs[i] {
    }
  }

  lemma {:induction false} RisesAnywhere(found: Table, baseline: Table, cs: seq<Category>)
    ensures AllRises(found, baseline, cs) == {}
            <==> forall c, f :: c in cs ==> Count(found, c, f) <= Count(baseline, c, f)
  {
    if cs != [] {
      var front, c := cs[..|cs| - 1], cs[|cs| - 1];
      RisesAnywhere(found, baseline, front);
      assert cs == front + [c];
      RisesInRow(found, baseline, c);
    }
  }

  lemma RisesInRow(found: Table, baseline: Table, c: Category)
    ensures Rises(found, baseline, c) == {} <==> forall f :: Count(found, c, f) <= Count(baseline, c, f)
  {
    if f :| Count(found, c, f) > Count(baseline, c, f) {
      assert f in Row(found, c);
      assert Rise(c, f, Count(found, c, f), Count(baseline, c, f)) in Rises(found, baseline, c);
    }
    if r :| r in Rises(found, baseline, c) {
      assert Count(found, c, r.file) > Count(baseline, c, r.file);
    }
  }

  predicate Agrees(found: Table, baseline: Table) {
    AllRises(found, baseline, CATEGORIES) == {} && !Fell(found, baseline, CATEGORIES)
  }

  lemma NothingRose(found: Table, baseline: Table)
    ensures AllRises(found, baseline, CATEGORIES) == {} <==> forall c, f :: Count(found, c, f) <= Count(baseline, c, f)
  {
    RisesAnywhere(found, baseline, CATEGORIES);
    forall c: Category ensures c in CATEGORIES {
      EveryCategory(c);
    }
  }

  lemma SomethingFell(found: Table, baseline: Table)
    ensures Fell(found, baseline, CATEGORIES) <==> exists c, f :: Count(found, c, f) < Count(baseline, c, f)
  {
    if Fell(found, baseline, CATEGORIES) {
      var i :| 0 <= i < |CATEGORIES| && FellIn(found, baseline, CATEGORIES[i]);
      var f :| f in Row(baseline, CATEGORIES[i]).Keys
          && In(Row(found, CATEGORIES[i]), f) < In(Row(baseline, CATEGORIES[i]), f);
      assert Count(found, CATEGORIES[i], f) < Count(baseline, CATEGORIES[i], f);
    }
    if c, f :| Count(found, c, f) < Count(baseline, c, f) {
      EveryCategory(c);
      assert f in Row(baseline, c) && FellIn(found, baseline, c);
      var i :| 0 <= i < |CATEGORIES| && CATEGORIES[i] == c;
    }
  }

  /** Nothing rose and nothing went down exactly when every file has the count the baseline has. */
  lemma AgreesExactly(found: Table, baseline: Table)
    ensures Agrees(found, baseline) <==> forall c, f :: Count(found, c, f) == Count(baseline, c, f)
  {
    NothingRose(found, baseline);
    SomethingFell(found, baseline);
    if Agrees(found, baseline) {
      forall c, f ensures Count(found, c, f) == Count(baseline, c, f) {
      }
    }
  }

  // ----- totals

  ghost function Sum(m: Counts): nat
    decreases |m|
  {
    if m == map[] then 0
    else
      var f :| f in m;
      m[f] + Sum(m - {f})
  }

  lemma {:induction false} SumWithout(m: Counts, f: File)
    requires f in m
    ensures Sum(m) == m[f] + Sum(m - {f})
    decreases |m|
  {
    var g :| g in m && Sum(m) == m[g] + Sum(m - {g});
    if g != f {
      SumWithout(m - {g}, f);
      SumWithout(m - {f}, g);
      assert m - {g} - {f} == m - {f} - {g};
    }
  }

  lemma InWithout(m: Counts, f: File)
    ensures forall g :: In(m - {f}, g) == if g == f then 0 else In(m, g)
  {
  }

  lemma SumSplit(m: Counts, f: File)
    ensures Sum(m) == In(m, f) + Sum(m - {f})
  {
    if f in m {
      SumWithout(m, f);
    } else {
      assert m - {f} == m;
    }
  }

  /** Counts that are nowhere higher have no higher sum, and a lower one when one of them is lower. */
  lemma {:induction false} SumGoesDown(m: Counts, n: Counts)
    requires forall f :: In(m, f) <= In(n, f)
    ensures Sum(m) <= Sum(n) && ((exists f :: In(m, f) < In(n, f)) ==> Sum(m) < Sum(n))
    decreases |n|
  {
    if n == map[] {
      SumOfZeros(m);
    } else {
      var f :| f in n;
      InWithout(m, f);
      InWithout(n, f);
      SumSplit(m, f);
      SumSplit(n, f);
      SumGoesDown(m - {f}, n - {f});
      if g :| In(m, g) < In(n, g) && g != f {
        assert In(m - {f}, g) < In(n - {f}, g);
      }
    }
  }

  lemma {:induction false} SumOfZeros(m: Counts)
    requires forall f :: In(m, f) == 0
    ensures Sum(m) == 0
    decreases |m|
  {
    if m != map[] {
      var f :| f in m;
      InWithout(m, f);
      SumSplit(m, f);
      SumOfZeros(m - {f});
    }
  }

  /** The sum of `totals` over the categories. */
  ghost function Total(t: Table, cs: seq<Category>): nat {
    if cs == [] then 0 else Total(t, cs[..|cs| - 1]) + Sum(Row(t, cs[|cs| - 1]))
  }

  lemma {:induction false} TotalGoesDown(s: Table, t: Table, cs: seq<Category>)
    requires forall c, f :: Count(s, c, f) <= Count(t, c, f)
    ensures Total(s, cs) <= Total(t, cs)
    ensures (exists c, f :: c in cs && Count(s, c, f) < Count(t, c, f)) ==> Total(s, cs) < Total(t, cs)
  {
    if cs != [] {
      var front, c := cs[..|cs| - 1], cs[|cs| - 1];
      TotalGoesDown(s, t, front);
      assert cs == front + [c];
      forall f ensures In(Row(s, c), f) <= In(Row(t, c), f) {
        assert Count(s, c, f) <= Count(t, c, f);
      }
      SumGoesDown(Row(s, c), Row(t, c));
      if d, f :| d in cs && Count(s, d, f) < Count(t, d, f) {
        if d == c {
          assert In(Row(s, c), f) < In(Row(t, c), f);
        } else {
          assert d in front;
        }
      }
    }
  }

  // ----- runs

  /** The baseline after one `--ratchet` run on what is found. */
  function Step(baseline: Table, found: Table): Table {
    if AllRises(found, baseline, CATEGORIES) == {} && Fell(found, baseline, CATEGORIES) then found else baseline
  }

  predicate Rewrites(baseline: Table, found: Table) {
    AllRises(found, baseline, CATEGORIES) == {} && Fell(found, baseline, CATEGORIES)
  }

  /** The baseline after a run on each tree in turn. */
  function Runs(baseline: Table, trees: seq<Table>): Table
    decreases |trees|
  {
    if trees == [] then baseline else Runs(Step(baseline, trees[0]), trees[1..])
  }

  function RewriteCount(baseline: Table, trees: seq<Table>): nat
    decreases |trees|
  {
    if trees == [] then 0
    else (if Rewrites(baseline, trees[0]) then 1 else 0) + RewriteCount(Step(baseline, trees[0]), trees[1..])
  }

  lemma StepNeverRises(baseline: Table, found: Table)
    ensures forall c, f :: Count(Step(baseline, found), c, f) <= Count(baseline, c, f)
    ensures Total(Step(baseline, found), CATEGORIES) + (if Rewrites(baseline, found) then 1 else 0)
         <= Total(baseline, CATEGORIES)
  {
    if Rewrites(baseline, found) {
      NothingRose(found, baseline);
      SomethingFell(found, baseline);
      var c, f :| Count(found, c, f) < Count(baseline, c, f);
      EveryCategory(c);
      TotalGoesDown(found, baseline, CATEGORIES);
    }
  }

  /** Over any runs on any trees the baseline rises for no category and file, and each rewriting takes
      at least one off its total: it is rewritten at most as often as its first total. */
  lemma {:induction false} BaselineOnlyGoesDown(baseline: Table, trees: seq<Table>)
    ensures forall c, f :: Count(Runs(baseline, trees), c, f) <= Count(baseline, c, f)
    ensures RewriteCount(baseline, trees) + Total(Runs(baseline, trees), CATEGORIES) <= Total(baseline, CATEGORIES)
    decreases |trees|
  {
    if trees != [] {
      var next := Step(baseline, trees[0]);
      StepNeverRises(baseline, trees[0]);
      BaselineOnlyGoesDown(next, trees[1..]);
      forall c, f ensures Count(Runs(baseline, trees), c, f) <= Count(baseline, c, f) {
        assert Count(Runs(next, trees[1..]), c, f) <= Count(next, c, f) <= Count(baseline, c, f);
      }
    }
  }

  lemma {:induction false} RunsInTwoParts(baseline: Table, trees: seq<Table>, i: nat)
    requires i <= |trees|
    ensures Runs(baseline, trees) == Runs(Runs(baseline, trees[..i]), trees[i..])
    decreases |trees|
  {
    if i > 0 {
      assert trees[..i][0] == trees[0] && trees[..i][1..] == trees[1..][..i - 1] && trees[1..][i - 1..] == trees[i..];
      RunsInTwoParts(Step(baseline, trees[0]), trees[1..], i - 1);
    }
  }

  /** At every moment of a history the baseline is nowhere above what it was at an earlier one. */
  lemma NeverAboveEarlier(baseline: Table, trees: seq<Table>, i: nat, j: nat, c: Category, f: File)
    requires i <= j <= |trees|
    ensures Count(Runs(baseline, trees[..j]), c, f) <= Count(Runs(baseline, trees[..i]), c, f)
  {
    assert trees[..j][..i] == trees[..i];
    RunsInTwoParts(baseline, trees[..j], i);
    BaselineOnlyGoesDown(Runs(baseline, trees[..i]), trees[..j][i..]);
  }

  /** A tree with a rise leaves the baseline; any other tree is its own fixed point: once the run has
      rewritten the baseline, the same tree passes. */
  lemma RunAgain(baseline: Table, found: Table)
    ensures (exists c, f :: Count(found, c, f) > Count(baseline, c, f)) ==> Step(baseline, found) == baseline
    ensures (forall c, f :: Count(found, c, f) <= Count(baseline, c, f)) ==> Agrees(found, Step(baseline, found))
  {
    NothingRose(found, baseline);
    AgreesExactly(found, found);
  }

  class Guard {
    var baseline: Table

    constructor (b: Table)
      ensures baseline == b
    {
      baseline := b;
    }

    /** `--ratchet`: the exit code is 1 when anything rose or went down. */
    method Run(found: Table) returns (code: int)
      requires forall c :: c in found
      modifies this
      ensures baseline == Step(old(baseline), found)
      ensures code == 0 <==> forall c, f :: Count(found, c, f) == Count(old(baseline), c, f)
      ensures code == 0 || code == 1
    {
      AgreesExactly(found, baseline);
      var rose, fell := Ratchet(found, baseline);
      if rose != {} {
        return 1;
      }
      if fell {
        baseline := found;
        return 1;
      }
      return 0;
    }
  }
}
