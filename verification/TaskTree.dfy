/** Walking a playbook's tasks (`_tasks` of scripts/check_no_embedded_scripts.py): every mapping at task
    level, through plays, blocks and handlers, is reached once. */
module TaskTree {

  import opened Basics

  datatype Entry = Entry(key: string, value: Yaml)

  /** A document as it is loaded; a mapping has each key once. */
  datatype Yaml = Scalar(text: string) | List(items: seq<Yaml>) | Mapping(entries: seq<Entry>)

  const STRUCTURE := ["tasks", "pre_tasks", "post_tasks", "handlers", "block", "rescue", "always"]

  ghost predicate IsFirst(entries: seq<Entry>, i: int, key: string) {
    0 <= i < |entries| && entries[i].key == key && forall k :: 0 <= k < i ==> entries[k].key != key
  }

  function Index(entries: seq<Entry>, key: string): (i: Option<nat>)
    ensures i.Some? ==> i.value < |entries| && IsFirst(entries, i.value, key)
    ensures i.None? ==> forall k :: 0 <= k < |entries| ==> entries[k].key != key
  {
    if entries == [] then None
    else if entries[0].key == key then Some(0)
    else match Index(entries[1..], key) case Some(i) => Some(i + 1) case None => None
  }

  /** What a mapping holds under a structural key. */
  function Child(item: Yaml, key: nat): (c: Option<Yaml>)
    requires item.Mapping? && key < |STRUCTURE|
    ensures c.Some? ==> c.value < item
  {
    match Index(item.entries, STRUCTURE[key])
    case Some(at) => Some(item.entries[at].value)
    case None => None
  }

  // ----- the walk

  /** What the generator yields. */
  function Tasks(node: Yaml): seq<Yaml>
    decreases node, 2, 0
  {
    if node.List? then TasksOfItems(node, |node.items|) else []
  }

  function TasksOfItems(node: Yaml, n: nat): seq<Yaml>
    requires node.List? && n <= |node.items|
    decreases node, 1, n
  {
    if n == 0 then []
    else
      var item := node.items[n - 1];
      TasksOfItems(node, n - 1) + if item.Mapping? then [item] + TasksUnder(item, |STRUCTURE|) else []
  }

  function TasksUnder(item: Yaml, n: nat): seq<Yaml>
    requires item.Mapping? && n <= |STRUCTURE|
    decreases item, 3, n
  {
    if n == 0 then []
    else
      var child := Child(item, n - 1);
      TasksUnder(item, n - 1) + if child.Some? then Tasks(child.value) else []
  }

  // ----- positions

  /** The item of a list, or a position in what one of that item's structural keys holds. */
  datatype Pos = Item(index: nat) | Under(index: nat, key: nat, rest: Pos)

  /** The mapping at a position, if there is one. */
  function At(node: Yaml, p: Pos): Option<Yaml> {
    if !node.List? || p.index >= |node.items| || !node.items[p.index].Mapping? then None
    else
      var item := node.items[p.index];
      match p
      case Item(_) => Some(item)
      case Under(_, key, rest) =>
        if key >= |STRUCTURE| then None
        else
          match Child(item, key)
          case Some(below) => At(below, rest)
          case None => None
  }

  function Beneath(index: nat, key: nat, ps: seq<Pos>): seq<Pos> {
    seq(|ps|, i requires 0 <= i < |ps| => Under(index, key, ps[i]))
  }

  /** The positions in the order the generator comes by. */
  function Walk(node: Yaml): seq<Pos>
    decreases node, 2, 0
  {
    if node.List? then WalkItems(node, |node.items|) else []
  }

  function WalkItems(node: Yaml, n: nat): seq<Pos>
    requires node.List? && n <= |node.items|
    decreases node, 1, n
  {
    if n == 0 then []
    else
      var item := node.items[n - 1];
      WalkItems(node, n - 1) + if item.Mapping? then [Item(n - 1)] + WalkUnder(item, n - 1, |STRUCTURE|) else []
  }

  function WalkUnder(item: Yaml, index: nat, n: nat): seq<Pos>
    requires item.Mapping? && n <= |STRUCTURE|
    decreases item, 3, n
  {
    if n == 0 then []
    else
      var child := Child(item, n - 1);
      WalkUnder(item, index, n - 1)
      + if child.Some? then Beneath(index, n - 1, Walk(child.value)) else []
  }

  /** The i-th position holds the i-th mapping. */
  ghost predicate Matches(node: Yaml, ps: seq<Pos>, ts: seq<Yaml>) {
    |ps| == |ts| && forall i :: 0 <= i < |ps| ==> At(node, ps[i]) == Some(ts[i])
  }

  lemma MatchesAppend(node: Yaml, ps: seq<Pos>, ts: seq<Yaml>, qs: seq<Pos>, us: seq<Yaml>)
    requires Matches(node, ps, ts) && Matches(node, qs, us)
    ensures Matches(node, ps + qs, ts + us)
  {
  }

  /** Each yielded mapping is the one at the position walked to at that moment. */
  lemma {:induction false} WalkFinds(node: Yaml)
    ensures Matches(node, Walk(node), Tasks(node))
    decreases node, 2, 0
  {
    if node.List? {
      WalkItemsFinds(node, |node.items|);
    }
  }

  lemma {:induction false} WalkItemsFinds(node: Yaml, n: nat)
    requires node.List? && n <= |node.items|
    ensures Matches(node, WalkItems(node, n), TasksOfItems(node, n))
    decreases node, 1, n
  {
    if n > 0 {
      WalkItemsFinds(node, n - 1);
      var item := node.items[n - 1];
      if item.Mapping? {
        WalkUnderFinds(node, n - 1, |STRUCTURE|);
        var ps, ts := WalkUnder(item, n - 1, |STRUCTURE|), TasksUnder(item, |STRUCTURE|);
        MatchesAppend(node, [Item(n - 1)], [item], ps, ts);
        MatchesAppend(node, WalkItems(node, n - 1), TasksOfItems(node, n - 1), [Item(n - 1)] + ps, [item] + ts);
      } else {
        MatchesAppend(node, WalkItems(node, n - 1), TasksOfItems(node, n - 1), [], []);
      }
    }
  }

  lemma {:induction false} WalkUnderFinds(node: Yaml, index: nat, n: nat)
    requires node.List? && index < |node.items| && node.items[index].Mapping? && n <= |STRUCTURE|
    ensures Matches(node, WalkUnder(node.items[index], index, n), TasksUnder(node.items[index], n))
    decreases node.items[index], 3, n
  {
    if n > 0 {
      var item := node.items[index];
      WalkUnderFinds(node, index, n - 1);
      var before, done := WalkUnder(item, index, n - 1), TasksUnder(item, n - 1);
      var child := Child(item, n - 1);
      if child.Some? {
        var below := child.value;
        WalkFinds(below);
        var ps := Beneath(index, n - 1, Walk(below));
        forall i | 0 <= i < |ps| ensures At(node, ps[i]) == Some(Tasks(below)[i]) {
          assert At(node, ps[i]) == At(below, Walk(below)[i]);
        }
        MatchesAppend(node, before, done, ps, Tasks(below));
      } else {
        MatchesAppend(node, before, done, [], []);
      }
    }
  }

  ghost predicate Distinct(ps: seq<Pos>) {
    forall i, j :: 0 <= i < j < |ps| ==> ps[i] != ps[j]
  }

  lemma DistinctAppends(ps: seq<Pos>, qs: seq<Pos>)
    requires Distinct(ps) && Distinct(qs) && forall p :: p in ps ==> p !in qs
    ensures Distinct(ps + qs)
  {
    var all := ps + qs;
    forall i, j | 0 <= i < j < |all| ensures all[i] != all[j] {
      if i < |ps| <= j {
        assert all[i] in ps && all[j] in qs;
      }
    }
  }

  /** The walk comes by every position that holds a mapping, and by none twice. */
  lemma {:induction false} WalkIsExact(node: Yaml)
    ensures forall p :: p in Walk(node) <==> At(node, p).Some?
    ensures Distinct(Walk(node))
    decreases node, 2, 0
  {
    if node.List? {
      WalkItemsIsExact(node, |node.items|);
    }
  }

  lemma {:induction false} WalkItemsIsExact(node: Yaml, n: nat)
    requires node.List? && n <= |node.items|
    ensures forall p :: p in WalkItems(node, n) <==> p.index < n && At(node, p).Some?
    ensures Distinct(WalkItems(node, n))
    decreases node, 1, n
  {
    if n > 0 {
      WalkItemsIsExact(node, n - 1);
      var item := node.items[n - 1];
      if item.Mapping? {
        WalkUnderIsExact(node, n - 1, |STRUCTURE|);
        var ps := WalkUnder(item, n - 1, |STRUCTURE|);
        DistinctAppends([Item(n - 1)], ps);
        DistinctAppends(WalkItems(node, n - 1), [Item(n - 1)] + ps);
      }
    }
  }

  lemma {:induction false} WalkUnderIsExact(node: Yaml, index: nat, n: nat)
    requires node.List? && index < |node.items| && node.items[index].Mapping? && n <= |STRUCTURE|
    ensures forall p :: p in WalkUnder(node.items[index], index, n)
                        <==> p.Under? && p.index == index && p.key < n && At(node, p).Some?
    ensures Distinct(WalkUnder(node.items[index], index, n))
    decreases node.items[index], 3, n
  {
    if n > 0 {
      var item := node.items[index];
      WalkUnderIsExact(node, index, n - 1);
      var child := Child(item, n - 1);
      if child.Some? {
        var below := child.value;
        WalkIsExact(below);
        var ps := Beneath(index, n - 1, Walk(below));
        KeyIsExact(node, index, n - 1, below);
        DistinctAppends(WalkUnder(item, index, n - 1), ps);
      }
    }
  }

  lemma KeyIsExact(node: Yaml, index: nat, key: nat, below: Yaml)
    requires node.List? && index < |node.items| && node.items[index].Mapping? && key < |STRUCTURE|
    requires Child(node.items[index], key) == Some(below)
    requires Distinct(Walk(below)) && forall q :: q in Walk(below) <==> At(below, q).Some?
    ensures forall p: Pos :: p in Beneath(index, key, Walk(below))
                             <==> p.Under? && p.index == index && p.key == key && At(node, p).Some?
    ensures Distinct(Beneath(index, key, Walk(below)))
  {
    BeneathIsExact(index, key, Walk(below));
    forall p: Pos | p.Under? && p.index == index && p.key == key ensures At(node, p) == At(below, p.rest) {
    }
  }

  lemma BeneathIsExact(index: nat, key: nat, ps: seq<Pos>)
    requires Distinct(ps)
    ensures Distinct(Beneath(index, key, ps))
    ensures forall p :: p in Beneath(index, key, ps) <==> p.Under? && p.index == index && p.key == key && p.rest in ps
  {
    forall p: Pos | p.Under? && p.index == index && p.key == key && p.rest in ps ensures p in Beneath(index, key, ps) {
      var i :| 0 <= i < |ps| && ps[i] == p.rest;
      assert Beneath(index, key, ps)[i] == p;
    }
  }

  // ----- the positions, by themselves

  ghost predicate IsStructural(key: nat, name: string) {
    match key
    case 0 => name == "tasks"
    case 1 => name == "pre_tasks"
    case 2 => name == "post_tasks"
    case 3 => name == "handlers"
    case 4 => name == "block"
    case 5 => name == "rescue"
    case 6 => name == "always"
    case _ => false
  }

  /** A task-level mapping: an item of the list, or below it what stands in the entry of a structural key. */
  ghost predicate StandsAt(node: Yaml, p: Pos, task: Yaml)
    decreases p
  {
    && node.List? && p.index < |node.items| && node.items[p.index].Mapping?
    && match p
       case Item(_) => task == node.items[p.index]
       case Under(_, key, rest) =>
         var entries := node.items[p.index].entries;
         exists name, i ::
           IsStructural(key, name) && IsFirst(entries, i, name) && StandsAt(entries[i].value, rest, task)
  }

  lemma StructureIs(key: nat, name: string)
    ensures IsStructural(key, name) <==> key < |STRUCTURE| && STRUCTURE[key] == name
  {
  }

  lemma {:induction false} AtExactly(node: Yaml, p: Pos, task: Yaml)
    ensures At(node, p) == Some(task) <==> StandsAt(node, p, task)
    decreases p
  {
    if node.List? && p.index < |node.items| && node.items[p.index].Mapping? && p.Under? {
      var entries := node.items[p.index].entries;
      forall name, i | IsStructural(p.key, name) && IsFirst(entries, i, name)
        ensures At(node, p) == At(entries[i].value, p.rest)
        ensures At(entries[i].value, p.rest) == Some(task) <==> StandsAt(entries[i].value, p.rest, task)
      {
        StructureIs(p.key, name);
        AtExactly(entries[i].value, p.rest, task);
      }
      if At(node, p) == Some(task) {
        StructureIs(p.key, STRUCTURE[p.key]);
        var i := Index(entries, STRUCTURE[p.key]).value;
        assert IsFirst(entries, i, STRUCTURE[p.key]);
      }
    }
  }

  /** Every mapping at task level is yielded exactly once: the i-th yielded is the one at the i-th
      position walked to, and those are all the positions there are, each once. */
  lemma EveryTaskOnce(node: Yaml)
    ensures |Walk(node)| == |Tasks(node)|
    ensures forall i :: 0 <= i < |Tasks(node)| ==> StandsAt(node, Walk(node)[i], Tasks(node)[i])
    ensures Distinct(Walk(node)) && forall p, task :: StandsAt(node, p, task) ==> p in Walk(node)
  {
    WalkFinds(node);
    WalkIsExact(node);
    forall i | 0 <= i < |Tasks(node)| ensures StandsAt(node, Walk(node)[i], Tasks(node)[i]) {
      AtExactly(node, Walk(node)[i], Tasks(node)[i]);
    }
    forall p, task | StandsAt(node, p, task) ensures p in Walk(node) {
      AtExactly(node, p, task);
    }
  }

  // ----- counting (the first loop of `scan`)

  ghost function Wanted(node: Yaml, ps: seq<Pos>, want: Yaml -> bool): set<Pos> {
    set p | p in ps && At(node, p).Some? && want(At(node, p).value)
  }

  lemma WantedMore(node: Yaml, ps: seq<Pos>, n: nat, want: Yaml -> bool)
    requires Distinct(ps) && n < |ps| && At(node, ps[n]).Some?
    ensures |Wanted(node, ps[..n + 1], want)| == |Wanted(node, ps[..n], want)| + if want(At(node, ps[n]).value) then 1
        else 0
  {
    var p := ps[n];
    assert ps[..n + 1] == ps[..n] + [p];
    assert p !in ps[..n];
    assert Wanted(node, ps[..n + 1], want)
        == Wanted(node, ps[..n], want) + if want(At(node, p).value) then {p} else {};
  }

  lemma WantedExactly(node: Yaml, want: Yaml -> bool, p: Pos)
    ensures p in Wanted(node, Walk(node), want) <==> exists task :: StandsAt(node, p, task) && want(task)
  {
    WalkIsExact(node);
    if At(node, p).Some? {
      AtExactly(node, p, At(node, p).value);
    }
    if task :| StandsAt(node, p, task) && want(task) {
      AtExactly(node, p, task);
    }
  }

  /** The tasks that use a module are as many as the positions at which one stands. */
  method CountTasks(node: Yaml, want: Yaml -> bool) returns (n: nat, ghost places: set<Pos>)
    ensures n == |places|
    ensures forall p :: p in places <==> exists task :: StandsAt(node, p, task) && want(task)
  {
    WalkFinds(node);
    WalkIsExact(node);
    var tasks := Tasks(node);
    n := 0;
    for i := 0 to |tasks|
      invariant n == |Wanted(node, Walk(node)[..i], want)|
    {
      WantedMore(node, Walk(node), i, want);
      if want(tasks[i]) {
        n := n + 1;
      }
    }
    assert Walk(node)[..|tasks|] == Walk(node);
    places := Wanted(node, Walk(node), want);
    forall p ensures p in places <==> exists task :: StandsAt(node, p, task) && want(task) {
      WantedExactly(node, want, p);
    }
  }
}
