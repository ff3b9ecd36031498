/** Archiving Vault secrets: copy, verify, then delete the original
    (roles/service_decommission/_archive/vault_archive_secret.py). */
module VaultArchive {

  type Path = string
  type Data = map<string, string>

  /** The current version of every document. */
  type Store = map<Path, Data>

  const FABRIC := "fabric/"
  const ARCHIVE := "archive/"
  const FABRIC_ARCHIVE := "fabric/archive/"

  function Src(name: string): Path {
    if '/' in name then name else FABRIC + name
  }

  function Dst(name: string): Path {
    if '/' in name then ARCHIVE + name else FABRIC_ARCHIVE + name
  }

  predicate IsArchivePath(p: Path) {
    ARCHIVE <= p || FABRIC_ARCHIVE <= p
  }

  lemma DstIsArchivePath(name: string)
    ensures IsArchivePath(Dst(name)) && |Dst(name)| == |Src(name)| + |ARCHIVE|
  {
  }

  lemma DstInjective(a: string, b: string)
    requires Dst(a) == Dst(b)
    ensures a == b
  {
    if ('/' in a) == ('/' in b) {
      var k := if '/' in a then |ARCHIVE| else |FABRIC_ARCHIVE|;
      assert Dst(a)[k..] == a && Dst(b)[k..] == b;
    } else {
      DstHead(a);
      DstHead(b);
    }
  }

  lemma DstHead(name: string)
    ensures Dst(name)[0] == if '/' in name then ARCHIVE[0] else FABRIC_ARCHIVE[0]
  {
  }

  /** What one listed name asks for. */
  datatype Move = Move(src: Path, dst: Path)

  function MovesOf(names: seq<string>): seq<Move> {
    seq(|names|, i requires 0 <= i < |names| => Move(Src(names[i]), Dst(names[i])))
  }

  /** What the naming guarantees: a destination belongs to one source, is an archive path, and is not
      the source itself. */
  ghost predicate WellLaid(moves: seq<Move>) {
    && (forall i :: 0 <= i < |moves| ==> IsArchivePath(moves[i].dst) && moves[i].dst != moves[i].src)
    && (forall i, j :: 0 <= i < |moves| && 0 <= j < |moves| && moves[i].dst == moves[j].dst ==> moves[i] == moves[j])
  }

  lemma MovesWellLaid(names: seq<string>)
    ensures WellLaid(MovesOf(names))
  {
    var moves := MovesOf(names);
    forall i | 0 <= i < |moves| ensures IsArchivePath(moves[i].dst) && moves[i].dst != moves[i].src {
      DstIsArchivePath(names[i]);
    }
    forall i, j | 0 <= i < |moves| && 0 <= j < |moves| && moves[i].dst == moves[j].dst ensures moves[i] == moves[j] {
      DstInjective(names[i], names[j]);
    }
  }

  // ----- the program, step by step, with a crash or a failed request possible at every step

  datatype Phase = Fetch | Copy(data: Data) | Verify(data: Data) | Delete | Stopped

  datatype State = State(store: Store, next: nat, phase: Phase)

  function Start(store: Store): State {
    State(store, 0, Fetch)
  }

  /** The program stops: a crash, or a request that fails without effect. */
  ghost predicate Stops(s: State, s': State) {
    s' == s.(phase := Stopped)
  }

  /** What a server that is not honest may have stored: nothing, or something else. */
  ghost predicate Garbled(dst: Path, store: Store, store': Store) {
    store' == store || (dst in store' && store' == store[dst := store'[dst]])
  }

  /** A POST stores the data if the server is honest. The request may still be reported as failed, and
      then the program stops. */
  ghost predicate Posts(honest: bool, dst: Path, d: Data, s: State, s': State) {
    && s'.next == s.next
    && (s'.store == s.store[dst := d] || (!honest && Garbled(dst, s.store, s'.store)))
    && (s'.phase == Verify(d) || s'.phase == Stopped)
  }

  ghost predicate Step(moves: seq<Move>, honest: bool, s: State, s': State) {
    || Stops(s, s')
    || (s.next < |moves| &&
        var Move(src, dst) := moves[s.next];
        match s.phase
        case Fetch =>
          if src in s.store then s' == s.(phase := Copy(s.store[src])) else s' == s.(next := s.next + 1)
        case Copy(d) => Posts(honest, dst, d, s, s')
        case Verify(d) =>
          if dst in s.store && s.store[dst] == d then s' == s.(phase := Delete)
          else s' == State(s.store, s.next + 1, Fetch)
        case Delete =>
          // the delete may be reported as failed after it took effect
          || s' == State(s.store - {src}, s.next + 1, Fetch)
          || s' == State(s.store - {src}, s.next, Stopped)
        case Stopped => false)
  }

  ghost predicate IsRun(moves: seq<Move>, honest: bool, run: seq<State>, store: Store) {
    && |run| > 0 && run[0] == Start(store)
    && forall i :: 0 <= i < |run| - 1 ==> Step(moves, honest, run[i], run[i + 1])
  }

  ghost predicate Reachable(moves: seq<Move>, honest: bool, store: Store, s: State) {
    exists run :: IsRun(moves, honest, run, store) && run[|run| - 1] == s
  }

  lemma ReachableStep(moves: seq<Move>, honest: bool, store: Store, s: State, s': State)
    requires Reachable(moves, honest, store, s) && Step(moves, honest, s, s')
    ensures Reachable(moves, honest, store, s')
  {
    var run :| IsRun(moves, honest, run, store) && run[|run| - 1] == s;
    assert IsRun(moves, honest, run + [s'], store);
    assert (run + [s'])[|run + [s']| - 1] == s';
  }

  ghost predicate Elsewhere(moves: seq<Move>) {
    forall i :: 0 <= i < |moves| ==> moves[i].src != moves[i].dst
  }

  // ----- no document is lost, whatever the server does with the copies

  ghost predicate IsDst(moves: seq<Move>, p: Path) {
    exists i :: 0 <= i < |moves| && moves[i].dst == p
  }

  /** The data is at its own path, or at some archive path. */
  ghost predicate Kept(store: Store, p: Path, d: Data) {
    || (p in store && store[p] == d)
    || exists q :: IsArchivePath(q) && q in store && store[q] == d
  }

  /** The way the data has come: it left p, and every path it left since is empty. */
  ghost predicate Trail(moves: seq<Move>, store: Store, p: Path, d: Data, way: seq<Path>) {
    && |way| > 0 && way[0] == p
    && (forall i :: 0 <= i < |way| - 1 ==> Move(way[i], way[i + 1]) in moves && way[i] !in store)
    && way[|way| - 1] in store && store[way[|way| - 1]] == d
  }

  /** While a move is being made its source is in place, and the delete has a true copy. */
  ghost predicate Working(moves: seq<Move>, s: State) {
    s.phase != Fetch && s.phase != Stopped ==>
      && s.next < |moves|
      && var Move(src, dst) := moves[s.next];
      && src in s.store
      && (s.phase.Copy? || s.phase.Verify? ==> s.phase.data == s.store[src])
      && (s.phase == Delete ==> dst in s.store && s.store[dst] == s.store[src])
  }

  lemma WorkingKept(moves: seq<Move>, honest: bool, s: State, s': State)
    requires WellLaid(moves) && Working(moves, s) && Step(moves, honest, s, s')
    ensures Working(moves, s')
  {
  }

  /** A path the data has left, or holds, is never the target of a copy: the only move that leads
      there starts from a path that is empty. */
  lemma TrailIsNotATarget(moves: seq<Move>, s: State, p: Path, d: Data, way: seq<Path>, i: nat)
    requires WellLaid(moves) && Trail(moves, s.store, p, d, way) && i < |way|
    requires s.next < |moves| && moves[s.next].src in s.store && moves[s.next].dst != p
    ensures way[i] != moves[s.next].dst
  {
    if i > 0 {
      var j := CameFrom(moves, s.store, p, d, way, i);
      assert moves[j].src != moves[s.next].src;
    }
  }

  lemma CameFrom(moves: seq<Move>, store: Store, p: Path, d: Data, way: seq<Path>, i: nat) returns (j: nat)
    requires Trail(moves, store, p, d, way) && 0 < i < |way|
    ensures j < |moves| && moves[j].dst == way[i] && moves[j].src !in store
  {
    var k := i - 1;
    assert Move(way[k], way[k + 1]) in moves;
    j :| 0 <= j < |moves| && moves[j] == Move(way[k], way[i]);
  }

  /** The delete takes the data one move on. */
  lemma TrailExtended(moves: seq<Move>, store: Store, p: Path, d: Data, way: seq<Path>, n: nat)
    requires WellLaid(moves) && n < |moves| && Trail(moves, store, p, d, way) && moves[n].src == way[|way| - 1]
    requires moves[n].dst in store && store[moves[n].dst] == d
    ensures Trail(moves, store - {moves[n].src}, p, d, way + [moves[n].dst])
  {
  }

  lemma TrailKept(moves: seq<Move>, honest: bool, s: State, s': State, p: Path, d: Data, way: seq<Path>)
    returns (way': seq<Path>)
    requires WellLaid(moves) && Working(moves, s) && Step(moves, honest, s, s')
    requires Trail(moves, s.store, p, d, way) && (s.phase.Copy? && s.next < |moves| ==> moves[s.next].dst != p)
    ensures Trail(moves, s'.store, p, d, way')
    ensures way' == way || (s.next < |moves| && moves[s.next].src == way[|way| - 1]
        && way' == way + [moves[s.next].dst])
  {
    way' := way;
    var last := |way| - 1;
    if s'.store != s.store {
      if s.phase.Copy? {
        forall i | 0 <= i < |way| ensures way[i] != moves[s.next].dst {
          TrailIsNotATarget(moves, s, p, d, way, i);
        }
      } else if moves[s.next].src == way[last] {
        way' := way + [moves[s.next].dst];
        TrailExtended(moves, s.store, p, d, way, s.next);
      }
    }
  }

  lemma {:induction false} RunKeepsTrail(moves: seq<Move>, honest: bool, run: seq<State>, store: Store, p: Path)
    returns (way: seq<Path>)
    requires WellLaid(moves) && IsRun(moves, honest, run, store) && p in store && !IsDst(moves, p)
    ensures Working(moves, run[|run| - 1])
    ensures Trail(moves, run[|run| - 1].store, p, store[p], way)
    decreases |run|
  {
    if |run| == 1 {
      way := [p];
    } else {
      var last := |run| - 1;
      way := RunKeepsTrail(moves, honest, run[..last], store, p);
      var s, s' := run[last - 1], run[last];
      assert Step(moves, honest, run[last - 1], run[last - 1 + 1]);
      WorkingKept(moves, honest, s, s');
      assert s.next < |moves| && moves[s.next].dst == p ==> IsDst(moves, p);
      way := TrailKept(moves, honest, s, s', p, store[p], way);
    }
  }

  /** In every state a crash can leave, with a server that may lose or garble copies: each document
      that no listed name is archived to has its data at its own path or at an archive path. */
  lemma NothingLost(names: seq<string>, honest: bool, store: Store, s: State, p: Path)
    requires Reachable(MovesOf(names), honest, store, s) && p in store && !IsDst(MovesOf(names), p)
    ensures Kept(s.store, p, store[p])
  {
    var moves := MovesOf(names);
    MovesWellLaid(names);
    var run :| IsRun(moves, honest, run, store) && run[|run| - 1] == s;
    var way := RunKeepsTrail(moves, honest, run, store, p);
    var last := |way| - 1;
    if last > 0 {
      assert Move(way[last - 1], way[last - 1 + 1]) in moves;
      var i :| 0 <= i < |moves| && moves[i] == Move(way[last - 1], way[last]);
      assert IsArchivePath(way[last]);
    }
  }

  // ----- the uninterrupted run

  datatype Outcome = Outcome(store: Store, changed: nat)

  function ArchiveOne(store: Store, m: Move): Outcome {
    if m.src in store then Outcome(store[m.dst := store[m.src]] - {m.src}, 1) else Outcome(store, 0)
  }

  /** After the first i moves. */
  function Archived(store: Store, moves: seq<Move>, i: nat): Outcome
    requires i <= |moves|
  {
    if i == 0 then Outcome(store, 0)
    else
      var before := Archived(store, moves, i - 1);
      var now := ArchiveOne(before.store, moves[i - 1]);
      Outcome(now.store, before.changed + now.changed)
  }

  /** It is a run of the step machine. */
  lemma {:induction false} ArchivedIsReachable(moves: seq<Move>, store: Store, i: nat)
    requires WellLaid(moves) && i <= |moves|
    ensures Reachable(moves, true, store, State(Archived(store, moves, i).store, i, Fetch))
  {
    if i == 0 {
      assert IsRun(moves, true, [Start(store)], store);
    } else {
      ArchivedIsReachable(moves, store, i - 1);
      var st, m := Archived(store, moves, i - 1).store, moves[i - 1];
      var s0 := State(st, i - 1, Fetch);
      if m.src in st {
        var d := st[m.src];
        var s1 := s0.(phase := Copy(d));
        var s2 := State(st[m.dst := d], i - 1, Verify(d));
        var s3 := s2.(phase := Delete);
        ReachableStep(moves, true, store, s0, s1);
        ReachableStep(moves, true, store, s1, s2);
        ReachableStep(moves, true, store, s2, s3);
        ReachableStep(moves, true, store, s3, State(s2.store - {m.src}, i, Fetch));
      } else {
        ReachableStep(moves, true, store, s0, State(st, i, Fetch));
      }
    }
  }

  /** No move takes a document from where a move puts one. */
  ghost predicate Independent(moves: seq<Move>) {
    forall i, j :: 0 <= i < |moves| && 0 <= j < |moves| ==> moves[i].src != moves[j].dst
  }

  /** The sources of the first n moves are gone. */
  ghost predicate Gone(moves: seq<Move>, store: Store, n: nat)
    requires n <= |moves|
  {
    forall j :: 0 <= j < n ==> moves[j].src !in store
  }

  lemma {:induction false} SourcesGone(moves: seq<Move>, store: Store, i: nat)
    requires Independent(moves) && i <= |moves|
    ensures Gone(moves, Archived(store, moves, i).store, i)
  {
    if i > 0 {
      SourcesGone(moves, store, i - 1);
    }
  }

  /** A rerun changes nothing exactly when it finds every source gone. */
  lemma {:induction false} SilentIsGone(moves: seq<Move>, store: Store, i: nat)
    requires i <= |moves|
    ensures Archived(store, moves, i).changed == 0 <==> Gone(moves, store, i)
    ensures Archived(store, moves, i).changed == 0 ==> Archived(store, moves, i).store == store
  {
    if i > 0 {
      SilentIsGone(moves, store, i - 1);
    }
  }

  predicate UsedAsSource(moves: seq<Move>, from: nat, upTo: nat, p: Path)
    requires upTo <= |moves|
  {
    exists j :: from <= j < upTo && moves[j].src == p
  }

  /** A path that no move puts anything to is empty once a move has taken from it, and not before. */
  lemma {:induction false} TakenOnce(moves: seq<Move>, store: Store, i: nat, p: Path)
    requires i <= |moves| && !IsDst(moves, p)
    ensures p in Archived(store, moves, i).store <==> p in store && !UsedAsSource(moves, 0, i, p)
  {
    if i > 0 {
      TakenOnce(moves, store, i - 1, p);
      assert moves[i - 1].dst != p;
      assert UsedAsSource(moves, 0, i, p) <==> UsedAsSource(moves, 0, i - 1, p) || moves[i - 1].src == p;
    }
  }

  /** The documents among the first n sources. */
  ghost function Found(moves: seq<Move>, store: Store, n: nat): set<Path>
    requires n <= |moves|
  {
    set p | p in store && UsedAsSource(moves, 0, n, p)
  }

  /** CHANGED is the number of listed secrets there were, each listed as often as may be. */
  lemma {:induction false} CountsTheFound(moves: seq<Move>, store: Store, n: nat)
    requires Independent(moves) && n <= |moves|
    ensures Archived(store, moves, n).changed == |Found(moves, store, n)|
  {
    if n > 0 {
      var p := moves[n - 1].src;
      CountsTheFound(moves, store, n - 1);
      TakenOnce(moves, store, n - 1, p);
      assert forall q :: UsedAsSource(moves, 0, n, q) <==> UsedAsSource(moves, 0, n - 1, q) || q == p;
      var before := Found(moves, store, n - 1);
      assert Found(moves, store, n) == if p in store then before + {p} else before;
      assert p in before <==> p in store && UsedAsSource(moves, 0, n - 1, p);
      assert p in before ==> before + {p} == before;
    } else {
      assert Found(moves, store, 0) == {};
    }
  }

  /** At its turn the move has something to put where an earlier one has taken from, and no later one takes
      from there. */
  predicate PutsBack(moves: seq<Move>, store: Store, k: nat)
    requires k < |moves|
  {
    && moves[k].src in Archived(store, moves, k).store
    && UsedAsSource(moves, 0, k, moves[k].dst) && !UsedAsSource(moves, k + 1, |moves|, moves[k].dst)
  }

  lemma {:induction false} StaysThere(moves: seq<Move>, store: Store, i: nat, n: nat, p: Path)
    requires i <= n <= |moves| && p in Archived(store, moves, i).store && !UsedAsSource(moves, i, n, p)
    ensures p in Archived(store, moves, n).store
    decreases n
  {
    if i < n {
      assert !UsedAsSource(moves, i, n - 1, p);
      StaysThere(moves, store, i, n - 1, p);
    }
  }

  /** A source that is there after its turn was put back. */
  lemma {:induction false} WhoPutsBack(moves: seq<Move>, store: Store, n: nat, p: Path) returns (k: nat)
    requires n <= |moves| && UsedAsSource(moves, 0, n, p) && p in Archived(store, moves, n).store
    ensures k < n && moves[k].dst == p && moves[k].src in Archived(store, moves, k).store
    ensures UsedAsSource(moves, 0, k, p) && !UsedAsSource(moves, k + 1, n, p)
  {
    k := n - 1;
    assert moves[k].src != p;
    assert UsedAsSource(moves, 0, k, p);
    if moves[k].dst != p || moves[k].src !in Archived(store, moves, k).store {
      k := WhoPutsBack(moves, store, n - 1, p);
    }
  }

  lemma PutBackIsNotGone(moves: seq<Move>, store: Store, k: nat)
    requires Elsewhere(moves) && k < |moves| && PutsBack(moves, store, k)
    ensures !Gone(moves, Archived(store, moves, |moves|).store, |moves|)
  {
    var p := moves[k].dst;
    assert moves[k].src != moves[k].dst;
    assert p in Archived(store, moves, k + 1).store;
    StaysThere(moves, store, k + 1, |moves|, p);
  }

  /** A rerun reports CHANGED=0, and leaves the store as it was, if and only if in the first run no move had
      something to put where an earlier one had taken from and no later one took from. */
  lemma RerunSilentExactly(names: seq<string>, store: Store)
    ensures
      var moves := MovesOf(names);
      var t := Archived(store, moves, |moves|).store;
      var again := Archived(t, moves, |moves|);
      && (again.changed == 0 <==> forall k :: 0 <= k < |moves| ==> !PutsBack(moves, store, k))
      && (again.changed == 0 ==> again.store == t)
  {
    var moves := MovesOf(names);
    var t := Archived(store, moves, |moves|).store;
    MovesWellLaid(names);
    SilentIsGone(moves, t, |moves|);
    if k :| 0 <= k < |moves| && PutsBack(moves, store, k) {
      PutBackIsNotGone(moves, store, k);
    } else if i :| 0 <= i < |moves| && moves[i].src in t {
      assert UsedAsSource(moves, 0, |moves|, moves[i].src);
      var k := WhoPutsBack(moves, store, |moves|, moves[i].src);
      assert PutsBack(moves, store, k);
    }
  }

  /** A list that names a secret's archive path before the secret: the rerun archives the archived one. */
  lemma RerunArchivesAgain(name: string, store: Store)
    requires '/' in name && name in store
    ensures var moves := MovesOf([Dst(name), name]);
      Archived(Archived(store, moves, 2).store, moves, 2).changed > 0
  {
    var names := [Dst(name), name];
    var moves := MovesOf(names);
    DstIsArchivePath(name);
    assert '/' in Dst(name) by {
      assert Dst(name)[|ARCHIVE|..] == name;
    }
    assert Src(name) == name && Src(Dst(name)) == Dst(name);
    assert name in Archived(store, moves, 1).store;
    assert PutsBack(moves, store, 1);
    RerunSilentExactly(names, store);
  }

  /** So it is when no listed name's source is another's destination. */
  lemma RerunSilent(names: seq<string>, store: Store)
    requires Independent(MovesOf(names))
    ensures var t := Archived(store, MovesOf(names), |names|).store;
      Archived(t, MovesOf(names), |names|) == Outcome(t, 0)
  {
    RerunSilentExactly(names, store);
  }

  // ----- what a run means for the secrets it is given

  /** A name with a slash is a path; another is one below `fabric`. */
  ghost predicate LiesAt(name: string, p: Path) {
    if '/' in name then p == name else p == "fabric/" + name
  }

  ghost predicate IsArchivedAt(name: string, q: Path) {
    if '/' in name then q == "archive/" + name else q == "fabric/archive/" + name
  }

  /** No two listed secrets lie at one path, and none lies where one is archived to. */
  ghost predicate Apart(names: seq<string>) {
    && (forall a, b, p :: a in names && b in names && LiesAt(a, p) && LiesAt(b, p) ==> a == b)
    && (forall a, b, p :: a in names && b in names && LiesAt(a, p) ==> !IsArchivedAt(b, p))
  }

  /** If the secret was there, it is at its archive path and no longer at its own. */
  ghost predicate ArchivedOne(name: string, store: Store, t: Store) {
    forall p, q :: LiesAt(name, p) && IsArchivedAt(name, q) && p in store ==> p !in t && q in t && t[q] == store[p]
  }

  ghost predicate WasThere(name: string, store: Store) {
    exists p :: LiesAt(name, p) && p in store
  }

  /** A listed secret lies at the path, or one that was there is archived to it. */
  ghost predicate IsConcerned(names: seq<string>, store: Store, r: Path) {
    exists name :: name in names && (LiesAt(name, r) || (IsArchivedAt(name, r) && WasThere(name, store)))
  }

  ghost predicate SameThere(store: Store, t: Store, r: Path) {
    (r in t <==> r in store) && (r in store ==> t[r] == store[r])
  }

  /** Every listed secret is archived, and the rest of the store is as it was. */
  ghost predicate ArchivedAll(names: seq<string>, store: Store, t: Store) {
    && (forall name :: name in names ==> ArchivedOne(name, store, t))
    && (forall r :: !IsConcerned(names, store, r) ==> SameThere(store, t, r))
  }

  /** A source has one destination. */
  ghost predicate OneWay(moves: seq<Move>) {
    forall i, j :: 0 <= i < |moves| && 0 <= j < |moves| && moves[i].src == moves[j].src ==> moves[i] == moves[j]
  }

  lemma ApartIsIndependent(names: seq<string>)
    requires Apart(names)
    ensures Independent(MovesOf(names)) && OneWay(MovesOf(names))
  {
    var moves := MovesOf(names);
    forall i, j | 0 <= i < |moves| && 0 <= j < |moves|
      ensures moves[i].src != moves[j].dst && (moves[i].src == moves[j].src ==> moves[i] == moves[j])
    {
      assert LiesAt(names[i], moves[i].src) && LiesAt(names[j], moves[j].src);
      assert IsArchivedAt(names[j], moves[j].dst);
    }
  }

  /** A document at a path that no move puts anything to is not changed there. */
  lemma {:induction false} NotWritten(moves: seq<Move>, store: Store, i: nat, p: Path)
    requires i <= |moves| && !IsDst(moves, p) && p in Archived(store, moves, i).store
    ensures p in store && Archived(store, moves, i).store[p] == store[p]
  {
    if i > 0 {
      assert moves[i - 1].dst != p;
      NotWritten(moves, store, i - 1, p);
    }
  }

  /** Once its move has had its turn, a document is where that leads, and stays there. */
  lemma {:induction false} Lands(moves: seq<Move>, store: Store, i: nat, m: Move)
    requires WellLaid(moves) && Independent(moves) && OneWay(moves) && i <= |moves| && m in moves[..i] && m.src in store
    ensures var t := Archived(store, moves, i).store; m.dst in t && t[m.dst] == store[m.src]
  {
    var e, t := moves[i - 1], Archived(store, moves, i - 1).store;
    assert m in moves && e in moves;
    if m in moves[..i - 1] {
      Lands(moves, store, i - 1, m);
      SourceGone(moves, store, i - 1, m);
      LandedStays(moves, t, e, m);
    } else {
      assert moves[..i][i - 1] == e && e == m;
      SourceStill(moves, store, i - 1, m);
    }
  }

  lemma SourceGone(moves: seq<Move>, store: Store, i: nat, m: Move)
    requires Independent(moves) && i <= |moves| && m in moves[..i]
    ensures m.src !in Archived(store, moves, i).store
  {
    var j :| 0 <= j < i && moves[..i][j] == m;
    assert UsedAsSource(moves, 0, i, m.src) && !IsDst(moves, m.src);
    TakenOnce(moves, store, i, m.src);
  }

  lemma SourceStill(moves: seq<Move>, store: Store, i: nat, m: Move)
    requires Independent(moves) && OneWay(moves) && i < |moves| && m in moves && m !in moves[..i] && m.src in store
    ensures var t := Archived(store, moves, i).store; m.src in t && t[m.src] == store[m.src]
  {
    NotUsedYet(moves, i, m);
    assert !IsDst(moves, m.src);
    TakenOnce(moves, store, i, m.src);
    NotWritten(moves, store, i, m.src);
  }

  lemma NotUsedYet(moves: seq<Move>, i: nat, m: Move)
    requires OneWay(moves) && i < |moves| && m in moves && m !in moves[..i]
    ensures !UsedAsSource(moves, 0, i, m.src)
  {
    forall j | 0 <= j < i ensures moves[j].src != m.src {
      assert moves[..i][j] == moves[j];
    }
  }

  lemma LandedStays(moves: seq<Move>, t: Store, e: Move, m: Move)
    requires WellLaid(moves) && Independent(moves) && m in moves && e in moves && m.dst in t && m.src !in t
    ensures var t' := ArchiveOne(t, e).store; m.dst in t' && t'[m.dst] == t[m.dst]
  {
    assert e.src != m.dst && (e.dst == m.dst ==> e == m);
  }

  /** What is neither taken nor put is as it was. */
  lemma {:induction false} RestStays(moves: seq<Move>, store: Store, i: nat, r: Path)
    requires Independent(moves) && i <= |moves|
    requires forall m :: m in moves ==> m.src != r && (m.dst == r ==> m.src !in store)
    ensures var t := Archived(store, moves, i).store; (r in t <==> r in store) && (r in store ==> t[r] == store[r])
  {
    if i > 0 {
      var e := moves[i - 1];
      RestStays(moves, store, i - 1, r);
      assert e in moves && !IsDst(moves, e.src);
      TakenOnce(moves, store, i - 1, e.src);
    }
  }

  lemma MoveOf(names: seq<string>, name: string, m: Move)
    requires name in names && LiesAt(name, m.src) && IsArchivedAt(name, m.dst)
    ensures m in MovesOf(names)
  {
    var i :| 0 <= i < |names| && names[i] == name;
    assert MovesOf(names)[i] == m;
  }

  lemma NameOf(names: seq<string>, m: Move) returns (name: string)
    requires m in MovesOf(names)
    ensures name in names && LiesAt(name, m.src) && IsArchivedAt(name, m.dst)
  {
    var i :| 0 <= i < |names| && MovesOf(names)[i] == m;
    name := names[i];
  }

  ghost predicate IsMade(store: Store, t: Store, m: Move) {
    m.src !in t && m.dst in t && m.src in store && t[m.dst] == store[m.src]
  }

  lemma MoveIsMade(moves: seq<Move>, store: Store, t: Store, m: Move)
    requires WellLaid(moves) && Independent(moves) && OneWay(moves) && m in moves && m.src in store
    requires t == Archived(store, moves, |moves|).store
    ensures IsMade(store, t, m)
  {
    assert moves[..|moves|] == moves;
    Lands(moves, store, |moves|, m);
    var j :| 0 <= j < |moves| && moves[j] == m;
    assert UsedAsSource(moves, 0, |moves|, m.src) && !IsDst(moves, m.src);
    TakenOnce(moves, store, |moves|, m.src);
  }

  lemma MovesAreMade(names: seq<string>, store: Store, t: Store)
    requires Apart(names) && t == Archived(store, MovesOf(names), |names|).store
    ensures forall m :: m in MovesOf(names) && m.src in store ==> IsMade(store, t, m)
  {
    MovesWellLaid(names);
    ApartIsIndependent(names);
    forall m | m in MovesOf(names) && m.src in store ensures IsMade(store, t, m) {
      MoveIsMade(MovesOf(names), store, t, m);
    }
  }

  lemma SecretIsArchived(names: seq<string>, store: Store, t: Store, name: string)
    requires name in names && forall m :: m in MovesOf(names) && m.src in store ==> IsMade(store, t, m)
    ensures ArchivedOne(name, store, t)
  {
    forall p, q | LiesAt(name, p) && IsArchivedAt(name, q) && p in store ensures p !in t && q in t && t[q] == store[p] {
      MoveOf(names, name, Move(p, q));
      assert IsMade(store, t, Move(p, q));
    }
  }

  lemma OtherIsKept(names: seq<string>, store: Store, t: Store, r: Path)
    requires Apart(names) && t == Archived(store, MovesOf(names), |names|).store && !IsConcerned(names, store, r)
    ensures SameThere(store, t, r)
  {
    ApartIsIndependent(names);
    forall m | m in MovesOf(names) ensures m.src != r && (m.dst == r ==> m.src !in store) {
      var name := NameOf(names, m);
      assert m.src in store ==> WasThere(name, store);
    }
    RestStays(MovesOf(names), store, |names|, r);
  }

  /** What a run does, secret by secret. */
  lemma RunArchives(names: seq<string>, store: Store)
    requires Apart(names)
    ensures ArchivedAll(names, store, Archived(store, MovesOf(names), |names|).store)
  {
    var t := Archived(store, MovesOf(names), |names|).store;
    MovesAreMade(names, store, t);
    forall name | name in names ensures ArchivedOne(name, store, t) {
      SecretIsArchived(names, store, t, name);
    }
    forall r | !IsConcerned(names, store, r) ensures SameThere(store, t, r) {
      OtherIsKept(names, store, t, r);
    }
  }

  // ----- the program

  class Vault {
    var store: Store

    constructor (store: Store)
      ensures this.store == store
    {
      this.store := store;
    }

    method Get(p: Path) returns (found: bool, d: Data)
      ensures found <==> p in store
      ensures found ==> d == store[p]
    {
      found := p in store;
      d := if found then store[p] else map[];
    }

    method Post(p: Path, d: Data)
      modifies this
      ensures store == old(store)[p := d]
    {
      store := store[p := d];
    }

    method DeleteMetadata(p: Path)
      modifies this
      ensures store == old(store) - {p}
    {
      store := store - {p};
    }

    method ArchiveSecrets(names: seq<string>) returns (changed: nat)
      modifies this
      ensures Outcome(store, changed) == Archived(old(store), MovesOf(names), |names|)
    {
      changed := 0;
      for i := 0 to |names|
        invariant Outcome(store, changed) == Archived(old(store), MovesOf(names), i)
      {
        var src, dst := Src(names[i]), Dst(names[i]);
        DstIsArchivePath(names[i]);
        var found, data := Get(src);
        if !found {
          continue;
        }
        Post(dst, data);
        var there, check := Get(dst);
        if !there || check != data {
          continue;
        }
        DeleteMetadata(src);
        changed := changed + 1;
      }
    }
  }
}
