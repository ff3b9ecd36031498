/** When archiving loses no document at all (roles/service_decommission/_archive/vault_archive_secret.py):
    a copy overwrites what is at its destination. */
module VaultLoss {
  import opened VaultArchive

  /** The document that was at p, followed through a run: in every state its data is where `at` says, and
      from one state to the next it stays there or goes along the move that is being made. */
  ghost predicate Followed(moves: seq<Move>, run: seq<State>, p: Path, d: Data, at: seq<Path>) {
    && |at| == |run| > 0 && at[0] == p
    && (forall k :: 0 <= k < |run| ==> at[k] in run[k].store && run[k].store[at[k]] == d)
    && (forall k :: 0 <= k < |run| - 1 ==> Goes(moves, run[k].next, at[k], at[k + 1]))
  }

  ghost predicate Goes(moves: seq<Move>, n: nat, q: Path, q': Path) {
    q' == q || (n < |moves| && moves[n] == Move(q, q'))
  }

  ghost predicate Survives(moves: seq<Move>, run: seq<State>, p: Path, d: Data) {
    exists at :: Followed(moves, run, p, d, at)
  }

  /** Every document survives every run, cut off anywhere. */
  ghost predicate Lossless(moves: seq<Move>, honest: bool, store: Store) {
    forall run, p :: IsRun(moves, honest, run, store) && p in store ==> Survives(moves, run, p, store[p])
  }

  lemma FollowedFurther(moves: seq<Move>, run: seq<State>, p: Path, d: Data, at: seq<Path>, s: State, q: Path)
    requires Followed(moves, run, p, d, at) && q in s.store && s.store[q] == d
    requires Goes(moves, run[|run| - 1].next, at[|at| - 1], q)
    ensures Followed(moves, run + [s], p, d, at + [q])
  {
  }

  lemma FollowedBefore(moves: seq<Move>, run: seq<State>, p: Path, d: Data, at: seq<Path>, n: nat)
    requires Followed(moves, run, p, d, at) && 0 < n <= |run|
    ensures Followed(moves, run[..n], p, d, at[..n])
  {
  }

  lemma OneMoreStep(moves: seq<Move>, honest: bool, run: seq<State>, store: Store, s: State)
    requires IsRun(moves, honest, run, store) && Step(moves, honest, run[|run| - 1], s)
    ensures IsRun(moves, honest, run + [s], store)
  {
  }

  // ----- an honest server

  /** At its turn in the undisturbed run, no document is copied over a different one. */
  predicate NoOverwrite(moves: seq<Move>, store: Store) {
    forall i :: 0 <= i < |moves| ==> CopiesSafely(Archived(store, moves, i).store, moves[i])
  }

  predicate CopiesSafely(st: Store, m: Move) {
    m.src in st && m.dst in st ==> st[m.dst] == st[m.src]
  }

  /** Until it stops, a run with an honest server is on the way of the undisturbed one. */
  ghost predicate OnTrack(moves: seq<Move>, store: Store, s: State) {
    s.phase != Stopped ==>
      && s.next <= |moves|
      && var st := Archived(store, moves, s.next).store;
      && (s.phase == Fetch ==> s.store == st)
      && (s.phase != Fetch ==>
            && s.next < |moves|
            && var Move(src, dst) := moves[s.next];
            && src in st
            && (s.phase.Copy? ==> s.store == st)
            && (!s.phase.Copy? ==> s.store == st[dst := st[src]])
            && (s.phase.Copy? || s.phase.Verify? ==> s.phase.data == st[src]))
  }

  lemma OnTrackKept(moves: seq<Move>, store: Store, s: State, s': State)
    requires Elsewhere(moves) && OnTrack(moves, store, s) && Step(moves, true, s, s')
    ensures OnTrack(moves, store, s')
  {
  }

  lemma FollowOne(moves: seq<Move>, store: Store, s: State, s': State, q: Path, d: Data) returns (q': Path)
    requires Elsewhere(moves) && NoOverwrite(moves, store) && OnTrack(moves, store, s) && Step(moves, true, s, s')
    requires q in s.store && s.store[q] == d
    ensures q' in s'.store && s'.store[q'] == d && Goes(moves, s.next, q, q')
  {
    q' := q;
    if s.phase.Copy? && s'.store != s.store {
      assert CopiesSafely(Archived(store, moves, s.next).store, moves[s.next]);
    } else if s.phase == Delete && s'.store != s.store && q == moves[s.next].src {
      q' := moves[s.next].dst;
    }
  }

  lemma {:induction false} FollowAll(moves: seq<Move>, store: Store, run: seq<State>, p: Path) returns (at: seq<Path>)
    requires Elsewhere(moves) && NoOverwrite(moves, store) && IsRun(moves, true, run, store) && p in store
    ensures OnTrack(moves, store, run[|run| - 1]) && Followed(moves, run, p, store[p], at)
    decreases |run|
  {
    if |run| == 1 {
      at := [p];
    } else {
      var n := |run| - 1;
      at := FollowAll(moves, store, run[..n], p);
      assert Step(moves, true, run[n - 1], run[n - 1 + 1]);
      OnTrackKept(moves, store, run[n - 1], run[n]);
      var q := FollowOne(moves, store, run[n - 1], run[n], at[n - 1], store[p]);
      FollowedFurther(moves, run[..n], p, store[p], at, run[n], q);
      assert run[..n] + [run[n]] == run;
      at := at + [q];
    }
  }

  // ----- the undisturbed run, and where it must take a document

  function Turn(m: Move, st: Store, i: nat): seq<State> {
    if m.src in st then
      var copied := st[m.dst := st[m.src]];
      [State(st, i, Copy(st[m.src])), State(copied, i, Verify(st[m.src])), State(copied, i, Delete),
       State(copied - {m.src}, i + 1, Fetch)]
    else [State(st, i + 1, Fetch)]
  }

  lemma TurnIsRun(moves: seq<Move>, store: Store, run: seq<State>, st: Store, i: nat)
    requires Elsewhere(moves) && i < |moves| && IsRun(moves, true, run, store) && run[|run| - 1] == State(st, i, Fetch)
    ensures IsRun(moves, true, run + Turn(moves[i], st, i), store)
  {
    var m, turn := moves[i], Turn(moves[i], st, i);
    var all := run + turn;
    forall k | 0 <= k < |all| - 1 ensures Step(moves, true, all[k], all[k + 1]) {
      if k < |run| - 1 {
        assert all[k] == run[k] && all[k + 1] == run[k + 1];
      }
    }
  }

  /** Where the document that was at p is after i moves, if it still is. */
  function Place(moves: seq<Move>, store: Store, i: nat, p: Path): Path
    requires i <= |moves|
  {
    if i == 0 then p
    else
      var q, m := Place(moves, store, i - 1, p), moves[i - 1];
      if q == m.src && m.src in Archived(store, moves, i - 1).store then m.dst else q
  }

  lemma TurnForces(moves: seq<Move>, m: Move, st: Store, i: nat, at: seq<Path>, q: Path)
    requires i < |moves| && moves[i] == m && m.src != m.dst
    requires var turn := Turn(m, st, i);
      && |at| == |turn| && Goes(moves, i, q, at[0])
      && (forall k :: 0 <= k < |turn| - 1 ==> Goes(moves, i, at[k], at[k + 1]))
      && at[|at| - 1] in turn[|turn| - 1].store
    requires q in st
    ensures at[|at| - 1] == if q == m.src && m.src in st then m.dst else q
  {
    if m.src in st {
      assert Goes(moves, i, at[0], at[0 + 1]) && Goes(moves, i, at[1], at[1 + 1]) && Goes(moves, i, at[2], at[2 + 1]);
    }
  }

  /** Whoever follows the document through the run ends at q. */
  ghost predicate EndsAt(moves: seq<Move>, run: seq<State>, p: Path, d: Data, q: Path) {
    forall at :: Followed(moves, run, p, d, at) ==> at[|at| - 1] == q
  }

  lemma TurnEnds(moves: seq<Move>, before: seq<State>, run: seq<State>, m: Move, st: Store, i: nat, p: Path, d: Data,
                 q: Path, q': Path)
    requires i < |moves| && moves[i] == m && m.src != m.dst && |before| > 0
        && before[|before| - 1] == State(st, i, Fetch)
    requires run == before + Turn(m, st, i) && q' == (if q == m.src && m.src in st then m.dst else q)
    requires EndsAt(moves, before, p, d, q)
    ensures EndsAt(moves, run, p, d, q')
  {
    forall at | Followed(moves, run, p, d, at) ensures at[|at| - 1] == q' {
      assert run[..|before|] == before;
      FollowedBefore(moves, run, p, d, at, |before|);
      assert Followed(moves, before, p, d, at[..|before|]);
      LastTurnForces(moves, before, m, st, i, p, d, at);
    }
  }

  /** The undisturbed run up to the i-th turn: whoever follows a document through it ends at its place. */
  lemma {:induction false} Undisturbed(moves: seq<Move>, store: Store, i: nat) returns (run: seq<State>)
    requires Elsewhere(moves) && i <= |moves|
    ensures IsRun(moves, true, run, store) && run[|run| - 1] == State(Archived(store, moves, i).store, i, Fetch)
    ensures forall p, d :: EndsAt(moves, run, p, d, Place(moves, store, i, p))
  {
    if i == 0 {
      run := [Start(store)];
    } else {
      var before := Undisturbed(moves, store, i - 1);
      var m, st := moves[i - 1], Archived(store, moves, i - 1).store;
      assert m.src != m.dst;
      TurnIsRun(moves, store, before, st, i - 1);
      TurnFetches(m, st, i - 1);
      run := before + Turn(m, st, i - 1);
      forall p, d ensures EndsAt(moves, run, p, d, Place(moves, store, i, p)) {
        assert EndsAt(moves, before, p, d, Place(moves, store, i - 1, p));
        TurnEnds(moves, before, run, m, st, i - 1, p, d, Place(moves, store, i - 1, p), Place(moves, store, i, p));
      }
    }
  }

  lemma TurnFetches(m: Move, st: Store, i: nat)
    ensures var turn := Turn(m, st, i);
      turn != [] && turn[|turn| - 1] == State(ArchiveOne(st, m).store, i + 1, Fetch)
  {
  }

  lemma LastTurnForces(moves: seq<Move>, before: seq<State>, m: Move, st: Store, i: nat, p: Path, d: Data,
      at: seq<Path>)
    requires i < |moves| && moves[i] == m && m.src != m.dst && |before| > 0
        && before[|before| - 1] == State(st, i, Fetch)
    requires Followed(moves, before + Turn(m, st, i), p, d, at)
    ensures var q := at[|before| - 1]; at[|at| - 1] == if q == m.src && m.src in st then m.dst else q
  {
    var turn, n := Turn(m, st, i), |before|;
    var run := before + turn;
    assert Goes(moves, run[n - 1].next, at[n - 1], at[n - 1 + 1]);
    forall k | 0 <= k < |turn| - 1 ensures Goes(moves, i, at[n..][k], at[n..][k + 1]) {
      assert Goes(moves, run[n + k].next, at[n + k], at[n + k + 1]) && run[n + k] == turn[k];
    }
    TurnForces(moves, m, st, i, at[n..], at[n - 1]);
  }

  /** Every document that is somewhere after i moves was somewhere at the start. */
  lemma {:induction false} Origin(moves: seq<Move>, store: Store, i: nat, q: Path) returns (p: Path)
    requires Elsewhere(moves) && i <= |moves| && q in Archived(store, moves, i).store
    ensures p in store && Place(moves, store, i, p) == q && store[p] == Archived(store, moves, i).store[q]
  {
    if i == 0 {
      p := q;
    } else {
      var m, st := moves[i - 1], Archived(store, moves, i - 1).store;
      p := Origin(moves, store, i - 1, if q == m.dst && m.src in st then m.src else q);
    }
  }

  /** The states in which the copy is about to be made and has been made. */
  function CopyMade(m: Move, st: Store, i: nat): seq<State>
    requires m.src in st
  {
    [State(st, i, Copy(st[m.src])), State(st[m.dst := st[m.src]], i, Verify(st[m.src]))]
  }

  lemma CopyMadeIsRun(moves: seq<Move>, store: Store, run: seq<State>, st: Store, i: nat)
    requires i < |moves| && moves[i].src in st && IsRun(moves, true, run, store)
        && run[|run| - 1] == State(st, i, Fetch)
    ensures IsRun(moves, true, run + CopyMade(moves[i], st, i), store)
  {
    var made := CopyMade(moves[i], st, i);
    OneMoreStep(moves, true, run, store, made[0]);
    OneMoreStep(moves, true, run + [made[0]], store, made[1]);
    assert run + made == run + [made[0]] + [made[1]];
  }

  /** Who is not at the source while a copy is made stays where he is. */
  lemma CopyEnds(moves: seq<Move>, before: seq<State>, more: seq<State>, i: nat, p: Path, d: Data, q: Path)
    requires EndsAt(moves, before, p, d, q) && |before| > 0 && |more| == 2
    requires before[|before| - 1].next == i == more[0].next && i < |moves| && q != moves[i].src
    ensures EndsAt(moves, before + more, p, d, q)
  {
    var run, n := before + more, |before|;
    forall at | Followed(moves, run, p, d, at) ensures at[|at| - 1] == q {
      assert run[..n] == before;
      FollowedBefore(moves, run, p, d, at, n);
      assert Goes(moves, run[n - 1].next, at[n - 1], at[n - 1 + 1]) && Goes(moves, run[n].next, at[n], at[n + 1]);
    }
  }

  /** Where a document must be followed to, its data is not. */
  lemma NotThereIsLost(moves: seq<Move>, honest: bool, store: Store, run: seq<State>, p: Path, q: Path)
    requires IsRun(moves, honest, run, store) && p in store && EndsAt(moves, run, p, store[p], q)
    requires q in run[|run| - 1].store ==> run[|run| - 1].store[q] != store[p]
    ensures !Lossless(moves, honest, store)
  {
    assert !Survives(moves, run, p, store[p]);
  }

  /** A copy over a different document loses that document. */
  lemma OverwriteLoses(moves: seq<Move>, store: Store, i: nat)
    requires Elsewhere(moves) && i < |moves| && !CopiesSafely(Archived(store, moves, i).store, moves[i])
    ensures !Lossless(moves, true, store)
  {
    var st, m := Archived(store, moves, i).store, moves[i];
    var track := Undisturbed(moves, store, i);
    CopyMadeIsRun(moves, store, track, st, i);
    var p := Origin(moves, store, i, m.dst);
    var run := track + CopyMade(m, st, i);
    assert EndsAt(moves, track, p, store[p], Place(moves, store, i, p));
    CopyEnds(moves, track, CopyMade(m, st, i), i, p, store[p], m.dst);
    NotThereIsLost(moves, true, store, run, p, m.dst);
  }

  /** With an honest server archiving loses nothing, whatever the list and wherever it is cut off, if and
      only if no document is copied, at its turn, over a different one. */
  lemma LosslessExactly(names: seq<string>, store: Store)
    ensures Lossless(MovesOf(names), true, store) <==> NoOverwrite(MovesOf(names), store)
  {
    var moves := MovesOf(names);
    MovesWellLaid(names);
    if NoOverwrite(moves, store) {
      forall run, p | IsRun(moves, true, run, store) && p in store ensures Survives(moves, run, p, store[p]) {
        var at := FollowAll(moves, store, run, p);
      }
    } else {
      var i :| 0 <= i < |moves| && !CopiesSafely(Archived(store, moves, i).store, moves[i]);
      OverwriteLoses(moves, store, i);
    }
  }

  // ----- lists in which no source is a destination, and a list in which one is

  /** At its first use no source meets a different document at its destination. */
  ghost predicate NoClash(moves: seq<Move>, store: Store) {
    forall i :: 0 <= i < |moves| && FirstUse(moves, i) && moves[i].src in store && moves[i].dst in store
      ==> store[moves[i].dst] == store[moves[i].src]
  }

  ghost predicate FirstUse(moves: seq<Move>, i: nat)
    requires i < |moves|
  {
    forall j :: 0 <= j < i ==> moves[j].src != moves[i].src
  }

  lemma {:induction false} ElsewhereUntouched(moves: seq<Move>, store: Store, i: nat, p: Path)
    requires i <= |moves| && forall j :: 0 <= j < i ==> moves[j].src != p && moves[j].dst != p
    ensures var t := Archived(store, moves, i).store; (p in t <==> p in store) && (p in store ==> t[p] == store[p])
  {
    if i > 0 {
      ElsewhereUntouched(moves, store, i - 1, p);
    }
  }

  lemma FirstUseAtItsTurn(moves: seq<Move>, store: Store, i: nat)
    requires WellLaid(moves) && Independent(moves) && i < |moves|
    ensures CopiesSafely(Archived(store, moves, i).store, moves[i])
            <==> FirstUse(moves, i) && moves[i].src in store && moves[i].dst in store
                 ==> store[moves[i].dst] == store[moves[i].src]
  {
    if FirstUse(moves, i) {
      forall j | 0 <= j < i ensures moves[j].src != moves[i].dst && moves[j].dst != moves[i].dst
          && moves[j].dst != moves[i].src {
      }
      ElsewhereUntouched(moves, store, i, moves[i].src);
      ElsewhereUntouched(moves, store, i, moves[i].dst);
    } else {
      SourcesGone(moves, store, i);
    }
  }

  /** When no listed name's source is another's destination, that is told from the store at the start. */
  lemma IndependentLossless(names: seq<string>, store: Store)
    requires Independent(MovesOf(names))
    ensures Lossless(MovesOf(names), true, store) <==> NoClash(MovesOf(names), store)
  {
    var moves := MovesOf(names);
    MovesWellLaid(names);
    LosslessExactly(names, store);
    forall i | 0 <= i < |moves|
      ensures CopiesSafely(Archived(store, moves, i).store, moves[i])
              <==> FirstUse(moves, i) && moves[i].src in store && moves[i].dst in store
                   ==> store[moves[i].dst] == store[moves[i].src]
    {
      FirstUseAtItsTurn(moves, store, i);
    }
  }

  /** A destination that an earlier move empties is no clash: archived first, the document that was there
      is not lost. */
  lemma EmptiedFirst(names: seq<string>, x: string, store: Store)
    requires '/' !in x && names == [FABRIC_ARCHIVE + x, x] && ARCHIVE + FABRIC_ARCHIVE + x !in store
    requires FABRIC + x in store && FABRIC_ARCHIVE + x in store && store[FABRIC + x] != store[FABRIC_ARCHIVE + x]
    ensures Lossless(MovesOf(names), true, store) && !NoClash(MovesOf(names), store)
  {
    var moves := MovesOf(names);
    var a, b, c := FABRIC + x, FABRIC_ARCHIVE + x, ARCHIVE + FABRIC_ARCHIVE + x;
    assert '/' in FABRIC_ARCHIVE;
    assert b[|FABRIC| - 1] == '/';
    assert moves[0] == Move(b, c) by {
      assert ARCHIVE + FABRIC_ARCHIVE + x == ARCHIVE + b;
    }
    assert moves[1] == Move(a, b);
    assert |a| < |b| < |c|;
    TwoInOrder(moves, store, a, b, c);
    LosslessExactly(names, store);
    assert FirstUse(moves, 1);
  }

  lemma TwoInOrder(moves: seq<Move>, store: Store, a: Path, b: Path, c: Path)
    requires moves == [Move(b, c), Move(a, b)] && a != b && b != c && c !in store && a in store && b in store
    ensures NoOverwrite(moves, store)
  {
    assert Archived(store, moves, 1).store == store[c := store[b]] - {b};
  }

  // ----- a server that may lose or garble what it is sent

  /** Something may be at q before the i-th move. */
  predicate MayHold(moves: seq<Move>, store: Store, i: nat, q: Path)
    requires i <= |moves|
  {
    if i == 0 then q in store
    else MayHold(moves, store, i - 1, q) || (moves[i - 1].dst == q && MayHold(moves, store, i - 1, moves[i - 1].src))
  }

  /** Nothing can come to be archived to where a document is at the start. */
  predicate Unoccupied(moves: seq<Move>, store: Store) {
    forall i :: 0 <= i < |moves| ==> MayHold(moves, store, i, moves[i].src) ==> moves[i].dst !in store
  }

  /** What the store holds can be there; after the copy the destination can too. */
  ghost predicate Expected(moves: seq<Move>, store: Store, s: State) {
    s.phase != Stopped ==>
      && s.next <= |moves|
      && (forall q :: q in s.store ==>
            || MayHold(moves, store, s.next, q)
            || (s.phase != Fetch && !s.phase.Copy? && s.next < |moves| && q == moves[s.next].dst
                && MayHold(moves, store, s.next, moves[s.next].src)))
  }

  lemma ExpectedKept(moves: seq<Move>, honest: bool, store: Store, s: State, s': State)
    requires WellLaid(moves) && Working(moves, s) && Expected(moves, store, s) && Step(moves, honest, s, s')
    ensures Expected(moves, store, s')
  {
  }

  lemma FollowStep(moves: seq<Move>, honest: bool, store: Store, s: State, s': State, p: Path, d: Data, way: seq<Path>)
    returns (way': seq<Path>)
    requires WellLaid(moves) && Unoccupied(moves, store) && p in store && Step(moves, honest, s, s')
    requires Working(moves, s) && Expected(moves, store, s) && Trail(moves, s.store, p, d, way)
    ensures Working(moves, s') && Expected(moves, store, s') && Trail(moves, s'.store, p, d, way')
    ensures Goes(moves, s.next, way[|way| - 1], way'[|way'| - 1])
  {
    WorkingKept(moves, honest, s, s');
    ExpectedKept(moves, honest, store, s, s');
    way' := TrailKept(moves, honest, s, s', p, d, way);
  }

  lemma {:induction false} FollowAnyServer(moves: seq<Move>, honest: bool, store: Store, run: seq<State>, p: Path)
    returns (at: seq<Path>, way: seq<Path>)
    requires WellLaid(moves) && Unoccupied(moves, store) && IsRun(moves, honest, run, store) && p in store
    ensures var s := run[|run| - 1];
      && Working(moves, s) && Expected(moves, store, s) && Followed(moves, run, p, store[p], at)
      && Trail(moves, s.store, p, store[p], way) && way[|way| - 1] == at[|at| - 1]
    decreases |run|
  {
    if |run| == 1 {
      at, way := [p], [p];
    } else {
      var n := |run| - 1;
      at, way := FollowAnyServer(moves, honest, store, run[..n], p);
      assert Step(moves, honest, run[n - 1], run[n - 1 + 1]);
      at, way := FollowedOn(moves, honest, store, run[..n], run[n], p, store[p], at, way);
      assert run[..n] + [run[n]] == run;
    }
  }

  lemma FollowedOn(moves: seq<Move>, honest: bool, store: Store, before: seq<State>, s': State, p: Path, d: Data,
                   at: seq<Path>, way: seq<Path>) returns (at': seq<Path>, way': seq<Path>)
    requires WellLaid(moves) && Unoccupied(moves, store) && p in store && |before| > 0
    requires Step(moves, honest, before[|before| - 1], s')
    requires Working(moves, before[|before| - 1]) && Expected(moves, store, before[|before| - 1])
    requires Trail(moves, before[|before| - 1].store, p, d, way) && Followed(moves, before, p, d, at)
    requires way[|way| - 1] == at[|at| - 1]
    ensures Working(moves, s') && Expected(moves, store, s') && Followed(moves, before + [s'], p, d, at')
    ensures Trail(moves, s'.store, p, d, way') && way'[|way'| - 1] == at'[|at'| - 1]
  {
    way' := FollowStep(moves, honest, store, before[|before| - 1], s', p, d, way);
    FollowedFurther(moves, before, p, d, at, s', way'[|way'| - 1]);
    at' := at + [way'[|way'| - 1]];
  }

  // ----- how such a server loses a document

  function Junk(d: Data): (j: Data)
    ensures j != d
  {
    if "" in d then map[] else map["" := ""]
  }

  /** A server that garbles every copy: the check fails, and the source stays. */
  function Garbling(moves: seq<Move>, store: Store, i: nat): Store
    requires i <= |moves|
  {
    if i == 0 then store
    else
      var st, m := Garbling(moves, store, i - 1), moves[i - 1];
      if m.src in st then st[m.dst := Junk(st[m.src])] else st
  }

  lemma {:induction false} GarblingHolds(moves: seq<Move>, store: Store, i: nat, q: Path)
    requires i <= |moves|
    ensures q in Garbling(moves, store, i) <==> MayHold(moves, store, i, q)
  {
    if i > 0 {
      GarblingHolds(moves, store, i - 1, q);
      GarblingHolds(moves, store, i - 1, moves[i - 1].src);
    }
  }

  /** Nothing has been written to p before the i-th move. */
  ghost predicate Spared(moves: seq<Move>, store: Store, i: nat, p: Path)
    requires i <= |moves|
  {
    forall k :: 0 <= k < i && moves[k].dst == p ==> !MayHold(moves, store, k, moves[k].src)
  }

  function GarbledTurn(m: Move, st: Store, i: nat): seq<State> {
    if m.src in st then
      var d := st[m.src];
      var garbled := st[m.dst := Junk(d)];
      [State(st, i, Copy(d)), State(garbled, i, Verify(d)), State(garbled, i + 1, Fetch)]
    else [State(st, i + 1, Fetch)]
  }

  lemma GarbledTurnIsRun(moves: seq<Move>, store: Store, run: seq<State>, st: Store, i: nat)
    requires i < |moves| && IsRun(moves, false, run, store) && run[|run| - 1] == State(st, i, Fetch)
    ensures IsRun(moves, false, run + GarbledTurn(moves[i], st, i), store)
  {
    var m := moves[i];
    if m.src in st {
      var d := st[m.src];
      var garbled := st[m.dst := Junk(d)];
      var s1, s2, s3 := State(st, i, Copy(d)), State(garbled, i, Verify(d)), State(garbled, i + 1, Fetch);
      assert Garbled(m.dst, st, garbled) && Posts(false, m.dst, d, s1, s2);
      OneMoreStep(moves, false, run, store, s1);
      OneMoreStep(moves, false, run + [s1], store, s2);
      OneMoreStep(moves, false, run + [s1] + [s2], store, s3);
      assert run + [s1] + [s2] + [s3] == run + GarbledTurn(m, st, i);
    } else {
      OneMoreStep(moves, false, run, store, State(st, i + 1, Fetch));
    }
  }

  lemma LastGarbledForces(moves: seq<Move>, before: seq<State>, m: Move, st: Store, i: nat, p: Path, d: Data,
                          at: seq<Path>)
    requires i < |moves| && moves[i] == m && m.src != m.dst && |before| > 0
        && before[|before| - 1] == State(st, i, Fetch)
    requires p in st && st[p] == d && at != [] && |before| <= |at| && at[|before| - 1] == p
    requires Followed(moves, before + GarbledTurn(m, st, i), p, d, at)
    ensures at[|at| - 1] == p
  {
    var turn, n := GarbledTurn(m, st, i), |before|;
    var run := before + turn;
    assert Goes(moves, run[n - 1].next, at[n - 1], at[n - 1 + 1]);
    if m.src in st {
      assert run[n + 1] == turn[1];
      assert Goes(moves, run[n].next, at[n], at[n + 1]) && Goes(moves, run[n + 1].next, at[n + 1], at[n + 1 + 1]);
    }
  }

  /** Through a garbled turn a document is followed nowhere. */
  lemma GarbledTurnKeeps(moves: seq<Move>, before: seq<State>, run: seq<State>, m: Move, st: Store, i: nat, p: Path,
      d: Data)
    requires i < |moves| && moves[i] == m && m.src != m.dst && |before| > 0
        && before[|before| - 1] == State(st, i, Fetch)
    requires EndsAt(moves, before, p, d, p) && p in st && st[p] == d && run == before + GarbledTurn(m, st, i)
    ensures EndsAt(moves, run, p, d, p)
  {
    var n := |before|;
    forall at | Followed(moves, run, p, d, at) ensures at[|at| - 1] == p {
      assert run[..n] == before;
      FollowedBefore(moves, run, p, d, at, n);
      assert Followed(moves, before, p, d, at[..n]);
      LastGarbledForces(moves, before, m, st, i, p, d, at);
    }
  }

  lemma {:induction false} GarblingSpares(moves: seq<Move>, store: Store, i: nat, p: Path)
    requires i <= |moves| && p in store && Spared(moves, store, i, p)
    ensures p in Garbling(moves, store, i) && Garbling(moves, store, i)[p] == store[p]
  {
    if i > 0 {
      GarblingSpares(moves, store, i - 1, p);
      GarblingHolds(moves, store, i - 1, moves[i - 1].src);
    }
  }

  lemma {:induction false} GarbledRun(moves: seq<Move>, store: Store, i: nat, p: Path) returns (run: seq<State>)
    requires Elsewhere(moves) && i <= |moves| && p in store && Spared(moves, store, i, p)
    ensures IsRun(moves, false, run, store) && run[|run| - 1] == State(Garbling(moves, store, i), i, Fetch)
    ensures EndsAt(moves, run, p, store[p], p)
  {
    if i == 0 {
      run := [Start(store)];
    } else {
      var before := GarbledRun(moves, store, i - 1, p);
      var m, st := moves[i - 1], Garbling(moves, store, i - 1);
      assert m.src != m.dst;
      GarblingSpares(moves, store, i - 1, p);
      GarbledTurnIsRun(moves, store, before, st, i - 1);
      GarbledTurnFetches(m, st, i - 1);
      run := before + GarbledTurn(m, st, i - 1);
      GarbledTurnKeeps(moves, before, run, m, st, i - 1, p, store[p]);
    }
  }

  lemma GarbledTurnFetches(m: Move, st: Store, i: nat)
    ensures var turn := GarbledTurn(m, st, i);
      turn != [] && turn[|turn| - 1] == State(if m.src in st then st[m.dst := Junk(st[m.src])] else st, i + 1, Fetch)
  {
  }

  /** The first move that can write to where a document is. */
  lemma {:induction false} FirstWrite(moves: seq<Move>, store: Store, i: nat) returns (j: nat)
    requires i < |moves| && MayHold(moves, store, i, moves[i].src)
    ensures j <= i && moves[j].dst == moves[i].dst && MayHold(moves, store, j, moves[j].src)
    ensures Spared(moves, store, j, moves[i].dst)
  {
    if k: nat :| k < i && moves[k].dst == moves[i].dst && MayHold(moves, store, k, moves[k].src) {
      j := FirstWrite(moves, store, k);
    } else {
      j := i;
    }
  }

  lemma OccupiedLoses(moves: seq<Move>, store: Store, i: nat)
    requires WellLaid(moves) && i < |moves| && MayHold(moves, store, i, moves[i].src) && moves[i].dst in store
    ensures !Lossless(moves, false, store)
  {
    var j := FirstWrite(moves, store, i);
    var p := moves[j].dst;
    var before := GarbledRun(moves, store, j, p);
    var m, st := moves[j], Garbling(moves, store, j);
    GarblingHolds(moves, store, j, m.src);
    GarblingSpares(moves, store, j, p);
    var d := st[m.src];
    var x := if d == store[p] then Junk(d) else d;
    var s1, s2 := State(st, j, Copy(d)), State(st[p := x], j, Verify(d));
    assert Garbled(m.dst, st, st[p := x]) && Posts(false, m.dst, d, s1, s2);
    OneMoreStep(moves, false, before, store, s1);
    OneMoreStep(moves, false, before + [s1], store, s2);
    var run := before + [s1, s2];
    assert run == before + [s1] + [s2];
    CopyEnds(moves, before, [s1, s2], j, p, store[p], p);
    NotThereIsLost(moves, false, store, run, p, p);
  }

  /** With a server that may lose or garble copies, archiving loses nothing, whatever the list and
      wherever it is cut off, if and only if nothing can come to be archived to where a document is. */
  lemma LosslessWithAnyServer(names: seq<string>, store: Store)
    ensures Lossless(MovesOf(names), false, store) <==> Unoccupied(MovesOf(names), store)
  {
    var moves := MovesOf(names);
    MovesWellLaid(names);
    if Unoccupied(moves, store) {
      forall run, p | IsRun(moves, false, run, store) && p in store ensures Survives(moves, run, p, store[p]) {
        var at, way := FollowAnyServer(moves, false, store, run, p);
      }
    } else {
      var i :| 0 <= i < |moves| && MayHold(moves, store, i, moves[i].src) && moves[i].dst in store;
      OccupiedLoses(moves, store, i);
    }
  }
}
