/** Removing an indented block from a list of lines, said without the scan that does it. What a line is
    comes in as a grammar, so nothing here looks inside a line. */
module LineBlocks {

  datatype Top = NoKey | Under(key: string)

  /** The top-level key a line names, whether it can open the block, whether it belongs to an open one. */
  datatype Grammar<!L> = Grammar(names: L -> Top, opener: L -> bool, inside: L -> bool)

  /** A line of a block never names a top-level key. */
  ghost predicate Sound<L(!new)>(g: Grammar<L>) {
    forall l :: g.opener(l) || g.inside(l) ==> g.names(l) == NoKey
  }

  /** The top-level key that the end of these lines stands under. */
  function TopAfter<L>(g: Grammar<L>, lines: seq<L>): Top {
    if lines == [] then NoKey
    else if g.names(lines[|lines| - 1]) != NoKey then g.names(lines[|lines| - 1])
    else TopAfter(g, lines[..|lines| - 1])
  }

  /** The last of these lines opens a block: an opener under the key. */
  predicate Opens<L>(g: Grammar<L>, key: string, lines: seq<L>) {
    lines != [] && TopAfter(g, lines) == Under(key) && g.opener(lines[|lines| - 1])
  }

  /** The last of these lines is in a block: it opens one, or it belongs to the one its predecessor is in. */
  predicate InBlock<L>(g: Grammar<L>, key: string, lines: seq<L>) {
    lines != [] &&
    (Opens(g, key, lines) || (g.inside(lines[|lines| - 1]) && InBlock(g, key, lines[..|lines| - 1])))
  }

  /** The lines that are in no block. */
  function Kept<L>(g: Grammar<L>, key: string, lines: seq<L>): seq<L> {
    if lines == [] then []
    else Kept(g, key, lines[..|lines| - 1]) + if InBlock(g, key, lines) then [] else [lines[|lines| - 1]]
  }

  predicate HasBlock<L>(g: Grammar<L>, key: string, lines: seq<L>) {
    lines != [] && (Opens(g, key, lines) || HasBlock(g, key, lines[..|lines| - 1]))
  }

  predicate OpensAt<L>(g: Grammar<L>, key: string, lines: seq<L>, i: nat)
    requires i < |lines|
  {
    Opens(g, key, lines[..i + 1])
  }

  predicate RemovedAt<L>(g: Grammar<L>, key: string, lines: seq<L>, i: nat)
    requires i < |lines|
  {
    InBlock(g, key, lines[..i + 1])
  }

  lemma RemovedAtStep<L>(g: Grammar<L>, key: string, lines: seq<L>, i: nat)
    requires i < |lines|
    ensures RemovedAt(g, key, lines, i) <==>
      OpensAt(g, key, lines, i) || (i > 0 && g.inside(lines[i]) && RemovedAt(g, key, lines, i - 1))
  {
    var upTo := lines[..i + 1];
    assert upTo[|upTo| - 1] == lines[i] && upTo[..|upTo| - 1] == lines[..i];
    assert i == 0 ==> !InBlock(g, key, lines[..i]);
  }

  /** A removed line is a block's first line, or belongs to the unbroken run of inside lines right after
      one; and every such line is removed. */
  lemma {:induction false} BlockIsMaximalRun<L>(g: Grammar<L>, key: string, lines: seq<L>, i: nat)
    requires i < |lines|
    ensures RemovedAt(g, key, lines, i) <==>
      exists j :: 0 <= j <= i && OpensAt(g, key, lines, j) && forall k :: j < k <= i ==> g.inside(lines[k])
  {
    RemovedAtStep(g, key, lines, i);
    if i > 0 {
      BlockIsMaximalRun(g, key, lines, i - 1);
    }
  }

  /** Inside lines after a line of a block change nothing but the length of the block. */
  lemma {:induction false} BlockGoesOn<L(!new)>(g: Grammar<L>, key: string, lines: seq<L>, i: nat, j: nat)
    requires Sound(g) && 0 < i <= j <= |lines| && InBlock(g, key, lines[..i]) && HasBlock(g, key, lines[..i])
    requires forall k :: i <= k < j ==> g.inside(lines[k])
    ensures InBlock(g, key, lines[..j]) && HasBlock(g, key, lines[..j])
    ensures Kept(g, key, lines[..j]) == Kept(g, key, lines[..i]) && TopAfter(g, lines[..j]) == TopAfter(g, lines[..i])
    decreases j
  {
    if i < j {
      BlockGoesOn(g, key, lines, i, j - 1);
      assert lines[..j][..j - 1] == lines[..j - 1];
    }
  }

  /** The next line, when the block before it is over. */
  lemma NextLine<L>(g: Grammar<L>, key: string, lines: seq<L>, i: nat)
    requires i < |lines| && (InBlock(g, key, lines[..i]) ==> !g.inside(lines[i]))
    ensures var top := if g.names(lines[i]) != NoKey then g.names(lines[i]) else TopAfter(g, lines[..i]);
      var opens := top == Under(key) && g.opener(lines[i]);
      && TopAfter(g, lines[..i + 1]) == top
      && InBlock(g, key, lines[..i + 1]) == opens
      && HasBlock(g, key, lines[..i + 1]) == (opens || HasBlock(g, key, lines[..i]))
      && Kept(g, key, lines[..i + 1]) == Kept(g, key, lines[..i]) + if opens then [] else [lines[i]]
  {
    assert lines[..i + 1][..i] == lines[..i];
  }

  /** There is a block exactly when a line opens one. */
  lemma {:induction false} HasBlockAt<L>(g: Grammar<L>, key: string, lines: seq<L>, n: nat)
    requires n <= |lines|
    ensures HasBlock(g, key, lines[..n]) <==> exists j :: 0 <= j < n && OpensAt(g, key, lines, j)
  {
    if n > 0 {
      HasBlockAt(g, key, lines, n - 1);
      assert lines[..n][..n - 1] == lines[..n - 1];
      assert OpensAt(g, key, lines, n - 1) <==> Opens(g, key, lines[..n]);
    }
  }

  lemma KeptLast<L>(g: Grammar<L>, key: string, lines: seq<L>)
    requires lines != []
    ensures var init := Kept(g, key, lines[..|lines| - 1]);
      if InBlock(g, key, lines) then Kept(g, key, lines) == init
      else |Kept(g, key, lines)| == |init| + 1 && Kept(g, key, lines)[..|init|] == init
           && Kept(g, key, lines)[|init|] == lines[|lines| - 1]
  {
  }

  /** The output is under the same key as the input. */
  lemma {:induction false} KeptKeepsTop<L(!new)>(g: Grammar<L>, key: string, lines: seq<L>)
    requires Sound(g)
    ensures TopAfter(g, Kept(g, key, lines)) == TopAfter(g, lines)
  {
    if lines != [] {
      KeptKeepsTop(g, key, lines[..|lines| - 1]);
      KeptLast(g, key, lines);
    }
  }

  /** The output has no block left. */
  lemma {:induction false} KeptHasNoBlock<L(!new)>(g: Grammar<L>, key: string, lines: seq<L>)
    requires Sound(g)
    ensures !HasBlock(g, key, Kept(g, key, lines))
  {
    if lines != [] {
      KeptHasNoBlock(g, key, lines[..|lines| - 1]);
      KeptLast(g, key, lines);
      KeptKeepsTop(g, key, lines);
    }
  }

  /** Lines without a block are all kept. */
  lemma {:induction false} NoBlockIsKept<L>(g: Grammar<L>, key: string, lines: seq<L>)
    requires !HasBlock(g, key, lines)
    ensures Kept(g, key, lines) == lines && !InBlock(g, key, lines)
  {
    if lines != [] {
      NoBlockIsKept(g, key, lines[..|lines| - 1]);
    }
  }

  /** Where in the input the first n lines left lines in the output. */
  function KeptAt<L>(g: Grammar<L>, key: string, lines: seq<L>, n: nat): (at: seq<nat>)
    requires n <= |lines|
    ensures forall m :: 0 <= m < |at| ==> at[m] < n
  {
    if n == 0 then []
    else KeptAt(g, key, lines, n - 1) + if RemovedAt(g, key, lines, n - 1) then [] else [n - 1]
  }

  lemma KeptStep<L>(g: Grammar<L>, key: string, lines: seq<L>, n: nat)
    requires 0 < n <= |lines|
    ensures Kept(g, key, lines[..n]) ==
      Kept(g, key, lines[..n - 1]) + if RemovedAt(g, key, lines, n - 1) then [] else [lines[n - 1]]
  {
    var upTo := lines[..n];
    assert upTo[|upTo| - 1] == lines[n - 1] && upTo[..|upTo| - 1] == lines[..n - 1];
  }

  lemma {:induction false} KeptAtLength<L>(g: Grammar<L>, key: string, lines: seq<L>, n: nat)
    requires n <= |lines|
    ensures |KeptAt(g, key, lines, n)| == |Kept(g, key, lines[..n])|
  {
    if n > 0 {
      KeptAtLength(g, key, lines, n - 1);
      KeptStep(g, key, lines, n);
    }
  }

  /** out is what stands, among the first n lines, at the places outside the blocks, in order. */
  ghost predicate InOrder<L>(g: Grammar<L>, key: string, lines: seq<L>, n: nat, at: seq<nat>, out: seq<L>)
    requires n <= |lines|
  {
    && |at| == |out|
    && (forall i :: i in at <==> 0 <= i < n && !RemovedAt(g, key, lines, i))
    && (forall m, k :: 0 <= m < k < |at| ==> at[m] < at[k])
    && (forall m :: 0 <= m < |at| ==> at[m] < |lines| && out[m] == lines[at[m]])
  }

  lemma InOrderStep<L>(g: Grammar<L>, key: string, lines: seq<L>, n: nat, at: seq<nat>, out: seq<L>,
                             at0: seq<nat>, out0: seq<L>)
    requires 0 < n <= |lines| && InOrder(g, key, lines, n - 1, at0, out0)
    requires at == at0 + if RemovedAt(g, key, lines, n - 1) then [] else [n - 1]
    requires out == out0 + if RemovedAt(g, key, lines, n - 1) then [] else [lines[n - 1]]
    ensures InOrder(g, key, lines, n, at, out)
  {
    assert forall m :: 0 <= m < |at0| ==> at0[m] in at0;
  }

  /** The output is exactly the lines outside the blocks, unchanged and in order. */
  lemma {:induction false} KeptInOrder<L>(g: Grammar<L>, key: string, lines: seq<L>, n: nat)
    requires n <= |lines|
    ensures var at, out := KeptAt(g, key, lines, n), Kept(g, key, lines[..n]);
      InOrder(g, key, lines, n, at, out)
  {
    if n > 0 {
      KeptInOrder(g, key, lines, n - 1);
      KeptStep(g, key, lines, n);
      InOrderStep(g, key, lines, n, KeptAt(g, key, lines, n), Kept(g, key, lines[..n]),
                  KeptAt(g, key, lines, n - 1), Kept(g, key, lines[..n - 1]));
    }
  }

  lemma SameBefore<T>(a: seq<T>, more: seq<T>, m: nat)
    requires m < |a|
    ensures (a + more)[..m + 1] == a[..m + 1] && (a + more)[m] == a[m]
  {
  }

  lemma KeptBefore<L>(g: Grammar<L>, key: string, lines: seq<L>, n: nat, m: nat)
    requires 0 < n <= |lines| && m < |KeptAt(g, key, lines, n - 1)| == |Kept(g, key, lines[..n - 1])|
    ensures m < |Kept(g, key, lines[..n])| && m < |KeptAt(g, key, lines, n)|
    ensures Kept(g, key, lines[..n])[..m + 1] == Kept(g, key, lines[..n - 1])[..m + 1]
    ensures KeptAt(g, key, lines, n)[m] == KeptAt(g, key, lines, n - 1)[m]
  {
    KeptStep(g, key, lines, n);
    var removed := RemovedAt(g, key, lines, n - 1);
    SameBefore(Kept(g, key, lines[..n - 1]), if removed then [] else [lines[n - 1]], m);
    SameBefore(KeptAt(g, key, lines, n - 1), if removed then [] else [n - 1], m);
  }

  lemma KeptHere<L>(g: Grammar<L>, key: string, lines: seq<L>, n: nat, m: nat)
    requires 0 < n <= |lines| && |KeptAt(g, key, lines, n - 1)| <= m < |KeptAt(g, key, lines, n)|
    requires |KeptAt(g, key, lines, n)| == |Kept(g, key, lines[..n])|
    ensures Kept(g, key, lines[..n])[..m + 1] == Kept(g, key, lines[..n]) && KeptAt(g, key, lines, n)[m] == n - 1
  {
  }

  /** Each line of the output stands under the key it stood under. */
  lemma {:induction false} KeptUnderSameKey<L(!new)>(g: Grammar<L>, key: string, lines: seq<L>, n: nat, m: nat)
    requires Sound(g) && n <= |lines| && m < |KeptAt(g, key, lines, n)|
    ensures m < |Kept(g, key, lines[..n])|
    ensures TopAfter(g, Kept(g, key, lines[..n])[..m + 1]) == TopAfter(g, lines[..KeptAt(g, key, lines, n)[m] + 1])
    decreases n
  {
    KeptAtLength(g, key, lines, n - 1);
    KeptAtLength(g, key, lines, n);
    if m < |KeptAt(g, key, lines, n - 1)| {
      KeptUnderSameKey(g, key, lines, n - 1, m);
      KeptBefore(g, key, lines, n, m);
    } else {
      KeptHere(g, key, lines, n, m);
      KeptKeepsTop(g, key, lines[..n]);
    }
  }
}
