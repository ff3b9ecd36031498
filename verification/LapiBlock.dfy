/** The remover of the `server:` block under top-level `api:` in a CrowdSec configuration
    (roles/crowdsec_agent/_archive/crowdsec-disable-local-lapi.py). */
module LapiBlock {
  import opened Basics
  import opened LineBlocks

  /** A line with its line ending, as `splitlines(keepends=True)` gives it. */
  type Line = string

  function Strip(s: string): string {
    RStrip(LStrip(s))
  }

  /** The line without its newline. */
  function Text(line: Line): string {
    if line != "" && line[|line| - 1] == '\n' then Text(line[..|line| - 1]) else line
  }

  function Indent(text: string): nat {
    |text| - |LStrip(text)|
  }

  function BeforeColon(s: string): string {
    if s == "" || s[0] == ':' then "" else [s[0]] + BeforeColon(s[1..])
  }

  predicate Blank(line: Line) {
    Strip(Text(line)) == ""
  }

  /** A line that names a top-level key: something at column 0 that is not a comment. */
  predicate IsKeyLine(line: Line) {
    Text(line) != "" && !IsSpace(Text(line)[0]) && Text(line)[0] != '#'
  }

  function Key(line: Line): string {
    Strip(BeforeColon(Text(line)))
  }

  predicate IsServerLine(line: Line) {
    Indent(Text(line)) == 2 && Strip(Text(line)) == "server:"
  }

  /** What belongs to the block after its first line: a blank line, or one indented deeper. */
  predicate Deeper(line: Line) {
    Blank(line) || (IsSpace(Text(line)[0]) && Indent(Text(line)) > 2)
  }

  /** The lines of a YAML file, as the program tells them apart. */
  function Yaml(): Grammar<Line> {
    Grammar((l: Line) => if IsKeyLine(l) then Under(Key(l)) else NoKey,
            (l: Line) => IsServerLine(l), (l: Line) => Deeper(l))
  }

  const API := "api"

  lemma YamlSound()
    ensures Sound(Yaml())
  {
  }

  // ----- the lines, as they are written

  /** Two blanks, `server:`, and nothing else but blanks. */
  ghost predicate ServerLine(line: Line) {
    && |line| >= 9 && IsSpace(line[0]) && IsSpace(line[1]) && line[2..9] == "server:"
    && AllSpace(line[9..])
  }

  /** Only blanks, or more than two of them before something. */
  ghost predicate DeepLine(line: Line) {
    AllSpace(line) || (|line| > 2 && AllSpace(line[..3]))
  }

  /** Something at column 0, and not a comment. */
  ghost predicate KeyLine(line: Line) {
    line != "" && !IsSpace(line[0]) && line[0] != '#'
  }

  /** `api`, perhaps blanks, and then a colon or the end. */
  ghost predicate ApiLine(line: Line) {
    exists n :: 3 <= n <= |line| && line[..3] == "api" && AllSpace(line[3..n]) && (n < |line| ==> line[n] == ':')
  }

  /** The line is its text and line feeds. */
  lemma {:induction false} TextIs(line: Line)
    ensures var t := Text(line);
      t <= line && AllSpace(line[|t|..]) && (line != "" && line[0] != '\n' ==> t != "")
  {
    if line != "" && line[|line| - 1] == '\n' {
      var init := line[..|line| - 1];
      TextIs(init);
      assert line[|Text(line)|..] == init[|Text(line)|..] + ['\n'];
    }
  }

  lemma SpaceAppend(a: string, b: string)
    ensures AllSpace(a + b) <==> AllSpace(a) && AllSpace(b)
  {
    if AllSpace(a + b) {
      forall i | 0 <= i < |a| ensures IsSpace(a[i]) {
        assert (a + b)[i] == a[i];
      }
      forall i | 0 <= i < |b| ensures IsSpace(b[i]) {
        assert (a + b)[|a| + i] == b[i];
      }
    }
  }

  lemma StripOfSpace(s: string)
    ensures Strip(s) == "" <==> AllSpace(s)
  {
    LStripIs(s);
    var r, n := LStrip(s), |s| - |LStrip(s)|;
    SpaceAppend(s[..n], r);
    assert s == s[..n] + r;
  }

  lemma BlankExactly(line: Line)
    ensures Blank(line) <==> AllSpace(line)
  {
    var t := Text(line);
    TextIs(line);
    StripOfSpace(t);
    SpaceAppend(t, line[|t|..]);
    assert line == t + line[|t|..];
  }

  /** The indent is at least n exactly when the text begins with n blanks and something follows, or all is blank. */
  lemma IndentExactly(t: string, n: nat)
    requires !AllSpace(t)
    ensures Indent(t) >= n <==> n <= |t| && AllSpace(t[..n])
  {
    LStripIs(t);
    var i := Indent(t);
    SpaceAppend(t[..i], LStrip(t));
    assert t == t[..i] + LStrip(t);
    if n <= i {
      assert forall k :: 0 <= k < n ==> t[..n][k] == t[..i][k];
    } else if n <= |t| {
      assert t[..n][i] == LStrip(t)[0];
    }
  }

  lemma DeeperExactly(line: Line)
    ensures Deeper(line) <==> DeepLine(line)
  {
    BlankExactly(line);
    if !AllSpace(line) {
      var t := Text(line);
      TextIs(line);
      SpaceAppend(t, line[|t|..]);
      assert line == t + line[|t|..];
      IndentExactly(t, 3);
      assert |t| >= 3 ==> t[..3] == line[..3];
      assert |t| < 3 <= |line| ==> line[..3][..|t|] == t;
    }
  }

  /** RStrip cuts a text that ends in something else, and then blanks, where that ends. */
  lemma {:induction false} RStripEnds(s: string, w: string)
    requires s != "" && !IsSpace(s[|s| - 1]) && AllSpace(w)
    ensures RStrip(s + w) == s
    decreases |w|
  {
    if w == "" {
      assert s + w == s;
    } else {
      assert (s + w)[..|s + w| - 1] == s + w[..|w| - 1];
      RStripEnds(s, w[..|w| - 1]);
    }
  }

  lemma {:induction false} LStripEnds(w: string, s: string)
    requires s != "" && !IsSpace(s[0]) && AllSpace(w)
    ensures LStrip(w + s) == s
  {
    if w == "" {
      assert w + s == s;
    } else {
      assert (w + s)[1..] == w[1..] + s;
      LStripEnds(w[1..], s);
    }
  }

  /** The line is n blanks, the word and blanks. */
  ghost predicate Lays(line: Line, n: nat, word: string) {
    exists rest :: AllSpace(rest) && n <= |line| && AllSpace(line[..n]) && line == line[..n] + word + rest
  }

  lemma Regroup(a: string, b: string, c: string, d: string)
    ensures a + (b + c) + d == a + b + (c + d)
  {
  }

  lemma CutAfter(t: string, end: string, n: nat)
    requires n <= |t|
    ensures (t + end)[n..] == t[n..] + end && (t + end)[..n] == t[..n]
  {
  }

  lemma RStripLeaves(s: string, r: string)
    requires r == RStrip(s)
    ensures r <= s && s == r + s[|r|..] && AllSpace(s[|r|..])
  {
  }

  /** The text is as many blanks as its indent, what it strips to, and blanks. */
  lemma TextParts(t: string, n: nat, word: string) returns (a: string, cut: string)
    requires Indent(t) == n && Strip(t) == word
    ensures |a| == n && AllSpace(a) && AllSpace(cut) && t == a + (word + cut)
  {
    var l := LStrip(t);
    LStripIs(t);
    RStripLeaves(l, word);
    a, cut := t[..n], l[|word|..];
  }

  lemma PartsLay(line: Line, a: string, word: string, cut: string, end: string)
    requires line == a + (word + cut) + end && AllSpace(a) && AllSpace(cut) && AllSpace(end)
    ensures Lays(line, |a|, word)
  {
    Regroup(a, word, cut, end);
    SpaceAppend(cut, end);
    assert line[..|a|] == a;
    assert line == line[..|a|] + word + (cut + end);
  }

  lemma StrippedLays(line: Line, n: nat, word: string)
    requires word != "" && Indent(Text(line)) == n && Strip(Text(line)) == word
    ensures Lays(line, n, word)
  {
    var t := Text(line);
    TextIs(line);
    var a, cut := TextParts(t, n, word);
    assert line == t + line[|t|..];
    PartsLay(line, a, word, cut, line[|t|..]);
  }

  lemma LaysStripped(line: Line, n: nat, word: string)
    requires word != "" && !IsSpace(word[0]) && !IsSpace(word[|word| - 1]) && Lays(line, n, word)
    ensures Indent(Text(line)) == n && Strip(Text(line)) == word
  {
    var t, w := Text(line), line[..n];
    var rest :| AllSpace(rest) && line == w + word + rest;
    var m := n + |word|;
    assert line[m - 1] == word[|word| - 1];
    TextKeeps(line, m);
    var cut := t[m..];
    assert t == w + word + cut;
    assert forall i :: 0 <= i < |cut| ==> cut[i] == rest[i];
    assert t == w + (word + cut);
    LStripEnds(w, word + cut);
    RStripEnds(word, cut);
  }

  /** What is not a line feed is not taken off the end, nor what is before it. */
  lemma {:induction false} TextKeeps(line: Line, n: nat)
    requires 0 < n <= |line| && line[n - 1] != '\n'
    ensures |Text(line)| >= n && Text(line) <= line
  {
    if line[|line| - 1] == '\n' {
      TextKeeps(line[..|line| - 1], n);
    }
  }

  lemma ServerLineExactly(line: Line)
    ensures IsServerLine(line) <==> ServerLine(line)
  {
    if IsServerLine(line) {
      StrippedLays(line, 2, "server:");
      var rest :| AllSpace(rest) && AllSpace(line[..2]) && line == line[..2] + "server:" + rest;
      assert line[0] == line[..2][0] && line[1] == line[..2][1];
      assert line[2..9] == "server:" && line[9..] == rest;
    }
    if ServerLine(line) {
      assert line == line[..2] + "server:" + line[9..];
      assert Lays(line, 2, "server:");
      LaysStripped(line, 2, "server:");
    }
  }

  lemma KeyLineExactly(line: Line)
    ensures IsKeyLine(line) <==> KeyLine(line)
  {
    TextIs(line);
  }
  lemma {:induction false} BeforeColonIs(s: string)
    ensures var b := BeforeColon(s); b <= s && ':' !in b && (|b| < |s| ==> s[|b|] == ':')
  {
    if s != "" && s[0] != ':' {
      BeforeColonIs(s[1..]);
    }
  }

  lemma {:induction false} BeforeFirstColon(s: string, n: nat)
    requires n <= |s| && ':' !in s[..n] && (n < |s| ==> s[n] == ':')
    ensures BeforeColon(s) == s[..n]
  {
    if n > 0 {
      assert s[..n][0] == s[0] && s[1..][..n - 1] == s[..n][1..];
      BeforeFirstColon(s[1..], n - 1);
    }
  }

  /** A word and blanks after it, stripped. */
  lemma StripsTo(s: string, word: string, w: string)
    requires word != "" && !IsSpace(word[0]) && !IsSpace(word[|word| - 1]) && s == word + w && AllSpace(w)
    ensures Strip(s) == word
  {
    RStripEnds(word, w);
  }

  lemma PartsAreApi(line: Line, t: string, end: string, b: string)
    requires line == t + end && AllSpace(end) && b <= t && (|b| < |t| ==> t[|b|] == ':')
    requires |b| >= 3 && b[..3] == "api" && AllSpace(b[3..])
    ensures ApiLine(line)
  {
    assert line[..3] == b[..3];
    if |b| < |t| {
      assert line[3..|b|] == b[3..] && line[|b|] == ':';
    } else {
      CutAfter(t, end, 3);
      SpaceAppend(b[3..], end);
      assert line[3..|line|] == b[3..] + end;
    }
  }

  lemma ApiFromKey(line: Line)
    requires IsKeyLine(line) && Key(line) == "api"
    ensures ApiLine(line)
  {
    var t := Text(line);
    var b := BeforeColon(t);
    TextIs(line);
    BeforeColonIs(t);
    assert b == "" ==> Strip(b) == "";
    assert b[0] == t[0];
    RStripLeaves(b, "api");
    assert line == t + line[|t|..] && b[..3] == "api";
    PartsAreApi(line, t, line[|t|..], b);
  }

  lemma KeyFromApi(line: Line)
    requires ApiLine(line)
    ensures IsKeyLine(line) && Key(line) == "api"
  {
    var n :| 3 <= n <= |line| && line[..3] == "api" && AllSpace(line[3..n]) && (n < |line| ==> line[n] == ':');
    var t := Text(line);
    TextIs(line);
    assert line[0] == "api"[0] && line[2] == "api"[2];
    TextKeeps(line, 3);
    var m := if n < |line| then n else |t|;
    if n < |line| {
      TextKeeps(line, n + 1);
    }
    assert t[..m] == "api" + t[3..m];
    assert forall i :: 0 <= i < |t[3..m]| ==> t[3..m][i] == line[3..n][i];
    BeforeFirstColon(t, m);
    StripsTo(t[..m], "api", t[3..m]);
  }

  // ----- what is removed, line by line

  /** Line k names `api` and no line after it, up to j, names a top-level key. */
  ghost predicate UnderApi(lines: seq<Line>, j: nat)
    requires j < |lines|
  {
    exists k :: 0 <= k <= j && ApiLine(lines[k]) && forall m :: k < m <= j ==> !KeyLine(lines[m])
  }

  lemma {:induction false} TopIsApi(lines: seq<Line>, j: nat)
    requires j < |lines|
    ensures TopAfter(Yaml(), lines[..j + 1]) == Under("api") <==> UnderApi(lines, j)
  {
    var upTo := lines[..j + 1];
    assert upTo[|upTo| - 1] == lines[j] && upTo[..|upTo| - 1] == lines[..j];
    KeyLineExactly(lines[j]);
    if IsKeyLine(lines[j]) && Key(lines[j]) == "api" {
      ApiFromKey(lines[j]);
    }
    if ApiLine(lines[j]) {
      KeyFromApi(lines[j]);
    }
    if j > 0 {
      TopIsApi(lines, j - 1);
    }
  }

  /** A line is removed exactly when a `server:` line under `api:` stands there, or above it with nothing but
      blank and deeper lines in between. */
  lemma RemovedExactly(lines: seq<Line>, i: nat)
    requires i < |lines|
    ensures RemovedAt(Yaml(), API, lines, i) <==>
      exists j :: 0 <= j <= i && ServerLine(lines[j]) && UnderApi(lines, j) && forall k :: j < k <= i ==>
        DeepLine(lines[k])
  {
    BlockIsMaximalRun(Yaml(), API, lines, i);
    forall j | 0 <= j <= i
      ensures OpensAt(Yaml(), API, lines, j) <==> ServerLine(lines[j]) && UnderApi(lines, j)
      ensures Yaml().inside(lines[j]) <==> DeepLine(lines[j])
    {
      OpensExactly(lines, j);
      DeeperExactly(lines[j]);
    }
  }

  /** A block was removed exactly when some `server:` line stands under `api:`. */
  lemma HasBlockExactly(lines: seq<Line>)
    ensures HasBlock(Yaml(), API, lines) <==> exists j :: 0 <= j < |lines| && ServerLine(lines[j]) && UnderApi(lines, j)
  {
    HasBlockAt(Yaml(), API, lines, |lines|);
    assert lines[..|lines|] == lines;
    forall j | 0 <= j < |lines| ensures OpensAt(Yaml(), API, lines, j) <==> ServerLine(lines[j]) && UnderApi(lines, j) {
      OpensExactly(lines, j);
    }
  }

  lemma OpensExactly(lines: seq<Line>, j: nat)
    requires j < |lines|
    ensures OpensAt(Yaml(), API, lines, j) <==> ServerLine(lines[j]) && UnderApi(lines, j)
  {
    TopIsApi(lines, j);
    ServerLineExactly(lines[j]);
    assert lines[..j + 1][j] == lines[j];
  }

  // ----- the program

  /** Past everything nested deeper than `server:`; blank lines are part of it. */
  method SkipBlock(src: seq<Line>, start: nat) returns (i: nat)
    requires start <= |src|
    ensures start <= i <= |src| && (forall k :: start <= k < i ==> Deeper(src[k])) && (i < |src| ==> !Deeper(src[i]))
  {
    i := start;
    while i < |src|
      invariant start <= i <= |src| && forall k :: start <= k < i ==> Deeper(src[k])
      decreases |src| - i
    {
      if Blank(src[i]) {
        i := i + 1;
        continue;
      }
      if !IsSpace(Text(src[i])[0]) {
        break;
      }
      if Indent(Text(src[i])) <= 2 {
        break;
      }
      i := i + 1;
    }
  }

  /** Writes back exactly the lines outside the `server:` blocks, and says whether there was one. */
  method RemoveServerBlock(src: seq<Line>) returns (out: seq<Line>, removed: bool)
    ensures out == Kept(Yaml(), API, src) && (removed <==> HasBlock(Yaml(), API, src))
  {
    out, removed := [], false;
    var top := NoKey;
    var i := 0;
    ghost var g := Yaml();
    YamlSound();
    while i < |src|
      invariant 0 <= i <= |src|
      invariant out == Kept(g, API, src[..i]) && (removed <==> HasBlock(g, API, src[..i]))
          && top == TopAfter(g, src[..i])
      invariant i < |src| && InBlock(g, API, src[..i]) ==> !g.inside(src[i])
    {
      var line := src[i];
      NextLine(g, API, src, i);
      if IsKeyLine(line) {
        top := Under(Key(line));
      }
      i := i + 1;
      if top == Under(API) && IsServerLine(line) {
        ghost var first := i;
        i := SkipBlock(src, i);
        BlockGoesOn(g, API, src, first, i);
        removed := true;
        continue;
      }
      out := out + [line];
    }
    assert src[..i] == src;
  }

  /** A second run reports UNCHANGED and leaves the file as the first one wrote it. */
  lemma SecondRunUnchanged(lines: seq<Line>)
    ensures var out := Kept(Yaml(), API, lines); !HasBlock(Yaml(), API, out) && Kept(Yaml(), API, out) == out
  {
    YamlSound();
    KeptHasNoBlock(Yaml(), API, lines);
    NoBlockIsKept(Yaml(), API, Kept(Yaml(), API, lines));
  }

  /** Nothing at column 0 but blank lines is ever removed. */
  lemma ColumnZeroKept(lines: seq<Line>, i: nat)
    requires i < |lines| && Text(lines[i]) != "" && !IsSpace(Text(lines[i])[0])
    ensures !RemovedAt(Yaml(), API, lines, i)
  {
  }
}
