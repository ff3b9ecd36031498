/** The inventory guard (scripts/check_inventory_removed_vars.py): a change must not remove a variable
    that code still reads. */
module RemovedVars {

  import opened Basics

  // ----- reading: the name as a whole word

  predicate IsWordChar(c: char) {
    'A' <= c <= 'Z' || 'a' <= c <= 'z' || '0' <= c <= '9' || c == '_'
  }

  /** By their codes: capitals, small letters, digits and the underscore. */
  lemma WordCharsAre(c: char)
    ensures IsWordChar(c) <==>
      65 <= c as int <= 90 || 97 <= c as int <= 122 || 48 <= c as int <= 57 || c as int == 95
  {
  }

  /** The name stands at i, with no word character before or after it. */
  predicate StandsAt(name: string, text: string, i: nat) {
    && i + |name| <= |text| && text[i..i + |name|] == name
    && (i == 0 || !IsWordChar(text[i - 1]))
    && (i + |name| == |text| || !IsWordChar(text[i + |name|]))
  }

  /** The look-around search succeeds. */
  predicate Reads(name: string, text: string) {
    exists i :: 0 <= i <= |text| && StandsAt(name, text, i)
  }

  predicate IsWord(name: string) {
    name != "" && forall i :: 0 <= i < |name| ==> IsWordChar(name[i])
  }

  /** Where the run of word characters that i lies in ends. */
  function RunEnd(text: string, i: nat): (j: nat)
    requires i <= |text|
    ensures i <= j <= |text| && (forall k :: i <= k < j ==> IsWordChar(text[k]))
        && (j == |text| || !IsWordChar(text[j]))
    decreases |text| - i
  {
    if i < |text| && IsWordChar(text[i]) then RunEnd(text, i + 1) else i
  }

  /** The text cut into its words, from i on. */
  function WordsFrom(text: string, i: nat): seq<string>
    requires i <= |text|
    decreases |text| - i
  {
    if i == |text| then []
    else if IsWordChar(text[i]) then
      var j := RunEnd(text, i + 1);
      [text[i..j]] + WordsFrom(text, j)
    else WordsFrom(text, i + 1)
  }

  function Words(text: string): seq<string> {
    WordsFrom(text, 0)
  }

  ghost predicate IsRun(text: string, a: int, b: int) {
    && 0 <= a < b <= |text| && (forall k :: a <= k < b ==> IsWordChar(text[k]))
    && (a == 0 || !IsWordChar(text[a - 1])) && (b == |text| || !IsWordChar(text[b]))
  }

  ghost predicate RunFrom(text: string, i: nat, w: string) {
    exists a, b :: i <= a && IsRun(text, a, b) && text[a..b] == w
  }

  lemma RunsAfterRun(text: string, i: nat, w: string)
    requires i < |text| && IsWordChar(text[i]) && (i == 0 || !IsWordChar(text[i - 1]))
    ensures var j := RunEnd(text, i + 1); RunFrom(text, i, w) <==> w == text[i..j] || RunFrom(text, j, w)
  {
  }

  lemma {:induction false} WordsAreRuns(text: string, i: nat, w: string)
    requires i <= |text| && (i == 0 || i == |text| || !IsWordChar(text[i - 1]) || !IsWordChar(text[i]))
    ensures w in WordsFrom(text, i) <==> RunFrom(text, i, w)
    decreases |text| - i
  {
    if i < |text| {
      if IsWordChar(text[i]) {
        RunsAfterRun(text, i, w);
        WordsAreRuns(text, RunEnd(text, i + 1), w);
      } else {
        WordsAreRuns(text, i + 1, w);
        assert RunFrom(text, i, w) <==> RunFrom(text, i + 1, w) by {
          if a, b :| i <= a && IsRun(text, a, b) && text[a..b] == w {
            assert a != i;
          }
        }
      }
    }
  }

  lemma StandsIsRun(name: string, text: string, i: nat)
    requires IsWord(name)
    ensures StandsAt(name, text, i)
        <==> i + |name| <= |text| && IsRun(text, i, i + |name|) && text[i..i + |name|] == name
  {
  }

  /** For a word, the look-around search is the search among the text's words. */
  lemma ReadsIsAWord(name: string, text: string)
    requires IsWord(name)
    ensures Reads(name, text) <==> name in Words(text)
  {
    WordsAreRuns(text, 0, name);
    if i :| 0 <= i <= |text| && StandsAt(name, text, i) {
      StandsIsRun(name, text, i);
    }
    if a, b :| 0 <= a && IsRun(text, a, b) && text[a..b] == name {
      assert b == a + |name|;
      StandsIsRun(name, text, a);
    }
  }

  lemma WordsAreWords(text: string, w: string)
    requires w in Words(text)
    ensures IsWord(w)
  {
    WordsAreRuns(text, 0, w);
    var a, b :| 0 <= a && IsRun(text, a, b) && text[a..b] == w;
    forall i | 0 <= i < |w| ensures IsWordChar(w[i]) {
      assert w[i] == text[a + i];
    }
  }

  /** The two searches agree on every text exactly for the names that are words. */
  lemma SearchesAgreeExactly(name: string)
    ensures IsWord(name) <==> forall text :: Reads(name, text) <==> name in Words(text)
  {
    if IsWord(name) {
      forall text ensures Reads(name, text) <==> name in Words(text) {
        ReadsIsAWord(name, text);
      }
    } else {
      ReadsItself(name);
      if name in Words(name) {
        WordsAreWords(name, name);
      }
    }
  }

  lemma ReadsItself(name: string)
    ensures Reads(name, name)
  {
    assert StandsAt(name, name, 0);
  }

  // ----- the code that reads

  /** An entry under roles/ or playbooks/: whether it is a file with a code suffix, and its text if it
      can be read. */
  datatype Code = Code(path: string, isCode: bool, text: Option<string>)

  predicate ReadBy(name: string, c: Code) {
    c.isCode && c.text.Some? && Reads(name, c.text.value)
  }

  function ReaderPaths(name: string, tree: seq<Code>): seq<string> {
    if tree == [] then []
    else
      var last := tree[|tree| - 1];
      ReaderPaths(name, tree[..|tree| - 1]) + if ReadBy(name, last) then [last.path] else []
  }

  method Readers(name: string, tree: seq<Code>) returns (found: seq<string>)
    ensures found == ReaderPaths(name, tree)
  {
    found := [];
    var i := 0;
    while i < |tree|
      invariant 0 <= i <= |tree|
      invariant found == ReaderPaths(name, tree[..i])
    {
      assert tree[..i + 1][..i] == tree[..i];
      var c := tree[i];
      i := i + 1;
      if !c.isCode || c.text.None? {
        continue;
      }
      if Reads(name, c.text.value) {
        found := found + [c.path];
      }
    }
    assert tree[..i] == tree;
  }

  lemma {:induction false} ReadersExactly(name: string, tree: seq<Code>)
    ensures ReaderPaths(name, tree) != [] <==> exists i :: 0 <= i < |tree| && ReadBy(name, tree[i])
  {
    if tree != [] {
      var front := tree[..|tree| - 1];
      ReadersExactly(name, front);
      forall i | 0 <= i < |front| ensures front[i] == tree[i] {
      }
    }
  }

  // ----- the inventory

  /** An inventory file, with the environment its path puts it in, if any, and the top-level names of
      its text. */
  datatype Vars = Vars(env: Option<string>, names: set<string>)

  /** Some file of the environment declares the name. */
  ghost predicate Declares(files: seq<Vars>, env: string, name: string) {
    exists i :: 0 <= i < |files| && files[i].env == Some(env) && name in files[i].names
  }

  predicate HasEnv(files: seq<Vars>, env: string) {
    exists i :: 0 <= i < |files| && files[i].env == Some(env)
  }

  type Names = map<string, set<string>>

  function Get(m: Names, env: string): set<string> {
    if env in m then m[env] else {}
  }

  ghost predicate IsUnion(files: seq<Vars>, out: Names) {
    && (forall env :: env in out <==> HasEnv(files, env))
    && (forall env, name :: name in Get(out, env) <==> Declares(files, env, name))
  }

  lemma UnionMore(files: seq<Vars>, out: Names, f: Vars)
    requires IsUnion(files, out)
    ensures IsUnion(files + [f], if f.env.Some? then out[f.env.value := Get(out, f.env.value) + f.names] else out)
  {
    var more := files + [f];
    var next := if f.env.Some? then out[f.env.value := Get(out, f.env.value) + f.names] else out;
    assert more[|files|] == f && forall i :: 0 <= i < |files| ==> more[i] == files[i];
    forall env ensures HasEnv(more, env) <==> HasEnv(files, env) || f.env == Some(env) {
    }
    forall env, name ensures Declares(more, env, name)
        <==> Declares(files, env, name) || (f.env == Some(env) && name in f.names) {
    }
  }

  /** Per environment, the union of what its files declare; other files are ignored. */
  method NamesByEnv(files: seq<Vars>) returns (out: Names)
    ensures IsUnion(files, out)
  {
    out := map[];
    for i := 0 to |files|
      invariant IsUnion(files[..i], out)
    {
      UnionMore(files[..i], out, files[i]);
      assert files[..i + 1] == files[..i] + [files[i]];
      match files[i].env {
        case Some(env) =>
          out := out[env := Get(out, env) + files[i].names];
        case None =>
      }
    }
    assert files[..|files|] == files;
  }

  function RemovedOf(base: Names, now: Names): set<(string, string)> {
    set env, name | env in base && name in base[env] - Get(now, env) :: (env, name)
  }

  /** Removed are the declarations of the base that no file of the same environment makes now: how the
      names are spread over an environment's files does not matter. */
  lemma RemovedExactly(base: seq<Vars>, now: seq<Vars>, b: Names, n: Names)
    requires IsUnion(base, b) && IsUnion(now, n)
    ensures forall env, name :: (env, name) in RemovedOf(b, n) <==>
          Declares(base, env, name) && !Declares(now, env, name)
  {
  }

  datatype Problem = Problem(env: string, name: string, readBy: seq<string>)

  function ProblemsAmong(gone: set<(string, string)>, tree: seq<Code>, accept: set<string>): set<Problem> {
    set p | p in gone && p.1 !in accept && ReaderPaths(p.1, tree) != [] :: Problem(p.0, p.1, ReaderPaths(p.1, tree))
  }

  lemma ProblemsMore(gone: set<(string, string)>, tree: seq<Code>, accept: set<string>, p: (string, string))
    ensures ProblemsAmong(gone + {p}, tree, accept)
            == ProblemsAmong(gone, tree, accept)
               + if p.1 !in accept && ReaderPaths(p.1, tree) != []
                 then {Problem(p.0, p.1, ReaderPaths(p.1, tree))} else {}
  {
  }

  ghost predicate IsProblem(base: seq<Vars>, now: seq<Vars>, tree: seq<Code>, accept: set<string>, env: string,
      name: string) {
    && Declares(base, env, name) && !Declares(now, env, name) && name !in accept
    && exists i :: 0 <= i < |tree| && ReadBy(name, tree[i])
  }

  /** Reported is exactly what the change removes from an environment, is not accepted, and some code
      names as a whole word; each with its readers. */
  method Check(base: seq<Vars>, now: seq<Vars>, tree: seq<Code>, accept: set<string>) returns (problems: set<Problem>)
    ensures forall p :: p in problems <==>
          IsProblem(base, now, tree, accept, p.env, p.name) && p.readBy == ReaderPaths(p.name, tree)
  {
    var b := NamesByEnv(base);
    var n := NamesByEnv(now);
    var gone := RemovedOf(b, n);
    RemovedExactly(base, now, b, n);
    problems := CheckRemoved(gone, tree, accept);
    forall name ensures ReaderPaths(name, tree) != [] <==> exists i :: 0 <= i < |tree| && ReadBy(name, tree[i]) {
      ReadersExactly(name, tree);
    }
  }

  method CheckRemoved(gone: set<(string, string)>, tree: seq<Code>, accept: set<string>)
    returns (problems: set<Problem>)
    ensures problems == ProblemsAmong(gone, tree, accept)
  {
    problems := {};
    var todo := gone;
    while todo != {}
      invariant todo <= gone
      invariant problems == ProblemsAmong(gone - todo, tree, accept)
    {
      var p :| p in todo;
      ProblemsMore(gone - todo, tree, accept, p);
      assert gone - (todo - {p}) == (gone - todo) + {p};
      todo := todo - {p};
      if p.1 in accept {
        continue;
      }
      var readBy := Readers(p.1, tree);
      if readBy != [] {
        problems := problems + {Problem(p.0, p.1, readBy)};
      }
    }
    assert gone - todo == gone;
  }

  ghost predicate AllStillDeclared(base: seq<Vars>, now: seq<Vars>) {
    forall env, name :: Declares(base, env, name) ==> Declares(now, env, name)
  }

  /** Nothing is reported, whatever the code, exactly when every environment still declares what it
      did. */
  lemma SilentExactly(base: seq<Vars>, now: seq<Vars>)
    ensures AllStillDeclared(base, now)
            <==> forall tree, env, name :: !IsProblem(base, now, tree, {}, env, name)
  {
    if env, name :| Declares(base, env, name) && !Declares(now, env, name) {
      var tree := [Code("", true, Some(name))];
      ReadsItself(name);
      assert ReadBy(name, tree[0]);
      assert IsProblem(base, now, tree, {}, env, name);
    }
  }

  /** Splitting a file in two, joining it with others or moving its variables within the environment is
      never reported: the changed files declare, together, what the old one did. */
  lemma MovesAreSilent(base: seq<Vars>, i: nat, pieces: seq<Vars>)
    requires i < |base|
    requires forall name :: name in base[i].names && base[i].env.Some? ==> Declares(pieces, base[i].env.value, name)
    ensures AllStillDeclared(base, base[..i] + pieces + base[i + 1..])
  {
    var now := base[..i] + pieces + base[i + 1..];
    forall env, name | Declares(base, env, name) ensures Declares(now, env, name) {
      var k :| 0 <= k < |base| && base[k].env == Some(env) && name in base[k].names;
      if k < i {
        assert now[k] == base[k];
      } else if k > i {
        assert now[k - 1 + |pieces|] == base[k];
      } else {
        var l :| 0 <= l < |pieces| && pieces[l].env == Some(env) && name in pieces[l].names;
        assert now[i + l] == pieces[l];
      }
    }
  }
}
