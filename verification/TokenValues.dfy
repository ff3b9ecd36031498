/** Which values can leave a token in what scripts/deployment_vars.py renders. */
module TokenValues {
  import opened Basics
  import opened TokenRender

  /** The whole text is one token. */
  predicate IsToken(s: string) {
    MatchAt(s).Some? && MatchAt(s).value.length == |s|
  }

  /** The value from i to j, with a before it and b after it, is a token: all of the value, or its end, or
      its beginning, or something inside it. */
  predicate MeetsAt(v: string, i: int, j: int, a: string, b: string) {
    && 0 <= i <= j <= |v|
    && (a != "" ==> i == 0) && (b != "" ==> j == |v|) && (i < j || (a != "" && b != ""))
    && IsToken(a + v[i..j] + b)
  }

  ghost predicate Meets(v: string) {
    exists i, j, a, b :: MeetsAt(v, i, j, a, b)
  }

  /** No value that can be asked for is part of a token, or holds one. */
  ghost predicate NoneMeets(vs: Values) {
    forall k :: k in vs && IsName(k) ==> !Meets(vs[k])
  }

  ghost predicate ResolvesAll(vs: Values) {
    forall t :: Render(vs, t).Ok? ==> TokenFree(Render(vs, t).text)
  }

  // ----- values that meet no token leave none

  lemma PrefixIsToken(t: string)
    requires MatchAt(t).Some?
    ensures IsToken(t[..MatchAt(t).value.length])
  {
    MatchIsLocal(t, t[..MatchAt(t).value.length]);
  }

  lemma MatchedIsName(t: string)
    requires MatchAt(t).Some?
    ensures IsName(MatchAt(t).value.name)
  {
  }

  lemma ShiftRun(a: string, c: char, rest: string, n: nat)
    requires 0 < n <= |rest| + 1
    ensures a + ([c] + rest)[..n] == a + [c] + rest[..n - 1]
  {
  }

  lemma ShiftPrefix(t: string, out: string, rest: string, n: nat)
    requires t != "" && out == [t[0]] + rest && 0 < n <= |out| && n <= |t| && t[1..][..n - 1] == rest[..n - 1]
    ensures t[..n] == out[..n]
  {
    assert t[..n] == [t[0]] + t[1..][..n - 1];
  }

  /** What completes a token that has begun comes from the template, character by character. */
  lemma {:induction false} LiteralRun(vs: Values, t: string, a: string, n: nat, token: string)
    requires NoneMeets(vs) && Render(vs, t).Ok? && a != "" && IsToken(token)
    requires n <= |Render(vs, t).text| && token == a + Render(vs, t).text[..n]
    ensures n <= |t| && t[..n] == Render(vs, t).text[..n]
    decreases |t|
  {
    var out := Render(vs, t).text;
    if n > 0 {
      if MatchAt(t).Some? {
        var m := MatchAt(t).value;
        MatchedIsName(t);
        ValueDoesNotComplete(vs[m.name], Render(vs, t[m.length..]).text, a, n);
      } else {
        var rest := Render(vs, t[1..]).text;
        ShiftRun(a, t[0], rest, n);
        LiteralRun(vs, t[1..], a + [t[0]], n - 1, token);
        ShiftPrefix(t, out, rest, n);
      }
    }
  }

  lemma ValueDoesNotComplete(v: string, rest: string, a: string, n: nat)
    requires !Meets(v) && a != "" && 0 < n <= |v + rest|
    ensures !IsToken(a + (v + rest)[..n])
  {
    if n < |v| {
      assert a + (v + rest)[..n] == a + v[0..n] + "";
      assert !MeetsAt(v, 0, n, a, "");
    } else {
      assert a + (v + rest)[..n] == a + v[0..|v|] + rest[..n - |v|];
      assert !MeetsAt(v, 0, |v|, a, rest[..n - |v|]);
    }
  }

  lemma CutInside(v: string, i: nat, rest: string, n: nat)
    requires i <= |v| && i + n <= |v|
    ensures (v[i..] + rest)[..n] == "" + v[i..i + n] + ""
  {
  }

  lemma CutBehind(v: string, i: nat, rest: string, n: nat)
    requires i <= |v| < i + n <= |v| + |rest|
    ensures (v[i..] + rest)[..n] == "" + v[i..|v|] + rest[..n - (|v| - i)]
  {
  }

  lemma TokenInValueMeets(v: string, i: nat, rest: string)
    requires i < |v| && MatchAt(v[i..] + rest).Some?
    ensures Meets(v)
  {
    var s := v[i..] + rest;
    var n := MatchAt(s).value.length;
    PrefixIsToken(s);
    if i + n <= |v| {
      CutInside(v, i, rest, n);
      assert MeetsAt(v, i, i + n, "", "");
    } else {
      CutBehind(v, i, rest, n);
      assert MeetsAt(v, i, |v|, "", rest[..n - (|v| - i)]);
    }
  }

  lemma {:induction false} NoTokenAfterValue(v: string, i: nat, rest: string)
    requires !Meets(v) && i <= |v| && TokenFree(rest)
    ensures TokenFree(v[i..] + rest)
    decreases |v| - i
  {
    if i == |v| {
      assert v[i..] + rest == rest;
    } else {
      if MatchAt(v[i..] + rest).Some? {
        TokenInValueMeets(v, i, rest);
      }
      NoTokenAfterValue(v, i + 1, rest);
      assert (v[i..] + rest)[1..] == v[i + 1..] + rest;
    }
  }

  lemma LiteralStartsNoToken(vs: Values, t: string)
    requires NoneMeets(vs) && Render(vs, t).Ok? && t != "" && MatchAt(t) == None
    ensures MatchAt(Render(vs, t).text) == None
  {
    var out, rest := Render(vs, t).text, Render(vs, t[1..]).text;
    if MatchAt(out).Some? {
      var n := MatchAt(out).value.length;
      PrefixIsToken(out);
      ShiftRun("", t[0], rest, n);
      assert "" + out[..n] == out[..n] && "" + [t[0]] == [t[0]];
      LiteralRun(vs, t[1..], [t[0]], n - 1, out[..n]);
      ShiftPrefix(t, out, rest, n);
      MatchIsLocal(out, t);
    }
  }

  lemma {:induction false} NoneLeft(vs: Values, t: string)
    requires NoneMeets(vs) && Render(vs, t).Ok?
    ensures TokenFree(Render(vs, t).text)
    decreases |t|
  {
    if t != "" {
      if MatchAt(t).Some? {
        var m := MatchAt(t).value;
        MatchedIsName(t);
        NoneLeft(vs, t[m.length..]);
        var v := vs[m.name];
        NoTokenAfterValue(v, 0, Render(vs, t[m.length..]).text);
        assert v[0..] == v;
      } else {
        NoneLeft(vs, t[1..]);
        LiteralStartsNoToken(vs, t);
        assert Render(vs, t).text[1..] == Render(vs, t[1..]).text;
      }
    }
  }

  // ----- a value that meets a token can leave it

  /** A token begins with its only two opening braces. */
  lemma TokenOpensOnce(s: string)
    requires MatchAt(s).Some?
    ensures s[0] == '{' && s[1] == '{' && forall i :: 2 <= i < MatchAt(s).value.length ==> s[i] != '{'
  {
  }

  /** An opening brace further on ends the text a match can use. */
  lemma MatchEndsBefore(s: string, j: nat)
    requires 2 <= j < |s| && s[j] == '{'
    ensures MatchAt(s).Some? ==> MatchAt(s).value.length <= j
  {
    if MatchAt(s).Some? {
      TokenOpensOnce(s);
    }
  }

  function BareToken(name: string, tail: string): string {
    "{{" + name + "}}" + tail
  }

  lemma BareTokenMatches(name: string, tail: string)
    requires IsName(name)
    ensures MatchAt(BareToken(name, tail)) == Some(Match(|name| + 4, name))
  {
    var t := BareToken(name, tail);
    assert t[2..2 + |name|] == name;
    ShapeIsFound(t, 2, 2 + |name|, 2 + |name|);
  }

  lemma RenderToken(vs: Values, name: string, tail: string)
    requires IsName(name) && name in vs && Render(vs, tail).Ok?
    ensures Render(vs, BareToken(name, tail)) == Ok(vs[name] + Render(vs, tail).text)
  {
    BareTokenMatches(name, tail);
    assert BareToken(name, tail)[|name| + 4..] == tail;
  }

  lemma {:induction false} RenderLiterals(vs: Values, a: string, rest: string)
    requires Render(vs, rest).Ok? && forall o :: 0 <= o < |a| ==> MatchAt(a[o..] + rest) == None
    ensures Render(vs, a + rest) == Ok(a + Render(vs, rest).text)
  {
    if a == "" {
      assert a + rest == rest && a + Render(vs, rest).text == Render(vs, rest).text;
    } else {
      var t := a + rest;
      assert MatchAt(t) == None by {
        assert a[0..] + rest == t;
      }
      assert t[1..] == a[1..] + rest;
      forall o | 0 <= o < |a[1..]| ensures MatchAt(a[1..][o..] + rest) == None {
        assert a[1..][o..] == a[o + 1..];
      }
      RenderLiterals(vs, a[1..], rest);
      assert [t[0]] + (a[1..] + Render(vs, rest).text) == a + Render(vs, rest).text;
    }
  }

  /** The beginning of a token, with a token behind it, is literal. */
  lemma BeginningIsLiteral(a: string, tail: string, rest: string, o: nat)
    requires IsToken(a + tail) && tail != "" && o < |a| && |rest| > 1 && rest[0] == '{' && rest[1] == '{'
    ensures MatchAt(a[o..] + rest) == None
  {
    var token, s := a + tail, a[o..] + rest;
    TokenOpensOnce(token);
    assert s[0] == token[o] && (o + 1 < |a| ==> s[1] == token[o + 1]);
    if MatchAt(s).Some? {
      var n := MatchAt(s).value.length;
      TokenOpensOnce(s);
      MatchEndsBefore(s, if |a| - o >= 2 then |a| - o else |a| - o + 1);
      if o == 0 {
        assert s[..n] == token[..n];
        MatchIsLocal(s, token);
      }
    }
  }

  /** The end of a token is literal. */
  lemma {:induction false} EndIsLiteral(head: string, b: string)
    requires IsToken(head + b) && head != ""
    ensures TokenFree(b)
    decreases |b|
  {
    if b != "" {
      var token := head + b;
      TokenOpensOnce(token);
      assert |b| > 1 ==> b[0] == token[|head|] && b[1] == token[|head| + 1];
      assert MatchAt(b) == None;
      assert head + [b[0]] + b[1..] == token;
      EndIsLiteral(head + [b[0]], b[1..]);
    }
  }

  lemma TokenInside(x: string, token: string, y: string)
    requires IsToken(token)
    ensures !TokenFree(x + token + y)
  {
    var t := x + token + y;
    assert t[|x|..][..|token|] == token;
    MatchIsLocal(token, t[|x|..]);
    TokenFreeEverywhere(t);
  }

  lemma LiteralBefore(a: string, mid: string, b: string, rest: string)
    requires IsToken(a + mid + b) && (mid != "" || b != "") && |rest| > 1 && rest[0] == '{' && rest[1] == '{'
    ensures forall o :: 0 <= o < |a| ==> MatchAt(a[o..] + rest) == None
  {
    assert a + (mid + b) == a + mid + b;
    forall o | 0 <= o < |a| ensures MatchAt(a[o..] + rest) == None {
      BeginningIsLiteral(a, mid + b, rest, o);
    }
  }

  lemma RenderAround(vs: Values, k: string, mid: string, a: string, b: string)
    requires k in vs && IsName(k) && IsToken(a + mid + b) && (mid != "" || (a != "" && b != ""))
    ensures Render(vs, a + BareToken(k, b)) == Ok(a + (vs[k] + b))
  {
    EndIsLiteral(a + mid, b);
    TokenFreeIsLeftAlone(vs, b);
    RenderToken(vs, k, b);
    LiteralBefore(a, mid, b, BareToken(k, b));
    RenderLiterals(vs, a, BareToken(k, b));
  }

  /** A value that meets a token, in the template that completes it. */
  lemma MeetingLeavesToken(vs: Values, k: string, i: nat, j: nat, a: string, b: string)
    requires k in vs && IsName(k) && MeetsAt(vs[k], i, j, a, b)
    ensures Render(vs, a + BareToken(k, b)) == Ok(a + (vs[k] + b)) && !TokenFree(a + (vs[k] + b))
  {
    var v := vs[k];
    RenderAround(vs, k, v[i..j], a, b);
    SplitAround(v, i, j, a, b);
    TokenInside(v[..i], a + v[i..j] + b, (v + b)[j + |b|..]);
  }

  lemma SplitAround(v: string, i: nat, j: nat, a: string, b: string)
    requires i <= j <= |v| && (a != "" ==> i == 0) && (b != "" ==> j == |v|)
    ensures a + (v + b) == v[..i] + (a + v[i..j] + b) + (v + b)[j + |b|..]
  {
    assert v == v[..i] + v[i..j] + v[j..];
  }

  // ----- the theorems

  /** Rendering resolves every token of every template if and only if no value that can be asked for is
      part of a token or holds one. */
  lemma ValuesDecide(vs: Values)
    ensures ResolvesAll(vs) <==> NoneMeets(vs)
  {
    if NoneMeets(vs) {
      forall t | Render(vs, t).Ok? ensures TokenFree(Render(vs, t).text) {
        NoneLeft(vs, t);
      }
    } else {
      var k :| k in vs && IsName(k) && Meets(vs[k]);
      var i, j, a, b :| MeetsAt(vs[k], i, j, a, b);
      MeetingLeavesToken(vs, k, i, j, a, b);
    }
  }

  // ----- templates

  function NamesIn(t: string): set<string> {
    set i | 0 <= i < |Pieces(t)| && Pieces(t)[i].Token? :: Pieces(t)[i].name
  }

  /** Every token of t gets the same value. */
  function Everywhere(t: string, value: string): Values {
    map k | k in NamesIn(t) :: value
  }

  lemma TokenFirst(token: string, rest: string)
    requires IsToken(token)
    ensures !TokenFree(token + rest)
  {
    TokenInside("", token, rest);
    assert "" + token + rest == token + rest;
  }

  lemma TokenLater(c: char, rest: string)
    requires !TokenFree(rest)
    ensures !TokenFree([c] + rest)
  {
    assert ([c] + rest)[1..] == rest;
  }

  lemma {:induction false} TokenValueStays(vs: Values, t: string)
    requires Render(vs, t).Ok? && !TokenFree(t) && forall k :: k in vs ==> IsToken(vs[k])
    ensures !TokenFree(Render(vs, t).text)
    decreases |t|
  {
    if MatchAt(t).Some? {
      var m := MatchAt(t).value;
      TokenFirst(vs[m.name], Render(vs, t[m.length..]).text);
    } else {
      TokenValueStays(vs, t[1..]);
      TokenLater(t[0], Render(vs, t[1..]).text);
    }
  }

  /** A template is resolved whatever the values if and only if there is nothing in it to resolve. */
  lemma TemplatesDecide(t: string)
    ensures TokenFree(t) <==> forall vs :: Render(vs, t).Ok? ==> TokenFree(Render(vs, t).text)
  {
    if TokenFree(t) {
      forall vs | Render(vs, t).Ok? ensures TokenFree(Render(vs, t).text) {
        TokenFreeIsLeftAlone(vs, t);
      }
    } else {
      var token := BareToken("platform_x", "");
      var vs := Everywhere(t, token);
      BareTokenIsToken("platform_x");
      NoneMissing(vs, Pieces(t));
      RenderReplacesTokens(vs, t);
      TokenValueStays(vs, t);
    }
  }

  // ----- values without braces

  /** With something before it and behind it, the value is a token. */
  ghost predicate Completes(v: string) {
    exists a, b :: IsToken(a + v + b)
  }

  lemma BareTokenIsToken(name: string)
    requires IsName(name)
    ensures IsToken(BareToken(name, ""))
  {
    BareTokenMatches(name, "");
  }

  lemma NothingMeets()
    ensures Meets("")
  {
    var a, b := "{{", "platform_x}}";
    BareTokenIsToken("platform_x");
    assert a + ""[0..0] + b == BareToken("platform_x", "");
    assert MeetsAt("", 0, 0, a, b);
  }

  /** A value without braces meets a token only as a whole, inside it. */
  lemma BraceFreeMeets(v: string)
    requires BraceFree(v)
    ensures Meets(v) <==> Completes(v)
  {
    if i, j, a, b :| MeetsAt(v, i, j, a, b) {
      var token := a + v[i..j] + b;
      TokenEnds(token);
      assert v[0..|v|] == v;
    }
    if a, b :| IsToken(a + v + b) {
      if v == "" {
        NothingMeets();
      } else {
        assert a + v + b == a + v[0..|v|] + b;
        assert MeetsAt(v, 0, |v|, a, b);
      }
    }
  }

  lemma TokenEnds(s: string)
    requires IsToken(s)
    ensures s[0] == '{' && s[|s| - 1] == '}'
  {
  }

  /** The beginning of a name, or a name and more. */
  predicate OpensName(w: string) {
    w <= PREFIX || PREFIX <= w
  }

  /** Blank up to i, name characters up to j, blank to the end: what can stand in a token. A name that
      begins in the value must begin as names do, and one that ends in it too must be one. */
  predicate FitsAt(v: string, i: nat, j: nat) {
    && i <= j <= |v|
    && (forall k :: 0 <= k < i ==> IsSpace(v[k])) && (forall k :: i <= k < j ==> IsNameChar(v[k]))
    && (forall k :: j <= k < |v| ==> IsSpace(v[k]))
    && (0 < i < j ==> OpensName(v[i..j])) && (0 < i < j < |v| ==> IsName(v[i..j]))
  }

  predicate Fits(v: string) {
    exists i, j :: 0 <= i <= |v| && 0 <= j <= |v| && FitsAt(v, i, j)
  }

  /** A name with these characters in it. */
  lemma NameAround(w: string, begins: bool, ends: bool) returns (pre: string, suf: string)
    requires forall k :: 0 <= k < |w| ==> IsNameChar(w[k])
    requires (begins ==> OpensName(w)) && (begins && ends ==> IsName(w))
    ensures IsName(pre + w + suf) && (begins ==> pre == "") && (ends ==> suf == "")
  {
    pre := if begins then "" else "platform_x";
    suf := if ends || !begins then "" else if w <= PREFIX then PREFIX[|w|..] + "x" else "x";
    if begins && !ends && w <= PREFIX {
      assert pre + w + suf == PREFIX + "x";
    }
  }

  lemma Middle(a: string, b: string, c: string)
    ensures (a + b + c)[|a|..|a| + |b|] == b
  {
  }

  lemma Regrouped(x: string, y: string, z: string, pre: string, suf: string)
    requires (x == "" || pre == "") && (z == "" || suf == "")
    ensures "{{" + pre + (x + y + z) + (suf + "}}") == "{{" + x + (pre + y + suf) + (z + "}}")
  {
    assert pre + (x + y + z) + suf == x + (pre + y + suf) + z;
  }

  lemma NameInToken(v: string, i: nat, j: nat, pre: string, suf: string)
    requires i <= j <= |v| && (i > 0 ==> pre == "") && (j < |v| ==> suf == "")
    ensures var token := "{{" + pre + v + (suf + "}}");
      2 + |pre| + j + |suf| <= |token| && token[2 + i..2 + |pre| + j + |suf|] == pre + v[i..j] + suf
  {
    var before, name, after := "{{" + v[..i], pre + v[i..j] + suf, v[j..] + "}}";
    Middle(before, name, after);
    Regrouped(v[..i], v[i..j], v[j..], pre, suf);
    assert v == v[..i] + v[i..j] + v[j..];
  }

  lemma FitsShape(v: string, i: nat, j: nat, pre: string, suf: string)
    requires FitsAt(v, i, j) && IsName(pre + v[i..j] + suf)
    requires (i > 0 ==> pre == "") && (j < |v| ==> suf == "")
    ensures Shape("{{" + pre + v + (suf + "}}"), 2 + i, 2 + |pre| + j + |suf|, 2 + |pre| + |v| + |suf|)
  {
    var token := "{{" + pre + v + (suf + "}}");
    NameInToken(v, i, j, pre, suf);
  }

  lemma FitsCompletes(v: string, i: nat, j: nat)
    requires FitsAt(v, i, j) && (i == j ==> i == |v|)
    ensures Completes(v)
  {
    var pre, suf := NameAround(v[i..j], i > 0, j < |v|);
    FitsShape(v, i, j, pre, suf);
    LaidOutIsToken("{{" + pre, v, suf + "}}", 2 + i, 2 + |pre| + j + |suf|, 2 + |pre| + |v| + |suf|);
  }

  lemma LaidOutIsToken(a: string, v: string, b: string, p: nat, q: nat, r: nat)
    requires Shape(a + v + b, p, q, r) && r + 2 == |a + v + b|
    ensures Completes(v)
  {
    ShapeIsFound(a + v + b, p, q, r);
    assert IsToken(a + v + b);
  }

  /** From where to where the name, of a token laid out at p, q, r, lies in what stands at o. */
  function NameFrom(p: nat, o: nat, n: nat): nat {
    if p <= o then 0 else if p >= o + n then n else p - o
  }

  lemma PartOfToken(token: string, p: nat, q: nat, r: nat, o: nat, v: string)
    requires Shape(token, p, q, r) && 2 <= o && o + |v| <= r && v == token[o..o + |v|]
    ensures var i, j := NameFrom(p, o, |v|), NameFrom(q, o, |v|);
      && (forall k :: 0 <= k < i ==> IsSpace(v[k])) && (forall k :: i <= k < j ==> IsNameChar(v[k]))
      && (forall k :: j <= k < |v| ==> IsSpace(v[k]))
  {
    assert forall k :: 0 <= k < |v| ==> v[k] == token[o + k];
    assert forall k :: p <= k < q ==> token[k] == token[p..q][k - p];
  }

  lemma SliceOfSlice(s: string, a: nat, b: nat, i: nat, j: nat)
    requires a <= b <= |s| && i <= j <= b - a
    ensures s[a..b][i..j] == s[a + i..a + j]
  {
    var x, y := s[a..b][i..j], s[a + i..a + j];
    assert |x| == |y| && forall k :: 0 <= k < |x| ==> x[k] == y[k];
  }

  lemma PartOfItsName(token: string, p: nat, q: nat, r: nat, o: nat, v: string, i: nat, j: nat)
    requires Shape(token, p, q, r) && 2 <= o && o + |v| <= r && v == token[o..o + |v|]
    requires i == NameFrom(p, o, |v|) && j == NameFrom(q, o, |v|) && 0 < i < j
    ensures OpensName(v[i..j]) && (j < |v| ==> IsName(v[i..j]))
  {
    assert o + i == p && o + j <= q && (j < |v| ==> o + j == q);
    SliceOfSlice(token, o, o + |v|, i, j);
    SliceOfSlice(token, p, q, 0, j - i);
    assert v[i..j] == token[p..q][0..j - i] == token[p..q][..j - i];
    PartOfName(token[p..q], v[i..j]);
  }

  lemma TokenLayout(token: string) returns (p: nat, q: nat, r: nat)
    requires IsToken(token)
    ensures Shape(token, p, q, r) && r + 2 == |token|
  {
    MatchIsShape(token, MatchAt(token).value);
    p, q, r :| Shape(token, p, q, r) && r + 2 == |token|;
  }

  /** Where the value begins and ends in the name of the token that it completes. */
  lemma CompletesFits(v: string, token: string, o: nat) returns (i: nat, j: nat)
    requires BraceFree(v) && v != "" && IsToken(token) && o + |v| <= |token| && v == token[o..o + |v|]
    ensures FitsAt(v, i, j)
  {
    var p, q, r := TokenLayout(token);
    InsideBraces(token, p, q, r, o, v);
    i, j := NameFrom(p, o, |v|), NameFrom(q, o, |v|);
    PartOfToken(token, p, q, r, o, v);
    if 0 < i < j {
      PartOfItsName(token, p, q, r, o, v, i, j);
    }
  }

  lemma InsideBraces(token: string, p: nat, q: nat, r: nat, o: nat, v: string)
    requires Shape(token, p, q, r) && r + 2 == |token|
    requires v != "" && BraceFree(v) && o + |v| <= |token| && v == token[o..o + |v|]
    ensures 2 <= o && o + |v| <= r
  {
    assert v[0] == token[o] && v[|v| - 1] == token[o + |v| - 1];
  }

  lemma PartOfName(n: string, w: string)
    requires IsName(n) && w <= n
    ensures OpensName(w) && (|w| == |n| ==> IsName(w))
  {
    assert |w| == |n| ==> w == n;
  }

  /** A value without braces can complete a token exactly when it fits in one. */
  lemma FitsExactly(v: string)
    requires BraceFree(v)
    ensures Fits(v) <==> Completes(v)
  {
    if i, j :| 0 <= i <= |v| && 0 <= j <= |v| && FitsAt(v, i, j) {
      if i == j {
        FitsCompletes(v, |v|, |v|);
      } else {
        FitsCompletes(v, i, j);
      }
    }
    if a, b :| IsToken(a + v + b) {
      if v == "" {
        assert FitsAt(v, 0, 0);
      } else {
        var i, j := CompletesFits(v, a + v + b, |a|);
      }
    }
  }

  /** When no value holds a brace, every template is resolved if and only if no value that can be asked
      for fits in a token. */
  lemma BraceFreeValuesDecide(vs: Values)
    requires forall k :: k in vs ==> BraceFree(vs[k])
    ensures ResolvesAll(vs) <==> forall k :: k in vs && IsName(k) ==> !Fits(vs[k])
  {
    ValuesDecide(vs);
    forall k | k in vs ensures Meets(vs[k]) <==> Fits(vs[k]) {
      BraceFreeMeets(vs[k]);
      FitsExactly(vs[k]);
    }
  }

  /** A value that can be no part of a token: no brace, and some character a token cannot hold. */
  ghost predicate Inert(v: string) {
    BraceFree(v) && exists i :: 0 <= i < |v| && !InAlphabet(v[i])
  }

  lemma InertDoesNotFit(v: string)
    requires Inert(v)
    ensures !Fits(v)
  {
  }

  /** So it is with inert values: every token is resolved. */
  lemma InertValuesResolveAll(vs: Values, t: string)
    requires (forall k :: k in vs ==> Inert(vs[k])) && Render(vs, t).Ok?
    ensures TokenFree(Render(vs, t).text)
  {
    BraceFreeValuesDecide(vs);
    forall k | k in vs ensures !Fits(vs[k]) {
      InertDoesNotFit(vs[k]);
    }
  }

  /** Braces around a token whose value is again a name: the output is a token, and rendering it again
      would go on. */
  lemma NestedBracesLeaveToken(a: string, b: string)
    requires IsName(a) && IsName(b)
    ensures Render(map[a := b], "{{" + BareToken(a, "}}")) == Ok(BareToken(b, ""))
    ensures !TokenFree(BareToken(b, ""))
  {
    BareTokenIsToken(b);
    assert BareToken(b, "") == "{{" + b + "}}" == "{{" + (b + "}}");
    RenderAround(map[a := b], a, b, "{{", "}}");
    BareTokenMatches(b, "");
  }
}
