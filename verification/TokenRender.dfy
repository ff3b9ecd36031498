/** One-pass rendering of `{{ platform_* }}` tokens (scripts/deployment_vars.py). */
module TokenRender {

  import opened Basics

  predicate IsNameChar(c: char) {
    'a' <= c <= 'z' || c == '_'
  }

  predicate IsBrace(c: char) {
    c == '{' || c == '}'
  }

  /** What may stand inside a token. */
  predicate InAlphabet(c: char) {
    IsSpace(c) || IsNameChar(c)
  }

  const PREFIX := "platform_"

  predicate IsName(n: string) {
    |n| > |PREFIX| && PREFIX <= n && forall i :: 0 <= i < |n| ==> IsNameChar(n[i])
  }

  /** A small letter or an underscore, by its code. */
  ghost predicate IsSmallOrUnderscore(c: char) {
    97 <= c as int <= 122 || c as int == 95
  }

  /** Names are `platform_` and at least one such character. */
  lemma NameExactly(rest: string)
    ensures IsName("platform_" + rest) <==> rest != "" && forall i :: 0 <= i < |rest| ==> IsSmallOrUnderscore(rest[i])
  {
    var n := PREFIX + rest;
    forall i | 0 <= i < |rest| ensures IsNameChar(rest[i]) <==> IsSmallOrUnderscore(rest[i]) {
    }
    assert forall i :: 0 <= i < |rest| ==> n[9 + i] == rest[i];
    assert forall i :: 0 <= i < 9 ==> n[i] == PREFIX[i];
  }

  lemma NamesBegin(n: string)
    ensures IsName(n) ==> |n| > 9 && n[..9] == "platform_"
  {
  }

  /** The pattern, laid out from the start of the text: two braces, spaces up to p, a name up to q,
      spaces up to r, two braces. */
  ghost predicate Shape(t: string, p: nat, q: nat, r: nat) {
    && 2 <= p <= q <= r && r + 2 <= |t|
    && t[0] == '{' && t[1] == '{' && t[r] == '}' && t[r + 1] == '}'
    && (forall k :: 2 <= k < p ==> IsSpace(t[k]))
    && IsName(t[p..q])
    && (forall k :: q <= k < r ==> IsSpace(t[k]))
  }

  // ----- matching at one place

  function SkipSpaces(t: string, i: nat): (j: nat)
    requires i <= |t|
    ensures i <= j <= |t| && (forall k :: i <= k < j ==> IsSpace(t[k])) && (j < |t| ==> !IsSpace(t[j]))
    decreases |t| - i
  {
    if i < |t| && IsSpace(t[i]) then SkipSpaces(t, i + 1) else i
  }

  function SkipName(t: string, i: nat): (j: nat)
    requires i <= |t|
    ensures i <= j <= |t| && (forall k :: i <= k < j ==> IsNameChar(t[k])) && (j < |t| ==> !IsNameChar(t[j]))
    decreases |t| - i
  {
    if i < |t| && IsNameChar(t[i]) then SkipName(t, i + 1) else i
  }

  datatype Match = Match(length: nat, name: string)

  /** The match of the pattern at the start of the text, if there is one. The runs cannot overlap, so
      the greedy match is the only one. */
  function MatchAt(t: string): (m: Option<Match>)
    ensures m.Some? ==> 4 < m.value.length <= |t|
  {
    if |t| < 2 || t[0] != '{' || t[1] != '{' then None
    else
      var p := SkipSpaces(t, 2);
      var q := SkipName(t, p);
      var r := SkipSpaces(t, q);
      if IsName(t[p..q]) && r + 2 <= |t| && t[r] == '}' && t[r + 1] == '}' then Some(Match(r + 2, t[p..q])) else None
  }

  /** The greedy scan finds the pattern exactly where it is. */
  lemma MatchIsShape(t: string, m: Match)
    ensures MatchAt(t) == Some(m) <==> exists p: nat, q: nat, r: nat :: Shape(t, p, q, r) && m == Match(r + 2, t[p..q])
  {
    if MatchAt(t) == Some(m) {
      var p := SkipSpaces(t, 2);
      var q := SkipName(t, p);
      var r := SkipSpaces(t, q);
      assert Shape(t, p, q, r) && m == Match(r + 2, t[p..q]);
    }
    if p: nat, q: nat, r: nat :| Shape(t, p, q, r) && m == Match(r + 2, t[p..q]) {
      ShapeIsFound(t, p, q, r);
    }
  }

  lemma ShapeIsFound(t: string, p: nat, q: nat, r: nat)
    requires Shape(t, p, q, r)
    ensures MatchAt(t) == Some(Match(r + 2, t[p..q]))
  {
    var name := t[p..q];
    forall k | p <= k < q ensures IsNameChar(t[k]) && !IsSpace(t[k]) {
      assert t[k] == name[k - p];
    }
    assert |name| == q - p && !IsSpace(t[p]);
    assert SkipSpaces(t, 2) == p;
    assert !IsNameChar(t[q]);
    assert SkipName(t, p) == q;
    assert SkipSpaces(t, q) == r;
  }

  lemma ShapeIsLocal(t: string, t': string, p: nat, q: nat, r: nat)
    requires Shape(t, p, q, r) && r + 2 <= |t'| && forall k :: 0 <= k < r + 2 ==> t'[k] == t[k]
    ensures Shape(t', p, q, r) && t'[p..q] == t[p..q]
  {
    assert t'[p..q] == t[p..q];
  }

  /** A match depends on nothing beyond its own characters. */
  lemma MatchIsLocal(t: string, t': string)
    requires MatchAt(t).Some? && MatchAt(t).value.length <= |t'|
    requires t'[..MatchAt(t).value.length] == t[..MatchAt(t).value.length]
    ensures MatchAt(t') == MatchAt(t)
  {
    var m := MatchAt(t).value;
    MatchIsShape(t, m);
    var p: nat, q: nat, r: nat :| Shape(t, p, q, r) && m == Match(r + 2, t[p..q]);
    forall k | 0 <= k < m.length ensures t'[k] == t[k] {
      assert t'[..m.length][k] == t[..m.length][k];
    }
    ShapeIsLocal(t, t', p, q, r);
    ShapeIsFound(t', p, q, r);
  }

  // ----- rendering

  type Values = map<string, string>

  datatype Rendered = Ok(text: string) | Undefined(name: string)

  /** Leftmost matches first, each replaced by its value; what a value holds is not looked at again. */
  function Render(vs: Values, t: string): Rendered
    decreases |t|
  {
    if t == "" then Ok("")
    else match MatchAt(t)
      case Some(m) =>
        if m.name !in vs then Undefined(m.name)
        else (match Render(vs, t[m.length..])
              case Ok(rest) => Ok(vs[m.name] + rest)
              case Undefined(n) => Undefined(n))
      case None =>
        match Render(vs, t[1..])
        case Ok(rest) => Ok([t[0]] + rest)
        case Undefined(n) => Undefined(n)
  }

  /** The text cut at its leftmost non-overlapping tokens. */
  datatype Piece = Literal(c: char) | Token(name: string, raw: string)

  function Pieces(t: string): seq<Piece>
    decreases |t|
  {
    if t == "" then []
    else match MatchAt(t)
      case Some(m) => [Token(m.name, t[..m.length])] + Pieces(t[m.length..])
      case None => [Literal(t[0])] + Pieces(t[1..])
  }

  function Raw(ps: seq<Piece>): string {
    if ps == [] then "" else (if ps[0].Token? then ps[0].raw else [ps[0].c]) + Raw(ps[1..])
  }

  function Instead(vs: Values, ps: seq<Piece>): string {
    if ps == [] then ""
    else (if ps[0].Literal? then [ps[0].c] else if ps[0].name in vs then vs[ps[0].name] else "") + Instead(vs, ps[1..])
  }

  /** Put together again the pieces are the text. */
  lemma {:induction false} PiecesAreTheText(t: string)
    ensures Raw(Pieces(t)) == t
    decreases |t|
  {
    if t != "" {
      var w := if MatchAt(t).Some? then MatchAt(t).value.length else 1;
      PiecesAreTheText(t[w..]);
      assert Pieces(t)[1..] == Pieces(t[w..]);
      assert t == t[..w] + t[w..];
    }
  }

  /** Where a piece starts, what is left of the text is cut the same way: a token stands exactly where
      the pattern matches, and a literal only where it does not. */
  lemma {:induction false} PiecesAreLeftmost(t: string, k: nat)
    requires k < |Pieces(t)|
    ensures var rest := Raw(Pieces(t)[k..]);
      match Pieces(t)[k]
      case Token(name, raw) => MatchAt(rest) == Some(Match(|raw|, name)) && |raw| <= |rest| && raw == rest[..|raw|]
      case Literal(c) => MatchAt(rest) == None && rest != "" && rest[0] == c
    decreases |t|
  {
    if k == 0 {
      PiecesAreTheText(t);
      assert Pieces(t)[0..] == Pieces(t);
    } else {
      var w := if MatchAt(t).Some? then MatchAt(t).value.length else 1;
      PiecesAreLeftmost(t[w..], k - 1);
      assert Pieces(t)[k..] == Pieces(t[w..])[k - 1..];
    }
  }

  predicate Has(vs: Values, p: Piece) {
    p.Token? ==> p.name in vs
  }

  /** The leftmost token without a value. */
  function FirstMissing(vs: Values, ps: seq<Piece>): Option<string> {
    if ps == [] then None else if !Has(vs, ps[0]) then Some(ps[0].name) else FirstMissing(vs, ps[1..])
  }

  lemma {:induction false} NoneMissing(vs: Values, ps: seq<Piece>)
    ensures FirstMissing(vs, ps) == None <==> forall k :: 0 <= k < |ps| ==> Has(vs, ps[k])
  {
    if ps != [] {
      NoneMissing(vs, ps[1..]);
      assert forall k :: 0 < k < |ps| ==> ps[k] == ps[1..][k - 1];
    }
  }

  /** Rendering replaces exactly the tokens, leaves all else as it is, and fails exactly when one of
      the tokens has no value: then it names the leftmost such token. */
  lemma {:induction false} RenderReplacesTokens(vs: Values, t: string)
    ensures Render(vs, t) == match FirstMissing(vs, Pieces(t))
                             case None => Ok(Instead(vs, Pieces(t)))
                             case Some(n) => Undefined(n)
    decreases |t|
  {
    if t != "" {
      var w := if MatchAt(t).Some? then MatchAt(t).value.length else 1;
      RenderReplacesTokens(vs, t[w..]);
      assert Pieces(t)[1..] == Pieces(t[w..]);
    }
  }

  // ----- is every token resolved?

  /** No token starts anywhere. */
  predicate TokenFree(t: string) {
    t == "" || (MatchAt(t) == None && TokenFree(t[1..]))
  }

  lemma {:induction false} TokenFreeEverywhere(t: string)
    ensures TokenFree(t) <==> forall i :: 0 <= i < |t| ==> MatchAt(t[i..]) == None
    decreases |t|
  {
    if t != "" {
      TokenFreeEverywhere(t[1..]);
      assert t[0..] == t;
      forall i | 0 <= i < |t| - 1 ensures t[1..][i..] == t[i + 1..] {
      }
      if forall i :: 0 <= i < |t| ==> MatchAt(t[i..]) == None {
        forall i | 0 <= i < |t[1..]| ensures MatchAt(t[1..][i..]) == None {
          assert MatchAt(t[i + 1..]) == None;
        }
      }
      if TokenFree(t) {
        forall i | 0 <= i < |t| ensures MatchAt(t[i..]) == None {
          if i > 0 {
            assert MatchAt(t[1..][i - 1..]) == None;
          }
        }
      }
    }
  }

  lemma {:induction false} TokenFreeIsLeftAlone(vs: Values, t: string)
    requires TokenFree(t)
    ensures Render(vs, t) == Ok(t)
    decreases |t|
  {
    if t != "" {
      TokenFreeIsLeftAlone(vs, t[1..]);
      assert t == [t[0]] + t[1..];
    }
  }

  lemma {:induction false} TokensNeedValues(t: string)
    requires !TokenFree(t)
    ensures Render(map[], t).Undefined?
    decreases |t|
  {
    if MatchAt(t).None? {
      TokensNeedValues(t[1..]);
    }
  }

  /** Rendering again changes nothing, whatever the values, exactly when no token is left. */
  lemma TokenFreeIsFixed(t: string)
    ensures TokenFree(t) <==> forall vs :: Render(vs, t) == Ok(t)
  {
    if TokenFree(t) {
      forall vs ensures Render(vs, t) == Ok(t) {
        TokenFreeIsLeftAlone(vs, t);
      }
    } else {
      TokensNeedValues(t);
    }
  }

  lemma NoTokenInValue(v: string, rest: string)
    requires forall i :: 0 <= i < |v| ==> !IsBrace(v[i])
    requires TokenFree(rest)
    ensures TokenFree(v + rest)
  {
    if v == "" {
      assert v + rest == rest;
    } else {
      assert (v + rest)[1..] == v[1..] + rest;
      NoTokenInValue(v[1..], rest);
    }
  }

  predicate BraceFree(v: string) {
    forall i :: 0 <= i < |v| ==> !IsBrace(v[i])
  }

  /** Every brace of the template belongs to a token. */
  ghost predicate NoLooseBrace(ps: seq<Piece>) {
    forall k :: 0 <= k < |ps| && ps[k].Literal? ==> !IsBrace(ps[k].c)
  }

  /** So it is when no brace stands outside a token and no value holds one. */
  lemma {:induction false} NoLooseBraceResolvesAll(vs: Values, t: string)
    requires Render(vs, t).Ok? && (forall k :: k in vs ==> BraceFree(vs[k])) && NoLooseBrace(Pieces(t))
    ensures TokenFree(Render(vs, t).text)
    decreases |t|
  {
    if t != "" {
      var w := if MatchAt(t).Some? then MatchAt(t).value.length else 1;
      TailHasNoLooseBrace(t, w);
      NoLooseBraceResolvesAll(vs, t[w..]);
      var rest := Render(vs, t[w..]).text;
      if MatchAt(t).Some? {
        NoTokenInValue(vs[MatchAt(t).value.name], rest);
      } else {
        assert Pieces(t)[0] == Literal(t[0]);
        NoTokenInValue([t[0]], rest);
      }
    }
  }

  lemma TailHasNoLooseBrace(t: string, w: nat)
    requires t != "" && w == (if MatchAt(t).Some? then MatchAt(t).value.length else 1) && NoLooseBrace(Pieces(t))
    ensures NoLooseBrace(Pieces(t[w..]))
  {
    var all, tail := Pieces(t), Pieces(t[w..]);
    assert all[1..] == tail;
    forall k | 0 <= k < |tail| && tail[k].Literal? ensures !IsBrace(tail[k].c) {
      assert all[k + 1] == all[1..][k];
    }
  }
}
