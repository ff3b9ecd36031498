/** The names the firewall catalog is linted by (roles/opnsense/_archive/catalog_lint.py): an alias's
    address family and its pair, and a rule's description with the family marker removed. */
module CatalogNames {

  import opened Basics

  // ----- alias names: host4_web is paired with host6_web

  datatype Kind = Host | Net | GrpNet

  datatype Parts = Parts(kind: Kind, six: bool, rest: string)

  function KindText(k: Kind): string {
    match k case Host => "host" case Net => "net" case GrpNet => "grp_net"
  }

  function Head(k: Kind, six: bool): string {
    KindText(k) + if six then "6_" else "4_"
  }

  function Text(p: Parts): string {
    Head(p.kind, p.six) + p.rest
  }

  /** What `.+` matches: something, on one line. */
  predicate OneLine(s: string) {
    s != "" && '\n' !in s
  }

  /** What `(.+)$` captures of it: `$` also stands before a line feed that ends the text. */
  function Rest(s: string): Option<string> {
    if OneLine(s) then Some(s)
    else if s != "" && s[|s| - 1] == '\n' && OneLine(s[..|s| - 1]) then Some(s[..|s| - 1])
    else None
  }

  function SplitAs(name: string, k: Kind, six: bool): Option<Parts> {
    var h := Head(k, six);
    if h <= name then
      match Rest(name[|h|..]) case Some(r) => Some(Parts(k, six, r)) case None => None
    else None
  }

  function FirstOf<T>(a: Option<T>, b: Option<T>): Option<T> {
    if a.Some? then a else b
  }

  /** The match of the family-suffix pattern. */
  function Split(name: string): Option<Parts> {
    FirstOf(SplitAs(name, Host, false), FirstOf(SplitAs(name, Host, true),
    FirstOf(SplitAs(name, Net, false), FirstOf(SplitAs(name, Net, true),
    FirstOf(SplitAs(name, GrpNet, false), SplitAs(name, GrpNet, true))))))
  }

  predicate Suffixed(name: string) {
    Split(name).Some?
  }

  function Other(p: Parts): Parts {
    p.(six := !p.six)
  }

  function Pair(name: string): Option<string> {
    match Split(name) case Some(p) => Some(Text(Other(p))) case None => None
  }

  lemma HeadsDiffer(k: Kind, six: bool, l: Kind, five: bool, s: string)
    requires Head(k, six) <= s && Head(l, five) <= s
    ensures k == l && six == five
  {
    var h, g := Head(k, six), Head(l, five);
    assert s[0] == h[0] == g[0];
    assert k == l;
    assert s[|KindText(k)|] == h[|KindText(k)|] == g[|KindText(k)|];
  }

  lemma RestExactly(s: string, r: string)
    ensures Rest(s) == Some(r) <==> OneLine(r) && (s == r || s == r + "\n")
  {
  }

  lemma SameAfter(h: string, s: string, r: string)
    ensures h <= s ==> (s == h + r <==> s[|h|..] == r)
    ensures s == h + r ==> h <= s
  {
  }

  lemma SplitAsExactly(name: string, k: Kind, six: bool, p: Parts)
    ensures SplitAs(name, k, six) == Some(p)
            <==> p.kind == k && p.six == six && OneLine(p.rest) && (name == Text(p) || name == Text(p) + "\n")
  {
    var h := Head(k, six);
    SameAfter(h, name, p.rest);
    SameAfter(h, name, p.rest + "\n");
    assert h + (p.rest + "\n") == (h + p.rest) + "\n";
    if h <= name {
      RestExactly(name[|h|..], p.rest);
    }
  }

  /** The pattern takes a name apart into kind, family and rest exactly when the name is their text, or
      that text with a line feed after it. */
  lemma SplitExactly(name: string, p: Parts)
    ensures Split(name) == Some(p) <==> OneLine(p.rest) && (name == Text(p) || name == Text(p) + "\n")
  {
    forall k, six ensures
      SplitAs(name, k, six) == Some(p)
      <==> p.kind == k && p.six == six && OneLine(p.rest) && (name == Text(p) || name == Text(p) + "\n")
    {
      SplitAsExactly(name, k, six, p);
    }
    forall k, six, l, five | SplitAs(name, k, six).Some? && SplitAs(name, l, five).Some?
      ensures k == l && six == five
    {
      HeadsDiffer(k, six, l, five, name);
    }
    SplitIsSome(name, p.kind, p.six);
  }

  lemma SplitIsSome(name: string, k: Kind, six: bool)
    requires forall k, six, l, five | SplitAs(name, k, six).Some? && SplitAs(name, l, five).Some?
               :: k == l && six == five
    ensures SplitAs(name, k, six).Some? ==> Split(name) == SplitAs(name, k, six)
    ensures Split(name).Some? ==> exists l, five :: Split(name) == SplitAs(name, l, five)
  {
  }

  lemma TextIsOneLine(p: Parts)
    requires '\n' !in p.rest
    ensures '\n' !in Text(p)
  {
  }

  /** A name has a pair exactly when it is suffixed. The pair has the other family and the same kind and
      rest; it is never the name itself. */
  lemma PairChangesFamily(name: string)
    ensures match Split(name)
            case Some(p) => Pair(name) == Some(Text(Other(p))) && Split(Text(Other(p))) == Some(Other(p))
                && Text(Other(p)) != name
            case None => Pair(name) == None
  {
    match Split(name)
    case Some(p) =>
      SplitExactly(name, p);
      SplitExactly(Text(Other(p)), Other(p));
      SplitExactly(name, Other(p));
    case None =>
  }

  /** Pairing twice returns to the name exactly when the name has no line feed. */
  lemma PairTwice(name: string)
    ensures match Pair(name)
            case Some(q) => Pair(q) == Some(name) <==> '\n' !in name
            case None => !Suffixed(name)
  {
    match Split(name)
    case Some(p) =>
      SplitExactly(name, p);
      PairChangesFamily(name);
      TextIsOneLine(p);
      assert Pair(Text(Other(p))) == Some(Text(p));
    case None =>
  }

  // ----- what the pairing rule gives on a set of declared names

  ghost predicate Paired(names: set<string>) {
    forall a {:trigger Suffixed(a)} :: a in names && Suffixed(a) ==> Pair(a).value in names
  }

  function OfFamily(names: set<string>, six: bool): set<string> {
    set a | a in names && Suffixed(a) && Split(a).value.six == six && '\n' !in a
  }

  lemma {:induction false} InjectionGrows(s: set<string>, t: set<string>, f: string -> string)
    requires forall x :: x in s ==> f(x) in t
    requires forall x, y :: x in s && y in s && f(x) == f(y) ==> x == y
    ensures |s| <= |t|
  {
    if s != {} {
      var x :| x in s;
      InjectionGrows(s - {x}, t - {f(x)}, f);
    }
  }

  function PairOf(name: string): string {
    match Pair(name) case Some(q) => q case None => name
  }

  lemma PairIntoOther(names: set<string>, six: bool)
    requires Paired(names)
    ensures forall a :: a in OfFamily(names, six) ==> PairOf(a) in OfFamily(names, !six)
    ensures forall a :: a in OfFamily(names, six) ==> PairOf(PairOf(a)) == a
    ensures |OfFamily(names, six)| <= |OfFamily(names, !six)|
  {
    forall a | a in OfFamily(names, six) ensures PairOf(a) in OfFamily(names, !six) && PairOf(PairOf(a)) == a {
      PairChangesFamily(a);
      PairTwice(a);
      TextIsOneLine(Other(Split(a).value));
    }
    InjectionGrows(OfFamily(names, six), OfFamily(names, !six), PairOf);
  }

  /** No unpaired name: pairing is a bijection between the two families, which are equally many. */
  lemma FamiliesMatch(names: set<string>)
    requires Paired(names)
    ensures |OfFamily(names, false)| == |OfFamily(names, true)|
    ensures forall a, six :: a in OfFamily(names, six) ==> PairOf(a) in OfFamily(names, !six) && PairOf(PairOf(a)) == a
  {
    PairIntoOther(names, false);
    PairIntoOther(names, true);
    forall a, six | a in OfFamily(names, six) ensures PairOf(a) in OfFamily(names, !six) && PairOf(PairOf(a)) == a {
      PairIntoOther(names, six);
    }
  }

  /** Pairing twice returns to every suffixed name exactly when none of them has a line feed. */
  lemma PairingReturnsExactly(names: set<string>)
    ensures (forall a :: a in names && Suffixed(a) ==> PairOf(PairOf(a)) == a)
            <==> forall a :: a in names && Suffixed(a) ==> '\n' !in a
  {
    forall a | a in names && Suffixed(a) ensures PairOf(PairOf(a)) == a <==> '\n' !in a {
      PairTwice(a);
      PairChangesFamily(a);
    }
  }

  // ----- descriptions

  /** The characters from i up to k are blank. */
  predicate Blank(s: string, i: nat, k: nat) {
    forall j :: i <= j < k && j < |s| ==> IsSpace(s[j])
  }

  lemma RStripOfCut(s: string, k: nat, i: nat)
    requires i <= k <= |s| && Blank(s, i, k)
    ensures |RStrip(s[..k])| <= i && Blank(s, |RStrip(s[..k])|, k)
  {
  }

  // `\s*\(v[46]\)\s*$`

  predicate BracketAt(s: string, k: nat) {
    k + 4 <= |s| && s[k] == '(' && s[k + 1] == 'v' && (s[k + 2] == '4' || s[k + 2] == '6') && s[k + 3] == ')'
  }

  /** It matches from i to the end, with the bracket at k. */
  predicate BracketMarker(s: string, i: nat, k: nat) {
    i <= k && Blank(s, i, k) && BracketAt(s, k) && Blank(s, k + 4, |s|)
  }

  function DropBrackets(s: string): string {
    var end := |RStrip(s)|;
    if end >= 4 && BracketAt(s, end - 4) then RStrip(s[..end - 4]) else s
  }

  lemma BracketIsLast(s: string, k: nat)
    requires BracketAt(s, k) && Blank(s, k + 4, |s|)
    ensures |RStrip(s)| == k + 4
  {
  }

  /** The substitution cuts the text off where its leftmost match begins, and only where there is one. */
  lemma DropBracketsIsLeftmost(s: string, i: nat, k: nat)
    ensures BracketMarker(s, i, k) ==>
              var cut := DropBrackets(s); cut <= s && |cut| <= i && BracketMarker(s, |cut|, k)
    ensures DropBrackets(s) == s || exists l: nat :: BracketMarker(s, |DropBrackets(s)|, l)
  {
    var end := |RStrip(s)|;
    if end >= 4 && BracketAt(s, end - 4) {
      RStripOfCut(s, end - 4, end - 4);
      assert BracketMarker(s, |DropBrackets(s)|, end - 4);
    }
    if BracketMarker(s, i, k) {
      BracketIsLast(s, k);
      RStripOfCut(s, k, i);
    }
  }

  // `\s+v[46]\)$` and `\s+v[46]$`, where close is what follows the marker

  predicate WordAt(s: string, k: int, close: string) {
    && 0 < k < |s| && IsSpace(s[k - 1])
    && (s[k..] == "v4" + close || s[k..] == "v6" + close || s[k..] == "v4" + close + "\n"
        || s[k..] == "v6" + close + "\n")
  }

  /** It matches from i on, with the marker at k. */
  predicate WordMarker(s: string, i: nat, k: nat, close: string) {
    i < k && Blank(s, i, k) && WordAt(s, k, close)
  }

  function DropWord(s: string, close: string): string {
    var k := |s| - |close| - 2;
    if WordAt(s, k, close) then RStrip(s[..k]) + s[k + 2..]
    else if WordAt(s, k - 1, close) then RStrip(s[..k - 1]) + s[k + 1..]
    else s
  }

  lemma WordIsLast(s: string, k: nat, close: string)
    requires WordAt(s, k, close) && '\n' !in close
    ensures s[|s| - 1] != '\n' ==> k == |s| - |close| - 2
    ensures s[|s| - 1] == '\n' ==> k == |s| - |close| - 3
  {
  }

  lemma WordDropped(s: string, k: nat, close: string)
    requires WordAt(s, k, close) && '\n' !in close
    ensures DropWord(s, close) == RStrip(s[..k]) + s[k + 2..]
  {
    WordIsLast(s, k, close);
    var e := |s| - |close| - 2;
    if k != e && WordAt(s, e, close) {
      WordIsLast(s, e, close);
    }
  }

  /** The substitution replaces its leftmost match by what closes it, and only where there is one. */
  lemma DropWordIsLeftmost(s: string, i: nat, k: nat, close: string)
    requires '\n' !in close
    ensures WordMarker(s, i, k, close) ==>
              var cut := RStrip(s[..k]);
              cut <= s && |cut| <= i && WordMarker(s, |cut|, k, close) && DropWord(s, close) == cut + s[k + 2..]
    ensures DropWord(s, close) == s || exists j: nat, l: nat :: WordMarker(s, j, l, close)
  {
    if WordMarker(s, i, k, close) {
      WordDropped(s, k, close);
      RStripOfCut(s, k, i);
    }
    var e := |s| - |close| - 2;
    assert WordAt(s, e, close) ==> WordMarker(s, e - 1, e, close);
    assert WordAt(s, e - 1, close) ==> WordMarker(s, e - 2, e - 1, close);
  }

  function Base(desc: string): string {
    LStrip(RStrip(DropWord(DropWord(DropBrackets(desc), ")"), "")))
  }

  // ----- the two halves of a twin have one base

  lemma BracketForgotten(d: string)
    ensures Base(d + " (v4)") == Base(d + " (v6)")
  {
    var s, t := d + " (v4)", d + " (v6)";
    var k := |d| + 1;
    assert BracketAt(s, k) && BracketAt(t, k);
    BracketIsLast(s, k);
    BracketIsLast(t, k);
    assert s[..k] == d + " " == t[..k];
  }

  /** A marker that is not bracketed and has no blanks after it. */
  lemma NoBracket(s: string, k: nat)
    requires 0 < k && k + 2 <= |s| <= k + 3 && s[k] == 'v' && s[k - 1] != '(' && !IsSpace(s[|s| - 1])
    ensures DropBrackets(s) == s
  {
  }

  lemma NoWord(s: string, c: char)
    requires s != "" && s[|s| - 1] != '\n' && s[|s| - 1] != c
    ensures DropWord(s, [c]) == s
  {
  }

  lemma WordBase(s: string, k: nat)
    requires 0 < k < |s| && s[k - 1] == ' ' && (s[k..] == "v4" || s[k..] == "v6")
    ensures Base(s) == LStrip(RStrip(RStrip(s[..k])))
  {
    var rest := s[k..];
    assert s[k] == rest[0] && s[|s| - 1] == rest[1];
    NoBracket(s, k);
    NoWord(s, ')');
    assert s[k..] == rest + "";
    WordDropped(s, k, "");
    assert RStrip(s[..k]) + s[k + 2..] == RStrip(s[..k]);
  }

  lemma WordForgotten(d: string)
    ensures Base(d + " v4") == Base(d + " v6")
  {
    var s, t := d + " v4", d + " v6";
    var k := |d| + 1;
    assert s[k..] == "v4" && t[k..] == "v6" && s[..k] == d + " " == t[..k];
    WordBase(s, k);
    WordBase(t, k);
  }

  lemma InnerBase(s: string, k: nat)
    requires 0 < k < |s| && s[k - 1] == ' ' && (s[k..] == "v4)" || s[k..] == "v6)")
    ensures Base(s) == LStrip(RStrip(DropWord(RStrip(s[..k]) + ")", "")))
  {
    var rest := s[k..];
    assert s[k] == rest[0] && s[|s| - 1] == rest[2] && s[k + 2..] == rest[2..] == ")";
    NoBracket(s, k);
    assert "v4)" == "v4" + ")" && "v6)" == "v6" + ")";
    WordDropped(s, k, ")");
  }

  lemma InnerForgotten(d: string)
    ensures Base(d + " v4)") == Base(d + " v6)")
  {
    var s, t := d + " v4)", d + " v6)";
    var k := |d| + 1;
    assert s[k..] == "v4)" && t[k..] == "v6)" && s[..k] == d + " " == t[..k];
    InnerBase(s, k);
    InnerBase(t, k);
  }

  /** Whatever a rule is called, its two families have one base, however the family is marked. */
  lemma TwinsShareTheirBase(d: string)
    ensures Base(d + " (v4)") == Base(d + " (v6)") && Base(d + " v4") == Base(d + " v6")
        && Base(d + " v4)") == Base(d + " v6)")
  {
    BracketForgotten(d);
    WordForgotten(d);
    InnerForgotten(d);
  }

  // ----- descriptions without a marker

  /** d without the blanks at its ends. */
  ghost predicate Trims(d: string, t: string) {
    && (t != "" ==> !IsSpace(t[0]) && !IsSpace(t[|t| - 1]))
    && exists a, b :: AllSpace(a) && AllSpace(b) && d == a + t + b
  }

  ghost predicate Unmarked(d: string) {
    && (forall i, k :: !BracketMarker(d, i, k)) && (forall i, k :: !WordMarker(d, i, k, ")"))
    && (forall i, k :: !WordMarker(d, i, k, ""))
  }

  lemma RStripLeaves(d: string, r: string)
    requires r == RStrip(d)
    ensures AllSpace(d[|r|..]) && d == r + d[|r|..] && (r != "" ==> !IsSpace(r[|r| - 1]))
  {
  }

  lemma PartsTrim(d: string, a: string, t: string, b: string)
    requires AllSpace(a) && AllSpace(b) && d == a + t + b && (t != "" ==> !IsSpace(t[0]) && !IsSpace(t[|t| - 1]))
    ensures Trims(d, t)
  {
  }

  lemma StripTrims(d: string)
    ensures Trims(d, LStrip(RStrip(d)))
  {
    var r := RStrip(d);
    var t := LStrip(r);
    var n := |r| - |t|;
    RStripLeaves(d, r);
    LStripIs(r);
    assert r == r[..n] + t;
    PartsTrim(d, r[..n], t, d[|r|..]);
  }

  /** Without a marker nothing is cut but blanks, so descriptions that differ in more keep different bases. */
  lemma UnmarkedKeepsItsBase(d: string)
    requires Unmarked(d)
    ensures Trims(d, Base(d))
  {
    DropBracketsIsLeftmost(d, 0, 0);
    DropWordIsLeftmost(d, 0, 0, ")");
    DropWordIsLeftmost(d, 0, 0, "");
    StripTrims(d);
  }

  lemma CutBlank(d: string)
    requires d != "" && !IsSpace(d[|d| - 1])
    ensures RStrip(d + " ") == d && RStrip(d) == d
  {
    assert (d + " ")[..|d + " "| - 1] == d;
  }

  /** And with a marker nothing is cut but that. */
  lemma OnlyTheWordIsCut(d: string)
    requires d != "" && !IsSpace(d[|d| - 1])
    ensures Trims(d, Base(d + " v4"))
  {
    var s, k := d + " v4", |d| + 1;
    assert s[k..] == "v4" && s[..k] == d + " ";
    WordBase(s, k);
    CutBlank(d);
    StripTrims(d);
  }

  lemma OnlyTheBracketIsCut(d: string)
    requires d != "" && !IsSpace(d[|d| - 1]) && Unmarked(d)
    ensures Trims(d, Base(d + " (v4)"))
  {
    var t, k := d + " (v4)", |d| + 1;
    assert BracketAt(t, k) && t[..k] == d + " ";
    BracketIsLast(t, k);
    CutBlank(d);
    assert DropBrackets(t) == d;
    DropWordIsLeftmost(d, 0, 0, ")");
    DropWordIsLeftmost(d, 0, 0, "");
    StripTrims(d);
  }
}
