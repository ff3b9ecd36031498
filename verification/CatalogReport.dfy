/** What the firewall catalog lint reports, violation by violation
    (roles/opnsense/_archive/catalog_lint.py). */
module CatalogReport {
  import opened Basics
  import opened CatalogNames
  import opened CatalogLint

  // ----- names

  /** The name says its kind and family, then the rest of one line; a line feed may end it. */
  ghost predicate Says(name: string, kind: string, six: bool, rest: string) {
    && (kind == "host" || kind == "net" || kind == "grp_net") && rest != "" && '\n' !in rest
    && var text := kind + (if six then "6_" else "4_") + rest;
    (name == text || name == text + "\n")
  }

  ghost predicate IsSuffixed(name: string) {
    exists kind, six, rest :: Says(name, kind, six, rest)
  }

  ghost predicate IsPairOf(name: string, pair: string) {
    exists kind, six, rest :: Says(name, kind, six, rest) && pair == kind + (if six then "4_" else "6_") + rest
  }

  lemma SaysExactly(name: string, p: Parts)
    ensures Split(name) == Some(p) <==> Says(name, KindText(p.kind), p.six, p.rest)
  {
    SplitExactly(name, p);
  }

  lemma KindOf(text: string) returns (k: Kind)
    requires text == "host" || text == "net" || text == "grp_net"
    ensures KindText(k) == text
  {
    k := if text == "host" then Host else if text == "net" then Net else GrpNet;
  }

  lemma SaidIsSplit(name: string, kind: string, six: bool, rest: string) returns (p: Parts)
    requires Says(name, kind, six, rest)
    ensures Split(name) == Some(p) && KindText(p.kind) == kind && p.six == six && p.rest == rest
  {
    var k := KindOf(kind);
    p := Parts(k, six, rest);
    SaysExactly(name, p);
  }

  lemma SuffixedExactly(name: string)
    ensures Suffixed(name) <==> IsSuffixed(name)
  {
    if Split(name).Some? {
      SaysExactly(name, Split(name).value);
    }
    if kind, six, rest :| Says(name, kind, six, rest) {
      var _ := SaidIsSplit(name, kind, six, rest);
    }
  }

  lemma PairExactly(name: string, pair: string)
    ensures Pair(name) == Some(pair) <==> IsPairOf(name, pair)
  {
    if Split(name).Some? {
      var p := Split(name).value;
      SaysExactly(name, p);
    }
    if kind, six, rest :| Says(name, kind, six, rest) && pair == kind + (if six then "4_" else "6_") + rest {
      var p := SaidIsSplit(name, kind, six, rest);
    }
  }

  // ----- what is reported

  ghost predicate IsThere(aliases: seq<Alias>, name: string) {
    exists a :: a in aliases && a.present && a.name == name
  }

  /** A field may hold a present alias, or one of three words. */
  ghost predicate MayHold(aliases: seq<Alias>, value: string) {
    IsThere(aliases, value) || value == "any" || value == "(self)" || value == ""
  }

  ghost predicate Holds(r: Rule, f: Field, value: string) {
    match f
    case SourceNet => r.sourceNet == value
    case DestinationNet => r.destinationNet == value
    case DestinationPort => r.destinationPort == value
    case SourcePort => r.sourcePort == value
  }

  ghost predicate SpeaksProtocol(lower: string -> string, r: Rule, protocol: string) {
    protocol == lower(if r.protocol != "" then r.protocol else "any")
  }

  /** The i-th rule is present and has this base; `base` is that of its description. */
  ghost predicate IsOf(base: Rule -> string, all: seq<Rule>, b: string, i: int) {
    0 <= i < |all| && all[i].present && base(all[i]) == b
  }

  ghost predicate IsFirst(base: Rule -> string, all: seq<Rule>, b: string, i: int) {
    IsOf(base, all, b, i) && forall j :: 0 <= j < i ==> !IsOf(base, all, b, j)
  }

  ghost predicate IsLast(base: Rule -> string, all: seq<Rule>, b: string, family: Family, i: int) {
    && IsOf(base, all, b, i) && all[i].family == family
    && forall j :: i < j && IsOf(base, all, b, j) ==> all[j].family != family
  }

  ghost predicate HasFamily(base: Rule -> string, all: seq<Rule>, b: string, family: Family) {
    exists i :: IsOf(base, all, b, i) && all[i].family == family
  }

  /** Of the rules with base b none is for both families, and not both families are there; the last rule of
      the family that the first one has is on a dual-stack interface and names a suffixed alias. */
  ghost predicate TwinMissing(base: Rule -> string, all: seq<Rule>, singles: set<Option<string>>, b: string,
                              desc: string, family: Family, iface: Option<string>) {
    && !HasFamily(base, all, b, Inet46) && !(HasFamily(base, all, b, Inet) && HasFamily(base, all, b, Inet6))
    && exists i, k :: IsFirst(base, all, b, i) && all[i].family == family && IsLast(base, all, b, family, k)
         && all[k].description == desc && all[k].iface == iface && iface !in singles
         && (IsSuffixed(all[k].sourceNet) || IsSuffixed(all[k].destinationNet))
  }

  ghost predicate Reported(aliases: seq<Alias>, all: seq<Rule>, singles: set<Option<string>>,
                           lower: string -> string, v: Violation) {
    match v
    case NoPair(a, missing) => IsThere(aliases, a) && IsPairOf(a, missing) && !IsThere(aliases, missing)
    case NotAnAlias(desc, f, value) =>
      !MayHold(aliases, value) && exists r :: r in all && r.present && r.description == desc && Holds(r, f, value)
    case BadFamily(desc, family) =>
      family.Unknown? && exists r :: r in all && r.present && r.description == desc && r.family == family
    case PortsNeedTcp(desc, protocol) =>
      && protocol != "tcp" && protocol != "udp" && protocol != "tcp/udp"
      && exists r :: r in all && r.present && r.description == desc && SpeaksProtocol(lower, r, protocol)
           && (r.sourcePort != "" || r.destinationPort != "")
    case NoTwin(desc, family, iface) => exists b :: TwinMissing(RuleBase, all, singles, b, desc, family, iface)
  }

  lemma {:induction false} InFlat<X>(xs: seq<X>, one: X -> seq<Violation>, v: Violation)
    ensures v in Flat(xs, one) <==> exists x :: x in xs && v in one(x)
  {
    if xs != [] {
      var last := |xs| - 1;
      InFlat(xs[..last], one, v);
      assert forall x :: x in xs <==> x in xs[..last] || x == xs[last];
    }
  }

  lemma {:induction false} PresentAre(all: seq<Rule>, r: Rule)
    ensures r in Present(all) <==> r in all && r.present
  {
    if all != [] {
      var last := |all| - 1;
      PresentAre(all[..last], r);
      assert r in all <==> r in all[..last] || r == all[last];
    }
  }

  lemma NamesAre(aliases: seq<Alias>, n: string)
    ensures n in Names(aliases) <==> IsThere(aliases, n)
  {
    NamesAreThePresent(aliases);
  }

  lemma KnownAre(aliases: seq<Alias>, value: string)
    ensures value in ToSet(Names(aliases)) + KEYWORDS <==> MayHold(aliases, value)
  {
    NamesAre(aliases, value);
  }

  lemma PairReported(aliases: seq<Alias>, v: Violation)
    ensures v in Flat(Names(aliases), OfPair(ToSet(Names(aliases)))) <==>
      v.NoPair? && IsThere(aliases, v.alias) && IsPairOf(v.alias, v.missing) && !IsThere(aliases, v.missing)
  {
    var names := Names(aliases);
    InFlat(names, OfPair(ToSet(names)), v);
    if v.NoPair? {
      NamesAre(aliases, v.alias);
      NamesAre(aliases, v.missing);
      PairExactly(v.alias, v.missing);
      assert v in OfPair(ToSet(names))(v.alias) <==> Pair(v.alias) == Some(v.missing) && v.missing !in names;
    }
  }

  /** The violation is one of this rule. */
  ghost predicate IsOfRule(known: set<string>, lower: string -> string, r: Rule, v: Violation) {
    match v
    case NotAnAlias(desc, f, value) => value !in known && r.description == desc && Holds(r, f, value)
    case BadFamily(desc, family) => family.Unknown? && r.description == desc && r.family == family
    case PortsNeedTcp(desc, protocol) =>
      && protocol != "tcp" && protocol != "udp" && protocol != "tcp/udp"
      && r.description == desc && SpeaksProtocol(lower, r, protocol) && (r.sourcePort != "" || r.destinationPort != "")
    case NoPair(_, _) => false
    case NoTwin(_, _, _) => false
  }

  lemma RuleReported(known: set<string>, lower: string -> string, r: Rule, v: Violation)
    ensures v in RuleViolations(known, lower, r) <==> IsOfRule(known, lower, r, v)
  {
  }

  lemma RuleBaseIs(r: Rule, s: Rule)
    requires r.description == s.description
    ensures RuleBase(r) == RuleBase(s) == Base(r.description)
  {
  }

  // ----- the group of a base, by positions

  /** The rules with base b, as the program groups them. */
  ghost function GroupOf(base: Rule -> string, all: seq<Rule>, b: string): seq<Rule> {
    Group(base, Present(all), b)
  }

  lemma GroupGrows(base: Rule -> string, all: seq<Rule>, b: string)
    requires all != []
    ensures var last := |all| - 1;
      GroupOf(base, all, b) == GroupOf(base, all[..last], b) + if IsOf(base, all, b, last) then [all[last]] else []
  {
    var last := |all| - 1;
    var before := Present(all[..last]);
    if all[last].present {
      assert (before + [all[last]])[..|before|] == before;
    }
  }

  lemma {:induction false} GroupIs(base: Rule -> string, all: seq<Rule>, b: string)
    ensures GroupOf(base, all, b) == [] <==> forall i :: !IsOf(base, all, b, i)
    ensures GroupOf(base, all, b) != [] ==> exists i :: IsFirst(base, all, b, i) && GroupOf(base, all, b)[0] == all[i]
  {
    if all != [] {
      var last := |all| - 1;
      var init := all[..last];
      GroupIs(base, init, b);
      GroupGrows(base, all, b);
      assert forall i :: i != last ==> (IsOf(base, all, b, i) <==> IsOf(base, init, b, i));
      if GroupOf(base, init, b) != [] {
        var i :| IsFirst(base, init, b, i) && GroupOf(base, init, b)[0] == init[i];
        assert IsFirst(base, all, b, i);
      } else if IsOf(base, all, b, last) {
        assert IsFirst(base, all, b, last);
      }
    }
  }

  lemma LastOfMore(g: seq<Rule>, r: Rule, family: Family)
    ensures LastOf(g + [r], family) == if r.family == family then Some(r) else LastOf(g, family)
  {
    assert (g + [r])[..|g|] == g;
  }

  /** One more rule, not of this base or not of this family, leaves the last one. */
  lemma LastStays(base: Rule -> string, all: seq<Rule>, b: string, family: Family, k: int)
    requires all != [] && IsLast(base, all[..|all| - 1], b, family, k)
    requires !IsOf(base, all, b, |all| - 1) || all[|all| - 1].family != family
    ensures IsLast(base, all, b, family, k)
  {
    var init := all[..|all| - 1];
    forall j | k < j && IsOf(base, all, b, j) ensures all[j].family != family {
      assert j < |init| ==> IsOf(base, init, b, j);
    }
  }

  lemma {:induction false} LastIs(base: Rule -> string, all: seq<Rule>, b: string, family: Family)
    ensures match LastOf(GroupOf(base, all, b), family)
      case Some(r) => exists k :: IsLast(base, all, b, family, k) && all[k] == r
      case None => !HasFamily(base, all, b, family)
  {
    if all != [] {
      var last := |all| - 1;
      var init := all[..last];
      var before := GroupOf(base, init, b);
      LastIs(base, init, b, family);
      GroupGrows(base, all, b);
      LastOfMore(before, all[last], family);
      if IsOf(base, all, b, last) && all[last].family == family {
        assert IsLast(base, all, b, family, last);
      } else if LastOf(before, family).Some? {
        var k :| IsLast(base, init, b, family, k) && init[k] == LastOf(before, family).value;
        LastStays(base, all, b, family, k);
      } else {
        forall i | IsOf(base, all, b, i) ensures all[i].family != family {
          assert i < last ==> IsOf(base, init, b, i);
        }
      }
    }
  }

  lemma FamilyIs(base: Rule -> string, all: seq<Rule>, b: string, family: Family)
    ensures LastOf(GroupOf(base, all, b), family).Some? <==> HasFamily(base, all, b, family)
  {
    LastIs(base, all, b, family);
  }

  lemma OneFirst(base: Rule -> string, all: seq<Rule>, b: string, i: int, j: int)
    requires IsFirst(base, all, b, i) && IsFirst(base, all, b, j)
    ensures i == j
  {
  }

  lemma OneLast(base: Rule -> string, all: seq<Rule>, b: string, family: Family, i: int, j: int)
    requires IsLast(base, all, b, family, i) && IsLast(base, all, b, family, j)
    ensures i == j
  {
  }

  /** The group's families and the rule that decides, by positions. */
  lemma GroupDecides(base: Rule -> string, all: seq<Rule>, b: string) returns (i: int, k: int)
    requires GroupOf(base, all, b) != []
    ensures var fam := ByFamily(GroupOf(base, all, b));
      && IsFirst(base, all, b, i) && IsLast(base, all, b, all[i].family, k)
      && fam != [] && fam[0] == (all[i].family, all[k])
      && (Get(fam, Inet).Some? <==> HasFamily(base, all, b, Inet))
      && (Get(fam, Inet6).Some? <==> HasFamily(base, all, b, Inet6))
      && (Get(fam, Inet46).Some? <==> HasFamily(base, all, b, Inet46))
  {
    var g := GroupOf(base, all, b);
    GroupIs(base, all, b);
    i :| IsFirst(base, all, b, i) && g[0] == all[i];
    var f := all[i].family;
    ByFamilyKeepsLast(g, f);
    EntryIsGet(ByFamily(g), 0);
    LastIs(base, all, b, f);
    assert HasFamily(base, all, b, f);
    k :| IsLast(base, all, b, f, k) && all[k] == LastOf(g, f).value;
    ByFamilyKeepsLast(g, Inet);
    ByFamilyKeepsLast(g, Inet6);
    ByFamilyKeepsLast(g, Inet46);
    FamilyIs(base, all, b, Inet);
    FamilyIs(base, all, b, Inet6);
    FamilyIs(base, all, b, Inet46);
  }

  /** What the lint makes of the group is what its positions say. */
  lemma TwinReported(base: Rule -> string, all: seq<Rule>, singles: set<Option<string>>, b: string, v: Violation)
    requires GroupOf(base, all, b) != []
    ensures v in TwinViolation(singles, ByFamily(GroupOf(base, all, b)))
            <==> v.NoTwin? && TwinMissing(base, all, singles, b, v.description, v.family, v.iface)
  {
    var i, k := GroupDecides(base, all, b);
    SuffixedExactly(all[k].sourceNet);
    SuffixedExactly(all[k].destinationNet);
    forall i', k' | IsFirst(base, all, b, i') && IsLast(base, all, b, all[i'].family, k') ensures i' == i && k' == k {
      OneFirst(base, all, b, i, i');
      OneLast(base, all, b, all[i].family, k, k');
    }
  }

  ghost predicate SomeTwinMissing(base: Rule -> string, all: seq<Rule>, singles: set<Option<string>>, v: Violation) {
    v.NoTwin? && exists b :: TwinMissing(base, all, singles, b, v.description, v.family, v.iface)
  }

  lemma ReportedIsMissing(base: Rule -> string, all: seq<Rule>, singles: set<Option<string>>, v: Violation, n: nat)
    requires n < |Families(base, Present(all))|
    requires v in TwinViolation(singles, Families(base, Present(all))[n].1)
    ensures SomeTwinMissing(base, all, singles, v)
  {
    var fams := Families(base, Present(all));
    var b := fams[n].0;
    FamiliesOnce(base, Present(all));
    EntryIsGet(fams, n);
    FamiliesAreGroups(base, Present(all), b);
    TwinReported(base, all, singles, b, v);
  }

  lemma MissingIsReported(base: Rule -> string, all: seq<Rule>, singles: set<Option<string>>, v: Violation)
    returns (n: nat)
    requires SomeTwinMissing(base, all, singles, v)
    ensures n < |Families(base, Present(all))| && v in TwinViolation(singles, Families(base, Present(all))[n].1)
  {
    var b :| TwinMissing(base, all, singles, b, v.description, v.family, v.iface);
    GroupIs(base, all, b);
    FamiliesAreGroups(base, Present(all), b);
    TwinReported(base, all, singles, b, v);
    n := GetIsEntry(Families(base, Present(all)), b);
  }

  lemma TwinsReported(base: Rule -> string, all: seq<Rule>, singles: set<Option<string>>, v: Violation,
                      fams: Dict<string, Dict<Family, Rule>>, one: ((string, Dict<Family, Rule>)) -> seq<Violation>)
    requires fams == Families(base, Present(all)) && forall f :: one(f) == TwinViolation(singles, f.1)
    ensures v in Flat(fams, one) <==> SomeTwinMissing(base, all, singles, v)
  {
    InFlat(fams, one, v);
    if f :| f in fams && v in one(f) {
      var n :| 0 <= n < |fams| && fams[n] == f;
      ReportedIsMissing(base, all, singles, v, n);
    }
    if SomeTwinMissing(base, all, singles, v) {
      var n := MissingIsReported(base, all, singles, v);
      assert fams[n] in fams && v in one(fams[n]);
    }
  }

  lemma RulesReported(aliases: seq<Alias>, all: seq<Rule>, singles: set<Option<string>>, lower: string -> string,
                      v: Violation)
    ensures v in Flat(Present(all), OfRule(ToSet(Names(aliases)) + KEYWORDS, lower)) <==>
      !v.NoPair? && !v.NoTwin? && Reported(aliases, all, singles, lower, v)
  {
    var known := ToSet(Names(aliases)) + KEYWORDS;
    InFlat(Present(all), OfRule(known, lower), v);
    if v.NotAnAlias? {
      KnownAre(aliases, v.value);
    }
    forall r ensures r in Present(all) <==> r in all && r.present {
      PresentAre(all, r);
    }
    forall r ensures v in OfRule(known, lower)(r) <==> IsOfRule(known, lower, r, v) {
      RuleReported(known, lower, r, v);
    }
  }

  /** The lint reports a violation if and only if it is one, read off the catalog. */
  lemma ReportsExactly(aliases: seq<Alias>, all: seq<Rule>, singles: set<Option<string>>, lower: string -> string,
                       v: Violation)
    ensures v in Violations(aliases, all, singles, lower) <==> Reported(aliases, all, singles, lower, v)
  {
    var names := Names(aliases);
    var pairs := Flat(names, OfPair(ToSet(names)));
    var rules := Flat(Present(all), OfRule(ToSet(names) + KEYWORDS, lower));
    var twins := Flat(Families(RuleBase, Present(all)), OfTwins(singles));
    PairReported(aliases, v);
    RulesReported(aliases, all, singles, lower, v);
    TwinsReported(RuleBase, all, singles, v, Families(RuleBase, Present(all)), OfTwins(singles));
    InThree(pairs, rules, twins, v);
    KindsApart(aliases, all, singles, lower, v, v in pairs, v in rules, v in twins);
  }

  lemma InThree<T>(a: seq<T>, b: seq<T>, c: seq<T>, x: T)
    ensures x in a + b + c <==> x in a || x in b || x in c
  {
  }

  lemma KindsApart(aliases: seq<Alias>, all: seq<Rule>, singles: set<Option<string>>, lower: string -> string,
                   v: Violation, pair: bool, rule: bool, twin: bool)
    requires pair <==>
      v.NoPair? && IsThere(aliases, v.alias) && IsPairOf(v.alias, v.missing) && !IsThere(aliases, v.missing)
    requires rule <==> !v.NoPair? && !v.NoTwin? && Reported(aliases, all, singles, lower, v)
    requires twin <==> SomeTwinMissing(RuleBase, all, singles, v)
    ensures pair || rule || twin <==> Reported(aliases, all, singles, lower, v)
  {
  }
}
