/** The firewall catalog lint (`main` of roles/opnsense/_archive/catalog_lint.py): its loops, and what a
    catalog without violations is. */
module CatalogLint {

  import opened Basics
  import opened CatalogNames

  datatype Alias = Alias(name: string, present: bool)

  /** A rule's address family; any other text is kept as it is. */
  datatype Family = Inet | Inet6 | Inet46 | Unknown(text: string)

  /** A rule with the lint's defaults filled in: description "?", address family "inet", no net, no port,
      protocol "any". */
  datatype Rule = Rule(present: bool, description: string, sourceNet: string, destinationNet: string,
                       sourcePort: string, destinationPort: string, family: Family, protocol: string,
                       iface: Option<string>)

  datatype Field = SourceNet | DestinationNet | DestinationPort | SourcePort

  datatype Violation =
    | NoPair(alias: string, missing: string)
    | NotAnAlias(description: string, field: Field, value: string)
    | BadFamily(description: string, family: Family)
    | PortsNeedTcp(description: string, protocol: string)
    | NoTwin(description: string, family: Family, iface: Option<string>)

  // ----- dictionaries that keep the order of first insertion

  type Dict<K, V> = seq<(K, V)>

  function Get<K(==), V>(d: Dict<K, V>, k: K): Option<V> {
    if d == [] then None else if d[0].0 == k then Some(d[0].1) else Get(d[1..], k)
  }

  function Put<K(==), V>(d: Dict<K, V>, k: K, v: V): Dict<K, V> {
    if d == [] then [(k, v)] else if d[0].0 == k then [(k, v)] + d[1..] else [d[0]] + Put(d[1..], k, v)
  }

  lemma {:induction false} PutThenGet<K, V>(d: Dict<K, V>, k: K, v: V, l: K)
    ensures Get(Put(d, k, v), l) == if l == k then Some(v) else Get(d, l)
  {
    if d != [] && d[0].0 != k {
      PutThenGet(d[1..], k, v, l);
    }
  }

  lemma PutKeepsFirst<K, V>(d: Dict<K, V>, k: K, v: V)
    ensures Put(d, k, v)[0].0 == if d == [] then k else d[0].0
  {
  }

  ghost predicate KeysOnce<K, V>(d: Dict<K, V>) {
    forall i, j :: 0 <= i < j < |d| ==> d[i].0 != d[j].0
  }

  lemma {:induction false} EntryIsGet<K, V>(d: Dict<K, V>, i: nat)
    requires KeysOnce(d) && i < |d|
    ensures Get(d, d[i].0) == Some(d[i].1)
  {
    if i > 0 {
      EntryIsGet(d[1..], i - 1);
    }
  }

  lemma {:induction false} GetIsEntry<K, V>(d: Dict<K, V>, k: K) returns (i: nat)
    requires Get(d, k).Some?
    ensures i < |d| && d[i] == (k, Get(d, k).value)
  {
    if d[0].0 == k {
      i := 0;
    } else {
      i := GetIsEntry(d[1..], k);
      i := i + 1;
    }
  }

  ghost predicate HasKey<K, V>(d: Dict<K, V>, k: K) {
    exists j :: 0 <= j < |d| && d[j].0 == k
  }

  lemma {:induction false} PutKeys<K, V>(d: Dict<K, V>, k: K, v: V)
    ensures forall i :: 0 <= i < |Put(d, k, v)| ==> Put(d, k, v)[i].0 == k || HasKey(d, Put(d, k, v)[i].0)
    ensures KeysOnce(d) ==> KeysOnce(Put(d, k, v))
  {
    if d != [] && d[0].0 != k {
      PutKeys(d[1..], k, v);
      var rest := Put(d[1..], k, v);
      forall i | 0 <= i < |rest| && rest[i].0 != k
          ensures HasKey(d, rest[i].0) && (KeysOnce(d) ==> rest[i].0 != d[0].0) {
        assert HasKey(d[1..], rest[i].0);
        var j :| 0 <= j < |d[1..]| && d[1..][j].0 == rest[i].0;
        assert d[j + 1].0 == rest[i].0;
      }
    }
  }

  // ----- aliases

  /** The names of the present aliases, each once, in the order of first appearance. */
  function Names(aliases: seq<Alias>): seq<string> {
    if aliases == [] then []
    else
      var before, a := Names(aliases[..|aliases| - 1]), aliases[|aliases| - 1];
      if a.present && a.name !in before then before + [a.name] else before
  }

  lemma {:induction false} NamesAreThePresent(aliases: seq<Alias>)
    ensures forall n :: n in Names(aliases) <==>
          exists i :: 0 <= i < |aliases| && aliases[i].present && aliases[i].name == n
  {
    if aliases != [] {
      var front, a := aliases[..|aliases| - 1], aliases[|aliases| - 1];
      NamesAreThePresent(front);
      assert aliases == front + [a];
    }
  }

  function PairViolation(names: set<string>, a: string): seq<Violation> {
    match Pair(a)
    case Some(p) => if p in names then [] else [NoPair(a, p)]
    case None => []
  }

  // ----- one rule by itself

  /** What a net or port field may say without being an alias. */
  const KEYWORDS := {"any", "(self)", ""}

  function Value(r: Rule, f: Field): string {
    match f
    case SourceNet => r.sourceNet
    case DestinationNet => r.destinationNet
    case DestinationPort => r.destinationPort
    case SourcePort => r.sourcePort
  }

  function FieldViolation(known: set<string>, r: Rule, f: Field): seq<Violation> {
    if Value(r, f) in known then [] else [NotAnAlias(r.description, f, Value(r, f))]
  }

  predicate HasPort(r: Rule) {
    r.destinationPort != "" || r.sourcePort != ""
  }

  /** The protocol as it is compared: `any` when empty, in lower case. */
  function Protocol(lower: string -> string, r: Rule): string {
    lower(if r.protocol == "" then "any" else r.protocol)
  }

  predicate KnownFamily(family: Family) {
    !family.Unknown?
  }

  predicate TakesPorts(protocol: string) {
    protocol == "tcp" || protocol == "udp" || protocol == "tcp/udp"
  }

  function RuleViolations(known: set<string>, lower: string -> string, r: Rule): seq<Violation> {
    FieldViolation(known, r, SourceNet) + FieldViolation(known, r, DestinationNet)
    + FieldViolation(known, r, DestinationPort) + FieldViolation(known, r, SourcePort)
    + (if KnownFamily(r.family) then [] else [BadFamily(r.description, r.family)])
    + (if HasPort(r) && !TakesPorts(Protocol(lower, r)) then [PortsNeedTcp(r.description, Protocol(lower, r))] else [])
  }

  predicate RuleOk(known: set<string>, lower: string -> string, r: Rule) {
    && (forall f :: Value(r, f) in known)
    && KnownFamily(r.family) && (HasPort(r) ==> TakesPorts(Protocol(lower, r)))
  }

  // ----- rules grouped by the description without its family marker

  /** The present rules, in order. */
  function Present(rules: seq<Rule>): seq<Rule> {
    if rules == [] then []
    else
      var before, r := Present(rules[..|rules| - 1]), rules[|rules| - 1];
      if r.present then before + [r] else before
  }

  function RuleBase(r: Rule): string {
    Base(r.description)
  }

  function Families(base: Rule -> string, rules: seq<Rule>): Dict<string, Dict<Family, Rule>> {
    if rules == [] then []
    else AddRule(base, Families(base, rules[..|rules| - 1]), rules[|rules| - 1])
  }

  function AddRule(base: Rule -> string, fams: Dict<string, Dict<Family, Rule>>, r: Rule)
    : Dict<string, Dict<Family, Rule>>
  {
    var b := base(r);
    Put(fams, b, Put(match Get(fams, b) case Some(d) => d case None => [], r.family, r))
  }

  lemma FamiliesMore(base: Rule -> string, rules: seq<Rule>, i: nat)
    requires i < |rules|
    ensures Families(base, rules[..i + 1]) == AddRule(base, Families(base, rules[..i]), rules[i])
  {
    assert rules[..i + 1][..i] == rules[..i];
  }

  /** The rules of one base, in order. */
  function Group(base: Rule -> string, rules: seq<Rule>, b: string): seq<Rule> {
    if rules == [] then []
    else
      var before, r := Group(base, rules[..|rules| - 1], b), rules[|rules| - 1];
      if base(r) == b then before + [r] else before
  }

  function ByFamily(group: seq<Rule>): Dict<Family, Rule> {
    if group == [] then []
    else
      var r := group[|group| - 1];
      Put(ByFamily(group[..|group| - 1]), r.family, r)
  }

  lemma {:induction false} FamiliesAreGroups(base: Rule -> string, rules: seq<Rule>, b: string)
    ensures Get(Families(base, rules), b)
        == if Group(base, rules, b) == [] then None else Some(ByFamily(Group(base, rules, b)))
  {
    if rules != [] {
      var front, r := rules[..|rules| - 1], rules[|rules| - 1];
      var c := base(r);
      FamiliesAreGroups(base, front, b);
      FamiliesAreGroups(base, front, c);
      var d := match Get(Families(base, front), c) case Some(d) => d case None => [];
      PutThenGet(Families(base, front), c, Put(d, r.family, r), b);
      if c == b {
        var g := Group(base, front, b);
        assert (g + [r])[..|g|] == g;
      }
    }
  }

  lemma {:induction false} FamiliesOnce(base: Rule -> string, rules: seq<Rule>)
    ensures KeysOnce(Families(base, rules))
  {
    if rules != [] {
      var front, r := rules[..|rules| - 1], rules[|rules| - 1];
      FamiliesOnce(base, front);
      var b := base(r);
      PutKeys(Families(base, front), b,
          Put(match Get(Families(base, front), b) case Some(d) => d case None => [], r.family, r));
    }
  }

  /** The group's last rule of a family, if it has one. */
  function LastOf(group: seq<Rule>, family: Family): Option<Rule> {
    if group == [] then None
    else
      var r := group[|group| - 1];
      if r.family == family then Some(r) else LastOf(group[..|group| - 1], family)
  }

  lemma {:induction false} ByFamilyKeepsLast(group: seq<Rule>, family: Family)
    ensures Get(ByFamily(group), family) == LastOf(group, family)
    ensures group != [] ==> ByFamily(group) != [] && ByFamily(group)[0].0 == group[0].family
    ensures group == [] ==> ByFamily(group) == []
    ensures KeysOnce(ByFamily(group))
  {
    if group != [] {
      var front, r := group[..|group| - 1], group[|group| - 1];
      ByFamilyKeepsLast(front, family);
      PutThenGet(ByFamily(front), r.family, r, family);
      PutKeepsFirst(ByFamily(front), r.family, r);
      PutKeys(ByFamily(front), r.family, r);
    }
  }

  predicate DualStack(r: Rule) {
    Suffixed(r.sourceNet) || Suffixed(r.destinationNet)
  }

  /** A group the lint is content with, given as its rules by family. */
  function TwinViolation(singles: set<Option<string>>, fam: Dict<Family, Rule>): seq<Violation> {
    if Get(fam, Inet46).Some? || (Get(fam, Inet).Some? && Get(fam, Inet6).Some?) || fam == [] then []
    else
      var (family, r) := fam[0];
      if r.iface in singles || !DualStack(r) then [] else [NoTwin(r.description, family, r.iface)]
  }

  // ----- the whole lint

  function Flat<X>(xs: seq<X>, one: X -> seq<Violation>): seq<Violation> {
    if xs == [] then [] else Flat(xs[..|xs| - 1], one) + one(xs[|xs| - 1])
  }

  lemma {:induction false} FlatEmpty<X>(xs: seq<X>, one: X -> seq<Violation>)
    ensures Flat(xs, one) == [] <==> forall i :: 0 <= i < |xs| ==> one(xs[i]) == []
  {
    if xs != [] {
      FlatEmpty(xs[..|xs| - 1], one);
    }
  }

  lemma FlatMore<X>(xs: seq<X>, one: X -> seq<Violation>, i: nat)
    requires i < |xs|
    ensures Flat(xs[..i + 1], one) == Flat(xs[..i], one) + one(xs[i])
  {
    assert xs[..i + 1][..i] == xs[..i];
  }

  function OfPair(names: set<string>): string -> seq<Violation> {
    a => PairViolation(names, a)
  }

  function OfRule(known: set<string>, lower: string -> string): Rule -> seq<Violation> {
    r => RuleViolations(known, lower, r)
  }

  function OfTwins(singles: set<Option<string>>): ((string, Dict<Family, Rule>)) -> seq<Violation> {
    (f: (string, Dict<Family, Rule>)) => TwinViolation(singles, f.1)
  }

  function ToSet<T>(s: seq<T>): set<T> {
    set x | x in s
  }

  function Violations(aliases: seq<Alias>, all: seq<Rule>, singles: set<Option<string>>, lower: string -> string)
    : seq<Violation>
  {
    var names, rules := Names(aliases), Present(all);
    Flat(names, OfPair(ToSet(names))) + Flat(rules, OfRule(ToSet(names) + KEYWORDS, lower))
    + Flat(Families(RuleBase, rules), OfTwins(singles))
  }

  method Lint(aliases: seq<Alias>, all: seq<Rule>, singles: set<Option<string>>, lower: string -> string)
    returns (v: seq<Violation>)
    ensures v == Violations(aliases, all, singles, lower)
  {
    var names := PresentNames(aliases);
    var rules := PresentRules(all);
    v := [];
    var i := 0;
    while i < |names|
      invariant 0 <= i <= |names|
      invariant v == Flat(names[..i], OfPair(ToSet(names)))
    {
      FlatMore(names, OfPair(ToSet(names)), i);
      match Pair(names[i]) {
        case Some(p) =>
          if p !in names {
            v := v + [NoPair(names[i], p)];
          }
        case None =>
      }
      i := i + 1;
    }
    assert names[..i] == names;
    var ruled, fams := LintRules(ToSet(names) + KEYWORDS, rules, lower);
    v := v + ruled;
    var twins := LintTwins(singles, fams);
    v := v + twins;
  }

  method PresentNames(aliases: seq<Alias>) returns (names: seq<string>)
    ensures names == Names(aliases)
  {
    names := [];
    for i := 0 to |aliases|
      invariant names == Names(aliases[..i])
    {
      assert aliases[..i + 1][..i] == aliases[..i];
      if aliases[i].present && aliases[i].name !in names {
        names := names + [aliases[i].name];
      }
    }
    assert aliases[..|aliases|] == aliases;
  }

  method PresentRules(all: seq<Rule>) returns (rules: seq<Rule>)
    ensures rules == Present(all)
  {
    rules := [];
    for i := 0 to |all|
      invariant rules == Present(all[..i])
    {
      assert all[..i + 1][..i] == all[..i];
      if all[i].present {
        rules := rules + [all[i]];
      }
    }
    assert all[..|all|] == all;
  }

  method LintRules(known: set<string>, rules: seq<Rule>, lower: string -> string)
    returns (v: seq<Violation>, fams: Dict<string, Dict<Family, Rule>>)
    ensures v == Flat(rules, OfRule(known, lower)) && fams == Families(RuleBase, rules)
  {
    v, fams := [], [];
    for i := 0 to |rules|
      invariant v == Flat(rules[..i], OfRule(known, lower)) && fams == Families(RuleBase, rules[..i])
    {
      FlatMore(rules, OfRule(known, lower), i);
      FamiliesMore(RuleBase, rules, i);
      var found := LintRule(known, rules[i], lower);
      v := v + found;
      fams := AddRule(RuleBase, fams, rules[i]);
    }
    assert rules[..|rules|] == rules;
  }

  method LintField(known: set<string>, r: Rule, f: Field) returns (v: seq<Violation>)
    ensures v == FieldViolation(known, r, f)
  {
    v := [];
    if Value(r, f) !in known {
      v := [NotAnAlias(r.description, f, Value(r, f))];
    }
  }

  method LintRule(known: set<string>, r: Rule, lower: string -> string) returns (v: seq<Violation>)
    ensures v == RuleViolations(known, lower, r)
  {
    v := LintField(known, r, SourceNet);
    var more := LintField(known, r, DestinationNet);
    v := v + more;
    more := LintField(known, r, DestinationPort);
    v := v + more;
    more := LintField(known, r, SourcePort);
    v := v + more;
    if !KnownFamily(r.family) {
      v := v + [BadFamily(r.description, r.family)];
    }
    var protocol := Protocol(lower, r);
    if HasPort(r) && !TakesPorts(protocol) {
      v := v + [PortsNeedTcp(r.description, protocol)];
    }
  }

  method LintTwins(singles: set<Option<string>>, fams: Dict<string, Dict<Family, Rule>>) returns (v: seq<Violation>)
    ensures v == Flat(fams, OfTwins(singles))
  {
    v := [];
    var i := 0;
    while i < |fams|
      invariant 0 <= i <= |fams|
      invariant v == Flat(fams[..i], OfTwins(singles))
    {
      FlatMore(fams, OfTwins(singles), i);
      var fam := fams[i].1;
      i := i + 1;
      if Get(fam, Inet46).Some? || (Get(fam, Inet).Some? && Get(fam, Inet6).Some?) || fam == [] {
        continue;
      }
      var (family, r) := fam[0];
      if r.iface in singles {
        continue;
      }
      if Suffixed(r.sourceNet) || Suffixed(r.destinationNet) {
        v := v + [NoTwin(r.description, family, r.iface)];
      }
    }
    assert fams[..i] == fams;
  }

  // ----- what a catalog without violations is

  lemma RuleOkExactly(known: set<string>, lower: string -> string, r: Rule)
    ensures RuleViolations(known, lower, r) == [] <==> RuleOk(known, lower, r)
  {
  }

  /** The group has both families or a rule for both, or else the last rule of the family it begins with
      needs no twin. */
  predicate GroupOk(singles: set<Option<string>>, group: seq<Rule>) {
    || LastOf(group, Inet46).Some?
    || (LastOf(group, Inet).Some? && LastOf(group, Inet6).Some?)
    || group == []
    || (var r := LastOf(group, group[0].family);
        r.None? || r.value.iface in singles || !DualStack(r.value))
  }

  lemma GroupOkExactly(singles: set<Option<string>>, group: seq<Rule>)
    ensures TwinViolation(singles, ByFamily(group)) == [] <==> GroupOk(singles, group)
  {
    ByFamilyKeepsLast(group, Inet46);
    ByFamilyKeepsLast(group, Inet);
    ByFamilyKeepsLast(group, Inet6);
    if group != [] {
      ByFamilyKeepsLast(group, group[0].family);
      EntryIsGet(ByFamily(group), 0);
    }
  }

  lemma GroupAt(base: Rule -> string, singles: set<Option<string>>, rules: seq<Rule>, i: nat)
    requires i < |Families(base, rules)|
    ensures var (b, fam) := Families(base, rules)[i];
      TwinViolation(singles, fam) == [] <==> GroupOk(singles, Group(base, rules, b))
  {
    var b := Families(base, rules)[i].0;
    FamiliesOnce(base, rules);
    EntryIsGet(Families(base, rules), i);
    FamiliesAreGroups(base, rules, b);
    GroupOkExactly(singles, Group(base, rules, b));
  }

  lemma GroupIsListed(base: Rule -> string, rules: seq<Rule>, b: string) returns (i: nat)
    requires Group(base, rules, b) != []
    ensures i < |Families(base, rules)| && Families(base, rules)[i].0 == b
  {
    FamiliesAreGroups(base, rules, b);
    i := GetIsEntry(Families(base, rules), b);
  }

  ghost predicate GroupsOk(base: Rule -> string, singles: set<Option<string>>, rules: seq<Rule>) {
    forall b :: GroupOk(singles, Group(base, rules, b))
  }

  lemma GroupsOkExactly(base: Rule -> string, singles: set<Option<string>>, rules: seq<Rule>)
    ensures Flat(Families(base, rules), OfTwins(singles)) == [] <==> GroupsOk(base, singles, rules)
  {
    var fams := Families(base, rules);
    FlatEmpty(fams, OfTwins(singles));
    forall i | 0 <= i < |fams|
        ensures TwinViolation(singles, fams[i].1) == [] <==> GroupOk(singles, Group(base, rules, fams[i].0)) {
      GroupAt(base, singles, rules, i);
    }
    if Flat(fams, OfTwins(singles)) == [] {
      forall b ensures GroupOk(singles, Group(base, rules, b)) {
        if Group(base, rules, b) != [] {
          var i := GroupIsListed(base, rules, b);
          assert OfTwins(singles)(fams[i]) == [];
        }
      }
    }
  }

  lemma PairsPass(names: seq<string>)
    ensures Flat(names, OfPair(ToSet(names))) == [] <==> Paired(ToSet(names))
  {
    FlatEmpty(names, OfPair(ToSet(names)));
    forall a | a in names
      ensures OfPair(ToSet(names))(a) == [] <==> (Suffixed(a) ==> Pair(a).value in ToSet(names))
    {
    }
  }

  ghost predicate AllRulesOk(known: set<string>, lower: string -> string, rules: seq<Rule>) {
    forall r :: r in rules ==> RuleOk(known, lower, r)
  }

  lemma RulesPass(known: set<string>, lower: string -> string, rules: seq<Rule>)
    ensures Flat(rules, OfRule(known, lower)) == [] <==> AllRulesOk(known, lower, rules)
  {
    FlatEmpty(rules, OfRule(known, lower));
    forall r ensures OfRule(known, lower)(r) == [] <==> RuleOk(known, lower, r) {
      RuleOkExactly(known, lower, r);
    }
  }

  /** The lint finds nothing exactly when every family-suffixed alias has its pair, every rule is well
      formed by itself, and every group of rules with one base is in order. */
  lemma LintPassesExactly(aliases: seq<Alias>, all: seq<Rule>, singles: set<Option<string>>, lower: string -> string)
    ensures var names, rules := ToSet(Names(aliases)), Present(all);
      Violations(aliases, all, singles, lower) == []
      <==> Paired(names) && AllRulesOk(names + KEYWORDS, lower, rules) && GroupsOk(RuleBase, singles, rules)
  {
    var names, rules := Names(aliases), Present(all);
    PairsPass(names);
    RulesPass(ToSet(names) + KEYWORDS, lower, rules);
    GroupsOkExactly(RuleBase, singles, rules);
  }

  // ----- twins

  /** No two rules with one base and one family. */
  ghost predicate OnePerFamily(base: Rule -> string, rules: seq<Rule>) {
    forall i, j :: 0 <= i < j < |rules| ==>
      base(rules[i]) != base(rules[j]) || rules[i].family != rules[j].family
  }

  /** A rule of the other family, or of both, with the same base. */
  ghost predicate HasTwin(base: Rule -> string, rules: seq<Rule>, r: Rule) {
    exists t :: t in rules && base(t) == base(r) && KnownFamily(t.family) && t.family != r.family
  }

  lemma {:induction false} GroupIsOfBase(base: Rule -> string, rules: seq<Rule>, b: string)
    ensures forall r :: r in Group(base, rules, b) <==> r in rules && base(r) == b
  {
    if rules != [] {
      var front, r := rules[..|rules| - 1], rules[|rules| - 1];
      GroupIsOfBase(base, front, b);
      assert rules == front + [r];
    }
  }

  lemma {:induction false} LastOfIsOne(group: seq<Rule>, family: Family)
    ensures LastOf(group, family).Some?
        ==> LastOf(group, family).value in group && LastOf(group, family).value.family == family
    ensures LastOf(group, family).None? ==> forall r :: r in group ==> r.family != family
  {
    if group != [] {
      var front, r := group[..|group| - 1], group[|group| - 1];
      LastOfIsOne(front, family);
      assert group == front + [r];
    }
  }

  ghost predicate Alike(base: Rule -> string, r: Rule, t: Rule) {
    base(r) == base(t) && r.family == t.family
  }

  /** The rule is on a scope of both families and an interface of both, and is for one of them only. */
  predicate Needs(singles: set<Option<string>>, r: Rule) {
    DualStack(r) && r.iface !in singles && r.family != Inet46
  }

  ghost predicate AllTwinned(base: Rule -> string, singles: set<Option<string>>, rules: seq<Rule>) {
    forall r :: r in rules && Needs(singles, r) ==> HasTwin(base, rules, r)
  }

  /** Rules of one base and family that have no twin need one alike. */
  ghost predicate NeedAlike(base: Rule -> string, singles: set<Option<string>>, rules: seq<Rule>) {
    forall r, t :: r in rules && t in rules && Alike(base, r, t) && !HasTwin(base, rules, r)
      ==> Needs(singles, r) == Needs(singles, t)
  }

  ghost predicate KnownFamilies(rules: seq<Rule>) {
    forall r :: r in rules ==> KnownFamily(r.family)
  }

  lemma AlikeTwins(base: Rule -> string, rules: seq<Rule>, r: Rule, t: Rule)
    requires Alike(base, r, t)
    ensures HasTwin(base, rules, r) == HasTwin(base, rules, t)
  {
  }

  /** The rule the verdict on a group is about: the last one of the family the group begins with. */
  function Judged(group: seq<Rule>): Rule
    requires group != []
  {
    match LastOf(group, group[0].family) case Some(r) => r case None => group[0]
  }

  lemma JudgedIsOne(group: seq<Rule>)
    requires group != []
    ensures Judged(group) in group && Judged(group).family == group[0].family
  {
    LastOfIsOne(group, group[0].family);
  }

  /** A group is in order exactly when it has rules of two families, or the rule judged needs no twin. */
  lemma GroupOkMeans(singles: set<Option<string>>, group: seq<Rule>)
    requires group != [] && KnownFamilies(group)
    ensures GroupOk(singles, group)
        <==> (exists t :: t in group && t.family != group[0].family) || !Needs(singles, Judged(group))
  {
    LastOfIsOne(group, Inet46);
    LastOfIsOne(group, Inet);
    LastOfIsOne(group, Inet6);
    LastOfIsOne(group, group[0].family);
    assert group[0] in group;
  }

  lemma GroupOkByTwin(base: Rule -> string, singles: set<Option<string>>, rules: seq<Rule>, b: string)
    requires KnownFamilies(rules) && Group(base, rules, b) != []
    ensures var r := Judged(Group(base, rules, b));
      && r in rules && base(r) == b
      && (GroupOk(singles, Group(base, rules, b)) <==> HasTwin(base, rules, r) || !Needs(singles, r))
  {
    var group := Group(base, rules, b);
    GroupIsOfBase(base, rules, b);
    JudgedIsOne(group);
    GroupOkMeans(singles, group);
  }

  /** Every rule that needs a twin has one if and only if every group is in order and rules of one base
      and family that have no twin need one alike: what the lint cannot see is a rule that needs a twin
      behind a later one of its base and family that needs none. */
  lemma TwinnedExactly(base: Rule -> string, singles: set<Option<string>>, rules: seq<Rule>)
    requires KnownFamilies(rules)
    ensures AllTwinned(base, singles, rules) <==> GroupsOk(base, singles, rules) && NeedAlike(base, singles, rules)
  {
    if AllTwinned(base, singles, rules) {
      forall b ensures GroupOk(singles, Group(base, rules, b)) {
        if Group(base, rules, b) != [] {
          GroupOkByTwin(base, singles, rules, b);
        }
      }
      forall r, t | r in rules && t in rules && Alike(base, r, t) && !HasTwin(base, rules, r)
        ensures Needs(singles, r) == Needs(singles, t)
      {
        AlikeTwins(base, rules, r, t);
      }
    }
    if GroupsOk(base, singles, rules) && NeedAlike(base, singles, rules) {
      forall r | r in rules && Needs(singles, r) ensures HasTwin(base, rules, r) {
        NeedyIsTwinned(base, singles, rules, r);
      }
    }
  }

  lemma JudgedOf(base: Rule -> string, rules: seq<Rule>, r: Rule)
    requires r in rules
    ensures Group(base, rules, base(r)) != []
  {
    GroupIsOfBase(base, rules, base(r));
    assert r in Group(base, rules, base(r));
  }

  lemma NeedyIsTwinned(base: Rule -> string, singles: set<Option<string>>, rules: seq<Rule>, r: Rule)
    requires KnownFamilies(rules) && GroupsOk(base, singles, rules) && NeedAlike(base, singles, rules)
    requires r in rules && Needs(singles, r)
    ensures HasTwin(base, rules, r)
  {
    var b := base(r);
    JudgedOf(base, rules, r);
    GroupOkByTwin(base, singles, rules, b);
    var t := Judged(Group(base, rules, b));
    if t.family == r.family {
      AlikeTwins(base, rules, t, r);
    }
  }

  lemma OnePerFamilyNeedsAlike(base: Rule -> string, singles: set<Option<string>>, rules: seq<Rule>)
    requires OnePerFamily(base, rules)
    ensures NeedAlike(base, singles, rules)
  {
    forall r, t | r in rules && t in rules && Alike(base, r, t) ensures r == t {
      var i :| 0 <= i < |rules| && rules[i] == r;
      var j :| 0 <= j < |rules| && rules[j] == t;
      assert i == j;
    }
  }

  /** In a catalog that passes, every rule that needs a twin has one if and only if rules of one base and
      family that have no twin need one alike. */
  lemma PassingIsTwinnedExactly(aliases: seq<Alias>, all: seq<Rule>, singles: set<Option<string>>,
      lower: string -> string)
    requires Violations(aliases, all, singles, lower) == []
    ensures AllTwinned(RuleBase, singles, Present(all)) <==> NeedAlike(RuleBase, singles, Present(all))
  {
    LintPassesExactly(aliases, all, singles, lower);
    assert forall r :: RuleOk(ToSet(Names(aliases)) + KEYWORDS, lower, r) ==> KnownFamily(r.family);
    TwinnedExactly(RuleBase, singles, Present(all));
  }

  /** A catalog that passes and has one rule per base and family has a twin for every rule on a scope and
      an interface of both families, unless the rule is for both by itself. */
  lemma PassingRulesHaveTwins(aliases: seq<Alias>, all: seq<Rule>, singles: set<Option<string>>,
                              lower: string -> string)
    ensures Violations(aliases, all, singles, lower) == [] && OnePerFamily(RuleBase, Present(all))
            ==> AllTwinned(RuleBase, singles, Present(all))
  {
    if Violations(aliases, all, singles, lower) == [] && OnePerFamily(RuleBase, Present(all)) {
      OnePerFamilyNeedsAlike(RuleBase, singles, Present(all));
      PassingIsTwinnedExactly(aliases, all, singles, lower);
    }
  }

  // ----- a catalog that passes although a rule has no twin

  /** The rule on the alias's scope, and one on any scope. */
  function Narrow(a: string, desc: string, iface: Option<string>): Rule {
    Rule(true, desc, a, "", "", "", Inet, "", iface)
  }

  function Wide(desc: string, iface: Option<string>): Rule {
    Rule(true, desc, "", "", "", "", Inet, "", iface)
  }

  lemma NothingIsNotSuffixed()
    ensures !Suffixed("")
  {
  }

  lemma PairIsPaired(a: string, b: string)
    requires Pair(a) == Some(b) && '\n' !in a
    ensures Paired({a, b}) && Suffixed(a)
  {
    PairTwice(a);
  }

  lemma GroupOfTwo(base: Rule -> string, r: Rule, t: Rule, b: string)
    requires Alike(base, r, t)
    ensures Group(base, [r, t], b) == if base(t) == b then [r, t] else []
  {
    assert [r, t][..1] == [r] && [r][..0] == [];
    assert Group(base, [r], b) == if base(r) == b then [r] else [];
  }

  lemma WideIsJudged(singles: set<Option<string>>, r: Rule, t: Rule)
    requires r.family == t.family && KnownFamily(t.family) && !Needs(singles, t)
    ensures GroupOk(singles, [r, t])
  {
    assert LastOf([r, t], t.family) == Some(t);
  }

  lemma TwoInOrder(base: Rule -> string, singles: set<Option<string>>, r: Rule, t: Rule)
    requires Alike(base, r, t) && KnownFamily(t.family) && !Needs(singles, t)
    ensures GroupsOk(base, singles, [r, t])
  {
    forall b ensures GroupOk(singles, Group(base, [r, t], b)) {
      GroupOfTwo(base, r, t, b);
      WideIsJudged(singles, r, t);
    }
  }

  lemma AloneInFamily(base: Rule -> string, r: Rule, t: Rule)
    requires r.present && t.present && r.family == t.family
    ensures Present([r, t]) == [r, t] && !HasTwin(base, [r, t], r)
  {
    assert [r, t][..1] == [r] && [r][..0] == [];
    assert Present([r]) == [r];
  }

  lemma TwoNames(aliases: seq<Alias>, a: string, b: string)
    requires aliases == [Alias(a, true), Alias(b, true)]
    ensures ToSet(Names(aliases)) == {a, b}
  {
    NamesAreThePresent(aliases);
    assert aliases[0].name == a && aliases[1].name == b;
  }

  /** Present, without ports, and on the scope of one net. */
  predicate Plain(r: Rule, net: string) {
    r.present && r.sourceNet == net && r.destinationNet == "" && !HasPort(r) && KnownFamily(r.family)
  }

  lemma PlainRuleOk(known: set<string>, lower: string -> string, r: Rule, net: string)
    requires Plain(r, net) && net in known && "" in known
    ensures RuleOk(known, lower, r)
  {
  }

  lemma PlainRulesPass(aliases: seq<Alias>, singles: set<Option<string>>, lower: string -> string,
                       a: string, b: string, r: Rule, t: Rule)
    requires aliases == [Alias(a, true), Alias(b, true)] && Paired({a, b})
    requires Plain(r, a) && Plain(t, "") && r.family == t.family && GroupsOk(RuleBase, singles, [r, t])
    ensures Violations(aliases, [r, t], singles, lower) == []
  {
    TwoNames(aliases, a, b);
    AloneInFamily(RuleBase, r, t);
    PlainRuleOk({a, b} + KEYWORDS, lower, r, a);
    PlainRuleOk({a, b} + KEYWORDS, lower, t, "");
    LintPassesExactly(aliases, [r, t], singles, lower);
  }

  /** An alias with its pair, and two rules of one description and family, the first on the alias's scope:
      when the first needs a twin and the second does not, the lint finds nothing and the first has none. */
  lemma UntwinnedRulePasses(aliases: seq<Alias>, singles: set<Option<string>>, lower: string -> string,
                            a: string, b: string, r: Rule, t: Rule)
    requires aliases == [Alias(a, true), Alias(b, true)] && Paired({a, b})
    requires Plain(r, a) && Plain(t, "") && r.description == t.description && r.family == t.family
    requires Needs(singles, r) && !Needs(singles, t)
    ensures Violations(aliases, [r, t], singles, lower) == []
    ensures r in Present([r, t]) && !HasTwin(RuleBase, Present([r, t]), r)
  {
    TwoInOrder(RuleBase, singles, r, t);
    PlainRulesPass(aliases, singles, lower, a, b, r, t);
    AloneInFamily(RuleBase, r, t);
  }

  /** Such rules exist for every suffixed name, description and dual-stack interface. */
  lemma UntwinnedExample(a: string, b: string, desc: string, iface: Option<string>, singles: set<Option<string>>)
    requires Pair(a) == Some(b) && '\n' !in a && iface !in singles
    ensures var r, t := Narrow(a, desc, iface), Wide(desc, iface);
      && Paired({a, b}) && Plain(r, a) && Plain(t, "") && r.description == t.description && r.family == t.family
      && Needs(singles, r) && !Needs(singles, t)
  {
    PairIsPaired(a, b);
    NothingIsNotSuffixed();
  }

  // ----- without one rule per base and family

  lemma GroupMore(base: Rule -> string, rules: seq<Rule>, r: Rule, b: string, family: Family)
    ensures var (g, more) := (Group(base, rules, b), Group(base, rules + [r], b));
      && more == (if base(r) == b then g + [r] else g)
      && LastOf(more, family) == if base(r) == b && r.family == family then Some(r) else LastOf(g, family)
  {
  }

  ghost predicate SameStart(g: seq<Rule>, h: seq<Rule>) {
    (h == [] <==> g == []) && (g != [] && h != [] ==> g[0].family == h[0].family)
  }

  lemma SameStartMore(g: seq<Rule>, h: seq<Rule>, r: Rule, t: Rule)
    requires SameStart(g, h) && r.family == t.family
    ensures SameStart(g + [r], h + [t])
  {
  }

  lemma {:induction false} OthersUnchanged(base: Rule -> string, rules: seq<Rule>, i: nat, r: Rule, b: string,
      family: Family)
    requires i < |rules| && Alike(base, r, rules[i])
    ensures var (before, after) := (Group(base, rules, b), Group(base, rules[i := r], b));
      && ((b == base(r) && family == r.family) || LastOf(after, family) == LastOf(before, family))
      && SameStart(before, after)
  {
    var n := |rules| - 1;
    var front, last := rules[..n], rules[n];
    assert rules == front + [last];
    GroupMore(base, front, last, b, family);
    if i < n {
      assert rules[i := r] == front[i := r] + [last];
      OthersUnchanged(base, front, i, r, b, family);
      GroupMore(base, front[i := r], last, b, family);
      SameStartMore(Group(base, front, b), Group(base, front[i := r], b), last, last);
    } else {
      assert rules[i := r] == front + [r];
      GroupMore(base, front, r, b, family);
      SameStartMore(Group(base, front, b), Group(base, front, b), last, r);
    }
  }

  lemma {:induction false} HiddenUnchanged(base: Rule -> string, rules: seq<Rule>, i: nat, j: nat, r: Rule, b: string,
      family: Family)
    requires i < j < |rules| && Alike(base, r, rules[i]) && Alike(base, r, rules[j])
    ensures LastOf(Group(base, rules[i := r], b), family) == LastOf(Group(base, rules, b), family)
  {
    var n := |rules| - 1;
    var front, last := rules[..n], rules[n];
    assert rules == front + [last] && rules[i := r] == front[i := r] + [last];
    GroupMore(base, front, last, b, family);
    GroupMore(base, front[i := r], last, b, family);
    if j < n {
      HiddenUnchanged(base, front, i, j, r, b, family);
    } else {
      OthersUnchanged(base, front, i, r, b, family);
    }
  }

  /** A rule is hidden by a later one of the same base and family: whatever scope and interface it has,
      the lint passes or fails the groups alike, while whether it has a twin stays as it is. So a rule
      on a scope of both families without a twin goes unnoticed behind one that needs none. */
  lemma LaterRuleHidesEarlier(base: Rule -> string, singles: set<Option<string>>, rules: seq<Rule>, i: nat, j: nat,
      r: Rule)
    requires i < j < |rules| && Alike(base, r, rules[i]) && Alike(base, r, rules[j])
    ensures GroupsOk(base, singles, rules[i := r]) <==> GroupsOk(base, singles, rules)
    ensures HasTwin(base, rules[i := r], r) <==> HasTwin(base, rules, rules[i])
  {
    var changed := rules[i := r];
    forall b ensures GroupOk(singles, Group(base, changed, b)) == GroupOk(singles, Group(base, rules, b)) {
      forall family ensures LastOf(Group(base, changed, b), family) == LastOf(Group(base, rules, b), family) {
        HiddenUnchanged(base, rules, i, j, r, b, family);
      }
      OthersUnchanged(base, rules, i, r, b, Inet);
      SameVerdict(singles, Group(base, rules, b), Group(base, changed, b));
    }
    TwinsUnchanged(base, rules, changed, i);
    TwinsUnchanged(base, changed, rules, i);
  }

  lemma SameVerdict(singles: set<Option<string>>, g: seq<Rule>, h: seq<Rule>)
    requires SameStart(g, h) && forall family :: LastOf(g, family) == LastOf(h, family)
    ensures GroupOk(singles, g) == GroupOk(singles, h)
  {
  }

  lemma TwinsUnchanged(base: Rule -> string, rules: seq<Rule>, changed: seq<Rule>, i: nat)
    requires i < |rules| == |changed| && Alike(base, changed[i], rules[i])
    requires forall k :: 0 <= k < |rules| && k != i ==> changed[k] == rules[k]
    ensures HasTwin(base, rules, rules[i]) ==> HasTwin(base, changed, changed[i])
  {
  }
}
