/** What a run of the Discord guild reconciler means for what is declared, channel by channel
    (roles/discord_guild/_archive/discord_reconcile.py). */
module DiscordDeclared {
  import opened Basics
  import opened Reconcile
  import opened DiscordGuild

  ghost predicate Declared(cats: seq<CategorySpec>, cat: CategorySpec, ch: ChannelSpec) {
    cat in cats && ch in cat.channels
  }

  /** The channel declares this webhook; an empty name declares none. */
  ghost predicate Asks(ch: ChannelSpec, name: string) {
    ch.webhook == Some(name) && name != ""
  }

  /** The channel at this place has this name. */
  ghost predicate Names(cats: seq<CategorySpec>, i: int, j: int, name: string) {
    0 <= i < |cats| && 0 <= j < |cats[i].channels| && cats[i].channels[j].name == name
  }

  ghost predicate AsksAt(cats: seq<CategorySpec>, i: int, j: int, name: string) {
    0 <= i < |cats| && 0 <= j < |cats[i].channels| && Asks(cats[i].channels[j], name)
  }

  /** No channel name is declared twice. */
  ghost predicate UniqueNames(cats: seq<CategorySpec>) {
    forall i, j, i', j', n :: Names(cats, i, j, n) && Names(cats, i', j', n) ==> i == i' && j == j'
  }

  /** No webhook name is declared twice. */
  ghost predicate UniqueWebhooks(cats: seq<CategorySpec>) {
    forall i, j, i', j', n :: AsksAt(cats, i, j, n) && AsksAt(cats, i', j', n) ==> i == i' && j == j'
  }

  // ----- the flattened loops hold what is declared

  lemma {:induction false} ItemsAre(cats: seq<CategorySpec>, item: Item)
    ensures item in Items(cats) <==> exists cat :: cat in cats && item in CategoryItems(cat)
  {
    if cats != [] {
      var last := |cats| - 1;
      ItemsAre(cats[..last], item);
      assert forall cat :: cat in cats <==> cat in cats[..last] || cat == cats[last];
    }
  }

  lemma CategoryItemsAre(cat: CategorySpec, item: Item)
    ensures item in CategoryItems(cat) <==>
      item == Cat(cat.name) || exists ch :: ch in cat.channels && item == Chan(cat.name, ch)
  {
    var items := CategoryItems(cat);
    assert items[0] == Cat(cat.name);
    forall ch | ch in cat.channels ensures Chan(cat.name, ch) in items {
      var j :| 0 <= j < |cat.channels| && cat.channels[j] == ch;
      assert items[j + 1] == Chan(cat.name, ch);
    }
  }

  lemma {:induction false} ChannelHooksAre(chs: seq<ChannelSpec>, h: HookSpec)
    ensures h in ChannelHooks(chs) <==> exists ch :: ch in chs && Asks(ch, h.name) && ch.name == h.channel
  {
    if chs != [] {
      var last := |chs| - 1;
      ChannelHooksAre(chs[..last], h);
      assert forall ch :: ch in chs <==> ch in chs[..last] || ch == chs[last];
    }
  }

  lemma {:induction false} HookSpecsAre(cats: seq<CategorySpec>, h: HookSpec)
    ensures h in HookSpecs(cats) <==>
      exists cat, ch :: Declared(cats, cat, ch) && Asks(ch, h.name) && ch.name == h.channel
  {
    if cats != [] {
      var last := |cats| - 1;
      HookSpecsAre(cats[..last], h);
      ChannelHooksAre(cats[last].channels, h);
      assert forall cat :: cat in cats <==> cat in cats[..last] || cat == cats[last];
      assert forall cat, ch :: Declared(cats, cat, ch) <==>
        Declared(cats[..last], cat, ch) || (cat == cats[last] && ch in cat.channels);
    }
  }

  // ----- distinct names give distinct items

  lemma DropLast(cats: seq<CategorySpec>)
    requires cats != []
    ensures UniqueNames(cats) ==> UniqueNames(cats[..|cats| - 1])
    ensures UniqueWebhooks(cats) ==> UniqueWebhooks(cats[..|cats| - 1])
  {
    var init := cats[..|cats| - 1];
    assert forall i, j, n :: Names(init, i, j, n) ==> Names(cats, i, j, n);
    assert forall i, j, n :: AsksAt(init, i, j, n) ==> AsksAt(cats, i, j, n);
  }

  lemma NamedAt(cats: seq<CategorySpec>, item: Item) returns (i: nat, j: nat)
    requires item in Items(cats) && item.Chan?
    ensures Names(cats, i, j, item.spec.name)
  {
    ItemsAre(cats, item);
    var cat :| cat in cats && item in CategoryItems(cat);
    CategoryItemsAre(cat, item);
    i :| 0 <= i < |cats| && cats[i] == cat;
    j :| 0 <= j < |cat.channels| && cat.channels[j] == item.spec;
  }

  lemma {:induction false} UniqueNamesItems(cats: seq<CategorySpec>)
    requires UniqueNames(cats)
    ensures UniqueChannels(Items(cats))
  {
    if cats != [] {
      var last := |cats| - 1;
      DropLast(cats);
      UniqueNamesItems(cats[..last]);
      var before, items := Items(cats[..last]), Items(cats);
      forall k, k' | 0 <= k < k' < |items| && items[k].Chan? && items[k'].Chan?
        ensures items[k].spec.name != items[k'].spec.name
      {
        if k' >= |before| {
          assert Names(cats, last, k' - |before| - 1, items[k'].spec.name);
          if k < |before| {
            var i, j := NamedAt(cats[..last], before[k]);
            assert Names(cats, i, j, items[k].spec.name);
          } else {
            assert Names(cats, last, k - |before| - 1, items[k].spec.name);
          }
        }
      }
    }
  }

  ghost predicate AsksIn(chs: seq<ChannelSpec>, j: int, name: string) {
    0 <= j < |chs| && Asks(chs[j], name)
  }

  lemma {:induction false} UniqueChannelHooks(chs: seq<ChannelSpec>)
    requires forall j, j', n :: AsksIn(chs, j, n) && AsksIn(chs, j', n) ==> j == j'
    ensures UniqueHooks(ChannelHooks(chs))
  {
    if chs != [] {
      var last := |chs| - 1;
      var init := chs[..last];
      assert forall j, n :: AsksIn(init, j, n) ==> AsksIn(chs, j, n);
      UniqueChannelHooks(init);
      forall k | 0 <= k < |ChannelHooks(init)| ensures !Asks(chs[last], ChannelHooks(init)[k].name) {
        ChannelHooksAre(init, ChannelHooks(init)[k]);
        var ch :| ch in init && Asks(ch, ChannelHooks(init)[k].name);
        var j :| 0 <= j < |init| && init[j] == ch;
        assert AsksIn(chs, j, ChannelHooks(init)[k].name);
        assert !AsksIn(chs, last, ChannelHooks(init)[k].name);
      }
    }
  }

  lemma AskedAt(cats: seq<CategorySpec>, h: HookSpec) returns (i: nat, j: nat)
    requires h in HookSpecs(cats)
    ensures AsksAt(cats, i, j, h.name)
  {
    HookSpecsAre(cats, h);
    var cat, ch :| Declared(cats, cat, ch) && Asks(ch, h.name);
    i :| 0 <= i < |cats| && cats[i] == cat;
    j :| 0 <= j < |cat.channels| && cat.channels[j] == ch;
  }

  lemma {:induction false} UniqueWebhooksSpecs(cats: seq<CategorySpec>)
    requires UniqueWebhooks(cats)
    ensures UniqueHooks(HookSpecs(cats))
  {
    if cats != [] {
      var last := |cats| - 1;
      DropLast(cats);
      UniqueWebhooksSpecs(cats[..last]);
      var before, more, chs := HookSpecs(cats[..last]), ChannelHooks(cats[last].channels), cats[last].channels;
      assert forall j, n :: AsksIn(chs, j, n) ==> AsksAt(cats, last, j, n);
      UniqueChannelHooks(chs);
      forall k, k' | 0 <= k < |before| && 0 <= k' < |more| ensures before[k].name != more[k'].name {
        var i, j := AskedAt(cats[..last], before[k]);
        assert AsksAt(cats, i, j, before[k].name);
        ChannelHooksAre(chs, more[k']);
        var ch :| ch in chs && Asks(ch, more[k'].name);
        var j' :| 0 <= j' < |chs| && chs[j'] == ch;
        assert AsksAt(cats, last, j', more[k'].name);
      }
    }
  }

  // ----- the whole run

  /** Everyone reads and reacts and does not write; the administrators and the bot write and manage. */
  ghost predicate AnnounceRights(d: Desired, roles: map<string, int>, ows: set<Overwrite>) {
    forall o :: o in ows <==>
      || o == Overwrite(d.guildId, 1024 + 65536 + 64, 2048)
      || (d.adminRole in roles && o == Overwrite(roles[d.adminRole], 2048 + 8192, 0))
      || (d.botRole in roles && o == Overwrite(roles[d.botRole], 2048 + 8192, 0))
  }

  /** The channel is in its category, with its topic, and read-only if it is for announcements. */
  ghost predicate ChannelMeans(d: Desired, t: Guild, cat: CategorySpec, ch: ChannelSpec) {
    && Category(cat.name) in t.channels && Text(ch.name) in t.channels
    && var c := t.channels[Text(ch.name)];
    && c.parent == Some(t.channels[Category(cat.name)].id)
    && (c.topic == Some(ch.topic) || (c.topic == None && ch.topic == ""))
    && (ch.announce ==> AnnounceRights(d, t.roles, c.overwrites))
  }

  ghost predicate ChannelsMean(g: Guild, d: Desired, t: Guild) {
    && (forall cat, ch :: Declared(d.categories, cat, ch) ==> ChannelMeans(d, t, cat, ch))
    && (forall cat :: cat in d.categories ==> Category(cat.name) in t.channels)
    && (forall name :: (forall cat, ch :: Declared(d.categories, cat, ch) ==> ch.name != name) ==>
          SameChannel(g, t, Text(name)))
    && (forall name :: (forall cat :: cat in d.categories ==> cat.name != name) ==> SameChannel(g, t, Category(name)))
  }

  /** A declared webhook posts to the channel that declares it; the others are as before. */
  ghost predicate HooksMean(g: Guild, d: Desired, t: Guild) {
    && (forall cat, ch, n :: Declared(d.categories, cat, ch) && Asks(ch, n) ==>
          n in t.hooks && Text(ch.name) in t.channels && t.hooks[n].channel == t.channels[Text(ch.name)].id)
    && (forall n :: (forall cat, ch :: Declared(d.categories, cat, ch) ==> !Asks(ch, n)) ==> SameHook(g, t, n))
  }

  ghost predicate RolesMean(g: Guild, d: Desired, t: Guild) {
    forall n :: (n in t.roles <==> n in g.roles || n in d.roles) && (n in g.roles ==> t.roles[n] == g.roles[n])
  }

  lemma WantedAre(d: Desired, roles: map<string, int>)
    ensures AnnounceRights(d, roles, Wanted(d, roles))
  {
  }

  lemma ChannelIsMeant(d: Desired, t: Guild, cat: CategorySpec, ch: ChannelSpec)
    requires AllReached(t, d) && Declared(d.categories, cat, ch)
    ensures ChannelMeans(d, t, cat, ch)
  {
    var items := Items(d.categories);
    CategoryItemsAre(cat, Chan(cat.name, ch));
    ItemsAre(d.categories, Chan(cat.name, ch));
    var k :| 0 <= k < |items| && items[k] == Chan(cat.name, ch);
    assert Reached(Wanted(d, t.roles), t.channels, items[k]);
    WantedAre(d, t.roles);
  }

  lemma CategoryIsThere(d: Desired, t: Guild, cat: CategorySpec)
    requires AllReached(t, d) && cat in d.categories
    ensures Category(cat.name) in t.channels
  {
    var items := Items(d.categories);
    CategoryItemsAre(cat, Cat(cat.name));
    ItemsAre(d.categories, Cat(cat.name));
    var k :| 0 <= k < |items| && items[k] == Cat(cat.name);
    assert Reached(Wanted(d, t.roles), t.channels, items[k]);
  }

  /** A key in the flattened loops is that of a declared channel or category. */
  lemma NamedIsDeclared(d: Desired, key: Key)
    requires NamesIt(Items(d.categories), |Items(d.categories)|, key)
    ensures match key
      case Text(name) => exists cat, ch :: Declared(d.categories, cat, ch) && ch.name == name
      case Category(name) => exists cat :: cat in d.categories && cat.name == name
  {
    var items := Items(d.categories);
    var k :| 0 <= k < |items| && KeyOf(items[k]) == key;
    ItemsAre(d.categories, items[k]);
    var cat :| cat in d.categories && items[k] in CategoryItems(cat);
    CategoryItemsAre(cat, items[k]);
    if items[k].Chan? {
      assert Declared(d.categories, cat, items[k].spec);
    }
  }

  lemma HookIsMeant(d: Desired, t: Guild, cat: CategorySpec, ch: ChannelSpec, n: string)
    requires AllReached(t, d) && Declared(d.categories, cat, ch) && Asks(ch, n)
    ensures n in t.hooks && Text(ch.name) in t.channels && t.hooks[n].channel == t.channels[Text(ch.name)].id
  {
    var hs := HookSpecs(d.categories);
    HookSpecsAre(d.categories, HookSpec(n, ch.name));
    var k :| 0 <= k < |hs| && hs[k] == HookSpec(n, ch.name);
    assert HookReached(t.channels, t, hs[k]);
    ChannelIsMeant(d, t, cat, ch);
  }

  lemma HookIsAsked(d: Desired, n: string)
    requires NamesHook(HookSpecs(d.categories), |HookSpecs(d.categories)|, n)
    ensures exists cat, ch :: Declared(d.categories, cat, ch) && Asks(ch, n)
  {
    var hs := HookSpecs(d.categories);
    var k :| 0 <= k < |hs| && hs[k].name == n;
    HookSpecsAre(d.categories, hs[k]);
  }

  lemma ChannelsAreMeant(g: Guild, d: Desired, t: Guild)
    requires AllReached(t, d) && OthersKept(g, t, d)
    ensures ChannelsMean(g, d, t)
  {
    forall cat, ch | Declared(d.categories, cat, ch) ensures ChannelMeans(d, t, cat, ch) {
      ChannelIsMeant(d, t, cat, ch);
    }
    forall cat | cat in d.categories ensures Category(cat.name) in t.channels {
      CategoryIsThere(d, t, cat);
    }
    forall name | forall cat, ch :: Declared(d.categories, cat, ch) ==> ch.name != name
      ensures SameChannel(g, t, Text(name))
    {
      if NamesIt(Items(d.categories), |Items(d.categories)|, Text(name)) {
        NamedIsDeclared(d, Text(name));
      }
    }
    forall name | forall cat :: cat in d.categories ==> cat.name != name ensures SameChannel(g, t, Category(name)) {
      if NamesIt(Items(d.categories), |Items(d.categories)|, Category(name)) {
        NamedIsDeclared(d, Category(name));
      }
    }
  }

  lemma HooksAreMeant(g: Guild, d: Desired, t: Guild)
    requires AllReached(t, d) && OthersKept(g, t, d)
    ensures HooksMean(g, d, t)
  {
    forall cat, ch, n | Declared(d.categories, cat, ch) && Asks(ch, n)
      ensures n in t.hooks && Text(ch.name) in t.channels && t.hooks[n].channel == t.channels[Text(ch.name)].id
    {
      HookIsMeant(d, t, cat, ch, n);
    }
    forall n | forall cat, ch :: Declared(d.categories, cat, ch) ==> !Asks(ch, n) ensures SameHook(g, t, n) {
      if NamesHook(HookSpecs(d.categories), |HookSpecs(d.categories)|, n) {
        HookIsAsked(d, n);
      }
    }
  }

  /** One run, from the declaration to the server: roles, channels and webhooks are as declared, and what is not
      declared is as it was. */
  lemma RunMeans(g: Guild, d: Desired)
    requires UniqueNames(d.categories) && UniqueWebhooks(d.categories)
    ensures var t := Reconciled(g, d).state; RolesMean(g, d, t) && ChannelsMean(g, d, t) && HooksMean(g, d, t)
    ensures var t := Reconciled(g, d).state; Reconciled(t, d) == Out(t, 0) && !PostsReady(t, d)
  {
    UniqueNamesItems(d.categories);
    UniqueWebhooksSpecs(d.categories);
    GuildConverges(g, d);
    ChannelsAreMeant(g, d, Reconciled(g, d).state);
    HooksAreMeant(g, d, Reconciled(g, d).state);
  }

  /** The message is posted by the run that creates the declared announcements channel. */
  lemma ReadyExactly(g: Guild, d: Desired)
    ensures PostsReady(g, d) <==>
      && d.postReady && Text("announcements") !in g.channels
      && exists cat, ch :: Declared(d.categories, cat, ch) && ch.name == "announcements"
  {
    var items := Items(d.categories);
    if NamesIt(items, |items|, Text("announcements")) {
      NamedIsDeclared(d, Text("announcements"));
    }
    if cat, ch :| Declared(d.categories, cat, ch) && ch.name == "announcements" {
      CategoryItemsAre(cat, Chan(cat.name, ch));
      ItemsAre(d.categories, Chan(cat.name, ch));
      var k :| 0 <= k < |items| && items[k] == Chan(cat.name, ch);
      assert KeyOf(items[k]) == Text("announcements");
    }
  }
}
