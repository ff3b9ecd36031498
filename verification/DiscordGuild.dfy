/** The Discord guild reconciler (roles/discord_guild/_archive/discord_reconcile.py): roles,
    categories and channels with their overwrites, webhooks, and the ready message. */
module DiscordGuild {
  import opened Basics
  import opened Reconcile

  /** Channels are told apart by name and type. */
  datatype Key = Text(name: string) | Category(name: string)

  datatype Overwrite = Overwrite(id: int, allow: int, deny: int)
  datatype Channel = Channel(id: int, parent: Option<int>, topic: Option<string>, overwrites: set<Overwrite>)
  datatype Hook = Hook(id: int, channel: int)

  /** The server's side; `next` is the id it gives to what is created next. */
  datatype Guild = Guild(roles: map<string, int>, channels: map<Key, Channel>, hooks: map<string, Hook>, next: int)

  datatype ChannelSpec = ChannelSpec(name: string, topic: string, announce: bool, webhook: Option<string>)
  datatype CategorySpec = CategorySpec(name: string, channels: seq<ChannelSpec>)

  datatype Desired = Desired(guildId: int, roles: seq<string>, botRole: string, adminRole: string,
                             categories: seq<CategorySpec>, postReady: bool)

  const VIEW_CHANNEL := 1024
  const SEND_MESSAGES := 2048
  const READ_MESSAGE_HISTORY := 65536
  const ADD_REACTIONS := 64
  const MANAGE_MESSAGES := 8192
  const ANNOUNCEMENTS := "announcements"

  // ----- roles

  function RoleStep(g: Guild, name: string): Out<Guild> {
    if name in g.roles then Out(g, 0) else Out(g.(roles := g.roles[name := g.next], next := g.next + 1), 1)
  }

  function RoleSteps(): (Guild, string) -> Out<Guild> {
    (g, name) => RoleStep(g, name)
  }

  lemma {:induction false} RolesReached(g: Guild, names: seq<string>)
    ensures var t := Run(RoleSteps(), g, names).state;
      && (forall n :: n in names ==> n in t.roles)
      && (forall n :: n in g.roles ==> n in t.roles && t.roles[n] == g.roles[n])
      && (forall n :: n in t.roles ==> n in g.roles || n in names)
      && t.channels == g.channels && t.hooks == g.hooks
  {
    if names != [] {
      RolesReached(g, names[..|names| - 1]);
    }
  }

  // ----- categories and channels

  /** Everyone reads and reacts; the administrators and the bot, where those roles exist, write. */
  function Wanted(d: Desired, roles: map<string, int>): set<Overwrite> {
    {Overwrite(d.guildId, VIEW_CHANNEL + READ_MESSAGE_HISTORY + ADD_REACTIONS, SEND_MESSAGES)}
    + Writer(d.adminRole, roles) + Writer(d.botRole, roles)
  }

  function Writer(role: string, roles: map<string, int>): set<Overwrite> {
    if role in roles then {Overwrite(roles[role], SEND_MESSAGES + MANAGE_MESSAGES, 0)} else {}
  }

  /** The nested loops, flattened. */
  datatype Item = Cat(name: string) | Chan(category: string, spec: ChannelSpec)

  function CategoryItems(cat: CategorySpec): seq<Item> {
    [Cat(cat.name)] + seq(|cat.channels|, i requires 0 <= i < |cat.channels| => Chan(cat.name, cat.channels[i]))
  }

  function Items(cats: seq<CategorySpec>): seq<Item> {
    if cats == [] then [] else Items(cats[..|cats| - 1]) + CategoryItems(cats[|cats| - 1])
  }

  /** The server, and the copy of its channels the program read once and adds its creations to. */
  datatype Session = Session(guild: Guild, local: map<Key, Channel>)

  function Open(g: Guild): Session {
    Session(g, g.channels)
  }

  function Created(s: Session, key: Key, c: Channel): Session {
    Session(s.guild.(channels := s.guild.channels[key := c], next := s.guild.next + 1), s.local[key := c])
  }

  function ParentId(s: Session, category: string): Option<int> {
    if Category(category) in s.local then Some(s.local[Category(category)].id) else None
  }

  function TopicText(t: Option<string>): string {
    if t.Some? then t.value else ""
  }

  function Fixed(c: Channel, parent: Option<int>, spec: ChannelSpec, wanted: set<Overwrite>): Channel {
    Channel(c.id, parent,
            if TopicText(c.topic) == spec.topic then c.topic else Some(spec.topic),
            if spec.announce then wanted else c.overwrites)
  }

  /** The patch is computed from the local copy and sent to the server. */
  function ItemStep(wanted: set<Overwrite>, s: Session, item: Item): Out<Session> {
    match item
    case Cat(name) =>
      if Category(name) in s.local then Out(s, 0)
      else Out(Created(s, Category(name), Channel(s.guild.next, None, None, {})), 1)
    case Chan(category, spec) =>
      var key, parent := Text(spec.name), ParentId(s, category);
      if key !in s.local then
        Out(Created(s, key, Channel(s.guild.next, parent, Some(spec.topic), if spec.announce then wanted else {})), 1)
      else
        var fixed := Fixed(s.local[key], parent, spec, wanted);
        if fixed == s.local[key] then Out(s, 0)
        else Out(s.(guild := s.guild.(channels := s.guild.channels[key := fixed])), 1)
  }

  function ItemSteps(wanted: set<Overwrite>): (Session, Item) -> Out<Session> {
    (s, item) => ItemStep(wanted, s, item)
  }

  ghost predicate UniqueChannels(items: seq<Item>) {
    forall i, j :: 0 <= i < j < |items| && items[i].Chan? && items[j].Chan? ==> items[i].spec.name != items[j].spec.name
  }

  ghost predicate CategoriesFirst(items: seq<Item>) {
    forall k :: 0 <= k < |items| && items[k].Chan? ==> exists j :: 0 <= j < k && items[j] == Cat(items[k].category)
  }

  /** On the server the item is as declared. */
  ghost predicate Reached(wanted: set<Overwrite>, chs: map<Key, Channel>, item: Item) {
    match item
    case Cat(name) => Category(name) in chs
    case Chan(category, spec) =>
      && Category(category) in chs && Text(spec.name) in chs
      && var c := chs[Text(spec.name)];
      && c.parent == Some(chs[Category(category)].id)
      && TopicText(c.topic) == spec.topic
      && (spec.announce ==> c.overwrites == wanted)
  }

  function KeyOf(item: Item): Key {
    match item
    case Cat(name) => Category(name)
    case Chan(_, spec) => Text(spec.name)
  }

  ghost predicate NamesIt(items: seq<Item>, k: nat, key: Key)
    requires k <= |items|
  {
    exists j :: 0 <= j < k && KeyOf(items[j]) == key
  }

  /** The local copy and the server agree on which channels there are and on their ids. */
  ghost predicate Agree(s: Session) {
    s.local.Keys == s.guild.channels.Keys && forall key :: key in s.local ==>
          s.local[key].id == s.guild.channels[key].id
  }

  ghost predicate Untouched(g0: Guild, s: Session, key: Key) {
    && (key in s.local <==> key in g0.channels) && (key in s.guild.channels <==> key in g0.channels)
    && (key in s.local && key in s.guild.channels && key in g0.channels
        ==> s.local[key] == s.guild.channels[key] == g0.channels[key])
  }

  /** Before item k: the earlier items are reached, the local copy agrees with the server, and what no
      earlier item names is as it was at the start, on both sides. */
  ghost predicate ItemsInv(wanted: set<Overwrite>, g0: Guild, items: seq<Item>, s: Session, k: nat) {
    && k <= |items| && Agree(s)
    && s.guild.roles == g0.roles && s.guild.hooks == g0.hooks
    && (forall j :: 0 <= j < k ==> Reached(wanted, s.guild.channels, items[j]))
    && (forall key: Key :: !NamesIt(items, k, key) ==> Untouched(g0, s, key))
  }

  ghost function ItemsInvOf(wanted: set<Overwrite>, g0: Guild, items: seq<Item>): Inv<Session> {
    (s: Session, k: nat) => ItemsInv(wanted, g0, items, s, k)
  }

  /** A step changes at most its own channel, and never an id. */
  ghost predicate OnlyTouches(s: Session, s': Session, key: Key) {
    && s'.guild.roles == s.guild.roles && s'.guild.hooks == s.guild.hooks && Agree(s')
    && (forall o: Key :: o != key ==>
          (o in s'.local <==> o in s.local) && (o in s'.guild.channels <==> o in s.guild.channels))
    && (forall o: Key :: o != key && o in s.local ==> o in s'.local && s'.local[o] == s.local[o])
    && (forall o: Key :: o != key && o in s.guild.channels ==>
          o in s'.guild.channels && s'.guild.channels[o] == s.guild.channels[o])
    && (key in s.guild.channels ==> key in s'.guild.channels && s'.guild.channels[key].id == s.guild.channels[key].id)
  }

  lemma StepTouches(wanted: set<Overwrite>, s: Session, item: Item)
    requires Agree(s)
    ensures OnlyTouches(s, ItemStep(wanted, s, item).state, KeyOf(item))
  {
  }

  lemma StaysReached(wanted: set<Overwrite>, s: Session, s': Session, key: Key, item: Item)
    requires OnlyTouches(s, s', key) && Reached(wanted, s.guild.channels, item)
    requires KeyOf(item) != key || item.Cat?
    ensures Reached(wanted, s'.guild.channels, item)
  {
  }

  lemma StepReaches(wanted: set<Overwrite>, s: Session, item: Item)
    requires Agree(s)
    requires item.Chan? ==> Category(item.category) in s.local
    requires item.Chan? && KeyOf(item) in s.local ==> s.local[KeyOf(item)] == s.guild.channels[KeyOf(item)]
    ensures Reached(wanted, ItemStep(wanted, s, item).state.guild.channels, item)
  {
  }

  lemma ItemReady(wanted: set<Overwrite>, g0: Guild, items: seq<Item>, s: Session, k: nat)
    requires UniqueChannels(items) && CategoriesFirst(items)
    requires k < |items| && ItemsInv(wanted, g0, items, s, k) && items[k].Chan?
    ensures Category(items[k].category) in s.local
    ensures KeyOf(items[k]) in s.local ==> s.local[KeyOf(items[k])] == s.guild.channels[KeyOf(items[k])]
  {
    var j :| 0 <= j < k && items[j] == Cat(items[k].category);
    assert Reached(wanted, s.guild.channels, items[j]);
    assert !NamesIt(items, k, KeyOf(items[k]));
    assert Untouched(g0, s, KeyOf(items[k]));
  }

  lemma ItemStepKeeps(wanted: set<Overwrite>, g0: Guild, items: seq<Item>, s: Session, k: nat)
    requires UniqueChannels(items) && CategoriesFirst(items)
    requires k < |items| && ItemsInv(wanted, g0, items, s, k)
    ensures ItemsInv(wanted, g0, items, ItemStep(wanted, s, items[k]).state, k + 1)
  {
    var item, key := items[k], KeyOf(items[k]);
    var s' := ItemStep(wanted, s, item).state;
    StepTouches(wanted, s, item);
    if item.Chan? {
      ItemReady(wanted, g0, items, s, k);
    }
    StepReaches(wanted, s, item);
    forall j | 0 <= j < k ensures Reached(wanted, s'.guild.channels, items[j]) {
      StaysReached(wanted, s, s', key, items[j]);
    }
    forall o: Key | !NamesIt(items, k + 1, o) ensures Untouched(g0, s', o) {
      assert o != key && !NamesIt(items, k, o);
      assert Untouched(g0, s, o);
    }
  }

  lemma ReachedIsSettled(wanted: set<Overwrite>, g: Guild, item: Item)
    requires Reached(wanted, g.channels, item)
    ensures ItemStep(wanted, Open(g), item) == Out(Open(g), 0)
  {
  }

  lemma ChannelsConverge(wanted: set<Overwrite>, g: Guild, items: seq<Item>)
    requires UniqueChannels(items) && CategoriesFirst(items)
    ensures var t := Run(ItemSteps(wanted), Open(g), items).state;
      && ItemsInv(wanted, g, items, t, |items|)
      && Run(ItemSteps(wanted), Open(t.guild), items) == Out(Open(t.guild), 0)
  {
    var step, inv := ItemSteps(wanted), ItemsInvOf(wanted, g, items);
    forall s, k: nat | k < |items| && inv(s, k) ensures inv(step(s, items[k]).state, k + 1) {
      ItemStepKeeps(wanted, g, items, s, k);
    }
    RunKeeps(step, inv, Open(g), items, |items|);
    assert items[..|items|] == items;
    var t := Run(step, Open(g), items).state;
    forall k | 0 <= k < |items| ensures Settled(step, Open(t.guild), items[k]) {
      ReachedIsSettled(wanted, t.guild, items[k]);
    }
    SettledRun(step, Open(t.guild), items);
  }

  /** In the nested loops every channel comes after its category. */
  lemma {:induction false} ItemsOrdered(cats: seq<CategorySpec>)
    ensures CategoriesFirst(Items(cats))
  {
    if cats != [] {
      var last := |cats| - 1;
      var before := Items(cats[..last]);
      ItemsOrdered(cats[..last]);
      var items := Items(cats);
      forall k | 0 <= k < |items| && items[k].Chan?
          ensures exists j :: 0 <= j < k && items[j] == Cat(items[k].category) {
        if k < |before| {
          assert items[k] == before[k];
          var j :| 0 <= j < k && before[j] == Cat(before[k].category);
          assert items[j] == before[j];
        } else {
          assert items[|before|] == Cat(cats[last].name);
        }
      }
    }
  }

  // ----- webhooks

  datatype HookSpec = HookSpec(name: string, channel: string)

  /** The channels of one category that declare a webhook, in order. */
  ghost function ChannelHooks(chs: seq<ChannelSpec>): seq<HookSpec> {
    if chs == [] then [] else ChannelHooks(chs[..|chs| - 1]) + HookOf(chs[|chs| - 1])
  }

  ghost function HookOf(c: ChannelSpec): seq<HookSpec> {
    if c.webhook.Some? && c.webhook.value != "" then [HookSpec(c.webhook.value, c.name)] else []
  }

  ghost function HookSpecs(cats: seq<CategorySpec>): seq<HookSpec> {
    if cats == [] then [] else HookSpecs(cats[..|cats| - 1]) + ChannelHooks(cats[|cats| - 1].channels)
  }

  function ChannelId(local: map<Key, Channel>, name: string): int {
    if Text(name) in local then local[Text(name)].id else 0
  }

  /** `existing` is what the server listed before the first webhook was handled. */
  function HookStep(existing: map<string, Hook>, local: map<Key, Channel>, g: Guild, h: HookSpec): Out<Guild> {
    var chan := ChannelId(local, h.channel);
    if h.name in existing then
      if existing[h.name].channel == chan then Out(g, 0)
      else Out(g.(hooks := g.hooks[h.name := Hook(existing[h.name].id, chan)]), 1)
    else Out(g.(hooks := g.hooks[h.name := Hook(g.next, chan)], next := g.next + 1), 1)
  }

  function HookSteps(existing: map<string, Hook>, local: map<Key, Channel>): (Guild, HookSpec) -> Out<Guild> {
    (g, h) => HookStep(existing, local, g, h)
  }

  ghost predicate UniqueHooks(hs: seq<HookSpec>) {
    forall i, j :: 0 <= i < j < |hs| ==> hs[i].name != hs[j].name
  }

  ghost predicate HookReached(local: map<Key, Channel>, g: Guild, h: HookSpec) {
    h.name in g.hooks && g.hooks[h.name].channel == ChannelId(local, h.channel)
  }

  ghost predicate HooksInv(local: map<Key, Channel>, g0: Guild, hs: seq<HookSpec>, g: Guild, k: nat) {
    && k <= |hs| && g.channels == g0.channels && g.roles == g0.roles
    && (forall j :: 0 <= j < k ==> HookReached(local, g, hs[j]))
    && (forall n :: n in g0.hooks ==> n in g.hooks && g.hooks[n].id == g0.hooks[n].id)
    && (forall n :: !NamesHook(hs, k, n) ==> SameHook(g0, g, n))
  }

  ghost predicate NamesHook(hs: seq<HookSpec>, k: nat, n: string)
    requires k <= |hs|
  {
    exists j :: 0 <= j < k && hs[j].name == n
  }

  ghost predicate SameHook(g: Guild, g': Guild, n: string) {
    (n in g'.hooks <==> n in g.hooks) && (n in g.hooks && n in g'.hooks ==> g'.hooks[n] == g.hooks[n])
  }

  ghost function HooksInvOf(local: map<Key, Channel>, g0: Guild, hs: seq<HookSpec>): Inv<Guild> {
    (g: Guild, k: nat) => HooksInv(local, g0, hs, g, k)
  }

  lemma HookStepKeeps(local: map<Key, Channel>, g0: Guild, hs: seq<HookSpec>, g: Guild, k: nat)
    requires UniqueHooks(hs) && k < |hs| && HooksInv(local, g0, hs, g, k)
    ensures HooksInv(local, g0, hs, HookStep(g0.hooks, local, g, hs[k]).state, k + 1)
  {
    var g', h := HookStep(g0.hooks, local, g, hs[k]).state, hs[k];
    assert !NamesHook(hs, k, h.name);
    assert SameHook(g0, g, h.name);
    forall j | 0 <= j < k ensures HookReached(local, g', hs[j]) {
      assert HookReached(local, g, hs[j]) && hs[j].name != h.name;
    }
    forall n | !NamesHook(hs, k + 1, n) ensures SameHook(g0, g', n) {
      assert n != h.name && !NamesHook(hs, k, n);
      assert SameHook(g0, g, n);
    }
  }

  lemma HooksConverge(local: map<Key, Channel>, local': map<Key, Channel>, g: Guild, hs: seq<HookSpec>)
    requires UniqueHooks(hs) && forall n :: ChannelId(local, n) == ChannelId(local', n)
    ensures var t := Run(HookSteps(g.hooks, local), g, hs).state;
      HooksInv(local, g, hs, t, |hs|) && Run(HookSteps(t.hooks, local'), t, hs) == Out(t, 0)
  {
    var step, inv := HookSteps(g.hooks, local), HooksInvOf(local, g, hs);
    forall s, k: nat | k < |hs| && inv(s, k) ensures inv(step(s, hs[k]).state, k + 1) {
      HookStepKeeps(local, g, hs, s, k);
    }
    RunKeeps(step, inv, g, hs, |hs|);
    assert hs[..|hs|] == hs;
    HooksSettled(local, local', Run(step, g, hs).state, hs);
  }

  lemma HooksSettled(local: map<Key, Channel>, local': map<Key, Channel>, t: Guild, hs: seq<HookSpec>)
    requires forall n :: ChannelId(local, n) == ChannelId(local', n)
    requires forall k :: 0 <= k < |hs| ==> HookReached(local, t, hs[k])
    ensures Run(HookSteps(t.hooks, local'), t, hs) == Out(t, 0)
  {
    forall k | 0 <= k < |hs| ensures Settled(HookSteps(t.hooks, local'), t, hs[k]) {
      assert HookReached(local, t, hs[k]);
    }
    SettledRun(HookSteps(t.hooks, local'), t, hs);
  }

  // ----- the whole run

  ghost function Reconciled(g: Guild, d: Desired): Out<Guild> {
    var r := Run(RoleSteps(), g, d.roles);
    var c := Run(ItemSteps(Wanted(d, r.state.roles)), Open(r.state), Items(d.categories));
    var h := Run(HookSteps(c.state.guild.hooks, c.state.local), c.state.guild, HookSpecs(d.categories));
    Out(h.state, r.changes + c.changes + h.changes)
  }

  /** The ready message is posted by the run that creates the announcements channel. */
  ghost predicate PostsReady(g: Guild, d: Desired) {
    d.postReady && Text(ANNOUNCEMENTS) !in g.channels
    && NamesIt(Items(d.categories), |Items(d.categories)|, Text(ANNOUNCEMENTS))
  }

  /** Every role, category, channel and webhook is as desired. */
  ghost predicate AllReached(t: Guild, d: Desired) {
    && (forall n :: n in d.roles ==> n in t.roles)
    && (forall k :: 0 <= k < |Items(d.categories)| ==> Reached(Wanted(d, t.roles), t.channels, Items(d.categories)[k]))
    && (forall k :: 0 <= k < |HookSpecs(d.categories)| ==> HookReached(t.channels, t, HookSpecs(d.categories)[k]))
  }

  ghost predicate SameChannel(g: Guild, t: Guild, key: Key) {
    (key in t.channels <==> key in g.channels)
        && (key in g.channels && key in t.channels ==> t.channels[key] == g.channels[key])
  }

  /** Roles that exist, and channels and webhooks that are not named, keep all they had. */
  ghost predicate OthersKept(g: Guild, t: Guild, d: Desired) {
    && (forall n :: n in g.roles ==> n in t.roles && t.roles[n] == g.roles[n])
    && (forall n :: n in t.roles ==> n in g.roles || n in d.roles)
    && (forall key: Key :: !NamesIt(Items(d.categories), |Items(d.categories)|, key) ==> SameChannel(g, t, key))
    && (forall n :: !NamesHook(HookSpecs(d.categories), |HookSpecs(d.categories)|, n) ==> SameHook(g, t, n))
  }

  lemma RunReaches(g: Guild, d: Desired)
    requires UniqueChannels(Items(d.categories)) && UniqueHooks(HookSpecs(d.categories))
    ensures AllReached(Reconciled(g, d).state, d) && OthersKept(g, Reconciled(g, d).state, d)
  {
    var items, hs := Items(d.categories), HookSpecs(d.categories);
    RolesReached(g, d.roles);
    var r := Run(RoleSteps(), g, d.roles).state;
    var wanted := Wanted(d, r.roles);
    ItemsOrdered(d.categories);
    ChannelsConverge(wanted, r, items);
    var c := Run(ItemSteps(wanted), Open(r), items).state;
    HooksConverge(c.local, c.local, c.guild, hs);
    var t := Reconciled(g, d).state;
    forall key: Key | !NamesIt(items, |items|, key) ensures SameChannel(g, t, key) {
      assert Untouched(r, c, key);
    }
    forall n | !NamesHook(hs, |hs|, n) ensures SameHook(g, t, n) {
      assert SameHook(c.guild, t, n);
    }
    forall k | 0 <= k < |hs| ensures HookReached(t.channels, t, hs[k]) {
      assert HookReached(c.local, t, hs[k]);
    }
  }

  /** A guild in which everything is as desired is left alone, and nothing is posted. */
  lemma ReachedIsLeftAlone(t: Guild, d: Desired)
    requires AllReached(t, d)
    ensures Reconciled(t, d) == Out(t, 0) && !PostsReady(t, d)
  {
    var items, hs := Items(d.categories), HookSpecs(d.categories);
    var wanted := Wanted(d, t.roles);
    RolesSettled(t, d.roles);
    SecondPass(wanted, t, t, items);
    forall k | 0 <= k < |hs| ensures Settled(HookSteps(t.hooks, t.channels), t, hs[k]) {
      assert HookReached(t.channels, t, hs[k]);
    }
    SettledRun(HookSteps(t.hooks, t.channels), t, hs);
    forall k | 0 <= k < |items| && KeyOf(items[k]) == Text(ANNOUNCEMENTS) ensures Text(ANNOUNCEMENTS) in t.channels {
      assert Reached(wanted, t.channels, items[k]);
    }
  }

  /** One run brings every role, category, channel and webhook to the desired state; roles that exist,
      and channels and webhooks that are not named, keep all they had; the next run makes no change and
      posts nothing. */
  lemma GuildConverges(g: Guild, d: Desired)
    requires UniqueChannels(Items(d.categories)) && UniqueHooks(HookSpecs(d.categories))
    ensures var t := Reconciled(g, d).state;
      AllReached(t, d) && OthersKept(g, t, d) && Reconciled(t, d) == Out(t, 0) && !PostsReady(t, d)
  {
    RunReaches(g, d);
    ReachedIsLeftAlone(Reconciled(g, d).state, d);
  }

  lemma RolesSettled(g: Guild, names: seq<string>)
    requires forall n :: n in names ==> n in g.roles
    ensures Run(RoleSteps(), g, names) == Out(g, 0)
  {
  }

  /** The webhooks do not unsettle the channels. */
  lemma SecondPass(wanted: set<Overwrite>, g: Guild, t: Guild, items: seq<Item>)
    requires t.channels == g.channels
    requires forall k :: 0 <= k < |items| ==> Reached(wanted, g.channels, items[k])
    ensures Run(ItemSteps(wanted), Open(t), items) == Out(Open(t), 0)
  {
  }

  /** The local copy knows what it started with and what the items name. */
  lemma {:induction false} ListedAfter(wanted: set<Overwrite>, s: Session, items: seq<Item>, key: Key)
    ensures key in Run(ItemSteps(wanted), s, items).state.local <==> key in s.local || NamesIt(items, |items|, key)
  {
    if items != [] {
      var last := |items| - 1;
      ListedAfter(wanted, s, items[..last], key);
      assert NamesIt(items, |items|, key) <==> NamesIt(items[..last], last, key) || KeyOf(items[last]) == key by {
        assert forall j :: 0 <= j < last ==> items[..last][j] == items[j];
      }
    }
  }
}
