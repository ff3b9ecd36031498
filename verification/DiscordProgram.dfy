/** The Discord guild reconciler as it runs (roles/discord_guild/_archive/discord_reconcile.py): one request at
    a time, each write counted. */
module DiscordProgram {
  import opened Basics
  import opened Reconcile
  import opened DiscordGuild
  import opened DiscordDeclared

  datatype HookOut = HookOut(id: int, channel: string)

  class Program {
    var guild: Guild
    var changes: nat
    /** Requests that write, as the server sees them. */
    ghost var writes: nat

    constructor (g: Guild)
      ensures guild == g && changes == 0 && writes == 0
    {
      guild, changes, writes := g, 0, 0;
    }

    method Log()
      modifies `changes
      ensures changes == old(changes) + 1
    {
      changes := changes + 1;
    }

    method PostRole(name: string)
      modifies `guild, `writes
      ensures guild == old(guild).(roles := old(guild).roles[name := old(guild).next], next := old(guild).next + 1)
      ensures writes == old(writes) + 1
    {
      guild := guild.(roles := guild.roles[name := guild.next], next := guild.next + 1);
      writes := writes + 1;
    }

    method PostChannel(key: Key, parent: Option<int>, topic: Option<string>, overwrites: set<Overwrite>)
      returns (c: Channel)
      modifies `guild, `writes
      ensures c == Channel(old(guild).next, parent, topic, overwrites)
      ensures guild == old(guild).(channels := old(guild).channels[key := c], next := old(guild).next + 1)
      ensures writes == old(writes) + 1
    {
      c := Channel(guild.next, parent, topic, overwrites);
      guild := guild.(channels := guild.channels[key := c], next := guild.next + 1);
      writes := writes + 1;
    }

    method PatchChannel(key: Key, c: Channel)
      modifies `guild, `writes
      ensures guild == old(guild).(channels := old(guild).channels[key := c]) && writes == old(writes) + 1
    {
      guild := guild.(channels := guild.channels[key := c]);
      writes := writes + 1;
    }

    method PutHook(name: string, h: Hook, isNew: bool)
      modifies `guild, `writes
      ensures guild == old(guild).(hooks := old(guild).hooks[name := h],
                                           next := old(guild).next + if isNew then 1 else 0)
      ensures writes == old(writes) + 1
    {
      guild := guild.(hooks := guild.hooks[name := h], next := guild.next + if isNew then 1 else 0);
      writes := writes + 1;
    }

    method ReconcileRoles(names: seq<string>)
      modifies this
      ensures changes >= old(changes) && changes - old(changes) == writes - old(writes)
      ensures Out(guild, changes - old(changes)) == Run(RoleSteps(), old(guild), names)
    {
      for i := 0 to |names|
        invariant changes >= old(changes) && changes - old(changes) == writes - old(writes)
        invariant Out(guild, changes - old(changes)) == Run(RoleSteps(), old(guild), names[..i])
      {
        RunOne(RoleSteps(), old(guild), names, i);
        if names[i] !in guild.roles {
          PostRole(names[i]);
          Log();
        }
      }
      assert names[..|names|] == names;
    }

    method ReconcileChannel(wanted: set<Overwrite>, local0: map<Key, Channel>, category: string, ch: ChannelSpec)
      returns (local: map<Key, Channel>, created: bool)
      modifies this
      ensures changes >= old(changes) && changes - old(changes) == writes - old(writes)
      ensures Out(Session(guild, local), changes - old(changes))
           == ItemStep(wanted, Session(old(guild), local0), Chan(category, ch))
      ensures created <==> Text(ch.name) !in local0
      ensures local.Keys == local0.Keys + {Text(ch.name)}
    {
      local, created := local0, false;
      var parent := ParentId(Session(guild, local), category);
      var key := Text(ch.name);
      if key !in local {
        var c := PostChannel(key, parent, Some(ch.topic), if ch.announce then wanted else {});
        local := local[key := c];
        Log();
        created := true;
      } else {
        var t := local[key];
        var patched := t;
        if t.parent != parent {
          patched := patched.(parent := parent);
        }
        if TopicText(t.topic) != ch.topic {
          patched := patched.(topic := Some(ch.topic));
        }
        if ch.announce && t.overwrites != wanted {
          patched := patched.(overwrites := wanted);
        }
        if patched != t {
          PatchChannel(key, patched);
          Log();
        }
      }
    }

    method EnsureCategory(ghost wanted: set<Overwrite>, local0: map<Key, Channel>, name: string)
      returns (local: map<Key, Channel>)
      modifies this
      ensures changes >= old(changes) && changes - old(changes) == writes - old(writes)
      ensures Out(Session(guild, local), changes - old(changes))
           == ItemStep(wanted, Session(old(guild), local0), Cat(name))
      ensures local.Keys == local0.Keys + {Category(name)}
    {
      local := local0;
      if Category(name) !in local {
        var c := PostChannel(Category(name), None, None, {});
        local := local[Category(name) := c];
        Log();
      }
    }

    /** One category and its channels. `announced`: the announcements channel was created here. */
    method ReconcileCategory(wanted: set<Overwrite>, local0: map<Key, Channel>, cat: CategorySpec)
      returns (local: map<Key, Channel>, announced: bool)
      modifies this
      ensures changes >= old(changes) && changes - old(changes) == writes - old(writes)
      ensures Out(Session(guild, local), changes - old(changes))
           == Run(ItemSteps(wanted), Session(old(guild), local0), CategoryItems(cat))
      ensures local0.Keys <= local.Keys
      ensures announced <==> Text(ANNOUNCEMENTS) !in local0 && Text(ANNOUNCEMENTS) in local
    {
      announced := false;
      ghost var start := Session(guild, local0);
      CategoryFirst(wanted, start, cat);
      local := EnsureCategory(wanted, local0, cat.name);
      for j := 0 to |cat.channels|
        invariant changes >= old(changes) && changes - old(changes) == writes - old(writes)
        invariant Out(Session(guild, local), changes - old(changes)) == CategoryRun(wanted, start, cat, j)
        invariant local0.Keys <= local.Keys
        invariant announced <==> Text(ANNOUNCEMENTS) !in local0 && Text(ANNOUNCEMENTS) in local
      {
        CategoryMore(wanted, start, cat, j);
        var created;
        local, created := ReconcileChannel(wanted, local, cat.name, cat.channels[j]);
        announced := announced || (created && cat.channels[j].name == ANNOUNCEMENTS);
      }
      CategoryWhole(wanted, start, cat);
    }

    method ReconcileChannels(wanted: set<Overwrite>, cats: seq<CategorySpec>)
      returns (local: map<Key, Channel>, announced: bool)
      modifies this
      ensures changes >= old(changes) && changes - old(changes) == writes - old(writes)
      ensures Out(Session(guild, local), changes - old(changes))
           == Run(ItemSteps(wanted), Open(old(guild)), Items(cats))
      ensures announced <==> Text(ANNOUNCEMENTS) !in old(guild).channels && Text(ANNOUNCEMENTS) in local
    {
      local, announced := guild.channels, false;
      for i := 0 to |cats|
        invariant changes >= old(changes) && changes - old(changes) == writes - old(writes)
        invariant Out(Session(guild, local), changes - old(changes))
               == Run(ItemSteps(wanted), Open(old(guild)), Items(cats[..i]))
        invariant old(guild).channels.Keys <= local.Keys
        invariant announced <==> Text(ANNOUNCEMENTS) !in old(guild).channels && Text(ANNOUNCEMENTS) in local
      {
        ItemsMore(wanted, Open(old(guild)), cats, i);
        var a;
        local, a := ReconcileCategory(wanted, local, cats[i]);
        announced := announced || a;
      }
      assert cats[..|cats|] == cats;
    }

    method ReconcileHook(existing: map<string, Hook>, local: map<Key, Channel>, h: HookSpec) returns (o: HookOut)
      modifies this
      ensures changes >= old(changes) && changes - old(changes) == writes - old(writes)
      ensures Out(guild, changes - old(changes)) == HookStep(existing, local, old(guild), h)
      ensures o == HookOut(if h.name in existing then existing[h.name].id else old(guild).next, h.channel)
    {
      var chan := ChannelId(local, h.channel);
      if h.name in existing {
        var w := existing[h.name];
        if w.channel != chan {
          PutHook(h.name, Hook(w.id, chan), false);
          Log();
        }
        o := HookOut(w.id, h.channel);
      } else {
        o := HookOut(guild.next, h.channel);
        PutHook(h.name, Hook(guild.next, chan), true);
        Log();
      }
    }

    /** The webhook of one channel, if it declares one; `done` are those before it. */
    method ReconcileChannelHook(existing: map<string, Hook>, local: map<Key, Channel>, ch: ChannelSpec,
                                ghost done: seq<HookSpec>, out0: map<string, HookOut>)
      returns (out: map<string, HookOut>)
      requires Covered(existing, guild, done, out0)
      modifies this
      ensures changes >= old(changes) && changes - old(changes) == writes - old(writes)
      ensures Out(guild, changes - old(changes)) == Run(HookSteps(existing, local), old(guild), HookOf(ch))
      ensures Covered(existing, guild, done + HookOf(ch), out)
    {
      out := out0;
      if ch.webhook == None || ch.webhook == Some("") {
        assert done + [] == done;
        return;
      }
      var h := HookSpec(ch.webhook.value, ch.name);
      ghost var before := guild;
      var o := ReconcileHook(existing, local, h);
      out := out[h.name := o];
      OutStillCovers(existing, local, before, done, h, out0);
      RunOne(HookSteps(existing, local), before, [h], 0);
      assert [h][..0] == [] && [h][..1] == [h];
    }

    /** The webhooks of one category. */
    method ReconcileCategoryHooks(existing: map<string, Hook>, local: map<Key, Channel>, chs: seq<ChannelSpec>,
                                  ghost done: seq<HookSpec>, out0: map<string, HookOut>)
      returns (out: map<string, HookOut>)
      requires Covered(existing, guild, done, out0)
      modifies this
      ensures changes >= old(changes) && changes - old(changes) == writes - old(writes)
      ensures Out(guild, changes - old(changes)) == Run(HookSteps(existing, local), old(guild), ChannelHooks(chs))
      ensures Covered(existing, guild, done + ChannelHooks(chs), out)
    {
      ghost var step := HookSteps(existing, local);
      out := out0;
      assert chs[..0] == [] && done + [] == done;
      for j := 0 to |chs|
        invariant changes >= old(changes) && changes - old(changes) == writes - old(writes)
        invariant Out(guild, changes - old(changes)) == Run(step, old(guild), ChannelHooks(chs[..j]))
        invariant Covered(existing, guild, done + ChannelHooks(chs[..j]), out)
      {
        ghost var before, count := guild, changes;
        out := ReconcileChannelHook(existing, local, chs[j], done + ChannelHooks(chs[..j]), out);
        HooksMore(chs, j, done);
        HooksRunMore(step, old(guild), chs, j, Out(before, count - old(changes)), Out(guild, changes - count));
      }
      assert chs[..|chs|] == chs;
    }

    method ReconcileHooks(local: map<Key, Channel>, cats: seq<CategorySpec>) returns (out: map<string, HookOut>)
      modifies this
      ensures changes >= old(changes) && changes - old(changes) == writes - old(writes)
      ensures Out(guild, changes - old(changes)) == Run(HookSteps(old(guild).hooks, local), old(guild), HookSpecs(cats))
      ensures Covered(old(guild).hooks, guild, HookSpecs(cats), out)
    {
      var existing := guild.hooks;
      ghost var step := HookSteps(existing, local);
      out := map[];
      for i := 0 to |cats|
        invariant changes >= old(changes) && changes - old(changes) == writes - old(writes)
        invariant Out(guild, changes - old(changes)) == Run(step, old(guild), HookSpecs(cats[..i]))
        invariant Covered(existing, guild, HookSpecs(cats[..i]), out)
      {
        ghost var before, count := guild, changes;
        out := ReconcileCategoryHooks(existing, local, cats[i].channels, HookSpecs(cats[..i]), out);
        SpecsRunMore(step, old(guild), cats, i, Out(before, count - old(changes)), Out(guild, changes - count));
      }
      assert cats[..|cats|] == cats;
    }

    /** The whole program; `out` is the webhook map it prints, `ready` whether it posts the ready message. */
    method Reconcile(d: Desired) returns (out: map<string, HookOut>, ready: bool)
      modifies this
      ensures changes >= old(changes) && changes - old(changes) == writes - old(writes)
      ensures guild == Reconciled(old(guild), d).state
      ensures changes - old(changes) == Reconciled(old(guild), d).changes + if ready then 1 else 0
      ensures ready <==>
          && d.postReady && Text("announcements") !in old(guild).channels
          && exists cat, ch :: Declared(d.categories, cat, ch) && ch.name == "announcements"
      ensures UniqueWebhooks(d.categories) ==> OutMeans(guild, d.categories, out)
      ensures UniqueNames(d.categories) && UniqueWebhooks(d.categories) ==>
          RolesMean(old(guild), d, guild) && ChannelsMean(old(guild), d, guild) && HooksMean(old(guild), d, guild)
    {
      ReconcileRoles(d.roles);
      var wanted := Wanted(d, guild.roles);
      RolesReached(old(guild), d.roles);
      ListedAfter(wanted, Open(guild), Items(d.categories), Text(ANNOUNCEMENTS));
      var local, announced := ReconcileChannels(wanted, d.categories);
      out := ReconcileHooks(local, d.categories);
      ready := announced && d.postReady;
      if ready {
        ghost var w := writes;
        writes := w + 1;
        Log();
      }
      ProgramMeans(old(guild), d, guild, out);
    }
  }

  /** After the category and its first j channels. */
  ghost function CategoryRun(wanted: set<Overwrite>, s: Session, cat: CategorySpec, j: nat): Out<Session>
    requires j <= |cat.channels|
  {
    Run(ItemSteps(wanted), s, CategoryItems(cat)[..j + 1])
  }

  lemma CategoryFirst(wanted: set<Overwrite>, s: Session, cat: CategorySpec)
    ensures CategoryRun(wanted, s, cat, 0) == ItemStep(wanted, s, Cat(cat.name))
  {
    RunOne(ItemSteps(wanted), s, CategoryItems(cat), 0);
  }

  lemma CategoryMore(wanted: set<Overwrite>, s: Session, cat: CategorySpec, j: nat)
    requires j < |cat.channels|
    ensures var b := CategoryRun(wanted, s, cat, j);
      var m := ItemStep(wanted, b.state, Chan(cat.name, cat.channels[j]));
      CategoryRun(wanted, s, cat, j + 1) == Out(m.state, b.changes + m.changes)
  {
    RunOne(ItemSteps(wanted), s, CategoryItems(cat), j + 1);
  }

  lemma CategoryWhole(wanted: set<Overwrite>, s: Session, cat: CategorySpec)
    ensures CategoryRun(wanted, s, cat, |cat.channels|) == Run(ItemSteps(wanted), s, CategoryItems(cat))
  {
    assert CategoryItems(cat)[..|cat.channels| + 1] == CategoryItems(cat);
  }

  lemma ItemsMore(wanted: set<Overwrite>, s: Session, cats: seq<CategorySpec>, i: nat)
    requires i < |cats|
    ensures var b := Run(ItemSteps(wanted), s, Items(cats[..i]));
      var m := Run(ItemSteps(wanted), b.state, CategoryItems(cats[i]));
      Run(ItemSteps(wanted), s, Items(cats[..i + 1])) == Out(m.state, b.changes + m.changes)
  {
    RunAppend(ItemSteps(wanted), s, Items(cats[..i]), CategoryItems(cats[i]));
    assert cats[..i + 1][..i] == cats[..i];
  }

  lemma HooksMore(chs: seq<ChannelSpec>, j: nat, done: seq<HookSpec>)
    requires j < |chs|
    ensures ChannelHooks(chs[..j + 1]) == ChannelHooks(chs[..j]) + HookOf(chs[j])
    ensures done + ChannelHooks(chs[..j + 1]) == done + ChannelHooks(chs[..j]) + HookOf(chs[j])
  {
    assert chs[..j + 1][..j] == chs[..j];
  }

  lemma HooksRunMore(step: (Guild, HookSpec) -> Out<Guild>, g: Guild, chs: seq<ChannelSpec>, j: nat,
                     before: Out<Guild>, now: Out<Guild>)
    requires j < |chs| && before == Run(step, g, ChannelHooks(chs[..j]))
    requires now == Run(step, before.state, HookOf(chs[j]))
    ensures Out(now.state, before.changes + now.changes) == Run(step, g, ChannelHooks(chs[..j + 1]))
  {
    HooksMore(chs, j, []);
    RunAppend(step, g, ChannelHooks(chs[..j]), HookOf(chs[j]));
  }

  lemma SpecsRunMore(step: (Guild, HookSpec) -> Out<Guild>, g: Guild, cats: seq<CategorySpec>, i: nat,
                     before: Out<Guild>, now: Out<Guild>)
    requires i < |cats| && before == Run(step, g, HookSpecs(cats[..i]))
    requires now == Run(step, before.state, ChannelHooks(cats[i].channels))
    ensures Out(now.state, before.changes + now.changes) == Run(step, g, HookSpecs(cats[..i + 1]))
    ensures HookSpecs(cats[..i + 1]) == HookSpecs(cats[..i]) + ChannelHooks(cats[i].channels)
  {
    assert cats[..i + 1][..i] == cats[..i];
    RunAppend(step, g, HookSpecs(cats[..i]), ChannelHooks(cats[i].channels));
  }

  /** The webhooks listed at the start and not named so far are as they were. */
  ghost predicate NotYet(existing: map<string, Hook>, g: Guild, done: seq<HookSpec>) {
    forall n :: n in existing && !NamesHook(done, |done|, n) ==> n in g.hooks && g.hooks[n] == existing[n]
  }

  /** The printed map names the webhooks, each with the id the server has for it and its channel. */
  ghost predicate OutCovers(g: Guild, hs: seq<HookSpec>, out: map<string, HookOut>) {
    && (forall n :: n in out ==> NamesHook(hs, |hs|, n))
    && forall j :: 0 <= j < |hs| ==>
      && hs[j].name in out && hs[j].name in g.hooks
      && out[hs[j].name] == HookOut(g.hooks[hs[j].name].id, hs[j].channel)
  }

  /** The printed map: each declared webhook, with the id the server has for it and the channel that declares it. */
  ghost predicate OutMeans(g: Guild, cats: seq<CategorySpec>, out: map<string, HookOut>) {
    && (forall cat, ch, n :: Declared(cats, cat, ch) && Asks(ch, n) ==>
          n in g.hooks && n in out && out[n] == HookOut(g.hooks[n].id, ch.name))
    && (forall n :: n in out ==> exists cat, ch :: Declared(cats, cat, ch) && Asks(ch, n))
  }

  lemma ProgramMeans(g: Guild, d: Desired, t: Guild, out: map<string, HookOut>)
    requires t == Reconciled(g, d).state
    requires UniqueHooks(HookSpecs(d.categories)) ==> OutCovers(t, HookSpecs(d.categories), out)
    ensures PostsReady(g, d) <==>
      && d.postReady && Text("announcements") !in g.channels
      && exists cat, ch :: Declared(d.categories, cat, ch) && ch.name == "announcements"
    ensures UniqueWebhooks(d.categories) ==> OutMeans(t, d.categories, out)
    ensures UniqueNames(d.categories) && UniqueWebhooks(d.categories) ==>
        RolesMean(g, d, t) && ChannelsMean(g, d, t) && HooksMean(g, d, t)
  {
    ReadyExactly(g, d);
    if UniqueWebhooks(d.categories) {
      UniqueWebhooksSpecs(d.categories);
      OutIsMeant(t, d.categories, out);
      if UniqueNames(d.categories) {
        RunMeans(g, d);
      }
    }
  }

  lemma OutIsMeant(g: Guild, cats: seq<CategorySpec>, out: map<string, HookOut>)
    requires OutCovers(g, HookSpecs(cats), out)
    ensures OutMeans(g, cats, out)
  {
    var hs := HookSpecs(cats);
    forall cat, ch, n | Declared(cats, cat, ch) && Asks(ch, n)
      ensures n in g.hooks && n in out && out[n] == HookOut(g.hooks[n].id, ch.name)
    {
      HookSpecsAre(cats, HookSpec(n, ch.name));
      var k :| 0 <= k < |hs| && hs[k] == HookSpec(n, ch.name);
      assert hs[k].name in out;
    }
    forall n | n in out ensures exists cat, ch :: Declared(cats, cat, ch) && Asks(ch, n) {
      var k :| 0 <= k < |hs| && hs[k].name == n;
      HookSpecsAre(cats, hs[k]);
    }
  }

  /** Under distinct names the map covers the webhooks done, and the others are as they were. */
  ghost predicate Covered(existing: map<string, Hook>, g: Guild, done: seq<HookSpec>, out: map<string, HookOut>) {
    UniqueHooks(done) ==> OutCovers(g, done, out) && NotYet(existing, g, done)
  }

  lemma OutStillCovers(existing: map<string, Hook>, local: map<Key, Channel>, g: Guild, done: seq<HookSpec>,
                       h: HookSpec, out: map<string, HookOut>)
    requires Covered(existing, g, done, out)
    ensures
      var o := HookOut(if h.name in existing then existing[h.name].id else g.next, h.channel);
      Covered(existing, HookStep(existing, local, g, h).state, done + [h], out[h.name := o])
  {
    var g', more := HookStep(existing, local, g, h).state, done + [h];
    if UniqueHooks(more) {
      forall j | 0 <= j < |done| ensures more[j] == done[j] && done[j].name != h.name {
        assert more[j].name != more[|done|].name;
      }
      forall n ensures NamesHook(more, |more|, n) <==> NamesHook(done, |done|, n) || n == h.name {
        if j :| 0 <= j < |done| && done[j].name == n {
          assert more[j].name == n;
        }
        if n == h.name {
          assert more[|done|].name == n;
        }
      }
    }
  }
}
