/** What a run of the bastion's reconciler means for what is configured, value by value
    (roles/jumpserver/_archive/reconcile.py). */
module JumpDeclared {
  import opened Basics
  import opened Reconcile
  import opened JumpServer

  /** The asset's own value if it has one, else the default's, else the last resort. */
  ghost predicate Wins<T>(own: Option<T>, fallback: Option<T>, last: T, v: T) {
    if own.Some? then own == Some(v) else if fallback.Some? then fallback == Some(v) else v == last
  }

  ghost predicate UsesKeyFile(d: Defaults, r: RawAsset, kp: string) {
    Wins(r.keyFile, d.keyFile, "/tmp/jms_key_asset", kp)
  }

  /** The passphrase the asset brings to its key file: its own, or the default one to the default key file. */
  ghost predicate Brings(d: Defaults, r: RawAsset, kp: string, pp: string) {
    if r.passphrase.Some? then r.passphrase == Some(pp)
    else if d.keyFile == Some(kp) && d.passphrase.Some? then d.passphrase == Some(pp)
    else pp == ""
  }

  /** The first asset that uses the key file. */
  ghost predicate IsFirstUser(d: Defaults, raws: seq<RawAsset>, kp: string, f: nat) {
    f < |raws| && UsesKeyFile(d, raws[f], kp) && forall j :: 0 <= j < f ==> !UsesKeyFile(d, raws[j], kp)
  }

  /** The text is the key file's, loaded with the passphrase its first user brings. */
  ghost predicate LoadedAs(load: Loader, d: Defaults, raws: seq<RawAsset>, kp: string, text: string) {
    exists f: nat, pp :: IsFirstUser(d, raws, kp, f) && Brings(d, raws[f], kp, pp) && text == load(kp, pp)
  }

  ghost predicate UniqueRaws(raws: seq<RawAsset>) {
    forall i, j :: 0 <= i < j < |raws| ==> raws[i].name != raws[j].name
  }

  ghost predicate HostIs(r: RawAsset, w: World, t: World) {
    && r.name in t.hosts && t.hosts[r.name].address == r.address && t.hosts[r.name].nodes == {r.node}
    && t.hosts[r.name].platform == if r.name in w.hosts then w.hosts[r.name].platform else r.platform
  }

  ghost predicate PortIs(d: Defaults, r: RawAsset, t: World) {
    var slot := (r.name, if r.protocol.Some? then r.protocol.value else "ssh");
    slot in t.ports && Wins(r.port, d.port, 22, t.ports[slot])
  }

  /** One account is left, of the configured name and privilege. */
  ghost predicate AccountIs(d: Defaults, r: RawAsset, t: World, user: string) {
    && Wins(r.account, d.account, "root", user) && (r.name, user) in t.accounts
    && (forall u :: (r.name, u) in t.accounts ==> u == user)
    && Wins(r.privileged, d.privileged, false, t.accounts[(r.name, user)].privileged)
  }

  /** Its secret reads like the configured key; it is that key's text if there was no such account before. */
  ghost predicate SecretIs(pub: Public, load: Loader, d: Defaults, raws: seq<RawAsset>, r: RawAsset, w: World, t: World,
                           user: string)
    requires (r.name, user) in t.accounts
  {
    exists kp, text :: UsesKeyFile(d, r, kp) && LoadedAs(load, d, raws, kp, text)
      && pub(t.accounts[(r.name, user)].secret) == pub(text)
      && ((r.name, user) in w.accounts || t.accounts[(r.name, user)].secret == text)
  }

  ghost predicate Configured(pub: Public, load: Loader, d: Defaults, raws: seq<RawAsset>, r: RawAsset, w: World,
                             t: World) {
    && HostIs(r, w, t) && PortIs(d, r, t)
    && exists user :: AccountIs(d, r, t, user) && SecretIs(pub, load, d, raws, r, w, t, user)
  }

  ghost predicate AllConfigured(pub: Public, load: Loader, d: Defaults, raws: seq<RawAsset>, w: World, t: World) {
    && (forall r :: r in raws ==> Configured(pub, load, d, raws, r, w, t))
    && (forall name :: (forall r :: r in raws ==> r.name != name) ==> SameFor(w, t, name))
  }

  lemma ResolvedIs(d: Defaults, r: RawAsset)
    ensures var a := Resolve(d, r);
      && a.name == r.name && a.node == r.node && a.address == r.address && a.platform == r.platform
      && a.protocol == (if r.protocol.Some? then r.protocol.value else "ssh")
      && Wins(r.port, d.port, 22, a.port) && Wins(r.account, d.account, "root", a.account)
      && Wins(r.privileged, d.privileged, false, a.privileged)
      && UsesKeyFile(d, r, a.keyFile) && Brings(d, r, a.keyFile, a.passphrase)
  {
  }

  lemma KeyIsLoadedAs(load: Loader, d: Defaults, raws: seq<RawAsset>, i: nat)
    requires i < |raws|
    ensures var kp := Resolve(d, raws[i]).keyFile;
      LoadedAs(load, d, raws, kp, KeyText(load, ResolveAll(d, raws), kp))
  {
    var assets, kp := ResolveAll(d, raws), Resolve(d, raws[i]).keyFile;
    var f := FirstUser(assets, kp, i);
    FirstUseDecides(load, assets, f);
    ResolvedIs(d, raws[f]);
    forall j | 0 <= j < f ensures !UsesKeyFile(d, raws[j], kp) {
      assert assets[j].keyFile != kp;
      ResolvedIs(d, raws[j]);
    }
    assert IsFirstUser(d, raws, kp, f) && Brings(d, raws[f], kp, assets[f].passphrase);
  }

  lemma {:induction false} FirstUser(assets: seq<Asset>, kp: string, i: nat) returns (f: nat)
    requires i < |assets| && assets[i].keyFile == kp
    ensures f <= i && assets[f].keyFile == kp && forall j :: 0 <= j < f ==> assets[j].keyFile != kp
  {
    if j: nat :| j < i && assets[j].keyFile == kp {
      f := FirstUser(assets, kp, j);
    } else {
      f := i;
    }
  }

  lemma AssetIsConfigured(pub: Public, load: Loader, d: Defaults, raws: seq<RawAsset>, i: nat, w: World, t: World)
    requires UniqueNames(ResolveAll(d, raws)) && i < |raws|
    requires t == RunAssets(pub, load, w, ResolveAll(d, raws)).state
    ensures Configured(pub, load, d, raws, raws[i], w, t)
  {
    var assets, a := ResolveAll(d, raws), Resolve(d, raws[i]);
    var keys := KeysOf(load, assets);
    RunReaches(pub, keys, w, assets);
    assert assets[i] == a && Reached(pub, keys, t, a);
    RunGivesAccount(pub, keys, w, assets, i);
    ResolvedIs(d, raws[i]);
    KeyIsLoadedAs(load, d, raws, i);
    forall u | (a.name, u) in t.accounts ensures u == a.account {
      assert (a.name, u).1 == a.account;
    }
    assert AccountIs(d, raws[i], t, a.account);
  }

  /** After a run every asset is as it is configured, value by value, and other names keep what they had. */
  lemma RunMeans(pub: Public, load: Loader, d: Defaults, raws: seq<RawAsset>, w: World)
    requires UniqueRaws(raws)
    ensures AllConfigured(pub, load, d, raws, w, RunAssets(pub, load, w, ResolveAll(d, raws)).state)
  {
    var assets := ResolveAll(d, raws);
    var t := RunAssets(pub, load, w, assets).state;
    forall r | r in raws ensures Configured(pub, load, d, raws, r, w, t) {
      var i :| 0 <= i < |raws| && raws[i] == r;
      AssetIsConfigured(pub, load, d, raws, i, w, t);
    }
    forall name | forall r :: r in raws ==> r.name != name ensures SameFor(w, t, name) {
      OthersKept(pub, load, d, raws, w, name);
    }
  }

  lemma OthersKept(pub: Public, load: Loader, d: Defaults, raws: seq<RawAsset>, w: World, name: string)
    requires UniqueNames(ResolveAll(d, raws)) && forall r :: r in raws ==> r.name != name
    ensures SameFor(w, RunAssets(pub, load, w, ResolveAll(d, raws)).state, name)
  {
    var assets := ResolveAll(d, raws);
    RunReaches(pub, KeysOf(load, assets), w, assets);
    forall j | 0 <= j < |assets| ensures assets[j].name != name {
      assert raws[j] in raws;
    }
  }

  /** Where an asset has values of its own the defaults do not matter. */
  lemma OwnValuesWin(d: Defaults, d': Defaults, r: RawAsset)
    requires r.port.Some? && r.account.Some? && r.privileged.Some? && r.keyFile.Some? && r.passphrase.Some?
    ensures Resolve(d, r) == Resolve(d', r)
  {
  }
}
