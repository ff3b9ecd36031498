/** The bastion's assets, ports, accounts and vaulted keys
    (roles/jumpserver/_archive/reconcile.py, sections 2 and 3). */
module JumpServer {
  import opened Basics
  import opened Reconcile

  datatype Host = Host(address: string, platform: int, nodes: set<string>)
  datatype Account = Account(privileged: bool, secret: string)

  /** Keyed by asset name and protocol, or asset name and user name. */
  type Slot = (string, string)

  datatype World = World(hosts: map<string, Host>, ports: map<Slot, int>, accounts: map<Slot, Account>)

  // ----- the configuration and its defaults

  datatype Defaults = Defaults(port: Option<int>, account: Option<string>, privileged: Option<bool>,
                               keyFile: Option<string>, passphrase: Option<string>)

  datatype RawAsset = RawAsset(name: string, node: string, address: string, platform: int, protocol: Option<string>,
                               port: Option<int>, account: Option<string>, privileged: Option<bool>,
                               keyFile: Option<string>, passphrase: Option<string>)

  const DEFAULT_PORT := 22
  const DEFAULT_ACCOUNT := "root"
  const DEFAULT_KEY_FILE := "/tmp/jms_key_asset"
  const DEFAULT_PROTOCOL := "ssh"

  datatype Asset = Asset(name: string, node: string, address: string, platform: int, protocol: string, port: int,
                         account: string, privileged: bool, keyFile: string, passphrase: string)

  /** The asset's own values first, then the defaults; the default passphrase belongs to the default
      key file only. */
  function Resolve(d: Defaults, a: RawAsset): Asset {
    var kp := OrElse(a.keyFile, OrElse(d.keyFile, DEFAULT_KEY_FILE));
    Asset(a.name, a.node, a.address, a.platform, OrElse(a.protocol, DEFAULT_PROTOCOL),
          OrElse(a.port, OrElse(d.port, DEFAULT_PORT)),
          OrElse(a.account, OrElse(d.account, DEFAULT_ACCOUNT)),
          OrElse(a.privileged, OrElse(d.privileged, false)),
          kp,
          OrElse(a.passphrase, if d.keyFile == Some(kp) then OrElse(d.passphrase, "") else ""))
  }

  function ResolveAll(d: Defaults, raws: seq<RawAsset>): seq<Asset> {
    seq(|raws|, i requires 0 <= i < |raws| => Resolve(d, raws[i]))
  }

  // ----- keys

  /** The text of the key in a file, decrypted; it may come out differently each time it is loaded. */
  type Loader = (string, string) -> string

  /** The public half of a private key text, if it can be read. */
  type Public = string -> Option<string>

  /** A key file is loaded once, with the passphrase of the first asset that names it. */
  function KeyText(load: Loader, assets: seq<Asset>, kp: string): string {
    if assets == [] then load(kp, "")
    else if assets[0].keyFile == kp then load(kp, assets[0].passphrase)
    else KeyText(load, assets[1..], kp)
  }

  function KeysOf(load: Loader, assets: seq<Asset>): string -> string {
    kp => KeyText(load, assets, kp)
  }

  // ----- one asset

  function Stale(w: World, a: Asset): set<Slot> {
    set s | s in w.accounts && s.0 == a.name && s.1 != a.account
  }

  function HostAfter(w: World, a: Asset): Host {
    if a.name in w.hosts then w.hosts[a.name].(address := a.address, nodes := {a.node})
    else Host(a.address, a.platform, {a.node})
  }

  /** Two unreadable keys compare equal, so an unreadable secret is not replaced by an unreadable key. */
  predicate Rekeys(pub: Public, secret: string, key: string) {
    pub(secret) != pub(key)
  }

  function AccountAfter(pub: Public, w: World, a: Asset, key: string): Account {
    var slot := (a.name, a.account);
    if slot !in w.accounts then Account(a.privileged, key)
    else Account(a.privileged, if Rekeys(pub, w.accounts[slot].secret, key) then key else w.accounts[slot].secret)
  }

  function One(b: bool): nat {
    if b then 1 else 0
  }

  /** The five counters of the summary line. */
  datatype Tally = Tally(hosts: nat, accounts: nat, ports: nat, stale: nat, rekeyed: nat) {
    function Total(): nat {
      hosts + accounts + ports + stale + rekeyed
    }

    function Plus(t: Tally): Tally {
      Tally(hosts + t.hosts, accounts + t.accounts, ports + t.ports, stale + t.stale, rekeyed + t.rekeyed)
    }
  }

  /** Address, node and privilege changes are made but not counted. */
  function TallyOf(pub: Public, keys: string -> string, w: World, a: Asset): Tally {
    var slot, proto := (a.name, a.account), (a.name, a.protocol);
    Tally(One(a.name !in w.hosts),
          One(slot !in w.accounts),
          One(proto in w.ports && w.ports[proto] != a.port),
          |Stale(w, a)|,
          One(slot in w.accounts && Rekeys(pub, w.accounts[slot].secret, keys(a.keyFile))))
  }

  function AssetAfter(pub: Public, keys: string -> string, w: World, a: Asset): World {
    World(w.hosts[a.name := HostAfter(w, a)],
          w.ports[(a.name, a.protocol) := a.port],
          (w.accounts - Stale(w, a))[(a.name, a.account) := AccountAfter(pub, w, a, keys(a.keyFile))])
  }

  function AssetStep(pub: Public, keys: string -> string, w: World, a: Asset): Out<World> {
    Out(AssetAfter(pub, keys, w, a), TallyOf(pub, keys, w, a).Total())
  }

  function AssetSteps(pub: Public, keys: string -> string): (World, Asset) -> Out<World> {
    (w, a) => AssetStep(pub, keys, w, a)
  }

  function RunAssets(pub: Public, load: Loader, w: World, assets: seq<Asset>): Out<World> {
    Run(AssetSteps(pub, KeysOf(load, assets)), w, assets)
  }

  /** The counters over a whole run. */
  function RunTally(pub: Public, keys: string -> string, w: World, assets: seq<Asset>): Tally {
    if assets == [] then Tally(0, 0, 0, 0, 0)
    else
      var last := |assets| - 1;
      RunTally(pub, keys, w, assets[..last])
      .Plus(TallyOf(pub, keys, Run(AssetSteps(pub, keys), w, assets[..last]).state, assets[last]))
  }

  lemma TallyOneMore(pub: Public, keys: string -> string, w: World, assets: seq<Asset>, i: nat)
    requires i < |assets|
    ensures var before := Run(AssetSteps(pub, keys), w, assets[..i]).state;
      && Run(AssetSteps(pub, keys), w, assets[..i + 1]).state == AssetAfter(pub, keys, before, assets[i])
      && RunTally(pub, keys, w, assets[..i + 1])
         == RunTally(pub, keys, w, assets[..i]).Plus(TallyOf(pub, keys, before, assets[i]))
  {
    assert assets[..i + 1][..i] == assets[..i];
  }

  lemma {:induction false} RunTallyTotal(pub: Public, keys: string -> string, w: World, assets: seq<Asset>)
    ensures RunTally(pub, keys, w, assets).Total() == Run(AssetSteps(pub, keys), w, assets).changes
  {
    if assets != [] {
      RunTallyTotal(pub, keys, w, assets[..|assets| - 1]);
    }
  }

  /** New hosts, and new accounts less the stale ones, are what the tables have grown by. */
  ghost predicate Balanced(w: World, w': World, n: Tally) {
    |w'.hosts| == |w.hosts| + n.hosts && |w'.accounts| + n.stale == |w.accounts| + n.accounts
  }

  lemma StepBalanced(pub: Public, keys: string -> string, w: World, a: Asset)
    ensures Balanced(w, AssetAfter(pub, keys, w, a), TallyOf(pub, keys, w, a))
  {
  }

  lemma {:induction false} RunBalanced(pub: Public, keys: string -> string, w: World, assets: seq<Asset>)
    ensures Balanced(w, Run(AssetSteps(pub, keys), w, assets).state, RunTally(pub, keys, w, assets))
  {
    if assets != [] {
      var last := |assets| - 1;
      RunBalanced(pub, keys, w, assets[..last]);
      StepBalanced(pub, keys, Run(AssetSteps(pub, keys), w, assets[..last]).state, assets[last]);
    }
  }

  // ----- convergence

  ghost predicate UniqueNames(assets: seq<Asset>) {
    forall i, j :: 0 <= i < j < |assets| ==> assets[i].name != assets[j].name
  }

  /** Exactly the declared address, node, port and account, and a secret with the same public half. */
  ghost predicate Reached(pub: Public, keys: string -> string, w: World, a: Asset) {
    && a.name in w.hosts && w.hosts[a.name].address == a.address && w.hosts[a.name].nodes == {a.node}
    && (a.name, a.protocol) in w.ports && w.ports[(a.name, a.protocol)] == a.port
    && (forall s :: s in w.accounts && s.0 == a.name ==> s.1 == a.account)
    && (a.name, a.account) in w.accounts
    && w.accounts[(a.name, a.account)].privileged == a.privileged
    && pub(w.accounts[(a.name, a.account)].secret) == pub(keys(a.keyFile))
  }

  /** What belongs to no asset of this name is untouched. */
  ghost predicate SameFor(w: World, w': World, name: string) {
    && (name in w.hosts <==> name in w'.hosts) && (name in w.hosts ==> w.hosts[name] == w'.hosts[name])
    && (forall s: Slot :: s.0 == name ==>
          (s in w.ports <==> s in w'.ports) && (s in w.ports ==> w.ports[s] == w'.ports[s]))
    && (forall s: Slot :: s.0 == name ==>
          (s in w.accounts <==> s in w'.accounts) && (s in w.accounts ==> w.accounts[s] == w'.accounts[s]))
  }

  lemma StepReaches(pub: Public, keys: string -> string, w: World, a: Asset)
    ensures Reached(pub, keys, AssetStep(pub, keys, w, a).state, a)
  {
  }

  lemma StepFrames(pub: Public, keys: string -> string, w: World, a: Asset, name: string)
    requires name != a.name
    ensures SameFor(w, AssetStep(pub, keys, w, a).state, name)
  {
  }

  /** A later run may load another text of the same key. */
  ghost predicate SameKey(pub: Public, keys: string -> string, keys': string -> string, a: Asset) {
    pub(keys(a.keyFile)) == pub(keys'(a.keyFile))
  }

  ghost predicate SameKeys(pub: Public, keys: string -> string, keys': string -> string, assets: seq<Asset>) {
    forall i :: 0 <= i < |assets| ==> SameKey(pub, keys, keys', assets[i])
  }

  lemma ReachedIsSettled(pub: Public, keys: string -> string, keys': string -> string, w: World, a: Asset)
    requires SameKey(pub, keys, keys', a) && Reached(pub, keys, w, a)
    ensures AssetStep(pub, keys', w, a) == Out(w, 0)
  {
    var slot := (a.name, a.account);
    forall s | s in w.accounts && s.0 == a.name ensures s == slot {
      assert s.1 == a.account;
    }
    assert Stale(w, a) == {};
    assert w.accounts - {} == w.accounts;
    assert w.accounts[slot := w.accounts[slot]] == w.accounts;
    assert w.hosts[a.name := w.hosts[a.name]] == w.hosts;
    assert w.ports[(a.name, a.protocol) := a.port] == w.ports;
  }

  lemma StaysReached(pub: Public, keys: string -> string, w: World, w': World, a: Asset)
    requires Reached(pub, keys, w, a) && SameFor(w, w', a.name)
    ensures Reached(pub, keys, w', a)
  {
  }

  ghost predicate AssetsInv(pub: Public, keys: string -> string, w0: World, assets: seq<Asset>, w: World, k: nat) {
    && k <= |assets|
    && (forall j :: 0 <= j < k ==> Reached(pub, keys, w, assets[j]))
    && (forall name :: (forall j :: 0 <= j < k ==> assets[j].name != name) ==> SameFor(w0, w, name))
  }

  ghost function AssetsInvOf(pub: Public, keys: string -> string, w0: World, assets: seq<Asset>): Inv<World> {
    (w: World, k: nat) => AssetsInv(pub, keys, w0, assets, w, k)
  }

  lemma AssetStepKeeps(pub: Public, keys: string -> string, w0: World, assets: seq<Asset>, w: World, k: nat)
    requires UniqueNames(assets) && k < |assets| && AssetsInv(pub, keys, w0, assets, w, k)
    ensures AssetsInv(pub, keys, w0, assets, AssetStep(pub, keys, w, assets[k]).state, k + 1)
  {
    var w' := AssetStep(pub, keys, w, assets[k]).state;
    StepReaches(pub, keys, w, assets[k]);
    forall j | 0 <= j < k ensures Reached(pub, keys, w', assets[j]) {
      StepFrames(pub, keys, w, assets[k], assets[j].name);
      StaysReached(pub, keys, w, w', assets[j]);
    }
    forall name | forall j :: 0 <= j < k + 1 ==> assets[j].name != name ensures SameFor(w0, w', name) {
      assert assets[k].name != name;
      StepFrames(pub, keys, w, assets[k], name);
      assert SameFor(w0, w, name);
      SameForTransitive(w0, w, w', name);
    }
  }

  lemma SameForTransitive(w: World, w': World, w'': World, name: string)
    requires SameFor(w, w', name) && SameFor(w', w'', name)
    ensures SameFor(w, w'', name)
  {
  }

  lemma RunReaches(pub: Public, keys: string -> string, w: World, assets: seq<Asset>)
    requires UniqueNames(assets)
    ensures AssetsInv(pub, keys, w, assets, Run(AssetSteps(pub, keys), w, assets).state, |assets|)
  {
    var step, inv := AssetSteps(pub, keys), AssetsInvOf(pub, keys, w, assets);
    forall v, k: nat | k < |assets| && inv(v, k) ensures inv(step(v, assets[k]).state, k + 1) {
      AssetStepKeeps(pub, keys, w, assets, v, k);
    }
    RunKeeps(step, inv, w, assets, |assets|);
    assert assets[..|assets|] == assets;
  }

  lemma StaysUntil(pub: Public, keys: string -> string, keys': string -> string, assets: seq<Asset>, k: nat, v: World,
      i: nat)
    requires UniqueNames(assets) && i < k < |assets| && Reached(pub, keys, v, assets[k])
    ensures Reached(pub, keys, AssetStep(pub, keys', v, assets[i]).state, assets[k])
  {
  }

  lemma ChangedIsCounted(pub: Public, keys: string -> string, keys': string -> string, v: World, a: Asset)
    requires !SameKey(pub, keys, keys', a) && Reached(pub, keys, v, a)
    ensures AssetStep(pub, keys', v, a).changes > 0
  {
  }

  /** In a second run an asset whose key has changed is counted. */
  lemma ChangedKeyIsCounted(pub: Public, keys: string -> string, keys': string -> string, t: World,
      assets: seq<Asset>, k: nat)
    requires UniqueNames(assets) && k < |assets| && !SameKey(pub, keys, keys', assets[k])
    requires Reached(pub, keys, t, assets[k])
    ensures Run(AssetSteps(pub, keys'), t, assets).changes > 0
  {
    var step, inv := AssetSteps(pub, keys'), UntilOf(pub, keys, assets[k], k);
    forall v, i: nat | i < k && inv(v, i) ensures inv(step(v, assets[i]).state, i + 1) {
      StaysUntil(pub, keys, keys', assets, k, v, i);
    }
    RunKeeps(step, inv, t, assets, k);
    ChangedIsCounted(pub, keys, keys', Run(step, t, assets[..k]).state, assets[k]);
    RunOne(step, t, assets, k);
    RunGrows(step, t, assets, k + 1);
  }

  ghost function UntilOf(pub: Public, keys: string -> string, a: Asset, k: nat): Inv<World> {
    (w: World, i: nat) => i <= k ==> Reached(pub, keys, w, a)
  }

  /** After a run every configured asset is exactly as declared and assets of other names are
      untouched. A second run counts nothing exactly when every key still has the public half it
      had, whatever text it is loaded as; and then it writes nothing. */
  lemma AssetsConverge(pub: Public, load: Loader, load': Loader, w: World, assets: seq<Asset>)
    requires UniqueNames(assets)
    ensures var t, again := RunAssets(pub, load, w, assets).state,
        SameKeys(pub, KeysOf(load, assets), KeysOf(load', assets), assets);
      && AssetsInv(pub, KeysOf(load, assets), w, assets, t, |assets|)
      && (RunAssets(pub, load', t, assets).changes == 0 <==> again)
      && (again ==> RunAssets(pub, load', t, assets).state == t)
  {
    var keys, keys' := KeysOf(load, assets), KeysOf(load', assets);
    RunReaches(pub, keys, w, assets);
    var t := RunAssets(pub, load, w, assets).state;
    if SameKeys(pub, keys, keys', assets) {
      forall k | 0 <= k < |assets| ensures Settled(AssetSteps(pub, keys'), t, assets[k]) {
        ReachedIsSettled(pub, keys, keys', t, assets[k]);
      }
      SettledRun(AssetSteps(pub, keys'), t, assets);
    } else {
      var k :| 0 <= k < |assets| && !SameKey(pub, keys, keys', assets[k]);
      ChangedKeyIsCounted(pub, keys, keys', t, assets, k);
    }
  }

  // ----- secrets that cannot be read

  function SecretOf(w: World, a: Asset): string
    requires (a.name, a.account) in w.accounts
  {
    w.accounts[(a.name, a.account)].secret
  }

  /** After its step an account's secret reads like the key, so it can be read exactly when the key can; a
      secret that could not be read has been replaced exactly when the key can be read, or is that text. */
  lemma SecretFollowsKey(pub: Public, keys: string -> string, w: World, a: Asset)
    ensures var w', key := AssetStep(pub, keys, w, a).state, keys(a.keyFile);
      && (a.name, a.account) in w'.accounts
      && pub(SecretOf(w', a)) == pub(key)
      && (pub(SecretOf(w', a)).Some? <==> pub(key).Some?)
      && ((a.name, a.account) in w.accounts && pub(SecretOf(w, a)).None?
          ==> (SecretOf(w', a) == key <==> pub(key).Some? || SecretOf(w, a) == key)
              && (pub(key).None? ==> SecretOf(w', a) == SecretOf(w, a)))
  {
  }

  predicate HasAccount(w: World, a: Asset, acct: Account) {
    (a.name, a.account) in w.accounts && w.accounts[(a.name, a.account)] == acct
  }

  predicate HasHost(w: World, a: Asset, host: Host) {
    a.name in w.hosts && w.hosts[a.name] == host
  }

  /** Before step n: an asset whose turn is still to come is as it was, and one that had its turn has the
      host and the account that its own step gave it. */
  ghost predicate SecretInv(pub: Public, keys: string -> string, w0: World, a: Asset, i: nat, w: World, n: nat) {
    if n <= i then SameFor(w0, w, a.name)
    else HasAccount(w, a, AccountAfter(pub, w0, a, keys(a.keyFile))) && HasHost(w, a, HostAfter(w0, a))
  }

  ghost function SecretInvOf(pub: Public, keys: string -> string, w0: World, a: Asset, i: nat): Inv<World> {
    (w: World, n: nat) => SecretInv(pub, keys, w0, a, i, w, n)
  }

  lemma SecretStep(pub: Public, keys: string -> string, w0: World, assets: seq<Asset>, i: nat, w: World, n: nat)
    requires UniqueNames(assets) && i < |assets| && n < |assets| && SecretInv(pub, keys, w0, assets[i], i, w, n)
    ensures SecretInv(pub, keys, w0, assets[i], i, AssetStep(pub, keys, w, assets[n]).state, n + 1)
  {
    if n != i {
      StepFrames(pub, keys, w, assets[n], assets[i].name);
      if n < i {
        SameForTransitive(w0, w, AssetStep(pub, keys, w, assets[n]).state, assets[i].name);
      }
    }
  }

  /** A run gives each asset the host and the account that its own step would give it at the start. */
  lemma RunGivesAccount(pub: Public, keys: string -> string, w: World, assets: seq<Asset>, i: nat)
    requires UniqueNames(assets) && i < |assets|
    ensures var t := Run(AssetSteps(pub, keys), w, assets).state;
      && (assets[i].name, assets[i].account) in t.accounts
      && t.accounts[(assets[i].name, assets[i].account)] == AccountAfter(pub, w, assets[i], keys(assets[i].keyFile))
      && HasHost(t, assets[i], HostAfter(w, assets[i]))
  {
    var step, inv := AssetSteps(pub, keys), SecretInvOf(pub, keys, w, assets[i], i);
    forall v, n: nat | n < |assets| && inv(v, n) ensures inv(step(v, assets[n]).state, n + 1) {
      SecretStep(pub, keys, w, assets, i, v, n);
    }
    RunKeeps(step, inv, w, assets, |assets|);
    assert assets[..|assets|] == assets;
  }

  ghost predicate AllReadable(pub: Public, w: World, assets: seq<Asset>) {
    forall i :: 0 <= i < |assets| ==>
      (assets[i].name, assets[i].account) in w.accounts && pub(SecretOf(w, assets[i])).Some?
  }

  /** If the secret could not be read before, it is the key's text afterwards exactly when the key can be
      read, or was its text already. */
  ghost predicate ReplacedIfReadable(pub: Public, w: World, t: World, a: Asset, key: string) {
    (a.name, a.account) in w.accounts && pub(SecretOf(w, a)).None? ==>
      && (a.name, a.account) in t.accounts
      && (SecretOf(t, a) == key <==> pub(key).Some? || SecretOf(w, a) == key)
  }

  /** After a run every configured account holds a secret that can be read if and only if every key file
      loads as a key that can be read; and a secret that could not be read is the key's text afterwards
      exactly when that key can be read, or was its text already. */
  lemma ReadableExactly(pub: Public, load: Loader, w: World, assets: seq<Asset>)
    requires UniqueNames(assets)
    ensures var t, keys := RunAssets(pub, load, w, assets).state, KeysOf(load, assets);
      && (AllReadable(pub, t, assets) <==> forall i :: 0 <= i < |assets| ==> pub(keys(assets[i].keyFile)).Some?)
      && forall i :: 0 <= i < |assets| ==> ReplacedIfReadable(pub, w, t, assets[i], keys(assets[i].keyFile))
  {
    var t, keys := RunAssets(pub, load, w, assets).state, KeysOf(load, assets);
    forall i | 0 <= i < |assets|
      ensures (assets[i].name, assets[i].account) in t.accounts
      ensures SecretOf(t, assets[i]) == AccountAfter(pub, w, assets[i], keys(assets[i].keyFile)).secret
    {
      RunGivesAccount(pub, keys, w, assets, i);
    }
  }

  /** Where it happens: neither the stored secret nor the key can be read, and the key is another text;
      after the run the old secret is still there. */
  lemma UnreadableStays(pub: Public, load: Loader, w: World, a: Asset)
    requires (a.name, a.account) in w.accounts && pub(SecretOf(w, a)).None?
    requires pub(load(a.keyFile, a.passphrase)).None? && SecretOf(w, a) != load(a.keyFile, a.passphrase)
    ensures var t := RunAssets(pub, load, w, [a]).state;
      && (a.name, a.account) in t.accounts && SecretOf(t, a) == SecretOf(w, a) != KeysOf(load, [a])(a.keyFile)
  {
    assert [a][0] == a;
    FirstUseDecides(load, [a], 0);
    RunGivesAccount(pub, KeysOf(load, [a]), w, [a], 0);
  }

  /** Such an asset, for any two different texts. */
  lemma UnreadableExample(secret: string, key: string)
    returns (pub: Public, load: Loader, w: World, a: Asset)
    requires secret != key
    ensures (a.name, a.account) in w.accounts && SecretOf(w, a) == secret && load(a.keyFile, a.passphrase) == key
    ensures var t := RunAssets(pub, load, w, [a]).state;
      (a.name, a.account) in t.accounts && SecretOf(t, a) == secret
  {
    pub, load := text => None, (file, passphrase) => key;
    a := Asset("host", "node", "192.0.2.1", 1, "ssh", 22, "root", false, "key", "");
    w := World(map[], map[], map[("host", "root") := Account(false, secret)]);
    UnreadableStays(pub, load, w, a);
  }

  lemma {:induction false} FirstUseDecides(load: Loader, assets: seq<Asset>, i: nat)
    requires i < |assets| && forall j :: 0 <= j < i ==> assets[j].keyFile != assets[i].keyFile
    ensures KeyText(load, assets, assets[i].keyFile) == load(assets[i].keyFile, assets[i].passphrase)
    decreases i
  {
    if i > 0 {
      assert assets[0].keyFile != assets[i].keyFile;
      forall j | 0 <= j < i - 1 ensures assets[1..][j].keyFile != assets[1..][i - 1].keyFile {
        assert assets[j + 1].keyFile != assets[i].keyFile;
      }
      FirstUseDecides(load, assets[1..], i - 1);
    }
  }
}
