/** The bastion's reconciler as it runs (roles/jumpserver/_archive/reconcile.py): asset by asset, each key file
    loaded once. */
module JumpProgram {
  import opened Basics
  import opened Reconcile
  import opened JumpServer
  import opened JumpDeclared

  class Bastion {
    var hosts: map<string, Host>
    var ports: map<Slot, int>
    var accounts: map<Slot, Account>

    ghost function Now(): World
      reads this
    {
      World(hosts, ports, accounts)
    }

    constructor (w: World)
      ensures Now() == w
    {
      hosts, ports, accounts := w.hosts, w.ports, w.accounts;
    }

    method ReconcileHost(a: Asset) returns (created: nat)
      modifies `hosts
      ensures hosts == old(hosts)[a.name := HostAfter(old(Now()), a)]
      ensures created == One(a.name !in old(hosts))
    {
      created := 0;
      if a.name !in hosts {
        hosts := hosts[a.name := Host(a.address, a.platform, {})];
        created := 1;
      }
      if hosts[a.name].address != a.address {
        hosts := hosts[a.name := hosts[a.name].(address := a.address)];
      }
      hosts := hosts[a.name := hosts[a.name].(nodes := {a.node})];
    }

    method ReconcilePort(a: Asset) returns (fixed: nat)
      modifies `ports
      ensures ports == old(ports)[(a.name, a.protocol) := a.port]
      ensures fixed == One((a.name, a.protocol) in old(ports) && old(ports)[(a.name, a.protocol)] != a.port)
    {
      fixed := 0;
      var proto := (a.name, a.protocol);
      if proto !in ports {
        ports := ports[proto := a.port];
      } else if ports[proto] != a.port {
        ports := ports[proto := a.port];
        fixed := 1;
      }
      assert ports == old(ports)[proto := a.port];
    }

    method ReconcileAccount(pub: Public, a: Asset, key: string) returns (created: nat, rekeyed: nat)
      modifies `accounts
      ensures accounts == old(accounts)[(a.name, a.account) := AccountAfter(pub, old(Now()), a, key)]
      ensures var slot := (a.name, a.account);
        && created == One(slot !in old(accounts))
        && rekeyed == One(slot in old(accounts) && Rekeys(pub, old(accounts)[slot].secret, key))
    {
      created, rekeyed := 0, 0;
      var slot := (a.name, a.account);
      if slot !in accounts {
        accounts := accounts[slot := Account(a.privileged, key)];
        created := 1;
      } else {
        if accounts[slot].privileged != a.privileged {
          accounts := accounts[slot := accounts[slot].(privileged := a.privileged)];
        }
        if pub(accounts[slot].secret) != pub(key) {
          accounts := accounts[slot := accounts[slot].(secret := key)];
          rekeyed := 1;
        }
      }
      assert accounts == old(accounts)[slot := AccountAfter(pub, old(Now()), a, key)];
    }

    method DropStale(a: Asset) returns (stale: nat)
      modifies `accounts
      ensures accounts == old(accounts) - Stale(old(Now()), a) && stale == |Stale(old(Now()), a)|
    {
      ghost var before, gone := accounts, {};
      var todo := set s | s in accounts && s.0 == a.name && s.1 != a.account;
      assert accounts - {} == accounts;
      stale := 0;
      while todo != {}
        invariant forall s :: s in todo ==> s in before && s !in gone
        invariant forall s :: s in before && s.0 == a.name && s.1 != a.account <==> s in todo || s in gone
        invariant accounts == before - gone && stale == |gone|
        decreases todo
      {
        var s :| s in todo;
        todo := todo - {s};
        MinusOneMore(before, gone, s);
        accounts := accounts - {s};
        stale := stale + 1;
        gone := gone + {s};
      }
      assert gone == Stale(old(Now()), a);
    }

    method ReconcileAsset(pub: Public, ghost keys: string -> string, a: Asset, key: string) returns (n: Tally)
      requires key == keys(a.keyFile)
      modifies this
      ensures Now() == AssetAfter(pub, keys, old(Now()), a) && n == TallyOf(pub, keys, old(Now()), a)
    {
      ghost var w := Now();
      var newHosts := ReconcileHost(a);
      var portFixes := ReconcilePort(a);
      var newAccounts, rekeyed := ReconcileAccount(pub, a, key);
      SameStale(w, Now(), a, AccountAfter(pub, w, a, key));
      var stale := DropStale(a);
      n := Tally(newHosts, newAccounts, portFixes, stale, rekeyed);
    }

    /** The asset's own values first, then the defaults; the default passphrase belongs to the default key file
        only. */
    method Configure(d: Defaults, r: RawAsset) returns (a: Asset)
      ensures a == Resolve(d, r)
    {
      var port := OrElse(r.port, OrElse(d.port, DEFAULT_PORT));
      var account := OrElse(r.account, OrElse(d.account, DEFAULT_ACCOUNT));
      var privileged := OrElse(r.privileged, OrElse(d.privileged, false));
      var kp := OrElse(r.keyFile, OrElse(d.keyFile, DEFAULT_KEY_FILE));
      var shared := if d.keyFile == Some(kp) then OrElse(d.passphrase, "") else "";
      a := Asset(r.name, r.node, r.address, r.platform, OrElse(r.protocol, DEFAULT_PROTOCOL), port, account,
          privileged, kp, OrElse(r.passphrase, shared));
    }

    method ReconcileAssets(pub: Public, load: Loader, d: Defaults, raws: seq<RawAsset>) returns (n: Tally)
      modifies this
      ensures Out(Now(), n.Total()) == RunAssets(pub, load, old(Now()), ResolveAll(d, raws))
      ensures n == RunTally(pub, KeysOf(load, ResolveAll(d, raws)), old(Now()), ResolveAll(d, raws))
      ensures UniqueRaws(raws) ==> AllConfigured(pub, load, d, raws, old(Now()), Now())
    {
      n := Tally(0, 0, 0, 0, 0);
      var keyCache: map<string, string> := map[];
      ghost var assets := ResolveAll(d, raws);
      ghost var keys := KeysOf(load, assets);
      for i := 0 to |raws|
        invariant CachedUpTo(load, assets, i, keyCache)
        invariant Now() == Run(AssetSteps(pub, keys), old(Now()), assets[..i]).state
        invariant n == RunTally(pub, keys, old(Now()), assets[..i])
      {
        var a := Configure(d, raws[i]);
        CacheNext(load, assets, i, keyCache);
        if a.keyFile !in keyCache {
          keyCache := keyCache[a.keyFile := load(a.keyFile, a.passphrase)];
        }
        TallyOneMore(pub, keys, old(Now()), assets, i);
        var more := ReconcileAsset(pub, keys, a, keyCache[a.keyFile]);
        n := n.Plus(more);
      }
      assert assets[..|assets|] == assets;
      RunTallyTotal(pub, keys, old(Now()), assets);
      if UniqueRaws(raws) {
        RunMeans(pub, load, d, raws, old(Now()));
      }
    }
  }

  /** The key cache holds the files of the first i assets, each loaded as its first user says. */
  ghost predicate CachedUpTo(load: Loader, assets: seq<Asset>, i: nat, cache: map<string, string>) {
    && i <= |assets|
    && (forall j :: 0 <= j < i ==> assets[j].keyFile in cache)
    && (forall kp :: kp in cache ==>
          cache[kp] == KeyText(load, assets, kp) && exists j :: 0 <= j < i && assets[j].keyFile == kp)
  }

  lemma CacheNext(load: Loader, assets: seq<Asset>, i: nat, cache: map<string, string>)
    requires i < |assets| && CachedUpTo(load, assets, i, cache)
    ensures var a := assets[i];
      CachedUpTo(load, assets, i + 1,
                 if a.keyFile in cache then cache else cache[a.keyFile := load(a.keyFile, a.passphrase)])
  {
    if assets[i].keyFile !in cache {
      FirstUseDecides(load, assets, i);
    }
  }

  lemma SameStale(w: World, w': World, a: Asset, acct: Account)
    requires w'.accounts == w.accounts[(a.name, a.account) := acct]
    ensures Stale(w', a) == Stale(w, a)
    ensures w'.accounts - Stale(w', a) == (w.accounts - Stale(w, a))[(a.name, a.account) := acct]
  {
  }
}
