/** Section 10 of the GitLab reconciler (roles/gitlab_rbac/_archive/reconcile.rb): the SSH keys it
    manages on people's accounts, told apart by their title. */
module GitlabKeys {
  import opened Reconcile
  import opened GitlabMembers

  /** The first two fields of the key text, and the rest of the line. */
  datatype SshKey = SshKey(material: string, comment: string)

  datatype KeySpec = KeySpec(label_: string, key: SshKey)
  datatype UserKeys = UserKeys(user: string, ssh: seq<KeySpec>)

  /** A title of the form "ansible:<label>" is this program's; any other is a person's own. */
  datatype KeyTitle = Ansible(label_: string) | HandMade(text: string)

  /** Keyed by user and title. */
  type Slot = (string, KeyTitle)
  type Keys = map<Slot, SshKey>

  function Title(k: KeySpec): KeyTitle {
    Ansible(k.label_)
  }

  predicate Managed(title: KeyTitle) {
    title.Ansible?
  }

  function Titles(ssh: seq<KeySpec>): set<KeyTitle> {
    set k | k in ssh :: Title(k)
  }

  function Wanted(uk: UserKeys): set<KeyTitle> {
    Titles(uk.ssh)
  }

  function DeadKeys(keys: Keys, uk: UserKeys): set<Slot> {
    set s | s in keys && s.0 == uk.user && Managed(s.1) && s.1 !in Wanted(uk)
  }

  /** Add, or replace when the key itself differs; a comment is no difference. */
  function KeyStep(user: string, keys: Keys, k: KeySpec): Out<Keys> {
    var slot := (user, Title(k));
    if slot in keys && keys[slot].material == k.key.material then Out(keys, 0) else Out(keys[slot := k.key], 1)
  }

  function KeySteps(user: string): (Keys, KeySpec) -> Out<Keys> {
    (keys, k) => KeyStep(user, keys, k)
  }

  function UserStep(users: Users, keys: Keys, uk: UserKeys): Out<Keys> {
    if uk.user !in users then Out(keys, 0)
    else
      var dead := DeadKeys(keys, uk);
      var r := Run(KeySteps(uk.user), keys - dead, uk.ssh);
      Out(r.state, |dead| + r.changes)
  }

  function UserSteps(users: Users): (Keys, UserKeys) -> Out<Keys> {
    (keys, uk) => UserStep(users, keys, uk)
  }

  function RunKeys(users: Users, keys: Keys, uks: seq<UserKeys>): Out<Keys> {
    Run(UserSteps(users), keys, uks)
  }

  // ----- convergence

  /** What both label, they label with the same key. */
  ghost predicate LabelsAgree(a: UserKeys, b: UserKeys) {
    forall i, j :: 0 <= i < |a.ssh| && 0 <= j < |b.ssh| && a.ssh[i].label_ == b.ssh[j].label_
      ==> a.ssh[i].key.material == b.ssh[j].key.material
  }

  /** Entries for one account declare the same labels, with the same keys. */
  ghost predicate KeysAgree(users: Users, uks: seq<UserKeys>) {
    forall i, j :: 0 <= i < |uks| && 0 <= j < |uks| && uks[i].user == uks[j].user && uks[i].user in users
      ==> Wanted(uks[i]) == Wanted(uks[j]) && LabelsAgree(uks[i], uks[j])
  }

  ghost predicate InPlace(keys: Keys, user: string, k: KeySpec) {
    (user, Title(k)) in keys && keys[(user, Title(k))].material == k.key.material
  }

  /** The user's managed titles are exactly the declared ones, each holding the declared key. */
  ghost predicate KeysReached(users: Users, keys: Keys, uk: UserKeys) {
    uk.user in users ==>
      && (forall title :: Managed(title) ==> ((uk.user, title) in keys <==> title in Wanted(uk)))
      && AllInPlace(keys, uk, |uk.ssh|)
  }

  ghost predicate Same(before: Keys, after: Keys, s: Slot) {
    (s in after <==> s in before) && (s in before ==> after[s] == before[s])
  }

  ghost predicate ListedUser(uks: seq<UserKeys>, k: nat, user: string)
    requires k <= |uks|
  {
    exists i :: 0 <= i < k && uks[i].user == user
  }

  /** Only managed slots of the listed users differ. */
  ghost predicate KeysFramed(uks: seq<UserKeys>, k: nat, before: Keys, after: Keys)
    requires k <= |uks|
  {
    forall s: Slot :: !Managed(s.1) || !ListedUser(uks, k, s.0) ==> Same(before, after, s)
  }

  /** The first n declared keys of one user are in place, and no other slot has changed. */
  ghost predicate DeclaredInv(keys: Keys, uk: UserKeys, t: Keys, n: nat) {
    n <= |uk.ssh| && AllInPlace(t, uk, n) && OnlyTitles(uk.user, Titles(uk.ssh[..n]), keys, t)
  }

  ghost function DeclaredInvOf(keys: Keys, uk: UserKeys): Inv<Keys> {
    (t: Keys, n: nat) => DeclaredInv(keys, uk, t, n)
  }

  lemma DeclaredStep(keys: Keys, uk: UserKeys, t: Keys, n: nat)
    requires LabelsAgree(uk, uk) && n < |uk.ssh| && DeclaredInv(keys, uk, t, n)
    ensures DeclaredInv(keys, uk, KeyStep(uk.user, t, uk.ssh[n]).state, n + 1)
  {
  }

  lemma DeclaredInPlace(keys: Keys, uk: UserKeys)
    requires LabelsAgree(uk, uk)
    ensures DeclaredInv(keys, uk, Run(KeySteps(uk.user), keys, uk.ssh).state, |uk.ssh|)
  {
    forall t, n: nat | n < |uk.ssh| && DeclaredInv(keys, uk, t, n)
      ensures DeclaredInv(keys, uk, KeyStep(uk.user, t, uk.ssh[n]).state, n + 1)
    {
      DeclaredStep(keys, uk, t, n);
    }
    RunKeeps(KeySteps(uk.user), DeclaredInvOf(keys, uk), keys, uk.ssh, |uk.ssh|);
    assert uk.ssh[..|uk.ssh|] == uk.ssh;
  }

  ghost predicate AllInPlace(keys: Keys, uk: UserKeys, n: nat)
    requires n <= |uk.ssh|
  {
    forall i :: 0 <= i < n ==> InPlace(keys, uk.user, uk.ssh[i])
  }

  /** The user's slots with these titles are there now; every other slot is as before. */
  ghost predicate OnlyTitles(user: string, titles: set<KeyTitle>, before: Keys, after: Keys) {
    && (forall title :: title in titles ==> (user, title) in after)
    && (forall s: Slot :: s.0 != user || s.1 !in titles ==> Same(before, after, s))
  }

  lemma UserStepReaches(users: Users, keys: Keys, uk: UserKeys)
    requires uk.user in users ==> LabelsAgree(uk, uk)
    ensures var t := UserStep(users, keys, uk).state;
      && KeysReached(users, t, uk)
      && forall s: Slot :: s.0 != uk.user || !Managed(s.1) ==> Same(keys, t, s)
  {
    if uk.user in users {
      assert uk.ssh[..|uk.ssh|] == uk.ssh;
      DeclaredInPlace(keys - DeadKeys(keys, uk), uk);
      var t := UserStep(users, keys, uk).state;
      forall title | Managed(title) ensures (uk.user, title) in t <==> title in Wanted(uk) {
        var s := (uk.user, title);
        assert s in keys && title !in Wanted(uk) ==> s in DeadKeys(keys, uk);
      }
    }
  }

  lemma ReachedIsSettled(users: Users, keys: Keys, uk: UserKeys)
    requires KeysReached(users, keys, uk)
    ensures UserStep(users, keys, uk) == Out(keys, 0)
  {
    if uk.user in users {
      forall s: Slot | s in keys && s.0 == uk.user && Managed(s.1) ensures s.1 in Wanted(uk) {
        assert s == (uk.user, s.1);
      }
      assert DeadKeys(keys, uk) == {};
      assert keys - {} == keys;
      forall i | 0 <= i < |uk.ssh| ensures Settled(KeySteps(uk.user), keys, uk.ssh[i]) {
        assert InPlace(keys, uk.user, uk.ssh[i]);
      }
      SettledRun(KeySteps(uk.user), keys, uk.ssh);
    }
  }

  /** An entry that asks for nothing finds its keys reached. */
  lemma SettledIsReached(users: Users, keys: Keys, uk: UserKeys)
    requires UserStep(users, keys, uk).changes == 0
    ensures KeysReached(users, keys, uk) && UserStep(users, keys, uk).state == keys
  {
    if uk.user in users {
      assert DeadKeys(keys, uk) == {};
      assert keys - {} == keys;
      SilentExactly(KeySteps(uk.user), keys, uk.ssh);
      forall i | 0 <= i < |uk.ssh| ensures InPlace(keys, uk.user, uk.ssh[i]) {
        assert Settled(KeySteps(uk.user), keys, uk.ssh[i]);
      }
      forall title | Managed(title) ensures (uk.user, title) in keys <==> title in Wanted(uk) {
        assert (uk.user, title) !in DeadKeys(keys, uk);
      }
    }
  }

  ghost predicate KeysInv(users: Users, keys: Keys, uks: seq<UserKeys>, t: Keys, k: nat) {
    && k <= |uks|
    && (forall j :: 0 <= j < k ==> KeysReached(users, t, uks[j]))
    && KeysFramed(uks, k, keys, t)
  }

  ghost function KeysInvOf(users: Users, keys: Keys, uks: seq<UserKeys>): Inv<Keys> {
    (t: Keys, k: nat) => KeysInv(users, keys, uks, t, k)
  }

  lemma OthersStayReached(users: Users, t: Keys, t': Keys, uk: UserKeys, user: string)
    requires KeysReached(users, t, uk) && uk.user != user
    requires forall s: Slot :: s.0 != user || !Managed(s.1) ==> Same(t, t', s)
    ensures KeysReached(users, t', uk)
  {
  }

  /** An entry that agrees with one that is reached is reached too. */
  lemma ReachedAlike(users: Users, t: Keys, a: UserKeys, b: UserKeys)
    requires KeysReached(users, t, a) && a.user == b.user && Wanted(a) == Wanted(b) && LabelsAgree(a, b)
    ensures KeysReached(users, t, b)
  {
    if b.user in users {
      forall i | 0 <= i < |b.ssh| ensures InPlace(t, b.user, b.ssh[i]) {
        assert Title(b.ssh[i]) in Wanted(a);
        var k :| k in a.ssh && Title(k) == Title(b.ssh[i]);
        var j :| 0 <= j < |a.ssh| && a.ssh[j] == k;
        assert InPlace(t, a.user, a.ssh[j]);
      }
    }
  }

  lemma KeysStepKeeps(users: Users, keys: Keys, uks: seq<UserKeys>, t: Keys, k: nat)
    requires KeysAgree(users, uks) && k < |uks| && KeysInv(users, keys, uks, t, k)
    ensures KeysInv(users, keys, uks, UserStep(users, t, uks[k]).state, k + 1)
  {
    UserStepReaches(users, t, uks[k]);
    var t' := UserStep(users, t, uks[k]).state;
    forall j | 0 <= j < k ensures KeysReached(users, t', uks[j]) {
      if uks[j].user != uks[k].user {
        OthersStayReached(users, t, t', uks[j], uks[k].user);
      } else if uks[k].user in users {
        ReachedAlike(users, t', uks[k], uks[j]);
      }
    }
    forall s: Slot | !Managed(s.1) || !ListedUser(uks, k + 1, s.0) ensures Same(keys, t', s) {
      assert uks[k].user == s.0 ==> ListedUser(uks, k + 1, s.0);
      assert ListedUser(uks, k, s.0) ==> ListedUser(uks, k + 1, s.0);
      assert Same(keys, t, s) && Same(t, t', s);
    }
  }

  /** When entries for one account agree: after a run every listed person's managed keys are exactly the
      declared ones, hand-made keys and other accounts are untouched, and a second run changes nothing. */
  lemma KeysConverge(users: Users, keys: Keys, uks: seq<UserKeys>)
    requires KeysAgree(users, uks)
    ensures var t := RunKeys(users, keys, uks).state;
      && (forall j :: 0 <= j < |uks| ==> KeysReached(users, t, uks[j]))
      && KeysFramed(uks, |uks|, keys, t)
      && RunKeys(users, t, uks) == Out(t, 0)
  {
    var step, inv := UserSteps(users), KeysInvOf(users, keys, uks);
    forall t, k: nat | k < |uks| && inv(t, k) ensures inv(step(t, uks[k]).state, k + 1) {
      KeysStepKeeps(users, keys, uks, t, k);
    }
    RunKeeps(step, inv, keys, uks, |uks|);
    assert uks[..|uks|] == uks;
    var t := RunKeys(users, keys, uks).state;
    forall k | 0 <= k < |uks| ensures Settled(step, t, uks[k]) {
      ReachedIsSettled(users, t, uks[k]);
    }
    SettledRun(step, t, uks);
  }

  lemma ReachedAgree(users: Users, t: Keys, a: UserKeys, b: UserKeys)
    requires KeysReached(users, t, a) && KeysReached(users, t, b) && a.user == b.user && a.user in users
    ensures Wanted(a) == Wanted(b) && LabelsAgree(a, b)
  {
    forall title ensures title in Wanted(a) <==> title in Wanted(b) {
      assert !Managed(title) ==> title !in Wanted(a) && title !in Wanted(b);
    }
    forall i, j | 0 <= i < |a.ssh| && 0 <= j < |b.ssh| && a.ssh[i].label_ == b.ssh[j].label_
      ensures a.ssh[i].key.material == b.ssh[j].key.material
    {
      assert InPlace(t, a.user, a.ssh[i]) && InPlace(t, b.user, b.ssh[j]);
    }
  }

  /** A second run counts no change if and only if entries for one account agree. */
  lemma KeysSettleExactly(users: Users, keys: Keys, uks: seq<UserKeys>)
    ensures RunKeys(users, RunKeys(users, keys, uks).state, uks).changes == 0 <==> KeysAgree(users, uks)
  {
    var step, t := UserSteps(users), RunKeys(users, keys, uks).state;
    if KeysAgree(users, uks) {
      KeysConverge(users, keys, uks);
    } else if RunKeys(users, t, uks).changes == 0 {
      forall s, uk | step(s, uk).changes == 0 ensures step(s, uk).state == s {
        SettledIsReached(users, s, uk);
      }
      SilentExactly(step, t, uks);
      forall i | 0 <= i < |uks| ensures KeysReached(users, t, uks[i]) {
        assert Settled(step, t, uks[i]);
        SettledIsReached(users, t, uks[i]);
      }
      forall i, j | 0 <= i < |uks| && 0 <= j < |uks| && uks[i].user == uks[j].user && uks[i].user in users
        ensures Wanted(uks[i]) == Wanted(uks[j]) && LabelsAgree(uks[i], uks[j])
      {
        ReachedAgree(users, t, uks[i], uks[j]);
      }
    }
  }
}
