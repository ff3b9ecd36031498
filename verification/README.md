# Verified models of the platform repository's programs

The repository deploys and operates a platform with Ansible. Besides its playbooks it holds small
programs that search graphs of roles, bring servers to a declared state, move secrets and files, change
text in place and guard the repository against regressions. This project models the logic of thirteen of
them in Dafny and proves what they are there for, over every input, every run or every reachable state.

Each model has two halves. What the source does step by step is a method or a class whose methods update
its fields; its contract ties the result, or the new state, to a function or to the property itself. What
the source promises is then proved about that function. `dafny verify dfyconfig.toml` checks everything.

| modules | program |
|---|---|
| `Basics` | optional values and white space, shared by the others |
| `Digraph`, `FactSearch`, `FactTrust` | the search for roles that read facts without gathering them, with its shared memo |
| `RoleClosure` | the plays a change reaches, by a reverse worklist |
| `InventoryGroups` | the inventory's groups with the hosts of all their children |
| `Reconcile` | runs of declared steps: what they keep and when they write nothing, for the three reconcilers below |
| `GitlabGroups`, `GitlabMembers`, `GitlabProjects`, `GitlabKeys`, `GitlabRbac`, `GitlabDeclared` | the GitLab reconciler; and what a run means for each declared entry |
| `JumpServer`, `JumpProgram`, `JumpDeclared` | the bastion's assets, accounts, ports and keys; and which configured value wins |
| `DiscordGuild`, `DiscordProgram`, `DiscordDeclared` | roles, channels, overwrites and webhooks of a Discord server; and what a run means for each declared channel |
| `VaultArchive`, `VaultLoss` | archiving Vault secrets: copy, verify, delete; and when that loses a document |
| `ControllerFiles`, `ControllerPlay`, `ControllerLoss`, `ControllerOrder` | setting undeclared credential files aside; and when that loses one, in any order and in that of the play |
| `LineBlocks`, `LapiBlock` | removing the local API server block from a YAML file |
| `TokenRender`, `TokenValues` | rendering deployment tokens; and which values can leave one |
| `CatalogNames`, `CatalogLint`, `CatalogReport` | the firewall catalog lint; and what each reported violation says |
| `Ratchet`, `TaskTree` | the embedded-scripts ratchet and the walk over tasks |
| `RemovedVars` | the guard against removed inventory variables |

## Where the code does less than it seems to

- **Shared memo of the fact search.** On a cyclic graph a cached False can be wrong
  (`FactSearch.StaleFalse`). The memo can be trusted exactly when its False part is closed under
  references (`FactSearch.TrustedExactlyWhenClosed`), and a graph gives right answers in every history
  exactly when single queries on it leave the memo so (`FactTrust.HistoriesRightExactly`); off the cycles
  it always does.
- **GitLab groups listed before their parent** are created at the top level, because the missing parent's
  id is nil (`GitlabGroups.ChildFirstDoesNotConverge`). One run places every group exactly when none is
  listed before a parent it needs (`GitlabGroups.PlacedExactlyInOrder`; with refused paths,
  `GitlabGroups.OrderDecides` and `GitlabGroups.GroupsReachedExactly`). A second run writes nothing exactly
  when every group that did not find its parent at its turn does not find it after the run either
  (`GitlabGroups.SecondPassSilentExactly`; for the whole program `GitlabRbac.SecondRunSilentExactly`).
- **GitLab grants below a higher inherited one.** Where the instance refuses them, a refused new grant is
  counted as a change on every run and a refused update stops the program. A run settles exactly when no
  grant is refused (`GitlabMembers.MembersSettleExactly`).
- **GitLab projects that are both deleted and declared,** or declared twice with different values, are
  rewritten on every run (`GitlabProjects.ProjectsConvergeExactly`); so are SSH keys of one account declared
  twice with different labels or keys (`GitlabKeys.KeysSettleExactly`).
- **JumpServer keys that cannot be parsed.** The comment at `roles/jumpserver/_archive/reconcile.py` line 52
  says such a secret forces a new key. The code compares None with None, so it is replaced exactly when
  the new key can be parsed (`JumpServer.SecretFollowsKey`, over a run `JumpServer.ReadableExactly`);
  `JumpServer.UnreadableStays` shows one that stays.
- **Vault archiving overwrites** a document that is already at the destination
  (`VaultLoss.OverwriteLoses`). With an honest server nothing is lost exactly when no document is copied, at
  its turn, over a different one (`VaultLoss.LosslessExactly`); with a server that may garble copies,
  exactly when nothing can come to be archived to where a document is
  (`VaultLoss.LosslessWithAnyServer`). A rerun archives again where a move has put a document back at a
  source already dealt with (`VaultArchive.RerunSilentExactly`, `VaultArchive.RerunArchivesAgain`).
- **Setting a file aside replaces** one that is already there. Nothing is lost, wherever the play stops,
  exactly when its directories cannot be made or no undeclared file would then replace one with other
  contents (`ControllerOrder.PlayKeepsExactly`; for its commands in any order
  `ControllerLoss.NothingLostExactly`): one that is in the area already, or one in a copy of the folder just
  moved there. The latter needs a file called like the place of the copy, and in the copy a file called like
  the copy (`ControllerOrder.OnlyNamesakes`, `ControllerOrder.CopyLostExample`).
- **`rmdir` on directories that are never empty.** Only a declared file's own directory and the one above
  it are left alone, so the play fails for files that lie deeper (`ControllerFiles.ThreeDeepFails`), after
  having moved everything it should. `ControllerFiles.SetAsideExactly` says exactly when it succeeds.
- **Alias names that end in a line feed** match the suffix pattern, and pairing drops the line feed
  (`CatalogNames.PairTwice`, `CatalogNames.PairingReturnsExactly`).
- **Rules with one base and one family** hide each other from the twin check: a catalog can pass with a
  rule that has no twin (`CatalogLint.UntwinnedRulePasses`). Exactly then rules of one base and family
  without a twin do not need one alike (`CatalogLint.PassingIsTwinnedExactly`).
- **Rendered values are not rendered again**, so a value that is part of a token can leave it in the output
  (`TokenValues.NestedBracesLeaveToken`). Every template is resolved exactly when no value is
  (`TokenValues.ValuesDecide`, `TokenValues.BraceFreeValuesDecide`).

## Model

| member | source | states |
|---|---|---|
| `FactSearch.FreshQueryExact` | scripts/check_service_contract.py:83-98 | From an empty memo one `needs_facts` query says true exactly when some role reached from the queried one reads facts it does not gather, on every finite graph, cycles included. |
| `FactSearch.QueryExact` | scripts/check_service_contract.py:83-98 | The same for any memo whose True entries are right and whose False entries are closed under references; a False answer leaves the memo like that. |
| `FactSearch.SearchTrueSound` | scripts/check_service_contract.py:86-97 | On any graph and with any roles cut off, every True answered or cached is right. |
| `FactSearch.SearchFalseSettles` | scripts/check_service_contract.py:86-97 | After a False answer every role cached meanwhile is no reader, and each of its references is cached False or was cut off, although `any` stops early. |
| `FactSearch.HistoryOffCycles` | scripts/check_service_contract.py:83-98 | Over any sequence of queries on one memo: a True answer is right on any graph, and the answer about a role that meets no cycle is exact. |
| `FactSearch.OrderIndependent` | scripts/check_service_contract.py:153-154 | Without cycles the answer about a role does not depend on which services and plays asked before. |
| `FactSearch.FirstTrueExact` | scripts/check_service_contract.py:83-98 | On any graph, the answers are exact up to and including the first True. |
| `FactSearch.TrustedExactlyWhenClosed` | scripts/check_service_contract.py:86-97 | After any history on any graph, all further queries are answered right if and only if the False part of the memo is closed under references. |
| `FactTrust.HistoriesRightExactly` | scripts/check_service_contract.py:83-98 | Every answer of every history on a graph is right if and only if every single query on an empty memo leaves its False answers closed under references. |
| `FactTrust.SearchAlike` | scripts/check_service_contract.py:86-97 | Where a search with a fresh memo caches nothing wrong, a search that finds more in its memo caches nothing wrong either, and answers True where the fresh one does. |
| `FactSearch.StaleFalse` | scripts/check_service_contract.py:86-97 | A cyclic graph where a cached False is stale: asked after another role, a role that needs facts is answered False. |
| `FactSearch.HistoryVerdict` | scripts/check_service_contract.py:153-154 | The roles a service is reported for: only roles that need facts, and among those that meet no cycle all of them. |
| `FactSearch.AskedExactly` | scripts/check_service_contract.py:153-154 | Asked about are exactly the roles of the plays that do not gather facts. |
| `FactSearch.RefsExactly` | scripts/check_service_contract.py:96 | Followed are exactly the references to other roles that exist. |
| `FactSearch.ContractCheck.NeedsFacts` | scripts/check_service_contract.py:83-98 | The recursive method answers, and leaves the shared memo, as the search function says. |
| `FactSearch.ContractCheck.FactsFailures` | scripts/check_service_contract.py:152-154 | The nested loops over a service's plays and their roles are the history of queries on the shared memo; named are only roles that need facts and that a play without them uses, and off the cycles all of those. |
| `FactSearch.ContractCheck.Check` | scripts/check_service_contract.py:205-208 | Over all services on one memo: every role named is used by a play of its service that does not gather facts, and needs them; and every such role off the cycles is named. |
| `RoleClosure.BuildReverse` | scripts/impacted_plays.py:64-72 | The reverse table holds a role under a name exactly when the role references the name. |
| `RoleClosure.Closure` | scripts/impacted_plays.py:73-82 | The worklist terminates, expands each reached name exactly once, and returns exactly the roles that pull in a seed role, directly or through others. |
| `RoleClosure.Round` | scripts/impacted_plays.py:75-81 | One round expands the frontier once and finds exactly the users that are new. |
| `RoleClosure.ImpactIsLeastClosed` | scripts/impacted_plays.py:62-82 | Being the transitive impact is the same as being the least superset of the seed closed under "is referenced by". |
| `RoleClosure.ImpactOfUnion` | scripts/impacted_plays.py:62-82 | The impact of two changes together is the union of their impacts. |
| `RoleClosure.BackwardMeetsForward` | scripts/impacted_plays.py:73-82 | Over one reference relation, the closure of the roles that read facts without gathering them holds a role exactly when the forward search says true for it. |
| `RoleClosure.ImpactedPlays` | scripts/impacted_plays.py:90-106 | The plays to dry-run are exactly the playbooks outside the archive that changed or name a role pulling in a changed one. |
| `RoleClosure.DryRunExactly` | scripts/impacted_plays.py:90-106 | In terms of the changed files: a playbook without `_archive` in its path is to be dry-run when it is itself a changed playbook file, or names a role from which one is reached below whose directory a file changed. |
| `InventoryGroups.WalkedFileMeans` | tests/test_certs_sync_covers_consumers.py:92-100 | The two tables hold a host or child for a group exactly when some occurrence of the group in the file lists it. |
| `InventoryGroups.Inventory.Walk` | tests/test_certs_sync_covers_consumers.py:92-97 | The recursive walk updates the two tables in place as the walk function says. |
| `InventoryGroups.Resolve` | tests/test_certs_sync_covers_consumers.py:102-106 | The path-guarded recursion terminates on every child relation and returns exactly the hosts of the groups met without going back into `seen`. |
| `InventoryGroups.HeldStep` | tests/test_certs_sync_covers_consumers.py:102-106 | Cutting a path at its last visit to a group: held from the group is held directly, or from a child without going through the group again. |
| `InventoryGroups.HeldFromScratch` | tests/test_certs_sync_covers_consumers.py:102-108 | With nothing seen, those are exactly the hosts of all reachable groups. |
| `InventoryGroups.Groups` | tests/test_certs_sync_covers_consumers.py:87-108 | Every group of the file is mapped to exactly the direct hosts of all groups reachable from it. |
| `GitlabRbac.AdminsExactAndConverge` | roles/gitlab_rbac/_archive/reconcile.rb:33-49 | The listed users are admins; with exactness enforced no other human is, root aside, and without it nobody is demoted; bots and root are never demoted and unlisted accounts never promoted; a second run changes nothing. |
| `GitlabGroups.GroupsConverge` | roles/gitlab_rbac/_archive/reconcile.rb:53-88 | In particular, with unique groups and each parent present or listed before, one run brings every group to its settings, touches no other, and a second run makes no change. |
| `GitlabGroups.GroupsReachedExactly` | roles/gitlab_rbac/_archive/reconcile.rb:53-88 | One run reaches every group that is not refused if and only if each finds its parent, or itself, among the paths that exist at its turn. |
| `GitlabGroups.OrderDecides` | roles/gitlab_rbac/_archive/reconcile.rb:53-88 | On an instance whose subgroups have their parents, and with refusals that go by name, one run reaches every group that is not refused if and only if each of them has its parent there already, or listed before it and not refused. |
| `GitlabGroups.PlacedExactlyInOrder` | roles/gitlab_rbac/_archive/reconcile.rb:53-88 | When nothing is refused, every listed group is at its own path with its settings after one run if and only if no group is listed before a parent it needs. |
| `GitlabGroups.SecondPassSilentExactly` | roles/gitlab_rbac/_archive/reconcile.rb:53-88 | With unique groups, a second run counts no change if and only if every group had its place at its turn, or does not find its parent after the run either; and then it writes nothing. |
| `GitlabGroups.ChildFirstDoesNotConverge` | roles/gitlab_rbac/_archive/reconcile.rb:64-68 | A child listed before its parent is created at the top level, and the second run creates it again. |
| `GitlabMembers.MembersExactAndConverge` | roles/gitlab_rbac/_archive/reconcile.rb:92-127 | After a run the direct human members of the managed groups, root aside, are exactly the desired pairs whose user exists, at the desired level; root, bots and other groups are untouched; nothing is refused; a second run changes nothing. |
| `GitlabMembers.MembersSettleExactly` | roles/gitlab_rbac/_archive/reconcile.rb:92-127 | On every instance, with pairs listed once: the run is not stopped and the members are exact if and only if no grant that has something to write comes, at its turn, below a higher one in a group above on an instance that refuses that; and exactly then a second run counts no change. |
| `GitlabMembers.TakenConverges` | roles/gitlab_rbac/_archive/reconcile.rb:92-127 | With no grant refused, the members are exact, everything else keeps what it had, and a second run finds nothing to do. |
| `GitlabMembers.RefusedIsMissing` | roles/gitlab_rbac/_archive/reconcile.rb:112-127 | The first refused grant stops the program, or is missing at the end while all before it are in force. |
| `GitlabMembers.PrunedExactly` | roles/gitlab_rbac/_archive/reconcile.rb:95-110 | The prune removes exactly the direct human grants of managed groups that are neither desired nor root's. |
| `GitlabMembers.PruneFirstMatters` | roles/gitlab_rbac/_archive/reconcile.rb:95-110 | A stale owner grant on the parent makes the lower grant on the subgroup fail; pruned first, the same step applies. |
| `GitlabProjects.DeletedExactly` | roles/gitlab_rbac/_archive/reconcile.rb:130-136 | Deleting removes exactly the listed projects, and counts nothing exactly when none of them was there. |
| `GitlabProjects.ProjectSettled` | roles/gitlab_rbac/_archive/reconcile.rb:141-173 | A project step brings its project to the desired state, and changes nothing exactly when it is there already. |
| `GitlabProjects.ProjectsConverge` | roles/gitlab_rbac/_archive/reconcile.rb:141-173 | When entries for one project agree, the projects section converges in one run and leaves projects it does not name. |
| `GitlabProjects.ProjectsConvergeExactly` | roles/gitlab_rbac/_archive/reconcile.rb:130-173 | For any lists, a second run of deletion and creation counts no change if and only if no creatable project is also to be deleted, and entries for one project that is there or can be created set nothing to different values; and then it leaves the state. |
| `GitlabKeys.KeysSettleExactly` | roles/gitlab_rbac/_archive/reconcile.rb:234-260 | For any list, a second run counts no change if and only if entries for one existing account declare the same labels with the same keys. |
| `GitlabKeys.KeysConverge` | roles/gitlab_rbac/_archive/reconcile.rb:234-260 | Then, after a run, every listed person's keys titled `ansible:` are exactly the declared ones, other keys and other accounts are untouched, and a second run changes nothing. |
| `GitlabRbac.SecondRunSilentExactly` | roles/gitlab_rbac/_archive/reconcile.rb:33-260 | With no group and no membership declared twice: the run is not stopped and a second run reports changes=0 if and only if every group rests where the first run left it, no grant with something to write is refused, no deletion takes a project that is created, and entries for one project and for the keys of one account agree; and then the second run leaves the whole state. |
| `GitlabRbac.SecondRunSilent` | roles/gitlab_rbac/_archive/reconcile.rb:33-260 | In particular, for a well-formed desired state one run reaches it in every modelled section (admins, groups, members, projects, SSH keys), leaves the rest, and a second run from its final state writes nothing and reports changes=0. |
| `GitlabDeclared.GrantsLeftExactly` | roles/gitlab_rbac/_archive/reconcile.rb:92-127 | Whatever is declared, and even if the run is stopped: on a declared group (its parent's components and its own path) a person's direct grant is left exactly when it is listed; every other grant is left, and none appears that is not listed. |
| `GitlabDeclared.RunMeans` | roles/gitlab_rbac/_archive/reconcile.rb:53-260 | For a well-formed desired state, entry by entry: each declared group is at its path with its settings, each listed membership has its level, each project has the fields its entries set and else what it had or a new private project has, each person's managed keys are the declared ones; what is not declared is as it was. |
| `GitlabProjects.FieldsComeFrom` | roles/gitlab_rbac/_archive/reconcile.rb:141-173 | Over any list of entries, every field of every project is as it was before, or as an entry for that project says. |
| `GitlabRbac.Instance.ReconcileAdmins` | roles/gitlab_rbac/_archive/reconcile.rb:33-49 | Demotion and promotion in place, as the admin function says. |
| `GitlabRbac.Instance.ReconcileGroups` | roles/gitlab_rbac/_archive/reconcile.rb:53-88 | The group loop writes and counts as the fold of group steps says. |
| `GitlabRbac.Instance.PruneMembers` | roles/gitlab_rbac/_archive/reconcile.rb:99-110 | The nested prune loops remove and count what the prune function says. |
| `GitlabRbac.Instance.AddMembers` | roles/gitlab_rbac/_archive/reconcile.rb:112-127 | The membership loop writes, counts and stops at a refused grant as the fold of member steps says. |
| `GitlabRbac.Instance.DeleteProjects` | roles/gitlab_rbac/_archive/reconcile.rb:130-136 | The deletion loop removes and counts as its fold says. |
| `GitlabRbac.Instance.ReconcileProject` | roles/gitlab_rbac/_archive/reconcile.rb:141-173 | One project: created when absent and its group exists, then brought to the fields that are declared; the count is the number of writes. |
| `GitlabRbac.Instance.ReconcileUserKeys` | roles/gitlab_rbac/_archive/reconcile.rb:235-260 | One person's keys: managed ones no longer declared go, declared ones are added or replaced when type or body differ. |
| `GitlabRbac.Instance.Reconcile` | roles/gitlab_rbac/_archive/reconcile.rb:33-270 | Sections 2 to 6 and the SSH keys of section 10, in order: final state and change count are those of the composed section functions. |
| `JumpServer.AssetsConverge` | roles/jumpserver/_archive/reconcile.py:119-175 | With unique asset names, after a run every configured asset has exactly its declared address, node, port and account, and other assets are untouched; a second run counts nothing if and only if every key keeps its public half, and then it writes nothing. |
| `JumpServer.ReachedIsSettled` | roles/jumpserver/_archive/reconcile.py:39-53 | An asset already as declared is left alone although the loaded key text differs, as long as the public half is the same. |
| `JumpServer.RunBalanced` | roles/jumpserver/_archive/reconcile.py:119-175 | The counters account for the number of hosts and accounts: what was added, less the stale accounts dropped. |
| `JumpServer.RunTallyTotal` | roles/jumpserver/_archive/reconcile.py:348-352 | The sum of the five counters is the number of counted changes of the run. |
| `JumpServer.SecretFollowsKey` | roles/jumpserver/_archive/reconcile.py:150-170 | After its step an account's secret reads like the key, so it can be read exactly when the key can; one that could not be read is the key's text afterwards exactly when the key can be read, or was its text already, and is otherwise kept. |
| `JumpServer.ReadableExactly` | roles/jumpserver/_archive/reconcile.py:119-175 | After a run every configured account holds a secret that can be read if and only if every key file loads as a key that can be read; a secret that could not be read has been replaced exactly when its key can be read, or was its text already. |
| `JumpServer.RunGivesAccount` | roles/jumpserver/_archive/reconcile.py:154-170 | A run gives each asset the account that its own step would have given it at the start. |
| `JumpServer.UnreadableStays` | roles/jumpserver/_archive/reconcile.py:52-53 | When neither the stored secret nor the key can be read and their texts differ, the old secret is still there after the run. |
| `JumpServer.UnreadableExample` | roles/jumpserver/_archive/reconcile.py:52-53 | Gives such an input for any two different texts. |
| `JumpServer.FirstUseDecides` | roles/jumpserver/_archive/reconcile.py:150-153 | The key of a file is the one loaded with the passphrase of the first asset that uses the file. |
| `JumpProgram.Bastion.ReconcileAsset` | roles/jumpserver/_archive/reconcile.py:121-175 | One asset: host, node, port, account and key in place, stale accounts dropped, each counter as the tally function says. |
| `JumpProgram.Bastion.ReconcileAssets` | roles/jumpserver/_archive/reconcile.py:119-175 | The loop with its key cache: final state and all five counters are those of the fold over the resolved assets; with unique names every asset is as the raw configuration says, value by value. |
| `JumpProgram.Bastion.Configure` | roles/jumpserver/_archive/reconcile.py:133-152 | One asset's values, computed from its own and the defaults. |
| `JumpDeclared.RunMeans` | roles/jumpserver/_archive/reconcile.py:119-175 | With unique names, over the raw configuration: after a run port, account, privilege and key file of each asset are its own values where it has them, else the defaults, else 22, root, no and the fixed file; one account is left; its secret reads like that key file, loaded with the passphrase its first user brings; other names keep what they had. |
| `JumpDeclared.ResolvedIs` | roles/jumpserver/_archive/reconcile.py:133-152 | Which value wins for each field; the default passphrase goes with the default key file only. |
| `JumpDeclared.OwnValuesWin` | roles/jumpserver/_archive/reconcile.py:133-152 | Where an asset has values of its own the defaults do not matter. |
| `DiscordGuild.GuildConverges` | roles/discord_guild/_archive/discord_reconcile.py:44-131 | With channel and webhook names unique across categories, one run brings roles, parents, topics, announce overwrites and webhook channels to the desired state, leaves existing roles and the channels and webhooks that are not named, and the next run makes no write and posts no ready message. |
| `DiscordGuild.ReachedIsLeftAlone` | roles/discord_guild/_archive/discord_reconcile.py:44-131 | A server on which everything is as desired is left alone, and nothing is posted. |
| `DiscordGuild.ChannelsConverge` | roles/discord_guild/_archive/discord_reconcile.py:76-105 | Categories and channels reach the desired state in one pass over the nested loops; a second pass makes no change. |
| `DiscordGuild.HooksConverge` | roles/discord_guild/_archive/discord_reconcile.py:108-126 | Webhooks reach their channels in one pass; a second pass makes no change. |
| `DiscordGuild.ItemsOrdered` | roles/discord_guild/_archive/discord_reconcile.py:77-83 | In the nested loops every channel is handled after its category. |
| `DiscordGuild.ListedAfter` | roles/discord_guild/_archive/discord_reconcile.py:76-95 | The channels the program knows afterwards are those listed at the start and those it names. |
| `DiscordProgram.Program.ReconcileChannel` | roles/discord_guild/_archive/discord_reconcile.py:83-105 | One channel is created, patched in exactly the fields that differ, or left alone; one change per request. |
| `DiscordProgram.Program.ReconcileChannels` | roles/discord_guild/_archive/discord_reconcile.py:76-105 | The nested loops are the fold of item steps; the announcements channel is reported exactly when this run created it. |
| `DiscordProgram.Program.ReconcileHooks` | roles/discord_guild/_archive/discord_reconcile.py:108-126 | The nested webhook loops are the fold of hook steps, and the output map gives exactly the desired webhooks the ids the server has for them. |
| `DiscordProgram.Program.Reconcile` | roles/discord_guild/_archive/discord_reconcile.py:44-134 | The whole program: the reported changes are the write requests made; the ready message is posted exactly when a declared announcements channel is new and it is asked for; the printed map holds exactly the declared webhooks, each with its id on the server and the channel that declares it; roles, channels and webhooks are as declared. |
| `DiscordDeclared.RunMeans` | roles/discord_guild/_archive/discord_reconcile.py:44-131 | With unique channel and webhook names, over the declared categories: each channel is in its category with its topic, and read-only but for the administrators and the bot if it is for announcements; each webhook is on the channel that declares it; what is not declared is as it was; a second run is silent. |
| `DiscordDeclared.HookSpecsAre` | roles/discord_guild/_archive/discord_reconcile.py:110-115 | Wanted are exactly the non-empty webhook names of the declared channels, each for its own channel. |
| `DiscordDeclared.ItemsAre` | roles/discord_guild/_archive/discord_reconcile.py:77-83 | The nested loops come by exactly the declared categories and their channels. |
| `DiscordDeclared.ReadyExactly` | roles/discord_guild/_archive/discord_reconcile.py:128-131 | The ready message is due exactly when it is asked for, a declared channel is called announcements and the server has none. |
| `VaultArchive.DstInjective` | roles/service_decommission/_archive/vault_archive_secret.py:29 | Two names never share an archive path. |
| `VaultArchive.MovesWellLaid` | roles/service_decommission/_archive/vault_archive_secret.py:29 | Every destination is an archive path, differs from its source and belongs to one source. |
| `VaultArchive.NothingLost` | roles/service_decommission/_archive/vault_archive_secret.py:28-44 | In every state a crash or failed request can leave, even with a server that loses or garbles copies, each document that is no listed destination has its data at its own path or at an archive path. |
| `VaultArchive.RunKeepsTrail` | roles/service_decommission/_archive/vault_archive_secret.py:30-40 | Along every run the data can be followed: each path it left is empty and the last one of the trail holds it. |
| `VaultArchive.ArchivedIsReachable` | roles/service_decommission/_archive/vault_archive_secret.py:28-44 | The undisturbed run is a run of the step machine. |
| `VaultArchive.RerunSilentExactly` | roles/service_decommission/_archive/vault_archive_secret.py:28-44 | For any list, a rerun reports CHANGED=0 if and only if in the first run no move had something to put where an earlier one had taken from and no later one took from; and then it leaves the store. |
| `VaultArchive.RerunArchivesAgain` | roles/service_decommission/_archive/vault_archive_secret.py:28-44 | A list that names a secret's archive path before the secret is not silent on a rerun. |
| `VaultArchive.RerunSilent` | roles/service_decommission/_archive/vault_archive_secret.py:28-44 | In particular, when no listed name's source is another's destination, a rerun changes nothing and reports CHANGED=0. |
| `VaultArchive.RunArchives` | roles/service_decommission/_archive/vault_archive_secret.py:27-44 | For secrets that lie apart, over their names: each one that was there is at its archive path with its data and no longer at its own, and the rest of the store is as it was. |
| `VaultArchive.CountsTheFound` | roles/service_decommission/_archive/vault_archive_secret.py:41-44 | CHANGED is the number of listed secrets there were, when no source is a destination. |
| `VaultLoss.LosslessExactly` | roles/service_decommission/_archive/vault_archive_secret.py:28-42 | With an honest server every document can be followed through every run, whatever the list and wherever it is cut off, if and only if no document is copied, at its turn, over a different one. |
| `VaultLoss.LosslessWithAnyServer` | roles/service_decommission/_archive/vault_archive_secret.py:28-42 | With a server that may lose or garble copies it can if and only if nothing can come to be archived to where a document is at the start. |
| `VaultLoss.IndependentLossless` | roles/service_decommission/_archive/vault_archive_secret.py:28-42 | When no listed name's source is another's destination, the first condition is told from the store at the start: no source meets a different document at its destination. |
| `VaultLoss.OverwriteLoses` | roles/service_decommission/_archive/vault_archive_secret.py:35 | A copy over a different document loses that document. |
| `VaultLoss.OccupiedLoses` | roles/service_decommission/_archive/vault_archive_secret.py:35-39 | A server that garbles copies loses a document that stands where one can come to be archived. |
| `VaultLoss.EmptiedFirst` | roles/service_decommission/_archive/vault_archive_secret.py:28-42 | A destination that an earlier listed move empties is no loss, although a document is there at the start. |
| `VaultArchive.Vault.ArchiveSecrets` | roles/service_decommission/_archive/vault_archive_secret.py:27-44 | The loop of GET, POST, GET and DELETE leaves the store and the counter the archive function says. |
| `ControllerFiles.NothingLost` | playbooks/controller-files.yml:89-118 | After any of the planned commands, in any order and cut off anywhere, every declared file is in place, every undeclared file is in its place or set aside under its own path, and what was set aside before is untouched. |
| `ControllerOrder.PlayKeepsExactly` | playbooks/controller-files.yml:89-118 | Wherever the play stops, no contents are lost if and only if its directories cannot all be made, or no undeclared file would, once they are made, replace one with other contents: one in the set-aside area, or one in a copy of the folder that is moved there. |
| `ControllerOrder.MadeExactly` | playbooks/controller-files.yml:92-97 | The directories can all be made exactly when none of them is, or lies under, a file of the set-aside area. |
| `ControllerOrder.OnlyNamesakes` | playbooks/controller-files.yml:99-112 | With its directories made, a file can replace one in a copy exactly when it is called like the place of the copy, and the copy holds a file with the copy's own name and other contents. |
| `ControllerOrder.CopyLostExample` | playbooks/controller-files.yml:89-112 | Folders with an empty set-aside area where the play, as planned, loses a file of a copy. |
| `ControllerLoss.NothingLostExactly` | playbooks/controller-files.yml:89-118 | Whatever planned commands have run, in any order and cut off anywhere, no contents are lost if and only if no undeclared file would replace one with other contents: one in the set-aside area, or one in a copy of the folder that can be moved there. |
| `ControllerLoss.DisplacingLoses` | playbooks/controller-files.yml:92-112 | With a copy of the folder in its place, a file moved over a file in it with other contents loses that. |
| `ControllerLoss.ReplacingLoses` | playbooks/controller-files.yml:108-112 | A file that would replace another one there loses it. |
| `ControllerFiles.EmptyAtItsTurn` | playbooks/controller-files.yml:114-118 | Deepest first, a dead directory is empty when its turn comes exactly when no declared file lies below it. |
| `ControllerFiles.RemovalsLeave` | playbooks/controller-files.yml:114-118 | The removals leave, of the dead directories, exactly those above a declared file, and fail exactly when there is one. |
| `ControllerFiles.SetAsideExactly` | playbooks/controller-files.yml:89-118 | A whole run puts every undeclared file and every copy of the folder in the set-aside area and leaves exactly the declared files and the directories above them; it fails if and only if one of those directories is neither a declared file's own nor the one above that. |
| `ControllerFiles.ReadyExample` | playbooks/controller-files.yml:89-118 | A folder, with an undeclared file and a copy beside it, on which these results apply. |
| `ControllerFiles.TwoDeepIsCovered` | playbooks/controller-files.yml:71-72 | Declared files at most two directories deep are enough for the run to succeed. |
| `ControllerFiles.ThreeDeepFails` | playbooks/controller-files.yml:71-72 | It fails when all declared files below a first-level directory lie three directories deep or more. |
| `ControllerFiles.ThreeDeepExample` | playbooks/controller-files.yml:71-72 | Such a folder exists: one declared file, three directories deep. |
| `ControllerPlay.AboveSortsFirst` | playbooks/controller-files.yml:60 | A directory's text sorts before the text of what lies in it, whatever the folding of letter case. |
| `ControllerPlay.SortSorts` | playbooks/controller-files.yml:60 | The reverse sort keeps every path, with its number of occurrences, in descending order of its folded text. |
| `ControllerPlay.DeadDirsDeepFirst` | playbooks/controller-files.yml:60-72 | The reverse sorted difference lists every dead directory once, and none before what lies in it. |
| `ControllerPlay.FiltersPlan` | playbooks/controller-files.yml:56-72 | From the listings, the filters compute exactly the undeclared files, the directories to make and the dead directories. |
| `ControllerPlay.NextCheckHolds` | playbooks/controller-files.yml:130-134 | After a set-aside run, even one whose removals failed, both conditions of the next check's assertion hold. |
| `ControllerPlay.Controller.Command` | playbooks/controller-files.yml:92-118 | One command in place, with its success, as the command function says. |
| `ControllerPlay.Controller.Task` | playbooks/controller-files.yml:108-118 | A task's loop goes through all its commands and fails when one did. |
| `ControllerPlay.Controller.Play` | playbooks/controller-files.yml:89-118 | The tasks run in order up to the first that fails. |
| `ControllerPlay.Controller.SetAside` | playbooks/controller-files.yml:56-118 | The play as a whole: conserves, sets aside, and succeeds exactly when every directory above a declared file is left alone. |
| `LineBlocks.BlockIsMaximalRun` | roles/crowdsec_agent/_archive/crowdsec-disable-local-lapi.py:39-54 | A line is removed exactly when it is a block's first line or in the unbroken run of blank or deeper lines right after one. |
| `LineBlocks.KeptInOrder` | roles/crowdsec_agent/_archive/crowdsec-disable-local-lapi.py:56-57 | The output is exactly the lines outside the blocks, unchanged and in order. |
| `LineBlocks.KeptUnderSameKey` | roles/crowdsec_agent/_archive/crowdsec-disable-local-lapi.py:34-36 | Every line of the output stands under the top-level key it stood under in the input. |
| `LineBlocks.KeptHasNoBlock` | roles/crowdsec_agent/_archive/crowdsec-disable-local-lapi.py:39-54 | The output has no block left. |
| `LapiBlock.RemoveServerBlock` | roles/crowdsec_agent/_archive/crowdsec-disable-local-lapi.py:25-63 | The nested index loops write exactly the lines outside the two-space `server:` blocks under `api:`, and report whether there was one. |
| `LineBlocks.BlockGoesOn` | roles/crowdsec_agent/_archive/crowdsec-disable-local-lapi.py:43-52 | Skipping inside lines after a line of a block leaves the output and the top-level key as they were. |
| `LapiBlock.SkipBlock` | roles/crowdsec_agent/_archive/crowdsec-disable-local-lapi.py:43-52 | The inner loop stops at the first line that is neither blank nor deeper than `server:`. |
| `LapiBlock.SecondRunUnchanged` | roles/crowdsec_agent/_archive/crowdsec-disable-local-lapi.py:59-63 | A second run reports UNCHANGED and leaves the file as it is. |
| `LapiBlock.RemovedExactly` | roles/crowdsec_agent/_archive/crowdsec-disable-local-lapi.py:30-54 | In terms of the characters of the lines: removed is exactly a line that is two blanks, `server:` and blanks, with `api` as the last top-level key above, or that follows such a line with only blank lines and lines of more than two blanks in between. |
| `LapiBlock.HasBlockExactly` | roles/crowdsec_agent/_archive/crowdsec-disable-local-lapi.py:39-63 | CHANGED exactly when there is such a line. |
| `LapiBlock.ColumnZeroKept` | roles/crowdsec_agent/_archive/crowdsec-disable-local-lapi.py:48-49 | Every line that is not blank and starts at column 0 survives. |
| `TokenRender.MatchIsShape` | scripts/deployment_vars.py:17 | The greedy scan matches at a place exactly when the token pattern does, with the same length and name. |
| `TokenRender.NameExactly` | scripts/deployment_vars.py:17 | A name is `platform_` and at least one small letter or underscore. |
| `Basics.SpacesAre` | scripts/deployment_vars.py:17 | Blank are exactly the listed control characters, the space and the blanks of Unicode. |
| `TokenRender.PiecesAreLeftmost` | scripts/deployment_vars.py:39 | The text is cut at the leftmost tokens that do not overlap. |
| `TokenRender.PiecesAreTheText` | scripts/deployment_vars.py:39 | Nothing of the text is dropped by the cutting. |
| `TokenRender.RenderReplacesTokens` | scripts/deployment_vars.py:30-39 | Rendering replaces exactly those tokens, leaves everything between them, and fails exactly when one has no value, naming the leftmost. |
| `TokenRender.TokenFreeIsFixed` | scripts/deployment_vars.py:39 | Rendering again changes nothing, whatever the values, exactly when no token is left. |
| `TokenValues.ValuesDecide` | scripts/deployment_vars.py:28-39 | Rendering resolves every token of every template if and only if no value that can be asked for is part of a token or holds one. |
| `TokenValues.FitsExactly` | scripts/deployment_vars.py:17 | A value without braces can complete a token exactly when it is blanks, name characters and blanks, with a name that begins or ends in it beginning or ending as names do. |
| `TokenValues.BraceFreeValuesDecide` | scripts/deployment_vars.py:28-39 | When no value holds a brace, every template is resolved if and only if no value that can be asked for is of that form. |
| `TokenValues.MeetingLeavesToken` | scripts/deployment_vars.py:28-39 | A value that meets a token leaves it in the output of the template that completes it. |
| `TokenValues.InertValuesResolveAll` | scripts/deployment_vars.py:28-39 | In particular values without braces, each with a character no token can hold, leave no token in the output. |
| `TokenValues.NestedBracesLeaveToken` | scripts/deployment_vars.py:28-39 | A template with nested braces whose output is a token again. |
| `TokenValues.TemplatesDecide` | scripts/deployment_vars.py:28-39 | A template is resolved whatever the values if and only if it holds no token: none with a token is safe against every value. |
| `TokenRender.NoLooseBraceResolvesAll` | scripts/deployment_vars.py:28-39 | A template without braces outside its tokens, rendered with values without braces, leaves no token in the output. |
| `CatalogNames.SplitExactly` | roles/opnsense/_archive/catalog_lint.py:14 | The suffix pattern takes a name apart exactly when the name is kind, family and rest put together, or that with a line feed after it. |
| `CatalogNames.PairChangesFamily` | roles/opnsense/_archive/catalog_lint.py:25-27 | The pair has the other family and the same kind and rest, and is never the name itself. |
| `CatalogNames.PairTwice` | roles/opnsense/_archive/catalog_lint.py:25-27 | The pair of the pair is the name if and only if the name has no line feed. |
| `CatalogNames.FamiliesMatch` | roles/opnsense/_archive/catalog_lint.py:37-40 | Without an unpaired alias, pairing is a bijection between the two families, which are equally many. |
| `CatalogNames.PairingReturnsExactly` | roles/opnsense/_archive/catalog_lint.py:25-27 | Pairing twice returns to every suffixed name of a set exactly when none of them has a line feed. |
| `CatalogNames.DropBracketsIsLeftmost` | roles/opnsense/_archive/catalog_lint.py:19 | The first substitution cuts the description where its leftmost match begins, and only where there is one. |
| `CatalogNames.DropWordIsLeftmost` | roles/opnsense/_archive/catalog_lint.py:20-21 | The other two replace their leftmost match by what closes it, and only where there is one. |
| `CatalogNames.TwinsShareTheirBase` | roles/opnsense/_archive/catalog_lint.py:18-22 | Whatever a rule is called, its two families have one base, for each of the three ways to mark the family. |
| `CatalogNames.UnmarkedKeepsItsBase` | roles/opnsense/_archive/catalog_lint.py:18-22 | A description without a marker keeps all but the blanks at its ends, so different ones stay apart. |
| `CatalogNames.OnlyTheWordIsCut` | roles/opnsense/_archive/catalog_lint.py:21-22 | Of a description with the bare marker nothing is cut but that. |
| `CatalogNames.OnlyTheBracketIsCut` | roles/opnsense/_archive/catalog_lint.py:19-22 | Of one with the bracketed marker, nothing but that. |
| `CatalogLint.NamesAreThePresent` | roles/opnsense/_archive/catalog_lint.py:32 | The names taken into account are exactly those of the aliases that are present. |
| `CatalogLint.FamiliesAreGroups` | roles/opnsense/_archive/catalog_lint.py:56 | The grouping holds, for every base, the rules with that base, by family. |
| `CatalogLint.ByFamilyKeepsLast` | roles/opnsense/_archive/catalog_lint.py:56-60 | Of each family a group keeps the last rule, and it begins with the family of its first. |
| `CatalogLint.LintPassesExactly` | roles/opnsense/_archive/catalog_lint.py:30-69 | No violation if and only if every suffixed alias has its pair, every rule is well formed by itself, and every group has both families, a rule for both, or nothing that needs a twin in the last rule of the family it begins with. |
| `CatalogLint.TwinnedExactly` | roles/opnsense/_archive/catalog_lint.py:56-65 | Every rule that needs a twin has one if and only if every group is in order and rules of one base and family that have no twin need one alike. |
| `CatalogLint.PassingIsTwinnedExactly` | roles/opnsense/_archive/catalog_lint.py:56-65 | In a catalog that passes, every rule that needs a twin has one if and only if rules of one base and family that have no twin need one alike. |
| `CatalogLint.PassingRulesHaveTwins` | roles/opnsense/_archive/catalog_lint.py:57-65 | In a catalog that passes, with one rule per base and family, every rule on a suffixed scope of a dual-stack interface has a twin. |
| `CatalogLint.LaterRuleHidesEarlier` | roles/opnsense/_archive/catalog_lint.py:56-65 | Without that, a later rule of the same base and family hides an earlier one: the verdict on the groups does not depend on the earlier rule's scope and interface, while its twin stays missing. |
| `CatalogLint.UntwinnedRulePasses` | roles/opnsense/_archive/catalog_lint.py:56-65 | A catalog of two aliases and two rules that passes although its first rule needs a twin and has none. |
| `CatalogLint.UntwinnedExample` | roles/opnsense/_archive/catalog_lint.py:56-65 | Such rules exist for every suffixed name, description and dual-stack interface. |
| `CatalogLint.Lint` | roles/opnsense/_archive/catalog_lint.py:30-69 | The loops append exactly the violations, in order. |
| `CatalogReport.ReportsExactly` | roles/opnsense/_archive/catalog_lint.py:30-69 | Each violation is reported if and only if it is one, read off the catalog: an alias present without the alias of its other family, a field that holds no present alias and none of the three words, an unknown family, ports with another protocol than the three, a base with rules of one family whose last rule of the first family names a suffixed alias on a dual-stack interface. |
| `CatalogLint.LintTwins` | roles/opnsense/_archive/catalog_lint.py:57-65 | The twin loop appends exactly the twin violations, in order. |
| `Ratchet.Ratchet` | scripts/check_no_embedded_scripts.py:181-192 | The loops find exactly the counts that rose, each with the count allowed, and whether any went down. |
| `Ratchet.AgreesExactly` | scripts/check_no_embedded_scripts.py:181-192 | Nothing rose and nothing went down exactly when every file has in every category the count of the baseline. |
| `Ratchet.BaselineOnlyGoesDown` | scripts/check_no_embedded_scripts.py:204-216 | Over any runs on any trees the baseline rises for no category and file, and it is rewritten at most its first total of times. |
| `Ratchet.NeverAboveEarlier` | scripts/check_no_embedded_scripts.py:204-216 | At every moment of a history the baseline is nowhere above what it was at an earlier one. |
| `Ratchet.RunAgain` | scripts/check_no_embedded_scripts.py:207-216 | A tree with a rise leaves the baseline; any other tree passes once the run has rewritten it. |
| `Ratchet.TotalGoesDown` | scripts/check_no_embedded_scripts.py:173-174 | Counts nowhere higher have no higher total, and a lower one when one of them is lower. |
| `Ratchet.Guard.Run` | scripts/check_no_embedded_scripts.py:204-216 | A `--ratchet` run rewrites the baseline as the step function says and exits with 0 exactly when all counts agree. |
| `TaskTree.EveryTaskOnce` | scripts/check_no_embedded_scripts.py:107-114 | The walk yields, each exactly once, the mappings at all task-level positions: a list's item, and below it what stands in the first entry of one of the seven structural keys. |
| `TaskTree.WalkFinds` | scripts/check_no_embedded_scripts.py:107-114 | What is yielded is, in order, what stands at the positions walked to. |
| `TaskTree.WalkIsExact` | scripts/check_no_embedded_scripts.py:107-114 | The positions walked to are exactly those at which a mapping is looked up, each once. |
| `TaskTree.AtExactly` | scripts/check_no_embedded_scripts.py:107-114 | Looked up at a position is exactly the mapping that stands there. |
| `TaskTree.CountTasks` | scripts/check_no_embedded_scripts.py:138-141 | The count of tasks that use a module is the number of those positions at which one stands. |
| `RemovedVars.WordsAreRuns` | scripts/check_inventory_removed_vars.py:72 | The words of a text are exactly its maximal runs of word characters. |
| `RemovedVars.WordCharsAre` | scripts/check_inventory_removed_vars.py:72 | Word characters are letters, digits and the underscore, by their codes. |
| `RemovedVars.SearchesAgreeExactly` | scripts/check_inventory_removed_vars.py:72 | The look-around search for a name agrees with the search among a text's words on every text if and only if the name is a word. |
| `RemovedVars.Readers` | scripts/check_inventory_removed_vars.py:70-83 | The files reported are exactly the readable code files in which the search succeeds, in order. |
| `RemovedVars.NamesByEnv` | scripts/check_inventory_removed_vars.py:55-62 | Per environment, exactly the union of what its files declare; files outside the inventories are ignored. |
| `RemovedVars.RemovedExactly` | scripts/check_inventory_removed_vars.py:65-67 | Removed is exactly what an environment's files declared in the base and none of them declares now. |
| `RemovedVars.Check` | scripts/check_inventory_removed_vars.py:125-135 | Reported is exactly what is removed, not accepted and still read, with its readers. |
| `RemovedVars.SilentExactly` | scripts/check_inventory_removed_vars.py:125-135 | Nothing is reported, whatever the code, if and only if every environment still declares all it did. |
| `RemovedVars.MovesAreSilent` | scripts/check_inventory_removed_vars.py:55-67 | Splitting, joining or moving variables between files of one environment is never reported. |

## Left out

- FactSearch.OrderIndependent: stated for graphs without cycles; for every graph `FactTrust.HistoriesRightExactly` says exactly when all answers are right, and so independent of the order.
- TokenRender.NoLooseBraceResolvesAll: a sufficient condition on a template for values without braces; which values are safe for every template, and which templates for every value, is stated exactly.
- GitlabMembers.MembersExactAndConverge: a sufficient condition that is easy to read; the exact one is `GitlabMembers.MembersSettleExactly`.
- GitlabGroups.OrderDecides: for refusals that go by name, so that a path refused below its parent is refused at the top level too; for other refusals the exact condition is the one of `GitlabGroups.GroupsReachedExactly`, which follows the paths turn by turn.
- GitlabGroups.GroupsConverge: a sufficient condition that is easy to read; the exact ones are `GitlabGroups.GroupsReachedExactly` and `GitlabGroups.SecondPassSilentExactly`.
- GitlabRbac.SecondRunSilent: the same, with all the sections reached; the exact condition for a silent second run is `GitlabRbac.SecondRunSilentExactly`.
- VaultArchive.RerunSilent: a sufficient condition that is easy to read; the exact one is `VaultArchive.RerunSilentExactly`.
- VaultArchive.NothingLost: a document that is itself a listed destination is the subject of `VaultLoss.LosslessExactly` and `VaultLoss.LosslessWithAnyServer`.
- ControllerFiles.SetAsideExactly: the set-aside area is a tree of its own, sharing no path with what is moved into it; the area's name inside the folder and its escape in the patterns are not modelled.
- VaultArchive.RunArchives: for lists in which no two names mean one path and no path is another's archive path; what happens to documents on any list is the subject of `VaultLoss`.
- GitlabDeclared.RunMeans: for a well-formed desired state; what the prune leaves on any is `GitlabDeclared.GrantsLeftExactly`, and when a run settles `GitlabRbac.SecondRunSilentExactly`.
- CatalogLint.PassingRulesHaveTwins: one direction, under one rule per base and family; the exact condition is `CatalogLint.PassingIsTwinnedExactly`.
- CatalogNames.FamiliesMatch: names with a line feed are not counted, because pairing drops it and is no bijection on them.
- RemovedVars.NamesByEnv: the path pattern and the YAML of a file are inputs, an environment and a set of names per file.
- RemovedVars.Check: the problems are a set; the order they are printed in and the shortened list of readers are left out.
- JumpServer.AssetsConverge: address, node and privilege changes are written but not counted, as in the source; the permission grants, terminal settings, administrators and the SSH probe are left out.
- DiscordGuild.GuildConverges: one channel per name and type and one webhook per name, as the program's own dictionaries have it; for a name declared twice the server would come to hold two webhooks, or a patch of some fields only, which the maps do not capture; colours of roles, tokens of webhooks and rate limits are left out.
- GitlabRbac.Instance.Reconcile: sign-in settings, integrations, project files and GPG keys are left out; one key per title and one account per name.
- LapiBlock.RemoveServerBlock: the file is given as its lines; splitting the text into lines and joining them again are left out.
- Ratchet.Guard.Run: the baseline is changed by `--ratchet` only; `--update` replaces it by what is found. The order in which rises are printed is not modelled.
- Role files, playbooks and inventories are inputs: their YAML, the patterns that find facts, references and embedded scripts, and git itself are not modelled.
- HTTP requests are operations on a store that succeed or, for Vault, fail at any step; retries and paging are left out.
- Emptying the set-aside area is left out: it is one deletion asked for by name.
- Following imported playbooks is left out because the source records them and does not follow them.
- The other firewall scripts, the pin and literal checks and the small upsert programs are left out: they compare sets, match long patterns, or write one record when it differs.
