# Verification of Farrow's bookkeeping

Farrow manages one deployment of virtual machines from a small store of files. This project models the parts of it
whose correctness no finite test set can cover, and proves their laws with Dafny 4.11:

- **Deployment protocol** (`DeploymentStore`, `Commit`, `RetainedStore`, `Destroy`, `Rollback`, laws in
  `HashInvariant`, `Conservation`, `CommitLaws`, `CommitOutcome`, `DestroyLaws`, `CleanDestroy`, `DestroyRestart`,
  `DestroyStops`, `DestroyOutcome`, `RollbackOutcome`, `DeploymentRuns`; the imperative form in
  `DeploymentOperations`). Every file write, rename and removal is one atomic step that works, is lost, or takes
  effect and is reported as failed. A crash is a sequence of steps that are all lost from some point on, so a law
  about every fault sequence is a law about every crash point.
- **Catalog registry** (`Registry`, `RegistryLaws`, `RegistryAdmission`, `RegistryManager`) with the same steps,
  across binary upgrades.
- **Hosts file** (`HostsFile`, `HostsEdit`, `HostsLaws`, `HostsOutcome`, `HostsEditor`): block parser, renderer and
  editor over bytes.
- **Inventory** (`YamlGraph`, `MergeLaws`, `MappingLaws`, `YamlReader`, `Variables`, `Groups`, `GroupsOutcome`,
  `Namesakes`, `GroupCollector`): alias and merge graphs that may be cyclic, layered variables, and the groups around
  a host.
- **Configuration** (`Configuration`, `ConfigurationOutcome`, `ConfigValidator`): the rules over all pairs, and the
  resolved form.
- **Download and prune** (`Download`, `DownloadOutcome`, `Prune`) against arbitrary servers. Every state of the files
  is recorded in a history, so what is proved of every entry holds wherever the program is killed.
- **Runtime audit and convergence** (`RuntimeAudit`, `Convergence`, `StatusOutcome`), **ports** (`Ports`,
  `PortRepair`), **versions** (`Versions`), **locks** (`Locks`), **diagnostic log** (`EventLog`) and **shell quoting**
  (`Shell`).

Code that computes is modelled by functions; code that changes fields, maps or files step by step is modelled by methods
and classes, each proved to do exactly what its specification function does, and the laws are proved about that function.
The modules named after an outcome or an admission say what an operation does without naming its specification's own
decisions: what was asked for, what is on disk, what a server answers, what the host shows.
Digests and node hashes are injective and therefore modelled by what they hash. `Wrappers`, `Texts`, `Collections`,
`Decimals` and `Digests` hold what several components share.

Results that differ from what one would expect of the code:

- The hosts limit of 1 MiB is checked on input only, so an accepted install can write a file that is refused later
  (`HostsLaws.InstallCanOutgrowLimit`); idempotence holds exactly for results within the limit.
- The default registry can accept other bytes under the embedded version, even in a sync without permission to
  downgrade, and is then unreadable until it is reset (`RegistryLaws.EquivocationIsReachable`);
  `RegistryLaws.SyncThenCurrent` gives the exact condition.
- A destroy that is cut short is not always restartable. Once it has moved a persistent disk and until that node's
  state is removed, every later destroy is refused (`DestroyStops.KilledAfterMoveIsRefused`,
  `DestroyLaws.MovedDiskRefusesDestroy`); a stop between marking and the first move, or inside a preservation, can refuse
  too, through the recorded phase or an incomplete store. `DestroyRestart.RestartIsExact` gives the exact condition. What
  holds at every point is that no disk is lost.
- Validation does not check the sign of the SSH wait timeout, planning does; a caller that builds a file must not make it
  negative (`Configuration.ResolveMeetsPlanning`). Files that are read never are (`Configuration.ReadFilesArePlannable`).
- Different groups of one name at one depth count as one when variables are looked up, which can hide a conflict
  (`Namesakes.InventoryHidesConflict`); `Variables.DedupeIsExact` gives the exact condition.

## Model

| member | source | states |
|---|---|---|
| `HostsFile.ParseIsExact` | internal/hostconfig/hostconfig.go:97-146 | The parser accepts exactly the readable files without a marker line, and the readable files with one well-formed block, whose byte range it reports. |
| `HostsFile.ParseFindsBlock` | internal/hostconfig/hostconfig.go:97-146 | Whatever block is reported, its bytes run from the start of a begin line to the end of the end line of the only block. |
| `HostsFile.ParseAcceptsBlock` | internal/hostconfig/hostconfig.go:97-146 | Conversely, every readable file whose lines hold one block is accepted with that block. |
| `HostsEditor.ParseBlocks` | internal/hostconfig/hostconfig.go:97-146 | The byte loop with its active and blocks variables reports the same errors and the same block as the line scan. |
| `HostsEditor.ValidateEntries` | internal/hostconfig/hostconfig.go:160-192 | The loop with its address and name maps accepts exactly non-empty entries with valid, distinct addresses, valid names without repetition, and no name in two entries. |
| `HostsEditor.RenderBlock` | internal/hostconfig/hostconfig.go:194-212 | The rendered bytes are the begin line, one line per entry in order, and the end line, each ended by a newline. |
| `HostsEditor.ValidateNoConflicts` | internal/hostconfig/hostconfig.go:214-246 | Accepts exactly when no line outside the block maps a name of the entries to another address. |
| `HostsEditor.ReconcileContent` | internal/hostconfig/hostconfig.go:257-300 | The editor returns the same error or the same new content, block lines and changed flag as the specified reconciliation, for every action. |
| `HostsLaws.InstalledParses` | internal/hostconfig/hostconfig.go:257-300 | An installed file parses to exactly one block at the rendered bytes if it fits the limit, and is refused as too large otherwise. |
| `HostsLaws.InstallPreservesOutside` | internal/hostconfig/hostconfig.go:257-300 | Around the block that the parser finds in the result stand the bytes that stood around the old block; without an old block the file only gains a final newline. |
| `HostsLaws.InstallOverOuter` | internal/hostconfig/hostconfig.go:257-300 | Whether an install is accepted, and what it writes, depends only on the lines around the block. |
| `HostsLaws.InstallIsIdempotent` | internal/hostconfig/hostconfig.go:257-300 | A second install reports no change and the same bytes if and only if the first result fits the input limit. |
| `HostsLaws.LastInstallWins` | internal/hostconfig/hostconfig.go:257-300 | Install of second entries after first ones equals install of the second entries on the original file, errors included, when the intermediate file fits the limit, and is refused as too large otherwise. |
| `HostsLaws.UninstallUndoesInstall` | internal/hostconfig/hostconfig.go:257-300 | Uninstall after install gives the original file without its block (a file without a block comes back with at most its missing final newline added) when the installed file fits the limit, and is refused as too large otherwise. |
| `HostsLaws.UninstallIsIdempotent` | internal/hostconfig/hostconfig.go:502-515 | Uninstalling a file that has no block changes nothing. |
| `HostsLaws.InstalledNamesResolve` | internal/hostconfig/hostconfig.go:214-300 | After an accepted install the whole file maps an installed name to its declared address and no other, and every other name as the lines outside the old block did. |
| `HostsLaws.DeclaredOnce` | internal/hostconfig/hostconfig.go:160-192 | Among valid entries a name has one address. |
| `HostsLaws.LimitIsOnInput` | internal/hostconfig/hostconfig.go:97-105 | On a file of exactly the limit every accepted install writes a file that the parser then refuses. |
| `HostsLaws.InstallCanOutgrowLimit` | internal/hostconfig/hostconfig.go:97-105 | A concrete blank file of 1 MiB and one entry for which that happens. |
| `HostsOutcome.AcceptanceIsExact` | internal/hostconfig/hostconfig.go:214-300 | An install is accepted if and only if the file parses, the entries are valid, and outside the old block no name of theirs is mapped to another address; a line that already maps a name to the same address is no obstacle; an uninstall if and only if the file parses and no entries come with it. |
| `HostsOutcome.ReportIsExact` | internal/hostconfig/hostconfig.go:257-300 | A change is reported exactly when the bytes differ, and an install reports one line per entry, which maps exactly its names to its address. |
| `HostsOutcome.NodeAddressIsExact` | internal/hostconfig/hostconfig.go:160-192 | A node address is exactly the plain dotted text of four bytes in a private range whose last one is from 9 to 254. |
| `HashInvariant.AdditiveKeepsHashes` | internal/private/commit.go:44-74 | An additive change of the deployment state leaves the hash of every node that has a state as it was. |
| `HashInvariant.EnsureKeepsConsistent` | internal/private/commit.go:76-91 | Writing the deployment state, refused or faulted or not, keeps recorded nodes and hashes in agreement, and on success stores exactly the wanted state. |
| `HashInvariant.CommitKeepsConsistent` | internal/private/commit.go:142-187 | At every crash point of a commit each node with a state is listed under the hash of its listed definition. |
| `HashInvariant.FinalizeShrinks` | internal/private/commit.go:189-217 | Finalizing adds no state and no directory and leaves the deployment state alone. |
| `HashInvariant.DestroyKeepsConsistent` | internal/private/destroy.go:131-311 | At every crash point of a partial or whole destroy the remaining states are listed in the deployment state under their own hashes. |
| `HashInvariant.WholeSelection` | internal/private/manager.go:378-403 | As many distinct known names as there are nodes select every node, so comparing lengths detects a partial destroy. |
| `Commit.CommitOneShape` | internal/private/commit.go:153-185 | Committing one node, with any faults, does nothing, or adds the missing state, or adds it and marks the journal; nothing else on disk changes. |
| `CommitLaws.CommitKeepsStates` | internal/private/commit.go:153-185 | No commit, whatever its configuration and faults, changes a node state that exists. |
| `CommitLaws.CommitRestarts` | internal/private/commit.go:142-187 | A commit that would succeed undisturbed and was cut short anywhere succeeds when run again later, keeps every state already written, and ends like the undisturbed commit up to recorded times. |
| `CommitLaws.FaultedOne` | internal/private/commit.go:153-185 | Wherever committing one node stops, an undisturbed commit of it from there ends in the same disk. |
| `CommitOutcome.NewStatesAreAccounted` | internal/private/commit.go:93-187 | With any faults, every state that a commit writes or returns belongs to an outcome whose journal was that of a finished prepare of this node under this plan, and records a prepared node with the planned identity, the paths, disks, NVRAM and invocation of the artifacts, created when the prepare began; every journal is as it was or marked as committed now. |
| `CommitOutcome.ResultIsExact` | internal/private/commit.go:142-187 | The returned nodes are exactly the outcomes with artifacts and the failures exactly those without, in order; a commit that stops early returns a first part of them. |
| `CommitOutcome.CommitSucceeds` | internal/private/commit.go:44-187 | An undisturbed commit succeeds if and only if there is no deployment yet or the configuration keeps its envelope, every name, and the definition of every name with a state, and every outcome with artifacts is that of a finished prepare that no other record contradicts. |
| `CommitOutcome.FinalizeIsExact` | internal/private/commit.go:189-217 | Finalizing changes nothing or removes exactly the journal; undisturbed it succeeds exactly when the journal is marked as committed and the state records what it prepared. |
| `CommitOutcome.CommittedCanBeFinalized` | internal/private/commit.go:142-217 | After a commit that reports success, whatever happened on the way, every node with artifacts can be finalized. |
| `Rollback.CommittedNodesAreSafe` | internal/private/rollback.go:65-69 | A rollback of a node whose state exists is refused and changes nothing. |
| `Rollback.NoJournalNoRollback` | internal/private/rollback.go:54-57 | Without a valid journal a rollback is refused and changes nothing. |
| `Rollback.RollbackChecksFirst` | internal/private/rollback.go:48-140 | A disk changed by a rollback had passed all checks before the first deletion; only that directory changes, it gains no file, and success removes it. |
| `Rollback.DryRunChangesNothing` | internal/private/rollback.go:106-140 | Without apply nothing changes, and it is accepted exactly when all checks pass. |
| `Rollback.CleanRollback` | internal/private/rollback.go:106-140 | An allowed, undisturbed rollback removes exactly the node directory. |
| `Rollback.RollbackRestarts` | internal/private/rollback.go:106-140 | A rollback cut short while its journal is left is allowed again and then ends exactly where an undisturbed one ends. |
| `RollbackOutcome.ScanFindsLast` | internal/private/rollback.go:25-46 | The scan of the arguments succeeds exactly when every QMP argument is followed by a socket and every pidfile argument by a path, and finds the last of each, the socket up to its first comma. |
| `RollbackOutcome.RollbackIsExact` | internal/private/rollback.go:48-140 | An undisturbed rollback or dry run goes ahead if and only if the journal is that of an uncommitted prepare of this node, no state exists, the named socket and pidfile are well formed and gone, and the directory holds nothing but journalled artifacts; both report the artifacts that exist from last to first and the journal; otherwise nothing changes. |
| `Conservation.PreserveKeepsDisk` | internal/persistent/store.go:321-391 | Preserving any disk, with any faults and its deferred compensation, keeps every persistent disk at exactly one of its two paths; on success the preserved one is in the store. |
| `Conservation.TargetsSparePersistent` | internal/private/destroy.go:45-98 | The removal list of a node names none of its persistent disks, at neither path. |
| `Conservation.DestroyOneKeepsDisk` | internal/private/destroy.go:237-269 | Preserving, removing and dropping one node, stopped anywhere, keeps every held disk at one path with its content. |
| `Conservation.DestroyConservesDisks` | internal/private/destroy.go:131-311 | So does every partial or whole destroy, at every crash point. |
| `Conservation.RefusedDestroyKeepsFiles` | internal/private/destroy.go:184-228 | A destroy refused by validation has at most relabelled phases: no file moved or went, and the deployment state and the store are untouched. |
| `DestroyOutcome.SelectionIsAsked` | internal/private/manager.go:378-403 | The selection exists exactly when every requested name is listed and none is repeated; then it holds exactly the listed names that were asked for, all of them without a request, and counts as partial exactly when some listed node was not asked for. |
| `DestroyOutcome.SenselessRequestsAreRefused` | internal/private/destroy.go:131-183 | Without a deployment, for an unlisted or repeated name, or for some of the nodes without permission, a destroy is refused and has no effect, whatever the faults. |
| `DestroyOutcome.UnaskedNodesAreUntouched` | internal/private/destroy.go:131-311 | At every crash point the directory of a node that was not asked for is exactly as it was. |
| `DestroyOutcome.SuccessIsAsAsked` | internal/private/destroy.go:131-311 | After a success exactly the nodes that were asked for are gone with their directories, and the deployment state is absent when all were, lists exactly the others in their order on removal, and is as it was otherwise. |
| `DestroyOutcome.DeploymentChangesLast` | internal/private/destroy.go:270-295 | At every crash point the deployment state is as it was, or no node that was asked for has a state any more and it is what a success leaves. |
| `DestroyOutcome.FilesGoFromMarkedNodes` | internal/private/destroy.go:230-269 | At every crash point a node is recorded as before, or as stopping, stopped or being destroyed, and it has lost no file before it is recorded as being destroyed. |
| `DestroyOutcome.AskedDestroySucceeds` | internal/private/destroy.go:131-311 | A destroy that nothing disturbs succeeds if and only if the request is sensible and permitted, the store agrees with the configuration, every recorded persistent disk is in place, and the nodes that were asked for can be stopped, are idle and hold only expected files. |
| `DestroyRestart.DestroyIsExact` | internal/private/destroy.go:131-311 | A destroy that nothing disturbs succeeds if and only if the selection is allowed, the retained store is complete and agrees with the configuration, every persistent disk that a state still records is at its recorded path, and the selected nodes that still have a state can be stopped, are idle and hold no unexpected file. |
| `DestroyRestart.RestartIsExact` | internal/private/destroy.go:131-311 | So after any destroy that was cut short or failed, rerunning any destroy succeeds exactly under those checks; and a node-local disk is at its recorded path exactly when it has not been moved to the store. |
| `DestroyRestart.PlanIsExact` | internal/private/destroy.go:184-228 | Validation accepts exactly under those checks, with every selected node stopped or prepared. |
| `DestroyRestart.StopIsExact` | internal/private/stop.go:143-205 | Without faults the selected nodes are all stopped or prepared after the stop exactly when all were stopped, or one ran or was prepared and none was in a phase that a stop refuses. |
| `CleanDestroy.DestroyEachSucceeds` | internal/private/destroy.go:237-269 | Preserving and removing nodes that are ready runs to the end: no disk is refused, no expected file is left, every node directory is empty when it is removed. |
| `DestroyStops.KilledAfterMoveIsRefused` | internal/private/destroy.go:237-262 | A concrete destroy of a stopped node, killed right after its disk was moved: every later destroy is refused. |
| `DestroyStops.KilledBeforeLastRemovalRestarts` | internal/private/destroy.go:255-269 | The same destroy, killed before the node directory is removed: running it again succeeds. |
| `DestroyLaws.MovedDiskRefusesDestroy` | internal/private/persistent.go:90-111 | While a state records a node-local path of a persistent disk that has moved, every destroy with any faults is refused and moves or removes nothing. |
| `DeploymentRuns.StatesMatchDeployment` | internal/private/integrations.go:67-74 | Over every run of prepares, commits, finalizations, rollbacks, destroys and updates from an empty deployment, each with its own faults, every recorded node is listed and its hash is that of the listed definition. |
| `DeploymentRuns.DisksAreNeverLost` | internal/private/destroy.go:131-311 | Over every such run a held persistent disk stays at exactly one of its two paths with its content. |
| `DeploymentRuns.CommittedDisksAreHeld` | internal/private/commit.go:93-185 | As soon as a commit has written a new state, whatever else of it fails, the persistent disks that the state records are in that guarantee. |
| `DeploymentRuns.StepKeepsConsistent` | internal/private/commit.go:76-187 | Every single event keeps states, hashes and recorded paths in agreement. |
| `DeploymentRuns.StepKeepsHeld` | internal/private/destroy.go:237-269 | Every single event keeps every held disk held. |
| `DeploymentOperations.Store.ValidateJournal` | internal/private/prepare_journal.go:19-63 | The loop with its seen set accepts exactly the journals that satisfy the journal invariant: allow-listed, distinct artifacts of this directory, an invocation exactly when prepared, the state path exactly when committed. |
| `DeploymentOperations.Store.ReadJournal` | internal/private/prepare_journal.go:65-91 | Returns the journal exactly when it exists and satisfies the invariant. |
| `DeploymentOperations.Store.AdditiveChange` | internal/private/commit.go:44-74 | The two map-based loops decide exactly the all-pairs condition: same envelope, every node kept, redefinitions only where no state exists. |
| `DeploymentOperations.Store.EnsureDeployment` | internal/private/commit.go:76-91 | Does exactly the specified step on disk, faults included. |
| `DeploymentOperations.Store.CommitPrepared` | internal/private/commit.go:142-187 | The loop over outcomes does exactly the specified commit: same disk at every fault, same nodes and failures, of which CommitOutcome says what they record. |
| `DeploymentOperations.Store.Finalize` | internal/private/commit.go:189-217 | Does exactly the specified finalization. |
| `DeploymentOperations.Store.ScanRuntime` | internal/private/rollback.go:25-41 | The argument loop yields the last QMP socket and pidfile, or fails as specified. |
| `DeploymentOperations.Store.AllowedToRollBack` | internal/private/rollback.go:54-105 | The loops over journal and directory accept exactly when every check of the specification holds. |
| `DeploymentOperations.Store.RollbackPrepared` | internal/private/rollback.go:48-140 | The reverse deletion loop does exactly the specified rollback, with the same actions. |
| `DeploymentOperations.Store.Inventory` | internal/persistent/store.go:193-258 | The walk returns all records, or nothing when any entry is incomplete, misplaced or a node directory is empty. |
| `DeploymentOperations.Store.ValidateDesired` | internal/persistent/store.go:263-292 | Accepts exactly when wanted keys are distinct and every retained record is among the wanted ones. |
| `DeploymentOperations.Store.Preserve` | internal/persistent/store.go:321-391 | Does exactly the specified preservation, deferred compensation included. |
| `DeploymentOperations.Store.SelectNodes` | internal/private/manager.go:378-403 | Returns the names of all nodes without a request, and otherwise the request itself exactly when its names are listed and none is repeated. |
| `DeploymentOperations.Store.NodeTargets` | internal/private/destroy.go:45-98 | Returns the removal list in order, or fails on an unexpected file or a disposable disk outside the directory. |
| `DeploymentOperations.Store.ValidatePersistent` | internal/private/persistent.go:59-111 | Adding the retained disks of undeclared nodes to the wanted ones accepts exactly the stores whose declared disks are wanted and whose recorded disks are in place. |
| `DeploymentOperations.Store.Plan` | internal/private/destroy.go:184-228 | Plans exactly when every selected node is idle, clean and the persistent disks agree, before anything changes. |
| `DeploymentOperations.Store.Execute` | internal/private/destroy.go:230-295 | Marks, preserves, removes and concludes exactly as specified, faults included. |
| `DeploymentOperations.Store.StopFirst` | internal/private/stop.go:143-205 | Does exactly the specified stop: running, starting and stopping nodes become stopping and prepared ones stopped, one write after another; then each stopping node becomes stopped, whatever happens to the others. |
| `DeploymentOperations.Store.DestroySelected` | internal/private/destroy.go:131-311 | The whole operation does exactly the specified destroy, whose outcome by requested names DestroyOutcome states. |
| `RegistryLaws.RunsKeepRegistryOk` | internal/image/manifest_store.go:475-646 | At every crash point of every run of syncs, resets and binary upgrades the registry is readable, each pointer is embedded or names complete bytes of its digest and version and a genuine signature when it has a key, and no high-water mark has fallen. |
| `RegistryLaws.FreshRunsAreReadable` | internal/image/manifest_store.go:308-372 | Over every such run from an empty registry it can be read, and a reader is refused exactly in the listed cases. |
| `RegistryLaws.SpellingsShareState` | internal/image/manifest_store.go:147-164 | Two spellings of a repository share a state if and only if they normalize alike; no spelling is the default repository. |
| `RegistryLaws.SyncThroughSpellings` | internal/image/manifest_store.go:505-583 | A sync through one spelling is seen through another if and only if they share a state; otherwise it leaves the other untouched, with any faults. |
| `RegistryLaws.SyncKeepsOk` | internal/image/manifest_store.go:534-583 | One sync, with any faults, keeps all that and changes no other repository. |
| `RegistryLaws.ResetKeepsOk` | internal/image/manifest_store.go:585-646 | So does one reset. |
| `RegistryLaws.WritingKeepsOk` | internal/image/manifest_store.go:250-267 | Writing a state touches one repository and keeps the registry readable. |
| `RegistryLaws.ResetThenCurrent` | internal/image/manifest_store.go:585-646 | From every reachable registry a reset whose write works succeeds, and the next reader gets the embedded catalog. |
| `RegistryLaws.SyncThenCurrent` | internal/image/manifest_store.go:308-372 | After an accepted sync the next reader gets exactly the accepted catalog if and only if the fetched bytes are not other bytes of the embedded version for the default repository, and are signed by a key whose number is not zero or the repository may be unsigned. |
| `RegistryLaws.AcceptedIsStored` | internal/image/manifest_store.go:534-583 | An accepted sync has stored the fetched bytes, the verified signature and a pointer that carries their version, digest and signing key, at or above the embedded version. |
| `RegistryLaws.SyncEndsAtHighest` | internal/image/manifest_store.go:549-578 | A sync without downgrade ends with the active version at the high-water mark. |
| `RegistryLaws.CurrentIsExact` | internal/image/manifest_store.go:282-372 | On every reachable registry reading fails exactly for an equivocating or foreign embedded state, a forbidden unsigned pointer or an untrusted key. |
| `RegistryLaws.EquivocationIsReachable` | internal/image/manifest_store.go:282-306 | Two accepted syncs, the second without permission to downgrade, reach a default repository that cannot be read or synced until it is reset. |
| `RegistryAdmission.SyncIsExact` | internal/image/manifest_store.go:475-583 | A sync of a catalog with a version is accepted, when nothing disturbs it, if and only if it is signed by a trusted key or may be unsigned, the registry is readable, the catalog may follow the state that governs the repository, or the binary when none does, and its file names hold no other bytes; a catalog that is not admitted is refused without effect, whatever the faults. |
| `RegistryAdmission.NoCatalogIsRefused` | internal/image/manifest_store.go:475-500 | Bytes that are no catalog with a version are refused without effect. |
| `RegistryAdmission.AcceptedIsExact` | internal/image/manifest_store.go:567-582 | An accepted sync records the version, digest, signer and source of the fetched catalog, the higher of its version and the mark, and a downgrade exactly below the mark. |
| `RegistryAdmission.AcceptedFollows` | internal/image/manifest_store.go:534-551 | An accepted sync without permission to downgrade follows a state with a key only with a signature, and never below its high-water mark; at the stored active version it has the stored digest, with or without permission. |
| `RegistryAdmission.KeyedStaysKeyed` | internal/image/manifest_store.go:534-646 | Over every run of syncs that may not downgrade, resets and upgrades, with any faults, a repository other than the default one that once served a signed catalog keeps a key. |
| `RegistryAdmission.ResetIsExact` | internal/image/manifest_store.go:585-646 | A reset is refused exactly on a broken registry; it goes back to the embedded catalog, keeps the mark, and outside the default repository the key; a repository without a state gets none. |
| `RegistryAdmission.CurrentReturns` | internal/image/manifest_store.go:308-372 | On every reachable registry a reader gets the embedded catalog when no state governs the repository or the state points to it, and otherwise the very bytes that the state points to. |
| `RegistryManager.Store.ReadState` | internal/image/manifest_store.go:181-248 | The loop over the stored states finds the repository state, or reports a broken registry when any entry is invalid. |
| `RegistryManager.Store.WriteState` | internal/image/manifest_store.go:250-267 | Does exactly the specified write. |
| `RegistryManager.Store.ReadBase` | internal/image/manifest_store.go:517-533 | Returns the state a sync starts from, with the default repository seen through the binary. |
| `RegistryManager.Store.Sync` | internal/image/manifest_store.go:475-583 | Does exactly the specified sync, files before pointer; when it accepts and what it records is stated in RegistryAdmission. |
| `RegistryManager.Store.Reset` | internal/image/manifest_store.go:585-646 | Does exactly the specified reset. |
| `YamlGraph.ResolveIsChain` | internal/config/inventory.go:71-84 | An alias resolves to a node exactly when a chain of at most 32 links ends there. |
| `YamlGraph.CycleNeverResolves` | internal/config/inventory.go:71-84 | A node on an alias cycle never resolves, whatever the limit, so the repeated-node test changes no result. |
| `YamlReader.ResolveAlias` | internal/config/inventory.go:71-84 | The loop with its seen set returns exactly that resolution. |
| `YamlReader.ReadPairs` | internal/config/inventory.go:118-144 | One pass finds the explicit entries and the only merge key, or fails on a malformed or repeated key. |
| `YamlReader.EffectiveEntries` | internal/config/inventory.go:94-180 | The recursive method with its visiting set returns exactly the specified effective entries, on every graph. |
| `MergeLaws.EntriesAreLookup` | internal/config/inventory.go:94-180 | Each key appears once, and its value is that of a simple recursive lookup: explicit before merged, earlier source before later. |
| `MergeLaws.FailsExactlyOnBadPaths` | internal/config/inventory.go:94-180 | Resolution fails exactly when some merge path ends at a malformed mapping or returns to a node of the path. |
| `MappingLaws.ProperIsExact` | internal/config/inventory.go:94-167 | By the positions of its content: a mapping is well formed if and only if every explicit key is an unrepeated scalar with a value that resolves, and there is at most one merge key, which names a mapping or a list of mappings; its entries are exactly the explicit pairs and its sources exactly those that the merge key names, in order. |
| `Variables.FindVariable` | internal/config/inventory.go:244-291 | The scan returns the first of the deepest values, or a conflict exactly when another value at that depth differs. |
| `Variables.LookupIsUnique` | internal/config/inventory.go:244-291 | That description determines the result. |
| `Variables.HostLevelWins` | internal/config/inventory.go:244-291 | A host-level value always wins over group values. |
| `Variables.DedupeSources` | internal/config/inventory.go:612-625 | The loop keeps the first source of every origin and depth. |
| `Variables.DedupeIsExact` | internal/config/inventory.go:612-625 | Looking up after deduplication gives the same answer as before if and only if the deepest kept source is the undisputed winner, or a shallower namesake that holds the same node, and is not disputed by kept sources; or the winner is disputed and so are the kept sources. |
| `Variables.DedupeKeepsLookup` | internal/config/inventory.go:612-625 | In particular when sources of one origin and depth are the same contribution. |
| `Variables.NamesakesHideConflict` | internal/config/inventory.go:612-625 | Two different sources of one origin and depth count as one, which hides their conflict. |
| `Namesakes.NamesakeGroupsHideConflict` | internal/config/inventory.go:538-625 | In every document of one layout (two parents, each with one equally named group with one variable, whose host lists are the same single host without own variables, written out or behind an alias), collecting gives the host a conflict when the values differ, and deduplication hides it. |
| `Namesakes.InventoryHidesConflict` | internal/config/inventory.go:538-625 | A concrete inventory of that layout, with a node for every key and an alias node for the second host list. |
| `Groups.HostsGetTheirGroups` | internal/config/inventory.go:538-610 | The hosts are exactly the listed addresses, and each has exactly the sources that a group path ending at a group that lists it brings: those given outside, those of the groups on the path at their nesting depths, and its own variables in that last group; nothing of another host or group. |
| `Groups.AddedExactly` | internal/config/inventory.go:585-595 | Adding sources to an address gives them to that host and changes no other. |
| `GroupCollector.Collector.Add` | internal/config/inventory.go:579-590 | Adding sources through the address index equals adding them to the first host of that address. |
| `GroupCollector.Collector.Collect` | internal/config/inventory.go:538-610 | The walk that appends to hosts and index collects exactly what is specified, or fails with it. |
| `GroupsOutcome.CollectFailsExactly` | internal/config/inventory.go:538-610 | Collecting fails if and only if the root is no mapping, or some group path from it goes deeper than the limit, returns to a group it has passed, or ends at a group whose variables, hosts or children cannot be read. |
| `GroupsOutcome.VarsAreEntries` | internal/config/inventory.go:195-211 | Variables are read exactly when the mapping resolves and all its vm_ keys are known, and then they are its effective entries. |
| `GroupCollector.ReadVars` | internal/config/inventory.go:195-211 | Reads the variables of a mapping and refuses unknown names of the vm_ namespace. |
| `Download.Store.OpenStaging` | internal/image/store.go:437-472 | Opens the digest-named private file at its length, dropping a foreign or overlong one, or an anonymous file of unknown size. |
| `Download.Store.Accept` | internal/image/store.go:529-568 | A full answer drops the staged prefix; a partial one must match the requested range; refusals and where a later transfer resumes are exactly as judged; what passes continues the artifact if the server is honest. |
| `Download.Store.Finish` | internal/image/store.go:574-597 | The staged bytes grow by prefixes of the body; a lost connection keeps them, a wrong length removes them. |
| `Download.Store.StageHttp` | internal/image/store.go:474-598 | At every byte the cache is untouched and, behind an honest server, the staging file is a prefix of the artifact; result, request count and resume offset are exactly those of the answer; success means the whole artifact, and a whole fitting answer always succeeds. |
| `Download.Store.StageWithRetry` | internal/image/recovery.go:134-159 | Over at most three requests, with the same safety at every byte, the result, request count and resume offset are exactly those of the retry rules, which DownloadOutcome states over the answers. |
| `Download.TransferIsWhole` | internal/image/store.go:529-597 | An honest answer is staged completely if and only if it arrives whole and fits. |
| `Download.RetriedDelivers` | internal/image/recovery.go:134-159 | Staging from an honest source succeeds if and only if one of at most three attempts, each after a lost connection or a temporary status that asks for at most 30 seconds, answers whole from the offset staged by then. |
| `Download.AnsweringSourceSucceeds` | internal/image/store.go:716-751 | If all sources are honest, nothing is cancelled and one source answers its requests whole, the artifact is fetched however the sources before it fail. |
| `DownloadOutcome.FetchedIsCalled` | internal/image/store.go:716-751 | Over the answers of the servers alone: behind honest sources the artifact is fetched exactly when one of them, asked in turn and at most three times as long as it fails for a short time only, answers whole before the run is cancelled. |
| `DownloadOutcome.RetriedIsAsked` | internal/image/recovery.go:90-159 | Result, number of requests and resume offset of one source are those of asking it until it answers whole, fails for good, or was asked three times. |
| `DownloadOutcome.PatienceIsRewarded` | internal/image/recovery.go:134-159 | A source that first fails once or twice for a short time and then answers whole from where the transfer stopped gets the artifact staged. |
| `DownloadOutcome.RefusalIsFinal` | internal/image/recovery.go:90-159 | A source that is gone, refuses, or asks for more than 30 seconds is asked once, nothing staged is lost, and the next source is tried. |
| `Download.Store.Publish` | internal/image/store.go:302-335 | Publishes exactly when digest, size and image checks hold, and then the cache holds those bytes immutably. |
| `Download.Store.Quarantine` | internal/image/recovery.go:30-89 | Moves the damaged bytes aside unless referenced, losing nothing. |
| `Download.Store.PrepareCache` | internal/image/recovery.go:163-217 | Decides exactly when the cache is ready, must be fetched anew or is refused; a ready cache holds immutable verified bytes, and damaged ones are kept aside. |
| `Download.Store.Fetch` | internal/image/store.go:716-751 | Over the candidate list: at most three requests each, only verified bytes reach the cache, and behind honest sources of a sound artifact it succeeds exactly when the sources in turn deliver, as DownloadOutcome states over the answers. |
| `Download.Store.Pull` | internal/image/store.go:639-762 | Whatever servers send and wherever the program is killed, the cache holds what it held, nothing, or verified bytes; success means exactly the catalog artifact; a sound cached artifact is used without a request, other bytes are kept aside or, when referenced, refuse the pull; behind honest sources it then succeeds exactly when the sources in turn deliver. |
| `Download.PullUntilKilled` | internal/image/store.go:639-762 | The same over any number of pulls, each killed at an arbitrary moment; behind honest servers the staging file always stays a prefix of the artifact. |
| `Prune.ScanRemoves` | internal/image/prune.go:49-146 | Only staging files and unreferenced images go, and a successful scan leaves none of them. |
| `Prune.DryRunIsFaithful` | internal/image/prune.go:49-146 | A dry run changes nothing and lists exactly what a run without failing removals deletes. |
| `Prune.ScanReports` | internal/image/prune.go:49-146 | A scan succeeds if and only if every managed file is fit and, when it deletes, every disposable one can be removed; it reports exactly the disposable files in order, or a first part of them when it stops. |
| `Prune.Cache.PruneImages` | internal/image/prune.go:148-183 | The report and the remaining files are those of the scan over the managed files in ascending order; referenced images stay; on success every disposable file is gone; a dry run changes nothing. |
| `RuntimeAudit.VerdictIsSound` | internal/private/audit.go:75-142 | A dead verdict is never wrong about a visible QEMU; a live one rests on QMP or on a matching live process. |
| `RuntimeAudit.AmbiguityIsAnError` | internal/private/audit.go:75-142 | A node is declared dead if and only if no host that the audit cannot tell from this one has a live QEMU of the node, and live if and only if the evidence names its QEMU unopposed; the audit is an error exactly in between. |
| `Convergence.StoppedMeansDead` | internal/private/manager.go:1027-1041 | Status records Stopped only when no visible QEMU is live. |
| `Convergence.TransitionsConverge` | internal/private/manager.go:1043-1077 | After a clean status a transition phase is left only over a live audit; otherwise the node is stopped or an adopted running start. |
| `Convergence.SecondStatusIsQuiet` | internal/private/manager.go:992-1104 | A second status with nothing in between writes nothing. |
| `Convergence.StoppedNodesAreDead` | internal/private/manager.go:992-1104 | Over every run of starts, stops, crashes, guest halts, lost writes and statuses a node recorded as Stopped has no live QEMU. |
| `Convergence.StatusWritesVerdicts` | internal/private/manager.go:1094-1104 | A status over several nodes writes to each selected node what its own verdict asks for and touches no other. |
| `StatusOutcome.VerdictIsExact` | internal/private/manager.go:992-1092 | A node stays, is stopped, is adopted, or fails, under four conditions that exclude each other: stopped exactly when no host that looks like this one has a live QEMU of it and the residue can be removed; adopted exactly when an unrecorded start answers and its pidfile names it. |
| `StatusOutcome.StatusIsExact` | internal/private/manager.go:924-1109 | A status over several nodes leaves exactly those records, touches no other node, and is an error for exactly the nodes that it can neither leave nor settle. |
| `StatusOutcome.HaltedNodeIsStopped` | internal/private/manager.go:1018-1041 | A running node whose guest halted itself, with removable residue, is recorded as stopped without a process, and the status is no error. |
| `Convergence.Manager.StatusAll` | internal/private/manager.go:924-1109 | The two loops, deciding and then writing, leave the records that the verdicts ask for, and fail for exactly the selected nodes without a verdict or whose record cannot be written. |
| `Ports.Choose` | internal/network/portalloc/ports.go:9-34 | Returns the first candidate that the probe accepts, or nothing when it accepts none. |
| `Ports.AssignNode` | internal/private/manager.go:588-608 | All ports of one new node are different, outside the taken ones, accepted by the probe, and each the lowest candidate of its request that is free in its turn; routes keep their requests; it fails only when some port has no more free candidates than there are ports before it. |
| `Ports.Materialize` | internal/private/manager.go:558-646 | New ports are pairwise different, avoid reserved and committed ones, and are each the first free candidate in their turn; nodes that stay keep definition and port; it fails only when some new port has no more free candidates than there are new ports before it. |
| `Ports.CommittedExactly` | internal/private/manager.go:571-587 | The committed ports are exactly the recorded management ports and the declared forwards of the nodes that stay. |
| `Ports.RequestSurvives` | internal/spec/spec.go:26-45 | The requested port of a route survives every allocation, and its bind address and guest port stay. |
| `PortRepair.RepairManagementPort` | internal/private/port_recovery.go:47-93 | Repairs if and only if the node is stopped, its port is busy, its first forward is the management one, its arguments hold the rule once and a candidate of the family is free and unreserved; then it moves to such a candidate. |
| `PortRepair.RewriteArgs` | internal/private/port_recovery.go:70-84 | The nested loops over the half-rewritten list equal rewriting the management devices of the original list, and count the replaced options. |
| `PortRepair.OneOptionChanges` | internal/private/port_recovery.go:68-84 | With one occurrence exactly one option of exactly one argument changes. |
| `PortRepair.RepairKeepsAligned` | internal/private/port_recovery.go:85-92 | After a repair recorded port, first forward and arguments name the same port, once, and all rules still belong to forwards. |
| `PortRepair.RepairKeepsConsistent` | internal/private/port_recovery.go:22-93 | A repair of one node keeps all ports of all nodes different. |
| `PortRepair.RepairAll` | internal/private/port_recovery.go:22-93 | So does any sequence of repairs with one growing reserved set, whatever is busy each time; a port that any node had at the start is given to no other. |
| `Versions.CompareVersions` | internal/image/catalog.go:312-333 | The loop decides the padded comparison. |
| `Versions.FirstDifferenceDecides` | internal/image/catalog.go:312-333 | The first position where two versions differ decides their order. |
| `Versions.CompareIsPreorder` | internal/image/catalog.go:312-333 | Comparison is a total preorder. |
| `Versions.CanonicalText` | internal/image/catalog.go:380-390 | The loop renders the version without trailing zero components. |
| `Versions.KeysDecideEquality` | internal/image/catalog.go:380-390 | Canonical keys are equal exactly when versions compare equal. |
| `Versions.ValidateVersions` | internal/image/catalog.go:210-225 | The loop with its map accepts exactly the catalogs in which no two numeric versions rank alike. |
| `Versions.ResolveVersion` | internal/image/catalog.go:338-376 | Returns the exact key, the unique greatest match on a component boundary, or the error that the set of versions determines. |
| `Versions.SelectionIsUnique` | internal/image/catalog.go:338-376 | The result is determined by the set, so iteration order never reaches it. |
| `Versions.ValidatedIsNeverAmbiguous` | internal/image/catalog.go:210-225 | In an accepted catalog selection is never ambiguous. |
| `Locks.OperationsAreDisciplined` | internal/lock/flock.go:1-4 | Every operation takes its locks in rising order, never one it holds, and releases them all. |
| `Locks.UpIsDisciplined` | internal/private/manager.go:1525-1635 | Status sections and images first, then the allocator lock around all further deployment sections. |
| `Locks.StartIsDisciplined` | internal/private/manager.go:1741-1790 | Starting existing nodes takes the deployment lock in sections, without the allocator lock. |
| `Locks.PullIsDisciplined` | internal/image/store.go:657-664 | The allocator lock of a cache recovery nests inside the images lock. |
| `Locks.NoWaitCycle` | internal/lock/flock.go:24-55 | Disciplined processes never wait in a cycle. |
| `Locks.RunsNeverDeadlock` | internal/lock/flock.go:24-55 | Over every run with give-ups and crashes there is no wait cycle, an unfinished process can always go on, and an exclusive lock has one holder. |
| `Locks.OperationsNeverDeadlock` | internal/private/controller.go:149-155 | So any number of processes running any of the operations never deadlock. |
| `Locks.Table.TryLock` | internal/lock/flock.go:38-42 | An attempt succeeds exactly when no other holder conflicts. |
| `Locks.Token.ValidateExclusive` | internal/lock/flock.go:62-81 | Acceptance means that this owner and nobody else holds exactly this lock now. |
| `Locks.Token.Release` | internal/lock/flock.go:83-99 | Release frees the lock once and is harmless afterwards. |
| `ConfigValidator.Validate` | internal/config/file.go:236-396 | The pass with its sets and lists accepts exactly the files that satisfy the all-pairs rules, and returns them with defaults and one control node. |
| `ConfigValidator.CheckShares` | internal/config/file.go:346-381 | Accepts exactly the shares that are safe, few enough, apart from each other, from data disks and from the SSH directory. |
| `ConfigValidator.CheckCrossNode` | internal/config/file.go:373-377 | Accepts exactly when overlapping host paths on different nodes are read-only on both. |
| `ConfigValidator.CheckAliases` | internal/config/file.go:310-322 | Accepts exactly well-formed aliases that are new in the node and in the deployment. |
| `ConfigValidator.CheckDisks` | internal/config/file.go:323-342 | Accepts exactly valid disks with distinct names and mounts. |
| `ConfigValidator.Resolve` | internal/config/file.go:398-428 | Resolves exactly the accepted files, to the form that the completed file determines, with one control node. |
| `ConfigValidator.ValidateResolved` | internal/private/plan.go:37-74 | The pass decides exactly the contract of planning. |
| `Configuration.ResolveMeetsPlanning` | internal/private/plan.go:37-74 | What an accepted file resolves to passes planning exactly when its wait timeout is not negative, which is an obligation of callers that build a file themselves. |
| `Configuration.ReadFilesArePlannable` | internal/config/file.go:52-62 | Files whose timeout was read as a positive duration, or is absent, always pass. |
| `Configuration.DefaultsAreStable` | internal/config/file.go:171-234 | Filling in defaults twice is filling them in once. |
| `ConfigurationOutcome.AcceptanceIsExact` | internal/config/file.go:236-396 | A completed file is accepted if and only if its head is sound, every node is sound by itself (in particular, no path is under two of its shares, or under a share and a disk, the SSH directory or a system directory), and no two nodes have a name, an address, an alias, the control role or a writable host path in common. |
| `ConfigurationOutcome.ResolvedIsTaken` | internal/config/file.go:171-428 | An accepted file resolves to its nodes as written, with the common and then the standard values where it leaves something out, every disk and share with its flags, a share writable only if the file says so, and the control role on the first node when no node has it. |
| `ConfigurationOutcome.OverlapIsShared` | internal/config/file.go:159-169 | Two directories overlap exactly when some path is under both. |
| `EventLog.Log.Append` | internal/diagnostics/events.go:74-160 | Accepts exactly records within 64 KiB; the log stays a whole-line suffix of the history with the newest record and within 8 MiB; a compaction keeps at least 4 MiB less 64 KiB of the old bytes. |
| `EventLog.Log.Compact` | internal/diagnostics/events.go:118-147 | The retained tail is whole lines and a suffix of the old log. |
| `EventLog.CutEndsALine` | internal/diagnostics/events.go:128-134 | The first newline of the tail ends a line and lies within one record of its start. |
| `EventLog.AppendAll` | internal/diagnostics/events.go:74-160 | The same over any run of appends from an empty log. |
| `Shell.ShellQuote` | cmd/farrow/setup.go:1064-1076 | Quotes as specified: safe text as it is, anything else in single quotes. |
| `Shell.FormatSetupCommand` | cmd/farrow/setup.go:1113-1119 | Joins the quoted arguments with spaces. |
| `Shell.ReadsBack` | cmd/farrow/setup.go:1064-1119 | Printing any list of arguments and reading it by the shell rules gives the same list. |

## Left out

- HostsEdit.Meaning: white space in a hosts line is the ASCII white space; Unicode spaces are ordinary characters, and
  whether a field is an IP address is a parameter.
- HostsLaws.InstalledNamesResolve: speaks of the bytes of the file; replacing the file atomically, its ownership and the
  privileged helper are not modelled.
- Commit.StateFor: image metadata, ports, generation and version fields are not recorded; they decide nothing in the protocol.
- RetainedStore.Preserve: serial numbers, file systems, permissions, link counts and the shape check of an identity are
  not modelled; an identity is node, name, size and mount. The top directory of the store is implied by its entries.
- Destroy.StopFirst: stopping a running node is reduced to its recorded phases; guest shutdown, QMP and process signals
  are not modelled, and which processes are live is part of the request.
- Rollback.RollbackPrepared: the listed actions end with the journal; the final entry for the directory itself is left out.
- DeploymentRuns.Legal: prepare is an environment step; it works in the directory of a node without a state, hands over
  every declared data disk with its size and mount, and makes no second copy of a retained disk. Deleting all retained disks on request is not an event of a run.
- DestroyRestart.RestartIsExact: starts from a disk on which every recorded persistent disk is at exactly one of its two
  places, which every run preserves, and from records as prepare and commit write them.
- DeploymentRuns.DisksAreNeverLost: disks named root are excluded; a prepare never records one, and its file would be
  the root overlay's.
- CommitLaws.CommitRestarts: compares disks up to the recorded update times, because the second run records its own.
- Recreate: its destroy and its commit are events of a run; the comparison of old and new persistent disks before it is not modelled.
- Registry.ReadState: the migration of a first-schema registry file and the JSON decoder are not modelled; a registry is
  missing, broken or a map of states.
- Registry.Sync: fetching, redirects and size limits are reduced to what a source delivered; minisign is a predicate.
- Variables.FindVariable: decoding of values, template detection and the special comparison of version spellings are a
  parameter that says when two values are the same.
- Groups.Collect: error texts and line numbers are not modelled; every failure is one failure.
- Inventory keys such as disks, shares and sizes, node naming and the subnet of an inventory are typed conversions and not modelled.
- Configuration.FileOk: image references and subnet layouts are parameters.
- Download.Store.StageHttp: redirects, the stall timer and local disk errors other than a failed sync are not modelled.
- Download.Store.Pull: holding the images lock and the search for nodes that reference an image are parameters.
- Download.Store.Publish: a failed directory sync after the rename is not modelled.
- Convergence.Decide: the migration of process start times of old versions is not modelled.
- Convergence.StoppedNodesAreDead: a live QEMU is assumed visible, by QMP, by its recorded pid or by its pidfile.
- Ports.Materialize: the probe is a function of bind address and port; sockets that open or close in between are not modelled.
- Locks.OperationsAreDisciplined: the operations are the sequences of lock calls at their call sites, conditional parts
  as parameters; fairness and the 30 second limit are reduced to giving up at any time.
- EventLog.Log.Append: a write that is cut short is not modelled; the runs are uninterrupted.
- Shell.Read: words only; it gives no answer for unquoted operators, expansions, patterns, comments and double quotes.
- Controller selection, drift reports, catalog entry tables, doctor, networking, cloud-init, QEMU arguments and user
  interface are left out; they would add members without deep invariants or need programs that are not part of this model.
