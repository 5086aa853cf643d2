# A verified model of the IBM Storage ODF operator's controllers

The operator runs three controllers over one Kubernetes cluster. The FlashSystemCluster controller and the
StorageClass watcher share the ConfigMap `ibm-flashsystem-pools`: the first adds and removes one entry per cluster,
the second edits `storageclass -> pool` inside every entry, both under optimistic concurrency and through caches that
may be arbitrarily stale. The PersistentVolume watcher labels volumes from the same clusters, secrets and classes.

| file | what it models |
|---|---|
| `ApiServer.dfy` | the ConfigMap on the server: versions, conflicts, object and map references |
| `PoolsConfigMap.dfy` | what both controllers do to it, one API call at a time (specification) |
| `PoolsControllers.dfy` | the controllers' own loops and helpers, with aliasing; the retry bound |
| `PoolsProtocol.dfy` | both workers interleaved at every API call, stale reads, outside edits and deletions |
| `NilReturns.dfy` | what a nil return of the watcher says about the server |
| `Convergence.dfy`, `Progress.dfy`, `Stability.dfy` | with the matches given: where the protocol ends, that it can always get there, in how many writes, that it stays there |
| `Retries.dfy` | how often passes conflict under interference |
| `LookupConvergence.dfy` | the same from the lookups: when clusters, secrets and classes fix one final content |
| `Matching.dfy`, `PersistentVolumes.dfy` | which clusters a class or a volume belongs to |
| `StorageClassWatcher.dfy`, `DefaultStorageClass.dfy` | a whole request of the watcher; the default class |
| `SecretEvents.dfy` | which secret changes re-run what, and which are filtered out |
| `Conditions.dfy`, `ReconcilePass.dfy` | the condition list, the eight-step pass, phase and finalizer |
| `CsiDriver.dfy`, `Exporter.dfy` | the one CSI resource and its flag; the exporter objects clusters share |

How the model is set up:

- The server follows the Kubernetes API Conventions, section "Concurrency Control and Consistency": an Update with a
  stale version conflicts even if the data are equal, equal data at the current version succeed without a new version,
  any other Update takes a new, globally increasing version. A read answers with any state the server has shown.
- The StorageClass helpers take the ConfigMap struct by value, so each iteration of their loop carries the version
  first read, while the `Data` map is shared. The FlashSystemCluster controller holds a pointer and carries the
  refreshed version. Both are modelled with objects and references.
- Go ranges over maps in an unspecified order; every loop over a map picks any order. Where the order shows in the result, as
  in a topology match, the result is a relation and the theorems cover all its values.
- Entries, topology secrets and class parameters are represented decoded, including the shapes on which decoding fails
  or a type assertion panics. Clocks, step failures and the server's acceptance of an Update are inputs.
- `FlashSystemClusterReconciler.Reconcile` has unnamed results, so its deferred conversion of a conflict does not
  change what it returns; the watchers' does. Both amount to a retry.

What holds only under a condition, with the condition proved exact:

- A nil return of a StorageClass pass does not always mean that the server is right: a pass on a stale empty snapshot
  ends clean at once (`StaleEmptyRead`), and one that meets an empty matched pool returns nil with its loop unfinished
  (`EmptyPoolStopsMidway`, `EmptyPoolBelievesNothing`). `NilReturnExact`: over all runs, a nil return leaves no entry
  differing exactly if the snapshot read has an entry and no matched pool is empty (or the pass fails before its loop).
- Two ids of a topology secret may lead to one cluster with different pools; then the match depends on iteration order
  (`MatchDeterminedExact`), and a converged entry is rewritten by a later pass (`SharedAddressRewrites`). Converged
  content is left alone exactly if no live class has such ids and no cluster is named `pools` (`StableExactly`); there
  is one final content exactly if no live class has such ids and no name stands for two secrets (`OneContentExact`),
  and every content left open that names no empty pool is the end of some run (`EachContentReached`).
- The expected content can be reached exactly if no live class is matched to an empty pool (`CanConvergeExactly`).
- A FlashSystemCluster pass that finds its entry in a state of the ConfigMap from before a deletion completes without
  writing (`OldStateIsBelieved`). `ConvergesExactly`: once every live class has had a clean pass, the content is the
  expected one exactly if every cluster has completed a pass that does not rely on such a state.
- Scan and index pick different clusters when an address is shared (`SharedAddressSplits`). With unique cluster names
  they agree on an address exactly if no cluster's secret is missing and no two clusters share it (`SamePickExact`), on
  all addresses exactly if these are distinct (`IndexAgreesWithScan`); the label of a regular class's volume is the
  matched cluster under the same condition on the address of the class's secret (`RegularLabelIsMatch`).
- A regular class that names the secret of a cluster is matched to it exactly when the secrets up to that cluster are
  there and no cluster listed earlier shares the address (`OwnMatchExact`).
- An existing default class is accepted by provisioner and expected parameters only. If it is regular, it is always
  matched to exactly the cluster and its default pool exactly when the secret it resolves to is there and the scan for
  its address stops at the cluster; if it carries `by_management_id`, exactly when its ids lead to that cluster and pool
  only (`AcceptedClassExact`). So an accepted class may resolve to the cluster's secret and match nothing
  (`TopologyClassIsAccepted`), or resolve elsewhere and match (`OtherSecretIsAccepted`).
- A change of the plain address of a secret passes the filter exactly if the key is there before and after and there is
  no `config`; with `config` only the ids count (`PlainFilterExact`).
- An ignored update keeps the non-empty address of every volume handle, if both versions decode into texts, exactly when
  no added id that a handle can name has a non-empty address (`AddedIdIsIgnored`), and otherwise exactly when all ids a
  handle can name keep their non-empty addresses (`IgnoredUpdateExact`); a number beside the address is enough for the
  filter to miss its change (`NumberHidesChange`).
- For a given list of clusters the mapper misses no class under changes of a secret exactly if the secret carries the
  operator's prefix or is no cluster's secret (`MapperExact`, `UnprefixedIsMissed`). Filter and mapper together lose no
  change of a class's matches exactly if the event changes neither presence nor plain address nor usable ids of the
  secret, or passes the filter and the secret carries the prefix or keeps its effective address (`FilterMapperExact`).
- The CSI flag stays truthful exactly when the delete event of the resource in hand is not delivered between listing
  and flag store (`RaiseExact`, `RaceLeavesFlagStuck`).

## Model

| member | source | states |
|---|---|---|
| Common.RangeOrder | controllers/storageclass/storageclass_controller.go:252-252 | ranging over a map visits every key exactly once, in any order |
| ApiServer.Server.Put | controllers/storageclass/storageclass_controller.go:450-453 | an Update answers and changes the store by the version rules; on success only the object handed in learns the new version |
| ApiServer.Server.Post | controllers/util/poolutil.go:274-278 | a Create succeeds only if the object is missing, under a new version |
| PoolsConfigMap.EditEntryLaw | controllers/storageclass/storageclass_controller.go:404-448 | adding or removing a class makes the entry say exactly that about the class, changes nothing else in it, and is the identity on an entry that already says so |
| PoolsConfigMap.EditCallCases | controllers/storageclass/storageclass_controller.go:401-456 | a helper call case by case: a missing key is skipped by a removal and fails an addition, an undecodable entry and an addition to a nil map fail, all without an API call; otherwise the shared map holds the edited entry even if the Update is refused, which it is exactly if the version is not current |
| PoolsControllers.RemoveStorageClassFromConfigMap | controllers/storageclass/storageclass_controller.go:401-425 | store, shared map and error after removing a class from one entry; the caller's version is not refreshed; a missing key is skipped, an undecodable entry fails |
| PoolsControllers.AddStorageClassToConfigMap | controllers/storageclass/storageclass_controller.go:427-456 | likewise for adding; a missing key fails, a nil pool map panics |
| PoolsControllers.ReconcileStorageClass | controllers/storageclass/storageclass_controller.go:207-276 | the loops of a pass, for found, terminating and missing classes and every iteration order, compute the uninterrupted run of the protocol's steps |
| PoolsControllers.GetCreateConfigmap | controllers/util/poolutil.go:261-285 | the object read, or a newly created empty one; a refused Create fails |
| PoolsControllers.EnsureScPoolConfigMap | controllers/flashsystemcluster_controller.go:491-520 | purging the legacy key and adding the cluster's entry, the second Update under the version of the first, is the uninterrupted run of the protocol's steps |
| PoolsControllers.EnsureTakesEffect | controllers/flashsystemcluster_controller.go:491-520 | an undisturbed pass of a live cluster on a fresh read succeeds, whatever was there: the legacy key is gone, the cluster has its old entry or a new empty one, every other entry is as it was |
| PoolsProtocol.EnsureEndsWell | controllers/flashsystemcluster_controller.go:500-519 | in every reachable state, a pass that ends well has held a state without the legacy key, and found its entry there or has just added it to exactly that state |
| PoolsControllers.RemoveFscFromConfigMap | controllers/flashsystemcluster_controller.go:522-536 | likewise for removing the cluster's entry |
| PoolsControllers.DropLeavesOthers | controllers/flashsystemcluster_controller.go:522-536 | an undisturbed removal on a fresh read succeeds, with the entry gone and every other one as it was |
| PoolsControllers.RestOfPass | controllers/storageclass/storageclass_controller.go:252-274 | an undisturbed pass on a fresh read corrects exactly the first differing entry in its order, then conflicts at the entry after it or ends clean |
| PoolsControllers.PassShrinksDifference | controllers/storageclass/storageclass_controller.go:207-276 | with d entries differing, a pass ends clean without a write if d is 0, and otherwise writes once, leaves d - 1 differing and everything else untouched |
| PoolsControllers.RetryUntilClean | controllers/storageclass/storageclass_controller.go:191-231 | re-run on conflicts, a clean pass is reached within d + 1 passes, for live, terminating and missing classes; every entry is then at target and otherwise unchanged |
| PoolsControllers.FreshNilReturnExact | controllers/storageclass/storageclass_controller.go:259-264 | for undisturbed passes on fresh reads: a nil return means that nothing is left to do, for all stores and orders, if and only if no matched pool is empty |
| NilReturns.NilReturnExact | controllers/storageclass/storageclass_controller.go:233-276 | over all runs with stale reads and interference, a nil return of a pass leaves no entry of the server differing, if and only if the pass fails before its loop, or the snapshot it read has an entry and no matched pool is empty |
| NilReturns.StaleEmptyRead | controllers/storageclass/storageclass_controller.go:252-276 | a pass on a cached empty ConfigMap ends clean at once, for any class without a match, while the server still lists the class |
| NilReturns.EmptyPoolBelievesNothing | controllers/storageclass/storageclass_controller.go:259-264 | for every snapshot and match with an empty pool there is a run in which the pass returns nil while the server differs |
| PoolsControllers.EmptyPoolStopsMidway | controllers/storageclass/storageclass_controller.go:261-264 | for every match with an empty pool there is a store and an order on which the pass returns nil with an entry still wrong |
| PoolsProtocol.ScStepLaw | controllers/storageclass/storageclass_controller.go:401-456 | an iteration either stops without a write or finds the server at the version read and leaves it with the snapshot brought to target so far |
| PoolsProtocol.RunsKeepInv | controllers/flashsystemcluster_controller.go:491-536 | in every reachable state of both workers, a version some worker holds is stale or comes with exactly the server's data |
| PoolsProtocol.NoLostUpdate | controllers/storageclass/storageclass_controller.go:401-456 | in every run with stale reads and outside edits, a watcher's write changes at most one entry and in it only the requested class; the cluster controller alters no entry it keeps, adds only the entry of a cluster seen alive, removes only that of one seen deleting or gone, or the legacy key |
| PoolsProtocol.CleanPass | controllers/storageclass/storageclass_controller.go:233-276 | however a pass ends clean, under any interference: if the snapshot it read has an entry, the server holds it with the class at target in every entry, other classes and secrets untouched; if it has none, the pass matched nothing and wrote nothing |
| PoolsProtocol.StartWritesNothing | controllers/storageclass/storageclass_controller.go:242-249 | a pass that misses the key of a matched cluster, or finds no ConfigMap, fails without a write |
| PoolsProtocol.EntryInvariant | controllers/flashsystemcluster_controller.go:507-517 | for each key by itself: if its entries decode in all past states and outsiders leave it alone, then in every run it decodes into a non-nil pool map in every state shown, no pass fails to decode it or writes into a nil map at it, and no step changes its secret, whatever the other entries hold |
| PoolsProtocol.OperatorRunsDecode | controllers/storageclass/storageclass_controller.go:404-448 | in runs of the operator alone from usable entries no pass ends on an entry it cannot decode or on a nil map |
| PoolsProtocol.SecretForLife | controllers/flashsystemcluster_controller.go:507-517 | the secret of an entry outsiders leave alone is the one it was created with for as long as the entry lives, and an undecodable entry stays as it is, whatever the other entries hold |
| PoolsProtocol.DropTakesEffect | controllers/flashsystemcluster_controller.go:522-536 | a pass that gets through the removal leaves the server without the key |
| PoolsProtocol.NoResurrection | controllers/flashsystemcluster_controller.go:224-234 | an absent key stays absent, however stale the reads, until a pass reads a live cluster of that name |
| PoolsProtocol.RemovedStaysRemoved | controllers/flashsystemcluster_controller.go:272-293 | after the removal of a deleting or missing cluster's entry, no continuation brings it back before a live object is read |
| PoolsProtocol.UninterruptedSc | controllers/storageclass/storageclass_controller.go:252-274 | left alone, the interleaved worker does exactly what the watcher's method does |
| PoolsProtocol.UninterruptedFsc | controllers/flashsystemcluster_controller.go:491-536 | likewise for the cluster controller |
| Convergence.StepGrows | controllers/flashsystemcluster_controller.go:491-520 | with clusters and matches given, every step of every worker, lookups failing or not, keeps the content sound and only adds to it |
| Convergence.Converges | controllers/storageclass/storageclass_controller.go:233-276 | with the matches given, from a deleted or empty ConfigMap, passes under way or not, under every interleaving, stale read and order of entries, once every cluster and every live class has had its pass the content is exactly the matches |
| Convergence.ConvergesExactly | controllers/flashsystemcluster_controller.go:491-520 | with the matches given, once every live class has had a clean pass, the content is the expected one if and only if every cluster has completed a pass not relying on a state from before the deletion |
| Convergence.KeyNeedsPass | controllers/flashsystemcluster_controller.go:507-517 | a cluster's entry is there only if a completed pass of that cluster put it there |
| Convergence.DeletionIsStart | controllers/flashsystemcluster_controller.go:88-111 | the ConfigMap may be deleted at any moment of any run, passes under way; convergence starts over from there |
| Convergence.OldStateIsBelieved | controllers/flashsystemcluster_controller.go:507-519 | a pass that reads its entry in a state from before the deletion reports success with the entry missing |
| Stability.StaysConverged | controllers/flashsystemcluster_controller.go:491-536 | with the matches given, from any state that holds the expected content, whatever the caches hold, no pass changes data or version |
| Stability.LegacyNameRewrites | controllers/flashsystemcluster_controller.go:497-505 | the entry of a cluster named like the legacy key is purged by its own next pass |
| Stability.OtherTargetRewrites | controllers/storageclass/storageclass_controller.go:427-456 | a pass whose match differs from the content rewrites exactly that entry, under a new version |
| Progress.CanAlwaysConverge | controllers/storageclass/storageclass_controller.go:191-276 | with the matches given and no pool empty, from every reachable state, with passes under way on stale reads, passes on succeeding lookups complete the expected content |
| Progress.CanConvergeExactly | controllers/storageclass/storageclass_controller.go:259-264 | the expected content can be reached from a reachable state if and only if no live class is matched to an empty pool |
| Progress.WritesAreBounded | controllers/storageclass/storageclass_controller.go:191-276 | in every run, however long, the server hands out at most one version for the object, one per cluster and one per matched class and cluster |
| Retries.ConflictsAreBounded | controllers/storageclass/storageclass_controller.go:191-231 | in every run whose passes read the current state, with any interference, outside edits and deletions, each controller conflicts at most once per version handed out, and once more if a pass was already behind |
| Retries.RetriesAreBounded | controllers/flashsystemcluster_controller.go:216-251 | from a deleted or empty ConfigMap, with the matches given, the number of conflicts of both controllers in a run is bounded, however long the run |
| LookupConvergence.LookupsConverge | controllers/storageclass/storageclass_controller.go:233-276 | with clusters, secrets and classes fixed and every pass computing its target from them in any iteration order: if ids of one cluster agree on the pool, once every live class has had a clean pass the content is the one expected content if and only if every cluster has completed a pass not relying on a state from before the deletion; the number of writes is bounded |
| LookupConvergence.LookupsCanConverge | controllers/storageclass/storageclass_controller.go:191-276 | after any such run, passes on the same lookups can complete the content if and only if no live class is matched to an empty pool |
| LookupConvergence.StableExactly | controllers/storageclass/storageclass_controller.go:315-322 | converged content keeps data and version in all runs if and only if every live class gives ids of one cluster the same pool and no cluster is named like the legacy key |
| LookupConvergence.OneContentExact | controllers/storageclass/storageclass_controller.go:299-325 | the lookups fix one expected content if and only if every live class gives ids of one cluster the same pool and same-named clusters have the same secret name |
| LookupConvergence.EachContentReached | controllers/storageclass/storageclass_controller.go:315-322 | each content the lookups leave open, no cluster having the legacy name and no pool being empty, is where some run ends |
| LookupConvergence.OtherMatchRewrites | controllers/storageclass/storageclass_controller.go:315-322 | where two successful matches of a class disagree about a cluster, a converged entry is rewritten by a pass that came to the other |
| LookupConvergence.SharedAddressRewrites | controllers/storageclass/storageclass_controller.go:315-322 | one cluster, one address, two ids with different pools: a converged ConfigMap and a run that rewrites it |
| LookupConvergence.LookupsMakeValidWorld | controllers/storageclass/storageclass_controller.go:233-249 | whatever the lookups answer, matched clusters have entries to go to; the protocol assumes nothing else about them than that no cluster has the legacy name |
| Matching.MapClustersByMgmtAddress | controllers/util/poolutil.go:299-321 | the loop computes the index, and fails exactly if some cluster's secret is missing |
| Matching.IndexIsLastWins | controllers/util/poolutil.go:305-320 | the index holds exactly the addresses that occur, each with the last cluster that has it; a missing address counts as empty |
| Matching.ScanIsFirst | controllers/storageclass/storageclass_controller.go:335-357 | the scan finds the first cluster with the address and fails exactly if a secret is missing before it |
| Matching.GetFscByRegularStorageClass | controllers/storageclass/storageclass_controller.go:327-358 | the match of a regular class is the scanned cluster with the class's pool, or empty |
| Matching.IndexVersusScan | controllers/util/poolutil.go:299-321 | whenever the index builds the scan succeeds, for the same addresses; the scan gives the first cluster, the index the last |
| Matching.IndexAgreesWithScan | controllers/storageclass/storageclass_controller.go:336-355 | with unique names, scan and index pick the same cluster for every address if and only if no secret is missing and the addresses are pairwise distinct |
| Matching.SamePickExact | controllers/storageclass/storageclass_controller.go:335-357 | likewise for one address: if and only if no secret is missing and no two clusters share it |
| Matching.SharedAddressSplits | controllers/util/poolutil.go:305-320 | two clusters at one address: the scan picks the first, the index the second |
| Matching.MapClustersByMgmtId | controllers/storageclass/storageclass_controller.go:377-399 | the clusters of a topology secret by id, with its failures and panics, for every iteration order |
| Matching.GetFscByTopologyStorageClass | controllers/storageclass/storageclass_controller.go:299-325 | matched clusters are exactly those the ids resolve to, each with the pool of one of its ids; fails if an id has no pool data |
| Matching.TopologyOutcomeExact | controllers/storageclass/storageclass_controller.go:315-322 | a result is a possible match if and only if the loop over the ids gives it in some order |
| Matching.GetFlashSystemClusterByStorageClass | controllers/storageclass/storageclass_controller.go:278-297 | the result is one of the possible matches of the class |
| Matching.MatchedClustersExist | controllers/storageclass/storageclass_controller.go:278-297 | every matched cluster is in the list |
| Matching.MatchSucceedsExactly | controllers/storageclass/storageclass_controller.go:278-399 | when the clusters of a class can be determined, for all classes and secrets: the secret it names is there and, for a regular class, a cluster with the address comes before any cluster without its secret; for a topology class, both texts are tables, no cluster secret is missing, every id has an address, and those that lead to a cluster have their object in the class |
| Matching.MatchDeterminedExact | controllers/storageclass/storageclass_controller.go:315-322 | all successful matches of a class agree, whatever the iteration orders, if and only if ids that lead to the same cluster give the same pool |
| Matching.TwoMatches | controllers/storageclass/storageclass_controller.go:315-322 | where they do not, either pool may come out, each in some order of the loop |
| Matching.SharedAddressMatches | controllers/storageclass/storageclass_controller.go:377-399 | one cluster at one address under two ids: the two orders of the ids give the two pools, although clusters and their addresses are distinct |
| PersistentVolumes.HandleNamesItsSystem | controllers/persistentvolume/persistentvolume_controller.go:249-263 | the second colon-separated part of a handle is the system id it was built with |
| PersistentVolumes.ClassOfExact | controllers/persistentvolume/persistentvolume_controller.go:207-231 | a volume's class is the one its claim names; the lookup fails if the claim or the class is missing |
| PersistentVolumes.AddressExact | controllers/persistentvolume/persistentvolume_controller.go:207-278 | a volume has an address exactly if its claim, class and secret are there and, for a topology class, the second part of its handle has one in the secret, and it is that one; otherwise there is no label |
| PersistentVolumes.PersistentVolume.EnsureStorageSystemLabel | controllers/persistentvolume/persistentvolume_controller.go:166-205 | the label names the indexed cluster or is absent, no other label changes, and an Update is sent exactly if something changed |
| PersistentVolumes.RegularLabelIsMatch | controllers/persistentvolume/persistentvolume_controller.go:166-205 | for a regular class, the label of its volumes is exactly the matched cluster if and only if the class's secret and all cluster secrets are there and no two clusters share the address of the class's secret |
| PersistentVolumes.TopologyLabelIsMatched | controllers/persistentvolume/persistentvolume_controller.go:239-277 | a topology volume's label is among the class's matches; with distinct addresses its pool is its own id's, or else the class's |
| PersistentVolumes.TopologyPoolExact | controllers/persistentvolume/persistentvolume_controller.go:239-277 | for a topology volume labelled f, every match gives f the pool of the volume's own id if and only if all ids that lead to f give that pool |
| PersistentVolumes.DistinctIdsDetermine | controllers/storageclass/storageclass_controller.go:315-322 | distinct cluster names and distinct addresses of the ids are enough for that |
| StorageClassWatcher.Reconcile | controllers/storageclass/storageclass_controller.go:191-276 | a whole request: the target comes from the lookups, also for a terminating class, and the pass runs to it; it fails with the match error, without a write, exactly if the class was found and its clusters cannot be determined |
| StorageClassWatcher.TargetMeans | controllers/storageclass/storageclass_controller.go:233-257 | what the lookups make a pass want: nothing, with a failure before the loop, if the match fails; the matched pools in just the matched entries for a live class; the class in no entry for a terminating or missing one, of which only the former needs the matched keys |
| DefaultStorageClass.ResolvesToOwnSecret | controllers/driver.go:56-86 | the default class resolves to its cluster's own secret and carries the default pool |
| DefaultStorageClass.OwnMatchExact | controllers/storageclass/storageclass_controller.go:327-358 | a regular class naming a cluster's secret is matched to exactly that cluster if and only if neither its secret nor an earlier cluster's is missing and no earlier cluster shares the address |
| DefaultStorageClass.RegularMatchExact | controllers/storageclass/storageclass_controller.go:327-358 | a regular class is matched to exactly a given cluster if and only if its secret is there and the scan for the secret's address stops at that cluster |
| DefaultStorageClass.OwnClassClosesLoop | controllers/persistentvolume/persistentvolume_controller.go:166-205 | for a regular class naming a cluster's secret: it is matched to exactly that cluster, its volumes carry its label and its converged entry holds the class, if and only if no cluster's secret is missing and no other cluster shares the address |
| DefaultStorageClass.DefaultClassClosesLoop | controllers/driver.go:56-86 | the default class is matched to exactly its cluster and pool, its volumes are labelled with it and the converged entry holds it, under the same exact condition |
| DefaultStorageClass.CompareDefaultStorageClass | controllers/driver.go:88-102 | true exactly if the provisioner and all expected parameters are there |
| DefaultStorageClass.AcceptedExactly | controllers/driver.go:56-102 | an existing class is accepted exactly if it has the block driver, the default pool with its settings and the cluster's secret for provisioning, publishing and expanding |
| DefaultStorageClass.DefaultClassServes | controllers/driver.go:56-86 | the class built for a cluster has exactly these parameters and the configured name |
| DefaultStorageClass.AcceptedClassExact | controllers/driver.go:88-102 | an accepted existing class is always matched to exactly the cluster and its default pool if and only if, for a regular class, the secret it resolves to is there and the scan for its address stops at the cluster, and for a topology class, its ids lead to that cluster and pool only |
| DefaultStorageClass.TopologyMatchExact | controllers/storageclass/storageclass_controller.go:299-325 | a topology class always gets exactly one given cluster and pool if and only if some id leads to a cluster and every id that does leads there and selects that pool |
| DefaultStorageClass.TopologyClassIsAccepted | controllers/driver.go:88-102 | the expected class with `by_management_id` on top is accepted and resolves to the cluster's secret, and its match fails |
| DefaultStorageClass.OtherSecretIsAccepted | controllers/util/poolutil.go:323-332 | the expected class with default keys that name another secret at the same address is accepted, resolves to that secret, and is matched to the cluster |
| SecretEvents.SecretStorageClassMap | controllers/storageclass/storageclass_controller.go:133-171 | the requests are exactly the block-driver classes concerned |
| SecretEvents.RequestedExactly | controllers/storageclass/storageclass_controller.go:133-171 | a class gets a request exactly if it is the block driver's and the secret carries the prefix or is the one the class names |
| SecretEvents.MapperIsComplete | controllers/storageclass/storageclass_controller.go:133-171 | if the secret carries the prefix or is no cluster's secret, a class the mapper does not name has the same possible matches before and after any change of the secret |
| SecretEvents.MapperExact | controllers/storageclass/storageclass_controller.go:133-171 | for a list of clusters and a secret, all classes the mapper does not name keep their matches under all changes of the secret if and only if it carries the prefix or is no cluster's secret |
| SecretEvents.UnprefixedIsMissed | controllers/storageclass/storageclass_controller.go:133-171 | for every list with an unprefixed cluster secret there is a class whose match the deletion of that secret breaks without a request |
| SecretEvents.IsTopologySecretUpdated | controllers/util/poolutil.go:159-181 | true exactly if both secrets decode and some old id lost or changed its address |
| SecretEvents.IgnoredUpdateKeepsAddresses | controllers/util/poolutil.go:124-181 | an ignored update keeps every non-empty address of an old id |
| SecretEvents.IgnoredUpdateKeepsVolumes | controllers/persistentvolume/persistentvolume_controller.go:207-278 | after an ignored update every topology volume computes its old address, if that was not empty |
| SecretEvents.AddedIdIsIgnored | controllers/util/poolutil.go:170-180 | an update that only adds an id is ignored, although volumes of that system gain an address |
| SecretEvents.IgnoredUpdateExact | controllers/util/poolutil.go:124-181 | after an ignored update every volume handle computes the same non-empty addresses as before, if and only if, when both versions decode into texts, no added id that a handle can name has a non-empty address, and otherwise all ids a handle can name keep theirs |
| SecretEvents.HandlesExact | controllers/persistentvolume/persistentvolume_controller.go:239-277 | for any two versions of a secret, all handles get the same non-empty addresses if and only if all ids without a colon show the same |
| SecretEvents.NumberHidesChange | controllers/util/poolutil.go:159-169 | a field that is not a text makes the filter ignore a change of the address beside it, with no id added |
| SecretEvents.PlainFilterExact | controllers/util/poolutil.go:124-139 | for all secrets, a changed effective address passes the filter exactly if, without `config`, the key is present on both sides, and with `config`, if some id lost or changed its address; a change of the plain address alone passes exactly without `config` and with the key on both sides |
| SecretEvents.IsTopologySecretHasMgmtAddr | controllers/util/poolutil.go:145-157 | true exactly if the secret decodes and every id has an address field |
| SecretEvents.SecretMgmtAddrPredicate | controllers/util/poolutil.go:99-143 | the filter for created, updated and deleted secrets |
| SecretEvents.UpdatePassesExactly | controllers/util/poolutil.go:124-181 | on the secrets themselves: an update of a topology secret passes exactly if both versions are tables of texts and an id is lost or its address changes; any other, if the plain address is there on both sides and changes |
| SecretEvents.PresencePassesExactly | controllers/util/poolutil.go:100-157 | a creation or deletion passes exactly if, with `config`, it is a table of texts in which every id has an address field, and otherwise if there is a plain address |
| SecretEvents.EmptyAddressIsNone | controllers/util/poolutil.go:305-320 | to all matches a secret without an address is one with the empty address |
| SecretEvents.UnreachedKeepsMatches | controllers/storageclass/storageclass_controller.go:133-189 | filter and mapper together: an event that makes no request for a class leaves its possible matches alone, unless the filter stopped it although presence, address or usable ids of the secret changed, or it is a new address of a cluster's unprefixed secret |
| SecretEvents.FilterMapperExact | controllers/util/poolutil.go:99-143 | over all surroundings, the classes an event makes no request for keep their matches if and only if presence, address and usable ids of the secret stay, or the event passes the filter and the secret carries the prefix or keeps its effective address |
| SecretEvents.EventMattersExact | controllers/storageclass/storageclass_controller.go:278-399 | the matches of all classes survive an event in all surroundings if and only if presence, plain address and usable ids of the secret stay the same |
| Conditions.FindStatusCondition | controllers/util/condition.go:167-175 | the first condition of the type |
| Conditions.IsStatusConditionPresentAndEqual | controllers/util/condition.go:188-195 | true exactly if the first condition of the type has the status |
| Conditions.SetStatusCondition | controllers/util/condition.go:129-149 | the in-place change of the list; nothing through a nil pointer |
| Conditions.RemoveStatusCondition | controllers/util/condition.go:152-164 | the list without the type |
| Conditions.LookupAfterSet | controllers/util/condition.go:129-149 | after a set the type reads as set, and its transition time moves exactly if the status changed |
| Conditions.OthersAfterSet | controllers/util/condition.go:129-149 | every other type reads as before |
| Conditions.LookupAfterRemove | controllers/util/condition.go:152-164 | the type is gone, others read as before and keep their order |
| Conditions.RunKeepsLaws | controllers/util/condition.go:129-175 | over any sets and removals with an ascending clock, types stay unique and no transition is later than its heartbeat |
| ReconcilePass.ReadAfterPass | controllers/flashsystemcluster_controller.go:295-411 | what every condition type reads after a pass, for each step it may fail at |
| ReconcilePass.PhaseAfterSuccess | controllers/flashsystemcluster_controller.go:397-411 | an all-success pass ends Ready exactly if ExporterReady and StorageClusterReady read True at its start, else Not Ready, never Progressing |
| ReconcilePass.UpdatePhase | controllers/flashsystemcluster_controller.go:399-411 | the phase that goes with the condition list |
| ReconcilePass.PhaseFromExactly | controllers/flashsystemcluster_controller.go:399-411 | Ready exactly if the four kinds read True, in progress if not and Progressing does, else Not Ready; Unknown is not True |
| ReconcilePass.PassKeepsLaws | controllers/util/condition.go:129-149 | under a clock that does not run backwards a pass, wherever it ends, keeps kinds unique and no transition later than its heartbeat |
| ReconcilePass.CompleteTellsLastPass | controllers/flashsystemcluster_controller.go:295-397 | in every run, ReconcileComplete is True exactly if the last stored pass succeeded in all steps |
| ReconcilePass.PhaseTellsLastDecisive | controllers/flashsystemcluster_controller.go:306-314 | in every run the phase is the one the last pass that did not stop at the CSI step left |
| ReconcilePass.DecisivePhase | controllers/flashsystemcluster_controller.go:295-411 | such a pass leaves Error if it failed, else Ready or Not Ready by the exporter's conditions |
| ReconcilePass.ReadyButIncomplete | controllers/flashsystemcluster_controller.go:295-411 | Ready with ReconcileComplete not True implies a full success since which every pass stopped at the CSI step |
| ReconcilePass.IsContain | controllers/util/k8sutil.go:83-90 | membership |
| ReconcilePass.RemoveString | controllers/util/k8sutil.go:92-100 | the list without the string |
| ReconcilePass.FinalizerIsGuarded | controllers/flashsystemcluster_controller.go:263-286 | the finalizer is dropped only from a deleting cluster whose default class is undefined, absent or deleted; other finalizers keep content and order |
| ReconcilePass.FinalizerGoesExactly | controllers/flashsystemcluster_controller.go:272-286 | an event takes the finalizer away exactly if it is an accepted pass over the deleting object whose default class was undefined, absent or deleted |
| ReconcilePass.DeletionGoesThrough | controllers/flashsystemcluster_controller.go:272-286 | once the object is deleted, whatever others do to it, the next accepted pass that can clear the default class takes the finalizer, and only that |
| ReconcilePass.FinalizerGoneMeansCleared | controllers/flashsystemcluster_controller.go:272-286 | in every run in which the finalizer went, it went in a pass over the deleting object with the default class cleared |
| ReconcilePass.SetReconcileErrorCondition | controllers/util/condition.go:70-83 | afterwards ReconcileComplete reads False with the given message and Progressing True, transition times moving only with the status; every other kind reads as before |
| ReconcilePass.SetReconcileProvisionerErrorCondition | controllers/util/condition.go:87-101 | afterwards ReconcileComplete and ProvisionerReady read False with the given message, transition times moving only with the status; every other kind reads as before |
| ReconcilePass.SetReconcileCompleteCondition | controllers/util/condition.go:105-126 | afterwards ReconcileComplete and ProvisionerReady read True and Progressing False, transition times moving only with the status; every other kind reads as before |
| ReconcilePass.ReconcileFinalizer | controllers/flashsystemcluster_controller.go:263-286 | a deleting cluster loses the finalizer, keeps the others in order and is terminated, unless its default class cannot be read or deleted or the Update is refused; a live one has it and proceeds, unless the Update is refused; a refusal stops the pass with nothing stored |
| ReconcilePass.ReconcileSteps | controllers/flashsystemcluster_controller.go:295-414 | the pass completes exactly if all eight steps succeed, and otherwise stops at the first that fails; ReconcileComplete tells which, the phase is Error unless the CSI step stopped it; the ConfigMap is written only if the first two steps succeed |
| ReconcilePass.FirstFailureExact | controllers/flashsystemcluster_controller.go:295-395 | a pass goes through exactly if all eight steps succeed, and stops at a step exactly if that one fails and all before it succeed |
| ReconcilePass.ReconcileInstance | controllers/flashsystemcluster_controller.go:253-414 | the whole pass: stopped by its finalizer part; or, for a deleting cluster, ended by the removal of its entry, with the status untouched and the finalizer gone; or ended by the eight steps as above |
| CsiDriver.HasIBMBlockCSICRExisted | controllers/driver.go:263-279 | found exactly if some answer before a failure lists a resource; not-found answers are skipped |
| CsiDriver.ListResources | controllers/flashsystemcluster_controller.go:838-873 | the search over the namespaces amounts to one listing of the cluster at its last call: it fails, or finds a resource that exists then, or finds none because none exists |
| CsiDriver.AtMostOne | controllers/flashsystemcluster_controller.go:838-873 | at most one CSI resource in every reachable state, with arbitrary outside deletions |
| CsiDriver.PassEstablishes | controllers/flashsystemcluster_controller.go:838-873 | from every reachable state with the flag down, an undisturbed pass ends with exactly one resource, the one found or a new one, and a raised and true flag; a failed creation leaves none and the flag down |
| CsiDriver.RaisedFlagSkips | controllers/flashsystemcluster_controller.go:839-842 | as long as the flag is up and no delete event is delivered, passes neither list nor create |
| CsiDriver.RaiseExact | controllers/flashsystemcluster_controller.go:850-872 | raising the flag leaves it truthful exactly if the delete event of the resource in hand was not delivered since the listing |
| CsiDriver.FlagIsBacked | controllers/flashsystemcluster_controller.go:113-114 | without that race a raised flag means the resource exists or its delete event is still to come, in every reachable state |
| CsiDriver.RaceLeavesFlagStuck | controllers/flashsystemcluster_controller.go:113-114 | with it, the flag stays up with the resource gone and no event pending |
| Exporter.IsOwnerExist | controllers/exporter.go:79-86 | true exactly if some owner has the UID |
| Exporter.WantedExactly | controllers/exporter.go:286-351 | there is something to send exactly if the owner is missing or the spec differs; it has the spec and the owners there were, with the new one after them if it was missing |
| Exporter.UpdateExporterDeployment | controllers/exporter.go:286-297 | the found object gains the owner in place; the copy returned, if any, has owner and expected spec |
| Exporter.UpdateExporterMetricsServiceMonitor | controllers/exporter.go:335-351 | likewise for the ServiceMonitor |
| Exporter.FirstPassCreates | controllers/exporter.go:159-284 | the first cluster of a namespace creates the object with itself as the only owner, the configured image and its namespace |
| Exporter.SharedObjectJoins | controllers/flashsystemcluster_controller.go:538-590 | for any clusters of a namespace, in any order and repetition: earlier owners stay a prefix, UIDs stay unique, every reconciled cluster owns the object with the expected spec and has nothing more to update |

## Left out

- Client set-up, watches, logging, events, RBAC, the console plugin and the cluster-version controller: no logic of their own.
- JSON and YAML text: entries, secrets and parameters are modelled decoded, so re-encoding an entry that was written by
  hand in another layout, which counts as a change of its text, is not captured.
- API-server defaulting, admission and garbage collection; errors of a read other than "not found".
- The exporter Service: its update compares neither the selector nor a serializable port value.
- Exporter specs beyond image and namespace: all their other fields are constants.
- Listing namespaces: Namespace objects are cluster scoped, so each List call covers the whole cluster; the model takes
  one listing, at its decisive call, and assumes there is at least one namespace.
- Reading the CSI resource and the Prometheus rules from files, and the rules' templating.
- Secret ownership, clean-up of historical objects and the default class's creation enter a pass only as steps that
  succeed or fail.
- A cluster that is being deleted while classes are matched: the code still lists and matches it, so that its classes'
  passes fail on the missing entry until it is gone; the fixed surroundings of `LookupConvergence` have no such cluster.
- Clusters of one name in different namespaces: clusters are known by name, as in the ConfigMap; a lemma that needs
  names to be unique says so.
- The mapper from a deleted StorageClass to clusters, which dereferences a missing default pool.
- DefaultStorageClass.CompareDefaultStorageClass: `by_management_id` of an existing class is not looked at, as in the code.
