# Verified model of the namespace-lister access cache

The namespace-lister answers "which namespaces may this user get?" from an index that it computes
ahead of time. This project models that access cache, from the resource events that make it stale to
the list a request is answered with, and proves what can be relied on.

## What is modelled

- **The refresh protocol** (`Protocol`, `Invariants`, `Exclusion`, `LostUpdates`, `Recovery`,
  `LostToken`, `Snapshots`, `Startup`). Informers, ticker, worker and direct callers of `Synch` are a step
  relation; steps interleave freely. A run lists the namespaces in one step and asks for the allowed subjects of
  each namespace in two more (the call begins, the call ends); the resource cache may change between any
  two of them. The theorems are about every state of every execution.
- **Go maps as shared heap cells** (`SharedHeap`). A namespace object holds references. The resource
  cache hands out its own objects, a run writes the visibility label into their label maps, and only the
  deep copy allocates. The same functions describe a step of the protocol and the sequential code.
- **The code as objects** (`Synchronizer`, `ListCache`, `Metrics`, `Transforms`, `Startup`): classes whose
  methods update fields in place, with the environment's answers as parameters.
- **The index and its readers** (`AccessIndex`, `Namespaces`, `EndToEnd`, `Usernames`, `Matching`), **sorting and
  deduplication** (`Slices`, `Subjects`), **rule trimming** (`Rbac`, `Transforms`) and **totals**
  (`Totals`, `Metrics`).

The main results: `LostUpdates.NoLostUpdate`, `LostUpdates.EveryRunRecovers`,
`LostUpdates.SnapshotsAreImmutable`, `Snapshots.PublishedRefinesLoop`, `Snapshots.PublishedCopy`,
`EndToEnd.QuiescentRequestIsExact`, `EndToEnd.ReplyIsStable`, `EndToEnd.QuiescentRequestAgreesWithRbac`,
`Matching.LookupAgreesExactly` and `Rbac.ClusterLosslessExactly`.

## Assumptions about the environment

- An informer replaces the object in its store before it hands the event to the handler, and it replaces
  objects instead of writing into them: a changed object has new maps.
- A map handed out as labels is never also handed out as annotations, and namespace names are distinct.
- `AllowedSubjects` is a function of the version of the resource cache if that does not change during the
  call; otherwise its answer can be anything. Its order and repetitions are open, and an error that comes
  with subjects is ignored, as in the code.
- RBAC honours a binding's subject for a request by kind: a user subject by the name as it is, a group
  subject by membership, a service account subject if the name is `system:serviceaccount:` with its
  namespace and name, where an empty namespace stands for the role binding's own. API groups are not
  looked at, nor are namespaces of users and groups.
- Nobody calls `Synch` before `Start`: the only caller besides the worker is startup, which starts the
  cache first.
- Lists and Go map iterations come in any order.

## Where the code falls short of its promise

Each is kept as the code has it, with a concrete input and the exact condition.

- A namespace with a nil label map gets no visibility label (`Namespaces.NilLabelsLoseVisibility`,
  `Namespaces.VisibilityExact`).
- A subject-namespace annotation that the namespace object already carries stays on copies made for
  subjects without a namespace (`Namespaces.ForeignSubjectNamespaceSurvives`, `Namespaces.CopyNamesItsSubject`).
- `parseUsername` indexes out of range (`Usernames.ParseCanFail`, `Usernames.ParseFailsExactly`).
- The repository's README promises every namespace the user has `get` access on. Access granted through a
  wildcard only is lost by trimming (`Rbac.WildcardIsLost`; per role exactly `Rbac.TrimIsLosslessExactly`),
  and access through a cluster role binding without the use-for-access label is not seen
  (`Rbac.UnlabelledBindingIsLost`). For a whole cluster `Rbac.ClusterLosslessExactly` has the exact
  condition on its bindings and rules.
- The lister parses the user name into one subject and looks that up, where RBAC matches every subject
  against the name. For every cluster, request and namespace `Matching.LookupAgreesExactly` has the exact
  condition under which the two decide alike, and `Matching.MatchExactly` has it subject by subject.
  - A name with a fifth piece is answered as the service account of its third and fourth
    (`Matching.ExtraColonIsAnswered`); the lister stays within what RBAC grants, in all clusters, exactly for
    the names of `Matching.SoundExactly`.
  - A service account bound as a user is not found (`Matching.AccountBoundAsUserIsLost`); the lister answers
    all that RBAC grants, in all clusters of canonical subjects, exactly for names without the prefix
    (`Matching.CompleteExactly`).
  - A user or group subject that carries a namespace is not found (`Matching.StrayNamespaceIsLost`,
    `Matching.IrregularIsNotFound`).
- Pair gauges of vanished groups and kinds are never reset (`Metrics.StaleGaugeSurvives`,
  `Metrics.AllGaugesAddUpExactly`).
- An update can be lost until the next request: the worker's token is spent on a rejected run while a
  direct caller that had already listed holds the flag (`LostToken.UpdateCanBeLost`). At rest the published
  run has read the current version only if and only if it listed it, the index is then exact, and otherwise
  the worker's last token was wasted by a rejected or failed run (`LostUpdates.RestingExactly`).
- Startup fails if the worker has already begun a run (`Startup.StartupCanBeRejected`,
  `Startup.StartupRejectedExactly`).

`AtomicListRestockCache` on its own dereferences nil when it is listed by several keys before the first
publication (`ListCache.NilDereferenceExactly`). The program cannot get there: it builds its server only
after startup has succeeded, and from then on requests fail on names that do not parse and on nothing else
(`EndToEnd.ReadyRequestPanicsExactly`).

## Model

| member | source | states |
|---|---|---|
| LostUpdates.NoLostUpdate | pkg/auth/cache/synchronized_access_cache.go:77-151 | in every reachable state after the first publication an event is undelivered, a token is pending, the worker is about to list, the worker's run has read the current version only, its last token went to a failed or rejected run, or the published index is a recomputation from the current version |
| LostUpdates.ExactAtQuiescence | pkg/auth/cache/synchronized_access_cache.go:248-297 | with no event or token waiting, the worker idle and its last token not wasted, the published index is exact although reads are not atomic and direct callers may be mid-run |
| LostUpdates.ListedNowIsFresh | pkg/auth/cache/synchronized_access_cache.go:99-151 | in every reachable state, if the last published run listed the current version, it has read nothing else and the index is exact |
| LostUpdates.RestingExactly | pkg/auth/cache/synchronized_access_cache.go:281-297 | at rest, whatever failed or was rejected: the published run has read the current version only if and only if it listed it; then the index is exact; otherwise the worker's last token was wasted by a rejected or failed run |
| LostUpdates.ExactWithoutFailures | pkg/auth/cache/synchronized_access_cache.go:281-297 | a consequence in terms a caller can observe: while no run has failed and the worker has not been turned away, an idle worker with nothing waiting means an exact index |
| LostToken.UpdateCanBeLost | pkg/auth/cache/synchronized_access_cache.go:289-294 | a reachable state without any failed run in which nothing waits, everybody is idle, and the published index is stale |
| LostUpdates.NextKeepsUpdates | pkg/auth/cache/synchronized_access_cache.go:99-151 | the inductive step: every kind of step keeps "once settled, nothing in progress or published has read an old version" |
| LostUpdates.PublishedSinceListStaysFresh | pkg/auth/cache/synchronized_access_cache.go:102-150 | a run that publishes while the version it listed is current makes the index exact until the next change, whatever other runs do |
| LostUpdates.PublishedSinceListIsFresh | pkg/auth/cache/synchronized_access_cache.go:102-150 | whatever happened before, a run that publishes while the version it listed is still current publishes an exact index |
| LostUpdates.EveryRunRecovers | pkg/auth/cache/synchronized_access_cache.go:77-151 | if the resource cache does not change from one state to another and any run that won the flag after the first publishes in between, the index is exact in the second, whatever was wasted or half done before |
| Recovery.RecoveryIsPossible | pkg/auth/cache/synchronized_access_cache.go:266-297 | from every reachable state after Start, even with a wasted token or a caller mid-run, some run as above can happen: a continuation with one tick and no store change ends with an exact index and an idle worker |
| LostUpdates.SnapshotsAreImmutable | pkg/auth/cache/synchronized_access_cache.go:137-148 | an index, once published, says in every later state exactly what its own pass had read |
| LostUpdates.OnlyVisibilityIsOverwritten | pkg/auth/cache/synchronized_access_cache.go:153-206 | over any stretch of any execution no map changes except for the visibility key of label maps shared with the resource cache |
| LostUpdates.AllOrNothing | pkg/auth/cache/synchronized_access_cache.go:99-151 | every index ever readable comes from one complete pass over one list of one version |
| LostUpdates.PublicationsInOrder | pkg/auth/cache/synchronized_access_cache.go:77-97 | publications come in the order in which their runs won the flag, and the version listed never decreases |
| LostUpdates.MutualExclusion | pkg/auth/cache/synchronized_access_cache.go:77-82 | the flag is set exactly while one caller holds it, and only that caller clears it |
| Exclusion.NextKeepsMutex | pkg/auth/cache/synchronized_access_cache.go:77-82 | every kind of step keeps at most one holder and the flag equal to there being one |
| LostUpdates.SingleWorker | pkg/auth/cache/synchronized_access_cache.go:263-299 | one worker and one ticker however often Start is called, and no rejection of the worker while nobody calls Synch directly |
| LostUpdates.CountsAreConserved | pkg/auth/cache/metrics_accesscache.go:143-188 | queued requests are taken or pending, requests are queued or skipped, runs are completed, failed or in progress, publications are completed runs |
| LostUpdates.ReadyMeansStocked | access_cache_startup.go:55-60 | once startup's own Synch has succeeded there is a snapshot in every later state |
| LostUpdates.ReachableInv | pkg/auth/cache/synchronized_access_cache.go:77-299 | the conjunction of all protocol invariants holds in every state of every execution |
| Invariants.NextKeepsRuns | pkg/auth/cache/synchronized_access_cache.go:99-151 | every kind of step keeps every run's and every published index equal, read through the heap, to what its reads should produce |
| Invariants.CompleteRunPublishes | pkg/auth/cache/synchronized_access_cache.go:109-148 | a run that has visited all namespaces publishes, and a run fails only at its list or before a namespace |
| Invariants.NextKeepsWorld | internal/resourcecache/cache_build.go:55-62 | every kind of step keeps the objects of every version intact up to the visibility label |
| Snapshots.PublishedCopy | pkg/auth/cache/synchronized_access_cache.go:136-206 | in every state a published copy is the listed namespace decorated with the same run's subjects and its own subject only; its visibility is there if and only if the label map was not nil, and then "authenticated" exactly if system:authenticated was allowed; it names its subject under the exact condition |
| Snapshots.PublishedPairs | pkg/auth/cache/metrics_accesscache.go:190-198 | every published index has one pair per namespace and distinct allowed subject |
| Snapshots.RunIsLoop | pkg/auth/cache/synchronized_access_cache.go:106-145 | at any point of any run the index says what the sequential loop over the namespaces seen so far builds, whatever happened to the heap since the list |
| Snapshots.PublishedRefinesLoop | pkg/auth/cache/synchronized_access_cache.go:99-151 | every published index says, in every later state, what one sequential run over the same list and answers builds |
| Snapshots.CurrentHeapMeets | pkg/auth/cache/synchronized_access_cache.go:99-151 | the current heap and the answers of the run, in any order and with any repetitions, are what such a sequential run meets |
| Snapshots.PublishedIsSomeLoop | pkg/auth/cache/synchronized_access_cache.go:99-151 | there always is such a sequential run, on the heap as it is now |
| Snapshots.AnswerIsOneIteration | pkg/auth/cache/synchronized_access_cache.go:109-145 | an answer step is one iteration of the sequential loop: the index says before it what the loop makes of the answers so far, and after it what the loop makes of one more |
| EndToEnd.ReachableRequestIsExact | namespacelister_subject.go:30-63 | in every reachable state with a snapshot, quiet or not, the answer is each name once and exactly the namespaces for which the last published run was answered an identity of the request |
| EndToEnd.RecoveredRequestIsExact | namespacelister_subject.go:30-63 | once any run that won the flag after a change has published, every request until the next change is answered exactly from the current version |
| EndToEnd.QuiescentRequestIsExact | namespacelister_subject.go:30-63 | at quiescence a request whose name parses is answered with each name once and exactly the namespaces that the user or a group may get in the current version |
| EndToEnd.ReplyIsStable | namespacelister_subject.go:30-45 | the items of a reply say in every later state, whatever runs and store changes follow, what they said when it was given: the listed namespaces decorated for the first identity in key order that the run was answered for them, and every namespace with such an identity has its item |
| EndToEnd.FirstGroupWins | pkg/auth/cache/atomiclistrestockcache.go:57-71 | a namespace allowed to a group, to no earlier group of the request and not to the user, is answered in every later state with the copy made for that group |
| EndToEnd.QuiescentRequestIsLiteral | namespacelister_subject.go:29-45 | a namespace is answered if and only if a role binding in it, labelled or not, or a labelled cluster role binding ties a parsed subject to a literal rule for it; then the cluster allows that subject, and under Rbac.ClusterCovered only then |
| EndToEnd.QuiescentRequestAgreesWithRbac | namespacelister_subject.go:29-45 | against what RBAC grants the user under the name as it is: never more, in any cluster, for a plain name and for that of a service account with four pieces and a namespace; where literal grants cover the others, the same if and only if the lookup decides as RBAC does |
| EndToEnd.RequestIsAnsweredExactly | namespacelister_subject.go:30-63 | after any run over distinct namespaces the answer is, each name once, the namespaces whose allowed subjects meet the identities, for every group list |
| EndToEnd.UserGrantWins | pkg/auth/cache/atomiclistrestockcache.go:57-72 | a namespace granted to the user directly is answered with the copy made for the user, whatever the groups hold |
| EndToEnd.FastPathAgreesOnBuiltIndex | pkg/auth/cache/atomiclistrestockcache.go:27-82 | on every index a run builds, single-key listing is a permutation of general listing on any repetition of the key |
| EndToEnd.ListNamespaces | namespacelister_subject.go:30-45 | the reply is one the specification of parsing and listing allows |
| EndToEnd.ReadyRequestPanicsExactly | main.go:97-149 | in every state after startup has succeeded a request fails if and only if its user name does not parse |
| EndToEnd.PanicsExactly | pkg/auth/cache/atomiclistrestockcache.go:47-61 | taken on its own, the lister fails if and only if the name does not parse, or there are groups and no snapshot |
| SharedHeap.VisitExtendsPass | pkg/auth/cache/synchronized_access_cache.go:133-145 | visiting a namespace makes the index say what the pass extended by that read should produce, and keeps the index's maps private |
| SharedHeap.ViewsSurviveSharedWrite | pkg/auth/cache/synchronized_access_cache.go:161-175 | a write into a map the index does not hold changes nothing the index says |
| SharedHeap.AddCopiesPrivate | pkg/auth/cache/synchronized_access_cache.go:178-206 | the copies are on new maps, disjoint from all shared ones |
| SharedHeap.VisitFrame | pkg/auth/cache/synchronized_access_cache.go:136-144 | visiting a namespace overwrites nothing but the visibility label of its own label map |
| AccessIndex.EntryIsSubsequence | pkg/auth/cache/synchronized_access_cache.go:106-145 | the entry of a subject is the pass at exactly the positions that allow it, in order and once |
| AccessIndex.EntryIgnoresStaleVisibility | pkg/auth/cache/synchronized_access_cache.go:136-144 | passes that differ in stale visibility labels only give the same entries |
| AccessIndex.EntryHasDistinctNames | pkg/auth/cache/synchronized_access_cache.go:139-144 | over distinct namespaces an entry repeats no name |
| AccessIndex.EntryNames | pkg/auth/cache/synchronized_access_cache.go:139-144 | a name is in a subject's entry if and only if a namespace of that name allows the subject |
| Namespaces.VisibilityExact | pkg/auth/cache/synchronized_access_cache.go:153-176 | a copy states the right visibility if and only if the namespace's label map was not nil |
| Namespaces.VisibilityLabel | pkg/auth/cache/synchronized_access_cache.go:153-176 | with a label map, the visibility of a copy is "authenticated" if and only if the RBAC group system:authenticated is among the allowed subjects, whatever its namespace, and "private" otherwise |
| Namespaces.NilLabelsLoseVisibility | pkg/auth/cache/synchronized_access_cache.go:161-175 | an input on which a namespace open to every authenticated user gets no visibility label |
| Namespaces.StaleVisibilityNeverSurvives | pkg/auth/cache/synchronized_access_cache.go:136-176 | copies do not depend on a visibility that an earlier run left in the shared map |
| Namespaces.CopyNamesItsSubject | pkg/auth/cache/synchronized_access_cache.go:182-202 | a copy names its subject exactly, if and only if the subject has a namespace or the object does not carry the subject-namespace annotation |
| Namespaces.CopyLabels | pkg/auth/cache/synchronized_access_cache.go:182-202 | the access label is "user", "group" or "serviceaccount" by kind, and the annotations carry the subject's name and, if it has one, namespace |
| Namespaces.ForeignSubjectNamespaceSurvives | pkg/auth/cache/synchronized_access_cache.go:194-202 | an input on which a foreign subject-namespace annotation survives |
| Namespaces.CopyKeepsTheRest | pkg/auth/cache/synchronized_access_cache.go:178-206 | all other labels and annotations of a copy are the namespace's own |
| Synchronizer.SynchronizedAccessCache.Synch | pkg/auth/cache/synchronized_access_cache.go:77-97 | a second caller changes nothing; a failed run leaves index and gauges and is counted under the text of its own error, be it of the list, a cancellation or a timeout; a successful one stores the index of a complete pass on private maps; the heap changes by what was visited; no earlier private index changes |
| Synchronizer.SynchronizedAccessCache.SynchData | pkg/auth/cache/synchronized_access_cache.go:99-151 | list error, context cancelled or timed out after any number of namespaces, and success, with the error of each, and heap and stored index after it |
| Synchronizer.SynchronizedAccessCache.VisitAll | pkg/auth/cache/synchronized_access_cache.go:108-145 | the loop stops before the namespace at which the context has expired and has done exactly the iterations before it |
| Synchronizer.SynchronizedAccessCache.VisitNamespace | pkg/auth/cache/synchronized_access_cache.go:133-144 | one iteration with in-place deduplication is the visit on heap and index |
| Synchronizer.SynchronizedAccessCache.SetVisibilityVirtualLabel | pkg/auth/cache/synchronized_access_cache.go:153-176 | the shared label map gets "authenticated" if the RBAC group system:authenticated is among the subjects and "private" if not, and nothing else changes; a nil one is left nil |
| Synchronizer.SynchronizedAccessCache.WithVirtualLabelsAndAnnotationsForAccess | pkg/auth/cache/synchronized_access_cache.go:178-206 | the copy is on two new maps: the old contents with the access label, and with the subject-name and, for a subject with a namespace, the subject-namespace annotation |
| Synchronizer.SynchronizedAccessCache.Request | pkg/auth/cache/synchronized_access_cache.go:238-257 | a request is queued if and only if no token is pending, and counted under its event and outcome |
| Synchronizer.SynchronizedAccessCache.Start | pkg/auth/cache/synchronized_access_cache.go:263-299 | after any number of calls there is one worker and one ticker |
| Synchronizer.LoopMatches | pkg/auth/cache/synchronized_access_cache.go:106-145 | the index the loop builds says what the pass over the list and the answers should produce, on private maps |
| Synchronizer.LoopFrame | pkg/auth/cache/synchronized_access_cache.go:108-145 | the loop overwrites nothing but visibility labels of listed namespaces |
| ListCache.AtomicListRestockCache.List | pkg/auth/cache/atomiclistrestockcache.go:27-45 | none, one or several keys, with and without a snapshot |
| ListCache.AtomicListRestockCache.ListAll | pkg/auth/cache/atomiclistrestockcache.go:47-82 | from one snapshot: for every id under the keys the first element in key order, once, and no more elements than the entries have together |
| ListCache.AtomicListRestockCache.Restock | pkg/auth/cache/atomiclistrestockcache.go:22-25 | the data is replaced as a whole |
| ListCache.IdsAreTheUnion | pkg/auth/cache/atomiclistrestockcache.go:54-72 | the ids returned are the union over the keys |
| ListCache.FirstKeyWins | pkg/auth/cache/atomiclistrestockcache.go:64-71 | an element under the first key is returned as that key has it |
| ListCache.FirstOwner | pkg/auth/cache/atomiclistrestockcache.go:57-72 | the element returned for an id belongs to the first key that has the id |
| ListCache.FirstWinsIsDetermined | pkg/auth/cache/atomiclistrestockcache.go:74-81 | two results for the same keys are permutations of each other |
| ListCache.FastPathAgrees | pkg/auth/cache/atomiclistrestockcache.go:38-82 | single-key and general listing agree up to order on any repetition of a key |
| ListCache.NilDereferenceExactly | pkg/auth/cache/atomiclistrestockcache.go:39-61 | listing dereferences nil if and only if there are two keys or more and no snapshot |
| Subjects.CompareIsTotalOrder | pkg/auth/cache/synchronized_access_cache.go:210-221 | the four-field comparator is a total order that is 0 exactly on equal subjects |
| Subjects.CompareIsLexicographic | pkg/auth/cache/synchronized_access_cache.go:210-221 | the comparator orders by API group, then kind, then namespace, then name, each lexicographically |
| Subjects.DedupKeepsSet | pkg/auth/cache/synchronized_access_cache.go:208-233 | sort-then-compact is strictly increasing and keeps exactly the set of subjects |
| Subjects.DedupDependsOnSetOnly | pkg/auth/cache/synchronized_access_cache.go:208-233 | two answers deduplicate to the same sequence if and only if they have the same subjects |
| Subjects.RemoveDuplicateSubjects | pkg/auth/cache/synchronized_access_cache.go:208-233 | the in-place algorithm computes that sequence |
| Slices.SortInPlace | pkg/auth/cache/synchronized_access_cache.go:210-221 | the slice ends up sorted by the comparator |
| Slices.SortPermutes | pkg/auth/cache/synchronized_access_cache.go:210-221 | sorting permutes |
| Slices.CompactInPlace | pkg/auth/cache/synchronized_access_cache.go:224-229 | the kept part has the first of every run of equal neighbours |
| Metrics.WrittenGaugesAddUp | pkg/auth/cache/metrics_accesscache.go:193-204 | the pair gauges a run writes add up to the pairs in its index |
| Metrics.AllGaugesAddUpExactly | pkg/auth/cache/metrics_accesscache.go:200-204 | all pair gauges add up to the index if and only if those not written were zero |
| Metrics.StaleGaugeSurvives | pkg/auth/cache/metrics_accesscache.go:200-204 | an index and gauges on which they do not |
| Metrics.PairsCountThePass | pkg/auth/cache/metrics_accesscache.go:193-198 | the pairs in an index are the distinct allowed subjects added up over the namespaces |
| Metrics.AccessCacheMetrics.CollectSynchMetrics | pkg/auth/cache/metrics_accesscache.go:174-205 | a failed run puts up the counter of its error by one and no other and leaves the gauges; a completed one sets subjects and its pair gauges; the duration is observed under the outcome |
| Metrics.GroupKindLabel | pkg/auth/cache/metrics_accesscache.go:195-196 | the gauge label is group, slash and kind, or the kind alone for a subject without API group |
| Metrics.TrimLeftExactly | pkg/auth/cache/metrics_accesscache.go:196 | exactly the leading slashes are removed |
| Metrics.AccessCacheMetrics.CountPairs | pkg/auth/cache/metrics_accesscache.go:193-198 | the count of each group and kind is the sum over its subjects, in whatever order they are taken |
| Metrics.AccessCacheMetrics.CollectRequestMetrics | pkg/auth/cache/metrics_accesscache.go:143-172 | exactly the counter of the event's trigger and outcome goes up by one |
| Rbac.TrimMeaning | internal/resourcecache/internal/transform/transformfuncs.go:99-112 | trimmed rules allow a name if and only if an original rule lists group, resource and verb literally and admits the name |
| Rbac.TrimIsSound | internal/resourcecache/internal/transform/transformfuncs.go:99-112 | trimming never allows what full RBAC with wildcards denies |
| Rbac.TrimIsLosslessExactly | internal/resourcecache/internal/transform/transformfuncs.go:99-112 | trimming preserves every decision if and only if literal rules cover the wildcard ones |
| Rbac.WildcardFreeIsCovered | internal/resourcecache/internal/transform/transformfuncs.go:99-112 | rules without wildcards are such rules |
| Rbac.WildcardIsLost | internal/resourcecache/internal/transform/transformfuncs.go:102-104 | a rule that grants access through a wildcard and is dropped |
| Rbac.TrimNarrows | internal/resourcecache/internal/transform/transformfuncs.go:99-112 | trimmed rules are the rules that list the core group, namespaces and get, in order and once, each reduced to just these with its names and URLs as they were |
| Rbac.TrimIsIdempotent | internal/resourcecache/internal/transform/transformfuncs.go:99-112 | trimming twice is trimming once |
| Rbac.ClusterLosslessExactly | internal/resourcecache/cache_build.go:64-83 | the resource cache preserves every decision of the cluster for every namespace if and only if selected bindings to literal rules cover whatever else a binding grants a subject |
| Rbac.FaithfulIsCovered | internal/resourcecache/cache_build.go:64-83 | that every binding is selected and every role's rules cover their wildcards is enough |
| Rbac.UnlabelledBindingIsLost | internal/resourcecache/cache_build.go:79-81 | a cluster in which a cluster role binding without the label grants every namespace by a literal rule and the cache does not see it |
| Rbac.CacheAllowsExactly | internal/resourcecache/cache_build.go:64-83 | what the resource cache holds allows a subject if and only if a role binding in the namespace, labelled or not, or a labelled cluster role binding has a rule that lists the core group, namespaces and get and admits the name |
| Rbac.BindingIsSeen | internal/resourcecache/cache_build.go:73-81 | all subjects of such a binding are allowed |
| Rbac.TrimmedAllowedSubjects | internal/resourcecache/cache_build.go:64-83 | with roles trimmed, empty ones evicted and cluster role bindings selected by label, the allowed subjects are exactly those a selected binding ties to a literal rule, and a subset of the cluster's |
| Rbac.FilterNamespacesRelatedPolicyRules | internal/resourcecache/internal/transform/transformfuncs.go:99-112 | the filter keeps the rules that list the core group, namespaces and get, in order and once, each reduced to just these with its names and URLs as they were |
| Transforms.MergeTransformFunc | internal/resourcecache/internal/transform/transformfuncs.go:14-25 | the loop is the chain with first-error short circuit |
| Transforms.MergeOne | internal/resourcecache/internal/transform/transformfuncs.go:14-25 | a chain of one is the function |
| Transforms.MergeConcat | internal/resourcecache/internal/transform/transformfuncs.go:14-25 | merging a concatenation is merging the parts one after the other |
| Transforms.MergeFailsExactly | internal/resourcecache/internal/transform/transformfuncs.go:18-22 | the chain fails if and only if a function fails on what those before it produced |
| Transforms.TrimRoleMeaning | internal/resourcecache/internal/transform/transformfuncs.go:37-54 | a cached role grants what the literal rules grant, is evicted exactly when that is nothing, and anything else is refused |
| Transforms.TrimClusterRoleMeaning | internal/resourcecache/internal/transform/transformfuncs.go:56-73 | the same for cluster roles |
| Transforms.CachedRoles | internal/resourcecache/internal/transform/transformfuncs.go:47-51 | the resource cache holds a role if and only if it literally allows some name |
| Transforms.TrimNamespaceMeaning | internal/resourcecache/internal/transform/transformfuncs.go:75-88 | a cached namespace keeps name, labels and annotations only; what is no namespace is refused |
| Transforms.TrimBindingMeaning | internal/resourcecache/internal/transform/transformfuncs.go:90-97 | a cached binding keeps its role and subjects, name and labels |
| Transforms.Cell.TrimRole | internal/resourcecache/internal/transform/transformfuncs.go:37-54 | the stored role ends up with narrowed rules and without annotations and managed fields, is evicted exactly when no rule is left, and anything else is refused, as the chain says |
| Transforms.Cell.TrimClusterRole | internal/resourcecache/internal/transform/transformfuncs.go:56-73 | the same for cluster roles |
| Matching.LookupAgreesExactly | namespacelister_subject.go:47-80 | for every cluster, request and namespace, looking up the parsed subjects decides as RBAC's own match if and only if a group grants it anyway, or the parsed subject is allowed and the name is faithful or allowed otherwise, or nothing else is allowed either |
| Matching.MatchExactly | namespacelister_subject.go:65-80 | for a canonical subject, lookup and RBAC agree if and only if, on a service account's name, it is not a user of that name nor the parsed account of a name with more than four pieces |
| Matching.IrregularIsNotFound | namespacelister_subject.go:47-80 | any other subject with a namespace or of another kind is never looked up, whatever RBAC grants it |
| Matching.SoundExactly | namespacelister_subject.go:65-73 | the lookup stays within what RBAC grants, in all clusters, if and only if the name is no service account's or has exactly four pieces and a namespace |
| Matching.CompleteExactly | namespacelister_subject.go:65-80 | the lookup finds all that RBAC grants, in all clusters of canonical subjects, if and only if the name lacks the prefix |
| Matching.ExtraColonIsAnswered | namespacelister_subject.go:66-72 | for all colon-free namespaces and names, a name with a fifth piece is answered as the service account and RBAC does not grant it |
| Matching.AccountBoundAsUserIsLost | namespacelister_subject.go:66-72 | for all colon-free namespaces and names, a service account bound as a user is granted by RBAC and not found |
| Matching.StrayNamespaceIsLost | namespacelister_subject.go:75-79 | a user subject that carries a namespace is granted by RBAC and not found |
| Matching.ParsedPieces | namespacelister_subject.go:65-73 | the parsed namespace and name are free of colons and print back to the name if and only if there is no fifth piece |
| Usernames.PlainNameParses | namespacelister_subject.go:75-79 | a name without the prefix is an RBAC user of that very name |
| Usernames.AccountNameParses | namespacelister_subject.go:66-72 | the piece after the prefix is the namespace and the next one the name of a service account |
| Usernames.ParseFailsExactly | namespacelister_subject.go:65-73 | parsing indexes out of range if and only if no colon follows the prefix |
| Usernames.ParseCanFail | namespacelister_subject.go:66-71 | a name on which it does |
| Usernames.ServiceAccountRoundTrip | acceptance/pkg/context/user_info.go:20-54 | parsing the printed name of a service account gives it back if and only if namespace and name have no colon |
| Usernames.UserRoundTrip | acceptance/pkg/context/user_info.go:30-54 | parsing a user name gives the user back if and only if it lacks the prefix |
| Usernames.SplitIsInverseOfJoin | namespacelister_subject.go:67 | the pieces have no colon and join to the name |
| Usernames.SubjectsOf | namespacelister_subject.go:47-63 | the parsed user first, then one RBAC group subject per group, in the order of the request; nothing exactly when the name does not parse |
| Usernames.SubjectSeqElems | namespacelister_subject.go:47-63 | the subjects listed are exactly the user and the groups |
| Startup.BuildAndStart | access_cache_startup.go:20-60 | metrics, then five handlers, then Start, then Synch, with the error of whichever fails first; success exactly when nothing fails, and then the stored index says what the pass over the list and the answers should produce. Whether the worker holds the flag is given here; when that can be is in the next two rows |
| Startup.StartupRejectedExactly | access_cache_startup.go:55-59 | startup's Synch can be rejected if and only if another caller holds the flag |
| Startup.StartupCanBeRejected | access_cache_startup.go:45-59 | an execution without store change or failure in which the worker wins and startup is turned away |

## Left out

- HTTP server, authentication, middleware, TLS, flags and environment parsing: plumbing over libraries.
- Shutdown: the step relation has no step in which a cancelled context ends the worker or the ticker.
- Real time: ticks and expiry are steps that may happen; that they happen is not proved.
- The interior of `AllowedSubjects`, informers and the controller-runtime cache: stated as assumptions; the role and binding semantics in `Rbac` and the match in `Matching` are those of Kubernetes RBAC for `get` on one namespace.
- Data races on shared label maps between a run and readers of the resource cache.
- Prometheus names, labels and histogram buckets; gauges and durations are natural numbers, not floats.
- Logging and the error handler, which the worker calls for "already running" only, whatever the handler could do with other errors.
- The Go type names in the messages of refused objects; update in place for namespaces and bindings.
- Synchronizer.SynchronizedAccessCache.WithVirtualLabelsAndAnnotationsForAccess: lower-cases the letters A to Z of a kind only; the kinds of RBAC subjects have no others.
- The zeroing of the slots that compaction frees, and slice capacities.
- Synchronizer.SynchronizedAccessCache.Start: states the counts of worker and ticker; their endless loops are the Take, Tick and run steps of the protocol.
- Startup.BuildAndStart: takes as a parameter whether the worker holds the flag; the race is in `Startup.StartupRejectedExactly` and `Startup.StartupCanBeRejected`.
- Transforms.MergeTransformFunc: transforms are functions on values here; update in place is modelled for the role transforms by `Transforms.Cell`.
