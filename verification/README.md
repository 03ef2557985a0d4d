# Verification model of the Greentic extension runtime

This project models the decision logic of `greentic-ext-runtime`: which extensions
are loaded and what they offer each other, what a pack has to be before its code
runs, and which URLs and secrets a guest reaches. wasmtime, HTTP, cryptography and
threads are abstracted; what remains is state, tree, graph and string logic, proved
for every input and every run.

## The five parts

**Capability graph** (`Semver`, `Capability`, `DependencyGraph`,
`CapabilityRegistry`, `CapabilityReadings`). Resolution picks the highest match; cycle detection is the
backtracking search whose `visited` set is the current path. The search is proved to
answer "reaches a cycle" on every graph, and what it does not flag is proved to have
an activation order.

**Loaded map and registry** (`Extensions`, `Runtime`, `Publication`,
`IndexReadings`, `PublicationResults`, `VersionFalls`, `EvictionRaces`). `Runtime` is the sequential class: every mutation edits a copy,
rebuilds the index and publishes both or neither. `Publication` is the same protocol
as small steps of any number of threads, with readers that take no lock; its
invariant is proved for every interleaving and the results are read off it. An index
and its map agree as multisets of offerings, never merely as sets.

**Load gate** (`PackTree`, `LoadGate`, `HonestPacks`, `LoadRuns`, `Discovery`). The pack is a tree of
files, directories and symlinks. The gate's two-way ledger check is proved to mean
that the tree is its ledger; `LoadRuns` lets the filesystem be anything at all at
each separate read and still proves what every loaded entry runs and who signed it.
Hash, signature check and parsers are arbitrary functions of a `World`.

**Matchers and the redirect loop** (`Text`, `PercentPath`, `DotSegments`, `Url`,
`UrlTexts`, `UrlMatcher`, `NetPermissions`, `PatternTexts`, `Fetch`, `Secrets`). String-level prefix and suffix
tests are proved to mean containment of whole segments and labels, and to keep that
meaning after a server decodes a path and resolves its dots. The redirect loop is
proved against arbitrary answers.

**Bounded arithmetic and buffers** (`Limits`, `Utf8Clamp`). The store-wide budget over
every interleaving of growth requests, the tick count, and truncation of log text on
a UTF-8 boundary.

Where a contract is stated through a function of the model, there is also a lemma that
says what the function comes to without it: of plans and edges in terms of the two
parsers (`CapabilityReadings`), of the index in terms of the describes (`IndexReadings`),
of the gate in terms of the tree and the rows (`HonestPacks`), of URLs and patterns in
terms of their texts (`UrlTexts`, `PatternTexts`), and of a fetch in terms of statuses and
locations (`Fetch`).

## Where the obvious claim fails

Each of these is a lemma with the exact condition, a concrete run or input, or both.

- `resolved` is keyed by capability id, so a later requirement for the same id can
  lower the version already chosen (`AddingLowersExactlyWhen`,
  `AddingCanLowerARepeatedId`).
- Events go out after the lock is released and can arrive out of lock order. A
  subscriber is sure to be right exactly if the lock is never taken while an event is
  owed (`PacedReplayIsRight`, `TakingTheLockIsSafeExactlyWhen`,
  `AnnouncementsCanBeOutOfOrder`).
- A loaded version that can be read before and after an edit goes down exactly when an
  older release is explicitly registered, which has no downgrade check
  (`EditLowersExactlyWhen`, `RegistrationMayLower`). A version that cannot be read never
  counts as a downgrade, so it lets an older release in behind it
  (`UnreadableVersionLaundersADowngrade`). Over any stretch of any run the version ends
  lower exactly when some load got past the gate and all that was presented from the last
  such load on is older (`VersionFallsExactlyWhen`, `LaunderedExactlyWhen`).
- The watcher evicts by id what it saw gone in a map it read without the lock, so it can
  take away an extension that has been reloaded from a directory that is there
  (`EvictsALiveEntryExactlyWhen`, `MovedExtensionIsEvicted`).
- The comment at `runtime_verify.rs:332-334` says that no symlinked directory can
  stand inside a verified pack. One can, under the name `describe.json`, which the
  coverage check exempts, if the file is replaced between the two reads
  (`LedgerPathsArePhysical`, `LinkedDescribeIsAccepted`). The bytes that run are
  still vouched for.
- The comment at `runtime_watch.rs:148-153` says that the watcher takes exactly what
  the scan lists. It also takes a directory that is a symlink, which the scan passes
  over (`WatchedIsDiscoveredExactlyWhen`, `LinkedExtensionIsWatchedOnly`).
- A new pin outlives its load exactly when, after the gate has passed, the component
  cannot be picked, read, found in the ledger as it is or compiled, an offered version
  does not parse, or a newer release was published in between
  (`PinOutlivesItsLoadExactlyWhen`, `StillPinOutlivesItsLoadExactlyWhen`,
  `PinCanOutliveItsLoad`).
- The effective matcher turns plain http on for a loopback pattern although the
  operator's matcher may have it off (`OperatorAllowsExactlyWhen`,
  `OperatorRefusesItsOwnCeiling`).

The comment at `runtime_verify.rs:47-53` describes a window on the component bytes
that `read_verified` has closed; the model follows the code. `docs/capability-registry.md`
lines 63-66 and 109-120 promise version pins, duplicate-offer conflicts and rejection
of cycles at install time; the code has none of them and neither has the model.

## Conventions

Values are datatypes and functions, and objects the runtime updates are classes.
A hash map's iteration order is an arbitrary choice. A parsed version requirement is
the predicate of the versions it matches. What the outside world answers (file reads,
servers, the secrets backend, the system's stat call) is an argument, and answers of
servers may depend on how many requests went before. A text slice is bytes that encode
some text, as Rust guarantees. `register_loaded_from_dir` takes exclusive access to the
runtime; the runs of `Publication` let it interleave like any other mutator, which only
adds runs, and no counterexample depends on that.

## Model

| member | source | states |
|---|---|---|
| Capability.ResolveIgnoresRegistrationOrder | crates/greentic-ext-runtime/src/capability.rs:41-71 | Two registries holding the same offerings in any registration order give plans with the same leftovers, the same ids met and the same versions; the hash-map order of a rebuild shows at most in which of several equal versions is bound. |
| Capability.BestIsHighest | crates/greentic-ext-runtime/src/capability.rs:49-58 | The binding chosen for a requirement is offered, is admitted by the range, and no admitted offer is newer. |
| Capability.AddingNeverUnresolves | crates/greentic-ext-runtime/src/capability.rs:44-64 | Adding an offering never puts a requirement among the unresolved. |
| Capability.AddingMovesLastMet | crates/greentic-ext-runtime/src/capability.rs:59-62 | The requirement that decides an id can only move later when an offering is added, and it moves exactly when a later requirement for that id admits the newcomer. |
| Capability.AddingLowersExactlyWhen | crates/greentic-ext-runtime/src/capability.rs:59-62 | The version chosen for an id goes down after an addition if and only if a later requirement for the same id admits the newcomer and the newcomer is older than the previous choice. |
| Capability.AddingNeverLowersDistinctIds | crates/greentic-ext-runtime/src/capability.rs:41-71 | Where no id is asked for twice, adding an offering never lowers a chosen version. |
| Capability.AddingCanLowerARepeatedId | crates/greentic-ext-runtime/src/capability.rs:59-62 | A concrete pair of requirements for one id for which adding 1.0.0 replaces the 2.0.0 already chosen. |
| CapabilityRegistries.CapabilityRegistry.AddOffering | crates/greentic-ext-runtime/src/capability.rs:33-38 | Appends the offering to its own capability and leaves every other list alone. |
| CapabilityRegistries.CapabilityRegistry.BestMatch | crates/greentic-ext-runtime/src/capability.rs:49-58 | Finds a match exactly when one exists: the highest, and of equal versions the one registered last. |
| CapabilityRegistries.CapabilityRegistry.Resolve | crates/greentic-ext-runtime/src/capability.rs:41-71 | `unresolved` is exactly the requirements that do not parse or match nothing, in order; an id is resolved exactly when some requirement for it can be met, by the best match of the last such requirement. |
| CapabilityRegistries.CapabilityRegistry.DetectCycle | crates/greentic-ext-runtime/src/capability.rs:84-98 | Returns, in listing order, exactly the listed ids from which a walk along dependencies reaches a cycle. |
| CapabilityRegistries.CapabilityRegistry.DfsHasCycle | crates/greentic-ext-runtime/src/capability.rs:100-131 | Terminates on every graph; true exactly when some walk runs into the current path or into itself; a false answer leaves the path set as it was. |
| CapabilityRegistries.FlaggedExactlyWhen | crates/greentic-ext-runtime/src/capability.rs:77-82 | An id is returned if and only if it is listed and reaches a cycle. |
| CapabilityRegistries.UnflaggedActivateInOrder | crates/greentic-ext-runtime/src/capability.rs:77-98 | All listed ids that are not returned have one order, without repeats, in which every dependency comes first, and depend on no listed id outside it. |
| DependencyGraph.CanCloseUnfolds | crates/greentic-ext-runtime/src/capability.rs:106-130 | The recursion of the backtracking search is right: a walk closes on the path exactly when the id is on it or some dependency closes on the extended path. |
| DependencyGraph.CanCloseIsReachesCycle | crates/greentic-ext-runtime/src/capability.rs:77-82 | Closing a walk from an empty path is the same as reaching an extension that lies on a cycle. |
| DependencyGraph.AcyclicIsClosedUnderDependency | crates/greentic-ext-runtime/src/capability.rs:77-82 | What an extension that reaches no cycle depends on reaches none. |
| DependencyGraph.WalksAreBounded | crates/greentic-ext-runtime/src/capability.rs:100-131 | A walk from an extension that reaches no cycle is no longer than the listing plus one. |
| DependencyGraph.RankDecreases | crates/greentic-ext-runtime/src/capability.rs:77-98 | Longest-walk rank strictly drops along every dependency of an extension that reaches no cycle. |
| DependencyGraph.ActivationOrderExists | crates/greentic-ext-runtime/src/capability.rs:77-98 | Any set of extensions that reach no cycle has an order in which dependencies come first. |
| Semver.CompareIsTotalOrder | crates/greentic-ext-runtime/src/runtime_registry.rs:190-198 | The version order is total and antisymmetric, equal only on identical versions, and refines section 11 of Semantic Versioning 2.0.0. |
| Semver.CompareTransitive | crates/greentic-ext-runtime/src/capability.rs:56 | The version order is transitive. |
| CapabilityReadings.LeftOverExactlyWhen | crates/greentic-ext-runtime/src/capability.rs:44-67 | A plan leaves a requirement over if and only if it does not parse, names a capability nobody offers, or its range holds no offered version. |
| CapabilityReadings.UnparseableIsLeftOver | crates/greentic-ext-runtime/src/capability.rs:45-48 | A requirement that does not parse is left over, never taken for a wildcard. |
| CapabilityReadings.LeftOverInOrder | crates/greentic-ext-runtime/src/capability.rs:43-64 | Leftovers keep the order and the number of the requirements. |
| CapabilityReadings.ResolvedExactlyWhen | crates/greentic-ext-runtime/src/capability.rs:49-62 | An id is resolved if and only if some requirement for it parses and holds an offered version in its range. |
| CapabilityReadings.ResolvedTo | crates/greentic-ext-runtime/src/capability.rs:49-62 | It is resolved to a place in its own list: inside the range of the last requirement for it that is met, no version in the range higher, and none registered later as high. |
| CapabilityReadings.EdgeExactlyWhen | crates/greentic-ext-runtime/src/capability.rs:109-128 | Cycle detection follows an edge if and only if a listed extension has a requirement that parses and holds an offered version of the other. |
| CapabilityReadings.NoRangeNoCycle | crates/greentic-ext-runtime/src/capability.rs:113-122 | An extension whose requirements all fail to parse, or hold no offered version, has no edge and is never reported. |
| CapabilityReadings.LastListingCounts | crates/greentic-ext-runtime/src/capability.rs:85-88 | Of several listings of one id the last counts. |
| CapabilityReadings.ReportedInOrder | crates/greentic-ext-runtime/src/capability.rs:90-97 | Reports keep listing order. |
| CapabilityReadings.ReportOfOne | crates/greentic-ext-runtime/src/capability.rs:91-96 | A single listing is reported if and only if it reaches a cycle. |
| Semver.PrecedesExactly | crates/greentic-ext-runtime/src/runtime_registry.rs:190-198 | A version is lower exactly as section 11 of Semantic Versioning 2.0.0 says, point by point: major, minor, patch, pre-release before release, identifiers left to right with numbers below text and fewer first; only build metadata separates the rest. |
| Extensions.AnnouncedKeepsReplay | crates/greentic-ext-runtime/src/runtime_registry.rs:158-171 | Announcing the outcome of an edit keeps the replayed event set equal to the loaded ids. |
| Extensions.EvictionAlwaysIndexable | crates/greentic-ext-runtime/src/runtime_registry.rs:108-119 | An edit that only removes entries leaves nothing that cannot be indexed. |
| Runtime.ExtensionRuntime.RebuildRegistry | crates/greentic-ext-runtime/src/runtime_registry.rs:42-64 | Succeeds exactly when every offered version parses, and then advertises each declared offering exactly as often as it is declared and nothing else, whatever the map order. |
| Runtime.ExtensionRuntime.IndexExtension | crates/greentic-ext-runtime/src/runtime_registry.rs:47-61 | Adds exactly one extension's declared offerings, or stops at a version that does not parse. |
| IndexReadings.AdvertisedExactlyWhen | crates/greentic-ext-runtime/src/runtime_registry.rs:46-62 | An offering stands under a capability in the index if and only if some loaded describe declares that capability, with that id, version and kind and an empty export path. |
| IndexReadings.AdvertisedAsOftenAsDeclared | crates/greentic-ext-runtime/src/runtime_registry.rs:46-62 | And it stands there as many times as it is declared, and under no other capability. |
| IndexReadings.MetExactlyWhenDeclared | crates/greentic-ext-runtime/src/runtime_registry.rs:42-64 | A requirement can be met from the index if and only if some loaded describe declares its capability in a version inside the range. |
| Runtime.ExtensionRuntime.MutateLoaded | crates/greentic-ext-runtime/src/runtime.rs:221-240 | Publishes the edited map with an index of exactly that map, or neither; it fails only on an edited map that cannot be indexed. |
| Runtime.ExtensionRuntime.RegisterLoaded | crates/greentic-ext-runtime/src/runtime_registry.rs:22-31 | Replaces or adds the entry and emits one install event, or changes nothing; no downgrade check. |
| Runtime.ExtensionRuntime.HandleAddedOrModified | crates/greentic-ext-runtime/src/runtime_registry.rs:129-173 | Refuses exactly a readable downgrade or an unparseable offering, changing and emitting nothing; else replaces the entry and emits an install, or an update naming the version it replaced. |
| Runtime.ExtensionRuntime.EvictId | crates/greentic-ext-runtime/src/runtime_registry.rs:94-97 | Never fails; removes the entry with its offerings and emits one removal, or does nothing for an unknown id. |
| Runtime.ExtensionRuntime.HandleRemoval | crates/greentic-ext-runtime/src/runtime_registry.rs:78-91 | Never fails; removes one entry loaded from the directory and emits one removal, or does nothing when there is none. |
| Runtime.ExtensionRuntime.EvictVanishedExtensions | crates/greentic-ext-runtime/src/runtime_watch.rs:134-145 | Drops exactly the entries whose source directory is gone, in any order, each announced once; an unreadable directory does not count as gone. |
| Extensions.IndexExists | crates/greentic-ext-runtime/src/runtime_registry.rs:42-64 | A map of readable offerings, keyed by id, always has an index. |
| Extensions.IndexGrows | crates/greentic-ext-runtime/src/runtime_registry.rs:46-62 | Adding one extension's bindings to the index of a map gives the index of the map with that extension. |
| Publication.ExclusionKept | crates/greentic-ext-runtime/src/runtime.rs:225-232 | Every step keeps at most one thread between acquire and release. |
| Publication.HistoryKept | crates/greentic-ext-runtime/src/runtime.rs:234-239 | Every step keeps the published map the result of the committed edits in lock order. |
| Publication.HoldersKept | crates/greentic-ext-runtime/src/runtime.rs:234-239 | Every step keeps what the lock holder works on in agreement with the published cells. |
| Publication.UnindexableEdit | crates/greentic-ext-runtime/src/runtime_registry.rs:108-119 | From an indexable map only loading an unindexable extension can make a rebuild fail. |
| Publication.StepKeeps | crates/greentic-ext-runtime/src/runtime.rs:221-240 | Every step of any thread keeps the whole invariant. |
| Publication.RunKeeps | crates/greentic-ext-runtime/src/runtime.rs:221-240 | The invariant holds in every state of every interleaving. |
| PublicationResults.NoEditLost | crates/greentic-ext-runtime/src/runtime.rs:41-51 | In every reachable state the map is the fold of the committed edits in lock order, and every call ever made is running, committed once, or given up as unindexable. |
| PublicationResults.CellsOnlyEverStepForward | crates/greentic-ext-runtime/src/runtime.rs:237-238 | The cells are only ever (old, old), (new, old) or (new, new), the middle one only between the two stores; a free lock means the index is the map's. |
| PublicationResults.EvictionNeverFails | crates/greentic-ext-runtime/src/runtime_registry.rs:108-119 | In no run is an eviction given up, or its rebuild failed. |
| PublicationResults.HistoryOnlyGrows | crates/greentic-ext-runtime/src/runtime.rs:237 | Published maps are never rewritten: the history of a later state extends that of an earlier one. |
| PublicationResults.MapReadFirstIsAtMostOneNewer | crates/greentic-ext-runtime/src/runtime.rs:201-208 | A lock-free reader that loads the map first and the index later holds the index of that map, of a later one, or of the one just before it. |
| PublicationResults.IndexReadFirstIsNeverNewer | crates/greentic-ext-runtime/src/runtime.rs:201-208 | A lock-free reader that loads the index first holds an index of the map it loads later or of an earlier one. |
| PublicationResults.ReplayInLockOrder | crates/greentic-ext-runtime/src/runtime_registry.rs:158-171 | Events replayed in lock order give exactly the loaded ids after every prefix. |
| PublicationResults.PacedReplayIsRight | crates/greentic-ext-runtime/src/runtime_registry.rs:158-171 | In every run that takes the lock only when no event is owed, a subscriber has been told all events in lock order and is right whenever none is owed. |
| PublicationResults.TakingTheLockIsSafeExactlyWhen | crates/greentic-ext-runtime/src/runtime_registry.rs:90 | From a run kept in that pace up to a free lock, one early taking of the lock and nothing else out of pace can leave a subscriber wrong with nothing left to send, if and only if an event is owed at that moment. |
| PublicationResults.OvertakingMisleads | crates/greentic-ext-runtime/src/runtime_registry.rs:90-96 | Whatever event a thread owes, some call that overtakes it publishes the contrary, is announced first, and leaves the subscriber wrong. |
| PublicationResults.ReplayRightByLastWords | crates/greentic-ext-runtime/src/runtime_registry.rs:158-171 | Events sent in any order give the loaded ids if and only if, for every id, the last announcement and the last commit about it agree. |
| PublicationResults.ReplayIsLastWord | crates/greentic-ext-runtime/src/runtime_registry.rs:158-171 | An id is in the replayed set exactly when the last event about it is not a removal. |
| PublicationResults.QuietMeansAllAnnounced | crates/greentic-ext-runtime/src/runtime_registry.rs:99-120 | When nothing is under way every committed call has been announced, exactly once. |
| PublicationResults.AnnouncementsCanBeOutOfOrder | crates/greentic-ext-runtime/src/runtime_registry.rs:94-97 | A complete run of one reload and one eviction announced the other way round, so that subscribers believe in an extension that is gone. |
| PublicationResults.VersionsNeverDrop | crates/greentic-ext-runtime/src/runtime_registry.rs:144-156 | While nobody evicts or explicitly registers an id and its versions can be read, its loaded version never goes down in the order of section 11, whatever packs arrive and however calls interleave. |
| PublicationResults.EditKeepsVersion | crates/greentic-ext-runtime/src/runtime_registry.rs:144-156 | No single edit but an eviction or a registration lowers a readable version. |
| PublicationResults.EditLowersExactlyWhen | crates/greentic-ext-runtime/src/runtime_registry.rs:22-31 | Where an id stays loaded with readable versions, an edit lowers its version if and only if it explicitly registers an older release of that id. |
| PublicationResults.VersionDropsExactlyWhen | crates/greentic-ext-runtime/src/runtime_registry.rs:22-31 | The same for every commit in the history of every run. |
| PublicationResults.UnreadableVersionLaundersADowngrade | crates/greentic-ext-runtime/src/runtime_registry.rs:183-198 | A complete run of three reloads, none refused, in which a pack with an unreadable version stands between any release and any older one, all three indexable. |
| VersionFalls.NewestSince | crates/greentic-ext-runtime/src/runtime_registry.rs:144-156 | After a load that the gate could not compare, the loaded release is the newest of those presented since: it is older than any mark exactly when all of them are. |
| VersionFalls.VersionFallsExactlyWhen | crates/greentic-ext-runtime/src/runtime_registry.rs:144-156 | Between any two points at which an id is loaded with a readable version, whatever is evicted, registered or unreadable in between, the version has gone down if and only if some load got past the gate and every release presented from the last such load on is older than the first point. |
| VersionFalls.RunVersionFallsExactlyWhen | crates/greentic-ext-runtime/src/runtime_registry.rs:144-156 | The same for any two points in the history of any state of any run. |
| VersionFalls.LaunderedExactlyWhen | crates/greentic-ext-runtime/src/runtime_registry.rs:183-198 | Where nobody evicts or registers the id, the version has gone down if and only if it became unreadable and every release presented over the last unreadable one and later is older than the first. |
| PublicationResults.RegistrationMayLower | crates/greentic-ext-runtime/src/runtime_registry.rs:22-31 | A complete run of two registrations that lowers the loaded version, where every reload of the older pack would be refused. |
| EvictionRaces.EvictsALiveEntryExactlyWhen | crates/greentic-ext-runtime/src/runtime_watch.rs:134-145 | The watcher, having seen the directory of an id gone, evicts an extension whose directory is there if and only if one was loaded from such a directory since and nothing about the id was committed after it. |
| EvictionRaces.MovedExtensionIsEvicted | crates/greentic-ext-runtime/src/runtime_watch.rs:134-145 | A complete run in which an extension reloaded from where it was moved to is evicted because the watcher had seen its old directory gone. |
| PackTree.CollectInto | crates/greentic-ext-runtime/src/runtime_verify.rs:377-397 | Refuses exactly the trees that nest deeper than 32 directories or hold a directory that cannot be read, and otherwise appends exactly the listing of the tree. |
| PackTree.ListingIsTheLeaves | crates/greentic-ext-runtime/src/runtime_verify.rs:361-375 | The listing holds a path if and only if something that is not a directory is physically there; links are leaves and never followed. |
| PackTree.ListedOnce | crates/greentic-ext-runtime/src/runtime_verify.rs:371-375 | No path is listed twice. |
| PackTree.ReadableExactlyWhen | crates/greentic-ext-runtime/src/runtime_verify.rs:386-389 | A tree can be walked to the end if and only if no path in it leads to an unreadable directory. |
| PackTree.NestingIsDeepestDirectory | crates/greentic-ext-runtime/src/runtime_verify.rs:351-359 | A tree nests deeper than n exactly when some directory in it has a path longer than n. |
| LoadGate.PackRelativeExactly | crates/greentic-ext-runtime/src/runtime_verify.rs:335-349 | A ledger path is refused exactly when it is empty, absolute, starts at `.`, or has a `..` component. |
| HonestPacks.PlainPathReads | crates/greentic-ext-runtime/src/runtime_verify.rs:335-349 | A path written as its names with slashes between names exactly those, in order. |
| HonestPacks.BlankPieceVanishes | crates/greentic-ext-runtime/src/runtime_verify.rs:339-348 | A doubled slash, or a dot between slashes, after the first name changes nothing. |
| HonestPacks.EndsInANameExactly | crates/greentic-ext-runtime/src/runtime_verify.rs:269-286 | A row whose text ends in a slash, or a slash and a dot, names no file. |
| HonestPacks.LastRowStands | crates/greentic-ext-runtime/src/runtime_verify.rs:267-300 | The ledger holds exactly the paths some row names, each with the digest of the last such row. |
| HonestPacks.AcceptedExactlyWhenHonest | crates/greentic-ext-runtime/src/runtime_verify.rs:221-324 | Where `describe.json` is no link, the gate accepts a pack if and only if its manifest is the bound one of the right schema, every row names a regular file of the pack with its digest, every file but `manifest.json` and `describe.json` is in a row, and no directory is deeper than 32 or unreadable. |
| HonestPacks.GatePassesExactlyWhen | crates/greentic-ext-runtime/src/runtime_verify.rs:54-127 | The whole gate passes if and only if the describe read parses, is self-consistent and signed, the pack holds, the store is usable, and the id has no pin or the pin of that key; and it then pins that key. |
| HonestPacks.PickedExactly | crates/greentic-ext-runtime/src/loaded.rs:196-237 | A root `extension.wasm` is picked outright, else the one file of the one component declared, else nothing. |
| HonestPacks.InstanceIsWhatWasRead | crates/greentic-ext-runtime/src/loaded.rs:65-88 | What is instantiated is the verified describe, the directory, and the very bytes that were read and checked. |
| LoadGate.VerifyRows | crates/greentic-ext-runtime/src/runtime_verify.rs:267-301 | Succeeds exactly when every row is a plain relative path that ends in a name, to a regular file with the recorded digest, and returns those rows. |
| LoadGate.VerifyCoverage | crates/greentic-ext-runtime/src/runtime_verify.rs:303-314 | Succeeds exactly when the tree is readable, within the depth cap, and every leaf is exempt or listed. |
| LoadGate.VerifyDirManifest | crates/greentic-ext-runtime/src/runtime_verify.rs:221-324 | Accepts exactly the packs whose bound manifest holds both ways, and returns that manifest's ledger. |
| LoadGate.LedgerPathsArePhysical | crates/greentic-ext-runtime/src/runtime_verify.rs:326-334 | Every ledger path of an accepted pack is a regular file with the recorded digest reached through real directories only, if and only if it does not run through a `describe.json` that is a link. |
| LoadGate.AcceptedPackIsItsLedger | crates/greentic-ext-runtime/src/runtime_verify.rs:196-220 | On an accepted tree whose describe reads as a file, the leaves outside the two exempt names are exactly the ledger's paths, each a regular file with its digest. |
| LoadGate.LinkedDescribeIsAccepted | crates/greentic-ext-runtime/src/runtime_verify.rs:303-314 | A tree the directory gate accepts in which `describe.json` has become a link to a directory and a ledger path names nothing in the pack. |
| LoadGate.TrustStore.PinOrVerify | crates/greentic-ext-runtime/src/runtime_verify.rs:115-118 | In a usable store the first key pins and later keys pass only if they are the pinned one; a refusal or an unusable store writes nothing. |
| LoadGate.VerifyDirSignature | crates/greentic-ext-runtime/src/runtime_verify.rs:54-127 | Passes exactly when integrity holds, the trust store is usable and it anchors the key, and then hands on the verified describe and its ledger; the pin is written exactly on success, and failing integrity leaves the store unchanged. |
| LoadGate.UnchangedPackLoadsExactlyWhen | crates/greentic-ext-runtime/src/loaded.rs:71-78 | A pack that stays as it was accepted never fails the digest recheck: it loads exactly when its ledger lists the chosen file and the file compiles, and runs that file's content. |
| LoadGate.InstantiatesExactlyWhen | crates/greentic-ext-runtime/src/loaded.rs:65-88 | Instantiation succeeds if and only if a file can be picked and what is read of it is there, in the ledger, as recorded, and a component. |
| LoadRuns.InstanceVouched | crates/greentic-ext-runtime/src/loaded.rs:65-88 | Whatever is on disk at the two reads, the instantiated bytes have a digest in a ledger the verified describe binds. |
| LoadRuns.StepKeeps | crates/greentic-ext-runtime/src/loaded.rs:65-88 | Every load, publication or outside pin keeps all entries vouched for and anchored, and never changes a pin. |
| LoadRuns.LoadedCodeIsVouchedAndAnchored | crates/greentic-ext-runtime/src/runtime_verify.rs:54-127 | In every run with arbitrary filesystem changes, everything loaded runs bytes its describe committed to, and all entries ever loaded under one id carry the one pinned key. |
| LoadRuns.GateWritesExactlyWhen | crates/greentic-ext-runtime/src/runtime_verify.rs:92-118 | The gate writes to the trust store exactly when integrity held, the id had no pin and the store was usable. |
| LoadRuns.PinOutlivesItsLoadExactlyWhen | crates/greentic-ext-runtime/src/runtime_registry.rs:22-27 | A load fails and leaves a new pin if and only if integrity held, the id had no pin, the store was usable, and then a later guard fails: nothing to pick, a picked file that is missing, unlisted, altered or no component, an offered version that does not parse, or a newer release published in between. |
| LoadRuns.UndisturbedPinOutlivesItsLoadExactlyWhen | crates/greentic-ext-runtime/src/runtime_registry.rs:129-156 | With nothing else published in between, only the component and the offerings are left as causes. |
| LoadRuns.StillPinOutlivesItsLoadExactlyWhen | crates/greentic-ext-runtime/src/runtime_registry.rs:129-156 | For a pack that does not change either, the causes are in the pack alone: nothing to pick, a picked file that the ledger does not list or that is no component, or an offered version that does not parse. |
| LoadRuns.PinCanOutliveItsLoad | crates/greentic-ext-runtime/src/runtime_verify.rs:107-118 | A concrete such load: the directory is gone by the time the component is picked. |
| Discovery.WatchedIsDiscoveredExactlyWhen | crates/greentic-ext-runtime/src/runtime_watch.rs:148-162 | The boot scan lists a directory if and only if the watcher takes it and it is not itself a link. |
| Discovery.LinkedExtensionIsWatchedOnly | crates/greentic-ext-runtime/src/runtime_watch.rs:163-175 | A concrete tree with a linked extension directory that the watcher takes and the scan passes over. |
| Discovery.FindExtensionDir | crates/greentic-ext-runtime/src/runtime_watch.rs:163-175 | Terminates with the nearest ancestor-or-self the watcher takes, none exactly when there is none; where no link lies along the path that is the nearest one the scan lists. |
| Discovery.ScannedExactlyWhen | crates/greentic-ext-runtime/src/discovery.rs:52-60 | A directory is listed if and only if it is a real one directly in the kind directory and its entry `describe.json` leads to something. |
| Discovery.ExtensionDirExactlyWhen | crates/greentic-ext-runtime/src/runtime_watch.rs:209-223 | The watcher accepts a path if and only if it is a root, a known kind and one name. |
| Discovery.SiblingsByName | crates/greentic-ext-runtime/src/discovery.rs:61 | The order of the list is that of the names, character by character. |
| Discovery.ScanKindDir | crates/greentic-ext-runtime/src/discovery.rs:47-63 | Lists, in path order, each real subdirectory with a describe exactly once and nothing else; nothing for a missing directory, an error for anything that cannot be listed. |
| PercentPath.DecodingAddsSeparatorsExactlyWhen | crates/greentic-ext-runtime/src/url_matcher.rs:149-159 | One round of percent-decoding (section 2.1 of RFC 3986) never loses a separator, and adds one if and only if the window test fires. |
| PercentPath.DecodeCommutesWithSplit | crates/greentic-ext-runtime/src/url_matcher.rs:135-142 | Without an encoded separator, decoding then splitting equals splitting then decoding each piece. |
| PercentPath.PathCoversIsSegmentPrefix | crates/greentic-ext-runtime/src/url_matcher.rs:191-199 | The string test holds exactly when the prefix is `/` or its segments lead the path's segments. |
| PercentPath.GrantSurvivesDecoding | crates/greentic-ext-runtime/src/url_matcher.rs:135-142 | A grant that covers an accepted path still covers it once both are decoded. |
| DotSegments.ResolvedHasNoDots | crates/greentic-ext-runtime/src/url_matcher.rs:135-139 | A resolved path is rooted and has no dot segment left, literal or percent-encoded. |
| DotSegments.ResolvingDots | crates/greentic-ext-runtime/src/url_matcher.rs:135-139 | After names, `..` takes the last name back and at the root nothing, `.` is dropped, and either of them at the end leaves an empty segment. |
| DotSegments.ServerSeesTheSameSegments | crates/greentic-ext-runtime/src/url_matcher.rs:135-142 | A server that decodes an accepted path and then resolves its dots sees the matcher's own segments, each decoded. |
| DotSegments.GrantHoldsAtTheServer | crates/greentic-ext-runtime/src/url_matcher.rs:189-199 | The decoded grant's segments lead what such a server serves. |
| UrlTexts.ParseComposed | crates/greentic-ext-runtime/src/url_matcher.rs:115-134 | A URL put together from scheme, userinfo, host, port, path and query or fragment is read back as its parts, with the default port 443 or 80 and the host in lower case. |
| UrlTexts.LoopbackQuads | crates/greentic-ext-runtime/src/http_scheme_policy.rs:46-48 | Of dotted quads exactly those of 127.0.0.0/8 are loopback. |
| UrlTexts.LoopbackNames | crates/greentic-ext-runtime/src/http_scheme_policy.rs:48-55 | Of other names exactly `localhost` and the bracketed `::1`. |
| UrlTexts.LowerLetters | crates/greentic-ext-runtime/src/url_matcher.rs:173-176 | Case folding is that of the twenty-six ASCII letters. |
| UrlTexts.OctetDecodes | crates/greentic-ext-runtime/src/url_matcher.rs:149-159 | Every octet, written in hex digits of either case, decodes to itself (section 2.1 of RFC 3986). |
| UrlTexts.LiteralDecodes | crates/greentic-ext-runtime/src/url_matcher.rs:149-159 | A character that starts no escape stands for itself. |
| PatternTexts.TrimmedExactly | crates/greentic-ext-runtime/src/url_matcher.rs:84 | Trimming takes off every trailing path wildcard and nothing else. |
| PatternTexts.PlainPatternGrants | crates/greentic-ext-runtime/src/url_matcher.rs:83-147 | A pattern that is no wildcard allows exactly the URLs of its own scheme, host and port whose path segments begin with its own and hold no encoded separator. |
| PatternTexts.WildcardPatternGrants | crates/greentic-ext-runtime/src/url_matcher.rs:85-99 | A wildcard pattern allows exactly the URLs whose host has at least one label before those of the name it gives, of the same scheme and port, whose path segments begin with its own. |
| PatternTexts.ListAllowsExactlyWhen | crates/greentic-ext-runtime/src/url_matcher.rs:143-145 | A list allows what its patterns allow one by one, and nothing more. |
| PatternTexts.ReachExactlyWhen | crates/greentic-ext-runtime/src/net_permissions.rs:60-126 | An extension reaches exactly what a declared pattern alone allows that the operator's list, if there is one, contains: over https, or over plain http to a loopback host that a pattern without wildcard names. |
| UrlMatchers.FromPatterns | crates/greentic-ext-runtime/src/url_matcher.rs:56-70 | The loop keeps the raw list and the parsed patterns, with plain http off. |
| UrlMatchers.ParsedOfHoldsExactly | crates/greentic-ext-runtime/src/url_matcher.rs:56-70 | A parsed pattern is held if and only if some given pattern parses to it: unparseable ones are dropped and nothing else is. |
| UrlMatchers.HostMatchesIsLabelContainment | crates/greentic-ext-runtime/src/url_matcher.rs:171-187 | The suffix test on a host means, ignoring case, that the suffix's labels are a proper tail of the host's and what is left is not a lone empty label. |
| UrlMatchers.MatchesIsContainment | crates/greentic-ext-runtime/src/url_matcher.rs:164-199 | A pattern matches exactly the URLs of its scheme and port that lie inside it label for label and segment for segment. |
| UrlMatchers.AllowedExactlyWhenContained | crates/greentic-ext-runtime/src/url_matcher.rs:115-147 | A URL is allowed if and only if it parses, has a permitted scheme and no encoded separator, and is contained in some pattern. |
| UrlMatchers.AllowedStaysUnderItsGrantAtTheServer | crates/greentic-ext-runtime/src/url_matcher.rs:135-147 | Every allowed URL has a matching pattern whose decoded segments still lead the path after the server decodes it and resolves dots. |
| UrlMatchers.PatternAllowsItself | crates/greentic-ext-runtime/src/url_matcher.rs:83-147 | An https URL given as a pattern, and not read as a wildcard, allows that same URL exactly when its path has no encoded separator. |
| Urls.ParsedHostIsLower | crates/greentic-ext-runtime/src/url_matcher.rs:94 | A parsed host is already in lower case. |
| Urls.ParsedPathIsSettled | crates/greentic-ext-runtime/src/url_matcher.rs:135-136 | A parsed path is rooted and has no dot segment in any spelling. |
| Urls.OpenedReplaced | crates/greentic-ext-runtime/src/http_scheme_policy.rs:35-37 | Rewriting wildcard labels keeps the scheme and rewrites only what follows it, a wildcard label at the front included. |
| Urls.ReplacedHost | crates/greentic-ext-runtime/src/http_scheme_policy.rs:32-57 | Rewriting leaves the authority readable exactly when it was, and changes its host only between names neither of which is loopback. |
| NetPermissions.PolicySeesTheMatchersHost | crates/greentic-ext-runtime/src/http_scheme_policy.rs:16-31 | The policy and the matcher agree whether a pattern parses and on its scheme, and can differ on the host only when neither host is loopback. |
| NetPermissions.ClassifiedAsEnforced | crates/greentic-ext-runtime/src/http_scheme_policy.rs:32-57 | A pattern the matcher will enforce is classed loopback if and only if it is plain http to one loopback host, public if any other plain http, and other otherwise. |
| NetPermissions.EffectiveUrlMatcher | crates/greentic-ext-runtime/src/net_permissions.rs:60-126 | The filter and the in-place retain loop give the matcher of exactly the surviving patterns, with plain http on exactly when a loopback pattern survived; an empty declaration gives the operator's matcher. |
| NetPermissions.EffectiveAllowsExactlyWhen | crates/greentic-ext-runtime/src/net_permissions.rs:60-126 | A non-empty declaration reaches a URL if and only if it parses, has no encoded separator, and some declared pattern inside the ceiling matches it, over https or over plain http to one loopback host. |
| NetPermissions.PlainHttpIsLoopback | crates/greentic-ext-runtime/src/net_permissions.rs:29-48 | Every URL reached over anything but https has a loopback host. |
| NetPermissions.OperatorAllowsExactlyWhen | crates/greentic-ext-runtime/src/net_permissions.rs:9-13 | Of the URLs reached under a ceiling, the operator's own matcher allows exactly the https ones, and the http ones only if the operator opted in. |
| NetPermissions.OperatorRefusesItsOwnCeiling | crates/greentic-ext-runtime/src/net_permissions.rs:125 | A concrete loopback URL an extension reaches and the operator's own matcher refuses. |
| NetPermissions.AllDroppedDeniesAll | crates/greentic-ext-runtime/src/net_permissions.rs:60-126 | When no declared pattern survives, every URL is denied. |
| Fetching.SendOnce | crates/greentic-ext-runtime/src/host_state_net.rs:77-112 | Sends the guest's method, body and permitted headers to one URL. |
| Fetching.PassedKeepsAllOthers | crates/greentic-ext-runtime/src/host_state_net.rs:85-99 | A header is sent as often as the guest set it, or never when its name is one of the six forbidden ones in any case. |
| Fetching.PassedInOrder | crates/greentic-ext-runtime/src/host_state_net.rs:86-99 | The headers that are sent keep their order. |
| Fetching.PassedOne | crates/greentic-ext-runtime/src/host_state_net.rs:53-60 | A header is dropped if and only if its name, in any case, is one of the six. |
| Fetching.ChainFollowsRedirects | crates/greentic-ext-runtime/src/host_state_net.rs:157-179 | At most 11 requests, each with the guest's method, body and permitted headers and to an allowed URL, and each after the first to where the answer before it points: a status from 300 to 399 and a location that joins to it. |
| Fetching.ConcludedExactly | crates/greentic-ext-runtime/src/host_state_net.rs:161-196 | A redirect that could be followed never ends a chain of fewer than 11 unless its target is not allowed, which is the refusal; a failed request is the failure; anything else is delivered unless it came from a URL that is not allowed. |
| Fetching.DeliveredPointsNowhere | crates/greentic-ext-runtime/src/host_state_net.rs:161-164 | A response delivered before the hops ran out has another status, no location, or a location that does not join. |
| Fetching.RenderedInOrder | crates/greentic-ext-runtime/src/host_state_net.rs:199-211 | Response headers keep their order. |
| Fetching.RenderedOne | crates/greentic-ext-runtime/src/host_state_net.rs:206-210 | One whose value is no text is left out. |
| Fetching.Fetch | crates/greentic-ext-runtime/src/host_state_net.rs:116-237 | For every server: nothing is sent unless the URL, the client and the method pass; what is sent is a chain of at most 11 allowed requests, each following the answer before it, that ends only where it must, and the result is decided by its last answer. |
| Fetching.ChainIsDetermined | crates/greentic-ext-runtime/src/host_state_net.rs:157-179 | Given the servers' answers, only one chain meets that contract. |
| Fetching.DeliveredResponseIsAllowed | crates/greentic-ext-runtime/src/host_state_net.rs:181-196 | A delivered response came from an allowed URL, and was no redirect still to follow unless the hops ran out, even if the client follows redirects itself. |
| Fetching.RefusedBeforeAsking | crates/greentic-ext-runtime/src/host_state_net.rs:144-151 | With a client whose answers all come from allowed URLs, as when it follows no redirect itself, a redirect refused is to a URL off the list that was never asked for. |
| Fetching.GuestReachesOnlyWhatWasGranted | crates/greentic-ext-runtime/src/host_state_net.rs:116-196 | End to end: every URL requested and every URL answered from is granted by a declared pattern inside the operator's ceiling, over https or to a loopback host. |
| Fetching.DeliveredWhole | crates/greentic-ext-runtime/src/host_state_net.rs:213-230 | A response is delivered with its status, its headers and its complete body exactly if the body ends within 32 MiB unbroken, and refused as too large exactly when it is longer or endless and reads that far. |
| Secrets.Get | crates/greentic-ext-runtime/src/host_state_ports.rs:91-139 | The backend is asked for nothing when the URI is not plain or not permitted, and otherwise for exactly that URI, its answer passed on. |
| Secrets.SpecificNamesASegment | crates/greentic-ext-runtime/src/host_state_ports.rs:162-172 | A declaration counts if and only if some segment after its scheme has a name. |
| Secrets.PermittedExactlyWhen | crates/greentic-ext-runtime/src/host_state_ports.rs:110-120 | A read is permitted if and only if all segments of some specific declaration lead the URI's. |
| Secrets.PlainExactlyWhen | crates/greentic-ext-runtime/src/host_state_ports.rs:146-151 | A URI is plain if and only if no segment is `.` or `..` or holds a percent sign. |
| Secrets.SpecificExactlyWhen | crates/greentic-ext-runtime/src/host_state_ports.rs:162-172 | A declaration is specific if and only if something other than a slash follows its scheme, or stands in it when it has none. |
| Secrets.PlainMeansItself | crates/greentic-ext-runtime/src/host_state_ports.rs:142-151 | A backend that decodes a plain URI and resolves its dots reads the same segments. |
| Secrets.PermittedStaysInside | crates/greentic-ext-runtime/src/host_state_ports.rs:96-120 | So every permitted read stays under a declaration that names something. |
| Utf8Clamp.BoundariesAround | crates/greentic-ext-runtime/src/host_state_ports.rs:31-34 | The last character boundary at or before the limit is at most 3 bytes back and is where the last whole character that fits ends. |
| Utf8Clamp.EncodeAllInjective | crates/greentic-ext-runtime/src/host_state_ports.rs:27-36 | The encoding of section 3 of RFC 3629 determines the text. |
| Utf8Clamp.EncodeTable | crates/greentic-ext-runtime/src/host_state_ports.rs:27-36 | Each scalar is encoded in the shortest form, as the table of section 3 of RFC 3629 has it. |
| Utf8Clamp.EncodeExamples | crates/greentic-ext-runtime/src/host_state_ports.rs:27-36 | Examples of section 7 of RFC 3629. |
| Utf8Clamp.MarkerBytes | crates/greentic-ext-runtime/src/host_state_ports.rs:35 | The marker is an ellipsis and `[truncated]`. |
| Utf8Clamp.Clamp | crates/greentic-ext-runtime/src/host_state_ports.rs:27-36 | The input if it fits, else the encoding of the longest run of whole characters within the limit and the marker; the loop backs up at most 3 bytes. |
| Limits.Admit | crates/greentic-ext-runtime/src/limits.rs:124-134 | Grants exactly the growth that stays within the cap in unbounded arithmetic, and then adds it; a refusal leaves the total alone. |
| Limits.PackLimits.MemoryGrowing | crates/greentic-ext-runtime/src/limits.rs:137-149 | Applies that to the memory total of the whole store and nothing else. |
| Limits.PackLimits.TableGrowing | crates/greentic-ext-runtime/src/limits.rs:151-163 | Applies that to the table total of the whole store and nothing else. |
| Limits.ServedExactly | crates/greentic-ext-runtime/src/limits.rs:124-134 | A request is charged with what it asks for beyond the present size if that stays within the cap, and with nothing otherwise. |
| Limits.BudgetConserved | crates/greentic-ext-runtime/src/limits.rs:95-134 | Over every interleaving of growth of any number of memories the total is the sum of the granted deltas, bounds the memories together, and never passes the cap. |
| Limits.RefusalChangesNothing | crates/greentic-ext-runtime/src/limits.rs:97-100 | In any store reached, a memory is refused exactly when the budget does not allow it, and then whatever is asked afterwards is answered as if it had never asked. |
| Limits.DeadlineTicks | crates/greentic-ext-runtime/src/limits.rs:260-271 | At least one tick, enough to cover the timeout and not a whole tick more, saturated only when the ceiling does not fit. |

## Left out

- Parse: the URL grammar is `scheme://authority/path` in the manner of section 3 of RFC 3986; IP-literal normalisation (`127.1`), IDNA, percent-decoding of hosts, missing or extra slashes, and tabs, newlines and trailing blanks inside a URL are not modelled, so such texts may be refused or read differently.
- CompareIsTotalOrder: versions that differ only in build metadata are ordered by their build identifiers; the `semver` crate's order of numeric build identifiers with leading zeros is not modelled.
- ClassifiedAsEnforced: because IP literals are not normalised, loopback spellings such as `127.1` or a long IPv6 form count as public here.
- CollectInto: the tree does not change during one walk, so an entry that vanishes under it is not modelled; directories whose entries cannot be listed or inspected are.
- In other reads every failure is "not there".
- VerifyRows: the stat and the read of one ledger row see one tree; the tree may change between the describe, the ledger check, the choice of component and its read.
- Request timeouts and connection reuse; the upper-casing of a method name is a parameter.
- A mutator that panics and poisons the lock; nothing is published before the rebuild, so it would leave the state alone.
- The watcher's event dispatch and state-file event (`runtime_watch.rs:84-122`) are one match; eviction and directory lookup, which it calls, are modelled.
- The broadcast channel's capacity: a subscriber is taken to see every event sent.
- The event debouncer, the epoch ticker and the exact second a deadline fires in.
- The `dev-allow-unsigned` build, in which no ledger is checked.
- SHA-256, Ed25519 and canonical JSON: arbitrary functions, so "has the recorded digest" is not "is the recorded file".
- PinOrVerify: writing a pin is one atomic step; a write that fails halfway is not modelled.
- The trust store's file format and its sharing with `gtdx`, beyond an outside pin as a step of its own.
- wasmtime stores, linkers and the typed dispatch of every extension kind.
- `log_kv` and `loggable` formatting, the broker's permission and depth checks, `http_timeout_for`: each is settled by reading one body.
- Describe fields that decide neither identity, offerings, key, manifest binding nor component.
