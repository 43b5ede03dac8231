# Verified model of Stemma's core

Stemma acquires software, prepares artifacts and publishes them to destinations. This
project models the parts of it whose correctness does not show in any one function, and
proves what they keep over every run, every interleaving and every input. `dafny verify
dfyconfig.toml` checks all of it.

State that the program updates in place is a class here, and each method is proved against
a function or an invariant of that state; parsers and path walks are functions with loops
proved equal to them.

| files | part of Stemma |
|---|---|
| `intune_marker`, `intune_graph`, `intune_publication`, `intune_handle` | publication of content to one Intune app across crashes and lost replies |
| `cas_maintenance`, `cas_collection`, `cas_cache`, `cas_settled`, `cas_files`, `cas_install` | the content-addressed cache: inventory, collection, accounting, and what a collection does to the files; plugin installation beside a collector |
| `engine_graph`, `engine_closure`, `engine_changed`, `engine_execution`, `engine_run`, `engine_plan` | discovery, change closure, publication order and reporting |
| `archive_tree`, `archive_links`, `archive_index`, `archive_extract`, `archive_layout` | a TAR as a file system, and extraction to disk |
| `apple_spans`, `apple_macho`, `apple_codedirectory` | Mach-O tables, code signatures and what a CodeDirectory seals |
| `apple_tokens`, `apple_requirement` | code requirement text |
| `apple_cpio`, `apple_payload` | package payload streams and their application facts |
| `plugin_protocol`, `plugin_stream`, `plugin_wire` | framing of plugin responses: the host's reader, the plugin's stream, and an encoding they work with |
| `wrappers`, `pairs`, `sets` | Option, Result, bytes; order-free facts about sequences; sizes of sets |

How the outside world is modelled. Every Graph request is one atomic step whose outcome
comes from an arbitrary script: applied, refused, or applied with the reply lost; version
identifiers are fresh; a pending activation may finish at any request, a file's processing
advances when it is polled, and between runs both may advance on their own. A crash is the loss of everything from some request on, and
the next run starts from the remote state alone. The clock, the grace period, files that
cannot be deleted, map iteration order, hashes, JSON, property lists, case folding and
Unicode normalization are parameters. In `cas_install` every file-system effect and every
crash is a step of its own.

## What does not hold

The code is modelled as it is. These statements, which one might expect, are false, and the
project proves when they hold.

- Recovering a marker that was just written works exactly when the declared notes hold no
  marker of another identity (`RecoverInvertsWithMarker`); otherwise an apply
  to an existing app succeeds and every later run refuses the app (`SettledPlansNothing`),
  and an apply that has to create the app fails after creating it (`Handle`). The text of a marker is stripped
  exactly if the notes had none (`NoteTextInvertsWithMarker`).
- A first apply that died once its activation was accepted, before it wrote the final
  marker, followed by a run for another payload that died between creating a version and
  recording it, blocks every later apply of the first payload, although the committed
  version holds it (`UnrecordedSecondVersionBlocks`; `StrandFirstPayload` goes there from no
  app at all). Without faults an apply fails exactly when it is rejected in such a state
  (`Handle`).
- A file that an interrupted run left is taken up again exactly if it has the artifact's name and
  sizes and is recorded for its payload (`FindFile`, `BlockedByFiles`). So a payload whose file
  name changed in between is refused as foreign; as long as each payload keeps one name and
  size, none ever is (`Lifetime`).
- A completion marker implies staged files only if a removal does not take files before the
  marker. `os.RemoveAll` promises no order, and a collector that stops halfway in the wrong
  order leaves a marker over missing files (`FilesFirstBreaksTheMarker`); with any other
  order the whole protocol holds (`ProtocolHolds`).
- Under a nonzero special hash only the bundle files of slots 1 and 3 are compared; bytes
  given for another slot are accepted unread (`OtherSlotsAreNotRead`). No caller gives any
  other slot (internal/apple/bundle.go:220, 248 and internal/apple/macho.go:91), so nothing
  is verified less for it.
- The bytes a `responseReader` holds pending depend on how its input was chunked exactly for
  the streams with a line over the size limit that is reached before any other error
  (`PendingDependsOnChunks`); everything a run reports is independent of the chunks
  (`ChunksDoNotMatter`). A plugin may write a log record that the host rejects, and its
  answer is then lost (`AnswerIsHeard`).
- `Sub(d)` counts its links afresh, so a name found through it is found from the parent only
  while both lookups together fit the 40 links (`SubAgreesWithParent`).
- A CPIO entry named as the trailer is an entry only if spelled with a leading `./`
  (`DecodeInvertsEncode`).

## Model

| member | source | states |
|---|---|---|
| `IntuneMarker.MarkerOfIsPrint` | internal/intune/intune.go:31 | the marker pattern matches exactly the printed form of a well-formed publication |
| `IntuneMarker.RecoverInvertsWithMarker` | internal/intune/intune.go:369-393 | reading back a written marker succeeds if and only if the notes hold no other identity's marker, for all notes |
| `IntuneMarker.NoteTextInvertsWithMarker` | internal/intune/intune.go:380-393 | stripping undoes appending if and only if the notes hold no marker line |
| `IntuneMarker.StrippedNotesHaveNoMarker` | internal/intune/intune.go:380-385 | notes without a declared value are stripped of every marker, whoever wrote it |
| `IntuneMarker.RewrittenNotesRecover` | internal/intune/intune.go:369-393 | rewriting undeclared notes always reads back and keeps the text around the marker |
| `IntunePublication.ConsistentIsTruthful` | internal/intune/intune.go:35-40 | the invariant implies that a nonempty active payload is what the committed version holds |
| `IntunePublication.UnmarkedIsConsistent` | internal/intune/intune.go:369-378 | any app with sound content and no marker may be adopted |
| `IntunePublication.DriftKeeps` | internal/intune/intune.go:524-537 | a pending activation that finishes between requests keeps the invariant |
| `IntunePublication.ProgressKeeps` | internal/intune/content.go:351-374 | processing of any file, finished or failed, keeps the invariant whenever it happens |
| `IntunePublication.NewVersionKeeps` | internal/intune/content.go:254-263 | creating a version that is not recorded yet keeps the invariant |
| `IntunePublication.RecordKeeps` | internal/intune/content.go:278-289 | moving the marker to the version chosen for the payload keeps the invariant, whether or not the reply arrives |
| `IntunePublication.WaitFile` | internal/intune/content.go:351-374 | polling returns the state waited for, keeps the invariant, and without faults fails only on a rejected upload |
| `IntunePublication.SendContent` | internal/intune/content.go:317-345 | on success the version's file is committed and holds this payload |
| `IntunePublication.UploadFile` | internal/intune/content.go:305-345 | resuming from any file state ends with the payload committed; a file it creates has the artifact's name, size and sealed size, on every exit; without faults it fails exactly on a rejected file |
| `IntunePublication.ChooseVersion` | internal/intune/content.go:235-263 | the recorded version, the only one of an unrecorded first upload, or a new one; fails without faults exactly for several unrecorded versions |
| `IntunePublication.Record` | internal/intune/content.go:278-289 | writing the marker keeps the invariant and the note text, and reads back |
| `IntunePublication.FindFile` | internal/intune/content.go:264-277 | at most one file, and one only if it is this upload's; without faults it fails exactly otherwise |
| `IntunePublication.Place` | internal/intune/content.go:231-289 | the version that is to receive a payload, recorded before any file is sent except on a first upload; its one file, if any, has the artifact's name and sizes; where the marker accounts for its files, none is refused as foreign |
| `IntunePublication.Upload` | internal/intune/content.go:223-303 | the returned version holds the payload, committed, in one file with the artifact's name, size and sealed size; a recorded version is resumed; whatever request it dies after, the files it leaves are of the shape recorded for their payload; at most one retry; without faults it fails exactly when blocked |
| `IntunePublication.BlockedByFiles` | internal/intune/content.go:264-301 | which files of the chosen version block an upload |
| `IntuneHandle.Observe` | internal/intune/intune.go:347-365 | finds the managed app or none, keeps the invariant, and fails without faults exactly for a missing pinned app |
| `IntuneHandle.WaitPublished` | internal/intune/intune.go:524-537 | returns a published app at the activated version |
| `IntuneHandle.ApplyMetadata` | internal/intune/intune.go:324-342 | on success the app is settled: marker, note text and version agree with the request |
| `IntuneHandle.Activate` | internal/intune/intune.go:307-322 | the requested version is finished and holds only the payload, in one file with the artifact's name and sizes; without faults it fails exactly when the upload is blocked |
| `IntuneHandle.Converge` | internal/intune/intune.go:227-286 | from any observed state, success means settled, and without faults failure means blocked |
| `IntuneHandle.Publish` | internal/intune/intune.go:227-286 | the applying half of a run settles the app, or leaves one that the next run can go on from |
| `IntuneHandle.Handle` | internal/intune/intune.go:135-286 | one invocation keeps the invariant on every exit; a plan changes nothing; the reported changes are those planned for the app as found; a successful apply settles, and if it uploaded, the committed version's one file has the artifact's name, size and sealed size; it resumes a recorded version that can be resumed; as long as each payload has one shape, no file is refused as foreign; fault-free plans, applies and requests for the artifact fail exactly under the stated conditions |
| `IntuneHandle.ExpectedSays` | internal/intune/intune.go:175-188 | a creation is reported exactly for an app that is not managed yet, an upload exactly if the active payload is another, new notes exactly if they would change |
| `IntuneHandle.SettledPlansNothing` | internal/intune/intune.go:369-450 | after a successful apply the same artifact is active and plans nothing, if and only if the declared notes hold no other identity's marker |
| `IntuneHandle.ApplyThenPlan` | internal/intune/intune.go:135-286 | after an apply that succeeded through whatever faults, a fault-free plan of the same artifact reports no changes, or is refused exactly when the declared notes hold another identity's marker |
| `IntuneHandle.Lifetime` | internal/intune/intune.go:135-286 | over any sequence of runs with any artifacts and faults, with activations and files progressing on their own and administrators editing in between, the marker never claims a payload that its version does not hold; as long as each payload has one name and size, no run refuses a file as foreign, whichever request an earlier run died after |
| `IntuneHandle.AdministratorKeeps` | internal/intune/intune.go:35-40 | edits between runs keep the invariant: another finished version, other notes, a deleted marker |
| `IntuneHandle.UnrecordedSecondVersionBlocks` | internal/intune/content.go:237-246 | an unrecorded second version blocks every apply of the first payload |
| `IntuneHandle.StrandFirstPayload` | internal/intune/intune.go:236-256 | the runs with two crashes that lead from no app to a committed version holding the payload and every apply of that payload being refused |
| `CasMaintenance.Group` | internal/cas/maintenance.go:194-255 | every child is added to the entry of its identifier, and no other entry exists; `CasFiles` says what an entry then holds |
| `CasMaintenance.Inventory` | internal/cas/maintenance.go:194-291 | lists every entry once in whatever order, with totals equal to counting the files |
| `CasMaintenance.CountBalanced` | internal/cas/maintenance.go:68-74 | retained is objects plus materialized plus metadata, for every set of entries |
| `CasCollection.CascadeCloses` | internal/cas/maintenance.go:137-164 | removing an entry with its dependents leaves no index naming a removed object |
| `CasCollection.EvictTakesAPrefix` | internal/cas/maintenance.go:173-189 | eviction is the unconditional fold over the entries in (used, id) order, stopped at the first position where the budget is met: before it the budget is exceeded at every position and every old entry goes, behind it nothing is chosen |
| `CasCollection.StopIsUnique` | internal/cas/maintenance.go:180-190 | that position and the evicted set are determined |
| `CasCollection.EvictReachesBudget` | internal/cas/maintenance.go:173-189 | it ends within budget or with only recent entries left |
| `CasCollection.SweepIgnoresOrder` | internal/cas/maintenance.go:165-172 | the first pass removes the same entries in any map order |
| `CasCollection.OneOrder` | internal/cas/maintenance.go:176-178 | the sorted inventory does not depend on the map order |
| `CasCache.RecountAgrees` | internal/cas/maintenance.go:137-164 | the running total equals a fresh count of what remains |
| `CasCache.Cache.Remove` | internal/cas/maintenance.go:137-164 | one removal with its cascade; before = after + reclaimed at every step, also when a file cannot be deleted |
| `CasCache.Cache.EvictOldest` | internal/cas/maintenance.go:176-190 | the eviction loop removes what the specification names |
| `CasCache.Cache.Collect` | internal/cas/maintenance.go:111-192 | a whole collection, real or dry, with its accounting; after a real one the reported usage is a fresh count, field by field; one that fails partway has touched nothing that a whole one would keep |
| `CasSettled.CollectedFacts` | internal/cas/maintenance.go:165-191 | removals are closed over dependents and each is justified; what the first pass leaves is evicted in order of use up to the position where the budget is met and no further; the budget is met or only recent entries remain |
| `CasSettled.RecentGoesOnlyByCascade` | internal/cas/maintenance.go:165-191 | an entry that is valid and recent goes only together with an object it names (`CasFiles.WhatGoes` says it of the files) |
| `CasSettled.IndexStandsAlone` | internal/cas/maintenance.go:194-255 | an index never shares an entry with other files, so an index that survives keeps its data |
| `CasSettled.SurvivorsReadTheSame` | internal/cas/index.go:18-37 | every survivor reads the same in a fresh inventory |
| `CasSettled.CollectionIsIdempotent` | internal/cas/maintenance.go:111-192 | collecting again at the same clock removes nothing |
| `CasSettled.PreviewPrunePrune` | internal/cas/maintenance.go:96-109 | a dry run reports exactly what the real run reclaims; the reported usage equals a fresh count; a second run reclaims nothing |
| `CasFiles.FilesOfAnEntry` | internal/cas/maintenance.go:220-231 | an object's entry is its file, its tree and their marker; any other entry is one index, installation or piece of work with its marker |
| `CasFiles.InvalidIsNotIntact` | internal/cas/maintenance.go:232-286 | an entry is valid exactly when each of its files is sound (digest names, types, completion marker, decodable index with every named object served) and one is more than a marker |
| `CasFiles.UsedIsTheMarker` | internal/cas/maintenance.go:233-254 | the last use is the modification time of the regular, finished file in uses, and otherwise zero |
| `CasFiles.UsageIsTheFiles` | internal/cas/maintenance.go:232-249 | the reported usage is the sum of the finished files by directory; with work it is every file |
| `CasFiles.WhatGoes` | internal/cas/maintenance.go:137-191 | over files: abandoned and, unless only abandoned work is collected, damaged entries go, and every index naming something removed; anything else that goes had its marker written before the cutoff, so an intact entry marked at or after it goes only with an object it names |
| `CasFiles.OldestGoFirst` | internal/cas/maintenance.go:173-191 | whatever an eviction spares has a later marker than what it takes, or the same and a greater identifier |
| `CasFiles.WithinLimit` | internal/cas/maintenance.go:173-191 | the finished files left fit the limit, or every marker left is recent |
| `CasFiles.NoMoreThanNeeded` | internal/cas/maintenance.go:173-191 | with the entry evicted last, and the indexes that went with it, the cache would exceed the limit |
| `CasFiles.Prune` | internal/cas/maintenance.go:107-109 | the files left are those of the entries that stay; an intact, recently marked entry naming nothing removed keeps every file, even if the prune fails partway |
| `CasInstall.ProtocolHolds` | internal/cas/install.go:14-64 | in every interleaving with crashes: no removal under a lease, one installer per key, a marker means staged files, returned paths stay staged |
| `CasInstall.ReturnedRootUnchanged` | internal/cas/run.go:52-64 | no step touches a root whose path a lease holder was given |
| `CasInstall.StepKeepsInv` | internal/cas/cas.go:86-101 | every step of installers, lease holders and the collector keeps the invariant |
| `CasInstall.FilesFirstBreaksTheMarker` | internal/cas/maintenance.go:145-151 | deleting files before the marker loses the marker's meaning after a crash |
| `CasInstall.HalfwayIsUnobserved` | internal/cas/maintenance.go:111-151 | in every interleaving and for every order of removal: no lease during pruning, one installer per key, and nobody who could observe a half-removed root |
| `CasInstall.LocksAreNeverLost` | internal/cas/install.go:39-64 | in every interleaving a key's lock is held exactly by the call that installs it |
| `CasInstall.PathsAreHanded` | internal/cas/install.go:14-64 | a call gains a path exactly by a check that finds the root complete or by completing it, and then the key's lock is released |
| `CasInstall.FailureGivesUp` | internal/cas/install.go:42-62 | every failing step releases the key's lock and keeps the lease, its paths and every other root |
| `CasInstall.InstallSucceeds` | internal/cas/install.go:14-64 | from any state with the key unlocked, whatever a crash left of the root, a call reaches a complete root and its path by its own steps, and changes no other root |
| `CasInstall.PruneSucceeds` | internal/cas/maintenance.go:111-151 | once no lease is held a prune can start, excludes leases while it lasts, removes a root and touches no other |
| `EngineGraph.PostorderRanks` | internal/engine/resources.go:128-154 | position in the walk's order is a rank that every edge lowers |
| `EngineGraph.PostorderHasNoCycle` | internal/engine/composition.go:92-120 | whatever such an order holds lies on no cycle |
| `EngineGraph.Walk.Visit` | internal/engine/resources.go:128-154 | the recursive walk appends the unvisited part below a node, producers first, or names a node on a reachable cycle |
| `EngineClosure.CheckAcyclic` | internal/engine/composition.go:92-120 | succeeds if and only if the graph is acyclic, and leaves an order behind |
| `EngineClosure.VisitRoots` | internal/engine/resources.go:128-160 | exactly what the roots reach, once each, producers first |
| `EngineClosure.EvaluatePeers` | internal/engine/resources.go:161-181 | the least set of plans closed under declared publication references |
| `EngineClosure.DiscoverClosure` | internal/engine/resources.go:107-182 | peers never join the run; it succeeds if and only if nothing reached is on a cycle or cannot be evaluated, and otherwise names such a resource |
| `EngineChanged.Comparison.Read` | internal/engine/changed.go:112-140 | the reading recursion ends on cyclic graphs and records every consumer of what it read |
| `EngineChanged.ReadIsComplete` | internal/engine/changed.go:99-148 | a complete read holds exactly what the roots reach, its consumers, and what needs something unusable |
| `EngineChanged.Spread` | internal/engine/changed.go:165-185 | the worklist computes exactly what the seeds reach through consumers, inside what was read |
| `EngineChanged.ChangedSince` | internal/engine/changed.go:99-187 | succeeds if and only if nothing reached is unreadable, the lock file fits what was read and every resource read can be compared; the affected resources are the closure of the seeds under consumers |
| `EngineChanged.Candidate.Dependents` | internal/engine/resolve.go:44-66 | every unskipped consumer, direct or not; the key itself if and only if it lies on a cycle |
| `EngineExecution.PrepareKeeps` | internal/engine/run.go:437-518 | preparing a resource, whatever fails, keeps the ledger: rows, pending counts, one completion at zero, readiness decided by its own acquisition and its producers, and the row naming those not ready |
| `EngineExecution.ReconcileKeeps` | internal/engine/destination.go:23-94 | reconciling a publication keeps it too, including order, failure propagation, whether its provider is called and what its row says |
| `EngineRun.Execution.Prepare` | internal/engine/run.go:437-518 | the memoized recursion over producers ends and prepares each resource once |
| `EngineRun.Execution.Reconcile` | internal/engine/destination.go:23-94 | the memoized recursion over requirements ends because the checked graph has a rank |
| `EngineRun.Execution.Run` | internal/engine/run.go:283-300 | the whole run reports every selected resource once and completes it once |
| `EngineRun.ReportedExactlyOnce` | internal/engine/run.go:559-580 | one row and one ResourceDone per resource, and that call got the final row |
| `EngineRun.CalledAfterAllRequired` | internal/engine/destination.go:23-54 | in terms of an execution's requirements, a destination is called only after everything transitively required was called and succeeded |
| `EngineRun.FailureClosesUpward` | internal/engine/destination.go:40-54 | in the same terms, what requires a failed publication fails |
| `EnginePlan.PublicationGraph` | internal/engine/composition.go:58-90 | the edges are exactly the resolvable references, each once; it fails if and only if one is unresolvable |
| `EnginePlan.CheckReferences` | internal/engine/composition.go:58-120 | succeeds if and only if every reference resolves and the declared references are acyclic |
| `EnginePlan.RankSurvivesSelection` | internal/engine/composition.go:125-141 | the order of the whole graph ranks the requirements left after selection |
| `EnginePlan.RunSelected` | internal/engine/run.go:75-152 | there is a run if and only if the selection is runnable and the host accepts it (requirements, icons, metadata, connections, lock file), and otherwise the error names the reason; the run covers exactly the reachable resources, each reported once; over the declared inputs and references of the selection alone it is decided which resources are ready, which providers are called, in what order, which publications fail and what each row says |
| `EnginePlan.CalledAfterAllNeeded` | internal/engine/destination.go:31-54 | over declared references: a provider is called only after everything its publication references, directly or through others, was called and succeeded |
| `EnginePlan.FailureReachesWhatNeedsIt` | internal/engine/destination.go:40-54 | whatever references a failed publication on its destination, directly or through others, fails without being called |
| `ArchiveTree.LookupPath` | internal/archive/tarfs.go:136-176 | the lookup loop ends and equals the component walk, which `ArchiveLinks` equates with what names mean |
| `ArchiveTree.WalkIsConfined` | internal/archive/tarfs.go:136-176 | a result is the root or below it, whatever dots and links occur |
| `ArchiveTree.AncestorsAreDirectories` | internal/archive/tarfs.go:136-176 | only directories lie above it |
| `ArchiveTree.FollowingEndsOffLinks` | internal/archive/tarfs.go:136-176 | following never returns a link |
| `ArchiveTree.PlainNamesResolveToThemselves` | internal/archive/tarfs.go:136-176 | a name that passes no link is found at itself |
| `ArchiveTree.SubAgreesWithParent` | internal/archive/tarfs.go:205-214 | a name found through Sub(d) is the node at d/x, exactly while the links of both lookups fit the budget |
| `ArchiveLinks.LookupIsLeads` | internal/archive/tarfs.go:136-176 | a lookup finds a node exactly if the name leads there within 40 links, where children, parents and targets alone say where a name leads; it fails exactly as the name does, and has too many links exactly if the name leads nowhere within them |
| `ArchiveLinks.LinkGivesWay` | internal/archive/tarfs.go:162-171 | below a directory found without links, d/l/rest is looked up as d/target/rest with one link less, for every target, dots included |
| `ArchiveLinks.LinkIsItsTarget` | internal/archive/tarfs.go:162-171 | between valid names the two lookups find the same node |
| `ArchiveIndex.Index.Add` | internal/archive/tarfs.go:54-103 | a header is accepted exactly under the conditions of the loop body, limits on metadata and remaining bytes included, with the exact new state |
| `ArchiveIndex.IndexTar` | internal/archive/tarfs.go:24-115 | succeeds exactly when each header is acceptable after those before it and exactly the terminator follows the last content |
| `ArchiveIndex.LinksStayInside` | internal/archive/links.go:33-39 | a link is accepted exactly if its target is relative, without NUL, and no beginning of it climbs further than the link lies deep |
| `ArchiveIndex.ContentsAreSeparate` | internal/archive/tarfs.go:62-103 | member contents lie in the stream before the terminator and share no byte |
| `ArchiveIndex.EntriesAreFound` | internal/archive/tarfs.go:54-176 | every indexed file and directory is found under its own name with no link followed |
| `ArchiveIndex.NamesStayDistinct` | internal/archive/tarfs.go:54-103 | indexed names stay distinct under folding |
| `ArchiveExtract.WalkMakes` | internal/archive/archive.go:217-249 | opening a directory path succeeds unless something else is on the way, and leaves exactly its directories |
| `ArchiveExtract.Extractor.OpenParent` | internal/archive/archive.go:217-249 | the cached chain returns what an uncached walk from the root would, leaves the same disk, and caches exactly that directory's components |
| `ArchiveExtract.Extractor.Write` | internal/archive/archive.go:334-417 | one entry: limits, spelling, duplicates and placement, with the exact new state |
| `ArchiveLayout.SpellingDecides` | internal/archive/archive.go:348-357 | the spelling map rejects exactly the names that would make spellings inconsistent at some prefix |
| `ArchiveLayout.ExtractAll` | internal/archive/archive.go:334-436 | the loop over entries and the installation of links |
| `ArchiveLayout.LinksInstall` | internal/archive/archive.go:419-429 | links install exactly when nothing lies at or below any of them |
| `ArchiveLayout.ExtractionIsTheLayout` | internal/archive/archive.go:334-436 | an archive extracts if and only if an order-free condition holds, and then the disk holds its entries and nothing else |
| `ArchiveLayout.AcceptedNamesAreCaseSafe` | internal/archive/archive.go:348-362 | accepted entries do not collide on any host, and names that fold alike are spelled alike at every prefix |
| `ArchiveLayout.OrderDoesNotMatter` | internal/archive/archive.go:334-436 | reordering an archive changes neither success nor the resulting disk |
| `AppleSpans.NeighboursDecide` | internal/apple/macho.go:201-206 | after any sort by start, neighbours that do not overlap mean that no pair does, and conversely |
| `AppleSpans.CheckApart` | internal/apple/macho.go:371-376 | the overlap check decides disjointness of all pairs |
| `AppleMachO.MachoSlices` | internal/apple/macho.go:141-208 | accepts exactly thin files and tables of aligned, in-bounds, disjoint slices behind the table; no sum wraps |
| `AppleMachO.LoadCommands` | internal/apple/macho.go:226-262 | succeeds exactly when the commands tile their region |
| `AppleMachO.CommandsPartition` | internal/apple/macho.go:241-260 | every byte of the region lies in exactly one command |
| `AppleMachO.FindSignature` | internal/apple/macho.go:311-333 | finds the one signature command exactly when its region runs from behind the commands to the slice's end |
| `AppleMachO.ReadIndex` | internal/apple/macho.go:346-379 | accepts exactly distinct slots with disjoint in-bounds blobs and a primary CodeDirectory; no offset wraps |
| `AppleMachO.Signature` | internal/apple/macho.go:311-389 | the signature of a slice, or none if there is none |
| `AppleMachO.DirectoriesListed` | internal/apple/macho.go:366-389 | the CodeDirectories are the blobs of slots 0 and 0x1000 to 0x1005, the primary one first |
| `AppleMachO.SameDirectorySameSlice` | internal/apple/macho.go:102-139 | slices with one primary CodeDirectory that both verify agree in every byte before the signature, load commands included, or exhibit a hash collision |
| `AppleMachO.SliceHeader` | internal/apple/macho.go:210-237 | a slice whose magic is written in either byte order is read in that order, with its header length and its command count and size |
| `AppleMachO.NoOtherMagic` | internal/apple/macho.go:210-223 | nothing but one of the two magics, in one of the two byte orders, begins a slice |
| `AppleMachO.TableRow` | internal/apple/macho.go:160-193 | each row of a 32-bit and of a 64-bit table is read from its words |
| `AppleMachO.IndexRow` | internal/apple/macho.go:351-354 | each row of a SuperBlob's index is read from its words |
| `AppleCodeDirectory.ValidatedReadsFit` | internal/apple/macho.go:391-428 | validation alone keeps every later header, slot and hash read in bounds, for every version |
| `AppleCodeDirectory.ValidatedStringsLieInside` | internal/apple/macho.go:430-441 | its strings lie between header and hashes, without wrap-around |
| `AppleCodeDirectory.ShapedExactly` | internal/apple/macho.go:391-509 | header and shape are accepted exactly for a known version and long enough header, reserved fields zero, a hash type with its digest length, a table and identifier inside, the code limit, and as many pages as cover the code |
| `AppleCodeDirectory.CodeClaims` | internal/apple/macho.go:453-477 | claims are returned exactly when all directories agree; one is enough to expire |
| `AppleCodeDirectory.VerifyCodeDirectory` | internal/apple/macho.go:479-553 | accepts exactly when header, pages and special slots agree; what slots and pages are compared with is `SlotsBindBlobs` and `PageBinds` |
| `AppleCodeDirectory.PagesPartitionCode` | internal/apple/macho.go:497-527 | the checked pages partition the code |
| `AppleCodeDirectory.CodeIsSealed` | internal/apple/macho.go:479-553 | two contents that pass are equal, or two of their pages are a collision of the hash |
| `AppleCodeDirectory.BundleFilesAreSealed` | internal/apple/macho.go:528-552 | the Info.plist and resource files cannot be changed without a collision, nor dropped, nor added |
| `AppleCodeDirectory.SlotsBindBlobs` | internal/apple/macho.go:528-552 | the slots pass exactly when slots 1 and 3 hash the bundle's files and every other slot with a nonzero entry hashes the signature's own blob of that slot, entries counted down from the table |
| `AppleCodeDirectory.BlobsAreSealed` | internal/apple/macho.go:528-552 | two signatures that pass with one CodeDirectory hold the same blob under every such slot, or a collision |
| `AppleCodeDirectory.PageBinds` | internal/apple/macho.go:512-527 | a code page is compared with its entry, counted up from the table |
| `AppleCodeDirectory.HeaderFields` | internal/apple/macho.go:391-477 | every field is read from its big-endian word of the header |
| `AppleCodeDirectory.OtherSlotsAreNotRead` | internal/apple/macho.go:528-552 | bytes for another slot are accepted exactly under a nonzero hash or in slot 0 |
| `AppleTokens.RequirementTokens` | internal/apple/requirement.go:138-183 | the tokenizer loop equals its specification |
| `AppleTokens.TokensAreExactlyPrinted` | internal/apple/requirement.go:138-183 | a text has given tokens if and only if it is a print of them with any blanks and comments between |
| `AppleRequirement.SplitInvertsJoin` | internal/apple/requirement.go:40-47 | splitting on and recovers the clauses that were joined |
| `AppleRequirement.JoinInvertsSplit` | internal/apple/requirement.go:40-47 | and joining recovers the tokens |
| `AppleRequirement.ParseRequirement` | internal/apple/requirement.go:35-72 | succeeds exactly if every clause is of one of the five kinds and each occurs once, with their values |
| `AppleRequirement.ClausesAreWritten` | internal/apple/requirement.go:76-100 | a clause is read as a kind and value exactly if it is written in one of the listed forms, with the two Developer ID fields in full |
| `AppleRequirement.ConjunctionHasFive` | internal/apple/requirement.go:65-70 | so there are five clauses |
| `AppleRequirement.MeaningIsExactlyPrinted` | internal/apple/requirement.go:35-183 | a text means a requirement if and only if it is a printing of clauses saying it, in any order and accepted spelling, with any blanks and comments between |
| `AppleRequirement.MeaningIsUnique` | internal/apple/requirement.go:35-72 | a text means at most one requirement |
| `AppleRequirement.ExpressedIsConjunction` | internal/apple/requirement.go:12-19 | the clauses as codesign writes them say the requirement, in any order |
| `AppleRequirement.WritableWithoutBackslash` | internal/apple/requirement.go:159-167 | exactly the requirements without backslashes can be written, in every clause order |
| `AppleCpio.CpioReader.Advance` | internal/apple/payload.go:463-532 | one header against the whole stream's meaning |
| `AppleCpio.DecodeInvertsEncode` | internal/apple/payload.go:463-540 | a stream encoded in any style decodes to its entries, exactly when the reader admits them |
| `AppleCpio.DecodesExactlyEncodings` | internal/apple/payload.go:463-540 | a stream decodes to given entries if and only if it is an encoding of them, in any styles and with any trailer and permitted padding, that the reader admits |
| `AppleCpio.SafeNamesAreClean` | internal/apple/payload.go:512-514 | a name is accepted exactly if it is the root or no stretch between slashes is empty, a dot or dots, and it holds no zero byte or backslash |
| `AppleCpio.AdmissionIgnoresOrder` | internal/apple/payload.go:507-531 | admission does not depend on the order of entries |
| `AppleCpio.KindIsTheFileType` | internal/apple/payload.go:430-446 | the kind of an entry is the file type of its mode |
| `ApplePayload.MetadataIsNotExecutable` | internal/apple/payload.go:557-568 | reading an executable's header never shortens an Info.plist |
| `ApplePayload.AppHoldsContents` | internal/apple/payload.go:591-596 | an application's path is what stands before /Contents/Info.plist, and . for a bare one |
| `ApplePayload.MetadataLiesInItsApp` | internal/apple/payload.go:567-596 | the path of an application joined with Contents/Info.plist is the entry it came from |
| `ApplePayload.ExecutablesLieInMacOS` | internal/apple/payload.go:556-566 | an executable is a regular file directly in an application's MacOS directory |
| `ApplePayload.ReadCPIO` | internal/apple/payload.go:542-615 | one pass over the stream equals decoding it and then collecting facts |
| `ApplePayload.AppsAreTheEntries` | internal/apple/payload.go:542-615 | success and applications in terms of the entries alone: a repeated or linked executable has no architectures |
| `ApplePayload.OrderDoesNotMatter` | internal/apple/payload.go:542-615 | permuted entries, in any encoding style, give the same success and the same applications, permuted |
| `PluginProtocol.ResponseReader.Write` | plugin/protocol.go:208-228 | one chunk, against a byte-by-byte reading; an error consumes nothing ever after |
| `PluginProtocol.ResponseReader.End` | plugin/protocol.go:91-95 | an unterminated last message counts |
| `PluginProtocol.ChunksDoNotMatter` | plugin/protocol.go:208-243 | every split of every stream gives the fold of accept over its messages |
| `PluginProtocol.PendingDependsOnChunks` | plugin/protocol.go:211-217 | for every stream: two splits leave different bytes pending if and only if a line over the limit is reached before any other error |
| `PluginStream.ResponseStream.SendMessage` | plugin/protocol.go:173-189 | a rejected message leaves no trace, a failed write ends the stream |
| `PluginStream.SentIsHeard` | plugin/protocol.go:173-243 | what was sent is what is read, in the canonical form a round trip through JSON gives it |
| `PluginStream.AnswerIsHeard` | plugin/protocol.go:173-243 | the canonical logs and answer arrive if and only if every written log is well formed and the answer fits |
| `PluginStream.CutShort` | plugin/protocol.go:91-95 | a write cut short never yields a message that was not sent |
| `PluginWire.ExampleIsAWire` | plugin/protocol.go:173-197 | an encoding that drops a record's final newline, as compacting JSON does, meets the hypotheses of the stream theorems |

## Left out

- Other Intune properties: icons, assignments, detection rules, relationships and the merge rules of metadata; only content, notes and their marker are modelled.
- A tenant with several apps that carry one marker, and the cached listing shared between lookups: one app at most is modelled.
- Polling intervals and timeouts: a poll succeeds or fails, and without faults it ends.
- Context cancellation everywhere, and administrator edits during a run.
- Reading, writing and importing objects in the cache, materialized copies as file trees, and digests of content: the collector sees names, sizes and times.
- CasInstall.ProtocolHolds: it assumes that the operating system releases a dead process's locks and that a removal does not take files before the marker.
- EngineClosure.DiscoverClosure: where several reached resources are on cycles or cannot be evaluated, the one reported is some one of them.
- EngineRun.Execution.Run: acquisition, preparation and destination calls are arbitrary outcomes; icons, lockfile, workspaces and change rendering are not modelled.
- EngineChanged.ChangedSince: the lock file's check, reading the base's preparations and examining changed inputs are arbitrary outcomes.
- EnginePlan.RunSelected: preflight, icons, metadata schemas, provider validation, connection settings and opening the lock file are arbitrary answers of the host, asked in the source's order.
- IntuneHandle.Handle: payload identities are lower-case hex, as every digest of the cache is (internal/cas/cas.go:25-28); an artifact with an upper-case digest, which identifyArtifact would accept, is not modelled.
- The contents of publication references inside metadata and schema annotations: references come as lists.
- ArchiveIndex.IndexTar: decoding of headers, their permitted attributes and modes, and the sidecar check come as one condition of a header.
- PluginStream.AnswerIsHeard: that JSON has the properties asked of an encoding is an assumption, not proved of a JSON library.
- Paths of trees and archives are lists of components; splitting slash-separated text and hostName are not modelled.
- ArchiveExtract.Extractor.Write: a link target that the archive stores as file content is taken as already read.
- ArchiveExtract.Extractor.OpenParent: errors of closing a directory and of creating one for other reasons than what lies there are not modelled.
- ArchiveLayout.ExtractionIsTheLayout: a host is assumed to tell apart any two names that fold differently; file modes and extended attributes are not modelled.
- Whole bundles, CMS signatures, certificates, timestamps and nested code: verification stops at CodeDirectory, slots and claims.
- AppleCodeDirectory.CodeIsSealed: the hash is any function, so the statement ends in a collision that a caller must believe infeasible.
- AppleMachO.Signature: which error is reported is not modelled.
- Compression, PBZX and XAR around a payload, and the byte limit of its decompressed stream.
- ApplePayload.OrderDoesNotMatter: which error is reported may depend on the order.
- The process around a plugin: exit status, cancellation and held-open descriptors.
- Command line, reports, editors' schemas, Jamf and Munki destinations.
