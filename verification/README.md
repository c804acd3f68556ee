# relkit, modelled and proved in Dafny

relkit publishes signed release indexes to several storage backends. This project models the parts of it
in which the order of steps, failures in between, or an exhaustive search decide correctness, and proves what
those parts are for.

| module | what it is |
|---|---|
| `Chain`, `Retention` | upgrade paths over an index, the publish-time validator, merging and pruning |
| `Backends`, `Publishing`, `PublishRun`, `PublishLimits`, `Unpublishing`, `Directory` | the writes of a publish, a removal and a directory update, with every failure and every stop |
| `Replanning` | the trial plan of a publish decides about the final one |
| `PublishMeaning` | what a published and a removed release amount to, key by key |
| `Commit` | what all those runs have in common, and what every sequence of them keeps |
| `CasSweep`, `ReleaseCodes` | dropping orphaned blobs after a publish; claimed codes against the publish gate |
| `Paths`, `Symlinks`, `PayloadTable`, `Payload` | the payload table, its link resolver, building and inspecting archives |
| `PayloadMeaning` | accepted tables and built archives in terms of their entries and of the tree |
| `StoreGC` | the store's mark-and-sweep collector |
| `PartPlan`, `UploadPool`, `StagedUpload` | part sizes and ranges, the client's worker pool, resumable uploads |
| `SiteRebuild` | the rebuild trigger as a lock protocol |
| `AdminDocument`, `AdminState`, `AdminStore` | the admin document, its operations as a state machine, and the object |
| `AdminEffects` | each of those operations by its effect on accounts, products, tokens and sessions |
| `Documents`, `Sorting`, `Sets`, `Wrappers` | shared shapes |

How failures are modelled. Every read and write of a backend is one numbered attempt, and an arbitrary function
decides what becomes of attempt number n: done, failed, done but reported as failed, or the process stops before
it. A statement about all such functions speaks about every failure and about every prefix of a run. The staged
upload and the admin store take the fate of their writes as a parameter in the same way; the upload pool and the
site trigger are state machines whose schedules are arbitrary.

What is assumed. Version lists hold no nil nodes. SHA-256 and sizes are arbitrary functions of the stored
content whose digests are 64 lower-case hex digits; `InstallsAreConfluent` alone also takes the digest to be
injective. A blob under a content-addressed key hashes to that key, which every operation keeps. Signatures are
opaque seals with an arbitrary trust predicate. Keys of one product are distinct for distinct names. The target
set of a history is fixed and without repetition, and runs of one product follow one another. Staged artifact
ids and filenames are distinct, which staging enforces (`internal/stage/stage.go:209-243`). Fresh ids, bearers,
hashes of passwords, times and random secrets are inputs, and so is the order in which ranging over a map
gives the links of a table.

Seven places where the code is less than its description, kept as the code has them. Each has an input on which
the description fails and the exact condition under which it holds.

- The collector looks at the upload suffix before the live set, so a published file whose name ends in `.tmp~`
  is removed (`LiveTmpNameIsSwept`; `LiveKeySurvivesIff` says exactly when).
- A removal is documented to report divergence as publishing does; the code reports success as soon as one
  backend acknowledged the pointer (`PartialRemovalSucceeds`; `Unpublish` says when it succeeds and when the
  backends then agree). Publishing reports it.
- A removal's dry run reports that validation passed without looking at reachability, so it passes removals that
  are then refused (`DryRunOverlooksReachability`; `Unpublish` says exactly which removals the dry run passes and
  which of those go on to the pointer).
- Manifests and artifacts are keyed by version and nodes replaced by code, so publishing a version string again
  with another code or other files takes the manifest, or already before that a file, from a node that is
  still listed (`ReusedVersionUnbacks`, `ReplacedArtifactUnbacks`). `EveryStopIsSoundIff` gives the condition, on what is listed and stored before the
  run, under which every stop is sound, and `SoundIffVersionFits` the one for a backend after a whole run.
- The latest page is to advertise only releases that clients can see; after a backfill that retention cuts at
  once it names one that is not listed (`CutBackfillIsAdvertised`; `LatestPageNames` says exactly when it names
  a listed version and when the newest).
- The depth bound of 40 together with the memo makes the verdict on long link chains depend on the order in
  which the links are visited, so an archive that `Build` accepted can be refused by `Inspect`
  (`OrderDecides`, `BuilderAndValidatorDisagree`; `BuildThenValidate` says exactly when, and
  `EveryOrderAcceptsIff` when the order does not matter).
- The walk up from a preserved path ends at "." only, so for a table with links the check never returns on a
  rooted one (`RootedPreserveHangs`; `CheckTable` and `Inspect` say exactly when). The model's methods return
  `NeverReturns` in its place.

`dafny verify dfyconfig.toml` checks the whole project.

## Model

| member | source | states |
|---|---|---|
| `Chain.SelectNextTarget` | internal/chain/chain.go:9-27 | the loop returns the first node of highest code among those not yanked, above the client and with minFrom at most the client's code; none exactly when no node is eligible |
| `Chain.NextTarget` | internal/chain/chain.go:9-27 | the chosen node is listed, eligible and of highest code; None means that nothing is eligible |
| `Chain.FirstTargetWins` | internal/chain/chain.go:9-27 | among eligible nodes of equal code the first one listed is chosen |
| `Chain.ResolveUpgradePath` | internal/chain/chain.go:29-40 | the loop terminates with the repeated greedy choice |
| `Chain.FindHead` | internal/chain/chain.go:46-57 | the first node of highest code that is not yanked, none exactly when all are yanked |
| `Chain.FirstHeadWins` | internal/chain/chain.go:46-57 | and likewise for the head |
| `Chain.WalkIsRisingChain` | internal/chain/chain.go:29-40 | the greedy walk obeys the upgrade rules at every hop and its codes strictly increase |
| `Chain.GreedyStaysAhead` | internal/chain/chain.go:9-40 | exchange argument: wherever some rule-abiding chain reaches the head, the greedy walk from any code not below that chain's start reaches it in no more steps |
| `Chain.GreedyIsCompleteAndShortest` | internal/chain/chain.go:9-57 | below the head, the walk ends at the head if and only if any chain of non-yanked nodes with minFrom at most the predecessor does, and no such chain is shorter |
| `Chain.ReachabilityIsMonotone` | internal/chain/chain.go:29-57 | a newer client reaches the head whenever an older one does, in no more steps |
| `Chain.CountCodes` | internal/chain/chain.go:63-75 | a count above one exists exactly when two nodes share a code |
| `Chain.ValidateReachability` | internal/chain/chain.go:59-116 | errors and warnings are exactly the findings that hold: duplicate code, no head, a stranded listed code, minSupported above the head or stranded, zero stranded |
| `Chain.UnreachableStartCodes` | internal/chain/chain.go:118-152 | in ascending order, exactly the starts (zero, minSupported, listed codes) below the head that cannot reach it |
| `Chain.ValidationCoversUnlistedClients` | internal/chain/chain.go:59-116 | an index without errors strands no client from its lowest listed code up to the head, listed or not |
| `Chain.StrandedIsInitialSegment` | internal/chain/chain.go:118-152 | below a stranded code everything is stranded, so the returned starts are an initial segment of those below the head |
| `Chain.NoneStrandedIffNoFinding` | internal/chain/chain.go:59-152 | no start is stranded if and only if none of unreachable, min-supported-unreachable and zero-unreachable is found |
| `Retention.MergeNode` | internal/publish/publish.go:679-688 | the existing nodes of other codes in order, then the new node |
| `Retention.ApplyRetainVersions` | internal/publish/publish.go:692-728 | the list splits into retained and pruned without loss, no pruned code above a retained one, `keep` of them retained (all when keep is not positive), retained ascending after a cut and untouched otherwise |
| `Retention.SameAboveSameWalk` | internal/chain/chain.go:29-40 | the walk from a code depends only on which nodes lie above it |
| `Retention.PruningKeepsEveryPath` | internal/publish/publish.go:692-728 | from any code not below a retained node the upgrade path over the pruned index is the path over the full one |
| `Retention.PruningStrandsNobody` | internal/publish/publish.go:692-728 | while a node that is not yanked is kept, pruning keeps the head and never introduces `unreachable` |
| `Retention.RetainedIff` | internal/publish/publish.go:692-728 | keeping the newest, node by node: with distinct codes a node stays if and only if fewer than `keep` nodes have a higher code, and each node is either kept or cut |
| `Retention.AppendedReachesIff` | internal/chain/chain.go:9-57 | who reaches a release above everything else: exactly the clients at or above its minFrom and, if the highest other version is, those with some other kept version to go to first |
| `Retention.MergedStaysDistinct` | internal/publish/publish.go:679-688 | merging a node into a list of distinct codes keeps codes distinct |
| `Retention.RetainedStayDistinct` | internal/publish/publish.go:692-728 | and so does keeping the newest |
| `Documents.NextSequence` | internal/model/model.go:485-491 | the next sequence is above the base, at least 1000 once a document exists, and otherwise the base plus one |
| `Documents.DigestsMean` | internal/model/model.go:187-199 | a digest is 64 hexadecimal digits in either case; it names content in lower case, and so do all its spellings |
| `Backends.Cluster.Put` | internal/backends/base.go:18-35 | one write attempt: by its fate applied or not, acknowledged or not, on one key of one backend |
| `Backends.Cluster.Get` | internal/backends/base.go:18-35 | one read attempt: the stored item if it is answered |
| `Backends.Cluster.Head` | internal/backends/cas.go:91-103 | one size query: the stored size if it is answered |
| `Backends.Cluster.Promote` | internal/backends/cas.go:91-103 | one same-store copy: the target becomes the source's item, and a missing source is refused |
| `Backends.Cluster.Delete` | internal/backends/cas.go:105-110 | one deletion attempt on one key of one backend |
| `Backends.Cluster.PutArtifactCas` | internal/backends/cas.go:184-213 | only the artifact's key and its content-addressed key change, only to content of the artifact's digest and size; success means the artifact is in place; without failures it fails only when there is neither a local file nor a stored blob of that size |
| `Backends.Cluster.Materialize` | internal/backends/cas.go:125-178 | the same for copying onto another backend from the staged file or from the source's blob, of which only the size is compared and which must not be empty |
| `Backends.Cluster.PrimaryIngest` | internal/backends/cas.go:114-121 | the first backend that takes content-addressed writes, none if there is none |
| `Commit.StepKeepsSound` | internal/publish/publish.go:174-292 | commit safety at every prefix of writes: wherever a run stops whose plan fits what the backends list, every node any backend lists has its manifest there, with matching digest, size, version and code, and all the artifacts that manifest names |
| `Commit.EveryStopIsSoundIff` | internal/publish/publish.go:174-292 | and exactly: every stop that the plan allows leaves all backends sound if and only if, before it starts, on every backend that lists the version string the staged artifacts agree with the stored manifest wherever the filenames meet and every node listed under it is of the plan's manifest |
| `Commit.NewVersionFits` | internal/publish/publish.go:174-292 | a version string that no backend lists fits, and so does a plan without uploads |
| `Commit.SoundUntilTheManifest` | internal/publish/publish.go:174-229 | while artifacts are uploaded and a backend's manifest and pointer are as before, it is sound if they agree with the manifest it stores |
| `Commit.OtherContentUnbacks` | internal/publish/publish.go:174-229 | and otherwise, given content for the staged artifacts, there is a first upload after which it is not |
| `Commit.SoundIffVersionFits` | internal/publish/publish.go:174-292 | a whole run, from the state before: a backend that took the release, and the pointer or not, is sound afterwards if and only if every node listed before under the version string that stays listed is of the run's manifest |
| `PublishLimits.ReusedVersionUnbacks` | internal/publish/publish.go:35-328 | the input, through the whole run: 1.0 of code 1 is listed and sound, publishing 1.0 with code 2 succeeds with no failure, and the backend is no longer sound |
| `PublishLimits.ReplacedArtifactUnbacks` | internal/publish/publish.go:174-229 | the other input, through the upload: 1.0 with a file is listed and sound, another file of the same name is uploaded under 1.0, and before any manifest is written the backend is no longer sound |
| `Commit.ContentStays` | internal/publish/publish.go:174-229 | with distinct filenames no later upload of a run displaces an artifact already in place |
| `Commit.PointerIsOldOrNewer` | internal/publish/publish.go:278-292 | each backend holds exactly the old pointer or the new one, and a replaced pointer is replaced by a strictly higher sequence |
| `Commit.EveryRunStaysSound` | internal/publish/publish.go:174-292 | over every history of publishes, removals and directory updates, each stopped anywhere, all backends stay sound, if each run that changed something had a plan that fits |
| `Commit.SequencesOnlyRise` | internal/model/model.go:485-491 | over every history, on every backend, a document's sequence never falls and rises whenever the document changes |
| `Commit.PartialCommitDiverges` | internal/publish/publish.go:278-320 | a run that moved the pointer on one backend and not on another leaves the set disagreeing |
| `Commit.DivergenceIsFrozen` | internal/publish/publish.go:564-627 | while backends disagree on a document no run changes it anywhere, and a run for it changes nothing at all |
| `Commit.PartialCommitBlocks` | internal/publish/publish.go:304-320 | after a partial commit every later run for that document stops before its first write, and the document stays as it is on every backend |
| `Publishing.ReadExistingIndexes` | internal/publish/publish.go:564-627 | succeeds only if every backend answered, all hold the same bytes and they verify for this channel, returning that index or the empty one after one read of each; each refusal has its reason |
| `Publishing.CheckCodeMonotonic` | internal/publish/publish.go:629-648 | open exactly when backfilling is allowed or every listed code is below the new one |
| `Publishing.HighestPublishedCode` | internal/publish/publish.go:654-677 | an upper bound of every code on every channel, attained unless it is zero; if reads are answered it fails only for a channel whose backends disagree or whose index does not verify |
| `Publishing.NewIndex` | internal/model/model.go:493-525 | fails exactly for a sequence below one or no versions; otherwise the same nodes sorted by code |
| `Publishing.PlanIndex` | internal/publish/publish.go:123-146 | merges, prunes and validates: the planned index follows the current one and has no errors, and a refusal means the resulting index would not validate; a release above everything listed is accepted, whatever is cut, if and only if it fits |
| `Publishing.NextIndexIsUnique` | internal/publish/publish.go:123-146 | where codes are distinct only one index can follow the current one |
| `Publishing.ValidatesOrNot` | internal/publish/publish.go:123-146 | so a release either would validate or would not |
| `Replanning.TrialDecides` | internal/publish/publish.go:123-275 | the second plan validates whenever the trial did: where the current index lists no code twice, putting the uploaded manifest in the place of the trial's leaves an index without errors |
| `Replanning.SwapFollows` | internal/publish/publish.go:253-260 | whatever index follows with one node follows with another node of the same code, minFrom and yanked flag in its place |
| `Replanning.AlikeFindings` | internal/chain/chain.go:59-116 | the validator's findings depend on codes, minFrom and yanked flags alone |
| `Publishing.AppendedIndexValidatesIff` | internal/publish/publish.go:679-756 | every index that can follow in that case validates if and only if minFrom is at most the code of each version that stays, or at most that of the current head, and the lowest supported code is at or above minFrom or has a version that stays to go to first |
| `Publishing.StaysIff` | internal/publish/publish.go:679-728 | the next index lists the release and exactly the versions with fewer than keep - 1 others above them |
| `Publishing.FitsWhenNothingIsCut` | internal/publish/publish.go:679-756 | if nothing is cut that comes down to a minFrom of at most the current head's code |
| `Publishing.ReleaseIsListedIff` | internal/publish/publish.go:120-146 | any release, backfilled or not, is listed if and only if it is not cut at once, that is, if fewer than `keep` versions are above it |
| `Publishing.ReleaseIsNewestIff` | internal/publish/publish.go:120-146 | and it is the newest one listed if and only if nothing listed before is above it |
| `Publishing.NextIndexKeepsEveryPath` | internal/publish/publish.go:679-728 | pruning changes no path: from the lowest listed code on, the upgrade path over the next index is the path over all merged versions |
| `Publishing.RetainedBehind` | internal/publish/publish.go:679-728 | the next index lists exactly the retained versions of the merged list, and codes stay distinct |
| `Publishing.NextIndexListsKnownNodes` | internal/publish/publish.go:679-728 | every node of the next index was listed before or is the new node |
| `Publishing.NewestNodeHeadsTheIndex` | internal/publish/publish.go:679-728 | a release above everything published survives the pruning and heads the index |
| `Publishing.NewestReleaseIsOffered` | internal/publish/publish.go:120-166 | what a release above everything published does for clients: it is offered to exactly those from its minFrom up to itself, and in an index that validates every client from the lowest kept version on walks to it |
| `Publishing.PutOne` | internal/publish/publish.go:182-210 | one artifact onto one backend: copied from the ingest source, or put there; without failures it fails only when the content can be had neither from the staged tree nor from the ingest backend's blob |
| `Publishing.UploadTo` | internal/publish/publish.go:182-229 | all artifacts onto one backend within the plan, other backends untouched, one URL gathered per artifact in order |
| `Publishing.UploadAll` | internal/publish/publish.go:174-229 | on success every backend has every artifact and each artifact's URLs are those of the ingest source followed by the others in order; on any outcome only planned keys changed, and without failures it fails only for content that cannot be had |
| `Publishing.NewManifestFromStaged` | internal/model/model.go:407-447 | succeeds exactly if every artifact has a URL, else names the first that has none; one manifest artifact per staged artifact, in order, with its own URLs |
| `Publishing.EveryArtifactHasUrls` | internal/publish/publish.go:174-233 | after an upload every artifact has URLs, so the manifest is never refused in a run |
| `Publishing.UploadRelease` | internal/publish/publish.go:174-251 | artifacts and manifest onto every backend before any pointer: on success all are there, on failure the pointer is untouched |
| `Publishing.PutEverywhere` | internal/publish/publish.go:241-251 | writes backends in order and stops at the first failure, the ones before it written, the ones after it untouched |
| `Publishing.PutWhereverPossible` | internal/publish/publish.go:278-292 | tries every backend once, in order, unless the process stops; each one holds the document exactly if its write was applied, and is reported exactly if its write was acknowledged |
| `Publishing.WritePages` | internal/publish/publish.go:453-470 | one backend's pages: only they change, and all are in place when no failure is counted |
| `Publishing.WriteWebPointers` | internal/publish/publish.go:356-473 | only the derived pages change, only on the given backends, and all of them are in place when no failure is reported |
| `PublishRun.Prepare` | internal/publish/publish.go:45-146 | before the first write: staged files match, the current index verifies on all backends, the gate is open and a trial index validates; every refusal is one of these checks and is warranted |
| `PublishRun.PublishableIsNotRefused` | internal/publish/publish.go:45-146 | a release that would pass every check gives no reason for any of their refusals |
| `PublishRun.PrepareRelease` | internal/publish/publish.go:113-275 | up to the sealed index no pointer moves; a dry run writes nothing and ends before the upload, validated, if its reads go through, exactly when the release passes every check; what comes to be sealed passed them and clients can verify it |
| `PublishRun.SweepCommitted` | internal/publish/publish.go:322-322 | the sweep after a full commit leaves pointer, release and pages alone, drops only orphans if reads are answered, and leaves none if nothing goes wrong |
| `PublishRun.CommitPointer` | internal/publish/publish.go:266-328 | from the sealed index on: the pointer where possible, pages only where the pointer is, the sweep only after a full commit; a partial commit reports exactly the backends that acknowledged the pointer |
| `PublishRun.Run` | internal/publish/publish.go:35-328 | the whole run is a commit step wherever it stops; a dry run leaves every backend as it was, never publishes, and is validated, if its reads go through, exactly when the release would pass every check; `Published` means the sealed index, which follows the one read, is on every backend together with the whole release, passed every check and can be verified by clients, with, if nothing went wrong, its pages up and its orphaned blobs gone; blobs go only after a full commit and, if reads were answered, only orphaned ones, wherever the run stops; a partial commit names backends that hold the pointer; every refusal has its reason; an index that does not validate is found out before the first write; without failures, and with all content staged or already stored, only the checks can refuse |
| `PublishRun.CommittedStep` | internal/publish/publish.go:253-292 | a sealed index that follows the agreed one supersedes it |
| `PublishRun.LatestPageNames` | internal/publish/publish.go:294-306 | after a run without failures the latest page names the release on every backend; that is a listed version if and only if the release was not cut at once, and the newest listed one if and only if nothing listed before is above it |
| `PublishMeaning.PublishableMeans` | internal/publish/publish.go:45-146 | what a run has made sure of before the first write: each staged file present has its recorded digest and size, and no listed code is in the way |
| `PublishMeaning.CurrentMeans` | internal/publish/publish.go:564-627 | what counts as the current index: none anywhere, or the same one on every backend, for this channel and under a trusted seal |
| `PublishMeaning.UploadOrderMeans` | internal/publish/publish.go:211-229 | every backend gets the artifacts once, the ingest source first and the others in order |
| `PublishMeaning.CompleteManifestMeans` | internal/publish/publish.go:174-239 | the manifest gives each staged artifact as it was staged, in order, with one URL from every backend, the ingest source's first |
| `PublishMeaning.NewIndexMeans` | internal/publish/publish.go:123-275 | the new index has the next sequence and lists only versions listed before and the release, with its code and minFrom as staged, not yanked, and the digest, size and URLs of the uploaded manifest |
| `PublishMeaning.PublishedMeans` | internal/publish/publish.go:35-328 | after a successful run, under their keys on every backend: the sealed index, the manifest, content of each artifact's digest and size, and if nothing went wrong the latest, history, release and site pages of this release |
| `PublishMeaning.SoundMeansFetchable` | internal/publish/publish.go:174-292 | on a sound backend a client finds for each version of each index a manifest of the promised digest and size, and for each artifact of it a file of the promised digest and size |
| `PublishLimits.CutBackfillIsAdvertised` | internal/publish/publish.go:35-328 | the input, through the whole run: one version is kept, code 5 is listed, a backfill of code 3 succeeds, is not listed, and is the latest page |
| `CasSweep.DigestsFromManifest` | internal/publish/cas_gc.go:117-134 | only digests the stored manifest names; all of them if the read succeeded |
| `CasSweep.DigestsFromNodes` | internal/publish/cas_gc.go:99-115 | only digests named by the given versions' manifests; all of them if the reads succeeded |
| `CasSweep.LiveArtifactDigests` | internal/publish/cas_gc.go:57-97 | only digests named by the staged release or by a version listed on one of the channels, and all of them if the reads were answered |
| `CasSweep.SweepBackend` | internal/publish/cas_gc.go:36-50 | drops only blobs of digests a pruned version names and, if the reads were answered, nothing else names; if nothing went wrong it leaves none of those |
| `CasSweep.DropDigests` | internal/publish/cas_gc.go:36-50 | deletes blobs of digests that are not live only, and all of them if nothing goes wrong |
| `CasSweep.AddListed` | internal/publish/cas_gc.go:76-97 | adds only what the listed versions name, and everything they name if the reads were answered |
| `CasSweep.SweepOrphans` | internal/publish/cas_gc.go:16-55 | the same on each committed ingest backend; nothing happens when nothing was pruned |
| `CasSweep.StillNamedIsDroppedIff` | internal/publish/cas_gc.go:36-50 | with all reads answered a still named blob is dropped if and only if a pruned manifest spells its digest in another way nothing still uses |
| `CasSweep.StillNamedContentStays` | internal/publish/cas_gc.go:16-55 | with digests in lower case the sweep never drops content that is still named |
| `CasSweep.ListedContentIsNamed` | internal/publish/cas_gc.go:57-134 | what the manifest of a version listed on any channel names is still named, and so is what the staged release holds |
| `CasSweep.OrphanedStays` | internal/publish/cas_gc.go:16-55 | dropping blobs changes nobody's references |
| `Unpublishing.RemoveVersion` | internal/publish/unpublish.go:84-108 | removes the one node of the version; refuses exactly an empty list and a repeated version, and otherwise an unlisted version or the only one |
| `Unpublishing.RemainingWereListed` | internal/publish/unpublish.go:84-125 | the rebuilt index lists exactly the other nodes |
| `Unpublishing.PlanRemoval` | internal/publish/unpublish.go:52-140 | the rebuilt index follows the agreed one and has no errors; every refusal has its reason and nothing is written; a dry run stops once the version is known to be removable |
| `Unpublishing.RemovableIsNotRefused` | internal/publish/unpublish.go:84-108 | a version listed once beside another gives no reason for any refusal that comes before a dry run stops |
| `Unpublishing.RefusedIsNotValid` | internal/publish/unpublish.go:110-140 | and then a removal is refused only if the rebuilt index does not validate or clients could not verify it |
| `Unpublishing.ValidRemovalIsUnique` | internal/publish/unpublish.go:118-125 | a rebuilt index that validates is the only one |
| `Unpublishing.Unpublish` | internal/publish/unpublish.go:52-178 | the removal is a commit step wherever it stops; a dry run writes nothing and is validated, if its reads go through, exactly when the version is listed once beside another; a removal without failures goes on to the pointer exactly when besides the rebuilt index validates and clients can verify it; before the pointer every refusal has its reason and nothing is written; from there on, unless the process stops, it succeeds if and only if some backend acknowledged the pointer, and then the backends agree if and only if every write of it was applied; without failures all hold the new pointer and history, the release page is gone, and from a sound start the latest page is that of the newest remaining version |
| `Unpublishing.CommitRemoval` | internal/publish/unpublish.go:126-178 | the same from the sealed index on, with the outcome given for every sequence of fates |
| `Unpublishing.DivergesIffMissed` | internal/publish/unpublish.go:126-150 | after an acknowledged write, backends that agreed on the old pointer agree on the new one if and only if every write was applied |
| `Unpublishing.PartialRemovalSucceeds` | internal/publish/unpublish.go:126-178 | the input: two backends, the second write of the pointer fails, the removal reports success and the backends disagree |
| `Unpublishing.DryRunOverlooksReachability` | internal/publish/unpublish.go:110-125 | the input: of three versions the third takes clients from the second on; with no failure the dry run passes the removal of the second, and the removal itself is refused |
| `Unpublishing.HighestCodeNode` | internal/publish/unpublish.go:310-321 | the highest code, among equals the highest version string |
| `Unpublishing.LatestFromNode` | internal/publish/unpublish.go:244-270 | the page of the head from the first target whose manifest can be read; if reads are answered, none only when no target has it |
| `Unpublishing.DeleteReleaseDoc` | internal/publish/unpublish.go:274-290 | only pages change, only on the targets; without failures the release page is gone from all of them |
| `Unpublishing.PutPage` | internal/publish/unpublish.go:292-308 | one page on the targets: nothing else changes, and it is on all of them if nothing goes wrong |
| `Unpublishing.RewriteWebPointers` | internal/publish/unpublish.go:186-239 | only pages change; the latest page, where it changed, names the newest remaining version; if nothing goes wrong and some target has that version's manifest, all targets show it as the latest and no failure is counted |
| `Unpublishing.NewestIsReadable` | internal/publish/unpublish.go:186-270 | where the index was sound before a removal, the manifest of the newest remaining version can be read back |
| `PublishMeaning.WithdrawnMeans` | internal/publish/unpublish.go:126-262 | after a removal without failures, on every backend: the sealed index of exactly the other versions, with a higher sequence, their history, no page of the removed release, and the latest page of the highest code left with the artifacts of a manifest stored for it |
| `Directory.ReadBaseSequence` | internal/directory/directory.go:255-306 | succeeds only if all backends hold the same directory, or none does, under a trusted seal, with its sequence as the base; each refusal has its reason |
| `Directory.Set` | internal/directory/directory.go:97-165 | a commit step with the sequence after the trusted one read; a dry run writes nothing; success otherwise means that every backend holds it and that clients can verify it, a failed write reports the ones before it and leaves the ones after it untouched |
| `ReleaseCodes.ClaimedCodePassesUnlessOvertaken` | cmd/relkit-agent/releasecode.go:76-93 | a claimed code passes the gate if and only if the channel has gained no release of that code or a higher one since the claim |
| `ReleaseCodes.ClaimedReleasesAreDistinct` | cmd/relkit-agent/releasecode.go:76-93 | releases that each use their own claim never share a code |
| `Paths.ParentsEndIff` | internal/payload/table.go:228-235 | iterating path.Dir comes to a dot if and only if the path does not start with a slash |
| `Paths.RootIsItsOwnParent` | internal/payload/table.go:228-235 | the input: from /x every further parent is the root |
| `Paths.CleanFirst` | internal/payload/table.go:281-281 | joining onto a directory and cleaning is the same as cleaning the target by itself first |
| `Paths.CleanUpAndDown` | internal/payload/table.go:281-281 | a target that goes k times up and then down comes out k directories above where it starts, or outside |
| `Paths.CleanSkipsDots` | internal/payload/table.go:281-281 | empty segments and dots in a target count for nothing |
| `Paths.CleanCancels` | internal/payload/table.go:281-281 | a plain segment and the two dots after it cancel |
| `Paths.ParentsOfPlain` | internal/payload/table.go:228-235 | for a plain path the k-th parent is the path without its last k segments |
| `Symlinks.LinkResolver.ResolveLink` | internal/payload/table.go:270-292 | the memoised, depth-bounded resolver computes the outcome and the memo that the function MemoLink gives |
| `Symlinks.LinkResolver.ResolvePath` | internal/payload/table.go:294-311 | the same for a path; the two terminate by remaining depth and remaining components |
| `Symlinks.TargetIsRelativeToItsLink` | internal/payload/table.go:270-311 | a target is read from the directory its link is in: if cleaning it by itself leaves k times up and then down, the link ends exactly where the path k directories above its own and then down ends, and nowhere if that leaves the content or comes out at its root |
| `Symlinks.WrittenTarget` | internal/payload/table.go:277-281 | a target written as k times up and then plain names is a valid one of that form |
| `Symlinks.RefusedForItsTarget` | internal/payload/table.go:270-292 | what the resolver answers for a link it has not met: a refusal for an empty or absolute target or one with a back slash or a zero, one for leaving the content, or what it makes of the path the target leads to |
| `Symlinks.WalkOneStep` | internal/payload/table.go:294-311 | a walk of one segment ends at the end of the link there, if there is one, and else just there |
| `Symlinks.WalkInSteps` | internal/payload/table.go:294-311 | a walk of two parts ends where the second ends from an end of the first |
| `Symlinks.LinkKeepsGood` | internal/payload/table.go:270-311 | whatever the outcome, every memo entry is the end the reference resolution gives, every link on its way is in the memo too, and an error that names a defect of a link names a real one |
| `Symlinks.LargerMemoResolvesToo` | internal/payload/table.go:270-311 | a link that resolves with some memo and depth resolves to the same end with every larger memo and no less depth |
| `Symlinks.MemoLosesNothing` | internal/payload/table.go:270-311 | whatever the reference resolution reaches within a depth, the memoised one reaches within it with any memo it may have |
| `Symlinks.EndIsUnique` | internal/payload/table.go:249-311 | the memo is transparent: a link's end does not depend on the depth it was reached at |
| `Symlinks.MoreFuelSameEnd` | internal/payload/table.go:270-292 | more depth never changes an end |
| `Symlinks.LinkEndIsGood` | internal/payload/table.go:211-311 | an end has no link in it or above it and lies inside the content root |
| `Symlinks.ResolvedPathIsItself` | internal/payload/table.go:294-311 | resolving a resolved path is the identity |
| `Symlinks.NoEndOnACycle` | internal/payload/table.go:270-311 | a link whose resolution needs itself, at any distance, resolves at no depth |
| `Symlinks.NoEndIff` | internal/payload/table.go:270-311 | a link resolves at no depth if and only if what it asks for in turn leads to a link with an invalid or leaving target or round in a circle |
| `Symlinks.TooDeepMeans` | internal/payload/table.go:270-292 | the error about a cycle or a chain too deep, with whatever memo: the link has such a chain, or an end that is more than 40 hops away |
| `PayloadTable.ThroughLink` | internal/payload/table.go:228-235 | finds a link among the parent directories exactly when there is one; otherwise the walk ends exactly when it comes to a dot, and goes on for ever exactly when it never does |
| `PayloadTable.Collect` | internal/payload/table.go:212-220 | the symlinks by path, and the paths of all other entries |
| `PayloadTable.DirsAbove` | internal/payload/table.go:221-224 | exactly the directories that lie above an entry |
| `PayloadTable.HasSymlinks` | internal/payload/table.go:56-63 | true exactly when some entry is a symlink |
| `PayloadTable.ResolveAll` | internal/payload/table.go:249-265 | visits the links in the order given, with one memo, and returns that order's verdict |
| `PayloadTable.VisitIsSound` | internal/payload/table.go:249-265 | in every order acceptance means that every link has an end the table lists, and a refusal other than for depth that one has none |
| `PayloadTable.EveryOrderAcceptsIff` | internal/payload/table.go:249-292 | every order accepts the links if and only if each of them, visited first, resolves within the depth bound to a listed end |
| `PayloadTable.WithinDepthIsEnough` | internal/payload/table.go:249-292 | links that land and are each within the bound without any memo are accepted in every order |
| `PayloadTable.CheckSymlinks` | internal/payload/table.go:211-268 | a table whose paths keep the rules gets the verdict of the order visited, any other is refused; the check does not return exactly if there are links, every entry lies clear of them and the first preserved path that breaks a rule is rooted |
| `PayloadTable.AcceptedLinksAreSafe` | internal/payload/table.go:211-311 | every link of an accepted table ends at a link-free path inside the content, that is a file entry or an ancestor of one, by a resolution free of cycles |
| `PayloadTable.RequiredSchema` | internal/payload/table.go:56-73 | schema 2 exactly when the table has a symlink or is a bundle |
| `PayloadTable.CheckTable` | internal/payload/table.go:142-205 | a table that meets every rule checked without resolving links gets the verdict of the order visited, any other is refused; it does not return exactly if all that comes first is in order and the check of the symlinks does not |
| `PayloadMeaning.EntryMeans` | internal/payload/table.go:142-268 | an entry of a table that keeps the rules: a path of portable names, fields that fit its kind, and no symlink of the table above it |
| `PayloadMeaning.EntryOkIff` | internal/payload/table.go:165-185 | an entry is well formed by itself exactly if its path is made of file names, a symlink has no size, digest or mode, and a file no target |
| `PayloadMeaning.FilenameMeans` | internal/model/model.go:102-128 | a file name is 1 to 255 characters without slashes, control characters, two dots in a row or a device's name |
| `PayloadMeaning.StemMeans` | internal/model/model.go:123-126 | what is compared with the device names is the name up to its first dot, in upper case |
| `PayloadMeaning.PreserveMeans` | internal/payload/table.go:241-248 | no preserved path is a symlink of the table or lies beneath one |
| `PayloadMeaning.UnitMeans` | internal/payload/table.go:142-196 | the schema is the second exactly for symlinks and bundles; a bundle has an .app name, its Info.plist as a file, and nothing to preserve |
| `PayloadMeaning.ListedMeans` | internal/payload/table.go:211-224 | a table lists its plain entries and the proper prefixes of its entries' paths |
| `PayloadMeaning.LinksMean` | internal/payload/table.go:211-227 | with distinct paths the links are exactly the symlink entries with their targets |
| `PayloadMeaning.DirectoriesArePrefixes` | internal/payload/table.go:228-235 | the directories that iterating path.Dir visits are the proper prefixes |
| `PayloadTable.RootedPreserveHangs` | internal/payload/table.go:211-248 | the input: one file, a link to it and the preserved path /x, with every other rule met |
| `PayloadTable.ChainNeedsItsLength` | internal/payload/table.go:270-311 | link k of a chain resolves without memo within a depth if and only if the depth exceeds k |
| `PayloadTable.OrderDecides` | internal/payload/table.go:249-292 | a chain of any length is accepted when visited from the file upwards; visited from the top down it is accepted if and only if it is within the bound, and else refused for depth |
| `Payload.EnsurePortableDistinct` | internal/payload/payload.go:430-455 | true exactly when no two files and no two scripts collide after case folding |
| `Payload.ReadEntries` | internal/payload/payload.go:327-348 | succeeds exactly for distinct, well-formed names, and maps each to its data |
| `Payload.CheckFiles` | internal/payload/payload.go:370-387 | true exactly when every declared plain file is stored with its size and digest |
| `Payload.CheckScripts` | internal/payload/payload.go:388-407 | true exactly when every script is well formed and stored with its size and digest |
| `Payload.Inspect` | internal/payload/payload.go:321-428 | accepts only archives whose entries are exactly the table, the declared plain files and scripts, all matching; such an archive is accepted exactly if the verdict of the order visited is positive, and else refused for depth; it does not return exactly if the names are in order and the check of the table does not |
| `PayloadMeaning.ValidArchiveIff` | internal/payload/payload.go:321-428 | an archive is valid for a table exactly if no two entries share a name, the table is in it and keeps the rules, every plain file and script it lists is in it with size and digest, nothing else is, and folding confuses no two paths |
| `Payload.WalkTree` | internal/payload/payload.go:84-141 | the table entries and sources of the tree, in walk order, or a refusal |
| `Payload.PackScripts` | internal/payload/payload.go:159-193 | each script entry and its source, in order |
| `Payload.PackPreserve` | internal/payload/payload.go:145-157 | the preserve paths, once each and sorted; refuses exactly an invalid one |
| `Payload.PackedIsValid` | internal/payload/payload.go:56-240 | a table whose entries all have their source packs into a valid archive |
| `Payload.Plan` | internal/payload/payload.go:84-205 | the unsealed table and the sources in archive order, as the tree and the options describe them; refuses exactly an entry, preserve path or script that cannot be packed |
| `Payload.DraftIsBuildable` | internal/payload/payload.go:56-240 | the table made of the tree and the options meets the rules checked without resolving links exactly if they are buildable |
| `Payload.DraftKeepsVerdict` | internal/payload/payload.go:56-240 | sorting the entries changes the verdict of no order of visits |
| `Payload.Build` | internal/payload/payload.go:56-240 | builds exactly what is buildable and whose links the order visited accepts; what is built is a valid archive of the table the tree and options describe, packed in order |
| `PayloadMeaning.BuildableIff` | internal/payload/payload.go:56-206 | what can be built, apart from where links lead, in terms of the tree: bundle rules, valid paths and no special file outside the configuration directory, complete scripts that are there, no two paths confused by folding, nothing at or beneath a symlink |
| `PayloadMeaning.TableMeans` | internal/payload/payload.go:84-157 | a built table lists exactly the files and symlinks of the tree outside the configuration directory, once each, in path order, with size, digest and mode, or target, and the preserved paths once each in order |
| `PayloadMeaning.ScriptsMean` | internal/payload/payload.go:159-199 | each script is in the table as asked for, with size and digest, and 30 seconds if it was given no time; the table's scripts are in order of phase and path |
| `PayloadMeaning.PackedInOrder` | internal/payload/payload.go:56-240 | what lies where in a built archive: the table, then the files of the tree in the order of their names, then the scripts in the order given, all with their own bytes |
| `PayloadMeaning.ArchiveMeans` | internal/payload/payload.go:56-240 | a built archive holds the table and, under files/, each regular file of the tree by size and digest |
| `PayloadMeaning.NothingElseIsPacked` | internal/payload/payload.go:56-240 | and nothing but the table, files of the tree and scripts |
| `Payload.BuildThenValidate` | internal/payload/payload.go:56-240 | the round trip, exactly: validation of a built archive returns the same table if and only if the verdict of its own order of visits is positive, and else refuses for depth |
| `Payload.BuilderAndValidatorDisagree` | internal/payload/payload.go:56-240 | the input: a tree with more than 40 links in a chain is built in one order and refused in another |
| `StoreGC.Mark` | cmd/relkit-store/gc.go:151-249 | the live set is exactly what published indexes, latest pages and live manifests name; the round is aborted exactly when no index can be read, none names a local manifest, or a named manifest is missing or broken |
| `StoreGC.MarkIndexes` | cmd/relkit-store/gc.go:160-190 | exactly the local keys the readable published indexes name |
| `StoreGC.ExpandManifest` | cmd/relkit-store/gc.go:224-249 | everything one manifest keeps alive, None exactly when it is missing, broken or names no local URL |
| `StoreGC.Store.SweepPrefix` | cmd/relkit-store/gc.go:255-292 | removes exactly the doomed files of the prefix that can be removed; the two rows on what outlives a round say which those are |
| `StoreGC.Store.RemoveEmptyDirs` | cmd/relkit-store/gc.go:336-366 | removes exactly the directories below the prefix with no file below them |
| `StoreGC.Store.GcOnce` | cmd/relkit-store/gc.go:151-299 | a round either changes nothing, exactly when marking aborts, or leaves exactly the survivors of the three prefixes, which the two rows on what outlives a round spell out, and their directories; no other prefix is touched |
| `StoreGC.Store.RetainCas` | cmd/relkit-store/gc.go:54-64 | records the lease and nothing else |
| `StoreGC.EmptyMeansNoFileBelow` | cmd/relkit-store/gc.go:352-366 | going backwards over the walk, a directory is empty exactly when no file lies below it |
| `StoreGC.LiveKeySurvivesIff` | cmd/relkit-store/gc.go:264-292 | a live key outlives a round if and only if its name does not carry the upload suffix, or it cannot be removed |
| `StoreGC.LiveTmpNameIsSwept` | cmd/relkit-store/gc.go:264-276 | an input on which a published manifest is removed: its name ends in the upload suffix |
| `StoreGC.LeftoversAreLiveOrProtected` | cmd/relkit-store/gc.go:66-292 | a stored file that is no upload in progress outlives a round if and only if it cannot be removed, lies outside the three prefixes, is live, or is content that has an unexpired lease or is younger than the grace period |
| `StoreGC.UploadsStayIff` | cmd/relkit-store/gc.go:66-292 | an upload in progress, live or not, outlives a round if and only if it cannot be removed, lies outside the three prefixes, or is of content that has an unexpired lease or is younger than the grace period |
| `StoreGC.LeaseOutlivesRounds` | cmd/relkit-store/gc.go:54-80 | content under a lease, and its upload in progress, outlives any number of rounds that run before the lease ends |
| `StoreGC.GracePeriodOutlivesRounds` | cmd/relkit-store/gc.go:66-80 | content, and its upload in progress, that is within the grace period at each of any number of rounds is there unchanged after them, leased or not |
| `StoreGC.PublishedManifestStays` | cmd/relkit-store/gc.go:151-299 | a round keeps the manifest that a version of index/product/channel.pb has a URL of |
| `StoreGC.PublishedContentStays` | cmd/relkit-store/gc.go:151-299 | and each artifact of that manifest, by its URL as by its digest |
| `StoreGC.LatestTargetStays` | cmd/relkit-store/gc.go:192-214 | and the artifacts that a latest page names |
| `StoreGC.BrokenManifestStopsTheRound` | cmd/relkit-store/gc.go:216-249 | a published manifest that is missing, broken or names nothing local stops the round: nothing at all is removed |
| `StoreGC.UnreachableGoes` | cmd/relkit-store/gc.go:251-299 | a round that goes on removes every manifest and artifact that no URL leads to, unless it cannot |
| `StoreGC.DirectoriesStayIff` | cmd/relkit-store/gc.go:293-366 | a round that goes on leaves a directory below one of the three prefixes if and only if a file is left somewhere below it, and every other directory |
| `StoreGC.LiveStaysTheSame` | cmd/relkit-store/gc.go:151-299 | after a round the next may go on if and only if no manifest named by an index went for its suffix, and then it finds the same live keys |
| `StoreGC.SecondRoundRemovesNothing` | cmd/relkit-store/gc.go:151-299 | for every store, a second round at the same time removes no file and no directory |
| `PartPlan.ResolvePartSize` | cmd/relkit-agent/staged_upload.go:336-374 | fails exactly when the object exceeds maxParts times maxPartSize; otherwise the clamped request, lowered to the object or raised by the least amount that fits, within both bounds |
| `PartPlan.CasMultipartPlan` | cmd/relkit-agent/cas_upload.go:196-224 | fails for exactly the same objects; otherwise within all bounds, multipart exactly when the object exceeds the part |
| `PartPlan.PartsTile` | cmd/relkit-agent/staged_upload.go:523-531 | part lengths lie between one and the part size and sum to the object |
| `PartPlan.AuthorizeCasMultipart` | internal/backends/s3_compatible.go:150-207 | returns the ranges of all parts exactly when every step succeeds; an upload that was opened is otherwise aborted |
| `PartPlan.NormalizeUpload` | internal/casput/client.go:347-384 | accepts exactly one whole PUT, or PUTs of consecutive non-empty ranges that cover the blob, and spells the method out |
| `PartPlan.AcceptableTiles` | internal/casput/client.go:347-384 | a multipart descriptor is acceptable exactly if its PUTs are of non-empty ranges that follow one another from the first byte of the blob to its last |
| `PartPlan.PresignedRangesAreAcceptable` | internal/backends/s3_compatible.go:186-205 | server and client agree: every presigned range list is contiguous, covers the object and passes the client's check |
| `PartPlan.PartsIsCeiling` | cmd/relkit-agent/staged_upload.go:350-356 | the number of parts is the least that covers the object |
| `PartPlan.CeilingFits` | cmd/relkit-agent/staged_upload.go:356-366 | raising the part size to the quotient rounded up fits, and exceeds the maximum exactly when nothing fits |
| `UploadPool.PlanTransfers` | internal/casput/client.go:210-262 | succeeds exactly if every descriptor is usable; then the transfers are one whole-object PUT for each descriptor without an upload id, and for each of the others, in order, a blob with one part per request; otherwise the multipart uploads seen so far are aborted |
| `UploadPool.StepKeepsInvariant` | internal/casput/client.go:204-345 | every step of sender, workers and caller keeps the pool's invariant |
| `UploadPool.CompletesOnceWithItsOwnEtags` | internal/casput/client.go:312-345 | under every interleaving a blob is completed at most once, after all its parts, with etag i from part i |
| `UploadPool.OutcomeIsExact` | internal/casput/client.go:204-310 | what an outcome means: success that everything is stored and complete and nothing aborted; failure that exactly the blobs not recorded complete are aborted, each once |
| `UploadPool.FailsIffTroubled` | internal/casput/client.go:264-310 | over every schedule from an initial state: a call that returned failed if and only if, before its return, a transfer or a complete call failed or the caller cancelled |
| `UploadPool.FailedWorkerIsGone` | internal/casput/client.go:276-291 | a worker whose transfer or complete call failed takes no step after it |
| `UploadPool.NeverStuck` | internal/casput/client.go:262-310 | until the call returns one of its own steps is enabled; the sender never waits on workers that are gone |
| `UploadPool.EveryRunEnds` | internal/casput/client.go:204-310 | every step uses up a measure, so every run ends |
| `UploadPool.AbortsOf` | internal/casput/client.go:236-252 | the deferred abort loop visits exactly the incomplete blobs, each once |
| `StagedUpload.Upload.PutPart` | cmd/relkit-agent/staged_upload.go:143-246 | one part put under the upload's lock, for every way its writes can fail: it is answered as stored exactly if it is admissible, the session is open and the part is recorded with its digest afterwards; as created if that was new, with the body in the part's file; another recorded digest is a conflict; nothing else of the session changes, and a refused put changes nothing |
| `StagedUpload.Upload.Complete` | cmd/relkit-agent/staged_upload.go:248-334 | one complete under the lock, for every way its writes can fail: not found exactly without a session, a conflict exactly if it is not open or lacks a part, created only with an archive of the promised digest installed; any other answer installs and drops nothing and leaves the session open wherever the status could be written back |
| `StagedUpload.MissingParts` | cmd/relkit-agent/staged_upload.go:533-541 | exactly the parts not recorded |
| `StagedUpload.StepKeepsSound` | cmd/relkit-agent/staged_upload.go:143-334 | every step keeps: a recorded part is in its file with its digest and planned length, and what is installed has the promised size and digest |
| `StagedUpload.RecordedDigestsNeverChange` | cmd/relkit-agent/staged_upload.go:143-334 | over any order, repetition and interleaving of puts and completes the session stays sound and no recorded digest changes |
| `StagedUpload.AcknowledgedStaysRecorded` | cmd/relkit-agent/staged_upload.go:143-334 | a part acknowledged once is recorded for as long as the session exists |
| `StagedUpload.CreatedInstallsTheConcatenation` | cmd/relkit-agent/staged_upload.go:248-334 | a successful complete installs exactly the parts in order, of the promised size and digest |
| `StagedUpload.InstallsAreConfluent` | cmd/relkit-agent/staged_upload.go:143-334 | any two histories that install, install the same bytes |
| `StagedUpload.HonestUploadInstallsItsContent` | cmd/relkit-agent/staged_upload.go:143-334 | a client that puts only slices of one content needs one acknowledged put of each part: whatever the order, repetitions, completes and failures, what is installed then is the content, a session that is gone has installed it, and while it is open a complete without I/O failure installs it |
| `SiteRebuild.SiteTrigger.TriggerSiteRebuild` | cmd/relkit-agent/server.go:616-624 | the request section: pending is set and a worker is started exactly if none was running |
| `SiteRebuild.SiteTrigger.LoopHead` | cmd/relkit-agent/server.go:639-647 | the loop head: take the request, or stop running |
| `SiteRebuild.SiteTrigger.Recover` | cmd/relkit-agent/server.go:627-637 | after a panic: stop running, and ask again exactly if a request is pending |
| `SiteRebuild.InvariantIsInductive` | cmd/relkit-agent/server.go:614-654 | every critical section of any goroutine keeps the protocol's invariant |
| `SiteRebuild.NoLostRebuild` | cmd/relkit-agent/server.go:614-654 | in every reachable state at most one worker runs, a pending request has a worker or a recoverer, and when all have finished each request was followed by a pass |
| `SiteRebuild.NoIdlePass` | cmd/relkit-agent/server.go:614-654 | in every reachable state a pass begins, and a worker that panicked asks again, only while some request is unserved; with none left the worker at its loop head stops |
| `SiteRebuild.PotentialFalls` | cmd/relkit-agent/server.go:614-654 | with a request pending every step but a new request brings a pass nearer |
| `SiteRebuild.EveryRequestIsServed` | cmd/relkit-agent/server.go:614-654 | from an unserved request some goroutine can step, and a pass begins within bounded work under any further requests and panics |
| `AdminDocument.ValidateDocument` | internal/agentadmin/admin.go:160-219 | accepts exactly documents with normal distinct usernames, hashes, valid distinct products, and distinct tokens of registered products with full digests |
| `AdminDocument.UsersAreOk` | internal/agentadmin/admin.go:161-185 | accepts exactly users with normal distinct names, password hashes and well-formed product ids |
| `AdminDocument.ProductsAreOk` | internal/agentadmin/admin.go:186-201 | accepts exactly well-formed products with distinct ids, and collects the ids |
| `AdminDocument.TokensAreOk` | internal/agentadmin/admin.go:202-218 | accepts exactly tokens with distinct ids, full digests and registered products |
| `AdminDocument.NormalizeUsername` | internal/agentadmin/admin.go:1031-1044 | a normalised name is 2 to 32 characters of the name alphabet |
| `AdminDocument.NormalizeIsIdempotent` | internal/agentadmin/admin.go:1031-1044 | a normal name is its own normal form |
| `AdminState.StepKeepsValid` | internal/agentadmin/admin.go:223-991 | every operation, persisted or undone, keeps the document valid and equal to the one on disk |
| `AdminState.RunKeepsValid` | internal/agentadmin/admin.go:160-254 | in every reachable state the document obeys its rules and memory equals disk, through failed persists and restarts |
| `AdminState.ChangeKeepsRules` | internal/agentadmin/admin.go:303-868 | every operation keeps the document's rules |
| `AdminState.AdminsNeverVanish` | internal/agentadmin/admin.go:543-638 | once there is an admin there always is one |
| `AdminState.RevokingKills` | internal/agentadmin/admin.go:868-895 | revoking leaves no live token of that id |
| `AdminState.RevocationIsPermanent` | internal/agentadmin/admin.go:837-895 | a revoked or removed token never works again |
| `AdminState.DeletedUsersSessionsNeverResolve` | internal/agentadmin/admin.go:602-638 | a deleted user's session resolves to nobody ever after, even if the name is added again |
| `AdminState.CodesAreNeverReissued` | internal/agentadmin/admin.go:704-724 | across claims, failed persists and restarts of one registration the codes handed out strictly increase |
| `AdminState.ClaimsExceedTheirFloor` | internal/agentadmin/admin.go:704-724 | a claimed code exceeds the floor it was claimed with |
| `AdminEffects.CommitMeans` | internal/agentadmin/admin.go:223-251 | a change that is refused or cannot be persisted leaves memory, disk and sessions as they were; otherwise memory and disk hold the changed document and exactly the sessions of a deleted user go |
| `AdminEffects.AccountIff` | internal/agentadmin/admin.go:944-975 | the account a bearer stands for is the listed user its unexpired session names, and nobody otherwise |
| `AdminEffects.ResolveMeans` | internal/agentadmin/admin.go:944-975 | looking up an expired or orphaned session drops it, and no look-up touches anything else |
| `AdminEffects.SessionStepsMean` | internal/agentadmin/admin.go:924-987 | signing in opens the session until it expires, signing out ends it, a restart ends all, and no other session is affected by the first two |
| `AdminEffects.BootstrapMeans` | internal/agentadmin/admin.go:256-278 | a credential is minted only without users and without a live one, and replaced only without users |
| `AdminEffects.FirstUserMeans` | internal/agentadmin/admin.go:303-345 | the live credential admits exactly one user, and nothing brings it back |
| `AdminEffects.AddUserMeans` | internal/agentadmin/admin.go:421-467 | a user joins unless the name is taken; nothing else changes |
| `AdminEffects.SetPasswordMeans` | internal/agentadmin/admin.go:472-498 | the password of the account of the name changes, alone |
| `AdminEffects.SetUserProductsMeans` | internal/agentadmin/admin.go:502-539 | the products of an owner change, never to none; an admin's do not |
| `AdminEffects.SetRoleMeans` | internal/agentadmin/admin.go:543-598 | role and products of the account change, refused exactly for an unknown name, an owner without products, or the only admin |
| `AdminEffects.DeleteUserMeans` | internal/agentadmin/admin.go:602-638 | the user goes and the others stay in order, refused exactly for an unknown name or the only admin |
| `AdminEffects.SomebodyAlwaysManages` | internal/agentadmin/admin.go:543-638 | once some user is an admin some user always is |
| `AdminEffects.AddProductMeans` | internal/agentadmin/admin.go:664-700 | a product joins unless its id is taken; nothing else changes |
| `AdminEffects.AllocateMeans` | internal/agentadmin/admin.go:704-724 | the claimed code is one above the larger of the product's last code and the floor, and no other product changes |
| `AdminEffects.RemoveProductMeans` | internal/agentadmin/admin.go:729-760 | the product goes with exactly its tokens |
| `AdminEffects.IssueMeans` | internal/agentadmin/admin.go:793-832 | a token joins if its product is registered; nothing else changes |
| `AdminEffects.RotateAndRevokeMean` | internal/agentadmin/admin.go:837-892 | the token of the id, alone, gets a new secret or is revoked, exactly if it is not revoked yet |
| `AdminStore.Store.constructor` | internal/agentadmin/admin.go:124-151 | opens the stored document or the empty one, without sessions |
| `AdminStore.Store.Persist` | internal/agentadmin/admin.go:223-251 | writes the document to disk, or fails and leaves the disk as it was; undoing the edit is the operation's own business |
| `AdminStore.Store.CheckProducts` | internal/agentadmin/admin.go:997-1027 | accepts exactly registered identifiers and returns them once each |
| `AdminStore.Store.BootstrapToken` | internal/agentadmin/admin.go:256-266 | mints only with no user and no live credential |
| `AdminStore.Store.Reset` | internal/agentadmin/admin.go:271-278 | replaces the bootstrap credential while there is no user |
| `AdminStore.Store.CreateFirst` | internal/agentadmin/admin.go:303-345 | succeeds exactly with a good name, password and live credential and no user yet; the credential is consumed; if the write fails its own undo leaves memory and disk as they were |
| `AdminStore.Store.Add` | internal/agentadmin/admin.go:421-467 | succeeds exactly with a good name, password and products and no user of the name; if the write fails its own undo leaves memory and disk as they were |
| `AdminStore.Store.ChangePassword` | internal/agentadmin/admin.go:472-498 | changes the password hash of an existing user and nothing else; if the write fails its own undo leaves memory and disk as they were |
| `AdminStore.Store.ChangeUserProducts` | internal/agentadmin/admin.go:502-539 | changes an owner's products, never an admin's; if the write fails its own undo leaves memory and disk as they were |
| `AdminStore.Store.ChangeRole` | internal/agentadmin/admin.go:543-598 | changes role and products, and refuses to demote the last admin; if the write fails its own undo leaves memory and disk as they were |
| `AdminStore.Store.RemoveUser` | internal/agentadmin/admin.go:602-638 | deletes the user with all sessions, and refuses for the last admin; if the write fails its own undo leaves memory and disk as they were |
| `AdminStore.Store.DropSessionsOf` | internal/agentadmin/admin.go:989-995 | drops exactly the sessions of the name |
| `AdminStore.Store.Register` | internal/agentadmin/admin.go:664-700 | registers a new product, once; if the write fails its own undo leaves memory and disk as they were |
| `AdminStore.Store.Allocate` | internal/agentadmin/admin.go:704-724 | hands out a code above the last one and the floor, only once it is persisted; if the write fails its own undo leaves memory and disk as they were |
| `AdminStore.Store.Unregister` | internal/agentadmin/admin.go:729-760 | removes the product and exactly its tokens; if the write fails its own undo leaves memory and disk as they were |
| `AdminStore.Store.Issue` | internal/agentadmin/admin.go:793-832 | adds a token of a registered product; if the write fails its own undo leaves memory and disk as they were |
| `AdminStore.Store.Rotate` | internal/agentadmin/admin.go:837-864 | changes the hash of a token that is not revoked; if the write fails its own undo leaves memory and disk as they were |
| `AdminStore.Store.Revoke` | internal/agentadmin/admin.go:868-892 | revokes a token, once; if the write fails its own undo leaves memory and disk as they were |
| `AdminStore.Store.Credentials` | internal/agentadmin/admin.go:904-920 | exactly the current hashes of the tokens that are not revoked |
| `AdminStore.Store.SignIn` | internal/agentadmin/admin.go:924-940 | records the session under its bearer's hash |
| `AdminStore.Store.SessionUser` | internal/agentadmin/admin.go:944-975 | the account a live session stands for; a dead session is dropped |
| `AdminStore.Store.SignOut` | internal/agentadmin/admin.go:979-987 | drops that session only |

## Left out

- HTTP handlers, JSON, protobuf, zip and tar codecs, real file systems and sockets: archives are lists of named entries, stores are maps, a file that does not decode is `Other` to the collector and an illegible item to a run.
- Ed25519, SHA-256, bcrypt and SigV4: functions and predicates passed in.
- Configuration, staging, the writability and protocol preflight and the loading of signers at the start of a run: a run begins with the check of the staged files. Dry runs are modelled.
- Notes, changelogs, selectors, meta entries and timestamps of the documents; `CompactPriorNodes` and the errors of marshalling and sealing.
- Service validation of the directory (identifiers and URLs): services are opaque strings.
- The list of findings as sorted text: `ValidateReachability` returns sets.
- 64-bit overflow of codes, sizes and sequences.
- Retiring a product or channel, whose rerun reads half-deleted indexes as divergence.
- A collector round that overlaps a publish run: manifests and artifacts have no grace period there.
- Published indexes that do not parse while others do: their references are not part of the live set.
- StoreGC.Store.GcOnce: one moment `now` for the whole round, and directory removals do not fail.
- StoreGC.LocalKey: how a URL is parsed and cleaned is a function passed in.
- Payload.Host: case folding is a function passed in; the modes of archive entries, script interpreters beyond their presence and `applyDescriptor` are not modelled.
- Paths are lists of segments between slashes; volume names and back slashes only matter as far as the table's rules name them.
- UploadPool.StepKeepsInvariant: HTTP retries inside one transfer and the limit on concurrent connections are not modelled; an abort call is made once and its own failure is ignored, as in the code.
- StagedUpload.Upload.PutPart: aborting and expiring an upload take no lock and are not modelled as overlapping a put or a complete.
- SiteRebuild.EveryRequestIsServed: bounded work, not time; the scheduler is assumed to run some enabled goroutine.
- AdminStore.Store.Persist: the write of the document is atomic; the fallback that removes the old file where renaming over it is impossible is left out. The methods are named for their operation (Add, Allocate, Revoke and so on).
- AdminState.RevocationIsPermanent: takes token ids to be issued once, as random ids are.
- The console, browsing, custody, makers, the operator tools and the command line.
