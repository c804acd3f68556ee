/** One publish run from its first read to its last write
    (internal/publish/publish.go, Run). */
module PublishRun {
  import opened Wrappers
  import opened Documents
  import opened Chain
  import opened Retention
  import opened Backends
  import opened Commit
  import opened Publishing
  import Replanning
  import CasSweep

  // ---------------------------------------------------------------------
  // A whole run
  // ---------------------------------------------------------------------

  /** The channel lists no code at or above this one, or backfilling was asked for. */
  ghost predicate GateOpen(existing: Index, code: int, allowBackfill: bool) {
    allowBackfill || forall n | n in existing.versions :: n.code < code
  }

  /** A present staged file does not have the recorded digest and size. */
  predicate AnyStagedWrong(measure: Measure, artifacts: seq<StagedArtifact>, local: Local) {
    exists i :: 0 <= i < |artifacts| && artifacts[i].filename in local &&
      (measure.sha(local[artifacts[i].filename]) != artifacts[i].sha256 ||
       measure.size(local[artifacts[i].filename]) != artifacts[i].size)
  }

  lemma StagedRight(measure: Measure, artifacts: seq<StagedArtifact>, local: Local)
    requires IsHexDigest(measure) && !AnyStagedWrong(measure, artifacts, local)
    ensures LocalMatches(measure, artifacts, local)
  {}

  const PLACEHOLDER := ManifestRef(
    "0000000000000000000000000000000000000000000000000000000000000000", 0, ["https://placeholder.invalid/"])

  /** The node of the trial run, whose manifest is not there yet. */
  function TrialNode(staged: Staged): VersionNode {
    NodeOf(staged, PLACEHOLDER)
  }

  function RefOf(cluster: Cluster, manifest: Manifest): ManifestRef {
    var item := ManifestDoc(manifest);
    ManifestRef(
      cluster.measure.sha(item), cluster.measure.size(item), UrlsOfAll(cluster, ManifestKey(manifest.version)))
  }

  /** What a committed index rests on: the index it replaces, the open gate, and
      the rules for merging, pruning and reachability. */
  ghost predicate Grounds(
    cluster: Cluster, settings: Settings, staged: Staged, allowBackfill: bool, before: seq<Store>,
    manifest: Manifest, index: Index, existing: Index, pruned: seq<VersionNode>)
  {
    && IsCurrent(before, staged.channel, settings.trusts, existing)
    && GateOpen(existing, staged.code, allowBackfill)
    && ManifestIsComplete(cluster, staged, manifest)
    && Follows(existing, NodeOf(staged, RefOf(cluster, manifest)), settings.retainVersions, index, pruned)
    && ErrorFree(index)
  }

  lemma UncommittedStep(measure: Measure, plan: Plan, before: seq<Store>, after: seq<Store>)
    requires |before| == |after| > 0 && plan.pointer.None? && (plan.doc.IndexKey? || plan.doc.DirectoryKey?)
    requires Agree(before, plan.doc) || after == before
    requires forall b | 0 <= b < |before| :: Within(measure, plan, before[b], after[b])
    requires ManifestComesLast(measure, plan, after)
    ensures Step(measure, plan, before, after)
    ensures forall b | 0 <= b < |before| :: At(after[b], plan.doc) == At(before[b], plan.doc)
  {}

  lemma IdleStep(measure: Measure, plan: Plan, stores: seq<Store>)
    requires |stores| > 0 && plan.pointer.None? && plan.manifest.None?
    ensures Step(measure, plan, stores, stores)
  {}

  /** A sealed pointer whose index follows the current one supersedes it. */
  lemma CommittedStep(
    cluster: Cluster, settings: Settings, staged: Staged, allowBackfill: bool,
    before: seq<Store>, after: seq<Store>, plan: Plan, index: Index, existing: Index, pruned: seq<VersionNode>,
    seal: string)
    requires |before| == |after| > 0 && Extends(PlanOf(staged), plan) && plan.manifest.Some?
    requires Grounds(cluster, settings, staged, allowBackfill, before, plan.manifest.value, index, existing, pruned)
    requires plan.pointer == Some(IndexPointer(staged.channel, index, seal))
    requires forall b | 0 <= b < |before| ::
      Within(cluster.measure, plan, before[b], after[b]) && Uploaded(cluster.measure, plan, after[b])
    ensures Step(cluster.measure, plan, before, after)
  {
    var node := NodeOf(staged, RefOf(cluster, plan.manifest.value));
    assert IsRelease(cluster.measure, plan, node);
    forall listed | listed in index.versions
      ensures Listed(before[0], staged.channel, listed) || listed == node
    {
      NextIndexListsKnownNodes(existing, node, settings.retainVersions, index, pruned, listed);
    }
    assert SequenceOf(plan.pointer.value) == NextSequence(existing.sequence);
    assert existing.sequence == Base(At(before[0], plan.doc));
    assert Supersedes(cluster.measure, plan, before, after);
  }

  /** Nothing but pages and content-addressed blobs. */
  ghost predicate ReleaseUntouched(before: Store, after: Store) {
    forall key: Key | !IsPage(key) && !key.CasKey? :: At(after, key) == At(before, key)
  }

  lemma PagesAreAllowed(
    measure: Measure, plan: Plan, documents: seq<(Key, Item)>, start: Store, before: Store, after: Store)
    requires ArePages(documents) && Projected(documents, before, after) && plan.pointer.Some?
    requires Within(measure, plan, start, before) && Uploaded(measure, plan, before)
    ensures Within(measure, plan, start, after) && Uploaded(measure, plan, after)
    ensures ReleaseUntouched(before, after)
  {}

  lemma PointerIsAllowed(
    measure: Measure, plan: Plan, uploaded: Plan, item: Item, start: seq<Store>, before: seq<Store>,
    after: seq<Store>, b: nat)
    requires uploaded.pointer.None? && uploaded.doc.IndexKey? && plan == uploaded.(pointer := Some(item))
    requires OnlyPut(plan.doc, item, before, after) && b < |before| == |start|
    requires Within(measure, uploaded, start[b], before[b]) && Uploaded(measure, uploaded, before[b])
    ensures Within(measure, plan, start[b], after[b]) && Uploaded(measure, plan, after[b])
    ensures forall key | key != plan.doc :: At(after[b], key) == At(before[b], key)
  {}

  /** Whatever content-addressed blob went, nothing names any more. */
  ghost predicate DropsOnlyOrphans(
    before: Store, after: Store, index: Index, settings: Settings, staged: Staged, pruned: seq<VersionNode>)
  {
    forall h | CasKey(h) in before && CasKey(h) !in after ::
      CasSweep.Orphaned(after, index, staged.channel, settings.channels, pruned, staged.artifacts, CasKey(h), true)
  }

  /** The failures that come before the first write. */
  predicate IsEarly(failure: Failure) {
    failure in {PartialRetired, StagingMismatch, Unreadable, Divergent, CodeNotMonotonic}
  }

  /** Each refusal has its reason. */
  ghost predicate Warranted(
    cluster: Cluster, settings: Settings, staged: Staged, local: Local, allowBackfill: bool, allowPartial: bool,
    before: seq<Store>, smooth: bool, failure: Failure)
  {
    match failure
    case PartialRetired => allowPartial
    case StagingMismatch => AnyStagedWrong(cluster.measure, staged.artifacts, local)
    case Divergent => !Agree(before, IndexKey(staged.channel))
    case CodeNotMonotonic => exists existing ::
      IsCurrent(before, staged.channel, settings.trusts, existing) && !GateOpen(existing, staged.code, allowBackfill)
    case InvalidIndex => exists existing, ref ::
      IsCurrent(before, staged.channel, settings.trusts, existing) &&
      WouldNotValidate(existing, NodeOf(staged, ref), settings.retainVersions)
    case ClientsWouldReject => !settings.clientsVerify
    case UploadFailed => smooth ==> SomeUnobtainable(cluster, before, staged.artifacts, local)
    case Unreadable => smooth ==>
      (!Agree(before, IndexKey(staged.channel)) ||
       (before != [] && SomeIllegible(At(before[0], IndexKey(staged.channel)), staged.channel, settings.trusts)))
    case WriteFailed(_) => !smooth
    case Interrupted => !smooth
    case _ => false
  }

  /** The release would pass every check that comes before the first write. */
  ghost predicate Publishable(
    cluster: Cluster, settings: Settings, staged: Staged, local: Local, allowBackfill: bool, before: seq<Store>)
  {
    && !AnyStagedWrong(cluster.measure, staged.artifacts, local)
    && exists existing ::
         IsCurrent(before, staged.channel, settings.trusts, existing) &&
         GateOpen(existing, staged.code, allowBackfill) &&
         WouldValidate(existing, TrialNode(staged), settings.retainVersions)
  }

  /** The current index lists no code twice, as every index that validates. */
  ghost predicate CurrentIsDistinct(settings: Settings, staged: Staged, before: seq<Store>) {
    forall existing | IsCurrent(before, staged.channel, settings.trusts, existing) :: DistinctCodes(existing.versions)
  }

  /** The failures that a check before the first write can end in. */
  predicate IsCheck(failure: Failure) {
    failure in {StagingMismatch, Unreadable, Divergent, CodeNotMonotonic, InvalidIndex}
  }

  /** No index that validates follows the current one. */
  ghost predicate WouldNotFollow(settings: Settings, staged: Staged, before: seq<Store>) {
    exists existing :: IsCurrent(before, staged.channel, settings.trusts, existing) &&
      WouldNotValidate(existing, TrialNode(staged), settings.retainVersions)
  }

  /** A release that would pass every check gives no reason for any refusal. */
  lemma PublishableIsNotRefused(
    cluster: Cluster, settings: Settings, staged: Staged, local: Local, allowBackfill: bool, before: seq<Store>,
    failure: Failure)
    requires CurrentIsDistinct(settings, staged, before) && IsCheck(failure)
    requires Publishable(cluster, settings, staged, local, allowBackfill, before)
    requires Warranted(cluster, settings, staged, local, allowBackfill, false, before, true, failure)
    ensures failure == InvalidIndex && !WouldNotFollow(settings, staged, before)
  {
    hide AnyStagedWrong, Agree, WouldValidate, WouldNotValidate, DistinctCodes;
    forall existing | IsCurrent(before, staged.channel, settings.trusts, existing)
      ensures !WouldNotValidate(existing, TrialNode(staged), settings.retainVersions)
    {
      ValidatesOrNot(existing, TrialNode(staged), settings.retainVersions);
    }
  }

  /** The new pages went only where the new pointer is. */
  ghost predicate PagesFollowPointer(plan: Plan, before: seq<Store>, after: seq<Store>) {
    |before| == |after| &&
    forall b, key | 0 <= b < |before| && IsPage(key) && At(after[b], key) != At(before[b], key) ::
      plan.pointer.Some? && At(after[b], plan.doc) == plan.pointer
  }

  lemma UploadsKeepPages(measure: Measure, plan: Plan, before: seq<Store>, after: seq<Store>)
    requires plan.pointer.None? && |before| == |after|
    requires forall b | 0 <= b < |before| :: Within(measure, plan, before[b], after[b])
    ensures forall b, key | 0 <= b < |before| && IsPage(key) :: At(after[b], key) == At(before[b], key)
  {}

  lemma DocumentsArePages(settings: Settings, staged: Staged, manifest: Manifest, index: Index)
    ensures ArePages(WebDocuments(settings, staged, manifest, index))
  {}

  lemma CurrentMeansAgreed(stores: seq<Store>, channel: string, trusts: string -> bool, existing: Index)
    requires IsCurrent(stores, channel, trusts, existing)
    ensures Agree(stores, IndexKey(channel))
  {}

  lemma UploadsLeavePages(measure: Measure, plan: Plan, before: seq<Store>, after: seq<Store>)
    requires plan.pointer.None? && |before| == |after|
    requires forall b | 0 <= b < |before| :: Within(measure, plan, before[b], after[b])
    ensures PagesFollowPointer(plan, before, after)
  {}

  lemma PointerLeavesPages(plan: Plan, item: Item, start: seq<Store>, before: seq<Store>, after: seq<Store>)
    requires plan.doc.IndexKey? && OnlyPut(plan.doc, item, before, after) && |start| == |before|
    requires forall b, key | 0 <= b < |before| && IsPage(key) :: At(before[b], key) == At(start[b], key)
    ensures forall b, key | 0 <= b < |before| && IsPage(key) :: At(after[b], key) == At(start[b], key)
    ensures PagesFollowPointer(plan, start, after)
  {}

  lemma PagesFollow(plan: Plan, targets: seq<nat>, start: seq<Store>, before: seq<Store>, after: seq<Store>)
    requires |start| == |before| == |after| && plan.pointer.Some? && plan.doc.IndexKey?
    requires forall b, key | 0 <= b < |before| && IsPage(key) :: At(before[b], key) == At(start[b], key)
    requires forall b | 0 <= b < |before| :: b in targets || after[b] == before[b]
    requires forall b | 0 <= b < |before| && b in targets :: At(before[b], plan.doc) == plan.pointer
    requires forall b | 0 <= b < |before| :: ReleaseUntouched(before[b], after[b])
    ensures PagesFollowPointer(plan, start, after)
  {}

  /** The release is committed on every backend, on good grounds; and if nothing
      went wrong, its pages are up and the blobs it orphaned are gone. */
  ghost predicate Delivered(
    cluster: Cluster, settings: Settings, staged: Staged, seal: string, allowBackfill: bool,
    before: seq<Store>, after: seq<Store>, plan: Plan, index: Index, smooth: bool)
  {
    && |before| == |after| == |cluster.ingest|
    && plan.pointer == Some(IndexPointer(staged.channel, index, seal)) && plan.manifest.Some?
    && (forall b | 0 <= b < |after| ::
          At(after[b], plan.doc) == plan.pointer && Uploaded(cluster.measure, plan, after[b]))
    && (smooth ==> forall b | 0 <= b < |after| ::
          AllProjected(WebDocuments(settings, staged, plan.manifest.value, index), after[b]))
    && exists existing, pruned ::
         Grounds(cluster, settings, staged, allowBackfill, before, plan.manifest.value, index, existing, pruned) &&
         (smooth && pruned != [] ==> forall b | 0 <= b < |after| && cluster.ingest[b] ::
            CasSweep.NothingOrphaned(
              after[b], index, staged.channel, settings.channels, pruned, staged.artifacts))
  }

  /** Blobs go only once every backend holds the pointer, and, if every read was
      answered, only blobs that nothing names any more. */
  ghost predicate SweepsSafely(
    cluster: Cluster, settings: Settings, staged: Staged, allowBackfill: bool,
    before: seq<Store>, after: seq<Store>, plan: Plan, answered: bool)
  {
    plan.swept == {} ||
    (&& |before| == |after|
     && plan.manifest.Some? && plan.pointer.Some? && plan.pointer.value.IndexPointer?
     && (forall b | 0 <= b < |after| :: At(after[b], plan.doc) == plan.pointer)
     && exists existing, pruned ::
          Grounds(cluster, settings, staged, allowBackfill, before, plan.manifest.value,
                  plan.pointer.value.index, existing, pruned) &&
          (answered ==> forall b | 0 <= b < |after| ::
             DropsOnlyOrphans(before[b], after[b], plan.pointer.value.index, settings, staged, pruned)))
  }

  /** The backends reported as written hold the pointer; some backend is missing. */
  ghost predicate Reported(plan: Plan, stores: seq<Store>, written: seq<nat>) {
    && plan.pointer.Some? && |written| < |stores| && IsSelection(written, |stores|)
    && forall i | 0 <= i < |written| :: At(stores[written[i]], plan.doc) == plan.pointer
  }

  /** The sweep, once every backend holds the pointer. */
  method SweepCommitted(
    cluster: Cluster, settings: Settings, staged: Staged, ghost start: seq<Store>, ghost unswept: Plan,
    index: Index, pruned: seq<VersionNode>, targets: seq<nat>, ghost documents: seq<(Key, Item)>)
    returns (halted: bool, ghost plan: Plan)
    requires cluster.Valid() && |start| == |cluster.stores| == |targets|
    requires forall b | 0 <= b < |targets| :: targets[b] == b
    requires unswept.swept == {} && unswept.doc.IndexKey? && ArePages(documents)
    requires forall b | 0 <= b < |start| ::
      && Within(cluster.measure, unswept, start[b], cluster.stores[b])
      && Uploaded(cluster.measure, unswept, cluster.stores[b])
      && At(cluster.stores[b], unswept.doc) == unswept.pointer
    requires PagesFollowPointer(unswept, start, cluster.stores)
    modifies cluster
    ensures cluster.Valid() && old(cluster.attempts) <= cluster.attempts
    ensures plan == unswept.(swept := plan.swept)
    ensures forall b | 0 <= b < |start| ::
      && Within(cluster.measure, plan, start[b], cluster.stores[b])
      && Uploaded(cluster.measure, plan, cluster.stores[b])
      && At(cluster.stores[b], plan.doc) == plan.pointer
      && (AllProjected(documents, old(cluster.stores)[b]) ==> AllProjected(documents, cluster.stores[b]))
    ensures PagesFollowPointer(plan, start, cluster.stores)
    ensures cluster.Answered(old(cluster.attempts), cluster.attempts) ==>
      forall b | 0 <= b < |start| ::
        DropsOnlyOrphans(start[b], cluster.stores[b], index, settings, staged, pruned)
    ensures cluster.Smooth(old(cluster.attempts), cluster.attempts) ==> !halted
    ensures cluster.Smooth(old(cluster.attempts), cluster.attempts) && pruned != [] ==>
      forall b | 0 <= b < |start| && cluster.ingest[b] :: CasSweep.NothingOrphaned(
        cluster.stores[b], index, staged.channel, settings.channels, pruned, staged.artifacts)
  {
    hide Within, Uploaded, AllProjected, IsHexDigest, CasSound, CasSweep.Orphaned, CasSweep.OnlyDropped,
      ReleaseUntouched, DropsOnlyOrphans, PagesFollowPointer, ArePages, CasSweep.NothingOrphaned;
    ghost var before := cluster.stores;
    ghost var dropped, read;
    halted, dropped, read := CasSweep.SweepOrphans(
      cluster, index, staged.channel, settings.channels, pruned, staged.artifacts, targets);
    plan := unswept.(swept := set b, h | 0 <= b < |dropped| && h in dropped[b] :: h);
    forall b | 0 <= b < |start| {
      SweepIsAllowed(
        cluster.measure, unswept, plan, dropped[b], start[b], before[b], cluster.stores[b],
        index, settings, staged, pruned, read);
    }
    forall b | 0 <= b < |start| {
      SamePagesUp(documents, before[b], cluster.stores[b]);
    }
    forall b | 0 <= b < |start| {
      UntouchedPointer(before[b], cluster.stores[b], plan.doc);
    }
    SweepKeepsPages(unswept, plan, start, before, cluster.stores);
    forall b | 0 <= b < |start| && cluster.ingest[b]
      ensures pruned != [] && cluster.Smooth(old(cluster.attempts), cluster.attempts) ==>
        CasSweep.NothingOrphaned(
          cluster.stores[b], index, staged.channel, settings.channels, pruned, staged.artifacts)
    {
      assert targets[b] == b;
    }
  }

  /** What acknowledged the pointer holds it; without failures that is everyone. */
  lemma PointerArrived(
    cluster: Cluster, t: nat, doc: Key, pointer: Item, before: seq<Store>, after: seq<Store>, written: seq<nat>)
    requires t <= cluster.attempts <= t + |before| && IsSelection(written, |before|)
    requires Tried(cluster.fate, t, cluster.attempts - t, doc, pointer, before, after)
    requires forall b: nat :: b in written <==> b < cluster.attempts - t && cluster.fate(t + b) == Done
    ensures OnlyPut(doc, pointer, before, after)
    ensures forall i | 0 <= i < |written| :: written[i] < |before| && At(after[written[i]], doc) == Some(pointer)
    ensures cluster.attempts == t + |before| && cluster.Smooth(t, cluster.attempts) ==> |written| == |before|
  {
    TriedIsOnlyPut(cluster.fate, t, cluster.attempts - t, doc, pointer, before, after);
    forall i | 0 <= i < |written|
      ensures written[i] < |before| && At(after[written[i]], doc) == Some(pointer)
    {
      assert written[i] in written && cluster.fate(t + written[i]) == Done;
    }
    if cluster.attempts == t + |before| && cluster.Smooth(t, cluster.attempts) {
      AllBelowIsAll(written, |before|);
    }
  }

  /** From the sealed index on: the pointer, the pages, the sweep. */
  method CommitPointer(
    cluster: Cluster, settings: Settings, staged: Staged, seal: string, ghost allowBackfill: bool,
    ghost start: seq<Store>, ghost uploaded: Plan, manifest: Manifest, index: Index, ghost existing: Index,
    pruned: seq<VersionNode>)
    returns (outcome: Outcome, ghost plan: Plan)
    requires cluster.Valid() && |start| == |cluster.stores|
    requires Extends(PlanOf(staged), uploaded) && uploaded.pointer.None? && uploaded.swept == {}
    requires uploaded.manifest == Some(manifest)
    requires Grounds(cluster, settings, staged, allowBackfill, start, manifest, index, existing, pruned)
    requires forall b | 0 <= b < |start| ::
      Within(cluster.measure, uploaded, start[b], cluster.stores[b]) &&
      Uploaded(cluster.measure, uploaded, cluster.stores[b])
    modifies cluster
    ensures cluster.Valid() && old(cluster.attempts) <= cluster.attempts
    ensures Extends(PlanOf(staged), plan) && Step(cluster.measure, plan, start, cluster.stores)
    ensures plan.pointer == Some(IndexPointer(staged.channel, index, seal)) && plan.manifest == Some(manifest)
    ensures outcome.Published? ==> Delivered(
      cluster, settings, staged, seal, allowBackfill, start, cluster.stores, plan, outcome.index,
      cluster.Smooth(old(cluster.attempts), cluster.attempts))
    ensures SweepsSafely(
      cluster, settings, staged, allowBackfill, start, cluster.stores, plan,
      cluster.Answered(old(cluster.attempts), cluster.attempts))
    ensures outcome.Failed? ==>
      (outcome.failure.WriteFailed? || outcome.failure.Interrupted?) &&
      !cluster.Smooth(old(cluster.attempts), cluster.attempts)
    ensures !outcome.Validated?
    ensures outcome.Failed? && outcome.failure.WriteFailed? ==>
      Reported(plan, cluster.stores, outcome.failure.written) &&
      forall b: nat :: b in outcome.failure.written <==>
        b < |cluster.stores| && cluster.fate(old(cluster.attempts) + b) == Done
    ensures PagesFollowPointer(plan, start, cluster.stores)
  {
    hide Within, Uploaded, OnlyPut, Projected, AllProjected, Follows, Supersedes, Step, IsSelection, Grounds,
      IsHexDigest, CasSound, CasSweep.Orphaned, CasSweep.OnlyDropped, ReleaseUntouched, DropsOnlyOrphans,
      PagesFollowPointer, ArePages, CasSweep.NothingOrphaned, Tried, Delivered, SweepsSafely;
    var pointer := IndexPointer(staged.channel, index, seal);
    plan := uploaded.(pointer := Some(pointer));
    ghost var s1 := cluster.stores;
    ghost var t1 := cluster.attempts;
    var written, halted := PutWhereverPossible(cluster, IndexKey(staged.channel), pointer);
    ghost var s2 := cluster.stores;
    PointerArrived(cluster, t1, plan.doc, pointer, s1, s2, written);
    forall b | 0 <= b < |start| {
      PointerIsAllowed(cluster.measure, plan, uploaded, pointer, start, s1, s2, b);
    }
    CommittedStep(cluster, settings, staged, allowBackfill, start, s2, plan, index, existing, pruned, seal);
    UploadsKeepPages(cluster.measure, uploaded, start, s1);
    PointerLeavesPages(plan, pointer, start, s1, s2);
    forall stores, answered {
      UnsweptIsSafe(cluster, settings, staged, allowBackfill, start, stores, plan, answered);
    }
    if halted {
      return Failed(Interrupted), plan;
    }

    var documents := WebDocuments(settings, staged, manifest, index);
    DocumentsArePages(settings, staged, manifest, index);
    var failures, halted' := WriteWebPointers(cluster, written, documents);
    ghost var s3 := cluster.stores;
    forall b | 0 <= b < |start| {
      PagesAreAllowed(cluster.measure, plan, documents, start[b], s2[b], s3[b]);
    }
    CommittedStep(cluster, settings, staged, allowBackfill, start, s3, plan, index, existing, pruned, seal);
    PagesFollow(plan, written, start, s2, s3);
    if halted' {
      return Failed(Interrupted), plan;
    }
    forall b | 0 <= b < |start| {
      UntouchedPointer(s2[b], s3[b], plan.doc);
    }
    if |written| < |cluster.stores| {
      return Failed(WriteFailed(written)), plan;
    }

    SelectionOfAll(written, |cluster.stores|);
    forall b | 0 <= b < |start|
      ensures At(s3[b], plan.doc) == plan.pointer
      ensures cluster.Smooth(old(cluster.attempts), cluster.attempts) ==> AllProjected(documents, s3[b])
    {
      assert written[b] == b && At(s2[written[b]], plan.doc) == plan.pointer;
    }
    halted, plan := SweepCommitted(cluster, settings, staged, start, plan, index, pruned, written, documents);
    CommittedStep(
      cluster, settings, staged, allowBackfill, start, cluster.stores, plan, index, existing, pruned, seal);
    SweptSafely(
      cluster, settings, staged, allowBackfill, start, cluster.stores, plan, existing, pruned,
      cluster.Answered(old(cluster.attempts), cluster.attempts));
    if halted {
      return Failed(Interrupted), plan;
    }
    DeliveredAtLast(
      cluster, settings, staged, seal, allowBackfill, start, cluster.stores, plan, index, existing, pruned,
      cluster.Smooth(old(cluster.attempts), cluster.attempts));
    outcome := Published(index);
  }

  lemma UnsweptIsSafe(
    cluster: Cluster, settings: Settings, staged: Staged, allowBackfill: bool,
    before: seq<Store>, after: seq<Store>, plan: Plan, answered: bool)
    requires plan.swept == {}
    ensures SweepsSafely(cluster, settings, staged, allowBackfill, before, after, plan, answered)
  {}

  lemma SweptSafely(
    cluster: Cluster, settings: Settings, staged: Staged, allowBackfill: bool,
    before: seq<Store>, after: seq<Store>, plan: Plan, existing: Index, pruned: seq<VersionNode>, answered: bool)
    requires |before| == |after| && plan.manifest.Some? && plan.pointer.Some? && plan.pointer.value.IndexPointer?
    requires forall b | 0 <= b < |after| :: At(after[b], plan.doc) == plan.pointer
    requires Grounds(
      cluster, settings, staged, allowBackfill, before, plan.manifest.value, plan.pointer.value.index, existing,
      pruned)
    requires answered ==> forall b | 0 <= b < |after| ::
      DropsOnlyOrphans(before[b], after[b], plan.pointer.value.index, settings, staged, pruned)
    ensures SweepsSafely(cluster, settings, staged, allowBackfill, before, after, plan, answered)
  {}

  lemma DeliveredAtLast(
    cluster: Cluster, settings: Settings, staged: Staged, seal: string, allowBackfill: bool,
    before: seq<Store>, after: seq<Store>, plan: Plan, index: Index, existing: Index, pruned: seq<VersionNode>,
    smooth: bool)
    requires |before| == |after| == |cluster.ingest|
    requires plan.pointer == Some(IndexPointer(staged.channel, index, seal)) && plan.manifest.Some?
    requires forall b | 0 <= b < |after| ::
      At(after[b], plan.doc) == plan.pointer && Uploaded(cluster.measure, plan, after[b])
    requires smooth ==> forall b | 0 <= b < |after| ::
      AllProjected(WebDocuments(settings, staged, plan.manifest.value, index), after[b])
    requires Grounds(
      cluster, settings, staged, allowBackfill, before, plan.manifest.value, index, existing, pruned)
    requires smooth && pruned != [] ==> forall b | 0 <= b < |after| && cluster.ingest[b] ::
      CasSweep.NothingOrphaned(after[b], index, staged.channel, settings.channels, pruned, staged.artifacts)
    ensures Delivered(cluster, settings, staged, seal, allowBackfill, before, after, plan, index, smooth)
  {
    hide Grounds, Uploaded, AllProjected, CasSweep.NothingOrphaned, WebDocuments;
  }

  lemma UntouchedPointer(before: Store, after: Store, doc: Key)
    requires ReleaseUntouched(before, after) && doc.IndexKey?
    ensures At(after, doc) == At(before, doc)
  {}

  lemma SamePagesUp(documents: seq<(Key, Item)>, before: Store, after: Store)
    requires ArePages(documents)
    requires forall key | IsPage(key) :: At(after, key) == At(before, key)
    ensures AllProjected(documents, before) ==> AllProjected(documents, after)
  {}

  lemma SelectionOfAll(written: seq<nat>, n: nat)
    requires IsSelection(written, n) && |written| >= n
    ensures |written| == n && forall b | 0 <= b < n :: written[b] == b
    ensures forall i, j | 0 <= i < j < |written| :: written[i] != written[j]
  {}

  lemma SweepIsAllowed(
    measure: Measure, unswept: Plan, plan: Plan, dropped: set<string>, start: Store, before: Store, after: Store,
    index: Index, settings: Settings, staged: Staged, pruned: seq<VersionNode>, read: bool)
    requires unswept.swept == {} && plan == unswept.(swept := plan.swept) && dropped <= plan.swept
    requires CasSweep.OnlyDropped(before, after, dropped)
    requires forall h | h in dropped :: CasSweep.Orphaned(
      before, index, staged.channel, settings.channels, pruned, staged.artifacts, CasKey(h), read)
    requires Within(measure, unswept, start, before) && Uploaded(measure, unswept, before)
    ensures Within(measure, plan, start, after) && Uploaded(measure, plan, after) && ReleaseUntouched(before, after)
    ensures forall key | IsPage(key) :: At(after, key) == At(before, key)
    ensures read ==> DropsOnlyOrphans(start, after, index, settings, staged, pruned)
  {
    hide CasSweep.Orphaned;
    if read {
      forall h | h in dropped {
        CasSweep.OrphanedStays(
          before, after, dropped, index, staged.channel, settings.channels, pruned, staged.artifacts, CasKey(h));
      }
    }
  }

  lemma SweepKeepsPages(unswept: Plan, plan: Plan, start: seq<Store>, before: seq<Store>, after: seq<Store>)
    requires |start| == |before| == |after| && PagesFollowPointer(unswept, start, before)
    requires plan == unswept.(swept := plan.swept) && plan.doc.IndexKey?
    requires forall b | 0 <= b < |start| :: ReleaseUntouched(before[b], after[b])
    requires forall b, key | 0 <= b < |start| && IsPage(key) :: At(after[b], key) == At(before[b], key)
    ensures PagesFollowPointer(plan, start, after)
  {}

  /** All checks before the first write: the staged files, the current index, the
      code, and a trial of the index to come. */
  method Prepare(cluster: Cluster, settings: Settings, staged: Staged, local: Local, allowBackfill: bool)
    returns (r: Result<Index, Failure>)
    requires cluster.Valid()
    modifies cluster`attempts
    ensures old(cluster.attempts) <= cluster.attempts
    ensures r.Ok? ==>
      && LocalMatches(cluster.measure, staged.artifacts, local)
      && IsCurrent(cluster.stores, staged.channel, settings.trusts, r.value)
      && GateOpen(r.value, staged.code, allowBackfill)
      && cluster.Smooth(old(cluster.attempts), cluster.attempts)
      && WouldValidate(r.value, TrialNode(staged), settings.retainVersions)
      && Publishable(cluster, settings, staged, local, allowBackfill, cluster.stores)
    ensures r.Err? ==> (IsCheck(r.error) || r.error.Interrupted?) && Warranted(
      cluster, settings, staged, local, allowBackfill, false, cluster.stores,
      cluster.Smooth(old(cluster.attempts), cluster.attempts), r.error)
    ensures r == Err(InvalidIndex) ==> WouldNotFollow(settings, staged, cluster.stores)
  {
    if AnyStagedWrong(cluster.measure, staged.artifacts, local) {
      return Err(StagingMismatch);
    }
    StagedRight(cluster.measure, staged.artifacts, local);
    hide AnyStagedWrong, LocalMatches, IsCurrent, WouldNotValidate, WouldValidate, Follows, ErrorFree, Agree,
      IsHexDigest, CasSound, GateOpen, Publishable, NodeOf, TrialNode,
      SomeIllegible, SomeUnobtainable;
    r := ReadExistingIndexes(cluster, staged.channel, settings.trusts);
    if r.Err? {
      return;
    }
    var ok := CheckCodeMonotonic(r.value, staged.code, allowBackfill);
    GateIs(r.value, staged.code, allowBackfill);
    if !ok {
      return Err(CodeNotMonotonic);
    }
    var provisional := PlanIndex(r.value, TrialNode(staged), settings.retainVersions);
    if provisional.Err? {
      return Err(InvalidIndex);
    }
    PublishableNow(cluster, settings, staged, local, allowBackfill, cluster.stores, r.value);
  }

  lemma PublishableNow(
    cluster: Cluster, settings: Settings, staged: Staged, local: Local, allowBackfill: bool, before: seq<Store>,
    existing: Index)
    requires !AnyStagedWrong(cluster.measure, staged.artifacts, local)
    requires IsCurrent(before, staged.channel, settings.trusts, existing)
    requires GateOpen(existing, staged.code, allowBackfill)
    requires WouldValidate(existing, TrialNode(staged), settings.retainVersions)
    ensures Publishable(cluster, settings, staged, local, allowBackfill, before)
  {}

  lemma GateIs(existing: Index, code: int, allowBackfill: bool)
    ensures GateOpen(existing, code, allowBackfill) <==>
      allowBackfill || forall n | n in existing.versions :: n.code < code
  {}

  lemma RefusedIsNotPublishable(
    cluster: Cluster, settings: Settings, staged: Staged, local: Local, allowBackfill: bool, before: seq<Store>,
    smooth: bool, failure: Failure)
    requires Warranted(cluster, settings, staged, local, allowBackfill, false, before, smooth, failure)
    requires IsCheck(failure) || failure.Interrupted?
    requires failure == InvalidIndex ==> WouldNotFollow(settings, staged, before)
    ensures smooth && CurrentIsDistinct(settings, staged, before) ==>
      !Publishable(cluster, settings, staged, local, allowBackfill, before)
  {
    hide AnyStagedWrong, IsCurrent, Publishable, CurrentIsDistinct, WouldNotFollow;
    if
      smooth && CurrentIsDistinct(settings, staged, before) &&
      Publishable(cluster, settings, staged, local, allowBackfill, before)
    {
      PublishableIsNotRefused(cluster, settings, staged, local, allowBackfill, before, failure);
    }
  }

  /** Up to the sealed index: reading, planning, uploading, planning again. */
  method PrepareRelease(
    cluster: Cluster, settings: Settings, staged: Staged, local: Local, allowBackfill: bool, dryRun: bool)
    returns (r: Result<(Manifest, Index, seq<VersionNode>), Outcome>, ghost plan: Plan, ghost existing: Index)
    requires cluster.Valid()
    requires DistinctFilenames(staged.artifacts) && DistinctIds(staged.artifacts)
    modifies cluster
    ensures cluster.Valid() && old(cluster.attempts) <= cluster.attempts
    ensures Extends(PlanOf(staged), plan) && plan.pointer.None? && plan.swept == {}
    ensures Step(cluster.measure, plan, old(cluster.stores), cluster.stores)
    ensures forall b | 0 <= b < |cluster.stores| ::
      Within(cluster.measure, plan, old(cluster.stores)[b], cluster.stores[b])
    ensures r.Ok? ==> plan.manifest == Some(r.value.0) && Grounds(
      cluster, settings, staged, allowBackfill, old(cluster.stores), r.value.0, r.value.1, existing, r.value.2)
    ensures r.Ok? ==> forall b | 0 <= b < |cluster.stores| :: Uploaded(cluster.measure, plan, cluster.stores[b])
    ensures r.Ok? ==> settings.clientsVerify
    ensures r.Ok? || r.error.Validated? ==>
      Publishable(cluster, settings, staged, local, allowBackfill, old(cluster.stores))
    ensures r.Err? ==> (r.error.Validated? && dryRun) || r.error.Failed?
    ensures dryRun ==>
      && r.Err? && cluster.stores == old(cluster.stores)
      && (r.error.Failed? ==> IsCheck(r.error.failure) || r.error.failure.Interrupted?)
    ensures dryRun && r.error.Validated? ==> cluster.Smooth(old(cluster.attempts), cluster.attempts)
    ensures dryRun && cluster.Smooth(old(cluster.attempts), cluster.attempts) ==>
      CurrentIsDistinct(settings, staged, old(cluster.stores)) ==>
        (r.error.Validated? <==>
          Publishable(cluster, settings, staged, local, allowBackfill, old(cluster.stores)))
    ensures r == Err(Failed(InvalidIndex)) && CurrentIsDistinct(settings, staged, old(cluster.stores)) ==>
      cluster.stores == old(cluster.stores)
    ensures r.Err? && (r.error.Validated? || IsEarly(r.error.failure)) ==> cluster.stores == old(cluster.stores)
    ensures r.Err? && r.error.Failed? ==>
      !r.error.failure.WriteFailed? && Warranted(
        cluster, settings, staged, local, allowBackfill, false, old(cluster.stores),
        cluster.Smooth(old(cluster.attempts), cluster.attempts), r.error.failure)
  {
    hide Within, Uploaded, Follows, Supersedes, Step, LocalMatches, DistinctFilenames, DistinctIds, IsCurrent,
      GateOpen, ErrorFree, WouldNotValidate, WouldValidate, ManifestIsComplete, IsHexDigest, CasSound,
      SomeUnobtainable, AnyStagedWrong, Agree, SomeIllegible, Publishable, CurrentIsDistinct;
    plan := PlanOf(staged);
    ghost var start := cluster.stores;
    IdleStep(cluster.measure, plan, start);
    NothingWithin(cluster.measure, plan, start);
    var current := Prepare(cluster, settings, staged, local, allowBackfill);
    if current.Err? {
      RefusedIsNotPublishable(
        cluster, settings, staged, local, allowBackfill, start,
        cluster.Smooth(old(cluster.attempts), cluster.attempts), current.error);
      return Err(Failed(current.error)), plan, EMPTY_INDEX;
    }
    existing := current.value;
    if dryRun {
      return Err(Validated), plan, existing;
    }

    var uploaded, uploadPlan := UploadRelease(cluster, staged, local);
    plan := uploadPlan;
    CurrentMeansAgreed(start, staged.channel, settings.trusts, existing);
    UncommittedStep(cluster.measure, plan, start, cluster.stores);
    if uploaded.Err? {
      return Err(Failed(uploaded.error)), plan, existing;
    }
    var manifest, item := uploaded.value.0, ManifestDoc(uploaded.value.0);
    var ref := ManifestRef(cluster.measure.sha(item), cluster.measure.size(item), uploaded.value.1);
    assert ref == RefOf(cluster, manifest);
    var planned := PlanIndex(current.value, NodeOf(staged, ref), settings.retainVersions);
    if planned.Err? {
      TrialHolds(settings, staged, start, existing, ref);
      return Err(Failed(InvalidIndex)), plan, existing;
    }
    if !settings.clientsVerify {
      return Err(Failed(ClientsWouldReject)), plan, existing;
    }
    r := Ok((manifest, planned.value.0, planned.value.1));
  }

  /** With its manifest in place the index validates as it did on trial. */
  lemma TrialHolds(settings: Settings, staged: Staged, before: seq<Store>, existing: Index, ref: ManifestRef)
    requires IsCurrent(before, staged.channel, settings.trusts, existing)
    requires WouldValidate(existing, TrialNode(staged), settings.retainVersions)
    ensures CurrentIsDistinct(settings, staged, before) ==>
      !WouldNotValidate(existing, NodeOf(staged, ref), settings.retainVersions)
  {
    hide IsCurrent, WouldValidate, WouldNotValidate, DistinctCodes;
    if CurrentIsDistinct(settings, staged, before) {
      Replanning.TrialDecides(existing, TrialNode(staged), NodeOf(staged, ref), settings.retainVersions);
    }
  }

  lemma NothingWithin(measure: Measure, plan: Plan, stores: seq<Store>)
    ensures forall b | 0 <= b < |stores| :: Within(measure, plan, stores[b], stores[b])
  {}

  method Run(
    cluster: Cluster, settings: Settings, staged: Staged, local: Local, seal: string,
    allowBackfill: bool, allowPartial: bool, dryRun: bool)
    returns (outcome: Outcome, ghost plan: Plan)
    requires cluster.Valid()
    requires DistinctFilenames(staged.artifacts) && DistinctIds(staged.artifacts)
    modifies cluster
    ensures cluster.Valid() && old(cluster.attempts) <= cluster.attempts
    ensures Extends(PlanOf(staged), plan) && Step(cluster.measure, plan, old(cluster.stores), cluster.stores)
    ensures outcome.Published? ==> Delivered(
      cluster, settings, staged, seal, allowBackfill, old(cluster.stores), cluster.stores, plan, outcome.index,
      cluster.Smooth(old(cluster.attempts), cluster.attempts))
    ensures SweepsSafely(
      cluster, settings, staged, allowBackfill, old(cluster.stores), cluster.stores, plan,
      cluster.Answered(old(cluster.attempts), cluster.attempts))
    ensures dryRun ==>
      && cluster.stores == old(cluster.stores) && plan.pointer.None? && !outcome.Published?
      && (outcome.Failed? ==>
            outcome.failure.PartialRetired? || IsCheck(outcome.failure) || outcome.failure.Interrupted?)
    ensures outcome.Validated? ==> dryRun && cluster.Smooth(old(cluster.attempts), cluster.attempts)
    ensures outcome.Published? ==> !dryRun && settings.clientsVerify
    ensures outcome.Published? || outcome.Validated? ==>
      !allowPartial && Publishable(cluster, settings, staged, local, allowBackfill, old(cluster.stores))
    ensures dryRun && !allowPartial && cluster.Smooth(old(cluster.attempts), cluster.attempts) ==>
      CurrentIsDistinct(settings, staged, old(cluster.stores)) ==>
        (outcome.Validated? <==>
          Publishable(cluster, settings, staged, local, allowBackfill, old(cluster.stores)))
    ensures outcome == Failed(InvalidIndex) && CurrentIsDistinct(settings, staged, old(cluster.stores)) ==>
      cluster.stores == old(cluster.stores)
    ensures outcome.Validated? || (outcome.Failed? && IsEarly(outcome.failure)) ==>
      cluster.stores == old(cluster.stores)
    ensures outcome.Failed? && outcome.failure.WriteFailed? ==>
      Reported(plan, cluster.stores, outcome.failure.written)
    ensures outcome.Failed? && !outcome.failure.WriteFailed? && !outcome.failure.Interrupted? ==> plan.pointer.None?
    ensures outcome.Failed? ==> Warranted(
      cluster, settings, staged, local, allowBackfill, allowPartial, old(cluster.stores),
      cluster.Smooth(old(cluster.attempts), cluster.attempts), outcome.failure)
    ensures PagesFollowPointer(plan, old(cluster.stores), cluster.stores)
  {
    hide Within, Uploaded, Step, DistinctFilenames, DistinctIds, Grounds, DropsOnlyOrphans,
      CasSweep.NothingOrphaned, Reported, PagesFollowPointer, IsHexDigest, CasSound, SomeUnobtainable,
      AnyStagedWrong, WouldNotValidate, WouldValidate, IsCurrent, GateOpen, Agree, Publishable, CurrentIsDistinct;
    ghost var start := cluster.stores;
    if allowPartial {
      plan := PlanOf(staged);
      IdleStep(cluster.measure, plan, start);
      NothingWithin(cluster.measure, plan, start);
      UploadsLeavePages(cluster.measure, plan, start, start);
      return Failed(PartialRetired), plan;
    }
    var prepared, uploaded, existing := PrepareRelease(cluster, settings, staged, local, allowBackfill, dryRun);
    plan := uploaded;
    UploadsLeavePages(cluster.measure, plan, start, cluster.stores);
    if prepared.Err? {
      return prepared.error, plan;
    }
    var (manifest, index, pruned) := prepared.value;
    outcome, plan := CommitPointer(
      cluster, settings, staged, seal, allowBackfill, start, plan, manifest, index, existing, pruned);
  }

  /** What the latest page says after a run in which nothing went wrong: it names
      the release; that is a listed version exactly if the release was not cut at
      once, and the newest listed one exactly if nothing listed before is above it. */
  lemma LatestPageNames(
    cluster: Cluster, settings: Settings, staged: Staged, seal: string, allowBackfill: bool,
    before: seq<Store>, after: seq<Store>, plan: Plan, index: Index, existing: Index, pruned: seq<VersionNode>)
    requires Delivered(cluster, settings, staged, seal, allowBackfill, before, after, plan, index, true)
    requires Grounds(
      cluster, settings, staged, allowBackfill, before, plan.manifest.value, index, existing, pruned)
    ensures forall b | 0 <= b < |after| ::
      At(after[b], LatestKey(staged.channel)) ==
        Some(LatestPage(staged.version, staged.code, plan.manifest.value.artifacts))
    ensures (exists n :: n in index.versions && n.version == staged.version && n.code == staged.code) <==>
      NodeOf(staged, RefOf(cluster, plan.manifest.value)) !in pruned
    ensures
      (exists n :: n in index.versions && n.version == staged.version && n.code == staged.code &&
         forall m | m in index.versions :: m.code <= n.code) <==>
      forall n | n in existing.versions :: n.code <= staged.code
  {
    var node := NodeOf(staged, RefOf(cluster, plan.manifest.value));
    ReleaseIsListedIff(existing, node, settings.retainVersions, index, pruned);
    ReleaseIsNewestIff(existing, node, settings.retainVersions, index, pruned);
    LatestPageUp(settings, staged, plan.manifest.value, index, after);
  }

  lemma LatestPageUp(settings: Settings, staged: Staged, manifest: Manifest, index: Index, stores: seq<Store>)
    requires forall b | 0 <= b < |stores| :: AllProjected(WebDocuments(settings, staged, manifest, index), stores[b])
    ensures forall b | 0 <= b < |stores| ::
      At(stores[b], LatestKey(staged.channel)) ==
        Some(LatestPage(staged.version, staged.code, manifest.artifacts))
  {
    var documents := WebDocuments(settings, staged, manifest, index);
    var place := if settings.site.Some? then 1 else 0;
    assert documents[place].0 == LatestKey(staged.channel);
  }
}
