/** What publishing, unpublishing and replacing the directory have in common:
    one run changes the backends within a plan and moves one pointer document
    last. Here are the step relation every run meets, wherever it stops, and
    what all sequences of runs therefore keep
    (internal/publish/publish.go, unpublish.go, internal/directory/directory.go). */
module Commit {
  import opened Wrappers
  import opened Documents
  import opened Backends

  // ---------------------------------------------------------------------
  // Reading a backend
  // ---------------------------------------------------------------------

  ghost predicate HasContent(measure: Measure, store: Store, version: string, a: StagedArtifact) {
    var item := At(store, ArtifactKey(version, a.filename));
    item.Some? && Matches(measure, item.value, a)
  }

  ghost predicate HasRelease(measure: Measure, store: Store, version: string, artifacts: seq<StagedArtifact>) {
    forall i | 0 <= i < |artifacts| :: HasContent(measure, store, version, artifacts[i])
  }

  function Described(a: Artifact): StagedArtifact {
    StagedArtifact(a.id, a.filename, a.size, a.sha256)
  }

  ghost predicate IsManifestOf(measure: Measure, item: Item, node: VersionNode) {
    && item.ManifestDoc?
    && measure.sha(item) == node.manifest.sha256 && measure.size(item) == node.manifest.size
    && item.manifest.version == node.version && item.manifest.code == node.code
  }

  /** The node's manifest is on the backend, with the digest and size the index
      gives, and so is every artifact the manifest names. */
  ghost predicate Backed(measure: Measure, store: Store, node: VersionNode) {
    var item := At(store, ManifestKey(node.version));
    && item.Some? && IsManifestOf(measure, item.value, node)
    && forall i | 0 <= i < |item.value.manifest.artifacts| ::
         HasContent(measure, store, node.version, Described(item.value.manifest.artifacts[i]))
  }

  ghost predicate Listed(store: Store, channel: string, node: VersionNode) {
    var item := At(store, IndexKey(channel));
    item.Some? && item.value.IndexPointer? && node in item.value.index.versions
  }

  /** Whatever a client reads from an index here, it can fetch here. */
  ghost predicate Sound(measure: Measure, store: Store) {
    forall channel, node | Listed(store, channel, node) :: Backed(measure, store, node)
  }

  ghost predicate AllSound(measure: Measure, stores: seq<Store>) {
    forall b | 0 <= b < |stores| :: Sound(measure, stores[b])
  }

  ghost predicate Agree(stores: seq<Store>, doc: Key) {
    forall a, b | 0 <= a < |stores| && 0 <= b < |stores| :: At(stores[a], doc) == At(stores[b], doc)
  }

  function SequenceOf(item: Item): int {
    match item
    case IndexPointer(_, index, _) => index.sequence
    case DirectoryPointer(sequence, _, _) => sequence
    case _ => 0
  }

  /** The sequence a run starts from: 0 where there is no document yet. */
  function Base(item: Option<Item>): int {
    if item.Some? then SequenceOf(item.value) else 0
  }

  // ---------------------------------------------------------------------
  // One run
  // ---------------------------------------------------------------------

  /** What a run may write: the pointer it commits, the release it uploads
      first, and the content-addressed blobs it may drop afterwards. */
  datatype Plan = Plan(
    doc: Key,
    pointer: Option<Item>,
    version: string,
    artifacts: seq<StagedArtifact>,
    manifest: Option<Manifest>,
    swept: set<string>)

  ghost predicate May(measure: Measure, plan: Plan, key: Key, value: Option<Item>) {
    match key
    case IndexKey(_) => key == plan.doc && value.Some? && value == plan.pointer
    case DirectoryKey => key == plan.doc && value.Some? && value == plan.pointer
    case ManifestKey(v) =>
      v == plan.version && plan.manifest.Some? && value == Some(ManifestDoc(plan.manifest.value))
    case ArtifactKey(v, f) =>
      v == plan.version && value.Some? &&
      exists i :: 0 <= i < |plan.artifacts| &&
        plan.artifacts[i].filename == f && Matches(measure, value.value, plan.artifacts[i])
    case CasKey(h) => if value.Some? then measure.sha(value.value) == h else h in plan.swept
    case _ => plan.pointer.Some?
  }

  /** A backend changed only as planned. */
  ghost predicate Within(measure: Measure, plan: Plan, before: Store, after: Store) {
    forall key :: At(after, key) == At(before, key) || May(measure, plan, key, At(after, key))
  }

  ghost predicate DistinctFilenames(artifacts: seq<StagedArtifact>) {
    forall i, j | 0 <= i < j < |artifacts| :: artifacts[i].filename != artifacts[j].filename
  }

  ghost predicate DistinctIds(artifacts: seq<StagedArtifact>) {
    forall i, j | 0 <= i < j < |artifacts| :: artifacts[i].id != artifacts[j].id
  }

  ghost predicate Uploaded(measure: Measure, plan: Plan, store: Store) {
    && plan.manifest.Some?
    && At(store, ManifestKey(plan.version)) == Some(ManifestDoc(plan.manifest.value))
    && HasRelease(measure, store, plan.version, plan.artifacts)
  }

  /** The manifest names exactly the artifacts of the plan. */
  ghost predicate Describes(manifest: Manifest, artifacts: seq<StagedArtifact>) {
    && |manifest.artifacts| == |artifacts|
    && forall i | 0 <= i < |artifacts| :: Described(manifest.artifacts[i]) == artifacts[i]
  }

  /** The node a plan's release gets. */
  ghost predicate IsRelease(measure: Measure, plan: Plan, node: VersionNode) {
    && plan.manifest.Some? && node.version == plan.version
    && IsManifestOf(measure, ManifestDoc(plan.manifest.value), node)
    && Describes(plan.manifest.value, plan.artifacts)
  }

  ghost predicate Moved(before: seq<Store>, after: seq<Store>, doc: Key) {
    exists b :: 0 <= b < |before| && b < |after| && At(after[b], doc) != At(before[b], doc)
  }

  /** A pointer that was written: every backend agreed on what it replaces, it
      carries the next sequence, and each node it lists was listed before or is
      the release that by then lies on every backend. */
  ghost predicate Supersedes(measure: Measure, plan: Plan, before: seq<Store>, after: seq<Store>) {
    && |before| == |after| > 0
    && plan.pointer.Some? && Agree(before, plan.doc)
    && Base(At(before[0], plan.doc)) < SequenceOf(plan.pointer.value)
    && (Base(At(before[0], plan.doc)) >= 0 ==>
          SequenceOf(plan.pointer.value) == NextSequence(Base(At(before[0], plan.doc))))
    && (plan.doc.IndexKey? ==> plan.pointer.value.IndexPointer?)
    && (plan.doc.IndexKey? ==>
          (forall node | node in plan.pointer.value.index.versions ::
             Listed(before[0], plan.doc.channel, node) ||
             (IsRelease(measure, plan, node) && forall b | 0 <= b < |after| :: Uploaded(measure, plan, after[b]))))
  }

  /** The manifest is that of the planned artifacts, and comes after all of them
      on all backends. */
  ghost predicate ManifestComesLast(measure: Measure, plan: Plan, after: seq<Store>) {
    plan.manifest.Some? ==>
      && Describes(plan.manifest.value, plan.artifacts)
      && forall b | 0 <= b < |after| :: HasRelease(measure, after[b], plan.version, plan.artifacts)
  }

  /** What a run, however far it got, does to the backends. */
  ghost predicate Step(measure: Measure, plan: Plan, before: seq<Store>, after: seq<Store>) {
    && |before| == |after| > 0
    && (forall b | 0 <= b < |before| :: Within(measure, plan, before[b], after[b]))
    && ManifestComesLast(measure, plan, after)
    && (!Agree(before, plan.doc) ==> after == before)
    && (Moved(before, after, plan.doc) ==> Supersedes(measure, plan, before, after))
  }

  // ---------------------------------------------------------------------
  // Composing the parts of a run
  // ---------------------------------------------------------------------

  lemma WithinIsTransitive(measure: Measure, plan: Plan, a: Store, b: Store, c: Store)
    requires Within(measure, plan, a, b) && Within(measure, plan, b, c)
    ensures Within(measure, plan, a, c)
  {}

  /** Content put earlier in the plan stays: a later write to the same key is
      the same artifact's. */
  lemma ContentStays(measure: Measure, plan: Plan, before: Store, after: Store, i: nat)
    requires Within(measure, plan, before, after) && DistinctFilenames(plan.artifacts)
    requires i < |plan.artifacts| && HasContent(measure, before, plan.version, plan.artifacts[i])
    ensures HasContent(measure, after, plan.version, plan.artifacts[i])
  {}

  // ---------------------------------------------------------------------
  // What one run keeps
  // ---------------------------------------------------------------------

  /** Whatever holds the one artifact holds the other. */
  predicate SameContent(a: StagedArtifact, b: StagedArtifact) {
    CasDigest(a.sha256) == CasDigest(b.sha256) && a.size == b.size
  }

  /** Where the manifest stored under the version names a file that is to be
      uploaded, it names the same content. */
  ghost predicate ArtifactsFit(store: Store, version: string, artifacts: seq<StagedArtifact>) {
    var item := At(store, ManifestKey(version));
    item.Some? && item.value.ManifestDoc? ==>
      var named := item.value.manifest.artifacts;
      forall i, j | 0 <= i < |named| && 0 <= j < |artifacts| && named[i].filename == artifacts[j].filename ::
        SameContent(Described(named[i]), artifacts[j])
  }

  /** Every node that the backend lists under the version is of the manifest. */
  ghost predicate ListedFits(measure: Measure, store: Store, version: string, manifest: Manifest) {
    forall channel, node | Listed(store, channel, node) && node.version == version ::
      IsManifestOf(measure, ManifestDoc(manifest), node)
  }

  ghost predicate ListsVersion(store: Store, version: string) {
    exists channel, node :: Listed(store, channel, node) && node.version == version
  }

  /** The plan does no harm to what the backend lists: if its version string is
      listed already, neither its artifacts nor its manifest are other ones. */
  ghost predicate Fits(measure: Measure, plan: Plan, store: Store) {
    ListsVersion(store, plan.version) ==>
      && ArtifactsFit(store, plan.version, plan.artifacts)
      && (plan.manifest.Some? ==> ListedFits(measure, store, plan.version, plan.manifest.value))
  }

  ghost predicate AllFit(measure: Measure, plan: Plan, stores: seq<Store>) {
    forall b | 0 <= b < |stores| :: Fits(measure, plan, stores[b])
  }

  /** A version string that nobody lists fits, and so does a plan without uploads. */
  lemma NewVersionFits(measure: Measure, plan: Plan, stores: seq<Store>)
    requires (plan.artifacts == [] && plan.manifest.None?) ||
      forall b | 0 <= b < |stores| :: !ListsVersion(stores[b], plan.version)
    ensures AllFit(measure, plan, stores)
  {}

  lemma ReleaseIsBacked(measure: Measure, plan: Plan, store: Store, node: VersionNode)
    requires IsRelease(measure, plan, node) && Uploaded(measure, plan, store)
    ensures Backed(measure, store, node)
  {}

  lemma NewlyListed(
    measure: Measure, plan: Plan, before: seq<Store>, after: seq<Store>, b: nat, channel: string, node: VersionNode)
    requires Step(measure, plan, before, after) && b < |before|
    requires Listed(after[b], channel, node) && !Listed(before[b], channel, node)
    ensures plan.doc == IndexKey(channel) && Supersedes(measure, plan, before, after)
    ensures IsRelease(measure, plan, node) && Uploaded(measure, plan, after[b])
  {}

  /** Content that fits what is uploaded over it stays what it was. */
  lemma FittingContentStays(
    measure: Measure, plan: Plan, before: Store, after: Store, a: StagedArtifact)
    requires Within(measure, plan, before, after) && HasContent(measure, before, plan.version, a)
    requires forall j | 0 <= j < |plan.artifacts| && a.filename == plan.artifacts[j].filename ::
      SameContent(a, plan.artifacts[j])
    ensures HasContent(measure, after, plan.version, a)
  {
    assert At(after, ArtifactKey(plan.version, a.filename)) == At(before, ArtifactKey(plan.version, a.filename)) ||
      May(measure, plan, ArtifactKey(plan.version, a.filename), At(after, ArtifactKey(plan.version, a.filename)));
  }

  lemma ListedStaysBacked(
    measure: Measure, plan: Plan, before: seq<Store>, after: seq<Store>, b: nat, channel: string, node: VersionNode)
    requires Step(measure, plan, before, after) && b < |before| && Fits(measure, plan, before[b])
    requires Sound(measure, before[b]) && Listed(before[b], channel, node)
    ensures Backed(measure, after[b], node)
  {
    hide SameContent, HasContent, HasRelease, Supersedes;
    var key := ManifestKey(node.version);
    assert Backed(measure, before[b], node);
    if node.version != plan.version {
      OtherContentStays(measure, plan, before[b], after[b], node.version);
    } else if At(after[b], key) != At(before[b], key) {
      assert May(measure, plan, key, At(after[b], key));
      ReleaseIsBacked(measure, plan, after[b], node);
    } else {
      SameManifestStaysBacked(measure, plan, before[b], after[b], node);
    }
  }

  lemma SameManifestStaysBacked(measure: Measure, plan: Plan, before: Store, after: Store, node: VersionNode)
    requires Within(measure, plan, before, after) && Backed(measure, before, node) && node.version == plan.version
    requires At(after, ManifestKey(node.version)) == At(before, ManifestKey(node.version))
    requires ArtifactsFit(before, plan.version, plan.artifacts)
    ensures Backed(measure, after, node)
  {
    hide SameContent, HasContent, Within;
    var named := before[ManifestKey(node.version)].manifest.artifacts;
    forall i | 0 <= i < |named|
      ensures HasContent(measure, after, node.version, Described(named[i]))
    {
      FittingContentStays(measure, plan, before, after, Described(named[i]));
    }
  }

  /** While the artifacts are uploaded, and neither manifest nor pointer has
      changed on a backend, it stays sound if they fit the manifest it stores. */
  lemma SoundUntilTheManifest(measure: Measure, plan: Plan, before: seq<Store>, after: seq<Store>, b: nat)
    requires Step(measure, plan, before, after) && b < |before| && Sound(measure, before[b]) && plan.doc.IndexKey?
    requires At(after[b], ManifestKey(plan.version)) == At(before[b], ManifestKey(plan.version))
    requires At(after[b], plan.doc) == At(before[b], plan.doc)
    requires ListsVersion(before[b], plan.version) ==> ArtifactsFit(before[b], plan.version, plan.artifacts)
    ensures Sound(measure, after[b])
  {
    hide HasContent, HasRelease, Supersedes, ArtifactsFit;
    forall channel, node | Listed(after[b], channel, node)
      ensures Backed(measure, after[b], node)
    {
      if plan.doc != IndexKey(channel) {
        IndexElsewhereStays(measure, plan, before, after, b, channel);
      }
      assert Listed(before[b], channel, node) && Backed(measure, before[b], node);
      if node.version == plan.version {
        SameManifestStaysBacked(measure, plan, before[b], after[b], node);
      } else {
        OtherContentStays(measure, plan, before[b], after[b], node.version);
      }
    }
  }

  lemma OtherContentStays(measure: Measure, plan: Plan, before: Store, after: Store, version: string)
    requires Within(measure, plan, before, after) && version != plan.version
    ensures At(after, ManifestKey(version)) == At(before, ManifestKey(version))
    ensures forall a | HasContent(measure, before, version, a) :: HasContent(measure, after, version, a)
  {
    forall f: string
      ensures At(after, ArtifactKey(version, f)) == At(before, ArtifactKey(version, f))
    {
      assert At(after, ArtifactKey(version, f)) == At(before, ArtifactKey(version, f)) ||
        May(measure, plan, ArtifactKey(version, f), At(after, ArtifactKey(version, f)));
    }
    assert At(after, ManifestKey(version)) == At(before, ManifestKey(version)) ||
      May(measure, plan, ManifestKey(version), At(after, ManifestKey(version)));
  }

  /** Commit safety: wherever a run that fits stops, every node any backend lists
      has its manifest and all its artifacts on that backend. */
  lemma StepKeepsSound(measure: Measure, plan: Plan, before: seq<Store>, after: seq<Store>)
    requires Step(measure, plan, before, after) && AllFit(measure, plan, before) && AllSound(measure, before)
    ensures AllSound(measure, after)
  {
    hide Step, Fits, Backed, Listed;
    forall b, channel, node | 0 <= b < |after| && Listed(after[b], channel, node)
      ensures Backed(measure, after[b], node)
    {
      StepKeepsCount(measure, plan, before, after);
      if Listed(before[b], channel, node) {
        ListedStaysBacked(measure, plan, before, after, b, channel, node);
      } else {
        NewlyListed(measure, plan, before, after, b, channel, node);
        ReleaseIsBacked(measure, plan, after[b], node);
      }
    }
  }

  lemma StepKeepsCount(measure: Measure, plan: Plan, before: seq<Store>, after: seq<Store>)
    requires Step(measure, plan, before, after)
    ensures |before| == |after| > 0
  {}

  // ---------------------------------------------------------------------
  // ... and nothing less will do
  // ---------------------------------------------------------------------

  /** What a run of the plan may have come to when it stops. */
  ghost predicate IsPart(part: Plan, plan: Plan) {
    && part.doc == plan.doc && part.version == plan.version && part.artifacts == plan.artifacts
    && part.swept <= plan.swept
    && (part.manifest.Some? ==> part.manifest == plan.manifest)
    && (part.pointer.Some? ==> part.pointer == plan.pointer && part.manifest == plan.manifest)
  }

  /** The backend with the contents put at the places of the artifacts. */
  ghost function Stocked(store: Store, version: string, artifacts: seq<StagedArtifact>, contents: seq<Item>): Store
    requires |artifacts| == |contents|
    decreases |artifacts|
  {
    if artifacts == [] then store
    else
      var last := |artifacts| - 1;
      Stocked(store, version, artifacts[..last], contents[..last])
        [ArtifactKey(version, artifacts[last].filename) := contents[last]]
  }

  ghost predicate AllMatch(measure: Measure, artifacts: seq<StagedArtifact>, contents: seq<Item>) {
    |artifacts| == |contents| && forall i | 0 <= i < |artifacts| :: Matches(measure, contents[i], artifacts[i])
  }

  lemma {:induction false} StockedAt(
    store: Store, version: string, artifacts: seq<StagedArtifact>, contents: seq<Item>, key: Key)
    returns (place: Option<nat>)
    requires |artifacts| == |contents|
    ensures place.Some? ==>
      && place.value < |artifacts| && key == ArtifactKey(version, artifacts[place.value].filename)
      && At(Stocked(store, version, artifacts, contents), key) == Some(contents[place.value])
    ensures place.None? ==>
      && At(Stocked(store, version, artifacts, contents), key) == At(store, key)
      && forall i | 0 <= i < |artifacts| :: key != ArtifactKey(version, artifacts[i].filename)
  {
    if artifacts == [] {
      place := None;
    } else {
      var last := |artifacts| - 1;
      if key == ArtifactKey(version, artifacts[last].filename) {
        place := Some(last);
      } else {
        place := StockedAt(store, version, artifacts[..last], contents[..last], key);
      }
    }
  }

  /** Every backend with all the artifacts, and then the manifest. */
  ghost function AllStocked(plan: Plan, contents: seq<Item>, stores: seq<Store>): seq<Store>
    requires |plan.artifacts| == |contents| && plan.manifest.Some?
  {
    seq(|stores|, b requires 0 <= b < |stores| =>
      Stocked(stores[b], plan.version, plan.artifacts, contents)
        [ManifestKey(plan.version) := ManifestDoc(plan.manifest.value)])
  }

  lemma StockingIsAStep(measure: Measure, plan: Plan, contents: seq<Item>, stores: seq<Store>)
    requires stores != [] && Agree(stores, plan.doc) && plan.pointer.None? && plan.manifest.Some?
    requires plan.doc.IndexKey? && DistinctFilenames(plan.artifacts)
    requires Describes(plan.manifest.value, plan.artifacts) && AllMatch(measure, plan.artifacts, contents)
    ensures Step(measure, plan, stores, AllStocked(plan, contents, stores))
    ensures forall b, channel, node | 0 <= b < |stores| && Listed(stores[b], channel, node) ::
      Listed(AllStocked(plan, contents, stores)[b], channel, node)
  {
    var after := AllStocked(plan, contents, stores);
    forall b, key | 0 <= b < |stores|
      ensures At(after[b], key) == At(stores[b], key) || May(measure, plan, key, At(after[b], key))
    {
      var place := StockedAt(stores[b], plan.version, plan.artifacts, contents, key);
    }
    forall b, channel, node | 0 <= b < |stores| && Listed(stores[b], channel, node)
      ensures Listed(after[b], channel, node)
    {
      var place := StockedAt(stores[b], plan.version, plan.artifacts, contents, IndexKey(channel));
    }
    forall b, i | 0 <= b < |stores| && 0 <= i < |plan.artifacts|
      ensures HasContent(measure, after[b], plan.version, plan.artifacts[i])
    {
      var place := StockedAt(
        stores[b], plan.version, plan.artifacts, contents, ArtifactKey(plan.version, plan.artifacts[i].filename));
    }
  }

  /** Other content over a file of a listed release takes the release apart: the
      first upload may be the last. */
  lemma OtherContentUnbacks(
    measure: Measure, plan: Plan, contents: seq<Item>, before: seq<Store>, b: nat) returns (after: seq<Store>)
    requires b < |before| && Agree(before, plan.doc) && plan.doc.IndexKey? && Sound(measure, before[b])
    requires AllMatch(measure, plan.artifacts, contents) && plan.pointer.None? && plan.manifest.None?
    requires ListsVersion(before[b], plan.version) && !ArtifactsFit(before[b], plan.version, plan.artifacts)
    ensures Step(measure, plan, before, after) && !Sound(measure, after[b])
  {
    var channel, node :| Listed(before[b], channel, node) && node.version == plan.version;
    assert Backed(measure, before[b], node);
    var named := before[b][ManifestKey(plan.version)].manifest.artifacts;
    var i, j :| 0 <= i < |named| && 0 <= j < |plan.artifacts| && named[i].filename == plan.artifacts[j].filename &&
      !SameContent(Described(named[i]), plan.artifacts[j]);
    var key := ArtifactKey(plan.version, named[i].filename);
    after := before[b := before[b][key := contents[j]]];
    assert Matches(measure, contents[j], plan.artifacts[j]);
    assert Within(measure, plan, before[b], after[b]);
    assert Listed(after[b], channel, node);
    assert !HasContent(measure, after[b], node.version, Described(named[i]));
  }

  /** Commit safety, exactly. Every stop of every part of the plan leaves the
      backends sound precisely if the plan fits what they list before it starts.
      The contents are the staged files. */
  lemma EveryStopIsSoundIff(measure: Measure, plan: Plan, contents: seq<Item>, before: seq<Store>)
    requires before != [] && AllSound(measure, before) && Agree(before, plan.doc) && plan.doc.IndexKey?
    requires DistinctFilenames(plan.artifacts) && AllMatch(measure, plan.artifacts, contents)
    requires plan.manifest.Some? ==> Describes(plan.manifest.value, plan.artifacts)
    ensures AllFit(measure, plan, before) <==>
      forall part, after | IsPart(part, plan) && Step(measure, part, before, after) :: AllSound(measure, after)
  {
    hide Step, Fits, Sound, ArtifactsFit, ListsVersion, AllMatch;
    if AllFit(measure, plan, before) {
      forall part, after | IsPart(part, plan) && Step(measure, part, before, after)
        ensures AllSound(measure, after)
      {
        forall b | 0 <= b < |before| {
          PartFits(measure, part, plan, before[b]);
        }
        StepKeepsSound(measure, part, before, after);
      }
    } else {
      var b :| 0 <= b < |before| && !Fits(measure, plan, before[b]);
      var part, after := UnfitStop(measure, plan, contents, before, b);
      StepKeepsCount(measure, part, before, after);
    }
  }

  lemma PartFits(measure: Measure, part: Plan, plan: Plan, store: Store)
    requires IsPart(part, plan) && Fits(measure, plan, store)
    ensures Fits(measure, part, store)
  {}

  lemma UnfitStop(measure: Measure, plan: Plan, contents: seq<Item>, before: seq<Store>, b: nat)
    returns (part: Plan, after: seq<Store>)
    requires b < |before| && AllSound(measure, before) && Agree(before, plan.doc) && plan.doc.IndexKey?
    requires DistinctFilenames(plan.artifacts) && AllMatch(measure, plan.artifacts, contents)
    requires plan.manifest.Some? ==> Describes(plan.manifest.value, plan.artifacts)
    requires !Fits(measure, plan, before[b])
    ensures IsPart(part, plan) && Step(measure, part, before, after) && !Sound(measure, after[b])
  {
    hide Step, Matches, Within;
    assert Sound(measure, before[b]);
    if !ArtifactsFit(before[b], plan.version, plan.artifacts) {
      part := plan.(manifest := None, pointer := None, swept := {});
      after := OtherContentUnbacks(measure, part, contents, before, b);
    } else {
      part := plan.(pointer := None, swept := {});
      after := AllStocked(part, contents, before);
      StockingIsAStep(measure, part, contents, before);
      var channel, node :| Listed(before[b], channel, node) && node.version == plan.version &&
        !IsManifestOf(measure, ManifestDoc(plan.manifest.value), node);
      assert Listed(after[b], channel, node) && !Backed(measure, after[b], node);
    }
  }

  /** A node listed before the run goes on being listed after it. */
  ghost predicate StaysListed(plan: Plan, before: Store, committed: bool, channel: string, node: VersionNode) {
    && Listed(before, channel, node)
    && (committed && plan.doc == IndexKey(channel) ==>
          plan.pointer.Some? && plan.pointer.value.IndexPointer? && node in plan.pointer.value.index.versions)
  }

  /** A whole run may do better than its stops: a backend that took the release,
      and the pointer or not, is sound after it precisely if each node listed
      before under the version string that stays listed is of the run's own
      manifest. */
  lemma SoundIffVersionFits(
    measure: Measure, plan: Plan, before: seq<Store>, after: seq<Store>, b: nat, committed: bool)
    requires Step(measure, plan, before, after) && AllSound(measure, before) && b < |before| && plan.doc.IndexKey?
    requires Uploaded(measure, plan, after[b])
    requires At(after[b], plan.doc) == if committed then plan.pointer else At(before[b], plan.doc)
    ensures Sound(measure, after[b]) <==>
      forall channel, node | StaysListed(plan, before[b], committed, channel, node) && node.version == plan.version ::
        IsManifestOf(measure, ManifestDoc(plan.manifest.value), node)
  {
    forall channel, node | Listed(before[b], channel, node)
      ensures Listed(after[b], channel, node) <==> StaysListed(plan, before[b], committed, channel, node)
    {
      if plan.doc != IndexKey(channel) {
        IndexElsewhereStays(measure, plan, before, after, b, channel);
      }
    }
    if forall channel, node | StaysListed(plan, before[b], committed, channel, node) && node.version == plan.version ::
         IsManifestOf(measure, ManifestDoc(plan.manifest.value), node)
    {
      forall channel, node | Listed(after[b], channel, node)
        ensures Backed(measure, after[b], node)
      {
        ListedAfterIsBacked(measure, plan, before, after, b, channel, node);
      }
    }
  }

  lemma IndexElsewhereStays(
    measure: Measure, plan: Plan, before: seq<Store>, after: seq<Store>, b: nat, channel: string)
    requires Step(measure, plan, before, after) && b < |before| && plan.doc != IndexKey(channel)
    ensures At(after[b], IndexKey(channel)) == At(before[b], IndexKey(channel))
  {
    assert At(after[b], IndexKey(channel)) == At(before[b], IndexKey(channel)) ||
      May(measure, plan, IndexKey(channel), At(after[b], IndexKey(channel)));
  }

  lemma ListedAfterIsBacked(
    measure: Measure, plan: Plan, before: seq<Store>, after: seq<Store>, b: nat, channel: string, node: VersionNode)
    requires Step(measure, plan, before, after) && AllSound(measure, before) && b < |before|
    requires Uploaded(measure, plan, after[b]) && Listed(after[b], channel, node)
    requires Listed(before[b], channel, node) && node.version == plan.version ==>
      IsManifestOf(measure, ManifestDoc(plan.manifest.value), node)
    ensures Backed(measure, after[b], node)
  {
    hide Supersedes, HasContent;
    if !Listed(before[b], channel, node) {
      NewlyListed(measure, plan, before, after, b, channel, node);
    }
    if node.version == plan.version {
      ReleaseIsBacked(measure, plan, after[b], node);
    } else {
      assert Backed(measure, before[b], node);
      OtherContentStays(measure, plan, before[b], after[b], node.version);
    }
  }

  /** Each backend holds the old pointer or the new one, and a pointer that is
      replaced is replaced by a higher sequence. */
  lemma PointerIsOldOrNewer(
    measure: Measure, plan: Plan, before: seq<Store>, after: seq<Store>, b: nat, doc: Key)
    requires Step(measure, plan, before, after) && b < |before|
    requires doc.IndexKey? || doc.DirectoryKey?
    ensures At(after[b], doc) == At(before[b], doc) ||
      (doc == plan.doc && At(after[b], doc) == plan.pointer && plan.pointer.Some? &&
       Base(At(before[b], doc)) < Base(At(after[b], doc)))
  {}

  // ---------------------------------------------------------------------
  // What all runs keep
  // ---------------------------------------------------------------------

  /** Runs one after the other on one set of backends: states[i + 1] is what run
      i made of states[i]. */
  ghost predicate History(measure: Measure, states: seq<seq<Store>>, plans: seq<Plan>) {
    && |states| == |plans| + 1
    && forall i | 0 <= i < |plans| :: Step(measure, plans[i], states[i], states[i + 1])
  }

  lemma EveryStateHasAllBackends(measure: Measure, states: seq<seq<Store>>, plans: seq<Plan>, i: nat)
    requires History(measure, states, plans) && i < |states|
    ensures |states[i]| == |states[0]|
  {
    if i > 0 {
      EveryStateHasAllBackends(measure, states, plans, i - 1);
      assert Step(measure, plans[i - 1], states[i - 1], states[i - 1 + 1]);
    }
  }

  lemma {:induction false} EveryRunStaysSound(measure: Measure, states: seq<seq<Store>>, plans: seq<Plan>, i: nat)
    requires History(measure, states, plans) && i < |states|
    requires AllSound(measure, states[0])
    requires forall k | 0 <= k < |plans| :: states[k + 1] == states[k] || AllFit(measure, plans[k], states[k])
    ensures AllSound(measure, states[i])
  {
    if i > 0 {
      EveryRunStaysSound(measure, states, plans, i - 1);
      assert Step(measure, plans[i - 1], states[i - 1], states[i - 1 + 1]);
      if states[i - 1 + 1] != states[i - 1] {
        StepKeepsSound(measure, plans[i - 1], states[i - 1], states[i]);
      }
    }
  }

  /** On every backend a pointer's sequence never falls, and it rises whenever
      the pointer changes: a sequence is never used for two documents. */
  lemma {:induction false} SequencesOnlyRise(
    measure: Measure, states: seq<seq<Store>>, plans: seq<Plan>, i: nat, j: nat, b: nat, doc: Key)
    requires History(measure, states, plans) && i <= j < |states| && b < |states[0]|
    requires doc.IndexKey? || doc.DirectoryKey?
    ensures |states[i]| == |states[j]| == |states[0]|
    ensures At(states[i][b], doc) == At(states[j][b], doc) ||
      Base(At(states[i][b], doc)) < Base(At(states[j][b], doc))
    decreases j
  {
    EveryStateHasAllBackends(measure, states, plans, i);
    EveryStateHasAllBackends(measure, states, plans, j);
    if i < j {
      SequencesOnlyRise(measure, states, plans, i, j - 1, b, doc);
      assert Step(measure, plans[j - 1], states[j - 1], states[j - 1 + 1]);
      PointerIsOldOrNewer(measure, plans[j - 1], states[j - 1], states[j], b, doc);
    }
  }

  /** Divergence is frozen: once the backends disagree on a document, no later
      run changes it anywhere, and a run that would commit it stops before its
      first write of anything. */
  lemma {:induction false} DivergenceIsFrozen(
    measure: Measure, states: seq<seq<Store>>, plans: seq<Plan>, i: nat, b: nat, doc: Key)
    requires History(measure, states, plans) && i < |states| && b < |states[0]|
    requires doc.IndexKey? || doc.DirectoryKey?
    requires !Agree(states[0], doc)
    ensures |states[i]| == |states[0]| && At(states[i][b], doc) == At(states[0][b], doc)
    ensures i < |plans| && plans[i].doc == doc ==> states[i + 1] == states[i]
    decreases i
  {
    EveryStateHasAllBackends(measure, states, plans, i);
    forall c | 0 <= c < |states[0]|
      ensures At(states[i][c], doc) == At(states[0][c], doc)
    {
      if i > 0 {
        DivergenceIsFrozen(measure, states, plans, i - 1, c, doc);
        assert Step(measure, plans[i - 1], states[i - 1], states[i - 1 + 1]);
        PointerIsOldOrNewer(measure, plans[i - 1], states[i - 1], states[i], c, doc);
      }
    }
    if i < |plans| {
      assert Step(measure, plans[i], states[i], states[i + 1]);
      assert !Agree(states[i], doc) by {
        var x, y :| 0 <= x < |states[0]| && 0 <= y < |states[0]| && At(states[0][x], doc) != At(states[0][y], doc);
      }
    }
  }

  /** A run that reached only some backends leaves them disagreeing. */
  lemma PartialCommitDiverges(
    measure: Measure, plan: Plan, before: seq<Store>, after: seq<Store>, reached: nat, missed: nat)
    requires Step(measure, plan, before, after) && reached < |before| && missed < |before|
    requires plan.doc.IndexKey? || plan.doc.DirectoryKey?
    requires At(after[reached], plan.doc) != At(before[reached], plan.doc)
    requires At(after[missed], plan.doc) == At(before[missed], plan.doc)
    ensures !Agree(after, plan.doc)
  {}

  /** Once a run has reached only some backends, its document stays as it is on
      every backend, and later runs for it stop before their first write. */
  lemma PartialCommitBlocks(
    measure: Measure, states: seq<seq<Store>>, plans: seq<Plan>, k: nat, i: nat, b: nat, reached: nat, missed: nat)
    requires History(measure, states, plans) && k < |plans| && k < i < |states|
    requires plans[k].doc.IndexKey? || plans[k].doc.DirectoryKey?
    requires |states[k]| == |states[k + 1]| == |states[0]|
    requires b < |states[0]| && reached < |states[0]| && missed < |states[0]|
    requires At(states[k + 1][reached], plans[k].doc) != At(states[k][reached], plans[k].doc)
    requires At(states[k + 1][missed], plans[k].doc) == At(states[k][missed], plans[k].doc)
    ensures |states[i]| == |states[0]| && At(states[i][b], plans[k].doc) == At(states[k + 1][b], plans[k].doc)
    ensures i < |plans| && plans[i].doc == plans[k].doc ==> states[i + 1] == states[i]
  {
    var doc := plans[k].doc;
    assert Step(measure, plans[k], states[k], states[k + 1]);
    PartialCommitDiverges(measure, plans[k], states[k], states[k + 1], reached, missed);
    var laterStates, laterPlans := states[k + 1..], plans[k + 1..];
    forall j | 0 <= j < |laterPlans|
      ensures Step(measure, laterPlans[j], laterStates[j], laterStates[j + 1])
    {
      assert Step(measure, plans[k + 1 + j], states[k + 1 + j], states[k + 1 + j + 1]);
    }
    DivergenceIsFrozen(measure, laterStates, laterPlans, i - (k + 1), b, doc);
  }
}
