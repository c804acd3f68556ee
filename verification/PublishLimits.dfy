/** Three publishes that do less than a publish is described to do, each carried
    out on a backend where every attempt succeeds. */
module PublishLimits {
  import opened Wrappers
  import opened Documents
  import opened Chain
  import opened Retention
  import opened Backends
  import opened Commit
  import opened Publishing
  import opened PublishRun

  lemma LowerHexIsItsDigest(digest: string)
    requires |digest| == 64 && forall i | 0 <= i < 64 :: IsHex(digest[i])
    ensures CasDigest(digest) == Some(digest)
  {
    assert seq(64, i requires 0 <= i < 64 => LowerHex(digest[i])) == digest;
  }

  const NO_MANIFEST := ManifestRef("", 0, [])

  function SettingsFor(keep: int): Settings {
    Settings(keep, seal => true, true, ["stable"], None)
  }

  function PointerTo(versions: seq<VersionNode>): Item {
    IndexPointer("stable", Index(1, versions, None), "seal")
  }

  lemma PointerIsCurrent(stores: seq<Store>, versions: seq<VersionNode>, keep: int)
    requires |stores| == 1 && At(stores[0], IndexKey("stable")) == Some(PointerTo(versions))
    ensures IsCurrent(stores, "stable", SettingsFor(keep).trusts, Index(1, versions, None))
    ensures forall existing | IsCurrent(stores, "stable", SettingsFor(keep).trusts, existing) ::
      existing == Index(1, versions, None)
  {}

  /** A release without artifacts, with the gate open and only valid indexes to
      follow, is not refused when nothing goes wrong. */
  lemma NothingRefuses(
    cluster: Cluster, keep: int, staged: Staged, allowBackfill: bool, stores: seq<Store>,
    versions: seq<VersionNode>, failure: Failure)
    requires cluster.ingest == [true] && staged.channel == "stable" && staged.artifacts == []
    requires |stores| == 1 && At(stores[0], IndexKey("stable")) == Some(PointerTo(versions))
    requires GateOpen(Index(1, versions, None), staged.code, allowBackfill)
    requires forall ref, index, pruned |
      Follows(Index(1, versions, None), NodeOf(staged, ref), keep, index, pruned) :: ErrorFree(index)
    ensures !Warranted(cluster, SettingsFor(keep), staged, map[], allowBackfill, false, stores, true, failure)
  {
    hide Follows, ErrorFree, GateOpen, IsCurrent;
    PointerIsCurrent(stores, versions, keep);
    CurrentMeansAgreed(stores, "stable", SettingsFor(keep).trusts, Index(1, versions, None));
    assert IsPrimary(cluster.ingest, Some(0));
  }

  // ---------------------------------------------------------------------
  // A version string used twice
  // ---------------------------------------------------------------------

  lemma FollowsOneVersion(first: VersionNode, node: VersionNode, index: Index, pruned: seq<VersionNode>)
    requires !first.yanked && !node.yanked && first.code < node.code && node.minFrom <= first.code
    requires Follows(Index(1, [first], None), node, 0, index, pruned)
    ensures ErrorFree(index) && first in index.versions
  {
    hide Follows;
    var existing := Index(1, [first], None);
    OneVersionIsErrorFree(existing, first);
    assert Head([first]) == Some(first);
    FitsWhenNothingIsCut(existing, node, 0);
    AppendedIndexValidatesIff(existing, node, 0, index, pruned);
    StaysIff(existing, node, 0, index, pruned, first);
  }

  lemma OtherCodeUnbacks(measure: Measure, stores: seq<Store>, node: VersionNode, manifest: Manifest)
    requires |stores| == 1 && Listed(stores[0], "stable", node)
    requires At(stores[0], ManifestKey(node.version)) == Some(ManifestDoc(manifest)) && manifest.code != node.code
    ensures !AllSound(measure, stores)
  {
    assert !Backed(measure, stores[0], node);
    assert !Sound(measure, stores[0]);
  }

  /** A release 1.0 of code 1 is published and sound; a run publishes 1.0 again,
      with code 2, reports success, and leaves the node of code 1 listed without
      its manifest. */
  method ReusedVersionUnbacks(place: (nat, Key) -> string)
    returns (measure: Measure, before: seq<Store>, outcome: Outcome, after: seq<Store>)
    ensures IsHexDigest(measure) && AllSound(measure, before)
    ensures outcome.Published? && !AllSound(measure, after)
  {
    hide Warranted, Follows, ErrorFree, Within, Step, Uploaded, IsCurrent, AllProjected, CasSweep.NothingOrphaned,
      SweepsSafely, PagesFollowPointer, AllSound;
    measure := Measure(
      (item: Item) => seq(64, _ => if item.ManifestDoc? && item.manifest.code == 2 then 'b' else 'a'), _ => 0);
    forall item {
      LowerHexIsItsDigest(measure.sha(item));
    }
    var m1 := Manifest("1.0", 1, []);
    var n1 := VersionNode("1.0", 1, 0, false, ManifestRef(measure.sha(ManifestDoc(m1)), 0, []));
    before := [map[IndexKey("stable") := PointerTo([n1]), ManifestKey("1.0") := ManifestDoc(m1)]];
    OneListedIsSound(measure, before, n1, m1);
    var staged := Staged("1.0", "stable", 2, 0, []);
    var cluster := new Cluster(measure, [true], place, _ => Done);
    cluster.stores := before;
    PointerIsCurrent(before, [n1], 0);
    forall ref, index, pruned | Follows(Index(1, [n1], None), NodeOf(staged, ref), 0, index, pruned)
      ensures ErrorFree(index) && n1 in index.versions
    {
      FollowsOneVersion(n1, NodeOf(staged, ref), index, pruned);
    }
    ghost var plan;
    outcome, plan := Run(cluster, SettingsFor(0), staged, map[], "seal", false, false, false);
    after := cluster.stores;
    if outcome.Failed? {
      NothingRefuses(cluster, 0, staged, false, before, [n1], outcome.failure);
      assert false;
    }
    DeliveredLists(cluster, staged, before, after, plan, outcome.index, n1);
    OtherCodeUnbacks(measure, after, n1, plan.manifest.value);
  }

  lemma OneListedIsSound(measure: Measure, stores: seq<Store>, node: VersionNode, manifest: Manifest)
    requires stores ==
      [map[IndexKey("stable") := PointerTo([node]), ManifestKey(node.version) := ManifestDoc(manifest)]]
    requires IsManifestOf(measure, ManifestDoc(manifest), node) && manifest.artifacts == []
    ensures AllSound(measure, stores)
  {
    assert Backed(measure, stores[0], node);
  }

  lemma DeliveredLists(
    cluster: Cluster, staged: Staged, before: seq<Store>, after: seq<Store>, plan: Plan, index: Index,
    node: VersionNode)
    requires Delivered(cluster, SettingsFor(0), staged, "seal", false, before, after, plan, index, true)
    requires Extends(PlanOf(staged), plan) && cluster.ingest == [true]
    requires |before| == 1 && At(before[0], IndexKey("stable")) == Some(PointerTo([node]))
    requires staged.channel == "stable"
    requires forall ref, index, pruned |
      Follows(Index(1, [node], None), NodeOf(staged, ref), 0, index, pruned) :: node in index.versions
    ensures |after| == 1 && Listed(after[0], "stable", node) && plan.manifest.Some?
    ensures At(after[0], ManifestKey(staged.version)) == Some(ManifestDoc(plan.manifest.value))
    ensures plan.manifest.value.code == staged.code
  {
    hide Follows, CasSweep.NothingOrphaned, ErrorFree, AllProjected;
    PointerIsCurrent(before, [node], 0);
  }

  // ---------------------------------------------------------------------
  // A stop while artifacts are replaced
  // ---------------------------------------------------------------------

  /** The node's one artifact is replaced by another one. */
  lemma OtherArtifactUnbacks(
    measure: Measure, stores: seq<Store>, node: VersionNode, manifest: Manifest, other: StagedArtifact)
    requires |stores| == 1 && Listed(stores[0], "stable", node)
    requires At(stores[0], ManifestKey(node.version)) == Some(ManifestDoc(manifest)) && |manifest.artifacts| == 1
    requires HasContent(measure, stores[0], node.version, other)
    requires manifest.artifacts[0].filename == other.filename
    requires !SameContent(Described(manifest.artifacts[0]), other)
    ensures !AllSound(measure, stores)
  {
    assert !HasContent(measure, stores[0], node.version, Described(manifest.artifacts[0]));
    assert !Backed(measure, stores[0], node);
    assert !Sound(measure, stores[0]);
  }

  function TellsBlobsApart(): Measure {
    Measure((item: Item) => seq(64, _ => if item == Blob([1]) then 'b' else 'a'), _ => 1)
  }

  lemma TellsThemApart()
    ensures var measure := TellsBlobsApart();
      && IsHexDigest(measure) && measure.sha(Blob([0])) != measure.sha(Blob([1]))
      && (forall item :: measure.size(item) == 1 && CasDigest(measure.sha(item)) == Some(measure.sha(item)))
  {
    var measure := TellsBlobsApart();
    forall item {
      LowerHexIsItsDigest(measure.sha(item));
    }
    assert Blob([0]).bytes[0] != Blob([1]).bytes[0];
    assert measure.sha(Blob([0]))[0] == 'a' && measure.sha(Blob([1]))[0] == 'b';
  }

  /** A release 1.0 with one file is published and sound; the upload of another
      file of that name under 1.0 succeeds, and where the run stops before the
      manifest the listed release has lost its file. */
  method ReplacedArtifactUnbacks(place: (nat, Key) -> string)
    returns (measure: Measure, before: seq<Store>, r: Result<map<string, seq<string>>, Failure>, after: seq<Store>)
    ensures IsHexDigest(measure) && AllSound(measure, before)
    ensures r.Ok? && !AllSound(measure, after)
  {
    hide Within, AllSound, SameContent, Backed, TellsBlobsApart, IsHexDigest, CasDigest;
    TellsThemApart();
    measure := TellsBlobsApart();
    var m1 := Manifest("1.0", 1, [Artifact("setup", "setup.exe", 1, measure.sha(Blob([0])), [])]);
    var n1 := VersionNode("1.0", 1, 0, false, ManifestRef(measure.sha(ManifestDoc(m1)), 1, []));
    var file := ArtifactKey("1.0", "setup.exe");
    before := [map[IndexKey("stable") := PointerTo([n1]), ManifestKey("1.0") := ManifestDoc(m1), file := Blob([0])]];
    OneFileIsSound(measure, before, n1, m1);
    var artifact := StagedArtifact("setup", "setup.exe", 1, measure.sha(Blob([1])));
    var staged := Staged("1.0", "stable", 2, 0, [artifact]);
    var local := map["setup.exe" := Blob([1])];
    var cluster := new Cluster(measure, [false], place, _ => Done);
    cluster.stores := before;
    ghost var source;
    r, source := UploadAll(cluster, staged, local, PlanOf(staged));
    after := cluster.stores;
    assert AllObtainable(measure, source, before, staged.artifacts, local);
    UploadKeepsDocuments(measure, PlanOf(staged), before[0], after[0]);
    assert HasContent(measure, after[0], "1.0", staged.artifacts[0]);
    DigestsDiffer(measure, m1, artifact);
    OtherArtifactUnbacks(measure, after, n1, m1, artifact);
  }

  lemma DigestsDiffer(measure: Measure, manifest: Manifest, artifact: StagedArtifact)
    requires |manifest.artifacts| == 1 && IsHexDigest(measure)
    requires manifest.artifacts[0].sha256 == measure.sha(Blob([0])) && artifact.sha256 == measure.sha(Blob([1]))
    requires measure.sha(Blob([0])) != measure.sha(Blob([1]))
    ensures !SameContent(Described(manifest.artifacts[0]), artifact)
  {}

  lemma OneFileIsSound(measure: Measure, stores: seq<Store>, node: VersionNode, manifest: Manifest)
    requires |stores| == 1 && |manifest.artifacts| == 1
    requires stores[0].Keys == {
      IndexKey("stable"), ManifestKey(node.version), ArtifactKey(node.version, manifest.artifacts[0].filename)}
    requires At(stores[0], IndexKey("stable")) == Some(PointerTo([node]))
    requires At(stores[0], ManifestKey(node.version)) == Some(ManifestDoc(manifest))
    requires IsManifestOf(measure, ManifestDoc(manifest), node)
    requires HasContent(measure, stores[0], node.version, Described(manifest.artifacts[0]))
    ensures AllSound(measure, stores)
  {
    assert Backed(measure, stores[0], node);
  }

  lemma UploadKeepsDocuments(measure: Measure, plan: Plan, before: Store, after: Store)
    requires Within(measure, plan, before, after) && plan.pointer.None? && plan.manifest.None?
    ensures forall key: Key | key.IndexKey? || key.ManifestKey? :: At(after, key) == At(before, key)
  {}

  // ---------------------------------------------------------------------
  // A backfill that is cut at once
  // ---------------------------------------------------------------------

  lemma BackfillIsCut(newest: VersionNode, node: VersionNode, index: Index, pruned: seq<VersionNode>)
    requires !newest.yanked && node.code < newest.code
    requires Follows(Index(1, [newest], None), node, 1, index, pruned)
    ensures index.versions == [newest] && ErrorFree(index)
  {
    var existing := Index(1, [newest], None);
    ReleaseIsListedIff(existing, node, 1, index, pruned);
    assert Ahead([newest], node.code) == {newest};
    var merged := Merged(existing.versions, node);
    var retained: seq<VersionNode> :| IsRetention(merged, 1, retained, pruned) &&
      IsNewIndex(NextSequence(1), retained, None, index);
    SameLength(index.versions, retained);
    WithoutKeepsTheRest(existing.versions, node.code, newest);
    assert index.versions[0] in index.versions;
    NextIndexListsKnownNodes(existing, node, 1, index, pruned, index.versions[0]);
    OneVersionIsErrorFree(index, newest);
  }

  /** Code 5 is published and one version is kept; a backfill of code 3 reports
      success, is cut from the index at once, and becomes the latest page. */
  method CutBackfillIsAdvertised(measure: Measure, place: (nat, Key) -> string)
    returns (outcome: Outcome, after: seq<Store>)
    requires IsHexDigest(measure)
    ensures outcome.Published? && |after| == 1
    ensures exists artifacts :: At(after[0], LatestKey("stable")) == Some(LatestPage("3.0", 3, artifacts))
    ensures forall n | n in outcome.index.versions :: n.version != "3.0"
  {
    hide Warranted, Follows, ErrorFree, Within, Step, Uploaded, IsCurrent, AllProjected, CasSweep.NothingOrphaned,
      SweepsSafely, PagesFollowPointer;
    var n5 := VersionNode("5.0", 5, 0, false, NO_MANIFEST);
    var before: seq<Store> := [map[IndexKey("stable") := PointerTo([n5])]];
    var staged := Staged("3.0", "stable", 3, 0, []);
    var cluster := new Cluster(measure, [true], place, _ => Done);
    cluster.stores := before;
    PointerIsCurrent(before, [n5], 1);
    forall ref, index, pruned | Follows(Index(1, [n5], None), NodeOf(staged, ref), 1, index, pruned)
      ensures ErrorFree(index) && index.versions == [n5]
    {
      BackfillIsCut(n5, NodeOf(staged, ref), index, pruned);
    }
    ghost var plan;
    outcome, plan := Run(cluster, SettingsFor(1), staged, map[], "seal", true, false, false);
    after := cluster.stores;
    if outcome.Failed? {
      NothingRefuses(cluster, 1, staged, true, before, [n5], outcome.failure);
      assert false;
    }
    ghost var existing, pruned :|
      Grounds(cluster, SettingsFor(1), staged, true, before, plan.manifest.value, outcome.index, existing, pruned);
    LatestPageNames(
      cluster, SettingsFor(1), staged, "seal", true, before, after, plan, outcome.index, existing, pruned);
    assert outcome.index.versions == [n5];
    assert At(after[0], LatestKey("stable")) == Some(LatestPage("3.0", 3, plan.manifest.value.artifacts));
  }
}
