/** What a published release and a removed one amount to, in terms of what lies
    under which key of which backend (internal/publish/publish.go, unpublish.go). */
module PublishMeaning {
  import opened Wrappers
  import opened Documents
  import opened Chain
  import opened Backends
  import opened Commit
  import opened Publishing
  import opened PublishRun
  import Unpublishing
  import Sorting

  // ---------------------------------------------------------------------
  // What a client can fetch
  // ---------------------------------------------------------------------

  /** On a sound backend a client that reads an index finds, for each version in
      it, a manifest of the promised digest and size, and for each artifact of
      that manifest a file of the digest and size the manifest gives. */
  lemma SoundMeansFetchable(
    measure: Measure, store: Store, channel: string, index: Index, seal: string, node: VersionNode)
    returns (manifest: Manifest)
    requires Sound(measure, store) && IndexKey(channel) in store
    requires store[IndexKey(channel)] == IndexPointer(channel, index, seal) && node in index.versions
    ensures ManifestKey(node.version) in store && store[ManifestKey(node.version)] == ManifestDoc(manifest)
    ensures measure.sha(ManifestDoc(manifest)) == node.manifest.sha256
    ensures measure.size(ManifestDoc(manifest)) == node.manifest.size
    ensures manifest.version == node.version && manifest.code == node.code
    ensures forall i | 0 <= i < |manifest.artifacts| ::
      var a := manifest.artifacts[i];
      && ArtifactKey(node.version, a.filename) in store
      && CasDigest(a.sha256) == Some(measure.sha(store[ArtifactKey(node.version, a.filename)]))
      && a.size == measure.size(store[ArtifactKey(node.version, a.filename)])
  {
    assert Listed(store, channel, node);
    assert Backed(measure, store, node);
    manifest := store[ManifestKey(node.version)].manifest;
    forall i | 0 <= i < |manifest.artifacts|
      ensures HasContent(measure, store, node.version, Described(manifest.artifacts[i]))
    {}
  }

  // ---------------------------------------------------------------------
  // The order of uploads
  // ---------------------------------------------------------------------

  lemma {:induction false} OthersAscend(n: nat, source: Option<nat>)
    ensures forall b: nat :: b in OthersBelow(n, source) <==> b < n && source != Some(b)
    ensures forall i, j | 0 <= i < j < |OthersBelow(n, source)| :: OthersBelow(n, source)[i] < OthersBelow(n, source)[j]
    ensures |OthersBelow(n, source)| == n - if source.Some? && source.value < n then 1 else 0
  {
    if n > 0 {
      OthersAscend(n - 1, source);
      var before := OthersBelow(n - 1, source);
      forall i | 0 <= i < |before|
        ensures before[i] < n - 1
      {
        assert before[i] in before;
      }
    }
  }

  /** Every backend once: the ingest source first, the others in order. */
  lemma UploadOrderMeans(n: nat, source: Option<nat>)
    requires source.Some? ==> source.value < n
    ensures var order := UploadOrder(n, source);
      && |order| == n && (forall b: nat :: b in order <==> b < n)
      && (source.Some? ==> order[0] == source.value)
      && (forall i, j | 0 <= i < j < n && (i > 0 || source.None?) :: order[i] < order[j])
  {
    OthersAscend(n, source);
    var others := OthersBelow(n, source);
    var order := UploadOrder(n, source);
    if source.Some? {
      assert order == [source.value] + others;
      forall i, j | 0 < i < j < n
        ensures order[i] < order[j]
      {
        assert order[i] == others[i - 1] && order[j] == others[j - 1];
      }
    } else {
      assert order == others;
    }
  }

  /** The URLs an artifact gets: one from each backend, the ingest source's first. */
  ghost predicate HasEveryUrl(cluster: Cluster, version: string, a: Artifact) {
    && |a.urls| == |cluster.ingest|
    && (forall b | 0 <= b < |cluster.ingest| :: cluster.place(b, ArtifactKey(version, a.filename)) in a.urls)
    && (forall s | 0 <= s < |cluster.ingest| && cluster.ingest[s] && (forall b | 0 <= b < s :: !cluster.ingest[b]) ::
          a.urls[0] == cluster.place(s, ArtifactKey(version, a.filename)))
  }

  /** The manifest gives each staged artifact as it was staged, in order, with a
      URL from every backend. */
  lemma CompleteManifestMeans(cluster: Cluster, staged: Staged, manifest: Manifest)
    requires ManifestIsComplete(cluster, staged, manifest)
    ensures manifest.version == staged.version && manifest.code == staged.code
    ensures |manifest.artifacts| == |staged.artifacts|
    ensures forall i | 0 <= i < |staged.artifacts| ::
      var a, s := manifest.artifacts[i], staged.artifacts[i];
      && a.id == s.id && a.filename == s.filename && a.size == s.size && a.sha256 == s.sha256
      && HasEveryUrl(cluster, staged.version, a)
  {
    var n := |cluster.ingest|;
    var source, urls :| IsPrimary(cluster.ingest, source) &&
      UrlsGathered(cluster.place, staged.version, staged.artifacts, UploadOrder(n, source), urls) &&
      IsManifest(staged, urls, manifest);
    UploadOrderMeans(n, source);
    forall i | 0 <= i < |staged.artifacts|
      ensures HasEveryUrl(cluster, staged.version, manifest.artifacts[i])
    {
      UrlsMean(cluster, source, staged.version, manifest.artifacts[i]);
    }
  }

  lemma UrlsMean(cluster: Cluster, source: Option<nat>, version: string, a: Artifact)
    requires IsPrimary(cluster.ingest, source)
    requires a.urls ==
      UrlsAlong(cluster.place, UploadOrder(|cluster.ingest|, source), ArtifactKey(version, a.filename))
    ensures HasEveryUrl(cluster, version, a)
  {
    hide UploadOrder;
    var n, key := |cluster.ingest|, ArtifactKey(version, a.filename);
    UploadOrderMeans(n, source);
    var order := UploadOrder(n, source);
    forall b: nat | b < n
      ensures cluster.place(b, key) in a.urls
    {
      assert b in order;
      var i :| 0 <= i < |order| && order[i] == b;
      assert a.urls[i] == cluster.place(b, key);
    }
  }

  // ---------------------------------------------------------------------
  // A published release
  // ---------------------------------------------------------------------

  /** What a run counts as the current index: none on any backend, or the same
      one on all, for this channel and under a trusted seal. */
  lemma CurrentMeans(stores: seq<Store>, channel: string, trusts: string -> bool, index: Index)
    requires IsCurrent(stores, channel, trusts, index)
    ensures
      || (index == Index(0, [], None) && forall b | 0 <= b < |stores| :: IndexKey(channel) !in stores[b])
      || exists seal :: trusts(seal) && forall b | 0 <= b < |stores| ::
           IndexKey(channel) in stores[b] && stores[b][IndexKey(channel)] == IndexPointer(channel, index, seal)
  {
    forall b | 0 <= b < |stores|
      ensures At(stores[b], IndexKey(channel)) == At(stores[0], IndexKey(channel))
    {}
    if IndexKey(channel) in stores[0] {
      var item := stores[0][IndexKey(channel)];
      assert trusts(item.seal) && item == IndexPointer(channel, index, item.seal);
    }
  }

  /** Before anything is written: each staged file that is there is of the size
      and digest it was staged with, and no code on the channel is in the way. */
  lemma PublishableMeans(
    cluster: Cluster, settings: Settings, staged: Staged, local: Local, allowBackfill: bool, before: seq<Store>)
    returns (existing: Index)
    requires Publishable(cluster, settings, staged, local, allowBackfill, before)
    ensures IsCurrent(before, staged.channel, settings.trusts, existing)
    ensures forall i | 0 <= i < |staged.artifacts| && staged.artifacts[i].filename in local ::
      var file := local[staged.artifacts[i].filename];
      cluster.measure.sha(file) == staged.artifacts[i].sha256 &&
      cluster.measure.size(file) == staged.artifacts[i].size
    ensures !allowBackfill ==> forall n | n in existing.versions :: n.code < staged.code
  {
    existing :| IsCurrent(before, staged.channel, settings.trusts, existing) &&
      GateOpen(existing, staged.code, allowBackfill) &&
      WouldValidate(existing, TrialNode(staged), settings.retainVersions);
  }

  /** What the new index lists: versions listed before, and the release, with its
      code and minFrom as staged, not yanked, and the digest, size and URLs of
      the manifest that was uploaded. */
  lemma NewIndexMeans(
    cluster: Cluster, settings: Settings, staged: Staged, allowBackfill: bool, before: seq<Store>,
    manifest: Manifest, index: Index, existing: Index, pruned: seq<VersionNode>, n: VersionNode)
    requires Grounds(cluster, settings, staged, allowBackfill, before, manifest, index, existing, pruned)
    requires n in index.versions
    ensures index.minSupported == existing.minSupported && index.sequence > existing.sequence
    ensures existing.sequence == 0 || existing.sequence >= 999 ==> index.sequence == existing.sequence + 1
    ensures
      || n in existing.versions
      || (&& n.version == staged.version && n.code == staged.code && n.minFrom == staged.minFrom && !n.yanked
          && n.manifest.sha256 == cluster.measure.sha(ManifestDoc(manifest))
          && n.manifest.size == cluster.measure.size(ManifestDoc(manifest))
          && |n.manifest.urls| == |cluster.ingest|
          && forall b | 0 <= b < |cluster.ingest| ::
               n.manifest.urls[b] == cluster.place(b, ManifestKey(staged.version)))
  {
    hide Follows;
    var node := NodeOf(staged, RefOf(cluster, manifest));
    NextIndexListsKnownNodes(existing, node, settings.retainVersions, index, pruned, n);
    var retained := RetainedBehind(existing, node, settings.retainVersions, index, pruned);
  }

  /** After a successful run: under their keys on every backend the sealed index,
      the manifest, and each artifact's content; and if nothing went wrong, the
      pages, which give the release's own artifacts and the index's versions. */
  lemma PublishedMeans(
    cluster: Cluster, settings: Settings, staged: Staged, seal: string, allowBackfill: bool,
    before: seq<Store>, after: seq<Store>, plan: Plan, index: Index, smooth: bool, b: nat)
    returns (manifest: Manifest)
    requires Delivered(
      cluster, settings, staged, seal, allowBackfill, before, after, plan, index, smooth)
    requires Extends(PlanOf(staged), plan) && b < |after|
    ensures ManifestIsComplete(cluster, staged, manifest)
    ensures IndexKey(staged.channel) in after[b]
    ensures after[b][IndexKey(staged.channel)] == IndexPointer(staged.channel, index, seal)
    ensures ManifestKey(staged.version) in after[b]
    ensures after[b][ManifestKey(staged.version)] == ManifestDoc(manifest)
    ensures forall i | 0 <= i < |staged.artifacts| ::
      var a := staged.artifacts[i];
      && ArtifactKey(staged.version, a.filename) in after[b]
      && CasDigest(a.sha256) == Some(cluster.measure.sha(after[b][ArtifactKey(staged.version, a.filename)]))
      && a.size == cluster.measure.size(after[b][ArtifactKey(staged.version, a.filename)])
    ensures smooth ==>
      && At(after[b], LatestKey(staged.channel)) ==
           Some(LatestPage(staged.version, staged.code, manifest.artifacts))
      && At(after[b], ChannelKey(staged.channel)) == Some(ChannelPage(index.versions))
      && At(after[b], ReleaseKey(staged.channel, staged.version)) ==
           Some(ReleasePage(staged.version, staged.code, manifest.artifacts))
      && (settings.site.Some? ==> At(after[b], SiteKey) == Some(SitePage(settings.site.value)))
  {
    hide Follows, ErrorFree, IsCurrent, ManifestIsComplete, GateOpen;
    manifest := plan.manifest.value;
    assert plan.doc == IndexKey(staged.channel) && plan.version == staged.version;
    assert Uploaded(cluster.measure, plan, after[b]);
    forall i | 0 <= i < |staged.artifacts|
      ensures HasContent(cluster.measure, after[b], staged.version, staged.artifacts[i])
    {}
    if smooth {
      PagesMean(settings, staged, manifest, index, after[b]);
    }
  }

  lemma PagesMean(settings: Settings, staged: Staged, manifest: Manifest, index: Index, store: Store)
    requires AllProjected(WebDocuments(settings, staged, manifest, index), store)
    ensures At(store, LatestKey(staged.channel)) ==
      Some(LatestPage(staged.version, staged.code, manifest.artifacts))
    ensures At(store, ChannelKey(staged.channel)) == Some(ChannelPage(index.versions))
    ensures At(store, ReleaseKey(staged.channel, staged.version)) ==
      Some(ReleasePage(staged.version, staged.code, manifest.artifacts))
    ensures settings.site.Some? ==> At(store, SiteKey) == Some(SitePage(settings.site.value))
  {
    var documents := WebDocuments(settings, staged, manifest, index);
    var place := if settings.site.Some? then 1 else 0;
    assert documents[place].0 == LatestKey(staged.channel);
    assert documents[place + 1].0 == ChannelKey(staged.channel);
    assert documents[place + 2].0 == ReleaseKey(staged.channel, staged.version);
    if settings.site.Some? {
      assert documents[0].0 == SiteKey;
    }
  }

  // ---------------------------------------------------------------------
  // A removed version
  // ---------------------------------------------------------------------

  /** After a removal in which nothing went wrong, on every backend: the sealed
      index of the other versions, their history page, no page of the removed
      release, and the latest page of the highest code left, with the artifacts of
      a manifest that is stored for it. */
  lemma WithdrawnMeans(
    stores: seq<Store>, plan: Plan, channel: string, version: string, seal: string, existing: Index, index: Index,
    b: nat)
    returns (head: VersionNode, manifest: Manifest)
    requires plan == Unpublishing.RemovalPlan(channel, version).(pointer := Some(IndexPointer(channel, index, seal)))
    requires Unpublishing.Withdrawn(stores, plan, channel, version, index) && b < |stores|
    requires Unpublishing.NewestIsLatest(stores, channel, index) && Unpublishing.Removes(existing, version, index)
    ensures At(stores[b], IndexKey(channel)) == Some(IndexPointer(channel, index, seal))
    ensures At(stores[b], ChannelKey(channel)) == Some(ChannelPage(index.versions))
    ensures ReleaseKey(channel, version) !in stores[b]
    ensures head in index.versions
    ensures forall n | n in index.versions ::
      n.code < head.code || (n.code == head.code && Sorting.LexAtMost(n.version, head.version))
    ensures At(stores[b], LatestKey(channel)) == Some(LatestPage(head.version, head.code, manifest.artifacts))
    ensures exists c :: 0 <= c < |stores| && At(stores[c], ManifestKey(head.version)) == Some(ManifestDoc(manifest))
    ensures forall n :: n in index.versions <==> n in existing.versions && n.version != version
    ensures index.sequence > existing.sequence && index.minSupported == existing.minSupported
  {
    var page;
    head, page :| Unpublishing.IsNewest(index.versions, head) && Unpublishing.IsLatestPage(stores, head, page) &&
      forall b | 0 <= b < |stores| :: At(stores[b], LatestKey(channel)) == Some(page);
    var c :| 0 <= c < |stores| && Unpublishing.IsPageFrom(stores[c], head, page);
    manifest := stores[c][ManifestKey(head.version)].manifest;
    assert At(stores[c], ManifestKey(head.version)) == Some(ManifestDoc(manifest));
    forall n
      ensures n in index.versions <==> n in existing.versions && n.version != version
    {
      Unpublishing.RemainingWereListed(existing, version, index, n);
    }
  }
}
