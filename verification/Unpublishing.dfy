/** Taking one version out of a channel's index, with the same commit discipline
    as publishing (internal/publish/unpublish.go). */
module Unpublishing {
  import opened Wrappers
  import opened Documents
  import opened Sorting
  import opened Chain
  import opened Backends
  import opened Commit
  import opened Publishing
  import opened PublishRun

  // ---------------------------------------------------------------------
  // Removing the node
  // ---------------------------------------------------------------------

  function Others(versions: seq<VersionNode>, version: string): seq<VersionNode> {
    if versions == [] then []
    else
      Others(versions[..|versions| - 1], version) +
      if versions[|versions| - 1].version == version then [] else [versions[|versions| - 1]]
  }

  lemma {:induction false} OthersAreListed(versions: seq<VersionNode>, version: string, node: VersionNode)
    ensures node in Others(versions, version) <==> node in versions && node.version != version
  {
    if versions != [] {
      var init, last := versions[..|versions| - 1], versions[|versions| - 1];
      OthersAreListed(init, version, node);
      assert versions == init + [last];
    }
  }

  /** Exactly one node has the version. */
  ghost predicate ListedOnce(versions: seq<VersionNode>, version: string) {
    exists i :: 0 <= i < |versions| && versions[i].version == version &&
      forall j | 0 <= j < |versions| && j != i :: versions[j].version != version
  }

  ghost predicate ListedTwice(versions: seq<VersionNode>, version: string) {
    exists i, j :: 0 <= i < j < |versions| && versions[i].version == versions[j].version == version
  }

  method RemoveVersion(versions: seq<VersionNode>, version: string)
    returns (r: Result<seq<VersionNode>, Failure>)
    ensures r.Ok? ==> r.value == Others(versions, version) && r.value != [] && ListedOnce(versions, version)
    ensures r.Err? ==> r.error in {NothingPublished, Corrupt, NotListed, OnlyVersion}
    ensures r == Err(NothingPublished) <==> versions == []
    ensures r == Err(Corrupt) <==> ListedTwice(versions, version)
    ensures r == Err(NotListed) ==> forall n | n in versions :: n.version != version
    ensures r == Err(OnlyVersion) ==> forall n | n in versions :: n.version == version
  {
    if |versions| == 0 {
      return Err(NothingPublished);
    }
    var removed: Option<VersionNode> := None;
    ghost var place := 0;
    var kept := [];
    for i := 0 to |versions|
      invariant kept == Others(versions[..i], version)
      invariant removed.None? ==> forall j | 0 <= j < i :: versions[j].version != version
      invariant removed.Some? ==> 0 <= place < i && versions[place].version == version
      invariant removed.Some? ==> forall j | 0 <= j < i && j != place :: versions[j].version != version
    {
      assert versions[..i + 1][..i] == versions[..i];
      var node := versions[i];
      if node.version == version {
        if removed.Some? {
          return Err(Corrupt);
        }
        removed, place := Some(node), i;
        continue;
      }
      kept := kept + [node];
    }
    assert versions[..|versions|] == versions;
    if removed.None? {
      return Err(NotListed);
    }
    if |kept| == 0 {
      forall n | n in versions
        ensures n.version == version
      {
        OthersAreListed(versions, version, n);
      }
      return Err(OnlyVersion);
    }
    r := Ok(kept);
  }

  /** The index without the version. */
  ghost predicate Removes(existing: Index, version: string, index: Index) {
    && ListedOnce(existing.versions, version)
    && IsNewIndex(
         NextSequence(existing.sequence), Others(existing.versions, version), existing.minSupported, index)
  }

  lemma RemainingWereListed(existing: Index, version: string, index: Index, node: VersionNode)
    requires Removes(existing, version, index)
    ensures node in index.versions <==> node in existing.versions && node.version != version
  {
    PermutationKeepsMembers(index.versions, Others(existing.versions, version));
    OthersAreListed(existing.versions, version, node);
  }

  // ---------------------------------------------------------------------
  // The pages
  // ---------------------------------------------------------------------

  /** The highest code; among equals the highest version string. */
  ghost predicate IsNewest(versions: seq<VersionNode>, node: VersionNode) {
    node in versions &&
    forall n | n in versions ::
      n.code < node.code || (n.code == node.code && LexAtMost(n.version, node.version))
  }

  method HighestCodeNode(versions: seq<VersionNode>) returns (best: VersionNode)
    requires versions != []
    ensures IsNewest(versions, best)
  {
    LexIsPreorder();
    best := versions[0];
    for i := 1 to |versions|
      invariant best in versions[..i]
      invariant forall j | 0 <= j < i ::
        versions[j].code < best.code || (versions[j].code == best.code && LexAtMost(versions[j].version, best.version))
    {
      var node := versions[i];
      if node.code > best.code || (node.code == best.code && !LexAtMost(node.version, best.version)) {
        best := node;
      }
    }
  }

  /** Only pages changed, and only on the targets. */
  ghost predicate OnlyPages(targets: seq<nat>, before: seq<Store>, after: seq<Store>) {
    && |before| == |after|
    && (forall b | 0 <= b < |before| :: b in targets || after[b] == before[b])
    && (forall b, key: Key {:trigger At(after[b], key)} | 0 <= b < |before| && !IsPage(key) ::
          At(after[b], key) == At(before[b], key))
  }

  ghost predicate HoldsManifest(store: Store, version: string) {
    var item := At(store, ManifestKey(version));
    item.Some? && item.value.ManifestDoc?
  }

  /** The head's page, made from the manifest on one backend. */
  ghost predicate IsPageFrom(store: Store, head: VersionNode, page: Item) {
    HoldsManifest(store, head.version) &&
    page == LatestPage(head.version, head.code, store[ManifestKey(head.version)].manifest.artifacts)
  }

  ghost predicate IsLatestPage(stores: seq<Store>, head: VersionNode, page: Item) {
    exists b :: 0 <= b < |stores| && IsPageFrom(stores[b], head, page)
  }

  /** Some target has the head's manifest. */
  ghost predicate Readable(stores: seq<Store>, targets: seq<nat>, head: VersionNode) {
    exists i :: 0 <= i < |targets| && targets[i] < |stores| && HoldsManifest(stores[targets[i]], head.version)
  }

  /** The targets share one latest page, that of the head. */
  ghost predicate LatestUp(stores: seq<Store>, targets: seq<nat>, channel: string, head: VersionNode) {
    exists page :: IsLatestPage(stores, head, page) &&
      forall i | 0 <= i < |targets| :: targets[i] < |stores| && At(stores[targets[i]], LatestKey(channel)) == Some(page)
  }

  /** Every backend holds the new pointer and history, and the release page is gone. */
  ghost predicate Withdrawn(stores: seq<Store>, plan: Plan, channel: string, version: string, index: Index) {
    forall b | 0 <= b < |stores| ::
      && At(stores[b], plan.doc) == plan.pointer
      && At(stores[b], ChannelKey(channel)) == Some(ChannelPage(index.versions))
      && ReleaseKey(channel, version) !in stores[b]
  }

  /** Every backend shows the newest remaining version as the latest. */
  ghost predicate NewestIsLatest(stores: seq<Store>, channel: string, index: Index) {
    exists head, page :: IsNewest(index.versions, head) && IsLatestPage(stores, head, page) &&
      forall b | 0 <= b < |stores| :: At(stores[b], LatestKey(channel)) == Some(page)
  }

  lemma OnlyPagesCompose(targets: seq<nat>, a: seq<Store>, b: seq<Store>, c: seq<Store>)
    requires OnlyPages(targets, a, b) && OnlyPages(targets, b, c)
    ensures OnlyPages(targets, a, c)
  {}

  lemma DroppingAPage(targets: seq<nat>, before: seq<Store>, after: seq<Store>, i: nat, key: Key)
    requires i < |targets| && targets[i] < |before| && IsPage(key)
    requires after == before || after == before[targets[i] := before[targets[i]] - {key}]
    ensures OnlyPages(targets, before, after)
  {}

  ghost predicate AllDelete(cluster: Cluster) {
    forall b | 0 <= b < |cluster.ingest| :: cluster.ingest[b]
  }

  /** The release page is dropped by hand, on the backends that can delete. */
  method DeleteReleaseDoc(cluster: Cluster, targets: seq<nat>, channel: string, version: string)
    returns (failures: nat, halted: bool)
    requires cluster.Valid() && IsSelection(targets, |cluster.stores|)
    modifies cluster
    ensures cluster.Valid() && old(cluster.attempts) <= cluster.attempts
    ensures OnlyPages(targets, old(cluster.stores), cluster.stores)
    ensures !halted && failures == 0 ==>
      forall i | 0 <= i < |targets| :: ReleaseKey(channel, version) !in cluster.stores[targets[i]]
    ensures halted <==> cluster.Stops(old(cluster.attempts), cluster.attempts)
    ensures cluster.Smooth(old(cluster.attempts), cluster.attempts) && AllDelete(cluster) ==> failures == 0
  {
    hide CasSound, IsHexDigest, OnlyPages;
    NoPages(targets, cluster.stores);
    failures, halted := 0, false;
    var key := ReleaseKey(channel, version);
    for i := 0 to |targets|
      invariant cluster.Valid() && |cluster.stores| == |old(cluster.stores)|
      invariant old(cluster.attempts) <= cluster.attempts
      invariant OnlyPages(targets, old(cluster.stores), cluster.stores)
      invariant failures == 0 ==> forall j | 0 <= j < i :: key !in cluster.stores[targets[j]]
      invariant cluster.Smooth(old(cluster.attempts), cluster.attempts) && AllDelete(cluster) ==> failures == 0
      invariant !cluster.Stops(old(cluster.attempts), cluster.attempts)
    {
      if !cluster.ingest[targets[i]] {
        failures := failures + 1;
        continue;
      }
      ghost var before := cluster.stores;
      var reply := cluster.Delete(targets[i], key);
      DroppingAPage(targets, before, cluster.stores, i, key);
      OnlyPagesCompose(targets, old(cluster.stores), before, cluster.stores);
      if reply == Stopped {
        halted := true;
        return;
      }
      if reply == Refused {
        failures := failures + 1;
      }
    }
  }

  /** The page of the head, from the first target whose manifest can be read. */
  method LatestFromNode(cluster: Cluster, targets: seq<nat>, head: VersionNode)
    returns (page: Option<Item>, halted: bool)
    requires cluster.Valid() && IsSelection(targets, |cluster.stores|)
    modifies cluster`attempts
    ensures cluster.Valid() && old(cluster.attempts) <= cluster.attempts
    ensures page.Some? ==> exists i ::
      && 0 <= i < |targets| && IsPageFrom(cluster.stores[targets[i]], head, page.value)
      && (cluster.Smooth(old(cluster.attempts), cluster.attempts) ==>
            forall j | 0 <= j < i :: !HoldsManifest(cluster.stores[targets[j]], head.version))
    ensures cluster.Smooth(old(cluster.attempts), cluster.attempts) && page.None? ==>
      forall i | 0 <= i < |targets| :: !HoldsManifest(cluster.stores[targets[i]], head.version)
    ensures halted <==> cluster.Stops(old(cluster.attempts), cluster.attempts)
  {
    page, halted := None, false;
    for i := 0 to |targets|
      invariant cluster.Valid() && old(cluster.attempts) <= cluster.attempts
      invariant cluster.Smooth(old(cluster.attempts), cluster.attempts) ==>
        forall j | 0 <= j < i :: !HoldsManifest(cluster.stores[targets[j]], head.version)
      invariant !cluster.Stops(old(cluster.attempts), cluster.attempts)
    {
      var reply, found := cluster.Get(targets[i], ManifestKey(head.version));
      if reply == Stopped {
        halted := true;
        return;
      }
      if found.Some? && found.value.ManifestDoc? {
        assert IsPageFrom(cluster.stores[targets[i]], head,
                          LatestPage(head.version, head.code, found.value.manifest.artifacts));
        page := Some(LatestPage(head.version, head.code, found.value.manifest.artifacts));
        return;
      }
    }
  }

  ghost predicate OnlyPage(key: Key, page: Item, before: seq<Store>, after: seq<Store>) {
    |before| == |after| &&
    forall b, k | 0 <= b < |before| && At(after[b], k) != At(before[b], k) ::
      k == key && At(after[b], k) == Some(page)
  }

  /** One page on every target. */
  method PutPage(cluster: Cluster, targets: seq<nat>, key: Key, page: Item) returns (failures: nat, halted: bool)
    requires cluster.Valid() && IsSelection(targets, |cluster.stores|) && IsPage(key)
    modifies cluster
    ensures cluster.Valid() && old(cluster.attempts) <= cluster.attempts
    ensures OnlyPages(targets, old(cluster.stores), cluster.stores)
    ensures OnlyPage(key, page, old(cluster.stores), cluster.stores)
    ensures cluster.Smooth(old(cluster.attempts), cluster.attempts) ==>
      failures == 0 && forall i | 0 <= i < |targets| :: At(cluster.stores[targets[i]], key) == Some(page)
    ensures halted <==> cluster.Stops(old(cluster.attempts), cluster.attempts)
  {
    var documents := [(key, page)];
    assert ArePages(documents);
    failures, halted := WriteWebPointers(cluster, targets, documents);
    forall i | 0 <= i < |targets|
      ensures cluster.Smooth(old(cluster.attempts), cluster.attempts) ==>
        At(cluster.stores[targets[i]], key) == Some(page)
    {
      assert documents[0] == (key, page);
    }
    forall b, k | 0 <= b < |cluster.stores| && At(cluster.stores[b], k) != At(old(cluster.stores)[b], k)
      ensures k == key && At(cluster.stores[b], k) == Some(page)
    {
      assert Projected(documents, old(cluster.stores)[b], cluster.stores[b]);
    }
  }

  /** No release page changed, and the latest page, where it changed, names the
      newest remaining version. */
  ghost predicate Rewritten(channel: string, rebuilt: Index, before: seq<Store>, after: seq<Store>) {
    && |before| == |after|
    && (forall b | 0 <= b < |before| && At(after[b], LatestKey(channel)) != At(before[b], LatestKey(channel)) ::
          exists head, page :: At(after[b], LatestKey(channel)) == Some(page) &&
            IsNewest(rebuilt.versions, head) && IsLatestPage(after, head, page))
    && (forall b, key: Key {:trigger At(after[b], key)} | 0 <= b < |before| && key.ReleaseKey? ::
          At(after[b], key) == At(before[b], key))
  }

  /** The latest page of the head on every target, if its manifest can be read. */
  method PutLatestPage(cluster: Cluster, targets: seq<nat>, channel: string, head: VersionNode)
    returns (failures: nat, halted: bool, ghost page: Option<Item>)
    requires cluster.Valid() && IsSelection(targets, |cluster.stores|)
    modifies cluster
    ensures cluster.Valid() && old(cluster.attempts) <= cluster.attempts
    ensures OnlyPages(targets, old(cluster.stores), cluster.stores)
    ensures page.Some? ==> IsLatestPage(old(cluster.stores), head, page.value)
    ensures cluster.stores == old(cluster.stores) ||
      (page.Some? && OnlyPage(LatestKey(channel), page.value, old(cluster.stores), cluster.stores))
    ensures cluster.Smooth(old(cluster.attempts), cluster.attempts) && Readable(old(cluster.stores), targets, head) ==>
      failures == 0 && page.Some? &&
      forall i | 0 <= i < |targets| :: At(cluster.stores[targets[i]], LatestKey(channel)) == page
    ensures halted <==> cluster.Stops(old(cluster.attempts), cluster.attempts)
  {
    hide Cluster.Valid, IsSelection, OnlyPages, OnlyPage, IsLatestPage, HoldsManifest, IsPageFrom;
    NoPages(targets, cluster.stores);
    failures := 0;
    var found;
    found, halted := LatestFromNode(cluster, targets, head);
    page := found;
    if found.Some? {
      PageIsLatest(targets, cluster.stores, head, found.value);
    }
    if halted {
      return;
    }
    if found.None? {
      failures := 1;
      return;
    }
    failures, halted := PutPage(cluster, targets, LatestKey(channel), found.value);
  }

  method RewriteWebPointers(cluster: Cluster, settings: Settings, channel: string, targets: seq<nat>, rebuilt: Index)
    returns (failures: nat, halted: bool, ghost head: VersionNode)
    requires cluster.Valid() && IsSelection(targets, |cluster.stores|) && rebuilt.versions != []
    modifies cluster
    ensures cluster.Valid() && old(cluster.attempts) <= cluster.attempts
    ensures OnlyPages(targets, old(cluster.stores), cluster.stores)
    ensures IsNewest(rebuilt.versions, head)
    ensures Rewritten(channel, rebuilt, old(cluster.stores), cluster.stores)
    ensures cluster.Smooth(old(cluster.attempts), cluster.attempts) ==> forall i | 0 <= i < |targets| ::
      At(cluster.stores[targets[i]], ChannelKey(channel)) == Some(ChannelPage(rebuilt.versions))
    ensures cluster.Smooth(old(cluster.attempts), cluster.attempts) && Readable(old(cluster.stores), targets, head) ==>
      failures == 0 && LatestUp(cluster.stores, targets, channel, head)
    ensures halted <==> cluster.Stops(old(cluster.attempts), cluster.attempts)
  {
    hide Cluster.Valid, IsNewest, IsSelection, OnlyPages, OnlyPage, IsLatestPage, Rewritten, LatestUp, Readable;
    ghost var s0 := cluster.stores;
    failures, halted := 0, false;
    var newest := HighestCodeNode(rebuilt.versions);
    head := newest;
    NoPages(targets, cluster.stores);
    if settings.site.Some? {
      failures, halted := PutPage(cluster, targets, SiteKey, SitePage(settings.site.value));
    }
    ghost var s1 := cluster.stores;
    ManifestsStay(targets, s0, s1, head);
    ghost var page: Option<Item> := None;
    if !halted {
      var failed;
      failed, halted, page := PutLatestPage(cluster, targets, channel, newest);
      failures := failures + failed;
      OnlyPagesCompose(targets, s0, s1, cluster.stores);
    }
    ghost var s2 := cluster.stores;
    if !halted {
      var failed;
      failed, halted := PutPage(cluster, targets, ChannelKey(channel), ChannelPage(rebuilt.versions));
      failures := failures + failed;
      OnlyPagesCompose(targets, s0, s2, cluster.stores);
    }
    LatestRewritten(targets, channel, rebuilt, head, page, s0, s1, s2, cluster.stores);
  }

  lemma NoPages(targets: seq<nat>, stores: seq<Store>)
    ensures OnlyPages(targets, stores, stores)
  {}

  lemma ManifestsStay(targets: seq<nat>, before: seq<Store>, after: seq<Store>, head: VersionNode)
    requires OnlyPages(targets, before, after)
    ensures Readable(after, targets, head) <==> Readable(before, targets, head)
  {
    forall b | 0 <= b < |before|
      ensures HoldsManifest(after[b], head.version) <==> HoldsManifest(before[b], head.version)
    {
      assert At(after[b], ManifestKey(head.version)) == At(before[b], ManifestKey(head.version));
    }
  }

  lemma PageIsLatest(targets: seq<nat>, stores: seq<Store>, head: VersionNode, page: Item)
    requires IsSelection(targets, |stores|)
    requires exists i :: 0 <= i < |targets| && IsPageFrom(stores[targets[i]], head, page)
    ensures IsLatestPage(stores, head, page)
  {}

  lemma LatestRewritten(
    targets: seq<nat>, channel: string, rebuilt: Index, head: VersionNode, page: Option<Item>,
    s0: seq<Store>, s1: seq<Store>, s2: seq<Store>, s3: seq<Store>)
    requires IsSelection(targets, |s0|)
    requires IsNewest(rebuilt.versions, head) && OnlyPages(targets, s0, s3) && |s0| == |s1| == |s2|
    requires s1 == s0 || exists site :: OnlyPage(SiteKey, site, s0, s1)
    requires s2 == s1 || (page.Some? && OnlyPage(LatestKey(channel), page.value, s1, s2))
    requires page.Some? ==> IsLatestPage(s1, head, page.value)
    requires s3 == s2 || exists history :: OnlyPage(ChannelKey(channel), history, s2, s3)
    ensures Rewritten(channel, rebuilt, s0, s3)
    ensures page.Some? && (forall i | 0 <= i < |targets| :: At(s2[targets[i]], LatestKey(channel)) == page) ==>
      LatestUp(s3, targets, channel, head)
  {
    hide IsNewest, IsLatestPage, IsSelection;
    if page.Some? {
      LatestPageStays(head, page.value, s0, s1, s3, targets);
    }
    LatestUpStays(targets, channel, s0, s2, s3);
  }

  lemma LatestUpStays(targets: seq<nat>, channel: string, s0: seq<Store>, s2: seq<Store>, s3: seq<Store>)
    requires IsSelection(targets, |s0|) && |s0| == |s2| == |s3|
    requires s3 == s2 || exists history :: OnlyPage(ChannelKey(channel), history, s2, s3)
    ensures forall i | 0 <= i < |targets| ::
      targets[i] < |s3| && At(s3[targets[i]], LatestKey(channel)) == At(s2[targets[i]], LatestKey(channel))
  {}

  /** A page changes no manifest, so the latest page stays the head's. */
  lemma LatestPageStays(
    head: VersionNode, page: Item, s0: seq<Store>, s1: seq<Store>, s3: seq<Store>, targets: seq<nat>)
    requires IsLatestPage(s1, head, page) && OnlyPages(targets, s0, s3) && |s0| == |s1|
    requires s1 == s0 || exists site :: OnlyPage(SiteKey, site, s0, s1)
    ensures IsLatestPage(s3, head, page)
  {
    var b :| 0 <= b < |s1| && IsPageFrom(s1[b], head, page);
    assert At(s3[b], ManifestKey(head.version)) == At(s0[b], ManifestKey(head.version));
    assert At(s1[b], ManifestKey(head.version)) == At(s0[b], ManifestKey(head.version));
    assert IsPageFrom(s3[b], head, page);
  }

  // ---------------------------------------------------------------------
  // A whole run
  // ---------------------------------------------------------------------

  function RemovalPlan(channel: string, version: string): Plan {
    Plan(IndexKey(channel), None, version, [], None, {})
  }

  /** Sealing a removal supersedes the current index. */
  lemma RemovalStep(
    measure: Measure, trusts: string -> bool, channel: string, version: string, plan: Plan,
    before: seq<Store>, after: seq<Store>, existing: Index, index: Index, seal: string)
    requires |before| == |after| > 0 && IsCurrent(before, channel, trusts, existing)
    requires Removes(existing, version, index)
    requires plan == RemovalPlan(channel, version).(pointer := Some(IndexPointer(channel, index, seal)))
    requires forall b | 0 <= b < |before| :: Within(measure, plan, before[b], after[b])
    ensures Step(measure, plan, before, after)
  {
    forall node | node in index.versions
      ensures Listed(before[0], channel, node)
    {
      RemainingWereListed(existing, version, index, node);
    }
    assert existing.sequence == Base(At(before[0], plan.doc));
    assert SequenceOf(plan.pointer.value) == NextSequence(existing.sequence);
    assert Supersedes(measure, plan, before, after);
  }

  /** Writing the pointer and then pages keeps within the plan. */
  lemma RemovalIsPlanned(
    measure: Measure, plan: Plan, item: Item, targets: seq<nat>, before: seq<Store>, mid: seq<Store>, after: seq<Store>)
    requires plan.doc.IndexKey? && plan.pointer == Some(item)
    requires OnlyPut(plan.doc, item, before, mid) && OnlyPages(targets, mid, after)
    ensures forall b | 0 <= b < |before| :: Within(measure, plan, before[b], after[b])
    ensures forall b | 0 <= b < |before| :: At(after[b], plan.doc) == At(mid[b], plan.doc)
  {}

  lemma CommittedRemoval(
    measure: Measure, trusts: string -> bool, channel: string, version: string, plan: Plan, targets: seq<nat>,
    start: seq<Store>, mid: seq<Store>, after: seq<Store>, existing: Index, index: Index, seal: string)
    requires IsCurrent(start, channel, trusts, existing) && Removes(existing, version, index)
    requires plan == RemovalPlan(channel, version).(pointer := Some(IndexPointer(channel, index, seal)))
    requires OnlyPut(plan.doc, plan.pointer.value, start, mid) && OnlyPages(targets, mid, after)
    ensures Step(measure, plan, start, after)
  {
    RemovalIsPlanned(measure, plan, plan.pointer.value, targets, start, mid, after);
    RemovalStep(measure, trusts, channel, version, plan, start, after, existing, index, seal);
  }

  /** Each refusal before the first write has its reason. */
  ghost predicate RefusedFor(
    stores: seq<Store>, settings: Settings, channel: string, version: string, existing: Index, smooth: bool,
    failure: Failure)
  {
    match failure
    case Interrupted => !smooth
    case Divergent => !Agree(stores, IndexKey(channel))
    case Unreadable => smooth ==>
      (!Agree(stores, IndexKey(channel)) ||
       (stores != [] && SomeIllegible(At(stores[0], IndexKey(channel)), channel, settings.trusts)))
    case NothingPublished => IsCurrent(stores, channel, settings.trusts, existing) && existing.versions == []
    case Corrupt => IsCurrent(stores, channel, settings.trusts, existing) && ListedTwice(existing.versions, version)
    case NotListed =>
      IsCurrent(stores, channel, settings.trusts, existing) &&
      forall n | n in existing.versions :: n.version != version
    case OnlyVersion =>
      IsCurrent(stores, channel, settings.trusts, existing) &&
      forall n | n in existing.versions :: n.version == version
    case InvalidIndex =>
      IsCurrent(stores, channel, settings.trusts, existing) &&
      (NextSequence(existing.sequence) < 1 || exists index :: Removes(existing, version, index) && !ErrorFree(index))
    case ClientsWouldReject => !settings.clientsVerify
    case _ => false
  }

  /** What a removal needs of the current index: the version listed once, and
      another one. */
  ghost predicate Removable(stores: seq<Store>, settings: Settings, channel: string, version: string, existing: Index) {
    && IsCurrent(stores, channel, settings.trusts, existing)
    && ListedOnce(existing.versions, version)
    && exists n :: n in existing.versions && n.version != version
  }

  /** The refusals before a dry run stops. */
  predicate IsRemovalCheck(failure: Failure) {
    failure in {Unreadable, Divergent, Interrupted, NothingPublished, Corrupt, NotListed, OnlyVersion}
  }

  /** A version that can be removed gives no reason for any of these refusals. */
  lemma RemovableIsNotRefused(
    stores: seq<Store>, settings: Settings, channel: string, version: string, current: Index, existing: Index,
    failure: Failure)
    requires Removable(stores, settings, channel, version, current) && IsRemovalCheck(failure)
    ensures !RefusedFor(stores, settings, channel, version, existing, true, failure)
  {
    hide Agree;
  }

  /** The index without the version validates. */
  ghost predicate RemovalValidates(existing: Index, version: string) {
    NextSequence(existing.sequence) >= 1 && exists index :: Removes(existing, version, index) && ErrorFree(index)
  }

  /** Then it is the only one. */
  lemma ValidRemovalIsUnique(existing: Index, version: string, a: Index, b: Index)
    requires Removes(existing, version, a) && ErrorFree(a) && Removes(existing, version, b)
    ensures a == b
  {
    assert !Holds(a, DuplicateCode);
    var key := (n: VersionNode) => n.code;
    assert DistinctBy(key, a.versions);
    PermutationKeepsDistinct(key, a.versions, b.versions);
    forall i, j | 0 <= i < j < |b.versions|
      ensures b.versions[i].code != b.versions[j].code
    {
      assert key(b.versions[i]) != key(b.versions[j]);
    }
    PermutationKeepsMembers(a.versions, b.versions);
    SortedOnce(a.versions, b.versions);
  }

  /** A removal is refused only if the rebuilt index does not validate or clients
      could not verify it, once the version can be removed at all. */
  lemma RefusedIsNotValid(
    stores: seq<Store>, settings: Settings, channel: string, version: string, current: Index, existing: Index,
    failure: Failure)
    requires Removable(stores, settings, channel, version, current)
    requires RefusedFor(stores, settings, channel, version, existing, true, failure)
    ensures !(settings.clientsVerify && RemovalValidates(current, version))
  {
    hide ErrorFree, Removes, Agree, ListedOnce;
    if IsRemovalCheck(failure) {
      RemovableIsNotRefused(stores, settings, channel, version, current, existing, failure);
    } else if failure == InvalidIndex && RemovalValidates(current, version) {
      var good :| Removes(current, version, good) && ErrorFree(good);
      var bad :| Removes(existing, version, bad) && !ErrorFree(bad);
      ValidRemovalIsUnique(current, version, good, bad);
    }
  }

  lemma KeptIsRefused(
    stores: seq<Store>, settings: Settings, channel: string, version: string, existing: Index, smooth: bool,
    failure: Failure)
    requires IsCurrent(stores, channel, settings.trusts, existing)
    requires failure in {NothingPublished, Corrupt, NotListed, OnlyVersion}
    requires failure == NothingPublished ==> existing.versions == []
    requires failure == Corrupt ==> ListedTwice(existing.versions, version)
    requires failure == NotListed ==> forall n | n in existing.versions :: n.version != version
    requires failure == OnlyVersion ==> forall n | n in existing.versions :: n.version == version
    ensures RefusedFor(stores, settings, channel, version, existing, smooth, failure)
  {}

  lemma IndexIsRefused(
    stores: seq<Store>, settings: Settings, channel: string, version: string, existing: Index, smooth: bool)
    requires IsCurrent(stores, channel, settings.trusts, existing)
    requires NextSequence(existing.sequence) < 1 ||
      exists index :: Removes(existing, version, index) && !ErrorFree(index)
    ensures RefusedFor(stores, settings, channel, version, existing, smooth, InvalidIndex)
  {}

  /** Everything a removal checks before it seals the new index. */
  method PlanRemoval(cluster: Cluster, settings: Settings, channel: string, version: string, dryRun: bool)
    returns (r: Result<Index, Outcome>, ghost existing: Index)
    requires cluster.Valid()
    modifies cluster`attempts
    ensures old(cluster.attempts) <= cluster.attempts <= old(cluster.attempts) + |cluster.stores|
    ensures r.Ok? ==>
      && cluster.attempts == old(cluster.attempts) + |cluster.stores|
      && IsCurrent(cluster.stores, channel, settings.trusts, existing)
      && Removes(existing, version, r.value) && ErrorFree(r.value) && r.value.versions != []
    ensures r.Ok? ==> !dryRun && settings.clientsVerify && RemovalValidates(existing, version)
    ensures r.Ok? || r.error.Validated? ==> Removable(cluster.stores, settings, channel, version, existing)
    ensures dryRun && r.error.Failed? ==> IsRemovalCheck(r.error.failure)
    ensures r.Err? ==> (r.error.Validated? && dryRun) || r.error.Failed?
    ensures r.Err? && r.error.Failed? ==> RefusedFor(
      cluster.stores, settings, channel, version, existing,
      cluster.Smooth(old(cluster.attempts), cluster.attempts), r.error.failure)
    ensures r == Err(Failed(Interrupted)) <==> cluster.Stops(old(cluster.attempts), cluster.attempts)
  {
    existing := EMPTY_INDEX;
    var current := ReadExistingIndexes(cluster, channel, settings.trusts);
    if current.Err? {
      return Err(Failed(current.error)), existing;
    }
    existing := current.value;
    hide Agree, IsCurrent, Cluster.Valid, ListedOnce, ListedTwice, RefusedFor;
    ghost var smooth := cluster.Smooth(old(cluster.attempts), cluster.attempts);
    var kept := RemoveVersion(current.value.versions, version);
    if kept.Err? {
      KeptIsRefused(cluster.stores, settings, channel, version, existing, smooth, kept.error);
      return Err(Failed(kept.error)), existing;
    }
    if dryRun {
      return Err(Validated), existing;
    }
    var rebuilt := NewIndex(NextSequence(current.value.sequence), kept.value, current.value.minSupported);
    if rebuilt.None? {
      IndexIsRefused(cluster.stores, settings, channel, version, existing, smooth);
      return Err(Failed(InvalidIndex)), existing;
    }
    var index := rebuilt.value;
    assert index.versions != [] by {
      assert |multiset(index.versions)| == |multiset(kept.value)|;
    }
    assert Removes(existing, version, index);
    hide Removes;
    var errors, warnings := ValidateReachability(index);
    if errors != {} {
      assert exists f :: f in errors && f != ZeroUnreachable && Holds(index, f);
      IndexIsRefused(cluster.stores, settings, channel, version, existing, smooth);
      return Err(Failed(InvalidIndex)), existing;
    }
    assert forall f | f != ZeroUnreachable :: !Holds(index, f);
    if !settings.clientsVerify {
      KeysAreRefused(cluster.stores, settings, channel, version, existing, smooth);
      return Err(Failed(ClientsWouldReject)), existing;
    }
    r := Ok(index);
  }

  lemma KeysAreRefused(
    stores: seq<Store>, settings: Settings, channel: string, version: string, existing: Index, smooth: bool)
    requires !settings.clientsVerify
    ensures RefusedFor(stores, settings, channel, version, existing, smooth, ClientsWouldReject)
  {}

  lemma AllSelected(targets: seq<nat>, n: nat)
    requires IsSelection(targets, n) && |targets| == n
    ensures forall b | 0 <= b < n :: targets[b] == b
  {}

  lemma AllWithdrawn(
    plan: Plan, channel: string, version: string, index: Index, targets: seq<nat>,
    mid: seq<Store>, deleted: seq<Store>, after: seq<Store>)
    requires plan.doc.IndexKey? && |targets| == |mid| && forall b | 0 <= b < |targets| :: targets[b] == b
    requires OnlyPages(targets, mid, deleted) && OnlyPages(targets, deleted, after)
    requires forall i | 0 <= i < |targets| :: targets[i] < |mid| && At(mid[targets[i]], plan.doc) == plan.pointer
    requires Rewritten(channel, index, deleted, after)
    requires forall i | 0 <= i < |targets| :: ReleaseKey(channel, version) !in deleted[targets[i]]
    requires forall i | 0 <= i < |targets| ::
      At(after[targets[i]], ChannelKey(channel)) == Some(ChannelPage(index.versions))
    ensures Withdrawn(after, plan, channel, version, index)
  {
    forall b | 0 <= b < |mid|
      ensures At(after[b], plan.doc) == plan.pointer && ReleaseKey(channel, version) !in after[b]
      ensures At(after[b], ChannelKey(channel)) == Some(ChannelPage(index.versions))
    {
      assert targets[b] == b;
      assert At(after[b], ReleaseKey(channel, version)) == At(deleted[b], ReleaseKey(channel, version));
    }
  }

  /** Where the index was sound, the manifest of the newest remaining version can
      be read back. */
  lemma NewestIsReadable(
    measure: Measure, trusts: string -> bool, channel: string, version: string, plan: Plan, item: Item,
    targets: seq<nat>, start: seq<Store>, mid: seq<Store>, deleted: seq<Store>, existing: Index, index: Index,
    head: VersionNode)
    requires start != [] && AllSound(measure, start) && IsCurrent(start, channel, trusts, existing)
    requires Removes(existing, version, index) && IsNewest(index.versions, head)
    requires OnlyPut(IndexKey(channel), item, start, mid) && OnlyPages(targets, mid, deleted)
    requires |targets| == |start| && forall b | 0 <= b < |targets| :: targets[b] == b
    ensures Readable(deleted, targets, head)
  {
    RemainingWereListed(existing, version, index, head);
    assert Listed(start[0], channel, head);
    assert HoldsManifest(start[0], head.version);
    assert MayHave(IndexKey(channel), item, start[0], mid[0]);
    assert At(mid[0], ManifestKey(head.version)) == At(start[0], ManifestKey(head.version));
    assert At(deleted[0], ManifestKey(head.version)) == At(mid[0], ManifestKey(head.version));
    assert HoldsManifest(deleted[targets[0]], head.version);
  }

  lemma LatestEverywhere(stores: seq<Store>, targets: seq<nat>, channel: string, index: Index, head: VersionNode)
    requires LatestUp(stores, targets, channel, head) && IsNewest(index.versions, head)
    requires |targets| == |stores| && forall b | 0 <= b < |targets| :: targets[b] == b
    ensures NewestIsLatest(stores, channel, index)
  {
    var page :| IsLatestPage(stores, head, page) &&
      forall i | 0 <= i < |targets| ::
        targets[i] < |stores| && At(stores[targets[i]], LatestKey(channel)) == Some(page);
    forall b | 0 <= b < |stores|
      ensures At(stores[b], LatestKey(channel)) == Some(page)
    {
      assert targets[b] == b;
    }
  }

  /** Some of the n attempts from t on was acknowledged. */
  ghost predicate SomeDone(fate: nat -> Fate, t: nat, n: nat) {
    exists a: nat :: t <= a < t + n && fate(a) == Done
  }

  ghost predicate AllApplied(fate: nat -> Fate, t: nat, n: nat) {
    forall a: nat | t <= a < t + n :: Applies(fate(a))
  }

  /** Each backend holds the new pointer if its write was applied, and the old
      one otherwise; so they agree exactly when every write was applied. */
  lemma DivergesIffMissed(
    fate: nat -> Fate, t: nat, key: Key, item: Item, targets: seq<nat>,
    before: seq<Store>, mid: seq<Store>, after: seq<Store>)
    requires Tried(fate, t, |before|, key, item, before, mid) && OnlyPages(targets, mid, after) && key.IndexKey?
    requires before != [] && Agree(before, key) && At(before[0], key) != Some(item)
    requires SomeDone(fate, t, |before|)
    ensures Agree(after, key) <==> AllApplied(fate, t, |before|)
  {
    forall b: nat | b < |before|
      ensures At(after[b], key) == if Applies(fate(t + b)) then Some(item) else At(before[0], key)
    {
      assert At(after[b], key) == At(mid[b], key);
      assert At(before[b], key) == At(before[0], key);
    }
    var done: nat :| t <= done < t + |before| && fate(done) == Done;
    assert At(after[done - t], key) == Some(item);
    if Agree(after, key) {
      forall a: nat | t <= a < t + |before|
        ensures Applies(fate(a))
      {
        assert At(after[a - t], key) == At(after[done - t], key);
      }
    }
  }

  /** From the sealed index on: the pointer, then the pages where it arrived.
      The pointer's first write is attempt number cluster.attempts. */
  method CommitRemoval(
    cluster: Cluster, settings: Settings, channel: string, version: string, seal: string, index: Index,
    ghost existing: Index)
    returns (outcome: Outcome, ghost plan: Plan)
    requires cluster.Valid() && IsCurrent(cluster.stores, channel, settings.trusts, existing)
    requires Removes(existing, version, index) && index.versions != []
    modifies cluster
    ensures cluster.Valid() && old(cluster.attempts) <= cluster.attempts
    ensures plan == RemovalPlan(channel, version).(pointer := Some(IndexPointer(channel, index, seal)))
    ensures Step(cluster.measure, plan, old(cluster.stores), cluster.stores)
    ensures outcome ==
      if cluster.Stops(old(cluster.attempts), cluster.attempts) then Failed(Interrupted)
      else if SomeDone(cluster.fate, old(cluster.attempts), |cluster.stores|) then Published(index)
      else Failed(WriteFailed([]))
    ensures outcome.Published? ==>
      (Agree(cluster.stores, plan.doc) <==> AllApplied(cluster.fate, old(cluster.attempts), |cluster.stores|))
    ensures outcome.Published? && cluster.Smooth(old(cluster.attempts), cluster.attempts) && AllDelete(cluster) ==>
      Withdrawn(cluster.stores, plan, channel, version, index) &&
      (AllSound(cluster.measure, old(cluster.stores)) ==> NewestIsLatest(cluster.stores, channel, index))
  {
    hide Within, OnlyPut, OnlyPages, Supersedes, Step, IsSelection, IsCurrent, Removes, Agree, Rewritten, Tried,
      Withdrawn, NewestIsLatest, LatestUp, IsNewest, Readable, AllSound, CasSound, IsHexDigest, AllApplied;
    ghost var start, t := cluster.stores, cluster.attempts;
    var pointer := IndexPointer(channel, index, seal);
    plan := RemovalPlan(channel, version).(pointer := Some(pointer));
    var committed, halted := PutWhereverPossible(cluster, IndexKey(channel), pointer);
    ghost var mid := cluster.stores;
    NoPages(committed, mid);
    PointerArrived(cluster, t, plan.doc, pointer, start, mid, committed);
    CommittedRemoval(
      cluster.measure, settings.trusts, channel, version, plan, committed, start, mid, mid, existing, index, seal);
    if halted {
      return Failed(Interrupted), plan;
    }
    if |committed| == 0 {
      forall a: nat | t <= a < t + |start|
        ensures cluster.fate(a) != Done
      {
        assert (a - t) !in committed;
      }
      return Failed(WriteFailed([])), plan;
    }
    assert SomeDone(cluster.fate, t, |start|) by {
      assert committed[0] in committed && cluster.fate(t + committed[0]) == Done;
    }
    var undeleted, halted' := DeleteReleaseDoc(cluster, committed, channel, version);
    ghost var deleted := cluster.stores;
    ghost var head: VersionNode;
    var failures := 0;
    if !halted' {
      failures, halted', head := RewriteWebPointers(cluster, settings, channel, committed, index);
      OnlyPagesCompose(committed, mid, deleted, cluster.stores);
    }
    CommittedRemoval(
      cluster.measure, settings.trusts, channel, version, plan, committed, start, mid, cluster.stores, existing,
      index, seal);
    if halted' {
      return Failed(Interrupted), plan;
    }
    OldPointerDiffers(channel, settings.trusts, version, start, existing, index, seal);
    DivergesIffMissed(cluster.fate, t, plan.doc, pointer, committed, start, mid, cluster.stores);
    if cluster.Smooth(old(cluster.attempts), cluster.attempts) && AllDelete(cluster) {
      AllSelected(committed, |start|);
      AllWithdrawn(plan, channel, version, index, committed, mid, deleted, cluster.stores);
      if AllSound(cluster.measure, start) {
        NewestIsReadable(
          cluster.measure, settings.trusts, channel, version, plan, pointer, committed, start, mid, deleted,
          existing, index, head);
        LatestEverywhere(cluster.stores, committed, channel, index, head);
      }
    }
    outcome := Published(index);
  }

  /** Unlike a publish, a removal that reached only some backends reports
      success: unless the process stops, it succeeds exactly when some backend
      acknowledged the new pointer, and then the backends disagree exactly when
      some write of it was not applied. The reads come first, one for each
      backend, and the writes of the pointer next. */
  method Unpublish(
    cluster: Cluster, settings: Settings, channel: string, version: string, seal: string, dryRun: bool)
    returns (outcome: Outcome, ghost plan: Plan, ghost existing: Index)
    requires cluster.Valid()
    modifies cluster
    ensures cluster.Valid() && old(cluster.attempts) <= cluster.attempts
    ensures plan == RemovalPlan(channel, version).(pointer := plan.pointer)
    ensures Step(cluster.measure, plan, old(cluster.stores), cluster.stores)
    ensures plan.pointer.None? ==>
      && cluster.stores == old(cluster.stores) && cluster.attempts <= old(cluster.attempts) + |cluster.stores|
      && ((outcome.Validated? && dryRun) ||
          (outcome.Failed? && RefusedFor(
             old(cluster.stores), settings, channel, version, existing,
             cluster.Smooth(old(cluster.attempts), cluster.attempts), outcome.failure)))
    ensures dryRun ==> cluster.stores == old(cluster.stores) && plan.pointer.None? && !outcome.Published?
    ensures outcome.Validated? ==> dryRun && Removable(old(cluster.stores), settings, channel, version, existing)
    ensures dryRun && outcome.Failed? ==> IsRemovalCheck(outcome.failure)
    ensures dryRun && cluster.Smooth(old(cluster.attempts), cluster.attempts) ==>
      (outcome.Validated? <==> exists current :: Removable(old(cluster.stores), settings, channel, version, current))
    ensures !dryRun && cluster.Smooth(old(cluster.attempts), cluster.attempts) ==>
      forall current | Removable(old(cluster.stores), settings, channel, version, current) ::
        plan.pointer.Some? <==> settings.clientsVerify && RemovalValidates(current, version)
    ensures plan.pointer.Some? ==>
      && !dryRun && settings.clientsVerify && RemovalValidates(existing, version)
      && Removable(old(cluster.stores), settings, channel, version, existing)
      && plan.pointer.value.IndexPointer?
      && plan.pointer.value == IndexPointer(channel, plan.pointer.value.index, seal)
      && IsCurrent(old(cluster.stores), channel, settings.trusts, existing)
      && Removes(existing, version, plan.pointer.value.index) && ErrorFree(plan.pointer.value.index)
    ensures outcome == Failed(Interrupted) <==> cluster.Stops(old(cluster.attempts), cluster.attempts)
    ensures plan.pointer.Some? && outcome != Failed(Interrupted) ==>
      outcome ==
        if SomeDone(cluster.fate, old(cluster.attempts) + |cluster.stores|, |cluster.stores|)
        then Published(plan.pointer.value.index) else Failed(WriteFailed([]))
    ensures outcome.Published? ==>
      && plan.pointer == Some(IndexPointer(channel, outcome.index, seal))
      && (Agree(cluster.stores, plan.doc) <==>
          AllApplied(cluster.fate, old(cluster.attempts) + |cluster.stores|, |cluster.stores|))
    ensures outcome.Published? && cluster.Smooth(old(cluster.attempts), cluster.attempts) && AllDelete(cluster) ==>
      Withdrawn(cluster.stores, plan, channel, version, outcome.index) &&
      (AllSound(cluster.measure, old(cluster.stores)) ==> NewestIsLatest(cluster.stores, channel, outcome.index))
  {
    hide Step, IsCurrent, ErrorFree, Removes, Agree, RefusedFor, Withdrawn, NewestIsLatest, AllSound, CasSound,
      IsHexDigest, AllApplied, SomeDone, Removable, RemovalValidates;
    plan := RemovalPlan(channel, version);
    IdleStep(cluster.measure, plan, cluster.stores);
    var planned, current := PlanRemoval(cluster, settings, channel, version, dryRun);
    existing := current;
    if planned.Err? {
      forall c |
        dryRun && planned.error.Failed? && Removable(cluster.stores, settings, channel, version, c)
      {
        RemovableIsNotRefused(
          cluster.stores, settings, channel, version, c, existing, planned.error.failure);
      }
      forall c |
        !dryRun && planned.error.Failed? && Removable(cluster.stores, settings, channel, version, c) &&
        cluster.Smooth(old(cluster.attempts), cluster.attempts)
      {
        RefusedIsNotValid(cluster.stores, settings, channel, version, c, existing, planned.error.failure);
      }
      return planned.error, plan, existing;
    }
    RemovableIsCurrent(cluster.stores, settings, channel, version, existing);
    outcome, plan := CommitRemoval(cluster, settings, channel, version, seal, planned.value, existing);
  }

  lemma RemovableIsCurrent(
    stores: seq<Store>, settings: Settings, channel: string, version: string, existing: Index)
    requires IsCurrent(stores, channel, settings.trusts, existing)
    ensures forall c | Removable(stores, settings, channel, version, c) :: c == existing
  {}

  lemma OldPointerDiffers(
    channel: string, trusts: string -> bool, version: string, stores: seq<Store>, existing: Index, index: Index,
    seal: string)
    requires IsCurrent(stores, channel, trusts, existing) && Removes(existing, version, index)
    ensures Agree(stores, IndexKey(channel)) && stores != []
    ensures At(stores[0], IndexKey(channel)) != Some(IndexPointer(channel, index, seal))
  {}

  // ---------------------------------------------------------------------
  // A removal that succeeds and leaves the backends disagreeing
  // ---------------------------------------------------------------------

  lemma OneRemains(first: VersionNode, second: VersionNode, index: Index)
    requires first.version != second.version
    requires Removes(Index(1, [first, second], None), second.version, index)
    ensures index.versions == [first] && index.minSupported.None?
  {
    var both := [first, second];
    assert both[..1] == [first] && [first][..0] == [];
    assert Others([first], second.version) == [first];
    assert Others(both, second.version) == [first];
    assert |multiset(index.versions)| == |multiset([first])| == 1;
    PermutationKeepsMembers(index.versions, [first]);
    assert index.versions[0] in index.versions;
  }

  /** Two backends agree on an index of two versions; both reads and the first
      write of the new pointer are done, the second write fails. */
  method PartialRemovalSucceeds(measure: Measure, place: (nat, Key) -> string)
    returns (outcome: Outcome, stores: seq<Store>)
    requires IsHexDigest(measure)
    ensures outcome.Published? && |stores| == 2 && !Agree(stores, IndexKey("stable"))
  {
    hide Removes, Step, ErrorFree;
    var reference := ManifestRef("", 0, []);
    var first := VersionNode("1.0", 1, 0, false, reference);
    var second := VersionNode("2.0", 2, 0, false, reference);
    var index := Index(1, [first, second], None);
    var store := map[IndexKey("stable") := IndexPointer("stable", index, "seal")];
    var cluster := new Cluster(measure, [true, true], place, t => if t == 3 then Fails else Done);
    cluster.stores := [store, store];
    var settings := Settings(0, seal => true, true, ["stable"], None);
    ghost var plan, existing;
    outcome, plan, existing := Unpublish(cluster, settings, "stable", "2.0", "seal", false);
    stores := cluster.stores;
    assert !cluster.Stops(0, cluster.attempts);
    if plan.pointer.None? {
      RemovalIsNotRefused(first, second, settings, [store, store], existing, outcome.failure);
      assert false;
    }
    assert cluster.fate(2) == Done && !Applies(cluster.fate(3));
  }

  lemma RemovalIsNotRefused(
    first: VersionNode, second: VersionNode, settings: Settings, stores: seq<Store>, existing: Index,
    failure: Failure)
    requires first.version != second.version && !first.yanked && settings.clientsVerify
    requires |stores| == 2 && stores[0] == stores[1] && settings.trusts("seal")
    requires At(stores[0], IndexKey("stable")) ==
      Some(IndexPointer("stable", Index(1, [first, second], None), "seal"))
    ensures !RefusedFor(stores, settings, "stable", second.version, existing, true, failure)
  {
    hide Removes, ErrorFree;
    var versions := [first, second];
    assert versions[0] in versions && versions[1] in versions;
    if failure == InvalidIndex {
      forall index | Removes(Index(1, versions, None), second.version, index)
        ensures ErrorFree(index)
      {
        OneRemains(first, second, index);
        OneVersionIsErrorFree(index, first);
      }
    }
  }

  // ---------------------------------------------------------------------
  // A dry run that passes a removal which is then refused
  // ---------------------------------------------------------------------

  /** Without the middle version the oldest clients cannot reach the newest. */
  lemma FirstIsStranded(first: VersionNode, second: VersionNode, third: VersionNode, index: Index)
    requires first.version != second.version && second.version != third.version
    requires first.code < third.code && first.code < third.minFrom && !third.yanked && first.minFrom <= first.code
    requires Removes(Index(1, [first, second, third], None), second.version, index)
    ensures !ErrorFree(index)
  {
    var existing := Index(1, [first, second, third], None);
    hide Removes;
    forall n
      ensures n in index.versions <==> n == first || n == third
    {
      RemainingWereListed(existing, second.version, index, n);
      if n == first {
        assert existing.versions[0] == n;
      }
      if n == third {
        assert existing.versions[2] == n;
      }
    }
    assert first in index.versions && third in index.versions;
    assert NextTarget(index.versions, first.code).None?;
    assert Walk(index.versions, first.code) == [];
    assert Strands(index.versions, first.code);
    assert Holds(index, Unreachable);
  }

  /** Three versions, the third of which takes clients from the second on: with
      nothing going wrong a dry run passes the removal of the second, and the
      removal itself is refused, for the dry run stops before reachability. */
  method DryRunOverlooksReachability(measure: Measure, place: (nat, Key) -> string)
    returns (dry: Outcome, wet: Outcome)
    requires IsHexDigest(measure)
    ensures dry.Validated? && wet == Failed(InvalidIndex)
  {
    hide Removes, Step, ErrorFree;
    var reference := ManifestRef("", 0, []);
    var first := VersionNode("1.0", 1, 0, false, reference);
    var second := VersionNode("2.0", 2, 0, false, reference);
    var third := VersionNode("3.0", 3, 2, false, reference);
    var index := Index(1, [first, second, third], None);
    var cluster := new Cluster(measure, [true], place, t => Done);
    cluster.stores := [map[IndexKey("stable") := IndexPointer("stable", index, "seal")]];
    var settings := Settings(0, seal => true, true, ["stable"], None);
    ghost var plan, existing;
    MiddleIsRemovable(cluster.stores, settings, first, second, third);
    dry, plan, existing := Unpublish(cluster, settings, "stable", "2.0", "seal", true);
    ghost var t := cluster.attempts;
    wet, plan, existing := Unpublish(cluster, settings, "stable", "2.0", "seal", false);
    assert !cluster.Stops(t, cluster.attempts);
    if plan.pointer.Some? {
      FirstIsStranded(first, second, third, plan.pointer.value.index);
      assert false;
    }
    MiddleIsRefusedFor(cluster.stores, settings, first, second, third, existing, wet.failure);
  }

  lemma MiddleIsRemovable(
    stores: seq<Store>, settings: Settings, first: VersionNode, second: VersionNode, third: VersionNode)
    requires first.version != second.version && second.version != third.version
    requires |stores| == 1 && settings.trusts("seal")
    requires At(stores[0], IndexKey("stable")) ==
      Some(IndexPointer("stable", Index(1, [first, second, third], None), "seal"))
    ensures Removable(stores, settings, "stable", second.version, Index(1, [first, second, third], None))
  {
    var versions := [first, second, third];
    assert versions[1].version == second.version && versions[0] in versions;
  }

  lemma MiddleIsRefusedFor(
    stores: seq<Store>, settings: Settings, first: VersionNode, second: VersionNode, third: VersionNode,
    existing: Index, failure: Failure)
    requires first.version != second.version && second.version != third.version
    requires |stores| == 1 && settings.trusts("seal")
    requires settings.clientsVerify
    requires At(stores[0], IndexKey("stable")) ==
      Some(IndexPointer("stable", Index(1, [first, second, third], None), "seal"))
    requires RefusedFor(stores, settings, "stable", second.version, existing, true, failure)
    ensures failure == InvalidIndex
  {
    MiddleIsRemovable(stores, settings, first, second, third);
    if IsRemovalCheck(failure) {
      RemovableIsNotRefused(
        stores, settings, "stable", second.version, Index(1, [first, second, third], None), existing, failure);
    }
  }
}
