/** Dropping content-addressed blobs after a publish pruned versions: only what
    the pruned versions named and nothing still names
    (internal/publish/cas_gc.go). */
module CasSweep {
  import opened Wrappers
  import opened Documents
  import opened Backends
  import Sets

  // ---------------------------------------------------------------------
  // What names a digest
  // ---------------------------------------------------------------------

  /** Named by the manifest stored for a version. */
  ghost predicate NamedByVersion(store: Store, version: string, digest: string) {
    var item := At(store, ManifestKey(version));
    digest != "" && item.Some? && item.value.ManifestDoc? &&
    exists i :: 0 <= i < |item.value.manifest.artifacts| && item.value.manifest.artifacts[i].sha256 == digest
  }

  ghost predicate NamedByNodes(store: Store, nodes: seq<VersionNode>, digest: string) {
    exists n :: 0 <= n < |nodes| && nodes[n].version != "" && NamedByVersion(store, nodes[n].version, digest)
  }

  /** What the product lists on a channel, the channel being published taken as
      it was just committed. */
  function ListedOn(store: Store, published: Index, current: string, channel: string): seq<VersionNode> {
    if channel == current then published.versions
    else
      var item := At(store, IndexKey(channel));
      if item.Some? && item.value.IndexPointer? then item.value.index.versions else []
  }

  ghost predicate NamedByStaged(staged: seq<StagedArtifact>, digest: string) {
    digest != "" && exists i :: 0 <= i < |staged| && staged[i].sha256 == digest
  }

  /** Named by the staged release, or by a version listed on one of the channels. */
  ghost predicate StillNamed(
    store: Store, published: Index, current: string, channels: seq<string>, staged: seq<StagedArtifact>, digest: string)
  {
    NamedByStaged(staged, digest) ||
    exists c :: 0 <= c < |channels| && NamedByNodes(store, ListedOn(store, published, current, channels[c]), digest)
  }

  /** What the staged release holds is still named, and so is what the manifest
      of a listed version names: a version of the index just committed, or of the
      index that the backend holds for another channel of the product. */
  lemma ListedContentIsNamed(
    store: Store, published: Index, current: string, channels: seq<string>, staged: seq<StagedArtifact>,
    channel: string, versions: seq<VersionNode>, node: VersionNode, manifest: Manifest, a: Artifact)
    requires channel in channels && node in versions && node.version != "" && a.sha256 != ""
    requires
      if channel == current then versions == published.versions
      else exists index, seal ::
        At(store, IndexKey(channel)) == Some(IndexPointer(channel, index, seal)) && versions == index.versions
    requires At(store, ManifestKey(node.version)) == Some(ManifestDoc(manifest)) && a in manifest.artifacts
    ensures StillNamed(store, published, current, channels, staged, a.sha256)
    ensures forall s | s in staged && s.sha256 != "" ::
      StillNamed(store, published, current, channels, staged, s.sha256)
  {
    var i :| 0 <= i < |manifest.artifacts| && manifest.artifacts[i] == a;
    assert NamedByVersion(store, node.version, a.sha256);
    var n :| 0 <= n < |versions| && versions[n] == node;
    assert NamedByNodes(store, versions, a.sha256);
    var c :| 0 <= c < |channels| && channels[c] == channel;
  }

  // ---------------------------------------------------------------------
  // Collecting the digests
  // ---------------------------------------------------------------------

  /** A read that fails yields no digests. */
  method DigestsFromManifest(cluster: Cluster, b: nat, version: string)
    returns (digests: set<string>, halted: bool, ghost read: bool)
    requires b < |cluster.stores|
    modifies cluster`attempts
    ensures old(cluster.attempts) <= cluster.attempts
    ensures forall d | d in digests :: NamedByVersion(cluster.stores[b], version, d)
    ensures read && !halted ==> forall d | NamedByVersion(cluster.stores[b], version, d) :: d in digests
    ensures cluster.Answered(old(cluster.attempts), cluster.attempts) ==> read
    ensures cluster.Smooth(old(cluster.attempts), cluster.attempts) ==> !halted
  {
    var reply, found := cluster.Get(b, ManifestKey(version));
    halted, read := reply == Stopped, reply != Refused;
    digests := {};
    if found.None? || !found.value.ManifestDoc? {
      return;
    }
    var artifacts := found.value.manifest.artifacts;
    for i := 0 to |artifacts|
      invariant forall d :: d in digests <==> d != "" && exists j :: 0 <= j < i && artifacts[j].sha256 == d
    {
      if artifacts[i].sha256 != "" {
        digests := digests + {artifacts[i].sha256};
      }
    }
  }

  /** Everything the manifests of these versions name. */
  method DigestsFromNodes(cluster: Cluster, b: nat, nodes: seq<VersionNode>)
    returns (digests: set<string>, halted: bool, ghost read: bool)
    requires b < |cluster.stores|
    modifies cluster`attempts
    ensures old(cluster.attempts) <= cluster.attempts
    ensures forall d | d in digests :: NamedByNodes(cluster.stores[b], nodes, d)
    ensures cluster.Answered(old(cluster.attempts), cluster.attempts) ==> read
    ensures cluster.Smooth(old(cluster.attempts), cluster.attempts) ==> !halted
    ensures read && !halted ==> forall d | NamedByNodes(cluster.stores[b], nodes, d) :: d in digests
  {
    digests, halted, read := {}, false, true;
    for n := 0 to |nodes|
      invariant old(cluster.attempts) <= cluster.attempts
      invariant forall d | d in digests :: NamedByNodes(cluster.stores[b], nodes, d)
      invariant cluster.Answered(old(cluster.attempts), cluster.attempts) ==> read
      invariant read ==> forall d | NamedByNodes(cluster.stores[b], nodes[..n], d) :: d in digests
    {
      NamedByOneMore(cluster.stores[b], nodes, n);
      if nodes[n].version == "" {
        continue;
      }
      var more, stopped, got := DigestsFromManifest(cluster, b, nodes[n].version);
      if stopped {
        halted := true;
        return;
      }
      digests, read := digests + more, read && got;
    }
    assert nodes[..|nodes|] == nodes;
  }

  lemma NamedByOneMore(store: Store, nodes: seq<VersionNode>, n: nat)
    requires n < |nodes|
    ensures forall d :: NamedByNodes(store, nodes[..n + 1], d) <==>
      NamedByNodes(store, nodes[..n], d) || (nodes[n].version != "" && NamedByVersion(store, nodes[n].version, d))
  {}

  /** The live set already holds what these versions name. */
  ghost predicate Covers(store: Store, live: set<string>, seen: set<string>) {
    forall v, d | v in seen && NamedByVersion(store, v, d) :: d in live
  }

  /** Adds what one channel's versions name, each version once. */
  method AddListed(cluster: Cluster, b: nat, nodes: seq<VersionNode>, live: set<string>, seen: set<string>)
    returns (grown: set<string>, seenNow: set<string>, halted: bool, ghost read: bool)
    requires b < |cluster.stores|
    modifies cluster`attempts
    ensures old(cluster.attempts) <= cluster.attempts
    ensures live <= grown
    ensures forall d | d in grown :: d in live || NamedByNodes(cluster.stores[b], nodes, d)
    ensures cluster.Answered(old(cluster.attempts), cluster.attempts) ==> read
    ensures cluster.Smooth(old(cluster.attempts), cluster.attempts) ==> !halted
    ensures read && !halted && Covers(cluster.stores[b], live, seen) ==>
      && Covers(cluster.stores[b], grown, seenNow)
      && forall d | NamedByNodes(cluster.stores[b], nodes, d) :: d in grown
  {
    grown, seenNow, halted, read := live, seen, false, true;
    for n := 0 to |nodes|
      invariant old(cluster.attempts) <= cluster.attempts
      invariant live <= grown && seen <= seenNow
      invariant forall d | d in grown :: d in live || NamedByNodes(cluster.stores[b], nodes, d)
      invariant cluster.Answered(old(cluster.attempts), cluster.attempts) ==> read
      invariant forall i | 0 <= i < n && nodes[i].version != "" :: nodes[i].version in seenNow
      invariant read && Covers(cluster.stores[b], live, seen) ==> Covers(cluster.stores[b], grown, seenNow)
    {
      if nodes[n].version == "" || nodes[n].version in seenNow {
        continue;
      }
      seenNow := seenNow + {nodes[n].version};
      var more, stopped, got := DigestsFromManifest(cluster, b, nodes[n].version);
      if stopped {
        halted := true;
        return;
      }
      grown, read := grown + more, read && got;
    }
  }

  method LiveArtifactDigests(
    cluster: Cluster, b: nat, published: Index, current: string, channels: seq<string>, staged: seq<StagedArtifact>)
    returns (live: set<string>, halted: bool, ghost read: bool)
    requires b < |cluster.stores|
    modifies cluster`attempts
    ensures old(cluster.attempts) <= cluster.attempts
    ensures cluster.Answered(old(cluster.attempts), cluster.attempts) ==> read
    ensures cluster.Smooth(old(cluster.attempts), cluster.attempts) ==> !halted
    ensures forall d | d in live :: StillNamed(cluster.stores[b], published, current, channels, staged, d)
    ensures read && !halted ==>
      forall d | StillNamed(cluster.stores[b], published, current, channels, staged, d) :: d in live
  {
    live, halted, read := {}, false, true;
    for i := 0 to |staged|
      invariant forall j | 0 <= j < i && staged[j].sha256 != "" :: staged[j].sha256 in live
      invariant forall d | d in live :: NamedByStaged(staged, d)
    {
      if staged[i].sha256 != "" {
        live := live + {staged[i].sha256};
      }
    }
    ghost var fromStaged := live;
    var seen: set<string> := {};
    for c := 0 to |channels|
      invariant old(cluster.attempts) <= cluster.attempts
      invariant fromStaged <= live
      invariant forall d | d in live :: StillNamed(cluster.stores[b], published, current, channels, staged, d)
      invariant cluster.Answered(old(cluster.attempts), cluster.attempts) ==> read
      invariant read ==> Covers(cluster.stores[b], live, seen)
      invariant read ==> forall i, d | 0 <= i < c &&
        NamedByNodes(cluster.stores[b], ListedOn(cluster.stores[b], published, current, channels[i]), d) :: d in live
    {
      var nodes := published.versions;
      if channels[c] != current {
        var reply, found := cluster.Get(b, IndexKey(channels[c]));
        if reply == Stopped {
          halted := true;
          return;
        }
        read := read && reply != Refused;
        nodes := if found.Some? && found.value.IndexPointer? then found.value.index.versions else [];
      }
      var grown, seenNow, stopped, got := AddListed(cluster, b, nodes, live, seen);
      if stopped {
        halted := true;
        return;
      }
      live, seen, read := grown, seenNow, read && got;
    }
  }

  // ---------------------------------------------------------------------
  // Dropping the rest
  // ---------------------------------------------------------------------

  /** Some digest stored under this key is named by a pruned version and, if the
      reads went through, by nothing else any more. */
  ghost predicate Orphaned(
    store: Store, published: Index, current: string, channels: seq<string>,
    pruned: seq<VersionNode>, staged: seq<StagedArtifact>, key: Key, read: bool)
  {
    key.CasKey? &&
    exists d :: CasDigest(d) == Some(key.digest) && NamedByNodes(store, pruned, d) &&
      (read ==> !StillNamed(store, published, current, channels, staged, d))
  }

  /** Nothing is left that only pruned versions name. */
  ghost predicate NothingOrphaned(
    store: Store, published: Index, current: string, channels: seq<string>,
    pruned: seq<VersionNode>, staged: seq<StagedArtifact>)
  {
    forall d | NamedByNodes(store, pruned, d) && CasDigest(d).Some? &&
      !StillNamed(store, published, current, channels, staged, d) ::
      CasKey(CasDigest(d).value) !in store
  }

  /** Only content-addressed blobs go. */
  ghost predicate OnlyDropped(before: Store, after: Store, dropped: set<string>) {
    forall key :: At(after, key) == At(before, key) ||
      (key !in after && key.CasKey? && key.digest in dropped)
  }

  lemma SameNames(before: Store, after: Store, dropped: set<string>, nodes: seq<VersionNode>, digest: string)
    requires OnlyDropped(before, after, dropped)
    ensures NamedByNodes(after, nodes, digest) <==> NamedByNodes(before, nodes, digest)
  {}

  lemma SameLiveNames(
    before: Store, after: Store, dropped: set<string>, published: Index, current: string, channels: seq<string>,
    staged: seq<StagedArtifact>, digest: string)
    requires OnlyDropped(before, after, dropped)
    ensures StillNamed(after, published, current, channels, staged, digest) <==>
      StillNamed(before, published, current, channels, staged, digest)
  {
    forall c | 0 <= c < |channels|
      ensures NamedByNodes(after, ListedOn(after, published, current, channels[c]), digest) <==>
        NamedByNodes(before, ListedOn(before, published, current, channels[c]), digest)
    {
      assert At(after, IndexKey(channels[c])) == At(before, IndexKey(channels[c]));
      SameNames(before, after, dropped, ListedOn(before, published, current, channels[c]), digest);
    }
  }

  /** Dropping blobs changes nobody's references. */
  lemma OrphanedStays(
    before: Store, after: Store, dropped: set<string>, published: Index, current: string, channels: seq<string>,
    pruned: seq<VersionNode>, staged: seq<StagedArtifact>, key: Key)
    requires OnlyDropped(before, after, dropped)
    requires Orphaned(before, published, current, channels, pruned, staged, key, true)
    ensures Orphaned(after, published, current, channels, pruned, staged, key, true)
  {
    var d :| CasDigest(d) == Some(key.digest) && NamedByNodes(before, pruned, d) &&
      !StillNamed(before, published, current, channels, staged, d);
    SameNames(before, after, dropped, pruned, d);
    SameLiveNames(before, after, dropped, published, current, channels, staged, d);
  }

  /** Deletes the blob of every digest that is not live. */
  method DropDigests(cluster: Cluster, b: nat, digests: set<string>, live: set<string>)
    returns (halted: bool, ghost dropped: set<string>)
    requires cluster.Valid() && b < |cluster.stores|
    modifies cluster
    ensures cluster.Valid() && old(cluster.attempts) <= cluster.attempts
    ensures forall i | 0 <= i < |cluster.stores| && i != b :: cluster.stores[i] == old(cluster.stores)[i]
    ensures OnlyDropped(old(cluster.stores)[b], cluster.stores[b], dropped)
    ensures forall h | h in dropped :: exists d :: d in digests && d !in live && CasDigest(d) == Some(h)
    ensures cluster.Smooth(old(cluster.attempts), cluster.attempts) ==>
      !halted && forall d | d in digests && d !in live && CasDigest(d).Some? ::
        CasKey(CasDigest(d).value) !in cluster.stores[b]
  {
    hide CasDigest, CasSound, IsHexDigest;
    dropped, halted := {}, false;
    var rest := digests;
    while rest != {}
      invariant cluster.Valid() && |cluster.stores| == |old(cluster.stores)| && rest <= digests
      invariant old(cluster.attempts) <= cluster.attempts
      invariant forall i | 0 <= i < |cluster.stores| && i != b :: cluster.stores[i] == old(cluster.stores)[i]
      invariant OnlyDropped(old(cluster.stores)[b], cluster.stores[b], dropped)
      invariant forall h | h in dropped :: exists d :: d in digests && d !in live && CasDigest(d) == Some(h)
      invariant cluster.Smooth(old(cluster.attempts), cluster.attempts) ==>
        forall d | d in digests && d !in rest && d !in live && CasDigest(d).Some? ::
          CasKey(CasDigest(d).value) !in cluster.stores[b]
    {
      var digest := Sets.Pick(rest);
      rest := rest - {digest};
      if digest in live {
        continue;
      }
      var name := CasDigest(digest);
      if name.None? {
        continue;
      }
      var reply := cluster.Delete(b, CasKey(name.value));
      dropped := dropped + {name.value};
      if reply == Stopped {
        halted := true;
        return;
      }
    }
  }

  /** One backend's share of the sweep. */
  method SweepBackend(
    cluster: Cluster, b: nat, published: Index, current: string, channels: seq<string>,
    pruned: seq<VersionNode>, staged: seq<StagedArtifact>)
    returns (halted: bool, ghost dropped: set<string>, ghost read: bool)
    requires cluster.Valid() && b < |cluster.stores|
    modifies cluster
    ensures cluster.Valid() && old(cluster.attempts) <= cluster.attempts
    ensures forall i | 0 <= i < |cluster.stores| && i != b :: cluster.stores[i] == old(cluster.stores)[i]
    ensures OnlyDropped(old(cluster.stores)[b], cluster.stores[b], dropped)
    ensures forall h | h in dropped ::
      Orphaned(old(cluster.stores)[b], published, current, channels, pruned, staged, CasKey(h), read)
    ensures cluster.Smooth(old(cluster.attempts), cluster.attempts) ==> NothingOrphaned(
      cluster.stores[b], published, current, channels, pruned, staged)
    ensures cluster.Answered(old(cluster.attempts), cluster.attempts) ==> read
    ensures cluster.Smooth(old(cluster.attempts), cluster.attempts) ==> !halted
  {
    hide CasDigest, NamedByNodes, StillNamed;
    dropped, halted := {}, false;
    var live, stopped, got := LiveArtifactDigests(cluster, b, published, current, channels, staged);
    read := got;
    if stopped {
      halted := true;
      return;
    }
    var digests, stopped', got' := DigestsFromNodes(cluster, b, pruned);
    if stopped' {
      halted := true;
      return;
    }
    ghost var before := cluster.stores[b];
    halted, dropped := DropDigests(cluster, b, digests, live);
    forall d
      ensures NamedByNodes(cluster.stores[b], pruned, d) <==> NamedByNodes(before, pruned, d)
      ensures StillNamed(cluster.stores[b], published, current, channels, staged, d) <==>
        StillNamed(before, published, current, channels, staged, d)
    {
      SameNames(before, cluster.stores[b], dropped, pruned, d);
      SameLiveNames(before, cluster.stores[b], dropped, published, current, channels, staged, d);
    }
  }

  lemma NothingDropped(store: Store)
    ensures OnlyDropped(store, store, {})
  {}

  method SweepOrphans(
    cluster: Cluster, published: Index, current: string, channels: seq<string>,
    pruned: seq<VersionNode>, staged: seq<StagedArtifact>, targets: seq<nat>)
    returns (halted: bool, ghost dropped: seq<set<string>>, ghost read: bool)
    requires cluster.Valid() && forall i | 0 <= i < |targets| :: targets[i] < |cluster.stores|
    requires forall i, j | 0 <= i < j < |targets| :: targets[i] != targets[j]
    modifies cluster
    ensures cluster.Valid() && old(cluster.attempts) <= cluster.attempts
    ensures |dropped| == |cluster.stores|
    ensures forall b | 0 <= b < |cluster.stores| ::
      && OnlyDropped(old(cluster.stores)[b], cluster.stores[b], dropped[b])
      && (pruned == [] || b !in targets || !cluster.ingest[b] ==> cluster.stores[b] == old(cluster.stores)[b])
      && forall h | h in dropped[b] ::
           Orphaned(old(cluster.stores)[b], published, current, channels, pruned, staged, CasKey(h), read)
    ensures pruned != [] && cluster.Smooth(old(cluster.attempts), cluster.attempts) ==>
      forall i | 0 <= i < |targets| && cluster.ingest[targets[i]] :: NothingOrphaned(
        cluster.stores[targets[i]], published, current, channels, pruned, staged)
    ensures cluster.Answered(old(cluster.attempts), cluster.attempts) ==> read
    ensures cluster.Smooth(old(cluster.attempts), cluster.attempts) ==> !halted
  {
    hide NothingOrphaned, OnlyDropped, NamedByNodes, StillNamed, CasSound, IsHexDigest;
    halted, read := false, true;
    dropped := seq(|cluster.stores|, _ => {});
    forall b | 0 <= b < |cluster.stores| {
      NothingDropped(cluster.stores[b]);
    }
    if pruned == [] {
      return;
    }
    for i := 0 to |targets|
      invariant cluster.Valid() && |cluster.stores| == |old(cluster.stores)| == |dropped|
      invariant old(cluster.attempts) <= cluster.attempts
      invariant forall b | 0 <= b < |cluster.stores| && b !in targets[..i] ::
        cluster.stores[b] == old(cluster.stores)[b] && dropped[b] == {}
      invariant forall b | 0 <= b < |cluster.stores| ::
        OnlyDropped(old(cluster.stores)[b], cluster.stores[b], dropped[b])
      invariant forall b | 0 <= b < |cluster.stores| && !cluster.ingest[b] ::
        cluster.stores[b] == old(cluster.stores)[b]
      invariant cluster.Smooth(old(cluster.attempts), cluster.attempts) ==>
        forall j | 0 <= j < i && cluster.ingest[targets[j]] :: NothingOrphaned(
          cluster.stores[targets[j]], published, current, channels, pruned, staged)
      invariant forall b, h | 0 <= b < |cluster.stores| && h in dropped[b] ::
        Orphaned(old(cluster.stores)[b], published, current, channels, pruned, staged, CasKey(h), read)
      invariant cluster.Answered(old(cluster.attempts), cluster.attempts) ==> read
    {
      var b := targets[i];
      assert b !in targets[..i];
      assert targets[..i + 1] == targets[..i] + [b];
      if !cluster.ingest[b] {
        continue;
      }
      var stopped, gone, got := SweepBackend(cluster, b, published, current, channels, pruned, staged);
      dropped := dropped[b := gone];
      read := read && got;
      if stopped {
        halted := true;
        return;
      }
    }
  }

  // ---------------------------------------------------------------------
  // Safety
  // ---------------------------------------------------------------------

  /** With every read answered, content still named under its lower-case digest
      is dropped exactly when a pruned manifest spells that digest in another way
      that nothing still uses. */
  lemma StillNamedIsDroppedIff(
    store: Store, published: Index, current: string, channels: seq<string>,
    pruned: seq<VersionNode>, staged: seq<StagedArtifact>, digest: string)
    requires StillNamed(store, published, current, channels, staged, digest) && CasDigest(digest) == Some(digest)
    ensures Orphaned(store, published, current, channels, pruned, staged, CasKey(digest), true) <==>
      exists d :: d != digest && CasDigest(d) == Some(digest) && NamedByNodes(store, pruned, d) &&
        !StillNamed(store, published, current, channels, staged, d)
  {}

  /** So with digests in lower case the sweep is safe. */
  lemma StillNamedContentStays(
    before: Store, after: Store, published: Index, current: string, channels: seq<string>,
    pruned: seq<VersionNode>, staged: seq<StagedArtifact>, dropped: set<string>, digest: string)
    requires OnlyDropped(before, after, dropped)
    requires forall h | h in dropped ::
      Orphaned(before, published, current, channels, pruned, staged, CasKey(h), true)
    requires forall d | NamedByNodes(before, pruned, d) && CasDigest(d).Some? :: CasDigest(d) == Some(d)
    requires StillNamed(before, published, current, channels, staged, digest) && CasDigest(digest) == Some(digest)
    ensures At(after, CasKey(digest)) == At(before, CasKey(digest))
  {}
}
