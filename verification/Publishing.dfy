/** Publishing a release to a set of backends: artifacts first, then the
    manifest, then the signed pointer, then what is derived from it
    (internal/publish/publish.go). */
module Publishing {
  import opened Wrappers
  import opened Documents
  import opened Sorting
  import opened Chain
  import opened Retention
  import opened Backends
  import opened Commit

  datatype Staged = Staged(version: string, channel: string, code: int, minFrom: int, artifacts: seq<StagedArtifact>)

  /** What a run takes from the product's configuration: how many versions to
      keep, whose seals to trust, whether the configured client keys accept the
      new seal, the product's channels, and the site's own text if it has any. */
  datatype Settings = Settings(
    retainVersions: int,
    trusts: string -> bool,
    clientsVerify: bool,
    channels: seq<string>,
    site: Option<string>)

  datatype Failure =
    | PartialRetired
    | StagingMismatch
    | Unreadable
    | Divergent
    | CodeNotMonotonic
    | InvalidIndex
    | UploadFailed
    | ClientsWouldReject
    | WriteFailed(written: seq<nat>)
    | NothingPublished
    | Corrupt
    | NotListed
    | OnlyVersion
    | Interrupted

  datatype Outcome = Published(index: Index) | Validated | Failed(failure: Failure)

  // ---------------------------------------------------------------------
  // Reading what is there
  // ---------------------------------------------------------------------

  const EMPTY_INDEX := Index(0, [], None)

  predicate Legible(item: Item, channel: string, trusts: string -> bool) {
    item.IndexPointer? && trusts(item.seal) && item.channel == channel
  }

  predicate SomeIllegible(item: Option<Item>, channel: string, trusts: string -> bool) {
    item.Some? && !Legible(item.value, channel, trusts)
  }

  /** What a run takes to be the current index. */
  ghost predicate IsCurrent(stores: seq<Store>, channel: string, trusts: string -> bool, index: Index) {
    && stores != [] && Agree(stores, IndexKey(channel))
    && match At(stores[0], IndexKey(channel))
       case None => index == EMPTY_INDEX
       case Some(item) => Legible(item, channel, trusts) && index == item.index
  }

  /** Every backend must answer, every index must verify, and all backends must
      hold the same bytes. */
  method ReadExistingIndexes(cluster: Cluster, channel: string, trusts: string -> bool)
    returns (r: Result<Index, Failure>)
    requires cluster.Valid()
    modifies cluster`attempts
    ensures old(cluster.attempts) <= cluster.attempts <= old(cluster.attempts) + |cluster.stores|
    ensures r.Ok? ==> IsCurrent(cluster.stores, channel, trusts, r.value)
    ensures r.Ok? ==>
      cluster.attempts == old(cluster.attempts) + |cluster.stores| &&
      cluster.Smooth(old(cluster.attempts), cluster.attempts)
    ensures r.Err? ==> r.error in {Unreadable, Divergent, Interrupted}
    ensures r == Err(Divergent) ==> !Agree(cluster.stores, IndexKey(channel))
    ensures r == Err(Interrupted) <==> cluster.Stops(old(cluster.attempts), cluster.attempts)
    ensures cluster.Smooth(old(cluster.attempts), cluster.attempts) && r.Err? ==>
      !Agree(cluster.stores, IndexKey(channel)) ||
      SomeIllegible(At(cluster.stores[0], IndexKey(channel)), channel, trusts)
  {
    var key := IndexKey(channel);
    var raw: seq<Option<Item>> := [];
    var anyParsed := false;
    for b := 0 to |cluster.stores|
      invariant cluster.attempts == old(cluster.attempts) + b
      invariant cluster.Smooth(old(cluster.attempts), cluster.attempts)
      invariant |raw| == b && forall i | 0 <= i < b :: raw[i] == At(cluster.stores[i], key)
      invariant forall i | 0 <= i < b && raw[i].Some? :: Legible(raw[i].value, channel, trusts)
      invariant anyParsed <==> exists i :: 0 <= i < b && raw[i].Some?
    {
      var reply, found := cluster.Get(b, key);
      if reply != Acked {
        return Err(if reply == Stopped then Interrupted else Unreadable);
      }
      raw := raw + [found];
      if found.None? {
        continue;
      }
      if !Legible(found.value, channel, trusts) {
        return Err(Unreadable);
      }
      anyParsed := true;
    }
    if !anyParsed {
      return Ok(EMPTY_INDEX);
    }
    for b := 1 to |raw|
      invariant forall i | 0 <= i < b :: raw[i] == raw[0]
    {
      if raw[0] != raw[b] {
        return Err(Divergent);
      }
    }
    var newest: Option<Index> := None;
    for b := 0 to |raw|
      invariant newest.Some? ==> raw[0].Some? && newest.value == raw[0].value.index
      invariant b > 0 ==> newest.Some?
    {
      var index := raw[b].value.index;
      if newest.None? || index.sequence > newest.value.sequence {
        newest := Some(index);
      }
    }
    r := Ok(newest.value);
  }

  /** The gate on the new code. */
  method CheckCodeMonotonic(existing: Index, code: int, allowBackfill: bool) returns (ok: bool)
    ensures ok <==> allowBackfill || forall n | n in existing.versions :: n.code < code
  {
    if |existing.versions| == 0 {
      return true;
    }
    var highest := existing.versions[0].code;
    for i := 1 to |existing.versions|
      invariant exists j :: 0 <= j < i && existing.versions[j].code == highest
      invariant forall j | 0 <= j < i :: existing.versions[j].code <= highest
    {
      if existing.versions[i].code > highest {
        highest := existing.versions[i].code;
      }
    }
    if code > highest {
      return true;
    }
    ghost var j :| 0 <= j < |existing.versions| && existing.versions[j].code == highest;
    assert existing.versions[j] in existing.versions;
    ok := allowBackfill;
  }

  /** The code is published on the channel. */
  ghost predicate CodeOn(stores: seq<Store>, channel: string, trusts: string -> bool, code: int) {
    exists index, n ::
      IsCurrent(stores, channel, trusts, index) && 0 <= n < |index.versions| && index.versions[n].code == code
  }

  /** The floor a release code is claimed above: the highest code on any channel. */
  method HighestPublishedCode(cluster: Cluster, channels: seq<string>, trusts: string -> bool)
    returns (r: Result<int, Failure>)
    requires cluster.Valid()
    modifies cluster`attempts
    ensures r.Ok? ==> forall c, code | 0 <= c < |channels| && CodeOn(cluster.stores, channels[c], trusts, code) ::
      code <= r.value
    ensures r.Ok? && r.value != 0 ==>
      exists c :: 0 <= c < |channels| && CodeOn(cluster.stores, channels[c], trusts, r.value)
    ensures r.Err? && cluster.Smooth(old(cluster.attempts), cluster.attempts) ==>
      exists c :: 0 <= c < |channels| &&
        (!Agree(cluster.stores, IndexKey(channels[c])) ||
         SomeIllegible(At(cluster.stores[0], IndexKey(channels[c])), channels[c], trusts))
  {
    var highest := 0;
    for c := 0 to |channels|
      invariant old(cluster.attempts) <= cluster.attempts
      invariant forall i, code | 0 <= i < c && CodeOn(cluster.stores, channels[i], trusts, code) :: code <= highest
      invariant highest != 0 ==> exists i :: 0 <= i < c && CodeOn(cluster.stores, channels[i], trusts, highest)
    {
      var existing := ReadExistingIndexes(cluster, channels[c], trusts);
      if existing.Err? {
        return Err(existing.error);
      }
      var versions, before := existing.value.versions, highest;
      for v := 0 to |versions|
        invariant before <= highest
        invariant highest == before || exists i :: 0 <= i < v && versions[i].code == highest
        invariant forall i | 0 <= i < v :: versions[i].code <= highest
      {
        if versions[v].code > highest {
          highest := versions[v].code;
        }
      }
      assert highest != before ==> CodeOn(cluster.stores, channels[c], trusts, highest);
    }
    r := Ok(highest);
  }

  // ---------------------------------------------------------------------
  // The next index
  // ---------------------------------------------------------------------

  predicate ByCode(a: VersionNode, b: VersionNode) {
    a.code <= b.code
  }

  ghost predicate IsNewIndex(
    sequence: int, versions: seq<VersionNode>, minSupported: Option<int>, index: Index)
  {
    && index.sequence == sequence && index.minSupported == minSupported
    && multiset(index.versions) == multiset(versions) && SortedBy(ByCode, index.versions)
  }

  method NewIndex(sequence: int, versions: seq<VersionNode>, minSupported: Option<int>)
    returns (r: Option<Index>)
    ensures r.Some? <==> sequence >= 1 && versions != []
    ensures r.Some? ==> IsNewIndex(sequence, versions, minSupported, r.value)
  {
    if sequence < 1 || |versions| == 0 {
      return None;
    }
    var cloned := Sort(ByCode, versions);
    r := Some(Index(sequence, cloned, minSupported));
  }

  /** The index that follows `existing` when `node` is published and only the
      newest `keep` versions stay. */
  ghost predicate Follows(existing: Index, node: VersionNode, keep: int, index: Index, pruned: seq<VersionNode>) {
    exists retained ::
      && IsRetention(Merged(existing.versions, node), keep, retained, pruned)
      && IsNewIndex(NextSequence(existing.sequence), retained, existing.minSupported, index)
  }

  /** Publishing the node would leave an index that does not validate. */
  ghost predicate WouldNotValidate(existing: Index, node: VersionNode, keep: int) {
    NextSequence(existing.sequence) < 1 ||
    exists index, pruned :: Follows(existing, node, keep, index, pruned) && !ErrorFree(index)
  }

  /** Publishing the node would leave an index that validates. */
  ghost predicate WouldValidate(existing: Index, node: VersionNode, keep: int) {
    NextSequence(existing.sequence) >= 1 &&
    exists index, pruned :: Follows(existing, node, keep, index, pruned) && ErrorFree(index)
  }

  /** Where codes are distinct only one index can follow, so one of the two holds
      at most. */
  lemma ValidatesOrNot(existing: Index, node: VersionNode, keep: int)
    requires DistinctCodes(existing.versions)
    ensures !(WouldValidate(existing, node, keep) && WouldNotValidate(existing, node, keep))
  {
    hide Follows, ErrorFree, DistinctCodes;
    if WouldValidate(existing, node, keep) && WouldNotValidate(existing, node, keep) {
      var good, cut :| Follows(existing, node, keep, good, cut) && ErrorFree(good);
      var bad, cut' :| Follows(existing, node, keep, bad, cut') && !ErrorFree(bad);
      NextIndexIsUnique(existing, node, keep, good, cut, bad, cut');
    }
  }

  lemma NextIndexIsUnique(
    existing: Index, node: VersionNode, keep: int, a: Index, cutA: seq<VersionNode>, b: Index, cutB: seq<VersionNode>)
    requires DistinctCodes(existing.versions)
    requires Follows(existing, node, keep, a, cutA) && Follows(existing, node, keep, b, cutB)
    ensures a == b
  {
    hide IsRetention, DistinctCodes;
    var merged := Merged(existing.versions, node);
    var keptA := RetainedBehind(existing, node, keep, a, cutA);
    var keptB := RetainedBehind(existing, node, keep, b, cutB);
    MergedStaysDistinct(existing.versions, node);
    RetainedAreListed(merged, keep, keptA, cutA);
    RetainedAreListed(merged, keep, keptB, cutB);
    forall n
      ensures n in a.versions <==> n in b.versions
    {
      if n in merged {
        RetainedIff(merged, keep, keptA, cutA, n);
        RetainedIff(merged, keep, keptB, cutB, n);
      }
    }
    SortedOnce(a.versions, b.versions);
  }

  /** Distinct codes can be in ascending order in one way. */
  lemma {:induction false} SortedOnce(a: seq<VersionNode>, b: seq<VersionNode>)
    requires DistinctCodes(a) && DistinctCodes(b) && SortedBy(ByCode, a) && SortedBy(ByCode, b)
    requires forall n :: n in a <==> n in b
    ensures a == b
  {
    assert a != [] ==> a[0] in b;
    assert b != [] ==> b[0] in a;
    if a != [] {
      var lastA, lastB := |a| - 1, |b| - 1;
      assert a[lastA] in b && b[lastB] in a;
      assert a[lastA].code <= b[lastB].code by {
        var i :| 0 <= i < |b| && b[i] == a[lastA];
        assert i < lastB ==> ByCode(b[i], b[lastB]);
      }
      assert b[lastB].code <= a[lastA].code by {
        var i :| 0 <= i < |a| && a[i] == b[lastB];
        assert i < lastA ==> ByCode(a[i], a[lastA]);
      }
      var i :| 0 <= i < |b| && b[i] == a[lastA];
      assert i == lastB;
      forall n
        ensures n in a[..lastA] <==> n in b[..lastB]
      {
        InitWithoutLast(a, n);
        InitWithoutLast(b, n);
      }
      SortedOnce(a[..lastA], b[..lastB]);
      assert a == a[..lastA] + [a[lastA]] && b == b[..lastB] + [b[lastB]];
    }
  }

  lemma InitWithoutLast(s: seq<VersionNode>, n: VersionNode)
    requires DistinctCodes(s) && s != []
    ensures n in s[..|s| - 1] <==> n in s && n != s[|s| - 1]
  {
    assert s == s[..|s| - 1] + [s[|s| - 1]];
    if n in s[..|s| - 1] {
      var i :| 0 <= i < |s| - 1 && s[i] == n;
    }
  }

  /** The next index lists the retained versions, and codes stay distinct. */
  lemma RetainedBehind(existing: Index, node: VersionNode, keep: int, index: Index, pruned: seq<VersionNode>)
    returns (retained: seq<VersionNode>)
    requires Follows(existing, node, keep, index, pruned)
    ensures IsRetention(Merged(existing.versions, node), keep, retained, pruned)
    ensures index.minSupported == existing.minSupported
    ensures index.sequence == NextSequence(existing.sequence) && SortedBy(ByCode, index.versions)
    ensures forall n :: n in index.versions <==> n in retained
    ensures DistinctCodes(existing.versions) ==> DistinctCodes(index.versions)
  {
    var merged := Merged(existing.versions, node);
    retained :| IsRetention(merged, keep, retained, pruned) &&
      IsNewIndex(NextSequence(existing.sequence), retained, existing.minSupported, index);
    PermutationKeepsMembers(index.versions, retained);
    if DistinctCodes(existing.versions) {
      MergedStaysDistinct(existing.versions, node);
      RetainedStayDistinct(merged, keep, retained, pruned);
      var key := (n: VersionNode) => n.code;
      assert DistinctBy(key, retained);
      PermutationKeepsDistinct(key, retained, index.versions);
      forall i, j | 0 <= i < j < |index.versions|
        ensures index.versions[i].code != index.versions[j].code
      {
        assert key(index.versions[i]) != key(index.versions[j]);
      }
    }
  }

  /** No path changes by pruning: from the lowest listed code on a client walks
      the next index as it would walk all versions ever listed. */
  lemma NextIndexKeepsEveryPath(
    existing: Index, node: VersionNode, keep: int, index: Index, pruned: seq<VersionNode>,
    anchor: VersionNode, current: int)
    requires Follows(existing, node, keep, index, pruned) && DistinctCodes(existing.versions)
    requires anchor in index.versions && anchor.code <= current
    ensures Walk(index.versions, current) == Walk(Merged(existing.versions, node), current)
  {
    var merged := Merged(existing.versions, node);
    var retained := RetainedBehind(existing, node, keep, index, pruned);
    MergedStaysDistinct(existing.versions, node);
    RetainedStayDistinct(merged, keep, retained, pruned);
    PruningKeepsEveryPath(merged, keep, retained, pruned, anchor, current);
    DistinctCodesIdentify(index.versions);
    DistinctCodesIdentify(retained);
    SameAboveSameWalk(index.versions, retained, current);
  }

  /** A release above everything a valid index lists. */
  ghost predicate Appends(existing: Index, node: VersionNode) {
    ErrorFree(existing) && !node.yanked && forall n | n in existing.versions :: n.code < node.code
  }

  /** The version stays listed then: fewer than keep - 1 others are above it. */
  ghost predicate Stays(existing: Index, keep: int, n: VersionNode) {
    n in existing.versions && (keep <= 0 || |Ahead(existing.versions, n.code)| + 1 < keep)
  }

  /** Every version that stays is high enough for the release, or the current
      head is; and so is the lowest supported code, or it has a version that
      stays to go to first. */
  ghost predicate AppendFits(existing: Index, node: VersionNode, keep: int) {
    Head(existing.versions).Some? &&
    var h := Head(existing.versions).value.code;
    && (forall n | Stays(existing, keep, n) :: node.minFrom <= n.code || node.minFrom <= h)
    && (existing.minSupported.Some? ==>
          var m := existing.minSupported.value;
          node.minFrom <= m || (node.minFrom <= h && exists n :: Stays(existing, keep, n) && Eligible(n, m)))
  }

  lemma AppendedHeads(existing: Index, node: VersionNode, keep: int, index: Index, pruned: seq<VersionNode>)
    requires Follows(existing, node, keep, index, pruned) && Appends(existing, node)
    ensures Head(existing.versions).Some? && Head(index.versions) == Some(node) && node in index.versions
    ensures Head(Merged(existing.versions, node)) == Some(node)
    ensures CodesIdentify(index.versions) && DistinctCodes(existing.versions)
    ensures forall n :: n in Merged(existing.versions, node) <==> n in existing.versions || n == node
  {
    assert !Holds(existing, NoHead) && !Holds(existing, DuplicateCode);
    NewestNodeHeadsTheIndex(existing, node, keep, index, pruned);
    var retained := RetainedBehind(existing, node, keep, index, pruned);
    DistinctCodesIdentify(index.versions);
    forall n
      ensures n in Merged(existing.versions, node) <==> n in existing.versions || n == node
    {
      WithoutKeepsTheRest(existing.versions, node.code, n);
    }
  }

  lemma StaysIff(
    existing: Index, node: VersionNode, keep: int, index: Index, pruned: seq<VersionNode>, n: VersionNode)
    requires Follows(existing, node, keep, index, pruned) && Appends(existing, node)
    ensures n in index.versions <==> n == node || Stays(existing, keep, n)
  {
    hide ErrorFree, Follows, Head, Merged, IsRetention, Ahead, CodesIdentify, DistinctCodes;
    AppendedHeads(existing, node, keep, index, pruned);
    var merged := Merged(existing.versions, node);
    var retained := RetainedBehind(existing, node, keep, index, pruned);
    RetainedAreListed(merged, keep, retained, pruned);
    if n in existing.versions {
      MergedStaysDistinct(existing.versions, node);
      RetainedIff(merged, keep, retained, pruned, n);
      OneMoreAhead(existing.versions, node, merged, n.code);
    }
  }

  lemma OneMoreAhead(versions: seq<VersionNode>, node: VersionNode, merged: seq<VersionNode>, code: int)
    requires forall n :: n in merged <==> n in versions || n == node
    requires node !in versions && code < node.code
    ensures |Ahead(merged, code)| == |Ahead(versions, code)| + 1
  {
    assert Ahead(merged, code) == Ahead(versions, code) + {node};
  }

  /** Once the current head may go to the release, every version kept may. */
  lemma KeptReaches(
    existing: Index, node: VersionNode, keep: int, index: Index, pruned: seq<VersionNode>, n: VersionNode)
    requires Follows(existing, node, keep, index, pruned) && Appends(existing, node)
    requires n in index.versions && n != node
    requires Head(existing.versions).Some? && node.minFrom <= Head(existing.versions).value.code
    ensures ReachesHead(index.versions, n.code)
  {
    AppendedHeads(existing, node, keep, index, pruned);
    NextIndexListsKnownNodes(existing, node, keep, index, pruned, n);
    var merged := Merged(existing.versions, node);
    assert !Holds(existing, Unreachable);
    assert n.code >= Head(existing.versions).value.code || ReachesHead(existing.versions, n.code);
    AppendedReachableFrom(existing.versions, node, merged, n.code);
    NextIndexKeepsEveryPath(existing, node, keep, index, pruned, n, n.code);
  }

  lemma AppendedReaches(
    existing: Index, node: VersionNode, keep: int, index: Index, pruned: seq<VersionNode>, start: int)
    requires Follows(existing, node, keep, index, pruned) && Appends(existing, node) && start < node.code
    ensures Head(existing.versions).Some?
    ensures ReachesHead(index.versions, start) <==>
      node.minFrom <= start ||
      (node.minFrom <= Head(existing.versions).value.code &&
       exists n :: Stays(existing, keep, n) && Eligible(n, start))
  {
    hide Follows, Stays;
    AppendedHeads(existing, node, keep, index, pruned);
    var h := Head(existing.versions).value.code;
    forall n | n in index.versions && n != node
      ensures !n.yanked ==> n.code <= h
      ensures node.minFrom <= h ==> ReachesHead(index.versions, n.code)
    {
      NextIndexListsKnownNodes(existing, node, keep, index, pruned, n);
      if node.minFrom <= h {
        KeptReaches(existing, node, keep, index, pruned, n);
      }
    }
    AppendedReachesIff(index.versions, node, h, start);
    forall n
      ensures n in index.versions && n != node <==> Stays(existing, keep, n)
    {
      StaysIff(existing, node, keep, index, pruned, n);
      NodeIsNew(existing, node, keep);
    }
  }

  lemma NodeIsNew(existing: Index, node: VersionNode, keep: int)
    requires Appends(existing, node)
    ensures !Stays(existing, keep, node)
  {}

  /** Publishing above everything else, whatever is cut: the next index validates
      exactly if the release fits. */
  lemma AppendedIndexValidatesIff(
    existing: Index, node: VersionNode, keep: int, index: Index, pruned: seq<VersionNode>)
    requires Follows(existing, node, keep, index, pruned) && Appends(existing, node)
    ensures ErrorFree(index) <==> AppendFits(existing, node, keep)
  {
    hide Follows, Stays, Strands;
    AppendedHeads(existing, node, keep, index, pruned);
    var retained := RetainedBehind(existing, node, keep, index, pruned);
    assert !Holds(existing, MinSupportedAboveHead);
    KeptAreStrandedIff(existing, node, keep, index, pruned);
    if index.minSupported.Some? {
      LowestIsStrandedIff(existing, node, keep, index, pruned);
    }
    OnlyUnreachableLeft(index, node);
  }

  lemma KeptAreStrandedIff(
    existing: Index, node: VersionNode, keep: int, index: Index, pruned: seq<VersionNode>)
    requires Follows(existing, node, keep, index, pruned) && Appends(existing, node)
    ensures Head(existing.versions).Some?
    ensures Holds(index, Unreachable) <==>
      exists n :: Stays(existing, keep, n) &&
        !(node.minFrom <= n.code || node.minFrom <= Head(existing.versions).value.code)
  {
    hide Follows, Stays, ReachesHead, ErrorFree;
    AppendedHeads(existing, node, keep, index, pruned);
    forall n
      ensures Stays(existing, keep, n) <==> n in index.versions && n != node
      ensures Stays(existing, keep, n) ==>
        (Strands(index.versions, n.code) <==>
         !(node.minFrom <= n.code || node.minFrom <= Head(existing.versions).value.code))
    {
      StaysIff(existing, node, keep, index, pruned, n);
      NodeIsNew(existing, node, keep);
      if Stays(existing, keep, n) {
        NextIndexListsKnownNodes(existing, node, keep, index, pruned, n);
        AppendedReaches(existing, node, keep, index, pruned, n.code);
        if node.minFrom <= Head(existing.versions).value.code {
          KeptReaches(existing, node, keep, index, pruned, n);
        }
      }
    }
  }

  lemma LowestIsStrandedIff(
    existing: Index, node: VersionNode, keep: int, index: Index, pruned: seq<VersionNode>)
    requires Follows(existing, node, keep, index, pruned) && Appends(existing, node)
    requires index.minSupported.Some? && existing.minSupported == index.minSupported
    ensures Head(existing.versions).Some?
    ensures Holds(index, MinSupportedUnreachable) <==>
      var m := index.minSupported.value;
      !(node.minFrom <= m ||
        (node.minFrom <= Head(existing.versions).value.code &&
         exists n :: Stays(existing, keep, n) && Eligible(n, m)))
  {
    hide Follows, Stays, ReachesHead;
    AppendedHeads(existing, node, keep, index, pruned);
    assert !Holds(existing, MinSupportedAboveHead);
    AppendedReaches(existing, node, keep, index, pruned, index.minSupported.value);
  }

  lemma OnlyUnreachableLeft(index: Index, node: VersionNode)
    requires Head(index.versions) == Some(node) && DistinctCodes(index.versions)
    requires index.minSupported.Some? ==> index.minSupported.value <= node.code
    ensures ErrorFree(index) <==> !Holds(index, Unreachable) && !Holds(index, MinSupportedUnreachable)
  {
    hide Strands;
    forall f | f != ZeroUnreachable && f != Unreachable && f != MinSupportedUnreachable
      ensures !Holds(index, f)
    {}
  }

  /** If nothing is cut it is enough, and necessary, that the release takes
      clients of the current head. */
  lemma FitsWhenNothingIsCut(existing: Index, node: VersionNode, keep: int)
    requires Appends(existing, node) && (keep <= 0 || |existing.versions| < keep)
    ensures Head(existing.versions).Some?
    ensures AppendFits(existing, node, keep) <==> node.minFrom <= Head(existing.versions).value.code
  {
    assert !Holds(existing, NoHead) && !Holds(existing, DuplicateCode);
    var head := Head(existing.versions).value;
    forall n | n in existing.versions
      ensures Stays(existing, keep, n)
    {
      DistinctCodesCount(existing.versions);
      SmallerSet(Ahead(existing.versions, n.code) + {n}, set v | v in existing.versions);
    }
    if existing.minSupported.Some? {
      var m := existing.minSupported.value;
      assert !Holds(existing, MinSupportedAboveHead) && !Holds(existing, MinSupportedUnreachable);
      if m < head.code {
        assert ReachesHead(existing.versions, m);
        assert NextTarget(existing.versions, m).Some?;
      }
    }
  }

  method PlanIndex(existing: Index, node: VersionNode, keep: int)
    returns (r: Result<(Index, seq<VersionNode>), Failure>)
    ensures r.Ok? ==> Follows(existing, node, keep, r.value.0, r.value.1) && ErrorFree(r.value.0)
    ensures r.Ok? ==> WouldValidate(existing, node, keep)
    ensures r.Err? ==> r.error == InvalidIndex
    ensures r.Err? ==> WouldNotValidate(existing, node, keep)
    ensures Appends(existing, node) && NextSequence(existing.sequence) >= 1 ==>
      (r.Ok? <==> AppendFits(existing, node, keep))
  {
    hide Appends, AppendFits;
    var merged := MergeNode(existing.versions, node);
    var retained, pruned := ApplyRetainVersions(merged, keep);
    var index := NewIndex(NextSequence(existing.sequence), retained, existing.minSupported);
    if index.None? {
      return Err(InvalidIndex);
    }
    assert Follows(existing, node, keep, index.value, pruned);
    if Appends(existing, node) {
      AppendedIndexValidatesIff(existing, node, keep, index.value, pruned);
    }
    var errors, warnings := ValidateReachability(index.value);
    if errors != {} {
      assert exists f :: f in errors && f != ZeroUnreachable && Holds(index.value, f);
      return Err(InvalidIndex);
    }
    assert forall f | f != ZeroUnreachable :: !Holds(index.value, f);
    r := Ok((index.value, pruned));
  }

  /** Whatever the next index lists was listed before, or is the new node. */
  lemma NextIndexListsKnownNodes(
    existing: Index, node: VersionNode, keep: int, index: Index, pruned: seq<VersionNode>, listed: VersionNode)
    requires Follows(existing, node, keep, index, pruned) && listed in index.versions
    ensures listed in existing.versions || listed == node
  {
    var merged := Merged(existing.versions, node);
    var retained :| IsRetention(merged, keep, retained, pruned) &&
      IsNewIndex(NextSequence(existing.sequence), retained, existing.minSupported, index);
    PermutationKeepsMembers(index.versions, retained);
    RetainedAreListed(merged, keep, retained, pruned);
    WithoutKeepsTheRest(existing.versions, node.code, listed);
    assert listed in merged;
  }

  /** A node above everything published survives the pruning and heads the index. */
  lemma NewestNodeHeadsTheIndex(
    existing: Index, node: VersionNode, keep: int, index: Index, pruned: seq<VersionNode>)
    requires Follows(existing, node, keep, index, pruned)
    requires !node.yanked && forall n | n in existing.versions :: n.code < node.code
    ensures node in index.versions && Head(index.versions) == Some(node)
  {
    var merged := Merged(existing.versions, node);
    var retained: seq<VersionNode> :| IsRetention(merged, keep, retained, pruned) &&
      IsNewIndex(NextSequence(existing.sequence), retained, existing.minSupported, index);
    PermutationKeepsMembers(index.versions, retained);
    RetainedAreListed(merged, keep, retained, pruned);
    assert node in merged && retained != [];
    assert retained[0] in index.versions;
    NextIndexListsKnownNodes(existing, node, keep, index, pruned, retained[0]);
    assert node in pruned ==> node.code <= retained[0].code;
    forall n | n in index.versions
      ensures n == node || n.code < node.code
    {
      NextIndexListsKnownNodes(existing, node, keep, index, pruned, n);
    }
  }

  /** What a release published above everything else does for clients: it is
      offered to exactly the clients between its minFrom and itself, and with an
      index that validates every client from the lowest kept version on walks to it. */
  lemma NewestReleaseIsOffered(
    existing: Index, node: VersionNode, keep: int, index: Index, pruned: seq<VersionNode>,
    listed: VersionNode, current: int)
    requires Follows(existing, node, keep, index, pruned) && ErrorFree(index)
    requires !node.yanked && forall n | n in existing.versions :: n.code < node.code
    ensures NextTarget(index.versions, current) == Some(node) <==> node.minFrom <= current < node.code
    ensures listed in index.versions && listed.code <= current < node.code ==>
      EndsAt(Walk(index.versions, current), node.code)
  {
    NewestNodeHeadsTheIndex(existing, node, keep, index, pruned);
    forall n | n in index.versions
      ensures n == node || n.code < node.code
    {
      NextIndexListsKnownNodes(existing, node, keep, index, pruned, n);
    }
    assert Eligible(node, current) <==> node.minFrom <= current < node.code;
    if listed in index.versions && listed.code <= current < node.code {
      assert !Holds(index, NoHead) && !Holds(index, Unreachable);
      ValidationCoversUnlistedClients(index, listed, current);
    }
  }

  /** Publishing lists the release exactly if it is not cut at once. */
  lemma ReleaseIsListedIff(existing: Index, node: VersionNode, keep: int, index: Index, pruned: seq<VersionNode>)
    requires Follows(existing, node, keep, index, pruned)
    ensures node in index.versions <==> node !in pruned
    ensures (exists n :: n in index.versions && n.code == node.code) ==> node in index.versions
    ensures DistinctCodes(existing.versions) ==>
      (node in index.versions <==> keep <= 0 || |Ahead(existing.versions, node.code)| < keep)
  {
    var merged := Merged(existing.versions, node);
    var retained := RetainedBehind(existing, node, keep, index, pruned);
    RetainedAreListed(merged, keep, retained, pruned);
    forall n
      ensures n in merged <==> n == node || (n in existing.versions && n.code != node.code)
    {
      WithoutKeepsTheRest(existing.versions, node.code, n);
    }
    MergedOnce(existing.versions, node);
    assert multiset(retained)[node] + multiset(pruned)[node] == multiset(merged)[node];
    if DistinctCodes(existing.versions) {
      MergedStaysDistinct(existing.versions, node);
      RetainedIff(merged, keep, retained, pruned, node);
      assert Ahead(merged, node.code) == Ahead(existing.versions, node.code);
    }
  }

  lemma MergedOnce(existing: seq<VersionNode>, node: VersionNode)
    ensures multiset(Merged(existing, node))[node] == 1
  {
    WithoutKeepsTheRest(existing, node.code, node);
    assert node !in multiset(Without(existing, node.code));
  }

  /** And it is the newest one listed exactly if nothing listed before is above it. */
  lemma ReleaseIsNewestIff(existing: Index, node: VersionNode, keep: int, index: Index, pruned: seq<VersionNode>)
    requires Follows(existing, node, keep, index, pruned)
    ensures (node in index.versions && forall n | n in index.versions :: n.code <= node.code) <==>
      forall n | n in existing.versions :: n.code <= node.code
  {
    var merged := Merged(existing.versions, node);
    var retained := RetainedBehind(existing, node, keep, index, pruned);
    RetainedAreListed(merged, keep, retained, pruned);
    forall n
      ensures n in merged <==> n == node || (n in existing.versions && n.code != node.code)
    {
      WithoutKeepsTheRest(existing.versions, node.code, n);
    }
    if forall n | n in existing.versions :: n.code <= node.code {
      NewestIsRetained(merged, node, keep, retained, pruned);
    }
  }

  lemma NewestIsRetained(
    versions: seq<VersionNode>, node: VersionNode, keep: int, retained: seq<VersionNode>, pruned: seq<VersionNode>)
    requires IsRetention(versions, keep, retained, pruned) && node in versions
    requires forall n | n in versions :: n == node || n.code < node.code
    ensures node in retained
  {
    RetainedAreListed(versions, keep, retained, pruned);
    assert retained[0] in retained && retained[0] in versions;
  }

  // ---------------------------------------------------------------------
  // Uploading the release
  // ---------------------------------------------------------------------

  /** The staged files that are there, by name; a thin tree has none. */
  type Local = map<string, Item>

  ghost predicate LocalMatches(measure: Measure, artifacts: seq<StagedArtifact>, local: Local) {
    forall i | 0 <= i < |artifacts| && artifacts[i].filename in local ::
      Matches(measure, local[artifacts[i].filename], artifacts[i])
  }

  /** The content can be had: from the staged tree, or from the blob on the ingest
      backend; an empty blob cannot be copied from one backend to another. */
  ghost predicate Obtainable(
    measure: Measure, source: Option<nat>, stores: seq<Store>, a: StagedArtifact, local: Local)
  {
    a.filename in local ||
    (source.Some? && source.value < |stores| && a.size != 0 && HasBlob(measure, stores[source.value], a))
  }

  /** All content can be had, and artifacts of one digest are of one size. */
  ghost predicate AllObtainable(
    measure: Measure, source: Option<nat>, stores: seq<Store>, artifacts: seq<StagedArtifact>, local: Local)
  {
    && (forall i | 0 <= i < |artifacts| :: Obtainable(measure, source, stores, artifacts[i], local))
    && (forall i, j | 0 <= i < |artifacts| && 0 <= j < |artifacts| ::
          CasDigest(artifacts[i].sha256) == CasDigest(artifacts[j].sha256) ==>
          artifacts[i].size == artifacts[j].size)
  }

  /** The URLs of one key on several backends, in order. */
  function UrlsAlong(place: (nat, Key) -> string, backends: seq<nat>, key: Key): seq<string> {
    seq(|backends|, i requires 0 <= i < |backends| => place(backends[i], key))
  }

  ghost predicate UrlsGathered(
    place: (nat, Key) -> string, version: string, artifacts: seq<StagedArtifact>,
    done: seq<nat>, urls: map<string, seq<string>>)
  {
    forall i | 0 <= i < |artifacts| ::
      artifacts[i].id in urls &&
      urls[artifacts[i].id] == UrlsAlong(place, done, ArtifactKey(version, artifacts[i].filename))
  }

  lemma PuttingContentIsPlanned(measure: Measure, plan: Plan, i: nat, before: Store, after: Store)
    requires i < |plan.artifacts|
    requires PutsContent(
      measure, ArtifactKey(plan.version, plan.artifacts[i].filename), plan.artifacts[i], before, after)
    ensures Within(measure, plan, before, after)
  {}

  ghost predicate IsPrimary(ingest: seq<bool>, source: Option<nat>) {
    match source
    case None => forall b | 0 <= b < |ingest| :: !ingest[b]
    case Some(s) => s < |ingest| && ingest[s] && forall b | 0 <= b < s :: !ingest[b]
  }

  lemma PuttingKeepsBlobs(
    measure: Measure, source: Option<nat>, artifacts: seq<StagedArtifact>, local: Local, key: Key, n: nat, b: nat,
    before: seq<Store>, after: seq<Store>)
    requires n < |artifacts| && b < |before| == |after| && key.ArtifactKey?
    requires forall i | 0 <= i < |before| && i != b :: after[i] == before[i]
    requires PutsContent(measure, key, artifacts[n], before[b], after[b])
    requires AllObtainable(measure, source, before, artifacts, local)
    ensures AllObtainable(measure, source, after, artifacts, local)
  {
    forall i | 0 <= i < |artifacts|
      ensures Obtainable(measure, source, after, artifacts[i], local)
    {
      assert Obtainable(measure, source, before, artifacts[i], local);
      var digest := CasDigest(artifacts[i].sha256);
      if digest.Some? && source == Some(b) {
        assert At(after[b], CasKey(digest.value)) == At(before[b], CasKey(digest.value)) ||
          (Matches(measure, after[b][CasKey(digest.value)], artifacts[n]) &&
           CasDigest(artifacts[n].sha256) == digest);
      }
    }
  }

  /** One artifact onto one backend: copied from the ingest source, or put there. */
  method PutOne(
    cluster: Cluster, source: Option<nat>, b: nat, staged: Staged, n: nat, local: Local, ghost plan: Plan)
    returns (r: Result<string, Failure>)
    requires cluster.Valid() && b < |cluster.stores| && IsPrimary(cluster.ingest, source) && n < |staged.artifacts|
    requires plan.version == staged.version && plan.artifacts == staged.artifacts
    requires LocalMatches(cluster.measure, staged.artifacts, local)
    modifies cluster
    ensures cluster.Valid() && old(cluster.attempts) <= cluster.attempts
    ensures forall c | 0 <= c < |cluster.stores| && c != b :: cluster.stores[c] == old(cluster.stores)[c]
    ensures Within(cluster.measure, plan, old(cluster.stores)[b], cluster.stores[b])
    ensures r.Ok? ==>
      && HasContent(cluster.measure, cluster.stores[b], staged.version, staged.artifacts[n])
      && r.value == cluster.place(b, ArtifactKey(staged.version, staged.artifacts[n].filename))
    ensures r.Err? ==> r.error in {UploadFailed, Interrupted}
    ensures r == Err(Interrupted) ==> !cluster.Smooth(old(cluster.attempts), cluster.attempts)
    ensures r.Err? && cluster.Smooth(old(cluster.attempts), cluster.attempts) ==>
      !Obtainable(cluster.measure, source, old(cluster.stores), staged.artifacts[n], local)
    ensures AllObtainable(cluster.measure, source, old(cluster.stores), staged.artifacts, local) ==>
      AllObtainable(cluster.measure, source, cluster.stores, staged.artifacts, local)
  {
    hide PutsContent, Within, AllObtainable;
    var a := staged.artifacts[n];
    var key := ArtifactKey(staged.version, a.filename);
    var file := if a.filename in local then Some(local[a.filename]) else None;
    var put;
    if source.Some? && b != source.value {
      put := cluster.Materialize(source.value, b, file, key, a);
    } else {
      put := cluster.PutArtifactCas(b, file, key, a);
    }
    PuttingContentIsPlanned(cluster.measure, plan, n, old(cluster.stores)[b], cluster.stores[b]);
    if AllObtainable(cluster.measure, source, old(cluster.stores), staged.artifacts, local) {
      PuttingKeepsBlobs(
        cluster.measure, source, staged.artifacts, local, key, n, b, old(cluster.stores), cluster.stores);
    }
    r := match put
      case Ok(url) => Ok(url)
      case Err(error) => Err(if error == Killed then Interrupted else UploadFailed);
  }

  /** All artifacts onto one backend. */
  method UploadTo(
    cluster: Cluster, source: Option<nat>, b: nat, staged: Staged, local: Local,
    gathered: map<string, seq<string>>, ghost plan: Plan, ghost done: seq<nat>)
    returns (r: Result<map<string, seq<string>>, Failure>)
    requires cluster.Valid() && b < |cluster.stores| && IsPrimary(cluster.ingest, source)
    requires plan.version == staged.version && plan.artifacts == staged.artifacts
    requires DistinctFilenames(staged.artifacts) && DistinctIds(staged.artifacts)
    requires LocalMatches(cluster.measure, staged.artifacts, local)
    requires UrlsGathered(cluster.place, staged.version, staged.artifacts, done, gathered)
    modifies cluster
    ensures cluster.Valid() && old(cluster.attempts) <= cluster.attempts
    ensures forall c | 0 <= c < |cluster.stores| && c != b :: cluster.stores[c] == old(cluster.stores)[c]
    ensures Within(cluster.measure, plan, old(cluster.stores)[b], cluster.stores[b])
    ensures r.Ok? ==> HasRelease(cluster.measure, cluster.stores[b], staged.version, staged.artifacts)
    ensures r.Ok? ==> UrlsGathered(cluster.place, staged.version, staged.artifacts, done + [b], r.value)
    ensures r.Err? ==> r.error in {UploadFailed, Interrupted}
    ensures r == Err(Interrupted) ==> !cluster.Smooth(old(cluster.attempts), cluster.attempts)
    ensures AllObtainable(cluster.measure, source, old(cluster.stores), staged.artifacts, local) ==>
      AllObtainable(cluster.measure, source, cluster.stores, staged.artifacts, local)
    ensures r.Err? && cluster.Smooth(old(cluster.attempts), cluster.attempts) ==>
      !AllObtainable(cluster.measure, source, old(cluster.stores), staged.artifacts, local)
  {
    hide CasSound, IsHexDigest, Within, DistinctFilenames, Obtainable, HasContent, IsPrimary;
    var urls := gathered;
    var artifacts := staged.artifacts;
    WithinIsReflexive(cluster.measure, plan, cluster.stores[b]);
    for n := 0 to |artifacts|
      invariant cluster.Valid() && |cluster.stores| == |old(cluster.stores)|
      invariant old(cluster.attempts) <= cluster.attempts
      invariant forall c | 0 <= c < |cluster.stores| && c != b :: cluster.stores[c] == old(cluster.stores)[c]
      invariant Within(cluster.measure, plan, old(cluster.stores)[b], cluster.stores[b])
      invariant forall i | 0 <= i < n ::
        HasContent(cluster.measure, cluster.stores[b], staged.version, artifacts[i])
      invariant AllObtainable(cluster.measure, source, old(cluster.stores), artifacts, local) ==>
        AllObtainable(cluster.measure, source, cluster.stores, artifacts, local)
      invariant forall i | 0 <= i < |artifacts| :: (artifacts[i].id in urls &&
        urls[artifacts[i].id] == UrlsAlong(
          cluster.place, if i < n then done + [b] else done, ArtifactKey(staged.version, artifacts[i].filename)))
    {
      ghost var before := cluster.stores[b];
      var put := PutOne(cluster, source, b, staged, n, local, plan);
      WithinIsTransitive(cluster.measure, plan, old(cluster.stores)[b], before, cluster.stores[b]);
      if put.Err? {
        return Err(put.error);
      }
      forall i | 0 <= i < n
        ensures HasContent(cluster.measure, cluster.stores[b], staged.version, artifacts[i])
      {
        ContentStays(cluster.measure, plan, before, cluster.stores[b], i);
      }
      var a := artifacts[n];
      UrlsGrow(cluster.place, done, b, ArtifactKey(staged.version, a.filename));
      urls := urls[a.id := urls[a.id] + [put.value]];
    }
    r := Ok(urls);
  }

  lemma UrlsGrow(place: (nat, Key) -> string, done: seq<nat>, b: nat, key: Key)
    ensures UrlsAlong(place, done + [b], key) == UrlsAlong(place, done, key) + [place(b, key)]
  {}

  lemma WithinIsReflexive(measure: Measure, plan: Plan, store: Store)
    ensures Within(measure, plan, store, store)
  {}

  /** Every backend but the source, in order. */
  function OthersBelow(n: nat, source: Option<nat>): seq<nat> {
    if n == 0 then []
    else OthersBelow(n - 1, source) + if source == Some(n - 1) then [] else [n - 1]
  }

  /** The source first, then the others among the first n. */
  function UploadOrder(n: nat, source: Option<nat>): seq<nat> {
    (if source.Some? then [source.value] else []) + OthersBelow(n, source)
  }

  lemma OrderGrows(source: Option<nat>, b: nat)
    ensures UploadOrder(b + 1, source) ==
      if source == Some(b) then UploadOrder(b, source) else UploadOrder(b, source) + [b]
    ensures UploadOrder(0, source) == if source.Some? then [] + [source.value] else []
  {}

  method NoUrlsYet(place: (nat, Key) -> string, version: string, artifacts: seq<StagedArtifact>)
    returns (urls: map<string, seq<string>>)
    ensures UrlsGathered(place, version, artifacts, [], urls)
  {
    urls := map[];
    for i := 0 to |artifacts|
      invariant forall j | 0 <= j < i :: artifacts[j].id in urls && urls[artifacts[j].id] == []
    {
      urls := urls[artifacts[i].id := []];
    }
  }

  /** The source and the first b backends have the release; the others are untouched. */
  ghost predicate Spread(
    measure: Measure, plan: Plan, source: Option<nat>, start: seq<Store>, stores: seq<Store>, b: nat)
  {
    && |start| == |stores|
    && forall c | 0 <= c < |start| ::
         && Within(measure, plan, start[c], stores[c])
         && (c < b || source == Some(c) ==> HasRelease(measure, stores[c], plan.version, plan.artifacts))
         && (c >= b && source != Some(c) ==> stores[c] == start[c])
  }

  lemma SpreadBegins(
    measure: Measure, plan: Plan, source: Option<nat>, start: seq<Store>, stores: seq<Store>)
    requires |start| == |stores|
    requires forall c | 0 <= c < |start| && source != Some(c) :: stores[c] == start[c]
    requires source.Some? ==> source.value < |start|
    requires source.Some? ==> Within(measure, plan, start[source.value], stores[source.value])
    requires source.Some? ==> HasRelease(measure, stores[source.value], plan.version, plan.artifacts)
    ensures Spread(measure, plan, source, start, stores, 0)
  {}

  lemma SpreadGoesOn(
    measure: Measure, plan: Plan, source: Option<nat>, start: seq<Store>, before: seq<Store>, after: seq<Store>, b: nat)
    requires Spread(measure, plan, source, start, before, b) && b < |start| == |after|
    requires forall c | 0 <= c < |start| && c != b :: after[c] == before[c]
    requires Within(measure, plan, before[b], after[b])
    ensures forall c | 0 <= c < |start| :: Within(measure, plan, start[c], after[c])
    ensures HasRelease(measure, after[b], plan.version, plan.artifacts) ==>
      Spread(measure, plan, source, start, after, b + 1)
  {
    WithinIsTransitive(measure, plan, start[b], before[b], after[b]);
  }

  lemma SpreadIsEnough(
    measure: Measure, plan: Plan, source: Option<nat>, start: seq<Store>, stores: seq<Store>)
    requires Spread(measure, plan, source, start, stores, |start|)
    ensures forall c | 0 <= c < |start| ::
      Within(measure, plan, start[c], stores[c]) && HasRelease(measure, stores[c], plan.version, plan.artifacts)
  {}

  /** All artifacts onto all backends, the ingest source first. */
  method UploadAll(cluster: Cluster, staged: Staged, local: Local, ghost plan: Plan)
    returns (r: Result<map<string, seq<string>>, Failure>, ghost source: Option<nat>)
    requires cluster.Valid()
    requires plan.version == staged.version && plan.artifacts == staged.artifacts
    requires DistinctFilenames(staged.artifacts) && DistinctIds(staged.artifacts)
    requires LocalMatches(cluster.measure, staged.artifacts, local)
    modifies cluster
    ensures cluster.Valid() && old(cluster.attempts) <= cluster.attempts
    ensures forall b | 0 <= b < |cluster.stores| ::
      Within(cluster.measure, plan, old(cluster.stores)[b], cluster.stores[b])
    ensures r.Ok? ==> forall b | 0 <= b < |cluster.stores| ::
      HasRelease(cluster.measure, cluster.stores[b], staged.version, staged.artifacts)
    ensures IsPrimary(cluster.ingest, source)
    ensures r.Ok? ==> UrlsGathered(
      cluster.place, staged.version, staged.artifacts, UploadOrder(|cluster.stores|, source), r.value)
    ensures r.Err? ==> r.error in {UploadFailed, Interrupted}
    ensures r == Err(Interrupted) ==> !cluster.Smooth(old(cluster.attempts), cluster.attempts)
    ensures r.Err? && cluster.Smooth(old(cluster.attempts), cluster.attempts) ==>
      !AllObtainable(cluster.measure, source, old(cluster.stores), staged.artifacts, local)
  {
    hide CasSound, IsHexDigest, Within, DistinctFilenames, DistinctIds, LocalMatches, HasRelease, UrlsGathered,
      AllObtainable, Spread, UploadOrder;
    var urls := NoUrlsYet(cluster.place, staged.version, staged.artifacts);
    var ingest := cluster.PrimaryIngest();
    source := ingest;
    assert IsPrimary(cluster.ingest, ingest);
    hide IsPrimary;
    ghost var start := cluster.stores;
    OrderGrows(ingest, 0);
    forall c | 0 <= c < |start| {
      WithinIsReflexive(cluster.measure, plan, start[c]);
    }
    if ingest.Some? {
      var put := UploadTo(cluster, ingest, ingest.value, staged, local, urls, plan, []);
      if put.Err? {
        return Err(put.error), source;
      }
      urls := put.value;
    }
    SpreadBegins(cluster.measure, plan, ingest, start, cluster.stores);
    for b: nat := 0 to |cluster.stores|
      invariant cluster.Valid() && |cluster.stores| == |start|
      invariant old(cluster.attempts) <= cluster.attempts
      invariant Spread(cluster.measure, plan, ingest, start, cluster.stores, b)
      invariant AllObtainable(cluster.measure, ingest, start, staged.artifacts, local) ==>
        AllObtainable(cluster.measure, ingest, cluster.stores, staged.artifacts, local)
      invariant UrlsGathered(cluster.place, staged.version, staged.artifacts, UploadOrder(b, ingest), urls)
    {
      ghost var before := cluster.stores;
      OrderGrows(ingest, b);
      if ingest == Some(b) {
        SpreadSkips(cluster.measure, plan, ingest, start, before, b);
        continue;
      }
      var put := UploadTo(cluster, ingest, b, staged, local, urls, plan, UploadOrder(b, ingest));
      SpreadGoesOn(cluster.measure, plan, ingest, start, before, cluster.stores, b);
      if put.Err? {
        return Err(put.error), source;
      }
      urls := put.value;
    }
    SpreadIsEnough(cluster.measure, plan, ingest, start, cluster.stores);
    r := Ok(urls);
  }

  lemma SpreadSkips(
    measure: Measure, plan: Plan, source: Option<nat>, start: seq<Store>, stores: seq<Store>, b: nat)
    requires Spread(measure, plan, source, start, stores, b) && source == Some(b)
    ensures Spread(measure, plan, source, start, stores, b + 1)
  {}

  // ---------------------------------------------------------------------
  // Writing one document everywhere
  // ---------------------------------------------------------------------

  /** Each backend is as before, or has the item under the key. */
  ghost predicate OnlyPut(key: Key, item: Item, before: seq<Store>, after: seq<Store>) {
    |before| == |after| && forall b | 0 <= b < |before| :: MayHave(key, item, before[b], after[b])
  }

  ghost predicate MayHave(key: Key, item: Item, before: Store, after: Store) {
    after == before || after == before[key := item]
  }

  /** Gives up at the first failure. */
  method PutEverywhere(cluster: Cluster, key: Key, item: Item) returns (r: Result<seq<string>, Failure>, written: nat)
    requires cluster.Valid() && !key.CasKey?
    modifies cluster
    ensures cluster.Valid() && old(cluster.attempts) <= cluster.attempts
    ensures OnlyPut(key, item, old(cluster.stores), cluster.stores)
    ensures written <= |cluster.stores| && (r.Ok? <==> written == |cluster.stores|)
    ensures forall b | 0 <= b < written :: At(cluster.stores[b], key) == Some(item)
    ensures forall b | written < b < |cluster.stores| :: cluster.stores[b] == old(cluster.stores)[b]
    ensures r.Ok? ==> r.value == seq(|cluster.stores|, b requires 0 <= b < |cluster.ingest| => cluster.place(b, key))
    ensures r.Err? ==> r.error in {UploadFailed, Interrupted}
    ensures r.Err? ==> !cluster.Smooth(old(cluster.attempts), cluster.attempts)
  {
    hide Cluster.Valid;
    var urls := [];
    for b := 0 to |cluster.stores|
      invariant cluster.Valid() && |cluster.stores| == |old(cluster.stores)|
      invariant old(cluster.attempts) <= cluster.attempts
      invariant |urls| == b && forall i | 0 <= i < b :: urls[i] == cluster.place(i, key)
      invariant forall i | 0 <= i < b :: cluster.stores[i] == old(cluster.stores)[i][key := item]
      invariant forall i | b <= i < |cluster.stores| :: cluster.stores[i] == old(cluster.stores)[i]
    {
      var reply := cluster.Put(b, key, item);
      if reply != Acked {
        return Err(if reply == Stopped then Interrupted else UploadFailed), b;
      }
      urls := urls + [cluster.place(b, key)];
    }
    r, written := Ok(urls), |cluster.stores|;
  }

  /** Some of the first n backends, in order. */
  ghost predicate IsSelection(written: seq<nat>, n: nat) {
    && |written| <= n
    && (forall i | 0 <= i < |written| :: written[i] < n)
    && (forall i, j | 0 <= i < j < |written| :: written[i] < written[j])
    && (|written| == n ==> forall b | 0 <= b < n :: written[b] == b)
  }

  /** Attempt t + b tried to put the item on backend b, for the first n backends. */
  ghost predicate Tried(
    fate: nat -> Fate, t: nat, n: nat, key: Key, item: Item, before: seq<Store>, after: seq<Store>)
  {
    |before| == |after| &&
    forall b | 0 <= b < |before| ::
      after[b] == if b < n && Applies(fate(t + b)) then before[b][key := item] else before[b]
  }

  /** Goes on after a failure, and says which backends acknowledged: it stops
      early only where the process does. */
  method PutWhereverPossible(cluster: Cluster, key: Key, item: Item) returns (written: seq<nat>, halted: bool)
    requires cluster.Valid() && !key.CasKey?
    modifies cluster
    ensures cluster.Valid()
    ensures old(cluster.attempts) <= cluster.attempts <= old(cluster.attempts) + |cluster.stores|
    ensures Tried(cluster.fate, old(cluster.attempts), cluster.attempts - old(cluster.attempts), key, item,
                  old(cluster.stores), cluster.stores)
    ensures IsSelection(written, |cluster.stores|)
    ensures forall b: nat :: b in written <==>
      b < cluster.attempts - old(cluster.attempts) && cluster.fate(old(cluster.attempts) + b) == Done
    ensures halted <==> cluster.Stops(old(cluster.attempts), cluster.attempts)
    ensures !halted ==> cluster.attempts == old(cluster.attempts) + |cluster.stores|
  {
    hide Cluster.Valid, IsSelection, Tried;
    written, halted := [], false;
    ghost var start, t := cluster.stores, cluster.attempts;
    NothingTried(cluster.fate, t, key, item, start);
    for b: nat := 0 to |cluster.stores|
      invariant cluster.Valid() && |cluster.stores| == |start|
      invariant cluster.attempts == t + b && !cluster.Stops(t, cluster.attempts)
      invariant Tried(cluster.fate, t, b, key, item, start, cluster.stores)
      invariant IsSelection(written, b)
      invariant forall c: nat :: c in written <==> c < b && cluster.fate(t + c) == Done
    {
      ghost var before := cluster.stores;
      var reply := cluster.Put(b, key, item);
      OneMoreTried(cluster.fate, t, b, key, item, start, before, cluster.stores);
      SelectionGrows(written, b);
      if reply == Stopped {
        halted := true;
        SelectionOfMore(written, b + 1, |start|);
        return;
      }
      if reply == Refused {
        continue;
      }
      written := written + [b];
    }
  }

  lemma NothingTried(fate: nat -> Fate, t: nat, key: Key, item: Item, start: seq<Store>)
    ensures Tried(fate, t, 0, key, item, start, start) && IsSelection([], 0)
  {}

  lemma OneMoreTried(
    fate: nat -> Fate, t: nat, b: nat, key: Key, item: Item, start: seq<Store>, before: seq<Store>, after: seq<Store>)
    requires Tried(fate, t, b, key, item, start, before) && b < |start|
    requires after == if Applies(fate(t + b)) then before[b := before[b][key := item]] else before
    ensures Tried(fate, t, b + 1, key, item, start, after)
  {}

  lemma TriedIsOnlyPut(
    fate: nat -> Fate, t: nat, n: nat, key: Key, item: Item, before: seq<Store>, after: seq<Store>)
    requires Tried(fate, t, n, key, item, before, after)
    ensures OnlyPut(key, item, before, after)
    ensures forall b: nat | b < |before| && b < n && Applies(fate(t + b)) :: At(after[b], key) == Some(item)
  {}

  lemma SelectionGrows(written: seq<nat>, n: nat)
    requires IsSelection(written, n)
    ensures IsSelection(written, n + 1) && IsSelection(written + [n], n + 1)
  {}

  lemma {:induction false} AllBelowIsAll(written: seq<nat>, n: nat)
    requires forall i, j | 0 <= i < j < |written| :: written[i] < written[j]
    requires forall b: nat | b < n :: b in written
    ensures |written| >= n
  {
    if n > 0 {
      var last: nat := n - 1;
      assert last in written;
      var k :| 0 <= k < |written| && written[k] == last;
      forall b: nat | b < last
        ensures b in written[..k]
      {
        assert b in written;
        var i :| 0 <= i < |written| && written[i] == b;
        assert i < k && written[..k][i] == b;
      }
      AllBelowIsAll(written[..k], last);
    }
  }

  lemma SelectionOfMore(written: seq<nat>, n: nat, m: nat)
    requires IsSelection(written, n) && n <= m && |written| < n
    ensures IsSelection(written, m)
  {}

  // ---------------------------------------------------------------------
  // The manifest
  // ---------------------------------------------------------------------

  /** The manifest of a staged release, each artifact with its own URLs. */
  ghost predicate IsManifest(staged: Staged, urls: map<string, seq<string>>, manifest: Manifest) {
    && manifest.version == staged.version && manifest.code == staged.code
    && |manifest.artifacts| == |staged.artifacts|
    && forall i | 0 <= i < |staged.artifacts| ::
         var a := staged.artifacts[i];
         a.id in urls && manifest.artifacts[i] == Artifact(a.id, a.filename, a.size, a.sha256, urls[a.id])
  }

  predicate HasUrls(a: StagedArtifact, urls: map<string, seq<string>>) {
    a.id in urls && urls[a.id] != []
  }

  /** An error names the first artifact without URLs. */
  method NewManifestFromStaged(staged: Staged, urls: map<string, seq<string>>) returns (r: Result<Manifest, string>)
    ensures r.Ok? <==> forall i | 0 <= i < |staged.artifacts| :: HasUrls(staged.artifacts[i], urls)
    ensures r.Ok? ==> IsManifest(staged, urls, r.value)
    ensures r.Err? ==> exists i ::
      && 0 <= i < |staged.artifacts| && r.error == staged.artifacts[i].id && !HasUrls(staged.artifacts[i], urls)
      && forall j | 0 <= j < i :: HasUrls(staged.artifacts[j], urls)
  {
    var artifacts := [];
    for i := 0 to |staged.artifacts|
      invariant |artifacts| == i
      invariant forall j | 0 <= j < i :: HasUrls(staged.artifacts[j], urls)
      invariant forall j | 0 <= j < i ::
        var a := staged.artifacts[j];
        artifacts[j] == Artifact(a.id, a.filename, a.size, a.sha256, urls[a.id])
    {
      var a := staged.artifacts[i];
      var found := if a.id in urls then urls[a.id] else [];
      if |found| == 0 {
        return Err(a.id);
      }
      artifacts := artifacts + [Artifact(a.id, a.filename, a.size, a.sha256, found)];
    }
    r := Ok(Manifest(staged.version, staged.code, artifacts));
  }

  /** After an upload every artifact has a URL on every backend. */
  lemma EveryArtifactHasUrls(
    place: (nat, Key) -> string, staged: Staged, n: nat, source: Option<nat>, urls: map<string, seq<string>>)
    requires n > 0 && (source.Some? ==> source.value < n)
    requires UrlsGathered(place, staged.version, staged.artifacts, UploadOrder(n, source), urls)
    ensures forall i | 0 <= i < |staged.artifacts| :: HasUrls(staged.artifacts[i], urls)
  {
    OrderGrows(source, n - 1);
  }

  /** The index node of a staged release. */
  function NodeOf(staged: Staged, manifest: ManifestRef): VersionNode {
    VersionNode(staged.version, staged.code, staged.minFrom, false, manifest)
  }

  // ---------------------------------------------------------------------
  // The plan as it fills up
  // ---------------------------------------------------------------------

  function PlanOf(staged: Staged): Plan {
    Plan(IndexKey(staged.channel), None, staged.version, staged.artifacts, None, {})
  }

  ghost predicate Extends(plan: Plan, fuller: Plan) {
    && fuller.doc == plan.doc && fuller.version == plan.version && fuller.artifacts == plan.artifacts
    && (plan.pointer.Some? ==> fuller.pointer == plan.pointer)
    && (plan.manifest.Some? ==> fuller.manifest == plan.manifest)
    && plan.swept <= fuller.swept
  }

  lemma FullerPlanAllowsMore(measure: Measure, plan: Plan, fuller: Plan, before: Store, after: Store)
    requires Within(measure, plan, before, after) && Extends(plan, fuller)
    ensures Within(measure, fuller, before, after)
  {}

  lemma PuttingIsPlanned(
    measure: Measure, plan: Plan, key: Key, item: Item, before: seq<Store>, after: seq<Store>, b: nat)
    requires OnlyPut(key, item, before, after) && May(measure, plan, key, Some(item)) && b < |before|
    ensures Within(measure, plan, before[b], after[b])
  {}

  // ---------------------------------------------------------------------
  // Everything the pointer will need
  // ---------------------------------------------------------------------

  /** Some artifact is neither staged locally nor stored on the ingest backend. */
  ghost predicate SomeUnobtainable(
    cluster: Cluster, stores: seq<Store>, artifacts: seq<StagedArtifact>, local: Local)
  {
    forall source | IsPrimary(cluster.ingest, source) ::
      !AllObtainable(cluster.measure, source, stores, artifacts, local)
  }

  lemma PrimaryIsUnique(ingest: seq<bool>, a: Option<nat>, b: Option<nat>)
    requires IsPrimary(ingest, a) && IsPrimary(ingest, b)
    ensures a == b
  {}

  /** Artifacts and manifest onto every backend; the pointer is untouched. */
  method UploadRelease(cluster: Cluster, staged: Staged, local: Local)
    returns (r: Result<(Manifest, seq<string>), Failure>, ghost plan: Plan)
    requires cluster.Valid()
    requires DistinctFilenames(staged.artifacts) && DistinctIds(staged.artifacts)
    requires LocalMatches(cluster.measure, staged.artifacts, local)
    modifies cluster
    ensures cluster.Valid() && old(cluster.attempts) <= cluster.attempts
    ensures Extends(PlanOf(staged), plan) && plan.pointer.None? && plan.swept == {}
    ensures forall b | 0 <= b < |cluster.stores| ::
      Within(cluster.measure, plan, old(cluster.stores)[b], cluster.stores[b])
    ensures ManifestComesLast(cluster.measure, plan, cluster.stores)
    ensures r.Ok? ==> plan.manifest == Some(r.value.0) && r.value.0.version == staged.version
    ensures r.Ok? ==> ManifestIsComplete(cluster, staged, r.value.0)
    ensures r.Ok? ==> r.value.1 == UrlsOfAll(cluster, ManifestKey(staged.version))
    ensures r.Ok? ==> forall b | 0 <= b < |cluster.stores| :: Uploaded(cluster.measure, plan, cluster.stores[b])
    ensures r.Err? ==> r.error in {UploadFailed, Interrupted}
    ensures r == Err(Interrupted) ==> !cluster.Smooth(old(cluster.attempts), cluster.attempts)
    ensures r.Err? && cluster.Smooth(old(cluster.attempts), cluster.attempts) ==>
      SomeUnobtainable(cluster, old(cluster.stores), staged.artifacts, local)
  {
    hide Within, DistinctFilenames, DistinctIds, LocalMatches, HasRelease, May, OnlyPut;
    plan := PlanOf(staged);
    ghost var start := cluster.stores;
    var uploaded, source := UploadAll(cluster, staged, local, plan);
    if uploaded.Err? {
      forall other | IsPrimary(cluster.ingest, other) {
        PrimaryIsUnique(cluster.ingest, other, source);
      }
      return Err(uploaded.error), plan;
    }
    var made := NewManifestFromStaged(staged, uploaded.value);
    if made.Err? {
      EveryArtifactHasUrls(cluster.place, staged, |cluster.stores|, source, uploaded.value);
      assert false;
    }
    var manifest := made.value;
    ghost var before, bare := cluster.stores, plan;
    plan := plan.(manifest := Some(manifest));
    var item := ManifestDoc(manifest);
    var put, written := PutEverywhere(cluster, ManifestKey(staged.version), item);
    forall b | 0 <= b < |cluster.stores|
      ensures Within(cluster.measure, plan, start[b], cluster.stores[b])
    {
      FullerPlanAllowsMore(cluster.measure, bare, plan, start[b], before[b]);
      PlannedManifest(cluster.measure, plan);
      PuttingIsPlanned(cluster.measure, plan, ManifestKey(staged.version), item, before, cluster.stores, b);
      WithinIsTransitive(cluster.measure, plan, start[b], before[b], cluster.stores[b]);
    }
    forall b | 0 <= b < |cluster.stores|
      ensures HasRelease(cluster.measure, cluster.stores[b], staged.version, staged.artifacts)
    {
      ManifestLeavesContent(
        cluster.measure, staged, ManifestKey(staged.version), item, before, cluster.stores, b);
    }
    ManifestDescribes(staged, uploaded.value, manifest);
    if put.Err? {
      return Err(put.error), plan;
    }
    r := Ok((manifest, put.value));
  }

  lemma PlannedManifest(measure: Measure, plan: Plan)
    requires plan.manifest.Some?
    ensures May(measure, plan, ManifestKey(plan.version), Some(ManifestDoc(plan.manifest.value)))
  {}

  lemma ManifestDescribes(staged: Staged, urls: map<string, seq<string>>, manifest: Manifest)
    requires IsManifest(staged, urls, manifest)
    ensures Describes(manifest, staged.artifacts)
  {}

  lemma ManifestLeavesContent(
    measure: Measure, staged: Staged, key: Key, item: Item, before: seq<Store>, after: seq<Store>, b: nat)
    requires OnlyPut(key, item, before, after) && key.ManifestKey? && b < |before|
    requires HasRelease(measure, before[b], staged.version, staged.artifacts)
    ensures HasRelease(measure, after[b], staged.version, staged.artifacts)
  {}

  function UrlsOfAll(cluster: Cluster, key: Key): seq<string> {
    seq(|cluster.ingest|, b requires 0 <= b < |cluster.ingest| => cluster.place(b, key))
  }

  ghost predicate ManifestIsComplete(cluster: Cluster, staged: Staged, manifest: Manifest) {
    exists source, urls ::
      && IsPrimary(cluster.ingest, source)
      && UrlsGathered(
           cluster.place, staged.version, staged.artifacts, UploadOrder(|cluster.ingest|, source), urls)
      && IsManifest(staged, urls, manifest)
  }

  // ---------------------------------------------------------------------
  // What is derived from the pointer
  // ---------------------------------------------------------------------

  predicate IsPage(key: Key) {
    key.SiteKey? || key.LatestKey? || key.ChannelKey? || key.ReleaseKey?
  }

  function WebDocuments(settings: Settings, staged: Staged, manifest: Manifest, index: Index): seq<(Key, Item)> {
    (if settings.site.Some? then [(SiteKey, SitePage(settings.site.value))] else []) + [
      (LatestKey(staged.channel), LatestPage(staged.version, staged.code, manifest.artifacts)),
      (ChannelKey(staged.channel), ChannelPage(index.versions)),
      (ReleaseKey(staged.channel, staged.version),
       ReleasePage(staged.version, staged.code, manifest.artifacts))]
  }

  ghost predicate ArePages(documents: seq<(Key, Item)>) {
    && (forall d | 0 <= d < |documents| :: IsPage(documents[d].0))
    && (forall d, e | 0 <= d < e < |documents| :: documents[d].0 != documents[e].0)
  }

  /** Only the documents were written. */
  ghost predicate Projected(documents: seq<(Key, Item)>, before: Store, after: Store) {
    forall key :: At(after, key) == At(before, key) ||
      exists d :: 0 <= d < |documents| && documents[d].0 == key && At(after, key) == Some(documents[d].1)
  }

  ghost predicate AllProjected(documents: seq<(Key, Item)>, store: Store) {
    forall d | 0 <= d < |documents| :: At(store, documents[d].0) == Some(documents[d].1)
  }

  /** One backend's documents; failures are counted and passed over. */
  method WritePages(cluster: Cluster, b: nat, documents: seq<(Key, Item)>)
    returns (failures: nat, halted: bool)
    requires cluster.Valid() && b < |cluster.stores| && ArePages(documents)
    modifies cluster
    ensures cluster.Valid() && old(cluster.attempts) <= cluster.attempts
    ensures forall i | 0 <= i < |cluster.stores| && i != b :: cluster.stores[i] == old(cluster.stores)[i]
    ensures Projected(documents, old(cluster.stores)[b], cluster.stores[b])
    ensures !halted && failures == 0 ==> AllProjected(documents, cluster.stores[b])
    ensures cluster.Smooth(old(cluster.attempts), cluster.attempts) ==> failures == 0
    ensures halted <==> cluster.Stops(old(cluster.attempts), cluster.attempts)
  {
    hide CasSound, IsHexDigest, IsPage;
    failures, halted := 0, false;
    for d := 0 to |documents|
      invariant cluster.Valid() && |cluster.stores| == |old(cluster.stores)|
      invariant old(cluster.attempts) <= cluster.attempts
      invariant forall i | 0 <= i < |cluster.stores| && i != b :: cluster.stores[i] == old(cluster.stores)[i]
      invariant Projected(documents, old(cluster.stores)[b], cluster.stores[b])
      invariant failures == 0 ==> AllProjected(documents[..d], cluster.stores[b])
      invariant cluster.Smooth(old(cluster.attempts), cluster.attempts) ==> failures == 0
      invariant !cluster.Stops(old(cluster.attempts), cluster.attempts)
    {
      PagesAreNotContent(documents, d);
      var reply := cluster.Put(b, documents[d].0, documents[d].1);
      if reply == Stopped {
        halted := true;
        return;
      }
      if reply == Refused {
        failures := failures + 1;
        continue;
      }
      assert documents[..d + 1] == documents[..d] + [documents[d]];
    }
    assert documents[..|documents|] == documents;
  }

  lemma PagesAreNotContent(documents: seq<(Key, Item)>, d: nat)
    requires ArePages(documents) && d < |documents|
    ensures !documents[d].0.CasKey?
  {}

  /** Only backends that hold the new pointer get the new pages. */
  method WriteWebPointers(cluster: Cluster, targets: seq<nat>, documents: seq<(Key, Item)>)
    returns (failures: nat, halted: bool)
    requires cluster.Valid() && IsSelection(targets, |cluster.stores|) && ArePages(documents)
    modifies cluster
    ensures cluster.Valid() && old(cluster.attempts) <= cluster.attempts
    ensures forall b | 0 <= b < |cluster.stores| :: Projected(documents, old(cluster.stores)[b], cluster.stores[b])
    ensures forall b | 0 <= b < |cluster.stores| && b !in targets :: cluster.stores[b] == old(cluster.stores)[b]
    ensures !halted && failures == 0 ==>
      forall i | 0 <= i < |targets| :: AllProjected(documents, cluster.stores[targets[i]])
    ensures cluster.Smooth(old(cluster.attempts), cluster.attempts) ==> failures == 0
    ensures halted <==> cluster.Stops(old(cluster.attempts), cluster.attempts)
  {
    hide CasSound, IsHexDigest, Projected, AllProjected, ArePages;
    failures, halted := 0, false;
    forall b | 0 <= b < |cluster.stores| {
      NothingProjected(documents, cluster.stores[b]);
    }
    for i := 0 to |targets|
      invariant cluster.Valid() && |cluster.stores| == |old(cluster.stores)|
      invariant old(cluster.attempts) <= cluster.attempts
      invariant forall b | 0 <= b < |cluster.stores| :: Projected(documents, old(cluster.stores)[b], cluster.stores[b])
      invariant forall b | 0 <= b < |cluster.stores| && b !in targets :: cluster.stores[b] == old(cluster.stores)[b]
      invariant forall j | i <= j < |targets| :: cluster.stores[targets[j]] == old(cluster.stores)[targets[j]]
      invariant failures == 0 ==>
        forall j | 0 <= j < i :: AllProjected(documents, cluster.stores[targets[j]])
      invariant cluster.Smooth(old(cluster.attempts), cluster.attempts) ==> failures == 0
      invariant !cluster.Stops(old(cluster.attempts), cluster.attempts)
    {
      var failed, stopped := WritePages(cluster, targets[i], documents);
      failures := failures + failed;
      if stopped {
        halted := true;
        return;
      }
    }
  }

  lemma NothingProjected(documents: seq<(Key, Item)>, store: Store)
    ensures Projected(documents, store, store)
  {}
}
