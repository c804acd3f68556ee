/** How a publish evolves the version list: merging the new node, keeping the
    newest ones, and what that does to reachability
    (internal/publish/publish.go, mergeNode and applyRetainVersions). */
module Retention {
  import opened Wrappers
  import opened Documents
  import opened Chain
  import opened Sorting

  // ---------------------------------------------------------------------
  // Merging
  // ---------------------------------------------------------------------

  ghost function Merged(existing: seq<VersionNode>, node: VersionNode): seq<VersionNode> {
    Without(existing, node.code) + [node]
  }

  ghost function Without(existing: seq<VersionNode>, code: int): seq<VersionNode> {
    if existing == [] then []
    else
      Without(existing[..|existing| - 1], code) +
      if existing[|existing| - 1].code == code then [] else [existing[|existing| - 1]]
  }

  method MergeNode(existing: seq<VersionNode>, node: VersionNode) returns (versions: seq<VersionNode>)
    ensures versions == Merged(existing, node)
  {
    versions := [];
    for i := 0 to |existing|
      invariant versions == Without(existing[..i], node.code)
    {
      assert existing[..i + 1][..i] == existing[..i];
      var version := existing[i];
      if version.code != node.code {
        versions := versions + [version];
      }
    }
    assert existing[..|existing|] == existing;
    versions := versions + [node];
  }

  lemma {:induction false} WithoutKeepsTheRest(existing: seq<VersionNode>, code: int, node: VersionNode)
    ensures node in Without(existing, code) <==> node in existing && node.code != code
  {
    if existing != [] {
      var init, last := existing[..|existing| - 1], existing[|existing| - 1];
      WithoutKeepsTheRest(init, code, node);
      assert existing == init + [last];
    }
  }

  lemma {:induction false} WithoutStaysDistinct(existing: seq<VersionNode>, code: int)
    requires DistinctCodes(existing)
    ensures DistinctCodes(Without(existing, code))
  {
    if existing != [] {
      var init, last := existing[..|existing| - 1], existing[|existing| - 1];
      WithoutStaysDistinct(init, code);
      var kept := Without(init, code);
      forall i | 0 <= i < |kept|
        ensures kept[i].code != last.code
      {
        WithoutKeepsTheRest(init, code, kept[i]);
        var j :| 0 <= j < |init| && init[j] == kept[i];
        assert existing[j].code != existing[|existing| - 1].code;
      }
    }
  }

  /** Merging keeps codes distinct: the old node of the new node's code goes. */
  lemma MergedStaysDistinct(existing: seq<VersionNode>, node: VersionNode)
    requires DistinctCodes(existing)
    ensures DistinctCodes(Merged(existing, node))
  {
    WithoutStaysDistinct(existing, node.code);
    var kept := Without(existing, node.code);
    forall i | 0 <= i < |kept|
      ensures kept[i].code != node.code
    {
      WithoutKeepsTheRest(existing, node.code, kept[i]);
    }
  }

  // ---------------------------------------------------------------------
  // Pruning
  // ---------------------------------------------------------------------

  ghost predicate DistinctCodes(versions: seq<VersionNode>) {
    forall i, j | 0 <= i < j < |versions| :: versions[i].code != versions[j].code
  }

  /** The order of the final, ascending sort: by code, then by version. */
  predicate Ascending(a: VersionNode, b: VersionNode) {
    a.code < b.code || (a.code == b.code && LexAtMost(a.version, b.version))
  }

  /** The order of the first, descending sort: by code downwards, then version. */
  predicate Descending(a: VersionNode, b: VersionNode) {
    b.code < a.code || (a.code == b.code && LexAtMost(a.version, b.version))
  }

  lemma CodeOrdersArePreorders()
    ensures TotalPreorder(Ascending) && TotalPreorder(Descending)
  {
    LexIsPreorder();
  }

  /** What keeping the `keep` newest of `versions` means. */
  ghost predicate IsRetention(
    versions: seq<VersionNode>, keep: int, retained: seq<VersionNode>, pruned: seq<VersionNode>)
  {
    && multiset(retained) + multiset(pruned) == multiset(versions)
    && (forall r, p | r in retained && p in pruned :: p.code <= r.code)
    && |retained| == (if keep <= 0 || |versions| <= keep then |versions| else keep)
  }

  method ApplyRetainVersions(versions: seq<VersionNode>, keep: int)
    returns (retained: seq<VersionNode>, pruned: seq<VersionNode>)
    ensures IsRetention(versions, keep, retained, pruned)
    ensures pruned == [] ==> retained == versions
    ensures pruned != [] ==> SortedBy(Ascending, retained)
  {
    if keep <= 0 || |versions| <= keep {
      return versions, [];
    }
    hide IsRetention, Descending, Ascending;
    CodeOrdersArePreorders();
    var ordered := Sort(Descending, versions);
    SameLength(ordered, versions);
    pruned := ordered[keep..];
    retained := Sort(Ascending, ordered[..keep]);
    CutIsRetention(versions, keep, ordered, retained);
  }

  lemma SameLength(a: seq<VersionNode>, b: seq<VersionNode>)
    requires multiset(a) == multiset(b)
    ensures |a| == |b|
  {
    assert |multiset(a)| == |multiset(b)|;
  }

  lemma CutIsRetention(
    versions: seq<VersionNode>, keep: int, ordered: seq<VersionNode>, retained: seq<VersionNode>)
    requires 0 < keep < |versions| == |ordered|
    requires multiset(ordered) == multiset(versions) && SortedBy(Descending, ordered)
    requires multiset(retained) == multiset(ordered[..keep])
    ensures IsRetention(versions, keep, retained, ordered[keep..])
  {
    hide LexAtMost;
    var pruned := ordered[keep..];
    assert ordered == ordered[..keep] + pruned;
    SameLength(retained, ordered[..keep]);
    PermutationKeepsMembers(retained, ordered[..keep]);
    forall r, p | r in retained && p in pruned
      ensures p.code <= r.code
    {
      var i :| 0 <= i < keep && ordered[..keep][i] == r;
      var j :| 0 <= j < |pruned| && pruned[j] == p;
      assert Descending(ordered[i], ordered[keep + j]);
    }
  }

  // ---------------------------------------------------------------------
  // What stays reachable
  // ---------------------------------------------------------------------

  /** No two different nodes share a code. */
  ghost predicate CodesIdentify(versions: seq<VersionNode>) {
    forall n, m | n in versions && m in versions && n.code == m.code :: n == m
  }

  lemma DistinctCodesIdentify(versions: seq<VersionNode>)
    requires DistinctCodes(versions)
    ensures CodesIdentify(versions)
  {}

  /** The walk from a code sees only what lies above it, and not the order. */
  lemma {:induction false} SameAboveSameWalk(a: seq<VersionNode>, b: seq<VersionNode>, current: int)
    requires CodesIdentify(a) && CodesIdentify(b)
    requires forall n: VersionNode | current < n.code :: n in a <==> n in b
    ensures Walk(a, current) == Walk(b, current)
    decreases Ahead(a, current)
  {
    var next, other := NextTarget(a, current), NextTarget(b, current);
    assert next.Some? ==> Eligible(next.value, current);
    assert other.Some? ==> Eligible(other.value, current);
    assert next == other;
    if next.Some? {
      assert next.value in Ahead(a, current) && next.value !in Ahead(a, next.value.code);
      SameAboveSameWalk(a, b, next.value.code);
    }
  }

  /** Pruning changes no path: from any code not below a retained node the walk
      over the retained list is the walk over the full one. */
  lemma PruningKeepsEveryPath(
    versions: seq<VersionNode>, keep: int, retained: seq<VersionNode>, pruned: seq<VersionNode>,
    anchor: VersionNode, current: int)
    requires DistinctCodes(versions) && IsRetention(versions, keep, retained, pruned)
    requires anchor in retained && anchor.code <= current
    ensures Walk(retained, current) == Walk(versions, current)
  {
    DistinctCodesIdentify(versions);
    RetainedAreListed(versions, keep, retained, pruned);
    SameAboveSameWalk(retained, versions, current);
  }

  lemma RetainedAreListed(
    versions: seq<VersionNode>, keep: int, retained: seq<VersionNode>, pruned: seq<VersionNode>)
    requires IsRetention(versions, keep, retained, pruned)
    ensures forall n :: n in versions <==> n in retained || n in pruned
  {
    forall n
      ensures n in versions <==> n in retained || n in pruned
    {
      assert n in versions <==> n in multiset(versions);
      assert n in retained <==> n in multiset(retained);
      assert n in pruned <==> n in multiset(pruned);
    }
  }

  lemma RetainedStayDistinct(
    versions: seq<VersionNode>, keep: int, retained: seq<VersionNode>, pruned: seq<VersionNode>)
    requires DistinctCodes(versions) && IsRetention(versions, keep, retained, pruned)
    ensures DistinctCodes(retained)
  {
    var key := (n: VersionNode) => n.code;
    var both := retained + pruned;
    PermutationKeepsDistinct(key, versions, both);
    forall i, j | 0 <= i < j < |retained|
      ensures retained[i].code != retained[j].code
    {
      assert key(both[i]) != key(both[j]);
    }
  }

  lemma {:induction false} DistinctCodesCount(versions: seq<VersionNode>)
    requires DistinctCodes(versions)
    ensures |set n | n in versions| == |versions|
  {
    if versions != [] {
      var init, last := versions[..|versions| - 1], versions[|versions| - 1];
      DistinctCodesCount(init);
      assert (set n | n in versions) == (set n | n in init) + {last};
      assert last !in init;
    }
  }

  lemma SmallerSet<T>(a: set<T>, b: set<T>)
    requires a <= b
    ensures |a| <= |b|
  {
    assert b == a + (b - a);
  }

  /** Keeping the newest, node by node: a node stays exactly if fewer than `keep`
      nodes are above it. */
  lemma RetainedIff(
    versions: seq<VersionNode>, keep: int, retained: seq<VersionNode>, pruned: seq<VersionNode>, node: VersionNode)
    requires DistinctCodes(versions) && IsRetention(versions, keep, retained, pruned) && node in versions
    ensures node in retained <==> keep <= 0 || |Ahead(versions, node.code)| < keep
    ensures node in retained <==> node !in pruned
  {
    var above, kept := Ahead(versions, node.code), set n | n in retained;
    RetainedAreListed(versions, keep, retained, pruned);
    RetainedStayDistinct(versions, keep, retained, pruned);
    DistinctCodesCount(versions);
    DistinctCodesCount(retained);
    RetainedOrPruned(versions, keep, retained, pruned, node);
    if node in retained {
      if |retained| < |versions| {
        SmallerSet(above + {node}, kept);
      } else {
        SmallerSet(above + {node}, set n | n in versions);
      }
    } else {
      NothingPruned(versions, keep, retained, pruned);
      forall n | n in kept
        ensures n in above
      {
        DistinctCodesIdentify(versions);
      }
      SmallerSet(kept, above);
    }
  }

  lemma NothingPruned(
    versions: seq<VersionNode>, keep: int, retained: seq<VersionNode>, pruned: seq<VersionNode>)
    requires IsRetention(versions, keep, retained, pruned)
    ensures |retained| + |pruned| == |versions|
    ensures pruned != [] ==> keep > 0 && |retained| == keep
  {
    assert |multiset(retained)| + |multiset(pruned)| == |multiset(versions)|;
  }

  /** A node is not both kept and cut. */
  lemma RetainedOrPruned(
    versions: seq<VersionNode>, keep: int, retained: seq<VersionNode>, pruned: seq<VersionNode>, node: VersionNode)
    requires DistinctCodes(versions) && IsRetention(versions, keep, retained, pruned) && node in versions
    ensures node in retained <==> node !in pruned
  {
    RetainedAreListed(versions, keep, retained, pruned);
    if node in retained && node in pruned {
      assert multiset(versions)[node] >= 2 by {
        assert node in multiset(retained) && node in multiset(pruned);
      }
      var i, j := TwiceMeansTwoPlaces(versions, node);
    }
  }

  /** As long as a node that is not yanked survives, pruning keeps the head and
      strands nobody. */
  lemma PruningStrandsNobody(
    index: Index, keep: int, retained: seq<VersionNode>, pruned: seq<VersionNode>, survivor: VersionNode)
    requires DistinctCodes(index.versions) && IsRetention(index.versions, keep, retained, pruned)
    requires survivor in retained && !survivor.yanked
    ensures Head(retained) == Head(index.versions)
    ensures !Holds(index, Unreachable) ==> !Holds(index.(versions := retained), Unreachable)
  {
    DistinctCodesIdentify(index.versions);
    RetainedAreListed(index.versions, keep, retained, pruned);
    assert Head(retained).value == Head(index.versions).value;
    forall n | n in retained && !Holds(index, Unreachable)
      ensures !Strands(retained, n.code)
    {
      PruningKeepsEveryPath(index.versions, keep, retained, pruned, n, n.code);
      assert !Strands(index.versions, n.code);
    }
  }

  lemma {:induction false} ChainExtends(
    versions: seq<VersionNode>, larger: seq<VersionNode>, start: int, path: seq<VersionNode>, node: VersionNode)
    requires IsChain(versions, start, path) && path != []
    requires forall n | n in versions :: n in larger
    requires node in larger && !node.yanked && node.minFrom <= path[|path| - 1].code
    ensures IsChain(larger, start, path + [node])
    decreases |path|
  {
    assert (path + [node])[1..] == path[1..] + [node];
    if |path| > 1 {
      ChainExtends(versions, larger, path[0].code, path[1..], node);
    } else {
      assert path[1..] + [node] == [node];
      assert [node][1..] == [];
    }
  }

  lemma AppendedReachableFrom(
    versions: seq<VersionNode>, node: VersionNode, grown: seq<VersionNode>, start: int)
    requires Head(versions).Some? && node.minFrom <= Head(versions).value.code
    requires forall n :: n in grown <==> n in versions || n == node
    requires Head(grown) == Some(node) && start < node.code
    requires start >= Head(versions).value.code || ReachesHead(versions, start)
    ensures ReachesHead(grown, start)
  {
    var head := Head(versions).value;
    if start >= head.code {
      assert [node][1..] == [];
      GreedyStaysAhead(grown, head.code, [node], start);
    } else {
      WalkIsRisingChain(versions, start);
      var path := Walk(versions, start);
      ChainExtends(versions, grown, start, path, node);
      GreedyStaysAhead(grown, start, path + [node], start);
    }
  }

  lemma {:induction false} LastHopIsAllowed(
    versions: seq<VersionNode>, start: int, path: seq<VersionNode>)
    requires IsChain(versions, start, path) && path != []
    ensures path[|path| - 1] in versions
    ensures path[|path| - 1].minFrom <= if |path| == 1 then start else path[|path| - 2].code
    ensures |path| > 1 ==> path[|path| - 2] in versions && !path[|path| - 2].yanked
    decreases |path|
  {
    if |path| > 1 {
      LastHopIsAllowed(versions, path[0].code, path[1..]);
    }
  }

  /** Who reaches a release above everything else, among the versions kept with
      it: h is the highest code of the others that are not yanked. */
  lemma AppendedReachesIff(kept: seq<VersionNode>, node: VersionNode, h: int, start: int)
    requires node in kept && Head(kept) == Some(node) && CodesIdentify(kept) && start < node.code
    requires forall n | n in kept && n != node && !n.yanked :: n.code <= h
    requires node.minFrom <= h ==>
      forall n | n in kept && n != node && !n.yanked :: ReachesHead(kept, n.code)
    ensures ReachesHead(kept, start) <==>
      node.minFrom <= start || (node.minFrom <= h && exists n :: n in kept && n != node && Eligible(n, start))
  {
    if ReachesHead(kept, start) {
      WalkAsksLess(kept, node, h, start);
    }
    if node.minFrom <= start {
      assert [node][1..] == [];
      GreedyStaysAhead(kept, start, [node], start);
    }
    if exists n :: node.minFrom <= h && n in kept && n != node && Eligible(n, start) {
      var n :| node.minFrom <= h && n in kept && n != node && Eligible(n, start);
      OneHopMore(kept, n, start);
    }
  }

  lemma WalkAsksLess(kept: seq<VersionNode>, node: VersionNode, h: int, start: int)
    requires node in kept && Head(kept) == Some(node) && CodesIdentify(kept) && start < node.code
    requires forall n | n in kept && n != node && !n.yanked :: n.code <= h
    requires ReachesHead(kept, start)
    ensures node.minFrom <= start || (node.minFrom <= h && exists n :: n in kept && n != node && Eligible(n, start))
  {
    var path := Walk(kept, start);
    WalkIsRisingChain(kept, start);
    LastHopIsAllowed(kept, start, path);
    assert path[|path| - 1] == node;
    if |path| > 1 {
      assert path[|path| - 2].code < path[|path| - 1].code;
      assert path[0].code < path[|path| - 1].code;
      assert path[0] != node && Eligible(path[0], start);
    }
  }

  lemma OneHopMore(versions: seq<VersionNode>, n: VersionNode, start: int)
    requires n in versions && Eligible(n, start) && ReachesHead(versions, n.code)
    requires start < Head(versions).value.code
    ensures ReachesHead(versions, start)
  {
    var path := Walk(versions, n.code);
    WalkIsRisingChain(versions, n.code);
    assert ([n] + path)[1..] == path;
    GreedyStaysAhead(versions, start, [n] + path, start);
  }
}
