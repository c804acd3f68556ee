/** A run plans the next index twice: on trial, before the manifest is there, and
    again once it is uploaded (internal/publish/publish.go, Run). The second plan
    validates whenever the first one does. */
module Replanning {
  import opened Wrappers
  import opened Documents
  import opened Chain
  import opened Retention
  import opened Publishing

  // ---------------------------------------------------------------------
  // Validation does not look at manifests
  // ---------------------------------------------------------------------

  predicate SameRules(a: VersionNode, b: VersionNode) {
    a.code == b.code && a.minFrom == b.minFrom && a.yanked == b.yanked
  }

  ghost predicate Alike(a: seq<VersionNode>, b: seq<VersionNode>) {
    |a| == |b| && forall i | 0 <= i < |a| :: SameRules(a[i], b[i])
  }

  lemma {:induction false} AlikeTargets(a: seq<VersionNode>, b: seq<VersionNode>, current: int)
    requires Alike(a, b)
    ensures NextTarget(a, current).Some? <==> NextTarget(b, current).Some?
    ensures NextTarget(a, current).Some? ==> SameRules(NextTarget(a, current).value, NextTarget(b, current).value)
  {
    if a != [] {
      AlikeTargets(a[..|a| - 1], b[..|b| - 1], current);
    }
  }

  lemma {:induction false} AlikeHeads(a: seq<VersionNode>, b: seq<VersionNode>)
    requires Alike(a, b)
    ensures Head(a).Some? <==> Head(b).Some?
    ensures Head(a).Some? ==> SameRules(Head(a).value, Head(b).value)
  {
    if a != [] {
      AlikeHeads(a[..|a| - 1], b[..|b| - 1]);
    }
  }

  lemma {:induction false} AlikeWalks(a: seq<VersionNode>, b: seq<VersionNode>, current: int)
    requires Alike(a, b)
    ensures Alike(Walk(a, current), Walk(b, current))
    decreases Ahead(a, current)
  {
    AlikeTargets(a, b, current);
    var next := NextTarget(a, current);
    if next.Some? {
      assert next.value in Ahead(a, current) && next.value !in Ahead(a, next.value.code);
      AlikeWalks(a, b, next.value.code);
    }
  }

  lemma AlikeReach(a: seq<VersionNode>, b: seq<VersionNode>, start: int)
    requires Alike(a, b)
    ensures ReachesHead(a, start) <==> ReachesHead(b, start)
    ensures Strands(a, start) <==> Strands(b, start)
  {
    hide Walk, Head;
    AlikeHeads(a, b);
    AlikeWalks(a, b, start);
  }

  lemma AlikeFindings(a: Index, b: Index, finding: Finding)
    requires Alike(a.versions, b.versions) && a.minSupported == b.minSupported && Holds(a, finding)
    ensures Holds(b, finding)
  {
    hide Head, Strands;
    AlikeHeads(a.versions, b.versions);
    match finding
    case DuplicateCode =>
    case Unreachable =>
      var n :| n in a.versions && Strands(a.versions, n.code);
      var i :| 0 <= i < |a.versions| && a.versions[i] == n;
      assert SameRules(n, b.versions[i]) && b.versions[i] in b.versions;
      AlikeReach(a.versions, b.versions, n.code);
    case MinSupportedUnreachable => AlikeReach(a.versions, b.versions, a.minSupported.value);
    case ZeroUnreachable => AlikeReach(a.versions, b.versions, 0);
    case _ =>
  }

  // ---------------------------------------------------------------------
  // The same plan with another node of the same rules
  // ---------------------------------------------------------------------

  function Swap(n: VersionNode, node: VersionNode, other: VersionNode): VersionNode {
    if n == node then other else n
  }

  function Swapped(s: seq<VersionNode>, node: VersionNode, other: VersionNode): seq<VersionNode> {
    seq(|s|, i requires 0 <= i < |s| => Swap(s[i], node, other))
  }

  lemma SwapIsAlike(s: seq<VersionNode>, node: VersionNode, other: VersionNode)
    requires SameRules(node, other)
    ensures Alike(s, Swapped(s, node, other))
  {}

  lemma SwapJoins(a: seq<VersionNode>, b: seq<VersionNode>, node: VersionNode, other: VersionNode)
    ensures Swapped(a + b, node, other) == Swapped(a, node, other) + Swapped(b, node, other)
  {}

  /** How often n occurs after the swap. */
  ghost function Tally(bag: multiset<VersionNode>, node: VersionNode, other: VersionNode, n: VersionNode): nat {
    if node == other then bag[n]
    else if n == node then 0
    else if n == other then bag[other] + bag[node]
    else bag[n]
  }

  lemma TallyGrows(bag: multiset<VersionNode>, x: VersionNode, node: VersionNode, other: VersionNode, n: VersionNode)
    ensures Tally(multiset{x} + bag, node, other, n) ==
      Tally(bag, node, other, n) + if Swap(x, node, other) == n then 1 else 0
  {}

  lemma SwapSplits(s: seq<VersionNode>, node: VersionNode, other: VersionNode)
    requires s != []
    ensures Swapped(s, node, other) == [Swap(s[0], node, other)] + Swapped(s[1..], node, other)
  {}

  lemma CountGrows(x: VersionNode, s: seq<VersionNode>, n: VersionNode)
    ensures multiset([x] + s) == multiset{x} + multiset(s)
    ensures multiset([x] + s)[n] == multiset(s)[n] + if x == n then 1 else 0
  {}

  lemma {:induction false} SwapCounts(s: seq<VersionNode>, node: VersionNode, other: VersionNode, n: VersionNode)
    ensures multiset(Swapped(s, node, other))[n] == Tally(multiset(s), node, other, n)
  {
    if s != [] {
      hide Swapped, Tally, Swap;
      SwapCounts(s[1..], node, other, n);
      SwapSplits(s, node, other);
      CountGrows(Swap(s[0], node, other), Swapped(s[1..], node, other), n);
      CountGrows(s[0], s[1..], n);
      assert s == [s[0]] + s[1..];
      TallyGrows(multiset(s[1..]), s[0], node, other, n);
    }
  }

  lemma SwapKeepsPermutations(a: seq<VersionNode>, b: seq<VersionNode>, node: VersionNode, other: VersionNode)
    requires multiset(a) == multiset(b)
    ensures multiset(Swapped(a, node, other)) == multiset(Swapped(b, node, other))
  {
    hide Tally;
    forall n
      ensures multiset(Swapped(a, node, other))[n] == multiset(Swapped(b, node, other))[n]
    {
      SwapCounts(a, node, other, n);
      SwapCounts(b, node, other, n);
    }
  }

  lemma SwapMerges(existing: seq<VersionNode>, node: VersionNode, other: VersionNode)
    requires SameRules(node, other)
    ensures Swapped(Merged(existing, node), node, other) == Merged(existing, other)
  {
    var kept := Without(existing, node.code);
    forall i | 0 <= i < |kept|
      ensures kept[i] != node
    {
      WithoutKeepsTheRest(existing, node.code, kept[i]);
    }
  }

  lemma SwapKeepsCodes(s: seq<VersionNode>, node: VersionNode, other: VersionNode, n: VersionNode)
    returns (m: VersionNode)
    requires SameRules(node, other) && n in Swapped(s, node, other)
    ensures m in s && m.code == n.code
  {
    var i :| 0 <= i < |s| && Swapped(s, node, other)[i] == n;
    m := s[i];
  }

  lemma SwapRetains(
    versions: seq<VersionNode>, keep: int, retained: seq<VersionNode>, pruned: seq<VersionNode>,
    node: VersionNode, other: VersionNode)
    requires IsRetention(versions, keep, retained, pruned) && SameRules(node, other)
    ensures IsRetention(
      Swapped(versions, node, other), keep, Swapped(retained, node, other), Swapped(pruned, node, other))
  {
    hide Swapped, SameRules;
    var kept, cut := Swapped(retained, node, other), Swapped(pruned, node, other);
    forall r, p | r in kept && p in cut
      ensures p.code <= r.code
    {
      var r' := SwapKeepsCodes(retained, node, other, r);
      var p' := SwapKeepsCodes(pruned, node, other, p);
    }
    SwapIsAlike(versions, node, other);
    SwapIsAlike(retained, node, other);
    SwapKeepsParts(versions, retained, pruned, node, other);
  }

  lemma SwapKeepsParts(
    versions: seq<VersionNode>, retained: seq<VersionNode>, pruned: seq<VersionNode>, node: VersionNode,
    other: VersionNode)
    requires multiset(retained) + multiset(pruned) == multiset(versions)
    ensures multiset(Swapped(retained, node, other)) + multiset(Swapped(pruned, node, other)) ==
      multiset(Swapped(versions, node, other))
  {
    hide Swapped;
    SwapKeepsPermutations(retained + pruned, versions, node, other);
    SwapJoins(retained, pruned, node, other);
  }

  /** Whatever follows with one node, follows with another of the same rules put
      in its place. */
  lemma SwapFollows(
    existing: Index, node: VersionNode, other: VersionNode, keep: int, index: Index, pruned: seq<VersionNode>)
    requires Follows(existing, node, keep, index, pruned) && SameRules(node, other)
    ensures Follows(
      existing, other, keep, index.(versions := Swapped(index.versions, node, other)), Swapped(pruned, node, other))
  {
    hide IsRetention, Swapped, Merged;
    var retained :| IsRetention(Merged(existing.versions, node), keep, retained, pruned) &&
      IsNewIndex(NextSequence(existing.sequence), retained, existing.minSupported, index);
    SwapMerges(existing.versions, node, other);
    SwapRetains(Merged(existing.versions, node), keep, retained, pruned, node, other);
    SwapKeepsPermutations(index.versions, retained, node, other);
    SwapIsAlike(index.versions, node, other);
    var swapped := Swapped(index.versions, node, other);
    forall i, j | 0 <= i < j < |swapped|
      ensures ByCode(swapped[i], swapped[j])
    {
      assert ByCode(index.versions[i], index.versions[j]);
    }
    assert IsNewIndex(
      NextSequence(existing.sequence), Swapped(retained, node, other), existing.minSupported,
      index.(versions := swapped));
  }

  /** Where the current index lists no code twice, the plan with the manifest
      validates if the trial did. */
  lemma TrialDecides(existing: Index, trial: VersionNode, node: VersionNode, keep: int)
    requires DistinctCodes(existing.versions) && SameRules(trial, node) && WouldValidate(existing, trial, keep)
    ensures !WouldNotValidate(existing, node, keep)
  {
    hide Follows, ErrorFree;
    ValidatesOrNot(existing, trial, keep);
    forall index, pruned | Follows(existing, node, keep, index, pruned)
      ensures ErrorFree(index)
    {
      SwapFollows(existing, node, trial, keep, index, pruned);
      var swapped := index.(versions := Swapped(index.versions, node, trial));
      assert Follows(existing, trial, keep, swapped, Swapped(pruned, node, trial));
      assert ErrorFree(swapped);
      AlikeErrors(index, swapped, node, trial);
    }
  }

  lemma AlikeErrors(index: Index, swapped: Index, node: VersionNode, trial: VersionNode)
    requires swapped == index.(versions := Swapped(index.versions, node, trial)) && SameRules(trial, node)
    requires ErrorFree(swapped)
    ensures ErrorFree(index)
  {
    hide Holds;
    SwapIsAlike(index.versions, node, trial);
    forall f | f != ZeroUnreachable
      ensures !Holds(index, f)
    {
      if Holds(index, f) {
        AlikeFindings(index, swapped, f);
      }
    }
  }
}
