/** Upgrade-path selection over a release index, and the publish-time check
    that no client can be stranded (internal/chain/chain.go). */
module Chain {
  import opened Wrappers
  import opened Documents
  import Sets

  // ---------------------------------------------------------------------
  // Selection
  // ---------------------------------------------------------------------

  /** A client at `current` may be offered `node`. */
  predicate Eligible(node: VersionNode, current: int) {
    !node.yanked && current < node.code && node.minFrom <= current
  }

  /** The first node of highest code among the eligible ones. */
  function NextTarget(versions: seq<VersionNode>, current: int): (r: Option<VersionNode>)
    ensures r.None? ==> forall n | n in versions :: !Eligible(n, current)
    ensures r.Some? ==> r.value in versions && Eligible(r.value, current)
    ensures r.Some? ==> forall n | n in versions && Eligible(n, current) :: n.code <= r.value.code
  {
    if versions == [] then None
    else
      var last := versions[|versions| - 1];
      var rest := NextTarget(versions[..|versions| - 1], current);
      if Eligible(last, current) && (rest.None? || rest.value.code < last.code) then Some(last) else rest
  }

  method SelectNextTarget(index: Index, currentCode: int) returns (best: Option<VersionNode>)
    ensures best == NextTarget(index.versions, currentCode)
  {
    best := None;
    for i := 0 to |index.versions|
      invariant best == NextTarget(index.versions[..i], currentCode)
    {
      var node := index.versions[i];
      assert index.versions[..i + 1][..i] == index.versions[..i];
      if node.yanked {
        continue;
      }
      if node.code <= currentCode {
        continue;
      }
      if node.minFrom > currentCode {
        continue;
      }
      if best.None? || node.code > best.value.code {
        best := Some(node);
      }
    }
    assert index.versions[..|index.versions|] == index.versions;
  }

  /** The nodes still ahead of `current`; every step of the walk leaves fewer. */
  ghost function Ahead(versions: seq<VersionNode>, current: int): set<VersionNode> {
    set n | n in versions && current < n.code
  }

  /** The greedy walk: take the next target until there is none. */
  ghost function Walk(versions: seq<VersionNode>, current: int): seq<VersionNode>
    decreases Ahead(versions, current)
  {
    var next := NextTarget(versions, current);
    if next.None? then []
    else
      assert next.value in Ahead(versions, current) && next.value !in Ahead(versions, next.value.code);
      [next.value] + Walk(versions, next.value.code)
  }

  method ResolveUpgradePath(index: Index, currentCode: int) returns (path: seq<VersionNode>)
    ensures path == Walk(index.versions, currentCode)
  {
    path := [];
    var code := currentCode;
    while true
      invariant Walk(index.versions, currentCode) == path + Walk(index.versions, code)
      decreases Ahead(index.versions, code)
    {
      var target := SelectNextTarget(index, code);
      if target.None? {
        return;
      }
      assert target.value in Ahead(index.versions, code) && target.value !in Ahead(index.versions, target.value.code);
      path := path + [target.value];
      code := target.value.code;
    }
  }

  /** The first non-yanked node of highest code. */
  function Head(versions: seq<VersionNode>): (r: Option<VersionNode>)
    ensures r.None? ==> forall n | n in versions :: n.yanked
    ensures r.Some? ==> r.value in versions && !r.value.yanked
    ensures r.Some? ==> forall n | n in versions && !n.yanked :: n.code <= r.value.code
  {
    if versions == [] then None
    else
      var last := versions[|versions| - 1];
      var rest := Head(versions[..|versions| - 1]);
      if !last.yanked && (rest.None? || rest.value.code < last.code) then Some(last) else rest
  }

  method FindHead(index: Index) returns (head: Option<VersionNode>)
    ensures head == Head(index.versions)
  {
    head := None;
    for i := 0 to |index.versions|
      invariant head == Head(index.versions[..i])
    {
      var node := index.versions[i];
      assert index.versions[..i + 1][..i] == index.versions[..i];
      if node.yanked {
        continue;
      }
      if head.None? || node.code > head.value.code {
        head := Some(node);
      }
    }
    assert index.versions[..|index.versions|] == index.versions;
  }

  /** Among equal codes the first one listed is the target. */
  lemma {:induction false} FirstTargetWins(versions: seq<VersionNode>, current: int) returns (i: nat)
    requires NextTarget(versions, current).Some?
    ensures i < |versions| && NextTarget(versions, current) == Some(versions[i])
    ensures forall j | 0 <= j < i && Eligible(versions[j], current) :: versions[j].code < versions[i].code
  {
    i := |versions| - 1;
    var rest := NextTarget(versions[..i], current);
    if NextTarget(versions, current) == rest {
      i := FirstTargetWins(versions[..i], current);
    }
  }

  /** And the head. */
  lemma {:induction false} FirstHeadWins(versions: seq<VersionNode>) returns (i: nat)
    requires Head(versions).Some?
    ensures i < |versions| && Head(versions) == Some(versions[i])
    ensures forall j | 0 <= j < i && !versions[j].yanked :: versions[j].code < versions[i].code
  {
    i := |versions| - 1;
    var rest := Head(versions[..i]);
    if Head(versions) == rest {
      i := FirstHeadWins(versions[..i]);
    }
  }

  // ---------------------------------------------------------------------
  // The greedy walk is sound, complete and shortest
  // ---------------------------------------------------------------------

  /** An upgrade chain by the rules alone: listed, not yanked, and each node's
      minFrom at most the code before it. It need not pick the best node, and
      need not even go up. */
  ghost predicate IsChain(versions: seq<VersionNode>, start: int, path: seq<VersionNode>)
    decreases |path|
  {
    path == [] ||
    (path[0] in versions && !path[0].yanked && path[0].minFrom <= start &&
     IsChain(versions, path[0].code, path[1..]))
  }

  ghost predicate EndsAt(path: seq<VersionNode>, code: int) {
    path != [] && path[|path| - 1].code == code
  }

  ghost predicate ReachesHead(versions: seq<VersionNode>, start: int) {
    var head := Head(versions);
    head.Some? && EndsAt(Walk(versions, start), head.value.code)
  }

  lemma {:induction false} WalkIsRisingChain(versions: seq<VersionNode>, start: int)
    ensures var path := Walk(versions, start);
      && IsChain(versions, start, path)
      && (forall i | 0 <= i < |path| :: start < path[i].code)
      && (forall i, j | 0 <= i < j < |path| :: path[i].code < path[j].code)
    decreases Ahead(versions, start)
  {
    var next := NextTarget(versions, start);
    if next.Some? {
      assert next.value in Ahead(versions, start) && next.value !in Ahead(versions, next.value.code);
      WalkIsRisingChain(versions, next.value.code);
      assert Walk(versions, start)[1..] == Walk(versions, next.value.code);
    }
  }

  lemma NothingAboveHead(versions: seq<VersionNode>, start: int)
    requires Head(versions).Some? && Head(versions).value.code <= start
    ensures Walk(versions, start) == []
  {}

  /** The exchange argument: from any code not below the chain's own start, the
      greedy walk arrives, and in no more steps. */
  lemma {:induction false} GreedyStaysAhead(
    versions: seq<VersionNode>, start: int, path: seq<VersionNode>, current: int)
    requires IsChain(versions, start, path)
    requires Head(versions).Some? && EndsAt(path, Head(versions).value.code)
    requires start <= current < Head(versions).value.code
    ensures ReachesHead(versions, current)
    ensures |Walk(versions, current)| <= |path|
    decreases |path|
  {
    var head := Head(versions).value;
    var step, rest := path[0], path[1..];
    if step.code <= current {
      assert rest != [] && rest[|rest| - 1] == path[|path| - 1];
      GreedyStaysAhead(versions, step.code, rest, current);
    } else {
      assert Eligible(step, current);
      var greedy := NextTarget(versions, current).value;
      var onward := Walk(versions, greedy.code);
      assert Walk(versions, current) == [greedy] + onward;
      if greedy.code == head.code {
        NothingAboveHead(versions, greedy.code);
      } else {
        assert rest != [] && rest[|rest| - 1] == path[|path| - 1];
        GreedyStaysAhead(versions, step.code, rest, greedy.code);
        assert Walk(versions, current)[|onward|] == onward[|onward| - 1];
      }
    }
  }

  /** Below the head, the greedy walk reaches it exactly when some chain does,
      and then no chain is shorter. */
  lemma GreedyIsCompleteAndShortest(versions: seq<VersionNode>, start: int)
    requires Head(versions).Some? && start < Head(versions).value.code
    ensures ReachesHead(versions, start) <==>
      exists path :: IsChain(versions, start, path) && EndsAt(path, Head(versions).value.code)
    ensures forall path | IsChain(versions, start, path) && EndsAt(path, Head(versions).value.code) ::
      |Walk(versions, start)| <= |path|
  {
    WalkIsRisingChain(versions, start);
    forall path | IsChain(versions, start, path) && EndsAt(path, Head(versions).value.code)
      ensures ReachesHead(versions, start) && |Walk(versions, start)| <= |path|
    {
      GreedyStaysAhead(versions, start, path, start);
    }
  }

  /** A newer client can always do what an older one can. */
  lemma ReachabilityIsMonotone(versions: seq<VersionNode>, lower: int, higher: int)
    requires ReachesHead(versions, lower)
    requires lower <= higher < Head(versions).value.code
    ensures ReachesHead(versions, higher)
    ensures |Walk(versions, higher)| <= |Walk(versions, lower)|
  {
    WalkIsRisingChain(versions, lower);
    GreedyStaysAhead(versions, lower, Walk(versions, lower), higher);
  }

  // ---------------------------------------------------------------------
  // Publish-time validation
  // ---------------------------------------------------------------------

  datatype Finding =
    | DuplicateCode
    | NoHead
    | Unreachable
    | MinSupportedAboveHead
    | MinSupportedUnreachable
    | ZeroUnreachable

  ghost predicate Repeats(versions: seq<VersionNode>) {
    exists i, j :: 0 <= i < j < |versions| && versions[i].code == versions[j].code
  }

  /** A client at `code` is below the head and cannot get there. */
  ghost predicate Strands(versions: seq<VersionNode>, code: int) {
    Head(versions).Some? && code < Head(versions).value.code && !ReachesHead(versions, code)
  }

  /** What each finding claims about the index. */
  ghost predicate Holds(index: Index, finding: Finding) {
    var versions := index.versions;
    var head := Head(versions);
    match finding
    case DuplicateCode => Repeats(versions)
    case NoHead => head.None?
    case Unreachable => exists n :: n in versions && Strands(versions, n.code)
    case MinSupportedAboveHead =>
      head.Some? && index.minSupported.Some? && head.value.code < index.minSupported.value
    case MinSupportedUnreachable =>
      index.minSupported.Some? && Strands(versions, index.minSupported.value)
    case ZeroUnreachable => Strands(versions, 0)
  }

  method ReachesHeadFrom(index: Index, head: VersionNode, code: int) returns (reaches: bool)
    requires Head(index.versions) == Some(head)
    ensures reaches == ReachesHead(index.versions, code)
  {
    var path := ResolveUpgradePath(index, code);
    reaches := |path| > 0 && path[|path| - 1].code == head.code;
  }

  ghost predicate Rising(codes: seq<int>) {
    forall i, j | 0 <= i < j < |codes| :: codes[i] < codes[j]
  }

  /** sort.Ints over the keys of a map. */
  method Sorted(codes: set<int>) returns (ordered: seq<int>)
    ensures Rising(ordered)
    ensures forall c :: c in ordered <==> c in codes
  {
    var rest := codes;
    ordered := [];
    while rest != {}
      invariant rest <= codes
      invariant Rising(ordered)
      invariant forall c | c in codes :: c in ordered || c in rest
      invariant forall c | c in ordered :: c in codes && c !in rest
    {
      var code := Sets.Pick(rest);
      var k := 0;
      while k < |ordered| && ordered[k] < code
        invariant k <= |ordered|
        invariant forall i | 0 <= i < k :: ordered[i] < code
      {
        k := k + 1;
      }
      assert k < |ordered| ==> ordered[k] in ordered;
      ordered := ordered[..k] + [code] + ordered[k..];
      rest := rest - {code};
    }
  }

  ghost function Occurs(versions: seq<VersionNode>, code: int): nat {
    if versions == [] then 0
    else
      Occurs(versions[..|versions| - 1], code) + if versions[|versions| - 1].code == code then 1 else 0
  }

  lemma {:induction false} OccursOnce(versions: seq<VersionNode>, code: int)
    ensures Occurs(versions, code) > 0 <==> exists i :: 0 <= i < |versions| && versions[i].code == code
  {
    if versions != [] {
      OccursOnce(versions[..|versions| - 1], code);
    }
  }

  lemma {:induction false} OccursTwice(versions: seq<VersionNode>, code: int)
    ensures Occurs(versions, code) > 1 <==>
      exists i, j :: 0 <= i < j < |versions| && versions[i].code == versions[j].code == code
  {
    if versions != [] {
      OccursTwice(versions[..|versions| - 1], code);
      OccursOnce(versions[..|versions| - 1], code);
    }
  }

  method CountCodes(versions: seq<VersionNode>) returns (counts: map<int, nat>)
    ensures forall c :: c in counts <==> exists n :: n in versions && n.code == c
    ensures (exists c :: c in counts && counts[c] > 1) <==> Repeats(versions)
  {
    counts := map[];
    for i := 0 to |versions|
      invariant forall c :: c in counts <==> Occurs(versions[..i], c) > 0
      invariant forall c | c in counts :: counts[c] == Occurs(versions[..i], c)
    {
      assert versions[..i + 1][..i] == versions[..i];
      var code := versions[i].code;
      counts := counts[code := if code in counts then counts[code] + 1 else 1];
    }
    assert versions[..|versions|] == versions;
    forall c
      ensures c in counts <==> exists n :: n in versions && n.code == c
    {
      OccursOnce(versions, c);
    }
    if c :| c in counts && counts[c] > 1 {
      OccursTwice(versions, c);
    }
    if Repeats(versions) {
      ghost var i, j :| 0 <= i < j < |versions| && versions[i].code == versions[j].code;
      OccursTwice(versions, versions[i].code);
    }
  }

  /** The codes, in order, from which the head cannot be reached. */
  method StrandedAmong(index: Index, head: VersionNode, codes: seq<int>) returns (stranded: seq<int>)
    requires Head(index.versions) == Some(head)
    requires Rising(codes)
    ensures Rising(stranded)
    ensures forall c :: c in stranded <==> c in codes && Strands(index.versions, c)
  {
    stranded := [];
    for i := 0 to |codes|
      invariant Rising(stranded)
      invariant forall k, j | 0 <= k < |stranded| && i <= j < |codes| :: stranded[k] < codes[j]
      invariant forall c :: c in stranded <==> c in codes[..i] && Strands(index.versions, c)
    {
      var code := codes[i];
      assert codes[..i + 1] == codes[..i] + [code];
      if code >= head.code {
        continue;
      }
      var reaches := ReachesHeadFrom(index, head, code);
      if !reaches {
        stranded := stranded + [code];
      }
    }
    assert codes[..|codes|] == codes;
  }

  /** The validator's loop over the distinct listed codes. */
  method AnyListedStranded(index: Index, head: VersionNode, codeCounts: map<int, nat>) returns (any: bool)
    requires Head(index.versions) == Some(head)
    requires forall c :: c in codeCounts <==> exists n :: n in index.versions && n.code == c
    ensures any <==> Holds(index, Unreachable)
  {
    var uniqueCodes := Sorted(codeCounts.Keys);
    var stranded := StrandedAmong(index, head, uniqueCodes);
    any := stranded != [];
    if any {
      assert stranded[0] in stranded && stranded[0] in codeCounts;
    }
    if Holds(index, Unreachable) {
      ghost var n :| n in index.versions && Strands(index.versions, n.code);
      assert n.code in codeCounts && n.code in stranded;
    }
  }

  method ValidateReachability(index: Index) returns (errors: set<Finding>, warnings: set<Finding>)
    ensures forall f :: f in errors <==> f != ZeroUnreachable && Holds(index, f)
    ensures forall f :: f in warnings <==> f == ZeroUnreachable && Holds(index, f)
  {
    hide Head, ReachesHead;
    errors, warnings := {}, {};
    var codeCounts := CountCodes(index.versions);
    if exists c :: c in codeCounts && codeCounts[c] > 1 {
      errors := errors + {DuplicateCode};
    }

    var found := FindHead(index);
    if found.None? {
      errors := errors + {NoHead};
      return;
    }
    var head := found.value;

    var stranded := AnyListedStranded(index, head, codeCounts);
    if stranded {
      errors := errors + {Unreachable};
    }

    if index.minSupported.Some? {
      var minSupported := index.minSupported.value;
      if minSupported > head.code {
        errors := errors + {MinSupportedAboveHead};
      } else if minSupported < head.code {
        var reaches := ReachesHeadFrom(index, head, minSupported);
        if !reaches {
          errors := errors + {MinSupportedUnreachable};
        }
      }
    }

    if head.code > 0 {
      var reaches := ReachesHeadFrom(index, head, 0);
      if !reaches {
        warnings := warnings + {ZeroUnreachable};
      }
    }
  }

  /** The start codes the validator walks from. */
  ghost predicate IsStart(index: Index, code: int) {
    code == 0 || index.minSupported == Some(code) || exists n :: n in index.versions && n.code == code
  }

  method UnreachableStartCodes(index: Index) returns (stranded: seq<int>)
    ensures Rising(stranded)
    ensures forall c :: c in stranded <==> IsStart(index, c) && Strands(index.versions, c)
  {
    stranded := [];
    var found := FindHead(index);
    if found.None? {
      return;
    }
    var head := found.value;
    var starts := {0} + (set n | n in index.versions :: n.code);
    if index.minSupported.Some? {
      starts := starts + {index.minSupported.value};
    }
    var codes := Sorted(starts);
    stranded := StrandedAmong(index, head, codes);
    assert forall c :: c in codes <==> c in starts;
  }

  // ---------------------------------------------------------------------
  // What the validation promises
  // ---------------------------------------------------------------------

  ghost predicate ErrorFree(index: Index) {
    forall f | f != ZeroUnreachable :: !Holds(index, f)
  }

  lemma OneVersionIsErrorFree(index: Index, node: VersionNode)
    requires index.versions == [node] && !node.yanked && index.minSupported.None?
    ensures ErrorFree(index)
  {
    assert Head([node]) == Some(node);
  }

  /** An index without errors strands nobody: every client code from the lowest
      listed one up to the head, listed or not, walks to the head. */
  lemma ValidationCoversUnlistedClients(index: Index, listed: VersionNode, current: int)
    requires listed in index.versions && listed.code <= current
    ensures !Holds(index, NoHead) && !Holds(index, Unreachable) && current < Head(index.versions).value.code ==>
      ReachesHead(index.versions, current)
  {
    if !Holds(index, NoHead) && !Holds(index, Unreachable) && current < Head(index.versions).value.code {
      assert ReachesHead(index.versions, listed.code);
      ReachabilityIsMonotone(index.versions, listed.code, current);
    }
  }

  /** The stranded codes are the lowest ones: whatever lies below a stranded
      code is stranded too, so what UnreachableStartCodes returns is an initial
      segment of the starts below the head. */
  lemma StrandedIsInitialSegment(versions: seq<VersionNode>, stranded: int, lower: int)
    requires Strands(versions, stranded) && lower <= stranded
    ensures Strands(versions, lower)
  {
    if ReachesHead(versions, lower) {
      ReachabilityIsMonotone(versions, lower, stranded);
    }
  }

  /** No start is stranded exactly when none of the three reachability findings
      holds. */
  lemma NoneStrandedIffNoFinding(index: Index)
    ensures (forall c | IsStart(index, c) :: !Strands(index.versions, c)) <==>
      !Holds(index, Unreachable) && !Holds(index, MinSupportedUnreachable) && !Holds(index, ZeroUnreachable)
  {}
}
