/** The symlink rules of a payload table and the memoised, depth-bounded
    resolver that checks them (internal/payload/table.go). */
module Symlinks {
  import opened Wrappers
  import opened Paths

  const MAX_SYMLINK_DEPTH: nat := 40

  /** The symlink entries of a table: relpath to raw link target. */
  type Links = map<Path, string>

  // ---------------------------------------------------------------------
  // Reference resolution, without memo
  // ---------------------------------------------------------------------

  predicate ValidTarget(target: string) {
    target != "" && target[0] != '/' && '\\' !in target && '\0' !in target
  }

  /** Where a link points, joined to its own directory; [] is ".". */
  function Joined(rel: Path, target: string): Path {
    CleanOnto(Dir(rel), Split(target))
  }

  predicate LeavesContent(joined: Path) {
    joined == [] || Escapes(joined)
  }

  /** What the link at rel resolves to when at most `fuel` nested hops are
      allowed: the resolver with no memo and with 40 - depth = fuel. */
  function LinkEnd(links: Links, rel: Path, fuel: nat): Option<Path>
    requires rel in links
    decreases fuel, 0
  {
    if fuel == 0 || !ValidTarget(links[rel]) || LeavesContent(Joined(rel, links[rel])) then None
    else PathEnd(links, [], Joined(rel, links[rel]), fuel - 1)
  }

  /** Expand every symlink met while walking `rest` from `current`. */
  function PathEnd(links: Links, current: Path, rest: Path, fuel: nat): Option<Path>
    decreases fuel, 1 + |rest|
  {
    if rest == [] then Some(current)
    else
      var next := current + [rest[0]];
      if next !in links then PathEnd(links, next, rest[1..], fuel)
      else
        var resolved := LinkEnd(links, next, fuel);
        if resolved.None? then None else PathEnd(links, resolved.value, rest[1..], fuel)
  }

  ghost predicate Resolves(links: Links, rel: Path, end: Path) {
    rel in links && exists fuel: nat :: LinkEnd(links, rel, fuel) == Some(end)
  }

  ghost predicate PathResolves(links: Links, current: Path, rest: Path, end: Path) {
    exists fuel: nat :: PathEnd(links, current, rest, fuel) == Some(end)
  }

  lemma {:induction false} MoreFuelSameEnd(links: Links, rel: Path, fuel: nat, more: nat)
    requires rel in links && fuel <= more && LinkEnd(links, rel, fuel).Some?
    ensures LinkEnd(links, rel, more) == LinkEnd(links, rel, fuel)
    decreases fuel, 0
  {
    MoreFuelSamePath(links, [], Joined(rel, links[rel]), fuel - 1, more - 1);
  }

  lemma {:induction false} MoreFuelSamePath(links: Links, current: Path, rest: Path, fuel: nat, more: nat)
    requires fuel <= more && PathEnd(links, current, rest, fuel).Some?
    ensures PathEnd(links, current, rest, more) == PathEnd(links, current, rest, fuel)
    decreases fuel, 1 + |rest|
  {
    if rest != [] {
      var next := current + [rest[0]];
      if next in links {
        MoreFuelSameEnd(links, next, fuel, more);
        MoreFuelSamePath(links, LinkEnd(links, next, fuel).value, rest[1..], fuel, more);
      } else {
        MoreFuelSamePath(links, next, rest[1..], fuel, more);
      }
    }
  }

  /** A link has at most one end, whatever the depth it was reached at. */
  lemma EndIsUnique(links: Links, rel: Path, a: Path, b: Path)
    requires Resolves(links, rel, a) && Resolves(links, rel, b)
    ensures a == b
  {
    var f: nat :| LinkEnd(links, rel, f) == Some(a);
    var g: nat :| LinkEnd(links, rel, g) == Some(b);
    MoreFuelSameEnd(links, rel, f, f + g);
    MoreFuelSameEnd(links, rel, g, f + g);
  }

  lemma PathStepsOver(links: Links, current: Path, rest: Path, end: Path)
    requires rest != [] && current + [rest[0]] !in links
    requires PathResolves(links, current + [rest[0]], rest[1..], end)
    ensures PathResolves(links, current, rest, end)
  {
    var f: nat :| PathEnd(links, current + [rest[0]], rest[1..], f) == Some(end);
    assert PathEnd(links, current, rest, f) == Some(end);
  }

  lemma PathStepsThrough(links: Links, current: Path, rest: Path, via: Path, end: Path)
    requires rest != [] && Resolves(links, current + [rest[0]], via)
    requires PathResolves(links, via, rest[1..], end)
    ensures PathResolves(links, current, rest, end)
  {
    var f: nat :| LinkEnd(links, current + [rest[0]], f) == Some(via);
    var g: nat :| PathEnd(links, via, rest[1..], g) == Some(end);
    MoreFuelSameEnd(links, current + [rest[0]], f, f + g);
    MoreFuelSamePath(links, via, rest[1..], g, f + g);
    assert PathEnd(links, current, rest, f + g) == Some(end);
  }

  // ---------------------------------------------------------------------
  // Where a link points
  // ---------------------------------------------------------------------

  /** Walking one segment further follows a link if there is one and just goes
      there otherwise. */
  lemma WalkOneStep(links: Links, current: Path, segment: string, end: Path)
    ensures PathResolves(links, current, [segment], end) <==>
      (if current + [segment] in links then Resolves(links, current + [segment], end) else end == current + [segment])
  {
    var next, rest := current + [segment], [segment];
    assert current + [rest[0]] == next && rest[1..] == [];
    if PathResolves(links, current, rest, end) {
      var fuel: nat :| PathEnd(links, current, rest, fuel) == Some(end);
      var via := if next in links then LinkEnd(links, next, fuel) else Some(next);
      assert via.Some? && PathEnd(links, via.value, rest[1..], fuel) == Some(end);
    }
    if next !in links {
      assert PathEnd(links, current, rest, 0) == Some(next);
    } else if Resolves(links, next, end) {
      NothingLeft(links, end);
      PathStepsThrough(links, current, rest, end, end);
    }
  }

  /** A walk is made of its parts. */
  lemma {:induction false} WalkInSteps(links: Links, current: Path, a: Path, b: Path, end: Path)
    ensures PathResolves(links, current, a + b, end) <==>
      exists via :: PathResolves(links, current, a, via) && PathResolves(links, via, b, end)
  {
    if PathResolves(links, current, a + b, end) {
      var fuel: nat :| PathEnd(links, current, a + b, fuel) == Some(end);
      WalkedInSteps(links, current, a, b, fuel);
      var via := PathEnd(links, current, a, fuel).value;
      assert PathResolves(links, current, a, via) && PathResolves(links, via, b, end);
    }
    if via :| PathResolves(links, current, a, via) && PathResolves(links, via, b, end) {
      var f: nat :| PathEnd(links, current, a, f) == Some(via);
      var g: nat :| PathEnd(links, via, b, g) == Some(end);
      MoreFuelSamePath(links, current, a, f, f + g);
      MoreFuelSamePath(links, via, b, g, f + g);
      WalkedInSteps(links, current, a, b, f + g);
    }
  }

  lemma {:induction false} WalkedInSteps(links: Links, current: Path, a: Path, b: Path, fuel: nat)
    ensures PathEnd(links, current, a + b, fuel) ==
      var via := PathEnd(links, current, a, fuel);
      if via.None? then None else PathEnd(links, via.value, b, fuel)
    decreases |a|
  {
    hide LinkEnd;
    if a == [] {
      assert a + b == b;
    } else {
      assert (a + b)[1..] == a[1..] + b;
      var next := current + [a[0]];
      if next !in links {
        WalkedInSteps(links, next, a[1..], b, fuel);
      } else if LinkEnd(links, next, fuel).Some? {
        WalkedInSteps(links, LinkEnd(links, next, fuel).value, a[1..], b, fuel);
      }
    }
  }

  /** k directories up from d and then down: below the content root and not the
      root itself. */
  predicate StaysInside(d: Path, k: nat, down: Path) {
    k <= |d| && d[..|d| - k] + down != []
  }

  lemma {:induction false} TargetStartsAtItsDirectory(rel: Path, target: string, d: Path, k: nat, down: Path)
    requires rel != [] && d == rel[..|rel| - 1] && AllPlain(d) && AllPlain(down)
    requires CleanOnto([], Split(target)) == Ups(k) + down
    ensures LeavesContent(Joined(rel, target)) <==> !StaysInside(d, k, down)
    ensures StaysInside(d, k, down) ==> Joined(rel, target) == d[..|d| - k] + down
  {
    CleanPlain([], d);
    assert [] + d == d;
    CleanPlain(d, []);
    CleanFirst(d, [], Split(target));
    CleanUpAndDown(d, k, down);
    if StaysInside(d, k, down) {
      var there := d[..|d| - k] + down;
      assert AllPlain(there) && Plain(there[0]);
    }
  }

  /** A target is read from the directory its link is in: with its own cleaning k
      times ".." and then plain segments, a link in d ends where the path k
      directories above d and then down ends. One that would leave the content
      that way, or come out at its root, ends nowhere. */
  lemma TargetIsRelativeToItsLink(links: Links, d: Path, name: string, k: nat, down: Path, end: Path)
    requires d + [name] in links && var target := links[d + [name]];
      target != "" && target[0] != '/' && '\\' !in target && '\0' !in target
    requires AllPlain(d) && AllPlain(down) && CleanOnto([], Split(links[d + [name]])) == Ups(k) + down
    ensures Resolves(links, d + [name], end) <==>
      k <= |d| && d[..|d| - k] + down != [] && PathResolves(links, [], d[..|d| - k] + down, end)
  {
    var rel := d + [name];
    assert ValidTarget(links[rel]);
    hide CleanOnto, PathEnd, ValidTarget;
    assert d == rel[..|rel| - 1];
    TargetStartsAtItsDirectory(rel, links[rel], d, k, down);
    if Resolves(links, rel, end) {
      var fuel: nat :| LinkEnd(links, rel, fuel) == Some(end);
      assert PathEnd(links, [], Joined(rel, links[rel]), fuel - 1) == Some(end);
    }
    if StaysInside(d, k, down) && PathResolves(links, [], d[..|d| - k] + down, end) {
      PathEndIsLinkEnd(links, rel, end);
    }
  }

  /** The same for a target written just so. */
  lemma WrittenTarget(k: nat, down: Path)
    requires k + |down| > 0 && AllPlain(down)
    requires forall i | 0 <= i < |down| :: '/' !in down[i] && '\\' !in down[i] && '\0' !in down[i]
    ensures ValidTarget(Join(Ups(k) + down))
    ensures CleanOnto([], Split(Join(Ups(k) + down))) == Ups(k) + down
  {
    hide CleanOnto, Split;
    var parts := Ups(k) + down;
    assert forall i | 0 <= i < |parts| :: parts[i] != "" && '/' !in parts[i];
    SplitOfJoin(parts);
    UpsThenPlain(k, down);
    CleanIsItself([], parts);
    assert [] + parts == parts;
    WrittenIsValid(parts);
  }

  lemma UpsThenPlain(k: nat, down: Path)
    requires AllPlain(down)
    ensures UpThenDown([] + (Ups(k) + down))
  {}

  lemma WrittenIsValid(parts: Path)
    requires parts != []
    requires forall i | 0 <= i < |parts| ::
      parts[i] != "" && '/' !in parts[i] && '\\' !in parts[i] && '\0' !in parts[i]
    ensures ValidTarget(Join(parts))
  {
    JoinHasNo('\\', parts);
    JoinHasNo('\0', parts);
    assert Join(parts)[0] == parts[0][0];
  }

  lemma {:induction false} JoinHasNo(c: char, parts: seq<string>)
    requires c != '/' && forall i | 0 <= i < |parts| :: c !in parts[i]
    ensures c !in Join(parts)
  {
    if |parts| > 1 {
      JoinHasNo(c, parts[1..]);
    }
  }

  /** What the resolver answers for a link it has not met before, with depth to
      spare: a refusal for its target if that is empty, absolute or has a back
      slash or a zero, one for leaving the content if k directories up from the
      link's own and then down leaves it, and else what it makes of that path. */
  lemma RefusedForItsTarget(links: Links, memo: Memo, d: Path, name: string, k: nat, down: Path, fuel: nat)
    requires d + [name] in links && d + [name] !in memo && 0 < fuel
    requires AllPlain(d) && AllPlain(down) && CleanOnto([], Split(links[d + [name]])) == Ups(k) + down
    ensures
      var rel := d + [name];
      var target := links[rel];
      var bad := target == "" || target[0] == '/' || '\\' in target || '\0' in target;
      MemoLink(links, memo, rel, fuel).0 ==
        if bad then Err(InvalidTarget(rel))
        else if k > |d| || (k == |d| && down == []) then Err(OutsideContent(rel))
        else MemoPath(links, memo, [], d[..|d| - k] + down, fuel - 1).0
  {
    var rel := d + [name];
    assert d == rel[..|rel| - 1];
    assert ValidTarget(links[rel]) <==>
      !(links[rel] == "" || links[rel][0] == '/' || '\\' in links[rel] || '\0' in links[rel]);
    hide CleanOnto, MemoPath, LeavesContent, ValidTarget;
    TargetStartsAtItsDirectory(rel, links[rel], d, k, down);
    assert k < |d| ==> d[..|d| - k] != [];
    assert k == |d| ==> d[..|d| - k] + down == down;
  }

  // ---------------------------------------------------------------------
  // Ends are link-free and inside; resolving is idempotent
  // ---------------------------------------------------------------------

  /** Neither the path nor any ancestor is a link. */
  ghost predicate LinkFree(links: Links, p: Path) {
    forall k | 0 < k <= |p| :: p[..k] !in links
  }

  lemma LinkFreeGrows(links: Links, p: Path, segment: string)
    requires LinkFree(links, p) && p + [segment] !in links
    ensures LinkFree(links, p + [segment])
  {
    forall k | 0 < k <= |p| + 1
      ensures (p + [segment])[..k] !in links
    {
      if k <= |p| {
        assert (p + [segment])[..k] == p[..k];
      } else {
        assert (p + [segment])[..k] == p + [segment];
      }
    }
  }

  lemma {:induction false} PathEndIsGood(links: Links, current: Path, rest: Path, fuel: nat)
    requires LinkFree(links, current) && AllPlain(current) && AllPlain(rest)
    requires forall rel | rel in links :: IsClean(rel)
    requires PathEnd(links, current, rest, fuel).Some?
    ensures LinkFree(links, PathEnd(links, current, rest, fuel).value)
    ensures AllPlain(PathEnd(links, current, rest, fuel).value)
    decreases fuel, 1 + |rest|
  {
    if rest != [] {
      var next := current + [rest[0]];
      if next in links {
        LinkEndIsGood(links, next, fuel);
        PathEndIsGood(links, LinkEnd(links, next, fuel).value, rest[1..], fuel);
      } else {
        LinkFreeGrows(links, current, rest[0]);
        PathEndIsGood(links, next, rest[1..], fuel);
      }
    }
  }

  /** A link that resolves ends at a path with no link in it, inside the content. */
  lemma {:induction false} LinkEndIsGood(links: Links, rel: Path, fuel: nat)
    requires forall rel | rel in links :: IsClean(rel)
    requires rel in links && LinkEnd(links, rel, fuel).Some?
    ensures LinkFree(links, LinkEnd(links, rel, fuel).value)
    ensures AllPlain(LinkEnd(links, rel, fuel).value)
    decreases fuel, 0
  {
    CleanStaysInside([], rel[..|rel| - 1]);
    CleanStaysInside(Dir(rel), Split(links[rel]));
    PathEndIsGood(links, [], Joined(rel, links[rel]), fuel - 1);
  }

  lemma {:induction false} ResolvedPathIsItself(links: Links, current: Path, rest: Path, fuel: nat)
    requires LinkFree(links, current + rest)
    ensures PathEnd(links, current, rest, fuel) == Some(current + rest)
    decreases |rest|
  {
    if rest == [] {
      assert current + rest == current;
    } else {
      assert (current + rest)[..|current| + 1] == current + [rest[0]];
      assert current + [rest[0]] + rest[1..] == current + rest;
      ResolvedPathIsItself(links, current + [rest[0]], rest[1..], fuel);
    }
  }

  // ---------------------------------------------------------------------
  // No link needs itself
  // ---------------------------------------------------------------------

  /** Walking `rest` from `current` runs into the link `other`. */
  ghost predicate Meets(links: Links, current: Path, rest: Path, other: Path)
    decreases |rest|
  {
    rest != [] &&
    var next := current + [rest[0]];
    if next in links then
      next == other || exists end :: Resolves(links, next, end) && Meets(links, end, rest[1..], other)
    else Meets(links, next, rest[1..], other)
  }

  /** Resolving rel asks directly for the end of `other`. */
  ghost predicate Needs(links: Links, rel: Path, other: Path) {
    && rel in links && other in links
    && ValidTarget(links[rel]) && !LeavesContent(Joined(rel, links[rel]))
    && Meets(links, [], Joined(rel, links[rel]), other)
  }

  lemma {:induction false} MetLinksCostLess(links: Links, current: Path, rest: Path, other: Path, fuel: nat)
    requires Meets(links, current, rest, other) && other in links
    requires PathEnd(links, current, rest, fuel).Some?
    ensures LinkEnd(links, other, fuel).Some?
    decreases |rest|
  {
    var next := current + [rest[0]];
    if next !in links {
      MetLinksCostLess(links, next, rest[1..], other, fuel);
    } else if next != other {
      var end :| Resolves(links, next, end) && Meets(links, end, rest[1..], other);
      EndIsUnique(links, next, end, LinkEnd(links, next, fuel).value);
      MetLinksCostLess(links, end, rest[1..], other, fuel);
    }
  }

  ghost predicate IsNeedCycle(links: Links, cycle: seq<Path>) {
    && |cycle| >= 2 && cycle[0] == cycle[|cycle| - 1]
    && forall i | 0 <= i < |cycle| - 1 :: Needs(links, cycle[i], cycle[i + 1])
  }

  lemma {:induction false} NeedsCostLess(links: Links, chain: seq<Path>, k: nat, fuel: nat)
    requires k < |chain| && chain[0] in links
    requires forall i | 0 <= i < |chain| - 1 :: Needs(links, chain[i], chain[i + 1])
    requires LinkEnd(links, chain[0], fuel).Some?
    ensures k <= fuel && chain[k] in links && LinkEnd(links, chain[k], fuel - k).Some?
    decreases k
  {
    if k > 0 {
      NeedsCostLess(links, chain, k - 1, fuel);
      assert Needs(links, chain[k - 1], chain[k - 1 + 1]);
      MetLinksCostLess(links, [], Joined(chain[k - 1], links[chain[k - 1]]), chain[k], fuel - k);
    }
  }

  /** A link that needs itself, at any distance, has no end at any depth. */
  lemma {:induction false} NoEndOnACycle(links: Links, cycle: seq<Path>, fuel: nat)
    requires IsNeedCycle(links, cycle) && cycle[0] in links
    ensures LinkEnd(links, cycle[0], fuel).None?
    decreases fuel
  {
    if LinkEnd(links, cycle[0], fuel).Some? {
      NeedsCostLess(links, cycle, |cycle| - 1, fuel);
      NoEndOnACycle(links, cycle, fuel - (|cycle| - 1));
    }
  }

  /** No depth is enough for the link. */
  ghost predicate DeadEnd(links: Links, rel: Path) {
    rel in links && forall fuel: nat :: LinkEnd(links, rel, fuel).None?
  }

  predicate Defective(links: Links, rel: Path) {
    rel in links && (!ValidTarget(links[rel]) || LeavesContent(Joined(rel, links[rel])))
  }

  /** Each link asks for the next one, and the last is defective or occurred before. */
  ghost predicate Dooms(links: Links, chain: seq<Path>) {
    && NeedChain(links, chain)
    && (Defective(links, chain[|chain| - 1]) ||
        exists i :: 0 <= i < |chain| - 1 && chain[i] == chain[|chain| - 1])
  }

  ghost predicate NeedChain(links: Links, chain: seq<Path>) {
    chain != [] && chain[0] in links && forall i | 0 <= i < |chain| - 1 :: Needs(links, chain[i], chain[i + 1])
  }

  /** A walk that no depth is enough for meets a link that none is enough for. */
  lemma {:induction false} StuckOnADeadEnd(links: Links, current: Path, rest: Path) returns (other: Path)
    requires forall fuel: nat :: PathEnd(links, current, rest, fuel).None?
    ensures Meets(links, current, rest, other) && DeadEnd(links, other)
    decreases |rest|
  {
    assert PathEnd(links, current, rest, 0).None?;
    var next := current + [rest[0]];
    if next !in links {
      forall fuel: nat
        ensures PathEnd(links, next, rest[1..], fuel).None?
      {
        assert PathEnd(links, current, rest, fuel).None?;
      }
      other := StuckOnADeadEnd(links, next, rest[1..]);
    } else if DeadEnd(links, next) {
      other := next;
    } else {
      var f: nat :| LinkEnd(links, next, f).Some?;
      var end := LinkEnd(links, next, f).value;
      forall fuel: nat
        ensures PathEnd(links, end, rest[1..], fuel).None?
      {
        StuckBehind(links, current, rest, f, fuel);
      }
      other := StuckOnADeadEnd(links, end, rest[1..]);
    }
  }

  lemma StuckBehind(links: Links, current: Path, rest: Path, f: nat, fuel: nat)
    requires rest != [] && current + [rest[0]] in links && LinkEnd(links, current + [rest[0]], f).Some?
    requires PathEnd(links, current, rest, f + fuel).None?
    ensures PathEnd(links, LinkEnd(links, current + [rest[0]], f).value, rest[1..], fuel).None?
  {
    var next := current + [rest[0]];
    var end := LinkEnd(links, next, f).value;
    MoreFuelSameEnd(links, next, f, f + fuel);
    if PathEnd(links, end, rest[1..], fuel).Some? {
      MoreFuelSamePath(links, end, rest[1..], fuel, f + fuel);
    }
  }

  lemma DeadEndNeedsOne(links: Links, rel: Path) returns (other: Path)
    requires DeadEnd(links, rel) && !Defective(links, rel)
    ensures Needs(links, rel, other) && DeadEnd(links, other)
  {
    forall fuel: nat
      ensures PathEnd(links, [], Joined(rel, links[rel]), fuel).None?
    {
      assert LinkEnd(links, rel, fuel + 1).None?;
    }
    other := StuckOnADeadEnd(links, [], Joined(rel, links[rel]));
  }

  lemma {:induction false} DeadEndIsDoomed(links: Links, soFar: seq<Path>) returns (chain: seq<Path>)
    requires NeedChain(links, soFar) && DeadEnd(links, soFar[|soFar| - 1])
    requires forall p | p in soFar :: p in links
    ensures Dooms(links, chain) && chain[0] == soFar[0]
    decreases links.Keys - set p | p in soFar
  {
    hide DeadEnd, Defective, Needs;
    var last := soFar[|soFar| - 1];
    if Defective(links, last) {
      chain := soFar;
    } else {
      var other := DeadEndNeedsOne(links, last);
      var longer := soFar + [other];
      ChainGrows(links, soFar, other);
      if other in soFar {
        var i :| 0 <= i < |soFar| && soFar[i] == other;
        assert longer[i] == other;
        chain := longer;
      } else {
        DeadEndIsALink(links, other);
        assert other in links.Keys - (set p | p in soFar) && other !in links.Keys - (set p | p in longer);
        chain := DeadEndIsDoomed(links, longer);
      }
    }
  }

  lemma ChainGrows(links: Links, chain: seq<Path>, other: Path)
    requires NeedChain(links, chain) && Needs(links, chain[|chain| - 1], other)
    ensures NeedChain(links, chain + [other])
  {}

  lemma DeadEndIsALink(links: Links, rel: Path)
    requires DeadEnd(links, rel)
    ensures rel in links
  {}

  lemma DoomedIsADeadEnd(links: Links, chain: seq<Path>, fuel: nat)
    requires Dooms(links, chain)
    ensures LinkEnd(links, chain[0], fuel).None?
  {
    hide Needs, CleanOnto;
    var last := |chain| - 1;
    if LinkEnd(links, chain[0], fuel).Some? {
      NeedsCostLess(links, chain, last, fuel);
      var i :| 0 <= i < last && chain[i] == chain[last];
      NeedsCostLess(links, chain, i, fuel);
      TailIsACycle(links, chain, i);
      NoEndOnACycle(links, chain[i..], fuel - i);
    }
  }

  lemma TailIsACycle(links: Links, chain: seq<Path>, i: nat)
    requires i < |chain| - 1 && chain[i] == chain[|chain| - 1] && NeedChain(links, chain)
    ensures IsNeedCycle(links, chain[i..])
  {
    hide Needs;
    forall j | 0 <= j < |chain[i..]| - 1
      ensures Needs(links, chain[i..][j], chain[i..][j + 1])
    {
      assert Needs(links, chain[i + j], chain[i + j + 1]);
    }
  }

  /** A link has no end at any depth exactly when what it asks for, and what that
      asks for in turn, leads to a link with a bad target or round in a circle. */
  lemma NoEndIff(links: Links, rel: Path)
    requires rel in links
    ensures DeadEnd(links, rel) <==> exists chain :: Dooms(links, chain) && chain[0] == rel
  {
    hide Defective, Needs;
    if DeadEnd(links, rel) {
      var chain := DeadEndIsDoomed(links, [rel]);
    }
    if exists chain :: Dooms(links, chain) && chain[0] == rel {
      var chain :| Dooms(links, chain) && chain[0] == rel;
      forall fuel: nat
        ensures LinkEnd(links, rel, fuel).None?
      {
        DoomedIsADeadEnd(links, chain, fuel);
      }
    }
  }

  // ---------------------------------------------------------------------
  // The memoised resolver
  // ---------------------------------------------------------------------

  datatype LinkError =
    | TooDeep(link: Path)
    | InvalidTarget(link: Path)
    | OutsideContent(link: Path)

  /** The two error kinds that name a defect of one link name a real one. */
  ghost predicate Justified(links: Links, error: LinkError) {
    && error.link in links
    && (error.InvalidTarget? ==> !ValidTarget(links[error.link]))
    && (error.OutsideContent? ==>
        ValidTarget(links[error.link]) && LeavesContent(Joined(error.link, links[error.link])))
  }

  /** Ends found so far. */
  type Memo = map<Path, Path>

  /** The resolver as a function of its memo, with 40 - depth = fuel: the outcome
      and the memo afterwards. */
  function MemoLink(links: Links, memo: Memo, rel: Path, fuel: nat): (Result<Path, LinkError>, Memo)
    requires rel in links
    decreases fuel, 0
  {
    if rel in memo then (Ok(memo[rel]), memo)
    else if fuel == 0 then (Err(TooDeep(rel)), memo)
    else if !ValidTarget(links[rel]) then (Err(InvalidTarget(rel)), memo)
    else if LeavesContent(Joined(rel, links[rel])) then (Err(OutsideContent(rel)), memo)
    else
      var (r, grown) := MemoPath(links, memo, [], Joined(rel, links[rel]), fuel - 1);
      (r, if r.Ok? then grown[rel := r.value] else grown)
  }

  function MemoPath(links: Links, memo: Memo, current: Path, rest: Path, fuel: nat): (Result<Path, LinkError>, Memo)
    decreases fuel, 1 + |rest|
  {
    if rest == [] then (Ok(current), memo)
    else
      var next := current + [rest[0]];
      if next !in links then MemoPath(links, memo, next, rest[1..], fuel)
      else
        var (r, grown) := MemoLink(links, memo, next, fuel);
        if r.Err? then (r, grown) else MemoPath(links, grown, r.value, rest[1..], fuel)
  }

  class LinkResolver {
    const links: Links
    var memo: Memo

    constructor (links: Links)
      ensures this.links == links && memo == map[]
    {
      this.links := links;
      memo := map[];
    }

    method ResolveLink(rel: Path, depth: nat) returns (r: Result<Path, LinkError>)
      requires rel in links && depth <= MAX_SYMLINK_DEPTH
      modifies this`memo
      ensures (r, memo) == MemoLink(links, old(memo), rel, MAX_SYMLINK_DEPTH - depth)
      decreases MAX_SYMLINK_DEPTH - depth, 0
    {
      if rel in memo {
        return Ok(memo[rel]);
      }
      if depth >= MAX_SYMLINK_DEPTH {
        return Err(TooDeep(rel));
      }
      var target := links[rel];
      if !ValidTarget(target) {
        return Err(InvalidTarget(rel));
      }
      var joined := CleanOnto(Dir(rel), Split(target));
      if joined == [] || Escapes(joined) {
        return Err(OutsideContent(rel));
      }
      r := ResolvePath(joined, depth + 1);
      if r.Err? {
        return;
      }
      memo := memo[rel := r.value];
    }

    method ResolvePath(p: Path, depth: nat) returns (r: Result<Path, LinkError>)
      requires depth <= MAX_SYMLINK_DEPTH
      modifies this`memo
      ensures (r, memo) == MemoPath(links, old(memo), [], p, MAX_SYMLINK_DEPTH - depth)
      decreases MAX_SYMLINK_DEPTH - depth, 1 + |p|
    {
      var current: Path := [];
      ghost var fuel := MAX_SYMLINK_DEPTH - depth;
      for i := 0 to |p|
        invariant MemoPath(links, old(memo), [], p, fuel) == MemoPath(links, memo, current, p[i..], fuel)
      {
        var next := current + [p[i]];
        assert p[i..][0] == p[i] && p[i..][1..] == p[i + 1..];
        if next in links {
          var resolved := ResolveLink(next, depth);
          if resolved.Err? {
            return Err(resolved.error);
          }
          next := resolved.value;
        }
        current := next;
      }
      r := Ok(current);
    }
  }

  // ---------------------------------------------------------------------
  // What the memo is worth
  // ---------------------------------------------------------------------

  /** Walking `rest` from `current` meets only links that the memo has. */
  ghost predicate WalksIn(links: Links, memo: Memo, current: Path, rest: Path)
    decreases |rest|
  {
    rest == [] ||
    var next := current + [rest[0]];
    if next in links then next in memo && WalksIn(links, memo, memo[next], rest[1..])
    else WalksIn(links, memo, next, rest[1..])
  }

  /** Every entry is the end the reference resolver gives, and the memo also has
      every link on the way to it. */
  ghost predicate Good(links: Links, memo: Memo) {
    forall rel | rel in memo ::
      Resolves(links, rel, memo[rel]) && WalksIn(links, memo, [], Joined(rel, links[rel]))
  }

  ghost predicate Included(small: Memo, big: Memo) {
    forall rel | rel in small :: rel in big && big[rel] == small[rel]
  }

  lemma {:induction false} WalksInMore(links: Links, small: Memo, big: Memo, current: Path, rest: Path)
    requires Included(small, big) && WalksIn(links, small, current, rest)
    ensures WalksIn(links, big, current, rest)
    decreases |rest|
  {
    if rest != [] {
      var next := current + [rest[0]];
      WalksInMore(links, small, big, if next in links then small[next] else next, rest[1..]);
    }
  }

  lemma EntryJoins(links: Links, memo: Memo, rel: Path, end: Path)
    requires Good(links, memo) && Resolves(links, rel, end)
    requires WalksIn(links, memo, [], Joined(rel, links[rel]))
    ensures Good(links, memo[rel := end]) && Included(memo, memo[rel := end])
  {
    if rel in memo {
      EndIsUnique(links, rel, end, memo[rel]);
    }
    forall other | other in memo[rel := end]
      ensures WalksIn(links, memo[rel := end], [], Joined(other, links[other]))
    {
      WalksInMore(links, memo, memo[rel := end], [], Joined(other, links[other]));
    }
  }

  /** Resolving keeps a memo good, whatever the outcome, and adds to it what it
      found; an error that names a defect of a link names a real one. */
  lemma {:induction false} LinkKeepsGood(links: Links, memo: Memo, rel: Path, fuel: nat)
    requires Good(links, memo) && rel in links
    ensures var (r, grown) := MemoLink(links, memo, rel, fuel);
      && Good(links, grown) && Included(memo, grown)
      && (r.Ok? ==> rel in grown && grown[rel] == r.value && Resolves(links, rel, r.value))
      && (r.Err? ==> Justified(links, r.error))
    decreases fuel, 0
  {
    hide Good, Included, WalksIn, Resolves, PathResolves;
    MemoIsIncluded(links, memo);
    if rel in memo {
      EntryIsRight(links, memo, rel);
    } else if fuel > 0 && ValidTarget(links[rel]) && !LeavesContent(Joined(rel, links[rel])) {
      var joined := Joined(rel, links[rel]);
      PathKeepsGood(links, memo, [], joined, fuel - 1);
      var (r, grown) := MemoPath(links, memo, [], joined, fuel - 1);
      if r.Ok? {
        PathEndIsLinkEnd(links, rel, r.value);
        EntryJoins(links, grown, rel, r.value);
        InclusionComposes(memo, grown, grown[rel := r.value]);
      }
    }
  }

  lemma MemoIsIncluded(links: Links, memo: Memo)
    ensures Included(memo, memo)
  {}

  lemma EntryIsRight(links: Links, memo: Memo, rel: Path)
    requires Good(links, memo) && rel in memo
    ensures Resolves(links, rel, memo[rel]) && WalksIn(links, memo, [], Joined(rel, links[rel]))
  {}

  lemma InclusionComposes(a: Memo, b: Memo, c: Memo)
    requires Included(a, b) && Included(b, c)
    ensures Included(a, c)
  {}

  lemma PathEndIsLinkEnd(links: Links, rel: Path, end: Path)
    requires rel in links && ValidTarget(links[rel]) && !LeavesContent(Joined(rel, links[rel]))
    requires PathResolves(links, [], Joined(rel, links[rel]), end)
    ensures Resolves(links, rel, end)
  {
    var f: nat :| PathEnd(links, [], Joined(rel, links[rel]), f) == Some(end);
    assert LinkEnd(links, rel, f + 1) == Some(end);
  }

  lemma {:induction false} PathKeepsGood(links: Links, memo: Memo, current: Path, rest: Path, fuel: nat)
    requires Good(links, memo)
    ensures var (r, grown) := MemoPath(links, memo, current, rest, fuel);
      && Good(links, grown) && Included(memo, grown)
      && (r.Ok? ==> WalksIn(links, grown, current, rest) && PathResolves(links, current, rest, r.value))
      && (r.Err? ==> Justified(links, r.error))
    decreases fuel, 1 + |rest|
  {
    hide Good, Resolves, PathResolves, Included;
    MemoIsIncluded(links, memo);
    if rest == [] {
      NothingLeft(links, current);
    } else {
      var next := current + [rest[0]];
      var (r, grown) := MemoPath(links, memo, current, rest, fuel);
      if next !in links {
        PathKeepsGood(links, memo, next, rest[1..], fuel);
        if r.Ok? {
          PathStepsOver(links, current, rest, r.value);
        }
      } else {
        LinkKeepsGood(links, memo, next, fuel);
        var (via, between) := MemoLink(links, memo, next, fuel);
        if via.Ok? {
          PathKeepsGood(links, between, via.value, rest[1..], fuel);
          InclusionComposes(memo, between, grown);
          EntryStays(between, grown, next);
          if r.Ok? {
            PathStepsThrough(links, current, rest, via.value, r.value);
          }
        }
      }
    }
  }

  lemma NothingLeft(links: Links, current: Path)
    ensures PathResolves(links, current, [], current)
  {
    assert PathEnd(links, current, [], 0) == Some(current);
  }

  lemma EntryStays(small: Memo, big: Memo, rel: Path)
    requires Included(small, big) && rel in small
    ensures rel in big && big[rel] == small[rel]
  {}

  // ---------------------------------------------------------------------
  // A larger memo only helps
  // ---------------------------------------------------------------------

  /** What a smaller memo learns from a link the larger one has, the larger one
      knows already. */
  lemma {:induction false} LinkStaysIncluded(links: Links, small: Memo, big: Memo, rel: Path, fuel: nat)
    requires Good(links, small) && Good(links, big) && Included(small, big) && rel in big && rel in links
    ensures Included(MemoLink(links, small, rel, fuel).1, big)
    ensures MemoLink(links, small, rel, fuel).0.Ok? ==> MemoLink(links, small, rel, fuel).0.value == big[rel]
    decreases fuel, 0
  {
    hide Good, WalksIn, Included, Resolves, CleanOnto;
    LinkKeepsGood(links, small, rel, fuel);
    EntryIsRight(links, big, rel);
    var (r, grown) := MemoLink(links, small, rel, fuel);
    if r.Ok? {
      EndIsUnique(links, rel, r.value, big[rel]);
    }
    if rel !in small && fuel > 0 {
      PathStaysIncluded(links, small, big, [], Joined(rel, links[rel]), fuel - 1);
      if r.Ok? {
        AddedIsIncluded(MemoPath(links, small, [], Joined(rel, links[rel]), fuel - 1).1, big, rel);
      }
    }
  }

  lemma AddedIsIncluded(small: Memo, big: Memo, rel: Path)
    requires Included(small, big) && rel in big
    ensures Included(small[rel := big[rel]], big)
  {}

  lemma {:induction false} PathStaysIncluded(
    links: Links, small: Memo, big: Memo, current: Path, rest: Path, fuel: nat)
    requires Good(links, small) && Good(links, big) && Included(small, big) && WalksIn(links, big, current, rest)
    ensures Included(MemoPath(links, small, current, rest, fuel).1, big)
    decreases fuel, 1 + |rest|
  {
    hide Good;
    if rest != [] {
      var next := current + [rest[0]];
      if next !in links {
        PathStaysIncluded(links, small, big, next, rest[1..], fuel);
      } else {
        LinkStaysIncluded(links, small, big, next, fuel);
        LinkKeepsGood(links, small, next, fuel);
        var (via, between) := MemoLink(links, small, next, fuel);
        if via.Ok? {
          PathStaysIncluded(links, between, big, via.value, rest[1..], fuel);
        }
      }
    }
  }

  /** A link that resolves with some memo and some depth to spare resolves to the
      same end with every larger memo and no less depth, and the larger memo
      stays the larger one. */
  lemma {:induction false} LargerMemoResolvesToo(
    links: Links, small: Memo, big: Memo, rel: Path, fuel: nat, more: nat)
    requires Good(links, small) && Good(links, big) && Included(small, big) && rel in links && fuel <= more
    requires MemoLink(links, small, rel, fuel).0.Ok?
    ensures MemoLink(links, big, rel, more).0 == MemoLink(links, small, rel, fuel).0
    ensures Included(MemoLink(links, small, rel, fuel).1, MemoLink(links, big, rel, more).1)
    decreases fuel, 0
  {
    hide Good;
    if rel in big {
      LinkStaysIncluded(links, small, big, rel, fuel);
    } else {
      LargerMemoWalksToo(links, small, big, [], Joined(rel, links[rel]), fuel - 1, more - 1);
    }
  }

  lemma {:induction false} LargerMemoWalksToo(
    links: Links, small: Memo, big: Memo, current: Path, rest: Path, fuel: nat, more: nat)
    requires Good(links, small) && Good(links, big) && Included(small, big) && fuel <= more
    requires MemoPath(links, small, current, rest, fuel).0.Ok?
    ensures MemoPath(links, big, current, rest, more).0 == MemoPath(links, small, current, rest, fuel).0
    ensures Included(
      MemoPath(links, small, current, rest, fuel).1, MemoPath(links, big, current, rest, more).1)
    decreases fuel, 1 + |rest|
  {
    hide Good;
    if rest != [] {
      var next := current + [rest[0]];
      if next !in links {
        LargerMemoWalksToo(links, small, big, next, rest[1..], fuel, more);
      } else {
        LargerMemoResolvesToo(links, small, big, next, fuel, more);
        LinkKeepsGood(links, small, next, fuel);
        LinkKeepsGood(links, big, next, more);
        var (via, between) := MemoLink(links, small, next, fuel);
        LargerMemoWalksToo(links, between, MemoLink(links, big, next, more).1, via.value, rest[1..], fuel, more);
      }
    }
  }

  /** Whatever the reference resolver reaches within a depth, the memoised one
      reaches too, with any good memo. */
  lemma {:induction false} MemoLosesNothing(links: Links, memo: Memo, rel: Path, fuel: nat)
    requires Good(links, memo) && rel in links && LinkEnd(links, rel, fuel).Some?
    ensures MemoLink(links, memo, rel, fuel).0 == Ok(LinkEnd(links, rel, fuel).value)
    decreases fuel, 0
  {
    if rel in memo {
      EndIsUnique(links, rel, memo[rel], LinkEnd(links, rel, fuel).value);
    } else {
      MemoLosesNoPath(links, memo, [], Joined(rel, links[rel]), fuel - 1);
    }
  }

  lemma {:induction false} MemoLosesNoPath(links: Links, memo: Memo, current: Path, rest: Path, fuel: nat)
    requires Good(links, memo) && PathEnd(links, current, rest, fuel).Some?
    ensures MemoPath(links, memo, current, rest, fuel).0 == Ok(PathEnd(links, current, rest, fuel).value)
    decreases fuel, 1 + |rest|
  {
    hide Good;
    if rest != [] {
      var next := current + [rest[0]];
      if next !in links {
        MemoLosesNoPath(links, memo, next, rest[1..], fuel);
      } else {
        MemoLosesNothing(links, memo, next, fuel);
        LinkKeepsGood(links, memo, next, fuel);
        var (via, between) := MemoLink(links, memo, next, fuel);
        MemoLosesNoPath(links, between, via.value, rest[1..], fuel);
      }
    }
  }

  /** What the refusal for depth means, with whatever memo: the link is doomed, or
      it has an end that is further away than the bound. */
  lemma TooDeepMeans(links: Links, memo: Memo, rel: Path)
    requires Good(links, memo) && rel in links
    requires var r := MemoLink(links, memo, rel, 40).0; r.Err? && r.error.TooDeep?
    ensures
      || (exists chain :: Dooms(links, chain) && chain[0] == rel)
      || (exists fuel: nat :: 40 < fuel && LinkEnd(links, rel, fuel).Some?)
  {
    hide Good, Needs, Defective, LinkEnd, MemoLink;
    RefusedHasNoEndSoNear(links, memo, rel);
    NoEndIff(links, rel);
    if !DeadEnd(links, rel) {
      var fuel: nat :| LinkEnd(links, rel, fuel).Some?;
      FurtherThan(links, rel, MAX_SYMLINK_DEPTH, fuel);
    }
  }

  lemma RefusedHasNoEndSoNear(links: Links, memo: Memo, rel: Path)
    requires Good(links, memo) && rel in links
    requires MemoLink(links, memo, rel, MAX_SYMLINK_DEPTH).0.Err?
    ensures LinkEnd(links, rel, MAX_SYMLINK_DEPTH).None?
  {
    hide Good, LinkEnd, MemoLink;
    if LinkEnd(links, rel, MAX_SYMLINK_DEPTH).Some? {
      MemoLosesNothing(links, memo, rel, MAX_SYMLINK_DEPTH);
    }
  }

  lemma FurtherThan(links: Links, rel: Path, near: nat, far: nat)
    requires rel in links && LinkEnd(links, rel, near).None? && LinkEnd(links, rel, far).Some?
    ensures near < far
  {
    hide LinkEnd;
    if far <= near {
      MoreFuelSameEnd(links, rel, far, near);
    }
  }
}
