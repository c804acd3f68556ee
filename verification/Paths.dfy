/** Slash paths as lists of segments, and the lexical cleaning that path.Join,
    path.Clean and path.Dir perform on them. */
module Paths {

  /** A path is what strings.Split(p, "/") makes of it. */
  type Path = seq<string>

  function Split(s: string): (parts: seq<string>)
    ensures parts != []
  {
    if s == [] then [[]]
    else
      var rest := Split(s[1..]);
      if s[0] == '/' then [[]] + rest else [[s[0]] + rest[0]] + rest[1..]
  }

  function Join(parts: seq<string>): string {
    if parts == [] then ""
    else if |parts| == 1 then parts[0] else parts[0] + "/" + Join(parts[1..])
  }

  lemma {:induction false} SplitOfOneSegment(s: string)
    requires '/' !in s
    ensures Split(s) == [s]
  {
    if s != [] {
      SplitOfOneSegment(s[1..]);
      assert s == [s[0]] + s[1..];
    }
  }

  lemma {:induction false} SplitPrepend(s: string, rest: string)
    requires '/' !in s
    ensures Split(s + "/" + rest) == [s] + Split(rest)
  {
    var whole := s + "/" + rest;
    if s == [] {
      assert whole == ['/'] + rest;
      assert whole[1..] == rest;
    } else {
      SplitPrepend(s[1..], rest);
      assert whole == [s[0]] + (s[1..] + "/" + rest);
      assert whole[1..] == s[1..] + "/" + rest;
      assert [s[0]] + s[1..] == s;
    }
  }

  /** Splitting undoes joining. */
  lemma {:induction false} SplitOfJoin(parts: seq<string>)
    requires parts != [] && forall i | 0 <= i < |parts| :: '/' !in parts[i]
    ensures Split(Join(parts)) == parts
  {
    if |parts| == 1 {
      SplitOfOneSegment(parts[0]);
    } else {
      SplitOfJoin(parts[1..]);
      SplitPrepend(parts[0], Join(parts[1..]));
      assert parts == [parts[0]] + parts[1..];
    }
  }

  predicate Plain(segment: string) {
    segment != "" && segment != "." && segment != ".."
  }

  /** A clean path that stays below where it starts; never empty. */
  predicate IsClean(p: Path) {
    p != [] && AllPlain(p)
  }

  predicate AllPlain(p: Path) {
    forall i | 0 <= i < |p| :: Plain(p[i])
  }

  /** path.Clean of base/parts, for a base that is clean already: a result of []
      stands for ".", and a path that escapes starts with "..". */
  function CleanOnto(base: Path, parts: seq<string>): Path
    decreases |parts|
  {
    if parts == [] then base
    else if parts[0] == "" || parts[0] == "." then CleanOnto(base, parts[1..])
    else if parts[0] != ".." then CleanOnto(base + [parts[0]], parts[1..])
    else if base != [] && base[|base| - 1] != ".." then CleanOnto(base[..|base| - 1], parts[1..])
    else CleanOnto(base + [".."], parts[1..])
  }

  predicate Escapes(p: Path) {
    p != [] && p[0] == ".."
  }

  /** Some run of ".." and then plain segments: what cleaning leaves. */
  ghost predicate UpThenDown(p: Path) {
    && (forall i | 0 <= i < |p| :: Plain(p[i]) || p[i] == "..")
    && (forall i, j | 0 <= i < j < |p| && p[j] == ".." :: p[i] == "..")
  }

  /** Cleaning keeps the path lexically inside, or says that it left. */
  lemma {:induction false} CleanStaysInside(base: Path, parts: seq<string>)
    requires UpThenDown(base)
    ensures UpThenDown(CleanOnto(base, parts))
    ensures !Escapes(CleanOnto(base, parts)) ==> AllPlain(CleanOnto(base, parts))
    decreases |parts|
  {
    if parts != [] {
      if parts[0] == "" || parts[0] == "." {
        CleanStaysInside(base, parts[1..]);
      } else if parts[0] != ".." {
        CleanStaysInside(base + [parts[0]], parts[1..]);
      } else if base != [] && base[|base| - 1] != ".." {
        CleanStaysInside(base[..|base| - 1], parts[1..]);
      } else {
        CleanStaysInside(base + [".."], parts[1..]);
      }
    }
  }

  lemma {:induction false} CleanIsItself(base: Path, parts: Path)
    requires UpThenDown(base + parts)
    ensures CleanOnto(base, parts) == base + parts
    decreases |parts|
  {
    if parts == [] {
      assert base + parts == base;
    } else {
      assert (base + parts)[|base|] == parts[0];
      assert base + [parts[0]] + parts[1..] == base + parts;
      if parts[0] == ".." && base != [] {
        assert (base + parts)[|base| - 1] == base[|base| - 1];
      }
      CleanIsItself(base + [parts[0]], parts[1..]);
    }
  }

  function Ups(k: nat): Path {
    seq(k, _ => "..")
  }

  lemma {:induction false} CleanInSteps(base: Path, a: Path, b: Path)
    ensures CleanOnto(base, a + b) == CleanOnto(CleanOnto(base, a), b)
    decreases |a|
  {
    if a == [] {
      assert a + b == b;
    } else {
      assert (a + b)[1..] == a[1..] + b;
      if a[0] == "" || a[0] == "." {
        CleanInSteps(base, a[1..], b);
      } else if a[0] != ".." {
        CleanInSteps(base + [a[0]], a[1..], b);
      } else if base != [] && base[|base| - 1] != ".." {
        CleanInSteps(base[..|base| - 1], a[1..], b);
      } else {
        CleanInSteps(base + [".."], a[1..], b);
      }
    }
  }

  /** Empty segments and "." count for nothing. */
  lemma CleanSkipsDots(base: Path, a: Path, dot: string, b: Path)
    requires dot == "" || dot == "."
    ensures CleanOnto(base, a + [dot] + b) == CleanOnto(base, a + b)
  {
    CleanInSteps(base, a, [dot] + b);
    CleanInSteps(base, a, b);
    assert a + [dot] + b == a + ([dot] + b);
    assert ([dot] + b)[1..] == b;
  }

  /** A plain segment and the ".." after it cancel. */
  lemma CleanCancels(base: Path, a: Path, down: string, b: Path)
    requires Plain(down)
    ensures CleanOnto(base, a + [down, ".."] + b) == CleanOnto(base, a + b)
  {
    CleanInSteps(base, a, [down, ".."] + b);
    CleanInSteps(base, a, b);
    assert a + [down, ".."] + b == a + ([down, ".."] + b);
    var there := CleanOnto(base, a);
    assert ([down, ".."] + b)[1..] == [".."] + b && ([".."] + b)[1..] == b;
    assert (there + [down])[..|there + [down]| - 1] == there;
  }

  /** What is left then, k times up and then down, starts at the base: it stays
      below where that started, or comes out above it. */
  lemma {:induction false} CleanUpAndDown(base: Path, k: nat, down: Path)
    requires AllPlain(base) && AllPlain(down)
    ensures CleanOnto(base, Ups(k) + down) ==
      if k <= |base| then base[..|base| - k] + down else Ups(k - |base|) + down
    decreases k
  {
    if k == 0 {
      assert Ups(0) + down == down;
      assert base[..|base|] == base;
      CleanPlain(base, down);
    } else if base == [] {
      assert [] + Ups(k) + down == Ups(k) + down;
      CleanIsItself([], Ups(k) + down);
    } else {
      assert (Ups(k) + down)[1..] == Ups(k - 1) + down;
      CleanUpAndDown(base[..|base| - 1], k - 1, down);
    }
  }

  /** Cleaning the parts by themselves first changes nothing. */
  lemma {:induction false} CleanFirst(base: Path, clean: Path, parts: seq<string>)
    requires UpThenDown(clean)
    ensures CleanOnto(base, CleanOnto(clean, parts)) == CleanOnto(CleanOnto(base, clean), parts)
    decreases |parts|
  {
    if parts != [] {
      if parts[0] == "" || parts[0] == "." {
        CleanFirst(base, clean, parts[1..]);
      } else if parts[0] == ".." && clean != [] && clean[|clean| - 1] != ".." {
        var shorter := clean[..|clean| - 1];
        CleanInSteps(base, shorter, clean[|clean| - 1..]);
        assert shorter + clean[|clean| - 1..] == clean;
        var there := CleanOnto(base, shorter);
        assert (there + clean[|clean| - 1..])[..|there + clean[|clean| - 1..]| - 1] == there;
        CleanFirst(base, shorter, parts[1..]);
      } else {
        CleanInSteps(base, clean, [parts[0]]);
        CleanFirst(base, clean + [parts[0]], parts[1..]);
      }
    }
  }

  lemma {:induction false} CleanPlain(base: Path, parts: Path)
    requires AllPlain(parts)
    ensures CleanOnto(base, parts) == base + parts
    decreases |parts|
  {
    if parts == [] {
      assert base + parts == base;
    } else {
      assert Plain(parts[0]);
      CleanPlain(base + [parts[0]], parts[1..]);
      assert base + [parts[0]] + parts[1..] == base + parts;
    }
  }

  // ---------------------------------------------------------------------
  // Parents
  // ---------------------------------------------------------------------

  /** The parent directory of a relative path, as path.Dir cleans it; [] is ".". */
  function Dir(rel: Path): Path {
    if rel == [] then [] else CleanOnto([], rel[..|rel| - 1])
  }

  /** The path starts with a slash. */
  predicate Rooted(p: Path) {
    |p| > 1 && p[0] == ""
  }

  const ROOT: Path := ["", ""]

  /** path.Clean of "/" and the parts: nothing lies above the root. */
  function CleanRooted(base: Path, parts: seq<string>): Path
    decreases |parts|
  {
    if parts == [] then base
    else if parts[0] == "" || parts[0] == "." then CleanRooted(base, parts[1..])
    else if parts[0] != ".." then CleanRooted(base + [parts[0]], parts[1..])
    else if base != [] then CleanRooted(base[..|base| - 1], parts[1..])
    else CleanRooted([], parts[1..])
  }

  /** path.Dir: relative paths have relative parents, rooted ones rooted parents,
      and the root is its own. */
  function Parent(p: Path): Path {
    Spelled(Rooted(p), ParentSegments(p))
  }

  /** The segments of the parent, "." and the root having none. */
  function ParentSegments(p: Path): Path {
    if Rooted(p) then CleanRooted([], p[1..|p| - 1]) else Dir(p)
  }

  function Spelled(rooted: bool, segments: Path): Path {
    if !rooted then segments else if segments == [] then ROOT else [""] + segments
  }

  /** path.Dir, k times. */
  function Up(p: Path, k: nat): Path {
    if k == 0 then p else Parent(Up(p, k - 1))
  }

  lemma {:induction false} CleanRootedIsPlain(base: Path, parts: seq<string>)
    requires AllPlain(base)
    ensures AllPlain(CleanRooted(base, parts))
    decreases |parts|
  {
    if parts != [] {
      if parts[0] == "" || parts[0] == "." {
        CleanRootedIsPlain(base, parts[1..]);
      } else if parts[0] != ".." {
        CleanRootedIsPlain(base + [parts[0]], parts[1..]);
      } else if base != [] {
        CleanRootedIsPlain(base[..|base| - 1], parts[1..]);
      } else {
        CleanRootedIsPlain([], parts[1..]);
      }
    }
  }

  lemma {:induction false} CleanRootedIsItself(base: Path, parts: Path)
    requires AllPlain(parts)
    ensures CleanRooted(base, parts) == base + parts
    decreases |parts|
  {
    if parts == [] {
      assert base + parts == base;
    } else {
      assert Plain(parts[0]);
      CleanRootedIsItself(base + [parts[0]], parts[1..]);
      assert base + [parts[0]] + parts[1..] == base + parts;
    }
  }

  /** What is left of the parent's segments after k more steps. */
  function Shortened(segments: Path, k: nat): Path {
    if k <= |segments| then segments[..|segments| - k] else []
  }

  /** Clean as it is by then, a directory just loses its last segment. */
  lemma ParentDropsLast(rooted: bool, segments: Path)
    requires if rooted then AllPlain(segments) else UpThenDown(segments)
    ensures Parent(Spelled(rooted, segments)) == Spelled(rooted, Shortened(segments, 1))
  {
    var dir := Spelled(rooted, segments);
    if segments != [] {
      var shorter := segments[..|segments| - 1];
      if rooted {
        assert dir[1..|dir| - 1] == shorter;
        CleanRootedIsItself([], shorter);
        assert [] + shorter == shorter;
      } else {
        assert segments[0] != "";
        assert [] + shorter == shorter;
        CleanIsItself([], shorter);
      }
    }
  }

  lemma ParentIsClean(p: Path)
    ensures if Rooted(p) then AllPlain(ParentSegments(p)) else UpThenDown(ParentSegments(p))
  {
    if Rooted(p) {
      CleanRootedIsPlain([], p[1..|p| - 1]);
    } else if p != [] {
      CleanStaysInside([], p[..|p| - 1]);
    }
  }

  lemma {:induction false} ParentsShorten(p: Path, k: nat)
    ensures Up(p, k + 1) == Spelled(Rooted(p), Shortened(ParentSegments(p), k))
  {
    hide CleanOnto, CleanRooted, Dir, Parent, ParentSegments, Rooted;
    var segments := ParentSegments(p);
    assert Shortened(segments, 0) == segments;
    if k == 0 {
      FirstParent(p);
    } else {
      ParentsShorten(p, k - 1);
      ParentIsClean(p);
      var last := Shortened(segments, k - 1);
      ParentDropsLast(Rooted(p), last);
      assert Shortened(last, 1) == Shortened(segments, k);
    }
  }

  lemma FirstParent(p: Path)
    ensures Up(p, 1) == Spelled(Rooted(p), ParentSegments(p))
  {}

  /** For a plain path each parent drops one more segment. */
  lemma ParentsOfPlain(p: Path, k: nat)
    requires AllPlain(p) && 0 < k <= |p|
    ensures !Rooted(p) && Up(p, k) == p[..|p| - k]
  {
    hide CleanOnto, CleanRooted, Up;
    assert p[0] != "";
    CleanPlain([], p[..|p| - 1]);
    assert [] + p[..|p| - 1] == p[..|p| - 1];
    ParentsShorten(p, k - 1);
    assert p[..|p| - 1][..|p| - 1 - (k - 1)] == p[..|p| - k];
  }

  /** Taking parents comes to "." exactly for paths that are not rooted. */
  lemma ParentsEndIff(p: Path)
    ensures (exists k: nat :: Up(p, k) == []) <==> !Rooted(p)
  {
    if Rooted(p) {
      forall k: nat
        ensures Up(p, k) != []
      {
        if k > 0 {
          ParentsShorten(p, k - 1);
        }
      }
    } else {
      ParentsShorten(p, |ParentSegments(p)|);
      assert Up(p, |ParentSegments(p)| + 1) == [];
    }
  }

  /** From "/x" on, path.Dir gives "/" for ever. */
  lemma {:induction false} RootIsItsOwnParent(x: string, k: nat)
    requires k > 0
    ensures Up(["", x], k) == ROOT
  {
    if k > 1 {
      RootIsItsOwnParent(x, k - 1);
    }
  }

  /** The proper ancestors below the root: what iterating path.Dir down to "."
      visits. */
  predicate IsAncestor(dir: Path, p: Path) {
    dir != [] && |dir| < |p| && dir == p[..|dir|]
  }
}
