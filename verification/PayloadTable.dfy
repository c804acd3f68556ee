/** The file table of a payload and its structural rules
    (internal/payload/table.go). */
module PayloadTable {
  import opened Wrappers
  import opened Paths
  import opened Symlinks

  const SCHEMA_V1 := "relkit.payload/1"
  const SCHEMA_V2 := "relkit.payload/2"
  const BUNDLE_INFO_PLIST: Path := ["Contents", "Info.plist"]

  datatype EntryKind = UnspecifiedKind | FileKind | SymlinkKind | UnknownKind

  datatype FileEntry = FileEntry(
    relpath: Path, kind: EntryKind, size: int, sha256: string, mode: int, linkTarget: string)

  datatype ContentUnit = UnspecifiedUnit | TreeUnit | BundleUnit | UnknownUnit

  datatype ScriptPhase = UnspecifiedPhase | PreApply | PostApply

  datatype Interpreter = UnspecifiedInterpreter | Direct | Sh | PowerShell

  datatype ScriptEntry = ScriptEntry(
    phase: ScriptPhase, relpath: Path, size: int, sha256: string,
    timeout: int, interpreter: Interpreter, args: seq<string>)

  datatype FileTable = FileTable(
    schema: string, unit: ContentUnit, bundleName: string,
    files: seq<FileEntry>, preserve: seq<Path>, scripts: seq<ScriptEntry>)

  predicate IsSymlink(entry: FileEntry) {
    entry.kind == SymlinkKind
  }

  ghost predicate AnySymlink(files: seq<FileEntry>) {
    exists e :: e in files && IsSymlink(e)
  }

  // ---------------------------------------------------------------------
  // Relative paths
  // ---------------------------------------------------------------------

  const WINDOWS_RESERVED: set<string> := {
    "CON", "PRN", "AUX", "NUL",
    "COM1", "COM2", "COM3", "COM4", "COM5", "COM6", "COM7", "COM8", "COM9",
    "LPT1", "LPT2", "LPT3", "LPT4", "LPT5", "LPT6", "LPT7", "LPT8", "LPT9"
  }

  function Upper(c: char): char {
    if 'a' <= c <= 'z' then c - 'a' + 'A' else c
  }

  /** The name up to its first dot, in upper case. */
  function Stem(name: string): string {
    if name == [] || name[0] == '.' then [] else [Upper(name[0])] + Stem(name[1..])
  }

  /** model.CheckFilename. */
  predicate FilenameOk(name: string) {
    && 0 < |name| <= 255
    && '/' !in name && '\\' !in name
    && name != "." && name != ".."
    && (forall i | 0 <= i < |name| - 1 :: !(name[i] == '.' && name[i + 1] == '.'))
    && (forall i | 0 <= i < |name| :: name[i] >= '\U{20}' && name[i] != '\U{7F}')
    && Stem(name) !in WINDOWS_RESERVED
  }

  /** payload.CheckRelpath on a path split into its segments: with every segment
      a filename, the path is relative, clean and has no backslash. */
  predicate RelpathOk(p: Path) {
    p != [] && forall i | 0 <= i < |p| :: FilenameOk(p[i])
  }

  // ---------------------------------------------------------------------
  // What a table lists
  // ---------------------------------------------------------------------

  /** The symlink entries; of two with one relpath the later one counts. */
  ghost function LinksOf(files: seq<FileEntry>): Links {
    if files == [] then map[]
    else
      var last := files[|files| - 1];
      var links := LinksOf(files[..|files| - 1]);
      if IsSymlink(last) then links[last.relpath := last.linkTarget] else links
  }

  lemma {:induction false} LinksAreEntries(files: seq<FileEntry>, rel: Path)
    ensures rel in LinksOf(files) <==> exists e :: e in files && IsSymlink(e) && e.relpath == rel
  {
    if files != [] {
      LinksAreEntries(files[..|files| - 1], rel);
      assert files == files[..|files| - 1] + [files[|files| - 1]];
    }
  }

  /** A file entry, or an ancestor directory of some entry. */
  ghost predicate Listed(files: seq<FileEntry>, p: Path) {
    || (exists e :: e in files && !IsSymlink(e) && e.relpath == p)
    || (exists e :: e in files && InsideOf(e.relpath, p))
  }

  /** p is one of the directories that iterating path.Dir from rel visits before
      it comes to ".". */
  ghost predicate InsideOf(rel: Path, p: Path) {
    p != [] && exists k: nat :: k > 0 && Up(rel, k) == p
  }

  /** For a path that is not rooted these are the prefixes of its directory. */
  lemma InsideIffPrefix(rel: Path, p: Path)
    requires !Rooted(rel)
    ensures InsideOf(rel, p) <==> p != [] && p <= Dir(rel)
  {
    if InsideOf(rel, p) {
      var k: nat :| k > 0 && Up(rel, k) == p;
      ParentsShorten(rel, k - 1);
    }
    if p != [] && p <= Dir(rel) {
      ParentsShorten(rel, |Dir(rel)| - |p|);
      assert Up(rel, |Dir(rel)| - |p| + 1) == p;
    }
  }

  lemma RelpathIsNotRooted(p: Path)
    requires RelpathOk(p)
    ensures !Rooted(p) && IsClean(p)
  {
    assert FilenameOk(p[0]);
  }

  ghost predicate ThroughNoLink(links: Links, rel: Path) {
    forall p | InsideOf(rel, p) :: p !in links
  }

  /** Every link has an end, at any depth, that the table lists. */
  ghost predicate LinksLand(files: seq<FileEntry>) {
    forall rel | rel in LinksOf(files) :: exists end :: Resolves(LinksOf(files), rel, end) && Listed(files, end)
  }

  /** A preserved path is no link and lies beneath none, and is not rooted. */
  ghost predicate PreserveOk(links: Links, p: Path) {
    p !in links && ThroughNoLink(links, p) && !Rooted(p)
  }

  /** The rules about where paths lie; they are asked of tables with links only. */
  ghost predicate PathRules(files: seq<FileEntry>, preserve: seq<Path>) {
    var links := LinksOf(files);
    links == map[] ||
    (&& (forall e | e in files :: ThroughNoLink(links, e.relpath))
     && (forall p | p in preserve :: PreserveOk(links, p)))
  }

  /** The symlink rules other than the depth bound. */
  ghost predicate SymlinkRules(table: FileTable) {
    PathRules(table.files, table.preserve) && LinksLand(table.files)
  }

  /** NeverReturns is no error of the original, which loops for ever there. */
  datatype TableError =
    | PassesThrough(rel: Path, via: Path)
    | PreserveIsLink(rel: Path)
    | BadLink(error: LinkError)
    | Dangles(rel: Path, end: Path)
    | BrokenRule(what: string)
    | NeverReturns(rel: Path)

  // ---------------------------------------------------------------------
  // The order of visits
  // ---------------------------------------------------------------------

  /** An order in which ranging over the links may give them. */
  ghost predicate IsOrder(links: Links, order: seq<Path>) {
    && (forall rel :: rel in order <==> rel in links)
    && (forall i, j | 0 <= i < j < |order| :: order[i] != order[j])
  }

  /** Resolving the links in an order, with one memo for all of them. */
  ghost function Visit(files: seq<FileEntry>, memo: Memo, order: seq<Path>): (r: Result<(), TableError>)
    requires forall rel | rel in order :: rel in LinksOf(files)
    ensures r.Err? ==> r.error.BadLink? || r.error.Dangles?
    decreases |order|
  {
    if order == [] then Ok(())
    else
      var (end, grown) := MemoLink(LinksOf(files), memo, order[0], MAX_SYMLINK_DEPTH);
      if end.Err? then Err(BadLink(end.error))
      else if !Listed(files, end.value) then Err(Dangles(order[0], end.value))
      else Visit(files, grown, order[1..])
  }

  ghost function Verdict(files: seq<FileEntry>, order: seq<Path>): Result<(), TableError>
    requires IsOrder(LinksOf(files), order)
  {
    Visit(files, map[], order)
  }

  predicate IsTooDeep(r: Result<(), TableError>) {
    r.Err? && r.error.BadLink? && r.error.error.TooDeep?
  }

  /** Whatever the order: acceptance means that every link has an end that the
      table lists, and so does a refusal for depth leave it open; any other
      refusal means that some link has none. */
  lemma {:induction false} VisitIsSound(files: seq<FileEntry>, memo: Memo, order: seq<Path>)
    requires forall rel | rel in order :: rel in LinksOf(files)
    requires Good(LinksOf(files), memo)
    ensures Visit(files, memo, order).Ok? ==> forall rel | rel in order ::
      exists end :: Resolves(LinksOf(files), rel, end) && Listed(files, end)
    ensures Visit(files, memo, order).Err? && !IsTooDeep(Visit(files, memo, order)) ==> !LinksLand(files)
    decreases |order|
  {
    hide LinksOf, Listed, Good, Justified;
    if order != [] {
      var links := LinksOf(files);
      LinkKeepsGood(links, memo, order[0], MAX_SYMLINK_DEPTH);
      var (r, grown) := MemoLink(links, memo, order[0], MAX_SYMLINK_DEPTH);
      if r.Err? {
        if !r.error.TooDeep? {
          DefectHasNoEnd(links, r.error);
        }
      } else if !Listed(files, r.value) {
        forall end | Resolves(links, order[0], end)
          ensures !Listed(files, end)
        {
          EndIsUnique(links, order[0], end, r.value);
        }
      } else {
        VisitIsSound(files, grown, order[1..]);
        assert order == [order[0]] + order[1..];
      }
    }
  }

  lemma DefectHasNoEnd(links: Links, error: LinkError)
    requires Justified(links, error) && !error.TooDeep?
    ensures error.link in links && forall end :: !Resolves(links, error.link, end)
  {}

  lemma NothingIsGood(links: Links)
    ensures Good(links, map[])
  {}

  /** The link resolves within the depth bound when it is visited first, and its
      end is listed. */
  ghost predicate LandsAlone(files: seq<FileEntry>, rel: Path) {
    && rel in LinksOf(files)
    && MemoLink(LinksOf(files), map[], rel, MAX_SYMLINK_DEPTH).0.Ok?
    && Listed(files, MemoLink(LinksOf(files), map[], rel, MAX_SYMLINK_DEPTH).0.value)
  }

  lemma {:induction false} LandingAloneIsEnough(files: seq<FileEntry>, memo: Memo, order: seq<Path>)
    requires Good(LinksOf(files), memo)
    requires forall rel | rel in order :: rel in LinksOf(files) && LandsAlone(files, rel)
    ensures Visit(files, memo, order).Ok?
    decreases |order|
  {
    if order != [] {
      var links := LinksOf(files);
      NothingIsGood(links);
      assert LandsAlone(files, order[0]);
      LargerMemoResolvesToo(links, map[], memo, order[0], MAX_SYMLINK_DEPTH, MAX_SYMLINK_DEPTH);
      LinkKeepsGood(links, memo, order[0], MAX_SYMLINK_DEPTH);
      LandingAloneIsEnough(files, MemoLink(links, memo, order[0], MAX_SYMLINK_DEPTH).1, order[1..]);
    }
  }

  lemma {:induction false} SomeOrder(rest: set<Path>) returns (order: seq<Path>)
    ensures forall rel :: rel in order <==> rel in rest
    ensures forall i, j | 0 <= i < j < |order| :: order[i] != order[j]
    decreases rest
  {
    if rest == {} {
      order := [];
    } else {
      var rel :| rel in rest;
      var others := SomeOrder(rest - {rel});
      order := [rel] + others;
    }
  }

  /** Every order of visits accepts the links exactly when each of them, visited
      first, resolves within the depth bound to an end the table lists. */
  lemma EveryOrderAcceptsIff(files: seq<FileEntry>)
    ensures (forall order | IsOrder(LinksOf(files), order) :: Verdict(files, order).Ok?) <==>
      (forall rel | rel in LinksOf(files) :: LandsAlone(files, rel))
  {
    hide LinksOf, LandsAlone, Visit;
    var links := LinksOf(files);
    NothingIsGood(links);
    if forall rel | rel in links :: LandsAlone(files, rel) {
      forall order | IsOrder(links, order)
        ensures Verdict(files, order).Ok?
      {
        LandingAloneIsEnough(files, map[], order);
      }
    }
    if forall order | IsOrder(links, order) :: Verdict(files, order).Ok? {
      forall rel | rel in links
        ensures LandsAlone(files, rel)
      {
        var order := SomeOrderFrom(links, rel);
        FirstLandsAlone(files, order);
      }
    }
  }

  lemma SomeOrderFrom(links: Links, rel: Path) returns (order: seq<Path>)
    requires rel in links
    ensures IsOrder(links, order) && order != [] && order[0] == rel
  {
    var others := SomeOrder(links.Keys - {rel});
    order := [rel] + others;
  }

  lemma FirstLandsAlone(files: seq<FileEntry>, order: seq<Path>)
    requires IsOrder(LinksOf(files), order) && order != [] && Verdict(files, order).Ok?
    ensures LandsAlone(files, order[0])
  {}

  /** Enough for that: each link within the depth bound without any memo. */
  ghost predicate WithinDepth(links: Links) {
    forall rel | rel in links :: LinkEnd(links, rel, MAX_SYMLINK_DEPTH).Some?
  }

  lemma WithinDepthIsEnough(files: seq<FileEntry>, order: seq<Path>)
    requires IsOrder(LinksOf(files), order) && WithinDepth(LinksOf(files)) && LinksLand(files)
    ensures Verdict(files, order).Ok?
  {
    var links := LinksOf(files);
    NothingIsGood(links);
    forall rel | rel in links
      ensures LandsAlone(files, rel)
    {
      MemoLosesNothing(links, map[], rel, MAX_SYMLINK_DEPTH);
      var end :| Resolves(links, rel, end) && Listed(files, end);
      EndIsUnique(links, rel, end, LinkEnd(links, rel, MAX_SYMLINK_DEPTH).value);
    }
    LandingAloneIsEnough(files, map[], order);
  }

  // ---------------------------------------------------------------------
  // CheckSymlinks
  // ---------------------------------------------------------------------

  /** What becomes of the walk up from a path: it meets a link, comes to ".", or
      goes on for ever. */
  datatype Passage = Through(via: Path) | Clear | Endless

  /** The walk of throughLink; where the original would go round at the root for
      ever, it says so. */
  method ThroughLink(links: Links, rel: Path) returns (passage: Passage)
    ensures passage.Through? ==> InsideOf(rel, passage.via) && passage.via in links
    ensures passage.Through? <==> !ThroughNoLink(links, rel)
    ensures passage.Clear? <==> ThroughNoLink(links, rel) && exists k: nat :: Up(rel, k) == []
    ensures passage.Endless? <==> forall k: nat | k > 0 :: Up(rel, k) != [] && Up(rel, k) !in links
  {
    ParentsEndIff(rel);
    ParentsShorten(rel, 0);
    ghost var segments := ParentSegments(rel);
    var dir := Parent(rel);
    ghost var k: nat := 1;
    while dir != []
      invariant 1 <= k <= |segments| + 1 && dir == Up(rel, k)
      invariant forall j: nat | 0 < j < k :: Up(rel, j) != [] && Up(rel, j) !in links
      decreases |segments| + 1 - k
    {
      if dir in links {
        return Through(dir);
      }
      ParentsShorten(rel, k - 1);
      ParentsShorten(rel, k);
      if Parent(dir) == dir {
        StaysAt(rel, k);
        return Endless;
      }
      dir := Parent(dir);
      k := k + 1;
    }
    StaysAt(rel, k);
    passage := Clear;
  }

  lemma {:induction false} StaysFrom(rel: Path, k: nat, more: nat)
    requires Up(rel, k + 1) == Up(rel, k) && k <= more
    ensures Up(rel, more) == Up(rel, k)
  {
    if more > k {
      StaysFrom(rel, k, more - 1);
    }
  }

  lemma StaysAt(rel: Path, k: nat)
    requires Up(rel, k + 1) == Up(rel, k)
    ensures forall more: nat | k <= more :: Up(rel, more) == Up(rel, k)
  {
    forall more: nat | k <= more {
      StaysFrom(rel, k, more);
    }
  }

  method Ancestors(rel: Path) returns (dirs: set<Path>)
    requires !Rooted(rel)
    ensures forall p :: p in dirs <==> InsideOf(rel, p)
  {
    dirs := {};
    ParentsShorten(rel, 0);
    ghost var segments := ParentSegments(rel);
    var dir := Parent(rel);
    ghost var k: nat := 1;
    while dir != []
      invariant 1 <= k <= |segments| + 1 && dir == Up(rel, k)
      invariant forall p :: p in dirs <==> p != [] && exists j: nat :: 0 < j < k && Up(rel, j) == p
      decreases |segments| + 1 - k
    {
      ParentsShorten(rel, k - 1);
      ParentsShorten(rel, k);
      dirs := dirs + {dir};
      dir := Parent(dir);
      k := k + 1;
    }
    StaysAt(rel, k);
  }

  /** The set of directories the entries lie in. */
  method DirsAbove(files: seq<FileEntry>) returns (dirs: set<Path>)
    requires forall e | e in files :: RelpathOk(e.relpath)
    ensures forall p :: p in dirs <==> exists e :: e in files && InsideOf(e.relpath, p)
  {
    hide InsideOf;
    dirs := {};
    for i := 0 to |files|
      invariant forall p :: p in dirs <==> exists e :: e in files[..i] && InsideOf(e.relpath, p)
    {
      RelpathIsNotRooted(files[i].relpath);
      var above := Ancestors(files[i].relpath);
      dirs := dirs + above;
      assert files[..i + 1] == files[..i] + [files[i]];
    }
    assert files[..|files|] == files;
  }

  method Collect(files: seq<FileEntry>) returns (links: Links, paths: set<Path>)
    ensures links == LinksOf(files)
    ensures forall p :: p in paths <==> exists e :: e in files && !IsSymlink(e) && e.relpath == p
  {
    links, paths := map[], {};
    for i := 0 to |files|
      invariant links == LinksOf(files[..i])
      invariant forall p :: p in paths <==> exists e :: e in files[..i] && !IsSymlink(e) && e.relpath == p
    {
      var entry := files[i];
      assert files[..i + 1][..i] == files[..i];
      assert files[..i + 1] == files[..i] + [entry];
      if IsSymlink(entry) {
        links := links[entry.relpath := entry.linkTarget];
      } else {
        paths := paths + {entry.relpath};
      }
    }
    assert files[..|files|] == files;
  }

  /** The resolver loop over the links. */
  method ResolveAll(files: seq<FileEntry>, links: Links, paths: set<Path>, dirs: set<Path>, order: seq<Path>)
    returns (r: Result<(), TableError>)
    requires links == LinksOf(files) && IsOrder(links, order)
    requires forall p :: p in paths || p in dirs <==> Listed(files, p)
    ensures r == Verdict(files, order)
  {
    hide Listed, LinksOf, Visit, MemoLink, IsOrder;
    OrderListsLinks(links, order);
    var resolver := new LinkResolver(links);
    for i := 0 to |order|
      invariant resolver.links == links && fresh(resolver)
      invariant Verdict(files, order) == Visit(files, resolver.memo, order[i..])
    {
      var rel := order[i];
      VisitGoesOn(files, resolver.memo, order, i);
      var resolved := resolver.ResolveLink(rel, 0);
      if resolved.Err? {
        return Err(BadLink(resolved.error));
      }
      if resolved.value !in paths && resolved.value !in dirs {
        return Err(Dangles(rel, resolved.value));
      }
    }
    VisitEnds(files, resolver.memo, order);
    return Ok(());
  }

  lemma OrderListsLinks(links: Links, order: seq<Path>)
    requires IsOrder(links, order)
    ensures forall rel | rel in order :: rel in links
  {}

  lemma VisitEnds(files: seq<FileEntry>, memo: Memo, order: seq<Path>)
    requires forall rel | rel in order :: rel in LinksOf(files)
    ensures Visit(files, memo, order[|order|..]) == Ok(())
  {}

  lemma VisitGoesOn(files: seq<FileEntry>, memo: Memo, order: seq<Path>, i: nat)
    requires i < |order| && forall rel | rel in order :: rel in LinksOf(files)
    ensures var (end, grown) := MemoLink(LinksOf(files), memo, order[i], MAX_SYMLINK_DEPTH);
      Visit(files, memo, order[i..]) ==
        if end.Err? then Err(BadLink(end.error))
        else if !Listed(files, end.value) then Err(Dangles(order[i], end.value))
        else Visit(files, grown, order[i + 1..])
  {
    assert order[i..][0] == order[i] && order[i..][1..] == order[i + 1..];
  }

  /** The first preserved path that breaks a rule is rooted. */
  ghost predicate PreserveHangs(table: FileTable, rel: Path) {
    exists i :: 0 <= i < |table.preserve| && table.preserve[i] == rel && Rooted(rel) &&
      forall j | 0 <= j < i :: PreserveOk(LinksOf(table.files), table.preserve[j])
  }

  /** The check of the symlinks does not return. */
  ghost predicate Hangs(table: FileTable, rel: Path) {
    && LinksOf(table.files) != map[]
    && (forall e | e in table.files :: ThroughNoLink(LinksOf(table.files), e.relpath))
    && PreserveHangs(table, rel)
  }

  /** Above a rooted path there are rooted paths only, so no link of the table. */
  lemma RootedMeetsNoLink(files: seq<FileEntry>, rel: Path)
    requires forall e | e in files :: RelpathOk(e.relpath)
    requires Rooted(rel)
    ensures rel !in LinksOf(files) && ThroughNoLink(LinksOf(files), rel)
  {
    forall link | link in LinksOf(files)
      ensures !Rooted(link)
    {
      LinksAreEntries(files, link);
      RelpathIsNotRooted(link);
    }
    forall k: nat | k > 0
      ensures Up(rel, k) !in LinksOf(files)
    {
      ParentsShorten(rel, k - 1);
    }
  }

  method CheckSymlinks(table: FileTable, order: seq<Path>) returns (r: Result<(), TableError>)
    requires forall e | e in table.files :: RelpathOk(e.relpath)
    requires IsOrder(LinksOf(table.files), order)
    ensures PathRules(table.files, table.preserve) ==> r == Verdict(table.files, order)
    ensures !PathRules(table.files, table.preserve) ==> r.Err? && !r.error.BadLink?
    ensures r.Err? && r.error.NeverReturns? ==> Hangs(table, r.error.rel)
    ensures forall rel | Hangs(table, rel) :: r == Err(NeverReturns(rel))
  {
    hide Rooted, LinksOf, ThroughNoLink, Visit, Listed, InsideOf, RelpathOk, Up;
    var links, paths := Collect(table.files);
    var dirs := DirsAbove(table.files);
    if |links| == 0 {
      NothingToVisit(table.files, order);
      return Ok(());
    }
    for i := 0 to |table.files|
      invariant forall j | 0 <= j < i :: ThroughNoLink(links, table.files[j].relpath)
    {
      var passage := ThroughLink(links, table.files[i].relpath);
      assert table.files[i] in table.files;
      if passage.Through? {
        return Err(PassesThrough(table.files[i].relpath, passage.via));
      }
      if passage.Endless? {
        RelpathIsNotRooted(table.files[i].relpath);
        ParentsEndIff(table.files[i].relpath);
        assert false;
      }
    }
    for i := 0 to |table.preserve|
      invariant forall j | 0 <= j < i :: PreserveOk(links, table.preserve[j])
    {
      var rel := table.preserve[i];
      assert rel in table.preserve;
      if Rooted(rel) {
        RootedMeetsNoLink(table.files, rel);
      }
      ParentsEndIff(rel);
      if rel in links {
        return Err(PreserveIsLink(rel));
      }
      var passage := ThroughLink(links, rel);
      if passage.Through? {
        return Err(PassesThrough(rel, passage.via));
      }
      if passage.Endless? {
        assert Rooted(rel) by {
          assert forall k: nat | k > 0 :: Up(rel, k) != [];
        }
        assert PreserveHangs(table, rel);
        return Err(NeverReturns(rel));
      }
    }
    PathsListed(table.files, paths, dirs);
    r := ResolveAll(table.files, links, paths, dirs, order);
  }

  lemma NothingToVisit(files: seq<FileEntry>, order: seq<Path>)
    requires IsOrder(LinksOf(files), order) && |LinksOf(files)| == 0
    ensures LinksOf(files) == map[] && Verdict(files, order) == Ok(())
  {
    assert forall rel :: rel !in LinksOf(files);
    FirstIsMember(order);
  }

  lemma FirstIsMember(order: seq<Path>)
    ensures order == [] || order[0] in order
  {}

  lemma PathsListed(files: seq<FileEntry>, paths: set<Path>, dirs: set<Path>)
    requires forall p :: p in paths <==> exists e :: e in files && !IsSymlink(e) && e.relpath == p
    requires forall p :: p in dirs <==> exists e :: e in files && InsideOf(e.relpath, p)
    ensures forall p :: p in paths || p in dirs <==> Listed(files, p)
  {}

  /** What acceptance means for the links of a checked table: every one ends
      inside the content, at a path without links that the table lists, by a
      resolution that never asks for a link again. */
  lemma AcceptedLinksAreSafe(table: FileTable, rel: Path, end: Path)
    requires forall e | e in table.files :: RelpathOk(e.relpath)
    requires SymlinkRules(table) && rel in LinksOf(table.files)
    requires Resolves(LinksOf(table.files), rel, end)
    ensures LinkFree(LinksOf(table.files), end) && AllPlain(end)
    ensures Listed(table.files, end)
    ensures forall fuel: nat :: PathEnd(LinksOf(table.files), [], end, fuel) == Some(end)
    ensures forall cycle | IsNeedCycle(LinksOf(table.files), cycle) :: cycle[0] != rel
  {
    var links := LinksOf(table.files);
    forall other | other in links ensures IsClean(other) {
      LinksAreEntries(table.files, other);
    }
    var fuel: nat :| LinkEnd(links, rel, fuel) == Some(end);
    LinkEndIsGood(links, rel, fuel);
    var listed :| Resolves(links, rel, listed) && Listed(table.files, listed);
    EndIsUnique(links, rel, end, listed);
    forall f: nat ensures PathEnd(links, [], end, f) == Some(end) {
      assert [] + end == end;
      ResolvedPathIsItself(links, [], end, f);
    }
    forall cycle | IsNeedCycle(links, cycle) ensures cycle[0] != rel {
      if cycle[0] == rel {
        NoEndOnACycle(links, cycle, fuel);
      }
    }
  }

  // ---------------------------------------------------------------------
  // CheckTable
  // ---------------------------------------------------------------------

  method HasSymlinks(table: FileTable) returns (any: bool)
    ensures any <==> AnySymlink(table.files)
  {
    for i := 0 to |table.files|
      invariant forall j | 0 <= j < i :: !IsSymlink(table.files[j])
    {
      if IsSymlink(table.files[i]) {
        return true;
      }
    }
    return false;
  }

  method RequiredSchema(table: FileTable) returns (schema: string)
    ensures schema == SCHEMA_V2 <==> AnySymlink(table.files) || table.unit == BundleUnit
    ensures schema == SCHEMA_V1 || schema == SCHEMA_V2
  {
    var links := HasSymlinks(table);
    schema := if links || table.unit == BundleUnit then SCHEMA_V2 else SCHEMA_V1;
  }

  /** payload.CheckBundleName. */
  predicate BundleNameOk(name: string) {
    FilenameOk(name) && |name| > 4 && name[|name| - 4..] == ".app"
  }

  predicate EntryOk(entry: FileEntry) {
    && RelpathOk(entry.relpath)
    && match entry.kind {
         case UnspecifiedKind => entry.linkTarget == ""
         case FileKind => entry.linkTarget == ""
         case SymlinkKind => entry.size == 0 && entry.sha256 == "" && entry.mode == 0
         case UnknownKind => false
       }
  }

  /** The rules about the unit: which fields it allows, and the bundle's Info.plist. */
  ghost predicate UnitRules(table: FileTable) {
    match table.unit
    case UnspecifiedUnit => table.bundleName == ""
    case TreeUnit => table.bundleName == ""
    case BundleUnit =>
      && BundleNameOk(table.bundleName) && table.preserve == []
      && exists e :: e in table.files && e.relpath == BUNDLE_INFO_PLIST && !IsSymlink(e)
    case UnknownUnit => false
  }

  ghost predicate SchemaRule(table: FileTable) {
    table.schema == if AnySymlink(table.files) || table.unit == BundleUnit then SCHEMA_V2 else SCHEMA_V1
  }

  /** The rules that are checked without resolving a link. */
  ghost predicate StaticRules(table: FileTable) {
    && UnitRules(table) && SchemaRule(table)
    && (forall e | e in table.files :: EntryOk(e))
    && PathRules(table.files, table.preserve)
  }

  /** Every structural rule of a table except the depth bound on link chains. */
  ghost predicate TableRules(table: FileTable) {
    StaticRules(table) && LinksLand(table.files)
  }

  /** The check of the table does not return: everything before the preserved
      paths is in order, and the first one that is not is rooted. */
  ghost predicate CheckHangs(table: FileTable, rel: Path) {
    && UnitRules(table) && SchemaRule(table)
    && (forall e | e in table.files :: EntryOk(e))
    && Hangs(table, rel)
  }

  method CheckTable(table: FileTable, order: seq<Path>) returns (r: Result<(), TableError>)
    requires IsOrder(LinksOf(table.files), order)
    ensures StaticRules(table) ==> r == Verdict(table.files, order)
    ensures !StaticRules(table) ==> r.Err? && !r.error.BadLink?
    ensures r.Err? && r.error.NeverReturns? ==> CheckHangs(table, r.error.rel)
    ensures forall rel | CheckHangs(table, rel) :: r == Err(NeverReturns(rel))
  {
    hide Hangs, PathRules, Verdict, LinksOf, Visit;
    match table.unit {
      case UnspecifiedUnit =>
        if table.bundleName != "" {
          return Err(BrokenRule("bundle_name is set on a TREE table"));
        }
      case TreeUnit =>
        if table.bundleName != "" {
          return Err(BrokenRule("bundle_name is set on a TREE table"));
        }
      case BundleUnit =>
        if !BundleNameOk(table.bundleName) {
          return Err(BrokenRule("invalid bundle name"));
        }
        if |table.preserve| != 0 {
          return Err(BrokenRule("a BUNDLE table cannot preserve entries"));
        }
      case UnknownUnit =>
        return Err(BrokenRule("unknown content unit"));
    }
    var want := RequiredSchema(table);
    if table.schema != want {
      return Err(BrokenRule("payload schema does not match its content"));
    }
    for i := 0 to |table.files|
      invariant forall j | 0 <= j < i :: EntryOk(table.files[j])
    {
      if !EntryOk(table.files[i]) {
        return Err(BrokenRule("bad entry"));
      }
    }
    if table.unit == BundleUnit {
      var found := false;
      for i := 0 to |table.files|
        invariant found <==>
          exists j :: 0 <= j < i && table.files[j].relpath == BUNDLE_INFO_PLIST && !IsSymlink(table.files[j])
      {
        if table.files[i].relpath == BUNDLE_INFO_PLIST && !IsSymlink(table.files[i]) {
          found := true;
        }
      }
      if !found {
        return Err(BrokenRule("bundle has no Info.plist"));
      }
    }
    r := CheckSymlinks(table, order);
  }

  /** So a table is accepted only if it meets every rule; one that does may still
      be refused, for depth. */
  lemma VerdictMeansLanding(files: seq<FileEntry>, order: seq<Path>)
    requires IsOrder(LinksOf(files), order)
    ensures Verdict(files, order).Ok? ==> LinksLand(files)
    ensures Verdict(files, order).Err? && !IsTooDeep(Verdict(files, order)) ==> !LinksLand(files)
  {
    NothingIsGood(LinksOf(files));
    VisitIsSound(files, map[], order);
  }

  // ---------------------------------------------------------------------
  // A table whose verdict depends on the order of visits
  // ---------------------------------------------------------------------

  /** "a", "aa", "aaa", ... */
  function Name(n: nat): (name: string)
    ensures |name| == n + 1 && forall i | 0 <= i < |name| :: name[i] == 'a'
  {
    if n == 0 then "a" else "a" + Name(n - 1)
  }

  function Before(k: nat): string {
    if k == 0 then "f" else Name(k - 1)
  }

  /** Links 0 to n side by side: each points at the one before, link 0 at "f". */
  function ChainLinks(n: nat): (links: Links)
    ensures forall k: nat :: [Name(k)] in links <==> k <= n
    ensures ["f"] !in links
  {
    (if n == 0 then map[] else ChainLinks(n - 1))[[Name(n)] := Before(n)]
  }

  lemma {:induction false} ChainTarget(n: nat, k: nat)
    requires k <= n
    ensures ChainLinks(n)[[Name(k)]] == Before(k)
  {
    if k < n {
      ChainTarget(n - 1, k);
    }
  }

  lemma {:induction false} ChainLinkIs(n: nat, rel: Path) returns (k: nat)
    requires rel in ChainLinks(n)
    ensures k <= n && rel == [Name(k)]
  {
    if rel == [Name(n)] {
      k := n;
    } else {
      k := ChainLinkIs(n - 1, rel);
    }
  }

  function ChainFiles(n: nat): seq<FileEntry> {
    (if n == 0 then [FileEntry(["f"], UnspecifiedKind, 0, "", 0, "")] else ChainFiles(n - 1)) +
    [FileEntry([Name(n)], SymlinkKind, 0, "", 0, Before(n))]
  }

  lemma LinksGrow(files: seq<FileEntry>, e: FileEntry)
    ensures LinksOf(files + [e]) ==
      if IsSymlink(e) then LinksOf(files)[e.relpath := e.linkTarget] else LinksOf(files)
  {
    assert (files + [e])[..|files|] == files;
  }

  lemma {:induction false} ChainHasItsLinks(n: nat)
    ensures LinksOf(ChainFiles(n)) == ChainLinks(n)
    ensures Listed(ChainFiles(n), ["f"])
  {
    hide LinksOf, Name, Before, InsideOf;
    var file := FileEntry(["f"], UnspecifiedKind, 0, "", 0, "");
    var link := FileEntry([Name(n)], SymlinkKind, 0, "", 0, Before(n));
    if n == 0 {
      NoFilesNoLinks();
      LinksGrow([], file);
      assert [] + [file] == [file];
      LinksGrow([file], link);
      assert ([file] + [link])[0] == file;
    } else {
      ChainHasItsLinks(n - 1);
      LinksGrow(ChainFiles(n - 1), link);
      ListedGrows(ChainFiles(n - 1), link, ["f"]);
    }
  }

  lemma NoFilesNoLinks()
    ensures LinksOf([]) == map[]
  {}

  lemma ListedGrows(files: seq<FileEntry>, e: FileEntry, p: Path)
    requires Listed(files, p)
    ensures Listed(files + [e], p)
  {}

  lemma JoinsToSibling(name: string, target: string)
    requires Plain(target) && '/' !in target
    ensures Joined([name], target) == [target]
  {
    SplitOfOneSegment(target);
    assert [] + [target] == [target];
    CleanIsItself([], [target]);
  }

  lemma OneHop(links: Links, name: string, target: string, fuel: nat)
    requires [name] in links && links[[name]] == target
    requires ValidTarget(target) && Plain(target) && '/' !in target
    ensures LinkEnd(links, [name], fuel + 1) ==
      if [target] in links then LinkEnd(links, [target], fuel) else Some([target])
  {
    JoinsToSibling(name, target);
    assert [] + [target] == [target] && [target][1..] == [];
    forall end: Path
      ensures PathEnd(links, end, [], fuel) == Some(end)
    {}
  }

  /** Link k of such a chain has the end "f" for every depth budget above k and
      none below: a table of more than 40 links has ends for all of them, but
      the top ones only with the help of the memo. */
  lemma {:induction false} ChainNeedsItsLength(n: nat, k: nat, fuel: nat)
    requires k <= n
    ensures LinkEnd(ChainLinks(n), [Name(k)], fuel) == if k < fuel then Some(["f"]) else None
    decreases k
  {
    hide ChainLinks, Name;
    if fuel > 0 {
      ChainTarget(n, k);
      OneHop(ChainLinks(n), Name(k), Before(k), fuel - 1);
      if k > 0 {
        ChainNeedsItsLength(n, k - 1, fuel - 1);
      }
    }
  }

  lemma OneMemoHop(links: Links, memo: Memo, name: string, target: string, fuel: nat)
    requires [name] in links && links[[name]] == target && [name] !in memo
    requires ValidTarget(target) && Plain(target) && '/' !in target
    ensures MemoLink(links, memo, [name], fuel + 1) ==
      if [target] !in links then (Ok([target]), memo[[name] := [target]])
      else
        var (r, grown) := MemoLink(links, memo, [target], fuel);
        (r, if r.Ok? then grown[[name] := r.value] else grown)
  {
    JoinsToSibling(name, target);
    OneMemoStep(links, memo, target, fuel);
  }

  lemma OneMemoStep(links: Links, memo: Memo, target: string, fuel: nat)
    ensures MemoPath(links, memo, [], [target], fuel) ==
      if [target] !in links then (Ok([target]), memo) else MemoLink(links, memo, [target], fuel)
  {
    assert [] + [target] == [target] && [target][1..] == [];
    if [target] in links {
      var (r, grown) := MemoLink(links, memo, [target], fuel);
      assert r.Ok? ==> MemoPath(links, grown, r.value, [], fuel) == (Ok(r.value), grown);
    } else {
      assert MemoPath(links, memo, [target], [], fuel) == (Ok([target]), memo);
    }
  }

  /** From an empty memo a link too far up the chain is refused, and nothing is learnt. */
  lemma {:induction false} ChainTooDeep(n: nat, k: nat, fuel: nat)
    requires fuel <= k <= n
    ensures MemoLink(ChainLinks(n), map[], [Name(k)], fuel) == (Err(TooDeep([Name(k - fuel)])), map[])
    decreases fuel
  {
    hide ChainLinks, Name;
    if fuel > 0 {
      ChainTarget(n, k);
      OneMemoHop(ChainLinks(n), map[], Name(k), Before(k), fuel - 1);
      ChainTooDeep(n, k - 1, fuel - 1);
    }
  }

  function Ascending(n: nat): seq<Path> {
    seq(n + 1, k requires 0 <= k <= n => [Name(k)])
  }

  function Descending(n: nat): seq<Path> {
    seq(n + 1, i requires 0 <= i <= n => [Name(n - i)])
  }

  lemma AscendingIsAnOrder(n: nat)
    ensures IsOrder(ChainLinks(n), Ascending(n))
  {
    hide ChainLinks, Name;
    forall rel | rel in ChainLinks(n)
      ensures rel in Ascending(n)
    {
      var k := ChainLinkIs(n, rel);
      assert Ascending(n)[k] == rel;
    }
    forall i, j | 0 <= i < j <= n
      ensures Ascending(n)[i] != Ascending(n)[j]
    {
      NamesDiffer(i, j);
    }
  }

  lemma DescendingIsAnOrder(n: nat)
    ensures IsOrder(ChainLinks(n), Descending(n))
  {
    hide ChainLinks, Name;
    forall rel | rel in ChainLinks(n)
      ensures rel in Descending(n)
    {
      var k := ChainLinkIs(n, rel);
      assert Descending(n)[n - k] == rel;
    }
    forall i, j | 0 <= i < j <= n
      ensures Descending(n)[i] != Descending(n)[j]
    {
      NamesDiffer(n - j, n - i);
    }
  }

  lemma NamesDiffer(i: nat, j: nat)
    requires i < j
    ensures [Name(i)] != [Name(j)]
  {
    assert |Name(i)| != |Name(j)|;
  }

  /** With its predecessor in the memo, a link takes one hop. */
  lemma OneHopUp(n: nat, k: nat, memo: Memo)
    requires k <= n
    requires forall rel | rel in memo :: memo[rel] == ["f"]
    requires k > 0 ==> [Name(k - 1)] in memo
    ensures var (r, grown) := MemoLink(ChainLinks(n), memo, [Name(k)], MAX_SYMLINK_DEPTH);
      r == Ok(["f"]) && grown == memo[[Name(k)] := ["f"]]
  {
    hide ChainLinks, Name;
    if [Name(k)] in memo {
      assert memo[[Name(k)] := ["f"]] == memo;
    } else {
      ChainTarget(n, k);
      OneMemoHop(ChainLinks(n), memo, Name(k), Before(k), MAX_SYMLINK_DEPTH - 1);
    }
  }

  lemma {:induction false} ClimbingAccepts(n: nat, k: nat, memo: Memo)
    requires k <= n + 1 && IsOrder(LinksOf(ChainFiles(n)), Ascending(n))
    requires forall rel | rel in memo :: memo[rel] == ["f"]
    requires k > 0 ==> [Name(k - 1)] in memo
    ensures Visit(ChainFiles(n), memo, Ascending(n)[k..]).Ok?
    decreases n + 1 - k
  {
    hide ChainLinks, Name, ChainFiles, LinksOf, Listed;
    var order := Ascending(n)[k..];
    if k <= n {
      assert order[0] == [Name(k)] && order[1..] == Ascending(n)[k + 1..];
      ChainHasItsLinks(n);
      OneHopUp(n, k, memo);
      ClimbingAccepts(n, k + 1, memo[[Name(k)] := ["f"]]);
    }
  }

  /** The order of visits decides: visited from the file upwards a chain of any
      length is accepted, visited from the top down it is accepted exactly when
      it is within the depth bound, and otherwise refused for its depth. */
  lemma OrderDecides(n: nat)
    ensures var files := ChainFiles(n);
      && IsOrder(LinksOf(files), Ascending(n)) && Verdict(files, Ascending(n)).Ok?
      && IsOrder(LinksOf(files), Descending(n))
      && (Verdict(files, Descending(n)).Ok? <==> n < MAX_SYMLINK_DEPTH)
      && (n >= MAX_SYMLINK_DEPTH ==> IsTooDeep(Verdict(files, Descending(n))))
  {
    var files := ChainFiles(n);
    ChainHasItsLinks(n);
    AscendingIsAnOrder(n);
    DescendingIsAnOrder(n);
    ClimbingAccepts(n, 0, map[]);
    assert Ascending(n)[0..] == Ascending(n);
    if n >= MAX_SYMLINK_DEPTH {
      ChainTooDeep(n, n, MAX_SYMLINK_DEPTH);
      assert Descending(n)[0] == [Name(n)];
    } else {
      forall rel | rel in LinksOf(files)
        ensures LinkEnd(LinksOf(files), rel, MAX_SYMLINK_DEPTH) == Some(["f"])
        ensures exists end :: Resolves(LinksOf(files), rel, end) && Listed(files, end)
      {
        var k := ChainLinkIs(n, rel);
        ChainNeedsItsLength(n, k, MAX_SYMLINK_DEPTH);
        assert Resolves(LinksOf(files), rel, ["f"]);
      }
      WithinDepthIsEnough(files, Descending(n));
    }
  }

  // ---------------------------------------------------------------------
  // A table whose check does not return
  // ---------------------------------------------------------------------

  /** One file, one link to it, and the preserved path "/x". */
  lemma RootedPreserveHangs() returns (table: FileTable)
    ensures table.preserve == [["", "x"]] && CheckHangs(table, ["", "x"])
    ensures LinksLand(table.files)
  {
    hide FilenameOk, Name, LinksOf, InsideOf, EntryOk, ChainFiles;
    table := FileTable(SCHEMA_V2, TreeUnit, "", ChainFiles(0), [["", "x"]], []);
    ChainHasItsLinks(0);
    LinksAreEntries(table.files, [Name(0)]);
    forall e | e in table.files
      ensures EntryOk(e) && ThroughNoLink(LinksOf(table.files), e.relpath)
    {
      ChainEntryOk(0, e);
      NothingAbove(e.relpath);
    }
    forall rel | rel in LinksOf(table.files)
      ensures Resolves(LinksOf(table.files), rel, ["f"])
    {
      var k := ChainLinkIs(0, rel);
      ChainNeedsItsLength(0, k, 1);
    }
    assert table.preserve[0] == ["", "x"] && Rooted(table.preserve[0]);
  }

  lemma {:induction false} ChainEntryOk(n: nat, e: FileEntry)
    requires n < 255 && e in ChainFiles(n)
    ensures EntryOk(e) && |e.relpath| == 1
  {
    hide FilenameOk, Name;
    ChainNamesAreOk(n);
    if n > 0 && e in ChainFiles(n - 1) {
      ChainEntryOk(n - 1, e);
    }
  }

  lemma NothingAbove(rel: Path)
    requires |rel| == 1
    ensures forall p :: !InsideOf(rel, p)
  {
    forall p
      ensures !InsideOf(rel, p)
    {
      InsideIffPrefix(rel, p);
    }
  }

  lemma {:induction false} StemOfNames(n: nat)
    ensures |Stem(Name(n))| == n + 1 && forall i | 0 <= i <= n :: Stem(Name(n))[i] == 'A'
  {
    if n > 0 {
      StemOfNames(n - 1);
      assert Name(n)[1..] == Name(n - 1);
    } else {
      assert Stem("") == "";
    }
  }

  lemma NotReserved(stem: string)
    requires |stem| < 2 || stem[0] == stem[1] == 'A'
    ensures stem !in WINDOWS_RESERVED
  {
    assert forall w | w in WINDOWS_RESERVED :: |w| >= 2 && !(w[0] == 'A' && w[1] == 'A');
  }

  lemma ChainNamesAreOk(n: nat)
    requires n < 255
    ensures FilenameOk("f") && forall k: nat | k <= n :: FilenameOk(Name(k))
  {
    assert Stem("") == "" && Stem("f") == "F";
    NotReserved("F");
    forall k: nat | k <= n
      ensures FilenameOk(Name(k))
    {
      StemOfNames(k);
      NotReserved(Stem(Name(k)));
    }
  }
}
