/** The store's orphan collector (cmd/relkit-store/gc.go): mark what published
    indexes and latest pointers reach, sweep the rest of manifest/, artifact/
    and cas/, then drop the directories left empty. */
module StoreGC {
  import opened Wrappers
  import opened Documents
  import opened Paths
  import Sets

  /** What a stored file decodes to; Other decodes to none of the three. */
  datatype Content =
    | IndexFile(index: Index)
    | ManifestFile(manifest: Manifest)
    | LatestFile(urls: seq<string>)
    | Other

  datatype File = File(content: Content, mtime: int)

  type Files = map<Path, File>

  // ---------------------------------------------------------------------
  // Names
  // ---------------------------------------------------------------------

  predicate HasSuffix(s: string, suffix: string) {
    |s| >= |suffix| && s[|s| - |suffix|..] == suffix
  }

  predicate Under(prefix: string, name: Path) {
    |name| > 1 && name[0] == prefix
  }

  const TMP_SUFFIX := ".tmp~"

  predicate IsTmp(name: Path) {
    name != [] && HasSuffix(name[|name| - 1], TMP_SUFFIX)
  }

  /** The name an upload's temporary file stands for. */
  function TrimTmp(name: Path): Path
    requires IsTmp(name)
  {
    var last := name[|name| - 1];
    name[..|name| - 1] + [last[..|last| - |TMP_SUFFIX|]]
  }

  /** index/<product>/<channel>.pb and nothing else. */
  predicate IsPublishedIndexFile(name: Path) {
    |name| == 3 && name[0] == "index" && name[1] != "" && HasSuffix(name[2], ".pb") && |name[2]| > 3
  }

  function CasPath(sha256: string): Option<Path> {
    var digest := CasDigest(sha256);
    if digest.Some? then Some(["cas", digest.value]) else None
  }

  /** How a URL's path reads once parsed and cleaned; None if it does not parse. */
  type Locate = string -> Option<Path>

  /** The store key a URL names, if it is a manifest or an artifact of this store. */
  function LocalKey(locate: Locate, url: string): Option<Path> {
    var key := locate(url);
    if key.Some? && (Under("manifest", key.value) || Under("artifact", key.value)) then key else None
  }

  // ---------------------------------------------------------------------
  // What is live
  // ---------------------------------------------------------------------

  ghost predicate NamesManifest(locate: Locate, index: Index, key: Path) {
    exists n, u :: 0 <= n < |index.versions| && 0 <= u < |index.versions[n].manifest.urls| &&
      LocalKey(locate, index.versions[n].manifest.urls[u]) == Some(key)
  }

  /** An index that parses and names some manifest URL. */
  predicate Readable(content: Content) {
    content.IndexFile? &&
    exists n :: 0 <= n < |content.index.versions| && content.index.versions[n].manifest.urls != []
  }

  ghost predicate FromIndex(locate: Locate, files: Files, key: Path) {
    exists name :: name in files && IsPublishedIndexFile(name) && Readable(files[name].content) &&
      NamesManifest(locate, files[name].content.index, key)
  }

  ghost predicate FromLatest(locate: Locate, files: Files, key: Path) {
    exists name, u :: name in files && Under("latest", name) && files[name].content.LatestFile? &&
      0 <= u < |files[name].content.urls| &&
      LocalKey(locate, files[name].content.urls[u]) == Some(key) && Under("artifact", key)
  }

  ghost predicate NamesContent(locate: Locate, artifact: Artifact, key: Path) {
    || (exists u :: 0 <= u < |artifact.urls| && LocalKey(locate, artifact.urls[u]) == Some(key))
    || CasPath(artifact.sha256) == Some(key)
  }

  ghost predicate NamedBy(locate: Locate, manifest: Manifest, key: Path) {
    exists a :: 0 <= a < |manifest.artifacts| && NamesContent(locate, manifest.artifacts[a], key)
  }

  ghost predicate FromManifest(locate: Locate, files: Files, key: Path) {
    exists m :: FromIndex(locate, files, m) && Under("manifest", m) && m in files &&
      files[m].content.ManifestFile? && NamedBy(locate, files[m].content.manifest, key)
  }

  ghost predicate Live(locate: Locate, files: Files, key: Path) {
    FromIndex(locate, files, key) || FromLatest(locate, files, key) || FromManifest(locate, files, key)
  }

  /** A referenced manifest is there, parses, and names at least one local URL. */
  ghost predicate GoodManifest(locate: Locate, files: Files, key: Path) {
    && key in files && files[key].content.ManifestFile?
    && exists a, u :: 0 <= a < |files[key].content.manifest.artifacts| &&
         0 <= u < |files[key].content.manifest.artifacts[a].urls| &&
         LocalKey(locate, files[key].content.manifest.artifacts[a].urls[u]).Some?
  }

  /** The round may go on: something published is readable and names a local
      manifest, and every referenced manifest is good. */
  ghost predicate Markable(locate: Locate, files: Files) {
    && (exists key :: FromIndex(locate, files, key))
    && (forall key | FromIndex(locate, files, key) && Under("manifest", key) :: GoodManifest(locate, files, key))
  }

  // ---------------------------------------------------------------------
  // Marking
  // ---------------------------------------------------------------------

  method ManifestUrls(index: Index) returns (urls: seq<string>)
    ensures forall u :: u in urls <==> exists n :: 0 <= n < |index.versions| && u in index.versions[n].manifest.urls
  {
    urls := [];
    for n := 0 to |index.versions|
      invariant forall u :: u in urls <==> exists i :: 0 <= i < n && u in index.versions[i].manifest.urls
    {
      urls := urls + index.versions[n].manifest.urls;
    }
  }

  method LocalKeys(locate: Locate, urls: seq<string>) returns (keys: set<Path>)
    ensures forall k :: k in keys <==> exists u :: u in urls && LocalKey(locate, u) == Some(k)
  {
    keys := {};
    for i := 0 to |urls|
      invariant forall k :: k in keys <==> exists j :: 0 <= j < i && LocalKey(locate, urls[j]) == Some(k)
    {
      var key := LocalKey(locate, urls[i]);
      if key.Some? {
        keys := keys + {key.value};
      }
    }
    forall k ensures k in keys <==> exists u :: u in urls && LocalKey(locate, u) == Some(k) {
      if u :| u in urls && LocalKey(locate, u) == Some(k) {
        var j :| 0 <= j < |urls| && urls[j] == u;
      }
    }
  }

  lemma IndexKeysAreNamed(locate: Locate, index: Index, urls: seq<string>, key: Path)
    requires forall u :: u in urls <==> exists n :: 0 <= n < |index.versions| && u in index.versions[n].manifest.urls
    ensures (exists u :: u in urls && LocalKey(locate, u) == Some(key)) <==> NamesManifest(locate, index, key)
  {}

  /** The published indexes: the keys they name, and whether any could be read. */
  method MarkIndexes(locate: Locate, files: Files) returns (live: set<Path>, parsed: nat)
    ensures forall k :: k in live <==> FromIndex(locate, files, k)
    ensures parsed == 0 ==> live == {}
  {
    live, parsed := {}, 0;
    var rest := files.Keys;
    while rest != {}
      invariant rest <= files.Keys
      invariant forall k :: k in live <==>
        (exists name :: name in files && name !in rest &&
           IsPublishedIndexFile(name) && Readable(files[name].content) &&
           NamesManifest(locate, files[name].content.index, k))
      invariant parsed == 0 ==> live == {}
    {
      var name := Sets.Pick(rest);
      rest := rest - {name};
      if !IsPublishedIndexFile(name) {
        continue;
      }
      if !Readable(files[name].content) {
        continue;
      }
      parsed := parsed + 1;
      var urls := ManifestUrls(files[name].content.index);
      var keys := LocalKeys(locate, urls);
      forall k ensures k in keys <==> NamesManifest(locate, files[name].content.index, k) {
        IndexKeysAreNamed(locate, files[name].content.index, urls, k);
      }
      live := live + keys;
    }
  }

  method MarkLatest(locate: Locate, files: Files) returns (live: set<Path>)
    ensures forall k :: k in live <==> FromLatest(locate, files, k)
    ensures forall k | k in live :: Under("artifact", k)
  {
    live := {};
    var rest := files.Keys;
    while rest != {}
      invariant rest <= files.Keys
      invariant forall k :: k in live <==>
        (exists name, u :: name in files && name !in rest &&
           Under("latest", name) && files[name].content.LatestFile? &&
           0 <= u < |files[name].content.urls| &&
           LocalKey(locate, files[name].content.urls[u]) == Some(k) && Under("artifact", k))
    {
      var name := Sets.Pick(rest);
      rest := rest - {name};
      if !Under("latest", name) || !files[name].content.LatestFile? {
        continue;
      }
      var urls := files[name].content.urls;
      var keys := LocalKeys(locate, urls);
      forall k | k in keys ensures exists u :: 0 <= u < |urls| && LocalKey(locate, urls[u]) == Some(k) {
        var url :| url in urls && LocalKey(locate, url) == Some(k);
      }
      live := live + set k | k in keys && Under("artifact", k);
    }
  }

  /** What one artifact keeps alive, and whether any of its URLs is local. */
  method ContentKeys(locate: Locate, artifact: Artifact) returns (keys: set<Path>, local: bool)
    ensures forall k :: k in keys <==> NamesContent(locate, artifact, k)
    ensures local <==> exists u :: 0 <= u < |artifact.urls| && LocalKey(locate, artifact.urls[u]).Some?
  {
    hide CasPath, LocalKey;
    var urls := artifact.urls;
    keys := LocalKeys(locate, urls);
    local := exists u :: 0 <= u < |urls| && LocalKey(locate, urls[u]).Some?;
    forall k ensures k in keys <==> exists u :: 0 <= u < |urls| && LocalKey(locate, urls[u]) == Some(k) {
      if k in keys {
        var url :| url in urls && LocalKey(locate, url) == Some(k);
      }
    }
    var casKey := CasPath(artifact.sha256);
    if casKey.Some? {
      keys := keys + {casKey.value};
    }
  }

  /** One live manifest: everything it names, or None if it is not good. */
  method ExpandManifest(locate: Locate, files: Files, key: Path) returns (r: Option<set<Path>>)
    ensures r.Some? <==> GoodManifest(locate, files, key)
    ensures r.Some? ==> key in files && files[key].content.ManifestFile?
    ensures r.Some? ==> forall k :: k in r.value <==> NamedBy(locate, files[key].content.manifest, k)
  {
    if key !in files || !files[key].content.ManifestFile? {
      return None;
    }
    hide NamesContent, LocalKey;
    var artifacts := files[key].content.manifest.artifacts;
    if |artifacts| == 0 {
      return None;
    }
    var named: set<Path> := {};
    var gotUrl := false;
    for a := 0 to |artifacts|
      invariant forall k :: k in named <==> exists i :: 0 <= i < a && NamesContent(locate, artifacts[i], k)
      invariant gotUrl <==>
        (exists i, u :: 0 <= i < a && 0 <= u < |artifacts[i].urls| &&
           LocalKey(locate, artifacts[i].urls[u]).Some?)
    {
      var keys, local := ContentKeys(locate, artifacts[a]);
      named := named + keys;
      gotUrl := gotUrl || local;
    }
    r := if gotUrl then Some(named) else None;
  }

  /** The live set, or None when the round must be aborted. */
  method Mark(locate: Locate, files: Files) returns (r: Option<set<Path>>)
    ensures r.Some? <==> Markable(locate, files)
    ensures r.Some? ==> forall k :: k in r.value <==> Live(locate, files, k)
  {
    hide FromIndex, FromLatest, NamedBy, GoodManifest;
    var indexed, parsed := MarkIndexes(locate, files);
    if parsed == 0 || |indexed| == 0 {
      return None;
    }
    assert exists k :: k in indexed;
    var latest := MarkLatest(locate, files);
    var live := indexed + latest;
    var manifests := set k | k in live && Under("manifest", k);
    var rest := manifests;
    while rest != {}
      invariant rest <= manifests
      invariant forall k | k in manifests && k !in rest :: GoodManifest(locate, files, k)
      invariant forall k :: k in live <==>
        (k in indexed || k in latest ||
         exists m :: m in manifests && m !in rest && m in files && files[m].content.ManifestFile? &&
           NamedBy(locate, files[m].content.manifest, k))
    {
      var key := Sets.Pick(rest);
      var expanded := ExpandManifest(locate, files, key);
      if expanded.None? {
        assert FromIndex(locate, files, key) && Under("manifest", key);
        return None;
      }
      rest := rest - {key};
      live := live + expanded.value;
    }
    r := Some(live);
  }

  // ---------------------------------------------------------------------
  // Sweeping
  // ---------------------------------------------------------------------

  /** Who is protected at a moment: unexpired leases, and files younger than the
      grace period. */
  datatype Guard = Guard(leases: map<Path, int>, casGrace: int, now: int)

  /** gcState.casProtected. */
  predicate CasProtected(guard: Guard, key: Path, mtime: int) {
    || (key in guard.leases && guard.now < guard.leases[key])
    || (guard.casGrace > 0 && guard.now - mtime < guard.casGrace)
  }

  predicate Swept(name: Path) {
    Under("manifest", name) || Under("artifact", name) || Under("cas", name)
  }

  /** The sweep's verdict on one file of the three prefixes. */
  predicate Doomed(live: set<Path>, guard: Guard, name: Path, mtime: int) {
    if IsTmp(name) then !(Under("cas", name) && CasProtected(guard, TrimTmp(name), mtime))
    else name !in live && !(Under("cas", name) && CasProtected(guard, name, mtime))
  }

  /** What sweeping one prefix leaves: a doomed file stays only if it cannot be removed. */
  ghost function Kept(files: Files, prefix: string, live: set<Path>, guard: Guard, stuck: set<Path>): Files {
    map name | name in files &&
      (name in stuck || !(Under(prefix, name) && Doomed(live, guard, name, files[name].mtime))) :: files[name]
  }

  /** What sweeping all three leaves. */
  ghost function Survivors(files: Files, live: set<Path>, guard: Guard, stuck: set<Path>): Files {
    map name | name in files && (name in stuck || !(Swept(name) && Doomed(live, guard, name, files[name].mtime))) ::
      files[name]
  }

  /** Some file lies below the directory. */
  ghost predicate HasFileBelow(files: Files, dir: Path) {
    exists name :: name in files && |dir| < |name| && dir == name[..|dir|]
  }

  /** fs.ReadDir finds nothing. */
  predicate IsEmptyDir(files: Files, dirs: set<Path>, dir: Path) {
    && (forall name | name in files :: !(|name| == |dir| + 1 && name[..|dir|] == dir))
    && (forall d | d in dirs :: !(|d| == |dir| + 1 && d[..|dir|] == dir))
  }

  /** A directory's parent is a directory, down to the top, and so is a file's. */
  ghost predicate IsTree(files: Files, dirs: set<Path>) {
    && (forall d | d in dirs :: d != [] && (|d| > 1 ==> d[..|d| - 1] in dirs))
    && (forall name | name in files && |name| > 1 :: name[..|name| - 1] in dirs)
  }

  /** A walk lists each directory below the prefix, a parent before its children. */
  ghost predicate IsWalk(dirs: set<Path>, prefix: string, order: seq<Path>) {
    && (forall d :: d in order <==> d in dirs && Under(prefix, d))
    && (forall i, j | 0 <= i < j < |order| :: order[i] != order[j])
    && (forall i, j | 0 <= i < |order| && 0 <= j < |order| && IsAncestor(order[i], order[j]) :: i < j)
  }

  /** What cleaning up one prefix leaves. */
  ghost function KeptDirs(dirs: set<Path>, prefix: string, files: Files): set<Path> {
    set d | d in dirs && (!Under(prefix, d) || HasFileBelow(files, d))
  }

  /** What the directory clean-up leaves: in the three prefixes, only directories
      with a file below them. */
  ghost function SurvivingDirs(dirs: set<Path>, files: Files): set<Path> {
    set d | d in dirs && (!Swept(d) || HasFileBelow(files, d))
  }

  ghost predicate AllLive(locate: Locate, files: Files, live: set<Path>) {
    forall k :: k in live <==> Live(locate, files, k)
  }

  datatype Collected = Collected(live: nat, filesRemoved: nat, dirsRemoved: nat)

  class Store {
    var files: Files
    var dirs: set<Path>
    var leases: map<Path, int>

    method RetainCas(key: Path, until: int)
      modifies this`leases
      ensures leases == old(leases)[key := until]
    {
      leases := leases[key := until];
    }

    /** One prefix: remove every doomed file that can be removed. */
    method SweepPrefix(prefix: string, live: set<Path>, guard: Guard, stuck: set<Path>) returns (removed: nat)
      requires prefix == "manifest" || prefix == "artifact" || prefix == "cas"
      modifies this`files
      ensures files == Kept(old(files), prefix, live, guard, stuck)
      ensures removed == |old(files)| - |files|
    {
      removed := 0;
      var rest := files.Keys;
      while rest != {}
        invariant rest <= files.Keys
        invariant forall name | name in files :: name in old(files) && files[name] == old(files)[name]
        invariant forall name | name in old(files) && name !in rest ::
          name in files <==>
            name in stuck || !(Under(prefix, name) && Doomed(live, guard, name, old(files)[name].mtime))
        invariant removed == |old(files)| - |files|
      {
        var name := Sets.Pick(rest);
        rest := rest - {name};
        if !Under(prefix, name) {
          continue;
        }
        var mtime := files[name].mtime;
        if IsTmp(name) {
          if prefix == "cas" && CasProtected(guard, TrimTmp(name), mtime) {
            continue;
          }
        } else {
          if name in live {
            continue;
          }
          if prefix == "cas" && CasProtected(guard, name, mtime) {
            continue;
          }
        }
        if name in stuck {
          continue;
        }
        files := files - {name};
        removed := removed + 1;
      }
    }

    /** Walking back up, remove the directories that are empty by then: exactly
        those with no file below them. */
    method RemoveEmptyDirs(prefix: string, order: seq<Path>) returns (removed: nat)
      requires IsTree(files, dirs) && IsWalk(dirs, prefix, order)
      modifies this`dirs
      ensures dirs == KeptDirs(old(dirs), prefix, files)
      ensures removed == |old(dirs)| - |dirs|
    {
      hide HasFileBelow, IsEmptyDir, IsTree, Under;
      removed := 0;
      var i := |order|;
      while i > 0
        invariant 0 <= i <= |order|
        invariant dirs <= old(dirs)
        invariant forall d | d in old(dirs) && !Under(prefix, d) :: d in dirs
        invariant forall j | 0 <= j < i :: order[j] in dirs
        invariant forall j | i <= j < |order| :: order[j] in dirs <==> HasFileBelow(files, order[j])
        invariant removed == |old(dirs)| - |dirs|
      {
        i := i - 1;
        var name := order[i];
        EmptyMeansNoFileBelow(files, old(dirs), dirs, prefix, order, i);
        if !IsEmptyDir(files, dirs, name) {
          continue;
        }
        assert order[i] in order;
        dirs := dirs - {name};
        removed := removed + 1;
      }
      forall d | d in old(dirs) && Under(prefix, d) ensures d in dirs <==> HasFileBelow(files, d) {
        assert d in order;
        var j :| 0 <= j < |order| && order[j] == d;
      }
    }

    /** One prefix of a round: its doomed files, then its empty directories. */
    method CollectPrefix(prefix: string, live: set<Path>, guard: Guard, stuck: set<Path>, order: seq<Path>)
      returns (filesRemoved: nat, dirsRemoved: nat)
      requires prefix == "manifest" || prefix == "artifact" || prefix == "cas"
      requires IsTree(files, dirs) && IsWalk(dirs, prefix, order)
      modifies this`files, this`dirs
      ensures files == Kept(old(files), prefix, live, guard, stuck)
      ensures dirs == KeptDirs(old(dirs), prefix, files)
      ensures filesRemoved == |old(files)| - |files| && dirsRemoved == |old(dirs)| - |dirs|
      ensures IsTree(files, dirs)
    {
      filesRemoved := SweepPrefix(prefix, live, guard, stuck);
      dirsRemoved := RemoveEmptyDirs(prefix, order);
      TreeSurvives(files, old(dirs), dirs, prefix);
    }

    /** gcOnce: one round, with any order in which a walk may list the directories. */
    method GcOnce(
      locate: Locate, casGrace: int, now: int, stuck: set<Path>,
      manifestWalk: seq<Path>, artifactWalk: seq<Path>, casWalk: seq<Path>)
      returns (r: Option<Collected>)
      requires IsTree(files, dirs)
      requires IsWalk(dirs, "manifest", manifestWalk)
      requires IsWalk(dirs, "artifact", artifactWalk) && IsWalk(dirs, "cas", casWalk)
      modifies this`files, this`dirs
      ensures r.Some? <==> Markable(locate, old(files))
      ensures r.None? ==> files == old(files) && dirs == old(dirs)
      ensures r.Some? ==>
        && (exists live :: AllLive(locate, old(files), live) && |live| == r.value.live &&
              files == Survivors(old(files), live, Guard(leases, casGrace, now), stuck))
        && dirs == SurvivingDirs(old(dirs), files)
        && r.value.filesRemoved == |old(files)| - |files|
        && r.value.dirsRemoved == |old(dirs)| - |dirs|
      ensures IsRound(locate, Guard(leases, casGrace, now), stuck, old(files), old(dirs), files, dirs)
    {
      var marked := Mark(locate, files);
      if marked.None? {
        return None;
      }
      var live, guard := marked.value, Guard(leases, casGrace, now);
      hide Kept, KeptDirs, Survivors, SurvivingDirs, IsTree;
      WalkOutlivesOtherPrefixes(dirs, "manifest", "artifact", artifactWalk);
      WalkOutlivesOtherPrefixes(dirs, "manifest", "cas", casWalk);
      var f1, d1 := CollectPrefix("manifest", live, guard, stuck, manifestWalk);
      WalkOutlivesOtherPrefixes(dirs, "artifact", "cas", casWalk);
      var f2, d2 := CollectPrefix("artifact", live, guard, stuck, artifactWalk);
      var f3, d3 := CollectPrefix("cas", live, guard, stuck, casWalk);
      ThreePrefixesMakeARound(old(files), old(dirs), live, guard, stuck);
      assert AllLive(locate, old(files), live);
      r := Some(Collected(|live|, f1 + f2 + f3, d1 + d2 + d3));
    }
  }

  lemma WalkOutlivesOtherPrefixes(dirs: set<Path>, cleaned: string, prefix: string, order: seq<Path>)
    requires IsWalk(dirs, prefix, order) && cleaned != prefix
    ensures forall files :: IsWalk(KeptDirs(dirs, cleaned, files), prefix, order)
  {}

  lemma ThreePrefixesMakeARound(
    files: Files, dirs: set<Path>, live: set<Path>, guard: Guard, stuck: set<Path>)
    ensures var f1 := Kept(files, "manifest", live, guard, stuck);
      var f2 := Kept(f1, "artifact", live, guard, stuck);
      var f3 := Kept(f2, "cas", live, guard, stuck);
      && f3 == Survivors(files, live, guard, stuck)
      && KeptDirs(KeptDirs(KeptDirs(dirs, "manifest", f1), "artifact", f2), "cas", f3) == SurvivingDirs(dirs, f3)
  {}

  lemma TreeSurvives(files: Files, before: set<Path>, dirs: set<Path>, prefix: string)
    requires IsTree(files, before)
    requires dirs == KeptDirs(before, prefix, files)
    ensures IsTree(files, dirs)
  {}

  /** A directory not yet visited has an entry exactly when some file lies below
      it: the walk has already dropped every directory under it without one. */
  lemma EmptyMeansNoFileBelow(
    files: Files, before: set<Path>, dirs: set<Path>, prefix: string, order: seq<Path>, i: nat)
    requires IsTree(files, before) && IsWalk(before, prefix, order) && i < |order| && dirs <= before
    requires forall j | i < j < |order| :: order[j] in dirs <==> HasFileBelow(files, order[j])
    ensures HasFileBelow(files, order[i]) <==> !IsEmptyDir(files, dirs, order[i])
  {
    var dir := order[i];
    if HasFileBelow(files, dir) {
      var name :| name in files && |dir| < |name| && dir == name[..|dir|];
      if |name| > |dir| + 1 {
        FileBelowShows(files, before, dirs, prefix, order, i, name);
        assert name[..|dir| + 1][..|dir|] == dir;
      }
    }
    forall d | d in dirs && |d| == |dir| + 1 && d[..|dir|] == dir
      ensures HasFileBelow(files, dir)
    {
      ChildHoldsFile(files, before, dirs, prefix, order, i, d);
    }
  }

  lemma FileBelowShows(
    files: Files, before: set<Path>, dirs: set<Path>, prefix: string, order: seq<Path>, i: nat, name: Path)
    requires IsTree(files, before) && IsWalk(before, prefix, order) && i < |order|
    requires forall j | i < j < |order| :: order[j] in dirs <==> HasFileBelow(files, order[j])
    requires name in files && |order[i]| + 1 < |name| && order[i] == name[..|order[i]|]
    ensures name[..|order[i]| + 1] in dirs
  {
    var dir, child := order[i], name[..|order[i]| + 1];
    assert dir in order;
    AncestorsAreDirs(files, before, name, |dir| + 1);
    assert child[..|dir|] == dir && child[0] == dir[0];
    assert child in order;
    var j :| 0 <= j < |order| && order[j] == child;
    assert IsAncestor(order[i], order[j]);
    assert HasFileBelow(files, order[j]);
  }

  lemma ChildHoldsFile(
    files: Files, before: set<Path>, dirs: set<Path>, prefix: string, order: seq<Path>, i: nat, d: Path)
    requires IsWalk(before, prefix, order) && i < |order| && dirs <= before
    requires forall j | i < j < |order| :: order[j] in dirs <==> HasFileBelow(files, order[j])
    requires d in dirs && |d| == |order[i]| + 1 && d[..|order[i]|] == order[i]
    ensures HasFileBelow(files, order[i])
  {
    var dir := order[i];
    assert dir in order && d[0] == d[..|dir|][0];
    assert d in order;
    var j :| 0 <= j < |order| && order[j] == d;
    assert IsAncestor(order[i], order[j]);
    var name :| name in files && |d| < |name| && d == name[..|d|];
    assert name[..|dir|] == d[..|dir|];
  }

  lemma {:induction false} AncestorsAreDirs(files: Files, dirs: set<Path>, name: Path, k: nat)
    requires IsTree(files, dirs) && name in files && 0 < k < |name|
    ensures name[..k] in dirs
    decreases |name| - k
  {
    if k < |name| - 1 {
      AncestorsAreDirs(files, dirs, name, k + 1);
      assert name[..k + 1][..k] == name[..k];
    }
  }

  // ---------------------------------------------------------------------
  // What a round is for
  // ---------------------------------------------------------------------

  lemma TmpEndsInTilde(s: string)
    ensures HasSuffix(s, TMP_SUFFIX) ==> s[|s| - 1] == '~'
  {}

  lemma HexIsNotTmp(key: Path, sha256: string)
    requires CasPath(sha256) == Some(key)
    ensures Under("cas", key) && !IsTmp(key)
  {
    TmpEndsInTilde(key[1]);
  }

  lemma LiveIsSwept(locate: Locate, files: Files, key: Path)
    requires Live(locate, files, key)
    ensures Swept(key)
    ensures Under("cas", key) ==> !IsTmp(key)
  {
    if FromManifest(locate, files, key) {
      var m :| FromIndex(locate, files, m) && Under("manifest", m) && m in files &&
        files[m].content.ManifestFile? && NamedBy(locate, files[m].content.manifest, key);
      var artifacts := files[m].content.manifest.artifacts;
      var a :| 0 <= a < |artifacts| && NamesContent(locate, artifacts[a], key);
      if CasPath(artifacts[a].sha256) == Some(key) {
        HexIsNotTmp(key, artifacts[a].sha256);
      }
    }
  }

  /** A stored live key outlives a round exactly when it does not carry the
      upload suffix (or cannot be removed): the sweep looks at the suffix before
      it looks at the live set. */
  lemma LiveKeySurvivesIff(
    locate: Locate, files: Files, live: set<Path>, guard: Guard, stuck: set<Path>, key: Path)
    requires AllLive(locate, files, live) && key in live && key in files
    ensures key in Survivors(files, live, guard, stuck) <==> !IsTmp(key) || key in stuck
  {
    LiveIsSwept(locate, files, key);
    if IsTmp(key) {
      assert !Under("cas", key);
    }
  }

  ghost predicate IsUploadOf(name: Path, base: Path) {
    base != [] && name == base[..|base| - 1] + [base[|base| - 1] + ".tmp~"]
  }

  lemma UploadIsTmp(name: Path, base: Path)
    requires IsUploadOf(name, base)
    ensures IsTmp(name) && TrimTmp(name) == base
  {
    var last := name[|name| - 1];
    assert |last| - |TMP_SUFFIX| == |base[|base| - 1]|;
    assert base == base[..|base| - 1] + [base[|base| - 1]];
    assert name[..|name| - 1] == base[..|base| - 1];
  }

  lemma TmpIsUpload(name: Path)
    requires IsTmp(name)
    ensures IsUploadOf(name, TrimTmp(name))
  {
    var last := name[|name| - 1];
    assert last == last[..|last| - |TMP_SUFFIX|] + TMP_SUFFIX;
    assert name == name[..|name| - 1] + [last];
  }

  /** What a round leaves of the files that are no uploads in progress: what it
      cannot remove, everything outside the three prefixes, what is live, and the
      content that an unexpired lease or its age protects. */
  lemma LeftoversAreLiveOrProtected(
    locate: Locate, files: Files, live: set<Path>, guard: Guard, stuck: set<Path>, name: Path)
    requires AllLive(locate, files, live) && name in files && forall base :: !IsUploadOf(name, base)
    ensures name in Survivors(files, live, guard, stuck) <==>
      || name in stuck
      || !(|name| > 1 && (name[0] == "manifest" || name[0] == "artifact" || name[0] == "cas"))
      || Live(locate, files, name)
      || (name[0] == "cas" && name in guard.leases && guard.now < guard.leases[name])
      || (name[0] == "cas" && guard.casGrace > 0 && guard.now - files[name].mtime < guard.casGrace)
  {
    hide Live;
    if IsTmp(name) {
      TmpIsUpload(name);
    }
  }

  /** And of the uploads in progress, live or not: those of content that is
      leased, and those that are young. */
  lemma UploadsStayIff(
    locate: Locate, files: Files, live: set<Path>, guard: Guard, stuck: set<Path>, name: Path, base: Path)
    requires AllLive(locate, files, live) && name in files && IsUploadOf(name, base)
    ensures name in Survivors(files, live, guard, stuck) <==>
      || name in stuck
      || !(|name| > 1 && (name[0] == "manifest" || name[0] == "artifact" || name[0] == "cas"))
      || (name[0] == "cas" && base in guard.leases && guard.now < guard.leases[base])
      || (name[0] == "cas" && guard.casGrace > 0 && guard.now - files[name].mtime < guard.casGrace)
  {
    hide Live;
    UploadIsTmp(name, base);
  }

  /** A version listed in index/<product>/<channel>.pb has a URL of the manifest. */
  ghost predicate Publishes(locate: Locate, files: Files, product: string, channel: string, manifest: Path) {
    && product != "" && channel != "" && ["index", product, channel + ".pb"] in files
    && files[["index", product, channel + ".pb"]].content.IndexFile?
    && |manifest| > 1 && manifest[0] == "manifest"
    && exists node, url ::
         node in files[["index", product, channel + ".pb"]].content.index.versions &&
         url in node.manifest.urls && locate(url) == Some(manifest)
  }

  lemma PublishedIsLive(locate: Locate, files: Files, product: string, channel: string, manifest: Path)
    requires Publishes(locate, files, product, channel, manifest)
    ensures FromIndex(locate, files, manifest)
  {
    hide IsPublishedIndexFile;
    var name := ["index", product, channel + ".pb"];
    PublishedName(product, channel);
    var index := files[name].content.index;
    var node, url :| node in index.versions && url in node.manifest.urls && locate(url) == Some(manifest);
    var n :| 0 <= n < |index.versions| && index.versions[n] == node;
    var u :| 0 <= u < |node.manifest.urls| && node.manifest.urls[u] == url;
    assert NamesManifest(locate, index, manifest);
  }

  /** A round, whatever comes of it, keeps the manifest that a published version
      names. */
  lemma PublishedManifestStays(
    locate: Locate, guard: Guard, stuck: set<Path>, files: Files, dirs: set<Path>, left: Files, leftDirs: set<Path>,
    product: string, channel: string, manifest: Path)
    requires IsRound(locate, guard, stuck, files, dirs, left, leftDirs)
    requires Publishes(locate, files, product, channel, manifest)
    requires manifest in files && forall base :: !IsUploadOf(manifest, base)
    ensures manifest in left && left[manifest] == files[manifest]
  {
    PublishedIsLive(locate, files, product, channel, manifest);
    LiveStays(locate, guard, stuck, files, dirs, left, leftDirs, manifest);
  }

  /** And each artifact of that manifest, by its URL as by its digest. */
  lemma PublishedContentStays(
    locate: Locate, guard: Guard, stuck: set<Path>, files: Files, dirs: set<Path>, left: Files, leftDirs: set<Path>,
    product: string, channel: string, manifest: Path, artifact: Artifact, key: Path)
    requires IsRound(locate, guard, stuck, files, dirs, left, leftDirs)
    requires Publishes(locate, files, product, channel, manifest)
    requires manifest in files && files[manifest].content.ManifestFile?
    requires artifact in files[manifest].content.manifest.artifacts
    requires key in files && forall base :: !IsUploadOf(key, base)
    requires
      || (|key| > 1 && key[0] == "artifact" && exists url :: url in artifact.urls && locate(url) == Some(key))
      || (exists digest :: CasDigest(artifact.sha256) == Some(digest) && key == ["cas", digest])
    ensures key in left && left[key] == files[key]
  {
    hide Doomed, Swept, Markable, FromIndex, IsRound;
    PublishedIsLive(locate, files, product, channel, manifest);
    var artifacts := files[manifest].content.manifest.artifacts;
    var a :| 0 <= a < |artifacts| && artifacts[a] == artifact;
    if |key| > 1 && key[0] == "artifact" && exists url :: url in artifact.urls && locate(url) == Some(key) {
      var url :| url in artifact.urls && locate(url) == Some(key);
      var u :| 0 <= u < |artifact.urls| && artifact.urls[u] == url;
    }
    assert NamesContent(locate, artifact, key);
    assert FromManifest(locate, files, key);
    LiveStays(locate, guard, stuck, files, dirs, left, leftDirs, key);
  }

  /** And the artifacts that a latest page names. */
  lemma LatestTargetStays(
    locate: Locate, guard: Guard, stuck: set<Path>, files: Files, dirs: set<Path>, left: Files, leftDirs: set<Path>,
    page: Path, url: string, key: Path)
    requires IsRound(locate, guard, stuck, files, dirs, left, leftDirs)
    requires |page| > 1 && page[0] == "latest" && page in files && files[page].content.LatestFile?
    requires url in files[page].content.urls && locate(url) == Some(key) && |key| > 1 && key[0] == "artifact"
    requires key in files && forall base :: !IsUploadOf(key, base)
    ensures key in left && left[key] == files[key]
  {
    hide IsRound;
    var urls := files[page].content.urls;
    var u :| 0 <= u < |urls| && urls[u] == url;
    assert FromLatest(locate, files, key);
    LiveStays(locate, guard, stuck, files, dirs, left, leftDirs, key);
  }

  /** A published manifest that is not there, is no manifest or names nothing in
      this store stops the round: nothing at all is removed. */
  lemma BrokenManifestStopsTheRound(
    locate: Locate, guard: Guard, stuck: set<Path>, files: Files, dirs: set<Path>, left: Files, leftDirs: set<Path>,
    product: string, channel: string, manifest: Path)
    requires IsRound(locate, guard, stuck, files, dirs, left, leftDirs)
    requires Publishes(locate, files, product, channel, manifest)
    requires manifest in files && files[manifest].content.ManifestFile? ==>
      forall artifact, url, key |
        artifact in files[manifest].content.manifest.artifacts && url in artifact.urls && locate(url) == Some(key) ::
        |key| < 2 || (key[0] != "manifest" && key[0] != "artifact")
    ensures left == files && leftDirs == dirs
  {
    PublishedIsLive(locate, files, product, channel, manifest);
    GoodManifestNames(locate, files, manifest);
  }

  lemma GoodManifestNames(locate: Locate, files: Files, manifest: Path)
    ensures GoodManifest(locate, files, manifest) ==>
      && manifest in files && files[manifest].content.ManifestFile?
      && exists artifact, url, key ::
           artifact in files[manifest].content.manifest.artifacts && url in artifact.urls && locate(url) == Some(key) &&
           |key| > 1 && (key[0] == "manifest" || key[0] == "artifact")
  {
    if GoodManifest(locate, files, manifest) {
      var artifacts := files[manifest].content.manifest.artifacts;
      var a, u :| 0 <= a < |artifacts| && 0 <= u < |artifacts[a].urls| && LocalKey(locate, artifacts[a].urls[u]).Some?;
      assert artifacts[a] in artifacts && artifacts[a].urls[u] in artifacts[a].urls;
      assert locate(artifacts[a].urls[u]) == Some(LocalKey(locate, artifacts[a].urls[u]).value);
    }
  }

  lemma PublishedName(product: string, channel: string)
    requires product != "" && channel != ""
    ensures IsPublishedIndexFile(["index", product, channel + ".pb"])
  {
    assert (channel + ".pb")[|channel|..] == ".pb";
  }

  lemma LiveStays(
    locate: Locate, guard: Guard, stuck: set<Path>, files: Files, dirs: set<Path>, left: Files, leftDirs: set<Path>,
    key: Path)
    requires IsRound(locate, guard, stuck, files, dirs, left, leftDirs)
    requires Live(locate, files, key) && key in files && forall base :: !IsUploadOf(key, base)
    ensures key in left && left[key] == files[key]
  {
    hide Live, Markable;
    if Markable(locate, files) {
      var live :| AllLive(locate, files, live) && left == Survivors(files, live, guard, stuck) &&
        leftDirs == SurvivingDirs(dirs, left);
      LeftoversAreLiveOrProtected(locate, files, live, guard, stuck, key);
    }
  }

  /** A round that goes on removes what no URL leads to, unless it cannot. */
  lemma UnreachableGoes(
    locate: Locate, guard: Guard, stuck: set<Path>, files: Files, dirs: set<Path>, left: Files, leftDirs: set<Path>,
    key: Path)
    requires IsRound(locate, guard, stuck, files, dirs, left, leftDirs) && Markable(locate, files)
    requires |key| > 1 && (key[0] == "manifest" || key[0] == "artifact") && key !in stuck
    requires forall url :: locate(url) != Some(key)
    ensures key !in left
  {
    hide Markable;
    var live :| AllLive(locate, files, live) && left == Survivors(files, live, guard, stuck) &&
      leftDirs == SurvivingDirs(dirs, left);
    assert !Live(locate, files, key);
  }

  /** A round that goes on leaves a directory below one of the three prefixes if
      and only if a file is left somewhere below it, and every other directory. */
  lemma DirectoriesStayIff(
    locate: Locate, guard: Guard, stuck: set<Path>, files: Files, dirs: set<Path>, left: Files, leftDirs: set<Path>,
    dir: Path)
    requires IsRound(locate, guard, stuck, files, dirs, left, leftDirs) && Markable(locate, files) && dir in dirs
    ensures dir in leftDirs <==>
      || !(|dir| > 1 && (dir[0] == "manifest" || dir[0] == "artifact" || dir[0] == "cas"))
      || exists name :: name in left && |name| > |dir| && name[..|dir|] == dir
  {
    hide Markable;
    assert HasFileBelow(left, dir) <==> exists name :: name in left && |name| > |dir| && name[..|dir|] == dir;
  }

  /** One round as it was run. */
  datatype Round = Round(live: set<Path>, guard: Guard, stuck: set<Path>)

  ghost function AfterRounds(files: Files, rounds: seq<Round>): Files {
    if rounds == [] then files
    else
      var before, last := AfterRounds(files, rounds[..|rounds| - 1]), rounds[|rounds| - 1];
      Survivors(before, last.live, last.guard, last.stuck)
  }

  /** A lease outlives every round that runs before it ends: content leased until
      some time, and its upload in progress, are there unchanged after any number
      of such rounds, live or not and however old. */
  lemma {:induction false} LeaseOutlivesRounds(files: Files, rounds: seq<Round>, name: Path, until: int)
    requires Under("cas", name) && name in files
    requires var key := if IsTmp(name) then TrimTmp(name) else name;
      forall r | 0 <= r < |rounds| ::
        key in rounds[r].guard.leases && rounds[r].guard.leases[key] == until && rounds[r].guard.now < until
    ensures name in AfterRounds(files, rounds) && AfterRounds(files, rounds)[name] == files[name]
  {
    if rounds != [] {
      LeaseOutlivesRounds(files, rounds[..|rounds| - 1], name, until);
    }
  }

  /** So does youth: content, or its upload in progress, that is within the grace
      period at every round is there unchanged after all of them, leased or not. */
  lemma {:induction false} GracePeriodOutlivesRounds(files: Files, rounds: seq<Round>, name: Path)
    requires Under("cas", name) && name in files
    requires forall r | 0 <= r < |rounds| ::
      rounds[r].guard.casGrace > 0 && rounds[r].guard.now - files[name].mtime < rounds[r].guard.casGrace
    ensures name in AfterRounds(files, rounds) && AfterRounds(files, rounds)[name] == files[name]
  {
    if rounds != [] {
      GracePeriodOutlivesRounds(files, rounds[..|rounds| - 1], name);
    }
  }

  /** After a round the next one may go on exactly when no manifest that an index
      names went for its suffix; and then it finds the same live keys. */
  lemma LiveStaysTheSame(
    locate: Locate, files: Files, live: set<Path>, guard: Guard, stuck: set<Path>)
    requires Markable(locate, files) && AllLive(locate, files, live)
    ensures var left := Survivors(files, live, guard, stuck);
      && (Markable(locate, left) <==>
          forall m | FromIndex(locate, files, m) && Under("manifest", m) :: !IsTmp(m) || m in stuck)
      && (Markable(locate, left) ==> AllLive(locate, left, live))
  {
    var left := Survivors(files, live, guard, stuck);
    hide IsPublishedIndexFile, NamesManifest, NamedBy, LocalKey, Doomed, CasProtected, FromIndex, FromLatest,
      FromManifest, Under;
    SameIndexes(locate, files, left);
    SameLatest(locate, files, left);
    forall m | FromIndex(locate, files, m) && Under("manifest", m)
      ensures m in left <==> !IsTmp(m) || m in stuck
    {
      assert Live(locate, files, m) && GoodManifest(locate, files, m);
      LiveKeySurvivesIff(locate, files, live, guard, stuck, m);
    }
    if Markable(locate, left) {
      forall m | FromIndex(locate, files, m) && Under("manifest", m)
        ensures m in left
      {
        assert FromIndex(locate, left, m) && GoodManifest(locate, left, m);
      }
      forall k
        ensures FromManifest(locate, left, k) <==> FromManifest(locate, files, k)
      {
        SameManifests(locate, files, left, k);
      }
    }
  }

  lemma SameIndexes(locate: Locate, files: Files, left: Files)
    requires forall name | name in left :: name in files && left[name] == files[name]
    requires forall name | name in files && !Swept(name) :: name in left
    ensures forall k :: FromIndex(locate, left, k) <==> FromIndex(locate, files, k)
  {}

  lemma SameLatest(locate: Locate, files: Files, left: Files)
    requires forall name | name in left :: name in files && left[name] == files[name]
    requires forall name | name in files && !Swept(name) :: name in left
    ensures forall k :: FromLatest(locate, left, k) <==> FromLatest(locate, files, k)
  {}

  lemma SameManifests(locate: Locate, files: Files, left: Files, key: Path)
    requires forall name | name in left :: name in files && left[name] == files[name]
    requires forall k :: FromIndex(locate, left, k) <==> FromIndex(locate, files, k)
    requires forall m | FromIndex(locate, files, m) && Under("manifest", m) && m in files :: m in left
    ensures FromManifest(locate, left, key) <==> FromManifest(locate, files, key)
  {}

  /** What a round makes of the store: nothing if it may not go on. */
  ghost predicate IsRound(
    locate: Locate, guard: Guard, stuck: set<Path>, files: Files, dirs: set<Path>, left: Files, leftDirs: set<Path>)
  {
    if Markable(locate, files) then
      exists live :: AllLive(locate, files, live) && left == Survivors(files, live, guard, stuck) &&
        leftDirs == SurvivingDirs(dirs, left)
    else left == files && leftDirs == dirs
  }

  /** A second round at the same moment removes no file and no directory. */
  lemma SecondRoundRemovesNothing(
    locate: Locate, guard: Guard, stuck: set<Path>, files: Files, dirs: set<Path>, left: Files, leftDirs: set<Path>,
    again: Files, againDirs: set<Path>)
    requires IsRound(locate, guard, stuck, files, dirs, left, leftDirs)
    requires IsRound(locate, guard, stuck, left, leftDirs, again, againDirs)
    ensures again == left && againDirs == leftDirs
  {
    if Markable(locate, files) && Markable(locate, left) {
      var live :| AllLive(locate, files, live) && left == Survivors(files, live, guard, stuck) &&
        leftDirs == SurvivingDirs(dirs, left);
      LiveStaysTheSame(locate, files, live, guard, stuck);
      var live2 :| AllLive(locate, left, live2) && again == Survivors(left, live2, guard, stuck) &&
        againDirs == SurvivingDirs(leftDirs, again);
      assert live2 == live;
    }
  }

  /** The one key a one-node index names, when its manifest URL is local. */
  lemma OneNodeIndex(locate: Locate, url: string, key: Path, sequence: int, node: VersionNode)
    requires LocalKey(locate, url) == Some(key) && node.manifest.urls == [url]
    ensures Readable(IndexFile(Index(sequence, [node], None)))
    ensures forall k :: NamesManifest(locate, Index(sequence, [node], None), k) <==> k == key
  {
    var index := Index(sequence, [node], None);
    assert index.versions[0].manifest.urls[0] == url;
  }

  /** A store of one published index and one manifest, which it names. */
  lemma OneManifestStore(locate: Locate, name: Path, key: Path, target: Path, node: VersionNode, artifact: Artifact)
    requires IsPublishedIndexFile(name) && name != key && Under("manifest", key)
    requires node.manifest.urls == ["m"] && LocalKey(locate, "m") == Some(key)
    requires artifact.urls == ["a"] && LocalKey(locate, "a") == Some(target)
    ensures var files := map[
        name := File(IndexFile(Index(1, [node], None)), 0),
        key := File(ManifestFile(Manifest("1", 1, [artifact])), 0)];
      Markable(locate, files) && Live(locate, files, key)
  {
    var files := map[
      name := File(IndexFile(Index(1, [node], None)), 0),
      key := File(ManifestFile(Manifest("1", 1, [artifact])), 0)];
    OneNodeIndex(locate, "m", key, 1, node);
    assert files[name].content == IndexFile(Index(1, [node], None));
    assert FromIndex(locate, files, key);
    assert files[key].content.manifest.artifacts[0].urls[0] == "a";
    assert GoodManifest(locate, files, key);
    forall k | FromIndex(locate, files, k)
      ensures k == key
    {
      var n :| n in files && IsPublishedIndexFile(n) && Readable(files[n].content) &&
        NamesManifest(locate, files[n].content.index, k);
      assert n == name;
    }
  }

  /** The suffix rule does bite: a published manifest whose name ends in the
      upload suffix is live and is removed. */
  lemma LiveTmpNameIsSwept(guard: Guard) returns (locate: Locate, files: Files, key: Path)
    ensures Markable(locate, files) && Live(locate, files, key) && key in files
    ensures forall live | AllLive(locate, files, live) :: key !in Survivors(files, live, guard, {})
  {
    key := ["manifest", "app", "1.pb.tmp~"];
    var target: Path := ["artifact", "app", "setup"];
    locate := (url: string) => if url == "m" then Some(key) else Some(target);
    var node := VersionNode("1", 1, 0, false, ManifestRef("", 0, ["m"]));
    var name: Path := ["index", "app", "stable.pb"];
    var artifact := Artifact("a", "setup", 1, "", ["a"]);
    files := map[
      name := File(IndexFile(Index(1, [node], None)), 0),
      key := File(ManifestFile(Manifest("1", 1, [artifact])), 0)];
    assert IsTmp(key) by {
      assert key[2][4..] == TMP_SUFFIX;
    }
    assert IsPublishedIndexFile(name) by {
      assert "stable.pb"[6..] == ".pb";
    }
    assert name[0] != key[0];
    OneManifestStore(locate, name, key, target, node, artifact);
    hide Markable, Live, IsTmp, Doomed, Swept, Survivors;
    forall live | AllLive(locate, files, live)
      ensures key !in Survivors(files, live, guard, {})
    {
      LiveKeySurvivesIff(locate, files, live, guard, {}, key);
    }
  }
}
