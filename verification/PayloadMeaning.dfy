/** What an accepted file table and a built archive are, in terms of the entries
    of the table and of the tree (internal/payload). */
module PayloadMeaning {
  import opened Paths
  import opened PayloadTable
  import opened Payload
  import opened Sorting

  // ---------------------------------------------------------------------
  // The table
  // ---------------------------------------------------------------------

  /** What precedes the first dot, in upper case. */
  lemma {:induction false} StemMeans(name: string)
    ensures var stem := Stem(name);
      && |stem| <= |name| && (|stem| == |name| || name[|stem|] == '.')
      && forall i | 0 <= i < |stem| :: name[i] != '.' &&
           stem[i] == if 'a' <= name[i] <= 'z' then name[i] - 'a' + 'A' else name[i]
  {
    if name != [] && name[0] != '.' {
      StemMeans(name[1..]);
    }
  }

  /** A file name: 1 to 255 characters, no slash of either kind, no control
      character, no two dots in a row, not a dot, and not a device's. */
  lemma FilenameMeans(name: string)
    ensures FilenameOk(name) <==>
      && 0 < |name| <= 255 && name != "." && Stem(name) !in WINDOWS_RESERVED
      && (forall i | 0 <= i < |name| ::
            name[i] != '/' && name[i] != '\\' && ' ' <= name[i] && name[i] != '\U{7F}')
      && (forall i | 0 < i < |name| :: name[i] == '.' ==> name[i - 1] != '.')
  {
    hide Stem;
    assert '\U{20}' == ' ';
    if forall i | 0 < i < |name| :: name[i] == '.' ==> name[i - 1] != '.' {
      assert name == ".." ==> name[1] == '.' && name[0] == '.';
      forall i | 0 <= i < |name| - 1
        ensures !(name[i] == '.' && name[i + 1] == '.')
      {
        assert name[i + 1] == '.' ==> name[i + 1 - 1] != '.';
      }
    }
    if FilenameOk(name) {
      forall i | 0 < i < |name|
        ensures name[i] == '.' ==> name[i - 1] != '.'
      {
        assert !(name[i - 1] == '.' && name[i - 1 + 1] == '.');
      }
    }
  }

  /** An entry that is well formed by itself: a path of file names, no target for
      a file, and nothing but a target for a symlink. */
  lemma EntryOkIff(e: FileEntry)
    ensures EntryOk(e) <==>
      && e.relpath != [] && (forall name | name in e.relpath :: FilenameOk(name))
      && (if e.kind == SymlinkKind then e.size == 0 && e.sha256 == "" && e.mode == 0
          else (e.kind == FileKind || e.kind == UnspecifiedKind) && e.linkTarget == "")
  {
    hide FilenameOk;
  }

  lemma RelpathIsPlain(p: Path)
    requires RelpathOk(p)
    ensures p != [] && AllPlain(p)
  {
    hide Stem;
    forall i | 0 <= i < |p|
      ensures Plain(p[i])
    {
      assert FilenameOk(p[i]);
    }
  }

  /** The directories of a plain path are its proper prefixes. */
  lemma DirectoriesArePrefixes(rel: Path, p: Path)
    requires AllPlain(rel) && rel != []
    ensures InsideOf(rel, p) <==> p != [] && |p| < |rel| && p == rel[..|p|]
  {
    ParentsOfPlain(rel, 1);
    InsideIffPrefix(rel, p);
    CleanPlain([], rel[..|rel| - 1]);
    assert [] + rel[..|rel| - 1] == rel[..|rel| - 1];
    assert Dir(rel) == rel[..|rel| - 1];
    if p <= Dir(rel) {
      assert rel[..|p|] == rel[..|rel| - 1][..|p|];
    }
  }

  /** A table lists its plain entries and the directories above its entries. */
  lemma ListedMeans(files: seq<FileEntry>, p: Path)
    requires forall e | e in files :: RelpathOk(e.relpath)
    ensures Listed(files, p) <==>
      (exists e :: e in files &&
         ((e.kind != SymlinkKind && e.relpath == p) || (p != [] && |p| < |e.relpath| && p == e.relpath[..|p|])))
  {
    hide RelpathOk, InsideOf;
    forall e | e in files
      ensures InsideOf(e.relpath, p) <==> p != [] && |p| < |e.relpath| && p == e.relpath[..|p|]
    {
      RelpathIsPlain(e.relpath);
      DirectoriesArePrefixes(e.relpath, p);
    }
  }

  /** The links of a table whose paths are distinct are its symlink entries. */
  lemma LinksMean(files: seq<FileEntry>, rel: Path, target: string)
    requires forall i, j | 0 <= i < j < |files| :: files[i].relpath != files[j].relpath
    ensures (rel in LinksOf(files) && LinksOf(files)[rel] == target) <==>
      exists e :: e in files && e.kind == SymlinkKind && e.relpath == rel && e.linkTarget == target
  {
    hide LinksOf;
    LinksAreEntries(files, rel);
    forall e | e in files && IsSymlink(e) {
      LinkTargetIs(files, e);
    }
  }

  /** An entry of a table that meets the static rules: its path has only names
      that every system takes, its fields fit its kind, and no directory above it
      is a symlink of the table. */
  lemma EntryMeans(table: FileTable, e: FileEntry)
    requires StaticRules(table) && e in table.files
    ensures e.relpath != [] && forall i | 0 <= i < |e.relpath| ::
      var name := e.relpath[i];
      && 0 < |name| <= 255 && name != "." && name != ".."
      && forall c | c in name :: c != '/' && c != '\\' && ' ' <= c && c != '\U{7F}'
    ensures e.kind in {UnspecifiedKind, FileKind, SymlinkKind}
    ensures if e.kind == SymlinkKind then e.size == 0 && e.sha256 == "" && e.mode == 0 else e.linkTarget == ""
    ensures forall link, k | link in table.files && link.kind == SymlinkKind && 0 < k < |e.relpath| ::
      link.relpath != e.relpath[..k]
  {
    hide Stem, PathRules;
    assert EntryOk(e);
    forall i | 0 <= i < |e.relpath|
      ensures FilenameOk(e.relpath[i])
    {}
    forall link, k | link in table.files && link.kind == SymlinkKind && 0 < k < |e.relpath|
      ensures link.relpath != e.relpath[..k]
    {
      NoLinkAbove(table, e, link, k);
    }
  }

  lemma NoLinkAbove(table: FileTable, e: FileEntry, link: FileEntry, k: nat)
    requires PathRules(table.files, table.preserve) && RelpathOk(e.relpath)
    requires e in table.files && link in table.files && link.kind == SymlinkKind && 0 < k < |e.relpath|
    ensures link.relpath != e.relpath[..k]
  {
    hide LinksOf, RelpathOk, InsideOf;
    LinksAreEntries(table.files, link.relpath);
    RelpathIsPlain(e.relpath);
    DirectoriesArePrefixes(e.relpath, e.relpath[..k]);
    assert IsSymlink(link) && link.relpath in LinksOf(table.files);
  }

  /** With symlinks in the table no preserved path is one or lies beneath one. */
  lemma PreserveMeans(table: FileTable, p: Path, link: FileEntry, k: nat)
    requires StaticRules(table) && p in table.preserve && AllPlain(p)
    requires link in table.files && link.kind == SymlinkKind && 0 < k <= |p|
    ensures link.relpath != p[..k]
  {
    hide LinksOf, InsideOf, EntryOk;
    LinksAreEntries(table.files, link.relpath);
    assert IsSymlink(link) && link.relpath in LinksOf(table.files);
    assert PreserveOk(LinksOf(table.files), p);
    if k < |p| {
      DirectoriesArePrefixes(p, p[..k]);
    } else {
      assert p[..k] == p;
    }
  }

  /** The second schema is for tables with symlinks and for bundles, and a bundle
      has its name, its Info.plist and nothing to preserve. */
  lemma UnitMeans(table: FileTable)
    requires StaticRules(table)
    ensures table.schema ==
      if (exists e :: e in table.files && e.kind == SymlinkKind) || table.unit == BundleUnit
      then "relkit.payload/2" else "relkit.payload/1"
    ensures table.unit in {UnspecifiedUnit, TreeUnit, BundleUnit}
    ensures table.unit == BundleUnit ==>
      && |table.bundleName| > 4 && table.bundleName[|table.bundleName| - 4..] == ".app" && table.preserve == []
      && exists e :: e in table.files && e.relpath == ["Contents", "Info.plist"] && e.kind != SymlinkKind
    ensures table.unit != BundleUnit ==> table.bundleName == ""
  {
    hide EntryOk, PathRules, FilenameOk;
    if table.unit == BundleUnit {
      var e :| e in table.files && e.relpath == BUNDLE_INFO_PLIST && !IsSymlink(e);
      assert e.relpath == ["Contents", "Info.plist"];
    }
  }

  // ---------------------------------------------------------------------
  // The archive
  // ---------------------------------------------------------------------

  /** The entry a tree entry outside the configuration directory gets. */
  ghost predicate IsEntryFor(host: Host, t: TreeEntry, f: FileEntry) {
    && f.relpath == t.rel && (t.rel == [] || t.rel[0] != ".relkit-payload")
    && match t.node
       case Regular(data, mode) =>
         f.kind == UnspecifiedKind && f.size == host.size(data) && f.sha256 == host.sha256(data) && f.mode == mode &&
         f.linkTarget == ""
       case Symlink(target) => f.kind == SymlinkKind && f.linkTarget == target && f.size == 0 && f.sha256 == "" &&
         f.mode == 0
       case _ => false
  }

  lemma EntryOfIs(host: Host, t: TreeEntry, f: FileEntry)
    ensures f in EntryOf(host, t) <==> IsEntryFor(host, t, f)
  {}

  lemma PreserveInOrder(preserve: seq<Path>)
    ensures SortedBy(PathsInOrder, preserve) && DistinctPaths(preserve) ==>
      forall i, j | 0 <= i < j < |preserve| ::
        preserve[i] != preserve[j] && LexAtMost(Join(preserve[i]), Join(preserve[j]))
  {
    if SortedBy(PathsInOrder, preserve) && DistinctPaths(preserve) {
      var same := (p: Path) => p;
      forall i, j | 0 <= i < j < |preserve|
        ensures preserve[i] != preserve[j] && LexAtMost(Join(preserve[i]), Join(preserve[j]))
      {
        assert same(preserve[i]) != same(preserve[j]);
        assert PathsInOrder(preserve[i], preserve[j]);
      }
    }
  }

  /** A built table lists exactly the files and symlinks of the tree outside the
      configuration directory, each once, with size, digest and mode, or target,
      in the order of their paths. */
  lemma TableMeans(host: Host, options: BuildOptions, table: FileTable)
    requires TableOf(host, options, table) && DistinctTree(options.tree)
    ensures forall f :: f in table.files <==> exists t :: t in options.tree && IsEntryFor(host, t, f)
    ensures forall i, j | 0 <= i < j < |table.files| ::
      table.files[i].relpath != table.files[j].relpath &&
      LexAtMost(Join(table.files[i].relpath), Join(table.files[j].relpath))
    ensures forall p :: p in table.preserve <==> p in options.preserve
    ensures forall i, j | 0 <= i < j < |table.preserve| ::
      table.preserve[i] != table.preserve[j] && LexAtMost(Join(table.preserve[i]), Join(table.preserve[j]))
  {
    PreserveInOrder(table.preserve);
    hide FilesFrom, EntryOf, IsEntryFor, ScriptPackable, LexAtMost, DistinctTree;
    var files := FilesFrom(host, options.tree);
    TreeFilesAreDistinct(host, options.tree);
    var key := (f: FileEntry) => f.relpath;
    PermutationKeepsDistinct(key, files, table.files);
    PermutationKeepsMembers(files, table.files);
    forall f
      ensures f in table.files <==> exists t :: t in options.tree && IsEntryFor(host, t, f)
    {
      FilesComeFromTree(host, options.tree, f);
      forall t {
        EntryOfIs(host, t, f);
      }
    }
    forall i, j | 0 <= i < j < |table.files|
      ensures table.files[i].relpath != table.files[j].relpath
    {
      assert key(table.files[i]) != key(table.files[j]);
    }
    forall i, j | 0 <= i < j < |table.files|
      ensures LexAtMost(Join(table.files[i].relpath), Join(table.files[j].relpath))
    {
      assert FilesInOrder(table.files[i], table.files[j]);
    }
  }

  /** Each script is in the table as it was asked for, with its size and digest,
      and 30 seconds if it was given no time. */
  lemma ScriptsMean(host: Host, options: BuildOptions, table: FileTable, s: Script)
    requires TableOf(host, options, table) && s in options.scripts
    ensures s.path in options.scriptsDir && exists e ::
      && e in table.scripts && e.phase == s.phase && e.relpath == s.path && e.interpreter == s.interpreter
      && e.args == s.args && e.timeout == (if s.timeout > 0 then s.timeout else 30)
      && e.size == host.size(options.scriptsDir[s.path]) && e.sha256 == host.sha256(options.scriptsDir[s.path])
    ensures |table.scripts| == |options.scripts|
    ensures forall i, j | 0 <= i < j < |table.scripts| ::
      var a, b := table.scripts[i], table.scripts[j];
      && !(a.phase.PostApply? && b.phase.PreApply?)
      && (a.phase == b.phase ==> LexAtMost(Join(a.relpath), Join(b.relpath)))
  {
    hide FilesFrom, RelpathOk, LexAtMost, Join;
    forall i, j | 0 <= i < j < |table.scripts|
      ensures ScriptsInOrder(table.scripts[i], table.scripts[j])
    {}
    assert ScriptPackable(options, s) && ScriptEntryOf(host, options, s) in table.scripts;
  }

  /** In a valid archive each regular file of the tree lies under files/, and each
      script under scripts/, with the content's size and digest. */
  lemma ArchiveMeans(host: Host, options: BuildOptions, table: FileTable, zip: Archive, t: TreeEntry)
    requires TableOf(host, options, table) && ValidArchive(host, zip, table) && DistinctTree(options.tree)
    requires t in options.tree && t.node.Regular? && (t.rel == [] || t.rel[0] != ".relkit-payload")
    ensures exists e ::
      && e in zip && !e.isDir && e.name == ["files"] + t.rel
      && host.size(e.data) == host.size(t.node.data) && host.sha256(e.data) == host.sha256(t.node.data)
    ensures exists e :: e in zip && !e.isDir && e.name == ["files.pb"] && e.data == TableData(table)
  {
    hide TableOf, TableRules, PortableDistinct, Declared, ScriptOk;
    TableMeans(host, options, table);
    var f := FileEntry(t.rel, UnspecifiedKind, host.size(t.node.data), host.sha256(t.node.data), t.node.mode, "");
    assert IsEntryFor(host, t, f);
    assert f in table.files;
    assert Matches(host, zip, FileName(f.relpath), f.size, f.sha256);
  }

  /** Nothing else is in it: every stored entry is the table, a file of the tree
      or a script. */
  lemma NothingElseIsPacked(host: Host, options: BuildOptions, table: FileTable, zip: Archive, e: ZipEntry)
    requires TableOf(host, options, table) && ValidArchive(host, zip, table) && DistinctTree(options.tree)
    requires e in zip && !e.isDir && e.name != []
    ensures
      || e.name == ["files.pb"]
      || (exists t :: t in options.tree && t.node.Regular? && e.name == ["files"] + t.rel &&
            (t.rel == [] || t.rel[0] != ".relkit-payload"))
      || (exists s :: s in table.scripts && e.name == ["scripts"] + s.relpath)
  {
    hide TableOf, TableRules, PortableDistinct, Matches, ScriptOk;
    TableMeans(host, options, table);
    assert Stored(e) && Declared(table, e.name);
    if f :| f in table.files && !IsSymlink(f) && e.name == FileName(f.relpath) {
      var t :| t in options.tree && IsEntryFor(host, t, f);
    }
  }

  /** When an archive is valid for a table: no two entries share a name, the table
      is in it and keeps the rules, every plain file and every script it lists is
      in it with its size and digest, nothing else is, and no two paths are
      confused by folding. */
  lemma ValidArchiveIff(host: Host, zip: Archive, table: FileTable)
    ensures ValidArchive(host, zip, table) <==>
      && (forall i, j | 0 <= i < j < |zip| && Stored(zip[i]) && Stored(zip[j]) :: zip[i].name != zip[j].name)
      && (exists e :: e in zip && Stored(e) && e.name == ["files.pb"] && e.data == TableData(table))
      && StaticRules(table) && LinksLand(table.files)
      && (forall f | f in table.files && f.kind != SymlinkKind ::
            exists e :: e in zip && Stored(e) && e.name == ["files"] + f.relpath &&
              host.size(e.data) == f.size && host.sha256(e.data) == f.sha256)
      && (forall s | s in table.scripts ::
            && s.phase != UnspecifiedPhase && s.interpreter != UnspecifiedInterpreter && s.timeout > 0
            && RelpathOk(s.relpath)
            && exists e :: e in zip && Stored(e) && e.name == ["scripts"] + s.relpath &&
                 host.size(e.data) == s.size && host.sha256(e.data) == s.sha256)
      && (forall e | e in zip && Stored(e) ::
            || e.name == ["files.pb"]
            || (exists f :: f in table.files && f.kind != SymlinkKind && e.name == ["files"] + f.relpath)
            || (exists s :: s in table.scripts && e.name == ["scripts"] + s.relpath))
      && (forall i, j | 0 <= i < j < |table.files| ::
            host.fold(table.files[i].relpath) != host.fold(table.files[j].relpath))
      && (forall i, j | 0 <= i < j < |table.scripts| ::
            host.fold(table.scripts[i].relpath) != host.fold(table.scripts[j].relpath))
  {
    hide StaticRules, LinksLand, RelpathOk, Stored;
    forall name, size, sha
      ensures Matches(host, zip, name, size, sha) <==>
        exists e :: e in zip && Stored(e) && e.name == name && host.size(e.data) == size && host.sha256(e.data) == sha
    {
      MatchesIff(host, zip, name, size, sha);
    }
    PortableIff(host, table);
    hide PortableDistinct, Matches;
  }

  lemma MatchesIff(host: Host, zip: Archive, name: Path, size: int, sha: string)
    ensures Matches(host, zip, name, size, sha) <==>
      exists e :: e in zip && Stored(e) && e.name == name && host.size(e.data) == size && host.sha256(e.data) == sha
  {
    if e :| e in zip && Stored(e) && e.name == name && host.size(e.data) == size && host.sha256(e.data) == sha {
      assert Holds(zip, name, e.data);
    }
  }

  lemma PortableIff(host: Host, table: FileTable)
    ensures PortableDistinct(host, table) <==>
      && (forall i, j | 0 <= i < j < |table.files| ::
            host.fold(table.files[i].relpath) != host.fold(table.files[j].relpath))
      && (forall i, j | 0 <= i < j < |table.scripts| ::
            host.fold(table.scripts[i].relpath) != host.fold(table.scripts[j].relpath))
  {}

  lemma PackedShape(table: FileTable, files: seq<Source>, scripts: seq<Source>)
    ensures var zip := Packed(table, files + scripts);
      && |zip| == 1 + |files| + |scripts| && zip[0] == ZipEntry(["files.pb"], false, TableData(table))
      && (forall i | 0 < i <= |files| :: zip[i] == ZipEntry(files[i - 1].name, false, files[i - 1].data))
      && (forall k | 0 <= k < |scripts| :: zip[1 + |files| + k] == ZipEntry(scripts[k].name, false, scripts[k].data))
  {}

  ghost predicate IsFileOf(options: BuildOptions, e: ZipEntry) {
    exists t :: t in options.tree && Outside(t) && t.node.Regular? &&
      e == ZipEntry(["files"] + t.rel, false, t.node.data)
  }

  lemma SourceIsFile(options: BuildOptions, s: Source)
    requires s in SourcesFrom(options.tree)
    ensures IsFileOf(options, ZipEntry(s.name, false, s.data))
  {
    hide SourcesFrom;
    SourcesComeFromTree(options.tree, s);
    var t :| t in options.tree && s in SourceOf(t);
    assert Outside(t) && ZipEntry(s.name, false, s.data) == ZipEntry(["files"] + t.rel, false, t.node.data);
  }

  /** What lies where in a built archive: the table first, then the files of the
      tree in the order of their names, then the scripts in the order given, all
      with their own bytes. */
  lemma PackedInOrder(options: BuildOptions, table: FileTable, zip: Archive) returns (n: nat)
    requires Packs(options, table, zip)
    ensures |zip| == 1 + n + |options.scripts| && zip[0] == ZipEntry(["files.pb"], false, TableData(table))
    ensures forall i, j | 0 < i < j <= n :: LexAtMost(Join(zip[i].name), Join(zip[j].name))
    ensures forall i | 0 < i <= n :: IsFileOf(options, zip[i])
    ensures forall e | IsFileOf(options, e) :: e in zip
    ensures forall k | 0 <= k < |options.scripts| ::
      var path := options.scripts[k].path;
      path in options.scriptsDir &&
      zip[1 + n + k] == ZipEntry(["scripts"] + path, false, options.scriptsDir[path])
  {
    hide SourcesFrom, LexAtMost, Join, SourcesInOrder;
    var files, scripts :| multiset(files) == multiset(SourcesFrom(options.tree)) &&
      SortedBy(SourcesInOrder, files) && ScriptSources(options, scripts) && zip == Packed(table, files + scripts);
    n := |files|;
    hide Packed, IsFileOf, ScriptSources, Outside, ScriptName;
    PackedShape(table, files, scripts);
    FilesPacked(options, files, zip);
    ScriptsPackedLast(options, scripts, n, zip);
  }

  lemma ScriptsPackedLast(options: BuildOptions, scripts: seq<Source>, n: nat, zip: Archive)
    requires ScriptSources(options, scripts) && |zip| == 1 + n + |scripts|
    requires forall k | 0 <= k < |scripts| :: zip[1 + n + k] == ZipEntry(scripts[k].name, false, scripts[k].data)
    ensures |scripts| == |options.scripts|
    ensures forall k | 0 <= k < |options.scripts| ::
      var path := options.scripts[k].path;
      path in options.scriptsDir &&
      zip[1 + n + k] == ZipEntry(["scripts"] + path, false, options.scriptsDir[path])
  {}

  lemma FilesPacked(options: BuildOptions, files: seq<Source>, zip: Archive)
    requires multiset(files) == multiset(SourcesFrom(options.tree)) && SortedBy(SourcesInOrder, files)
    requires |files| < |zip|
    requires forall i | 0 < i <= |files| :: zip[i] == ZipEntry(files[i - 1].name, false, files[i - 1].data)
    ensures forall i, j | 0 < i < j <= |files| :: LexAtMost(Join(zip[i].name), Join(zip[j].name))
    ensures forall i | 0 < i <= |files| :: IsFileOf(options, zip[i])
    ensures forall e | IsFileOf(options, e) :: e in zip
  {
    hide SourcesFrom, LexAtMost, Join, IsFileOf;
    PermutationKeepsMembers(files, SourcesFrom(options.tree));
    forall i, j | 0 < i < j <= |files|
      ensures LexAtMost(Join(zip[i].name), Join(zip[j].name))
    {
      assert SourcesInOrder(files[i - 1], files[j - 1]);
    }
    forall i | 0 < i <= |files|
      ensures IsFileOf(options, zip[i])
    {
      assert files[i - 1] in files;
      SourceIsFile(options, files[i - 1]);
    }
    forall e | IsFileOf(options, e)
      ensures e in zip
    {
      var s := FileIsPacked(options, e);
      assert s in files;
      var i :| 0 <= i < |files| && files[i] == s;
      assert zip[i + 1] == e;
    }
  }

  lemma FileIsPacked(options: BuildOptions, e: ZipEntry) returns (s: Source)
    requires IsFileOf(options, e)
    ensures s in SourcesFrom(options.tree) && e == ZipEntry(s.name, false, s.data)
  {
    hide SourcesFrom;
    var t :| t in options.tree && Outside(t) && t.node.Regular? &&
      e == ZipEntry(["files"] + t.rel, false, t.node.data);
    s := Source(["files"] + t.rel, t.node.data);
    assert s in SourceOf(t);
    SourcesComeFromTree(options.tree, s);
  }

  // ---------------------------------------------------------------------
  // What can be built
  // ---------------------------------------------------------------------

  /** Outside the configuration directory. */
  predicate Outside(t: TreeEntry) {
    t.rel == [] || t.rel[0] != ".relkit-payload"
  }

  /** A file or symlink that the table will list. */
  predicate IsTabled(t: TreeEntry) {
    Outside(t) && (t.node.Regular? || t.node.Symlink?)
  }

  predicate IsLink(t: TreeEntry) {
    Outside(t) && t.node.Symlink?
  }

  lemma TreeFiles(host: Host, tree: seq<TreeEntry>)
    ensures forall f | f in FilesFrom(host, tree) ::
      exists t :: t in tree && IsTabled(t) && t.rel == f.relpath && (f.kind == SymlinkKind <==> t.node.Symlink?)
    ensures forall t | t in tree && IsTabled(t) ::
      exists f :: f in FilesFrom(host, tree) && t.rel == f.relpath && (f.kind == SymlinkKind <==> t.node.Symlink?)
  {
    hide FilesFrom;
    forall f | f in FilesFrom(host, tree)
      ensures exists t ::
        t in tree && IsTabled(t) && t.rel == f.relpath && (f.kind == SymlinkKind <==> t.node.Symlink?)
    {
      FilesComeFromTree(host, tree, f);
      var t :| t in tree && f in EntryOf(host, t);
      EntryOfIs(host, t, f);
      assert IsTabled(t);
    }
    forall t | t in tree && IsTabled(t)
      ensures exists f ::
        f in FilesFrom(host, tree) && t.rel == f.relpath && (f.kind == SymlinkKind <==> t.node.Symlink?)
    {
      var f := EntryOf(host, t)[0];
      assert f in EntryOf(host, t);
      FilesComeFromTree(host, tree, f);
    }
  }

  /** No two paths of the tree that the table will list are confused by folding. */
  ghost predicate FoldsApart(host: Host, tree: seq<TreeEntry>) {
    forall t, u | t in tree && u in tree && IsTabled(t) && IsTabled(u) && t.rel != u.rel ::
      host.fold(t.rel) != host.fold(u.rel)
  }

  lemma FilesFoldApart(host: Host, files: seq<FileEntry>, f: FileEntry, g: FileEntry)
    requires DistinctBy((f: FileEntry) => host.fold(f.relpath), files)
    requires f in files && g in files && f.relpath != g.relpath
    ensures host.fold(f.relpath) != host.fold(g.relpath)
  {
    var i :| 0 <= i < |files| && files[i] == f;
    var j :| 0 <= j < |files| && files[j] == g;
    assert i < j || j < i;
  }

  lemma EntryHasFile(host: Host, tree: seq<TreeEntry>, t: TreeEntry) returns (f: FileEntry)
    requires t in tree && IsTabled(t)
    ensures f in FilesFrom(host, tree) && f.relpath == t.rel
  {
    hide FilesFrom, IsTabled;
    TreeFiles(host, tree);
    f :| f in FilesFrom(host, tree) && t.rel == f.relpath;
  }

  lemma EntriesFoldApart(host: Host, tree: seq<TreeEntry>)
    requires DistinctBy((f: FileEntry) => host.fold(f.relpath), FilesFrom(host, tree))
    ensures FoldsApart(host, tree)
  {
    hide FilesFrom, IsTabled, DistinctBy;
    forall t, u | t in tree && u in tree && IsTabled(t) && IsTabled(u) && t.rel != u.rel
      ensures host.fold(t.rel) != host.fold(u.rel)
    {
      var f := EntryHasFile(host, tree, t);
      var g := EntryHasFile(host, tree, u);
      FilesFoldApart(host, FilesFrom(host, tree), f, g);
    }
  }

  lemma FoldsDistinctIff(host: Host, tree: seq<TreeEntry>)
    requires DistinctTree(tree)
    ensures DistinctBy((f: FileEntry) => host.fold(f.relpath), FilesFrom(host, tree)) <==> FoldsApart(host, tree)
  {
    hide FilesFrom, DistinctTree, IsTabled, DistinctBy, FoldsApart;
    if DistinctBy((f: FileEntry) => host.fold(f.relpath), FilesFrom(host, tree)) {
      EntriesFoldApart(host, tree);
    }
    if FoldsApart(host, tree) {
      TreeFilesAreDistinct(host, tree);
      TreeFiles(host, tree);
      TreeFoldsApart(host, tree, FilesFrom(host, tree));
    }
  }

  lemma TreeFoldsApart(host: Host, tree: seq<TreeEntry>, files: seq<FileEntry>)
    requires FoldsApart(host, tree) && DistinctRelpaths(files)
    requires forall f | f in files :: exists t :: t in tree && IsTabled(t) && t.rel == f.relpath
    ensures DistinctBy((f: FileEntry) => host.fold(f.relpath), files)
  {
    hide IsTabled, FoldsApart;
    var path := (f: FileEntry) => f.relpath;
    forall i, j | 0 <= i < j < |files|
      ensures host.fold(files[i].relpath) != host.fold(files[j].relpath)
    {
      assert path(files[i]) != path(files[j]) && files[i] in files && files[j] in files;
      var t :| t in tree && IsTabled(t) && t.rel == files[i].relpath;
      var u :| u in tree && IsTabled(u) && u.rel == files[j].relpath;
      FoldApart(host, tree, t, u);
    }
  }

  lemma FoldApart(host: Host, tree: seq<TreeEntry>, t: TreeEntry, u: TreeEntry)
    requires FoldsApart(host, tree) && t in tree && u in tree && IsTabled(t) && IsTabled(u) && t.rel != u.rel
    ensures host.fold(t.rel) != host.fold(u.rel)
  {}

  /** No symlink of the tree is a directory above the path. */
  ghost predicate BelowNoLink(tree: seq<TreeEntry>, rel: Path) {
    forall l, k | l in tree && IsLink(l) && 0 < k < |rel| :: l.rel != rel[..k]
  }

  lemma BelowNoLinkIff(host: Host, tree: seq<TreeEntry>, rel: Path)
    requires RelpathOk(rel)
    ensures ThroughNoLink(LinksOf(FilesFrom(host, tree)), rel) <==> BelowNoLink(tree, rel)
    ensures rel in LinksOf(FilesFrom(host, tree)) <==> exists l :: l in tree && IsLink(l) && l.rel == rel
  {
    hide FilesFrom, RelpathOk, InsideOf, LinksOf, IsTabled, Outside;
    var links := LinksOf(FilesFrom(host, tree));
    RelpathIsPlain(rel);
    forall p
      ensures p in links <==> exists l :: l in tree && IsLink(l) && l.rel == p
    {
      LinkIff(host, tree, p);
    }
    forall p
      ensures InsideOf(rel, p) <==> p != [] && |p| < |rel| && p == rel[..|p|]
    {
      DirectoriesArePrefixes(rel, p);
    }
    if BelowNoLink(tree, rel) {
      forall p | InsideOf(rel, p)
        ensures p !in links
      {
        assert p == rel[..|p|];
      }
    }
    if ThroughNoLink(links, rel) {
      forall l, k | l in tree && IsLink(l) && 0 < k < |rel|
        ensures l.rel != rel[..k]
      {
        assert InsideOf(rel, rel[..k]);
      }
    }
  }

  lemma LinkIff(host: Host, tree: seq<TreeEntry>, rel: Path)
    ensures rel in LinksOf(FilesFrom(host, tree)) <==> exists l :: l in tree && IsLink(l) && l.rel == rel
  {
    hide FilesFrom, LinksOf;
    LinksAreEntries(FilesFrom(host, tree), rel);
    TreeFiles(host, tree);
    assert forall t :: IsLink(t) ==> IsTabled(t);
    assert forall t :: IsTabled(t) && t.node.Symlink? ==> IsLink(t);
  }

  /** The paths of the tree and of the preserve list keep clear of its symlinks. */
  ghost predicate ClearOfLinks(options: BuildOptions) {
    && (forall t | t in options.tree && IsTabled(t) :: BelowNoLink(options.tree, t.rel))
    && (forall p | p in options.preserve ::
          BelowNoLink(options.tree, p) && forall l | l in options.tree && IsLink(l) :: l.rel != p)
  }

  lemma PathRulesIff(host: Host, options: BuildOptions)
    requires forall t | t in options.tree && Outside(t) :: RelpathOk(t.rel)
    requires forall p | p in options.preserve :: RelpathOk(p)
    ensures PathRules(FilesFrom(host, options.tree), options.preserve) <==> ClearOfLinks(options)
  {
    hide FilesFrom, RelpathOk, LinksOf, ThroughNoLink, BelowNoLink, IsLink, Outside;
    var files := FilesFrom(host, options.tree);
    var links := LinksOf(files);
    TreeFiles(host, options.tree);
    forall t | t in options.tree && IsTabled(t)
      ensures ThroughNoLink(links, t.rel) <==> BelowNoLink(options.tree, t.rel)
    {
      BelowNoLinkIff(host, options.tree, t.rel);
    }
    forall p | p in options.preserve
      ensures PreserveOk(links, p) <==>
        BelowNoLink(options.tree, p) && forall l | l in options.tree && IsLink(l) :: l.rel != p
    {
      BelowNoLinkIff(host, options.tree, p);
      RelpathIsNotRooted(p);
    }
    if links == map[] {
      NoLinksClear(host, options);
    }
  }

  lemma NoLinksClear(host: Host, options: BuildOptions)
    requires LinksOf(FilesFrom(host, options.tree)) == map[]
    ensures ClearOfLinks(options)
  {
    hide FilesFrom, LinksOf, IsLink;
    forall l | l in options.tree
      ensures !IsLink(l)
    {
      LinkIff(host, options.tree, l.rel);
    }
  }

  /** When a tree can be built, as far as that does not depend on where its links
      lead. A bundle has its name, its Info.plist, no configuration directory and
      nothing to preserve. Outside that directory the tree has valid paths and no
      special file. Scripts are complete and there. No two paths are confused by
      folding, and nothing lies, or is preserved, at or beneath a symlink. */
  lemma BuildableIff(host: Host, options: BuildOptions)
    requires DistinctTree(options.tree)
    ensures Buildable(host, options) <==>
      && (options.bundle ==>
            && BundleNameOk(options.treeName) && options.preserve == []
            && (forall t | t in options.tree :: t.rel != [".relkit-payload"])
            && exists t :: t in options.tree && t.node.Regular? && t.rel == ["Contents", "Info.plist"])
      && (forall t | t in options.tree && Outside(t) :: RelpathOk(t.rel) && !t.node.Special?)
      && (forall p | p in options.preserve :: RelpathOk(p))
      && (forall s | s in options.scripts ::
            && s.phase != UnspecifiedPhase && s.interpreter != UnspecifiedInterpreter
            && RelpathOk(s.path) && s.path in options.scriptsDir)
      && FoldsApart(host, options.tree)
      && (forall i, j | 0 <= i < j < |options.scripts| ::
            host.fold(options.scripts[i].path) != host.fold(options.scripts[j].path))
      && ClearOfLinks(options)
  {
    hide FilesFrom, RelpathOk, PathRules, ClearOfLinks, BundleNameOk, IsTabled, FoldsApart;
    var files := FilesFrom(host, options.tree);
    FoldsDistinctIff(host, options.tree);
    PlistIff(host, options.tree);
    PackableIff(options.tree);
    if
      (forall t | t in options.tree && Outside(t) :: RelpathOk(t.rel)) &&
      forall p | p in options.preserve :: RelpathOk(p)
    {
      PathRulesIff(host, options);
    }
    hide Outside, Packable, DistinctTree;
  }

  lemma PackableIff(tree: seq<TreeEntry>)
    ensures (forall t | t in tree :: Packable(t)) <==>
      forall t | t in tree && Outside(t) :: RelpathOk(t.rel) && !t.node.Special?
  {
    hide RelpathOk;
  }

  lemma PlistIff(host: Host, tree: seq<TreeEntry>)
    ensures
      (exists e :: e in FilesFrom(host, tree) && e.relpath == BUNDLE_INFO_PLIST && !IsSymlink(e)) <==>
      (exists t :: t in tree && t.node.Regular? && t.rel == ["Contents", "Info.plist"])
  {
    hide FilesFrom;
    TreeFiles(host, tree);
    forall t | t in tree && t.node.Regular? && t.rel == ["Contents", "Info.plist"]
      ensures IsTabled(t)
    {}
    assert forall t :: IsTabled(t) && !t.node.Symlink? ==> t.node.Regular?;
  }
}
