/** Building a payload archive from a tree, and inspecting one
    (internal/payload/payload.go). The archive is its list of named entries. */
module Payload {
  import opened Wrappers
  import opened Paths
  import opened Symlinks
  import opened PayloadTable
  import opened Sorting

  /** What a stored file holds: an encoded table, or anything else. */
  datatype Data = TableData(table: FileTable) | Bytes(content: seq<bv8>)

  /** How the host hashes and measures data, and folds a path to the form a
      case-insensitive file system sees. */
  datatype Host = Host(sha256: Data -> string, size: Data -> nat, fold: Path -> Path)

  datatype ZipEntry = ZipEntry(name: Path, isDir: bool, data: Data)

  type Archive = seq<ZipEntry>

  const TABLE_NAME: Path := ["files.pb"]
  const CONFIG_DIR := ".relkit-payload"

  function FileName(rel: Path): Path { ["files"] + rel }

  function ScriptName(rel: Path): Path { ["scripts"] + rel }

  datatype PayloadError = Table(error: TableError) | Rejected(what: string)

  // ---------------------------------------------------------------------
  // What a valid archive is
  // ---------------------------------------------------------------------

  /** Directory entries and unnamed ones are skipped. */
  predicate Stored(entry: ZipEntry) {
    !entry.isDir && entry.name != []
  }

  ghost predicate Holds(zip: Archive, name: Path, data: Data) {
    exists e :: e in zip && Stored(e) && e.name == name && e.data == data
  }

  ghost predicate DistinctNames(zip: Archive) {
    forall i, j | 0 <= i < j < |zip| && Stored(zip[i]) && Stored(zip[j]) :: zip[i].name != zip[j].name
  }

  /** The names a table declares: itself, its plain files, its scripts. */
  ghost predicate Declared(table: FileTable, name: Path) {
    || name == TABLE_NAME
    || (exists f :: f in table.files && !IsSymlink(f) && name == FileName(f.relpath))
    || (exists s :: s in table.scripts && name == ScriptName(s.relpath))
  }

  ghost predicate Matches(host: Host, zip: Archive, name: Path, size: int, sha256: string) {
    exists data :: Holds(zip, name, data) && host.size(data) == size && host.sha256(data) == sha256
  }

  predicate ScriptOk(script: ScriptEntry) {
    && script.phase != UnspecifiedPhase && script.interpreter != UnspecifiedInterpreter
    && script.timeout > 0 && RelpathOk(script.relpath)
  }

  ghost predicate PortableDistinct(host: Host, table: FileTable) {
    && DistinctBy((f: FileEntry) => host.fold(f.relpath), table.files)
    && DistinctBy((s: ScriptEntry) => host.fold(s.relpath), table.scripts)
  }

  /** The table an archive holds, if it is a table at all. */
  ghost predicate Reads(zip: Archive, table: FileTable) {
    Holds(zip, TABLE_NAME, TableData(table))
  }

  /** The archive holds exactly what the table declares, each with the declared
      size and digest, under names no file system confuses. */
  ghost predicate ContentsOk(host: Host, zip: Archive, table: FileTable) {
    && PortableDistinct(host, table)
    && (forall f | f in table.files && !IsSymlink(f) :: Matches(host, zip, FileName(f.relpath), f.size, f.sha256))
    && (forall s | s in table.scripts :: ScriptOk(s) && Matches(host, zip, ScriptName(s.relpath), s.size, s.sha256))
    && (forall e | e in zip && Stored(e) :: Declared(table, e.name))
  }

  /** The archive holds the table and what it declares, by all the rules. */
  ghost predicate ValidArchive(host: Host, zip: Archive, table: FileTable) {
    DistinctNames(zip) && Reads(zip, table) && TableRules(table) && ContentsOk(host, zip, table)
  }

  // ---------------------------------------------------------------------
  // Inspecting
  // ---------------------------------------------------------------------

  method EnsurePortableDistinct(host: Host, table: FileTable) returns (ok: bool)
    ensures ok <==> PortableDistinct(host, table)
  {
    var seenFiles: set<Path> := {};
    for i := 0 to |table.files|
      invariant forall p :: p in seenFiles <==> exists j :: 0 <= j < i && host.fold(table.files[j].relpath) == p
      invariant DistinctBy((f: FileEntry) => host.fold(f.relpath), table.files[..i])
    {
      var key := host.fold(table.files[i].relpath);
      if key in seenFiles {
        return false;
      }
      seenFiles := seenFiles + {key};
    }
    assert table.files[..|table.files|] == table.files;
    var seenScripts: set<Path> := {};
    for i := 0 to |table.scripts|
      invariant forall p :: p in seenScripts <==> exists j :: 0 <= j < i && host.fold(table.scripts[j].relpath) == p
      invariant DistinctBy((s: ScriptEntry) => host.fold(s.relpath), table.scripts[..i])
    {
      var key := host.fold(table.scripts[i].relpath);
      if key in seenScripts {
        return false;
      }
      seenScripts := seenScripts + {key};
    }
    assert table.scripts[..|table.scripts|] == table.scripts;
    return true;
  }

  /** The name is the table's, or lies under files/ or scripts/ with a valid rest. */
  predicate EntryNameOk(name: Path) {
    name == TABLE_NAME ||
    (|name| > 1 && (name[0] == "files" || name[0] == "scripts") && RelpathOk(name[1..]))
  }

  ghost predicate Maps(zip: Archive, entries: map<Path, Data>) {
    && (forall name :: name in entries <==> exists e :: e in zip && Stored(e) && e.name == name)
    && (forall name | name in entries :: Holds(zip, name, entries[name]))
  }

  lemma MapsGrow(zip: Archive, entries: map<Path, Data>, item: ZipEntry)
    requires Maps(zip, entries)
    requires Stored(item) ==> item.name !in entries
    ensures Maps(zip + [item], if Stored(item) then entries[item.name := item.data] else entries)
  {}

  /** Every entry name is one an archive may have, and occurs once. */
  ghost predicate NamesOk(zip: Archive) {
    DistinctNames(zip) && forall i | 0 <= i < |zip| && Stored(zip[i]) :: EntryNameOk(zip[i].name)
  }

  method ReadEntries(zip: Archive) returns (r: Result<map<Path, Data>, PayloadError>)
    ensures r.Ok? <==> NamesOk(zip)
    ensures r.Ok? ==> Maps(zip, r.value)
    ensures r.Err? ==> r.error.Rejected?
  {
    var entries: map<Path, Data> := map[];
    for i := 0 to |zip|
      invariant DistinctNames(zip[..i])
      invariant forall j | 0 <= j < i && Stored(zip[j]) :: EntryNameOk(zip[j].name)
      invariant forall j | 0 <= j < i && Stored(zip[j]) :: zip[j].name in entries
      invariant Maps(zip[..i], entries)
    {
      var item := zip[i];
      assert zip[..i + 1] == zip[..i] + [item];
      if !Stored(item) {
        MapsGrow(zip[..i], entries, item);
        continue;
      }
      if item.name in entries {
        ghost var e :| e in zip[..i] && Stored(e) && e.name == item.name;
        ghost var j :| 0 <= j < i && zip[j] == e;
        return Err(Rejected("duplicate payload entry"));
      }
      if !EntryNameOk(item.name) {
        return Err(Rejected("unexpected payload entry"));
      }
      MapsGrow(zip[..i], entries, item);
      entries := entries[item.name := item.data];
    }
    assert zip[..|zip|] == zip;
    return Ok(entries);
  }

  lemma HoldsIsUnique(zip: Archive, name: Path, a: Data, b: Data)
    requires DistinctNames(zip) && Holds(zip, name, a) && Holds(zip, name, b)
    ensures a == b
  {}

  predicate VerifyZipEntry(host: Host, entries: map<Path, Data>, name: Path, size: int, sha256: string) {
    name in entries && host.size(entries[name]) == size && host.sha256(entries[name]) == sha256
  }

  lemma VerifyMeansMatches(
    host: Host, zip: Archive, entries: map<Path, Data>, name: Path, size: int, sha256: string)
    requires DistinctNames(zip) && Maps(zip, entries)
    ensures VerifyZipEntry(host, entries, name, size, sha256) <==> Matches(host, zip, name, size, sha256)
  {}

  method CheckFiles(host: Host, zip: Archive, entries: map<Path, Data>, table: FileTable)
    returns (ok: bool, expected: set<Path>)
    requires DistinctNames(zip) && Maps(zip, entries) && PortableDistinct(host, table)
    ensures ok <==> forall f | f in table.files && !IsSymlink(f) ::
      Matches(host, zip, FileName(f.relpath), f.size, f.sha256)
    ensures ok ==> forall name :: name in expected <==>
      name == TABLE_NAME || exists f :: f in table.files && !IsSymlink(f) && name == FileName(f.relpath)
  {
    expected := {TABLE_NAME};
    var seenRel: set<Path> := {};
    for i := 0 to |table.files|
      invariant forall p | p in seenRel :: exists j :: 0 <= j < i && table.files[j].relpath == p
      invariant forall j | 0 <= j < i && !IsSymlink(table.files[j]) ::
        Matches(host, zip, FileName(table.files[j].relpath), table.files[j].size, table.files[j].sha256)
      invariant forall name :: name in expected <==>
        name == TABLE_NAME ||
        exists j :: 0 <= j < i && !IsSymlink(table.files[j]) && name == FileName(table.files[j].relpath)
    {
      var file := table.files[i];
      if file.relpath in seenRel {
        assert false;
        return false, {};
      }
      seenRel := seenRel + {file.relpath};
      if IsSymlink(file) {
        continue;
      }
      var name := FileName(file.relpath);
      expected := expected + {name};
      VerifyMeansMatches(host, zip, entries, name, file.size, file.sha256);
      if !VerifyZipEntry(host, entries, name, file.size, file.sha256) {
        return false, {};
      }
    }
    ok := true;
    forall name
      ensures name in expected <==>
        name == TABLE_NAME || exists f :: f in table.files && !IsSymlink(f) && name == FileName(f.relpath)
    {
      if f :| f in table.files && !IsSymlink(f) && name == FileName(f.relpath) {
        var j :| 0 <= j < |table.files| && table.files[j] == f;
      }
    }
  }

  lemma ScriptNamesDiffer(host: Host, table: FileTable, i: nat)
    requires PortableDistinct(host, table) && i < |table.scripts|
    ensures ScriptName(table.scripts[i].relpath)[0] == "scripts"
    ensures forall j | 0 <= j < i :: ScriptName(table.scripts[j].relpath) != ScriptName(table.scripts[i].relpath)
  {
    forall j | 0 <= j < i
      ensures ScriptName(table.scripts[j].relpath) != ScriptName(table.scripts[i].relpath)
    {
      assert ScriptName(table.scripts[j].relpath)[1..] == table.scripts[j].relpath;
      assert ScriptName(table.scripts[i].relpath)[1..] == table.scripts[i].relpath;
    }
  }

  method CheckScripts(host: Host, zip: Archive, entries: map<Path, Data>, table: FileTable, files: set<Path>)
    returns (ok: bool, expected: set<Path>)
    requires DistinctNames(zip) && Maps(zip, entries) && PortableDistinct(host, table)
    requires forall name | name in files :: name != [] && name[0] != "scripts"
    ensures ok <==> forall s | s in table.scripts ::
      ScriptOk(s) && Matches(host, zip, ScriptName(s.relpath), s.size, s.sha256)
    ensures ok ==> forall name :: name in expected <==>
      name in files || exists s :: s in table.scripts && name == ScriptName(s.relpath)
  {
    hide PortableDistinct, RelpathOk, Matches, VerifyZipEntry, Maps, DistinctNames;
    expected := files;
    for i := 0 to |table.scripts|
      invariant forall j | 0 <= j < i ::
        var s := table.scripts[j];
        ScriptOk(s) && Matches(host, zip, ScriptName(s.relpath), s.size, s.sha256)
      invariant forall name :: name in expected <==>
        name in files || exists j :: 0 <= j < i && name == ScriptName(table.scripts[j].relpath)
    {
      var script := table.scripts[i];
      if script.phase == UnspecifiedPhase || script.interpreter == UnspecifiedInterpreter {
        return false, {};
      }
      if script.timeout <= 0 {
        return false, {};
      }
      if !RelpathOk(script.relpath) {
        return false, {};
      }
      var name := ScriptName(script.relpath);
      ScriptNamesDiffer(host, table, i);
      if name in expected {
        assert false;
        return false, {};
      }
      expected := expected + {name};
      VerifyMeansMatches(host, zip, entries, name, script.size, script.sha256);
      if !VerifyZipEntry(host, entries, name, script.size, script.sha256) {
        return false, {};
      }
    }
    ok := true;
    forall name
      ensures name in expected <==>
        name in files || exists s :: s in table.scripts && name == ScriptName(s.relpath)
    {
      if s :| s in table.scripts && name == ScriptName(s.relpath) {
        var j :| 0 <= j < |table.scripts| && table.scripts[j] == s;
      }
    }
  }

  lemma HoldsIffStored(zip: Archive, entries: map<Path, Data>, name: Path)
    requires DistinctNames(zip) && Maps(zip, entries)
    ensures forall data :: Holds(zip, name, data) <==> name in entries && entries[name] == data
  {}

  /** Acceptance is exact: an accepted archive is valid for the table returned,
      and a valid one is accepted unless the links, in the order visited, are
      refused for their depth. The inspection goes on for ever exactly if the
      names are in order and the check of the table does. */
  method Inspect(host: Host, zip: Archive, order: seq<Path>) returns (r: Result<FileTable, PayloadError>)
    requires forall table | DistinctNames(zip) && Reads(zip, table) :: IsOrder(LinksOf(table.files), order)
    ensures r.Ok? ==> ValidArchive(host, zip, r.value)
    ensures forall table | ValidArchive(host, zip, table) ::
      r == (var verdict := Verdict(table.files, order);
            if verdict.Ok? then Ok(table) else Err(Table(verdict.error))) &&
      (Verdict(table.files, order).Err? ==> IsTooDeep(Verdict(table.files, order)))
    ensures r.Err? && r.error.Table? && r.error.error.NeverReturns? ==>
      NamesOk(zip) && exists table :: Reads(zip, table) && CheckHangs(table, r.error.error.rel)
    ensures forall table, rel | NamesOk(zip) && Reads(zip, table) && CheckHangs(table, rel) ::
      r == Err(Table(NeverReturns(rel)))
  {
    hide StaticRules, CheckHangs, Verdict, LinksOf, LinksLand, ContentsOk;
    DeclaredNamesAreOk(host, zip);
    var read := ReadEntries(zip);
    if read.Err? {
      return Err(read.error);
    }
    var entries := read.value;
    HoldsIffStored(zip, entries, TABLE_NAME);
    if TABLE_NAME !in entries {
      return Err(Rejected("payload is missing files.pb"));
    }
    if !entries[TABLE_NAME].TableData? {
      return Err(Rejected("decode files.pb"));
    }
    var table := entries[TABLE_NAME].table;
    assert Reads(zip, table);
    assert forall other | Reads(zip, other) :: other == table;
    if table.schema != SCHEMA_V1 && table.schema != SCHEMA_V2 {
      HangingHasSchema(table);
      return Err(Rejected("unexpected payload schema"));
    }
    VerdictMeansLanding(table.files, order);
    var checked := CheckTable(table, order);
    if checked.Err? {
      return Err(Table(checked.error));
    }
    r := CheckContents(host, zip, entries, table);
  }

  method CheckContents(host: Host, zip: Archive, entries: map<Path, Data>, table: FileTable)
    returns (r: Result<FileTable, PayloadError>)
    requires DistinctNames(zip) && Maps(zip, entries)
    ensures r.Ok? <==> ContentsOk(host, zip, table)
    ensures r.Ok? ==> r.value == table
    ensures r.Err? ==> r.error.Rejected?
  {
    hide PortableDistinct;
    var distinct := EnsurePortableDistinct(host, table);
    if !distinct {
      return Err(Rejected("payload paths collide"));
    }
    var filesOk, files := CheckFiles(host, zip, entries, table);
    if !filesOk {
      return Err(Rejected("file entry missing or different"));
    }
    var scriptsOk, expected := CheckScripts(host, zip, entries, table, files);
    if !scriptsOk {
      return Err(Rejected("script entry missing or different"));
    }
    assert forall name :: name in expected <==> Declared(table, name);
    if name :| name in entries && name !in expected {
      assert exists e :: e in zip && Stored(e) && e.name == name;
      return Err(Rejected("payload entry is not declared"));
    }
    r := Ok(table);
  }

  lemma HangingHasSchema(table: FileTable)
    ensures StaticRules(table) || (exists rel :: CheckHangs(table, rel)) ==>
      table.schema == SCHEMA_V1 || table.schema == SCHEMA_V2
  {}

  lemma DeclaredNamesAreOk(host: Host, zip: Archive)
    ensures forall table | ValidArchive(host, zip, table) :: NamesOk(zip)
  {}

  // ---------------------------------------------------------------------
  // Building
  // ---------------------------------------------------------------------

  /** One entry of the walked tree. */
  datatype Node = Regular(data: Data, mode: int) | Symlink(target: string) | Directory | Special

  datatype TreeEntry = TreeEntry(rel: Path, node: Node)

  datatype Script = Script(phase: ScriptPhase, path: Path, interpreter: Interpreter, timeout: int, args: seq<string>)

  datatype BuildOptions = BuildOptions(
    treeName: string,
    tree: seq<TreeEntry>,
    scriptsDir: map<Path, Data>,
    scripts: seq<Script>,
    preserve: seq<Path>,
    bundle: bool)

  const DEFAULT_SCRIPT_TIMEOUT := 30

  datatype Source = Source(name: Path, data: Data)

  predicate FilesInOrder(a: FileEntry, b: FileEntry) {
    LexAtMost(Join(a.relpath), Join(b.relpath))
  }

  predicate SourcesInOrder(a: Source, b: Source) {
    LexAtMost(Join(a.name), Join(b.name))
  }

  predicate PathsInOrder(a: Path, b: Path) {
    LexAtMost(Join(a), Join(b))
  }

  function PhaseRank(phase: ScriptPhase): int {
    match phase
    case UnspecifiedPhase => 0
    case PreApply => 1
    case PostApply => 2
  }

  predicate ScriptsInOrder(a: ScriptEntry, b: ScriptEntry) {
    PhaseRank(a.phase) < PhaseRank(b.phase) ||
    (a.phase == b.phase && LexAtMost(Join(a.relpath), Join(b.relpath)))
  }

  lemma OrdersArePreorders()
    ensures TotalPreorder(FilesInOrder) && TotalPreorder(SourcesInOrder)
    ensures TotalPreorder(PathsInOrder) && TotalPreorder(ScriptsInOrder)
  {
    LexIsPreorder();
  }

  predicate UnderConfigDir(rel: Path) {
    rel != [] && rel[0] == CONFIG_DIR
  }

  /** A plain file entry and the source its bytes come from. */
  ghost predicate Describes(host: Host, file: FileEntry, source: Source) {
    && !IsSymlink(file) && source.name == FileName(file.relpath)
    && file.size == host.size(source.data) && file.sha256 == host.sha256(source.data)
  }

  ghost predicate DistinctTree(tree: seq<TreeEntry>) {
    forall i, j | 0 <= i < j < |tree| :: tree[i].rel != tree[j].rel
  }

  /** What one tree entry contributes to the table and to the archive. */
  function EntryOf(host: Host, t: TreeEntry): seq<FileEntry> {
    if UnderConfigDir(t.rel) then []
    else match t.node
      case Symlink(target) => [FileEntry(t.rel, SymlinkKind, 0, "", 0, target)]
      case Regular(data, mode) =>
        [FileEntry(t.rel, UnspecifiedKind, host.size(data), host.sha256(data), mode, "")]
      case _ => []
  }

  function SourceOf(t: TreeEntry): seq<Source> {
    if UnderConfigDir(t.rel) || !t.node.Regular? then [] else [Source(FileName(t.rel), t.node.data)]
  }

  ghost function FilesFrom(host: Host, tree: seq<TreeEntry>): seq<FileEntry> {
    if tree == [] then [] else FilesFrom(host, tree[..|tree| - 1]) + EntryOf(host, tree[|tree| - 1])
  }

  ghost function SourcesFrom(tree: seq<TreeEntry>): seq<Source> {
    if tree == [] then [] else SourcesFrom(tree[..|tree| - 1]) + SourceOf(tree[|tree| - 1])
  }

  predicate Packable(t: TreeEntry) {
    UnderConfigDir(t.rel) || (RelpathOk(t.rel) && !t.node.Special?)
  }

  method WalkTree(host: Host, tree: seq<TreeEntry>)
    returns (r: Result<(seq<FileEntry>, seq<Source>), PayloadError>)
    ensures r.Ok? <==> forall t | t in tree :: Packable(t)
    ensures r.Ok? ==> r.value == (FilesFrom(host, tree), SourcesFrom(tree))
    ensures r.Err? ==> r.error.Rejected?
  {
    hide RelpathOk, FilesFrom, SourcesFrom, UnderConfigDir;
    var files, sources := [], [];
    WalkStarts(host);
    for i := 0 to |tree|
      invariant forall t | t in tree[..i] :: Packable(t)
      invariant files == FilesFrom(host, tree[..i])
      invariant sources == SourcesFrom(tree[..i])
    {
      var rel := tree[i].rel;
      assert tree[..i + 1] == tree[..i] + [tree[i]];
      FilesGrow(host, tree[..i], tree[i]);
      SourcesGrow(tree[..i], tree[i]);
      if UnderConfigDir(rel) {
        continue;
      }
      if !RelpathOk(rel) {
        assert !Packable(tree[i]);
        return Err(Rejected("invalid relative path"));
      }
      match tree[i].node {
        case Symlink(target) =>
          files := files + [FileEntry(rel, SymlinkKind, 0, "", 0, target)];
        case Directory =>
        case Special =>
          assert !Packable(tree[i]);
          return Err(Rejected("payload does not support special file"));
        case Regular(data, mode) =>
          files := files + [FileEntry(rel, UnspecifiedKind, host.size(data), host.sha256(data), mode, "")];
          sources := sources + [Source(FileName(rel), data)];
      }
    }
    assert tree[..|tree|] == tree;
    r := Ok((files, sources));
  }

  lemma WalkStarts(host: Host)
    ensures FilesFrom(host, []) == [] && SourcesFrom([]) == []
  {}

  lemma FilesGrow(host: Host, tree: seq<TreeEntry>, t: TreeEntry)
    ensures FilesFrom(host, tree + [t]) == FilesFrom(host, tree) + EntryOf(host, t)
  {
    assert (tree + [t])[..|tree|] == tree;
  }

  lemma SourcesGrow(tree: seq<TreeEntry>, t: TreeEntry)
    ensures SourcesFrom(tree + [t]) == SourcesFrom(tree) + SourceOf(t)
  {
    assert (tree + [t])[..|tree|] == tree;
  }

  lemma {:induction false} FilesComeFromTree(host: Host, tree: seq<TreeEntry>, f: FileEntry)
    ensures f in FilesFrom(host, tree) <==> exists t :: t in tree && f in EntryOf(host, t)
  {
    if tree != [] {
      FilesComeFromTree(host, tree[..|tree| - 1], f);
      assert tree == tree[..|tree| - 1] + [tree[|tree| - 1]];
    }
  }

  lemma {:induction false} SourcesComeFromTree(tree: seq<TreeEntry>, s: Source)
    ensures s in SourcesFrom(tree) <==> exists t :: t in tree && s in SourceOf(t)
  {
    if tree != [] {
      SourcesComeFromTree(tree[..|tree| - 1], s);
      assert tree == tree[..|tree| - 1] + [tree[|tree| - 1]];
    }
  }

  lemma PlainFileHasSource(host: Host, tree: seq<TreeEntry>, f: FileEntry)
    requires f in FilesFrom(host, tree) && !IsSymlink(f)
    ensures exists s :: s in SourcesFrom(tree) && Describes(host, f, s)
  {
    FilesComeFromTree(host, tree, f);
    var t :| t in tree && f in EntryOf(host, t);
    var s := Source(FileName(t.rel), t.node.data);
    assert s in SourceOf(t);
    SourcesComeFromTree(tree, s);
    assert Describes(host, f, s);
  }

  lemma SourceHasPlainFile(host: Host, tree: seq<TreeEntry>, s: Source)
    requires s in SourcesFrom(tree)
    ensures exists f :: f in FilesFrom(host, tree) && Describes(host, f, s)
  {
    SourcesComeFromTree(tree, s);
    var t :| t in tree && s in SourceOf(t);
    var f := EntryOf(host, t)[0];
    FilesComeFromTree(host, tree, f);
    assert Describes(host, f, s);
  }

  lemma {:induction false} SourceNamesAreDistinct(tree: seq<TreeEntry>)
    requires DistinctTree(tree)
    ensures DistinctBy((s: Source) => s.name, SourcesFrom(tree))
  {
    if tree != [] {
      var init, last := tree[..|tree| - 1], tree[|tree| - 1];
      SourceNamesAreDistinct(init);
      forall s | s in SourcesFrom(init) ensures s.name != FileName(last.rel) {
        SourcesComeFromTree(init, s);
        var t :| t in init && s in SourceOf(t);
        var j :| 0 <= j < |init| && init[j] == t;
        assert tree[j].rel != tree[|tree| - 1].rel;
        assert s.name[1..] == t.rel && FileName(last.rel)[1..] == last.rel;
      }
    }
  }

  // The scripts and preserve lists

  predicate ScriptPackable(options: BuildOptions, script: Script) {
    && script.phase != UnspecifiedPhase && script.interpreter != UnspecifiedInterpreter
    && RelpathOk(script.path) && script.path in options.scriptsDir
  }

  function ScriptEntryOf(host: Host, options: BuildOptions, script: Script): ScriptEntry
    requires script.path in options.scriptsDir
  {
    var data := options.scriptsDir[script.path];
    ScriptEntry(script.phase, script.path, host.size(data), host.sha256(data),
      if script.timeout <= 0 then DEFAULT_SCRIPT_TIMEOUT else script.timeout, script.interpreter, script.args)
  }

  method PackScripts(host: Host, options: BuildOptions)
    returns (r: Result<(seq<ScriptEntry>, seq<Source>), PayloadError>)
    ensures r.Ok? <==> forall i | 0 <= i < |options.scripts| :: ScriptPackable(options, options.scripts[i])
    ensures r.Err? ==> r.error.Rejected?
    ensures r.Ok? ==> |r.value.0| == |r.value.1| == |options.scripts|
    ensures r.Ok? ==> forall i | 0 <= i < |options.scripts| ::
      var script := options.scripts[i];
      && ScriptPackable(options, script)
      && r.value.0[i] == ScriptEntryOf(host, options, script)
      && r.value.1[i] == Source(ScriptName(script.path), options.scriptsDir[script.path])
  {
    var scripts, sources := [], [];
    for i := 0 to |options.scripts|
      invariant |scripts| == |sources| == i
      invariant forall j | 0 <= j < i ::
        var script := options.scripts[j];
        && ScriptPackable(options, script)
        && scripts[j] == ScriptEntryOf(host, options, script)
        && sources[j] == Source(ScriptName(script.path), options.scriptsDir[script.path])
    {
      var script := options.scripts[i];
      if script.phase == UnspecifiedPhase {
        return Err(Rejected("script has no phase"));
      }
      if script.interpreter == UnspecifiedInterpreter {
        return Err(Rejected("script has no interpreter"));
      }
      if !RelpathOk(script.path) {
        return Err(Rejected("script: invalid relative path"));
      }
      if script.path !in options.scriptsDir {
        return Err(Rejected("script not found"));
      }
      scripts := scripts + [ScriptEntryOf(host, options, script)];
      sources := sources + [Source(ScriptName(script.path), options.scriptsDir[script.path])];
    }
    r := Ok((scripts, sources));
  }

  ghost predicate DistinctPaths(paths: seq<Path>) {
    DistinctBy((p: Path) => p, paths)
  }

  method PackPreserve(preserve: seq<Path>) returns (r: Result<seq<Path>, PayloadError>)
    ensures r.Ok? <==> forall p | p in preserve :: RelpathOk(p)
    ensures r.Err? ==> r.error.Rejected?
    ensures r.Ok? ==> SortedBy(PathsInOrder, r.value) && DistinctPaths(r.value)
    ensures r.Ok? ==> forall p :: p in r.value <==> p in preserve
  {
    var kept: seq<Path> := [];
    for i := 0 to |preserve|
      invariant DistinctPaths(kept)
      invariant forall j | 0 <= j < i :: RelpathOk(preserve[j])
      invariant forall p :: p in kept <==> p in preserve[..i]
    {
      var rel := preserve[i];
      assert preserve[..i + 1] == preserve[..i] + [rel];
      if !RelpathOk(rel) {
        return Err(Rejected("preserve: invalid relative path"));
      }
      if rel in kept {
        continue;
      }
      kept := kept + [rel];
    }
    assert preserve[..|preserve|] == preserve;
    OrdersArePreorders();
    var sorted := Sort(PathsInOrder, kept);
    PermutationKeepsMembers(kept, sorted);
    PermutationKeepsDistinct((p: Path) => p, kept, sorted);
    r := Ok(sorted);
  }

  // The archive

  function Stores(sources: seq<Source>): Archive {
    seq(|sources|, i requires 0 <= i < |sources| => ZipEntry(sources[i].name, false, sources[i].data))
  }

  function Packed(table: FileTable, sources: seq<Source>): Archive {
    [ZipEntry(TABLE_NAME, false, TableData(table))] + Stores(sources)
  }

  lemma PackedHolds(table: FileTable, sources: seq<Source>, s: Source)
    requires s in sources && s.name != []
    ensures Holds(Packed(table, sources), s.name, s.data)
  {
    var i :| 0 <= i < |sources| && sources[i] == s;
    assert Packed(table, sources)[i + 1] == ZipEntry(s.name, false, s.data);
  }

  /** Each script entry, in the order given, has the source at its place. */
  ghost predicate ScriptsHaveSources(host: Host, scripts: seq<ScriptEntry>, sources: seq<Source>) {
    && |scripts| == |sources|
    && forall i | 0 <= i < |scripts| ::
      && ScriptOk(scripts[i]) && sources[i].name == ScriptName(scripts[i].relpath)
      && scripts[i].size == host.size(sources[i].data) && scripts[i].sha256 == host.sha256(sources[i].data)
  }

  /** A table whose files and scripts each have their source packs into a valid
      archive. */
  lemma PackedIsValid(
    host: Host, table: FileTable, files: seq<Source>, scripts: seq<Source>, unsorted: seq<ScriptEntry>)
    requires TableRules(table) && PortableDistinct(host, table)
    requires DistinctBy((s: Source) => s.name, files)
    requires forall f | f in table.files && !IsSymlink(f) :: exists s :: s in files && Describes(host, f, s)
    requires forall s | s in files :: exists f :: f in table.files && Describes(host, f, s)
    requires multiset(unsorted) == multiset(table.scripts) && ScriptsHaveSources(host, unsorted, scripts)
    ensures ValidArchive(host, Packed(table, files + scripts), table)
  {
    var zip := Packed(table, files + scripts);
    PermutationKeepsDistinct((s: ScriptEntry) => host.fold(s.relpath), table.scripts, unsorted);
    PackedNamesAreDistinct(host, table, files, scripts, unsorted);
    assert zip[0] == ZipEntry(TABLE_NAME, false, TableData(table));
    assert Holds(zip, TABLE_NAME, TableData(table));
    PackedIsDeclared(host, table, files, scripts, unsorted);
    PackedMatches(host, table, files, scripts, unsorted);
  }

  lemma PackedIsDeclared(
    host: Host, table: FileTable, files: seq<Source>, scripts: seq<Source>, unsorted: seq<ScriptEntry>)
    requires forall s | s in files :: exists f :: f in table.files && Describes(host, f, s)
    requires multiset(unsorted) == multiset(table.scripts) && ScriptsHaveSources(host, unsorted, scripts)
    ensures forall e | e in Packed(table, files + scripts) && Stored(e) :: Declared(table, e.name)
  {
    var zip := Packed(table, files + scripts);
    PermutationKeepsMembers(unsorted, table.scripts);
    forall e | e in zip && Stored(e) ensures Declared(table, e.name) {
      var i :| 0 <= i < |zip| && zip[i] == e;
      if 0 < i <= |files| {
        assert files[i - 1] in files;
        var f :| f in table.files && Describes(host, f, files[i - 1]);
      } else if i > |files| {
        assert unsorted[i - 1 - |files|] in table.scripts;
      }
    }
  }

  lemma PackedMatches(
    host: Host, table: FileTable, files: seq<Source>, scripts: seq<Source>, unsorted: seq<ScriptEntry>)
    requires forall f | f in table.files && !IsSymlink(f) :: exists s :: s in files && Describes(host, f, s)
    requires multiset(unsorted) == multiset(table.scripts) && ScriptsHaveSources(host, unsorted, scripts)
    ensures forall f | f in table.files && !IsSymlink(f) ::
      Matches(host, Packed(table, files + scripts), FileName(f.relpath), f.size, f.sha256)
    ensures forall s | s in table.scripts ::
      ScriptOk(s) && Matches(host, Packed(table, files + scripts), ScriptName(s.relpath), s.size, s.sha256)
  {
    var zip := Packed(table, files + scripts);
    PermutationKeepsMembers(unsorted, table.scripts);
    forall f | f in table.files && !IsSymlink(f) ensures Matches(host, zip, FileName(f.relpath), f.size, f.sha256) {
      var s :| s in files && Describes(host, f, s);
      PackedHolds(table, files + scripts, s);
    }
    forall s | s in table.scripts
      ensures ScriptOk(s) && Matches(host, zip, ScriptName(s.relpath), s.size, s.sha256)
    {
      assert s in unsorted;
      var i :| 0 <= i < |unsorted| && unsorted[i] == s;
      assert scripts[i] in files + scripts;
      PackedHolds(table, files + scripts, scripts[i]);
    }
  }

  lemma PackedNamesAreDistinct(
    host: Host, table: FileTable, files: seq<Source>, scripts: seq<Source>, unsorted: seq<ScriptEntry>)
    requires DistinctBy((s: Source) => s.name, files)
    requires forall s | s in files :: exists f :: f in table.files && Describes(host, f, s)
    requires DistinctBy((s: ScriptEntry) => host.fold(s.relpath), unsorted)
    requires ScriptsHaveSources(host, unsorted, scripts)
    ensures DistinctNames(Packed(table, files + scripts))
  {
    hide RelpathOk, ScriptOk, IsSymlink;
    var zip := Packed(table, files + scripts);
    forall i | 0 < i < |zip|
      ensures zip[i].name != []
      ensures i <= |files| ==> zip[i].name == files[i - 1].name && zip[i].name[0] == "files"
      ensures i > |files| ==> zip[i].name[0] == "scripts" && zip[i].name[1..] == unsorted[i - 1 - |files|].relpath
    {
      if i <= |files| {
        assert files[i - 1] in files;
      } else {
        assert zip[i].name == ScriptName(unsorted[i - 1 - |files|].relpath);
      }
    }
    forall i, j | 0 <= i < j < |zip|
      ensures zip[i].name != zip[j].name
    {
      if i > |files| {
        assert host.fold(unsorted[i - 1 - |files|].relpath) != host.fold(unsorted[j - 1 - |files|].relpath);
      } else if i == 0 {
        assert TABLE_NAME[0] == "files.pb";
      }
    }
  }

  /** What the table of a build says about the options. */
  ghost predicate TableOf(host: Host, options: BuildOptions, table: FileTable) {
    && multiset(table.files) == multiset(FilesFrom(host, options.tree))
    && SortedBy(FilesInOrder, table.files)
    && (forall p :: p in table.preserve <==> p in options.preserve)
    && DistinctPaths(table.preserve) && SortedBy(PathsInOrder, table.preserve)
    && SortedBy(ScriptsInOrder, table.scripts) && |table.scripts| == |options.scripts|
    && (forall s | s in options.scripts ::
          ScriptPackable(options, s) && ScriptEntryOf(host, options, s) in table.scripts)
    && table.unit == (if options.bundle then BundleUnit else UnspecifiedUnit)
    && table.bundleName == (if options.bundle then options.treeName else "")
  }

  ghost predicate ScriptSources(options: BuildOptions, scripts: seq<Source>) {
    && |scripts| == |options.scripts|
    && forall i | 0 <= i < |scripts| ::
         options.scripts[i].path in options.scriptsDir &&
         scripts[i] == Source(ScriptName(options.scripts[i].path), options.scriptsDir[options.scripts[i].path])
  }

  /** The archive holds the table, then the files of the tree in the order of
      their names, then the scripts in the order given. */
  ghost predicate Packs(options: BuildOptions, table: FileTable, zip: Archive) {
    exists files, scripts ::
      && multiset(files) == multiset(SourcesFrom(options.tree)) && SortedBy(SourcesInOrder, files)
      && ScriptSources(options, scripts) && zip == Packed(table, files + scripts)
  }

  // What sorting leaves alone

  ghost predicate DistinctRelpaths(files: seq<FileEntry>) {
    DistinctBy((f: FileEntry) => f.relpath, files)
  }

  lemma {:induction false} TreeFilesAreDistinct(host: Host, tree: seq<TreeEntry>)
    requires DistinctTree(tree)
    ensures DistinctRelpaths(FilesFrom(host, tree))
  {
    hide EntryOf;
    if tree != [] {
      var init, last := tree[..|tree| - 1], tree[|tree| - 1];
      TreeFilesAreDistinct(host, init);
      forall f | f in FilesFrom(host, init)
        ensures f.relpath != last.rel
      {
        FilesComeFromTree(host, init, f);
        var t :| t in init && f in EntryOf(host, t);
        EntryHasItsPath(host, t, f);
        var j :| 0 <= j < |init| && init[j] == t;
        assert tree[j].rel != tree[|tree| - 1].rel;
      }
      forall f | f in EntryOf(host, last) {
        EntryHasItsPath(host, last, f);
      }
    }
  }

  lemma EntryHasItsPath(host: Host, t: TreeEntry, f: FileEntry)
    requires f in EntryOf(host, t)
    ensures f.relpath == t.rel && |EntryOf(host, t)| == 1
  {}

  lemma {:induction false} LinkTargetIs(files: seq<FileEntry>, e: FileEntry)
    requires DistinctRelpaths(files) && e in files && IsSymlink(e)
    ensures e.relpath in LinksOf(files) && LinksOf(files)[e.relpath] == e.linkTarget
  {
    var init, last := files[..|files| - 1], files[|files| - 1];
    if e != last {
      var j :| 0 <= j < |files| && files[j] == e;
      assert init[j] == e;
      LinkTargetIs(init, e);
    }
  }

  lemma SortingKeepsLinks(files: seq<FileEntry>, sorted: seq<FileEntry>)
    requires multiset(files) == multiset(sorted) && DistinctRelpaths(files)
    ensures LinksOf(sorted) == LinksOf(files)
    ensures forall e :: e in sorted <==> e in files
  {
    hide LinksOf;
    PermutationKeepsMembers(files, sorted);
    PermutationKeepsDistinct((f: FileEntry) => f.relpath, files, sorted);
    forall rel
      ensures rel in LinksOf(sorted) <==> rel in LinksOf(files)
      ensures rel in LinksOf(files) ==> LinksOf(sorted)[rel] == LinksOf(files)[rel]
    {
      LinksAreEntries(sorted, rel);
      LinksAreEntries(files, rel);
      if rel in LinksOf(files) {
        var e :| e in files && IsSymlink(e) && e.relpath == rel;
        LinkTargetIs(files, e);
        LinkTargetIs(sorted, e);
      }
    }
  }

  lemma {:induction false} SameEntriesSameVisit(
    files: seq<FileEntry>, sorted: seq<FileEntry>, memo: Memo, order: seq<Path>)
    requires LinksOf(sorted) == LinksOf(files) && forall rel | rel in order :: rel in LinksOf(files)
    requires forall p :: Listed(sorted, p) <==> Listed(files, p)
    ensures Visit(sorted, memo, order) == Visit(files, memo, order)
    decreases |order|
  {
    hide LinksOf, Listed;
    if order != [] {
      SameEntriesSameVisit(
        files, sorted, MemoLink(LinksOf(files), memo, order[0], MAX_SYMLINK_DEPTH).1, order[1..]);
    }
  }

  lemma SortingKeepsVerdict(files: seq<FileEntry>, sorted: seq<FileEntry>, order: seq<Path>)
    requires multiset(files) == multiset(sorted) && DistinctRelpaths(files) && IsOrder(LinksOf(files), order)
    ensures LinksOf(sorted) == LinksOf(files) && Verdict(sorted, order) == Verdict(files, order)
  {
    hide LinksOf, InsideOf;
    SortingKeepsLinks(files, sorted);
    SameEntriesSameVisit(files, sorted, map[], order);
  }

  // Building

  /** What Plan asks for. */
  ghost predicate Plannable(options: BuildOptions) {
    && (forall t | t in options.tree :: Packable(t))
    && (forall p | p in options.preserve :: RelpathOk(p))
    && (forall s | s in options.scripts :: ScriptPackable(options, s))
  }

  predicate BundleOk(options: BuildOptions) {
    options.bundle ==>
      && (forall t | t in options.tree :: t.rel != [CONFIG_DIR])
      && options.preserve == [] && BundleNameOk(options.treeName)
  }

  /** Everything a build asks for except that its links resolve. */
  ghost predicate Buildable(host: Host, options: BuildOptions) {
    var files := FilesFrom(host, options.tree);
    && BundleOk(options) && Plannable(options)
    && DistinctBy((f: FileEntry) => host.fold(f.relpath), files)
    && DistinctBy((s: Script) => host.fold(s.path), options.scripts)
    && (options.bundle ==> exists e :: e in files && e.relpath == BUNDLE_INFO_PLIST && !IsSymlink(e))
    && PathRules(files, options.preserve)
  }

  /** Every archive built is valid for its table, which is the one the tree and
      the options describe; and what can be built is built, unless its links, in
      the order visited, are refused. */
  method Build(host: Host, options: BuildOptions, order: seq<Path>)
    returns (r: Result<(FileTable, Archive), PayloadError>)
    requires DistinctTree(options.tree) && IsOrder(LinksOf(FilesFrom(host, options.tree)), order)
    ensures r.Ok? ==> ValidArchive(host, r.value.1, r.value.0)
    ensures r.Ok? ==> TableOf(host, options, r.value.0) && Packs(options, r.value.0, r.value.1)
    ensures r.Ok? <==> Buildable(host, options) && Verdict(FilesFrom(host, options.tree), order).Ok?
    ensures Buildable(host, options) && r.Err? ==>
      r == Err(Table(Verdict(FilesFrom(host, options.tree), order).error))
  {
    hide PortableDistinct, Plannable, LinksOf, Verdict, StaticRules, PathRules, ValidArchive, TableOf, Planned,
      Packs, BundleNameOk, FilesFrom, Buildable, IsOrder;
    if options.bundle {
      if exists t :: t in options.tree && t.rel == [CONFIG_DIR] {
        NotBuildable(host, options);
        return Err(Rejected("a bundle cannot carry the payload config directory"));
      }
      if |options.preserve| != 0 {
        NotBuildable(host, options);
        return Err(Rejected("a bundle cannot preserve entries"));
      }
      if !BundleNameOk(options.treeName) {
        NotBuildable(host, options);
        return Err(Rejected("invalid bundle name"));
      }
    }
    assert BundleOk(options);
    hide BundleOk;
    var planned := Plan(host, options);
    if planned.Err? {
      NotBuildable(host, options);
      return Err(planned.error);
    }
    var (table, sources, scripts) := planned.value;
    ghost var draft := table;
    var distinct := EnsurePortableDistinct(host, table);
    var schema := RequiredSchema(table);
    DraftIsBuildable(host, options, draft, schema, sources, scripts);
    DraftKeepsVerdict(host, options, draft, sources, scripts, order);
    SchemaIsNoName(host, draft, schema);
    if !distinct {
      return Err(Rejected("payload paths collide"));
    }
    table := table.(schema := schema);
    var checked := CheckTable(table, order);
    if checked.Err? {
      return Err(Table(checked.error));
    }
    VerdictMeansLanding(table.files, order);
    PlanPacks(host, options, draft, schema, sources, scripts);
    r := Ok((table, Packed(table, sources + scripts)));
  }

  lemma NotBuildable(host: Host, options: BuildOptions)
    requires !BundleOk(options) || !Plannable(options)
    ensures !Buildable(host, options)
  {}

  /** The table before its schema is set, and the sources in archive order. */
  ghost predicate Planned(
    host: Host, options: BuildOptions, table: FileTable, sources: seq<Source>, scripts: seq<Source>)
  {
    && TableOf(host, options, table)
    && multiset(sources) == multiset(SourcesFrom(options.tree)) && SortedBy(SourcesInOrder, sources)
    && ScriptSources(options, scripts)
    && exists unsorted: seq<ScriptEntry> ::
      && multiset(unsorted) == multiset(table.scripts) && ScriptsHaveSources(host, unsorted, scripts)
      && |unsorted| == |options.scripts|
      && forall i | 0 <= i < |unsorted| :: unsorted[i].relpath == options.scripts[i].path
  }

  method Plan(host: Host, options: BuildOptions)
    returns (r: Result<(FileTable, seq<Source>, seq<Source>), PayloadError>)
    ensures r.Ok? <==> Plannable(options)
    ensures r.Ok? ==> Planned(host, options, r.value.0, r.value.1, r.value.2)
    ensures r.Err? ==> r.error.Rejected?
  {
    hide FilesFrom, SourcesFrom, RelpathOk, LexAtMost, Join, DistinctBy, ScriptPackable, ScriptEntryOf, ScriptSources,
      ScriptsHaveSources;
    var walked := WalkTree(host, options.tree);
    if walked.Err? {
      return Err(walked.error);
    }
    OrdersArePreorders();
    var files := Sort(FilesInOrder, walked.value.0);
    var sources := Sort(SourcesInOrder, walked.value.1);
    var preserve := PackPreserve(options.preserve);
    if preserve.Err? {
      return Err(preserve.error);
    }
    var packed := PackScripts(host, options);
    if packed.Err? {
      return Err(packed.error);
    }
    var scripts := Sort(ScriptsInOrder, packed.value.0);
    ScriptsPacked(host, options, packed.value.0, packed.value.1, scripts);
    r := Ok((
      FileTable("", if options.bundle then BundleUnit else UnspecifiedUnit,
        if options.bundle then options.treeName else "", files, preserve.value, scripts),
      sources, packed.value.1));
  }

  lemma ScriptsPacked(
    host: Host, options: BuildOptions, unsorted: seq<ScriptEntry>, sources: seq<Source>, sorted: seq<ScriptEntry>)
    requires multiset(unsorted) == multiset(sorted) && |unsorted| == |sources| == |options.scripts|
    requires forall i | 0 <= i < |options.scripts| ::
      var script := options.scripts[i];
      && ScriptPackable(options, script) && unsorted[i] == ScriptEntryOf(host, options, script)
      && sources[i] == Source(ScriptName(script.path), options.scriptsDir[script.path])
    ensures |sorted| == |options.scripts| && ScriptSources(options, sources)
    ensures ScriptsHaveSources(host, unsorted, sources)
    ensures forall i | 0 <= i < |unsorted| :: unsorted[i].relpath == options.scripts[i].path
    ensures forall s | s in options.scripts ::
      ScriptPackable(options, s) && ScriptEntryOf(host, options, s) in sorted
  {
    hide RelpathOk;
    PermutationKeepsMembers(unsorted, sorted);
    assert |multiset(sorted)| == |multiset(unsorted)|;
    forall s | s in options.scripts
      ensures ScriptPackable(options, s) && ScriptEntryOf(host, options, s) in sorted
    {
      var i :| 0 <= i < |options.scripts| && options.scripts[i] == s;
      assert unsorted[i] in unsorted;
    }
  }

  /** For the checks the table says what the tree and the options say. */
  lemma DraftIsBuildable(
    host: Host, options: BuildOptions, draft: FileTable, schema: string, sources: seq<Source>, scripts: seq<Source>)
    requires DistinctTree(options.tree)
    requires Planned(host, options, draft, sources, scripts) && Plannable(options) && BundleOk(options)
    requires schema == SCHEMA_V2 <==> AnySymlink(draft.files) || draft.unit == BundleUnit
    requires schema == SCHEMA_V1 || schema == SCHEMA_V2
    ensures Buildable(host, options) <==> PortableDistinct(host, draft) && StaticRules(draft.(schema := schema))
  {
    hide PortableDistinct, PathRules, StaticRules, FilesFrom, BundleOk, Plannable, DistinctBy, Planned, IsSymlink;
    DraftIsPortable(host, options, draft, sources, scripts);
    DraftKeepsRules(host, options, draft, schema, sources, scripts);
  }

  lemma DraftKeepsRules(
    host: Host, options: BuildOptions, draft: FileTable, schema: string, sources: seq<Source>, scripts: seq<Source>)
    requires DistinctTree(options.tree)
    requires Planned(host, options, draft, sources, scripts) && Plannable(options) && BundleOk(options)
    requires schema == SCHEMA_V2 <==> AnySymlink(draft.files) || draft.unit == BundleUnit
    requires schema == SCHEMA_V1 || schema == SCHEMA_V2
    ensures StaticRules(draft.(schema := schema)) <==>
      (options.bundle ==>
         exists e :: e in FilesFrom(host, options.tree) && e.relpath == BUNDLE_INFO_PLIST && !IsSymlink(e)) &&
      PathRules(FilesFrom(host, options.tree), options.preserve)
  {
    hide LinksOf, PathRules, UnitRules, EntryOk, FilesFrom, BundleOk, Plannable, DistinctRelpaths, AnySymlink,
      IsSymlink, ScriptsHaveSources, DistinctTree, FilesInOrder, ScriptPackable;
    TreeFilesAreDistinct(host, options.tree);
    SortingKeepsPathRules(FilesFrom(host, options.tree), draft.files, options.preserve, draft.preserve);
    EntriesAreOk(host, options, draft);
    UnitIsOk(host, options, draft, schema);
  }

  lemma DraftKeepsVerdict(
    host: Host, options: BuildOptions, draft: FileTable, sources: seq<Source>, scripts: seq<Source>, order: seq<Path>)
    requires DistinctTree(options.tree) && IsOrder(LinksOf(FilesFrom(host, options.tree)), order)
    requires Planned(host, options, draft, sources, scripts)
    ensures IsOrder(LinksOf(draft.files), order)
    ensures Verdict(draft.files, order) == Verdict(FilesFrom(host, options.tree), order)
  {
    hide LinksOf, Verdict, FilesFrom, IsOrder, DistinctRelpaths;
    TreeFilesAreDistinct(host, options.tree);
    SortingKeepsVerdict(FilesFrom(host, options.tree), draft.files, order);
  }

  lemma SchemaIsNoName(host: Host, draft: FileTable, schema: string)
    ensures PortableDistinct(host, draft) <==> PortableDistinct(host, draft.(schema := schema))
  {}

  lemma SortingKeepsPathRules(
    files: seq<FileEntry>, sorted: seq<FileEntry>, preserve: seq<Path>, kept: seq<Path>)
    requires multiset(files) == multiset(sorted) && DistinctRelpaths(files)
    requires forall p :: p in kept <==> p in preserve
    ensures PathRules(sorted, kept) <==> PathRules(files, preserve)
  {
    hide LinksOf, ThroughNoLink, PreserveOk, DistinctRelpaths;
    SortingKeepsLinks(files, sorted);
  }

  lemma DraftIsPortable(
    host: Host, options: BuildOptions, draft: FileTable, sources: seq<Source>, scripts: seq<Source>)
    requires Planned(host, options, draft, sources, scripts)
    ensures PortableDistinct(host, draft) <==>
      DistinctBy((f: FileEntry) => host.fold(f.relpath), FilesFrom(host, options.tree)) &&
      DistinctBy((s: Script) => host.fold(s.path), options.scripts)
  {
    var unsorted: seq<ScriptEntry> :| multiset(unsorted) == multiset(draft.scripts) &&
      |unsorted| == |options.scripts| &&
      forall i | 0 <= i < |unsorted| :: unsorted[i].relpath == options.scripts[i].path;
    PermutationsAreDistinctAlike(
      (f: FileEntry) => host.fold(f.relpath), FilesFrom(host, options.tree), draft.files);
    PermutationsAreDistinctAlike((s: ScriptEntry) => host.fold(s.relpath), unsorted, draft.scripts);
    ScriptPathsAlike(host, options.scripts, unsorted);
  }

  lemma ScriptPathsAlike(host: Host, scripts: seq<Script>, entries: seq<ScriptEntry>)
    requires |entries| == |scripts| && forall i | 0 <= i < |entries| :: entries[i].relpath == scripts[i].path
    ensures DistinctBy((s: ScriptEntry) => host.fold(s.relpath), entries) <==>
      DistinctBy((s: Script) => host.fold(s.path), scripts)
  {}

  lemma EntriesAreOk(host: Host, options: BuildOptions, draft: FileTable)
    requires Plannable(options) && multiset(draft.files) == multiset(FilesFrom(host, options.tree))
    ensures forall e | e in draft.files :: EntryOk(e)
  {
    PermutationKeepsMembers(draft.files, FilesFrom(host, options.tree));
    forall e | e in draft.files
      ensures EntryOk(e)
    {
      FilesComeFromTree(host, options.tree, e);
      var t :| t in options.tree && e in EntryOf(host, t);
      assert Packable(t);
    }
  }

  lemma UnitIsOk(host: Host, options: BuildOptions, draft: FileTable, schema: string)
    requires TableOf(host, options, draft) && BundleOk(options)
    ensures UnitRules(draft.(schema := schema)) <==>
      (options.bundle ==>
         exists e :: e in FilesFrom(host, options.tree) && e.relpath == BUNDLE_INFO_PLIST && !IsSymlink(e))
  {
    PermutationKeepsMembers(draft.files, FilesFrom(host, options.tree));
    if options.bundle {
      NoMembersIsEmpty(draft.preserve);
    }
  }

  lemma NoMembersIsEmpty(s: seq<Path>)
    ensures s == [] || s[0] in s
  {}

  lemma PlanPacks(
    host: Host, options: BuildOptions, draft: FileTable, schema: string, sources: seq<Source>, scripts: seq<Source>)
    requires DistinctTree(options.tree) && Planned(host, options, draft, sources, scripts)
    requires PortableDistinct(host, draft) && TableRules(draft.(schema := schema))
    ensures var table := draft.(schema := schema);
      ValidArchive(host, Packed(table, sources + scripts), table) && TableOf(host, options, table) &&
      Packs(options, table, Packed(table, sources + scripts))
  {
    var table := draft.(schema := schema);
    assert PortableDistinct(host, table);
    BuiltFromTree(host, options.tree, table.files, sources);
    var unsorted :| multiset(unsorted) == multiset(table.scripts) && ScriptsHaveSources(host, unsorted, scripts);
    PackedIsValid(host, table, sources, scripts, unsorted);
  }

  lemma BuiltFromTree(host: Host, tree: seq<TreeEntry>, files: seq<FileEntry>, sources: seq<Source>)
    requires DistinctTree(tree)
    requires multiset(files) == multiset(FilesFrom(host, tree)) && multiset(sources) == multiset(SourcesFrom(tree))
    ensures DistinctBy((s: Source) => s.name, sources)
    ensures forall f | f in files && !IsSymlink(f) :: exists s :: s in sources && Describes(host, f, s)
    ensures forall s | s in sources :: exists f :: f in files && Describes(host, f, s)
  {
    PermutationKeepsMembers(files, FilesFrom(host, tree));
    PermutationKeepsMembers(sources, SourcesFrom(tree));
    SourceNamesAreDistinct(tree);
    PermutationKeepsDistinct((s: Source) => s.name, SourcesFrom(tree), sources);
    forall f | f in files && !IsSymlink(f) ensures exists s :: s in sources && Describes(host, f, s) {
      PlainFileHasSource(host, tree, f);
      var s :| s in SourcesFrom(tree) && Describes(host, f, s);
      assert s in sources;
    }
    forall s | s in sources ensures exists f :: f in files && Describes(host, f, s) {
      SourceHasPlainFile(host, tree, s);
      var f :| f in FilesFrom(host, tree) && Describes(host, f, s);
      assert f in files;
    }
  }

  /** Builder and validator agree on everything but the order of visits: what
      Build writes, Inspect reads back as the same table exactly if the links,
      in the order it visits them, stay within the depth bound. */
  method BuildThenValidate(
    host: Host, options: BuildOptions, buildOrder: seq<Path>, validateOrder: seq<Path>)
    returns (built: Result<(FileTable, Archive), PayloadError>, validated: Result<FileTable, PayloadError>)
    requires DistinctTree(options.tree)
    requires IsOrder(LinksOf(FilesFrom(host, options.tree)), buildOrder)
    requires IsOrder(LinksOf(FilesFrom(host, options.tree)), validateOrder)
    ensures built.Ok? <==> Buildable(host, options) && Verdict(FilesFrom(host, options.tree), buildOrder).Ok?
    ensures built.Ok? ==>
      validated ==
        (var verdict := Verdict(FilesFrom(host, options.tree), validateOrder);
         if verdict.Ok? then Ok(built.value.0) else Err(Table(verdict.error))) &&
      (validated.Err? ==> IsTooDeep(Verdict(FilesFrom(host, options.tree), validateOrder)))
  {
    hide ValidArchive, LinksOf, Verdict, Buildable, IsOrder, DistinctNames, Holds;
    validated := Err(Rejected("nothing built"));
    built := Build(host, options, buildOrder);
    if built.Ok? {
      var (table, zip) := built.value;
      TreeFilesAreDistinct(host, options.tree);
      SortingKeepsVerdict(FilesFrom(host, options.tree), table.files, validateOrder);
      BuiltReadsBack(host, zip, table);
      validated := Inspect(host, zip, validateOrder);
    }
  }

  lemma BuiltReadsBack(host: Host, zip: Archive, table: FileTable)
    requires ValidArchive(host, zip, table)
    ensures forall other | DistinctNames(zip) && Reads(zip, other) :: other == table
  {
    forall other | DistinctNames(zip) && Reads(zip, other)
      ensures other == table
    {
      HoldsIsUnique(zip, TABLE_NAME, TableData(other), TableData(table));
    }
  }

  // An archive on which they do not agree

  function ChainTree(n: nat): seq<TreeEntry> {
    (if n == 0 then [TreeEntry(["f"], Regular(Bytes([]), 0))] else ChainTree(n - 1)) +
    [TreeEntry([Name(n)], Symlink(Before(n)))]
  }

  const BLIND_HOST := Host(_ => "", _ => 0, p => p)

  lemma {:induction false} ChainTreePaths(n: nat, i: nat)
    requires i < n + 2
    ensures |ChainTree(n)| == n + 2
    ensures ChainTree(n)[i].rel == (if i == 0 then ["f"] else [Name(i - 1)]) && !ChainTree(n)[i].node.Special?
  {
    if n > 0 {
      ChainTreePaths(n - 1, if i < n + 1 then i else 0);
    }
  }

  lemma ChainTreeIsDistinct(n: nat)
    ensures DistinctTree(ChainTree(n))
  {
    hide Name;
    ChainTreePaths(n, 0);
    forall i, j | 0 <= i < j < n + 2
      ensures ChainTree(n)[i].rel != ChainTree(n)[j].rel
    {
      ChainTreePaths(n, i);
      ChainTreePaths(n, j);
      if i == 0 {
        assert Name(j - 1)[0] == 'a';
      } else {
        NamesDiffer(i - 1, j - 1);
      }
    }
  }

  lemma ChainEntries(n: nat)
    ensures EntryOf(BLIND_HOST, TreeEntry(["f"], Regular(Bytes([]), 0))) ==
      [FileEntry(["f"], UnspecifiedKind, 0, "", 0, "")]
    ensures EntryOf(BLIND_HOST, TreeEntry([Name(n)], Symlink(Before(n)))) ==
      [FileEntry([Name(n)], SymlinkKind, 0, "", 0, Before(n))]
  {
    assert Name(n)[0] == 'a' && CONFIG_DIR[0] == '.' && "f"[0] == 'f';
  }

  lemma {:induction false} ChainTreeFiles(n: nat)
    ensures FilesFrom(BLIND_HOST, ChainTree(n)) == ChainFiles(n)
  {
    hide FilesFrom, EntryOf, Name, Before;
    var file, link := TreeEntry(["f"], Regular(Bytes([]), 0)), TreeEntry([Name(n)], Symlink(Before(n)));
    ChainEntries(n);
    if n == 0 {
      WalkStarts(BLIND_HOST);
      FilesGrow(BLIND_HOST, [], file);
      assert [] + [file] == [file];
      FilesGrow(BLIND_HOST, [file], link);
    } else {
      ChainTreeFiles(n - 1);
      FilesGrow(BLIND_HOST, ChainTree(n - 1), link);
    }
  }

  lemma ChainIsBuildable(n: nat)
    requires n < 255
    ensures DistinctTree(ChainTree(n)) && FilesFrom(BLIND_HOST, ChainTree(n)) == ChainFiles(n)
    ensures Buildable(BLIND_HOST, BuildOptions("", ChainTree(n), map[], [], [], false))
  {
    hide Name, FilenameOk, ChainTree, ChainFiles, LinksOf, InsideOf, FilesFrom, EntryOf;
    ChainTreeIsDistinct(n);
    ChainTreeFiles(n);
    TreeFilesAreDistinct(BLIND_HOST, ChainTree(n));
    ChainNamesAreOk(n);
    forall t | t in ChainTree(n)
      ensures Packable(t)
    {
      ChainTreePaths(n, 0);
      var i :| 0 <= i < |ChainTree(n)| && ChainTree(n)[i] == t;
      ChainTreePaths(n, i);
    }
    forall e | e in ChainFiles(n)
      ensures ThroughNoLink(LinksOf(ChainFiles(n)), e.relpath)
    {
      ChainEntryOk(n, e);
      NothingAbove(e.relpath);
    }
  }

  /** A tree with more links in a chain than the depth bound is built when the
      links are visited from the file upwards, and what was built is refused
      when they are visited from the top down. */
  method BuilderAndValidatorDisagree(n: nat)
    returns (built: Result<(FileTable, Archive), PayloadError>, validated: Result<FileTable, PayloadError>)
    requires MAX_SYMLINK_DEPTH <= n < 255
    ensures built.Ok? && validated.Err? && validated.error.Table? && IsTooDeep(Err(validated.error.error))
  {
    hide Verdict, LinksOf, FilesFrom, Buildable, ChainTree, ChainFiles, IsOrder, DistinctTree, Ascending, Descending;
    ChainIsBuildable(n);
    OrderDecides(n);
    var options := BuildOptions("", ChainTree(n), map[], [], [], false);
    built, validated := BuildThenValidate(BLIND_HOST, options, Ascending(n), Descending(n));
  }
}
