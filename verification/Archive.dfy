// The state archive: what a backup writes, what a restore extracts, and what the verification of an
// extracted tree accepts. A tree is a map from file paths to contents; directories are implied.
module Archive {
  import opened Wrappers
  import opened Ordering
  import opened ArchivePaths
  import opened ArchiveWalk

  type Tree = map<Path, string>

  const MANIFEST_NAME := "backup-manifest.json"
  const MANIFEST_PATH: Path := [MANIFEST_NAME]
  const ARCHIVE_SCHEMA := "carsinos.state-archive.v2"
  const TOOL_SCHEMA := "carsinos.state-tool.v1"
  const PRODUCT := "CarsinOS"
  const EXCLUDED_TOP_LEVEL := [
    "cargo-target", "codex-bridge", "codex-bridge-workspaces", "launcher-scripts", "locks", "logs",
    "npm-cache", "pids", "secrets", "tmp"]
  const SECRET_REFERENCES := [("secrets", "excluded_mandatory_reauthentication")]
  const MAX_ARCHIVE_MEMBERS := 100_000
  const MAX_ARCHIVE_ENTRY_UNCOMPRESSED_BYTES := 16 * 1024 * 1024 * 1024
  const MAX_ARCHIVE_TOTAL_UNCOMPRESSED_BYTES := 128 * 1024 * 1024 * 1024
  const MAX_ARCHIVE_COMPRESSION_RATIO := 10_000

  // What reading a member yields: its bytes, a fault after some of them, or a fault before any.
  datatype Content = Whole(data: string) | Failing(partial: string) | Unopened

  // A member of an archive, with the sizes its directory declares.
  datatype Entry = Entry(name: string, declaredSize: nat, compressedSize: nat, symlink: bool, content: Content)

  datatype Record = Record(path: Option<string>, size: Option<nat>, sha256: Option<string>)

  datatype Header = Header(
    schema: string,
    toolSchema: string,
    product: string,
    sourceRoot: string,
    binaryVersion: string,
    excluded: seq<string>,
    secretReferences: seq<(string, string)>)

  // A SQLite file and its schema numbers.
  datatype Database = Database(path: string, schema: string)

  datatype Manifest = Manifest(header: Header, files: seq<Record>, databases: seq<Database>, summary: string)

  // Case folding, trimming, SHA-256, path syntax, what SQLite says of a file, the summary of receipts
  // and tombstones in a tree, and the JSON of a manifest.
  datatype Library = Library(
    fold: string -> string,
    trim: string -> string,
    sha256: string -> string,
    isAbsolute: string -> bool,
    isDatabase: (Path, string) -> bool,
    schema: string -> Option<string>,
    isIntact: string -> bool,
    summary: Tree -> Option<string>,
    write: Manifest -> string,
    read: string -> Option<Manifest>)

  predicate IsIncluded(p: Path) {
    p != [] && p[0] !in EXCLUDED_TOP_LEVEL
  }

  // Outside the directories a backup leaves behind: secrets, locks, logs and what can be made again.
  predicate IsKeptPath(p: Path) {
    && p != []
    && p[0] != "secrets" && p[0] != "locks" && p[0] != "logs" && p[0] != "pids" && p[0] != "tmp"
    && p[0] != "cargo-target" && p[0] != "npm-cache" && p[0] != "launcher-scripts"
    && p[0] != "codex-bridge" && p[0] != "codex-bridge-workspaces"
  }

  lemma IncludedExactly(p: Path)
    ensures IsIncluded(p) <==> IsKeptPath(p)
  {
  }

  // The files a walk of the tree yields, without the manifest.
  function Tracked(tree: Tree): Tree {
    map p | p in tree && IsIncluded(p) && p != MANIFEST_PATH :: tree[p]
  }

  // Tracked are the kept files other than the manifest at the root, with their contents.
  lemma TrackedExactly(tree: Tree, p: Path)
    ensures p in Tracked(tree) <==> p in tree && IsKeptPath(p) && p != ["backup-manifest.json"]
    ensures p in Tracked(tree) ==> Tracked(tree)[p] == tree[p]
  {
    IncludedExactly(p);
    hide IsIncluded, IsKeptPath;
  }

  // ---------------------------------------------------------------- directories and walks

  // A new file needs a free name whose ancestors are not files and which is not itself a directory.
  predicate CanCreate(tree: Tree, p: Path) {
    forall q :: q in tree ==> !(q <= p) && !(p <= q)
  }

  class Directory {
    var files: Tree

    constructor ()
      ensures files == map[]
    {
      files := map[];
    }

    method CreateNew(p: Path, data: string) returns (ok: bool)
      modifies this
      ensures ok <==> CanCreate(old(files), p)
      ensures files == if ok then old(files)[p := data] else old(files)
    {
      ok := forall q | q in files :: !(q <= p) && !(p <= q);
      if ok {
        files := files[p := data];
      }
    }
  }

  // Some listing, in no particular order, of the files of a tree.
  ghost predicate IsListing(tree: Tree, order: seq<Path>) {
    Distinct(order) && forall p :: p in order <==> p in tree
  }

  ghost predicate IsWalkOf(tree: Tree, walk: seq<Path>) {
    IsListing(tree, walk) && IsWalk(walk)
  }

  method WalkFiles(tree: Tree, includeManifest: bool) returns (order: seq<Path>)
    ensures !includeManifest ==> IsWalkOf(Tracked(tree), order)
    ensures includeManifest ==> IsWalk(order) && Distinct(order) && forall p :: p in order <==> p in tree && IsIncluded(p)
  {
    var wanted := set p | p in tree && IsIncluded(p) && (includeManifest || p != MANIFEST_PATH);
    ghost var depth := Depth(wanted);
    order := WalkDirectory(wanted, [], depth);
  }

  // ---------------------------------------------------------------- writing the archive

  // copy_included
  method CopyIncluded(source: Tree, destination: Directory)
    requires destination.files == map[]
    modifies destination
    ensures destination.files == Tracked(source)
  {
    var order := WalkFiles(source, false);
    var i := 0;
    while i < |order|
      invariant 0 <= i <= |order|
      invariant forall p :: p in destination.files <==> p in order[..i]
      invariant forall p :: p in destination.files ==> p in source && destination.files[p] == source[p]
    {
      assert order[i] in order;
      destination.files := destination.files[order[i] := source[order[i]]];
      assert order[..i + 1] == order[..i] + [order[i]];
      i := i + 1;
    }
    assert order[..|order|] == order;
  }

  function RecordOf(lib: Library, tree: Tree, p: Path): Record {
    var data := if p in tree then tree[p] else "";
    Record(Some(Posix(p)), Some(|data|), Some(lib.sha256(data)))
  }

  function Records(lib: Library, tree: Tree, order: seq<Path>): seq<Record> {
    Map(p => RecordOf(lib, tree, p), order)
  }

  function KeyOf(r: Record): string {
    if r.path.Some? then r.path.value else ""
  }

  predicate RecordLe(a: Record, b: Record) {
    LexLe(KeyOf(a), KeyOf(b))
  }

  predicate IsDatabase(lib: Library, tree: Tree, p: Path) {
    p in tree && lib.isDatabase(p, tree[p])
  }

  predicate HasSchema(lib: Library, tree: Tree, p: Path) {
    p in tree && lib.schema(tree[p]).Some?
  }

  // The SQLite files of a tree in the order of a walk.
  function DatabasePaths(lib: Library, tree: Tree, walk: seq<Path>): seq<Path> {
    if walk == [] then []
    else
      var last := walk[|walk| - 1];
      DatabasePaths(lib, tree, walk[..|walk| - 1]) + if IsDatabase(lib, tree, last) then [last] else []
  }

  function DatabaseAt(lib: Library, tree: Tree, p: Path): Database {
    Database(Posix(p), if HasSchema(lib, tree, p) then lib.schema(tree[p]).value else "")
  }

  predicate HaveSchemas(lib: Library, tree: Tree, walk: seq<Path>) {
    forall i :: 0 <= i < |walk| && IsDatabase(lib, tree, walk[i]) ==> HasSchema(lib, tree, walk[i])
  }

  function Described(lib: Library, tree: Tree, paths: seq<Path>): seq<Database> {
    Map(p => DatabaseAt(lib, tree, p), paths)
  }

  function Databases(lib: Library, tree: Tree, walk: seq<Path>): Option<seq<Database>> {
    if HaveSchemas(lib, tree, walk) then Some(Described(lib, tree, DatabasePaths(lib, tree, walk)))
    else None
  }

  // sqlite_metadata, which keeps the order of its walk
  method SqliteMetadata(lib: Library, tree: Tree) returns (r: Option<seq<Database>>, ghost walk: seq<Path>)
    ensures IsWalkOf(Tracked(tree), walk)
    ensures r == Databases(lib, Tracked(tree), walk)
    ensures r.Some? <==> forall p :: IsDatabase(lib, Tracked(tree), p) ==> HasSchema(lib, Tracked(tree), p)
  {
    hide Tracked, Posix, Described, DatabasePaths, HaveSchemas;
    var order := WalkFiles(tree, false);
    walk := order;
    var found: seq<Database> := [];
    var i := 0;
    NoDatabases(lib, Tracked(tree), order);
    ListedDatabases(lib, Tracked(tree), order);
    while i < |order|
      invariant 0 <= i <= |order|
      invariant HaveSchemas(lib, Tracked(tree), order[..i])
      invariant found == Described(lib, Tracked(tree), DatabasePaths(lib, Tracked(tree), order[..i]))
    {
      var p := order[i];
      assert p in order;
      TrackedIsPart(tree, p);
      NextDatabase(lib, Tracked(tree), order, i);
      if lib.isDatabase(p, tree[p]) {
        if lib.schema(tree[p]).None? {
          return None, walk;
        }
        found := found + [Database(Posix(p), lib.schema(tree[p]).value)];
      }
      i := i + 1;
    }
    assert order[..|order|] == order;
    return Some(found), walk;
  }

  lemma NoDatabases(lib: Library, tree: Tree, walk: seq<Path>)
    ensures HaveSchemas(lib, tree, walk[..0]) && Described(lib, tree, DatabasePaths(lib, tree, walk[..0])) == []
  {
  }

  lemma NextDatabase(lib: Library, tree: Tree, walk: seq<Path>, i: nat)
    requires i < |walk|
    ensures HaveSchemas(lib, tree, walk) ==> IsDatabase(lib, tree, walk[i]) ==> HasSchema(lib, tree, walk[i])
    ensures HaveSchemas(lib, tree, walk[..i]) && (IsDatabase(lib, tree, walk[i]) ==> HasSchema(lib, tree, walk[i])) ==>
      HaveSchemas(lib, tree, walk[..i + 1])
    ensures Described(lib, tree, DatabasePaths(lib, tree, walk[..i + 1])) ==
      Described(lib, tree, DatabasePaths(lib, tree, walk[..i])) +
      if IsDatabase(lib, tree, walk[i]) then [DatabaseAt(lib, tree, walk[i])] else []
  {
    hide DatabaseAt, IsDatabase, HasSchema;
    assert walk[..i + 1][..i] == walk[..i];
  }

  lemma TrackedIsPart(tree: Tree, p: Path)
    requires p in Tracked(tree)
    ensures p in tree && Tracked(tree)[p] == tree[p]
  {
  }

  ghost predicate IsDescribable(lib: Library, tree: Tree) {
    && lib.summary(tree).Some?
    && forall p :: IsDatabase(lib, tree, p) ==> HasSchema(lib, tree, p)
  }

  // The manifest lists every tracked file of the tree once, in the order of the paths.
  ghost predicate IsManifestOf(lib: Library, tree: Tree, m: Manifest) {
    && Sorted(RecordLe, m.files)
    && lib.summary(tree) == Some(m.summary)
    && (exists order :: IsListing(tree, order) && m.files == Records(lib, tree, order))
    && exists walk :: IsWalkOf(tree, walk) && Databases(lib, tree, walk) == Some(m.databases)
  }

  predicate IsHeader(lib: Library, h: Header) {
    && h.schema == ARCHIVE_SCHEMA && h.toolSchema == TOOL_SCHEMA && h.product == PRODUCT
    && lib.isAbsolute(h.sourceRoot)
    && lib.trim(h.binaryVersion) != "" && lib.fold(lib.trim(h.binaryVersion)) != "unknown"
    && h.excluded == EXCLUDED_TOP_LEVEL
    && h.secretReferences == SECRET_REFERENCES
  }

  // make_manifest
  method MakeManifest(lib: Library, root: Directory, header: Header) returns (m: Option<Manifest>)
    requires root.files == Tracked(root.files)
    ensures m.Some? <==> IsDescribable(lib, root.files)
    ensures m.Some? ==> m.value.header == header && IsManifestOf(lib, root.files, m.value)
  {
    var tree := root.files;
    var summary := lib.summary(tree);
    var databases, walk := SqliteMetadata(lib, tree);
    if summary.None? || databases.None? {
      return None;
    }
    var order := WalkFiles(tree, false);
    var records := MakeRecords(lib, tree, order);
    SortedRecords(lib, tree, order);
    return Some(Manifest(header, Sort(RecordLe, records), databases.value, summary.value));
  }

  method MakeRecords(lib: Library, tree: Tree, order: seq<Path>) returns (records: seq<Record>)
    ensures records == Records(lib, tree, order)
  {
    records := [];
    var i := 0;
    while i < |order|
      invariant 0 <= i <= |order| && |records| == i
      invariant forall k :: 0 <= k < i ==> records[k] == RecordOf(lib, tree, order[k])
    {
      records := records + [RecordOf(lib, tree, order[i])];
      i := i + 1;
    }
  }

  lemma ListedDatabases(lib: Library, tree: Tree, walk: seq<Path>)
    requires IsListing(tree, walk)
    ensures Databases(lib, tree, walk).Some? <==> forall p :: IsDatabase(lib, tree, p) ==> HasSchema(lib, tree, p)
  {
    hide DatabasePaths;
    if HaveSchemas(lib, tree, walk) {
      forall p | IsDatabase(lib, tree, p) ensures HasSchema(lib, tree, p) {
        var i :| 0 <= i < |walk| && walk[i] == p;
      }
    }
  }

  predicate PathLe(p: Path, q: Path) {
    LexLe(Posix(p), Posix(q))
  }

  // Sorting the records reorders the listing they were taken from.
  lemma SortedRecords(lib: Library, tree: Tree, order: seq<Path>)
    requires IsListing(tree, order)
    ensures Sorted(RecordLe, Sort(RecordLe, Records(lib, tree, order)))
    ensures Sort(RecordLe, Records(lib, tree, order)) == Records(lib, tree, Sort(PathLe, order))
    ensures IsListing(tree, Sort(PathLe, order))
  {
    LexIsTotalOrder();
    SortSorts(RecordLe, Records(lib, tree, order));
    SortOfMap(p => RecordOf(lib, tree, p), RecordLe, PathLe, order);
    SortPermutes(PathLe, order);
    PermutationKeepsDistinct(Sort(PathLe, order), order);
    forall p ensures p in Sort(PathLe, order) <==> p in order {
      SameElements(Sort(PathLe, order), order, p);
    }
  }
}
