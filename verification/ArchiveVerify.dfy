// Verification of an extracted tree against its manifest.
module ArchiveVerify {
  import opened Wrappers
  import opened Ordering
  import opened ArchivePaths
  import opened Archive

  // File names are not empty and hold no slash, and no file is inside another.
  ghost predicate IsTree(tree: Tree) {
    && (forall p :: p in tree ==> IsFilePath(p))
    && (forall p, q :: p in tree && q in tree && p <= q ==> p == q)
  }

  predicate IsFilePath(p: Path) {
    p != [] && forall i :: 0 <= i < |p| ==> p[i] != "" && '/' !in p[i]
  }

  lemma FilePathIsInjective(p: Path, q: Path)
    requires IsFilePath(p) && IsFilePath(q) && Posix(p) == Posix(q)
    ensures p == q
  {
    SplitOfPosix(p);
    SplitOfPosix(q);
  }

  lemma SafePathIsFilePath(fold: string -> string, p: Path)
    requires IsSafePath(fold, p)
    ensures IsFilePath(p)
  {
    forall i | 0 <= i < |p| ensures p[i] != "" && '/' !in p[i] {
      PartIsNotEmpty(fold, p[i]);
    }
  }

  // ---------------------------------------------------------------- acceptance

  function RecordPath(fold: string -> string, r: Record): Option<Path> {
    if r.path.Some? then SafeRelative(fold, r.path.value) else None
  }

  // The record names an included file of the tree, with its size and digest.
  predicate Holds(lib: Library, tree: Tree, r: Record) {
    match RecordPath(lib.fold, r)
    case None => false
    case Some(p) =>
      IsIncluded(p) && p in tree && r.size == Some(|tree[p]|) && r.sha256 == Some(lib.sha256(tree[p]))
  }

  predicate IsRecordOf(fold: string -> string, r: Record, p: Path) {
    RecordPath(fold, r) == Some(p)
  }

  function RecordAlias(fold: string -> string, r: Record): string {
    match RecordPath(fold, r)
    case Some(p) => Alias(fold, p)
    case None => ""
  }

  ghost predicate IsRecorded(fold: string -> string, records: seq<Record>, p: Path) {
    exists i :: 0 <= i < |records| && IsRecordOf(fold, records[i], p)
  }

  // The tree and its manifest agree, but for the databases.
  ghost predicate Matches(lib: Library, tree: Tree, m: Manifest) {
    && MANIFEST_PATH in tree
    && lib.read(tree[MANIFEST_PATH]) == Some(m)
    && IsHeader(lib, m.header)
    && Sorted(RecordLe, m.files)
    && (forall i :: 0 <= i < |m.files| ==> Holds(lib, tree, m.files[i]))
    && (forall i, j :: 0 <= i < j < |m.files| ==> RecordAlias(lib.fold, m.files[i]) != RecordAlias(lib.fold, m.files[j]))
    && (forall p :: p in Tracked(tree) <==> IsRecorded(lib.fold, m.files, p))
    && lib.summary(Tracked(tree)) == Some(m.summary)
  }

  predicate IsIntactAt(lib: Library, tree: Tree, d: Database) {
    match SafeRelative(lib.fold, d.path)
    case None => false
    case Some(p) => p in tree && lib.isIntact(tree[p])
  }

  predicate AreIntact(lib: Library, tree: Tree, databases: seq<Database>) {
    forall i :: 0 <= i < |databases| ==> IsIntactAt(lib, tree, databases[i])
  }

  // Acceptance depends on the order in which the files are walked: the list of databases keeps it.
  ghost predicate Accepts(lib: Library, tree: Tree, walk: seq<Path>, m: Manifest) {
    && Matches(lib, tree, m)
    && Databases(lib, Tracked(tree), walk) == Some(m.databases)
    && AreIntact(lib, tree, m.databases)
  }

  // The check of the file records: the paths found, or nothing when a record fails.
  method CheckRecords(lib: Library, tree: Tree, records: seq<Record>) returns (r: Option<set<string>>)
    ensures r.Some? <==>
      && (forall i :: 0 <= i < |records| ==> Holds(lib, tree, records[i]))
      && (forall i, j :: 0 <= i < j < |records| ==> RecordAlias(lib.fold, records[i]) != RecordAlias(lib.fold, records[j]))
    ensures r.Some? ==> forall s :: s in r.value <==> IsNamed(lib.fold, records, s)
  {
    hide SafeRelative, IsIncluded, Alias, Posix, Holds, RecordAlias, IsPosixOf;
    var expected: set<string> := {};
    var aliases: set<string> := {};
    var i := 0;
    while i < |records|
      invariant 0 <= i <= |records|
      invariant forall k :: 0 <= k < i ==> Holds(lib, tree, records[k]) && RecordAlias(lib.fold, records[k]) in aliases
      invariant forall a :: a in aliases ==> exists k :: 0 <= k < i && RecordAlias(lib.fold, records[k]) == a
      invariant forall j, k :: 0 <= j < k < i ==> RecordAlias(lib.fold, records[j]) != RecordAlias(lib.fold, records[k])
      invariant forall s :: s in expected <==> exists k :: 0 <= k < i && IsPosixOf(lib.fold, records[k], s)
    {
      var record := records[i];
      if record.path.None? {
        UnreadableRecord(lib, tree, record);
        return None;
      }
      var path := SafeRelative(lib.fold, record.path.value);
      if path.None? || !IsIncluded(path.value) {
        UnreadableRecord(lib, tree, record);
        return None;
      }
      var p := path.value;
      ReadRecord(lib, tree, record, p);
      if Posix(p) in expected || Alias(lib.fold, p) in aliases {
        SameNameSameAlias(lib.fold, records, i, p);
        return None;
      }
      if p !in tree || Some(|tree[p]|) != record.size || Some(lib.sha256(tree[p])) != record.sha256 {
        return None;
      }
      expected := expected + {Posix(p)};
      aliases := aliases + {Alias(lib.fold, p)};
      i := i + 1;
    }
    return Some(expected);
  }

  predicate IsPosixOf(fold: string -> string, r: Record, s: string) {
    RecordPath(fold, r).Some? && Posix(RecordPath(fold, r).value) == s
  }

  ghost predicate IsNamed(fold: string -> string, records: seq<Record>, s: string) {
    exists k :: 0 <= k < |records| && IsPosixOf(fold, records[k], s)
  }

  lemma ReadRecord(lib: Library, tree: Tree, r: Record, p: Path)
    requires RecordPath(lib.fold, r) == Some(p)
    ensures Holds(lib, tree, r) <==>
      IsIncluded(p) && p in tree && Some(|tree[p]|) == r.size && Some(lib.sha256(tree[p])) == r.sha256
    ensures RecordAlias(lib.fold, r) == Alias(lib.fold, p)
    ensures forall s :: IsPosixOf(lib.fold, r, s) <==> s == Posix(p)
  {
  }

  lemma UnreadableRecord(lib: Library, tree: Tree, r: Record)
    requires RecordPath(lib.fold, r).None? || !IsIncluded(RecordPath(lib.fold, r).value)
    ensures !Holds(lib, tree, r)
  {
  }

  // Two safe paths with one name are one path, and so have one alias.
  lemma SameNameSameAlias(fold: string -> string, records: seq<Record>, i: nat, p: Path)
    requires i < |records| && RecordPath(fold, records[i]) == Some(p)
    ensures forall k :: 0 <= k < |records| && IsPosixOf(fold, records[k], Posix(p)) ==>
      RecordAlias(fold, records[k]) == RecordAlias(fold, records[i])
  {
    hide SafeRelative, Posix, IsSafePath, Alias;
    SafeRelativeIsSafe(fold, records[i].path.value);
    forall k | 0 <= k < |records| && IsPosixOf(fold, records[k], Posix(p))
      ensures RecordAlias(fold, records[k]) == RecordAlias(fold, records[i])
    {
      SafeRelativeIsSafe(fold, records[k].path.value);
      PosixIsInjective(fold, RecordPath(fold, records[k]).value, p);
    }
  }

  method CheckDatabases(lib: Library, tree: Tree, databases: seq<Database>) returns (ok: bool)
    ensures ok <==> AreIntact(lib, tree, databases)
  {
    var i := 0;
    while i < |databases|
      invariant 0 <= i <= |databases|
      invariant forall k :: 0 <= k < i ==> IsIntactAt(lib, tree, databases[k])
    {
      var path := SafeRelative(lib.fold, databases[i].path);
      if path.None? || path.value !in tree {
        return false;
      }
      if !lib.isIntact(tree[path.value]) {
        return false;
      }
      i := i + 1;
    }
    return true;
  }

  // verify_expanded
  method VerifyExpanded(lib: Library, tree: Tree) returns (r: Option<Manifest>, ghost walk: seq<Path>)
    requires IsTree(tree)
    ensures (exists m :: Matches(lib, tree, m)) ==> IsWalkOf(Tracked(tree), walk)
    ensures r.Some? ==> Accepts(lib, tree, walk, r.value)
    ensures r.None? ==> forall m :: !Accepts(lib, tree, walk, m)
  {
    hide Holds, RecordAlias, IsRecorded, Tracked, Posix, IsHeader, Databases, AreIntact;
    walk := [];
    if MANIFEST_PATH !in tree {
      return None, walk;
    }
    var read := lib.read(tree[MANIFEST_PATH]);
    if read.None? || !IsHeader(lib, read.value.header) {
      return None, walk;
    }
    var m := read.value;
    LexIsTotalOrder();
    SortSorts(RecordLe, m.files);
    if Sorted(RecordLe, m.files) {
      SortOfSorted(RecordLe, m.files);
    }
    if m.files != Sort(RecordLe, m.files) {
      return None, walk;
    }
    var actual := set p | p in Tracked(tree) :: Posix(p);
    var expected := CheckRecords(lib, tree, m.files);
    if expected.None? {
      return None, walk;
    }
    SameNamesSamePaths(lib, tree, m.files, actual, expected.value);
    if actual != expected.value {
      return None, walk;
    }
    var databases;
    databases, walk := SqliteMetadata(lib, tree);
    if databases != Some(m.databases) {
      return None, walk;
    }
    var intact := CheckDatabases(lib, tree, m.databases);
    if !intact || lib.summary(Tracked(tree)) != Some(m.summary) {
      return None, walk;
    }
    return Some(m), walk;
  }

  lemma SameNamesSamePaths(lib: Library, tree: Tree, records: seq<Record>, actual: set<string>, expected: set<string>)
    requires IsTree(tree)
    requires forall i :: 0 <= i < |records| ==> Holds(lib, tree, records[i])
    requires forall s :: s in actual <==> exists p :: p in Tracked(tree) && Posix(p) == s
    requires forall s :: s in expected <==> IsNamed(lib.fold, records, s)
    ensures actual == expected <==> (forall p :: p in Tracked(tree) <==> IsRecorded(lib.fold, records, p))
  {
    hide Posix, SafeRelative, IsFilePath;
    forall p | IsRecorded(lib.fold, records, p) ensures IsFilePath(p) {
      var k :| 0 <= k < |records| && IsRecordOf(lib.fold, records[k], p);
      assert Holds(lib, tree, records[k]);
    }
    if actual == expected {
      forall p ensures p in Tracked(tree) <==> IsRecorded(lib.fold, records, p) {
        if p in Tracked(tree) {
          assert Posix(p) in expected;
          var k :| 0 <= k < |records| && IsPosixOf(lib.fold, records[k], Posix(p));
          var q := RecordPath(lib.fold, records[k]).value;
          assert IsRecordOf(lib.fold, records[k], q);
          FilePathIsInjective(p, q);
        }
        if IsRecorded(lib.fold, records, p) {
          var k :| 0 <= k < |records| && IsRecordOf(lib.fold, records[k], p);
          assert IsPosixOf(lib.fold, records[k], Posix(p));
          assert Posix(p) in actual;
          var q :| q in Tracked(tree) && Posix(q) == Posix(p);
          FilePathIsInjective(p, q);
        }
      }
    } else if forall p :: p in Tracked(tree) <==> IsRecorded(lib.fold, records, p) {
      forall s ensures s in actual <==> s in expected {
        if s in actual {
          var p :| p in Tracked(tree) && Posix(p) == s;
          var k :| 0 <= k < |records| && IsRecordOf(lib.fold, records[k], p);
          assert IsPosixOf(lib.fold, records[k], s);
        }
        if s in expected {
          var k :| 0 <= k < |records| && IsPosixOf(lib.fold, records[k], s);
          assert IsRecordOf(lib.fold, records[k], RecordPath(lib.fold, records[k]).value);
          assert IsRecorded(lib.fold, records, RecordPath(lib.fold, records[k]).value);
        }
      }
    }
  }

  // ---------------------------------------------------------------- what acceptance means

  ghost predicate IsTheRecord(lib: Library, tree: Tree, records: seq<Record>, p: Path, i: int)
    requires p in tree
  {
    && 0 <= i < |records|
    && IsRecordOf(lib.fold, records[i], p)
    && records[i].size == Some(|tree[p]|) && records[i].sha256 == Some(lib.sha256(tree[p]))
    && forall j :: 0 <= j < |records| && IsRecordOf(lib.fold, records[j], p) ==> j == i
  }

  // What the header of every accepted manifest says.
  lemma AcceptedHeader(lib: Library, tree: Tree, walk: seq<Path>, m: Manifest)
    requires Accepts(lib, tree, walk, m)
    ensures m.header.schema == "carsinos.state-archive.v2" && m.header.toolSchema == "carsinos.state-tool.v1"
    ensures m.header.product == "CarsinOS" && lib.isAbsolute(m.header.sourceRoot)
    ensures lib.trim(m.header.binaryVersion) != "" && lib.fold(lib.trim(m.header.binaryVersion)) != "unknown"
    ensures m.header.secretReferences == [("secrets", "excluded_mandatory_reauthentication")]
    ensures forall p: Path :: p != [] ==> (p[0] in m.header.excluded <==> !IsKeptPath(p))
  {
    forall p: Path | p != [] ensures p[0] in m.header.excluded <==> !IsKeptPath(p) {
      IncludedExactly(p);
    }
    hide IsKeptPath;
  }

  // Every tracked file has exactly one record, with its size and digest, and every record is of one.
  lemma AcceptedTreeIsRecorded(lib: Library, tree: Tree, m: Manifest, p: Path)
    requires Matches(lib, tree, m) && p in Tracked(tree)
    ensures exists i :: IsTheRecord(lib, tree, m.files, p, i)
  {
    hide SafeRelative, Alias, IsIncluded;
    assert IsRecorded(lib.fold, m.files, p);
    var i :| 0 <= i < |m.files| && IsRecordOf(lib.fold, m.files[i], p);
    assert Holds(lib, tree, m.files[i]);
    forall j | 0 <= j < |m.files| && IsRecordOf(lib.fold, m.files[j], p) ensures j == i {
      assert RecordAlias(lib.fold, m.files[j]) == RecordAlias(lib.fold, m.files[i]);
    }
    assert IsTheRecord(lib, tree, m.files, p, i);
  }

  // A manifest fixes the tracked files of every tree it is accepted for, up to SHA-256.
  lemma ManifestDeterminesTree(lib: Library, tree: Tree, other: Tree, m: Manifest)
    requires Matches(lib, tree, m) && Matches(lib, other, m)
    requires forall p, q :: p in tree && q in other && lib.sha256(tree[p]) == lib.sha256(other[q]) ==> tree[p] == other[q]
    ensures Tracked(tree) == Tracked(other)
  {
    hide IsRecordOf;
    assert forall p :: p in Tracked(tree) <==> p in Tracked(other);
    forall p | p in Tracked(tree) ensures Tracked(tree)[p] == Tracked(other)[p] {
      AcceptedTreeIsRecorded(lib, tree, m, p);
      AcceptedTreeIsRecorded(lib, other, m, p);
    }
  }
}
