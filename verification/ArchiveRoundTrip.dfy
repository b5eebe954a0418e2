// A backup and its restore: which source trees come back as they were.
module ArchiveRoundTrip {
  import opened Wrappers
  import opened Ordering
  import opened ArchivePaths
  import opened ArchiveWalk
  import opened Archive
  import opened ArchiveRestore
  import opened ArchiveVerify
  import opened ArchiveDatabases

  // What the staging directory of a backup holds when it is zipped.
  function Stage(lib: Library, source: Tree, m: Manifest): Tree {
    Tracked(source)[MANIFEST_PATH := lib.write(m)]
  }

  predicate IsDeflated(compress: string -> nat, e: Entry) {
    e.content.Whole? && e.compressedSize == compress(e.content.data)
  }

  predicate IsEntryFor(stage: Tree, p: Path, e: Entry) {
    && p in stage
    && e.name == Posix(p) && !e.symlink
    && e.declaredSize == |stage[p]| && e.content == Whole(stage[p])
  }

  // Nothing under the excluded directories is ever archived.
  ghost predicate IsKeptName(name: string) {
    exists p :: IsKeptPath(p) && name == Posix(p)
  }

  // The archive holds every staged file once, in some order.
  ghost predicate IsArchiveOf(stage: Tree, order: seq<Path>, entries: seq<Entry>) {
    && IsListing(stage, order)
    && |entries| == |order|
    && forall i :: 0 <= i < |order| ==> IsEntryFor(stage, order[i], entries[i])
  }

  // make_archive, up to the final verification. Nothing is made when a directory has the name of the
  // manifest, or when a database or the receipts of the source cannot be read.
  method MakeArchive(lib: Library, source: Tree, header: Header, compress: string -> nat)
    returns (r: Option<(Manifest, seq<Entry>)>, ghost order: seq<Path>)
    ensures r.Some? <==> CanCreate(Tracked(source), MANIFEST_PATH) && IsDescribable(lib, Tracked(source))
    ensures r.Some? ==> r.value.0.header == header && IsManifestOf(lib, Tracked(source), r.value.0)
    ensures r.Some? ==> IsArchiveOf(Stage(lib, source, r.value.0), order, r.value.1)
    ensures r.Some? ==> forall i :: 0 <= i < |r.value.1| ==>
      IsDeflated(compress, r.value.1[i]) && IsKeptName(r.value.1[i].name)
  {
    hide IsManifestOf, IsDescribable;
    order := [];
    var stage := new Directory();
    CopyIncluded(source, stage);
    TrackedTwice(source);
    var described := MakeManifest(lib, stage, header);
    if described.None? {
      return None, order;
    }
    var m := described.value;
    var ok := stage.CreateNew(MANIFEST_PATH, lib.write(m));
    if !ok {
      return None, order;
    }
    StageIsIncluded(lib, source, m);
    var entries;
    entries, order := ZipFiles(stage.files, compress);
    return Some((m, entries)), order;
  }

  method ZipFiles(stage: Tree, compress: string -> nat) returns (entries: seq<Entry>, ghost order: seq<Path>)
    requires forall p :: p in stage ==> IsIncluded(p)
    ensures IsArchiveOf(stage, order, entries)
    ensures forall i :: 0 <= i < |entries| ==> IsDeflated(compress, entries[i]) && IsKeptName(entries[i].name)
  {
    hide Posix, IsIncluded, IsKeptPath;
    var paths := WalkFiles(stage, true);
    order := paths;
    entries := [];
    var i := 0;
    while i < |paths|
      invariant 0 <= i <= |paths| && |entries| == i
      invariant forall k :: 0 <= k < i ==> IsEntryFor(stage, paths[k], entries[k])
      invariant forall k :: 0 <= k < i ==> IsDeflated(compress, entries[k]) && IsKeptName(entries[k].name)
    {
      assert paths[i] in paths;
      IncludedExactly(paths[i]);
      var data := stage[paths[i]];
      entries := entries + [Entry(Posix(paths[i]), |data|, compress(data), false, Whole(data))];
      i := i + 1;
    }
  }

  lemma TrackedTwice(source: Tree)
    ensures Tracked(Tracked(source)) == Tracked(source)
  {
  }

  lemma StageIsIncluded(lib: Library, source: Tree, m: Manifest)
    ensures forall p :: p in Stage(lib, source, m) ==> IsIncluded(p)
    ensures Tracked(Stage(lib, source, m)) == Tracked(source)
  {
    assert MANIFEST_NAME !in EXCLUDED_TOP_LEVEL;
  }

  // ---------------------------------------------------------------- where staged files land

  // The path a staged file is extracted to: a backslash in a name parts it like a slash.
  function Landing(p: Path): Path {
    Split(Map(Slashed, Posix(p)))
  }

  lemma LandingIsRead(fold: string -> string, p: Path)
    ensures SafeRelative(fold, Posix(p)).Some? ==> SafeRelative(fold, Posix(p)) == Some(Landing(p))
  {
  }

  ghost predicate LandApart(stage: Tree) {
    forall p, q :: p in stage && q in stage && Landing(p) == Landing(q) ==> p == q
  }

  // The tree with every file moved to where it lands.
  ghost function Landed(stage: Tree): Tree
    requires LandApart(stage)
  {
    map p | p in stage :: Landing(p) := stage[p]
  }

  predicate LandsSafely(fold: string -> string, p: Path) {
    SafeRelative(fold, Posix(p)).Some? && (IsIncluded(Landing(p)) || Landing(p) == MANIFEST_PATH)
  }

  // Every file lands on a safe included path, with an alias of its own and not inside another file.
  ghost predicate IsRestorable(fold: string -> string, stage: Tree) {
    && (forall p :: p in stage ==> LandsSafely(fold, p))
    && (forall p, q :: p in stage && q in stage && Alias(fold, Landing(p)) == Alias(fold, Landing(q)) ==> p == q)
    && (forall p, q :: p in stage && q in stage && Landing(p) <= Landing(q) ==> p == q)
  }

  lemma {:induction false} PosixEnd(p: Path)
    requires IsFilePath(p)
    ensures Posix(p) != "" && !IsDirectoryName(Posix(p))
  {
    if |p| == 1 {
      assert p[0][|p[0]| - 1] in p[0];
    } else {
      PosixEnd(p[1..]);
    }
  }

  lemma EntryLanding(fold: string -> string, stage: Tree, p: Path, e: Entry)
    requires IsFilePath(p) && IsEntryFor(stage, p, e)
    ensures !IsDirectoryName(e.name) && IsReadable(e) && Copied(e) == stage[p]
    ensures IsMember(fold, e) <==> LandsSafely(fold, p)
    ensures LandsSafely(fold, p) ==> PathOf(fold, e) == Landing(p)
  {
    hide SafeRelative, Landing;
    PosixEnd(p);
    LandingIsRead(fold, p);
  }

  lemma {:induction false} ExtractedContent(fold: string -> string, entries: seq<Entry>, i: nat)
    requires i < |entries| && !IsDirectoryName(entries[i].name)
    requires AliasesDiffer(fold, entries)
    ensures PathOf(fold, entries[i]) in Extracted(fold, entries)
    ensures Extracted(fold, entries)[PathOf(fold, entries[i])] == Copied(entries[i])
  {
    hide PathOf, IsDirectoryName;
    var n := |entries| - 1;
    var front := entries[..n];
    if i < n {
      assert forall k :: 0 <= k < n ==> front[k] == entries[k];
      ExtractedContent(fold, front, i);
      assert AliasOf(fold, entries[i]) != AliasOf(fold, entries[n]);
    }
  }

  ghost predicate AreLanded(fold: string -> string, order: seq<Path>, entries: seq<Entry>)
    requires |entries| == |order|
  {
    forall i :: 0 <= i < |order| ==> !IsDirectoryName(entries[i].name) && PathOf(fold, entries[i]) == Landing(order[i])
  }

  lemma MembersLand(fold: string -> string, stage: Tree, order: seq<Path>, entries: seq<Entry>)
    requires IsTree(stage) && IsArchiveOf(stage, order, entries)
    ensures AreReadable(entries)
    ensures AreMembers(fold, entries) <==> forall p :: p in stage ==> LandsSafely(fold, p)
    ensures AreMembers(fold, entries) ==> AreLanded(fold, order, entries)
  {
    hide IsReadable, IsMember, LandsSafely, IsFilePath, IsEntryFor, PathOf, Landing, IsDirectoryName;
    forall i | 0 <= i < |order|
      ensures !IsDirectoryName(entries[i].name) && IsReadable(entries[i])
      ensures IsMember(fold, entries[i]) <==> LandsSafely(fold, order[i])
      ensures LandsSafely(fold, order[i]) ==> PathOf(fold, entries[i]) == Landing(order[i])
    {
      assert order[i] in order;
      EntryLanding(fold, stage, order[i], entries[i]);
    }
    if AreMembers(fold, entries) {
      forall p | p in stage ensures LandsSafely(fold, p) {
        var i :| 0 <= i < |order| && order[i] == p;
        assert IsMember(fold, entries[i]);
      }
    } else {
      var i :| 0 <= i < |entries| && !IsMember(fold, entries[i]);
      assert order[i] in order;
    }
  }

  // The archive of a tree within the declared limits is extractable exactly when the tree is restorable.
  lemma ExtractableExactly(fold: string -> string, stage: Tree, order: seq<Path>, entries: seq<Entry>)
    requires IsTree(stage) && IsArchiveOf(stage, order, entries)
    ensures Extractable(fold, entries) <==> Resources(entries) && IsRestorable(fold, stage)
  {
    hide LandsSafely, Landing, PathOf, Alias, IsMember, Resources, AreReadable, IsTree, IsEntryFor, IsDirectoryName;
    MembersLand(fold, stage, order, entries);
    if Extractable(fold, entries) {
      forall p, q | p in stage && q in stage && p != q
        ensures Alias(fold, Landing(p)) != Alias(fold, Landing(q)) && !(Landing(p) <= Landing(q))
      {
        var i :| 0 <= i < |order| && order[i] == p;
        var j :| 0 <= j < |order| && order[j] == q;
        assert AliasOf(fold, entries[i]) != AliasOf(fold, entries[j]);
        assert !Clash(fold, entries[i], entries[j]);
      }
    }
    if AreMembers(fold, entries) && IsRestorable(fold, stage) {
      forall i, j | 0 <= i < |entries| && 0 <= j < |entries| && i != j
        ensures AliasOf(fold, entries[i]) != AliasOf(fold, entries[j]) && !Clash(fold, entries[i], entries[j])
      {
        assert order[i] in order && order[j] in order;
      }
    }
  }

  lemma RestorableLandApart(fold: string -> string, stage: Tree)
    requires IsRestorable(fold, stage)
    ensures LandApart(stage)
  {
    hide LandsSafely, Landing, Alias;
  }

  lemma LandedPaths(fold: string -> string, stage: Tree, order: seq<Path>, entries: seq<Entry>)
    requires LandApart(stage) && IsListing(stage, order) && |entries| == |order| && AreLanded(fold, order, entries)
    ensures Extracted(fold, entries).Keys == Landed(stage).Keys
  {
    hide Landing, PathOf, Extracted, IsDirectoryName;
    forall q ensures q in Extracted(fold, entries) <==> q in Landed(stage) {
      ExtractedPaths(fold, entries, q);
      if q in Landed(stage) {
        var p :| p in stage && Landing(p) == q;
        var i :| 0 <= i < |order| && order[i] == p;
        assert IsFileAt(fold, entries[i], q);
      }
      if q in Extracted(fold, entries) {
        var i :| 0 <= i < |entries| && IsFileAt(fold, entries[i], q);
        assert order[i] in order;
      }
    }
  }

  // Extraction moves every file of the tree, with its contents, to where it lands.
  lemma ExtractedIsLanded(fold: string -> string, stage: Tree, order: seq<Path>, entries: seq<Entry>)
    requires IsTree(stage) && IsArchiveOf(stage, order, entries) && Extractable(fold, entries)
    ensures LandApart(stage) && Extracted(fold, entries) == Landed(stage)
  {
    ExtractableExactly(fold, stage, order, entries);
    RestorableLandApart(fold, stage);
    ExtractableParts(fold, entries);
    MembersLand(fold, stage, order, entries);
    LandedPaths(fold, stage, order, entries);
    hide *;
    LandedContents(fold, stage, order, entries);
  }

  lemma LandedContent(fold: string -> string, stage: Tree, order: seq<Path>, entries: seq<Entry>, i: nat)
    requires IsArchiveOf(stage, order, entries) && i < |order|
    requires AreLanded(fold, order, entries) && AliasesDiffer(fold, entries)
    ensures Landing(order[i]) in Extracted(fold, entries)
    ensures Extracted(fold, entries)[Landing(order[i])] == stage[order[i]]
  {
    hide Landing, PathOf, Extracted, IsDirectoryName, AliasesDiffer, Posix, IsListing;
    assert IsEntryFor(stage, order[i], entries[i]);
    ExtractedContent(fold, entries, i);
  }

  lemma LandedContents(fold: string -> string, stage: Tree, order: seq<Path>, entries: seq<Entry>)
    requires LandApart(stage) && IsArchiveOf(stage, order, entries)
    requires AreLanded(fold, order, entries) && AliasesDiffer(fold, entries)
    requires Extracted(fold, entries).Keys == Landed(stage).Keys
    ensures Extracted(fold, entries) == Landed(stage)
  {
    hide Landing, Landed, LandApart, Extracted, AliasesDiffer, AreLanded;
    forall q | q in Landed(stage) ensures Extracted(fold, entries)[q] == Landed(stage)[q] {
      var p := LandedFrom(stage, q);
      var i :| 0 <= i < |order| && order[i] == p;
      LandedContent(fold, stage, order, entries, i);
    }
  }

  lemma LandedFrom(stage: Tree, q: Path) returns (p: Path)
    requires LandApart(stage) && q in Landed(stage)
    ensures p in stage && Landing(p) == q && Landed(stage)[q] == stage[p]
  {
    hide Landing;
    p :| p in stage && Landing(p) == q;
  }

  lemma ExtractableParts(fold: string -> string, entries: seq<Entry>)
    requires Extractable(fold, entries)
    ensures AreMembers(fold, entries) && AliasesDiffer(fold, entries) && FilesNest(fold, entries)
  {
    hide AreMembers, AliasesDiffer, FilesNest;
  }

  // ---------------------------------------------------------------- the round trip

  // Every name is safe and keeps its parts, and Windows tells all of them apart.
  ghost predicate IsPortable(fold: string -> string, stage: Tree) {
    && (forall p :: p in stage ==> IsSafePath(fold, p))
    && (forall p, q :: p in stage && q in stage && Alias(fold, p) == Alias(fold, q) ==> p == q)
  }

  lemma SafePathsStay(fold: string -> string, stage: Tree)
    requires forall p :: p in stage ==> IsSafePath(fold, p)
    ensures forall p :: p in stage ==> SafeRelative(fold, Posix(p)).Some? && Landing(p) == p
    ensures LandApart(stage) && Landed(stage) == stage
  {
    hide IsSafePath, SafeRelative, Landing;
    forall p | p in stage ensures SafeRelative(fold, Posix(p)).Some? && Landing(p) == p {
      SafeRelativeOfPosix(fold, p);
      LandingIsRead(fold, p);
    }
  }

  lemma PortableIsRestorable(fold: string -> string, stage: Tree)
    requires IsTree(stage) && IsPortable(fold, stage)
    requires forall p :: p in stage ==> IsIncluded(p) || p == MANIFEST_PATH
    ensures IsRestorable(fold, stage)
  {
    hide IsSafePath, SafeRelative, Landing, Alias, IsIncluded, IsFilePath, Posix;
    hide MANIFEST_PATH;
    SafePathsStay(fold, stage);
  }

  lemma LandingIsSafe(fold: string -> string, p: Path)
    requires LandsSafely(fold, p)
    ensures IsSafePath(fold, Landing(p))
  {
    hide IsSafePath, SafeRelative, Landing, IsIncluded, Posix;
    LandingIsRead(fold, p);
    SafeRelativeIsSafe(fold, Posix(p));
  }

  lemma StayingIsSafe(fold: string -> string, stage: Tree)
    requires IsRestorable(fold, stage) && LandApart(stage) && Landed(stage) == stage
    ensures forall p :: p in stage ==> IsSafePath(fold, p)
  {
    hide IsSafePath, LandsSafely, Landing, Landed, LandApart, Alias, Posix;
    forall p | p in stage ensures IsSafePath(fold, p) {
      var q := LandedFrom(stage, p);
      LandingIsSafe(fold, q);
    }
  }

  lemma StayingIsPortable(fold: string -> string, stage: Tree)
    requires IsRestorable(fold, stage) && LandApart(stage) && Landed(stage) == stage
    ensures IsPortable(fold, stage)
  {
    hide IsSafePath, LandsSafely, Landing, Landed, LandApart, Alias, Posix, SafeRelative;
    StayingIsSafe(fold, stage);
    SafePathsStay(fold, stage);
    forall p, q | p in stage && q in stage && Alias(fold, p) == Alias(fold, q) ensures p == q {
      assert Landing(p) == p && Landing(q) == q;
    }
  }

  // The portable trees are the restorable ones whose files all stay in place.
  lemma PortableExactly(fold: string -> string, stage: Tree)
    requires IsTree(stage)
    requires forall p :: p in stage ==> IsIncluded(p) || p == MANIFEST_PATH
    ensures IsPortable(fold, stage) <==> IsRestorable(fold, stage) && LandApart(stage) && Landed(stage) == stage
  {
    hide IsTree, IsSafePath, IsIncluded, IsRestorable, LandApart, Landed, Alias;
    if IsPortable(fold, stage) {
      PortableIsRestorable(fold, stage);
      SafePathsStay(fold, stage);
    }
    if IsRestorable(fold, stage) && LandApart(stage) && Landed(stage) == stage {
      StayingIsPortable(fold, stage);
    }
  }

  // Restoring gives back exactly the staged files if and only if the tree is portable.
  lemma RestoreIsExact(fold: string -> string, stage: Tree, order: seq<Path>, entries: seq<Entry>)
    requires IsTree(stage) && IsArchiveOf(stage, order, entries)
    requires forall p :: p in stage ==> IsIncluded(p) || p == MANIFEST_PATH
    requires Resources(entries)
    ensures Extractable(fold, entries) && Extracted(fold, entries) == stage <==> IsPortable(fold, stage)
  {
    hide IsTree, IsIncluded, IsArchiveOf, Resources, Extractable, Extracted, IsRestorable, IsPortable, Landed;
    ExtractableExactly(fold, stage, order, entries);
    PortableExactly(fold, stage);
    if Extractable(fold, entries) {
      ExtractedIsLanded(fold, stage, order, entries);
    }
  }

  // ---------------------------------------------------------------- which restored trees are accepted

  lemma RecordLands(lib: Library, tree: Tree, restored: Tree, p: Path)
    requires LandsSafely(lib.fold, p) && Landing(p) != MANIFEST_PATH
    requires p in tree && Landing(p) in restored && restored[Landing(p)] == tree[p]
    ensures Holds(lib, restored, RecordOf(lib, tree, p))
    ensures RecordAlias(lib.fold, RecordOf(lib, tree, p)) == Alias(lib.fold, Landing(p))
    ensures forall q :: IsRecordOf(lib.fold, RecordOf(lib, tree, p), q) <==> q == Landing(p)
  {
    hide SafeRelative, Landing, Posix, Alias, IsIncluded;
    LandingIsRead(lib.fold, p);
  }

  // The records of a restorable tree hold of its restored files, tell them apart and miss none.
  lemma RecordsLand(lib: Library, tree: Tree, restored: Tree, order: seq<Path>, records: seq<Record>)
    requires IsListing(tree, order) && records == Records(lib, tree, order)
    requires IsRestorable(lib.fold, tree) && LandApart(tree)
    requires forall p :: p in tree ==> Landing(p) != MANIFEST_PATH
    requires forall q :: q in Landed(tree) ==> q in restored && restored[q] == Landed(tree)[q]
    ensures forall i :: 0 <= i < |records| ==> Holds(lib, restored, records[i])
    ensures forall i, j :: 0 <= i < j < |records| ==> RecordAlias(lib.fold, records[i]) != RecordAlias(lib.fold, records[j])
    ensures forall q :: q in Landed(tree) <==> IsRecorded(lib.fold, records, q)
  {
    hide RecordOf, Holds, RecordAlias, IsRecordOf, Alias, Landing, LandsSafely;
    forall i | 0 <= i < |records|
      ensures Holds(lib, restored, records[i])
      ensures RecordAlias(lib.fold, records[i]) == Alias(lib.fold, Landing(order[i]))
      ensures order[i] in tree
      ensures forall q :: IsRecordOf(lib.fold, records[i], q) <==> q == Landing(order[i])
    {
      assert order[i] in order;
      assert Landing(order[i]) in Landed(tree);
      RecordLands(lib, tree, restored, order[i]);
    }
    forall i, j | 0 <= i < j < |records| ensures RecordAlias(lib.fold, records[i]) != RecordAlias(lib.fold, records[j]) {
      assert order[i] != order[j];
    }
    forall q | q in Landed(tree) ensures IsRecorded(lib.fold, records, q) {
      var p :| p in tree && Landing(p) == q;
      var i :| 0 <= i < |order| && order[i] == p;
      assert IsRecordOf(lib.fold, records[i], q);
    }
  }

  lemma PlainNameStays(name: string)
    requires IsPlainName(name)
    ensures Landing([name]) == [name]
  {
    SlashedPlain(name);
    SplitOfName(name, "");
  }

  lemma ManifestStays()
    ensures Landing(MANIFEST_PATH) == MANIFEST_PATH
  {
    hide Landing;
    PlainNameStays(MANIFEST_NAME);
  }

  lemma StageHolds(lib: Library, source: Tree, m: Manifest)
    ensures forall p :: p in Stage(lib, source, m) <==> p in Tracked(source) || p == MANIFEST_PATH
    ensures forall p :: p in Tracked(source) ==> p != MANIFEST_PATH && Stage(lib, source, m)[p] == Tracked(source)[p]
    ensures Stage(lib, source, m)[MANIFEST_PATH] == lib.write(m)
    ensures IsIncluded(MANIFEST_PATH)
  {
    StageIsIncluded(lib, source, m);
  }

  // The manifest lands on its own path and every other file elsewhere, on an included path.
  lemma FilesAvoidManifest(lib: Library, source: Tree, m: Manifest)
    requires IsRestorable(lib.fold, Stage(lib, source, m))
    ensures IsRestorable(lib.fold, Tracked(source)) && LandApart(Tracked(source)) && LandApart(Stage(lib, source, m))
    ensures forall p :: p in Tracked(source) ==> Landing(p) != MANIFEST_PATH && IsIncluded(Landing(p))
  {
    hide Alias, Landing, SafeRelative, Stage, Tracked, IsIncluded, Posix;
    hide MANIFEST_NAME;
    ManifestStays();
    StageHolds(lib, source, m);
    RestorableLandApart(lib.fold, Stage(lib, source, m));
  }

  lemma LandedStage(lib: Library, source: Tree, m: Manifest)
    requires IsRestorable(lib.fold, Stage(lib, source, m))
    ensures IsRestorable(lib.fold, Tracked(source)) && LandApart(Tracked(source)) && LandApart(Stage(lib, source, m))
    ensures forall p :: p in Tracked(source) ==> Landing(p) != MANIFEST_PATH
    ensures MANIFEST_PATH !in Landed(Tracked(source))
    ensures Landed(Stage(lib, source, m)) == Landed(Tracked(source))[MANIFEST_PATH := lib.write(m)]
    ensures Tracked(Landed(Stage(lib, source, m))) == Landed(Tracked(source))
  {
    FilesAvoidManifest(lib, source, m);
    ManifestStays();
    StageHolds(lib, source, m);
    hide *;
    LandedParts(Tracked(source), lib.write(m), Stage(lib, source, m));
    TrackedUpdate(Landed(Tracked(source)), lib.write(m));
  }

  lemma LandedParts(tree: Tree, data: string, stage: Tree)
    requires forall p :: p in stage <==> p in tree || p == MANIFEST_PATH
    requires forall p :: p in tree ==> p != MANIFEST_PATH && stage[p] == tree[p]
    requires stage[MANIFEST_PATH] == data && Landing(MANIFEST_PATH) == MANIFEST_PATH
    requires LandApart(tree) && LandApart(stage)
    requires forall p :: p in tree ==> Landing(p) != MANIFEST_PATH && IsIncluded(Landing(p))
    ensures Landed(stage) == Landed(tree)[MANIFEST_PATH := data]
    ensures forall q :: q in Landed(tree) ==> q != MANIFEST_PATH && IsIncluded(q)
  {
    hide Landing, IsIncluded;
    hide MANIFEST_PATH;
  }

  lemma TrackedUpdate(tree: Tree, data: string)
    requires forall q :: q in tree ==> q != MANIFEST_PATH && IsIncluded(q)
    ensures Tracked(tree[MANIFEST_PATH := data]) == tree
  {
    hide IsIncluded;
    hide MANIFEST_PATH;
  }

  // A backup that can be extracted matches its manifest exactly when the header is valid and receipts
  // and tombstones read the same in the restored files as in the source.
  lemma MatchesExactly(lib: Library, source: Tree, m: Manifest)
    requires IsManifestOf(lib, Tracked(source), m) && lib.read(lib.write(m)) == Some(m)
    requires IsRestorable(lib.fold, Stage(lib, source, m)) && LandApart(Stage(lib, source, m))
    ensures Matches(lib, Landed(Stage(lib, source, m)), m) <==>
      && IsHeader(lib, m.header)
      && lib.summary(Tracked(Landed(Stage(lib, source, m)))) == lib.summary(Tracked(source))
  {
    hide IsHeader, Tracked, IsRestorable, Landed, Landing, Records, Holds, IsRecorded, RecordAlias, Databases;
    LandedStage(lib, source, m);
    var order :| IsListing(Tracked(source), order) && m.files == Records(lib, Tracked(source), order);
    RecordsLand(lib, Tracked(source), Landed(Stage(lib, source, m)), order, m.files);
  }

  lemma StageIsTree(lib: Library, source: Tree, m: Manifest)
    requires IsTree(source) && CanCreate(Tracked(source), MANIFEST_PATH)
    ensures IsTree(Stage(lib, source, m))
    ensures forall p :: p in Stage(lib, source, m) ==> IsIncluded(p) || p == MANIFEST_PATH
  {
    assert IsFilePath(MANIFEST_PATH);
  }

  // Every database of the source is intact, and the walk meets them in the order of the manifest.
  ghost predicate AreKept(lib: Library, source: Tree, m: Manifest, walk: seq<Path>) {
    AreWhole(lib, Tracked(source)) && Databases(lib, Tracked(source), walk) == Some(m.databases)
  }

  // Backup and restore of any source tree: extraction gives exactly the included files and the
  // manifest if and only if the names are portable, and then verification accepts what AreKept says.
  lemma BackupRoundTrip(lib: Library, source: Tree, m: Manifest, order: seq<Path>, entries: seq<Entry>)
    requires IsTree(source) && CanCreate(Tracked(source), MANIFEST_PATH)
    requires IsManifestOf(lib, Tracked(source), m) && IsHeader(lib, m.header)
    requires lib.read(lib.write(m)) == Some(m)
    requires IsArchiveOf(Stage(lib, source, m), order, entries) && Resources(entries)
    ensures Extractable(lib.fold, entries) && Extracted(lib.fold, entries) == Stage(lib, source, m)
       <==> IsPortable(lib.fold, Stage(lib, source, m))
    ensures IsPortable(lib.fold, Stage(lib, source, m)) ==>
      && Tracked(Extracted(lib.fold, entries)) == Tracked(source)
      && forall walk | IsWalkOf(Tracked(source), walk) ::
        Accepts(lib, Extracted(lib.fold, entries), walk, m) <==> AreKept(lib, source, m, walk)
  {
    hide IsTree, IsManifestOf, IsHeader, Tracked, IsPortable, Accepts, Resources, Extracted, AreKept;
    hide IsArchiveOf, Stage, Extractable, IsWalkOf, IsIncluded;
    StageIsTree(lib, source, m);
    RestoreIsExact(lib.fold, Stage(lib, source, m), order, entries);
    StageIsIncluded(lib, source, m);
    if IsPortable(lib.fold, Stage(lib, source, m)) {
      forall walk | IsWalkOf(Tracked(source), walk)
        ensures Accepts(lib, Stage(lib, source, m), walk, m) <==> AreKept(lib, source, m, walk)
      {
        PortableIsAccepted(lib, source, m, walk);
      }
    }
  }

  lemma PortableIsAccepted(lib: Library, source: Tree, m: Manifest, walk: seq<Path>)
    requires IsTree(source) && CanCreate(Tracked(source), MANIFEST_PATH)
    requires IsManifestOf(lib, Tracked(source), m) && IsHeader(lib, m.header)
    requires lib.read(lib.write(m)) == Some(m)
    requires IsPortable(lib.fold, Stage(lib, source, m)) && IsWalkOf(Tracked(source), walk)
    ensures Accepts(lib, Stage(lib, source, m), walk, m) <==> AreKept(lib, source, m, walk)
  {
    PortableIsBackedUp(lib, source, m);
    hide IsBackedUp, IsManifestOf, IsHeader, Tracked, IsPortable, Accepts, Databases, AreWhole, Stage, Landed, LandApart;
    hide IsListing, CanCreate, IsTree, Restored;
    AcceptedOnWalk(lib, source, m, walk);
  }

  lemma PortableIsBackedUp(lib: Library, source: Tree, m: Manifest)
    requires IsTree(source) && CanCreate(Tracked(source), MANIFEST_PATH)
    requires IsManifestOf(lib, Tracked(source), m) && IsHeader(lib, m.header)
    requires lib.read(lib.write(m)) == Some(m)
    requires IsPortable(lib.fold, Stage(lib, source, m))
    ensures IsBackedUp(lib, source, m) && LandApart(Stage(lib, source, m))
    ensures Landed(Stage(lib, source, m)) == Stage(lib, source, m)
    ensures Restored(lib, source, m) == Tracked(source)
  {
    hide IsTree, IsManifestOf, IsHeader, Tracked, IsPortable, IsRestorable, Stage, IsIncluded, Landed, LandApart, CanCreate;
    StageIsTree(lib, source, m);
    StageIsIncluded(lib, source, m);
    PortableExactly(lib.fold, Stage(lib, source, m));
  }

  // ---------------------------------------------------------------- acceptance and walks

  // A backup that can be restored, and whose receipts and tombstones read the same there.
  ghost predicate IsBackedUp(lib: Library, source: Tree, m: Manifest) {
    && IsTree(source) && CanCreate(Tracked(source), MANIFEST_PATH)
    && IsManifestOf(lib, Tracked(source), m) && IsHeader(lib, m.header)
    && lib.read(lib.write(m)) == Some(m)
    && IsRestorable(lib.fold, Stage(lib, source, m)) && LandApart(Stage(lib, source, m))
    && lib.summary(Restored(lib, source, m)) == lib.summary(Tracked(source))
  }

  // The included files where they land.
  ghost function Restored(lib: Library, source: Tree, m: Manifest): Tree
    requires LandApart(Stage(lib, source, m))
  {
    Tracked(Landed(Stage(lib, source, m)))
  }

  lemma LandingIsStable(p: Path)
    ensures Landing(Landing(p)) == Landing(p)
  {
    hide Split, Posix;
    var raw := Map(Slashed, Posix(p));
    SlashedPlain(Posix(p));
    PosixOfSplit(raw);
    SlashedPlain(raw);
  }

  // A file that is there before and after is the same file.
  lemma StayingContents(tree: Tree)
    requires LandApart(tree)
    ensures forall p :: p in tree && p in Landed(tree) ==> Landed(tree)[p] == tree[p]
  {
    hide Landing, Landed, LandApart;
    forall p | p in tree && p in Landed(tree) ensures Landed(tree)[p] == tree[p] {
      var q := LandedFrom(tree, p);
      LandingIsStable(q);
      SameLanding(tree, p, q);
    }
  }

  lemma SameLanding(tree: Tree, p: Path, q: Path)
    requires LandApart(tree) && p in tree && q in tree && Landing(p) == Landing(q)
    ensures p == q
  {
    hide Landing;
  }

  lemma LandedPathsAreSafe(fold: string -> string, tree: Tree)
    requires IsRestorable(fold, tree) && LandApart(tree)
    ensures HaveFilePaths(Landed(tree)) && IsPlainTree(Landed(tree))
    ensures forall q :: q in Landed(tree) ==> SafeRelative(fold, Posix(q)) == Some(q)
  {
    hide IsRestorable, Landing, Landed, LandApart, IsSafePath, IsFilePath, SafeRelative, Posix;
    forall q | q in Landed(tree) ensures IsFilePath(q) && SafeRelative(fold, Posix(q)) == Some(q) {
      var p := LandedFrom(tree, q);
      SafeLanding(fold, tree, p);
      SafePathIsFilePath(fold, q);
      SafeRelativeOfPosix(fold, q);
    }
    forall q, r | q in Landed(tree) && r in Landed(tree) && q <= r ensures q == r {
      var p := LandedFrom(tree, q);
      var o := LandedFrom(tree, r);
      ApartLandings(fold, tree, p, o);
    }
  }

  lemma SafeLanding(fold: string -> string, tree: Tree, p: Path)
    requires IsRestorable(fold, tree) && p in tree
    ensures IsSafePath(fold, Landing(p))
  {
    hide IsSafePath, Landing, LandsSafely;
    LandingIsSafe(fold, p);
  }

  lemma ApartLandings(fold: string -> string, tree: Tree, p: Path, q: Path)
    requires IsRestorable(fold, tree) && p in tree && q in tree && Landing(p) <= Landing(q)
    ensures p == q
  {
    hide Landing, LandsSafely, Alias;
  }

  lemma RestoredFacts(lib: Library, source: Tree, m: Manifest)
    requires IsBackedUp(lib, source, m)
    ensures LandApart(Tracked(source)) && Restored(lib, source, m) == Landed(Tracked(source))
    ensures HaveFilePaths(Tracked(source)) && HaveFilePaths(Restored(lib, source, m))
    ensures IsPlainTree(Tracked(source)) && IsPlainTree(Restored(lib, source, m))
    ensures forall p :: p in Tracked(source) && p in Restored(lib, source, m) ==>
      Restored(lib, source, m)[p] == Tracked(source)[p]
    ensures forall q :: q in Restored(lib, source, m) ==>
      && q in Landed(Stage(lib, source, m)) && Landed(Stage(lib, source, m))[q] == Restored(lib, source, m)[q]
      && SafeRelative(lib.fold, Posix(q)) == Some(q)
  {
    hide IsManifestOf, IsHeader, Landed, LandApart, Stage, IsRestorable, SafeRelative, Posix, CanCreate;
    LandedStage(lib, source, m);
    TrackedIsTree(source);
    StayingContents(Tracked(source));
    LandedPathsAreSafe(lib.fold, Tracked(source));
    TrackedIsPlain(Landed(Stage(lib, source, m)));
  }

  lemma TrackedIsPlain(tree: Tree)
    ensures forall p :: p in Tracked(tree) ==> p in tree && tree[p] == Tracked(tree)[p]
  {
  }

  // A restored backup is accepted exactly on the walks that list its databases as the manifest does,
  // when they are intact.
  lemma AcceptedOnWalk(lib: Library, source: Tree, m: Manifest, walk: seq<Path>)
    requires IsBackedUp(lib, source, m) && IsWalkOf(Restored(lib, source, m), walk)
    ensures Accepts(lib, Landed(Stage(lib, source, m)), walk, m) <==>
      AreWhole(lib, Restored(lib, source, m)) && Databases(lib, Restored(lib, source, m), walk) == Some(m.databases)
  {
    RestoredFacts(lib, source, m);
    hide IsManifestOf, IsHeader, Landed, LandApart, Stage, IsRestorable, SafeRelative, Posix, CanCreate, IsTree, Tracked;
    hide IsListing, Databases, AreIntact, AreWhole, Matches, HaveFilePaths, IsPlainTree;
    MatchesExactly(lib, source, m);
    if Databases(lib, Restored(lib, source, m), walk) == Some(m.databases) {
      ListedAreIntact(lib, Restored(lib, source, m), Landed(Stage(lib, source, m)), walk, m.databases);
    }
  }

  lemma AcceptedInOrder(lib: Library, source: Tree, m: Manifest, first: seq<Path>, walk: seq<Path>)
    requires IsBackedUp(lib, source, m) && IsWalkOf(Restored(lib, source, m), walk)
    requires IsWalkOf(Tracked(source), first) && Databases(lib, Tracked(source), first) == Some(m.databases)
    ensures Accepts(lib, Landed(Stage(lib, source, m)), walk, m) <==>
      && AreWhole(lib, Restored(lib, source, m))
      && DatabasePaths(lib, Restored(lib, source, m), walk) == DatabasePaths(lib, Tracked(source), first)
  {
    AcceptedOnWalk(lib, source, m, walk);
    RestoredFacts(lib, source, m);
    hide IsBackedUp, Restored, Accepts, Landed, Stage, LandApart, AreWhole, Databases, HaveFilePaths, IsPlainTree, Tracked;
    ListsShowOrder(lib, Tracked(source), first, Restored(lib, source, m), walk);
  }

  // A restored backup is accepted on some walk exactly when its databases are intact and are those of
  // the source, none moved.
  lemma SomeWalkAccepts(lib: Library, source: Tree, m: Manifest)
    requires IsBackedUp(lib, source, m)
    ensures (exists walk :: IsWalkOf(Restored(lib, source, m), walk) && Accepts(lib, Landed(Stage(lib, source, m)), walk, m))
       <==> AreWhole(lib, Restored(lib, source, m))
            && HaveSameDatabases(lib, Tracked(source), Restored(lib, source, m))
  {
    var first := ManifestWalk(lib, source, m);
    RestoredFacts(lib, source, m);
    hide IsBackedUp, Restored, Accepts, Landed, Stage, LandApart, AreWhole, Databases, HaveFilePaths, Tracked, IsWalk,
      HaveSameDatabases, DatabasePaths, IsPlainTree;
    if walk :| IsWalkOf(Restored(lib, source, m), walk) && Accepts(lib, Landed(Stage(lib, source, m)), walk, m) {
      AcceptedInOrder(lib, source, m, first, walk);
      SameOrderSameDatabases(lib, Tracked(source), first, Restored(lib, source, m), walk);
    }
    if AreWhole(lib, Restored(lib, source, m)) && HaveSameDatabases(lib, Tracked(source), Restored(lib, source, m)) {
      var walk := WalkInOrder(lib, Tracked(source), first, Restored(lib, source, m));
      AcceptedInOrder(lib, source, m, first, walk);
    }
  }

  // It is accepted on every walk exactly when moreover of any two databases one lies in a directory
  // beside the other.
  lemma EveryWalkAccepts(lib: Library, source: Tree, m: Manifest)
    requires IsBackedUp(lib, source, m)
    ensures (forall walk :: IsWalkOf(Restored(lib, source, m), walk) ==> Accepts(lib, Landed(Stage(lib, source, m)), walk, m))
       <==> AreWhole(lib, Restored(lib, source, m))
            && HaveSameDatabases(lib, Tracked(source), Restored(lib, source, m))
            && AreStacked(lib, Restored(lib, source, m))
  {
    var first := ManifestWalk(lib, source, m);
    RestoredFacts(lib, source, m);
    var any := SomeWalk(Restored(lib, source, m));
    hide IsBackedUp, Restored, Accepts, Landed, Stage, LandApart, AreWhole, Databases, HaveFilePaths, Tracked, IsWalkOf,
      HaveSameDatabases, DatabasePaths, AreStacked;
    forall walk | IsWalkOf(Restored(lib, source, m), walk)
      ensures Accepts(lib, Landed(Stage(lib, source, m)), walk, m) <==>
        && AreWhole(lib, Restored(lib, source, m))
        && DatabasePaths(lib, Restored(lib, source, m), walk) == DatabasePaths(lib, Tracked(source), first)
    {
      AcceptedInOrder(lib, source, m, first, walk);
    }
    SomeWalkAccepts(lib, source, m);
    OrderMatters(lib, Restored(lib, source, m), any);
    if HaveSameDatabases(lib, Tracked(source), Restored(lib, source, m)) {
      var follows := WalkInOrder(lib, Tracked(source), first, Restored(lib, source, m));
    }
  }

  lemma SomeWalk(tree: Tree) returns (walk: seq<Path>)
    ensures IsWalkOf(tree, walk)
  {
    hide IsWalk, WalkLe;
    var listing := ListingOf(tree);
    AlphabeticIsOrder(true);
    SortedWalk(tree, listing, Alphabetic(true));
    walk := Sort(Ordered(Alphabetic(true)), listing);
  }

  lemma ManifestWalk(lib: Library, source: Tree, m: Manifest) returns (walk: seq<Path>)
    requires IsManifestOf(lib, Tracked(source), m)
    ensures IsWalkOf(Tracked(source), walk) && Databases(lib, Tracked(source), walk) == Some(m.databases)
  {
    hide Databases, Records;
    walk :| IsWalkOf(Tracked(source), walk) && Databases(lib, Tracked(source), walk) == Some(m.databases);
  }

  lemma TrackedIsTree(source: Tree)
    requires IsTree(source)
    ensures HaveFilePaths(Tracked(source)) && IsPlainTree(Tracked(source))
  {
    hide IsFilePath;
  }

  // A file whose name holds a backslash is never restored as it was.
  lemma BackslashIsNotPortable(fold: string -> string, stage: Tree, p: Path, part: nat)
    requires p in stage && part < |p| && '\\' in p[part]
    ensures !IsPortable(fold, stage)
  {
    assert !IsSafePath(fold, p) by {
      assert !IsPlainName(p[part]);
    }
  }

  // ---------------------------------------------------------------- verifying an archive

  lemma ExtractedIsTree(fold: string -> string, entries: seq<Entry>)
    requires AreMembers(fold, entries) && FilesNest(fold, entries)
    ensures IsTree(Extracted(fold, entries))
  {
    hide PathOf, SafeRelative, IsFilePath, IsSafePath, IsDirectoryName, Extracted;
    forall p | p in Extracted(fold, entries) ensures IsFilePath(p) {
      var i := MemberAt(fold, entries, p);
      SafeRelativeIsSafe(fold, MemberName(entries[i]));
      SafePathIsFilePath(fold, p);
    }
    forall p, q | p in Extracted(fold, entries) && q in Extracted(fold, entries) && p <= q ensures p == q {
      var i := MemberAt(fold, entries, p);
      var j := MemberAt(fold, entries, q);
      assert Clash(fold, entries[i], entries[j]);
    }
  }

  lemma MemberAt(fold: string -> string, entries: seq<Entry>, p: Path) returns (i: nat)
    requires AreMembers(fold, entries) && p in Extracted(fold, entries)
    ensures i < |entries| && IsFileAt(fold, entries[i], p) && MemberPath(fold, entries[i]) == Some(p)
  {
    hide MemberPath, IsDirectoryName, Extracted;
    ExtractedPaths(fold, entries, p);
    i :| 0 <= i < |entries| && IsFileAt(fold, entries[i], p);
    assert IsMember(fold, entries[i]);
  }

  // verify_archive: extracts into a fresh directory and verifies what is there, on a walk of its own.
  method VerifyArchive(lib: Library, entries: seq<Entry>) returns (r: Option<Manifest>, ghost walk: seq<Path>)
    ensures Extractable(lib.fold, entries) && (exists m :: Matches(lib, Extracted(lib.fold, entries), m)) ==>
      IsWalkOf(Tracked(Extracted(lib.fold, entries)), walk)
    ensures r.Some? ==> Extractable(lib.fold, entries) && Accepts(lib, Extracted(lib.fold, entries), walk, r.value)
    ensures r.None? ==> !Extractable(lib.fold, entries) || forall m :: !Accepts(lib, Extracted(lib.fold, entries), walk, m)
  {
    hide Accepts, Matches, Extracted, AreMembers, FilesNest;
    var stage := new Directory();
    var ok := ExtractSafe(lib.fold, entries, stage);
    if !ok {
      return None, [];
    }
    ExtractedIsTree(lib.fold, entries);
    r, walk := VerifyExpanded(lib, stage.files);
  }

  // All staged files can be restored within the limits, and receipts and tombstones read the same there.
  ghost predicate IsPublishable(lib: Library, source: Tree, m: Manifest, entries: seq<Entry>) {
    && IsHeader(lib, m.header)
    && Resources(entries)
    && IsRestorable(lib.fold, Stage(lib, source, m)) && LandApart(Stage(lib, source, m))
    && lib.summary(Tracked(Landed(Stage(lib, source, m)))) == lib.summary(Tracked(source))
  }

  // The databases are listed in the restored files as in the manifest, and are intact.
  ghost predicate KeepsDatabases(lib: Library, stage: Tree, m: Manifest, walk: seq<Path>) {
    && LandApart(stage)
    && Databases(lib, Tracked(Landed(stage)), walk) == Some(m.databases)
    && AreIntact(lib, Landed(stage), m.databases)
  }

  lemma PublishableExactly(lib: Library, source: Tree, m: Manifest, order: seq<Path>, entries: seq<Entry>)
    requires IsTree(source) && CanCreate(Tracked(source), MANIFEST_PATH)
    requires IsManifestOf(lib, Tracked(source), m) && lib.read(lib.write(m)) == Some(m)
    requires IsArchiveOf(Stage(lib, source, m), order, entries)
    ensures Extractable(lib.fold, entries) && Matches(lib, Extracted(lib.fold, entries), m)
       <==> IsPublishable(lib, source, m, entries)
    ensures Extractable(lib.fold, entries) ==>
      LandApart(Stage(lib, source, m)) && Extracted(lib.fold, entries) == Landed(Stage(lib, source, m))
  {
    hide IsTree, IsManifestOf, IsHeader, Tracked, IsRestorable, Matches, Resources, Landed, LandApart;
    hide IsArchiveOf, Stage, Extracted, Extractable;
    StageIsTree(lib, source, m);
    ExtractableExactly(lib.fold, Stage(lib, source, m), order, entries);
    if Extractable(lib.fold, entries) {
      ExtractedIsLanded(lib.fold, Stage(lib, source, m), order, entries);
      MatchesExactly(lib, source, m);
    }
  }

  // Only the manifest that was archived can match.
  lemma MatchIsArchived(lib: Library, source: Tree, m: Manifest, order: seq<Path>, entries: seq<Entry>, accepted: Manifest)
    requires IsTree(source) && CanCreate(Tracked(source), MANIFEST_PATH)
    requires lib.read(lib.write(m)) == Some(m)
    requires IsArchiveOf(Stage(lib, source, m), order, entries)
    requires Extractable(lib.fold, entries) && Matches(lib, Extracted(lib.fold, entries), accepted)
    ensures accepted == m
  {
    hide IsTree, IsArchiveOf, Tracked, IsRestorable, Resources, Extracted, Extractable, IsHeader, Holds, IsRecorded;
    StageIsTree(lib, source, m);
    ExtractableExactly(lib.fold, Stage(lib, source, m), order, entries);
    ExtractedIsLanded(lib.fold, Stage(lib, source, m), order, entries);
    LandedStage(lib, source, m);
  }

  // make_archive with its final verification: what is published can be extracted and is accepted, and
  // a source is published exactly when it can be, on the order of the walk of the restored files.
  method Backup(lib: Library, source: Tree, header: Header, compress: string -> nat)
    returns (ok: bool, m: Manifest, entries: seq<Entry>, ghost walk: seq<Path>)
    requires IsTree(source)
    ensures ok ==> CanCreate(Tracked(source), MANIFEST_PATH) && IsDescribable(lib, Tracked(source))
    ensures ok ==> Extractable(lib.fold, entries)
    ensures ok ==> exists accepted :: Accepts(lib, Extracted(lib.fold, entries), walk, accepted)
    ensures CanCreate(Tracked(source), MANIFEST_PATH) && IsDescribable(lib, Tracked(source)) ==>
      && m.header == header && IsManifestOf(lib, Tracked(source), m)
      && exists order :: IsArchiveOf(Stage(lib, source, m), order, entries)
    ensures forall i :: 0 <= i < |entries| ==> IsDeflated(compress, entries[i]) && IsKeptName(entries[i].name)
    ensures
      && CanCreate(Tracked(source), MANIFEST_PATH) && IsDescribable(lib, Tracked(source))
      && lib.read(lib.write(m)) == Some(m)
      ==>
      && (ok <==> IsPublishable(lib, source, m, entries) && KeepsDatabases(lib, Stage(lib, source, m), m, walk))
      && (IsPublishable(lib, source, m, entries) ==> IsWalkOf(Tracked(Landed(Stage(lib, source, m))), walk))
  {
    hide Accepts, Matches, Extracted, IsManifestOf, IsDescribable, IsPublishable, KeepsDatabases, LandApart;
    hide Resources, IsHeader, Stage, IsArchiveOf, Extractable, IsTree, IsWalkOf, Tracked, Landed;
    var archive, order := MakeArchive(lib, source, header, compress);
    if archive.None? {
      return false, Manifest(header, [], [], ""), [], [];
    }
    m, entries := archive.value.0, archive.value.1;
    var verified;
    verified, walk := VerifyArchive(lib, entries);
    ok := verified.Some?;
    if lib.read(lib.write(m)) == Some(m) {
      PublishableExactly(lib, source, m, order, entries);
      if Extractable(lib.fold, entries) {
        AcceptedParts(lib, source, m, order, entries, walk);
      }
    }
  }

  lemma AcceptedParts(lib: Library, source: Tree, m: Manifest, order: seq<Path>, entries: seq<Entry>, walk: seq<Path>)
    requires IsTree(source) && CanCreate(Tracked(source), MANIFEST_PATH)
    requires lib.read(lib.write(m)) == Some(m)
    requires IsArchiveOf(Stage(lib, source, m), order, entries) && Extractable(lib.fold, entries)
    requires LandApart(Stage(lib, source, m)) && Extracted(lib.fold, entries) == Landed(Stage(lib, source, m))
    ensures forall accepted | Accepts(lib, Extracted(lib.fold, entries), walk, accepted) :: accepted == m
    ensures Accepts(lib, Extracted(lib.fold, entries), walk, m) <==>
      Matches(lib, Extracted(lib.fold, entries), m) && KeepsDatabases(lib, Stage(lib, source, m), m, walk)
  {
    hide Matches, Extracted, LandApart, Stage, IsArchiveOf, Extractable, IsTree, Tracked, Landed, Databases, AreIntact;
    forall accepted | Accepts(lib, Extracted(lib.fold, entries), walk, accepted) ensures accepted == m {
      MatchIsArchived(lib, source, m, order, entries, accepted);
    }
  }
}
