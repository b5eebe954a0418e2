// Two small backups, for every library that agrees with them on the few names they use: a backslash in
// a file name, and two databases in one directory.
module ArchiveSamples {
  import opened Wrappers
  import opened Ordering
  import opened ArchivePaths
  import opened ArchiveWalk
  import opened Archive
  import opened ArchiveRestore
  import opened ArchiveVerify
  import opened ArchiveDatabases
  import opened ArchiveRoundTrip

  // ---------------------------------------------------------------- safe names

  predicate IsLowerName(s: string) {
    forall i :: 0 <= i < |s| ==> 'a' <= s[i] <= 'z' || s[i] in "-."
  }

  // Names of lower-case ASCII letters, hyphens and dots are their own folding.
  ghost predicate FoldsLowerCase(fold: string -> string) {
    forall s {:trigger fold(s)} :: IsLowerName(s) ==> fold(s) == s
  }

  lemma {:induction false} StemBeforeDot(a: string, rest: string)
    requires '.' !in a
    ensures Stem(a + "." + rest) == a
  {
    var s := a + "." + rest;
    if a != "" {
      assert '.' !in a[1..];
      StemBeforeDot(a[1..], rest);
      assert s[1..] == a[1..] + "." + rest;
      assert s[0] == a[0] && a[0] in a;
    }
  }

  lemma {:induction false} StemWithoutDot(a: string)
    requires '.' !in a
    ensures Stem(a) == a
  {
    if a != "" {
      assert '.' !in a[1..];
      StemWithoutDot(a[1..]);
      assert a[0] in a;
    }
  }

  lemma LongIsNotReserved(stem: string)
    requires |stem| > 4
    ensures stem !in RESERVED_NAMES
  {
    assert forall k :: 0 <= k < |RESERVED_NAMES| ==> |RESERVED_NAMES[k]| <= 4;
  }

  lemma LetterIsSafe(fold: string -> string, part: string)
    requires FoldsLowerCase(fold) && (part == "a" || part == "b")
    ensures IsSafePart(fold, part) && AliasPart(fold, part) == part && IsPlainName(part)
  {
    StemWithoutDot(part);
    assert IsLowerName(part);
    hide Stem;
  }

  lemma LongStemIsSafe(fold: string -> string, stem: string, name: string)
    requires Stem(name) == stem && |stem| > 4 && |name| > 4 && ':' !in name && name[|name| - 1] !in " ."
    requires fold(stem) == stem && fold(name) == name
    ensures IsSafePart(fold, name) && AliasPart(fold, name) == name
  {
    hide Stem;
    hide RESERVED_NAMES;
    LongIsNotReserved(stem);
  }

  lemma ManifestIsSafe(fold: string -> string)
    requires FoldsLowerCase(fold)
    ensures IsSafePart(fold, MANIFEST_NAME) && AliasPart(fold, MANIFEST_NAME) == MANIFEST_NAME
  {
    hide Stem, IsSafePart, RStrip, AliasPart;
    assert MANIFEST_NAME == "backup-manifest" + "." + "json";
    StemBeforeDot("backup-manifest", "json");
    assert IsLowerName("backup-manifest") && IsLowerName(MANIFEST_NAME);
    LongStemIsSafe(fold, "backup-manifest", MANIFEST_NAME);
  }

  lemma AliasOfTwo(fold: string -> string, p: string, q: string)
    requires AliasPart(fold, p) == p && AliasPart(fold, q) == q
    ensures Alias(fold, [p]) == p && Alias(fold, [p, q]) == p + "/" + q
  {
    hide AliasPart;
    assert Map(part => AliasPart(fold, part), [p]) == [p];
    assert Map(part => AliasPart(fold, part), [p, q]) == [p, q];
    assert Posix([q]) == q;
    assert Posix([p, q]) == p + "/" + Posix([p, q][1..]);
  }

  lemma OneNameIsSafe(fold: string -> string, name: string)
    requires IsSafePart(fold, name) && IsPlainName(name) && AliasPart(fold, name) == name
    ensures IsSafePath(fold, [name]) && Alias(fold, [name]) == name
  {
    hide IsSafePart, IsPlainName, AliasPart, Alias;
    AliasOfTwo(fold, name, name);
  }

  lemma LettersAreSafe(fold: string -> string)
    requires FoldsLowerCase(fold)
    ensures IsSafePath(fold, ["a"]) && Alias(fold, ["a"]) == "a"
    ensures IsSafePath(fold, ["b"]) && Alias(fold, ["b"]) == "b"
  {
    LetterIsSafe(fold, "a");
    LetterIsSafe(fold, "b");
    hide IsSafePath, IsSafePart, AliasPart, Alias, IsPlainName, FoldsLowerCase;
    OneNameIsSafe(fold, "a");
    OneNameIsSafe(fold, "b");
  }

  lemma ManifestIsPlain()
    ensures IsPlainName(MANIFEST_NAME)
  {
  }

  lemma ManifestNameIsSafe(fold: string -> string)
    requires FoldsLowerCase(fold)
    ensures IsSafePath(fold, MANIFEST_PATH) && Alias(fold, MANIFEST_PATH) == MANIFEST_NAME
  {
    ManifestIsSafe(fold);
    ManifestIsPlain();
    hide *;
    hide MANIFEST_NAME;
    OneNameIsSafe(fold, MANIFEST_NAME);
  }

  // ---------------------------------------------------------------- a backslash in a file name

  const NAME := "a\\b"
  const FILE: Path := [NAME]
  const SOURCE: Tree := map[FILE := "x"]
  const RESTORED: Tree := map[["a", "b"] := "x"]

  function ManifestOf(lib: Library, header: Header): Manifest {
    Manifest(header, [RecordOf(lib, SOURCE, FILE)], [], if lib.summary(SOURCE).Some? then lib.summary(SOURCE).value else "")
  }

  function StageOf(lib: Library, header: Header): Tree {
    Stage(lib, SOURCE, ManifestOf(lib, header))
  }

  // The one file is no database and no receipt under either name, the manifest is read as it was
  // written and not too large, and nothing is compressed beyond the permitted ratio.
  ghost predicate SuitsBackslash(lib: Library, header: Header, compress: string -> nat) {
    && FoldsLowerCase(lib.fold) && IsHeader(lib, header)
    && !lib.isDatabase(FILE, "x") && !lib.isDatabase(["a", "b"], "x")
    && lib.summary(SOURCE).Some? && lib.summary(RESTORED) == lib.summary(SOURCE)
    && lib.read(lib.write(ManifestOf(lib, header))) == Some(ManifestOf(lib, header))
    && |lib.write(ManifestOf(lib, header))| <= MAX_ARCHIVE_ENTRY_UNCOMPRESSED_BYTES
    && forall data {:trigger compress(data)} :: |data| <= compress(data) * MAX_ARCHIVE_COMPRESSION_RATIO
  }

  lemma FileLands()
    ensures Landing(FILE) == ["a", "b"]
  {
    hide Split;
    assert Posix(FILE) == NAME;
    assert Map(Slashed, NAME) == "a" + "/" + "b";
    SplitOfName("a", "b");
    SplitOfName("b", "");
    assert ["a"] + ["b"] == ["a", "b"];
  }

  lemma SourceIsTracked()
    ensures IsTree(SOURCE) && Tracked(SOURCE) == SOURCE && CanCreate(SOURCE, MANIFEST_PATH)
  {
    assert FILE[0] == NAME && |NAME| == 3;
    assert FILE != MANIFEST_PATH;
    assert NAME !in EXCLUDED_TOP_LEVEL;
  }

  lemma FileLandsSafely(fold: string -> string)
    requires FoldsLowerCase(fold)
    ensures LandsSafely(fold, FILE)
  {
    FileLands();
    LetterIsSafe(fold, "a");
    LetterIsSafe(fold, "b");
    hide IsSafePart, Split, FoldsLowerCase;
    assert Posix(FILE) == NAME;
    assert Map(Slashed, NAME)[0] == 'a';
    assert "a" !in EXCLUDED_TOP_LEVEL;
  }

  lemma SafePathLands(fold: string -> string, p: Path)
    requires IsSafePath(fold, p) && IsIncluded(p)
    ensures LandsSafely(fold, p) && Landing(p) == p
  {
    hide IsSafePath, IsIncluded, SafeRelative, Landing, Posix;
    SafeRelativeOfPosix(fold, p);
    LandingIsRead(fold, p);
  }

  lemma ManifestLandsSafely(fold: string -> string)
    requires FoldsLowerCase(fold)
    ensures LandsSafely(fold, MANIFEST_PATH) && Landing(MANIFEST_PATH) == MANIFEST_PATH
  {
    hide LandsSafely, Landing, IsSafePath, FoldsLowerCase;
    ManifestNameIsSafe(fold);
    SafePathLands(fold, MANIFEST_PATH);
  }

  lemma AliasesAreApart(fold: string -> string)
    requires FoldsLowerCase(fold)
    ensures Alias(fold, ["a", "b"]) == "a/b" && Alias(fold, MANIFEST_PATH) == MANIFEST_NAME
  {
    LetterIsSafe(fold, "a");
    LetterIsSafe(fold, "b");
    ManifestNameIsSafe(fold);
    hide IsSafePart, IsSafePath, AliasPart, Alias, FoldsLowerCase, IsPlainName;
    AliasOfTwo(fold, "a", "b");
  }

  lemma TwoAreRestorable(fold: string -> string, stage: Tree, p: Path, q: Path)
    requires forall x :: x in stage <==> x == p || x == q
    requires LandsSafely(fold, p) && LandsSafely(fold, q)
    requires Alias(fold, Landing(p)) != Alias(fold, Landing(q))
    requires !(Landing(p) <= Landing(q)) && !(Landing(q) <= Landing(p))
    ensures IsRestorable(fold, stage)
  {
    hide LandsSafely, Landing, Alias;
  }

  lemma StageHoldsTwo(lib: Library, header: Header)
    ensures forall p :: p in StageOf(lib, header) <==> p == FILE || p == MANIFEST_PATH
    ensures IsTree(StageOf(lib, header))
    ensures StageOf(lib, header)[FILE] == "x"
    ensures StageOf(lib, header)[MANIFEST_PATH] == lib.write(ManifestOf(lib, header))
  {
    SourceIsTracked();
    assert FILE != MANIFEST_PATH by {
      assert |NAME| == 3 && |MANIFEST_NAME| == 20;
    }
    hide Tracked, CanCreate, IsTree, ManifestOf;
    StageIsTree(lib, SOURCE, ManifestOf(lib, header));
  }

  lemma StageIsRestorable(lib: Library, header: Header)
    requires FoldsLowerCase(lib.fold)
    ensures IsRestorable(lib.fold, StageOf(lib, header)) && LandApart(StageOf(lib, header))
    ensures Tracked(Landed(StageOf(lib, header))) == RESTORED
  {
    FileLands();
    FileLandsSafely(lib.fold);
    ManifestLandsSafely(lib.fold);
    AliasesAreApart(lib.fold);
    assert |MANIFEST_NAME| == 20 && |"a/b"| == 3;
    StageHoldsTwo(lib, header);
    SourceIsTracked();
    SourceLands();
    hide LandsSafely, Landing, Alias, Landed, LandApart, Tracked, Stage, IsTree, IsRestorable, ManifestOf, CanCreate;
    hide SOURCE, RESTORED;
    TwoAreRestorable(lib.fold, StageOf(lib, header), FILE, MANIFEST_PATH);
    LandedStage(lib, SOURCE, ManifestOf(lib, header));
  }

  lemma SourceLands()
    ensures LandApart(SOURCE) && Landed(SOURCE) == RESTORED && RESTORED != SOURCE
  {
    FileLands();
    hide Landing;
    assert |FILE| != |["a", "b"]|;
    assert FILE in SOURCE;
  }

  lemma OneOrTwo<T>(xs: seq<T>, x: T, y: T)
    requires Distinct(xs) && forall z :: z in xs <==> z == x || z == y
    ensures |xs| <= 2
    ensures x == y ==> xs == [x]
  {
    assert x in xs;
    assert xs[0] in xs && xs[|xs| - 1] in xs;
    if |xs| >= 2 {
      assert xs[|xs| - 2] in xs;
    }
  }

  lemma NoDatabase(lib: Library, tree: Tree, p: Path, walk: seq<Path>)
    requires (forall q :: q in tree <==> q == p) && !lib.isDatabase(p, tree[p]) && IsListing(tree, walk)
    ensures Databases(lib, tree, walk) == Some([])
  {
    OneOrTwo(walk, p, p);
    assert !IsDatabase(lib, tree, p);
    assert [p][..0] == [];
    assert DatabasePaths(lib, tree, []) == [];
    assert DatabasePaths(lib, tree, [p]) == [];
  }

  lemma OnlyManifest(lib: Library, header: Header, m: Manifest)
    requires !lib.isDatabase(FILE, "x")
    requires IsManifestOf(lib, SOURCE, m) && m.header == header
    ensures m == ManifestOf(lib, header)
  {
    hide Databases, RecordOf;
    var order :| IsListing(SOURCE, order) && m.files == Records(lib, SOURCE, order);
    OneOrTwo(order, FILE, FILE);
    var walk :| IsWalkOf(SOURCE, walk) && Databases(lib, SOURCE, walk) == Some(m.databases);
    NoDatabase(lib, SOURCE, FILE, walk);
  }

  lemma {:induction false} TotalOfSmall(entries: seq<Entry>, each: nat)
    requires forall i :: 0 <= i < |entries| ==> entries[i].declaredSize <= each
    ensures TotalSize(entries) <= |entries| * each
  {
    if entries != [] {
      TotalOfSmall(entries[..|entries| - 1], each);
      assert |entries| * each == (|entries| - 1) * each + each;
    }
  }

  lemma SmallEntry(stage: Tree, compress: string -> nat, p: Path, e: Entry)
    requires IsTree(stage) && IsEntryFor(stage, p, e) && IsDeflated(compress, e)
    requires |stage[p]| <= MAX_ARCHIVE_ENTRY_UNCOMPRESSED_BYTES
    requires forall data {:trigger compress(data)} :: |data| <= compress(data) * MAX_ARCHIVE_COMPRESSION_RATIO
    ensures IsAffordable(e) && e.declaredSize <= MAX_ARCHIVE_ENTRY_UNCOMPRESSED_BYTES
  {
    hide IsDirectoryName, Posix, IsFilePath;
    EntryLanding(s => s, stage, p, e);
    assert e.declaredSize <= compress(e.content.data) * MAX_ARCHIVE_COMPRESSION_RATIO;
  }

  lemma SmallArchive(lib: Library, header: Header, compress: string -> nat, order: seq<Path>, entries: seq<Entry>)
    requires SuitsBackslash(lib, header, compress)
    requires IsArchiveOf(StageOf(lib, header), order, entries)
    requires forall i :: 0 <= i < |entries| ==> IsDeflated(compress, entries[i])
    ensures Resources(entries)
  {
    StageHoldsTwo(lib, header);
    hide IsDirectoryName, IsTree, IsDeflated, IsEntryFor, IsAffordable, StageOf, IsHeader, ManifestOf, FoldsLowerCase;
    OneOrTwo(order, FILE, MANIFEST_PATH);
    forall i | 0 <= i < |entries|
      ensures IsAffordable(entries[i]) && entries[i].declaredSize <= MAX_ARCHIVE_ENTRY_UNCOMPRESSED_BYTES
    {
      assert order[i] in order;
      SmallEntry(StageOf(lib, header), compress, order[i], entries[i]);
    }
    TotalOfSmall(entries, MAX_ARCHIVE_ENTRY_UNCOMPRESSED_BYTES);
  }

  lemma IsPublished(lib: Library, header: Header, compress: string -> nat, order: seq<Path>, entries: seq<Entry>)
    requires SuitsBackslash(lib, header, compress)
    requires IsArchiveOf(StageOf(lib, header), order, entries)
    requires forall i :: 0 <= i < |entries| ==> IsDeflated(compress, entries[i])
    ensures IsPublishable(lib, SOURCE, ManifestOf(lib, header), entries)
  {
    SmallArchive(lib, header, compress, order, entries);
    StageIsRestorable(lib, header);
    SourceIsTracked();
    hide IsHeader, Resources, IsRestorable, LandApart, Landed, Tracked, Stage, IsTree, IsArchiveOf, FoldsLowerCase, CanCreate;
    hide SOURCE, RESTORED;
  }

  lemma RestoredHasNone(lib: Library, walk: seq<Path>)
    requires !lib.isDatabase(["a", "b"], "x") && IsListing(RESTORED, walk)
    ensures Databases(lib, RESTORED, walk) == Some([])
  {
    hide Databases;
    NoDatabase(lib, RESTORED, ["a", "b"], walk);
  }

  lemma DatabasesAreKept(lib: Library, header: Header, walk: seq<Path>)
    requires FoldsLowerCase(lib.fold) && !lib.isDatabase(["a", "b"], "x")
    requires LandApart(StageOf(lib, header)) && IsWalkOf(Tracked(Landed(StageOf(lib, header))), walk)
    ensures KeepsDatabases(lib, StageOf(lib, header), ManifestOf(lib, header), walk)
  {
    StageIsRestorable(lib, header);
    hide Landed, Tracked, LandApart, StageOf, IsRestorable, FoldsLowerCase, Databases, IsWalk, IsListing;
    hide RESTORED;
    RestoredHasNone(lib, walk);
  }

  lemma SourceIsDescribable(lib: Library)
    requires lib.summary(SOURCE).Some? && !lib.isDatabase(FILE, "x")
    ensures IsDescribable(lib, SOURCE)
  {
  }

  lemma IsRestoredElsewhere(lib: Library, header: Header, order: seq<Path>, entries: seq<Entry>)
    requires FoldsLowerCase(lib.fold)
    requires IsArchiveOf(StageOf(lib, header), order, entries) && Extractable(lib.fold, entries)
    ensures Tracked(Extracted(lib.fold, entries)) == RESTORED != Tracked(SOURCE)
  {
    StageHoldsTwo(lib, header);
    StageIsRestorable(lib, header);
    SourceIsTracked();
    SourceLands();
    hide Landed, Tracked, Stage, StageOf, IsTree, IsArchiveOf, Extractable, Extracted, IsRestorable, LandApart, CanCreate;
    hide SOURCE, RESTORED;
    ExtractedIsLanded(lib.fold, StageOf(lib, header), order, entries);
  }

  // The backup of a directory holding the file `a\b` is published and accepted, and restores the
  // file `b` in a directory `a`.
  method BackUpBackslash(lib: Library, header: Header, compress: string -> nat)
    returns (ok: bool, m: Manifest, entries: seq<Entry>, ghost walk: seq<Path>)
    requires SuitsBackslash(lib, header, compress)
    ensures ok && m == ManifestOf(lib, header) && Extractable(lib.fold, entries)
    ensures Accepts(lib, Extracted(lib.fold, entries), walk, m)
    ensures Tracked(Extracted(lib.fold, entries)) == RESTORED != Tracked(SOURCE)
  {
    hide Accepts, Extracted, IsManifestOf, IsPublishable, Stage, IsArchiveOf, Extractable, IsTree, Tracked, CanCreate;
    hide KeepsDatabases, IsWalkOf, IsDescribable, Landed, LandApart, IsRestorable, FoldsLowerCase, ManifestOf;
    hide SOURCE, RESTORED;
    SourceIsTracked();
    SourceIsDescribable(lib);
    ok, m, entries, walk := Backup(lib, SOURCE, header, compress);
    OnlyManifest(lib, header, m);
    StageIsRestorable(lib, header);
    ghost var order :| IsArchiveOf(Stage(lib, SOURCE, m), order, entries);
    IsPublished(lib, header, compress, order, entries);
    DatabasesAreKept(lib, header, walk);
    PublishableExactly(lib, SOURCE, m, order, entries);
    IsRestoredElsewhere(lib, header, order, entries);
    AcceptedParts(lib, SOURCE, m, order, entries, walk);
  }

  // ---------------------------------------------------------------- two databases in one directory

  const PAIR: Tree := map[["a"] := "d", ["b"] := "d"]
  const FORTH: seq<Path> := [["a"], ["b"]]
  const BACK: seq<Path> := [["b"], ["a"]]

  function PairManifest(lib: Library, header: Header): Manifest {
    Manifest(header, Records(lib, PAIR, FORTH), Described(lib, PAIR, FORTH),
             if lib.summary(PAIR).Some? then lib.summary(PAIR).value else "")
  }

  // Both files are intact databases, and the manifest is read as it was written.
  ghost predicate SuitsPair(lib: Library, header: Header) {
    && FoldsLowerCase(lib.fold) && IsHeader(lib, header)
    && lib.isDatabase(["a"], "d") && lib.isDatabase(["b"], "d") && lib.schema("d").Some? && lib.isIntact("d")
    && lib.summary(PAIR).Some?
    && lib.read(lib.write(PairManifest(lib, header))) == Some(PairManifest(lib, header))
  }

  lemma PairIsWalked()
    ensures IsWalkOf(PAIR, FORTH) && IsWalkOf(PAIR, BACK)
  {
  }

  lemma PairIsTracked()
    ensures IsTree(PAIR) && Tracked(PAIR) == PAIR && CanCreate(PAIR, MANIFEST_PATH)
    ensures IsWalkOf(PAIR, FORTH) && IsWalkOf(PAIR, BACK)
  {
    PairIsWalked();
    hide IsWalkOf, IsListing, IsWalk;
    hide FORTH, BACK;
    assert "a" !in EXCLUDED_TOP_LEVEL && "b" !in EXCLUDED_TOP_LEVEL;
    assert |MANIFEST_NAME| == 20;
  }

  lemma TwoDatabases(lib: Library, tree: Tree, p: Path, q: Path)
    requires IsDatabase(lib, tree, p) && IsDatabase(lib, tree, q)
    ensures DatabasePaths(lib, tree, [p, q]) == [p, q]
  {
    assert [p, q][..1] == [p] && [p][..0] == [];
    assert DatabasePaths(lib, tree, []) == [];
    assert DatabasePaths(lib, tree, [p]) == [p];
  }

  lemma PairDatabases(lib: Library, header: Header)
    requires SuitsPair(lib, header)
    ensures Databases(lib, PAIR, FORTH) == Some(PairManifest(lib, header).databases)
    ensures Databases(lib, PAIR, BACK) != Databases(lib, PAIR, FORTH)
  {
    assert IsDatabase(lib, PAIR, ["a"]) && IsDatabase(lib, PAIR, ["b"]);
    assert HaveSchemas(lib, PAIR, FORTH) && HaveSchemas(lib, PAIR, BACK);
    TwoDatabases(lib, PAIR, ["a"], ["b"]);
    TwoDatabases(lib, PAIR, ["b"], ["a"]);
    assert Posix(["a"]) == "a" && Posix(["b"]) == "b";
    hide DatabasePaths, HaveSchemas, HasSchema, IsHeader, IsDatabase, FoldsLowerCase, Posix;
    hide PAIR;
    assert Described(lib, PAIR, FORTH)[0].path == "a" && Described(lib, PAIR, BACK)[0].path == "b";
  }

  lemma PairRecords(lib: Library)
    ensures Sorted(RecordLe, Records(lib, PAIR, FORTH))
  {
    assert Posix(["a"]) == "a" && Posix(["b"]) == "b";
    assert LexLe("a", "b");
    hide Posix, LexLe;
  }

  lemma PairIsDescribed(lib: Library, header: Header)
    requires SuitsPair(lib, header)
    ensures IsManifestOf(lib, PAIR, PairManifest(lib, header))
  {
    PairIsTracked();
    PairDatabases(lib, header);
    PairRecords(lib);
    hide Databases, Posix, Tracked, CanCreate, IsTree, IsListing, IsWalk, Sorted, Records, Described, IsHeader;
    hide PAIR, FORTH, BACK;
  }

  lemma PairIsStaged(lib: Library, m: Manifest)
    ensures forall p :: p in Stage(lib, PAIR, m) <==> p == ["a"] || p == ["b"] || p == MANIFEST_PATH
  {
    PairIsTracked();
    hide Tracked, CanCreate, IsTree, IsWalkOf;
  }

  lemma ThreeArePortable(fold: string -> string, stage: Tree, p: Path, q: Path, o: Path)
    requires forall x :: x in stage <==> x == p || x == q || x == o
    requires IsSafePath(fold, p) && IsSafePath(fold, q) && IsSafePath(fold, o)
    requires Alias(fold, p) != Alias(fold, q) && Alias(fold, q) != Alias(fold, o) && Alias(fold, p) != Alias(fold, o)
    ensures IsPortable(fold, stage)
  {
    hide IsSafePath, Alias;
  }

  lemma PairIsPortable(lib: Library, m: Manifest)
    requires FoldsLowerCase(lib.fold)
    ensures IsPortable(lib.fold, Stage(lib, PAIR, m))
  {
    PairIsStaged(lib, m);
    LettersAreSafe(lib.fold);
    ManifestNameIsSafe(lib.fold);
    assert |MANIFEST_NAME| == 20;
    hide *;
    hide PAIR;
    ThreeArePortable(lib.fold, Stage(lib, PAIR, m), ["a"], ["b"], MANIFEST_PATH);
  }

  lemma PairIsWhole(lib: Library, header: Header)
    requires SuitsPair(lib, header)
    ensures AreWhole(lib, PAIR)
  {
  }

  // The restored files of one backup, accepted on one walk of their directory and refused on another.
  lemma OrderDecides(lib: Library, header: Header)
    requires SuitsPair(lib, header)
    ensures var m := PairManifest(lib, header);
      && IsManifestOf(lib, Tracked(PAIR), m) && IsTree(PAIR) && IsPortable(lib.fold, Stage(lib, PAIR, m))
      && IsWalkOf(Tracked(PAIR), FORTH) && IsWalkOf(Tracked(PAIR), BACK)
      && Accepts(lib, Stage(lib, PAIR, m), FORTH, m) && !Accepts(lib, Stage(lib, PAIR, m), BACK, m)
  {
    PairIsTracked();
    PairIsDescribed(lib, header);
    PairIsPortable(lib, PairManifest(lib, header));
    PairDatabases(lib, header);
    PairIsWhole(lib, header);
    hide IsManifestOf, IsTree, IsPortable, Stage, IsWalkOf, Tracked, Accepts, Databases, CanCreate, IsHeader, AreWhole,
      PairManifest, FoldsLowerCase;
    hide PAIR, FORTH, BACK;
    PortableIsAccepted(lib, PAIR, PairManifest(lib, header), FORTH);
    PortableIsAccepted(lib, PAIR, PairManifest(lib, header), BACK);
  }

  // ---------------------------------------------------------------- a library that suits both

  const HEADER := Header(ARCHIVE_SCHEMA, TOOL_SCHEMA, PRODUCT, "/", "1", EXCLUDED_TOP_LEVEL, SECRET_REFERENCES)

  // Names without capitals, no receipts, contents in place of digests, and one manifest. A file
  // with the contents d is an intact database.
  function LibraryFor(m: Manifest): Library {
    Library(
      s => s, s => s, s => s, (s: string) => s == "/",
      (p: Path, s: string) => s == "d", (s: string) => Some("1"), (s: string) => true,
      (tree: Tree) => Some(""), (n: Manifest) => "{}", (s: string) => Some(m))
  }

  const NO_MANIFEST := Manifest(HEADER, [], [], "")

  lemma LibrariesSuit()
    ensures SuitsBackslash(LibraryFor(ManifestOf(LibraryFor(NO_MANIFEST), HEADER)), HEADER, data => |data|)
    ensures SuitsPair(LibraryFor(PairManifest(LibraryFor(NO_MANIFEST), HEADER)), HEADER)
  {
  }
}
