// The SQLite files of a backup: their list keeps the order of a walk, which decides what is accepted.
module ArchiveDatabases {
  import opened Wrappers
  import opened Ordering
  import opened ArchivePaths
  import opened ArchiveWalk
  import opened Archive
  import opened ArchiveVerify

  lemma {:induction false} DatabasePathsMembers(lib: Library, tree: Tree, walk: seq<Path>)
    ensures forall p :: p in DatabasePaths(lib, tree, walk) <==> p in walk && IsDatabase(lib, tree, p)
    ensures Distinct(walk) ==> Distinct(DatabasePaths(lib, tree, walk))
  {
    hide IsDatabase;
    if walk != [] {
      var front := walk[..|walk| - 1];
      assert walk == front + [walk[|walk| - 1]];
      DatabasePathsMembers(lib, tree, front);
    }
  }

  // ---------------------------------------------------------------- one order or another

  lemma {:induction false} DatabasesKeepOrder(lib: Library, tree: Tree, walk: seq<Path>, le: (Path, Path) -> bool)
    requires Sorted(le, walk)
    ensures Sorted(le, DatabasePaths(lib, tree, walk))
  {
    hide IsDatabase;
    if walk != [] {
      var front, last := walk[..|walk| - 1], walk[|walk| - 1];
      DatabasesKeepOrder(lib, tree, front, le);
      DatabasePathsMembers(lib, tree, front);
      var before := DatabasePaths(lib, tree, front);
      forall i | 0 <= i < |before| ensures le(before[i], last) {
        assert before[i] in before;
        var k :| 0 <= k < |front| && front[k] == before[i];
      }
    }
  }

  // Of any two databases one lies in a directory beside the other, so every walk meets that other first.
  ghost predicate AreStacked(lib: Library, tree: Tree) {
    forall p, q :: IsDatabase(lib, tree, p) && IsDatabase(lib, tree, q) && p != q ==> Before(p, q) || Before(q, p)
  }

  lemma StackedAreSorted(lib: Library, tree: Tree, walk: seq<Path>)
    requires IsWalkOf(tree, walk) && AreStacked(lib, tree)
    ensures Sorted(Ordered(Alphabetic(true)), DatabasePaths(lib, tree, walk))
  {
    hide IsDatabase, DatabasePaths, Before, WalkLe;
    DatabasesKeepOrder(lib, tree, walk, (p, q) => !Before(q, p));
    DatabasePathsMembers(lib, tree, walk);
    var paths := DatabasePaths(lib, tree, walk);
    forall i, j | 0 <= i < j < |paths| ensures Ordered(Alphabetic(true))(paths[i], paths[j]) {
      assert paths[i] in paths && paths[j] in paths;
      BeforeIsLess(Alphabetic(true), [], paths[i], paths[j]);
    }
  }

  lemma SameMembersPermute<T>(a: seq<T>, b: seq<T>)
    requires Distinct(a) && Distinct(b) && forall x :: x in a <==> x in b
    ensures multiset(a) == multiset(b)
  {
    DistinctIsMultisetProperty(a);
    DistinctIsMultisetProperty(b);
    forall x ensures multiset(a)[x] == multiset(b)[x] {
      if x !in a {
        assert x !in multiset(a) && x !in multiset(b);
      }
    }
  }

  // Two lists of the same databases, both sorted by one order of names, are the same list.
  lemma SortedAlike(le: (Path, string, string) -> bool, a: seq<Path>, b: seq<Path>)
    requires IsNameOrder(le) && Sorted(Ordered(le), a) && Sorted(Ordered(le), b)
    requires Distinct(a) && Distinct(b) && forall p :: p in a <==> p in b
    ensures a == b
  {
    hide WalkLe, IsNameOrder;
    SameMembersPermute(a, b);
    OrderedIsTotal(le);
    SortedIsUnique(Ordered(le), a, b);
  }

  lemma StackedHaveOneOrder(lib: Library, tree: Tree, walk: seq<Path>, other: seq<Path>)
    requires IsWalkOf(tree, walk) && IsWalkOf(tree, other) && AreStacked(lib, tree)
    ensures DatabasePaths(lib, tree, walk) == DatabasePaths(lib, tree, other)
  {
    StackedAreSorted(lib, tree, walk);
    StackedAreSorted(lib, tree, other);
    DatabasePathsMembers(lib, tree, walk);
    DatabasePathsMembers(lib, tree, other);
    hide IsDatabase, DatabasePaths, AreStacked, WalkLe, IsWalk;
    AlphabeticIsOrder(true);
    SortedAlike(Alphabetic(true), DatabasePaths(lib, tree, walk), DatabasePaths(lib, tree, other));
  }

  lemma SortedWalk(tree: Tree, listing: seq<Path>, le: (Path, string, string) -> bool)
    requires IsListing(tree, listing) && IsNameOrder(le)
    ensures IsWalkOf(tree, Sort(Ordered(le), listing)) && Sorted(Ordered(le), Sort(Ordered(le), listing))
  {
    hide WalkLe, IsWalk, IsNameOrder;
    OrderedIsTotal(le);
    var sorted := Sort(Ordered(le), listing);
    SortSorts(Ordered(le), listing);
    SortPermutes(Ordered(le), listing);
    PermutationKeepsDistinct(sorted, listing);
    forall p ensures p in sorted <==> p in listing { SameElements(sorted, listing, p); }
    SortedIsWalk(le, sorted);
  }

  // Two databases that are not stacked come in opposite orders on the two alphabetic walks.
  lemma SortedWalksDiffer(lib: Library, tree: Tree, walk: seq<Path>, p: Path, q: Path)
    requires IsListing(tree, walk)
    requires IsDatabase(lib, tree, p) && IsDatabase(lib, tree, q)
    requires !Before(p, q) && !Before(q, p) && !(p <= q) && !(q <= p)
    ensures DatabasePaths(lib, tree, Sort(Ordered(Alphabetic(true)), walk))
         != DatabasePaths(lib, tree, Sort(Ordered(Alphabetic(false)), walk))
  {
    AlphabeticIsOrder(true);
    AlphabeticIsOrder(false);
    SortedWalk(tree, walk, Alphabetic(true));
    SortedWalk(tree, walk, Alphabetic(false));
    hide WalkLe, IsWalk, Before, DatabasePaths, Sort, IsNameOrder, IsDatabase, Ordered, Alphabetic;
    var a, b := Sort(Ordered(Alphabetic(true)), walk), Sort(Ordered(Alphabetic(false)), walk);
    DatabasesKeepOrder(lib, tree, a, Ordered(Alphabetic(true)));
    DatabasesKeepOrder(lib, tree, b, Ordered(Alphabetic(false)));
    DatabasePathsMembers(lib, tree, a);
    DatabaseIsThere(lib, tree, a, p);
    DatabaseIsThere(lib, tree, a, q);
    SortedListsDiffer(DatabasePaths(lib, tree, a), DatabasePaths(lib, tree, b), p, q);
  }

  lemma DatabaseIsThere(lib: Library, tree: Tree, listing: seq<Path>, p: Path)
    requires IsListing(tree, listing) && IsDatabase(lib, tree, p)
    ensures p in listing
  {
  }

  lemma SortedListsDiffer(paths: seq<Path>, others: seq<Path>, p: Path, q: Path)
    requires Sorted(Ordered(Alphabetic(true)), paths) && Sorted(Ordered(Alphabetic(false)), others)
    requires p in paths && q in paths
    requires !Before(p, q) && !Before(q, p) && !(p <= q) && !(q <= p)
    ensures paths != others
  {
    hide WalkLe, Before;
    var i :| 0 <= i < |paths| && paths[i] == p;
    var j :| 0 <= j < |paths| && paths[j] == q;
    OppositeOrders([], p, q);
    OppositeOrders([], q, p);
  }

  // Every walk meets the databases in one order exactly when they are stacked.
  lemma OrderMatters(lib: Library, tree: Tree, walk: seq<Path>)
    requires IsWalkOf(tree, walk)
    requires forall p, q :: p in tree && q in tree && p <= q ==> p == q
    ensures AreStacked(lib, tree) <==>
      forall other | IsWalkOf(tree, other) :: DatabasePaths(lib, tree, other) == DatabasePaths(lib, tree, walk)
  {
    hide DatabasePaths, IsWalkOf, Sort, Before;
    if AreStacked(lib, tree) {
      forall other | IsWalkOf(tree, other) ensures DatabasePaths(lib, tree, other) == DatabasePaths(lib, tree, walk) {
        StackedHaveOneOrder(lib, tree, walk, other);
      }
    } else {
      var p, q :| IsDatabase(lib, tree, p) && IsDatabase(lib, tree, q) && p != q && !Before(p, q) && !Before(q, p);
      AlphabeticIsOrder(true);
      AlphabeticIsOrder(false);
      WalkIsListing(tree, walk);
      SortedWalk(tree, walk, Alphabetic(true));
      SortedWalk(tree, walk, Alphabetic(false));
      SortedWalksDiffer(lib, tree, walk, p, q);
    }
  }

  lemma WalkIsListing(tree: Tree, walk: seq<Path>)
    requires IsWalkOf(tree, walk)
    ensures IsListing(tree, walk)
  {
  }

  // ---------------------------------------------------------------- databases of two trees

  // The same paths are databases in both trees.
  ghost predicate HaveSameDatabases(lib: Library, tree: Tree, other: Tree) {
    forall p :: IsDatabase(lib, tree, p) <==> IsDatabase(lib, other, p)
  }

  ghost predicate IsPlainTree(tree: Tree) {
    forall p, q :: p in tree && q in tree && p <= q ==> p == q
  }

  lemma ListingOf(tree: Tree) returns (listing: seq<Path>)
    ensures IsListing(tree, listing)
  {
    listing := [];
    var rest := tree.Keys;
    while rest != {}
      invariant rest <= tree.Keys && Distinct(listing)
      invariant forall p :: p in listing <==> p in tree && p !in rest
      decreases |rest|
    {
      var p :| p in rest;
      rest := rest - {p};
      listing := listing + [p];
    }
  }

  // A tree with the databases of another can be walked so that they come in the order of any walk of
  // the other.
  lemma WalkInOrder(lib: Library, tree: Tree, walk: seq<Path>, other: Tree) returns (follows: seq<Path>)
    requires IsPlainTree(tree) && IsWalkOf(tree, walk) && HaveSameDatabases(lib, tree, other)
    ensures IsWalkOf(other, follows)
    ensures DatabasePaths(lib, other, follows) == DatabasePaths(lib, tree, walk)
  {
    hide IsDatabase, DatabasePaths, IsWalk, IsNameOrder, ByRank, WalkLe;
    var le := ByRank(walk);
    ByRankIsOrder(walk);
    WalkIsSorted(walk);
    var listing := ListingOf(other);
    SortedWalk(other, listing, le);
    follows := Sort(Ordered(le), listing);
    DatabasesKeepOrder(lib, tree, walk, Ordered(le));
    DatabasesKeepOrder(lib, other, follows, Ordered(le));
    DatabasePathsMembers(lib, tree, walk);
    DatabasePathsMembers(lib, other, follows);
    InWalkIfDatabase(lib, tree, walk);
    InWalkIfDatabase(lib, other, follows);
    SortedAlike(le, DatabasePaths(lib, other, follows), DatabasePaths(lib, tree, walk));
  }

  lemma InWalkIfDatabase(lib: Library, tree: Tree, walk: seq<Path>)
    requires IsListing(tree, walk)
    ensures forall p :: IsDatabase(lib, tree, p) ==> p in walk
  {
  }

  lemma SameOrderSameDatabases(lib: Library, tree: Tree, walk: seq<Path>, other: Tree, follows: seq<Path>)
    requires IsListing(tree, walk) && IsListing(other, follows)
    requires DatabasePaths(lib, other, follows) == DatabasePaths(lib, tree, walk)
    ensures HaveSameDatabases(lib, tree, other)
  {
    DatabasePathsMembers(lib, tree, walk);
    DatabasePathsMembers(lib, other, follows);
    InWalkIfDatabase(lib, tree, walk);
    InWalkIfDatabase(lib, other, follows);
    hide IsDatabase, DatabasePaths;
  }

  // ---------------------------------------------------------------- two lists of databases

  ghost predicate HaveFilePaths(tree: Tree) {
    forall p :: p in tree ==> IsFilePath(p)
  }

  // Two trees that hold the same at common paths give equal lists on two walks exactly when the walks
  // meet the same databases in the same order.
  lemma ListsShowOrder(lib: Library, tree: Tree, walk: seq<Path>, other: Tree, follows: seq<Path>)
    requires HaveFilePaths(tree) && HaveFilePaths(other)
    requires forall p :: p in tree && p in other ==> tree[p] == other[p]
    requires IsListing(tree, walk) && IsListing(other, follows) && Databases(lib, tree, walk).Some?
    ensures Databases(lib, tree, walk) == Databases(lib, other, follows) <==>
      DatabasePaths(lib, tree, walk) == DatabasePaths(lib, other, follows)
  {
    hide IsDatabase, DatabasePaths, HasSchema, Posix, IsFilePath, HaveSchemas;
    ListedDatabases(lib, tree, walk);
    ListedDatabases(lib, other, follows);
    DatabasePathsMembers(lib, tree, walk);
    DatabasePathsMembers(lib, other, follows);
    var a, b := DatabasePaths(lib, tree, walk), DatabasePaths(lib, other, follows);
    if Described(lib, tree, a) == Described(lib, other, b) {
      forall i | 0 <= i < |a| ensures a[i] == b[i] {
        assert a[i] in a && b[i] in b;
        assert Described(lib, tree, a)[i].path == Described(lib, other, b)[i].path;
        FilePathIsInjective(a[i], b[i]);
      }
    }
    if a == b {
      SameOrderSameDatabases(lib, tree, walk, other, follows);
      SamePathsSameList(lib, tree, other, a);
      SameSchemas(lib, tree, other);
    }
  }

  lemma SameSchemas(lib: Library, tree: Tree, other: Tree)
    requires HaveSameDatabases(lib, tree, other)
    requires forall p :: p in tree && p in other ==> tree[p] == other[p]
    ensures forall p :: IsDatabase(lib, tree, p) ==> (HasSchema(lib, tree, p) <==> HasSchema(lib, other, p))
  {
  }

  lemma SamePathsSameList(lib: Library, tree: Tree, other: Tree, paths: seq<Path>)
    requires forall p :: p in paths ==> p in tree && p in other && tree[p] == other[p]
    ensures Described(lib, tree, paths) == Described(lib, other, paths)
  {
    hide Posix;
    forall i | 0 <= i < |paths| ensures DatabaseAt(lib, tree, paths[i]) == DatabaseAt(lib, other, paths[i]) {
      assert paths[i] in paths;
    }
  }

  ghost predicate AreWhole(lib: Library, tree: Tree) {
    forall p :: IsDatabase(lib, tree, p) ==> lib.isIntact(tree[p])
  }

  // The listed databases pass their check exactly when every database of the tree is intact.
  lemma ListedAreIntact(lib: Library, tree: Tree, full: Tree, walk: seq<Path>, databases: seq<Database>)
    requires IsListing(tree, walk) && Databases(lib, tree, walk) == Some(databases)
    requires forall p :: p in tree ==> p in full && full[p] == tree[p] && SafeRelative(lib.fold, Posix(p)) == Some(p)
    ensures AreIntact(lib, full, databases) <==> AreWhole(lib, tree)
  {
    hide DatabasePaths, HasSchema, Posix, SafeRelative;
    DatabasePathsMembers(lib, tree, walk);
    var paths := DatabasePaths(lib, tree, walk);
    assert |paths| == |databases|;
    forall i | 0 <= i < |paths|
      ensures IsDatabase(lib, tree, paths[i]) && (IsIntactAt(lib, full, databases[i]) <==> lib.isIntact(tree[paths[i]]))
    {
      assert paths[i] in paths;
    }
    if AreIntact(lib, full, databases) {
      forall p | IsDatabase(lib, tree, p) ensures lib.isIntact(tree[p]) {
        var i :| 0 <= i < |paths| && paths[i] == p;
        assert IsIntactAt(lib, full, databases[i]);
      }
    }
  }

  ghost predicate IsSqliteFile(lib: Library, tree: Tree, p: Path) {
    p in tree && p != ["backup-manifest.json"] && IsKeptPath(p) && lib.isDatabase(p, tree[p])
  }

  ghost predicate IsEntryOf(lib: Library, tree: Tree, p: Path, d: Database)
    requires p in tree
  {
    d.path == Posix(p) && lib.schema(tree[p]) == Some(d.schema)
  }

  // Every kept SQLite file of an accepted tree is intact and listed with its schema, once, and nothing
  // else is listed.
  lemma AcceptedDatabases(lib: Library, tree: Tree, walk: seq<Path>, m: Manifest)
    requires IsWalkOf(Tracked(tree), walk) && Accepts(lib, tree, walk, m)
    ensures forall p :: IsSqliteFile(lib, tree, p) ==> lib.isIntact(tree[p]) && IsListedOnce(lib, tree, m, p)
    ensures forall i :: 0 <= i < |m.databases| ==> IsFileOf(lib, tree, m.databases[i])
  {
    hide Posix, SafeRelative, IsKeptPath, IsWalk, Matches, AreIntact, DatabasePaths, IsEntryOf, Tracked, HasSchema;
    forall p ensures IsSqliteFile(lib, tree, p) <==> IsDatabase(lib, Tracked(tree), p) {
      TrackedExactly(tree, p);
    }
    TrackedPathsAreSafe(lib, tree, m);
    ListedAreIntact(lib, Tracked(tree), tree, walk, m.databases);
    var paths := DatabasePaths(lib, Tracked(tree), walk);
    DatabasePathsMembers(lib, Tracked(tree), walk);
    forall i | 0 <= i < |paths|
      ensures IsSqliteFile(lib, tree, paths[i]) && IsEntryOf(lib, tree, paths[i], m.databases[i])
    {
      assert paths[i] in paths;
      DescribedEntry(lib, tree, walk, i);
    }
    forall p | IsSqliteFile(lib, tree, p) ensures IsListedOnce(lib, tree, m, p) {
      var i :| 0 <= i < |paths| && paths[i] == p;
      ListedOnce(lib, tree, m, paths, i);
    }
  }

  ghost predicate IsFileOf(lib: Library, tree: Tree, d: Database) {
    exists p :: IsSqliteFile(lib, tree, p) && IsEntryOf(lib, tree, p, d)
  }

  ghost predicate IsListedAt(lib: Library, tree: Tree, m: Manifest, p: Path, i: int) {
    && p in tree && 0 <= i < |m.databases| && IsEntryOf(lib, tree, p, m.databases[i])
    && forall j :: 0 <= j < |m.databases| && m.databases[j].path == Posix(p) ==> j == i
  }

  ghost predicate IsListedOnce(lib: Library, tree: Tree, m: Manifest, p: Path) {
    exists i :: IsListedAt(lib, tree, m, p, i)
  }

  lemma DescribedEntry(lib: Library, tree: Tree, walk: seq<Path>, i: nat)
    requires Databases(lib, Tracked(tree), walk).Some? && IsListing(Tracked(tree), walk)
    requires i < |DatabasePaths(lib, Tracked(tree), walk)|
    ensures var p := DatabasePaths(lib, Tracked(tree), walk)[i];
      p in tree && IsEntryOf(lib, tree, p, Databases(lib, Tracked(tree), walk).value[i])
  {
    hide Posix, DatabasePaths, IsIncluded;
    DatabasePathsMembers(lib, Tracked(tree), walk);
    var paths := DatabasePaths(lib, Tracked(tree), walk);
    assert paths[i] in paths;
    var k :| 0 <= k < |walk| && walk[k] == paths[i];
    assert HasSchema(lib, Tracked(tree), walk[k]);
    TrackedIsPart(tree, paths[i]);
  }

  lemma ListedOnce(lib: Library, tree: Tree, m: Manifest, paths: seq<Path>, i: nat)
    requires i < |paths| == |m.databases| && Distinct(paths)
    requires forall k :: 0 <= k < |paths| ==>
      && paths[k] in tree && IsEntryOf(lib, tree, paths[k], m.databases[k])
      && SafeRelative(lib.fold, Posix(paths[k])) == Some(paths[k])
    ensures IsListedOnce(lib, tree, m, paths[i])
  {
    hide Posix, SafeRelative;
    forall j | 0 <= j < |m.databases| && m.databases[j].path == Posix(paths[i]) ensures j == i {
      assert m.databases[j].path == Posix(paths[j]);
      assert paths[j] == paths[i];
    }
    assert IsListedAt(lib, tree, m, paths[i], i);
  }

  // The tracked files of a tree that matches its manifest have safe names.
  lemma TrackedPathsAreSafe(lib: Library, tree: Tree, m: Manifest)
    requires Matches(lib, tree, m)
    ensures forall p :: p in Tracked(tree) ==>
      p in tree && tree[p] == Tracked(tree)[p] && SafeRelative(lib.fold, Posix(p)) == Some(p)
  {
    hide Posix, SafeRelative, IsIncluded, Holds, RecordAlias, IsHeader;
    forall p | p in Tracked(tree)
      ensures p in tree && tree[p] == Tracked(tree)[p] && SafeRelative(lib.fold, Posix(p)) == Some(p)
    {
      assert IsRecorded(lib.fold, m.files, p);
      var i :| 0 <= i < |m.files| && IsRecordOf(lib.fold, m.files[i], p);
      SafeRelativeIsSafe(lib.fold, m.files[i].path.value);
      TrackedIsPart(tree, p);
    }
  }
}
