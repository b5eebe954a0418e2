// Extracting an archive: the declared sizes, the check of all members, and the files written.
module ArchiveRestore {
  import opened Wrappers
  import opened ArchivePaths
  import opened Archive

  // ---------------------------------------------------------------- declared sizes

  function IsDirectoryName(name: string): bool {
    name != "" && name[|name| - 1] == '/'
  }

  predicate IsAffordable(e: Entry) {
    && (IsDirectoryName(e.name) ==> e.declaredSize == 0)
    && e.declaredSize <= MAX_ARCHIVE_ENTRY_UNCOMPRESSED_BYTES
    && (e.declaredSize > 0 ==>
      e.compressedSize > 0 && e.declaredSize <= e.compressedSize * MAX_ARCHIVE_COMPRESSION_RATIO)
  }

  function TotalSize(entries: seq<Entry>): nat {
    if entries == [] then 0 else TotalSize(entries[..|entries| - 1]) + entries[|entries| - 1].declaredSize
  }

  predicate Resources(entries: seq<Entry>) {
    && |entries| <= MAX_ARCHIVE_MEMBERS
    && (forall i :: 0 <= i < |entries| ==> IsAffordable(entries[i]))
    && TotalSize(entries) <= MAX_ARCHIVE_TOTAL_UNCOMPRESSED_BYTES
  }

  // The limits in numbers: 100 000 members, 16 GiB each, 128 GiB together, ten thousand to one.
  lemma ResourcesExactly(entries: seq<Entry>)
    ensures Resources(entries) <==>
      && |entries| <= 100000 && TotalSize(entries) <= 137438953472
      && forall i :: 0 <= i < |entries| ==>
           && entries[i].declaredSize <= 17179869184
           && entries[i].declaredSize <= entries[i].compressedSize * 10000
           && (IsDirectoryName(entries[i].name) ==> entries[i].declaredSize == 0)
  {
    forall i | 0 <= i < |entries| ensures IsAffordable(entries[i]) <==>
      && entries[i].declaredSize <= 17179869184
      && entries[i].declaredSize <= entries[i].compressedSize * 10000
      && (IsDirectoryName(entries[i].name) ==> entries[i].declaredSize == 0)
    {
    }
  }

  lemma {:induction false} TotalSizeGrows(entries: seq<Entry>, n: nat)
    requires n <= |entries|
    ensures TotalSize(entries[..n]) <= TotalSize(entries)
  {
    if n < |entries| {
      TotalSizeGrows(entries[..|entries| - 1], n);
      assert entries[..|entries| - 1][..n] == entries[..n];
    } else {
      assert entries[..n] == entries;
    }
  }

  // validate_archive_resources
  method ValidateResources(entries: seq<Entry>) returns (ok: bool)
    ensures ok <==> Resources(entries)
  {
    if |entries| > MAX_ARCHIVE_MEMBERS {
      return false;
    }
    var total := 0;
    var i := 0;
    while i < |entries|
      invariant 0 <= i <= |entries|
      invariant total == TotalSize(entries[..i]) <= MAX_ARCHIVE_TOTAL_UNCOMPRESSED_BYTES
      invariant forall k :: 0 <= k < i ==> IsAffordable(entries[k])
    {
      var e := entries[i];
      if IsDirectoryName(e.name) && e.declaredSize != 0 {
        return false;
      }
      if e.declaredSize > MAX_ARCHIVE_ENTRY_UNCOMPRESSED_BYTES {
        return false;
      }
      total := total + e.declaredSize;
      TotalSizeGrows(entries, i + 1);
      assert entries[..i + 1][..i] == entries[..i];
      if total > MAX_ARCHIVE_TOTAL_UNCOMPRESSED_BYTES {
        return false;
      }
      if e.declaredSize > 0 {
        if e.compressedSize == 0 {
          return false;
        }
        if e.declaredSize > e.compressedSize * MAX_ARCHIVE_COMPRESSION_RATIO {
          return false;
        }
      }
      i := i + 1;
    }
    assert entries[..|entries|] == entries;
    return true;
  }

  // ---------------------------------------------------------------- extraction

  function MemberName(e: Entry): string {
    if IsDirectoryName(e.name) then e.name[..|e.name| - 1] else e.name
  }

  function MemberPath(fold: string -> string, e: Entry): Option<Path> {
    SafeRelative(fold, MemberName(e))
  }

  predicate IsMember(fold: string -> string, e: Entry) {
    && MemberPath(fold, e).Some?
    && !e.symlink
    && (IsIncluded(MemberPath(fold, e).value) || MemberPath(fold, e).value == MANIFEST_PATH)
  }

  function PathOf(fold: string -> string, e: Entry): Path {
    match MemberPath(fold, e)
    case Some(p) => p
    case None => []
  }

  predicate AreMembers(fold: string -> string, entries: seq<Entry>) {
    forall i :: 0 <= i < |entries| ==> IsMember(fold, entries[i])
  }

  function AliasOf(fold: string -> string, e: Entry): string {
    Alias(fold, PathOf(fold, e))
  }

  ghost predicate AliasesDiffer(fold: string -> string, entries: seq<Entry>) {
    forall i, j :: 0 <= i < j < |entries| ==> AliasOf(fold, entries[i]) != AliasOf(fold, entries[j])
  }

  // Two files of which one would have to be a directory for the other.
  predicate Clash(fold: string -> string, a: Entry, b: Entry) {
    !IsDirectoryName(a.name) && !IsDirectoryName(b.name) && PathOf(fold, a) <= PathOf(fold, b)
  }

  ghost predicate FilesNest(fold: string -> string, entries: seq<Entry>) {
    forall i, j :: 0 <= i < |entries| && 0 <= j < |entries| && i != j ==> !Clash(fold, entries[i], entries[j])
  }

  ghost predicate Extractable(fold: string -> string, entries: seq<Entry>) {
    && Resources(entries)
    && AreMembers(fold, entries)
    && AliasesDiffer(fold, entries)
    && FilesNest(fold, entries)
    && AreReadable(entries)
  }

  predicate IsReadable(e: Entry) {
    IsDirectoryName(e.name) || e.content.Whole?
  }

  predicate IsOpened(e: Entry) {
    IsDirectoryName(e.name) || !e.content.Unopened?
  }

  predicate AreReadable(entries: seq<Entry>) {
    forall i :: 0 <= i < |entries| ==> IsReadable(entries[i])
  }

  // The bytes a copy of the member writes, also when reading fails half-way.
  function Copied(e: Entry): string {
    match e.content
    case Whole(data) => data
    case Failing(partial) => partial
    case Unopened => ""
  }

  function Extracted(fold: string -> string, entries: seq<Entry>): Tree {
    if entries == [] then map[]
    else
      var last := entries[|entries| - 1];
      var before := Extracted(fold, entries[..|entries| - 1]);
      if IsDirectoryName(last.name) then before else before[PathOf(fold, last) := Copied(last)]
  }

  predicate IsFileAt(fold: string -> string, e: Entry, p: Path) {
    !IsDirectoryName(e.name) && PathOf(fold, e) == p
  }

  lemma {:induction false} ExtractedPaths(fold: string -> string, entries: seq<Entry>, p: Path)
    ensures p in Extracted(fold, entries) <==> exists i :: 0 <= i < |entries| && IsFileAt(fold, entries[i], p)
  {
    hide PathOf;
    if entries != [] {
      var front := entries[..|entries| - 1];
      assert forall i :: 0 <= i < |front| ==> front[i] == entries[i];
      ExtractedPaths(fold, front, p);
    }
  }

  // The check of all members before anything is written.
  method CheckMembers(fold: string -> string, entries: seq<Entry>) returns (ok: bool)
    ensures ok <==> AreMembers(fold, entries) && AliasesDiffer(fold, entries)
  {
    hide MemberPath, Alias;
    var aliases: set<string> := {};
    var i := 0;
    while i < |entries|
      invariant 0 <= i <= |entries|
      invariant forall k :: 0 <= k < i ==> IsMember(fold, entries[k]) && AliasOf(fold, entries[k]) in aliases
      invariant forall a :: a in aliases ==> exists k :: 0 <= k < i && AliasOf(fold, entries[k]) == a
      invariant forall j, k :: 0 <= j < k < i ==> AliasOf(fold, entries[j]) != AliasOf(fold, entries[k])
    {
      var e := entries[i];
      var path := MemberPath(fold, e);
      if path.None? {
        return false;
      }
      if Alias(fold, path.value) in aliases {
        return false;
      }
      if e.symlink {
        return false;
      }
      if !IsIncluded(path.value) && path.value != MANIFEST_PATH {
        return false;
      }
      aliases := aliases + {Alias(fold, path.value)};
      i := i + 1;
    }
    return true;
  }

  // The copying ends with member n - 1 when reading that fails, or before member n when that cannot be
  // opened, or its path cannot be created beside the files of the members before.
  ghost predicate StopsAt(fold: string -> string, entries: seq<Entry>, n: nat)
    requires n <= |entries|
  {
    && FilesNest(fold, entries[..n])
    && (forall k :: 0 <= k < n - 1 ==> IsReadable(entries[k]))
    && (n > 0 ==> IsOpened(entries[n - 1]))
    && ((n == 0 || IsReadable(entries[n - 1])) ==>
      n < |entries| && (!IsOpened(entries[n]) || !FilesNest(fold, entries[..n + 1])))
  }

  // What a failed extraction leaves: nothing when the check of all members fails, and otherwise the
  // files of the members up to the one it stops at.
  ghost predicate IsLeftBy(fold: string -> string, entries: seq<Entry>, tree: Tree) {
    if Resources(entries) && AreMembers(fold, entries) && AliasesDiffer(fold, entries) then
      exists n | 0 <= n <= |entries| :: StopsAt(fold, entries, n) && tree == Extracted(fold, entries[..n])
    else
      tree == map[]
  }

  // extract_safe
  method ExtractSafe(fold: string -> string, entries: seq<Entry>, destination: Directory) returns (ok: bool)
    requires destination.files == map[]
    modifies destination
    ensures ok <==> Extractable(fold, entries)
    ensures ok ==> destination.files == Extracted(fold, entries)
    ensures !ok ==> IsLeftBy(fold, entries, destination.files)
    ensures forall p :: p in destination.files ==> IsHarmlessPath(fold, p) && IsKeptPath(p)
  {
    hide PathOf, AreMembers, Resources, AliasesDiffer, IsDirectoryName, FilesNest, IsHarmlessPath, IsKeptPath;
    ok := ValidateResources(entries);
    if !ok {
      return;
    }
    ok := CheckMembers(fold, entries);
    if !ok {
      return;
    }
    Nested(fold, entries, 0);
    MembersAreHarmless(fold, entries);
    var i := 0;
    while i < |entries|
      invariant 0 <= i <= |entries|
      invariant FilesNest(fold, entries[..i])
      invariant forall k :: 0 <= k < i ==> IsReadable(entries[k])
      invariant destination.files == Extracted(fold, entries[..i])
      invariant forall p :: p in destination.files ==> IsHarmlessPath(fold, p) && IsKeptPath(p)
    {
      assert entries[..i + 1][..i] == entries[..i];
      assert entries[..i + 1][i] == entries[i];
      Nested(fold, entries, i + 1);
      NextMember(fold, entries, i);
      if !IsDirectoryName(entries[i].name) {
        if entries[i].content.Unopened? {
          assert StopsAt(fold, entries, i);
          return false;
        }
        ok := destination.CreateNew(PathOf(fold, entries[i]), Copied(entries[i]));
        if !ok {
          assert StopsAt(fold, entries, i);
          return;
        }
        if entries[i].content.Failing? {
          assert StopsAt(fold, entries, i + 1);
          return false;
        }
      }
      i := i + 1;
    }
    assert entries[..|entries|] == entries;
    return true;
  }

  // Members land on harmless paths outside the excluded directories.
  lemma MembersAreHarmless(fold: string -> string, entries: seq<Entry>)
    requires AreMembers(fold, entries)
    ensures forall i :: 0 <= i < |entries| ==> IsHarmlessPath(fold, PathOf(fold, entries[i])) && IsKeptPath(PathOf(fold, entries[i]))
  {
    hide IsHarmlessPath, SafeRelative, IsIncluded, IsKeptPath, Posix;
    forall i | 0 <= i < |entries| ensures IsHarmlessPath(fold, PathOf(fold, entries[i])) && IsKeptPath(PathOf(fold, entries[i])) {
      assert IsMember(fold, entries[i]);
      SafeRelativeExactly(fold, MemberName(entries[i]), PathOf(fold, entries[i]));
      IncludedExactly(PathOf(fold, entries[i]));
      ManifestIsKept();
    }
  }

  lemma ManifestIsKept()
    ensures IsKeptPath(MANIFEST_PATH)
  {
    assert |MANIFEST_NAME| == 20;
    assert MANIFEST_NAME[0] == 'b';
  }

  // A member under a hostile name, whatever else the archive holds, is refused before anything is written.
  lemma HostileNamesAreRefused(fold: string -> string, entries: seq<Entry>, i: nat)
    requires i < |entries|
    requires forall p :: IsSlashed(MemberName(entries[i]), Posix(p)) ==> !IsHarmlessPath(fold, p)
    ensures !AreMembers(fold, entries) && !Extractable(fold, entries)
    ensures forall tree :: IsLeftBy(fold, entries, tree) ==> tree == map[]
  {
    hide IsHarmlessPath, SafeRelative, IsSlashed, Posix, Resources, AliasesDiffer, FilesNest, StopsAt;
    if IsMember(fold, entries[i]) {
      SafeRelativeExactly(fold, MemberName(entries[i]), PathOf(fold, entries[i]));
    }
  }

  lemma {:induction false} PartsOfText(p: Path, q: Path)
    requires p != [] && q != [] && Posix(p) == Posix(q)
    requires forall i :: 0 <= i < |p| ==> '/' !in p[i]
    requires forall i :: 0 <= i < |q| ==> '/' !in q[i]
    ensures p == q
  {
    SplitOfPosix(p);
    SplitOfPosix(q);
  }

  lemma ThreeHostileParts(fold: string -> string, name: string) returns (parts: Path)
    requires fold("con") == "con" && (name == "../x" || name == "a:b" || name == "con.txt")
    ensures parts != [] && Posix(parts) == name && !IsHarmlessPart(fold, parts[0])
    ensures forall i :: 0 <= i < |parts| ==> '/' !in parts[i]
  {
    if name == "../x" {
      parts := ["..", "x"];
      assert parts[1..] == ["x"];
    } else {
      parts := [name];
      if name == "a:b" {
        assert name[1] == ':';
      } else {
        assert IsCoreOf("con.txt", name) && IsStemOf("con", "con.txt");
        assert IsDeviceName(fold("con"));
      }
    }
  }

  // For instance one above the directory, on a drive, or a device.
  lemma ThreeHostileNames(fold: string -> string, entries: seq<Entry>, i: nat)
    requires fold("con") == "con" && i < |entries|
    requires entries[i].name == "../x" || entries[i].name == "a:b" || entries[i].name == "con.txt"
    ensures !Extractable(fold, entries)
    ensures forall tree :: IsLeftBy(fold, entries, tree) ==> tree == map[]
  {
    var name := entries[i].name;
    var parts := ThreeHostileParts(fold, name);
    assert MemberName(entries[i]) == name;
    hide IsHarmlessPart, Posix, MemberName, Extractable, IsLeftBy;
    forall p | IsSlashed(name, Posix(p)) ensures !IsHarmlessPath(fold, p) {
      if IsHarmlessPath(fold, p) {
        NoBackslash(name, Posix(p));
        HarmlessHasNoSlash(fold, p);
        PartsOfText(p, parts);
      }
    }
    HostileNamesAreRefused(fold, entries, i);
  }

  lemma NoBackslash(name: string, raw: string)
    requires IsSlashed(name, raw) && (name == "../x" || name == "a:b" || name == "con.txt")
    ensures raw == name
  {
  }

  lemma HarmlessHasNoSlash(fold: string -> string, p: Path)
    requires IsHarmlessPath(fold, p)
    ensures forall i :: 0 <= i < |p| ==> '/' !in p[i]
  {
    forall i | 0 <= i < |p| ensures '/' !in p[i] {
      assert IsHarmlessPart(fold, p[i]);
    }
  }

  lemma Nested(fold: string -> string, entries: seq<Entry>, n: nat)
    requires n <= |entries|
    ensures FilesNest(fold, entries) ==> FilesNest(fold, entries[..n])
    ensures n == 0 ==> FilesNest(fold, entries[..n])
  {
    hide Clash;
  }

  lemma NextMember(fold: string -> string, entries: seq<Entry>, i: nat)
    requires i < |entries| && FilesNest(fold, entries[..i])
    ensures FilesNest(fold, entries[..i + 1]) <==>
      IsDirectoryName(entries[i].name) || CanCreate(Extracted(fold, entries[..i]), PathOf(fold, entries[i]))
  {
    hide PathOf, IsDirectoryName, Extracted;
    var before, after := entries[..i], entries[..i + 1];
    var e := entries[i];
    assert forall k :: 0 <= k < i ==> after[k] == before[k];
    assert after[i] == e;
    forall q ensures q in Extracted(fold, before) <==> exists k :: 0 <= k < |before| && IsFileAt(fold, before[k], q) {
      ExtractedPaths(fold, before, q);
    }
    if FilesNest(fold, after) && !IsDirectoryName(e.name) {
      forall q | q in Extracted(fold, before) ensures !(q <= PathOf(fold, e)) && !(PathOf(fold, e) <= q) {
        var k :| 0 <= k < |before| && IsFileAt(fold, before[k], q);
        assert !Clash(fold, after[k], after[i]) && !Clash(fold, after[i], after[k]);
      }
    }
    if IsDirectoryName(e.name) || CanCreate(Extracted(fold, before), PathOf(fold, e)) {
      forall k | 0 <= k < i ensures !Clash(fold, after[k], e) && !Clash(fold, e, after[k]) {
        if !IsDirectoryName(e.name) && !IsDirectoryName(before[k].name) {
          assert IsFileAt(fold, before[k], PathOf(fold, before[k]));
          assert PathOf(fold, before[k]) in Extracted(fold, before);
        }
      }
      assert forall j, k :: 0 <= j < i && 0 <= k < i && j != k ==> !Clash(fold, before[j], before[k]);
    }
  }
}
