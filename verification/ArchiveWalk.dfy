// Walking a directory tree from the top: the files of a directory in any order, then each of its
// directories as a whole, again in any order.
module ArchiveWalk {
  import opened Ordering
  import opened ArchivePaths

  // d is a directory above p.
  predicate IsAbove(d: Path, p: Path) {
    |d| < |p| && d <= p
  }

  // The file q lies inside a directory beside the file p.
  predicate Before(p: Path, q: Path) {
    p != [] && |p| < |q| && p[..|p| - 1] <= q
  }

  ghost predicate FilesComeFirst(order: seq<Path>) {
    forall i, j :: 0 <= i < j < |order| ==> !Before(order[j], order[i])
  }

  ghost predicate KeepsTogether(order: seq<Path>, d: Path) {
    forall i, k, j :: 0 <= i < k < j < |order| && IsAbove(d, order[i]) && IsAbove(d, order[j]) ==> IsAbove(d, order[k])
  }

  // The orders a walk can take.
  ghost predicate IsWalk(order: seq<Path>) {
    FilesComeFirst(order) && forall d :: KeepsTogether(order, d)
  }

  // ---------------------------------------------------------------- the walk

  // Directories above both files are at or above d.
  ghost predicate PartIn(d: Path, p: Path, q: Path) {
    forall e :: IsAbove(e, p) && IsAbove(e, q) ==> |e| <= |d|
  }

  // p is a file of d itself, or q lies in a directory of d that does not hold p.
  predicate IsDivided(d: Path, p: Path, q: Path) {
    |d| < |p| && |d| < |q| && (|p| == |d| + 1 || (|q| > |d| + 1 && p[|d|] != q[|d|]))
  }

  lemma NamesPart(d: Path, p: Path, q: Path)
    requires IsAbove(d, p) && IsAbove(d, q) && IsDivided(d, p, q)
    ensures PartIn(d, p, q) && !Before(q, p)
  {
  }

  lemma WalkConcat(d: Path, a: seq<Path>, b: seq<Path>)
    requires IsWalk(a) && IsWalk(b)
    requires forall p :: p in a || p in b ==> IsAbove(d, p)
    requires forall p, q :: p in a && q in b ==> PartIn(d, p, q) && !Before(q, p)
    ensures IsWalk(a + b)
  {
    hide Before;
    var c := a + b;
    assert forall i :: 0 <= i < |c| ==> c[i] == if i < |a| then a[i] else b[i - |a|];
    assert forall i :: 0 <= i < |a| ==> a[i] in a;
    assert forall i :: 0 <= i < |b| ==> b[i] in b;
    forall e ensures KeepsTogether(c, e) {
      assert KeepsTogether(a, e) && KeepsTogether(b, e);
      forall i, k, j | 0 <= i < k < j < |c| && IsAbove(e, c[i]) && IsAbove(e, c[j]) ensures IsAbove(e, c[k]) {
        if j < |a| {
        } else if i >= |a| {
          assert IsAbove(e, b[i - |a|]) && IsAbove(e, b[j - |a|]);
        } else {
          assert PartIn(d, a[i], b[j - |a|]);
          SharedTop(d, e, c[i], c[k]);
        }
      }
    }
  }

  lemma SharedTop(d: Path, e: Path, p: Path, q: Path)
    requires IsAbove(d, p) && IsAbove(d, q) && IsAbove(e, p) && |e| <= |d|
    ensures IsAbove(e, q)
  {
    assert e == p[..|e|] && d == p[..|d|];
    assert e == d[..|e|] && d == q[..|d|];
  }

  lemma ShortWalk(p: Path)
    ensures IsWalk([]) && IsWalk([p])
  {
  }

  lemma NextWalked(d: Path, a: seq<Path>, b: seq<Path>, inside: set<Path>)
    requires IsWalk(a) && IsWalk(b) && Distinct(a) && Distinct(b)
    requires forall p :: p in inside ==> IsAbove(d, p)
    requires forall p :: p in a || p in b ==> p in inside
    requires forall p, q :: p in a && q in b ==> IsDivided(d, p, q)
    requires forall p :: p in a ==> p !in b
    ensures IsWalk(a + b) && Distinct(a + b)
  {
    hide Before, PartIn, IsWalk, IsDivided;
    forall p, q | p in a && q in b ensures PartIn(d, p, q) && !Before(q, p) {
      assert p in inside && q in inside;
      NamesPart(d, p, q);
    }
    WalkConcat(d, a, b);
    DistinctConcat(a, b);
  }

  // os.walk from a directory, top-down, for the wanted files below it.
  method WalkDirectory(wanted: set<Path>, d: Path, ghost depth: nat) returns (order: seq<Path>)
    requires forall p :: p in wanted ==> IsAbove(d, p) && |p| <= |d| + depth
    ensures Distinct(order) && (forall p :: p in order <==> p in wanted) && IsWalk(order)
    decreases depth
  {
    hide IsWalk, IsAbove;
    ShortWalk(d);
    order := [];
    var files := set p | p in wanted && |p| == |d| + 1;
    var pending := files;
    while pending != {}
      invariant pending <= files
      invariant Distinct(order) && IsWalk(order)
      invariant forall p :: p in order <==> p in files && p !in pending
      decreases |pending|
    {
      var p :| p in pending;
      pending := pending - {p};
      ShortWalk(p);
      NextWalked(d, order, [p], wanted);
      order := order + [p];
    }
    var deeper := wanted - files;
    assert forall p :: p in deeper ==> |p| > |d| + 1 by {
      BelowIsLonger(wanted, d);
    }
    var names := set p | p in deeper :: p[|d|];
    while names != {}
      invariant names <= set p | p in deeper :: p[|d|]
      invariant Distinct(order) && IsWalk(order)
      invariant forall p :: p in order <==> p in files || (p in deeper && p[|d|] !in names)
      decreases |names|
    {
      var name :| name in names;
      names := names - {name};
      var inside := set p | p in deeper && p[|d|] == name;
      InsideIsBelow(wanted, d, depth, inside, name);
      var below := WalkDirectory(inside, d + [name], depth - 1);
      NextWalked(d, order, below, wanted);
      order := order + below;
    }
  }

  lemma BelowIsLonger(wanted: set<Path>, d: Path)
    requires forall p :: p in wanted ==> IsAbove(d, p)
    ensures forall p :: p in wanted && |p| != |d| + 1 ==> |p| > |d| + 1
  {
  }

  lemma InsideIsBelow(wanted: set<Path>, d: Path, depth: nat, inside: set<Path>, name: string)
    requires forall p :: p in wanted ==> IsAbove(d, p) && |p| <= |d| + depth
    requires forall p :: p in inside ==> p in wanted && |p| > |d| + 1 && p[|d|] == name
    requires inside != {}
    ensures depth > 0
    ensures forall p :: p in inside ==> IsAbove(d + [name], p) && |p| <= |d + [name]| + (depth - 1)
  {
    var q :| q in inside;
    assert q in wanted;
  }

  lemma {:induction false} Depth(paths: set<Path>) returns (depth: nat)
    ensures forall p :: p in paths ==> |p| <= depth
  {
    depth := 0;
    var rest := paths;
    while rest != {}
      invariant rest <= paths
      invariant forall p :: p in paths && p !in rest ==> |p| <= depth
      decreases |rest|
    {
      var p :| p in rest;
      rest := rest - {p};
      depth := if |p| > depth then |p| else depth;
    }
  }

  // ---------------------------------------------------------------- the runs of the walk

  function Deeper(wanted: set<Path>, d: Path): set<Path> {
    set p | p in wanted && |p| != |d| + 1
  }

  function Inside(wanted: set<Path>, d: Path, name: string): set<Path> {
    set p | p in wanted && IsAbove(d + [name], p)
  }

  ghost predicate AreFilesOf(wanted: set<Path>, d: Path, files: seq<Path>) {
    Distinct(files) && forall p :: p in files <==> p in wanted && |p| == |d| + 1
  }

  // What one run of the walk lists: the files of the directory as the system gives them, and then the
  // run for each of its directories, as the system gives those.
  ghost predicate IsVisit(wanted: set<Path>, d: Path, order: seq<Path>, depth: nat)
    decreases depth, 1, 0
  {
    exists k | 0 <= k <= |order| ::
      AreFilesOf(wanted, d, order[..k]) && AreVisits(Deeper(wanted, d), d, order[k..], depth)
  }

  ghost predicate AreVisits(deeper: set<Path>, d: Path, order: seq<Path>, depth: nat)
    decreases depth, 0, |deeper|
  {
    if deeper == {} then order == []
    else exists name, m | 0 < m <= |order| :: IsNextVisit(deeper, d, order, depth, name, m)
  }

  ghost predicate IsNextVisit(deeper: set<Path>, d: Path, order: seq<Path>, depth: nat, name: string, m: nat)
    requires m <= |order|
    decreases depth, 0, |deeper|, 0
  {
    && depth > 0 && Inside(deeper, d, name) != {}
    && IsVisit(Inside(deeper, d, name), d + [name], order[..m], depth - 1)
    && |deeper - Inside(deeper, d, name)| < |deeper|
    && AreVisits(deeper - Inside(deeper, d, name), d, order[m..], depth)
  }

  lemma PartOfWalk(order: seq<Path>, from: nat, to: nat)
    requires IsWalk(order) && Distinct(order) && from <= to <= |order|
    ensures IsWalk(order[from..to]) && Distinct(order[from..to])
  {
    hide Before, IsAbove;
    var part := order[from..to];
    assert forall i :: 0 <= i < |part| ==> part[i] == order[from + i];
    forall d ensures KeepsTogether(part, d) {
      assert KeepsTogether(order, d);
    }
  }

  // ---------------------------------------------------------------- runs list walks

  ghost predicate Lists(wanted: set<Path>, order: seq<Path>) {
    Distinct(order) && forall p :: p in order <==> p in wanted
  }

  lemma FilesAreWalk(d: Path, files: seq<Path>)
    requires forall p :: p in files ==> IsAbove(d, p) && |p| == |d| + 1
    ensures IsWalk(files)
  {
    assert forall i :: 0 <= i < |files| ==> files[i] in files;
    forall e ensures KeepsTogether(files, e) {
      forall i, k, j | 0 <= i < k < j < |files| && IsAbove(e, files[i]) && IsAbove(e, files[j]) ensures IsAbove(e, files[k]) {
        SharedTop(d, e, files[i], files[k]);
      }
    }
  }

  lemma {:induction false} VisitIsWalk(wanted: set<Path>, d: Path, order: seq<Path>, depth: nat)
    requires IsVisit(wanted, d, order, depth) && forall p :: p in wanted ==> IsAbove(d, p)
    ensures Lists(wanted, order) && IsWalk(order)
    decreases depth, 1, 0
  {
    hide IsWalk, IsVisit, AreVisits, IsAbove;
    var k := VisitedFiles(wanted, d, order, depth);
    var files, rest := order[..k], order[k..];
    VisitsAreWalk(Deeper(wanted, d), d, rest, depth);
    FilesAreWalk(d, files);
    BelowIsLonger(wanted, d);
    NextWalked(d, files, rest, wanted);
    assert order == files + rest;
  }

  lemma VisitedFiles(wanted: set<Path>, d: Path, order: seq<Path>, depth: nat) returns (k: nat)
    requires IsVisit(wanted, d, order, depth)
    ensures k <= |order| && AreFilesOf(wanted, d, order[..k]) && AreVisits(Deeper(wanted, d), d, order[k..], depth)
  {
    hide AreFilesOf, AreVisits;
    k :| 0 <= k <= |order| && AreFilesOf(wanted, d, order[..k]) && AreVisits(Deeper(wanted, d), d, order[k..], depth);
  }

  lemma {:induction false} VisitsAreWalk(deeper: set<Path>, d: Path, order: seq<Path>, depth: nat)
    requires AreVisits(deeper, d, order, depth) && forall p :: p in deeper ==> IsAbove(d, p) && |p| != |d| + 1
    ensures Lists(deeper, order) && IsWalk(order)
    decreases depth, 0, |deeper|
  {
    hide IsWalk, IsVisit, IsAbove, Inside, AreVisits, Lists;
    if deeper == {} {
      NoVisits(d, order, depth);
    } else {
      var name, m := NextVisit(deeper, d, order, depth);
      var inside := Inside(deeper, d, name);
      InsideIsBelowName(deeper, d, name);
      VisitIsWalk(inside, d + [name], order[..m], depth - 1);
      VisitsAreWalk(deeper - inside, d, order[m..], depth);
      VisitsConcat(deeper, d, name, order[..m], order[m..]);
      assert order == order[..m] + order[m..];
    }
  }

  lemma NoVisits(d: Path, order: seq<Path>, depth: nat)
    requires AreVisits({}, d, order, depth)
    ensures Lists({}, order) && IsWalk(order)
  {
  }

  lemma NextVisit(deeper: set<Path>, d: Path, order: seq<Path>, depth: nat) returns (name: string, m: nat)
    requires AreVisits(deeper, d, order, depth) && deeper != {}
    ensures 0 < m <= |order| && IsNextVisit(deeper, d, order, depth, name, m)
  {
    hide IsNextVisit;
    name, m :| 0 < m <= |order| && IsNextVisit(deeper, d, order, depth, name, m);
  }

  lemma InsideIsBelowName(deeper: set<Path>, d: Path, name: string)
    ensures Inside(deeper, d, name) <= deeper && forall p :: p in Inside(deeper, d, name) ==> IsAbove(d + [name], p)
  {
  }

  lemma VisitsConcat(deeper: set<Path>, d: Path, name: string, a: seq<Path>, b: seq<Path>)
    requires forall p :: p in deeper ==> IsAbove(d, p) && |p| != |d| + 1
    requires Lists(Inside(deeper, d, name), a) && Lists(deeper - Inside(deeper, d, name), b) && IsWalk(a) && IsWalk(b)
    ensures Lists(deeper, a + b) && IsWalk(a + b)
  {
    BelowIsLonger(deeper, d);
    InsideIsBelowName(deeper, d, name);
    InsideIsApart(deeper, d, name);
    hide IsWalk, IsAbove, Inside, IsDivided;
    NextWalked(d, a, b, deeper);
  }

  lemma InsideIsApart(deeper: set<Path>, d: Path, name: string)
    requires forall p :: p in deeper ==> IsAbove(d, p) && |p| > |d| + 1
    ensures forall p, q :: p in Inside(deeper, d, name) && q in deeper && q !in Inside(deeper, d, name) ==> IsDivided(d, p, q)
  {
    forall p | p in deeper ensures p in Inside(deeper, d, name) <==> p[|d|] == name {
      if p[|d|] == name {
        assert (d + [name]) == p[..|d| + 1];
      }
    }
  }

  // ---------------------------------------------------------------- walks are runs

  function Leading(order: seq<Path>, test: Path -> bool): (k: nat)
    ensures k <= |order|
    ensures forall i :: 0 <= i < k ==> test(order[i])
    ensures k < |order| ==> !test(order[k])
  {
    if order == [] || !test(order[0]) then 0 else 1 + Leading(order[1..], test)
  }

  lemma {:induction false} WalkIsVisit(wanted: set<Path>, d: Path, order: seq<Path>, depth: nat)
    requires Lists(wanted, order) && IsWalk(order)
    requires forall p :: p in wanted ==> IsAbove(d, p) && |p| <= |d| + depth
    ensures IsVisit(wanted, d, order, depth)
    decreases depth, 1, 0
  {
    hide IsWalk, IsAbove, AreVisits;
    var k := Leading(order, p => |p| == |d| + 1);
    FilesLead(wanted, d, order, k);
    PartOfWalk(order, k, |order|);
    BelowIsLonger(wanted, d);
    assert order[k..|order|] == order[k..];
    WalkIsVisits(Deeper(wanted, d), d, order[k..], depth);
  }

  lemma FilesLead(wanted: set<Path>, d: Path, order: seq<Path>, k: nat)
    requires Lists(wanted, order) && IsWalk(order) && forall p :: p in wanted ==> IsAbove(d, p)
    requires k <= |order| && (forall i :: 0 <= i < k ==> |order[i]| == |d| + 1)
    requires k < |order| ==> |order[k]| != |d| + 1
    ensures AreFilesOf(wanted, d, order[..k]) && Lists(Deeper(wanted, d), order[k..])
  {
    hide KeepsTogether;
    assert forall i :: 0 <= i < |order| ==> order[i] in order;
    forall j | k < j < |order| ensures |order[j]| != |d| + 1 {
      assert !Before(order[j], order[k]);
    }
    assert forall p :: p in order <==> p in order[..k] || p in order[k..];
  }

  lemma {:induction false} WalkIsVisits(deeper: set<Path>, d: Path, order: seq<Path>, depth: nat)
    requires Lists(deeper, order) && IsWalk(order)
    requires forall p :: p in deeper ==> IsAbove(d, p) && |d| + 1 < |p| <= |d| + depth
    ensures AreVisits(deeper, d, order, depth)
    decreases depth, 0, |deeper|
  {
    hide IsWalk, IsAbove, IsVisit, AreVisits, Inside, Lists;
    if deeper == {} {
      NothingVisited(d, order, depth);
    } else {
      var name, m := FirstDirectory(deeper, d, order, depth);
      var inside := Inside(deeper, d, name);
      WalkIsVisit(inside, d + [name], order[..m], depth - 1);
      WalkIsVisits(deeper - inside, d, order[m..], depth);
      NextVisited(deeper, d, order, depth, name, m);
    }
  }

  lemma NothingVisited(d: Path, order: seq<Path>, depth: nat)
    requires Lists({}, order)
    ensures AreVisits({}, d, order, depth)
  {
    if order != [] {
      FirstIsMember(order);
    }
  }

  lemma FirstIsMember<T>(xs: seq<T>)
    requires xs != []
    ensures xs[0] in xs
  {
  }

  lemma NextVisited(deeper: set<Path>, d: Path, order: seq<Path>, depth: nat, name: string, m: nat)
    requires 0 < m <= |order| && deeper != {} && IsNextVisit(deeper, d, order, depth, name, m)
    ensures AreVisits(deeper, d, order, depth)
  {
  }

  lemma FirstDirectory(deeper: set<Path>, d: Path, order: seq<Path>, depth: nat) returns (name: string, m: nat)
    requires Lists(deeper, order) && IsWalk(order) && deeper != {}
    requires forall p :: p in deeper ==> IsAbove(d, p) && |d| + 1 < |p| <= |d| + depth
    ensures 0 < m <= |order| && depth > 0 && Inside(deeper, d, name) != {}
    ensures |deeper - Inside(deeper, d, name)| < |deeper|
    ensures Lists(Inside(deeper, d, name), order[..m]) && IsWalk(order[..m])
    ensures Lists(deeper - Inside(deeper, d, name), order[m..]) && IsWalk(order[m..])
    ensures forall p :: p in Inside(deeper, d, name) ==> IsAbove(d + [name], p) && |p| <= |d + [name]| + (depth - 1)
  {
    hide IsWalk, IsAbove, Inside;
    var any :| any in deeper;
    assert any in order;
    assert order[0] in order;
    name := order[0][|d|];
    m := Leading(order, p => IsAbove(d + [name], p));
    DirectoryLeads(deeper, d, order, name, m);
    PartOfWalk(order, 0, m);
    PartOfWalk(order, m, |order|);
    assert order[0..m] == order[..m] && order[m..|order|] == order[m..];
    InsideIsShallow(deeper, d, depth, name);
    FewerRemain(deeper, d, name, order[0]);
  }

  lemma InsideIsShallow(deeper: set<Path>, d: Path, depth: nat, name: string)
    requires forall p :: p in deeper ==> IsAbove(d, p) && |d| + 1 < |p| <= |d| + depth
    requires deeper != {}
    ensures depth > 0
    ensures forall p :: p in Inside(deeper, d, name) ==> IsAbove(d + [name], p) && |p| <= |d + [name]| + (depth - 1)
  {
    var p :| p in deeper;
  }

  lemma FewerRemain(deeper: set<Path>, d: Path, name: string, p: Path)
    requires p in Inside(deeper, d, name)
    ensures |deeper - Inside(deeper, d, name)| < |deeper|
  {
    var inside := Inside(deeper, d, name);
    assert deeper == inside + (deeper - inside);
    assert inside != {};
  }

  lemma DirectoryLeads(deeper: set<Path>, d: Path, order: seq<Path>, name: string, m: nat)
    requires Lists(deeper, order) && IsWalk(order) && order != [] && m <= |order|
    requires forall p :: p in deeper ==> IsAbove(d, p) && |p| > |d| + 1
    requires name == order[0][|d|]
    requires forall i :: 0 <= i < m ==> IsAbove(d + [name], order[i])
    requires m < |order| ==> !IsAbove(d + [name], order[m])
    ensures m > 0 && order[0] in Inside(deeper, d, name)
    ensures Lists(Inside(deeper, d, name), order[..m]) && Lists(deeper - Inside(deeper, d, name), order[m..])
  {
    hide FilesComeFirst;
    assert forall i :: 0 <= i < |order| ==> order[i] in order;
    assert d + [name] == order[0][..|d| + 1];
    assert KeepsTogether(order, d + [name]);
    hide IsAbove, KeepsTogether;
    forall j | m <= j < |order| ensures !IsAbove(d + [name], order[j]) {
      if j > m {
        Together(order, d + [name], m, j);
      }
    }
    assert forall p :: p in order <==> p in order[..m] || p in order[m..];
  }

  lemma Together(order: seq<Path>, e: Path, k: nat, j: nat)
    requires KeepsTogether(order, e) && 0 < k < j < |order|
    requires IsAbove(e, order[0]) && !IsAbove(e, order[k])
    ensures !IsAbove(e, order[j])
  {
  }

  // The orders a walk can take are exactly those of its runs.
  lemma WalksAreRuns(wanted: set<Path>, d: Path, order: seq<Path>, depth: nat)
    requires forall p :: p in wanted ==> IsAbove(d, p) && |p| <= |d| + depth
    ensures IsVisit(wanted, d, order, depth) <==> Lists(wanted, order) && IsWalk(order)
  {
    hide IsWalk, IsVisit, IsAbove;
    if IsVisit(wanted, d, order, depth) {
      VisitIsWalk(wanted, d, order, depth);
    }
    if Lists(wanted, order) && IsWalk(order) {
      WalkIsVisit(wanted, d, order, depth);
    }
  }


  // ---------------------------------------------------------------- walks are sorted orders

  // In every directory names come in a total order of their own.
  ghost predicate IsNameOrder(le: (Path, string, string) -> bool) {
    && (forall d, a, b :: le(d, a, b) || le(d, b, a))
    && (forall d, a, b :: le(d, a, b) && le(d, b, a) ==> a == b)
    && (forall d, a, b, c :: le(d, a, b) && le(d, b, c) ==> le(d, a, c))
  }

  // The order of two paths below d: files before directories, and otherwise by name.
  predicate WalkLe(le: (Path, string, string) -> bool, d: Path, p: Path, q: Path)
    decreases |p|
  {
    p == [] || (q != [] &&
      if (|p| == 1) != (|q| == 1) then |p| == 1
      else if p[0] == q[0] then WalkLe(le, d + [p[0]], p[1..], q[1..])
      else le(d, p[0], q[0]))
  }

  function Ordered(le: (Path, string, string) -> bool): (Path, Path) -> bool {
    (p, q) => WalkLe(le, [], p, q)
  }

  lemma {:induction false} WalkLeTotal(le: (Path, string, string) -> bool, d: Path, p: Path, q: Path)
    requires IsNameOrder(le)
    ensures WalkLe(le, d, p, q) || WalkLe(le, d, q, p)
    ensures WalkLe(le, d, p, q) && WalkLe(le, d, q, p) ==> p == q
    decreases |p|
  {
    if p != [] && q != [] {
      WalkLeTotal(le, d + [p[0]], p[1..], q[1..]);
      assert p == [p[0]] + p[1..] && q == [q[0]] + q[1..];
    }
  }

  lemma {:induction false} WalkLeTransitive(le: (Path, string, string) -> bool, d: Path, p: Path, q: Path, r: Path)
    requires IsNameOrder(le) && WalkLe(le, d, p, q) && WalkLe(le, d, q, r)
    ensures WalkLe(le, d, p, r)
    decreases |p|
  {
    if p != [] && p[0] == q[0] && q[0] == r[0] && (|p| == 1) == (|q| == 1) && (|q| == 1) == (|r| == 1) {
      WalkLeTransitive(le, d + [p[0]], p[1..], q[1..], r[1..]);
    }
  }

  lemma OrderedIsTotal(le: (Path, string, string) -> bool)
    requires IsNameOrder(le)
    ensures TotalPreorder(Ordered(le)) && forall p, q :: Ordered(le)(p, q) && Ordered(le)(q, p) ==> p == q
  {
    hide WalkLe, IsNameOrder;
    forall p, q
      ensures Ordered(le)(p, q) || Ordered(le)(q, p)
      ensures Ordered(le)(p, q) && Ordered(le)(q, p) ==> p == q
    {
      WalkLeTotal(le, [], p, q);
    }
    forall p, q, r | Ordered(le)(p, q) && Ordered(le)(q, r) ensures Ordered(le)(p, r) {
      WalkLeTransitive(le, [], p, q, r);
    }
  }

  lemma {:induction false} BeforeIsLess(le: (Path, string, string) -> bool, d: Path, p: Path, q: Path)
    requires Before(p, q)
    ensures WalkLe(le, d, p, q) && !WalkLe(le, d, q, p)
    decreases |p|
  {
    if |p| > 1 {
      assert p[..|p| - 1][0] == q[0];
      assert p[1..][..|p[1..]| - 1] == p[..|p| - 1][1..];
      BeforeIsLess(le, d + [p[0]], p[1..], q[1..]);
    }
  }

  lemma {:induction false} BetweenIsBelow(le: (Path, string, string) -> bool, top: Path, d: Path, p: Path, k: Path, q: Path)
    requires IsNameOrder(le)
    requires WalkLe(le, top, p, k) && WalkLe(le, top, k, q) && IsAbove(d, p) && IsAbove(d, q)
    ensures IsAbove(d, k)
    decreases |d|
  {
    if d != [] {
      assert p[0] == d[0] && q[0] == d[0];
      BetweenIsBelow(le, top + [p[0]], d[1..], p[1..], k[1..], q[1..]);
      assert d == [d[0]] + d[1..] && k == [k[0]] + k[1..];
    }
  }

  // Sorting by any order of names in each directory gives an order a walk can take.
  lemma SortedIsWalk(le: (Path, string, string) -> bool, order: seq<Path>)
    requires IsNameOrder(le) && Sorted(Ordered(le), order)
    ensures IsWalk(order)
  {
    hide WalkLe, Before, IsAbove, IsNameOrder;
    forall i, j | 0 <= i < j < |order| ensures !Before(order[j], order[i]) {
      if Before(order[j], order[i]) {
        BeforeIsLess(le, [], order[j], order[i]);
      }
    }
    forall d ensures KeepsTogether(order, d) {
      forall i, k, j | 0 <= i < k < j < |order| && IsAbove(d, order[i]) && IsAbove(d, order[j])
        ensures IsAbove(d, order[k])
      {
        BetweenIsBelow(le, [], d, order[i], order[k], order[j]);
      }
    }
  }

  // ---------------------------------------------------------------- two opposite walks

  function Alphabetic(forward: bool): (Path, string, string) -> bool {
    (d, a, b) => if forward then LexLe(a, b) else LexLe(b, a)
  }

  lemma AlphabeticIsOrder(forward: bool)
    ensures IsNameOrder(Alphabetic(forward))
  {
    LexIsTotalOrder();
  }

  // The two sorted walks disagree on any two files that no walk has to keep in order.
  lemma {:induction false} OppositeOrders(d: Path, p: Path, q: Path)
    requires !Before(p, q) && !Before(q, p) && !(p <= q) && !(q <= p)
    ensures WalkLe(Alphabetic(true), d, p, q) <==> !WalkLe(Alphabetic(false), d, p, q)
    decreases |p|
  {
    hide LexLe;
    LexIsTotalOrder();
    if (|p| == 1) != (|q| == 1) {
    } else if p[0] == q[0] {
      assert p == [p[0]] + p[1..] && q == [q[0]] + q[1..];
      assert |p| > 1;
      assert p[..|p| - 1] == [p[0]] + p[1..][..|p[1..]| - 1];
      assert q[..|q| - 1] == [q[0]] + q[1..][..|q[1..]| - 1];
      OppositeOrders(d + [p[0]], p[1..], q[1..]);
    }
  }

  // ---------------------------------------------------------------- every walk is sorted

  // Where a file or directory is first met.
  function Rank(order: seq<Path>, x: Path): (r: nat)
    ensures r <= |order|
    ensures r < |order| ==> x <= order[r]
    ensures forall i :: 0 <= i < r ==> !(x <= order[i])
  {
    if order == [] || x <= order[0] then 0 else 1 + Rank(order[1..], x)
  }

  function ByRank(order: seq<Path>): (Path, string, string) -> bool {
    (d, a, b) =>
      Rank(order, d + [a]) < Rank(order, d + [b]) || (Rank(order, d + [a]) == Rank(order, d + [b]) && LexLe(a, b))
  }

  lemma ByRankIsOrder(order: seq<Path>)
    ensures IsNameOrder(ByRank(order))
  {
    hide Rank, LexLe;
    LexIsTotalOrder();
  }

  ghost predicate IsPlainListing(order: seq<Path>) {
    Distinct(order) && forall p, q :: p in order && q in order && p <= q ==> p == q
  }

  lemma NotMetBefore(order: seq<Path>, y: Path, r: nat, i: nat, j: nat)
    requires IsWalk(order) && IsPlainListing(order) && i < j < |order| && r < i
    requires y <= order[r] && !(y <= order[i])
    ensures !(y == order[j]) && !IsAbove(y, order[j])
  {
    hide Before, FilesComeFirst;
    assert order[r] in order && order[j] in order;
    assert KeepsTogether(order, y);
  }

  lemma RankFollows(order: seq<Path>, d: Path, a: string, b: string, i: nat, j: nat)
    requires IsWalk(order) && IsPlainListing(order) && i < j < |order| && a != b
    requires || (d + [a] == order[i] && d + [b] == order[j])
             || (IsAbove(d + [a], order[i]) && IsAbove(d + [b], order[j]))
    ensures Rank(order, d + [a]) <= i < Rank(order, d + [b])
  {
    var x, y := d + [a], d + [b];
    assert x[|d|] != y[|d|];
    assert !(y <= order[i]) && x <= order[i] && y <= order[j];
    hide IsWalk, IsPlainListing, Rank, IsAbove;
    if Rank(order, y) < i {
      NotMetBefore(order, y, Rank(order, y), i, j);
    }
  }

  lemma {:induction false} RankedOrder(order: seq<Path>, d: Path, p: Path, q: Path, i: nat, j: nat)
    requires IsWalk(order) && IsPlainListing(order) && i < j < |order|
    requires order[i] == d + p && order[j] == d + q
    ensures WalkLe(ByRank(order), d, p, q)
    decreases |p|
  {
    hide IsWalk, Rank;
    assert order[i] in order && order[j] in order && order[i] != order[j];
    if p != [] {
      assert !(order[j] <= order[i]);
      assert d + p == (d + [p[0]]) + p[1..] && d + q == (d + [q[0]]) + q[1..];
      if (|p| == 1) != (|q| == 1) {
        if |q| == 1 {
          assert order[j][..|order[j]| - 1] == d;
          assert Before(order[j], order[i]);
          FirstFiles(order, i, j);
        }
      } else if p[0] == q[0] {
        RankedOrder(order, d + [p[0]], p[1..], q[1..], i, j);
      } else {
        RankFollows(order, d, p[0], q[0], i, j);
      }
    }
  }

  lemma FirstFiles(order: seq<Path>, i: nat, j: nat)
    requires IsWalk(order) && i < j < |order|
    ensures !Before(order[j], order[i])
  {
  }

  // Conversely every walk is sorted, by where it meets files and directories first.
  lemma WalkIsSorted(order: seq<Path>)
    requires IsWalk(order) && IsPlainListing(order)
    ensures Sorted(Ordered(ByRank(order)), order)
  {
    hide IsWalk, IsPlainListing, WalkLe;
    forall i, j | 0 <= i < j < |order| ensures WalkLe(ByRank(order), [], order[i], order[j]) {
      assert [] + order[i] == order[i] && [] + order[j] == order[j];
      RankedOrder(order, [], order[i], order[j], i, j);
    }
  }
}
