// Shared vocabulary: optional values, byte-wise text order, and the stable sort that the standard
// libraries of the modelled programs provide.

module Wrappers {
  datatype Option<+T> = None | Some(value: T) {
    predicate IsFailure() {
      None?
    }

    function PropagateFailure<U>(): Option<U>
      requires None?
    {
      None
    }

    function Extract(): T
      requires Some?
    {
      value
    }
  }
}

module Ordering {
  ghost predicate TotalPreorder<T(!new)>(le: (T, T) -> bool) {
    && (forall x, y :: le(x, y) || le(y, x))
    && (forall x, y, z :: le(x, y) && le(y, z) ==> le(x, z))
  }

  // Elements of xs that the order cannot tell apart are equal.
  ghost predicate AntisymmetricOn<T(!new)>(le: (T, T) -> bool, xs: seq<T>) {
    forall x, y :: x in xs && y in xs && le(x, y) && le(y, x) ==> x == y
  }

  ghost predicate Sorted<T>(le: (T, T) -> bool, xs: seq<T>) {
    forall i, j :: 0 <= i < j < |xs| ==> le(xs[i], xs[j])
  }

  predicate Distinct<T(==)>(xs: seq<T>) {
    forall i, j :: 0 <= i < j < |xs| ==> xs[i] != xs[j]
  }

  function Insert<T>(le: (T, T) -> bool, x: T, xs: seq<T>): seq<T> {
    if xs == [] || le(x, xs[0]) then [x] + xs else [xs[0]] + Insert(le, x, xs[1..])
  }

  // Stable: an element goes in front of the equal elements that followed it.
  function Sort<T>(le: (T, T) -> bool, xs: seq<T>): seq<T> {
    if xs == [] then [] else Insert(le, xs[0], Sort(le, xs[1..]))
  }

  lemma {:induction false} InsertPermutes<T>(le: (T, T) -> bool, x: T, xs: seq<T>)
    ensures multiset(Insert(le, x, xs)) == multiset{x} + multiset(xs)
  {
    if xs == [] || le(x, xs[0]) {
    } else {
      InsertPermutes(le, x, xs[1..]);
      assert xs == [xs[0]] + xs[1..];
    }
  }

  lemma {:induction false} SortPermutes<T>(le: (T, T) -> bool, xs: seq<T>)
    ensures multiset(Sort(le, xs)) == multiset(xs)
    ensures |Sort(le, xs)| == |xs|
  {
    if xs == [] {
    } else {
      SortPermutes(le, xs[1..]);
      InsertPermutes(le, xs[0], Sort(le, xs[1..]));
      assert xs == [xs[0]] + xs[1..];
    }
    assert |multiset(Sort(le, xs))| == |multiset(xs)|;
  }

  lemma SameElements<T>(a: seq<T>, b: seq<T>, x: T)
    requires multiset(a) == multiset(b)
    ensures x in a <==> x in b
  {
    assert x in a <==> x in multiset(a);
  }

  lemma {:induction false} InsertSorts<T(!new)>(le: (T, T) -> bool, x: T, xs: seq<T>)
    requires TotalPreorder(le) && Sorted(le, xs)
    ensures Sorted(le, Insert(le, x, xs))
  {
    if xs == [] {
    } else if le(x, xs[0]) {
      assert forall j :: 0 < j < |xs| ==> le(xs[0], xs[j]);
    } else {
      var rest := Insert(le, x, xs[1..]);
      InsertSorts(le, x, xs[1..]);
      forall j | 0 <= j < |rest| ensures le(xs[0], rest[j]) {
        InsertPermutes(le, x, xs[1..]);
        assert rest[j] in multiset(rest);
        assert rest[j] == x || rest[j] in xs[1..];
      }
    }
  }

  lemma {:induction false} SortSorts<T(!new)>(le: (T, T) -> bool, xs: seq<T>)
    requires TotalPreorder(le)
    ensures Sorted(le, Sort(le, xs))
  {
    if xs == [] {
    } else {
      SortSorts(le, xs[1..]);
      InsertSorts(le, xs[0], Sort(le, xs[1..]));
    }
  }

  lemma {:induction false} SortOfSorted<T>(le: (T, T) -> bool, xs: seq<T>)
    requires Sorted(le, xs)
    ensures Sort(le, xs) == xs
  {
    if xs == [] {
    } else {
      SortOfSorted(le, xs[1..]);
    }
  }

  lemma FirstIsLeast<T(!new)>(le: (T, T) -> bool, a: seq<T>, x: T)
    requires Sorted(le, a) && TotalPreorder(le) && x in a
    ensures le(a[0], x)
  {
    var j :| 0 <= j < |a| && a[j] == x;
    assert le(x, x);
  }

  lemma TailMultiset<T>(a: seq<T>)
    requires a != []
    ensures multiset(a) == multiset{a[0]} + multiset(a[1..])
    ensures multiset(a[1..]) == multiset(a) - multiset{a[0]}
  {
    assert a == [a[0]] + a[1..];
  }

  function RemoveAt<T>(a: seq<T>, k: nat): (r: seq<T>)
    requires k < |a|
    ensures |r| == |a| - 1
    ensures forall i :: 0 <= i < |r| ==> r[i] == a[if i < k then i else i + 1]
  {
    a[..k] + a[k + 1..]
  }

  lemma RemoveAtMultiset<T>(a: seq<T>, k: nat)
    requires k < |a|
    ensures multiset(a) == multiset{a[k]} + multiset(RemoveAt(a, k))
  {
    assert a == a[..k] + [a[k]] + a[k + 1..];
  }

  lemma RemoveAtElements<T>(a: seq<T>, k: nat)
    requires k < |a|
    ensures forall i :: 0 <= i < |a| && i != k ==> a[i] in RemoveAt(a, k)
    ensures Distinct(a) ==> Distinct(RemoveAt(a, k))
  {
    forall i | 0 <= i < |a| && i != k ensures a[i] in RemoveAt(a, k) {
      assert RemoveAt(a, k)[if i < k then i else i - 1] == a[i];
    }
  }

  lemma DistinctAt<T>(xs: seq<T>, i: nat, j: nat)
    requires Distinct(xs) && i < |xs| && j < |xs| && xs[i] == xs[j]
    ensures i == j
  {
  }

  lemma DistinctSnoc<T>(xs: seq<T>, x: T)
    ensures Distinct(xs + [x]) <==> Distinct(xs) && x !in xs
  {
    var ys := xs + [x];
    assert forall i :: 0 <= i < |xs| ==> ys[i] == xs[i];
    assert ys[|xs|] == x;
    if Distinct(ys) {
      forall i, j | 0 <= i < j < |xs| ensures xs[i] != xs[j] { assert ys[i] != ys[j]; }
      forall i | 0 <= i < |xs| ensures xs[i] != x { assert ys[i] != ys[|xs|]; }
    }
  }

  lemma DistinctConcat<T>(a: seq<T>, b: seq<T>)
    ensures Distinct(a + b) <==> Distinct(a) && Distinct(b) && forall x :: x in a ==> x !in b
  {
    var c := a + b;
    assert forall i :: 0 <= i < |a| ==> c[i] == a[i];
    assert forall i :: 0 <= i < |b| ==> c[|a| + i] == b[i];
    if Distinct(c) {
      forall i, j | 0 <= i < j < |a| ensures a[i] != a[j] { assert c[i] != c[j]; }
      forall i, j | 0 <= i < j < |b| ensures b[i] != b[j] { assert c[|a| + i] != c[|a| + j]; }
      forall x | x in a ensures x !in b {
        var i :| 0 <= i < |a| && a[i] == x;
        forall j | 0 <= j < |b| ensures b[j] != x { assert c[i] != c[|a| + j]; }
      }
    }
    if Distinct(a) && Distinct(b) && forall x :: x in a ==> x !in b {
      forall i, j | 0 <= i < j < |c| ensures c[i] != c[j] {
        if j < |a| { assert a[i] != a[j]; }
        else if i >= |a| { assert b[i - |a|] != b[j - |a|]; }
        else { assert a[i] in a && b[j - |a|] in b; }
      }
    }
  }

  function Map<T, U>(f: T -> U, xs: seq<T>): (r: seq<U>)
    ensures |r| == |xs| && forall i :: 0 <= i < |xs| ==> r[i] == f(xs[i])
  {
    if xs == [] then [] else [f(xs[0])] + Map(f, xs[1..])
  }

  lemma {:induction false} MapPermutes<T, U>(f: T -> U, a: seq<T>, b: seq<T>)
    requires multiset(a) == multiset(b)
    ensures multiset(Map(f, a)) == multiset(Map(f, b))
  {
    if a == [] {
      assert |b| == |multiset(b)| == 0;
    } else {
      SameElements(a, b, a[0]);
      var j :| 0 <= j < |b| && b[j] == a[0];
      RemoveAtMultiset(b, j);
      TailMultiset(a);
      MapPermutes(f, a[1..], RemoveAt(b, j));
      TailMultiset(Map(f, a));
      MapRemoveAt(f, b, j);
    }
  }

  lemma MapRemoveAt<T, U>(f: T -> U, b: seq<T>, j: nat)
    requires j < |b|
    ensures multiset(Map(f, b)) == multiset{f(b[j])} + multiset(Map(f, RemoveAt(b, j)))
  {
    RemoveAtMultiset(Map(f, b), j);
    assert Map(f, RemoveAt(b, j)) == RemoveAt(Map(f, b), j);
  }

  lemma {:induction false} InsertOfMap<T(!new), U>(f: T -> U, le: (U, U) -> bool, before: (T, T) -> bool, x: T, xs: seq<T>)
    requires forall a, b :: le(f(a), f(b)) <==> before(a, b)
    ensures Insert(le, f(x), Map(f, xs)) == Map(f, Insert(before, x, xs))
  {
    if xs == [] || before(x, xs[0]) {
      assert Map(f, [x] + xs) == [f(x)] + Map(f, xs);
    } else {
      InsertOfMap(f, le, before, x, xs[1..]);
      assert Map(f, xs)[1..] == Map(f, xs[1..]);
    }
  }

  // Sorting by an order on the images, or sorting first and mapping after.
  lemma {:induction false} SortOfMap<T(!new), U>(f: T -> U, le: (U, U) -> bool, before: (T, T) -> bool, xs: seq<T>)
    requires forall a, b :: le(f(a), f(b)) <==> before(a, b)
    ensures Sort(le, Map(f, xs)) == Map(f, Sort(before, xs))
  {
    if xs != [] {
      SortOfMap(f, le, before, xs[1..]);
      InsertOfMap(f, le, before, xs[0], Sort(before, xs[1..]));
      assert Map(f, xs)[1..] == Map(f, xs[1..]);
    }
  }

  // Equally long lists without repetition, one inside the other, are permutations of each other.
  lemma {:induction false} InclusionGivesPermutation<T>(a: seq<T>, b: seq<T>)
    requires Distinct(a) && Distinct(b) && |a| == |b|
    requires forall x :: x in a ==> x in b
    ensures multiset(a) == multiset(b)
  {
    if a == [] {
    } else {
      assert a[0] in b;
      var j :| 0 <= j < |b| && b[j] == a[0];
      RemoveAtMultiset(b, j);
      RemoveAtElements(b, j);
      TailMultiset(a);
      forall x | x in a[1..] ensures x in RemoveAt(b, j) {
        var i :| 0 <= i < |a[1..]| && a[1..][i] == x;
        assert a[i + 1] == x && x in a;
        var k :| 0 <= k < |b| && b[k] == x;
      }
      InclusionGivesPermutation(a[1..], RemoveAt(b, j));
    }
  }

  // A sorted list is determined by its elements when the order separates them.
  lemma {:induction false} SortedIsUnique<T(!new)>(le: (T, T) -> bool, a: seq<T>, b: seq<T>)
    requires Sorted(le, a) && Sorted(le, b)
    requires TotalPreorder(le)
    requires multiset(a) == multiset(b) && AntisymmetricOn(le, a)
    ensures a == b
  {
    assert |a| == |multiset(a)| == |multiset(b)| == |b|;
    if a == [] {
    } else {
      SameElements(a, b, a[0]);
      SameElements(a, b, b[0]);
      FirstIsLeast(le, a, b[0]);
      FirstIsLeast(le, b, a[0]);
      assert a[0] == b[0];
      TailMultiset(a);
      TailMultiset(b);
      SortedIsUnique(le, a[1..], b[1..]);
    }
  }

  lemma SortIgnoresOrder<T(!new)>(le: (T, T) -> bool, a: seq<T>, b: seq<T>)
    requires TotalPreorder(le)
    requires multiset(a) == multiset(b) && AntisymmetricOn(le, a)
    ensures Sort(le, a) == Sort(le, b)
  {
    SortSorts(le, a);
    SortSorts(le, b);
    SortPermutes(le, a);
    SortPermutes(le, b);
    forall x, y | x in Sort(le, a) && y in Sort(le, a) && le(x, y) && le(y, x) ensures x == y {
      SameElements(a, Sort(le, a), x);
      SameElements(a, Sort(le, a), y);
    }
    SortedIsUnique(le, Sort(le, a), Sort(le, b));
  }

  lemma {:induction false} DistinctIsMultisetProperty<T>(xs: seq<T>)
    ensures Distinct(xs) <==> (forall x :: x in xs ==> multiset(xs)[x] == 1)
  {
    if xs == [] {
    } else {
      var tail := xs[1..];
      DistinctIsMultisetProperty(tail);
      assert xs == [xs[0]] + tail;
      assert multiset(xs) == multiset{xs[0]} + multiset(tail);
      if Distinct(xs) {
        assert Distinct(tail);
        assert xs[0] !in tail;
        forall x | x in xs ensures multiset(xs)[x] == 1 {
          if x == xs[0] { assert multiset(tail)[x] == 0; } else { assert x in tail; }
        }
      }
      if forall x :: x in xs ==> multiset(xs)[x] == 1 {
        assert multiset(xs)[xs[0]] == 1;
        assert xs[0] !in tail;
        forall x | x in tail ensures multiset(tail)[x] == 1 { assert x in xs; assert x != xs[0]; }
      }
    }
  }

  lemma PermutationKeepsDistinct<T>(a: seq<T>, b: seq<T>)
    requires multiset(a) == multiset(b)
    ensures Distinct(a) <==> Distinct(b)
  {
    DistinctIsMultisetProperty(a);
    DistinctIsMultisetProperty(b);
    forall x ensures x in a <==> x in b { SameElements(a, b, x); }
  }

  // Byte-wise order of texts.
  predicate LexLe(a: string, b: string) {
    if a == "" then true
    else if b == "" then false
    else if a[0] != b[0] then a[0] < b[0]
    else LexLe(a[1..], b[1..])
  }

  lemma {:induction false} LexTotal(a: string, b: string)
    ensures LexLe(a, b) || LexLe(b, a)
    ensures LexLe(a, b) && LexLe(b, a) ==> a == b
  {
    if a != "" && b != "" && a[0] == b[0] {
      LexTotal(a[1..], b[1..]);
      assert a == [a[0]] + a[1..] && b == [b[0]] + b[1..];
    }
  }

  lemma {:induction false} LexTransitive(a: string, b: string, c: string)
    requires LexLe(a, b) && LexLe(b, c)
    ensures LexLe(a, c)
  {
    if a != "" && b != "" && c != "" && a[0] == b[0] == c[0] {
      LexTransitive(a[1..], b[1..], c[1..]);
    }
  }

  lemma LexIsTotalOrder()
    ensures TotalPreorder(LexLe)
    ensures forall a: string, b: string :: LexLe(a, b) && LexLe(b, a) ==> a == b
  {
    forall a, b ensures (LexLe(a, b) || LexLe(b, a)) && (LexLe(a, b) && LexLe(b, a) ==> a == b) {
      LexTotal(a, b);
    }
    forall a, b, c | LexLe(a, b) && LexLe(b, c) ensures LexLe(a, c) { LexTransitive(a, b, c); }
  }
}
