// What the digests that name a quota snapshot and a requirement set determine.
module QuotaIdentity {
  import opened Wrappers
  import opened Ordering
  import opened Framing
  import opened Json
  import opened QuotaUnits
  import opened Quota
  import opened NulSegments

  // ---------------------------------------------------------------- the printed parts

  lemma IntegerTextIsInjective(a: I64, b: I64)
    requires IntegerText(a) == IntegerText(b)
    ensures a == b
  {
    ParseDocumentRendered(Integer(a));
    ParseDocumentRendered(Integer(b));
    assert Render(Integer(a)) == Render(Integer(b));
  }

  lemma {:induction false} DigitsAreNulFree(n: nat)
    ensures IsNulFree(Digits(n))
  {
    if n >= 10 {
      DigitsAreNulFree(n / 10);
    }
  }

  lemma PartsAreNulFree(lib: Library, policyRevision: I64, domain: string, json: string)
    requires lib.Valid() && policyRevision > 0
    ensures IsNulFree(IntegerText(policyRevision)) && IsNulFree(DomainDigest(lib, domain, json))
  {
    DigitsAreNulFree(policyRevision);
    var digest := lib.sha256(domain + json);
    assert AllOf(IsLowerHex, digest);
  }

  lemma KindNameIsInjective(a: ResourceKind, b: ResourceKind)
    requires KindName(a) == KindName(b)
    ensures a == b
  {
    assert |KindName(Tokens)| == 6 && |KindName(TimeMs)| == 7;
    assert |KindName(ConnectorCalls)| == 15 && |KindName(ResourceUnits)| == 14;
  }

  lemma MeteredNesting(name: string, m: Metered)
    ensures Nesting(MeteredValue(name, m)) <= 1
  {
    FieldsNestingBound(MeteredValue(name, m).fields, 0);
  }

  lemma {:induction false} MeteredJsonNesting(items: seq<Value>)
    requires forall i :: 0 <= i < |items| ==> Nesting(items[i]) <= 1
    ensures Nesting(Array(items)) <= 2
  {
    ItemsNestingBound(items, 1);
  }

  lemma MeteredJsonIsInjective(name: string, a: seq<Metered>, b: seq<Metered>)
    requires MeteredJson(name, a) == MeteredJson(name, b)
    ensures a == b
  {
    hide MeteredValue, Render, Nesting;
    var x, y := Map(m => MeteredValue(name, m), a), Map(m => MeteredValue(name, m), b);
    forall i | 0 <= i < |x| ensures Nesting(x[i]) <= 1 {
      MeteredNesting(name, a[i]);
    }
    forall i | 0 <= i < |y| ensures Nesting(y[i]) <= 1 {
      MeteredNesting(name, b[i]);
    }
    MeteredJsonNesting(x);
    MeteredJsonNesting(y);
    ParseDocumentRendered(Array(x));
    ParseDocumentRendered(Array(y));
    assert x == y;
    forall i | 0 <= i < |a| ensures a[i] == b[i] {
      assert x[i] == y[i];
      MeteredValueIsInjective(name, a[i], b[i]);
    }
  }

  lemma MeteredValueIsInjective(name: string, a: Metered, b: Metered)
    requires MeteredValue(name, a) == MeteredValue(name, b)
    ensures a == b
  {
    hide KindName;
    var x, y := MeteredValue(name, a).fields, MeteredValue(name, b).fields;
    assert x[0] == y[0] && x[1] == y[1] && x[2] == y[2];
    KindNameIsInjective(a.kind, b.kind);
  }

  // ---------------------------------------------------------------- digests

  ghost predicate Collides(lib: Library, a: string, b: string) {
    a != b && lib.sha256(a) == lib.sha256(b)
  }

  lemma SameDigestSameValue(lib: Library, domain: string, a: string, b: string)
    requires DomainDigest(lib, domain, a) == DomainDigest(lib, domain, b)
    requires !Collides(lib, domain + a, domain + b)
    ensures a == b
  {
    SplitEqual("sha256:", lib.sha256(domain + a), "sha256:", lib.sha256(domain + b));
    SplitEqual(domain, a, domain, b);
  }

  lemma DigestIsNulFree(lib: Library, domain: string, json: string)
    requires lib.Valid()
    ensures IsNulFree(DomainDigest(lib, domain, json))
  {
    PartsAreNulFree(lib, 1, domain, json);
  }

  // ---------------------------------------------------------------- the text behind a snapshot id

  function PartsOf(s: Snapshot): seq<string> {
    SnapshotParts(s.delegationId, s.policyRevision, s.authorityDigest, s.scopeKey, s.entriesDigest)
  }

  function IdentityText(s: Snapshot): string {
    NulJoin(PartsOf(s))
  }

  // The compiler accepts the parts of this snapshot and makes this snapshot of them.
  ghost predicate IsCompiled(lib: Library, trim: string -> string, s: Snapshot) {
    CompiledSnapshot(lib, trim, s.delegationId, s.policyRevision, s.authorityDigest, s.scopeKey, s.entries) == Some(s)
  }

  // Whatever the compiler accepts is such a snapshot.
  lemma CompiledIsCompiled(lib: Library, trim: string -> string, delegationId: string, policyRevision: I64,
                           authorityDigest: string, scopeKey: string, inputs: seq<Metered>)
    requires CompiledSnapshot(lib, trim, delegationId, policyRevision, authorityDigest, scopeKey, inputs).Some?
    ensures IsCompiled(lib, trim,
              CompiledSnapshot(lib, trim, delegationId, policyRevision, authorityDigest, scopeKey, inputs).value)
  {
    hide IsQuota, MakeSnapshot, IsCanonicalName, Distinct, Identities;
    var s := MakeSnapshot(lib, delegationId, policyRevision, authorityDigest, scopeKey, Sort(MeteredLe, inputs));
    SortedIsCompiled(inputs);
    NamesOfMade(lib, delegationId, policyRevision, authorityDigest, scopeKey, Sort(MeteredLe, inputs));
  }

  lemma SortedIsCompiled(inputs: seq<Metered>)
    requires AreQuotas(inputs)
    ensures AreQuotas(Sort(MeteredLe, inputs))
    ensures Sort(MeteredLe, Sort(MeteredLe, inputs)) == Sort(MeteredLe, inputs)
  {
    hide IsQuota;
    MeteredOrder();
    SortSorts(MeteredLe, inputs);
    SortPermutes(MeteredLe, inputs);
    QuotasArePermuted(Sort(MeteredLe, inputs), inputs);
    SortOfSorted(MeteredLe, Sort(MeteredLe, inputs));
  }

  lemma NamesOfMade(lib: Library, delegationId: string, policyRevision: I64, authorityDigest: string, scopeKey: string,
                    entries: seq<Metered>)
    ensures var s := MakeSnapshot(lib, delegationId, policyRevision, authorityDigest, scopeKey, entries);
      && s.delegationId == delegationId && s.policyRevision == policyRevision
      && s.authorityDigest == authorityDigest && s.scopeKey == scopeKey && s.entries == entries
      && s.entriesDigest == DomainDigest(lib, ENTRIES_DOMAIN, MeteredJson("limit", entries))
      && s.id == DomainDigest(lib, SNAPSHOT_DOMAIN, IdentityText(s))
  {
    hide MeteredJson, DomainDigest, IntegerText, NulJoin;
  }

  lemma CompiledParts(lib: Library, trim: string -> string, s: Snapshot)
    requires IsCompiled(lib, trim, s)
    ensures AreSnapshotNames(trim, s.delegationId, s.policyRevision, s.authorityDigest, s.scopeKey)
    ensures AreQuotas(s.entries) && Sort(MeteredLe, s.entries) == s.entries
    ensures s == MakeSnapshot(lib, s.delegationId, s.policyRevision, s.authorityDigest, s.scopeKey, s.entries)
    ensures s.entriesJson == MeteredJson("limit", s.entries)
    ensures s.entriesDigest == DomainDigest(lib, ENTRIES_DOMAIN, s.entriesJson)
    ensures s.id == DomainDigest(lib, SNAPSHOT_DOMAIN, IdentityText(s))
  {
    hide MeteredJson, DomainDigest, IntegerText, NulJoin, IsCanonicalName, IsQuota;
  }

  // ---------------------------------------------------------------- the readings of the text

  // The segments of the text, without the digest of the entries.
  function NameSegments(s: Snapshot): seq<string> {
    NulSplit(s.delegationId) + [IntegerText(s.policyRevision)] + NulSplit(s.authorityDigest) + NulSplit(s.scopeKey)
  }

  function RevisionAt(s: Snapshot): nat {
    |NulSplit(s.delegationId)|
  }

  function ScopeFrom(s: Snapshot): nat {
    |NulSplit(s.delegationId)| + 1 + |NulSplit(s.authorityDigest)|
  }

  ghost predicate IsRevision(segment: string) {
    exists r: I64 :: r > 0 && IntegerText(r) == segment
  }

  // The segments can be taken for three names the compiler accepts, with segment i the revision and
  // the scope key from segment k on.
  ghost predicate IsReading(trim: string -> string, segments: seq<string>, i: nat, k: nat) {
    && 0 < i && i + 1 < k < |segments|
    && IsRevision(segments[i])
    && IsCanonicalName(trim, NulJoin(segments[..i]))
    && IsCanonicalName(trim, NulJoin(segments[i + 1..k]))
    && IsCanonicalName(trim, NulJoin(segments[k..]))
  }

  // The names can be read back from their segments in one way only.
  ghost predicate HasOneReading(trim: string -> string, s: Snapshot) {
    forall i, k :: IsReading(trim, NameSegments(s), i, k) ==> i == RevisionAt(s) && k == ScopeFrom(s)
  }

  lemma SegmentsAreNulFree(s: Snapshot)
    requires s.policyRevision > 0
    ensures forall j :: 0 <= j < |NameSegments(s)| ==> IsNulFree(NameSegments(s)[j])
  {
    hide NulSplit, NulJoin, IsNulFree;
    NulJoinOfSplit(s.delegationId);
    NulJoinOfSplit(s.authorityDigest);
    NulJoinOfSplit(s.scopeKey);
    assert IsNulFree(IntegerText(s.policyRevision)) by {
      DigitsAreNulFree(s.policyRevision);
    }
    hide IntegerText;
  }

  lemma SegmentsOfIdentity(lib: Library, trim: string -> string, s: Snapshot)
    requires lib.Valid() && IsCompiled(lib, trim, s)
    ensures NulSplit(IdentityText(s)) == NameSegments(s) + [s.entriesDigest]
  {
    CompiledParts(lib, trim, s);
    hide IntegerText, DomainDigest, MeteredJson, NulSplit, NulJoin, IsNulFree, IsCompiled, MakeSnapshot, IsCanonicalName;
    var p := PartsOf(s);
    SplitOfJoin(p);
    PartsAreNulFree(lib, s.policyRevision, ENTRIES_DOMAIN, s.entriesJson);
    SplitOfNulFree(IntegerText(s.policyRevision));
    SplitOfNulFree(s.entriesDigest);
    SegmentsOfCons(p[0], p[1..]);
    SegmentsOfCons(p[1], p[1..][1..]);
    SegmentsOfCons(p[2], p[1..][1..][1..]);
    SegmentsOfCons(p[3], [p[4]]);
    assert p == [p[0]] + p[1..] && p[1..] == [p[1]] + p[1..][1..];
    assert p[1..][1..] == [p[2]] + p[1..][1..][1..] && p[1..][1..][1..] == [p[3]] + [p[4]];
    SegmentsOfCons(p[4], []);
    assert [p[4]] + [] == [p[4]];
    LeftSegments(NulSplit(p[0]), [p[1]], NulSplit(p[2]), NulSplit(p[3]), [p[4]]);
  }

  lemma LeftSegments(d: seq<string>, r: seq<string>, a: seq<string>, c: seq<string>, g: seq<string>)
    ensures d + (r + (a + (c + g))) == d + r + a + c + g
  {
  }

  lemma CutSegments(d: seq<string>, r: string, a: seq<string>, c: seq<string>)
    ensures var l := d + [r] + a + c;
      && l[..|d|] == d && l[|d|] == r
      && l[|d| + 1..|d| + 1 + |a|] == a && l[|d| + 1 + |a|..] == c
  {
  }

  // The names are one reading of their own segments.
  lemma OwnReading(lib: Library, trim: string -> string, s: Snapshot)
    requires IsCompiled(lib, trim, s)
    ensures IsReading(trim, NameSegments(s), RevisionAt(s), ScopeFrom(s))
    ensures var l := NameSegments(s);
      && NulJoin(l[..RevisionAt(s)]) == s.delegationId && l[RevisionAt(s)] == IntegerText(s.policyRevision)
      && NulJoin(l[RevisionAt(s) + 1..ScopeFrom(s)]) == s.authorityDigest && NulJoin(l[ScopeFrom(s)..]) == s.scopeKey
  {
    CompiledParts(lib, trim, s);
    hide NulSplit, NulJoin, IsNulFree, IntegerText, IsCanonicalName, IsCompiled, MakeSnapshot, MeteredJson, DomainDigest;
    CutSegments(NulSplit(s.delegationId), IntegerText(s.policyRevision), NulSplit(s.authorityDigest), NulSplit(s.scopeKey));
    NulJoinOfSplit(s.delegationId);
    NulJoinOfSplit(s.authorityDigest);
    NulJoinOfSplit(s.scopeKey);
  }

  lemma SplitOfCuts(l: seq<string>, i: nat, k: nat)
    requires 0 < i && i + 1 < k < |l| && forall j :: 0 <= j < |l| ==> IsNulFree(l[j])
    ensures NulSplit(NulJoin(l[..i])) == l[..i] && NulSplit(NulJoin(l[i + 1..k])) == l[i + 1..k]
    ensures NulSplit(NulJoin(l[k..])) == l[k..]
    ensures l == l[..i] + [l[i]] + l[i + 1..k] + l[k..]
  {
    hide NulSplit, NulJoin, IsNulFree;
    SplitOfSegments(l[..i]);
    SplitOfSegments(l[i + 1..k]);
    SplitOfSegments(l[k..]);
  }

  // Every reading is that of a compiled snapshot with the same entries and the same text.
  lemma ReadingIsCompiled(lib: Library, trim: string -> string, s: Snapshot, i: nat, k: nat) returns (t: Snapshot)
    requires lib.Valid() && IsCompiled(lib, trim, s) && IsReading(trim, NameSegments(s), i, k)
    ensures IsCompiled(lib, trim, t) && t.entries == s.entries && IdentityText(t) == IdentityText(s)
    ensures RevisionAt(t) == i && ScopeFrom(t) == k
  {
    CompiledParts(lib, trim, s);
    var l := NameSegments(s);
    var revision: I64 :| revision > 0 && IntegerText(revision) == l[i];
    t := MakeSnapshot(lib, NulJoin(l[..i]), revision, NulJoin(l[i + 1..k]), NulJoin(l[k..]), s.entries);
    NamesOfMade(lib, NulJoin(l[..i]), revision, NulJoin(l[i + 1..k]), NulJoin(l[k..]), s.entries);
    SegmentsAreNulFree(s);
    hide NulSplit, NulJoin, IsNulFree, IntegerText, IsCanonicalName, MakeSnapshot, MeteredJson, DomainDigest, IsQuota;
    hide IdentityText, Distinct, Identities;
    SplitOfCuts(l, i, k);
    assert NameSegments(t) == l;
    SameSegmentsSameIdentity(lib, trim, s, t);
  }

  lemma SameSegmentsSameIdentity(lib: Library, trim: string -> string, s: Snapshot, t: Snapshot)
    requires lib.Valid() && IsCompiled(lib, trim, s) && IsCompiled(lib, trim, t)
    requires NameSegments(s) == NameSegments(t) && s.entriesDigest == t.entriesDigest
    ensures IdentityText(s) == IdentityText(t)
  {
    SegmentsOfIdentity(lib, trim, s);
    SegmentsOfIdentity(lib, trim, t);
    SameSegmentsSameText(IdentityText(s), IdentityText(t));
  }

  // A compiled snapshot with the same text is one of the readings, and the cuts tell which.
  lemma CompiledIsReading(lib: Library, trim: string -> string, s: Snapshot, t: Snapshot)
    requires lib.Valid() && IsCompiled(lib, trim, s) && IsCompiled(lib, trim, t)
    requires IdentityText(s) == IdentityText(t)
    ensures s.entriesDigest == t.entriesDigest
    ensures IsReading(trim, NameSegments(s), RevisionAt(t), ScopeFrom(t))
    ensures RevisionAt(s) == RevisionAt(t) && ScopeFrom(s) == ScopeFrom(t) ==> PartsOf(s) == PartsOf(t)
    ensures RevisionAt(s) == RevisionAt(t) && ScopeFrom(s) == ScopeFrom(t) ==> s.policyRevision == t.policyRevision
  {
    SegmentsOfIdentity(lib, trim, s);
    SegmentsOfIdentity(lib, trim, t);
    OwnReading(lib, trim, s);
    OwnReading(lib, trim, t);
    hide NulSplit, NulJoin, IsNulFree, IntegerText, IsCanonicalName, IdentityText, IsCompiled, NameSegments, RevisionAt,
      ScopeFrom, IsReading;
    LastSegment(NameSegments(s), s.entriesDigest, NameSegments(t), t.entriesDigest);
    if IntegerText(s.policyRevision) == IntegerText(t.policyRevision) {
      IntegerTextIsInjective(s.policyRevision, t.policyRevision);
    }
  }

  lemma LastSegment(l: seq<string>, g: string, m: seq<string>, h: string)
    requires l + [g] == m + [h]
    ensures l == m && g == h
  {
    assert (l + [g])[..|l|] == l && (m + [h])[..|m|] == m;
    assert (l + [g])[|l|] == g && (m + [h])[|m|] == h;
  }

  // Among the snapshots the compiler accepts, the identity text belongs to one exactly when its
  // segments have one reading.
  lemma OneReadingExactly(lib: Library, trim: string -> string, s: Snapshot)
    requires lib.Valid() && IsCompiled(lib, trim, s)
    ensures HasOneReading(trim, s) <==>
      forall t :: IsCompiled(lib, trim, t) && t.entries == s.entries && IdentityText(t) == IdentityText(s) ==> t == s
  {
    hide IdentityText, IsReading, NameSegments, RevisionAt, ScopeFrom, IsCompiled;
    if HasOneReading(trim, s) {
      forall t | IsCompiled(lib, trim, t) && t.entries == s.entries && IdentityText(t) == IdentityText(s) ensures t == s {
        CompiledIsReading(lib, trim, s, t);
        SameParts(lib, trim, s, t);
      }
    } else {
      var i, k :| IsReading(trim, NameSegments(s), i, k) && !(i == RevisionAt(s) && k == ScopeFrom(s));
      var t := ReadingIsCompiled(lib, trim, s, i, k);
    }
  }

  lemma SameParts(lib: Library, trim: string -> string, s: Snapshot, t: Snapshot)
    requires IsCompiled(lib, trim, s) && IsCompiled(lib, trim, t) && s.entries == t.entries
    requires PartsOf(s) == PartsOf(t) && s.policyRevision == t.policyRevision
    ensures s == t
  {
    CompiledParts(lib, trim, s);
    CompiledParts(lib, trim, t);
    hide IntegerText, MakeSnapshot, MeteredJson, DomainDigest, IsCompiled, IsCanonicalName;
    var p, q := PartsOf(s), PartsOf(t);
    assert p[0] == q[0] && p[2] == q[2] && p[3] == q[3];
  }

  // ---------------------------------------------------------------- snapshot ids

  // A second reading: a different accepted snapshot under the same id.
  lemma SecondReadingSharesId(lib: Library, trim: string -> string, s: Snapshot) returns (t: Snapshot)
    requires lib.Valid() && IsCompiled(lib, trim, s) && !HasOneReading(trim, s)
    ensures IsCompiled(lib, trim, t) && t != s && t.id == s.id && t.entries == s.entries
  {
    hide IdentityText, IsReading, NameSegments, RevisionAt, ScopeFrom, IsCompiled, DomainDigest;
    var i, k :| IsReading(trim, NameSegments(s), i, k) && !(i == RevisionAt(s) && k == ScopeFrom(s));
    t := ReadingIsCompiled(lib, trim, s, i, k);
    CompiledParts(lib, trim, s);
    CompiledParts(lib, trim, t);
  }

  // One reading: the id belongs to no other accepted snapshot, unless SHA-256 confuses the entries or
  // the identity texts.
  lemma SnapshotIdDetermines(lib: Library, trim: string -> string, s: Snapshot, t: Snapshot)
    requires lib.Valid() && IsCompiled(lib, trim, s) && IsCompiled(lib, trim, t) && HasOneReading(trim, s)
    requires !Collides(lib, ENTRIES_DOMAIN + s.entriesJson, ENTRIES_DOMAIN + t.entriesJson)
    requires !Collides(lib, SNAPSHOT_DOMAIN + IdentityText(s), SNAPSHOT_DOMAIN + IdentityText(t))
    ensures s.id == t.id <==> s == t
  {
    hide IdentityText, IsReading, NameSegments, RevisionAt, ScopeFrom, IsCompiled, DomainDigest, MeteredJson, Collides,
      PartsOf, IntegerText;
    if s.id == t.id {
      CompiledParts(lib, trim, s);
      CompiledParts(lib, trim, t);
      SameDigestSameValue(lib, SNAPSHOT_DOMAIN, IdentityText(s), IdentityText(t));
      CompiledIsReading(lib, trim, s, t);
      SameDigestSameValue(lib, ENTRIES_DOMAIN, s.entriesJson, t.entriesJson);
      MeteredJsonIsInjective("limit", s.entries, t.entries);
      SameParts(lib, trim, s, t);
    }
  }

  // ---------------------------------------------------------------- clear names

  // No later segment of the delegation id can be taken for the revision, and the other two names
  // hold no NUL.
  ghost predicate HasClearNames(s: Snapshot) {
    && (forall i :: 0 < i < |NulSplit(s.delegationId)| ==> !IsRevision(NulSplit(s.delegationId)[i]))
    && IsNulFree(s.authorityDigest) && IsNulFree(s.scopeKey)
  }

  lemma ClearNulFree(s: Snapshot)
    requires IsNulFree(s.delegationId)
    ensures HasClearNames(s) <==> IsNulFree(s.authorityDigest) && IsNulFree(s.scopeKey)
  {
    SplitOfNulFree(s.delegationId);
  }

  lemma ClearNamesHaveOneReading(trim: string -> string, s: Snapshot)
    requires HasClearNames(s)
    ensures HasOneReading(trim, s)
  {
    hide NulSplit, NulJoin, IsNulFree, IntegerText, IsCanonicalName, IsRevision;
    OneSegment(s.authorityDigest);
    OneSegment(s.scopeKey);
    LaterRevisions(trim, s);
  }

  // A reading with its revision before that of the names finds it in the delegation id.
  lemma LaterRevisions(trim: string -> string, s: Snapshot)
    ensures forall i: nat, k: nat :: IsReading(trim, NameSegments(s), i, k) && i < RevisionAt(s) ==>
      0 < i && IsRevision(NulSplit(s.delegationId)[i])
  {
    hide NulSplit, NulJoin, IntegerText, IsCanonicalName, IsRevision;
  }

  // Every run of consecutive segments makes a name the compiler accepts.
  ghost predicate HasCanonicalRuns(trim: string -> string, segments: seq<string>) {
    forall from, to :: 0 <= from < to <= |segments| ==> IsCanonicalName(trim, NulJoin(segments[from..to]))
  }

  // Without empty or blank-edged segments the clear names are exactly those with one reading.
  lemma ClearNamesExactly(trim: string -> string, s: Snapshot)
    requires s.policyRevision > 0 && HasCanonicalRuns(trim, NameSegments(s))
    ensures HasClearNames(s) <==> HasOneReading(trim, s)
  {
    hide NulSplit, NulJoin, IsNulFree, IntegerText, IsCanonicalName, HasCanonicalRuns;
    var d, l := NulSplit(s.delegationId), NameSegments(s);
    if HasClearNames(s) {
      ClearNamesHaveOneReading(trim, s);
    } else if i :| 0 < i < |d| && IsRevision(d[i]) {
      assert l[i] == d[i];
      RunsAreReading(trim, l, i, i + 2);
    } else {
      OneSegment(s.authorityDigest);
      OneSegment(s.scopeKey);
      assert l[|d|] == IntegerText(s.policyRevision) && IsRevision(l[|d|]);
      RunsAreReading(trim, l, |d|, if ScopeFrom(s) == |d| + 2 then |d| + 3 else |d| + 2);
    }
  }

  lemma RunsAreReading(trim: string -> string, segments: seq<string>, i: nat, k: nat)
    requires HasCanonicalRuns(trim, segments)
    requires 0 < i && i + 1 < k < |segments| && IsRevision(segments[i])
    ensures IsReading(trim, segments, i, k)
  {
    hide IsCanonicalName, NulJoin, IsRevision;
    assert segments[0..i] == segments[..i] && segments[k..|segments|] == segments[k..];
  }

  // ---------------------------------------------------------------- accepted inputs with one id

  // The name checks let such names through: both of these are compiled, differ, and share an id.
  lemma NulConfusesSnapshots(lib: Library, trim: string -> string, delegationId: string, policyRevision: I64,
                             a: string, b: string, c: string, inputs: seq<Metered>)
    requires lib.Valid() && AreQuotas(inputs)
    requires AreSnapshotNames(trim, delegationId, policyRevision, a + NUL + b, c)
    requires AreSnapshotNames(trim, delegationId, policyRevision, a, b + NUL + c)
    ensures var s := CompiledSnapshot(lib, trim, delegationId, policyRevision, a + NUL + b, c, inputs);
      var t := CompiledSnapshot(lib, trim, delegationId, policyRevision, a, b + NUL + c, inputs);
      s.Some? && t.Some? && s.value != t.value && s.value.id == t.value.id
  {
    hide NulSplit, NulJoin, IntegerText, MeteredJson, DomainDigest, IdentityText, AreQuotas, IsCanonicalName;
    CompiledIsCompiled(lib, trim, delegationId, policyRevision, a + NUL + b, c, inputs);
    CompiledIsCompiled(lib, trim, delegationId, policyRevision, a, b + NUL + c, inputs);
    var entries := Sort(MeteredLe, inputs);
    var s := MakeSnapshot(lib, delegationId, policyRevision, a + NUL + b, c, entries);
    var t := MakeSnapshot(lib, delegationId, policyRevision, a, b + NUL + c, entries);
    NamesOfMade(lib, delegationId, policyRevision, a + NUL + b, c, entries);
    NamesOfMade(lib, delegationId, policyRevision, a, b + NUL + c, entries);
    hide MakeSnapshot, IsCompiled;
    assert |a + NUL + b| > |a|;
    SplitOfConcat(a, b);
    SplitOfConcat(b, c);
    LeftSegments(NulSplit(delegationId), [IntegerText(policyRevision)], NulSplit(a), NulSplit(b), NulSplit(c));
    assert NameSegments(s) == NameSegments(t);
    SameSegmentsSameIdentity(lib, trim, s, t);
  }

  // One such pair of accepted inputs.
  lemma NulConfusesTwoInputs(lib: Library)
    requires lib.Valid()
    ensures var s := CompiledSnapshot(lib, s => s, "d", 1, "a" + NUL + "b", "c", []);
      var t := CompiledSnapshot(lib, s => s, "d", 1, "a", "b" + NUL + "c", []);
      s.Some? && t.Some? && s.value != t.value && s.value.id == t.value.id
  {
    hide MakeSnapshot;
    assert Identities([]) == [];
    NulConfusesSnapshots(lib, s => s, "d", 1, "a", "b", "c", []);
  }

  // ---------------------------------------------------------------- a NUL without a second reading

  function Same(s: string): string { s }

  lemma IsNoRevision(segment: string)
    requires segment == "" || segment[0] !in "0123456789"
    ensures !IsRevision(segment)
  {
    forall r: I64 | r > 0 ensures IntegerText(r) != segment {
      DigitsStart(r);
    }
  }

  lemma {:induction false} DigitsStart(n: nat)
    ensures Digits(n) != "" && Digits(n)[0] in "0123456789"
  {
    if n >= 10 {
      DigitsStart(n / 10);
    }
  }

  lemma OneCutIsReading(one: string)
    ensures forall i: nat, k: nat :: IsReading(Same, ["d", one, "", "b", "c"], i, k) ==> i == 1 && k == 4
  {
    hide IsRevision;
    var l := ["d", one, "", "b", "c"];
    IsNoRevision("");
    IsNoRevision("b");
    JoinOfOne("");
    assert l[2..3] == [""];
  }

  lemma SegmentsOfLeadingNul(s: Snapshot)
    requires s.delegationId == "d" && s.policyRevision == 1 && s.authorityDigest == NUL + "b" && s.scopeKey == "c"
    ensures NameSegments(s) == ["d", IntegerText(1), "", "b", "c"]
    ensures RevisionAt(s) == 1 && ScopeFrom(s) == 4
  {
    hide IntegerText;
    assert "" + NUL + "b" == NUL + "b";
    SplitOfConcat("", "b");
    SplitOfNulFree("");
    SplitOfNulFree("b");
    SplitOfNulFree("c");
    SplitOfNulFree("d");
    hide NulSplit;
  }

  // The names are not clear, but every other cut leaves an empty name.
  lemma LeadingNulHasOneReading(lib: Library)
    requires lib.Valid()
    ensures var s := MakeSnapshot(lib, "d", 1, NUL + "b", "c", []);
      IsCompiled(lib, Same, s) && !HasClearNames(s) && HasOneReading(Same, s)
  {
    var s := MakeSnapshot(lib, "d", 1, NUL + "b", "c", []);
    assert Identities([]) == [];
    NamesOfMade(lib, "d", 1, NUL + "b", "c", []);
    assert (NUL + "b")[0] == 0 as char;
    SegmentsOfLeadingNul(s);
    OneCutIsReading(IntegerText(1));
    hide MakeSnapshot, NameSegments, IsReading, RevisionAt, ScopeFrom, IntegerText, IsRevision;
  }
}
