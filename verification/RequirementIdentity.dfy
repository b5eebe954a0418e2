// What the digest that names a requirement set determines.
module RequirementIdentity {
  import opened Wrappers
  import opened Ordering
  import opened Framing
  import opened QuotaUnits
  import opened Quota
  import opened NulSegments
  import opened QuotaIdentity

  // The compiler accepts the parts of this set, against the snapshot, and makes this set of them.
  ghost predicate IsCompiledSet(lib: Library, trim: string -> string, snapshot: Snapshot, s: RequirementSet) {
    CompiledRequirements(lib, trim, snapshot, s.logicalEffectId, s.actionId, s.manifestDigest, s.requirements) == Some(s)
  }

  // Whatever the compiler accepts is such a set.
  lemma CompiledIsCompiledSet(lib: Library, trim: string -> string, snapshot: Snapshot, effectId: string,
                              actionId: string, manifestDigest: string, inputs: seq<Metered>)
    requires CompiledRequirements(lib, trim, snapshot, effectId, actionId, manifestDigest, inputs).Some?
    ensures IsCompiledSet(lib, trim, snapshot,
              CompiledRequirements(lib, trim, snapshot, effectId, actionId, manifestDigest, inputs).value)
  {
    hide IsRequirement, MeteredJson, DomainDigest, NulJoin, IsCanonicalName;
    MeteredOrder();
    SortSorts(MeteredLe, inputs);
    SortPermutes(MeteredLe, inputs);
    QuotasArePermuted(Sort(MeteredLe, inputs), inputs);
    SortOfSorted(MeteredLe, Sort(MeteredLe, inputs));
  }

  function SetParts(s: RequirementSet): seq<string> {
    [s.snapshotId, s.delegationId, s.logicalEffectId, s.actionId, s.manifestDigest, s.requirementsDigest]
  }

  function SetText(s: RequirementSet): string {
    NulJoin(SetParts(s))
  }

  lemma CompiledSetParts(lib: Library, trim: string -> string, snapshot: Snapshot, s: RequirementSet)
    requires IsCompiledSet(lib, trim, snapshot, s)
    ensures AreEffectNames(trim, s.logicalEffectId, s.actionId, s.manifestDigest)
    ensures AreRequirements(snapshot.entries, s.requirements) && Sort(MeteredLe, s.requirements) == s.requirements
    ensures s.snapshotId == snapshot.id && s.delegationId == snapshot.delegationId
    ensures s.requirementsJson == MeteredJson("amount", s.requirements)
    ensures s.requirementsDigest == DomainDigest(lib, REQUIREMENTS_DOMAIN, s.requirementsJson)
    ensures s.id == DomainDigest(lib, REQUIREMENT_SET_DOMAIN, SetText(s))
  {
    hide MeteredJson, DomainDigest, NulJoin, IsCanonicalName, IsRequirement;
  }

  // ---------------------------------------------------------------- the readings of the text

  function EffectSegments(s: RequirementSet): seq<string> {
    NulSplit(s.logicalEffectId) + NulSplit(s.actionId) + NulSplit(s.manifestDigest)
  }

  function ActionFrom(s: RequirementSet): nat {
    |NulSplit(s.logicalEffectId)|
  }

  function ManifestFrom(s: RequirementSet): nat {
    |NulSplit(s.logicalEffectId)| + |NulSplit(s.actionId)|
  }

  // The segments can be taken for three names the compiler accepts, cut before segments i and k.
  ghost predicate IsEffectReading(trim: string -> string, segments: seq<string>, i: nat, k: nat) {
    && 0 < i < k < |segments|
    && IsCanonicalName(trim, NulJoin(segments[..i]))
    && IsCanonicalName(trim, NulJoin(segments[i..k]))
    && IsCanonicalName(trim, NulJoin(segments[k..]))
  }

  ghost predicate HasOneEffectReading(trim: string -> string, s: RequirementSet) {
    forall i, k :: IsEffectReading(trim, EffectSegments(s), i, k) ==> i == ActionFrom(s) && k == ManifestFrom(s)
  }

  lemma SegmentsOfSet(s: RequirementSet)
    ensures NulSplit(SetText(s)) ==
      NulSplit(s.snapshotId) + NulSplit(s.delegationId) + EffectSegments(s) + NulSplit(s.requirementsDigest)
  {
    hide NulSplit, NulJoin;
    var p := SetParts(s);
    SplitOfJoin(p);
    SegmentsOfThree(p[3], p[4], p[5]);
    assert p == [p[0]] + ([p[1]] + ([p[2]] + [p[3], p[4], p[5]]));
    SegmentsOfCons(p[0], [p[1]] + ([p[2]] + [p[3], p[4], p[5]]));
    SegmentsOfCons(p[1], [p[2]] + [p[3], p[4], p[5]]);
    SegmentsOfCons(p[2], [p[3], p[4], p[5]]);
    LeftOfSix(NulSplit(p[0]), NulSplit(p[1]), NulSplit(p[2]), NulSplit(p[3]), NulSplit(p[4]), NulSplit(p[5]));
  }

  lemma LeftOfSix(i: seq<string>, d: seq<string>, e: seq<string>, a: seq<string>, m: seq<string>, g: seq<string>)
    ensures i + (d + (e + (a + (m + g)))) == i + d + (e + a + m) + g
  {
  }

  lemma SegmentsOfThree(x: string, y: string, z: string)
    ensures Segments([x, y, z]) == NulSplit(x) + (NulSplit(y) + NulSplit(z))
  {
    hide NulSplit;
    assert [x, y, z] == [x] + ([y] + ([z] + []));
    SegmentsOfCons(x, [y] + ([z] + []));
    SegmentsOfCons(y, [z] + []);
    SegmentsOfCons(z, []);
  }

  lemma CutThree(e: seq<string>, a: seq<string>, m: seq<string>)
    ensures var l := e + a + m; l[..|e|] == e && l[|e|..|e| + |a|] == a && l[|e| + |a|..] == m
  {
  }

  // The names are one reading of their own segments.
  lemma OwnEffectReading(lib: Library, trim: string -> string, snapshot: Snapshot, s: RequirementSet)
    requires IsCompiledSet(lib, trim, snapshot, s)
    ensures IsEffectReading(trim, EffectSegments(s), ActionFrom(s), ManifestFrom(s))
    ensures var l := EffectSegments(s);
      && NulJoin(l[..ActionFrom(s)]) == s.logicalEffectId
      && NulJoin(l[ActionFrom(s)..ManifestFrom(s)]) == s.actionId && NulJoin(l[ManifestFrom(s)..]) == s.manifestDigest
  {
    CompiledSetParts(lib, trim, snapshot, s);
    hide NulSplit, NulJoin, IsNulFree, IsCanonicalName, IsCompiledSet, MeteredJson, DomainDigest;
    CutThree(NulSplit(s.logicalEffectId), NulSplit(s.actionId), NulSplit(s.manifestDigest));
    NulJoinOfSplit(s.logicalEffectId);
    NulJoinOfSplit(s.actionId);
    NulJoinOfSplit(s.manifestDigest);
  }

  // A compiled set for the same snapshot with the same text is one of the readings.
  lemma CompiledIsEffectReading(lib: Library, trim: string -> string, snapshot: Snapshot, s: RequirementSet, t: RequirementSet)
    requires lib.Valid() && IsCompiledSet(lib, trim, snapshot, s) && IsCompiledSet(lib, trim, snapshot, t)
    requires SetText(s) == SetText(t)
    ensures s.requirementsDigest == t.requirementsDigest
    ensures IsEffectReading(trim, EffectSegments(s), ActionFrom(t), ManifestFrom(t))
    ensures ActionFrom(s) == ActionFrom(t) && ManifestFrom(s) == ManifestFrom(t) ==>
      s.logicalEffectId == t.logicalEffectId && s.actionId == t.actionId && s.manifestDigest == t.manifestDigest
  {
    CompiledSetParts(lib, trim, snapshot, s);
    CompiledSetParts(lib, trim, snapshot, t);
    OwnEffectReading(lib, trim, snapshot, s);
    OwnEffectReading(lib, trim, snapshot, t);
    hide NulSplit, NulJoin, IsNulFree, IsCanonicalName, SetText, IsCompiledSet, EffectSegments, ActionFrom, ManifestFrom,
      IsEffectReading, DomainDigest, MeteredJson;
    SegmentsOfSet(s);
    SegmentsOfSet(t);
    DigestIsNulFree(lib, REQUIREMENTS_DOMAIN, s.requirementsJson);
    DigestIsNulFree(lib, REQUIREMENTS_DOMAIN, t.requirementsJson);
    SplitOfNulFree(s.requirementsDigest);
    SplitOfNulFree(t.requirementsDigest);
    var head := NulSplit(s.snapshotId) + NulSplit(s.delegationId);
    LastSegment(head + EffectSegments(s), s.requirementsDigest, head + EffectSegments(t), t.requirementsDigest);
    SameTail(head, EffectSegments(s), EffectSegments(t));
  }

  lemma SameTail(head: seq<string>, l: seq<string>, m: seq<string>)
    requires head + l == head + m
    ensures l == m
  {
    assert (head + l)[|head|..] == l && (head + m)[|head|..] == m;
  }

  lemma EffectSegmentsAreNulFree(s: RequirementSet)
    ensures forall j :: 0 <= j < |EffectSegments(s)| ==> IsNulFree(EffectSegments(s)[j])
  {
    hide NulSplit, NulJoin, IsNulFree;
    NulJoinOfSplit(s.logicalEffectId);
    NulJoinOfSplit(s.actionId);
    NulJoinOfSplit(s.manifestDigest);
  }

  lemma SplitOfThreeCuts(l: seq<string>, i: nat, k: nat)
    requires 0 < i < k < |l| && forall j :: 0 <= j < |l| ==> IsNulFree(l[j])
    ensures NulSplit(NulJoin(l[..i])) == l[..i] && NulSplit(NulJoin(l[i..k])) == l[i..k]
    ensures NulSplit(NulJoin(l[k..])) == l[k..]
    ensures l == l[..i] + l[i..k] + l[k..]
  {
    hide NulSplit, NulJoin, IsNulFree;
    SplitOfSegments(l[..i]);
    SplitOfSegments(l[i..k]);
    SplitOfSegments(l[k..]);
  }

  // Every reading is that of a compiled set with the same requirements and the same text.
  lemma EffectReadingIsCompiled(lib: Library, trim: string -> string, snapshot: Snapshot, s: RequirementSet, i: nat, k: nat)
    returns (t: RequirementSet)
    requires IsCompiledSet(lib, trim, snapshot, s) && IsEffectReading(trim, EffectSegments(s), i, k)
    ensures IsCompiledSet(lib, trim, snapshot, t) && t.requirements == s.requirements && SetText(t) == SetText(s)
    ensures ActionFrom(t) == i && ManifestFrom(t) == k
  {
    CompiledSetParts(lib, trim, snapshot, s);
    EffectSegmentsAreNulFree(s);
    var l := EffectSegments(s);
    t := MakeRequirementSet(lib, snapshot, NulJoin(l[..i]), NulJoin(l[i..k]), NulJoin(l[k..]), s.requirements);
    hide NulSplit, NulJoin, IsNulFree, IsCanonicalName, DomainDigest, MeteredJson, IsRequirement, Distinct, Identities;
    SplitOfThreeCuts(l, i, k);
    assert EffectSegments(t) == l;
    SegmentsOfSet(s);
    SegmentsOfSet(t);
    SameSegmentsSameText(SetText(s), SetText(t));
  }

  // The same requirements and the same identity text.
  predicate LooksLike(t: RequirementSet, s: RequirementSet) {
    t.requirements == s.requirements && SetText(t) == SetText(s)
  }

  // Among the sets the compiler accepts for one snapshot, the identity text belongs to one exactly
  // when its segments have one reading.
  lemma OneEffectReadingExactly(lib: Library, trim: string -> string, snapshot: Snapshot, s: RequirementSet)
    requires lib.Valid() && IsCompiledSet(lib, trim, snapshot, s)
    ensures HasOneEffectReading(trim, s) <==>
      forall t :: IsCompiledSet(lib, trim, snapshot, t) && LooksLike(t, s) ==> t == s
  {
    hide SetText, IsEffectReading, EffectSegments, ActionFrom, ManifestFrom, IsCompiledSet;
    if HasOneEffectReading(trim, s) {
      forall t | IsCompiledSet(lib, trim, snapshot, t) && LooksLike(t, s) ensures t == s {
        CompiledIsEffectReading(lib, trim, snapshot, s, t);
        SameNamesSameSet(lib, trim, snapshot, s, t);
      }
    } else {
      var i, k :| IsEffectReading(trim, EffectSegments(s), i, k) && !(i == ActionFrom(s) && k == ManifestFrom(s));
      var t := EffectReadingIsCompiled(lib, trim, snapshot, s, i, k);
    }
  }

  lemma SameNamesSameSet(lib: Library, trim: string -> string, snapshot: Snapshot, s: RequirementSet, t: RequirementSet)
    requires IsCompiledSet(lib, trim, snapshot, s) && IsCompiledSet(lib, trim, snapshot, t)
    requires s.logicalEffectId == t.logicalEffectId && s.actionId == t.actionId && s.manifestDigest == t.manifestDigest
    requires s.requirements == t.requirements
    ensures s == t
  {
    hide MakeRequirementSet;
  }

  // ---------------------------------------------------------------- ids

  // A second reading: a different accepted set, for the same snapshot, under the same id.
  lemma SecondEffectReadingSharesId(lib: Library, trim: string -> string, snapshot: Snapshot, s: RequirementSet)
    returns (t: RequirementSet)
    requires lib.Valid() && IsCompiledSet(lib, trim, snapshot, s) && !HasOneEffectReading(trim, s)
    ensures IsCompiledSet(lib, trim, snapshot, t) && t != s && t.id == s.id && LooksLike(t, s)
  {
    hide SetText, IsEffectReading, EffectSegments, ActionFrom, ManifestFrom, IsCompiledSet, DomainDigest;
    var i, k :| IsEffectReading(trim, EffectSegments(s), i, k) && !(i == ActionFrom(s) && k == ManifestFrom(s));
    t := EffectReadingIsCompiled(lib, trim, snapshot, s, i, k);
    CompiledSetParts(lib, trim, snapshot, s);
    CompiledSetParts(lib, trim, snapshot, t);
  }

  // The id of the snapshot comes first and holds no NUL.
  lemma SameTextSameSnapshotId(lib: Library, s: RequirementSet, t: RequirementSet)
    requires IsNulFree(s.snapshotId) && IsNulFree(t.snapshotId) && SetText(s) == SetText(t)
    ensures s.snapshotId == t.snapshotId
  {
    hide NulSplit, NulJoin, IsNulFree, EffectSegments, SetText;
    SegmentsOfSet(s);
    SegmentsOfSet(t);
    SplitOfNulFree(s.snapshotId);
    SplitOfNulFree(t.snapshotId);
    assert NulSplit(SetText(s))[0] == s.snapshotId && NulSplit(SetText(t))[0] == t.snapshotId;
  }

  // A set with one reading, for a snapshot with one: the id belongs to no other accepted set for any
  // accepted snapshot, unless SHA-256 confuses two of the texts hashed.
  lemma RequirementSetIdDetermines(lib: Library, trim: string -> string, from: Snapshot, s: RequirementSet,
                                   other: Snapshot, t: RequirementSet)
    requires lib.Valid() && IsCompiled(lib, trim, from) && IsCompiled(lib, trim, other)
    requires IsCompiledSet(lib, trim, from, s) && IsCompiledSet(lib, trim, other, t)
    requires HasOneReading(trim, from) && HasOneEffectReading(trim, s)
    requires !Collides(lib, ENTRIES_DOMAIN + from.entriesJson, ENTRIES_DOMAIN + other.entriesJson)
    requires !Collides(lib, SNAPSHOT_DOMAIN + IdentityText(from), SNAPSHOT_DOMAIN + IdentityText(other))
    requires !Collides(lib, REQUIREMENTS_DOMAIN + s.requirementsJson, REQUIREMENTS_DOMAIN + t.requirementsJson)
    requires !Collides(lib, REQUIREMENT_SET_DOMAIN + SetText(s), REQUIREMENT_SET_DOMAIN + SetText(t))
    ensures s.id == t.id <==> s == t
  {
    hide SetText, IsEffectReading, EffectSegments, ActionFrom, ManifestFrom, IsCompiledSet, IsCompiled, DomainDigest,
      MeteredJson, Collides, IdentityText, HasOneReading, IsNulFree;
    CompiledSetParts(lib, trim, from, s);
    CompiledSetParts(lib, trim, other, t);
    if s.id == t.id {
      SameDigestSameValue(lib, REQUIREMENT_SET_DOMAIN, SetText(s), SetText(t));
      CompiledParts(lib, trim, from);
      CompiledParts(lib, trim, other);
      DigestIsNulFree(lib, SNAPSHOT_DOMAIN, IdentityText(from));
      DigestIsNulFree(lib, SNAPSHOT_DOMAIN, IdentityText(other));
      SameTextSameSnapshotId(lib, s, t);
      SnapshotIdDetermines(lib, trim, from, other);
      CompiledIsEffectReading(lib, trim, from, s, t);
      SameDigestSameValue(lib, REQUIREMENTS_DOMAIN, s.requirementsJson, t.requirementsJson);
      MeteredJsonIsInjective("amount", s.requirements, t.requirements);
      SameNamesSameSet(lib, trim, from, s, t);
    }
  }

  // ---------------------------------------------------------------- names without NUL

  predicate HasNulFreeEffect(s: RequirementSet) {
    IsNulFree(s.logicalEffectId) && IsNulFree(s.actionId) && IsNulFree(s.manifestDigest)
  }

  lemma NulFreeHasOneReading(trim: string -> string, s: RequirementSet)
    requires HasNulFreeEffect(s)
    ensures HasOneEffectReading(trim, s)
  {
    hide NulSplit, NulJoin, IsNulFree, IsCanonicalName;
    OneSegment(s.logicalEffectId);
    OneSegment(s.actionId);
    OneSegment(s.manifestDigest);
  }

  // Without empty or blank-edged segments the names with one reading are exactly those without NUL.
  lemma EffectNamesExactly(trim: string -> string, s: RequirementSet)
    requires HasCanonicalRuns(trim, EffectSegments(s))
    ensures HasNulFreeEffect(s) <==> HasOneEffectReading(trim, s)
  {
    hide NulSplit, NulJoin, IsNulFree, IsCanonicalName, HasCanonicalRuns;
    var l := EffectSegments(s);
    OneSegment(s.logicalEffectId);
    OneSegment(s.actionId);
    OneSegment(s.manifestDigest);
    if HasNulFreeEffect(s) {
      NulFreeHasOneReading(trim, s);
    } else {
      RunsAreEffectReading(trim, l, 1, 2);
      RunsAreEffectReading(trim, l, 1, 3);
    }
  }

  lemma RunsAreEffectReading(trim: string -> string, segments: seq<string>, i: nat, k: nat)
    requires HasCanonicalRuns(trim, segments) && 0 < i < k < |segments|
    ensures IsEffectReading(trim, segments, i, k)
  {
    hide IsCanonicalName, NulJoin;
    assert segments[0..i] == segments[..i] && segments[k..|segments|] == segments[k..];
  }

  // Two accepted sets, for any snapshot, under one id.
  lemma NulConfusesTwoSets(lib: Library, snapshot: Snapshot)
    requires lib.Valid()
    ensures var s := CompiledRequirements(lib, Same, snapshot, "a" + NUL + "b", "c", "m", []);
      var t := CompiledRequirements(lib, Same, snapshot, "a", "b" + NUL + "c", "m", []);
      s.Some? && t.Some? && s.value != t.value && s.value.id == t.value.id
  {
    assert Identities([]) == [];
    CompiledIsCompiledSet(lib, Same, snapshot, "a" + NUL + "b", "c", "m", []);
    CompiledIsCompiledSet(lib, Same, snapshot, "a", "b" + NUL + "c", "m", []);
    var s := CompiledRequirements(lib, Same, snapshot, "a" + NUL + "b", "c", "m", []).value;
    var t := CompiledRequirements(lib, Same, snapshot, "a", "b" + NUL + "c", "m", []).value;
    CompiledSetParts(lib, Same, snapshot, s);
    CompiledSetParts(lib, Same, snapshot, t);
    assert |"a" + NUL + "b"| == 3;
    hide NulSplit, NulJoin, DomainDigest, MeteredJson;
    SplitOfConcat("a", "b");
    SplitOfConcat("b", "c");
    assert EffectSegments(s) == EffectSegments(t);
    SegmentsOfSet(s);
    SegmentsOfSet(t);
    SameSegmentsSameText(SetText(s), SetText(t));
  }
}
