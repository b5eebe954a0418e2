// Technical quotas: a canonical snapshot of metered capacity, and the requirements of one effect
// compiled against it.
module Quota {
  import opened Wrappers
  import opened Ordering
  import opened Json
  import opened QuotaUnits

  datatype ResourceKind = Tokens | TimeMs | ConnectorCalls | ResourceUnits

  // A quota entry with its limit, or a requirement with its amount.
  datatype Metered = Metered(kind: ResourceKind, unit: string, number: I64)

  datatype Snapshot = Snapshot(
    id: string,
    delegationId: string,
    policyRevision: I64,
    authorityDigest: string,
    scopeKey: string,
    entries: seq<Metered>,
    entriesJson: string,
    entriesDigest: string)

  datatype RequirementSet = RequirementSet(
    id: string,
    snapshotId: string,
    delegationId: string,
    logicalEffectId: string,
    actionId: string,
    manifestDigest: string,
    requirements: seq<Metered>,
    requirementsJson: string,
    requirementsDigest: string)

  const ENTRIES_DOMAIN: string := "carsinos.execass.technical-quota.entries.v1" + NUL
  const SNAPSHOT_DOMAIN: string := "carsinos.execass.technical-quota.snapshot.v1" + NUL
  const REQUIREMENTS_DOMAIN: string := "carsinos.execass.technical-resource.requirements.v1" + NUL
  const REQUIREMENT_SET_DOMAIN: string := "carsinos.execass.technical-resource.requirement-set.v1" + NUL

  // ---------------------------------------------------------------- units and order

  predicate IsHashedUnit(unit: string, prefix: string) {
    && |unit| == |prefix| + 64
    && unit[..|prefix|] == prefix
    && AllOf(IsLowerHex, unit[|prefix|..])
  }

  // validate_technical_unit
  predicate IsUnit(kind: ResourceKind, unit: string) {
    match kind
    case Tokens => unit == "token"
    case TimeMs => unit == "ms"
    case ConnectorCalls => IsHashedUnit(unit, "connector:")
    case ResourceUnits => IsHashedUnit(unit, "resource:")
  }

  function Rank(kind: ResourceKind): nat {
    match kind
    case Tokens => 0
    case TimeMs => 1
    case ConnectorCalls => 2
    case ResourceUnits => 3
  }

  function IdentityOf(m: Metered): (ResourceKind, string) {
    (m.kind, m.unit)
  }

  function Identities(ms: seq<Metered>): seq<(ResourceKind, string)> {
    Map(IdentityOf, ms)
  }

  predicate MeteredLe(a: Metered, b: Metered) {
    Rank(a.kind) < Rank(b.kind) || (a.kind == b.kind && LexLe(a.unit, b.unit))
  }

  lemma MeteredOrder()
    ensures TotalPreorder(MeteredLe)
    ensures forall a, b :: MeteredLe(a, b) && MeteredLe(b, a) ==> IdentityOf(a) == IdentityOf(b)
  {
    LexIsTotalOrder();
    forall a: Metered, b: Metered ensures Rank(a.kind) == Rank(b.kind) ==> a.kind == b.kind {
    }
    forall a, b, c | MeteredLe(a, b) && MeteredLe(b, c) ensures MeteredLe(a, c) {
    }
  }

  lemma EqualIdentityIsEqual(ms: seq<Metered>)
    requires Distinct(Identities(ms))
    ensures AntisymmetricOn(MeteredLe, ms)
  {
    MeteredOrder();
    forall x, y | x in ms && y in ms && MeteredLe(x, y) && MeteredLe(y, x) ensures x == y {
      var i :| 0 <= i < |ms| && ms[i] == x;
      var j :| 0 <= j < |ms| && ms[j] == y;
      assert Identities(ms)[i] == Identities(ms)[j];
      DistinctAt(Identities(ms), i, j);
    }
  }

  // ---------------------------------------------------------------- canonical texts

  function KindName(kind: ResourceKind): string {
    match kind
    case Tokens => "tokens"
    case TimeMs => "time_ms"
    case ConnectorCalls => "connector_calls"
    case ResourceUnits => "resource_units"
  }

  function MeteredValue(name: string, m: Metered): Value {
    Object([Field("kind", Text(KindName(m.kind))), Field("unit", Text(m.unit)), Field(name, Integer(m.number))])
  }

  function MeteredJson(name: string, ms: seq<Metered>): string {
    Render(Array(Map(m => MeteredValue(name, m), ms)))
  }

  function DomainDigest(lib: Library, domain: string, value: string): string {
    "sha256:" + lib.sha256(domain + value)
  }

  // The parts with a NUL between each two.
  function NulJoin(parts: seq<string>): string {
    if parts == [] then "" else if |parts| == 1 then parts[0] else parts[0] + NUL + NulJoin(parts[1..])
  }

  predicate IsCanonicalName(trim: string -> string, value: string) {
    trim(value) != "" && trim(value) == value
  }

  // ---------------------------------------------------------------- the snapshot

  predicate IsQuota(m: Metered) {
    m.number >= 0 && IsUnit(m.kind, m.unit)
  }

  ghost predicate AreQuotas(inputs: seq<Metered>) {
    (forall m :: m in inputs ==> IsQuota(m)) && Distinct(Identities(inputs))
  }

  function SnapshotParts(delegationId: string, policyRevision: I64, authorityDigest: string, scopeKey: string,
                         entriesDigest: string): seq<string>
  {
    [delegationId, IntegerText(policyRevision), authorityDigest, scopeKey, entriesDigest]
  }

  function MakeSnapshot(lib: Library, delegationId: string, policyRevision: I64, authorityDigest: string,
                        scopeKey: string, entries: seq<Metered>): Snapshot
  {
    var json := MeteredJson("limit", entries);
    var digest := DomainDigest(lib, ENTRIES_DOMAIN, json);
    var id := DomainDigest(lib, SNAPSHOT_DOMAIN,
                           NulJoin(SnapshotParts(delegationId, policyRevision, authorityDigest, scopeKey, digest)));
    Snapshot(id, delegationId, policyRevision, authorityDigest, scopeKey, entries, json, digest)
  }

  predicate AreSnapshotNames(trim: string -> string, delegationId: string, policyRevision: I64, authorityDigest: string,
                             scopeKey: string)
  {
    && IsCanonicalName(trim, delegationId)
    && IsCanonicalName(trim, authorityDigest)
    && IsCanonicalName(trim, scopeKey)
    && policyRevision > 0
  }

  ghost function CompiledSnapshot(lib: Library, trim: string -> string, delegationId: string, policyRevision: I64,
                                  authorityDigest: string, scopeKey: string, inputs: seq<Metered>): Option<Snapshot>
  {
    if AreSnapshotNames(trim, delegationId, policyRevision, authorityDigest, scopeKey) && AreQuotas(inputs)
    then Some(MakeSnapshot(lib, delegationId, policyRevision, authorityDigest, scopeKey, Sort(MeteredLe, inputs)))
    else None
  }

  // compile_technical_quota_snapshot
  method CompileQuotaSnapshot(lib: Library, trim: string -> string, delegationId: string, policyRevision: I64,
                              authorityDigest: string, scopeKey: string, inputs: seq<Metered>)
    returns (r: Option<Snapshot>)
    ensures r == CompiledSnapshot(lib, trim, delegationId, policyRevision, authorityDigest, scopeKey, inputs)
  {
    hide IsQuota, MakeSnapshot;
    if !AreSnapshotNames(trim, delegationId, policyRevision, authorityDigest, scopeKey) {
      return None;
    }
    var canonical: seq<Metered> := [];
    var identities: set<(ResourceKind, string)> := {};
    var i := 0;
    while i < |inputs|
      invariant 0 <= i <= |inputs|
      invariant canonical == inputs[..i]
      invariant AreQuotas(inputs[..i])
      invariant forall x :: x in identities <==> x in Identities(inputs[..i])
    {
      var entry := inputs[i];
      NextMetered(inputs, i);
      if !IsQuota(entry) {
        assert entry in inputs;
        return None;
      }
      if IdentityOf(entry) in identities {
        return None;
      }
      identities := identities + {IdentityOf(entry)};
      canonical := canonical + [entry];
      i := i + 1;
    }
    assert inputs[..|inputs|] == inputs;
    canonical := Sort(MeteredLe, canonical);
    return Some(MakeSnapshot(lib, delegationId, policyRevision, authorityDigest, scopeKey, canonical));
  }

  lemma IdentitiesOfConcat(a: seq<Metered>, b: seq<Metered>)
    ensures Identities(a + b) == Identities(a) + Identities(b)
  {
  }

  lemma NextMetered(ms: seq<Metered>, i: nat)
    requires i < |ms|
    ensures ms[..i + 1] == ms[..i] + [ms[i]]
    ensures forall x :: x in Identities(ms[..i + 1]) <==> x in Identities(ms[..i]) || x == IdentityOf(ms[i])
    ensures Distinct(Identities(ms[..i + 1])) <==> Distinct(Identities(ms[..i])) && IdentityOf(ms[i]) !in Identities(ms[..i])
    ensures Distinct(Identities(ms)) ==> Distinct(Identities(ms[..i + 1]))
  {
    hide Distinct;
    assert ms[..i + 1] == ms[..i] + [ms[i]] && ms == ms[..i + 1] + ms[i + 1..];
    IdentitiesOfConcat(ms[..i], [ms[i]]);
    IdentitiesOfConcat(ms[..i + 1], ms[i + 1..]);
    assert Identities([ms[i]]) == [IdentityOf(ms[i])];
    DistinctSnoc(Identities(ms[..i]), IdentityOf(ms[i]));
    if Distinct(Identities(ms)) {
      DistinctConcat(Identities(ms[..i + 1]), Identities(ms[i + 1..]));
    }
  }

  // A compiled snapshot holds the inputs, once each, in strictly ascending order of kind and unit.
  lemma SnapshotIsCanonical(lib: Library, trim: string -> string, delegationId: string, policyRevision: I64,
                            authorityDigest: string, scopeKey: string, inputs: seq<Metered>)
    requires AreSnapshotNames(trim, delegationId, policyRevision, authorityDigest, scopeKey) && AreQuotas(inputs)
    ensures var snapshot := CompiledSnapshot(lib, trim, delegationId, policyRevision, authorityDigest, scopeKey, inputs);
      && snapshot.Some?
      && multiset(snapshot.value.entries) == multiset(inputs)
      && Sorted(MeteredLe, snapshot.value.entries)
      && Distinct(Identities(snapshot.value.entries))
  {
    MeteredOrder();
    SortSorts(MeteredLe, inputs);
    SortPermutes(MeteredLe, inputs);
    MapPermutes(IdentityOf, Sort(MeteredLe, inputs), inputs);
    PermutationKeepsDistinct(Identities(Sort(MeteredLe, inputs)), Identities(inputs));
  }

  lemma SortedQuotasIgnoreOrder(inputs: seq<Metered>, others: seq<Metered>)
    requires multiset(inputs) == multiset(others) && Distinct(Identities(inputs))
    ensures Sort(MeteredLe, inputs) == Sort(MeteredLe, others)
  {
    MeteredOrder();
    EqualIdentityIsEqual(inputs);
    SortIgnoresOrder(MeteredLe, inputs, others);
  }

  lemma QuotasArePermuted(inputs: seq<Metered>, others: seq<Metered>)
    requires multiset(inputs) == multiset(others)
    ensures Distinct(Identities(inputs)) <==> Distinct(Identities(others))
    ensures forall m :: m in inputs <==> m in others
  {
    MapPermutes(IdentityOf, inputs, others);
    PermutationKeepsDistinct(Identities(inputs), Identities(others));
    forall m ensures m in inputs <==> m in others {
      SameElements(inputs, others, m);
    }
  }

  // The snapshot is a function of the multiset of inputs.
  lemma SnapshotIgnoresOrder(lib: Library, trim: string -> string, delegationId: string, policyRevision: I64,
                             authorityDigest: string, scopeKey: string, inputs: seq<Metered>, others: seq<Metered>)
    requires multiset(inputs) == multiset(others)
    ensures CompiledSnapshot(lib, trim, delegationId, policyRevision, authorityDigest, scopeKey, inputs)
         == CompiledSnapshot(lib, trim, delegationId, policyRevision, authorityDigest, scopeKey, others)
  {
    hide IsQuota, MakeSnapshot, AreSnapshotNames;
    QuotasArePermuted(inputs, others);
    if Distinct(Identities(inputs)) {
      SortedQuotasIgnoreOrder(inputs, others);
    }
  }

  // ---------------------------------------------------------------- requirements

  function FindQuota(entries: seq<Metered>, kind: ResourceKind, unit: string): Option<Metered> {
    if entries == [] then None
    else if entries[0].kind == kind && entries[0].unit == unit then Some(entries[0])
    else FindQuota(entries[1..], kind, unit)
  }

  predicate IsWithin(entries: seq<Metered>, m: Metered) {
    var quota := FindQuota(entries, m.kind, m.unit);
    quota.Some? && m.number <= quota.value.number
  }

  predicate IsRequirement(entries: seq<Metered>, m: Metered) {
    m.number > 0 && IsUnit(m.kind, m.unit) && IsWithin(entries, m)
  }

  ghost predicate AreRequirements(entries: seq<Metered>, inputs: seq<Metered>) {
    (forall m :: m in inputs ==> IsRequirement(entries, m)) && Distinct(Identities(inputs))
  }

  function MakeRequirementSet(lib: Library, snapshot: Snapshot, effectId: string, actionId: string,
                              manifestDigest: string, requirements: seq<Metered>): RequirementSet
  {
    var json := MeteredJson("amount", requirements);
    var digest := DomainDigest(lib, REQUIREMENTS_DOMAIN, json);
    var id := DomainDigest(lib, REQUIREMENT_SET_DOMAIN,
                           NulJoin([snapshot.id, snapshot.delegationId, effectId, actionId, manifestDigest, digest]));
    RequirementSet(id, snapshot.id, snapshot.delegationId, effectId, actionId, manifestDigest, requirements, json, digest)
  }

  predicate AreEffectNames(trim: string -> string, effectId: string, actionId: string, manifestDigest: string) {
    && IsCanonicalName(trim, effectId)
    && IsCanonicalName(trim, actionId)
    && IsCanonicalName(trim, manifestDigest)
  }

  ghost function CompiledRequirements(lib: Library, trim: string -> string, snapshot: Snapshot, effectId: string,
                                      actionId: string, manifestDigest: string, inputs: seq<Metered>)
    : Option<RequirementSet>
  {
    if AreEffectNames(trim, effectId, actionId, manifestDigest) && AreRequirements(snapshot.entries, inputs)
    then Some(MakeRequirementSet(lib, snapshot, effectId, actionId, manifestDigest, Sort(MeteredLe, inputs)))
    else None
  }

  // compile_technical_resource_requirements
  method CompileRequirements(lib: Library, trim: string -> string, snapshot: Snapshot, effectId: string,
                             actionId: string, manifestDigest: string, inputs: seq<Metered>)
    returns (r: Option<RequirementSet>)
    ensures r == CompiledRequirements(lib, trim, snapshot, effectId, actionId, manifestDigest, inputs)
  {
    hide IsUnit, MakeRequirementSet, FindQuota;
    if !AreEffectNames(trim, effectId, actionId, manifestDigest) {
      return None;
    }
    var identities: set<(ResourceKind, string)> := {};
    var canonical: seq<Metered> := [];
    var i := 0;
    while i < |inputs|
      invariant 0 <= i <= |inputs|
      invariant canonical == inputs[..i]
      invariant AreRequirements(snapshot.entries, inputs[..i])
      invariant forall x :: x in identities <==> x in Identities(inputs[..i])
    {
      var requirement := inputs[i];
      assert requirement in inputs;
      NextMetered(inputs, i);
      if requirement.number <= 0 || !IsUnit(requirement.kind, requirement.unit) {
        return None;
      }
      if IdentityOf(requirement) in identities {
        return None;
      }
      identities := identities + {IdentityOf(requirement)};
      var quota := FindQuota(snapshot.entries, requirement.kind, requirement.unit);
      if quota.None? {
        return None;
      }
      if requirement.number > quota.value.number {
        return None;
      }
      canonical := canonical + [requirement];
      i := i + 1;
    }
    assert inputs[..|inputs|] == inputs;
    canonical := Sort(MeteredLe, canonical);
    return Some(MakeRequirementSet(lib, snapshot, effectId, actionId, manifestDigest, canonical));
  }

  lemma {:induction false} FindQuotaFinds(entries: seq<Metered>, q: Metered)
    requires q in entries && Distinct(Identities(entries))
    ensures FindQuota(entries, q.kind, q.unit) == Some(q)
  {
    var i :| 0 <= i < |entries| && entries[i] == q;
    assert Identities(entries)[0] == IdentityOf(entries[0]) && Identities(entries)[i] == IdentityOf(q);
    if i > 0 {
      assert entries[1..][i - 1] == q;
      assert Identities(entries[1..]) == Identities(entries)[1..];
      FindQuotaFinds(entries[1..], q);
    }
  }

  lemma {:induction false} FindQuotaIsThere(entries: seq<Metered>, kind: ResourceKind, unit: string)
    requires FindQuota(entries, kind, unit).Some?
    ensures FindQuota(entries, kind, unit).value in entries
    ensures IdentityOf(FindQuota(entries, kind, unit).value) == (kind, unit)
  {
    if !(entries[0].kind == kind && entries[0].unit == unit) {
      FindQuotaIsThere(entries[1..], kind, unit);
      assert entries == [entries[0]] + entries[1..];
    }
  }

  predicate Covers(q: Metered, m: Metered) {
    q.kind == m.kind && q.unit == m.unit && m.number <= q.number
  }

  // Against a compiled snapshot requirements are accepted exactly when they are distinct, positive,
  // canonically named and each within a matching entry.
  lemma RequirementsAccepted(lib: Library, trim: string -> string, snapshot: Snapshot, effectId: string,
                             actionId: string, manifestDigest: string, inputs: seq<Metered>)
    requires Distinct(Identities(snapshot.entries))
    requires AreEffectNames(trim, effectId, actionId, manifestDigest)
    ensures CompiledRequirements(lib, trim, snapshot, effectId, actionId, manifestDigest, inputs).Some? <==>
      && Distinct(Identities(inputs))
      && forall m :: m in inputs ==>
           m.number > 0 && IsUnit(m.kind, m.unit) && exists q :: q in snapshot.entries && Covers(q, m)
  {
    hide IsUnit, FindQuota, AreEffectNames, Identities;
    forall m ensures IsWithin(snapshot.entries, m) <==> exists q :: q in snapshot.entries && Covers(q, m) {
      if IsWithin(snapshot.entries, m) {
        FindQuotaIsThere(snapshot.entries, m.kind, m.unit);
        assert Covers(FindQuota(snapshot.entries, m.kind, m.unit).value, m);
      }
      if q :| q in snapshot.entries && Covers(q, m) {
        FindQuotaFinds(snapshot.entries, q);
      }
    }
  }

  lemma RequirementsIgnoreOrder(lib: Library, trim: string -> string, snapshot: Snapshot, effectId: string,
                                actionId: string, manifestDigest: string, inputs: seq<Metered>, others: seq<Metered>)
    requires multiset(inputs) == multiset(others)
    ensures CompiledRequirements(lib, trim, snapshot, effectId, actionId, manifestDigest, inputs)
         == CompiledRequirements(lib, trim, snapshot, effectId, actionId, manifestDigest, others)
  {
    hide IsRequirement, MakeRequirementSet, AreEffectNames;
    QuotasArePermuted(inputs, others);
    if Distinct(Identities(inputs)) {
      SortedQuotasIgnoreOrder(inputs, others);
    }
  }

  // ---------------------------------------------------------------- entries, in so many words

  predicate IsHashOf(unit: string, prefix: string) {
    && |unit| == |prefix| + 64 && prefix <= unit
    && forall i :: |prefix| <= i < |unit| ==> '0' <= unit[i] <= '9' || 'a' <= unit[i] <= 'f'
  }

  // Tokens and milliseconds have one unit each; calls and resources one for every hashed identity.
  predicate IsUnitOf(kind: ResourceKind, unit: string) {
    && (kind == Tokens ==> unit == "token") && (kind == TimeMs ==> unit == "ms")
    && (kind == ConnectorCalls ==> IsHashOf(unit, "connector:"))
    && (kind == ResourceUnits ==> IsHashOf(unit, "resource:"))
  }

  // Tokens, then time, then connector calls, then resource units.
  predicate ComesBefore(a: ResourceKind, b: ResourceKind) {
    || (a == Tokens && b != Tokens)
    || (a == TimeMs && (b == ConnectorCalls || b == ResourceUnits))
    || (a == ConnectorCalls && b == ResourceUnits)
  }

  lemma UnitExactly(kind: ResourceKind, unit: string)
    ensures IsUnit(kind, unit) <==> IsUnitOf(kind, unit)
  {
    HashExactly(unit, "connector:");
    HashExactly(unit, "resource:");
    hide IsHashOf, IsHashedUnit;
  }

  lemma HashExactly(unit: string, prefix: string)
    ensures IsHashOf(unit, prefix) <==> IsHashedUnit(unit, prefix)
  {
    if |unit| == |prefix| + 64 {
      var tail := unit[|prefix|..];
      assert forall i :: 0 <= i < 64 ==> tail[i] == unit[|prefix| + i];
      assert forall i :: |prefix| <= i < |unit| ==> unit[i] == tail[i - |prefix|];
    }
  }

  predicate IsPresentName(trim: string -> string, name: string) {
    name != "" && trim(name) == name
  }

  ghost predicate AreEntries(inputs: seq<Metered>, least: int) {
    && (forall m :: m in inputs ==> m.number >= least && IsUnitOf(m.kind, m.unit))
    && forall i, j :: 0 <= i < j < |inputs| ==> inputs[i].kind != inputs[j].kind || inputs[i].unit != inputs[j].unit
  }

  lemma IdentitiesExactly(inputs: seq<Metered>)
    ensures Distinct(Identities(inputs)) <==>
      forall i, j :: 0 <= i < j < |inputs| ==> inputs[i].kind != inputs[j].kind || inputs[i].unit != inputs[j].unit
  {
    var ids := Identities(inputs);
    assert forall i :: 0 <= i < |inputs| ==> ids[i] == (inputs[i].kind, inputs[i].unit);
  }

  // A snapshot is compiled exactly of present names, a positive revision, and limits that are not
  // negative, in units of their kinds, with no kind and unit twice.
  lemma SnapshotExactly(lib: Library, trim: string -> string, delegationId: string, policyRevision: I64,
                        authorityDigest: string, scopeKey: string, inputs: seq<Metered>)
    ensures CompiledSnapshot(lib, trim, delegationId, policyRevision, authorityDigest, scopeKey, inputs).Some? <==>
      && IsPresentName(trim, delegationId) && IsPresentName(trim, authorityDigest) && IsPresentName(trim, scopeKey)
      && policyRevision >= 1 && AreEntries(inputs, 0)
  {
    IdentitiesExactly(inputs);
    forall kind, unit ensures IsUnit(kind, unit) <==> IsUnitOf(kind, unit) {
      UnitExactly(kind, unit);
    }
    hide IsUnit, IsUnitOf, MakeSnapshot, Identities, Distinct;
  }

  // Its entries ascend by kind, and within a kind by unit.
  lemma SnapshotAscends(lib: Library, trim: string -> string, delegationId: string, policyRevision: I64,
                        authorityDigest: string, scopeKey: string, inputs: seq<Metered>)
    requires CompiledSnapshot(lib, trim, delegationId, policyRevision, authorityDigest, scopeKey, inputs).Some?
    ensures var entries :=
        CompiledSnapshot(lib, trim, delegationId, policyRevision, authorityDigest, scopeKey, inputs).value.entries;
      forall i, j :: 0 <= i < j < |entries| ==>
        || ComesBefore(entries[i].kind, entries[j].kind)
        || (entries[i].kind == entries[j].kind && entries[i].unit != entries[j].unit && LexLe(entries[i].unit, entries[j].unit))
  {
    hide AreSnapshotNames, MakeSnapshot, IsUnit;
    SnapshotIsCanonical(lib, trim, delegationId, policyRevision, authorityDigest, scopeKey, inputs);
    var entries :=
      CompiledSnapshot(lib, trim, delegationId, policyRevision, authorityDigest, scopeKey, inputs).value.entries;
    IdentitiesExactly(entries);
    hide Identities, CompiledSnapshot, LexLe;
  }

  // Requirements are accepted exactly when they are positive, in units of their kinds, none twice, each
  // at most the limit of an entry of its kind and unit, and the names are present.
  lemma RequirementsExactly(lib: Library, trim: string -> string, snapshot: Snapshot, effectId: string,
                            actionId: string, manifestDigest: string, inputs: seq<Metered>)
    requires Distinct(Identities(snapshot.entries))
    ensures CompiledRequirements(lib, trim, snapshot, effectId, actionId, manifestDigest, inputs).Some? <==>
      && IsPresentName(trim, effectId) && IsPresentName(trim, actionId) && IsPresentName(trim, manifestDigest)
      && AreEntries(inputs, 1)
      && forall m :: m in inputs ==>
           exists q :: q in snapshot.entries && q.kind == m.kind && q.unit == m.unit && m.number <= q.number
  {
    IdentitiesExactly(inputs);
    forall kind, unit ensures IsUnit(kind, unit) <==> IsUnitOf(kind, unit) {
      UnitExactly(kind, unit);
    }
    if AreEffectNames(trim, effectId, actionId, manifestDigest) {
      RequirementsAccepted(lib, trim, snapshot, effectId, actionId, manifestDigest, inputs);
      forall m ensures (exists q :: q in snapshot.entries && Covers(q, m)) <==>
        exists q :: q in snapshot.entries && q.kind == m.kind && q.unit == m.unit && m.number <= q.number
      {
      }
    }
    hide IsUnit, IsUnitOf, Identities, Distinct, IsRequirement, MakeRequirementSet, Covers;
  }
}
