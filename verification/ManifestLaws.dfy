// The laws of restore and rebind over whole manifests.

module ManifestLaws {
  import opened Wrappers
  import opened Ordering
  import opened Json
  import opened CanonicalValue
  import opened Manifest
  import opened ManifestRestore
  import opened ManifestRebind

  // ---------------------------------------------------------------- restoring is strict

  lemma RestoredDescriptor(env: Env, d: Descriptor)
    requires env.Valid() && NormalizedDescriptor(env, d).Some?
    ensures var r := NormalizedDescriptor(env, d).value; NormalizedDescriptor(env, r) == Some(r)
  {
  }

  lemma RestoredStep(env: Env, v: Value)
    requires env.Valid() && RestoreStep(env, v).Some?
    ensures NormalStep(env, RestoreStep(env, v).value)
  {
    hide StructFields, DecodeDescriptor, NormalizedDescriptor, ParseDigest, IsHexDigest;
    var f := StructFields(v, STEP_FIELDS, {}).value;
    RestoredDescriptor(env, DecodeDescriptor(f[0]).value);
    RestoredDigest(env, f[1]);
  }

  lemma RestoredDigest(env: Env, v: Value)
    requires env.Valid()
    ensures DigestIn(env, v).Some? ==> NormalDigest(env, DigestIn(env, v).value)
    ensures OptionalDigestIn(env, v).Some? ==> NormalOptionalDigest(env, OptionalDigestIn(env, v).value)
  {
    hide ParseDigest, IsHexDigest;
    match v {
      case Text(t) => if ParseDigest(env, t).Some? { DigestIsNormal(env, t); }
      case _ =>
    }
  }

  lemma RestoredIdentifier(env: Env, v: Value)
    requires env.Valid()
    ensures IdentifierIn(env, v).Some? ==> NormalIdentifier(env, IdentifierIn(env, v).value)
    ensures OptionalIdentifierIn(env, v).Some? ==> NormalOptional(env, OptionalIdentifierIn(env, v).value)
  {
  }

  lemma {:induction false} RestoredSteps(env: Env, vs: seq<Value>)
    requires env.Valid() && RestoreSteps(env, vs).Some?
    ensures var steps := RestoreSteps(env, vs).value;
      |steps| == |vs| && forall i :: 0 <= i < |steps| ==> NormalStep(env, steps[i])
  {
    hide RestoreStep, NormalStep;
    if vs != [] {
      RestoredStep(env, vs[0]);
      RestoredSteps(env, vs[1..]);
    }
  }

  lemma RestoredEvidence(env: Env, v: Value)
    requires env.Valid() && RestoreEvidence(env, v).Some?
    ensures NormalEvidence(env, RestoreEvidence(env, v).value)
  {
    hide StructFields, KindOf;
  }

  lemma RestoredCanonicalText(v: Value)
    ensures CanonicalTextIn(v).Some? ==>
      IsCanonicalText(CanonicalTextIn(v).value) && |CanonicalTextIn(v).value| <= MAX_CANONICAL_VALUE_BYTES
  {
    if CanonicalTextIn(v).Some? { CanonicalTextIsCanonical(v, CanonicalTextIn(v).value); }
  }

  lemma RestoredAuthority(env: Env, v: Value)
    requires env.Valid() && RestoreAuthority(env, v).Some?
    ensures NormalAuthority(env, RestoreAuthority(env, v).value)
    ensures IsCanonicalText(RestoreAuthority(env, v).value.normalizedScope.bytes)
  {
    hide StructFields, RestoreEvidence, CanonicalTextIn, IdentifierIn, DigestIn, OptionalDigestIn,
      OptionalIdentifierIn, NormalDigest, NormalIdentifier, NormalEvidence, IsCanonicalText, NormalOptional,
      NormalOptionalDigest;
    var f := StructFields(v, AUTHORITY_FIELDS, AUTHORITY_OPTIONAL).value;
    forall x ensures (IdentifierIn(env, x).Some? ==> NormalIdentifier(env, IdentifierIn(env, x).value))
      && (OptionalIdentifierIn(env, x).Some? ==> NormalOptional(env, OptionalIdentifierIn(env, x).value))
    {
      RestoredIdentifier(env, x);
    }
    forall x ensures (DigestIn(env, x).Some? ==> NormalDigest(env, DigestIn(env, x).value))
      && (OptionalDigestIn(env, x).Some? ==> NormalOptionalDigest(env, OptionalDigestIn(env, x).value))
    {
      RestoredDigest(env, x);
    }
    RestoredEvidence(env, f[15]);
    RestoredCanonicalText(f[12]);
  }

  lemma RestoredTargets(v: Value)
    requires RestoreTargets(v).Some?
    ensures IsTargetsText(RestoreTargets(v).value)
  {
    hide StructFields, TargetsText, IsTargetsText, Deserializable;
    var f := StructFields(v, TARGETS_FIELDS, {}).value;
    TargetsTextIsTargetsText(f[0].items);
  }

  lemma RestoredTool(env: Env, v: Value)
    requires env.Valid() && RestoreTool(env, v).Some?
    ensures var tool := RestoreTool(env, v).value;
      NormalIdentifier(env, tool.toolId) && NormalIdentifier(env, tool.version)
  {
    hide StructFields;
  }

  lemma RestoredLeaf(env: Env, v: Value)
    requires env.Valid() && RestoreLeaf(env, v).Some?
    ensures NormalLeaf(env, RestoreLeaf(env, v).value) && ScopeIsCanonical(RestoreLeaf(env, v).value)
  {
    hide StructFields, RestoreTool, RestoreTargets, RestoreSteps, RestoreAuthority, CanonicalTextIn, LeafText,
      IsCanonicalText, IsTargetsText, NormalAuthority, NormalStep, ParseDigest, IdentifierIn, OptionalDigestIn,
      NormalIdentifier, NormalOptionalDigest, Identifier, DigestIn, NormalDigest, OptionalIdentifierIn, Deserializable;
    var f := StructFields(v, LEAF_FIELDS, {"material_digest"}).value;
    RestoredIdentifier(env, f[0]);
    RestoredIdentifier(env, f[1]);
    RestoredIdentifier(env, f[3]);
    RestoredTool(env, f[9]);
    RestoredCanonicalText(f[4]);
    RestoredTargets(f[8]);
    RestoredDigest(env, f[2]);
    RestoredSteps(env, f[6].items);
    RestoredAuthority(env, f[5]);
    TextIgnoresCanonical(RestoreLeaf(env, v).value, Frozen("", ""));
  }

  lemma {:induction false} RestoredLeaves(env: Env, vs: seq<Value>)
    requires env.Valid() && RestoreLeaves(env, vs).Some?
    ensures |RestoreLeaves(env, vs).value| == |vs| && Restorable(env, RestoreLeaves(env, vs).value)
  {
    hide RestoreLeaf, NormalLeaf, ScopeIsCanonical;
    if vs != [] {
      RestoredLeaf(env, vs[0]);
      RestoredLeaves(env, vs[1..]);
    }
  }

  // Restoring accepts nothing but the exact printout, with its digest, of a manifest that could have
  // been persisted; with RestorePrintedManifest this says exactly which inputs are accepted.
  lemma RestoreIsStrict(env: Env, bytes: string, digest: string)
    requires env.Valid() && RestoreManifest(env, bytes, digest).Some?
    ensures var leaves := RestoreManifest(env, bytes, digest).value;
      && PersistableManifest(env, leaves)
      && bytes == ManifestText(leaves)
      && ParseDigest(env, digest) == Some(env.sha256(bytes))
  {
    hide RestoreLeaf, NormalLeaf, ScopeIsCanonical, ManifestText, ParseDocument, StructFields, ParseDigest;
    RestoredLeaves(env, PersistedLeaves(env, bytes).value);
  }

  // What a printed manifest of normal leaves lacks to be restored, exactly: a size within the cap and
  // scopes that are canonical values.
  lemma RestorableExactly(env: Env, leaves: seq<LeafAction>)
    requires env.Valid() && Printable(env, leaves)
    requires 0 < |leaves| <= ABSOLUTE_MAX_LEAVES && Distinct(LogicalIds(leaves))
    ensures var text := ManifestText(leaves);
      RestoreManifest(env, text, env.sha256(text)).Some? <==>
        |text| <= MAX_PERSISTED_MANIFEST_BYTES && forall i :: 0 <= i < |leaves| ==> ScopeIsCanonical(leaves[i])
  {
    hide NormalLeaf, ScopeIsCanonical, ScopeIsPrinted, ManifestText, RestoreManifest;
    var text := ManifestText(leaves);
    if RestoreManifest(env, text, env.sha256(text)).Some? {
      RestoreIsStrict(env, text, env.sha256(text));
      var restored := RestoreManifest(env, text, env.sha256(text)).value;
      RestorableIsPrintable(env, restored);
      ManifestTextIsInjective(env, leaves, restored);
    } else if |text| <= MAX_PERSISTED_MANIFEST_BYTES && forall i :: 0 <= i < |leaves| ==> ScopeIsCanonical(leaves[i]) {
      RestorePrintedManifest(env, leaves);
    }
  }

  // ---------------------------------------------------------------- identity bindings

  // Each binding names a leaf, keeps its identity and gives targets that freeze to the leaf's own.
  ghost predicate IdentityBindings(leaves: seq<LeafAction>, bindings: seq<Binding>) {
    && |bindings| == |leaves|
    && Distinct(Map(PersistedIdOf, bindings))
    && forall i :: 0 <= i < |bindings| ==> IsIdentityFor(leaves, bindings[i])
  }

  ghost predicate IsIdentityFor(leaves: seq<LeafAction>, b: Binding) {
    exists j :: 0 <= j < |leaves| && KeepsLeaf(leaves[j], b)
  }

  ghost predicate KeepsLeaf(leaf: LeafAction, b: Binding) {
    && b.persistedLogicalActionId == leaf.logicalActionId
    && b.occurrenceLogicalActionId == leaf.logicalActionId
    && TargetsText(b.targets) == Some(leaf.targetSnapshot.bytes)
  }

  lemma KeptLeaf(env: Env, leaf: LeafAction, b: Binding)
    requires NormalLeaf(env, leaf) && KeepsLeaf(leaf, b)
    ensures ReboundLeaf(env, leaf, b) == Some(leaf)
  {
    hide LeafText, TargetsText, IsCanonicalText, IsTargetsText, NormalAuthority, NormalStep;
  }

  lemma IdentityCovers(leaves: seq<LeafAction>, bindings: seq<Binding>, i: nat)
    requires Distinct(LogicalIds(leaves)) && IdentityBindings(leaves, bindings) && i < |leaves|
    ensures BindingFor(bindings, leaves[i].logicalActionId).Some?
    ensures KeepsLeaf(leaves[i], BindingFor(bindings, leaves[i].logicalActionId).value)
  {
    hide TargetsText;
    var ids, named := LogicalIds(leaves), Map(PersistedIdOf, bindings);
    forall x | x in named ensures x in ids {
      var k :| 0 <= k < |named| && named[k] == x;
      assert IsIdentityFor(leaves, bindings[k]);
      var j :| 0 <= j < |leaves| && KeepsLeaf(leaves[j], bindings[k]);
      assert ids[j] == x;
    }
    InclusionGivesPermutation(named, ids);
    assert ids[i] in ids;
    SameElements(named, ids, ids[i]);
    var k :| 0 <= k < |named| && named[k] == ids[i];
    BindingForEach(bindings, k);
    assert IsIdentityFor(leaves, bindings[k]);
    var j :| 0 <= j < |leaves| && KeepsLeaf(leaves[j], bindings[k]);
    DistinctAt(ids, i, j);
  }

  // Restore-and-rebind with identity bindings returns the manifest unchanged.
  lemma RebindIdentity(env: Env, leaves: seq<LeafAction>, bindings: seq<Binding>)
    requires env.Valid() && PersistableManifest(env, leaves) && IdentityBindings(leaves, bindings)
    ensures var canonical := Freeze(env, ManifestText(leaves));
      Rebind(env, canonical.bytes, canonical.digest, bindings) == Some(CanonicalManifest(leaves, canonical))
  {
    hide ManifestText, NormalLeaf, ReboundLeaf, TargetsText, RestoreManifest, NormalIdentifier, ScopeIsCanonical;
    RestorePrintedManifest(env, leaves);
    forall i | 0 <= i < |leaves| ensures ReboundBy(env, leaves[i], bindings) == Some(leaves[i]) {
      IdentityCovers(leaves, bindings, i);
      KeptLeaf(env, leaves[i], BindingFor(bindings, leaves[i].logicalActionId).value);
    }
    assert ReboundLeaves(env, leaves, bindings).value == leaves;
    forall i | 0 <= i < |bindings| ensures NormalIdentifier(env, bindings[i].persistedLogicalActionId) {
      assert IsIdentityFor(leaves, bindings[i]);
      var j :| 0 <= j < |leaves| && KeepsLeaf(leaves[j], bindings[i]);
      LeafIdentityIsNormal(env, leaves[j]);
    }
  }

  lemma LeafIdentityIsNormal(env: Env, leaf: LeafAction)
    requires NormalLeaf(env, leaf)
    ensures NormalIdentifier(env, leaf.logicalActionId)
  {
    hide LeafText, IsCanonicalText, IsTargetsText, NormalAuthority, NormalStep;
  }

  // ---------------------------------------------------------------- what a rebind changes

  // Equal in every field but logical identity, targets and the bytes that print them.
  predicate SameEnvelope(a: LeafAction, b: LeafAction) {
    a.(logicalActionId := "", targetSnapshot := Frozen("", ""), canonical := Frozen("", ""))
      == b.(logicalActionId := "", targetSnapshot := Frozen("", ""), canonical := Frozen("", ""))
  }

  lemma ReboundLeafKeepsEnvelope(env: Env, leaf: LeafAction, b: Binding)
    requires env.Valid() && NormalLeaf(env, leaf) && ScopeIsCanonical(leaf)
    requires ReboundLeaf(env, leaf, b).Some?
    ensures var r := ReboundLeaf(env, leaf, b).value;
      && SameEnvelope(leaf, r)
      && r.logicalActionId == b.occurrenceLogicalActionId
      && Some(r.targetSnapshot.bytes) == TargetsText(b.targets)
      && NormalLeaf(env, r) && ScopeIsCanonical(r)
  {
    hide LeafText, TargetsText, IsCanonicalText, IsTargetsText, NormalAuthority, NormalStep, NormalIdentifier;
    TargetsTextIsTargetsText(b.targets);
    var r := ReboundLeaf(env, leaf, b).value;
    TextIgnoresCanonical(r, leaf.canonical);
    assert r.(canonical := leaf.canonical)
        == leaf.(logicalActionId := b.occurrenceLogicalActionId, targetSnapshot := r.targetSnapshot);
  }

  // The rebound leaf takes identity and targets from the binding of its persisted identity.
  predicate FollowsBinding(leaf: LeafAction, rebound: LeafAction, bindings: seq<Binding>) {
    match BindingFor(bindings, leaf.logicalActionId)
    case Some(b) =>
      && SameEnvelope(leaf, rebound)
      && rebound.logicalActionId == b.occurrenceLogicalActionId
      && Some(rebound.targetSnapshot.bytes) == TargetsText(b.targets)
    case None => false
  }

  // Every accepted rebind keeps the order of the leaves and everything in them but identity and
  // targets; each leaf gets what its own binding says; identities stay distinct; and the result, when
  // it is within the byte limit, can be persisted and rebound again.
  lemma RebindKeepsEnvelopes(env: Env, bytes: string, digest: string, bindings: seq<Binding>)
    requires env.Valid() && Rebind(env, bytes, digest, bindings).Some?
    ensures var leaves := RestoreManifest(env, bytes, digest).value;
      var r := Rebind(env, bytes, digest, bindings).value;
      && |r.leaves| == |leaves| == |bindings|
      && (forall i :: 0 <= i < |leaves| ==> FollowsBinding(leaves[i], r.leaves[i], bindings))
      && r.canonical == Freeze(env, ManifestText(r.leaves))
      && (|r.canonical.bytes| <= MAX_PERSISTED_MANIFEST_BYTES ==> PersistableManifest(env, r.leaves))
  {
    hide ManifestText, NormalLeaf, ScopeIsCanonical, ReboundLeaf, TargetsText, RestoreManifest, WellFormedBindings,
      SameEnvelope, BindingFor;
    RestoreIsStrict(env, bytes, digest);
    var leaves := RestoreManifest(env, bytes, digest).value;
    var r := Rebind(env, bytes, digest, bindings).value;
    forall i | 0 <= i < |leaves|
      ensures FollowsBinding(leaves[i], r.leaves[i], bindings)
      ensures NormalLeaf(env, r.leaves[i]) && ScopeIsCanonical(r.leaves[i])
    {
      assert ReboundBy(env, leaves[i], bindings) == Some(r.leaves[i]);
      ReboundLeafKeepsEnvelope(env, leaves[i], BindingFor(bindings, leaves[i].logicalActionId).value);
    }
  }

  // ---------------------------------------------------------------- order of the bindings

  lemma BindingForIgnoresOrder(bindings: seq<Binding>, others: seq<Binding>, id: string)
    requires multiset(bindings) == multiset(others) && Distinct(Map(PersistedIdOf, bindings))
    ensures BindingFor(bindings, id) == BindingFor(others, id)
  {
    MapPermutes(PersistedIdOf, bindings, others);
    PermutationKeepsDistinct(Map(PersistedIdOf, bindings), Map(PersistedIdOf, others));
    BindingForMember(bindings, id);
    BindingForMember(others, id);
    SameElements(Map(PersistedIdOf, bindings), Map(PersistedIdOf, others), id);
    if BindingFor(bindings, id).Some? {
      var b := BindingFor(bindings, id).value;
      SameElements(bindings, others, b);
      var j :| 0 <= j < |others| && others[j] == b;
      BindingForEach(others, j);
    }
  }

  // A rebind does not depend on the order in which bindings are listed.
  lemma RebindIgnoresBindingOrder(env: Env, bytes: string, digest: string, bindings: seq<Binding>, others: seq<Binding>)
    requires multiset(bindings) == multiset(others)
    ensures Rebind(env, bytes, digest, bindings) == Rebind(env, bytes, digest, others)
  {
    hide RestoreManifest, ReboundLeaf, ManifestText, NormalIdentifier;
    assert |bindings| == |multiset(bindings)| == |others|;
    MapPermutes(PersistedIdOf, bindings, others);
    PermutationKeepsDistinct(Map(PersistedIdOf, bindings), Map(PersistedIdOf, others));
    forall b ensures b in bindings <==> b in others { SameElements(bindings, others, b); }
    NormalIdsIgnoreOrder(env, bindings, others);
    NormalIdsIgnoreOrder(env, others, bindings);
    if RestoreManifest(env, bytes, digest).Some? && WellFormedBindings(env, bindings) {
      var leaves := RestoreManifest(env, bytes, digest).value;
      forall i | 0 <= i < |leaves| ensures ReboundBy(env, leaves[i], bindings) == ReboundBy(env, leaves[i], others) {
        BindingForIgnoresOrder(bindings, others, leaves[i].logicalActionId);
      }
      SameRebinds(env, leaves, bindings, others);
    }
  }

  lemma NormalIdsIgnoreOrder(env: Env, bindings: seq<Binding>, others: seq<Binding>)
    requires forall b :: b in others ==> b in bindings
    ensures (forall i :: 0 <= i < |bindings| ==> NormalIdentifier(env, bindings[i].persistedLogicalActionId))
      ==> forall i :: 0 <= i < |others| ==> NormalIdentifier(env, others[i].persistedLogicalActionId)
  {
    hide NormalIdentifier;
    forall i | (forall i :: 0 <= i < |bindings| ==> NormalIdentifier(env, bindings[i].persistedLogicalActionId))
      && 0 <= i < |others| ensures NormalIdentifier(env, others[i].persistedLogicalActionId) {
      assert others[i] in bindings;
    }
  }

  lemma SameRebinds(env: Env, leaves: seq<LeafAction>, bindings: seq<Binding>, others: seq<Binding>)
    requires forall i :: 0 <= i < |leaves| ==> ReboundBy(env, leaves[i], bindings) == ReboundBy(env, leaves[i], others)
    ensures ReboundLeaves(env, leaves, bindings) == ReboundLeaves(env, leaves, others)
  {
    hide ReboundBy;
    if ReboundLeaves(env, leaves, bindings).Some? && ReboundLeaves(env, leaves, others).Some? {
      assert ReboundLeaves(env, leaves, bindings).value == ReboundLeaves(env, leaves, others).value;
    }
  }

  // ---------------------------------------------------------------- rebinding twice

  // First binding by binding, then whatever the second list says of the new identity.
  function ComposeOne(b: Binding, later: seq<Binding>): Binding {
    match BindingFor(later, b.occurrenceLogicalActionId)
    case Some(c) => Binding(b.persistedLogicalActionId, c.occurrenceLogicalActionId, c.targets)
    case None => b
  }

  function Compose(earlier: seq<Binding>, later: seq<Binding>): (r: seq<Binding>)
    ensures |r| == |earlier| && forall i :: 0 <= i < |r| ==> r[i] == ComposeOne(earlier[i], later)
  {
    if earlier == [] then [] else [ComposeOne(earlier[0], later)] + Compose(earlier[1..], later)
  }

  lemma {:induction false} BindingForCompose(earlier: seq<Binding>, later: seq<Binding>, id: string)
    ensures BindingFor(Compose(earlier, later), id)
         == match BindingFor(earlier, id) case Some(b) => Some(ComposeOne(b, later)) case None => None
  {
    if earlier != [] {
      BindingForCompose(earlier[1..], later, id);
      assert Compose(earlier, later)[1..] == Compose(earlier[1..], later);
    }
  }

  lemma ReboundTwice(env: Env, leaf: LeafAction, b: Binding, c: Binding)
    requires ReboundLeaf(env, leaf, b).Some?
    ensures ReboundLeaf(env, ReboundLeaf(env, leaf, b).value, c)
         == ReboundLeaf(env, leaf, Binding(b.persistedLogicalActionId, c.occurrenceLogicalActionId, c.targets))
  {
    hide LeafText, TargetsText, NormalIdentifier;
    if NormalIdentifier(env, c.occurrenceLogicalActionId) && TargetsText(c.targets).Some? {
      var once := ReboundLeaf(env, leaf, b).value;
      var edit := leaf.(logicalActionId := c.occurrenceLogicalActionId,
                        targetSnapshot := Freeze(env, TargetsText(c.targets).value));
      TextIgnoresCanonical(edit, once.canonical);
    }
  }

  // The later list has as many bindings as there are leaves, well-formed and one for each leaf.
  ghost predicate CoversLeaves(env: Env, leaves: seq<LeafAction>, bindings: seq<Binding>) {
    && |bindings| == |leaves|
    && WellFormedBindings(env, bindings)
    && forall i :: 0 <= i < |leaves| ==> BindingFor(bindings, leaves[i].logicalActionId).Some?
  }

  lemma ComposedRebindsAlike(env: Env, leaves: seq<LeafAction>, once: seq<LeafAction>, earlier: seq<Binding>,
                             later: seq<Binding>)
    requires |once| == |leaves|
    requires forall i :: 0 <= i < |leaves| ==> ReboundBy(env, leaves[i], earlier) == Some(once[i])
    requires forall i :: 0 <= i < |once| ==> BindingFor(later, once[i].logicalActionId).Some?
    ensures ReboundLeaves(env, leaves, Compose(earlier, later)) == ReboundLeaves(env, once, later)
  {
    hide ReboundLeaf, BindingFor;
    var composed := Compose(earlier, later);
    forall i | 0 <= i < |leaves| ensures ReboundBy(env, leaves[i], composed) == ReboundBy(env, once[i], later) {
      var b := BindingFor(earlier, leaves[i].logicalActionId).value;
      BindingForCompose(earlier, later, leaves[i].logicalActionId);
      ReboundLeafId(env, leaves[i], b);
      ReboundTwice(env, leaves[i], b, BindingFor(later, once[i].logicalActionId).value);
    }
    if ReboundLeaves(env, leaves, composed).Some? {
      assert ReboundLeaves(env, leaves, composed).value == ReboundLeaves(env, once, later).value;
    }
  }

  // Rebinding a rebound manifest equals one rebind with the composed bindings, refusals included,
  // for every well-formed second list that covers the leaves.
  lemma RebindComposes(env: Env, bytes: string, digest: string, earlier: seq<Binding>, later: seq<Binding>)
    requires env.Valid() && Rebind(env, bytes, digest, earlier).Some?
    requires var once := Rebind(env, bytes, digest, earlier).value;
      |once.canonical.bytes| <= MAX_PERSISTED_MANIFEST_BYTES && CoversLeaves(env, once.leaves, later)
    ensures var once := Rebind(env, bytes, digest, earlier).value.canonical;
      Rebind(env, bytes, digest, Compose(earlier, later)) == Rebind(env, once.bytes, once.digest, later)
  {
    hide ManifestText, NormalLeaf, ScopeIsCanonical, ReboundLeaf, TargetsText, RestoreManifest, NormalIdentifier,
      SameEnvelope;
    RebindKeepsEnvelopes(env, bytes, digest, earlier);
    var leaves := RestoreManifest(env, bytes, digest).value;
    var once := Rebind(env, bytes, digest, earlier).value;
    RestorePrintedManifest(env, once.leaves);
    assert Map(PersistedIdOf, Compose(earlier, later)) == Map(PersistedIdOf, earlier);
    ComposedRebindsAlike(env, leaves, once.leaves, earlier, later);
  }

  // A second list that is not well-formed or leaves a leaf out is refused.
  lemma UncoveredIsRefused(env: Env, bytes: string, digest: string, bindings: seq<Binding>)
    requires RestoreManifest(env, bytes, digest).Some?
    requires !CoversLeaves(env, RestoreManifest(env, bytes, digest).value, bindings)
    ensures Rebind(env, bytes, digest, bindings).None?
  {
    hide ManifestText, ReboundLeaf, TargetsText, RestoreManifest, NormalIdentifier;
    var leaves := RestoreManifest(env, bytes, digest).value;
    if WellFormedBindings(env, bindings) && |bindings| == |leaves| {
      var i :| 0 <= i < |leaves| && BindingFor(bindings, leaves[i].logicalActionId).None?;
      assert ReboundBy(env, leaves[i], bindings).None?;
    }
  }
}
