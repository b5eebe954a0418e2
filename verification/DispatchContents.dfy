// What a compiled leaf holds, said field by field of the input it comes from.
module DispatchContents {
  import opened Wrappers
  import opened Ordering
  import opened CanonicalValue
  import opened Manifest
  import opened Dispatch
  import opened DispatchExpansion
  import opened DispatchLaws
  import opened ManifestRestore

  // ---------------------------------------------------------------- names and digests

  // A name is kept as its normal form, which has 1 to 256 bytes.
  predicate IsNameOf(env: Env, given: string, kept: string) {
    kept == env.normalize(given) && 1 <= |kept| <= 256
  }

  predicate IsLowered(given: char, kept: char) {
    ('0' <= kept <= '9' && kept == given)
    || ('a' <= kept <= 'f' && (kept == given || ('A' <= given <= 'F' && kept as int == given as int + 32)))
  }

  // A digest is kept trimmed, as 64 lower-case hexadecimal digits.
  predicate IsDigestOf(env: Env, given: string, kept: string) {
    |kept| == |env.trim(given)| == 64 && forall i :: 0 <= i < 64 ==> IsLowered(env.trim(given)[i], kept[i])
  }

  predicate IsOptionalNameOf(env: Env, given: Option<string>, kept: Option<string>) {
    (kept.Some? <==> given.Some?) && (given.Some? ==> IsNameOf(env, given.value, kept.value))
  }

  predicate IsOptionalDigestOf(env: Env, given: Option<string>, kept: Option<string>) {
    (kept.Some? <==> given.Some?) && (given.Some? ==> IsDigestOf(env, given.value, kept.value))
  }

  lemma IdentifierExactly(env: Env, given: string, kept: string)
    ensures Identifier(env, given) == Some(kept) <==> IsNameOf(env, given, kept)
  {
  }

  lemma DigestExactly(env: Env, given: string, kept: string)
    ensures ParseDigest(env, given) == Some(kept) <==> IsDigestOf(env, given, kept)
  {
    var lowered := Map(LowerChar, env.trim(given));
    if IsDigestOf(env, given, kept) {
      assert lowered == kept;
    }
  }

  lemma OptionalsExactly(env: Env, given: Option<string>, kept: Option<string>)
    ensures CanonicalOptionalIdentifier(env, given) == Some(kept) <==> IsOptionalNameOf(env, given, kept)
    ensures CanonicalOptionalDigest(env, given) == Some(kept) <==> IsOptionalDigestOf(env, given, kept)
  {
    hide Identifier, ParseDigest, IsNameOf, IsDigestOf;
    if given.Some? && kept.Some? {
      IdentifierExactly(env, given.value, kept.value);
      DigestExactly(env, given.value, kept.value);
    }
    if given.Some? && CanonicalOptionalIdentifier(env, given).Some? {
      IdentifierExactly(env, given.value, Identifier(env, given.value).value);
    }
    if given.Some? && CanonicalOptionalDigest(env, given).Some? {
      DigestExactly(env, given.value, ParseDigest(env, given.value).value);
    }
  }

  // ---------------------------------------------------------------- the authority

  predicate IsEvidenceOf(env: Env, given: Evidence, kept: Evidence) {
    && (kept.LocalInteractive? <==> given.LocalInteractive?)
    && (given.LocalInteractive? ==>
      && IsNameOf(env, given.authenticatedClientId, kept.authenticatedClientId)
      && IsOptionalNameOf(env, given.optionalSourceMessageId, kept.optionalSourceMessageId))
    && (given.RemoteAuthenticated? ==>
      && IsNameOf(env, given.adapterId, kept.adapterId)
      && IsNameOf(env, given.providerAccountId, kept.providerAccountId)
      && IsNameOf(env, given.sourceMessageId, kept.sourceMessageId))
    && IsNameOf(env, given.authenticatedIngress, kept.authenticatedIngress)
    && IsNameOf(env, given.channelAssurance, kept.channelAssurance)
    && IsNameOf(env, given.requestCorrelationId, kept.requestCorrelationId)
  }

  predicate IsAuthorityOf(env: Env, given: VerifiedAuthority, kept: Authority) {
    && IsEvidenceOf(env, given.ownerEvidence, kept.ownerEvidence)
    && IsNameOf(env, given.authorityProvenanceId, kept.authorityProvenanceId)
    && IsDigestOf(env, given.normalizedIntentDigest, kept.normalizedIntentDigest)
    && IsNameOf(env, given.instructionRevision, kept.instructionRevision)
    && IsDigestOf(env, given.instructionDigest, kept.instructionDigest)
    && IsNameOf(env, given.ownerEnvelopeRevision, kept.ownerEnvelopeRevision)
    && IsDigestOf(env, given.ownerEnvelopeDigest, kept.ownerEnvelopeDigest)
    && IsNameOf(env, given.authorityKind, kept.authorityKind)
    && |given.normalizedScope| <= 65536
    && kept.normalizedScope.bytes == given.normalizedScope
    && kept.normalizedScope.digest == env.sha256(given.normalizedScope)
    && kept.policyRevision == given.policyRevision
    && IsOptionalNameOf(env, given.boundDecisionId, kept.boundDecisionId)
    && kept.boundDecisionRevision == given.boundDecisionRevision
    && IsOptionalDigestOf(env, given.boundManifestDigest, kept.boundManifestDigest)
    && IsOptionalDigestOf(env, given.boundChallengeNonceDigest, kept.boundChallengeNonceDigest)
    && IsDigestOf(env, given.evidenceDigest, kept.evidenceDigest)
    && kept.createdAt == given.createdAt
    && kept.expiresAt == given.expiresAt
  }

  // Every name that is accepted, and every digest, is kept as said.
  lemma NamesKept(env: Env)
    ensures forall given, kept :: Identifier(env, given) == Some(kept) <==> IsNameOf(env, given, kept)
    ensures forall given, kept :: ParseDigest(env, given) == Some(kept) <==> IsDigestOf(env, given, kept)
    ensures forall given, kept :: CanonicalOptionalIdentifier(env, given) == Some(kept) <==> IsOptionalNameOf(env, given, kept)
    ensures forall given, kept :: CanonicalOptionalDigest(env, given) == Some(kept) <==> IsOptionalDigestOf(env, given, kept)
  {
    forall given, kept ensures Identifier(env, given) == Some(kept) <==> IsNameOf(env, given, kept) {
      IdentifierExactly(env, given, kept);
    }
    forall given, kept ensures ParseDigest(env, given) == Some(kept) <==> IsDigestOf(env, given, kept) {
      DigestExactly(env, given, kept);
    }
    forall given, kept
      ensures CanonicalOptionalIdentifier(env, given) == Some(kept) <==> IsOptionalNameOf(env, given, kept)
      ensures CanonicalOptionalDigest(env, given) == Some(kept) <==> IsOptionalDigestOf(env, given, kept)
    {
      OptionalsExactly(env, given, kept);
    }
  }

  lemma EvidenceExactly(env: Env, given: Evidence, kept: Evidence)
    ensures CanonicalEvidence(env, given) == Some(kept) <==> IsEvidenceOf(env, given, kept)
  {
    NamesKept(env);
    hide Identifier, CanonicalOptionalIdentifier, IsNameOf, IsOptionalNameOf;
  }

  lemma AuthorityExactly(env: Env, given: VerifiedAuthority, kept: Authority)
    ensures CanonicalAuthority(env, given) == Some(kept) <==> IsAuthorityOf(env, given, kept)
  {
    NamesKept(env);
    forall e ensures CanonicalEvidence(env, given.ownerEvidence) == Some(e) <==> IsEvidenceOf(env, given.ownerEvidence, e) {
      EvidenceExactly(env, given.ownerEvidence, e);
    }
    hide Identifier, ParseDigest, CanonicalOptionalIdentifier, CanonicalOptionalDigest, CanonicalEvidence, IsNameOf,
      IsDigestOf, IsOptionalNameOf, IsOptionalDigestOf, IsEvidenceOf;
  }

  // ---------------------------------------------------------------- leaves

  // The bytes are frozen with their digest.
  predicate IsFrozen(env: Env, frozen: Frozen) {
    frozen.digest == env.sha256(frozen.bytes)
  }

  predicate AreFieldsOf(env: Env, nodeId: string, given: LeafInput, path: seq<Step>, leaf: LeafAction) {
    && leaf.nodeId == nodeId
    && IsNameOf(env, given.logicalActionId, leaf.logicalActionId)
    && IsNameOf(env, given.actionKind, leaf.actionKind)
    && IsNameOf(env, given.tool.toolId, leaf.tool.toolId)
    && IsNameOf(env, given.tool.version, leaf.tool.version)
    && CanonicalText(given.operands) == Some(leaf.operands.bytes) && IsFrozen(env, leaf.operands)
    && TargetsText(given.targets) == Some(leaf.targetSnapshot.bytes) && IsFrozen(env, leaf.targetSnapshot)
    && IsOptionalDigestOf(env, given.materialDigest, leaf.materialDigest)
    && leaf.resolutionPath == path
    && IsAuthorityOf(env, given.ownerAuthority, leaf.ownerAuthority)
  }

  predicate IsLeafOf(env: Env, nodeId: string, given: LeafInput, path: seq<Step>, leaf: LeafAction) {
    AreFieldsOf(env, nodeId, given, path, leaf) && leaf.canonical.bytes == LeafText(leaf) && IsFrozen(env, leaf.canonical)
  }

  lemma FieldsOf(env: Env, given: LeafInput, leaf: LeafAction)
    ensures Identifier(env, given.logicalActionId) == Some(leaf.logicalActionId) <==>
      IsNameOf(env, given.logicalActionId, leaf.logicalActionId)
    ensures Identifier(env, given.actionKind) == Some(leaf.actionKind) <==> IsNameOf(env, given.actionKind, leaf.actionKind)
    ensures Identifier(env, given.tool.toolId) == Some(leaf.tool.toolId) <==>
      IsNameOf(env, given.tool.toolId, leaf.tool.toolId)
    ensures Identifier(env, given.tool.version) == Some(leaf.tool.version) <==>
      IsNameOf(env, given.tool.version, leaf.tool.version)
    ensures CanonicalOptionalDigest(env, given.materialDigest) == Some(leaf.materialDigest) <==>
      IsOptionalDigestOf(env, given.materialDigest, leaf.materialDigest)
    ensures CanonicalAuthority(env, given.ownerAuthority) == Some(leaf.ownerAuthority) <==>
      IsAuthorityOf(env, given.ownerAuthority, leaf.ownerAuthority)
  {
    hide *;
    IdentifierExactly(env, given.logicalActionId, leaf.logicalActionId);
    IdentifierExactly(env, given.actionKind, leaf.actionKind);
    IdentifierExactly(env, given.tool.toolId, leaf.tool.toolId);
    IdentifierExactly(env, given.tool.version, leaf.tool.version);
    OptionalsExactly(env, given.materialDigest, leaf.materialDigest);
    AuthorityExactly(env, given.ownerAuthority, leaf.ownerAuthority);
  }

  lemma CompiledParts(env: Env, nodeId: string, given: LeafInput, path: seq<Step>)
    requires CanonicalLeaf(env, nodeId, given, path).Some?
    ensures var leaf := CanonicalLeaf(env, nodeId, given, path).value;
      && leaf.nodeId == nodeId && leaf.resolutionPath == path
      && Identifier(env, given.logicalActionId) == Some(leaf.logicalActionId)
      && Identifier(env, given.actionKind) == Some(leaf.actionKind)
      && Identifier(env, given.tool.toolId) == Some(leaf.tool.toolId)
      && Identifier(env, given.tool.version) == Some(leaf.tool.version)
      && CanonicalText(given.operands) == Some(leaf.operands.bytes) && IsFrozen(env, leaf.operands)
      && TargetsText(given.targets) == Some(leaf.targetSnapshot.bytes) && IsFrozen(env, leaf.targetSnapshot)
      && CanonicalOptionalDigest(env, given.materialDigest) == Some(leaf.materialDigest)
      && CanonicalAuthority(env, given.ownerAuthority) == Some(leaf.ownerAuthority)
  {
    hide Identifier, CanonicalOptionalDigest, CanonicalAuthority, CanonicalText, TargetsText, LeafText;
  }

  lemma CompiledFields(env: Env, nodeId: string, given: LeafInput, path: seq<Step>)
    requires CanonicalLeaf(env, nodeId, given, path).Some?
    ensures AreFieldsOf(env, nodeId, given, path, CanonicalLeaf(env, nodeId, given, path).value)
  {
    hide CanonicalLeaf, Identifier, CanonicalOptionalDigest, CanonicalAuthority, IsNameOf, IsOptionalDigestOf, IsAuthorityOf,
      CanonicalText, TargetsText, IsFrozen;
    CompiledParts(env, nodeId, given, path);
    FieldsOf(env, given, CanonicalLeaf(env, nodeId, given, path).value);
  }

  lemma FieldsCompile(env: Env, nodeId: string, given: LeafInput, path: seq<Step>, leaf: LeafAction)
    requires AreFieldsOf(env, nodeId, given, path, leaf)
    ensures CanonicalLeaf(env, nodeId, given, path).Some?
    ensures CanonicalLeaf(env, nodeId, given, path).value.(canonical := leaf.canonical) == leaf
  {
    FieldsOf(env, given, leaf);
    hide Identifier, CanonicalOptionalDigest, CanonicalAuthority, IsNameOf, IsOptionalDigestOf, IsAuthorityOf,
      CanonicalText, TargetsText, LeafText;
  }

  lemma SealedCanonical(env: Env, nodeId: string, given: LeafInput, path: seq<Step>)
    requires CanonicalLeaf(env, nodeId, given, path).Some?
    ensures var made := CanonicalLeaf(env, nodeId, given, path).value; made.canonical == Freeze(env, LeafText(made))
  {
    hide Identifier, CanonicalOptionalDigest, CanonicalAuthority, CanonicalText, TargetsText, LeafText;
    TextIgnoresCanonical(CanonicalLeaf(env, nodeId, given, path).value, Frozen("", ""));
  }

  // A leaf is compiled exactly to what it holds, and refused exactly when no leaf holds that.
  lemma LeafExactly(env: Env, nodeId: string, given: LeafInput, path: seq<Step>, leaf: LeafAction)
    ensures CanonicalLeaf(env, nodeId, given, path) == Some(leaf) <==> IsLeafOf(env, nodeId, given, path, leaf)
  {
    hide CanonicalLeaf, AreFieldsOf, LeafText;
    if AreFieldsOf(env, nodeId, given, path, leaf) {
      FieldsCompile(env, nodeId, given, path, leaf);
    }
    if CanonicalLeaf(env, nodeId, given, path).Some? {
      CompiledFields(env, nodeId, given, path);
      var made := CanonicalLeaf(env, nodeId, given, path).value;
      SealedCanonical(env, nodeId, given, path);
      TextIgnoresCanonical(made, leaf.canonical);
    }
  }

  // ---------------------------------------------------------------- resolution steps

  predicate IsDescriptorOf(env: Env, given: Descriptor, kept: Descriptor) {
    match given
    case Alias(alias) => kept.Alias? && IsNameOf(env, alias, kept.alias)
    case Plugin(pluginId, version) =>
      kept.Plugin? && IsNameOf(env, pluginId, kept.pluginId) && IsNameOf(env, version, kept.version)
    case Shell(shellId, shellVersion, command) =>
      && kept.Shell? && IsNameOf(env, shellId, kept.shellId) && IsNameOf(env, shellVersion, kept.shellVersion)
      && kept.command == command && 1 <= |command| <= 16384
    case Child(childIdentity, version) =>
      kept.Child? && IsNameOf(env, childIdentity, kept.childIdentity) && IsNameOf(env, version, kept.version)
  }

  lemma DescriptorExactly(env: Env, given: Descriptor, kept: Descriptor)
    ensures NormalizedDescriptor(env, given) == Some(kept) <==> IsDescriptorOf(env, given, kept)
  {
    NamesKept(env);
    hide Identifier, IsNameOf;
  }

  predicate IsEntryOf(env: Env, given: RegistryEntry, kept: RegistryEntry) {
    && IsDescriptorOf(env, given.descriptor, kept.descriptor)
    && IsNameOf(env, given.target.targetNodeId, kept.target.targetNodeId)
    && IsNameOf(env, given.target.resolverId, kept.target.resolverId)
    && IsNameOf(env, given.target.resolverVersion, kept.target.resolverVersion)
    && IsDigestOf(env, given.target.resolutionMaterialDigest, kept.target.resolutionMaterialDigest)
  }

  lemma EntryExactly(env: Env, given: RegistryEntry, kept: RegistryEntry)
    ensures NormalizedEntry(env, given) == Some(kept) <==> IsEntryOf(env, given, kept)
  {
    NamesKept(env);
    forall d ensures NormalizedDescriptor(env, given.descriptor) == Some(d) <==> IsDescriptorOf(env, given.descriptor, d) {
      DescriptorExactly(env, given.descriptor, d);
    }
    hide Identifier, ParseDigest, IsNameOf, IsDigestOf, NormalizedDescriptor, IsDescriptorOf;
  }

  // The step names the only entry of its descriptor, with what that entry says.
  ghost predicate IsStepOf(env: Env, entries: seq<RegistryEntry>, given: Descriptor, step: Step) {
    && IsDescriptorOf(env, given, step.descriptor)
    && exists i | 0 <= i < |entries| ::
      && IsEntryOf(env, entries[i], RegistryEntry(step.descriptor,
           Target(step.targetNodeId, step.resolverId, step.resolverVersion, step.resolutionMaterialDigest)))
      && forall j | 0 <= j < |entries| && j != i :: !IsDescriptorOf(env, entries[j].descriptor, step.descriptor)
  }

  lemma {:induction false} CandidatesAreEntries(env: Env, entries: seq<RegistryEntry>, d: Descriptor)
    requires forall i :: 0 <= i < |entries| ==> NormalizedEntry(env, entries[i]).Some?
    ensures Candidates(env, entries, d) == [] ==> forall j :: 0 <= j < |entries| ==> !IsDescriptorOf(env, entries[j].descriptor, d)
    ensures |Candidates(env, entries, d)| == 1 ==> exists i | 0 <= i < |entries| ::
      && IsEntryOf(env, entries[i], RegistryEntry(d, Candidates(env, entries, d)[0]))
      && forall j | 0 <= j < |entries| && j != i :: !IsDescriptorOf(env, entries[j].descriptor, d)
  {
    hide NormalizedEntry, IsEntryOf, IsDescriptorOf;
    if entries != [] {
      var rest := entries[1..];
      CandidatesAreEntries(env, rest, d);
      var first := NormalizedEntry(env, entries[0]).value;
      EntryExactly(env, entries[0], first);
      FirstDescriptor(env, entries[0], first, d);
      assert forall j :: 0 < j < |entries| ==> entries[j] == rest[j - 1];
      if |Candidates(env, entries, d)| == 1 {
        if first.descriptor == d {
          assert Candidates(env, rest, d) == [];
          assert IsEntryOf(env, entries[0], RegistryEntry(d, Candidates(env, entries, d)[0]));
        } else {
          var i :| 0 <= i < |rest|
            && IsEntryOf(env, rest[i], RegistryEntry(d, Candidates(env, rest, d)[0]))
            && forall j | 0 <= j < |rest| && j != i :: !IsDescriptorOf(env, rest[j].descriptor, d);
          assert entries[i + 1] == rest[i];
        }
      }
    }
  }

  lemma FirstDescriptor(env: Env, given: RegistryEntry, kept: RegistryEntry, d: Descriptor)
    requires NormalizedEntry(env, given) == Some(kept)
    ensures IsDescriptorOf(env, given.descriptor, d) <==> kept.descriptor == d
  {
    DescriptorExactly(env, given.descriptor, d);
    hide Identifier, ParseDigest, IsDescriptorOf, NormalizedDescriptor;
  }

  lemma UniqueTargetIsStep(s: Setting, entries: seq<RegistryEntry>, given: Descriptor, step: Step)
    requires ValidEntries(s.env, entries) && Holds(s.registry, s.env, entries)
    requires NormalizedDescriptor(s.env, given) == Some(step.descriptor) && UniqueTarget(s, step.descriptor) == Some(step)
    ensures IsStepOf(s.env, entries, given, step)
  {
    DescriptorExactly(s.env, given, step.descriptor);
    CandidatesAreEntries(s.env, entries, step.descriptor);
    hide NormalizedEntry, IsEntryOf, IsDescriptorOf, NormalizedDescriptor, Candidates;
    var target := s.registry[step.descriptor][0];
    assert Candidates(s.env, entries, step.descriptor) == [target];
    assert target == Target(step.targetNodeId, step.resolverId, step.resolverVersion, step.resolutionMaterialDigest);
  }

  // ---------------------------------------------------------------- the compiled manifest

  ghost predicate IsLeafNode(env: Env, nodes: seq<Node>, n: int, path: seq<Step>, leaf: LeafAction) {
    && 0 <= n < |nodes| && nodes[n].action.ResolvedLeaf?
    && IsNameOf(env, nodes[n].nodeId, leaf.nodeId)
    && IsLeafOf(env, leaf.nodeId, nodes[n].action.leaf, path, leaf)
  }

  ghost predicate IsWrapperNode(env: Env, nodes: seq<Node>, entries: seq<RegistryEntry>, n: int, step: Step) {
    0 <= n < |nodes| && nodes[n].action.Wrapper? && IsStepOf(env, entries, nodes[n].action.descriptor, step)
  }

  // The leaf holds what one leaf node of the dispatch says, and each of its steps what one wrapper node
  // and its one registry entry say.
  ghost predicate ComesFrom(env: Env, nodes: seq<Node>, entries: seq<RegistryEntry>, leaf: LeafAction) {
    && (exists n :: IsLeafNode(env, nodes, n, leaf.resolutionPath, leaf))
    && StepsComeFrom(env, nodes, entries, leaf.resolutionPath)
  }

  ghost predicate StepComesFrom(env: Env, nodes: seq<Node>, entries: seq<RegistryEntry>, step: Step) {
    exists n :: IsWrapperNode(env, nodes, entries, n, step)
  }

  ghost predicate StepsComeFrom(env: Env, nodes: seq<Node>, entries: seq<RegistryEntry>, path: seq<Step>) {
    forall k :: 0 <= k < |path| ==> StepComesFrom(env, nodes, entries, path[k])
  }

  // A position of the lookup is that of a node of this name.
  ghost predicate LooksUp(s: Setting) {
    forall id :: id in s.lookup && s.lookup[id] < |s.nodes| ==> Identifier(s.env, s.nodes[s.lookup[id]].nodeId) == Some(id)
  }

  lemma {:induction false} FlattenedComeFrom(s: Setting, entries: seq<RegistryEntry>, ref: string, x: Expansion, path: seq<Step>)
    requires LooksUp(s) && ValidEntries(s.env, entries) && Holds(s.registry, s.env, entries)
    requires Expands(s, ref, x) && Flatten(s.env, x, path).Some? && StepsComeFrom(s.env, s.nodes, entries, path)
    ensures forall leaf :: leaf in Flatten(s.env, x, path).value ==> ComesFrom(s.env, s.nodes, entries, leaf)
    decreases x, 1
  {
    hide Identifier, NormalizedDescriptor, CanonicalLeaf, UniqueTarget, Holds, ValidEntries, IsLeafNode, IsWrapperNode;
    match x {
      case LeafX(id, given) =>
        LeafComesFrom(s, id, given, path);
        LeafStepsComeFrom(s, entries, id, given, path);
      case CompositeX(_, children) =>
        AllComeFrom(s, entries, ActionOf(s, x.id).value.children, children, path);
      case WrapperX(id, step, child) =>
        WrapperComesFrom(s, entries, id, step);
        StepsSnoc(s.env, s.nodes, entries, path, step);
        FlattenedComeFrom(s, entries, step.targetNodeId, child, path + [step]);
    }
  }

  lemma StepsSnoc(env: Env, nodes: seq<Node>, entries: seq<RegistryEntry>, path: seq<Step>, step: Step)
    requires StepsComeFrom(env, nodes, entries, path) && StepComesFrom(env, nodes, entries, step)
    ensures StepsComeFrom(env, nodes, entries, path + [step])
  {
    hide StepComesFrom;
    assert forall k :: 0 <= k < |path| ==> (path + [step])[k] == path[k];
  }

  lemma LeafComesFrom(s: Setting, id: string, given: LeafInput, path: seq<Step>)
    requires LooksUp(s) && ActionOf(s, id) == Some(ResolvedLeaf(given)) && CanonicalLeaf(s.env, id, given, path).Some?
    ensures var leaf := CanonicalLeaf(s.env, id, given, path).value;
      IsLeafNode(s.env, s.nodes, s.lookup[id], path, leaf) && leaf.resolutionPath == path
  {
    var leaf := CanonicalLeaf(s.env, id, given, path).value;
    LeafExactly(s.env, id, given, path, leaf);
    IdentifierExactly(s.env, s.nodes[s.lookup[id]].nodeId, id);
    hide Identifier, CanonicalLeaf, IsAuthorityOf, IsNameOf, IsOptionalDigestOf, CanonicalText, TargetsText, LeafText;
  }

  lemma LeafStepsComeFrom(s: Setting, entries: seq<RegistryEntry>, id: string, given: LeafInput, path: seq<Step>)
    requires LooksUp(s) && ActionOf(s, id) == Some(ResolvedLeaf(given)) && CanonicalLeaf(s.env, id, given, path).Some?
    requires StepsComeFrom(s.env, s.nodes, entries, path)
    ensures ComesFrom(s.env, s.nodes, entries, CanonicalLeaf(s.env, id, given, path).value)
  {
    hide CanonicalLeaf, IsLeafNode, IsWrapperNode, Identifier;
    LeafComesFrom(s, id, given, path);
    var leaf := CanonicalLeaf(s.env, id, given, path).value;
    assert IsLeafNode(s.env, s.nodes, s.lookup[id], leaf.resolutionPath, leaf);
  }

  lemma WrapperComesFrom(s: Setting, entries: seq<RegistryEntry>, id: string, step: Step)
    requires ValidEntries(s.env, entries) && Holds(s.registry, s.env, entries)
    requires ActionOf(s, id).Some? && ActionOf(s, id).value.Wrapper?
    requires NormalizedDescriptor(s.env, ActionOf(s, id).value.descriptor) == Some(step.descriptor)
    requires UniqueTarget(s, step.descriptor) == Some(step)
    ensures StepComesFrom(s.env, s.nodes, entries, step)
  {
    hide NormalizedDescriptor, UniqueTarget, Holds, ValidEntries, IsStepOf;
    UniqueTargetIsStep(s, entries, ActionOf(s, id).value.descriptor, step);
    assert IsWrapperNode(s.env, s.nodes, entries, s.lookup[id], step);
  }

  lemma {:induction false} AllComeFrom(
      s: Setting, entries: seq<RegistryEntry>, refs: seq<string>, xs: seq<Expansion>, path: seq<Step>)
    requires LooksUp(s) && ValidEntries(s.env, entries) && Holds(s.registry, s.env, entries)
    requires ExpandsAll(s, refs, xs) && FlattenAll(s.env, xs, path).Some? && StepsComeFrom(s.env, s.nodes, entries, path)
    ensures forall leaf :: leaf in FlattenAll(s.env, xs, path).value ==> ComesFrom(s.env, s.nodes, entries, leaf)
    decreases xs, 0
  {
    hide Expands, Flatten, LooksUp, Holds, ValidEntries, ComesFrom, StepsComeFrom;
    if xs != [] {
      FlattenedComeFrom(s, entries, refs[0], xs[0], path);
      AllComeFrom(s, entries, refs[1..], xs[1..], path);
    }
  }

  lemma SettingLooksUp(env: Env, nodes: seq<Node>, registry: Registry, limits: Limits)
    requires UniqueNodes(env, nodes)
    ensures LooksUp(SettingOf(env, nodes, registry, limits))
    ensures SettingOf(env, nodes, registry, limits).registry == registry
    ensures SettingOf(env, nodes, registry, limits).env == env && SettingOf(env, nodes, registry, limits).nodes == nodes
  {
    hide Identifier;
    IndexedNodes(env, nodes, |nodes|);
    assert nodes[..|nodes|] == nodes;
  }

  // Every leaf of a ready manifest holds exactly what a leaf node, and the wrapper nodes and registry
  // entries on the way to it, say.
  lemma ReadyContents(env: Env, rootId: string, nodes: seq<Node>, entries: seq<RegistryEntry>, registry: Registry, limits: Limits)
    requires env.Valid() && ValidEntries(env, entries) && Holds(registry, env, entries)
    requires Compile(env, rootId, nodes, registry, limits).Ready?
    ensures var r := Compile(env, rootId, nodes, registry, limits);
      && (forall leaf :: leaf in r.leaves ==> ComesFrom(env, nodes, entries, leaf))
      && r.canonical.bytes == ManifestText(r.leaves) && IsFrozen(env, r.canonical)
  {
    hide Identifier, Compile, ManifestText, Expands, Flatten, UniqueNodes, Holds, ValidEntries, ComesFrom, LooksUp, SettingOf;
    ReadyExactly(env, rootId, nodes, registry, limits);
    var s := SettingOf(env, nodes, registry, limits);
    SettingLooksUp(env, nodes, registry, limits);
    var x :| Admissible(s, rootId, x);
    FlattenedComeFrom(s, entries, rootId, x, []);
  }
}
