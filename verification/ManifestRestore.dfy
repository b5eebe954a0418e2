// Restoring undoes printing: every manifest of normal leaves is read back exactly, and nothing but
// such a printout is ever accepted.

module ManifestRestore {
  import opened Wrappers
  import opened Ordering
  import opened Json
  import opened CanonicalValue
  import opened Manifest

  // ---------------------------------------------------------------- reading structures

  lemma {:induction false} FindAt(fields: seq<Field>, i: nat)
    requires i < |fields| && Distinct(Keys(fields))
    ensures Find(fields, fields[i].key) == Some(fields[i].value)
  {
    if i != 0 {
      assert Keys(fields)[0] != Keys(fields)[i];
      assert Keys(fields)[1..] == Keys(fields[1..]);
      FindAt(fields[1..], i - 1);
    }
  }

  lemma {:induction false} ArrangeInOrder(names: seq<string>, values: seq<Value>, k: nat, optional: set<string>)
    requires k <= |names| == |values| && Distinct(names)
    ensures Arrange(Fields(names, values), names[k..], optional) == Some(values[k..])
    decreases |names| - k
  {
    if k < |names| {
      assert Keys(Fields(names, values)) == names;
      FindAt(Fields(names, values), k);
      ArrangeInOrder(names, values, k + 1, optional);
      assert names[k..][1..] == names[k + 1..];
      assert [values[k]] + values[k + 1..] == values[k..];
    }
  }

  // A structure written in the declared order is read in that order.
  lemma ReadStruct(names: seq<string>, values: seq<Value>, optional: set<string>)
    requires |names| == |values| && Distinct(names)
    ensures StructFields(Struct(names, values), names, optional) == Some(values)
  {
    var fields := Fields(names, values);
    ArrangeInOrder(names, values, 0, optional);
    assert Keys(fields) == names;
    assert names[0..] == names && values[0..] == values;
    forall i | 0 <= i < |fields| ensures fields[i].key in names { assert names[i] == fields[i].key; }
  }

  lemma ReadKind(names: seq<string>, values: seq<Value>, i: nat)
    requires i < |names| == |values| && Distinct(names)
    requires names[i] == "kind" && values[i].Text?
    ensures KindOf(Struct(names, values)) == Some(values[i].text)
  {
    assert Keys(Fields(names, values)) == names;
    FindAt(Fields(names, values), i);
  }

  lemma StructTextIsTree(names: seq<string>, texts: seq<string>, values: seq<Value>)
    requires |names| == |texts| == |values|
    requires forall i :: 0 <= i < |texts| ==> texts[i] == Render(values[i])
    ensures StructText(names, texts) == Render(Struct(names, values))
  {
    RenderEntriesOf(Entries(names, texts), Fields(names, values));
  }

  lemma StructNesting(names: seq<string>, values: seq<Value>, bound: nat)
    requires |names| == |values|
    requires forall i :: 0 <= i < |values| ==> Nesting(values[i]) <= bound
    ensures Nesting(Struct(names, values)) <= bound + 1
  {
    FieldsNestingBound(Fields(names, values), bound);
  }

  lemma ReadCanonical(text: string)
    requires IsCanonicalText(text)
    ensures Render(Reading(text)) == text
    ensures CanonicalTextIn(Reading(text)) == Some(text)
    ensures Nesting(Reading(text)) <= 33
  {
    CanonicalTextReading(text);
  }

  // The value whose rendering the text is, if there is one: a scope may be printed JSON without being
  // a canonical value within the limits.
  ghost function ScopeValue(text: string): Value {
    if IsPrinted(text) then PrintedValue(text) else Null
  }

  lemma CanonicalIsPrinted(text: string)
    requires IsCanonicalText(text)
    ensures IsPrinted(text) && ScopeValue(text) == Reading(text)
  {
    hide Render, Reading;
    ReadCanonical(text);
    assert Render(Reading(text)) == text;
    RenderIsInjective(ScopeValue(text), Reading(text));
  }

  // ---------------------------------------------------------------- parts of a leaf

  lemma DecodePrintedDescriptor(d: Descriptor)
    ensures DecodeDescriptor(DescriptorValue(d)) == Some(d)
  {
    hide StructFields, Struct, KindOf;
    match d {
      case Alias(alias) =>
        var values := [Text(alias), Text("alias")];
        ReadKind(DESCRIPTOR_ALIAS_FIELDS, values, 1);
        ReadStruct(DESCRIPTOR_ALIAS_FIELDS, values, {});
      case Plugin(id, version) =>
        var values := [Text("plugin"), Text(id), Text(version)];
        ReadKind(DESCRIPTOR_PLUGIN_FIELDS, values, 0);
        ReadStruct(DESCRIPTOR_PLUGIN_FIELDS, values, {});
        assert "plugin"[0] == 'p' && "alias"[0] == 'a';
      case Shell(id, version, command) =>
        var values := [Text(command), Text("shell"), Text(id), Text(version)];
        ReadKind(DESCRIPTOR_SHELL_FIELDS, values, 1);
        ReadStruct(DESCRIPTOR_SHELL_FIELDS, values, {});
        assert "shell"[0] == 's' && "plugin"[0] == 'p' && "alias"[0] == 'a';
      case Child(identity, version) =>
        var values := [Text(identity), Text("child"), Text(version)];
        ReadKind(DESCRIPTOR_CHILD_FIELDS, values, 1);
        ReadStruct(DESCRIPTOR_CHILD_FIELDS, values, {});
        assert "child"[0] == 'c' && "shell"[0] == 's' && "plugin"[0] == 'p' && "alias"[0] == 'a';
    }
  }

  ghost function StepValues(step: Step): seq<Value> {
    [DescriptorValue(step.descriptor), Text(step.resolutionMaterialDigest), Text(step.resolverId),
     Text(step.resolverVersion), Text(step.targetNodeId)]
  }

  lemma StepNames()
    ensures Distinct(STEP_FIELDS)
  {
  }

  lemma RestorePrintedStep(env: Env, step: Step)
    requires NormalStep(env, step)
    ensures RestoreStep(env, StepValue(step)) == Some(step)
  {
    hide StructFields, DecodeDescriptor, DescriptorValue, ParseDigest, Identifier, NormalizedDescriptor, StepValue;
    ReadStepValue(step);
    DecodePrintedDescriptor(step.descriptor);
  }

  lemma ReadStepValue(step: Step)
    ensures StructFields(StepValue(step), STEP_FIELDS, {}) == Some(StepValues(step))
  {
    hide StructFields, Struct, DescriptorValue;
    StepNames();
    ReadStruct(STEP_FIELDS, StepValues(step), {});
  }

  lemma {:induction false} RestorePrintedSteps(env: Env, steps: seq<Step>)
    requires forall i :: 0 <= i < |steps| ==> NormalStep(env, steps[i])
    ensures RestoreSteps(env, Map(StepValue, steps)) == Some(steps)
  {
    hide RestoreStep, StepValue, NormalStep;
    if steps != [] {
      var tail := Map(StepValue, steps[1..]);
      RestorePrintedStep(env, steps[0]);
      RestorePrintedSteps(env, steps[1..]);
      RestoreStepsCons(env, steps[0], StepValue(steps[0]), steps[1..], tail);
      assert Map(StepValue, steps) == [StepValue(steps[0])] + tail;
      assert steps == [steps[0]] + steps[1..];
    }
  }

  lemma RestoreStepsCons(env: Env, step: Step, v: Value, steps: seq<Step>, vs: seq<Value>)
    requires RestoreStep(env, v) == Some(step) && RestoreSteps(env, vs) == Some(steps)
    ensures RestoreSteps(env, [v] + vs) == Some([step] + steps)
  {
    hide RestoreStep;
    assert ([v] + vs)[1..] == vs;
  }

  lemma RestorePrintedTool(env: Env, tool: Tool)
    requires NormalIdentifier(env, tool.toolId) && NormalIdentifier(env, tool.version)
    ensures RestoreTool(env, ToolValue(tool)) == Some(tool)
  {
    ReadStruct(TOOL_FIELDS, [Text(tool.toolId), Text(tool.version)], {});
  }

  lemma LocalEvidenceNames()
    ensures Distinct(LOCAL_EVIDENCE_FIELDS) && LOCAL_EVIDENCE_FIELDS[3] == "kind"
  {
  }

  lemma RemoteEvidenceNames()
    ensures Distinct(REMOTE_EVIDENCE_FIELDS) && REMOTE_EVIDENCE_FIELDS[3] == "kind"
  {
  }

  lemma ReadLocalEvidence(client: string, ingress: string, assurance: string, correlation: string, message: Option<string>)
    ensures var v := EvidenceValue(LocalInteractive(client, ingress, assurance, correlation, message));
      && KindOf(v) == Some("local_interactive")
      && StructFields(v, LOCAL_EVIDENCE_FIELDS, {"source_message_id"})
         == Some([Text(client), Text(ingress), Text(assurance), Text("local_interactive"), Text(correlation),
                  OptionalText(message)])
  {
    hide StructFields, Struct, KindOf;
    var values := [Text(client), Text(ingress), Text(assurance), Text("local_interactive"),
                   Text(correlation), OptionalText(message)];
    LocalEvidenceNames();
    ReadKind(LOCAL_EVIDENCE_FIELDS, values, 3);
    ReadStruct(LOCAL_EVIDENCE_FIELDS, values, {"source_message_id"});
  }

  lemma ReadRemoteEvidence(adapter: string, account: string, ingress: string, assurance: string,
                           message: string, correlation: string)
    ensures var v := EvidenceValue(RemoteAuthenticated(adapter, account, ingress, assurance, message, correlation));
      && KindOf(v) == Some("remote_authenticated")
      && StructFields(v, REMOTE_EVIDENCE_FIELDS, {})
         == Some([Text(adapter), Text(ingress), Text(assurance), Text("remote_authenticated"), Text(account),
                  Text(correlation), Text(message)])
  {
    hide StructFields, Struct, KindOf;
    var values := [Text(adapter), Text(ingress), Text(assurance), Text("remote_authenticated"),
                   Text(account), Text(correlation), Text(message)];
    RemoteEvidenceNames();
    ReadKind(REMOTE_EVIDENCE_FIELDS, values, 3);
    ReadStruct(REMOTE_EVIDENCE_FIELDS, values, {});
  }

  lemma RestorePrintedEvidence(env: Env, e: Evidence)
    requires NormalEvidence(env, e)
    ensures RestoreEvidence(env, EvidenceValue(e)) == Some(e)
  {
    hide StructFields, KindOf, EvidenceValue, Identifier;
    match e {
      case LocalInteractive(client, ingress, assurance, correlation, message) =>
        ReadLocalEvidence(client, ingress, assurance, correlation, message);
      case RemoteAuthenticated(adapter, account, ingress, assurance, message, correlation) =>
        ReadRemoteEvidence(adapter, account, ingress, assurance, message, correlation);
        assert "local_interactive"[0] == 'l' && "remote_authenticated"[0] == 'r';
    }
  }

  ghost function TargetsTree(texts: seq<string>): Value {
    Struct(TARGETS_FIELDS, [Array(Map(Reading, texts))])
  }

  lemma TargetsTextIsTree(texts: seq<string>)
    requires IsTargetList(texts)
    ensures TargetsObject(texts) == Render(TargetsTree(texts))
  {
    TargetsTextOfReadings(texts);
    assert Fields(TARGETS_FIELDS, [Array(Map(Reading, texts))]) == [Field("targets", Array(Map(Reading, texts)))];
  }

  lemma RestorePrintedTargets(texts: seq<string>)
    requires IsTargetList(texts)
    ensures RestoreTargets(TargetsTree(texts)) == Some(TargetsObject(texts))
  {
    ReadStruct(TARGETS_FIELDS, [Array(Map(Reading, texts))], {});
    TargetsTextOfReadings(texts);
  }

  // The tree an authority's printout stands for, given a reading of its scope.
  ghost function AuthorityValues(a: Authority): seq<Value> {
    [
      Text(a.authorityKind),
      Text(a.authorityProvenanceId),
      OptionalText(a.boundChallengeNonceDigest),
      OptionalText(a.boundDecisionId),
      OptionalInteger(a.boundDecisionRevision),
      OptionalText(a.boundManifestDigest),
      Integer(a.createdAt),
      Text(a.evidenceDigest),
      OptionalInteger(a.expiresAt),
      Text(a.instructionDigest),
      Text(a.instructionRevision),
      Text(a.normalizedIntentDigest),
      ScopeValue(a.normalizedScope.bytes),
      Text(a.ownerEnvelopeDigest),
      Text(a.ownerEnvelopeRevision),
      EvidenceValue(a.ownerEvidence),
      Integer(a.policyRevision)
    ]
  }

  ghost function AuthorityTree(a: Authority): Value {
    Struct(AUTHORITY_FIELDS, AuthorityValues(a))
  }

  lemma AuthorityTextIsTree(a: Authority)
    requires IsPrinted(a.normalizedScope.bytes)
    ensures AuthorityText(a) == Render(AuthorityTree(a))
  {
    hide Struct, StructText, EvidenceValue, Render, OptionalText, OptionalInteger;
    StructTextIsTree(AUTHORITY_FIELDS, AuthorityTexts(a), AuthorityValues(a));
  }

  lemma AuthorityNames()
    ensures Distinct(AUTHORITY_FIELDS)
  {
  }

  lemma ReadAuthorityTree(a: Authority)
    ensures StructFields(AuthorityTree(a), AUTHORITY_FIELDS, AUTHORITY_OPTIONAL) == Some(AuthorityValues(a))
  {
    hide StructFields, Struct, EvidenceValue, ScopeValue;
    AuthorityNames();
    ReadStruct(AUTHORITY_FIELDS, AuthorityValues(a), AUTHORITY_OPTIONAL);
  }

  lemma ReadAuthorityValues(env: Env, a: Authority)
    requires NormalAuthority(env, a)
    ensures var f := AuthorityValues(a);
      && IdentifierIn(env, f[0]) == Some(a.authorityKind)
      && IdentifierIn(env, f[1]) == Some(a.authorityProvenanceId)
      && OptionalDigestIn(env, f[2]) == Some(a.boundChallengeNonceDigest)
      && OptionalIdentifierIn(env, f[3]) == Some(a.boundDecisionId)
      && AsOptionalInteger(f[4]) == Some(a.boundDecisionRevision)
      && OptionalDigestIn(env, f[5]) == Some(a.boundManifestDigest)
      && AsInteger(f[6]) == Some(a.createdAt)
      && DigestIn(env, f[7]) == Some(a.evidenceDigest)
      && AsOptionalInteger(f[8]) == Some(a.expiresAt)
      && DigestIn(env, f[9]) == Some(a.instructionDigest)
      && IdentifierIn(env, f[10]) == Some(a.instructionRevision)
      && DigestIn(env, f[11]) == Some(a.normalizedIntentDigest)
      && DigestIn(env, f[13]) == Some(a.ownerEnvelopeDigest)
      && IdentifierIn(env, f[14]) == Some(a.ownerEnvelopeRevision)
      && AsInteger(f[16]) == Some(a.policyRevision)
  {
    hide NormalEvidence, ParseDigest, Identifier, ScopeValue, EvidenceValue, IdentifierIn, OptionalIdentifierIn,
      DigestIn, OptionalDigestIn, NormalIdentifier, NormalDigest, NormalOptional, NormalOptionalDigest;
    ReadTexts(env);
    ReadOptionalTexts(env);
  }

  lemma ReadTexts(env: Env)
    ensures forall s :: NormalIdentifier(env, s) ==> IdentifierIn(env, Text(s)) == Some(s)
    ensures forall s :: NormalDigest(env, s) ==> DigestIn(env, Text(s)) == Some(s)
  {
    hide ParseDigest, Identifier;
  }

  lemma ReadOptionalTexts(env: Env)
    ensures forall o :: NormalOptional(env, o) ==> OptionalIdentifierIn(env, OptionalText(o)) == Some(o)
    ensures forall o :: NormalOptionalDigest(env, o) ==> OptionalDigestIn(env, OptionalText(o)) == Some(o)
  {
    hide ParseDigest, Identifier;
  }

  lemma RestorePrintedAuthority(env: Env, a: Authority)
    requires NormalAuthority(env, a) && IsCanonicalText(a.normalizedScope.bytes)
    ensures RestoreAuthority(env, AuthorityTree(a)) == Some(a)
  {
    hide StructFields, RestoreEvidence, EvidenceValue, CanonicalTextIn, NormalEvidence, ParseDigest,
      Identifier, Reading, IsCanonicalText, AuthorityTree, IdentifierIn, DigestIn, OptionalDigestIn,
      OptionalIdentifierIn, AsOptionalInteger, AsInteger, ScopeValue;
    ReadAuthorityTree(a);
    ReadAuthorityValues(env, a);
    RestorePrintedEvidence(env, a.ownerEvidence);
    ReadCanonical(a.normalizedScope.bytes);
    CanonicalIsPrinted(a.normalizedScope.bytes);
  }

  // ---------------------------------------------------------------- leaves

  ghost function LeafValues(leaf: LeafAction, targets: seq<string>): seq<Value> {
    [
      Text(leaf.actionKind),
      Text(leaf.logicalActionId),
      OptionalText(leaf.materialDigest),
      Text(leaf.nodeId),
      Reading(leaf.operands.bytes),
      AuthorityTree(leaf.ownerAuthority),
      Array(Map(StepValue, leaf.resolutionPath)),
      Text(LEAF_SCHEMA),
      TargetsTree(targets),
      ToolValue(leaf.tool)
    ]
  }

  ghost predicate TargetsOf(leaf: LeafAction, targets: seq<string>) {
    IsTargetList(targets) && leaf.targetSnapshot.bytes == TargetsObject(targets)
  }

  ghost predicate ScopeIsPrinted(leaf: LeafAction) {
    IsPrinted(leaf.ownerAuthority.normalizedScope.bytes)
  }

  lemma LeafTextIsTree(env: Env, leaf: LeafAction, targets: seq<string>)
    requires NormalLeaf(env, leaf) && ScopeIsPrinted(leaf) && TargetsOf(leaf, targets)
    ensures LeafText(leaf) == Render(Struct(LEAF_FIELDS, LeafValues(leaf, targets)))
  {
    hide Struct, StructText, IsCanonicalText, Render, OptionalText, StepValue, ToolValue, AuthorityText,
      AuthorityTree, TargetsTree, Reading, IsTargetList, TargetsObject, NormalAuthority, NormalStep, Freeze,
      IsTargetsText, NormalOptionalDigest, NormalIdentifier;
    ReadCanonical(leaf.operands.bytes);
    AuthorityTextIsTree(leaf.ownerAuthority);
    TargetsTextIsTree(targets);
    StructTextIsTree(LEAF_FIELDS, LeafTexts(leaf), LeafValues(leaf, targets));
  }

  lemma LeafNames()
    ensures Distinct(LEAF_FIELDS)
  {
  }

  lemma RestorePrintedLeaf(env: Env, leaf: LeafAction, targets: seq<string>)
    requires NormalLeaf(env, leaf) && ScopeIsCanonical(leaf) && TargetsOf(leaf, targets)
    ensures RestoreLeaf(env, Struct(LEAF_FIELDS, LeafValues(leaf, targets))) == Some(leaf)
  {
    hide StructFields, Struct, AuthorityTree, TargetsTree, StepValue, ToolValue, Reading, RestoreAuthority,
      RestoreTargets, RestoreSteps, RestoreTool, CanonicalTextIn, Identifier, ParseDigest, LeafText,
      IsCanonicalText, IsTargetList, TargetsObject, IsTargetsText, NormalAuthority, NormalStep;
    ReadLeafTree(leaf, targets);
    RestorePrintedTool(env, leaf.tool);
    ReadCanonical(leaf.operands.bytes);
    RestorePrintedTargets(targets);
    RestorePrintedSteps(env, leaf.resolutionPath);
    RestorePrintedAuthority(env, leaf.ownerAuthority);
    TextIgnoresCanonical(leaf, Frozen("", ""));
  }

  lemma TextIgnoresCanonical(leaf: LeafAction, canonical: Frozen)
    ensures LeafText(leaf.(canonical := canonical)) == LeafText(leaf)
  {
  }

  lemma ReadLeafTree(leaf: LeafAction, targets: seq<string>)
    ensures StructFields(Struct(LEAF_FIELDS, LeafValues(leaf, targets)), LEAF_FIELDS, {"material_digest"})
         == Some(LeafValues(leaf, targets))
  {
    hide StructFields, Struct, AuthorityTree, TargetsTree, StepValue, ToolValue, Reading;
    LeafNames();
    ReadStruct(LEAF_FIELDS, LeafValues(leaf, targets), {"material_digest"});
  }

  // ---------------------------------------------------------------- nesting

  lemma LeafNesting(env: Env, leaf: LeafAction, targets: seq<string>)
    requires NormalLeaf(env, leaf) && ScopeIsCanonical(leaf) && TargetsOf(leaf, targets)
    ensures Nesting(Struct(LEAF_FIELDS, LeafValues(leaf, targets))) <= 40
  {
    hide Struct, AuthorityTree, TargetsTree, StepValue, ToolValue, Reading, IsCanonicalText, IsTargetList,
      TargetsObject, IsTargetsText, NormalAuthority, NormalStep, LeafText;
    ReadCanonical(leaf.operands.bytes);
    AuthorityNesting(leaf.ownerAuthority);
    PathNesting(leaf.resolutionPath);
    TargetsNesting(targets);
    ToolNesting(leaf.tool);
    OptionalTextNesting(leaf.materialDigest);
    hide NormalLeaf, ScopeIsCanonical, TargetsOf, OptionalText, Nesting;
    TextNesting();
    StructNesting(LEAF_FIELDS, LeafValues(leaf, targets), 39);
  }

  lemma TextNesting()
    ensures forall t :: Nesting(Text(t)) == 0
  {
  }

  lemma OptionalTextNesting(value: Option<string>)
    ensures Nesting(OptionalText(value)) == 0
  {
  }

  lemma ToolNesting(tool: Tool)
    ensures Nesting(ToolValue(tool)) <= 1
  {
    StructNesting(TOOL_FIELDS, [Text(tool.toolId), Text(tool.version)], 0);
  }

  lemma EvidenceNesting(e: Evidence)
    ensures Nesting(EvidenceValue(e)) <= 1
  {
    FieldsNestingBound(EvidenceValue(e).fields, 0);
  }

  lemma AuthorityNesting(a: Authority)
    requires IsCanonicalText(a.normalizedScope.bytes)
    ensures Nesting(AuthorityTree(a)) <= 34
  {
    CanonicalTextReading(a.normalizedScope.bytes);
    CanonicalIsPrinted(a.normalizedScope.bytes);
    EvidenceNesting(a.ownerEvidence);
    StructNesting(AUTHORITY_FIELDS, AuthorityValues(a), 33);
  }

  lemma PathNesting(steps: seq<Step>)
    ensures Nesting(Array(Map(StepValue, steps))) <= 3
  {
    hide StepValue, Nesting;
    forall i | 0 <= i < |steps| ensures Nesting(Map(StepValue, steps)[i]) <= 2 { StepNesting(steps[i]); }
    ItemsNestingBound(Map(StepValue, steps), 2);
    ArrayNesting(Map(StepValue, steps));
  }

  lemma ArrayNesting(items: seq<Value>)
    ensures Nesting(Array(items)) == 1 + ItemsNesting(items)
  {
  }

  lemma StepNesting(step: Step)
    ensures Nesting(StepValue(step)) <= 2
  {
    hide DescriptorValue;
    DescriptorNesting(step.descriptor);
    StructNesting(STEP_FIELDS, StepValues(step), 1);
  }

  lemma DescriptorNesting(d: Descriptor)
    ensures Nesting(DescriptorValue(d)) <= 1
  {
    FieldsNestingBound(DescriptorValue(d).fields, 0);
  }

  lemma TargetsNesting(texts: seq<string>)
    requires IsTargetList(texts)
    ensures Nesting(TargetsTree(texts)) <= 35
  {
    forall i | 0 <= i < |texts| ensures Nesting(Map(Reading, texts)[i]) <= 33 { CanonicalTextReading(texts[i]); }
    ItemsNestingBound(Map(Reading, texts), 33);
    StructNesting(TARGETS_FIELDS, [Array(Map(Reading, texts))], 34);
  }

  // ---------------------------------------------------------------- the whole manifest

  ghost function ChosenTargets(text: string): (texts: seq<string>)
    requires IsTargetsText(text)
    ensures IsTargetList(texts) && text == TargetsObject(texts)
  {
    var texts :| IsTargetList(texts) && text == TargetsObject(texts);
    texts
  }

  ghost function LeafTree(leaf: LeafAction): Value {
    if IsTargetsText(leaf.targetSnapshot.bytes)
    then Struct(LEAF_FIELDS, LeafValues(leaf, ChosenTargets(leaf.targetSnapshot.bytes)))
    else Null
  }

  ghost predicate Restorable(env: Env, leaves: seq<LeafAction>) {
    forall i :: 0 <= i < |leaves| ==> NormalLeaf(env, leaves[i]) && ScopeIsCanonical(leaves[i])
  }

  lemma {:induction false} RestorePrintedLeaves(env: Env, leaves: seq<LeafAction>)
    requires Restorable(env, leaves)
    ensures RestoreLeaves(env, Map(LeafTree, leaves)) == Some(leaves)
  {
    hide RestoreLeaf, NormalLeaf, ScopeIsCanonical, LeafTree;
    if leaves != [] {
      RestoreLeafTree(env, leaves[0]);
      RestorePrintedLeaves(env, leaves[1..]);
      assert Map(LeafTree, leaves)[0] == LeafTree(leaves[0]);
      assert Map(LeafTree, leaves)[1..] == Map(LeafTree, leaves[1..]);
      assert leaves == [leaves[0]] + leaves[1..];
    }
  }

  lemma RestoreLeafTree(env: Env, leaf: LeafAction)
    requires NormalLeaf(env, leaf) && ScopeIsCanonical(leaf)
    ensures RestoreLeaf(env, LeafTree(leaf)) == Some(leaf)
    ensures Nesting(LeafTree(leaf)) <= 40
  {
    hide RestoreLeaf, ScopeIsCanonical, Struct, LeafValues, Render, Nesting, LeafText;
    var targets := ChosenTargets(leaf.targetSnapshot.bytes);
    RestorePrintedLeaf(env, leaf, targets);
    LeafNesting(env, leaf, targets);
  }

  ghost function ManifestValues(leaves: seq<LeafAction>): seq<Value> {
    [Array(Map(LeafTree, leaves)), Text(MANIFEST_SCHEMA)]
  }

  // Normal leaves whose scopes are printed JSON.
  ghost predicate Printable(env: Env, leaves: seq<LeafAction>) {
    forall i :: 0 <= i < |leaves| ==> NormalLeaf(env, leaves[i]) && ScopeIsPrinted(leaves[i])
  }

  lemma RestorableIsPrintable(env: Env, leaves: seq<LeafAction>)
    requires Restorable(env, leaves)
    ensures Printable(env, leaves)
  {
    hide NormalLeaf, IsCanonicalText, IsPrinted;
    forall i | 0 <= i < |leaves| ensures ScopeIsPrinted(leaves[i]) {
      assert ScopeIsCanonical(leaves[i]);
      CanonicalIsPrinted(leaves[i].ownerAuthority.normalizedScope.bytes);
    }
  }

  lemma LeafBytesAreTree(env: Env, leaf: LeafAction)
    requires NormalLeaf(env, leaf) && ScopeIsPrinted(leaf)
    ensures CanonicalBytesOf(leaf) == Render(LeafTree(leaf))
  {
    hide Struct, LeafValues, Render, LeafText, ScopeIsPrinted;
    LeafTextIsTree(env, leaf, ChosenTargets(leaf.targetSnapshot.bytes));
  }

  lemma ManifestTextIsTree(env: Env, leaves: seq<LeafAction>)
    requires Printable(env, leaves)
    ensures ManifestText(leaves) == Render(Struct(MANIFEST_FIELDS, ManifestValues(leaves)))
  {
    hide NormalLeaf, ScopeIsPrinted, LeafTree, StructText, Struct, Render, RenderArray, CanonicalBytesOf;
    var items := Map(LeafTree, leaves);
    forall i | 0 <= i < |leaves| ensures CanonicalBytesOf(leaves[i]) == Render(items[i]) {
      LeafBytesAreTree(env, leaves[i]);
    }
    JoinOf(Map(CanonicalBytesOf, leaves), items);
    StructTextIsTree(MANIFEST_FIELDS, [RenderArray(Map(CanonicalBytesOf, leaves)), Render(Text(MANIFEST_SCHEMA))], ManifestValues(leaves));
  }

  lemma RestorableNesting(env: Env, leaves: seq<LeafAction>)
    requires Restorable(env, leaves)
    ensures Nesting(Struct(MANIFEST_FIELDS, ManifestValues(leaves))) < PARSER_NESTING
  {
    hide NormalLeaf, ScopeIsCanonical, LeafTree, Struct, Nesting;
    var items := Map(LeafTree, leaves);
    forall i | 0 <= i < |leaves| ensures Nesting(items[i]) <= 40 {
      RestoreLeafTree(env, leaves[i]);
    }
    ManifestNesting(items);
  }

  lemma ManifestNesting(items: seq<Value>)
    requires forall i :: 0 <= i < |items| ==> Nesting(items[i]) <= 40
    ensures Nesting(Struct(MANIFEST_FIELDS, [Array(items), Text(MANIFEST_SCHEMA)])) <= 42
  {
    hide Struct;
    ItemsNestingBound(items, 40);
    StructNesting(MANIFEST_FIELDS, [Array(items), Text(MANIFEST_SCHEMA)], 41);
  }

  // What a compiler (or an earlier rebind) hands over and the size cap does not refuse.
  ghost predicate PersistableManifest(env: Env, leaves: seq<LeafAction>) {
    && 0 < |leaves| <= ABSOLUTE_MAX_LEAVES
    && Restorable(env, leaves)
    && Distinct(LogicalIds(leaves))
    && |ManifestText(leaves)| <= MAX_PERSISTED_MANIFEST_BYTES
  }

  // Restoring a printed manifest gives back exactly its leaves.
  lemma RestorePrintedManifest(env: Env, leaves: seq<LeafAction>)
    requires env.Valid() && PersistableManifest(env, leaves)
    ensures RestoreManifest(env, ManifestText(leaves), env.sha256(ManifestText(leaves))) == Some(leaves)
  {
    hide NormalLeaf, ScopeIsCanonical, LeafTree, StructFields, Struct, Render, Nesting, RestoreLeaf, ManifestText,
      ParseDocument, ParseDigest, IsHexDigest;
    RestorableIsPrintable(env, leaves);
    ManifestTextIsTree(env, leaves);
    RestorableNesting(env, leaves);
    ParseDocumentRendered(Struct(MANIFEST_FIELDS, ManifestValues(leaves)));
    ReadStruct(MANIFEST_FIELDS, ManifestValues(leaves), {});
    RestorePrintedLeaves(env, leaves);
    HexDigestIsNormal(env, env.sha256(ManifestText(leaves)));
  }

  // ---------------------------------------------------------------- the bytes determine the leaves

  // The leaf with the simplest canonical scope in the place of its own.
  function Neutral(env: Env, leaf: LeafAction): LeafAction {
    Sealed(env, leaf.(ownerAuthority := leaf.ownerAuthority.(normalizedScope := Freeze(env, "null"))))
  }

  lemma NeutralIsNormal(env: Env, leaf: LeafAction)
    requires NormalLeaf(env, leaf)
    ensures NormalLeaf(env, Neutral(env, leaf)) && ScopeIsCanonical(Neutral(env, leaf))
  {
    hide IsCanonicalText, IsTargetsText, NormalStep, NormalIdentifier, NormalDigest, NormalEvidence, LeafText;
    assert CanonicalText(Null) == Some("null");
    CanonicalTextIsCanonical(Null, "null");
    TextIgnoresCanonical(leaf.(ownerAuthority := leaf.ownerAuthority.(normalizedScope := Freeze(env, "null"))),
                         Neutral(env, leaf).canonical);
  }

  lemma NeutralTree(env: Env, leaf: LeafAction)
    requires NormalLeaf(env, leaf)
    ensures var targets := ChosenTargets(leaf.targetSnapshot.bytes);
      var nullScope := ScopeValue("null");
      LeafTree(Neutral(env, leaf)) == Struct(LEAF_FIELDS,
        LeafValues(leaf, targets)[5 := Struct(AUTHORITY_FIELDS, AuthorityValues(leaf.ownerAuthority)[12 := nullScope])])
  {
    hide IsCanonicalText, IsTargetsText, NormalStep, NormalAuthority, NormalIdentifier, LeafText, Struct, ScopeValue,
      StepValue, ToolValue, TargetsTree, Reading, EvidenceValue;
    var neutral, targets := Neutral(env, leaf), ChosenTargets(leaf.targetSnapshot.bytes);
    assert AuthorityValues(neutral.ownerAuthority) == AuthorityValues(leaf.ownerAuthority)[12 := ScopeValue("null")];
    assert LeafValues(neutral, targets) == LeafValues(leaf, targets)[5 := AuthorityTree(neutral.ownerAuthority)];
  }

  // Equal trees, equal leaves: the scope is read off its own place, and all the rest is what restoring
  // the leaves with a neutral scope would give.
  lemma LeafTreeIsInjective(env: Env, leaf: LeafAction, other: LeafAction)
    requires NormalLeaf(env, leaf) && ScopeIsPrinted(leaf) && NormalLeaf(env, other) && ScopeIsPrinted(other)
    requires LeafTree(leaf) == LeafTree(other)
    ensures leaf == other
  {
    hide IsTargetsText, Struct, LeafText, RestoreLeaf, Nesting, Render, NormalAuthority, NormalStep, IsCanonicalText,
      StructFields, AuthorityValues, LeafValues, ChosenTargets, Neutral, IsPrinted, ScopeValue;
    var x := LeafValues(leaf, ChosenTargets(leaf.targetSnapshot.bytes));
    var y := LeafValues(other, ChosenTargets(other.targetSnapshot.bytes));
    LeafNames();
    ReadLeafTree(leaf, ChosenTargets(leaf.targetSnapshot.bytes));
    ReadLeafTree(other, ChosenTargets(other.targetSnapshot.bytes));
    assert x == y;
    AuthorityPlace(leaf, ChosenTargets(leaf.targetSnapshot.bytes));
    AuthorityPlace(other, ChosenTargets(other.targetSnapshot.bytes));
    ReadAuthorityTree(leaf.ownerAuthority);
    ReadAuthorityTree(other.ownerAuthority);
    NeutralTree(env, leaf);
    NeutralTree(env, other);
    NeutralIsNormal(env, leaf);
    NeutralIsNormal(env, other);
    RestoreLeafTree(env, Neutral(env, leaf));
    RestoreLeafTree(env, Neutral(env, other));
    SameButScope(env, leaf, other);
  }

  lemma AuthorityPlace(leaf: LeafAction, targets: seq<string>)
    ensures LeafValues(leaf, targets)[5] == AuthorityTree(leaf.ownerAuthority)
    ensures AuthorityValues(leaf.ownerAuthority)[12] == ScopeValue(leaf.ownerAuthority.normalizedScope.bytes)
  {
    hide Struct, ScopeValue;
  }

  lemma SameButScope(env: Env, leaf: LeafAction, other: LeafAction)
    requires NormalLeaf(env, leaf) && ScopeIsPrinted(leaf) && NormalLeaf(env, other) && ScopeIsPrinted(other)
    requires Neutral(env, leaf) == Neutral(env, other)
    requires ScopeValue(leaf.ownerAuthority.normalizedScope.bytes) == ScopeValue(other.ownerAuthority.normalizedScope.bytes)
    ensures leaf == other
  {
    hide IsTargetsText, LeafText, Render, NormalStep, IsCanonicalText, NormalIdentifier, NormalDigest, NormalEvidence;
    assert Render(ScopeValue(leaf.ownerAuthority.normalizedScope.bytes)) == leaf.ownerAuthority.normalizedScope.bytes;
    assert Render(ScopeValue(other.ownerAuthority.normalizedScope.bytes)) == other.ownerAuthority.normalizedScope.bytes;
    TextIgnoresCanonical(leaf, other.canonical);
  }

  // The bytes of a manifest determine its leaves, whatever its size and whatever JSON its scopes are.
  lemma ManifestTextIsInjective(env: Env, leaves: seq<LeafAction>, others: seq<LeafAction>)
    requires Printable(env, leaves) && Printable(env, others)
    requires ManifestText(leaves) == ManifestText(others)
    ensures leaves == others
  {
    hide NormalLeaf, ScopeIsPrinted, LeafTree, Struct, Render, ManifestText, StructFields;
    ManifestTextIsTree(env, leaves);
    ManifestTextIsTree(env, others);
    RenderIsInjective(Struct(MANIFEST_FIELDS, ManifestValues(leaves)), Struct(MANIFEST_FIELDS, ManifestValues(others)));
    ReadStruct(MANIFEST_FIELDS, ManifestValues(leaves), {});
    ReadStruct(MANIFEST_FIELDS, ManifestValues(others), {});
    var x, y := Map(LeafTree, leaves), Map(LeafTree, others);
    assert x == y by {
      assert ManifestValues(leaves)[0] == ManifestValues(others)[0];
    }
    forall i | 0 <= i < |leaves| ensures leaves[i] == others[i] {
      assert x[i] == y[i];
      LeafTreeIsInjective(env, leaves[i], others[i]);
    }
  }
}
