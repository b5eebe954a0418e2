// Frozen leaf actions and the canonical manifest: what the printer writes and what the strict
// restore of a persisted manifest accepts.

module Manifest {
  import opened Wrappers
  import opened Ordering
  import opened Json
  import opened CanonicalValue

  const ABSOLUTE_MAX_DEPTH := 32
  const ABSOLUTE_MAX_LEAVES := 128
  const MAX_IDENTIFIER_BYTES := 256
  const MAX_JSON_ESCAPED_IDENTIFIER_BYTES := MAX_IDENTIFIER_BYTES * 6
  const MAX_PERSISTED_LEAF_BYTES :=
    3 * MAX_CANONICAL_VALUE_BYTES
    + (16 + 6 * ABSOLUTE_MAX_DEPTH) * MAX_JSON_ESCAPED_IDENTIFIER_BYTES
    + 128 * 1024
  const MAX_PERSISTED_MANIFEST_BYTES := 1024 + ABSOLUTE_MAX_LEAVES * MAX_PERSISTED_LEAF_BYTES
  const LEAF_SCHEMA := "carsinos.execass.leaf_action.v2"
  const MANIFEST_SCHEMA := "carsinos.execass.leaf_action_manifest.v2"

  // ---------------------------------------------------------------- identifiers and digests

  // The library functions the code relies on: trim followed by NFC, trim alone, and SHA-256 in
  // lower-case hex.
  datatype Env = Env(normalize: string -> string, trim: string -> string, sha256: string -> string) {
    ghost predicate Valid() {
      && (forall s {:trigger this.normalize(s)} :: this.normalize(this.normalize(s)) == this.normalize(s))
      && (forall s {:trigger this.sha256(s)} :: IsHexDigest(this.sha256(s)))
      && (forall s {:trigger this.trim(s)} :: IsHexDigest(s) ==> this.trim(s) == s)
    }
  }

  predicate IsLowerHexDigit(c: char) {
    '0' <= c <= '9' || 'a' <= c <= 'f'
  }

  predicate IsHexDigest(s: string) {
    |s| == 64 && forall i :: 0 <= i < |s| ==> IsLowerHexDigit(s[i])
  }

  function LowerChar(c: char): char {
    if 'A' <= c <= 'Z' then 'a' + (c - 'A') else c
  }

  // normalized_identifier
  function Identifier(env: Env, value: string): Option<string> {
    var t := env.normalize(value);
    if t == "" || |t| > MAX_IDENTIFIER_BYTES then None else Some(t)
  }

  // parse_digest
  function ParseDigest(env: Env, value: string): Option<string> {
    var t := Map(LowerChar, env.trim(value));
    if IsHexDigest(t) then Some(t) else None
  }

  predicate NormalIdentifier(env: Env, s: string) {
    Identifier(env, s) == Some(s)
  }

  predicate NormalDigest(env: Env, s: string) {
    ParseDigest(env, s) == Some(s)
  }

  lemma IdentifierIsNormal(env: Env, value: string)
    requires env.Valid() && Identifier(env, value).Some?
    ensures NormalIdentifier(env, Identifier(env, value).value)
  {
  }

  lemma HexDigestIsNormal(env: Env, s: string)
    requires env.Valid() && IsHexDigest(s)
    ensures NormalDigest(env, s)
  {
    assert Map(LowerChar, s) == s;
  }

  lemma DigestIsNormal(env: Env, value: string)
    requires env.Valid() && ParseDigest(env, value).Some?
    ensures NormalDigest(env, ParseDigest(env, value).value)
  {
    HexDigestIsNormal(env, ParseDigest(env, value).value);
  }

  // ---------------------------------------------------------------- data

  datatype Frozen = Frozen(bytes: string, digest: string)

  function Freeze(env: Env, bytes: string): Frozen {
    Frozen(bytes, env.sha256(bytes))
  }

  datatype Descriptor =
    | Alias(alias: string)
    | Plugin(pluginId: string, version: string)
    | Shell(shellId: string, shellVersion: string, command: string)
    | Child(childIdentity: string, version: string)

  datatype Step = Step(
    descriptor: Descriptor,
    targetNodeId: string,
    resolverId: string,
    resolverVersion: string,
    resolutionMaterialDigest: string)

  datatype Tool = Tool(toolId: string, version: string)

  datatype Evidence =
    | LocalInteractive(
        authenticatedClientId: string,
        authenticatedIngress: string,
        channelAssurance: string,
        requestCorrelationId: string,
        optionalSourceMessageId: Option<string>)
    | RemoteAuthenticated(
        adapterId: string,
        providerAccountId: string,
        authenticatedIngress: string,
        channelAssurance: string,
        sourceMessageId: string,
        requestCorrelationId: string)

  // The verified authority of the owner (its scope is JSON text), and its frozen canonical form.
  datatype OwnerAuthority<S> = OwnerAuthority(
    ownerEvidence: Evidence,
    authorityProvenanceId: string,
    normalizedIntentDigest: string,
    instructionRevision: string,
    instructionDigest: string,
    ownerEnvelopeRevision: string,
    ownerEnvelopeDigest: string,
    authorityKind: string,
    normalizedScope: S,
    policyRevision: I64,
    boundDecisionId: Option<string>,
    boundDecisionRevision: Option<I64>,
    boundManifestDigest: Option<string>,
    boundChallengeNonceDigest: Option<string>,
    evidenceDigest: string,
    createdAt: I64,
    expiresAt: Option<I64>)

  type VerifiedAuthority = OwnerAuthority<string>
  type Authority = OwnerAuthority<Frozen>

  datatype LeafAction = LeafAction(
    nodeId: string,
    logicalActionId: string,
    actionKind: string,
    tool: Tool,
    operands: Frozen,
    targetSnapshot: Frozen,
    materialDigest: Option<string>,
    resolutionPath: seq<Step>,
    ownerAuthority: Authority,
    canonical: Frozen)

  // normalized_descriptor
  function NormalizedDescriptor(env: Env, d: Descriptor): Option<Descriptor> {
    match d
    case Alias(alias) =>
      var a :- Identifier(env, alias);
      Some(Alias(a))
    case Plugin(pluginId, version) =>
      var p :- Identifier(env, pluginId);
      var v :- Identifier(env, version);
      Some(Plugin(p, v))
    case Shell(shellId, shellVersion, command) =>
      if command == "" || |command| > MAX_CANONICAL_STRING_BYTES then None
      else
        var s :- Identifier(env, shellId);
        var v :- Identifier(env, shellVersion);
        Some(Shell(s, v, command))
    case Child(childIdentity, version) =>
      var c :- Identifier(env, childIdentity);
      var v :- Identifier(env, version);
      Some(Child(c, v))
  }

  // ---------------------------------------------------------------- printing

  function OptionalText(value: Option<string>): Value {
    match value
    case Some(text) => Text(text)
    case None => Null
  }

  function OptionalInteger(value: Option<I64>): Value {
    match value
    case Some(number) => Integer(number)
    case None => Null
  }

  // The field names of every persisted structure, in the order in which they are written.
  const DESCRIPTOR_ALIAS_FIELDS := ["alias", "kind"]
  const DESCRIPTOR_PLUGIN_FIELDS := ["kind", "plugin_id", "version"]
  const DESCRIPTOR_SHELL_FIELDS := ["command", "kind", "shell_id", "shell_version"]
  const DESCRIPTOR_CHILD_FIELDS := ["child_identity", "kind", "version"]
  const STEP_FIELDS :=
    ["descriptor", "resolution_material_digest", "resolver_id", "resolver_version", "target_node_id"]
  const TOOL_FIELDS := ["tool_id", "version"]
  const LOCAL_EVIDENCE_FIELDS :=
    ["authenticated_client_id", "authenticated_ingress", "channel_assurance", "kind",
     "request_correlation_id", "source_message_id"]
  const REMOTE_EVIDENCE_FIELDS :=
    ["adapter_id", "authenticated_ingress", "channel_assurance", "kind", "provider_account_id",
     "request_correlation_id", "source_message_id"]
  const AUTHORITY_FIELDS :=
    ["authority_kind", "authority_provenance_id", "bound_challenge_nonce_digest", "bound_decision_id",
     "bound_decision_revision", "bound_manifest_digest", "created_at", "evidence_digest", "expires_at",
     "instruction_digest", "instruction_revision", "normalized_intent_digest", "normalized_scope",
     "owner_envelope_digest", "owner_envelope_revision", "owner_evidence", "policy_revision"]
  const AUTHORITY_OPTIONAL :=
    {"bound_challenge_nonce_digest", "bound_decision_id", "bound_decision_revision",
     "bound_manifest_digest", "expires_at"}
  const LEAF_FIELDS :=
    ["action_kind", "logical_action_id", "material_digest", "node_id", "operands", "owner_authority",
     "resolution_path", "schema", "target_snapshot", "tool"]
  const TARGETS_FIELDS := ["targets"]
  const MANIFEST_FIELDS := ["leaves", "schema"]

  function Fields(names: seq<string>, values: seq<Value>): (r: seq<Field>)
    requires |names| == |values|
    ensures |r| == |names| && forall i :: 0 <= i < |r| ==> r[i] == Field(names[i], values[i])
  {
    if names == [] then [] else [Field(names[0], values[0])] + Fields(names[1..], values[1..])
  }

  function Struct(names: seq<string>, values: seq<Value>): Value
    requires |names| == |values|
  {
    Object(Fields(names, values))
  }

  // The same structure from texts that are printed already.
  function Entries(names: seq<string>, texts: seq<string>): (r: seq<Entry>)
    requires |names| == |texts|
    ensures |r| == |names| && forall i :: 0 <= i < |r| ==> r[i] == Entry(names[i], texts[i])
  {
    if names == [] then [] else [Entry(names[0], texts[0])] + Entries(names[1..], texts[1..])
  }

  function StructText(names: seq<string>, texts: seq<string>): string
    requires |names| == |texts|
  {
    RenderObject(Entries(names, texts))
  }

  // canonical_descriptor_bytes
  function DescriptorValue(d: Descriptor): Value {
    match d
    case Alias(alias) => Struct(DESCRIPTOR_ALIAS_FIELDS, [Text(alias), Text("alias")])
    case Plugin(pluginId, version) =>
      Struct(DESCRIPTOR_PLUGIN_FIELDS, [Text("plugin"), Text(pluginId), Text(version)])
    case Shell(shellId, shellVersion, command) =>
      Struct(DESCRIPTOR_SHELL_FIELDS, [Text(command), Text("shell"), Text(shellId), Text(shellVersion)])
    case Child(childIdentity, version) =>
      Struct(DESCRIPTOR_CHILD_FIELDS, [Text(childIdentity), Text("child"), Text(version)])
  }

  // canonical_resolution_step_bytes
  function StepValue(step: Step): Value {
    Struct(STEP_FIELDS, [
      DescriptorValue(step.descriptor),
      Text(step.resolutionMaterialDigest),
      Text(step.resolverId),
      Text(step.resolverVersion),
      Text(step.targetNodeId)])
  }

  function ToolValue(tool: Tool): Value {
    Struct(TOOL_FIELDS, [Text(tool.toolId), Text(tool.version)])
  }

  function EvidenceValue(e: Evidence): Value {
    match e
    case LocalInteractive(client, ingress, assurance, correlation, message) =>
      Struct(LOCAL_EVIDENCE_FIELDS, [
        Text(client), Text(ingress), Text(assurance), Text("local_interactive"), Text(correlation),
        OptionalText(message)])
    case RemoteAuthenticated(adapter, account, ingress, assurance, message, correlation) =>
      Struct(REMOTE_EVIDENCE_FIELDS, [
        Text(adapter), Text(ingress), Text(assurance), Text("remote_authenticated"), Text(account),
        Text(correlation), Text(message)])
  }

  // canonical_authority_bytes: the scope is spliced in as the bytes it was frozen with.
  function AuthorityTexts(a: Authority): seq<string> {
    [
      Render(Text(a.authorityKind)),
      Render(Text(a.authorityProvenanceId)),
      Render(OptionalText(a.boundChallengeNonceDigest)),
      Render(OptionalText(a.boundDecisionId)),
      Render(OptionalInteger(a.boundDecisionRevision)),
      Render(OptionalText(a.boundManifestDigest)),
      Render(Integer(a.createdAt)),
      Render(Text(a.evidenceDigest)),
      Render(OptionalInteger(a.expiresAt)),
      Render(Text(a.instructionDigest)),
      Render(Text(a.instructionRevision)),
      Render(Text(a.normalizedIntentDigest)),
      a.normalizedScope.bytes,
      Render(Text(a.ownerEnvelopeDigest)),
      Render(Text(a.ownerEnvelopeRevision)),
      Render(EvidenceValue(a.ownerEvidence)),
      Render(Integer(a.policyRevision))
    ]
  }

  function AuthorityText(a: Authority): string {
    StructText(AUTHORITY_FIELDS, AuthorityTexts(a))
  }

  // canonical_leaf_bytes: operands, authority and targets are spliced in as frozen bytes.
  function LeafTexts(leaf: LeafAction): seq<string> {
    [
      Render(Text(leaf.actionKind)),
      Render(Text(leaf.logicalActionId)),
      Render(OptionalText(leaf.materialDigest)),
      Render(Text(leaf.nodeId)),
      leaf.operands.bytes,
      AuthorityText(leaf.ownerAuthority),
      Render(Array(Map(StepValue, leaf.resolutionPath))),
      Render(Text(LEAF_SCHEMA)),
      leaf.targetSnapshot.bytes,
      Render(ToolValue(leaf.tool))
    ]
  }

  function LeafText(leaf: LeafAction): string {
    StructText(LEAF_FIELDS, LeafTexts(leaf))
  }

  function CanonicalBytesOf(leaf: LeafAction): string {
    leaf.canonical.bytes
  }

  // canonical_manifest_bytes
  function ManifestText(leaves: seq<LeafAction>): string {
    StructText(MANIFEST_FIELDS, [RenderArray(Map(CanonicalBytesOf, leaves)), Render(Text(MANIFEST_SCHEMA))])
  }

  // ---------------------------------------------------------------- restoring

  function Find(fields: seq<Field>, name: string): Option<Value> {
    if fields == [] then None
    else if fields[0].key == name then Some(fields[0].value)
    else Find(fields[1..], name)
  }

  function Arrange(fields: seq<Field>, names: seq<string>, optional: set<string>): (r: Option<seq<Value>>)
    ensures r.Some? ==> |r.value| == |names|
  {
    if names == [] then Some([])
    else
      var head :-
        match Find(fields, names[0])
        case Some(v) => Some(v)
        case None => if names[0] in optional then Some(Null) else None;
      var tail :- Arrange(fields, names[1..], optional);
      Some([head] + tail)
  }

  // The fields of a persisted structure, in the order of names: they may be written in any order,
  // none may be repeated or unknown, and only an optional one may be missing.
  function StructFields(v: Value, names: seq<string>, optional: set<string>): (r: Option<seq<Value>>)
    ensures r.Some? ==> |r.value| == |names|
  {
    if !v.Object? || !Distinct(Keys(v.fields)) || exists i :: 0 <= i < |v.fields| && v.fields[i].key !in names
    then None
    else Arrange(v.fields, names, optional)
  }

  // The "kind" of an internally tagged variant.
  function KindOf(v: Value): Option<string> {
    if !v.Object? then None
    else
      var kind :- Find(v.fields, "kind");
      AsText(kind)
  }

  function AsText(v: Value): Option<string> {
    match v
    case Text(text) => Some(text)
    case _ => None
  }

  function AsOptionalText(v: Value): Option<Option<string>> {
    match v
    case Null => Some(None)
    case Text(text) => Some(Some(text))
    case _ => None
  }

  function AsInteger(v: Value): Option<I64> {
    match v
    case Integer(number) => Some(number)
    case _ => None
  }

  function AsOptionalInteger(v: Value): Option<Option<I64>> {
    match v
    case Null => Some(None)
    case Integer(number) => Some(Some(number))
    case _ => None
  }

  function IdentifierIn(env: Env, v: Value): Option<string> {
    var text :- AsText(v);
    Identifier(env, text)
  }

  function DigestIn(env: Env, v: Value): Option<string> {
    var text :- AsText(v);
    ParseDigest(env, text)
  }

  function OptionalIdentifierIn(env: Env, v: Value): Option<Option<string>> {
    var text :- AsOptionalText(v);
    match text
    case None => Some(None)
    case Some(t) =>
      var id :- Identifier(env, t);
      Some(Some(id))
  }

  function OptionalDigestIn(env: Env, v: Value): Option<Option<string>> {
    var text :- AsOptionalText(v);
    match text
    case None => Some(None)
    case Some(t) =>
      var digest :- ParseDigest(env, t);
      Some(Some(digest))
  }

  function CanonicalTextIn(v: Value): Option<string> {
    if Deserializable(v) then CanonicalText(v) else None
  }

  function DecodeDescriptor(v: Value): Option<Descriptor> {
    var kind :- KindOf(v);
    if kind == "alias" then
      var f :- StructFields(v, DESCRIPTOR_ALIAS_FIELDS, {});
      var alias :- AsText(f[0]);
      Some(Alias(alias))
    else if kind == "plugin" then
      var f :- StructFields(v, DESCRIPTOR_PLUGIN_FIELDS, {});
      var id :- AsText(f[1]);
      var version :- AsText(f[2]);
      Some(Plugin(id, version))
    else if kind == "shell" then
      var f :- StructFields(v, DESCRIPTOR_SHELL_FIELDS, {});
      var command :- AsText(f[0]);
      var id :- AsText(f[2]);
      var version :- AsText(f[3]);
      Some(Shell(id, version, command))
    else if kind == "child" then
      var f :- StructFields(v, DESCRIPTOR_CHILD_FIELDS, {});
      var identity :- AsText(f[0]);
      var version :- AsText(f[2]);
      Some(Child(identity, version))
    else None
  }

  // restore_resolution_step
  function RestoreStep(env: Env, v: Value): Option<Step> {
    var f :- StructFields(v, STEP_FIELDS, {});
    var persisted :- DecodeDescriptor(f[0]);
    var descriptor :- NormalizedDescriptor(env, persisted);
    var digest :- DigestIn(env, f[1]);
    var resolver :- IdentifierIn(env, f[2]);
    var version :- IdentifierIn(env, f[3]);
    var target :- IdentifierIn(env, f[4]);
    Some(Step(descriptor, target, resolver, version, digest))
  }

  function RestoreSteps(env: Env, vs: seq<Value>): Option<seq<Step>> {
    if vs == [] then Some([])
    else
      var step :- RestoreStep(env, vs[0]);
      var steps :- RestoreSteps(env, vs[1..]);
      Some([step] + steps)
  }

  function RestorePath(env: Env, v: Value): Option<seq<Step>> {
    match v
    case Array(items) => if |items| > ABSOLUTE_MAX_DEPTH then None else RestoreSteps(env, items)
    case _ => None
  }

  function RestoreTool(env: Env, v: Value): Option<Tool> {
    var f :- StructFields(v, TOOL_FIELDS, {});
    var id :- IdentifierIn(env, f[0]);
    var version :- IdentifierIn(env, f[1]);
    Some(Tool(id, version))
  }

  function RestoreTargets(v: Value): Option<string> {
    var f :- StructFields(v, TARGETS_FIELDS, {});
    match f[0]
    case Array(items) =>
      if forall i :: 0 <= i < |items| ==> Deserializable(items[i]) then TargetsText(items) else None
    case _ => None
  }

  function RestoreEvidence(env: Env, v: Value): Option<Evidence> {
    var kind :- KindOf(v);
    if kind == "local_interactive" then
      var f :- StructFields(v, LOCAL_EVIDENCE_FIELDS, {"source_message_id"});
      var client :- IdentifierIn(env, f[0]);
      var ingress :- IdentifierIn(env, f[1]);
      var assurance :- IdentifierIn(env, f[2]);
      var correlation :- IdentifierIn(env, f[4]);
      var message :- OptionalIdentifierIn(env, f[5]);
      Some(LocalInteractive(client, ingress, assurance, correlation, message))
    else if kind == "remote_authenticated" then
      var f :- StructFields(v, REMOTE_EVIDENCE_FIELDS, {});
      var adapter :- IdentifierIn(env, f[0]);
      var ingress :- IdentifierIn(env, f[1]);
      var assurance :- IdentifierIn(env, f[2]);
      var account :- IdentifierIn(env, f[4]);
      var correlation :- IdentifierIn(env, f[5]);
      var message :- IdentifierIn(env, f[6]);
      Some(RemoteAuthenticated(adapter, account, ingress, assurance, message, correlation))
    else None
  }

  // restore_owner_authority
  function RestoreAuthority(env: Env, v: Value): Option<Authority> {
    var f :- StructFields(v, AUTHORITY_FIELDS, AUTHORITY_OPTIONAL);
    var kind :- IdentifierIn(env, f[0]);
    var provenance :- IdentifierIn(env, f[1]);
    var nonceDigest :- OptionalDigestIn(env, f[2]);
    var decisionId :- OptionalIdentifierIn(env, f[3]);
    var decisionRevision :- AsOptionalInteger(f[4]);
    var manifestDigest :- OptionalDigestIn(env, f[5]);
    var createdAt :- AsInteger(f[6]);
    var evidenceDigest :- DigestIn(env, f[7]);
    var expiresAt :- AsOptionalInteger(f[8]);
    var instructionDigest :- DigestIn(env, f[9]);
    var instructionRevision :- IdentifierIn(env, f[10]);
    var intentDigest :- DigestIn(env, f[11]);
    var scope :- CanonicalTextIn(f[12]);
    var envelopeDigest :- DigestIn(env, f[13]);
    var envelopeRevision :- IdentifierIn(env, f[14]);
    var evidence :- RestoreEvidence(env, f[15]);
    var policyRevision :- AsInteger(f[16]);
    Some(OwnerAuthority(evidence, provenance, intentDigest, instructionRevision, instructionDigest,
                   envelopeRevision, envelopeDigest, kind, Freeze(env, scope), policyRevision,
                   decisionId, decisionRevision, manifestDigest, nonceDigest, evidenceDigest,
                   createdAt, expiresAt))
  }

  // A leaf with the canonical bytes that belong to its other fields.
  function Sealed(env: Env, leaf: LeafAction): LeafAction {
    leaf.(canonical := Freeze(env, LeafText(leaf)))
  }

  // restore_persisted_leaf
  function RestoreLeaf(env: Env, v: Value): Option<LeafAction> {
    var f :- StructFields(v, LEAF_FIELDS, {"material_digest"});
    var schema :- AsText(f[7]);
    if schema != LEAF_SCHEMA then None
    else
      var nodeId :- IdentifierIn(env, f[3]);
      var logicalActionId :- IdentifierIn(env, f[1]);
      var actionKind :- IdentifierIn(env, f[0]);
      var tool :- RestoreTool(env, f[9]);
      var operands :- CanonicalTextIn(f[4]);
      var targets :- RestoreTargets(f[8]);
      var materialDigest :- OptionalDigestIn(env, f[2]);
      var path :- RestorePath(env, f[6]);
      var authority :- RestoreAuthority(env, f[5]);
      Some(Sealed(env, LeafAction(nodeId, logicalActionId, actionKind, tool, Freeze(env, operands),
                                  Freeze(env, targets), materialDigest, path, authority, Frozen("", ""))))
  }

  function RestoreLeaves(env: Env, vs: seq<Value>): Option<seq<LeafAction>> {
    if vs == [] then Some([])
    else
      var leaf :- RestoreLeaf(env, vs[0]);
      var leaves :- RestoreLeaves(env, vs[1..]);
      Some([leaf] + leaves)
  }

  function LogicalIdOf(leaf: LeafAction): string {
    leaf.logicalActionId
  }

  function LogicalIds(leaves: seq<LeafAction>): seq<string> {
    Map(LogicalIdOf, leaves)
  }

  function PersistedLeaves(env: Env, bytes: string): Option<seq<Value>> {
    if |bytes| > MAX_PERSISTED_MANIFEST_BYTES then None
    else
      var document :- ParseDocument(bytes);
      var f :- StructFields(document, MANIFEST_FIELDS, {});
      var schema :- AsText(f[1]);
      match f[0]
      case Array(items) =>
        if schema != MANIFEST_SCHEMA || items == [] || |items| > ABSOLUTE_MAX_LEAVES then None else Some(items)
      case _ => None
  }

  // The leaves of a persisted manifest whose digest is trusted: every check before rebinding.
  function RestoreManifest(env: Env, bytes: string, expectedDigest: string): Option<seq<LeafAction>> {
    var expected :- ParseDigest(env, expectedDigest);
    var items :- PersistedLeaves(env, bytes);
    var leaves :- RestoreLeaves(env, items);
    if !Distinct(LogicalIds(leaves)) || ManifestText(leaves) != bytes || env.sha256(bytes) != expected then None
    else Some(leaves)
  }

  // ---------------------------------------------------------------- what a restorable leaf is

  predicate NormalOptional(env: Env, value: Option<string>) {
    value.Some? ==> NormalIdentifier(env, value.value)
  }

  predicate NormalOptionalDigest(env: Env, value: Option<string>) {
    value.Some? ==> NormalDigest(env, value.value)
  }

  predicate NormalStep(env: Env, step: Step) {
    && NormalizedDescriptor(env, step.descriptor) == Some(step.descriptor)
    && NormalIdentifier(env, step.targetNodeId)
    && NormalIdentifier(env, step.resolverId)
    && NormalIdentifier(env, step.resolverVersion)
    && NormalDigest(env, step.resolutionMaterialDigest)
  }

  predicate NormalEvidence(env: Env, e: Evidence) {
    match e
    case LocalInteractive(client, ingress, assurance, correlation, message) =>
      && NormalIdentifier(env, client) && NormalIdentifier(env, ingress)
      && NormalIdentifier(env, assurance) && NormalIdentifier(env, correlation)
      && NormalOptional(env, message)
    case RemoteAuthenticated(adapter, account, ingress, assurance, message, correlation) =>
      && NormalIdentifier(env, adapter) && NormalIdentifier(env, account)
      && NormalIdentifier(env, ingress) && NormalIdentifier(env, assurance)
      && NormalIdentifier(env, message) && NormalIdentifier(env, correlation)
  }

  // Everything canonicalization of an authority establishes; the scope is any text in the byte limit.
  predicate NormalAuthority(env: Env, a: Authority) {
    && NormalEvidence(env, a.ownerEvidence)
    && NormalIdentifier(env, a.authorityProvenanceId)
    && NormalDigest(env, a.normalizedIntentDigest)
    && NormalIdentifier(env, a.instructionRevision)
    && NormalDigest(env, a.instructionDigest)
    && NormalIdentifier(env, a.ownerEnvelopeRevision)
    && NormalDigest(env, a.ownerEnvelopeDigest)
    && NormalIdentifier(env, a.authorityKind)
    && a.normalizedScope == Freeze(env, a.normalizedScope.bytes)
    && |a.normalizedScope.bytes| <= MAX_CANONICAL_VALUE_BYTES
    && NormalOptional(env, a.boundDecisionId)
    && NormalOptionalDigest(env, a.boundManifestDigest)
    && NormalOptionalDigest(env, a.boundChallengeNonceDigest)
    && NormalDigest(env, a.evidenceDigest)
  }

  ghost predicate NormalLeaf(env: Env, leaf: LeafAction) {
    && NormalIdentifier(env, leaf.nodeId)
    && NormalIdentifier(env, leaf.logicalActionId)
    && NormalIdentifier(env, leaf.actionKind)
    && NormalIdentifier(env, leaf.tool.toolId) && NormalIdentifier(env, leaf.tool.version)
    && IsCanonicalText(leaf.operands.bytes) && leaf.operands == Freeze(env, leaf.operands.bytes)
    && IsTargetsText(leaf.targetSnapshot.bytes)
    && leaf.targetSnapshot == Freeze(env, leaf.targetSnapshot.bytes)
    && NormalOptionalDigest(env, leaf.materialDigest)
    && |leaf.resolutionPath| <= ABSOLUTE_MAX_DEPTH
    && (forall i :: 0 <= i < |leaf.resolutionPath| ==> NormalStep(env, leaf.resolutionPath[i]))
    && NormalAuthority(env, leaf.ownerAuthority)
    && leaf.canonical == Freeze(env, LeafText(leaf))
  }

  // The authority scope of a compiled leaf is canonical JSON of another printer; restoring needs it
  // to be a canonical value within this one's limits.
  predicate ScopeIsCanonical(leaf: LeafAction) {
    IsCanonicalText(leaf.ownerAuthority.normalizedScope.bytes)
  }
}
