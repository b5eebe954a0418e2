// Dispatch trees, the server's resolution registry and the compiler as a function of its state.

module Dispatch {
  import opened Wrappers
  import opened Ordering
  import opened Json
  import opened CanonicalValue
  import opened Manifest

  const ABSOLUTE_MAX_NODES := 256

  datatype LeafInput = LeafInput(
    logicalActionId: string,
    actionKind: string,
    tool: Tool,
    operands: Value,
    targets: seq<Value>,
    materialDigest: Option<string>,
    ownerAuthority: VerifiedAuthority)

  // The four wrapper actions carry exactly the fields of their descriptors.
  datatype Action =
    | ResolvedLeaf(leaf: LeafInput)
    | Composite(children: seq<string>)
    | Wrapper(descriptor: Descriptor)

  datatype Node = Node(nodeId: string, action: Action)

  datatype Target = Target(
    targetNodeId: string,
    resolverId: string,
    resolverVersion: string,
    resolutionMaterialDigest: string)

  type Registry = map<Descriptor, seq<Target>>

  datatype Limits = Limits(maxDepth: nat, maxNodes: nat, maxLeaves: nat)

  datatype StructureKind = AliasKind | PluginKind | ShellKind | ChildKind

  datatype Reason =
    | EmptyRoot
    | EmptyNodeIdentity
    | DuplicateNodeIdentity(nodeId: string)
    | MissingNode(nodeId: string)
    | CycleDetected(nodeId: string)
    | EmptyComposite(nodeId: string)
    | Unresolved(kind: StructureKind, nodeId: string)
    | Ambiguous(kind: StructureKind, nodeId: string)
    | DepthLimitExceeded(maxDepth: nat)
    | NodeLimitExceeded(maxNodes: nat)
    | LeafLimitExceeded(maxLeaves: nat)
    | DuplicateLogicalActionIdentity(logicalActionId: string)
    | InvalidLeaf(nodeId: string)

  // What a visit reads: fixed for one compilation. lookup gives the position of a node.
  datatype Setting = Setting(
    env: Env,
    nodes: seq<Node>,
    lookup: map<string, nat>,
    registry: Registry,
    limits: Limits)

  // What a visit adds to.
  datatype Progress = Progress(visited: nat, leaves: seq<LeafAction>, ids: set<string>)

  datatype Outcome = Done(progress: Progress) | Paused(reason: Reason)

  // ---------------------------------------------------------------- leaves

  function CanonicalOptionalIdentifier(env: Env, value: Option<string>): Option<Option<string>> {
    match value
    case None => Some(None)
    case Some(text) =>
      var id :- Identifier(env, text);
      Some(Some(id))
  }

  function CanonicalOptionalDigest(env: Env, value: Option<string>): Option<Option<string>> {
    match value
    case None => Some(None)
    case Some(text) =>
      var digest :- ParseDigest(env, text);
      Some(Some(digest))
  }

  function CanonicalEvidence(env: Env, e: Evidence): Option<Evidence> {
    match e
    case LocalInteractive(client, ingress, assurance, correlation, message) =>
      var c :- Identifier(env, client);
      var i :- Identifier(env, ingress);
      var a :- Identifier(env, assurance);
      var r :- Identifier(env, correlation);
      var m :- CanonicalOptionalIdentifier(env, message);
      Some(LocalInteractive(c, i, a, r, m))
    case RemoteAuthenticated(adapter, account, ingress, assurance, message, correlation) =>
      var d :- Identifier(env, adapter);
      var p :- Identifier(env, account);
      var i :- Identifier(env, ingress);
      var a :- Identifier(env, assurance);
      var m :- Identifier(env, message);
      var r :- Identifier(env, correlation);
      Some(RemoteAuthenticated(d, p, i, a, m, r))
  }

  // canonicalize_owner_authority
  function CanonicalAuthority(env: Env, input: VerifiedAuthority): Option<Authority> {
    if |input.normalizedScope| > MAX_CANONICAL_VALUE_BYTES then None
    else
      var evidence :- CanonicalEvidence(env, input.ownerEvidence);
      var provenance :- Identifier(env, input.authorityProvenanceId);
      var intentDigest :- ParseDigest(env, input.normalizedIntentDigest);
      var instructionRevision :- Identifier(env, input.instructionRevision);
      var instructionDigest :- ParseDigest(env, input.instructionDigest);
      var envelopeRevision :- Identifier(env, input.ownerEnvelopeRevision);
      var envelopeDigest :- ParseDigest(env, input.ownerEnvelopeDigest);
      var kind :- Identifier(env, input.authorityKind);
      var decisionId :- CanonicalOptionalIdentifier(env, input.boundDecisionId);
      var manifestDigest :- CanonicalOptionalDigest(env, input.boundManifestDigest);
      var nonceDigest :- CanonicalOptionalDigest(env, input.boundChallengeNonceDigest);
      var evidenceDigest :- ParseDigest(env, input.evidenceDigest);
      Some(OwnerAuthority(evidence, provenance, intentDigest, instructionRevision, instructionDigest,
                          envelopeRevision, envelopeDigest, kind, Freeze(env, input.normalizedScope),
                          input.policyRevision, decisionId, input.boundDecisionRevision, manifestDigest,
                          nonceDigest, evidenceDigest, input.createdAt, input.expiresAt))
  }

  // canonical_leaf
  function CanonicalLeaf(env: Env, nodeId: string, input: LeafInput, path: seq<Step>): Option<LeafAction> {
    var logicalActionId :- Identifier(env, input.logicalActionId);
    var actionKind :- Identifier(env, input.actionKind);
    var toolId :- Identifier(env, input.tool.toolId);
    var version :- Identifier(env, input.tool.version);
    var operands :- CanonicalText(input.operands);
    var targets :- TargetsText(input.targets);
    var materialDigest :- CanonicalOptionalDigest(env, input.materialDigest);
    var authority :- CanonicalAuthority(env, input.ownerAuthority);
    Some(Sealed(env, LeafAction(nodeId, logicalActionId, actionKind, Tool(toolId, version),
                                Freeze(env, operands), Freeze(env, targets), materialDigest, path,
                                authority, Frozen("", ""))))
  }

  // ---------------------------------------------------------------- visiting

  function KindOfDescriptor(d: Descriptor): StructureKind {
    match d
    case Alias(_) => AliasKind
    case Plugin(_, _) => PluginKind
    case Shell(_, _, _) => ShellKind
    case Child(_, _) => ChildKind
  }

  function StepFor(descriptor: Descriptor, target: Target): Step {
    Step(descriptor, target.targetNodeId, target.resolverId, target.resolverVersion,
         target.resolutionMaterialDigest)
  }

  function ActionOf(s: Setting, id: string): Option<Action> {
    if id in s.lookup && s.lookup[id] < |s.nodes| then Some(s.nodes[s.lookup[id]].action) else None
  }

  function Remaining(s: Setting, depth: nat): nat {
    if depth > s.limits.maxDepth then 0 else s.limits.maxDepth + 1 - depth
  }

  // active and path are what they are on entry: a visit restores both before it returns.
  function Visit(s: Setting, ref: string, depth: nat, active: set<string>, path: seq<Step>, p: Progress): Outcome
    decreases Remaining(s, depth), 2
  {
    if depth > s.limits.maxDepth then Paused(DepthLimitExceeded(s.limits.maxDepth))
    else if p.visited >= s.limits.maxNodes then Paused(NodeLimitExceeded(s.limits.maxNodes))
    else
      match Identifier(s.env, ref)
      case None => Paused(EmptyNodeIdentity)
      case Some(id) =>
        if id in active then Paused(CycleDetected(id))
        else VisitPresent(s, id, depth, active + {id}, path, p.(visited := p.visited + 1))
  }

  function VisitPresent(s: Setting, id: string, depth: nat, active: set<string>, path: seq<Step>, p: Progress): Outcome
    requires depth <= s.limits.maxDepth
    decreases Remaining(s, depth), 1
  {
    match ActionOf(s, id)
    case None => Paused(MissingNode(id))
    case Some(ResolvedLeaf(leaf)) => VisitLeaf(s, id, leaf, path, p)
    case Some(Composite(children)) =>
      if children == [] then Paused(EmptyComposite(id))
      else VisitChildren(s, children, depth, active, path, p)
    case Some(Wrapper(descriptor)) =>
      match NormalizedDescriptor(s.env, descriptor)
      case None => Paused(InvalidLeaf(id))
      case Some(d) =>
        if d !in s.registry then Paused(Unresolved(KindOfDescriptor(d), id))
        else if |s.registry[d]| != 1 then Paused(Ambiguous(KindOfDescriptor(d), id))
        else
          var target := s.registry[d][0];
          Visit(s, target.targetNodeId, depth + 1, active, path + [StepFor(d, target)], p)
  }

  function VisitLeaf(s: Setting, id: string, leaf: LeafInput, path: seq<Step>, p: Progress): Outcome {
    if |p.leaves| >= s.limits.maxLeaves then Paused(LeafLimitExceeded(s.limits.maxLeaves))
    else
      match CanonicalLeaf(s.env, id, leaf, path)
      case None => Paused(InvalidLeaf(id))
      case Some(action) =>
        if action.logicalActionId in p.ids then Paused(DuplicateLogicalActionIdentity(action.logicalActionId))
        else Done(Progress(p.visited, p.leaves + [action], p.ids + {action.logicalActionId}))
  }

  function VisitChildren(
      s: Setting, children: seq<string>, depth: nat, active: set<string>, path: seq<Step>, p: Progress): Outcome
    requires depth <= s.limits.maxDepth
    decreases Remaining(s, depth), 0, |children|
  {
    if children == [] then Done(p)
    else
      match Visit(s, children[0], depth + 1, active, path, p)
      case Paused(reason) => Paused(reason)
      case Done(q) => VisitChildren(s, children[1..], depth, active, path, q)
  }

  // ---------------------------------------------------------------- the whole compilation

  datatype Indexed = Index(lookup: map<string, nat>) | Refused(reason: Reason)

  // The positions of nodes[..n] by normalized identity, or the first fault.
  function IndexNodes(env: Env, nodes: seq<Node>, n: nat): Indexed
    requires n <= |nodes|
  {
    if n == 0 then Index(map[])
    else
      match IndexNodes(env, nodes, n - 1)
      case Refused(reason) => Refused(reason)
      case Index(lookup) =>
        match Identifier(env, nodes[n - 1].nodeId)
        case None => Refused(EmptyNodeIdentity)
        case Some(id) =>
          if id in lookup then Refused(DuplicateNodeIdentity(id)) else Index(lookup[id := n - 1])
  }

  function Least(a: nat, b: nat): nat {
    if a <= b then a else b
  }

  function Clamped(limits: Limits): Limits {
    Limits(Least(limits.maxDepth, ABSOLUTE_MAX_DEPTH), Least(limits.maxNodes, ABSOLUTE_MAX_NODES),
           Least(limits.maxLeaves, ABSOLUTE_MAX_LEAVES))
  }

  const DEFAULT_LIMITS := Limits(32, 256, 128)

  datatype Compilation = Ready(leaves: seq<LeafAction>, canonical: Frozen) | ResolutionRequired(reason: Reason)

  const NOTHING_VISITED := Progress(0, [], {})

  // compile_dispatch_with_limits
  function Compile(env: Env, rootId: string, nodes: seq<Node>, registry: Registry, limits: Limits): Compilation {
    match Identifier(env, rootId)
    case None => ResolutionRequired(EmptyRoot)
    case Some(root) =>
      match IndexNodes(env, nodes, |nodes|)
      case Refused(reason) => ResolutionRequired(reason)
      case Index(lookup) =>
        match Visit(Setting(env, nodes, lookup, registry, Clamped(limits)), root, 0, {}, [], NOTHING_VISITED)
        case Paused(reason) => ResolutionRequired(reason)
        case Done(p) =>
          if p.leaves == [] then ResolutionRequired(InvalidLeaf(root))
          else Ready(p.leaves, Freeze(env, ManifestText(p.leaves)))
  }

  // ---------------------------------------------------------------- the registry

  datatype RegistryEntry = RegistryEntry(descriptor: Descriptor, target: Target)

  function NormalizedEntry(env: Env, e: RegistryEntry): Option<RegistryEntry> {
    var descriptor :- NormalizedDescriptor(env, e.descriptor);
    var targetNodeId :- Identifier(env, e.target.targetNodeId);
    var resolverId :- Identifier(env, e.target.resolverId);
    var resolverVersion :- Identifier(env, e.target.resolverVersion);
    var digest :- ParseDigest(env, e.target.resolutionMaterialDigest);
    Some(RegistryEntry(descriptor, Target(targetNodeId, resolverId, resolverVersion, digest)))
  }

  // The candidates of a descriptor, in the order of the entries.
  function Candidates(env: Env, entries: seq<RegistryEntry>, d: Descriptor): seq<Target> {
    if entries == [] then []
    else
      var rest := Candidates(env, entries[1..], d);
      match NormalizedEntry(env, entries[0])
      case Some(e) => if e.descriptor == d then [e.target] + rest else rest
      case None => rest
  }

  // Every entry is valid and none repeats another.
  ghost predicate ValidEntries(env: Env, entries: seq<RegistryEntry>) {
    && (forall i :: 0 <= i < |entries| ==> NormalizedEntry(env, entries[i]).Some?)
    && forall d :: Distinct(Candidates(env, entries, d))
  }

  ghost predicate Holds(registry: Registry, env: Env, entries: seq<RegistryEntry>) {
    forall d :: (if d in registry then registry[d] else []) == Candidates(env, entries, d)
      && (d in registry ==> registry[d] != [])
  }
}
