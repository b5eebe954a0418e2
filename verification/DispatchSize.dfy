// Which compiled manifests the restore cap admits, and one that it refuses.

module DispatchSize {
  import opened Wrappers
  import opened Ordering
  import opened Json
  import opened CanonicalValue
  import opened Manifest
  import opened ManifestRestore
  import opened ManifestRebind
  import opened ManifestLaws
  import opened ManifestSize
  import opened Dispatch
  import opened DispatchExpansion
  import opened DispatchLaws

  // ---------------------------------------------------------------- within the cap

  predicate ShortCommands(leaf: LeafAction) {
    forall i :: 0 <= i < |leaf.resolutionPath| && leaf.resolutionPath[i].descriptor.Shell? ==>
      |leaf.resolutionPath[i].descriptor.command| <= MAX_IDENTIFIER_BYTES
  }

  // When every recorded command is at most as long as an identifier, the cap never refuses what the
  // compiler prints: with canonical scopes the manifest restores and rebinds to itself.
  lemma ShortCommandsAreNeverRefused(
      env: Env, rootId: string, nodes: seq<Node>, registry: Registry, limits: Limits, bindings: seq<Binding>)
    requires env.Valid() && NormalRegistry(env, registry)
    requires Compile(env, rootId, nodes, registry, limits).Ready?
    requires var r := Compile(env, rootId, nodes, registry, limits);
      forall i :: 0 <= i < |r.leaves| ==> ShortCommands(r.leaves[i])
    ensures var r := Compile(env, rootId, nodes, registry, limits);
      |r.canonical.bytes| <= MAX_PERSISTED_MANIFEST_BYTES
    ensures var r := Compile(env, rootId, nodes, registry, limits);
      (forall i :: 0 <= i < |r.leaves| ==> ScopeIsCanonical(r.leaves[i])) && IdentityBindings(r.leaves, bindings)
      ==> Rebind(env, r.canonical.bytes, r.canonical.digest, bindings)
          == Some(CanonicalManifest(r.leaves, r.canonical))
  {
    hide NormalRegistry, NormalLeaf, ManifestText, PathCommandBytes, Rebind, ScopeIsCanonical, IdentityBindings,
      Identifier, Visit;
    var r := Compile(env, rootId, nodes, registry, limits);
    CompiledManifestRebindsToItself(env, rootId, nodes, registry, limits, bindings);
    forall i | 0 <= i < |r.leaves| ensures PathCommandBytes(r.leaves[i].resolutionPath) <= COMMAND_BUDGET {
      ShortCommandsFitBudget(r.leaves[i].resolutionPath);
      PathIsShort(env, r.leaves[i]);
    }
    ManifestFitsCap(env, r.leaves);
  }

  lemma PathIsShort(env: Env, leaf: LeafAction)
    requires NormalLeaf(env, leaf)
    ensures |leaf.resolutionPath| * MAX_JSON_ESCAPED_IDENTIFIER_BYTES <= COMMAND_BUDGET
  {
    hide LeafText, IsCanonicalText, IsTargetsText, NormalAuthority, NormalStep;
  }

  // The limit on the commands in the dispatch instead of in the compiled paths.
  predicate HasShortCommand(action: Action) {
    action.Wrapper? && action.descriptor.Shell? ==> |action.descriptor.command| <= MAX_IDENTIFIER_BYTES
  }

  predicate HasShortCommands(nodes: seq<Node>) {
    forall i :: 0 <= i < |nodes| ==> HasShortCommand(nodes[i].action)
  }

  predicate IsShortPath(path: seq<Step>) {
    forall i :: 0 <= i < |path| && path[i].descriptor.Shell? ==> |path[i].descriptor.command| <= MAX_IDENTIFIER_BYTES
  }

  lemma {:induction false} FlattenIsShort(s: Setting, ref: string, x: Expansion, path: seq<Step>)
    requires Expands(s, ref, x) && HasShortCommands(s.nodes) && IsShortPath(path)
    requires Flatten(s.env, x, path).Some?
    ensures forall leaf :: leaf in Flatten(s.env, x, path).value ==> ShortCommands(leaf)
    decreases x, 1
  {
    hide NormalizedDescriptor, Identifier, CanonicalLeaf, ShortCommands;
    match ActionOf(s, x.id).value {
      case ResolvedLeaf(leaf) => LeafKeepsPath(s.env, x.id, leaf, path);
      case Composite(children) => FlattenAllIsShort(s, children, x.children, path);
      case Wrapper(descriptor) =>
        CommandIsKept(s.env, descriptor);
        assert HasShortCommand(s.nodes[s.lookup[x.id]].action);
        FlattenIsShort(s, x.step.targetNodeId, x.child, path + [x.step]);
    }
  }

  lemma {:induction false} FlattenAllIsShort(s: Setting, refs: seq<string>, xs: seq<Expansion>, path: seq<Step>)
    requires ExpandsAll(s, refs, xs) && HasShortCommands(s.nodes) && IsShortPath(path)
    requires FlattenAll(s.env, xs, path).Some?
    ensures forall leaf :: leaf in FlattenAll(s.env, xs, path).value ==> ShortCommands(leaf)
    decreases xs, 0
  {
    hide Expands, Flatten, ShortCommands, IsShortPath, HasShortCommands;
    if xs != [] {
      FlattenIsShort(s, refs[0], xs[0], path);
      FlattenAllIsShort(s, refs[1..], xs[1..], path);
    }
  }

  lemma LeafKeepsPath(env: Env, id: string, leaf: LeafInput, path: seq<Step>)
    requires CanonicalLeaf(env, id, leaf, path).Some? && IsShortPath(path)
    ensures ShortCommands(CanonicalLeaf(env, id, leaf, path).value)
  {
    hide Identifier, CanonicalText, TargetsText, CanonicalAuthority, LeafText;
  }

  lemma CommandIsKept(env: Env, d: Descriptor)
    requires NormalizedDescriptor(env, d).Some?
    ensures var n := NormalizedDescriptor(env, d).value;
      n.Shell? ==> d.Shell? && n.command == d.command
  {
    hide Identifier;
  }

  lemma ShortNodesAreNeverRefused(
      env: Env, rootId: string, nodes: seq<Node>, registry: Registry, limits: Limits, bindings: seq<Binding>)
    requires env.Valid() && NormalRegistry(env, registry) && HasShortCommands(nodes)
    requires Compile(env, rootId, nodes, registry, limits).Ready?
    ensures var r := Compile(env, rootId, nodes, registry, limits);
      |r.canonical.bytes| <= MAX_PERSISTED_MANIFEST_BYTES
    ensures var r := Compile(env, rootId, nodes, registry, limits);
      (forall i :: 0 <= i < |r.leaves| ==> ScopeIsCanonical(r.leaves[i])) && IdentityBindings(r.leaves, bindings)
      ==> Rebind(env, r.canonical.bytes, r.canonical.digest, bindings)
          == Some(CanonicalManifest(r.leaves, r.canonical))
  {
    hide NormalRegistry, Rebind, ScopeIsCanonical, IdentityBindings, Identifier, Visit, ManifestText, ShortCommands,
      Flatten, Expands, Height, NodeIds, HasShortCommands;
    ReadyExactly(env, rootId, nodes, registry, limits);
    var r := Compile(env, rootId, nodes, registry, limits);
    var s := SettingOf(env, nodes, registry, limits);
    var x :| Admissible(s, rootId, x);
    FlattenIsShort(s, rootId, x, []);
    forall i | 0 <= i < |r.leaves| ensures ShortCommands(r.leaves[i]) {
      assert r.leaves[i] in r.leaves;
    }
    ShortCommandsAreNeverRefused(env, rootId, nodes, registry, limits, bindings);
  }

  // ---------------------------------------------------------------- exactly what is restored

  // A compiled manifest with printed scopes is restored exactly when it is within the cap and every
  // scope is a canonical value.
  lemma CompiledIsRestorable(env: Env, rootId: string, nodes: seq<Node>, registry: Registry, limits: Limits)
    requires env.Valid() && NormalRegistry(env, registry)
    requires Compile(env, rootId, nodes, registry, limits).Ready?
    requires var r := Compile(env, rootId, nodes, registry, limits);
      forall i :: 0 <= i < |r.leaves| ==> ScopeIsPrinted(r.leaves[i])
    ensures var r := Compile(env, rootId, nodes, registry, limits);
      RestoreManifest(env, r.canonical.bytes, r.canonical.digest).Some? <==>
        && |r.canonical.bytes| <= MAX_PERSISTED_MANIFEST_BYTES
        && forall i :: 0 <= i < |r.leaves| ==> ScopeIsCanonical(r.leaves[i])
  {
    hide NormalRegistry, NormalLeaf, ManifestText, ScopeIsCanonical, ScopeIsPrinted, Identifier, Compile, RestoreManifest,
      Rebind, IdentityBindings;
    var r := Compile(env, rootId, nodes, registry, limits);
    CompiledManifestRebindsToItself(env, rootId, nodes, registry, limits, []);
    CompiledText(env, rootId, nodes, registry, limits);
    RestorableExactly(env, r.leaves);
  }

  function TotalCommandBytes(leaves: seq<LeafAction>): nat {
    if leaves == [] then 0 else PathCommandBytes(leaves[0].resolutionPath) + TotalCommandBytes(leaves[1..])
  }

  lemma {:induction false} CommandsArePrinted(env: Env, leaves: seq<LeafAction>)
    requires forall i :: 0 <= i < |leaves| ==> NormalLeaf(env, leaves[i])
    ensures TotalCommandBytes(leaves) <= TotalLength(Map(CanonicalBytesOf, leaves))
  {
    hide NormalLeaf, LeafText, PathCommandBytes, CanonicalBytesOf;
    if leaves != [] {
      LeafLength(env, leaves[0]);
      SealedBytes(env, leaves[0]);
      CommandsArePrinted(env, leaves[1..]);
      assert Map(CanonicalBytesOf, leaves)[1..] == Map(CanonicalBytesOf, leaves[1..]);
    }
  }

  // Escaped commands of more bytes than the cap, all paths together, are never restored.
  lemma ManyCommandsAreRefused(env: Env, leaves: seq<LeafAction>)
    requires forall i :: 0 <= i < |leaves| ==> NormalLeaf(env, leaves[i])
    requires TotalCommandBytes(leaves) > MAX_PERSISTED_MANIFEST_BYTES
    ensures |ManifestText(leaves)| > MAX_PERSISTED_MANIFEST_BYTES
    ensures forall digest :: RestoreManifest(env, ManifestText(leaves), digest).None?
  {
    hide NormalLeaf, ManifestText, RestoreLeaves, ParseDocument, StructFields;
    CommandsArePrinted(env, leaves);
    ManifestLength(leaves);
  }

  // ---------------------------------------------------------------- beyond the cap

  // A chain of 31 shells whose commands are 16 KiB of a control character, above a composite of 28
  // leaves: each leaf records all 31 commands, each escaped to six times its length.
  const CHAIN: nat := 31
  const FAN: nat := 28
  const COMMAND: string := Repeat(1 as char, MAX_CANONICAL_STRING_BYTES)
  const ZEROS: string := Repeat('0', 64)

  function Repeat(c: char, n: nat): (r: string)
    ensures |r| == n && forall i :: 0 <= i < n ==> r[i] == c
  {
    if n == 0 then [] else [c] + Repeat(c, n - 1)
  }

  // Names of lower-case ASCII letters are their own normal form.
  ghost predicate KeepsNames(env: Env) {
    env.Valid() && forall s {:trigger env.normalize(s)} :: IsLowerCase(s) ==> env.normalize(s) == s
  }

  const PLAIN: Env := Env(s => s, s => s, s => ZEROS)

  function Id(k: nat): string {
    Repeat('a', k + 1)
  }

  function ShellAt(k: nat): Descriptor {
    Shell(Id(k), "v", COMMAND)
  }

  function TargetAt(k: nat): Target {
    Target(Id(k + 1), "r", "v", ZEROS)
  }

  function LeafAt(k: nat): LeafInput {
    LeafInput(Id(k), "a", Tool("t", "v"), Null, [Null], None,
      OwnerAuthority(LocalInteractive("c", "i", "a", "r", None), "p", ZEROS, "i", ZEROS, "e", ZEROS, "k", "null",
                     0, None, None, None, None, ZEROS, 0, None))
  }

  // The identities of the leaves from the i-th on.
  function FanRefs(i: nat): seq<string>
    requires i <= FAN
    decreases FAN - i
  {
    if i == FAN then [] else [Id(CHAIN + 1 + i)] + FanRefs(i + 1)
  }

  function ActionAt(k: nat): Action {
    if k < CHAIN then Wrapper(ShellAt(k))
    else if k == CHAIN then Composite(FanRefs(0))
    else ResolvedLeaf(LeafAt(k))
  }

  function NodeAt(k: nat): Node {
    Node(Id(k), ActionAt(k))
  }

  function NodesFrom(k: nat): (r: seq<Node>)
    requires k <= CHAIN + 1 + FAN
    ensures |r| == CHAIN + 1 + FAN - k && forall i :: 0 <= i < |r| ==> r[i] == NodeAt(k + i)
    decreases CHAIN + 1 + FAN - k
  {
    if k == CHAIN + 1 + FAN then [] else [NodeAt(k)] + NodesFrom(k + 1)
  }

  const NODES: seq<Node> := NodesFrom(0)

  lemma IdsDiffer(j: nat, k: nat)
    requires j != k
    ensures Id(j) != Id(k) && ShellAt(j) != ShellAt(k)
  {
    assert |Id(j)| == j + 1 && |Id(k)| == k + 1;
  }

  ghost predicate IsChainRegistry(registry: Registry) {
    && (forall d :: d in registry ==> exists k: nat :: k < CHAIN && d == ShellAt(k))
    && (forall k: nat :: k < CHAIN ==> ShellAt(k) in registry && registry[ShellAt(k)] == [TargetAt(k)])
  }

  predicate IsLowerCase(s: string) {
    0 < |s| <= MAX_IDENTIFIER_BYTES && forall i :: 0 <= i < |s| ==> 'a' <= s[i] <= 'z'
  }

  lemma KeptNames(env: Env)
    requires KeepsNames(env)
    ensures env.Valid()
    ensures forall s :: IsLowerCase(s) ==> NormalIdentifier(env, s)
    ensures NormalDigest(env, ZEROS)
  {
    assert IsHexDigest(ZEROS);
    HexDigestIsNormal(env, ZEROS);
  }

  lemma PlainKeepsNames()
    ensures KeepsNames(PLAIN)
  {
    assert IsHexDigest(ZEROS);
  }

  lemma ShellIsNormal(env: Env, k: nat)
    requires KeepsNames(env)
    requires k <= CHAIN + FAN
    ensures NormalizedDescriptor(env, ShellAt(k)) == Some(ShellAt(k))
    ensures NormalIdentifier(env, Id(k))
  {
    KeptNames(env);
  }

  ghost function ChainSetting(env: Env, registry: Registry): Setting {
    SettingOf(env, NODES, registry, DEFAULT_LIMITS)
  }

  lemma NodeNamed(env: Env, k: nat)
    requires KeepsNames(env)
    requires k <= CHAIN + FAN
    ensures k < |NODES| && NODES[k] == NodeAt(k) && Identifier(env, NODES[k].nodeId) == Some(Id(k))
  {
    hide Identifier, ActionAt, Repeat, Id;
    ShellIsNormal(env, k);
  }

  lemma NodesAreUnique(env: Env)
    requires KeepsNames(env)
    ensures UniqueNodes(env, NODES)
  {
    hide Identifier, NodeAt, Repeat, Id;
    forall k: nat | k < |NODES| ensures Identifier(env, NODES[k].nodeId) == Some(Id(k)) { NodeNamed(env, k); }
    forall i: nat, j: nat | i < j < |NODES|
      ensures Identifier(env, NODES[i].nodeId) != Identifier(env, NODES[j].nodeId)
    {
      IdsDiffer(i, j);
    }
  }

  lemma ChainAction(env: Env, registry: Registry, k: nat)
    requires KeepsNames(env)
    requires k <= CHAIN + FAN
    ensures ActionOf(ChainSetting(env, registry), Id(k)) == Some(ActionAt(k))
  {
    hide Identifier, ActionAt, IndexNodes, Repeat, Id, UniqueNodes, NodesFrom;
    var s := ChainSetting(env, registry);
    NodeNamed(env, k);
    NodesAreUnique(env);
    IndexedNodes(env, NODES, |NODES|);
    assert NODES[..|NODES|] == NODES;
    assert Id(k) in s.lookup;
    SamePosition(env, NODES, k, s.lookup[Id(k)]);
  }

  lemma ChainNodes(env: Env, registry: Registry)
    requires KeepsNames(env)
    ensures UniqueNodes(env, NODES)
    ensures forall k: nat :: k <= CHAIN + FAN ==> ActionOf(ChainSetting(env, registry), Id(k)) == Some(ActionAt(k))
  {
    hide Repeat, Id, ActionAt, ActionOf, UniqueNodes, NodesFrom, SettingOf;
    NodesAreUnique(env);
    forall k: nat | k <= CHAIN + FAN ensures ActionOf(ChainSetting(env, registry), Id(k)) == Some(ActionAt(k)) {
      ChainAction(env, registry, k);
    }
  }

  // ---------------------------------------------------------------- its registry

  function ChainEntries(k: nat): (r: seq<RegistryEntry>)
    requires k <= CHAIN
    ensures |r| == CHAIN - k && forall i :: 0 <= i < |r| ==> r[i] == RegistryEntry(ShellAt(k + i), TargetAt(k + i))
    decreases CHAIN - k
  {
    if k == CHAIN then [] else [RegistryEntry(ShellAt(k), TargetAt(k))] + ChainEntries(k + 1)
  }

  lemma ChainEntryIsNormal(env: Env, k: nat)
    requires KeepsNames(env)
    requires k < CHAIN
    ensures NormalizedEntry(env, RegistryEntry(ShellAt(k), TargetAt(k))) == Some(RegistryEntry(ShellAt(k), TargetAt(k)))
  {
    hide NormalizedDescriptor, Repeat;
    KeptNames(env);
    ShellIsNormal(env, k);
    ShellIsNormal(env, k + 1);
  }

  lemma {:induction false} ChainCandidates(env: Env, k: nat, d: Descriptor)
    requires KeepsNames(env)
    requires k <= CHAIN
    ensures forall j: nat :: k <= j < CHAIN && d == ShellAt(j) ==>
      Candidates(env, ChainEntries(k), d) == [TargetAt(j)]
    ensures (forall j: nat :: k <= j < CHAIN ==> d != ShellAt(j)) ==> Candidates(env, ChainEntries(k), d) == []
    decreases CHAIN - k
  {
    hide ShellAt, TargetAt, NormalizedEntry;
    if k < CHAIN {
      ChainCandidates(env, k + 1, d);
      ChainEntryIsNormal(env, k);
      assert ChainEntries(k)[1..] == ChainEntries(k + 1);
      if d == ShellAt(k) {
        forall j: nat | k < j < CHAIN ensures d != ShellAt(j) { IdsDiffer(k, j); }
      }
    }
  }

  // A registry that holds the entries from the k-th on.
  lemma {:induction false} ChainRegistry(env: Env, k: nat) returns (registry: Registry)
    requires KeepsNames(env)
    requires k <= CHAIN
    ensures Holds(registry, env, ChainEntries(k))
    decreases CHAIN - k
  {
    hide ShellAt, TargetAt, NormalizedEntry, Candidates, ChainEntries;
    if k == CHAIN {
      registry := map[];
      forall d ensures Candidates(env, ChainEntries(k), d) == [] { ChainCandidates(env, k, d); }
    } else {
      var shorter := ChainRegistry(env, k + 1);
      registry := shorter[ShellAt(k) := [TargetAt(k)]];
      forall d ensures Candidates(env, ChainEntries(k), d) == if d in registry then registry[d] else [] {
        ChainCandidates(env, k, d);
        ChainCandidates(env, k + 1, d);
        if d != ShellAt(k) {
          assert (exists j: nat :: k <= j < CHAIN && d == ShellAt(j)) <==> (exists j: nat :: k < j < CHAIN && d == ShellAt(j));
        }
      }
    }
  }

  // The registry built from the server's 31 entries: they are valid, and whatever holds them is the
  // registry of the chain.
  lemma ChainEntriesGiveChainRegistry(env: Env, registry: Registry)
    requires KeepsNames(env)
    ensures ValidEntries(env, ChainEntries(0))
    ensures Holds(registry, env, ChainEntries(0)) ==> IsChainRegistry(registry)
  {
    hide ShellAt, TargetAt, NormalizedEntry, Candidates;
    forall i | 0 <= i < CHAIN ensures NormalizedEntry(env, ChainEntries(0)[i]).Some? { ChainEntryIsNormal(env, i); }
    forall d ensures Distinct(Candidates(env, ChainEntries(0), d)) {
      ChainCandidates(env, 0, d);
    }
    if Holds(registry, env, ChainEntries(0)) {
      forall d | d in registry ensures exists k: nat :: k < CHAIN && d == ShellAt(k) { ChainCandidates(env, 0, d); }
      forall k: nat | k < CHAIN ensures ShellAt(k) in registry && registry[ShellAt(k)] == [TargetAt(k)] {
        ChainCandidates(env, 0, ShellAt(k));
      }
    }
  }

  // ---------------------------------------------------------------- its expansion

  function FanX(i: nat): seq<Expansion>
    requires i <= FAN
    decreases FAN - i
  {
    if i == FAN then [] else [LeafX(Id(CHAIN + 1 + i), LeafAt(CHAIN + 1 + i))] + FanX(i + 1)
  }

  function ChainX(k: nat): Expansion
    requires k <= CHAIN
    decreases CHAIN - k
  {
    if k == CHAIN then CompositeX(Id(CHAIN), FanX(0)) else WrapperX(Id(k), StepFor(ShellAt(k), TargetAt(k)), ChainX(k + 1))
  }

  lemma FanAction(k: nat)
    requires k > CHAIN
    ensures ActionAt(k) == ResolvedLeaf(LeafAt(k))
  {
  }

  lemma LeafExpands(s: Setting, id: string, leaf: LeafInput)
    requires Identifier(s.env, id) == Some(id) && ActionOf(s, id) == Some(ResolvedLeaf(leaf))
    ensures Expands(s, id, LeafX(id, leaf))
  {
    hide Identifier;
  }

  lemma {:induction false} FanExpands(env: Env, s: Setting, i: nat)
    requires KeepsNames(env)
    requires i <= FAN && s.env == env
    requires forall k: nat :: k <= CHAIN + FAN ==> ActionOf(s, Id(k)) == Some(ActionAt(k))
    ensures ExpandsAll(s, FanRefs(i), FanX(i))
    decreases FAN - i
  {
    hide Identifier, Expands, ActionOf, ActionAt, Repeat, Id, LeafAt;
    if i < FAN {
      var k := CHAIN + 1 + i;
      ShellIsNormal(env, k);
      FanExpands(env, s, i + 1);
      assert FanRefs(i) == [Id(k)] + FanRefs(i + 1);
      assert FanX(i) == [LeafX(Id(k), LeafAt(k))] + FanX(i + 1);
      assert ActionOf(s, Id(k)) == Some(ActionAt(k));
      FanAction(k);
      LeafExpands(s, Id(k), LeafAt(k));
    }
  }

  lemma {:induction false} ChainExpands(env: Env, s: Setting, k: nat)
    requires KeepsNames(env)
    requires k <= CHAIN && s.env == env && IsChainRegistry(s.registry)
    requires forall k: nat :: k <= CHAIN + FAN ==> ActionOf(s, Id(k)) == Some(ActionAt(k))
    ensures Expands(s, Id(k), ChainX(k))
    decreases CHAIN - k
  {
    hide Identifier, NormalizedDescriptor, Repeat, LeafAt, ExpandsAll, Id, Expands, FanRefs, FanX, ActionAt,
      IsChainRegistry, UniqueTarget, ActionOf, ShellAt, TargetAt, StepFor;
    ShellIsNormal(env, k);
    ChainActions(k);
    assert ActionOf(s, Id(k)) == Some(ActionAt(k));
    if k == CHAIN {
      FanExpands(env, s, 0);
      CompositeExpands(s, Id(k), FanRefs(0), FanX(0));
    } else {
      ChainExpands(env, s, k + 1);
      ChainTarget(s, k);
      WrapperExpands(s, Id(k), ShellAt(k), StepFor(ShellAt(k), TargetAt(k)), ChainX(k + 1));
    }
  }

  lemma ChainActions(k: nat)
    requires k <= CHAIN
    ensures k < CHAIN ==> ActionAt(k) == Wrapper(ShellAt(k))
    ensures k == CHAIN ==> ActionAt(k) == Composite(FanRefs(0)) && FanRefs(0) != []
  {
    hide Repeat, Id, ShellAt;
  }

  lemma ChainTarget(s: Setting, k: nat)
    requires k < CHAIN && IsChainRegistry(s.registry)
    ensures var step := StepFor(ShellAt(k), TargetAt(k));
      && step.descriptor == ShellAt(k) && step.targetNodeId == Id(k + 1)
      && UniqueTarget(s, ShellAt(k)) == Some(step)
  {
    hide Repeat, Id, ShellAt;
    assert s.registry[ShellAt(k)] == [TargetAt(k)];
  }

  lemma CompositeExpands(s: Setting, id: string, refs: seq<string>, xs: seq<Expansion>)
    requires Identifier(s.env, id) == Some(id) && ActionOf(s, id) == Some(Composite(refs))
    requires refs != [] && ExpandsAll(s, refs, xs)
    ensures Expands(s, id, CompositeX(id, xs))
  {
    hide Identifier;
  }

  lemma WrapperExpands(s: Setting, id: string, d: Descriptor, step: Step, child: Expansion)
    requires Identifier(s.env, id) == Some(id) && ActionOf(s, id) == Some(Wrapper(d))
    requires NormalizedDescriptor(s.env, d) == Some(step.descriptor)
    requires UniqueTarget(s, step.descriptor) == Some(step) && Expands(s, step.targetNodeId, child)
    ensures Expands(s, id, WrapperX(id, step, child))
  {
    hide Identifier, NormalizedDescriptor;
  }

  lemma {:induction false} FanCounts(i: nat)
    requires i <= FAN
    ensures |NodeIdsAll(FanX(i))| == FAN - i && HeightAll(FanX(i)) == 0
    decreases FAN - i
  {
    if i < FAN {
      FanCounts(i + 1);
      assert FanX(i)[1..] == FanX(i + 1);
    }
  }

  lemma {:induction false} ChainCounts(k: nat)
    requires k <= CHAIN
    ensures |NodeIds(ChainX(k))| == 1 + FAN + (CHAIN - k) && Height(ChainX(k)) == 1 + (CHAIN - k)
    decreases CHAIN - k
  {
    hide Repeat, ShellAt, TargetAt, Id, FanX;
    if k == CHAIN { FanCounts(0); } else { ChainCounts(k + 1); }
  }

  // ---------------------------------------------------------------- its leaves

  lemma LetterIsNormal(env: Env, s: string)
    requires KeepsNames(env) && |s| == 1 && 'a' <= s[0] <= 'z'
    ensures NormalIdentifier(env, s)
  {
    assert IsLowerCase(s);
    KeptNames(env);
  }

  lemma LettersAreNormal(env: Env)
    requires KeepsNames(env)
    ensures env.Valid() && NormalDigest(env, ZEROS)
    ensures NormalIdentifier(env, "a") && NormalIdentifier(env, "t") && NormalIdentifier(env, "v")
    ensures NormalIdentifier(env, "c") && NormalIdentifier(env, "i") && NormalIdentifier(env, "r")
    ensures NormalIdentifier(env, "p") && NormalIdentifier(env, "e") && NormalIdentifier(env, "k")
  {
    KeptNames(env);
    hide KeepsNames, NormalIdentifier, NormalDigest;
    LetterIsNormal(env, "a");
    LetterIsNormal(env, "t");
    LetterIsNormal(env, "v");
    LetterIsNormal(env, "c");
    LetterIsNormal(env, "i");
    LetterIsNormal(env, "r");
    LetterIsNormal(env, "p");
    LetterIsNormal(env, "e");
    LetterIsNormal(env, "k");
  }

  lemma LeafCompiles(env: Env, k: nat, path: seq<Step>)
    requires KeepsNames(env)
    requires k <= CHAIN + FAN
    ensures CanonicalLeaf(env, Id(k), LeafAt(k), path).Some?
    ensures var leaf := CanonicalLeaf(env, Id(k), LeafAt(k), path).value;
      leaf.logicalActionId == Id(k) && leaf.resolutionPath == path && leaf.ownerAuthority.normalizedScope.bytes == "null"
  {
    LettersAreNormal(env);
    NullTargets();
    ShellIsNormal(env, k);
    CompilableAuthority(env);
    hide Identifier, ParseDigest, TargetsText, LeafText, KeepsNames, CanonicalAuthority;
  }

  lemma CompilableAuthority(env: Env)
    requires KeepsNames(env)
    ensures CanonicalAuthority(env, LeafAt(0).ownerAuthority).Some?
    ensures CanonicalAuthority(env, LeafAt(0).ownerAuthority).value.normalizedScope.bytes == "null"
  {
    LettersAreNormal(env);
    hide Identifier, ParseDigest, KeepsNames;
  }

  lemma NullTargets()
    ensures TargetsText([Null]).Some?
  {
    assert CanonicalText(Null) == Some("null");
    assert CanonicalTexts([Null]).value == ["null"];
    assert Sort(LexLe, ["null"]) == ["null"] by { assert ["null"][1..] == []; }
    assert RenderArray(["null"]) == "[" + "null" + "]";
    EscapeLength("targets");
    var entries := [Entry("targets", RenderArray(["null"]))];
    assert RenderEntries(entries) == RenderEntry(entries[0]);
  }

  predicate IsFanLeaf(leaf: LeafAction, k: nat, path: seq<Step>) {
    && leaf.logicalActionId == Id(k) && leaf.resolutionPath == path
    && leaf.ownerAuthority.normalizedScope.bytes == "null"
  }

  lemma {:induction false} FanFlattens(env: Env, i: nat, path: seq<Step>)
    requires KeepsNames(env)
    requires i <= FAN
    ensures FlattenAll(env, FanX(i), path).Some?
    ensures var leaves := FlattenAll(env, FanX(i), path).value;
      && |leaves| == FAN - i
      && forall j :: 0 <= j < |leaves| ==>
           IsFanLeaf(leaves[j], CHAIN + 1 + i + j, path)
    decreases FAN - i
  {
    hide CanonicalLeaf, Id, LeafAt;
    if i < FAN {
      LeafCompiles(env, CHAIN + 1 + i, path);
      FanFlattens(env, i + 1, path);
      assert FanX(i)[1..] == FanX(i + 1);
      assert Flatten(env, FanX(i)[0], path) == Some([CanonicalLeaf(env, Id(CHAIN + 1 + i), LeafAt(CHAIN + 1 + i), path).value]);
      var leaves := FlattenAll(env, FanX(i), path).value;
      var rest := FlattenAll(env, FanX(i + 1), path).value;
      forall j | 0 < j < |leaves|
        ensures IsFanLeaf(leaves[j], CHAIN + 1 + i + j, path)
      {
        assert leaves[j] == rest[j - 1];
      }
    }
  }

  // The steps from node k of the chain down to the composite.
  function ChainPath(k: nat): seq<Step>
    requires k <= CHAIN
    decreases CHAIN - k
  {
    if k == CHAIN then [] else [StepFor(ShellAt(k), TargetAt(k))] + ChainPath(k + 1)
  }

  lemma {:induction false} ChainFlattens(env: Env, k: nat, path: seq<Step>)
    requires KeepsNames(env)
    requires k <= CHAIN
    ensures Flatten(env, ChainX(k), path) == FlattenAll(env, FanX(0), path + ChainPath(k))
    decreases CHAIN - k
  {
    hide FlattenAll, Repeat, ShellAt, TargetAt, Id, FanX;
    if k == CHAIN {
      assert path + [] == path;
    } else {
      var step := StepFor(ShellAt(k), TargetAt(k));
      ChainFlattens(env, k + 1, path + [step]);
      assert path + [step] + ChainPath(k + 1) == path + ([step] + ChainPath(k + 1));
    }
  }

  lemma {:induction false} ControlCharactersExpand(t: string)
    requires forall i :: 0 <= i < |t| ==> t[i] == 1 as char
    ensures |Escape(t)| == 6 * |t|
  {
    if t != "" { ControlCharactersExpand(t[1..]); }
  }

  lemma {:induction false} ChainCommands(k: nat)
    requires k <= CHAIN
    ensures |ChainPath(k)| == CHAIN - k
    ensures PathCommandBytes(ChainPath(k)) == (CHAIN - k) * (6 * MAX_CANONICAL_STRING_BYTES)
    decreases CHAIN - k
  {
    assert PathCommandBytes([]) == 0;
    hide Escape, Repeat, ShellAt, TargetAt, CommandBytes, PathCommandBytes;
    if k < CHAIN {
      LongCommand(k);
      ChainCommands(k + 1);
      PathCommandsCons(StepFor(ShellAt(k), TargetAt(k)), ChainPath(k + 1));
      Distribute(CHAIN - (k + 1), 6 * MAX_CANONICAL_STRING_BYTES);
    }
  }

  lemma PathCommandsCons(step: Step, path: seq<Step>)
    ensures PathCommandBytes([step] + path) == CommandBytes(step.descriptor) + PathCommandBytes(path)
  {
    hide CommandBytes;
    assert ([step] + path)[1..] == path;
  }

  lemma Distribute(a: nat, b: nat)
    ensures (a + 1) * b == b + a * b
  {
  }

  lemma LongCommand(k: nat)
    ensures CommandBytes(ShellAt(k)) == 6 * MAX_CANONICAL_STRING_BYTES
  {
    hide Repeat, Escape;
    ControlCharactersExpand(COMMAND);
  }

  lemma {:induction false} TotalLengthAtLeast(texts: seq<string>, each: nat)
    requires forall i :: 0 <= i < |texts| ==> each <= |texts[i]|
    ensures |texts| * each <= TotalLength(texts)
  {
    if texts != [] { TotalLengthAtLeast(texts[1..], each); }
  }

  // The compiler accepts this dispatch with the registry built from the chain's entries, and prints
  // more than the restore cap admits, so what it has just printed can never be restored.
  lemma LongCommandsAreRefused(env: Env, registry: Registry)
    requires KeepsNames(env)
    requires Holds(registry, env, ChainEntries(0))
    ensures env.Valid() && NormalRegistry(env, registry)
    ensures var r := Compile(env, Id(0), NODES, registry, DEFAULT_LIMITS);
      && r.Ready?
      && |r.canonical.bytes| > MAX_PERSISTED_MANIFEST_BYTES
      && RestoreManifest(env, r.canonical.bytes, r.canonical.digest).None?
  {
    hide Identifier, ManifestText, Visit, NormalLeaf, NormalRegistry, Expands, Flatten, FlattenAll, Height, NodeIds,
      RestoreLeaves, ActionOf, ChainX, FanX, ParseDigest, IndexNodes, Repeat, Id, ActionAt, ChainPath,
      UniqueNodes, ShellAt, TargetAt, NodesFrom, IsChainRegistry, Holds, ChainEntries;
    ChainEntriesGiveChainRegistry(env, registry);
    var s, x := ChainSetting(env, registry), ChainX(0);
    KeptNames(env);
    ChainNodes(env, registry);
    ChainExpands(env, s, 0);
    ChainCounts(0);
    ChainFlattens(env, 0, []);
    assert [] + ChainPath(0) == ChainPath(0);
    FanFlattens(env, 0, ChainPath(0));
    var leaves := Flatten(env, x, []).value;
    ChainIdsDistinct(leaves);
    assert Admissible(s, Id(0), x);
    ShellIsNormal(env, 0);
    ReadyExactly(env, Id(0), NODES, registry, DEFAULT_LIMITS);
    ChainRegistryIsNormal(env, registry);
    ChainIsTooLong(env, s, x, leaves);
  }

  ghost function FanSetting(env: Env): Setting {
    ChainSetting(env, map[])
  }

  lemma FanIsAdmissible(env: Env)
    requires KeepsNames(env)
    ensures Admissible(FanSetting(env), Id(CHAIN), CompositeX(Id(CHAIN), FanX(0)))
    ensures var leaves := Flatten(env, CompositeX(Id(CHAIN), FanX(0)), []).value;
      |leaves| == FAN && forall i :: 0 <= i < FAN ==> IsFanLeaf(leaves[i], CHAIN + 1 + i, [])
  {
    hide Identifier, Expands, FlattenAll, NodeIdsAll, HeightAll, ActionOf, FanX, FanRefs, IndexNodes, Repeat, Id,
      ActionAt, UniqueNodes, NodesFrom, ExpandsAll, SettingOf, CanonicalLeaf;
    var s := FanSetting(env);
    SettingEnv(env, map[]);
    ChainNodes(env, map[]);
    FanExpands(env, s, 0);
    ShellIsNormal(env, CHAIN);
    ChainActions(CHAIN);
    CompositeExpands(s, Id(CHAIN), FanRefs(0), FanX(0));
    FanCounts(0);
    FanFlattens(env, 0, []);
    ChainIdsDistinct(FlattenAll(env, FanX(0), []).value);
  }

  lemma FanIsReady(env: Env)
    requires KeepsNames(env)
    ensures var r := Compile(env, Id(CHAIN), NODES, map[], DEFAULT_LIMITS);
      r.Ready? && |r.leaves| == FAN && forall i :: 0 <= i < FAN ==> IsFanLeaf(r.leaves[i], CHAIN + 1 + i, [])
  {
    hide *;
    KeptNames(env);
    ChainNodes(env, map[]);
    ShellIsNormal(env, CHAIN);
    FanIsAdmissible(env);
    IsNamed(env, CHAIN);
    ReadyExactly(env, Id(CHAIN), NODES, map[], DEFAULT_LIMITS);
    FanSettingIs(env);
  }

  lemma FanSettingIs(env: Env)
    requires KeepsNames(env)
    ensures FanSetting(env) == SettingOf(env, NODES, map[], DEFAULT_LIMITS)
  {
  }

  lemma IsNamed(env: Env, k: nat)
    requires KeepsNames(env)
    requires k <= CHAIN + FAN
    ensures Identifier(env, Id(k)).Some?
  {
    ShellIsNormal(env, k);
  }

  // Without its chain the same fan compiles to a manifest that is persistable, and so restores and
  // rebinds to itself.
  lemma FanIsPersistable(env: Env)
    requires KeepsNames(env)
    ensures env.Valid() && NormalRegistry(env, map[])
    ensures var r := Compile(env, Id(CHAIN), NODES, map[], DEFAULT_LIMITS);
      r.Ready? && |r.leaves| == FAN && PersistableManifest(env, r.leaves)
  {
    hide Identifier, Visit, NormalLeaf, NormalRegistry, Id, NodesFrom, ScopeIsCanonical, IdentityBindings, Rebind, Compile,
      ManifestText, Distinct;
    KeptNames(env);
    NoCandidates(env);
    FanIsReady(env);
    var r := Compile(env, Id(CHAIN), NODES, map[], DEFAULT_LIMITS);
    CompiledManifestRebindsToItself(env, Id(CHAIN), NODES, map[], DEFAULT_LIMITS, []);
    ShortCommandsAreNeverRefused(env, Id(CHAIN), NODES, map[], DEFAULT_LIMITS, []);
    CompiledText(env, Id(CHAIN), NODES, map[], DEFAULT_LIMITS);
    forall i | 0 <= i < |r.leaves| ensures ScopeIsCanonical(r.leaves[i]) {
      assert IsFanLeaf(r.leaves[i], CHAIN + 1 + i, []);
      NullScope(r.leaves[i]);
    }
  }

  lemma CompiledText(env: Env, rootId: string, nodes: seq<Node>, registry: Registry, limits: Limits)
    requires Compile(env, rootId, nodes, registry, limits).Ready?
    ensures var r := Compile(env, rootId, nodes, registry, limits);
      r.canonical == Freeze(env, ManifestText(r.leaves))
  {
    hide Identifier, Visit, ManifestText, IndexNodes;
  }

  lemma NoCandidates(env: Env)
    requires KeepsNames(env)
    ensures NormalRegistry(env, map[])
  {
  }

  lemma SettingEnv(env: Env, registry: Registry)
    requires KeepsNames(env)
    ensures var s := ChainSetting(env, registry);
      s.env == env && s.registry == registry && s.limits.maxDepth == ABSOLUTE_MAX_DEPTH
      && s.limits.maxNodes == 256 && s.limits.maxLeaves == ABSOLUTE_MAX_LEAVES
  {
    hide IndexNodes, NodesFrom;
  }

  lemma NullScope(leaf: LeafAction)
    requires leaf.ownerAuthority.normalizedScope.bytes == "null"
    ensures ScopeIsCanonical(leaf)
  {
    assert CanonicalText(Null) == Some("null");
    CanonicalTextIsCanonical(Null, "null");
  }

  lemma ChainIdsDistinct(leaves: seq<LeafAction>)
    requires |leaves| == FAN && forall j :: 0 <= j < FAN ==> leaves[j].logicalActionId == Id(CHAIN + 1 + j)
    ensures Distinct(LogicalIds(leaves))
  {
    forall i, j | 0 <= i < j < FAN ensures LogicalIds(leaves)[i] != LogicalIds(leaves)[j] {
      IdsDiffer(CHAIN + 1 + i, CHAIN + 1 + j);
    }
  }

  lemma ChainRegistryIsNormal(env: Env, registry: Registry)
    requires KeepsNames(env)
    requires IsChainRegistry(registry)
    ensures NormalRegistry(env, registry)
  {
    hide NormalizedDescriptor, NormalIdentifier, NormalDigest;
    KeptNames(env);
    forall d, i | d in registry && 0 <= i < |registry[d]| ensures NormalStep(env, StepFor(d, registry[d][i])) {
      var k: nat :| k < CHAIN && d == ShellAt(k);
      ShellIsNormal(env, k);
      ShellIsNormal(env, k + 1);
    }
  }

  lemma ChainIsTooLong(env: Env, s: Setting, x: Expansion, leaves: seq<LeafAction>)
    requires KeepsNames(env)
    requires s.env == env && env.Valid() && NormalRegistry(env, s.registry)
    requires Expands(s, Id(0), x) && Height(x) <= ABSOLUTE_MAX_DEPTH && Flatten(env, x, []) == Some(leaves)
    requires |leaves| == FAN && forall j :: 0 <= j < FAN ==> leaves[j].resolutionPath == ChainPath(0)
    ensures |ManifestText(leaves)| > MAX_PERSISTED_MANIFEST_BYTES
  {
    hide ManifestText, NormalLeaf, NormalRegistry, Expands, Flatten, Height, PathCommandBytes, LeafText, ChainPath;
    FlattenIsNormal(s, Id(0), x, []);
    ChainCommands(0);
    var texts, each := Map(CanonicalBytesOf, leaves), CHAIN * (6 * MAX_CANONICAL_STRING_BYTES);
    forall i | 0 <= i < |texts| ensures each <= |texts[i]| {
      assert leaves[i] in leaves;
      LeafLength(env, leaves[i]);
      SealedBytes(env, leaves[i]);
    }
    TotalLengthAtLeast(texts, each);
    ManifestLength(leaves);
  }
}
