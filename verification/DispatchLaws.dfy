// Exactly when a dispatch compiles, to what, and what the result does not depend on.

module DispatchLaws {
  import opened Wrappers
  import opened Ordering
  import opened CanonicalValue
  import opened Manifest
  import opened ManifestRestore
  import opened ManifestRebind
  import opened ManifestLaws
  import opened Dispatch
  import opened DispatchExpansion

  // ---------------------------------------------------------------- node identities

  // Every node has an identity and no two normalize to the same one.
  ghost predicate UniqueNodes(env: Env, nodes: seq<Node>) {
    && (forall i :: 0 <= i < |nodes| ==> Identifier(env, nodes[i].nodeId).Some?)
    && (forall i, j :: 0 <= i < j < |nodes| ==> Identifier(env, nodes[i].nodeId) != Identifier(env, nodes[j].nodeId))
  }

  lemma {:induction false} IndexedNodes(env: Env, nodes: seq<Node>, n: nat)
    requires n <= |nodes|
    ensures var r := IndexNodes(env, nodes, n);
      && (r.Index? <==> UniqueNodes(env, nodes[..n]))
      && (r.Index? ==> forall id :: id in r.lookup ==>
            r.lookup[id] < n && Identifier(env, nodes[r.lookup[id]].nodeId) == Some(id))
      && (r.Index? ==> forall i :: 0 <= i < n ==>
            Identifier(env, nodes[i].nodeId).Some? && Identifier(env, nodes[i].nodeId).value in r.lookup)
      && (r.Refused? ==> r.reason.EmptyNodeIdentity? || r.reason.DuplicateNodeIdentity?)
  {
    hide Identifier;
    if n > 0 {
      IndexedNodes(env, nodes, n - 1);
      assert nodes[..n][..n - 1] == nodes[..n - 1];
      UniquePrefix(env, nodes[..n], n - 1);
      var r := IndexNodes(env, nodes, n - 1);
      if r.Index? && Identifier(env, nodes[n - 1].nodeId).Some? {
        var id := Identifier(env, nodes[n - 1].nodeId).value;
        if id in r.lookup {
          assert nodes[..n][r.lookup[id]] == nodes[r.lookup[id]];
          assert nodes[..n][n - 1] == nodes[n - 1];
        }
      }
    }
  }

  lemma UniquePrefix(env: Env, nodes: seq<Node>, n: nat)
    requires n <= |nodes|
    ensures UniqueNodes(env, nodes) ==> UniqueNodes(env, nodes[..n])
  {
    hide Identifier;
  }

  ghost function SettingOf(env: Env, nodes: seq<Node>, registry: Registry, limits: Limits): Setting {
    var lookup := match IndexNodes(env, nodes, |nodes|) case Index(m) => m case Refused(_) => map[];
    Setting(env, nodes, lookup, registry, Clamped(limits))
  }

  // ---------------------------------------------------------------- exactly when Ready

  // A finite expansion of the root within the limits, with valid leaves and distinct identities.
  ghost predicate Admissible(s: Setting, root: string, x: Expansion) {
    && Expands(s, root, x)
    && Height(x) <= s.limits.maxDepth
    && |NodeIds(x)| <= s.limits.maxNodes
    && Flatten(s.env, x, []).Some?
    && |Flatten(s.env, x, []).value| <= s.limits.maxLeaves
    && Distinct(LogicalIds(Flatten(s.env, x, []).value))
  }

  lemma AdmissibleIsExplained(s: Setting, root: string, x: Expansion)
    ensures Admissible(s, root, x) <==>
      Expands(s, root, x) && exists q :: Explains(s, x, 0, [], NOTHING_VISITED, q)
  {
    hide Expands, Flatten, Height, NodeIds;
    if Admissible(s, root, x) {
      assert Explains(s, x, 0, [], NOTHING_VISITED, After(NOTHING_VISITED, |NodeIds(x)|, Flatten(s.env, x, []).value));
    }
  }

  lemma {:induction false} FlattenIsNotEmpty(s: Setting, ref: string, x: Expansion, path: seq<Step>)
    requires Expands(s, ref, x) && Flatten(s.env, x, path).Some?
    ensures Flatten(s.env, x, path).value != []
  {
    HasLeaf(s, ref, x);
    FlattenIds(s.env, x, path);
  }

  // Ready exactly when the root and the nodes are well named and the root has an admissible
  // expansion; the leaves are its flattening, in order, whatever cycles the rest of the graph has.
  lemma ReadyExactly(env: Env, rootId: string, nodes: seq<Node>, registry: Registry, limits: Limits)
    requires env.Valid()
    ensures var r := Compile(env, rootId, nodes, registry, limits);
      r.Ready? <==>
        && Identifier(env, rootId).Some?
        && UniqueNodes(env, nodes)
        && exists x :: Admissible(SettingOf(env, nodes, registry, limits), rootId, x)
    ensures var r := Compile(env, rootId, nodes, registry, limits);
      r.Ready? ==> forall x :: Admissible(SettingOf(env, nodes, registry, limits), rootId, x) ==>
        && r.leaves == Flatten(env, x, []).value
        && r.canonical == Freeze(env, ManifestText(r.leaves))
        && Distinct(NodeIds(x))
  {
    hide Identifier, ManifestText, Expands, Flatten, Height, NodeIds, Visit;
    IndexedNodes(env, nodes, |nodes|);
    assert nodes[..|nodes|] == nodes;
    if Identifier(env, rootId).Some? && UniqueNodes(env, nodes) {
      var s, root := SettingOf(env, nodes, registry, limits), Identifier(env, rootId).value;
      RootIsNormal(s, rootId);
      var outcome := Visit(s, root, 0, {}, [], NOTHING_VISITED);
      if outcome.Done? {
        var x := VisitSound(s, root, 0, {}, [], NOTHING_VISITED);
        AdmissibleIsExplained(s, root, x);
        FlattenIsNotEmpty(s, root, x, []);
        assert Admissible(s, rootId, x);
      }
      forall x | Admissible(s, rootId, x)
        ensures outcome.Done? && outcome.progress.leaves == Flatten(env, x, []).value
        ensures outcome.progress.leaves != [] && Distinct(NodeIds(x))
      {
        AdmissibleVisit(s, root, x);
      }
    }
  }

  lemma RootIsNormal(s: Setting, rootId: string)
    requires s.env.Valid() && Identifier(s.env, rootId).Some?
    ensures forall x :: Expands(s, rootId, x) <==> Expands(s, Identifier(s.env, rootId).value, x)
  {
    hide Identifier, ExpandsAll;
    IdentifierIsNormal(s.env, rootId);
  }

  lemma AdmissibleVisit(s: Setting, root: string, x: Expansion)
    requires s.env.Valid() && Admissible(s, root, x)
    ensures var leaves := Flatten(s.env, x, []).value;
      && Visit(s, root, 0, {}, [], NOTHING_VISITED) == Done(After(NOTHING_VISITED, |NodeIds(x)|, leaves))
      && NOTHING_VISITED.leaves + leaves == leaves != []
      && Distinct(NodeIds(x))
  {
    hide Identifier, Expands, Flatten, Height, NodeIds, Visit, LeafIds;
    var leaves := Flatten(s.env, x, []).value;
    var q := After(NOTHING_VISITED, |NodeIds(x)|, leaves);
    assert Explains(s, x, 0, [], NOTHING_VISITED, q);
    VisitComplete(s, root, x, 0, {}, [], NOTHING_VISITED, q);
    FlattenIsNotEmpty(s, root, x, []);
    FlattenIds(s.env, x, []);
    NodesAreDistinct(s, root, x);
  }

  // ---------------------------------------------------------------- what the result depends on

  // Two settings no visit can tell apart.
  ghost predicate SameMeaning(s: Setting, t: Setting) {
    && s.env == t.env && s.limits == t.limits
    && (forall id :: ActionOf(s, id) == ActionOf(t, id))
    && EquivalentRegistries(s.registry, t.registry)
  }

  // The same candidates for every descriptor, in whatever order.
  ghost predicate EquivalentRegistries(r: Registry, q: Registry) {
    forall d :: (d in r <==> d in q) && (d in r ==> multiset(r[d]) == multiset(q[d]))
  }

  lemma {:induction false} VisitFollowsMeaning(
      s: Setting, t: Setting, ref: string, depth: nat, active: set<string>, path: seq<Step>, p: Progress)
    requires SameMeaning(s, t)
    ensures Visit(s, ref, depth, active, path, p) == Visit(t, ref, depth, active, path, p)
    decreases Remaining(s, depth), 2
  {
    hide Identifier, NormalizedDescriptor, CanonicalLeaf;
    if depth <= s.limits.maxDepth && p.visited < s.limits.maxNodes && Identifier(s.env, ref).Some? {
      var id := Identifier(s.env, ref).value;
      if id !in active && ActionOf(s, id).Some? {
        var p1 := p.(visited := p.visited + 1);
        match ActionOf(s, id).value {
          case ResolvedLeaf(_) =>
          case Composite(children) => ChildrenFollowMeaning(s, t, children, depth, active + {id}, path, p1);
          case Wrapper(descriptor) =>
            if NormalizedDescriptor(s.env, descriptor).Some? {
              var d := NormalizedDescriptor(s.env, descriptor).value;
              if d in s.registry {
                SameCandidates(s.registry[d], t.registry[d]);
                if |s.registry[d]| == 1 {
                  var target := s.registry[d][0];
                  VisitFollowsMeaning(s, t, target.targetNodeId, depth + 1, active + {id}, path + [StepFor(d, target)], p1);
                }
              }
            }
        }
      }
    }
  }

  lemma SameCandidates(a: seq<Target>, b: seq<Target>)
    requires multiset(a) == multiset(b)
    ensures |a| == |b| && (|a| == 1 ==> a == b)
  {
    assert |a| == |multiset(a)| == |multiset(b)| == |b|;
    if |a| == 1 { SameElements(a, b, a[0]); }
  }

  lemma {:induction false} ChildrenFollowMeaning(
      s: Setting, t: Setting, children: seq<string>, depth: nat, active: set<string>, path: seq<Step>, p: Progress)
    requires SameMeaning(s, t) && depth <= s.limits.maxDepth
    ensures VisitChildren(s, children, depth, active, path, p) == VisitChildren(t, children, depth, active, path, p)
    decreases Remaining(s, depth), 0, |children|
  {
    hide SameMeaning;
    assert s.limits == t.limits by { AgreeOnLimits(s, t); }
    if children != [] {
      VisitFollowsMeaning(s, t, children[0], depth + 1, active, path, p);
      match Visit(s, children[0], depth + 1, active, path, p) {
        case Paused(_) =>
        case Done(q) => ChildrenFollowMeaning(s, t, children[1..], depth, active, path, q);
      }
    }
  }

  lemma AgreeOnLimits(s: Setting, t: Setting)
    requires SameMeaning(s, t)
    ensures s.limits == t.limits
  {
  }

  lemma ActionsIgnoreNodeOrder(s: Setting, t: Setting)
    requires s.env == t.env && multiset(s.nodes) == multiset(t.nodes)
    requires UniqueNodes(s.env, s.nodes)
    requires IndexNodes(s.env, s.nodes, |s.nodes|) == Index(s.lookup)
    requires IndexNodes(t.env, t.nodes, |t.nodes|) == Index(t.lookup)
    ensures forall id :: ActionOf(s, id) == ActionOf(t, id)
  {
    hide Identifier;
    IndexedNodes(s.env, s.nodes, |s.nodes|);
    IndexedNodes(t.env, t.nodes, |t.nodes|);
    forall n ensures n in s.nodes <==> n in t.nodes { SameElements(s.nodes, t.nodes, n); }
    forall id ensures ActionOf(s, id) == ActionOf(t, id) {
      FoundInOther(s, t, id);
      FoundInOther(t, s, id);
      if id in s.lookup {
        var m := t.nodes[t.lookup[id]];
        assert m in t.nodes && m in s.nodes;
        var k :| 0 <= k < |s.nodes| && s.nodes[k] == m;
        SamePosition(s.env, s.nodes, k, s.lookup[id]);
      }
    }
  }

  lemma FoundInOther(s: Setting, t: Setting, id: string)
    requires s.env == t.env && forall n :: n in s.nodes ==> n in t.nodes
    requires IndexNodes(s.env, s.nodes, |s.nodes|) == Index(s.lookup)
    requires IndexNodes(t.env, t.nodes, |t.nodes|) == Index(t.lookup)
    ensures id in s.lookup ==> id in t.lookup
  {
    hide Identifier;
    IndexedNodes(s.env, s.nodes, |s.nodes|);
    IndexedNodes(t.env, t.nodes, |t.nodes|);
    if id in s.lookup {
      var n := s.nodes[s.lookup[id]];
      assert n in s.nodes && n in t.nodes;
      var j :| 0 <= j < |t.nodes| && t.nodes[j] == n;
    }
  }

  lemma SamePosition(env: Env, nodes: seq<Node>, i: nat, j: nat)
    requires UniqueNodes(env, nodes) && i < |nodes| && j < |nodes|
    requires Identifier(env, nodes[i].nodeId) == Identifier(env, nodes[j].nodeId)
    ensures i == j
  {
    hide Identifier;
  }

  lemma UniqueNodesIgnoreOrder(env: Env, nodes: seq<Node>, others: seq<Node>)
    requires multiset(nodes) == multiset(others)
    ensures UniqueNodes(env, nodes) <==> UniqueNodes(env, others)
  {
    var named := (n: Node) => Identifier(env, n.nodeId);
    MapPermutes(named, nodes, others);
    PermutationKeepsDistinct(Map(named, nodes), Map(named, others));
    forall o ensures o in Map(named, nodes) <==> o in Map(named, others) {
      SameElements(Map(named, nodes), Map(named, others), o);
    }
    UniqueAsMap(env, nodes, named);
    UniqueAsMap(env, others, named);
  }

  lemma UniqueAsMap(env: Env, nodes: seq<Node>, named: Node -> Option<string>)
    requires forall n :: named(n) == Identifier(env, n.nodeId)
    ensures UniqueNodes(env, nodes) <==> Distinct(Map(named, nodes)) && forall o :: o in Map(named, nodes) ==> o.Some?
  {
    hide Identifier;
    var names := Map(named, nodes);
    if Distinct(names) && forall o :: o in names ==> o.Some? {
      forall i | 0 <= i < |nodes| ensures Identifier(env, nodes[i].nodeId).Some? { assert names[i] in names; }
      forall i, j | 0 <= i < j < |nodes| ensures Identifier(env, nodes[i].nodeId) != Identifier(env, nodes[j].nodeId) {
        assert names[i] != names[j];
      }
    }
  }

  // The order of the nodes and of the registry's candidates never changes the result; only when two
  // nodes share an identity does it decide which of them the pause names.
  lemma CompileIgnoresOrder(
      env: Env, rootId: string, nodes: seq<Node>, others: seq<Node>, registry: Registry, reordered: Registry, limits: Limits)
    requires multiset(nodes) == multiset(others) && EquivalentRegistries(registry, reordered)
    ensures UniqueNodes(env, nodes) || Identifier(env, rootId).None? ==>
      Compile(env, rootId, nodes, registry, limits) == Compile(env, rootId, others, reordered, limits)
    ensures Compile(env, rootId, nodes, registry, limits).Ready? ==>
      Compile(env, rootId, nodes, registry, limits) == Compile(env, rootId, others, reordered, limits)
    ensures !UniqueNodes(env, nodes) ==> Compile(env, rootId, others, reordered, limits).ResolutionRequired?
  {
    hide Identifier, ManifestText, Visit;
    UniqueNodesIgnoreOrder(env, nodes, others);
    IndexedNodes(env, nodes, |nodes|);
    IndexedNodes(env, others, |others|);
    assert nodes[..|nodes|] == nodes && others[..|others|] == others;
    if UniqueNodes(env, nodes) && Identifier(env, rootId).Some? {
      var s, t := SettingOf(env, nodes, registry, limits), SettingOf(env, others, reordered, limits);
      ActionsIgnoreNodeOrder(s, t);
      VisitFollowsMeaning(s, t, Identifier(env, rootId).value, 0, {}, [], NOTHING_VISITED);
    }
  }

  // ---------------------------------------------------------------- compiled leaves can be persisted

  ghost predicate NormalRegistry(env: Env, registry: Registry) {
    forall d, i :: d in registry && 0 <= i < |registry[d]| && NormalizedDescriptor(env, d) == Some(d) ==>
      NormalStep(env, StepFor(d, registry[d][i]))
  }

  lemma CanonicalEvidenceIsNormal(env: Env, e: Evidence)
    requires env.Valid() && CanonicalEvidence(env, e).Some?
    ensures NormalEvidence(env, CanonicalEvidence(env, e).value)
  {
  }

  lemma OptionalTextsAreNormal(env: Env, value: Option<string>)
    requires env.Valid()
    ensures CanonicalOptionalIdentifier(env, value).Some? ==>
      NormalOptional(env, CanonicalOptionalIdentifier(env, value).value)
    ensures CanonicalOptionalDigest(env, value).Some? ==>
      NormalOptionalDigest(env, CanonicalOptionalDigest(env, value).value)
  {
    hide ParseDigest, IsHexDigest;
    if value.Some? && ParseDigest(env, value.value).Some? { DigestIsNormal(env, value.value); }
  }

  lemma TextsAreNormal(env: Env)
    requires env.Valid()
    ensures forall s :: Identifier(env, s).Some? ==> NormalIdentifier(env, Identifier(env, s).value)
    ensures forall s :: ParseDigest(env, s).Some? ==> NormalDigest(env, ParseDigest(env, s).value)
  {
    hide ParseDigest, Identifier, IsHexDigest;
    forall s | Identifier(env, s).Some? ensures NormalIdentifier(env, Identifier(env, s).value) { IdentifierIsNormal(env, s); }
    forall s | ParseDigest(env, s).Some? ensures NormalDigest(env, ParseDigest(env, s).value) { DigestIsNormal(env, s); }
  }

  lemma CanonicalAuthorityIsNormal(env: Env, input: VerifiedAuthority)
    requires env.Valid() && CanonicalAuthority(env, input).Some?
    ensures NormalAuthority(env, CanonicalAuthority(env, input).value)
  {
    hide ParseDigest, Identifier, IsHexDigest, CanonicalEvidence, NormalEvidence, CanonicalOptionalIdentifier,
      CanonicalOptionalDigest, NormalOptional, NormalOptionalDigest, NormalIdentifier, NormalDigest;
    TextsAreNormal(env);
    CanonicalEvidenceIsNormal(env, input.ownerEvidence);
    OptionalTextsAreNormal(env, input.boundDecisionId);
    OptionalTextsAreNormal(env, input.boundManifestDigest);
    OptionalTextsAreNormal(env, input.boundChallengeNonceDigest);
  }

  lemma CanonicalLeafIsNormal(env: Env, nodeId: string, input: LeafInput, path: seq<Step>)
    requires env.Valid() && NormalIdentifier(env, nodeId) && |path| <= ABSOLUTE_MAX_DEPTH
    requires forall i :: 0 <= i < |path| ==> NormalStep(env, path[i])
    requires CanonicalLeaf(env, nodeId, input, path).Some?
    ensures NormalLeaf(env, CanonicalLeaf(env, nodeId, input, path).value)
  {
    hide ParseDigest, Identifier, IsHexDigest, NormalIdentifier, NormalDigest, NormalStep, NormalAuthority,
      CanonicalAuthority, CanonicalText, TargetsText, LeafText, IsCanonicalText, IsTargetsText,
      CanonicalOptionalDigest, NormalOptionalDigest;
    TextsAreNormal(env);
    CanonicalTextIsCanonical(input.operands, CanonicalText(input.operands).value);
    TargetsTextIsTargetsText(input.targets);
    OptionalTextsAreNormal(env, input.materialDigest);
    CanonicalAuthorityIsNormal(env, input.ownerAuthority);
    TextIgnoresCanonical(CanonicalLeaf(env, nodeId, input, path).value, Frozen("", ""));
  }

  lemma {:induction false} FlattenIsNormal(s: Setting, ref: string, x: Expansion, path: seq<Step>)
    requires s.env.Valid() && NormalRegistry(s.env, s.registry) && Expands(s, ref, x)
    requires |path| + Height(x) <= ABSOLUTE_MAX_DEPTH
    requires forall i :: 0 <= i < |path| ==> NormalStep(s.env, path[i])
    requires Flatten(s.env, x, path).Some?
    ensures forall leaf :: leaf in Flatten(s.env, x, path).value ==> NormalLeaf(s.env, leaf)
    decreases x, 1
  {
    hide NormalizedDescriptor, Identifier, CanonicalLeaf, NormalLeaf, NormalStep, NormalIdentifier;
    IdentifierIsNormal(s.env, ref);
    match ActionOf(s, x.id).value {
      case ResolvedLeaf(leaf) => CanonicalLeafIsNormal(s.env, x.id, leaf, path);
      case Composite(children) => FlattenAllIsNormal(s, children, x.children, path);
      case Wrapper(descriptor) =>
        WrapperStepIsNormal(s, descriptor, x.step);
        FlattenIsNormal(s, x.step.targetNodeId, x.child, path + [x.step]);
    }
  }

  lemma WrapperStepIsNormal(s: Setting, descriptor: Descriptor, step: Step)
    requires s.env.Valid() && NormalRegistry(s.env, s.registry)
    requires NormalizedDescriptor(s.env, descriptor) == Some(step.descriptor)
    requires UniqueTarget(s, step.descriptor) == Some(step)
    ensures NormalStep(s.env, step)
  {
    hide NormalizedDescriptor, NormalStep;
    RestoredDescriptor(s.env, descriptor);
  }

  lemma {:induction false} FlattenAllIsNormal(s: Setting, refs: seq<string>, xs: seq<Expansion>, path: seq<Step>)
    requires s.env.Valid() && NormalRegistry(s.env, s.registry) && ExpandsAll(s, refs, xs)
    requires |path| + HeightAll(xs) <= ABSOLUTE_MAX_DEPTH
    requires forall i :: 0 <= i < |path| ==> NormalStep(s.env, path[i])
    requires FlattenAll(s.env, xs, path).Some?
    ensures forall leaf :: leaf in FlattenAll(s.env, xs, path).value ==> NormalLeaf(s.env, leaf)
    decreases xs, 0
  {
    hide Expands, Flatten, Height, NormalLeaf, NormalStep;
    if xs != [] {
      FlattenIsNormal(s, refs[0], xs[0], path);
      FlattenAllIsNormal(s, refs[1..], xs[1..], path);
    }
  }

  // Every compiled manifest is made of normal leaves with distinct identities, so within the byte cap,
  // and when its authority scopes are canonical values, restoring and rebinding it with identity
  // bindings gives it back.
  lemma CompiledManifestRebindsToItself(
      env: Env, rootId: string, nodes: seq<Node>, registry: Registry, limits: Limits, bindings: seq<Binding>)
    requires env.Valid() && NormalRegistry(env, registry)
    requires Compile(env, rootId, nodes, registry, limits).Ready?
    ensures var r := Compile(env, rootId, nodes, registry, limits);
      && 0 < |r.leaves| <= ABSOLUTE_MAX_LEAVES
      && (forall i :: 0 <= i < |r.leaves| ==> NormalLeaf(env, r.leaves[i]))
      && Distinct(LogicalIds(r.leaves))
    ensures var r := Compile(env, rootId, nodes, registry, limits);
      (forall i :: 0 <= i < |r.leaves| ==> ScopeIsCanonical(r.leaves[i]))
      && |r.canonical.bytes| <= MAX_PERSISTED_MANIFEST_BYTES && IdentityBindings(r.leaves, bindings)
      ==> Rebind(env, r.canonical.bytes, r.canonical.digest, bindings)
          == Some(CanonicalManifest(r.leaves, r.canonical))
  {
    hide Identifier, ManifestText, Expands, Flatten, Height, NodeIds, Visit, NormalLeaf, NormalRegistry, Rebind,
      IdentityBindings, ScopeIsCanonical;
    ReadyExactly(env, rootId, nodes, registry, limits);
    var r := Compile(env, rootId, nodes, registry, limits);
    var s := SettingOf(env, nodes, registry, limits);
    var x :| Admissible(s, rootId, x);
    FlattenIsNormal(s, rootId, x, []);
    AdmissibleVisit(s, rootId, x);
    forall i | 0 <= i < |r.leaves| ensures NormalLeaf(env, r.leaves[i]) { assert r.leaves[i] in r.leaves; }
    if (forall i :: 0 <= i < |r.leaves| ==> ScopeIsCanonical(r.leaves[i]))
      && |r.canonical.bytes| <= MAX_PERSISTED_MANIFEST_BYTES && IdentityBindings(r.leaves, bindings)
    {
      RebindIdentity(env, r.leaves, bindings);
    }
  }
}
