// The compiler as the program runs it: one object whose fields every visit updates.

module DispatchCompiler {
  import opened Wrappers
  import opened Ordering
  import opened Manifest
  import opened Dispatch
  import opened DispatchLaws

  class Compiler {
    const setting: Setting
    var visitedNodes: nat
    var leaves: seq<LeafAction>
    var active: set<string>
    var logicalActionIds: set<string>
    var resolutionPath: seq<Step>

    constructor (setting: Setting)
      ensures this.setting == setting
      ensures Progress() == NOTHING_VISITED && active == {} && resolutionPath == []
    {
      this.setting := setting;
      visitedNodes, leaves, active, logicalActionIds, resolutionPath := 0, [], {}, {}, [];
    }

    function Progress(): Dispatch.Progress
      reads this
    {
      Dispatch.Progress(visitedNodes, leaves, logicalActionIds)
    }

    // What the visit specification says of a method that ran to this state with this result: on
    // success the state is what it predicts, on a pause the reason is.
    ghost predicate Agrees(outcome: Outcome, reason: Option<Reason>)
      reads this
    {
      match reason
      case None => outcome == Done(Progress())
      case Some(why) => outcome == Paused(why)
    }

    method Visit(nodeRef: string, depth: nat) returns (reason: Option<Reason>)
      modifies this
      ensures Agrees(Dispatch.Visit(setting, nodeRef, depth, old(active), old(resolutionPath), old(Progress())), reason)
      ensures active == old(active) && resolutionPath == old(resolutionPath)
      decreases Remaining(setting, depth), 3
    {
      hide Identifier, CanonicalLeaf, NormalizedDescriptor;
      if depth > setting.limits.maxDepth {
        return Some(DepthLimitExceeded(setting.limits.maxDepth));
      }
      if visitedNodes >= setting.limits.maxNodes {
        return Some(NodeLimitExceeded(setting.limits.maxNodes));
      }
      var nodeId := Identifier(setting.env, nodeRef);
      if nodeId.None? {
        return Some(EmptyNodeIdentity);
      }
      if nodeId.value in active {
        return Some(CycleDetected(nodeId.value));
      }
      active := active + {nodeId.value};
      visitedNodes := visitedNodes + 1;
      reason := VisitPresent(nodeId.value, depth);
      active := active - {nodeId.value};
    }

    method VisitPresent(nodeId: string, depth: nat) returns (reason: Option<Reason>)
      requires depth <= setting.limits.maxDepth
      modifies this
      ensures Agrees(Dispatch.VisitPresent(setting, nodeId, depth, old(active), old(resolutionPath), old(Progress())), reason)
      ensures active == old(active) && resolutionPath == old(resolutionPath)
      decreases Remaining(setting, depth), 2
    {
      hide Identifier, CanonicalLeaf, NormalizedDescriptor;
      var action := ActionOf(setting, nodeId);
      if action.None? {
        return Some(MissingNode(nodeId));
      }
      match action.value {
        case ResolvedLeaf(leaf) =>
          reason := VisitLeaf(nodeId, leaf);
        case Composite(children) =>
          if children == [] {
            return Some(EmptyComposite(nodeId));
          }
          reason := VisitComposite(children, depth);
        case Wrapper(descriptor) =>
          var normalized := NormalizedDescriptor(setting.env, descriptor);
          if normalized.None? {
            return Some(InvalidLeaf(nodeId));
          }
          reason := VisitExpansion(nodeId, normalized.value, depth);
      }
    }

    method VisitLeaf(nodeId: string, input: LeafInput) returns (reason: Option<Reason>)
      modifies this
      ensures Agrees(Dispatch.VisitLeaf(setting, nodeId, input, old(resolutionPath), old(Progress())), reason)
      ensures active == old(active) && resolutionPath == old(resolutionPath)
    {
      hide CanonicalLeaf;
      if |leaves| >= setting.limits.maxLeaves {
        return Some(LeafLimitExceeded(setting.limits.maxLeaves));
      }
      var leaf := CanonicalLeaf(setting.env, nodeId, input, resolutionPath);
      if leaf.None? {
        return Some(InvalidLeaf(nodeId));
      }
      if leaf.value.logicalActionId in logicalActionIds {
        return Some(DuplicateLogicalActionIdentity(leaf.value.logicalActionId));
      }
      logicalActionIds := logicalActionIds + {leaf.value.logicalActionId};
      leaves := leaves + [leaf.value];
      return None;
    }

    method VisitComposite(children: seq<string>, depth: nat) returns (reason: Option<Reason>)
      requires depth <= setting.limits.maxDepth
      modifies this
      ensures Agrees(VisitChildren(setting, children, depth, old(active), old(resolutionPath), old(Progress())), reason)
      ensures active == old(active) && resolutionPath == old(resolutionPath)
      decreases Remaining(setting, depth), 1
    {
      hide Identifier, CanonicalLeaf, NormalizedDescriptor, Dispatch.Visit;
      for i := 0 to |children|
        invariant active == old(active) && resolutionPath == old(resolutionPath)
        invariant VisitChildren(setting, children, depth, active, resolutionPath, old(Progress()))
               == VisitChildren(setting, children[i..], depth, active, resolutionPath, Progress())
      {
        assert children[i..][0] == children[i] && children[i..][1..] == children[i + 1..];
        reason := Visit(children[i], depth + 1);
        if reason.Some? {
          return reason;
        }
      }
      return None;
    }

    method VisitExpansion(nodeId: string, descriptor: Descriptor, depth: nat) returns (reason: Option<Reason>)
      requires depth <= setting.limits.maxDepth
      modifies this
      ensures Agrees(
        if descriptor !in setting.registry then Paused(Unresolved(KindOfDescriptor(descriptor), nodeId))
        else if |setting.registry[descriptor]| != 1 then Paused(Ambiguous(KindOfDescriptor(descriptor), nodeId))
        else
          var target := setting.registry[descriptor][0];
          Dispatch.Visit(setting, target.targetNodeId, depth + 1, old(active),
                         old(resolutionPath) + [StepFor(descriptor, target)], old(Progress())),
        reason)
      ensures active == old(active) && resolutionPath == old(resolutionPath)
      decreases Remaining(setting, depth), 1
    {
      if descriptor !in setting.registry {
        return Some(Unresolved(KindOfDescriptor(descriptor), nodeId));
      }
      var candidates := setting.registry[descriptor];
      if |candidates| != 1 {
        return Some(Ambiguous(KindOfDescriptor(descriptor), nodeId));
      }
      resolutionPath := resolutionPath + [StepFor(descriptor, candidates[0])];
      reason := Visit(candidates[0].targetNodeId, depth + 1);
      resolutionPath := resolutionPath[..|resolutionPath| - 1];
    }
  }

  // compile_dispatch_with_limits: index the nodes, visit the root, print the leaves.
  method CompileDispatch(env: Env, rootId: string, nodes: seq<Node>, registry: Registry, limits: Limits)
    returns (r: Compilation)
    ensures r == Compile(env, rootId, nodes, registry, limits)
  {
    hide Identifier, CanonicalLeaf, NormalizedDescriptor, ManifestText, Dispatch.Visit;
    var root := Identifier(env, rootId);
    if root.None? {
      return ResolutionRequired(EmptyRoot);
    }
    var lookup: map<string, nat> := map[];
    for index := 0 to |nodes|
      invariant IndexNodes(env, nodes, index) == Index(lookup)
    {
      var nodeId := Identifier(env, nodes[index].nodeId);
      if nodeId.None? {
        RefusalLasts(env, nodes, index + 1, |nodes|);
        return ResolutionRequired(EmptyNodeIdentity);
      }
      if nodeId.value in lookup {
        RefusalLasts(env, nodes, index + 1, |nodes|);
        return ResolutionRequired(DuplicateNodeIdentity(nodeId.value));
      }
      lookup := lookup[nodeId.value := index];
    }
    var compiler := new Compiler(Setting(env, nodes, lookup, registry, Clamped(limits)));
    var reason := compiler.Visit(root.value, 0);
    if reason.Some? {
      return ResolutionRequired(reason.value);
    }
    if compiler.leaves == [] {
      return ResolutionRequired(InvalidLeaf(root.value));
    }
    return Ready(compiler.leaves, Freeze(env, ManifestText(compiler.leaves)));
  }

  lemma {:induction false} RefusalLasts(env: Env, nodes: seq<Node>, m: nat, n: nat)
    requires m <= n <= |nodes| && IndexNodes(env, nodes, m).Refused?
    ensures IndexNodes(env, nodes, n) == IndexNodes(env, nodes, m)
  {
    hide Identifier;
    if m < n { RefusalLasts(env, nodes, m, n - 1); }
  }

  // ---------------------------------------------------------------- the resolution registry

  // ServerResolutionRegistry::try_new
  method TryNewRegistry(env: Env, entries: seq<RegistryEntry>) returns (r: Option<Registry>)
    ensures r.Some? <==> ValidEntries(env, entries)
    ensures r.Some? ==> Holds(r.value, env, entries)
  {
    hide NormalizedEntry, Candidates, ValidEntries, Holds;
    var registry: Registry := map[];
    EmptyRegistry(env);
    for i := 0 to |entries|
      invariant ValidEntries(env, entries[..i]) && Holds(registry, env, entries[..i])
    {
      var normalized := NormalizedEntry(env, entries[i]);
      if normalized.None? {
        InvalidEntry(env, entries, i);
        return None;
      }
      var RegistryEntry(descriptor, target) := normalized.value;
      var candidates := if descriptor in registry then registry[descriptor] else [];
      if target in candidates {
        RepeatedEntry(env, registry, entries, i);
        return None;
      }
      AddedEntry(env, registry, entries[..i], entries[i]);
      assert entries[..i + 1] == entries[..i] + [entries[i]];
      registry := registry[descriptor := candidates + [target]];
    }
    assert entries[..|entries|] == entries;
    return Some(registry);
  }

  lemma EmptyRegistry(env: Env)
    ensures ValidEntries(env, []) && Holds(map[], env, [])
  {
  }

  lemma InvalidEntry(env: Env, entries: seq<RegistryEntry>, i: nat)
    requires i < |entries| && NormalizedEntry(env, entries[i]).None?
    ensures !ValidEntries(env, entries)
  {
  }

  lemma RepeatedEntry(env: Env, registry: Registry, entries: seq<RegistryEntry>, i: nat)
    requires i < |entries| && Holds(registry, env, entries[..i]) && NormalizedEntry(env, entries[i]).Some?
    requires var e := NormalizedEntry(env, entries[i]).value;
      e.descriptor in registry && e.target in registry[e.descriptor]
    ensures !ValidEntries(env, entries)
  {
    hide NormalizedEntry, Candidates;
    var RegistryEntry(d, target) := NormalizedEntry(env, entries[i]).value;
    CandidatesOfOne(env, entries[i]);
    CandidatesConcat(env, entries[..i], [entries[i]]);
    CandidatesConcat(env, entries[..i] + [entries[i]], entries[i + 1..]);
    assert entries == entries[..i] + [entries[i]] + entries[i + 1..];
    DistinctSnoc(registry[d], target);
    DistinctConcat(registry[d] + [target], Candidates(env, entries[i + 1..], d));
    assert !Distinct(Candidates(env, entries, d));
  }

  lemma AddedEntry(env: Env, registry: Registry, entries: seq<RegistryEntry>, entry: RegistryEntry)
    requires ValidEntries(env, entries) && Holds(registry, env, entries) && NormalizedEntry(env, entry).Some?
    requires var e := NormalizedEntry(env, entry).value;
      e.descriptor in registry ==> e.target !in registry[e.descriptor]
    ensures var e := NormalizedEntry(env, entry).value;
      var candidates := if e.descriptor in registry then registry[e.descriptor] else [];
      && ValidEntries(env, entries + [entry])
      && Holds(registry[e.descriptor := candidates + [e.target]], env, entries + [entry])
  {
    hide NormalizedEntry, Candidates;
    var RegistryEntry(d, target) := NormalizedEntry(env, entry).value;
    CandidatesOfOne(env, entry);
    CandidatesConcat(env, entries, [entry]);
    DistinctSnoc(Candidates(env, entries, d), target);
    assert forall other :: other != d ==> Candidates(env, entries + [entry], other) == Candidates(env, entries, other);
  }

  ghost function OwnCandidate(env: Env, e: RegistryEntry, d: Descriptor): seq<Target> {
    match NormalizedEntry(env, e)
    case Some(n) => if n.descriptor == d then [n.target] else []
    case None => []
  }

  lemma CandidatesOfOne(env: Env, e: RegistryEntry)
    ensures forall d :: Candidates(env, [e], d) == OwnCandidate(env, e, d)
  {
    hide NormalizedEntry;
    assert [e][1..] == [];
    assert forall d :: Candidates(env, [], d) == [];
  }

  lemma {:induction false} CandidatesConcat(env: Env, entries: seq<RegistryEntry>, more: seq<RegistryEntry>)
    ensures forall d :: Candidates(env, entries + more, d) == Candidates(env, entries, d) + Candidates(env, more, d)
  {
    hide NormalizedEntry;
    if entries == [] {
      assert entries + more == more;
    } else {
      CandidatesConcat(env, entries[1..], more);
      assert (entries + more)[1..] == entries[1..] + more;
    }
  }

  // Listing the entries in another order gives an equivalent registry, or refuses both.
  lemma {:induction false} RegistryIgnoresEntryOrder(
      env: Env, entries: seq<RegistryEntry>, others: seq<RegistryEntry>, registry: Registry, reordered: Registry)
    requires multiset(entries) == multiset(others)
    requires Holds(registry, env, entries) && Holds(reordered, env, others)
    ensures ValidEntries(env, entries) <==> ValidEntries(env, others)
    ensures EquivalentRegistries(registry, reordered)
  {
    hide NormalizedEntry, Candidates;
    forall d ensures multiset(Candidates(env, entries, d)) == multiset(Candidates(env, others, d)) {
      CandidatesPermute(env, entries, others, d);
    }
    forall d ensures Distinct(Candidates(env, entries, d)) <==> Distinct(Candidates(env, others, d)) {
      PermutationKeepsDistinct(Candidates(env, entries, d), Candidates(env, others, d));
    }
    forall e ensures e in entries <==> e in others { SameElements(entries, others, e); }
    ValidIsForEach(env, entries);
    ValidIsForEach(env, others);
    forall d ensures d in registry <==> d in reordered {
      assert |multiset(Candidates(env, entries, d))| == |multiset(Candidates(env, others, d))|;
    }
  }

  lemma ValidIsForEach(env: Env, entries: seq<RegistryEntry>)
    ensures (forall i :: 0 <= i < |entries| ==> NormalizedEntry(env, entries[i]).Some?)
      <==> forall e :: e in entries ==> NormalizedEntry(env, e).Some?
  {
    hide NormalizedEntry;
    if forall e :: e in entries ==> NormalizedEntry(env, e).Some? {
      forall i | 0 <= i < |entries| ensures NormalizedEntry(env, entries[i]).Some? { assert entries[i] in entries; }
    }
  }

  lemma {:induction false} CandidatesPermute(env: Env, entries: seq<RegistryEntry>, others: seq<RegistryEntry>, d: Descriptor)
    requires multiset(entries) == multiset(others)
    ensures multiset(Candidates(env, entries, d)) == multiset(Candidates(env, others, d))
  {
    hide NormalizedEntry, Candidates;
    if entries == [] {
      assert |others| == |multiset(others)| == 0;
      assert entries == others;
    } else {
      SameElements(entries, others, entries[0]);
      var j :| 0 <= j < |others| && others[j] == entries[0];
      RemoveAtMultiset(others, j);
      TailMultiset(entries);
      CandidatesPermute(env, entries[1..], RemoveAt(others, j), d);
      CandidatesWithout(env, entries, 0, d);
      CandidatesWithout(env, others, j, d);
      assert RemoveAt(entries, 0) == entries[1..];
    }
  }

  lemma CandidatesWithout(env: Env, entries: seq<RegistryEntry>, j: nat, d: Descriptor)
    requires j < |entries|
    ensures multiset(Candidates(env, entries, d))
         == multiset(Candidates(env, [entries[j]], d)) + multiset(Candidates(env, RemoveAt(entries, j), d))
  {
    hide Candidates;
    CandidatesConcat(env, entries[..j], entries[j + 1..]);
    CandidatesConcat(env, entries[..j], [entries[j]]);
    CandidatesConcat(env, entries[..j] + [entries[j]], entries[j + 1..]);
    assert entries == entries[..j] + [entries[j]] + entries[j + 1..];
  }

  // Whatever a registry was built from is normalized.
  lemma BuiltRegistryIsNormal(env: Env, entries: seq<RegistryEntry>, registry: Registry)
    requires env.Valid() && Holds(registry, env, entries)
    ensures NormalRegistry(env, registry)
  {
    hide NormalStep, NormalizedDescriptor;
    forall d, i | d in registry && 0 <= i < |registry[d]| && NormalizedDescriptor(env, d) == Some(d)
      ensures NormalStep(env, StepFor(d, registry[d][i]))
    {
      CandidateIsNormal(env, entries, d, registry[d][i]);
    }
  }

  lemma {:induction false} CandidateIsNormal(env: Env, entries: seq<RegistryEntry>, d: Descriptor, t: Target)
    requires env.Valid() && t in Candidates(env, entries, d) && NormalizedDescriptor(env, d) == Some(d)
    ensures NormalStep(env, StepFor(d, t))
  {
    hide NormalizedDescriptor, ParseDigest, IsHexDigest;
    if t in Candidates(env, entries[1..], d) {
      CandidateIsNormal(env, entries[1..], d, t);
    } else {
      DigestIsNormal(env, entries[0].target.resolutionMaterialDigest);
    }
  }
}
