// Why a dispatch is refused: what each reason tells about the nodes and the registry entries.
module DispatchReasons {
  import opened Wrappers
  import opened Manifest
  import opened Dispatch
  import opened DispatchExpansion
  import opened DispatchLaws
  import opened DispatchContents

  datatype Request = Request(env: Env, rootId: string, nodes: seq<Node>, entries: seq<RegistryEntry>, limits: Limits)

  // Which reference of each node is followed, from the root on.
  type Route = seq<nat>

  // ---------------------------------------------------------------- following references

  predicate IsNameless(env: Env, given: string) {
    env.normalize(given) == "" || |env.normalize(given)| > 256
  }

  predicate Names(q: Request, n: int, id: string) {
    0 <= n < |q.nodes| && IsNameOf(q.env, q.nodes[n].nodeId, id)
  }

  // The i-th reference of an action. That of a wrapper is the target of its only entry.
  ghost predicate Refers(q: Request, action: Action, i: nat, ref: string) {
    match action
    case ResolvedLeaf(_) => false
    case Composite(children) => i < |children| && children[i] == ref
    case Wrapper(descriptor) => i == 0 && exists step :: IsStepTo(q, descriptor, step, ref)
  }

  ghost predicate IsStepTo(q: Request, descriptor: Descriptor, step: Step, ref: string) {
    IsStepOf(q.env, q.entries, descriptor, step) && step.targetNodeId == ref
  }

  ghost predicate Leads(q: Request, route: Route, ref: string)
    decreases |route|, 1
  {
    if route == [] then ref == q.env.normalize(q.rootId) else exists n, id :: LeadsBy(q, route, n, id, ref)
  }

  // The last step of the route is a reference of node n.
  ghost predicate LeadsBy(q: Request, route: Route, n: int, id: string, ref: string)
    requires route != []
    decreases |route|, 0
  {
    var last := |route| - 1;
    Arrives(q, route[..last], n, id) && Refers(q, q.nodes[n].action, route[last], ref)
  }

  ghost predicate ComesTo(q: Request, route: Route, id: string)
    decreases |route|, 2
  {
    exists ref :: Leads(q, route, ref) && IsNameOf(q.env, ref, id)
  }

  ghost predicate Arrives(q: Request, route: Route, n: int, id: string)
    decreases |route|, 3
  {
    Names(q, n, id) && ComesTo(q, route, id)
  }

  ghost predicate IsPlace(q: Request, route: Route) {
    exists ref :: Leads(q, route, ref)
  }

  ghost predicate IsLeafAt(q: Request, route: Route, n: int, id: string) {
    Arrives(q, route, n, id) && q.nodes[n].action.ResolvedLeaf?
  }

  ghost predicate IsLeafPlace(q: Request, route: Route) {
    exists n, id :: IsLeafAt(q, route, n, id)
  }

  ghost predicate IsIdentifiedAt(q: Request, route: Route, n: int, id: string, logicalActionId: string) {
    IsLeafAt(q, route, n, id) && IsNameOf(q.env, q.nodes[n].action.leaf.logicalActionId, logicalActionId)
  }

  ghost predicate IsIdentified(q: Request, route: Route, logicalActionId: string) {
    exists n, id :: IsIdentifiedAt(q, route, n, id, logicalActionId)
  }

  // ---------------------------------------------------------------- the reasons

  predicate IsLeast(m: nat, a: nat, b: nat) {
    m <= a && m <= b && (m == a || m == b)
  }

  predicate IsKindOf(kind: StructureKind, d: Descriptor) {
    && (kind == AliasKind <==> d.Alias?)
    && (kind == PluginKind <==> d.Plugin?)
    && (kind == ShellKind <==> d.Shell?)
    && (kind == ChildKind <==> d.Child?)
  }

  predicate IsEntryFor(q: Request, j: int, d: Descriptor) {
    0 <= j < |q.entries| && IsDescriptorOf(q.env, q.entries[j].descriptor, d)
  }

  ghost predicate IsUnresolved(q: Request, action: Action, kind: StructureKind, d: Descriptor) {
    && action.Wrapper? && IsDescriptorOf(q.env, action.descriptor, d) && IsKindOf(kind, d)
    && forall j :: !IsEntryFor(q, j, d)
  }

  ghost predicate IsAmbiguous(q: Request, action: Action, kind: StructureKind, d: Descriptor) {
    && action.Wrapper? && IsDescriptorOf(q.env, action.descriptor, d) && IsKindOf(kind, d)
    && exists j, k :: j < k && IsEntryFor(q, j, d) && IsEntryFor(q, k, d)
  }

  // No leaf holds what this one says, on any path, and no descriptor what this wrapper says.
  ghost predicate IsInvalid(env: Env, id: string, action: Action) {
    match action
    case ResolvedLeaf(leaf) => forall path, made :: !AreFieldsOf(env, id, leaf, path, made)
    case Composite(_) => false
    case Wrapper(descriptor) => forall kept :: !IsDescriptorOf(env, descriptor, kept)
  }

  ghost predicate IsCycle(q: Request, route: Route, k: nat, id: string) {
    k < |route| && ComesTo(q, route[..k], id) && ComesTo(q, route, id)
  }

  ghost predicate IsNamelessAt(q: Request, route: Route, ref: string) {
    Leads(q, route, ref) && IsNameless(q.env, ref)
  }

  ghost predicate IsReason(q: Request, reason: Reason) {
    match reason
    case EmptyRoot => IsNameless(q.env, q.rootId)
    case EmptyNodeIdentity =>
      || (exists n :: 0 <= n < |q.nodes| && IsNameless(q.env, q.nodes[n].nodeId))
      || exists route, ref :: IsNamelessAt(q, route, ref)
    case DuplicateNodeIdentity(id) => exists m, n :: m < n && Names(q, m, id) && Names(q, n, id)
    case MissingNode(id) => (exists route :: ComesTo(q, route, id)) && forall n :: !Names(q, n, id)
    case CycleDetected(id) => exists route, k :: IsCycle(q, route, k, id)
    case EmptyComposite(id) => exists route, n :: Arrives(q, route, n, id) && q.nodes[n].action == Composite([])
    case Unresolved(kind, id) =>
      exists route, n, d :: Arrives(q, route, n, id) && IsUnresolved(q, q.nodes[n].action, kind, d)
    case Ambiguous(kind, id) =>
      exists route, n, d :: Arrives(q, route, n, id) && IsAmbiguous(q, q.nodes[n].action, kind, d)
    case DepthLimitExceeded(m) =>
      IsLeast(m, q.limits.maxDepth, 32) && exists route :: IsPlace(q, route) && |route| == m + 1
    case NodeLimitExceeded(m) =>
      IsLeast(m, q.limits.maxNodes, 256) && exists routes :: ArePlaces(q, routes) && |routes| > m
    case LeafLimitExceeded(m) =>
      IsLeast(m, q.limits.maxLeaves, 128) && exists routes :: AreLeafPlaces(q, routes) && |routes| > m
    case DuplicateLogicalActionIdentity(l) => exists a, b :: a != b && IsIdentified(q, a, l) && IsIdentified(q, b, l)
    case InvalidLeaf(id) => exists route, n :: Arrives(q, route, n, id) && IsInvalid(q.env, id, q.nodes[n].action)
  }

  ghost predicate ArePlaces(q: Request, routes: set<Route>) {
    forall r :: r in routes ==> IsPlace(q, r)
  }

  ghost predicate AreLeafPlaces(q: Request, routes: set<Route>) {
    forall r :: r in routes ==> IsLeafPlace(q, r)
  }

  // ---------------------------------------------------------------- what a visit has seen

  datatype Seen = Seen(places: set<Route>, leaves: set<Route>)

  ghost predicate Tracks(q: Request, seen: Seen, p: Progress) {
    && |seen.places| == p.visited && ArePlaces(q, seen.places)
    && |seen.leaves| == |p.leaves| && AreLeafPlaces(q, seen.leaves)
    && seen.leaves <= seen.places
    && forall l :: l in p.ids ==> IsSeen(q, seen, l)
  }

  ghost predicate IsSeen(q: Request, seen: Seen, l: string) {
    exists r :: r in seen.leaves && IsIdentified(q, r, l)
  }

  ghost predicate Avoids(seen: Seen, route: Route) {
    forall r :: r in seen.places ==> !(route <= r)
  }

  ghost predicate AddsUnder(seen: Seen, after: Seen, route: Route) {
    forall r :: r in after.places ==> r in seen.places || route <= r
  }

  ghost predicate ActiveAbove(q: Request, route: Route, active: set<string>) {
    forall id :: id in active ==> IsAbove(q, route, id)
  }

  ghost predicate IsAbove(q: Request, route: Route, id: string) {
    exists k: nat :: k < |route| && ComesTo(q, route[..k], id)
  }

  // The compiler's setting for a request.
  ghost predicate Serves(q: Request, s: Setting) {
    && s.env == q.env && s.nodes == q.nodes && s.limits == Clamped(q.limits)
    && LooksUp(s) && IsIndexed(s)
    && ValidEntries(q.env, q.entries) && Holds(s.registry, q.env, q.entries)
  }

  ghost predicate IsIndexed(s: Setting) {
    && (forall id :: id in s.lookup ==> s.lookup[id] < |s.nodes|)
    && forall n :: 0 <= n < |s.nodes| ==>
         Identifier(s.env, s.nodes[n].nodeId).Some? && Identifier(s.env, s.nodes[n].nodeId).value in s.lookup
  }

  // ---------------------------------------------------------------- single steps

  lemma ActionIsThere(q: Request, s: Setting, route: Route, id: string)
    requires Serves(q, s) && ComesTo(q, route, id)
    ensures ActionOf(s, id).None? ==> IsReason(q, MissingNode(id))
    ensures ActionOf(s, id).Some? ==>
      Arrives(q, route, s.lookup[id], id) && q.nodes[s.lookup[id]].action == ActionOf(s, id).value
  {
    hide ComesTo, Holds, ValidEntries, Identifier, IsNameOf;
    NamesKept(q.env);
    if ActionOf(s, id).None? {
      forall n ensures !Names(q, n, id) {
        assert Names(q, n, id) ==> Identifier(s.env, s.nodes[n].nodeId) == Some(id);
      }
    }
  }

  lemma {:induction false} CandidatesHaveEntries(env: Env, entries: seq<RegistryEntry>, d: Descriptor)
    requires forall i :: 0 <= i < |entries| ==> NormalizedEntry(env, entries[i]).Some?
    ensures |Candidates(env, entries, d)| >= 1 ==> exists j | 0 <= j < |entries| :: IsDescriptorOf(env, entries[j].descriptor, d)
    ensures |Candidates(env, entries, d)| >= 2 ==> exists j, k | 0 <= j < k < |entries| ::
      IsDescriptorOf(env, entries[j].descriptor, d) && IsDescriptorOf(env, entries[k].descriptor, d)
  {
    hide NormalizedEntry, IsDescriptorOf;
    if entries != [] {
      var rest := entries[1..];
      CandidatesHaveEntries(env, rest, d);
      FirstDescriptor(env, entries[0], NormalizedEntry(env, entries[0]).value, d);
      assert forall j :: 0 <= j < |rest| ==> rest[j] == entries[j + 1];
      if |Candidates(env, rest, d)| >= 1 {
        var j :| 0 <= j < |rest| && IsDescriptorOf(env, rest[j].descriptor, d);
        assert IsDescriptorOf(env, entries[j + 1].descriptor, d);
      }
      if |Candidates(env, rest, d)| >= 2 {
        var j, k :| 0 <= j < k < |rest|
          && IsDescriptorOf(env, rest[j].descriptor, d) && IsDescriptorOf(env, rest[k].descriptor, d);
        assert IsDescriptorOf(env, entries[j + 1].descriptor, d) && IsDescriptorOf(env, entries[k + 1].descriptor, d);
      }
    }
  }

  lemma WrapperRefusals(q: Request, s: Setting, route: Route, n: int, id: string, descriptor: Descriptor, d: Descriptor)
    requires Serves(q, s) && Arrives(q, route, n, id) && q.nodes[n].action == Wrapper(descriptor)
    requires NormalizedDescriptor(s.env, descriptor) == Some(d)
    ensures d !in s.registry ==> IsReason(q, Unresolved(KindOfDescriptor(d), id))
    ensures d in s.registry && |s.registry[d]| != 1 ==> IsReason(q, Ambiguous(KindOfDescriptor(d), id))
  {
    hide ComesTo, IsNameOf, NormalizedDescriptor, IsDescriptorOf, NormalizedEntry, Candidates, LooksUp, IsIndexed;
    DescriptorExactly(s.env, descriptor, d);
    CandidatesAreEntries(q.env, q.entries, d);
    CandidatesHaveEntries(q.env, q.entries, d);
    if d !in s.registry {
      assert IsUnresolved(q, q.nodes[n].action, KindOfDescriptor(d), d);
    } else if |s.registry[d]| != 1 {
      var j, k :| 0 <= j < k < |q.entries|
        && IsDescriptorOf(q.env, q.entries[j].descriptor, d) && IsDescriptorOf(q.env, q.entries[k].descriptor, d);
      assert IsEntryFor(q, j, d) && IsEntryFor(q, k, d);
      assert IsAmbiguous(q, q.nodes[n].action, KindOfDescriptor(d), d);
    }
  }

  lemma WrapperLeads(q: Request, s: Setting, route: Route, n: int, id: string, descriptor: Descriptor, d: Descriptor)
    requires Serves(q, s) && Arrives(q, route, n, id) && q.nodes[n].action == Wrapper(descriptor)
    requires NormalizedDescriptor(s.env, descriptor) == Some(d) && d in s.registry && |s.registry[d]| == 1
    ensures Leads(q, route + [0], s.registry[d][0].targetNodeId)
  {
    hide ComesTo, IsNameOf, NormalizedDescriptor, IsStepOf, Holds, ValidEntries, LooksUp, IsIndexed;
    var step := StepFor(d, s.registry[d][0]);
    UniqueTargetIsStep(s, q.entries, descriptor, step);
    assert IsStepTo(q, descriptor, step, s.registry[d][0].targetNodeId);
    assert (route + [0])[..|route|] == route;
    assert LeadsBy(q, route + [0], n, id, step.targetNodeId);
  }

  lemma ChildLeads(q: Request, route: Route, n: int, id: string, i: nat)
    requires Arrives(q, route, n, id) && q.nodes[n].action.Composite? && i < |q.nodes[n].action.children|
    ensures Leads(q, route + [i], q.nodes[n].action.children[i])
  {
    hide ComesTo, IsNameOf;
    assert (route + [i])[..|route|] == route;
    assert LeadsBy(q, route + [i], n, id, q.nodes[n].action.children[i]);
  }

  lemma InvalidAt(q: Request, s: Setting, route: Route, n: int, id: string, path: seq<Step>)
    requires Serves(q, s) && Arrives(q, route, n, id)
    requires match q.nodes[n].action
      case ResolvedLeaf(leaf) => CanonicalLeaf(s.env, id, leaf, path).None?
      case Composite(_) => false
      case Wrapper(descriptor) => NormalizedDescriptor(s.env, descriptor).None?
    ensures IsReason(q, InvalidLeaf(id))
  {
    hide ComesTo, IsNameOf, CanonicalLeaf, AreFieldsOf, NormalizedDescriptor, IsDescriptorOf, LooksUp, Holds, ValidEntries,
      IsIndexed;
    match q.nodes[n].action {
      case ResolvedLeaf(leaf) =>
        forall other, made ensures !AreFieldsOf(s.env, id, leaf, other, made) {
          if AreFieldsOf(s.env, id, leaf, other, made) {
            FieldsOnPath(s.env, id, leaf, other, made, path);
            FieldsCompile(s.env, id, leaf, path, made.(resolutionPath := path));
          }
        }
      case Wrapper(descriptor) =>
        forall kept ensures !IsDescriptorOf(s.env, descriptor, kept) {
          DescriptorExactly(s.env, descriptor, kept);
        }
    }
    assert IsInvalid(q.env, id, q.nodes[n].action);
  }

  lemma FieldsOnPath(env: Env, id: string, given: LeafInput, path: seq<Step>, made: LeafAction, other: seq<Step>)
    requires AreFieldsOf(env, id, given, path, made)
    ensures AreFieldsOf(env, id, given, other, made.(resolutionPath := other))
  {
    hide IsNameOf, IsFrozen, IsOptionalDigestOf, IsAuthorityOf;
  }

  lemma ActiveGrows(q: Request, route: Route, active: set<string>, id: string, i: nat)
    requires ActiveAbove(q, route, active) && ComesTo(q, route, id)
    ensures ActiveAbove(q, route + [i], active + {id})
  {
    hide ComesTo;
    var longer := route + [i];
    forall a | a in active + {id} ensures IsAbove(q, longer, a) {
      if a == id {
        assert longer[..|route|] == route;
      } else {
        assert IsAbove(q, route, a);
        var k: nat :| k < |route| && ComesTo(q, route[..k], a);
        assert longer[..k] == route[..k];
      }
    }
  }

  // ---------------------------------------------------------------- visits

  lemma {:induction false} VisitTells(
      q: Request, s: Setting, ref: string, route: Route, active: set<string>, path: seq<Step>, p: Progress, seen: Seen)
    returns (after: Seen)
    requires Serves(q, s) && Leads(q, route, ref) && |route| <= s.limits.maxDepth + 1
    requires ActiveAbove(q, route, active) && Tracks(q, seen, p) && Avoids(seen, route)
    ensures var r := Visit(s, ref, |route|, active, path, p);
      && (r.Paused? ==> IsReason(q, r.reason))
      && (r.Done? ==> Tracks(q, after, r.progress) && AddsUnder(seen, after, route))
    decreases Remaining(s, |route|), 2
  {
    hide Identifier, NormalizedDescriptor, CanonicalLeaf, Serves, Leads, Arrives, Tracks, VisitLeaf, VisitChildren, IsReason;
    after := seen;
    NamesKept(q.env);
    if |route| > s.limits.maxDepth || p.visited >= s.limits.maxNodes {
      LimitTold(q, s, ref, route, p, seen);
    } else if Identifier(s.env, ref).None? {
      NamelessTold(q, s, route, ref);
    } else {
      var id := Identifier(s.env, ref).value;
      SameEnv(q, s);
      assert ComesTo(q, route, id);
      if id in active {
        CycleTold(q, route, active, id);
      } else {
        ActionIsThere(q, s, route, id);
        if ActionOf(s, id).Some? {
          after := PresentTells(q, s, id, route, active, path, p, seen);
        }
      }
    }
  }

  lemma SameEnv(q: Request, s: Setting)
    requires Serves(q, s)
    ensures s.env == q.env
  {
    hide LooksUp, Holds, ValidEntries, IsIndexed;
  }

  lemma LimitTold(q: Request, s: Setting, ref: string, route: Route, p: Progress, seen: Seen)
    requires Serves(q, s) && Leads(q, route, ref) && |route| <= s.limits.maxDepth + 1
    requires Tracks(q, seen, p) && Avoids(seen, route)
    ensures |route| > s.limits.maxDepth ==> IsReason(q, DepthLimitExceeded(s.limits.maxDepth))
    ensures p.visited >= s.limits.maxNodes ==> IsReason(q, NodeLimitExceeded(s.limits.maxNodes))
  {
    hide Leads, LooksUp, Holds, ValidEntries, IsIndexed, IsSeen, IsLeafPlace;
    assert IsPlace(q, route);
    assert route !in seen.places;
    assert ArePlaces(q, seen.places + {route}) && |seen.places + {route}| == p.visited + 1;
  }

  lemma NamelessTold(q: Request, s: Setting, route: Route, ref: string)
    requires Serves(q, s) && Leads(q, route, ref) && Identifier(s.env, ref).None?
    ensures IsReason(q, EmptyNodeIdentity)
  {
    hide Leads, LooksUp, Holds, ValidEntries, IsIndexed;
    assert IsNamelessAt(q, route, ref);
  }

  lemma CycleTold(q: Request, route: Route, active: set<string>, id: string)
    requires ActiveAbove(q, route, active) && id in active && ComesTo(q, route, id)
    ensures IsReason(q, CycleDetected(id))
  {
    hide ComesTo;
    assert IsAbove(q, route, id);
    var k: nat :| k < |route| && ComesTo(q, route[..k], id);
    assert IsCycle(q, route, k, id);
  }

  lemma {:induction false} PresentTells(
      q: Request, s: Setting, id: string, route: Route, active: set<string>, path: seq<Step>, p: Progress, seen: Seen)
    returns (after: Seen)
    requires Serves(q, s) && |route| <= s.limits.maxDepth && ActionOf(s, id).Some?
    requires Arrives(q, route, s.lookup[id], id) && q.nodes[s.lookup[id]].action == ActionOf(s, id).value
    requires ActiveAbove(q, route, active) && Tracks(q, seen, p) && Avoids(seen, route)
    ensures var r := VisitPresent(s, id, |route|, active + {id}, path, p.(visited := p.visited + 1));
      && (r.Paused? ==> IsReason(q, r.reason))
      && (r.Done? ==> Tracks(q, after, r.progress) && AddsUnder(seen, after, route))
    decreases Remaining(s, |route|), 1
  {
    hide Identifier, NormalizedDescriptor, CanonicalLeaf, Serves, Leads, ComesTo, Tracks, Visit, VisitLeaf, VisitChildren, IsReason;
    SeenLeaves(q, seen, p);
    var n, p1 := s.lookup[id], p.(visited := p.visited + 1);
    var entered := Entered(q, route, n, id, p, seen);
    after := entered;
    match ActionOf(s, id).value {
      case ResolvedLeaf(leaf) =>
        after := LeafTells(q, s, n, id, leaf, route, path, p1, entered, seen);
      case Composite(children) =>
        if children == [] {
          EmptyTold(q, route, n, id);
        } else {
          after := ChildrenTell(q, s, n, id, children, 0, route, active, path, p1, entered);
        }
      case Wrapper(descriptor) =>
        var normalized := NormalizedDescriptor(s.env, descriptor);
        if normalized.None? {
          InvalidAt(q, s, route, n, id, path);
        } else {
          var d := normalized.value;
          WrapperRefusals(q, s, route, n, id, descriptor, d);
          if d in s.registry && |s.registry[d]| == 1 {
            var target := s.registry[d][0];
            WrapperLeads(q, s, route, n, id, descriptor, d);
            ActiveGrows(q, route, active, id, 0);
            after := VisitTells(q, s, target.targetNodeId, route + [0], active + {id}, path + [StepFor(d, target)], p1,
                                entered);
          }
        }
    }
  }

  lemma EmptyTold(q: Request, route: Route, n: int, id: string)
    requires Arrives(q, route, n, id) && q.nodes[n].action == Composite([])
    ensures IsReason(q, EmptyComposite(id))
  {
    hide ComesTo, IsNameOf;
  }

  // Entering a node adds its place, below which nothing has been seen.
  lemma Entered(q: Request, route: Route, n: int, id: string, p: Progress, seen: Seen) returns (entered: Seen)
    requires Arrives(q, route, n, id) && Tracks(q, seen, p) && Avoids(seen, route)
    ensures Tracks(q, entered, p.(visited := p.visited + 1)) && AddsUnder(seen, entered, route)
    ensures entered == Seen(seen.places + {route}, seen.leaves)
    ensures forall i: nat :: Avoids(entered, route + [i])
  {
    hide Arrives, IsPlace, IsLeafPlace, IsIdentified;
    ArrivedIsPlace(q, route, n, id);
    assert route !in seen.places;
    entered := Seen(seen.places + {route}, seen.leaves);
    forall l | l in p.ids ensures IsSeen(q, entered, l) {
      assert IsSeen(q, seen, l);
    }
    forall i: nat, r | r in entered.places ensures !(route + [i] <= r) {
      LongerPrefix(route, i, r);
    }
  }

  lemma LongerPrefix(route: Route, i: nat, r: Route)
    ensures route + [i] <= r ==> route <= r && r[|route|] == i
  {
    if route + [i] <= r {
      assert route == (route + [i])[..|route|] == r[..|route|];
      assert r[|route|] == (route + [i])[|route|];
    }
  }

  lemma SeenLeaves(q: Request, seen: Seen, p: Progress)
    requires Tracks(q, seen, p)
    ensures seen.leaves <= seen.places
  {
    hide IsPlace, IsLeafPlace, IsSeen;
  }

  lemma ArrivedIsPlace(q: Request, route: Route, n: int, id: string)
    requires Arrives(q, route, n, id)
    ensures IsPlace(q, route)
  {
    hide Leads;
    var ref :| Leads(q, route, ref) && IsNameOf(q.env, ref, id);
  }

  lemma LeafTells(
      q: Request, s: Setting, n: int, id: string, leaf: LeafInput, route: Route, path: seq<Step>, p: Progress, entered: Seen,
      seen: Seen)
    returns (after: Seen)
    requires Serves(q, s) && Arrives(q, route, n, id) && q.nodes[n].action == ResolvedLeaf(leaf)
    requires Tracks(q, entered, p) && Avoids(seen, route) && entered == Seen(seen.places + {route}, seen.leaves)
    requires seen.leaves <= seen.places
    ensures var r := VisitLeaf(s, id, leaf, path, p);
      && (r.Paused? ==> IsReason(q, r.reason))
      && (r.Done? ==> Tracks(q, after, r.progress) && AddsUnder(seen, after, route))
  {
    hide Arrives, CanonicalLeaf, AreFieldsOf, Serves, IsReason, IsPlace;
    assert IsLeafAt(q, route, n, id);
    assert IsLeafPlace(q, route) && route !in entered.leaves;
    after := Seen(entered.places, entered.leaves + {route});
    if |p.leaves| >= s.limits.maxLeaves {
      LeafLimitTold(q, s, after.leaves);
    } else if CanonicalLeaf(s.env, id, leaf, path).None? {
      InvalidAt(q, s, route, n, id, path);
    } else {
      var action := CanonicalLeaf(s.env, id, leaf, path).value;
      SameEnv(q, s);
      CompiledName(s.env, id, leaf, path);
      var l := action.logicalActionId;
      assert IsIdentifiedAt(q, route, n, id, l);
      assert IsIdentified(q, route, l);
      if l in p.ids {
        DuplicateTold(q, entered, route, l);
      } else {
        forall other | other in p.ids + {l} ensures IsSeen(q, after, other) {
          if other != l { assert IsSeen(q, entered, other); }
        }
      }
    }
  }

  lemma CompiledName(env: Env, id: string, leaf: LeafInput, path: seq<Step>)
    requires CanonicalLeaf(env, id, leaf, path).Some?
    ensures IsNameOf(env, leaf.logicalActionId, CanonicalLeaf(env, id, leaf, path).value.logicalActionId)
  {
    hide CanonicalLeaf, IsNameOf, IsFrozen, IsOptionalDigestOf, IsAuthorityOf;
    CompiledFields(env, id, leaf, path);
  }

  lemma LeafLimitTold(q: Request, s: Setting, routes: set<Route>)
    requires Serves(q, s) && AreLeafPlaces(q, routes) && |routes| > s.limits.maxLeaves
    ensures IsReason(q, LeafLimitExceeded(s.limits.maxLeaves))
  {
    hide AreLeafPlaces, LooksUp, Holds, ValidEntries, IsIndexed;
  }

  lemma DuplicateTold(q: Request, seen: Seen, route: Route, l: string)
    requires IsSeen(q, seen, l) && IsIdentified(q, route, l) && route !in seen.leaves
    ensures IsReason(q, DuplicateLogicalActionIdentity(l))
  {
    hide IsIdentified;
  }

  lemma {:induction false} ChildrenTell(
      q: Request, s: Setting, n: int, id: string, children: seq<string>, i: nat, route: Route, active: set<string>,
      path: seq<Step>, p: Progress, seen: Seen)
    returns (after: Seen)
    requires Serves(q, s) && |route| <= s.limits.maxDepth && i <= |children|
    requires Arrives(q, route, n, id) && q.nodes[n].action == Composite(children)
    requires ActiveAbove(q, route, active) && Tracks(q, seen, p)
    requires forall j: nat :: i <= j ==> Avoids(seen, route + [j])
    ensures var r := VisitChildren(s, children[i..], |route|, active + {id}, path, p);
      && (r.Paused? ==> IsReason(q, r.reason))
      && (r.Done? ==> Tracks(q, after, r.progress) && AddsUnder(seen, after, route))
    decreases Remaining(s, |route|), 0, |children| - i
  {
    hide Serves, Leads, ComesTo, Tracks, Visit, IsReason;
    after := seen;
    if i < |children| {
      ChildLeads(q, route, n, id, i);
      ActiveGrows(q, route, active, id, i);
      assert children[i..][0] == children[i] && children[i..][1..] == children[i + 1..];
      var next := VisitTells(q, s, children[i], route + [i], active + {id}, path, p, seen);
      var r := Visit(s, children[i], |route| + 1, active + {id}, path, p);
      if r.Done? {
        AvoidsLater(seen, next, route, i);
        after := ChildrenTell(q, s, n, id, children, i + 1, route, active, path, r.progress, next);
        if VisitChildren(s, children[i..], |route|, active + {id}, path, p).Done? {
          UnderParent(seen, next, after, route, i);
        }
      }
    }
  }

  lemma AvoidsLater(seen: Seen, next: Seen, route: Route, i: nat)
    requires AddsUnder(seen, next, route + [i])
    requires forall j: nat :: i <= j ==> Avoids(seen, route + [j])
    ensures forall j: nat :: i < j ==> Avoids(next, route + [j])
  {
    forall j: nat, r | i < j && r in next.places ensures !(route + [j] <= r) {
      assert Avoids(seen, route + [j]);
      LongerPrefix(route, i, r);
      LongerPrefix(route, j, r);
    }
  }

  lemma UnderParent(seen: Seen, next: Seen, after: Seen, route: Route, i: nat)
    requires AddsUnder(seen, next, route + [i]) && AddsUnder(next, after, route)
    ensures AddsUnder(seen, after, route)
  {
    forall r | r in after.places ensures r in seen.places || route <= r {
      LongerPrefix(route, i, r);
    }
  }

  // ---------------------------------------------------------------- the whole compilation

  lemma {:induction false} IndexingTells(q: Request, n: nat)
    requires n <= |q.nodes|
    ensures var r := IndexNodes(q.env, q.nodes, n); r.Refused? ==> IsReason(q, r.reason)
  {
    hide Identifier, IsNameOf, Leads;
    if n > 0 && IndexNodes(q.env, q.nodes, n).Refused? {
      IndexingTells(q, n - 1);
      IndexedNodes(q.env, q.nodes, n - 1);
      NamesKept(q.env);
      NamelessExactly(q.env, q.nodes[n - 1].nodeId);
      var r := IndexNodes(q.env, q.nodes, n - 1);
      if r.Index? && Identifier(q.env, q.nodes[n - 1].nodeId).Some? {
        var id := Identifier(q.env, q.nodes[n - 1].nodeId).value;
        assert Names(q, r.lookup[id], id) && Names(q, n - 1, id);
      }
    }
  }

  lemma NamelessExactly(env: Env, given: string)
    ensures IsNameless(env, given) <==> Identifier(env, given).None?
  {
  }

  lemma SettingServes(q: Request, registry: Registry)
    requires UniqueNodes(q.env, q.nodes) && ValidEntries(q.env, q.entries) && Holds(registry, q.env, q.entries)
    ensures Serves(q, SettingOf(q.env, q.nodes, registry, q.limits))
  {
    hide Identifier, ValidEntries, Holds;
    SettingLooksUp(q.env, q.nodes, registry, q.limits);
    IndexedNodes(q.env, q.nodes, |q.nodes|);
    assert q.nodes[..|q.nodes|] == q.nodes;
  }

  // Whatever reason a refused dispatch is given is true of its nodes and entries.
  lemma ReasonIsTrue(q: Request, registry: Registry)
    requires q.env.Valid() && ValidEntries(q.env, q.entries) && Holds(registry, q.env, q.entries)
    ensures var r := Compile(q.env, q.rootId, q.nodes, registry, q.limits);
      r.ResolutionRequired? ==> IsReason(q, r.reason)
  {
    hide Identifier, ValidEntries, Holds, UniqueNodes, IndexNodes, SettingOf, Visit, IsReason, Serves, Leads, ManifestText;
    NamelessExactly(q.env, q.rootId);
    IndexingTells(q, |q.nodes|);
    IndexedNodes(q.env, q.nodes, |q.nodes|);
    assert q.nodes[..|q.nodes|] == q.nodes;
    if Identifier(q.env, q.rootId).Some? && UniqueNodes(q.env, q.nodes) {
      SettingServes(q, registry);
      VisitOfRootTells(q, registry);
      SettingIs(q, registry);
    } else if Identifier(q.env, q.rootId).None? {
      RootTold(q);
    }
  }

  lemma RootTold(q: Request)
    requires IsNameless(q.env, q.rootId)
    ensures IsReason(q, EmptyRoot)
  {
  }

  lemma SettingIs(q: Request, registry: Registry)
    requires IndexNodes(q.env, q.nodes, |q.nodes|).Index?
    ensures SettingOf(q.env, q.nodes, registry, q.limits)
      == Setting(q.env, q.nodes, IndexNodes(q.env, q.nodes, |q.nodes|).lookup, registry, Clamped(q.limits))
  {
  }

  lemma VisitOfRootTells(q: Request, registry: Registry)
    requires q.env.Valid() && Identifier(q.env, q.rootId).Some?
    requires Serves(q, SettingOf(q.env, q.nodes, registry, q.limits))
    ensures var s := SettingOf(q.env, q.nodes, registry, q.limits);
      var r := Visit(s, Identifier(q.env, q.rootId).value, 0, {}, [], NOTHING_VISITED);
      && (r.Paused? ==> IsReason(q, r.reason))
      && (r.Done? ==> r.progress.leaves != [])
  {
    hide Visit, IsReason, Serves, SettingOf, Expands, Flatten, Height, NodeIds;
    var s, root := SettingOf(q.env, q.nodes, registry, q.limits), Identifier(q.env, q.rootId).value;
    assert Leads(q, [], root);
    var after := VisitTells(q, s, root, [], {}, [], NOTHING_VISITED, Seen({}, {}));
    if Visit(s, root, 0, {}, [], NOTHING_VISITED).Done? {
      var x := VisitSound(s, root, 0, {}, [], NOTHING_VISITED);
      FlattenIsNotEmpty(s, root, x, []);
    }
  }
}
