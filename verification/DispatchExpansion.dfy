// What a dispatch means, said without a visit: a finite expansion of the root in which every
// reference resolves, and the leaves it lists in order.

module DispatchExpansion {
  import opened Wrappers
  import opened Ordering
  import opened Manifest
  import opened Dispatch

  datatype Expansion =
    | LeafX(id: string, leaf: LeafInput)
    | CompositeX(id: string, children: seq<Expansion>)
    | WrapperX(id: string, step: Step, child: Expansion)

  // x is the expansion of the node that ref names.
  predicate Expands(s: Setting, ref: string, x: Expansion)
    decreases x
  {
    && Identifier(s.env, ref) == Some(x.id)
    && match ActionOf(s, x.id)
       case None => false
       case Some(ResolvedLeaf(leaf)) => x.LeafX? && x.leaf == leaf
       case Some(Composite(children)) =>
         x.CompositeX? && children != [] && ExpandsAll(s, children, x.children)
       case Some(Wrapper(descriptor)) =>
         && x.WrapperX?
         && NormalizedDescriptor(s.env, descriptor) == Some(x.step.descriptor)
         && UniqueTarget(s, x.step.descriptor) == Some(x.step)
         && Expands(s, x.step.targetNodeId, x.child)
  }

  predicate ExpandsAll(s: Setting, refs: seq<string>, xs: seq<Expansion>)
    decreases xs
  {
    if refs == [] || xs == [] then refs == [] && xs == []
    else Expands(s, refs[0], xs[0]) && ExpandsAll(s, refs[1..], xs[1..])
  }

  function UniqueTarget(s: Setting, d: Descriptor): Option<Step> {
    if d in s.registry && |s.registry[d]| == 1 then Some(StepFor(d, s.registry[d][0])) else None
  }

  // Edges on the longest way down.
  function Height(x: Expansion): nat
    decreases x
  {
    match x
    case LeafX(_, _) => 0
    case CompositeX(_, children) => 1 + HeightAll(children)
    case WrapperX(_, _, child) => 1 + Height(child)
  }

  function HeightAll(xs: seq<Expansion>): nat
    decreases xs
  {
    if xs == [] then 0
    else if Height(xs[0]) >= HeightAll(xs[1..]) then Height(xs[0]) else HeightAll(xs[1..])
  }

  // The nodes of an expansion, each as often as it is reached, in the order of the visits.
  function NodeIds(x: Expansion): (r: seq<string>)
    ensures |r| > 0 && r[0] == x.id
    decreases x
  {
    match x
    case LeafX(id, _) => [id]
    case CompositeX(id, children) => [id] + NodeIdsAll(children)
    case WrapperX(id, _, child) => [id] + NodeIds(child)
  }

  function NodeIdsAll(xs: seq<Expansion>): seq<string>
    decreases xs
  {
    if xs == [] then [] else NodeIds(xs[0]) + NodeIdsAll(xs[1..])
  }

  // The leaves from left to right, each with the wrapper steps that led to it; None when one is invalid.
  function Flatten(env: Env, x: Expansion, path: seq<Step>): Option<seq<LeafAction>>
    decreases x
  {
    match x
    case LeafX(id, leaf) =>
      var action :- CanonicalLeaf(env, id, leaf, path);
      Some([action])
    case CompositeX(_, children) => FlattenAll(env, children, path)
    case WrapperX(_, step, child) => Flatten(env, child, path + [step])
  }

  function FlattenAll(env: Env, xs: seq<Expansion>, path: seq<Step>): Option<seq<LeafAction>>
    decreases xs
  {
    if xs == [] then Some([])
    else
      var first :- Flatten(env, xs[0], path);
      var rest :- FlattenAll(env, xs[1..], path);
      Some(first + rest)
  }

  // ---------------------------------------------------------------- expansions are unique

  lemma {:induction false} ExpansionIsUnique(s: Setting, ref: string, x: Expansion, y: Expansion)
    requires Expands(s, ref, x) && Expands(s, ref, y)
    ensures x == y
    decreases x, 1
  {
    hide Identifier, NormalizedDescriptor;
    match ActionOf(s, x.id).value {
      case ResolvedLeaf(_) =>
      case Composite(children) => ExpansionsAreUnique(s, children, x.children, y.children);
      case Wrapper(_) => ExpansionIsUnique(s, x.step.targetNodeId, x.child, y.child);
    }
  }

  lemma {:induction false} ExpansionsAreUnique(s: Setting, refs: seq<string>, xs: seq<Expansion>, ys: seq<Expansion>)
    requires ExpandsAll(s, refs, xs) && ExpandsAll(s, refs, ys)
    ensures xs == ys
    decreases xs, 0
  {
    if refs != [] {
      ExpansionIsUnique(s, refs[0], xs[0], ys[0]);
      ExpansionsAreUnique(s, refs[1..], xs[1..], ys[1..]);
    }
  }

  // ---------------------------------------------------------------- when a visit succeeds

  ghost function IdsOf(leaves: seq<LeafAction>): set<string> {
    set i | 0 <= i < |leaves| :: leaves[i].logicalActionId
  }

  // What the limits and the identities seen so far allow to be added.
  ghost predicate Admits(s: Setting, p: Progress, nodes: nat, leaves: seq<LeafAction>) {
    && p.visited + nodes <= s.limits.maxNodes
    && |p.leaves| + |leaves| <= s.limits.maxLeaves
    && Distinct(LogicalIds(leaves))
    && p.ids !! IdsOf(leaves)
  }

  ghost function After(p: Progress, nodes: nat, leaves: seq<LeafAction>): Progress {
    Progress(p.visited + nodes, p.leaves + leaves, p.ids + IdsOf(leaves))
  }

  // The expansion x, reached at this depth and along this path, is what the visit adds.
  ghost predicate Explains(s: Setting, x: Expansion, depth: nat, path: seq<Step>, p: Progress, q: Progress) {
    && depth + Height(x) <= s.limits.maxDepth
    && Flatten(s.env, x, path).Some?
    && Admits(s, p, |NodeIds(x)|, Flatten(s.env, x, path).value)
    && q == After(p, |NodeIds(x)|, Flatten(s.env, x, path).value)
  }

  ghost predicate ExplainsAll(s: Setting, xs: seq<Expansion>, depth: nat, path: seq<Step>, p: Progress, q: Progress) {
    && (xs != [] ==> depth + HeightAll(xs) <= s.limits.maxDepth)
    && FlattenAll(s.env, xs, path).Some?
    && (xs != [] ==> Admits(s, p, |NodeIdsAll(xs)|, FlattenAll(s.env, xs, path).value))
    && q == After(p, |NodeIdsAll(xs)|, FlattenAll(s.env, xs, path).value)
  }

  lemma IdsOfLogicalIds(leaves: seq<LeafAction>)
    ensures forall id :: id in IdsOf(leaves) <==> id in LogicalIds(leaves)
  {
    forall id ensures id in IdsOf(leaves) <==> id in LogicalIds(leaves) {
      if id in LogicalIds(leaves) {
        var i :| 0 <= i < |leaves| && LogicalIds(leaves)[i] == id;
        assert leaves[i].logicalActionId == id;
      }
      if id in IdsOf(leaves) {
        var i :| 0 <= i < |leaves| && leaves[i].logicalActionId == id;
        assert LogicalIds(leaves)[i] == id;
      }
    }
  }

  // Adding two groups in turn is adding their concatenation.
  lemma AdmitsConcat(s: Setting, p: Progress, m: nat, a: seq<LeafAction>, n: nat, b: seq<LeafAction>)
    ensures Admits(s, p, m, a) && Admits(s, After(p, m, a), n, b) ==> Admits(s, p, m + n, a + b)
    ensures Admits(s, p, m + n, a + b) ==> Admits(s, p, m, a) && Admits(s, After(p, m, a), n, b)
    ensures After(After(p, m, a), n, b) == After(p, m + n, a + b)
  {
    IdsOfLogicalIds(a);
    IdsOfLogicalIds(b);
    IdsOfLogicalIds(a + b);
    assert LogicalIds(a + b) == LogicalIds(a) + LogicalIds(b);
    DistinctConcat(LogicalIds(a), LogicalIds(b));
    assert IdsOf(a + b) == IdsOf(a) + IdsOf(b);
    assert p.leaves + a + b == p.leaves + (a + b);
  }

  // ---------------------------------------------------------------- a successful visit is an expansion

  lemma {:induction false} VisitSound(s: Setting, ref: string, depth: nat, active: set<string>, path: seq<Step>, p: Progress)
    returns (x: Expansion)
    requires Visit(s, ref, depth, active, path, p).Done?
    ensures Expands(s, ref, x)
    ensures Explains(s, x, depth, path, p, Visit(s, ref, depth, active, path, p).progress)
    decreases Remaining(s, depth), 2
  {
    hide Identifier, NormalizedDescriptor, CanonicalLeaf, Admits, After;
    var id := Identifier(s.env, ref).value;
    var p1 := p.(visited := p.visited + 1);
    match ActionOf(s, id).value {
      case ResolvedLeaf(leaf) =>
        x := LeafX(id, leaf);
        LeafExplained(s, id, leaf, depth, path, p);
      case Composite(children) =>
        var xs := ChildrenSound(s, children, depth, active + {id}, path, p1);
        x := CompositeX(id, xs);
        CompositeExplained(s, id, xs, depth, path, p, Visit(s, ref, depth, active, path, p).progress);
      case Wrapper(descriptor) =>
        var d := NormalizedDescriptor(s.env, descriptor).value;
        var step := StepFor(d, s.registry[d][0]);
        var child := VisitSound(s, step.targetNodeId, depth + 1, active + {id}, path + [step], p1);
        x := WrapperX(id, step, child);
        WrapperExplained(s, id, step, child, depth, path, p, Visit(s, ref, depth, active, path, p).progress);
    }
  }

  lemma {:induction false} ChildrenSound(
      s: Setting, children: seq<string>, depth: nat, active: set<string>, path: seq<Step>, p: Progress)
    returns (xs: seq<Expansion>)
    requires depth <= s.limits.maxDepth
    requires VisitChildren(s, children, depth, active, path, p).Done?
    ensures ExpandsAll(s, children, xs)
    ensures ExplainsAll(s, xs, depth + 1, path, p, VisitChildren(s, children, depth, active, path, p).progress)
    decreases Remaining(s, depth), 0, |children|
  {
    hide Admits, After, Expands, Height, Flatten;
    if children == [] {
      xs := [];
      NothingAdded(s, p);
    } else {
      var q := Visit(s, children[0], depth + 1, active, path, p).progress;
      var first := VisitSound(s, children[0], depth + 1, active, path, p);
      var rest := ChildrenSound(s, children[1..], depth, active, path, q);
      xs := [first] + rest;
      ListExplained(s, first, rest, depth + 1, path, p, q,
                    VisitChildren(s, children, depth, active, path, p).progress);
    }
  }

  lemma NothingAdded(s: Setting, p: Progress)
    ensures After(p, 0, []) == p
  {
    assert p.leaves + [] == p.leaves && p.ids + IdsOf([]) == p.ids;
  }

  lemma LeafExplained(s: Setting, id: string, leaf: LeafInput, depth: nat, path: seq<Step>, p: Progress)
    requires depth <= s.limits.maxDepth && p.visited < s.limits.maxNodes
    ensures var r := VisitLeaf(s, id, leaf, path, p.(visited := p.visited + 1));
      && (r.Done? ==> Explains(s, LeafX(id, leaf), depth, path, p, r.progress))
      && (forall q :: Explains(s, LeafX(id, leaf), depth, path, p, q) ==> r == Done(q))
  {
    hide CanonicalLeaf;
    var r := VisitLeaf(s, id, leaf, path, p.(visited := p.visited + 1));
    if CanonicalLeaf(s.env, id, leaf, path).Some? {
      var action := CanonicalLeaf(s.env, id, leaf, path).value;
      assert IdsOf([action]) == {action.logicalActionId} by {
        assert [action][0].logicalActionId in IdsOf([action]);
      }
      assert Flatten(s.env, LeafX(id, leaf), path) == Some([action]);
    }
  }

  lemma CompositeExplained(s: Setting, id: string, xs: seq<Expansion>, depth: nat, path: seq<Step>, p: Progress, q: Progress)
    requires p.visited < s.limits.maxNodes && depth <= s.limits.maxDepth
    ensures xs != [] ==> (
      ExplainsAll(s, xs, depth + 1, path, p.(visited := p.visited + 1), q)
      <==> Explains(s, CompositeX(id, xs), depth, path, p, q))
  {
  }

  lemma WrapperExplained(
      s: Setting, id: string, step: Step, child: Expansion, depth: nat, path: seq<Step>, p: Progress, q: Progress)
    requires p.visited < s.limits.maxNodes && depth <= s.limits.maxDepth
    ensures Explains(s, child, depth + 1, path + [step], p.(visited := p.visited + 1), q)
      <==> Explains(s, WrapperX(id, step, child), depth, path, p, q)
  {
  }

  lemma ListExplained(
      s: Setting, x: Expansion, xs: seq<Expansion>, depth: nat, path: seq<Step>, p: Progress, q: Progress, r: Progress)
    requires Explains(s, x, depth, path, p, q) && ExplainsAll(s, xs, depth, path, q, r)
    ensures ExplainsAll(s, [x] + xs, depth, path, p, r)
  {
    hide Admits, After, Height, Flatten, NodeIds;
    ListParts(s, x, xs, path);
    var a, b := Flatten(s.env, x, path).value, FlattenAll(s.env, xs, path).value;
    AdmitsConcat(s, p, |NodeIds(x)|, a, |NodeIdsAll(xs)|, b);
    if xs == [] {
      assert a + [] == a;
    }
  }

  lemma ListParts(s: Setting, x: Expansion, xs: seq<Expansion>, path: seq<Step>)
    ensures NodeIdsAll([x] + xs) == NodeIds(x) + NodeIdsAll(xs)
    ensures HeightAll([x] + xs) == if Height(x) >= HeightAll(xs) then Height(x) else HeightAll(xs)
    ensures FlattenAll(s.env, [x] + xs, path).Some?
      <==> Flatten(s.env, x, path).Some? && FlattenAll(s.env, xs, path).Some?
    ensures FlattenAll(s.env, [x] + xs, path).Some? ==>
      FlattenAll(s.env, [x] + xs, path).value == Flatten(s.env, x, path).value + FlattenAll(s.env, xs, path).value
  {
    hide Height, Flatten, NodeIds;
    assert ([x] + xs)[1..] == xs;
  }

  // ---------------------------------------------------------------- nodes inside an expansion

  // The identities of the leaves, which do not depend on the way to them.
  function LeafIds(env: Env, x: Expansion): seq<string>
    decreases x
  {
    match x
    case LeafX(_, leaf) => [if Identifier(env, leaf.logicalActionId).Some? then Identifier(env, leaf.logicalActionId).value else ""]
    case CompositeX(_, children) => LeafIdsAll(env, children)
    case WrapperX(_, _, child) => LeafIds(env, child)
  }

  function LeafIdsAll(env: Env, xs: seq<Expansion>): seq<string>
    decreases xs
  {
    if xs == [] then [] else LeafIds(env, xs[0]) + LeafIdsAll(env, xs[1..])
  }

  lemma {:induction false} FlattenIds(env: Env, x: Expansion, path: seq<Step>)
    requires Flatten(env, x, path).Some?
    ensures LogicalIds(Flatten(env, x, path).value) == LeafIds(env, x)
    decreases x, 1
  {
    match x {
      case LeafX(id, leaf) => CanonicalLeafId(env, id, leaf, path);
      case CompositeX(_, children) => FlattenAllIds(env, children, path);
      case WrapperX(_, step, child) => FlattenIds(env, child, path + [step]);
    }
  }

  lemma CanonicalLeafId(env: Env, id: string, leaf: LeafInput, path: seq<Step>)
    requires CanonicalLeaf(env, id, leaf, path).Some?
    ensures Some(CanonicalLeaf(env, id, leaf, path).value.logicalActionId) == Identifier(env, leaf.logicalActionId)
    ensures CanonicalLeaf(env, id, leaf, path).value.resolutionPath == path
    ensures CanonicalLeaf(env, id, leaf, path).value.nodeId == id
  {
    hide Identifier, CanonicalAuthority, LeafText;
  }

  lemma {:induction false} FlattenAllIds(env: Env, xs: seq<Expansion>, path: seq<Step>)
    requires FlattenAll(env, xs, path).Some?
    ensures LogicalIds(FlattenAll(env, xs, path).value) == LeafIdsAll(env, xs)
    decreases xs, 0
  {
    hide Flatten, LeafIds;
    if xs != [] {
      FlattenIds(env, xs[0], path);
      FlattenAllIds(env, xs[1..], path);
      var a, b := Flatten(env, xs[0], path).value, FlattenAll(env, xs[1..], path).value;
      assert LogicalIds(a + b) == LogicalIds(a) + LogicalIds(b);
    }
  }

  // A node that occurs in an expansion has an expansion of its own inside it.
  lemma {:induction false} Occurrence(s: Setting, ref: string, x: Expansion, id: string) returns (y: Expansion)
    requires s.env.Valid() && Expands(s, ref, x) && id in NodeIds(x)
    ensures Expands(s, id, y) && |NodeIds(y)| <= |NodeIds(x)|
    ensures LeafIds(s.env, y) != []
    ensures forall k :: k in LeafIds(s.env, y) ==> k in LeafIds(s.env, x)
    decreases x, 1
  {
    hide NormalizedDescriptor, Identifier;
    if id == x.id {
      y := x;
      IdentifierIsNormal(s.env, ref);
      HasLeaf(s, ref, x);
    } else {
      match ActionOf(s, x.id).value {
        case ResolvedLeaf(_) => y := x;
        case Composite(children) => y := OccurrenceInList(s, children, x.children, id);
        case Wrapper(_) => y := Occurrence(s, x.step.targetNodeId, x.child, id);
      }
    }
  }

  lemma {:induction false} OccurrenceInList(s: Setting, refs: seq<string>, xs: seq<Expansion>, id: string) returns (y: Expansion)
    requires s.env.Valid() && ExpandsAll(s, refs, xs) && id in NodeIdsAll(xs)
    ensures Expands(s, id, y) && |NodeIds(y)| <= |NodeIdsAll(xs)|
    ensures LeafIds(s.env, y) != []
    ensures forall k :: k in LeafIds(s.env, y) ==> k in LeafIdsAll(s.env, xs)
    decreases xs, 0
  {
    hide Expands, NodeIds, LeafIds;
    if id in NodeIds(xs[0]) {
      y := Occurrence(s, refs[0], xs[0], id);
    } else {
      y := OccurrenceInList(s, refs[1..], xs[1..], id);
    }
  }

  lemma {:induction false} HasLeaf(s: Setting, ref: string, x: Expansion)
    requires Expands(s, ref, x)
    ensures LeafIds(s.env, x) != []
    decreases x
  {
    hide NormalizedDescriptor, Identifier;
    match ActionOf(s, x.id).value {
      case ResolvedLeaf(_) =>
      case Composite(children) => HasLeaf(s, children[0], x.children[0]);
      case Wrapper(_) => HasLeaf(s, x.step.targetNodeId, x.child);
    }
  }

  // No expansion contains its own root again, so a finite expansion has no cycle.
  lemma NotBelowItself(s: Setting, ref: string, x: Expansion)
    requires s.env.Valid() && Expands(s, ref, x)
    ensures x.WrapperX? ==> x.id !in NodeIds(x.child)
    ensures x.CompositeX? ==> x.id !in NodeIdsAll(x.children)
  {
    hide NormalizedDescriptor, Identifier, LeafIds;
    IdentifierIsNormal(s.env, ref);
    match ActionOf(s, x.id).value {
      case ResolvedLeaf(_) =>
      case Composite(children) =>
        if x.id in NodeIdsAll(x.children) {
          var y := OccurrenceInList(s, children, x.children, x.id);
          ExpansionIsUnique(s, x.id, x, y);
        }
      case Wrapper(_) =>
        if x.id in NodeIds(x.child) {
          var y := Occurrence(s, x.step.targetNodeId, x.child, x.id);
          ExpansionIsUnique(s, x.id, x, y);
        }
    }
  }

  // ---------------------------------------------------------------- an admissible expansion is visited

  lemma {:induction false} VisitComplete(
      s: Setting, ref: string, x: Expansion, depth: nat, active: set<string>, path: seq<Step>, p: Progress, q: Progress)
    requires s.env.Valid() && Expands(s, ref, x) && Explains(s, x, depth, path, p, q)
    requires forall id :: id in NodeIds(x) ==> id !in active
    ensures Visit(s, ref, depth, active, path, p) == Done(q)
    decreases x, 1
  {
    hide NormalizedDescriptor, Identifier, CanonicalLeaf, After;
    assert x.id in NodeIds(x);
    assert p.visited < s.limits.maxNodes;
    hide Admits;
    NotBelowItself(s, ref, x);
    var p1 := p.(visited := p.visited + 1);
    match ActionOf(s, x.id).value {
      case ResolvedLeaf(leaf) => LeafExplained(s, x.id, leaf, depth, path, p);
      case Composite(children) =>
        CompositeExplained(s, x.id, x.children, depth, path, p, q);
        ChildrenComplete(s, children, x.children, depth, active + {x.id}, path, p1, q);
      case Wrapper(_) =>
        WrapperExplained(s, x.id, x.step, x.child, depth, path, p, q);
        VisitComplete(s, x.step.targetNodeId, x.child, depth + 1, active + {x.id}, path + [x.step], p1, q);
    }
  }

  lemma {:induction false} ChildrenComplete(
      s: Setting, refs: seq<string>, xs: seq<Expansion>, depth: nat, active: set<string>, path: seq<Step>,
      p: Progress, q: Progress)
    requires depth <= s.limits.maxDepth
    requires s.env.Valid() && ExpandsAll(s, refs, xs) && ExplainsAll(s, xs, depth + 1, path, p, q)
    requires forall id :: id in NodeIdsAll(xs) ==> id !in active
    ensures VisitChildren(s, refs, depth, active, path, p) == Done(q)
    decreases xs, 0
  {
    hide Admits, After, Expands, Height, Flatten, NodeIds;
    if refs == [] {
      NothingAdded(s, p);
    } else {
      var r := After(p, |NodeIds(xs[0])|, Flatten(s.env, xs[0], path).value);
      ListSplits(s, xs[0], xs[1..], depth + 1, path, p, q);
      assert xs == [xs[0]] + xs[1..];
      VisitComplete(s, refs[0], xs[0], depth + 1, active, path, p, r);
      ChildrenComplete(s, refs[1..], xs[1..], depth, active, path, r, q);
    }
  }

  lemma ListSplits(
      s: Setting, x: Expansion, xs: seq<Expansion>, depth: nat, path: seq<Step>, p: Progress, r: Progress)
    requires ExplainsAll(s, [x] + xs, depth, path, p, r)
    ensures Flatten(s.env, x, path).Some?
    ensures var q := After(p, |NodeIds(x)|, Flatten(s.env, x, path).value);
      Explains(s, x, depth, path, p, q) && ExplainsAll(s, xs, depth, path, q, r)
  {
    hide Admits, After, Height, Flatten, NodeIds;
    ListParts(s, x, xs, path);
    var a, b := Flatten(s.env, x, path).value, FlattenAll(s.env, xs, path).value;
    AdmitsConcat(s, p, |NodeIds(x)|, a, |NodeIdsAll(xs)|, b);
  }

  // ---------------------------------------------------------------- no node is visited twice

  // When all leaf identities differ, every node of the expansion occurs once: the reached graph is a tree.
  lemma {:induction false} NodesAreDistinct(s: Setting, ref: string, x: Expansion)
    requires s.env.Valid() && Expands(s, ref, x) && Distinct(LeafIds(s.env, x))
    ensures Distinct(NodeIds(x))
    decreases x, 1
  {
    hide NormalizedDescriptor, Identifier;
    NotBelowItself(s, ref, x);
    match ActionOf(s, x.id).value {
      case ResolvedLeaf(_) =>
      case Composite(children) =>
        NodesOfListAreDistinct(s, children, x.children);
        DistinctConcat([x.id], NodeIdsAll(x.children));
      case Wrapper(_) =>
        NodesAreDistinct(s, x.step.targetNodeId, x.child);
        DistinctConcat([x.id], NodeIds(x.child));
    }
  }

  lemma {:induction false} NodesOfListAreDistinct(s: Setting, refs: seq<string>, xs: seq<Expansion>)
    requires s.env.Valid() && ExpandsAll(s, refs, xs) && Distinct(LeafIdsAll(s.env, xs))
    ensures Distinct(NodeIdsAll(xs))
    decreases xs, 0
  {
    hide Expands, NodeIds, LeafIds;
    if xs != [] {
      DistinctConcat(LeafIds(s.env, xs[0]), LeafIdsAll(s.env, xs[1..]));
      NodesAreDistinct(s, refs[0], xs[0]);
      NodesOfListAreDistinct(s, refs[1..], xs[1..]);
      forall id | id in NodeIds(xs[0]) ensures id !in NodeIdsAll(xs[1..]) {
        if id in NodeIdsAll(xs[1..]) {
          var k := CommonLeaf(s, refs, xs, id);
        }
      }
      DistinctConcat(NodeIds(xs[0]), NodeIdsAll(xs[1..]));
    }
  }

  // A node reached twice brings its leaves with it twice.
  lemma CommonLeaf(s: Setting, refs: seq<string>, xs: seq<Expansion>, id: string) returns (k: string)
    requires s.env.Valid() && xs != [] && ExpandsAll(s, refs, xs)
    requires id in NodeIds(xs[0]) && id in NodeIdsAll(xs[1..])
    ensures k in LeafIds(s.env, xs[0]) && k in LeafIdsAll(s.env, xs[1..])
  {
    hide Expands, NodeIds, LeafIds;
    var y := Occurrence(s, refs[0], xs[0], id);
    var z := OccurrenceInList(s, refs[1..], xs[1..], id);
    ExpansionIsUnique(s, id, y, z);
    k := LeafIds(s.env, y)[0];
  }
}
