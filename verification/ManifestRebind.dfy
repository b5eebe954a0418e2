// Rebinding a persisted manifest to a new occurrence: only identity and targets may change.

module ManifestRebind {
  import opened Wrappers
  import opened Ordering
  import opened Json
  import opened CanonicalValue
  import opened Manifest

  datatype Binding = Binding(persistedLogicalActionId: string, occurrenceLogicalActionId: string, targets: seq<Value>)

  datatype CanonicalManifest = CanonicalManifest(leaves: seq<LeafAction>, canonical: Frozen)

  // ---------------------------------------------------------------- specification

  function PersistedIdOf(b: Binding): string {
    b.persistedLogicalActionId
  }

  function BindingFor(bindings: seq<Binding>, id: string): Option<Binding> {
    if bindings == [] then None
    else if bindings[0].persistedLogicalActionId == id then Some(bindings[0])
    else BindingFor(bindings[1..], id)
  }

  // One binding per persisted identity, each written in its normal form.
  predicate WellFormedBindings(env: Env, bindings: seq<Binding>) {
    && (forall i :: 0 <= i < |bindings| ==> NormalIdentifier(env, bindings[i].persistedLogicalActionId))
    && Distinct(Map(PersistedIdOf, bindings))
  }

  function ReboundLeaf(env: Env, leaf: LeafAction, b: Binding): Option<LeafAction> {
    if !NormalIdentifier(env, b.occurrenceLogicalActionId) then None
    else
      var targets :- TargetsText(b.targets);
      Some(Sealed(env, leaf.(logicalActionId := b.occurrenceLogicalActionId,
                             targetSnapshot := Freeze(env, targets))))
  }

  function ReboundBy(env: Env, leaf: LeafAction, bindings: seq<Binding>): Option<LeafAction> {
    var b :- BindingFor(bindings, leaf.logicalActionId);
    ReboundLeaf(env, leaf, b)
  }

  function ReboundLeaves(env: Env, leaves: seq<LeafAction>, bindings: seq<Binding>): (r: Option<seq<LeafAction>>)
    ensures r.Some? <==> forall i :: 0 <= i < |leaves| ==> ReboundBy(env, leaves[i], bindings).Some?
    ensures r.Some? ==> |r.value| == |leaves|
    ensures r.Some? ==> forall i :: 0 <= i < |leaves| ==> ReboundBy(env, leaves[i], bindings) == Some(r.value[i])
  {
    if leaves == [] then Some([])
    else
      var leaf :- ReboundBy(env, leaves[0], bindings);
      var rest :- ReboundLeaves(env, leaves[1..], bindings);
      Some([leaf] + rest)
  }

  function RebindRestored(env: Env, leaves: seq<LeafAction>, bindings: seq<Binding>): Option<CanonicalManifest> {
    if !WellFormedBindings(env, bindings) || |bindings| != |leaves| then None
    else
      var rebound :- ReboundLeaves(env, leaves, bindings);
      if !Distinct(LogicalIds(rebound)) then None
      else Some(CanonicalManifest(rebound, Freeze(env, ManifestText(rebound))))
  }

  function Rebind(env: Env, bytes: string, digest: string, bindings: seq<Binding>): Option<CanonicalManifest> {
    var leaves :- RestoreManifest(env, bytes, digest);
    RebindRestored(env, leaves, bindings)
  }

  // ---------------------------------------------------------------- the code's loops

  // rebind_persisted_manifest_for_routine_occurrence
  method RebindPersistedManifest(env: Env, bytes: string, expectedDigest: string, bindings: seq<Binding>)
    returns (r: Option<CanonicalManifest>)
    ensures r == Rebind(env, bytes, expectedDigest, bindings)
  {
    hide RestoreLeaf, ParseDocument, StructFields, ManifestText, ParseDigest, WellFormedBindings, RebindRestored;
    var expected := ParseDigest(env, expectedDigest);
    if expected.None? {
      return None;
    }
    var items := PersistedLeaves(env, bytes);
    if items.None? {
      return None;
    }
    var leaves := RestorePersistedLeaves(env, items.value);
    if leaves.None? || ManifestText(leaves.value) != bytes || env.sha256(bytes) != expected.value {
      return None;
    }
    assert RestoreManifest(env, bytes, expectedDigest) == leaves;
    r := RebindLeavesInPlace(env, leaves.value, bindings);
  }

  // The first loop: restore each leaf and refuse a repeated logical identity.
  method RestorePersistedLeaves(env: Env, items: seq<Value>) returns (r: Option<seq<LeafAction>>)
    ensures r == if RestoreLeaves(env, items).Some? && Distinct(LogicalIds(RestoreLeaves(env, items).value))
                 then RestoreLeaves(env, items) else None
  {
    hide RestoreLeaf;
    var ids: set<string> := {};
    var leaves: seq<LeafAction> := [];
    for i := 0 to |items|
      invariant RestoreLeaves(env, items[..i]) == Some(leaves)
      invariant Distinct(LogicalIds(leaves))
      invariant forall id :: id in ids <==> id in LogicalIds(leaves)
    {
      var leaf := RestoreLeaf(env, items[i]);
      RestoreLeavesSnoc(env, items[..i], items[i]);
      assert items[..i] + [items[i]] == items[..i + 1];
      RestoreLeavesPrefix(env, items, i + 1);
      if leaf.None? {
        return None;
      }
      MapSnoc(leaves, leaf.value);
      DistinctSnoc(LogicalIds(leaves), leaf.value.logicalActionId);
      if leaf.value.logicalActionId in ids {
        RepeatedPrefix(env, items, i + 1, leaves + [leaf.value]);
        return None;
      }
      ids := ids + {leaf.value.logicalActionId};
      leaves := leaves + [leaf.value];
    }
    assert items[..|items|] == items;
    return Some(leaves);
  }

  lemma MapSnoc(leaves: seq<LeafAction>, leaf: LeafAction)
    ensures LogicalIds(leaves + [leaf]) == LogicalIds(leaves) + [leaf.logicalActionId]
  {
  }

  lemma {:induction false} RestoreLeavesSnoc(env: Env, vs: seq<Value>, v: Value)
    ensures RestoreLeaves(env, vs + [v])
         == if RestoreLeaves(env, vs).Some? && RestoreLeaf(env, v).Some?
            then Some(RestoreLeaves(env, vs).value + [RestoreLeaf(env, v).value]) else None
  {
    hide RestoreLeaf;
    if vs == [] {
      assert vs + [v] == [v];
      assert [v][1..] == [] && RestoreLeaves(env, []) == Some([]);
      if RestoreLeaf(env, v).Some? {
        assert [RestoreLeaf(env, v).value] + [] == [] + [RestoreLeaf(env, v).value];
      }
    } else {
      RestoreLeavesSnoc(env, vs[1..], v);
      assert (vs + [v])[1..] == vs[1..] + [v];
      if RestoreLeaves(env, vs).Some? && RestoreLeaf(env, v).Some? {
        var head, tail, last := RestoreLeaf(env, vs[0]).value, RestoreLeaves(env, vs[1..]).value, RestoreLeaf(env, v).value;
        assert [head] + (tail + [last]) == ([head] + tail) + [last];
      }
    }
  }

  lemma {:induction false} RestoreLeavesPrefix(env: Env, vs: seq<Value>, n: nat)
    requires n <= |vs|
    ensures RestoreLeaves(env, vs).Some? ==>
      RestoreLeaves(env, vs[..n]).Some? && RestoreLeaves(env, vs[..n]).value <= RestoreLeaves(env, vs).value
  {
    hide RestoreLeaf;
    if n > 0 {
      RestoreLeavesPrefix(env, vs[1..], n - 1);
      assert vs[..n][1..] == vs[1..][..n - 1];
    }
  }

  lemma RepeatedPrefix(env: Env, vs: seq<Value>, n: nat, prefix: seq<LeafAction>)
    requires n <= |vs| && RestoreLeaves(env, vs[..n]) == Some(prefix) && !Distinct(LogicalIds(prefix))
    ensures RestoreLeaves(env, vs).Some? ==> !Distinct(LogicalIds(RestoreLeaves(env, vs).value))
  {
    hide RestoreLeaf;
    if RestoreLeaves(env, vs).Some? {
      RestoreLeavesPrefix(env, vs, n);
      var all := RestoreLeaves(env, vs).value;
      var i, j :| 0 <= i < j < |prefix| && LogicalIds(prefix)[i] == LogicalIds(prefix)[j];
      assert LogicalIds(all)[i] == LogicalIds(all)[j];
    }
  }

  // The remaining loops: index the bindings, then edit each leaf in place and take its binding away.
  method RebindLeavesInPlace(env: Env, leaves: seq<LeafAction>, bindings: seq<Binding>)
    returns (r: Option<CanonicalManifest>)
    requires Distinct(LogicalIds(leaves))
    ensures r == RebindRestored(env, leaves, bindings)
  {
    hide ManifestText, LeafText, TargetsText;
    var indexed := IndexBindings(env, bindings);
    if indexed.None? || |indexed.value| != |leaves| {
      if indexed.Some? { IndexSize(bindings, indexed.value); }
      return None;
    }
    IndexSize(bindings, indexed.value);
    var rebound := EditLeaves(env, leaves, bindings, indexed.value);
    if rebound.None? {
      return None;
    }
    return Some(CanonicalManifest(rebound.value, Freeze(env, ManifestText(rebound.value))));
  }

  ghost predicate Indexes(index: map<string, Binding>, bindings: seq<Binding>) {
    forall id :: (if id in index then Some(index[id]) else None) == BindingFor(bindings, id)
  }

  // One more binding: well-formed when its id is normal and not in the index yet.
  lemma NextBinding(env: Env, bindings: seq<Binding>, i: nat, index: map<string, Binding>)
    requires i < |bindings| && Indexes(index, bindings[..i])
    ensures WellFormedBindings(env, bindings[..i + 1]) <==>
      && WellFormedBindings(env, bindings[..i])
      && NormalIdentifier(env, bindings[i].persistedLogicalActionId)
      && bindings[i].persistedLogicalActionId !in index
    ensures bindings[i].persistedLogicalActionId !in index ==>
      Indexes(index[bindings[i].persistedLogicalActionId := bindings[i]], bindings[..i + 1])
  {
    hide NormalIdentifier, BindingFor, Distinct;
    var b := bindings[i];
    assert bindings[..i + 1] == bindings[..i] + [b];
    BindingForSnoc(bindings[..i], b);
    BindingForMember(bindings[..i], b.persistedLogicalActionId);
    assert Map(PersistedIdOf, bindings[..i + 1]) == Map(PersistedIdOf, bindings[..i]) + [b.persistedLogicalActionId];
    DistinctSnoc(Map(PersistedIdOf, bindings[..i]), b.persistedLogicalActionId);
  }

  lemma WellFormedPrefix(env: Env, bindings: seq<Binding>, n: nat)
    requires n <= |bindings|
    ensures WellFormedBindings(env, bindings) ==> WellFormedBindings(env, bindings[..n])
    ensures n == 0 ==> WellFormedBindings(env, bindings[..n])
  {
    hide NormalIdentifier, Distinct;
    assert bindings == bindings[..n] + bindings[n..];
    assert Map(PersistedIdOf, bindings) == Map(PersistedIdOf, bindings[..n]) + Map(PersistedIdOf, bindings[n..]);
    DistinctConcat(Map(PersistedIdOf, bindings[..n]), Map(PersistedIdOf, bindings[n..]));
    assert n == 0 ==> Map(PersistedIdOf, bindings[..n]) == [];
    NoRepetition<string>();
  }

  lemma NoRepetition<T>()
    ensures Distinct<T>([])
  {
  }

  method IndexBindings(env: Env, bindings: seq<Binding>) returns (r: Option<map<string, Binding>>)
    ensures r.Some? <==> WellFormedBindings(env, bindings)
    ensures r.Some? ==> Indexes(r.value, bindings)
  {
    hide Identifier, Indexes, WellFormedBindings;
    var index: map<string, Binding> := map[];
    NothingIndexed();
    WellFormedPrefix(env, bindings, 0);
    for i := 0 to |bindings|
      invariant WellFormedBindings(env, bindings[..i])
      invariant Indexes(index, bindings[..i])
    {
      var b := bindings[i];
      NextBinding(env, bindings, i, index);
      WellFormedPrefix(env, bindings, i + 1);
      var persisted := Identifier(env, b.persistedLogicalActionId);
      if persisted.None? || persisted.value != b.persistedLogicalActionId {
        return None;
      }
      if persisted.value in index {
        return None;
      }
      index := index[persisted.value := b];
    }
    assert bindings[..|bindings|] == bindings;
    return Some(index);
  }

  lemma NothingIndexed()
    ensures Indexes(map[], [])
  {
  }

  ghost function OrLast(found: Option<Binding>, b: Binding, id: string): Option<Binding> {
    if found.None? && id == b.persistedLogicalActionId then Some(b) else found
  }

  lemma {:induction false} BindingForSnoc(bindings: seq<Binding>, b: Binding)
    ensures forall id :: BindingFor(bindings + [b], id) == OrLast(BindingFor(bindings, id), b, id)
  {
    if bindings == [] {
      assert bindings + [b] == [b];
      assert forall id :: BindingFor([b][1..], id) == None;
    } else {
      BindingForSnoc(bindings[1..], b);
      assert (bindings + [b])[1..] == bindings[1..] + [b];
    }
  }

  lemma {:induction false} BindingForMember(bindings: seq<Binding>, id: string)
    ensures BindingFor(bindings, id).Some? <==> id in Map(PersistedIdOf, bindings)
    ensures BindingFor(bindings, id).Some? ==>
      BindingFor(bindings, id).value in bindings && BindingFor(bindings, id).value.persistedLogicalActionId == id
  {
    if bindings != [] {
      BindingForMember(bindings[1..], id);
      assert Map(PersistedIdOf, bindings) == [bindings[0].persistedLogicalActionId] + Map(PersistedIdOf, bindings[1..]);
    }
  }

  lemma {:induction false} BindingForEach(bindings: seq<Binding>, i: nat)
    requires i < |bindings| && Distinct(Map(PersistedIdOf, bindings))
    ensures BindingFor(bindings, bindings[i].persistedLogicalActionId) == Some(bindings[i])
  {
    if i > 0 {
      assert Map(PersistedIdOf, bindings)[0] != Map(PersistedIdOf, bindings)[i];
      assert Map(PersistedIdOf, bindings)[1..] == Map(PersistedIdOf, bindings[1..]);
      BindingForEach(bindings[1..], i - 1);
    }
  }

  lemma IndexSize(bindings: seq<Binding>, index: map<string, Binding>)
    requires Distinct(Map(PersistedIdOf, bindings)) && Indexes(index, bindings)
    ensures |index| == |bindings|
  {
    hide BindingFor;
    var ids := Map(PersistedIdOf, bindings);
    hide Map;
    forall id ensures id in index.Keys <==> id in ids { BindingForMember(bindings, id); }
    DistinctElements(ids, index.Keys);
    assert |index| == |index.Keys|;
  }

  lemma {:induction false} DistinctElements(ids: seq<string>, s: set<string>)
    requires Distinct(ids) && forall id :: id in s <==> id in ids
    ensures |s| == |ids|
  {
    if ids != [] {
      assert ids[0] !in ids[1..];
      forall id ensures id in s - {ids[0]} <==> id in ids[1..] {
        if id in s && id != ids[0] {
          var k :| 0 <= k < |ids| && ids[k] == id;
          assert ids[1..][k - 1] == id;
        }
      }
      DistinctElements(ids[1..], s - {ids[0]});
    } else {
      assert s == {};
    }
  }

  // The bindings left over are those of the leaves still to come.
  ghost predicate Serves(remaining: map<string, Binding>, leaves: seq<LeafAction>, from: nat, bindings: seq<Binding>) {
    forall k :: from <= k < |leaves| ==>
      BoundTo(remaining, leaves[k].logicalActionId) == BindingFor(bindings, leaves[k].logicalActionId)
  }

  function BoundTo(index: map<string, Binding>, id: string): Option<Binding> {
    if id in index then Some(index[id]) else None
  }

  lemma ServesAll(index: map<string, Binding>, leaves: seq<LeafAction>, bindings: seq<Binding>)
    requires Indexes(index, bindings)
    ensures Serves(index, leaves, 0, bindings)
  {
    hide BindingFor;
  }

  lemma ServesNext(remaining: map<string, Binding>, leaves: seq<LeafAction>, i: nat, bindings: seq<Binding>)
    requires i < |leaves| && Distinct(LogicalIds(leaves)) && Serves(remaining, leaves, i, bindings)
    ensures BoundTo(remaining, leaves[i].logicalActionId) == BindingFor(bindings, leaves[i].logicalActionId)
    ensures Serves(remaining - {leaves[i].logicalActionId}, leaves, i + 1, bindings)
  {
    hide BindingFor;
    forall k | i < k < |leaves| ensures leaves[k].logicalActionId != leaves[i].logicalActionId {
      assert LogicalIds(leaves)[i] != LogicalIds(leaves)[k];
    }
  }

  lemma NoIds(leaves: seq<LeafAction>)
    ensures LogicalIds(leaves[..0]) == [] && Distinct(LogicalIds(leaves[..0]))
  {
  }

  lemma ReboundLeafId(env: Env, leaf: LeafAction, b: Binding)
    requires ReboundLeaf(env, leaf, b).Some?
    ensures ReboundLeaf(env, leaf, b).value.logicalActionId == b.occurrenceLogicalActionId
  {
    hide LeafText, TargetsText, Identifier;
  }

  method EditLeaves(env: Env, original: seq<LeafAction>, ghost bindings: seq<Binding>, index: map<string, Binding>)
    returns (r: Option<seq<LeafAction>>)
    requires Indexes(index, bindings) && Distinct(LogicalIds(original))
    ensures var spec := ReboundLeaves(env, original, bindings);
      r == if spec.Some? && Distinct(LogicalIds(spec.value)) then spec else None
  {
    hide TargetsText, BindingFor, Identifier, LeafText, ReboundLeaf, Serves, Distinct;
    ServesAll(index, original, bindings);
    NoIds(original);
    var leaves, remaining := original, index;
    var occurrenceIds: set<string> := {};
    for i := 0 to |original|
      invariant |leaves| == |original| && leaves[i..] == original[i..]
      invariant forall k :: 0 <= k < i ==> ReboundBy(env, original[k], bindings) == Some(leaves[k])
      invariant Distinct(LogicalIds(leaves[..i]))
      invariant forall id :: id in occurrenceIds <==> id in LogicalIds(leaves[..i])
      invariant Serves(remaining, original, i, bindings)
    {
      var leaf := leaves[i];
      assert leaf == original[i];
      ServesNext(remaining, original, i, bindings);
      if leaf.logicalActionId !in remaining {
        return None;
      }
      var b := remaining[leaf.logicalActionId];
      remaining := remaining - {leaf.logicalActionId};
      if b.occurrenceLogicalActionId in occurrenceIds {
        RepeatedOccurrence(env, original, bindings, leaves[..i], b);
        return None;
      }
      var edited := EditLeaf(env, leaf, b);
      if edited.None? {
        return None;
      }
      ReboundLeafId(env, leaf, b);
      MapSnoc(leaves[..i], edited.value);
      DistinctSnoc(LogicalIds(leaves[..i]), edited.value.logicalActionId);
      occurrenceIds := occurrenceIds + {b.occurrenceLogicalActionId};
      assert leaves[i := edited.value][..i + 1] == leaves[..i] + [edited.value];
      leaves := leaves[i := edited.value];
    }
    assert leaves[..|original|] == leaves;
    assert ReboundLeaves(env, original, bindings).value == leaves;
    return Some(leaves);
  }

  method EditLeaf(env: Env, leaf: LeafAction, b: Binding) returns (r: Option<LeafAction>)
    ensures r == ReboundLeaf(env, leaf, b)
  {
    hide LeafText, TargetsText;
    var occurrence := Identifier(env, b.occurrenceLogicalActionId);
    if occurrence.None? || occurrence.value != b.occurrenceLogicalActionId {
      return None;
    }
    var targets := TargetsText(b.targets);
    if targets.None? {
      return None;
    }
    var edited := leaf.(logicalActionId := occurrence.value);
    edited := edited.(targetSnapshot := Freeze(env, targets.value));
    edited := edited.(canonical := Freeze(env, LeafText(edited)));
    return Some(edited);
  }

  lemma RepeatedOccurrence(env: Env, original: seq<LeafAction>, bindings: seq<Binding>, done: seq<LeafAction>, b: Binding)
    requires |done| < |original|
    requires forall k :: 0 <= k < |done| ==> ReboundBy(env, original[k], bindings) == Some(done[k])
    requires BindingFor(bindings, original[|done|].logicalActionId) == Some(b)
    requires b.occurrenceLogicalActionId in LogicalIds(done)
    ensures var spec := ReboundLeaves(env, original, bindings); spec.Some? ==> !Distinct(LogicalIds(spec.value))
  {
    hide LeafText, TargetsText, BindingFor;
    var spec := ReboundLeaves(env, original, bindings);
    if spec.Some? {
      var k :| 0 <= k < |done| && LogicalIds(done)[k] == b.occurrenceLogicalActionId;
      assert ReboundBy(env, original[k], bindings) == Some(spec.value[k]);
      assert ReboundBy(env, original[|done|], bindings) == Some(spec.value[|done|]);
      assert LogicalIds(spec.value)[k] == LogicalIds(spec.value)[|done|];
    }
  }
}
