// The plugin registry: manifests by plugin id, and for each kind of capability an index from names
// to the plugin that declares them.
module PluginRegistry {
  import opened Wrappers
  import opened Ordering
  import opened PluginManifest

  type Index = map<string, string>

  datatype State = State(manifests: map<string, Manifest>, tools: Index, hooks: Index, providers: Index, channels: Index)
  {
    function Of(kind: Kind): Index {
      match kind
      case Tool => tools
      case Hook => hooks
      case Provider => providers
      case Channel => channels
    }
  }

  const EMPTY := State(map[], map[], map[], map[], map[])

  predicate Declares(m: Manifest, kind: Kind, name: string) {
    IsNameIn(Declared(m, kind), name)
  }

  // Every manifest is in normal form under its own id.
  ghost predicate KeepsNormalForms(blank: char -> bool, manifests: map<string, Manifest>) {
    forall p :: p in manifests ==> IsNormal(blank, manifests[p]) && manifests[p].pluginId == p
  }

  predicate Binds(s: State, kind: Kind, name: string, p: string) {
    name in s.Of(kind) && s.Of(kind)[name] == p
  }

  predicate Owns(s: State, kind: Kind, name: string, p: string) {
    p in s.manifests && Declares(s.manifests[p], kind, name)
  }

  // Every declaration of a registered plugin is in the index of its kind.
  ghost predicate Covers(s: State) {
    forall kind, name, p :: Owns(s, kind, name, p) ==> Binds(s, kind, name, p)
  }

  // And the indexes hold nothing else.
  ghost predicate Agrees(s: State) {
    forall kind, name, p :: Owns(s, kind, name, p) <==> Binds(s, kind, name, p)
  }

  ghost predicate Sound(blank: char -> bool, s: State) {
    KeepsNormalForms(blank, s.manifests) && Covers(s)
  }

  lemma SameIndex(s: State, t: State, kind: Kind)
    requires Agrees(s) && Agrees(t) && s.manifests == t.manifests
    ensures s.Of(kind) == t.Of(kind)
  {
    hide Declares;
    forall name ensures (name in s.Of(kind) <==> name in t.Of(kind))
      && (name in s.Of(kind) ==> s.Of(kind)[name] == t.Of(kind)[name])
    {
      if name in s.Of(kind) {
        assert Binds(s, kind, name, s.Of(kind)[name]);
        assert Owns(t, kind, name, s.Of(kind)[name]);
      }
      if name in t.Of(kind) {
        assert Binds(t, kind, name, t.Of(kind)[name]);
        assert Owns(s, kind, name, t.Of(kind)[name]);
      }
    }
  }

  // The manifests fix what the indexes hold.
  lemma AgreementIsUnique(s: State, t: State)
    requires Agrees(s) && Agrees(t) && s.manifests == t.manifests
    ensures s == t
  {
    hide Agrees;
    SameIndex(s, t, Tool);
    SameIndex(s, t, Hook);
    SameIndex(s, t, Provider);
    SameIndex(s, t, Channel);
  }

  // ---------------------------------------------------------------- one index

  ghost predicate IsFree(bindings: Index, caps: seq<Capability>) {
    forall name :: IsNameIn(caps, name) ==> name !in bindings
  }

  predicate HasDistinctNames(caps: seq<Capability>) {
    forall i, j :: 0 <= i < j < |caps| ==> caps[i].name != caps[j].name
  }

  ghost predicate IsBound(before: Index, after: Index, caps: seq<Capability>, pluginId: string) {
    forall name :: (name in after <==> name in before || IsNameIn(caps, name))
      && (name in after ==> after[name] == if name in before then before[name] else pluginId)
  }

  // The position of the first declared name that is bound already.
  function FirstTaken(bindings: Index, caps: seq<Capability>): (n: nat)
    ensures n <= |caps|
    ensures forall i :: 0 <= i < n ==> caps[i].name !in bindings
    ensures n < |caps| ==> caps[n].name in bindings
  {
    if caps == [] || caps[0].name in bindings then 0 else 1 + FirstTaken(bindings, caps[1..])
  }

  lemma FreeUntilTaken(bindings: Index, caps: seq<Capability>)
    ensures IsFree(bindings, caps) <==> FirstTaken(bindings, caps) == |caps|
  {
    var n := FirstTaken(bindings, caps);
    if n < |caps| {
      NameAt(caps, n);
    }
  }

  // register_bindings: the names before the first clash are bound, and stay so.
  method RegisterBindings(bindings: Index, pluginId: string, caps: seq<Capability>) returns (after: Index, ok: bool)
    requires HasDistinctNames(caps)
    ensures ok <==> FirstTaken(bindings, caps) == |caps|
    ensures IsBound(bindings, after, caps[..FirstTaken(bindings, caps)], pluginId)
  {
    hide IsNameIn, FirstTaken;
    after := bindings;
    NoNames();
    var i := 0;
    while i < |caps|
      invariant 0 <= i <= FirstTaken(bindings, caps)
      invariant IsBound(bindings, after, caps[..i], pluginId)
    {
      assert caps[..i + 1] == caps[..i] + [caps[i]];
      NamesOfSnoc(caps[..i], caps[i]);
      NewName(caps, i);
      if caps[i].name in after {
        return after, false;
      }
      after := after[caps[i].name := pluginId];
      i := i + 1;
    }
    return after, true;
  }

  lemma NewName(caps: seq<Capability>, i: nat)
    requires i < |caps| && HasDistinctNames(caps)
    ensures !IsNameIn(caps[..i], caps[i].name)
  {
  }

  lemma NameAt(caps: seq<Capability>, i: nat)
    requires i < |caps|
    ensures IsNameIn(caps, caps[i].name)
  {
  }

  lemma {:induction false} NormalNamesAreDistinct(blank: char -> bool, caps: seq<Capability>)
    requires NormalCapabilities(blank, caps).Some?
    ensures HasDistinctNames(NormalCapabilities(blank, caps).value)
  {
    hide NormalCapability;
    if caps != [] {
      NormalNamesAreDistinct(blank, caps[..|caps| - 1]);
    }
  }

  lemma NormalManifestNames(blank: char -> bool, m: Manifest, kind: Kind)
    requires Normalize(blank, m).Some?
    ensures HasDistinctNames(Declared(Normalize(blank, m).value, kind))
  {
    hide NormalCapabilities, NormalArtifact, Cleaned, IsSupported, Identifier, Trim;
    NormalNamesAreDistinct(blank, match kind case Tool => m.tools case Hook => m.hooks
                                             case Provider => m.providers case Channel => m.channels);
  }

  // ---------------------------------------------------------------- specification of the operations

  // The manifest is acceptable on its own, its id is new, and none of its names is taken.
  ghost predicate CanRegister(blank: char -> bool, s: State, m: Manifest) {
    && Normalize(blank, m).Some?
    && Normalize(blank, m).value.pluginId !in s.manifests
    && forall kind :: IsFree(s.Of(kind), Declared(Normalize(blank, m).value, kind))
  }

  // The manifest is acceptable on its own and its id is new: what is left to chance is its names.
  predicate IsNewcomer(blank: char -> bool, s: State, m: Manifest) {
    Normalize(blank, m).Some? && Normalize(blank, m).value.pluginId !in s.manifests
  }

  ghost predicate IsRegistered(s: State, n: Manifest, t: State) {
    && t.manifests == s.manifests[n.pluginId := n]
    && forall kind :: IsBound(s.Of(kind), t.Of(kind), Declared(n, kind), n.pluginId)
  }

  // Kinds are bound in this order, and a clash ends the attempt.
  predicate Passes(s: State, n: Manifest, kind: Kind) {
    FirstTaken(s.Of(kind), Declared(n, kind)) == |Declared(n, kind)|
  }

  predicate GetsTo(s: State, n: Manifest, kind: Kind) {
    match kind
    case Tool => true
    case Hook => Passes(s, n, Tool)
    case Provider => Passes(s, n, Tool) && Passes(s, n, Hook)
    case Channel => Passes(s, n, Tool) && Passes(s, n, Hook) && Passes(s, n, Provider)
  }

  // The declarations bound of each kind: all of them before the clash, those up to the first taken
  // name where it happens, and none after it.
  function Reached(s: State, n: Manifest, kind: Kind): seq<Capability> {
    if GetsTo(s, n, kind) then Declared(n, kind)[..FirstTaken(s.Of(kind), Declared(n, kind))] else []
  }

  // What an attempt to bind all declarations leaves, whether it succeeds or not.
  ghost predicate IsAttempted(s: State, n: Manifest, t: State) {
    && t.manifests == s.manifests
    && forall kind :: IsBound(s.Of(kind), t.Of(kind), Reached(s, n, kind), n.pluginId)
  }

  // The first declared name, in the order tools, hooks, providers, channels, is bound already.
  predicate IsFirstNameTaken(s: State, n: Manifest) {
    if n.tools != [] then n.tools[0].name in s.tools
    else if n.hooks != [] then n.hooks[0].name in s.hooks
    else if n.providers != [] then n.providers[0].name in s.providers
    else n.channels != [] && n.channels[0].name in s.channels
  }

  // The indexes may have grown, on names nobody had.
  ghost predicate IsExtension(s: State, t: State) {
    && t.manifests == s.manifests
    && forall kind, name, p :: Binds(s, kind, name, p) ==> Binds(t, kind, name, p)
  }

  // The new manifest is acceptable on its own, its id is registered, and its names clash with no
  // other plugin.
  ghost predicate CanReplace(blank: char -> bool, s: State, m: Manifest) {
    && Normalize(blank, m).Some?
    && Normalize(blank, m).value.pluginId in s.manifests
    && forall kind, name, p :: Owns(s, kind, name, p) && Declares(Normalize(blank, m).value, kind, name) ==>
         p == Normalize(blank, m).value.pluginId
  }

  datatype Operation = Register(manifest: Manifest) | Replace(manifest: Manifest)

  // What one operation does to the registry, whether it succeeds or not.
  ghost predicate IsStep(blank: char -> bool, s: State, op: Operation, t: State) {
    match op
    case Register(m) =>
      if CanRegister(blank, s, m) then IsRegistered(s, Normalize(blank, m).value, t)
      else if IsNewcomer(blank, s, m) then IsAttempted(s, Normalize(blank, m).value, t)
      else t == s
    case Replace(m) =>
      if CanReplace(blank, s, m) then
        var n := Normalize(blank, m).value;
        t.manifests == s.manifests[n.pluginId := n] && Agrees(t)
      else t == s
  }

  // ---------------------------------------------------------------- what the operations keep

  lemma RegisteringKeepsSoundness(blank: char -> bool, s: State, m: Manifest, t: State)
    requires IsBlankTest(blank) && Sound(blank, s) && CanRegister(blank, s, m)
    requires IsRegistered(s, Normalize(blank, m).value, t)
    ensures Sound(blank, t)
    ensures Agrees(s) ==> Agrees(t)
  {
    hide Normalize, IsNormal, IsBlankTest;
    var n := Normalize(blank, m).value;
    NormalizeIsIdempotent(blank, m);
    forall kind, name, p | Owns(t, kind, name, p) ensures Binds(t, kind, name, p) {
      assert IsBound(s.Of(kind), t.Of(kind), Declared(n, kind), n.pluginId);
      assert IsFree(s.Of(kind), Declared(n, kind));
      assert p != n.pluginId ==> Owns(s, kind, name, p);
    }
    if Agrees(s) {
      forall kind, name, p | Binds(t, kind, name, p) ensures Owns(t, kind, name, p) {
        assert IsBound(s.Of(kind), t.Of(kind), Declared(n, kind), n.pluginId);
        assert name in s.Of(kind) ==> Binds(s, kind, name, p) && Owns(s, kind, name, p);
      }
    }
  }

  lemma ExtendingKeepsSoundness(blank: char -> bool, s: State, t: State)
    requires Sound(blank, s) && IsExtension(s, t)
    ensures Sound(blank, t)
  {
    hide IsNormal, Declares;
  }

  lemma AttemptExtends(s: State, n: Manifest, t: State)
    requires IsAttempted(s, n, t)
    ensures IsExtension(s, t)
  {
    hide IsNameIn, Reached;
    forall kind, name, p | Binds(s, kind, name, p) ensures Binds(t, kind, name, p) {
      assert IsBound(s.Of(kind), t.Of(kind), Reached(s, n, kind), n.pluginId);
    }
  }

  lemma BoundByNobody(before: Index, after: Index, pluginId: string)
    requires IsBound(before, after, [], pluginId)
    ensures after == before
  {
    NoNames();
  }

  lemma NothingReached(s: State, n: Manifest)
    ensures IsFirstNameTaken(s, n) ==> forall kind :: Reached(s, n, kind) == []
    ensures !IsFirstNameTaken(s, n) ==>
      (exists kind :: Reached(s, n, kind) != []) || forall kind :: Declared(n, kind) == []
  {
    if !IsFirstNameTaken(s, n) {
      if n.tools != [] {
        assert Reached(s, n, Tool) != [];
      } else if n.hooks != [] {
        assert Reached(s, n, Hook) != [];
      } else if n.providers != [] {
        assert Reached(s, n, Provider) != [];
      } else if n.channels != [] {
        assert Reached(s, n, Channel) != [];
      }
    }
  }

  // After a clash the indexes agree with the manifests exactly when nothing had been bound before it.
  lemma RefusalLeavesNames(s: State, n: Manifest, t: State)
    requires Agrees(s) && n.pluginId !in s.manifests && IsAttempted(s, n, t)
    requires exists kind :: !IsFree(s.Of(kind), Declared(n, kind))
    ensures Agrees(t) <==> IsFirstNameTaken(s, n)
    ensures forall kind, i :: 0 <= i < |Reached(s, n, kind)| ==> Binds(t, kind, Reached(s, n, kind)[i].name, n.pluginId)
  {
    hide Reached, IsFirstNameTaken, IsNameIn;
    NothingReached(s, n);
    NoNames();
    forall kind, i | 0 <= i < |Reached(s, n, kind)|
      ensures Binds(t, kind, Reached(s, n, kind)[i].name, n.pluginId)
    {
      assert IsBound(s.Of(kind), t.Of(kind), Reached(s, n, kind), n.pluginId);
      NameAt(Reached(s, n, kind), i);
      ReachedIsFree(s, n, kind, i);
    }
    if IsFirstNameTaken(s, n) {
      forall kind ensures t.Of(kind) == s.Of(kind) {
        assert IsBound(s.Of(kind), t.Of(kind), Reached(s, n, kind), n.pluginId);
        BoundByNobody(s.Of(kind), t.Of(kind), n.pluginId);
      }
      SameState(s, t);
    } else {
      var clash :| !IsFree(s.Of(clash), Declared(n, clash));
      assert Declared(n, clash) != [];
      var kind :| Reached(s, n, kind) != [];
      var first := Reached(s, n, kind)[0].name;
      assert Binds(t, kind, first, n.pluginId) && !Owns(t, kind, first, n.pluginId);
    }
  }

  lemma ReachedIsFree(s: State, n: Manifest, kind: Kind, i: nat)
    requires i < |Reached(s, n, kind)|
    ensures Reached(s, n, kind)[i].name !in s.Of(kind)
  {
  }

  lemma SameState(s: State, t: State)
    requires s.manifests == t.manifests && forall kind :: s.Of(kind) == t.Of(kind)
    ensures s == t
  {
    assert s.Of(Tool) == t.Of(Tool) && s.Of(Hook) == t.Of(Hook);
    assert s.Of(Provider) == t.Of(Provider) && s.Of(Channel) == t.Of(Channel);
  }

  lemma FullAttempt(s: State, n: Manifest, t: State)
    requires IsAttempted(s, n, t) && forall kind :: IsFree(s.Of(kind), Declared(n, kind))
    ensures forall kind :: IsBound(s.Of(kind), t.Of(kind), Declared(n, kind), n.pluginId)
  {
    hide IsBound, IsFree;
    forall kind ensures Passes(s, n, kind) {
      FreeUntilTaken(s.Of(kind), Declared(n, kind));
    }
    assert Passes(s, n, Tool) && Passes(s, n, Hook) && Passes(s, n, Provider) && Passes(s, n, Channel);
    forall kind ensures IsBound(s.Of(kind), t.Of(kind), Declared(n, kind), n.pluginId) {
      assert IsBound(s.Of(kind), t.Of(kind), Reached(s, n, kind), n.pluginId);
      var caps := Declared(n, kind);
      assert caps[..|caps|] == caps;
    }
  }

  // Replacement touches only the plugin it names.
  lemma ReplacingTouchesOnePlugin(s: State, n: Manifest, t: State)
    requires Agrees(s) && Agrees(t) && n.pluginId in s.manifests
    requires t.manifests == s.manifests[n.pluginId := n]
    ensures forall p :: p in s.manifests && p != n.pluginId ==> t.manifests[p] == s.manifests[p]
    ensures forall kind, name, p :: p != n.pluginId ==> (Binds(s, kind, name, p) <==> Binds(t, kind, name, p))
    ensures forall kind, name :: Binds(t, kind, name, n.pluginId) <==> Declares(n, kind, name)
  {
    hide Declares, Binds;
    assert forall kind, name, p :: p != n.pluginId ==> (Owns(s, kind, name, p) <==> Owns(t, kind, name, p));
    assert forall kind, name :: Owns(t, kind, name, n.pluginId) <==> Declares(n, kind, name);
  }

  // ---------------------------------------------------------------- the registry

  class Registry {
    var manifests: map<string, Manifest>
    var toolBindings: Index
    var hookBindings: Index
    var providerBindings: Index
    var channelBindings: Index

    constructor ()
      ensures Contents() == EMPTY
    {
      manifests, toolBindings, hookBindings, providerBindings, channelBindings := map[], map[], map[], map[], map[];
    }

    function Contents(): State
      reads this
    {
      State(manifests, toolBindings, hookBindings, providerBindings, channelBindings)
    }

    // register_manifest. A refusal leaves the manifests alone, but a clash leaves the names before it
    // bound to a plugin that is not registered.
    method RegisterManifest(blank: char -> bool, m: Manifest) returns (ok: bool)
      requires IsBlankTest(blank) && Sound(blank, Contents())
      modifies this
      ensures ok <==> CanRegister(blank, old(Contents()), m)
      ensures ok ==> IsRegistered(old(Contents()), Normalize(blank, m).value, Contents())
      ensures !ok && !IsNewcomer(blank, old(Contents()), m) ==> Contents() == old(Contents())
      ensures !ok && IsNewcomer(blank, old(Contents()), m) ==>
        IsAttempted(old(Contents()), Normalize(blank, m).value, Contents())
      ensures IsStep(blank, old(Contents()), Register(m), Contents())
      ensures Sound(blank, Contents())
      ensures ok && Agrees(old(Contents())) ==> Agrees(Contents())
      ensures !ok && Agrees(old(Contents())) ==> (Agrees(Contents()) <==>
        !IsNewcomer(blank, old(Contents()), m) || IsFirstNameTaken(old(Contents()), Normalize(blank, m).value))
    {
      hide Normalize, IsBlankTest, IsFree, IsBound, KeepsNormalForms, Agrees, Covers, IsFirstNameTaken, Reached;
      ghost var before := Contents();
      var normal := Normalize(blank, m);
      if normal.None? || normal.value.pluginId in manifests {
        return false;
      }
      var n := normal.value;
      NormalManifestNames(blank, m, Tool);
      NormalManifestNames(blank, m, Hook);
      NormalManifestNames(blank, m, Provider);
      NormalManifestNames(blank, m, Channel);
      ok := BindAll(n);
      if ok {
        FullAttempt(before, n, Contents());
        manifests := manifests[n.pluginId := n];
        RegisteringKeepsSoundness(blank, before, m, Contents());
      } else {
        AttemptExtends(before, n, Contents());
        ExtendingKeepsSoundness(blank, before, Contents());
        if Agrees(before) {
          RefusalLeavesNames(before, n, Contents());
        }
      }
    }

    method BindAll(n: Manifest) returns (ok: bool)
      requires forall kind :: HasDistinctNames(Declared(n, kind))
      modifies `toolBindings, `hookBindings, `providerBindings, `channelBindings
      ensures ok <==> forall kind :: IsFree(old(Contents()).Of(kind), Declared(n, kind))
      ensures IsAttempted(old(Contents()), n, Contents())
    {
      hide IsFree, HasDistinctNames, IsBound, FirstTaken, IsAttempted, Reached;
      ghost var before := Contents();
      assert HasDistinctNames(Declared(n, Tool)) && HasDistinctNames(Declared(n, Hook));
      assert HasDistinctNames(Declared(n, Provider)) && HasDistinctNames(Declared(n, Channel));
      UnboundKind(n.pluginId);
      ReachedKinds(before, n);
      FreeUntilTaken(before.tools, n.tools);
      FreeUntilTaken(before.hooks, n.hooks);
      FreeUntilTaken(before.providers, n.providers);
      FreeUntilTaken(before.channels, n.channels);
      toolBindings, ok := RegisterBindings(toolBindings, n.pluginId, n.tools);
      if !ok {
        assert !IsFree(before.Of(Tool), Declared(n, Tool));
        AttemptedKinds(before, n, Contents());
        return;
      }
      hookBindings, ok := RegisterBindings(hookBindings, n.pluginId, n.hooks);
      if !ok {
        assert !IsFree(before.Of(Hook), Declared(n, Hook));
        AttemptedKinds(before, n, Contents());
        return;
      }
      providerBindings, ok := RegisterBindings(providerBindings, n.pluginId, n.providers);
      if !ok {
        assert !IsFree(before.Of(Provider), Declared(n, Provider));
        AttemptedKinds(before, n, Contents());
        return;
      }
      channelBindings, ok := RegisterBindings(channelBindings, n.pluginId, n.channels);
      assert !ok ==> !IsFree(before.Of(Channel), Declared(n, Channel));
      AttemptedKinds(before, n, Contents());
    }

    // list_manifests: in the order of the ids.
    method ListIds() returns (ids: seq<string>)
      ensures Sorted(LexLe, ids) && Distinct(ids)
      ensures forall p :: p in ids <==> p in manifests
    {
      var listed: seq<string> := [];
      var pending := manifests.Keys;
      while pending != {}
        invariant pending <= manifests.Keys && Distinct(listed)
        invariant forall p :: p in listed <==> p in manifests && p !in pending
        decreases |pending|
      {
        var p :| p in pending;
        pending := pending - {p};
        listed := listed + [p];
      }
      ids := Sort(LexLe, listed);
      LexIsTotalOrder();
      SortSorts(LexLe, listed);
      SortPermutes(LexLe, listed);
      PermutationKeepsDistinct(ids, listed);
      forall p ensures p in ids <==> p in listed {
        SameElements(ids, listed, p);
      }
    }

    // capability_owner: in any state the plugin the index names, and when the indexes agree with the
    // manifests the one that declares the name.
    method CapabilityOwner(blank: char -> bool, kind: Kind, name: string) returns (owner: Option<string>)
      ensures forall p :: owner == Some(p) <==>
        Identifier(blank, name).Some? && Binds(Contents(), kind, Identifier(blank, name).value, p)
      ensures Agrees(Contents()) ==> forall p :: owner == Some(p) <==>
        Identifier(blank, name).Some? && Owns(Contents(), kind, Identifier(blank, name).value, p)
    {
      hide Owns, Identifier;
      var normalized := Identifier(blank, name);
      if normalized.None? {
        return None;
      }
      var index := Contents().Of(kind);
      owner := if normalized.value in index then Some(index[normalized.value]) else None;
      assert forall p :: Binds(Contents(), kind, normalized.value, p) <==> owner == Some(p);
    }

    // A new registry of all manifests but one.
    method RebuildOthers(blank: char -> bool, ids: seq<string>, id: string) returns (rebuilt: Registry)
      requires IsBlankTest(blank) && Sound(blank, Contents())
      requires Distinct(ids) && forall p :: p in ids <==> p in manifests
      ensures fresh(rebuilt)
      ensures rebuilt.manifests == Without(manifests, ids, id)
      ensures Agrees(rebuilt.Contents()) && Sound(blank, rebuilt.Contents())
    {
      hide Normalize, IsBlankTest, KeepsNormalForms, Owns, IsFree, IsBound, Agrees, Covers;
      rebuilt := new Registry();
      EmptyIsSound(blank);
      var i := 0;
      while i < |ids|
        invariant 0 <= i <= |ids|
        invariant fresh(rebuilt) && unchanged(this)
        invariant rebuilt.manifests == Without(manifests, ids[..i], id)
        invariant Agrees(rebuilt.Contents()) && Sound(blank, rebuilt.Contents())
      {
        assert ids[i] in ids;
        WithoutNext(manifests, ids, i, id);
        if ids[i] != id {
          OldManifestFits(blank, Contents(), rebuilt.Contents(), ids, i, id);
          var ok := rebuilt.RegisterManifest(blank, manifests[ids[i]]);
          assert ok;
        }
        i := i + 1;
      }
      assert ids[..|ids|] == ids;
    }

    // replace_manifest: rebuilds the whole registry, and takes the new one only when that went well.
    method ReplaceManifest(blank: char -> bool, m: Manifest) returns (replaced: Option<Manifest>)
      requires IsBlankTest(blank) && Sound(blank, Contents())
      modifies this
      ensures replaced.Some? <==> CanReplace(blank, old(Contents()), m)
      ensures replaced.None? ==> Contents() == old(Contents())
      ensures replaced.Some? ==> replaced == Normalize(blank, m)
      ensures replaced.Some? ==> manifests == old(manifests)[replaced.value.pluginId := replaced.value]
      ensures replaced.Some? ==> Agrees(Contents())
      ensures IsStep(blank, old(Contents()), Replace(m), Contents())
      ensures Sound(blank, Contents())
    {
      hide Normalize, IsBlankTest, Identifier, KeepsNormalForms, Owns, IsFree, IsBound, Agrees, Covers;
      NormalId(blank, m);
      var normalized := Identifier(blank, m.pluginId);
      if normalized.None? || normalized.value !in manifests {
        return None;
      }
      var id := normalized.value;
      var ids := ListIds();
      var rebuilt := RebuildOthers(blank, ids, id);
      ReplacementFits(blank, Contents(), rebuilt.Contents(), ids, id, m);
      var ok := rebuilt.RegisterManifest(blank, m);
      if !ok {
        return None;
      }
      replaced := Some(rebuilt.manifests[id]);
      assert rebuilt.manifests == manifests[id := replaced.value];
      manifests, toolBindings, hookBindings, providerBindings, channelBindings :=
        rebuilt.manifests, rebuilt.toolBindings, rebuilt.hookBindings, rebuilt.providerBindings, rebuilt.channelBindings;
    }
  }

  // ---------------------------------------------------------------- rebuilding

  lemma EmptyIsSound(blank: char -> bool)
    ensures Sound(blank, EMPTY) && Agrees(EMPTY)
  {
  }

  lemma NormalId(blank: char -> bool, m: Manifest)
    ensures Normalize(blank, m).Some? ==> Identifier(blank, m.pluginId) == Some(Normalize(blank, m).value.pluginId)
  {
    hide NormalCapabilities, NormalArtifact, Cleaned, IsSupported, Identifier, Trim;
  }

  // The manifests of the listed ids but one.
  function Without(manifests: map<string, Manifest>, ids: seq<string>, id: string): map<string, Manifest> {
    map p | p in manifests && p in ids && p != id :: manifests[p]
  }

  lemma WithoutNext(manifests: map<string, Manifest>, ids: seq<string>, i: nat, id: string)
    requires i < |ids| && Distinct(ids) && ids[i] in manifests
    ensures ids[i] !in Without(manifests, ids[..i], id)
    ensures Without(manifests, ids[..i + 1], id) ==
      (if ids[i] == id then Without(manifests, ids[..i], id)
       else Without(manifests, ids[..i], id)[ids[i] := manifests[ids[i]]])
  {
    assert ids[..i + 1] == ids[..i] + [ids[i]];
  }

  lemma CoveredOnce(s: State, kind: Kind, name: string, p: string, q: string)
    requires Covers(s) && Owns(s, kind, name, p) && Owns(s, kind, name, q)
    ensures p == q
  {
    hide Owns;
    assert Binds(s, kind, name, p) && Binds(s, kind, name, q);
  }

  // The names bound in an index are the names of the manifests.
  lemma BoundByManifests(t: State, kind: Kind, name: string)
    requires Agrees(t)
    ensures name in t.Of(kind) <==> exists p :: Owns(t, kind, name, p)
  {
    hide Owns;
    if name in t.Of(kind) {
      assert Binds(t, kind, name, t.Of(kind)[name]);
    }
  }

  lemma DeclaredNamesAreFree(t: State, n: Manifest)
    ensures (forall kind :: IsFree(t.Of(kind), Declared(n, kind)))
       <==> (forall kind, name :: Declares(n, kind, name) ==> name !in t.Of(kind))
  {
    hide IsNameIn;
    if forall kind :: IsFree(t.Of(kind), Declared(n, kind)) {
      forall kind, name | Declares(n, kind, name) ensures name !in t.Of(kind) {
        assert IsFree(t.Of(kind), Declared(n, kind));
      }
    }
    if forall kind, name :: Declares(n, kind, name) ==> name !in t.Of(kind) {
      forall kind, name | IsNameIn(Declared(n, kind), name) ensures name !in t.Of(kind) {
        assert Declares(n, kind, name);
      }
    }
  }

  // A manifest of a sound registry can be registered beside any of the others.
  lemma OldManifestFits(blank: char -> bool, s: State, t: State, ids: seq<string>, i: nat, id: string)
    requires Sound(blank, s) && Agrees(t) && i < |ids| && ids[i] in s.manifests && Distinct(ids)
    requires t.manifests == Without(s.manifests, ids[..i], id)
    ensures Normalize(blank, s.manifests[ids[i]]) == Some(s.manifests[ids[i]])
    ensures s.manifests[ids[i]].pluginId == ids[i]
    ensures CanRegister(blank, t, s.manifests[ids[i]])
  {
    hide Normalize, Declares, IsFree, Covers;
    var p := ids[i];
    assert IsNormal(blank, s.manifests[p]);
    WithoutNext(s.manifests, ids, i, id);
    forall kind, name | Declares(s.manifests[p], kind, name) ensures name !in t.Of(kind) {
      BoundByManifests(t, kind, name);
      assert Owns(s, kind, name, p);
      if q :| Owns(t, kind, name, q) {
        CoveredOnce(s, kind, name, p, q);
      }
    }
    DeclaredNamesAreFree(t, s.manifests[p]);
  }

  lemma ReplacementFits(blank: char -> bool, s: State, t: State, ids: seq<string>, id: string, m: Manifest)
    requires Agrees(t) && t.manifests == Without(s.manifests, ids, id)
    requires (forall p :: p in ids <==> p in s.manifests) && id in s.manifests
    requires Identifier(blank, m.pluginId) == Some(id)
    ensures CanRegister(blank, t, m) <==> CanReplace(blank, s, m)
  {
    hide Normalize, Identifier, Declares, IsFree, Agrees;
    NormalId(blank, m);
    if Normalize(blank, m).Some? {
      var n := Normalize(blank, m).value;
      DeclaredNamesAreFree(t, n);
      forall kind, name ensures name in t.Of(kind) <==> exists p :: p != id && Owns(s, kind, name, p) {
        BoundByManifests(t, kind, name);
        if p :| p != id && Owns(s, kind, name, p) {
          assert Owns(t, kind, name, p);
        }
        if p :| Owns(t, kind, name, p) {
          assert p != id && Owns(s, kind, name, p);
        }
      }
    }
  }

  lemma ReachedKinds(s: State, n: Manifest)
    ensures Reached(s, n, Tool) == n.tools[..FirstTaken(s.tools, n.tools)]
    ensures Reached(s, n, Hook) ==
      if GetsTo(s, n, Hook) then n.hooks[..FirstTaken(s.hooks, n.hooks)] else []
    ensures Reached(s, n, Provider) ==
      if GetsTo(s, n, Provider) then n.providers[..FirstTaken(s.providers, n.providers)] else []
    ensures Reached(s, n, Channel) ==
      if GetsTo(s, n, Channel) then n.channels[..FirstTaken(s.channels, n.channels)] else []
  {
    hide FirstTaken;
  }

  lemma AttemptedKinds(s: State, n: Manifest, t: State)
    requires t.manifests == s.manifests
    requires IsBound(s.tools, t.tools, Reached(s, n, Tool), n.pluginId)
    requires IsBound(s.hooks, t.hooks, Reached(s, n, Hook), n.pluginId)
    requires IsBound(s.providers, t.providers, Reached(s, n, Provider), n.pluginId)
    requires IsBound(s.channels, t.channels, Reached(s, n, Channel), n.pluginId)
    ensures IsAttempted(s, n, t)
  {
    hide IsBound, Reached;
  }

  lemma UnboundKind(pluginId: string)
    ensures forall bindings :: IsBound(bindings, bindings, [], pluginId)
  {
    NoNames();
  }
}
