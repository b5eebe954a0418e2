// Whole runs of the plugin registry: any sequence of registrations and replacements, refused ones
// included, from an empty registry.
module PluginRuns {
  import opened Wrappers
  import opened PluginManifest
  import opened PluginRegistry

  ghost predicate IsRun(blank: char -> bool, states: seq<State>, ops: seq<Operation>) {
    && |states| == |ops| + 1
    && states[0] == EMPTY
    && forall i :: 0 <= i < |ops| ==> IsStep(blank, states[i], ops[i], states[i + 1])
  }

  lemma RunPrefix(blank: char -> bool, states: seq<State>, ops: seq<Operation>)
    requires IsRun(blank, states, ops) && ops != []
    ensures IsRun(blank, states[..|ops|], ops[..|ops| - 1])
    ensures IsStep(blank, states[|ops| - 1], ops[|ops| - 1], states[|ops|])
  {
    hide IsStep;
  }

  // ---------------------------------------------------------------- every run is sound

  lemma StepKeepsSoundness(blank: char -> bool, s: State, op: Operation, t: State)
    requires IsBlankTest(blank) && Sound(blank, s) && IsStep(blank, s, op, t)
    ensures Sound(blank, t)
  {
    hide Normalize, IsBlankTest, IsNormal, IsBound, IsFree, CanReplace;
    var m := op.manifest;
    if op.Register? && CanRegister(blank, s, m) {
      RegisteringKeepsSoundness(blank, s, m, t);
    } else if op.Register? && IsNewcomer(blank, s, m) {
      AttemptExtends(s, Normalize(blank, m).value, t);
      ExtendingKeepsSoundness(blank, s, t);
    } else if op.Replace? && CanReplace(blank, s, m) {
      ReplaceableIsNormal(blank, s, m);
    }
  }

  lemma ReplaceableIsNormal(blank: char -> bool, s: State, m: Manifest)
    requires IsBlankTest(blank) && CanReplace(blank, s, m)
    ensures Normalize(blank, m).Some? && IsNormal(blank, Normalize(blank, m).value)
  {
    NormalizeIsIdempotent(blank, m);
  }

  // In every state of every run the manifests are normal, and each name a registered plugin declares
  // belongs to that plugin alone.
  lemma {:induction false} RunsAreSound(blank: char -> bool, states: seq<State>, ops: seq<Operation>)
    requires IsBlankTest(blank) && IsRun(blank, states, ops)
    ensures Sound(blank, states[|ops|])
    ensures forall kind, name, p, q ::
      Owns(states[|ops|], kind, name, p) && Owns(states[|ops|], kind, name, q) ==> p == q
  {
    hide IsBlankTest, IsStep, KeepsNormalForms, Owns, Covers;
    if ops == [] {
      EmptyIsSound(blank);
    } else {
      RunPrefix(blank, states, ops);
      RunsAreSound(blank, states[..|ops|], ops[..|ops| - 1]);
      StepKeepsSoundness(blank, states[|ops| - 1], ops[|ops| - 1], states[|ops|]);
    }
    forall kind, name, p, q | Owns(states[|ops|], kind, name, p) && Owns(states[|ops|], kind, name, q) ensures p == q {
      CoveredOnce(states[|ops|], kind, name, p, q);
    }
  }

  // ---------------------------------------------------------------- when the indexes agree

  // A refused registration that had bound a name before its clash.
  ghost predicate LeavesNames(blank: char -> bool, s: State, op: Operation) {
    && op.Register?
    && IsNewcomer(blank, s, op.manifest) && !CanRegister(blank, s, op.manifest)
    && !IsFirstNameTaken(s, Normalize(blank, op.manifest).value)
  }

  ghost predicate Rebuilds(blank: char -> bool, s: State, op: Operation) {
    op.Replace? && CanReplace(blank, s, op.manifest)
  }

  // No refused registration has left names since the last successful replacement.
  ghost predicate IsClean(blank: char -> bool, states: seq<State>, ops: seq<Operation>)
    requires |states| == |ops| + 1
  {
    ops == [] ||
    (var last := |ops| - 1;
     || Rebuilds(blank, states[last], ops[last])
     || (!LeavesNames(blank, states[last], ops[last]) && IsClean(blank, states[..|ops|], ops[..last])))
  }

  lemma StepFromAgreement(blank: char -> bool, s: State, op: Operation, t: State)
    requires IsBlankTest(blank) && Sound(blank, s) && Agrees(s) && IsStep(blank, s, op, t)
    ensures Agrees(t) <==> !LeavesNames(blank, s, op)
  {
    hide Normalize, IsBlankTest, KeepsNormalForms, Covers, Agrees, IsFirstNameTaken, IsFree, IsBound, Reached, CanReplace;
    var m := op.manifest;
    if op.Register? && CanRegister(blank, s, m) {
      RegisteringKeepsSoundness(blank, s, m, t);
    } else if op.Register? && IsNewcomer(blank, s, m) {
      RefusalLeavesNames(s, Normalize(blank, m).value, t);
    }
  }

  // A name that no plugin declares stays bound until a replacement rebuilds the indexes.
  lemma StepFromDisagreement(blank: char -> bool, s: State, op: Operation, t: State)
    requires Covers(s) && !Agrees(s) && IsStep(blank, s, op, t)
    ensures Agrees(t) <==> Rebuilds(blank, s, op)
  {
    hide Normalize, IsFirstNameTaken, Reached, CanReplace, Declares;
    if !Rebuilds(blank, s, op) {
      var kind, name, p :| Binds(s, kind, name, p) && !Owns(s, kind, name, p);
      var m := op.manifest;
      if op.Register? && CanRegister(blank, s, m) {
        var n := Normalize(blank, m).value;
        assert IsBound(s.Of(kind), t.Of(kind), Declared(n, kind), n.pluginId);
        assert IsFree(s.Of(kind), Declared(n, kind));
        DeclaredIsNamed(n, kind, name);
      } else if op.Register? && IsNewcomer(blank, s, m) {
        AttemptExtends(s, Normalize(blank, m).value, t);
      }
      assert Binds(t, kind, name, p) && !Owns(t, kind, name, p);
    }
  }

  lemma DeclaredIsNamed(n: Manifest, kind: Kind, name: string)
    ensures Declares(n, kind, name) <==> IsNameIn(Declared(n, kind), name)
  {
  }

  // After any run the indexes agree with the manifests exactly when no refused registration has left
  // names since the last successful replacement.
  lemma {:induction false} AgreesExactly(blank: char -> bool, states: seq<State>, ops: seq<Operation>)
    requires IsBlankTest(blank) && IsRun(blank, states, ops)
    ensures Agrees(states[|ops|]) <==> IsClean(blank, states, ops)
  {
    hide IsBlankTest, IsStep, KeepsNormalForms, Agrees, Covers, LeavesNames, Rebuilds;
    if ops == [] {
      EmptyIsSound(blank);
    } else {
      var last := |ops| - 1;
      RunPrefix(blank, states, ops);
      RunsAreSound(blank, states[..|ops|], ops[..last]);
      AgreesExactly(blank, states[..|ops|], ops[..last]);
      if Agrees(states[last]) {
        StepFromAgreement(blank, states[last], ops[last], states[|ops|]);
        RebuildingLeavesNothing(blank, states[last], ops[last]);
      } else {
        StepFromDisagreement(blank, states[last], ops[last], states[|ops|]);
      }
    }
  }

  lemma RebuildingLeavesNothing(blank: char -> bool, s: State, op: Operation)
    ensures Rebuilds(blank, s, op) ==> !LeavesNames(blank, s, op)
  {
  }
}
