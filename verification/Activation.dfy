// Activation of a staged state root: a sequence of renames, syncs and checks in the parent
// directory, each of which may fail without effect, and the undo handler behind them.
module Activation {
  import opened Wrappers

  type Name = string

  datatype Node = File(bytes: seq<int>) | Directory(children: map<Name, Node>)

  // What the parent directory holds.
  type Listing = map<Name, Node>

  datatype Point =
    | OldRootRollbackRenameBefore
    | OldRootRollbackRenameAfter
    | OldRootRollbackMetadataSyncBefore
    | OldRootRollbackMetadataSyncAfter
    | NewRootActivationRenameBefore
    | NewRootActivationRenameAfter
    | NewRootActivationMetadataSyncBefore
    | NewRootActivationMetadataSyncAfter
    | PostActivationVerificationBefore
    | PostActivationVerificationAfter
    | PostActivationFinalizationBefore
    | PostActivationFinalizationAfter

  datatype Step =
    | MakeParent
    | FailPoint(point: Point)
    | RenameNoReplace(from: Name, to: Name)
    | SyncParent
    | RemoveDirectory(name: Name)
    | MakeDirectory(name: Name)
    | PostActivationCheck
    | SyncTree

  datatype Refusal = NotADirectory | NotEmptyWithoutForce | RollbackExists | StageReappeared

  datatype Failure = Failed(step: Step) | Refused(refusal: Refusal)

  datatype Result = Ok | Raise(failure: Failure) {
    predicate IsFailure() {
      Raise?
    }

    function PropagateFailure(): Result
      requires Raise?
    {
      this
    }
  }

  datatype Outcome = Returned(rollback: Option<Name>) | Raised(failure: Failure)

  function RollbackName(target: Name, stamp: string): Name {
    target + ".rollback." + stamp
  }

  function StageName(target: Name, token: string): Name {
    "." + target + ".stage." + token
  }

  // A time stamp is shorter than the thirty-two characters of a stage token, which keeps the names apart.
  lemma StageNameIsApart(target: Name, token: string, stamp: string)
    requires |token| == 32 && |stamp| < 30
    ensures StageName(target, token) != target
    ensures StageName(target, token) != RollbackName(target, stamp)
    ensures RollbackName(target, stamp) != target
  {
    assert |StageName(target, token)| == |target| + 40;
    assert |RollbackName(target, stamp)| == |target| + 10 + |stamp|;
  }

  predicate HoldsState(listing: Listing, name: Name) {
    name in listing && listing[name].Directory? && listing[name].children != map[]
  }

  predicate HoldsEmptyDirectory(listing: Listing, name: Name) {
    name in listing && listing[name] == Directory(map[])
  }

  // What the activation asks of the parent directory before it touches anything.
  predicate Permitted(began: Listing, target: Name, rollback: Name, force: bool) {
    && (target in began ==> began[target].Directory?)
    && (HoldsState(began, target) ==> force && rollback !in began)
  }

  // Why an activation that is not permitted is refused.
  predicate IsReason(refusal: Refusal, began: Listing, target: Name, rollback: Name, force: bool) {
    match refusal
    case NotADirectory => target in began && !began[target].Directory?
    case NotEmptyWithoutForce => HoldsState(began, target) && !force
    case RollbackExists => HoldsState(began, target) && force && rollback in began
    case StageReappeared => false
  }

  lemma OneReason(began: Listing, target: Name, rollback: Name, force: bool)
    ensures Permitted(began, target, rollback, force) <==> forall refusal :: !IsReason(refusal, began, target, rollback, force)
    ensures forall a, b ::
      IsReason(a, began, target, rollback, force) && IsReason(b, began, target, rollback, force) ==> a == b
    ensures IsReason(RollbackExists, began, target, rollback, force) ==> rollback in began && target in began
  {
    if !Permitted(began, target, rollback, force) {
      assert || IsReason(NotADirectory, began, target, rollback, force)
             || IsReason(NotEmptyWithoutForce, began, target, rollback, force)
             || IsReason(RollbackExists, began, target, rollback, force);
    }
  }

  // The listing after a rename.
  function Moved(listing: Listing, from: Name, to: Name): Listing
    requires from in listing
  {
    (listing - {from})[to := listing[from]]
  }

  // The old root has made way: kept at the rollback name, or removed when it was an empty directory.
  function Parked(began: Listing, target: Name, rollback: Name): Listing {
    if HoldsState(began, target) then Moved(began, target, rollback) else began - {target}
  }

  function Activated(began: Listing, target: Name, stage: Name, rollback: Name): Listing
    requires stage in Parked(began, target, rollback)
  {
    Moved(Parked(began, target, rollback), stage, target)
  }

  lemma ActivationDiffers(began: Listing, target: Name, stage: Name, rollback: Name)
    requires stage != target && stage != rollback && target != rollback
    requires stage in Parked(began, target, rollback)
    requires target !in Parked(began, target, rollback)
    ensures Activated(began, target, stage, rollback) != began
    ensures stage in began && stage !in Activated(began, target, stage, rollback)
    ensures target in Activated(began, target, stage, rollback)
    ensures Moved(Activated(began, target, stage, rollback), target, stage) == Parked(began, target, rollback)
  {
  }

  lemma ParkingFacts(began: Listing, target: Name, rollback: Name, force: bool)
    requires target != rollback
    requires Permitted(began, target, rollback, force)
    ensures target !in Parked(began, target, rollback)
    ensures target !in began ==> Parked(began, target, rollback) == began
    ensures target in began ==> HoldsState(began, target) != HoldsEmptyDirectory(began, target)
    ensures HoldsState(began, target) ==>
      rollback in Parked(began, target, rollback) && Moved(Parked(began, target, rollback), rollback, target) == began
    ensures HoldsEmptyDirectory(began, target) ==>
      Parked(began, target, rollback)[target := Directory(map[])] == began
  {
  }

  lemma Names(began: Listing, target: Name, stamp: string)
    ensures RollbackName(target, stamp) != target
    ensures HoldsState(began, target) || HoldsEmptyDirectory(began, target) ==> target in began
  {
    assert |RollbackName(target, stamp)| > |target|;
  }

  // The only listings an activation ever produces.
  ghost predicate Station(e: Listing, began: Listing, target: Name, stage: Name, rollback: Name, force: bool) {
    || e == began
    || (Permitted(began, target, rollback, force)
        && (|| e == Parked(began, target, rollback)
            || (stage in Parked(began, target, rollback) && e == Activated(began, target, stage, rollback))))
  }

  function KeptAt(began: Listing, target: Name, rollback: Name): Option<Name> {
    if HoldsState(began, target) then Some(rollback) else None
  }

  lemma StationKeepsData(e: Listing, began: Listing, target: Name, stage: Name, rollback: Name, force: bool)
    requires stage != target && stage != rollback && target != rollback
    requires Station(e, began, target, stage, rollback, force)
    ensures HoldsState(began, target) ==>
      (target in e && e[target] == began[target]) || (rollback in e && e[rollback] == began[target])
    ensures stage in began ==>
      (stage in e && e[stage] == began[stage]) || (target in e && e[target] == began[stage])
    ensures forall name :: name !in {target, stage, rollback} ==>
      (name in e <==> name in began) && (name in began ==> e[name] == began[name])
    ensures rollback in began ==> rollback in e && e[rollback] == began[rollback]
    ensures e != began ==> !HoldsState(began, target) || force
  {
  }

  // ---------------------------------------------------------------- what was attempted

  // One attempted step: the listing it found, and whether it succeeded.
  datatype Event = Event(step: Step, found: Listing, ok: bool)

  function RenameAsideScript(target: Name, kept: Name): seq<Step> {
    [FailPoint(OldRootRollbackRenameBefore), RenameNoReplace(target, kept), FailPoint(OldRootRollbackRenameAfter)]
  }

  const PARK_SYNC_SCRIPT: seq<Step> := [
    FailPoint(OldRootRollbackMetadataSyncBefore), SyncParent, FailPoint(OldRootRollbackMetadataSyncAfter)]

  function KeepScript(target: Name, kept: Name): seq<Step> {
    RenameAsideScript(target, kept) + PARK_SYNC_SCRIPT
  }

  // The steps that free the target name: of an old root, of an empty directory, or of nothing.
  function ParkScript(began: Listing, target: Name, rollback: Name): seq<Step> {
    if HoldsState(began, target) then KeepScript(target, rollback)
    else if target in began then [RemoveDirectory(target), SyncParent]
    else []
  }

  const VERIFY_SCRIPT: seq<Step> := [
    FailPoint(PostActivationVerificationBefore), PostActivationCheck, FailPoint(PostActivationVerificationAfter)]
  const FLUSH_SCRIPT: seq<Step> := [FailPoint(PostActivationFinalizationBefore), SyncTree]
  const CHECK_SCRIPT: seq<Step> := VERIFY_SCRIPT + FLUSH_SCRIPT
  const SETTLE_SCRIPT: seq<Step> := [
    FailPoint(NewRootActivationRenameAfter), FailPoint(NewRootActivationMetadataSyncBefore), SyncParent,
    FailPoint(NewRootActivationMetadataSyncAfter)]

  function RenameScript(target: Name, stage: Name): seq<Step> {
    [FailPoint(NewRootActivationRenameBefore), RenameNoReplace(stage, target)]
  }

  // The log has grown from position `from` on by successful steps, these and in this order.
  ghost predicate Ran(log: seq<Event>, from: nat, script: seq<Step>) {
    && |log| == from + |script|
    && forall k :: from <= k < |log| ==> log[k].step == script[k - from] && log[k].ok
  }

  // Or by the first of them, of which only the last failed.
  ghost predicate Stopped(log: seq<Event>, from: nat, script: seq<Step>, step: Step) {
    && from < |log| <= from + |script|
    && (forall k :: from <= k < |log| ==> log[k].step == script[k - from])
    && (forall k :: from <= k < |log| - 1 ==> log[k].ok)
    && log[|log| - 1].step == step && !log[|log| - 1].ok
  }

  ghost predicate Performed(log: seq<Event>, from: nat, script: seq<Step>, r: Result) {
    match r
    case Ok => Ran(log, from, script)
    case Raise(Failed(step)) => Stopped(log, from, script, step)
    case Raise(Refused(_)) => Ran(log, from, [])
  }

  lemma RanOk(log: seq<Event>, from: nat, script: seq<Step>, r: Result)
    requires r.Ok?
    ensures Performed(log, from, script, r) <==> Ran(log, from, script)
  {
  }

  lemma PerformedPart(log: seq<Event>, from: nat, first: seq<Step>, next: seq<Step>, r: Result)
    requires Performed(log, from, first, r) && r.Raise?
    ensures Performed(log, from, first + next, r)
  {
  }

  lemma PerformedNext(log: seq<Event>, from: nat, first: seq<Step>, longer: seq<Event>, next: seq<Step>, r: Result)
    requires Ran(log, from, first) && log <= longer && Performed(longer, |log|, next, r)
    requires r.Raise? ==> r.failure.Failed?
    ensures Performed(longer, from, first + next, r)
  {
    assert forall k :: 0 <= k < |log| ==> longer[k] == log[k];
  }

  ghost predicate AllSucceeded(log: seq<Event>, from: nat) {
    forall k :: from <= k < |log| ==> log[k].ok
  }

  ghost predicate IsCheckedAt(log: seq<Event>, target: Name, stage: Name, activated: Listing,
                              renamed: int, synced: int, checked: int, flushed: int)
  {
    && 0 <= renamed < synced < checked < flushed < |log|
    && log[renamed].step == RenameNoReplace(stage, target) && log[renamed].ok
    && log[synced] == Event(SyncParent, activated, true)
    && log[checked] == Event(PostActivationCheck, activated, true)
    && log[flushed] == Event(SyncTree, activated, true)
  }

  // After the rename of the candidate, and on the listing it produced: a successful sync of the parent
  // directory, then a successful check of the new root, then a successful sync of its tree.
  ghost predicate IsChecked(log: seq<Event>, from: nat, target: Name, stage: Name, activated: Listing) {
    exists renamed, synced, checked, flushed ::
      from <= renamed && IsCheckedAt(log, target, stage, activated, renamed, synced, checked, flushed)
  }

  function ActivationScript(target: Name, stage: Name): seq<Step> {
    RenameScript(target, stage) + (SETTLE_SCRIPT + CHECK_SCRIPT)
  }

  // Everything a successful activation attempts, in order.
  function FullScript(began: Listing, target: Name, stage: Name, rollback: Name): seq<Step> {
    [MakeParent] + ParkScript(began, target, rollback) + ActivationScript(target, stage)
      + [FailPoint(PostActivationFinalizationAfter)]
  }

  lemma CheckedFrom(log: seq<Event>, from: nat, at: nat, target: Name, stage: Name, activated: Listing)
    requires from <= at && Ran(log, at, ActivationScript(target, stage))
    requires forall k :: at + 2 <= k < |log| ==> log[k].found == activated
    ensures IsChecked(log, from, target, stage, activated)
  {
    var script := ActivationScript(target, stage);
    assert |script| == 11;
    assert script[1] == RenameNoReplace(stage, target) && script[4] == SyncParent;
    assert script[7] == PostActivationCheck && script[10] == SyncTree;
    assert log[at + 1].step == RenameNoReplace(stage, target) && log[at + 1].ok;
    assert log[at + 4] == Event(SyncParent, activated, true);
    assert log[at + 7] == Event(PostActivationCheck, activated, true);
    assert log[at + 10] == Event(SyncTree, activated, true);
    assert IsCheckedAt(log, target, stage, activated, at + 1, at + 4, at + 7, at + 10);
  }

  lemma StillChecked(log: seq<Event>, longer: seq<Event>, from: nat, later: nat, target: Name, stage: Name, activated: Listing)
    requires IsChecked(log, later, target, stage, activated) && log <= longer && from <= later
    ensures IsChecked(longer, from, target, stage, activated)
  {
    var renamed, synced, checked, flushed :|
      later <= renamed && IsCheckedAt(log, target, stage, activated, renamed, synced, checked, flushed);
    assert IsCheckedAt(longer, target, stage, activated, renamed, synced, checked, flushed);
  }

  // The step failed, and nothing after it did.
  ghost predicate FailedLast(log: seq<Event>, from: nat, step: Step) {
    exists k | from <= k < |log| :: log[k].step == step && !log[k].ok && AllSucceeded(log, k + 1)
  }

  // Since position `from` of the log nothing failed, or the last attempt only, which is raised.
  ghost predicate EndsWith(log: seq<Event>, from: nat, r: Result) {
    match r
    case Ok => AllSucceeded(log, from)
    case Raise(Failed(step)) => from < |log| && log[|log| - 1].step == step && !log[|log| - 1].ok
    case Raise(Refused(_)) => true
  }

  ghost predicate IsUndoStep(step: Step) {
    step.RenameNoReplace? || step.SyncParent? || step.MakeDirectory?
  }

  // A guarded block that stopped, and the handler behind it.
  lemma RaisedLast(start: seq<Event>, guarded: seq<Event>, log: seq<Event>, from: nat, script: seq<Step>, r: Result,
                   undone: Result, step: Step)
    requires |start| == from + 1 && start[from].ok && start <= guarded <= log
    requires Performed(guarded, |start|, script, r) && r.Raise?
    requires EndsWith(log, |guarded|, undone) && (undone.Raise? ==> undone.failure.Failed? && IsUndoStep(undone.failure.step))
    requires FailedLast(log, from, step)
    ensures (if undone.Raise? then undone.failure else r.failure) == Failed(step)
    ensures !IsUndoStep(step) ==> undone.Ok?
  {
    var k :| from <= k < |log| && log[k].step == step && !log[k].ok && AllSucceeded(log, k + 1);
    assert forall i :: 0 <= i < |guarded| ==> log[i] == guarded[i];
    assert guarded[from] == start[from];
  }

  lemma OnlyFailure(log: seq<Event>, from: nat)
    requires |log| == from + 1
    ensures forall step :: FailedLast(log, from, step) ==> step == log[from].step
  {
  }

  lemma NothingFailed(log: seq<Event>, from: nat, script: seq<Step>)
    requires Ran(log, from, script)
    ensures forall step :: !FailedLast(log, from, step)
  {
  }

  // A first step, the guarded block and the last step make the full script.
  lemma FullRun(start: seq<Event>, guarded: seq<Event>, log: seq<Event>, from: nat, began: Listing, target: Name, stage: Name,
                rollback: Name)
    requires |start| == from + 1 && start[from].ok && start[from].step == MakeParent && start <= guarded
    requires Ran(guarded, |start|, ParkScript(began, target, rollback) + ActivationScript(target, stage))
    requires |log| == |guarded| + 1 && guarded <= log
    requires log[|guarded|].step == FailPoint(PostActivationFinalizationAfter)
    ensures log[|guarded|].ok ==> Ran(log, from, FullScript(began, target, stage, rollback))
    ensures !log[|guarded|].ok ==>
      forall step :: FailedLast(log, from, step) ==> step == FailPoint(PostActivationFinalizationAfter)
  {
    hide ParkScript, ActivationScript;
    var script := ParkScript(began, target, rollback) + ActivationScript(target, stage);
    assert guarded[from] == start[from];
    assert forall k :: 0 <= k < |guarded| ==> log[k] == guarded[k];
    var full := FullScript(began, target, stage, rollback);
    assert full == [MakeParent] + script + [FailPoint(PostActivationFinalizationAfter)];
  }

  // The parent directory of the state root. `synced` is its last listing known to be on disk;
  // operation number n fails, without effect, when `faults(n)` holds.
  class ParentDirectory {
    var entries: Listing
    var synced: Listing
    var treeSynced: bool
    var clock: nat
    var failures: nat
    ghost var history: seq<Listing>
    ghost var log: seq<Event>
    const faults: nat -> bool

    constructor (entries: Listing, faults: nat -> bool)
      ensures this.entries == entries && synced == entries && this.faults == faults
      ensures failures == 0 && clock == 0 && !treeSynced && history == [] && log == []
    {
      this.entries, synced, this.faults := entries, entries, faults;
      failures, clock, treeSynced, history, log := 0, 0, false, [], [];
    }

    // Every listing from position `from` of the history on, and the synced one, is a station.
    ghost predicate OnTrack(from: nat, began: Listing, target: Name, stage: Name, rollback: Name, force: bool)
      reads this
    {
      && from <= |history|
      && Station(entries, began, target, stage, rollback, force)
      && Station(synced, began, target, stage, rollback, force)
      && (forall k :: from <= k < |history| ==> Station(history[k], began, target, stage, rollback, force))
    }

    // An operation that leaves the listing alone, and fails when it is not possible.
    method Attempt(step: Step, possible: bool := true) returns (r: Result)
      modifies `clock, `failures, `log
      ensures r == (if !faults(old(clock)) && possible then Ok else Raise(Failed(step)))
      ensures log == old(log) + [Event(step, entries, r.Ok?)]
      ensures clock == old(clock) + 1
      ensures failures == old(failures) + if r.Ok? then 0 else 1
    {
      var n := clock;
      clock := clock + 1;
      var ok := !faults(n) && possible;
      log := log + [Event(step, entries, ok)];
      if !ok {
        failures := failures + 1;
        return Raise(Failed(step));
      }
      return Ok;
    }

    method SyncDirectory() returns (r: Result)
      modifies `clock, `failures, `log, `synced
      ensures r == (if faults(old(clock)) then Raise(Failed(SyncParent)) else Ok)
      ensures log == old(log) + [Event(SyncParent, entries, r.Ok?)]
      ensures synced == if r.Ok? then entries else old(synced)
      ensures clock == old(clock) + 1
      ensures failures == old(failures) + if r.Ok? then 0 else 1
    {
      r := Attempt(SyncParent);
      if r.Ok? {
        synced := entries;
      }
    }

    // Atomic, and refuses to replace.
    method Rename(from: Name, to: Name) returns (r: Result)
      modifies `entries, `clock, `failures, `history, `log
      ensures r == (if !faults(old(clock)) && from in old(entries) && to !in old(entries) then Ok
                    else Raise(Failed(RenameNoReplace(from, to))))
      ensures entries == if r.Ok? then Moved(old(entries), from, to) else old(entries)
      ensures history == if r.Ok? then old(history) + [entries] else old(history)
      ensures log == old(log) + [Event(RenameNoReplace(from, to), old(entries), r.Ok?)]
      ensures clock == old(clock) + 1
      ensures failures == old(failures) + if r.Ok? then 0 else 1
    {
      r := Attempt(RenameNoReplace(from, to), from in entries && to !in entries);
      if r.Ok? {
        entries := Moved(entries, from, to);
        history := history + [entries];
      }
    }

    method RemoveEmptyDirectory(name: Name) returns (r: Result)
      requires HoldsEmptyDirectory(entries, name)
      modifies `entries, `clock, `failures, `history, `log
      ensures r == (if faults(old(clock)) then Raise(Failed(RemoveDirectory(name))) else Ok)
      ensures entries == if r.Ok? then old(entries) - {name} else old(entries)
      ensures history == if r.Ok? then old(history) + [entries] else old(history)
      ensures log == old(log) + [Event(RemoveDirectory(name), old(entries), r.Ok?)]
      ensures clock == old(clock) + 1
      ensures failures == old(failures) + if r.Ok? then 0 else 1
    {
      r := Attempt(RemoveDirectory(name));
      if r.Ok? {
        entries := entries - {name};
        history := history + [entries];
      }
    }

    method MakeEmptyDirectory(name: Name) returns (r: Result)
      requires name !in entries
      modifies `entries, `clock, `failures, `history, `log
      ensures r == (if faults(old(clock)) then Raise(Failed(MakeDirectory(name))) else Ok)
      ensures entries == if r.Ok? then old(entries)[name := Directory(map[])] else old(entries)
      ensures history == if r.Ok? then old(history) + [entries] else old(history)
      ensures log == old(log) + [Event(MakeDirectory(name), old(entries), r.Ok?)]
      ensures clock == old(clock) + 1
      ensures failures == old(failures) + if r.Ok? then 0 else 1
    {
      r := Attempt(MakeDirectory(name));
      if r.Ok? {
        entries := entries[name := Directory(map[])];
        history := history + [entries];
      }
    }

    // How far an attempt has come, and what its flags say about it.
    ghost predicate Reached(began: Listing, target: Name, stage: Name, rollbackName: Name, rollback: Option<Name>,
                            removedEmptyTarget: bool, newRootActivated: bool)
      reads this
    {
      && (rollback.Some? ==> rollback.value == rollbackName && HoldsState(began, target))
      && (removedEmptyTarget ==> HoldsEmptyDirectory(began, target))
      && (if newRootActivated then
            && stage in Parked(began, target, rollbackName)
            && entries == Activated(began, target, stage, rollbackName) != began
          else entries == began || entries == Parked(began, target, rollbackName))
      && (entries == began ==> !removedEmptyTarget && synced == began)
      && (entries != began ==>
          && rollback.Some? == HoldsState(began, target)
          && removedEmptyTarget == HoldsEmptyDirectory(began, target))
    }

    method MoveAside(target: Name, kept: Name) returns (r: Result)
      requires target in entries && kept !in entries && synced == entries
      modifies `entries, `synced, `clock, `failures, `history, `log
      ensures old(log) <= log && Performed(log, |old(log)|, KeepScript(target, kept), r)
      ensures entries == old(entries) ==> synced == entries && history == old(history)
      ensures entries != old(entries) ==>
        && entries == Moved(old(entries), target, kept) && history == old(history) + [entries]
        && (synced == entries || synced == old(entries))
      ensures failures == old(failures) + if r.Raise? then 1 else 0
      ensures r.Raise? ==> r.failure.Failed? && r.failure.step != FailPoint(PostActivationFinalizationAfter)
      ensures r.Ok? ==> entries == synced == Moved(old(entries), target, kept)
    {
      hide Performed, Moved;
      r := RenameAside(target, kept);
      ghost var renamed := log;
      if r.Raise? {
        PerformedPart(log, |old(log)|, RenameAsideScript(target, kept), PARK_SYNC_SCRIPT, r);
        return;
      }
      RanOk(log, |old(log)|, RenameAsideScript(target, kept), r);
      r := SyncNoted(OldRootRollbackMetadataSyncBefore, OldRootRollbackMetadataSyncAfter);
      PerformedNext(renamed, |old(log)|, RenameAsideScript(target, kept), log, PARK_SYNC_SCRIPT, r);
    }

    method RenameAside(target: Name, kept: Name) returns (r: Result)
      requires target in entries && kept !in entries && synced == entries
      modifies `entries, `clock, `failures, `history, `log
      ensures old(log) <= log && Performed(log, |old(log)|, RenameAsideScript(target, kept), r)
      ensures entries == old(entries) ==> history == old(history)
      ensures entries != old(entries) ==>
        entries == Moved(old(entries), target, kept) && history == old(history) + [entries]
      ensures failures == old(failures) + if r.Raise? then 1 else 0
      ensures r.Raise? ==> r.failure.Failed? && r.failure.step != FailPoint(PostActivationFinalizationAfter)
      ensures r.Ok? ==> entries == Moved(old(entries), target, kept) != old(entries)
    {
      r := Ok;
      :- Attempt(FailPoint(OldRootRollbackRenameBefore));
      :- Rename(target, kept);
      :- Attempt(FailPoint(OldRootRollbackRenameAfter));
      return Ok;
    }

    method SyncNoted(before: Point, after: Point) returns (r: Result)
      requires before != PostActivationFinalizationAfter && after != PostActivationFinalizationAfter
      modifies `synced, `clock, `failures, `log
      ensures old(log) <= log && Performed(log, |old(log)|, [FailPoint(before), SyncParent, FailPoint(after)], r)
      ensures forall k :: |old(log)| <= k < |log| ==> log[k].found == entries
      ensures synced == entries || synced == old(synced)
      ensures failures == old(failures) + if r.Raise? then 1 else 0
      ensures r.Raise? ==> r.failure.Failed? && r.failure.step != FailPoint(PostActivationFinalizationAfter)
      ensures r.Ok? ==> synced == entries
    {
      r := Ok;
      :- Attempt(FailPoint(before));
      :- SyncDirectory();
      :- Attempt(FailPoint(after));
      return Ok;
    }

    method ClearAway(target: Name) returns (r: Result, removed: bool)
      requires HoldsEmptyDirectory(entries, target) && synced == entries
      modifies `entries, `synced, `clock, `failures, `history, `log
      ensures old(log) <= log && Performed(log, |old(log)|, [RemoveDirectory(target), SyncParent], r)
      ensures entries == if removed then old(entries) - {target} else old(entries)
      ensures history == if removed then old(history) + [entries] else old(history)
      ensures synced == entries || (synced == old(entries) && removed)
      ensures failures == old(failures) + if r.Raise? then 1 else 0
      ensures r.Raise? ==> r.failure.Failed? && r.failure.step != FailPoint(PostActivationFinalizationAfter)
      ensures r.Ok? ==> removed && synced == entries
    {
      r, removed := Ok, false;
      :- RemoveEmptyDirectory(target);
      removed := true;
      :- SyncDirectory();
      return Ok, true;
    }

    // Makes the target name free, keeping a non-empty old root at the rollback name.
    method ParkOldRoot(target: Name, stage: Name, force: bool, stamp: string)
      returns (r: Result, rollback: Option<Name>, removedEmptyTarget: bool)
      requires stage != target && stage != RollbackName(target, stamp)
      requires synced == entries
      modifies `entries, `synced, `clock, `failures, `history, `log
      ensures OnTrack(|old(history)|, old(entries), target, stage, RollbackName(target, stamp), force)
      ensures Reached(old(entries), target, stage, RollbackName(target, stamp), rollback, removedEmptyTarget, false)
      ensures old(log) <= log
      ensures Performed(log, |old(log)|, ParkScript(old(entries), target, RollbackName(target, stamp)), r)
      ensures failures == old(failures) + if r.Raise? && r.failure.Failed? then 1 else 0
      ensures r.Raise? && r.failure.Refused? <==> !Permitted(old(entries), target, RollbackName(target, stamp), force)
      ensures r.Raise? && r.failure.Refused? ==> entries == old(entries)
      ensures r.Raise? && r.failure.Refused? ==>
        IsReason(r.failure.refusal, old(entries), target, RollbackName(target, stamp), force)
      ensures r.Raise? && r.failure.Refused? ==> (rollback.Some? <==> r.failure.refusal.RollbackExists?)
      ensures r.Raise? && r.failure.Refused? ==> !removedEmptyTarget
      ensures r != Raise(Failed(FailPoint(PostActivationFinalizationAfter)))
      ensures r.Ok? ==> entries == synced == Parked(old(entries), target, RollbackName(target, stamp))
      ensures r.Ok? ==> rollback.Some? == HoldsState(old(entries), target)
    {
      assert |target + ".rollback."| > |target|;
      r, rollback, removedEmptyTarget := Ok, None, false;
      if target in entries {
        if !entries[target].Directory? {
          r := Raise(Refused(NotADirectory));
          return;
        }
        if entries[target].children != map[] {
          if !force {
            r := Raise(Refused(NotEmptyWithoutForce));
            return;
          }
          rollback := Some(RollbackName(target, stamp));
          if rollback.value in entries {
            r := Raise(Refused(RollbackExists));
            return;
          }
          r := MoveAside(target, rollback.value);
        } else {
          r, removedEmptyTarget := ClearAway(target);
        }
      } else {
        assert entries - {target} == entries;
      }
    }

    // The steps after the renames, which leave the listing alone.
    method Settle() returns (r: Result)
      requires !treeSynced
      modifies `synced, `treeSynced, `clock, `failures, `log
      ensures old(log) <= log && Performed(log, |old(log)|, SETTLE_SCRIPT + CHECK_SCRIPT, r)
      ensures forall k :: |old(log)| <= k < |log| ==> log[k].found == entries
      ensures synced == entries || synced == old(synced)
      ensures failures == old(failures) + if r.Raise? then 1 else 0
      ensures r.Raise? ==> r.failure.Failed? && r.failure.step != FailPoint(PostActivationFinalizationAfter)
      ensures r.Ok? ==> synced == entries
      ensures treeSynced == r.Ok?
    {
      hide Performed;
      r := SyncRenamed();
      ghost var settled := log;
      if r.Raise? {
        PerformedPart(log, |old(log)|, SETTLE_SCRIPT, CHECK_SCRIPT, r);
        return;
      }
      RanOk(log, |old(log)|, SETTLE_SCRIPT, r);
      r := VerifyAndFlush();
      PerformedNext(settled, |old(log)|, SETTLE_SCRIPT, log, CHECK_SCRIPT, r);
    }

    method SyncRenamed() returns (r: Result)
      modifies `synced, `clock, `failures, `log
      ensures old(log) <= log && Performed(log, |old(log)|, SETTLE_SCRIPT, r)
      ensures forall k :: |old(log)| <= k < |log| ==> log[k].found == entries
      ensures synced == entries || synced == old(synced)
      ensures failures == old(failures) + if r.Raise? then 1 else 0
      ensures r.Raise? ==> r.failure.Failed? && r.failure.step != FailPoint(PostActivationFinalizationAfter)
      ensures r.Ok? ==> synced == entries
    {
      r := Ok;
      :- Attempt(FailPoint(NewRootActivationRenameAfter));
      ghost var renamed := log;
      r := SyncNoted(NewRootActivationMetadataSyncBefore, NewRootActivationMetadataSyncAfter);
      PerformedNext(renamed, |old(log)|, SETTLE_SCRIPT[..1], log, SETTLE_SCRIPT[1..], r);
      assert SETTLE_SCRIPT[..1] + SETTLE_SCRIPT[1..] == SETTLE_SCRIPT;
    }

    method VerifyAndFlush() returns (r: Result)
      requires !treeSynced
      modifies `treeSynced, `clock, `failures, `log
      ensures old(log) <= log && Performed(log, |old(log)|, CHECK_SCRIPT, r)
      ensures forall k :: |old(log)| <= k < |log| ==> log[k].found == entries
      ensures failures == old(failures) + if r.Raise? then 1 else 0
      ensures r.Raise? ==> r.failure.Failed? && r.failure.step != FailPoint(PostActivationFinalizationAfter)
      ensures treeSynced == r.Ok?
    {
      hide Performed;
      r := VerifyActivated();
      ghost var verified := log;
      if r.Raise? {
        PerformedPart(log, |old(log)|, VERIFY_SCRIPT, FLUSH_SCRIPT, r);
        return;
      }
      RanOk(log, |old(log)|, VERIFY_SCRIPT, r);
      r := FlushTree();
      PerformedNext(verified, |old(log)|, VERIFY_SCRIPT, log, FLUSH_SCRIPT, r);
    }

    method VerifyActivated() returns (r: Result)
      modifies `clock, `failures, `log
      ensures old(log) <= log && Performed(log, |old(log)|, VERIFY_SCRIPT, r)
      ensures forall k :: |old(log)| <= k < |log| ==> log[k].found == entries
      ensures failures == old(failures) + if r.Raise? then 1 else 0
      ensures r.Raise? ==> r.failure.Failed? && r.failure.step != FailPoint(PostActivationFinalizationAfter)
    {
      r := Ok;
      :- Attempt(FailPoint(PostActivationVerificationBefore));
      :- Attempt(PostActivationCheck);
      :- Attempt(FailPoint(PostActivationVerificationAfter));
      return Ok;
    }

    method FlushTree() returns (r: Result)
      requires !treeSynced
      modifies `treeSynced, `clock, `failures, `log
      ensures old(log) <= log && Performed(log, |old(log)|, FLUSH_SCRIPT, r)
      ensures forall k :: |old(log)| <= k < |log| ==> log[k].found == entries
      ensures failures == old(failures) + if r.Raise? then 1 else 0
      ensures r.Raise? ==> r.failure.Failed? && r.failure.step != FailPoint(PostActivationFinalizationAfter)
      ensures treeSynced == r.Ok?
    {
      r := Ok;
      :- Attempt(FailPoint(PostActivationFinalizationBefore));
      :- Attempt(SyncTree);
      treeSynced := true;
      return Ok;
    }

    // The guarded part of the activation.
    method Replace(target: Name, stage: Name, force: bool, stamp: string)
      returns (r: Result, rollback: Option<Name>, removedEmptyTarget: bool, newRootActivated: bool)
      requires stage != target && stage != RollbackName(target, stamp)
      requires synced == entries && !treeSynced
      modifies this
      ensures OnTrack(|old(history)|, old(entries), target, stage, RollbackName(target, stamp), force)
      ensures Reached(old(entries), target, stage, RollbackName(target, stamp), rollback, removedEmptyTarget,
                      newRootActivated)
      ensures old(log) <= log
      ensures Performed(log, |old(log)|,
                ParkScript(old(entries), target, RollbackName(target, stamp)) + ActivationScript(target, stage), r)
      ensures r.Ok? ==> IsChecked(log, |old(log)|, target, stage, entries)
      ensures failures == old(failures) + if r.Raise? && r.failure.Failed? then 1 else 0
      ensures r.Raise? && r.failure.Refused? <==> !Permitted(old(entries), target, RollbackName(target, stamp), force)
      ensures r.Raise? && r.failure.Refused? ==> entries == old(entries)
      ensures r.Raise? && r.failure.Refused? ==>
        IsReason(r.failure.refusal, old(entries), target, RollbackName(target, stamp), force)
      ensures r.Raise? && r.failure.Refused? ==> (rollback.Some? <==> r.failure.refusal.RollbackExists?)
      ensures r.Raise? && r.failure.Refused? ==> !removedEmptyTarget && !newRootActivated
      ensures r.Ok? ==> newRootActivated && synced == entries
      ensures r.Ok? ==> rollback.Some? == HoldsState(old(entries), target)
      ensures treeSynced == r.Ok?
      ensures r != Raise(Failed(FailPoint(PostActivationFinalizationAfter)))
    {
      hide Moved, Parked, HoldsState, HoldsEmptyDirectory, Permitted, RollbackName, ParkScript, IsChecked, Performed, Ran;
      Names(entries, target, stamp);
      newRootActivated := false;
      r, rollback, removedEmptyTarget := ParkOldRoot(target, stage, force, stamp);
      ghost var parking, parked := ParkScript(old(entries), target, RollbackName(target, stamp)), log;
      if r.Raise? {
        PerformedPart(log, |old(log)|, parking, ActivationScript(target, stage), r);
        return;
      }
      RanOk(log, |old(log)|, parking, r);
      var activated;
      r, activated := ActivateParked(target, stage, |old(log)|);
      newRootActivated := activated;
      PerformedNext(parked, |old(log)|, parking, log, ActivationScript(target, stage), r);
      Names(old(entries), target, stamp);
      ParkingFacts(old(entries), target, RollbackName(target, stamp), force);
      if activated {
        ActivationDiffers(old(entries), target, stage, RollbackName(target, stamp));
      }
    }

    // The candidate takes the free target name, and is checked there.
    method ActivateParked(target: Name, stage: Name, ghost from: nat) returns (r: Result, activated: bool)
      requires stage != target && !treeSynced && from <= |log|
      modifies `entries, `synced, `treeSynced, `clock, `failures, `history, `log
      ensures old(log) <= log && Performed(log, |old(log)|, ActivationScript(target, stage), r)
      ensures activated ==> stage in old(entries) && target !in old(entries) && entries == Moved(old(entries), stage, target)
      ensures activated ==> history == old(history) + [entries]
      ensures !activated ==> entries == old(entries) && history == old(history) && r.Raise?
      ensures synced == entries || synced == old(synced)
      ensures !activated ==> synced == old(synced)
      ensures failures == old(failures) + if r.Raise? then 1 else 0
      ensures r.Raise? ==> r.failure.Failed? && r.failure.step != FailPoint(PostActivationFinalizationAfter)
      ensures r.Ok? ==> synced == entries && IsChecked(log, from, target, stage, entries)
      ensures treeSynced == r.Ok?
    {
      hide Moved, IsChecked;
      activated := false;
      :- Attempt(FailPoint(NewRootActivationRenameBefore));
      :- Rename(stage, target);
      activated := true;
      ghost var renamed := log;
      r := Settle();
      PerformedNext(renamed, |old(log)|, RenameScript(target, stage), log, SETTLE_SCRIPT + CHECK_SCRIPT, r);
      if r.Ok? {
        CheckedFrom(log, from, |old(log)|, target, stage, entries);
      }
    }

    // The exception handler: the candidate back to the stage, then the old root back to the target.
    method Undo(target: Name, stage: Name, force: bool, stamp: string, rollback: Option<Name>,
                removedEmptyTarget: bool, newRootActivated: bool, ghost from: nat, ghost began: Listing)
      returns (r: Result)
      requires stage != target && stage != RollbackName(target, stamp)
      requires OnTrack(from, began, target, stage, RollbackName(target, stamp), force)
      requires Reached(began, target, stage, RollbackName(target, stamp), rollback, removedEmptyTarget,
                       newRootActivated)
      modifies `entries, `synced, `clock, `failures, `history, `log
      ensures OnTrack(from, began, target, stage, RollbackName(target, stamp), force)
      ensures EndsWith(log, |old(log)|, r) && old(log) <= log
      ensures failures == old(failures) + if r.Raise? then 1 else 0
      ensures r.Ok? || old(entries) == began ==> entries == synced == began
      ensures r.Raise? ==> r.failure.Failed? && IsUndoStep(r.failure.step)
      ensures !newRootActivated && rollback.Some? && rollback.value in old(entries) && target in old(entries) ==>
        r == Raise(Failed(RenameNoReplace(rollback.value, target)))
      ensures !newRootActivated && !removedEmptyTarget && rollback.None? ==> r.Ok?
    {
      hide Moved, Parked, Activated, HoldsState, HoldsEmptyDirectory, Permitted, RollbackName;
      Names(began, target, stamp);
      if newRootActivated {
        ParkingFacts(began, target, RollbackName(target, stamp), force);
        ActivationDiffers(began, target, stage, RollbackName(target, stamp));
      }
      if newRootActivated && target in entries {
        if stage in entries {
          return Raise(Refused(StageReappeared));
        }
        :- Rename(target, stage);
        :- SyncDirectory();
      }
      r := RestoreOldRoot(target, stage, force, stamp, rollback, removedEmptyTarget, from, began);
    }

    method RestoreOldRoot(target: Name, stage: Name, force: bool, stamp: string, rollback: Option<Name>,
                          removedEmptyTarget: bool, ghost from: nat, ghost began: Listing)
      returns (r: Result)
      requires stage != target && stage != RollbackName(target, stamp)
      requires OnTrack(from, began, target, stage, RollbackName(target, stamp), force)
      requires Reached(began, target, stage, RollbackName(target, stamp), rollback, removedEmptyTarget, false)
      modifies `entries, `synced, `clock, `failures, `history, `log
      ensures OnTrack(from, began, target, stage, RollbackName(target, stamp), force)
      ensures EndsWith(log, |old(log)|, r) && old(log) <= log
      ensures failures == old(failures) + if r.Raise? then 1 else 0
      ensures r.Ok? || old(entries) == began ==> entries == synced == began
      ensures r.Raise? ==> r.failure.Failed? && IsUndoStep(r.failure.step)
      ensures rollback.Some? && rollback.value in old(entries) && target in old(entries) ==>
        r == Raise(Failed(RenameNoReplace(rollback.value, target)))
      ensures !removedEmptyTarget && rollback.None? ==> r.Ok?
    {
      hide Moved, Parked, Activated, HoldsState, HoldsEmptyDirectory, Permitted, RollbackName;
      Names(began, target, stamp);
      if entries != began {
        ParkingFacts(began, target, RollbackName(target, stamp), force);
      }
      if rollback.Some? && rollback.value in entries {
        :- Rename(rollback.value, target);
        :- SyncDirectory();
      } else if removedEmptyTarget && target !in entries {
        :- MakeEmptyDirectory(target);
        :- SyncDirectory();
      }
      return Ok;
    }

    method ActivateStage(target: Name, stage: Name, force: bool, stamp: string) returns (outcome: Outcome)
      requires stage != target && stage != RollbackName(target, stamp)
      requires synced == entries && !treeSynced
      modifies this
      // At every moment, on disk as well, nothing is lost: see StationKeepsData.
      ensures OnTrack(|old(history)|, old(entries), target, stage, RollbackName(target, stamp), force)
      // One failing operation is undone completely, and so is every refusal.
      ensures outcome.Raised? && !treeSynced && failures <= old(failures) + 1
        ==> entries == synced == old(entries)
      ensures outcome.Raised? && outcome.failure.Refused? ==> entries == synced == old(entries)
      // From the tree sync on nothing undoes the activation.
      ensures treeSynced <==>
        outcome.Returned? || outcome == Raised(Failed(FailPoint(PostActivationFinalizationAfter)))
      ensures treeSynced ==>
        && stage in Parked(old(entries), target, RollbackName(target, stamp))
        && entries == synced == Activated(old(entries), target, stage, RollbackName(target, stamp))
      // A refusal is reported with its reason; a taken rollback name is not, because the handler takes it
      // for the kept root and fails to bring that back.
      ensures outcome.Raised? && outcome.failure.Refused? ==>
        IsReason(outcome.failure.refusal, old(entries), target, RollbackName(target, stamp), force)
      ensures IsReason(RollbackExists, old(entries), target, RollbackName(target, stamp), force) ==>
        outcome == Raised(Failed(
          if faults(old(clock)) then MakeParent else RenameNoReplace(RollbackName(target, stamp), target)))
      ensures !faults(old(clock)) ==> forall refusal ::
        refusal != RollbackExists && IsReason(refusal, old(entries), target, RollbackName(target, stamp), force)
        ==> outcome == Raised(Refused(refusal))
      // Success, exactly when no operation failed and nothing was refused.
      ensures outcome.Returned? <==>
        failures == old(failures) && Permitted(old(entries), target, RollbackName(target, stamp), force)
      ensures outcome.Returned? ==> outcome.rollback == KeptAt(old(entries), target, RollbackName(target, stamp))
      // Success means that every step was attempted, in order, and none failed.
      ensures old(log) <= log
      ensures outcome.Returned? ==>
        Ran(log, |old(log)|, FullScript(old(entries), target, stage, RollbackName(target, stamp)))
      // Nothing is left activated that was not synced, checked and flushed after the rename.
      ensures treeSynced ==> IsChecked(log, |old(log)|, target, stage, entries)
      // The step that failed last is raised. A failing check, or sync of the tree, is that step and is
      // undone, unless a step of the undo fails after it.
      ensures forall step :: FailedLast(log, |old(log)|, step) ==> outcome == Raised(Failed(step))
      ensures forall step :: step in CHECK_SCRIPT && FailedLast(log, |old(log)|, step) ==> entries == synced == old(entries)
    {
      hide IsChecked, Permitted, Moved, HoldsState, ParkScript, ActivationScript, FullScript, FailedLast, Ran, EndsWith,
        IsReason;
      OneReason(entries, target, RollbackName(target, stamp), force);
      var made := Attempt(MakeParent);
      ghost var start, began := log, old(entries);
      ghost var script := ParkScript(began, target, RollbackName(target, stamp)) + ActivationScript(target, stage);
      if made.Raise? {
        OnlyFailure(log, |old(log)|);
        return Raised(made.failure);
      }
      var r, rollback, removedEmptyTarget, newRootActivated := Replace(target, stage, force, stamp);
      ghost var guarded := log;
      if r.Raise? {
        var undone := Undo(target, stage, force, stamp, rollback, removedEmptyTarget, newRootActivated,
                           |old(history)|, old(entries));
        forall step | FailedLast(log, |old(log)|, step)
          ensures (if undone.Raise? then undone.failure else r.failure) == Failed(step)
          ensures !IsUndoStep(step) ==> undone.Ok?
        {
          RaisedLast(start, guarded, log, |old(log)|, script, r, undone, step);
        }
        return Raised(if undone.Raise? then undone.failure else r.failure);
      }
      var last := Attempt(FailPoint(PostActivationFinalizationAfter));
      RanOk(guarded, |start|, script, r);
      StillChecked(guarded, log, |old(log)|, |start|, target, stage, entries);
      FullRun(start, guarded, log, |old(log)|, began, target, stage, RollbackName(target, stamp));
      if last.Raise? {
        return Raised(last.failure);
      }
      NothingFailed(log, |old(log)|, FullScript(began, target, stage, RollbackName(target, stamp)));
      return Returned(rollback);
    }
  }
}
