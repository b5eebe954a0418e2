# Verified models of the CarsinOS exact-action kernel and state tool

Dafny models of the parts of CarsinOS whose correctness rests on algorithms: the dispatch compiler and
its canonical manifest, the framed bytes that are signed and hashed, danger routing, objective recovery,
technical quotas and the plugin registry of `carsinos-core`, and the activation, archive and scanning
code of the offline state tool. Code that updates state (the compiler object, the byte buffers, the
parent directory, the extraction directory, the registry) is a class or a method with loops, proved
against a specification; code made of expressions is a function. What the source promises is then proved
about those specifications.

| area | files |
|---|---|
| shared order, sorting and JSON (RFC 8259) | `Ordering.dfy`, `Json.dfy` |
| canonical values and their printers | `CanonicalValue.dfy`, `CanonicalPrinter.dfy` |
| leaf actions and manifests: print, restore, rebind, size | `Manifest.dfy`, `ManifestRestore.dfy`, `ManifestRebind.dfy`, `ManifestLaws.dfy`, `ManifestSize.dfy` |
| dispatch compiler | `Dispatch.dfy`, `DispatchExpansion.dfy`, `DispatchLaws.dfy`, `DispatchCompiler.dfy`, `DispatchContents.dfy`, `DispatchReasons.dfy`, `DispatchSize.dfy` |
| framed and joined encodings | `Framing.dfy`, `DangerSigning.dfy`, `ActorProvenance.dfy`, `EncodingLayouts.dfy` |
| danger routing | `DangerRouting.dfy` |
| activation of a staged root | `Activation.dfy` |
| archive, extraction, verification | `ArchivePaths.dfy`, `ArchiveWalk.dfy`, `Archive.dfy`, `ArchiveRestore.dfy`, `ArchiveVerify.dfy`, `ArchiveDatabases.dfy`, `ArchiveRoundTrip.dfy`, `ArchiveSamples.dfy` |
| byte scanner | `ByteScan.dfy` |
| recovery planner | `Recovery.dfy` |
| plugin registry | `PluginManifest.dfy`, `PluginContents.dfy`, `PluginRegistry.dfy`, `PluginRefusal.dfy`, `PluginRuns.dfy` |
| quotas and metered units | `QuotaUnits.dfy`, `Quota.dfy`, `NulSegments.dfy`, `QuotaIdentity.dfy`, `RequirementIdentity.dfy` |

`dafny verify dfyconfig.toml` checks everything.

## Conventions of the model

- A string is a sequence of bytes, one character per byte of UTF-8. Library functions are parameters:
  SHA-256 (64 lower-case hex digits; every statement about ids or signatures is about the bytes that are
  hashed, or is conditional on those very bytes not colliding), trimming followed by NFC (idempotent),
  case folding, Python's path syntax, what SQLite says of a file, the JSON of the backup manifest
  (reading gives back what was written), the encoders of canary variants.
- Error texts are dropped; where the kind of error matters (pauses of the compiler, failures of the
  activation, admission and routing errors) it is kept.
- Fields of the source that the modelled code only carries are merged or left out.

## Where the code and its documentation disagree

- The comment above the manifest size constants says that the ceiling covers every output the compiler
  admits. It counts a recorded shell command as one identifier of 256 bytes, but a command may have
  16 KiB: `DispatchSize.LongCommandsAreRefused` compiles a dispatch whose printed manifest exceeds the
  ceiling, so it can never be restored. A compiled manifest is restorable exactly when its bytes are
  within the ceiling and its scopes canonical (`DispatchSize.CompiledIsRestorable`), so one whose scope
  holds a fraction or a number beyond 64 bits is frozen but never restored
  (`CanonicalValue.PrintedIsCanonical`). It is within the ceiling when all commands given are at most
  identifier-sized (`ShortNodesAreNeverRefused`) and beyond it when the recorded commands alone are
  (`ManyCommandsAreRefused`).
- A refused `register_manifest` leaves the names it bound before the clash: the earlier kinds in full and
  the clashing kind up to its first taken name. Afterwards the indexes agree with the manifests exactly
  when the manifest was invalid, its id registered, or its very first declared name taken
  (`PluginRegistry.Registry.RegisterManifest`, `RefusalLeavesNames`; `PluginRefusal.RefuseSecondTool` is
  such a run). A later successful replacement rebuilds the indexes and removes the names, so after any
  run they agree exactly when no refusal since the last one has left names (`PluginRuns.AgreesExactly`).
- A file whose name holds a backslash is backed up under that name but restored inside a directory:
  every file lands where its name with slashes for backslashes says (`ArchiveRoundTrip.ExtractedIsLanded`),
  so restore is exact precisely for portable trees (`RestoreIsExact`), and a backup that moves a file is
  still published and accepted (`ArchiveSamples.BackUpBackslash`).
- The manifest lists SQLite files in the order of a directory walk, and verification compares that list
  with one from a walk of its own, while Python leaves the order inside a directory open. A restored
  backup is accepted on some walk exactly when its databases are intact and none moved, but on every walk
  exactly when, moreover, of any two databases one lies in a directory beside the other
  (`ArchiveRoundTrip.SomeWalkAccepts`, `EveryWalkAccepts`); `ArchiveSamples.OrderDecides` is a backup of
  two databases in one directory that one walk accepts and another refuses. Records and receipts are
  sorted and have no such dependence.
- An activation that finds its rollback name taken means to say so, but sets the name before it looks; the
  handler then takes the entry found there for the old root kept by this run and tries to bring it back
  over the target. The rename fails without effect, and its message is what the caller sees
  (`Activation.ParentDirectory.ActivateStage`; scripts/carsinos_state.py:910-912, 953-958).
- The NUL-joined identity of a quota snapshot can be ambiguous when a name holds a NUL, which the name
  checks do not exclude (`QuotaIdentity.NulConfusesTwoInputs`). Among the snapshots the compiler accepts
  it belongs to one exactly when its NUL-separated segments have one reading: no other choice of a
  segment that reads as a revision number, and of the boundary after it, leaves three names the checks
  accept (`OneReadingExactly`). A NUL-free authority digest and scope key, with no later part of the
  delegation id that reads as a revision, are enough for that (`ClearNamesHaveOneReading`) and also
  necessary unless a run of segments is empty or has blank edges (`ClearNamesExactly`,
  `LeadingNulHasOneReading`). The identity of a requirement set has the same weakness and the same kind
  of condition (`RequirementIdentity.OneEffectReadingExactly`).

## Model

| member | source | states |
|---|---|---|
| CanonicalPrinter.CanonicalValueInto | crates/carsinos-core/src/execass_manifest.rs:1551-1618 | the recursive printer succeeds exactly on in-limit values and appends the rendering of the value with every object's fields sorted |
| CanonicalPrinter.CanonicalValueBytes | crates/carsinos-core/src/execass_manifest.rs:1542-1549 | the printed bytes, or nothing when a limit or the byte cap is passed |
| CanonicalPrinter.CanonicalTargetsBytes | crates/carsinos-core/src/execass_manifest.rs:1515-1540 | the snapshot text of a non-empty set of targets distinct in their printed form |
| CanonicalValue.DeserializeCanonicalText | crates/carsinos-core/src/execass_manifest.rs:923-1009 | parsing the printout of any in-limit value gives that value with the fields of every object sorted by key |
| CanonicalValue.CanonicalTextIdentifiesValue | crates/carsinos-core/src/execass_manifest.rs:1551-1618 | two in-limit values print alike exactly when they are equal up to field order at every depth |
| CanonicalValue.PrintedExactly | crates/carsinos-core/src/execass_manifest.rs:1542-1618 | a value is printed exactly when no part of it lies more than 32 levels deep, every part has a short text, few items, few fields with short names that differ, or an integer, and its text has at most 64 KiB |
| CanonicalValue.PrintedIsCanonical | crates/carsinos-core/src/execass_manifest.rs:923-1009 | printed JSON is read as a canonical value exactly when it is within the limits, has no numbers but signed 64-bit integers and all its fields are sorted |
| CanonicalValue.TargetsTextIgnoresOrder | crates/carsinos-core/src/execass_manifest.rs:1515-1540 | the target snapshot does not depend on the order of the targets |
| Json.ParseDocumentRendered | crates/carsinos-core/src/execass_manifest.rs:1683-1688 | the RFC 8259 parser reads back every printed document within its nesting limit |
| Json.RenderIsInjective | crates/carsinos-core/src/execass_manifest.rs:1551-1618 | two values print alike only when they are equal |
| ManifestRestore.RestorePrintedManifest | crates/carsinos-core/src/execass_manifest.rs:1011-1166 | restoring a printed manifest, through every leaf, step, descriptor, authority and evidence, gives back exactly its leaves |
| ManifestRestore.ManifestTextIsInjective | crates/carsinos-core/src/execass_manifest.rs:1284-1482 | equal manifest bytes, equal leaves, for manifests of any size whose scopes are printed JSON, with any numbers |
| ManifestLaws.RestoreIsStrict | crates/carsinos-core/src/execass_manifest.rs:245-272 | restore accepts nothing but the exact printout, with its digest, of a persistable manifest |
| ManifestLaws.RestorableExactly | crates/carsinos-core/src/execass_manifest.rs:245-272 | the printout of up to 128 valid leaves with distinct ids and printed JSON scopes is restored exactly when it is within the cap and every scope is canonical |
| ManifestRebind.RebindPersistedManifest | crates/carsinos-core/src/execass_manifest.rs:240-321 | the loop that edits leaves in place computes the rebind specification |
| ManifestRebind.RebindLeavesInPlace | crates/carsinos-core/src/execass_manifest.rs:274-320 | indexing bindings, consuming one per leaf and rejecting repeated identities gives the specified leaves or a refusal |
| ManifestRebind.EditLeaves | crates/carsinos-core/src/execass_manifest.rs:288-318 | the in-place loop: every leaf gets what its own binding says, or the whole edit is refused |
| ManifestLaws.RebindIdentity | crates/carsinos-core/src/execass_manifest.rs:240-321 | identity bindings return the manifest unchanged |
| ManifestLaws.RebindKeepsEnvelopes | crates/carsinos-core/src/execass_manifest.rs:240-321 | any rebind keeps leaf order and everything but logical id and targets, and its result can be persisted again |
| ManifestLaws.RebindIgnoresBindingOrder | crates/carsinos-core/src/execass_manifest.rs:240-321 | the order of the binding list does not matter |
| ManifestLaws.RebindComposes | crates/carsinos-core/src/execass_manifest.rs:240-321 | rebinding a rebound manifest is one rebind with the composed bindings, whether the second is accepted or refused |
| ManifestLaws.UncoveredIsRefused | crates/carsinos-core/src/execass_manifest.rs:274-320 | bindings that are not one per leaf are refused |
| ManifestSize.ManifestFitsCap | crates/carsinos-core/src/execass_manifest.rs:1502-1513 | up to 128 normal leaves whose escaped commands keep to the per-path share print within the restore cap |
| DispatchSize.ShortNodesAreNeverRefused | crates/carsinos-core/src/execass_manifest.rs:1502-1513 | a dispatch whose nodes carry identifier-sized commands compiles to a manifest within the restore cap, which rebinds to itself |
| DispatchSize.ShortCommandsAreNeverRefused | crates/carsinos-core/src/execass_manifest.rs:1502-1513 | the same when only the commands that are recorded are identifier-sized |
| DispatchSize.CompiledIsRestorable | crates/carsinos-core/src/execass_manifest.rs:245-272 | a compiled manifest whose scopes are printed JSON, with any numbers, is restorable exactly when it is within the cap and every scope is canonical |
| DispatchSize.ManyCommandsAreRefused | crates/carsinos-core/src/execass_manifest.rs:245-272 | valid leaves whose recorded path commands alone exceed the cap can never be restored |
| DispatchSize.LongCommandsAreRefused | crates/carsinos-core/src/execass_manifest.rs:1655-1655 | with every library that keeps lower-case names, a concrete dispatch with 16 KiB shell commands compiles to more bytes than the restore cap admits |
| DispatchSize.FanIsPersistable | crates/carsinos-core/src/execass_manifest.rs:544-605 | the same dispatch without its shell commands compiles to a persistable manifest, so the hypotheses of the restore and rebind results are met |
| DispatchSize.ChainRegistry | crates/carsinos-core/src/execass_manifest.rs:130-147 | the entries of that concrete dispatch have a registry |
| DispatchSize.ChainEntriesGiveChainRegistry | crates/carsinos-core/src/execass_manifest.rs:130-147 | its entries are valid, and every registry that holds them offers one candidate per step |
| DispatchCompiler.Compiler.Visit | crates/carsinos-core/src/execass_manifest.rs:608-633 | computes the visit specification and restores the active set and the resolution path on every exit |
| DispatchCompiler.Compiler.VisitPresent | crates/carsinos-core/src/execass_manifest.rs:635-705 | dispatches on the action of a node; active set and path restored |
| DispatchCompiler.Compiler.VisitLeaf | crates/carsinos-core/src/execass_manifest.rs:647-664 | appends a canonical leaf unless a limit or a repeated logical id forbids it |
| DispatchCompiler.Compiler.VisitComposite | crates/carsinos-core/src/execass_manifest.rs:665-675 | visits children in order, stopping at the first pause |
| DispatchCompiler.Compiler.VisitExpansion | crates/carsinos-core/src/execass_manifest.rs:707-732 | resolves a wrapper when the registry has exactly one candidate, with the step on the path only during the visit |
| DispatchCompiler.CompileDispatch | crates/carsinos-core/src/execass_manifest.rs:544-605 | the compiler object computes the compilation specification, and terminates on every graph |
| DispatchLaws.ReadyExactly | crates/carsinos-core/src/execass_manifest.rs:544-733 | Ready exactly when the root has a finite admissible expansion; the leaves are its in-order flattening with every wrapper step recorded, and no node occurs twice |
| DispatchContents.LeafExactly | crates/carsinos-core/src/execass_manifest.rs:1168-1216 | a leaf is compiled exactly to what its input says, field by field: names in normal form, digests trimmed and lowered, operands and targets printed and frozen, the material digest present exactly when given, the path, the authority; it is refused exactly when no leaf holds that |
| DispatchContents.AuthorityExactly | crates/carsinos-core/src/execass_manifest.rs:1218-1282 | the same of all seventeen fields of an owner authority and of both variants of its evidence |
| DispatchContents.DescriptorExactly | crates/carsinos-core/src/execass_manifest.rs:1636-1671 | the normal form of a descriptor keeps its kind and the normal form of each name, and a command of 1 to 16384 bytes as it is |
| DispatchContents.EntryExactly | crates/carsinos-core/src/execass_manifest.rs:130-147 | a registry entry is accepted exactly to its normalized descriptor, target, resolver and digest |
| DispatchContents.ReadyContents | crates/carsinos-core/src/execass_manifest.rs:544-733 | every leaf of a ready manifest holds what one leaf node says, and each step on its path what one wrapper node and the only registry entry for it say |
| DispatchReasons.ReasonIsTrue | crates/carsinos-core/src/execass_manifest.rs:544-733 | whatever reason a refused dispatch is given is true of it: a missing, empty, unresolved, ambiguous, invalid or repeated node is one that references lead to from the root and is so; a cycle is a route that comes to a node twice; an exceeded limit is the smaller of the given and the absolute one, and there are more places, leaves or steps than that |
| DispatchReasons.VisitTells | crates/carsinos-core/src/execass_manifest.rs:608-733 | the same for a visit in the middle of a compilation, together with the places it has seen |
| DispatchExpansion.VisitSound | crates/carsinos-core/src/execass_manifest.rs:608-733 | a successful visit is a finite expansion, and its effect is that of the expansion |
| DispatchExpansion.VisitComplete | crates/carsinos-core/src/execass_manifest.rs:608-733 | every admissible expansion is visited with success, so cycle detection refuses nothing finite |
| DispatchExpansion.ExpansionIsUnique | crates/carsinos-core/src/execass_manifest.rs:707-732 | a node has at most one expansion |
| DispatchExpansion.NotBelowItself | crates/carsinos-core/src/execass_manifest.rs:624-631 | no finite expansion contains its own root below itself |
| DispatchExpansion.NodesAreDistinct | crates/carsinos-core/src/execass_manifest.rs:647-665 | distinct logical ids force distinct nodes: the reached graph is a tree |
| DispatchExpansion.FlattenIds | crates/carsinos-core/src/execass_manifest.rs:647-665 | the leaves carry the logical ids of the expansion's leaves, in order |
| DispatchLaws.CompileIgnoresOrder | crates/carsinos-core/src/execass_manifest.rs:544-605 | neither the order of nodes nor of registry candidates changes a compilation |
| DispatchLaws.VisitFollowsMeaning | crates/carsinos-core/src/execass_manifest.rs:608-733 | a visit depends only on what node ids and descriptors mean, not on how they are listed |
| DispatchLaws.CompiledManifestRebindsToItself | crates/carsinos-core/src/execass_manifest.rs:544-605 | compiled leaves are normal and distinct, and within the cap with canonical scopes the manifest restores and rebinds to itself |
| DispatchLaws.FlattenIsNormal | crates/carsinos-core/src/execass_manifest.rs:1168-1282 | every leaf the compiler canonicalises is one that restore accepts |
| DispatchCompiler.TryNewRegistry | crates/carsinos-core/src/execass_manifest.rs:130-147 | the registry is built exactly from valid entries without repeated candidates |
| DispatchCompiler.RegistryIgnoresEntryOrder | crates/carsinos-core/src/execass_manifest.rs:130-147 | permuted entries give equivalent registries |
| DispatchCompiler.BuiltRegistryIsNormal | crates/carsinos-core/src/execass_manifest.rs:130-147 | every built registry is normal, so the results about compiled manifests apply to it |
| DangerSigning.DangerAdmissionSigningBytes | crates/carsinos-core/src/execass_danger.rs:310-363 | the loop that appends frames computes the framed header and routes, or refuses an invalid field |
| DangerSigning.SigningExactly | crates/carsinos-core/src/execass_danger.rs:319-330 | signing is refused exactly for a blank field, a zero generation or a digest not 64 characters long; what is signed begins with the frame of the domain |
| EncodingLayouts.SigningLaidOut | crates/carsinos-core/src/execass_danger.rs:310-371 | what is signed is nine frames of signer and proof in their order, then for every route in its order two frames, or six with source, category, sentence and flag |
| DangerSigning.SigningBytesAreInjective | crates/carsinos-core/src/execass_danger.rs:310-368 | equal signing bytes force the same key, root and generation fields, manifest digest and ordered routes |
| DangerSigning.RouteIsSelfDelimiting | crates/carsinos-core/src/execass_danger.rs:342-361 | a route of two frames and a route of six cannot be mistaken for each other inside a longer list |
| Framing.RecordIsSelfDelimiting | crates/carsinos-core/src/execass_actor.rs:1632-1645 | a record of length-prefixed, optional and numeric pieces of known kinds can be read off the front of any text |
| Framing.FrameListIsInjective | crates/carsinos-core/src/execass_danger.rs:365-368 | a list of frames can be read back without knowing its length |
| Framing.FrameBuffer.PushFrame | crates/carsinos-core/src/execass_actor.rs:1632-1635 | pushes the 64-bit big-endian length and the bytes |
| Framing.FrameBuffer.PushOptional | crates/carsinos-core/src/execass_actor.rs:1637-1645 | pushes a presence byte and, if present, a frame |
| EncodingLayouts.FrameExactly | crates/carsinos-core/src/execass_actor.rs:1632-1635 | a frame is eight bytes that spell the length, the most significant first, and then the bytes |
| EncodingLayouts.NumberExactly | crates/carsinos-core/src/execass_actor.rs:1583-1625 | a number is eight bytes that spell it in two's complement, the most significant first |
| ActorProvenance.CanonicalHumanEvidenceBytes | crates/carsinos-core/src/execass_actor.rs:1527-1580 | the buffer ends with the pieces of the local or remote evidence |
| EncodingLayouts.EvidenceLaidOut | crates/carsinos-core/src/execass_actor.rs:1527-1580 | the evidence bytes are the fields of the local or remote evidence in their order, each framed, optional ones behind a presence byte |
| ActorProvenance.IssueExactly | crates/carsinos-core/src/execass_actor.rs:943-1059 | an actor without human evidence is refused as such; an authority is issued exactly to a human who may submit, for a source of a known kind with every field present, unexpired and consistently bound, and then holds field by field what the source says |
| ActorProvenance.EvidenceTextIsInjective | crates/carsinos-core/src/execass_actor.rs:1527-1580 | equal evidence bytes, equal evidence, local or remote, with all optional fields |
| ActorProvenance.AuthorityProvenanceId | crates/carsinos-core/src/execass_actor.rs:1583-1625 | the pushed fields hash to the provenance id of the binding |
| EncodingLayouts.ProvenanceLaidOut | crates/carsinos-core/src/execass_actor.rs:1583-1625 | the id is the digest of two frames: the domain, and all fifteen fields in their order |
| ActorProvenance.IssuedScopeIsPrinted | crates/carsinos-core/src/execass_actor.rs:1001-1001 | the scope of every issued authority is JSON printed without white space |
| ActorProvenance.BindingPiecesAreInjective | crates/carsinos-core/src/execass_actor.rs:1583-1625 | the pre-image of the provenance id determines all fifteen fields |
| ActorProvenance.PreimageIsInjective | crates/carsinos-core/src/execass_actor.rs:1515-1520 | domain and payload of a domain-separated digest are both determined by what is hashed |
| ActorProvenance.IdDeterminesBinding | crates/carsinos-core/src/execass_actor.rs:943-1059 | two issued authorities, with verified digests given or computed, share an id exactly when the evidence and the bound source are the same, unless SHA-256 confuses two of the texts hashed on the way |
| ActorProvenance.IdDeterminesAuthority | crates/carsinos-core/src/execass_actor.rs:943-1059 | without given digests that is: evidence and source are the same up to JSON layout |
| DangerRouting.MatchKnownDanger | crates/carsinos-core/src/execass_danger.rs:478-524 | the sort-and-dedup matcher computes the route specification, which MatchExactly says in full |
| DangerRouting.FactsGiveOneConfirmation | crates/carsinos-core/src/execass_danger.rs:478-524 | no fact routes ordinary; any facts route one confirmation with the most severe category and each consequence once |
| DangerRouting.MatchExactly | crates/carsinos-core/src/execass_danger.rs:478-524 | the metadata of another leaf is refused, no facts route ordinary, and any others give a known-category assessment with the flag set, a category that none present precedes, and the joined sentences of the facts; and only that |
| DangerRouting.ConsequenceExactly | crates/carsinos-core/src/execass_danger.rs:56-76 | the sentence for each of the five categories, with its target between backquotes |
| DangerRouting.SignalExactly | crates/carsinos-core/src/execass_danger.rs:529-561 | a model signal: each refusal for its own cause, a confirmation kept, and an ordinary route raised to a confirmation of model source, without category, with the flag set and a sentence of its result and target |
| DangerRouting.MatchDependsOnFactSet | crates/carsinos-core/src/execass_danger.rs:478-524 | order and repetition of facts do not matter |
| DangerRouting.SignalsKeepConfirmation | crates/carsinos-core/src/execass_danger.rs:529-561 | any number of model signals: a confirmation is never lowered, replaced or doubled, and one signal does what many do |
| DangerRouting.ExactTargetOfSnapshot | crates/carsinos-core/src/execass_danger.rs:608-618 | a signal is heard exactly when the frozen snapshot is its target alone, as text; never for several targets or one that is no text |
| DangerRouting.BindExactly | crates/carsinos-core/src/execass_danger.rs:373-392 | a proof is bound exactly when the routes are those of the leaves, one each in their order; it holds the manifest digest and the routes; each refusal has its own cause |
| DangerRouting.ValidateExactly | crates/carsinos-core/src/execass_danger.rs:397-426 | a proof validates exactly for its manifest digest and leaves, with a confirmation exactly when a route asks for one; each refusal has its own cause |
| DangerRouting.BoundProofFitsItsBytes | crates/carsinos-core/src/execass_danger.rs:376-430 | a bound proof requires a confirmation exactly when a leaf's route does, and validates exactly for manifests with its bytes and leaf digests |
| DangerRouting.BoundProofFitsOneManifest | crates/carsinos-core/src/execass_danger.rs:376-430 | among manifests of any size whose scopes are printed JSON, that is its own manifest only |
| Activation.ParentDirectory.Rename | scripts/carsinos_state.py:540-578 | the atomic no-replace rename moves the entry, or fails without effect when the source is missing or the destination exists |
| Activation.ParentDirectory.ParkOldRoot | scripts/carsinos_state.py:904-926 | the first half of the guarded block: the target name becomes free, or the attempt stops with at most one failed operation; its steps are attempted in order, and a refusal has the reason that holds |
| Activation.ParentDirectory.Replace | scripts/carsinos_state.py:903-942 | the guarded block reaches only the three stations, and its flags say which; it ends normally only when, on the activated listing, the parent was synced, the new root checked and its tree synced, in this order |
| Activation.ParentDirectory.VerifyAndFlush | scripts/carsinos_state.py:938-942 | the check of the new root and the sync of its tree are attempted in order up to the first failure |
| Activation.ParentDirectory.Undo | scripts/carsinos_state.py:943-963 | the handler, itself allowed to fail at any step, returns to the beginning when none of its steps fails |
| Activation.ParentDirectory.ActivateStage | scripts/carsinos_state.py:892-967 | under any failure schedule every listing, on disk as well, is a station; one failure or any refusal is undone completely; success exactly when nothing failed and the start was permitted, and then every step was attempted in order; nothing stays activated that was not synced, checked and flushed after its rename; the step that failed last is the one raised, and a failed check or flush is undone unless the undo fails; after the tree sync nothing is undone; each refusal has its own reason |
| Activation.StationKeepsData | scripts/carsinos_state.py:892-967 | in every station the non-empty old root is whole at target or rollback, the candidate is whole at stage or target, and nothing else changed |
| Activation.ActivationDiffers | scripts/carsinos_state.py:944-952 | taking the candidate back from the target undoes its activation exactly |
| Activation.ParkingFacts | scripts/carsinos_state.py:953-962 | bringing the old root back, or making the empty directory again, gives the original listing |
| Activation.StageNameIsApart | scripts/carsinos_state.py:979-987 | staging names, rollback names and the target never coincide |
| ArchivePaths.SafeRelativeOfPosix | scripts/carsinos_state.py:228-242 | a path comes back unchanged from `safe_relative` exactly when its parts are safe plain names |
| ArchivePaths.SafeRelativeIsSafe | scripts/carsinos_state.py:228-242 | whatever `safe_relative` lets through is such a path |
| ArchivePaths.SafePartExactly | scripts/carsinos_state.py:228-242 | a part is let through exactly when it is not empty, a dot or two, holds no colon, has a character besides blanks and dots, and its text before the first dot is no device name |
| ArchivePaths.SafeRelativeExactly | scripts/carsinos_state.py:228-242 | `safe_relative` gives the parts exactly of a non-empty, relative text all of whose parts between slashes and backslashes are such |
| ArchivePaths.AliasExactly | scripts/carsinos_state.py:244-247 | two paths share an alias exactly when part by part they fold alike without trailing blanks and dots |
| ArchiveWalk.WalkDirectory | scripts/carsinos_state.py:291-311 | the recursive walk lists the wanted files once, files of a directory before those in its directories and each directory as a whole |
| ArchiveWalk.WalksAreRuns | scripts/carsinos_state.py:291-311 | the orders a walk can take are exactly the listings of its runs: files of a directory in some order, then the runs of its directories in some order |
| ArchiveWalk.SortedIsWalk | scripts/carsinos_state.py:291-311 | sorting by any order of names in each directory, files before directories, gives an order a walk can take |
| ArchiveWalk.WalkIsSorted | scripts/carsinos_state.py:291-311 | conversely every walk is sorted by such an order |
| Archive.WalkFiles | scripts/carsinos_state.py:291-311 | a walk lists every included file once, with or without the manifest, in an order a walk can take |
| Archive.CopyIncluded | scripts/carsinos_state.py:533-537 | the copy holds exactly the included files |
| Archive.TrackedExactly | scripts/carsinos_state.py:278-311 | what a backup tracks are the files outside the ten excluded directories, among them the one of the secrets, but for the manifest at the root |
| Archive.SqliteMetadata | scripts/carsinos_state.py:321-339 | lists the readable databases in the order of its walk, or fails exactly when one cannot be read |
| Archive.MakeManifest | scripts/carsinos_state.py:433-455 | one record for every tracked file, sorted by path, whatever order the walk took; the databases in the order of a walk; made exactly when databases and receipts can be read |
| ArchiveRestore.ValidateResources | scripts/carsinos_state.py:656-680 | accepts exactly archives whose declared sizes are within all limits |
| ArchiveRestore.ResourcesExactly | scripts/carsinos_state.py:656-680 | these are 100000 members, 16 GiB each, 128 GiB together and a ratio of 10000 to the compressed size |
| ArchiveRestore.ExtractSafe | scripts/carsinos_state.py:728-759 | succeeds exactly on extractable archives, and then the directory holds exactly the members' files; otherwise nothing when a check of all members fails, or the files of the members up to the one that cannot be opened, created or read to its end; every path it ever creates has harmless parts only and lies outside the excluded directories |
| ArchiveRestore.HostileNamesAreRefused | scripts/carsinos_state.py:728-759 | an archive with a member whose name is that of no harmless path is refused before anything is written |
| ArchiveRestore.ThreeHostileNames | scripts/carsinos_state.py:728-759 | so are archives with `../x`, `a:b` or `con.txt` |
| ArchiveVerify.CheckRecords | scripts/carsinos_state.py:783-802 | the record loop accepts exactly when all records hold and no two share an alias, and collects their paths |
| ArchiveVerify.VerifyExpanded | scripts/carsinos_state.py:762-825 | accepts exactly trees in agreement with their manifest, with databases that are intact and listed in the order of its walk |
| ArchiveVerify.AcceptedHeader | scripts/carsinos_state.py:762-784 | the header of every accepted manifest: the two schemas, the product, an absolute source root, a known version, the ten excluded directories and the note on secrets |
| ArchiveVerify.AcceptedTreeIsRecorded | scripts/carsinos_state.py:785-804 | every tracked file of a tree that matches its manifest has exactly one record, with its size and digest |
| ArchiveVerify.ManifestDeterminesTree | scripts/carsinos_state.py:762-825 | one manifest is matched by one set of tracked files only, up to SHA-256 |
| ArchiveDatabases.OrderMatters | scripts/carsinos_state.py:321-339 | all walks list the databases in one order exactly when of any two one lies in a directory beside the other |
| ArchiveDatabases.ListsShowOrder | scripts/carsinos_state.py:805-806 | the lists of two trees that agree on common paths are equal exactly when the walks meet the same databases in the same order |
| ArchiveDatabases.WalkInOrder | scripts/carsinos_state.py:291-311 | a tree with the same databases can be walked so that they come in the order of any walk of the other |
| ArchiveDatabases.ListedAreIntact | scripts/carsinos_state.py:807-816 | the check of the listed databases passes exactly when every database of the tree is intact |
| ArchiveDatabases.AcceptedDatabases | scripts/carsinos_state.py:805-816 | every kept SQLite file of an accepted tree is intact and listed once with its schema, and nothing else is listed |
| ArchiveRoundTrip.MakeArchive | scripts/carsinos_state.py:697-710 | the archive holds every included file and the manifest once, with their true sizes, and no name in an excluded directory |
| ArchiveRoundTrip.VerifyArchive | scripts/carsinos_state.py:828-835 | extraction and verification together, in both directions |
| ArchiveRoundTrip.Backup | scripts/carsinos_state.py:683-725 | nothing is published that would not be accepted; published exactly when header and limits hold, the staged files are restorable, receipts and tombstones read the same where the files land, and the walk meets intact databases in the order of the manifest; nothing in an excluded directory is ever published |
| ArchiveRoundTrip.ExtractableExactly | scripts/carsinos_state.py:728-759 | the archive of a tree is extractable exactly when it is within the limits and every file lands on a safe included path, with an alias of its own and not inside another |
| ArchiveRoundTrip.ExtractedIsLanded | scripts/carsinos_state.py:728-759 | extraction moves every staged file, with its contents, to where its name lands, and creates nothing else |
| ArchiveRoundTrip.PortableExactly | scripts/carsinos_state.py:228-247 | the portable trees are the restorable ones whose files stay in place |
| ArchiveRoundTrip.MatchesExactly | scripts/carsinos_state.py:762-825 | what was extracted from a backup matches its manifest exactly when the header is valid and receipts and tombstones read the same as in the source |
| ArchiveRoundTrip.RestoreIsExact | scripts/carsinos_state.py:728-759 | restoring gives back exactly the staged files if and only if the tree is portable |
| ArchiveRoundTrip.BackupRoundTrip | scripts/carsinos_state.py:683-825 | copy, manifest, archive, extraction: the restored tree is the included files exactly for portable trees, and then accepted exactly when the databases are intact and the walk meets them in the order of the manifest |
| ArchiveRoundTrip.AcceptedOnWalk | scripts/carsinos_state.py:805-817 | a restored backup is accepted exactly on the walks that list its databases as the manifest does, when they are intact |
| ArchiveRoundTrip.EveryWalkAccepts | scripts/carsinos_state.py:805-817 | a restored backup is accepted on every walk exactly when its databases are intact, are those of the source, and of any two one lies in a directory beside the other |
| ArchiveRoundTrip.SomeWalkAccepts | scripts/carsinos_state.py:805-817 | it is accepted on some walk exactly when its databases are intact and are those of the source, none moved |
| ArchiveRoundTrip.BackslashIsNotPortable | scripts/carsinos_state.py:228-242 | a tree with a backslash in a name is not portable |
| ArchiveSamples.BackUpBackslash | scripts/carsinos_state.py:683-759 | with every library that agrees on the names used, the backup of a directory with the file `a\b` is published and accepted, and restores the file `b` in a directory `a` |
| ArchiveSamples.OrderDecides | scripts/carsinos_state.py:805-806 | with every such library, the restored files of a backup of two databases are accepted on one walk and refused on another |
| ByteScan.Patterns | scripts/sensitive_byte_scan.py:86-95 | the dictionary files exactly the variants of the canaries, and is refused exactly for an invalid canary or an empty variant |
| ByteScan.FindBytes | scripts/sensitive_byte_scan.py:98-106 | the findings are those of the patterns that occur in the data |
| ByteScan.ScanReader | scripts/sensitive_byte_scan.py:121-140 | for every way the reader cuts the stream the findings are those of the whole stream; it raises exactly when a read raises or the stream exceeds the maximum |
| ByteScan.OccursInLonger | scripts/sensitive_byte_scan.py:130-138 | the overlap kept between chunks loses no occurrence and invents none |
| ByteScan.CleanMeansAbsent | scripts/sensitive_byte_scan.py:240-244 | a scan is clean exactly when no variant of any canary occurs |
| Recovery.BackoffIsExact | crates/carsinos-core/src/execass_recovery.rs:208-214 | the saturating delay is the exact product capped at the maximum, and lies between base and maximum |
| Recovery.BackoffGrows | crates/carsinos-core/src/execass_recovery.rs:208-214 | the delay never decreases with the number of attempts |
| Recovery.BackoffIsUncapped | crates/carsinos-core/src/execass_recovery.rs:208-214 | the cap on the shift is invisible exactly unless the base is one millisecond, the maximum beyond 2^62 and the attempts beyond 63 |
| Recovery.RetryConditions | crates/carsinos-core/src/execass_recovery.rs:117-182 | a retry is planned exactly under its technical conditions, one backoff after the last attempt unless the clock is at its end |
| Recovery.ErrorsExactly | crates/carsinos-core/src/execass_recovery.rs:117-137 | each error is returned exactly for its own fault: of the policy, else of the clock, else a history without attempts |
| Recovery.RetryExactly | crates/carsinos-core/src/execass_recovery.rs:36-41 | the same effect is retried exactly when it failed before the invocation, is idempotent or is proven absent; the error is neither authentication nor permanent; attempts, time, resources, authority, scope and breaker allow it; and the backoff is over |
| Recovery.WaitsExactly | crates/carsinos-core/src/execass_recovery.rs:138-166 | a wait is planned exactly for an open breaker, until it closes, or for a pending backoff, until that is over |
| Recovery.ReplanExactly | crates/carsinos-core/src/execass_recovery.rs:167-206 | a replan is planned exactly under its literal conditions |
| Recovery.EndsExactly | crates/carsinos-core/src/execass_recovery.rs:167-206 | and each end for exactly the facts that leave nothing else |
| Recovery.DrivenRunsGoOn | crates/carsinos-core/src/execass_recovery.rs:117-226 | a driven run has a next step, on valid facts, exactly when the plan is to wait or to retry, and no step at all otherwise |
| Recovery.AttemptsAreBounded | crates/carsinos-core/src/execass_recovery.rs:117-206 | over every run the attempt count never exceeds the larger of its start and the policy's maximum |
| Recovery.EveryAttemptIsPlanned | crates/carsinos-core/src/execass_recovery.rs:117-182 | every attempt of a run is of an effect that failed before the invocation, is idempotent or proven absent, after no authentication or permanent error, within resources, authority, scope and limits, and one backoff after the attempt before |
| Recovery.AttemptsAreSpaced | crates/carsinos-core/src/execass_recovery.rs:117-214 | over a whole run the last attempt comes at least the sum of all backoffs after the first known one, up to the end of the clock |
| Recovery.WaitsGetShorter | crates/carsinos-core/src/execass_recovery.rs:138-166 | with other facts frozen at most two waits follow each other |
| Recovery.DrivenRunsEnd | crates/carsinos-core/src/execass_recovery.rs:117-182 | a driver that waits and retries as told stops after at most three plans for each attempt left and three more |
| PluginManifest.NormalizeCapabilities | crates/carsinos-core/src/lib.rs:853-880 | the in-place rewrite gives the normal declarations, and fails exactly on a bad or repeated name |
| PluginManifest.NormalizeIsIdempotent | crates/carsinos-core/src/lib.rs:270-344 | a manifest in normal form normalizes to itself, so it can be registered again |
| PluginContents.NormalFormExactly | crates/carsinos-core/src/lib.rs:270-344 | the normal form of a manifest, field by field, with exactly the headers, artifacts, names and declarations that are refused |
| PluginContents.DeclarationsExactly | crates/carsinos-core/src/lib.rs:853-880 | declarations are cleaned in place one by one, and refused exactly for a bad or repeated name |
| PluginContents.IdentifierExactly | crates/carsinos-core/src/lib.rs:838-852 | the names accepted, and what is kept of them |
| PluginRegistry.RegisterBindings | crates/carsinos-core/src/lib.rs:938-956 | binds all names or, at the first clash, exactly those before it |
| PluginRegistry.Registry.RegisterManifest | crates/carsinos-core/src/lib.rs:270-368 | succeeds exactly when the manifest is valid, its id new and its names free; then adds it and its names; a refusal keeps the manifests and binds exactly the names before the first clash, and leaves agreeing indexes in agreement exactly when the manifest is invalid, its id taken or its first declared name taken; soundness is kept |
| PluginRegistry.Registry.ReplaceManifest | crates/carsinos-core/src/lib.rs:401-423 | succeeds exactly when the manifest is valid, registered and clashes with no other plugin; changes nothing otherwise; afterwards the indexes agree with the manifests |
| PluginRegistry.Registry.CapabilityOwner | crates/carsinos-core/src/lib.rs:382-394 | the owner found is the one the index holds for the normalized name, and in agreeing indexes the plugin that declares it |
| PluginRegistry.AgreementIsUnique | crates/carsinos-core/src/lib.rs:237-244 | the manifests fix what all four indexes hold |
| PluginRegistry.RegisteringKeepsSoundness | crates/carsinos-core/src/lib.rs:270-368 | a successful registration keeps the indexes in agreement with the manifests |
| PluginRegistry.RefusalLeavesNames | crates/carsinos-core/src/lib.rs:336-341 | after a clash the names before it are bound to the refused plugin, and the indexes agree with the manifests exactly when the first declared name was the one taken |
| PluginRefusal.SecondToolIsRefused | crates/carsinos-core/src/lib.rs:336-341 | a concrete manifest of two tools, the second taken, is refused and leaves the first bound |
| PluginRefusal.RefuseSecondTool | crates/carsinos-core/src/lib.rs:270-368 | the run on a fresh registry: a registration, a refused one, and an index that names a plugin that is not registered |
| PluginRegistry.ReplacingTouchesOnePlugin | crates/carsinos-core/src/lib.rs:401-423 | every other plugin keeps its manifest and its names |
| PluginRuns.RunsAreSound | crates/carsinos-core/src/lib.rs:270-423 | in every state of every run of registrations and replacements, refused ones included, each name a registered plugin declares is bound to it and to no other |
| PluginRuns.AgreesExactly | crates/carsinos-core/src/lib.rs:270-423 | after any run the indexes agree with the manifests exactly when no refused registration has left names since the last successful replacement |
| QuotaUnits.ValidateRegistryKey | crates/carsinos-core/src/execass_policy.rs:440-466 | the separator automaton accepts exactly `[a-z][a-z0-9]*([.-][a-z0-9]+)*` up to 128 bytes |
| QuotaUnits.RestIsContinuation | crates/carsinos-core/src/execass_policy.rs:449-464 | what the automaton accepts from each of its states is the language of the grammar |
| QuotaUnits.ValidateConnectorVersion | crates/carsinos-core/src/execass_policy.rs:468-482 | accepts exactly `v[1-9][0-9]*` |
| QuotaUnits.UnitDeterminesIdentity | crates/carsinos-core/src/execass_policy.rs:404-430 | a hashed unit determines prefix, identity and version, unless SHA-256 confuses the two materials |
| Quota.CompileQuotaSnapshot | crates/carsinos-core/src/execass_policy.rs:215-277 | the loop accepts exactly distinct, non-negative, canonically named entries and sorts them |
| Quota.SnapshotIsCanonical | crates/carsinos-core/src/execass_policy.rs:215-277 | the entries are the inputs, strictly ascending by kind and unit |
| Quota.SnapshotExactly | crates/carsinos-core/src/execass_policy.rs:215-277 | a snapshot is compiled exactly for named inputs with distinct, non-negative and well-formed entries |
| Quota.SnapshotAscends | crates/carsinos-core/src/execass_policy.rs:215-277 | its entries go from tokens over time and connector calls to resource units, and in each by unit |
| EncodingLayouts.SnapshotLaidOut | crates/carsinos-core/src/execass_policy.rs:215-277 | a snapshot holds the names, revision and entries given; its digests are of the JSON of the entries and of the five parts of its identity joined by NUL |
| Quota.SnapshotIgnoresOrder | crates/carsinos-core/src/execass_policy.rs:215-277 | the snapshot, its texts, digest and id depend only on the multiset of inputs |
| Quota.CompileRequirements | crates/carsinos-core/src/execass_policy.rs:311-385 | the loop computes the requirement set of the specification |
| Quota.RequirementsAccepted | crates/carsinos-core/src/execass_policy.rs:311-385 | accepted exactly when distinct, positive, canonically named and each within a matching quota entry |
| Quota.RequirementsExactly | crates/carsinos-core/src/execass_policy.rs:311-385 | for a snapshot with no kind and unit twice, a requirement set is compiled exactly for named inputs whose requirements are distinct, positive, well-formed and at most a quota entry of the same kind and unit |
| EncodingLayouts.RequirementsLaidOut | crates/carsinos-core/src/execass_policy.rs:311-385 | the same of a requirement set, whose identity has six parts |
| Quota.RequirementsIgnoreOrder | crates/carsinos-core/src/execass_policy.rs:311-385 | the requirement set depends only on the multiset of inputs |
| QuotaIdentity.OneReadingExactly | crates/carsinos-core/src/execass_policy.rs:215-277 | among the snapshots the compiler accepts the joined identity text belongs to one exactly when its segments can be read as three accepted names and a revision in one way only |
| QuotaIdentity.SecondReadingSharesId | crates/carsinos-core/src/execass_policy.rs:250-266 | a second reading gives a different accepted snapshot of the same entries under the same id |
| QuotaIdentity.SnapshotIdDetermines | crates/carsinos-core/src/execass_policy.rs:250-266 | the id of an accepted snapshot with one reading belongs to no other accepted snapshot, up to SHA-256 |
| QuotaIdentity.ClearNamesHaveOneReading | crates/carsinos-core/src/execass_policy.rs:260-262 | NUL-free authority digest and scope key, and no later part of the delegation id that reads as a revision, leave one reading |
| QuotaIdentity.ClearNamesExactly | crates/carsinos-core/src/execass_policy.rs:260-262 | when every run of segments is an accepted name, those are exactly the names with one reading |
| QuotaIdentity.ClearNulFree | crates/carsinos-core/src/execass_policy.rs:260-262 | with a NUL-free delegation id the names are clear exactly when authority digest and scope key hold no NUL |
| QuotaIdentity.LeadingNulHasOneReading | crates/carsinos-core/src/execass_policy.rs:222-230 | an accepted input whose authority digest starts with a NUL has one reading, because every other cut leaves an empty name |
| QuotaIdentity.NulConfusesSnapshots | crates/carsinos-core/src/execass_policy.rs:260-262 | two compilations whose names differ in the place of a NUL, when both are accepted, give different snapshots with one id |
| QuotaIdentity.NulConfusesTwoInputs | crates/carsinos-core/src/execass_policy.rs:215-277 | two concrete inputs that are both compiled, to different snapshots with one id |
| QuotaIdentity.CompiledIsCompiled | crates/carsinos-core/src/execass_policy.rs:215-277 | whatever the compiler accepts compiles from its own parts to itself, so the results speak of every compiled snapshot |
| QuotaIdentity.MeteredJsonIsInjective | crates/carsinos-core/src/execass_policy.rs:254-259 | the canonical entries text determines the entries |
| RequirementIdentity.OneEffectReadingExactly | crates/carsinos-core/src/execass_policy.rs:311-385 | among the sets accepted for one snapshot the joined identity text belongs to one exactly when its segments can be cut into three accepted names in one way only |
| RequirementIdentity.SecondEffectReadingSharesId | crates/carsinos-core/src/execass_policy.rs:362-385 | a second way gives a different accepted set for the same snapshot under the same id |
| RequirementIdentity.RequirementSetIdDetermines | crates/carsinos-core/src/execass_policy.rs:355-385 | the id of a set with one reading, for a snapshot with one, belongs to no other accepted set for any accepted snapshot, up to SHA-256 |
| RequirementIdentity.EffectNamesExactly | crates/carsinos-core/src/execass_policy.rs:362-370 | when every run of segments is an accepted name, the names with one reading are exactly those without NUL |
| RequirementIdentity.NulConfusesTwoSets | crates/carsinos-core/src/execass_policy.rs:311-385 | two concrete inputs without requirements, both accepted for any snapshot, that give different sets with one id |

## Left out

- DispatchSize.CompiledIsRestorable: the size condition is the printed length, because the budget is shared with the other fields of every leaf; between the bounds of `ShortNodesAreNeverRefused` and `ManyCommandsAreRefused` the commands alone do not decide it.
- Activation.ParentDirectory.ActivateStage: existence probes never fail, a failing operation has no effect, and the post-activation check does not write; the tree sync is one operation although it visits every file.
- CanonicalPrinter.CanonicalValueInto: what an unfinished buffer holds after a refusal is not stated, as no caller reads it.
- Dispatch: the four wrapper actions are one action with a descriptor, and pause reasons carry no detail text; the resolution path is a field of the compiler instead of a parameter.
- Manifest: the straight-line printers of leaves, steps and authorities are concatenation expressions rather than buffer appends; structs written as arrays are refused at once (the exact-bytes check of restore would refuse them). A number too large for a float is kept as it is written where the source refuses it; both end in refusal.
- ArchiveRestore.ExtractSafe: directories are implied by the files in them, so empty directories are not modelled.
- ArchiveVerify.VerifyExpanded: canary scans (off unless canaries are given) and symbolic links are not part of this model; a database is judged from its own file; receipts, generation and tombstones, which are sorted, are one summary function of the tracked files.
- ArchiveRoundTrip.Backup: staging files, file sync and the publishing rename of the archive are not modelled.
- ByteScan.Patterns: the encoders of the variants (base64, hex, percent, UTF-16) are a parameter; walking directories and zip members around the reader is left out.
- PluginRegistry.Registry.RegisterManifest: the stages of normalization are one function; the in-place rewrite of declarations is proved against the same function.
- Recovery.DrivenRunsEnd: the driver is a relation between plans, since the loop around the planner belongs to the gateway.
- The hook bus, channel adapters, gateway, recorder, desktop application and scripts other than the state tool and the byte scanner.
- Profile compilation and the truth tables of authority and technical validity: finite case distinctions.
- Real time, process and network behaviour, cryptographic internals and Unicode normalisation.
