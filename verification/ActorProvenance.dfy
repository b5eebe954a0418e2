// Owner authority: the bytes of the human evidence, and the provenance id that binds evidence,
// instruction, envelope, scope and decision into one digest.
module ActorProvenance {
  import opened Wrappers
  import opened Framing
  import Json

  const EVIDENCE_DOMAIN: Text := "carsinos.execass.owner_evidence.v1"
  const INTENT_DOMAIN: Text := "carsinos.execass.normalized_intent.v1"
  const INSTRUCTION_DOMAIN: Text := "carsinos.execass.owner_instruction.v1"
  const ENVELOPE_DOMAIN: Text := "carsinos.execass.owner_envelope.v1"
  const NONCE_DOMAIN: Text := "carsinos.execass.challenge_nonce.v1"
  const PROVENANCE_DOMAIN: Text := "carsinos.execass.authority_provenance.v1"

  const AUTHORITY_KINDS := [
    "original_request", "decision_resolution", "action_specific_owner_amendment",
    "policy_snapshot", "runtime_settings_snapshot", "runtime_safety_state"]

  // Whitespace trimming, SHA-256 in lower-case hex, and JSON read and printed again.
  datatype Library = Library(
    trim: string -> string,
    sha256: string -> Text,
    canonicalJson: string -> Option<Text>)

  datatype HumanEvidence =
    | Local(
        authenticatedClientId: Text,
        authenticatedIngress: Text,
        channelAssurance: Text,
        requestCorrelationId: Text,
        optionalSourceMessageId: Option<Text>)
    | Remote(
        adapterId: Text,
        providerAccountId: Text,
        authenticatedIngress: Text,
        channelAssurance: Text,
        sourceMessageId: Text,
        requestCorrelationId: Text,
        providerEventId: Option<Text>,
        providerEventObservedAt: Option<Signed>,
        serverVerifiedAt: Option<Signed>)

  datatype ActorAssurance = ActorAssurance(humanEvidence: Option<HumanEvidence>, maySubmitIntent: bool)

  datatype AuthoritySource = AuthoritySource(
    normalizedIntent: Text,
    instructionRevision: Text,
    instructionBytes: Text,
    ownerEnvelopeRevision: Text,
    ownerEnvelopeJson: Text,
    authorityKind: Text,
    normalizedScopeJson: Text,
    policyRevision: Signed,
    boundDecisionId: Option<Text>,
    boundDecisionRevision: Option<Signed>,
    boundManifestBytes: Option<Text>,
    challengeNonceBytes: Option<Text>,
    createdAt: Signed,
    expiresAt: Option<Signed>)

  // What the provenance id is computed over.
  datatype Binding = Binding(
    evidenceDigest: Text,
    normalizedIntentDigest: Text,
    instructionRevision: Text,
    instructionDigest: Text,
    ownerEnvelopeRevision: Text,
    ownerEnvelopeDigest: Text,
    authorityKind: Text,
    normalizedScopeJson: Text,
    policyRevision: Signed,
    boundDecisionId: Option<Text>,
    boundDecisionRevision: Option<Signed>,
    boundManifestDigest: Option<Text>,
    boundNonceDigest: Option<Text>,
    createdAt: Signed,
    expiresAt: Option<Signed>)

  datatype VerifiedAuthority = VerifiedAuthority(evidence: HumanEvidence, provenanceId: Text, binding: Binding)

  datatype BindingError = NonHumanActor | InvalidField

  datatype Result = Ok(authority: VerifiedAuthority) | Err(error: BindingError)

  // ---------------------------------------------------------------- the encodings

  function EvidencePieces(e: HumanEvidence): seq<Piece> {
    match e
    case Local(client, ingress, assurance, correlation, message) =>
      [Frame("local"), Frame(client), Frame(ingress), Frame(assurance), Frame(correlation), OptionalFrame(message)]
    case Remote(adapter, account, ingress, assurance, message, correlation, event, observedAt, verifiedAt) =>
      [Frame("remote"), Frame(adapter), Frame(account), Frame(ingress), Frame(assurance), Frame(message),
       Frame(correlation), OptionalFrame(event), OptionalNumber(observedAt), OptionalNumber(verifiedAt)]
  }

  function EvidenceText(e: HumanEvidence): string {
    PiecesText(EvidencePieces(e))
  }

  method PushLocal(out: FrameBuffer, e: HumanEvidence)
    requires out.Valid() && out.pieces == [] && e.Local?
    modifies out
    ensures out.Valid() && out.pieces == EvidencePieces(e)
  {
    hide PiecesText;
    out.PushFrame("local");
    out.PushFrame(e.authenticatedClientId);
    out.PushFrame(e.authenticatedIngress);
    out.PushFrame(e.channelAssurance);
    out.PushFrame(e.requestCorrelationId);
    out.PushOptional(e.optionalSourceMessageId);
  }

  method PushRemote(out: FrameBuffer, e: HumanEvidence)
    requires out.Valid() && out.pieces == [] && e.Remote?
    modifies out
    ensures out.Valid() && out.pieces == EvidencePieces(e)
  {
    hide PiecesText;
    out.PushFrame("remote");
    out.PushFrame(e.adapterId);
    out.PushFrame(e.providerAccountId);
    out.PushFrame(e.authenticatedIngress);
    out.PushFrame(e.channelAssurance);
    out.PushFrame(e.sourceMessageId);
    out.PushFrame(e.requestCorrelationId);
    out.PushOptional(e.providerEventId);
    out.PushOptionalNumber(e.providerEventObservedAt);
    out.PushOptionalNumber(e.serverVerifiedAt);
  }

  // canonical_human_evidence_bytes
  method CanonicalHumanEvidenceBytes(e: HumanEvidence) returns (bytes: string)
    ensures bytes == EvidenceText(e)
  {
    var out := new FrameBuffer();
    if e.Local? {
      PushLocal(out, e);
    } else {
      PushRemote(out, e);
    }
    return out.bytes;
  }

  lemma EvidenceTextIsInjective(a: HumanEvidence, b: HumanEvidence)
    requires EvidenceText(a) == EvidenceText(b)
    ensures a == b
  {
    hide PiecesText, PieceText;
    var p, q := EvidencePieces(a), EvidencePieces(b);
    assert p == [p[0]] + p[1..] && q == [q[0]] + q[1..];
    PiecesTextOfCons(p[0], p[1..]);
    PiecesTextOfCons(q[0], q[1..]);
    PieceIsSelfDelimiting(p[0], PiecesText(p[1..]), q[0], PiecesText(q[1..]));
    assert |p[0].bytes| == if a.Local? then 5 else 6;
    assert |q[0].bytes| == if b.Local? then 5 else 6;
    RecordIsInjective(p, q);
    SamePiecesSameEvidence(a, b);
  }

  lemma SamePiecesSameEvidence(a: HumanEvidence, b: HumanEvidence)
    requires a.Local? == b.Local? && EvidencePieces(a) == EvidencePieces(b)
    ensures a == b
  {
    var p, q := EvidencePieces(a), EvidencePieces(b);
    assert forall i :: 0 <= i < |p| ==> p[i] == q[i];
    assert p[1] == q[1] && p[2] == q[2] && p[3] == q[3] && p[4] == q[4] && p[5] == q[5];
    if a.Remote? {
      assert p[6] == q[6] && p[7] == q[7] && p[8] == q[8] && p[9] == q[9];
    }
  }

  function BindingPieces(b: Binding): seq<Piece> {
    [Frame(b.evidenceDigest), Frame(b.normalizedIntentDigest), Frame(b.instructionRevision),
     Frame(b.instructionDigest), Frame(b.ownerEnvelopeRevision), Frame(b.ownerEnvelopeDigest),
     Frame(b.authorityKind), Frame(b.normalizedScopeJson), Number(b.policyRevision),
     OptionalFrame(b.boundDecisionId), OptionalNumber(b.boundDecisionRevision),
     OptionalFrame(b.boundManifestDigest), OptionalFrame(b.boundNonceDigest),
     Number(b.createdAt), OptionalNumber(b.expiresAt)]
  }

  lemma BindingPiecesAreInjective(a: Binding, b: Binding)
    requires PiecesText(BindingPieces(a)) == PiecesText(BindingPieces(b))
    ensures a == b
  {
    hide PiecesText;
    var p, q := BindingPieces(a), BindingPieces(b);
    RecordIsInjective(p, q);
    assert p[0] == q[0] && p[1] == q[1] && p[2] == q[2] && p[3] == q[3] && p[4] == q[4];
    assert p[5] == q[5] && p[6] == q[6] && p[7] == q[7] && p[8] == q[8] && p[9] == q[9];
    assert p[10] == q[10] && p[11] == q[11] && p[12] == q[12] && p[13] == q[13] && p[14] == q[14];
  }

  // The text that digest_hex hashes.
  function Preimage(domain: Text, bytes: string): string {
    FrameText(domain) + FrameText(bytes)
  }

  lemma PreimageIsInjective(d: Text, a: string, e: Text, b: string)
    requires Preimage(d, a) == Preimage(e, b)
    ensures d == e && a == b
  {
    hide WordText;
    FrameIsSelfDelimiting(d, FrameText(a), e, FrameText(b));
    SplitEqual(WordText(|a| % WORD_LIMIT), a, WordText(|b| % WORD_LIMIT), b);
  }

  function DigestHex(lib: Library, domain: Text, bytes: string): Text {
    lib.sha256(Preimage(domain, bytes))
  }

  function ProvenanceId(lib: Library, b: Binding): Text {
    DigestHex(lib, PROVENANCE_DOMAIN, PiecesText(BindingPieces(b)))
  }

  // authority_provenance_id
  method AuthorityProvenanceId(lib: Library, b: Binding) returns (id: Text)
    ensures id == ProvenanceId(lib, b)
  {
    hide PiecesText, DigestHex;
    var out := new FrameBuffer();
    PushDigests(out, b);
    PushDecision(out, b);
    assert out.pieces == BindingPieces(b);
    return DigestHex(lib, PROVENANCE_DOMAIN, out.bytes);
  }

  method PushDigests(out: FrameBuffer, b: Binding)
    requires out.Valid() && out.pieces == []
    modifies out
    ensures out.Valid() && out.pieces == BindingPieces(b)[..9]
  {
    hide PiecesText;
    out.PushFrame(b.evidenceDigest);
    out.PushFrame(b.normalizedIntentDigest);
    out.PushFrame(b.instructionRevision);
    out.PushFrame(b.instructionDigest);
    out.PushFrame(b.ownerEnvelopeRevision);
    out.PushFrame(b.ownerEnvelopeDigest);
    out.PushFrame(b.authorityKind);
    out.PushFrame(b.normalizedScopeJson);
    out.PushNumber(b.policyRevision);
  }

  method PushDecision(out: FrameBuffer, b: Binding)
    requires out.Valid()
    modifies out
    ensures out.Valid() && out.pieces == old(out.pieces) + BindingPieces(b)[9..]
  {
    hide PiecesText;
    out.PushOptional(b.boundDecisionId);
    out.PushOptionalNumber(b.boundDecisionRevision);
    out.PushOptional(b.boundManifestDigest);
    out.PushOptional(b.boundNonceDigest);
    out.PushNumber(b.createdAt);
    out.PushOptionalNumber(b.expiresAt);
  }

  // ---------------------------------------------------------------- issuing the authority

  predicate IsLowerHexDigest(s: string) {
    |s| == 64 && forall i :: 0 <= i < |s| ==> '0' <= s[i] <= '9' || 'a' <= s[i] <= 'f'
  }

  predicate IsPresent(lib: Library, s: string) {
    lib.trim(s) != ""
  }

  predicate IsIssuable(lib: Library, source: AuthoritySource, manifestDigest: Option<Text>, nonceDigest: Option<Text>) {
    && IsPresent(lib, source.normalizedIntent)
    && IsPresent(lib, source.instructionRevision)
    && IsPresent(lib, source.ownerEnvelopeRevision)
    && IsPresent(lib, source.authorityKind)
    && IsPresent(lib, source.normalizedScopeJson)
    && IsPresent(lib, source.ownerEnvelopeJson)
    && source.instructionBytes != ""
    && source.authorityKind in AUTHORITY_KINDS
    && source.policyRevision >= 0
    && (manifestDigest.Some? ==> IsLowerHexDigest(manifestDigest.value) && source.boundManifestBytes.None?)
    && (nonceDigest.Some? ==> IsLowerHexDigest(nonceDigest.value) && source.challengeNonceBytes.None?)
    && (source.expiresAt.Some? ==> source.expiresAt.value > source.createdAt)
    && source.boundDecisionId.Some? == source.boundDecisionRevision.Some?
    && (source.boundDecisionRevision.Some? ==> source.boundDecisionRevision.value >= 0)
    && source.boundManifestBytes != Some("")
    && source.challengeNonceBytes != Some("")
    && lib.canonicalJson(source.normalizedScopeJson).Some?
    && lib.canonicalJson(source.ownerEnvelopeJson).Some?
  }

  function BoundManifest(lib: Library, source: AuthoritySource, given: Option<Text>): Option<Text> {
    if given.Some? then given
    else if source.boundManifestBytes.Some? then Some(lib.sha256(source.boundManifestBytes.value))
    else None
  }

  function BoundNonce(lib: Library, source: AuthoritySource, given: Option<Text>): Option<Text> {
    if given.Some? then given
    else if source.challengeNonceBytes.Some? then Some(DigestHex(lib, NONCE_DOMAIN, source.challengeNonceBytes.value))
    else None
  }

  function BindingOf(lib: Library, evidence: HumanEvidence, source: AuthoritySource,
                     manifestDigest: Option<Text>, nonceDigest: Option<Text>): Binding
    requires IsIssuable(lib, source, manifestDigest, nonceDigest)
  {
    Binding(
      DigestHex(lib, EVIDENCE_DOMAIN, EvidenceText(evidence)),
      DigestHex(lib, INTENT_DOMAIN, source.normalizedIntent),
      source.instructionRevision,
      DigestHex(lib, INSTRUCTION_DOMAIN, source.instructionBytes),
      source.ownerEnvelopeRevision,
      DigestHex(lib, ENVELOPE_DOMAIN, lib.canonicalJson(source.ownerEnvelopeJson).value),
      source.authorityKind,
      lib.canonicalJson(source.normalizedScopeJson).value,
      source.policyRevision,
      source.boundDecisionId,
      source.boundDecisionRevision,
      BoundManifest(lib, source, manifestDigest),
      BoundNonce(lib, source, nonceDigest),
      source.createdAt,
      source.expiresAt)
  }

  // bind_verified_owner_authority_with_bound_digests
  function Issue(lib: Library, actor: ActorAssurance, source: AuthoritySource,
                 manifestDigest: Option<Text>, nonceDigest: Option<Text>): Result {
    if actor.humanEvidence.None? then Err(NonHumanActor)
    else if !actor.maySubmitIntent || !IsIssuable(lib, source, manifestDigest, nonceDigest) then Err(InvalidField)
    else
      var evidence := actor.humanEvidence.value;
      var binding := BindingOf(lib, evidence, source, manifestDigest, nonceDigest);
      Ok(VerifiedAuthority(evidence, ProvenanceId(lib, binding), binding))
  }

  // ---------------------------------------------------------------- what is issued, and from what

  predicate IsKnownKind(kind: string) {
    || kind == "original_request" || kind == "decision_resolution" || kind == "action_specific_owner_amendment"
    || kind == "policy_snapshot" || kind == "runtime_settings_snapshot" || kind == "runtime_safety_state"
  }

  predicate AreTextsPresent(lib: Library, source: AuthoritySource) {
    && lib.trim(source.normalizedIntent) != "" && lib.trim(source.instructionRevision) != ""
    && lib.trim(source.ownerEnvelopeRevision) != "" && lib.trim(source.authorityKind) != ""
    && lib.trim(source.normalizedScopeJson) != "" && lib.trim(source.ownerEnvelopeJson) != ""
    && |source.instructionBytes| >= 1
  }

  predicate IsLowerHex64(s: string) {
    |s| == 64 && forall i :: 0 <= i < 64 ==> '0' <= s[i] <= '9' || 'a' <= s[i] <= 'f'
  }

  // A digest is given or its bytes are, not both; a given one is 64 lower-case hexadecimal digits, and
  // bytes are not empty.
  predicate IsBoundOnce(digest: Option<Text>, bytes: Option<Text>) {
    && (digest == None || bytes == None)
    && (digest == None || IsLowerHex64(digest.value))
    && (bytes != None ==> |bytes.value| >= 1)
  }

  // An authority is current: it expires after it was made, if at all, and a decision it names has a
  // revision.
  predicate IsCurrent(source: AuthoritySource) {
    && source.policyRevision >= 0
    && (source.expiresAt == None || source.createdAt < source.expiresAt.value)
    && (source.boundDecisionId == None <==> source.boundDecisionRevision == None)
    && (source.boundDecisionRevision == None || source.boundDecisionRevision.value >= 0)
  }

  predicate MayBeIssued(lib: Library, source: AuthoritySource, manifestDigest: Option<Text>, nonceDigest: Option<Text>) {
    && AreTextsPresent(lib, source) && IsKnownKind(source.authorityKind) && IsCurrent(source)
    && IsBoundOnce(manifestDigest, source.boundManifestBytes) && IsBoundOnce(nonceDigest, source.challengeNonceBytes)
    && lib.canonicalJson(source.normalizedScopeJson) != None && lib.canonicalJson(source.ownerEnvelopeJson) != None
  }

  predicate IsEnvelopeDigest(lib: Library, printed: Option<Text>, digest: Text) {
    printed != None && digest == lib.sha256(Preimage("carsinos.execass.owner_envelope.v1", printed.value))
  }

  predicate IsNonceDigest(lib: Library, bytes: Text, digest: Option<Text>) {
    digest == Some(lib.sha256(Preimage("carsinos.execass.challenge_nonce.v1", bytes)))
  }

  predicate IsIssuedOf(lib: Library, actor: ActorAssurance, source: AuthoritySource, manifestDigest: Option<Text>,
                       nonceDigest: Option<Text>, a: VerifiedAuthority)
  {
    && actor.humanEvidence == Some(a.evidence)
    && IsBindingOf(lib, a.evidence, source, manifestDigest, nonceDigest, a.binding)
    && a.provenanceId
       == lib.sha256(Preimage("carsinos.execass.authority_provenance.v1", PiecesText(BindingPieces(a.binding))))
  }

  // The binding, field by field.
  predicate IsBindingOf(lib: Library, evidence: HumanEvidence, source: AuthoritySource, manifestDigest: Option<Text>,
                        nonceDigest: Option<Text>, b: Binding)
  {
    && b.evidenceDigest == lib.sha256(Preimage("carsinos.execass.owner_evidence.v1", EvidenceText(evidence)))
    && b.normalizedIntentDigest == lib.sha256(Preimage("carsinos.execass.normalized_intent.v1", source.normalizedIntent))
    && b.instructionRevision == source.instructionRevision
    && b.instructionDigest == lib.sha256(Preimage("carsinos.execass.owner_instruction.v1", source.instructionBytes))
    && b.ownerEnvelopeRevision == source.ownerEnvelopeRevision
    && IsEnvelopeDigest(lib, lib.canonicalJson(source.ownerEnvelopeJson), b.ownerEnvelopeDigest)
    && b.authorityKind == source.authorityKind
    && lib.canonicalJson(source.normalizedScopeJson) == Some(b.normalizedScopeJson)
    && b.policyRevision == source.policyRevision
    && b.boundDecisionId == source.boundDecisionId && b.boundDecisionRevision == source.boundDecisionRevision
    && (manifestDigest != None ==> b.boundManifestDigest == manifestDigest)
    && (source.boundManifestBytes != None ==> b.boundManifestDigest == Some(lib.sha256(source.boundManifestBytes.value)))
    && (manifestDigest == None && source.boundManifestBytes == None ==> b.boundManifestDigest == None)
    && (nonceDigest != None ==> b.boundNonceDigest == nonceDigest)
    && (source.challengeNonceBytes != None ==> IsNonceDigest(lib, source.challengeNonceBytes.value, b.boundNonceDigest))
    && (nonceDigest == None && source.challengeNonceBytes == None ==> b.boundNonceDigest == None)
    && b.createdAt == source.createdAt && b.expiresAt == source.expiresAt
  }

  lemma KindsExactly(kind: string)
    ensures kind in AUTHORITY_KINDS <==> IsKnownKind(kind)
  {
  }

  // An authority is issued exactly to a human who may submit, from a source that may be; what is issued
  // holds the evidence, and binds the source field by field under the id of all fields.
  lemma IssueExactly(lib: Library, actor: ActorAssurance, source: AuthoritySource, manifestDigest: Option<Text>,
                     nonceDigest: Option<Text>)
    ensures var r := Issue(lib, actor, source, manifestDigest, nonceDigest);
      (r == Err(NonHumanActor) <==> actor.humanEvidence == None)
    ensures var r := Issue(lib, actor, source, manifestDigest, nonceDigest);
      r.Ok? <==> actor.humanEvidence != None && actor.maySubmitIntent && MayBeIssued(lib, source, manifestDigest, nonceDigest)
    ensures var r := Issue(lib, actor, source, manifestDigest, nonceDigest);
      r.Ok? ==> IsIssuedOf(lib, actor, source, manifestDigest, nonceDigest, r.authority)
  {
    KindsExactly(source.authorityKind);
    hide Preimage, EvidenceText, PiecesText, BindingPieces;
    hide AUTHORITY_KINDS;
  }

  // Printing what was read gives JSON without white space.
  ghost predicate PrintsJson(lib: Library) {
    forall s :: lib.canonicalJson(s).Some? ==> Json.IsPrinted(lib.canonicalJson(s).value)
  }

  // The scope of an issued authority is such JSON, with any numbers in it.
  lemma IssuedScopeIsPrinted(lib: Library, actor: ActorAssurance, source: AuthoritySource,
                             manifestDigest: Option<Text>, nonceDigest: Option<Text>)
    requires PrintsJson(lib) && Issue(lib, actor, source, manifestDigest, nonceDigest).Ok?
    ensures Json.IsPrinted(Issue(lib, actor, source, manifestDigest, nonceDigest).authority.binding.normalizedScopeJson)
  {
    var printed := lib.canonicalJson(source.normalizedScopeJson).value;
    assert Issue(lib, actor, source, manifestDigest, nonceDigest).authority.binding.normalizedScopeJson == printed;
  }

  // ---------------------------------------------------------------- every mutation changes the id

  ghost function OneText(text: string): set<string> {
    {text}
  }

  // Everything SHA-256 is applied to while an authority is issued.
  ghost function Hashed(lib: Library, evidence: HumanEvidence, source: AuthoritySource,
                        manifestDigest: Option<Text>, nonceDigest: Option<Text>): set<string>
    requires IsIssuable(lib, source, manifestDigest, nonceDigest)
  {
    {Preimage(EVIDENCE_DOMAIN, EvidenceText(evidence)),
     Preimage(INTENT_DOMAIN, source.normalizedIntent),
     Preimage(INSTRUCTION_DOMAIN, source.instructionBytes),
     Preimage(ENVELOPE_DOMAIN, lib.canonicalJson(source.ownerEnvelopeJson).value),
     Preimage(PROVENANCE_DOMAIN, PiecesText(BindingPieces(BindingOf(lib, evidence, source, manifestDigest, nonceDigest))))}
    + (if source.boundManifestBytes.Some? then OneText(source.boundManifestBytes.value) else {})
    + (if source.challengeNonceBytes.Some? then {Preimage(NONCE_DOMAIN, source.challengeNonceBytes.value)} else {})
  }

  ghost predicate NoCollision(lib: Library, texts: set<string>) {
    forall x, y :: x in texts && y in texts && lib.sha256(x) == lib.sha256(y) ==> x == y
  }

  // The same but for the layout of the two JSON texts.
  predicate SameSource(lib: Library, a: AuthoritySource, b: AuthoritySource) {
    && a.(ownerEnvelopeJson := "", normalizedScopeJson := "") == b.(ownerEnvelopeJson := "", normalizedScopeJson := "")
    && lib.canonicalJson(a.ownerEnvelopeJson) == lib.canonicalJson(b.ownerEnvelopeJson)
    && lib.canonicalJson(a.normalizedScopeJson) == lib.canonicalJson(b.normalizedScopeJson)
  }

  lemma SameIdSameBinding(lib: Library, a: Binding, b: Binding, texts: set<string>)
    requires NoCollision(lib, texts)
    requires Preimage(PROVENANCE_DOMAIN, PiecesText(BindingPieces(a))) in texts
    requires Preimage(PROVENANCE_DOMAIN, PiecesText(BindingPieces(b))) in texts
    requires ProvenanceId(lib, a) == ProvenanceId(lib, b)
    ensures a == b
  {
    hide PiecesText, BindingPieces, Preimage;
    PreimageIsInjective(PROVENANCE_DOMAIN, PiecesText(BindingPieces(a)), PROVENANCE_DOMAIN, PiecesText(BindingPieces(b)));
    BindingPiecesAreInjective(a, b);
  }

  lemma SameDigestSameText(lib: Library, domain: Text, a: string, b: string, texts: set<string>)
    requires NoCollision(lib, texts)
    requires Preimage(domain, a) in texts && Preimage(domain, b) in texts
    requires DigestHex(lib, domain, a) == DigestHex(lib, domain, b)
    ensures a == b
  {
    hide Preimage;
    PreimageIsInjective(domain, a, domain, b);
  }

  // The same in everything the binding holds outright, and in what it holds through a digest: the
  // manifest and the nonce only as their digests, given or computed.
  predicate SameBoundSource(lib: Library, a: AuthoritySource, md: Option<Text>, nd: Option<Text>,
                            b: AuthoritySource, me: Option<Text>, ne: Option<Text>)
  {
    && SameSource(lib, a.(boundManifestBytes := None, challengeNonceBytes := None),
                  b.(boundManifestBytes := None, challengeNonceBytes := None))
    && BoundManifest(lib, a, md) == BoundManifest(lib, b, me)
    && BoundNonce(lib, a, nd) == BoundNonce(lib, b, ne)
  }

  // Two issued authorities share an id exactly when evidence and bound source are the same, whether
  // their manifest and nonce digests were given or computed, unless SHA-256 confuses two of the texts
  // hashed on the way.
  lemma IdDeterminesBinding(lib: Library, actor: ActorAssurance, source: AuthoritySource, md: Option<Text>, nd: Option<Text>,
                            otherActor: ActorAssurance, otherSource: AuthoritySource, me: Option<Text>, ne: Option<Text>)
    requires Issue(lib, actor, source, md, nd).Ok? && Issue(lib, otherActor, otherSource, me, ne).Ok?
    requires NoCollision(lib, Hashed(lib, actor.humanEvidence.value, source, md, nd)
                              + Hashed(lib, otherActor.humanEvidence.value, otherSource, me, ne))
    ensures Issue(lib, actor, source, md, nd).authority.provenanceId
         == Issue(lib, otherActor, otherSource, me, ne).authority.provenanceId
       <==> actor.humanEvidence == otherActor.humanEvidence
            && SameBoundSource(lib, source, md, nd, otherSource, me, ne)
  {
    hide Preimage, EvidenceText, PiecesText, BindingPieces, ProvenanceId, DigestHex, IsIssuable, NoCollision,
      BoundManifest, BoundNonce;
    IssuableIsReadable(lib, source, md, nd);
    IssuableIsReadable(lib, otherSource, me, ne);
    var evidence, other := actor.humanEvidence.value, otherActor.humanEvidence.value;
    var texts := Hashed(lib, evidence, source, md, nd) + Hashed(lib, other, otherSource, me, ne);
    var a, b := BindingOf(lib, evidence, source, md, nd), BindingOf(lib, other, otherSource, me, ne);
    if ProvenanceId(lib, a) == ProvenanceId(lib, b) {
      SameIdSameBinding(lib, a, b, texts);
      SameDigestSameText(lib, EVIDENCE_DOMAIN, EvidenceText(evidence), EvidenceText(other), texts);
      EvidenceTextIsInjective(evidence, other);
      SameDigestSameText(lib, INTENT_DOMAIN, source.normalizedIntent, otherSource.normalizedIntent, texts);
      SameDigestSameText(lib, INSTRUCTION_DOMAIN, source.instructionBytes, otherSource.instructionBytes, texts);
      SameDigestSameText(lib, ENVELOPE_DOMAIN, lib.canonicalJson(source.ownerEnvelopeJson).value,
                         lib.canonicalJson(otherSource.ownerEnvelopeJson).value, texts);
    }
  }

  // When no digests are given the id determines the bytes of manifest and nonce too.
  lemma IdDeterminesAuthority(lib: Library, actor: ActorAssurance, source: AuthoritySource,
                              otherActor: ActorAssurance, otherSource: AuthoritySource)
    requires Issue(lib, actor, source, None, None).Ok? && Issue(lib, otherActor, otherSource, None, None).Ok?
    requires NoCollision(lib, Hashed(lib, actor.humanEvidence.value, source, None, None)
                              + Hashed(lib, otherActor.humanEvidence.value, otherSource, None, None))
    ensures Issue(lib, actor, source, None, None).authority.provenanceId
         == Issue(lib, otherActor, otherSource, None, None).authority.provenanceId
       <==> actor.humanEvidence == otherActor.humanEvidence && SameSource(lib, source, otherSource)
  {
    hide Preimage, EvidenceText, PiecesText, BindingPieces, ProvenanceId, DigestHex, IsIssuable, NoCollision;
    IdDeterminesBinding(lib, actor, source, None, None, otherActor, otherSource, None, None);
    var texts := Hashed(lib, actor.humanEvidence.value, source, None, None)
                 + Hashed(lib, otherActor.humanEvidence.value, otherSource, None, None);
    if SameBoundSource(lib, source, None, None, otherSource, None, None) {
      if source.boundManifestBytes.Some? {
        SameHashSameText(lib, source.boundManifestBytes.value, otherSource.boundManifestBytes.value, texts);
      }
      if source.challengeNonceBytes.Some? {
        SameDigestSameText(lib, NONCE_DOMAIN, source.challengeNonceBytes.value,
                           otherSource.challengeNonceBytes.value, texts);
      }
    }
  }

  lemma IssuableIsReadable(lib: Library, source: AuthoritySource, manifestDigest: Option<Text>, nonceDigest: Option<Text>)
    requires IsIssuable(lib, source, manifestDigest, nonceDigest)
    ensures lib.canonicalJson(source.normalizedScopeJson).Some? && lib.canonicalJson(source.ownerEnvelopeJson).Some?
  {
  }

  lemma SameHashSameText(lib: Library, a: string, b: string, texts: set<string>)
    requires NoCollision(lib, texts) && a in texts && b in texts
    requires lib.sha256(a) == lib.sha256(b)
    ensures a == b
  {
  }
}
