// The layout of the texts that are signed and hashed, said without the pieces they are pushed as.
module EncodingLayouts {
  import opened Wrappers
  import opened Ordering
  import opened Framing
  import Json
  import QuotaUnits
  import opened Quota
  import opened DangerRouting
  import opened DangerSigning
  import opened ActorProvenance

  // ---------------------------------------------------------------- words and frames

  // The number a text of bytes spells, the most significant byte first.
  function Spelled(word: string): nat {
    if word == "" then 0 else 256 * Spelled(word[..|word| - 1]) + word[|word| - 1] as int
  }

  predicate AreBytes(text: string) {
    forall i :: 0 <= i < |text| ==> text[i] as int < 256
  }

  predicate IsWord(word: string, n: int) {
    |word| == 8 && AreBytes(word) && Spelled(word) == n
  }

  // Eight bytes with the length, then the bytes.
  predicate IsFrame(framed: string, bytes: string) {
    |framed| == 8 + |bytes| && IsWord(framed[..8], |bytes|) && framed[8..] == bytes
  }

  lemma {:induction false} BigEndianSpells(n: nat, width: nat)
    requires n < Power256(width)
    ensures AreBytes(BigEndian(n, width)) && Spelled(BigEndian(n, width)) == n
  {
    if width > 0 {
      BigEndianSpells(n / 256, width - 1);
      var text := BigEndian(n, width);
      assert text[..width - 1] == BigEndian(n / 256, width - 1) && text[width - 1] == (n % 256) as char;
    }
  }

  lemma {:induction false} SpelledOnce(word: string)
    requires AreBytes(word)
    ensures BigEndian(Spelled(word), |word|) == word && Spelled(word) < Power256(|word|)
  {
    if word != "" {
      var front, last := word[..|word| - 1], word[|word| - 1];
      SpelledOnce(front);
      assert Spelled(word) / 256 == Spelled(front) && Spelled(word) % 256 == last as int;
      assert word == front + [last];
    }
  }

  lemma WordExactly(n: Unsigned, word: string)
    ensures word == WordText(n) <==> IsWord(word, n)
  {
    PowerOfWord();
    BigEndianSpells(n, WORD);
    if IsWord(word, n) {
      SpelledOnce(word);
    }
  }

  lemma FrameExactly(bytes: Text, framed: string)
    ensures framed == FrameText(bytes) <==> IsFrame(framed, bytes)
  {
    hide WordText, IsWord;
    WordExactly(|bytes|, WordText(|bytes|));
    if IsFrame(framed, bytes) {
      WordExactly(|bytes|, framed[..8]);
      assert framed == framed[..8] + framed[8..];
    }
  }

  // A number is spelled in two's complement.
  lemma NumberExactly(n: Signed, word: string)
    ensures word == NumberText(n) <==> IsWord(word, if n >= 0 then n else 0x1_0000_0000_0000_0000 + n)
  {
    hide WordText, IsWord;
    WordExactly(TwosComplement(n), word);
  }

  // ---------------------------------------------------------------- records

  function Joined(parts: seq<string>): string {
    if parts == [] then "" else Joined(parts[..|parts| - 1]) + parts[|parts| - 1]
  }

  function OptionalFrameText(bytes: Option<Text>): string {
    match bytes
    case None => [0 as char]
    case Some(b) => [1 as char] + FrameText(b)
  }

  function OptionalNumberText(n: Option<Signed>): string {
    match n
    case None => [0 as char]
    case Some(m) => [1 as char] + NumberText(m)
  }

  lemma {:induction false} PiecesAreJoined(pieces: seq<Piece>)
    ensures PiecesText(pieces) == Joined(Map(PieceText, pieces))
  {
    hide PieceText;
    if pieces != [] {
      PiecesAreJoined(pieces[..|pieces| - 1]);
      var texts := Map(PieceText, pieces);
      assert texts[..|texts| - 1] == Map(PieceText, pieces[..|pieces| - 1]);
    }
  }

  lemma JoinedTexts(pieces: seq<Piece>, texts: seq<string>)
    requires |texts| == |pieces| && forall i :: 0 <= i < |pieces| ==> PieceText(pieces[i]) == texts[i]
    ensures PiecesText(pieces) == Joined(texts)
  {
    hide PieceText, Joined, PiecesText;
    PiecesAreJoined(pieces);
    assert Map(PieceText, pieces) == texts;
  }

  // ---------------------------------------------------------------- owner authority

  function EvidenceLayout(e: HumanEvidence): seq<string> {
    match e
    case Local(_, _, _, _, _) =>
      [FrameText("local"), FrameText(e.authenticatedClientId), FrameText(e.authenticatedIngress),
       FrameText(e.channelAssurance), FrameText(e.requestCorrelationId), OptionalFrameText(e.optionalSourceMessageId)]
    case Remote(_, _, _, _, _, _, _, _, _) =>
      [FrameText("remote"), FrameText(e.adapterId), FrameText(e.providerAccountId), FrameText(e.authenticatedIngress),
       FrameText(e.channelAssurance), FrameText(e.sourceMessageId), FrameText(e.requestCorrelationId),
       OptionalFrameText(e.providerEventId), OptionalNumberText(e.providerEventObservedAt),
       OptionalNumberText(e.serverVerifiedAt)]
  }

  lemma EvidenceLaidOut(e: HumanEvidence)
    ensures EvidenceText(e) == Joined(EvidenceLayout(e))
  {
    hide Joined, PiecesText, FrameText, NumberText;
    JoinedTexts(EvidencePieces(e), EvidenceLayout(e));
  }

  function BindingLayout(b: Binding): seq<string> {
    [FrameText(b.evidenceDigest), FrameText(b.normalizedIntentDigest), FrameText(b.instructionRevision),
     FrameText(b.instructionDigest), FrameText(b.ownerEnvelopeRevision), FrameText(b.ownerEnvelopeDigest),
     FrameText(b.authorityKind), FrameText(b.normalizedScopeJson), NumberText(b.policyRevision),
     OptionalFrameText(b.boundDecisionId), OptionalNumberText(b.boundDecisionRevision),
     OptionalFrameText(b.boundManifestDigest), OptionalFrameText(b.boundNonceDigest), NumberText(b.createdAt),
     OptionalNumberText(b.expiresAt)]
  }

  // The id is the digest of two frames: the domain, and the fields of the binding in order.
  lemma ProvenanceLaidOut(lib: ActorProvenance.Library, b: Binding)
    ensures ProvenanceId(lib, b)
      == lib.sha256(FrameText("carsinos.execass.authority_provenance.v1") + FrameText(Joined(BindingLayout(b))))
  {
    hide Joined, PiecesText, FrameText, NumberText;
    JoinedTexts(BindingPieces(b), BindingLayout(b));
  }

  // ---------------------------------------------------------------- danger admission

  function FlagLayout(flag: bool): string {
    if flag then [1 as char] else [0 as char]
  }

  function RouteLayout(route: Route): seq<string> {
    match route.kind
    case Ordinary => [FrameText(route.leafDigest), FrameText("ordinary")]
    case RequiresOneConfirmation(a) =>
      [FrameText(route.leafDigest), FrameText("requires_one_confirmation"),
       FrameText(if a.source == KnownCategory then "\"known_category\"" else "\"model_credible_danger\""),
       FrameText(CategoryJson(a.knownCategory)), FrameText(a.declaredConsequence),
       FrameText(FlagLayout(a.requiresOneConfirmation))]
  }

  function RoutesLayout(routes: seq<Route>): seq<string> {
    if routes == [] then [] else RoutesLayout(routes[..|routes| - 1]) + RouteLayout(routes[|routes| - 1])
  }

  function HeaderLayout(signer: Signer, proof: Proof): seq<string>
    requires Fits(proof)
  {
    [FrameText("carsinos.execass.danger_admission.v1"), FrameText(signer.keyId),
     FrameText(WordText(signer.keyGeneration)), FrameText(signer.rootIdentity), FrameText(signer.installationIdentity),
     FrameText(signer.osUserIdentityDigest), FrameText(WordText(signer.rootGeneration)),
     FrameText(proof.manifestDigest), FrameText(WordText(|proof.routes|))]
  }

  ghost predicate AreTexts(pieces: seq<Piece>, texts: seq<string>) {
    |texts| == |pieces| && forall i :: 0 <= i < |pieces| ==> PieceText(pieces[i]) == texts[i]
  }

  lemma TextsOfRoute(route: Route)
    requires RouteFits(route)
    ensures AreTexts(RoutePieces(route), RouteLayout(route))
  {
    hide FrameText, CategoryJson;
  }

  lemma TextsOfConcat(a: seq<Piece>, s: seq<string>, b: seq<Piece>, t: seq<string>)
    requires AreTexts(a, s) && AreTexts(b, t)
    ensures AreTexts(a + b, s + t)
  {
    hide PieceText;
  }

  lemma {:induction false} TextsOfRoutes(routes: seq<Route>)
    requires RoutesFit(routes)
    ensures AreTexts(RoutesPieces(routes), RoutesLayout(routes))
  {
    hide RoutePieces, RouteLayout, AreTexts, RouteFits;
    if routes == [] {
      assert AreTexts([], []) by { NoTexts(); }
    } else {
      var front, last := routes[..|routes| - 1], routes[|routes| - 1];
      TextsOfRoutes(front);
      TextsOfRoute(last);
      TextsOfConcat(RoutesPieces(front), RoutesLayout(front), RoutePieces(last), RouteLayout(last));
    }
  }

  lemma NoTexts()
    ensures AreTexts([], [])
  {
  }

  lemma TextsOfHeader(signer: Signer, proof: Proof)
    requires Fits(proof)
    ensures AreTexts(HeaderPieces(signer, proof), HeaderLayout(signer, proof))
  {
    hide FrameText, WordText, RoutesFit;
  }

  // What is signed: nine frames of signer and proof, then two or six for every route in its order.
  lemma SigningLaidOut(trim: string -> string, signer: Signer, proof: Proof)
    requires Fits(proof) && SigningBytes(trim, signer, proof).Some?
    ensures SigningBytes(trim, signer, proof).value == Joined(HeaderLayout(signer, proof) + RoutesLayout(proof.routes))
  {
    hide Joined, PiecesText, HeaderPieces, HeaderLayout, RoutesPieces, RoutesLayout, PieceText, RoutesFit;
    TextsOfHeader(signer, proof);
    TextsOfRoutes(proof.routes);
    TextsOfConcat(HeaderPieces(signer, proof), HeaderLayout(signer, proof),
                  RoutesPieces(proof.routes), RoutesLayout(proof.routes));
    JoinedTexts(HeaderPieces(signer, proof) + RoutesPieces(proof.routes),
                HeaderLayout(signer, proof) + RoutesLayout(proof.routes));
  }

  // ---------------------------------------------------------------- quotas

  predicate IsKindName(kind: ResourceKind, name: string) {
    && (kind == Tokens ==> name == "tokens") && (kind == TimeMs ==> name == "time_ms")
    && (kind == ConnectorCalls ==> name == "connector_calls") && (kind == ResourceUnits ==> name == "resource_units")
  }

  predicate IsMeteredValue(field: string, m: Metered, value: Json.Value) {
    && value.Object? && |value.fields| == 3
    && value.fields[0].key == "kind" && value.fields[0].value.Text? && IsKindName(m.kind, value.fields[0].value.text)
    && value.fields[1] == Json.Field("unit", Json.Text(m.unit))
    && value.fields[2] == Json.Field(field, Json.Integer(m.number))
  }

  // The JSON lists the entries in their order.
  ghost predicate IsMeteredJson(field: string, ms: seq<Metered>, json: string) {
    exists values :: AreMeteredValues(field, ms, values) && json == Json.Render(Json.Array(values))
  }

  ghost predicate AreMeteredValues(field: string, ms: seq<Metered>, values: seq<Json.Value>) {
    |values| == |ms| && forall i :: 0 <= i < |ms| ==> IsMeteredValue(field, ms[i], values[i])
  }

  lemma MeteredJsonLaidOut(field: string, ms: seq<Metered>)
    ensures IsMeteredJson(field, ms, MeteredJson(field, ms))
  {
    hide Json.Render;
    var values := Map(m => MeteredValue(field, m), ms);
    forall i | 0 <= i < |ms| ensures IsMeteredValue(field, ms[i], values[i]) {
      assert values[i] == MeteredValue(field, ms[i]);
    }
    assert AreMeteredValues(field, ms, values);
  }

  // The names, the revision and the entries of a snapshot are those given, and its digests are of the
  // entries' JSON and of the five parts of its identity with a NUL between each two.
  lemma SnapshotLaidOut(lib: QuotaUnits.Library, trim: string -> string, delegationId: string, policyRevision: Json.I64,
                        authorityDigest: string, scopeKey: string, inputs: seq<Metered>)
    requires CompiledSnapshot(lib, trim, delegationId, policyRevision, authorityDigest, scopeKey, inputs).Some?
    ensures var made := CompiledSnapshot(lib, trim, delegationId, policyRevision, authorityDigest, scopeKey, inputs).value;
      && made.delegationId == delegationId && made.policyRevision == policyRevision
      && made.authorityDigest == authorityDigest && made.scopeKey == scopeKey
      && multiset(made.entries) == multiset(inputs)
      && IsMeteredJson("limit", made.entries, made.entriesJson)
      && made.entriesDigest
         == "sha256:" + lib.sha256("carsinos.execass.technical-quota.entries.v1" + [0 as char] + made.entriesJson)
      && made.id == "sha256:" + lib.sha256(
           "carsinos.execass.technical-quota.snapshot.v1" + [0 as char]
           + Joined([delegationId, [0 as char], Json.IntegerText(policyRevision), [0 as char], authorityDigest, [0 as char],
                     scopeKey, [0 as char], made.entriesDigest]))
  {
    SnapshotIsCanonical(lib, trim, delegationId, policyRevision, authorityDigest, scopeKey, inputs);
    var made := CompiledSnapshot(lib, trim, delegationId, policyRevision, authorityDigest, scopeKey, inputs).value;
    MeteredJsonLaidOut("limit", made.entries);
    FiveJoined(delegationId, Json.IntegerText(policyRevision), authorityDigest, scopeKey, made.entriesDigest);
    hide MeteredJson, IsMeteredJson, Json.IntegerText, NulJoin, Joined, Sort;
  }

  lemma {:induction false} NulsBetween(parts: seq<string>)
    ensures NulJoin(parts) == Joined(WithNuls(parts))
  {
    if |parts| == 1 {
      assert WithNuls(parts)[..0] == [];
      assert Joined([]) == "";
    } else if |parts| > 1 {
      NulsBetween(parts[1..]);
      JoinedConcat([parts[0], [0 as char]], WithNuls(parts[1..]));
      JoinedTwo(parts[0], [0 as char]);
    }
  }

  lemma JoinedTwo(a: string, b: string)
    ensures Joined([a, b]) == a + b
  {
    assert [a, b][..1] == [a] && [a][..0] == [];
    assert Joined([a]) == Joined([]) + a;
  }

  function WithNuls(parts: seq<string>): seq<string> {
    if |parts| <= 1 then parts else [parts[0], [0 as char]] + WithNuls(parts[1..])
  }

  lemma {:induction false} JoinedConcat(a: seq<string>, b: seq<string>)
    ensures Joined(a + b) == Joined(a) + Joined(b)
  {
    if b == [] {
      assert a + b == a;
    } else {
      var front, last := b[..|b| - 1], b[|b| - 1];
      JoinedConcat(a, front);
      assert (a + b)[..|a + b| - 1] == a + front;
      Associate(Joined(a), Joined(front), last);
    }
  }

  lemma FiveJoined(a: string, b: string, c: string, d: string, e: string)
    ensures NulJoin([a, b, c, d, e]) == Joined([a, [0 as char], b, [0 as char], c, [0 as char], d, [0 as char], e])
  {
    hide NulJoin, Joined;
    NulsBetween([a, b, c, d, e]);
    FiveWithNuls(a, b, c, d, e);
  }

  lemma FiveWithNuls(a: string, b: string, c: string, d: string, e: string)
    ensures WithNuls([a, b, c, d, e]) == [a, [0 as char], b, [0 as char], c, [0 as char], d, [0 as char], e]
  {
    assert [a, b, c, d, e][1..] == [b, c, d, e] && [b, c, d, e][1..] == [c, d, e];
    assert [c, d, e][1..] == [d, e] && [d, e][1..] == [e];
    assert WithNuls([d, e]) == [d, [0 as char], e];
    assert WithNuls([c, d, e]) == [c, [0 as char], d, [0 as char], e];
    assert WithNuls([b, c, d, e]) == [b, [0 as char], c, [0 as char], d, [0 as char], e];
    assert WithNuls([a, b, c, d, e]) == [a, [0 as char], b, [0 as char], c, [0 as char], d, [0 as char], e];
  }

  lemma SixJoined(a: string, b: string, c: string, d: string, e: string, f: string)
    ensures NulJoin([a, b, c, d, e, f])
      == Joined([a, [0 as char], b, [0 as char], c, [0 as char], d, [0 as char], e, [0 as char], f])
  {
    hide NulJoin, Joined;
    NulsBetween([a, b, c, d, e, f]);
    assert [a, b, c, d, e, f][1..] == [b, c, d, e, f];
    FiveWithNuls(b, c, d, e, f);
    assert WithNuls([a, b, c, d, e, f])
      == [a, [0 as char], b, [0 as char], c, [0 as char], d, [0 as char], e, [0 as char], f];
  }

  lemma RequirementsLaidOut(lib: QuotaUnits.Library, trim: string -> string, snapshot: Snapshot, effectId: string,
                            actionId: string, manifestDigest: string, inputs: seq<Metered>)
    requires CompiledRequirements(lib, trim, snapshot, effectId, actionId, manifestDigest, inputs).Some?
    ensures var made := CompiledRequirements(lib, trim, snapshot, effectId, actionId, manifestDigest, inputs).value;
      && made.snapshotId == snapshot.id && made.delegationId == snapshot.delegationId
      && made.logicalEffectId == effectId && made.actionId == actionId && made.manifestDigest == manifestDigest
      && multiset(made.requirements) == multiset(inputs) && Sorted(MeteredLe, made.requirements)
      && IsMeteredJson("amount", made.requirements, made.requirementsJson)
      && made.requirementsDigest
         == "sha256:" + lib.sha256("carsinos.execass.technical-resource.requirements.v1" + [0 as char] + made.requirementsJson)
      && made.id == "sha256:" + lib.sha256(
           "carsinos.execass.technical-resource.requirement-set.v1" + [0 as char]
           + Joined([snapshot.id, [0 as char], snapshot.delegationId, [0 as char], effectId, [0 as char], actionId,
                     [0 as char], manifestDigest, [0 as char], made.requirementsDigest]))
  {
    MeteredOrder();
    SortSorts(MeteredLe, inputs);
    SortPermutes(MeteredLe, inputs);
    var made := CompiledRequirements(lib, trim, snapshot, effectId, actionId, manifestDigest, inputs).value;
    MeteredJsonLaidOut("amount", made.requirements);
    SixJoined(snapshot.id, snapshot.delegationId, effectId, actionId, manifestDigest, made.requirementsDigest);
    hide MeteredJson, IsMeteredJson, NulJoin, Joined, Sort, MeteredLe;
  }
}
