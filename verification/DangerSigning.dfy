// The bytes a danger admission is signed over.
module DangerSigning {
  import opened Wrappers
  import opened Framing
  import opened DangerRouting

  const DOMAIN := "carsinos.execass.danger_admission.v1"

  datatype Signer = Signer(
    keyId: Text,
    keyGeneration: Unsigned,
    rootIdentity: Text,
    installationIdentity: Text,
    osUserIdentityDigest: Text,
    rootGeneration: Unsigned)

  // Every text of the proof fits in memory.
  predicate Fits(proof: Proof) {
    |proof.manifestDigest| < WORD_LIMIT && |proof.routes| < WORD_LIMIT && RoutesFit(proof.routes)
  }

  predicate RoutesFit(routes: seq<Route>) {
    forall i :: 0 <= i < |routes| ==> RouteFits(routes[i])
  }

  predicate RouteFits(route: Route) {
    && |route.leafDigest| < WORD_LIMIT
    && (route.kind.RequiresOneConfirmation? ==> |route.kind.assessment.declaredConsequence| < WORD_LIMIT)
  }

  // The JSON of the two enumerations.
  function SourceJson(source: Source): Text {
    match source
    case KnownCategory => "\"known_category\""
    case ModelCredibleDanger => "\"model_credible_danger\""
  }

  function CategoryLength(category: Category): nat {
    match category
    case WholeDrive => 68
    case UserProfile => 46
    case ProtectedSystem => 112
    case ExternalAccount => 51
    case LastRecoveryPath => 68
  }

  function CategoryName(category: Category): (r: string)
    ensures |r| == CategoryLength(category)
    ensures r[0] == (if category.ProtectedSystem? then 'c' else if category.LastRecoveryPath? then 'l' else 'w')
  {
    match category
    case WholeDrive =>
      "whole_drive_" + "volume_boot_" + "recovery_or_core_" + "os_tree_erasure_" + "or_unusable"
    case UserProfile =>
      "whole_user_" + "profile_or_home_" + "erasure_or_" + "unusable"
    case ProtectedSystem =>
      "complete_carsinos_" + "state_integrity_" + "runtime_" + "enforcement_stop_" + "fencing_or_" +
      "recovery_" + "configuration_" + "erasure_or_" + "unusable"
    case ExternalAccount =>
      "whole_connected_" + "external_account_" + "closure_or_erasure"
    case LastRecoveryPath =>
      "last_verified_" + "administrative_" + "recovery_or_" + "decryption_path_" + "destruction"
  }

  function CategoryJson(category: Option<Category>): Text {
    match category
    case None => "null"
    case Some(c) => "\"" + CategoryName(c) + "\""
  }

  function FlagText(flag: bool): Text {
    if flag then PRESENT else ABSENT
  }

  function AssessmentPieces(a: Assessment): seq<Piece>
    requires |a.declaredConsequence| < WORD_LIMIT
  {
    [Frame(SourceJson(a.source)), Frame(CategoryJson(a.knownCategory)), Frame(a.declaredConsequence),
     Frame(FlagText(a.requiresOneConfirmation))]
  }

  function RoutePieces(route: Route): seq<Piece>
    requires RouteFits(route)
  {
    match route.kind
    case Ordinary => [Frame(route.leafDigest), Frame("ordinary")]
    case RequiresOneConfirmation(a) => [Frame(route.leafDigest), Frame("requires_one_confirmation")] + AssessmentPieces(a)
  }

  function RoutesPieces(routes: seq<Route>): seq<Piece>
    requires RoutesFit(routes)
  {
    if routes == [] then [] else RoutesPieces(routes[..|routes| - 1]) + RoutePieces(routes[|routes| - 1])
  }

  function HeaderPieces(signer: Signer, proof: Proof): seq<Piece>
    requires Fits(proof)
  {
    [Frame(DOMAIN), Frame(signer.keyId), Frame(WordText(signer.keyGeneration)), Frame(signer.rootIdentity),
     Frame(signer.installationIdentity), Frame(signer.osUserIdentityDigest), Frame(WordText(signer.rootGeneration)),
     Frame(proof.manifestDigest), Frame(WordText(|proof.routes|))]
  }

  predicate IsSignable(trim: string -> string, signer: Signer, proof: Proof) {
    && trim(signer.keyId) != "" && signer.keyGeneration != 0
    && trim(signer.rootIdentity) != "" && trim(signer.installationIdentity) != ""
    && trim(signer.osUserIdentityDigest) != "" && signer.rootGeneration != 0
    && |proof.manifestDigest| == 64
  }

  function SigningBytes(trim: string -> string, signer: Signer, proof: Proof): Option<string>
    requires Fits(proof)
  {
    if IsSignable(trim, signer, proof)
    then Some(PiecesText(HeaderPieces(signer, proof) + RoutesPieces(proof.routes)))
    else None
  }

  method PushRoute(framed: FrameBuffer, route: Route)
    requires framed.Valid() && RouteFits(route)
    modifies framed
    ensures framed.Valid() && framed.pieces == old(framed.pieces) + RoutePieces(route)
  {
    hide SourceJson, CategoryJson, FlagText, PiecesText;
    framed.PushFrame(route.leafDigest);
    match route.kind {
      case Ordinary =>
        framed.PushFrame("ordinary");
      case RequiresOneConfirmation(a) =>
        framed.PushFrame("requires_one_confirmation");
        framed.PushFrame(SourceJson(a.source));
        framed.PushFrame(CategoryJson(a.knownCategory));
        framed.PushFrame(a.declaredConsequence);
        framed.PushFrame(FlagText(a.requiresOneConfirmation));
    }
  }

  method PushHeader(framed: FrameBuffer, signer: Signer, proof: Proof)
    requires framed.Valid() && framed.pieces == [] && Fits(proof)
    modifies framed
    ensures framed.Valid() && framed.pieces == HeaderPieces(signer, proof)
  {
    hide PiecesText, WordText, RoutesFit;
    framed.PushFrame(DOMAIN);
    framed.PushFrame(signer.keyId);
    framed.PushFrame(WordText(signer.keyGeneration));
    framed.PushFrame(signer.rootIdentity);
    framed.PushFrame(signer.installationIdentity);
    framed.PushFrame(signer.osUserIdentityDigest);
    framed.PushFrame(WordText(signer.rootGeneration));
    framed.PushFrame(proof.manifestDigest);
    framed.PushFrame(WordText(|proof.routes|));
  }

  // danger_admission_signing_bytes
  method DangerAdmissionSigningBytes(trim: string -> string, signer: Signer, proof: Proof)
    returns (r: Option<string>)
    requires Fits(proof)
    ensures r == SigningBytes(trim, signer, proof)
  {
    hide PiecesText, HeaderPieces, RoutePieces;
    if trim(signer.keyId) == "" || signer.keyGeneration == 0 || trim(signer.rootIdentity) == ""
      || trim(signer.installationIdentity) == "" || trim(signer.osUserIdentityDigest) == ""
      || signer.rootGeneration == 0 || |proof.manifestDigest| != 64
    {
      return None;
    }
    var framed := new FrameBuffer();
    PushHeader(framed, signer, proof);
    var i := 0;
    while i < |proof.routes|
      invariant 0 <= i <= |proof.routes|
      invariant framed.Valid()
      invariant framed.pieces == HeaderPieces(signer, proof) + RoutesPieces(proof.routes[..i])
    {
      PushRoute(framed, proof.routes[i]);
      assert proof.routes[..i + 1][..i] == proof.routes[..i];
      i := i + 1;
    }
    assert proof.routes[..|proof.routes|] == proof.routes;
    return Some(framed.bytes);
  }

  // ---------------------------------------------------------------- injectivity

  lemma SourceJsonIsInjective(a: Source, b: Source)
    requires SourceJson(a) == SourceJson(b)
    ensures a == b
  {
    assert |SourceJson(KnownCategory)| != |SourceJson(ModelCredibleDanger)|;
  }

  lemma CategoryJsonIsInjective(a: Option<Category>, b: Option<Category>)
    requires CategoryJson(a) == CategoryJson(b)
    ensures a == b
  {
    hide CategoryName;
    assert a.Some? ==> CategoryJson(a)[1] == CategoryName(a.value)[0];
    assert b.Some? ==> CategoryJson(b)[1] == CategoryName(b.value)[0];
  }

  lemma RoutePiecesAreFrames(route: Route)
    requires RouteFits(route)
    ensures AllFrames(RoutePieces(route)) && |RoutePieces(route)| >= 2
    ensures RoutePieces(route)[0] == Frame(route.leafDigest)
    ensures route.kind.Ordinary? ==> |RoutePieces(route)| == 2
    ensures route.kind.RequiresOneConfirmation? ==>
      |RoutePieces(route)| == 6 && RoutePieces(route)[2..] == AssessmentPieces(route.kind.assessment)
    ensures |RoutePieces(route)[1].bytes| == if route.kind.Ordinary? then 8 else 25
  {
    hide SourceJson, CategoryJson, FlagText;
  }

  lemma AssessmentPiecesAreInjective(a: Assessment, b: Assessment)
    requires |a.declaredConsequence| < WORD_LIMIT && |b.declaredConsequence| < WORD_LIMIT
    requires AssessmentPieces(a) == AssessmentPieces(b)
    ensures a == b
  {
    hide SourceJson, CategoryJson;
    assert AssessmentPieces(a)[0] == AssessmentPieces(b)[0] && AssessmentPieces(a)[1] == AssessmentPieces(b)[1];
    assert AssessmentPieces(a)[2] == AssessmentPieces(b)[2] && AssessmentPieces(a)[3] == AssessmentPieces(b)[3];
    SourceJsonIsInjective(a.source, b.source);
    CategoryJsonIsInjective(a.knownCategory, b.knownCategory);
    assert FlagText(true)[0] == 1 as char && FlagText(false)[0] == 0 as char;
  }

  // An ordinary route pushes two frames and a confirmation six, and no list of one kind can be
  // mistaken for a list of the other.
  lemma RouteIsSelfDelimiting(a: Route, u: seq<Piece>, b: Route, v: seq<Piece>)
    requires RouteFits(a) && RouteFits(b)
    requires RoutePieces(a) + u == RoutePieces(b) + v
    ensures a == b && u == v
  {
    hide RoutePieces, AssessmentPieces;
    RoutePiecesAreFrames(a);
    RoutePiecesAreFrames(b);
    var s, t := RoutePieces(a) + u, RoutePieces(b) + v;
    assert s[0] == RoutePieces(a)[0] && t[0] == RoutePieces(b)[0];
    assert s[1] == RoutePieces(a)[1] && t[1] == RoutePieces(b)[1];
    var n := |RoutePieces(a)|;
    assert s[..n] == RoutePieces(a) && s[n..] == u && t[..n] == RoutePieces(b) && t[n..] == v;
    if a.kind.RequiresOneConfirmation? {
      AssessmentPiecesAreInjective(a.kind.assessment, b.kind.assessment);
    }
  }

  lemma {:induction false} RoutesPiecesOfCons(route: Route, rest: seq<Route>)
    requires RoutesFit([route] + rest)
    ensures RouteFits(route) && RoutesFit(rest)
    ensures RoutesPieces([route] + rest) == RoutePieces(route) + RoutesPieces(rest)
  {
    assert RouteFits(([route] + rest)[0]);
    assert forall i :: 0 <= i < |rest| ==> rest[i] == ([route] + rest)[i + 1];
    hide RoutePieces, RouteFits;
    if rest == [] {
      assert [route] + rest == [route] && [route][..0] == [];
      assert RoutesPieces([]) == [];
    } else {
      var front, last := rest[..|rest| - 1], rest[|rest| - 1];
      assert ([route] + rest)[..|rest|] == [route] + front;
      RoutesPiecesOfCons(route, front);
      AssociatePieces(RoutePieces(route), RoutesPieces(front), RoutePieces(last));
    }
  }

  lemma AssociatePieces(a: seq<Piece>, b: seq<Piece>, c: seq<Piece>)
    ensures a + b + c == a + (b + c)
  {
  }

  lemma {:induction false} RoutesPiecesAreInjective(a: seq<Route>, b: seq<Route>)
    requires RoutesFit(a) && RoutesFit(b) && |a| == |b|
    requires RoutesPieces(a) == RoutesPieces(b)
    ensures a == b
  {
    hide RoutePieces, RoutesPieces;
    if a != [] {
      assert a == [a[0]] + a[1..] && b == [b[0]] + b[1..];
      RoutesPiecesOfCons(a[0], a[1..]);
      RoutesPiecesOfCons(b[0], b[1..]);
      RouteIsSelfDelimiting(a[0], RoutesPieces(a[1..]), b[0], RoutesPieces(b[1..]));
      RoutesPiecesAreInjective(a[1..], b[1..]);
    }
  }

  lemma {:induction false} RoutesPiecesAreFrames(routes: seq<Route>)
    requires RoutesFit(routes)
    ensures AllFrames(RoutesPieces(routes))
  {
    hide RoutePieces;
    if routes != [] {
      RoutesPiecesAreFrames(routes[..|routes| - 1]);
      RoutePiecesAreFrames(routes[|routes| - 1]);
    }
  }

  lemma HeaderDetermines(a: Signer, p: Proof, b: Signer, q: Proof)
    requires Fits(p) && Fits(q)
    requires HeaderPieces(a, p) == HeaderPieces(b, q)
    ensures a == b && p.manifestDigest == q.manifestDigest && |p.routes| == |q.routes|
  {
    hide WordText, RoutesFit;
    var x, y := HeaderPieces(a, p), HeaderPieces(b, q);
    assert x[1] == y[1] && x[2] == y[2] && x[3] == y[3] && x[4] == y[4];
    assert x[5] == y[5] && x[6] == y[6] && x[7] == y[7] && x[8] == y[8];
    WordTextIsInjective(a.keyGeneration, b.keyGeneration);
    WordTextIsInjective(a.rootGeneration, b.rootGeneration);
    WordTextIsInjective(|p.routes|, |q.routes|);
  }

  // Equal signing bytes: the same signer, the same manifest and the same routes in the same order.
  lemma SigningBytesAreInjective(trim: string -> string, a: Signer, p: Proof, b: Signer, q: Proof)
    requires Fits(p) && Fits(q)
    requires SigningBytes(trim, a, p).Some? && SigningBytes(trim, a, p) == SigningBytes(trim, b, q)
    ensures a == b && p == q
  {
    hide HeaderPieces, RoutesPieces, RoutesFit, IsSignable;
    HeaderIsNineFrames(a, p);
    HeaderIsNineFrames(b, q);
    RoutesPiecesAreFrames(p.routes);
    RoutesPiecesAreFrames(q.routes);
    var s, t := HeaderPieces(a, p) + RoutesPieces(p.routes), HeaderPieces(b, q) + RoutesPieces(q.routes);
    FrameListIsInjective(s, t);
    assert s[..9] == HeaderPieces(a, p) && t[..9] == HeaderPieces(b, q);
    assert s[9..] == RoutesPieces(p.routes) && t[9..] == RoutesPieces(q.routes);
    HeaderDetermines(a, p, b, q);
    RoutesPiecesAreInjective(p.routes, q.routes);
  }

  // A field that is blank, a generation that is zero or a digest of another length is refused, and
  // nothing else; what is signed begins with the frame of the domain.
  lemma SigningExactly(trim: string -> string, signer: Signer, proof: Proof)
    requires Fits(proof)
    ensures SigningBytes(trim, signer, proof) == None <==>
      || "" in [trim(signer.keyId), trim(signer.rootIdentity), trim(signer.installationIdentity),
                trim(signer.osUserIdentityDigest)]
      || 0 in [signer.keyGeneration, signer.rootGeneration]
      || |proof.manifestDigest| != 64
    ensures SigningBytes(trim, signer, proof).Some? ==>
      FrameText("carsinos.execass.danger_admission.v1") <= SigningBytes(trim, signer, proof).value
  {
    hide WordText, RoutesFit, PiecesText, RoutesPieces;
    var pieces := HeaderPieces(signer, proof) + RoutesPieces(proof.routes);
    assert pieces == [Frame(DOMAIN)] + pieces[1..];
    PiecesTextOfCons(Frame(DOMAIN), pieces[1..]);
    hide HeaderPieces;
  }

  lemma HeaderIsNineFrames(signer: Signer, proof: Proof)
    requires Fits(proof)
    ensures |HeaderPieces(signer, proof)| == 9 && AllFrames(HeaderPieces(signer, proof))
  {
    hide WordText, RoutesFit;
  }
}
