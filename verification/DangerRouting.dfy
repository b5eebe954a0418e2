// Danger routes: one route for every frozen leaf, from verified facts or from a model signal, and
// the admission proof that binds the routes to a manifest.
module DangerRouting {
  import opened Wrappers
  import opened Ordering
  import opened Json
  import opened CanonicalValue
  import opened Manifest
  import opened ManifestRestore

  datatype Category = WholeDrive | UserProfile | ProtectedSystem | ExternalAccount | LastRecoveryPath

  datatype Fact = Fact(category: Category, resolvedTarget: string)

  datatype Source = KnownCategory | ModelCredibleDanger

  datatype Assessment = Assessment(
    source: Source,
    knownCategory: Option<Category>,
    declaredConsequence: string,
    requiresOneConfirmation: bool)

  datatype RouteKind = Ordinary | RequiresOneConfirmation(assessment: Assessment)

  datatype Route = Route(leafDigest: string, kind: RouteKind)

  datatype Metadata = Metadata(leafDigest: string, facts: seq<Fact>)

  datatype ModelSignal = ModelSignal(leafDigest: string, resolvedTarget: string, materialResult: string)

  datatype Proof = Proof(manifestDigest: string, routes: seq<Route>)

  datatype RoutingError = MetadataLeafMismatch | ModelSignalLeafMismatch | ModelSignalTargetMismatch

  datatype ProofError = InvalidSigningField | LeafCountMismatch | LeafRouteMismatch | ManifestMismatch

  datatype Result<T, E> = Ok(value: T) | Err(error: E)

  function Rank(category: Category): nat {
    match category
    case WholeDrive => 0
    case UserProfile => 1
    case ProtectedSystem => 2
    case ExternalAccount => 3
    case LastRecoveryPath => 4
  }

  function Consequence(fact: Fact): string {
    var target := "`" + fact.resolvedTarget + "`";
    match fact.category
    case WholeDrive =>
      "This will erase or make unusable the entire drive, volume, boot/recovery environment, or core operating-system target "
      + target + ", including the operating system and data it contains."
    case UserProfile =>
      "This will erase or make unusable the entire operating-system user profile or home "
      + target + ", including all data stored in it."
    case ProtectedSystem =>
      "This will erase, corrupt, or disable the complete CarsinOS protected state "
      + target + ", including the integrity, runtime-enforcement, stop/fencing, or recovery information required to recover it."
    case ExternalAccount =>
      "This will erase or close the entire connected external account or tenant "
      + target + " and make all resources owned only by it unavailable."
    case LastRecoveryPath =>
      "This will destroy the last verified administrative, recovery, or decryption path "
      + target + " for owner data that is otherwise unrecoverable."
  }

  // ---------------------------------------------------------------- lists without repetition

  // Vec::dedup: drops an element that repeats its neighbour.
  function Dedup(xs: seq<string>): seq<string> {
    if |xs| < 2 then xs
    else if xs[0] == xs[1] then Dedup(xs[1..])
    else [xs[0]] + Dedup(xs[1..])
  }

  function JoinWith(separator: string, xs: seq<string>): string {
    if xs == [] then "" else if |xs| == 1 then xs[0] else xs[0] + separator + JoinWith(separator, xs[1..])
  }

  ghost predicate StrictlySorted(xs: seq<string>) {
    Sorted(LexLe, xs) && Distinct(xs)
  }

  lemma StrictStep(a: string, b: string, c: string)
    requires LexLe(a, b) && a != b && LexLe(b, c)
    ensures LexLe(a, c) && a != c
  {
    LexTransitive(a, b, c);
    LexTotal(a, b);
  }

  lemma FirstIsLeastText(xs: seq<string>, x: string)
    requires Sorted(LexLe, xs) && x in xs
    ensures LexLe(xs[0], x)
  {
    var i :| 0 <= i < |xs| && xs[i] == x;
    LexTotal(x, x);
    if i > 0 {
      assert LexLe(xs[0], xs[i]);
    }
  }

  lemma SameEmptiness<T>(a: seq<T>, b: seq<T>)
    requires forall x :: x in a <==> x in b
    ensures a == [] <==> b == []
  {
    if a != [] {
      assert a[0] in b;
    }
    if b != [] {
      assert b[0] in a;
    }
  }

  lemma {:induction false} DedupOfSorted(xs: seq<string>)
    requires Sorted(LexLe, xs)
    ensures StrictlySorted(Dedup(xs))
    ensures forall x :: x in Dedup(xs) <==> x in xs
    ensures xs != [] ==> Dedup(xs) != [] && Dedup(xs)[0] == xs[0]
  {
    if |xs| >= 2 {
      var rest := Dedup(xs[1..]);
      assert forall i, j :: 0 <= i < j < |xs[1..]| ==> LexLe(xs[1..][i], xs[1..][j]);
      DedupOfSorted(xs[1..]);
      assert xs == [xs[0]] + xs[1..];
      assert forall x :: x in xs <==> x == xs[0] || x in xs[1..];
      if xs[0] != xs[1] {
        forall i | 0 <= i < |rest| ensures LexLe(xs[0], rest[i]) && xs[0] != rest[i] {
          FirstIsLeastText(rest, rest[i]);
          StrictStep(xs[0], xs[1], rest[i]);
        }
        assert Dedup(xs) == [xs[0]] + rest;
      }
    }
  }

  // A set of texts has one strictly sorted listing.
  lemma {:induction false} StrictlySortedIsUnique(a: seq<string>, b: seq<string>)
    requires StrictlySorted(a) && StrictlySorted(b)
    requires forall x :: x in a <==> x in b
    ensures a == b
  {
    SameEmptiness(a, b);
    if a != [] {
      assert a[0] in b && b[0] in a;
      FirstIsLeastText(a, b[0]);
      FirstIsLeastText(b, a[0]);
      LexTotal(a[0], b[0]);
      TailElements(a);
      TailElements(b);
      StrictlySortedIsUnique(a[1..], b[1..]);
      assert a == [a[0]] + a[1..] && b == [b[0]] + b[1..];
    }
  }

  lemma TailElements(a: seq<string>)
    requires StrictlySorted(a) && a != []
    ensures StrictlySorted(a[1..])
    ensures forall x :: x in a[1..] <==> x in a && x != a[0]
  {
    assert a == [a[0]] + a[1..];
    assert forall i :: 0 < i < |a| ==> a[i] == a[1..][i - 1];
  }

  // ---------------------------------------------------------------- matching verified facts

  // The first fact of the lowest rank.
  function Primary(facts: seq<Fact>): Fact
    requires facts != []
  {
    if |facts| == 1 then facts[0]
    else
      var rest := Primary(facts[1..]);
      if Rank(facts[0].category) <= Rank(rest.category) then facts[0] else rest
  }

  lemma {:induction false} PrimaryIsLowest(facts: seq<Fact>)
    requires facts != []
    ensures Primary(facts) in facts
    ensures forall f :: f in facts ==> Rank(Primary(facts).category) <= Rank(f.category)
  {
    if |facts| > 1 {
      PrimaryIsLowest(facts[1..]);
      assert facts == [facts[0]] + facts[1..];
    }
  }

  function FactAssessment(facts: seq<Fact>): Assessment
    requires facts != []
  {
    Assessment(KnownCategory, Some(Primary(facts).category),
               JoinWith(" ", Dedup(Sort(LexLe, Map(Consequence, facts)))), true)
  }

  function MatchFacts(leafDigest: string, metadata: Metadata): Result<Route, RoutingError> {
    if metadata.leafDigest != leafDigest then Err(MetadataLeafMismatch)
    else if metadata.facts == [] then Ok(Route(leafDigest, Ordinary))
    else Ok(Route(leafDigest, RequiresOneConfirmation(FactAssessment(metadata.facts))))
  }

  // match_known_danger
  method MatchKnownDanger(leaf: LeafAction, metadata: Metadata) returns (r: Result<Route, RoutingError>)
    ensures r == MatchFacts(leaf.canonical.digest, metadata)
  {
    var facts := metadata.facts;
    if metadata.leafDigest != leaf.canonical.digest {
      return Err(MetadataLeafMismatch);
    }
    if facts == [] {
      return Ok(Route(leaf.canonical.digest, Ordinary));
    }
    var primary := facts[|facts| - 1];
    var i := |facts| - 1;
    assert facts[i..] == [primary];
    while i > 0
      invariant 0 <= i < |facts|
      invariant primary == Primary(facts[i..])
    {
      i := i - 1;
      assert facts[i..][1..] == facts[i + 1..] && facts[i..][0] == facts[i];
      if Rank(facts[i].category) <= Rank(primary.category) {
        primary := facts[i];
      }
    }
    assert facts[0..] == facts;
    var consequences := Map(Consequence, facts);
    consequences := Sort(LexLe, consequences);
    consequences := Dedup(consequences);
    return Ok(Route(leaf.canonical.digest, RequiresOneConfirmation(
      Assessment(KnownCategory, Some(primary.category), JoinWith(" ", consequences), true))));
  }

  lemma ConsequencesOf(facts: seq<Fact>)
    ensures StrictlySorted(Dedup(Sort(LexLe, Map(Consequence, facts))))
    ensures forall x :: x in Dedup(Sort(LexLe, Map(Consequence, facts))) <==>
      exists f :: f in facts && Consequence(f) == x
  {
    var all := Map(Consequence, facts);
    LexIsTotalOrder();
    SortSorts(LexLe, all);
    SortPermutes(LexLe, all);
    DedupOfSorted(Sort(LexLe, all));
    forall x ensures x in Sort(LexLe, all) <==> exists f :: f in facts && Consequence(f) == x {
      SameElements(Sort(LexLe, all), all, x);
      if x in all {
        var i :| 0 <= i < |all| && all[i] == x;
        assert facts[i] in facts && Consequence(facts[i]) == x;
      }
      if f :| f in facts && Consequence(f) == x {
        var i :| 0 <= i < |facts| && facts[i] == f;
        assert all[i] == x;
      }
    }
  }

  predicate IsMostSevere(f: Fact, facts: seq<Fact>) {
    f in facts && forall g :: g in facts ==> Rank(f.category) <= Rank(g.category)
  }

  // One consequence for every verified fact, none missing and none twice.
  lemma FactsGiveOneConfirmation(leafDigest: string, facts: seq<Fact>)
    ensures MatchFacts(leafDigest, Metadata(leafDigest, facts)).Ok?
    ensures facts == [] <==> MatchFacts(leafDigest, Metadata(leafDigest, facts)).value.kind == Ordinary
    ensures facts != [] ==> exists texts ::
      && StrictlySorted(texts)
      && (forall x :: x in texts <==> exists f :: f in facts && Consequence(f) == x)
      && FactAssessment(facts).declaredConsequence == JoinWith(" ", texts)
    ensures facts != [] ==> exists f :: IsMostSevere(f, facts) && FactAssessment(facts).knownCategory == Some(f.category)
  {
    if facts != [] {
      ConsequencesOf(facts);
      PrimaryIsLowest(facts);
      assert IsMostSevere(Primary(facts), facts);
    }
  }

  lemma RankIsInjective(a: Category, b: Category)
    requires Rank(a) == Rank(b)
    ensures a == b
  {
  }

  // Only the set of facts matters: not their order, not their repetition.
  lemma MatchDependsOnFactSet(leafDigest: string, boundTo: string, facts: seq<Fact>, others: seq<Fact>)
    requires forall f :: f in facts <==> f in others
    ensures MatchFacts(leafDigest, Metadata(boundTo, facts)) == MatchFacts(leafDigest, Metadata(boundTo, others))
  {
    hide Consequence;
    SameEmptiness(facts, others);
    if facts != [] {
      PrimaryIsLowest(facts);
      PrimaryIsLowest(others);
      RankIsInjective(Primary(facts).category, Primary(others).category);
      ConsequencesOf(facts);
      ConsequencesOf(others);
      StrictlySortedIsUnique(Dedup(Sort(LexLe, Map(Consequence, facts))), Dedup(Sort(LexLe, Map(Consequence, others))));
    }
  }

  // ---------------------------------------------------------------- what an assessment says

  // Categories from the gravest: drive, profile, protected system, account, recovery path.
  predicate Precedes(a: Category, b: Category) {
    match a
    case WholeDrive => b != WholeDrive
    case UserProfile => b == ProtectedSystem || b == ExternalAccount || b == LastRecoveryPath
    case ProtectedSystem => b == ExternalAccount || b == LastRecoveryPath
    case ExternalAccount => b == LastRecoveryPath
    case LastRecoveryPath => false
  }

  function SaidBefore(category: Category): string {
    match category
    case WholeDrive =>
      "This will erase or make unusable the entire drive, volume, boot/recovery environment, or core operating-system target "
    case UserProfile => "This will erase or make unusable the entire operating-system user profile or home "
    case ProtectedSystem => "This will erase, corrupt, or disable the complete CarsinOS protected state "
    case ExternalAccount => "This will erase or close the entire connected external account or tenant "
    case LastRecoveryPath => "This will destroy the last verified administrative, recovery, or decryption path "
  }

  function SaidAfter(category: Category): string {
    match category
    case WholeDrive => ", including the operating system and data it contains."
    case UserProfile => ", including all data stored in it."
    case ProtectedSystem =>
      ", including the integrity, runtime-enforcement, stop/fencing, or recovery information required to recover it."
    case ExternalAccount => " and make all resources owned only by it unavailable."
    case LastRecoveryPath => " for owner data that is otherwise unrecoverable."
  }

  // The target, in backquotes, stands in its category's sentence.
  predicate IsSaidOf(text: string, fact: Fact) {
    text == SaidBefore(fact.category) + "`" + fact.resolvedTarget + "`" + SaidAfter(fact.category)
  }

  lemma ConsequenceExactly(fact: Fact)
    ensures forall text :: IsSaidOf(text, fact) <==> text == Consequence(fact)
  {
    Quoted(SaidBefore(fact.category), fact.resolvedTarget, SaidAfter(fact.category));
    assert Consequence(fact)
      == SaidBefore(fact.category) + ("`" + fact.resolvedTarget + "`") + SaidAfter(fact.category);
  }

  lemma Quoted(before: string, target: string, after: string)
    ensures before + "`" + target + "`" + after == before + ("`" + target + "`") + after
  {
  }

  // Joining puts the separator between each two, and nowhere else.
  lemma {:induction false} JoinExactly(separator: string, a: seq<string>, b: seq<string>)
    requires a != [] && b != []
    ensures JoinWith(separator, a + b) == JoinWith(separator, a) + separator + JoinWith(separator, b)
    ensures |a| == 1 ==> JoinWith(separator, a) == a[0]
  {
    if |a| == 1 {
      assert (a + b)[1..] == b;
    } else {
      JoinExactly(separator, a[1..], b);
      assert (a + b)[1..] == a[1..] + b;
    }
  }

  ghost predicate SaysEach(texts: seq<string>, facts: seq<Fact>) {
    StrictlySorted(texts) && forall x :: x in texts <==> exists f :: f in facts && IsSaidOf(x, f)
  }

  ghost predicate IsKnownAssessment(a: Assessment, facts: seq<Fact>) {
    && a.source == KnownCategory && a.requiresOneConfirmation
    && a.knownCategory.Some?
    && (exists f :: f in facts && f.category == a.knownCategory.value)
    && (forall f :: f in facts ==> !Precedes(f.category, a.knownCategory.value))
    && exists texts :: SaysEach(texts, facts) && a.declaredConsequence == JoinWith(" ", texts)
  }

  // What a match gives: a refusal for the metadata of another leaf, the ordinary route without facts,
  // and otherwise one confirmation of the gravest category with every consequence once.
  ghost predicate IsMatchOf(leafDigest: string, metadata: Metadata, r: Result<Route, RoutingError>) {
    if metadata.leafDigest != leafDigest then r == Err(MetadataLeafMismatch)
    else if metadata.facts == [] then r == Ok(Route(leafDigest, Ordinary))
    else
      && r.Ok? && r.value.leafDigest == leafDigest && r.value.kind.RequiresOneConfirmation?
      && IsKnownAssessment(r.value.kind.assessment, metadata.facts)
  }

  lemma PrecedesByRank(a: Category, b: Category)
    ensures Precedes(a, b) <==> Rank(a) < Rank(b)
  {
  }

  lemma SaidTexts(facts: seq<Fact>)
    ensures SaysEach(Dedup(Sort(LexLe, Map(Consequence, facts))), facts)
  {
    hide Consequence, IsSaidOf;
    ConsequencesOf(facts);
    forall f ensures forall x :: IsSaidOf(x, f) <==> x == Consequence(f) {
      ConsequenceExactly(f);
    }
  }

  lemma MatchExactly(leafDigest: string, metadata: Metadata, r: Result<Route, RoutingError>)
    ensures IsMatchOf(leafDigest, metadata, r) <==> r == MatchFacts(leafDigest, metadata)
  {
    hide Consequence, IsSaidOf, Precedes, Rank, Sort, Dedup, JoinWith;
    var facts := metadata.facts;
    if facts != [] && metadata.leafDigest == leafDigest {
      var made := FactAssessment(facts);
      SaidTexts(facts);
      PrimaryIsLowest(facts);
      forall f | f in facts ensures !Precedes(f.category, Primary(facts).category) {
        PrecedesByRank(f.category, Primary(facts).category);
      }
      assert IsKnownAssessment(made, facts);
      if IsMatchOf(leafDigest, metadata, r) {
        SameAssessment(r.value.kind.assessment, made, facts);
      }
    }
  }

  lemma SameAssessment(a: Assessment, b: Assessment, facts: seq<Fact>)
    requires IsKnownAssessment(a, facts) && IsKnownAssessment(b, facts)
    ensures a == b
  {
    hide IsSaidOf, JoinWith, Rank;
    var f :| f in facts && f.category == a.knownCategory.value;
    var g :| g in facts && g.category == b.knownCategory.value;
    assert !Precedes(f.category, g.category) && !Precedes(g.category, f.category);
    var texts :| SaysEach(texts, facts) && a.declaredConsequence == JoinWith(" ", texts);
    var others :| SaysEach(others, facts) && b.declaredConsequence == JoinWith(" ", others);
    StrictlySortedIsUnique(texts, others);
  }

  // ---------------------------------------------------------------- the model signal

  // The snapshot names one target, and it is this one.
  predicate IsExactTarget(leaf: LeafAction, target: string) {
    match ParseDocument(leaf.targetSnapshot.bytes)
    case Some(Object(fields)) => Find(fields, "targets") == Some(Array([Text(target)]))
    case _ => false
  }

  // route_credible_model_danger
  function RouteModelDanger(leaf: LeafAction, current: Route, signal: Option<ModelSignal>): Result<Route, RoutingError> {
    if current.leafDigest != leaf.canonical.digest then Err(MetadataLeafMismatch)
    else if signal.None? then Ok(current)
    else if signal.value.leafDigest != leaf.canonical.digest then Err(ModelSignalLeafMismatch)
    else if !IsExactTarget(leaf, signal.value.resolvedTarget) then Err(ModelSignalTargetMismatch)
    else if current.kind.RequiresOneConfirmation? then Ok(current)
    else
      Ok(Route(leaf.canonical.digest, RequiresOneConfirmation(Assessment(
        ModelCredibleDanger,
        None,
        "This will " + signal.value.materialResult + " for the resolved target `" + signal.value.resolvedTarget + "`.",
        true))))
  }

  // A signal is heard for a snapshot of one text target when it names that target, and for no other
  // snapshot: not of several targets, and not of one that is not a text.
  lemma ExactTargetOfSnapshot(leaf: LeafAction, targets: seq<Value>, target: string)
    requires TargetsText(targets) == Some(leaf.targetSnapshot.bytes)
    ensures IsExactTarget(leaf, target) <==> targets == [Text(target)]
  {
    hide CanonicalText, Deserialize, IsCanonicalText, TargetsObject, Render, Nesting, Distinct;
    var texts := SortedTargets(targets);
    var values := Map(Reading, texts);
    TargetsTextOfReadings(texts);
    ReadingsNest(texts);
    SnapshotNesting(values);
    ParseDocumentRendered(Object([Field("targets", Array(values))]));
    TargetsField(values);
    if |targets| == 1 {
      OneReading(targets[0]);
      assert CanonicalTexts(targets).value == [CanonicalText(targets[0]).value];
      assert texts == [CanonicalText(targets[0]).value];
      assert values == [Canon(targets[0])];
      assert targets == [targets[0]];
    }
  }

  lemma TargetsField(values: seq<Value>)
    ensures Find([Field("targets", Array(values))], "targets") == Some(Array(values))
  {
  }

  // The printed targets in their order.
  lemma SortedTargets(targets: seq<Value>) returns (texts: seq<string>)
    requires TargetsText(targets).Some?
    ensures CanonicalTexts(targets).Some? && texts == Sort(LexLe, CanonicalTexts(targets).value)
    ensures |texts| == |targets| && IsTargetList(texts)
    ensures TargetsText(targets) == Some(TargetsObject(texts))
    ensures |targets| == 1 ==> texts == CanonicalTexts(targets).value
  {
    hide CanonicalText, Deserialize, Render;
    var printed := CanonicalTexts(targets).value;
    texts := Sort(LexLe, printed);
    LexIsTotalOrder();
    SortSorts(LexLe, printed);
    SortPermutes(LexLe, printed);
    assert |multiset(texts)| == |texts| && |multiset(printed)| == |printed|;
    forall i | 0 <= i < |texts| ensures IsCanonicalText(texts[i]) {
      SameElements(texts, printed, texts[i]);
      var j :| 0 <= j < |printed| && printed[j] == texts[i];
      CanonicalTextIsCanonical(targets[j], printed[j]);
    }
    if |targets| == 1 {
      assert printed[1..] == [] && printed == [printed[0]];
    }
  }

  lemma ReadingsNest(texts: seq<string>)
    requires IsTargetList(texts)
    ensures forall i :: 0 <= i < |texts| ==> Nesting(Map(Reading, texts)[i]) <= MAX_CANONICAL_VALUE_DEPTH + 1
  {
    hide Nesting, Render, Deserialize, TargetsObject;
    forall i | 0 <= i < |texts| ensures Nesting(Map(Reading, texts)[i]) <= MAX_CANONICAL_VALUE_DEPTH + 1 {
      CanonicalTextReading(texts[i]);
    }
  }

  lemma SnapshotNesting(values: seq<Value>)
    requires forall i :: 0 <= i < |values| ==> Nesting(values[i]) <= MAX_CANONICAL_VALUE_DEPTH + 1
    ensures Nesting(Object([Field("targets", Array(values))])) < PARSER_NESTING
  {
    ItemsNestingBound(values, MAX_CANONICAL_VALUE_DEPTH + 1);
    FieldsNestingBound([Field("targets", Array(values))], MAX_CANONICAL_VALUE_DEPTH + 2);
  }

  lemma OneReading(v: Value)
    requires CanonicalText(v).Some?
    ensures Reading(CanonicalText(v).value) == Canon(v)
    ensures forall t: string :: Canon(v) == Text(t) <==> v == Text(t)
  {
    hide Render, Deserialize;
    CanonicalTextIsCanonical(v, CanonicalText(v).value);
  }

  // What a signal gives on a leaf whose snapshot is of these targets, said case by case.
  lemma SignalExactly(leaf: LeafAction, targets: seq<Value>, current: Route, signal: ModelSignal)
    requires TargetsText(targets) == Some(leaf.targetSnapshot.bytes)
    ensures var r := RouteModelDanger(leaf, current, Some(signal));
      var digest := leaf.canonical.digest;
      && (r == Err(MetadataLeafMismatch) <==> current.leafDigest != digest)
      && (r == Err(ModelSignalLeafMismatch) <==> current.leafDigest == digest && signal.leafDigest != digest)
      && (r == Err(ModelSignalTargetMismatch) <==>
            current.leafDigest == digest && signal.leafDigest == digest && targets != [Text(signal.resolvedTarget)])
      && (r.Ok? <==>
            current.leafDigest == digest && signal.leafDigest == digest && targets == [Text(signal.resolvedTarget)])
      && (r.Ok? && current.kind.RequiresOneConfirmation? ==> r == Ok(current))
      && (r.Ok? && current.kind == Ordinary ==>
            r.value.leafDigest == digest && IsModelAssessment(r.value.kind, signal))
    ensures RouteModelDanger(leaf, current, None) ==
      if current.leafDigest == leaf.canonical.digest then Ok(current) else Err(MetadataLeafMismatch)
  {
    ExactTargetOfSnapshot(leaf, targets, signal.resolvedTarget);
    hide IsExactTarget, TargetsText;
  }

  // A confirmation on the word of a model: no category, and a sentence with its result and target.
  predicate IsModelAssessment(kind: RouteKind, signal: ModelSignal) {
    && kind.RequiresOneConfirmation?
    && kind.assessment.source == ModelCredibleDanger
    && kind.assessment.knownCategory == None
    && kind.assessment.requiresOneConfirmation
    && kind.assessment.declaredConsequence
       == "This will " + signal.materialResult + " for the resolved target `" + signal.resolvedTarget + "`."
  }

  // Any number of signals: a confirmation, once there, is never lowered, replaced or doubled.
  function RouteSignals(leaf: LeafAction, current: Route, signals: seq<ModelSignal>): Result<Route, RoutingError>
    decreases |signals|
  {
    if signals == [] then Ok(current)
    else
      match RouteModelDanger(leaf, current, Some(signals[0]))
      case Ok(next) => RouteSignals(leaf, next, signals[1..])
      case Err(e) => Err(e)
  }

  lemma {:induction false} SignalsKeepConfirmation(leaf: LeafAction, current: Route, signals: seq<ModelSignal>)
    requires RouteSignals(leaf, current, signals).Ok?
    ensures current.kind.RequiresOneConfirmation? ==> RouteSignals(leaf, current, signals).value == current
    ensures signals != [] ==>
      && RouteSignals(leaf, current, signals).value.kind.RequiresOneConfirmation?
      && RouteSignals(leaf, current, signals) == RouteModelDanger(leaf, current, Some(signals[0]))
    ensures RouteSignals(leaf, current, signals).value.leafDigest == current.leafDigest
    decreases |signals|
  {
    if signals != [] {
      SignalsKeepConfirmation(leaf, RouteModelDanger(leaf, current, Some(signals[0])).value, signals[1..]);
    }
  }

  // ---------------------------------------------------------------- the admission proof

  predicate RoutesMatch(leaves: seq<LeafAction>, routes: seq<Route>) {
    |leaves| == |routes| && forall i :: 0 <= i < |leaves| ==> routes[i].leafDigest == leaves[i].canonical.digest
  }

  function ManifestDigest(env: Env, leaves: seq<LeafAction>): string {
    env.sha256(ManifestText(leaves))
  }

  // bind_danger_admission
  function Bind(env: Env, leaves: seq<LeafAction>, routes: seq<Route>): Result<Proof, ProofError> {
    if |leaves| != |routes| then Err(LeafCountMismatch)
    else if !RoutesMatch(leaves, routes) then Err(LeafRouteMismatch)
    else Ok(Proof(ManifestDigest(env, leaves), routes))
  }

  datatype AdmissionState = OrdinaryAdmission | ConfirmationAdmission

  // validate_for_manifest
  function Validate(env: Env, proof: Proof, leaves: seq<LeafAction>): Result<AdmissionState, ProofError> {
    if proof.manifestDigest != ManifestDigest(env, leaves) then Err(ManifestMismatch)
    else if |proof.routes| != |leaves| then Err(LeafCountMismatch)
    else if !RoutesMatch(leaves, proof.routes) then Err(LeafRouteMismatch)
    else if exists i :: 0 <= i < |proof.routes| && proof.routes[i].kind.RequiresOneConfirmation?
    then Ok(ConfirmationAdmission)
    else Ok(OrdinaryAdmission)
  }

  ghost predicate IsOneForEach(leaves: seq<LeafAction>, routes: seq<Route>) {
    LeafDigests(leaves) == Map((route: Route) => route.leafDigest, routes)
  }

  ghost predicate AsksOnce(routes: seq<Route>) {
    exists route :: route in routes && route.kind != Ordinary
  }

  // A proof is bound exactly when the routes are those of the leaves, one each and in their order, and
  // holds the digest of the printed manifest and the routes as given. Each refusal has its own cause.
  lemma BindExactly(env: Env, leaves: seq<LeafAction>, routes: seq<Route>)
    ensures var r := Bind(env, leaves, routes);
      && (r == Err(LeafCountMismatch) <==> |leaves| != |routes|)
      && (r == Err(LeafRouteMismatch) <==> |leaves| == |routes| && !IsOneForEach(leaves, routes))
      && (r.Ok? <==> IsOneForEach(leaves, routes))
      && (r.Ok? ==> r.value.routes == routes && r.value.manifestDigest == env.sha256(ManifestText(leaves)))
  {
    hide ManifestText;
    RoutesMatchExactly(leaves, routes);
  }

  lemma RoutesMatchExactly(leaves: seq<LeafAction>, routes: seq<Route>)
    ensures RoutesMatch(leaves, routes) <==> IsOneForEach(leaves, routes)
  {
    var a, b := LeafDigests(leaves), Map((route: Route) => route.leafDigest, routes);
    assert |a| == |leaves| && |b| == |routes|;
    assert forall i :: 0 <= i < |leaves| ==> a[i] == leaves[i].canonical.digest;
    assert forall i :: 0 <= i < |routes| ==> b[i] == routes[i].leafDigest;
    if RoutesMatch(leaves, routes) {
      assert a == b;
    }
  }

  // A proof is validated for a manifest of its digest whose leaves its routes fit.
  lemma ValidateExactly(env: Env, proof: Proof, leaves: seq<LeafAction>)
    ensures var r := Validate(env, proof, leaves);
      var fits := proof.manifestDigest == env.sha256(ManifestText(leaves));
      && (r == Err(ManifestMismatch) <==> !fits)
      && (r == Err(LeafCountMismatch) <==> fits && |leaves| != |proof.routes|)
      && (r == Err(LeafRouteMismatch) <==> fits && |leaves| == |proof.routes| && !IsOneForEach(leaves, proof.routes))
      && (r == Ok(ConfirmationAdmission) <==> fits && IsOneForEach(leaves, proof.routes) && AsksOnce(proof.routes))
      && (r == Ok(OrdinaryAdmission) <==> fits && IsOneForEach(leaves, proof.routes) && !AsksOnce(proof.routes))
  {
    hide ManifestText;
    RoutesMatchExactly(leaves, proof.routes);
    hide IsOneForEach;
    var routes := proof.routes;
    assert AsksOnce(routes) <==> exists i :: 0 <= i < |routes| && routes[i].kind.RequiresOneConfirmation?;
  }

  // A bound proof needs a confirmation exactly when a route of some leaf does, and it validates for
  // those leaves only that print to the same manifest and have the same digests in the same order,
  // unless SHA-256 confuses the two manifests.
  lemma BoundProofFitsItsBytes(env: Env, leaves: seq<LeafAction>, routes: seq<Route>, others: seq<LeafAction>)
    requires ManifestDigest(env, leaves) == ManifestDigest(env, others) ==> ManifestText(leaves) == ManifestText(others)
    requires Bind(env, leaves, routes).Ok?
    ensures Validate(env, Bind(env, leaves, routes).value, others).Ok? <==>
      ManifestText(others) == ManifestText(leaves) && LeafDigests(others) == LeafDigests(leaves)
    ensures Validate(env, Bind(env, leaves, routes).value, leaves)
         == Ok(if exists i :: 0 <= i < |leaves| && routes[i].kind.RequiresOneConfirmation?
               then ConfirmationAdmission else OrdinaryAdmission)
  {
    hide ManifestText;
    var a, b := LeafDigests(leaves), LeafDigests(others);
    assert forall i :: 0 <= i < |leaves| ==> a[i] == routes[i].leafDigest;
    if Validate(env, Bind(env, leaves, routes).value, others).Ok? {
      assert forall i :: 0 <= i < |others| ==> b[i] == routes[i].leafDigest;
      assert a == b;
    }
    if a == b {
      forall i | 0 <= i < |others| && |others| == |routes| ensures routes[i].leafDigest == others[i].canonical.digest {
        assert b[i] == a[i];
      }
      assert |a| == |b|;
    }
  }

  function DigestOf(leaf: LeafAction): string {
    leaf.canonical.digest
  }

  function LeafDigests(leaves: seq<LeafAction>): seq<string> {
    Map(DigestOf, leaves)
  }

  // For leaves that a compiler or a rebind makes, with any printed scopes and of any size, these are
  // the same leaves: the proof fits one manifest.
  lemma BoundProofFitsOneManifest(env: Env, leaves: seq<LeafAction>, routes: seq<Route>, others: seq<LeafAction>)
    requires Printable(env, leaves) && Printable(env, others)
    requires ManifestDigest(env, leaves) == ManifestDigest(env, others) ==> ManifestText(leaves) == ManifestText(others)
    requires Bind(env, leaves, routes).Ok?
    ensures Validate(env, Bind(env, leaves, routes).value, others).Ok? <==> others == leaves
  {
    hide ManifestText, Printable, Bind, Validate;
    BoundProofFitsItsBytes(env, leaves, routes, others);
    if ManifestText(leaves) == ManifestText(others) {
      ManifestTextIsInjective(env, leaves, others);
    }
  }
}
