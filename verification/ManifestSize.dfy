// The byte cap of the restore parser against what the compiler can print.

module ManifestSize {
  import opened Wrappers
  import opened Ordering
  import opened Json
  import opened CanonicalValue
  import opened Manifest
  import opened ManifestRestore

  // ---------------------------------------------------------------- lengths of texts

  lemma {:induction false} EscapeLength(t: string)
    ensures |t| <= |Escape(t)| <= 6 * |t|
  {
    if t != "" { EscapeLength(t[1..]); }
  }

  function Pow10(k: nat): nat {
    if k == 0 then 1 else 10 * Pow10(k - 1)
  }

  lemma {:induction false} DigitsLength(n: nat, k: nat)
    requires k > 0 && n < Pow10(k)
    ensures |Digits(n)| <= k
  {
    if n >= 10 {
      assert k > 1;
      DigitsLength(n / 10, k - 1);
    }
  }

  lemma IntegerTextLength(n: I64)
    ensures |IntegerText(n)| <= 20
  {
    assert Pow10(5) == 100000;
    assert Pow10(10) == 10000000000;
    assert Pow10(15) == 1000000000000000;
    assert Pow10(19) == 10000000000000000000;
    DigitsLength(Magnitude(n), 19);
  }

  function TotalLength(texts: seq<string>): nat {
    if texts == [] then 0 else |texts[0]| + TotalLength(texts[1..])
  }

  lemma {:induction false} JoinLength(texts: seq<string>)
    ensures TotalLength(texts) <= |Join(texts)| <= TotalLength(texts) + |texts|
  {
    if texts != [] { JoinLength(texts[1..]); }
  }

  lemma {:induction false} TotalLengthBound(texts: seq<string>, each: nat)
    requires forall i :: 0 <= i < |texts| ==> |texts[i]| <= each
    ensures TotalLength(texts) <= |texts| * each
  {
    if texts != [] { TotalLengthBound(texts[1..], each); }
  }

  lemma {:induction false} TotalLengthReplace(texts: seq<string>, i: nat)
    requires i < |texts|
    ensures TotalLength(texts) == TotalLength(texts[i := ""]) + |texts[i]|
  {
    if i > 0 {
      TotalLengthReplace(texts[1..], i - 1);
      assert texts[i := ""][1..] == texts[1..][i - 1 := ""];
    } else {
      assert texts[0 := ""][1..] == texts[1..];
    }
  }

  lemma TotalLengthOfTwo(a: string, b: string)
    ensures TotalLength([a, b]) == |a| + |b|
  {
    assert [a, b][1..] == [b] && [b][1..] == [];
    assert TotalLength([b]) == |b| + TotalLength([]);
  }

  function Sum(bounds: seq<nat>): nat {
    if bounds == [] then 0 else bounds[0] + Sum(bounds[1..])
  }

  lemma SumOf(a: nat, b: nat, c: nat, d: nat, e: nat)
    ensures Sum([a, b]) == a + b
    ensures Sum([a, b, c]) == a + b + c
    ensures Sum([a, b, c, d]) == a + b + c + d
    ensures Sum([a, b, c, d, e]) == a + b + c + d + e
  {
    hide Sum;
    SumCons(a, [b]);
    SumCons(a, [b, c]);
    SumCons(b, [c]);
    SumCons(a, [b, c, d]);
    SumCons(b, [c, d]);
    SumCons(c, [d]);
    SumCons(a, [b, c, d, e]);
    SumCons(b, [c, d, e]);
    SumCons(c, [d, e]);
    SumCons(d, [e]);
    assert [a, b] == [a] + [b] && [a, b, c] == [a] + [b, c] && [b, c] == [b] + [c];
    assert [a, b, c, d] == [a] + [b, c, d] && [b, c, d] == [b] + [c, d] && [c, d] == [c] + [d];
    assert [a, b, c, d, e] == [a] + [b, c, d, e] && [b, c, d, e] == [b] + [c, d, e];
    assert [c, d, e] == [c] + [d, e] && [d, e] == [d] + [e];
  }

  lemma SumCons(a: nat, rest: seq<nat>)
    ensures Sum([a] + rest) == a + Sum(rest)
    ensures |rest| == 1 ==> Sum(rest) == rest[0]
  {
    assert ([a] + rest)[1..] == rest;
  }

  lemma {:induction false} TotalLengthBounds(texts: seq<string>, bounds: seq<nat>)
    requires |texts| == |bounds| && forall i :: 0 <= i < |texts| ==> |texts[i]| <= bounds[i]
    ensures TotalLength(texts) <= Sum(bounds)
  {
    if texts != [] { TotalLengthBounds(texts[1..], bounds[1..]); }
  }

  const NAME_BOUND := 32

  // A structure costs at most 200 bytes a field beyond the texts it holds.
  lemma {:induction false} StructTextLength(names: seq<string>, texts: seq<string>)
    requires |names| == |texts|
    requires forall i :: 0 <= i < |names| ==> |names[i]| <= NAME_BOUND
    ensures TotalLength(texts) <= |StructText(names, texts)| <= 2 + 200 * |names| + TotalLength(texts)
  {
    EntriesLength(names, texts);
  }

  lemma {:induction false} EntriesLength(names: seq<string>, texts: seq<string>)
    requires |names| == |texts|
    requires forall i :: 0 <= i < |names| ==> |names[i]| <= NAME_BOUND
    ensures TotalLength(texts) <= |RenderEntries(Entries(names, texts))| <= 200 * |names| + TotalLength(texts)
  {
    if names != [] {
      EntriesLength(names[1..], texts[1..]);
      EscapeLength(names[0]);
      assert Entries(names, texts)[1..] == Entries(names[1..], texts[1..]);
    }
  }

  const ID_TEXT := MAX_JSON_ESCAPED_IDENTIFIER_BYTES + 4

  lemma IdentifierTextLength(env: Env, s: string)
    requires NormalIdentifier(env, s) || NormalDigest(env, s)
    ensures |Render(Text(s))| <= ID_TEXT
  {
    EscapeLength(s);
  }

  lemma OptionalTextLength(env: Env, value: Option<string>)
    requires NormalOptional(env, value) || NormalOptionalDigest(env, value)
    ensures |Render(OptionalText(value))| <= ID_TEXT
  {
    if value.Some? { IdentifierTextLength(env, value.value); }
  }

  lemma OptionalIntegerLength(value: Option<I64>)
    ensures |Render(OptionalInteger(value))| <= ID_TEXT
  {
    if value.Some? { IntegerTextLength(value.value); }
  }

  // ---------------------------------------------------------------- resolution paths

  function CommandBytes(d: Descriptor): nat {
    match d
    case Shell(_, _, command) => |Escape(command)|
    case _ => 0
  }

  // The escaped bytes of all shell commands along a path.
  function PathCommandBytes(path: seq<Step>): nat {
    if path == [] then 0 else CommandBytes(path[0].descriptor) + PathCommandBytes(path[1..])
  }

  function TextOf(v: Value): string {
    Render(v)
  }

  lemma StructValueLength(names: seq<string>, values: seq<Value>)
    requires |names| == |values|
    requires forall i :: 0 <= i < |names| ==> |names[i]| <= NAME_BOUND
    ensures var total := TotalLength(Map(TextOf, values));
      total <= |Render(Struct(names, values))| <= 2 + 200 * |names| + total
  {
    hide Render, Struct, StructText;
    StructTextIsTree(names, Map(TextOf, values), values);
    StructTextLength(names, Map(TextOf, values));
  }

  // All values but the one at i print short.
  lemma StructValueBound(names: seq<string>, values: seq<Value>, each: nat, i: nat)
    requires |names| == |values| && i < |values|
    requires forall k :: 0 <= k < |names| ==> |names[k]| <= NAME_BOUND
    requires forall k :: 0 <= k < |values| && k != i ==> |Render(values[k])| <= each
    ensures |Render(values[i])| <= |Render(Struct(names, values))|
    ensures |Render(Struct(names, values))| <= 2 + (200 + each) * |names| + |Render(values[i])|
  {
    hide Render, Struct;
    var texts := Map(TextOf, values);
    StructValueLength(names, values);
    TotalLengthReplace(texts, i);
    TotalLengthBound(texts[i := ""], each);
  }

  lemma StructValueBounds(names: seq<string>, values: seq<Value>, bounds: seq<nat>)
    requires |names| == |values| == |bounds|
    requires forall k :: 0 <= k < |names| ==> |names[k]| <= NAME_BOUND
    requires forall k :: 0 <= k < |values| ==> |Render(values[k])| <= bounds[k]
    ensures |Render(Struct(names, values))| <= 2 + 200 * |names| + Sum(bounds)
    ensures forall k :: 0 <= k < |values| ==> |Render(values[k])| <= |Render(Struct(names, values))|
  {
    hide Render, Struct;
    var texts := Map(TextOf, values);
    StructValueLength(names, values);
    TotalLengthBounds(texts, bounds);
    forall k | 0 <= k < |values| ensures |Render(values[k])| <= |Render(Struct(names, values))| {
      TotalLengthReplace(texts, k);
    }
  }

  const SHORT_TEXT := 400

  lemma DescriptorLength(env: Env, d: Descriptor)
    requires NormalizedDescriptor(env, d) == Some(d)
    ensures CommandBytes(d) <= |Render(DescriptorValue(d))| <= DESCRIPTOR_OVERHEAD + CommandBytes(d)
  {
    hide DescriptorValue, Render;
    match d {
      case Alias(alias) => AliasLength(env, alias);
      case Plugin(id, version) => PluginLength(env, id, version);
      case Shell(id, version, command) => ShellLength(env, id, version, command);
      case Child(identity, version) => ChildLength(env, identity, version);
    }
  }

  lemma AliasLength(env: Env, alias: string)
    requires NormalIdentifier(env, alias)
    ensures |Render(DescriptorValue(Alias(alias)))| <= DESCRIPTOR_OVERHEAD
  {
    hide Render, Struct, Sum, NormalIdentifier;
    ShortText("alias");
    DescriptorNames();
    IdentifierTextLength(env, alias);
    SumOf(ID_TEXT, SHORT_TEXT, 0, 0, 0);
    StructValueBounds(DESCRIPTOR_ALIAS_FIELDS, [Text(alias), Text("alias")], [ID_TEXT, SHORT_TEXT]);
  }

  lemma PluginLength(env: Env, id: string, version: string)
    requires NormalIdentifier(env, id) && NormalIdentifier(env, version)
    ensures |Render(DescriptorValue(Plugin(id, version)))| <= DESCRIPTOR_OVERHEAD
  {
    hide Render, Struct, Sum, NormalIdentifier;
    ShortText("plugin");
    DescriptorNames();
    IdentifierTextLength(env, id);
    IdentifierTextLength(env, version);
    SumOf(SHORT_TEXT, ID_TEXT, ID_TEXT, 0, 0);
    StructValueBounds(DESCRIPTOR_PLUGIN_FIELDS, [Text("plugin"), Text(id), Text(version)],
                      [SHORT_TEXT, ID_TEXT, ID_TEXT]);
  }

  lemma ChildLength(env: Env, identity: string, version: string)
    requires NormalIdentifier(env, identity) && NormalIdentifier(env, version)
    ensures |Render(DescriptorValue(Child(identity, version)))| <= DESCRIPTOR_OVERHEAD
  {
    hide Render, Struct, Sum, NormalIdentifier;
    ShortText("child");
    DescriptorNames();
    IdentifierTextLength(env, identity);
    IdentifierTextLength(env, version);
    SumOf(ID_TEXT, SHORT_TEXT, ID_TEXT, 0, 0);
    StructValueBounds(DESCRIPTOR_CHILD_FIELDS, [Text(identity), Text("child"), Text(version)],
                      [ID_TEXT, SHORT_TEXT, ID_TEXT]);
  }

  lemma ShellLength(env: Env, id: string, version: string, command: string)
    requires NormalIdentifier(env, id) && NormalIdentifier(env, version)
    ensures |Escape(command)| <= |Render(DescriptorValue(Shell(id, version, command)))|
    ensures |Render(DescriptorValue(Shell(id, version, command)))| <= DESCRIPTOR_OVERHEAD + |Escape(command)|
  {
    hide Render, Struct, Sum, NormalIdentifier, Escape;
    var values := [Text(command), Text("shell"), Text(id), Text(version)];
    CommandTextLength(command);
    ShortText("shell");
    DescriptorNames();
    IdentifierTextLength(env, id);
    IdentifierTextLength(env, version);
    SumOf(|Escape(command)| + 2, SHORT_TEXT, ID_TEXT, ID_TEXT, 0);
    StructValueBounds(DESCRIPTOR_SHELL_FIELDS, values, [|Escape(command)| + 2, SHORT_TEXT, ID_TEXT, ID_TEXT]);
    assert values[0] == Text(command);
  }

  const DESCRIPTOR_OVERHEAD := 2 + 4 * 200 + 2 * ID_TEXT + SHORT_TEXT + 2

  lemma CommandTextLength(command: string)
    ensures |Render(Text(command))| == |Escape(command)| + 2
  {
  }

  lemma ShortText(s: string)
    requires |s| <= 64
    ensures |Render(Text(s))| <= SHORT_TEXT
  {
    EscapeLength(s);
  }

  lemma DescriptorNames()
    ensures forall i :: 0 <= i < |DESCRIPTOR_ALIAS_FIELDS| ==> |DESCRIPTOR_ALIAS_FIELDS[i]| <= NAME_BOUND
    ensures forall i :: 0 <= i < |DESCRIPTOR_PLUGIN_FIELDS| ==> |DESCRIPTOR_PLUGIN_FIELDS[i]| <= NAME_BOUND
    ensures forall i :: 0 <= i < |DESCRIPTOR_SHELL_FIELDS| ==> |DESCRIPTOR_SHELL_FIELDS[i]| <= NAME_BOUND
    ensures forall i :: 0 <= i < |DESCRIPTOR_CHILD_FIELDS| ==> |DESCRIPTOR_CHILD_FIELDS[i]| <= NAME_BOUND
  {
  }

  const STEP_OVERHEAD := 2 + 5 * 200 + DESCRIPTOR_OVERHEAD + SHORT_TEXT + 3 * ID_TEXT

  lemma StepLength(env: Env, step: Step)
    requires NormalStep(env, step)
    ensures CommandBytes(step.descriptor) <= |Render(StepValue(step))| <= STEP_OVERHEAD + CommandBytes(step.descriptor)
  {
    hide Render, Struct, DescriptorValue, NormalizedDescriptor, NormalIdentifier, NormalDigest, CommandBytes, Sum;
    var bounds := [DESCRIPTOR_OVERHEAD + CommandBytes(step.descriptor), SHORT_TEXT, ID_TEXT, ID_TEXT, ID_TEXT];
    DescriptorLength(env, step.descriptor);
    DigestTextLength(env, step.resolutionMaterialDigest);
    IdentifierTextLength(env, step.resolverId);
    IdentifierTextLength(env, step.resolverVersion);
    IdentifierTextLength(env, step.targetNodeId);
    StepFieldNames();
    SumOf(bounds[0], SHORT_TEXT, ID_TEXT, ID_TEXT, ID_TEXT);
    StructValueBounds(STEP_FIELDS, StepValues(step), bounds);
    assert StepValues(step)[0] == DescriptorValue(step.descriptor);
  }

  lemma DigestTextLength(env: Env, s: string)
    requires NormalDigest(env, s)
    ensures |Render(Text(s))| <= SHORT_TEXT
  {
    ShortText(s);
  }

  lemma StepFieldNames()
    ensures forall i :: 0 <= i < |STEP_FIELDS| ==> |STEP_FIELDS[i]| <= NAME_BOUND
  {
  }

  lemma {:induction false} PathTotal(env: Env, path: seq<Step>)
    requires forall i :: 0 <= i < |path| ==> NormalStep(env, path[i])
    ensures PathCommandBytes(path) <= TotalLength(Map(TextOf, Map(StepValue, path)))
    ensures TotalLength(Map(TextOf, Map(StepValue, path))) <= |path| * STEP_OVERHEAD + PathCommandBytes(path)
  {
    hide StepValue, NormalStep, Render, CommandBytes;
    if path != [] {
      StepLength(env, path[0]);
      PathTotal(env, path[1..]);
      assert Map(StepValue, path)[1..] == Map(StepValue, path[1..]);
      assert Map(TextOf, Map(StepValue, path))[1..] == Map(TextOf, Map(StepValue, path[1..]));
    }
  }

  lemma PathLength(env: Env, path: seq<Step>)
    requires |path| <= ABSOLUTE_MAX_DEPTH && forall i :: 0 <= i < |path| ==> NormalStep(env, path[i])
    ensures PathCommandBytes(path) <= |Render(Array(Map(StepValue, path)))|
    ensures |Render(Array(Map(StepValue, path)))| <= 2 + 32 * (STEP_OVERHEAD + 1) + PathCommandBytes(path)
  {
    hide StepValue, NormalStep, Render;
    var values := Map(StepValue, path);
    var texts := Map(TextOf, values);
    JoinOf(texts, values);
    PathTotal(env, path);
    JoinLength(texts);
    ScaledBound(|path|, STEP_OVERHEAD);
  }

  lemma ScaledBound(n: nat, each: nat)
    requires n <= 32
    ensures n * each <= 32 * each
  {
  }

  // ---------------------------------------------------------------- leaves

  lemma EvidenceLength(env: Env, e: Evidence)
    requires NormalEvidence(env, e)
    ensures |Render(EvidenceValue(e))| <= 2 + 7 * (200 + ID_TEXT) + ID_TEXT
  {
    hide Render, Struct, NormalIdentifier, NormalOptional;
    match e {
      case LocalInteractive(client, ingress, assurance, correlation, message) =>
        var values := [Text(client), Text(ingress), Text(assurance), Text("local_interactive"), Text(correlation),
                       OptionalText(message)];
        IdentifierTextLength(env, client);
        IdentifierTextLength(env, ingress);
        IdentifierTextLength(env, assurance);
        IdentifierTextLength(env, correlation);
        OptionalTextLength(env, message);
        ShortText("local_interactive");
        LocalEvidenceFieldNames();
        StructValueBound(LOCAL_EVIDENCE_FIELDS, values, ID_TEXT, 0);
      case RemoteAuthenticated(adapter, account, ingress, assurance, message, correlation) =>
        var values := [Text(adapter), Text(ingress), Text(assurance), Text("remote_authenticated"), Text(account),
                       Text(correlation), Text(message)];
        IdentifierTextLength(env, adapter);
        IdentifierTextLength(env, account);
        IdentifierTextLength(env, ingress);
        IdentifierTextLength(env, assurance);
        IdentifierTextLength(env, message);
        IdentifierTextLength(env, correlation);
        ShortText("remote_authenticated");
        RemoteEvidenceFieldNames();
        StructValueBound(REMOTE_EVIDENCE_FIELDS, values, ID_TEXT, 0);
    }
  }

  lemma LocalEvidenceFieldNames()
    ensures forall i :: 0 <= i < |LOCAL_EVIDENCE_FIELDS| ==> |LOCAL_EVIDENCE_FIELDS[i]| <= NAME_BOUND
  {
  }

  lemma RemoteEvidenceFieldNames()
    ensures forall i :: 0 <= i < |REMOTE_EVIDENCE_FIELDS| ==> |REMOTE_EVIDENCE_FIELDS[i]| <= NAME_BOUND
  {
  }

  lemma AuthorityFieldNames()
    ensures |AUTHORITY_FIELDS| == 17
    ensures forall i :: 0 <= i < |AUTHORITY_FIELDS| ==> |AUTHORITY_FIELDS[i]| <= NAME_BOUND
  {
  }

  lemma LeafFieldNames()
    ensures |LEAF_FIELDS| == 10
    ensures forall i :: 0 <= i < |LEAF_FIELDS| ==> |LEAF_FIELDS[i]| <= NAME_BOUND
  {
  }

  const EVIDENCE_BOUND := 2 + 7 * (200 + ID_TEXT) + ID_TEXT
  const AUTHORITY_BOUND := 2 + 17 * (200 + ID_TEXT) + EVIDENCE_BOUND + MAX_CANONICAL_VALUE_BYTES

  lemma AuthorityTextsBound(env: Env, a: Authority)
    requires NormalAuthority(env, a)
    ensures var texts := AuthorityTexts(a);
      && |texts| == 17
      && (forall i :: 0 <= i < |texts| && i != 12 && i != 15 ==> |texts[i]| <= ID_TEXT)
      && |texts[12]| <= MAX_CANONICAL_VALUE_BYTES && |texts[15]| <= EVIDENCE_BOUND
  {
    hide Render, NormalIdentifier, NormalDigest, NormalOptional, NormalOptionalDigest, EvidenceValue, NormalEvidence;
    IdentifierTextLength(env, a.authorityKind);
    IdentifierTextLength(env, a.authorityProvenanceId);
    OptionalTextLength(env, a.boundChallengeNonceDigest);
    OptionalTextLength(env, a.boundDecisionId);
    OptionalIntegerLength(a.boundDecisionRevision);
    OptionalTextLength(env, a.boundManifestDigest);
    OptionalIntegerLength(Some(a.createdAt));
    IdentifierTextLength(env, a.evidenceDigest);
    OptionalIntegerLength(a.expiresAt);
    IdentifierTextLength(env, a.instructionDigest);
    IdentifierTextLength(env, a.instructionRevision);
    IdentifierTextLength(env, a.normalizedIntentDigest);
    IdentifierTextLength(env, a.ownerEnvelopeDigest);
    IdentifierTextLength(env, a.ownerEnvelopeRevision);
    EvidenceLength(env, a.ownerEvidence);
    OptionalIntegerLength(Some(a.policyRevision));
  }

  lemma AuthorityLength(env: Env, a: Authority)
    requires NormalAuthority(env, a)
    ensures |AuthorityText(a)| <= AUTHORITY_BOUND
  {
    hide NormalAuthority, AuthorityTexts, StructText;
    var texts := AuthorityTexts(a);
    AuthorityTextsBound(env, a);
    AuthorityFieldNames();
    StructTextLength(AUTHORITY_FIELDS, texts);
    TotalLengthReplace(texts, 12);
    TotalLengthReplace(texts[12 := ""], 15);
    TotalLengthBound(texts[12 := ""][15 := ""], ID_TEXT);
  }

  lemma ToolLength(env: Env, tool: Tool)
    requires NormalIdentifier(env, tool.toolId) && NormalIdentifier(env, tool.version)
    ensures |Render(ToolValue(tool))| <= 2 + 2 * (200 + ID_TEXT) + ID_TEXT
  {
    hide Render, Struct, NormalIdentifier;
    IdentifierTextLength(env, tool.toolId);
    IdentifierTextLength(env, tool.version);
    assert |TOOL_FIELDS[0]| <= NAME_BOUND && |TOOL_FIELDS[1]| <= NAME_BOUND;
    StructValueBound(TOOL_FIELDS, [Text(tool.toolId), Text(tool.version)], ID_TEXT, 0);
  }

  const LEAF_OVERHEAD :=
    2 + 10 * (200 + ID_TEXT) + 2 * MAX_CANONICAL_VALUE_BYTES + AUTHORITY_BOUND
    + 2 + 32 * (STEP_OVERHEAD + 1) + 2 + 2 * (200 + ID_TEXT) + ID_TEXT

  lemma CanonicalTextLength(text: string)
    requires IsCanonicalText(text) || IsTargetsText(text)
    ensures |text| <= MAX_CANONICAL_VALUE_BYTES
  {
    hide Deserialize, TargetsObject;
  }

  lemma LeafTextsBound(env: Env, leaf: LeafAction)
    requires NormalLeaf(env, leaf)
    ensures var texts := LeafTexts(leaf);
      && |texts| == 10
      && (forall i :: 0 <= i < |texts| && i !in {4, 5, 6, 8, 9} ==> |texts[i]| <= ID_TEXT)
      && |texts[4]| <= MAX_CANONICAL_VALUE_BYTES && |texts[8]| <= MAX_CANONICAL_VALUE_BYTES
      && |texts[5]| <= AUTHORITY_BOUND
      && PathCommandBytes(leaf.resolutionPath) <= |texts[6]|
      && |texts[6]| <= 2 + 32 * (STEP_OVERHEAD + 1) + PathCommandBytes(leaf.resolutionPath)
      && |texts[9]| <= 2 + 2 * (200 + ID_TEXT) + ID_TEXT
  {
    hide Render, NormalIdentifier, NormalOptionalDigest, NormalAuthority, NormalStep, IsCanonicalText, IsTargetsText,
      AuthorityText, StepValue, ToolValue, LeafText, PathCommandBytes;
    IdentifierTextLength(env, leaf.actionKind);
    IdentifierTextLength(env, leaf.logicalActionId);
    OptionalTextLength(env, leaf.materialDigest);
    IdentifierTextLength(env, leaf.nodeId);
    CanonicalTextLength(leaf.operands.bytes);
    AuthorityLength(env, leaf.ownerAuthority);
    PathLength(env, leaf.resolutionPath);
    ShortText(LEAF_SCHEMA);
    CanonicalTextLength(leaf.targetSnapshot.bytes);
    ToolLength(env, leaf.tool);
  }

  lemma LeafLength(env: Env, leaf: LeafAction)
    requires NormalLeaf(env, leaf)
    ensures PathCommandBytes(leaf.resolutionPath) <= |LeafText(leaf)|
    ensures |LeafText(leaf)| <= LEAF_OVERHEAD + PathCommandBytes(leaf.resolutionPath)
  {
    hide NormalLeaf, LeafTexts, StructText, PathCommandBytes;
    var texts := LeafTexts(leaf);
    LeafTextsBound(env, leaf);
    LeafFieldNames();
    StructTextLength(LEAF_FIELDS, texts);
    var a := texts[4 := ""];
    var b := a[5 := ""];
    var c := b[6 := ""];
    var d := c[8 := ""];
    var e := d[9 := ""];
    TotalLengthReplace(texts, 4);
    TotalLengthReplace(a, 5);
    TotalLengthReplace(b, 6);
    TotalLengthReplace(c, 8);
    TotalLengthReplace(d, 9);
    TotalLengthBound(e, ID_TEXT);
  }

  // ---------------------------------------------------------------- the cap

  // The share of the leaf constant that its comment sets aside for commands: one identifier a step.
  const COMMAND_BUDGET := ABSOLUTE_MAX_DEPTH * MAX_JSON_ESCAPED_IDENTIFIER_BYTES

  lemma LeafFitsBudget(env: Env, leaf: LeafAction)
    requires NormalLeaf(env, leaf) && PathCommandBytes(leaf.resolutionPath) <= COMMAND_BUDGET
    ensures |LeafText(leaf)| <= MAX_PERSISTED_LEAF_BYTES
  {
    hide NormalLeaf, LeafText, PathCommandBytes;
    LeafLength(env, leaf);
  }

  // Commands no longer than an identifier stay within that share.
  lemma {:induction false} ShortCommandsFitBudget(path: seq<Step>)
    requires forall i :: 0 <= i < |path| && path[i].descriptor.Shell? ==> |path[i].descriptor.command| <= MAX_IDENTIFIER_BYTES
    ensures PathCommandBytes(path) <= |path| * MAX_JSON_ESCAPED_IDENTIFIER_BYTES
  {
    if path != [] {
      if path[0].descriptor.Shell? { EscapeLength(path[0].descriptor.command); }
      ShortCommandsFitBudget(path[1..]);
    }
  }

  lemma ManifestLength(leaves: seq<LeafAction>)
    ensures TotalLength(Map(CanonicalBytesOf, leaves)) <= |ManifestText(leaves)|
    ensures |ManifestText(leaves)| <= 2 + 200 * 2 + TotalLength(Map(CanonicalBytesOf, leaves)) + |leaves| + 2 + 300
  {
    hide Render;
    var texts := Map(CanonicalBytesOf, leaves);
    var parts := [RenderArray(texts), Render(Text(MANIFEST_SCHEMA))];
    JoinLength(texts);
    ManifestSchemaLength();
    assert |MANIFEST_FIELDS[0]| <= NAME_BOUND && |MANIFEST_FIELDS[1]| <= NAME_BOUND;
    StructTextLength(MANIFEST_FIELDS, parts);
    TotalLengthOfTwo(RenderArray(texts), Render(Text(MANIFEST_SCHEMA)));
  }

  lemma ManifestSchemaLength()
    ensures |Render(Text(MANIFEST_SCHEMA))| <= 300
  {
    EscapeLength(MANIFEST_SCHEMA);
  }

  // Every manifest whose leaves keep to the command share is within the restore cap.
  lemma ManifestFitsCap(env: Env, leaves: seq<LeafAction>)
    requires |leaves| <= ABSOLUTE_MAX_LEAVES
    requires forall i :: 0 <= i < |leaves| ==>
      NormalLeaf(env, leaves[i]) && PathCommandBytes(leaves[i].resolutionPath) <= COMMAND_BUDGET
    ensures |ManifestText(leaves)| <= MAX_PERSISTED_MANIFEST_BYTES
  {
    hide NormalLeaf, LeafText, PathCommandBytes, ManifestText;
    var texts := Map(CanonicalBytesOf, leaves);
    forall i | 0 <= i < |leaves| ensures |texts[i]| <= MAX_PERSISTED_LEAF_BYTES {
      LeafFitsBudget(env, leaves[i]);
      SealedBytes(env, leaves[i]);
    }
    TotalLengthBound(texts, MAX_PERSISTED_LEAF_BYTES);
    ManifestLength(leaves);
    assert |leaves| * MAX_PERSISTED_LEAF_BYTES <= ABSOLUTE_MAX_LEAVES * MAX_PERSISTED_LEAF_BYTES;
  }

  lemma SealedBytes(env: Env, leaf: LeafAction)
    requires NormalLeaf(env, leaf)
    ensures CanonicalBytesOf(leaf) == LeafText(leaf)
  {
    hide LeafText, IsCanonicalText, IsTargetsText, NormalAuthority, NormalStep;
  }
}
