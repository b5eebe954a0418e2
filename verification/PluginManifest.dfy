// Plugin manifests and the normal form the registry keeps them in.
module PluginManifest {
  import opened Wrappers
  import opened Ordering

  const SCHEMA_V1 := "carsinos.plugin.manifest.v1"
  const SCHEMA_V2 := "carsinos.plugin.manifest.v2"
  const API_V1 := "carsinos.plugin.api.v1"

  datatype Kind = Tool | Hook | Provider | Channel

  datatype Capability = Capability(name: string, description: Option<string>)

  datatype Artifact = Artifact(localPath: string, command: string, args: seq<string>, sha256: string)

  // `untouched` stands for the fields the registry only carries: the enabled flag, the kind of
  // execution, the limits and the free metadata.
  datatype Manifest = Manifest(
    schemaVersion: string,
    pluginId: string,
    displayName: string,
    pluginVersion: string,
    apiVersion: string,
    artifact: Artifact,
    minGatewayVersion: Option<string>,
    allowedRoots: seq<string>,
    networkPolicy: string,
    networkAllowlist: seq<string>,
    tools: seq<Capability>,
    hooks: seq<Capability>,
    providers: seq<Capability>,
    channels: seq<Capability>,
    untouched: string)

  function Declared(m: Manifest, kind: Kind): seq<Capability> {
    match kind
    case Tool => m.tools
    case Hook => m.hooks
    case Provider => m.providers
    case Channel => m.channels
  }

  // ---------------------------------------------------------------- trimming

  // White space, of which no ASCII letter is.
  ghost predicate IsBlankTest(blank: char -> bool) {
    forall c {:trigger blank(c)} :: blank(c) ==> !('a' <= c <= 'z') && !('A' <= c <= 'Z')
  }

  function TrimStart(blank: char -> bool, s: string): string {
    if s != "" && blank(s[0]) then TrimStart(blank, s[1..]) else s
  }

  function TrimEnd(blank: char -> bool, s: string): string {
    if s != "" && blank(s[|s| - 1]) then TrimEnd(blank, s[..|s| - 1]) else s
  }

  function Trim(blank: char -> bool, s: string): string {
    TrimEnd(blank, TrimStart(blank, s))
  }

  function LowerChar(c: char): char {
    if 'A' <= c <= 'Z' then 'a' + (c - 'A') else c
  }

  function Lower(s: string): string {
    Map(LowerChar, s)
  }

  predicate IsTrimmed(blank: char -> bool, s: string) {
    s == "" || (!blank(s[0]) && !blank(s[|s| - 1]))
  }

  lemma {:induction false} TrimEndTrims(blank: char -> bool, s: string)
    ensures s == "" || !blank(s[0]) ==> IsTrimmed(blank, TrimEnd(blank, s))
    ensures IsTrimmed(blank, s) ==> TrimEnd(blank, s) == s
  {
    if s != "" && blank(s[|s| - 1]) {
      TrimEndTrims(blank, s[..|s| - 1]);
    }
  }

  lemma {:induction false} TrimStartTrims(blank: char -> bool, s: string)
    ensures TrimStart(blank, s) == "" || !blank(TrimStart(blank, s)[0])
    ensures IsTrimmed(blank, s) ==> TrimStart(blank, s) == s
  {
    if s != "" && blank(s[0]) {
      TrimStartTrims(blank, s[1..]);
    }
  }

  lemma TrimTrims(blank: char -> bool, s: string)
    ensures IsTrimmed(blank, Trim(blank, s))
    ensures IsTrimmed(blank, s) ==> Trim(blank, s) == s
  {
    TrimStartTrims(blank, s);
    TrimEndTrims(blank, TrimStart(blank, s));
  }

  function LowerTrim(blank: char -> bool, s: string): string {
    Lower(Trim(blank, s))
  }

  lemma LowerKeepsTrimmed(blank: char -> bool, t: string)
    requires IsBlankTest(blank) && IsTrimmed(blank, t)
    ensures IsTrimmed(blank, Lower(t)) && Lower(Lower(t)) == Lower(t)
  {
    assert forall c :: blank(LowerChar(c)) ==> LowerChar(c) == c;
  }

  lemma LowerTrimIsIdempotent(blank: char -> bool, s: string)
    requires IsBlankTest(blank)
    ensures Trim(blank, LowerTrim(blank, s)) == LowerTrim(blank, s)
    ensures LowerTrim(blank, LowerTrim(blank, s)) == LowerTrim(blank, s)
  {
    hide Trim, LowerChar, IsBlankTest;
    TrimTrims(blank, s);
    LowerKeepsTrimmed(blank, Trim(blank, s));
    TrimTrims(blank, Lower(Trim(blank, s)));
  }

  // ---------------------------------------------------------------- identifiers and lists

  predicate IsIdentifierChar(c: char) {
    'a' <= c <= 'z' || 'A' <= c <= 'Z' || '0' <= c <= '9' || c == '-' || c == '_' || c == '.'
  }

  // normalize_identifier
  function Identifier(blank: char -> bool, raw: string): Option<string> {
    var t := LowerTrim(blank, raw);
    if t != "" && forall i :: 0 <= i < |t| ==> IsIdentifierChar(t[i]) then Some(t) else None
  }

  lemma IdentifierIsIdempotent(blank: char -> bool, raw: string)
    requires IsBlankTest(blank) && Identifier(blank, raw).Some?
    ensures Identifier(blank, Identifier(blank, raw).value) == Identifier(blank, raw)
  {
    LowerTrimIsIdempotent(blank, raw);
  }

  function NonEmpty(s: string): Option<string> {
    if s == "" then None else Some(s)
  }

  // Every text through f, the empty results left out.
  function Cleaned(f: string -> string, texts: seq<string>): (r: seq<string>)
    ensures forall x :: x in r ==> x != "" && exists y :: y in texts && f(y) == x
  {
    if texts == [] then []
    else (if f(texts[0]) == "" then [] else [f(texts[0])]) + Cleaned(f, texts[1..])
  }

  lemma {:induction false} CleanedIsIdempotent(f: string -> string, texts: seq<string>)
    requires forall y {:trigger f(y)} :: f(f(y)) == f(y)
    ensures Cleaned(f, Cleaned(f, texts)) == Cleaned(f, texts)
  {
    if texts != [] {
      CleanedIsIdempotent(f, texts[1..]);
      var x, rest := f(texts[0]), Cleaned(f, texts[1..]);
      if x == "" {
        assert Cleaned(f, texts) == rest;
      } else {
        assert Cleaned(f, texts) == [x] + rest && ([x] + rest)[1..] == rest;
      }
    }
  }

  // ---------------------------------------------------------------- capabilities

  function NormalCapability(blank: char -> bool, c: Capability): Option<Capability> {
    var name :- Identifier(blank, c.name);
    Some(Capability(name, if c.description.Some? then NonEmpty(Trim(blank, c.description.value)) else None))
  }

  predicate IsNameIn(caps: seq<Capability>, name: string) {
    exists i :: 0 <= i < |caps| && caps[i].name == name
  }

  // normalize_capabilities on the declarations of one kind
  function NormalCapabilities(blank: char -> bool, caps: seq<Capability>): Option<seq<Capability>> {
    if caps == [] then Some([])
    else
      var front :- NormalCapabilities(blank, caps[..|caps| - 1]);
      var last :- NormalCapability(blank, caps[|caps| - 1]);
      if IsNameIn(front, last.name) then None else Some(front + [last])
  }

  lemma {:induction false} NormalCapabilitiesLength(blank: char -> bool, caps: seq<Capability>)
    requires NormalCapabilities(blank, caps).Some?
    ensures |NormalCapabilities(blank, caps).value| == |caps|
  {
    if caps != [] {
      NormalCapabilitiesLength(blank, caps[..|caps| - 1]);
    }
  }

  lemma {:induction false} NormalCapabilitiesOfPrefix(blank: char -> bool, caps: seq<Capability>, n: nat)
    requires n <= |caps| && NormalCapabilities(blank, caps).Some?
    ensures NormalCapabilities(blank, caps[..n]).Some?
  {
    if n < |caps| {
      NormalCapabilitiesOfPrefix(blank, caps[..|caps| - 1], n);
      assert caps[..|caps| - 1][..n] == caps[..n];
    } else {
      assert caps[..n] == caps;
    }
  }

  lemma NoNames()
    ensures forall name :: !IsNameIn([], name)
  {
  }

  lemma NamesOfSnoc(caps: seq<Capability>, c: Capability)
    ensures forall name :: IsNameIn(caps + [c], name) <==> IsNameIn(caps, name) || c.name == name
  {
    var longer := caps + [c];
    assert longer[|caps|] == c;
    assert forall i :: 0 <= i < |caps| ==> longer[i] == caps[i];
  }

  // The declarations are rewritten in place.
  method NormalizeCapabilities(blank: char -> bool, caps: array<Capability>) returns (ok: bool)
    modifies caps
    ensures ok <==> NormalCapabilities(blank, old(caps[..])).Some?
    ensures ok ==> caps[..] == NormalCapabilities(blank, old(caps[..])).value
  {
    hide NormalCapability, IsNameIn;
    ghost var was := caps[..];
    NoNames();
    var seen: set<string> := {};
    var i := 0;
    while i < caps.Length
      invariant 0 <= i <= caps.Length
      invariant caps[i..] == was[i..]
      invariant NormalCapabilities(blank, was[..i]) == Some(caps[..i])
      invariant forall name :: name in seen <==> IsNameIn(caps[..i], name)
    {
      assert caps[i] == was[i];
      assert was[..i + 1][..i] == was[..i];
      var c := NormalCapability(blank, caps[i]);
      if c.None? || c.value.name in seen {
        if NormalCapabilities(blank, was).Some? {
          NormalCapabilitiesOfPrefix(blank, was, i + 1);
        }
        return false;
      }
      seen := seen + {c.value.name};
      ghost var front := caps[..i];
      NamesOfSnoc(front, c.value);
      caps[i] := c.value;
      assert caps[..i + 1] == front + [c.value];
      assert caps[i + 1..] == was[i + 1..];
      i := i + 1;
    }
    assert was[..caps.Length] == was && caps[..caps.Length] == caps[..];
    return true;
  }

  lemma NormalCapabilityIsIdempotent(blank: char -> bool, c: Capability)
    requires IsBlankTest(blank) && NormalCapability(blank, c).Some?
    ensures NormalCapability(blank, NormalCapability(blank, c).value) == NormalCapability(blank, c)
  {
    IdentifierIsIdempotent(blank, c.name);
    if c.description.Some? {
      TrimTrims(blank, c.description.value);
      TrimTrims(blank, Trim(blank, c.description.value));
    }
  }

  lemma {:induction false} NormalCapabilitiesAreIdempotent(blank: char -> bool, caps: seq<Capability>)
    requires IsBlankTest(blank) && NormalCapabilities(blank, caps).Some?
    ensures NormalCapabilities(blank, NormalCapabilities(blank, caps).value) == NormalCapabilities(blank, caps)
  {
    hide NormalCapability, IsBlankTest;
    if caps != [] {
      var r := NormalCapabilities(blank, caps).value;
      NormalCapabilitiesAreIdempotent(blank, caps[..|caps| - 1]);
      NormalCapabilityIsIdempotent(blank, caps[|caps| - 1]);
      assert r[..|r| - 1] == NormalCapabilities(blank, caps[..|caps| - 1]).value;
    }
  }

  // ---------------------------------------------------------------- the normal form of a manifest

  function NormalArtifact(blank: char -> bool, a: Artifact): Artifact {
    Artifact(Trim(blank, a.localPath), Trim(blank, a.command), Cleaned(s => Trim(blank, s), a.args),
             LowerTrim(blank, a.sha256))
  }

  predicate IsHexDigit(c: char) {
    '0' <= c <= '9' || 'a' <= c <= 'f' || 'A' <= c <= 'F'
  }

  predicate IsDeclaredArtifact(a: Artifact) {
    a.localPath != "" && a.command != "" && |a.sha256| == 64 && forall i :: 0 <= i < 64 ==> IsHexDigit(a.sha256[i])
  }

  // The header fields a manifest needs.
  predicate IsSupported(blank: char -> bool, m: Manifest) {
    && (Trim(blank, m.schemaVersion) == SCHEMA_V1 || Trim(blank, m.schemaVersion) == SCHEMA_V2)
    && Trim(blank, m.apiVersion) == API_V1
    && Trim(blank, m.displayName) != "" && Trim(blank, m.pluginVersion) != ""
    && (Trim(blank, m.schemaVersion) == SCHEMA_V2 ==> IsDeclaredArtifact(NormalArtifact(blank, m.artifact)))
  }

  // The checks and rewriting of register_manifest that do not look at the registry.
  function Normalize(blank: char -> bool, m: Manifest): Option<Manifest> {
    if !IsSupported(blank, m) then None
    else
      var pluginId :- Identifier(blank, m.pluginId);
      var tools :- NormalCapabilities(blank, m.tools);
      var hooks :- NormalCapabilities(blank, m.hooks);
      var providers :- NormalCapabilities(blank, m.providers);
      var channels :- NormalCapabilities(blank, m.channels);
      Some(Manifest(
        Trim(blank, m.schemaVersion),
        pluginId,
        Trim(blank, m.displayName),
        Trim(blank, m.pluginVersion),
        API_V1,
        NormalArtifact(blank, m.artifact),
        if m.minGatewayVersion.Some? then NonEmpty(Trim(blank, m.minGatewayVersion.value)) else None,
        Cleaned(s => Trim(blank, s), m.allowedRoots),
        LowerTrim(blank, m.networkPolicy),
        Cleaned(s => LowerTrim(blank, s), m.networkAllowlist),
        tools, hooks, providers, channels,
        m.untouched))
  }

  lemma TrimIsIdempotent(blank: char -> bool)
    ensures forall s {:trigger Trim(blank, s)} :: Trim(blank, Trim(blank, s)) == Trim(blank, s)
  {
    forall s ensures Trim(blank, Trim(blank, s)) == Trim(blank, s) {
      TrimTrims(blank, s);
      TrimTrims(blank, Trim(blank, s));
    }
  }

  lemma NormalArtifactIsIdempotent(blank: char -> bool, a: Artifact)
    requires IsBlankTest(blank)
    ensures NormalArtifact(blank, NormalArtifact(blank, a)) == NormalArtifact(blank, a)
  {
    hide Trim, LowerTrim, Cleaned;
    TrimIsIdempotent(blank);
    LowerTrimIsIdempotent(blank, a.sha256);
    CleanedIsIdempotent(s => Trim(blank, s), a.args);
  }

  lemma ListsAreIdempotent(blank: char -> bool, m: Manifest)
    requires IsBlankTest(blank)
    ensures var roots := Cleaned(s => Trim(blank, s), m.allowedRoots);
      Cleaned(s => Trim(blank, s), roots) == roots
    ensures var hosts := Cleaned(s => LowerTrim(blank, s), m.networkAllowlist);
      Cleaned(s => LowerTrim(blank, s), hosts) == hosts
  {
    hide Trim, LowerTrim;
    TrimIsIdempotent(blank);
    CleanedIsIdempotent(s => Trim(blank, s), m.allowedRoots);
    forall s ensures LowerTrim(blank, LowerTrim(blank, s)) == LowerTrim(blank, s) {
      LowerTrimIsIdempotent(blank, s);
    }
    CleanedIsIdempotent(s => LowerTrim(blank, s), m.networkAllowlist);
  }

  predicate IsNormal(blank: char -> bool, m: Manifest) {
    Normalize(blank, m) == Some(m)
  }

  // A registered manifest can be registered again, unchanged.
  lemma NormalizeIsIdempotent(blank: char -> bool, m: Manifest)
    requires IsBlankTest(blank) && Normalize(blank, m).Some?
    ensures IsNormal(blank, Normalize(blank, m).value)
  {
    hide Trim, LowerTrim, NormalArtifact, NormalCapabilities, Identifier, IsDeclaredArtifact, IsBlankTest, Cleaned;
    TrimIsIdempotent(blank);
    ApiIsTrimmed(blank, m);
    LowerTrimIsIdempotent(blank, m.networkPolicy);
    IdentifierIsIdempotent(blank, m.pluginId);
    NormalArtifactIsIdempotent(blank, m.artifact);
    ListsAreIdempotent(blank, m);
    NormalCapabilitiesAreIdempotent(blank, m.tools);
    NormalCapabilitiesAreIdempotent(blank, m.hooks);
    NormalCapabilitiesAreIdempotent(blank, m.providers);
    NormalCapabilitiesAreIdempotent(blank, m.channels);
  }

  lemma ApiIsTrimmed(blank: char -> bool, m: Manifest)
    requires Trim(blank, m.apiVersion) == API_V1
    ensures Trim(blank, API_V1) == API_V1
  {
    hide Trim;
    TrimIsIdempotent(blank);
  }
}
