// What a registered manifest keeps of the manifest it was given, said field by field.
module PluginContents {
  import opened Wrappers
  import opened PluginManifest

  // ---------------------------------------------------------------- texts

  ghost predicate AreBlanks(blank: char -> bool, s: string) {
    forall i :: 0 <= i < |s| ==> blank(s[i])
  }

  // What stands between the leading and the trailing white space.
  ghost predicate IsTrimOf(blank: char -> bool, given: string, kept: string) {
    && (exists a, b :: given == a + kept + b && AreBlanks(blank, a) && AreBlanks(blank, b))
    && (kept != "" ==> !blank(kept[0]) && !blank(kept[|kept| - 1]))
  }

  ghost predicate IsLowerOf(given: string, kept: string) {
    |kept| == |given| && forall i :: 0 <= i < |given| ==>
      kept[i] == if 'A' <= given[i] <= 'Z' then (given[i] as int + 32) as char else given[i]
  }

  ghost predicate IsLowerTrimOf(blank: char -> bool, given: string, kept: string) {
    exists t :: IsTrimOf(blank, given, t) && IsLowerOf(t, kept)
  }

  // An identifier is lowered, not empty, and made of a-z, 0-9, hyphen, underscore and dot.
  ghost predicate IsIdentifierOf(blank: char -> bool, given: string, kept: string) {
    && IsLowerTrimOf(blank, given, kept) && kept != ""
    && forall i :: 0 <= i < |kept| ==>
      'a' <= kept[i] <= 'z' || '0' <= kept[i] <= '9' || kept[i] == '-' || kept[i] == '_' || kept[i] == '.'
  }

  lemma {:induction false} TrimStartOf(blank: char -> bool, a: string, s: string)
    requires AreBlanks(blank, a) && (s == "" || !blank(s[0]))
    ensures TrimStart(blank, a + s) == s
  {
    if a == "" {
      assert a + s == s;
    } else {
      TrimStartOf(blank, a[1..], s);
      assert (a + s)[1..] == a[1..] + s;
    }
  }

  lemma {:induction false} TrimEndOf(blank: char -> bool, s: string, b: string)
    requires AreBlanks(blank, b) && (s == "" || !blank(s[|s| - 1]))
    ensures TrimEnd(blank, s + b) == s
  {
    if b == "" {
      assert s + b == s;
    } else {
      TrimEndOf(blank, s, b[..|b| - 1]);
      assert (s + b)[..|s + b| - 1] == s + b[..|b| - 1];
    }
  }

  lemma {:induction false} TrimStartLeaves(blank: char -> bool, s: string) returns (a: string)
    ensures s == a + TrimStart(blank, s) && AreBlanks(blank, a)
  {
    a := "";
    if s != "" && blank(s[0]) {
      var rest := TrimStartLeaves(blank, s[1..]);
      a := [s[0]] + rest;
      assert s == [s[0]] + s[1..];
    }
  }

  lemma {:induction false} TrimEndLeaves(blank: char -> bool, s: string) returns (b: string)
    ensures s == TrimEnd(blank, s) + b && AreBlanks(blank, b)
  {
    b := "";
    if s != "" && blank(s[|s| - 1]) {
      var rest := TrimEndLeaves(blank, s[..|s| - 1]);
      b := rest + [s[|s| - 1]];
      assert s == s[..|s| - 1] + [s[|s| - 1]];
    }
  }

  lemma TrimExactly(blank: char -> bool, given: string, kept: string)
    ensures IsTrimOf(blank, given, kept) <==> kept == Trim(blank, given)
  {
    var a := TrimStartLeaves(blank, given);
    var b := TrimEndLeaves(blank, TrimStart(blank, given));
    assert given == a + Trim(blank, given) + b;
    TrimTrims(blank, given);
    if IsTrimOf(blank, given, kept) {
      PaddedIsTrimmed(blank, given, kept);
    }
  }

  lemma PaddedIsTrimmed(blank: char -> bool, given: string, kept: string)
    requires IsTrimOf(blank, given, kept)
    ensures kept == Trim(blank, given)
  {
    hide TrimStart, TrimEnd;
    var c, d :| given == c + kept + d && AreBlanks(blank, c) && AreBlanks(blank, d);
    if kept == "" {
      assert given == (c + d) + "";
      TrimStartOf(blank, c + d, "");
      TrimEndOf(blank, "", "");
      assert "" + "" == "";
    } else {
      assert given == c + (kept + d) && (kept + d)[0] == kept[0];
      TrimStartOf(blank, c, kept + d);
      TrimEndOf(blank, kept, d);
    }
  }

  lemma LowerTrimExactly(blank: char -> bool, given: string, kept: string)
    ensures IsLowerTrimOf(blank, given, kept) <==> kept == LowerTrim(blank, given)
  {
    hide IsTrimOf, Trim;
    TrimExactly(blank, given, Trim(blank, given));
    forall t | IsTrimOf(blank, given, t) ensures t == Trim(blank, given) {
      TrimExactly(blank, given, t);
    }
    LowerExactly(Trim(blank, given), kept);
  }

  lemma LowerExactly(given: string, kept: string)
    ensures IsLowerOf(given, kept) <==> kept == Lower(given)
  {
  }

  lemma LoweredChars(s: string)
    ensures forall i :: 0 <= i < |Lower(s)| ==> !('A' <= Lower(s)[i] <= 'Z')
  {
  }

  lemma IdentifierExactly(blank: char -> bool, given: string, kept: string)
    ensures IsIdentifierOf(blank, given, kept) <==> Identifier(blank, given) == Some(kept)
  {
    LowerTrimExactly(blank, given, kept);
    LoweredChars(Trim(blank, given));
    hide Trim, Lower, IsLowerTrimOf;
  }

  // ---------------------------------------------------------------- lists

  lemma Associate(a: seq<string>, b: seq<string>, c: seq<string>)
    ensures a + b + c == a + (b + c)
  {
  }

  function Result(f: string -> string, text: string): seq<string> {
    if f(text) == "" then [] else [f(text)]
  }

  lemma CleanedFirst(f: string -> string, text: string, rest: seq<string>)
    ensures Cleaned(f, [text] + rest) == Result(f, text) + Cleaned(f, rest) && Cleaned(f, []) == []
  {
    assert ([text] + rest)[1..] == rest;
  }

  // The kept texts are those of the given ones, in order, that do not become empty.
  lemma {:induction false} CleanedExactly(f: string -> string, a: seq<string>, b: seq<string>)
    ensures Cleaned(f, a + b) == Cleaned(f, a) + Cleaned(f, b)
    ensures |a| == 1 ==> Cleaned(f, a) == Result(f, a[0])
  {
    hide Cleaned, Result;
    CleanedFirst(f, "", []);
    if a == [] {
      assert a + b == b;
    } else {
      CleanedExactly(f, a[1..], b);
      CleanedFirst(f, a[0], a[1..]);
      CleanedFirst(f, a[0], a[1..] + b);
      assert a == [a[0]] + a[1..] && a + b == [a[0]] + (a[1..] + b);
      Associate(Result(f, a[0]), Cleaned(f, a[1..]), Cleaned(f, b));
    }
  }

  // ---------------------------------------------------------------- declarations

  ghost predicate IsDescriptionOf(blank: char -> bool, given: Option<string>, kept: Option<string>) {
    if given.Some? && !AreBlanks(blank, given.value) then kept.Some? && IsTrimOf(blank, given.value, kept.value)
    else kept == None
  }

  ghost predicate IsCapabilityOf(blank: char -> bool, given: Capability, kept: Capability) {
    IsIdentifierOf(blank, given.name, kept.name) && IsDescriptionOf(blank, given.description, kept.description)
  }

  // One declaration for each, in order, no two of one name.
  ghost predicate AreDeclarationsOf(blank: char -> bool, given: seq<Capability>, kept: seq<Capability>) {
    && |kept| == |given|
    && (forall i :: 0 <= i < |given| ==> IsCapabilityOf(blank, given[i], kept[i]))
    && (forall i, j :: 0 <= i < j < |kept| ==> kept[i].name != kept[j].name)
  }

  lemma BlankText(blank: char -> bool, s: string)
    ensures AreBlanks(blank, s) <==> Trim(blank, s) == ""
  {
    TrimExactly(blank, s, "");
    TrimExactly(blank, s, Trim(blank, s));
    if AreBlanks(blank, s) {
      assert s == s + "" + "" && AreBlanks(blank, "");
    }
  }

  lemma OptionalTextExactly(blank: char -> bool, given: Option<string>, kept: Option<string>)
    ensures IsDescriptionOf(blank, given, kept) <==>
      kept == if given.Some? then NonEmpty(Trim(blank, given.value)) else None
  {
    hide IsTrimOf, Trim, AreBlanks;
    if given.Some? {
      BlankText(blank, given.value);
      TrimExactly(blank, given.value, Trim(blank, given.value));
      if kept.Some? {
        TrimExactly(blank, given.value, kept.value);
      }
    }
  }

  lemma CapabilityExactly(blank: char -> bool, given: Capability, kept: Capability)
    ensures IsCapabilityOf(blank, given, kept) <==> NormalCapability(blank, given) == Some(kept)
  {
    IdentifierExactly(blank, given.name, kept.name);
    OptionalTextExactly(blank, given.description, kept.description);
    hide IsIdentifierOf, IsDescriptionOf, Identifier, Trim;
  }

  lemma {:induction false} DeclarationsExactly(blank: char -> bool, given: seq<Capability>, kept: seq<Capability>)
    ensures AreDeclarationsOf(blank, given, kept) <==> NormalCapabilities(blank, given) == Some(kept)
  {
    hide NormalCapability, IsCapabilityOf;
    if given != [] {
      var n := |given| - 1;
      if kept != [] {
        DeclarationsExactly(blank, given[..n], kept[..|kept| - 1]);
        CapabilityExactly(blank, given[n], kept[|kept| - 1]);
        assert kept == kept[..|kept| - 1] + [kept[|kept| - 1]];
      }
      if NormalCapabilities(blank, given).Some? {
        NormalCapabilitiesLength(blank, given);
        var made := NormalCapabilities(blank, given).value;
        assert made[..|made| - 1] == NormalCapabilities(blank, given[..n]).value;
      }
    }
  }

  // ---------------------------------------------------------------- the manifest

  ghost predicate IsArtifactOf(blank: char -> bool, given: Artifact, kept: Artifact) {
    && IsTrimOf(blank, given.localPath, kept.localPath) && IsTrimOf(blank, given.command, kept.command)
    && kept.args == Cleaned(s => Trim(blank, s), given.args) && IsLowerTrimOf(blank, given.sha256, kept.sha256)
  }

  // The artifact of the second schema names a path, a command and 64 hexadecimal digits.
  ghost predicate IsWholeArtifact(a: Artifact) {
    && a.localPath != "" && a.command != "" && |a.sha256| == 64
    && forall i :: 0 <= i < 64 ==> '0' <= a.sha256[i] <= '9' || 'a' <= a.sha256[i] <= 'f'
  }

  ghost predicate IsHeaderOf(blank: char -> bool, given: Manifest, kept: Manifest) {
    && IsTrimOf(blank, given.schemaVersion, kept.schemaVersion)
    && (kept.schemaVersion == "carsinos.plugin.manifest.v1" || kept.schemaVersion == "carsinos.plugin.manifest.v2")
    && (kept.schemaVersion == "carsinos.plugin.manifest.v2" ==> IsWholeArtifact(kept.artifact))
    && IsTrimOf(blank, given.apiVersion, kept.apiVersion) && kept.apiVersion == "carsinos.plugin.api.v1"
    && IsIdentifierOf(blank, given.pluginId, kept.pluginId)
    && IsTrimOf(blank, given.displayName, kept.displayName) && kept.displayName != ""
    && IsTrimOf(blank, given.pluginVersion, kept.pluginVersion) && kept.pluginVersion != ""
    && IsArtifactOf(blank, given.artifact, kept.artifact)
  }

  ghost predicate IsNormalFormOf(blank: char -> bool, given: Manifest, kept: Manifest) {
    && IsHeaderOf(blank, given, kept)
    && IsDescriptionOf(blank, given.minGatewayVersion, kept.minGatewayVersion)
    && kept.allowedRoots == Cleaned(s => Trim(blank, s), given.allowedRoots)
    && IsLowerTrimOf(blank, given.networkPolicy, kept.networkPolicy)
    && kept.networkAllowlist == Cleaned(s => LowerTrim(blank, s), given.networkAllowlist)
    && AreDeclarationsOf(blank, given.tools, kept.tools) && AreDeclarationsOf(blank, given.hooks, kept.hooks)
    && AreDeclarationsOf(blank, given.providers, kept.providers) && AreDeclarationsOf(blank, given.channels, kept.channels)
    && kept.untouched == given.untouched
  }

  lemma ArtifactExactly(blank: char -> bool, given: Artifact, kept: Artifact)
    ensures IsArtifactOf(blank, given, kept) <==> kept == NormalArtifact(blank, given)
  {
    TrimExactly(blank, given.localPath, kept.localPath);
    TrimExactly(blank, given.command, kept.command);
    LowerTrimExactly(blank, given.sha256, kept.sha256);
    hide IsTrimOf, IsLowerTrimOf, Trim, LowerTrim, Cleaned;
  }

  lemma WholeExactly(blank: char -> bool, given: Artifact)
    ensures IsWholeArtifact(NormalArtifact(blank, given)) <==> IsDeclaredArtifact(NormalArtifact(blank, given))
  {
    hide Trim, Cleaned;
    LoweredChars(Trim(blank, given.sha256));
  }

  lemma HeaderExactly(blank: char -> bool, given: Manifest, kept: Manifest)
    ensures IsHeaderOf(blank, given, kept) <==>
      && IsSupported(blank, given) && Identifier(blank, given.pluginId) == Some(kept.pluginId)
      && kept.schemaVersion == Trim(blank, given.schemaVersion) && kept.apiVersion == API_V1
      && kept.displayName == Trim(blank, given.displayName) && kept.pluginVersion == Trim(blank, given.pluginVersion)
      && kept.artifact == NormalArtifact(blank, given.artifact)
  {
    TrimExactly(blank, given.schemaVersion, kept.schemaVersion);
    TrimExactly(blank, given.apiVersion, kept.apiVersion);
    TrimExactly(blank, given.displayName, kept.displayName);
    TrimExactly(blank, given.pluginVersion, kept.pluginVersion);
    IdentifierExactly(blank, given.pluginId, kept.pluginId);
    ArtifactExactly(blank, given.artifact, kept.artifact);
    WholeExactly(blank, given.artifact);
    hide IsTrimOf, IsIdentifierOf, IsArtifactOf, IsWholeArtifact, Trim, Identifier, NormalArtifact, IsDeclaredArtifact;
  }

  // A manifest is kept exactly in its normal form, and refused exactly when it has none.
  lemma NormalFormExactly(blank: char -> bool, given: Manifest, kept: Manifest)
    ensures IsNormalFormOf(blank, given, kept) <==> Normalize(blank, given) == Some(kept)
  {
    HeaderExactly(blank, given, kept);
    OptionalTextExactly(blank, given.minGatewayVersion, kept.minGatewayVersion);
    LowerTrimExactly(blank, given.networkPolicy, kept.networkPolicy);
    DeclarationsExactly(blank, given.tools, kept.tools);
    DeclarationsExactly(blank, given.hooks, kept.hooks);
    DeclarationsExactly(blank, given.providers, kept.providers);
    DeclarationsExactly(blank, given.channels, kept.channels);
    hide IsHeaderOf, IsDescriptionOf, IsLowerTrimOf, AreDeclarationsOf, NormalCapabilities, Trim, LowerTrim, Cleaned,
      IsSupported, Identifier, NormalArtifact;
  }
}
