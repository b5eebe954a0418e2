// One refused registration, on concrete manifests: what it leaves behind.
module PluginRefusal {
  import opened Wrappers
  import opened PluginManifest
  import opened PluginRegistry

  function OnlySpace(c: char): bool {
    c == ' '
  }

  function Plain(name: string): Capability {
    Capability(name, None)
  }

  function PluginWith(id: string, tools: seq<Capability>): Manifest {
    Manifest(SCHEMA_V1, id, "n", "1", API_V1, Artifact("", "", [], ""), None, [], "deny_all", [], tools, [], [], [], "")
  }

  const OWNER := PluginWith("p", [Plain("b")])
  const LATECOMER := PluginWith("q", [Plain("a"), Plain("b")])

  // Plugin p is registered, with the tool b.
  const TAKEN := State(map["p" := OWNER], map["b" := "p"], map[], map[], map[])

  lemma ShortTextIsTrimmed(s: string)
    requires |s| == 1 && s[0] != ' '
    ensures Trim(OnlySpace, s) == s
  {
    TrimTrims(OnlySpace, s);
  }

  lemma HeaderIsTrimmed()
    ensures Trim(OnlySpace, SCHEMA_V1) == SCHEMA_V1 && Trim(OnlySpace, API_V1) == API_V1 && Trim(OnlySpace, "") == ""
    ensures LowerTrim(OnlySpace, "") == "" && LowerTrim(OnlySpace, "deny_all") == "deny_all"
  {
    TrimTrims(OnlySpace, SCHEMA_V1);
    TrimTrims(OnlySpace, API_V1);
    TrimTrims(OnlySpace, "");
    TrimTrims(OnlySpace, "deny_all");
    assert Lower("deny_all") == "deny_all";
  }

  lemma LetterIsIdentifier(s: string)
    requires |s| == 1 && 'a' <= s[0] <= 'z'
    ensures Identifier(OnlySpace, s) == Some(s)
    ensures NormalCapability(OnlySpace, Plain(s)) == Some(Plain(s))
  {
    hide Trim;
    ShortTextIsTrimmed(s);
    assert Lower(s) == s;
  }

  lemma NormalSnoc(front: seq<Capability>, name: string)
    requires NormalCapabilities(OnlySpace, front) == Some(front)
    requires |name| == 1 && 'a' <= name[0] <= 'z' && !IsNameIn(front, name)
    ensures NormalCapabilities(OnlySpace, front + [Plain(name)]) == Some(front + [Plain(name)])
  {
    hide NormalCapability;
    LetterIsIdentifier(name);
    assert (front + [Plain(name)])[..|front|] == front;
  }

  lemma PluginIsNormal(id: string, tools: seq<Capability>)
    requires |id| == 1 && 'a' <= id[0] <= 'z' && NormalCapabilities(OnlySpace, tools) == Some(tools)
    ensures Normalize(OnlySpace, PluginWith(id, tools)) == Some(PluginWith(id, tools))
  {
    hide Trim, LowerTrim, Identifier;
    HeaderIsTrimmed();
    ShortTextIsTrimmed("n");
    ShortTextIsTrimmed("1");
    LetterIsIdentifier(id);
    assert NormalCapabilities(OnlySpace, []) == Some([]);
  }

  lemma PluginsAreNormal()
    ensures Normalize(OnlySpace, OWNER) == Some(OWNER) && Normalize(OnlySpace, LATECOMER) == Some(LATECOMER)
  {
    hide NormalCapability, Normalize, Identifier;
    assert NormalCapabilities(OnlySpace, []) == Some([]);
    NormalSnoc([], "b");
    assert [] + [Plain("b")] == [Plain("b")];
    PluginIsNormal("p", [Plain("b")]);
    NormalSnoc([], "a");
    assert [] + [Plain("a")] == [Plain("a")];
    NormalSnoc([Plain("a")], "b");
    assert [Plain("a")] + [Plain("b")] == [Plain("a"), Plain("b")];
    PluginIsNormal("q", [Plain("a"), Plain("b")]);
  }

  lemma TakenAgrees()
    ensures IsBlankTest(OnlySpace) && Agrees(TAKEN) && Sound(OnlySpace, TAKEN)
  {
    hide Normalize;
    PluginsAreNormal();
    var tools := OWNER.tools;
    assert tools[0].name == "b";
    assert forall name :: IsNameIn(tools, name) <==> name == "b";
  }

  // Every state an attempt to register q, with the tools a and b, can leave.
  lemma SecondToolIsRefused(t: State)
    ensures IsNewcomer(OnlySpace, TAKEN, LATECOMER) && !CanRegister(OnlySpace, TAKEN, LATECOMER)
    ensures !IsFirstNameTaken(TAKEN, LATECOMER)
    ensures IsAttempted(TAKEN, LATECOMER, t) ==> Binds(t, Tool, "a", "q") && !Agrees(t)
  {
    hide Normalize, Agrees, Sound, IsBlankTest;
    PluginsAreNormal();
    TakenAgrees();
    var tools := LATECOMER.tools;
    assert tools[0].name == "a" && tools[1].name == "b";
    FreeUntilTaken(TAKEN.tools, tools);
    var first := FirstTaken(TAKEN.tools, tools);
    assert first == 1;
    assert !IsFree(TAKEN.Of(Tool), Declared(LATECOMER, Tool));
    assert Reached(TAKEN, LATECOMER, Tool) == tools[..1];
    if IsAttempted(TAKEN, LATECOMER, t) {
      RefusalLeavesNames(TAKEN, LATECOMER, t);
      assert Reached(TAKEN, LATECOMER, Tool)[0].name == "a";
    }
  }

  // The run: the registration is refused, and the tool a stays bound to q, which is no plugin.
  method RefuseSecondTool() returns (registry: Registry, first: bool, second: bool)
    ensures fresh(registry)
    ensures first && !second && registry.manifests == map["p" := OWNER]
    ensures Binds(registry.Contents(), Tool, "a", "q") && !Agrees(registry.Contents())
  {
    hide Normalize, IsBlankTest, Agrees, IsAttempted, Sound, CanRegister, IsRegistered, IsNewcomer, Binds;
    PluginsAreNormal();
    TakenAgrees();
    registry := new Registry();
    EmptyIsSound(OnlySpace);
    FirstFits();
    first := registry.RegisterManifest(OnlySpace, OWNER);
    OnlyTaken(registry.Contents());
    SecondToolIsRefused(registry.Contents());
    second := registry.RegisterManifest(OnlySpace, LATECOMER);
    SecondToolIsRefused(registry.Contents());
    AttemptKeepsManifests(registry.Contents());
  }

  lemma FirstFits()
    ensures CanRegister(OnlySpace, EMPTY, OWNER)
  {
    hide Normalize;
    PluginsAreNormal();
  }

  lemma OnlyTaken(t: State)
    ensures IsRegistered(EMPTY, OWNER, t) && Agrees(t) ==> t == TAKEN
  {
    hide Agrees, IsBound;
    TakenAgrees();
    if IsRegistered(EMPTY, OWNER, t) && Agrees(t) {
      AgreementIsUnique(t, TAKEN);
    }
  }

  lemma AttemptKeepsManifests(t: State)
    ensures IsAttempted(TAKEN, LATECOMER, t) ==> t.manifests == TAKEN.manifests
  {
    hide IsBound, Reached;
  }
}
