/**
 * Building the launch command of a game (launchGame, without the process
 * spawn): the libretro core is chosen by the game's extension, and the
 * placeholders of the system's command template are substituted in a
 * fixed order.
 */
module Launch {
  import opened Paths
  import opened Template

  /** A libretro core a system can run, with the extensions it accepts and its priority (1 = default). */
  datatype CoreInfo = CoreInfo(name: string, fullName: string, extensions: seq<string>, priority: int)

  const CORES_DIR: string := "/opt/retropangui/libretro/cores/"
  const CORE_SUFFIX: string := "_libretro.so"
  const CONFIGS_DIR: string := "/home/pangui/share/system/configs/cores/"
  const CONFIG_FILE: string := "/retroarch.cfg"

  /** The environment a system shares with its files: the command template and the cores. */
  class SystemEnvData {
    var launchCommand: string
    var cores: seq<CoreInfo>

    constructor (launchCommand: string, cores: seq<CoreInfo>)
      ensures this.launchCommand == launchCommand && this.cores == cores
    {
      this.launchCommand := launchCommand;
      this.cores := cores;
    }
  }

  /** Whether the core `c` is one the search settles on for extension `ext`. */
  predicate Settles(c: CoreInfo, ext: string)
  {
    ext in c.extensions && c.name != ""
  }

  /**
   * The search over the cores in list order: the index of the first core
   * that accepts the extension and has a name, or |cores| when there is none.
   */
  function MatchIndex(cores: seq<CoreInfo>, ext: string): (i: nat)
    ensures i <= |cores|
    ensures forall j :: 0 <= j < i ==> !Settles(cores[j], ext)
    ensures i < |cores| ==> Settles(cores[i], ext)
  {
    if cores == [] then 0
    else if Settles(cores[0], ext) then 0
    else
      var i := MatchIndex(cores[1..], ext);
      assert forall j :: 1 <= j < |cores| ==> cores[1..][j - 1] == cores[j];
      i + 1
  }

  /** The name the search settles on, or "" when no core settles. */
  function FirstMatch(cores: seq<CoreInfo>, ext: string): (name: string)
    ensures name == "" <==> forall i :: 0 <= i < |cores| ==> !Settles(cores[i], ext)
    ensures name != "" ==> name == cores[MatchIndex(cores, ext)].name
  {
    var i := MatchIndex(cores, ext);
    if i < |cores| then cores[i].name else ""
  }

  /** The chosen core: the first match, else the first core of the list, else none (""). */
  function ChosenCore(cores: seq<CoreInfo>, ext: string): (name: string)
    ensures FirstMatch(cores, ext) != "" ==> name == FirstMatch(cores, ext)
    ensures FirstMatch(cores, ext) == "" && cores != [] ==> name == cores[0].name
    ensures cores == [] ==> name == ""
  {
    var m := FirstMatch(cores, ext);
    if m == "" && cores != [] then cores[0].name else m
  }

  /** The path a chosen core is loaded from. */
  function CorePath(core: string): string
  {
    CORES_DIR + core + CORE_SUFFIX
  }

  /** The per-system RetroArch configuration. */
  function ConfigPath(systemName: string): string
  {
    CONFIGS_DIR + systemName + CONFIG_FILE
  }

  /** Whether the template asks for a core at all. */
  predicate NeedsCore(template: string)
  {
    Contains(template, "%CORE%") || Contains(template, "%CONFIG%")
  }

  /** The core step: %CORE% only when a core was chosen, %CONFIG% always. */
  function CoreStep(template: string, cores: seq<CoreInfo>, ext: string, systemName: string): string
  {
    var core := ChosenCore(cores, ext);
    var withCore := if core != "" then ReplaceAll(template, "%CORE%", CorePath(core)) else template;
    ReplaceAll(withCore, "%CONFIG%", ConfigPath(systemName))
  }

  /**
   * The command for the game at `path`: the core step when the template
   * asks for it, then %ROM% (the shell-escaped path), %BASENAME% (the
   * stem) and %ROM_RAW% (the path as is), in that order. A template
   * without placeholders is the command itself.
   */
  function Command(template: string, cores: seq<CoreInfo>, path: string, systemName: string): (r: string)
    ensures (!NeedsCore(template) && !Contains(template, "%ROM%") && !Contains(template, "%BASENAME%")
             && !Contains(template, "%ROM_RAW%")) ==> r == template
  {
    var c := if NeedsCore(template) then CoreStep(template, cores, Extension(path), systemName) else template;
    var c1 := ReplaceAll(c, "%ROM%", EscapedPath(path));
    var c2 := ReplaceAll(c1, "%BASENAME%", Stem(path));
    var r := ReplaceAll(c2, "%ROM_RAW%", path);
    assert (!NeedsCore(template) && !Contains(template, "%ROM%") && !Contains(template, "%BASENAME%")
            && !Contains(template, "%ROM_RAW%")) ==> r == template by {
      if !NeedsCore(template) && !Contains(template, "%ROM%") && !Contains(template, "%BASENAME%")
         && !Contains(template, "%ROM_RAW%") {
        ReplaceAbsent(template, "%ROM%", EscapedPath(path));
        ReplaceAbsent(template, "%BASENAME%", Stem(path));
        ReplaceAbsent(template, "%ROM_RAW%", path);
      }
    }
    r
  }

  /** The search loop over the cores and their extensions, as launchGame runs it. */
  method SelectCore(cores: seq<CoreInfo>, gameExt: string) returns (selected: string)
    ensures selected == ChosenCore(cores, gameExt)
  {
    selected := "";
    var i := 0;
    while i < |cores|
      invariant 0 <= i <= |cores|
      invariant selected == "" && forall j :: 0 <= j < i ==> !Settles(cores[j], gameExt)
    {
      var core := cores[i];
      var k := 0;
      while k < |core.extensions|
        invariant 0 <= k <= |core.extensions|
        invariant selected == "" && gameExt !in core.extensions[..k]
      {
        if core.extensions[k] == gameExt {
          selected := core.name;
          break;
        }
        assert core.extensions[..k + 1] == core.extensions[..k] + [core.extensions[k]];
        k := k + 1;
      }
      assert core.extensions[..|core.extensions|] == core.extensions;
      if selected != "" {
        assert Settles(cores[i], gameExt) && cores[i].name == selected;
        break;
      }
      assert !Settles(core, gameExt);
      i := i + 1;
    }
    if selected == "" && |cores| > 0 {
      selected := cores[0].name;
    }
  }

  /** launchGame's rewriting of the command, step by step. */
  method BuildCommand(env: SystemEnvData, path: string, systemName: string) returns (command: string)
    ensures command == Command(env.launchCommand, env.cores, path, systemName)
  {
    command := env.launchCommand;
    if Contains(command, "%CORE%") || Contains(command, "%CONFIG%") {
      var gameExt := Extension(path);
      var selectedCore := SelectCore(env.cores, gameExt);
      if selectedCore != "" {
        command := ReplaceAll(command, "%CORE%", CorePath(selectedCore));
      }
      command := ReplaceAll(command, "%CONFIG%", ConfigPath(systemName));
    }
    command := ReplaceAll(command, "%ROM%", EscapedPath(path));
    command := ReplaceAll(command, "%BASENAME%", Stem(path));
    command := ReplaceAll(command, "%ROM_RAW%", path);
  }

  // ---------------------------------------------------------------------
  // The command as the template with its placeholders filled in

  /** The value %CORE% takes: the chosen core's library, or nothing when no core was chosen. */
  function CoreValue(core: string): map<string, string>
  {
    if core != "" then map["CORE" := CorePath(core)] else map[]
  }

  /** The values of the placeholders for launching the game at `path`. */
  function Values(cores: seq<CoreInfo>, path: string, systemName: string): map<string, string>
  {
    CoreValue(ChosenCore(cores, Extension(path))) + map["CONFIG" := ConfigPath(systemName)]
    + map["ROM" := EscapedPath(path)] + map["BASENAME" := Stem(path)] + map["ROM_RAW" := path]
  }

  /** Core names, the path and the system name are free of '%'. */
  predicate PlainInputs(cores: seq<CoreInfo>, path: string, systemName: string)
  {
    && '%' !in path && '%' !in systemName
    && forall i :: 0 <= i < |cores| ==> '%' !in cores[i].name
  }

  lemma CorePathPlain(core: string)
    requires '%' !in core
    ensures '%' !in CorePath(core)
  {
    assert '%' !in CORES_DIR;
    assert '%' !in CORE_SUFFIX;
  }

  lemma ConfigPathPlain(systemName: string)
    requires '%' !in systemName
    ensures '%' !in ConfigPath(systemName)
  {
    assert '%' !in CONFIGS_DIR;
    assert '%' !in CONFIG_FILE;
  }

  /** The chosen core is one of the cores, or none. */
  lemma ChosenIsCore(cores: seq<CoreInfo>, ext: string)
    ensures var core := ChosenCore(cores, ext);
      core == "" || exists i :: 0 <= i < |cores| && cores[i].name == core
  {
  }

  /** None of the values a placeholder takes holds a '%'. */
  lemma PlainValues(cores: seq<CoreInfo>, path: string, systemName: string)
    requires PlainInputs(cores, path, systemName)
    ensures forall k :: k in Values(cores, path, systemName) ==> '%' !in Values(cores, path, systemName)[k]
  {
    var core := ChosenCore(cores, Extension(path));
    ChosenIsCore(cores, Extension(path));
    if core != "" {
      CorePathPlain(core);
    }
    ConfigPathPlain(systemName);
    EscapedChars(path);
    NameChars(path);
  }

  /** The five placeholder names are valid names, and their placeholders are the strings launchGame looks for. */
  lemma Names()
    ensures ValidName("CORE") && Placeholder("CORE") == "%CORE%"
    ensures ValidName("CONFIG") && Placeholder("CONFIG") == "%CONFIG%"
    ensures ValidName("ROM") && Placeholder("ROM") == "%ROM%"
    ensures ValidName("BASENAME") && Placeholder("BASENAME") == "%BASENAME%"
    ensures ValidName("ROM_RAW") && Placeholder("ROM_RAW") == "%ROM_RAW%"
  {
  }

  /** With a core chosen, the core step fills %CORE% and then %CONFIG%. */
  lemma CoreThenConfig(ps: seq<Piece>, corePath: string, configPath: string)
    requires WellFormed(ps) && '%' !in corePath && '%' !in configPath
    ensures ReplaceAll(ReplaceAll(Render(ps), "%CORE%", corePath), "%CONFIG%", configPath)
            == Render(Fill(ps, map["CORE" := corePath] + map["CONFIG" := configPath]))
  {
    Names();
    FillAbsent(ps, map[]);
    ReplaceFilled(ps, map[], "CORE", corePath);
    assert map[] + map["CORE" := corePath] == map["CORE" := corePath];
    var withCore := ReplaceAll(Render(ps), "%CORE%", corePath);
    assert withCore == Render(Fill(ps, map["CORE" := corePath]));
    ReplaceFilled(ps, map["CORE" := corePath], "CONFIG", configPath);
  }

  /** With no core chosen, the core step fills %CONFIG% only. */
  lemma ConfigOnly(ps: seq<Piece>, configPath: string)
    requires WellFormed(ps) && '%' !in configPath
    ensures ReplaceAll(Render(ps), "%CONFIG%", configPath) == Render(Fill(ps, map[] + map["CONFIG" := configPath]))
  {
    Names();
    ReplaceFilled(ps, map[], "CONFIG", configPath);
    FillAbsent(ps, map[]);
  }

  /** A template that does not ask for a core has neither placeholder, so the core step's fill changes nothing. */
  lemma NoCoreStep(ps: seq<Piece>, m: map<string, string>)
    requires !NeedsCore(Render(ps))
    requires forall k :: k in m ==> k == "CORE" || k == "CONFIG"
    ensures Fill(ps, m) == ps
  {
    Names();
    if HasHole(ps, "CORE") {
      ContainsHole(ps, "CORE");
    }
    if HasHole(ps, "CONFIG") {
      ContainsHole(ps, "CONFIG");
    }
    FillAbsent(ps, m);
  }

  /** The core step fills %CORE% (when a core was chosen) and %CONFIG%, or finds neither in the template. */
  lemma CoreStepFills(ps: seq<Piece>, cores: seq<CoreInfo>, path: string, systemName: string)
    requires WellFormed(ps) && PlainInputs(cores, path, systemName)
    ensures var t := Render(ps);
      var core := ChosenCore(cores, Extension(path));
      (if NeedsCore(t) then CoreStep(t, cores, Extension(path), systemName) else t)
      == Render(Fill(ps, CoreValue(core) + map["CONFIG" := ConfigPath(systemName)]))
  {
    var t := Render(ps);
    var ext := Extension(path);
    var core := ChosenCore(cores, ext);
    var cfg := ConfigPath(systemName);
    var m := CoreValue(core) + map["CONFIG" := cfg];
    ChosenIsCore(cores, ext);
    ConfigPathPlain(systemName);
    if !NeedsCore(t) {
      NoCoreStep(ps, m);
    } else if core != "" {
      CorePathPlain(core);
      CoreThenConfig(ps, CorePath(core), cfg);
      assert CoreStep(t, cores, ext, systemName) == ReplaceAll(ReplaceAll(t, "%CORE%", CorePath(core)), "%CONFIG%", cfg);
    } else {
      ConfigOnly(ps, cfg);
      assert CoreStep(t, cores, ext, systemName) == ReplaceAll(t, "%CONFIG%", cfg);
    }
  }

  /**
   * The command is the template with every placeholder replaced by its
   * value: %CORE% by the chosen core's library (left as it is when no core
   * was chosen), %CONFIG% by the system's configuration, %ROM% by the
   * escaped path, %BASENAME% by the stem and %ROM_RAW% by the path; any
   * other placeholder and all the text stay as written.
   */
  lemma CommandFills(ps: seq<Piece>, cores: seq<CoreInfo>, path: string, systemName: string)
    requires WellFormed(ps) && PlainInputs(cores, path, systemName)
    ensures Command(Render(ps), cores, path, systemName) == Render(Fill(ps, Values(cores, path, systemName)))
  {
    var t := Render(ps);
    var core := ChosenCore(cores, Extension(path));
    var m1 := CoreValue(core) + map["CONFIG" := ConfigPath(systemName)];
    var m2 := m1 + map["ROM" := EscapedPath(path)];
    var m3 := m2 + map["BASENAME" := Stem(path)];
    PlainValues(cores, path, systemName);
    assert m1.Keys <= {"CORE", "CONFIG"} && m2.Keys <= {"CORE", "CONFIG", "ROM"};
    assert m3.Keys <= {"CORE", "CONFIG", "ROM", "BASENAME"};
    assert forall k :: k in m3 ==> m3[k] == Values(cores, path, systemName)[k];
    CoreStepFills(ps, cores, path, systemName);
    var c := if NeedsCore(t) then CoreStep(t, cores, Extension(path), systemName) else t;
    assert c == Render(Fill(ps, m1));
    Names();
    ReplaceFilled(ps, m1, "ROM", EscapedPath(path));
    ReplaceFilled(ps, m2, "BASENAME", Stem(path));
    ReplaceFilled(ps, m3, "ROM_RAW", path);
  }

  /** The placeholders launchGame knows. */
  const KNOWN: set<string> := {"CORE", "CONFIG", "ROM", "BASENAME", "ROM_RAW"}

  /** When a core is chosen and the template uses only known placeholders, no '%' is left in the command. */
  lemma CommandComplete(ps: seq<Piece>, cores: seq<CoreInfo>, path: string, systemName: string)
    requires WellFormed(ps) && PlainInputs(cores, path, systemName)
    requires forall i :: 0 <= i < |ps| && ps[i].Hole? ==> ps[i].name in KNOWN
    requires ChosenCore(cores, Extension(path)) != ""
    ensures '%' !in Command(Render(ps), cores, path, systemName)
  {
    CommandFills(ps, cores, path, systemName);
    PlainValues(cores, path, systemName);
    FilledHasNoPercent(ps, Values(cores, path, systemName));
  }

  /**
   * Every placeholder that gets a value is gone from the command: %CONFIG%,
   * %ROM%, %BASENAME% and %ROM_RAW% always, and %CORE% too once a core is
   * chosen.
   */
  lemma CommandReplacesAll(ps: seq<Piece>, cores: seq<CoreInfo>, path: string, systemName: string)
    requires WellFormed(ps) && PlainInputs(cores, path, systemName)
    ensures var cmd := Command(Render(ps), cores, path, systemName);
      && !Contains(cmd, "%CONFIG%") && !Contains(cmd, "%ROM%")
      && !Contains(cmd, "%BASENAME%") && !Contains(cmd, "%ROM_RAW%")
      && (ChosenCore(cores, Extension(path)) != "" ==> !Contains(cmd, "%CORE%"))
  {
    var m := Values(cores, path, systemName);
    CommandFills(ps, cores, path, systemName);
    PlainValues(cores, path, systemName);
    Names();
    ValuesKeys(cores, path, systemName);
    FilledGone(ps, m, "CONFIG");
    FilledGone(ps, m, "ROM");
    FilledGone(ps, m, "BASENAME");
    FilledGone(ps, m, "ROM_RAW");
    if ChosenCore(cores, Extension(path)) != "" {
      FilledGone(ps, m, "CORE");
    }
  }

  /** Every known placeholder gets a value, %CORE% only when a core is chosen. */
  lemma ValuesKeys(cores: seq<CoreInfo>, path: string, systemName: string)
    ensures var keys := Values(cores, path, systemName).Keys;
      && {"CONFIG", "ROM", "BASENAME", "ROM_RAW"} <= keys
      && ("CORE" in keys <==> ChosenCore(cores, Extension(path)) != "")
  {
  }

  /**
   * With no core chosen (an empty core list), %CORE% survives in the
   * command, while %CONFIG%, %ROM%, %BASENAME% and %ROM_RAW% are all
   * replaced.
   */
  lemma NoCoresLeavesCore(ps: seq<Piece>, cores: seq<CoreInfo>, path: string, systemName: string)
    requires WellFormed(ps) && PlainInputs(cores, path, systemName)
    requires ChosenCore(cores, Extension(path)) == ""
    ensures var cmd := Command(Render(ps), cores, path, systemName);
      && (HasHole(ps, "CORE") ==> Contains(cmd, "%CORE%"))
      && !Contains(cmd, "%CONFIG%") && !Contains(cmd, "%ROM%")
      && !Contains(cmd, "%BASENAME%") && !Contains(cmd, "%ROM_RAW%")
  {
    var m := Values(cores, path, systemName);
    CommandFills(ps, cores, path, systemName);
    PlainValues(cores, path, systemName);
    Names();
    NoCoreKeys(cores, path, systemName);
    if HasHole(ps, "CORE") {
      UnfilledHole(ps, m, "CORE");
      ContainsHole(Fill(ps, m), "CORE");
    }
    FilledGone(ps, m, "CONFIG");
    FilledGone(ps, m, "ROM");
    FilledGone(ps, m, "BASENAME");
    FilledGone(ps, m, "ROM_RAW");
  }

  /** With no core chosen, every placeholder but %CORE% gets a value. */
  lemma NoCoreKeys(cores: seq<CoreInfo>, path: string, systemName: string)
    requires ChosenCore(cores, Extension(path)) == ""
    ensures Values(cores, path, systemName).Keys == {"CONFIG", "ROM", "BASENAME", "ROM_RAW"}
  {
  }

  /** The example game's path needs no escaping. */
  lemma ExamplePathPlain()
    ensures EscapedPath("/roms/a.bin") == "/roms/a.bin"
  {
    var p := "/roms/a.bin";
    assert forall i :: 0 <= i < |p| ==> p[i] in {'/', 'r', 'o', 'm', 's', 'a', '.', 'b', 'i', 'n'};
    EscapedUnchanged(p);
  }

  /** The template "%ROM%" asks for no core. */
  lemma RomTemplateNeedsNoCore()
    ensures Render([Hole("ROM")]) == "%ROM%"
    ensures !NeedsCore("%ROM%")
  {
    var ps := [Hole("ROM")];
    Names();
    assert Render(ps) == "%ROM%";
    NoHoleNoText(ps, "CORE");
    NoHoleNoText(ps, "CONFIG");
  }

  /** Text without '%' contains no placeholder. */
  lemma {:induction false} PlainNoPlaceholder(s: string, pat: string)
    requires '%' !in s && pat != [] && pat[0] == '%'
    ensures !Contains(s, pat)
    decreases |s|
  {
    if |pat| <= |s| {
      assert s[..|pat|][0] == s[0] != '%';
      PlainNoPlaceholder(s[1..], pat);
    }
  }

  /** The later steps leave text without '%' as it is. */
  lemma PlainSurvives(s: string, path: string)
    requires '%' !in s
    ensures ReplaceAll(ReplaceAll(s, "%BASENAME%", Stem(path)), "%ROM_RAW%", path) == s
  {
    PlainNoPlaceholder(s, "%BASENAME%");
    ReplaceAbsent(s, "%BASENAME%", Stem(path));
    PlainNoPlaceholder(s, "%ROM_RAW%");
    ReplaceAbsent(s, "%ROM_RAW%", path);
  }

  /** A template that is one placeholder becomes the placeholder's value. */
  lemma ReplaceWhole(pat: string, v: string)
    requires pat != []
    ensures ReplaceAll(pat, pat, v) == v
  {
    assert pat[..|pat|] == pat;
    assert ReplaceAll(pat[|pat|..], pat, v) == [];
  }

  /** The template "%ROM%" goes through the %ROM% step only; the later steps then rewrite what it inserted. */
  lemma RomSteps(cores: seq<CoreInfo>, path: string, systemName: string)
    ensures Command("%ROM%", cores, path, systemName)
            == ReplaceAll(ReplaceAll(EscapedPath(path), "%BASENAME%", Stem(path)), "%ROM_RAW%", path)
  {
    RomTemplateNeedsNoCore();
    ReplaceWhole("%ROM%", EscapedPath(path));
  }

  /**
   * The template "%ROM%" launches the escaped path of the game, whatever
   * the cores and the system, when the path holds no '%'.
   */
  lemma RomOnly(cores: seq<CoreInfo>, path: string, systemName: string)
    requires '%' !in path
    ensures Command("%ROM%", cores, path, systemName) == EscapedPath(path)
  {
    RomSteps(cores, path, systemName);
    EscapedChars(path);
    PlainSurvives(EscapedPath(path), path);
  }

  /** The text a%ROM_RAW% is too short to hold %BASENAME% after its first character. */
  lemma BasenameAbsentExample(v: string)
    ensures ReplaceAll("a%ROM_RAW%", "%BASENAME%", v) == "a%ROM_RAW%"
  {
    var t := "a%ROM_RAW%";
    assert t[..10] != "%BASENAME%" by { assert t[..10][0] == 'a'; }
    assert ReplaceAll(t[1..], "%BASENAME%", v) == t[1..];
    assert [t[0]] + t[1..] == t;
  }

  /** In a%ROM_RAW% the placeholder after the first character is replaced. */
  lemma RomRawExample(v: string)
    ensures ReplaceAll("a%ROM_RAW%", "%ROM_RAW%", v) == "a" + v
  {
    var t := "a%ROM_RAW%";
    assert t[..9] != "%ROM_RAW%" by { assert t[..9][0] == 'a'; }
    assert t[1..] == "%ROM_RAW%";
    ReplaceWhole("%ROM_RAW%", v);
  }

  /**
   * Why RomOnly needs a path without '%': a path that spells %ROM_RAW%
   * has that text replaced once more by the path itself.
   */
  lemma RomPercentPath(cores: seq<CoreInfo>, systemName: string)
    ensures EscapedPath("a%ROM_RAW%") == "a%ROM_RAW%"
    ensures Command("%ROM%", cores, "a%ROM_RAW%", systemName) == "a" + "a%ROM_RAW%"
    ensures Command("%ROM%", cores, "a%ROM_RAW%", systemName) != EscapedPath("a%ROM_RAW%")
  {
    var path := "a%ROM_RAW%";
    assert forall i :: 0 <= i < |path| ==> path[i] !in ShellSpecials;
    EscapedUnchanged(path);
    RomSteps(cores, path, systemName);
    var stem := Stem(path);
    BasenameAbsentExample(stem);
    RomRawExample(path);
    calc {
      Command("%ROM%", cores, path, systemName);
      ReplaceAll(ReplaceAll(path, "%BASENAME%", stem), "%ROM_RAW%", path);
      ReplaceAll(path, "%ROM_RAW%", path);
      "a" + path;
    }
    assert |"a" + path| != |path|;
  }

  /** The template "%ROM%" for the game /roms/a.bin launches that path, which needs no escaping. */
  lemma RomExample(cores: seq<CoreInfo>)
    ensures Command("%ROM%", cores, "/roms/a.bin", "psx") == "/roms/a.bin"
  {
    RomOnly(cores, "/roms/a.bin", "psx");
    ExamplePathPlain();
  }

  /**
   * The template "%CONFIG%" launches the configuration file of the system
   * it is given, whatever the cores and the path, when the system name
   * holds no '%'.
   */
  lemma ConfigTemplate(cores: seq<CoreInfo>, path: string, systemName: string)
    requires '%' !in systemName
    ensures Command("%CONFIG%", cores, path, systemName) == ConfigPath(systemName)
  {
    var ps := [Hole("CONFIG")];
    Names();
    assert Render(ps) == "%CONFIG%";
    assert WellFormed(ps);
    NoHoleNoText(ps, "CORE");
    ReplaceAbsent("%CONFIG%", "%CORE%", CorePath(ChosenCore(cores, Extension(path))));
    assert NeedsCore("%CONFIG%");
    var cp := ConfigPath(systemName);
    ReplaceWhole("%CONFIG%", cp);
    assert CoreStep("%CONFIG%", cores, Extension(path), systemName) == cp;
    ConfigPathPlain(systemName);
    PlainNoPlaceholder(cp, "%ROM%");
    ReplaceAbsent(cp, "%ROM%", EscapedPath(path));
    PlainSurvives(cp, path);
  }

  /** Different systems have different configuration files. */
  lemma ConfigPathInjective(a: string, b: string)
    requires ConfigPath(a) == ConfigPath(b)
    ensures a == b
  {
    assert ConfigPath(a)[|CONFIGS_DIR|..|CONFIGS_DIR| + |a|] == a;
    assert ConfigPath(b)[|CONFIGS_DIR|..|CONFIGS_DIR| + |b|] == b;
  }

  /**
   * The system name that fills %CONFIG% shows in the command: launched
   * under two different system names, the same game gets two different
   * commands from the template "%CONFIG%".
   */
  lemma ConfigFollowsSystem(cores: seq<CoreInfo>, path: string, one: string, other: string)
    requires '%' !in one && '%' !in other && one != other
    ensures Command("%CONFIG%", cores, path, one) != Command("%CONFIG%", cores, path, other)
  {
    ConfigTemplate(cores, path, one);
    ConfigTemplate(cores, path, other);
    if ConfigPath(one) == ConfigPath(other) {
      ConfigPathInjective(one, other);
    }
  }

  /** The cores matter only when the template asks for %CORE% or %CONFIG%. */
  lemma CoresIrrelevant(template: string, cores: seq<CoreInfo>, cores': seq<CoreInfo>, path: string, systemName: string)
    requires !NeedsCore(template)
    ensures Command(template, cores, path, systemName) == Command(template, cores', path, systemName)
  {
  }
}
