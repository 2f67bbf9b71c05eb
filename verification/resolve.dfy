/** The resolution cascade of asdf's `resolve` package: which versions of one
    tool are active for a directory. An environment override wins; otherwise
    the directories from the start up to the root are searched, in each one the
    pin file (`.tool-versions`) first and then the plugin's legacy files, and
    the home directory is tried once at the root.

    Process environment, filesystem and the foreign collaborators are injected
    as values: see `Host`, `Config` and `Plugin`. */
module Resolve {
  import opened Oracles
  import opened GoStrings
  import Paths

  // ---------------------------------------------------------------------------
  // Data model
  // ---------------------------------------------------------------------------

  /** `ToolVersions`: the versions found for a tool, the directory they were
      found in ("" for the environment) and their source (a variable name or a
      file name). */
  datatype ToolVersions = ToolVersions(versions: seq<string>, directory: string, source: string)

  /** The zero value `ToolVersions{}`. */
  const NoVersions := ToolVersions([], "", "")

  /** The result triple `(versions, found, err)` of Version, findVersionsInDir
      and findVersionsInLegacyFile. */
  datatype Lookup = Lookup(tv: ToolVersions, found: bool, err: Option<Error>)
  {
    /** A directory whose lookup reports a version or an error ends the walk. */
    predicate Stops()
    {
      found || err.Some?
    }
  }

  const NotFound := Lookup(NoVersions, false, None)

  /** What `toolversions.FindToolVersions(path, name)` returns. */
  datatype PinFile = PinFile(versions: seq<string>, found: bool, err: Option<Error>)

  /** What `Plugin.ParseLegacyVersionFile(path)` returns. */
  datatype LegacyFile = LegacyFile(versions: seq<string>, err: Option<Error>)

  /** `config.Config` as the resolver uses it: the pin-file name and the
      answer of `LegacyVersionFile()`. */
  datatype Config = Config(toolVersionsFilename: string, legacyVersionFile: Result<bool>)

  /** `plugins.Plugin`: its name, the answer of `LegacyFilenames()` and the
      legacy-file parser. */
  datatype Plugin = Plugin(
    name: string,
    legacyFilenames: Result<seq<string>>,
    parseLegacyVersionFile: string -> LegacyFile)

  /** What the resolver reads from the outside world: the environment
      (`os.Getenv`), the paths for which `os.Stat` succeeds, the answer of
      `os.UserHomeDir` and the pin-file parser. */
  datatype Host = Host(
    env: map<string, string>,
    files: set<string>,
    home: Option<string>,
    findToolVersions: (string, string) -> PinFile)

  // ---------------------------------------------------------------------------
  // The environment override
  // ---------------------------------------------------------------------------

  /** `variableVersionName`: "ASDF_" + the upper-cased tool name + "_VERSION". */
  function VariableVersionName(toolName: string): (v: string)
    ensures |v| == |toolName| + 13
    ensures v[..5] == "ASDF_" && v[|v| - 8..] == "_VERSION"
    ensures forall i :: 0 <= i < |toolName| ==> v[5 + i] == UpperChar(toolName[i])
  {
    "ASDF_" + ToUpper(toolName) + "_VERSION"
  }

  lemma VariableVersionNameOfNodejs()
    ensures VariableVersionName("nodejs") == "ASDF_NODEJS_VERSION"
  {
    assert ToUpper("nodejs") == "NODEJS";
  }

  /** A token of a version list: not empty, no white space at either end. */
  predicate Trimmed(t: string)
  {
    |t| > 0 && !IsSpace(t[0]) && !IsSpace(t[|t| - 1])
  }

  /** The tokens of a list of pieces: every piece trimmed, the empty ones
      dropped, the rest kept in order. */
  function Tokens(pieces: seq<string>): seq<string>
  {
    if |pieces| == 0 then []
    else
      var init := Tokens(pieces[..|pieces| - 1]);
      var t := TrimSpace(pieces[|pieces| - 1]);
      if |t| > 0 then init + [t] else init
  }

  /** What `parseVersion` computes. */
  function ParseTokens(rawVersions: string): seq<string>
  {
    Tokens(Split(rawVersions, ' '))
  }

  /** `parseVersion`: split on single spaces, trim, drop the empty pieces. */
  method ParseVersion(rawVersions: string) returns (versions: seq<string>)
    ensures versions == ParseTokens(rawVersions)
  {
    versions := [];
    var pieces := Split(rawVersions, ' ');
    for i := 0 to |pieces|
      invariant versions == Tokens(pieces[..i])
    {
      var version := TrimSpace(pieces[i]);
      TokensSnoc(pieces, i);
      if |version| > 0 {
        versions := versions + [version];
      }
    }
    assert pieces[..|pieces|] == pieces;
  }

  /** One more piece adds its token, if it has one. */
  lemma TokensSnoc(pieces: seq<string>, i: nat)
    requires i < |pieces|
    ensures var t := TrimSpace(pieces[i]);
      Tokens(pieces[..i + 1]) == Tokens(pieces[..i]) + if |t| > 0 then [t] else []
  {
    assert pieces[..i + 1][..i] == pieces[..i];
  }

  /** There are at most as many tokens as pieces, and each is trimmed. */
  lemma {:induction false} TokensWellFormed(pieces: seq<string>)
    ensures |Tokens(pieces)| <= |pieces|
    ensures forall i :: 0 <= i < |Tokens(pieces)| ==> Trimmed(Tokens(pieces)[i])
  {
    if |pieces| > 0 {
      TokensWellFormed(pieces[..|pieces| - 1]);
      var i := TrimSpaceSlice(pieces[|pieces| - 1]);
    }
  }

  /** A character that no piece holds is in no token. */
  lemma {:induction false} TokensAvoid(pieces: seq<string>, c: char)
    requires forall i :: 0 <= i < |pieces| ==> c !in pieces[i]
    ensures forall i :: 0 <= i < |Tokens(pieces)| ==> c !in Tokens(pieces)[i]
  {
    if |pieces| > 0 {
      var init := pieces[..|pieces| - 1];
      TokensAvoid(init, c);
      TrimSpaceKeepsCharacters(pieces[|pieces| - 1], c);
    }
  }

  /** Pieces made only of white space give no tokens. */
  lemma {:induction false} TokensOfBlankPieces(pieces: seq<string>)
    requires forall i, k :: 0 <= i < |pieces| && 0 <= k < |pieces[i]| ==> IsSpace(pieces[i][k])
    ensures Tokens(pieces) == []
  {
    if |pieces| > 0 {
      TokensOfBlankPieces(pieces[..|pieces| - 1]);
      var last := pieces[|pieces| - 1];
      assert forall k :: 0 <= k < |last| ==> IsSpace(last[k]);
      TrimSpaceOfBlank(last);
    }
  }

  /** Every token of a parsed value is non-empty, has no white space at either
      end and no space inside. */
  lemma ParseTokensWellFormed(rawVersions: string)
    ensures forall t :: t in ParseTokens(rawVersions) ==> Trimmed(t) && ' ' !in t
  {
    var r := ParseTokens(rawVersions);
    SplitPieces(rawVersions, ' ');
    TokensWellFormed(Split(rawVersions, ' '));
    TokensAvoid(Split(rawVersions, ' '), ' ');
    forall t | t in r
      ensures Trimmed(t) && ' ' !in t
    {
      var i :| 0 <= i < |r| && r[i] == t;
    }
  }

  /** A value made only of white space has no tokens. */
  lemma ParseTokensOfBlank(rawVersions: string)
    requires forall k :: 0 <= k < |rawVersions| ==> IsSpace(rawVersions[k])
    ensures ParseTokens(rawVersions) == []
  {
    var pieces := Split(rawVersions, ' ');
    forall i, k | 0 <= i < |pieces| && 0 <= k < |pieces[i]|
      ensures IsSpace(pieces[i][k])
    {
      var c := pieces[i][k];
      if !IsSpace(c) {
        SplitKeepsCharacters(rawVersions, ' ', c);
        assert false;
      }
    }
    TokensOfBlankPieces(pieces);
  }

  lemma {:induction false} TokensOfTrimmed(ts: seq<string>)
    requires forall i :: 0 <= i < |ts| ==> Trimmed(ts[i])
    ensures Tokens(ts) == ts
  {
    if |ts| > 0 {
      var init, last := ts[..|ts| - 1], ts[|ts| - 1];
      assert forall i :: 0 <= i < |init| ==> init[i] == ts[i];
      TokensOfTrimmed(init);
      TrimSpaceOfTrimmed(last);
      assert ts == init + [last];
    }
  }

  /** Round trip: tokens written out separated by single spaces parse back to
      themselves. */
  lemma ParseJoinedTokens(ts: seq<string>)
    requires forall t :: t in ts ==> Trimmed(t) && ' ' !in t
    ensures ParseTokens(Join(ts, ' ')) == ts
  {
    if |ts| == 0 {
      assert Split("", ' ') == [""];
      assert TrimSpace("") == "";
    } else {
      forall i | 0 <= i < |ts|
        ensures Trimmed(ts[i]) && ' ' !in ts[i]
      {
        assert ts[i] in ts;
      }
      SplitJoin(ts, ' ');
      TokensOfTrimmed(ts);
    }
  }

  /** The result of `findVersionsInEnv`: the tokens, the variable name, found. */
  datatype EnvVersions = EnvVersions(versions: seq<string>, variable: string, found: bool)

  /** `findVersionsInEnv`: the override is found exactly when its variable is
      set to something other than "", and then every version it lists is a
      well-formed token. */
  function FindVersionsInEnv(env: map<string, string>, pluginName: string): (r: EnvVersions)
    ensures r.variable == VariableVersionName(pluginName)
    ensures r.found <==> Getenv(env, r.variable) != ""
    ensures forall t :: t in r.versions ==> Trimmed(t) && ' ' !in t
  {
    var envVariableName := VariableVersionName(pluginName);
    var versionString := Getenv(env, envVariableName);
    ParseTokensWellFormed(versionString);
    if versionString == "" then EnvVersions([], envVariableName, false)
    else EnvVersions(ParseTokens(versionString), envVariableName, true)
  }

  /** A variable holding only spaces is found, with no versions. */
  lemma EnvBlankValueIsFound(env: map<string, string>, pluginName: string)
    requires VariableVersionName(pluginName) in env
    requires env[VariableVersionName(pluginName)] != ""
    requires forall c :: c in env[VariableVersionName(pluginName)] ==> IsSpace(c)
    ensures FindVersionsInEnv(env, pluginName) == EnvVersions([], VariableVersionName(pluginName), true)
  {
    var value := env[VariableVersionName(pluginName)];
    assert forall k :: 0 <= k < |value| ==> value[k] in value;
    ParseTokensOfBlank(value);
  }

  // ---------------------------------------------------------------------------
  // Legacy files
  // ---------------------------------------------------------------------------

  /** The index of the first candidate file that exists in `dir`. */
  function FirstExisting(files: set<string>, dir: string, names: seq<string>): (r: Option<nat>)
    ensures r.Some? ==> r.value < |names| && Paths.Join(dir, names[r.value]) in files
    ensures r.Some? ==> forall j :: 0 <= j < r.value ==> Paths.Join(dir, names[j]) !in files
    ensures r.None? ==> forall j :: 0 <= j < |names| ==> Paths.Join(dir, names[j]) !in files
  {
    if |names| == 0 then None
    else if Paths.Join(dir, names[0]) in files then Some(0)
    else
      match FirstExisting(files, dir, names[1..])
      case None => None
      case Some(i) => Some(i + 1)
  }

  /** A legacy parse that yields nothing usable: no token, or one empty token. */
  predicate Degenerate(versions: seq<string>)
  {
    |versions| == 0 || (|versions| == 1 && versions[0] == "")
  }

  /** What `findVersionsInLegacyFile` computes: only the first existing
      candidate is parsed; a degenerate parse is "not found" without error. */
  function LegacyLookup(plugin: Plugin, files: set<string>, dir: string): (r: Lookup)
    ensures plugin.legacyFilenames.Err? ==> r == Lookup(NoVersions, false, Some(plugin.legacyFilenames.error))
    ensures plugin.legacyFilenames.Ok? && FirstExisting(files, dir, plugin.legacyFilenames.value).None? ==> r == NotFound
    ensures !r.Stops() ==> r == NotFound
    ensures r.found ==> r.err.None? && !Degenerate(r.tv.versions) && r.tv.directory == dir
    ensures r.found ==> plugin.legacyFilenames.Ok? && r.tv.source in plugin.legacyFilenames.value
  {
    match plugin.legacyFilenames
    case Err(e) => Lookup(NoVersions, false, Some(e))
    case Ok(names) =>
      match FirstExisting(files, dir, names)
      case None => NotFound
      case Some(i) =>
        var parsed := plugin.parseLegacyVersionFile(Paths.Join(dir, names[i]));
        if Degenerate(parsed.versions) then NotFound
        else Lookup(ToolVersions(parsed.versions, dir, names[i]), parsed.err.None?, parsed.err)
  }

  /** `findVersionsInLegacyFile`. */
  method FindVersionsInLegacyFile(plugin: Plugin, host: Host, directory: string) returns (r: Lookup)
    ensures r == LegacyLookup(plugin, host.files, directory)
  {
    if plugin.legacyFilenames.Err? {
      return Lookup(NoVersions, false, Some(plugin.legacyFilenames.error));
    }
    var legacyFileNames := plugin.legacyFilenames.value;
    for i := 0 to |legacyFileNames|
      invariant forall j :: 0 <= j < i ==> Paths.Join(directory, legacyFileNames[j]) !in host.files
    {
      var filename := legacyFileNames[i];
      var filepath := Paths.Join(directory, filename);
      if filepath in host.files {
        var versionsSlice := plugin.parseLegacyVersionFile(filepath);
        if |versionsSlice.versions| == 0 || (|versionsSlice.versions| == 1 && versionsSlice.versions[0] == "") {
          return NotFound;
        }
        return Lookup(ToolVersions(versionsSlice.versions, directory, filename), versionsSlice.err.None?, versionsSlice.err);
      }
    }
    return NotFound;
  }

  /** Candidates after the first existing one are never looked at: replacing
      them changes nothing. */
  lemma LegacyLaterCandidatesUnused(
    plugin: Plugin, files: set<string>, dir: string,
    before: seq<string>, name: string, after: seq<string>, after': seq<string>)
    requires plugin.legacyFilenames == Ok(before + [name] + after)
    requires Paths.Join(dir, name) in files
    requires forall n :: n in before ==> Paths.Join(dir, n) !in files
    ensures LegacyLookup(plugin, files, dir)
         == LegacyLookup(plugin.(legacyFilenames := Ok(before + [name] + after')), files, dir)
  {
    var names, names' := before + [name] + after, before + [name] + after';
    forall j | 0 <= j < |before|
      ensures Paths.Join(dir, names[j]) !in files && Paths.Join(dir, names'[j]) !in files
    {
      assert names[j] == names'[j] == before[j] && before[j] in before;
    }
    assert names[|before|] == names'[|before|] == name;
    assert FirstExisting(files, dir, names) == Some(|before|);
    assert FirstExisting(files, dir, names') == Some(|before|);
  }

  /** A degenerate parse of the first existing candidate is "not found", and
      any error of that parse is dropped. */
  lemma LegacyDegenerateHidesError(plugin: Plugin, files: set<string>, dir: string, i: nat)
    requires plugin.legacyFilenames.Ok?
    requires FirstExisting(files, dir, plugin.legacyFilenames.value) == Some(i)
    requires Degenerate(plugin.parseLegacyVersionFile(
      Paths.Join(dir, plugin.legacyFilenames.value[i])).versions)
    ensures LegacyLookup(plugin, files, dir) == NotFound
  {
  }

  /** A usable parse of the first existing candidate is found exactly when the
      parser reported no error; its error, if any, is passed on. */
  lemma LegacyFoundUnlessParseError(plugin: Plugin, files: set<string>, dir: string, i: nat)
    requires plugin.legacyFilenames.Ok?
    requires FirstExisting(files, dir, plugin.legacyFilenames.value) == Some(i)
    requires !Degenerate(plugin.parseLegacyVersionFile(
      Paths.Join(dir, plugin.legacyFilenames.value[i])).versions)
    ensures var parsed := plugin.parseLegacyVersionFile(Paths.Join(dir, plugin.legacyFilenames.value[i]));
      && LegacyLookup(plugin, files, dir).found == parsed.err.None?
      && LegacyLookup(plugin, files, dir).err == parsed.err
      && LegacyLookup(plugin, files, dir).tv
        == ToolVersions(parsed.versions, dir, plugin.legacyFilenames.value[i])
  {
  }

  // ---------------------------------------------------------------------------
  // One directory
  // ---------------------------------------------------------------------------

  /** `findVersionsInDir`: the pin file first, then the legacy files if the
      configuration enables them. A result that does not stop the walk carries
      nothing; a found result names `directory`; and every error comes from
      the pin-file parser of an existing pin file, from the legacy flag or from
      the legacy lookup, never from a missing file. */
  function FindVersionsInDir(conf: Config, plugin: Plugin, host: Host, directory: string): (r: Lookup)
    ensures !r.Stops() ==> r == NotFound
    ensures r.found ==> r.tv.directory == directory
    ensures r.err.Some? ==>
      || (Paths.Join(directory, conf.toolVersionsFilename) in host.files
          && r.err == host.findToolVersions(Paths.Join(directory, conf.toolVersionsFilename), plugin.name).err)
      || conf.legacyVersionFile == Err(r.err.value)
      || (conf.legacyVersionFile == Ok(true) && r.err == LegacyLookup(plugin, host.files, directory).err)
  {
    var filepath := Paths.Join(directory, conf.toolVersionsFilename);
    var pin := host.findToolVersions(filepath, plugin.name);
    if filepath in host.files && (pin.found || pin.err.Some?) then
      Lookup(ToolVersions(pin.versions, directory, conf.toolVersionsFilename), pin.found, pin.err)
    else
      match conf.legacyVersionFile
      case Err(e) => Lookup(NoVersions, false, Some(e))
      case Ok(legacyFiles) =>
        if legacyFiles then
          var legacy := LegacyLookup(plugin, host.files, directory);
          if legacy.found || legacy.err.Some? then legacy else NotFound
        else NotFound
  }

  /** A pin file that reports a version or an error decides the directory:
      the legacy flag and the legacy callbacks are not consulted. */
  lemma PinFileShortCircuits(conf: Config, plugin: Plugin, host: Host, directory: string,
                             legacyFlag: Result<bool>, legacyFilenames: Result<seq<string>>)
    requires Paths.Join(directory, conf.toolVersionsFilename) in host.files
    requires host.findToolVersions(Paths.Join(directory, conf.toolVersionsFilename), plugin.name).found
          || host.findToolVersions(Paths.Join(directory, conf.toolVersionsFilename), plugin.name).err.Some?
    ensures var pin := host.findToolVersions(Paths.Join(directory, conf.toolVersionsFilename), plugin.name);
      FindVersionsInDir(conf, plugin, host, directory)
        == Lookup(ToolVersions(pin.versions, directory, conf.toolVersionsFilename), pin.found, pin.err)
    ensures FindVersionsInDir(conf, plugin, host, directory)
         == FindVersionsInDir(conf.(legacyVersionFile := legacyFlag),
                              plugin.(legacyFilenames := legacyFilenames), host, directory)
  {
  }

  /** Otherwise an error of the legacy flag is returned as it is, and legacy
      files are looked at only when the flag is true. */
  lemma LegacyFlagDecides(conf: Config, plugin: Plugin, host: Host, directory: string)
    requires var filepath := Paths.Join(directory, conf.toolVersionsFilename);
      || filepath !in host.files
      || (!host.findToolVersions(filepath, plugin.name).found && host.findToolVersions(filepath, plugin.name).err.None?)
    ensures conf.legacyVersionFile.Err? ==>
      FindVersionsInDir(conf, plugin, host, directory) == Lookup(NoVersions, false, Some(conf.legacyVersionFile.error))
    ensures conf.legacyVersionFile == Ok(false) ==> FindVersionsInDir(conf, plugin, host, directory) == NotFound
    ensures conf.legacyVersionFile == Ok(true) ==>
      FindVersionsInDir(conf, plugin, host, directory) == LegacyLookup(plugin, host.files, directory)
  {
  }

  // ---------------------------------------------------------------------------
  // The walk
  // ---------------------------------------------------------------------------

  /** `findVersionsInDir` for a fixed configuration, plugin and host, as the
      walk sees it: one lookup per directory. */
  function Probe(conf: Config, plugin: Plugin, host: Host): string -> Lookup
  {
    d => FindVersionsInDir(conf, plugin, host, d)
  }

  /** What the loop of `Version` computes along the way up `a` (the start
      directory, its parent, ..., the fixpoint of `Dir`): stop at the first
      directory that reports a version or an error (an error comes back with
      found = false); at the last one, replace its result by one probe of the
      home directory, if there is one. */
  function WalkChain(probe: string -> Lookup, home: Option<string>, a: seq<string>): Lookup
    requires |a| >= 1
  {
    var here := probe(a[0]);
    if here.err.Some? then here.(found := false)
    else if |a| == 1 then
      match home
      case None => here
      case Some(homeDir) => probe(homeDir)
    else if here.found then here
    else WalkChain(probe, home, a[1..])
  }

  /** The directories that the walk along `a` probes, in order. */
  function ChainProbes(probe: string -> Lookup, home: Option<string>, a: seq<string>): seq<string>
    requires |a| >= 1
  {
    var here := probe(a[0]);
    if here.err.Some? then [a[0]]
    else if |a| == 1 then
      match home
      case None => [a[0]]
      case Some(homeDir) => [a[0], homeDir]
    else if here.found then [a[0]]
    else [a[0]] + ChainProbes(probe, home, a[1..])
  }

  /** What `Version` computes: the environment override, else the walk. */
  function Resolution(conf: Config, plugin: Plugin, host: Host, directory: string): Lookup
  {
    var env := FindVersionsInEnv(host.env, plugin.name);
    if env.found then Lookup(ToolVersions(env.versions, "", env.variable), true, None)
    else WalkChain(Probe(conf, plugin, host), host.home, Paths.Ancestors(directory))
  }

  /** The directories `Version` probes: none when the override is set. */
  function ResolutionProbes(conf: Config, plugin: Plugin, host: Host, directory: string): seq<string>
  {
    if FindVersionsInEnv(host.env, plugin.name).found then []
    else ChainProbes(Probe(conf, plugin, host), host.home, Paths.Ancestors(directory))
  }

  /** One step of the walk along `a`, from entry `k`. */
  lemma ChainStep(probe: string -> Lookup, home: Option<string>, a: seq<string>, k: nat)
    requires k < |a|
    ensures var here := probe(a[k]);
      here.err.Some? ==>
        WalkChain(probe, home, a[k..]) == here.(found := false) && ChainProbes(probe, home, a[k..]) == [a[k]]
    ensures var here := probe(a[k]);
      here.err.None? && k == |a| - 1 && home.None? ==>
        WalkChain(probe, home, a[k..]) == here && ChainProbes(probe, home, a[k..]) == [a[k]]
    ensures var here := probe(a[k]);
      here.err.None? && k == |a| - 1 && home.Some? ==>
        WalkChain(probe, home, a[k..]) == probe(home.value)
        && ChainProbes(probe, home, a[k..]) == [a[k], home.value]
    ensures var here := probe(a[k]);
      here.err.None? && k < |a| - 1 && here.found ==>
        WalkChain(probe, home, a[k..]) == here && ChainProbes(probe, home, a[k..]) == [a[k]]
    ensures var here := probe(a[k]);
      here.err.None? && k < |a| - 1 && !here.found ==>
        WalkChain(probe, home, a[k..]) == WalkChain(probe, home, a[k + 1..])
        && ChainProbes(probe, home, a[k..]) == [a[k]] + ChainProbes(probe, home, a[k + 1..])
  {
    assert a[k..][0] == a[k];
    if k < |a| - 1 {
      assert a[k..][1..] == a[k + 1..];
    }
  }

  /** The loop of `Version`: probe `directory`, then its parent, and so on,
      with `probe` standing for `findVersionsInDir` under a fixed
      configuration and plugin. The ghost `probes` counts the calls of the
      probe. */
  method WalkUp(probe: string -> Lookup, home: Option<string>, directory: string)
    returns (r: Lookup, ghost probes: nat)
    ensures r == WalkChain(probe, home, Paths.Ancestors(directory))
    ensures probes == |ChainProbes(probe, home, Paths.Ancestors(directory))|
  {
    ghost var a := Paths.Ancestors(directory);
    ghost var k := 0;
    var versions, found, err := NoVersions, false, None;
    var dir := directory;
    probes := 0;
    while !found
      invariant k < |a| && dir == a[k]
      invariant !found ==> WalkChain(probe, home, a) == WalkChain(probe, home, a[k..])
      invariant !found ==> |ChainProbes(probe, home, a)| == probes + |ChainProbes(probe, home, a[k..])|
      invariant found ==> WalkChain(probe, home, a) == Lookup(versions, found, err)
      invariant found ==> |ChainProbes(probe, home, a)| == probes
      decreases |a| - k
    {
      var here := probe(dir);
      ChainStep(probe, home, a, k);
      versions, found, err := here.tv, here.found, here.err;
      probes := probes + 1;
      if err.Some? {
        return Lookup(versions, false, err), probes;
      }
      var nextDir := Paths.Dir(dir);
      Paths.AncestorsAt(directory, k);
      if nextDir == dir {
        match home {
          case None =>
          case Some(homeDir) =>
            var atHome := probe(homeDir);
            versions, found, err := atHome.tv, atHome.found, atHome.err;
            probes := probes + 1;
        }
        break;
      }
      dir := nextDir;
      k := k + 1;
    }
    r := Lookup(versions, found, err);
  }

  /** `Version`: resolves a tool to its versions for a directory: the
      environment override if it is set, else the walk up from `directory`.
      The ghost `probes` counts the calls of findVersionsInDir. */
  method Version(conf: Config, plugin: Plugin, host: Host, directory: string)
    returns (r: Lookup, ghost probes: nat)
    ensures r == Resolution(conf, plugin, host, directory)
    ensures probes == |ResolutionProbes(conf, plugin, host, directory)|
  {
    var env := FindVersionsInEnv(host.env, plugin.name);
    if env.found {
      return Lookup(ToolVersions(env.versions, "", env.variable), true, None), 0;
    }
    r, probes := WalkUp(Probe(conf, plugin, host), host.home, directory);
  }

  // ---------------------------------------------------------------------------
  // Properties of the resolution
  // ---------------------------------------------------------------------------

  /** A set override wins: its tokens are returned with the variable as the
      source and no directory, and no directory is probed. */
  lemma EnvOverrideWins(conf: Config, plugin: Plugin, host: Host, directory: string)
    requires Getenv(host.env, VariableVersionName(plugin.name)) != ""
    ensures Resolution(conf, plugin, host, directory)
         == Lookup(ToolVersions(ParseTokens(Getenv(host.env, VariableVersionName(plugin.name))), "",
                                VariableVersionName(plugin.name)), true, None)
    ensures ResolutionProbes(conf, plugin, host, directory) == []
  {
  }

  /** The walk returns the result of the first directory on the way up that
      stops it, when that directory is below the fixpoint; an error comes back
      with found = false. */
  lemma {:induction false} WalkFirstStop(probe: string -> Lookup, home: Option<string>, a: seq<string>, k: nat)
    requires k < |a| - 1
    requires probe(a[k]).Stops()
    requires forall j :: 0 <= j < k ==> !probe(a[j]).Stops()
    ensures var hit := probe(a[k]);
      WalkChain(probe, home, a) == if hit.err.Some? then hit.(found := false) else hit
    decreases k
  {
    if k > 0 {
      assert !probe(a[0]).Stops();
      var up := a[1..];
      assert up[k - 1] == a[k];
      assert forall j :: 0 <= j < k - 1 ==> up[j] == a[j + 1];
      WalkFirstStop(probe, home, up, k - 1);
    }
  }

  /** ... and only the way up to that directory is probed. */
  lemma {:induction false} WalkProbesFirstStop(probe: string -> Lookup, home: Option<string>, a: seq<string>, k: nat)
    requires k < |a| - 1
    requires probe(a[k]).Stops()
    requires forall j :: 0 <= j < k ==> !probe(a[j]).Stops()
    ensures ChainProbes(probe, home, a) == a[..k + 1]
    decreases k
  {
    if k > 0 {
      assert !probe(a[0]).Stops();
      var up := a[1..];
      assert up[k - 1] == a[k];
      assert forall j :: 0 <= j < k - 1 ==> up[j] == a[j + 1];
      WalkProbesFirstStop(probe, home, up, k - 1);
      assert a[..k + 1] == [a[0]] + up[..k];
    }
  }

  /** When nothing below the fixpoint stops the walk, the fixpoint decides:
      its error comes back with found = false; otherwise, if the home
      directory is known, one probe of it replaces the fixpoint's result, even
      a found one. */
  lemma {:induction false} WalkReachesFixpoint(probe: string -> Lookup, home: Option<string>, a: seq<string>)
    requires |a| >= 1
    requires forall j :: 0 <= j < |a| - 1 ==> !probe(a[j]).Stops()
    ensures var root := probe(a[|a| - 1]);
      WalkChain(probe, home, a)
        == if root.err.Some? then root.(found := false)
           else if home.None? then root
           else probe(home.value)
    decreases |a|
  {
    if |a| > 1 {
      assert !probe(a[0]).Stops();
      var up := a[1..];
      assert up[|up| - 1] == a[|a| - 1];
      assert forall j :: 0 <= j < |up| - 1 ==> up[j] == a[j + 1];
      WalkReachesFixpoint(probe, home, up);
    }
  }

  /** ... and the whole way up is probed, then the home directory once. */
  lemma {:induction false} WalkProbesReachFixpoint(probe: string -> Lookup, home: Option<string>, a: seq<string>)
    requires |a| >= 1
    requires forall j :: 0 <= j < |a| - 1 ==> !probe(a[j]).Stops()
    ensures probe(a[|a| - 1]).err.Some? || home.None? ==> ChainProbes(probe, home, a) == a
    ensures probe(a[|a| - 1]).err.None? && home.Some? ==> ChainProbes(probe, home, a) == a + [home.value]
    decreases |a|
  {
    if |a| > 1 {
      assert !probe(a[0]).Stops();
      var up := a[1..];
      assert up[|up| - 1] == a[|a| - 1];
      forall j | 0 <= j < |up| - 1
        ensures !probe(up[j]).Stops()
      {
        assert up[j] == a[j + 1];
      }
      WalkProbesReachFixpoint(probe, home, up);
      assert a == [a[0]] + up;
      if probe(a[|a| - 1]).err.Some? || home.None? {
        calc {
          ChainProbes(probe, home, a);
          [a[0]] + ChainProbes(probe, home, up);
          [a[0]] + up;
        }
      } else {
        calc {
          ChainProbes(probe, home, a);
          [a[0]] + ChainProbes(probe, home, up);
          [a[0]] + (up + [home.value]);
          { assert [a[0]] + (up + [home.value]) == ([a[0]] + up) + [home.value]; }
          a + [home.value];
        }
      }
    }
  }

  /** The first index at most `k` whose directory stops the walk. */
  lemma FirstStop(probe: string -> Lookup, a: seq<string>, k: nat) returns (m: nat)
    requires k < |a| && probe(a[k]).Stops()
    ensures m <= k && probe(a[m]).Stops()
    ensures forall j :: 0 <= j < m ==> !probe(a[j]).Stops()
  {
    m := 0;
    while !probe(a[m]).Stops()
      invariant m <= k
      invariant forall j :: 0 <= j < m ==> !probe(a[j]).Stops()
      decreases k - m
    {
      m := m + 1;
    }
  }

  /** The probed directories are a prefix of the way up from the start
      directory, or the whole way up followed by the home directory: the home
      directory is probed at most once, only after the fixpoint, and never
      walked from. */
  lemma WalkProbesShape(conf: Config, plugin: Plugin, host: Host, directory: string)
    ensures var a := Paths.Ancestors(directory);
      var p := ResolutionProbes(conf, plugin, host, directory);
      || (|p| <= |a| && p == a[..|p|])
      || (host.home.Some? && p == a + [host.home.value])
  {
    var a := Paths.Ancestors(directory);
    var probe := Probe(conf, plugin, host);
    if FindVersionsInEnv(host.env, plugin.name).found {
    } else if k :| 0 <= k < |a| - 1 && probe(a[k]).Stops() {
      var m := FirstStop(probe, a, k);
      WalkProbesFirstStop(probe, host.home, a, m);
    } else {
      WalkProbesReachFixpoint(probe, host.home, a);
      assert a[..|a|] == a;
    }
  }

  /** The root's own result is discarded when the home directory is known:
      a pin file at "/" that names the tool does not count if the home
      directory has none. */
  lemma RootPinIgnoredWhenHomeKnown(conf: Config, plugin: Plugin, host: Host)
    requires Getenv(host.env, VariableVersionName(plugin.name)) == ""
    requires host.home.Some?
    requires FindVersionsInDir(conf, plugin, host, "/").found
    requires FindVersionsInDir(conf, plugin, host, "/").err.None?
    requires FindVersionsInDir(conf, plugin, host, host.home.value) == NotFound
    ensures !Resolution(conf, plugin, host, "/").found
    ensures ResolutionProbes(conf, plugin, host, "/") == ["/", host.home.value]
  {
  }
}
