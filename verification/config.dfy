/** Configuration loading of `internal/config/config.go`. The process
    environment is a map from variable name to value; an unset variable is
    absent from it. */
module Config {
  import opened Wrappers
  import GoStrings
  import Strconv
  import Registry

  type Env = map<string, string>

  /** `getEnv`: the variable's value, unless it is unset or empty. */
  function GetEnv(env: Env, key: string, default: string): (v: string)
    ensures key in env && env[key] != "" ==> v == env[key]
    ensures key !in env || env[key] == "" ==> v == default
  {
    if key in env && env[key] != "" then env[key] else default
  }

  /** `getEnvInt`: the value read as a decimal integer, or the default when
      the variable is unset, empty or not a 64-bit integer. */
  function GetEnvInt(env: Env, key: string, default: int): (v: int)
    ensures key in env && Strconv.Atoi(env[key]).Some? ==> v == Strconv.Atoi(env[key]).value
    ensures key !in env || Strconv.Atoi(env[key]).None? ==> v == default
  {
    var s := GetEnv(env, key, "");
    if s != "" && Strconv.Atoi(s).Some? then Strconv.Atoi(s).value else default
  }

  /** `getEnvBool`: the value read by `strconv.ParseBool`, or the default. */
  function GetEnvBool(env: Env, key: string, default: bool): (v: bool)
    ensures key in env && Strconv.ParseBool(env[key]).Some? ==> v == Strconv.ParseBool(env[key]).value
    ensures key !in env || Strconv.ParseBool(env[key]).None? ==> v == default
  {
    var s := GetEnv(env, key, "");
    if s != "" && Strconv.ParseBool(s).Some? then Strconv.ParseBool(s).value else default
  }

  /** Setting a variable to a non-empty value is what `getEnv` reads back,
      and clearing it to "" brings the default back; other variables are
      unaffected. */
  lemma GetEnvReadsBack(env: Env, key: string, other: string, v: string, default: string)
    requires other != key
    ensures v != "" ==> GetEnv(env[key := v], key, default) == v
    ensures GetEnv(env[key := ""], key, default) == default
    ensures GetEnv(env[key := v], other, default) == GetEnv(env, other, default)
  {
  }

  /** `strconv.FormatBool` written into a variable is what `getEnvBool`
      reads, and so are "1" and "0"; any other text leaves the default. */
  lemma GetEnvBoolReadsBack(env: Env, key: string, b: bool, default: bool, junk: string)
    requires junk !in {"1", "t", "T", "TRUE", "true", "True", "0", "f", "F", "FALSE", "false", "False"}
    ensures GetEnvBool(env[key := if b then "true" else "false"], key, default) == b
    ensures GetEnvBool(env[key := if b then "1" else "0"], key, default) == b
    ensures GetEnvBool(env[key := junk], key, default) == default
  {
    var t: string := if b then "true" else "false";
    assert Strconv.ParseBool(t) == Some(b);
    var d: string := if b then "1" else "0";
    assert Strconv.ParseBool(d) == Some(b);
  }

  /** Writing a 64-bit integer into a variable is what `getEnvInt` reads. */
  lemma GetEnvIntReadsBack(env: Env, key: string, n: int, default: int)
    requires -0x8000_0000_0000_0000 <= n <= 0x7FFF_FFFF_FFFF_FFFF
    ensures GetEnvInt(env[key := Strconv.Itoa(n)], key, default) == n
  {
    Strconv.AtoiItoa(n);
  }

  /** The loop shared by `parseSeeds` and `parseCapabilities`: every piece
      trimmed, the empty ones dropped, the rest kept in order (the order is
      `TrimmedPiecesAppend`). */
  function TrimmedPieces(parts: seq<string>): (r: seq<string>)
    ensures |r| <= |parts|
    ensures forall k :: 0 <= k < |r| ==> r[k] != ""
    ensures forall i :: 0 <= i < |parts| && GoStrings.TrimSpace(parts[i]) != "" ==> GoStrings.TrimSpace(parts[i]) in r
  {
    if |parts| == 0 then []
    else
      var rest := TrimmedPieces(parts[1..]);
      var piece := GoStrings.TrimSpace(parts[0]);
      assert forall i :: 1 <= i < |parts| ==> parts[i] == parts[1..][i - 1];
      if piece == "" then rest else [piece] + rest
  }

  /** Every piece, trimmed. */
  function Trims(parts: seq<string>): (r: seq<string>)
    ensures |r| == |parts| && forall i :: 0 <= i < |parts| ==> r[i] == GoStrings.TrimSpace(parts[i])
  {
    seq(|parts|, i requires 0 <= i < |parts| => GoStrings.TrimSpace(parts[i]))
  }

  /** The non-empty entries, in order. */
  function NonEmpty(xs: seq<string>): (r: seq<string>)
    ensures forall k :: 0 <= k < |r| ==> r[k] != "" && r[k] in xs
  {
    if |xs| == 0 then []
    else if xs[0] == "" then NonEmpty(xs[1..])
    else [xs[0]] + NonEmpty(xs[1..])
  }

  /** The loop is the two steps one after the other: trim every piece, then
      keep the non-empty ones in order. */
  lemma {:induction false} TrimmedPiecesTrimThenDrop(parts: seq<string>)
    ensures TrimmedPieces(parts) == NonEmpty(Trims(parts))
  {
    if |parts| > 0 {
      TrimmedPiecesTrimThenDrop(parts[1..]);
      assert Trims(parts)[1..] == Trims(parts[1..]);
      assert Trims(parts)[0] == GoStrings.TrimSpace(parts[0]);
    }
  }

  /** The pieces are kept in order: the result for two runs of pieces is the
      result for the first followed by that for the second, and one piece
      gives itself trimmed, or nothing when it is blank. */
  lemma {:induction false} TrimmedPiecesAppend(a: seq<string>, b: seq<string>, p: string)
    ensures TrimmedPieces(a + b) == TrimmedPieces(a) + TrimmedPieces(b)
    ensures TrimmedPieces([p]) == if GoStrings.TrimSpace(p) == "" then [] else [GoStrings.TrimSpace(p)]
  {
    assert [p][1..] == [];
    if |a| == 0 {
      assert a + b == b;
    } else {
      assert (a + b)[1..] == a[1..] + b;
      TrimmedPiecesAppend(a[1..], b, p);
    }
  }

  /** Trimming never brings in a comma. */
  lemma {:induction false} PiecesWithoutComma(parts: seq<string>)
    requires forall i :: 0 <= i < |parts| ==> ',' !in parts[i]
    ensures forall k :: 0 <= k < |TrimmedPieces(parts)| ==> ',' !in TrimmedPieces(parts)[k]
  {
    if |parts| > 0 {
      assert forall i :: 0 <= i < |parts[1..]| ==> ',' !in parts[1..][i] by {
        forall i | 0 <= i < |parts[1..]| ensures ',' !in parts[1..][i] {
          assert parts[1..][i] == parts[i + 1];
        }
      }
      PiecesWithoutComma(parts[1..]);
      GoStrings.TrimSpaceBytes(parts[0]);
      assert ',' !in parts[0];
    }
  }

  /** `parseSeeds`: no seeds for an empty variable, otherwise the trimmed,
      non-empty comma-separated entries (in order: `ParseSeedsCons`). */
  function ParseSeeds(s: string): (seeds: seq<string>)
    ensures s == "" ==> seeds == []
    ensures forall k :: 0 <= k < |seeds| ==> seeds[k] != "" && ',' !in seeds[k]
    ensures forall k :: 0 <= k < |seeds| ==> seeds[k] in Trims(GoStrings.Split(s, ','))
    ensures forall i :: 0 <= i < |GoStrings.Split(s, ',')| && GoStrings.TrimSpace(GoStrings.Split(s, ',')[i]) != "" ==>
      GoStrings.TrimSpace(GoStrings.Split(s, ',')[i]) in seeds
  {
    if s == "" then []
    else
      PiecesWithoutComma(GoStrings.Split(s, ','));
      TrimmedPiecesTrimThenDrop(GoStrings.Split(s, ','));
      TrimmedPieces(GoStrings.Split(s, ','))
  }

  /** The seeds of a list are read left to right: the first comma-separated
      entry, trimmed and kept unless blank, comes before the seeds of the
      rest. */
  lemma ParseSeedsCons(a: string, b: string)
    requires ',' !in a
    ensures ParseSeeds(a + "," + b) == ParseSeeds(a) + ParseSeeds(b)
    ensures ParseSeeds(a) == if GoStrings.TrimSpace(a) == "" then [] else [GoStrings.TrimSpace(a)]
  {
    GoStrings.SplitCons(a, ',', b);
    assert a + "," + b == a + [','] + b;
    TrimmedPiecesAppend([a], GoStrings.Split(b, ','), a);
    if a != "" {
      GoStrings.SplitWhole(a, ',');
    }
    if b == "" {
      assert GoStrings.Split(b, ',') == [""];
      TrimmedPiecesAppend([], [], "");
    }
  }

  /** `parseCapabilities`: "messaging" alone for an empty variable,
      otherwise the same entries `parseSeeds` would read. */
  function ParseCapabilities(s: string): (caps: seq<string>)
    ensures s == "" ==> caps == ["messaging"]
    ensures s != "" ==> caps == ParseSeeds(s)
  {
    if s == "" then ["messaging"] else TrimmedPieces(GoStrings.Split(s, ','))
  }

  /** An entry that reads back as itself: not empty, no comma, no white
      space around it. */
  predicate CleanEntry(e: string) {
    e != "" && ',' !in e && GoStrings.TrimSpace(e) == e
  }

  lemma TrimmedCons(parts: seq<string>)
    requires |parts| > 0 && GoStrings.TrimSpace(parts[0]) != ""
    ensures TrimmedPieces(parts) == [GoStrings.TrimSpace(parts[0])] + TrimmedPieces(parts[1..])
  {
  }

  lemma {:induction false} TrimmedCleanPieces(parts: seq<string>)
    requires forall i :: 0 <= i < |parts| ==> CleanEntry(parts[i])
    ensures TrimmedPieces(parts) == parts
  {
    if |parts| > 0 {
      assert forall i :: 0 <= i < |parts[1..]| ==> CleanEntry(parts[1..][i]) by {
        forall i | 0 <= i < |parts[1..]| ensures CleanEntry(parts[1..][i]) {
          assert parts[1..][i] == parts[i + 1];
        }
      }
      TrimmedCleanPieces(parts[1..]);
      assert CleanEntry(parts[0]);
      TrimmedCons(parts);
      assert [parts[0]] + parts[1..] == parts;
    }
  }

  /** Clean seeds written as a comma-separated list are read back exactly. */
  lemma ParseSeedsJoin(seeds: seq<string>)
    requires forall i :: 0 <= i < |seeds| ==> CleanEntry(seeds[i])
    ensures ParseSeeds(GoStrings.Join(seeds, ",")) == seeds
  {
    if |seeds| > 0 {
      GoStrings.JoinSplit(seeds, ',');
      TrimmedCleanPieces(seeds);
      assert CleanEntry(seeds[0]);
      assert |GoStrings.Join(seeds, ",")| >= |seeds[0]| > 0;
    }
  }

  predicate SeparatorsOnly(s: string) {
    forall i :: 0 <= i < |s| ==> s[i] == ',' || GoStrings.IsSpace(s[i])
  }

  lemma {:induction false} BlankPieces(parts: seq<string>)
    requires forall i :: 0 <= i < |parts| ==> GoStrings.TrimSpace(parts[i]) == ""
    ensures TrimmedPieces(parts) == []
  {
    if |parts| > 0 {
      BlankPieces(parts[1..]);
    }
  }

  /** Unlike an empty variable, a variable of commas and white space only
      gives no capabilities at all. */
  lemma SeparatorsGiveNoCapabilities(s: string)
    requires s != "" && SeparatorsOnly(s)
    ensures ParseCapabilities(s) == []
  {
    var parts := GoStrings.Split(s, ',');
    GoStrings.SplitBytes(s, ',');
    forall i | 0 <= i < |parts| ensures GoStrings.TrimSpace(parts[i]) == "" {
      forall j | 0 <= j < |parts[i]| ensures GoStrings.IsSpace(parts[i][j]) {
        assert parts[i][j] in s;
        assert parts[i][j] != ',';
      }
    }
    BlankPieces(parts);
  }

  // ---------------------------------------------------------------------------
  // Loaded configurations

  datatype RegistryConfig = RegistryConfig(
    environment: string, host: string, port: int, dataDir: string, logLevel: string,
    gitHubClientId: string, gitHubClientSecret: string, jwtSecret: string,
    allowedDomains: seq<string>, maxNodes: int,
    enableReplication: bool, enableMicropayments: bool, enableChallenges: bool,
    worldcoinAppId: string, worldcoinActionId: string, worldcoinApiKey: string)

  datatype NodeConfig = NodeConfig(
    nodeId: string, domain: string, port: int, dataDir: string, logLevel: string, environment: string,
    publicKeyPath: string, privateKeyPath: string, seeds: seq<string>,
    gitHubClientId: string, gitHubSecret: string, jwtSecret: string,
    capabilities: seq<string>, messagesPerHour: int, federationPerHour: int,
    openClawUrl: string, openClawToken: string,
    worldcoinAppId: string, worldcoinActionId: string, worldcoinApiKey: string)

  datatype ConfigError = NodeIdRequired | NodeDomainRequired | JwtSecretRequired

  /** `LoadRegistry`: every setting from its variable or its default; a
      missing JWT secret is the only error. */
  function LoadRegistry(env: Env): (r: Result<RegistryConfig, ConfigError>)
    ensures r.Err? <==> GetEnv(env, "JWT_SECRET", "") == ""
    ensures r.Err? ==> r.error == JwtSecretRequired
    ensures r.Ok? ==> r.value.jwtSecret == env["JWT_SECRET"]
    ensures r.Ok? ==> r.value.allowedDomains == GoStrings.Split(GetEnv(env, "ALLOWED_DOMAINS", "*"), ',')
    ensures r.Ok? && ("ALLOWED_DOMAINS" !in env || env["ALLOWED_DOMAINS"] == "") ==> r.value.allowedDomains == ["*"]
  {
    var c := RegistryConfig(
      GetEnv(env, "ENVIRONMENT", "development"),
      GetEnv(env, "HOST", "localhost"),
      GetEnvInt(env, "PORT", 8080),
      GetEnv(env, "DATA_DIR", "./data"),
      GetEnv(env, "LOG_LEVEL", "info"),
      GetEnv(env, "GITHUB_CLIENT_ID", ""),
      GetEnv(env, "GITHUB_CLIENT_SECRET", ""),
      GetEnv(env, "JWT_SECRET", ""),
      GoStrings.Split(GetEnv(env, "ALLOWED_DOMAINS", "*"), ','),
      GetEnvInt(env, "MAX_NODES", 10000),
      GetEnvBool(env, "ENABLE_REPLICATION", true),
      GetEnvBool(env, "ENABLE_MICROPAYMENTS", false),
      GetEnvBool(env, "ENABLE_CHALLENGES", true),
      GetEnv(env, "WORLDCOIN_APP_ID", ""),
      GetEnv(env, "WORLDCOIN_ACTION_ID", ""),
      GetEnv(env, "WORLDCOIN_API_KEY", ""));
    assert "*" == ['*'];
    GoStrings.SplitWhole("*", ',');
    if c.jwtSecret == "" then Err(JwtSecretRequired) else Ok(c)
  }

  /** With ALLOWED_DOMAINS unset a registry admits every domain. */
  lemma DefaultRegistryAdmitsAll(env: Env, domain: string)
    requires "ALLOWED_DOMAINS" !in env
    requires "JWT_SECRET" in env && env["JWT_SECRET"] != ""
    ensures Registry.IsDomainAllowed(LoadRegistry(env).value.allowedDomains, domain)
  {
    Registry.StarAndExactAllow(["*"], domain);
  }

  /** `LoadNode`: every setting from its variable or its default. The node
      ID and domain checks come first, but their defaults are not empty, so
      a missing JWT secret is the only error that can occur. */
  function LoadNode(env: Env): (r: Result<NodeConfig, ConfigError>)
    ensures r.Err? <==> GetEnv(env, "JWT_SECRET", "") == ""
    ensures r.Err? ==> r.error == JwtSecretRequired
    ensures r.Ok? ==> r.value.nodeId != "" && r.value.domain != "" && r.value.jwtSecret == env["JWT_SECRET"]
    ensures r.Ok? ==> r.value.seeds == ParseSeeds(GetEnv(env, "NODE_BOOTSTRAP_SEEDS", ""))
    ensures r.Ok? && "NODE_BOOTSTRAP_SEEDS" !in env ==> r.value.seeds == []
  {
    var c := NodeConfig(
      GetEnv(env, "NODE_ID", "botnet.localhost"),
      GetEnv(env, "NODE_DOMAIN", "localhost"),
      GetEnvInt(env, "NODE_PORT", 8080),
      GetEnv(env, "NODE_DATA_DIR", "./data"),
      GetEnv(env, "LOG_LEVEL", "info"),
      GetEnv(env, "ENVIRONMENT", "development"),
      GetEnv(env, "NODE_PUBLIC_KEY_PATH", "./keys/node.pub"),
      GetEnv(env, "NODE_PRIVATE_KEY_PATH", "./keys/node.key"),
      ParseSeeds(GetEnv(env, "NODE_BOOTSTRAP_SEEDS", "")),
      GetEnv(env, "GITHUB_CLIENT_ID", ""),
      GetEnv(env, "GITHUB_CLIENT_SECRET", ""),
      GetEnv(env, "JWT_SECRET", ""),
      ParseCapabilities(GetEnv(env, "NODE_CAPABILITIES", DefaultCapabilityList)),
      GetEnvInt(env, "NODE_MESSAGES_PER_HOUR", 1000),
      GetEnvInt(env, "NODE_FEDERATION_PER_HOUR", 100),
      GetEnv(env, "OPENCLAW_URL", ""),
      GetEnv(env, "OPENCLAW_TOKEN", ""),
      GetEnv(env, "WORLDCOIN_APP_ID", ""),
      GetEnv(env, "WORLDCOIN_ACTION_ID", ""),
      GetEnv(env, "WORLDCOIN_API_KEY", ""));
    if c.nodeId == "" then Err(NodeIdRequired)
    else if c.domain == "" then Err(NodeDomainRequired)
    else if c.jwtSecret == "" then Err(JwtSecretRequired)
    else Ok(c)
  }

  const Messaging: string := "messaging"
  const AgentHosting: string := "agent_hosting"
  /** "messaging,agent_hosting", the NODE_CAPABILITIES default. */
  const DefaultCapabilityList: string := Messaging + "," + AgentHosting

  lemma CleanDefaults()
    ensures CleanEntry(Messaging) && CleanEntry(AgentHosting)
  {
    assert GoStrings.NoSpace(Messaging) && GoStrings.NoSpace(AgentHosting);
  }

  /** With NODE_CAPABILITIES unset a node offers messaging and agent hosting. */
  lemma DefaultNodeCapabilities(env: Env)
    requires "NODE_CAPABILITIES" !in env
    requires "JWT_SECRET" in env && env["JWT_SECRET"] != ""
    ensures LoadNode(env).value.capabilities == [Messaging, AgentHosting]
  {
    var caps := [Messaging, AgentHosting];
    CleanDefaults();
    assert GoStrings.Join(caps, ",") == DefaultCapabilityList by {
      assert caps[1..] == [AgentHosting];
    }
    ParseSeedsJoin(caps);
  }
}
