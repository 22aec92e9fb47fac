/** The command-line configuration of config/config.go: every setting is a
    flag whose default comes from an environment variable, and `New`
    rejects a configuration in which one of the six required strings is
    empty. The environment is a map, the flags given on the command line
    another. */
module Configuration {
  import opened Types

  const KeyGithubEnterprise := "github-enterprise"
  const KeyGithubToken := "github-token"
  const KeyAzureClientId := "azure-client-id"
  const KeyAzureClientSecret := "azure-client-secret"
  const KeyAzureTenantId := "azure-tenant-id"
  const KeyAzureGroup := "azure-group"
  const KeyDryRun := "dry-run"

  const EnvGitHubEnterprise := "GITHUB_ENTERPRISE"
  const EnvGitHubToken := "GITHUB_TOKEN"
  const EnvAzureClientId := "AZURE_CLIENT_ID"
  const EnvAzureClientSecret := "AZURE_CLIENT_SECRET"
  const EnvAzureTenantId := "AZURE_TENANT_ID"
  const EnvAzureGroup := "AZURE_GROUP"
  const EnvDryRun := "DRY_RUN"

  datatype GitHub = GitHub(Enterprise: string, Token: string)

  datatype Azure = Azure(ClientId: string, ClientSecret: string, TenantId: string, Group: string)

  datatype Config = Config(GitHub: GitHub, Azure: Azure, DryRun: bool)

  /** The process environment: the variables that are set, with their values. */
  type Env = map<string, string>

  /** The flags given on the command line, by name, with their text. A bare
      boolean flag (`-dry-run`) stands for the text "true". */
  type Flags = map<string, string>

  /** A lookup either yields a value or ends the process (`log.Fatalf`). */
  datatype Lookup<T> = Value(v: T) | Fatal(key: string)

  // ---------------------------------------------------------------------
  // Environment lookups

  /** `lookupEnvOrString`: a variable that is set wins, even when its value
      is empty; an unset one gives the default. */
  function LookupEnvOrString(env: Env, key: string, defaultVal: string): (v: string)
    ensures key in env ==> v == env[key]
    ensures key !in env ==> v == defaultVal
  {
    if key in env then env[key] else defaultVal
  }

  const TrueSpellings: set<string> := {"1", "t", "T", "TRUE", "true", "True"}
  const FalseSpellings: set<string> := {"0", "f", "F", "FALSE", "false", "False"}

  /** `strconv.ParseBool`: exactly twelve spellings are accepted. */
  function ParseBool(s: string): (r: Option<bool>)
    ensures r == Some(true) <==> s in TrueSpellings
    ensures r == Some(false) <==> s in FalseSpellings
    ensures r.None? <==> s !in TrueSpellings + FalseSpellings
  {
    if s == "1" || s == "t" || s == "T" || s == "TRUE" || s == "true" || s == "True" then Some(true)
    else if s == "0" || s == "f" || s == "F" || s == "FALSE" || s == "false" || s == "False" then Some(false)
    else None
  }

  /** `strconv.FormatBool`. */
  function FormatBool(b: bool): string
  {
    if b then "true" else "false"
  }

  /** Parsing undoes formatting. */
  lemma ParseFormatBool(b: bool)
    ensures ParseBool(FormatBool(b)) == Some(b)
  {
  }

  /** `lookupEnvOrBool`: the default when unset; otherwise the parsed value,
      and a value that does not parse is fatal. */
  function LookupEnvOrBool(env: Env, key: string, defaultVal: bool): (r: Lookup<bool>)
    ensures key !in env ==> r == Value(defaultVal)
    ensures key in env ==> (r.Fatal? <==> env[key] !in TrueSpellings + FalseSpellings)
    ensures key in env && r.Value? ==> (r.v <==> env[key] in TrueSpellings)
    ensures r.Fatal? ==> r.key == key
  {
    if key !in env then Value(defaultVal)
    else
      match ParseBool(env[key])
      case None => Fatal(key)
      case Some(b) => Value(b)
  }

  // ---------------------------------------------------------------------
  // strconv.Atoi on a 64-bit platform

  const MinInt64: int := -0x8000_0000_0000_0000
  const MaxInt64: int := 0x7fff_ffff_ffff_ffff

  predicate IsDigit(c: char)
  {
    '0' <= c <= '9'
  }

  predicate AllDigits(s: string)
  {
    forall i | 0 <= i < |s| :: IsDigit(s[i])
  }

  /** The value of a run of decimal digits, most significant first. */
  function DigitsValue(s: string): nat
    requires AllDigits(s)
    decreases |s|
  {
    if |s| == 0 then 0
    else 10 * DigitsValue(s[..|s| - 1]) + (s[|s| - 1] as int - '0' as int)
  }

  function Pow10(n: nat): nat
  {
    if n == 0 then 1 else 10 * Pow10(n - 1)
  }

  /** `n` digits never exceed 10^n - 1. */
  lemma {:induction false} DigitsValueBound(s: string)
    requires AllDigits(s)
    ensures DigitsValue(s) < Pow10(|s|)
    decreases |s|
  {
    if |s| > 0 {
      DigitsValueBound(s[..|s| - 1]);
    }
  }

  /** The text after an optional leading sign. */
  function Unsigned(s: string): string
  {
    if |s| > 0 && (s[0] == '+' || s[0] == '-') then s[1..] else s
  }

  /** An optional sign followed by at least one decimal digit. */
  predicate SignedDigits(s: string)
  {
    |Unsigned(s)| > 0 && AllDigits(Unsigned(s))
  }

  /** The number a signed digit string denotes, without any range limit. */
  function SignedValue(s: string): int
    requires SignedDigits(s)
  {
    var magnitude: int := DigitsValue(Unsigned(s));
    if s[0] == '-' then -magnitude else magnitude
  }

  /** `strconv.Atoi`: an optional sign and at least one decimal digit (no
      underscores, no base prefix, no spaces), within the int64 range. */
  function Atoi(s: string): (r: Option<int>)
    ensures r.Some? <==> SignedDigits(s) && MinInt64 <= SignedValue(s) <= MaxInt64
    ensures r.Some? ==> r.value == SignedValue(s)
    ensures r.Some? ==> MinInt64 <= r.value <= MaxInt64
    ensures r.Some? && r.value < 0 ==> s[0] == '-'
    ensures |Unsigned(s)| > 0 && AllDigits(Unsigned(s)) && |Unsigned(s)| <= 18 ==> r.Some?
  {
    var digits := Unsigned(s);
    if |digits| == 0 || !AllDigits(digits) then None
    else
      DigitsValueBound(digits);
      assert |digits| <= 18 ==> Pow10(|digits|) <= Pow10(18) by {
        if |digits| <= 18 { Pow10Monotone(|digits|, 18); }
      }
      Pow10Of18();
      var magnitude: int := DigitsValue(digits);
      var v := if s[0] == '-' then -magnitude else magnitude;
      if MinInt64 <= v <= MaxInt64 then Some(v) else None
  }

  lemma Pow10Of18()
    ensures Pow10(18) == 1_000_000_000_000_000_000
  {
    assert Pow10(3) == 1_000;
    assert Pow10(6) == 1_000_000;
    assert Pow10(9) == 1_000_000_000;
    assert Pow10(12) == 1_000_000_000_000;
    assert Pow10(15) == 1_000_000_000_000_000;
  }

  lemma {:induction false} Pow10Monotone(m: nat, n: nat)
    requires m <= n
    ensures Pow10(m) <= Pow10(n)
    decreases n
  {
    if m < n {
      Pow10Monotone(m, n - 1);
    }
  }

  function DigitChar(d: nat): char
    requires d < 10
  {
    ('0' as int + d) as char
  }

  /** Decimal text of a natural number, without leading zeros. */
  function FormatNat(n: nat): string
  {
    if n < 10 then [DigitChar(n)] else FormatNat(n / 10) + [DigitChar(n % 10)]
  }

  /** `strconv.Itoa`. */
  function FormatInt(n: int): string
  {
    if n < 0 then "-" + FormatNat(-n) else FormatNat(n)
  }

  /** Formatting a natural yields digits whose value is that natural. */
  lemma {:induction false} FormatNatValue(n: nat)
    ensures |FormatNat(n)| > 0 && AllDigits(FormatNat(n))
    ensures DigitsValue(FormatNat(n)) == n
  {
    if n >= 10 {
      FormatNatValue(n / 10);
      var s := FormatNat(n);
      assert s[..|s| - 1] == FormatNat(n / 10);
    }
  }

  /** `Atoi` undoes `Itoa` on the whole int64 range. */
  lemma {:induction false} AtoiFormatInt(n: int)
    requires MinInt64 <= n <= MaxInt64
    ensures Atoi(FormatInt(n)) == Some(n)
  {
    var s := FormatInt(n);
    var digits := FormatNat(if n < 0 then -n else n);
    FormatNatValue(if n < 0 then -n else n);
    if n < 0 {
      assert s == "-" + digits;
      assert s[0] == '-' && s[1..] == digits;
    } else {
      assert s == digits && IsDigit(s[0]);
    }
    assert Unsigned(s) == digits;
  }

  /** One past the int64 range is rejected, not wrapped. */
  lemma Int64Overflow()
    ensures Atoi(FormatInt(MaxInt64 + 1)) == None
  {
    FormatNatValue(MaxInt64 + 1);
    assert IsDigit(FormatNat(MaxInt64 + 1)[0]);
  }

  /** `lookupEnvOrInt`: the default when unset; otherwise the parsed value,
      and a value that does not parse is fatal. */
  function LookupEnvOrInt(env: Env, key: string, defaultVal: int): (r: Lookup<int>)
    ensures key !in env ==> r == Value(defaultVal)
    ensures key in env ==> (r.Fatal? <==> Atoi(env[key]).None?)
    ensures key in env && r.Value? ==> Atoi(env[key]) == Some(r.v)
    ensures r.Fatal? ==> r.key == key
  {
    if key !in env then Value(defaultVal)
    else
      match Atoi(env[key])
      case None => Fatal(key)
      case Some(v) => Value(v)
  }

  /** A variable holding a formatted int64 reads back as that number. */
  lemma LookupFormattedInt(env: Env, key: string, n: int, defaultVal: int)
    requires MinInt64 <= n <= MaxInt64
    ensures LookupEnvOrInt(env[key := FormatInt(n)], key, defaultVal) == Value(n)
  {
    AtoiFormatInt(n);
  }

  // ---------------------------------------------------------------------
  // New

  /** A required setting: its flag, its environment variable, and the
      error `New` returns when it ends up empty. */
  datatype Required = Required(flag: string, env: string, message: string)

  /** The required settings in the order `New` checks them. */
  const RequiredSettings: seq<Required> := [
    Required(KeyGithubToken, EnvGitHubToken, "GitHub Token is required"),
    Required(KeyGithubEnterprise, EnvGitHubEnterprise, "GitHub Enterprise is required"),
    Required(KeyAzureClientId, EnvAzureClientId, "Azure Client ID is required"),
    Required(KeyAzureClientSecret, EnvAzureClientSecret, "Azure Client Secret is required"),
    Required(KeyAzureTenantId, EnvAzureTenantId, "Azure Tenant ID is required"),
    Required(KeyAzureGroup, EnvAzureGroup, "Azure Group is required")
  ]

  /** The required strings of a configuration, in check order. */
  function Fields(c: Config): seq<string>
  {
    [c.GitHub.Token, c.GitHub.Enterprise, c.Azure.ClientId, c.Azure.ClientSecret, c.Azure.TenantId, c.Azure.Group]
  }

  /** The first required field that is empty is field `i`. */
  predicate FirstMissing(fields: seq<string>, i: int)
  {
    && 0 <= i < |fields|
    && fields[i] == ""
    && forall j | 0 <= j < i :: fields[j] != ""
  }

  /** The checks of lines 60-83: the first empty field, in the fixed order,
      names the error; `DryRun` is not looked at. */
  function Validate(c: Config): (err: Option<Error>)
    ensures err.None? <==> forall i | 0 <= i < |Fields(c)| :: Fields(c)[i] != ""
    ensures err.Some? ==>
              exists i :: FirstMissing(Fields(c), i) && err.value == RequiredSettings[i].message
  {
    if c.GitHub.Token == "" then
      assert FirstMissing(Fields(c), 0);
      Some("GitHub Token is required")
    else if c.GitHub.Enterprise == "" then
      assert FirstMissing(Fields(c), 1);
      Some("GitHub Enterprise is required")
    else if c.Azure.ClientId == "" then
      assert FirstMissing(Fields(c), 2);
      Some("Azure Client ID is required")
    else if c.Azure.ClientSecret == "" then
      assert FirstMissing(Fields(c), 3);
      Some("Azure Client Secret is required")
    else if c.Azure.TenantId == "" then
      assert FirstMissing(Fields(c), 4);
      Some("Azure Tenant ID is required")
    else if c.Azure.Group == "" then
      assert FirstMissing(Fields(c), 5);
      Some("Azure Group is required")
    else None
  }

  /** The dry-run switch plays no part in validation. */
  lemma ValidateIgnoresDryRun(c: Config, b: bool)
    ensures Validate(c.(DryRun := b)) == Validate(c)
  {
    assert Fields(c.(DryRun := b)) == Fields(c);
  }

  /** What `New` does: a configuration, a validation error, or the process
      ends (a fatal `DRY_RUN` lookup, or a `-dry-run` value `flag.Parse`
      rejects). */
  datatype Outcome = Created(config: Config) | Invalid(err: Error) | Exit(reason: string)

  /** A string flag: its command-line text when given, else the
      environment's value, else "". */
  function Setting(env: Env, flags: Flags, flag: string, envKey: string): string
  {
    if flag in flags then flags[flag] else LookupEnvOrString(env, envKey, "")
  }

  /** The values the required settings take, in check order. */
  function Settings(env: Env, flags: Flags): (values: seq<string>)
    ensures |values| == |RequiredSettings|
  {
    seq(|RequiredSettings|, i requires 0 <= i < |RequiredSettings| =>
      Setting(env, flags, RequiredSettings[i].flag, RequiredSettings[i].env))
  }

  /** `New`: the defaults are read from the environment while the flags are
      declared, so a bad `DRY_RUN` is fatal even when `-dry-run` is given;
      then the flags override, and the required fields are validated. */
  function New(env: Env, flags: Flags): (o: Outcome)
    ensures LookupEnvOrBool(env, EnvDryRun, false).Fatal? ==> o == Exit(EnvDryRun)
    ensures LookupEnvOrBool(env, EnvDryRun, false).Value? ==>
              (o.Exit? <==> KeyDryRun in flags && ParseBool(flags[KeyDryRun]).None?)
    ensures o.Invalid? <==> !o.Exit? && exists i | 0 <= i < |RequiredSettings| :: Settings(env, flags)[i] == ""
    ensures o.Invalid? ==>
              exists i :: FirstMissing(Settings(env, flags), i) && o.err == RequiredSettings[i].message
    ensures o.Created? ==> Fields(o.config) == Settings(env, flags)
    ensures o.Created? && KeyDryRun in flags ==> Some(o.config.DryRun) == ParseBool(flags[KeyDryRun])
    ensures o.Created? && KeyDryRun !in flags ==> Value(o.config.DryRun) == LookupEnvOrBool(env, EnvDryRun, false)
  {
    match LookupEnvOrBool(env, EnvDryRun, false)
    case Fatal(k) => Exit(k)
    case Value(envDryRun) =>
      var dryRun := if KeyDryRun in flags then ParseBool(flags[KeyDryRun]) else Some(envDryRun);
      if dryRun.None? then Exit(KeyDryRun)
      else
        var c := Config(
          GitHub(Setting(env, flags, KeyGithubEnterprise, EnvGitHubEnterprise),
                 Setting(env, flags, KeyGithubToken, EnvGitHubToken)),
          Azure(Setting(env, flags, KeyAzureClientId, EnvAzureClientId),
                Setting(env, flags, KeyAzureClientSecret, EnvAzureClientSecret),
                Setting(env, flags, KeyAzureTenantId, EnvAzureTenantId),
                Setting(env, flags, KeyAzureGroup, EnvAzureGroup)),
          dryRun.value);
        assert Fields(c) == Settings(env, flags);
        match Validate(c)
        case Some(e) => Invalid(e)
        case None => Created(c)
  }

  /** A variable that is set but empty counts as missing: it does not fall
      back to anything. */
  lemma EmptyTokenIsMissing(env: Env)
    ensures New(env[EnvGitHubToken := ""][EnvDryRun := "false"], map[]) == Invalid("GitHub Token is required")
  {
    var e := env[EnvGitHubToken := ""][EnvDryRun := "false"];
    assert Settings(e, map[])[0] == "";
    assert FirstMissing(Settings(e, map[]), 0);
  }

  /** A flag given on the command line beats the environment. */
  lemma FlagOverridesEnv(env: Env, flags: Flags, token: string)
    requires New(env, flags).Created?
    requires token != ""
    ensures New(env, flags[KeyGithubToken := token]).Created?
    ensures New(env, flags[KeyGithubToken := token]).config.GitHub.Token == token
  {
    var flags' := flags[KeyGithubToken := token];
    var before := Settings(env, flags);
    var after := Settings(env, flags');
    assert Fields(New(env, flags).config) == before;
    assert forall i | 1 <= i < |RequiredSettings| :: after[i] == before[i];
    assert after[0] == token;
    assert forall i | 0 <= i < |RequiredSettings| :: after[i] != "";
  }
}
