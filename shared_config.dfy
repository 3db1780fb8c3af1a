/** The deployment settings the infrastructure reads from its environment
    variables: boolean switches spelled "true" in any case, lower-cased
    names with defaults, verbatim values, two lifecycle numbers read with
    JavaScript's `parseInt`, and two settings whose absence stops the
    deployment with an error. */
module SharedConfig {
  import opened Wrappers

  /** The process environment: the variables that are set. */
  type Env = map<string, string>

  /** `toLowerCase` on ASCII letters; other characters are kept. */
  function LowerChar(c: char): (r: char)
    ensures 'A' <= c <= 'Z' ==> r as int == c as int + 32
    ensures !('A' <= c <= 'Z') ==> r == c
  {
    if 'A' <= c <= 'Z' then (c as int + 32) as char else c
  }

  function Lower(s: string): (r: string)
    ensures |r| == |s|
    ensures forall k :: 0 <= k < |s| ==> r[k] == LowerChar(s[k])
  {
    seq(|s|, k requires 0 <= k < |s| => LowerChar(s[k]))
  }

  /** Lower-casing twice is lower-casing once. */
  lemma LowerIdempotent(s: string)
    ensures Lower(Lower(s)) == Lower(s)
  {
  }

  /** `process.env[name]?.toLowerCase() === "true"`: an unset variable is `false`. */
  predicate Flag(env: Env, name: string) {
    name in env && Lower(env[name]) == "true"
  }

  /** `x || fallback` on an optional string: unset and empty both fall back. */
  function OrDefault(x: Option<string>, fallback: string): (r: string)
    ensures x.Some? && x.value != "" ==> r == x.value
    ensures x.None? || x.value == "" ==> r == fallback
  {
    if x.Some? && x.value != "" then x.value else fallback
  }

  function Lookup(env: Env, name: string): Option<string> {
    if name in env then Some(env[name]) else None
  }

  /** `process.env[name]?.toLowerCase() || fallback`. */
  function LowerOr(env: Env, name: string, fallback: string): string {
    match Lookup(env, name)
    case Some(v) => OrDefault(Some(Lower(v)), fallback)
    case None => fallback
  }

  /** The characters `parseInt` skips before the number. */
  predicate IsWhiteSpace(c: char) {
    c == ' ' || c == '\t' || c == '\n' || c == '\r' || c == 11 as char || c == 12 as char
    || c == 0xA0 as char || c == 0x1680 as char || (0x2000 as char <= c <= 0x200A as char)
    || c == 0x2028 as char || c == 0x2029 as char || c == 0x202F as char || c == 0x205F as char
    || c == 0x3000 as char || c == 0xFEFF as char
  }

  function TrimStart(s: string): (r: string)
    ensures r == [] || !IsWhiteSpace(r[0])
    ensures |r| <= |s|
  {
    if s != [] && IsWhiteSpace(s[0]) then TrimStart(s[1..]) else s
  }

  /** The value of a digit in base 10 or 16. */
  function DigitValue(c: char, radix: nat): Option<nat>
    ensures DigitValue(c, radix).Some? ==> DigitValue(c, radix).value < radix
  {
    if '0' <= c <= '9' && (c as int - '0' as int) < radix then Some(c as int - '0' as int)
    else if radix == 16 && 'a' <= c <= 'f' then Some(c as int - 'a' as int + 10)
    else if radix == 16 && 'A' <= c <= 'F' then Some(c as int - 'A' as int + 10)
    else None
  }

  /** The longest prefix of digits in the radix. */
  function DigitRun(s: string, radix: nat): (r: string)
    ensures |r| <= |s| && forall k :: 0 <= k < |r| ==> r[k] == s[k]
    ensures forall k :: 0 <= k < |r| ==> DigitValue(r[k], radix).Some?
  {
    if s != [] && DigitValue(s[0], radix).Some? then [s[0]] + DigitRun(s[1..], radix) else []
  }

  /** The number a string of digits denotes. */
  function DigitsValue(digits: string, radix: nat): nat
    requires forall k :: 0 <= k < |digits| ==> DigitValue(digits[k], radix).Some?
  {
    if digits == [] then 0
    else DigitsValue(digits[..|digits| - 1], radix) * radix + DigitValue(digits[|digits| - 1], radix).value
  }

  /** The unsigned part of `parseInt`: "0x" or "0X" selects base 16, and
      the longest run of digits that follows is the number; no digits give
      `NaN` (`None`). */
  function ParseMagnitude(u: string): Option<nat> {
    var hex := |u| >= 2 && u[0] == '0' && (u[1] == 'x' || u[1] == 'X');
    var radix := if hex then 16 else 10;
    var run := DigitRun(if hex then u[2..] else u, radix);
    if run == [] then None else Some(DigitsValue(run, radix))
  }

  /** `parseInt(s)` with no radix: leading white space is skipped and a
      sign is read before the unsigned part. */
  function ParseInt(s: string): (r: Option<int>)
    ensures TrimStart(s) == [] ==> r.None?
    ensures r.Some? && r.value < 0 ==> TrimStart(s)[0] == '-'
  {
    var t := TrimStart(s);
    if t != [] && t[0] == '-' then
      match ParseMagnitude(t[1..])
      case Some(m) => Some(-(m as int))
      case None => None
    else if t != [] && t[0] == '+' then
      match ParseMagnitude(t[1..])
      case Some(m) => Some(m)
      case None => None
    else
      match ParseMagnitude(t)
      case Some(m) => Some(m)
      case None => None
  }

  /** The decimal numeral of a natural number. */
  function Decimal(n: nat): (r: string)
    ensures r != [] && forall k :: 0 <= k < |r| ==> '0' <= r[k] <= '9'
    ensures |r| > 1 ==> r[0] != '0'
  {
    var digit := ('0' as int + n % 10) as char;
    if n < 10 then [digit] else Decimal(n / 10) + [digit]
  }

  /** A numeral followed by text that does not continue it: the digit run
      is the numeral. */
  lemma {:induction false} DigitRunOfNumeral(s: string, rest: string)
    requires forall k :: 0 <= k < |s| ==> '0' <= s[k] <= '9'
    requires rest == [] || DigitValue(rest[0], 10).None?
    ensures DigitRun(s + rest, 10) == s
  {
    if s == [] {
      assert s + rest == rest;
    } else {
      DigitRunOfNumeral(s[1..], rest);
      assert (s + rest)[1..] == s[1..] + rest;
    }
  }

  lemma {:induction false} DecimalValue(n: nat)
    ensures DigitsValue(Decimal(n), 10) == n
  {
    if n >= 10 {
      DecimalValue(n / 10);
      var d := Decimal(n);
      assert d[..|d| - 1] == Decimal(n / 10);
    }
  }

  lemma MagnitudeOfNumeral(n: nat, rest: string)
    requires rest == [] || DigitValue(rest[0], 10).None?
    requires n == 0 && rest != [] ==> rest[0] != 'x' && rest[0] != 'X'
    ensures ParseMagnitude(Decimal(n) + rest) == Some(n)
  {
    var d := Decimal(n);
    var s := d + rest;
    DigitRunOfNumeral(d, rest);
    DecimalValue(n);
    if |s| >= 2 && |d| == 1 {
      assert s[1] == rest[0];
    }
  }

  /** `parseInt` reads back a decimal numeral, with or without a minus
      sign, and ignores whatever follows it ("30days" is 30), except that
      "0" followed by "x" or "X" starts a hexadecimal number. */
  lemma ParseIntReadsNumeral(n: nat, rest: string)
    requires rest == [] || DigitValue(rest[0], 10).None?
    requires n == 0 && rest != [] ==> rest[0] != 'x' && rest[0] != 'X'
    ensures ParseInt(Decimal(n) + rest) == Some(n)
    ensures ParseInt("-" + (Decimal(n) + rest)) == Some(-(n as int))
  {
    MagnitudeOfNumeral(n, rest);
    var s := Decimal(n) + rest;
    assert '0' <= s[0] <= '9' by {
      assert s[0] == Decimal(n)[0];
    }
    TrimStartKeeps(s);
    ParseIntNegative(s, n);
  }

  lemma ParseIntNegative(s: string, k: nat)
    requires ParseMagnitude(s) == Some(k)
    ensures ParseInt("-" + s) == Some(-(k as int))
  {
    var m := "-" + s;
    TrimStartKeeps(m);
    assert m[1..] == s;
  }

  /** A text that starts with neither white space is its own trimmed form. */
  lemma TrimStartKeeps(s: string)
    requires s != [] && (s[0] == '-' || '0' <= s[0] <= '9')
    ensures TrimStart(s) == s
  {
  }

  /** `parseInt` reads back every decimal numeral. */
  lemma ParseIntDecimal(n: nat)
    ensures ParseInt(Decimal(n)) == Some(n)
  {
    ParseIntReadsNumeral(n, "");
    assert Decimal(n) + "" == Decimal(n);
  }

  /** Leading white space is skipped. */
  lemma {:induction false} ParseIntSkipsWhiteSpace(ws: string, s: string)
    requires forall k :: 0 <= k < |ws| ==> IsWhiteSpace(ws[k])
    ensures ParseInt(ws + s) == ParseInt(s)
  {
    TrimStartSkips(ws, s);
  }

  lemma {:induction false} TrimStartSkips(ws: string, s: string)
    requires forall k :: 0 <= k < |ws| ==> IsWhiteSpace(ws[k])
    ensures TrimStart(ws + s) == TrimStart(s)
  {
    if ws == [] {
      assert ws + s == s;
    } else {
      TrimStartSkips(ws[1..], s);
      assert (ws + s)[1..] == ws[1..] + s;
    }
  }

  /** A text that starts with neither white space, a sign nor a digit is
      not a number. */
  lemma ParseIntNaN(s: string)
    requires s == [] || (!IsWhiteSpace(s[0]) && s[0] != '-' && s[0] != '+' && DigitValue(s[0], 10).None?)
    ensures ParseInt(s) == None
  {
  }

  const ReadableRegionRequired := "readableBedrockRegion is required when readable is true"
  const RepoRequired := "sourceGitRepo is required"
  const DefaultConnectionArn := "arn:aws:codestar-connections:eu-west-2:471112910241:connection/bb887e4a-d333-4f8b-b101-c5a47f991245"

  /** The settings the stacks are built from. The lifecycle numbers are
      `None` where `parseInt` gives `NaN`. */
  datatype SharedConfiguration = SharedConfiguration(
    appRemovalPolicy: string,
    cognitoLocalUsers: bool,
    cognitoLocalUsersMfa: string,
    cognitoLocalUsersMfaOtp: bool,
    cognitoLocalUsersMfaSms: bool,
    cognitoSamlMetadataUrl: string,
    cognitoSamlUsers: bool,
    development: bool,
    pipelineRemovalPolicy: string,
    readable: bool,
    readableBedrockRegion: string,
    sourceGitService: string,
    sourceGitBranch: string,
    sourceGitRepo: string,
    sourceConnectionArn: string,
    translation: bool,
    translationLifecycleDefault: Option<int>,
    translationLifecyclePii: Option<int>,
    translationPii: bool,
    webUi: bool,
    webUiCustomDomain: string,
    webUiCustomDomainCertificate: string)

  /** `getSharedConfiguration`, with the thrown errors as `Failure`. */
  function GetSharedConfiguration(env: Env): (r: Result<SharedConfiguration, string>)
    ensures r.Failure? ==> r.error == ReadableRegionRequired || r.error == RepoRequired
    ensures r.Success? ==> r.value.sourceGitRepo != "" && (r.value.readable ==> r.value.readableBedrockRegion != "")
  {
    var readable := Flag(env, "readable");
    var readableBedrockRegion := LowerOr(env, "readableBedrockRegion", "");
    if readable && readableBedrockRegion == "" then Failure(ReadableRegionRequired)
    else
      var sourceGitRepo := OrDefault(Lookup(env, "sourceGitRepo"), "");
      if sourceGitRepo == "" then Failure(RepoRequired)
      else Success(SharedConfiguration(
        appRemovalPolicy := LowerOr(env, "appRemovalPolicy", ""),
        cognitoLocalUsers := Flag(env, "cognitoLocalUsers"),
        cognitoLocalUsersMfa := LowerOr(env, "cognitoLocalUsersMfa", "off"),
        cognitoLocalUsersMfaOtp := Flag(env, "cognitoLocalUsersMfaOtp"),
        cognitoLocalUsersMfaSms := Flag(env, "cognitoLocalUsersMfaSms"),
        cognitoSamlMetadataUrl := OrDefault(Lookup(env, "cognitoSamlMetadataUrl"), ""),
        cognitoSamlUsers := Flag(env, "cognitoSamlUsers"),
        development := Flag(env, "development"),
        pipelineRemovalPolicy := LowerOr(env, "pipelineRemovalPolicy", ""),
        readable := readable,
        readableBedrockRegion := readableBedrockRegion,
        sourceGitService := LowerOr(env, "sourceGitService", ""),
        sourceGitBranch := OrDefault(Lookup(env, "sourceGitBranch"), "main"),
        sourceGitRepo := sourceGitRepo,
        sourceConnectionArn := OrDefault(Lookup(env, "sourceConnectionArn"), DefaultConnectionArn),
        translation := Flag(env, "translation"),
        translationLifecycleDefault := ParseInt(OrDefault(Lookup(env, "translationLifecycleDefault"), "7")),
        translationLifecyclePii := ParseInt(OrDefault(Lookup(env, "translationLifecyclePii"), "3")),
        translationPii := Flag(env, "translationPii"),
        webUi := Flag(env, "webUi"),
        webUiCustomDomain := LowerOr(env, "webUiCustomDomain", ""),
        webUiCustomDomainCertificate := OrDefault(Lookup(env, "webUiCustomDomainCertificate"), "")))
  }

  /** The variable is set and holds some spelling of "true". */
  predicate SpellsTrue(env: Env, name: string) {
    name in env && |env[name]| == 4
    && forall k :: 0 <= k < 4 ==> env[name][k] == "true"[k] || env[name][k] as int == "true"[k] as int - 32
  }

  /** A switch is on exactly when its variable spells "true" in any mix of
      upper and lower case; an unset variable leaves it off. */
  lemma FlagIffSpellsTrue(env: Env, name: string)
    ensures Flag(env, name) <==> SpellsTrue(env, name)
  {
    if name in env && |env[name]| == 4 {
      var v := env[name];
      if Lower(v) == "true" {
        forall k | 0 <= k < 4 ensures v[k] == "true"[k] || v[k] as int == "true"[k] as int - 32 {
          assert Lower(v)[k] == LowerChar(v[k]);
        }
      }
      if SpellsTrue(env, name) {
        assert Lower(v) == "true";
      }
    } else if name in env {
      assert |Lower(env[name])| != 4;
    }
  }

  /** Configuration fails exactly when a readable deployment has no
      region or no repository is named; the region check comes first, so
      its error wins when both are missing. */
  lemma ConfigurationErrors(env: Env)
    ensures var r := GetSharedConfiguration(env);
            var noRegion := Flag(env, "readable") && LowerOr(env, "readableBedrockRegion", "") == "";
            var noRepo := OrDefault(Lookup(env, "sourceGitRepo"), "") == "";
            && (r.Failure? <==> noRegion || noRepo)
            && (noRegion ==> r == Failure(ReadableRegionRequired))
            && (!noRegion && noRepo ==> r == Failure(RepoRequired))
  {
  }

  /** A setting that is unset or empty takes its default: branch "main",
      the built-in connection, lifecycles of 7 and 3 days. */
  lemma ConfigurationDefaults(env: Env)
    requires GetSharedConfiguration(env).Success?
    ensures var c := GetSharedConfiguration(env).value;
            && (("sourceGitBranch" !in env || env["sourceGitBranch"] == "") ==> c.sourceGitBranch == "main")
            && (("sourceConnectionArn" !in env || env["sourceConnectionArn"] == "") ==>
                  c.sourceConnectionArn == DefaultConnectionArn)
            && (("translationLifecycleDefault" !in env || env["translationLifecycleDefault"] == "") ==>
                  c.translationLifecycleDefault == Some(7))
            && (("translationLifecyclePii" !in env || env["translationLifecyclePii"] == "") ==>
                  c.translationLifecyclePii == Some(3))
  {
    var c := GetSharedConfiguration(env).value;
    assert c.translationLifecycleDefault == ParseInt(OrDefault(Lookup(env, "translationLifecycleDefault"), "7"));
    assert c.translationLifecyclePii == ParseInt(OrDefault(Lookup(env, "translationLifecyclePii"), "3"));
    DefaultLifecycles();
  }

  lemma DefaultLifecycles()
    ensures ParseInt("7") == Some(7) && ParseInt("3") == Some(3)
  {
    ParseIntDecimal(7);
    ParseIntDecimal(3);
    assert Decimal(7) == "7" && Decimal(3) == "3";
  }

  /** Every switch is on exactly when its variable spells "true" in some
      mix of cases. */
  lemma ConfigurationSwitches(env: Env)
    requires GetSharedConfiguration(env).Success?
    ensures var c := GetSharedConfiguration(env).value;
            && (c.cognitoLocalUsers <==> SpellsTrue(env, "cognitoLocalUsers"))
            && (c.cognitoLocalUsersMfaOtp <==> SpellsTrue(env, "cognitoLocalUsersMfaOtp"))
            && (c.cognitoLocalUsersMfaSms <==> SpellsTrue(env, "cognitoLocalUsersMfaSms"))
            && (c.cognitoSamlUsers <==> SpellsTrue(env, "cognitoSamlUsers"))
            && (c.development <==> SpellsTrue(env, "development"))
            && (c.readable <==> SpellsTrue(env, "readable"))
            && (c.translation <==> SpellsTrue(env, "translation"))
            && (c.translationPii <==> SpellsTrue(env, "translationPii"))
            && (c.webUi <==> SpellsTrue(env, "webUi"))
  {
    FlagIffSpellsTrue(env, "cognitoLocalUsers");
    FlagIffSpellsTrue(env, "cognitoLocalUsersMfaOtp");
    FlagIffSpellsTrue(env, "cognitoLocalUsersMfaSms");
    FlagIffSpellsTrue(env, "cognitoSamlUsers");
    FlagIffSpellsTrue(env, "development");
    FlagIffSpellsTrue(env, "readable");
    FlagIffSpellsTrue(env, "translation");
    FlagIffSpellsTrue(env, "translationPii");
    FlagIffSpellsTrue(env, "webUi");
  }

  /** Names are lower-cased and keep their defaults when empty; the SAML
      URL, the certificate, the repository and the branch are kept as
      written. */
  lemma ConfigurationSpelling(env: Env)
    requires GetSharedConfiguration(env).Success?
    ensures var c := GetSharedConfiguration(env).value;
            && c.webUiCustomDomain == Lower(c.webUiCustomDomain)
            && c.readableBedrockRegion == Lower(c.readableBedrockRegion)
            && ("sourceGitBranch" in env && env["sourceGitBranch"] != "" ==> c.sourceGitBranch == env["sourceGitBranch"])
            && ("sourceGitRepo" in env ==> c.sourceGitRepo == env["sourceGitRepo"])
            && ("cognitoSamlMetadataUrl" in env ==> c.cognitoSamlMetadataUrl == env["cognitoSamlMetadataUrl"])
            && ("webUiCustomDomainCertificate" in env ==> c.webUiCustomDomainCertificate == env["webUiCustomDomainCertificate"])
            && ("cognitoLocalUsersMfa" in env && env["cognitoLocalUsersMfa"] != "" ==>
                  c.cognitoLocalUsersMfa == Lower(env["cognitoLocalUsersMfa"]))
            && (("cognitoLocalUsersMfa" !in env || env["cognitoLocalUsersMfa"] == "") ==> c.cognitoLocalUsersMfa == "off")
  {
    if "webUiCustomDomain" in env {
      LowerIdempotent(env["webUiCustomDomain"]);
    }
    if "readableBedrockRegion" in env {
      LowerIdempotent(env["readableBedrockRegion"]);
    }
  }
}
