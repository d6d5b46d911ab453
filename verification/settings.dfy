/**
 * Configuration: the settings read from the environment, the validation
 * that collects every problem before failing, and the public view that
 * leaves the secrets out.
 */
module Settings {
  import opened Wrappers
  import opened Text
  import opened Errors

  /** The string environment; a variable that is not set is absent from the map. */
  type Env = map<string, string>

  datatype Provider = Google | OpenAi

  datatype Config = Config(
    telegramToken: Option<string>,
    llmProvider: string,
    googleApiKey: Option<string>,
    modelName: string,
    openAiApiKey: Option<string>,
    logLevel: string,
    maxWorkers: int,
    requestTimeout: int,
    databaseUrl: string,
    tokenExpiryHours: int,
    maxRequestsPerMinute: int)

  const DefaultProvider: string := "google"
  const DefaultModelName: string := "gemini-2.5-flash"
  const DefaultLogLevel: string := "INFO"
  const DefaultMaxWorkers: int := 4
  const DefaultRequestTimeout: int := 60
  const DefaultDatabaseUrl: string := "sqlite:///./data/bot.db"
  const DefaultTokenExpiryHours: int := 24
  const DefaultMaxRequestsPerMinute: int := 30

  /** `os.getenv(name)`. */
  function GetEnv(env: Env, name: string): Option<string> {
    if name in env then Some(env[name]) else None
  }

  /** `os.getenv(name, default)`: a variable set to the empty string is kept, not defaulted. */
  function GetEnvOr(env: Env, name: string, default: string): string {
    GetEnv(env, name).GetOr(default)
  }

  /** An already-parsed integer setting, or its default. */
  function GetNumberOr(numbers: map<string, int>, name: string, default: int): int {
    if name in numbers then numbers[name] else default
  }

  /**
   * Reading the settings at start-up. The provider name is lower-cased.
   * Integer settings arrive already parsed in `numbers`.
   */
  function Load(env: Env, numbers: map<string, int>): (c: Config)
    ensures c.llmProvider == Lower(GetEnvOr(env, "LLM_PROVIDER", DefaultProvider))
    ensures "TELEGRAM_TOKEN" !in env ==> c.telegramToken.None?
    ensures "MODEL_NAME" !in env ==> c.modelName == DefaultModelName
  {
    Config(
      GetEnv(env, "TELEGRAM_TOKEN"),
      Lower(GetEnvOr(env, "LLM_PROVIDER", DefaultProvider)),
      GetEnv(env, "GOOGLE_API_KEY"),
      GetEnvOr(env, "MODEL_NAME", DefaultModelName),
      GetEnv(env, "OPENAI_API_KEY"),
      GetEnvOr(env, "LOG_LEVEL", DefaultLogLevel),
      GetNumberOr(numbers, "MAX_WORKERS", DefaultMaxWorkers),
      GetNumberOr(numbers, "REQUEST_TIMEOUT", DefaultRequestTimeout),
      GetEnvOr(env, "DATABASE_URL", DefaultDatabaseUrl),
      GetNumberOr(numbers, "TOKEN_EXPIRY_HOURS", DefaultTokenExpiryHours),
      GetNumberOr(numbers, "MAX_REQUESTS_PER_MINUTE", DefaultMaxRequestsPerMinute))
  }

  // ---------------------------------------------------------------------------
  // validate
  // ---------------------------------------------------------------------------

  const IsRequired: string := " is required"
  const WhenUsing: string := " when using "
  const TokenRequired: string := "TELEGRAM_TOKEN" + IsRequired
  const GoogleKeyRequired: string := "GOOGLE_API_KEY" + IsRequired + WhenUsing + "Google provider"
  const OpenAiKeyRequired: string := "OPENAI_API_KEY" + IsRequired + WhenUsing + "OpenAI provider"
  const InvalidProviderPrefix: string := "Invalid LLM_PROVIDER: "
  const FailureHeader: string := "Configuration validation failed:"
  const FailureFooter: string := "Please check your .env file"

  /** A setting counts as missing when it is unset or empty. */
  predicate Missing(value: Option<string>) {
    value.None? || value.value == ""
  }

  /** The provider the lower-cased name selects, if any. */
  function ProviderOf(name: string): Option<Provider> {
    if name == "google" then Some(Google)
    else if name == "openai" then Some(OpenAi)
    else None
  }

  /** The error the provider check adds, if any. */
  function ProviderErrors(c: Config): (errs: seq<string>)
    ensures |errs| <= 1
  {
    match ProviderOf(c.llmProvider)
    case Some(Google) => if Missing(c.googleApiKey) then [GoogleKeyRequired] else []
    case Some(OpenAi) => if Missing(c.openAiApiKey) then [OpenAiKeyRequired] else []
    case None => [InvalidProviderPrefix + c.llmProvider]
  }

  /**
   * Every check runs and the errors accumulate in order: the token first,
   * then at most one about the provider.
   */
  function ConfigErrors(c: Config): (errs: seq<string>)
    ensures |errs| <= 2
    ensures TokenRequired in errs <==> Missing(c.telegramToken)
    ensures Missing(c.telegramToken) ==> errs[0] == TokenRequired
    ensures GoogleKeyRequired in errs <==> c.llmProvider == "google" && Missing(c.googleApiKey)
    ensures OpenAiKeyRequired in errs <==> c.llmProvider == "openai" && Missing(c.openAiApiKey)
    ensures (InvalidProviderPrefix + c.llmProvider) in errs <==> c.llmProvider != "google" && c.llmProvider != "openai"
  {
    var token := if Missing(c.telegramToken) then [TokenRequired] else [];
    var provider := ProviderErrors(c);
    assert TokenRequired[0] == 'T' && GoogleKeyRequired[0] == 'G' && OpenAiKeyRequired[0] == 'O';
    assert (InvalidProviderPrefix + c.llmProvider)[0] == 'I';
    token + provider
  }

  /** The text of the configuration error for a non-empty list of problems. */
  function FailureMessage(errs: seq<string>): string {
    FailureHeader + "\n" + Join(errs, "\n") + "\n" + FailureFooter
  }

  /** `Config.validate`: no error exactly when the token is set and the chosen provider has its key. */
  function Validate(c: Config): (r: Option<BotError>)
    ensures r.None? <==> (!Missing(c.telegramToken)
      && ((c.llmProvider == "google" && !Missing(c.googleApiKey))
          || (c.llmProvider == "openai" && !Missing(c.openAiApiKey))))
    ensures r.Some? ==> r.value.ConfigurationError? && r.value.message == FailureMessage(ConfigErrors(c))
  {
    var errs := ConfigErrors(c);
    if errs == [] then None
    else
      assert |ProviderErrors(c)| == 0 ==> ProviderOf(c.llmProvider).Some?;
      Some(ConfigurationError(FailureMessage(errs)))
  }

  /** The error message is one line per problem, between the fixed header and footer lines. */
  lemma ValidationMessageLines(c: Config)
    requires Validate(c).Some?
    requires '\n' !in c.llmProvider
    ensures SplitOn(Validate(c).value.message, "\n") == [FailureHeader] + ConfigErrors(c) + [FailureFooter]
  {
    var errs := ConfigErrors(c);
    var lines := [FailureHeader] + errs + [FailureFooter];
    MessageIsJoin(FailureHeader, errs, FailureFooter);
    NoBreakInLines(c);
    SplitOnJoin(lines, '\n');
  }

  /** Surrounding one or two lines with a header and a footer, joined by line breaks. */
  lemma {:induction false} MessageIsJoin(h: string, errs: seq<string>, f: string)
    requires 1 <= |errs| <= 2
    ensures Join([h] + errs + [f], "\n") == h + "\n" + Join(errs, "\n") + "\n" + f
  {
    if |errs| == 1 {
      var e := errs[0];
      assert errs == [e];
      MessageOfOne(h, e, f);
    } else {
      var e0, e1 := errs[0], errs[1];
      assert errs == [e0, e1];
      MessageOfTwo(h, e0, e1, f);
    }
  }

  lemma {:induction false} MessageOfOne(h: string, e: string, f: string)
    ensures Join([h] + [e] + [f], "\n") == h + "\n" + Join([e], "\n") + "\n" + f
  {
    assert [h] + [e] + [f] == [h, e, f];
    JoinThree(h, e, f);
  }

  lemma {:induction false} MessageOfTwo(h: string, e0: string, e1: string, f: string)
    ensures Join([h] + [e0, e1] + [f], "\n") == h + "\n" + Join([e0, e1], "\n") + "\n" + f
  {
    assert [h] + [e0, e1] + [f] == [h, e0, e1, f];
    JoinTwo(e0, e1);
    JoinFour(h, e0, e1, f);
  }

  lemma {:induction false} JoinTwo(a: string, b: string)
    ensures Join([a, b], "\n") == a + "\n" + b
  {
    assert [a, b][1..] == [b];
  }

  lemma {:induction false} JoinThree(a: string, b: string, c: string)
    ensures Join([a, b, c], "\n") == a + "\n" + b + "\n" + c
  {
    assert [a, b, c][1..] == [b, c];
    assert [b, c][1..] == [c];
    var m := Join([b, c], "\n");
    assert Join([c], "\n") == c;
    assert m == b + "\n" + Join([c], "\n");
    assert Join([a, b, c], "\n") == a + "\n" + m;
    JoinAround(a, b, c);
  }

  lemma {:induction false} JoinFour(a: string, b: string, c: string, d: string)
    ensures Join([a, b, c, d], "\n") == a + "\n" + (b + "\n" + c) + "\n" + d
  {
    assert [a, b, c, d][1..] == [b, c, d];
    JoinThree(b, c, d);
    var m := Join([b, c, d], "\n");
    assert Join([a, b, c, d], "\n") == a + "\n" + m;
    JoinAround4(a, b, c, d);
  }

  lemma {:induction false} JoinAround(h: string, m: string, f: string)
    ensures h + "\n" + (m + "\n" + f) == h + "\n" + m + "\n" + f
  {
  }

  lemma {:induction false} JoinAround4(a: string, b: string, c: string, d: string)
    ensures a + "\n" + (b + "\n" + c + "\n" + d) == a + "\n" + (b + "\n" + c) + "\n" + d
  {
  }

  /** No line of the message contains a line break. */
  lemma NoBreakInLines(c: Config)
    requires '\n' !in c.llmProvider
    ensures forall k | 0 <= k < |[FailureHeader] + ConfigErrors(c) + [FailureFooter]| ::
      '\n' !in ([FailureHeader] + ConfigErrors(c) + [FailureFooter])[k]
  {
    var errs := ConfigErrors(c);
    var lines := [FailureHeader] + errs + [FailureFooter];
    assert '\n' !in "Configuration" && '\n' !in " validation failed:";
    assert '\n' !in "Please check" && '\n' !in " your .env file";
    forall k | 0 <= k < |lines|
      ensures '\n' !in lines[k]
    {
      if 0 < k < |lines| - 1 {
        assert lines[k] == errs[k - 1];
        NotInProviderError(c, errs[k - 1]);
      }
    }
  }

  /** None of the possible problem lines contains a line break when the provider name has none. */
  lemma NotInProviderError(c: Config, e: string)
    requires e in ConfigErrors(c) && '\n' !in c.llmProvider
    ensures '\n' !in e
  {
    FixedErrorsOneLine();
    if e != TokenRequired && e != GoogleKeyRequired && e != OpenAiKeyRequired {
      assert e == InvalidProviderPrefix + c.llmProvider;
      NoBreakInConcat(InvalidProviderPrefix, c.llmProvider);
    }
  }

  lemma NoBreakInConcat(a: string, b: string)
    requires '\n' !in a && '\n' !in b
    ensures '\n' !in a + b
  {
  }

  /** The fixed problem lines are single lines. */
  lemma FixedErrorsOneLine()
    ensures '\n' !in TokenRequired && '\n' !in GoogleKeyRequired
    ensures '\n' !in OpenAiKeyRequired && '\n' !in InvalidProviderPrefix
  {
    SharedPartsOneLine();
    TokenLineOneLine();
    KeyLineOneLine("GOOGLE_API_KEY", "Google provider");
    KeyLineOneLine("OPENAI_API_KEY", "OpenAI provider");
  }

  lemma SharedPartsOneLine()
    ensures '\n' !in IsRequired && '\n' !in WhenUsing && '\n' !in InvalidProviderPrefix
  {
  }

  lemma TokenLineOneLine()
    ensures '\n' !in TokenRequired
  {
    assert '\n' !in "TELEGRAM_TOKEN";
    SharedPartsOneLine();
    NoBreakInConcat("TELEGRAM_TOKEN", IsRequired);
  }

  lemma KeyLineOneLine(name: string, provider: string)
    requires name == "GOOGLE_API_KEY" || name == "OPENAI_API_KEY"
    requires provider == "Google provider" || provider == "OpenAI provider"
    ensures '\n' !in name + IsRequired + WhenUsing + provider
  {
    assert '\n' !in name;
    assert '\n' !in provider;
    SharedPartsOneLine();
    NoBreakInConcat(name, IsRequired);
    NoBreakInConcat(name + IsRequired, WhenUsing);
    NoBreakInConcat(name + IsRequired + WhenUsing, provider);
  }

  /** Provider names differing only in letter case validate identically, because the name is lower-cased at load. */
  lemma ProviderCaseInsensitive(env: Env, numbers: map<string, int>, a: string, b: string)
    requires Lower(a) == Lower(b)
    ensures Validate(Load(env["LLM_PROVIDER" := a], numbers)) == Validate(Load(env["LLM_PROVIDER" := b], numbers))
  {
  }

  /** `GOOGLE` selects the Google provider. */
  lemma UpperCaseGoogle()
    ensures Lower("GOOGLE") == "google"
  {
    assert Lower("GOOGLE") == [LowerChar('G'), LowerChar('O'), LowerChar('O'), LowerChar('G'), LowerChar('L'), LowerChar('E')];
  }

  /** An empty environment fails with exactly two problems: no token and no Google key. */
  lemma EmptyEnvironmentErrors(numbers: map<string, int>)
    ensures ConfigErrors(Load(map[], numbers)) == [TokenRequired, GoogleKeyRequired]
  {
    assert Lower(DefaultProvider) == "google" by {
      assert Lower("google") == [LowerChar('g'), LowerChar('o'), LowerChar('o'), LowerChar('g'), LowerChar('l'), LowerChar('e')];
    }
  }

  // ---------------------------------------------------------------------------
  // to_dict
  // ---------------------------------------------------------------------------

  datatype ConfigValue = StrValue(text: string) | IntValue(number: int)

  /** `Config.to_dict`: the public settings only. */
  function ToDict(c: Config): (d: map<string, ConfigValue>)
    ensures d.Keys == {"llm_provider", "model_name", "log_level", "database_url", "request_timeout"}
    ensures d["llm_provider"] == StrValue(c.llmProvider)
    ensures d["model_name"] == StrValue(c.modelName)
    ensures d["log_level"] == StrValue(c.logLevel)
    ensures d["database_url"] == StrValue(c.databaseUrl)
    ensures d["request_timeout"] == IntValue(c.requestTimeout)
  {
    map[
      "llm_provider" := StrValue(c.llmProvider),
      "model_name" := StrValue(c.modelName),
      "log_level" := StrValue(c.logLevel),
      "database_url" := StrValue(c.databaseUrl),
      "request_timeout" := IntValue(c.requestTimeout)]
  }

  /** The public view does not depend on the token or either key: changing any secret leaves it identical. */
  lemma ToDictHidesSecrets(c: Config, token: Option<string>, googleKey: Option<string>, openAiKey: Option<string>)
    ensures ToDict(c.(telegramToken := token, googleApiKey := googleKey, openAiApiKey := openAiKey)) == ToDict(c)
    ensures "telegram_token" !in ToDict(c) && "google_api_key" !in ToDict(c) && "openai_api_key" !in ToDict(c)
  {
  }
}
