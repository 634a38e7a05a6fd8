/**
 * `load_config`: three settings read from the environment, filled from `config.local.json`
 * when the run is local and that file exists, then validated.
 *
 * The environment, the CI flag, the file's existence and its parsed contents are inputs.
 * A setting is `None` when unset; Python treats `None` and the empty string alike as missing.
 */
module Config {
  import opened Results

  /** The three settings, each as read (`None` when unset). */
  datatype Settings = Settings(token: Option<string>, flightNumber: Option<string>, targetUrl: Option<string>)

  /**
   * `config.local.json` as seen by the run: absent, present but failing to open or to read as a
   * JSON object, or read, giving the values it holds for the three keys.
   */
  datatype LocalFile = Absent | Unreadable | Loaded(values: Settings)

  /** The validated configuration `load_config` returns. */
  datatype RunConfig = RunConfig(token: string, flightNumber: string, targetUrl: string)

  /** Why `load_config` returns `None`, in the order the checks are made. */
  datatype ConfigError = FileUnreadable | MissingToken | MissingFlightNumber | MissingTargetUrl | PlaceholderToken

  const TokenExample: string := "你的PushPlus Token"
  const TokenMask: string := "******"

  /** The two sample tokens the configuration templates ship with. */
  predicate IsPlaceholder(token: string) {
    token == TokenExample || token == TokenMask
  }

  /** Python truthiness of an optional string: set and non-empty. */
  predicate Present(v: Option<string>) {
    v.Some? && v.value != []
  }

  /** Python's `a or b` on optional strings. */
  function Or(a: Option<string>, b: Option<string>): (r: Option<string>)
    ensures Present(a) ==> r == a
    ensures !Present(a) ==> r == b
    ensures Present(r) <==> Present(a) || Present(b)
  {
    if Present(a) then a else b
  }

  /** Each environment value that is missing or empty replaced by the file's value. */
  function Fill(env: Settings, file: Settings): (r: Settings)
    ensures Present(env.token) ==> r.token == env.token
    ensures !Present(env.token) ==> r.token == file.token
    ensures Present(env.flightNumber) ==> r.flightNumber == env.flightNumber
    ensures !Present(env.flightNumber) ==> r.flightNumber == file.flightNumber
    ensures Present(env.targetUrl) ==> r.targetUrl == env.targetUrl
    ensures !Present(env.targetUrl) ==> r.targetUrl == file.targetUrl
  {
    Settings(Or(env.token, file.token), Or(env.flightNumber, file.flightNumber), Or(env.targetUrl, file.targetUrl))
  }

  /**
   * The settings after the local file has been consulted, or the read failure. The file is
   * consulted only outside CI and only when it exists.
   */
  function Merged(env: Settings, inCi: bool, file: LocalFile): (r: Result<Settings, ConfigError>)
    ensures r.Err? <==> !inCi && file.Unreadable?
    ensures r.Err? ==> r.error == FileUnreadable
    ensures inCi || file.Absent? ==> r == Ok(env)
    ensures !inCi && file.Loaded? ==> r == Ok(Fill(env, file.values))
  {
    if !inCi && !file.Absent? then
      if file.Unreadable? then Err(FileUnreadable) else Ok(Fill(env, file.values))
    else
      Ok(env)
  }

  /** The checks on the merged settings: presence of each value in turn, then the token. */
  function Validate(s: Settings): (r: Result<RunConfig, ConfigError>)
    ensures r.Ok? <==> Present(s.token) && Present(s.flightNumber) && Present(s.targetUrl) && !IsPlaceholder(s.token.value)
    ensures r.Ok? ==> r.value == RunConfig(s.token.value, s.flightNumber.value, s.targetUrl.value)
  {
    if !Present(s.token) then Err(MissingToken)
    else if !Present(s.flightNumber) then Err(MissingFlightNumber)
    else if !Present(s.targetUrl) then Err(MissingTargetUrl)
    else if IsPlaceholder(s.token.value) then Err(PlaceholderToken)
    else Ok(RunConfig(s.token.value, s.flightNumber.value, s.targetUrl.value))
  }

  /** What `load_config` yields for the given inputs. */
  function Resolve(env: Settings, inCi: bool, file: LocalFile): (r: Result<RunConfig, ConfigError>)
    ensures r.Ok? ==> r.value.token != [] && r.value.flightNumber != [] && r.value.targetUrl != []
    ensures r.Ok? ==> !IsPlaceholder(r.value.token)
  {
    match Merged(env, inCi, file)
    case Err(e) => Err(e)
    case Ok(s) => Validate(s)
  }

  /** The settings keys of the `config` dictionary. */
  const TokenKey: string := "PUSHPLUS_TOKEN"
  const FlightKey: string := "FLIGHT_NUMBER"
  const UrlKey: string := "TARGET_URL"

  /**
   * `load_config`: builds the `config` dictionary from the environment, lets the local file fill
   * its gaps, and checks it.
   */
  method LoadConfig(env: Settings, inCi: bool, file: LocalFile) returns (r: Result<RunConfig, ConfigError>)
    ensures r == Resolve(env, inCi, file)
  {
    var config: map<string, Option<string>> := map[];
    config := config[TokenKey := env.token];
    config := config[FlightKey := env.flightNumber];
    config := config[UrlKey := env.targetUrl];
    if !inCi && !file.Absent? {
      if file.Unreadable? {
        return Err(FileUnreadable);
      }
      config := config[TokenKey := Or(config[TokenKey], file.values.token)];
      config := config[FlightKey := Or(config[FlightKey], file.values.flightNumber)];
      config := config[UrlKey := Or(config[UrlKey], file.values.targetUrl)];
    }
    ghost var merged := Settings(config[TokenKey], config[FlightKey], config[UrlKey]);
    assert Merged(env, inCi, file) == Ok(merged);
    if !Present(config[TokenKey]) {
      return Err(MissingToken);
    }
    if !Present(config[FlightKey]) {
      return Err(MissingFlightNumber);
    }
    if !Present(config[UrlKey]) {
      return Err(MissingTargetUrl);
    }
    if config[TokenKey].value == TokenExample || config[TokenKey].value == TokenMask {
      return Err(PlaceholderToken);
    }
    return Ok(RunConfig(config[TokenKey].value, config[FlightKey].value, config[UrlKey].value));
  }

  /**
   * A configuration comes back exactly when the file (if consulted) was readable, all three merged
   * values are non-empty and the token is no placeholder.
   */
  lemma ResolveSucceedsIff(env: Settings, inCi: bool, file: LocalFile)
    ensures Resolve(env, inCi, file).Ok? <==>
      && Merged(env, inCi, file).Ok?
      && var s := Merged(env, inCi, file).value;
         Present(s.token) && Present(s.flightNumber) && Present(s.targetUrl) && !IsPlaceholder(s.token.value)
  {
  }

  /**
   * The checks run in order, and each failure is reported by its own check: the error names the
   * first check that fails, and only that one.
   */
  lemma ChecksInOrder(env: Settings, inCi: bool, file: LocalFile)
    ensures var r := Resolve(env, inCi, file);
      var m := Merged(env, inCi, file);
      && (r == Err(FileUnreadable) <==> !inCi && file.Unreadable?)
      && (r == Err(MissingToken) <==> m.Ok? && !Present(m.value.token))
      && (r == Err(MissingFlightNumber) <==> m.Ok? && Present(m.value.token) && !Present(m.value.flightNumber))
      && (r == Err(MissingTargetUrl) <==>
            m.Ok? && Present(m.value.token) && Present(m.value.flightNumber) && !Present(m.value.targetUrl))
      && (r == Err(PlaceholderToken) <==>
            && m.Ok? && Present(m.value.token) && Present(m.value.flightNumber) && Present(m.value.targetUrl)
            && IsPlaceholder(m.value.token.value))
  {
  }

  /** A non-empty environment value is always the one used, whatever the file says. */
  lemma EnvironmentWins(env: Settings, inCi: bool, file: LocalFile)
    requires Resolve(env, inCi, file).Ok?
    ensures Present(env.token) ==> Resolve(env, inCi, file).value.token == env.token.value
    ensures Present(env.flightNumber) ==> Resolve(env, inCi, file).value.flightNumber == env.flightNumber.value
    ensures Present(env.targetUrl) ==> Resolve(env, inCi, file).value.targetUrl == env.targetUrl.value
  {
  }

  /**
   * A file value is used only for a missing or empty environment value, only outside CI and only
   * when the file was read.
   */
  lemma FileOnlyFillsGaps(env: Settings, inCi: bool, file: LocalFile)
    requires Resolve(env, inCi, file).Ok?
    ensures !Present(env.token) ==>
      !inCi && file.Loaded? && Some(Resolve(env, inCi, file).value.token) == file.values.token
    ensures !Present(env.flightNumber) ==>
      !inCi && file.Loaded? && Some(Resolve(env, inCi, file).value.flightNumber) == file.values.flightNumber
    ensures !Present(env.targetUrl) ==>
      !inCi && file.Loaded? && Some(Resolve(env, inCi, file).value.targetUrl) == file.values.targetUrl
  {
  }

  /** In CI the local file is never consulted. */
  lemma CiIgnoresFile(env: Settings, file: LocalFile)
    ensures Resolve(env, true, file) == Resolve(env, true, Absent)
    ensures Resolve(env, true, file) == Validate(env)
  {
  }

  /** Outside CI an unreadable file fails the run even when the environment is complete. */
  lemma UnreadableFileFails(env: Settings)
    ensures Resolve(env, false, Unreadable) == Err(FileUnreadable)
  {
  }
}
