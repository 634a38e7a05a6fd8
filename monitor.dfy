/**
 * One run of `main`: load the configuration, fetch the page (the navigation retry loop, then the
 * page content), extract the price and send at most one notification.
 *
 * The browser is reduced to the navigation outcomes and the page it hands back once navigation
 * has succeeded (`None` when an unexpected browser error ends the fetch).
 */
module Monitor {
  import opened Results
  import opened Config
  import opened Navigation
  import opened Price
  import opened Notify

  /** What the fetch hands to `main`: `None` after a failed navigation, else the page (if any). */
  function Fetch(attempts: seq<Attempt>, page: Option<Markup>): (r: Option<Markup>)
    requires |attempts| > MaxRetries
    ensures OkResponse in attempts[..MaxRetries + 1] ==> r == page
    ensures OkResponse !in attempts[..MaxRetries + 1] ==> r.None?
  {
    if OkResponse in attempts[..MaxRetries + 1] then page else None
  }

  /** The outcome `main` branches on: no or empty HTML is a fetch failure, else the extracted price. */
  function OutcomeOf(html: Option<Markup>, flight: string): (o: RunOutcome)
    ensures o == FetchFailed <==> html.None? || html.value.EmptyMarkup?
  {
    if html.None? || html.value.EmptyMarkup? then FetchFailed
    else Fetched(Extract(html.value, flight).ToOption())
  }

  /** A configuration `load_config` accepts always carries a token notifications may use. */
  lemma LoadedTokenIsValid(env: Settings, inCi: bool, file: LocalFile)
    requires Resolve(env, inCi, file).Ok?
    ensures TokenValid(Some(Resolve(env, inCi, file).value.token))
  {
  }

  /**
   * `main`. Returns the configuration result, the notifications sent (at most one) and how
   * sending ended, if it was attempted.
   */
  method RunMonitor(env: Settings, inCi: bool, file: LocalFile, attempts: seq<Attempt>, page: Option<Markup>,
                    render: real -> string, now: string, reply: Reply)
    returns (config: Result<RunConfig, ConfigError>, sent: seq<Message>, status: Option<SendStatus>)
    requires |attempts| > MaxRetries
    ensures config == Resolve(env, inCi, file)
    ensures |sent| <= 1
    ensures config.Err? ==> sent == [] && status == None
    ensures config.Ok? ==>
      var c := config.value;
      && sent == [Compose(c.flightNumber, c.targetUrl, inCi, OutcomeOf(Fetch(attempts, page), c.flightNumber), render, now)]
      && status == Some(Send(Some(c.token), reply))
  {
    config := LoadConfig(env, inCi, file);
    if config.Err? {
      return config, [], None;
    }
    var token := config.value.token;
    var flight := config.value.flightNumber;
    var url := config.value.targetUrl;
    LoadedTokenIsValid(env, inCi, file);

    var nav := NavigateWithRetries(MaxRetries, attempts);
    var html := if nav.success then page else None;

    var outcome: RunOutcome;
    if html.Some? && !html.value.EmptyMarkup? {
      var price := ParsePrice(html.value, flight);
      outcome := Fetched(price.ToOption());
    } else {
      outcome := FetchFailed;
    }

    var message := Decide(Some(token), flight, url, inCi, outcome, render, now);
    sent := [];
    status := None;
    if message.Some? {
      sent := sent + [message.value];
      status := Some(Send(Some(token), reply));
    }
  }

  /** A run whose navigation never got an ok response reports a fetch failure. */
  lemma NavigationFailureReported(attempts: seq<Attempt>, page: Option<Markup>, flight: string)
    requires |attempts| > MaxRetries
    requires OkResponse !in attempts[..MaxRetries + 1]
    ensures OutcomeOf(Fetch(attempts, page), flight) == FetchFailed
  {
  }

  /** A price `v` is reported exactly when extraction from a fetched page gives `v`. */
  lemma PriceReportedIff(html: Option<Markup>, flight: string, v: real)
    ensures OutcomeOf(html, flight) == Fetched(Some(v)) <==> html.Some? && Extract(html.value, flight) == Price(v)
  {
  }

  /** A fetched page from which no price is extracted is reported as a failed query. */
  lemma NoPriceReportedAsQueryFailure(html: Option<Markup>, flight: string)
    requires html.Some? && html.value.Rendered?
    ensures OutcomeOf(html, flight) == Fetched(None) <==> !Extract(html.value, flight).Price?
  {
  }
}
