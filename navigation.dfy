/**
 * The retry loop that navigates the browser to the search page: at most `MaxRetries + 1`
 * attempts, stopping at the first response that is ok, with a pause between attempts.
 *
 * What each attempt yields is an input, one entry per attempt in order.
 */
module Navigation {

  /** What one `page.goto` attempt yields. */
  datatype Attempt =
    | OkResponse     // a response whose status is ok
    | NotOkResponse  // a response with an error status
    | NoResponse     // no response object, and no exception
    | BrowserError   // a Playwright timeout or error

  const MaxRetries: nat := 1

  /** Seconds slept before each retry. */
  const RetryDelay: nat := 5

  /** The result of the loop: whether navigation succeeded, attempts made and pauses taken. */
  datatype Navigation = Navigation(success: bool, attempts: nat, delays: nat)

  /**
   * The loop for `maxRetries` retries. A browser error on the last attempt returns at once; any
   * other failure falls out of the loop; both end in failure without a further pause.
   */
  method NavigateWithRetries(maxRetries: nat, outcomes: seq<Attempt>) returns (r: Navigation)
    requires |outcomes| > maxRetries
    ensures 1 <= r.attempts <= maxRetries + 1
    ensures r.success <==> OkResponse in outcomes[..maxRetries + 1]
    ensures r.success ==> outcomes[r.attempts - 1] == OkResponse
    ensures OkResponse !in outcomes[..r.attempts - 1]
    ensures !r.success ==> r.attempts == maxRetries + 1
    ensures r.delays == r.attempts - 1
  {
    var targetNavSuccess := false;
    var delays := 0;
    var attempt := 0;
    while attempt < maxRetries + 1
      invariant 0 <= attempt <= maxRetries + 1
      invariant !targetNavSuccess
      invariant OkResponse !in outcomes[..attempt]
      invariant delays == if attempt <= maxRetries then attempt else maxRetries
    {
      assert outcomes[..attempt + 1] == outcomes[..attempt] + [outcomes[attempt]];
      match outcomes[attempt] {
        case OkResponse =>
          targetNavSuccess := true;
          break;
        case NotOkResponse =>
        case NoResponse =>
        case BrowserError =>
          if attempt >= maxRetries {
            return Navigation(false, attempt + 1, delays);
          }
      }
      if !targetNavSuccess && attempt < maxRetries {
        delays := delays + 1;
      }
      attempt := attempt + 1;
    }
    if !targetNavSuccess {
      assert outcomes[..maxRetries + 1] == outcomes[..attempt];
      return Navigation(false, attempt, delays);
    }
    assert outcomes[attempt] in outcomes[..maxRetries + 1];
    r := Navigation(true, attempt + 1, delays);
  }
}
