/**
 * The three fetchers of akshare_downloader.py and the retry policy that
 * decorates each of them: tenacity's retry with a fixed wait of 2 and a stop
 * after the third attempt.
 * The upstream provider is an abstract function from a request and an
 * attempt number to that attempt's outcome.
 */
module Fetch {
  import opened Wrappers
  import opened Store

  /** The attempt after which the retry policy gives up. */
  const MaxAttempts: nat := 3

  /** The fixed wait: seconds slept after a failed attempt that is retried. */
  const WaitSeconds: nat := 2

  /**
   * One fetcher call: `fetch_daily`, `fetch_weekly` or `fetch_minute`
   * (chosen by `kind`) for `code` over the date range `start`..`end`.
   */
  datatype Request = Request(kind: Kind, code: string, start: string, end: string)

  /** What one call to the upstream provider does: return a frame or raise. */
  datatype Attempt = Fetched(rows: seq<Row>) | Raised(reason: string)

  /** The upstream provider: the outcome of the `n`-th attempt (from 0) at a request. */
  type Provider = (Request, nat) -> Attempt

  /** `tenacity.RetryError`, wrapping the exception of the last attempt. */
  datatype RetryError = RetryError(last: string)

  /** What a decorated fetcher returns or raises, and how many attempts it made. */
  datatype Fetch = Fetch(result: Result<seq<Row>, RetryError>, attempts: nat)

  /**
   * The retry policy from attempt `i` on: stop at the first attempt that
   * returns, give up with the last error once attempt `MaxAttempts` raised.
   */
  function RetryFrom(p: Provider, req: Request, i: nat): (f: Fetch)
    requires i < MaxAttempts
    ensures i < f.attempts <= MaxAttempts
    ensures forall j :: i <= j < f.attempts - 1 ==> p(req, j).Raised?
    ensures f.result.Ok? <==> p(req, f.attempts - 1).Fetched?
    ensures f.result.Ok? ==> f.result.value == p(req, f.attempts - 1).rows
    ensures f.result.Err? ==> f.attempts == MaxAttempts && f.result.error == RetryError(p(req, MaxAttempts - 1).reason)
    decreases MaxAttempts - i
  {
    match p(req, i)
    case Fetched(rows) => Fetch(Ok(rows), i + 1)
    case Raised(reason) =>
      if i + 1 == MaxAttempts then Fetch(Err(RetryError(reason)), MaxAttempts)
      else RetryFrom(p, req, i + 1)
  }

  /** A decorated fetcher called once on `req`. */
  function Retry(p: Provider, req: Request): (f: Fetch)
  {
    RetryFrom(p, req, 0)
  }

  /**
   * The retry bound: between one and three attempts; the call succeeds
   * exactly when one of the first three attempts returns, with the frame of
   * the first that does, and otherwise raises after exactly three attempts.
   */
  lemma RetryBound(p: Provider, req: Request)
    ensures var f := Retry(p, req);
            && 1 <= f.attempts <= MaxAttempts
            && (f.result.Ok? <==> exists i :: 0 <= i < MaxAttempts && p(req, i).Fetched?)
            && (f.result.Ok? ==> forall j :: 0 <= j < f.attempts - 1 ==> p(req, j).Raised?)
            && (f.result.Ok? ==> f.result.value == p(req, f.attempts - 1).rows)
            && (f.result.Err? ==> f.attempts == MaxAttempts && forall j :: 0 <= j < MaxAttempts ==> p(req, j).Raised?)
  {
    var f := Retry(p, req);
    if f.result.Ok? {
      assert p(req, f.attempts - 1).Fetched?;
    }
  }

  /**
   * Calling a decorated fetcher: the attempt loop tenacity runs, counting
   * the seconds it waits between attempts.
   */
  method FetchWithRetry(p: Provider, req: Request) returns (result: Result<seq<Row>, RetryError>, attempts: nat, waited: nat)
    ensures Fetch(result, attempts) == Retry(p, req)
    ensures waited == WaitSeconds * (attempts - 1)
  {
    var i: nat := 0;
    waited := 0;
    while true
      invariant i < MaxAttempts
      invariant waited == WaitSeconds * i
      invariant RetryFrom(p, req, i) == Retry(p, req)
      decreases MaxAttempts - i
    {
      var attempt := p(req, i);
      if attempt.Fetched? {
        return Ok(attempt.rows), i + 1, waited;
      }
      if i + 1 == MaxAttempts {
        return Err(RetryError(attempt.reason)), MaxAttempts, waited;
      }
      waited := waited + WaitSeconds;
      i := i + 1;
    }
  }
}
