/** The rate-limit callbacks every Octokit script hands to the throttling plugin.
    Only the decisions are modelled; the plugin's timers and HTTP traffic are not. */
module Throttle {
  import opened Text

  /** The retry bound all scripts use in `onRateLimit`. */
  const MaxRetries: nat := 5

  /** `onRateLimit`: whether the plugin is asked to retry a request that hit the
      primary rate limit, given how often that request was already retried.
      Returning `undefined` (no `return true`) means "do not retry". */
  function OnRateLimit(retryCount: nat): bool {
    retryCount < MaxRetries
  }

  /** What a script does on a secondary rate limit: some only log, some also
      call `process.exit(1)`. */
  datatype SecondaryPolicy = LogOnly | LogAndExit

  /** The outcome of a rate-limit callback: whether the request is retried,
      and the exit code the process ends with, if it ends. */
  datatype Reaction = Reaction(retry: bool, exitCode: Option<int>)

  /** `onSecondaryRateLimit`: never retries; exits with code 1 under `LogAndExit`. */
  function OnSecondaryRateLimit(policy: SecondaryPolicy): (r: Reaction)
    ensures !r.retry
    ensures r.exitCode.Some? <==> policy == LogAndExit
    ensures r.exitCode.Some? ==> r.exitCode.value == 1
  {
    Reaction(false, if policy == LogAndExit then Some(1) else None)
  }

  /** The number of retries the plugin performs for one request that meets
      `signals` primary rate limits in a row, its retry counter starting at
      `retryCount`. */
  function RetriesGranted(retryCount: nat, signals: nat): nat
    decreases signals
  {
    if signals == 0 then 0
    else if OnRateLimit(retryCount) then 1 + RetriesGranted(retryCount + 1, signals - 1)
    else 0
  }

  /** Whether a request that meets `signals` primary rate limits before the
      server accepts it eventually completes, or fails for good. */
  function Completes(retryCount: nat, signals: nat): bool
    decreases signals
  {
    signals == 0 || (OnRateLimit(retryCount) && Completes(retryCount + 1, signals - 1))
  }

  lemma {:induction false} RetriesGrantedFrom(retryCount: nat, signals: nat)
    ensures RetriesGranted(retryCount, signals)
         == if retryCount >= MaxRetries then 0
            else if signals < MaxRetries - retryCount then signals
            else MaxRetries - retryCount
    ensures Completes(retryCount, signals) <==> signals == 0 || retryCount + signals <= MaxRetries
    decreases signals
  {
    if signals > 0 && OnRateLimit(retryCount) {
      RetriesGrantedFrom(retryCount + 1, signals - 1);
    }
  }

  /** A fresh request is retried at most five times, however long the primary
      rate limit persists; it completes iff the limit lifts within five retries. */
  lemma RetryBound(signals: nat)
    ensures RetriesGranted(0, signals) == if signals < MaxRetries then signals else MaxRetries
    ensures RetriesGranted(0, signals) <= MaxRetries
    ensures Completes(0, signals) <==> signals <= MaxRetries
  {
    RetriesGrantedFrom(0, signals);
  }
}
