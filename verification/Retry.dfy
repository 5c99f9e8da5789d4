/**
 The retry policy: which failures are transient, and when the budget is spent.
 */
module Retry {
  import opened Base

  datatype TransientKind =
    | ConnectionReset
    | Timeout
    | RateLimited
    | ServiceUnavailable
    | ServerError
    | TruncatedBody
    | NotRetryable

  const MAX_RETRIES: nat := 5

  function FromStatus(status: nat): Option<TransientKind>
  {
    if status == 401 || status == 403 || status == 410 then None
    else if status == 408 then Some(Timeout)
    else if status == 429 then Some(RateLimited)
    else if status == 503 then Some(ServiceUnavailable)
    else if 500 <= status <= 599 then Some(ServerError)
    else if 400 <= status <= 499 then Some(NotRetryable)
    else None
  }

  /** Whether the policy stops instead of waiting; the delay itself is not modelled. */
  predicate GivesUp(kind: TransientKind, attempt: nat)
  {
    kind == NotRetryable || attempt >= MAX_RETRIES
  }
}
