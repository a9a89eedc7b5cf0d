/** The client's retry loop, with its 32-bit attempt counter and 64-bit delays. */
module HttpRetry {
  import opened Powers
  import opened Prelude

  datatype HttpError =
    | Network
    | Matrix(status: nat, errcode: string, retryAfterMs: Option<nat>)
    | InvalidResponse(status: nat)
    | Serialization
    | InvalidUrl
    | AuthenticationRequired
    | MaxRetriesExceeded

  /** `is_retryable`. */
  predicate Retryable(e: HttpError) {
    match e
    case Matrix(status, errcode, _) => status >= 500 || errcode == "M_LIMIT_EXCEEDED"
    case Network => true
    case InvalidResponse(status) => status >= 500
    case _ => false
  }

  const U64 := 0x1_0000_0000_0000_0000

  /** `100 * 2u64.pow(attempt - 1)`, in 64 bits. */
  function BackoffMs(attempt: nat): nat
    requires attempt > 0
  {
    100 * Power2(attempt - 1) % U64
  }

  function DelayMs(e: HttpError, attempt: nat): nat
    requires attempt > 0
  {
    if e.Matrix? && e.retryAfterMs.Some? then e.retryAfterMs.value else BackoffMs(attempt)
  }

  type Replies<R> = nat -> Result<R, HttpError>

  /** The milliseconds slept before request `n`, counted from zero. */
  ghost function Slept<R>(replies: Replies<R>, n: nat): nat {
    if n == 0 then 0
    else Slept(replies, n - 1) + if replies(n - 1).Failure? then DelayMs(replies(n - 1).error, n) else 0
  }

  /** Request `i` fails with an error worth another attempt, and one is left. */
  ghost predicate GoesOn<R>(replies: Replies<R>, i: nat, maxRetries: nat) {
    replies(i).Failure? && Retryable(replies(i).error) && i + 1 < maxRetries
  }

  /**
   `request_with_retry`: `n` requests are made, all but the last answered by a retryable error, and the result is the
   last answer, or `MaxRetriesExceeded` when it is an error and no attempt is left.
   */
  method RequestWithRetry<R>(replies: Replies<R>, maxRetries: nat) returns (r: Result<R, HttpError>, n: nat, slept: nat)
    ensures 1 <= n && (n <= maxRetries || n == 1)
    ensures forall i :: 0 <= i < n - 1 ==> GoesOn(replies, i, maxRetries)
    ensures !GoesOn(replies, n - 1, maxRetries)
    ensures slept == Slept(replies, n - 1)
    ensures r == match replies(n - 1)
                 case Success(v) => Success(v)
                 case Failure(e) => Failure(if n >= maxRetries then MaxRetriesExceeded else e)
  {
    var attempt := 0;
    slept := 0;
    while true
      invariant attempt == 0 || attempt < maxRetries
      invariant forall i :: 0 <= i < attempt ==> GoesOn(replies, i, maxRetries)
      invariant slept == Slept(replies, attempt)
      decreases maxRetries - attempt
    {
      var reply := replies(attempt);
      if reply.Success? {
        return Success(reply.value), attempt + 1, slept;
      }
      attempt := attempt + 1;
      if !Retryable(reply.error) || attempt >= maxRetries {
        return Failure(if attempt >= maxRetries then MaxRetriesExceeded else reply.error), attempt, slept;
      }
      slept := slept + DelayMs(reply.error, attempt);
    }
  }

  /** These facts determine the number of requests, so the loop's outcome is the only one they allow. */
  lemma RequestsDetermined<R>(replies: Replies<R>, maxRetries: nat, m: nat, n: nat)
    requires m > 0 && n > 0
    requires (forall i :: 0 <= i < m - 1 ==> GoesOn(replies, i, maxRetries)) && !GoesOn(replies, m - 1, maxRetries)
    requires (forall i :: 0 <= i < n - 1 ==> GoesOn(replies, i, maxRetries)) && !GoesOn(replies, n - 1, maxRetries)
    ensures m == n
  {
  }

  lemma LargePowers()
    ensures Power2(57) == 0x200_0000_0000_0000 && Power2(58) == 0x400_0000_0000_0000
  {
    Power2Plus8(1);
    Power2Plus8(9);
    Power2Plus8(17);
    Power2Plus8(25);
    Power2Plus8(33);
    Power2Plus8(41);
    Power2Plus8(49);
  }

  /**
   A delay is the intended power of two exactly up to attempt 58, so in every run exactly when at most 59 retries are
   allowed.
   */
  lemma DelayFitsExactly(attempt: nat)
    requires attempt > 0
    ensures BackoffMs(attempt) == 100 * Power2(attempt - 1) <==> attempt <= 58
  {
    LargePowers();
    if attempt <= 58 {
      Power2Monotone(attempt - 1, 57);
    } else {
      Power2Monotone(58, attempt - 1);
    }
  }

  /** A temporary failure: of the network, of the server, or its rate limit. */
  predicate Temporary(e: HttpError) {
    || e == Network
    || (e.InvalidResponse? && e.status >= 500)
    || (e.Matrix? && (e.status >= 500 || e.errcode == "M_LIMIT_EXCEEDED"))
  }

  /** Another request follows exactly a temporary failure with an attempt left, whatever came before. */
  lemma RetriesExactly<R>(replies: Replies<R>, i: nat, maxRetries: nat)
    ensures GoesOn(replies, i, maxRetries) <==>
            replies(i).Failure? && Temporary(replies(i).error) && i + 1 < maxRetries
  {
  }

  /** The sleep after a failed request is the server's hint to the millisecond, or 100 * 2^i without one. */
  lemma SleepExact<R>(replies: Replies<R>, i: nat)
    requires replies(i).Failure?
    ensures var e, pause := replies(i).error, Slept(replies, i + 1) - Slept(replies, i);
            && (e.Matrix? && e.retryAfterMs.Some? ==> pause == e.retryAfterMs.value)
            && (!(e.Matrix? && e.retryAfterMs.Some?) && i < 58 ==> pause == 100 * Power2(i))
  {
    hide Power2, BackoffMs;
    DelayFitsExactly(i + 1);
  }

  /** Without server hints, the sleep before request `n` totals 100 * (2^n - 1) milliseconds. */
  lemma {:induction false} TotalBackoff<R>(replies: Replies<R>, n: nat)
    requires n <= 58
    requires forall i :: 0 <= i < n ==>
               replies(i).Failure? && !(replies(i).error.Matrix? && replies(i).error.retryAfterMs.Some?)
    ensures Slept(replies, n) == 100 * (Power2(n) - 1)
  {
    if n > 0 {
      TotalBackoff(replies, n - 1);
      DelayFitsExactly(n);
    }
  }

  /**
   With at most 59 retries every computed delay is the intended one; with more, a run of retryable errors reaches one
   that is not.
   */
  lemma DelaysNeverOverflowExactly(maxRetries: nat)
    ensures maxRetries <= 59 <==>
            forall attempt :: 0 < attempt < maxRetries ==> BackoffMs(attempt) == 100 * Power2(attempt - 1)
  {
    forall attempt | 0 < attempt < maxRetries && maxRetries <= 59
      ensures BackoffMs(attempt) == 100 * Power2(attempt - 1)
    {
      DelayFitsExactly(attempt);
    }
    if maxRetries > 59 {
      DelayFitsExactly(59);
    }
  }
}
