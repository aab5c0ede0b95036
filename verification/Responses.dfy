/**
 How an HTTP response becomes a verdict for the retry policy.
 */
module Responses {
  import opened Wrappers

  const MAX_INT64 := 0x7FFF_FFFF_FFFF_FFFF
  const NANOS_PER_SECOND := 1_000_000_000
  const TOO_MANY_REQUESTS := 429

  /** Two's-complement wrap-around of 64-bit signed arithmetic. */
  function Wrap(x: int): (r: int)
    ensures -MAX_INT64 - 1 <= r <= MAX_INT64
    ensures -MAX_INT64 - 1 <= x <= MAX_INT64 ==> r == x
  {
    (x + 0x8000_0000_0000_0000) % 0x1_0000_0000_0000_0000 - 0x8000_0000_0000_0000
  }

  datatype SendError = SendError(status: int, retryable: bool, rateLimited: bool, retryAfter: int)

  /** The outcome of one send; an error that is no SendError, and a panic, are outcomes too. */
  datatype Reply = Ok | Failed(e: SendError) | OtherError | Panics

  /**
   A Retry-After header: absent, or a value with what the integer parser makes of it and, for an HTTP
   date, the time left until then.
   */
  datatype RetryAfter = Absent | Value(seconds: Option<int>, untilDate: Option<int>)

  function ParseRetryAfter(h: RetryAfter): int {
    match h
    case Absent => 0
    case Value(seconds, untilDate) =>
      if seconds.Some? && seconds.value >= 0 then Wrap(seconds.value * NANOS_PER_SECOND)
      else if untilDate.Some? && untilDate.value > 0 then untilDate.value
      else 0
  }

  function Classify(status: int, h: RetryAfter): Reply {
    if 200 <= status < 300 then Ok
    else if status == TOO_MANY_REQUESTS then Failed(SendError(status, true, true, ParseRetryAfter(h)))
    else if status >= 500 then Failed(SendError(status, true, false, 0))
    else Failed(SendError(status, false, false, 0))
  }

  predicate RateLimited(r: Reply) {
    r.Failed? && r.e.rateLimited
  }

  /** A failure that no retry can cure. */
  predicate Permanent(r: Reply) {
    r.Failed? && !r.e.rateLimited && !r.e.retryable
  }

  /** A failure that a retry may cure, and that says nothing about when. */
  predicate Transient(r: Reply) {
    r.OtherError? || (r.Failed? && !r.e.rateLimited && r.e.retryable)
  }

  /** A response is a success, a rate limit, a transient or a permanent failure, by its status alone. */
  lemma ClassesOfStatus(status: int, h: RetryAfter)
    ensures Classify(status, h).Ok? <==> 200 <= status <= 299
    ensures RateLimited(Classify(status, h)) <==> status == 429
    ensures Transient(Classify(status, h)) <==> status >= 500
    ensures Permanent(Classify(status, h)) <==> !(200 <= status <= 299) && status != 429 && status < 500
    ensures Classify(status, h).Failed? ==> Classify(status, h).e.status == status
    ensures Classify(status, h).Ok? || Classify(status, h).Failed?
  {
  }

  /** The wait after a rate-limited reply. */
  function RateLimitWait(floor: int, r: Reply): int
    requires RateLimited(r)
  {
    if r.e.retryAfter > floor then r.e.retryAfter else floor
  }

  /**
   A delay given in seconds is honoured exactly up to 9223372036 seconds: beyond that the conversion
   to nanoseconds wraps and the wait is shorter than asked for.  The configured floor always holds.
   */
  lemma RetryAfterIsHonoured(floor: int, secs: int, untilDate: Option<int>)
    requires 0 <= secs <= MAX_INT64 && floor <= MAX_INT64
    ensures var r := Classify(TOO_MANY_REQUESTS, Value(Some(secs), untilDate));
            && RateLimitWait(floor, r) >= floor
            && (RateLimitWait(floor, r) >= secs * NANOS_PER_SECOND <==> secs <= 9223372036)
  {
    if secs <= 9223372036 {
      assert secs * NANOS_PER_SECOND <= MAX_INT64;
    } else {
      assert secs * NANOS_PER_SECOND > MAX_INT64;
    }
  }

  /** The wait after a rate limit is the least that honours both the floor and the header. */
  lemma RateLimitWaitIsLeast(floor: int, r: Reply, d: int)
    requires RateLimited(r)
    ensures RateLimitWait(floor, r) >= floor && RateLimitWait(floor, r) >= r.e.retryAfter
    ensures d >= floor && d >= r.e.retryAfter ==> d >= RateLimitWait(floor, r)
    ensures !(r.e.retryAfter > floor) ==> RateLimitWait(floor, r) == floor
  {
  }

  /**
   Seconds in range ask for exactly that, whatever a date parser would make of them; otherwise the time
   until a date to come does, and anything else asks for nothing.
   */
  lemma HeaderForms(secs: int, until: Option<int>)
    ensures ParseRetryAfter(Absent) == 0
    ensures 0 <= secs <= 9223372036 ==> ParseRetryAfter(Value(Some(secs), until)) == secs * NANOS_PER_SECOND
    ensures secs < 0 ==> ParseRetryAfter(Value(Some(secs), until)) == ParseRetryAfter(Value(None, until))
    ensures until.Some? && until.value > 0 ==> ParseRetryAfter(Value(None, until)) == until.value
    ensures until.None? || until.value <= 0 ==> ParseRetryAfter(Value(None, until)) == 0
  {
    if 0 <= secs <= 9223372036 {
      assert secs * NANOS_PER_SECOND <= MAX_INT64;
    }
  }
}
