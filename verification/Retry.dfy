/**
 The retry loops of the HTTP client. Durations are in nanoseconds; attempt numbers and
 entropy are 32-bit. What a send comes to, and what the clock reads, are functions of the
 attempt, so a run is any sequence of outcomes.
 */
module Retry {
  import opened Basics

  const U32: nat := 0x1_0000_0000
  const MILLISECOND: nat := 1_000_000
  const SECOND: nat := 1000 * MILLISECOND
  const INITIAL_RETRY_DELAY: nat := 500 * MILLISECOND
  const MAX_RETRY_AFTER: nat := 60 * SECOND

  type u32 = n: nat | n < 0x1_0000_0000

  datatype Method = GET | HEAD | DELETE | PUT | OPTIONS | POST | PATCH | TRACE | CONNECT

  predicate IsIdempotent(m: Method) { m in {GET, HEAD, DELETE, PUT, OPTIONS} }

  predicate IsRetryableStatus(status: nat) { status in {408, 429, 500, 502, 503, 504} }

  /** What one attempt comes to. */
  datatype Outcome =
    | Success                                          // a 2xx status: the response decides the result
    | SendError(timeoutOrConnect: bool)                // no response
    | BodyError(status: nat)                           // an error status whose body cannot be read
    | ApiError(status: nat, retryAfter: Option<nat>)   // an error status, with its retry-after delay

  // ---------------------------------------------------------------------
  // Delays
  // ---------------------------------------------------------------------

  function Pow2(k: nat): nat { if k == 0 then 1 else 2 * Pow2(k - 1) }

  function Min(a: nat, b: nat): nat { if a <= b then a else b }

  function DelayForAttempt(attempt: u32): nat {
    var shift := Min(attempt, 31);
    Min(INITIAL_RETRY_DELAY * Pow2(shift), 60 * SECOND)
  }

  /** `subsec` is the sub-second part of the wall clock; the arithmetic wraps at 32 bits. */
  function JitteredDelay(attempt: u32, subsec: u32): nat {
    var scrambled := (subsec * 1_103_515_245 % U32 + 12_345) % U32;
    var factor := 500 + scrambled % 500;
    DelayForAttempt(attempt) * factor / 1000
  }

  lemma {:induction false} Pow2Grows(a: nat, b: nat)
    requires a <= b
    ensures 1 <= Pow2(a) <= Pow2(b)
    decreases b
  {
    if a < b {
      Pow2Grows(a, b - 1);
    } else if a > 0 {
      Pow2Grows(a - 1, a - 1);
    }
  }

  lemma {:induction false} Pow2Exact()
    ensures Pow2(6) == 64 && Pow2(7) == 128 && Pow2(31) == 0x8000_0000
  {
    assert Pow2(8) == 256;
    assert Pow2(16) == 256 * Pow2(8) by { assert Pow2(12) == 16 * Pow2(8); }
    assert Pow2(24) == 256 * Pow2(16) by { assert Pow2(20) == 16 * Pow2(16); }
    assert Pow2(31) == 128 * Pow2(24) by { assert Pow2(28) == 16 * Pow2(24); }
  }

  /**
   The delays: half a second, doubling up to the cap of one minute, which is reached from
   the eighth attempt on. The shift fits 32 bits, so nothing overflows.
   */
  lemma DelayBounds(attempt: u32)
    ensures INITIAL_RETRY_DELAY <= DelayForAttempt(attempt) <= 60 * SECOND
    ensures attempt >= 7 <==> DelayForAttempt(attempt) == 60 * SECOND
    ensures attempt < 7 ==> DelayForAttempt(attempt) == INITIAL_RETRY_DELAY * Pow2(attempt)
    ensures Pow2(Min(attempt, 31)) < U32
    ensures DelayForAttempt(attempt) % 1000 == 0
  {
    var shift := Min(attempt, 31);
    Pow2Exact();
    Pow2Grows(0, shift);
    Pow2Grows(shift, 31);
    if attempt >= 7 {
      Pow2Grows(7, shift);
    } else {
      Pow2Grows(shift, 6);
    }
    Scaled(Pow2(shift), attempt >= 7);
  }

  lemma Scaled(factor: nat, late: bool)
    requires if late then factor >= 128 else 1 <= factor <= 64
    ensures INITIAL_RETRY_DELAY <= INITIAL_RETRY_DELAY * factor
    ensures INITIAL_RETRY_DELAY * factor > 60 * SECOND <==> late
    ensures INITIAL_RETRY_DELAY * factor % 1000 == 0
  {
    assert INITIAL_RETRY_DELAY * factor == 1000 * (500_000 * factor);
    assert factor == 64 ==> INITIAL_RETRY_DELAY * factor == 32 * SECOND;
  }

  lemma DelayNeverShrinks(a: u32, b: u32)
    requires a <= b
    ensures DelayForAttempt(a) <= DelayForAttempt(b)
  {
    DelayBounds(a);
    DelayBounds(b);
    if b < 7 {
      Pow2Grows(a, b);
    }
  }

  /** Jitter takes the delay into [d/2, d), exactly: the division loses nothing. */
  lemma JitterBounds(attempt: u32, subsec: u32)
    ensures var d := DelayForAttempt(attempt);
            d <= 2 * JitteredDelay(attempt, subsec) && JitteredDelay(attempt, subsec) < d
    ensures exists f :: 500 <= f < 1000 && 1000 * JitteredDelay(attempt, subsec) == DelayForAttempt(attempt) * f
  {
    var d := DelayForAttempt(attempt);
    DelayBounds(attempt);
    var factor := 500 + (subsec * 1_103_515_245 % U32 + 12_345) % U32 % 500;
    var unit := d / 1000;
    assert d == 1000 * unit;
    ExactDivision(unit, factor);
    assert JitteredDelay(attempt, subsec) == unit * factor;
    ScaledBounds(unit, factor);
    assert 500 <= factor < 1000 && 1000 * JitteredDelay(attempt, subsec) == d * factor;
  }

  lemma ExactDivision(unit: nat, factor: nat)
    ensures 1000 * unit * factor / 1000 == unit * factor
    ensures 1000 * (unit * factor) == 1000 * unit * factor
  {
    assert 1000 * unit * factor == 1000 * (unit * factor);
  }

  lemma ScaledBounds(unit: nat, factor: nat)
    requires unit > 0 && 500 <= factor < 1000
    ensures 1000 * unit <= 2 * (unit * factor) && unit * factor < 1000 * unit
  {
    ScaledMore(unit, 500, factor);
    ScaledMore(unit, factor, 999);
  }

  lemma {:induction false} ScaledMore(unit: nat, a: nat, b: nat)
    requires a <= b
    ensures unit * a <= unit * b
    decreases b - a
  {
    if a < b {
      ScaledMore(unit, a + 1, b);
      assert unit * (a + 1) == unit * a + unit;
    }
  }

  // ---------------------------------------------------------------------
  // The loops
  // ---------------------------------------------------------------------

  /** How long to wait before the next attempt; None: this outcome is final. */
  function RetryDelay(m: Method, attempt: u32, o: Outcome, subsec: u32): Option<nat> {
    if !IsIdempotent(m) then None
    else
      match o
      case SendError(true) => Some(JitteredDelay(attempt, subsec))
      case ApiError(status, after) =>
        if !IsRetryableStatus(status) then None
        else if after.None? then Some(JitteredDelay(attempt, subsec))
        else if after.value > MAX_RETRY_AFTER then None
        else Some(after.value)
      case _ => None
  }

  type Outcomes = nat -> Outcome
  type Clock = nat -> u32

  /** Attempts `0..last` were retried after the sleeps given. */
  ghost predicate Retried(m: Method, maxRetries: u32, outcomes: Outcomes, clock: Clock, last: nat, sleeps: seq<nat>) {
    && last <= maxRetries && |sleeps| == last
    && (forall i :: 0 <= i < last ==> RetryDelay(m, i, outcomes(i), clock(i)) == Some(sleeps[i]))
  }

  /** And attempt `last` is final. */
  ghost predicate IsRun(m: Method, maxRetries: u32, outcomes: Outcomes, clock: Clock, last: nat, sleeps: seq<nat>) {
    && Retried(m, maxRetries, outcomes, clock, last, sleeps)
    && (last == maxRetries || RetryDelay(m, last, outcomes(last), clock(last)).None?)
  }

  /** `request`: the outcome of attempt `last` is returned, after `last + 1` sends. */
  method Request(m: Method, maxRetries: u32, outcomes: Outcomes, clock: Clock) returns (last: nat, sleeps: seq<nat>)
    ensures IsRun(m, maxRetries, outcomes, clock, last, sleeps)
  {
    var attempt: u32 := 0;
    sleeps := [];
    while true
      invariant attempt <= maxRetries && |sleeps| == attempt
      invariant forall i :: 0 <= i < attempt ==> RetryDelay(m, i, outcomes(i), clock(i)) == Some(sleeps[i])
      decreases maxRetries - attempt
    {
      match outcomes(attempt) {
        case SendError(transient) =>
          var shouldRetry := IsIdempotent(m) && transient && attempt < maxRetries;
          if !shouldRetry {
            return attempt, sleeps;
          }
          sleeps := sleeps + [JitteredDelay(attempt, clock(attempt))];
        case Success => return attempt, sleeps;
        case BodyError(_) => return attempt, sleeps;
        case ApiError(status, retryAfter) =>
          var isRetryable := IsIdempotent(m) && IsRetryableStatus(status);
          if !(isRetryable && attempt < maxRetries) {
            return attempt, sleeps;
          }
          var delay: nat;
          match retryAfter {
            case Some(d) =>
              if d > MAX_RETRY_AFTER {
                return attempt, sleeps;
              }
              delay := d;
            case None => delay := JitteredDelay(attempt, clock(attempt));
          }
          sleeps := sleeps + [delay];
      }
      attempt := attempt + 1;
    }
  }

  /**
   `request_multipart`: the form is built anew for each attempt, and a form that cannot be
   built ends the loop (`built` is false) without a send.
   */
  method RequestMultipart(m: Method, maxRetries: u32, forms: nat -> bool, outcomes: Outcomes, clock: Clock)
      returns (last: nat, sleeps: seq<nat>, built: bool)
    ensures built ==> IsRun(m, maxRetries, outcomes, clock, last, sleeps) && forall i :: 0 <= i <= last ==> forms(i)
    ensures !built ==>
      && Retried(m, maxRetries, outcomes, clock, last, sleeps)
      && !forms(last) && forall i :: 0 <= i < last ==> forms(i)
  {
    var attempt: u32 := 0;
    sleeps := [];
    while true
      invariant attempt <= maxRetries && |sleeps| == attempt
      invariant forall i :: 0 <= i < attempt ==> forms(i) && RetryDelay(m, i, outcomes(i), clock(i)) == Some(sleeps[i])
      decreases maxRetries - attempt
    {
      if !forms(attempt) {
        return attempt, sleeps, false;
      }
      match outcomes(attempt) {
        case SendError(transient) =>
          var shouldRetry := IsIdempotent(m) && transient && attempt < maxRetries;
          if !shouldRetry {
            return attempt, sleeps, true;
          }
          sleeps := sleeps + [JitteredDelay(attempt, clock(attempt))];
        case Success => return attempt, sleeps, true;
        case BodyError(_) => return attempt, sleeps, true;
        case ApiError(status, retryAfter) =>
          var isRetryable := IsIdempotent(m) && IsRetryableStatus(status);
          if !(isRetryable && attempt < maxRetries) {
            return attempt, sleeps, true;
          }
          var delay: nat;
          match retryAfter {
            case Some(d) =>
              if d > MAX_RETRY_AFTER {
                return attempt, sleeps, true;
              }
              delay := d;
            case None => delay := JitteredDelay(attempt, clock(attempt));
          }
          sleeps := sleeps + [delay];
      }
      attempt := attempt + 1;
    }
  }

  function Sum(s: seq<nat>): nat { if s == [] then 0 else s[0] + Sum(s[1..]) }

  lemma {:induction false} SumAtMost(s: seq<nat>, bound: nat)
    requires forall i :: 0 <= i < |s| ==> s[i] <= bound
    ensures Sum(s) <= bound * |s|
  {
    if s != [] {
      SumAtMost(s[1..], bound);
      assert bound * |s| == bound + bound * (|s| - 1);
    }
  }

  /**
   An attempt worth repeating: the request can be repeated without harm, and it got no answer
   in time, or an answer that says to come back, at once or within a minute.
   */
  ghost predicate Transient(m: Method, o: Outcome) {
    && (m == GET || m == HEAD || m == PUT || m == DELETE || m == OPTIONS)
    && match o
       case SendError(timeoutOrConnect) => timeoutOrConnect
       case ApiError(status, retryAfter) =>
         (status == 408 || status == 429 || status == 500 || 502 <= status <= 504)
         && (retryAfter == None || retryAfter.value <= 60 * SECOND)
       case _ => false
  }

  lemma TransientIsRetried(m: Method, attempt: u32, o: Outcome, subsec: u32)
    ensures RetryDelay(m, attempt, o, subsec).Some? <==> Transient(m, o)
    ensures Transient(m, o) ==>
            RetryDelay(m, attempt, o, subsec).value == SleepAfter(o, attempt, subsec)
  {
  }

  /**
   The runs, without the policy function: every attempt but the last was transient and was
   followed by the delay the server asked for, or else by the jittered one; the last attempt
   is not transient, or the retries are used up.
   */
  lemma RunIff(m: Method, maxRetries: u32, outcomes: Outcomes, clock: Clock, last: nat, sleeps: seq<nat>)
    ensures IsRun(m, maxRetries, outcomes, clock, last, sleeps) <==>
            && last <= maxRetries && |sleeps| == last
            && (forall i :: 0 <= i < last ==>
                  Transient(m, outcomes(i)) && sleeps[i] == SleepAfter(outcomes(i), i, clock(i)))
            && (last == maxRetries || !Transient(m, outcomes(last)))
  {
    if last <= maxRetries && |sleeps| == last {
      forall i | 0 <= i <= last
        ensures RetryDelay(m, i, outcomes(i), clock(i)) ==
                if Transient(m, outcomes(i)) then Some(SleepAfter(outcomes(i), i, clock(i))) else None
      {
        TransientIsRetried(m, i, outcomes(i), clock(i));
      }
    }
  }

  function SleepAfter(o: Outcome, attempt: u32, subsec: u32): nat {
    if o.ApiError? && o.retryAfter.Some? then o.retryAfter.value else JitteredDelay(attempt, subsec)
  }

  /** Both loops run the same policy, and the policy leaves no choice. */
  lemma RunIsUnique(m: Method, maxRetries: u32, outcomes: Outcomes, clock: Clock,
                    last: nat, sleeps: seq<nat>, last': nat, sleeps': seq<nat>)
    requires IsRun(m, maxRetries, outcomes, clock, last, sleeps)
    requires IsRun(m, maxRetries, outcomes, clock, last', sleeps')
    ensures last == last' && sleeps == sleeps'
  {
  }

  /**
   For every sequence of outcomes, and for both ends of a run, a final outcome and a form
   that cannot be built: no retry for a method that is not idempotent, no sleep over a
   minute, and so at most maxRetries minutes in all; what the client chose itself is at
   least a quarter of a second.
   */
  lemma RetriesAreBounded(m: Method, maxRetries: u32, outcomes: Outcomes, clock: Clock, last: nat, sleeps: seq<nat>)
    requires Retried(m, maxRetries, outcomes, clock, last, sleeps)
    ensures m == POST || m == PATCH || !IsIdempotent(m) ==> last == 0 && sleeps == []
    ensures forall i :: 0 <= i < |sleeps| ==> sleeps[i] <= 60 * SECOND
    ensures forall i :: 0 <= i < |sleeps| && outcomes(i).SendError? ==> 4 * sleeps[i] >= SECOND
    ensures Sum(sleeps) <= 60 * SECOND * maxRetries
  {
    forall i | 0 <= i < |sleeps|
      ensures sleeps[i] <= 60 * SECOND && (outcomes(i).SendError? ==> 4 * sleeps[i] >= SECOND)
    {
      assert RetryDelay(m, i, outcomes(i), clock(i)) == Some(sleeps[i]);
      DelayBounds(i);
      JitterBounds(i, clock(i));
    }
    if last > 0 {
      assert RetryDelay(m, 0, outcomes(0), clock(0)) == Some(sleeps[0]);
    }
    SumAtMost(sleeps, 60 * SECOND);
    assert 60 * SECOND * |sleeps| <= 60 * SECOND * maxRetries;
  }
}
