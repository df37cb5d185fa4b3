/**
 * Sending a LINE message with retries: up to five attempts, an exponential
 * back-off of 5 * 2^k seconds after a rate-limited (HTTP 429) attempt k, and
 * an immediate failure on any other error.
 *
 * The LINE broadcast call is abstracted as `respond`, which gives the outcome
 * of attempt k; the back-off sleeps are returned as data (`waits`).
 */
module Dispatch {
  import opened Wrappers

  datatype Outcome = Ok | RateLimited | OtherError

  /** What one call of the sender did: its result, the broadcasts it made and the sleeps between them. */
  datatype Report = Report(sent: bool, broadcasts: nat, waits: seq<nat>)

  const MaxRetries: nat := 5
  const RetryDelay: nat := 5

  function Pow2(k: nat): nat
  {
    if k == 0 then 1 else 2 * Pow2(k - 1)
  }

  /** Seconds slept after attempt `k` was rate-limited. */
  function Backoff(k: nat): nat
  {
    RetryDelay * Pow2(k)
  }

  function Sum(s: seq<nat>): nat
  {
    if s == [] then 0 else s[0] + Sum(s[1..])
  }

  /** The broadcast loop from attempt `attempt` on. */
  function SendFrom(respond: nat -> Outcome, attempt: nat): Report
    requires attempt < MaxRetries
    decreases MaxRetries - attempt
  {
    match respond(attempt)
    case Ok => Report(true, 1, [])
    case OtherError => Report(false, 1, [])
    case RateLimited =>
      if attempt < MaxRetries - 1 then
        var rest := SendFrom(respond, attempt + 1);
        Report(rest.sent, rest.broadcasts + 1, [Backoff(attempt)] + rest.waits)
      else
        Report(false, 1, [])
  }

  /**
   * The whole sender: an empty message fails without an attempt; a message
   * for a user id succeeds without a broadcast (the push branch is disabled);
   * otherwise the broadcast loop runs.
   */
  function Send(message: string, userId: Option<string>, respond: nat -> Outcome): Report
  {
    if message == [] then Report(false, 0, [])
    else if userId.Some? then Report(true, 0, [])
    else SendFrom(respond, 0)
  }

  /**
   * The retry policy stated outright of a report of the broadcasts made from
   * attempt `start` on: at least one and at most the attempts left; every
   * broadcast but the last was rate-limited and was followed by the wait
   * 5 * 2^k; success is the last outcome being Ok; and a rate-limited last
   * broadcast happens only as the fifth attempt.
   */
  predicate FollowsRetryPolicyFrom(respond: nat -> Outcome, start: nat, r: Report)
  {
    && 1 <= r.broadcasts <= MaxRetries - start
    && |r.waits| == r.broadcasts - 1
    && (forall k :: 0 <= k < |r.waits| ==> r.waits[k] == Backoff(start + k))
    && (forall k :: start <= k < start + r.broadcasts - 1 ==> respond(k) == RateLimited)
    && (r.sent <==> respond(start + r.broadcasts - 1) == Ok)
    && (respond(start + r.broadcasts - 1) == RateLimited ==> start + r.broadcasts == MaxRetries)
  }

  predicate FollowsRetryPolicy(respond: nat -> Outcome, r: Report)
  {
    FollowsRetryPolicyFrom(respond, 0, r)
  }

  /** A rate-limited attempt followed by a policy-abiding rest abides by the policy. */
  lemma RetryPolicyStep(respond: nat -> Outcome, attempt: nat, rest: Report)
    requires attempt < MaxRetries - 1 && respond(attempt) == RateLimited
    requires FollowsRetryPolicyFrom(respond, attempt + 1, rest)
    ensures FollowsRetryPolicyFrom(respond, attempt,
      Report(rest.sent, rest.broadcasts + 1, [Backoff(attempt)] + rest.waits))
  {
    var w := [Backoff(attempt)] + rest.waits;
    assert forall k :: 1 <= k < |w| ==> w[k] == rest.waits[k - 1];
  }

  /** The broadcast loop from any attempt on abides by the retry policy. */
  lemma {:induction false} SendFromFacts(respond: nat -> Outcome, attempt: nat)
    requires attempt < MaxRetries
    decreases MaxRetries - attempt
    ensures FollowsRetryPolicyFrom(respond, attempt, SendFrom(respond, attempt))
  {
    if respond(attempt) == RateLimited && attempt < MaxRetries - 1 {
      SendFromFacts(respond, attempt + 1);
      RetryPolicyStep(respond, attempt, SendFrom(respond, attempt + 1));
    }
  }

  /**
   * The broadcast loop follows the retry policy, and the policy leaves no
   * choice: a report follows it exactly when it is what the loop produces.
   */
  lemma {:induction false} RetryPolicyExactly(respond: nat -> Outcome, r: Report)
    ensures FollowsRetryPolicy(respond, r) <==> r == SendFrom(respond, 0)
  {
    var s := SendFrom(respond, 0);
    SendFromFacts(respond, 0);
    assert FollowsRetryPolicy(respond, s);
    if FollowsRetryPolicy(respond, r) {
      assert r.broadcasts == s.broadcasts;
      assert r.waits == s.waits;
    }
  }

  /**
   * An empty message fails with no attempt; a user-targeted message succeeds
   * with no broadcast; a broadcast follows the retry policy.
   */
  lemma SendContract(message: string, userId: Option<string>, respond: nat -> Outcome)
    ensures message == [] ==> Send(message, userId, respond) == Report(false, 0, [])
    ensures message != [] && userId.Some? ==> Send(message, userId, respond) == Report(true, 0, [])
    ensures message != [] && userId.None? ==> FollowsRetryPolicy(respond, Send(message, userId, respond))
  {
    if message != [] && userId.None? {
      RetryPolicyExactly(respond, SendFrom(respond, 0));
    }
  }

  /** An error other than 429 on the first broadcast fails at once, with no wait. */
  lemma OtherErrorStopsAtOnce(message: string, respond: nat -> Outcome)
    requires message != [] && respond(0) == OtherError
    ensures Send(message, None, respond) == Report(false, 1, [])
  {
  }

  /**
   * Rate-limited four times and accepted the fifth time: sent after exactly
   * five broadcasts, having slept 5, 10, 20 and 40 seconds.
   */
  lemma SucceedsOnFifthAttempt(message: string, respond: nat -> Outcome)
    requires message != []
    requires forall k :: 0 <= k < 4 ==> respond(k) == RateLimited
    requires respond(4) == Ok
    ensures Send(message, None, respond) == Report(true, 5, [5, 10, 20, 40])
  {
    SendFromFacts(respond, 0);
    var r := Send(message, None, respond);
    assert r.broadcasts == 5;
    assert r.waits[0] == 5 && r.waits[1] == 10 && r.waits[2] == 20 && r.waits[3] == 40;
  }

  /**
   * Rate-limited every time: fails after the fifth broadcast, with no sixth,
   * having slept 5, 10, 20 and 40 seconds, 75 in all.
   */
  lemma RateLimitExhausted(message: string, respond: nat -> Outcome)
    requires message != []
    requires forall k :: 0 <= k < MaxRetries ==> respond(k) == RateLimited
    ensures Send(message, None, respond) == Report(false, 5, [5, 10, 20, 40])
    ensures Sum(Send(message, None, respond).waits) == 75
  {
    SendFromFacts(respond, 0);
    var r := Send(message, None, respond);
    assert r.waits[0] == 5 && r.waits[1] == 10 && r.waits[2] == 20 && r.waits[3] == 40;
    assert r.waits == [5, 10, 20, 40];
  }

  /** The loop's outcome given that attempts before `attempt` were rate-limited with sleeps `waits`. */
  function Resume(respond: nat -> Outcome, attempt: nat, waits: seq<nat>): Report
    requires attempt < MaxRetries
  {
    var rest := SendFrom(respond, attempt);
    Report(rest.sent, attempt + rest.broadcasts, waits + rest.waits)
  }

  lemma ResumeAfterRateLimit(respond: nat -> Outcome, attempt: nat, waits: seq<nat>)
    requires attempt < MaxRetries - 1 && respond(attempt) == RateLimited
    ensures Resume(respond, attempt, waits) == Resume(respond, attempt + 1, waits + [Backoff(attempt)])
  {
    var rest := SendFrom(respond, attempt + 1);
    assert waits + ([Backoff(attempt)] + rest.waits) == waits + [Backoff(attempt)] + rest.waits;
  }

  lemma ResumeStops(respond: nat -> Outcome, attempt: nat, waits: seq<nat>)
    requires attempt < MaxRetries
    requires respond(attempt) != RateLimited || attempt == MaxRetries - 1
    ensures Resume(respond, attempt, waits) == Report(respond(attempt) == Ok, attempt + 1, waits)
  {
    assert waits + [] == waits;
  }

  /**
   * The sender as the script runs it: an early return on an empty message,
   * then a loop of at most five attempts with early returns.
   */
  method SendLineNotification(message: string, userId: Option<string>, respond: nat -> Outcome)
    returns (sent: bool, broadcasts: nat, waits: seq<nat>)
    ensures Report(sent, broadcasts, waits) == Send(message, userId, respond)
  {
    broadcasts, waits := 0, [];
    if message == [] {
      return false, broadcasts, waits;
    }
    for attempt := 0 to MaxRetries
      invariant attempt < MaxRetries
      invariant userId.Some? ==> attempt == 0 && waits == []
      invariant broadcasts == attempt
      invariant userId.None? ==> SendFrom(respond, 0) == Resume(respond, attempt, waits)
    {
      if userId.None? {
        var outcome := respond(attempt);
        broadcasts := broadcasts + 1;
        match outcome
        case Ok =>
          ResumeStops(respond, attempt, waits);
          return true, broadcasts, waits;
        case RateLimited =>
          if attempt < MaxRetries - 1 {
            ResumeAfterRateLimit(respond, attempt, waits);
            waits := waits + [Backoff(attempt)];
          } else {
            ResumeStops(respond, attempt, waits);
            return false, broadcasts, waits;
          }
        case OtherError =>
          ResumeStops(respond, attempt, waits);
          return false, broadcasts, waits;
      } else {
        return true, broadcasts, waits;
      }
    }
    // The fifth attempt always returns.
    assert false;
  }
}
