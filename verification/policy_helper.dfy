/** The resilience policy of the content service's outbound HTTP client
    (`PolicyHelper`): an outer 10-second timeout, wrapping a retry (3 retries,
    waiting 2^n seconds before retry n), wrapping a consecutive-count circuit
    breaker (opens after 2 transient failures, for 30 seconds).

    The three policies are Polly's; their behaviour is modelled abstractly here,
    sequentially, over an explicit clock in whole seconds:
    - retry: an outcome is retried only when it is a transient HTTP error; before
      retry n (n = 1, 2, 3) the retry callback fires and the call sleeps 2^n s;
      the breaker's own "circuit is open" rejection is not a transient HTTP error,
      so it is never retried;
    - circuit breaker: Closed counts consecutive transient failures and opens at
      the threshold; a non-transient outcome counts as a success; Open rejects
      without reaching the network until its break has elapsed, then admits one
      trial (HalfOpen) and blocks further trials for another break duration; a
      successful trial closes the circuit (reset callback), a failed one re-opens it;
      an attempt cancelled by the timeout is neither a success nor a failure;
    - timeout (optimistic): the whole retry sequence is cancelled when the clock
      reaches start + 10 s; an attempt or a sleep still running then is abandoned.
    The outcome and duration of each network attempt are inputs. */
module PolicyHelper {
  import opened Common
  import opened Http

  const RetryCount: nat := 3
  const FailureThreshold: nat := 2
  const BreakDuration: nat := 30
  const TimeoutSeconds: nat := 10

  /** How one network attempt ended, as the policies see it. */
  datatype Outcome = Success | Transient | Permanent

  /** `HandleTransientHttpError()`: a request that got no response, a 5xx, or a 408
      is transient; any other response is handed back to the caller as it is. */
  function Classify(o: HttpOutcome): (c: Outcome)
    ensures c.Transient? <==> o.NoResponse? || o.status >= 500 || o.status == 408
    ensures c.Success? <==> Succeeded(o)
  {
    match o
    case NoResponse => Transient
    case Responded(status) =>
      if status >= 500 || status == 408 then Transient
      else if IsSuccessStatusCode(status) then Success
      else Permanent
  }

  function Pow2(n: nat): (p: nat)
  {
    if n == 0 then 1 else 2 * Pow2(n - 1)
  }

  /** The sleep before retry `retryAttempt`: 2^retryAttempt seconds. */
  function RetryDelay(retryAttempt: nat): (seconds: nat)
  {
    Pow2(retryAttempt)
  }

  /** Each delay is twice the one before it. */
  lemma DelaysDouble(retryAttempt: nat)
    ensures RetryDelay(retryAttempt + 1) == 2 * RetryDelay(retryAttempt)
  {
  }

  /** The total sleep before retry `n + 1` can start: the delays of retries 1..n. */
  function Backoff(n: nat): nat
  {
    if n == 0 then 0 else Backoff(n - 1) + RetryDelay(n)
  }

  lemma {:induction false} BackoffClosedForm(n: nat)
    ensures Backoff(n) == Pow2(n + 1) - 2
  {
    if n > 0 {
      BackoffClosedForm(n - 1);
    }
  }

  /** The configured delays are 2, 4 and 8 seconds; the sleep before the third
      retry ends at 6 s, but the three sleeps add up to 14 s, past the 10 s budget. */
  lemma ConfiguredBackoff()
    ensures RetryDelay(1) == 2 && RetryDelay(2) == 4 && RetryDelay(3) == 8
    ensures Backoff(RetryCount - 1) == 6 < TimeoutSeconds
    ensures Backoff(RetryCount) == 14 > TimeoutSeconds
  {
    BackoffClosedForm(RetryCount);
  }

  /** The circuit breaker's state. `blockedTill` is the instant from which the
      next trial call is admitted. */
  datatype Breaker =
    | Closed(failures: nat)
    | Open(blockedTill: Instant)
    | HalfOpen(blockedTill: Instant)

  /** Closed never holds as many failures as the threshold: reaching it opens the circuit. */
  ghost predicate BreakerInv(b: Breaker)
  {
    b.Closed? ==> b.failures < FailureThreshold
  }

  /** The only state changes the breaker makes: Closed to Closed (the counter) or
      Open; Open to HalfOpen once its break has elapsed; HalfOpen to Closed, Open,
      or HalfOpen again (a new trial). */
  ghost predicate Transition(b: Breaker, b': Breaker)
  {
    match b
    case Closed(_) => b'.Closed? || b'.Open?
    case Open(_) => b' == b || b'.HalfOpen?
    case HalfOpen(_) => true
  }

  /** The observable callbacks: retry (`onRetry`), break (`onBreak`), reset
      (`onReset`) and timeout (`onTimeoutAsync`). */
  datatype Event =
    | Retrying(retryAttempt: nat, delay: nat, cause: Outcome)
    | Broken(duration: nat)
    | BreakerReset
    | TimedOutAfter(seconds: nat)

  datatype Admission = Admitted(breaker: Breaker) | Refused

  /** Whether the breaker lets an attempt through at `now`, and its state afterwards. */
  function Admit(b: Breaker, now: Instant): (a: Admission)
    ensures a.Refused? <==> !b.Closed? && now < b.blockedTill
    ensures b.Closed? ==> a == Admitted(b)
    ensures a.Admitted? && !b.Closed? ==> a.breaker == HalfOpen(now + BreakDuration)
    ensures a.Admitted? ==> Transition(b, a.breaker) && !a.breaker.Open?
    ensures a.Admitted? && BreakerInv(b) ==> BreakerInv(a.breaker)
  {
    match b
    case Closed(_) => Admitted(b)
    case Open(till) => if now < till then Refused else Admitted(HalfOpen(now + BreakDuration))
    case HalfOpen(till) => if now < till then Refused else Admitted(HalfOpen(now + BreakDuration))
  }

  /** The breaker's bookkeeping when an admitted attempt ends at `now` with outcome `o`. */
  function Record(b: Breaker, o: Outcome, now: Instant): (r: (Breaker, seq<Event>))
    ensures Transition(b, r.0)
    ensures BreakerInv(b) ==> BreakerInv(r.0)
    ensures b.Open? ==> r == (b, [])
    ensures !b.Open? && !o.Transient? ==> r.0 == Closed(0)
    ensures BreakerReset in r.1 <==> b.HalfOpen? && !o.Transient?
    ensures r.0.Open? && !b.Open? <==>
              o.Transient? && (b.HalfOpen? || (b.Closed? && b.failures + 1 >= FailureThreshold))
    ensures r.0.Open? && !b.Open? ==> r.0.blockedTill == now + BreakDuration && r.1 == [Broken(BreakDuration)]
    ensures b.Closed? && o.Transient? && !r.0.Open? ==> r.0 == Closed(b.failures + 1)
    ensures forall e :: e in r.1 ==> e.Broken? || e.BreakerReset?
  {
    match b
    case Open(_) => (b, [])
    case Closed(n) =>
      if !o.Transient? then (Closed(0), [])
      else if n + 1 >= FailureThreshold then (Open(now + BreakDuration), [Broken(BreakDuration)])
      else (Closed(n + 1), [])
    case HalfOpen(_) =>
      if !o.Transient? then (Closed(0), [BreakerReset])
      else (Open(now + BreakDuration), [Broken(BreakDuration)])
  }

  /** One network attempt: how it ended and how many seconds it took. */
  datatype Attempt = Attempt(outcome: Outcome, duration: nat)

  /** What the caller of the wrapped client gets back: the response of the last
      attempt, a "circuit is open" rejection, or a timeout rejection. */
  datatype CallResult = Completed(outcome: Outcome) | CircuitOpen | TimedOut

  /** One call through the policy: its result, the breaker state it leaves, the
      clock when it returns, how many attempts reached the network, and the
      callbacks it fired, in order. */
  datatype Call = Call(result: CallResult, breaker: Breaker, clock: Instant, attempts: nat, events: seq<Event>)

  /** Every retry callback names a retry 1..3 and its 2^n delay. */
  ghost predicate RetriesWellFormed(events: seq<Event>)
  {
    forall e :: e in events && e.Retrying? ==>
      1 <= e.retryAttempt <= RetryCount && e.delay == RetryDelay(e.retryAttempt) && e.cause == Transient
  }

  /** The retry loop inside the timeout, from retry number `tryCount` on, at `now`,
      with `sent` attempts already made; `network(k)` is the k-th attempt of the call. */
  function RetryLoop(b: Breaker, now: Instant, deadline: Instant, tryCount: nat,
                     network: nat -> Attempt, sent: nat): (c: Call)
    requires tryCount <= RetryCount
    requires now < deadline
    ensures sent <= c.attempts <= sent + (RetryCount + 1 - tryCount)
    ensures now <= c.clock <= deadline
    ensures RetriesWellFormed(c.events)
    ensures BreakerInv(b) ==> BreakerInv(c.breaker)
    ensures c.result.Completed? ==> c.attempts > sent && c.result.outcome == network(c.attempts - 1).outcome
    ensures c.result.TimedOut? <==> c.clock == deadline
    decreases RetryCount - tryCount
  {
    match Admit(b, now)
    case Refused => Call(CircuitOpen, b, now, sent, [])
    case Admitted(b1) =>
      var a := network(sent);
      var finish := now + a.duration;
      if finish >= deadline then
        Call(TimedOut, b1, deadline, sent + 1, [TimedOutAfter(TimeoutSeconds)])
      else
        var (b2, breakerEvents) := Record(b1, a.outcome, finish);
        if !a.outcome.Transient? || tryCount == RetryCount then
          Call(Completed(a.outcome), b2, finish, sent + 1, breakerEvents)
        else
          var delay := RetryDelay(tryCount + 1);
          var events := breakerEvents + [Retrying(tryCount + 1, delay, a.outcome)];
          if finish + delay >= deadline then
            Call(TimedOut, b2, deadline, sent + 1, events + [TimedOutAfter(TimeoutSeconds)])
          else
            var rest := RetryLoop(b2, finish + delay, deadline, tryCount + 1, network, sent + 1);
            rest.(events := events + rest.events)
  }

  /** `GetCombinedPolicy()` applied to one call made at `now` with breaker `b`:
      timeout around retry around breaker. */
  function Execute(b: Breaker, now: Instant, network: nat -> Attempt): (c: Call)
    ensures c.attempts <= RetryCount + 1
    ensures now <= c.clock <= now + TimeoutSeconds
    ensures RetriesWellFormed(c.events)
    ensures BreakerInv(b) ==> BreakerInv(c.breaker)
  {
    RetryLoop(b, now, now + TimeoutSeconds, 0, network, 0)
  }

  /** While the circuit is open, a call fails at once with "circuit open": no
      attempt reaches the network, the breaker is untouched and no time passes. */
  lemma OpenRejectsWithoutNetwork(b: Breaker, now: Instant, network: nat -> Attempt)
    requires !b.Closed? && now < b.blockedTill
    ensures Execute(b, now, network) == Call(CircuitOpen, b, now, 0, [])
  {
  }

  /** A non-transient outcome is handed back after one attempt, with no retry,
      and leaves the circuit closed; from a trial (HalfOpen) it fires the reset callback. */
  lemma NonTransientNotRetried(b: Breaker, now: Instant, network: nat -> Attempt)
    requires Admit(b, now).Admitted?
    requires !network(0).outcome.Transient? && network(0).duration < TimeoutSeconds
    ensures var c := Execute(b, now, network);
            && c.result == Completed(network(0).outcome)
            && c.attempts == 1
            && c.breaker == Closed(0)
            && (forall e :: e in c.events ==> !e.Retrying?)
            && (BreakerReset in c.events <==> !b.Closed?)
  {
  }

  /** Once the break has elapsed one trial goes through. If it fails transiently
      the circuit re-opens for another 30 s from the failure (the break callback
      fires) and the retry that follows is refused, so the trial is the only
      attempt. */
  lemma FailedTrialReopens(b: Breaker, now: Instant, network: nat -> Attempt)
    requires !b.Closed? && b.blockedTill <= now
    requires network(0).outcome.Transient? && network(0).duration < TimeoutSeconds
    ensures var c := Execute(b, now, network);
            var failedAt := now + network(0).duration;
            && c.attempts == 1
            && c.breaker == Open(failedAt + BreakDuration)
            && Broken(BreakDuration) in c.events
            && (c.result == CircuitOpen || c.result == TimedOut)
  {
    var failedAt := now + network(0).duration;
    var c := Execute(b, now, network);
    assert Record(HalfOpen(now + BreakDuration), Transient, failedAt).1 == [Broken(BreakDuration)];
    if failedAt + RetryDelay(1) < now + TimeoutSeconds {
      var rest := RetryLoop(Open(failedAt + BreakDuration), failedAt + RetryDelay(1),
                            now + TimeoutSeconds, 1, network, 1);
      assert rest == Call(CircuitOpen, Open(failedAt + BreakDuration), failedAt + RetryDelay(1), 1, []);
    }
  }

  /** How many more attempts a call that keeps failing transiently can still make
      before the deadline, given the breaker's state. */
  function Allowance(b: Breaker, deadline: Instant): nat
  {
    match b
    case Closed(n) => if n + 1 >= FailureThreshold then 1 else 2
    case Open(till) => if till >= deadline then 0 else 1
    case HalfOpen(till) => if till >= deadline then 0 else 1
  }

  /** One failed, retried attempt: the breaker the retry meets has one attempt
      less of allowance left (a Closed counter climbs, anything else opens past
      the deadline). */
  lemma TransientStepAllowance(b: Breaker, now: Instant, finish: Instant, deadline: Instant)
    requires Admit(b, now).Admitted?
    requires now <= finish < deadline <= now + BreakDuration
    ensures Allowance(Record(Admit(b, now).breaker, Transient, finish).0, deadline) + 1 <= Allowance(b, deadline)
  {
    var b2 := Record(Admit(b, now).breaker, Transient, finish).0;
    match b {
      case Closed(n) =>
        if n + 1 >= FailureThreshold {
          assert b2 == Open(finish + BreakDuration);
        } else {
          assert b2 == Closed(n + 1);
        }
      case Open(_) =>
        assert b2 == Open(finish + BreakDuration);
      case HalfOpen(_) =>
        assert b2 == Open(finish + BreakDuration);
    }
  }

  /** An admitted attempt that fails transiently in time, with a retry due before
      the deadline, hands the loop on to that retry: the attempts add up. */
  lemma TransientRetryContinues(b: Breaker, now: Instant, deadline: Instant,
                                tryCount: nat, network: nat -> Attempt, sent: nat)
    requires tryCount < RetryCount && now < deadline
    requires Admit(b, now).Admitted? && network(sent).outcome == Transient
    requires now + network(sent).duration + RetryDelay(tryCount + 1) < deadline
    ensures var finish := now + network(sent).duration;
            var b2 := Record(Admit(b, now).breaker, Transient, finish).0;
            RetryLoop(b, now, deadline, tryCount, network, sent).attempts
              == RetryLoop(b2, finish + RetryDelay(tryCount + 1), deadline, tryCount + 1, network, sent + 1).attempts
  {
  }

  /** Otherwise the loop stops after at most the one attempt in hand. */
  lemma TransientLoopStops(b: Breaker, now: Instant, deadline: Instant,
                           tryCount: nat, network: nat -> Attempt, sent: nat)
    requires tryCount <= RetryCount && now < deadline
    requires network(sent).outcome == Transient
    requires !(Admit(b, now).Admitted? && tryCount < RetryCount
               && now + network(sent).duration + RetryDelay(tryCount + 1) < deadline)
    ensures var c := RetryLoop(b, now, deadline, tryCount, network, sent);
            c.attempts == if Admit(b, now).Admitted? then sent + 1 else sent
  {
  }

  /** A call that keeps failing transiently makes at most `Allowance` more attempts
      when the deadline lies within one break duration. */
  lemma {:induction false} BreakerCapsTransientLoop(b: Breaker, now: Instant, deadline: Instant,
                                                    tryCount: nat, network: nat -> Attempt, sent: nat)
    requires tryCount <= RetryCount
    requires now < deadline <= now + BreakDuration
    requires forall k :: network(k).outcome == Transient
    ensures RetryLoop(b, now, deadline, tryCount, network, sent).attempts <= sent + Allowance(b, deadline)
    decreases RetryCount - tryCount
  {
    var finish := now + network(sent).duration;
    var next := finish + RetryDelay(tryCount + 1);
    if Admit(b, now).Admitted? && tryCount < RetryCount && next < deadline {
      // The attempt fails and a retry follows: the loop goes on from `b2` at `next`.
      var b2 := Record(Admit(b, now).breaker, Transient, finish).0;
      TransientRetryContinues(b, now, deadline, tryCount, network, sent);
      TransientStepAllowance(b, now, finish, deadline);
      BreakerCapsTransientLoop(b2, next, deadline, tryCount + 1, network, sent + 1);
    } else {
      TransientLoopStops(b, now, deadline, tryCount, network, sent);
    }
  }

  /** The breaker inside the retry loop caps a call that keeps failing transiently
      at 2 network attempts (the threshold), not the 4 the retry count allows:
      the second failure opens the circuit and the next retry is refused. */
  lemma BreakerCapsTransientAttempts(b: Breaker, now: Instant, network: nat -> Attempt)
    requires forall k :: network(k).outcome == Transient
    ensures Execute(b, now, network).attempts <= FailureThreshold
  {
    BreakerCapsTransientLoop(b, now, now + TimeoutSeconds, 0, network, 0);
  }

  lemma {:induction false} TimeoutTruncatesLoop(b: Breaker, now: Instant, start: Instant,
                                                tryCount: nat, network: nat -> Attempt, sent: nat)
    requires tryCount < RetryCount
    requires start + Backoff(tryCount) <= now < start + TimeoutSeconds
    ensures var c := RetryLoop(b, now, start + TimeoutSeconds, tryCount, network, sent);
            c.attempts <= sent + RetryCount - tryCount && c.result != Completed(Transient)
    decreases RetryCount - tryCount
  {
    ConfiguredBackoff();
    match Admit(b, now)
    case Refused =>
    case Admitted(b1) =>
      var a := network(sent);
      var finish := now + a.duration;
      if finish < start + TimeoutSeconds && a.outcome.Transient? {
        var delay := RetryDelay(tryCount + 1);
        assert Backoff(tryCount + 1) == Backoff(tryCount) + delay;
        if finish + delay < start + TimeoutSeconds {
          TimeoutTruncatesLoop(Record(b1, a.outcome, finish).0, finish + delay, start,
                               tryCount + 1, network, sent + 1);
        }
      }
  }

  /** The 10 s timeout bounds the whole retry sequence: the sleeps before a fourth
      attempt add up to 14 s, so at most 3 attempts are ever made and the retries
      are never exhausted. A call whose attempts keep failing transiently ends
      with a timeout or an open circuit, never with the last failed response. */
  lemma TimeoutTruncatesRetries(b: Breaker, now: Instant, network: nat -> Attempt)
    ensures Execute(b, now, network).attempts <= RetryCount
    ensures Execute(b, now, network).result != Completed(Transient)
  {
    TimeoutTruncatesLoop(b, now, now, 0, network, 0);
  }

  /** The breaker is shared by successive calls. Against a target that always
      fails transiently and instantly: the first call, at 0 s, fails at 0 s and
      2 s, which opens the circuit until 32 s, and its third try at 6 s is refused;
      a call 5 s later is refused without touching the network; a call 31 s later
      is admitted as a trial, fails, and re-opens the circuit. */
  lemma SharedBreakerScenario()
    ensures var failing := (k: nat) => Attempt(Transient, 0);
            var first := Execute(Closed(0), 0, failing);
            && first == Call(CircuitOpen, Open(32), 6, 2,
                             [Retrying(1, 2, Transient), Broken(30), Retrying(2, 4, Transient)])
            && Execute(first.breaker, first.clock + 5, failing) == Call(CircuitOpen, Open(32), 11, 0, [])
            && Execute(first.breaker, first.clock + 31, failing).attempts == 1
            && Execute(first.breaker, first.clock + 31, failing).breaker == Open(67)
  {
    var failing := (k: nat) => Attempt(Transient, 0);
    ConfiguredBackoff();
    var third := RetryLoop(Open(32), 6, 10, 2, failing, 2);
    assert third == Call(CircuitOpen, Open(32), 6, 2, []);
    var second := RetryLoop(Closed(1), 2, 10, 1, failing, 1);
    assert second == Call(CircuitOpen, Open(32), 6, 2, [Broken(30), Retrying(2, 4, Transient)]);
    FailedTrialReopens(Open(32), 37, failing);
  }
}
