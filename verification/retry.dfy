/** The retry wrapper that CreateAccount, DeleteAccountByAccountNumber,
    DeleteIdempotencyKeyByID and CreateTransaction put around their
    transaction helpers.

    The loop runs at most `MaxRetries` attempts. An attempt that succeeds ends
    the loop with its result. An attempt that fails with a serialization
    failure (SQLSTATE 40001) sleeps `backoff` x 100 ms, doubles `backoff` and
    tries again. Any other failure ends the loop at once. When the attempts run
    out the last error is returned as it is.

    Each attempt is one atomic store transaction that commits all of its
    effects or none. A failed attempt therefore leaves the store as it found
    it, so every attempt starts from the same state and the loop is
    determined by the sequence of per-attempt outcomes it is given. The sleeps
    are returned as their backoff factors, in units of 100 ms. */
module Retry {
  import opened Errors

  const MaxRetries: nat := 3
  const InitialBackoff: nat := 2

  datatype Run<+T> = Run(result: Result<T>, attempts: nat, backoffs: seq<nat>)

  predicate Retryable<T>(outcome: Result<T>) {
    outcome.Err? && IsSerializationFailure(outcome.error)
  }

  /** `factor` doubled `n` times: the backoff factor before attempt `n`. */
  function Doubled(factor: nat, n: nat): nat
    decreases n
  {
    if n == 0 then factor else Doubled(2 * factor, n - 1)
  }

  /** The loop from attempt number `attempt` (0-based) on, with the current
      backoff factor. */
  function Loop<T>(outcomes: seq<Result<T>>, attempt: nat, backoff: nat): (run: Run<T>)
    requires attempt < |outcomes|
    ensures attempt < run.attempts <= |outcomes|
    ensures run.result == outcomes[run.attempts - 1]
    ensures forall i | attempt <= i < run.attempts - 1 :: Retryable(outcomes[i])
    ensures run.attempts < |outcomes| ==> !Retryable(run.result)
    ensures |run.backoffs| == if Retryable(run.result) then run.attempts - attempt else run.attempts - attempt - 1
    ensures forall i | 0 <= i < |run.backoffs| :: run.backoffs[i] == Doubled(backoff, i)
    decreases |outcomes| - attempt
  {
    var outcome := outcomes[attempt];
    if !Retryable(outcome) then
      Run(outcome, attempt + 1, [])
    else if attempt + 1 == |outcomes| then
      Run(outcome, attempt + 1, [backoff])
    else
      var rest := Loop(outcomes, attempt + 1, backoff * 2);
      var backoffs := [backoff] + rest.backoffs;
      assert forall i | 1 <= i < |backoffs| :: backoffs[i] == Doubled(backoff, i) by {
        forall i | 1 <= i < |backoffs|
          ensures backoffs[i] == Doubled(backoff, i)
        {
          assert backoffs[i] == rest.backoffs[i - 1];
        }
      }
      Run(rest.result, rest.attempts, backoffs)
  }

  /** The whole loop: `outcomes[i]` is what attempt `i` would return. */
  function WithRetries<T>(outcomes: seq<Result<T>>): (run: Run<T>)
    requires |outcomes| == MaxRetries
    ensures 1 <= run.attempts <= MaxRetries
    ensures run.result == outcomes[run.attempts - 1]
    ensures forall i | 0 <= i < run.attempts - 1 :: Retryable(outcomes[i])
    ensures run.attempts < MaxRetries ==> !Retryable(run.result)
    ensures !Retryable(outcomes[0]) ==> run.attempts == 1 && run.backoffs == []
    ensures |run.backoffs| == if Retryable(run.result) then run.attempts else run.attempts - 1
    ensures forall i | 0 <= i < |run.backoffs| :: run.backoffs[i] == Doubled(InitialBackoff, i)
  {
    Loop(outcomes, 0, InitialBackoff)
  }

  /** Three serialization failures in a row: the loop sleeps 200, 400 and
      800 ms and gives up with the third error. */
  lemma ExhaustedRetriesBackOff(outcomes: seq<Result<int>>)
    requires |outcomes| == MaxRetries
    requires forall i | 0 <= i < MaxRetries :: Retryable(outcomes[i])
    ensures WithRetries(outcomes).attempts == 3
    ensures WithRetries(outcomes).backoffs == [2, 4, 8]
    ensures WithRetries(outcomes).result == outcomes[2]
  {
    var run := WithRetries(outcomes);
    assert Doubled(2, 1) == 4 && Doubled(2, 2) == 8;
    assert |run.backoffs| == 3;
  }

  /** A serialization failure followed by a success: one retry, one sleep of
      200 ms, and the success is returned. */
  lemma OneConflictThenSuccess<T>(outcomes: seq<Result<T>>)
    requires |outcomes| == MaxRetries
    requires Retryable(outcomes[0]) && outcomes[1].Ok?
    ensures WithRetries(outcomes).attempts == 2
    ensures WithRetries(outcomes).backoffs == [2]
    ensures WithRetries(outcomes).result == outcomes[1]
  {
    assert !Retryable(outcomes[1]);
  }
}
