/** The request helper every metadata fetch goes through: a bounded number
    of attempts with an exponentially growing pause after each failure. */
module Retry {
  import opened Sheets

  const MaxRetries: nat := 3
  const InitialDelay: nat := 2

  /** What one attempt yields: the decoded body, or the request error. */
  datatype Attempt<T> = Succeeded(body: T) | Failed(error: string)

  /** The log line written for a failed attempt: the error, the 1-based
      attempt number and the attempt budget. */
  datatype LogEntry = RequestFailed(error: string, attempt: nat, outOf: nat)

  /** Runs the request. `send(i)` is what the service answers on attempt i
      (counted from 0); `sleeps` records each pause and `log` each failure
      line, in order. The ghost `attempts` counts the attempts made. */
  method MakeRequest<T>(send: nat -> Attempt<T>)
    returns (response: Option<T>, sleeps: seq<nat>, log: seq<LogEntry>, ghost attempts: nat)
    ensures attempts <= MaxRetries
    ensures attempts == |log| + (if response.Some? then 1 else 0)
    ensures |sleeps| == |log|
    ensures forall i :: 0 <= i < |log| ==>
              send(i).Failed? && log[i] == RequestFailed(send(i).error, i + 1, MaxRetries)
    ensures sleeps == [2, 4, 8][..|sleeps|]
    ensures response.Some? ==> send(|log|) == Succeeded(response.value)
    ensures response.None? <==> |log| == MaxRetries
  {
    var delay := InitialDelay;
    sleeps, log, attempts := [], [], 0;
    for attempt := 0 to MaxRetries
      invariant |log| == |sleeps| == attempts == attempt
      invariant forall i :: 0 <= i < attempt ==>
                  send(i).Failed? && log[i] == RequestFailed(send(i).error, i + 1, MaxRetries)
      invariant sleeps == [2, 4, 8][..attempt]
      invariant delay == [2, 4, 8, 16][attempt]
    {
      var answer := send(attempt);
      attempts := attempts + 1;
      if answer.Succeeded? {
        return Some(answer.body), sleeps, log, attempts;
      }
      log := log + [RequestFailed(answer.error, attempt + 1, MaxRetries)];
      sleeps := sleeps + [delay];
      delay := delay * 2;
    }
    response := None;
  }

  /** Two transient failures and then a success give the successful body
      with two failure lines; three failures give no response. */
  method RetryScenarios() {
    var flaky := (i: nat) => if i < 2 then Failed("timeout") else Succeeded(42);
    var r1, s1, l1, a1 := MakeRequest(flaky);
    assert flaky(0).Failed? && flaky(1).Failed? && flaky(2).Succeeded?;
    assert r1 == Some(42) && |l1| == 2 && s1 == [2, 4];

    var down := (i: nat) => Failed("unavailable");
    var r2, s2, l2, a2 := MakeRequest<int>(down);
    assert r2 == None && s2 == [2, 4, 8] && |l2| == 3;
  }
}
