/** `rucio.common.utils.retry`: call a function up to `mtries` times,
    returning the first result that is not an exception; the last attempt's
    exception propagates.  The wrapped function is modelled by `outcome`:
    `outcome(i)` is what its `i`-th call (from 0) does. */
module Retries {
  /** What one call does.  `Raised` stands for an exception derived from
      `Exception`, the only kind `retry` catches; a `BaseException` such as
      `KeyboardInterrupt` escapes on the first attempt and is not modelled. */
  datatype Outcome<T> = Returned(value: T) | Raised(error: string)

  /** The number of attempts: the loop runs while more than one remains,
      and one last unguarded call always follows. */
  function Attempts(mtries: int): (n: nat)
    ensures n >= 1 && (mtries >= 1 ==> n == mtries)
  {
    if mtries >= 1 then mtries else 1
  }

  /** The first call among the first `m` that returns, or `m` if all of
      them raise. */
  function FirstReturn<T>(outcome: nat -> Outcome<T>, m: nat): (i: nat)
    ensures i <= m
    ensures i < m ==> outcome(i).Returned?
    ensures forall j :: 0 <= j < i ==> outcome(j).Raised?
  {
    if m == 0 then 0
    else if FirstReturn(outcome, m - 1) < m - 1 then FirstReturn(outcome, m - 1)
    else if outcome(m - 1).Returned? then m - 1
    else m
  }

  /** `retry(func)(mtries)`: `r` is what the call returns or raises, `calls`
      how many times the function ran, and `logged` the attempt numbers the
      loop reports before each guarded call. */
  method Call<T>(outcome: nat -> Outcome<T>, mtries: int) returns (r: Outcome<T>, calls: nat, logged: seq<nat>)
    ensures calls == FirstReturn(outcome, Attempts(mtries) - 1) + 1
    ensures r == outcome(calls - 1)
    ensures |logged| == (if calls < Attempts(mtries) then calls else calls - 1)
    ensures forall k :: 0 <= k < |logged| ==> logged[k] == k + 1
  {
    var attempt := mtries;
    calls := 0;
    logged := [];
    while attempt > 1
      invariant attempt <= mtries && (attempt < mtries ==> attempt >= 1)
      invariant calls == mtries - attempt
      invariant forall j :: 0 <= j < calls ==> outcome(j).Raised?
      invariant |logged| == calls && forall k :: 0 <= k < calls ==> logged[k] == k + 1
    {
      logged := logged + [mtries - attempt + 1];
      r := outcome(calls);
      calls := calls + 1;
      if r.Returned? {
        return;
      }
      attempt := attempt - 1;
    }
    r := outcome(calls);
    calls := calls + 1;
  }

  /** If any of the allowed attempts would return, the retried call returns,
      with the value of the first such attempt. */
  lemma ReturnsIfAnyAttemptReturns<T>(outcome: nat -> Outcome<T>, mtries: int, i: nat)
    requires i < Attempts(mtries) && outcome(i).Returned?
    ensures outcome(FirstReturn(outcome, Attempts(mtries) - 1)).Returned?
    ensures FirstReturn(outcome, Attempts(mtries) - 1) <= i
  {
  }

  /** If every allowed attempt raises, the function ran exactly `mtries`
      times (at least once) and the last exception propagates. */
  lemma RaisesWhenAllAttemptsRaise<T>(outcome: nat -> Outcome<T>, mtries: int)
    requires forall j :: 0 <= j < Attempts(mtries) ==> outcome(j).Raised?
    ensures FirstReturn(outcome, Attempts(mtries) - 1) + 1 == Attempts(mtries)
  {
  }
}
