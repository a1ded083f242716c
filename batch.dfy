/** The result-building loop of `PisanoGUI.calculate_pisano_periods`, with
    the window, progress bar and message boxes removed. The stop button sets
    a flag that the loop reads before each prime; here that flag enters as
    `stopAt`, the index of the first iteration that finds it set (any value
    at or beyond the number of primes means it is never seen). */
module Batch {

  import opened Wrappers
  import opened Pisano

  /** The pairs a run that stops before index `stopAt` leaves behind: one
      (prime, period) pair per input, in input order. */
  function BatchResults(primes: seq<int>, stopAt: nat): (r: seq<(int, Option<int>)>)
    ensures |r| == if stopAt < |primes| then stopAt else |primes|
    ensures forall i :: 0 <= i < |r| ==> r[i] == (primes[i], PisanoSpec(primes[i]))
  {
    if stopAt == 0 || primes == [] then []
    else [(primes[0], PisanoSpec(primes[0]))] + BatchResults(primes[1..], stopAt - 1)
  }

  /** Stopping early keeps exactly the pairs a complete run would have put
      first. */
  lemma {:induction false} StoppedRunIsPrefix(primes: seq<int>, stopAt: nat)
    requires stopAt <= |primes|
    ensures BatchResults(primes, stopAt) == BatchResults(primes, |primes|)[..stopAt]
  {
    if stopAt > 0 {
      StoppedRunIsPrefix(primes[1..], stopAt - 1);
    }
  }

  /** The part of `PisanoGUI` that the computation touches: the primes read
      from the file and the list of results. */
  class PisanoGui {
    var primes: seq<int>
    var results: seq<(int, Option<int>)>

    constructor ()
      ensures primes == [] && results == []
    {
      primes := [];
      results := [];
    }

    /** `calculate_pisano_periods`: clears `results`, then appends
        (prime, calculate_pisano_period(prime)) for each prime in order until
        the stop flag is seen. */
    method CalculatePisanoPeriods(stopAt: nat)
      modifies this`results
      ensures results == BatchResults(primes, stopAt)
    {
      results := [];
      for index := 0 to |primes|
        invariant index <= stopAt
        invariant |results| == index
        invariant forall i :: 0 <= i < index ==> results[i] == (primes[i], PisanoSpec(primes[i]))
      {
        if index == stopAt {
          break;
        }
        var period := PisanoPeriod(primes[index]);
        results := results + [(primes[index], period)];
      }
    }
  }
}
