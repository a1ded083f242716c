/** `calculate_pisano_period`: the first return of the Fibonacci pair
    (F(k) mod n, F(k + 1) mod n) to (0, 1), searched for at most n * n
    steps. */
module Pisano {

  import opened Wrappers
  import opened Arith
  import opened Fibonacci

  /** After `k` steps the Fibonacci pair modulo `n` is back at (0, 1). */
  predicate IsPeriodPoint(n: int, k: int)
    requires n >= 1 && k >= 0
  {
    Fib(k) % n == 0 && Fib(k + 1) % n == 1
  }

  /** The least period point in [lo, hi], if there is one. */
  function FirstPeriodPoint(n: int, lo: int, hi: int): (r: Option<int>)
    requires n >= 1 && lo >= 1
    ensures r.Some? ==> lo <= r.value <= hi && IsPeriodPoint(n, r.value)
    ensures r.Some? ==> forall j :: lo <= j < r.value ==> !IsPeriodPoint(n, j)
    ensures r.None? ==> forall j :: lo <= j <= hi ==> !IsPeriodPoint(n, j)
    decreases hi - lo
  {
    if lo > hi then None
    else if IsPeriodPoint(n, lo) then Some(lo)
    else FirstPeriodPoint(n, lo + 1, hi)
  }

  /** What `calculate_pisano_period(n)` returns: `n` itself for `n <= 1`;
      otherwise the least k in [1, n * n] at which the pair is (0, 1) again,
      or nothing (Python's `None`) when there is none within the cap. */
  function PisanoSpec(n: int): (r: Option<int>)
    ensures n <= 1 ==> r == Some(n)
    ensures n >= 2 && r.Some? ==> 1 <= r.value <= n * n && IsPeriodPoint(n, r.value)
    ensures n >= 2 && r.Some? ==> forall j :: 1 <= j < r.value ==> !IsPeriodPoint(n, j)
    ensures n >= 2 && r.None? ==> forall j :: 1 <= j <= n * n ==> !IsPeriodPoint(n, j)
  {
    if n <= 1 then Some(n) else FirstPeriodPoint(n, 1, n * n)
  }

  /** The converse of PisanoSpec's contract: the least period point in
      [1, n * n] is the value of the search. */
  lemma PisanoSpecOfLeast(n: int, k: int)
    requires n >= 2 && 1 <= k <= n * n && IsPeriodPoint(n, k)
    requires forall j :: 1 <= j < k ==> !IsPeriodPoint(n, j)
    ensures PisanoSpec(n) == Some(k)
  {
    var r := PisanoSpec(n);
    if r.Some? {
      assert !(r.value < k) && !(k < r.value);
    }
  }

  /** The converse of PisanoSpec's contract: with no period point in
      [1, n * n] the search comes back empty. */
  lemma PisanoSpecOfNone(n: int)
    requires n >= 2 && forall j :: 1 <= j <= n * n ==> !IsPeriodPoint(n, j)
    ensures PisanoSpec(n) == None
  {
  }

  /** One step of the recurrence, taken modulo `n`. */
  lemma FibModStep(n: int, i: nat, previous: int, current: int)
    requires n >= 1 && previous == Fib(i) % n && current == Fib(i + 1) % n
    ensures (previous + current) % n == Fib(i + 2) % n
  {
    assert Fib(i + 2) == Fib(i) + Fib(i + 1);
    PyModSum(Fib(i), Fib(i + 1), n);
  }

  /** `calculate_pisano_period(n)`: steps (previous, current) from (0, 1)
      for at most n * n iterations and returns the 1-based step at which the
      pair is (0, 1) again. Python's `%` agrees with Dafny's here, as n >= 2
      inside the loop. */
  method PisanoPeriod(n: int) returns (r: Option<int>)
    ensures r == PisanoSpec(n)
  {
    if n <= 1 {
      return Some(n);
    }
    var previous, current := 0, 1;
    for i := 0 to n * n
      invariant previous == Fib(i) % n && current == Fib(i + 1) % n
      invariant forall j :: 1 <= j <= i ==> !IsPeriodPoint(n, j)
    {
      FibModStep(n, i, previous, current);
      previous, current := current, (previous + current) % n;
      if previous == 0 && current == 1 {
        PisanoSpecOfLeast(n, i + 1);
        return Some(i + 1);
      }
    }
    PisanoSpecOfNone(n);
    return None;
  }

  /** Once the pair has returned to (0, 1) after `p` steps, every later pair
      repeats the one `p` steps earlier. */
  lemma {:induction false} FibShiftByPeriod(n: int, p: int, k: nat)
    requires n >= 2 && p >= 1 && IsPeriodPoint(n, p)
    ensures Fib(k + p) % n == Fib(k) % n && Fib(k + p + 1) % n == Fib(k + 1) % n
  {
    if k > 0 {
      FibShiftByPeriod(n, p, k - 1);
      var j := k - 1;
      assert j + p + 1 == k + p && j + 1 == k;
      var a, b, c, d := Fib(k + p), Fib(j + p), Fib(k), Fib(j);
      assert Fib(k + p + 1) == a + b;
      assert Fib(k + 1) == c + d;
      ModSumCongruent(a, b, c, d, n);
    } else {
      assert Fib(0) == 0 && Fib(1) == 1;
      DivModUnique(0, n, 0, 0);
      DivModUnique(1, n, 0, 1);
    }
  }

  /** F(k) mod n depends only on k modulo any period point `p`. */
  lemma {:induction false} FibPeriodic(n: int, p: int, k: nat)
    requires n >= 2 && p >= 1 && IsPeriodPoint(n, p)
    ensures Fib(k) % n == Fib(k % p) % n
    decreases k
  {
    if k >= p {
      var j := k - p;
      FibPeriodic(n, p, j);
      FibShiftByPeriod(n, p, j);
      assert j + p == k;
      ModSubDivisor(k, p);
    } else {
      DivModUnique(k, p, 0, k);
    }
  }

  /** With the period `p` that the search finds for modulus `m`, F(k) mod m
      equals F(k mod p) mod m. */
  lemma FibModByPisanoPeriod(m: int, k: nat)
    requires m >= 2 && PisanoSpec(m).Some?
    ensures Fib(k) % m == Fib(k % PisanoSpec(m).value) % m
  {
    FibPeriodic(m, PisanoSpec(m).value, k);
  }

  /** The search on residues alone: from the pair (prev, cur) at step `k`,
      the first later step up to `hi` at which the pair is (0, 1). */
  function PairScan(n: int, k: int, prev: int, cur: int, hi: int): Option<int>
    requires n >= 1
    decreases hi - k
  {
    var next := if prev + cur >= n then prev + cur - n else prev + cur;
    if k >= hi then None
    else if cur == 0 && next == 1 then Some(k + 1)
    else PairScan(n, k + 1, cur, next, hi)
  }

  /** Stepping residues finds the same point as scanning the Fibonacci
      numbers themselves. */
  lemma {:induction false} PairScanAgrees(n: int, k: nat, prev: int, cur: int, hi: int)
    requires n >= 2 && prev == Fib(k) % n && cur == Fib(k + 1) % n
    ensures PairScan(n, k, prev, cur, hi) == FirstPeriodPoint(n, k + 1, hi)
    decreases hi - k
  {
    if k < hi {
      FibModStep(n, k, prev, cur);
      var s := prev + cur;
      if s >= n {
        DivModUnique(s, n, 1, s - n);
      } else {
        DivModUnique(s, n, 0, s);
      }
      PairScanAgrees(n, k + 1, cur, s % n, hi);
    }
  }

  /** The search result, computed by stepping residues from (0, 1). */
  lemma PisanoSpecByPairScan(n: int)
    requires n >= 2
    ensures PisanoSpec(n) == PairScan(n, 0, 0, 1, n * n)
  {
    assert Fib(0) == 0 && Fib(1) == 1;
    DivModUnique(0, n, 0, 0);
    DivModUnique(1, n, 0, 1);
    PairScanAgrees(n, 0, 0, 1, n * n);
  }

  /** The periods the repository's unit tests check for the primes up to 23.
      Each is evaluated by stepping residues, with a checkpoint (the pair
      F(k) mod n, F(k + 1) mod n) every six steps. */
  lemma KnownPeriods()
    ensures PisanoSpec(2) == Some(3) && PisanoSpec(3) == Some(8) && PisanoSpec(5) == Some(20)
    ensures PisanoSpec(7) == Some(16) && PisanoSpec(11) == Some(10) && PisanoSpec(13) == Some(28)
    ensures PisanoSpec(17) == Some(36) && PisanoSpec(19) == Some(18) && PisanoSpec(23) == Some(48)
  {
    assert PairScan(2, 0, 0, 1, 4) == Some(3);
    PisanoSpecByPairScan(2);
    assert PairScan(3, 6, 2, 1, 9) == Some(8);
    assert PairScan(3, 0, 0, 1, 9) == Some(8);
    PisanoSpecByPairScan(3);
    assert PairScan(5, 18, 4, 1, 25) == Some(20);
    assert PairScan(5, 12, 4, 3, 25) == Some(20);
    assert PairScan(5, 6, 3, 3, 25) == Some(20);
    assert PairScan(5, 0, 0, 1, 25) == Some(20);
    PisanoSpecByPairScan(5);
    assert PairScan(7, 12, 4, 2, 49) == Some(16);
    assert PairScan(7, 6, 1, 6, 49) == Some(16);
    assert PairScan(7, 0, 0, 1, 49) == Some(16);
    PisanoSpecByPairScan(7);
    assert PairScan(11, 6, 8, 2, 121) == Some(10);
    assert PairScan(11, 0, 0, 1, 121) == Some(10);
    PisanoSpecByPairScan(11);
    assert PairScan(13, 24, 10, 2, 169) == Some(28);
    assert PairScan(13, 18, 10, 8, 169) == Some(28);
    assert PairScan(13, 12, 1, 12, 169) == Some(28);
    assert PairScan(13, 6, 8, 0, 169) == Some(28);
    assert PairScan(13, 0, 0, 1, 169) == Some(28);
    PisanoSpecByPairScan(13);
    assert PairScan(17, 30, 9, 5, 289) == Some(36);
    assert PairScan(17, 24, 9, 4, 289) == Some(36);
    assert PairScan(17, 18, 0, 16, 289) == Some(36);
    assert PairScan(17, 12, 8, 12, 289) == Some(36);
    assert PairScan(17, 6, 8, 13, 289) == Some(36);
    assert PairScan(17, 0, 0, 1, 289) == Some(36);
    PisanoSpecByPairScan(17);
    assert PairScan(19, 12, 11, 5, 361) == Some(18);
    assert PairScan(19, 6, 8, 13, 361) == Some(18);
    assert PairScan(19, 0, 0, 1, 361) == Some(18);
    PisanoSpecByPairScan(19);
    assert PairScan(23, 42, 15, 5, 529) == Some(48);
    assert PairScan(23, 36, 17, 20, 529) == Some(48);
    assert PairScan(23, 30, 15, 10, 529) == Some(48);
    assert PairScan(23, 24, 0, 22, 529) == Some(48);
    assert PairScan(23, 18, 8, 18, 529) == Some(48);
    assert PairScan(23, 12, 6, 3, 529) == Some(48);
    assert PairScan(23, 6, 8, 13, 529) == Some(48);
    assert PairScan(23, 0, 0, 1, 529) == Some(48);
    PisanoSpecByPairScan(23);
  }

  lemma PeriodOf97()
    ensures PisanoSpec(97) == Some(196)
  {
    assert PairScan(97, 192, 94, 2, 9409) == Some(196);
    assert PairScan(97, 186, 42, 34, 9409) == Some(196);
    assert PairScan(97, 180, 80, 28, 9409) == Some(196);
    assert PairScan(97, 174, 40, 82, 9409) == Some(196);
    assert PairScan(97, 168, 58, 90, 9409) == Some(196);
    assert PairScan(97, 162, 34, 83, 9409) == Some(196);
    assert PairScan(97, 156, 69, 46, 9409) == Some(196);
    assert PairScan(97, 150, 44, 66, 9409) == Some(196);
    assert PairScan(97, 144, 44, 75, 9409) == Some(196);
    assert PairScan(97, 138, 69, 23, 9409) == Some(196);
    assert PairScan(97, 132, 34, 48, 9409) == Some(196);
    assert PairScan(97, 126, 58, 65, 9409) == Some(196);
    assert PairScan(97, 120, 40, 55, 9409) == Some(196);
    assert PairScan(97, 114, 80, 52, 9409) == Some(196);
    assert PairScan(97, 108, 42, 8, 9409) == Some(196);
    assert PairScan(97, 102, 94, 92, 9409) == Some(196);
    assert PairScan(97, 96, 1, 96, 9409) == Some(196);
    assert PairScan(97, 90, 21, 84, 9409) == Some(196);
    assert PairScan(97, 84, 86, 58, 9409) == Some(196);
    assert PairScan(97, 78, 72, 87, 9409) == Some(196);
    assert PairScan(97, 72, 46, 53, 9409) == Some(196);
    assert PairScan(97, 66, 77, 91, 9409) == Some(196);
    assert PairScan(97, 60, 79, 33, 9409) == Some(196);
    assert PairScan(97, 54, 84, 18, 9409) == Some(196);
    assert PairScan(97, 48, 75, 0, 9409) == Some(196);
    assert PairScan(97, 42, 5, 79, 9409) == Some(196);
    assert PairScan(97, 36, 15, 64, 9409) == Some(196);
    assert PairScan(97, 30, 71, 6, 9409) == Some(196);
    assert PairScan(97, 24, 2, 44, 9409) == Some(196);
    assert PairScan(97, 18, 62, 10, 9409) == Some(196);
    assert PairScan(97, 12, 47, 39, 9409) == Some(196);
    assert PairScan(97, 6, 8, 13, 9409) == Some(196);
    assert PairScan(97, 0, 0, 1, 9409) == Some(196);
    PisanoSpecByPairScan(97);
  }

  lemma PeriodOf101()
    ensures PisanoSpec(101) == Some(50)
  {
    assert PairScan(101, 48, 100, 1, 10201) == Some(50);
    assert PairScan(101, 42, 80, 13, 10201) == Some(50);
    assert PairScan(101, 36, 27, 31, 10201) == Some(50);
    assert PairScan(101, 30, 2, 40, 10201) == Some(50);
    assert PairScan(101, 24, 9, 83, 10201) == Some(50);
    assert PairScan(101, 18, 59, 40, 10201) == Some(50);
    assert PairScan(101, 12, 43, 31, 10201) == Some(50);
    assert PairScan(101, 6, 8, 13, 10201) == Some(50);
    assert PairScan(101, 0, 0, 1, 10201) == Some(50);
    PisanoSpecByPairScan(101);
  }

  lemma PeriodOf103()
    ensures PisanoSpec(103) == Some(208)
  {
    assert PairScan(103, 204, 100, 2, 10609) == Some(208);
    assert PairScan(103, 198, 48, 34, 10609) == Some(208);
    assert PairScan(103, 192, 43, 95, 10609) == Some(208);
    assert PairScan(103, 186, 5, 28, 10609) == Some(208);
    assert PairScan(103, 180, 47, 100, 10609) == Some(208);
    assert PairScan(103, 174, 17, 21, 10609) == Some(208);
    assert PairScan(103, 168, 53, 72, 10609) == Some(208);
    assert PairScan(103, 162, 10, 39, 10609) == Some(208);
    assert PairScan(103, 156, 24, 12, 10609) == Some(208);
    assert PairScan(103, 150, 10, 74, 10609) == Some(208);
    assert PairScan(103, 144, 53, 84, 10609) == Some(208);
    assert PairScan(103, 138, 17, 99, 10609) == Some(208);
    assert PairScan(103, 132, 47, 50, 10609) == Some(208);
    assert PairScan(103, 126, 5, 80, 10609) == Some(208);
    assert PairScan(103, 120, 43, 51, 10609) == Some(208);
    assert PairScan(103, 114, 48, 14, 10609) == Some(208);
    assert PairScan(103, 108, 100, 98, 10609) == Some(208);
    assert PairScan(103, 102, 1, 102, 10609) == Some(208);
    assert PairScan(103, 96, 21, 90, 10609) == Some(208);
    assert PairScan(103, 90, 68, 76, 10609) == Some(208);
    assert PairScan(103, 84, 70, 42, 10609) == Some(208);
    assert PairScan(103, 78, 59, 62, 10609) == Some(208);
    assert PairScan(103, 72, 65, 44, 10609) == Some(208);
    assert PairScan(103, 66, 81, 9, 10609) == Some(208);
    assert PairScan(103, 60, 54, 15, 10609) == Some(208);
    assert PairScan(103, 54, 67, 55, 10609) == Some(208);
    assert PairScan(103, 48, 19, 48, 10609) == Some(208);
    assert PairScan(103, 42, 69, 88, 10609) == Some(208);
    assert PairScan(103, 36, 90, 94, 10609) == Some(208);
    assert PairScan(103, 30, 6, 59, 10609) == Some(208);
    assert PairScan(103, 24, 18, 41, 10609) == Some(208);
    assert PairScan(103, 18, 9, 61, 10609) == Some(208);
    assert PairScan(103, 12, 41, 27, 10609) == Some(208);
    assert PairScan(103, 6, 8, 13, 10609) == Some(208);
    assert PairScan(103, 0, 0, 1, 10609) == Some(208);
    PisanoSpecByPairScan(103);
  }

  lemma PeriodOf107()
    ensures PisanoSpec(107) == Some(72)
  {
    assert PairScan(107, 66, 99, 5, 11449) == Some(72);
    assert PairScan(107, 60, 70, 89, 11449) == Some(72);
    assert PairScan(107, 54, 91, 99, 11449) == Some(72);
    assert PairScan(107, 48, 70, 88, 11449) == Some(72);
    assert PairScan(107, 42, 99, 94, 11449) == Some(72);
    assert PairScan(107, 36, 0, 106, 11449) == Some(72);
    assert PairScan(107, 30, 8, 102, 11449) == Some(72);
    assert PairScan(107, 24, 37, 18, 11449) == Some(72);
    assert PairScan(107, 18, 16, 8, 11449) == Some(72);
    assert PairScan(107, 12, 37, 19, 11449) == Some(72);
    assert PairScan(107, 6, 8, 13, 11449) == Some(72);
    assert PairScan(107, 0, 0, 1, 11449) == Some(72);
    PisanoSpecByPairScan(107);
  }

  lemma PeriodOf109()
    ensures PisanoSpec(109) == Some(108)
  {
    assert PairScan(109, 102, 101, 5, 11881) == Some(108);
    assert PairScan(109, 96, 74, 89, 11881) == Some(108);
    assert PairScan(109, 90, 32, 71, 11881) == Some(108);
    assert PairScan(109, 84, 66, 99, 11881) == Some(108);
    assert PairScan(109, 78, 66, 76, 11881) == Some(108);
    assert PairScan(109, 72, 32, 70, 11881) == Some(108);
    assert PairScan(109, 66, 74, 94, 11881) == Some(108);
    assert PairScan(109, 60, 101, 96, 11881) == Some(108);
    assert PairScan(109, 54, 0, 108, 11881) == Some(108);
    assert PairScan(109, 48, 8, 104, 11881) == Some(108);
    assert PairScan(109, 42, 35, 20, 11881) == Some(108);
    assert PairScan(109, 36, 77, 38, 11881) == Some(108);
    assert PairScan(109, 30, 43, 10, 11881) == Some(108);
    assert PairScan(109, 24, 43, 33, 11881) == Some(108);
    assert PairScan(109, 18, 77, 39, 11881) == Some(108);
    assert PairScan(109, 12, 35, 15, 11881) == Some(108);
    assert PairScan(109, 6, 8, 13, 11881) == Some(108);
    assert PairScan(109, 0, 0, 1, 11881) == Some(108);
    PisanoSpecByPairScan(109);
  }

  /** The search results for the primes above 90 that the repository's unit
      tests check. Only the value for 101 matches the tests' expectation; the
      tests expect 96, 102, 53 and 54 for 97, 103, 107 and 109. */
  lemma KnownLargePeriods()
    ensures PisanoSpec(97) == Some(196) && PisanoSpec(101) == Some(50) && PisanoSpec(103) == Some(208)
    ensures PisanoSpec(107) == Some(72) && PisanoSpec(109) == Some(108)
  {
    PeriodOf97();
    PeriodOf101();
    PeriodOf103();
    PeriodOf107();
    PeriodOf109();
  }
}
