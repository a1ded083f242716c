# Pisano periods of primes, modelled in Dafny

This project models the computational core of `pisanoof1000000.py`. That
program reads a list of primes from a CSV file. For each prime `n` it
computes the Pisano period: the length of the cycle of the Fibonacci numbers
taken modulo `n`. The core has these parts:

- `is_prime`: trial division by 2, 3 and then by candidates `6k ± 1`. It is
  modelled by `Primality.IsPrime` and proved equal to the mathematical
  predicate `Prime`.
- `matrix_mult` and `matrix_pow`: 2-by-2 matrix product and binary
  exponentiation, both reduced with Python's `%`. Module `ModMatrix` models
  them. A matrix becomes the datatype `Mat2`, and Python's floor `%` becomes
  `Arith.PyMod`.
- `fibonacci_mod`: the top-left entry of `[[1, 1], [1, 0]]^(n-1)`. It is
  modelled by `Fibonacci.FibonacciMod`. It returns 0 for `n == 0`, and 1
  for `n == 1` whatever `mod` is (even for `mod == 1`). For `n >= 2` it
  returns `F(n)` reduced with Python's `%`, so the result is `F(n) mod mod`
  whenever `mod >= 2`. The proof goes through the identity
  `[[1,1],[1,0]]^k = [[F(k+1), F(k)], [F(k), F(k-1)]]`.
- `calculate_pisano_period`: the search for the first step at which the
  pair of residues returns to (0, 1), capped at `n * n` steps. It is
  modelled by `Pisano.PisanoPeriod`. Its result is an `Option<int>`;
  `None` stands for the Python `None` the function falls through to when
  the cap is exhausted. The method is proved equal to the reference
  definition `PisanoSpec`, which scans the true Fibonacci numbers.
  `PisanoSpec` is characterised as the least such step in both directions.
  It is also shown to be a true period: `F(k) mod n == F(k mod p) mod n`.
- The result-building loop of `PisanoGUI.calculate_pisano_periods`. It is
  modelled by `Batch.PisanoGui.CalculatePisanoPeriods`. The stop button's
  flag becomes the input `stopAt`: the index of the first iteration that
  sees the flag set.

The code and its own unit tests disagree for four primes, and the model
follows the code. The tests at `pisanoof1000000.py:164-168` expect periods
96, 102, 53 and 54 for 97, 103, 107 and 109. The search as written returns 196, 208,
72 and 108, which are the true Pisano periods of those primes.
`Pisano.KnownLargePeriods` proves these values. The tests expecting the
other values are therefore wrong, not the code, and the model follows the
code.

## Model

| member | source | states |
|---|---|---|
| Arith.PyMod | pisanoof1000000.py:23-24 | Python's `%`: the remainder differs from `x` by a multiple of `m` and lies in `[0, m)` for positive `m` and in `(m, 0]` for negative `m` |
| Primality.IsPrime | pisanoof1000000.py:8-20 | `is_prime(num)` is true exactly when `num` is a prime (at least 2 and with no divisor strictly between 1 and itself) |
| Primality.PrimeScreen | pisanoof1000000.py:9-14 | the early exits are right: nothing at most 1 is prime, 2 and 3 are, and no larger multiple of 2 or 3 is |
| Primality.CandidateStep | pisanoof1000000.py:16-19 | when no divisor of `num` lies below `i = 6k+5`, and neither `i`, `i + 2`, 2 nor 3 divides `num`, no divisor exists below `i + 6` |
| Primality.SmallDivisorSuffices | pisanoof1000000.py:16-20 | once `i * i > num`, having no divisor below `i` makes `num` prime, so stopping the loop there is sound |
| Primality.KnownPrimes | pisanoof1000000.py:151-161 | 2, 3, 5, 7, 11 and 13 are prime; 4, 9, 15 and 21 are not |
| ModMatrix.MatrixMult | pisanoof1000000.py:22-24 | the product reduced entry by entry equals the reduction of the ordinary matrix product, and every entry is a residue of `mod` |
| ModMatrix.SquareMultiplyStep | pisanoof1000000.py:29-33 | one pass of the loop (multiply in `base` on an odd power, square `base`, halve `power`) keeps `result * base^power` unchanged modulo `mod` |
| ModMatrix.PowDouble | pisanoof1000000.py:32-33 | squaring the base halves the exponent: `a^(2k) == (a*a)^k` |
| ModMatrix.PowCongruent | pisanoof1000000.py:31-32 | reducing the matrix before raising it to a power gives the same reduced power |
| ModMatrix.MatrixPow | pisanoof1000000.py:26-34 | for power 0 the identity; for positive power `M^power` with every entry reduced modulo `mod` |
| Fibonacci.FibMatrixPower | pisanoof1000000.py:39-41 | `[[1,1],[1,0]]^k == [[F(k+1), F(k)], [F(k), F(k-1)]]` for `k >= 1` |
| Fibonacci.FibonacciMod | pisanoof1000000.py:36-41 | 0 for `n == 0`, 1 for `n == 1`, `F(n)` reduced with Python's `%` for `n >= 2`, and `F(n) mod mod` whenever `mod >= 2` |
| Pisano.FirstPeriodPoint | pisanoof1000000.py:47-50 | the result, when there is one, is the least `k` in the range at which the pair `(F(k) mod n, F(k+1) mod n)` is (0, 1); when there is none, no `k` in the range has that property |
| Pisano.PisanoSpec | pisanoof1000000.py:43-50 | `n` for `n <= 1`; otherwise the least `k` in `[1, n*n]` at which the pair is back at (0, 1), or `None` when no such `k` exists |
| Pisano.PisanoSpecOfLeast | pisanoof1000000.py:46-50 | conversely, any least `k` in `[1, n*n]` at which the pair returns to (0, 1) is the result |
| Pisano.PisanoSpecOfNone | pisanoof1000000.py:46-51 | conversely, when no `k` in `[1, n*n]` returns the pair to (0, 1), the result is `None` |
| Pisano.FibModStep | pisanoof1000000.py:48 | the update `(previous, current) := (current, (previous + current) % n)` moves the pair from step `i` to step `i + 1` |
| Pisano.PisanoPeriod | pisanoof1000000.py:43-50 | the loop returns exactly `PisanoSpec(n)` |
| Pisano.PairScanAgrees | pisanoof1000000.py:46-50 | stepping the residues alone finds the same first return as scanning the Fibonacci numbers themselves |
| Pisano.FibShiftByPeriod | pisanoof1000000.py:49-50 | once the pair is back at (0, 1) after `p` steps, every later pair repeats the one `p` steps earlier |
| Pisano.FibPeriodic | pisanoof1000000.py:49-50 | `F(k) mod n == F(k mod p) mod n` for every `p` at which the pair is back at (0, 1) |
| Pisano.FibModByPisanoPeriod | pisanoof1000000.py:43-50 | with the period the search returns, `F(k) mod n == F(k mod period) mod n` for every `k` |
| Pisano.PisanoSpecByPairScan | pisanoof1000000.py:46-50 | the search result equals the residue-only scan started from (0, 1) |
| Pisano.KnownPeriods | pisanoof1000000.py:141-149 | the periods of 2, 3, 5, 7, 11, 13, 17, 19 and 23 are 3, 8, 20, 16, 10, 28, 36, 18 and 48 |
| Pisano.KnownLargePeriods | pisanoof1000000.py:164-168 | the search returns 196, 50, 208, 72 and 108 for 97, 101, 103, 107 and 109; only 101 matches the tests' expectation |
| Batch.BatchResults | pisanoof1000000.py:103-108 | a run that sees the stop flag at index `stopAt` leaves `min(stopAt, number of primes)` pairs, and pair `i` is `(primes[i], period of primes[i])` |
| Batch.StoppedRunIsPrefix | pisanoof1000000.py:104-107 | a stopped run keeps exactly the first pairs of a complete run |
| Batch.PisanoGui.constructor | pisanoof1000000.py:75-77 | a new calculator starts with no primes and no results |
| Batch.PisanoGui.CalculatePisanoPeriods | pisanoof1000000.py:103-108 | after the call `results` is `BatchResults(primes, stopAt)`; nothing else changes |

## Left out

- The Tk window is not modelled: buttons, text box, progress bar, message boxes and `display_results`. None of them affects the computed results.
- Reading and writing CSV files with pandas (`open_csv`, `save_csv`) is I/O. The list of primes is a field that the model starts empty.
- The non-prime check in `open_csv` only calls `is_prime`, which is modelled; the warning it shows is UI.
- `prime_generator_gui.py` is not part of this model. It is a separate UI around a library prime generator.
- The stop flag's asynchronous setting by `stop_calculation` is not modelled. Its effect enters as `stopAt`, and the `stop_flag` field is not kept.
- Batch.PisanoGui.CalculatePisanoPeriods: leaves out the progress-bar updates and the calls that keep the window responsive.
- Pisano.PisanoPeriod: the model does not prove that a period always exists within `n * n` steps, so the `None` outcome is kept as a possible result.
- ModMatrix.MatrixPow: requires `power >= 0`, because a negative power never reaches zero under Python's `//` and the source loops forever.
- Fibonacci.FibonacciMod: requires `n >= 0` for the same reason.
- ModMatrix.MatrixPow and Fibonacci.FibonacciMod: require `mod != 0` only when the source would actually compute `% mod`, because Python raises an error on a zero modulus.
- Matrices are modelled as `Mat2` values instead of nested lists; the source only ever builds 2-by-2 matrices.
- Non-integer inputs are not modelled: floats or strings read from a CSV file are outside the model.
- The `unittest` harness is not modelled; its expectations appear as the known-value lemmas instead.
