/** The Fibonacci numbers and `fibonacci_mod`, which reads them off a power
    of the matrix [[1, 1], [1, 0]]. */
module Fibonacci {

  import opened Arith
  import opened ModMatrix

  /** F(0) = 0, F(1) = 1, F(k) = F(k - 1) + F(k - 2). */
  function Fib(k: nat): nat
  {
    if k < 2 then k else Fib(k - 1) + Fib(k - 2)
  }

  /** The matrix [[1, 1], [1, 0]]. */
  function FibMatrix(): Mat2
  {
    Mat2(1, 1, 1, 0)
  }

  /** For k >= 1, [[1, 1], [1, 0]]^k == [[F(k + 1), F(k)], [F(k), F(k - 1)]]. */
  lemma {:induction false} FibMatrixPower(k: nat)
    requires k >= 1
    ensures Pow(FibMatrix(), k) == Mat2(Fib(k + 1), Fib(k), Fib(k), Fib(k - 1))
  {
    var q := FibMatrix();
    if k == 1 {
      calc {
        Pow(q, 1);
        Mul(q, Pow(q, 0));
        { MulIdentity(q); }
        q;
        { FibSmall(); }
        Mat2(Fib(2), Fib(1), Fib(1), Fib(0));
      }
    } else {
      calc {
        Pow(q, k);
        Mul(q, Pow(q, k - 1));
        { FibMatrixPower(k - 1); }
        Mul(q, Mat2(Fib(k), Fib(k - 1), Fib(k - 1), Fib(k - 2)));
        { MulFibMatrix(Mat2(Fib(k), Fib(k - 1), Fib(k - 1), Fib(k - 2))); }
        Mat2(Fib(k) + Fib(k - 1), Fib(k - 1) + Fib(k - 2), Fib(k), Fib(k - 1));
        { FibStep(k); }
        Mat2(Fib(k + 1), Fib(k), Fib(k), Fib(k - 1));
      }
    }
  }

  /** Multiplying by [[1, 1], [1, 0]] on the left adds the rows into the top
      row and moves the top row down. */
  lemma MulFibMatrix(a: Mat2)
    ensures Mul(FibMatrix(), a) == Mat2(a.m00 + a.m10, a.m01 + a.m11, a.m00, a.m01)
  {
  }

  lemma FibSmall()
    ensures Fib(0) == 0 && Fib(1) == 1 && Fib(2) == 1
  {
  }

  lemma FibStep(k: nat)
    requires k >= 2
    ensures Fib(k + 1) == Fib(k) + Fib(k - 1) && Fib(k) == Fib(k - 1) + Fib(k - 2)
  {
  }

  /** `fibonacci_mod(n, mod)`: 0 for `n == 0`; otherwise the top-left entry of
      [[1, 1], [1, 0]]^(n - 1) reduced modulo `mod`. For `n == 1` that power
      is the unreduced identity, so the result is 1 whatever `mod` is (even
      `mod == 1`, where F(1) mod 1 would be 0), and `mod` is never used for
      `n <= 1`. A negative `n` would make `matrix_pow` loop forever. */
  method FibonacciMod(n: int, mod: int) returns (r: int)
    requires n >= 0
    requires mod != 0 || n <= 1
    ensures n == 0 ==> r == 0
    ensures n == 1 ==> r == 1
    ensures n >= 2 ==> r == PyMod(Fib(n), mod)
    ensures mod >= 2 ==> r == Fib(n) % mod
  {
    if n == 0 {
      return 0;
    }
    var result := MatrixPow(FibMatrix(), n - 1, mod);
    if n >= 2 {
      FibMatrixPower(n - 1);
      assert result.m00 == PyMod(Pow(FibMatrix(), n - 1).m00, mod) == PyMod(Fib(n), mod);
    } else {
      assert result == Identity();
    }
    return result.m00;
  }
}
