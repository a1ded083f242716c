/** Python's integer `%` and `//`, and the congruence facts the rest of the
    model needs about them.

    Python rounds the quotient toward negative infinity, so `x % m` takes the
    sign of `m`; Dafny's `%` on `int` is Euclidean (never negative). The two
    agree when `m > 0`, which is the only case the Pisano search uses; the
    matrix routines accept any nonzero modulus and go through `PyMod`. */
module Arith {

  /** Python's `x // m`. */
  function PyDiv(x: int, m: int): int
    requires m != 0
  {
    if m > 0 then x / m else (-x) / (-m)
  }

  /** Python's `x % m`: the representative of `x` modulo `m` that lies between
      0 and `m`, on the side of `m`. */
  function PyMod(x: int, m: int): (r: int)
    requires m != 0
    ensures r == x - m * PyDiv(x, m)
    ensures m > 0 ==> 0 <= r < m
    ensures m < 0 ==> m < r <= 0
  {
    if m > 0 then x % m else -((-x) % (-m))
  }

  /** A value in Python's residue range for `m`. */
  predicate IsResidue(x: int, m: int)
  {
    (m > 0 && 0 <= x < m) || (m < 0 && m < x <= 0)
  }

  /** Euclidean division by a positive number has exactly one quotient and
      remainder. */
  lemma {:induction false} DivModUnique(a: int, n: int, q: int, r: int)
    requires n > 0 && 0 <= r < n && a == n * q + r
    ensures a % n == r && a / n == q
  {
    MulBounds(n, q - a / n);
  }

  /** A nonzero multiple of a positive number is at least that number in
      absolute value. */
  lemma MulBounds(n: int, t: int)
    requires n > 0
    ensures t >= 1 ==> n * t >= n
    ensures t <= -1 ==> n * t <= -n
  {
    if t >= 1 {
      assert n * t == n * (t - 1) + n;
    } else if t <= -1 {
      assert n * t == n * (t + 1) - n;
    }
  }

  /** Adding a multiple of the modulus does not change Python's remainder. */
  lemma {:induction false} PyModShift(x: int, k: int, m: int)
    requires m != 0
    ensures PyMod(x + m * k, m) == PyMod(x, m)
  {
    if m > 0 {
      DivModUnique(x + m * k, m, x / m + k, x % m);
    } else {
      var n := -m;
      assert -(x + m * k) == (-x) + n * k;
      DivModUnique((-x) + n * k, n, (-x) / n + k, (-x) % n);
    }
  }

  /** Python's remainder is the identity on values already in its range. */
  lemma PyModOfResidue(x: int, m: int)
    requires m != 0 && IsResidue(x, m)
    ensures PyMod(x, m) == x
  {
    if m > 0 {
      DivModUnique(x, m, 0, x);
    } else {
      DivModUnique(-x, -m, 0, -x);
    }
  }

  /** Two values have the same Python remainder exactly when they differ by a
      multiple of the modulus. */
  lemma {:induction false} PyModEqualIffMultiple(x: int, y: int, m: int)
    requires m != 0
    ensures PyMod(x, m) == PyMod(y, m) <==> exists k :: x - y == m * k
  {
    if PyMod(x, m) == PyMod(y, m) {
      var k := PyDiv(x, m) - PyDiv(y, m);
      assert x - y == m * k;
    }
    if exists k :: x - y == m * k {
      var k :| x - y == m * k;
      PyModShift(y, k, m);
    }
  }

  /** The entry of a product of reduced 2-by-2 matrices, reduced again, is
      the reduced entry of the exact product. */
  lemma {:induction false} PyModDot(a: int, b: int, c: int, d: int, m: int)
    requires m != 0
    ensures PyMod(PyMod(a, m) * PyMod(b, m) + PyMod(c, m) * PyMod(d, m), m)
         == PyMod(a * b + c * d, m)
  {
    var qa, qb, qc, qd := PyDiv(a, m), PyDiv(b, m), PyDiv(c, m), PyDiv(d, m);
    var k := m * qa * qb - qa * b - a * qb + m * qc * qd - qc * d - c * qd;
    calc {
      PyMod(a, m) * PyMod(b, m) + PyMod(c, m) * PyMod(d, m);
      (a - m * qa) * (b - m * qb) + (c - m * qc) * (d - m * qd);
      a * b + c * d + m * k;
    }
    PyModShift(a * b + c * d, k, m);
  }

  /** Reducing the summands before adding does not change the remainder of
      the sum. */
  lemma {:induction false} PyModSum(a: int, b: int, m: int)
    requires m != 0
    ensures PyMod(PyMod(a, m) + PyMod(b, m), m) == PyMod(a + b, m)
  {
    var k := -PyDiv(a, m) - PyDiv(b, m);
    assert PyMod(a, m) + PyMod(b, m) == a + b + m * k;
    PyModShift(a + b, k, m);
  }

  /** Sums of congruent summands are congruent. */
  lemma ModSumCongruent(a: int, b: int, c: int, d: int, n: int)
    requires n > 0 && a % n == c % n && b % n == d % n
    ensures (a + b) % n == (c + d) % n
  {
    PyModSum(a, b, n);
    PyModSum(c, d, n);
  }

  /** Subtracting the divisor once leaves the remainder unchanged. */
  lemma ModSubDivisor(k: int, p: int)
    requires p > 0
    ensures (k - p) % p == k % p
  {
    DivModUnique(k, p, (k - p) / p + 1, (k - p) % p);
  }
}
