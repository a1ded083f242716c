/** 2-by-2 integer matrices and their arithmetic modulo `mod`:
    `matrix_mult` and `matrix_pow`.

    `pisanoof1000000.py` represents a matrix as a list of two rows of two entries;
    here `Mat2(m00, m01, m10, m11)` names the entry in row i, column j as
    `mij`. */
module ModMatrix {

  import opened Arith

  datatype Mat2 = Mat2(m00: int, m01: int, m10: int, m11: int)

  function Identity(): Mat2
  {
    Mat2(1, 0, 0, 1)
  }

  /** The ordinary (unreduced) matrix product. */
  function Mul(a: Mat2, b: Mat2): Mat2
  {
    Mat2(a.m00 * b.m00 + a.m01 * b.m10, a.m00 * b.m01 + a.m01 * b.m11,
         a.m10 * b.m00 + a.m11 * b.m10, a.m10 * b.m01 + a.m11 * b.m11)
  }

  /** The ordinary matrix power `a^k`, as repeated multiplication. */
  function Pow(a: Mat2, k: nat): Mat2
  {
    if k == 0 then Identity() else Mul(a, Pow(a, k - 1))
  }

  /** Every entry reduced with Python's `%`. */
  function Reduce(a: Mat2, m: int): Mat2
    requires m != 0
  {
    Mat2(PyMod(a.m00, m), PyMod(a.m01, m), PyMod(a.m10, m), PyMod(a.m11, m))
  }

  /** Every entry lies in Python's residue range for `m`. */
  predicate IsReduced(a: Mat2, m: int)
  {
    IsResidue(a.m00, m) && IsResidue(a.m01, m) && IsResidue(a.m10, m) && IsResidue(a.m11, m)
  }

  /** `matrix_mult(A, B, mod)`: the product with each entry reduced modulo
      `mod`, computed entry by entry as the Python code writes it. */
  function MatrixMult(a: Mat2, b: Mat2, mod: int): (r: Mat2)
    requires mod != 0
    ensures r == Reduce(Mul(a, b), mod)
    ensures IsReduced(r, mod)
  {
    Mat2(PyMod(a.m00 * b.m00 + a.m01 * b.m10, mod), PyMod(a.m00 * b.m01 + a.m01 * b.m11, mod),
         PyMod(a.m10 * b.m00 + a.m11 * b.m10, mod), PyMod(a.m10 * b.m01 + a.m11 * b.m11, mod))
  }

  /** One entry of a triple product, bracketed either way: row (x0, x1)
      times [[b00, b01], [b10, b11]] times column (y0, y1). */
  lemma TripleProduct(x0: int, x1: int, b00: int, b01: int, b10: int, b11: int, y0: int, y1: int)
    ensures (x0 * b00 + x1 * b10) * y0 + (x0 * b01 + x1 * b11) * y1
         == x0 * (b00 * y0 + b01 * y1) + x1 * (b10 * y0 + b11 * y1)
  {
    calc {
      (x0 * b00 + x1 * b10) * y0 + (x0 * b01 + x1 * b11) * y1;
      x0 * b00 * y0 + x1 * b10 * y0 + x0 * b01 * y1 + x1 * b11 * y1;
      x0 * (b00 * y0 + b01 * y1) + x1 * (b10 * y0 + b11 * y1);
    }
  }

  lemma MulAssociative(a: Mat2, b: Mat2, c: Mat2)
    ensures Mul(Mul(a, b), c) == Mul(a, Mul(b, c))
  {
    TripleProduct(a.m00, a.m01, b.m00, b.m01, b.m10, b.m11, c.m00, c.m10);
    TripleProduct(a.m00, a.m01, b.m00, b.m01, b.m10, b.m11, c.m01, c.m11);
    TripleProduct(a.m10, a.m11, b.m00, b.m01, b.m10, b.m11, c.m00, c.m10);
    TripleProduct(a.m10, a.m11, b.m00, b.m01, b.m10, b.m11, c.m01, c.m11);
  }

  lemma MulIdentity(a: Mat2)
    ensures Mul(a, Identity()) == a && Mul(Identity(), a) == a
  {
  }

  /** `a^(i + j) == a^i * a^j`. */
  lemma {:induction false} PowAdd(a: Mat2, i: nat, j: nat)
    ensures Pow(a, i + j) == Mul(Pow(a, i), Pow(a, j))
  {
    if i == 0 {
      MulIdentity(Pow(a, j));
    } else {
      PowAdd(a, i - 1, j);
      MulAssociative(a, Pow(a, i - 1), Pow(a, j));
    }
  }

  lemma PowSquare(a: Mat2)
    ensures Pow(a, 2) == Mul(a, a)
  {
    MulIdentity(a);
    assert Pow(a, 1) == Mul(a, Identity());
  }

  /** `a^(2k) == (a * a)^k`: squaring the base halves the exponent. */
  lemma {:induction false} PowDouble(a: Mat2, k: nat)
    ensures Pow(a, 2 * k) == Pow(Mul(a, a), k)
  {
    if k > 0 {
      calc {
        Pow(a, 2 * k);
        { PowAdd(a, 2, 2 * (k - 1)); }
        Mul(Pow(a, 2), Pow(a, 2 * (k - 1)));
        { PowSquare(a); PowDouble(a, k - 1); }
        Mul(Mul(a, a), Pow(Mul(a, a), k - 1));
      }
    }
  }

  /** Reducing the factors before multiplying does not change the reduced
      product. */
  lemma ReduceMul(a: Mat2, b: Mat2, m: int)
    requires m != 0
    ensures Reduce(Mul(Reduce(a, m), Reduce(b, m)), m) == Reduce(Mul(a, b), m)
  {
    PyModDot(a.m00, b.m00, a.m01, b.m10, m);
    PyModDot(a.m00, b.m01, a.m01, b.m11, m);
    PyModDot(a.m10, b.m00, a.m11, b.m10, m);
    PyModDot(a.m10, b.m01, a.m11, b.m11, m);
  }

  /** Congruence modulo `m` is preserved by multiplication. */
  lemma MulCongruent(a: Mat2, a': Mat2, b: Mat2, b': Mat2, m: int)
    requires m != 0 && Reduce(a, m) == Reduce(a', m) && Reduce(b, m) == Reduce(b', m)
    ensures Reduce(Mul(a, b), m) == Reduce(Mul(a', b'), m)
  {
    ReduceMul(a, b, m);
    ReduceMul(a', b', m);
  }

  /** Raising the reduced matrix to a power gives the same reduced result as
      raising the matrix itself. */
  lemma {:induction false} PowCongruent(a: Mat2, k: nat, m: int)
    requires m != 0
    ensures Reduce(Pow(Reduce(a, m), k), m) == Reduce(Pow(a, k), m)
  {
    if k > 0 {
      PowCongruent(a, k - 1, m);
      ReduceOfReduced(Reduce(a, m), m);
      MulCongruent(Reduce(a, m), a, Pow(Reduce(a, m), k - 1), Pow(a, k - 1), m);
    }
  }

  lemma ReduceOfReduced(a: Mat2, m: int)
    requires m != 0
    ensures Reduce(Reduce(a, m), m) == Reduce(a, m)
    ensures IsReduced(a, m) ==> Reduce(a, m) == a
  {
    PyModOfResidue(PyMod(a.m00, m), m);
    PyModOfResidue(PyMod(a.m01, m), m);
    PyModOfResidue(PyMod(a.m10, m), m);
    PyModOfResidue(PyMod(a.m11, m), m);
    if IsReduced(a, m) {
      PyModOfResidue(a.m00, m);
      PyModOfResidue(a.m01, m);
      PyModOfResidue(a.m10, m);
      PyModOfResidue(a.m11, m);
    }
  }

  /** One pass of the square-and-multiply loop keeps `result * base^power`
      unchanged modulo `m`. */
  lemma {:induction false} SquareMultiplyStep(result: Mat2, base: Mat2, power: nat, m: int)
    requires m != 0 && power > 0
    ensures var result' := if power % 2 == 1 then MatrixMult(result, base, m) else result;
      Reduce(Mul(result', Pow(MatrixMult(base, base, m), power / 2)), m)
        == Reduce(Mul(result, Pow(base, power)), m)
  {
    var h := power / 2;
    var result' := if power % 2 == 1 then MatrixMult(result, base, m) else result;
    var square := Mul(base, base);
    PowCongruent(square, h, m);
    ReduceOfReduced(Pow(square, h), m);
    ReduceOfReduced(result', m);
    MulCongruent(result', result', Pow(Reduce(square, m), h), Pow(square, h), m);
    PowDouble(base, h);
    if power % 2 == 1 {
      ReduceOfReduced(Mul(result, base), m);
      ReduceOfReduced(Pow(base, 2 * h), m);
      MulCongruent(result', Mul(result, base), Pow(base, 2 * h), Pow(base, 2 * h), m);
      MulAssociative(result, base, Pow(base, 2 * h));
      assert Pow(base, power) == Mul(base, Pow(base, 2 * h));
    }
  }

  /** `matrix_pow(M, power, mod)`: binary exponentiation from the identity.
      For `power == 0` the identity comes back unreduced and `mod` is never
      used; otherwise the result is `M^power` reduced modulo `mod`. A
      negative `power` never reaches zero under Python's `//`, so the
      Python callers pass `power >= 0`. */
  method MatrixPow(m: Mat2, power: int, mod: int) returns (result: Mat2)
    requires power >= 0
    requires mod != 0 || power == 0
    ensures power == 0 ==> result == Identity()
    ensures power > 0 ==> result == Reduce(Pow(m, power), mod)
    ensures power > 0 ==> IsReduced(result, mod)
  {
    result := Identity();
    var base := m;
    var p := power;
    while p != 0
      invariant 0 <= p <= power
      invariant power == 0 ==> result == Identity()
      invariant power > 0 ==> Reduce(Mul(result, Pow(base, p)), mod) == Reduce(Pow(m, power), mod)
      invariant power > 0 && p == 0 ==> IsReduced(result, mod)
      decreases p
    {
      SquareMultiplyStep(result, base, p, mod);
      if p % 2 == 1 {
        result := MatrixMult(result, base, mod);
      }
      base := MatrixMult(base, base, mod);
      p := p / 2;
    }
    if power > 0 {
      MulIdentity(result);
      ReduceOfReduced(result, mod);
    }
  }
}
