/** `is_prime`: trial division by 2, 3 and then by the candidates 6k-1 and
    6k+1 up to the square root. */
module Primality {

  import Arith

  /** The meaning of "prime": at least 2, with no divisor strictly between 1
      and itself. */
  ghost predicate Prime(n: int)
  {
    n >= 2 && forall d :: 2 <= d < n ==> n % d != 0
  }

  /** No divisor in the range [2, i). */
  ghost predicate NoDivisorBelow(n: int, i: int)
  {
    forall d :: 2 <= d < i ==> n % d != 0
  }

  lemma MulMono(a: int, b: int, c: int, e: int)
    requires 0 <= a && 0 <= c
    ensures a <= b && c <= e ==> a * c <= b * e
  {
    if a <= b && c <= e {
      assert b * e - a * c == (b - a) * e + a * (e - c);
    }
  }

  /** A divisor of a divisor of `c` divides `c`. */
  lemma {:induction false} DivisorOfDivisor(a: int, b: int, c: int)
    requires a > 0 && b > 0 && b % a == 0
    ensures c % b == 0 ==> c % a == 0
  {
    if c % b == 0 {
      var k, l := b / a, c / b;
      assert c == a * (k * l);
      Arith.DivModUnique(c, a, k * l, 0);
    }
  }

  /** A divisor at or above `i` of a number below `i * i` comes with a
      co-divisor that lies below `i`. */
  lemma {:induction false} CoDivisorBelow(n: int, d: int, i: int)
    requires 2 <= d < n && n % d == 0 && 1 <= i <= d && n < i * i
    ensures 2 <= n / d < i && n % (n / d) == 0
  {
    var q := n / d;
    assert n == d * q;
    MulMono(i, d, i, q);
    MulMono(q, 1, d, d);
    Arith.DivModUnique(n, q, d, 0);
  }

  /** The square-root cut-off: once no divisor lies below `i` and `i * i`
      exceeds `n`, `n` is prime. */
  lemma {:induction false} SmallDivisorSuffices(n: int, i: int)
    requires n >= 2 && i >= 1 && n < i * i && NoDivisorBelow(n, i)
    ensures Prime(n)
  {
    forall d | 2 <= d < n
      ensures n % d != 0
    {
      if d >= i && n % d == 0 {
        CoDivisorBelow(n, d, i);
      }
    }
  }

  /** A divisor strictly between 1 and `n` shows that `n` is not prime. */
  lemma NotPrimeByDivisor(n: int, d: int)
    requires 2 <= d < n && n % d == 0
    ensures !Prime(n)
  {
  }

  /** One pass of the loop: with 2 and 3 ruled out, a candidate `i` of the
      form 6k-1 whose `i` and `i + 2` do not divide `n` extends the
      divisor-free range by six. */
  lemma {:induction false} CandidateStep(n: int, i: int, k: nat)
    requires n % 2 != 0 && n % 3 != 0 && i == 6 * k + 5
    requires NoDivisorBelow(n, i) && n % i != 0 && n % (i + 2) != 0
    ensures NoDivisorBelow(n, i + 6)
  {
    forall d | i <= d < i + 6
      ensures n % d != 0
    {
      if d == i + 1 || d == i + 3 || d == i + 5 {
        Arith.DivModUnique(d, 2, 3 * k + (d - i + 5) / 2, 0);
        DivisorOfDivisor(2, d, n);
      } else if d == i + 4 {
        Arith.DivModUnique(d, 3, 2 * k + 3, 0);
        DivisorOfDivisor(3, d, n);
      }
    }
  }

  /** `is_prime(num)`: true exactly when `num` is prime. */
  method IsPrime(num: int) returns (r: bool)
    ensures r == Prime(num)
  {
    if num <= 1 {
      return false;
    }
    if num <= 3 {
      return true;
    }
    if num % 2 == 0 || num % 3 == 0 {
      NotPrimeByDivisor(num, if num % 2 == 0 then 2 else 3);
      return false;
    }
    var i := 5;
    ghost var k: nat := 0;
    while i * i <= num
      invariant i == 6 * k + 5
      invariant NoDivisorBelow(num, i)
      decreases num - i
    {
      MulMono(5, i, i, i);
      if num % i == 0 || num % (i + 2) == 0 {
        NotPrimeByDivisor(num, if num % i == 0 then i else i + 2);
        return false;
      }
      CandidateStep(num, i, k);
      i, k := i + 6, k + 1;
    }
    SmallDivisorSuffices(num, i);
    return true;
  }

  /** The early exits of `is_prime`: nothing below 2 is prime, 2 and 3 are,
      and no larger multiple of 2 or 3 is. */
  lemma PrimeScreen(num: int)
    ensures num <= 1 ==> !Prime(num)
    ensures Prime(2) && Prime(3)
    ensures num > 3 && (num % 2 == 0 || num % 3 == 0) ==> !Prime(num)
  {
    if num > 3 && (num % 2 == 0 || num % 3 == 0) {
      NotPrimeByDivisor(num, if num % 2 == 0 then 2 else 3);
    }
  }

  /** The values the repository's unit tests check. */
  lemma KnownPrimes()
    ensures Prime(2) && Prime(3) && Prime(5) && Prime(7) && Prime(11) && Prime(13)
    ensures !Prime(4) && !Prime(9) && !Prime(15) && !Prime(21)
  {
    SmallDivisorSuffices(5, 3);
    SmallDivisorSuffices(7, 3);
    SmallDivisorSuffices(11, 4);
    SmallDivisorSuffices(13, 4);
    assert 4 % 2 == 0 && 9 % 3 == 0 && 15 % 3 == 0 && 21 % 3 == 0;
  }
}
