/**
  Integer arithmetic that the test relies on: powers, powers of two, divisibility
  and the modular identities that Dafny's solver does not find on its own.
  Dafny's `%` is Euclidean; for a positive modulus it agrees with Java's
  `BigInteger.mod`, which is the only modulo the source uses.
 */
module Arithmetic {

  /** a raised to the power e. */
  function Pow(a: int, e: nat): (r: int)
    decreases e
  {
    if e == 0 then 1 else a * Pow(a, e - 1)
  }

  /** 2 raised to the power e. */
  function Pow2(e: nat): (r: nat)
    ensures r >= 1
    decreases e
  {
    if e == 0 then 1 else 2 * Pow2(e - 1)
  }

  /** p divides n: n is an integer multiple of p. */
  ghost predicate Divides(p: int, n: int) {
    exists q :: n == q * p
  }

  lemma {:induction false} PowAdd(a: int, e1: nat, e2: nat)
    ensures Pow(a, e1 + e2) == Pow(a, e1) * Pow(a, e2)
    decreases e1
  {
    if e1 > 0 {
      PowAdd(a, e1 - 1, e2);
      assert Pow(a, e1 + e2) == a * Pow(a, e1 - 1 + e2);
      assert Pow(a, e1 - 1 + e2) == Pow(a, e1 - 1) * Pow(a, e2);
      assert a * (Pow(a, e1 - 1) * Pow(a, e2)) == (a * Pow(a, e1 - 1)) * Pow(a, e2);
    }
  }

  lemma PowSquare(a: int, e: nat)
    ensures Pow(a, 2 * e) == Pow(a, e) * Pow(a, e)
  {
    PowAdd(a, e, e);
  }

  /** Pow2(e + 1) is twice Pow2(e), so doubling an exponent shifts the power of two. */
  lemma Pow2Double(e: nat, d: int)
    ensures Pow2(e + 1) * d == 2 * (Pow2(e) * d)
  {
  }

  /** Halving an even factor moves one 2 into the power of two. */
  lemma Pow2Halve(e: nat, d: int)
    requires d % 2 == 0
    ensures Pow2(e + 1) * (d / 2) == Pow2(e) * d
  {
    var h := d / 2;
    assert d == 2 * h;
    Pow2Double(e, h);
    assert 2 * (Pow2(e) * h) == Pow2(e) * (2 * h);
  }

  lemma MulAtLeast(k: int, n: int)
    requires k >= 1 && n > 0
    ensures k * n >= n
  {
  }

  /** Euclidean division is unique: a quotient and remainder in range are THE ones. */
  lemma ModUnique(x: int, q: int, r: int, n: int)
    requires n > 0 && 0 <= r < n
    requires x == q * n + r
    ensures x % n == r && x / n == q
  {
    var q', r' := x / n, x % n;
    assert x == q' * n + r';
    if q' > q {
      MulAtLeast(q' - q, n);
      assert false;
    } else if q' < q {
      MulAtLeast(q - q', n);
      assert false;
    }
  }

  lemma ModAddMultiple(a: int, t: int, n: int)
    requires n > 0
    ensures (a + t * n) % n == a % n
  {
    assert a == (a / n) * n + a % n;
    assert a + t * n == (a / n + t) * n + a % n;
    ModUnique(a + t * n, a / n + t, a % n, n);
  }

  lemma MultipleModZero(q: int, n: int)
    requires n > 0
    ensures (q * n) % n == 0
  {
    ModAddMultiple(0, q, n);
  }

  /** For a positive modulus, divisibility is exactly a zero remainder. */
  lemma DividesIffModZero(p: int, n: int)
    requires p > 0
    ensures Divides(p, n) <==> n % p == 0
  {
    if n % p == 0 {
      assert n == (n / p) * p;
    }
    if Divides(p, n) {
      var q :| n == q * p;
      MultipleModZero(q, p);
    }
  }

  lemma ModAdd(a: int, b: int, n: int)
    requires n > 0
    ensures (a + b) % n == (a % n + b % n) % n
  {
    assert a == (a / n) * n + a % n;
    assert b == (b / n) * n + b % n;
    assert a + b == (a % n + b % n) + (a / n + b / n) * n;
    ModAddMultiple(a % n + b % n, a / n + b / n, n);
  }

  lemma ModSub(a: int, b: int, n: int)
    requires n > 0
    ensures (a - b) % n == (a % n - b % n) % n
  {
    assert a == (a / n) * n + a % n;
    assert b == (b / n) * n + b % n;
    assert a - b == (a % n - b % n) + (a / n - b / n) * n;
    ModAddMultiple(a % n - b % n, a / n - b / n, n);
  }

  lemma ModMul(a: int, b: int, n: int)
    requires n > 0
    ensures (a * b) % n == ((a % n) * (b % n)) % n
  {
    var qa, ra := a / n, a % n;
    var qb, rb := b / n, b % n;
    assert a == qa * n + ra;
    assert b == qb * n + rb;
    calc {
      a * b;
      (qa * n + ra) * (qb * n + rb);
      ra * rb + (qa * qb * n + qa * rb + ra * qb) * n;
    }
    ModAddMultiple(ra * rb, qa * qb * n + qa * rb + ra * qb, n);
  }

  /** A multiple of n times anything is still a multiple of n. */
  lemma ModZeroMul(a: int, b: int, n: int)
    requires n > 0 && a % n == 0
    ensures (a * b) % n == 0
  {
    ModMul(a, b, n);
  }

  /** Sums and differences of multiples of n are multiples of n. */
  lemma ModZeroAdd(a: int, b: int, n: int)
    requires n > 0 && a % n == 0 && b % n == 0
    ensures (a + b) % n == 0 && (a - b) % n == 0
  {
    ModAdd(a, b, n);
    ModSub(a, b, n);
  }

  lemma ModOfMod(a: int, n: int)
    requires n > 0
    ensures (a % n) % n == a % n
  {
    ModUnique(a % n, 0, a % n, n);
  }
}
