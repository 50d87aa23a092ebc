/**
  The number theory behind the promise that a verdict of "composite" is
  definite: Euclid's lemma, the binomial theorem, Fermat's little theorem and
  the fact that 1 has only the square roots 1 and -1 modulo a prime.
 */
module NumberTheory {
  import opened Arithmetic

  /** n is prime: at least 2, and no m strictly between 1 and n divides it. */
  ghost predicate IsPrime(n: int) {
    n >= 2 && forall m :: 2 <= m < n ==> n % m != 0
  }

  /** Helper for Euclid's lemma: a prime that divides k * b with 0 < k < p divides b. */
  lemma {:induction false} EuclidBelow(p: int, k: int, b: int)
    requires IsPrime(p) && 0 < k < p && (k * b) % p == 0
    ensures b % p == 0
    decreases k
  {
    if k > 1 {
      var q, r := p / k, p % k;
      assert p == q * k + r;
      assert 0 < r < k;
      assert r * b == b * p - (k * b) * q;
      ModZeroMul(k * b, q, p);
      MultipleModZero(b, p);
      ModZeroAdd(b * p, (k * b) * q, p);
      EuclidBelow(p, r, b);
    }
  }

  /** Euclid's lemma: a prime that divides a product divides one of its factors. */
  lemma Euclid(p: int, a: int, b: int)
    requires IsPrime(p) && (a * b) % p == 0
    ensures a % p == 0 || b % p == 0
  {
    var k := a % p;
    if k != 0 {
      ModMul(a, b, p);
      ModMul(k, b, p);
      ModOfMod(a, p);
      EuclidBelow(p, k, b);
    }
  }

  /** The binomial coefficient "n choose k", by Pascal's rule. */
  function Binom(n: nat, k: nat): (r: nat)
    decreases n
  {
    if k == 0 then 1 else if n == 0 then 0 else Binom(n - 1, k - 1) + Binom(n - 1, k)
  }

  lemma {:induction false} BinomAbove(n: nat, k: nat)
    requires k > n
    ensures Binom(n, k) == 0
    decreases n
  {
    if n > 0 {
      BinomAbove(n - 1, k - 1);
      BinomAbove(n - 1, k);
    }
  }

  lemma {:induction false} BinomSelf(n: nat)
    ensures Binom(n, n) == 1
    decreases n
  {
    if n > 0 {
      BinomSelf(n - 1);
      BinomAbove(n - 1, n);
    }
  }

  lemma {:induction false} BinomOne(n: nat)
    ensures Binom(n, 1) == n
    decreases n
  {
    if n > 0 {
      BinomOne(n - 1);
    }
  }

  /** The absorption identity k * C(n, k) == n * C(n - 1, k - 1). */
  lemma {:induction false} BinomAbsorb(n: nat, k: nat)
    requires n >= 1 && k >= 1
    ensures k * Binom(n, k) == n * Binom(n - 1, k - 1)
    decreases n
  {
    if k == 1 {
      BinomOne(n);
    } else if n == 1 {
      BinomAbove(0, k - 1);
      BinomAbove(0, k);
    } else {
      BinomAbsorb(n - 1, k - 1);
      BinomAbsorb(n - 1, k);
      AbsorbStep(k, n, Binom(n - 1, k - 1), Binom(n - 1, k), Binom(n - 2, k - 2), Binom(n - 2, k - 1));
    }
  }

  /** The ring arithmetic of one step of BinomAbsorb, kept apart from Binom's unfolding. */
  lemma AbsorbStep(k: int, n: int, a: int, b: int, c: int, e: int)
    requires a == c + e
    requires (k - 1) * a == (n - 1) * c && k * b == (n - 1) * e
    ensures k * (a + b) == n * a
  {
    calc {
      k * (a + b);
      (k - 1) * a + a + k * b;
      (n - 1) * c + a + (n - 1) * e;
      (n - 1) * (c + e) + a;
      n * a;
    }
  }

  /** A prime p divides every C(p, k) with 0 < k < p. */
  lemma PrimeDividesBinom(p: nat, k: nat)
    requires IsPrime(p) && 0 < k < p
    ensures Binom(p, k) % p == 0
  {
    BinomAbsorb(p, k);
    var b, c := Binom(p, k), Binom(p - 1, k - 1);
    assert k * b == c * p;
    MultipleModZero(c, p);
    Euclid(p, k, b);
    ModUnique(k, 0, k, p);
  }

  /** The first m + 1 terms of the expansion of (x + 1)^n: the sum of C(n, j) * x^j for j <= m. */
  function BinomSum(n: nat, x: int, m: nat): (r: int)
    decreases m
  {
    if m == 0 then 1 else BinomSum(n, x, m - 1) + Binom(n, m) * Pow(x, m)
  }

  /** Pascal's rule lifted to the partial sums. */
  lemma {:induction false} BinomSumPascal(n: nat, x: int, m: nat)
    requires m >= 1
    ensures BinomSum(n + 1, x, m) == BinomSum(n, x, m) + x * BinomSum(n, x, m - 1)
    decreases m
  {
    if m > 1 {
      BinomSumPascal(n, x, m - 1);
      PascalStep(x, BinomSum(n, x, m - 1), BinomSum(n, x, m - 2), Binom(n, m - 1), Binom(n, m), Pow(x, m - 1));
    } else {
      assert Pow(x, 1) == x;
      assert Binom(n + 1, 1) == 1 + Binom(n, 1);
      assert BinomSum(n, x, 1) == 1 + Binom(n, 1) * x;
    }
  }

  /** The ring arithmetic of one step of BinomSumPascal. */
  lemma PascalStep(x: int, s1: int, s2: int, b1: int, b0: int, p: int)
    ensures s1 + x * s2 + (b1 + b0) * (x * p) == (s1 + b0 * (x * p)) + x * (s2 + b1 * p)
  {
  }

  /** The binomial theorem for (x + 1)^n. */
  lemma {:induction false} BinomialTheorem(n: nat, x: int)
    ensures Pow(x + 1, n) == BinomSum(n, x, n)
    decreases n
  {
    if n > 0 {
      var t := BinomSum(n - 1, x, n - 1);
      assert Pow(x + 1, n - 1) == t by {
        BinomialTheorem(n - 1, x);
      }
      assert BinomSum(n - 1, x, n) == t by {
        BinomAbove(n - 1, n);
      }
      assert BinomSum(n, x, n) == t + x * t by {
        BinomSumPascal(n - 1, x, n);
      }
      assert Pow(x + 1, n) == (x + 1) * t;
      assert (x + 1) * t == t + x * t;
    }
  }

  lemma {:induction false} PrimeBinomSumBelow(p: nat, x: int, m: nat)
    requires IsPrime(p) && m < p
    ensures (BinomSum(p, x, m) - 1) % p == 0
    decreases m
  {
    if m > 0 {
      var prev, term := BinomSum(p, x, m - 1) - 1, Binom(p, m) * Pow(x, m);
      assert prev % p == 0 by {
        PrimeBinomSumBelow(p, x, m - 1);
      }
      assert term % p == 0 by {
        PrimeDividesBinom(p, m);
        ModZeroMul(Binom(p, m), Pow(x, m), p);
      }
      assert (prev + term) % p == 0 by {
        ModZeroAdd(prev, term, p);
      }
      assert BinomSum(p, x, m) - 1 == prev + term;
    }
  }

  /** (x + 1)^p and x^p + 1 agree modulo a prime p. */
  lemma FreshmansDream(p: nat, x: int)
    requires IsPrime(p)
    ensures (Pow(x + 1, p) - Pow(x, p) - 1) % p == 0
  {
    BinomialTheorem(p, x);
    PrimeBinomSumBelow(p, x, p - 1);
    BinomSelf(p);
    assert BinomSum(p, x, p) == BinomSum(p, x, p - 1) + Pow(x, p);
    assert Pow(x + 1, p) - Pow(x, p) - 1 == BinomSum(p, x, p - 1) - 1;
  }

  /** Fermat's little theorem: a^p and a agree modulo a prime p. */
  lemma {:induction false} FermatLittle(p: nat, a: nat)
    requires IsPrime(p)
    ensures (Pow(a, p) - a) % p == 0
    decreases a
  {
    if a == 0 {
      assert Pow(0, p) == 0 * Pow(0, p - 1) == 0;
    } else {
      var b := a - 1;
      var step, prev := Pow(b + 1, p) - Pow(b, p) - 1, Pow(b, p) - b;
      assert step % p == 0 by {
        FreshmansDream(p, b);
      }
      assert prev % p == 0 by {
        FermatLittle(p, b);
      }
      assert (step + prev) % p == 0 by {
        ModZeroAdd(step, prev, p);
      }
      assert Pow(a, p) - a == step + prev;
    }
  }

  /** Fermat's little theorem for a base the prime does not divide: a^(p-1) is 1 modulo p. */
  lemma FermatCoprime(p: nat, a: nat)
    requires IsPrime(p) && a % p != 0
    ensures Pow(a, p - 1) % p == 1
  {
    FermatLittle(p, a);
    var y := Pow(a, p - 1);
    assert Pow(a, p) - a == a * (y - 1);
    Euclid(p, a, y - 1);
    assert y == ((y - 1) / p) * p + 1;
    ModUnique(y, (y - 1) / p, 1, p);
  }

  /** Modulo a prime, the only square roots of 1 are 1 and p - 1. */
  lemma SquareRootOfOne(p: nat, x: int)
    requires IsPrime(p) && 0 <= x < p && (x * x) % p == 1
    ensures x == 1 || x == p - 1
  {
    ModUnique(1, 0, 1, p);
    ModSub(x * x, 1, p);
    assert (x - 1) * (x + 1) == x * x - 1;
    Euclid(p, x - 1, x + 1);
    if (x - 1) % p == 0 {
      if x > 0 {
        ModUnique(x - 1, 0, x - 1, p);
      } else {
        ModUnique(-1, -1, p - 1, p);
      }
    } else if x + 1 < p {
      ModUnique(x + 1, 0, x + 1, p);
    }
  }
}
