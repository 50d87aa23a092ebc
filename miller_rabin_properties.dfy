/**
  What the answers of millerRabinTest mean: the answer is 0 or 1, the fast
  path does not depend on k, rounds are only reached for n >= 17, more rounds
  never undo a composite verdict, and a verdict of 1 is always right: a prime
  is never reported composite (by Fermat's little theorem).
 */
module MillerRabinProperties {
  import opened Wrappers
  import opened Arithmetic
  import opened NumberTheory
  import opened MillerRabin

  // ---------------------------------------------------------------------------
  // Shape of the answer
  // ---------------------------------------------------------------------------

  lemma {:induction false} RoundsOutcomeBinary(n: int, s: nat, d: nat, rounds: int, rng: seq<nat>)
    requires n >= 3
    ensures RoundsOutcome(n, s, d, rounds, rng) in {None, Some(0), Some(1)}
    decreases rounds
  {
    if rounds > 0 {
      match Sample(2, n - 2, rng)
      case None =>
      case Some((a, rest)) =>
        if StrongProbablePrime(n, s, d, a) {
          RoundsOutcomeBinary(n, s, d, rounds - 1, rest);
        }
    }
  }

  /** millerRabinTest answers only 0 or 1 (None: the random stream ran out). */
  lemma OutcomeBinary(n: int, k: int, rng: seq<nat>)
    ensures Outcome(n, k, rng) in {None, Some(0), Some(1)}
  {
    if n >= 3 && n % 2 == 1 && SmallPrimeClass(n) == 2 {
      var (s, d) := Decomposition(n - 1);
      RoundsOutcomeBinary(n, s, d, k, rng);
    }
  }

  /** The trivial cases and the small-prime filter answer the same whatever k and the random stream are. */
  lemma FastPathIgnoresRounds(n: int, k1: int, k2: int, rng1: seq<nat>, rng2: seq<nat>)
    requires n < 3 || n % 2 == 0 || SmallPrimeClass(n) != 2
    ensures Outcome(n, k1, rng1) == Outcome(n, k2, rng2) != None
  {
  }

  /** The rounds are reached only for odd n >= 17, so the witness range [2, n - 2] is never empty. */
  lemma RoundsNeedAtLeast17(n: int)
    requires n >= 3 && n % 2 == 1 && SmallPrimeClass(n) == 2
    ensures n >= 17 && 2 <= n - 2
  {
    if n < 17 {
      assert n in {3, 5, 7, 9, 11, 13, 15};
      if n == 9 {
        assert 9 == 3 * 3;
        assert 3 in PRIME_LIST && Divides(3, n);
      } else if n == 15 {
        assert 15 == 5 * 3;
        assert 3 in PRIME_LIST && Divides(3, n);
      }
    }
  }

  /** With k <= 0 no round runs: an n that passes the fast path is answered 0. */
  lemma NoRoundsAnswersZero(n: int, k: int, rng: seq<nat>)
    requires k <= 0 && n >= 3 && n % 2 == 1 && SmallPrimeClass(n) == 2
    ensures Outcome(n, k, rng) == Some(0)
  {
  }

  // ---------------------------------------------------------------------------
  // More rounds
  // ---------------------------------------------------------------------------

  lemma {:induction false} MoreRoundsKeepFailure(n: int, s: nat, d: nat, k: int, k': int, rng: seq<nat>)
    requires n >= 3 && k <= k'
    requires RoundsOutcome(n, s, d, k, rng) == Some(1)
    ensures RoundsOutcome(n, s, d, k', rng) == Some(1)
    decreases k
  {
    match Sample(2, n - 2, rng)
    case None =>
    case Some((a, rest)) =>
      if StrongProbablePrime(n, s, d, a) {
        MoreRoundsKeepFailure(n, s, d, k - 1, k' - 1, rest);
      }
  }

  /** On the same random stream, a larger k never turns a verdict of 1 into 0. */
  lemma MoreRoundsKeepComposite(n: int, k: int, k': int, rng: seq<nat>)
    requires k <= k' && Outcome(n, k, rng) == Some(1)
    ensures Outcome(n, k', rng) == Some(1)
  {
    if n >= 3 && n % 2 == 1 && SmallPrimeClass(n) == 2 {
      var (s, d) := Decomposition(n - 1);
      MoreRoundsKeepFailure(n, s, d, k, k', rng);
    }
  }

  // ---------------------------------------------------------------------------
  // Soundness of a verdict of 1
  // ---------------------------------------------------------------------------

  /** A verdict of 1 from the rounds comes from a witness in [2, n - 2] that fails its round. */
  lemma {:induction false} RoundsFailureHasWitness(n: int, s: nat, d: nat, rounds: int, rng: seq<nat>)
    requires n >= 3 && RoundsOutcome(n, s, d, rounds, rng) == Some(1)
    ensures exists a :: 2 <= a <= n - 2 && !StrongProbablePrime(n, s, d, a)
    decreases rounds
  {
    match Sample(2, n - 2, rng)
    case None =>
    case Some((a, rest)) =>
      SampleInRange(2, n - 2, rng);
      if StrongProbablePrime(n, s, d, a) {
        RoundsFailureHasWitness(n, s, d, rounds - 1, rest);
      }
  }

  /** The small-prime filter is right: 0 only for primes, 1 only for non-primes. */
  lemma SmallPrimeFilterSound(n: int)
    ensures SmallPrimeClass(n) == 0 ==> IsPrime(n)
    ensures SmallPrimeClass(n) == 1 ==> !IsPrime(n)
  {
    if SmallPrimeClass(n) == 0 {
      forall m | 2 <= m < n
        ensures n % m != 0
      {
        assert m in {2, 3, 4, 5, 6, 7, 8, 9, 10, 11, 12};
      }
    } else if SmallPrimeClass(n) == 1 && n >= 2 {
      var p :| p in PRIME_LIST && Divides(p, n);
      DividesIffModZero(p, n);
      if n < p {
        ModUnique(n, 0, n, p);
      }
      assert 2 <= p < n && n % p == 0;
    }
  }

  /**
    If the chain of a round reaches 1 at step m but did not start at 1, the
    value just before the first 1 is n - 1, because modulo a prime the only
    square roots of 1 are 1 and n - 1.
   */
  lemma {:induction false} ChainMeetsMinusOne(n: int, d: nat, a: int, m: nat)
    requires IsPrime(n) && Chain(n, d, a, m) == 1 && Chain(n, d, a, 0) != 1
    ensures exists j :: 0 <= j < m && Chain(n, d, a, j) == n - 1
    decreases m
  {
    var x := Chain(n, d, a, m - 1);
    if x == 1 {
      ChainMeetsMinusOne(n, d, a, m - 1);
    } else {
      ChainStep(n, d, a, m - 1);
      assert Pow(x, 2) == x * x;
      SquareRootOfOne(n, x);
    }
  }

  /** Every base in [1, n - 1] passes the round for a prime n >= 3. */
  lemma PrimeIsStrongProbablePrime(n: int, s: nat, d: nat, a: int)
    requires IsPrime(n) && n >= 3 && n - 1 == Pow2(s) * d
    requires 1 <= a <= n - 1
    ensures StrongProbablePrime(n, s, d, a)
  {
    ModUnique(a, 0, a, n);
    FermatCoprime(n, a);
    assert Chain(n, d, a, s) == 1;
    assert Chain(n, d, a, 0) == ModExp(a, d, n);
    if ModExp(a, d, n) != 1 && ModExp(a, d, n) != n - 1 {
      ChainMeetsMinusOne(n, d, a, s);
      var j :| 0 <= j < s && Chain(n, d, a, j) == n - 1;
      assert 1 <= j;
    }
  }

  /** A verdict of 1 is definite: millerRabinTest never answers 1 for a prime. */
  lemma CompositeVerdictIsDefinite(n: int, k: int, rng: seq<nat>)
    requires Outcome(n, k, rng) == Some(1)
    ensures !IsPrime(n)
  {
    if n < 3 || n % 2 == 0 {
    } else if SmallPrimeClass(n) != 2 {
      SmallPrimeFilterSound(n);
    } else {
      var (s, d) := Decomposition(n - 1);
      RoundsFailureHasWitness(n, s, d, k, rng);
      var a :| 2 <= a <= n - 2 && !StrongProbablePrime(n, s, d, a);
      if IsPrime(n) {
        PrimeIsStrongProbablePrime(n, s, d, a);
      }
    }
  }

  /** The Carmichael number 561 = 3 * 187 and 15 = 3 * 5 are caught by the small-prime filter. */
  lemma FilterCatchesSmallFactors(k: int, rng: seq<nat>)
    ensures Outcome(561, k, rng) == Some(1)
    ensures Outcome(15, k, rng) == Some(1)
  {
    assert 561 == 187 * 3 && 15 == 5 * 3;
    assert Divides(3, 561) && Divides(3, 15);
  }
}
