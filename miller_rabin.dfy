/**
  The Miller-Rabin probabilistic primality test of Java/MillerRabin.java.

  The test answers 0 ("probably prime") or 1 ("definitely composite") for an
  arbitrary-precision candidate n and a round count k. Integers are unbounded,
  like Java's BigInteger. The secure random generator is replaced by a finite
  stream of its draws: each entry is the value of one `new BigInteger(bits, random)`
  call. An answer of None means that the stream ran out before the test could
  finish, where the program would have kept drawing.
 */
module MillerRabin {
  import opened Wrappers
  import opened Arithmetic

  /** The fixed small primes the fast path compares against. */
  const PRIME_LIST: seq<int> := [2, 3, 5, 7, 11, 13]

  /** The exceptions the divisibility test can throw. */
  datatype ArithmeticError =
    | ZeroDivisor          // raised by divisibilityTest itself
    | NonPositiveModulus   // raised by BigInteger.mod for a negative divisor

  // ---------------------------------------------------------------------------
  // Divisibility test and small-prime filter
  // ---------------------------------------------------------------------------

  /** Whether divisor divides dividend; a zero or negative divisor is an error. */
  function DivisibilityTest(dividend: int, divisor: int): (r: Result<bool, ArithmeticError>)
    ensures r == Failure(ZeroDivisor) <==> divisor == 0
    ensures r == Failure(NonPositiveModulus) <==> divisor < 0
    ensures divisor > 0 ==> r.Success? && (r.value <==> Divides(divisor, dividend))
  {
    if divisor == 0 then Failure(ZeroDivisor)
    else if divisor < 0 then Failure(NonPositiveModulus)
    else
      DividesIffModZero(divisor, dividend);
      Success(dividend % divisor == 0)
  }

  /**
    The answer of the small-prime filter: 0 when n is a listed prime, 1 when n
    is a multiple of a listed prime without being listed, 2 when undecided.
   */
  ghost function SmallPrimeClass(n: int): int {
    if n in PRIME_LIST then 0
    else if exists p :: p in PRIME_LIST && Divides(p, n) then 1
    else 2
  }

  /** The small-prime filter: two searches over PRIME_LIST with early returns. */
  method CheckSmallPrimes(n: int) returns (r: int)
    ensures r == SmallPrimeClass(n)
    ensures r == 0 <==> n in PRIME_LIST
    ensures r == 1 <==> n !in PRIME_LIST && exists p :: p in PRIME_LIST && Divides(p, n)
    ensures r == 2 <==> n !in PRIME_LIST && forall p :: p in PRIME_LIST ==> !Divides(p, n)
  {
    for i := 0 to |PRIME_LIST|
      invariant forall j :: 0 <= j < i ==> PRIME_LIST[j] != n
    {
      if n == PRIME_LIST[i] {
        return 0;
      }
    }
    for i := 0 to |PRIME_LIST|
      invariant forall j :: 0 <= j < i ==> !Divides(PRIME_LIST[j], n)
    {
      var p := PRIME_LIST[i];
      var divisible := DivisibilityTest(n, p);
      assert divisible.Success?;
      if divisible.value {
        if n != p {
          return 1;
        }
      }
    }
    return 2;
  }

  // ---------------------------------------------------------------------------
  // Modular exponentiation
  // ---------------------------------------------------------------------------

  /** a^b mod n, as BigInteger.modPow computes it for b >= 0 and n > 0. */
  function ModExp(a: int, b: nat, n: int): (r: int)
    requires n > 0
    ensures 0 <= r < n
  {
    Pow(a, b) % n
  }

  /** Squaring a^e mod n modulo n gives a^(2e) mod n. */
  lemma ModExpSquare(a: int, e: nat, n: int)
    requires n > 0
    ensures ModExp(ModExp(a, e, n), 2, n) == ModExp(a, 2 * e, n)
  {
    var x := Pow(a, e);
    PowSquare(a, e);
    assert Pow(x % n, 2) == (x % n) * (x % n);
    ModMul(x, x, n);
  }

  // ---------------------------------------------------------------------------
  // Decomposition of n - 1
  // ---------------------------------------------------------------------------

  /** The split of a non-zero m into 2^s * d with d odd, by halving while even. */
  ghost function Decomposition(m: int): (r: (nat, int))
    requires m != 0
    ensures m == Pow2(r.0) * r.1 && r.1 % 2 == 1
    ensures m > 0 ==> r.1 > 0
    decreases if m < 0 then -m else m
  {
    if m % 2 != 0 then (0, m)
    else
      var (s, d) := Decomposition(m / 2);
      Pow2Double(s, d);
      (s + 1, d)
  }

  /** The split is unique: any 2^s * d with d odd is the one Decomposition finds. */
  lemma {:induction false} DecompositionUnique(m: int, s: nat, d: int)
    requires m == Pow2(s) * d && d % 2 == 1
    ensures m != 0 && Decomposition(m) == (s, d)
    decreases s
  {
    if s == 0 {
      assert m == d;
    } else {
      Pow2Double(s - 1, d);
      DecompositionUnique(Pow2(s - 1) * d, s - 1, d);
      assert m % 2 == 0 && m / 2 == Pow2(s - 1) * d;
    }
  }

  /** decompose: halve n - 1 while it is even, counting the halvings. */
  method Decompose(n: int) returns (s: nat, d: int)
    requires n != 1
    ensures n - 1 == Pow2(s) * d && d % 2 == 1
    ensures (s, d) == Decomposition(n - 1)
    ensures n >= 2 ==> d >= 1
    ensures n >= 3 && n % 2 == 1 ==> s >= 1
  {
    var nMinusOne := n - 1;
    s, d := 0, nMinusOne;
    while d % 2 == 0
      invariant nMinusOne == Pow2(s) * d
      invariant d != 0 && (n >= 2 ==> d >= 1)
      decreases if d < 0 then -d else d
    {
      Pow2Halve(s, d);
      s := s + 1;
      d := d / 2;
    }
    DecompositionUnique(nMinusOne, s, d);
  }

  // ---------------------------------------------------------------------------
  // Witness sampling
  // ---------------------------------------------------------------------------

  /** BigInteger.bitLength: the bits of the shortest two's-complement form, sign excluded. */
  function BitLength(x: int): (r: nat)
    decreases if x < 0 then 1 - x else x
  {
    if x < 0 then BitLength(-x - 1)
    else if x == 0 then 0
    else 1 + BitLength(x / 2)
  }

  lemma {:induction false} BitLengthBounds(x: int)
    requires x >= 1
    ensures BitLength(x) >= 1
    ensures Pow2(BitLength(x) - 1) <= x < Pow2(BitLength(x))
    decreases x
  {
    if x > 1 {
      BitLengthBounds(x / 2);
    }
  }

  /**
    The width urandomNumber draws with covers the whole range [0, range), and
    at least half of the values it can draw are accepted.
   */
  lemma RejectionWidth(range: int)
    requires range >= 1
    ensures range < Pow2(BitLength(range)) <= 2 * range
  {
    BitLengthBounds(range);
  }

  /** A larger non-negative number never has a shorter bit length. */
  lemma {:induction false} BitLengthMonotone(v: int, w: int)
    requires 0 <= v <= w
    ensures BitLength(v) <= BitLength(w)
    decreases w
  {
    if v > 0 {
      BitLengthMonotone(v / 2, w / 2);
    }
  }

  /**
    Every value urandomNumber can accept, v in [0, range), fits in the
    range.bitLength() bits of one draw.
   */
  lemma AcceptedValuesDrawable(range: int, v: int)
    requires range >= 1 && 0 <= v < range
    ensures BitLength(v) <= BitLength(range) && v < Pow2(BitLength(range))
  {
    BitLengthMonotone(v, range);
    RejectionWidth(range);
  }

  /**
    What urandomNumber returns on the stream of draws: the first draw below
    max - min + 1, offset by min, and the stream after it; None when no draw
    is accepted.
   */
  ghost function Sample(min: int, max: int, draws: seq<nat>): Option<(int, seq<nat>)>
    decreases |draws|
  {
    if draws == [] then None
    else if draws[0] < max - min + 1 then Some((draws[0] + min, draws[1..]))
    else Sample(min, max, draws[1..])
  }

  lemma {:induction false} SampleInRange(min: int, max: int, draws: seq<nat>)
    requires Sample(min, max, draws).Some?
    ensures var (v, rest) := Sample(min, max, draws).value;
      min <= v <= max && |rest| < |draws| && rest == draws[|draws| - |rest|..]
    decreases |draws|
  {
    if draws[0] >= max - min + 1 {
      SampleInRange(min, max, draws[1..]);
    }
  }

  /** An empty range accepts nothing: the rejection loop would never end. */
  lemma {:induction false} SampleEmptyRange(min: int, max: int, draws: seq<nat>)
    requires min > max
    ensures Sample(min, max, draws) == None
    decreases |draws|
  {
    if draws != [] {
      SampleEmptyRange(min, max, draws[1..]);
    }
  }

  /** urandomNumber: redraw until a draw falls in [0, range), then add min. */
  method URandomNumber(min: int, max: int, draws: seq<nat>) returns (r: Option<int>, rest: seq<nat>)
    ensures r.Some? ==> min <= r.value <= max
    ensures r.None? <==> forall i :: 0 <= i < |draws| ==> draws[i] > max - min
    ensures r.Some? ==>
      exists i :: 0 <= i < |draws| && draws[i] == r.value - min && rest == draws[i + 1..]
        && forall j :: 0 <= j < i ==> draws[j] > max - min
    ensures Sample(min, max, draws) == if r.Some? then Some((r.value, rest)) else None
  {
    var range := max - min + 1;
    var i := 0;
    while i < |draws| && draws[i] >= range
      invariant 0 <= i <= |draws|
      invariant forall j :: 0 <= j < i ==> draws[j] >= range
      invariant Sample(min, max, draws) == Sample(min, max, draws[i..])
    {
      assert draws[i..][1..] == draws[i + 1..];
      i := i + 1;
    }
    if i == |draws| {
      r, rest := None, [];
    } else {
      assert draws[i..][1..] == draws[i + 1..];
      r, rest := Some(draws[i] + min), draws[i + 1..];
    }
  }

  // ---------------------------------------------------------------------------
  // One round of the strong probable-prime test
  // ---------------------------------------------------------------------------

  /** The k-th value of a round's squaring chain: a^(2^k * d) mod n. */
  function Chain(n: int, d: nat, a: int, k: nat): (r: int)
    requires n > 0
  {
    ModExp(a, Pow2(k) * d, n)
  }

  /**
    n is a strong probable prime to base a, for n - 1 == 2^s * d: a^d is 1 or
    n - 1 modulo n, or a^(2^r * d) is n - 1 for some r with 1 <= r < s.
   */
  ghost predicate StrongProbablePrime(n: int, s: nat, d: nat, a: int)
    requires n > 0
  {
    || ModExp(a, d, n) == 1
    || ModExp(a, d, n) == n - 1
    || exists r :: 1 <= r < s && Chain(n, d, a, r) == n - 1
  }

  /** Squaring one value of the chain gives the next. */
  lemma ChainStep(n: int, d: nat, a: int, k: nat)
    requires n > 0
    ensures ModExp(Chain(n, d, a, k), 2, n) == Chain(n, d, a, k + 1)
  {
    ModExpSquare(a, Pow2(k) * d, n);
    Pow2Double(k, d);
  }

  /** Once the chain reaches 1 it stays at 1. */
  lemma {:induction false} ChainStaysOne(n: int, d: nat, a: int, k: nat, m: nat)
    requires n >= 2 && k <= m && Chain(n, d, a, k) == 1
    ensures Chain(n, d, a, m) == 1
    decreases m - k
  {
    if k < m {
      assert Chain(n, d, a, k + 1) == 1 by {
        ChainStep(n, d, a, k);
        ModUnique(1, 0, 1, n);
        assert ModExp(1, 2, n) == 1 % n;
      }
      ChainStaysOne(n, d, a, k + 1, m);
    }
  }

  /**
    One round for witness a: x = a^d mod n passes at once when it is 1 or
    n - 1; otherwise x is squared up to s - 1 times, failing on 1 and passing
    on n - 1. Failing on 1 early never changes the round's outcome. The ghost
    counter squarings counts the squarings, which never exceed s - 1.
   */
  method MillerRabinRound(n: int, s: nat, d: nat, a: int) returns (pass: bool, ghost squarings: nat)
    requires n >= 3
    ensures pass <==> StrongProbablePrime(n, s, d, a)
    ensures squarings <= if s >= 1 then s - 1 else 0
  {
    squarings := 0;
    var x := ModExp(a, d, n);
    assert x == Chain(n, d, a, 0);
    if x == 1 || x == n - 1 {
      return true, squarings;
    }
    var composite := true;
    var r := 1;
    while r < s
      invariant 1 <= r && (r <= s || r == 1)
      invariant squarings == r - 1
      invariant x == Chain(n, d, a, r - 1)
      invariant Chain(n, d, a, 0) != 1
      invariant forall j :: 0 <= j < r ==> Chain(n, d, a, j) != n - 1
      invariant composite
      decreases s - r
    {
      ChainStep(n, d, a, r - 1);
      x := ModExp(x, 2, n);
      squarings := squarings + 1;
      if x == 1 {
        forall j | r <= j < s
          ensures Chain(n, d, a, j) != n - 1
        {
          ChainStaysOne(n, d, a, r, j);
        }
        return false, squarings;
      }
      if x == n - 1 {
        composite := false;
        break;
      }
      r := r + 1;
    }
    pass := !composite;
  }

  // ---------------------------------------------------------------------------
  // The whole test
  // ---------------------------------------------------------------------------

  /**
    The answer of the remaining rounds: each round samples a witness in
    [2, n - 2] from the stream and stops with 1 on a witness that fails.
   */
  ghost function RoundsOutcome(n: int, s: nat, d: nat, rounds: int, rng: seq<nat>): Option<int>
    requires n >= 3
    decreases rounds
  {
    if rounds <= 0 then Some(0)
    else
      match Sample(2, n - 2, rng)
      case None => None
      case Some((a, rest)) =>
        if StrongProbablePrime(n, s, d, a) then RoundsOutcome(n, s, d, rounds - 1, rest)
        else Some(1)
  }

  /** The answer of millerRabinTest(n, k) on the random stream rng. */
  ghost function Outcome(n: int, k: int, rng: seq<nat>): Option<int> {
    if n < 2 then Some(1)
    else if n == 2 then Some(0)
    else if n % 2 == 0 then Some(1)
    else if SmallPrimeClass(n) == 0 then Some(0)
    else if SmallPrimeClass(n) == 1 then Some(1)
    else
      var (s, d) := Decomposition(n - 1);
      RoundsOutcome(n, s, d, k, rng)
  }

  /** millerRabinTest: the trivial cases, the small-prime filter, then k rounds. */
  method MillerRabinTest(n: int, k: int, rng: seq<nat>) returns (result: Option<int>)
    ensures result == Outcome(n, k, rng)
    ensures n < 2 ==> result == Some(1)
    ensures n == 2 ==> result == Some(0)
    ensures n > 2 && n % 2 == 0 ==> result == Some(1)
    ensures n % 2 == 1 && n in PRIME_LIST ==> result == Some(0)
    ensures n % 2 == 1 && n !in PRIME_LIST && (exists p :: p in PRIME_LIST && Divides(p, n))
      ==> result == Some(1)
  {
    if n < 2 {
      return Some(1);
    }
    if n == 2 {
      return Some(0);
    }
    if n % 2 == 0 {
      return Some(1);
    }
    var smallPrimeResult := CheckSmallPrimes(n);
    if smallPrimeResult == 0 {
      return Some(0);
    } else if smallPrimeResult == 1 {
      return Some(1);
    }
    var s, d := Decompose(n);
    var stream := rng;
    var i := 0;
    while i < k
      invariant 0 <= i && (k >= 0 ==> i <= k)
      invariant RoundsOutcome(n, s, d, k, rng) == RoundsOutcome(n, s, d, k - i, stream)
      decreases k - i
    {
      var a;
      a, stream := URandomNumber(2, n - 2, stream);
      if a.None? {
        return None;
      }
      var pass, _ := MillerRabinRound(n, s, d, a.value);
      if !pass {
        return Some(1);
      }
      i := i + 1;
    }
    return Some(0);
  }
}
