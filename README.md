# Miller-Rabin primality test in Dafny

This project models the Miller-Rabin probabilistic primality test of
`Java/MillerRabin.java` and proves properties of it. The test takes an
arbitrary-precision candidate `n` and a round count `k`. It answers `0`
("probably prime") or `1` ("definitely composite"). The steps are:

- the trivial cases: `n < 2`, `n == 2`, even `n`;
- a fast path over the fixed list of small primes `PRIME_LIST = [2, 3, 5, 7, 11, 13]`;
- the split of `n - 1` into `2^s * d` with `d` odd;
- `k` rounds of the strong probable-prime test. Each round uses a random
  witness `a` in `[2, n - 2]`, drawn by rejection sampling.

Integers are Dafny's unbounded `int`, like Java's `BigInteger`. The source
uses `%` only with a positive modulus. There Dafny's Euclidean `%` agrees
with `BigInteger.mod`.

Modules:

- `Wrappers` (`wrappers.dfy`): `Option` and `Result`.
- `Arithmetic` (`arithmetic.dfy`): `Pow`, `Pow2`, `Divides`, and the modular
  identities the proofs need.
- `NumberTheory` (`number_theory.dfy`): primality, Euclid's lemma, the binomial
  theorem, Fermat's little theorem, and the square roots of 1 modulo a prime.
- `MillerRabin` (`miller_rabin.dfy`): every operation of the Java class except `main`.
  Pure code is written as functions. Loops are written as methods whose
  contracts tie them to specification functions (`SmallPrimeClass`,
  `Decomposition`, `Sample`, `StrongProbablePrime`, `Outcome`).
- `MillerRabinProperties` (`miller_rabin_properties.dfy`): what the answers mean.
  The main result is that an answer of `1` is always right: no prime is ever
  reported composite (`CompositeVerdictIsDefinite`).

Randomness. `SecureRandom` is replaced by a finite stream `rng: seq<nat>` of
its draws. Each entry is the value of one `new BigInteger(range.bitLength(), random)`
call. `URandomNumber` consumes draws until one is accepted and returns the
rest of the stream. The whole test returns `Option<int>`. `None` means the
stream ran out before the test finished, where the program would keep
drawing. This is also how the model shows the rejection loop never ending
when `min > max` (`SampleEmptyRange`).

Behaviour of the code that the model keeps as written:

- `decompose` terminates for every `n` other than 1, including `n <= 0`,
  where `n - 1` is negative. `Decompose` requires `n != 1`, the one input
  whose loop never ends.
- `divisibilityTest` throws for a zero divisor, and `BigInteger.mod` also
  throws for a negative divisor. The model returns `Failure(ZeroDivisor)` or
  `Failure(NonPositiveModulus)`.
- For `k <= 0` no round runs, and any `n` that passes the fast path is
  answered `0` (`NoRoundsAnswersZero`). The command-line entry point does
  not check `k`.
- 3 is answered by the small-prime filter. The rounds run only for
  `n >= 17`, so `[2, n - 2]` is never empty (`RoundsNeedAtLeast17`).

## Model

| member | source | states |
|---|---|---|
| `MillerRabin.DivisibilityTest` | Java/MillerRabin.java:25-30 | A zero divisor fails with `ZeroDivisor`. A negative divisor fails with `NonPositiveModulus` (the exception `BigInteger.mod` throws). A positive divisor gives `true` exactly when it divides the dividend, in the sense that some integer multiple of it equals the dividend. |
| `MillerRabin.CheckSmallPrimes` | Java/MillerRabin.java:12-54 | Returns 0 exactly when `n` is one of 2, 3, 5, 7, 11, 13. Returns 1 exactly when `n` is not listed but some listed prime divides it. Returns 2 exactly when no listed prime divides `n`. So the result is always in {0, 1, 2}, and a listed prime never gets 1. |
| `MillerRabinProperties.SmallPrimeFilterSound` | Java/MillerRabin.java:37-54 | A filter answer of 0 means `n` is prime. An answer of 1 means `n` is not prime. |
| `MillerRabin.ModExp` | Java/MillerRabin.java:63-65 | `a^b mod n` for `b >= 0` and `n > 0` lies in `[0, n)`. |
| `MillerRabin.ModExpSquare` | Java/MillerRabin.java:151 | Squaring `a^e mod n` modulo `n` gives `a^(2e) mod n`. This is why the repeated squaring in a round computes `a^(2^r * d) mod n`. |
| `MillerRabin.Decomposition` | Java/MillerRabin.java:72-84 | For non-zero `m`, the split `(s, d)` satisfies `m == 2^s * d` with `d` odd. `d` is positive when `m` is. |
| `MillerRabin.DecompositionUnique` | Java/MillerRabin.java:72-84 | Any `(s, d)` with `m == 2^s * d` and `d` odd is exactly the split `decompose` finds. |
| `MillerRabin.Decompose` | Java/MillerRabin.java:72-84 | For `n != 1` (for `n == 1` the loop never ends), returns `s >= 0` and odd `d` with `n - 1 == 2^s * d`. `d >= 1` when `n >= 2`, and `s >= 1` for odd `n >= 3`. |
| `MillerRabin.BitLengthBounds` | Java/MillerRabin.java:98 | For `x >= 1`, `bitLength(x)` is at least 1 and `2^(bitLength(x)-1) <= x < 2^bitLength(x)`. |
| `MillerRabin.AcceptedValuesDrawable` | Java/MillerRabin.java:93-99 | Every value `v` in `[0, range)` that the loop accepts has `bitLength(v) <= bitLength(range)` and is below `2^bitLength(range)`, so one draw of `range.bitLength()` bits can produce it. |
| `MillerRabin.RejectionWidth` | Java/MillerRabin.java:93-99 | A draw of `range.bitLength()` bits can hit every value in `[0, range)`. At most `2 * range` values are possible, so at least half of all draws are accepted. |
| `MillerRabin.SampleInRange` | Java/MillerRabin.java:92-102 | An accepted sample lies in `[min, max]`. What remains of the random stream is a strictly shorter suffix of it. |
| `MillerRabin.SampleEmptyRange` | Java/MillerRabin.java:93-99 | When `min > max`, no draw is ever accepted: the rejection loop does not end. |
| `MillerRabin.URandomNumber` | Java/MillerRabin.java:92-102 | A returned value lies in `[min, max]`. It is the first draw below `max - min + 1`, plus `min`. Every earlier draw was rejected, and the rest of the stream follows the accepted draw. The result is absent exactly when every draw is rejected. |
| `MillerRabin.ChainStep` | Java/MillerRabin.java:150-151 | Squaring the `r`-th value `a^(2^r * d) mod n` of a round modulo `n` gives the `(r+1)`-th value. |
| `MillerRabin.ChainStaysOne` | Java/MillerRabin.java:150-155 | Once a round's squaring chain reaches 1, it stays at 1. So the early return on 1 never skips a later `n - 1`. |
| `MillerRabin.MillerRabinRound` | Java/MillerRabin.java:140-165 | A round passes exactly when `a^d mod n` is 1 or `n - 1`, or some `a^(2^r * d) mod n` with `1 <= r <= s - 1` equals `n - 1`. A ghost counter of the squarings ends at most at `s - 1` (0 when `s == 0`). |
| `MillerRabin.MillerRabinTest` | Java/MillerRabin.java:110-169 | The answer is the `Outcome` of the trivial cases, the filter and `k` rounds on the random stream. The fixed answers are: `n < 2` gives 1; `n == 2` gives 0; even `n > 2` gives 1; an odd listed prime gives 0; an odd proper multiple of a listed prime gives 1. |
| `MillerRabinProperties.RoundsOutcomeBinary` | Java/MillerRabin.java:136-168 | The rounds answer only 0 or 1 (or run out of random draws). |
| `MillerRabinProperties.OutcomeBinary` | Java/MillerRabin.java:108-168 | `millerRabinTest` answers only 0 or 1 (or runs out of random draws). |
| `MillerRabinProperties.FastPathIgnoresRounds` | Java/MillerRabin.java:112-128 | When the trivial cases or the filter decide, the answer is the same for every `k` and every random stream, and it is always given. |
| `MillerRabinProperties.RoundsNeedAtLeast17` | Java/MillerRabin.java:118-138 | An odd `n >= 3` that the filter leaves undecided is at least 17. So the witness range `[2, n - 2]` is not empty. |
| `MillerRabinProperties.NoRoundsAnswersZero` | Java/MillerRabin.java:136-168 | With `k <= 0`, any `n` that passes the fast path is answered 0. |
| `MillerRabinProperties.MoreRoundsKeepFailure` | Java/MillerRabin.java:136-166 | On the same random stream, if some number of rounds ends with 1, any larger number of rounds ends with 1. |
| `MillerRabinProperties.MoreRoundsKeepComposite` | Java/MillerRabin.java:110-169 | On the same random stream, a larger `k` never turns an answer of 1 into 0. |
| `MillerRabinProperties.RoundsFailureHasWitness` | Java/MillerRabin.java:136-166 | An answer of 1 from the rounds comes from a witness in `[2, n - 2]` that fails the strong probable-prime test. |
| `MillerRabinProperties.ChainMeetsMinusOne` | Java/MillerRabin.java:147-161 | Modulo a prime, a squaring chain that reaches 1 without starting at 1 goes through `n - 1` first. |
| `MillerRabinProperties.PrimeIsStrongProbablePrime` | Java/MillerRabin.java:140-165 | For a prime `n >= 3` with `n - 1 == 2^s * d`, every base in `[1, n - 1]` passes the round. |
| `MillerRabinProperties.CompositeVerdictIsDefinite` | Java/MillerRabin.java:104-169 | An answer of 1 means `n` is not prime. This holds for the trivial cases, for the filter, and for the rounds. |
| `MillerRabinProperties.FilterCatchesSmallFactors` | Java/MillerRabin.java:122-128 | The Carmichael number 561 and the number 15 are both answered 1 by the small-prime filter, whatever `k` is. |

## Left out

- `main` (Java/MillerRabin.java:175-192) is not modelled. It only parses the
  arguments and maps answers and exceptions to exit codes.
- Java/MillerRabinTester.java is not part of this model. It starts a child
  process and prints messages.
- `SecureRandom` is not modelled, and neither is the uniform distribution of
  `urandomNumber`. Draws are a parameter stream. The model does not require
  each draw to fit in `range.bitLength()` bits, because no property depends
  on it. A distribution cannot be stated as a verified contract. So the
  bit-length lemmas (`BitLengthBounds`, `RejectionWidth`,
  `AcceptedValuesDrawable`) are about `range.bitLength()` itself and are not
  connected to the stream.
- The probability bound on wrong "probably prime" answers is not modelled.
  Only the certainty of "composite" answers is proved.
- `MillerRabin.ModExp`: the square-and-multiply inside `BigInteger.modPow`
  is not modelled. The function is `a^b mod n` and requires `n > 0` and
  `b >= 0`. Negative exponents, which `modPow` computes through the modular
  inverse, are not modelled. `millerRabinTest` only passes the exponents
  `d >= 1` and 2, and the modulus `n >= 17`.
- `MillerRabin.MillerRabinRound`: the Java code writes the round inline in
  `millerRabinTest`. Its early `return 1` on a square equal to 1 is modelled
  as the round failing, which `MillerRabinTest` turns into the answer 1.
  The method requires `n >= 3`, so that `n - 1` differs from 1. Rounds run
  only for `n >= 17`.
- `MillerRabin.MillerRabinTest`: the round count is a Java `int`. The model
  uses an unbounded `int`. The loop counter stays below `k`, so it never
  wraps around.
- Exceptions on the path of `millerRabinTest` are not modelled. None can
  happen there: the filter divides only by listed primes, and `modPow` gets
  `n >= 17`.
