# Schmidt-Samoa cryptosystem in Dafny

A Dafny model of the Schmidt-Samoa public-key cryptosystem, which the repository implements twice: once in C over GMP and once in Python. The model covers two layers.

- **The number-theory kernel.** This is `gcd`, `lcm`, `mod_inverse`, `pow_mod`, the Miller-Rabin test `is_prime` and the prime generator `make_prime`. It comes from `c-src/numtheory.c` and `numtheory.py`.
- **The scheme.** This is key generation (`ssc_key_gen` / `key_gen`), `c = m^N mod N` (`ssc_encrypt` / `encrypt`) and `m = c^d mod pq` (`ssc_decrypt` / `decrypt`). It comes from `c-src/ssc.c` and `py-src/schmidt-samoa.py`.

Modules:

- `Arith`: divisibility, Euclidean division and powers, the vocabulary of every contract.
- `Random`: the random stream. Both programs read one process-wide generator: a GMP Mersenne-Twister state in C, Python's `random` module in Python. The model replaces it by an explicit tape `seq<nat>` of raw draws.
  - A draw "uniform in `[0, m)`" is the next entry modulo `m`, so every value the real generator can give is reachable.
  - An operation that runs out of tape before it is decided yields `None`.
  - Results carry the unread rest of the tape (`Drawn`).
- `NumTheory`: the kernel as pure functions. Each `while` loop of `numtheory.py` becomes a tail-recursive function over the loop's variables. The two programs differ only in how a draw becomes a Miller-Rabin witness or a prime candidate, and the parameter `Impl = C | Py` selects which.
  - The file also states the strong-probable-prime condition in closed form (`MrTerm`, `MrPasses`, `StrongProbablePrime`), as the round decides it. For odd `n` this is the textbook condition. For even `n` (`s = 0`) the code also accepts `a^r = n - 1`.
  - Proofs show that a round of `is_prime` accepts exactly when that condition holds.
- `Primes`: what the correctness of the scheme rests on.
  - Euclid's lemma, Fermat's little theorem (via the binomial theorem), the two-prime Chinese remainder step, and the fact that 1 has only the square roots 1 and `p - 1` modulo a prime.
  - From these: `is_prime` never rejects a prime.
- `SchmidtSamoa`: keys, the redraw guard, key derivation, encryption and decryption.
  - Primes that pass the guard give a public key coprime to `lambda = lcm(p - 1, q - 1)`. So `d` is a true inverse and never `mod_inverse`'s sentinel 0.
  - Decryption inverts encryption for every `0 <= m < pq`.
  - Key generation is a function of the tape for both programs.
- `NumTheoryC`, `SscC`: the C functions as imperative methods, loop by loop (`mpz_t` locals become local variables). Each method is proved to compute what the functional model computes for `Impl.C`.

## Model

| member | source | states |
|---|---|---|
| NumTheory.Even | numtheory.py:7 | `even(n)` holds exactly when 2 divides `n` |
| NumTheory.Odd | numtheory.py:4 | `odd(n)` is the complement of `even(n)` for every integer |
| NumTheory.Gcd | numtheory.py:10-16 | the result divides both arguments, and `gcd(a, 0) = a` |
| NumTheory.GcdIsGcd | numtheory.py:10-16 | every common divisor of `a` and `b` divides `gcd(a, b)`: it is the greatest common divisor |
| NumTheory.GcdComm | numtheory.py:10-16 | `gcd(a, b) = gcd(b, a)` |
| NumTheory.ExtEuclidStep | numtheory.py:33-36 | one pass of the extended Euclidean loop keeps its invariant: `gcd(r, r') = gcd(n, a)`, `r = t a` and `r' = t' a` modulo `n`, the coefficients alternate in sign and are bounded by the remainders; the new `r'` is below the old |
| NumTheory.ExtEuclid | numtheory.py:33-36 | the loop ends with `r = gcd(n, a)` and `t a = r` modulo `n`, with `abs(t) < n` when `r = 1` |
| NumTheory.Bezout | numtheory.py:30-36 | some multiple of `a` is congruent to `gcd(n, a)` modulo `n` |
| NumTheory.FixUp | numtheory.py:38-42 | the fix-ups give the sentinel 0 when `r > 1`, and otherwise keep `t` modulo `n`, making it non-negative when `t >= -n`; with `FixUpCorrect` the loop's final state becomes the inverse in `[0, n)` for coprime inputs and 0 otherwise |
| NumTheory.FixUpCorrect | numtheory.py:38-44 | applied to the state the loop ends in, the fix-ups give the inverse in `[0, n)` when `gcd(a, n) = 1` and `n > 1`, and 0 when `gcd(a, n) != 1` |
| NumTheory.ModInverse | numtheory.py:26-44 | for `n > 1` and `gcd(a, n) = 1` the result `i` lies in `[0, n)` with `a i mod n = 1`; when `gcd(a, n) != 1` it is the sentinel 0 |
| NumTheory.ModInverseSentinel | numtheory.py:38-44 | for `n > 1`, `mod_inverse` returns 0 exactly when no inverse of `a` modulo `n` exists |
| NumTheory.InverseNeedsCoprime | numtheory.py:26-44 | an inverse modulo `n > 1` exists only for `a` coprime to `n` |
| NumTheory.Lcm | numtheory.py:19-23 | the floor division is exact: `lcm(a, b) * gcd(a, b) = a b`, and both `a` and `b` divide the result |
| NumTheory.LcmLeast | numtheory.py:19-23 | every common multiple of `a` and `b` is a multiple of `lcm(a, b)` |
| NumTheory.LcmComm | numtheory.py:19-23 | `lcm(a, b) = lcm(b, a)` |
| NumTheory.PowModStep | numtheory.py:53-58 | one pass of square-and-multiply keeps `v * p^d` modulo `n` |
| NumTheory.PowModLoop | numtheory.py:53-60 | the loop returns `v * p^d mod n` in `[0, n)` for `d > 0`, and `v` untouched otherwise |
| NumTheory.PowMod | numtheory.py:47-60 | `pow_mod(a, d, n) = a^d mod n` in `[0, n)` for `d > 0`; exactly 1 for `d <= 0` |
| NumTheory.DecomposeLoop | numtheory.py:74-77 | halving while even keeps `2^s * r` and ends with `r` odd |
| NumTheory.Decompose | numtheory.py:74-77 | `n - 1 = 2^s * r` with `r` odd |
| NumTheory.Witness | c-src/numtheory.c:112-113 | a drawn witness lies in `[2, n - 2]`, and in `[3, n - 2]` for Python |
| NumTheory.WitnessRange | numtheory.py:80 | every witness of the range is drawable: `[2, n - 2]` for C (`mpz_urandomm(n - 3) + 2`), `[3, n - 2]` for Python (`2 + randint(1, n - 4)`) |
| NumTheory.Rounds | numtheory.py:79-97 | an accepting run of the `k` rounds reads exactly `k` draws; with at least `k` draws on the tape the rounds are decided |
| NumTheory.Chain | numtheory.py:84-92 | a chain value of `n - 1` accepts, and once `j > s - 1` the loop accepts exactly when its value is `n - 1`; `ChainSpec` gives the closed form |
| NumTheory.Round | numtheory.py:80-95 | a round passes when `a^r mod n` is 1 or `n - 1`, and for `s = 0` only then; `RoundSpec` gives the closed form |
| NumTheory.RoundsSpec | numtheory.py:79-97 | the rounds accept exactly when the first `k` drawn witnesses all pass a round, and run out of tape exactly when fewer than `k` draws remain and all of them pass |
| NumTheory.RoundsRunOut | numtheory.py:79-97 | the rounds run out of draws exactly when fewer than `k` remain and every drawn witness passes |
| NumTheory.RoundsAccept | numtheory.py:79-97 | the rounds accept exactly when `k` draws exist and the first `k` witnesses all pass |
| NumTheory.IsPrime | numtheory.py:63-97 | `n <= 1` or `n = 4` is rejected and `n` in `{2, 3}` accepted without a draw; an accepted `n` is at least 2; with `k` draws available the test is decided |
| NumTheory.ChainSpec | numtheory.py:84-95 | the inner squaring loop, entered at step `j` with a value other than 1, accepts exactly when some term `a^(2^i r) mod n` with `j - 1 <= i < s` is `n - 1` |
| NumTheory.RoundSpec | numtheory.py:81-95 | a round with witness `a` passes exactly when `a^r` is 1 or `n - 1` modulo `n`, or some `a^(2^i r)` with `i < s` is `n - 1` |
| NumTheory.IsPrimeSpec | numtheory.py:63-97 | for `n >= 5`, `is_prime` accepts exactly when `k` draws are available and every drawn witness finds `n` a strong probable prime |
| NumTheory.Candidate | c-src/numtheory.c:147-155 | a C candidate lies in `[2^(bits-1), 2^bits)`; a Python candidate (`getrandbits`) in `[0, 2^bits)` |
| NumTheory.MakePrime | numtheory.py:100-110 | a returned prime is at least 2 and at least one draw was read |
| NumTheory.MakePrimeSpec | c-src/numtheory.c:143-160 | a returned C prime is odd with exactly `bits` bits, a Python prime is below `2^bits`; `is_prime` accepted it on a stretch of the tape; for `bits <= 1` no prime is ever found |
| Primes.PrimeIsStrongProbablePrime | numtheory.py:79-95 | a prime `n >= 5` is a strong probable prime to every base in `[2, n - 2]` |
| Primes.PrimeNeverRejected | numtheory.py:63-97 | `is_prime` never rejects a prime: it accepts or runs out of draws, and with `k` draws it accepts |
| SchmidtSamoa.Lambda | py-src/schmidt-samoa.py:31 | `lambda = lcm(p - 1, q - 1)` is positive and a multiple of both `p - 1` and `q - 1` |
| SchmidtSamoa.DeriveKeys | py-src/schmidt-samoa.py:29-34 | `n = p q`, `N = p n = p^2 q`, and `0 <= d < lambda` |
| SchmidtSamoa.KeyGuard | py-src/schmidt-samoa.py:26 | the redraw loop's exit condition holds exactly when `p != q`, `q` does not divide `p - 1` and `p` does not divide `q - 1` |
| SchmidtSamoa.GuardedPrimesOdd | py-src/schmidt-samoa.py:26 | two primes passing the guard are both at least 3: a pair containing 2 always fails it |
| SchmidtSamoa.PrimeCoprimeToLambda | py-src/schmidt-samoa.py:26-31 | a prime `r` that does not divide `s - 1` is coprime to `lcm(r - 1, s - 1)` |
| SchmidtSamoa.PublicKeyCoprime | py-src/schmidt-samoa.py:26-32 | for guarded primes, `gcd(N, lambda) = 1` |
| SchmidtSamoa.KeysAreSound | py-src/schmidt-samoa.py:13-32 | for guarded primes, `lambda >= 2`, `gcd(N, lambda) = 1`, and `d` is a true inverse of `N` modulo `lambda` with `0 < d < lambda`, never the sentinel |
| SchmidtSamoa.Encrypt | py-src/schmidt-samoa.py:37-44 | the ciphertext is `c = m^N mod N`, in `[0, N)` |
| SchmidtSamoa.Decrypt | py-src/schmidt-samoa.py:47-54 | for `d > 0` the plaintext is `m = c^d mod n`, in `[0, n)`; a non-positive exponent yields the loop's initial 1 |
| SchmidtSamoa.DecryptInvertsEncrypt | py-src/schmidt-samoa.py:37-54 | for guarded primes `p`, `q` and `0 <= m < pq`, decrypting the encryption of `m` gives back `m` |
| SchmidtSamoa.MadeByGenerated | py-src/schmidt-samoa.py:23-27 | every prime the generator can hand to key generation has the shape its implementation generates |
| SchmidtSamoa.RedrawQ | py-src/schmidt-samoa.py:26-27 | the redraw loop ends only with a `q` passing the guard; a first `q` that passes is kept without a draw |
| SchmidtSamoa.RedrawQDraws | py-src/schmidt-samoa.py:26-27 | only `q` is redrawn: the final `q` is the first one or a `make_prime` output from the tape |
| SchmidtSamoa.KeyGen | py-src/schmidt-samoa.py:13-34 | the keys are `DeriveKeys(p, q)` for two `make_prime(bits / 2, k)` outputs passing the guard; below 4 bits no key is produced |
| SchmidtSamoa.KeyGenRoundTrip | py-src/schmidt-samoa.py:13-54 | if every number the generator can return from this tape is prime, the generated keys decrypt every `0 <= m < n` back to `m` |
| NumTheoryC.Gcd | c-src/numtheory.c:5-19 | the result is the greatest common divisor of `a` and `b` (every common divisor divides it) and equals the functional `gcd` |
| NumTheoryC.Lcm | c-src/numtheory.c:21-30 | `mpz_fdiv_q(a b, gcd(a, b))` is a common multiple and equals the functional `lcm` |
| NumTheoryC.ExtEuclidPass | c-src/numtheory.c:41-51 | one pass of the C loop keeps the extended Euclidean invariant and the loop's final result, and lowers `r'` |
| NumTheoryC.ModInverse | c-src/numtheory.c:32-64 | the inverse in `[0, n)` for coprime inputs, 0 otherwise; equal to the functional `mod_inverse` |
| NumTheoryC.ExtEuclidDone | c-src/numtheory.c:54-62 | the two fix-ups after the loop (`t = 0` when `r > 1`, `t + n` when `t < 0`) turn the loop's final state into the functional `mod_inverse` |
| NumTheoryC.PowMod | c-src/numtheory.c:66-86 | `a^d mod n` in `[0, n)` for `d > 0`, 1 otherwise; equal to the functional `pow_mod` |
| NumTheoryC.Decompose | c-src/numtheory.c:100-106 | the `while (mpz_even_p(r))` loop yields the functional decomposition |
| NumTheoryC.Round | c-src/numtheory.c:115-136 | one round, with its inner `j <= s - 1` loop and early exits, equals the functional round |
| NumTheoryC.RoundsStep | c-src/numtheory.c:108-136 | one iteration of the `for` loop, with witness `tape[i] mod (n - 3) + 2`, either rejects after that draw or leaves `k - 1` rounds on the rest of the tape |
| NumTheoryC.Rounds | c-src/numtheory.c:108-137 | the `for` loop over `k` witnesses `mpz_urandomm(n - 3) + 2` equals the functional rounds for C |
| NumTheoryC.IsPrime | c-src/numtheory.c:88-141 | `is_prime` equals the functional test for C |
| NumTheoryC.MakePrime | c-src/numtheory.c:143-160 | the nested `do` loops (redraw even candidates, retest until accepted) equal the functional `make_prime` for C |
| NumTheoryC.DrawCandidate | c-src/numtheory.c:154-155 | `mpz_urandomb(bits - 1) + normalize` is the C candidate, in `[2^(bits-1), 2^bits)` |
| NumTheoryC.DrawOdd | c-src/numtheory.c:153-156 | the inner `do` loop returns the first odd candidate, and the prime search from its start equals the search from that candidate; if the draws run out first, the search finds nothing |
| NumTheoryC.MakePrimeSkipsEven | c-src/numtheory.c:153-156 | an even candidate is redrawn without calling `is_prime` |
| NumTheoryC.MakePrimeTested | c-src/numtheory.c:152-157 | an odd candidate goes to `is_prime` on the draws after it: acceptance returns it, running out of draws gives none |
| NumTheoryC.MakePrimeRejected | c-src/numtheory.c:152-157 | after a rejected odd candidate the search restarts on the draws `is_prime` left unread |
| SscC.GuardHolds | c-src/ssc.c:26-31 | the loop condition computed from `p_min_1`, `q_min_1` and the two `mpz_mod` remainders fails exactly when `p != q`, `q` does not divide `p - 1` and `p` does not divide `q - 1` |
| SscC.RedrawLoop | c-src/ssc.c:26-37 | the C redraw loop equals the functional redraw loop |
| SscC.ComputeKeys | c-src/ssc.c:43-46 | the C key arithmetic equals `DeriveKeys(p, q)` |
| SscC.SscKeyGen | c-src/ssc.c:18-49 | `ssc_key_gen` equals the functional key generation for C |
| SscC.SscEncrypt | c-src/ssc.c:51-53 | the ciphertext lies in `[0, N)` and equals the functional encryption |
| SscC.SscDecrypt | c-src/ssc.c:55-57 | the plaintext equals the functional decryption |

## Left out

- The process-wide random generator (`c-src/randstate.c`, Python's `random`) is replaced by the tape, as described above.
  - The model does not claim the generator's distribution.
  - The `4^-k` bound on Miller-Rabin false positives is probabilistic and is not stated.
  - `KeyGenRoundTrip` therefore assumes that every number the generator can return from the given tape is prime.
- `make_prime` and key generation retry without bound. On a finite tape the model returns `None` when the draws run out, so "loops forever" and "needs more draws" are not told apart.
- The command-line programs are not modelled: `keygen.c`, `encrypt.c`, `decrypt.c` and the Python `main`. They are option parsing, file and console I/O.
- The Python `encode`/`decode` are not modelled. `schmidt-samoa.py` imports them from `numtheory.py`, which does not define them.
- These routines are declared in `c-src/ssc.h` or called from the drivers `keygen.c`, `encrypt.c` and `decrypt.c`, but are not defined in `c-src/ssc.c`, so they are not part of this model:
  - the block file codec: `ssc_encrypt_file` and `ssc_decrypt_file`;
  - signing and verification: `ssc_sign` and `ssc_verify`. The drivers call these with other argument lists than `c-src/ssc.h` declares;
  - key file serialization: `ssc_write_pub`, `ssc_read_pub`, `ssc_write_priv` and `ssc_read_priv`;
  - the key destructors `delete_pubkey` and `delete_privkey`. The constructors `init_pubkey` and `init_privkey` (c-src/ssc.c:6-16) only initialise GMP variables; see the line on GMP memory management.
- Both key generators give `p` and `q` the same size, `bits / 2` bits, and the keys carry no block-size field. The model does the same.
- The C key generation releases `p_min_1` and `q_min_1` with `mpz_clears` (c-src/ssc.c:39) and then passes them to `lcm` (c-src/ssc.c:45). Reading a cleared `mpz_t` is undefined behaviour. The model gives `lcm` the values `p - 1` and `q - 1`, as the comment on that line and the Python `key_gen` intend.
- GMP memory management (`mpz_init` / `mpz_clear`) carries no meaning in the model and is left out.
- NumTheory.Gcd: arguments are natural numbers. Both programs only call `gcd` with non-negative values. Negative arguments, where `%` conventions of C/GMP and Python would differ, are not modelled.
- NumTheory.ModInverse: `a` and `n` are natural numbers, which is every use in the scheme. Negative arguments are not modelled.
- NumTheory.Lcm: arguments are natural numbers, not both 0. In both programs `lcm(0, 0)` divides by `gcd(0, 0) = 0`: a `ZeroDivisionError` in Python (numtheory.py:23) and a GMP division by zero in C (c-src/numtheory.c:28). Key generation, the only caller, passes `p - 1` and `q - 1`, both at least 1.
- NumTheory.IsPrime: the round count `k` is a natural number, and so it is in `NumTheory.Rounds` and `NumTheory.MakePrime`. C's `k` is a `uint64_t`. Python's `is_prime` with `k <= 0` runs no rounds and accepts every `n >= 5` (numtheory.py:79, 97). That case is not modelled. The Python program's only caller passes `k = 100`.
- NumTheory.PowMod: the modulus must be positive. With a zero modulus and a positive exponent both programs divide by zero; with a non-positive exponent they return 1 unreduced. The scheme never uses a modulus below 1.
- NumTheoryC.MakePrime: requires `bits >= 1`. With `bits = 0` the C expression `bits - 1` wraps around as an unsigned 64-bit value and asks GMP for a `2^64 - 1` bit draw.
- SscC.SscKeyGen: requires `bits >= 2`, because smaller sizes reach `make_prime` with `bits / 2 = 0` and the same wrap-around.
