/** The Schmidt-Samoa cryptosystem: key generation from two random primes
    `p` and `q`, encryption `c = m^N mod N` with the public key `N = p^2 * q`,
    and decryption `m = c^d mod pq` with the private exponent `d`, the
    inverse of `N` modulo Carmichael's `lambda(pq) = lcm(p - 1, q - 1)`. */
module SchmidtSamoa {
  import opened Arith
  import opened Random
  import opened NumTheory
  import opened Primes

  /** The public key `N = p^2 * q`. */
  datatype PublicKey = PublicKey(N: nat)

  /** The private key: the exponent `d` and the decryption modulus `n = p * q`. */
  datatype PrivateKey = PrivateKey(d: int, n: nat)

  datatype KeyPair = KeyPair(pub: PublicKey, priv: PrivateKey)

  /** The condition that ends key generation's redraw loop: `p != q`, `q`
      does not divide `p - 1`, and `p` does not divide `q - 1`. */
  predicate KeyGuard(p: int, q: int): (ok: bool)
    requires p > 0 && q > 0
    ensures ok <==> p != q && !Divides(q, p - 1) && !Divides(p, q - 1)
  {
    p != q && (p - 1) % q != 0 && (q - 1) % p != 0
  }

  /** Carmichael's function of `pq` for distinct primes `p` and `q`. */
  function Lambda(p: int, q: int): (l: nat)
    requires p >= 2 && q >= 2
    ensures l > 0 && Divides(p - 1, l) && Divides(q - 1, l)
  {
    Lcm(p - 1, q - 1)
  }

  /** The keys computed from two primes that passed the guard:
      `n = p * q`, `N = p * n`, `d = N^-1 mod lambda`. */
  function DeriveKeys(p: int, q: int): (kp: KeyPair)
    requires p >= 2 && q >= 2
    ensures kp.priv.n == p * q && kp.pub.N == p * kp.priv.n
    ensures kp.priv.n > 0 && kp.pub.N > 0
    ensures Lambda(p, q) > 1 ==> 0 <= kp.priv.d < Lambda(p, q)
  {
    var n := p * q;
    var bigN := p * n;
    var lambda := Lambda(p, q);
    KeyPair(PublicKey(bigN), PrivateKey(ModInverse(bigN, lambda), n))
  }

  /** `ssc_encrypt` / `encrypt`: `c = m^N mod N`. */
  function Encrypt(m: int, pub: PublicKey): (c: int)
    requires pub.N > 0
    ensures 0 <= c < pub.N
    ensures c == Pow(m, pub.N) % pub.N
  {
    PowMod(m, pub.N, pub.N)
  }

  /** `ssc_decrypt` / `decrypt`: `m = c^d mod n`; a non-positive exponent
      leaves the loop's initial 1. */
  function Decrypt(c: int, priv: PrivateKey): (m: int)
    requires priv.n > 0
    ensures priv.d > 0 ==> 0 <= m < priv.n && m == Pow(c, priv.d) % priv.n
    ensures priv.d <= 0 ==> m == 1
  {
    PowMod(c, priv.d, priv.n)
  }

  // ------------------------------------------------------------- soundness

  /** A prime other than 2 is odd. */
  lemma {:induction false} OddPrime(q: nat)
    requires Prime(q) && q != 2
    ensures (q - 1) % 2 == 0
  {
    assert 1 < 2 < q;
    assert !Divides(2, q);
  }

  /** Two primes that pass the guard are both odd: 2 divides `r - 1` for
      every other prime `r`. */
  lemma {:induction false} GuardedPrimesOdd(p: nat, q: nat)
    requires Prime(p) && Prime(q) && KeyGuard(p, q)
    ensures p >= 3 && q >= 3
  {
    if p == 2 {
      OddPrime(q);
    } else if q == 2 {
      OddPrime(p);
    }
  }

  /** A prime `r` that divides neither `r - 1` nor `s - 1` is coprime to
      `lcm(r - 1, s - 1)`. */
  lemma {:induction false} PrimeCoprimeToLambda(r: nat, s: nat)
    requires Prime(r) && s >= 2 && !Divides(r, s - 1)
    ensures Gcd(Lcm(r - 1, s - 1), r) == 1
  {
    var l := Lcm(r - 1, s - 1);
    GcdComm(l, r);
    GcdWithPrime(r, l);
    if Divides(r, l) {
      var g := Gcd(r - 1, s - 1);
      assert l * g == (r - 1) * (s - 1);
      DividesMultiple(l, g);
      DividesTrans(r, l, (r - 1) * (s - 1));
      EuclidLemma(r, r - 1, s - 1);
      if Divides(r, r - 1) {
        DividesBound(r, r - 1);
      }
    }
  }

  /** For primes that pass the guard, `N = p^2 * q` is coprime to `lambda`. */
  lemma {:induction false} PublicKeyCoprime(p: nat, q: nat)
    requires Prime(p) && Prime(q) && KeyGuard(p, q)
    ensures Gcd(p * (p * q), Lambda(p, q)) == 1
  {
    var lambda := Lambda(p, q);
    PrimeCoprimeToLambda(p, q);
    PrimeCoprimeToLambda(q, p);
    LcmComm(q - 1, p - 1);
    CoprimeProduct(lambda, p, q);
  }

  lemma {:induction false} CoprimeProduct(m: nat, p: nat, q: nat)
    requires Gcd(m, p) == 1 && Gcd(m, q) == 1
    ensures Gcd(p * (p * q), m) == 1
  {
    var pq: nat := p * q;
    CoprimeMul(m, p, q);
    CoprimeMul(m, p, pq);
    GcdComm(m, p * pq);
  }

  /** For primes that pass the guard, `N` is invertible modulo `lambda`, so
      `mod_inverse` returns a true inverse `d` with `0 < d < lambda`. */
  lemma {:induction false} KeysAreSound(p: nat, q: nat)
    requires Prime(p) && Prime(q) && KeyGuard(p, q)
    ensures var kp := DeriveKeys(p, q);
            var lambda := Lambda(p, q);
            && lambda >= 2
            && Gcd(kp.pub.N, lambda) == 1
            && 0 < kp.priv.d < lambda
            && (kp.pub.N * kp.priv.d) % lambda == 1
  {
    GuardedPrimesOdd(p, q);
    LambdaAtLeastTwo(p, q);
    PublicKeyCoprime(p, q);
    InverseExponent(p * (p * q), Lambda(p, q));
  }

  lemma {:induction false} LambdaAtLeastTwo(p: int, q: int)
    requires p >= 3 && q >= 2
    ensures Lambda(p, q) >= 2
  {
    DividesBound(p - 1, Lambda(p, q));
  }

  /** The inverse `mod_inverse` finds for a unit is never 0. */
  lemma {:induction false} InverseExponent(bigN: nat, lambda: nat)
    requires lambda >= 2 && Gcd(bigN, lambda) == 1
    ensures var d := ModInverse(bigN, lambda); 0 < d < lambda && (bigN * d) % lambda == 1
  {
    NonzeroInverse(bigN, lambda, ModInverse(bigN, lambda));
  }

  lemma {:induction false} NonzeroInverse(x: int, n: nat, d: int)
    requires n > 1 && 0 <= d && (x * d) % n == 1
    ensures d > 0
  {
  }

  /** Reducing modulo `N` keeps the value modulo every divisor `n` of `N`. */
  lemma {:induction false} ModDivisor(bigN: nat, n: nat, x: int)
    requires bigN > 0 && Divides(n, bigN)
    ensures Divides(n, x % bigN - x)
  {
    ModOfMod(bigN, x);
    DividesTrans(n, bigN, x - x % bigN);
    DividesNeg(n, x - x % bigN);
  }

  /** Decryption inverts encryption for every message `0 <= m < pq`. */
  lemma {:induction false} DecryptInvertsEncrypt(p: nat, q: nat, m: int)
    requires Prime(p) && Prime(q) && KeyGuard(p, q)
    requires 0 <= m < p * q
    ensures var kp := DeriveKeys(p, q);
            Decrypt(Encrypt(m, kp.pub), kp.priv) == m
  {
    var kp := DeriveKeys(p, q);
    var bigN, n, d := kp.pub.N, kp.priv.n, kp.priv.d;
    var lambda := Lambda(p, q);
    KeysAreSound(p, q);
    var c := Encrypt(m, kp.pub);
    // c = m^N modulo n, because n divides N
    DividesMultiple(n, p);
    assert n * p == bigN;
    ModDivisor(bigN, n, Pow(m, bigN));
    // so c^d = m^(N d) modulo n
    PowCong(n, c, Pow(m, bigN), d);
    MulNonneg(bigN, d);
    var e: nat := bigN * d;
    PowMul(m, bigN, d);
    // and m^(N d) = m modulo p and modulo q, hence modulo pq
    PowOneModLambda(p, lambda, m, e);
    PowOneModLambda(q, lambda, m, e);
    TwoPrimes(p, q, Pow(m, e) - m);
    DividesSum(n, Pow(c, d) - Pow(m, e), Pow(m, e) - m);
    ModEq(n, Pow(c, d), m);
    ModSmall(n, m);
  }

  // -------------------------------------------------------- key generation

  /** `p` is what `make_prime(bitsz, k)` returns when started on some
      stretch of `tape`. */
  ghost predicate MadeBy(impl: Impl, bitsz: nat, k: nat, p: int, tape: seq<nat>)
    requires impl == C ==> bitsz >= 1
  {
    exists mid, rest :: Suffix(mid, tape) && MakePrime(impl, bitsz, k, mid) == Some(Drawn(p, rest))
  }

  lemma {:induction false} MadeByWiden(impl: Impl, bitsz: nat, k: nat, p: int, tape': seq<nat>, tape: seq<nat>)
    requires impl == C ==> bitsz >= 1
    requires MadeBy(impl, bitsz, k, p, tape') && Suffix(tape', tape)
    ensures MadeBy(impl, bitsz, k, p, tape)
  {
    var mid, rest :| Suffix(mid, tape') && MakePrime(impl, bitsz, k, mid) == Some(Drawn(p, rest));
    SuffixTrans(mid, tape', tape);
  }

  lemma {:induction false} MadeByGenerated(impl: Impl, bitsz: nat, k: nat, p: int, tape: seq<nat>)
    requires impl == C ==> bitsz >= 1
    requires MadeBy(impl, bitsz, k, p, tape)
    ensures Generated(impl, bitsz, p)
  {
    var mid, rest :| Suffix(mid, tape) && MakePrime(impl, bitsz, k, mid) == Some(Drawn(p, rest));
    MakePrimeSpec(impl, bitsz, k, mid);
  }

  /** The redraw loop: while the guard fails, replace `q` by a fresh
      `make_prime(bitsz, k)`. */
  function RedrawQ(impl: Impl, bitsz: nat, k: nat, p: int, q: int, tape: seq<nat>): (res: Option<Drawn<int>>)
    requires impl == C ==> bitsz >= 1
    requires p > 0 && q > 0
    ensures res.Some? ==> res.value.value > 0 && KeyGuard(p, res.value.value) && Suffix(res.value.rest, tape)
    ensures KeyGuard(p, q) ==> res == Some(Drawn(q, tape))
    decreases |tape|
  {
    if KeyGuard(p, q) then
      Some(Drawn(q, tape))
    else
      var drawn := MakePrime(impl, bitsz, k, tape);
      if drawn.None? then
        None
      else
        var res := RedrawQ(impl, bitsz, k, p, drawn.value.value, drawn.value.rest);
        if res.Some? then
          SuffixTrans(res.value.rest, drawn.value.rest, tape);
          res
        else
          res
  }

  /** The `q` the redraw loop settles on is the one it started with, when
      that passed the guard, or else a `make_prime` output from the tape. */
  lemma {:induction false} RedrawQDraws(impl: Impl, bitsz: nat, k: nat, p: int, q: int, tape: seq<nat>)
    requires impl == C ==> bitsz >= 1
    requires p > 0 && q > 0
    ensures var res := RedrawQ(impl, bitsz, k, p, q, tape);
            res.Some? ==> res.value == Drawn(q, tape) || MadeBy(impl, bitsz, k, res.value.value, tape)
    decreases |tape|
  {
    if !KeyGuard(p, q) {
      var drawn := MakePrime(impl, bitsz, k, tape);
      if drawn.Some? {
        var q', rest := drawn.value.value, drawn.value.rest;
        var res := RedrawQ(impl, bitsz, k, p, q', rest);
        RedrawQDraws(impl, bitsz, k, p, q', rest);
        if res.Some? {
          assert Suffix(tape, tape) && MakePrime(impl, bitsz, k, tape) == Some(Drawn(q', rest));
          if res.value != Drawn(q', rest) {
            MadeByWiden(impl, bitsz, k, res.value.value, rest, tape);
          }
        }
      }
    }
  }

  /** `ssc_key_gen(bits, k)` / `key_gen(nbits, k)`: two primes of `bits / 2`
      bits, `q` redrawn until the guard holds, then the derived keys. */
  function KeyGen(impl: Impl, bits: nat, k: nat, tape: seq<nat>): (res: Option<Drawn<KeyPair>>)
    requires impl == C ==> bits >= 2
    ensures res.Some? ==> Suffix(res.value.rest, tape)
    ensures res.Some? ==> exists p, q ::
              && MadeBy(impl, bits / 2, k, p, tape) && MadeBy(impl, bits / 2, k, q, tape)
              && p >= 2 && q >= 2 && KeyGuard(p, q)
              && res.value.value == DeriveKeys(p, q)
    ensures bits <= 3 ==> res.None?
  {
    var bitsz := bits / 2;
    var p := MakePrime(impl, bitsz, k, tape);
    MakePrimeSpec(impl, bitsz, k, tape);
    if p.None? then
      None
    else
      var q := MakePrime(impl, bitsz, k, p.value.rest);
      if q.None? then
        None
      else
        var q' := RedrawQ(impl, bitsz, k, p.value.value, q.value.value, q.value.rest);
        if q'.None? then
          None
        else
          KeyGenDraws(impl, bitsz, k, tape, p.value, q.value, q'.value);
          Some(Drawn(DeriveKeys(p.value.value, q'.value.value), q'.value.rest))
  }

  /** The draws of `KeyGen`: `p` from the tape, `q` after it, and the final
      `q'` after the redraw loop all come from `make_prime` on the tape. */
  lemma {:induction false} KeyGenDraws(impl: Impl, bitsz: nat, k: nat, tape: seq<nat>, p: Drawn<int>, q: Drawn<int>, q': Drawn<int>)
    requires impl == C ==> bitsz >= 1
    requires MakePrime(impl, bitsz, k, tape) == Some(p)
    requires MakePrime(impl, bitsz, k, p.rest) == Some(q)
    requires p.value > 0 && q.value > 0
    requires RedrawQ(impl, bitsz, k, p.value, q.value, q.rest) == Some(q')
    ensures Suffix(q'.rest, tape)
    ensures MadeBy(impl, bitsz, k, p.value, tape) && MadeBy(impl, bitsz, k, q'.value, tape)
    ensures p.value >= 2 && q'.value >= 2 && KeyGuard(p.value, q'.value)
  {
    SuffixTrans(q.rest, p.rest, tape);
    SuffixTrans(q'.rest, q.rest, tape);
    RedrawQDraws(impl, bitsz, k, p.value, q.value, q.rest);
    assert Suffix(tape, tape);
    assert MadeBy(impl, bitsz, k, p.value, tape);
    assert Suffix(p.rest, p.rest);
    assert MadeBy(impl, bitsz, k, q.value, p.rest);
    MadeByWiden(impl, bitsz, k, q.value, p.rest, tape);
    KeyGenAssemble(impl, bitsz, k, p.value, q.value, q', q.rest, tape);
    MadeByGenerated(impl, bitsz, k, q'.value, tape);
  }

  /** The second prime after the redraw loop is a `make_prime` output. */
  lemma {:induction false} KeyGenAssemble(impl: Impl, bitsz: nat, k: nat, p: int, q: int, q': Drawn<int>, mid: seq<nat>, tape: seq<nat>)
    requires impl == C ==> bitsz >= 1
    requires MadeBy(impl, bitsz, k, q, tape) && Suffix(mid, tape)
    requires q' == Drawn(q, mid) || MadeBy(impl, bitsz, k, q'.value, mid)
    ensures MadeBy(impl, bitsz, k, q'.value, tape)
  {
    if q' != Drawn(q, mid) {
      MadeByWiden(impl, bitsz, k, q'.value, mid, tape);
    }
  }

  /** When every number `make_prime` could have returned from this tape is
      really prime (no Miller-Rabin false positive), the generated keys
      decrypt every message below `n` back to itself. */
  lemma {:induction false} KeyGenRoundTrip(impl: Impl, bits: nat, k: nat, tape: seq<nat>, m: int)
    requires impl == C ==> bits >= 2
    requires KeyGen(impl, bits, k, tape).Some?
    requires forall p :: MadeBy(impl, bits / 2, k, p, tape) ==> Prime(p)
    requires 0 <= m < KeyGen(impl, bits, k, tape).value.value.priv.n
    ensures var kp := KeyGen(impl, bits, k, tape).value.value;
            Decrypt(Encrypt(m, kp.pub), kp.priv) == m
  {
    var kp := KeyGen(impl, bits, k, tape).value.value;
    var p, q :| && MadeBy(impl, bits / 2, k, p, tape) && MadeBy(impl, bits / 2, k, q, tape)
                && p >= 2 && q >= 2 && KeyGuard(p, q) && kp == DeriveKeys(p, q);
    DecryptInvertsEncrypt(p, q, m);
  }
}
