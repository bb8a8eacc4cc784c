/** The C driver functions of the cryptosystem, over the C kernel's loop
    methods, proved to compute what module SchmidtSamoa computes for the C
    implementation. */
module SscC {
  import opened Random
  import NumTheory
  import NumTheoryC
  import Arith
  import opened SchmidtSamoa

  /** `ssc_key_gen(pub, priv, bits, k)`: two `make_prime(bits / 2, k)`
      calls, the redraw loop, then the key arithmetic. */
  method SscKeyGen(bits: nat, k: nat, tape: seq<nat>) returns (res: Option<Drawn<KeyPair>>)
    requires bits >= 2
    ensures res == KeyGen(NumTheory.C, bits, k, tape)
  {
    var bitsz := bits / 2;
    var pDrawn := NumTheoryC.MakePrime(bitsz, k, tape);
    if pDrawn.None? {
      return None;
    }
    var qDrawn := NumTheoryC.MakePrime(bitsz, k, pDrawn.value.rest);
    if qDrawn.None? {
      return None;
    }
    var p := pDrawn.value.value;
    var qFinal := RedrawLoop(bitsz, k, p, qDrawn.value.value, qDrawn.value.rest);
    if qFinal.None? {
      return None;
    }
    var kp := ComputeKeys(p, qFinal.value.value);
    return Some(Drawn(kp, qFinal.value.rest));
  }

  /** The `while` loop of `ssc_key_gen`: redraw `q` while `p == q`,
      `(p - 1) mod q == 0` or `(q - 1) mod p == 0`. */
  method RedrawLoop(bitsz: nat, k: nat, p: int, q0: int, tape: seq<nat>) returns (res: Option<Drawn<int>>)
    requires bitsz >= 1 && p >= 2 && q0 >= 2
    ensures res == RedrawQ(NumTheory.C, bitsz, k, p, q0, tape)
  {
    ghost var goal := RedrawQ(NumTheory.C, bitsz, k, p, q0, tape);
    var q, rest := q0, tape;
    var ok := GuardHolds(p, q);
    while !ok
      invariant q >= 2 && ok == KeyGuard(p, q)
      invariant RedrawQ(NumTheory.C, bitsz, k, p, q, rest) == goal
      decreases |rest|
    {
      RedrawStep(bitsz, k, p, q, rest);
      var drawn := NumTheoryC.MakePrime(bitsz, k, rest);
      if drawn.None? {
        return None;
      }
      q, rest := drawn.value.value, drawn.value.rest;
      ok := GuardHolds(p, q);
    }
    return Some(Drawn(q, rest));
  }

  /** The loop condition of `ssc_key_gen` from `p_min_1`, `q_min_1` and the
      two `mpz_mod` remainders: it fails exactly when the key guard holds. */
  method GuardHolds(p: int, q: int) returns (ok: bool)
    requires p > 0 && q > 0
    ensures ok <==> p != q && !Arith.Divides(q, p - 1) && !Arith.Divides(p, q - 1)
    ensures ok == KeyGuard(p, q)
  {
    var pMin1 := p - 1;
    var qMin1 := q - 1;
    var pm1ModQ := pMin1 % q;
    var qm1ModP := qMin1 % p;
    ok := !(p == q || pm1ModQ == 0 || qm1ModP == 0);
  }

  /** One failed guard: `q` is replaced by the next `make_prime` result. */
  lemma {:induction false} RedrawStep(bitsz: nat, k: nat, p: int, q: int, tape: seq<nat>)
    requires bitsz >= 1 && p >= 2 && q >= 2 && !KeyGuard(p, q)
    ensures var drawn := NumTheory.MakePrime(NumTheory.C, bitsz, k, tape);
            && (drawn.None? ==> RedrawQ(NumTheory.C, bitsz, k, p, q, tape).None?)
            && (drawn.Some? ==>
                  && |drawn.value.rest| < |tape| && drawn.value.value >= 2
                  && RedrawQ(NumTheory.C, bitsz, k, p, q, tape) == RedrawQ(NumTheory.C, bitsz, k, p, drawn.value.value, drawn.value.rest))
  {
  }

  /** The key arithmetic after the loop: `n = p * q`, `N = p * n`,
      `lambda = lcm(p - 1, q - 1)`, `d = mod_inverse(N, lambda)`. The `lcm`
      call reads `p - 1` and `q - 1`, as the comment beside it intends (the
      C text has already released those two variables at that point). */
  method ComputeKeys(p: int, q: int) returns (kp: KeyPair)
    requires p >= 2 && q >= 2
    ensures kp == DeriveKeys(p, q)
  {
    var n := p * q;
    var bigN := p * n;
    var lambda := NumTheoryC.Lcm(p - 1, q - 1);
    var d := NumTheoryC.ModInverse(bigN, lambda);
    kp := KeyPair(PublicKey(bigN), PrivateKey(d, n));
  }

  /** `ssc_encrypt(c, m, pub)`: `pow_mod(c, m, N, N)`. */
  method SscEncrypt(m: int, pub: PublicKey) returns (c: int)
    requires pub.N > 0
    ensures 0 <= c < pub.N
    ensures c == Encrypt(m, pub)
  {
    c := NumTheoryC.PowMod(m, pub.N, pub.N);
  }

  /** `ssc_decrypt(m, c, priv)`: `pow_mod(m, c, d, n)`. */
  method SscDecrypt(c: int, priv: PrivateKey) returns (m: int)
    requires priv.n > 0
    ensures m == Decrypt(c, priv)
  {
    m := NumTheoryC.PowMod(c, priv.d, priv.n);
  }
}
