/** Facts about primes that the cryptosystem's correctness rests on:
    Euclid's lemma, Fermat's little theorem, square roots of 1 modulo a
    prime, the Chinese remainder step for two primes, and the fact that the
    Miller-Rabin test never rejects a prime. */
module Primes {
  import opened Arith
  import opened Random
  import opened NumTheory

  /** `n` is prime: at least 2, and no number strictly between 1 and `n`
      divides it. */
  ghost predicate Prime(n: int) {
    n >= 2 && forall d: nat :: 1 < d < n ==> !Divides(d, n)
  }

  /** The only natural divisors of a prime are 1 and itself. */
  lemma {:induction false} PrimeDivisors(p: int, d: nat)
    requires Prime(p) && Divides(d, p)
    ensures d == 1 || d == p
  {
    DividesBound(d, p);
  }

  /** A prime shares either nothing or itself with any number. */
  lemma {:induction false} GcdWithPrime(p: nat, a: nat)
    requires Prime(p)
    ensures Gcd(p, a) == 1 || Divides(p, a)
  {
    PrimeDivisors(p, Gcd(p, a));
  }

  /** Euclid's lemma: a prime dividing a product divides a factor. */
  lemma {:induction false} EuclidLemma(p: nat, a: int, b: int)
    requires Prime(p) && Divides(p, a * b)
    ensures Divides(p, a) || Divides(p, b)
  {
    if !Divides(p, a) {
      var a' := a % p;
      ModOfMod(p, a);
      if Divides(p, a') {
        DividesSum(p, a - a', a');
      }
      GcdWithPrime(p, a');
      var t := Bezout(a', p);
      // t * a is 1 modulo p, so b = t * (a * b) - b * (t * a - 1) is a multiple of p
      assert t * a - 1 == (t * a' - 1) + t * (a - a');
      DividesLinear(p, t * a' - 1, a - a', 1, t);
      DividesMul(p, t * a - 1, b);
      DividesMul(p, a * b, t);
      assert b == (a * b) * t - (t * a - 1) * b;
      DividesSum(p, (a * b) * t, (t * a - 1) * b);
    }
  }

  /** Numbers coprime to `m` form a multiplicatively closed set. */
  lemma {:induction false} CoprimeMul(m: nat, a: nat, b: nat)
    requires Gcd(m, a) == 1 && Gcd(m, b) == 1
    ensures Gcd(m, a * b) == 1
  {
    var ta := Bezout(a, m);
    var tb := Bezout(b, m);
    var t := ta * tb;
    var big := t * (a * b);
    CongMul(m, ta * a, 1, tb * b, 1);
    MulRearrange(ta, a, tb, b);
    var g := Gcd(m, a * b);
    DividesTrans(g, m, big - 1);
    DividesMul(g, a * b, t);
    DividesSum(g, big, big - 1);
    DividesOne(g);
  }

  lemma {:induction false} MulRearrange(x: int, y: int, u: int, v: int)
    ensures (x * y) * (u * v) == (x * u) * (y * v)
  {
  }

  /** Two distinct primes dividing `z` means their product divides `z`. */
  lemma {:induction false} TwoPrimes(p: nat, q: nat, z: int)
    requires Prime(p) && Prime(q) && p != q
    requires Divides(p, z) && Divides(q, z)
    ensures Divides(p * q, z)
  {
    var k := Quotient(p, z);
    EuclidLemma(q, p, k);
    if Divides(q, p) {
      PrimeDivisors(p, q);
    }
    var k' := Quotient(q, k);
    assert z == (p * q) * k';
    DividesMultiple(p * q, k');
  }

  // ------------------------------------------------------------- binomials

  function Binom(n: nat, k: nat): nat {
    if k == 0 then 1
    else if n == 0 then 0
    else Binom(n - 1, k - 1) + Binom(n - 1, k)
  }

  lemma {:induction false} BinomAbove(n: nat, k: nat)
    requires k > n
    ensures Binom(n, k) == 0
    decreases n
  {
    if n > 0 {
      BinomAbove(n - 1, k - 1);
      BinomAbove(n - 1, k);
    }
  }

  lemma {:induction false} BinomDiag(n: nat)
    ensures Binom(n, n) == 1
  {
    if n > 0 {
      BinomDiag(n - 1);
      BinomAbove(n - 1, n);
    }
  }

  /** The absorption identity `k * C(n, k) = n * C(n - 1, k - 1)`. */
  lemma {:induction false} Absorb(n: nat, k: nat)
    requires n >= 1 && k >= 1
    ensures k * Binom(n, k) == n * Binom(n - 1, k - 1)
    decreases n
  {
    if n == 1 {
      if k >= 2 {
        BinomAbove(0, k - 1);
        BinomAbove(0, k);
        BinomAbove(1, k);
      }
    } else {
      var m := n - 1;
      Absorb(m, k);
      assert Binom(n, k) == Binom(m, k - 1) + Binom(m, k);
      if k >= 2 {
        Absorb(m, k - 1);
        assert Binom(m, k - 1) == Binom(m - 1, k - 2) + Binom(m - 1, k - 1);
        AbsorbAlgebra(k, m, Binom(m, k - 1), Binom(m, k), Binom(m - 1, k - 1), Binom(m - 1, k - 2));
      } else {
        assert Binom(m, 0) == 1 && Binom(m - 1, 0) == 1;
      }
    }
  }

  /** The arithmetic of one step of `Absorb`, with the four coefficients
      `a = C(m, k-1)`, `b = C(m, k)`, `c = C(m-1, k-1)`, `d = C(m-1, k-2)`. */
  lemma AbsorbAlgebra(k: int, m: int, a: int, b: int, c: int, d: int)
    requires k * b == m * c && (k - 1) * a == m * d && a == d + c
    ensures k * (a + b) == (m + 1) * a
  {
    assert k * (a + b) == (k - 1) * a + a + k * b;
    assert m * d + m * c == m * a;
  }

  /** A prime divides every inner binomial coefficient of its row. */
  lemma {:induction false} PrimeDividesBinom(p: nat, k: nat)
    requires Prime(p) && 0 < k < p
    ensures Divides(p, Binom(p, k))
  {
    Absorb(p, k);
    DividesMultiple(p, Binom(p - 1, k - 1));
    EuclidLemma(p, k, Binom(p, k));
    if Divides(p, k) {
      DividesBound(p, k);
    }
  }

  /** `sum_{i < j} C(n, i) * x^i`. */
  function BinomSum(n: nat, x: int, j: nat): int {
    if j == 0 then 0 else BinomSum(n, x, j - 1) + Binom(n, j - 1) * Pow(x, j - 1)
  }

  /** Pascal's rule summed: row `n + 1` is row `n` plus row `n` shifted by one power of `x`. */
  lemma {:induction false} BinomSumPascal(n: nat, x: int, j: nat)
    ensures BinomSum(n + 1, x, j + 1) == BinomSum(n, x, j + 1) + x * BinomSum(n, x, j)
    decreases j
  {
    if j > 0 {
      BinomSumPascal(n, x, j - 1);
      var a, b, c := BinomSum(n + 1, x, j), BinomSum(n, x, j), BinomSum(n, x, j - 1);
      var c0, c1, q := Binom(n, j - 1), Binom(n, j), Pow(x, j - 1);
      assert Pow(x, j) == x * q;
      assert Binom(n + 1, j) == c0 + c1;
      assert BinomSum(n + 1, x, j + 1) == a + (c0 + c1) * (x * q);
      assert BinomSum(n, x, j + 1) == b + c1 * (x * q);
      PascalAlgebra(a, b, c, c0, c1, q, x);
    }
  }

  /** The algebra of one step of `BinomSumPascal`. */
  lemma {:induction false} PascalAlgebra(a: int, b: int, c: int, c0: int, c1: int, q: int, x: int)
    requires a == b + x * c && b == c + c0 * q
    ensures a + (c0 + c1) * (x * q) == b + c1 * (x * q) + x * b
  {
  }

  /** The binomial theorem for `(x + 1)^n`. */
  lemma {:induction false} BinomialTheorem(n: nat, x: int)
    ensures Pow(x + 1, n) == BinomSum(n, x, n + 1)
    decreases n
  {
    if n > 0 {
      var m := n - 1;
      BinomialTheorem(m, x);
      BinomSumPascal(m, x, m + 1);
      BinomAbove(m, m + 1);
      assert BinomSum(m, x, m + 2) == BinomSum(m, x, m + 1);
      assert Pow(x + 1, n) == (x + 1) * BinomSum(m, x, m + 1);
    }
  }

  lemma {:induction false} BinomSumInner(p: nat, x: int, j: nat)
    requires Prime(p) && 1 <= j <= p
    ensures Divides(p, BinomSum(p, x, j) - 1)
    decreases j
  {
    if j == 1 {
      DividesRefl(p);
    } else {
      BinomSumInner(p, x, j - 1);
      PrimeDividesBinom(p, j - 1);
      DividesMul(p, Binom(p, j - 1), Pow(x, j - 1));
      DividesSum(p, BinomSum(p, x, j - 1) - 1, Binom(p, j - 1) * Pow(x, j - 1));
    }
  }

  /** `(x + 1)^p = x^p + 1` modulo a prime `p`. */
  lemma {:induction false} FreshmansDream(p: nat, x: int)
    requires Prime(p)
    ensures Divides(p, Pow(x + 1, p) - Pow(x, p) - 1)
  {
    BinomialTheorem(p, x);
    BinomSumInner(p, x, p);
    BinomDiag(p);
  }

  /** Fermat's little theorem, `x^p = x` modulo a prime `p`. */
  lemma {:induction false} Fermat(p: nat, x: nat)
    requires Prime(p)
    ensures Divides(p, Pow(x, p) - x)
    decreases x
  {
    if x == 0 {
      PowDivides(p, 0, p);
      DividesRefl(p);
    } else {
      Fermat(p, x - 1);
      FreshmansDream(p, x - 1);
      DividesSum(p, Pow(x, p) - Pow(x - 1, p) - 1, Pow(x - 1, p) - (x - 1));
    }
  }

  /** Fermat's little theorem for a base the prime does not divide. */
  lemma {:induction false} FermatUnit(p: nat, x: nat)
    requires Prime(p) && !Divides(p, x)
    ensures Divides(p, Pow(x, p - 1) - 1)
  {
    Fermat(p, x);
    assert Pow(x, p) - x == x * (Pow(x, p - 1) - 1);
    EuclidLemma(p, x, Pow(x, p - 1) - 1);
  }

  /** An exponent that is 1 modulo a multiple of `r - 1` is `1 + (r - 1) * w`. */
  lemma {:induction false} ExponentShape(r: nat, lambda: nat, e: nat) returns (w: nat)
    requires r >= 2 && lambda > 0 && Divides(r - 1, lambda)
    requires e % lambda == 1
    ensures e == 1 + (r - 1) * w
  {
    DivMod(e, lambda);
    DivNonneg(e, lambda);
    var j: nat := e / lambda;
    var u := Quotient(r - 1, lambda);
    if u <= 0 {
      MulNonneg(r - 1, -u);
    }
    MulNonneg(u, j);
    w := u * j;
    assert e == lambda * j + 1;
  }

  /** `m^(1 + (r - 1) * w) = m * (m^(r - 1))^w`. */
  lemma {:induction false} PowSplit(m: int, r: nat, w: nat)
    requires r >= 1
    ensures Pow(m, 1 + (r - 1) * w) == m * Pow(Pow(m, r - 1), w)
  {
    MulNonneg(r - 1, w);
    PowAdd(m, 1, (r - 1) * w);
    PowMul(m, r - 1, w);
  }

  /** `m^e = m` modulo a prime `r` whenever `e = 1 + j * L` and `r - 1` divides `L`. */
  lemma {:induction false} PowOneModLambda(r: nat, lambda: nat, m: nat, e: nat)
    requires Prime(r) && lambda > 0 && Divides(r - 1, lambda)
    requires e % lambda == 1
    ensures Divides(r, Pow(m, e) - m)
  {
    var w := ExponentShape(r, lambda, e);
    PowSplit(m, r, w);
    var big := Pow(Pow(m, r - 1), w);
    if Divides(r, m) {
      DividesMul(r, m, big);
      DividesSum(r, m * big, m);
    } else {
      FermatUnit(r, m);
      PowCongOne(r, Pow(m, r - 1), w);
      DividesMul(r, big - 1, m);
      assert m * big - m == (big - 1) * m;
    }
  }

  // ------------------------------------------------- Miller-Rabin on primes

  /** The only square roots of 1 modulo a prime are 1 and `p - 1`. */
  lemma {:induction false} SquareRootsOfOne(p: nat, y: int)
    requires Prime(p) && 0 <= y < p
    requires Pow(y, 2) % p == 1
    ensures y == 1 || y == p - 1
  {
    ModSmall(p, 1);
    ModEq(p, Pow(y, 2), 1);
    assert Pow(y, 2) - 1 == (y - 1) * (y + 1);
    EuclidLemma(p, y - 1, y + 1);
    if Divides(p, y - 1) && y != 1 {
      if y > 1 {
        DividesBound(p, y - 1);
      } else {
        DividesNeg(p, y - 1);
        DividesBound(p, 1 - y);
      }
    }
    if Divides(p, y + 1) && y != p - 1 {
      DividesBound(p, y + 1);
    }
  }

  /** Once some chain value `j <= s` is 1, a prime passes the round. */
  lemma {:induction false} PassesBelowOne(n: nat, a: int, r: nat, s: nat, j: nat)
    requires Prime(n) && n >= 5 && j <= s
    requires MrTerm(n, a, r, j) == 1
    ensures MrPasses(n, r, s, a)
    decreases j
  {
    if j > 0 {
      var y := MrTerm(n, a, r, j - 1);
      if y == 1 {
        PassesBelowOne(n, a, r, s, j - 1);
      } else {
        MrTermNext(n, a, r, j - 1);
        SquareRootsOfOne(n, y);
        assert MrTerm(n, a, r, j - 1) == n - 1;
      }
    }
  }

  /** Every witness in `[2, n - 2]` finds a prime `n` a strong probable prime. */
  lemma {:induction false} PrimeIsStrongProbablePrime(n: nat, a: int)
    requires Prime(n) && n >= 5 && 2 <= a <= n - 2
    ensures StrongProbablePrime(n, a)
  {
    var sr := Decompose(n - 1);
    var s, r := sr.0, sr.1;
    if Divides(n, a) {
      DividesBound(n, a);
    }
    FermatUnit(n, a);
    ModSmall(n, 1);
    ModEq(n, Pow(a, n - 1), 1);
    assert MrTerm(n, a, r, s) == 1;
    PassesBelowOne(n, a, r, s, s);
  }

  /** `is_prime` never rejects a prime: it accepts, or runs out of draws. */
  lemma {:induction false} PrimeNeverRejected(impl: Impl, n: nat, k: nat, tape: seq<nat>)
    requires Prime(n)
    ensures var res := IsPrime(impl, n, k, tape); res.None? || res.value.value
    ensures |tape| >= k ==> IsPrime(impl, n, k, tape).Some?
  {
    if n == 4 {
      DividesMultiple(2, 2);
    } else if n >= 5 {
      forall i | 0 <= i < |tape|
        ensures StrongProbablePrime(n, Witness(impl, n, tape[i]))
      {
        PrimeIsStrongProbablePrime(n, Witness(impl, n, tape[i]));
      }
      IsPrimeSpec(impl, n, k, tape);
      var sr := Decompose(n - 1);
      RoundsSpec(impl, n, sr.1, sr.0, k, tape);
      forall i | 0 <= i < |tape|
        ensures Round(n, sr.1, sr.0, Witness(impl, n, tape[i]))
      {
        RoundSpec(n, sr.1, sr.0, Witness(impl, n, tape[i]));
      }
    }
  }
}
