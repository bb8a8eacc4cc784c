/** Integer facts the models lean on: divisibility, congruence, powers.
    Dafny's `/` and `%` are Euclidean; for a positive divisor they agree with
    GMP's `mpz_fdiv_q`/`mpz_mod` and with Python's `//`/`%`. */
module Arith {

  /** `d` divides `x` (0 divides only 0). */
  predicate Divides(d: nat, x: int) {
    if d == 0 then x == 0 else x % d == 0
  }

  function Abs(x: int): nat {
    if x < 0 then -x else x
  }

  /** `b` raised to the natural power `e`. */
  function Pow(b: int, e: nat): (p: int)
    ensures b > 0 ==> p > 0
    decreases e
  {
    if e == 0 then 1 else b * Pow(b, e - 1)
  }

  /** `g` is a greatest common divisor of `a` and `b`: a common divisor that
      every common divisor divides. */
  ghost predicate IsGcd(g: nat, a: nat, b: nat) {
    && Divides(g, a)
    && Divides(g, b)
    && forall c: nat :: Divides(c, a) && Divides(c, b) ==> Divides(c, g)
  }

  // ---------------------------------------------------------------- division

  lemma {:induction false} MulNonneg(a: int, b: int)
    requires a >= 0 && b >= 0
    ensures a * b >= 0
  {
  }

  lemma {:induction false} ModUnique(x: int, d: nat, q: int, r: int)
    requires d > 0
    requires x == d * q + r
    requires 0 <= r < d
    ensures x % d == r
    ensures x / d == q
  {
    var q', r' := x / d, x % d;
    var e := q - q';
    assert d * e == d * q - d * q';
    assert d * e == r' - r;
    if e >= 1 {
      assert d * e == d + d * (e - 1);
      MulNonneg(d, e - 1);
    }
  }

  lemma {:induction false} DivMod(x: int, d: int)
    requires d > 0
    ensures x == d * (x / d) + x % d
    ensures 0 <= x % d < d
  {
  }

  lemma {:induction false} DivNonneg(x: int, d: int)
    requires x >= 0 && d > 0
    ensures x / d >= 0
  {
    var q, m := x / d, x % d;
    assert x == d * q + m;
    if q < 0 {
      MulNonneg(d, -q);
    }
  }

  lemma {:induction false} DividesMultiple(d: nat, k: int)
    ensures Divides(d, d * k)
  {
    if d > 0 {
      ModUnique(d * k, d, k, 0);
    }
  }

  /** The quotient of an exact division. */
  lemma {:induction false} Quotient(d: nat, x: int) returns (k: int)
    requires Divides(d, x)
    ensures x == d * k
  {
    if d == 0 {
      k := 0;
    } else {
      k := x / d;
    }
  }

  lemma {:induction false} DividesLinear(d: nat, x: int, y: int, u: int, v: int)
    requires Divides(d, x) && Divides(d, y)
    ensures Divides(d, u * x + v * y)
  {
    var kx := Quotient(d, x);
    var ky := Quotient(d, y);
    assert u * x + v * y == d * (u * kx + v * ky);
    DividesMultiple(d, u * kx + v * ky);
  }

  lemma {:induction false} DividesSum(d: nat, x: int, y: int)
    requires Divides(d, x) && Divides(d, y)
    ensures Divides(d, x + y) && Divides(d, x - y)
  {
    DividesLinear(d, x, y, 1, 1);
    DividesLinear(d, x, y, 1, -1);
  }

  lemma {:induction false} DividesMul(d: nat, x: int, y: int)
    requires Divides(d, x)
    ensures Divides(d, x * y) && Divides(d, y * x)
  {
    var k := Quotient(d, x);
    assert x * y == d * (k * y);
    DividesMultiple(d, k * y);
  }

  lemma {:induction false} DividesTrans(a: nat, b: nat, c: int)
    requires Divides(a, b) && Divides(b, c)
    ensures Divides(a, c)
  {
    var k := Quotient(b, c);
    DividesMul(a, b, k);
  }

  lemma {:induction false} DividesRefl(d: nat)
    ensures Divides(d, d) && Divides(d, 0) && Divides(1, d)
  {
    DividesMultiple(d, 1);
    DividesMultiple(d, 0);
    DividesMultiple(1, d);
  }

  lemma {:induction false} DividesNeg(d: nat, x: int)
    requires Divides(d, x)
    ensures Divides(d, -x)
  {
    DividesLinear(d, x, x, -1, 0);
  }

  /** A positive multiple of `d` is at least as large as `d`. */
  lemma {:induction false} DividesBound(d: nat, x: int)
    requires Divides(d, x) && x > 0
    ensures d <= x
  {
    var k := Quotient(d, x);
    assert k >= 1;
    assert d * k == d + d * (k - 1);
    MulNonneg(d, k - 1);
  }

  /** Two non-negative numbers that divide each other are equal. */
  lemma {:induction false} DividesAntisym(a: nat, b: nat)
    requires Divides(a, b) && Divides(b, a)
    ensures a == b
  {
    if a > 0 && b > 0 {
      DividesBound(a, b);
      DividesBound(b, a);
    }
  }

  /** The only natural divisor of 1 is 1. */
  lemma {:induction false} DividesOne(d: nat)
    requires Divides(d, 1)
    ensures d == 1
  {
    DividesBound(d, 1);
  }

  // -------------------------------------------------------------- congruence

  /** Equal remainders modulo `n` exactly when `n` divides the difference. */
  lemma {:induction false} ModEq(n: nat, x: int, y: int)
    requires n > 0
    ensures x % n == y % n <==> Divides(n, x - y)
  {
    if x % n == y % n {
      assert x - y == n * (x / n - y / n);
      DividesMultiple(n, x / n - y / n);
    }
    if Divides(n, x - y) {
      var k := Quotient(n, x - y);
      assert x == n * (y / n + k) + y % n;
      ModUnique(x, n, y / n + k, y % n);
    }
  }

  lemma {:induction false} ModOfMod(n: nat, x: int)
    requires n > 0
    ensures Divides(n, x - x % n)
    ensures (x % n) % n == x % n
  {
    assert x - x % n == n * (x / n);
    DividesMultiple(n, x / n);
    ModUnique(x % n, n, 0, x % n);
  }

  lemma {:induction false} ModSmall(n: nat, x: int)
    requires 0 <= x < n
    ensures x % n == x
  {
    ModUnique(x, n, 0, x);
  }

  /** Congruences may be multiplied. */
  lemma {:induction false} CongMul(n: nat, x: int, x': int, y: int, y': int)
    requires Divides(n, x - x') && Divides(n, y - y')
    ensures Divides(n, x * y - x' * y')
  {
    assert x * y - x' * y' == y * (x - x') + x' * (y - y');
    DividesLinear(n, x - x', y - y', y, x');
  }

  /** Reducing the factors of a product modulo `n` does not change the product's remainder. */
  lemma {:induction false} ModMul(n: nat, x: int, y: int)
    requires n > 0
    ensures (x * y) % n == ((x % n) * (y % n)) % n
  {
    ModOfMod(n, x);
    ModOfMod(n, y);
    CongMul(n, x, x % n, y, y % n);
    ModEq(n, x * y, (x % n) * (y % n));
  }

  // ------------------------------------------------------------------ powers

  lemma {:induction false} PowAdd(b: int, i: nat, j: nat)
    ensures Pow(b, i + j) == Pow(b, i) * Pow(b, j)
    decreases i
  {
    if i > 0 {
      PowAdd(b, i - 1, j);
      var x, y := Pow(b, i - 1), Pow(b, j);
      assert Pow(b, i + j) == b * Pow(b, (i - 1) + j);
      MulAssoc(b, x, y);
    }
  }

  lemma {:induction false} MulAssoc(a: int, b: int, c: int)
    ensures a * (b * c) == (a * b) * c
  {
  }

  lemma {:induction false} PowMul(b: int, i: nat, j: nat)
    ensures Pow(b, i * j) == Pow(Pow(b, i), j)
    decreases j
  {
    if j > 0 {
      var m: nat := i * (j - 1);
      MulSucc(i, j);
      PowAdd(b, i, m);
      PowMul(b, i, j - 1);
    }
  }

  lemma {:induction false} MulSucc(i: nat, j: nat)
    requires j > 0
    ensures i * j == i + i * (j - 1) && i * (j - 1) >= 0
  {
  }

  lemma {:induction false} PowOfOne(e: nat)
    ensures Pow(1, e) == 1
    decreases e
  {
    if e > 0 {
      PowOfOne(e - 1);
    }
  }

  /** Congruent bases give congruent powers. */
  lemma {:induction false} PowCong(n: nat, x: int, y: int, e: nat)
    requires Divides(n, x - y)
    ensures Divides(n, Pow(x, e) - Pow(y, e))
    decreases e
  {
    if e == 0 {
      DividesRefl(n);
    } else {
      PowCong(n, x, y, e - 1);
      CongMul(n, x, y, Pow(x, e - 1), Pow(y, e - 1));
    }
  }

  /** Reducing the base modulo `n` does not change the power's remainder. */
  lemma {:induction false} PowModBase(n: nat, x: int, e: nat)
    requires n > 0
    ensures Pow(x % n, e) % n == Pow(x, e) % n
  {
    var y := x % n;
    ModCong(n, x);
    PowCong(n, y, x, e);
    ModEq(n, Pow(y, e), Pow(x, e));
  }

  /** `x % n` is congruent to `x`. */
  lemma {:induction false} ModCong(n: nat, x: int)
    requires n > 0
    ensures Divides(n, x % n - x)
  {
    ModOfMod(n, x);
    DividesNeg(n, x - x % n);
  }

  /** A power of a multiple of `n` (to a positive exponent) is a multiple of `n`. */
  lemma {:induction false} PowDivides(n: nat, x: int, e: nat)
    requires Divides(n, x) && e > 0
    ensures Divides(n, Pow(x, e))
  {
    DividesMul(n, x, Pow(x, e - 1));
  }

  /** Powers of a number congruent to 1 are congruent to 1. */
  lemma {:induction false} PowCongOne(n: nat, x: int, e: nat)
    requires Divides(n, x - 1)
    ensures Divides(n, Pow(x, e) - 1)
  {
    PowCong(n, x, 1, e);
    PowOfOne(e);
  }

  /** There is only one greatest common divisor. */
  lemma {:induction false} IsGcdUnique(g: nat, g': nat, a: nat, b: nat)
    requires IsGcd(g, a, b) && IsGcd(g', a, b)
    ensures g == g'
  {
    DividesAntisym(g, g');
  }
}
