/** The number-theory kernel as pure functions. Each `while` loop of the
    Python module becomes a tail-recursive function over the loop's
    variables; the C file runs the same loops (module NumTheoryC proves its
    loops equal to these functions). The two implementations differ only in
    how they turn random draws into Miller-Rabin witnesses and prime
    candidates, selected by `Impl`. */
module NumTheory {
  import opened Arith
  import opened Random

  /** Which implementation's random-dependent choices to follow. */
  datatype Impl = C | Py

  // ------------------------------------------------------------ odd / even

  function Even(n: int): (even: bool)
    ensures even <==> Divides(2, n)
  {
    n % 2 == 0
  }

  function Odd(n: int): (odd: bool)
    ensures odd <==> !Even(n)
  {
    n % 2 != 0
  }

  // ------------------------------------------------------------------- gcd

  /** One Euclid step keeps the set of common divisors. */
  lemma {:induction false} GcdStep(a: nat, b: nat, g: nat)
    requires b > 0
    requires IsGcd(g, b, a % b)
    ensures IsGcd(g, a, b)
  {
    var q := a / b;
    var m := a % b;
    assert a == q * b + m;
    DividesLinear(g, b, m, q, 1);
    forall c: nat | Divides(c, a) && Divides(c, b)
      ensures Divides(c, g)
    {
      DividesLinear(c, a, b, 1, -q);
      assert 1 * a + (-q) * b == m;
    }
  }

  /** `while b != 0: a, b = b, a % b`: a common divisor of `a` and `b`
      (`GcdIsGcd` shows it is the greatest). */
  function Gcd(a: nat, b: nat): (g: nat)
    ensures Divides(g, a) && Divides(g, b)
    ensures b == 0 ==> g == a
    decreases b
  {
    if b == 0 then
      DividesRefl(a);
      a
    else
      var g := Gcd(b, a % b);
      DivMod(a, b);
      DividesLinear(g, b, a % b, a / b, 1);
      g
  }

  /** Every common divisor of `a` and `b` divides `Gcd(a, b)`. */
  lemma {:induction false} GcdIsGcd(a: nat, b: nat)
    ensures IsGcd(Gcd(a, b), a, b)
    decreases b
  {
    if b == 0 {
      DividesRefl(a);
    } else {
      GcdIsGcd(b, a % b);
      GcdStep(a, b, Gcd(b, a % b));
    }
  }

  /** A common divisor of `a` and `b` divides their gcd. */
  lemma {:induction false} GcdGreatest(a: nat, b: nat, c: nat)
    requires Divides(c, a) && Divides(c, b)
    ensures Divides(c, Gcd(a, b))
  {
    GcdIsGcd(a, b);
  }

  lemma {:induction false} GcdComm(a: nat, b: nat)
    ensures Gcd(a, b) == Gcd(b, a)
  {
    GcdIsGcd(a, b);
    GcdIsGcd(b, a);
    IsGcdUnique(Gcd(a, b), Gcd(b, a), a, b);
  }

  // --------------------------------------------------- extended Euclid

  /** The loop invariant of the extended Euclidean algorithm started on
      `(r, r', t, t') = (n, a, 0, 1)`: the remainders keep the gcd, each
      remainder is its coefficient times `a` modulo `n`, and the coefficients
      alternate in sign with sizes bounded by the remainders. */
  ghost predicate ExtEuclidInv(a: nat, n: nat, r: int, rp: int, t: int, tp: int) {
    && r >= 0 && rp >= 0
    && Gcd(r, rp) == Gcd(n, a)
    && Divides(n, t * a - r)
    && Divides(n, tp * a - rp)
    && t * tp <= 0
    && Abs(tp) * r + Abs(t) * rp == n
    && (rp < r || (r == n && rp == a))
    && (rp == 0 && r == 1 && n > 1 ==> Abs(t) < n)
    && (r == 0 ==> t == 0)
  }

  lemma {:induction false} SignStep(t: int, tp: int, q: int)
    requires t * tp <= 0 && q >= 0
    ensures tp * (t - q * tp) <= 0
    ensures Abs(t - q * tp) == Abs(t) + q * Abs(tp)
  {
    var sq := tp * tp;
    assert tp * (t - q * tp) == t * tp - q * sq;
    MulNonneg(q, sq);
    if tp > 0 {
      MulNonneg(q, tp);
    } else if tp < 0 {
      MulNonneg(q, -tp);
      assert q * Abs(tp) == -(q * tp);
    }
  }

  lemma {:induction false} CongStep(n: nat, a: int, r: int, rp: int, t: int, tp: int, q: int)
    requires Divides(n, t * a - r) && Divides(n, tp * a - rp)
    ensures Divides(n, (t - q * tp) * a - (r - q * rp))
  {
    var x, y := t * a - r, tp * a - rp;
    assert (t - q * tp) * a - (r - q * rp) == 1 * x + (-q) * y;
    DividesLinear(n, x, y, 1, -q);
  }

  lemma {:induction false} SizeStep(at: int, atp: int, r: int, rp: int, q: int)
    ensures (at + q * atp) * rp + atp * (r - q * rp) == atp * r + at * rp
  {
  }

  /** On the last step (remainder 1 reached) the coefficient is below `n`. */
  lemma {:induction false} BoundStep(atp: nat, at: nat, r: int, n: nat)
    requires atp * r + at == n && r >= 2 && n > 1
    ensures atp < n
  {
    assert atp * r == atp * 2 + atp * (r - 2);
    MulNonneg(atp, r - 2);
  }

  lemma {:induction false} ExtEuclidStep(a: nat, n: nat, r: int, rp: int, t: int, tp: int)
    requires ExtEuclidInv(a, n, r, rp, t, tp)
    requires rp > 0
    ensures 0 <= r - (r / rp) * rp < rp
    ensures ExtEuclidInv(a, n, rp, r - (r / rp) * rp, tp, t - (r / rp) * tp)
  {
    var q := r / rp;
    var rq, tq := r - q * rp, t - q * tp;
    DivMod(r, rp);
    assert rq == r % rp;
    DivNonneg(r, rp);
    assert rq < rp;
    assert Gcd(rp, rq) == Gcd(n, a);
    CongStep(n, a, r, rp, t, tp, q);
    assert Divides(n, tq * a - rq);
    SignStep(t, tp, q);
    assert tp * tq <= 0;
    var at, atp := Abs(t), Abs(tp);
    SizeStep(at, atp, r, rp, q);
    assert Abs(tq) * rp + atp * rq == n;
    if rq == 0 && rp == 1 && n > 1 {
      BoundStep(atp, at, r, n);
    }
    assert ExtEuclidInv(a, n, rp, rq, tp, tq);
  }

  /** The loop of `mod_inverse`; yields the final `(r, t)`. */
  function ExtEuclid(a: nat, n: nat, r: int, rp: int, t: int, tp: int): (rt: (int, int))
    requires ExtEuclidInv(a, n, r, rp, t, tp)
    ensures rt.0 == Gcd(n, a)
    ensures Divides(n, rt.1 * a - rt.0)
    ensures rt.0 == 1 && n > 1 ==> Abs(rt.1) < n
    ensures rt.0 == 0 ==> rt.1 == 0
    decreases rp
  {
    if rp == 0 then
      (r, t)
    else
      ExtEuclidStep(a, n, r, rp, t, tp);
      ExtEuclid(a, n, rp, r - (r / rp) * rp, tp, t - (r / rp) * tp)
  }

  lemma {:induction false} ExtEuclidStart(a: nat, n: nat)
    ensures ExtEuclidInv(a, n, n, a, 0, 1)
  {
    DividesRefl(n);
    DividesNeg(n, n);
  }

  /** Bezout: some multiple of `a` is congruent to `gcd(n, a)` modulo `n`. */
  lemma {:induction false} Bezout(a: nat, n: nat) returns (t: int)
    ensures Divides(n, t * a - Gcd(n, a))
  {
    ExtEuclidStart(a, n);
    t := ExtEuclid(a, n, n, a, 0, 1).1;
  }

  /** An inverse modulo `n` exists only for `a` coprime to `n`. */
  lemma {:induction false} InverseNeedsCoprime(a: nat, n: nat, i: int)
    requires n > 1 && (a * i) % n == 1
    ensures Gcd(a, n) == 1
  {
    var g := Gcd(a, n);
    assert a * i == n * ((a * i) / n) + 1;
    DividesMul(g, a, i);
    DividesMul(g, n, (a * i) / n);
    DividesSum(g, a * i, n * ((a * i) / n));
    DividesOne(g);
  }

  /** Fixing up the loop's final `(r, t)` as `mod_inverse` does: the sentinel
      when `r > 1`, then one shift of a negative coefficient by `n`. */
  function FixUp(n: nat, r: int, t: int): (i: int)
    ensures r > 1 ==> i == 0
    ensures r <= 1 ==> Divides(n, i - t)
    ensures r <= 1 && t + n >= 0 ==> i >= 0
  {
    var t' := if r > 1 then 0 else t;
    if t' < 0 then t' + n else t'
  }

  lemma {:induction false} FixUpCorrect(a: nat, n: nat, r: int, t: int)
    requires r == Gcd(n, a) && Divides(n, t * a - r)
    requires r == 1 && n > 1 ==> Abs(t) < n
    requires r == 0 ==> t == 0
    ensures n > 1 && Gcd(a, n) == 1 ==> 0 <= FixUp(n, r, t) < n && (a * FixUp(n, r, t)) % n == 1
    ensures Gcd(a, n) != 1 ==> FixUp(n, r, t) == 0
  {
    GcdComm(a, n);
    var i := FixUp(n, r, t);
    if r == 1 && n > 1 {
      InverseShift(a, n, t);
    }
  }

  /** Adding `n` to a coefficient keeps it an inverse modulo `n`. */
  lemma {:induction false} InverseShift(a: nat, n: nat, t: int)
    requires n > 1 && Abs(t) < n && Divides(n, t * a - 1)
    ensures var i := if t < 0 then t + n else t; 0 <= i < n && (a * i) % n == 1
  {
    var i := if t < 0 then t + n else t;
    var x := t * a - 1;
    if t < 0 {
      var y := n * a;
      assert a * i - 1 == x + y;
      DividesMultiple(n, a);
      DividesSum(n, x, y);
    } else {
      assert a * i - 1 == x;
    }
    ModEq(n, a * i, 1);
    ModSmall(n, 1);
  }

  /** `mod_inverse(a, n)`: the inverse of `a` modulo `n` in `[0, n)`, or the
      sentinel `0` when `gcd(a, n) != 1`. */
  function ModInverse(a: nat, n: nat): (i: int)
    ensures n > 1 && Gcd(a, n) == 1 ==> 0 <= i < n && (a * i) % n == 1
    ensures Gcd(a, n) != 1 ==> i == 0
  {
    ExtEuclidStart(a, n);
    var rt := ExtEuclid(a, n, n, a, 0, 1);
    FixUpCorrect(a, n, rt.0, rt.1);
    FixUp(n, rt.0, rt.1)
  }

  /** For `n > 1` the sentinel is unambiguous: `mod_inverse` yields 0 exactly
      when no inverse exists. */
  lemma {:induction false} ModInverseSentinel(a: nat, n: nat)
    requires n > 1
    ensures ModInverse(a, n) == 0 <==> forall i :: (a * i) % n != 1
  {
    if Gcd(a, n) == 1 {
      assert (a * ModInverse(a, n)) % n == 1;
      if ModInverse(a, n) == 0 {
        ModSmall(n, 0);
        assert false;
      }
    } else {
      forall i ensures (a * i) % n != 1 {
        if (a * i) % n == 1 {
          InverseNeedsCoprime(a, n, i);
        }
      }
    }
  }

  // ------------------------------------------------------------------- lcm

  /** `lcm(a, b) = a * b // gcd(a, b)`: an exact division giving the least
      common multiple. */
  function Lcm(a: nat, b: nat): (l: nat)
    requires a > 0 || b > 0
    ensures l * Gcd(a, b) == a * b
    ensures Divides(a, l) && Divides(b, l)
  {
    LcmExact(a, b);
    (a * b) / Gcd(a, b)
  }

  lemma {:induction false} LcmExact(a: nat, b: nat)
    requires a > 0 || b > 0
    ensures Gcd(a, b) > 0
    ensures var l := (a * b) / Gcd(a, b); l * Gcd(a, b) == a * b && Divides(a, l) && Divides(b, l)
  {
    var g := Gcd(a, b);
    var ka := Quotient(g, a);
    var kb := Quotient(g, b);
    assert a * b == g * (a * kb);
    ModUnique(a * b, g, a * kb, 0);
    assert a * kb == b * ka;
    DividesMultiple(a, kb);
    DividesMultiple(b, ka);
  }

  lemma {:induction false} LcmComm(a: nat, b: nat)
    requires a > 0 || b > 0
    ensures Lcm(a, b) == Lcm(b, a)
  {
    GcdComm(a, b);
    assert a * b == b * a;
  }

  /** Every common multiple of `a` and `b` is a multiple of `lcm(a, b)`. */
  lemma {:induction false} LcmLeast(a: nat, b: nat, m: int)
    requires a > 0 || b > 0
    requires Divides(a, m) && Divides(b, m)
    ensures Divides(Lcm(a, b), m)
  {
    var g, l := Gcd(a, b), Lcm(a, b);
    var t := Bezout(a, b);
    GcdComm(a, b);
    var w := Quotient(b, t * a - g);
    var x := Quotient(a, m);
    var y := Quotient(b, m);
    var k := t * y - w * x;
    LcmLeastAlgebra(a, b, g, l, t, w, x, y, m);
    MulCancel(m, l * k, g);
    DividesMultiple(l, k);
  }

  lemma {:induction false} LcmLeastAlgebra(a: int, b: int, g: int, l: int, t: int, w: int, x: int, y: int, m: int)
    requires t * a - g == b * w && m == a * x && m == b * y && l * g == a * b
    ensures m * g == (l * (t * y - w * x)) * g
  {
    var k := t * y - w * x;
    assert m * g == t * (a * m) - w * (b * m);
    assert a * m == (a * b) * y;
    assert b * m == (a * b) * x;
    assert t * (a * m) - w * (b * m) == (a * b) * k;
    assert (a * b) * k == (l * k) * g;
  }

  lemma {:induction false} MulCancel(x: int, y: int, g: int)
    requires g > 0 && x * g == y * g
    ensures x == y
  {
    assert (x - y) * g == 0;
  }

  // ------------------------------------------------------------- pow_mod

  /** One pass of the square-and-multiply loop keeps `v * p^d` modulo `n`. */
  lemma {:induction false} PowModStep(v: int, p: int, d: int, n: nat)
    requires n > 0 && d > 0
    ensures var v' := if Odd(d) then (v * p) % n else v;
            (v' * Pow((p * p) % n, d / 2)) % n == (v * Pow(p, d)) % n
  {
    var v' := if Odd(d) then (v * p) % n else v;
    var h: nat := d / 2;
    var y := Pow(p, 2 * h);
    SquaredBase(n, p, h);
    MulCong(n, v', Pow((p * p) % n, h), y);
    if Odd(d) {
      assert d == 2 * h + 1;
      ModOfMod(n, v * p);
      MulCong(n, y, v * p, v');
      assert Pow(p, d) == p * y;
      MulAssoc(v, p, y);
    } else {
      assert d == 2 * h;
    }
  }

  /** Squaring the base modulo `n` halves the exponent. */
  lemma {:induction false} SquaredBase(n: nat, p: int, h: nat)
    requires n > 0
    ensures Pow((p * p) % n, h) % n == Pow(p, 2 * h) % n
  {
    PowModBase(n, p * p, h);
    PowMul(p, 2, h);
    assert Pow(p, 2) == p * p;
  }

  /** Congruent factors give congruent products. */
  lemma {:induction false} MulCong(n: nat, a: int, x: int, y: int)
    requires n > 0 && x % n == y % n
    ensures (a * x) % n == (a * y) % n && (x * a) % n == (y * a) % n
  {
    ModMul(n, a, x);
    ModMul(n, a, y);
    assert x * a == a * x && y * a == a * y;
  }

  /** `while d > 0: (if odd(d): v = v*p % n); p = p*p % n; d = d // 2`.
      Invariant: `v * p^d` is congruent to the requested power. */
  function PowModLoop(v: int, p: int, d: int, n: nat): (o: int)
    requires n > 0
    ensures d <= 0 ==> o == v
    ensures d > 0 ==> 0 <= o < n && o == (v * Pow(p, d)) % n
    decreases d
  {
    if d > 0 then
      var v' := if Odd(d) then (v * p) % n else v;
      PowModStep(v, p, d, n);
      ModOfMod(n, v * p);
      PowModLoop(v', (p * p) % n, d / 2, n)
    else
      v
  }

  /** `pow_mod(a, d, n)`: `a^d mod n`, and exactly 1 when the exponent is not
      positive (the loop is skipped). */
  function PowMod(a: int, d: int, n: nat): (o: int)
    requires n > 0
    ensures d <= 0 ==> o == 1
    ensures d > 0 ==> 0 <= o < n && o == Pow(a, d) % n
  {
    PowModLoop(1, a, d, n)
  }

  // ------------------------------------------------------- Miller-Rabin

  /** `while even(r): s += 1; r = r // 2`: strips the factors of two. */
  function DecomposeLoop(r: int, s: nat): (sr: (nat, nat))
    requires r > 0
    ensures sr.1 > 0 && Odd(sr.1)
    ensures Pow(2, sr.0) * sr.1 == Pow(2, s) * r
    decreases r
  {
    if Even(r) then
      var h := r / 2;
      assert r == 2 * h;
      assert Pow(2, s + 1) * h == Pow(2, s) * r;
      DecomposeLoop(h, s + 1)
    else
      (s, r)
  }

  /** Writes `m = 2^s * r` with `r` odd. */
  function Decompose(m: int): (sr: (nat, nat))
    requires m > 0
    ensures m == Pow(2, sr.0) * sr.1 && Odd(sr.1)
  {
    DecomposeLoop(m, 0)
  }

  /** The witness a round draws: `mpz_urandomm(n - 3) + 2` in C,
      `2 + randint(1, n - 4)` in Python. */
  function Witness(impl: Impl, n: int, draw: nat): (a: int)
    requires n >= 5
    ensures 2 <= a <= n - 2
    ensures impl == Py ==> 3 <= a
  {
    match impl
    case C => 2 + draw % (n - 3)
    case Py => 2 + (1 + draw % (n - 4))
  }

  /** Every value of the witness range is drawn by some draw. */
  lemma {:induction false} WitnessRange(impl: Impl, n: int, a: int)
    requires n >= 5 && a <= n - 2
    requires if impl == C then 2 <= a else 3 <= a
    ensures exists draw: nat :: Witness(impl, n, draw) == a
  {
    match impl
    case C =>
      ModSmall(n - 3, a - 2);
      assert Witness(impl, n, a - 2) == a;
    case Py =>
      ModSmall(n - 4, a - 3);
      assert Witness(impl, n, a - 3) == a;
  }

  /** The inner loop of a round: square `y` while `j <= s - 1` and
      `y != n - 1`; reaching 1 first is a rejection. */
  function Chain(n: int, y: int, j: int, s: nat): (pass: bool)
    requires n >= 5
    ensures y == n - 1 ==> pass
    ensures j >= s ==> (pass <==> y == n - 1)
    decreases s - j
  {
    if j <= s - 1 && y != n - 1 then
      var y' := PowMod(y, 2, n);
      if y' == 1 then false else Chain(n, y', j + 1, s)
    else
      y == n - 1
  }

  /** One Miller-Rabin round with witness `a`, for `n - 1 = 2^s * r`. */
  function Round(n: int, r: nat, s: nat, a: int): (pass: bool)
    requires n >= 5
    ensures PowMod(a, r, n) == 1 || PowMod(a, r, n) == n - 1 ==> pass
    ensures s == 0 ==> (pass <==> PowMod(a, r, n) == 1 || PowMod(a, r, n) == n - 1)
  {
    var y := PowMod(a, r, n);
    if y != 1 && y != n - 1 then Chain(n, y, 1, s) else true
  }

  /** The `k` rounds, each drawing one witness from the tape; the first
      failing round rejects. */
  function Rounds(impl: Impl, n: int, r: nat, s: nat, k: nat, tape: seq<nat>): (res: Option<Drawn<bool>>)
    requires n >= 5
    ensures res.Some? ==> Suffix(res.value.rest, tape)
    ensures res.Some? && res.value.value ==> k <= |tape| && res.value.rest == tape[k..]
    ensures |tape| >= k ==> res.Some?
    decreases k
  {
    if k == 0 then
      Some(Drawn(true, tape))
    else if |tape| == 0 then
      None
    else if !Round(n, r, s, Witness(impl, n, tape[0])) then
      Some(Drawn(false, tape[1..]))
    else
      Rounds(impl, n, r, s, k - 1, tape[1..])
  }

  /** The rounds accept exactly when the first `k` drawn witnesses all pass,
      and run out of tape exactly when fewer than `k` draws remain and every
      one of them passes. */
  lemma {:induction false} RoundsSpec(impl: Impl, n: int, r: nat, s: nat, k: nat, tape: seq<nat>)
    requires n >= 5
    ensures var res := Rounds(impl, n, r, s, k, tape);
            && (res.None? <==> |tape| < k && forall i :: 0 <= i < |tape| ==> Round(n, r, s, Witness(impl, n, tape[i])))
            && (res.Some? && res.value.value <==> k <= |tape| && forall i :: 0 <= i < k ==> Round(n, r, s, Witness(impl, n, tape[i])))
  {
    RoundsRunOut(impl, n, r, s, k, tape);
    RoundsAccept(impl, n, r, s, k, tape);
  }

  /** The rounds run out of tape exactly when fewer than `k` draws remain
      and every one of them passes. */
  lemma {:induction false} RoundsRunOut(impl: Impl, n: int, r: nat, s: nat, k: nat, tape: seq<nat>)
    requires n >= 5
    ensures Rounds(impl, n, r, s, k, tape).None?
            <==> |tape| < k && forall i :: 0 <= i < |tape| ==> Round(n, r, s, Witness(impl, n, tape[i]))
    decreases k
  {
    if k > 0 && |tape| > 0 && Round(n, r, s, Witness(impl, n, tape[0])) {
      RoundsRunOut(impl, n, r, s, k - 1, tape[1..]);
      assert forall i :: 1 <= i < |tape| ==> tape[1..][i - 1] == tape[i];
    }
  }

  /** The rounds accept exactly when the first `k` drawn witnesses all
      pass. */
  lemma {:induction false} RoundsAccept(impl: Impl, n: int, r: nat, s: nat, k: nat, tape: seq<nat>)
    requires n >= 5
    ensures var res := Rounds(impl, n, r, s, k, tape);
            res.Some? && res.value.value
            <==> k <= |tape| && forall i :: 0 <= i < k ==> Round(n, r, s, Witness(impl, n, tape[i]))
    decreases k
  {
    if k > 0 && |tape| > 0 && Round(n, r, s, Witness(impl, n, tape[0])) {
      RoundsAccept(impl, n, r, s, k - 1, tape[1..]);
      assert forall i :: 1 <= i < |tape| ==> tape[1..][i - 1] == tape[i];
    }
  }

  /** `is_prime(n, k)`: the short-circuits for `n <= 4`, then `k` rounds. */
  function IsPrime(impl: Impl, n: int, k: nat, tape: seq<nat>): (res: Option<Drawn<bool>>)
    ensures n <= 1 || n == 4 ==> res == Some(Drawn(false, tape))
    ensures n == 2 || n == 3 ==> res == Some(Drawn(true, tape))
    ensures res.Some? ==> Suffix(res.value.rest, tape)
    ensures res.Some? && res.value.value ==> n >= 2
    ensures n >= 5 && |tape| >= k ==> res.Some?
  {
    if n <= 1 || n == 4 then
      Some(Drawn(false, tape))
    else if n <= 3 then
      Some(Drawn(true, tape))
    else
      var sr := Decompose(n - 1);
      Rounds(impl, n, sr.1, sr.0, k, tape)
  }

  // ------------------------------------- reference Miller-Rabin condition

  /** `a^(2^i * r) mod n`, the `i`-th value of a round's squaring chain. */
  function MrTerm(n: int, a: int, r: nat, i: nat): int
    requires n > 0
  {
    MulNonneg(Pow(2, i), r);
    Pow(a, Pow(2, i) * r) % n
  }

  /** The strong-probable-prime condition in closed form, as the round of
      `is_prime` decides it for `n - 1 = 2^s * r`: `a^r` is 1 or `n - 1`, or
      some `a^(2^i * r)` with `i < s` is `n - 1`. For odd `n` (`s >= 1`) this
      is the textbook condition; for even `n` (`s = 0`) it also accepts
      `a^r = n - 1`, where the textbook asks for `a^r = 1`. */
  ghost predicate MrPasses(n: int, r: nat, s: nat, a: int)
    requires n >= 5
  {
    || MrTerm(n, a, r, 0) == 1
    || MrTerm(n, a, r, 0) == n - 1
    || exists i :: 0 <= i < s && MrTerm(n, a, r, i) == n - 1
  }

  /** `n` is a strong probable prime to base `a`. */
  ghost predicate StrongProbablePrime(n: int, a: int)
    requires n >= 5
  {
    var sr := Decompose(n - 1);
    MrPasses(n, sr.1, sr.0, a)
  }

  lemma {:induction false} MrTermNext(n: int, a: int, r: nat, i: nat)
    requires n > 0
    ensures MrTerm(n, a, r, i + 1) == PowMod(MrTerm(n, a, r, i), 2, n)
  {
    MulNonneg(Pow(2, i), r);
    var e: nat := Pow(2, i) * r;
    var y := Pow(a, e);
    assert Pow(2, i + 1) * r == e * 2;
    PowMul(a, e, 2);
    PowModBase(n, y, 2);
  }

  lemma {:induction false} MrTermStaysOne(n: int, a: int, r: nat, i: nat, j: nat)
    requires n > 1 && i <= j && MrTerm(n, a, r, i) == 1
    ensures MrTerm(n, a, r, j) == 1
    decreases j - i
  {
    if i < j {
      MrTermNext(n, a, r, i);
      assert Pow(1, 2) == 1;
      ModSmall(n, 1);
      MrTermStaysOne(n, a, r, i + 1, j);
    }
  }

  /** The inner loop accepts exactly when a later chain value is `n - 1`. */
  lemma {:induction false} ChainSpec(n: int, a: int, r: nat, s: nat, j: int)
    requires n >= 5 && 1 <= j
    requires MrTerm(n, a, r, j - 1) != 1
    requires MrTerm(n, a, r, j - 1) != n - 1 || j <= s
    ensures Chain(n, MrTerm(n, a, r, j - 1), j, s)
            <==> exists i :: j - 1 <= i < s && MrTerm(n, a, r, i) == n - 1
    decreases s - j
  {
    var y := MrTerm(n, a, r, j - 1);
    if j <= s - 1 && y != n - 1 {
      MrTermNext(n, a, r, j - 1);
      var y' := MrTerm(n, a, r, j);
      if y' == 1 {
        forall i | j - 1 <= i < s
          ensures MrTerm(n, a, r, i) != n - 1
        {
          if i >= j {
            MrTermStaysOne(n, a, r, j, i);
          }
        }
      } else {
        ChainSpec(n, a, r, s, j + 1);
        if exists i :: j - 1 <= i < s && MrTerm(n, a, r, i) == n - 1 {
          var i :| j - 1 <= i < s && MrTerm(n, a, r, i) == n - 1;
          assert i != j - 1;
        }
      }
    } else if y == n - 1 {
      assert MrTerm(n, a, r, j - 1) == n - 1;
    } else {
      forall i | j - 1 <= i < s
        ensures MrTerm(n, a, r, i) != n - 1
      {
        assert i == j - 1;
      }
    }
  }

  /** A round accepts exactly when the textbook condition holds. */
  lemma {:induction false} RoundSpec(n: int, r: nat, s: nat, a: int)
    requires n >= 5
    ensures Round(n, r, s, a) <==> MrPasses(n, r, s, a)
  {
    assert Pow(2, 0) * r == r;
    ModSmall(n, 1);
    var y := PowMod(a, r, n);
    assert y == MrTerm(n, a, r, 0);
    if y != 1 && y != n - 1 {
      ChainSpec(n, a, r, s, 1);
    }
  }

  /** `is_prime` accepts a candidate `n >= 5` exactly when the tape holds `k`
      draws and every drawn witness finds `n` a strong probable prime. */
  lemma {:induction false} IsPrimeSpec(impl: Impl, n: int, k: nat, tape: seq<nat>)
    requires n >= 5
    ensures var res := IsPrime(impl, n, k, tape);
            res.Some? && res.value.value
            <==> k <= |tape| && forall i :: 0 <= i < k ==> StrongProbablePrime(n, Witness(impl, n, tape[i]))
  {
    var sr := Decompose(n - 1);
    RoundsSpec(impl, n, sr.1, sr.0, k, tape);
    forall i | 0 <= i < |tape|
      ensures Round(n, sr.1, sr.0, Witness(impl, n, tape[i])) <==> StrongProbablePrime(n, Witness(impl, n, tape[i]))
    {
      RoundSpec(n, sr.1, sr.0, Witness(impl, n, tape[i]));
    }
  }

  // ---------------------------------------------------------- make_prime

  /** A prime candidate from one draw: `mpz_urandomb(bits - 1) + (2^bits -
      2^(bits-1))` in C, `getrandbits(nbits)` in Python. */
  function Candidate(impl: Impl, bits: nat, draw: nat): (p: int)
    requires impl == C ==> bits >= 1
    ensures impl == C ==> Pow(2, bits - 1) <= p < Pow(2, bits)
    ensures impl == Py ==> 0 <= p < Pow(2, bits)
  {
    match impl
    case C =>
      var lower := Pow(2, bits - 1);
      var upper := Pow(2, bits);
      draw % lower + (upper - lower)
    case Py =>
      draw % Pow(2, bits)
  }

  /** What `make_prime(bits, k)` guarantees of its result, whatever the
      draws: C forces the top bit and oddness, Python only bounds the size;
      both have passed `is_prime`, so the value is at least 2. */
  predicate Generated(impl: Impl, bits: nat, p: int) {
    && p >= 2
    && (impl == C ==> bits >= 1 && Odd(p) && Pow(2, bits - 1) <= p < Pow(2, bits))
    && (impl == Py ==> p < Pow(2, bits))
  }

  /** Some stretch `mid` of `tape` makes `is_prime(p, k)` accept and leave
      `rest` unread. */
  ghost predicate PassedFrom(impl: Impl, p: int, k: nat, rest: seq<nat>, tape: seq<nat>) {
    exists mid :: Suffix(mid, tape) && IsPrime(impl, p, k, mid) == Some(Drawn(true, rest))
  }

  lemma {:induction false} PassedFromWiden(impl: Impl, p: int, k: nat, rest: seq<nat>, tape': seq<nat>, tape: seq<nat>)
    requires PassedFrom(impl, p, k, rest, tape') && Suffix(tape', tape)
    ensures PassedFrom(impl, p, k, rest, tape)
  {
    var mid :| Suffix(mid, tape') && IsPrime(impl, p, k, mid) == Some(Drawn(true, rest));
    SuffixTrans(mid, tape', tape);
  }

  /** `make_prime(bits, k)`: draw candidates until one passes `is_prime`.
      C redraws even candidates without testing them; Python tests every
      draw (its initial `p = 0` is rejected before any draw). */
  function MakePrime(impl: Impl, bits: nat, k: nat, tape: seq<nat>): (res: Option<Drawn<int>>)
    requires impl == C ==> bits >= 1
    ensures res.Some? ==> res.value.value >= 2
    ensures res.Some? ==> Suffix(res.value.rest, tape) && |res.value.rest| < |tape|
    decreases |tape|
  {
    if |tape| == 0 then
      None
    else
      var p := Candidate(impl, bits, tape[0]);
      var tail := tape[1..];
      if impl == C && !Odd(p) then
        var res := MakePrime(impl, bits, k, tail);
        if res.Some? then
          SuffixTrans(res.value.rest, tail, tape);
          res
        else
          res
      else
        var t := IsPrime(impl, p, k, tail);
        if t.None? then
          None
        else if t.value.value then
          SuffixTrans(t.value.rest, tail, tape);
          Some(Drawn(p, t.value.rest))
        else
          var rest := t.value.rest;
          SuffixTrans(rest, tail, tape);
          var res := MakePrime(impl, bits, k, rest);
          if res.Some? then
            SuffixTrans(res.value.rest, rest, tape);
            res
          else
            res
  }

  /** What `make_prime` returns was generated as its implementation
      generates candidates, and was accepted by `is_prime` on some stretch
      of the tape; no prime fits in fewer than two bits. */
  lemma {:induction false} MakePrimeSpec(impl: Impl, bits: nat, k: nat, tape: seq<nat>)
    requires impl == C ==> bits >= 1
    ensures var res := MakePrime(impl, bits, k, tape);
            && (res.Some? ==> Generated(impl, bits, res.value.value))
            && (res.Some? ==> PassedFrom(impl, res.value.value, k, res.value.rest, tape))
            && (bits <= 1 ==> res.None?)
    decreases |tape|
  {
    if |tape| > 0 {
      var p := Candidate(impl, bits, tape[0]);
      var tail := tape[1..];
      assert Suffix(tail, tape);
      var res := MakePrime(impl, bits, k, tape);
      if impl == C && !Odd(p) {
        MakePrimeSpec(impl, bits, k, tail);
        if res.Some? {
          PassedFromWiden(impl, res.value.value, k, res.value.rest, tail, tape);
        }
      } else {
        var t := IsPrime(impl, p, k, tail);
        if t.Some? && t.value.value {
          assert Suffix(tail, tape) && IsPrime(impl, p, k, tail) == Some(Drawn(true, t.value.rest));
        } else if t.Some? {
          var rest := t.value.rest;
          SuffixTrans(rest, tail, tape);
          MakePrimeSpec(impl, bits, k, rest);
          if res.Some? {
            PassedFromWiden(impl, res.value.value, k, res.value.rest, rest, tape);
          }
        }
      }
    }
  }
}
