/** The C kernel's loops, statement by statement: each `mpz_t` local becomes
    a local variable, each `while`/`for`/`do` loop a Dafny loop, and every
    method is proved to compute exactly what the functional model in module
    NumTheory computes for the C implementation. The random state read by
    `mpz_urandomm`/`mpz_urandomb` is the tape, consumed one entry per call. */
module NumTheoryC {
  import opened Arith
  import opened Random
  import NumTheory

  /** `gcd(d, a, b)`: Euclid's loop. */
  method Gcd(a: nat, b: nat) returns (d: nat)
    ensures IsGcd(d, a, b)
    ensures d == NumTheory.Gcd(a, b)
  {
    var tmpA, tmpB := a, b;
    while tmpB != 0
      invariant NumTheory.Gcd(tmpA, tmpB) == NumTheory.Gcd(a, b)
      decreases tmpB
    {
      var t := tmpB;
      tmpB := tmpA % tmpB;
      tmpA := t;
    }
    d := tmpA;
    NumTheory.GcdIsGcd(a, b);
  }

  /** `lcm(d, a, b)`: `mpz_fdiv_q(a * b, gcd(a, b))`. */
  method Lcm(a: nat, b: nat) returns (d: nat)
    requires a > 0 || b > 0
    ensures Divides(a, d) && Divides(b, d)
    ensures d == NumTheory.Lcm(a, b)
  {
    var prodAb := a * b;
    var gcdAb := Gcd(a, b);
    NumTheory.LcmExact(a, b);
    d := prodAb / gcdAb;
  }

  /** `mod_inverse(i, a, n)`: the extended Euclidean loop on `(r, r')` and
      `(t, t')`, then the two corrections. */
  method ModInverse(a: nat, n: nat) returns (i: int)
    ensures n > 1 && NumTheory.Gcd(a, n) == 1 ==> 0 <= i < n && (a * i) % n == 1
    ensures NumTheory.Gcd(a, n) != 1 ==> i == 0
    ensures i == NumTheory.ModInverse(a, n)
  {
    var r, rPrime, t, tPrime := n as int, a as int, 0, 1;
    NumTheory.ExtEuclidStart(a, n);
    while rPrime != 0
      invariant NumTheory.ExtEuclidInv(a, n, r, rPrime, t, tPrime)
      invariant NumTheory.ExtEuclid(a, n, r, rPrime, t, tPrime) == NumTheory.ExtEuclid(a, n, n, a, 0, 1)
      decreases rPrime
    {
      r, rPrime, t, tPrime := ExtEuclidPass(a, n, r, rPrime, t, tPrime);
    }
    ghost var tEnd := t;
    ExtEuclidDone(a, n, r, t, tPrime);
    if r > 1 {
      t := 0;
    }
    if t < 0 {
      t := t + n;
    }
    i := t;
    assert i == NumTheory.FixUp(n, r, tEnd);
  }

  /** When the loop stops, the fix-ups decide the result. */
  lemma {:induction false} ExtEuclidDone(a: nat, n: nat, r: int, t: int, tp: int)
    requires NumTheory.ExtEuclidInv(a, n, r, 0, t, tp) && NumTheory.ExtEuclidInv(a, n, n, a, 0, 1)
    requires NumTheory.ExtEuclid(a, n, r, 0, t, tp) == NumTheory.ExtEuclid(a, n, n, a, 0, 1)
    ensures NumTheory.ModInverse(a, n) == NumTheory.FixUp(n, r, t)
  {
    var rt := NumTheory.ExtEuclid(a, n, n, a, 0, 1);
    assert rt == (r, t);
    assert NumTheory.ModInverse(a, n) == NumTheory.FixUp(n, rt.0, rt.1);
  }

  /** One pass of `mod_inverse`'s loop: `q = r / r'` (a floor division of
      non-negative values), then `(r, r') = (r', r - q r')` and
      `(t, t') = (t', t - q t')`. */
  method ExtEuclidPass(a: nat, n: nat, r: int, rPrime: int, t: int, tPrime: int)
    returns (r2: int, rPrime2: int, t2: int, tPrime2: int)
    requires NumTheory.ExtEuclidInv(a, n, r, rPrime, t, tPrime) && rPrime > 0
    ensures r2 == rPrime && t2 == tPrime && 0 <= rPrime2 < rPrime
    ensures NumTheory.ExtEuclidInv(a, n, r2, rPrime2, t2, tPrime2)
    ensures NumTheory.ExtEuclid(a, n, r, rPrime, t, tPrime) == NumTheory.ExtEuclid(a, n, r2, rPrime2, t2, tPrime2)
  {
    NumTheory.ExtEuclidStep(a, n, r, rPrime, t, tPrime);
    var q := r / rPrime;
    r2 := rPrime;
    rPrime2 := r - q * rPrime;
    t2 := tPrime;
    tPrime2 := t - q * tPrime;
  }

  /** `pow_mod(o, a, d, n)`: square and multiply. */
  method PowMod(a: int, d: int, n: nat) returns (o: int)
    requires n > 0
    ensures d > 0 ==> 0 <= o < n && o == Pow(a, d) % n
    ensures d <= 0 ==> o == 1
    ensures o == NumTheory.PowMod(a, d, n)
  {
    var v, p, tmpD := 1, a, d;
    while tmpD > 0
      invariant NumTheory.PowModLoop(v, p, tmpD, n) == NumTheory.PowModLoop(1, a, d, n)
      decreases tmpD
    {
      if NumTheory.Odd(tmpD) {
        v := (v * p) % n;
      }
      p := (p * p) % n;
      tmpD := tmpD / 2;
    }
    o := v;
  }

  /** The body of `is_prime`'s `for` loop for witness `a`: `y = a^r mod n`,
      then square while `j <= s - 1` and `y != n - 1`, failing on 1. */
  method Round(n: int, r: nat, s: nat, a: int) returns (pass: bool)
    requires n >= 5
    ensures pass == NumTheory.Round(n, r, s, a)
  {
    var nMin1 := n - 1;
    var y := PowMod(a, r, n);
    if y != 1 && y != nMin1 {
      var j := 1;
      var sMin1 := s - 1;
      while j <= sMin1 && y != nMin1
        invariant NumTheory.Chain(n, y, j, s) == NumTheory.Round(n, r, s, a)
        decreases s - j
      {
        y := PowMod(y, 2, n);
        if y == 1 {
          return false;
        }
        j := j + 1;
      }
      if y != nMin1 {
        return false;
      }
    }
    return true;
  }

  /** The loop at the head of `is_prime`: `r = n - 1, s = 0`, then halve `r`
      while it is even. */
  method Decompose(nMin1: int) returns (s: nat, r: nat)
    requires nMin1 > 0
    ensures (s, r) == NumTheory.Decompose(nMin1)
  {
    r, s := nMin1, 0;
    while NumTheory.Even(r)
      invariant r > 0
      invariant NumTheory.DecomposeLoop(r, s) == NumTheory.Decompose(nMin1)
      decreases r
    {
      s := s + 1;
      r := r / 2;
    }
  }

  /** `is_prime(n, k)`: the short-circuits, the loop writing `n - 1 = 2^s * r`,
      then the rounds. */
  method IsPrime(n: int, k: nat, tape: seq<nat>) returns (res: Option<Drawn<bool>>)
    ensures res == NumTheory.IsPrime(NumTheory.C, n, k, tape)
  {
    if n <= 1 || n == 4 {
      return Some(Drawn(false, tape));
    }
    if n <= 3 {
      return Some(Drawn(true, tape));
    }
    var s, r := Decompose(n - 1);
    res := Rounds(n, r, s, k, tape);
  }

  /** `is_prime`'s `for` loop: `k` rounds, each drawing its witness with
      `mpz_urandomm(n - 3) + 2`; running out of tape yields `None`. */
  method Rounds(n: int, r: nat, s: nat, k: nat, tape: seq<nat>) returns (res: Option<Drawn<bool>>)
    requires n >= 5
    ensures res == NumTheory.Rounds(NumTheory.C, n, r, s, k, tape)
  {
    var i: nat := 0;
    while i < k
      invariant i <= k && i <= |tape|
      invariant NumTheory.Rounds(NumTheory.C, n, r, s, k - i, tape[i..]) == NumTheory.Rounds(NumTheory.C, n, r, s, k, tape)
      decreases k - i
    {
      if i == |tape| {
        return None;
      }
      var nMin3 := n - 3;
      var a := tape[i] % nMin3 + 2;
      var pass := Round(n, r, s, a);
      RoundsStep(n, r, s, k - i, tape, i);
      if !pass {
        return Some(Drawn(false, tape[i + 1..]));
      }
      i := i + 1;
    }
    return Some(Drawn(true, tape[k..]));
  }

  /** One round of `Rounds` on the tape from position `i`. */
  lemma {:induction false} RoundsStep(n: int, r: nat, s: nat, k: nat, tape: seq<nat>, i: nat)
    requires n >= 5 && k > 0 && i < |tape|
    ensures var a := tape[i] % (n - 3) + 2;
            NumTheory.Rounds(NumTheory.C, n, r, s, k, tape[i..])
            == if NumTheory.Round(n, r, s, a) then NumTheory.Rounds(NumTheory.C, n, r, s, k - 1, tape[i + 1..])
               else Some(Drawn(false, tape[i + 1..]))
  {
    assert tape[i..][0] == tape[i] && tape[i..][1..] == tape[i + 1..];
  }

  /** `make_prime(p, bits, k)`: the inner `do` loop draws
      `mpz_urandomb(bits - 1) + (2^bits - 2^(bits-1))` until it is odd, the
      outer one repeats until `is_prime` accepts. */
  method MakePrime(bits: nat, k: nat, tape: seq<nat>) returns (res: Option<Drawn<int>>)
    requires bits >= 1
    ensures res == NumTheory.MakePrime(NumTheory.C, bits, k, tape)
  {
    ghost var goal := NumTheory.MakePrime(NumTheory.C, bits, k, tape);
    var lower := Pow(2, bits - 1);
    var upper := Pow(2, bits);
    var normalize := upper - lower;
    var pos := 0;
    while true
      invariant pos <= |tape|
      invariant NumTheory.MakePrime(NumTheory.C, bits, k, tape[pos..]) == goal
      decreases |tape| - pos
    {
      var found, p, next := DrawOdd(bits, k, tape, pos, lower, normalize);
      if !found {
        return None;
      }
      pos := next;
      var t := IsPrime(p, k, tape[pos..]);
      MakePrimeTested(bits, k, tape, pos, p);
      if t.None? {
        return None;
      }
      if t.value.value {
        return Some(Drawn(p, t.value.rest));
      }
      MakePrimeRejected(bits, k, tape, pos, p, t.value.rest);
      pos := |tape| - |t.value.rest|;
      assert tape[pos..] == t.value.rest;
    }
  }

  /** The inner `do` loop of `make_prime`: draw candidates from position
      `pos0` until one is odd. Even candidates are skipped without a test,
      so the search from `pos0` is the search from the odd one; when the
      tape runs out first, the search finds nothing. */
  method DrawOdd(bits: nat, k: nat, tape: seq<nat>, pos0: nat, lower: int, normalize: int)
    returns (found: bool, p: int, pos: nat)
    requires bits >= 1 && pos0 <= |tape|
    requires lower == Pow(2, bits - 1) && normalize == Pow(2, bits) - lower
    ensures found ==> pos0 < pos <= |tape| && NumTheory.Odd(p)
    ensures found ==> p == NumTheory.Candidate(NumTheory.C, bits, tape[pos - 1])
    ensures found ==> NumTheory.MakePrime(NumTheory.C, bits, k, tape[pos0..]) == NumTheory.MakePrime(NumTheory.C, bits, k, tape[pos - 1..])
    ensures !found ==> NumTheory.MakePrime(NumTheory.C, bits, k, tape[pos0..]).None?
  {
    ghost var goal := NumTheory.MakePrime(NumTheory.C, bits, k, tape[pos0..]);
    pos := pos0;
    p := 0;
    var drawn := false;
    ghost var from := pos;
    while !drawn || NumTheory.Even(p)
      invariant pos0 <= from <= pos <= |tape|
      invariant drawn ==> pos0 < pos && from == pos - 1 && p == NumTheory.Candidate(NumTheory.C, bits, tape[from])
      invariant !drawn ==> from == pos
      invariant NumTheory.MakePrime(NumTheory.C, bits, k, tape[from..]) == goal
      decreases |tape| - pos
    {
      if drawn {
        MakePrimeSkipsEven(bits, k, tape, from);
        from := pos;
      }
      if pos == |tape| {
        assert tape[pos..] == [];
        return false, p, pos;
      }
      p := DrawCandidate(bits, tape[pos], lower, normalize);
      pos := pos + 1;
      drawn := true;
    }
    found := true;
  }

  /** One candidate: `mpz_urandomb(bits - 1)` plus `2^bits - 2^(bits-1)`. */
  method DrawCandidate(bits: nat, draw: nat, lower: int, normalize: int) returns (p: int)
    requires bits >= 1
    requires lower == Pow(2, bits - 1) && normalize == Pow(2, bits) - lower
    ensures p == NumTheory.Candidate(NumTheory.C, bits, draw)
  {
    p := draw % lower + normalize;
  }

  /** An even candidate is redrawn without a test. */
  lemma {:induction false} MakePrimeSkipsEven(bits: nat, k: nat, tape: seq<nat>, pos: nat)
    requires bits >= 1 && pos < |tape|
    requires NumTheory.Even(NumTheory.Candidate(NumTheory.C, bits, tape[pos]))
    ensures NumTheory.MakePrime(NumTheory.C, bits, k, tape[pos..]) == NumTheory.MakePrime(NumTheory.C, bits, k, tape[pos + 1..])
  {
    assert tape[pos..][0] == tape[pos] && tape[pos..][1..] == tape[pos + 1..];
  }

  /** An odd candidate is tested on the tape after its draw. */
  lemma {:induction false} MakePrimeTested(bits: nat, k: nat, tape: seq<nat>, pos: nat, p: int)
    requires bits >= 1 && 1 <= pos <= |tape|
    requires p == NumTheory.Candidate(NumTheory.C, bits, tape[pos - 1]) && NumTheory.Odd(p)
    ensures var t := NumTheory.IsPrime(NumTheory.C, p, k, tape[pos..]);
            && (t.None? ==> NumTheory.MakePrime(NumTheory.C, bits, k, tape[pos - 1..]).None?)
            && (t.Some? && t.value.value ==> NumTheory.MakePrime(NumTheory.C, bits, k, tape[pos - 1..]) == Some(Drawn(p, t.value.rest)))
  {
    assert tape[pos - 1..][0] == tape[pos - 1] && tape[pos - 1..][1..] == tape[pos..];
  }

  /** A rejected odd candidate hands the rest of the tape to the next try. */
  lemma {:induction false} MakePrimeRejected(bits: nat, k: nat, tape: seq<nat>, pos: nat, p: int, rest: seq<nat>)
    requires bits >= 1 && 1 <= pos <= |tape|
    requires p == NumTheory.Candidate(NumTheory.C, bits, tape[pos - 1]) && NumTheory.Odd(p)
    requires NumTheory.IsPrime(NumTheory.C, p, k, tape[pos..]) == Some(Drawn(false, rest))
    ensures |rest| <= |tape| - pos && tape[|tape| - |rest|..] == rest
    ensures NumTheory.MakePrime(NumTheory.C, bits, k, tape[pos - 1..]) == NumTheory.MakePrime(NumTheory.C, bits, k, rest)
  {
    assert tape[pos - 1..][1..] == tape[pos..];
    assert tape[pos..][|tape[pos..]| - |rest|..] == tape[|tape| - |rest|..];
  }
}
