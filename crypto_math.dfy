/** The arithmetic routines of the RSA tool (src/c/crypto.c): Euclid's gcd,
    the modular inverse by extended Euclid, the 6k±1 primality test and
    square-and-multiply exponentiation. C's `int` and `long long` are
    modelled as unbounded integers: every value these routines see in the
    tool stays far below 2^31. */
module CryptoMath {
  import opened Modular
  import opened NumberTheory

  // ---------------------------------------------------------------------
  // pgcd

  /** `pgcd(a, b)`: Euclid's loop. The result is the greatest common
      divisor: a common divisor that every common divisor divides. */
  method Pgcd(a: int, b: int) returns (r: int)
    requires a >= 0 && b >= 0
    ensures r == Gcd(a, b)
    ensures Divides(r, a) && Divides(r, b)
    ensures forall d: nat :: Divides(d, a) && Divides(d, b) ==> Divides(d, r)
  {
    var x, y := a, b;
    while y != 0
      invariant x >= 0 && y >= 0
      invariant Gcd(x, y) == Gcd(a, b)
      decreases y
    {
      var temp := y;
      y := x % y;
      x := temp;
    }
    r := x;
    GcdDivides(a, b);
    forall d: nat | Divides(d, a) && Divides(d, b)
      ensures Divides(d, r)
    {
      GcdGreatest(a, b, d);
    }
  }

  // ---------------------------------------------------------------------
  // inverse_modulaire

  /** Subtracting a non-negative multiple of a coefficient of the opposite
      sign adds magnitudes, and keeps the signs opposite. */
  lemma {:induction false} OppositeSigns(t: int, nt: int, q: int)
    requires t * nt <= 0 && q >= 0
    ensures Abs(t - q * nt) == Abs(t) + q * Abs(nt)
    ensures nt * (t - q * nt) <= 0
  {
    if nt > 0 {
      MulPositive(nt, t);
      assert t * nt == nt * t;
      MulMonotone(0, q, nt);
      MulPositive(nt, t - q * nt);
    } else if nt < 0 {
      MulPositive(-nt, -t);
      assert t * nt == (-nt) * (-t);
      MulMonotone(0, q, -nt);
      MulMonotone(0, t - q * nt, -nt);
      assert nt * (t - q * nt) == -((t - q * nt) * (-nt));
    }
  }

  lemma WeightedSumStep(a: int, b: int, r: int, nr: int, q: int)
    ensures b * (r - q * nr) + (a + q * b) * nr == a * nr + b * r
  {
  }

  /** One step of extended Euclid keeps the two coefficient magnitudes
      weighted by the remainders summing to `phi`, with opposite signs. */
  lemma {:induction false} ExtendedEuclidStep(t: int, nt: int, r: int, nr: int, q: int, phi: int)
    requires nr > 0 && r >= 0 && q == r / nr
    requires Abs(t) * nr + Abs(nt) * r == phi && t * nt <= 0
    ensures Abs(nt) * (r - q * nr) + Abs(t - q * nt) * nr == phi
    ensures nt * (t - q * nt) <= 0
  {
    OppositeSigns(t, nt, q);
    WeightedSumStep(Abs(t), Abs(nt), r, nr, q);
  }

  lemma RemainderStep(r: int, nr: int, q: int)
    requires nr > 0 && q == r / nr
    ensures r - q * nr == r % nr
  {
  }

  /** The congruences t * e == r (mod phi) of extended Euclid survive a
      step. */
  lemma {:induction false} CongruenceStep(e: int, phi: nat, t: int, nt: int, r: int, nr: int, q: int)
    requires Divides(phi, t * e - r) && Divides(phi, nt * e - nr)
    ensures Divides(phi, (t - q * nt) * e - (r - q * nr))
  {
    StepIsLinear(t, nt, r, nr, q, e);
    DividesLinear(phi, t * e - r, nt * e - nr, 1, -q);
  }

  lemma {:induction false} WeightedTermBound(a: nat, x: nat, b: nat, y: int, s: int)
    requires y >= 1 && a * x + b * y == s
    ensures b <= s
  {
    MulMonotone(0, a, x);
    MulMonotone(1, y, b);
  }

  lemma StepIsLinear(t: int, nt: int, r: int, nr: int, q: int, e: int)
    ensures (t - q * nt) * e - (r - q * nr) == 1 * (t * e - r) + (-q) * (nt * e - nr)
  {
  }

  /** `inverse_modulaire(e, phi)`: returns -1 exactly when e and phi share
      a factor; otherwise the inverse of e modulo phi, in [0, phi). */
  method InverseModulaire(e: int, phi: int) returns (inv: int)
    requires e >= 0 && phi > 1
    ensures inv == -1 <==> Gcd(e, phi) > 1
    ensures inv != -1 ==> 0 <= inv < phi && (e * inv) % phi == 1
  {
    var t, nouveauT := 0, 1;
    var r, nouveauR := phi, e;
    assert Divides(phi, t * e - r) by { DividesMultiple(phi, -1); }
    while nouveauR != 0
      invariant r >= 1 && nouveauR >= 0 && Gcd(r, nouveauR) == Gcd(phi, e)
      invariant Divides(phi, t * e - r) && Divides(phi, nouveauT * e - nouveauR)
      invariant Abs(t) * nouveauR + Abs(nouveauT) * r == phi && t * nouveauT <= 0
      invariant Abs(t) <= phi
      decreases nouveauR
    {
      var quotient := r / nouveauR;
      RemainderStep(r, nouveauR, quotient);
      CongruenceStep(e, phi, t, nouveauT, r, nouveauR, quotient);
      ExtendedEuclidStep(t, nouveauT, r, nouveauR, quotient, phi);
      WeightedTermBound(Abs(t), nouveauR, Abs(nouveauT), r, phi);

      var tempT := t;
      t := nouveauT;
      nouveauT := tempT - quotient * nouveauT;

      var tempR := r;
      r := nouveauR;
      nouveauR := tempR - quotient * nouveauR;
    }
    GcdComm(phi, e);
    if r > 1 {
      return -1;
    }
    NormalisedInverse(e, phi, t);
    if t < 0 {
      t := t + phi;
    }
    inv := t;
  }

  /** The last coefficient, brought into [0, phi) as `inverse_modulaire`
      does, is the inverse: it lies in (-phi, phi], and phi itself is
      excluded because e * phi is not 1 modulo phi. */
  lemma {:induction false} NormalisedInverse(e: int, phi: int, t: int)
    requires phi > 1 && Abs(t) <= phi && Divides(phi, t * e - 1)
    ensures t >= 0 ==> t < phi && (e * t) % phi == 1
    ensures t < 0 ==> 0 <= t + phi < phi && (e * (t + phi)) % phi == 1
  {
    assert (t * e) % phi == 1 by {
      CongruentIffDivides(t * e, 1, phi);
      DivModUnique(1, phi, 0, 1);
    }
    assert t != phi by {
      ModOfMultiple(phi, e);
    }
    assert t != -phi by {
      ModOfMultiple(phi, -e);
      assert (-phi) * e == phi * (-e);
    }
    if t >= 0 {
      assert e * t == t * e;
    } else {
      ModAddMultiple(t * e, e, phi);
      assert e * (t + phi) == t * e + e * phi;
    }
  }

  // ---------------------------------------------------------------------
  // estPremier

  /** Remainders modulo 6 decide remainders modulo 2 and 3. */
  lemma {:induction false} Mod6(d: int)
    ensures d % 6 == 0 || d % 6 == 2 || d % 6 == 4 ==> d % 2 == 0
    ensures d % 6 == 3 ==> d % 3 == 0
  {
    var q, r := d / 6, d % 6;
    assert d == 6 * q + r;
    if r == 0 || r == 2 || r == 4 {
      DivModUnique(d, 2, 3 * q + r / 2, 0);
    } else if r == 3 {
      DivModUnique(d, 3, 2 * q + 1, 0);
    }
  }

  /** Between two visits of the loop, only i and i + 2 are of the form
      6k + 1 or 6k + 5. */
  lemma {:induction false} SkippedCandidate(i: int, d: int)
    requires i % 6 == 5 && i < d < i + 6 && d != i + 2
    ensures d % 6 != 1 && d % 6 != 5
  {
    DivModUnique(d, 6, i / 6 + 1, d - i - 1);
  }

  /** The loop only visits i and i + 2 with i % 6 == 5; every other
      candidate below i + 6 is even or a multiple of 3. */
  lemma {:induction false} NoOtherFactor(n: int, d: int)
    requires n % 2 != 0 && n % 3 != 0 && d > 1
    requires d % 6 != 1 && d % 6 != 5
    ensures !Divides(d, n)
  {
    Mod6(d);
    if Divides(d, n) {
      if d % 2 == 0 {
        DividesTrans(2, d, n);
      } else {
        DividesTrans(3, d, n);
      }
    }
  }

  /** Small primes, checked by cases. */
  lemma SmallPrimes()
    ensures IsPrime(2) && IsPrime(3) && IsPrime(5) && IsPrime(11)
  {
    forall d | 1 < d < 11
      ensures !Divides(d, 11)
    {
      assert d == 2 || d == 3 || d == 4 || d == 5 || d == 6 || d == 7 || d == 8 || d == 9 || d == 10;
    }
    forall d | 1 < d < 5
      ensures !Divides(d, 5)
    {
      assert d == 2 || d == 3 || d == 4;
    }
  }

  /** A number the loop would accept with no small factor and n == i*i is
      the square of a prime i, and i % 6 == 5. */
  lemma {:induction false} SquareOfLoopIndex(n: int, i: int)
    requires i >= 5 && i % 6 == 5 && n == i * i
    requires forall d :: 1 < d < i ==> !Divides(d, n)
    ensures IsSquareOfPrime5Mod6(n)
  {
    forall e | 1 < e < i
      ensures !Divides(e, i)
    {
      if Divides(e, i) {
        DividesMul(e, i, i);
      }
    }
    assert IsPrime(i);
    assert n == Square(i);
  }

  /** The only factor strictly between 1 and n of the square n of a prime
      f is f itself, so it squares to n and is 5 modulo 6. */
  lemma {:induction false} SquareOnlyFactor(n: int, d: int)
    requires IsSquareOfPrime5Mod6(n) && 1 < d < n && Divides(d, n)
    ensures d * d == n && d % 6 == 5
  {
    var f :| IsPrime(f) && f % 6 == 5 && n == Square(f);
    PrimeSquareDivisor(f, d);
  }

  /** A factor i or i + 2 found by the loop while i * i < n rules out the
      squares of primes 5 modulo 6. */
  lemma {:induction false} TriedFactorNotSquare(n: int, i: int)
    requires i >= 5 && i % 6 == 5 && i * i < n
    requires Divides(i, n) || Divides(i + 2, n)
    ensures !IsSquareOfPrime5Mod6(n)
  {
    MulMonotone(5, i, i);
    DivModUnique(i + 2, 6, i / 6 + 1, 1);
    if IsSquareOfPrime5Mod6(n) {
      if Divides(i, n) {
        SquareOnlyFactor(n, i);
      } else {
        SquareOnlyFactor(n, i + 2);
      }
    }
  }

  /** A prime's square is at least 4, and n % 2 or n % 3 rejects only
      composites. */
  lemma {:induction false} NotSquareOfPrimeSmall(n: int)
    requires n < 25 || Divides(2, n) || Divides(3, n)
    ensures !IsSquareOfPrime5Mod6(n)
  {
    if IsSquareOfPrime5Mod6(n) {
      var f :| IsPrime(f) && f % 6 == 5 && n == Square(f);
      assert f >= 5;
      MulMonotone(5, f, f);
      MulMonotone(5, f, 5);
      if Divides(2, n) {
        PrimeSquareDivisor(f, 2);
      } else if Divides(3, n) {
        PrimeSquareDivisor(f, 3);
      }
    }
  }

  /** The cases `estPremier` settles before its loop. */
  lemma {:induction false} SmallCases(n: int)
    ensures n < 2 ==> !IsPrime(n) && !IsSquareOfPrime5Mod6(n)
    ensures 2 <= n <= 3 ==> IsPrime(n)
    ensures n > 3 && (n % 2 == 0 || n % 3 == 0) ==> !IsPrime(n) && !IsSquareOfPrime5Mod6(n)
  {
    SmallPrimes();
    if n < 2 || (n > 3 && (n % 2 == 0 || n % 3 == 0)) {
      assert n < 2 || Divides(2, n) || Divides(3, n);
      NotSquareOfPrimeSmall(n);
    }
  }

  /** While i * i <= n, both candidates i and i + 2 lie strictly below n. */
  lemma {:induction false} CandidatesBelow(n: int, i: int)
    requires i >= 5 && i * i <= n
    ensures i + 2 < n
  {
    MulMonotone(5, i, i);
  }

  /** One round of the loop: once i and i + 2 are ruled out, no factor is
      left below i + 6. */
  lemma {:induction false} TrialRound(n: int, i: int)
    requires n % 2 != 0 && n % 3 != 0 && i >= 5 && i % 6 == 5
    requires forall d :: 1 < d < i ==> !Divides(d, n)
    requires !Divides(i, n) && !Divides(i + 2, n)
    ensures forall d :: 1 < d < i + 6 ==> !Divides(d, n)
    ensures (i + 6) % 6 == 5
  {
    DivModUnique(i + 6, 6, i / 6 + 1, 5);
    forall d | i < d < i + 6 && d != i + 2
      ensures !Divides(d, n)
    {
      SkippedCandidate(i, d);
      NoOtherFactor(n, d);
    }
  }

  /** A factor i or i + 2 found while i * i <= n makes n composite. */
  lemma {:induction false} TriedFactorNotPrime(n: int, i: int)
    requires i >= 5 && i * i <= n
    requires Divides(i, n) || Divides(i + 2, n)
    ensures !IsPrime(n)
  {
    CandidatesBelow(n, i);
  }

  /** Trial division up to the square root suffices. */
  lemma {:induction false} NoFactorBelowRoot(n: int, i: int)
    requires 2 <= n < i * i && i >= 0
    requires forall d :: 1 < d < i ==> !Divides(d, n)
    ensures IsPrime(n)
  {
    if !IsPrime(n) {
      var d := SmallDivisor(n);
      MulMonotone(i, d, d);
      MulMonotone(i, d, i);
    }
  }

  /** `estPremier(n)` as written, with the loop test `i * i < n`. It
      rejects only composites, but it also accepts the square of every
      prime f with f % 6 == 5 (25, 121, 289, ...): for n == f * f the loop
      stops at i == f before trying it. */
  method EstPremier(n: int) returns (premier: bool)
    ensures n < 2 ==> !premier
    ensures 2 <= n <= 3 ==> premier
    ensures n > 3 && (n % 2 == 0 || n % 3 == 0) ==> !premier
    ensures premier <==> IsPrime(n) || IsSquareOfPrime5Mod6(n)
  {
    SmallCases(n);
    if n < 2 {
      return false;
    }
    if n <= 3 {
      return true;
    }
    if n % 2 == 0 || n % 3 == 0 {
      return false;
    }
    var i := 5;
    while i * i < n
      invariant i >= 5 && i % 6 == 5
      invariant forall d :: 1 < d < i ==> !Divides(d, n)
      decreases n - i
    {
      CandidatesBelow(n, i);
      if n % i == 0 || n % (i + 2) == 0 {
        TriedFactorNotPrime(n, i);
        TriedFactorNotSquare(n, i);
        return false;
      }
      TrialRound(n, i);
      i := i + 6;
    }
    if n < i * i {
      NoFactorBelowRoot(n, i);
    } else {
      SquareOfLoopIndex(n, i);
    }
    return true;
  }

  /** 121 = 11 * 11 passes `estPremier` as written: its only factor 11 is
      the loop index at which `i * i < n` first fails. */
  lemma EstPremierAccepte121()
    ensures IsSquareOfPrime5Mod6(121) && !IsPrime(121)
  {
    SmallPrimes();
    assert 121 == Square(11);
    assert Divides(11, 121);
  }

  /** `estPremier` with the loop test `i * i <= n`, as the comment "up to
      √n" intends: it accepts exactly the primes. */
  method EstPremierCorrige(n: int) returns (premier: bool)
    ensures premier <==> IsPrime(n)
  {
    SmallCases(n);
    if n < 2 {
      return false;
    }
    if n <= 3 {
      return true;
    }
    if n % 2 == 0 || n % 3 == 0 {
      return false;
    }
    var i := 5;
    while i * i <= n
      invariant i >= 5 && i % 6 == 5
      invariant forall d :: 1 < d < i ==> !Divides(d, n)
      decreases n - i
    {
      CandidatesBelow(n, i);
      if n % i == 0 || n % (i + 2) == 0 {
        TriedFactorNotPrime(n, i);
        return false;
      }
      TrialRound(n, i);
      i := i + 6;
    }
    NoFactorBelowRoot(n, i);
    return true;
  }

  // ---------------------------------------------------------------------
  // exp_modulaire

  /** The value the square-and-multiply loop of `exp_modulaire` reaches from
      the accumulator `res`, the running square `b` and the remaining
      exponent `x`; C's truncating `%` throughout. */
  function SquareMultiply(res: int, b: int, x: int, m: int): int
    requires m != 0
    decreases if x > 0 then x else 0
  {
    if x <= 0 then res
    else SquareMultiply(if x % 2 == 1 then CRem(res * b, m) else res, CRem(b * b, m), x / 2, m)
  }

  /** `exp_modulaire(base, exp, mod)` as a value: the loop started with
      resultat = 1 and base reduced by C's `%`. */
  function ExpMod(base: int, exp: int, m: int): int
    requires m != 0
  {
    SquareMultiply(1, CRem(base, m), exp, m)
  }

  /** The loop invariant of `exp_modulaire`: resultat * base^exp stays
      congruent to the original power, and the values stay in (-m, m). */
  lemma {:induction false} SquareMultiplyCorrect(res: int, b: int, x: int, m: int)
    requires m > 0 && x > 0 && -m < b < m && (res == 1 || -m < res < m)
    ensures SquareMultiply(res, b, x, m) % m == (res * Pow(b, x)) % m
    ensures -m < SquareMultiply(res, b, x, m) < m
    ensures b >= 0 && res >= 0 ==> SquareMultiply(res, b, x, m) >= 0
    decreases x
  {
    var res' := if x % 2 == 1 then CRem(res * b, m) else res;
    var b' := CRem(b * b, m);
    var k := x / 2;
    assert x == 2 * k + x % 2;
    var bit := if x % 2 == 1 then b else 1;
    assert Pow(b, x) == bit * Pow(b * b, k) by {
      PowSquare(b, k);
      if x % 2 == 1 {
        assert Pow(b, x) == b * Pow(b, 2 * k);
      }
    }
    assert res' % m == (res * bit) % m;
    calc {
      (res' * Pow(b', k)) % m;
      { ModMul(res', Pow(b', k), m); }
      ((res' % m) * (Pow(b', k) % m)) % m;
      { PowMod(b', k, m); PowMod(b * b, k, m); }
      (((res * bit) % m) * (Pow(b * b, k) % m)) % m;
      { ModMul(res * bit, Pow(b * b, k), m); }
      ((res * bit) * Pow(b * b, k)) % m;
      { MulAssoc(res, bit, Pow(b * b, k)); }
      (res * Pow(b, x)) % m;
    }
    if k > 0 {
      SquareMultiplyCorrect(res', b', k, m);
    } else {
      assert x == 1;
      assert Pow(b', 0) == 1;
      assert res' * 1 == res';
    }
  }

  /** What `exp_modulaire` computes: 1 for exp <= 0 (even when mod == 1),
      otherwise a value congruent to base^exp in (-mod, mod), which for
      base >= 0 is exactly base^exp % mod. */
  lemma {:induction false} ExpModIsPowMod(base: int, exp: int, m: int)
    requires m > 0
    ensures exp <= 0 ==> ExpMod(base, exp, m) == 1
    ensures exp > 0 ==> ExpMod(base, exp, m) % m == Pow(base, exp) % m
    ensures exp > 0 ==> -m < ExpMod(base, exp, m) < m
    ensures exp > 0 && base >= 0 ==> ExpMod(base, exp, m) == Pow(base, exp) % m
  {
    if exp > 0 {
      var b := CRem(base, m);
      SquareMultiplyCorrect(1, b, exp, m);
      assert 1 * Pow(b, exp) == Pow(b, exp);
      PowMod(b, exp, m);
      PowMod(base, exp, m);
      if base >= 0 {
        var r := ExpMod(base, exp, m);
        DivModUnique(r, m, 0, r);
      }
    }
  }

  /** `exp_modulaire(base, exp, mod)`: square-and-multiply. */
  method ExpModulaire(base: int, exp: int, mod: int) returns (resultat: int)
    requires mod != 0
    ensures resultat == ExpMod(base, exp, mod)
    ensures exp <= 0 ==> resultat == 1
    ensures mod > 0 && exp > 0 ==> resultat % mod == Pow(base, exp) % mod
    ensures mod > 0 && exp > 0 && base >= 0 ==> resultat == Pow(base, exp) % mod
  {
    resultat := 1;
    var b := CRem(base, mod);
    var x := exp;
    while x > 0
      invariant SquareMultiply(resultat, b, x, mod) == ExpMod(base, exp, mod)
      decreases x
    {
      if x % 2 == 1 {
        resultat := CRem(resultat * b, mod);
      }
      x := x / 2;
      b := CRem(b * b, mod);
    }
    if mod > 0 {
      ExpModIsPowMod(base, exp, mod);
    } else {
      assert exp <= 0 ==> resultat == 1;
    }
  }
}
