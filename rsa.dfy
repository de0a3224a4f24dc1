/** Why the RSA tool's keys work: Fermat's little theorem (through the
    binomial theorem), the Chinese remainder step for n = p*q, and what it
    means for `exp_modulaire` on the signed bytes the tool encrypts. */
module Rsa {
  import opened Modular
  import opened NumberTheory
  import opened CryptoMath

  function Binom(n: nat, k: nat): nat
    decreases n
  {
    if k == 0 then 1 else if n == 0 then 0 else Binom(n - 1, k - 1) + Binom(n - 1, k)
  }

  /** The partial binomial sum: the terms C(n, k) * x^k for k = 0 .. m. */
  function SommeBinom(n: nat, x: int, m: int): int
    decreases m + 1
  {
    if m < 0 then 0 else SommeBinom(n, x, m - 1) + Binom(n, m) * Pow(x, m)
  }

  // ---------------------------------------------------------------------
  // The binomial theorem, for (x + 1)^n

  lemma {:induction false} BinomAbove(n: nat, k: nat)
    requires k > n
    ensures Binom(n, k) == 0
    decreases n
  {
    if n > 0 {
      BinomAbove(n - 1, k - 1);
      BinomAbove(n - 1, k);
    }
  }

  lemma {:induction false} BinomDiagonal(n: nat)
    ensures Binom(n, n) == 1
    decreases n
  {
    if n > 0 {
      BinomDiagonal(n - 1);
      BinomAbove(n - 1, n);
    }
  }

  lemma ShiftTerm(x: int, c: int, m: nat)
    requires m >= 1
    ensures x * (c * Pow(x, m - 1)) == c * Pow(x, m)
  {
  }

  /** Pascal's rule, summed. */
  lemma {:induction false} SommePascal(n: nat, x: int, m: nat)
    ensures SommeBinom(n + 1, x, m) == SommeBinom(n, x, m) + x * SommeBinom(n, x, m - 1)
    decreases m
  {
    if m > 0 {
      SommePascal(n, x, m - 1);
      var s1, s2 := SommeBinom(n, x, m - 1), SommeBinom(n, x, m - 2);
      var c1, c0 := Binom(n, m - 1), Binom(n, m);
      assert Binom(n + 1, m) == c1 + c0;
      assert SommeBinom(n, x, m) == s1 + c0 * Pow(x, m);
      assert s1 == s2 + c1 * Pow(x, m - 1);
      PascalAlgebra(x, s1, s2, c0, c1, Pow(x, m), Pow(x, m - 1));
    }
  }

  lemma PascalAlgebra(x: int, s1: int, s2: int, c0: int, c1: int, pm: int, pm1: int)
    requires pm == x * pm1
    ensures (s1 + x * s2) + (c1 + c0) * pm == (s1 + c0 * pm) + x * (s2 + c1 * pm1)
  {
  }

  lemma {:induction false} BinomialTheorem(x: int, n: nat)
    ensures Pow(x + 1, n) == SommeBinom(n, x, n)
    decreases n
  {
    if n > 0 {
      BinomialTheorem(x, n - 1);
      SommePascal(n - 1, x, n);
      BinomAbove(n - 1, n);
      var s := SommeBinom(n - 1, x, n - 1);
      assert SommeBinom(n - 1, x, n) == s + Binom(n - 1, n) * Pow(x, n);
      assert SommeBinom(n - 1, x, n) == s;
      Distribute(x, s);
    }
  }

  lemma Distribute(x: int, s: int)
    ensures (x + 1) * s == s + x * s
  {
  }

  // ---------------------------------------------------------------------
  // A prime divides the inner binomial coefficients

  /** k * C(n, k) == n * C(n - 1, k - 1). */
  lemma {:induction false} Absorption(n: nat, k: nat)
    requires n >= 1 && k >= 1
    ensures k * Binom(n, k) == n * Binom(n - 1, k - 1)
    decreases n
  {
    if n == 1 {
      if k > 1 {
        BinomAbove(0, k - 1);
        BinomAbove(0, k);
      }
    } else if k == 1 {
      Absorption(n - 1, 1);
    } else {
      Absorption(n - 1, k);
      Absorption(n - 1, k - 1);
      AbsorptionStep(n, k, Binom(n - 1, k - 1), Binom(n - 1, k), Binom(n - 2, k - 2), Binom(n - 2, k - 1));
    }
  }

  lemma AbsorptionStep(n: int, k: int, a: int, b: int, c: int, d: int)
    requires k * b == (n - 1) * d && (k - 1) * a == (n - 1) * c && a == c + d
    ensures k * (a + b) == n * a
  {
  }

  lemma {:induction false} PrimeDividesBinom(p: nat, k: nat)
    requires IsPrime(p) && 0 < k < p
    ensures Divides(p, Binom(p, k))
  {
    Absorption(p, k);
    DividesMultiple(p, Binom(p - 1, k - 1));
    EuclidLemma(p, k, Binom(p, k));
    if Divides(p, k) {
      DividesLe(p, k);
    }
  }

  /** Below the last term, the binomial sum of a prime is 1 modulo it. */
  lemma {:induction false} SommeBinomPrime(p: nat, x: int, m: nat)
    requires IsPrime(p) && m < p
    ensures Divides(p, SommeBinom(p, x, m) - 1)
    decreases m
  {
    if m == 0 {
      DividesMultiple(p, 0);
    } else {
      SommeBinomPrime(p, x, m - 1);
      PrimeDividesBinom(p, m);
      DividesMul(p, Binom(p, m), Pow(x, m));
      DividesLinear(p, SommeBinom(p, x, m - 1) - 1, Binom(p, m) * Pow(x, m), 1, 1);
    }
  }

  /** (x + 1)^p == x^p + 1 modulo a prime p. */
  lemma {:induction false} FreshmanDream(p: nat, x: int)
    requires IsPrime(p)
    ensures Divides(p, Pow(x + 1, p) - Pow(x, p) - 1)
  {
    BinomialTheorem(x, p);
    BinomDiagonal(p);
    SommeBinomPrime(p, x, p - 1);
    FreshmanAlgebra(p, Pow(x + 1, p), SommeBinom(p, x, p), SommeBinom(p, x, p - 1), Binom(p, p), Pow(x, p));
  }

  lemma FreshmanAlgebra(p: nat, puissance: int, total: int, avant: int, c: int, xp: int)
    requires puissance == total && total == avant + c * xp && c == 1 && Divides(p, avant - 1)
    ensures Divides(p, puissance - xp - 1)
  {
    assert puissance - xp - 1 == avant - 1;
  }

  // ---------------------------------------------------------------------
  // Fermat's little theorem

  lemma {:induction false} FermatNat(p: nat, a: nat)
    requires IsPrime(p)
    ensures Divides(p, Pow(a, p) - a)
    decreases a
  {
    if a == 0 {
      PowOfZero(p);
      DividesMultiple(p, 0);
    } else {
      FermatNat(p, a - 1);
      FreshmanDream(p, a - 1);
      DividesLinear(p, Pow(a, p) - Pow(a - 1, p) - 1, Pow(a - 1, p) - (a - 1), 1, 1);
    }
  }

  lemma {:induction false} Fermat(p: nat, a: int)
    requires IsPrime(p)
    ensures Divides(p, Pow(a, p) - a)
  {
    var r := a % p;
    FermatNat(p, r);
    PowMod(a, p, p);
    ModMod(a, p);
    CongruentIffDivides(Pow(r, p), r, p);
    CongruentIffDivides(Pow(a, p), a, p);
  }

  /** a^(p-1) == 1 modulo p, for a not a multiple of p. */
  lemma {:induction false} FermatLittle(p: nat, a: int)
    requires IsPrime(p) && !Divides(p, a)
    ensures Divides(p, Pow(a, p - 1) - 1)
  {
    Fermat(p, a);
    assert Pow(a, p) - a == a * (Pow(a, p - 1) - 1);
    PrimeGcd(p, Abs(a));
    DividesAbs(p, a);
    GcdAbs(p, a);
    Gauss(p, Abs(a), Pow(a, p - 1) - 1);
  }

  lemma {:induction false} DividesAbs(p: nat, a: int)
    ensures Divides(p, Abs(a)) <==> Divides(p, a)
  {
    if a < 0 {
      if Divides(p, a) {
        DividesMul(p, a, -1);
      }
      if Divides(p, -a) {
        DividesMul(p, -a, -1);
      }
    }
  }

  lemma {:induction false} GcdAbs(p: nat, a: int)
    requires p >= 1 && Divides(p, a * (Pow(a, p - 1) - 1))
    ensures Divides(p, Abs(a) * (Pow(a, p - 1) - 1))
  {
    if a < 0 {
      DividesMul(p, a * (Pow(a, p - 1) - 1), -1);
      assert Abs(a) * (Pow(a, p - 1) - 1) == -1 * (a * (Pow(a, p - 1) - 1));
    }
  }

  /** m^(1 + j(p-1)) == m modulo a prime p, for every m. */
  lemma {:induction false} FermatPower(p: nat, m: int, j: nat)
    requires IsPrime(p)
    ensures Divides(p, Pow(m, 1 + j * (p - 1)) - m)
  {
    var k := j * (p - 1);
    PowAdd(m, 1, k);
    assert Pow(m, 1) == m;
    if Divides(p, m) {
      DividesMul(p, m, Pow(m, k));
      DividesLinear(p, m * Pow(m, k), m, 1, -1);
    } else {
      FermatLittle(p, m);
      PowMul(m, p - 1, j);
      assert j * (p - 1) == (p - 1) * j;
      CongruentIffDivides(Pow(m, p - 1), 1, p);
      DivModUnique(1, p, 0, 1);
      PowOneMod(Pow(m, p - 1), j, p);
      CongruentIffDivides(Pow(m, k), 1, p);
      DividesMul(p, Pow(m, k) - 1, m);
      assert m * Pow(m, k) - m == m * (Pow(m, k) - 1);
    }
  }

  lemma ExponentSplit(k: nat, p: nat, q: nat)
    requires p >= 1 && q >= 1
    ensures 1 + k * ((p - 1) * (q - 1)) == 1 + (k * (q - 1)) * (p - 1)
    ensures 1 + k * ((p - 1) * (q - 1)) == 1 + (k * (p - 1)) * (q - 1)
  {
  }

  /** The heart of RSA: m^(ed) == m modulo n = p*q whenever
      ed == 1 modulo (p-1)(q-1). */
  lemma {:induction false} RsaPower(p: nat, q: nat, m: int, e: nat, d: nat)
    requires IsPrime(p) && IsPrime(q) && p != q
    requires (p - 1) * (q - 1) > 1 && (e * d) % ((p - 1) * (q - 1)) == 1
    ensures Divides(p * q, Pow(m, e * d) - m)
  {
    var jp, jq := ExposantFermat(p, q, e * d);
    FermatDeuxPremiers(p, q, m, e * d, jp, jq);
  }

  /** m^x == m modulo p and modulo q, hence modulo p*q. */
  lemma FermatDeuxPremiers(p: nat, q: nat, m: int, x: nat, jp: nat, jq: nat)
    requires IsPrime(p) && IsPrime(q) && p != q
    requires x == 1 + jp * (p - 1) && x == 1 + jq * (q - 1)
    ensures Divides(p * q, Pow(m, x) - m)
  {
    FermatPower(p, m, jp);
    FermatPower(q, m, jq);
    DistinctPrimesDivide(p, q, Pow(m, x) - m);
  }

  /** An exponent that is 1 modulo (p-1)(q-1) is 1 modulo p-1 and modulo q-1. */
  lemma ExposantFermat(p: nat, q: nat, x: nat) returns (jp: nat, jq: nat)
    requires p >= 1 && q >= 1
    requires (p - 1) * (q - 1) > 1 && x % ((p - 1) * (q - 1)) == 1
    ensures x == 1 + jp * (p - 1) && x == 1 + jq * (q - 1)
  {
    var phi := (p - 1) * (q - 1);
    var k := x / phi;
    assert x == 1 + k * phi;
    assert k >= 0 by {
      if k < 0 {
        MulPositive(phi, k);
      }
    }
    ExponentSplit(k, p, q);
    jp, jq := k * (q - 1), k * (p - 1);
  }

  // ---------------------------------------------------------------------
  // exp_modulaire on signed values

  /** With a non-negative running square, a non-positive accumulator stays
      non-positive. */
  lemma {:induction false} SquareMultiplyNonPositive(res: int, b: int, x: int, m: int)
    requires m > 0 && res <= 0 && b >= 0
    ensures SquareMultiply(res, b, x, m) <= 0
    decreases if x > 0 then x else 0
  {
    if x > 0 {
      var res' := if x % 2 == 1 then CRem(res * b, m) else res;
      MulSign(res, b);
      SquareMultiplyNonPositive(res', CRem(b * b, m), x / 2, m);
    }
  }

  lemma SquareNonNegative(b: int)
    ensures b * b >= 0
  {
  }

  lemma MulSign(a: int, b: int)
    requires a <= 0 && b >= 0
    ensures a * b <= 0
  {
  }

  lemma {:induction false} SquareMultiplyNonNegative(res: int, b: int, x: int, m: int)
    requires m > 0 && res >= 0 && b >= 0
    ensures SquareMultiply(res, b, x, m) >= 0
    decreases if x > 0 then x else 0
  {
    if x > 0 {
      SquareMultiplyNonNegative(if x % 2 == 1 then CRem(res * b, m) else res, CRem(b * b, m), x / 2, m);
    }
  }

  /** `exp_modulaire` of a non-negative base is non-negative. */
  lemma {:induction false} ExpModNonNegative(base: int, exp: int, m: int)
    requires m > 0 && base >= 0
    ensures ExpMod(base, exp, m) >= 0
  {
    SquareMultiplyNonNegative(1, CRem(base, m), exp, m);
  }

  /** `exp_modulaire` of a non-positive base to an odd power is
      non-positive. */
  lemma {:induction false} ExpModOddNonPositive(base: int, exp: int, m: int)
    requires m > 0 && base <= 0 && exp > 0 && exp % 2 == 1
    ensures ExpMod(base, exp, m) <= 0
  {
    var b := CRem(base, m);
    CRemSigne(base, m);
    CRemSigne(b, m);
    SquareNonNegative(b);
    CRemSigne(b * b, m);
    PremierPasImpair(b, exp, m);
    SquareMultiplyNonPositive(CRem(b, m), CRem(b * b, m), exp / 2, m);
  }

  /** The first turn of the loop on an odd exponent multiplies 1 by the base. */
  lemma PremierPasImpair(b: int, x: int, m: int)
    requires m > 0 && x > 0 && x % 2 == 1
    ensures SquareMultiply(1, b, x, m) == SquareMultiply(CRem(b, m), CRem(b * b, m), x / 2, m)
  {
    assert 1 * b == b;
  }

  /** Two values strictly between -n and n on the same side of zero that
      are congruent modulo n are equal. */
  lemma {:induction false} CongruentSameSign(x: int, y: int, n: nat)
    requires n > 0 && -(n as int) < x < n && -(n as int) < y < n
    requires (x >= 0 && y >= 0) || (x <= 0 && y <= 0)
    requires Divides(n, x - y)
    ensures x == y
  {
    var k := DividesWitness(n, x - y);
    MulPositive(n, k);
    MulPositive(n, -k);
    assert n * (-k) == -(n * k);
  }

  /** Encrypting then decrypting with `exp_modulaire` gives back any value
      in (-n, n) for an RSA key pair whose exponents are odd and positive;
      the signed bytes the tool encrypts are such values, since n > 255. */
  lemma {:induction false} RsaExpMod(p: nat, q: nat, e: nat, d: nat, c: int)
    requires IsPrime(p) && IsPrime(q) && p != q
    requires (p - 1) * (q - 1) > 1 && (e * d) % ((p - 1) * (q - 1)) == 1
    requires e > 0 && d > 0 && e % 2 == 1 && d % 2 == 1
    requires -(p * q) < c < p * q
    ensures ExpMod(ExpMod(c, e, p * q), d, p * q) == c
  {
    var n := p * q;
    assert n > 0 by {
      MulPositive(p, q);
    }
    var x := ExpMod(c, e, n);
    var y := ExpMod(x, d, n);
    ExpModIsPowMod(c, e, n);
    ExpModIsPowMod(x, d, n);
    // y == x^d == (c^e)^d == c^(ed) == c modulo n
    PowMod(x, d, n);
    PowMod(Pow(c, e), d, n);
    PowMul(c, e, d);
    RsaPower(p, q, c, e, d);
    CongruentIffDivides(Pow(c, e * d), c, n);
    CongruentIffDivides(y, c, n);
    if c >= 0 {
      ExpModNonNegative(c, e, n);
      ExpModNonNegative(x, d, n);
    } else {
      ExpModOddNonPositive(c, e, n);
      ExpModOddNonPositive(x, d, n);
    }
    CongruentSameSign(y, c, n);
  }
}
