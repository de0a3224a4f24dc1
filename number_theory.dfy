/** Greatest common divisors and primes: the specifications that the RSA
    tool's `pgcd`, `inverse_modulaire` and `estPremier` are proved against. */
module NumberTheory {
  import opened Modular

  /** Euclid's recursion; the value every correct gcd routine computes. */
  function Gcd(a: nat, b: nat): nat
    decreases b
  {
    if b == 0 then a else Gcd(b, a % b)
  }

  ghost predicate IsPrime(n: int) {
    n >= 2 && forall d :: 1 < d < n ==> !Divides(d, n)
  }

  /** `n` is the square of a prime `f` with f % 6 == 5: the composites that
      the trial-division loop of `estPremier` lets through. */
  ghost predicate IsSquareOfPrime5Mod6(n: int) {
    exists f :: IsPrime(f) && f % 6 == 5 && n == Square(f)
  }

  function Square(f: int): int {
    f * f
  }

  // ---------------------------------------------------------------------
  // The gcd is a common divisor, the greatest one, and a linear combination

  lemma {:induction false} GcdDivides(a: nat, b: nat)
    ensures Divides(Gcd(a, b), a) && Divides(Gcd(a, b), b)
    decreases b
  {
    if b > 0 {
      GcdDivides(b, a % b);
      assert a == (a / b) * b + 1 * (a % b);
      DividesLinear(Gcd(a, b), b, a % b, a / b, 1);
    } else {
      DividesMultiple(a, 1);
      DividesMultiple(a, 0);
    }
  }

  lemma {:induction false} GcdGreatest(a: nat, b: nat, d: nat)
    requires Divides(d, a) && Divides(d, b)
    ensures Divides(d, Gcd(a, b))
    decreases b
  {
    if b > 0 {
      assert a % b == 1 * a + (-(a / b)) * b;
      DividesLinear(d, a, b, 1, -(a / b));
      GcdGreatest(b, a % b, d);
    }
  }

  /** Bezout's identity: the gcd is an integer combination of the inputs. */
  lemma {:induction false} Bezout(a: nat, b: nat) returns (x: int, y: int)
    ensures a * x + b * y == Gcd(a, b)
    decreases b
  {
    if b == 0 {
      x, y := 1, 0;
    } else {
      var x', y' := Bezout(b, a % b);
      x, y := y', x' - (a / b) * y';
      BezoutStep(a, b, a / b, a % b, x', y');
    }
  }

  lemma BezoutStep(a: int, b: int, q: int, rem: int, x': int, y': int)
    requires a == b * q + rem
    ensures a * y' + b * (x' - q * y') == b * x' + rem * y'
  {
  }

  lemma {:induction false} GcdPositive(a: nat, b: nat)
    requires a > 0 || b > 0
    ensures Gcd(a, b) > 0
  {
    GcdDivides(a, b);
  }

  lemma {:induction false} GcdComm(a: nat, b: nat)
    ensures Gcd(a, b) == Gcd(b, a)
  {
    GcdDivides(a, b);
    GcdDivides(b, a);
    GcdGreatest(b, a, Gcd(a, b));
    GcdGreatest(a, b, Gcd(b, a));
    if a > 0 || b > 0 {
      GcdPositive(a, b);
      GcdPositive(b, a);
      DividesLe(Gcd(a, b), Gcd(b, a));
      DividesLe(Gcd(b, a), Gcd(a, b));
    }
  }

  /** Gauss's lemma: a divisor coprime to one factor divides the other. */
  lemma {:induction false} Gauss(d: nat, a: nat, m: int)
    requires Gcd(d, a) == 1 && Divides(d, a * m)
    ensures Divides(d, m)
  {
    var x, y := Bezout(d, a);
    GaussCombination(d, a, m, x, y);
    DividesMultiple(d, 1);
    assert d * 1 == d;
    DividesLinear(d, d, a * m, x * m, y);
  }

  lemma GaussCombination(d: int, a: int, m: int, x: int, y: int)
    requires d * x + a * y == 1
    ensures m == (x * m) * d + y * (a * m)
  {
    assert m == (d * x + a * y) * m;
  }

  lemma {:induction false} MulCancel(p: int, a: int, b: int)
    requires p > 0 && p * a == p * b
    ensures a == b
  {
    assert p * (a - b) == 0;
    MulPositive(p, a - b);
    MulPositive(p, b - a);
    assert p * (b - a) == 0;
  }

  // ---------------------------------------------------------------------
  // Primes

  /** A prime shares no factor with a number it does not divide. */
  lemma {:induction false} PrimeGcd(p: nat, a: nat)
    requires IsPrime(p)
    ensures Gcd(p, a) == 1 || Divides(p, a)
  {
    var g := Gcd(p, a);
    GcdDivides(p, a);
    GcdPositive(p, a);
    DividesLe(g, p);
  }

  /** Euclid's lemma. */
  lemma {:induction false} EuclidLemma(p: nat, a: nat, b: int)
    requires IsPrime(p) && Divides(p, a * b)
    ensures Divides(p, a) || Divides(p, b)
  {
    PrimeGcd(p, a);
    if !Divides(p, a) {
      Gauss(p, a, b);
    }
  }

  /** Two distinct primes divide a number only together with their product. */
  lemma {:induction false} DistinctPrimesDivide(p: nat, q: nat, x: int)
    requires IsPrime(p) && IsPrime(q) && p != q
    requires Divides(p, x) && Divides(q, x)
    ensures Divides(p * q, x)
  {
    var s := DividesWitness(p, x);
    PrimeGcd(q, p);
    if Divides(q, p) {
      DividesLe(q, p);
    }
    Gauss(q, p, s);
    var t := DividesWitness(q, s);
    assert x == (p * q) * t;
    DividesMultiple(p * q, t);
  }

  /** The only divisor strictly between 1 and p*p of a prime's square is p. */
  lemma {:induction false} PrimeSquareDivisor(p: nat, d: nat)
    requires IsPrime(p) && 1 < d < p * p && Divides(d, p * p)
    ensures d == p
  {
    PrimeGcd(p, d);
    if Divides(p, d) {
      var k := DividesWitness(p, d);
      var j := DividesWitness(d, p * p);
      assert p * p == p * (k * j);
      MulCancel(p, p, k * j);
      assert Divides(k, p) by {
        assert p == k * j;
        if k != 0 { ModOfMultiple(k, j); }
      }
      assert k >= 1 by { MulPositive(p, k); }
      DividesLe(k, p);
    } else {
      GcdComm(p, d);
      Gauss(d, p, p);
      DividesLe(d, p);
    }
  }

  /** A composite number has a divisor no larger than its square root. */
  lemma {:induction false} SmallDivisor(n: int) returns (d: int)
    requires n >= 2 && !IsPrime(n)
    ensures 1 < d && d * d <= n && Divides(d, n)
  {
    var e :| 1 < e < n && Divides(e, n);
    var k := DividesWitness(e, n);
    MulPositive(e, k);
    assert 2 <= k;
    assert Divides(k, n) by {
      assert n == e * k;
      ModOfMultiple(k, e);
    }
    if e * e <= n {
      d := e;
    } else {
      MulMonotone(e, k, e);
      assert k < e;
      MulMonotone(k, e, k);
      d := k;
    }
  }

  lemma MulMonotone(a: int, b: int, c: int)
    requires c >= 0
    ensures a <= b ==> a * c <= b * c
  {
    if a <= b && c > 0 {
      MulPositive(c, b - a);
      assert b * c - a * c == c * (b - a);
    }
  }
}
