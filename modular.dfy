/** Integer division, remainders and powers: the arithmetic facts the
    proofs about the RSA tool are built from. Dafny's `%` is Euclidean (the
    remainder is never negative); C's truncating `%` is modelled separately
    by `CRem`. */
module Modular {

  /** `d` divides `n` (for `d == 0`, only 0 is a multiple). */
  predicate Divides(d: nat, n: int) {
    if d == 0 then n == 0 else n % d == 0
  }

  /** C's `%`: the remainder takes the sign of the dividend (the quotient
      is truncated toward zero), and its magnitude is below the divisor's. */
  function CRem(a: int, m: int): (r: int)
    requires m != 0
    ensures r < Abs(m) && -r < Abs(m)
    ensures a >= 0 ==> r == a % m
    ensures a < 0 ==> r <= 0
    ensures m > 0 ==> r % m == a % m
  {
    if a >= 0 then a % m
    else
      var r := -((-a) % m);
      assert m > 0 ==> r % m == a % m by {
        if m > 0 { NegRem(a, m); }
      }
      r
  }

  /** C's `%` by a positive modulus keeps the sign of the dividend. */
  lemma CRemSigne(a: int, m: int)
    requires m > 0
    ensures a <= 0 ==> CRem(a, m) <= 0
    ensures a >= 0 ==> CRem(a, m) >= 0
  {
  }

  function Pow(b: int, e: nat): int
    decreases e
  {
    if e == 0 then 1 else b * Pow(b, e - 1)
  }

  function Abs(x: int): nat {
    if x < 0 then -x else x
  }

  // ---------------------------------------------------------------------
  // Division and remainder

  lemma {:induction false} MulPositive(m: int, k: int)
    requires m > 0
    ensures k >= 1 ==> m * k >= m
    ensures k <= 0 ==> m * k <= 0
    decreases Abs(k)
  {
    if k > 1 {
      MulPositive(m, k - 1);
      assert m * k == m * (k - 1) + m;
    } else if k < 0 {
      MulPositive(m, k + 1);
      assert m * k == m * (k + 1) - m;
    }
  }

  lemma MulAssoc(a: int, b: int, c: int)
    ensures (a * b) * c == a * (b * c)
  {
  }

  /** The quotient and remainder of a division are unique. */
  lemma {:induction false} DivModUnique(x: int, m: int, q: int, r: int)
    requires m > 0 && 0 <= r < m && x == m * q + r
    ensures x / m == q && x % m == r
  {
    var q', r' := x / m, x % m;
    assert x == m * q' + r';
    assert m * (q - q') == r' - r;
    MulPositive(m, q - q');
  }

  lemma {:induction false} ModAddMultiple(s: int, t: int, m: int)
    requires m > 0
    ensures (m * t + s) % m == s % m
    ensures (s + t * m) % m == s % m
  {
    var q, r := s / m, s % m;
    assert m * t + s == m * (t + q) + r;
    DivModUnique(m * t + s, m, t + q, r);
    assert s + t * m == m * t + s;
  }

  lemma {:induction false} ModOfMultiple(m: int, t: int)
    requires m > 0
    ensures (m * t) % m == 0 && (t * m) % m == 0
  {
    ModAddMultiple(0, t, m);
    assert m * t + 0 == m * t;
    assert t * m == m * t;
  }

  lemma {:induction false} NegRem(a: int, m: int)
    requires m > 0 && a < 0
    ensures (-((-a) % m)) % m == a % m
    ensures a % m == 0 <==> (-a) % m == 0
  {
    var q, r := (-a) / m, (-a) % m;
    assert -a == m * q + r;
    if r == 0 {
      DivModUnique(a, m, -q, 0);
      DivModUnique(-r, m, 0, 0);
    } else {
      DivModUnique(a, m, -q - 1, m - r);
      DivModUnique(-r, m, -1, m - r);
    }
  }

  lemma {:induction false} ModMulLeft(a: int, b: int, m: int)
    requires m > 0
    ensures (a * b) % m == ((a % m) * b) % m
  {
    var q := a / m;
    assert a == m * q + a % m;
    assert a * b == m * (q * b) + (a % m) * b by {
      assert a * b == (m * q + a % m) * b;
    }
    ModAddMultiple((a % m) * b, q * b, m);
  }

  /** Multiplication respects remainders in both factors. */
  lemma {:induction false} ModMul(a: int, b: int, m: int)
    requires m > 0
    ensures (a * b) % m == ((a % m) * (b % m)) % m
  {
    ModMulLeft(a, b, m);
    ModMulLeft(b, a % m, m);
    assert b * (a % m) == (a % m) * b;
    assert (b % m) * (a % m) == (a % m) * (b % m);
  }

  lemma {:induction false} ModAdd(a: int, b: int, m: int)
    requires m > 0
    ensures (a + b) % m == ((a % m) + (b % m)) % m
  {
    var qa, qb := a / m, b / m;
    assert a + b == m * (qa + qb) + ((a % m) + (b % m));
    ModAddMultiple((a % m) + (b % m), qa + qb, m);
  }

  lemma {:induction false} ModSub(a: int, b: int, m: int)
    requires m > 0
    ensures (a - b) % m == ((a % m) - (b % m)) % m
  {
    var qa, qb := a / m, b / m;
    assert a - b == m * (qa - qb) + ((a % m) - (b % m));
    ModAddMultiple((a % m) - (b % m), qa - qb, m);
  }

  lemma {:induction false} ModMod(a: int, m: int)
    requires m > 0
    ensures (a % m) % m == a % m
  {
    DivModUnique(a % m, m, 0, a % m);
  }

  /** Congruence is the same as divisibility of the difference. */
  lemma {:induction false} CongruentIffDivides(a: int, b: int, m: nat)
    requires m > 0
    ensures a % m == b % m <==> Divides(m, a - b)
  {
    ModSub(a, b, m);
    var d := a % m - b % m;
    assert -(m as int) < d < m;
    if d >= 0 {
      DivModUnique(d, m, 0, d);
    } else {
      DivModUnique(d, m, -1, d + m);
    }
  }

  // ---------------------------------------------------------------------
  // Divisibility

  lemma {:induction false} DividesWitness(d: nat, n: int) returns (k: int)
    requires Divides(d, n)
    ensures n == d * k
  {
    if d == 0 {
      k := 0;
    } else {
      k := n / d;
    }
  }

  lemma {:induction false} DividesMultiple(d: nat, k: int)
    ensures Divides(d, d * k)
  {
    if d > 0 {
      ModOfMultiple(d, k);
    }
  }

  lemma {:induction false} DividesLinear(d: nat, x: int, y: int, a: int, b: int)
    requires Divides(d, x) && Divides(d, y)
    ensures Divides(d, a * x + b * y)
  {
    var kx := DividesWitness(d, x);
    var ky := DividesWitness(d, y);
    assert a * x + b * y == d * (a * kx + b * ky) by {
      assert a * x == d * (a * kx);
      assert b * y == d * (b * ky);
    }
    DividesMultiple(d, a * kx + b * ky);
  }

  lemma {:induction false} DividesMul(d: nat, x: int, a: int)
    requires Divides(d, x)
    ensures Divides(d, a * x) && Divides(d, x * a)
  {
    DividesLinear(d, x, x, a, 0);
    assert a * x + 0 * x == a * x;
    assert x * a == a * x;
  }

  lemma {:induction false} DividesTrans(a: nat, b: nat, c: int)
    requires Divides(a, b) && Divides(b, c)
    ensures Divides(a, c)
  {
    var k := DividesWitness(b, c);
    DividesMul(a, b, k);
    assert c == k * b;
  }

  /** A positive multiple of `d` is at least `d`. */
  lemma {:induction false} DividesLe(d: nat, n: int)
    requires n > 0 && Divides(d, n)
    ensures d <= n
  {
    var k := DividesWitness(d, n);
    if d > 0 {
      MulPositive(d, k);
    }
  }

  // ---------------------------------------------------------------------
  // Powers

  lemma {:induction false} PowAdd(b: int, x: nat, y: nat)
    ensures Pow(b, x + y) == Pow(b, x) * Pow(b, y)
    decreases x
  {
    if x > 0 {
      PowAdd(b, x - 1, y);
      assert Pow(b, x + y) == b * Pow(b, x - 1 + y);
      assert b * (Pow(b, x - 1) * Pow(b, y)) == (b * Pow(b, x - 1)) * Pow(b, y);
    }
  }

  lemma {:induction false} PowMul(b: int, x: nat, y: nat)
    ensures Pow(b, x * y) == Pow(Pow(b, x), y)
    decreases y
  {
    if y > 0 {
      PowMul(b, x, y - 1);
      assert x * y == x * (y - 1) + x;
      PowAdd(b, x * (y - 1), x);
      assert Pow(b, x * y) == Pow(Pow(b, x), y - 1) * Pow(b, x);
    }
  }

  lemma {:induction false} PowSquare(b: int, k: nat)
    ensures Pow(b * b, k) == Pow(b, 2 * k)
  {
    PowMul(b, 2, k);
    assert Pow(b, 2) == b * b by {
      assert Pow(b, 1) == b * Pow(b, 0);
    }
  }

  lemma {:induction false} PowNonNeg(b: int, e: nat)
    requires b >= 0
    ensures Pow(b, e) >= 0
    decreases e
  {
    if e > 0 {
      PowNonNeg(b, e - 1);
    }
  }

  lemma {:induction false} PowProduct(a: int, b: int, e: nat)
    ensures Pow(a * b, e) == Pow(a, e) * Pow(b, e)
    decreases e
  {
    if e > 0 {
      PowProduct(a, b, e - 1);
      MulRearrange(a, b, Pow(a, e - 1), Pow(b, e - 1));
    }
  }

  lemma MulRearrange(a: int, b: int, x: int, y: int)
    ensures (a * b) * (x * y) == (a * x) * (b * y)
  {
  }

  /** Powers respect remainders. */
  lemma {:induction false} PowMod(b: int, e: nat, m: int)
    requires m > 0
    ensures Pow(b % m, e) % m == Pow(b, e) % m
    decreases e
  {
    if e > 0 {
      PowMod(b, e - 1, m);
      calc {
        Pow(b % m, e) % m;
        ((b % m) * Pow(b % m, e - 1)) % m;
        { ModMul(b % m, Pow(b % m, e - 1), m); }
        (((b % m) % m) * (Pow(b % m, e - 1) % m)) % m;
        { ModMod(b, m); }
        ((b % m) * (Pow(b, e - 1) % m)) % m;
        { ModMul(b, Pow(b, e - 1), m); }
        (b * Pow(b, e - 1)) % m;
      }
    }
  }

  /** A power of a number congruent to 1 is congruent to 1. */
  lemma {:induction false} PowOneMod(b: int, e: nat, m: int)
    requires m > 1 && b % m == 1
    ensures Pow(b, e) % m == 1
  {
    PowMod(b, e, m);
    PowOfOne(e);
    DivModUnique(1, m, 0, 1);
  }

  lemma {:induction false} PowOfOne(e: nat)
    ensures Pow(1, e) == 1
    decreases e
  {
    if e > 0 {
      PowOfOne(e - 1);
    }
  }

  lemma {:induction false} PowOfZero(e: nat)
    requires e > 0
    ensures Pow(0, e) == 0
  {
  }

  lemma {:induction false} DividesPow(d: nat, b: int, e: nat)
    requires e > 0 && Divides(d, b)
    ensures Divides(d, Pow(b, e))
  {
    DividesMul(d, b, Pow(b, e - 1));
  }
}
