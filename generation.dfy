/** Key generation of the RSA tool: `generer_premier` and `generer_cles`.
    The values `rand()` returns are given as a finite sequence of draws;
    when a loop needs more draws than were given, the operation ends with
    `Epuise` (the real loop would go on drawing). */
module GenerationCles {
  import opened Wrappers
  import opened Fichiers
  import opened Modular
  import opened NumberTheory
  import opened CryptoMath
  import opened CleRsa

  /** `min + rand() % (max - min)`: a draw mapped into [min, max). */
  function Tirage(min: int, max: int, r: nat): int
    requires min < max
  {
    min + r % (max - min)
  }

  /** The numbers the primality test lets through: `estPremier` as written
      accepts the primes and the squares of the primes f with f % 6 == 5;
      with its loop bound corrected (`corrige`), the primes only. */
  ghost predicate Accepte(x: int, corrige: bool) {
    IsPrime(x) || (!corrige && IsSquareOfPrime5Mod6(x))
  }

  /** The first draw the test accepts, with the draws left after it. */
  ghost function PremierTire(min: int, max: int, tirages: seq<nat>, corrige: bool): Option<(int, seq<nat>)>
    requires min < max
    decreases |tirages|
  {
    if tirages == [] then None
    else if Accepte(Tirage(min, max, tirages[0]), corrige) then Some((Tirage(min, max, tirages[0]), tirages[1..]))
    else PremierTire(min, max, tirages[1..], corrige)
  }

  /** `generer_premier(min, max)`: draw until `estPremier` accepts, as
      written or with its loop bound corrected. */
  method GenererPremier(min: int, max: int, tirages: seq<nat>, corrige: bool) returns (p: Option<int>, reste: seq<nat>)
    requires min < max
    ensures PremierTire(min, max, tirages, corrige) == if p.Some? then Some((p.value, reste)) else None
  {
    var i := 0;
    while i < |tirages|
      invariant 0 <= i <= |tirages|
      invariant PremierTire(min, max, tirages, corrige) == PremierTire(min, max, tirages[i..], corrige)
    {
      var candidat := Tirage(min, max, tirages[i]);
      var premier;
      if corrige {
        premier := EstPremierCorrige(candidat);
      } else {
        premier := EstPremier(candidat);
      }
      if premier {
        return Some(candidat), tirages[i + 1..];
      }
      assert tirages[i..][1..] == tirages[i + 1..];
      i := i + 1;
    }
    return None, [];
  }

  /** What `generer_premier` returns lies in [min, max) and passes the
      test, and it consumed at least one draw. */
  lemma {:induction false} PremierTireDans(min: int, max: int, tirages: seq<nat>, corrige: bool)
    requires min < max && PremierTire(min, max, tirages, corrige).Some?
    ensures
      var (p, reste) := PremierTire(min, max, tirages, corrige).value;
      min <= p < max && Accepte(p, corrige) && |reste| < |tirages|
    decreases |tirages|
  {
    if !Accepte(Tirage(min, max, tirages[0]), corrige) {
      PremierTireDans(min, max, tirages[1..], corrige);
    }
  }

  /** In the two ranges `generer_cles` draws from, the test as written lets
      through one composite, 121 = 11 * 11, in [50, 150), and none in
      [150, 250); corrected, it lets through primes only. */
  lemma {:induction false} AccepteDansPlages(x: int, corrige: bool)
    requires Accepte(x, corrige)
    ensures 50 <= x < 150 ==> IsPrime(x) || (!corrige && x == 121)
    ensures 150 <= x < 250 ==> IsPrime(x)
  {
    if !IsPrime(x) {
      var f :| IsPrime(f) && f % 6 == 5 && x == Square(f);
      if 50 <= x < 250 {
        CarreDansPlage(f, x);
      }
    }
  }

  /** The only f with f % 6 == 5 whose square lies in [50, 250) is 11. */
  lemma {:induction false} CarreDansPlage(f: int, x: int)
    requires f >= 2 && f % 6 == 5 && x == Square(f) && 50 <= x < 250
    ensures f == 11 && x == 121
  {
    if f <= 7 {
      MulMonotone(f, 7, f);
      MulMonotone(f, 7, 7);
    } else if f >= 16 {
      MulMonotone(16, f, f);
      MulMonotone(16, f, 16);
    }
  }

  /** The public exponent: 65537 if it is coprime to phi, otherwise
      `3 + rand() % (phi - 3)` drawn until one is. */
  function ExposantTire(phi: int, e: nat, tirages: seq<nat>): Option<nat>
    requires phi > 3
    decreases |tirages|
  {
    if Gcd(e, phi) == 1 then Some(e)
    else if tirages == [] then None
    else ExposantTire(phi, 3 + tirages[0] % (phi - 3), tirages[1..])
  }

  /** The exponent drawn is coprime to phi, and is 65537 or lies in
      [3, phi). */
  lemma {:induction false} ExposantTireCoprime(phi: int, e: nat, tirages: seq<nat>)
    requires phi > 3 && ExposantTire(phi, e, tirages).Some?
    ensures Gcd(ExposantTire(phi, e, tirages).value, phi) == 1
    ensures ExposantTire(phi, e, tirages).value == e || 3 <= ExposantTire(phi, e, tirages).value < phi
    decreases |tirages|
  {
    if Gcd(e, phi) != 1 {
      ExposantTireCoprime(phi, 3 + tirages[0] % (phi - 3), tirages[1..]);
    }
  }

  /** p, q and e as `generer_cles` draws them. */
  datatype Tirees = Tirees(p: int, q: int, e: int)

  ghost function Tirer(tirages: seq<nat>, corrige: bool): Option<Tirees> {
    match PremierTire(50, 150, tirages, corrige)
    case None => None
    case Some((p, r1)) =>
      match PremierTire(150, 250, r1, corrige)
      case None => None
      case Some((q, r2)) =>
        PremierTireDans(50, 150, tirages, corrige);
        PremierTireDans(150, 250, r1, corrige);
        MulMonotone(49, p - 1, q - 1);
        match ExposantTire((p - 1) * (q - 1), 65537, r2)
        case None => None
        case Some(e) => Some(Tirees(p, q, e))
  }

  /** The numbers `generer_cles` draws: p < q from [50, 150) and
      [150, 250), so n = p*q exceeds every byte; q is prime, and so is p
      unless the test as written let 121 through; the exponent is coprime
      to the even phi = (p-1)(q-1), hence odd. */
  lemma {:induction false} TirerRsa(tirages: seq<nat>, corrige: bool)
    requires Tirer(tirages, corrige).Some?
    ensures
      var t := Tirer(tirages, corrige).value;
      var phi := (t.p - 1) * (t.q - 1);
      && 50 <= t.p < 150 <= t.q < 250 && IsPrime(t.q)
      && (IsPrime(t.p) || (!corrige && t.p == 121))
      && t.p * t.q > 255 && phi > 3 && phi % 2 == 0
      && t.e > 0 && t.e % 2 == 1 && Gcd(t.e, phi) == 1
  {
    var (p, r1) := PremierTire(50, 150, tirages, corrige).value;
    var (q, r2) := PremierTire(150, 250, r1, corrige).value;
    PremierTireDans(50, 150, tirages, corrige);
    PremierTireDans(150, 250, r1, corrige);
    AccepteDansPlages(p, corrige);
    AccepteDansPlages(q, corrige);
    OddPrime(q);
    if IsPrime(p) {
      OddPrime(p);
    }
    var phi := (p - 1) * (q - 1);
    MulMonotone(49, p - 1, q - 1);
    ExposantTireCoprime(phi, 65537, r2);
    ProprietesTirees(p, q, ExposantTire(phi, 65537, r2).value);
  }

  /** The draws end `generer_cles` on a true RSA pair: always with the
      corrected test; as written, unless p is 121. */
  ghost predicate TirageRsa(tirages: seq<nat>, corrige: bool) {
    Tirer(tirages, corrige).Some? && (corrige || Tirer(tirages, corrige).value.p != 121)
  }

  /** What the ranges and the parity of the draws give: a modulus above
      255, an even phi above 3, and an odd exponent. */
  lemma {:induction false} ProprietesTirees(p: nat, q: nat, e: nat)
    requires 50 <= p < 150 <= q < 250 && p % 2 == 1 && q % 2 == 1
    requires (e == 65537 || 3 <= e) && Gcd(e, (p - 1) * (q - 1)) == 1
    ensures var phi := (p - 1) * (q - 1);
      p * q > 255 && phi > 3 && phi % 2 == 0 && e > 0 && e % 2 == 1
  {
    var phi := (p - 1) * (q - 1);
    MulMonotone(49, p - 1, q - 1);
    MulMonotone(50, p, q);
    EvenProduct(p - 1, q - 1);
    assert e % 2 == 1 by {
      if e % 2 == 0 {
        GcdDivides(e, phi);
        GcdGreatest(e, phi, 2);
      }
    }
  }

  lemma {:induction false} OddPrime(p: int)
    requires IsPrime(p) && p > 2
    ensures p % 2 == 1
  {
    assert !Divides(2, p);
  }

  lemma EvenProduct(a: int, b: int)
    requires a % 2 == 0
    ensures (a * b) % 2 == 0
  {
    var k := a / 2;
    assert a * b == 2 * (k * b);
    ModOfMultiple(2, k * b);
  }

  /** An inverse of an invertible number is itself invertible, so it is
      coprime to the modulus too; and it is positive. */
  lemma {:induction false} InverseCoprime(e: nat, d: nat, phi: nat)
    requires phi > 1 && InverseDe(e, d, phi)
    ensures d > 0 && Gcd(d, phi) == 1
  {
    var e' := e % phi;
    assert InverseDe(d, e', phi) by {
      ModMul(d, e, phi);
      ModMul(d, e', phi);
      ModMod(e, phi);
      assert d * e == e * d;
    }
    CoprimeIffInvertible(d, phi);
  }

  /** The effect of `generer_cles`: both key files written as "n\ne\n" and
      "n\nd\n", with d the inverse of e modulo phi; nothing written when the
      draws run out. */
  ghost function Generation(publique: string, privee: string, tirages: seq<nat>, disque: Disque, corrige: bool)
    : (r: (Disque, Issue))
    ensures r.1 == Reussi || r.1 == Epuise
    ensures r.1 == Epuise <==> Tirer(tirages, corrige).None?
    ensures r.1 == Epuise ==> r.0 == disque
    ensures r.1 == Reussi ==> publique in r.0 && privee in r.0 && r.0 - {publique, privee} == disque - {publique, privee}
  {
    match Tirer(tirages, corrige)
    case None => (disque, Epuise)
    case Some(t) =>
      TirerRsa(tirages, corrige);
      var n := t.p * t.q;
      var d := Inverse(t.e, (t.p - 1) * (t.q - 1));
      (disque[publique := FormatCle(n, t.e)][privee := FormatCle(n, d)], Reussi)
  }

  /** Both keys `generer_cles` builds pass `valider_cle`. */
  lemma ClesCoherentes(p: int, q: int, e: nat, d: int)
    requires p > 1 && q > 1 && Gcd(e, (p - 1) * (q - 1)) == 1
    requires (p - 1) * (q - 1) > 1 && InverseDe(e, d, (p - 1) * (q - 1))
    ensures CleCoherente(CleRSA(p * q, e, p, q, (p - 1) * (q - 1), true))
    ensures CleCoherente(CleRSA(p * q, d, p, q, (p - 1) * (q - 1), false))
  {
    InverseCoprime(e, d, (p - 1) * (q - 1));
  }

  /** The loop of `generer_cles` that draws e: it stops at the first
      candidate coprime to phi, 65537 first. */
  method ChoisirExposant(phi: int, tirages: seq<nat>) returns (e: Option<nat>)
    requires phi > 3
    ensures e == ExposantTire(phi, 65537, tirages)
    ensures e.Some? ==> Gcd(e.value, phi) == 1
  {
    var candidat: nat := 65537;
    var g := Pgcd(candidat, phi);
    var j := 0;
    while g != 1
      invariant 0 <= j <= |tirages|
      invariant g == Gcd(candidat, phi)
      invariant ExposantTire(phi, 65537, tirages) == ExposantTire(phi, candidat, tirages[j..])
      decreases |tirages| - j
    {
      if j == |tirages| {
        return None;
      }
      assert tirages[j..][1..] == tirages[j + 1..];
      candidat := 3 + tirages[j] % (phi - 3);
      j := j + 1;
      g := Pgcd(candidat, phi);
    }
    e := Some(candidat);
  }

  /** `generer_cles`, with `generer_premier` as written or corrected. The
      error returns after `inverse_modulaire` and the two `valider_cle`
      calls cannot be taken, even when p is 121: e is coprime to phi when
      the loop ends, so d exists, and both keys pass the check, which
      never looks at primality. */
  method GenererCles(publique: string, privee: string, tirages: seq<nat>, disque: Disque, corrige: bool)
    returns (disque': Disque, issue: Issue)
    ensures (disque', issue) == Generation(publique, privee, tirages, disque, corrige)
  {
    var p, r1 := GenererPremier(50, 150, tirages, corrige);
    if p.None? {
      return disque, Epuise;
    }
    var q, r2 := GenererPremier(150, 250, r1, corrige);
    if q.None? {
      return disque, Epuise;
    }
    PremierTireDans(50, 150, tirages, corrige);
    PremierTireDans(150, 250, r1, corrige);
    var n := p.value * q.value;
    var phi := (p.value - 1) * (q.value - 1);
    MulMonotone(49, p.value - 1, q.value - 1);
    var tire := ChoisirExposant(phi, r2);
    if tire.None? {
      return disque, Epuise;
    }
    var e := tire.value;
    assert Tirer(tirages, corrige) == Some(Tirees(p.value, q.value, e));
    TirerRsa(tirages, corrige);
    disque' := EcrireCles(publique, privee, disque, p.value, q.value, e);
    issue := Reussi;
  }

  /** The second half of `generer_cles`: the inverse, the two keys, their
      validation, and the two files. Neither error return is taken. */
  method EcrireCles(publique: string, privee: string, disque: Disque, p: int, q: int, e: nat) returns (disque': Disque)
    requires p > 1 && q > 1 && (p - 1) * (q - 1) > 3 && Gcd(e, (p - 1) * (q - 1)) == 1
    ensures disque' == disque[publique := FormatCle(p * q, e)][privee := FormatCle(p * q, Inverse(e, (p - 1) * (q - 1)))]
  {
    var n := p * q;
    var phi := (p - 1) * (q - 1);
    var d := InverseModulaire(e, phi);
    if d == -1 {
      assert false;
    }
    ClesCoherentes(p, q, e, d);
    var clePublique := CleRSA(n, e, p, q, phi, true);
    var okPublique := ValiderCle(Some(clePublique));
    if !okPublique {
      assert false;
    }
    var clePrivee := CleRSA(n, d, p, q, phi, false);
    var okPrivee := ValiderCle(Some(clePrivee));
    if !okPrivee {
      assert false;
    }
    InverseUnique(e, phi, d, Inverse(e, phi));
    disque' := disque[publique := FormatCle(clePublique.n, clePublique.e)][privee := FormatCle(clePrivee.n, clePrivee.e)];
  }

  /** The draws 71 then 1: as written, p = 50 + 71 % 100 = 121 passes the
      test and q = 151, and 65537 is coprime to phi = 120 * 150; with the
      corrected test neither 121 nor 51 is accepted and the draws run out. */
  lemma Tirage121()
    ensures Tirer([71, 1], false) == Some(Tirees(121, 151, 65537))
    ensures Tirer([71, 1], true) == None
  {
    Premier121([71, 1]);
    Premier151Tire([1], false);
    assert Gcd(65537, 18000) == 1;
    Sans121([71, 1]);
  }

  /** As written, the first draw 71 gives p = 121, with the draws after it. */
  lemma Premier121(tirages: seq<nat>)
    requires |tirages| > 0 && tirages[0] == 71
    ensures PremierTire(50, 150, tirages, false) == Some((121, tirages[1..]))
  {
    EstPremierAccepte121();
    assert Tirage(50, 150, 71) == 121;
  }

  /** A first draw of 1 gives q = 151, with the draws after it. */
  lemma Premier151Tire(tirages: seq<nat>, corrige: bool)
    requires |tirages| > 0 && tirages[0] == 1
    ensures PremierTire(150, 250, tirages, corrige) == Some((151, tirages[1..]))
  {
    Premier151();
    assert Tirage(150, 250, 1) == 151;
  }

  /** Corrected, neither 121 nor 51 is accepted, and the draws run out. */
  lemma Sans121(tirages: seq<nat>)
    requires tirages == [71, 1]
    ensures PremierTire(50, 150, tirages, true) == None
  {
    EstPremierAccepte121();
    assert Tirage(50, 150, 71) == 121;
    Rejete(50, 150, tirages, true);
    var reste := tirages[1..];
    assert Tirage(50, 150, reste[0]) == 51 && Divides(3, 51);
    Rejete(50, 150, reste, true);
    assert reste[1..] == [];
  }

  /** A draw the test refuses is skipped. */
  lemma Rejete(min: int, max: int, tirages: seq<nat>, corrige: bool)
    requires min < max && |tirages| > 0 && !Accepte(Tirage(min, max, tirages[0]), corrige)
    ensures PremierTire(min, max, tirages, corrige) == PremierTire(min, max, tirages[1..], corrige)
  {
  }

  lemma Premier151()
    ensures IsPrime(151)
  {
    forall d | 1 < d < 13
      ensures !Divides(d, 151)
    {
      assert d == 2 || d == 3 || d == 4 || d == 5 || d == 6 || d == 7 || d == 8 || d == 9 || d == 10 || d == 11 || d == 12;
    }
    NoFactorBelowRoot(151, 13);
  }
}
