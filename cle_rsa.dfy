/** The `CleRSA` record of crypto.h, the consistency check `valider_cle`,
    and the key file that `generer_cles` writes and `lire_cle` reads. */
module CleRsa {
  import opened Wrappers
  import opened Fichiers
  import opened Modular
  import opened NumberTheory
  import opened CryptoMath
  import opened Decimal

  /** A key: the modulus n, the exponent (e for a public key, d for a
      private one), and the factors p, q and phi = (p-1)(q-1) when they are
      known, zero otherwise. `creer_cle` is this constructor. */
  datatype CleRSA = CleRSA(n: int, e: int, p: int, q: int, phi: int, estPublique: bool)

  /** How one of the tool's operations ended: it printed its success
      message, it printed an error and returned, it was killed by a
      division by zero (SIGFPE), or key generation used up the random draws
      it was given (the real loop would go on drawing). */
  datatype Issue = Reussi | Echec | Plantage | Epuise

  /** The three checks of `valider_cle`, each made only when the fields it
      needs are positive. */
  predicate CleCoherente(cle: CleRSA) {
    && (cle.p > 0 && cle.q > 0 ==> cle.n == cle.p * cle.q)
    && (cle.p > 0 && cle.q > 0 && cle.phi > 0 ==> cle.phi == (cle.p - 1) * (cle.q - 1))
    && (cle.phi > 0 && cle.e > 0 ==> Gcd(cle.e, cle.phi) == 1)
  }

  /** `d` is the inverse of `e` modulo `phi`, reduced into [0, phi). */
  predicate InverseDe(e: int, d: int, phi: int)
    requires phi > 0
  {
    0 <= d < phi && (e * d) % phi == 1
  }

  /** `valider_cle`: false for a null key, otherwise the three checks in
      the order of the source, the last one through `pgcd`. */
  method ValiderCle(cle: Option<CleRSA>) returns (ok: bool)
    ensures ok <==> cle.Some? && CleCoherente(cle.value)
  {
    if cle.None? {
      return false;
    }
    var k := cle.value;
    if k.p > 0 && k.q > 0 {
      if k.n != k.p * k.q {
        return false;
      }
    }
    if k.p > 0 && k.q > 0 && k.phi > 0 {
      if k.phi != (k.p - 1) * (k.q - 1) {
        return false;
      }
    }
    if k.phi > 0 && k.e > 0 {
      var g := Pgcd(k.e, k.phi);
      if g != 1 {
        return false;
      }
    }
    return true;
  }

  /** For a key with all its fields, the check says exactly what an RSA key
      needs: n = p*q, phi = (p-1)(q-1), and an exponent invertible modulo
      phi. */
  lemma {:induction false} CleCompleteCoherente(cle: CleRSA)
    requires cle.p > 0 && cle.q > 0 && cle.phi > 1 && cle.e > 0
    ensures CleCoherente(cle) <==>
      && cle.n == cle.p * cle.q
      && cle.phi == (cle.p - 1) * (cle.q - 1)
      && exists d :: InverseDe(cle.e, d, cle.phi)
  {
    CoprimeIffInvertible(cle.e, cle.phi);
  }

  /** A number has an inverse modulo phi exactly when it is coprime to phi. */
  lemma {:induction false} CoprimeIffInvertible(e: nat, phi: nat)
    requires phi > 1
    ensures Gcd(e, phi) == 1 <==> exists d :: InverseDe(e, d, phi)
  {
    if Gcd(e, phi) == 1 {
      var x, y := Bezout(e, phi);
      var d := x % phi;
      assert InverseDe(e, d, phi) by {
        ModMul(e, x, phi);
        ModMul(e, d, phi);
        ModMod(x, phi);
        assert (e * x) % phi == 1 by {
          assert e * x == 1 + (-y) * phi;
          ModAddMultiple(1, -y, phi);
          DivModUnique(1, phi, 0, 1);
        }
      }
    }
    if d :| InverseDe(e, d, phi) {
      var g := Gcd(e, phi);
      GcdDivides(e, phi);
      GcdPositive(e, phi);
      DivModUnique(1, phi, 0, 1);
      CongruentIffDivides(e * d, 1, phi);
      var k := DividesWitness(phi, e * d - 1);
      assert 1 == d * e + (-k) * phi;
      DividesLinear(g, e, phi, d, -k);
      DividesLe(g, 1);
    }
  }

  /** The inverse modulo phi, when there is one, is unique. */
  lemma {:induction false} InverseUnique(e: nat, phi: nat, d1: int, d2: int)
    requires phi > 1 && InverseDe(e, d1, phi) && InverseDe(e, d2, phi)
    ensures d1 == d2
  {
    CoprimeIffInvertible(e, phi);
    GcdComm(e, phi);
    CongruentIffDivides(e * d1, e * d2, phi);
    assert e * d1 - e * d2 == e * (d1 - d2);
    Gauss(phi, e, d1 - d2);
    if d1 != d2 {
      if d1 > d2 {
        DividesLe(phi, d1 - d2);
      } else {
        DividesMul(phi, d1 - d2, -1);
        DividesLe(phi, d2 - d1);
      }
    }
  }

  /** The inverse of e modulo phi, as a value. */
  ghost function Inverse(e: nat, phi: nat): (d: int)
    requires phi > 1 && Gcd(e, phi) == 1
    ensures InverseDe(e, d, phi)
  {
    CoprimeIffInvertible(e, phi);
    var d :| InverseDe(e, d, phi);
    d
  }

  // ---------------------------------------------------------------------
  // The key file

  /** What `fprintf(fp, "%d\n%d\n", n, e)` writes into a key file. */
  function FormatCle(n: int, e: int): string {
    IntToString(n) + "\n" + IntToString(e) + "\n"
  }

  /** `lire_cle`: no key when the file cannot be opened for reading or the
      two `%d` conversions do not both succeed; otherwise a key with p, q
      and phi zero, always marked public. */
  function LireCle(disque: Disque, chemin: string): (cle: Option<CleRSA>)
    ensures cle.Some? <==> chemin in disque && |ScanNumbers(disque[chemin])| >= 2
    ensures cle.Some? ==>
      cle.value == CleRSA(ScanNumbers(disque[chemin])[0], ScanNumbers(disque[chemin])[1], 0, 0, 0, true)
  {
    if chemin !in disque then None
    else
      match ScanInt(disque[chemin])
      case None => None
      case Some((n, reste)) =>
        match ScanInt(reste)
        case None => None
        case Some((e, _)) => Some(CleRSA(n, e, 0, 0, 0, true))
  }

  /** A key file written by `generer_cles` is read back as the same n and
      exponent. */
  lemma {:induction false} LireCleFormat(disque: Disque, chemin: string, n: int, e: int)
    ensures LireCle(disque[chemin := FormatCle(n, e)], chemin) == Some(CleRSA(n, e, 0, 0, 0, true))
  {
    var texte := FormatCle(n, e);
    assert disque[chemin := texte][chemin] == texte;
    ScanFormatCle(n, e);
  }

  /** The two `fscanf` calls on a key file read n, then the exponent. */
  lemma {:induction false} ScanFormatCle(n: int, e: int)
    ensures ScanInt(FormatCle(n, e)) == Some((n, "\n" + IntToString(e) + "\n"))
    ensures ScanInt("\n" + IntToString(e) + "\n") == Some((e, "\n"))
  {
    var suite := "\n" + IntToString(e) + "\n";
    assert FormatCle(n, e) == IntToString(n) + suite;
    assert suite[0] == '\n';
    ScanIntToString(n, suite);
    ScanSecondeLigne(e);
  }

  lemma {:induction false} ScanSecondeLigne(e: int)
    ensures ScanInt("\n" + IntToString(e) + "\n") == Some((e, "\n"))
  {
    var ligne := IntToString(e) + "\n";
    SkipSpaceThenScan('\n', ligne);
    assert "\n" + IntToString(e) + "\n" == ['\n'] + ligne;
    ScanIntToString(e, "\n");
  }

  /** Every key `lire_cle` returns passes `valider_cle`, whatever the
      file holds, and is marked public even when it is a private key. */
  lemma LireCleAcceptee(disque: Disque, chemin: string)
    requires LireCle(disque, chemin).Some?
    ensures CleCoherente(LireCle(disque, chemin).value)
    ensures LireCle(disque, chemin).value.estPublique
    ensures chemin in disque
  {
  }
}
