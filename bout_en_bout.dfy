/** The two halves together: the messaging client's `CryptoManager` runs
    the RSA tool's `main` as its child process. The client's tool oracle is
    instantiated with the model of `main`, and a message encrypted for a
    user whose keys were just generated decrypts back to the message, less
    its line terminators. */
module BoutEnBout {
  import opened Wrappers
  import opened Fichiers
  import opened Modular
  import opened NumberTheory
  import opened CryptoMath
  import opened Decimal
  import opened CleRsa
  import opened Chiffrement
  import opened GenerationCles
  import opened Rsa
  import C = Outil
  import opened TexteJava
  import opened ServiceCrypto

  /** A Java string that reaches the tool unchanged as a C argument: no
      NUL (the process cannot be started with one) and every character a
      single byte (the platform charset is taken to be Latin-1). */
  predicate Transmissible(s: string) {
    EstOctets(s) && '\0' !in s
  }

  /** The RSA tool as the client sees it, run with the given draws. An
      argument holding a NUL cannot be passed, and the start fails. The
      model also refuses to start on a character above 255: that is a
      choice of the model, since Java would pass such a character as '?'
      in the Latin-1 charset. Every lemma below passes only texts without
      either. Otherwise `main` runs on the files, as written or with its
      exit status corrected. A key generation that never ends is taken as
      an interrupted wait, the only way `waitFor` returns. */
  ghost function OutilC(tirages: seq<nat>, corrige: bool): ServiceCrypto.Outil {
    (argv: seq<string>, disque: Disque) =>
      if !C.ArgumentsC(argv) then EchecLancement
      else
        var (apres, statut) := C.Execution(argv, tirages, disque, corrige);
        if statut.SansFin? then Interrompu(apres) else Termine(apres, statut.valeur)
  }

  // ---------------------------------------------------------------------
  // The arguments the client passes

  lemma {:induction false} TransmissibleConcat(a: string, b: string)
    requires Transmissible(a) && Transmissible(b)
    ensures Transmissible(a + b)
  {
    forall i | 0 <= i < |a + b|
      ensures (a + b)[i] as int < 256
    {
      if i >= |a| {
        assert (a + b)[i] == b[i - |a|];
      }
    }
  }

  lemma {:induction false} DecimalTransmissible(n: nat)
    ensures Transmissible(NatToString(n))
  {
    NatToStringDigits(n);
    var s := NatToString(n);
    forall i | 0 <= i < |s|
      ensures s[i] as int < 256 && s[i] != '\0'
    {
      assert IsDigit(s[i]);
    }
  }

  lemma {:induction false} ClesTransmissibles(nom: string)
    requires Transmissible(nom)
    ensures Transmissible(CheminClePublique(nom)) && Transmissible(CheminClePrivee(nom))
  {
    TransmissibleConcat(RepertoireCles, nom);
    TransmissibleConcat(RepertoireCles + nom, "_public.key");
    TransmissibleConcat(RepertoireCles + nom, "_private.key");
  }

  lemma {:induction false} TemporaireTransmissible(millis: nat, extension: string)
    requires Transmissible(extension)
    ensures Transmissible(FichierTemporaire(millis, extension))
  {
    DecimalTransmissible(millis);
    TransmissibleConcat(RepertoireTemp, "msg_");
    TransmissibleConcat(RepertoireTemp + "msg_", NatToString(millis));
    TransmissibleConcat(RepertoireTemp + "msg_" + NatToString(millis), extension);
  }

  /** Each of the client's three argument lists reaches `main` intact and
      names its command with the right arity, so `main` runs the command. */
  lemma {:induction false} ArgumentsAcceptes(nom: string, message: string, millis: nat, millisEnc: nat, millisDec: nat)
    requires Transmissible(nom) && Transmissible(message)
    ensures C.ArgumentsC(ArgumentsGeneration(nom)) && C.CodeArguments(ArgumentsGeneration(nom)) == 0
    ensures C.ArgumentsC(ArgumentsChiffrement(nom, message, millis))
    ensures C.CodeArguments(ArgumentsChiffrement(nom, message, millis)) == 0
    ensures C.ArgumentsC(ArgumentsDechiffrement(nom, millisEnc, millisDec))
    ensures C.CodeArguments(ArgumentsDechiffrement(nom, millisEnc, millisDec)) == 0
  {
    GenerationAcceptee(nom);
    ChiffrementAccepte(nom, message, millis);
    DechiffrementAccepte(nom, millisEnc, millisDec);
  }

  lemma {:induction false} GenerationAcceptee(nom: string)
    requires Transmissible(nom)
    ensures C.ArgumentsC(ArgumentsGeneration(nom)) && C.CodeArguments(ArgumentsGeneration(nom)) == 0
  {
    ClesTransmissibles(nom);
    assert Transmissible(Executable) && Transmissible("generer");
  }

  lemma {:induction false} ChiffrementAccepte(nom: string, message: string, millis: nat)
    requires Transmissible(nom) && Transmissible(message)
    ensures C.ArgumentsC(ArgumentsChiffrement(nom, message, millis))
    ensures C.CodeArguments(ArgumentsChiffrement(nom, message, millis)) == 0
  {
    ClesTransmissibles(nom);
    TemporaireTransmissible(millis, ".enc");
    assert Transmissible(Executable) && Transmissible("chiffrer");
  }

  lemma {:induction false} DechiffrementAccepte(nom: string, millisEnc: nat, millisDec: nat)
    requires Transmissible(nom)
    ensures C.ArgumentsC(ArgumentsDechiffrement(nom, millisEnc, millisDec))
    ensures C.CodeArguments(ArgumentsDechiffrement(nom, millisEnc, millisDec)) == 0
  {
    ClesTransmissibles(nom);
    TemporaireTransmissible(millisEnc, ".enc");
    TemporaireTransmissible(millisDec, ".dec");
    assert Transmissible(Executable) && Transmissible("dechiffrer");
  }

  // ---------------------------------------------------------------------
  // The keys the tool generates

  /** Two distinct primes whose product exceeds every byte, and two odd
      positive exponents inverse to each other modulo phi. */
  ghost predicate PaireRsa(p: nat, q: nat, e: nat, d: nat) {
    && IsPrime(p) && IsPrime(q) && p != q && p * q > 255
    && (p - 1) * (q - 1) > 1 && (e * d) % ((p - 1) * (q - 1)) == 1
    && e > 0 && d > 0 && e % 2 == 1 && d % 2 == 1
  }

  /** When the draws suffice, `generer_cles` writes the public file (n, e)
      and the private file (n, d) of the numbers drawn, d the inverse of e
      modulo phi; the two make an RSA pair exactly when the draws are
      `TirageRsa`, that is unless the test as written let p = 121 through. */
  lemma {:induction false} ClesGenerees(tirages: seq<nat>, corrige: bool, disque: Disque, publique: string, privee: string)
    returns (p: nat, q: nat, e: nat, d: nat)
    requires Tirer(tirages, corrige).Some?
    ensures Tirer(tirages, corrige) == Some(Tirees(p, q, e))
    ensures (p - 1) * (q - 1) > 1 && InverseDe(e, d, (p - 1) * (q - 1))
    ensures PaireRsa(p, q, e, d) <==> TirageRsa(tirages, corrige)
    ensures Generation(publique, privee, tirages, disque, corrige)
      == (disque[publique := FormatCle(p * q, e)][privee := FormatCle(p * q, d)], Reussi)
  {
    TirerRsa(tirages, corrige);
    var t := Tirer(tirages, corrige).value;
    p, q, e := t.p, t.q, t.e;
    var phi := (p - 1) * (q - 1);
    d := Inverse(e, phi);
    InverseCoprime(e, d, phi);
    assert d % 2 == 1 by {
      if d % 2 == 0 {
        GcdDivides(d, phi);
        GcdGreatest(d, phi, 2);
      }
    }
    if p == 121 {
      EstPremierAccepte121();
    }
  }

  /** `(char)` of the signed value of a byte is that byte again. */
  lemma OctetSigne(c: char)
    requires c as int < 256
    ensures Octet(SignedChar(c)) == c
  {
    if c as int >= 128 {
      DivModUnique(c as int - 256, 256, -1, c as int);
    }
  }

  /** The bytes decrypted with the private key of a pair are the bytes
      encrypted with its public key. */
  lemma {:induction false} AllerRetourOctets(p: nat, q: nat, e: nat, d: nat, octets: string)
    requires PaireRsa(p, q, e, d) && EstOctets(octets)
    ensures Dechiffres(CleRSA(p * q, d, 0, 0, 0, true), Chiffres(CleRSA(p * q, e, 0, 0, 0, true), octets)) == octets
  {
    var xs := Chiffres(CleRSA(p * q, e, 0, 0, 0, true), octets);
    var texte := Dechiffres(CleRSA(p * q, d, 0, 0, 0, true), xs);
    forall i | 0 <= i < |octets|
      ensures texte[i] == octets[i]
    {
      RsaExpMod(p, q, e, d, SignedChar(octets[i]));
      OctetSigne(octets[i]);
    }
  }

  /** `lire_cle` looks only at the file it reads. */
  lemma LireCleLocale(a: Disque, b: Disque, chemin: string)
    requires chemin in a && chemin in b && a[chemin] == b[chemin]
    ensures LireCle(a, chemin) == LireCle(b, chemin)
  {
  }

  // ---------------------------------------------------------------------
  // The tool on its own

  /** `chiffrer` with a public key file (n, e), then `dechiffrer` with a
      private key file (n, d): the clear file receives the bytes of the
      message up to its first NUL, each encrypted with e and decrypted
      with d. */
  lemma {:induction false} ChiffrerPuisDechiffrer(n: int, e: int, d: int, disque: Disque, publique: string, privee: string,
                                                  message: string, chiffre: string, clair: string)
    requires n > 0 && EstOctets(message)
    requires publique != privee && chiffre !in {publique, privee} && clair !in {privee, chiffre}
    ensures
      var d1 := disque[publique := FormatCle(n, e)][privee := FormatCle(n, d)];
      var (d2, i2) := ChiffrementAvecCle(LireCle(d1, publique), message, chiffre, d1);
      var (d3, i3) := DechiffrementAvecCle(LireCle(d2, privee), chiffre, clair, d2);
      && i2 == Reussi && i3 == Reussi
      && d3[clair] == Dechiffres(CleRSA(n, d, 0, 0, 0, true), Chiffres(CleRSA(n, e, 0, 0, 0, true), message[..Strlen(message)]))
  {
    var avant := disque[publique := FormatCle(n, e)];
    var d1 := avant[privee := FormatCle(n, d)];
    var clePublique := CleRSA(n, e, 0, 0, 0, true);
    var clePrivee := CleRSA(n, d, 0, 0, 0, true);
    LireCleFormat(disque, publique, n, e);
    LireCleLocale(d1, avant, publique);
    assert LireCle(d1, publique) == Some(clePublique);
    var octets := message[..Strlen(message)];
    var xs := Chiffres(clePublique, octets);
    var d2 := d1[chiffre := FormatNumbers(xs)];
    assert ChiffrementAvecCle(Some(clePublique), message, chiffre, d1) == (d2, Reussi);
    LireCleFormat(avant, privee, n, d);
    LireCleLocale(d2, d1, privee);
    assert LireCle(d2, privee) == Some(clePrivee);
    ScanFormatNumbers(xs);
    assert d2[clair := ""][chiffre] == FormatNumbers(xs);
    assert DechiffrementAvecCle(Some(clePrivee), chiffre, clair, d2) == (d2[clair := Dechiffres(clePrivee, xs)], Reussi);
  }

  /** `generer`, then `chiffrer` with the public key, then `dechiffrer`
      with the private key gives back the message up to its first NUL,
      whenever the draws make an RSA pair (always with the corrected test)
      and the four files are distinct. */
  lemma {:induction false} AllerRetourC(tirages: seq<nat>, corrige: bool, disque: Disque, publique: string, privee: string,
                                        message: string, chiffre: string, clair: string)
    requires TirageRsa(tirages, corrige) && EstOctets(message)
    requires publique != privee && chiffre !in {publique, privee} && clair !in {privee, chiffre}
    ensures
      var (d1, _) := Generation(publique, privee, tirages, disque, corrige);
      var (d2, i2) := ChiffrementAvecCle(LireCle(d1, publique), message, chiffre, d1);
      var (d3, i3) := DechiffrementAvecCle(LireCle(d2, privee), chiffre, clair, d2);
      i2 == Reussi && i3 == Reussi && d3[clair] == message[..Strlen(message)]
  {
    var p, q, e, d := ClesGenerees(tirages, corrige, disque, publique, privee);
    ChiffrerPuisDechiffrer(p * q, e, d, disque, publique, privee, message, chiffre, clair);
    AllerRetourOctets(p, q, e, d, message[..Strlen(message)]);
  }

  /** The tool as written, on the draws 71 then 1, writes the keys n =
      121 * 151 = 18271, e = 65537, d = 3473 and reports success; "a"
      encrypted and decrypted with them comes back as "[". The corrected
      tool skips 121 and runs out of these draws. */
  lemma CleCassee(disque: Disque, publique: string, privee: string, chiffre: string, clair: string)
    requires publique != privee && chiffre !in {publique, privee} && clair !in {privee, chiffre}
    ensures Generation(publique, privee, [71, 1], disque, false)
      == (disque[publique := FormatCle(18271, 65537)][privee := FormatCle(18271, 3473)], Reussi)
    ensures
      var (d1, _) := Generation(publique, privee, [71, 1], disque, false);
      var (d2, i2) := ChiffrementAvecCle(LireCle(d1, publique), "a", chiffre, d1);
      var (d3, i3) := DechiffrementAvecCle(LireCle(d2, privee), chiffre, clair, d2);
      i2 == Reussi && i3 == Reussi && d3[clair] == "["
    ensures Generation(publique, privee, [71, 1], disque, true) == (disque, Epuise)
  {
    ClesDe121(disque, publique, privee);
    ChiffrerPuisDechiffrer(18271, 65537, 3473, disque, publique, privee, "a", chiffre, clair);
    assert "a"[..Strlen("a")] == "a";
    AllerRetourDeA(18271, 65537, 3473);
  }

  lemma ClesDe121(disque: Disque, publique: string, privee: string)
    ensures Generation(publique, privee, [71, 1], disque, false)
      == (disque[publique := FormatCle(18271, 65537)][privee := FormatCle(18271, 3473)], Reussi)
    ensures Generation(publique, privee, [71, 1], disque, true) == (disque, Epuise)
  {
    Tirage121();
    var p, q, e, d := ClesGenerees([71, 1], false, disque, publique, privee);
    assert (p, q, e) == (121, 151, 65537);
    assert (p - 1) * (q - 1) == 18000;
    assert InverseDe(65537, 3473, 18000);
    InverseUnique(65537, 18000, d, 3473);
  }

  /** "a" is byte 97; 97^65537 mod 18271 = 5944, and 5944^3473 mod 18271
      = 3419, whose low byte is 91, "[". */
  lemma AllerRetourDeA(n: int, e: int, d: int)
    requires n == 18271 && e == 65537 && d == 3473
    ensures Dechiffres(CleRSA(n, d, 0, 0, 0, true), Chiffres(CleRSA(n, e, 0, 0, 0, true), "a")) == "["
  {
    ChiffreDeA(n);
    DechiffreDeA(n);
    var xs := Chiffres(CleRSA(n, e, 0, 0, 0, true), "a");
    assert SignedChar("a"[0]) == 97;
    assert |xs| == 1 && xs[0] == 5944;
    assert xs == [5944];
    var ys := Dechiffres(CleRSA(n, d, 0, 0, 0, true), xs);
    assert |ys| == 1 && ys[0] == Octet(3419);
    OctetDe(3419, 13, 91);
  }

  /** The low byte of x, given its quotient by 256. */
  lemma OctetDe(x: int, q: int, r: int)
    requires x == 256 * q + r && 0 <= r < 256
    ensures Octet(x) as int == r
  {
    DivModUnique(x, 256, q, r);
  }

  /** One round of the `exp_modulaire` loop on an even exponent: only the
      square is reduced; the quotients are given so that the remainders
      are checked without division. */
  lemma EtapeCarre(res: int, b: int, x: int, m: int, bb: int, b': int, qb: int)
    requires m > 0 && x > 0 && x % 2 == 0
    requires bb == b * b && 0 <= bb == m * qb + b' && 0 <= b' < m
    ensures SquareMultiply(res, b, x, m) == SquareMultiply(res, b', x / 2, m)
  {
    DivModUnique(bb, m, qb, b');
  }

  /** One round on an odd exponent: the accumulator takes the product. */
  lemma EtapeProduit(res: int, b: int, x: int, m: int, rb: int, res': int, qr: int, bb: int, b': int, qb: int)
    requires m > 0 && x > 0 && x % 2 == 1
    requires rb == res * b && 0 <= rb == m * qr + res' && 0 <= res' < m
    requires bb == b * b && 0 <= bb == m * qb + b' && 0 <= b' < m
    ensures SquareMultiply(res, b, x, m) == SquareMultiply(res', b', x / 2, m)
  {
    DivModUnique(bb, m, qb, b');
    DivModUnique(rb, m, qr, res');
  }

  /** `exp_modulaire(97, 65537, 18271)`, step by step. */
  lemma ChiffreDeA(m: int)
    requires m == 18271
    ensures ExpMod(97, 65537, m) == 5944
  {
    DivModUnique(97, m, 0, 97);
    ChiffreDeA1(m);
    ChiffreDeA2(m);
    ChiffreDeA3(m);
    ChiffreDeA4(m);
  }

  lemma ChiffreDeA1(m: int)
    requires m == 18271
    ensures SquareMultiply(1, 97, 65537, m) == SquareMultiply(97, 1346, 2048, m)
  {
    EtapeProduit(1, 97, 65537, m, 97, 97, 0, 9409, 9409, 0);
    EtapeCarre(97, 9409, 32768, m, 88529281, 6286, 4845);
    EtapeCarre(97, 6286, 16384, m, 39513796, 11894, 2162);
    EtapeCarre(97, 11894, 8192, m, 141467236, 13154, 7742);
    EtapeCarre(97, 13154, 4096, m, 173027716, 1346, 9470);
  }

  lemma ChiffreDeA2(m: int)
    requires m == 18271
    ensures SquareMultiply(97, 1346, 2048, m) == SquareMultiply(97, 9971, 64, m)
  {
    EtapeCarre(97, 1346, 2048, m, 1811716, 2887, 99);
    EtapeCarre(97, 2887, 1024, m, 8334769, 3193, 456);
    EtapeCarre(97, 3193, 512, m, 10195249, 31, 558);
    EtapeCarre(97, 31, 256, m, 961, 961, 0);
    EtapeCarre(97, 961, 128, m, 923521, 9971, 50);
  }

  lemma ChiffreDeA3(m: int)
    requires m == 18271
    ensures SquareMultiply(97, 9971, 64, m) == SquareMultiply(97, 2918, 2, m)
  {
    EtapeCarre(97, 9971, 64, m, 99420841, 8330, 5441);
    EtapeCarre(97, 8330, 32, m, 69388900, 13913, 3797);
    EtapeCarre(97, 13913, 16, m, 193571569, 8595, 10594);
    EtapeCarre(97, 8595, 8, m, 73874025, 4372, 4043);
    EtapeCarre(97, 4372, 4, m, 19114384, 2918, 1046);
  }

  lemma ChiffreDeA4(m: int)
    requires m == 18271
    ensures SquareMultiply(97, 2918, 2, m) == SquareMultiply(5944, 9134, 0, m)
  {
    EtapeCarre(97, 2918, 2, m, 8514724, 438, 466);
    EtapeProduit(97, 438, 1, m, 42486, 5944, 2, 191844, 9134, 10);
  }

  /** `exp_modulaire(5944, 3473, 18271)`, step by step. */
  lemma DechiffreDeA(m: int)
    requires m == 18271
    ensures ExpMod(5944, 3473, m) == 3419
  {
    DivModUnique(5944, m, 0, 5944);
    DechiffreDeA1(m);
    DechiffreDeA2(m);
    DechiffreDeA3(m);
  }

  lemma DechiffreDeA1(m: int)
    requires m == 18271
    ensures SquareMultiply(1, 5944, 3473, m) == SquareMultiply(11269, 2711, 108, m)
  {
    EtapeProduit(1, 5944, 3473, m, 5944, 5944, 0, 35331136, 13293, 1933);
    EtapeCarre(5944, 13293, 1736, m, 176703849, 5008, 9671);
    EtapeCarre(5944, 5008, 868, m, 25080064, 12252, 1372);
    EtapeCarre(5944, 12252, 434, m, 150111504, 15239, 8215);
    EtapeProduit(5944, 15239, 217, m, 90580616, 11269, 4957, 232227121, 2711, 12710);
  }

  lemma DechiffreDeA2(m: int)
    requires m == 18271
    ensures SquareMultiply(11269, 2711, 108, m) == SquareMultiply(9310, 9452, 3, m)
  {
    EtapeCarre(11269, 2711, 108, m, 7349521, 4579, 402);
    EtapeCarre(11269, 4579, 54, m, 20967241, 10404, 1147);
    EtapeProduit(11269, 10404, 27, m, 117242676, 15940, 6416, 108243216, 5812, 5924);
    EtapeProduit(15940, 5812, 13, m, 92643280, 9310, 5070, 33779344, 14536, 1848);
    EtapeCarre(9310, 14536, 6, m, 211295296, 9452, 11564);
  }

  lemma DechiffreDeA3(m: int)
    requires m == 18271
    ensures SquareMultiply(9310, 9452, 3, m) == SquareMultiply(3419, 11070, 0, m)
  {
    EtapeProduit(9310, 9452, 3, m, 87998120, 4984, 4816, 89340304, 13385, 4889);
    EtapeProduit(4984, 13385, 1, m, 66710840, 3419, 3651, 179158225, 11070, 9805);
  }

  // ---------------------------------------------------------------------
  // The client running the tool

  /** A command that `main` accepts and that succeeds reaches the client
      as an exit with status 0 and the files the command left. */
  lemma LancementReussi(tirages: seq<nat>, corrige: bool, argv: seq<string>, disque: Disque)
    requires C.ArgumentsC(argv) && C.CodeArguments(argv) == 0
    requires C.Commande(argv, tirages, disque, corrige).1 == Reussi
    ensures OutilC(tirages, corrige)(argv, disque) == Termine(C.Commande(argv, tirages, disque, corrige).0, 0)
  {
  }

  /** `genererCles(nom)` succeeds when the draws suffice, and leaves the
      two key files `generer_cles` writes; they hold an RSA pair exactly
      when the draws are `TirageRsa`. */
  lemma {:induction false} GenerationJava(tirages: seq<nat>, corrige: bool, fichiers: Disque, nom: string)
    returns (p: nat, q: nat, e: nat, d: nat)
    requires Tirer(tirages, corrige).Some? && Transmissible(nom)
    ensures Tirer(tirages, corrige) == Some(Tirees(p, q, e))
    ensures (p - 1) * (q - 1) > 1 && InverseDe(e, d, (p - 1) * (q - 1))
    ensures PaireRsa(p, q, e, d) <==> TirageRsa(tirages, corrige)
    ensures EffetGeneration(OutilC(tirages, corrige), fichiers, nom)
      == (true, fichiers[CheminClePublique(nom) := FormatCle(p * q, e)][CheminClePrivee(nom) := FormatCle(p * q, d)])
  {
    GenerationAcceptee(nom);
    p, q, e, d := ClesGenerees(tirages, corrige, fichiers, CheminClePublique(nom), CheminClePrivee(nom));
  }

  /** `main chiffrer` with a public key file written by the tool writes
      one number per byte of the message to the output file. */
  lemma {:induction false} CommandeChiffrement(tirages: seq<nat>, corrige: bool, fichiers: Disque, nom: string, message: string,
                                               millis: nat, n: int, e: int)
    requires Transmissible(nom) && Transmissible(message) && n > 0
    requires CheminClePublique(nom) in fichiers && fichiers[CheminClePublique(nom)] == FormatCle(n, e)
    ensures C.ArgumentsC(ArgumentsChiffrement(nom, message, millis))
    ensures C.CodeArguments(ArgumentsChiffrement(nom, message, millis)) == 0
    ensures C.Commande(ArgumentsChiffrement(nom, message, millis), tirages, fichiers, corrige)
      == (fichiers[FichierTemporaire(millis, ".enc") := FormatNumbers(Chiffres(CleRSA(n, e, 0, 0, 0, true), message))], Reussi)
  {
    var publique := CheminClePublique(nom);
    ChiffrementAccepte(nom, message, millis);
    LireCleFormat(fichiers, publique, n, e);
    LireCleLocale(fichiers[publique := FormatCle(n, e)], fichiers, publique);
    assert message[..Strlen(message)] == message;
  }

  /** `chiffrerMessage` with a public key file written by the tool returns
      the numbers of the message's bytes separated by single spaces, and
      removes its temporary file. */
  lemma {:induction false} ChiffrementJava(tirages: seq<nat>, corrige: bool, fichiers: Disque, nom: string, message: string,
                                           millis: nat, n: int, e: int)
    requires Transmissible(nom) && Transmissible(message) && n > 0
    requires CheminClePublique(nom) in fichiers && fichiers[CheminClePublique(nom)] == FormatCle(n, e)
    ensures EffetChiffrement(OutilC(tirages, corrige), fichiers, nom, message, millis)
      == (Some(JoinSpace(Chiffres(CleRSA(n, e, 0, 0, 0, true), message))), fichiers - {FichierTemporaire(millis, ".enc")})
  {
    var sortie := FichierTemporaire(millis, ".enc");
    var argv := ArgumentsChiffrement(nom, message, millis);
    var xs := Chiffres(CleRSA(n, e, 0, 0, 0, true), message);
    CommandeChiffrement(tirages, corrige, fichiers, nom, message, millis, n, e);
    LancementReussi(tirages, corrige, argv, fichiers);
    TrimChiffres(xs);
    assert fichiers[sortie := FormatNumbers(xs)] - {sortie} == fichiers - {sortie};
  }

  /** `main dechiffrer` with a private key file written by the tool, on the
      ciphertext the client wrote, writes the decrypted bytes to the output
      file. */
  lemma {:induction false} CommandeDechiffrement(tirages: seq<nat>, corrige: bool, fichiers: Disque, nom: string, xs: seq<int>,
                                                 millisEnc: nat, millisDec: nat, n: int, d: int)
    requires Transmissible(nom) && n != 0
    requires CheminClePrivee(nom) in fichiers && fichiers[CheminClePrivee(nom)] == FormatCle(n, d)
    ensures var ecrits := fichiers[FichierTemporaire(millisEnc, ".enc") := JoinSpace(xs)];
      && C.ArgumentsC(ArgumentsDechiffrement(nom, millisEnc, millisDec))
      && C.CodeArguments(ArgumentsDechiffrement(nom, millisEnc, millisDec)) == 0
      && C.Commande(ArgumentsDechiffrement(nom, millisEnc, millisDec), tirages, ecrits, corrige)
        == (ecrits[FichierTemporaire(millisDec, ".dec") := Dechiffres(CleRSA(n, d, 0, 0, 0, true), xs)], Reussi)
  {
    var privee := CheminClePrivee(nom);
    var entree := FichierTemporaire(millisEnc, ".enc");
    var sortie := FichierTemporaire(millisDec, ".dec");
    var ecrits := fichiers[entree := JoinSpace(xs)];
    DechiffrementAccepte(nom, millisEnc, millisDec);
    ClesDistinctesDesTemporaires(nom, millisEnc, ".enc");
    TemporairesDistincts(millisEnc, millisDec);
    LireCleFormat(fichiers, privee, n, d);
    LireCleLocale(fichiers[privee := FormatCle(n, d)], ecrits, privee);
    ScanJoinSpace(xs);
    assert ecrits[sortie := ""][entree] == JoinSpace(xs);
  }

  /** `dechiffrerMessage` with a private key file written by the tool
      returns the text whose bytes the ciphertext encrypts, less its line
      terminators, and removes both temporary files. */
  lemma {:induction false} DechiffrementJava(tirages: seq<nat>, corrige: bool, fichiers: Disque, nom: string, xs: seq<int>,
                                             millisEnc: nat, millisDec: nat, n: int, d: int)
    requires Transmissible(nom) && n != 0
    requires CheminClePrivee(nom) in fichiers && fichiers[CheminClePrivee(nom)] == FormatCle(n, d)
    ensures
      var entree := FichierTemporaire(millisEnc, ".enc");
      var sortie := FichierTemporaire(millisDec, ".dec");
      EffetDechiffrement(OutilC(tirages, corrige), fichiers, nom, JoinSpace(xs), millisEnc, millisDec)
        == (Some(SansFinsDeLigne(Dechiffres(CleRSA(n, d, 0, 0, 0, true), xs))), fichiers - {entree} - {sortie})
  {
    var entree := FichierTemporaire(millisEnc, ".enc");
    var sortie := FichierTemporaire(millisDec, ".dec");
    var ecrits := fichiers[entree := JoinSpace(xs)];
    var argv := ArgumentsDechiffrement(nom, millisEnc, millisDec);
    var texte := Dechiffres(CleRSA(n, d, 0, 0, 0, true), xs);
    CommandeDechiffrement(tirages, corrige, fichiers, nom, xs, millisEnc, millisDec, n, d);
    LancementReussi(tirages, corrige, argv, ecrits);
    DechiffrementReussi(OutilC(tirages, corrige), fichiers, nom, JoinSpace(xs), millisEnc, millisDec, ecrits[sortie := texte]);
    RetirerTemporaires(fichiers, entree, JoinSpace(xs), sortie, texte);
  }

  lemma RetirerTemporaires(fichiers: Disque, entree: string, a: string, sortie: string, b: string)
    ensures fichiers[entree := a][sortie := b] - {entree} - {sortie} == fichiers - {entree} - {sortie}
  {
  }

  /** Create the keys of a user, encrypt a message for that user, decrypt
      it: the text that comes back is the message without its line
      terminators (the message itself when it has none), and all the
      temporary files are gone; this holds whenever the draws make an RSA
      pair, which they always do with the corrected test. */
  lemma {:induction false} AllerRetourJava(tirages: seq<nat>, corrige: bool, fichiers: Disque, nom: string, message: string,
                                           millis: nat, millisEnc: nat, millisDec: nat)
    requires TirageRsa(tirages, corrige) && Transmissible(nom) && Transmissible(message)
    ensures
      var outil := OutilC(tirages, corrige);
      var (ok, f1) := EffetGeneration(outil, fichiers, nom);
      var (chiffre, f2) := EffetChiffrement(outil, f1, nom, message, millis);
      && ok && chiffre.Some?
      && var (clair, f3) := EffetDechiffrement(outil, f2, nom, chiffre.value, millisEnc, millisDec);
      && clair == Some(SansFinsDeLigne(message))
      && f3 == f1 - {FichierTemporaire(millis, ".enc")} - {FichierTemporaire(millisEnc, ".enc")}
                  - {FichierTemporaire(millisDec, ".dec")}
  {
    var p, q, e, d := GenerationJava(tirages, corrige, fichiers, nom);
    var n := p * q;
    var publique, privee := CheminClePublique(nom), CheminClePrivee(nom);
    PubliqueDistincteDePrivee(nom, nom);
    var f1 := fichiers[publique := FormatCle(n, e)][privee := FormatCle(n, d)];
    ChiffrementJava(tirages, corrige, f1, nom, message, millis, n, e);
    var xs := Chiffres(CleRSA(n, e, 0, 0, 0, true), message);
    var f2 := f1 - {FichierTemporaire(millis, ".enc")};
    ClesDistinctesDesTemporaires(nom, millis, ".enc");
    DechiffrementJava(tirages, corrige, f2, nom, xs, millisEnc, millisDec, n, d);
    AllerRetourOctets(p, q, e, d, message);
  }

  /** The effect of the wrong exit status on the client: with no key file
      for the recipient the tool as written exits with status 0 all the
      same, and `chiffrerMessage` returns null only because no output file
      was written; corrected, the tool exits with status 1 and the client
      stops there. */
  lemma {:induction false} ChiffrementSansCleJava(tirages: seq<nat>, fichiers: Disque, nom: string,
                                                  message: string, millis: nat)
    requires Transmissible(nom) && Transmissible(message)
    requires CheminClePublique(nom) !in fichiers && FichierTemporaire(millis, ".enc") !in fichiers
    ensures OutilC(tirages, false)(ArgumentsChiffrement(nom, message, millis), fichiers) == Termine(fichiers, 0)
    ensures OutilC(tirages, true)(ArgumentsChiffrement(nom, message, millis), fichiers) == Termine(fichiers, 1)
    ensures EffetChiffrement(OutilC(tirages, false), fichiers, nom, message, millis) == (None, fichiers)
    ensures EffetChiffrement(OutilC(tirages, true), fichiers, nom, message, millis) == (None, fichiers)
  {
    ChiffrementAccepte(nom, message, millis);
  }
}
