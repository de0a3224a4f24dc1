/** The per-character cipher of the RSA tool: `chiffrer_avec_cle` writes
    one number per byte of the message, `dechiffrer_avec_cle` turns every
    number it can read back into one byte, and `chiffrer` / `dechiffrer`
    first read the key with `lire_cle`. */
module Chiffrement {
  import opened Wrappers
  import opened Fichiers
  import opened Modular
  import opened CryptoMath
  import opened Decimal
  import opened CleRsa

  /** The characters of a C string are bytes. */
  predicate EstOctets(s: string) {
    forall i :: 0 <= i < |s| ==> s[i] as int < 256
  }

  /** `strlen` (and `longeur`): the length up to the first NUL byte. */
  function Strlen(s: string): (k: nat)
    ensures k <= |s|
    ensures forall i :: 0 <= i < k ==> s[i] != '\0'
    ensures k < |s| ==> s[k] == '\0'
    decreases |s|
  {
    if s == [] || s[0] == '\0' then 0 else 1 + Strlen(s[1..])
  }

  /** `(int) message[i]`: `char` is signed, so bytes from 128 up become
      negative. */
  function SignedChar(c: char): int
    requires c as int < 256
  {
    if c as int < 128 then c as int else c as int - 256
  }

  /** `(char) x` written with `%c`: the low eight bits. */
  function Octet(x: int): char {
    (x % 256) as char
  }

  /** The numbers written for the bytes of a message. */
  function Chiffres(cle: CleRSA, octets: string): seq<int>
    requires EstOctets(octets) && (cle.n != 0 || octets == [])
  {
    seq(|octets|, i requires 0 <= i < |octets| => ExpMod(SignedChar(octets[i]), cle.e, cle.n))
  }

  /** The bytes written for the numbers read. */
  function Dechiffres(cle: CleRSA, xs: seq<int>): string
    requires cle.n != 0 || xs == []
  {
    seq(|xs|, i requires 0 <= i < |xs| => Octet(ExpMod(xs[i], cle.e, cle.n)))
  }

  /** The effect of `chiffrer_avec_cle`: nothing without a key; otherwise
      the output file is created, and receives every number followed by a
      space, unless the first `exp_modulaire` divides by a zero modulus. */
  function ChiffrementAvecCle(cle: Option<CleRSA>, message: string, sortie: string, disque: Disque): (r: (Disque, Issue))
    requires EstOctets(message)
    ensures r.1 == Echec <==> cle.None?
    ensures r.1 == Echec ==> r.0 == disque
    ensures r.1 != Echec ==> sortie in r.0 && r.0 - {sortie} == disque - {sortie}
    ensures r.1 == Plantage <==> cle.Some? && cle.value.n == 0 && Strlen(message) > 0
  {
    if cle.None? then (disque, Echec)
    else
      var octets := message[..Strlen(message)];
      if cle.value.n == 0 && octets != [] then (disque[sortie := ""], Plantage)
      else (disque[sortie := FormatNumbers(Chiffres(cle.value, octets))], Reussi)
  }

  /** The effect of `dechiffrer_avec_cle`: nothing without a key or an
      input file; otherwise the output file is created first (so an input
      file that is also the output reads as empty), then receives one byte
      per number read, unless the first `exp_modulaire` divides by a zero
      modulus. */
  function DechiffrementAvecCle(cle: Option<CleRSA>, entree: string, sortie: string, disque: Disque): (r: (Disque, Issue))
    ensures r.1 == Echec <==> cle.None? || entree !in disque
    ensures r.1 == Echec ==> r.0 == disque
    ensures r.1 != Echec ==> sortie in r.0 && r.0 - {sortie} == disque - {sortie}
    ensures r.1 != Echec && entree == sortie ==> r.0[sortie] == ""
  {
    if cle.None? || entree !in disque then (disque, Echec)
    else
      var cree := disque[sortie := ""];
      var lus := ScanNumbers(cree[entree]);
      if cle.value.n == 0 && lus != [] then (cree, Plantage)
      else (disque[sortie := Dechiffres(cle.value, lus)], Reussi)
  }

  lemma {:induction false} FormatNumbersAppend(xs: seq<int>, x: int)
    ensures FormatNumbers(xs + [x]) == FormatNumbers(xs) + (IntToString(x) + " ")
    decreases |xs|
  {
    if xs == [] {
      assert xs + [x] == [x];
      assert FormatNumbers([x]) == IntToString(x) + " " + FormatNumbers([]);
    } else {
      FormatNumbersCons(xs, x);
      FormatNumbersAppend(xs[1..], x);
      ConcatAssoc(IntToString(xs[0]) + " ", FormatNumbers(xs[1..]), IntToString(x) + " ");
    }
  }

  lemma FormatNumbersCons(xs: seq<int>, x: int)
    requires xs != []
    ensures FormatNumbers(xs + [x]) == IntToString(xs[0]) + " " + FormatNumbers(xs[1..] + [x])
    ensures FormatNumbers(xs) == IntToString(xs[0]) + " " + FormatNumbers(xs[1..])
  {
    assert (xs + [x])[0] == xs[0];
    assert (xs + [x])[1..] == xs[1..] + [x];
  }

  lemma ConcatAssoc(a: string, b: string, c: string)
    ensures a + (b + c) == (a + b) + c
  {
  }

  /** One step of the encryption loop: the file text grows by the next
      number and a space. */
  lemma PasChiffrement(cle: CleRSA, message: string, i: nat)
    requires EstOctets(message) && cle.n != 0 && i < |message|
    ensures FormatNumbers(Chiffres(cle, message[..i + 1]))
      == FormatNumbers(Chiffres(cle, message[..i])) + (IntToString(ExpMod(SignedChar(message[i]), cle.e, cle.n)) + " ")
  {
    var x := ExpMod(SignedChar(message[i]), cle.e, cle.n);
    assert Chiffres(cle, message[..i + 1]) == Chiffres(cle, message[..i]) + [x];
    FormatNumbersAppend(Chiffres(cle, message[..i]), x);
  }

  /** `chiffrer_avec_cle`. */
  method ChiffrerAvecCle(cle: Option<CleRSA>, message: string, sortie: string, disque: Disque)
    returns (disque': Disque, issue: Issue)
    requires EstOctets(message)
    ensures (disque', issue) == ChiffrementAvecCle(cle, message, sortie, disque)
  {
    if cle.None? {
      return disque, Echec;
    }
    var k := cle.value;
    var len := Strlen(message);
    var texte := "";
    var i := 0;
    while i < len
      invariant 0 <= i <= len
      invariant k.n == 0 ==> i == 0 && texte == ""
      invariant k.n != 0 ==> texte == FormatNumbers(Chiffres(k, message[..i]))
    {
      if k.n == 0 {
        return disque[sortie := ""], Plantage;
      }
      var c := SignedChar(message[i]);
      var chiffre := ExpModulaire(c, k.e, k.n);
      PasChiffrement(k, message, i);
      texte := texte + (IntToString(chiffre) + " ");
      i := i + 1;
    }
    assert message[..i] == message[..Strlen(message)];
    return disque[sortie := texte], Reussi;
  }

  /** `dechiffrer_avec_cle`: `fscanf("%lld")` until a conversion fails. */
  method DechiffrerAvecCle(cle: Option<CleRSA>, entree: string, sortie: string, disque: Disque)
    returns (disque': Disque, issue: Issue)
    ensures (disque', issue) == DechiffrementAvecCle(cle, entree, sortie, disque)
  {
    if cle.None? || entree !in disque {
      return disque, Echec;
    }
    var k := cle.value;
    var cree := disque[sortie := ""];
    var lu := cree[entree];
    var reste := lu;
    var texte := "";
    ghost var lus: seq<int> := [];
    while ScanInt(reste).Some?
      invariant ScanNumbers(lu) == lus + ScanNumbers(reste)
      invariant k.n == 0 ==> lus == [] && texte == ""
      invariant k.n != 0 ==> texte == Dechiffres(k, lus)
      decreases |reste|
    {
      var chiffre := ScanInt(reste).value.0;
      ScanNumbersStep(reste, lus);
      reste := ScanInt(reste).value.1;
      if k.n == 0 {
        return cree, Plantage;
      }
      var dechiffre := ExpModulaire(chiffre, k.e, k.n);
      DechiffresAppend(k, lus, chiffre);
      texte := texte + [Octet(dechiffre)];
      lus := lus + [chiffre];
    }
    assert lus == ScanNumbers(lu) by {
      assert ScanNumbers(reste) == [];
    }
    return disque[sortie := texte], Reussi;
  }

  lemma ScanNumbersStep(s: string, lus: seq<int>)
    requires ScanInt(s).Some?
    ensures lus + ScanNumbers(s) == (lus + [ScanInt(s).value.0]) + ScanNumbers(ScanInt(s).value.1)
  {
  }

  lemma DechiffresAppend(cle: CleRSA, xs: seq<int>, x: int)
    requires cle.n != 0
    ensures Dechiffres(cle, xs + [x]) == Dechiffres(cle, xs) + [Octet(ExpMod(x, cle.e, cle.n))]
  {
  }

  /** `chiffrer`: read the key, then encrypt with it. */
  method Chiffrer(fichierCle: string, message: string, sortie: string, disque: Disque)
    returns (disque': Disque, issue: Issue)
    requires EstOctets(message)
    ensures (disque', issue) == ChiffrementAvecCle(LireCle(disque, fichierCle), message, sortie, disque)
  {
    var cle := LireCle(disque, fichierCle);
    if cle.None? {
      return disque, Echec;
    }
    disque', issue := ChiffrerAvecCle(cle, message, sortie, disque);
  }

  /** `dechiffrer`: read the key, then decrypt with it. */
  method Dechiffrer(fichierCle: string, entree: string, sortie: string, disque: Disque)
    returns (disque': Disque, issue: Issue)
    ensures (disque', issue) == DechiffrementAvecCle(LireCle(disque, fichierCle), entree, sortie, disque)
  {
    var cle := LireCle(disque, fichierCle);
    if cle.None? {
      return disque, Echec;
    }
    disque', issue := DechiffrerAvecCle(cle, entree, sortie, disque);
  }

  // ---------------------------------------------------------------------
  // What the files hold

  /** The ciphertext file holds exactly strlen(message) numbers, the i-th
      being exp_modulaire of the i-th byte, and they read back unchanged;
      each lies strictly between -n and n, and is in [0, n) for a byte
      below 128. */
  lemma {:induction false} ChiffrementLisible(cle: CleRSA, message: string, sortie: string, disque: Disque)
    requires EstOctets(message) && cle.n > 0
    ensures ChiffrementAvecCle(Some(cle), message, sortie, disque).1 == Reussi
    ensures
      var xs := ScanNumbers(ChiffrementAvecCle(Some(cle), message, sortie, disque).0[sortie]);
      && |xs| == Strlen(message)
      && (forall i :: 0 <= i < |xs| ==> xs[i] == ExpMod(SignedChar(message[i]), cle.e, cle.n))
      && (forall i :: 0 <= i < |xs| && cle.e > 0 ==> -cle.n < xs[i] < cle.n)
      && (forall i :: 0 <= i < |xs| && cle.e > 0 && message[i] as int < 128 ==> 0 <= xs[i] < cle.n)
  {
    var octets := message[..Strlen(message)];
    var xs := Chiffres(cle, octets);
    ScanFormatNumbers(xs);
    forall i | 0 <= i < |xs| && cle.e > 0
      ensures -cle.n < xs[i] < cle.n
      ensures message[i] as int < 128 ==> 0 <= xs[i] < cle.n
    {
      ExpModIsPowMod(SignedChar(message[i]), cle.e, cle.n);
      if message[i] as int < 128 {
        assert SignedChar(message[i]) >= 0;
      }
    }
  }

  /** Decrypting writes one byte per number the input file holds, each the
      low byte of exp_modulaire of that number. */
  lemma {:induction false} DechiffrementOctets(cle: CleRSA, entree: string, sortie: string, disque: Disque)
    requires cle.n != 0 && entree in disque && entree != sortie
    ensures DechiffrementAvecCle(Some(cle), entree, sortie, disque).1 == Reussi
    ensures
      var xs := ScanNumbers(disque[entree]);
      var texte := DechiffrementAvecCle(Some(cle), entree, sortie, disque).0[sortie];
      && |texte| == |xs|
      && (forall i :: 0 <= i < |xs| ==> texte[i] == Octet(ExpMod(xs[i], cle.e, cle.n)))
  {
    assert disque[sortie := ""][entree] == disque[entree];
  }
}
