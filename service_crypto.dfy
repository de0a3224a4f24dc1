/** `CryptoManager`: the client side of the RSA tool. It derives the key
    file paths from a user name, runs the tool as a child process, and
    turns the tool's exit status and output file into a Java value. The
    tool, the clock and the file system are inputs: the tool is an
    oracle from arguments and files to how the child ended. */
module ServiceCrypto {
  import opened Wrappers
  import opened Fichiers
  import opened Decimal
  import opened TexteJava

  const Executable := "./crypto"
  const RepertoireCles := "keys/"
  const RepertoireTemp := "temp/"

  /** How a child process ended, as `ProcessBuilder.start` and
      `Process.waitFor` report it: with an exit status and the files it
      left, with an IOException before it started (nothing changed), or
      with an InterruptedException while waiting (files as they were then). */
  datatype Lancement = Termine(fichiers: Disque, code: int) | EchecLancement | Interrompu(fichiers: Disque)

  /** The tool: its arguments and the files before the run determine how
      the run ends. */
  type Outil = (seq<string>, Disque) -> Lancement

  function CheminClePublique(nom: string): string {
    RepertoireCles + nom + "_public.key"
  }

  function CheminClePrivee(nom: string): string {
    RepertoireCles + nom + "_private.key"
  }

  /** A temporary file named after `System.currentTimeMillis()`. */
  function FichierTemporaire(millis: nat, extension: string): string {
    RepertoireTemp + "msg_" + NatToString(millis) + extension
  }

  // ---------------------------------------------------------------------
  // The paths

  /** Different users get different public key files. */
  lemma {:induction false} CheminClePubliqueInjectif(u: string, v: string)
    ensures CheminClePublique(u) == CheminClePublique(v) <==> u == v
  {
    if CheminClePublique(u) == CheminClePublique(v) {
      Decoupe(RepertoireCles, u + "_public.key");
      Decoupe(RepertoireCles, v + "_public.key");
      assert CheminClePublique(u) == RepertoireCles + (u + "_public.key");
      assert CheminClePublique(v) == RepertoireCles + (v + "_public.key");
      Decoupe(u, "_public.key");
      Decoupe(v, "_public.key");
    }
  }

  /** Different users get different private key files. */
  lemma {:induction false} CheminClePriveeInjectif(u: string, v: string)
    ensures CheminClePrivee(u) == CheminClePrivee(v) <==> u == v
  {
    if CheminClePrivee(u) == CheminClePrivee(v) {
      Decoupe(RepertoireCles, u + "_private.key");
      Decoupe(RepertoireCles, v + "_private.key");
      assert CheminClePrivee(u) == RepertoireCles + (u + "_private.key");
      assert CheminClePrivee(v) == RepertoireCles + (v + "_private.key");
      Decoupe(u, "_private.key");
      Decoupe(v, "_private.key");
    }
  }

  /** No public key file is anyone's private key file: the fifth character
      from the end is 'c' in one and 'e' in the other. */
  lemma {:induction false} PubliqueDistincteDePrivee(u: string, v: string)
    ensures CheminClePublique(u) != CheminClePrivee(v)
  {
    var a, b := CheminClePublique(u), CheminClePrivee(v);
    assert a == (RepertoireCles + u) + "_public.key";
    assert b == (RepertoireCles + v) + "_private.key";
    assert a[|a| - 5] == 'c';
    assert b[|b| - 5] == 'e';
  }

  /** Key files live under "keys/", temporary files under "temp/". */
  lemma {:induction false} ClesDistinctesDesTemporaires(u: string, millis: nat, extension: string)
    ensures CheminClePublique(u) != FichierTemporaire(millis, extension)
    ensures CheminClePrivee(u) != FichierTemporaire(millis, extension)
  {
    assert CheminClePublique(u)[0] == 'k';
    assert CheminClePrivee(u)[0] == 'k';
    assert FichierTemporaire(millis, extension)[0] == 't';
  }

  /** The ciphertext and plaintext files of one decryption never coincide,
      whatever the two clock readings. */
  lemma {:induction false} TemporairesDistincts(a: nat, b: nat)
    ensures FichierTemporaire(a, ".enc") != FichierTemporaire(b, ".dec")
  {
    var x, y := FichierTemporaire(a, ".enc"), FichierTemporaire(b, ".dec");
    assert x == (RepertoireTemp + "msg_" + NatToString(a)) + ".enc";
    assert y == (RepertoireTemp + "msg_" + NatToString(b)) + ".dec";
    assert x[|x| - 3] == 'e';
    assert y[|y| - 3] == 'd';
  }

  // ---------------------------------------------------------------------
  // What each call does

  function ArgumentsGeneration(nom: string): seq<string> {
    [Executable, "generer", CheminClePublique(nom), CheminClePrivee(nom)]
  }

  function ArgumentsChiffrement(nom: string, message: string, millis: nat): seq<string> {
    [Executable, "chiffrer", CheminClePublique(nom), message, FichierTemporaire(millis, ".enc")]
  }

  function ArgumentsDechiffrement(nom: string, millisEnc: nat, millisDec: nat): seq<string> {
    [Executable, "dechiffrer", CheminClePrivee(nom), FichierTemporaire(millisEnc, ".enc"), FichierTemporaire(millisDec, ".dec")]
  }

  /** `genererCles`: true exactly when the tool exited with status 0. */
  function EffetGeneration(outil: Outil, fichiers: Disque, nom: string): (r: (bool, Disque))
    ensures r.0 <==> outil(ArgumentsGeneration(nom), fichiers) == Termine(r.1, 0)
    ensures outil(ArgumentsGeneration(nom), fichiers).EchecLancement? ==> r.1 == fichiers
  {
    match outil(ArgumentsGeneration(nom), fichiers)
    case Termine(f, code) => (code == 0, f)
    case EchecLancement => (false, fichiers)
    case Interrompu(f) => (false, f)
  }

  /** `chiffrerMessage`: on status 0 the output file's lines, each followed
      by "\n", trimmed, and the file deleted; null when the status is not
      0, the output file is missing (FileNotFoundException) or the run
      failed, and then the file is left where it is. */
  function EffetChiffrement(outil: Outil, fichiers: Disque, nom: string, message: string, millis: nat)
    : (r: (Option<string>, Disque))
    ensures var lancement := outil(ArgumentsChiffrement(nom, message, millis), fichiers);
      r.0.None? ==> r.1 == if lancement.EchecLancement? then fichiers else lancement.fichiers
    ensures var lancement := outil(ArgumentsChiffrement(nom, message, millis), fichiers);
      var sortie := FichierTemporaire(millis, ".enc");
      r.0.Some? ==> lancement.Termine? && lancement.code == 0 && sortie in lancement.fichiers
                    && r.1 == lancement.fichiers - {sortie}
  {
    var sortie := FichierTemporaire(millis, ".enc");
    match outil(ArgumentsChiffrement(nom, message, millis), fichiers)
    case Termine(f, code) =>
      if code != 0 || sortie !in f then (None, f)
      else (Some(Trim(JoindreLignes(Lignes(f[sortie])))), f - {sortie})
    case EchecLancement => (None, fichiers)
    case Interrompu(f) => (None, f)
  }

  /** `dechiffrerMessage`: the ciphertext is first written to a temporary
      file; on status 0 the output file's lines are concatenated with no
      separator and both temporary files are deleted; otherwise null, and
      the temporary files stay. */
  function EffetDechiffrement(outil: Outil, fichiers: Disque, nom: string, contenuChiffre: string,
                              millisEnc: nat, millisDec: nat): (r: (Option<string>, Disque))
    ensures var ecrits := fichiers[FichierTemporaire(millisEnc, ".enc") := contenuChiffre];
      var lancement := outil(ArgumentsDechiffrement(nom, millisEnc, millisDec), ecrits);
      r.0.None? ==> r.1 == if lancement.EchecLancement? then ecrits else lancement.fichiers
    ensures var ecrits := fichiers[FichierTemporaire(millisEnc, ".enc") := contenuChiffre];
      var lancement := outil(ArgumentsDechiffrement(nom, millisEnc, millisDec), ecrits);
      var sortie := FichierTemporaire(millisDec, ".dec");
      r.0.Some? ==> lancement.Termine? && lancement.code == 0 && sortie in lancement.fichiers
                    && r.1 == lancement.fichiers - {FichierTemporaire(millisEnc, ".enc")} - {sortie}
  {
    var entree := FichierTemporaire(millisEnc, ".enc");
    var sortie := FichierTemporaire(millisDec, ".dec");
    var ecrits := fichiers[entree := contenuChiffre];
    match outil(ArgumentsDechiffrement(nom, millisEnc, millisDec), ecrits)
    case Termine(f, code) =>
      if code != 0 || sortie !in f then (None, f)
      else (Some(Concatener(Lignes(f[sortie]))), f - {entree} - {sortie})
    case EchecLancement => (None, ecrits)
    case Interrompu(f) => (None, f)
  }

  // ---------------------------------------------------------------------
  // Properties of the calls, for any tool

  /** The text `chiffrerMessage` returns has no blank at either end, and it
      comes from a run that exited with status 0 and left its output
      file, which is then gone. */
  lemma {:induction false} ChiffrementResultat(outil: Outil, fichiers: Disque, nom: string, message: string, millis: nat)
    ensures var (r, apres) := EffetChiffrement(outil, fichiers, nom, message, millis);
      var sortie := FichierTemporaire(millis, ".enc");
      r.Some? ==>
        && r.value == Trim(r.value)
        && (r.value != [] ==> !EstBlanc(r.value[0]) && !EstBlanc(r.value[|r.value| - 1]))
        && outil(ArgumentsChiffrement(nom, message, millis), fichiers).Termine?
        && outil(ArgumentsChiffrement(nom, message, millis), fichiers).code == 0
        && sortie !in apres
  {
    var (r, apres) := EffetChiffrement(outil, fichiers, nom, message, millis);
    if r.Some? {
      var sortie := FichierTemporaire(millis, ".enc");
      var f := outil(ArgumentsChiffrement(nom, message, millis), fichiers).fichiers;
      var t := JoindreLignes(Lignes(f[sortie]));
      TrimIdempotent(t);
      TrimSpec(t);
    }
  }

  /** On a failed run the temporary file is not cleaned up: whatever the
      tool left is still there. */
  lemma {:induction false} ChiffrementEchoueLaisseLeFichier(outil: Outil, fichiers: Disque, nom: string, message: string, millis: nat)
    requires outil(ArgumentsChiffrement(nom, message, millis), fichiers).Termine?
    requires outil(ArgumentsChiffrement(nom, message, millis), fichiers).code != 0
    ensures EffetChiffrement(outil, fichiers, nom, message, millis).0 == None
    ensures EffetChiffrement(outil, fichiers, nom, message, millis).1
      == outil(ArgumentsChiffrement(nom, message, millis), fichiers).fichiers
  {
  }

  /** The text `dechiffrerMessage` returns is the output file with every
      line terminator dropped, so it never holds '\n' or '\r'; both
      temporary files are then gone. */
  lemma {:induction false} DechiffrementResultat(outil: Outil, fichiers: Disque, nom: string, contenuChiffre: string,
                                                 millisEnc: nat, millisDec: nat)
    ensures var (r, apres) := EffetDechiffrement(outil, fichiers, nom, contenuChiffre, millisEnc, millisDec);
      var entree := FichierTemporaire(millisEnc, ".enc");
      var sortie := FichierTemporaire(millisDec, ".dec");
      var lancement := outil(ArgumentsDechiffrement(nom, millisEnc, millisDec), fichiers[entree := contenuChiffre]);
      r.Some? ==>
        && lancement.Termine? && lancement.code == 0 && sortie in lancement.fichiers
        && r.value == SansFinsDeLigne(lancement.fichiers[sortie])
        && (forall i :: 0 <= i < |r.value| ==> !EstFinDeLigne(r.value[i]))
        && entree !in apres && sortie !in apres
  {
    var (r, apres) := EffetDechiffrement(outil, fichiers, nom, contenuChiffre, millisEnc, millisDec);
    if r.Some? {
      var entree := FichierTemporaire(millisEnc, ".enc");
      var sortie := FichierTemporaire(millisDec, ".dec");
      var f := outil(ArgumentsDechiffrement(nom, millisEnc, millisDec), fichiers[entree := contenuChiffre]).fichiers;
      ConcatenerLignes(f[sortie]);
      SansFinsDeLigneSansFin(f[sortie]);
    }
  }

  /** Conversely, a run that exits with status 0 and leaves its output file
      makes `dechiffrerMessage` return that file less its line
      terminators, and remove both temporary files. */
  lemma DechiffrementReussi(outil: Outil, fichiers: Disque, nom: string, contenuChiffre: string,
                            millisEnc: nat, millisDec: nat, f: Disque)
    requires outil(ArgumentsDechiffrement(nom, millisEnc, millisDec),
                   fichiers[FichierTemporaire(millisEnc, ".enc") := contenuChiffre]) == Termine(f, 0)
    requires FichierTemporaire(millisDec, ".dec") in f
    ensures EffetDechiffrement(outil, fichiers, nom, contenuChiffre, millisEnc, millisDec)
      == (Some(SansFinsDeLigne(f[FichierTemporaire(millisDec, ".dec")])),
          f - {FichierTemporaire(millisEnc, ".enc")} - {FichierTemporaire(millisDec, ".dec")})
  {
    ConcatenerLignes(f[FichierTemporaire(millisDec, ".dec")]);
  }

  /** If the child could not even be started, the ciphertext stays behind
      in its temporary file. */
  lemma DechiffrementNonLanceLaisseLeFichier(outil: Outil, fichiers: Disque, nom: string, contenuChiffre: string,
                                              millisEnc: nat, millisDec: nat)
    requires outil(ArgumentsDechiffrement(nom, millisEnc, millisDec),
                   fichiers[FichierTemporaire(millisEnc, ".enc") := contenuChiffre]).EchecLancement?
    ensures var (r, apres) := EffetDechiffrement(outil, fichiers, nom, contenuChiffre, millisEnc, millisDec);
      r == None && FichierTemporaire(millisEnc, ".enc") in apres
      && apres[FichierTemporaire(millisEnc, ".enc")] == contenuChiffre
  {
  }

  class GestionnaireCrypto {
    var fichiers: Disque
    const outil: Outil

    /** The directories `keys/` and `temp/` are implicit in the paths. */
    constructor (outil: Outil, fichiers: Disque)
      ensures this.outil == outil && this.fichiers == fichiers
    {
      this.outil := outil;
      this.fichiers := fichiers;
    }

    method GenererCles(nomUtilisateur: string) returns (ok: bool)
      modifies this
      ensures (ok, fichiers) == EffetGeneration(outil, old(fichiers), nomUtilisateur)
    {
      var lancement := outil([Executable, "generer", CheminClePublique(nomUtilisateur), CheminClePrivee(nomUtilisateur)], fichiers);
      match lancement {
        case EchecLancement =>
          ok := false;
        case Interrompu(f) =>
          fichiers := f;
          ok := false;
        case Termine(f, code) =>
          fichiers := f;
          ok := code == 0;
      }
    }

    method ChiffrerMessage(nomDestinataire: string, message: string, millis: nat) returns (r: Option<string>)
      modifies this
      ensures (r, fichiers) == EffetChiffrement(outil, old(fichiers), nomDestinataire, message, millis)
    {
      var clePublique := CheminClePublique(nomDestinataire);
      var fichierChiffre := FichierTemporaire(millis, ".enc");
      var argv := [Executable, "chiffrer", clePublique, message, fichierChiffre];
      assert argv == ArgumentsChiffrement(nomDestinataire, message, millis);
      var lancement := outil(argv, fichiers);
      if lancement.EchecLancement? {
        return None;
      }
      fichiers := lancement.fichiers;
      if lancement.Interrompu? || lancement.code != 0 || fichierChiffre !in fichiers {
        return None;
      }
      var texte := fichiers[fichierChiffre];
      var contenu := "";
      var reste := texte;
      var ligne := LireLigne(reste);
      while ligne.Some?
        invariant ligne == LireLigne(reste)
        invariant fichiers == lancement.fichiers
        invariant contenu + JoindreLignes(Lignes(reste)) == JoindreLignes(Lignes(texte))
        decreases |reste|
      {
        var (l, suite) := ligne.value;
        assert Lignes(reste) == [l] + Lignes(suite);
        assert ([l] + Lignes(suite))[1..] == Lignes(suite);
        contenu := contenu + l + "\n";
        reste := suite;
        ligne := LireLigne(reste);
      }
      assert Lignes(reste) == [];
      assert contenu == JoindreLignes(Lignes(texte));
      fichiers := fichiers - {fichierChiffre};
      r := Some(Trim(contenu));
    }

    method DechiffrerMessage(nomUtilisateur: string, contenuChiffre: string, millisEnc: nat, millisDec: nat)
      returns (r: Option<string>)
      modifies this
      ensures (r, fichiers) == EffetDechiffrement(outil, old(fichiers), nomUtilisateur, contenuChiffre, millisEnc, millisDec)
    {
      var clePrivee := CheminClePrivee(nomUtilisateur);
      var fichierChiffre := FichierTemporaire(millisEnc, ".enc");
      var fichierDechiffre := FichierTemporaire(millisDec, ".dec");
      fichiers := fichiers[fichierChiffre := contenuChiffre];
      var argv := [Executable, "dechiffrer", clePrivee, fichierChiffre, fichierDechiffre];
      assert argv == ArgumentsDechiffrement(nomUtilisateur, millisEnc, millisDec);
      var lancement := outil(argv, fichiers);
      if lancement.EchecLancement? {
        return None;
      }
      fichiers := lancement.fichiers;
      if lancement.Interrompu? || lancement.code != 0 || fichierDechiffre !in fichiers {
        return None;
      }
      var contenu := LireContenu(fichiers[fichierDechiffre]);
      ConcatenerLignes(fichiers[fichierDechiffre]);
      fichiers := fichiers - {fichierChiffre};
      fichiers := fichiers - {fichierDechiffre};
      r := Some(contenu);
    }

    /** `cleesExistent`: both key files of the user are there. */
    method CleesExistent(nomUtilisateur: string) returns (b: bool)
      ensures b <==> CheminClePublique(nomUtilisateur) in fichiers && CheminClePrivee(nomUtilisateur) in fichiers
    {
      var clePublique := CheminClePublique(nomUtilisateur);
      var clePrivee := CheminClePrivee(nomUtilisateur);
      b := clePublique in fichiers && clePrivee in fichiers;
    }
  }
}
