/** `main` of the RSA tool: the command-line dispatcher and the exit
    status the Java side relies on. */
module Outil {
  import opened Wrappers
  import opened Fichiers
  import opened CleRsa
  import opened Chiffrement
  import opened GenerationCles

  /** How a run of the tool ends: with an exit status, or not at all when
      key generation runs out of the draws given. */
  datatype Statut = Code(valeur: int) | SansFin

  /** The status a parent process sees for a child killed by SIGFPE
      (signal 8): 128 + 8. */
  const CodePlantage := 136

  /** The arguments a C program receives: byte strings without NUL, the
      program name first. */
  predicate ArgumentsC(argv: seq<string>) {
    |argv| >= 1 && forall i :: 0 <= i < |argv| ==> EstOctets(argv[i]) && '\0' !in argv[i]
  }

  /** The status `main` returns when it stops before running a command:
      1 for a missing or unknown command or the wrong number of
      arguments, 0 when it goes on to run the command. */
  function CodeArguments(argv: seq<string>): int
    requires |argv| >= 1
  {
    if |argv| < 2 then 1
    else if argv[1] == "generer" then (if |argv| != 4 then 1 else 0)
    else if argv[1] == "chiffrer" then (if |argv| != 5 then 1 else 0)
    else if argv[1] == "dechiffrer" then (if |argv| != 5 then 1 else 0)
    else 1
  }

  /** The command `main` runs once the arguments are accepted; `corrige`
      selects the primality test of `generer_premier`. */
  ghost function Commande(argv: seq<string>, tirages: seq<nat>, disque: Disque, corrige: bool): (r: (Disque, Issue))
    requires ArgumentsC(argv) && CodeArguments(argv) == 0
    ensures r.1 == Epuise ==> argv[1] == "generer"
    ensures r.1 == Plantage ==> argv[1] != "generer"
    ensures var sorties := if argv[1] == "generer" then {argv[2], argv[3]} else {argv[4]};
      r.0 - sorties == disque - sorties
  {
    if argv[1] == "generer" then Generation(argv[2], argv[3], tirages, disque, corrige)
    else if argv[1] == "chiffrer" then ChiffrementAvecCle(LireCle(disque, argv[2]), argv[3], argv[4], disque)
    else DechiffrementAvecCle(LireCle(disque, argv[2]), argv[3], argv[4], disque)
  }

  /** How `main` as written ends after a command: 0 whether the command
      succeeded or printed an error. */
  function StatutTel(issue: Issue): Statut {
    match issue
    case Plantage => Code(CodePlantage)
    case Epuise => SansFin
    case _ => Code(0)
  }

  /** How `main` ought to end after a command: 1 when it failed. */
  function StatutCorrige(issue: Issue): Statut {
    match issue
    case Plantage => Code(CodePlantage)
    case Epuise => SansFin
    case Echec => Code(1)
    case Reussi => Code(0)
  }

  /** A whole run: the files afterwards and the status; `corrige` selects
      the tool as written or with both of its defects repaired. */
  ghost function Execution(argv: seq<string>, tirages: seq<nat>, disque: Disque, corrige: bool): (r: (Disque, Statut))
    requires ArgumentsC(argv)
    ensures CodeArguments(argv) == 1 ==> r == (disque, Code(1))
    ensures r.1.Code? ==> r.1.valeur in {0, 1, CodePlantage}
    ensures r.1.SansFin? ==> argv[1] == "generer"
  {
    if CodeArguments(argv) == 1 then (disque, Code(1))
    else
      var (apres, issue) := Commande(argv, tirages, disque, corrige);
      (apres, if corrige then StatutCorrige(issue) else StatutTel(issue))
  }

  /** Runs the command `argv[1]` names; the arguments are accepted. */
  method Lancer(argv: seq<string>, tirages: seq<nat>, disque: Disque, corrige: bool) returns (disque': Disque, issue: Issue)
    requires ArgumentsC(argv) && CodeArguments(argv) == 0
    ensures (disque', issue) == Commande(argv, tirages, disque, corrige)
  {
    if argv[1] == "generer" {
      disque', issue := GenererCles(argv[2], argv[3], tirages, disque, corrige);
    } else if argv[1] == "chiffrer" {
      disque', issue := Chiffrer(argv[2], argv[3], argv[4], disque);
    } else {
      disque', issue := Dechiffrer(argv[2], argv[3], argv[4], disque);
    }
  }

  /** `main` as written. */
  method Crypto(argv: seq<string>, tirages: seq<nat>, disque: Disque) returns (disque': Disque, statut: Statut)
    requires ArgumentsC(argv)
    ensures (disque', statut) == Execution(argv, tirages, disque, false)
  {
    if |argv| < 2 {
      return disque, Code(1);
    }
    if argv[1] == "generer" {
      if |argv| != 4 {
        return disque, Code(1);
      }
    } else if argv[1] == "chiffrer" {
      if |argv| != 5 {
        return disque, Code(1);
      }
    } else if argv[1] == "dechiffrer" {
      if |argv| != 5 {
        return disque, Code(1);
      }
    } else {
      return disque, Code(1);
    }
    var issue;
    disque', issue := Lancer(argv, tirages, disque, false);
    statut := StatutTel(issue);
  }

  /** `main` with the status of the command passed on, and keys drawn with
      the corrected primality test. */
  method CryptoCorrige(argv: seq<string>, tirages: seq<nat>, disque: Disque) returns (disque': Disque, statut: Statut)
    requires ArgumentsC(argv)
    ensures (disque', statut) == Execution(argv, tirages, disque, true)
  {
    if CodeArguments(argv) == 1 {
      return disque, Code(1);
    }
    var issue;
    disque', issue := Lancer(argv, tirages, disque, true);
    statut := StatutCorrige(issue);
  }

  /** As written, the exit status is 1 exactly when the arguments are
      refused, and otherwise 0 unless the run crashed or did not end: it
      never tells a failed command from a successful one. */
  lemma StatutIgnoreLaCommande(argv: seq<string>, tirages: seq<nat>, disque: Disque)
    requires ArgumentsC(argv)
    ensures Execution(argv, tirages, disque, false).1 == Code(1) <==> CodeArguments(argv) == 1
    ensures CodeArguments(argv) == 0 ==>
      (Execution(argv, tirages, disque, false).1 == Code(0) <==> Commande(argv, tirages, disque, false).1 in {Reussi, Echec})
  {
  }

  /** A run that shows it: encrypting with a key file that does not exist
      writes nothing, yet `main` as written returns 0 (corrected, 1). */
  lemma ChiffrerSansCleRetourneZero(argv: seq<string>, tirages: seq<nat>, disque: Disque)
    requires ArgumentsC(argv) && |argv| == 5 && argv[1] == "chiffrer" && argv[2] !in disque
    ensures Commande(argv, tirages, disque, false) == (disque, Echec)
    ensures Commande(argv, tirages, disque, true) == (disque, Echec)
    ensures Execution(argv, tirages, disque, false) == (disque, Code(0))
    ensures Execution(argv, tirages, disque, true) == (disque, Code(1))
  {
    assert argv[1] != "generer";
  }

  /** The same, on a concrete command line. */
  lemma ChiffrerSansCleExemple()
    ensures
      var argv := ["./crypto", "chiffrer", "keys/bob_public.key", "salut", "temp/msg.enc"];
      && ArgumentsC(argv)
      && Execution(argv, [], map[], false) == (map[], Code(0))
  {
    var argv := ["./crypto", "chiffrer", "keys/bob_public.key", "salut", "temp/msg.enc"];
    ArgumentsExemple(argv);
    ChiffrerSansCleRetourneZero(argv, [], map[]);
  }

  lemma ArgumentsExemple(argv: seq<string>)
    requires argv == ["./crypto", "chiffrer", "keys/bob_public.key", "salut", "temp/msg.enc"]
    ensures ArgumentsC(argv)
  {
    ChaineC("./crypto");
    ChaineC("chiffrer");
    ChaineC("keys/bob_public.key");
    ChaineC("salut");
    ChaineC("temp/msg.enc");
  }

  /** A string of non-NUL bytes can be passed to `main`. */
  lemma ChaineC(s: string)
    requires forall i :: 0 <= i < |s| ==> 0 < s[i] as int < 128
    ensures EstOctets(s) && '\0' !in s
  {
  }

  /** Corrected, the status is 0 exactly when the command succeeded. */
  lemma {:induction false} StatutCorrigeFidele(argv: seq<string>, tirages: seq<nat>, disque: Disque)
    requires ArgumentsC(argv)
    ensures Execution(argv, tirages, disque, true).1 == Code(0) <==>
      CodeArguments(argv) == 0 && Commande(argv, tirages, disque, true).1 == Reussi
  {
    if CodeArguments(argv) == 0 {
      var issue := Commande(argv, tirages, disque, true).1;
      assert Execution(argv, tirages, disque, true).1 == StatutCorrige(issue);
    }
  }
}
