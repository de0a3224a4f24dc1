/** `Main`: the console client's workflows over the database and the RSA
    tool. The session's current user is the mutable field `courant`;
    console input arrives as parameters (the typed name, message text and
    menu choice, and the clock readings behind temporary file names), and
    what the client prints is returned as an outcome. */
module Messagerie {
  import opened Wrappers
  import opened TexteJava
  import opened Entites
  import opened BaseDeDonnees
  import opened ServiceCrypto

  datatype IssueCompte = NomVide | DejaPris | EchecCles | EchecInsertion | Cree

  datatype IssueEnvoi = Introuvable | AuteurDestinataire | MessageVide | EchecChiffrement | EchecEnvoi | Envoye

  datatype IssueLecture = AucunMessage | Retour | EchecDechiffrement | Dechiffre(texte: string)

  /** What `getMessagesRecus` lists for the user: nothing when the query
      fails. */
  function Recus(connecte: bool, messages: seq<LigneMessage>, userId: int): seq<LigneMessage> {
    if connecte then RecusParDate(messages, userId) else []
  }

  /** The messages among `ms` whose flag is not set. */
  function NombreNonLus(ms: seq<LigneMessage>): nat
    decreases |ms|
  {
    if ms == [] then 0 else NombreNonLus(ms[..|ms| - 1]) + (if ms[|ms| - 1].lu then 0 else 1)
  }

  /** The messages among `ms` whose flag is set. */
  function NombreLus(ms: seq<LigneMessage>): nat
    decreases |ms|
  {
    if ms == [] then 0 else NombreLus(ms[..|ms| - 1]) + (if ms[|ms| - 1].lu then 1 else 0)
  }

  /** Every message is read or unread, and the unread ones are those not
      marked read: the statistics add up. */
  lemma {:induction false} LusEtNonLus(ms: seq<LigneMessage>)
    ensures NombreLus(ms) + NombreNonLus(ms) == |ms|
    ensures NombreNonLus(ms) == |ms| <==> forall i :: 0 <= i < |ms| ==> !ms[i].lu
    decreases |ms|
  {
    if ms != [] {
      var debut := ms[..|ms| - 1];
      LusEtNonLus(debut);
      if NombreNonLus(ms) == |ms| {
        forall i | 0 <= i < |ms|
          ensures !ms[i].lu
        {
          if i < |debut| {
            assert debut[i] == ms[i];
          }
        }
      }
      if forall i :: 0 <= i < |ms| ==> !ms[i].lu {
        assert forall i :: 0 <= i < |debut| ==> !debut[i].lu by {
          forall i | 0 <= i < |debut|
            ensures !debut[i].lu
          {
            assert debut[i] == ms[i];
          }
        }
      }
    }
  }

  /** Marking a message read takes one off the unread count when it was
      unread, and leaves the count alone otherwise (ids are distinct). */
  lemma {:induction false} MarquerLuNonLus(ms: seq<LigneMessage>, i: int)
    requires 0 <= i < |ms|
    requires forall a, b :: 0 <= a < b < |ms| ==> ms[a].id != ms[b].id
    ensures NombreNonLus(MarquerLu(ms, ms[i].id)) == NombreNonLus(ms) - (if ms[i].lu then 0 else 1)
    decreases |ms|
  {
    var r := MarquerLu(ms, ms[i].id);
    var n := |ms| - 1;
    assert r[..n] == MarquerLu(ms[..n], ms[i].id);
    if i < n {
      assert ms[..n][i] == ms[i];
      MarquerLuNonLus(ms[..n], i);
      assert r[n] == ms[n];
    } else {
      MarquerLuInconnu(ms[..n], ms[i].id);
    }
  }

  /** The name shown as a message's sender: the first listed user with the
      sender's id, or "Inconnu". */
  function NomExpediteur(us: seq<LigneUtilisateur>, id: int): (nom: string)
    ensures nom == "Inconnu" || exists i :: 0 <= i < |us| && us[i].id == id && us[i].nom == nom
    ensures (exists i :: 0 <= i < |us| && us[i].id == id) ==>
      exists i :: 0 <= i < |us| && us[i].id == id && us[i].nom == nom
    decreases |us|
  {
    if us == [] then "Inconnu"
    else if us[0].id == id then us[0].nom
    else
      var nom := NomExpediteur(us[1..], id);
      assert forall i :: 1 <= i < |us| ==> us[i] == us[1..][i - 1];
      nom
  }

  /** The names offered as recipients: every listed user but oneself. */
  function AutresNoms(us: seq<LigneUtilisateur>, id: int): (noms: seq<string>)
    ensures |noms| <= |us|
    decreases |us|
  {
    if us == [] then []
    else (if us[0].id != id then [us[0].nom] else []) + AutresNoms(us[1..], id)
  }

  /** A name is offered exactly when some listed user other than oneself
      bears it. */
  lemma {:induction false} AutresNomsMembres(us: seq<LigneUtilisateur>, id: int, x: string)
    ensures x in AutresNoms(us, id) <==> exists i :: 0 <= i < |us| && us[i].id != id && us[i].nom == x
    decreases |us|
  {
    if us != [] {
      AutresNomsMembres(us[1..], id, x);
      if x in AutresNoms(us[1..], id) {
        var i :| 0 <= i < |us[1..]| && us[1..][i].id != id && us[1..][i].nom == x;
        assert us[i + 1] == us[1..][i];
      }
      if exists i :: 0 <= i < |us| && us[i].id != id && us[i].nom == x {
        var i :| 0 <= i < |us| && us[i].id != id && us[i].nom == x;
        if i > 0 {
          assert us[1..][i - 1] == us[i];
        }
      }
    }
  }

  /** The listing keeps the order of the users: listing two runs of users
      one after the other lists the first run, then the second. */
  lemma {:induction false} AutresNomsConcat(a: seq<LigneUtilisateur>, b: seq<LigneUtilisateur>, id: int)
    ensures AutresNoms(a + b, id) == AutresNoms(a, id) + AutresNoms(b, id)
    decreases |a|
  {
    if a == [] {
      assert a + b == b;
    } else {
      assert (a + b)[1..] == a[1..] + b;
      AutresNomsConcat(a[1..], b, id);
    }
  }

  /** One step of the recipient listing loop. */
  lemma AutresNomsPas(affiches: seq<string>, us: seq<LigneUtilisateur>, k: int, id: int, suivants: seq<string>)
    requires 0 <= k < |us|
    requires suivants == affiches + (if us[k].id != id then [us[k].nom] else [])
    ensures affiches + AutresNoms(us[k..], id) == suivants + AutresNoms(us[k + 1..], id)
  {
    assert us[k..][1..] == us[k + 1..];
  }

  lemma NombresPas(ms: seq<LigneMessage>, k: int)
    requires 0 <= k < |ms|
    ensures NombreLus(ms[..k + 1]) == NombreLus(ms[..k]) + (if ms[k].lu then 1 else 0)
    ensures NombreNonLus(ms[..k + 1]) == NombreNonLus(ms[..k]) + (if ms[k].lu then 0 else 1)
  {
    assert ms[..k + 1][..k] == ms[..k];
  }

  /** The counting loop of `lireMessages`: one per message whose `isLu()`
      is false. */
  method CompterNonLus(messages: seq<Message>, ghost recus: seq<LigneMessage>) returns (nonLus: nat)
    requires |messages| == |recus|
    requires forall i :: 0 <= i < |messages| ==> RepresenteMessage(messages[i], recus[i])
    ensures nonLus == NombreNonLus(recus)
  {
    nonLus := 0;
    var k := 0;
    while k < |messages|
      invariant 0 <= k <= |messages|
      invariant nonLus == NombreNonLus(recus[..k])
    {
      NombresPas(recus, k);
      if !messages[k].IsLu() {
        nonLus := nonLus + 1;
      }
      k := k + 1;
    }
    assert recus[..k] == recus;
  }

  /** The counting loop of `afficherStatistiques`. */
  method CompterLus(messages: seq<Message>, ghost recus: seq<LigneMessage>) returns (lus: nat, nonLus: nat)
    requires |messages| == |recus|
    requires forall i :: 0 <= i < |messages| ==> RepresenteMessage(messages[i], recus[i])
    ensures lus == NombreLus(recus) && nonLus == NombreNonLus(recus)
    ensures lus + nonLus == |messages|
  {
    lus, nonLus := 0, 0;
    var k := 0;
    while k < |messages|
      invariant 0 <= k <= |messages|
      invariant lus == NombreLus(recus[..k]) && nonLus == NombreNonLus(recus[..k])
    {
      NombresPas(recus, k);
      if messages[k].IsLu() {
        lus := lus + 1;
      } else {
        nonLus := nonLus + 1;
      }
      k := k + 1;
    }
    assert recus[..k] == recus;
    LusEtNonLus(recus);
  }

  class Application {
    const base: GestionnaireBase
    const crypto: GestionnaireCrypto
    /** `utilisateurCourant`; null when nobody is signed in. */
    var courant: Utilisateur?

    constructor (base: GestionnaireBase, crypto: GestionnaireCrypto)
      ensures this.base == base && this.crypto == crypto && courant == null
    {
      this.base := base;
      this.crypto := crypto;
      courant := null;
    }

    /** `creerCompte`: a blank name is refused before anything else; an
        existing name before any key is generated; the keys are generated
        before the row is inserted, so a failed insert leaves the key files
        behind. The new row refers to the two key paths of the name. */
    method CreerCompte(nomUtilisateur: string) returns (issue: IssueCompte)
      requires base.Valid()
      modifies base, crypto
      ensures base.Valid()
      ensures issue == NomVide <==> EstVide(nomUtilisateur)
      ensures issue == DejaPris <==>
        !EstVide(nomUtilisateur) && old(base.connecte) && Chercher(old(base.utilisateurs), nomUtilisateur).Some?
      ensures issue in {NomVide, DejaPris} ==> unchanged(base) && unchanged(crypto)
      ensures issue in {EchecCles, EchecInsertion, Cree} ==>
        (issue != EchecCles, crypto.fichiers) == EffetGeneration(crypto.outil, old(crypto.fichiers), nomUtilisateur)
      ensures issue == EchecInsertion <==> issue != EchecCles && issue in {EchecInsertion, Cree} && !old(base.connecte)
      ensures base.utilisateurs == if issue == Cree then old(base.utilisateurs)
        + [LigneUtilisateur(old(base.prochainIdUtilisateur), nomUtilisateur,
                            CheminClePublique(nomUtilisateur), CheminClePrivee(nomUtilisateur))]
        else old(base.utilisateurs)
      ensures base.messages == old(base.messages)
    {
      if EstVide(nomUtilisateur) {
        return NomVide;
      }
      var existant := base.GetUtilisateur(nomUtilisateur);
      if existant != null {
        return DejaPris;
      }
      var ok := crypto.GenererCles(nomUtilisateur);
      if !ok {
        return EchecCles;
      }
      var clePublique := CheminClePublique(nomUtilisateur);
      var clePrivee := CheminClePrivee(nomUtilisateur);
      var nouveau := new Utilisateur.SansId(nomUtilisateur, clePublique, clePrivee);
      var insere := base.AjouterUtilisateur(nouveau);
      issue := if insere then Cree else EchecInsertion;
    }

    /** `seConnecter`: the session changes only when the name is found. */
    method SeConnecter(nomUtilisateur: string) returns (trouve: bool)
      modifies this
      ensures trouve <==> base.connecte && Chercher(base.utilisateurs, nomUtilisateur).Some?
      ensures trouve ==> (courant != null && fresh(courant)
        && RepresenteUtilisateur(courant, Chercher(base.utilisateurs, nomUtilisateur).value))
      ensures !trouve ==> courant == old(courant)
    {
      var user := base.GetUtilisateur(nomUtilisateur);
      if user != null {
        courant := user;
        trouve := true;
      } else {
        trouve := false;
      }
    }

    /** Choice 5 of the user menu. */
    method SeDeconnecter()
      modifies this
      ensures courant == null
    {
      courant := null;
    }

    /** The recipients offered: every listed user except the current one. */
    method AfficherDestinataires() returns (affiches: seq<string>)
      requires courant != null
      ensures affiches == if base.connecte then AutresNoms(TriParNom(base.utilisateurs), courant.id) else []
    {
      var moi := courant.id;
      var utilisateurs := base.ListerUtilisateurs();
      ghost var lignes := if base.connecte then TriParNom(base.utilisateurs) else [];
      affiches := [];
      var compteur := 1;
      var k := 0;
      while k < |utilisateurs|
        invariant 0 <= k <= |utilisateurs| == |lignes|
        invariant forall i :: 0 <= i < |utilisateurs| ==> RepresenteUtilisateur(utilisateurs[i], lignes[i])
        invariant affiches + AutresNoms(lignes[k..], moi) == AutresNoms(lignes, moi)
        invariant compteur == |affiches| + 1
      {
        var u := utilisateurs[k];
        ghost var avant := affiches;
        assert RepresenteUtilisateur(u, lignes[k]);
        if u.id != moi {
          affiches := affiches + [u.nomUtilisateur];
          compteur := compteur + 1;
        }
        AutresNomsPas(avant, lignes, k, moi, affiches);
        k := k + 1;
      }
      assert lignes[k..] == [];
    }

    /** `envoyerMessage`, checks in order: the recipient exists, is not the
        sender, the text is not blank, and it encrypts. Only then is one
        row inserted, from the current user to the recipient, holding the
        ciphertext produced for the typed name. */
    method EnvoyerMessage(nomDestinataire: string, messageTexte: string, millis: nat)
      returns (affiches: seq<string>, issue: IssueEnvoi)
      requires courant != null && base.Valid()
      modifies base, crypto
      ensures base.Valid()
      ensures affiches == if old(base.connecte) then AutresNoms(TriParNom(old(base.utilisateurs)), courant.id) else []
      ensures var dest := Chercher(old(base.utilisateurs), nomDestinataire);
        && (issue == Introuvable <==> !old(base.connecte) || dest.None?)
        && (issue == AuteurDestinataire <==> old(base.connecte) && dest.Some? && dest.value.id == courant.id)
        && (issue == MessageVide <==>
              old(base.connecte) && dest.Some? && dest.value.id != courant.id && EstVide(messageTexte))
      ensures issue in {Introuvable, AuteurDestinataire, MessageVide} ==> unchanged(base) && unchanged(crypto)
      ensures var (chiffre, apres) := EffetChiffrement(crypto.outil, old(crypto.fichiers), nomDestinataire, messageTexte, millis);
        && (issue in {EchecChiffrement, EchecEnvoi, Envoye} ==> crypto.fichiers == apres)
        && (issue in {EchecChiffrement, EchecEnvoi, Envoye} ==> (issue == EchecChiffrement <==> chiffre.None?))
        && base.messages == if issue == Envoye then old(base.messages)
             + [LigneMessage(old(base.prochainIdMessage), courant.id,
                             Chercher(old(base.utilisateurs), nomDestinataire).value.id,
                             chiffre.value, old(base.horloge), false)]
             else old(base.messages)
      ensures base.utilisateurs == old(base.utilisateurs)
    {
      affiches := AfficherDestinataires();
      var destinataire := base.GetUtilisateur(nomDestinataire);
      if destinataire == null {
        return affiches, Introuvable;
      }
      if destinataire.id == courant.id {
        return affiches, AuteurDestinataire;
      }
      if EstVide(messageTexte) {
        return affiches, MessageVide;
      }
      var messageChiffre := crypto.ChiffrerMessage(nomDestinataire, messageTexte, millis);
      if messageChiffre == None {
        return affiches, EchecChiffrement;
      }
      var message := new Message.Minimal(courant.id, destinataire.id, messageChiffre.value);
      var ok := base.EnvoyerMessage(message);
      issue := if ok then Envoye else EchecEnvoi;
    }

    /** The sender's name for one message: a fresh listing, searched until
        the first user with the sender's id. */
    method NomDeLExpediteur(expediteurId: int) returns (nom: string)
      ensures nom == if base.connecte then NomExpediteur(TriParNom(base.utilisateurs), expediteurId) else "Inconnu"
    {
      var utilisateurs := base.ListerUtilisateurs();
      ghost var lignes := if base.connecte then TriParNom(base.utilisateurs) else [];
      nom := "Inconnu";
      var k := 0;
      while k < |utilisateurs|
        invariant 0 <= k <= |utilisateurs| == |lignes|
        invariant forall i :: 0 <= i < |utilisateurs| ==> RepresenteUtilisateur(utilisateurs[i], lignes[i])
        invariant nom == "Inconnu" && NomExpediteur(lignes[k..], expediteurId) == NomExpediteur(lignes, expediteurId)
      {
        assert lignes[k..][1..] == lignes[k + 1..];
        if utilisateurs[k].id == expediteurId {
          nom := utilisateurs[k].nomUtilisateur;
          return;
        }
        k := k + 1;
      }
    }

    /** `lireMessages`: counts the unread messages, lists each with its
        sender, and decrypts the chosen one; the message is marked read
        only once its decryption returned a text. */
    method LireMessages(choix: int, millisEnc: nat, millisDec: nat)
      returns (nonLus: nat, expediteurs: seq<string>, issue: IssueLecture)
      requires courant != null && base.Valid()
      modifies base, crypto
      ensures base.Valid()
      ensures issue == AucunMessage <==> Recus(old(base.connecte), old(base.messages), courant.id) == []
      ensures nonLus == NombreNonLus(Recus(old(base.connecte), old(base.messages), courant.id))
      ensures var recus := Recus(old(base.connecte), old(base.messages), courant.id);
        |expediteurs| == |recus| &&
        forall i :: 0 <= i < |recus| ==>
          expediteurs[i] == NomExpediteur(TriParNom(old(base.utilisateurs)), recus[i].expediteurId)
      ensures var recus := Recus(old(base.connecte), old(base.messages), courant.id);
        issue == Retour <==> recus != [] && !(0 < choix <= |recus|)
      ensures var recus := Recus(old(base.connecte), old(base.messages), courant.id);
        0 < choix <= |recus| ==>
          var (texte, apres) := EffetDechiffrement(crypto.outil, old(crypto.fichiers), courant.nomUtilisateur,
                                                   recus[choix - 1].contenuChiffre, millisEnc, millisDec);
          && crypto.fichiers == apres
          && (issue == EchecDechiffrement <==> texte.None?)
          && (texte.Some? ==> issue == Dechiffre(texte.value))
          && base.messages == if texte.Some? then MarquerLu(old(base.messages), recus[choix - 1].id)
                              else old(base.messages)
      ensures var recus := Recus(old(base.connecte), old(base.messages), courant.id);
        !(0 < choix <= |recus|) ==> crypto.fichiers == old(crypto.fichiers) && base.messages == old(base.messages)
      ensures base.utilisateurs == old(base.utilisateurs) && base.connecte == old(base.connecte)
    {
      var messages;
      ghost var recus;
      messages, nonLus, expediteurs, recus := ListerRecus();
      if |messages| == 0 {
        return 0, [], AucunMessage;
      }
      if 0 < choix <= |messages| {
        assert RepresenteMessage(messages[choix - 1], recus[choix - 1]);
        issue := DechiffrerChoisi(messages[choix - 1], recus[choix - 1], millisEnc, millisDec);
      } else {
        issue := Retour;
      }
    }

    /** The listing part of `lireMessages`: the received messages, the
        number not yet read and each one's sender. */
    method ListerRecus() returns (messages: seq<Message>, nonLus: nat, expediteurs: seq<string>,
                                  ghost recus: seq<LigneMessage>)
      requires courant != null
      ensures recus == Recus(base.connecte, base.messages, courant.id)
      ensures |messages| == |recus|
      ensures forall i :: 0 <= i < |messages| ==> RepresenteMessage(messages[i], recus[i])
      ensures nonLus == NombreNonLus(recus)
      ensures |expediteurs| == |messages|
      ensures forall i :: 0 <= i < |expediteurs| ==>
        expediteurs[i] == NomExpediteur(TriParNom(base.utilisateurs), recus[i].expediteurId)
    {
      messages := base.GetMessagesRecus(courant.id);
      recus := Recus(base.connecte, base.messages, courant.id);
      nonLus := CompterNonLus(messages, recus);
      expediteurs := ListerExpediteurs(messages, recus);
    }

    /** The listing loop of `lireMessages`: each message's sender name. */
    method ListerExpediteurs(messages: seq<Message>, ghost recus: seq<LigneMessage>) returns (expediteurs: seq<string>)
      requires |messages| == |recus|
      requires forall i :: 0 <= i < |messages| ==> RepresenteMessage(messages[i], recus[i])
      ensures |expediteurs| == |recus|
      ensures forall i :: 0 <= i < |recus| ==> (expediteurs[i] ==
        if base.connecte then NomExpediteur(TriParNom(base.utilisateurs), recus[i].expediteurId) else "Inconnu")
    {
      ghost var connecte, utilisateurs := base.connecte, base.utilisateurs;
      expediteurs := [];
      var k := 0;
      while k < |messages|
        invariant 0 <= k <= |messages|
        invariant |expediteurs| == k
        invariant base.connecte == connecte && base.utilisateurs == utilisateurs
        invariant forall i :: 0 <= i < k ==> (expediteurs[i] ==
          if connecte then NomExpediteur(TriParNom(utilisateurs), recus[i].expediteurId) else "Inconnu")
      {
        var nom := NomDeLExpediteur(messages[k].expediteurId);
        expediteurs := expediteurs + [nom];
        k := k + 1;
      }
    }

    /** The chosen message is decrypted with the current user's private
        key, and marked read only when that returned a text. */
    method DechiffrerChoisi(msg: Message, ghost ligne: LigneMessage, millisEnc: nat, millisDec: nat)
      returns (issue: IssueLecture)
      requires courant != null && base.Valid() && RepresenteMessage(msg, ligne)
      modifies base, crypto
      ensures base.Valid()
      ensures var (texte, apres) := EffetDechiffrement(crypto.outil, old(crypto.fichiers), courant.nomUtilisateur,
                                                       ligne.contenuChiffre, millisEnc, millisDec);
        && crypto.fichiers == apres
        && (issue == EchecDechiffrement <==> texte.None?)
        && (texte.Some? ==> issue == Dechiffre(texte.value))
        && base.messages == if texte.Some? && base.connecte then MarquerLu(old(base.messages), ligne.id)
                            else old(base.messages)
      ensures base.utilisateurs == old(base.utilisateurs) && base.connecte == old(base.connecte)
    {
      var messageDechiffre := crypto.DechiffrerMessage(courant.nomUtilisateur, msg.contenuChiffre, millisEnc, millisDec);
      if messageDechiffre.Some? {
        base.MarquerCommeLu(msg.id);
        issue := Dechiffre(messageDechiffre.value);
      } else {
        issue := EchecDechiffrement;
      }
    }

    /** `afficherStatistiques`: the received messages split into read and
        unread. */
    method AfficherStatistiques() returns (totalRecus: nat, lus: nat, nonLus: nat)
      requires courant != null
      ensures var recus := Recus(base.connecte, base.messages, courant.id);
        totalRecus == |recus| && lus == NombreLus(recus) && nonLus == NombreNonLus(recus)
      ensures lus + nonLus == totalRecus
    {
      var messagesRecus := base.GetMessagesRecus(courant.id);
      ghost var recus := Recus(base.connecte, base.messages, courant.id);
      totalRecus := |messagesRecus|;
      lus, nonLus := CompterLus(messagesRecus, recus);
    }
  }
}
