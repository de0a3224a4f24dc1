/** `DatabaseManager`: the two tables of the messaging service, held as
    sequences of rows in insertion order, and the six queries the client
    runs on them. A lost connection is the `connecte` flag: every query
    then takes its SQLException path. */
module BaseDeDonnees {
  import opened Wrappers
  import opened Entites

  /** A row of `Utilisateurs`. */
  datatype LigneUtilisateur = LigneUtilisateur(id: int, nom: string, clePublique: string, clePrivee: string)

  /** A row of `Messages`; the date is an instant modelled by a counter. */
  datatype LigneMessage = LigneMessage(id: int, expediteurId: int, destinataireId: int,
                                       contenuChiffre: string, dateEnvoi: nat, lu: bool)

  // ---------------------------------------------------------------------
  // Ordering names: code point by code point, a prefix first

  predicate AvantOuEgal(a: string, b: string)
    decreases |a|
  {
    a == [] || (b != [] && (a[0] < b[0] || (a[0] == b[0] && AvantOuEgal(a[1..], b[1..]))))
  }

  lemma {:induction false} AvantOuEgalTotal(a: string, b: string)
    ensures AvantOuEgal(a, b) || AvantOuEgal(b, a)
    decreases |a|
  {
    if a != [] && b != [] && a[0] == b[0] {
      AvantOuEgalTotal(a[1..], b[1..]);
    }
  }

  lemma {:induction false} AvantOuEgalTransitif(a: string, b: string, c: string)
    requires AvantOuEgal(a, b) && AvantOuEgal(b, c)
    ensures AvantOuEgal(a, c)
    decreases |a|
  {
    if a != [] && a[0] == b[0] && b[0] == c[0] {
      AvantOuEgalTransitif(a[1..], b[1..], c[1..]);
    }
  }

  lemma {:induction false} AvantOuEgalAntisymetrique(a: string, b: string)
    requires AvantOuEgal(a, b) && AvantOuEgal(b, a)
    ensures a == b
    decreases |a|
  {
    if a != [] {
      AvantOuEgalAntisymetrique(a[1..], b[1..]);
      assert a == [a[0]] + a[1..] && b == [b[0]] + b[1..];
    }
  }

  // ---------------------------------------------------------------------
  // SELECT * FROM Utilisateurs ORDER BY nom_utilisateur

  predicate TrieParNom(us: seq<LigneUtilisateur>) {
    forall i, j :: 0 <= i < j < |us| ==> AvantOuEgal(us[i].nom, us[j].nom)
  }

  function Inserer(u: LigneUtilisateur, trie: seq<LigneUtilisateur>): (r: seq<LigneUtilisateur>)
    ensures |r| == |trie| + 1
    decreases |trie|
  {
    if trie == [] || AvantOuEgal(u.nom, trie[0].nom) then [u] + trie
    else [trie[0]] + Inserer(u, trie[1..])
  }

  /** The order the engine returns the users in. */
  function TriParNom(us: seq<LigneUtilisateur>): (r: seq<LigneUtilisateur>)
    ensures |r| == |us|
    decreases |us|
  {
    if us == [] then [] else Inserer(us[0], TriParNom(us[1..]))
  }

  lemma {:induction false} InsererMultiset(u: LigneUtilisateur, trie: seq<LigneUtilisateur>)
    ensures multiset(Inserer(u, trie)) == multiset(trie) + multiset{u}
    decreases |trie|
  {
    if trie != [] && !AvantOuEgal(u.nom, trie[0].nom) {
      InsererMultiset(u, trie[1..]);
      assert trie == [trie[0]] + trie[1..];
    }
  }

  lemma {:induction false} InsererSpec(u: LigneUtilisateur, trie: seq<LigneUtilisateur>)
    requires TrieParNom(trie)
    ensures TrieParNom(Inserer(u, trie))
    ensures multiset(Inserer(u, trie)) == multiset(trie) + multiset{u}
    decreases |trie|
  {
    InsererMultiset(u, trie);
    if trie == [] || AvantOuEgal(u.nom, trie[0].nom) {
      InsererEnTete(u, trie);
    } else {
      AvantOuEgalTotal(u.nom, trie[0].nom);
      InsererSpec(u, trie[1..]);
      InsererApres(u, trie, Inserer(u, trie[1..]));
    }
  }

  lemma {:induction false} InsererEnTete(u: LigneUtilisateur, trie: seq<LigneUtilisateur>)
    requires TrieParNom(trie)
    requires trie == [] || AvantOuEgal(u.nom, trie[0].nom)
    ensures TrieParNom([u] + trie)
  {
    var r := [u] + trie;
    forall i, j | 0 <= i < j < |r|
      ensures AvantOuEgal(r[i].nom, r[j].nom)
    {
      if i == 0 && j > 1 {
        AvantOuEgalTransitif(u.nom, trie[0].nom, trie[j - 1].nom);
      }
    }
  }

  lemma {:induction false} InsererApres(u: LigneUtilisateur, trie: seq<LigneUtilisateur>, reste: seq<LigneUtilisateur>)
    requires TrieParNom(trie) && trie != [] && AvantOuEgal(trie[0].nom, u.nom)
    requires TrieParNom(reste) && multiset(reste) == multiset(trie[1..]) + multiset{u}
    ensures TrieParNom([trie[0]] + reste)
  {
    var r := [trie[0]] + reste;
    forall i, j | 0 <= i < j < |r|
      ensures AvantOuEgal(r[i].nom, r[j].nom)
    {
      if i == 0 {
        assert r[j] in multiset(reste);
        if r[j] != u {
          assert r[j] in multiset(trie[1..]);
          var k :| 0 <= k < |trie[1..]| && trie[1..][k] == r[j];
          assert trie[k + 1] == r[j];
        }
      }
    }
  }

  /** The users come back sorted by name, each row exactly once. */
  lemma {:induction false} TriParNomSpec(us: seq<LigneUtilisateur>)
    ensures TrieParNom(TriParNom(us))
    ensures multiset(TriParNom(us)) == multiset(us)
    decreases |us|
  {
    if us != [] {
      TriParNomSpec(us[1..]);
      InsererSpec(us[0], TriParNom(us[1..]));
      assert us == [us[0]] + us[1..];
    }
  }

  // ---------------------------------------------------------------------
  // SELECT * FROM Utilisateurs WHERE nom_utilisateur = ?

  /** The first row with the name, in table order. */
  function Chercher(us: seq<LigneUtilisateur>, nom: string): (r: Option<LigneUtilisateur>)
    ensures r.Some? <==> exists i :: 0 <= i < |us| && us[i].nom == nom
    ensures r.Some? ==> r.value in us && r.value.nom == nom
    ensures r.Some? ==> exists i :: 0 <= i < |us| && us[i] == r.value && forall k :: 0 <= k < i ==> us[k].nom != nom
    decreases |us|
  {
    if us == [] then None
    else if us[0].nom == nom then Some(us[0])
    else
      var r := Chercher(us[1..], nom);
      assert forall i :: 0 < i < |us| ==> us[i] == us[1..][i - 1];
      if r.Some? then
        assert exists i :: 0 <= i < |us| && us[i] == r.value && forall k :: 0 <= k < i ==> us[k].nom != nom by {
          var i :| 0 <= i < |us[1..]| && us[1..][i] == r.value && forall k :: 0 <= k < i ==> us[1..][k].nom != nom;
          assert us[i + 1] == r.value;
          assert forall k :: 0 <= k < i + 1 ==> us[k].nom != nom by {
            forall k | 0 <= k < i + 1
              ensures us[k].nom != nom
            {
              if k > 0 { assert us[k] == us[1..][k - 1]; }
            }
          }
        }
        r
      else r
  }

  // ---------------------------------------------------------------------
  // SELECT * FROM Messages WHERE destinataire_id = ? ORDER BY date_envoi DESC

  predicate DatesCroissantes(ms: seq<LigneMessage>) {
    forall i, j :: 0 <= i < j < |ms| ==> ms[i].dateEnvoi < ms[j].dateEnvoi
  }

  /** The rows addressed to `userId`, walking the table from its last row:
      the table is in date order, so this is newest first. */
  function RecusParDate(ms: seq<LigneMessage>, userId: int): seq<LigneMessage>
    decreases |ms|
  {
    if ms == [] then []
    else
      var dernier := ms[|ms| - 1];
      (if dernier.destinataireId == userId then [dernier] else []) + RecusParDate(ms[..|ms| - 1], userId)
  }

  /** Exactly the messages addressed to the user, strictly newest first. */
  lemma {:induction false} RecusParDateSpec(ms: seq<LigneMessage>, userId: int)
    requires DatesCroissantes(ms)
    ensures var r := RecusParDate(ms, userId);
      && (forall m :: m in r <==> m in ms && m.destinataireId == userId)
      && DatesDecroissantes(r)
  {
    RecusParDateMembres(ms, userId);
    RecusParDateOrdre(ms, userId);
  }

  lemma {:induction false} RecusParDateMembres(ms: seq<LigneMessage>, userId: int)
    ensures forall m :: m in RecusParDate(ms, userId) <==> m in ms && m.destinataireId == userId
    decreases |ms|
  {
    if ms != [] {
      var debut := ms[..|ms| - 1];
      RecusParDateMembres(debut, userId);
      assert ms == debut + [ms[|ms| - 1]];
    }
  }

  predicate DatesDecroissantes(ms: seq<LigneMessage>) {
    forall i, j :: 0 <= i < j < |ms| ==> ms[i].dateEnvoi > ms[j].dateEnvoi
  }

  lemma {:induction false} RecusParDateOrdre(ms: seq<LigneMessage>, userId: int)
    requires DatesCroissantes(ms)
    ensures DatesDecroissantes(RecusParDate(ms, userId))
    decreases |ms|
  {
    if ms != [] {
      var dernier := ms[|ms| - 1];
      var debut := ms[..|ms| - 1];
      CroissantesPrefixe(ms);
      RecusParDateOrdre(debut, userId);
      var reste := RecusParDate(debut, userId);
      PlusRecentQueReste(ms, userId);
      var tete := if dernier.destinataireId == userId then [dernier] else [];
      assert RecusParDate(ms, userId) == tete + reste;
      DecroissantesCons(tete, reste);
    }
  }

  lemma CroissantesPrefixe(ms: seq<LigneMessage>)
    requires ms != [] && DatesCroissantes(ms)
    ensures DatesCroissantes(ms[..|ms| - 1])
  {
    var debut := ms[..|ms| - 1];
    forall i, j | 0 <= i < j < |debut|
      ensures debut[i].dateEnvoi < debut[j].dateEnvoi
    {
      assert debut[i] == ms[i] && debut[j] == ms[j];
    }
  }

  /** Every earlier row addressed to the user is older than the last row. */
  lemma PlusRecentQueReste(ms: seq<LigneMessage>, userId: int)
    requires ms != [] && DatesCroissantes(ms)
    ensures forall m :: m in RecusParDate(ms[..|ms| - 1], userId) ==> m.dateEnvoi < ms[|ms| - 1].dateEnvoi
  {
    var debut := ms[..|ms| - 1];
    RecusParDateMembres(debut, userId);
    forall m | m in RecusParDate(debut, userId)
      ensures m.dateEnvoi < ms[|ms| - 1].dateEnvoi
    {
      var k :| 0 <= k < |debut| && debut[k] == m;
      assert ms[k] == m && k < |ms| - 1;
    }
  }

  lemma DecroissantesCons(tete: seq<LigneMessage>, reste: seq<LigneMessage>)
    requires |tete| <= 1 && DatesDecroissantes(reste)
    requires forall m :: m in reste ==> forall t :: t in tete ==> m.dateEnvoi < t.dateEnvoi
    ensures DatesDecroissantes(tete + reste)
  {
    var r := tete + reste;
    forall i, j | 0 <= i < j < |r|
      ensures r[i].dateEnvoi > r[j].dateEnvoi
    {
      if |tete| == 1 && i == 0 {
        assert r[i] in tete && r[j] == reste[j - 1];
        assert r[j] in reste;
      } else {
        assert r[i] == reste[i - |tete|] && r[j] == reste[j - |tete|];
      }
    }
  }

  // ---------------------------------------------------------------------
  // UPDATE Messages SET lu = TRUE WHERE id = ?

  /** The update sets the flag on the rows with the id, changes nothing
      else, and never clears a flag. */
  function MarquerLu(ms: seq<LigneMessage>, id: int): (r: seq<LigneMessage>)
    ensures |r| == |ms|
    ensures forall i :: 0 <= i < |ms| ==>
      && r[i].id == ms[i].id && r[i].expediteurId == ms[i].expediteurId
      && r[i].destinataireId == ms[i].destinataireId && r[i].contenuChiffre == ms[i].contenuChiffre
      && r[i].dateEnvoi == ms[i].dateEnvoi
      && r[i].lu == (ms[i].lu || ms[i].id == id)
  {
    seq(|ms|, i requires 0 <= i < |ms| => if ms[i].id == id then ms[i].(lu := true) else ms[i])
  }

  /** Marking twice is marking once. */
  lemma {:induction false} MarquerLuIdempotent(ms: seq<LigneMessage>, id: int)
    ensures MarquerLu(MarquerLu(ms, id), id) == MarquerLu(ms, id)
  {
    var r := MarquerLu(ms, id);
    assert forall i :: 0 <= i < |r| ==> MarquerLu(r, id)[i] == r[i];
  }

  /** An id no row has changes nothing. */
  lemma {:induction false} MarquerLuInconnu(ms: seq<LigneMessage>, id: int)
    requires forall i :: 0 <= i < |ms| ==> ms[i].id != id
    ensures MarquerLu(ms, id) == ms
  {
    assert forall i :: 0 <= i < |ms| ==> MarquerLu(ms, id)[i] == ms[i];
  }

  /** Marking two messages commutes. */
  lemma {:induction false} MarquerLuCommute(ms: seq<LigneMessage>, a: int, b: int)
    ensures MarquerLu(MarquerLu(ms, a), b) == MarquerLu(MarquerLu(ms, b), a)
  {
    var x, y := MarquerLu(MarquerLu(ms, a), b), MarquerLu(MarquerLu(ms, b), a);
    assert forall i :: 0 <= i < |ms| ==> x[i] == y[i];
  }

  // ---------------------------------------------------------------------
  // The tables' invariant

  predicate UtilisateursNumerotes(us: seq<LigneUtilisateur>, prochain: int) {
    && (forall i :: 0 <= i < |us| ==> us[i].id < prochain)
    && (forall i, j :: 0 <= i < j < |us| ==> us[i].id < us[j].id)
  }

  predicate MessagesNumerotes(ms: seq<LigneMessage>, prochain: int, horloge: nat) {
    && (forall i :: 0 <= i < |ms| ==> ms[i].id < prochain && ms[i].dateEnvoi < horloge)
    && (forall i, j :: 0 <= i < j < |ms| ==> ms[i].id < ms[j].id)
    && DatesCroissantes(ms)
  }

  lemma {:induction false} MarquerLuNumerotes(ms: seq<LigneMessage>, id: int, prochain: int, horloge: nat)
    requires MessagesNumerotes(ms, prochain, horloge)
    ensures MessagesNumerotes(MarquerLu(ms, id), prochain, horloge)
  {
  }

  /** The fields of a user object are those of a row. */
  ghost predicate RepresenteUtilisateur(u: Utilisateur, l: LigneUtilisateur)
    reads u
  {
    u.id == l.id && u.nomUtilisateur == l.nom && u.clePublique == l.clePublique && u.clePrivee == l.clePrivee
  }

  /** The fields of a message object are those of a row. */
  ghost predicate RepresenteMessage(m: Message, l: LigneMessage)
    reads m
  {
    && m.id == l.id && m.expediteurId == l.expediteurId && m.destinataireId == l.destinataireId
    && m.contenuChiffre == l.contenuChiffre && m.dateEnvoi == Some(l.dateEnvoi) && m.lu == Some(l.lu)
  }

  class GestionnaireBase {
    var utilisateurs: seq<LigneUtilisateur>
    var messages: seq<LigneMessage>
    /** The AUTO_INCREMENT counters and the clock behind DEFAULT date_envoi. */
    var prochainIdUtilisateur: int
    var prochainIdMessage: int
    var horloge: nat
    var connecte: bool

    ghost predicate Valid()
      reads this
    {
      UtilisateursNumerotes(utilisateurs, prochainIdUtilisateur)
      && MessagesNumerotes(messages, prochainIdMessage, horloge)
    }

    /** The database as it stands, before `initialiser` connects. */
    constructor (utilisateurs: seq<LigneUtilisateur>, messages: seq<LigneMessage>,
                 prochainIdUtilisateur: int, prochainIdMessage: int, horloge: nat)
      requires UtilisateursNumerotes(utilisateurs, prochainIdUtilisateur)
      requires MessagesNumerotes(messages, prochainIdMessage, horloge)
      ensures Valid() && !connecte
      ensures this.utilisateurs == utilisateurs && this.messages == messages
      ensures this.prochainIdUtilisateur == prochainIdUtilisateur && this.prochainIdMessage == prochainIdMessage
      ensures this.horloge == horloge
    {
      this.utilisateurs := utilisateurs;
      this.messages := messages;
      this.prochainIdUtilisateur := prochainIdUtilisateur;
      this.prochainIdMessage := prochainIdMessage;
      this.horloge := horloge;
      connecte := false;
    }

    /** `initialiser`: whether the driver reaches the server is an input. */
    method Initialiser(reussie: bool)
      modifies this
      ensures connecte == reussie
      ensures utilisateurs == old(utilisateurs) && messages == old(messages)
      ensures prochainIdUtilisateur == old(prochainIdUtilisateur) && prochainIdMessage == old(prochainIdMessage)
      ensures horloge == old(horloge)
    {
      connecte := reussie;
    }

    /** `INSERT INTO Utilisateurs`: one row with the next id and the user's
        name and key paths; the user object's own id is not used. There is
        no duplicate check. */
    method AjouterUtilisateur(user: Utilisateur) returns (ok: bool)
      requires Valid()
      modifies this
      ensures Valid()
      ensures ok == connecte && connecte == old(connecte)
      ensures utilisateurs == if ok then old(utilisateurs)
        + [LigneUtilisateur(old(prochainIdUtilisateur), user.nomUtilisateur, user.clePublique, user.clePrivee)]
        else old(utilisateurs)
      ensures prochainIdUtilisateur == if ok then old(prochainIdUtilisateur) + 1 else old(prochainIdUtilisateur)
      ensures messages == old(messages) && prochainIdMessage == old(prochainIdMessage) && horloge == old(horloge)
    {
      if !connecte {
        return false;
      }
      utilisateurs := utilisateurs + [LigneUtilisateur(prochainIdUtilisateur, user.nomUtilisateur, user.clePublique, user.clePrivee)];
      prochainIdUtilisateur := prochainIdUtilisateur + 1;
      ok := true;
    }

    /** `getUtilisateur`: a new object for the first row with the name, or
        null when there is none or the query fails. */
    method GetUtilisateur(nomUtilisateur: string) returns (u: Utilisateur?)
      ensures u == null <==> !connecte || Chercher(utilisateurs, nomUtilisateur).None?
      ensures u != null ==> fresh(u) && RepresenteUtilisateur(u, Chercher(utilisateurs, nomUtilisateur).value)
    {
      if !connecte {
        return null;
      }
      var ligne := Chercher(utilisateurs, nomUtilisateur);
      if ligne.Some? {
        var l := ligne.value;
        u := new Utilisateur(l.id, l.nom, l.clePublique, l.clePrivee);
      } else {
        u := null;
      }
    }

    /** `listerUtilisateurs`: a new object per row, sorted by name; an empty
        list when the query fails. */
    method ListerUtilisateurs() returns (us: seq<Utilisateur>)
      ensures !connecte ==> us == []
      ensures connecte ==> |us| == |utilisateurs|
      ensures connecte ==> forall i :: 0 <= i < |us| ==>
        fresh(us[i]) && RepresenteUtilisateur(us[i], TriParNom(utilisateurs)[i])
    {
      us := [];
      if !connecte {
        return;
      }
      var lignes := TriParNom(utilisateurs);
      var k := 0;
      while k < |lignes|
        invariant 0 <= k <= |lignes| && |us| == k
        invariant forall i :: 0 <= i < k ==> fresh(us[i]) && RepresenteUtilisateur(us[i], lignes[i])
      {
        var l := lignes[k];
        var u := new Utilisateur(l.id, l.nom, l.clePublique, l.clePrivee);
        us := us + [u];
        k := k + 1;
      }
    }

    /** `INSERT INTO Messages`: one row with the next id, the message's
        sender, recipient and content, the current date and the flag
        unset; the object's own id, date and flag are not used. There is
        no check that sender and recipient differ. */
    method EnvoyerMessage(message: Message) returns (ok: bool)
      requires Valid()
      modifies this
      ensures Valid()
      ensures ok == connecte && connecte == old(connecte)
      ensures messages == if ok then old(messages)
        + [LigneMessage(old(prochainIdMessage), message.expediteurId, message.destinataireId,
                        message.contenuChiffre, old(horloge), false)]
        else old(messages)
      ensures prochainIdMessage == if ok then old(prochainIdMessage) + 1 else old(prochainIdMessage)
      ensures horloge == if ok then old(horloge) + 1 else old(horloge)
      ensures utilisateurs == old(utilisateurs) && prochainIdUtilisateur == old(prochainIdUtilisateur)
    {
      if !connecte {
        return false;
      }
      messages := messages + [LigneMessage(prochainIdMessage, message.expediteurId, message.destinataireId,
                                           message.contenuChiffre, horloge, false)];
      prochainIdMessage := prochainIdMessage + 1;
      horloge := horloge + 1;
      ok := true;
    }

    /** `getMessagesRecus`: a new object per row addressed to the user,
        newest first; an empty list when the query fails. */
    method GetMessagesRecus(userId: int) returns (ms: seq<Message>)
      ensures !connecte ==> ms == []
      ensures connecte ==> |ms| == |RecusParDate(messages, userId)|
      ensures connecte ==> forall i :: 0 <= i < |ms| ==>
        fresh(ms[i]) && RepresenteMessage(ms[i], RecusParDate(messages, userId)[i])
    {
      ms := [];
      if !connecte {
        return;
      }
      var lignes := RecusParDate(messages, userId);
      var k := 0;
      while k < |lignes|
        invariant 0 <= k <= |lignes| && |ms| == k
        invariant forall i :: 0 <= i < k ==> fresh(ms[i]) && RepresenteMessage(ms[i], lignes[i])
      {
        var l := lignes[k];
        var m := new Message(l.id, l.expediteurId, l.destinataireId, l.contenuChiffre, Some(l.dateEnvoi), Some(l.lu));
        ms := ms + [m];
        k := k + 1;
      }
    }

    /** `marquerCommeLu`: the update, row by row, in place. */
    method MarquerCommeLu(messageId: int)
      requires Valid()
      modifies this
      ensures Valid()
      ensures messages == if connecte then MarquerLu(old(messages), messageId) else old(messages)
      ensures connecte == old(connecte) && utilisateurs == old(utilisateurs)
      ensures prochainIdUtilisateur == old(prochainIdUtilisateur) && prochainIdMessage == old(prochainIdMessage)
      ensures horloge == old(horloge)
    {
      if !connecte {
        return;
      }
      ghost var avant := messages;
      var k := 0;
      while k < |messages|
        invariant |messages| == |avant| && 0 <= k <= |messages|
        invariant connecte && utilisateurs == old(utilisateurs) && horloge == old(horloge)
        invariant prochainIdUtilisateur == old(prochainIdUtilisateur) && prochainIdMessage == old(prochainIdMessage)
        invariant forall i :: 0 <= i < k ==> messages[i] == MarquerLu(avant, messageId)[i]
        invariant forall i :: k <= i < |messages| ==> messages[i] == avant[i]
      {
        if messages[k].id == messageId {
          messages := messages[k := messages[k].(lu := true)];
        }
        k := k + 1;
      }
      assert messages == MarquerLu(avant, messageId);
      MarquerLuNumerotes(avant, messageId, prochainIdMessage, horloge);
    }
  }
}
