/** The two records of the messaging client: a message as stored (its text
    encrypted) and a user with the paths of their key files. Both are
    mutable objects whose setters assign one field each. */
module Entites {
  import opened Wrappers
  import opened Decimal

  /** `Timestamp.toString()`, with an instant modelled by a counter; null
      prints as "null". */
  function TexteDate(d: Option<nat>): string {
    match d
    case None => "null"
    case Some(t) => NatToString(t)
  }

  /** A boxed `Boolean` in a string concatenation. */
  function TexteBooleen(b: Option<bool>): string {
    match b
    case None => "null"
    case Some(true) => "true"
    case Some(false) => "false"
  }

  const EnTeteMessage := "Message { id = "
  const EnTeteUtilisateur := "Utilisateur {id = "

  class Message {
    var id: int
    var expediteurId: int
    var destinataireId: int
    var contenuChiffre: string
    /** A null `Timestamp` is None. */
    var dateEnvoi: Option<nat>
    /** A null `Boolean` is None. */
    var lu: Option<bool>

    /** The full constructor, used for rows read back from the database. */
    constructor (id: int, expediteurId: int, destinataireId: int, contenuChiffre: string,
                 dateEnvoi: Option<nat>, lu: Option<bool>)
      ensures this.id == id && this.expediteurId == expediteurId
      ensures this.destinataireId == destinataireId && this.contenuChiffre == contenuChiffre
      ensures this.dateEnvoi == dateEnvoi && this.lu == lu
    {
      this.id := id;
      this.expediteurId := expediteurId;
      this.destinataireId := destinataireId;
      this.contenuChiffre := contenuChiffre;
      this.dateEnvoi := dateEnvoi;
      this.lu := lu;
    }

    /** The constructor without an id: the id keeps Java's default 0. */
    constructor SansId(expediteurId: int, destinataireId: int, contenuChiffre: string,
                       dateEnvoi: Option<nat>, lu: Option<bool>)
      ensures id == 0 && this.expediteurId == expediteurId
      ensures this.destinataireId == destinataireId && this.contenuChiffre == contenuChiffre
      ensures this.dateEnvoi == dateEnvoi && this.lu == lu
    {
      id := 0;
      this.expediteurId := expediteurId;
      this.destinataireId := destinataireId;
      this.contenuChiffre := contenuChiffre;
      this.dateEnvoi := dateEnvoi;
      this.lu := lu;
    }

    /** The constructor the client uses to send: the id stays 0 and the
        date and the read flag stay null, for the database to fill in. */
    constructor Minimal(expediteurId: int, destinataireId: int, contenuChiffre: string)
      ensures id == 0 && this.expediteurId == expediteurId
      ensures this.destinataireId == destinataireId && this.contenuChiffre == contenuChiffre
      ensures dateEnvoi == None && lu == None
    {
      id := 0;
      this.expediteurId := expediteurId;
      this.destinataireId := destinataireId;
      this.contenuChiffre := contenuChiffre;
      dateEnvoi := None;
      lu := None;
    }

    method SetLu(lu: Option<bool>)
      modifies this
      ensures this.lu == lu
      ensures id == old(id) && expediteurId == old(expediteurId) && destinataireId == old(destinataireId)
      ensures contenuChiffre == old(contenuChiffre) && dateEnvoi == old(dateEnvoi)
    {
      this.lu := lu;
    }

    method SetContenuChiffre(contenuChiffre: string)
      modifies this
      ensures this.contenuChiffre == contenuChiffre
      ensures id == old(id) && expediteurId == old(expediteurId) && destinataireId == old(destinataireId)
      ensures dateEnvoi == old(dateEnvoi) && lu == old(lu)
    {
      this.contenuChiffre := contenuChiffre;
    }

    method SetDestinataireId(destinataireId: int)
      modifies this
      ensures this.destinataireId == destinataireId
      ensures id == old(id) && expediteurId == old(expediteurId) && contenuChiffre == old(contenuChiffre)
      ensures dateEnvoi == old(dateEnvoi) && lu == old(lu)
    {
      this.destinataireId := destinataireId;
    }

    method SetExpediteurId(expediteurId: int)
      modifies this
      ensures this.expediteurId == expediteurId
      ensures id == old(id) && destinataireId == old(destinataireId) && contenuChiffre == old(contenuChiffre)
      ensures dateEnvoi == old(dateEnvoi) && lu == old(lu)
    {
      this.expediteurId := expediteurId;
    }

    method SetId(id: int)
      modifies this
      ensures this.id == id
      ensures expediteurId == old(expediteurId) && destinataireId == old(destinataireId)
      ensures contenuChiffre == old(contenuChiffre) && dateEnvoi == old(dateEnvoi) && lu == old(lu)
    {
      this.id := id;
    }

    method SetDateEnvoi(dateEnvoi: Option<nat>)
      modifies this
      ensures this.dateEnvoi == dateEnvoi
      ensures id == old(id) && expediteurId == old(expediteurId) && destinataireId == old(destinataireId)
      ensures contenuChiffre == old(contenuChiffre) && lu == old(lu)
    {
      this.dateEnvoi := dateEnvoi;
    }

    /** `isLu()`: unboxing a null flag throws, so the flag must be set. */
    function IsLu(): (r: bool)
      reads this
      requires lu.Some?
      ensures r <==> lu == Some(true)
    {
      lu.value
    }

    /** The text form, without the encrypted content: the header, the
        fields, and a closing brace. */
    function ToString(): (texte: string)
      reads this
      ensures |EnTeteMessage| < |texte| && texte[|texte| - 1] == '}'
    {
      EnTeteMessage + (IntToString(id) + (
        ", expediteur = " + IntToString(expediteurId)
        + ", destinataire = " + IntToString(destinataireId)
        + ", dateEnvoi = " + TexteDate(dateEnvoi)
        + ", lu = " + TexteBooleen(lu)
        + "}"))
    }
  }

  class Utilisateur {
    var id: int
    var nomUtilisateur: string
    /** The path of the public key file. */
    var clePublique: string
    /** The path of the private key file. */
    var clePrivee: string

    /** The full constructor, used for rows read back from the database. */
    constructor (id: int, nomUtilisateur: string, clePublique: string, clePrivee: string)
      ensures this.id == id && this.nomUtilisateur == nomUtilisateur
      ensures this.clePublique == clePublique && this.clePrivee == clePrivee
    {
      this.id := id;
      this.nomUtilisateur := nomUtilisateur;
      this.clePublique := clePublique;
      this.clePrivee := clePrivee;
    }

    /** The constructor for a new account: the id keeps Java's default 0
        until the database assigns one. */
    constructor SansId(nomUtilisateur: string, clePublique: string, clePrivee: string)
      ensures id == 0 && this.nomUtilisateur == nomUtilisateur
      ensures this.clePublique == clePublique && this.clePrivee == clePrivee
    {
      id := 0;
      this.nomUtilisateur := nomUtilisateur;
      this.clePublique := clePublique;
      this.clePrivee := clePrivee;
    }

    method SetClePrivee(clePrivee: string)
      modifies this
      ensures this.clePrivee == clePrivee
      ensures id == old(id) && nomUtilisateur == old(nomUtilisateur) && clePublique == old(clePublique)
    {
      this.clePrivee := clePrivee;
    }

    method SetClePublique(clePublique: string)
      modifies this
      ensures this.clePublique == clePublique
      ensures id == old(id) && nomUtilisateur == old(nomUtilisateur) && clePrivee == old(clePrivee)
    {
      this.clePublique := clePublique;
    }

    method SetNomUtilisateur(nomUtilisateur: string)
      modifies this
      ensures this.nomUtilisateur == nomUtilisateur
      ensures id == old(id) && clePublique == old(clePublique) && clePrivee == old(clePrivee)
    {
      this.nomUtilisateur := nomUtilisateur;
    }

    method SetId(id: int)
      modifies this
      ensures this.id == id
      ensures nomUtilisateur == old(nomUtilisateur) && clePublique == old(clePublique) && clePrivee == old(clePrivee)
    {
      this.id := id;
    }

    /** The text form, without the private key path: the header, the
        fields, and a closing brace. */
    function ToString(): (texte: string)
      reads this
      ensures |EnTeteUtilisateur| < |texte| && texte[|texte| - 1] == '}'
    {
      EnTeteUtilisateur + (IntToString(id) + (", nomUtilisateur = '" + (nomUtilisateur + (
        "'" + ", clePublique = '" + clePublique + "'" + "}"))))
    }
  }

  /** Two messages that differ at most in their encrypted content print the
      same: the content is never part of the text form. */
  lemma MessageToStringSansContenu(m1: Message, m2: Message)
    requires m1.id == m2.id && m1.expediteurId == m2.expediteurId && m1.destinataireId == m2.destinataireId
    requires m1.dateEnvoi == m2.dateEnvoi && m1.lu == m2.lu
    ensures m1.ToString() == m2.ToString()
  {
  }

  /** The text form of a message starts with its id, which reads back as a
      number. */
  lemma {:induction false} MessageToStringId(m: Message)
    ensures var s := m.ToString();
      |EnTeteMessage| < |s| && s[..|EnTeteMessage|] == EnTeteMessage
      && ScanInt(s[|EnTeteMessage|..]).Some? && ScanInt(s[|EnTeteMessage|..]).value.0 == m.id
  {
    var reste := ", expediteur = " + IntToString(m.expediteurId)
        + ", destinataire = " + IntToString(m.destinataireId)
        + ", dateEnvoi = " + TexteDate(m.dateEnvoi)
        + ", lu = " + TexteBooleen(m.lu)
        + "}";
    Decoupe(EnTeteMessage, IntToString(m.id) + reste);
    ScanIntToString(m.id, reste);
  }

  /** Two users that differ at most in their private key path print the
      same: that path is never part of the text form. */
  lemma UtilisateurToStringSansClePrivee(u1: Utilisateur, u2: Utilisateur)
    requires u1.id == u2.id && u1.nomUtilisateur == u2.nomUtilisateur && u1.clePublique == u2.clePublique
    ensures u1.ToString() == u2.ToString()
  {
  }

  /** The text form of a user starts with the id, which reads back as a
      number, and quotes the name right after it. */
  lemma {:induction false} UtilisateurToStringId(u: Utilisateur)
    ensures var s := u.ToString();
      var apres := EnTeteUtilisateur + IntToString(u.id) + ", nomUtilisateur = '";
      |EnTeteUtilisateur| < |s| && s[..|EnTeteUtilisateur|] == EnTeteUtilisateur
      && ScanInt(s[|EnTeteUtilisateur|..]).Some? && ScanInt(s[|EnTeteUtilisateur|..]).value.0 == u.id
      && s[|apres|..][..|u.nomUtilisateur|] == u.nomUtilisateur
  {
    var s := u.ToString();
    var id := IntToString(u.id);
    var fin := "'" + ", clePublique = '" + u.clePublique + "'" + "}";
    var reste := ", nomUtilisateur = '" + (u.nomUtilisateur + fin);
    assert s == EnTeteUtilisateur + (id + reste);
    Decoupe(EnTeteUtilisateur, id + reste);
    ScanIntToString(u.id, reste);
    var apres := EnTeteUtilisateur + id + ", nomUtilisateur = '";
    assert s == apres + (u.nomUtilisateur + fin);
    Decoupe(apres, u.nomUtilisateur + fin);
    Decoupe(u.nomUtilisateur, fin);
  }
}
