# RSA messaging: a Dafny model

The system is a small messaging application whose messages are encrypted with
textbook RSA. It has two halves:

- **The RSA tool**, written in C (`src/c/crypto.c`, `src/c/crypto.h`). It is a
  command-line program with three commands:
  - `generer` writes a key pair to two files;
  - `chiffrer` encrypts a message, one character at a time, into a file of
    decimal numbers;
  - `dechiffrer` turns such a file back into text.
- **The Java client** (`CryptoManager`, `DatabaseManager`, `Main`, `Message`,
  `Utilisateur`). It keeps users and messages in a database. It runs the RSA
  tool as a child process through temporary files. It offers account
  creation, login, sending, reading and statistics.

This project models both halves and connects them.

## The C tool

The arithmetic of the C tool is modelled on Dafny's unbounded integers:
- `pgcd`, `inverse_modulaire`, `estPremier` and `exp_modulaire` are methods
  with their loops. Each is proved against a mathematical definition.
- C's truncating `%` is written out as `Modular.CRem`. It matters for the
  negative numbers that arise when a character above 127 is read as a
  `signed char`.

The file system is a map from paths to contents (`Fichiers.Disque`).

`rand()` is modelled by a sequence of draws. A generation that runs out of
draws never ends, which is the C program's infinite search.

The primality test `estPremier` is modelled as written. It accepts 121 =
11·11, which lies in the range `p` is drawn from. So the tool as written can
generate a key whose modulus is not a product of two primes. The model keeps
that behaviour, and a flag `corrige` selects the tool with the test repaired
(loop bound `i * i <= n`) and with `main`'s exit status repaired.

The main results of this half:
- the key-pair invariant (module `GenerationCles`). As written, `p` is a
  prime or 121 and `q` is a prime; with the repaired test both are primes;
- Fermat's little theorem and the RSA identity `(m^e)^d ≡ m (mod pq)`
  (module `Rsa`);
- the fact that what `chiffrer` writes, `dechiffrer` reads back to the
  original bytes whenever the draws give two primes (module `BoutEnBout`);
- a concrete broken run of the tool as written: the draws 71 then 1 give
  p = 121, q = 151, e = 65537, d = 3473, and "a" comes back as "["
  (`BoutEnBout.CleCassee`).

## The Java client

- `CryptoManager` is a class over the file map. It runs the tool through an
  oracle: a function from the argument list and the files to a launch
  outcome.
- `DatabaseManager` is a class over the two tables. The tables are
  sequences of rows, with the auto-increment counters and a clock counter.
  The `connecte` flag stands for the connection that makes every query
  throw.
- The `Main` actions are methods of `Messagerie.Application`. Console input
  comes in as parameters and console output goes out as results.

`BoutEnBout` instantiates the oracle with the C tool itself. It proves that
a message sent by the client comes back intact, except for its line breaks,
when the recipient reads it, provided the key generation drew two primes.
That always holds with the repaired primality test; with the test as
written it fails exactly when `p` is 121.

## Model

| member | source | states |
|---|---|---|
| CryptoMath.Pgcd | src/c/crypto.c:3-10 | the loop result is the gcd: a common divisor that every common divisor divides |
| NumberTheory.GcdDivides | src/c/crypto.h:28-32 | the gcd divides both arguments |
| NumberTheory.GcdGreatest | src/c/crypto.h:28-32 | every common divisor divides the gcd |
| CryptoMath.InverseModulaire | src/c/crypto.c:12-38 | returns -1 exactly when gcd(e, phi) > 1; otherwise the result d is in [0, phi) with e·d ≡ 1 (mod phi) |
| CryptoMath.NormalisedInverse | src/c/crypto.c:35 | adding phi to a negative Bezout coefficient gives the inverse in [0, phi) |
| CryptoMath.EstPremier | src/c/crypto.c:40-55 | as written: true exactly for the primes and for the squares of primes ≡ 5 (mod 6); false below 2, true for 2 and 3, false for multiples of 2 or 3 |
| CryptoMath.SmallCases | src/c/crypto.c:41-46 | the early returns: below 2 is not prime, 2 and 3 are, other multiples of 2 or 3 are not |
| CryptoMath.NoFactorBelowRoot | src/c/crypto.c:50-54 | a number with no divisor below i, where i·i exceeds it, is prime |
| CryptoMath.EstPremierAccepte121 | src/c/crypto.c:50 | 121 passes the test as written but is not prime |
| CryptoMath.EstPremierCorrige | src/c/crypto.c:40-55 | with the loop bound `i * i <= n`, true exactly for the primes |
| CryptoMath.SquareMultiplyCorrect | src/c/crypto.c:67-78 | square-and-multiply computes res·b^x mod m, bounded by m in absolute value and non-negative for non-negative inputs |
| CryptoMath.ExpModIsPowMod | src/c/crypto.c:67-78 | exp_modulaire is 1 for a non-positive exponent; otherwise congruent to base^exp, with \|r\| < m, and equal to base^exp mod m for a non-negative base |
| CryptoMath.ExpModulaire | src/c/crypto.c:67-78 | the loop result is congruent to base^exp mod m (equal for a non-negative base), and 1 for a non-positive exponent |
| CleRsa.ValiderCle | src/c/crypto.c:97-116 | true exactly for a non-null key that passes three checks, each made only when its fields are positive: n = p·q, phi = (p−1)(q−1), gcd(e, phi) = 1 |
| CleRsa.CleCompleteCoherente | src/c/crypto.h:76-80 | a complete key is valid exactly when n = p·q, phi = (p−1)(q−1) and e has an inverse modulo phi |
| CleRsa.CoprimeIffInvertible | src/c/crypto.h:34-38 | e has an inverse modulo phi exactly when gcd(e, phi) = 1 |
| CleRsa.InverseUnique | src/c/crypto.h:34-38 | the inverse in [0, phi) is unique |
| CleRsa.Inverse | src/c/crypto.c:12-38 | the inverse of an exponent coprime to phi |
| CleRsa.LireCle | src/c/crypto.c:190-208 | a key is read exactly when the file exists and its text starts with two numbers, which become n and the exponent of a public key |
| CleRsa.LireCleFormat | src/c/crypto.c:190-208 | a key file written as "n\ne\n" is read back as the key (n, e) |
| CleRsa.ScanFormatCle | src/c/crypto.c:197 | the two `%d` conversions on a key file read n and then the exponent |
| CleRsa.LireCleAcceptee | src/c/crypto.c:190-208 | a key that reads successfully comes from an existing file, is public and passes validation |
| GenerationCles.GenererPremier | src/c/crypto.c:57-65 | the draw loop returns the first draw in [min, max) that `estPremier` accepts (as written, or with the repaired test when `corrige`), with the draws left, and nothing when the draws run out |
| GenerationCles.PremierTireDans | src/c/crypto.c:57-65 | the number returned lies in [min, max), is accepted by the test in use (as written: a prime or the square of a prime ≡ 5 mod 6; repaired: a prime) and uses at least one draw |
| GenerationCles.AccepteDansPlages | src/c/crypto.c:50-65 | in [50, 150) the test as written accepts only primes and 121, the repaired test only primes; in [150, 250) both accept only primes |
| GenerationCles.ExposantTireCoprime | src/c/crypto.c:132-135 | the exponent search ends on an e coprime to phi: 65537 or a draw in [3, phi) |
| GenerationCles.ChoisirExposant | src/c/crypto.c:132-135 | the loop ends on the exponent the draw function describes, which is coprime to phi |
| GenerationCles.TirerRsa | src/c/crypto.c:124-135 | drawn p in [50, 150) and q in [150, 250) differ; q is prime; p is prime, or 121 with the test as written; n > 255, phi is even and > 3, and e is odd and coprime to phi |
| GenerationCles.Tirage121 | src/c/crypto.c:50-65 | as written, the draws 71 then 1 give p = 121, q = 151 and e = 65537; with the repaired test they run out |
| GenerationCles.InverseCoprime | src/c/crypto.c:136-137 | the private exponent is positive and coprime to phi |
| GenerationCles.ClesCoherentes | src/c/crypto.c:144-158 | both keys built from the draws pass `valider_cle`, so its error returns are never taken |
| GenerationCles.Generation | src/c/crypto.c:124-188 | a generation either runs out of draws, exactly when the draws hold no p, q and e, and changes nothing, or succeeds and writes the two key files and nothing else |
| GenerationCles.EcrireCles | src/c/crypto.c:136-188 | for p, q > 1 and e coprime to phi, as the draws give them, the inverse is found, both keys pass validation, and the two files "n\ne\n" and "n\nd\n" are written with d the inverse of e modulo phi |
| GenerationCles.GenererCles | src/c/crypto.c:124-188 | the method writes the two key files exactly as the generation function says, or never ends when the draws run out; the error returns are not taken, even for p = 121 |
| Chiffrement.Strlen | src/c/crypto.c:289-291 | the length stops at the first NUL, or at the end |
| Chiffrement.ChiffrementAvecCle | src/c/crypto.c:210-231 | fails, changing nothing, exactly when the key is null; otherwise writes the output file and nothing else; crashes exactly for a read key with n = 0 and a non-empty message |
| Chiffrement.DechiffrementAvecCle | src/c/crypto.c:244-272 | fails, changing nothing, exactly when the key is null or the input file is missing; otherwise writes the output file and nothing else, and when input and output are the same file the result is empty |
| Chiffrement.ChiffrerAvecCle | src/c/crypto.c:210-231 | the loop writes the ciphertext file described by ChiffrementAvecCle, or reports the missing key |
| Chiffrement.DechiffrerAvecCle | src/c/crypto.c:244-272 | the loop reads numbers until the first failed conversion and writes one character per number |
| Chiffrement.Chiffrer | src/c/crypto.c:233-242 | encryption with the key read from the given file |
| Chiffrement.Dechiffrer | src/c/crypto.c:274-287 | decryption with the key read from the given file |
| Chiffrement.ChiffrementLisible | src/c/crypto.c:210-231 | the written file scans back to one number per byte before the NUL, each the modular power of the signed byte, bounded by n |
| Chiffrement.DechiffrementOctets | src/c/crypto.c:244-272 | the output has one character per scanned number: the low byte of its modular power |
| Decimal.ScanIntToString | src/c/crypto.c:226 | `%lld` reads back exactly what `%lld` printed, leaving the rest of the input |
| Decimal.ScanFormatNumbers | src/c/crypto.c:223-267 | a ciphertext file scans back to exactly the numbers written |
| Decimal.ScanJoinSpace | src/services/CryptoManager.java:157-159 | the space-separated text the client stores scans back to the same numbers |
| Rsa.RsaPower | src/c/crypto.c:124-188 | for distinct primes p, q and e·d ≡ 1 (mod phi), pq divides m^(e·d) − m |
| Rsa.RsaExpMod | src/c/crypto.c:67-78 | with odd e and d, decrypting an encrypted value c with \|c\| < pq gives c back, negative values included |
| Outil.Commande | src/c/crypto.c:297-340 | the command changes only its output files; only `generer` can run out of draws and only the other two can crash |
| Outil.Execution | src/c/crypto.c:297-345 | bad arguments give status 1 and change nothing; a status is 0, 1 or a crash; only `generer` can fail to end |
| Outil.Lancer | src/c/crypto.c:297-340 | runs the command the arguments name, exactly as Commande describes, with the primality test as written or repaired |
| Outil.Crypto | src/c/crypto.c:297-345 | main as written, the run Execution describes with both defects kept: keys may be drawn with p = 121, and the status is 0 after any command |
| Outil.CryptoCorrige | src/c/crypto.c:297-345 | main with both defects repaired: keys drawn with the repaired primality test and the command's failure passed on in the status |
| Outil.StatutIgnoreLaCommande | src/c/crypto.c:344 | as written, status 1 only for bad arguments, and status 0 whether the command succeeded or failed |
| Outil.ChiffrerSansCleRetourneZero | src/c/crypto.c:297-345 | for any command line that encrypts with a missing key file, nothing is written; as written the status is 0, corrected it is 1 |
| Outil.ChiffrerSansCleExemple | src/c/crypto.c:344 | `./crypto chiffrer keys/bob_public.key salut temp/msg.enc` on an empty disk is a valid command line, writes nothing and exits with status 0 |
| Outil.StatutCorrigeFidele | src/c/crypto.c:297-345 | corrected, the status is 0 exactly when the arguments are good and the command succeeded |
| TexteJava.TrimSpec | src/app/Main.java:109-112 | trim gives a sub-string with no white space at either end, empty exactly for an all-blank input |
| TexteJava.Trim | src/services/CryptoManager.java:134 | the result is no longer than the input and, unless empty, starts and ends with a non-blank character |
| TexteJava.TrimIdempotent | src/services/CryptoManager.java:134 | trimming twice is trimming once |
| TexteJava.LireLigne | src/services/CryptoManager.java:118-134 | readLine returns null exactly at the end of the input, and always consumes something |
| TexteJava.ConcatenerLignes | src/services/CryptoManager.java:186-202 | concatenating the lines read gives the text without its line terminators |
| TexteJava.LireContenu | src/services/CryptoManager.java:191-195 | the readLine/append loop builds the file's text without its line terminators |
| TexteJava.UneLigne | src/services/CryptoManager.java:118-134 | a text without a line break is read as one line |
| TexteJava.TrimChiffres | src/services/CryptoManager.java:118-134 | reading the tool's ciphertext file line by line and trimming gives the numbers joined by single spaces |
| TexteJava.SansFinsDeLigneSansFin | src/services/CryptoManager.java:186-202 | the decrypted text the client returns holds no line break |
| ServiceCrypto.CheminClePubliqueInjectif | src/services/CryptoManager.java:217-219 | two users share a public-key path exactly when they have the same name |
| ServiceCrypto.CheminClePriveeInjectif | src/services/CryptoManager.java:224-226 | two users share a private-key path exactly when they have the same name |
| ServiceCrypto.PubliqueDistincteDePrivee | src/services/CryptoManager.java:217-226 | no public-key path is a private-key path |
| ServiceCrypto.ClesDistinctesDesTemporaires | src/services/CryptoManager.java:90 | no key path is a temporary file |
| ServiceCrypto.TemporairesDistincts | src/services/CryptoManager.java:152-153 | the .enc and .dec temporary files differ |
| ServiceCrypto.EffetGeneration | src/services/CryptoManager.java:40-82 | generation reports success exactly when the tool ends with status 0; when it cannot start, the files are unchanged |
| ServiceCrypto.EffetChiffrement | src/services/CryptoManager.java:87-144 | null leaves the files as the tool left them; a ciphertext comes from a run ending with status 0 that wrote the temporary file, which is then deleted |
| ServiceCrypto.EffetDechiffrement | src/services/CryptoManager.java:149-212 | null leaves the files as the tool left them; a plaintext comes from a run ending with status 0 that wrote the output file, and both temporary files are then deleted |
| ServiceCrypto.ChiffrementResultat | src/services/CryptoManager.java:87-144 | a non-null ciphertext is trimmed, came from a run ending with status 0, and its temporary file is deleted |
| ServiceCrypto.ChiffrementEchoueLaisseLeFichier | src/services/CryptoManager.java:114-143 | a non-zero exit status gives null and leaves the files as the tool left them |
| ServiceCrypto.DechiffrementResultat | src/services/CryptoManager.java:149-212 | a non-null plaintext is the tool's output file without line breaks, from a run ending with status 0 |
| ServiceCrypto.DechiffrementReussi | src/services/CryptoManager.java:182-201 | conversely, a run ending with status 0 that leaves its output file gives that file without line breaks and deletes both temporary files |
| ServiceCrypto.DechiffrementNonLanceLaisseLeFichier | src/services/CryptoManager.java:155-171 | when the tool cannot start, the result is null and the .enc temporary file stays |
| ServiceCrypto.GestionnaireCrypto.constructor | src/services/CryptoManager.java:25-35 | the manager starts over the given tool and files |
| ServiceCrypto.GestionnaireCrypto.GenererCles | src/services/CryptoManager.java:40-82 | the result and the new files are those of running `generer` on the user's two key paths |
| ServiceCrypto.GestionnaireCrypto.ChiffrerMessage | src/services/CryptoManager.java:87-144 | the result and the new files are those of running `chiffrer` and reading back the temporary file |
| ServiceCrypto.GestionnaireCrypto.DechiffrerMessage | src/services/CryptoManager.java:149-212 | the result and the new files are those of writing the ciphertext, running `dechiffrer` and reading back the output |
| ServiceCrypto.GestionnaireCrypto.CleesExistent | src/services/CryptoManager.java:231-235 | true exactly when both key files of the user exist |
| Entites.Message.constructor | src/models/Message.java:21-28 | every field takes the given value |
| Entites.Message.SansId | src/models/Message.java:34-40 | every field but the id takes the given value; the id is 0 |
| Entites.Message.Minimal | src/models/Message.java:46-50 | the sender, recipient and content are set; date and read flag are null |
| Entites.Message.SetLu | src/models/Message.java:58-60 | changes the read flag only |
| Entites.Message.SetContenuChiffre | src/models/Message.java:66-68 | changes the content only |
| Entites.Message.SetDestinataireId | src/models/Message.java:74-76 | changes the recipient only |
| Entites.Message.SetExpediteurId | src/models/Message.java:82-84 | changes the sender only |
| Entites.Message.SetId | src/models/Message.java:90-92 | changes the id only |
| Entites.Message.SetDateEnvoi | src/models/Message.java:98-100 | changes the date only |
| Entites.Message.IsLu | src/models/Message.java:120-122 | true exactly when the read flag is true; a null flag is excluded, since unboxing it throws |
| Entites.Utilisateur.constructor | src/models/Utilisateur.java:17-22 | every field takes the given value |
| Entites.Utilisateur.SansId | src/models/Utilisateur.java:28-32 | every field but the id takes the given value; the id is 0 |
| Entites.Utilisateur.SetClePrivee | src/models/Utilisateur.java:40-42 | changes the private key path only |
| Entites.Utilisateur.SetClePublique | src/models/Utilisateur.java:48-50 | changes the public key path only |
| Entites.Utilisateur.SetNomUtilisateur | src/models/Utilisateur.java:56-58 | changes the name only |
| Entites.Utilisateur.SetId | src/models/Utilisateur.java:64-66 | changes the id only |
| Entites.Message.ToString | src/models/Message.java:107-115 | the text form is the fixed header, the fields and a closing brace |
| Entites.Utilisateur.ToString | src/models/Utilisateur.java:73-79 | the text form is the fixed header, the fields and a closing brace |
| Entites.MessageToStringSansContenu | src/models/Message.java:106-115 | the text form of a message does not depend on its content |
| Entites.MessageToStringId | src/models/Message.java:106-115 | the text form starts with the fixed header followed by the message id |
| Entites.UtilisateurToStringSansClePrivee | src/models/Utilisateur.java:72-79 | the text form of a user does not depend on the private key path |
| Entites.UtilisateurToStringId | src/models/Utilisateur.java:72-79 | the text form starts with the header, the id and then the user name |
| BaseDeDonnees.AvantOuEgalTotal | src/services/DatabaseManager.java:103 | any two names are ordered one way or the other |
| BaseDeDonnees.AvantOuEgalTransitif | src/services/DatabaseManager.java:103 | the name order is transitive |
| BaseDeDonnees.AvantOuEgalAntisymetrique | src/services/DatabaseManager.java:103 | names ordered both ways are equal |
| BaseDeDonnees.TriParNomSpec | src/services/DatabaseManager.java:100-124 | ORDER BY nom_utilisateur gives a sorted permutation of the table |
| BaseDeDonnees.Chercher | src/services/DatabaseManager.java:68-95 | a row is found exactly when some row has the name, and it is the first such row |
| BaseDeDonnees.RecusParDateSpec | src/services/DatabaseManager.java:156-188 | the received messages are exactly the rows for the user, newest first |
| BaseDeDonnees.MarquerLu | src/services/DatabaseManager.java:193-206 | the update sets the read flag of the rows with that id and changes nothing else |
| BaseDeDonnees.MarquerLuIdempotent | src/services/DatabaseManager.java:193-206 | marking a message read twice is marking it once |
| BaseDeDonnees.MarquerLuInconnu | src/services/DatabaseManager.java:193-206 | an unknown id leaves the table unchanged |
| BaseDeDonnees.MarquerLuCommute | src/services/DatabaseManager.java:193-206 | marking two messages read gives the same table in either order |
| BaseDeDonnees.MarquerLuNumerotes | src/services/DatabaseManager.java:193-206 | the update keeps the ids unique and below the next id, and the dates below the clock |
| BaseDeDonnees.GestionnaireBase.constructor | src/services/DatabaseManager.java:25-27 | the manager starts disconnected over well-numbered tables |
| BaseDeDonnees.GestionnaireBase.Initialiser | src/services/DatabaseManager.java:32-34 | the connection is up exactly when opening it succeeded; the tables are unchanged |
| BaseDeDonnees.GestionnaireBase.AjouterUtilisateur | src/services/DatabaseManager.java:39-63 | when connected, appends the user with the next id and returns true; otherwise changes nothing and returns false |
| BaseDeDonnees.GestionnaireBase.GetUtilisateur | src/services/DatabaseManager.java:68-95 | null exactly when disconnected or no row has the name; otherwise a new object holding the first matching row |
| BaseDeDonnees.GestionnaireBase.ListerUtilisateurs | src/services/DatabaseManager.java:100-124 | when connected, new objects for the rows sorted by name; otherwise empty |
| BaseDeDonnees.GestionnaireBase.EnvoyerMessage | src/services/DatabaseManager.java:129-151 | when connected, appends an unread message with the next id and the current time; otherwise changes nothing |
| BaseDeDonnees.GestionnaireBase.GetMessagesRecus | src/services/DatabaseManager.java:156-188 | when connected, new objects for the user's received rows, newest first; otherwise empty |
| BaseDeDonnees.GestionnaireBase.MarquerCommeLu | src/services/DatabaseManager.java:193-206 | when connected, the table becomes MarquerLu of the old one; otherwise it is unchanged |
| Messagerie.LusEtNonLus | src/app/Main.java:393-422 | read plus unread is the total, and all are unread exactly when none is read |
| Messagerie.MarquerLuNonLus | src/app/Main.java:335-356 | with unique ids, reading a message lowers the unread count by one exactly when it was unread |
| Messagerie.NomExpediteur | src/app/Main.java:318-324 | the name shown is that of a user with the sender's id, or "Inconnu" |
| Messagerie.AutresNoms | src/app/Main.java:224-234 | the recipients listed are at most the users |
| Messagerie.AutresNomsMembres | src/app/Main.java:229-234 | a name is listed exactly when some user other than the current one has it |
| Messagerie.AutresNomsConcat | src/app/Main.java:229-234 | the listing keeps the table's order: the listing of two consecutive parts is the listing of the first followed by that of the second |
| Messagerie.CompterNonLus | src/app/Main.java:306-309 | the loop counts the unread received messages |
| Messagerie.CompterLus | src/app/Main.java:401-409 | the loop counts read and unread messages, and they add up to the total |
| Messagerie.Application.constructor | src/app/Main.java:24-27 | the application starts with nobody logged in |
| Messagerie.Application.CreerCompte | src/app/Main.java:99-146 | an empty name or a taken name changes nothing; otherwise keys are generated and, if that worked and the database is up, the user row is added with its two key paths |
| Messagerie.Application.SeConnecter | src/app/Main.java:148-172 | login succeeds exactly when the name is in the database, and the current user then holds that row |
| Messagerie.Application.SeDeconnecter | src/app/Main.java:204-209 | nobody is logged in afterwards |
| Messagerie.Application.AfficherDestinataires | src/app/Main.java:224-234 | lists the other users' names in name order |
| Messagerie.Application.EnvoyerMessage | src/app/Main.java:216-289 | an unknown recipient, oneself or an empty text change nothing; otherwise the text is encrypted for the recipient and, if that worked, stored as an unread message |
| Messagerie.Application.NomDeLExpediteur | src/app/Main.java:318-324 | the name of the sender, or "Inconnu" |
| Messagerie.Application.LireMessages | src/app/Main.java:291-365 | reports the unread count and the senders; a valid choice decrypts that message and marks it read when decryption worked |
| Messagerie.Application.ListerExpediteurs | src/app/Main.java:314-324 | one sender name per received message |
| Messagerie.Application.ListerRecus | src/app/Main.java:297-324 | the received messages of the current user, newest first, with their unread count and one sender name each |
| Messagerie.Application.DechiffrerChoisi | src/app/Main.java:336-360 | decrypts the chosen message; on success shows the text and marks the message read |
| Messagerie.Application.AfficherStatistiques | src/app/Main.java:393-422 | total received, read and unread counts, with read plus unread equal to the total |
| BoutEnBout.ArgumentsAcceptes | src/services/CryptoManager.java:42-62 | the argument lists the client builds are accepted by the tool's argument check |
| BoutEnBout.ClesGenerees | src/c/crypto.c:124-188 | a finished generation writes "n\ne\n" and "n\nd\n" with n = p·q and e·d ≡ 1 (mod phi); the numbers form a valid RSA pair (distinct primes, e and d odd) exactly when p is not the 121 the test as written lets through |
| BoutEnBout.ChiffrerPuisDechiffrer | src/c/crypto.c:190-272 | with key files "n\ne\n" and "n\nd\n", chiffrer then dechiffrer both succeed and write the decryption of the encryption of the message up to its first NUL |
| BoutEnBout.AllerRetourOctets | src/c/crypto.c:210-272 | decrypting with the private key what the public key encrypted gives back every byte |
| BoutEnBout.AllerRetourC | src/c/crypto.c:297-345 | when the draws give two primes (always with the repaired test), generer, then chiffrer, then dechiffrer leave the original message, up to its first NUL, in the output file |
| BoutEnBout.CleCassee | src/c/crypto.c:50-65 | as written, the draws 71 then 1 make generer write the keys (18271, 65537) and (18271, 3473) and report success, and "a" encrypted then decrypted comes back as "["; with the repaired test those draws run out |
| BoutEnBout.GenerationJava | src/services/CryptoManager.java:40-82 | key generation through the client succeeds and adds exactly the two key files; they hold a valid RSA pair exactly when p is not 121 |
| BoutEnBout.ChiffrementJava | src/services/CryptoManager.java:87-144 | the client returns the ciphertext numbers joined by spaces and deletes its temporary file |
| BoutEnBout.DechiffrementJava | src/services/CryptoManager.java:149-212 | the client returns the decrypted bytes without line breaks and deletes both temporary files |
| BoutEnBout.AllerRetourJava | src/services/CryptoManager.java:40-212 | when the draws give two primes (always with the repaired test), generate, encrypt and decrypt through the client give back the message without its line breaks, leaving only the key files |
| BoutEnBout.ChiffrementSansCleJava | src/services/CryptoManager.java:87-144 | with no key file, the tool as written exits 0 and the corrected one exits 1; both give null and leave the files |

## Left out

- `creer_cle` and `liberer_cle` (src/c/crypto.c:81-122): memory allocation and freeing are not modelled. A key is a datatype value and `creer_cle` is its constructor. A failed `malloc` is not modelled.
- The console: menus, prompts, `lireChoix` and the `Scanner` are not modelled. Inputs are method parameters and displayed lines are results. `Main.listerUtilisateurs` (src/app/Main.java:367-391) only prints and is not modelled.
- The read rate in `afficherStatistiques` is a floating-point percentage and is not modelled. The counts it is computed from are.
- 65537, the first public exponent tried, is not proved prime. The model only uses the coprimality test the program itself performs.
- SQL: collation is taken to be binary code-point order. `AUTO_INCREMENT` and `CURRENT_TIMESTAMP` are counters. A JDBC failure is the `connecte` flag being false. The connection classes, `fermer` and the exception classes are not modelled.
- Entites.Message.ToString: the date is printed as a number, not in the `Timestamp.toString` format.
- Characters: the platform charset is taken to be Latin-1, so a character is a byte. Texts passed to the tool are required to hold bytes and no NUL (`BoutEnBout.Transmissible`), since an argument list cannot hold a NUL. `BoutEnBout.OutilC` refuses to start the tool on an argument with a character above 255. That is a choice of the model: Java would pass such a character as '?'.
- `rand` and `srand(time(NULL))` are a sequence of draws. A generation that runs out of draws is a run that never ends, which the client sees as an interrupted wait.
- Files: opening for reading fails on a missing file, as in `lire_cle` (src/c/crypto.c:191), `dechiffrer_avec_cle` (src/c/crypto.c:250) and the client's `FileReader`. Opening for writing (`fopen` with "w" at src/c/crypto.c:162, 173, 216 and 256, and `FileWriter`), `mkdir` and `delete` are taken never to fail. Directories are implicit in the paths. This hides one consequence of the exit status at src/c/crypto.c:344: for a user name containing '/', the first `fopen` of `generer_cles` can fail, `main` still exits 0, and `genererCles` in the client returns true with no key written. The model cannot show that run.
- Integer widths: C `int` and `long long` and Java `int` are unbounded. With p < 150 and q < 250, every value the tool computes stays far below 2^31.
- Null strings passed to the Java methods are not modelled.
- The loops that copy the child's standard output to the console (src/services/CryptoManager.java:64-66, 110-112, 178-180) are not modelled.
- Getters are field reads and have no members of their own.
- `System.currentTimeMillis` is a parameter. Concurrent runs of the client, which could collide on temporary file names, are not modelled.

## Findings

| source | as written | input that shows it | evidently intended | confidence | as-written member | corrected member |
|---|---|---|---|---|---|---|
| src/c/crypto.c:50 | the trial-division loop runs while `i * i < n`, so it never tries the square root | n = 121 = 11·11: 11·11 < 121 fails at once and 121 is declared prime; 121 lies in [50, 150), the range `p` is drawn from, so the draws 71 then 1 give p = 121, q = 151, e = 65537, d = 3473, and "a" comes back as "[" | loop while `i * i <= n`, so that exactly the primes are accepted | not executed | BoutEnBout.CleCassee | CryptoMath.EstPremierCorrige |
| src/c/crypto.c:344 | `main` returns 0 after every command, even one that failed | `./crypto chiffrer keys/bob_public.key salut temp/msg.enc` on a disk without that key file: nothing is written and the status is 0 | a non-zero status when the command failed, as for bad arguments | not executed | Outil.ChiffrerSansCleRetourneZero | Outil.StatutCorrigeFidele |
