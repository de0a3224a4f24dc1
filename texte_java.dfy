/** The Java text operations the client applies to the tool's files:
    `String.trim`, `BufferedReader.readLine`, and the two ways the client
    glues the lines it read back together. */
module TexteJava {
  import opened Wrappers
  import opened Decimal

  /** The characters `String.trim` removes: every code up to ' '. */
  predicate EstBlanc(c: char) {
    c <= ' '
  }

  function TrimDebut(s: string): (t: string)
    ensures |t| <= |s|
    ensures t == [] || !EstBlanc(t[0])
    decreases |s|
  {
    if s != [] && EstBlanc(s[0]) then TrimDebut(s[1..]) else s
  }

  function TrimFin(s: string): (t: string)
    ensures |t| <= |s| && t == s[..|t|]
    ensures t == [] || !EstBlanc(t[|t| - 1])
    decreases |s|
  {
    if s != [] && EstBlanc(s[|s| - 1]) then TrimFin(s[..|s| - 1]) else s
  }

  /** `String.trim`: what is left neither starts nor ends with a blank. */
  function Trim(s: string): (t: string)
    ensures |t| <= |s|
    ensures t != [] ==> !EstBlanc(t[0]) && !EstBlanc(t[|t| - 1])
  {
    TrimFin(TrimDebut(s))
  }

  /** `s.trim().isEmpty()`. */
  predicate EstVide(s: string) {
    Trim(s) == []
  }

  /** What trimming leaves is a piece of the string that neither starts nor
      ends with a blank, and it is empty exactly when the string is all
      blanks. */
  lemma {:induction false} TrimSpec(s: string)
    ensures var t := Trim(s);
      && (t != [] ==> !EstBlanc(t[0]) && !EstBlanc(t[|t| - 1]))
      && (exists i, j :: 0 <= i <= j <= |s| && t == s[i..j])
      && (t == [] <==> forall k :: 0 <= k < |s| ==> EstBlanc(s[k]))
  {
    var i := TrimDebutSpec(s);
    var u := TrimDebut(s);
    var j := TrimFinSpec(u);
    assert Trim(s) == s[i..i + j];
  }

  lemma {:induction false} TrimDebutSpec(s: string) returns (i: nat)
    ensures i <= |s| && TrimDebut(s) == s[i..]
    ensures forall k :: 0 <= k < i ==> EstBlanc(s[k])
    ensures i < |s| ==> !EstBlanc(s[i])
    decreases |s|
  {
    if s != [] && EstBlanc(s[0]) {
      var i' := TrimDebutSpec(s[1..]);
      i := i' + 1;
      assert s[1..][i'..] == s[i..];
    } else {
      i := 0;
    }
  }

  lemma {:induction false} TrimFinSpec(s: string) returns (j: nat)
    ensures j <= |s| && TrimFin(s) == s[..j]
    ensures forall k :: j <= k < |s| ==> EstBlanc(s[k])
    ensures j > 0 ==> !EstBlanc(s[j - 1])
    decreases |s|
  {
    if s != [] && EstBlanc(s[|s| - 1]) {
      j := TrimFinSpec(s[..|s| - 1]);
      assert s[..|s| - 1][..j] == s[..j];
    } else {
      j := |s|;
    }
  }

  /** Trimming twice trims nothing more. */
  lemma {:induction false} TrimIdempotent(s: string)
    ensures Trim(Trim(s)) == Trim(s)
  {
    TrimSpec(s);
    var t := Trim(s);
    if t != [] {
      assert TrimDebut(t) == t;
      assert TrimFin(t) == t;
    }
  }

  // ---------------------------------------------------------------------
  // readLine

  predicate EstFinDeLigne(c: char) {
    c == '\n' || c == '\r'
  }

  /** Where the first line ends: the first '\n' or '\r', or the end. */
  function FinDeLigne(s: string): (k: nat)
    ensures k <= |s|
    ensures forall i :: 0 <= i < k ==> !EstFinDeLigne(s[i])
    ensures k < |s| ==> EstFinDeLigne(s[k])
    decreases |s|
  {
    if s == [] || EstFinDeLigne(s[0]) then 0 else 1 + FinDeLigne(s[1..])
  }

  /** Where the line ending at `k` is followed by the next one: past
      "\r\n" or past the single terminator. */
  function SuiteLigne(s: string, k: nat): (suite: nat)
    requires k < |s| && EstFinDeLigne(s[k])
    ensures k < suite <= |s|
    ensures forall i :: k <= i < suite ==> EstFinDeLigne(s[i])
  {
    if s[k] == '\r' && k + 1 < |s| && s[k + 1] == '\n' then k + 2 else k + 1
  }

  /** One `readLine`: None (null) at the end of the text, otherwise the
      line up to the first "\n", "\r" or "\r\n", without the terminator,
      and the text after it. */
  function LireLigne(s: string): (r: Option<(string, string)>)
    ensures r.None? <==> s == []
    ensures r.Some? ==> |r.value.1| < |s|
  {
    if s == [] then None
    else
      var k := FinDeLigne(s);
      if k == |s| then Some((s, "")) else Some((s[..k], s[SuiteLigne(s, k)..]))
  }

  /** The lines successive `readLine` calls return before null. */
  function Lignes(s: string): seq<string>
    decreases |s|
  {
    match LireLigne(s)
    case None => []
    case Some((ligne, reste)) => [ligne] + Lignes(reste)
  }

  /** `contenu.append(line)` for every line. */
  function Concatener(lignes: seq<string>): string
    decreases |lignes|
  {
    if lignes == [] then "" else lignes[0] + Concatener(lignes[1..])
  }

  /** `contenu.append(line).append("\n")` for every line. */
  function JoindreLignes(lignes: seq<string>): string
    decreases |lignes|
  {
    if lignes == [] then "" else lignes[0] + "\n" + JoindreLignes(lignes[1..])
  }

  /** The text without its line terminators. */
  function SansFinsDeLigne(s: string): string
    decreases |s|
  {
    if s == [] then ""
    else (if EstFinDeLigne(s[0]) then "" else [s[0]]) + SansFinsDeLigne(s[1..])
  }

  lemma {:induction false} SansFinsDeLigneConcat(a: string, b: string)
    ensures SansFinsDeLigne(a + b) == SansFinsDeLigne(a) + SansFinsDeLigne(b)
    decreases |a|
  {
    if a != [] {
      assert (a + b)[1..] == a[1..] + b;
      SansFinsDeLigneConcat(a[1..], b);
    } else {
      assert a + b == b;
    }
  }

  lemma {:induction false} SansFinsDeLigneNeutre(s: string)
    requires forall i :: 0 <= i < |s| ==> !EstFinDeLigne(s[i])
    ensures SansFinsDeLigne(s) == s
    decreases |s|
  {
    if s != [] {
      SansFinsDeLigneNeutre(s[1..]);
      assert s == [s[0]] + s[1..];
    }
  }

  lemma {:induction false} SansFinsDeLigneVide(s: string)
    requires forall i :: 0 <= i < |s| ==> EstFinDeLigne(s[i])
    ensures SansFinsDeLigne(s) == ""
    decreases |s|
  {
    if s != [] {
      SansFinsDeLigneVide(s[1..]);
    }
  }

  /** Gluing the lines back with nothing between them gives the text with
      every line terminator dropped. */
  lemma {:induction false} ConcatenerLignes(s: string)
    ensures Concatener(Lignes(s)) == SansFinsDeLigne(s)
    decreases |s|
  {
    if s != [] {
      var k := FinDeLigne(s);
      if k == |s| {
        SansFinsDeLigneNeutre(s);
        assert Lignes(s) == [s] + Lignes("");
        assert Concatener([s]) == s + Concatener([]);
      } else {
        var suite := SuiteLigne(s, k);
        var reste := Lignes(s[suite..]);
        assert Lignes(s) == [s[..k]] + reste;
        ConcatenerLignes(s[suite..]);
        assert ([s[..k]] + reste)[1..] == reste;
        DecoupeLigne(s, k, suite);
      }
    }
  }

  /** The `readLine` / `append` loop of `dechiffrerMessage`: the text it
      builds is the file without its line terminators. */
  method LireContenu(texte: string) returns (contenu: string)
    ensures contenu == SansFinsDeLigne(texte)
  {
    contenu := "";
    var reste := texte;
    var ligne := LireLigne(reste);
    while ligne.Some?
      invariant ligne == LireLigne(reste)
      invariant contenu + Concatener(Lignes(reste)) == Concatener(Lignes(texte))
      decreases |reste|
    {
      var (l, suite) := ligne.value;
      LigneSuivante(reste, l, suite, contenu);
      contenu := contenu + l;
      reste := suite;
      ligne := LireLigne(reste);
    }
    assert Lignes(reste) == [];
    ConcatenerLignes(texte);
  }

  lemma LigneSuivante(reste: string, l: string, suite: string, contenu: string)
    requires LireLigne(reste) == Some((l, suite))
    ensures contenu + Concatener(Lignes(reste)) == (contenu + l) + Concatener(Lignes(suite))
  {
    assert Lignes(reste) == [l] + Lignes(suite);
    assert ([l] + Lignes(suite))[1..] == Lignes(suite);
  }

  /** A line, its terminator, and the rest: dropping terminators keeps the
      line and the rest's text. */
  lemma {:induction false} DecoupeLigne(s: string, k: nat, suite: nat)
    requires k < suite <= |s|
    requires forall i :: 0 <= i < k ==> !EstFinDeLigne(s[i])
    requires forall i :: k <= i < suite ==> EstFinDeLigne(s[i])
    ensures SansFinsDeLigne(s) == s[..k] + SansFinsDeLigne(s[suite..])
  {
    SansFinsDeLigneNeutre(s[..k]);
    SansFinsDeLigneVide(s[k..suite]);
    assert s == s[..k] + (s[k..suite] + s[suite..]);
    SansFinsDeLigneConcat(s[..k], s[k..suite] + s[suite..]);
    SansFinsDeLigneConcat(s[k..suite], s[suite..]);
  }

  /** A non-empty text without line terminators is one line. */
  lemma {:induction false} UneLigne(s: string)
    requires s != [] && forall i :: 0 <= i < |s| ==> !EstFinDeLigne(s[i])
    ensures Lignes(s) == [s]
  {
    assert FinDeLigne(s) == |s|;
    assert Lignes(s) == [s] + Lignes("");
  }

  /** The ciphertext file holds no line terminator, so the client reads it
      as one line and trimming its "\n" and the tool's last space gives
      back the numbers separated by single spaces. */
  lemma {:induction false} TrimChiffres(xs: seq<int>)
    ensures Trim(JoindreLignes(Lignes(FormatNumbers(xs)))) == JoinSpace(xs)
  {
    if xs == [] {
      assert Lignes("") == [];
      assert Trim("") == "";
    } else {
      var j := JoinSpace(xs);
      FormatJoin(xs);
      JoinSpaceForme(xs);
      var f := FormatNumbers(xs);
      assert f == j + " ";
      assert forall i :: 0 <= i < |f| ==> !EstFinDeLigne(f[i]) by {
        forall i | 0 <= i < |f|
          ensures !EstFinDeLigne(f[i])
        {
          if i < |j| {
            assert f[i] == j[i];
          }
        }
      }
      UneLigne(f);
      var t := j + " " + "\n";
      assert JoindreLignes([f]) == t;
      assert TrimDebut(t) == t;
      assert t[..|t| - 1] == j + " ";
      assert (j + " ")[..|j|] == j;
      assert TrimFin(t) == TrimFin(j + " ");
      assert TrimFin(j + " ") == TrimFin(j);
      assert TrimFin(j) == j;
    }
  }

  /** What `%d` writes starts with '-' or a digit and ends with a digit. */
  lemma {:induction false} IntToStringForme(x: int)
    ensures var s := IntToString(x);
      |s| >= 1 && (s[0] == '-' || IsDigit(s[0])) && IsDigit(s[|s| - 1])
      && forall i :: 0 <= i < |s| ==> s[i] == '-' || IsDigit(s[i])
  {
    if x < 0 {
      NatToStringDigits(-x);
      MoinsChiffres(NatToString(-x));
    } else {
      NatToStringDigits(x);
    }
  }

  lemma MoinsChiffres(d: string)
    requires |d| >= 1 && AllDigits(d)
    ensures var s := "-" + d;
      s[0] == '-' && s[|s| - 1] == d[|d| - 1]
      && forall i :: 0 <= i < |s| ==> s[i] == '-' || IsDigit(s[i])
  {
    var s := "-" + d;
    forall i | 0 <= i < |s|
      ensures s[i] == '-' || IsDigit(s[i])
    {
      if i > 0 {
        assert s[i] == d[i - 1];
      }
    }
  }

  /** The space-separated numbers start and end with a character that is
      not blank and hold only signs, digits and spaces. */
  lemma {:induction false} JoinSpaceForme(xs: seq<int>)
    requires xs != []
    ensures var j := JoinSpace(xs);
      |j| >= 1 && !EstBlanc(j[0]) && !EstBlanc(j[|j| - 1])
      && forall i :: 0 <= i < |j| ==> j[i] == '-' || j[i] == ' ' || IsDigit(j[i])
    decreases |xs|
  {
    IntToStringForme(xs[0]);
    if |xs| > 1 {
      JoinSpaceForme(xs[1..]);
      var a, b := IntToString(xs[0]), JoinSpace(xs[1..]);
      assert JoinSpace(xs) == a + " " + b;
      JoindreEspace(a, b);
    } else {
      assert JoinSpace(xs) == IntToString(xs[0]);
    }
  }

  lemma JoindreEspace(a: string, b: string)
    requires |a| >= 1 && |b| >= 1
    requires forall i :: 0 <= i < |a| ==> a[i] == '-' || IsDigit(a[i])
    requires forall i :: 0 <= i < |b| ==> b[i] == '-' || b[i] == ' ' || IsDigit(b[i])
    ensures var j := a + " " + b;
      j[0] == a[0] && j[|j| - 1] == b[|b| - 1]
      && forall i :: 0 <= i < |j| ==> j[i] == '-' || j[i] == ' ' || IsDigit(j[i])
  {
    var j := a + " " + b;
    forall i | 0 <= i < |j|
      ensures j[i] == '-' || j[i] == ' ' || IsDigit(j[i])
    {
      if i < |a| {
        assert j[i] == a[i];
      } else if i > |a| {
        assert j[i] == b[i - |a| - 1];
      }
    }
  }

  /** The tool's number list is the space-separated list plus one space. */
  lemma {:induction false} FormatJoin(xs: seq<int>)
    requires xs != []
    ensures FormatNumbers(xs) == JoinSpace(xs) + " "
    decreases |xs|
  {
    if |xs| > 1 {
      FormatJoin(xs[1..]);
    } else {
      assert xs[1..] == [];
    }
  }

  /** Dropping the line terminators leaves none. */
  lemma {:induction false} SansFinsDeLigneSansFin(s: string)
    ensures forall i :: 0 <= i < |SansFinsDeLigne(s)| ==> !EstFinDeLigne(SansFinsDeLigne(s)[i])
    decreases |s|
  {
    if s != [] {
      SansFinsDeLigneSansFin(s[1..]);
      var tete := if EstFinDeLigne(s[0]) then "" else [s[0]];
      var t := SansFinsDeLigne(s[1..]);
      assert SansFinsDeLigne(s) == tete + t;
      forall i | 0 <= i < |tete + t|
        ensures !EstFinDeLigne((tete + t)[i])
      {
        if i >= |tete| {
          assert (tete + t)[i] == t[i - |tete|];
        }
      }
    }
  }
}
