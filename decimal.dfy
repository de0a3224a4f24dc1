/** Decimal text as the RSA tool writes it with `printf("%d")` and reads it
    back with `fscanf("%d")` / `fscanf("%lld")`: key files hold "n\ne\n",
    ciphertext files hold every number followed by one space. */
module Decimal {
  import opened Wrappers

  /** `isspace` in the "C" locale: space, \t, \n, \v, \f and \r. */
  predicate IsSpace(c: char) {
    c == ' ' || 9 <= c as int <= 13
  }

  predicate IsDigit(c: char) {
    '0' <= c <= '9'
  }

  function DigitChar(d: nat): (c: char)
    requires d < 10
    ensures IsDigit(c) && DigitValue(c) == d
  {
    (48 + d) as char
  }

  function DigitValue(c: char): nat
    requires IsDigit(c)
  {
    c as int - 48
  }

  predicate AllDigits(s: string) {
    forall i :: 0 <= i < |s| ==> IsDigit(s[i])
  }

  /** A concatenation splits back into its two parts. */
  lemma Decoupe(a: string, b: string)
    ensures (a + b)[..|a|] == a && (a + b)[|a|..] == b
  {
  }

  // ---------------------------------------------------------------------
  // Printing

  /** `%d` of a non-negative number: its decimal digits, no leading zero. */
  function NatToString(n: nat): string
    decreases n
  {
    if n < 10 then [DigitChar(n)] else NatToString(n / 10) + [DigitChar(n % 10)]
  }

  /** `%d` / `%lld`: a minus sign for negative numbers, then the digits. */
  function IntToString(x: int): string {
    if x < 0 then "-" + NatToString(-x) else NatToString(x)
  }

  /** What `fprintf(fout, "%lld ", chiffre)` leaves in the file after one
      call per number: every number followed by one space. */
  function FormatNumbers(xs: seq<int>): string
    decreases |xs|
  {
    if xs == [] then "" else IntToString(xs[0]) + " " + FormatNumbers(xs[1..])
  }

  /** The numbers separated by single spaces, with no trailing space. */
  function JoinSpace(xs: seq<int>): string
    decreases |xs|
  {
    if xs == [] then ""
    else if |xs| == 1 then IntToString(xs[0])
    else IntToString(xs[0]) + " " + JoinSpace(xs[1..])
  }

  // ---------------------------------------------------------------------
  // Scanning

  /** The value of a run of decimal digits. */
  function DigitsValue(s: string): nat
    requires AllDigits(s)
    decreases |s|
  {
    if s == [] then 0 else 10 * DigitsValue(s[..|s| - 1]) + DigitValue(s[|s| - 1])
  }

  /** The length of the longest prefix of digits. */
  function DigitRun(s: string): (k: nat)
    ensures k <= |s| && AllDigits(s[..k])
    ensures k < |s| ==> !IsDigit(s[k])
    decreases |s|
  {
    if s == [] || !IsDigit(s[0]) then 0
    else
      var k := 1 + DigitRun(s[1..]);
      assert s[..k] == [s[0]] + s[1..][..k - 1];
      k
  }

  function SkipSpaces(s: string): (t: string)
    ensures |t| <= |s|
    ensures t == [] || !IsSpace(t[0])
    decreases |s|
  {
    if s != [] && IsSpace(s[0]) then SkipSpaces(s[1..]) else s
  }

  /** Digits only: the value of the longest run of digits and the rest. */
  function ScanUnsigned(u: string): (r: Option<(int, string)>)
    ensures r.Some? ==> |r.value.1| < |u|
  {
    var k := DigitRun(u);
    if k == 0 then None else Some((DigitsValue(u[..k]), u[k..]))
  }

  /** One `%d` / `%lld` conversion: leading white space, an optional sign,
      then at least one digit; the number and the unread rest, or None for
      a matching failure or the end of the input. */
  function ScanInt(s: string): (r: Option<(int, string)>)
    ensures r.Some? ==> |r.value.1| < |s|
  {
    var t := SkipSpaces(s);
    if |t| > 0 && t[0] == '-' then
      match ScanUnsigned(t[1..])
      case None => None
      case Some((v, rest)) => Some((-v, rest))
    else if |t| > 0 && t[0] == '+' then ScanUnsigned(t[1..])
    else ScanUnsigned(t)
  }

  /** The numbers `while (fscanf(fin, "%lld", &x) == 1)` reads: conversions
      until the first one that fails. */
  function ScanNumbers(s: string): seq<int>
    decreases |s|
  {
    match ScanInt(s)
    case None => []
    case Some((x, rest)) => [x] + ScanNumbers(rest)
  }

  // ---------------------------------------------------------------------
  // Printing then scanning gives the numbers back

  lemma {:induction false} NatToStringDigits(n: nat)
    ensures |NatToString(n)| >= 1 && AllDigits(NatToString(n))
    ensures DigitsValue(NatToString(n)) == n
    decreases n
  {
    if n >= 10 {
      NatToStringDigits(n / 10);
      var s := NatToString(n);
      assert s[..|s| - 1] == NatToString(n / 10);
    }
  }

  /** The digits of a number end where the next non-digit starts. */
  lemma {:induction false} DigitRunOfDigits(d: string, rest: string)
    requires AllDigits(d)
    requires rest == [] || !IsDigit(rest[0])
    ensures DigitRun(d + rest) == |d|
    decreases |d|
  {
    if d != [] {
      assert (d + rest)[1..] == d[1..] + rest;
      DigitRunOfDigits(d[1..], rest);
    } else {
      assert d + rest == rest;
    }
  }

  lemma {:induction false} ScanUnsignedDigits(n: nat, rest: string)
    requires rest == [] || !IsDigit(rest[0])
    ensures ScanUnsigned(NatToString(n) + rest) == Some((n, rest))
  {
    var d := NatToString(n);
    NatToStringDigits(n);
    DigitRunOfDigits(d, rest);
    assert (d + rest)[..|d|] == d;
    assert (d + rest)[|d|..] == rest;
  }

  lemma SkipNoSpace(s: string)
    requires s != [] && !IsSpace(s[0])
    ensures SkipSpaces(s) == s
  {
  }

  /** `%d` reads back exactly the number `%d` printed, leaving the rest. */
  lemma {:induction false} ScanIntToString(x: int, rest: string)
    requires rest == [] || !IsDigit(rest[0])
    ensures ScanInt(IntToString(x) + rest) == Some((x, rest))
  {
    if x < 0 {
      ScanNegative(-x, rest);
    } else {
      ScanNonNegative(x, rest);
    }
  }

  lemma {:induction false} ScanNegative(n: nat, rest: string)
    requires n > 0 && (rest == [] || !IsDigit(rest[0]))
    ensures ScanInt("-" + NatToString(n) + rest) == Some((-(n as int), rest))
  {
    var s := "-" + NatToString(n) + rest;
    ScanUnsignedDigits(n, rest);
    assert s[0] == '-' && s[1..] == NatToString(n) + rest;
    SkipNoSpace(s);
  }

  lemma {:induction false} ScanNonNegative(n: nat, rest: string)
    requires rest == [] || !IsDigit(rest[0])
    ensures ScanInt(NatToString(n) + rest) == Some((n, rest))
  {
    var s := NatToString(n) + rest;
    ScanUnsignedDigits(n, rest);
    NatToStringDigits(n);
    assert IsDigit(s[0]);
    SkipNoSpace(s);
  }

  /** A conversion skips a leading white-space character. */
  lemma {:induction false} SkipSpaceThenScan(c: char, s: string)
    requires IsSpace(c)
    ensures ScanInt([c] + s) == ScanInt(s)
  {
    assert ([c] + s)[1..] == s;
    assert SkipSpaces([c] + s) == SkipSpaces(s);
  }

  lemma {:induction false} ScanNumbersSpace(s: string)
    ensures ScanNumbers(" " + s) == ScanNumbers(s)
  {
    SkipSpaceThenScan(' ', s);
    assert " " + s == [' '] + s;
  }

  /** The ciphertext file as written is read back number for number. */
  lemma {:induction false} ScanFormatNumbers(xs: seq<int>)
    ensures ScanNumbers(FormatNumbers(xs)) == xs
    decreases |xs|
  {
    if xs == [] {
      assert ScanInt("") == None;
    } else {
      var tail := FormatNumbers(xs[1..]);
      assert FormatNumbers(xs) == IntToString(xs[0]) + (" " + tail);
      ScanIntToString(xs[0], " " + tail);
      ScanNumbersSpace(tail);
      ScanFormatNumbers(xs[1..]);
    }
  }

  /** The space-separated list the messaging client stores is read back
      number for number too. */
  lemma {:induction false} ScanJoinSpace(xs: seq<int>)
    ensures ScanNumbers(JoinSpace(xs)) == xs
    decreases |xs|
  {
    if xs == [] {
      assert ScanInt("") == None;
    } else if |xs| == 1 {
      ScanIntToString(xs[0], "");
      assert IntToString(xs[0]) + "" == JoinSpace(xs);
      assert ScanInt("") == None;
    } else {
      var tail := JoinSpace(xs[1..]);
      assert JoinSpace(xs) == IntToString(xs[0]) + (" " + tail);
      ScanIntToString(xs[0], " " + tail);
      ScanNumbersSpace(tail);
      ScanJoinSpace(xs[1..]);
    }
  }
}
