/** The handful of Python string operations the command line and the RDB
    header check rely on: str.strip(), str.startswith(), str.split(sep),
    int(text) in base 10 and "%s" of a non-negative int. */
module PyStr {
  import opened Wrappers

  /** The characters str.strip() and int() skip: space, tab, newline,
      vertical tab, form feed and carriage return. */
  predicate IsSpace(c: char) {
    c == ' ' || c == '\t' || c == '\n' || c == '\r' || c == 11 as char || c == 12 as char
  }

  function StripLeft(s: string): (r: string)
    ensures |r| <= |s| && r == s[|s| - |r|..]
    ensures forall i :: 0 <= i < |s| - |r| ==> IsSpace(s[i])
    ensures |r| > 0 ==> !IsSpace(r[0])
    decreases |s|
  {
    if |s| > 0 && IsSpace(s[0]) then StripLeft(s[1..]) else s
  }

  function StripRight(s: string): (r: string)
    ensures |r| <= |s| && r == s[..|r|]
    ensures forall i :: |r| <= i < |s| ==> IsSpace(s[i])
    ensures |r| > 0 ==> !IsSpace(r[|r| - 1])
    decreases |s|
  {
    if |s| > 0 && IsSpace(s[|s| - 1]) then StripRight(s[..|s| - 1]) else s
  }

  /** str.strip(): s with its leading and trailing whitespace cut off. */
  function Strip(s: string): (r: string)
    ensures |r| <= |s|
    ensures |r| > 0 ==> !IsSpace(r[0]) && !IsSpace(r[|r| - 1])
  {
    StripRight(StripLeft(s))
  }

  /** strip() cuts off only whitespace, and all of it: the result is an
      infix of s with whitespace alone before and after it, and neither
      starts nor ends with whitespace itself. */
  lemma StripCutsSpace(s: string)
    ensures exists i, j :: 0 <= i <= j <= |s| && Strip(s) == s[i..j] && AllSpace(s[..i]) && AllSpace(s[j..])
  {
    var l := StripLeft(s);
    var r := StripRight(l);
    var i := |s| - |l|;
    var j := i + |r|;
    assert r == s[i..j];
    assert AllSpace(s[..i]);
    assert s[j..] == l[|r|..];
    assert AllSpace(l[|r|..]);
  }

  predicate AllSpace(s: string) {
    forall i :: 0 <= i < |s| ==> IsSpace(s[i])
  }

  /** A string that neither starts nor ends with whitespace is its own strip. */
  lemma StripUnchanged(s: string)
    requires |s| > 0 ==> !IsSpace(s[0]) && !IsSpace(s[|s| - 1])
    ensures Strip(s) == s
  {
  }

  predicate StartsWith(s: string, prefix: string) {
    |prefix| <= |s| && s[..|prefix|] == prefix
  }

  /** Number of occurrences of c in s. */
  function Occurrences(s: string, c: char): nat {
    if s == [] then 0 else (if s[0] == c then 1 else 0) + Occurrences(s[1..], c)
  }

  /** str.split(sep) for a one-character separator: the pieces between the
      occurrences of sep, in order; an empty string gives one empty piece. */
  function Split(s: string, sep: char): (r: seq<string>)
    ensures |r| == Occurrences(s, sep) + 1
    ensures forall i :: 0 <= i < |r| ==> sep !in r[i]
    decreases |s|
  {
    if s == [] then [[]]
    else
      var rest := Split(s[1..], sep);
      if s[0] == sep then [[]] + rest else [[s[0]] + rest[0]] + rest[1..]
  }

  /** sep.join(parts), the inverse of Split. */
  function Join(parts: seq<string>, sep: char): string
    requires |parts| >= 1
    decreases |parts|
  {
    if |parts| == 1 then parts[0] else parts[0] + [sep] + Join(parts[1..], sep)
  }

  /** Splitting loses nothing: joining the pieces back gives the input. */
  lemma {:induction false} JoinSplit(s: string, sep: char)
    ensures Join(Split(s, sep), sep) == s
    decreases |s|
  {
    if s != [] {
      JoinSplit(s[1..], sep);
      var rest := Split(s[1..], sep);
      if s[0] != sep {
        if |rest| == 1 {
          assert Split(s, sep) == [[s[0]] + rest[0]];
        } else {
          assert Split(s, sep)[1..] == rest[1..];
        }
      } else {
        assert Split(s, sep)[1..] == rest;
      }
    }
  }

  /** Pieces free of the separator are recovered by splitting their join. */
  lemma {:induction false} SplitJoin(parts: seq<string>, sep: char)
    requires |parts| >= 1
    requires forall i :: 0 <= i < |parts| ==> sep !in parts[i]
    ensures Split(Join(parts, sep), sep) == parts
    decreases |parts|, |parts[0]|
  {
    var p := parts[0];
    if p == [] {
      if |parts| > 1 {
        SplitJoin(parts[1..], sep);
        assert Join(parts, sep) == [sep] + Join(parts[1..], sep);
        assert ([sep] + Join(parts[1..], sep))[1..] == Join(parts[1..], sep);
      }
    } else {
      var tail := [p[1..]] + parts[1..];
      assert tail[1..] == parts[1..];
      SplitJoin(tail, sep);
      assert Join(parts, sep) == [p[0]] + Join(tail, sep);
      assert ([p[0]] + Join(tail, sep))[1..] == Join(tail, sep);
      assert [p[0]] + p[1..] == p;
    }
  }

  /** Two separator-free pieces joined by the separator split back into
      those two pieces. */
  lemma SplitPair(a: string, b: string, sep: char)
    requires sep !in a && sep !in b
    ensures Split(a + [sep] + b, sep) == [a, b]
  {
    SplitJoin([a, b], sep);
    assert Join([a, b], sep) == a + [sep] + Join([b], sep);
  }

  /** A string that splits into two pieces is those pieces around the one
      separator. */
  lemma JoinPair(s: string, sep: char)
    requires |Split(s, sep)| == 2
    ensures s == Split(s, sep)[0] + [sep] + Split(s, sep)[1]
  {
    var parts := Split(s, sep);
    JoinSplit(s, sep);
    assert parts[1..] == [parts[1]];
  }

  /** A trailing separator adds one empty piece at the end. */
  lemma {:induction false} SplitTrailingSep(s: string, sep: char)
    ensures Split(s + [sep], sep) == Split(s, sep) + [[]]
    decreases |s|
  {
    if s == [] {
      assert Split([sep], sep) == [[]] + Split([], sep);
    } else {
      assert (s + [sep])[1..] == s[1..] + [sep];
      SplitTrailingSep(s[1..], sep);
      var rest := Split(s[1..], sep);
      if s[0] != sep {
        assert (rest + [[]])[0] == rest[0];
        assert (rest + [[]])[1..] == rest[1..] + [[]];
      }
    }
  }

  predicate IsDigit(c: char) { '0' <= c <= '9' }

  predicate AllDigits(s: string) {
    forall i :: 0 <= i < |s| ==> IsDigit(s[i])
  }

  /** The value of a run of decimal digits, most significant first. */
  function DigitsValue(s: string): nat
    requires AllDigits(s)
    decreases |s|
  {
    if s == [] then 0 else DigitsValue(s[..|s| - 1]) * 10 + (s[|s| - 1] as int - '0' as int)
  }

  /** The strict reading of int(text) in base 10: surrounding whitespace,
      an optional sign and at least one ASCII digit right after it; None
      where int() raises ValueError. Python 3 reads ASCII text this way
      (apart from '_' between digits); Python 2 is ParseIntPy2. */
  function ParseInt(text: string): (r: Option<int>)
  {
    var t := Strip(text);
    var signed := |t| > 0 && (t[0] == '+' || t[0] == '-');
    var digits := if signed then t[1..] else t;
    if |digits| > 0 && AllDigits(digits) then
      var v: int := DigitsValue(digits);
      Some(if signed && t[0] == '-' then -v else v)
    else
      None
  }

  /** int(text) in base 10 as Python 2 reads it (PyOS_strtol): like
      ParseInt, and whitespace may also stand between the sign and the
      digits. */
  function ParseIntPy2(text: string): (r: Option<int>)
  {
    var t := Strip(text);
    var signed := |t| > 0 && (t[0] == '+' || t[0] == '-');
    var digits := if signed then StripLeft(t[1..]) else t;
    if |digits| > 0 && AllDigits(digits) then
      var v: int := DigitsValue(digits);
      Some(if signed && t[0] == '-' then -v else v)
    else
      None
  }

  /** Leading whitespace before a non-space character is what StripLeft
      removes. */
  lemma {:induction false} StripLeftSpaces(w: string, d: string)
    requires AllSpace(w) && |d| > 0 && !IsSpace(d[0])
    ensures StripLeft(w + d) == d
    decreases |w|
  {
    if w == [] {
      assert w + d == d;
    } else {
      assert (w + d)[1..] == w[1..] + d;
      StripLeftSpaces(w[1..], d);
    }
  }

  /** Some whitespace, then one or more decimal digits. */
  predicate SpacesThenDigits(u: string) {
    exists k :: 0 <= k < |u| && AllSpace(u[..k]) && AllDigits(u[k..])
  }

  lemma StripLeftDigits(u: string)
    ensures |StripLeft(u)| > 0 && AllDigits(StripLeft(u)) <==> SpacesThenDigits(u)
  {
    var d := StripLeft(u);
    if |d| > 0 && AllDigits(d) {
      var k := |u| - |d|;
      assert u[k..] == d;
      assert AllSpace(u[..k]);
    }
    if SpacesThenDigits(u) {
      var k :| 0 <= k < |u| && AllSpace(u[..k]) && AllDigits(u[k..]);
      assert u == u[..k] + u[k..];
      StripLeftSpaces(u[..k], u[k..]);
    }
  }

  /** The text Python 2's int() accepts, as a grammar: whitespace, an
      optional sign, whitespace, one or more digits, whitespace. */
  lemma ParseIntPy2Accepts(text: string)
    ensures ParseIntPy2(text).Some? <==>
      var t := Strip(text);
      (|t| > 0 && AllDigits(t)) ||
      (|t| > 1 && (t[0] == '+' || t[0] == '-') && SpacesThenDigits(t[1..]))
  {
    var t := Strip(text);
    if |t| > 0 {
      StripLeftDigits(t[1..]);
    }
  }

  /** Python 2 accepts everything ParseInt accepts, with the same value. */
  lemma ParseIntPy2Extends(text: string)
    ensures ParseInt(text).Some? ==> ParseIntPy2(text) == ParseInt(text)
  {
    var t := Strip(text);
    if ParseInt(text).Some? && |t| > 0 && (t[0] == '+' || t[0] == '-') {
      assert !IsSpace(t[1..][0]);
    }
  }

  /** A sign before text ending in a digit leaves nothing to strip. */
  lemma SignedUnstripped(u: string)
    requires |u| > 0 && IsDigit(u[|u| - 1])
    ensures Strip(['+'] + u) == ['+'] + u
  {
    var t := ['+'] + u;
    assert t[|t| - 1] == u[|u| - 1];
    StripUnchanged(t);
  }

  /** Whitespace then digits: not all digits, and StripLeft leaves the
      digits. */
  lemma SpaceThenDigitsParts(w: string, digits: string)
    requires |w| > 0 && AllSpace(w) && |digits| > 0 && AllDigits(digits)
    ensures StripLeft(w + digits) == digits && !AllDigits(w + digits)
    ensures IsDigit((w + digits)[|w + digits| - 1])
  {
    StripLeftSpaces(w, digits);
    assert (w + digits)[0] == w[0];
    assert (w + digits)[|w + digits| - 1] == digits[|digits| - 1];
  }

  /** After a '+', Python 2 skips whatever StripLeft skips. */
  lemma ParseIntPy2Signed(u: string, digits: string)
    requires |u| > 0 && IsDigit(u[|u| - 1])
    requires StripLeft(u) == digits && |digits| > 0 && AllDigits(digits)
    ensures ParseIntPy2(['+'] + u) == Some(DigitsValue(digits))
  {
    SignedUnstripped(u);
    assert (['+'] + u)[1..] == u;
  }

  /** After a '+', ParseInt wants digits only. */
  lemma ParseIntSignedRefused(u: string)
    requires |u| > 0 && IsDigit(u[|u| - 1]) && !AllDigits(u)
    ensures ParseInt(['+'] + u).None?
  {
    SignedUnstripped(u);
    assert (['+'] + u)[1..] == u;
  }

  /** Python 2 reads a '+', whitespace and digits (such as "+ 7") as the
      digits' value, where ParseInt refuses the text. */
  lemma ParseIntPy2SpaceAfterSign(w: string, digits: string)
    requires |w| > 0 && AllSpace(w) && |digits| > 0 && AllDigits(digits)
    ensures ParseIntPy2(['+'] + w + digits) == Some(DigitsValue(digits))
    ensures ParseInt(['+'] + w + digits).None?
  {
    var u := w + digits;
    assert ['+'] + w + digits == ['+'] + u;
    SpaceThenDigitsParts(w, digits);
    ParseIntPy2Signed(u, digits);
    ParseIntSignedRefused(u);
  }

  /** The text the strict reading accepts, as a grammar: whitespace, an
      optional sign, one or more digits, whitespace. */
  lemma ParseIntAccepts(text: string)
    ensures ParseInt(text).Some? <==>
      var t := Strip(text);
      (|t| > 0 && AllDigits(t)) ||
      (|t| > 1 && (t[0] == '+' || t[0] == '-') && AllDigits(t[1..]))
  {
  }

  function DigitChar(d: nat): (c: char)
    requires d < 10
    ensures IsDigit(c) && c as int - '0' as int == d
  {
    ('0' as int + d) as char
  }

  /** "%s" % n for a non-negative int: its decimal digits, no leading zero. */
  function DecimalString(n: nat): (r: string)
    ensures |r| >= 1 && AllDigits(r)
    ensures n > 0 ==> r[0] != '0'
    ensures n == 0 ==> r == "0"
    decreases n
  {
    if n < 10 then [DigitChar(n)] else DecimalString(n / 10) + [DigitChar(n % 10)]
  }

  lemma {:induction false} DecimalValue(n: nat)
    ensures DigitsValue(DecimalString(n)) == n
    decreases n
  {
    var s := DecimalString(n);
    if n < 10 {
      assert s[..0] == [];
    } else {
      DecimalValue(n / 10);
      assert s[..|s| - 1] == DecimalString(n / 10);
    }
  }

  /** int() reads back what "%s" prints, in either reading (see
      ParseIntPy2Extends). */
  lemma DecimalRoundTrip(n: nat)
    ensures ParseInt(DecimalString(n)) == Some(n)
  {
    var s := DecimalString(n);
    StripUnchanged(s);
    assert Strip(s) == s;
    assert !(s[0] == '+' || s[0] == '-');
    DecimalValue(n);
  }
}
