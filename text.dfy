/** The Python string operations the core relies on, with the semantics of
    CPython's `str.find`, `str.split`, `str.join`, `str.strip`/`rstrip`,
    `str.startswith` and of `int(str)` on ASCII text. */
module Text {
  import opened Basics

  predicate IsDigit(c: char) { '0' <= c <= '9' }

  predicate AllDigits(s: string) { forall i :: 0 <= i < |s| ==> IsDigit(s[i]) }

  /** The ASCII characters `str.strip()` removes: those for which
      `str.isspace()` holds, including the separators 0x1c-0x1f; non-ASCII
      whitespace is not modelled. */
  const Whitespace: set<char> := {' ', '\t', '\n', '\r', 11 as char, 12 as char,
                                  28 as char, 29 as char, 30 as char, 31 as char}

  /** The ASCII characters `int()` skips around a numeral: only C's
      `isspace` set (space, \t, \n, \v, \f, \r), so `int('\x1c1')` raises
      although `'\x1c'.isspace()` holds. */
  const IntWhitespace: set<char> := {' ', '\t', '\n', '\r', 11 as char, 12 as char}

  const DecimalDigits: set<char> := {'0', '1', '2', '3', '4', '5', '6', '7', '8', '9'}

  predicate StartsWith(s: string, prefix: string) {
    |prefix| <= |s| && s[..|prefix|] == prefix
  }

  /** Position of the first `c` in `s` (`str.find`, with None for -1). */
  function Find(s: string, c: char): (r: Option<nat>)
    ensures r.Some? ==> r.value < |s| && s[r.value] == c && c !in s[..r.value]
    ensures r.None? <==> c !in s
  {
    if |s| == 0 then None
    else if s[0] == c then Some(0)
    else
      var rest := Find(s[1..], c);
      if rest.None? then
        assert s == [s[0]] + s[1..];
        None
      else
        assert s[..rest.value + 1] == [s[0]] + s[1..][..rest.value];
        Some(rest.value + 1)
  }

  /** `a, b = s.split(sep, 1)`: the text before and after the first `sep`;
      None where Python's unpacking raises ValueError (no `sep` at all). */
  function SplitOnce(s: string, sep: char): (r: Option<(string, string)>)
    ensures r.None? <==> sep !in s
    ensures r.Some? ==> s == r.value.0 + [sep] + r.value.1 && sep !in r.value.0
  {
    match Find(s, sep)
    case None => None
    case Some(i) =>
      assert s == s[..i] + [sep] + s[i + 1..];
      Some((s[..i], s[i + 1..]))
  }

  /** The split is determined by the first separator. */
  lemma SplitOnceAt(a: string, sep: char, b: string)
    requires sep !in a
    ensures SplitOnce(a + [sep] + b, sep) == Some((a, b))
  {
    var s := a + [sep] + b;
    var r := SplitOnce(s, sep);
    assert s[|a|] == sep;
    var i := Find(s, sep).value;
    assert s[..|a|] == a;
    if i != |a| {
      assert false;
    }
    assert s[..i] == a;
    assert s[i + 1..] == b;
  }

  /** `s.split(sep)` with an explicit one-character separator: empty fields
      are kept, so there is always at least one part. */
  function Split(s: string, sep: char): (parts: seq<string>)
    ensures |parts| >= 1
    ensures forall i :: 0 <= i < |parts| ==> sep !in parts[i]
    decreases |s|
  {
    match Find(s, sep)
    case None => [s]
    case Some(i) => [s[..i]] + Split(s[i + 1..], sep)
  }

  /** `sep.join(parts)`. */
  function Join(parts: seq<string>, sep: string): string
  {
    if |parts| == 0 then ""
    else if |parts| == 1 then parts[0]
    else parts[0] + sep + Join(parts[1..], sep)
  }

  /** Joining the fields of a split with the separator gives the text back. */
  lemma {:induction false} JoinSplit(s: string, sep: char)
    ensures Join(Split(s, sep), [sep]) == s
    decreases |s|
  {
    match Find(s, sep)
    case None =>
    case Some(i) =>
      var rest := Split(s[i + 1..], sep);
      JoinSplit(s[i + 1..], sep);
      assert Split(s, sep) == [s[..i]] + rest;
      assert ([s[..i]] + rest)[1..] == rest;
      assert s == s[..i] + [sep] + s[i + 1..];
  }

  /** `s.lstrip(chars)`. */
  function LStrip(s: string, chars: set<char>): (r: string)
    ensures |r| <= |s|
    ensures |r| > 0 ==> r[0] !in chars && r[0] in s
  {
    if |s| > 0 && s[0] in chars then LStrip(s[1..], chars) else s
  }

  /** `s.rstrip(chars)`. */
  function RStrip(s: string, chars: set<char>): (r: string)
    ensures |r| <= |s| && r == s[..|r|]
    ensures |r| > 0 ==> r[|r| - 1] !in chars && r[0] == s[0]
    ensures forall i :: |r| <= i < |s| ==> s[i] in chars
  {
    if |s| > 0 && s[|s| - 1] in chars then RStrip(s[..|s| - 1], chars) else s
  }

  /** `s.strip()` over ASCII whitespace. */
  function Strip(s: string): (r: string)
    ensures |r| > 0 ==> r[0] in s
  {
    var l := LStrip(s, Whitespace);
    var r := RStrip(l, Whitespace);
    r
  }

  /** The text `int()` parses once the whitespace it skips is gone. */
  function IntStrip(s: string): (r: string)
    ensures |r| > 0 ==> r[0] in s
  {
    RStrip(LStrip(s, IntWhitespace), IntWhitespace)
  }

  lemma IntStripUnpadded(s: string)
    requires s == [] || (s[0] !in IntWhitespace && s[|s| - 1] !in IntWhitespace)
    ensures IntStrip(s) == s
  {
  }

  /** The body of a Python integer literal: decimal digits, with single
      underscores allowed between digits. */
  predicate IsNumeral(d: string) {
    && |d| > 0 && IsDigit(d[0]) && IsDigit(d[|d| - 1])
    && (forall i :: 0 <= i < |d| ==> IsDigit(d[i]) || d[i] == '_')
    && NoDoubleUnderscore(d)
  }

  predicate NoDoubleUnderscore(d: string) {
    |d| < 2 || ((d[0] != '_' || d[1] != '_') && NoDoubleUnderscore(d[1..]))
  }

  lemma {:induction false} DigitsAreNumeral(d: string)
    requires |d| > 0 && AllDigits(d)
    ensures IsNumeral(d)
  {
    if |d| >= 2 {
      DigitsAreNumeral(d[1..]);
    }
  }

  function DropUnderscores(d: string): (r: string)
    ensures (forall i :: 0 <= i < |d| ==> IsDigit(d[i]) || d[i] == '_') ==> AllDigits(r)
    ensures AllDigits(d) ==> r == d
  {
    if |d| == 0 then []
    else if d[0] == '_' then DropUnderscores(d[1..])
    else [d[0]] + DropUnderscores(d[1..])
  }

  /** The value of a string of decimal digits (0 for the empty string). */
  function DigitsValue(d: string): nat
    requires AllDigits(d)
  {
    if |d| == 0 then 0 else 10 * DigitsValue(d[..|d| - 1]) + (d[|d| - 1] as int - '0' as int)
  }

  function ParseNumeral(d: string): Option<nat> {
    if IsNumeral(d) then Some(DigitsValue(DropUnderscores(d))) else None
  }

  /** `int(s)`: surrounding whitespace, one optional sign, then a numeral;
      None where Python raises ValueError. A text without '-' never parses to
      a negative number. */
  function ParseInt(s: string): (r: Option<int>)
    ensures r.Some? && '-' !in s ==> r.value >= 0
  {
    var t := IntStrip(s);
    var signed := |t| > 0 && (t[0] == '+' || t[0] == '-');
    var negative := |t| > 0 && t[0] == '-';
    var n := ParseNumeral(if signed then t[1..] else t);
    if n.None? then None
    else if negative then Some(0 - n.value)
    else Some(n.value as int)
  }

  function DigitChar(n: nat): (c: char)
    requires n < 10
    ensures IsDigit(c) && c as int - '0' as int == n
  {
    ('0' as int + n) as char
  }

  /** `str(n)` for a natural number. */
  function NatToString(n: nat): (s: string)
    ensures |s| > 0 && AllDigits(s)
    decreases n
  {
    if n < 10 then [DigitChar(n)] else NatToString(n / 10) + [DigitChar(n % 10)]
  }

  /** `str(n)` for an integer. */
  function IntToString(n: int): string {
    if n < 0 then "-" + NatToString(-n) else NatToString(n)
  }

  lemma {:induction false} NatToStringValue(n: nat)
    ensures DigitsValue(NatToString(n)) == n
    decreases n
  {
    if n >= 10 {
      NatToStringValue(n / 10);
      var s := NatToString(n);
      assert s[..|s| - 1] == NatToString(n / 10);
    }
  }

  /** `int()` reads a plain digit string as its decimal value. */
  lemma ParseDigits(d: string)
    requires |d| > 0 && AllDigits(d)
    ensures ParseInt(d) == Some(DigitsValue(d))
  {
    IntStripUnpadded(d);
    ParseUnsigned(d);
    DigitsAreNumeral(d);
    assert DropUnderscores(d) == d;
  }

  lemma ParseUnsigned(d: string)
    requires IntStrip(d) == d && |d| > 0 && IsDigit(d[0])
    ensures ParseInt(d) == (if ParseNumeral(d).None? then None else Some(ParseNumeral(d).value as int))
  {
  }

  /** `int()` raises on a numeral led by a file separator (0x1c), which
      `str.isspace()` holds for but `int()` does not skip. */
  lemma ParseIntKeepsSeparators()
    ensures ParseInt([28 as char] + "1") == None
  {
    var s := [28 as char] + "1";
    assert LStrip(s, IntWhitespace) == s;
    assert IntStrip(s) == s;
  }

  /** `int(str(n)) == n`. */
  lemma ParseIntToString(n: int)
    ensures ParseInt(IntToString(n)) == Some(n)
  {
    if n < 0 {
      var d := NatToString(-n);
      var t := "-" + d;
      assert t[|t| - 1] == d[|d| - 1];
      IntStripUnpadded(t);
      assert t[1..] == d;
      DigitsAreNumeral(d);
      NatToStringValue(-n);
    } else {
      NatToStringValue(n);
      ParseDigits(NatToString(n));
    }
  }
}
