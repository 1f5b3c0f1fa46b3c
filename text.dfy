/** The JavaScript string operations the core relies on, for UTF-16-free `seq<char>`. */
module Text {
  import opened Common

  predicate StartsWith(s: string, prefix: string) {
    |prefix| <= |s| && s[..|prefix|] == prefix
  }

  /** Joins parts with a one-character separator; the inverse of Split. */
  function Join(parts: seq<string>, sep: char): string {
    if |parts| == 0 then []
    else if |parts| == 1 then parts[0]
    else parts[0] + [sep] + Join(parts[1..], sep)
  }

  /** `s.split(sep)` for a one-character separator: never empty, the parts hold no separator,
      and joining them back gives `s`. */
  function Split(s: string, sep: char): (parts: seq<string>)
    ensures |parts| >= 1
    ensures forall i :: 0 <= i < |parts| ==> sep !in parts[i]
    ensures Join(parts, sep) == s
  {
    if s == [] then [[]]
    else
      var rest := Split(s[1..], sep);
      if s[0] == sep then
        assert Join([[]] + rest, sep) == [] + [sep] + Join(rest, sep);
        [[]] + rest
      else
        var parts := [[s[0]] + rest[0]] + rest[1..];
        assert parts[1..] == rest[1..];
        assert Join(parts, sep) == [s[0]] + Join(rest, sep);
        parts
  }

  /** Split is the only way to cut `s` into separator-free parts that join back to `s`. */
  lemma {:induction false} SplitUnique(parts: seq<string>, s: string, sep: char)
    requires |parts| >= 1
    requires forall i :: 0 <= i < |parts| ==> sep !in parts[i]
    requires Join(parts, sep) == s
    ensures parts == Split(s, sep)
    decreases |s|, |parts[0]|
  {
    if |parts| == 1 {
      if s != [] {
        var rest := Split(s[1..], sep);
        assert s[0] in parts[0];
        var tail := [parts[0][1..]];
        assert Join(tail, sep) == s[1..];
        SplitUnique(tail, s[1..], sep);
      }
    } else if parts[0] == [] {
      assert s == [sep] + Join(parts[1..], sep);
      SplitUnique(parts[1..], s[1..], sep);
      assert parts == [[]] + parts[1..];
    } else {
      var tail := [parts[0][1..]] + parts[1..];
      assert tail[1..] == parts[1..];
      assert s == [parts[0][0]] + Join(tail, sep);
      assert parts[0][0] in parts[0];
      forall i | 0 <= i < |tail| ensures sep !in tail[i] {
        if i == 0 {
          assert forall c :: c in parts[0][1..] ==> c in parts[0];
        } else {
          assert tail[i] == parts[i];
        }
      }
      SplitUnique(tail, s[1..], sep);
      assert parts[0] == [parts[0][0]] + tail[0];
      assert parts == [parts[0]] + tail[1..];
    }
  }

  /** The characters `String.prototype.trim` removes: WhiteSpace and LineTerminator of
      section 12.2 and 12.3 of ECMA-262. */
  predicate IsWhitespace(c: char) {
    c == '\t' || c == '\n' || c == '\U{000B}' || c == '\U{000C}' || c == '\r' || c == ' '
    || c == '\U{00A0}' || c == '\U{1680}' || ('\U{2000}' <= c <= '\U{200A}')
    || c == '\U{2028}' || c == '\U{2029}' || c == '\U{202F}' || c == '\U{205F}'
    || c == '\U{3000}' || c == '\U{FEFF}'
  }

  /** Drops leading whitespace: the result is the suffix of `s` after its whitespace prefix. */
  function TrimStart(s: string): (r: string)
    ensures |r| <= |s| && r == s[|s| - |r|..]
    ensures forall k :: 0 <= k < |s| - |r| ==> IsWhitespace(s[k])
    ensures r == [] || !IsWhitespace(r[0])
  {
    if s != [] && IsWhitespace(s[0]) then TrimStart(s[1..]) else s
  }

  /** Drops trailing whitespace: the result is the prefix of `s` before its whitespace suffix. */
  function TrimEnd(s: string): (r: string)
    ensures |r| <= |s| && r == s[..|r|]
    ensures forall k :: |r| <= k < |s| ==> IsWhitespace(s[k])
    ensures r == [] || !IsWhitespace(r[|r| - 1])
  {
    if s != [] && IsWhitespace(s[|s| - 1]) then TrimEnd(s[..|s| - 1]) else s
  }

  /** `s.trim()`. */
  function Trim(s: string): (r: string)
    ensures r == [] || (!IsWhitespace(r[0]) && !IsWhitespace(r[|r| - 1]))
    ensures forall c :: c in r ==> c in s
  {
    var t := TrimStart(s);
    var r := TrimEnd(t);
    InfixChars(s, |s| - |t|, |s|);
    InfixChars(t, 0, |r|);
    if r != [] then assert r[0] == t[0]; r else r
  }

  lemma InfixChars(s: string, i: nat, j: nat)
    requires i <= j <= |s|
    ensures forall c :: c in s[i..j] ==> c in s
  {
    forall c | c in s[i..j] ensures c in s {
      var k :| 0 <= k < j - i && s[i..j][k] == c;
      assert s[i + k] == c;
    }
  }

  /** The length of the whitespace run that opens `s`. */
  function LeadingWhitespace(s: string): (n: nat)
    ensures n <= |s| && forall k :: 0 <= k < n ==> IsWhitespace(s[k])
    ensures n == |s| || !IsWhitespace(s[n])
  {
    if s != [] && IsWhitespace(s[0]) then 1 + LeadingWhitespace(s[1..]) else 0
  }

  /** `s.trim()` is the infix of `s` that starts after its leading whitespace and is followed
      only by whitespace; with `Trim`'s own promise that it neither starts nor ends with
      whitespace, this fixes it uniquely. */
  lemma TrimInfix(s: string)
    ensures var a := LeadingWhitespace(s);
      a + |Trim(s)| <= |s| && Trim(s) == s[a..a + |Trim(s)|]
      && forall k :: a + |Trim(s)| <= k < |s| ==> IsWhitespace(s[k])
  {
    var t := TrimStart(s);
    assert Trim(s) == TrimEnd(t);
    LeadingWhitespaceTrimmed(s);
    TrimmedInfix(s, t, Trim(s), LeadingWhitespace(s));
  }

  lemma {:induction false} LeadingWhitespaceTrimmed(s: string)
    ensures LeadingWhitespace(s) == |s| - |TrimStart(s)|
  {
    if s != [] && IsWhitespace(s[0]) {
      LeadingWhitespaceTrimmed(s[1..]);
    }
  }

  /** A prefix `r` of the suffix `t` of `s` that starts at `a`, with only whitespace after it. */
  lemma TrimmedInfix(s: string, t: string, r: string, a: nat)
    requires |r| <= |t| <= |s| && a == |s| - |t| && t == s[a..] && r == t[..|r|]
    requires forall k :: |r| <= k < |t| ==> IsWhitespace(t[k])
    ensures a + |r| <= |s| && r == s[a..a + |r|] && forall k :: a + |r| <= k < |s| ==> IsWhitespace(s[k])
  {
    forall k | a + |r| <= k < |s| ensures IsWhitespace(s[k]) {
      assert s[k] == t[k - a];
    }
  }

  /** Trimming a trimmed string changes nothing. */
  lemma TrimIdempotent(s: string)
    ensures Trim(Trim(s)) == Trim(s)
  {
    var r := Trim(s);
    assert TrimStart(r) == r;
    assert TrimEnd(r) == r;
  }

  function DigitChar(d: nat): char
    requires d < 10
  {
    ('0' as int + d) as char
  }

  predicate IsDigit(c: char) {
    '0' <= c <= '9'
  }

  /** The decimal rendering of a natural number, as JavaScript's template strings print it. */
  function NatToString(n: nat): (s: string)
    ensures |s| >= 1
    ensures forall k :: 0 <= k < |s| ==> IsDigit(s[k])
  {
    if n < 10 then [DigitChar(n)] else NatToString(n / 10) + [DigitChar(n % 10)]
  }

  function DigitValue(c: char): nat
    requires IsDigit(c)
  {
    (c as int - '0' as int) as nat
  }

  /** The number a string of decimal digits denotes. */
  function DecimalValue(s: string): nat
    requires forall k :: 0 <= k < |s| ==> IsDigit(s[k])
  {
    if s == [] then 0 else 10 * DecimalValue(s[..|s| - 1]) + DigitValue(s[|s| - 1])
  }

  /** Reading back a rendered number gives the number: the rendering is injective. */
  lemma {:induction false} DecimalRoundTrip(n: nat)
    ensures DecimalValue(NatToString(n)) == n
  {
    var s := NatToString(n);
    if n >= 10 {
      DecimalRoundTrip(n / 10);
      assert s[..|s| - 1] == NatToString(n / 10);
      assert DigitValue(s[|s| - 1]) == n % 10;
    }
  }

  function LowerChar(c: char): char {
    if 'A' <= c <= 'Z' then (c as int + 32) as char else c
  }

  /** `s.toLowerCase()` restricted to the ASCII letters. */
  function ToLowerAscii(s: string): (r: string)
    ensures |r| == |s|
    ensures forall k :: 0 <= k < |s| ==> r[k] == LowerChar(s[k])
  {
    if s == [] then [] else [LowerChar(s[0])] + ToLowerAscii(s[1..])
  }

  predicate IsHexDigit(c: char) {
    IsDigit(c) || 'a' <= c <= 'f' || 'A' <= c <= 'F'
  }

  function HexDigitValue(c: char): nat
    requires IsHexDigit(c)
  {
    if IsDigit(c) then DigitValue(c)
    else if 'a' <= c <= 'f' then (c as int - 'a' as int + 10) as nat
    else (c as int - 'A' as int + 10) as nat
  }

  /** The number a string of hexadecimal digits denotes. */
  function HexValue(s: string): nat
    requires forall k :: 0 <= k < |s| ==> IsHexDigit(s[k])
  {
    if s == [] then 0 else 16 * HexValue(s[..|s| - 1]) + HexDigitValue(s[|s| - 1])
  }

  predicate IsRadixDigit(c: char, hex: bool) {
    if hex then IsHexDigit(c) else IsDigit(c)
  }

  /** The longest prefix of `s` made of digits of the radix. */
  function DigitRun(s: string, hex: bool): (r: string)
    ensures |r| <= |s| && r == s[..|r|]
    ensures forall k :: 0 <= k < |r| ==> IsRadixDigit(r[k], hex)
    ensures |r| < |s| ==> !IsRadixDigit(s[|r|], hex)
  {
    if s == [] || !IsRadixDigit(s[0], hex) then [] else [s[0]] + DigitRun(s[1..], hex)
  }

  /** The unsigned part of `parseInt`: a `0x`/`0X` prefix selects base 16, then the longest run
      of digits of the base is read; no digit at all is `NaN`. */
  function ParseMagnitude(u: string): Option<nat> {
    var hex := |u| >= 2 && u[0] == '0' && (u[1] == 'x' || u[1] == 'X');
    var z := DigitRun(if hex then u[2..] else u, hex);
    if z == [] then None else Some(if hex then HexValue(z) else DecimalValue(z))
  }

  /** JavaScript's `parseInt(s)` without a radix: leading white space skipped, an optional sign,
      then the magnitude; None is `NaN`. */
  function ParseInt(s: string): Option<int> {
    var t := TrimStart(s);
    var sign := if |t| > 0 && t[0] == '-' then -1 else 1;
    var u := if |t| > 0 && (t[0] == '-' || t[0] == '+') then t[1..] else t;
    match ParseMagnitude(u)
    case None => None
    case Some(v) => Some(sign * v)
  }

  /** The digit run of digits followed by a non-digit is those digits. */
  lemma {:induction false} DigitRunPrefix(d: string, rest: string)
    requires forall k :: 0 <= k < |d| ==> IsDigit(d[k])
    requires rest == [] || !IsDigit(rest[0])
    ensures DigitRun(d + rest, false) == d
    decreases |d|
  {
    if d == [] {
      assert d + rest == rest;
    } else {
      assert (d + rest)[1..] == d[1..] + rest;
      DigitRunPrefix(d[1..], rest);
    }
  }

  /** What may follow a number so that `parseInt` stops right after it: the end, or a character
      that is neither a digit nor the `x` of a hexadecimal prefix. */
  predicate EndsNumber(rest: string) {
    rest == [] || (!IsDigit(rest[0]) && rest[0] != 'x' && rest[0] != 'X')
  }

  lemma NotWhitespace(c: char)
    requires IsDigit(c) || c == '-'
    ensures !IsWhitespace(c)
  {
  }

  /** A string that does not start with white space is its own `trimStart`. */
  lemma TrimStartNoop(s: string)
    requires s != [] && !IsWhitespace(s[0])
    ensures TrimStart(s) == s
  {
  }

  /** Digits followed by an ending are read in base 10, with no hexadecimal prefix. */
  lemma ReadDecimal(d: string, rest: string)
    requires d != [] && forall k :: 0 <= k < |d| ==> IsDigit(d[k])
    requires EndsNumber(rest)
    ensures ParseMagnitude(d + rest) == Some(DecimalValue(d))
  {
    var u := d + rest;
    if |u| >= 2 {
      if |d| >= 2 {
        assert u[1] == d[1];
      } else {
        assert u[1] == rest[0];
      }
    }
    DigitRunPrefix(d, rest);
  }

  /** `parseInt` reads a rendered decimal back as the number. */
  lemma ParseIntOfDecimal(n: nat)
    ensures ParseInt(NatToString(n)) == Some(n)
  {
    ParseIntRendering(n, []);
    assert NatToString(n) + [] == NatToString(n);
  }

  /** `parseInt` reads back the decimal rendering of a number, whatever text that does not
      continue the number follows it. */
  lemma {:induction false} ParseIntRendering(n: nat, rest: string)
    requires EndsNumber(rest)
    ensures ParseInt(NatToString(n) + rest) == Some(n)
  {
    var d := NatToString(n);
    var s := d + rest;
    assert s[0] == d[0];
    NotWhitespace(s[0]);
    TrimStartNoop(s);
    ReadDecimal(d, rest);
    DecimalRoundTrip(n);
  }

  /** A leading minus sign negates the magnitude that follows it. */
  lemma ParseIntMinus(m: string, v: nat)
    requires m != [] && m[0] == '-' && ParseMagnitude(m[1..]) == Some(v)
    ensures ParseInt(m) == Some(-(v as int))
  {
    NotWhitespace(m[0]);
    TrimStartNoop(m);
  }

  /** With a minus sign in front it reads the negated number. */
  lemma {:induction false} ParseIntNegated(n: nat, rest: string)
    requires EndsNumber(rest)
    ensures ParseInt("-" + NatToString(n) + rest) == Some(-(n as int))
  {
    var d := NatToString(n);
    var u := d + rest;
    var m := ['-'] + u;
    assert "-" + d + rest == m;
    assert m[1..] == u;
    ReadDecimal(d, rest);
    DecimalRoundTrip(n);
    ParseIntMinus(m, n);
  }
}
