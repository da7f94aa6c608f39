/** Integer <-> text conversions of the Python runtime that the two scripts
    lean on: `str(n)` and `f"{n:x}"` for rendering, `"{:096x}".format(n)`
    for the test-vector encoding, and the `int(s)` / `int(s, 16)`
    constructors for reading numbers back; powers and `1 << k`. */
module Numerals {
  import opened Results

  function Pow(b: int, e: nat): int
  {
    if e == 0 then 1 else b * Pow(b, e - 1)
  }

  /** `1 << k`. */
  function Bit(k: nat): (r: nat)
    ensures r >= 1
  {
    if k == 0 then 1 else 2 * Bit(k - 1)
  }

  /** The lower-case digit character of d. */
  function DigitChar(d: nat): (c: char)
    requires d < 16
    ensures DigitValue(c) == Some(d)
  {
    if d < 10 then ('0' as int + d) as char else ('a' as int + d - 10) as char
  }

  /** The value of one digit character, upper- or lower-case. */
  function DigitValue(c: char): Option<nat>
  {
    if '0' <= c <= '9' then Some(c as nat - '0' as nat)
    else if 'a' <= c <= 'f' then Some(c as nat - 'a' as nat + 10)
    else if 'A' <= c <= 'F' then Some(c as nat - 'A' as nat + 10)
    else None
  }

  predicate IsDigit(c: char, base: nat)
  {
    DigitValue(c).Some? && DigitValue(c).value < base
  }

  predicate AllDigits(s: string, base: nat)
  {
    forall i :: 0 <= i < |s| ==> IsDigit(s[i], base)
  }

  /** The digits of n in the given base, most significant first, no sign,
      no prefix, lower-case letters, the single digit "0" for zero. */
  function NatToDigits(n: nat, base: nat): (s: string)
    requires 2 <= base <= 16
    ensures 1 <= |s|
    ensures AllDigits(s, base)
    ensures |s| > 1 ==> s[0] != '0'
    decreases n
  {
    if n < base then [DigitChar(n)]
    else
      DivStep(n, base);
      NatToDigits(n / base, base) + [DigitChar(n % base)]
  }

  lemma DivStep(n: nat, base: nat)
    requires 2 <= base <= n
    ensures 0 < n / base < n && n % base < base && n == n / base * base + n % base
  {
  }

  /** The value of a string of digits, most significant first. */
  function DigitsValue(s: string, base: nat): nat
    requires AllDigits(s, base)
  {
    if s == [] then 0
    else DigitsValue(s[..|s| - 1], base) * base + DigitValue(s[|s| - 1]).value
  }

  lemma {:induction false} DigitsRoundTrip(n: nat, base: nat)
    requires 2 <= base <= 16
    ensures DigitsValue(NatToDigits(n, base), base) == n
  {
    var s := NatToDigits(n, base);
    if n >= base {
      DivStep(n, base);
      var q, r := n / base, n % base;
      DigitsRoundTrip(q, base);
      assert s == NatToDigits(q, base) + [DigitChar(r)];
      assert s[..|s| - 1] == NatToDigits(q, base);
      assert DigitValue(s[|s| - 1]).value == r;
      assert DigitsValue(s, base) == q * base + r;
    }
  }

  /** A number below base^k needs at most k digits. */
  lemma {:induction false} DigitsLength(n: nat, base: nat, k: nat)
    requires 2 <= base <= 16 && 1 <= k && n < Pow(base, k)
    ensures |NatToDigits(n, base)| <= k
  {
    if n >= base {
      assert Pow(base, 1) == base;
      DivStep(n, base);
      var q := n / base;
      assert Pow(base, k) == base * Pow(base, k - 1);
      QuotientBelow(n, base, Pow(base, k - 1));
      DigitsLength(q, base, k - 1);
      assert NatToDigits(n, base) == NatToDigits(q, base) + [DigitChar(n % base)];
    }
  }

  /** n < b * m gives n / b < m. */
  lemma QuotientBelow(n: nat, b: nat, m: int)
    requires b >= 1 && n < b * m
    ensures n / b < m
  {
    var q := n / b;
    assert n == q * b + n % b;
    assert q * b < m * b;
  }

  /** Leading zeros do not change the value of a digit string. */
  lemma {:induction false} LeadingZeros(z: nat, s: string, base: nat)
    requires 2 <= base <= 16 && AllDigits(s, base)
    ensures AllDigits(Zeros(z) + s, base)
    ensures DigitsValue(Zeros(z) + s, base) == DigitsValue(s, base)
    decreases |s|
  {
    var t := Zeros(z) + s;
    assert AllDigits(t, base) by {
      forall i | 0 <= i < |t| ensures IsDigit(t[i], base) {
        if i >= z { assert t[i] == s[i - z]; }
      }
    }
    if s == [] {
      ZerosValue(z, base);
      assert t == Zeros(z);
    } else {
      assert t[..|t| - 1] == Zeros(z) + s[..|s| - 1];
      LeadingZeros(z, s[..|s| - 1], base);
    }
  }

  function Zeros(n: nat): (s: string)
    ensures |s| == n && forall i :: 0 <= i < n ==> s[i] == '0'
  {
    seq(n, _ => '0')
  }

  lemma {:induction false} ZerosValue(n: nat, base: nat)
    requires 2 <= base <= 16
    ensures AllDigits(Zeros(n), base) && DigitsValue(Zeros(n), base) == 0
  {
    if n > 0 {
      assert Zeros(n)[..n - 1] == Zeros(n - 1);
      ZerosValue(n - 1, base);
    }
  }

  /** Python's `str(n)` for an int: decimal digits, '-' before negatives. */
  function DecimalString(n: int): (s: string)
    ensures 1 <= |s|
    ensures forall j :: 0 <= j < |s| ==> s[j] == '-' || '0' <= s[j] <= '9'
  {
    if n < 0 then "-" + NatToDigits(-n, 10) else NatToDigits(n, 10)
  }

  /** Python's `format(n, "x")` for n >= 0: lower-case hex, no prefix. */
  function HexString(n: nat): (s: string)
    ensures 1 <= |s| && AllDigits(s, 16)
  {
    NatToDigits(n, 16)
  }

  /** Python's `"{:0Nx}".format(n)` for n >= 0: lower-case hex digits,
      left-padded with zeros to at least `width` characters, never cut. */
  function ZeroPaddedHex(n: nat, width: nat): (s: string)
  {
    var h := HexString(n);
    if |h| < width then Zeros(width - |h|) + h else h
  }

  /** Characters for which Python's `str.isspace()` holds (its `\s` and
      the set `int()` strips). */
  predicate IsPyWhitespace(c: char)
  {
    || c == ' ' || '\t' <= c <= '\r' || '\U{1C}' <= c <= '\U{1F}'
    || c == '\U{85}' || c == '\U{A0}' || c == '\U{1680}'
    || '\U{2000}' <= c <= '\U{200A}' || c == '\U{2028}' || c == '\U{2029}'
    || c == '\U{202F}' || c == '\U{205F}' || c == '\U{3000}'
  }

  function StripLeft(s: string): (t: string)
    ensures |t| <= |s|
  {
    if s != [] && IsPyWhitespace(s[0]) then StripLeft(s[1..]) else s
  }

  function StripRight(s: string): (t: string)
    ensures |t| <= |s|
  {
    if s != [] && IsPyWhitespace(s[|s| - 1]) then StripRight(s[..|s| - 1]) else s
  }

  /** `str.lstrip()`: what is left is a suffix of s that does not start
      with white space, and everything before it is white space. */
  lemma {:induction false} StripLeftSpec(s: string)
    ensures var t := StripLeft(s);
      && t == s[|s| - |t|..]
      && (t == [] || !IsPyWhitespace(t[0]))
      && forall i :: 0 <= i < |s| - |t| ==> IsPyWhitespace(s[i])
    decreases |s|
  {
    if s != [] && IsPyWhitespace(s[0]) {
      StripLeftSpec(s[1..]);
      var t := StripLeft(s);
      assert t == StripLeft(s[1..]);
      forall i | 0 <= i < |s| - |t| ensures IsPyWhitespace(s[i]) {
        if i > 0 { assert s[i] == s[1..][i - 1]; }
      }
    }
  }

  /** `str.rstrip()`: what is left is a prefix of s that does not end
      with white space, and everything after it is white space. */
  lemma {:induction false} StripRightSpec(s: string)
    ensures var t := StripRight(s);
      && t == s[..|t|]
      && (t == [] || !IsPyWhitespace(t[|t| - 1]))
      && forall i :: |t| <= i < |s| ==> IsPyWhitespace(s[i])
    decreases |s|
  {
    if s != [] && IsPyWhitespace(s[|s| - 1]) {
      StripRightSpec(s[..|s| - 1]);
      var t := StripRight(s);
      assert t == StripRight(s[..|s| - 1]);
      forall i | |t| <= i < |s| ensures IsPyWhitespace(s[i]) {
        if i < |s| - 1 { assert s[i] == s[..|s| - 1][i]; }
      }
    }
  }

  /** The digit part of an integer literal as `int()` accepts it: digits
      with single underscores between them. */
  predicate ValidBody(s: string, base: nat)
  {
    && 1 <= |s|
    && IsDigit(s[0], base) && IsDigit(s[|s| - 1], base)
    && (forall i :: 0 <= i < |s| ==> IsDigit(s[i], base) || s[i] == '_')
    && (forall i :: 0 <= i < |s| - 1 ==> !(s[i] == '_' && s[i + 1] == '_'))
  }

  function DropUnderscores(s: string): (t: string)
    ensures |t| <= |s|
  {
    if s == [] then []
    else (if s[0] == '_' then [] else [s[0]]) + DropUnderscores(s[1..])
  }

  /** Dropping the underscores leaves none and keeps every other character;
      a text without underscores is unchanged. */
  lemma {:induction false} DropUnderscoresSpec(s: string)
    ensures '_' !in DropUnderscores(s)
    ensures forall c :: c != '_' ==> (c in DropUnderscores(s) <==> c in s)
    ensures '_' !in s ==> DropUnderscores(s) == s
    decreases |s|
  {
    if s != [] {
      DropUnderscoresSpec(s[1..]);
      assert s == [s[0]] + s[1..];
    }
  }

  lemma {:induction false} DropUnderscoresDigits(s: string, base: nat)
    requires forall i :: 0 <= i < |s| ==> IsDigit(s[i], base) || s[i] == '_'
    ensures AllDigits(DropUnderscores(s), base)
  {
    if s != [] { DropUnderscoresDigits(s[1..], base); }
  }

  lemma {:induction false} DropUnderscoresNone(s: string, base: nat)
    requires AllDigits(s, base)
    ensures DropUnderscores(s) == s
  {
    if s != [] { DropUnderscoresNone(s[1..], base); }
  }

  /** Python's `int(s, base)` for base 10 and 16 over ASCII digits: strips
      white space, takes an optional sign and, in base 16, an optional
      `0x`/`0X` prefix; None where Python raises ValueError. */
  function PyInt(s: string, base: nat): (r: Option<int>)
    requires base == 10 || base == 16
  {
    var t := StripRight(StripLeft(s));
    var negative := |t| > 0 && t[0] == '-';
    var u := if |t| > 0 && (t[0] == '-' || t[0] == '+') then t[1..] else t;
    match BodyValue(DropPrefix(u, base), base)
    case None => None
    case Some(v) => Some(if negative then -v else v)
  }

  /** In base 16, `int()` skips a `0x`/`0X` prefix and one underscore after it. */
  function DropPrefix(u: string, base: nat): (b: string)
  {
    if base == 16 && |u| >= 2 && u[0] == '0' && (u[1] == 'x' || u[1] == 'X') then
      (if |u| > 2 && u[2] == '_' then u[3..] else u[2..])
    else u
  }

  function BodyValue(body: string, base: nat): (r: Option<int>)
    requires 2 <= base <= 16
    ensures r.Some? ==> r.value >= 0
  {
    if ValidBody(body, base) then
      DropUnderscoresDigits(body, base);
      Some(DigitsValue(DropUnderscores(body), base))
    else None
  }

  /** A plain digit string reads back as its value. */
  lemma PlainDigits(s: string, base: nat)
    requires base == 10 || base == 16
    requires 1 <= |s| && AllDigits(s, base)
    ensures DropPrefix(s, base) == s
    ensures BodyValue(s, base) == Some(DigitsValue(s, base))
  {
    if |s| >= 2 { assert IsDigit(s[1], base); }
    DropUnderscoresNone(s, base);
  }

  lemma NoWhitespaceStrip(s: string, base: nat)
    requires 1 <= |s| && (IsDigit(s[0], base) || s[0] == '-') && IsDigit(s[|s| - 1], base)
    requires base <= 16
    ensures StripRight(StripLeft(s)) == s
  {
  }

  /** `int(str(n))` gives back n for every integer. */
  lemma DecimalRoundTrip(n: int)
    ensures PyInt(DecimalString(n), 10) == Some(n)
  {
    var m: nat := if n < 0 then -n else n;
    var d := NatToDigits(m, 10);
    DigitsRoundTrip(m, 10);
    PlainDigits(d, 10);
    if n < 0 {
      SignedDigits(d, n);
      var r := PyInt(DecimalString(n), 10);
      assert r == Some(r.value);
    } else {
      UnsignedDigits(d);
    }
  }

  /** A digit string reads back through `int()` as its value. */
  lemma UnsignedDigits(d: string)
    requires 1 <= |d| && AllDigits(d, 10) && DropPrefix(d, 10) == d
    requires BodyValue(d, 10) == Some(DigitsValue(d, 10))
    ensures PyInt(d, 10) == Some(DigitsValue(d, 10))
  {
    NoWhitespaceStrip(d, 10);
    var t := StripRight(StripLeft(d));
    assert t == d && IsDigit(t[0], 10);
    assert t[0] != '-' && t[0] != '+';
    assert BodyValue(DropPrefix(t, 10), 10) == Some(DigitsValue(d, 10));
  }

  /** A digit string after a minus sign reads back as minus its value. */
  lemma SignedDigits(d: string, n: int)
    requires 1 <= |d| && AllDigits(d, 10) && DropPrefix(d, 10) == d
    requires BodyValue(d, 10) == Some(DigitsValue(d, 10)) && DigitsValue(d, 10) == -n
    ensures PyInt("-" + d, 10).Some? && PyInt("-" + d, 10).value == n
  {
    var s := "-" + d;
    assert s[0] == '-' && s[1..] == d && s[|s| - 1] == d[|d| - 1];
    NoWhitespaceStrip(s, 10);
    NegativeLiteral(s, d, DigitsValue(d, 10));
  }

  /** Reading a literal that needs no stripping and starts with a minus sign. */
  lemma NegativeLiteral(s: string, d: string, v: int)
    requires StripRight(StripLeft(s)) == s && 1 <= |s| && s[0] == '-' && s[1..] == d
    requires BodyValue(DropPrefix(d, 10), 10) == Some(v)
    ensures PyInt(s, 10).Some? && PyInt(s, 10).value == -v
  {
    var t := StripRight(StripLeft(s));
    assert t[0] == '-' && t[1..] == d;
  }

  lemma PaddedHexDigits(n: nat, width: nat)
    ensures 1 <= |ZeroPaddedHex(n, width)|
    ensures AllDigits(ZeroPaddedHex(n, width), 16)
    ensures DigitsValue(ZeroPaddedHex(n, width), 16) == n
  {
    var h := HexString(n);
    DigitsRoundTrip(n, 16);
    if |h| < width {
      LeadingZeros(width - |h|, h, 16);
    }
  }

  /** `int("{:0Nx}".format(n), 16)` gives back n for every n >= 0. */
  lemma PaddedHexRoundTrip(n: nat, width: nat)
    ensures PyInt(ZeroPaddedHex(n, width), 16) == Some(n)
  {
    var s := ZeroPaddedHex(n, width);
    PaddedHexDigits(n, width);
    PlainDigits(s, 16);
    NoWhitespaceStrip(s, 16);
    assert s[0] != '-' && s[0] != '+' by { assert IsDigit(s[0], 16); }
  }

  /** "{:096x}" gives exactly as many characters as it is asked for once the
      value fits, and never fewer. */
  lemma PaddedHexLength(n: nat, width: nat)
    requires 1 <= width && n < Pow(16, width)
    ensures |ZeroPaddedHex(n, width)| == width
  {
    DigitsLength(n, 16, width);
  }
}
