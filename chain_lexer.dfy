/** The token scanner of `parse_lua` (libtls13/script/evaluate-chain.py,
    lines 6-13 and 17-20): at each position the first of its rules that
    matches wins, comments and white space are dropped, and the first
    position no rule matches ends the scan with an error. */
module ChainLexer {
  import opened Results
  import opened ChainIR
  import Numerals

  predicate IsAsciiDigit(c: char) { '0' <= c <= '9' }

  predicate IsIdentStart(c: char) { 'a' <= c <= 'z' || 'A' <= c <= 'Z' || c == '_' }

  predicate IsIdentChar(c: char) { IsIdentStart(c) || IsAsciiDigit(c) }

  predicate IsPunct(c: char) { c == '=' || c == ',' || c == '(' || c == ')' }

  function DigitRun(s: string): (n: nat)
    ensures n <= |s|
    ensures forall i :: 0 <= i < n ==> IsAsciiDigit(s[i])
    ensures n < |s| ==> !IsAsciiDigit(s[n])
  {
    if s != [] && IsAsciiDigit(s[0]) then 1 + DigitRun(s[1..]) else 0
  }

  function IdentRun(s: string): (n: nat)
    ensures n <= |s|
    ensures forall i :: 0 <= i < n ==> IsIdentChar(s[i])
    ensures n < |s| ==> !IsIdentChar(s[n])
  {
    if s != [] && IsIdentChar(s[0]) then 1 + IdentRun(s[1..]) else 0
  }

  function SpaceRun(s: string): (n: nat)
    ensures n <= |s|
    ensures forall i :: 0 <= i < n ==> Numerals.IsPyWhitespace(s[i])
    ensures n < |s| ==> !Numerals.IsPyWhitespace(s[n])
  {
    if s != [] && Numerals.IsPyWhitespace(s[0]) then 1 + SpaceRun(s[1..]) else 0
  }

  function EqualsRun(s: string): (n: nat)
    ensures n <= |s|
    ensures forall i :: 0 <= i < n ==> s[i] == '='
    ensures n < |s| ==> s[n] != '='
  {
    if s != [] && s[0] == '=' then 1 + EqualsRun(s[1..]) else 0
  }

  /** `]`, k equals signs, `]`. */
  predicate IsCloser(t: string, k: nat)
  {
    |t| == k + 2 && t[0] == ']' && t[k + 1] == ']' && forall i :: 1 <= i <= k ==> t[i] == '='
  }

  /** A closing bracket of level k ends just before position e. */
  predicate ClosesAt(s: string, e: nat, k: nat)
  {
    k + 2 <= e <= |s| && IsCloser(s[e - k - 2..e], k)
  }

  /** The largest end position e, from + k + 2 <= e <= hi, just after a
      closing bracket of level k: the greedy `(?:.|\n)*` keeps the last one. */
  function LastCloser(s: string, from: nat, k: nat, hi: nat): (r: Option<nat>)
    requires hi <= |s|
    ensures r.Some? ==> from + k + 2 <= r.value <= hi && ClosesAt(s, r.value, k)
    ensures r.Some? ==> forall e :: r.value < e <= hi ==> !ClosesAt(s, e, k)
    ensures r.None? ==> forall e :: from + k + 2 <= e <= hi ==> !ClosesAt(s, e, k)
    decreases hi
  {
    if hi < from + k + 2 then None
    else if ClosesAt(s, hi, k) then Some(hi)
    else LastCloser(s, from, k, hi - 1)
  }

  /** Where the long-comment rule `--[==[ ... ]==]` stops when it matches at
      the start of s. */
  function LongCommentEnd(s: string): (r: Option<nat>)
    ensures r.Some? ==> 6 <= r.value <= |s|
    ensures r.Some? ==> |s| >= 3 && s[0] == '-' && s[1] == '-' && s[2] == '['
    ensures r.Some? ==> var k := EqualsRun(s[3..]);
      3 + k < |s| && s[3 + k] == '[' && 6 + 2 * k <= r.value && ClosesAt(s, r.value, k)
  {
    if |s| >= 3 && s[0] == '-' && s[1] == '-' && s[2] == '[' then
      var k := EqualsRun(s[3..]);
      if 3 + k < |s| && s[3 + k] == '[' then LastCloser(s, 4 + k, k, |s|) else None
    else None
  }

  function FirstNewline(s: string, from: nat): (r: Option<nat>)
    ensures r.Some? ==> from <= r.value < |s| && s[r.value] == '\n'
    ensures r.Some? ==> forall i :: from <= i < r.value ==> s[i] != '\n'
    ensures r.None? ==> forall i :: from <= i < |s| ==> s[i] != '\n'
    decreases |s| - from
  {
    if from >= |s| then None
    else if s[from] == '\n' then Some(from)
    else FirstNewline(s, from + 1)
  }

  /** Where the short-comment rule `--[^\n]*\n` stops: it needs a newline. */
  function ShortCommentEnd(s: string): (r: Option<nat>)
    ensures r.Some? ==> 3 <= r.value <= |s|
    ensures r.Some? ==> s[0] == '-' && s[1] == '-' && s[r.value - 1] == '\n'
    ensures r.Some? ==> forall i :: 2 <= i < r.value - 1 ==> s[i] != '\n'
    ensures r.None? <==> !(|s| >= 2 && s[0] == '-' && s[1] == '-' && '\n' in s[2..])
  {
    if |s| >= 2 && s[0] == '-' && s[1] == '-' then
      match FirstNewline(s, 2)
      case Some(i) => Some(i + 1)
      case None => None
    else None
  }

  function Prepend(t: Token, r: Result<seq<Token>, ParseError>): Result<seq<Token>, ParseError>
  {
    match r
    case Ok(ts) => Ok([t] + ts)
    case Err(e) => Err(e)
  }

  function DecimalValue(s: string): nat
    requires forall i :: 0 <= i < |s| ==> IsAsciiDigit(s[i])
  {
    assert Numerals.AllDigits(s, 10) by {
      forall i | 0 <= i < |s| ensures Numerals.IsDigit(s[i], 10) {
        assert IsAsciiDigit(s[i]);
      }
    }
    Numerals.DigitsValue(s, 10)
  }

  /** `scanner.scan(code)` followed by the "unmatched" check of `parse_lua`. */
  function Tokenize(s: string): (r: Result<seq<Token>, ParseError>)
    decreases |s|
  {
    if s == [] then Ok([])
    else match LongCommentEnd(s)
      case Some(e) => Tokenize(s[e..])
      case None =>
        match ShortCommentEnd(s)
        case Some(e) => Tokenize(s[e..])
        case None =>
          if IsAsciiDigit(s[0]) then
            var n := DigitRun(s);
            Prepend(IntTok(DecimalValue(s[..n])), Tokenize(s[n..]))
          else if IsIdentStart(s[0]) then
            var n := IdentRun(s);
            Prepend(Ident(s[..n]), Tokenize(s[n..]))
          else if IsPunct(s[0]) then
            Prepend(Punct(s[0]), Tokenize(s[1..]))
          else if Numerals.IsPyWhitespace(s[0]) then
            Tokenize(s[SpaceRun(s)..])
          else Err(Unmatched(s))
  }

  // A reference rendering of tokens, to state what the scanner recognises.

  predicate WellFormed(t: Token)
  {
    match t
    case IntTok(_) => true
    case Ident(x) => |x| >= 1 && IsIdentStart(x[0]) && forall i :: 0 <= i < |x| ==> IsIdentChar(x[i])
    case Punct(c) => IsPunct(c)
  }

  function Show(t: Token): (s: string)
    ensures WellFormed(t) ==> |s| >= 1 && !Numerals.IsPyWhitespace(s[0]) && s[0] != '-'
  {
    match t
    case IntTok(n) => Numerals.NatToDigits(n, 10)
    case Ident(x) => x
    case Punct(c) => [c]
  }

  /** The tokens written out with one space after each. */
  function Untokenize(ts: seq<Token>): string
  {
    if ts == [] then "" else Show(ts[0]) + " " + Untokenize(ts[1..])
  }

  lemma DecimalDigitsValue(n: nat)
    ensures forall i :: 0 <= i < |Numerals.NatToDigits(n, 10)| ==> IsAsciiDigit(Numerals.NatToDigits(n, 10)[i])
    ensures DecimalValue(Numerals.NatToDigits(n, 10)) == n
  {
    var d := Numerals.NatToDigits(n, 10);
    forall i | 0 <= i < |d| ensures IsAsciiDigit(d[i]) {
      assert Numerals.IsDigit(d[i], 10);
    }
    Numerals.DigitsRoundTrip(n, 10);
  }

  /** One well-formed token followed by a space scans as that token. */
  lemma {:induction false} TokenizeOne(t: Token, r: string)
    requires WellFormed(t)
    requires r == [] || !Numerals.IsPyWhitespace(r[0])
    ensures Tokenize(Show(t) + " " + r) == Prepend(t, Tokenize(r))
  {
    var w := Show(t);
    var s := w + " " + r;
    assert s[0] == w[0];
    assert LongCommentEnd(s).None? && ShortCommentEnd(s).None?;
    var n := |w|;
    assert s[..n] == w && s[n] == ' ';
    assert s[n..] == " " + r;
    var rest := " " + r;
    assert SpaceRun(rest) == 1 by {
      assert rest[1..] == r;
    }
    assert rest[1..] == r;
    assert Tokenize(rest) == Tokenize(r) by {
      assert LongCommentEnd(rest).None? && ShortCommentEnd(rest).None?;
    }
    match t
    case IntTok(v) =>
      DecimalDigitsValue(v);
      assert DigitRun(s) == n by {
        assert forall i :: 0 <= i < n ==> IsAsciiDigit(s[i]);
        DigitRunExact(s, n);
      }
    case Ident(x) =>
      assert IdentRun(s) == n by {
        assert forall i :: 0 <= i < n ==> IsIdentChar(s[i]);
        IdentRunExact(s, n);
      }
    case Punct(c) =>
      assert s[1..] == rest;
  }

  lemma {:induction false} DigitRunExact(s: string, n: nat)
    requires n < |s| && (forall i :: 0 <= i < n ==> IsAsciiDigit(s[i])) && !IsAsciiDigit(s[n])
    ensures DigitRun(s) == n
  {
    if n > 0 { DigitRunExact(s[1..], n - 1); }
  }

  lemma {:induction false} IdentRunExact(s: string, n: nat)
    requires n < |s| && (forall i :: 0 <= i < n ==> IsIdentChar(s[i])) && !IsIdentChar(s[n])
    ensures IdentRun(s) == n
  {
    if n > 0 { IdentRunExact(s[1..], n - 1); }
  }

  /** Writing well-formed tokens out and scanning the text gives them back. */
  lemma {:induction false} TokenizeRoundTrip(ts: seq<Token>)
    requires forall i :: 0 <= i < |ts| ==> WellFormed(ts[i])
    ensures Tokenize(Untokenize(ts)) == Ok(ts)
  {
    if ts != [] {
      var r := Untokenize(ts[1..]);
      assert r == [] || !Numerals.IsPyWhitespace(r[0]) by {
        if ts[1..] != [] { assert WellFormed(ts[1..][0]); }
      }
      TokenizeOne(ts[0], r);
      TokenizeRoundTrip(ts[1..]);
      assert [ts[0]] + ts[1..] == ts;
    }
  }

  /** A character no rule matches, outside a comment, stops the scan with the
      rest of the text as the unmatched part. */
  lemma {:induction false} UnmatchedCharacter(ts: seq<Token>, c: char, rest: string)
    requires forall i :: 0 <= i < |ts| ==> WellFormed(ts[i])
    requires !IsIdentChar(c) && !IsPunct(c) && !Numerals.IsPyWhitespace(c) && c != '-'
    ensures Tokenize(Untokenize(ts) + [c] + rest) == Err(Unmatched([c] + rest))
  {
    if ts == [] {
      var s := [c] + rest;
      assert Untokenize(ts) + [c] + rest == s;
      assert s[0] == c;
      assert LongCommentEnd(s).None? && ShortCommentEnd(s).None?;
    } else {
      var r := Untokenize(ts[1..]) + [c] + rest;
      assert r != [] && !Numerals.IsPyWhitespace(r[0]) by {
        if ts[1..] != [] { assert WellFormed(ts[1..][0]); assert r[0] == Show(ts[1..][0])[0]; }
        else { assert r[0] == c; }
      }
      TokenizeOne(ts[0], r);
      assert Untokenize(ts) + [c] + rest == Show(ts[0]) + " " + r;
      UnmatchedCharacter(ts[1..], c, rest);
    }
  }
}
