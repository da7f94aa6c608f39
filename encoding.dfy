/** The text forms of field elements in
    libtls13/script/generate-ec-test-data.py: `from_hex` (lines 373-374),
    which reads the grouped hex constants, and the `"{:096x}"` format the
    JSON encoder writes every element in (line 577). */
module Encoding {
  import opened Results
  import opened Numerals
  import opened FieldElements
  import Modular

  /** The width of an encoded element: 96 digits, 384 bits. */
  const Width: nat := 96

  /** `s.replace(c, '')`. */
  function Remove(s: string, c: char): (t: string)
    ensures c !in t && |t| <= |s|
    ensures forall i :: 0 <= i < |t| ==> t[i] in s
  {
    if s == [] then []
    else (if s[0] == c then [] else [s[0]]) + Remove(s[1..], c)
  }

  /** `from_hex`: spaces and newlines dropped, then `int(·, 16)`; None
      where Python raises ValueError. */
  function FromHex(s: string): Option<int>
  {
    PyInt(Remove(Remove(s, ' '), '\n'), 16)
  }

  /** The encoder's `"{:096x}".format(int(o))`. */
  function Encode(e: Elem): string
    requires e.x >= 0
  {
    ZeroPaddedHex(e.x, Width)
  }

  /** Digits, or anything else without the character, are left alone. */
  lemma {:induction false} RemoveAbsent(s: string, c: char)
    requires c !in s
    ensures Remove(s, c) == s
  {
    if s != [] {
      RemoveAbsent(s[1..], c);
    }
  }

  /** Removing distributes over concatenation, so from_hex ignores where the
      blanks sit. */
  lemma {:induction false} RemoveAppend(s: string, t: string, c: char)
    ensures Remove(s + t, c) == Remove(s, c) + Remove(t, c)
  {
    if s == [] {
      assert s + t == t;
    } else {
      assert (s + t)[0] == s[0] && (s + t)[1..] == s[1..] + t;
      RemoveAppend(s[1..], t, c);
    }
  }

  /** A space or a newline anywhere in from_hex's argument changes nothing. */
  lemma BlanksIgnored(s: string, t: string)
    ensures FromHex(s + " " + t) == FromHex(s + t)
    ensures FromHex(s + "\n" + t) == FromHex(s + t)
  {
    RemoveAppend(s + " ", t, ' ');
    RemoveAppend(s, " ", ' ');
    RemoveAppend(s, t, ' ');
    assert Remove(" ", ' ') == [];
    assert Remove(s, ' ') + [] == Remove(s, ' ');
    var u, v := Remove(s, ' '), Remove(t, ' ');
    RemoveAppend(u + "\n", v, '\n');
    RemoveAppend(u, "\n", '\n');
    RemoveAppend(u, v, '\n');
    assert Remove("\n", '\n') == [];
    assert Remove(u, '\n') + [] == Remove(u, '\n');
    RemoveAppend(s + "\n", t, ' ');
    RemoveAppend(s, "\n", ' ');
    assert Remove("\n", ' ') == "\n";
  }

  /** The characters `"{:0Nx}"` writes: 0-9 and a-f. */
  predicate LowerHex(s: string)
  {
    forall i :: 0 <= i < |s| ==> '0' <= s[i] <= '9' || 'a' <= s[i] <= 'f'
  }

  lemma {:induction false} DigitsLower(n: nat)
    ensures LowerHex(NatToDigits(n, 16))
    decreases n
  {
    if n >= 16 {
      DivStep(n, 16);
      DigitsLower(n / 16);
    }
  }

  /** An element of a field below 16^96 is written as exactly 96 lower-case
      hex digits. */
  lemma EncodeSpec(e: Elem)
    requires Canonical(e) && e.field.p <= Pow(16, Width)
    ensures |Encode(e)| == Width && LowerHex(Encode(e))
  {
    PaddedHexLength(e.x, Width);
    DigitsLower(e.x);
    var h := HexString(e.x);
    if |h| < Width {
      var s := Zeros(Width - |h|) + h;
      assert forall i :: 0 <= i < |s| ==> s[i] == '0' || s[i] == h[i - (Width - |h|)];
    }
  }

  /** from_hex reads an encoding back as the element's value, and the
      element it builds is the one encoded. */
  lemma RoundTrip(e: Elem)
    requires Canonical(e)
    ensures FromHex(Encode(e)) == Some(e.x)
    ensures MakeElem(FromHex(Encode(e)).value, e.field) == e
  {
    NoBlanks(e.x);
    PaddedHexRoundTrip(e.x, Width);
    Modular.ModUnique(e.x, e.field.p, 0, e.x);
  }

  lemma NoBlanks(n: nat)
    ensures Remove(Remove(ZeroPaddedHex(n, Width), ' '), '\n') == ZeroPaddedHex(n, Width)
  {
    var s := ZeroPaddedHex(n, Width);
    PaddedHexDigits(n, Width);
    assert ' ' !in s && '\n' !in s by {
      assert forall i :: 0 <= i < |s| ==> IsDigit(s[i], 16);
    }
    RemoveAbsent(s, ' ');
    RemoveAbsent(s, '\n');
  }
}
