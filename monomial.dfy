/** `Monomial` and `format_exp` of libtls13/script/evaluate-chain.py (lines
    163-220). A monomial is the dict `vars` from variable to exponent; as
    Python dicts keep insertion order, it is an association list with
    distinct keys, in the order the keys were first inserted. */
module Monomials {
  import opened Results
  import Numerals

  type Mono = seq<(string, int)>

  /** The keys of a dict, in insertion order (for `env` as well). */
  function Keys<V>(m: seq<(string, V)>): (ks: seq<string>)
    ensures |ks| == |m| && forall i :: 0 <= i < |m| ==> ks[i] == m[i].0
  {
    seq(|m|, i requires 0 <= i < |m| => m[i].0)
  }

  /** What every dict satisfies: no key twice. */
  predicate Distinct(m: Mono)
  {
    forall i, j :: 0 <= i < j < |m| ==> m[i].0 != m[j].0
  }

  /** The position of `v` in the dict, if it is a key. */
  function Find(m: Mono, v: string): (r: Option<nat>)
    ensures r.Some? ==> r.value < |m| && m[r.value].0 == v
    ensures r.None? <==> v !in Keys(m)
    decreases |m|
  {
    if m == [] then None
    else if m[0].0 == v then Some(0)
    else
      match Find(m[1..], v)
      case None => None
      case Some(i) => Some(i + 1)
  }

  /** The exponent of `v`, zero when `v` is not a key. */
  function Exp(m: Mono, v: string): int
  {
    match Find(m, v)
    case None => 0
    case Some(i) => m[i].1
  }

  /** `self.vars[var] = self.vars.setdefault(var, 0) + exp`: a new key is
      inserted last with value 0 and the value at its position is then
      increased; an existing key keeps its position. */
  function Bump(m: Mono, v: string, e: int): Mono
  {
    match Find(m, v)
    case None => m + [(v, e)]
    case Some(i) => m[i := (v, m[i].1 + e)]
  }

  /** The dict after `for var, exp in t.items(): result.mul(var, exp * k)`. */
  function Absorb(acc: Mono, t: Mono, k: int): Mono
    decreases |t|
  {
    if t == [] then acc
    else Bump(Absorb(acc, t[..|t| - 1], k), t[|t| - 1].0, t[|t| - 1].1 * k)
  }

  /** `self * other`. */
  function Product(a: Mono, b: Mono): Mono
  {
    Absorb(Absorb([], a, 1), b, 1)
  }

  /** `self / other`: every exponent of `other` enters as `-exp`. */
  function Quotient(a: Mono, b: Mono): Mono
  {
    Absorb(Absorb([], a, 1), b, -1)
  }

  /** `self ** n`. */
  function Power(m: Mono, n: int): Mono
  {
    Absorb([], m, n)
  }

  /** `Monomial(name)`: `{name: 1}` when the name is truthy, so neither
      `None` nor "" gives a variable. */
  function Initial(name: Option<string>): Mono
  {
    if name.Some? && name.value != "" then [(name.value, 1)] else []
  }

  /** The keys of `ks` that are not in `excl`, in order. */
  function Filter(ks: seq<string>, excl: seq<string>): (r: seq<string>)
    ensures forall v :: v in r ==> v in ks && v !in excl
    ensures forall i :: 0 <= i < |ks| && ks[i] !in excl ==> ks[i] in r
    decreases |ks|
  {
    if ks == [] then []
    else
      var p := ks[..|ks| - 1];
      var last := ks[|ks| - 1];
      assert ks == p + [last];
      Filter(p, excl) + (if last in excl then [] else [last])
  }

  /** Filtering keeps the order: it distributes over concatenation. */
  lemma {:induction false} FilterAppend(a: seq<string>, b: seq<string>, excl: seq<string>)
    ensures Filter(a + b, excl) == Filter(a, excl) + Filter(b, excl)
    decreases |b|
  {
    if b == [] {
      assert a + b == a;
    } else {
      var p := b[..|b| - 1];
      var last := b[|b| - 1];
      assert (a + b)[..|a + b| - 1] == a + p;
      assert (a + b)[|a + b| - 1] == last;
      FilterAppend(a, p, excl);
    }
  }

  // ---------------------------------------------------------------------
  // The dict operations.

  lemma FindDistinct(m: Mono, i: nat)
    requires Distinct(m) && i < |m|
    ensures Find(m, m[i].0) == Some(i)
  {
    var r := Find(m, m[i].0);
    assert r.Some? by { assert Keys(m)[i] == m[i].0; }
  }

  lemma KeysSnoc(m: Mono, x: (string, int))
    ensures Keys(m + [x]) == Keys(m) + [x.0]
  {
  }

  /** One `mul` either keeps the keys or adds the new key at the end, and
      a dict stays a dict. */
  lemma BumpKeys(m: Mono, v: string, e: int)
    ensures Keys(Bump(m, v, e)) == if v in Keys(m) then Keys(m) else Keys(m) + [v]
    ensures Distinct(m) ==> Distinct(Bump(m, v, e))
  {
    match Find(m, v)
    case None =>
      KeysSnoc(m, (v, e));
    case Some(i) =>
      assert Keys(m)[i] == v;
  }

  /** One `mul` adds `e` to the exponent of `v` and to no other. */
  lemma BumpExp(m: Mono, v: string, e: int, w: string)
    requires Distinct(m)
    ensures Exp(Bump(m, v, e), w) == Exp(m, w) + if w == v then e else 0
  {
    var b := Bump(m, v, e);
    BumpKeys(m, v, e);
    if Find(m, v).None? {
      if Find(m, w).Some? {
        var j := Find(m, w).value;
        FindDistinct(m, j);
        FindDistinct(b, j);
      } else if w == v {
        FindDistinct(b, |m|);
      } else {
        assert w !in Keys(b);
      }
    } else {
      var i := Find(m, v).value;
      FindDistinct(m, i);
      FindDistinct(b, i);
      if Find(m, w).Some? {
        var j := Find(m, w).value;
        FindDistinct(m, j);
        FindDistinct(b, j);
      } else {
        assert w !in Keys(b);
      }
    }
  }

  lemma ExpAbsent(m: Mono, w: string)
    requires w !in Keys(m)
    ensures Exp(m, w) == 0
  {
  }

  /** Absorbing one more item of `t` bumps its key by its scaled exponent. */
  lemma AbsorbSnoc(acc: Mono, t: Mono, j: int, k: int)
    requires 0 <= j < |t|
    ensures Absorb(acc, t[..j + 1], k) == Bump(Absorb(acc, t[..j], k), t[j].0, t[j].1 * k)
  {
    assert t[..j + 1][..j] == t[..j];
  }

  /** The keys after absorbing `t`: those of `acc`, then the keys of `t`
      that were new, in `t`'s order. */
  lemma {:induction false} AbsorbKeys(acc: Mono, t: Mono, k: int)
    requires Distinct(t)
    ensures Keys(Absorb(acc, t, k)) == Keys(acc) + Filter(Keys(t), Keys(acc))
    ensures Distinct(acc) ==> Distinct(Absorb(acc, t, k))
    decreases |t|
  {
    if t != [] {
      var p := t[..|t| - 1];
      var x := t[|t| - 1];
      DistinctLast(t);
      AbsorbKeys(acc, p, k);
      var a := Absorb(acc, p, k);
      assert Absorb(acc, t, k) == Bump(a, x.0, x.1 * k);
      BumpKeys(a, x.0, x.1 * k);
      KeysLast(t);
      assert Keys(t)[..|t| - 1] == Keys(p);
      var f := Filter(Keys(p), Keys(acc));
      assert Filter(Keys(t), Keys(acc)) == f + (if x.0 in Keys(acc) then [] else [x.0]);
      assert x.0 !in f;
      assert x.0 in Keys(a) <==> x.0 in Keys(acc);
    }
  }

  lemma KeysLast(t: Mono)
    requires t != []
    ensures Keys(t) == Keys(t[..|t| - 1]) + [t[|t| - 1].0]
  {
    assert t == t[..|t| - 1] + [t[|t| - 1]];
    KeysSnoc(t[..|t| - 1], t[|t| - 1]);
  }

  /** In a dict, the last key is not among the earlier ones, and the
      earlier items form a dict. */
  lemma DistinctLast(t: Mono)
    requires Distinct(t) && t != []
    ensures Distinct(t[..|t| - 1]) && t[|t| - 1].0 !in Keys(t[..|t| - 1])
  {
    var p := t[..|t| - 1];
    forall i, j | 0 <= i < j < |p| ensures p[i].0 != p[j].0 {
      assert p[i] == t[i] && p[j] == t[j];
    }
  }

  /** Absorbing `t` scaled by `k` adds `k` times each of its exponents. */
  lemma {:induction false} AbsorbExp(acc: Mono, t: Mono, k: int, w: string)
    requires Distinct(acc) && Distinct(t)
    ensures Exp(Absorb(acc, t, k), w) == Exp(acc, w) + k * Exp(t, w)
    decreases |t|
  {
    if t != [] {
      var p := t[..|t| - 1];
      var x := t[|t| - 1];
      DistinctLast(t);
      AbsorbExp(acc, p, k, w);
      AbsorbKeys(acc, p, k);
      var a := Absorb(acc, p, k);
      assert Absorb(acc, t, k) == Bump(a, x.0, x.1 * k);
      BumpExp(a, x.0, x.1 * k, w);
      ExpLast(t, w);
      ScaleSum(Exp(Absorb(acc, t, k), w), Exp(acc, w), Exp(a, w), Exp(p, w), Exp(t, w), k, x.1, w == x.0);
    }
  }

  /** The exponent in a dict, split at its last item. */
  lemma ExpLast(t: Mono, w: string)
    requires Distinct(t) && t != []
    ensures Exp(t, w) == Exp(t[..|t| - 1], w) + if w == t[|t| - 1].0 then t[|t| - 1].1 else 0
  {
    assert t == t[..|t| - 1] + [t[|t| - 1]];
    ExpSnoc(t[..|t| - 1], t[|t| - 1], w);
  }

  lemma ScaleSum(lhs: int, base: int, mid: int, a: int, t: int, k: int, b: int, c: bool)
    requires lhs == mid + (if c then b * k else 0)
    requires mid == base + k * a
    requires t == a + (if c then b else 0)
    ensures lhs == base + k * t
  {
    if c {
      assert k * (a + b) == k * a + b * k;
    }
  }

  /** The exponent in a dict whose last key was inserted last. */
  lemma ExpSnoc(p: Mono, x: (string, int), w: string)
    requires Distinct(p + [x])
    ensures Exp(p + [x], w) == Exp(p, w) + if w == x.0 then x.1 else 0
  {
    var t := p + [x];
    assert t[..|t| - 1] == p;
    DistinctLast(t);
    if w == x.0 {
      FindDistinct(t, |p|);
    } else if Find(p, w).Some? {
      var j := Find(p, w).value;
      FindDistinct(p, j);
      FindDistinct(t, j);
    } else {
      assert w !in Keys(t);
    }
  }

  /** Copying a dict item by item into an empty one gives the same dict. */
  lemma {:induction false} CopyIsSame(a: Mono)
    requires Distinct(a)
    ensures Absorb([], a, 1) == a
    decreases |a|
  {
    if a != [] {
      var p := a[..|a| - 1];
      var x := a[|a| - 1];
      DistinctLast(a);
      CopyIsSame(p);
      assert Bump(p, x.0, x.1 * 1) == p + [(x.0, x.1)];
      assert p + [x] == a;
    }
  }

  // ---------------------------------------------------------------------
  // The arithmetic.

  /** The product sums the exponents of every variable, and its keys are
      those of the left operand followed by the new keys of the right one. */
  lemma ProductSpec(a: Mono, b: Mono, w: string)
    requires Distinct(a) && Distinct(b)
    ensures Distinct(Product(a, b))
    ensures Keys(Product(a, b)) == Keys(a) + Filter(Keys(b), Keys(a))
    ensures Exp(Product(a, b), w) == Exp(a, w) + Exp(b, w)
  {
    CopyIsSame(a);
    AbsorbKeys(a, b, 1);
    AbsorbExp(a, b, 1, w);
  }

  /** The quotient subtracts the exponents and has the keys of the product. */
  lemma QuotientSpec(a: Mono, b: Mono, w: string)
    requires Distinct(a) && Distinct(b)
    ensures Distinct(Quotient(a, b))
    ensures Keys(Quotient(a, b)) == Keys(a) + Filter(Keys(b), Keys(a))
    ensures Exp(Quotient(a, b), w) == Exp(a, w) - Exp(b, w)
  {
    CopyIsSame(a);
    AbsorbKeys(a, b, -1);
    AbsorbExp(a, b, -1, w);
  }

  /** `(a * b) / b` has every exponent of `a`, and it keeps the keys that
      only `b` brought in, now with exponent 0. */
  lemma ProductThenQuotient(a: Mono, b: Mono, w: string)
    requires Distinct(a) && Distinct(b)
    ensures Exp(Quotient(Product(a, b), b), w) == Exp(a, w)
    ensures Keys(Quotient(Product(a, b), b)) == Keys(a) + Filter(Keys(b), Keys(a))
    ensures w in Keys(b) && w !in Keys(a) ==> w in Keys(Quotient(Product(a, b), b))
  {
    var p := Product(a, b);
    ProductSpec(a, b, w);
    QuotientSpec(p, b, w);
    forall v | v in Keys(b) ensures v in Keys(p) {
      if v !in Keys(a) {
        assert v in Filter(Keys(b), Keys(a));
      }
    }
    FilterAll(Keys(b), Keys(p));
    assert Keys(p) + Filter(Keys(b), Keys(p)) == Keys(p);
    if w in Keys(b) && w !in Keys(a) {
      assert w in Filter(Keys(b), Keys(a));
    }
  }

  /** Nothing of `ks` is new to a list that already holds all of it. */
  lemma {:induction false} FilterAll(ks: seq<string>, kp: seq<string>)
    requires forall v :: v in ks ==> v in kp
    ensures Filter(ks, kp) == []
    decreases |ks|
  {
    if ks != [] {
      FilterAll(ks[..|ks| - 1], kp);
    }
  }

  /** `** n` multiplies every exponent by n and keeps the keys in place. */
  lemma {:induction false} PowerSpec(m: Mono, n: int)
    requires Distinct(m)
    ensures Power(m, n) == seq(|m|, i requires 0 <= i < |m| => (m[i].0, m[i].1 * n))
    decreases |m|
  {
    if m != [] {
      var p := m[..|m| - 1];
      var x := m[|m| - 1];
      DistinctLast(m);
      PowerSpec(p, n);
      assert Keys(Power(p, n)) == Keys(p);
    }
  }

  /** `sq` and `repeated-sq` on one variable: `{x: e}` squared is
      `{x: 2e}`, and raised to 2^c it is `{x: e * 2^c}`. */
  lemma PowersOfOneVariable(x: string, e: int, c: nat)
    ensures Power([(x, e)], 2) == [(x, e * 2)]
    ensures Power([(x, e)], Numerals.Pow(2, c)) == [(x, e * Numerals.Pow(2, c))]
  {
    PowerSpec([(x, e)], 2);
    PowerSpec([(x, e)], Numerals.Pow(2, c));
  }

  // ---------------------------------------------------------------------
  // The object.

  /** A `Monomial`: its one field is the dict `vars`. The arithmetic
      builds a fresh result and updates it through `mul`; neither operand
      changes, since no method but `Mul` modifies anything. */
  class Monomial {
    var vars: Mono

    constructor (name: Option<string>)
      ensures vars == Initial(name)
    {
      vars := Initial(name);
    }

    /** `mul(var, exp)`. */
    method Mul(v: string, e: int)
      modifies this
      ensures vars == Bump(old(vars), v, e)
    {
      vars := Bump(vars, v, e);
    }

    /** `__mul__`. */
    method Times(other: Monomial) returns (result: Monomial)
      ensures fresh(result) && result.vars == Product(vars, other.vars)
    {
      result := new Monomial(None);
      var i := 0;
      while i < |vars|
        invariant i <= |vars|
        invariant result.vars == Absorb([], vars[..i], 1)
      {
        AbsorbSnoc([], vars, i, 1);
        result.Mul(vars[i].0, vars[i].1);
        i := i + 1;
      }
      assert vars[..i] == vars;
      var start := result.vars;
      var j := 0;
      while j < |other.vars|
        invariant j <= |other.vars|
        invariant result.vars == Absorb(start, other.vars[..j], 1)
      {
        AbsorbSnoc(start, other.vars, j, 1);
        result.Mul(other.vars[j].0, other.vars[j].1);
        j := j + 1;
      }
      assert other.vars[..j] == other.vars;
    }

    /** `__truediv__`. */
    method DividedBy(other: Monomial) returns (result: Monomial)
      ensures fresh(result) && result.vars == Quotient(vars, other.vars)
    {
      result := new Monomial(None);
      var i := 0;
      while i < |vars|
        invariant i <= |vars|
        invariant result.vars == Absorb([], vars[..i], 1)
      {
        AbsorbSnoc([], vars, i, 1);
        result.Mul(vars[i].0, vars[i].1);
        i := i + 1;
      }
      assert vars[..i] == vars;
      var start, t := result.vars, other.vars;
      var j := 0;
      while j < |t|
        invariant j <= |t|
        invariant result.vars == Absorb(start, t[..j], -1)
      {
        AbsorbSnoc(start, t, j, -1);
        var e := -t[j].1;
        assert e == t[j].1 * -1;
        result.Mul(t[j].0, e);
        j := j + 1;
      }
      assert t[..j] == t;
    }

    /** `__pow__`. */
    method Raised(n: int) returns (result: Monomial)
      ensures fresh(result) && result.vars == Power(vars, n)
    {
      result := new Monomial(None);
      var i := 0;
      while i < |vars|
        invariant i <= |vars|
        invariant result.vars == Absorb([], vars[..i], n)
      {
        AbsorbSnoc([], vars, i, n);
        result.Mul(vars[i].0, vars[i].1 * n);
        i := i + 1;
      }
      assert vars[..i] == vars;
    }
  }

  // ---------------------------------------------------------------------
  // Rendering.

  /** `format_exp(exp)`. */
  function FormatExp(e: int): string
  {
    if e == 1 then ""
    else if e < 1024 then "**" + Numerals.DecimalString(e)
    else "**0x" + Numerals.HexString(e)
  }

  /** Reading an exponent suffix back: none is 1, `**0x` is followed by
      hex digits, `**` by a decimal integer. */
  function ReadExp(s: string): Option<int>
  {
    if s == "" then Some(1)
    else if |s| >= 4 && s[..4] == "**0x" then Numerals.PyInt(s[4..], 16)
    else if |s| >= 2 && s[..2] == "**" then Numerals.PyInt(s[2..], 10)
    else None
  }

  predicate IsLowerHex(c: char)
  {
    '0' <= c <= '9' || 'a' <= c <= 'f'
  }

  /** The three forms: exponent 1 is the empty suffix, exponents below
      1024 (negative ones too) are `**` and a decimal integer, the rest
      `**0x` and lower-case hex digits; each reads back as the exponent. */
  lemma FormatExpForms(e: int)
    ensures e == 1 <==> FormatExp(e) == ""
    ensures e != 1 && e < 1024 ==> FormatExp(e)[..2] == "**" && FormatExp(e)[2..] == Numerals.DecimalString(e)
    ensures e >= 1024 ==> (|FormatExp(e)| > 4 && FormatExp(e)[..4] == "**0x"
      && forall i :: 4 <= i < |FormatExp(e)| ==> IsLowerHex(FormatExp(e)[i]))
    ensures ReadExp(FormatExp(e)) == Some(e)
  {
    if e >= 1024 {
      FormatHexForm(e);
    } else if e != 1 {
      FormatDecimalForm(e);
    }
  }

  lemma FormatHexForm(e: int)
    requires e >= 1024
    ensures |FormatExp(e)| > 4 && FormatExp(e)[..4] == "**0x"
    ensures forall i :: 4 <= i < |FormatExp(e)| ==> IsLowerHex(FormatExp(e)[i])
    ensures ReadExp(FormatExp(e)) == Some(e)
  {
    var s := FormatExp(e);
    var h := Numerals.HexString(e);
    assert s == "**0x" + h;
    assert s[4..] == h;
    HexIsLower(e);
    forall i | 4 <= i < |s| ensures IsLowerHex(s[i]) {
      assert s[i] == h[i - 4];
    }
    assert Numerals.ZeroPaddedHex(e, 0) == h;
    Numerals.PaddedHexRoundTrip(e, 0);
  }

  lemma FormatDecimalForm(e: int)
    requires e != 1 && e < 1024
    ensures FormatExp(e)[..2] == "**" && FormatExp(e)[2..] == Numerals.DecimalString(e)
    ensures ReadExp(FormatExp(e)) == Some(e)
  {
    var s := FormatExp(e);
    var d := Numerals.DecimalString(e);
    assert s == "**" + d;
    assert s[2..] == d;
    Numerals.DecimalRoundTrip(e);
    assert !(|s| >= 4 && s[..4] == "**0x") by {
      if |s| >= 4 {
        assert s[3] == d[1];
      }
    }
  }

  /** `format(n, "x")` writes lower-case digits only. */
  lemma {:induction false} HexIsLower(n: nat)
    ensures forall i :: 0 <= i < |Numerals.HexString(n)| ==> IsLowerHex(Numerals.HexString(n)[i])
    decreases n
  {
    if n >= 16 {
      Numerals.DivStep(n, 16);
      HexIsLower(n / 16);
      assert Numerals.HexString(n) == Numerals.HexString(n / 16) + [Numerals.DigitChar(n % 16)];
    }
  }

  /** `"{}{}".format(var, format_exp(exp))`. */
  function Term(x: (string, int)): string
  {
    x.0 + FormatExp(x.1)
  }

  /** The terms joined by " * ". */
  function JoinTerms(m: Mono): string
    requires m != []
    decreases |m|
  {
    if |m| == 1 then Term(m[0]) else Term(m[0]) + " * " + JoinTerms(m[1..])
  }

  /** `__str__`. */
  function Render(m: Mono): string
  {
    if m == [] then "1" else JoinTerms(m)
  }

  /** Terms come out in key order: one more key puts its term last. */
  lemma {:induction false} RenderSnoc(m: Mono, x: (string, int))
    requires m != []
    ensures Render(m + [x]) == Render(m) + " * " + Term(x)
    decreases |m|
  {
    if |m| == 1 {
      assert (m + [x])[0] == m[0] && (m + [x])[1..] == [x];
      assert JoinTerms([x]) == Term(x) && JoinTerms(m) == Term(m[0]);
    } else {
      assert (m + [x])[0] == m[0] && (m + [x])[1..] == m[1..] + [x];
      RenderSnoc(m[1..], x);
    }
  }

  /** The empty monomial is "1", a single variable to the first power its
      name, and an exponent of zero stays visible as `**0`. */
  lemma RenderForms(x: string, e: int)
    ensures Render([]) == "1"
    ensures Render([(x, 1)]) == x
    ensures Render([(x, 0)]) == x + "**0"
  {
    assert Numerals.DecimalString(0) == "0";
  }
}
