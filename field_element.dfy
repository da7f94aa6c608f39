/** `FieldElement` of libtls13/script/generate-ec-test-data.py (lines
    92-181): a value together with its field. The constructor reduces the
    value; every operator first brings the other operand into this field
    with `to_field_element` (`_coerce`) and builds a new element. */
module FieldElements {
  import opened Results
  import opened Modular
  import opened PrimeField
  import Numerals

  datatype Elem = Elem(x: int, field: Field)

  /** What the constructor keeps: the value is reduced. */
  predicate Canonical(e: Elem)
  {
    0 <= e.x < e.field.p
  }

  /** `FieldElement(x, field)`. */
  function MakeElem(x: int, F: Field): (e: Elem)
    ensures Canonical(e) && e.field == F && Divides(F.p, x - e.x)
  {
    Elem(ToElement(F, x), F)
  }

  /** What `to_field_element` can be handed: an int, a `FieldElement`, or
      anything else (named by its type). */
  datatype Value = IntValue(n: int) | ElemValue(e: Elem) | OtherValue(typeName: string)

  /** TypeError from `to_field_element`; ValueError from `pow(x, -1, p)`. */
  datatype FieldError = TypeError(typeName: string) | NotInvertible(x: int)

  /** `to_field_element(x, field)`: an int is reduced, an element of the same
      field is returned as it is, an element of another field is reduced
      again, anything else raises TypeError. */
  function ToFieldElement(v: Value, F: Field): (r: Result<Elem, FieldError>)
    ensures r.Err? <==> v.OtherValue?
    ensures v.OtherValue? ==> r.error == TypeError(v.typeName)
    ensures r.Ok? ==> r.value.field == F
    ensures v.IntValue? ==> Canonical(r.value) && Divides(F.p, v.n - r.value.x)
    ensures v.ElemValue? ==> Divides(F.p, v.e.x - r.value.x)
    ensures v.ElemValue? && (v.e.field != F || Canonical(v.e)) ==> Canonical(r.value)
    ensures v.ElemValue? && v.e.field == F ==> r.value == v.e
  {
    match v
    case IntValue(n) => Ok(MakeElem(n, F))
    case ElemValue(e) =>
      if e.field == F then
        assert e.x - e.x == 0;
        Ok(e)
      else Ok(MakeElem(e.x, F))
    case OtherValue(t) => Err(TypeError(t))
  }

  /** Coercing an element already coerced gives it back. */
  lemma ToFieldElementIdempotent(v: Value, F: Field)
    requires !v.OtherValue? && (v.ElemValue? ==> Canonical(v.e))
    ensures ToFieldElement(ElemValue(ToFieldElement(v, F).value), F) == ToFieldElement(v, F)
  {
  }

  /** `self._coerce(other)` for an element operand. */
  function Coerce(self: Elem, other: Elem): (r: Elem)
    ensures r.field == self.field && Divides(self.field.p, other.x - r.x)
    ensures other.field != self.field || Canonical(other) ==> Canonical(r)
  {
    ToFieldElement(ElemValue(other), self.field).value
  }

  /** An int operand, as `_coerce` turns it into an element. */
  function Const(F: Field, n: int): (r: Elem)
    ensures Canonical(r) && r.field == F && Divides(F.p, n - r.x)
  {
    ToFieldElement(IntValue(n), F).value
  }

  // ---------------------------------------------------------------------
  // The operators. Each result is a fresh element of the left operand's
  // field, congruent to the integer operation on the two values.

  /** `__add__` (and `__radd__`). */
  function Plus(a: Elem, b: Elem): (r: Elem)
    ensures Canonical(r) && r.field == a.field && Divides(a.field.p, a.x + b.x - r.x)
  {
    var p := a.field.p;
    var o := Coerce(a, b);
    var s := Add(a.field, a.x, o.x);
    var r := MakeElem(s, a.field);
    DividesSum(p, b.x - o.x, a.x + o.x - s);
    DividesSum(p, (b.x - o.x) + (a.x + o.x - s), s - r.x);
    r
  }

  /** `__sub__`. */
  function Minus(a: Elem, b: Elem): (r: Elem)
    ensures Canonical(r) && r.field == a.field && Divides(a.field.p, a.x - b.x - r.x)
  {
    var F := a.field;
    var o := Coerce(a, b);
    var n := Neg(F, o.x);
    var s := Add(F, a.x, n);
    var r := MakeElem(s, F);
    DividesSum(F.p, a.x + n - s, s - r.x);
    DividesSum(F.p, (a.x + n - s) + (s - r.x), -o.x - n);
    DividesSum(F.p, (a.x + n - s) + (s - r.x) + (-o.x - n), b.x - o.x);
    r
  }

  /** `__mul__` (and `__rmul__`). */
  function Times(a: Elem, b: Elem): (r: Elem)
    ensures Canonical(r) && r.field == a.field && Divides(a.field.p, a.x * b.x - r.x)
  {
    var p := a.field.p;
    var o := Coerce(a, b);
    var s := Mul(a.field, a.x, o.x);
    var r := MakeElem(s, a.field);
    DividesScaled(p, b.x - o.x, a.x);
    DividesSum(p, (b.x - o.x) * a.x, a.x * o.x - s);
    DividesSum(p, (b.x - o.x) * a.x + (a.x * o.x - s), s - r.x);
    assert a.x * b.x - r.x == (b.x - o.x) * a.x + (a.x * o.x - s) + (s - r.x);
    r
  }

  /** `__truediv__`: multiplication by `pow(other, -1, p)`, which raises
      ValueError when the divisor has no inverse. */
  function Over(a: Elem, b: Elem): (r: Result<Elem, FieldError>)
    ensures r.Ok? ==> (Canonical(r.value) && r.value.field == a.field
      && Divides(a.field.p, r.value.x * b.x - a.x))
    ensures r.Err? ==> r.error == NotInvertible(Coerce(a, b).x) && Inv(a.field, Coerce(a, b).x).None?
  {
    var F := a.field;
    var o := Coerce(a, b);
    match Inv(F, o.x)
    case None => Err(NotInvertible(o.x))
    case Some(i) =>
      var s := Mul(F, a.x, i);
      var r := MakeElem(s, F);
      DividesSum(F.p, a.x * i - s, s - r.x);
      OverSpec(F.p, a.x, b.x, o.x, i, r.x);
      Ok(r)
  }

  /** r = a * i and i * o = 1, so r * b = a. */
  lemma OverSpec(p: int, a: int, b: int, o: int, i: int, r: int)
    requires p > 0 && Divides(p, b - o) && Divides(p, o * i - 1) && Divides(p, a * i - r)
    ensures Divides(p, r * b - a)
  {
    assert r * b - a == -((a * i - r) * b) + (b - o) * (a * i) + (o * i - 1) * a;
    DividesScaled(p, a * i - r, b);
    DividesScaled(p, b - o, a * i);
    DividesScaled(p, o * i - 1, a);
    DividesSum(p, (a * i - r) * b, 0) by { DividesZero(p); }
    DividesSum(p, (b - o) * (a * i), (a * i - r) * b);
    DividesSum(p, (b - o) * (a * i) - (a * i - r) * b, (o * i - 1) * a);
  }

  /** `__rsub__`: an int minus an element. */
  function RMinus(a: Elem, n: int): (r: Elem)
    ensures Canonical(r) && r.field == a.field && Divides(a.field.p, n - a.x - r.x)
  {
    var F := a.field;
    var o := Const(F, n);
    var m := Neg(F, a.x);
    var s := Add(F, o.x, m);
    var r := MakeElem(s, F);
    DividesSum(F.p, o.x + m - s, s - r.x);
    DividesSum(F.p, (o.x + m - s) + (s - r.x), -a.x - m);
    DividesSum(F.p, (o.x + m - s) + (s - r.x) + (-a.x - m), n - o.x);
    r
  }

  /** `__rtruediv__`: an int divided by an element. */
  function ROver(a: Elem, n: int): (r: Result<Elem, FieldError>)
    ensures r.Ok? ==> (Canonical(r.value) && r.value.field == a.field
      && Divides(a.field.p, r.value.x * a.x - n))
    ensures r.Err? ==> r.error == NotInvertible(a.x) && Inv(a.field, a.x).None?
  {
    var F := a.field;
    var o := Const(F, n);
    match Inv(F, a.x)
    case None => Err(NotInvertible(a.x))
    case Some(i) =>
      var s := Mul(F, o.x, i);
      var r := MakeElem(s, F);
      DividesSum(F.p, o.x * i - s, s - r.x);
      DividesZero(F.p);
      assert a.x - a.x == 0;
      OverSpec(F.p, o.x, a.x, a.x, i, r.x);
      DividesSum(F.p, r.x * a.x - o.x, n - o.x);
      Ok(r)
  }

  /** `__pow__` with a non-negative exponent. */
  function Power(a: Elem, n: nat): (r: Elem)
    ensures Canonical(r) && r.field == a.field && Divides(a.field.p, Numerals.Pow(a.x, n) - r.x)
  {
    var s := PrimeField.Pow(a.field, a.x, n);
    var r := MakeElem(s, a.field);
    DividesSum(a.field.p, Numerals.Pow(a.x, n) - s, s - r.x);
    r
  }

  /** `__neg__`. */
  function Negate(a: Elem): (r: Elem)
    ensures Canonical(r) && r.field == a.field && Divides(a.field.p, -a.x - r.x)
  {
    var s := Neg(a.field, a.x);
    var r := MakeElem(s, a.field);
    DividesSum(a.field.p, -a.x - s, s - r.x);
    r
  }

  /** `__eq__`: the values are compared once the other operand is coerced. */
  function Equal(a: Elem, b: Elem): bool
  {
    a.x == Coerce(a, b).x
  }

  /** Equality is congruence of the values. */
  lemma EqualSpec(a: Elem, b: Elem)
    requires Canonical(a) && (b.field != a.field || Canonical(b))
    ensures Equal(a, b) <==> Divides(a.field.p, a.x - b.x)
  {
    var p := a.field.p;
    var o := Coerce(a, b);
    if Divides(p, a.x - b.x) {
      DividesSum(p, a.x - b.x, b.x - o.x);
      SameResidue(p, a.x, o.x);
    } else if a.x == o.x {
      DividesSum(p, b.x - o.x, 0) by { DividesZero(p); }
    }
  }

  /** Two reduced elements of one field are equal when their values are
      congruent. */
  lemma SameElem(a: Elem, b: Elem)
    requires Canonical(a) && Canonical(b) && a.field == b.field
    requires Divides(a.field.p, a.x - b.x)
    ensures a == b
  {
    SameResidue(a.field.p, a.x, b.x);
  }

  // ---------------------------------------------------------------------
  // Laws of the operators on reduced elements of one field: they are the
  // laws of arithmetic mod p.

  lemma PlusLaws(a: Elem, b: Elem)
    requires Canonical(a) && Canonical(b) && a.field == b.field
    ensures Plus(a, b) == Plus(b, a)
    ensures Minus(Plus(a, b), b) == a
    ensures Plus(a, Negate(a)).x == 0
    ensures Negate(Negate(a)) == a
    ensures Minus(a, b) == Plus(a, Negate(b))
  {
    var p := a.field.p;
    var s, s' := Plus(a, b), Plus(b, a);
    DividesSum(p, a.x + b.x - s.x, b.x + a.x - s'.x);
    SameElem(s, s');
    var d := Minus(s, b);
    DividesSum(p, s.x - b.x - d.x, a.x + b.x - s.x);
    SameElem(a, d);
    var n := Negate(a);
    var z := Plus(a, n);
    DividesSum(p, a.x + n.x - z.x, -a.x - n.x);
    DividesSum(p, a.x + n.x - z.x + (-a.x - n.x), 0) by { DividesZero(p); }
    SameResidue(p, z.x, 0);
    var nn := Negate(n);
    DividesSum(p, -a.x - n.x, -n.x - nn.x);
    SameElem(nn, a);
    var nb := Negate(b);
    var mb, pn := Minus(a, b), Plus(a, nb);
    DividesSum(p, a.x + nb.x - pn.x, a.x - b.x - mb.x);
    DividesSum(p, a.x + nb.x - pn.x - (a.x - b.x - mb.x), -b.x - nb.x);
    SameElem(mb, pn);
  }

  /** The reflected operators are the plain ones with the int coerced
      first. */
  lemma ReflectedLaws(a: Elem, n: int)
    requires Canonical(a)
    ensures RMinus(a, n) == Minus(Const(a.field, n), a)
    ensures ROver(a, n) == Over(Const(a.field, n), a)
  {
    var F := a.field;
    var c := Const(F, n);
    var u, w := RMinus(a, n), Minus(c, a);
    DividesSum(F.p, n - a.x - u.x, c.x - a.x - w.x);
    DividesSum(F.p, (n - a.x - u.x) - (c.x - a.x - w.x), n - c.x);
    SameElem(u, w);
  }

  lemma TimesLaws(a: Elem, b: Elem)
    requires Canonical(a) && Canonical(b) && a.field == b.field
    ensures Times(a, b) == Times(b, a)
  {
    var t, t' := Times(a, b), Times(b, a);
    assert a.x * b.x == b.x * a.x;
    DividesSum(a.field.p, b.x * a.x - t'.x, a.x * b.x - t.x);
    SameElem(t, t');
  }

  /** Over a prime field, division fails exactly for a zero divisor, and
      dividing a product by a factor gives the other factor back. */
  lemma OverLaws(a: Elem, b: Elem)
    requires Canonical(a) && Canonical(b) && a.field == b.field && IsPrime(a.field.p)
    ensures Over(a, b).Ok? <==> b.x != 0
    ensures b.x != 0 ==> Over(Times(a, b), b) == Ok(a)
  {
    var F := a.field;
    InvSpec(F, b.x, 0);
    ModUnique(b.x, F.p, 0, b.x);
    if b.x != 0 {
      var t := Times(a, b);
      var r := Over(t, b).value;
      var i := Inv(F, b.x).value;
      CancelFactor(F.p, r.x, a.x, b.x, t.x, i);
      SameElem(r, a);
    }
  }

  /** If r*b and a*b are both congruent to t and b*i = 1, then r = a. */
  lemma CancelFactor(p: int, r: int, a: int, b: int, t: int, i: int)
    requires p > 0 && Divides(p, r * b - t) && Divides(p, a * b - t)
    requires Divides(p, b * i - 1)
    ensures Divides(p, r - a)
  {
    assert r - a == (r * b - t) * i - (a * b - t) * i - (b * i - 1) * (r - a);
    DividesScaled(p, r * b - t, i);
    DividesScaled(p, a * b - t, i);
    DividesScaled(p, b * i - 1, r - a);
    DividesSum(p, (r * b - t) * i, (a * b - t) * i);
    DividesSum(p, (r * b - t) * i - (a * b - t) * i, (b * i - 1) * (r - a));
  }
}
