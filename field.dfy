/** `Field` and `FieldElement` of libtls13/script/generate-ec-test-data.py
    (lines 10-181): integers reduced modulo p, and elements that remember the
    field they belong to. */
module PrimeField {
  import opened Results
  import opened Modular
  import Numerals

  /** The moduli fields are built over. Every field the script builds is a
      prime field; a modulus below 2 is not modelled. */
  type Modulus = p: int | p >= 2 witness 2

  /** A dataclass: two fields are equal when their moduli are. */
  datatype Field = Field(p: Modulus)

  // ---------------------------------------------------------------------
  // `Field`, on plain integers.

  /** `to_element`: the representative of x in [0, p). */
  function ToElement(F: Field, x: int): (r: int)
    ensures 0 <= r < F.p && Divides(F.p, x - r)
  {
    Representative(x, F.p, 0);
    x % F.p
  }

  function Add(F: Field, x: int, y: int): (r: int)
    ensures 0 <= r < F.p && Divides(F.p, x + y - r)
  {
    ToElement(F, x + y)
  }

  function Mul(F: Field, x: int, y: int): (r: int)
    ensures 0 <= r < F.p && Divides(F.p, x * y - r)
  {
    ToElement(F, x * y)
  }

  function Neg(F: Field, x: int): (r: int)
    ensures 0 <= r < F.p && Divides(F.p, -x - r)
  {
    ToElement(F, -x)
  }

  /** `pow(x, y, p)` for y >= 0. */
  function Pow(F: Field, x: int, y: nat): (r: int)
    ensures 0 <= r < F.p && Divides(F.p, Numerals.Pow(x, y) - r)
  {
    ToElement(F, Numerals.Pow(x, y))
  }

  /** `pow(x, -1, p)`; None where Python raises ValueError. */
  function Inv(F: Field, x: int): (r: Option<int>)
    ensures r.Some? ==> 0 <= r.value < F.p && Mul(F, x, r.value) == 1
  {
    ModInverse(x, F.p)
  }

  /** `legendre`: x to the power (p - 1) / 2; the script asserts p is odd. */
  function Legendre(F: Field, x: int): (r: int)
    requires F.p % 2 == 1
    ensures 0 <= r < F.p && Divides(F.p, Numerals.Pow(x, (F.p - 1) / 2) - r)
  {
    Pow(F, x, (F.p - 1) / 2)
  }

  /** Adding the negation gives 0, and negating twice gives the element. */
  lemma NegSpec(F: Field, x: int)
    requires 0 <= x < F.p
    ensures Add(F, x, Neg(F, x)) == 0
    ensures Neg(F, Neg(F, x)) == x
  {
    if x == 0 {
      ModUnique(0, F.p, 0, 0);
    } else {
      ModUnique(-x, F.p, -1, F.p - x);
      ModUnique(F.p, F.p, 1, 0);
      ModUnique(x - F.p, F.p, -1, x);
    }
  }

  /** The inverse Python returns is the one in [0, p) and exists exactly for
      the non-zero elements of a prime field. */
  lemma InvSpec(F: Field, x: int, y: int)
    ensures 0 <= y < F.p && Mul(F, x, y) == 1 ==> Inv(F, x) == Some(y)
    ensures IsPrime(F.p) ==> (Inv(F, x).Some? <==> ToElement(F, x) != 0)
  {
    if 0 <= y < F.p && Mul(F, x, y) == 1 {
      InverseUnique(x, F.p, y);
    }
    if IsPrime(F.p) {
      PrimeInverse(x, F.p);
    }
  }
}
