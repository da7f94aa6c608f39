/** The concrete curve of libtls13/script/generate-ec-test-data.py (lines
    376-404): secp384r1 (section 2.5.1 of SEC 2 version 2.0, also NIST
    P-384), y^2 = x^3 - 3x + b over the prime field of
    p = 2^384 - 2^128 - 2^96 + 2^32 - 1, with base point G and group order
    n. The constants are the script's hex strings written as literals. */
module Secp384r1 {
  import opened Results
  import opened Modular
  import Numerals
  import PrimeField
  import opened FieldElements
  import opened Curves
  import Encoding
  import SquareRoot

  const P: int := 0xffffffff_ffffffff_ffffffff_ffffffff_ffffffff_ffffffff_ffffffff_fffffffe_ffffffff_00000000_00000000_ffffffff
  const B: int := 0xb3312fa7_e23ee7e4_988e056b_e3f82d19_181d9c6e_fe814112_0314088f_5013875a_c656398d_8a2ed19d_2a85c8ed_d3ec2aef
  const Gx: int := 0xaa87ca22_be8b0537_8eb1c71e_f320ad74_6e1d3b62_8ba79b98_59f741e0_82542a38_5502f25d_bf55296c_3a545e38_72760ab7
  const Gy: int := 0x3617de4a_96262c6f_5d9e98bf_9292dc29_f8f41dbd_289a147c_e9da3113_b5f0b8c0_0a60b1ce_1d7e819d_7a431d7c_90ea0e5f
  const Order: int := 0xffffffff_ffffffff_ffffffff_ffffffff_ffffffff_ffffffff_c7634d81_f4372ddf_581a0db2_48b0a77a_ecec196a_ccc52973

  /** `secp384r1_field`. */
  const Field: PrimeField.Field := PrimeField.Field(P)

  /** `secp384r1`: a = -3, reduced into the field. */
  const Curve: Curves.Curve := Curves.Curve(Const(Field, -3), Const(Field, B), Field)

  /** `secp384r1_g`. */
  const G: Point := MakePoint(Const(Field, Gx), Const(Field, Gy), Curve, false)

  /** `secp384r1_scalars`, the field of scalars mod n. */
  const Scalars: PrimeField.Field := PrimeField.Field(Order)

  /** The modulus is the script's formula, and 16^96 = 2^384 bounds it. */
  lemma FieldFormula()
    ensures P == Numerals.Pow(2, 384) - Numerals.Pow(2, 128) - Numerals.Pow(2, 96) + Numerals.Pow(2, 32) - 1
    ensures Order < P < Numerals.Pow(16, Encoding.Width) == Numerals.Pow(2, 384)
  {
    var w := Numerals.Pow(2, 32);
    PowMul(2, 8, 4);
    assert Numerals.Pow(2, 8) == 256 by {
      assert Numerals.Pow(2, 2) == 4;
      assert Numerals.Pow(2, 4) == 16;
      assert Numerals.Pow(2, 6) == 64;
    }
    assert w == 0x1_0000_0000 by {
      assert Numerals.Pow(256, 2) == 0x1_0000;
      assert Numerals.Pow(256, 4) == 0x1_0000_0000;
    }
    PowMul(2, 32, 3);
    PowMul(2, 32, 4);
    PowMul(2, 32, 12);
    PowMul(2, 4, 96);
    assert Numerals.Pow(2, 4) == 16;
    assert Numerals.Pow(w, 3) == w * w * w by {
      assert Numerals.Pow(w, 1) == w;
      assert Numerals.Pow(w, 2) == w * w;
    }
    assert Numerals.Pow(w, 4) == w * w * w * w;
    assert Numerals.Pow(w, 12) == Numerals.Pow(w, 4) * Numerals.Pow(w, 4) * Numerals.Pow(w, 4) by {
      PowAdd(w, 4, 8);
      PowAdd(w, 4, 4);
    }
  }

  /** The curve is the one `Curve(-3, b, field)` builds, with a = p - 3. */
  lemma CurveSpec()
    ensures MakeCurve(IntValue(-3), IntValue(B), Field) == Ok(Curve)
    ensures ValidCurve(Curve) && Curve.a.x == P - 3 && Curve.b.x == B
  {
  }

  /** G is on the curve: the script's constants check out. */
  lemma GOnCurve()
    ensures ValidPoint(G) && OnCurve(G) && G.x.x == Gx && G.y.x == Gy
  {
  }

  /** p = 3 (mod 4): the square root's search loop is never entered, and
      every residue's root is x^((p+1)/4), whatever z is. */
  lemma SquareRootOnField(x: int, z: int, v: SquareRoot.Variant)
    requires 0 < x < P && PrimeField.Legendre(Field, x) == 1
    ensures SquareRoot.Root(Field, x, z, v) == Some(PrimeField.Pow(Field, x, (P + 1) / 4))
    ensures PrimeField.Mul(Field, SquareRoot.Root(Field, x, z, v).value, SquareRoot.Root(Field, x, z, v).value) == x
  {
    SquareRoot.ThreeModFour(Field, x, z, v);
  }

  /** Every element of the field, and of the scalar field, is encoded in
      exactly 96 hex digits and read back by from_hex. */
  lemma ElementsEncode(e: Elem)
    requires Canonical(e) && (e.field == Field || e.field == Scalars)
    ensures |Encoding.Encode(e)| == Encoding.Width && Encoding.LowerHex(Encoding.Encode(e))
    ensures Encoding.FromHex(Encoding.Encode(e)) == Some(e.x)
  {
    FieldFormula();
    Encoding.EncodeSpec(e);
    Encoding.RoundTrip(e);
  }
}
