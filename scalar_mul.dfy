/** `bit_count` and `PointOps.__mul__` of
    libtls13/script/generate-ec-test-data.py (lines 184-193 and 226-235):
    the left-to-right double-and-add ladder, shared by affine and Jacobian
    points. An addition that raises is an `Err` and ends the ladder. */
module ScalarMul {
  import opened Results
  import opened Modular
  import Numerals
  import FieldElements
  import Curves
  import Jacobian
  import JacobianLaw
  import JacobianDouble

  /** The number of binary digits of n, 0 for 0. */
  function BitLength(n: nat): nat
  {
    if n == 0 then 0 else 1 + BitLength(n / 2)
  }

  /** n has BitLength(n) digits: 2^(k-1) <= n < 2^k. */
  lemma {:induction false} BitLengthSpec(n: nat)
    ensures n < Numerals.Bit(BitLength(n))
    ensures BitLength(n) > 0 ==> Numerals.Bit(BitLength(n) - 1) <= n
    ensures BitLength(n) == 0 <==> n == 0
  {
    if n > 0 {
      BitLengthSpec(n / 2);
    }
  }

  /** `bit_count`: shift right until nothing is left; a negative argument
      fails the assertion. */
  method BitCount(n: int) returns (k: nat)
    requires n >= 0
    ensures k == BitLength(n)
  {
    var m := n;
    k := 0;
    while m != 0
      invariant m >= 0 && BitLength(n) == k + BitLength(m)
      decreases m
    {
      m := m / 2;
      k := k + 1;
    }
  }

  /** `scalar & 1 << i` is non-zero: bit i of a non-negative scalar. */
  predicate BitSet(k: nat, i: nat)
  {
    Leading(k, i) % 2 == 1
  }

  /** `scalar >> i`: the digits of k above the i lowest, by halving i times. */
  function Leading(k: nat, i: nat): nat
  {
    if i == 0 then k else Leading(k / 2, i - 1)
  }

  /** Shifting right by i is dividing by 2^i, so `BitSet(k, i)` is the
      script's test `scalar & 1 << i`. */
  lemma {:induction false} LeadingDiv(k: nat, i: nat)
    ensures Leading(k, i) == k / Numerals.Bit(i)
  {
    if i > 0 {
      LeadingDiv(k / 2, i - 1);
      var a := Numerals.Bit(i - 1);
      var h := k / 2;
      assert k == 2 * h + k % 2;
      assert h == (h / a) * a + h % a;
      assert k == (h / a) * (2 * a) + (2 * (h % a) + k % 2);
      ModUnique(k, 2 * a, h / a, 2 * (h % a) + k % 2);
    }
  }

  /** The ladder's value on the scalar k: the value on k / 2, doubled by
      adding it to itself, plus P when k is odd; 0 gives the identity. */
  function Ladder<T, E>(add: (T, T) -> Result<T, E>, zero: T, P: T, k: nat): Result<T, E>
  {
    if k == 0 then Ok(zero)
    else
      var h :- Ladder(add, zero, P, k / 2);
      var d :- add(h, h);
      if k % 2 == 1 then add(d, P) else Ok(d)
  }

  /** The leading digits of k: dropping one more digit halves them. */
  lemma {:induction false} PrefixStep(k: nat, i: nat)
    ensures Leading(k, i) / 2 == Leading(k, i + 1)
  {
    if i > 0 {
      PrefixStep(k / 2, i - 1);
    }
  }

  /** Once the ladder fails on the leading digits it fails on all of k. */
  lemma {:induction false} LadderFails<T, E>(add: (T, T) -> Result<T, E>, zero: T, P: T, k: nat, i: nat)
    requires Ladder(add, zero, P, Leading(k, i)).Err?
    ensures Ladder(add, zero, P, k) == Ladder(add, zero, P, Leading(k, i))
    decreases i
  {
    if i > 0 {
      PrefixStep(k, i - 1);
      LadderUnfold(add, zero, P, Leading(k, i - 1), Leading(k, i));
      LadderFails(add, zero, P, k, i - 1);
    }
  }

  /** A failure on n / 2 is the ladder's result on n. */
  lemma LadderUnfold<T, E>(add: (T, T) -> Result<T, E>, zero: T, P: T, n: nat, h: nat)
    requires h == n / 2 && Ladder(add, zero, P, h).Err?
    ensures Ladder(add, zero, P, n) == Ladder(add, zero, P, h)
  {
  }

  /** The leading digits are non-zero exactly below the bit length. */
  lemma {:induction false} LeadingPositive(k: nat, i: nat)
    ensures Leading(k, i) > 0 <==> i < BitLength(k)
  {
    if i > 0 && k > 0 {
      LeadingPositive(k / 2, i - 1);
    } else if i > 0 {
      LeadingOfZero(i);
    }
  }

  lemma {:induction false} LeadingOfZero(i: nat)
    ensures Leading(0, i) == 0
  {
    if i > 0 {
      LeadingOfZero(i - 1);
    }
  }

  /** One round of the ladder, below the leading digit of k. */
  lemma LadderRound<T, E>(add: (T, T) -> Result<T, E>, zero: T, P: T, k: nat, i: nat, acc: T)
    requires i < BitLength(k) && Ladder(add, zero, P, Leading(k, i + 1)) == Ok(acc)
    ensures Ladder(add, zero, P, Leading(k, i)) ==
      (var d :- add(acc, acc); if BitSet(k, i) then add(d, P) else Ok(d))
  {
    PrefixStep(k, i);
    LeadingPositive(k, i);
    LadderStep(add, zero, P, Leading(k, i), Leading(k, i + 1), acc);
  }

  /** The ladder on a positive n, from its value on n / 2. */
  lemma LadderStep<T, E>(add: (T, T) -> Result<T, E>, zero: T, P: T, n: nat, h: nat, acc: T)
    requires n > 0 && h == n / 2 && Ladder(add, zero, P, h) == Ok(acc)
    ensures Ladder(add, zero, P, n) == (var d :- add(acc, acc); if n % 2 == 1 then add(d, P) else Ok(d))
  {
  }

  /** `PointOps.__mul__`: from the identity, for each bit of the scalar from
      the top, add the accumulator to itself and then P if the bit is set. */
  method Multiply<T, E>(add: (T, T) -> Result<T, E>, zero: T, P: T, k: int) returns (r: Result<T, E>)
    requires k >= 0
    ensures r == Ladder(add, zero, P, k)
  {
    var n := BitCount(k);
    BitLengthSpec(k);
    var acc := zero;
    var i := n;
    LeadingPositive(k, n);
    while i > 0
      invariant 0 <= i <= n
      invariant Ladder(add, zero, P, Leading(k, i)) == Ok(acc)
    {
      i := i - 1;
      LadderRound(add, zero, P, k, i, acc);
      var d := add(acc, acc);
      if d.Err? {
        LadderFails(add, zero, P, k, i);
        return Err(d.error);
      }
      acc := d.value;
      if BitSet(k, i) {
        var e := add(acc, P);
        if e.Err? {
          LadderFails(add, zero, P, k, i);
          return Err(e.error);
        }
        acc := e.value;
      }
    }
    r := Ok(acc);
  }

  /** Where adding two multiples of P gives the multiple of the sum, the
      ladder computes the k-th multiple. */
  lemma {:induction false} LadderMultiples<T, E>(add: (T, T) -> Result<T, E>, M: nat -> T, k: nat)
    requires forall a: nat, b: nat :: add(M(a), M(b)) == Ok(M(a + b))
    ensures Ladder(add, M(0), M(1), k) == Ok(M(k))
  {
    if k > 0 {
      LadderMultiples(add, M, k / 2);
      assert add(M(k / 2), M(k / 2)) == Ok(M(k / 2 + k / 2));
      assert add(M(k / 2 + k / 2), M(1)) == Ok(M(k / 2 + k / 2 + 1));
    }
  }

  /** On the integers under +, the ladder is multiplication. */
  lemma IntegerLadder(x: int, k: nat)
    ensures Ladder<int, ()>((a: int, b: int) => Ok(a + b), 0, x, k) == Ok(k * x)
  {
    var add: (int, int) -> Result<int, ()> := (a: int, b: int) => Ok(a + b);
    var M := (n: nat) => n * x;
    assert forall a: nat, b: nat :: add(M(a), M(b)) == Ok(M(a + b)) by {
      forall a: nat, b: nat ensures add(M(a), M(b)) == Ok(M(a + b)) {
        assert a * x + b * x == (a + b) * x;
      }
    }
    LadderMultiples(add, M, k);
    assert M(0) == 0 && M(1) == x;
  }

  // ---------------------------------------------------------------------
  // The two instances the script uses.

  /** `scalar * point` for an affine point. */
  function AffineMul(P: Curves.Point, k: nat): Result<Curves.Point, FieldElements.FieldError>
  {
    Ladder(Curves.Add, Curves.Zero(P.curve), P, k)
  }

  /** Jacobian addition, as a step of the ladder. */
  function JacobianStep(a: Jacobian.JPoint, b: Jacobian.JPoint): Result<Jacobian.JPoint, ()>
  {
    Ok(Jacobian.JAdd(a, b))
  }

  /** Jacobian addition cannot fail, so neither can its ladder. */
  lemma {:induction false} JacobianLadderOk(zero: Jacobian.JPoint, J: Jacobian.JPoint, k: nat)
    ensures Ladder(JacobianStep, zero, J, k).Ok?
  {
    if k > 0 {
      JacobianLadderOk(zero, J, k / 2);
    }
  }

  /** `scalar * point` for a Jacobian point. */
  function JacobianMul(J: Jacobian.JPoint, k: nat): Jacobian.JPoint
  {
    JacobianLadderOk(Jacobian.JZero(J.curve), J, k);
    Ladder(JacobianStep, Jacobian.JZero(J.curve), J, k).value
  }

  /** 0, 1 and 2 times an affine point: the identity, the point, and the
      point added to itself. */
  lemma AffineMulSmall(P: Curves.Point)
    ensures AffineMul(P, 0) == Ok(Curves.Zero(P.curve))
    ensures AffineMul(P, 1) == Ok(P)
    ensures AffineMul(P, 2) == Curves.Double(P)
  {
    Curves.AddIdentity(P.curve, Curves.Zero(P.curve));
    Curves.AddIdentity(P.curve, P);
    assert AffineMul(P, 1) == Ok(P);
  }

  /** 0, 1 and 2 times a Jacobian point. */
  lemma JacobianMulSmall(J: Jacobian.JPoint)
    ensures JacobianMul(J, 0) == Jacobian.JZero(J.curve)
    ensures JacobianMul(J, 1) == J
    ensures JacobianMul(J, 2) == Jacobian.JAdd(J, J)
  {
    Modular.ModUnique(0, J.curve.field.p, 0, 0);
    var O := Jacobian.JZero(J.curve);
    assert Jacobian.IsZero(O);
    assert Ladder(JacobianStep, O, J, 1) == Ok(J);
  }

  /** Jacobian addition keeps points valid and on their curve. */
  lemma JAddValid(P: Jacobian.JPoint, Q: Jacobian.JPoint)
    requires Jacobian.ValidJ(P) && Jacobian.ValidJ(Q) && P.curve == Q.curve
    ensures Jacobian.ValidJ(Jacobian.JAdd(P, Q)) && Jacobian.JAdd(P, Q).curve == P.curve
  {
  }

  /** So does the Jacobian ladder. */
  lemma {:induction false} JacobianMulValid(J: Jacobian.JPoint, k: nat)
    requires Jacobian.ValidJ(J)
    ensures Jacobian.ValidJ(JacobianMul(J, k)) && JacobianMul(J, k).curve == J.curve
  {
    var O := Jacobian.JZero(J.curve);
    if k == 0 {
      Jacobian.JZeroSpec(J.curve);
    } else {
      JacobianMulValid(J, k / 2);
      var H := JacobianMul(J, k / 2);
      JacobianLadderOk(O, J, k / 2);
      JAddValid(H, H);
      JAddValid(Jacobian.JAdd(H, H), J);
    }
  }

  /** One Jacobian addition whose affine counterpart does not raise. */
  lemma AddStep(P: Jacobian.JPoint, Q: Jacobian.JPoint, X: Curves.Point, Y: Curves.Point)
    requires JacobianLaw.OddPrimePair(P, Q) && Divides(P.curve.field.p, P.curve.a.x + 3)
    requires Jacobian.ToAffine(P) == Ok(X) && Jacobian.ToAffine(Q) == Ok(Y) && Curves.Add(X, Y).Ok?
    ensures Jacobian.ToAffine(Jacobian.JAdd(P, Q)) == Curves.Add(X, Y)
    ensures Jacobian.ValidJ(Jacobian.JAdd(P, Q)) && Jacobian.JAdd(P, Q).curve == P.curve
  {
    JacobianDouble.AddAgrees(P, Q);
    JAddValid(P, Q);
  }

  /** The Jacobian ladder on a positive k, from its value on k / 2. */
  lemma JacobianMulUnfold(J: Jacobian.JPoint, k: nat)
    requires k > 0
    ensures var H := JacobianMul(J, k / 2); var D := Jacobian.JAdd(H, H);
      JacobianMul(J, k) == if k % 2 == 1 then Jacobian.JAdd(D, J) else D
  {
    JacobianLadderOk(Jacobian.JZero(J.curve), J, k / 2);
  }

  /** `k * g` computed on Jacobian points is, in affine terms, the affine
      `k * g`, whenever the affine ladder does not raise: over an odd prime
      field and on a curve with a = -3. */
  lemma {:induction false} MulAgrees(J: Jacobian.JPoint, k: nat)
    requires JacobianLaw.OddPrimePair(J, J) && Divides(J.curve.field.p, J.curve.a.x + 3)
    ensures Jacobian.ToAffine(J).Ok?
    ensures AffineMul(Jacobian.ToAffine(J).value, k).Ok? ==>
      Jacobian.ToAffine(JacobianMul(J, k)) == AffineMul(Jacobian.ToAffine(J).value, k)
  {
    Jacobian.ToAffineOk(J);
    var A := Jacobian.ToAffine(J).value;
    if k == 0 {
      Jacobian.JZeroSpec(J.curve);
    } else if AffineMul(A, k).Ok? {
      var h := k / 2;
      MulAgrees(J, h);
      JacobianMulValid(J, h);
      JacobianMulUnfold(J, k);
      var H := JacobianMul(J, h);
      var AH := AffineMul(A, h).value;
      AddStep(H, H, AH, AH);
      if k % 2 == 1 {
        AddStep(Jacobian.JAdd(H, H), J, Curves.Add(AH, AH).value, A);
      }
    }
  }
}
