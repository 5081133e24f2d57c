/** The twisted Edwards curve -x^2 + y^2 = 1 + d x^2 y^2 over GF(P), in affine coordinates (RFC 8032, section 5.1).

    Each result lists the hypotheses it rests on.
 */
module Curve {
  import opened Residues

  /** The curve constant -121665 / 121666.  Its value is a lemma, so that proofs do not calculate with it. */
  ghost const D: int := CurveConstant()

  ghost predicate IsCurveConstant(d: int) {
    0 <= d < P && Residue(121666 * d) == Residue(-121665)
  }

  ghost function CurveConstant(): (d: int)
    ensures IsCurveConstant(d)
  {
    LiteralConstant();
    var d :| IsCurveConstant(d);
    d
  }

  lemma LiteralConstant()
    ensures IsCurveConstant(0x5203_6cee_2b6f_fe73_8cc7_4079_7779_e898_0070_0a4d_4141_d8ab_75eb_4dca_1359_78a3)
  {
    ResidueIsRemainder(121666 * 0x5203_6cee_2b6f_fe73_8cc7_4079_7779_e898_0070_0a4d_4141_d8ab_75eb_4dca_1359_78a3);
    ResidueIsRemainder(-121665);
  }

  /** Since 121666 has an inverse modulo P, there is no other constant. */
  lemma ValueOfD()
    ensures D == 0x5203_6cee_2b6f_fe73_8cc7_4079_7779_e898_0070_0a4d_4141_d8ab_75eb_4dca_1359_78a3
  {
    LiteralConstant();
    InvertConstant(D);
    InvertConstant(0x5203_6cee_2b6f_fe73_8cc7_4079_7779_e898_0070_0a4d_4141_d8ab_75eb_4dca_1359_78a3);
  }

  lemma InvertConstant(d: int)
    requires IsCurveConstant(d)
    ensures d == Residue(0x5203_6cee_2b6f_fe73_8cc7_4079_7779_e898_0070_0a4d_4141_d8ab_75eb_4dca_1359_78a4 * -121665)
  {
    var v := 0x5203_6cee_2b6f_fe73_8cc7_4079_7779_e898_0070_0a4d_4141_d8ab_75eb_4dca_1359_78a4;
    ResidueIsRemainder(v * 121666);
    SmallResidue(1);
    SmallResidue(d);
    ResidueProduct(v, v, 121666 * d, -121665);
    ResidueProduct(v * 121666, 1, d, d);
    assert v * (121666 * d) == v * 121666 * d;
  }

  datatype Point = Point(x: int, y: int)

  ghost predicate OnCurve(p: Point) {
    0 <= p.x < P && 0 <= p.y < P && CurveEquation(p.x, p.y)
  }

  ghost predicate CurveEquation(x: int, y: int) {
    Residue(y * y - x * x) == Residue(1 + D * (x * x * (y * y)))
  }

  /** Minus one is a square. */
  lemma RootOfMinusOne() returns (i: int)
    ensures Residue(i * i) == Residue(-1)
  {
    i := 0x2b83_2480_4fc1_df0b_2b4d_0099_3dfb_d7a7_2f43_1806_ad2f_e478_c4ee_1b27_4a0e_a0b0;
    ResidueIsRemainder(i * i);
    ResidueIsRemainder(-1);
  }

  // ----- d is not a square

  lemma {:induction false} OddPowerOfMinusOne(k: nat)
    ensures Pow(-1, 2 * k + 1) == -1
  {
    if k > 0 {
      OddPowerOfMinusOne(k - 1);
      PowSum(-1, 2, 2 * k - 1);
      SmallPowers(-1);
    }
  }

  /** Since (P - 1) / 4 is odd, -1 has no fourth root. */
  lemma NoFourthRoot(t: int)
    requires FermatsLittleTheorem()
    ensures Residue((t * t) * (t * t)) != Residue(-1)
  {
    hide FermatsLittleTheorem, Pow;
    SmallResidue(0);
    MinusOne();
    var n: nat := (P - 1) / 4;
    if Residue(t) == 0 {
      ResidueProduct(t, 0, t, 0);
      ResidueProduct(t * t, 0, t * t, 0);
    } else {
      FermatPower(t);
      PowOfProduct(t * t, t * t, n);
      PowOfProduct(t, t, n);
      PowSum(t, n, n);
      PowSum(t, n + n, n + n);
      assert n + n + (n + n) == P - 1 && n == 2 * ((P - 5) / 8) + 1;
      OddPowerOfMinusOne((P - 5) / 8);
      if Residue((t * t) * (t * t)) == Residue(-1) {
        ResiduePow((t * t) * (t * t), -1, n);
      }
    }
  }

  /** A square is not twice a square, because 2 i is the square of 1 + i and i is none. */
  lemma NotTwiceASquare(q: int, w: int)
    requires FermatsLittleTheorem() && Residue(w) != 0
    ensures Residue(q * q) != Residue(2 * (w * w))
  {
    hide FermatsLittleTheorem, Inverse;
    SmallResidue(0);
    SmallResidue(2);
    NonZeroProduct(w, w);
    NonZeroProduct(2, w * w);
    var i := RootOfMinusOne();
    var a := (1 + i) * w;
    var t := a * Inverse(q);
    if Residue(q) == 0 {
      ResidueProduct(q, 0, q, 0);
    } else if Residue(q * q) == Residue(2 * (w * w)) {
      Quotient(a, q);
      ResidueProduct(t * q, a, t * q, a);
      Regroup(t, q, t, q);
      TwiceRoot(i, w, a);
      ResidueProduct(i, i, q * q, 2 * (w * w));
      NonZeroProduct(q, q);
      CancelFactor(t * t, i, q * q);
      ResidueProduct(t * t, i, t * t, i);
      NoFourthRoot(t);
    }
  }

  lemma TwiceRoot(i: int, w: int, a: int)
    requires Residue(i * i) == Residue(-1) && a == (1 + i) * w
    ensures Residue(a * a) == Residue(i * (2 * (w * w)))
  {
    Regroup(1 + i, w, 1 + i, w);
    assert (1 + i) * (1 + i) == (1 + i * i) + 2 * i;
    ResidueSum(1, 1, i * i, -1);
    ResidueSum(1 + i * i, 0, 2 * i, 2 * i);
    ResidueProduct((1 + i) * (1 + i), 2 * i, w * w, w * w);
    assert 2 * i * (w * w) == i * (2 * (w * w));
  }

  /** A root of 60833 * 121665. */
  const ROOT: int := 0x1363_d8e8_ec57_7bbb_f4be_3f00_bde6_099b_00b3_b80e_6fbf_0a28_352e_73cc_eaa0_b6b5

  lemma RootOfProduct()
    ensures Residue(ROOT * ROOT) == 60833 * 121665 && Residue(-1 * (60833 * 121665)) != 0
  {
    ResidueIsRemainder(ROOT * ROOT);
    ResidueIsRemainder(-1 * (60833 * 121665));
  }

  /** What makes the addition law complete: 121666^2 d = -121666 * 121665 is, up to squares, twice a square. */
  lemma DIsNotASquare(z: int)
    requires FermatsLittleTheorem()
    ensures Residue(z * z) != D
  {
    hide FermatsLittleTheorem;
    assert IsCurveConstant(D);
    var i := RootOfMinusOne();
    var q, w := 121666 * z, i * ROOT;
    SmallResidue(D);
    RootTimesI(i, w);
    if Residue(z * z) == D {
      Regroup(121666, z, 121666, z);
      ResidueProduct(121666 * 121666, 121666 * 121666, z * z, D);
      ResidueProduct(121666, 121666, 121666 * D, -121665);
      assert 121666 * 121666 * D == 121666 * (121666 * D);
      NotTwiceASquare(q, w);
    }
  }

  lemma RootTimesI(i: int, w: int)
    requires Residue(i * i) == Residue(-1) && w == i * ROOT
    ensures Residue(w) != 0 && Residue(2 * (w * w)) == Residue(121666 * -121665)
  {
    RootOfProduct();
    SmallResidue(0);
    SmallResidue(60833 * 121665);
    Regroup(i, ROOT, i, ROOT);
    ResidueProduct(i * i, -1, ROOT * ROOT, 60833 * 121665);
    ResidueProduct(2, 2, w * w, -1 * (60833 * 121665));
    if Residue(w) == 0 {
      ResidueProduct(w, 0, w, 0);
    }
  }

  // ----- completeness

  /** The quotient of two squares is a square, so d cannot be one. */
  lemma DTimesSquare(w: int, q: int)
    requires FermatsLittleTheorem()
    requires Residue(D * (w * w)) == Residue(q * q)
    ensures Residue(w) == 0
  {
    hide FermatsLittleTheorem, Inverse;
    if Residue(w) != 0 {
      var z := q * Inverse(w);
      Quotient(q, w);
      SmallResidue(D);
      ResidueProduct(z * w, q, z * w, q);
      assert (z * w) * (z * w) == (z * z) * (w * w);
      NonZeroProduct(w, w);
      CancelFactor(D, z * z, w * w);
      DIsNotASquare(z);
      assert false;
    }
  }

  /** With i^2 = -1 the curve equation turns a square of y + i x into one of d x^2 y^2. */
  lemma SquareOfSum(x: int, y: int, i: int)
    requires CurveEquation(x, y) && Residue(i * i) == Residue(-1)
    ensures Residue((y + i * x) * (y + i * x)) == Residue(1 + D * (x * x * (y * y)) + 2 * (i * (x * y)))
  {
    assert (y + i * x) * (y + i * x) == (y * y - x * x) + (2 * (i * (x * y)) + (i * i + 1) * (x * x)) by {
      assert (y + i * x) * (y + i * x) == y * y + 2 * (i * (x * y)) + i * i * (x * x);
    }
    ResidueSum(i * i, -1, 1, 1);
    ResidueProduct(i * i + 1, 0, x * x, x * x);
    ResidueSum(2 * (i * (x * y)), 2 * (i * (x * y)), (i * i + 1) * (x * x), 0);
    ResidueSum(y * y - x * x, 1 + D * (x * x * (y * y)),
               2 * (i * (x * y)) + (i * i + 1) * (x * x), 2 * (i * (x * y)));
  }

  lemma ScaledSquare(m: int, n: int, z: int, i: int, s: int)
    requires Residue(z * z) == Residue(1 + D * (n * n) + 2 * (i * n))
    requires Residue(D * (m * n)) == Residue(s) && s * s == 1
    ensures Residue(D * ((m * z) * (m * z))) == Residue(1 + D * (m * m) + 2 * (i * s * m))
  {
    var e := D * (m * n);
    Regroup(m, z, m, z);
    Times(D, m * m, z * z);
    ResidueProduct(D * (m * m), D * (m * m), z * z, 1 + D * (n * n) + 2 * (i * n));
    ExpandProduct(D, m, n, i, e);
    SignedTerms(D * (m * m), e, s, 2 * (i * m));
    SignedProduct(i, s, m);
  }

  lemma SignedProduct(i: int, s: int, m: int)
    ensures 2 * (i * s * m) == 2 * (i * m) * s
  {
  }

  lemma SignedTerms(a: int, e: int, s: int, b: int)
    requires Residue(e) == Residue(s) && s * s == 1
    ensures Residue(a + (e * e + b * e)) == Residue(a + 1 + b * s)
  {
    ResidueProduct(e, s, e, s);
    ResidueProduct(b, b, e, s);
    ResidueSum(e * e, s * s, b * e, b * s);
    ResidueSum(a, a, e * e + b * e, 1 + b * s);
  }

  /** If the denominator 1 - s * d x1 x2 y1 y2 vanished for s = 1 or -1, then d times a square would be a square. */
  lemma ZeroDenominator(x1: int, y1: int, x2: int, y2: int, s: int, i: int)
    requires CurveEquation(x1, y1) && CurveEquation(x2, y2)
    requires Residue(i * i) == Residue(-1)
    requires Residue(D * (x1 * x2 * (y1 * y2))) == Residue(s) && s * s == 1
    ensures var w := x1 * y1 * (y2 + i * x2);
            Residue(D * (w * w)) == Residue((y1 + i * s * x1) * (y1 + i * s * x1))
  {
    hide CurveEquation;
    Regroup(x1, x2, y1, y2);
    Regroup(i, s, i, s);
    SquareOfPoint(x1, y1, x1 * y1, i * s);
    SquareOfPoint(x2, y2, x2 * y2, i);
    ScaledSquare(x1 * y1, x2 * y2, y2 + i * x2, i, s);
  }

  lemma SquareOfPoint(x: int, y: int, m: int, i: int)
    requires CurveEquation(x, y) && Residue(i * i) == Residue(-1) && m == x * y
    ensures Residue((y + i * x) * (y + i * x)) == Residue(1 + D * (m * m) + 2 * (i * m))
  {
    hide CurveEquation;
    Regroup(x, x, y, y);
    SquareOfSum(x, y, i);
  }

  lemma ExpandProduct(d: int, m: int, n: int, i: int, e: int)
    requires e == d * (m * n)
    ensures (d * (m * m)) * (1 + d * (n * n) + 2 * (i * n)) == d * (m * m) + (e * e + 2 * (i * m) * e)
  {
    assert (d * (m * m)) * (d * (n * n)) == e * e;
    assert (d * (m * m)) * (2 * (i * n)) == 2 * (i * m) * e;
  }

  /** The law is complete: for points on the curve no denominator of the addition formulas vanishes. */
  lemma DenominatorsAreUnits(x1: int, y1: int, x2: int, y2: int)
    requires FermatsLittleTheorem()
    requires CurveEquation(x1, y1) && CurveEquation(x2, y2)
    ensures Residue(1 + D * (x1 * x2 * (y1 * y2))) != 0
    ensures Residue(1 - D * (x1 * x2 * (y1 * y2))) != 0
  {
    hide FermatsLittleTheorem, CurveEquation;
    var e := D * (x1 * x2 * (y1 * y2));
    if Residue(1 + e) == 0 {
      ResidueOfDifference(e, -1);
      NoUnitProduct(x1, y1, x2, y2, -1);
      assert false;
    }
    if Residue(1 - e) == 0 {
      ResidueOfDifference(1, e);
      NoUnitProduct(x1, y1, x2, y2, 1);
      assert false;
    }
  }

  lemma NoUnitProduct(x1: int, y1: int, x2: int, y2: int, s: int)
    requires FermatsLittleTheorem()
    requires CurveEquation(x1, y1) && CurveEquation(x2, y2)
    requires s == 1 || s == -1
    ensures Residue(D * (x1 * x2 * (y1 * y2))) != Residue(s)
  {
    hide FermatsLittleTheorem, CurveEquation;
    var i := RootOfMinusOne();
    if Residue(D * (x1 * x2 * (y1 * y2))) == Residue(s) {
      assert (-i) * (-i) == i * i;
      ZeroDenominator(x1, y1, x2, y2, s, i);
      ZeroDenominator(x1, y1, x2, y2, s, -i);
      DTimesSquare(x1 * y1 * (y2 + i * x2), y1 + i * s * x1);
      DTimesSquare(x1 * y1 * (y2 + -i * x2), y1 + -i * s * x1);
      BothVanish(x1 * y1, x2, y2, i);
      ZeroFactor(x1, y1, x2, y2, s);
      assert false;
    }
  }

  lemma BothVanish(m: int, x: int, y: int, i: int)
    requires Residue(m * (y + i * x)) == 0 && Residue(m * (y + -i * x)) == 0
    ensures Residue(m * (2 * y)) == 0
  {
    VanishingCombination(1, m * (y + i * x), 1, m * (y + -i * x));
    OppositeTerms(m, y, i * x);
    assert -i * x == -(i * x);
  }

  lemma OppositeTerms(m: int, y: int, z: int)
    ensures m * (y + z) + m * (y + -z) == m * (2 * y)
  {
  }

  lemma ZeroFactor(x1: int, y1: int, x2: int, y2: int, s: int)
    requires Residue(x1 * y1 * (2 * y2)) == 0
    requires s == 1 || s == -1
    ensures Residue(D * (x1 * x2 * (y1 * y2))) != Residue(s)
  {
    var w := x1 * y1 * (2 * y2);
    SmallResidue(0);
    ResidueIsRemainder(2 * s);
    assert 2 * (D * (x1 * x2 * (y1 * y2))) == (D * x2) * w by {
      assert x1 * x2 * (y1 * y2) == x2 * (x1 * y1 * y2);
    }
    ResidueProduct(D * x2, D * x2, w, 0);
    if Residue(D * (x1 * x2 * (y1 * y2))) == Residue(s) {
      ResidueProduct(2, 2, D * (x1 * x2 * (y1 * y2)), s);
      assert false;
    }
  }

  // ----- the addition law

  /** The term d x1 x2 y1 y2 of the denominators. */
  ghost function Cross(p: Point, q: Point): int {
    D * (p.x * q.x * (p.y * q.y))
  }

  /** The sum of two points (RFC 8032, section 5.1.4, in affine form). */
  ghost function Add(p: Point, q: Point): Point {
    Point(Residue((p.x * q.y + q.x * p.y) * Inverse(1 + Cross(p, q))),
          Residue((p.y * q.y + p.x * q.x) * Inverse(1 - Cross(p, q))))
  }

  ghost function Neg(p: Point): Point {
    Point(Residue(-p.x), p.y)
  }

  const ZERO: Point := Point(0, 1)

  lemma Denominators(p: Point, q: Point)
    requires FermatsLittleTheorem()
    requires OnCurve(p) && OnCurve(q)
    ensures Residue(1 + Cross(p, q)) != 0 && Residue(1 - Cross(p, q)) != 0
  {
    DenominatorsAreUnits(p.x, p.y, q.x, q.y);
  }

  /** The addition equations with cleared denominators. */
  ghost predicate SolvesSum(p: Point, q: Point, x: int, y: int) {
    && Residue(x * (1 + Cross(p, q))) == Residue(p.x * q.y + q.x * p.y)
    && Residue(y * (1 - Cross(p, q))) == Residue(p.y * q.y + p.x * q.x)
  }

  /** The coordinates of the sum solve the equations with cleared denominators. */
  lemma AddEquations(p: Point, q: Point)
    requires FermatsLittleTheorem()
    requires OnCurve(p) && OnCurve(q)
    ensures SolvesSum(p, q, Add(p, q).x, Add(p, q).y)
  {
    hide FermatsLittleTheorem, OnCurve, Cross, Inverse;
    Denominators(p, q);
    var s, t := 1 + Cross(p, q), 1 - Cross(p, q);
    var a, b := p.x * q.y + q.x * p.y, p.y * q.y + p.x * q.x;
    Quotient(a, s);
    Quotient(b, t);
    ResidueTwice(a * Inverse(s));
    ResidueTwice(b * Inverse(t));
    ResidueProduct(Add(p, q).x, a * Inverse(s), s, s);
    ResidueProduct(Add(p, q).y, b * Inverse(t), t, t);
  }

  /** And they are the only residues that do. */
  lemma AddIsUnique(p: Point, q: Point, x: int, y: int)
    requires FermatsLittleTheorem()
    requires OnCurve(p) && OnCurve(q)
    requires SolvesSum(p, q, x, y)
    ensures Add(p, q) == Point(Residue(x), Residue(y))
  {
    AddEquations(p, q);
    Denominators(p, q);
    var r := Add(p, q);
    ResidueTwice((p.x * q.y + q.x * p.y) * Inverse(1 + Cross(p, q)));
    ResidueTwice((p.y * q.y + p.x * q.x) * Inverse(1 - Cross(p, q)));
    assert Residue(r.x) == r.x && Residue(r.y) == r.y;
    hide FermatsLittleTheorem, OnCurve, Cross, Inverse, Add;
    CancelFactor(x, r.x, 1 + Cross(p, q));
    CancelFactor(y, r.y, 1 - Cross(p, q));
  }

  lemma ZeroIsOnCurve()
    ensures OnCurve(ZERO)
  {
  }

  lemma AddZero(p: Point)
    requires FermatsLittleTheorem()
    requires OnCurve(p)
    ensures Add(p, ZERO) == p && Add(ZERO, p) == p
  {
    ZeroIsOnCurve();
    AddIsUnique(p, ZERO, p.x, p.y);
    AddIsUnique(ZERO, p, p.x, p.y);
    SmallResidue(p.x);
    SmallResidue(p.y);
  }

  lemma AddCommutes(p: Point, q: Point)
    ensures Add(p, q) == Add(q, p)
  {
    assert Cross(p, q) == Cross(q, p) && p.x * q.x == q.x * p.x && p.y * q.y == q.y * p.y;
  }

  lemma NegIsOnCurve(p: Point)
    requires OnCurve(p)
    ensures OnCurve(Neg(p))
  {
    var n := Residue(-p.x);
    ResidueTwice(-p.x);
    ResidueProduct(n, -p.x, n, -p.x);
    assert (-p.x) * (-p.x) == p.x * p.x;
    ResidueSum(p.y * p.y, p.y * p.y, n * n, p.x * p.x);
    ResidueProduct(n * n, p.x * p.x, D * (p.y * p.y), D * (p.y * p.y));
    assert D * (n * n * (p.y * p.y)) == n * n * (D * (p.y * p.y));
    assert D * (p.x * p.x * (p.y * p.y)) == p.x * p.x * (D * (p.y * p.y));
    ResidueSum(1, 1, D * (n * n * (p.y * p.y)), D * (p.x * p.x * (p.y * p.y)));
  }

  lemma AddNeg(p: Point)
    requires FermatsLittleTheorem()
    requires OnCurve(p)
    ensures Add(p, Neg(p)) == ZERO
  {
    var q := Neg(p);
    NegIsOnCurve(p);
    SmallResidue(0);
    SmallResidue(1);
    hide FermatsLittleTheorem;
    ResidueTwice(-p.x);
    Opposite(p.x, q.x, p.y);
    AddIsUnique(p, q, 0, 1);
  }

  lemma Opposite(x: int, x': int, y: int)
    requires Residue(x') == Residue(-x) && CurveEquation(x, y)
    ensures Residue(x * y + x' * y) == Residue(0)
    ensures Residue(y * y + x * x') == Residue(1 - D * (x * x' * (y * y)))
  {
    ResidueSum(x, x, x', -x);
    ResidueProduct(x + x', 0, y, y);
    assert x * y + x' * y == (x + x') * y;
    ResidueProduct(x, x, x', -x);
    assert x * -x == -(x * x);
    ResidueSum(y * y, y * y, x * x', -(x * x));
    var w := D * (y * y);
    ResidueProduct(w, w, x * x', -(x * x));
    assert D * (x * x' * (y * y)) == w * (x * x') && D * (x * x * (y * y)) == -(w * -(x * x));
    ResidueSum(1, 1, w * (x * x'), w * -(x * x));
  }

  // ----- the sum of two points on the curve is on the curve

  /** The polynomial identity behind closure; h0, h1 and h2 vanish on the curve. */
  lemma ClosureIdentity(c1: int, c2: int, e: int, w: int, dm1: int, dm2: int, N: int, p1: int, p2: int, X: int)
    requires dm1 == c1 - 1 && dm2 == c2 - 1 && e * e == dm1 * dm2 && dm1 * dm2 == e * e
    ensures X * (1 + e * e) + 2 * e * (N + 4 * w) - (1 - e * e) * (1 - e * e)
            - (dm1 * p2 + dm2 * p1 + 2 * e * N)
         == (X - c1 * c2) * (1 + e * e) - dm1 * (p2 - c2 * c2) - dm2 * (p1 - c1 * c1) + 8 * (e * w)
  {
    var ee := e * e;
    ProductOfShifted(c1, c2);
    ConstantPart(c1, c2, ee);
    assert (X - c1 * c2) * (1 + ee) == X * (1 + ee) - c1 * c2 * (1 + ee);
    assert dm1 * (p2 - c2 * c2) == dm1 * p2 - dm1 * (c2 * c2) && dm2 * (p1 - c1 * c1) == dm2 * p1 - dm2 * (c1 * c1);
    assert 2 * e * (N + 4 * w) == 2 * e * N + 8 * (e * w);
  }

  lemma ProductOfShifted(c1: int, c2: int)
    ensures (c1 - 1) * (c2 - 1) == c1 * c2 - c1 - c2 + 1
  {
  }

  lemma ConstantPart(c1: int, c2: int, ee: int)
    requires ee == c1 * c2 - c1 - c2 + 1
    ensures c1 * c2 * (1 + ee) - (1 - ee) * (1 - ee) == (c1 - 1) * (c2 * c2) + (c2 - 1) * (c1 * c1)
  {
    var k := c1 * c2;
    assert 1 + ee == 2 + k - c1 - c2 && 1 - ee == c1 + c2 - k;
    assert k * (2 + k - c1 - c2) - (c1 + c2 - k) * (c1 + c2 - k) == k * c1 + k * c2 - c1 * c1 - c2 * c2;
  }

  lemma SumsAndProducts(x1: int, y1: int, x2: int, y2: int)
    ensures var a, b, m1, m2 := x1 * y2 + x2 * y1, y1 * y2 + x1 * x2, x1 * y1, x2 * y2;
            var n1, n2 := x1 * x1 + y1 * y1, x2 * x2 + y2 * y2;
            && b * b - a * a == (y1 * y1 - x1 * x1) * (y2 * y2 - x2 * x2)
            && a * a + b * b == n1 * n2 + 4 * (m1 * m2)
            && a * b == m1 * n2 + m2 * n1
  {
    SumAndDifference(x1, y1, x2, y2);
    CrossProduct(x1, y1, x2, y2);
  }

  lemma SumAndDifference(x1: int, y1: int, x2: int, y2: int)
    ensures var a, b := x1 * y2 + x2 * y1, y1 * y2 + x1 * x2;
            && b * b - a * a == (y1 * y1 - x1 * x1) * (y2 * y2 - x2 * x2)
            && a * a + b * b == (x1 * x1 + y1 * y1) * (x2 * x2 + y2 * y2) + 4 * ((x1 * y1) * (x2 * y2))
  {
  }

  lemma CrossProduct(x1: int, y1: int, x2: int, y2: int)
    ensures (x1 * y2 + x2 * y1) * (y1 * y2 + x1 * x2) == x1 * y1 * (x2 * x2 + y2 * y2) + x2 * y2 * (x1 * x1 + y1 * y1)
  {
  }

  /** The square of the sum of squares differs from that of the difference by 4 x^2 y^2. */
  lemma SquaredNorm(x: int, y: int)
    ensures (x * x + y * y) * (x * x + y * y) == (y * y - x * x) * (y * y - x * x) + 4 * ((x * y) * (x * y))
  {
  }

  /** b^2 s^2 - a^2 t^2 = s^2 t^2 + d a^2 b^2 for the numerators and denominators of a sum. */
  lemma ClosureCongruence(x1: int, y1: int, x2: int, y2: int)
    requires CurveEquation(x1, y1) && CurveEquation(x2, y2)
    ensures var a, b, e := x1 * y2 + x2 * y1, y1 * y2 + x1 * x2, D * ((x1 * y1) * (x2 * y2));
            Residue((b * b) * ((1 + e) * (1 + e)) - (a * a) * ((1 - e) * (1 - e)))
            == Residue(((1 + e) * (1 + e)) * ((1 - e) * (1 - e)) + D * ((a * b) * (a * b)))
  {
    SumsAndProducts(x1, y1, x2, y2);
    SquaredNorm(x1, y1);
    SquaredNorm(x2, y2);
    EquationInTerms(x1, y1);
    EquationInTerms(x2, y2);
    hide CurveEquation;
    var a, b := x1 * y2 + x2 * y1, y1 * y2 + x1 * x2;
    ClosureInTerms(a * a, b * b, a * b, x1 * y1, x2 * y2, x1 * x1 + y1 * y1, x2 * x2 + y2 * y2,
                   y1 * y1 - x1 * x1, y2 * y2 - x2 * x2);
  }

  lemma EquationInTerms(x: int, y: int)
    requires CurveEquation(x, y)
    ensures Residue(y * y - x * x) == Residue(1 + D * ((x * y) * (x * y)))
  {
    Regroup(x, x, y, y);
  }

  /** Two points' products m = x y, norms n = x^2 + y^2, differences f = y^2 - x^2, and what closure needs of them. */
  lemma ClosureInTerms(aa: int, bb: int, ab: int, m1: int, m2: int, n1: int, n2: int, f1: int, f2: int)
    requires Residue(f1) == Residue(1 + D * (m1 * m1)) && Residue(f2) == Residue(1 + D * (m2 * m2))
    requires bb - aa == f1 * f2 && aa + bb == n1 * n2 + 4 * (m1 * m2) && ab == m1 * n2 + m2 * n1
    requires n1 * n1 == f1 * f1 + 4 * (m1 * m1) && n2 * n2 == f2 * f2 + 4 * (m2 * m2)
    ensures var e := D * (m1 * m2);
            Residue(bb * ((1 + e) * (1 + e)) - aa * ((1 - e) * (1 - e)))
            == Residue(((1 + e) * (1 + e)) * ((1 - e) * (1 - e)) + D * (ab * ab))
  {
    var e := D * (m1 * m2);
    var dm1, dm2 := D * (m1 * m1), D * (m2 * m2);
    MixedTerms(D, m1, m2);
    ScaledCross(D, m1, n1, m2, n2);
    LeftTerm(aa, bb, e);
    RightTerm(e);
    var left := bb * ((1 + e) * (1 + e)) - aa * ((1 - e) * (1 - e));
    var right := ((1 + e) * (1 + e)) * ((1 - e) * (1 - e)) + D * (ab * ab);
    ClosureDifference(left, right, e, m1 * m2, dm1, dm2, n1 * n2, m1 * m1, m2 * m2,
                      n1 * n1, n2 * n2, f1 * f1, f2 * f2, f1 * f2);
    ClosureVanishes(left, right, e, dm1, dm2, f1, f2, 1 + dm1, 1 + dm2);
  }

  lemma MixedTerms(d: int, m1: int, m2: int)
    ensures (d * (m1 * m2)) * (d * (m1 * m2)) == (d * (m1 * m1)) * (d * (m2 * m2))
    ensures (d * (m1 * m1)) * (m2 * m2) == (d * (m1 * m2)) * (m1 * m2)
    ensures (d * (m2 * m2)) * (m1 * m1) == (d * (m1 * m2)) * (m1 * m2)
  {
    Regroup(m1, m2, m1, m2);
    Regroup(d, m1 * m2, d, m1 * m2);
    Regroup(d, m1 * m1, d, m2 * m2);
    Times(d, m1 * m1, m2 * m2);
    Times(d, m2 * m2, m1 * m1);
    Times(d, m1 * m2, m1 * m2);
  }

  lemma Times(a: int, b: int, c: int)
    ensures (a * b) * c == a * (b * c)
  {
  }

  lemma ScaledCross(d: int, m1: int, n1: int, m2: int, n2: int)
    ensures d * ((m1 * n2 + m2 * n1) * (m1 * n2 + m2 * n1))
         == (d * (m1 * m1)) * (n2 * n2) + (d * (m2 * m2)) * (n1 * n1) + 2 * (d * (m1 * m2)) * (n1 * n2)
  {
    SquareOfCross(m1, n1, m2, n2);
    Times(d, m1 * m1, n2 * n2);
    Times(d, m2 * m2, n1 * n1);
    Times(d, m1 * m2, n1 * n2);
    ThreeTerms(d, (m1 * m1) * (n2 * n2), (m2 * m2) * (n1 * n1), (m1 * m2) * (n1 * n2));
    Times(2, d * (m1 * m2), n1 * n2);
  }

  lemma ThreeTerms(d: int, x: int, y: int, z: int)
    ensures d * (x + y + 2 * z) == d * x + d * y + 2 * (d * z)
  {
  }

  lemma LeftTerm(aa: int, bb: int, e: int)
    ensures bb * ((1 + e) * (1 + e)) - aa * ((1 - e) * (1 - e)) == (bb - aa) * (1 + e * e) + 2 * e * (aa + bb)
  {
  }

  lemma RightTerm(e: int)
    ensures ((1 + e) * (1 + e)) * ((1 - e) * (1 - e)) == (1 - e * e) * (1 - e * e)
  {
    Regroup(1 + e, 1 + e, 1 - e, 1 - e);
  }

  lemma ClosureDifference(left: int, right: int, e: int, w: int, dm1: int, dm2: int, N: int, mm1: int, mm2: int,
                          p1: int, p2: int, g1: int, g2: int, X: int)
    requires e * e == dm1 * dm2 && dm1 * mm2 == e * w && dm2 * mm1 == e * w
    requires p1 == g1 + 4 * mm1 && p2 == g2 + 4 * mm2
    requires left == X * (1 + e * e) + 2 * e * (N + 4 * w)
    requires right == (1 - e * e) * (1 - e * e) + (dm1 * p2 + dm2 * p1 + 2 * e * N)
    ensures left - right == (X - (1 + dm1) * (1 + dm2)) * (1 + e * e) - dm1 * (g2 - (1 + dm2) * (1 + dm2))
                            - dm2 * (g1 - (1 + dm1) * (1 + dm1))
  {
    ClosureIdentity(1 + dm1, 1 + dm2, e, w, dm1, dm2, N, p1, p2, X);
    ScaledDifference(dm1, p2, g2, (1 + dm2) * (1 + dm2), mm2);
    ScaledDifference(dm2, p1, g1, (1 + dm1) * (1 + dm1), mm1);
  }

  lemma ScaledDifference(d: int, p: int, g: int, s: int, m: int)
    requires p == g + 4 * m
    ensures d * (p - s) == d * (g - s) + 4 * (d * m)
  {
  }

  lemma ClosureVanishes(left: int, right: int, e: int, dm1: int, dm2: int, f1: int, f2: int, c1: int, c2: int)
    requires Residue(f1) == Residue(c1) && Residue(f2) == Residue(c2)
    requires left - right == (f1 * f2 - c1 * c2) * (1 + e * e) - dm1 * (f2 * f2 - c2 * c2) - dm2 * (f1 * f1 - c1 * c1)
    ensures Residue(left) == Residue(right)
  {
    ResidueProduct(f1, c1, f2, c2);
    ResidueProduct(f1, c1, f1, c1);
    ResidueProduct(f2, c2, f2, c2);
    ResidueOfDifference(f1 * f2, c1 * c2);
    ResidueOfDifference(f1 * f1, c1 * c1);
    ResidueOfDifference(f2 * f2, c2 * c2);
    ThreeVanish(f1 * f2 - c1 * c2, 1 + e * e, f2 * f2 - c2 * c2, dm1, f1 * f1 - c1 * c1, dm2);
    ResidueOfDifference(left, right);
  }

  lemma ThreeVanish(h0: int, u0: int, h1: int, u1: int, h2: int, u2: int)
    requires Residue(h0) == 0 && Residue(h1) == 0 && Residue(h2) == 0
    ensures Residue(h0 * u0 - u1 * h1 - u2 * h2) == 0
  {
    VanishingCombination(u0, h0, -u1, h1);
    VanishingCombination(1, u0 * h0 + -u1 * h1, -u2, h2);
    assert -u1 * h1 == -(u1 * h1) && -u2 * h2 == -(u2 * h2);
  }

  lemma SquareOfCross(m1: int, n1: int, m2: int, n2: int)
    ensures (m1 * n2 + m2 * n1) * (m1 * n2 + m2 * n1)
            == (m1 * m1) * (n2 * n2) + (m2 * m2) * (n1 * n1) + 2 * ((m1 * m2) * (n1 * n2))
  {
  }

  /** Sums of points on the curve are on the curve. */
  lemma AddIsOnCurve(p: Point, q: Point)
    requires FermatsLittleTheorem()
    requires OnCurve(p) && OnCurve(q)
    ensures OnCurve(Add(p, q))
  {
    var r := Add(p, q);
    assert 0 <= r.x < P && 0 <= r.y < P;
    Denominators(p, q);
    AddEquations(p, q);
    hide FermatsLittleTheorem, CurveEquation, Add;
    Regroup(p.x, q.x, p.y, q.y);
    Regroup(p.x, p.y, q.x, q.y);
    ClosureCongruence(p.x, p.y, q.x, q.y);
    ClearDenominators(r.x, r.y, p.x * q.y + q.x * p.y, p.y * q.y + p.x * q.x, Cross(p, q));
  }

  lemma ClearDenominators(x: int, y: int, a: int, b: int, e: int)
    requires FermatsLittleTheorem()
    requires Residue(1 + e) != 0 && Residue(1 - e) != 0
    requires Residue(x * (1 + e)) == Residue(a) && Residue(y * (1 - e)) == Residue(b)
    requires Residue((b * b) * ((1 + e) * (1 + e)) - (a * a) * ((1 - e) * (1 - e)))
          == Residue(((1 + e) * (1 + e)) * ((1 - e) * (1 - e)) + D * ((a * b) * (a * b)))
    ensures CurveEquation(x, y)
  {
    hide FermatsLittleTheorem;
    SquaredProduct(x, 1 + e, a);
    SquaredProduct(y, 1 - e, b);
    Regroup(a, b, a, b);
    NonZeroProduct(1 + e, 1 + e);
    NonZeroProduct(1 - e, 1 - e);
    EquationFromSquares(x, y, (1 + e) * (1 + e), (1 - e) * (1 - e), a * a, b * b);
  }

  lemma SquaredProduct(x: int, s: int, a: int)
    requires Residue(x * s) == Residue(a)
    ensures Residue((x * x) * (s * s)) == Residue(a * a)
  {
    ResidueProduct(x * s, a, x * s, a);
    Regroup(x, s, x, s);
  }

  lemma EquationFromSquares(x: int, y: int, u: int, v: int, aa: int, bb: int)
    requires FermatsLittleTheorem() && Residue(u) != 0 && Residue(v) != 0
    requires Residue((x * x) * u) == Residue(aa) && Residue((y * y) * v) == Residue(bb)
    requires Residue(bb * u - aa * v) == Residue(u * v + D * (aa * bb))
    ensures CurveEquation(x, y)
  {
    hide FermatsLittleTheorem;
    ScaledEquation(x * x, y * y, u, v, aa, bb);
    NonZeroProduct(u, v);
    CancelFactor(y * y - x * x, 1 + D * (x * x * (y * y)), u * v);
  }

  lemma ScaledEquation(xx: int, yy: int, u: int, v: int, aa: int, bb: int)
    requires Residue(xx * u) == Residue(aa) && Residue(yy * v) == Residue(bb)
    requires Residue(bb * u - aa * v) == Residue(u * v + D * (aa * bb))
    ensures Residue((yy - xx) * (u * v)) == Residue((1 + D * (xx * yy)) * (u * v))
  {
    ResidueProduct(yy * v, bb, u, u);
    ResidueProduct(xx * u, aa, v, v);
    ResidueSum((yy * v) * u, bb * u, (xx * u) * v, aa * v);
    ResidueProduct(xx * u, aa, yy * v, bb);
    ResidueProduct(D, D, (xx * u) * (yy * v), aa * bb);
    ResidueSum(u * v, u * v, D * ((xx * u) * (yy * v)), D * (aa * bb));
    Regroup(xx, u, yy, v);
    assert (yy - xx) * (u * v) == (yy * v) * u - (xx * u) * v by {
      Times(yy, v, u);
      Times(xx, u, v);
    }
    Times(D, xx * yy, u * v);
  }
}
