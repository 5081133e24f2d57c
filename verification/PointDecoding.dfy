/** Points as 32 bytes (RFC 8032, sections 5.1.2 and 5.1.3): the encoding, and the square root that decoding takes. */
module PointDecoding {
  import opened Words
  import opened Bits
  import opened Residues
  import opened Curve
  import opened FieldBytes

  /** The y coordinate with the lowest bit of x in the top bit. */
  ghost function Encode(p: Point): int {
    p.y + TWO255 * (p.x % 2)
  }

  /** The points that decoding may return: y is not required to be below P, and x = 0 goes with any sign. */
  ghost predicate Decodes(s: seq<byte>, p: Point)
    requires |s| == 32
  {
    OnCurve(p) && p.y == Residue(LowBits(s)) && (p.x != 0 ==> p.x % 2 == s[31] as int / 128)
  }

  /** The curve equation solved for x^2. */
  lemma SolvedForX(x: int, y: int)
    ensures CurveEquation(x, y) <==> Residue((D * (y * y) + 1) * (x * x)) == Residue(y * y - 1)
  {
    ResidueOfDifference(y * y - x * x, 1 + D * (x * x * (y * y)));
    ResidueOfDifference((D * (y * y) + 1) * (x * x), y * y - 1);
    var n := y * y - x * x - (1 + D * (x * x * (y * y)));
    SolvedIdentity(D, x * x, y * y);
    assert (D * (y * y) + 1) * (x * x) - (y * y - 1) == -n;
    ResidueOfDifference(0, n);
    SmallResidue(0);
    if Residue(n) == 0 {
      ResidueProduct(-1, -1, n, 0);
    }
    if Residue(-n) == 0 {
      ResidueProduct(-1, -1, -n, 0);
    }
  }

  lemma SolvedIdentity(d: int, xx: int, yy: int)
    ensures (d * yy + 1) * xx - (yy - 1) == -(yy - xx - (1 + d * (xx * yy)))
  {
  }

  /** The denominator of x^2 never vanishes, because -1 is a square and d is not. */
  lemma DenominatorIsUnit(y: int)
    requires FermatsLittleTheorem()
    ensures Residue(D * (y * y) + 1) != 0
  {
    hide FermatsLittleTheorem;
    if Residue(D * (y * y) + 1) == 0 {
      ResidueOfDifference(D * (y * y), -1);
      var i := RootOfMinusOne();
      DTimesSquare(y, i);
      SmallResidue(0);
      ResidueProduct(y, 0, y, 0);
      ResidueProduct(D, D, y * y, 0);
      MinusOne();
      assert false;
    }
  }

  /** Points on the curve with the same y coordinate have opposite x coordinates. */
  lemma SameY(p: Point, q: Point)
    requires FermatsLittleTheorem()
    requires OnCurve(p) && OnCurve(q) && p.y == q.y
    ensures q.x == p.x || q.x == Residue(-p.x)
  {
    SmallResidue(p.x);
    SmallResidue(q.x);
    hide FermatsLittleTheorem, CurveEquation;
    OppositeRoots(p.x, q.x, p.y);
  }

  lemma OppositeRoots(x: int, x': int, y: int)
    requires FermatsLittleTheorem()
    requires CurveEquation(x, y) && CurveEquation(x', y)
    ensures Residue(x') == Residue(x) || Residue(x') == Residue(-x)
  {
    hide FermatsLittleTheorem, CurveEquation;
    SolvedForX(x, y);
    SolvedForX(x', y);
    DenominatorIsUnit(y);
    CancelSquares(x, x', D * (y * y) + 1, y * y - 1);
  }

  lemma CancelSquares(x: int, x': int, v: int, u: int)
    requires FermatsLittleTheorem()
    requires Residue(v) != 0 && Residue(v * (x * x)) == Residue(u) && Residue(v * (x' * x')) == Residue(u)
    ensures Residue(x') == Residue(x) || Residue(x') == Residue(-x)
  {
    hide FermatsLittleTheorem;
    Commute(v, x * x);
    Commute(v, x' * x');
    CancelFactor(x' * x', x * x, v);
    EqualSquares(x', x);
  }

  lemma Commute(a: int, b: int)
    ensures a * b == b * a
  {
  }

  /** P is odd, so a residue and its opposite differ in parity unless both are zero. */
  lemma OppositeParity(x: int)
    requires 0 <= x < P
    ensures Residue(-x) == if x == 0 then 0 else P - x
    ensures x != 0 ==> Residue(-x) % 2 == 1 - x % 2
  {
    SmallResidue(0);
    if x != 0 {
      ResidueOfMultiple(-x, P - x, -1);
      SmallResidue(P - x);
    }
  }

  /** A string decodes to at most one point. */
  lemma DecodesIsUnique(s: seq<byte>, p: Point, q: Point)
    requires FermatsLittleTheorem()
    requires |s| == 32 && Decodes(s, p) && Decodes(s, q)
    ensures p == q
  {
    hide FermatsLittleTheorem, CurveEquation;
    SameY(p, q);
    OppositeParity(p.x);
  }

  /** Decoding undoes encoding: the string of a point decodes to that point and to no other. */
  lemma DecodeEncode(p: Point, s: seq<byte>, q: Point)
    requires FermatsLittleTheorem()
    requires OnCurve(p) && |s| == 32 && Le(s) == Encode(p)
    ensures Decodes(s, q) <==> q == p
  {
    hide FermatsLittleTheorem, CurveEquation, Le;
    SplitTopBit(s);
    QuotientIsUnique(TWO255, p.x % 2, p.y, s[31] as int / 128, LowBits(s));
    SmallResidue(p.y);
    assert Decodes(s, p);
    if Decodes(s, q) {
      DecodesIsUnique(s, p, q);
    }
  }

  /** The places of the coordinates in an encoding: y in the low 255 bits, the parity of x in the top bit. */
  lemma EncodedByPlaces(p: Point, s: seq<byte>)
    requires OnCurve(p) && |s| == 32
    ensures Le(s) == Encode(p) <==> LowBits(s) == p.y && s[31] as int / 128 == p.x % 2
  {
    hide CurveEquation, Le;
    SplitTopBit(s);
    if Le(s) == Encode(p) {
      QuotientIsUnique(TWO255, p.x % 2, p.y, s[31] as int / 128, LowBits(s));
    }
  }

  /** On the curve, x is 0 exactly where y is 1 or -1. */
  lemma ZeroX(p: Point)
    requires FermatsLittleTheorem() && OnCurve(p)
    ensures p.x == 0 <==> p.y == 1 || p.y == P - 1
  {
    hide FermatsLittleTheorem, CurveEquation;
    var v, u := D * (p.y * p.y) + 1, p.y * p.y - 1;
    SolvedForX(p.x, p.y);
    DenominatorIsUnit(p.y);
    SmallResidue(0);
    SmallResidue(p.x);
    RootsOfOne(p.y);
    assert Residue(v * (p.x * p.x)) == Residue(u);
    if p.x == 0 {
      assert v * (p.x * p.x) == 0;
    }
    if Residue(u) == 0 {
      ZeroProduct(v, p.x * p.x);
      ZeroProduct(p.x, p.x);
    }
  }

  lemma RootsOfOne(y: int)
    requires FermatsLittleTheorem() && 0 <= y < P
    ensures Residue(y * y - 1) == 0 <==> y == 1 || y == P - 1
  {
    hide FermatsLittleTheorem;
    SmallResidue(y);
    SmallResidue(1);
    MinusOne();
    ResidueOfDifference(y * y, 1);
    if Residue(y * y) == 1 {
      EqualSquares(y, 1);
    }
    if y == P - 1 {
      ResidueProduct(y, -1, y, -1);
    }
  }

  /** Encoding undoes decoding exactly for the strings that section 5.1.3 of RFC 8032 accepts. */
  lemma EncodeDecode(s: seq<byte>, q: Point)
    requires FermatsLittleTheorem()
    requires |s| == 32 && Decodes(s, q)
    ensures Le(s) == Encode(q) <==> LowBits(s) < P && (LowBits(s) == 1 || LowBits(s) == P - 1 ==> s[31] < 128)
  {
    hide FermatsLittleTheorem, CurveEquation;
    SplitTopBit(s);
    ZeroX(q);
    hide Le, LowBits;
    if LowBits(s) < P {
      SmallResidue(LowBits(s));
    }
    if Le(s) == Encode(q) {
      QuotientIsUnique(TWO255, q.x % 2, q.y, s[31] as int / 128, LowBits(s));
    }
  }

  /** The bytes of P + 1, and those of 1 with the sign bit set: both decode to the neutral point. */
  ghost predicate IsPPlusOne(s: seq<byte>) {
    |s| == 32 && s[0] == 0xee && s[31] == 0x7f && forall i :: 0 < i < 31 ==> s[i] == 0xff
  }

  ghost predicate IsNegativeZero(s: seq<byte>) {
    |s| == 32 && s[0] == 1 && s[31] == 0x80 && forall i :: 0 < i < 31 ==> s[i] == 0
  }

  lemma DecodesToZero(s: seq<byte>, top: byte)
    requires |s| == 32 && s[31] == top
    requires (Le(s) == P + 1 && top == 0x7f) || (Le(s) == TWO255 + 1 && top == 0x80)
    ensures Decodes(s, ZERO) && Le(s) != Encode(ZERO)
  {
    SplitTopBit(s);
    hide Le, LowBits;
    ZeroIsOnCurve();
    hide CurveEquation;
    ResidueOfMultiple(P + 1, 1, 1);
    SmallResidue(1);
  }

  lemma DecodedBeyondP(s: seq<byte>)
    requires IsPPlusOne(s)
    ensures Decodes(s, ZERO) && Le(s) != Encode(ZERO)
  {
    LeOf32(s);
    hide Le, Decodes;
    DecodesToZero(s, 0x7f);
  }

  lemma DecodedNegativeZero(s: seq<byte>)
    requires IsNegativeZero(s)
    ensures Decodes(s, ZERO) && Le(s) != Encode(ZERO)
  {
    LeOf32(s);
    hide Le, Decodes;
    DecodesToZero(s, 0x80);
  }

  // ----- the square root

  /** With w = u v^7 and x = u v^3 w^((P - 5) / 8), v x^2 = u w^((P - 1) / 4). */
  lemma Candidate(u: int, v: int, v3: int, w: int, z: int, x: int)
    requires Residue(v3) == Residue(v * v * v) && Residue(w) == Residue(v3 * v3 * v * u)
    requires Residue(z) == Residue(Pow(w, (P - 5) / 8)) && Residue(x) == Residue(z * v3 * u)
    ensures Residue(v * (x * x)) == Residue(u * Pow(w, (P - 1) / 4))
  {
    hide Pow;
    var e: nat := (P - 5) / 8;
    ResidueProduct(x, z * v3 * u, x, z * v3 * u);
    ResidueProduct(v, v, x * x, (z * v3 * u) * (z * v3 * u));
    CandidateTerms(u, v, v3, z);
    ResidueProduct(z, Pow(w, e), z, Pow(w, e));
    ResidueProduct(z * z, Pow(w, e) * Pow(w, e), v3 * v3 * v * u, w);
    ResidueProduct(u, u, z * z * (v3 * v3 * v * u), Pow(w, e) * Pow(w, e) * w);
    PowSum(w, e, e);
    PowSum(w, e + e, 1);
    SmallPowers(w);
    assert e + e + 1 == (P - 1) / 4;
  }

  lemma CandidateTerms(u: int, v: int, v3: int, z: int)
    ensures v * ((z * v3 * u) * (z * v3 * u)) == u * (z * z * (v3 * v3 * v * u))
  {
    var a := v3 * u;
    assert z * v3 * u == z * a;
    assert (z * a) * (z * a) == (z * z) * (a * a);
    assert a * a == v3 * v3 * (u * u);
    assert v3 * v3 * v * u == (v3 * v3) * (v * u);
    CandidateProduct(u, v, v3 * v3, z * z);
  }

  lemma CandidateProduct(u: int, v: int, b: int, zz: int)
    ensures v * (zz * (b * (u * u))) == u * (zz * (b * (v * u)))
  {
    var n := b * u;
    assert b * (u * u) == n * u && b * (v * u) == n * v;
    assert v * (zz * (n * u)) == u * (zz * (n * v));
  }

  /** The quarter power of a unit is 1, -1 or, up to sign, the square root of -1. */
  lemma QuarterPower(w: int)
    requires FermatsLittleTheorem()
    requires Residue(w) != 0
    ensures var c := Pow(w, (P - 1) / 4);
            Residue(c) == 1 || Residue(c) == Residue(-1) || Residue(c * c) == Residue(-1)
    ensures Residue(Pow(w, (P - 1) / 4) * Pow(w, (P - 1) / 4)) == Residue(Pow(w, (P - 1) / 2))
  {
    var e: nat := (P - 1) / 4;
    var c := Pow(w, e);
    assert Residue(Pow(w, P - 1)) == 1;
    SmallResidue(1);
    hide Pow, FermatsLittleTheorem;
    PowSum(w, e, e);
    PowSum(w, e + e, e + e);
    assert e + e == (P - 1) / 2 && e + e + (e + e) == P - 1;
    assert (c * c) * (c * c) == Pow(w, P - 1);
    EqualSquares(c * c, 1);
    if Residue(c * c) == 1 {
      EqualSquares(c, 1);
    }
  }

  /** If u / v has a root, the half power of u v^7 is 1. */
  lemma HalfPowerOfSquare(u: int, v: int, v3: int, w: int, x: int)
    requires FermatsLittleTheorem()
    requires Residue(u) != 0 && Residue(v * (x * x)) == Residue(u)
    requires Residue(v3) == Residue(v * v * v) && Residue(w) == Residue(v3 * v3 * v * u)
    ensures Residue(Pow(w, (P - 1) / 2)) == 1
  {
    var t, e: nat := v3 * (v * x), (P - 1) / 2;
    hide Pow, FermatsLittleTheorem;
    ResidueProduct(v3 * v3 * v, v3 * v3 * v, v * (x * x), u);
    assert v3 * v3 * v * (v * (x * x)) == t * t by {
      assert v3 * v3 * v * (v * (x * x)) == (v3 * v3) * (v * (v * (x * x)));
      assert v * (v * (x * x)) == (v * x) * (v * x);
      Regroup(v3, v * x, v3, v * x);
    }
    ResiduePow(w, t * t, e);
    PowOfProduct(t, t, e);
    PowSum(t, e, e);
    assert e + e == P - 1;
    RootIsUnit(u, v, v3, x);
    FermatPower(t);
  }

  lemma RootIsUnit(u: int, v: int, v3: int, x: int)
    requires FermatsLittleTheorem()
    requires Residue(u) != 0 && Residue(v * (x * x)) == Residue(u) && Residue(v3) == Residue(v * v * v)
    ensures Residue(v3 * (v * x)) != 0
  {
    SmallResidue(0);
    hide FermatsLittleTheorem;
    assert v * x * x == v * (x * x);
    if Residue(v * x) == 0 {
      ResidueProduct(v * x, 0, x, x);
      assert false;
    }
    if Residue(v) == 0 {
      ResidueProduct(v, 0, x, x);
      assert false;
    }
    NonZeroProduct(v, v);
    NonZeroProduct(v * v, v);
    NonZeroProduct(v3, v * x);
  }

  /** Unless the candidate or its product with a root of -1 is a root, no point has this y coordinate. */
  lemma NoRoot(y: int, u: int, v: int, v3: int, w: int, z: int, x: int)
    requires FermatsLittleTheorem()
    requires Residue(u) == Residue(y * y - 1) && Residue(v) == Residue(D * (y * y) + 1)
    requires Residue(v3) == Residue(v * v * v) && Residue(w) == Residue(v3 * v3 * v * u)
    requires Residue(z) == Residue(Pow(w, (P - 5) / 8)) && Residue(x) == Residue(z * v3 * u)
    requires Residue(v * (x * x)) != Residue(u) && Residue(v * (x * x)) != Residue(-u)
    ensures forall x' :: !CurveEquation(x', y)
  {
    hide Pow, FermatsLittleTheorem, CurveEquation;
    forall x' ensures !CurveEquation(x', y) {
      if CurveEquation(x', y) {
        EquationOfRoot(x', y, u, v);
        NeitherRoot(y, u, v, v3, w, z, x, x');
        assert false;
      }
    }
  }

  /** A number is the x coordinate for y exactly when it is a root of u / v. */
  lemma EquationOfRoot(x: int, y: int, u: int, v: int)
    requires Residue(u) == Residue(y * y - 1) && Residue(v) == Residue(D * (y * y) + 1)
    ensures CurveEquation(x, y) <==> Residue(v * (x * x)) == Residue(u)
  {
    hide CurveEquation;
    SolvedForX(x, y);
    ResidueProduct(v, D * (y * y) + 1, x * x, x * x);
  }

  /** A root of -u / v becomes one of u / v when it is multiplied by a root of -1. */
  lemma TimesRootOfMinusOne(x: int, u: int, v: int, i: int, xi: int)
    requires Residue(v * (x * x)) == Residue(-u)
    requires Residue(i * i) == Residue(-1) && Residue(xi) == Residue(x * i)
    ensures Residue(v * (xi * xi)) == Residue(u)
  {
    ResidueProduct(xi, x * i, xi, x * i);
    ResidueProduct(v, v, xi * xi, (x * i) * (x * i));
    ResidueProduct(v * (x * x), -u, i * i, -1);
    Regroup(x, i, x, i);
    Times(v, x * x, i * i);
    assert -u * -1 == u;
  }

  /** The residues that the decoder compares with zero. */
  lemma RootTests(u: int, v: int, x: int, xx: int, vxx: int)
    requires Residue(xx) == Residue(x * x) && Residue(vxx) == Residue(xx * v)
    ensures Residue(vxx - u) == 0 <==> Residue(v * (x * x)) == Residue(u)
    ensures Residue(vxx + u) == 0 <==> Residue(v * (x * x)) == Residue(-u)
  {
    ResidueProduct(xx, x * x, v, v);
    ResidueOfDifference(vxx, u);
    ResidueOfDifference(vxx, -u);
  }

  lemma NeitherRoot(y: int, u: int, v: int, v3: int, w: int, z: int, x: int, x': int)
    requires FermatsLittleTheorem()
    requires Residue(v) == Residue(D * (y * y) + 1)
    requires Residue(v3) == Residue(v * v * v) && Residue(w) == Residue(v3 * v3 * v * u)
    requires Residue(z) == Residue(Pow(w, (P - 5) / 8)) && Residue(x) == Residue(z * v3 * u)
    requires Residue(v * (x' * x')) == Residue(u)
    ensures Residue(v * (x * x)) == Residue(u) || Residue(v * (x * x)) == Residue(-u)
  {
    SmallResidue(0);
    SmallResidue(1);
    MinusOne();
    hide Pow, FermatsLittleTheorem;
    var c := Pow(w, (P - 1) / 4);
    Candidate(u, v, v3, w, z, x);
    if Residue(u) == 0 {
      ResidueProduct(u, 0, c, c);
    } else {
      HalfPowerOfSquare(u, v, v3, w, x');
      DenominatorIsUnit(y);
      NonZeroProduct(v, v);
      NonZeroProduct(v * v, v);
      NonZeroProduct(v3, v3);
      NonZeroProduct(v3 * v3, v);
      NonZeroProduct(v3 * v3 * v, u);
      QuarterPower(w);
      if Residue(c) == 1 {
        ResidueProduct(u, u, c, 1);
      } else {
        ResidueProduct(u, u, c, -1);
        assert u * -1 == -u;
      }
    }
  }

  /** The sign bit selects between a root and its opposite. */
  lemma SignedRoot(s: seq<byte>, x: int, y: int, negate: bool)
    requires |s| == 32 && Residue(y) == Residue(LowBits(s)) && CurveEquation(x, y)
    requires negate <==> Residue(x) % 2 != s[31] as int / 128
    ensures Decodes(s, Point(Residue(if negate then -x else x), Residue(y)))
  {
    hide CurveEquation, LowBits;
    ResidueTwice(x);
    ResidueTwice(-x);
    ResidueTwice(y);
    OppositeParity(Residue(x));
    ResidueProduct(-1, -1, Residue(x), x);
    assert -1 * x == -x && -1 * Residue(x) == -Residue(x);
    EquationOfCongruent(x, y, Residue(x), Residue(y));
    EquationOfCongruent(x, y, Residue(-x), Residue(y));
  }

  lemma EquationOfCongruent(x: int, y: int, x': int, y': int)
    requires CurveEquation(x, y) && Residue(y) == Residue(y')
    requires Residue(x') == Residue(x) || Residue(x') == Residue(-x)
    ensures CurveEquation(x', y')
  {
    if Residue(x') == Residue(x) {
      ResidueProduct(x', x, x', x);
    } else {
      ResidueProduct(x', -x, x', -x);
      assert -x * -x == x * x;
    }
    ResidueProduct(y, y', y, y');
    ResidueSum(y' * y', y * y, x' * x', x * x);
    ResidueProduct(x' * x', x * x, y' * y', y * y);
    ResidueProduct(D, D, x' * x' * (y' * y'), x * x * (y * y));
    ResidueSum(1, 1, D * (x' * x' * (y' * y')), D * (x * x * (y * y)));
  }

  lemma NoPoint(s: seq<byte>, y: int)
    requires |s| == 32 && Residue(y) == Residue(LowBits(s))
    requires forall x :: !CurveEquation(x, y)
    ensures forall p :: !Decodes(s, p)
  {
    hide CurveEquation, LowBits;
    forall p ensures !Decodes(s, p) {
      if Decodes(s, p) {
        ResidueTwice(y);
        EquationOfCongruent(p.x, p.y, p.x, y);
        assert false;
      }
    }
  }
}
