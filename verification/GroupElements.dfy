/** The point structures of the Go code, updated in place, and the group operations on them.

    Each structure holds arrays of limbs.  Its predicate `Is` says which affine point the arrays represent and how large
    the limbs may be; every operation keeps the limbs within the range that the next one needs.
 */
module GroupElements {
  import opened Bits
  import opened Words
  import opened Residues
  import opened FieldElements
  import opened FieldProducts
  import opened FieldBytes
  import opened FieldPowers
  import opened Curve
  import opened PointCoordinates
  import opened PointDecoding
  import opened LimbVectors

  /** Size of an x coordinate whose sign has been examined; those limbs are in 0..2^26 and 0..2^25. */
  const EXAMINED: nat := 0x400_0000

  // ----- constants

  const LIMBS_OF_D: seq<int32> :=
    [-10913610, 13857413, -15372611, 6949391, 114729, -8787816, -6275908, -3247719, -18696448, -12055116]

  const LIMBS_OF_2D: seq<int32> :=
    [-21827239, -5839606, -30745221, 13898782, 229458, 15978800, -12551817, -6495438, 29715968, 9444199]

  const SQRT_M1: seq<int32> :=
    [-32595792, -7943725, 9377950, 3500415, 12389472, -272473, -25146209, -2005654, 326686, 11406482]

  lemma ConstantsAreCarried()
    ensures Size(LIMBS_OF_D) <= CARRIED && Size(LIMBS_OF_2D) <= CARRIED && Size(SQRT_M1) <= CARRIED
  {
  }

  lemma ConstantValues()
    ensures Residue(Val(LIMBS_OF_D)) == D && Residue(Val(LIMBS_OF_2D)) == Residue(2 * D)
    ensures Residue(Val(SQRT_M1) * Val(SQRT_M1)) == Residue(-1)
  {
    ValueOfD();
    ResidueIsRemainder(Val(LIMBS_OF_D));
    ResidueIsRemainder(Val(LIMBS_OF_2D));
    ResidueIsRemainder(2 * D);
    ResidueIsRemainder(Val(SQRT_M1) * Val(SQRT_M1));
    ResidueIsRemainder(-1);
  }

  method Constant(limbs: seq<int32>) returns (a: array<int32>)
    requires |limbs| == 10
    ensures fresh(a) && a.Length == 10 && a[..] == limbs
  {
    a := new int32[10](i requires 0 <= i < 10 => limbs[i]);
  }

  // The body of the two methods ToBytes.
  method WriteAffine(s: array<byte>, X: array<int32>, Y: array<int32>, Z: array<int32>, ghost p: Point)
    requires FermatsLittleTheorem()
    requires s.Length == 32 && X.Length == Y.Length == Z.Length == 10
    requires Size(X[..]) <= EXAMINED && Size(Y[..]) <= CARRIED && Size(Z[..]) <= CARRIED
    requires IsProjective(Val(X[..]), Val(Y[..]), Val(Z[..]), p) && OnCurve(p)
    modifies s
    ensures Le(s[..]) == Encode(p)
  {
    hide Val, Size, Inverse, FermatsLittleTheorem, CurveEquation, Le;
    var recip, x, y := new int32[10], new int32[10], new int32[10];
    FeInvert(recip, Z);
    FeMul(x, X, recip);
    FeMul(y, Y, recip);
    ghost var Z1, i := Val(Z[..]), Val(recip[..]);
    SmallResidue(Inverse(Z1));
    AffineCoordinate(p.x, Val(X[..]), Z1, i, Val(x[..]));
    AffineCoordinate(p.y, Val(Y[..]), Z1, i, Val(y[..]));
    FeToBytes(s, y);
    ghost var low := s[..];
    var sign := FeIsNegative(x);
    SetTopBit(low, p.y, sign);
    s[31] := ByteOf(Xor(s[31] as int, sign as int * 0x80));
    assert s[..] == low[31 := s[31]];
  }

  /** A number below 2^255 leaves the top bit of its 32 bytes free. */
  lemma SetTopBit(s: seq<byte>, n: int, sign: byte)
    requires |s| == 32 && Le(s) == n < TWO255 && sign < 2
    ensures var top := ByteOf(Xor(s[31] as int, sign as int * 0x80));
            Le(s[31 := top]) == n + TWO255 * sign as int
  {
    hide Le, Xor, LowBits;
    SplitTopBit(s);
    QuotientIsUnique(TWO255, 0, n, s[31] as int / 128, LowBits(s));
    PowersOfTwo();
    XorDisjoint(s[31] as int, sign as int, 7);
    ReplaceTopByte(s, ByteOf(Xor(s[31] as int, sign as int * 0x80)));
  }

  lemma ReplaceTopByte(s: seq<byte>, top: byte)
    requires |s| == 32
    ensures Le(s[31 := top]) == Le(s) + 0x100_0000_0000_0000_0000_0000_0000_0000_0000_0000_0000_0000_0000_0000_0000_0000
                                        * (top as int - s[31] as int)
  {
    hide Le, Word64;
    LeOf32(s);
    LeOf32(s[31 := top]);
    ReplaceInWord(s, top);
  }

  lemma ReplaceInWord(s: seq<byte>, top: byte)
    requires |s| == 32
    ensures var t := s[31 := top];
            && Word64(t, 0) == Word64(s, 0) && Word64(t, 8) == Word64(s, 8) && Word64(t, 16) == Word64(s, 16)
            && Word64(t, 24) == Word64(s, 24) + 0x100_0000_0000_0000 * (top as int - s[31] as int)
  {
  }

  // ----- structures

  class ProjectiveGroupElement {
    const X: array<int32>
    const Y: array<int32>
    const Z: array<int32>

    ghost predicate Valid() {
      X.Length == Y.Length == Z.Length == 10 && X != Y && X != Z && Y != Z
    }

    ghost predicate Is(p: Point)
      requires Valid()
      reads X, Y, Z
    {
      && IsProjective(Val(X[..]), Val(Y[..]), Residue(Val(Z[..])), p)
      && Size(X[..]) <= EXAMINED && Size(Y[..]) <= CARRIED && Size(Z[..]) <= CARRIED
    }

    constructor ()
      ensures Valid() && fresh(X) && fresh(Y) && fresh(Z)
    {
      X := new int32[10];
      Y := new int32[10];
      Z := new int32[10];
    }

    method Zero()
      requires Valid()
      modifies X, Y, Z
      ensures Is(ZERO)
    {
      hide Val, Size;
      SmallResidue(0);
      SmallResidue(1);
      FeZero(X);
      FeOne(Y);
      FeOne(Z);
    }

    method Double(r: CompletedGroupElement, ghost p: Point)
      requires FermatsLittleTheorem()
      requires Valid() && r.Valid() && {X, Y, Z} !! {r.X, r.Y, r.Z, r.T}
      requires Is(p) && OnCurve(p)
      modifies r.X, r.Y, r.Z, r.T
      ensures r.Is(Add(p, p))
    {
      hide Val, Size, IsProjective, FermatsLittleTheorem, OnCurve, Add, IsCompleted;
      var t0 := new int32[10];
      ghost var X1, Y1, Z1 := Val(X[..]), Val(Y[..]), Val(Z[..]);
      FeSquare(r.X, X);
      FeSquare(r.Z, Y);
      FeSquare2(r.T, Z);
      FeAdd(r.Y, X, Y);
      FeSquare(t0, r.Y);
      ghost var XX, YY, B, AA := Val(r.X[..]), Val(r.Z[..]), Val(r.T[..]), Val(t0[..]);
      FeAdd(r.Y, r.Z, r.X);
      FeSub(r.Z, r.Z, r.X);
      FeSub(r.X, t0, r.Y);
      FeSub(r.T, r.T, r.Z);
      ProjectiveByResidue(X1, Y1, Z1, p);
      DoubleFormulas(p, X1, Y1, Z1, XX, YY, B, AA);
      CompletedByResidue(Val(r.X[..]), Val(r.Y[..]), Val(r.Z[..]), Val(r.T[..]), Add(p, p));
    }

    method ToBytes(s: array<byte>, ghost p: Point)
      requires FermatsLittleTheorem()
      requires Valid() && s.Length == 32
      requires Is(p) && OnCurve(p)
      modifies s
      ensures Le(s[..]) == Encode(p)
    {
      hide Val, Size, IsProjective, FermatsLittleTheorem, CurveEquation;
      ProjectiveByResidue(Val(X[..]), Val(Y[..]), Val(Z[..]), p);
      WriteAffine(s, X, Y, Z, p);
    }
  }

  class CompletedGroupElement {
    const X: array<int32>
    const Y: array<int32>
    const Z: array<int32>
    const T: array<int32>

    ghost predicate Valid() {
      && X.Length == Y.Length == Z.Length == T.Length == 10
      && X != Y && X != Z && X != T && Y != Z && Y != T && Z != T
    }

    ghost predicate Is(p: Point)
      requires Valid()
      reads X, Y, Z, T
    {
      && IsCompleted(Val(X[..]), Val(Y[..]), Residue(Val(Z[..])), Residue(Val(T[..])), p)
      && Size(X[..]) <= LIMIT && Size(Y[..]) <= LIMIT && Size(Z[..]) <= LIMIT && Size(T[..]) <= LIMIT
    }

    constructor ()
      ensures Valid() && fresh(X) && fresh(Y) && fresh(Z) && fresh(T)
    {
      X := new int32[10];
      Y := new int32[10];
      Z := new int32[10];
      T := new int32[10];
    }

    method ToProjective(r: ProjectiveGroupElement, ghost p: Point)
      requires FermatsLittleTheorem()
      requires Valid() && r.Valid() && {X, Y, Z, T} !! {r.X, r.Y, r.Z}
      requires Is(p)
      modifies r.X, r.Y, r.Z
      ensures r.Is(p)
    {
      hide Val, Size, IsProjective, IsCompleted, FermatsLittleTheorem;
      FeMul(r.X, X, T);
      FeMul(r.Y, Y, Z);
      FeMul(r.Z, Z, T);
      ghost var X1, Y1, Z1, T1 := Val(X[..]), Val(Y[..]), Val(Z[..]), Val(T[..]);
      CompletedByResidue(X1, Y1, Z1, T1, p);
      CompletedToExtended(X1, Y1, Z1, T1, Val(r.X[..]), Val(r.Y[..]), Val(r.Z[..]), X1 * Y1, p);
      ProjectiveByResidue(Val(r.X[..]), Val(r.Y[..]), Val(r.Z[..]), p);
    }

    method ToExtended(r: ExtendedGroupElement, ghost p: Point)
      requires FermatsLittleTheorem()
      requires Valid() && r.Valid() && {X, Y, Z, T} !! {r.X, r.Y, r.Z, r.T}
      requires Is(p)
      modifies r.X, r.Y, r.Z, r.T
      ensures r.Is(p)
    {
      hide Val, Size, IsExtended, IsCompleted, FermatsLittleTheorem;
      FeMul(r.X, X, T);
      FeMul(r.Y, Y, Z);
      FeMul(r.Z, Z, T);
      FeMul(r.T, X, Y);
      ghost var X1, Y1, Z1, T1 := Val(X[..]), Val(Y[..]), Val(Z[..]), Val(T[..]);
      CompletedByResidue(X1, Y1, Z1, T1, p);
      CompletedToExtended(X1, Y1, Z1, T1, Val(r.X[..]), Val(r.Y[..]), Val(r.Z[..]), Val(r.T[..]), p);
      ExtendedByResidue(Val(r.X[..]), Val(r.Y[..]), Val(r.Z[..]), Val(r.T[..]), p);
    }
  }

  class CachedGroupElement {
    const yPlusX: array<int32>
    const yMinusX: array<int32>
    const Z: array<int32>
    const T2d: array<int32>

    ghost predicate Valid() {
      && yPlusX.Length == yMinusX.Length == Z.Length == T2d.Length == 10
      && yPlusX != yMinusX && yPlusX != Z && yPlusX != T2d && yMinusX != Z && yMinusX != T2d && Z != T2d
    }

    ghost predicate Is(p: Point)
      requires Valid()
      reads yPlusX, yMinusX, Z, T2d
    {
      && IsCached(Val(yPlusX[..]), Val(yMinusX[..]), Residue(Val(Z[..])), Val(T2d[..]), p)
      && Size(yPlusX[..]) <= LIMIT && Size(yMinusX[..]) <= LIMIT && Size(Z[..]) <= CARRIED && Size(T2d[..]) <= CARRIED
    }

    constructor ()
      ensures Valid() && fresh(yPlusX) && fresh(yMinusX) && fresh(Z) && fresh(T2d)
    {
      yPlusX := new int32[10];
      yMinusX := new int32[10];
      Z := new int32[10];
      T2d := new int32[10];
    }
  }

  class PreComputedGroupElement {
    const yPlusX: array<int32>
    const yMinusX: array<int32>
    const xy2d: array<int32>

    ghost predicate Valid() {
      yPlusX.Length == yMinusX.Length == xy2d.Length == 10 && yPlusX != yMinusX && yPlusX != xy2d && yMinusX != xy2d
    }

    ghost predicate Is(p: Point)
      requires Valid()
      reads yPlusX, yMinusX, xy2d
    {
      && IsCached(Val(yPlusX[..]), Val(yMinusX[..]), 1, Val(xy2d[..]), p)
      && Size(yPlusX[..]) <= CARRIED && Size(yMinusX[..]) <= CARRIED && Size(xy2d[..]) <= CARRIED
    }

    constructor ()
      ensures Valid() && fresh(yPlusX) && fresh(yMinusX) && fresh(xy2d)
    {
      yPlusX := new int32[10];
      yMinusX := new int32[10];
      xy2d := new int32[10];
    }

    method Zero()
      requires Valid()
      modifies yPlusX, yMinusX, xy2d
      ensures Is(ZERO)
    {
      hide Val, Size;
      SmallResidue(0);
      SmallResidue(1);
      FeOne(yPlusX);
      FeOne(yMinusX);
      FeZero(xy2d);
    }
  }

  class ExtendedGroupElement {
    const X: array<int32>
    const Y: array<int32>
    const Z: array<int32>
    const T: array<int32>

    ghost predicate Valid() {
      && X.Length == Y.Length == Z.Length == T.Length == 10
      && X != Y && X != Z && X != T && Y != Z && Y != T && Z != T
    }

    ghost predicate Is(p: Point)
      requires Valid()
      reads X, Y, Z, T
    {
      && IsExtended(Val(X[..]), Val(Y[..]), Residue(Val(Z[..])), Val(T[..]), p)
      && Size(X[..]) <= EXAMINED && Size(Y[..]) <= CARRIED && Size(Z[..]) <= CARRIED && Size(T[..]) <= CARRIED
    }

    constructor ()
      ensures Valid() && fresh(X) && fresh(Y) && fresh(Z) && fresh(T)
    {
      X := new int32[10];
      Y := new int32[10];
      Z := new int32[10];
      T := new int32[10];
    }

    method Zero()
      requires Valid()
      modifies X, Y, Z, T
      ensures Is(ZERO)
    {
      hide Val, Size;
      SmallResidue(0);
      SmallResidue(1);
      FeZero(X);
      FeOne(Y);
      FeOne(Z);
      FeZero(T);
    }

    method ToProjective(r: ProjectiveGroupElement, ghost p: Point)
      requires Valid() && r.Valid() && {X, Y, Z, T} !! {r.X, r.Y, r.Z}
      requires Is(p)
      modifies r.X, r.Y, r.Z
      ensures r.Is(p)
    {
      hide Val, Size, IsProjective;
      FeCopy(r.X, X);
      FeCopy(r.Y, Y);
      FeCopy(r.Z, Z);
    }

    method Double(r: CompletedGroupElement, ghost p: Point)
      requires FermatsLittleTheorem()
      requires Valid() && r.Valid() && {X, Y, Z, T} !! {r.X, r.Y, r.Z, r.T}
      requires Is(p) && OnCurve(p)
      modifies r.X, r.Y, r.Z, r.T
      ensures r.Is(Add(p, p))
    {
      hide Val, Size, IsExtended, IsProjective, IsCompleted, FermatsLittleTheorem, OnCurve, Add;
      var q := new ProjectiveGroupElement();
      ToProjective(q, p);
      q.Double(r, p);
    }

    method ToBytes(s: array<byte>, ghost p: Point)
      requires FermatsLittleTheorem()
      requires Valid() && s.Length == 32
      requires Is(p) && OnCurve(p)
      modifies s
      ensures Le(s[..]) == Encode(p)
    {
      hide Val, Size, Inverse, FermatsLittleTheorem, CurveEquation;
      ProjectiveByResidue(Val(X[..]), Val(Y[..]), Val(Z[..]), p);
      WriteAffine(s, X, Y, Z, p);
    }

    // u = y^2 - 1 and v = d y^2 + 1.
    method EquationTerms(ghost y: int, u: array<int32>, v: array<int32>)
      requires Valid() && u.Length == v.Length == 10 && {u, v} !! {X, Y, Z, T} && u != v
      requires Val(Y[..]) == y && Size(Y[..]) <= CARRIED && Val(Z[..]) == 1 && Size(Z[..]) == 1
      modifies u, v
      ensures Residue(Val(u[..])) == Residue(y * y - 1) && Residue(Val(v[..])) == Residue(D * (y * y) + 1)
      ensures Size(u[..]) <= CARRIED + 1 && Size(v[..]) <= CARRIED + 1
    {
      hide Val, Size;
      var dArray := Constant(LIMBS_OF_D);
      ConstantsAreCarried();
      ConstantValues();
      SmallResidue(D);
      FeSquare(u, Y);
      ghost var yy := Val(u[..]);
      FeMul(v, u, dArray);
      ghost var dyy := Val(v[..]);
      ResidueProduct(yy, y * y, Val(LIMBS_OF_D), D);
      ResidueSum(yy, y * y, 1, 1);
      ResidueSum(dyy, D * (y * y), 1, 1);
      FeSub(u, u, Z);
      FeAdd(v, v, Z);
    }

    // The candidate for the root of u / v: u v^3 (u v^7)^((P - 5) / 8).
    method CandidateRoot(u: array<int32>, v: array<int32>) returns (ghost v3: int, ghost w: int, ghost z: int)
      requires Valid() && u.Length == v.Length == 10 && u != X && v != X
      requires Size(u[..]) <= LIMIT && Size(v[..]) <= LIMIT
      modifies X
      ensures Residue(v3) == Residue(Val(v[..]) * Val(v[..]) * Val(v[..]))
      ensures Residue(w) == Residue(v3 * v3 * Val(v[..]) * Val(u[..]))
      ensures Residue(z) == Residue(Pow(w, (P - 5) / 8))
      ensures Residue(Val(X[..])) == Residue(z * v3 * Val(u[..])) && Size(X[..]) <= CARRIED
    {
      hide Val, Size, Pow;
      ghost var uVal, vVal := Val(u[..]), Val(v[..]);
      var v3Array := new int32[10];
      FeSquare(v3Array, v);
      ResidueProduct(Val(v3Array[..]), vVal * vVal, vVal, vVal);
      FeMul(v3Array, v3Array, v);
      v3 := Val(v3Array[..]);
      FeSquare(X, v3Array);
      ResidueProduct(Val(X[..]), v3 * v3, vVal, vVal);
      FeMul(X, X, v);
      ResidueProduct(Val(X[..]), v3 * v3 * vVal, uVal, uVal);
      FeMul(X, X, u);
      w := Val(X[..]);
      FePow22523(X, X);
      z := Val(X[..]);
      FeMul(X, X, v3Array);
      ResidueProduct(Val(X[..]), z * v3, uVal, uVal);
      FeMul(X, X, u);
    }

    // The bytes written here are not used again, but writing them reduces X.
    method MultiplyByI(ghost u: int, ghost v: int)
      requires Valid() && Size(X[..]) <= CARRIED && Residue(v * (Val(X[..]) * Val(X[..]))) == Residue(-u)
      modifies X
      ensures Residue(v * (Val(X[..]) * Val(X[..]))) == Residue(u) && Size(X[..]) <= EXAMINED
    {
      hide Val, Size;
      var sqrtM1 := Constant(SQRT_M1);
      ghost var x := Val(X[..]);
      ConstantsAreCarried();
      ConstantValues();
      FeMul(X, X, sqrtM1);
      ResidueTwice(Val(X[..]));
      var tmpX, tmp2 := new byte[32], new byte[32];
      FeToBytes(tmpX, X);
      TimesRootOfMinusOne(x, u, v, Val(SQRT_M1), Val(X[..]));
      ghost var reduced := X[..];
      forall i | 0 <= i < 32 {
        tmp2[31 - i] := tmpX[i];
      }
      assert X[..] == reduced;
    }

    // X becomes a root of u / v, if there is one.
    method SquareRoot(u: array<int32>, v: array<int32>, ghost y: int) returns (ok: bool)
      requires FermatsLittleTheorem()
      requires Valid() && u.Length == v.Length == 10 && u != X && v != X
      requires Size(u[..]) <= CARRIED + 1 && Size(v[..]) <= CARRIED + 1
      requires Residue(Val(u[..])) == Residue(y * y - 1) && Residue(Val(v[..])) == Residue(D * (y * y) + 1)
      modifies X
      ensures ok ==> CurveEquation(Val(X[..]), y) && Size(X[..]) <= EXAMINED
      ensures !ok ==> forall x :: !CurveEquation(x, y)
    {
      hide Val, Size, Pow, CurveEquation, FermatsLittleTheorem;
      ghost var v3, w, z := CandidateRoot(u, v);
      ghost var x, uVal, vVal := Val(X[..]), Val(u[..]), Val(v[..]);
      var vxx, check := new int32[10], new int32[10];
      FeSquare(vxx, X);
      ghost var xx := Val(vxx[..]);
      FeMul(vxx, vxx, v);
      RootTests(uVal, vVal, x, xx, Val(vxx[..]));
      FeSub(check, vxx, u);
      var different := FeIsNonZero(check);
      if different == 1 {
        FeAdd(check, vxx, u);
        different := FeIsNonZero(check);
        if different == 1 {
          NoRoot(y, uVal, vVal, v3, w, z, x);
          return false;
        }
        MultiplyByI(uVal, vVal);
      }
      EquationOfRoot(Val(X[..]), y, uVal, vVal);
      return true;
    }

    /** Reads a point, or finds that no point has this y coordinate. */
    method FromBytes(s: array<byte>) returns (ok: bool, ghost p: Point)
      requires FermatsLittleTheorem()
      requires Valid() && s.Length == 32
      modifies X, Y, Z, T
      ensures ok ==> Is(p) && Decodes(s[..], p) && Val(Z[..]) == 1
      ensures !ok ==> forall q :: !Decodes(s[..], q)
    {
      hide Val, Size, CurveEquation, FermatsLittleTheorem, LowBits;
      var u, v := new int32[10], new int32[10];
      FeFromBytes(Y, s);
      FeOne(Z);
      ghost var y := Val(Y[..]);
      EquationTerms(y, u, v);
      ok := SquareRoot(u, v, y);
      if !ok {
        NoPoint(s[..], y);
        p := ZERO;
        return;
      }
      ghost var x := Val(X[..]);
      var sign := FeIsNegative(X);
      SignedRoot(s[..], x, y, sign != s[31] / 0x80);
      ResidueTwice(x);
      ResidueProduct(-1, -1, Residue(x), x);
      assert -1 * x == -x && -1 * Residue(x) == -Residue(x);
      if sign != s[31] / 0x80 {
        FeNeg(X, X);
      }
      FeMul(T, X, Y);
      AffineToExtended(Val(X[..]), Val(Y[..]), Val(T[..]));
      SmallResidue(1);
      p := Point(Residue(Val(X[..])), Residue(Val(Y[..])));
    }

    method ToCached(r: CachedGroupElement, ghost p: Point)
      requires Valid() && r.Valid() && {X, Y, Z, T} !! {r.yPlusX, r.yMinusX, r.Z, r.T2d}
      requires Is(p)
      modifies r.yPlusX, r.yMinusX, r.Z, r.T2d
      ensures r.Is(p)
    {
      hide Val, Size, IsExtended, IsCached;
      var d2Array := Constant(LIMBS_OF_2D);
      ConstantsAreCarried();
      ConstantValues();
      FeAdd(r.yPlusX, Y, X);
      FeSub(r.yMinusX, Y, X);
      FeCopy(r.Z, Z);
      FeMul(r.T2d, T, d2Array);
      ExtendedToCached(Val(X[..]), Val(Y[..]), Residue(Val(Z[..])), Val(T[..]), Val(r.T2d[..]), Val(LIMBS_OF_2D), p);
    }
  }

  // ----- addition

  // The first five calls of the four functions below, which differ in the order of the second factors.
  method MultiplyCoordinates(r: CompletedGroupElement, p: ExtendedGroupElement, u: array<int32>, v: array<int32>,
                             t: array<int32>)
    requires r.Valid() && p.Valid() && u.Length == v.Length == t.Length == 10
    requires {r.X, r.Y, r.Z, r.T} !! {p.X, p.Y, p.Z, p.T} && {r.X, r.Y, r.Z, r.T} !! {u, v, t}
    requires Size(p.X[..]) <= EXAMINED && Size(p.Y[..]) <= CARRIED && Size(p.T[..]) <= CARRIED
    requires Size(u[..]) <= LIMIT && Size(v[..]) <= LIMIT && Size(t[..]) <= CARRIED
    modifies r.X, r.Y, r.Z, r.T
    ensures Residue(Val(r.Z[..])) == Residue((Val(p.Y[..]) + Val(p.X[..])) * Val(u[..]))
    ensures Residue(Val(r.Y[..])) == Residue((Val(p.Y[..]) - Val(p.X[..])) * Val(v[..]))
    ensures Residue(Val(r.T[..])) == Residue(Val(t[..]) * Val(p.T[..]))
    ensures Size(r.Z[..]) <= CARRIED && Size(r.Y[..]) <= CARRIED && Size(r.T[..]) <= CARRIED
  {
    hide Val, Size;
    FeAdd(r.X, p.Y, p.X);
    FeSub(r.Y, p.Y, p.X);
    FeMul(r.Z, r.X, u);
    FeMul(r.Y, r.Y, v);
    FeMul(r.T, t, p.T);
  }

  method GeAdd(r: CompletedGroupElement, p: ExtendedGroupElement, q: CachedGroupElement, ghost a: Point, ghost b: Point)
    requires FermatsLittleTheorem()
    requires r.Valid() && p.Valid() && q.Valid()
    requires {r.X, r.Y, r.Z, r.T} !! {p.X, p.Y, p.Z, p.T} && {r.X, r.Y, r.Z, r.T} !! {q.yPlusX, q.yMinusX, q.Z, q.T2d}
    requires p.Is(a) && q.Is(b) && OnCurve(a) && OnCurve(b)
    modifies r.X, r.Y, r.Z, r.T
    ensures r.Is(Add(a, b))
  {
    hide Val, Size, IsExtended, IsCached, IsCompleted, FermatsLittleTheorem, OnCurve, Add;
    var t0 := new int32[10];
    MultiplyCoordinates(r, p, q.yPlusX, q.yMinusX, q.T2d);
    FeMul(r.X, p.Z, q.Z);
    ghost var A, B, C, E := Val(r.Z[..]), Val(r.Y[..]), Val(r.T[..]), Val(r.X[..]);
    FeAdd(t0, r.X, r.X);
    FeSub(r.X, r.Z, r.Y);
    FeAdd(r.Y, r.Z, r.Y);
    FeAdd(r.Z, t0, r.T);
    FeSub(r.T, t0, r.T);
    ExtendedByResidue(Val(p.X[..]), Val(p.Y[..]), Val(p.Z[..]), Val(p.T[..]), a);
    CachedByResidue(Val(q.yPlusX[..]), Val(q.yMinusX[..]), Val(q.Z[..]), Val(q.T2d[..]), b);
    SumFormulas(a, b, Val(p.X[..]), Val(p.Y[..]), Val(p.Z[..]), Val(p.T[..]),
                Val(q.yPlusX[..]), Val(q.yMinusX[..]), Val(q.Z[..]), Val(q.T2d[..]), A, B, C, E);
    CompletedByResidue(Val(r.X[..]), Val(r.Y[..]), Val(r.Z[..]), Val(r.T[..]), Add(a, b));
  }

  method GeSub(r: CompletedGroupElement, p: ExtendedGroupElement, q: CachedGroupElement, ghost a: Point, ghost b: Point)
    requires FermatsLittleTheorem()
    requires r.Valid() && p.Valid() && q.Valid()
    requires {r.X, r.Y, r.Z, r.T} !! {p.X, p.Y, p.Z, p.T} && {r.X, r.Y, r.Z, r.T} !! {q.yPlusX, q.yMinusX, q.Z, q.T2d}
    requires p.Is(a) && q.Is(b) && OnCurve(a) && OnCurve(b)
    modifies r.X, r.Y, r.Z, r.T
    ensures r.Is(Add(a, Neg(b)))
  {
    hide Val, Size, IsExtended, IsCached, IsCompleted, FermatsLittleTheorem, OnCurve, Add;
    var t0 := new int32[10];
    MultiplyCoordinates(r, p, q.yMinusX, q.yPlusX, q.T2d);
    FeMul(r.X, p.Z, q.Z);
    ghost var A, B, C, E := Val(r.Z[..]), Val(r.Y[..]), Val(r.T[..]), Val(r.X[..]);
    FeAdd(t0, r.X, r.X);
    FeSub(r.X, r.Z, r.Y);
    FeAdd(r.Y, r.Z, r.Y);
    FeSub(r.Z, t0, r.T);
    FeAdd(r.T, t0, r.T);
    ExtendedByResidue(Val(p.X[..]), Val(p.Y[..]), Val(p.Z[..]), Val(p.T[..]), a);
    CachedByResidue(Val(q.yPlusX[..]), Val(q.yMinusX[..]), Val(q.Z[..]), Val(q.T2d[..]), b);
    DifferenceFormulas(a, b, Val(p.X[..]), Val(p.Y[..]), Val(p.Z[..]), Val(p.T[..]),
                       Val(q.yPlusX[..]), Val(q.yMinusX[..]), Val(q.Z[..]), Val(q.T2d[..]), A, B, C, E);
    CompletedByResidue(Val(r.X[..]), Val(r.Y[..]), Val(r.Z[..]), Val(r.T[..]), Add(a, Neg(b)));
  }

  method GeMixedAdd(r: CompletedGroupElement, p: ExtendedGroupElement, q: PreComputedGroupElement,
                    ghost a: Point, ghost b: Point)
    requires FermatsLittleTheorem()
    requires r.Valid() && p.Valid() && q.Valid()
    requires {r.X, r.Y, r.Z, r.T} !! {p.X, p.Y, p.Z, p.T} && {r.X, r.Y, r.Z, r.T} !! {q.yPlusX, q.yMinusX, q.xy2d}
    requires p.Is(a) && q.Is(b) && OnCurve(a) && OnCurve(b)
    modifies r.X, r.Y, r.Z, r.T
    ensures r.Is(Add(a, b))
  {
    hide Val, Size, IsExtended, IsCached, IsCompleted, FermatsLittleTheorem, OnCurve, Add;
    var t0 := new int32[10];
    MultiplyCoordinates(r, p, q.yPlusX, q.yMinusX, q.xy2d);
    ghost var A, B, C, E := Val(r.Z[..]), Val(r.Y[..]), Val(r.T[..]), Val(p.Z[..]);
    FeAdd(t0, p.Z, p.Z);
    FeSub(r.X, r.Z, r.Y);
    FeAdd(r.Y, r.Z, r.Y);
    FeAdd(r.Z, t0, r.T);
    FeSub(r.T, t0, r.T);
    ExtendedByResidue(Val(p.X[..]), Val(p.Y[..]), Val(p.Z[..]), Val(p.T[..]), a);
    SumFormulas(a, b, Val(p.X[..]), Val(p.Y[..]), Val(p.Z[..]), Val(p.T[..]),
                Val(q.yPlusX[..]), Val(q.yMinusX[..]), 1, Val(q.xy2d[..]), A, B, C, E);
    CompletedByResidue(Val(r.X[..]), Val(r.Y[..]), Val(r.Z[..]), Val(r.T[..]), Add(a, b));
  }

  method GeMixedSub(r: CompletedGroupElement, p: ExtendedGroupElement, q: PreComputedGroupElement,
                    ghost a: Point, ghost b: Point)
    requires FermatsLittleTheorem()
    requires r.Valid() && p.Valid() && q.Valid()
    requires {r.X, r.Y, r.Z, r.T} !! {p.X, p.Y, p.Z, p.T} && {r.X, r.Y, r.Z, r.T} !! {q.yPlusX, q.yMinusX, q.xy2d}
    requires p.Is(a) && q.Is(b) && OnCurve(a) && OnCurve(b)
    modifies r.X, r.Y, r.Z, r.T
    ensures r.Is(Add(a, Neg(b)))
  {
    hide Val, Size, IsExtended, IsCached, IsCompleted, FermatsLittleTheorem, OnCurve, Add;
    var t0 := new int32[10];
    MultiplyCoordinates(r, p, q.yMinusX, q.yPlusX, q.xy2d);
    ghost var A, B, C, E := Val(r.Z[..]), Val(r.Y[..]), Val(r.T[..]), Val(p.Z[..]);
    FeAdd(t0, p.Z, p.Z);
    FeSub(r.X, r.Z, r.Y);
    FeAdd(r.Y, r.Z, r.Y);
    FeSub(r.Z, t0, r.T);
    FeAdd(r.T, t0, r.T);
    ExtendedByResidue(Val(p.X[..]), Val(p.Y[..]), Val(p.Z[..]), Val(p.T[..]), a);
    DifferenceFormulas(a, b, Val(p.X[..]), Val(p.Y[..]), Val(p.Z[..]), Val(p.T[..]),
                       Val(q.yPlusX[..]), Val(q.yMinusX[..]), 1, Val(q.xy2d[..]), A, B, C, E);
    CompletedByResidue(Val(r.X[..]), Val(r.Y[..]), Val(r.Z[..]), Val(r.T[..]), Add(a, Neg(b)));
  }
}
