/** The coordinate systems of the Go code's point structures, and why its formulas add and double points.

    The coordinates are integers standing for residues.  One affine point has many representations.
 */
module PointCoordinates {
  import opened Curve
  import opened Residues

  /** (X:Y:Z) with x = X/Z and y = Y/Z. */
  ghost predicate IsProjective(X: int, Y: int, Z: int, p: Point) {
    Residue(Z) != 0 && Residue(X) == Residue(p.x * Z) && Residue(Y) == Residue(p.y * Z)
  }

  /** (X:Y:Z:T), in addition with X Y = Z T. */
  ghost predicate IsExtended(X: int, Y: int, Z: int, T: int, p: Point) {
    IsProjective(X, Y, Z, p) && Residue(T) == Residue(p.x * p.y * Z)
  }

  /** ((X:Z), (Y:T)) with x = X/Z and y = Y/T. */
  ghost predicate IsCompleted(X: int, Y: int, Z: int, T: int, p: Point) {
    Residue(Z) != 0 && Residue(T) != 0 && Residue(X) == Residue(p.x * Z) && Residue(Y) == Residue(p.y * T)
  }

  /** (y + x, y - x, 1, 2dxy), scaled by Z. */
  ghost predicate IsCached(yPlusX: int, yMinusX: int, Z: int, T2d: int, p: Point) {
    && Residue(Z) != 0
    && Residue(yPlusX) == Residue((p.y + p.x) * Z) && Residue(yMinusX) == Residue((p.y - p.x) * Z)
    && Residue(T2d) == Residue(2 * D * (p.x * p.y) * Z)
  }

  // Denominators may be replaced by their residues.

  lemma ProjectiveByResidue(X: int, Y: int, Z: int, p: Point)
    ensures IsProjective(X, Y, Residue(Z), p) <==> IsProjective(X, Y, Z, p)
  {
    ResidueTwice(Z);
    ResidueProduct(p.x, p.x, Residue(Z), Z);
    ResidueProduct(p.y, p.y, Residue(Z), Z);
  }

  lemma ExtendedByResidue(X: int, Y: int, Z: int, T: int, p: Point)
    ensures IsExtended(X, Y, Residue(Z), T, p) <==> IsExtended(X, Y, Z, T, p)
  {
    ProjectiveByResidue(X, Y, Z, p);
    ResidueTwice(Z);
    ResidueProduct(p.x * p.y, p.x * p.y, Residue(Z), Z);
  }

  lemma CompletedByResidue(X: int, Y: int, Z: int, T: int, p: Point)
    ensures IsCompleted(X, Y, Residue(Z), Residue(T), p) <==> IsCompleted(X, Y, Z, T, p)
  {
    ResidueTwice(Z);
    ResidueTwice(T);
    ResidueProduct(p.x, p.x, Residue(Z), Z);
    ResidueProduct(p.y, p.y, Residue(T), T);
  }

  lemma CachedByResidue(yPlusX: int, yMinusX: int, Z: int, T2d: int, p: Point)
    ensures IsCached(yPlusX, yMinusX, Residue(Z), T2d, p) <==> IsCached(yPlusX, yMinusX, Z, T2d, p)
  {
    ResidueTwice(Z);
    ResidueProduct(p.y + p.x, p.y + p.x, Residue(Z), Z);
    ResidueProduct(p.y - p.x, p.y - p.x, Residue(Z), Z);
    ResidueProduct(2 * D * (p.x * p.y), 2 * D * (p.x * p.y), Residue(Z), Z);
  }

  /** In extended coordinates X Y = Z T. */
  lemma ExtendedProduct(X: int, Y: int, Z: int, T: int, p: Point)
    requires IsExtended(X, Y, Z, T, p)
    ensures Residue(X * Y) == Residue(Z * T)
  {
    ResidueProduct(X, p.x * Z, Y, p.y * Z);
    ResidueProduct(Z, Z, T, p.x * p.y * Z);
    assert (p.x * Z) * (p.y * Z) == Z * (p.x * p.y * Z);
  }

  /** The point that coordinates represent is unique. */
  lemma ProjectiveIsUnique(X: int, Y: int, Z: int, p: Point, q: Point)
    requires FermatsLittleTheorem()
    requires IsProjective(X, Y, Z, p) && IsProjective(X, Y, Z, q) && OnCurve(p) && OnCurve(q)
    ensures p == q
  {
    SmallResidue(p.x);
    SmallResidue(p.y);
    SmallResidue(q.x);
    SmallResidue(q.y);
    hide FermatsLittleTheorem;
    CancelFactor(p.x, q.x, Z);
    CancelFactor(p.y, q.y, Z);
  }

  lemma NegIsCached(yPlusX: int, yMinusX: int, Z: int, T2d: int, p: Point)
    requires IsCached(yPlusX, yMinusX, Z, T2d, p)
    ensures IsCached(yMinusX, yPlusX, Z, -T2d, Neg(p))
  {
    var n := Neg(p);
    ResidueTwice(-p.x);
    ResidueSum(p.y, p.y, n.x, -p.x);
    ResidueProduct(p.y + n.x, p.y - p.x, Z, Z);
    ResidueProduct(p.y - n.x, p.y + p.x, Z, Z);
    ResidueProduct(n.x, -p.x, 2 * D * p.y * Z, 2 * D * p.y * Z);
    ResidueProduct(-1, -1, T2d, 2 * D * (p.x * p.y) * Z);
    NegatedTerm(D, n.x, p.x, p.y, Z);
  }

  lemma NegatedTerm(d: int, n: int, x: int, y: int, Z: int)
    ensures 2 * d * (n * y) * Z == n * (2 * d * y * Z)
    ensures -1 * (2 * d * (x * y) * Z) == -x * (2 * d * y * Z)
  {
    assert 2 * d * (n * y) * Z == n * (2 * d * y * Z);
    assert 2 * d * (x * y) * Z == x * (2 * d * y * Z);
    assert -x * (2 * d * y * Z) == -(x * (2 * d * y * Z));
  }

  // ----- addition

  /** Numerators and denominators of a sum under a common factor. */
  lemma ScaledSum(p: Point, q: Point, k: int, X: int, Y: int, Z: int, T: int)
    requires FermatsLittleTheorem()
    requires OnCurve(p) && OnCurve(q) && Residue(k) != 0
    requires Residue(X) == Residue((p.x * q.y + q.x * p.y) * k) && Residue(Z) == Residue((1 + Cross(p, q)) * k)
    requires Residue(Y) == Residue((p.y * q.y + p.x * q.x) * k) && Residue(T) == Residue((1 - Cross(p, q)) * k)
    ensures IsCompleted(X, Y, Z, T, Add(p, q))
  {
    hide FermatsLittleTheorem, OnCurve, Add;
    var r := Add(p, q);
    var s, t := 1 + Cross(p, q), 1 - Cross(p, q);
    Denominators(p, q);
    AddEquations(p, q);
    NonZeroProduct(s, k);
    NonZeroProduct(t, k);
    ScaledFraction(r.x, s, p.x * q.y + q.x * p.y, k, X, Z);
    ScaledFraction(r.y, t, p.y * q.y + p.x * q.x, k, Y, T);
  }

  lemma ScaledFraction(x: int, s: int, a: int, k: int, X: int, Z: int)
    requires Residue(x * s) == Residue(a) && Residue(X) == Residue(a * k) && Residue(Z) == Residue(s * k)
    ensures Residue(X) == Residue(x * Z)
  {
    ResidueProduct(x * s, a, k, k);
    ResidueProduct(x, x, Z, s * k);
    assert x * s * k == x * (s * k);
  }

  /** The four products from which a sum is put together; for a difference u and v change places. */
  ghost predicate AreTerms(X: int, Y: int, Z: int, T: int, u: int, v: int, W: int, t: int, A: int, B: int, C: int,
                           E: int)
  {
    && Residue(A) == Residue((Y + X) * u) && Residue(B) == Residue((Y - X) * v)
    && Residue(C) == Residue(t * T) && Residue(E) == Residue(Z * W)
  }

  /** The addition formulas of GeAdd; with Z2 = 1 those of GeMixedAdd. */
  lemma SumFormulas(p: Point, q: Point, X1: int, Y1: int, Z1: int, T1: int, yPlusX: int, yMinusX: int, Z2: int,
                    T2d: int, A: int, B: int, C: int, E: int)
    requires FermatsLittleTheorem()
    requires OnCurve(p) && OnCurve(q)
    requires IsExtended(X1, Y1, Z1, T1, p) && IsCached(yPlusX, yMinusX, Z2, T2d, q)
    requires AreTerms(X1, Y1, Z1, T1, yPlusX, yMinusX, Z2, T2d, A, B, C, E)
    ensures IsCompleted(A - B, A + B, E + E + C, E + E - C, Add(p, q))
  {
    var k := Z1 * Z2;
    SmallResidue(2);
    hide FermatsLittleTheorem, OnCurve;
    NonZeroProduct(Z1, Z2);
    NonZeroProduct(2, k);
    ResidueSum(Y1, p.y * Z1, X1, p.x * Z1);
    DoubledFactor(p.y, p.x, Z1);
    ProductOfScaled(Y1 + X1, p.y + p.x, Z1, yPlusX, q.y + q.x, Z2, A);
    ProductOfScaled(Y1 - X1, p.y - p.x, Z1, yMinusX, q.y - q.x, Z2, B);
    CrossTerm(D, p, q, Z1, Z2, T1, T2d, C);
    SumsOfProducts(p.x, p.y, q.x, q.y, Cross(p, q), k, A, B, C, E);
    ScaledSum(p, q, 2 * k, A - B, A + B, E + E + C, E + E - C);
  }

  /** Those of GeSub and GeMixedSub: the roles of y + x and y - x are exchanged and so is the sign of 2dxy. */
  lemma DifferenceFormulas(p: Point, q: Point, X1: int, Y1: int, Z1: int, T1: int,
                           yPlusX: int, yMinusX: int, Z2: int, T2d: int, A: int, B: int, C: int, E: int)
    requires FermatsLittleTheorem()
    requires OnCurve(p) && OnCurve(q)
    requires IsExtended(X1, Y1, Z1, T1, p) && IsCached(yPlusX, yMinusX, Z2, T2d, q)
    requires AreTerms(X1, Y1, Z1, T1, yMinusX, yPlusX, Z2, T2d, A, B, C, E)
    ensures IsCompleted(A - B, A + B, E + E - C, E + E + C, Add(p, Neg(q)))
  {
    hide FermatsLittleTheorem, OnCurve, Add, Neg;
    hide IsExtended, IsCached;
    NegIsOnCurve(q);
    NegIsCached(yPlusX, yMinusX, Z2, T2d, q);
    ResidueProduct(-1, -1, C, T2d * T1);
    assert -1 * (T2d * T1) == -T2d * T1;
    SumFormulas(p, Neg(q), X1, Y1, Z1, T1, yMinusX, yPlusX, Z2, -T2d, A, B, -C, E);
    assert E + E + -C == E + E - C && E + E - -C == E + E + C;
  }

  lemma ProductOfScaled(a: int, u: int, z: int, b: int, v: int, w: int, c: int)
    requires Residue(a) == Residue(u * z) && Residue(b) == Residue(v * w) && Residue(c) == Residue(a * b)
    ensures Residue(c) == Residue((u * v) * (z * w))
  {
    ResidueProduct(a, u * z, b, v * w);
    Regroup(u, z, v, w);
  }

  lemma CrossTerm(d: int, p: Point, q: Point, z: int, w: int, T: int, T2d: int, C: int)
    requires d == D
    requires Residue(T) == Residue(p.x * p.y * z) && Residue(T2d) == Residue(2 * d * (q.x * q.y) * w)
    requires Residue(C) == Residue(T2d * T)
    ensures Residue(C) == Residue(2 * Cross(p, q) * (z * w))
  {
    ResidueProduct(T2d, 2 * d * (q.x * q.y) * w, T, p.x * p.y * z);
    Regroup(2 * d * (q.x * q.y), w, p.x * p.y, z);
    Times(2 * d, q.x * q.y, p.x * p.y);
    Times(2, d, (q.x * q.y) * (p.x * p.y));
    Regroup(q.x, q.y, p.x, p.y);
    assert q.x * p.x == p.x * q.x && q.y * p.y == p.y * q.y && w * z == z * w;
  }

  lemma SumsOfProducts(x1: int, y1: int, x2: int, y2: int, e: int, k: int, A: int, B: int, C: int, E: int)
    requires Residue(A) == Residue((y1 + x1) * (y2 + x2) * k) && Residue(B) == Residue((y1 - x1) * (y2 - x2) * k)
    requires Residue(C) == Residue(2 * e * k) && Residue(E) == Residue(k)
    ensures Residue(A - B) == Residue((x1 * y2 + x2 * y1) * (2 * k))
    ensures Residue(A + B) == Residue((y1 * y2 + x1 * x2) * (2 * k))
    ensures Residue(E + E + C) == Residue((1 + e) * (2 * k)) && Residue(E + E - C) == Residue((1 - e) * (2 * k))
  {
    var a, b := (y1 + x1) * (y2 + x2), (y1 - x1) * (y2 - x2);
    ResidueSum(A, a * k, B, b * k);
    ResidueSum(E, k, E, k);
    ResidueSum(E + E, k + k, C, 2 * e * k);
    assert a - b == 2 * (x1 * y2 + x2 * y1) && a + b == 2 * (y1 * y2 + x1 * x2);
    DoubledFactor(a, b, k);
    Times(2, x1 * y2 + x2 * y1, k);
    Times(2, y1 * y2 + x1 * x2, k);
    EvenFactor(x1 * y2 + x2 * y1, k);
    EvenFactor(y1 * y2 + x1 * x2, k);
    UnitSum(e, k);
  }

  lemma DoubledFactor(a: int, b: int, k: int)
    ensures a * k - b * k == (a - b) * k && a * k + b * k == (a + b) * k
  {
  }

  lemma EvenFactor(a: int, k: int)
    ensures 2 * (a * k) == a * (2 * k)
  {
  }

  lemma UnitSum(e: int, k: int)
    ensures k + k + 2 * e * k == (1 + e) * (2 * k) && k + k - 2 * e * k == (1 - e) * (2 * k)
  {
  }

  // ----- doubling

  /** The doubling formulas; on the curve the denominators y^2 - x^2 and 1 + d x^2 y^2 agree. */
  lemma DoubleFormulas(p: Point, X: int, Y: int, Z: int, XX: int, YY: int, B: int, AA: int)
    requires FermatsLittleTheorem()
    requires OnCurve(p) && IsProjective(X, Y, Z, p)
    requires Residue(XX) == Residue(X * X) && Residue(YY) == Residue(Y * Y) && Residue(B) == Residue(2 * (Z * Z))
    requires Residue(AA) == Residue((X + Y) * (X + Y))
    ensures IsCompleted(AA - (YY + XX), YY + XX, YY - XX, B - (YY - XX), Add(p, p))
  {
    var k, e := Z * Z, Cross(p, p);
    assert CurveEquation(p.x, p.y);
    assert Residue(p.y * p.y - p.x * p.x) == Residue(1 + e);
    hide FermatsLittleTheorem, OnCurve;
    NonZeroProduct(Z, Z);
    ProductOfScaled(X, p.x, Z, X, p.x, Z, XX);
    ProductOfScaled(Y, p.y, Z, Y, p.y, Z, YY);
    ResidueSum(X, p.x * Z, Y, p.y * Z);
    assert p.x * Z + p.y * Z == (p.x + p.y) * Z;
    ProductOfScaled(X + Y, p.x + p.y, Z, X + Y, p.x + p.y, Z, AA);
    SumsOfSquares(p.x, p.y, e, k, XX, YY, B, AA);
    assert p.x * p.y + p.x * p.y == 2 * (p.x * p.y);
    ScaledSum(p, p, k, AA - (YY + XX), YY + XX, YY - XX, B - (YY - XX));
  }

  lemma SumsOfSquares(x: int, y: int, e: int, k: int, XX: int, YY: int, B: int, AA: int)
    requires Residue(XX) == Residue(x * x * k) && Residue(YY) == Residue(y * y * k) && Residue(B) == Residue(2 * k)
    requires Residue(AA) == Residue((x + y) * (x + y) * k)
    requires Residue(y * y - x * x) == Residue(1 + e)
    ensures Residue(AA - (YY + XX)) == Residue(2 * (x * y) * k) && Residue(YY + XX) == Residue((y * y + x * x) * k)
    ensures Residue(YY - XX) == Residue((1 + e) * k) && Residue(B - (YY - XX)) == Residue((1 - e) * k)
  {
    ResidueSum(YY, y * y * k, XX, x * x * k);
    DoubledFactor(y * y, x * x, k);
    ResidueSum(AA, (x + y) * (x + y) * k, YY + XX, (y * y + x * x) * k);
    assert (x + y) * (x + y) == (y * y + x * x) + 2 * (x * y);
    DoubledFactor(y * y + x * x, 2 * (x * y), k);
    ResidueProduct(y * y - x * x, 1 + e, k, k);
    ResidueSum(B, 2 * k, YY - XX, (1 + e) * k);
    assert 2 * k - (1 + e) * k == (1 - e) * k;
  }

  // ----- conversions

  lemma AffineToExtended(X: int, Y: int, T: int)
    requires Residue(T) == Residue(X * Y)
    ensures IsExtended(X, Y, 1, T, Point(Residue(X), Residue(Y)))
  {
    SmallResidue(1);
    ResidueTwice(X);
    ResidueTwice(Y);
    ResidueProduct(Residue(X), X, Residue(Y), Y);
  }

  /** Dividing a coordinate by Z. */
  lemma AffineCoordinate(x: int, X: int, Z: int, recip: int, r: int)
    requires FermatsLittleTheorem()
    requires Residue(Z) != 0 && Residue(X) == Residue(x * Z) && 0 <= x < P
    requires Residue(recip) == Inverse(Z) && Residue(r) == Residue(X * recip)
    ensures Residue(r) == x
  {
    SmallResidue(x);
    SmallResidue(1);
    hide FermatsLittleTheorem;
    InverseIsInverse(Z);
    SmallResidue(Inverse(Z));
    hide Inverse;
    ResidueProduct(X, x * Z, recip, Inverse(Z));
    assert x * Z * Inverse(Z) == x * (Z * Inverse(Z));
    ResidueProduct(x, x, Z * Inverse(Z), 1);
  }

  lemma CompletedToExtended(X: int, Y: int, Z: int, T: int, X': int, Y': int, Z': int, T': int, p: Point)
    requires FermatsLittleTheorem()
    requires IsCompleted(X, Y, Z, T, p)
    requires Residue(X') == Residue(X * T) && Residue(Y') == Residue(Y * Z) && Residue(Z') == Residue(Z * T)
    requires Residue(T') == Residue(X * Y)
    ensures IsExtended(X', Y', Z', T', p)
  {
    hide FermatsLittleTheorem;
    NonZeroProduct(Z, T);
    ScaledCoordinate(p.x, Z, T, X, X', Z');
    ScaledCoordinate(p.y, T, Z, Y, Y', Z');
    ProductOfScaled(X, p.x, Z, Y, p.y, T, T');
    ResidueProduct(p.x * p.y, p.x * p.y, Z', Z * T);
  }

  lemma ScaledCoordinate(x: int, z: int, t: int, X: int, X': int, Z': int)
    requires Residue(X) == Residue(x * z) && Residue(X') == Residue(X * t) && Residue(Z') == Residue(z * t)
    ensures Residue(X') == Residue(x * Z')
  {
    ResidueProduct(X, x * z, t, t);
    ResidueProduct(x, x, Z', z * t);
    assert x * z * t == x * (z * t);
  }

  lemma ExtendedToCached(X: int, Y: int, Z: int, T: int, T2d: int, d2: int, p: Point)
    requires IsExtended(X, Y, Z, T, p)
    requires Residue(d2) == Residue(2 * D) && Residue(T2d) == Residue(T * d2)
    ensures IsCached(Y + X, Y - X, Z, T2d, p)
  {
    ResidueSum(Y, p.y * Z, X, p.x * Z);
    DoubledFactor(p.y, p.x, Z);
    ResidueProduct(T, p.x * p.y * Z, d2, 2 * D);
    assert p.x * p.y * Z * (2 * D) == 2 * D * (p.x * p.y) * Z;
  }
}
