/** Products and squares of field elements. */
module FieldProducts {
  import opened Words
  import opened Residues
  import opened LimbVectors
  import opened FieldElements

  /** The limbs of a factor, widened to 64 bits. */
  datatype Limbs64 = Limbs64(t0: int64, t1: int64, t2: int64, t3: int64, t4: int64,
                             t5: int64, t6: int64, t7: int64, t8: int64, t9: int64)

  /** Twice the odd limbs of a factor, which FeMul computes beforehand in 32 bits. */
  datatype Doubled = Doubled(t1: int64, t3: int64, t5: int64, t7: int64, t9: int64)

  /** Multiples of the limbs of a factor, for the terms that wrap round 2^255. */
  datatype Wrapped = Wrapped(t1: int64, t2: int64, t3: int64, t4: int64, t5: int64,
                             t6: int64, t7: int64, t8: int64, t9: int64)

  ghost function Ints(a: Limbs64): Limbs {
    Limbs(a.t0 as int, a.t1 as int, a.t2 as int, a.t3 as int, a.t4 as int,
          a.t5 as int, a.t6 as int, a.t7 as int, a.t8 as int, a.t9 as int)
  }

  /** A 64-bit product that cannot overflow, even after ten of them are added up. */
  function Times(a: int64, b: int64): (r: int64)
    requires -2 * LIMIT <= a as int <= 2 * LIMIT && -19 * LIMIT <= b as int <= 19 * LIMIT
    ensures r as int == a as int * b as int
    ensures -38 * LIMIT * LIMIT <= r as int <= 38 * LIMIT * LIMIT
  {
    ProductBound(a as int, 2 * LIMIT, b as int, 19 * LIMIT);
    a * b
  }

  lemma ProductBound(a: int, m: int, b: int, n: int)
    requires -m <= a <= m && -n <= b <= n
    ensures -(m * n) <= a * b <= m * n
  {
    assert (m - a) * (n + b) >= 0 && (m + a) * (n - b) >= 0;
    assert (m - a) * (n - b) >= 0 && (m + a) * (n + b) >= 0;
  }

  // ----- FeMul

  ghost predicate Prepared(f: Limbs64, d: Doubled, g: Limbs64, n: Wrapped) {
    && Bounded(Ints(f), LIMIT) && Bounded(Ints(g), LIMIT)
    && d.t1 as int == 2 * f.t1 as int && d.t3 as int == 2 * f.t3 as int && d.t5 as int == 2 * f.t5 as int
    && d.t7 as int == 2 * f.t7 as int && d.t9 as int == 2 * f.t9 as int
    && n.t1 as int == 19 * g.t1 as int && n.t2 as int == 19 * g.t2 as int && n.t3 as int == 19 * g.t3 as int
    && n.t4 as int == 19 * g.t4 as int && n.t5 as int == 19 * g.t5 as int && n.t6 as int == 19 * g.t6 as int
    && n.t7 as int == 19 * g.t7 as int && n.t8 as int == 19 * g.t8 as int && n.t9 as int == 19 * g.t9 as int
  }

  lemma Refactor(d: int64, x: int64, n: int64, k: int, y: int64)
    requires d as int == 2 * x as int && n as int == k * y as int
    ensures d as int * n as int == x as int * (2 * k * y as int)
  {
  }

  lemma Rescale(x: int64, n: int64, k: int, y: int64)
    requires n as int == k * y as int
    ensures x as int * n as int == x as int * (k * y as int)
  {
  }

  function Column0(f: Limbs64, d: Doubled, g: Limbs64, n: Wrapped): (h: int64)
    requires Prepared(f, d, g, n)
    ensures h as int == Product(Ints(f), Ints(g)).t0 && IsWide(h)
  {
    Refactor(d.t1, f.t1, n.t9, 19, g.t9);
    Refactor(d.t3, f.t3, n.t7, 19, g.t7);
    Refactor(d.t5, f.t5, n.t5, 19, g.t5);
    Refactor(d.t7, f.t7, n.t3, 19, g.t3);
    Refactor(d.t9, f.t9, n.t1, 19, g.t1);
    Times(f.t0, g.t0) + Times(d.t1, n.t9) + Times(f.t2, n.t8) + Times(d.t3, n.t7) + Times(f.t4, n.t6)
    + Times(d.t5, n.t5) + Times(f.t6, n.t4) + Times(d.t7, n.t3) + Times(f.t8, n.t2) + Times(d.t9, n.t1)
  }

  function Column1(f: Limbs64, d: Doubled, g: Limbs64, n: Wrapped): (h: int64)
    requires Prepared(f, d, g, n)
    ensures h as int == Product(Ints(f), Ints(g)).t1 && IsWide(h)
  {
    Times(f.t0, g.t1) + Times(f.t1, g.t0) + Times(f.t2, n.t9) + Times(f.t3, n.t8) + Times(f.t4, n.t7)
    + Times(f.t5, n.t6) + Times(f.t6, n.t5) + Times(f.t7, n.t4) + Times(f.t8, n.t3) + Times(f.t9, n.t2)
  }

  function Column2(f: Limbs64, d: Doubled, g: Limbs64, n: Wrapped): (h: int64)
    requires Prepared(f, d, g, n)
    ensures h as int == Product(Ints(f), Ints(g)).t2 && IsWide(h)
  {
    Refactor(d.t1, f.t1, g.t1, 1, g.t1);
    Refactor(d.t3, f.t3, n.t9, 19, g.t9);
    Refactor(d.t5, f.t5, n.t7, 19, g.t7);
    Refactor(d.t7, f.t7, n.t5, 19, g.t5);
    Refactor(d.t9, f.t9, n.t3, 19, g.t3);
    Times(f.t0, g.t2) + Times(d.t1, g.t1) + Times(f.t2, g.t0) + Times(d.t3, n.t9) + Times(f.t4, n.t8)
    + Times(d.t5, n.t7) + Times(f.t6, n.t6) + Times(d.t7, n.t5) + Times(f.t8, n.t4) + Times(d.t9, n.t3)
  }

  function Column3(f: Limbs64, d: Doubled, g: Limbs64, n: Wrapped): (h: int64)
    requires Prepared(f, d, g, n)
    ensures h as int == Product(Ints(f), Ints(g)).t3 && IsWide(h)
  {
    Times(f.t0, g.t3) + Times(f.t1, g.t2) + Times(f.t2, g.t1) + Times(f.t3, g.t0) + Times(f.t4, n.t9)
    + Times(f.t5, n.t8) + Times(f.t6, n.t7) + Times(f.t7, n.t6) + Times(f.t8, n.t5) + Times(f.t9, n.t4)
  }

  function Column4(f: Limbs64, d: Doubled, g: Limbs64, n: Wrapped): (h: int64)
    requires Prepared(f, d, g, n)
    ensures h as int == Product(Ints(f), Ints(g)).t4 && IsWide(h)
  {
    Refactor(d.t1, f.t1, g.t3, 1, g.t3);
    Refactor(d.t3, f.t3, g.t1, 1, g.t1);
    Refactor(d.t5, f.t5, n.t9, 19, g.t9);
    Refactor(d.t7, f.t7, n.t7, 19, g.t7);
    Refactor(d.t9, f.t9, n.t5, 19, g.t5);
    Times(f.t0, g.t4) + Times(d.t1, g.t3) + Times(f.t2, g.t2) + Times(d.t3, g.t1) + Times(f.t4, g.t0)
    + Times(d.t5, n.t9) + Times(f.t6, n.t8) + Times(d.t7, n.t7) + Times(f.t8, n.t6) + Times(d.t9, n.t5)
  }

  function Column5(f: Limbs64, d: Doubled, g: Limbs64, n: Wrapped): (h: int64)
    requires Prepared(f, d, g, n)
    ensures h as int == Product(Ints(f), Ints(g)).t5 && IsWide(h)
  {
    Times(f.t0, g.t5) + Times(f.t1, g.t4) + Times(f.t2, g.t3) + Times(f.t3, g.t2) + Times(f.t4, g.t1)
    + Times(f.t5, g.t0) + Times(f.t6, n.t9) + Times(f.t7, n.t8) + Times(f.t8, n.t7) + Times(f.t9, n.t6)
  }

  function Column6(f: Limbs64, d: Doubled, g: Limbs64, n: Wrapped): (h: int64)
    requires Prepared(f, d, g, n)
    ensures h as int == Product(Ints(f), Ints(g)).t6 && IsWide(h)
  {
    Refactor(d.t1, f.t1, g.t5, 1, g.t5);
    Refactor(d.t3, f.t3, g.t3, 1, g.t3);
    Refactor(d.t5, f.t5, g.t1, 1, g.t1);
    Refactor(d.t7, f.t7, n.t9, 19, g.t9);
    Refactor(d.t9, f.t9, n.t7, 19, g.t7);
    Times(f.t0, g.t6) + Times(d.t1, g.t5) + Times(f.t2, g.t4) + Times(d.t3, g.t3) + Times(f.t4, g.t2)
    + Times(d.t5, g.t1) + Times(f.t6, g.t0) + Times(d.t7, n.t9) + Times(f.t8, n.t8) + Times(d.t9, n.t7)
  }

  function Column7(f: Limbs64, d: Doubled, g: Limbs64, n: Wrapped): (h: int64)
    requires Prepared(f, d, g, n)
    ensures h as int == Product(Ints(f), Ints(g)).t7 && IsWide(h)
  {
    Times(f.t0, g.t7) + Times(f.t1, g.t6) + Times(f.t2, g.t5) + Times(f.t3, g.t4) + Times(f.t4, g.t3)
    + Times(f.t5, g.t2) + Times(f.t6, g.t1) + Times(f.t7, g.t0) + Times(f.t8, n.t9) + Times(f.t9, n.t8)
  }

  function Column8(f: Limbs64, d: Doubled, g: Limbs64, n: Wrapped): (h: int64)
    requires Prepared(f, d, g, n)
    ensures h as int == Product(Ints(f), Ints(g)).t8 && IsWide(h)
  {
    Refactor(d.t1, f.t1, g.t7, 1, g.t7);
    Refactor(d.t3, f.t3, g.t5, 1, g.t5);
    Refactor(d.t5, f.t5, g.t3, 1, g.t3);
    Refactor(d.t7, f.t7, g.t1, 1, g.t1);
    Refactor(d.t9, f.t9, n.t9, 19, g.t9);
    Times(f.t0, g.t8) + Times(d.t1, g.t7) + Times(f.t2, g.t6) + Times(d.t3, g.t5) + Times(f.t4, g.t4)
    + Times(d.t5, g.t3) + Times(f.t6, g.t2) + Times(d.t7, g.t1) + Times(f.t8, g.t0) + Times(d.t9, n.t9)
  }

  function Column9(f: Limbs64, d: Doubled, g: Limbs64, n: Wrapped): (h: int64)
    requires Prepared(f, d, g, n)
    ensures h as int == Product(Ints(f), Ints(g)).t9 && IsWide(h)
  {
    Times(f.t0, g.t9) + Times(f.t1, g.t8) + Times(f.t2, g.t7) + Times(f.t3, g.t6) + Times(f.t4, g.t5)
    + Times(f.t5, g.t4) + Times(f.t6, g.t3) + Times(f.t7, g.t2) + Times(f.t8, g.t1) + Times(f.t9, g.t0)
  }

  /** The product of f and g modulo P; h may be one of them. */
  method FeMul(h: array<int32>, f: array<int32>, g: array<int32>)
    requires h.Length == f.Length == g.Length == 10
    requires Size(f[..]) <= LIMIT && Size(g[..]) <= LIMIT
    modifies h
    ensures Residue(Val(h[..])) == Residue(old(Val(f[..]) * Val(g[..])))
    ensures Size(h[..]) <= CARRIED
  {
    hide Weigh, Norm, Product;
    ghost var x, y := LimbsOf(f[..]), LimbsOf(g[..]);
    NormBounds(x, LIMIT);
    NormBounds(y, LIMIT);
    var f64 := Limbs64(f[0] as int64, f[1] as int64, f[2] as int64, f[3] as int64, f[4] as int64,
                       f[5] as int64, f[6] as int64, f[7] as int64, f[8] as int64, f[9] as int64);
    var d := Doubled((2 * f[1]) as int64, (2 * f[3]) as int64, (2 * f[5]) as int64, (2 * f[7]) as int64,
                     (2 * f[9]) as int64);
    var g64 := Limbs64(g[0] as int64, g[1] as int64, g[2] as int64, g[3] as int64, g[4] as int64,
                       g[5] as int64, g[6] as int64, g[7] as int64, g[8] as int64, g[9] as int64);
    var n := Wrapped((19 * g[1]) as int64, (19 * g[2]) as int64, (19 * g[3]) as int64, (19 * g[4]) as int64,
                     (19 * g[5]) as int64,
                     (19 * g[6]) as int64, (19 * g[7]) as int64, (19 * g[8]) as int64, (19 * g[9]) as int64);
    assert Ints(f64) == x && Ints(g64) == y;
    Multiply(h, f64, d, g64, n);
  }

  method Multiply(h: array<int32>, f: Limbs64, d: Doubled, g: Limbs64, n: Wrapped)
    requires h.Length == 10
    requires Prepared(f, d, g, n)
    modifies h
    ensures Residue(Val(h[..])) == Residue(Weigh(Ints(f)) * Weigh(Ints(g)))
    ensures Size(h[..]) <= CARRIED
  {
    hide Weigh, Norm, Product, Column0, Column1, Column2, Column3, Column4, Column5, Column6, Column7, Column8, Column9,
      Bounded;
    var h0 := Column0(f, d, g, n);
    var h1 := Column1(f, d, g, n);
    var h2 := Column2(f, d, g, n);
    var h3 := Column3(f, d, g, n);
    var h4 := Column4(f, d, g, n);
    var h5 := Column5(f, d, g, n);
    var h6 := Column6(f, d, g, n);
    var h7 := Column7(f, d, g, n);
    var h8 := Column8(f, d, g, n);
    var h9 := Column9(f, d, g, n);
    WeighProduct(Ints(f), Ints(g));
    assert WideLimbs(h0, h1, h2, h3, h4, h5, h6, h7, h8, h9) == Product(Ints(f), Ints(g));
    FeCombine(h, h0, h1, h2, h3, h4, h5, h6, h7, h8, h9);
  }

  // ----- FeSquare and FeSquare2

  ghost predicate PreparedSquare(f: Limbs64, d: Limbs64, n: Wrapped) {
    && Bounded(Ints(f), LIMIT)
    && d.t0 as int == 2 * f.t0 as int && d.t1 as int == 2 * f.t1 as int && d.t2 as int == 2 * f.t2 as int
    && d.t3 as int == 2 * f.t3 as int && d.t4 as int == 2 * f.t4 as int && d.t5 as int == 2 * f.t5 as int
    && d.t6 as int == 2 * f.t6 as int && d.t7 as int == 2 * f.t7 as int
    && n.t5 as int == 38 * f.t5 as int && n.t6 as int == 19 * f.t6 as int && n.t7 as int == 38 * f.t7 as int
    && n.t8 as int == 19 * f.t8 as int && n.t9 as int == 38 * f.t9 as int
  }

  ghost predicate IsHalfWide(h: int64) {
    -WIDE / 2 <= h <= WIDE / 2
  }

  function Square0(f: Limbs64, d: Limbs64, n: Wrapped): (h: int64)
    requires PreparedSquare(f, d, n)
    ensures IsHalfWide(h)
  {
    Times(f.t0, f.t0) + Times(d.t1, n.t9) + Times(d.t2, n.t8)
    + Times(d.t3, n.t7) + Times(d.t4, n.t6) + Times(f.t5, n.t5)
  }

  lemma Square0IsColumn(f: Limbs64, d: Limbs64, n: Wrapped)
    requires PreparedSquare(f, d, n)
    ensures Square0(f, d, n) as int == Product(Ints(f), Ints(f)).t0
  {
    ProductLimb0(Ints(f), Ints(f));
    hide Product;
    Refactor(d.t1, f.t1, n.t9, 38, f.t9);
    Refactor(d.t2, f.t2, n.t8, 19, f.t8);
    Refactor(d.t3, f.t3, n.t7, 38, f.t7);
    Refactor(d.t4, f.t4, n.t6, 19, f.t6);
    Rescale(f.t5, n.t5, 38, f.t5);
    hide PreparedSquare;
  }

  function Square1(f: Limbs64, d: Limbs64, n: Wrapped): (h: int64)
    requires PreparedSquare(f, d, n)
    ensures IsHalfWide(h)
  {
    Times(d.t0, f.t1) + Times(f.t2, n.t9) + Times(d.t3, n.t8)
    + Times(f.t4, n.t7) + Times(d.t5, n.t6)
  }

  lemma Square1IsColumn(f: Limbs64, d: Limbs64, n: Wrapped)
    requires PreparedSquare(f, d, n)
    ensures Square1(f, d, n) as int == Product(Ints(f), Ints(f)).t1
  {
    ProductLimb1(Ints(f), Ints(f));
    hide Product;
    Refactor(d.t0, f.t0, f.t1, 1, f.t1);
    Rescale(f.t2, n.t9, 38, f.t9);
    Refactor(d.t3, f.t3, n.t8, 19, f.t8);
    Rescale(f.t4, n.t7, 38, f.t7);
    Refactor(d.t5, f.t5, n.t6, 19, f.t6);
    hide PreparedSquare;
  }

  function Square2(f: Limbs64, d: Limbs64, n: Wrapped): (h: int64)
    requires PreparedSquare(f, d, n)
    ensures IsHalfWide(h)
  {
    Times(d.t0, f.t2) + Times(d.t1, f.t1) + Times(d.t3, n.t9)
    + Times(d.t4, n.t8) + Times(d.t5, n.t7) + Times(f.t6, n.t6)
  }

  lemma Square2IsColumn(f: Limbs64, d: Limbs64, n: Wrapped)
    requires PreparedSquare(f, d, n)
    ensures Square2(f, d, n) as int == Product(Ints(f), Ints(f)).t2
  {
    ProductLimb2(Ints(f), Ints(f));
    hide Product;
    Refactor(d.t0, f.t0, f.t2, 1, f.t2);
    Refactor(d.t1, f.t1, f.t1, 1, f.t1);
    Refactor(d.t3, f.t3, n.t9, 38, f.t9);
    Refactor(d.t4, f.t4, n.t8, 19, f.t8);
    Refactor(d.t5, f.t5, n.t7, 38, f.t7);
    Rescale(f.t6, n.t6, 19, f.t6);
    hide PreparedSquare;
  }

  function Square3(f: Limbs64, d: Limbs64, n: Wrapped): (h: int64)
    requires PreparedSquare(f, d, n)
    ensures IsHalfWide(h)
  {
    Times(d.t0, f.t3) + Times(d.t1, f.t2) + Times(f.t4, n.t9)
    + Times(d.t5, n.t8) + Times(f.t6, n.t7)
  }

  lemma Square3IsColumn(f: Limbs64, d: Limbs64, n: Wrapped)
    requires PreparedSquare(f, d, n)
    ensures Square3(f, d, n) as int == Product(Ints(f), Ints(f)).t3
  {
    ProductLimb3(Ints(f), Ints(f));
    hide Product;
    Refactor(d.t0, f.t0, f.t3, 1, f.t3);
    Refactor(d.t1, f.t1, f.t2, 1, f.t2);
    Rescale(f.t4, n.t9, 38, f.t9);
    Refactor(d.t5, f.t5, n.t8, 19, f.t8);
    Rescale(f.t6, n.t7, 38, f.t7);
    hide PreparedSquare;
  }

  function Square4(f: Limbs64, d: Limbs64, n: Wrapped): (h: int64)
    requires PreparedSquare(f, d, n)
    ensures IsHalfWide(h)
  {
    Times(d.t0, f.t4) + Times(d.t1, d.t3) + Times(f.t2, f.t2)
    + Times(d.t5, n.t9) + Times(d.t6, n.t8) + Times(f.t7, n.t7)
  }

  lemma Square4IsColumn(f: Limbs64, d: Limbs64, n: Wrapped)
    requires PreparedSquare(f, d, n)
    ensures Square4(f, d, n) as int == Product(Ints(f), Ints(f)).t4
  {
    ProductLimb4(Ints(f), Ints(f));
    hide Product;
    Refactor(d.t0, f.t0, f.t4, 1, f.t4);
    Refactor(d.t1, f.t1, d.t3, 2, f.t3);
    Refactor(d.t5, f.t5, n.t9, 38, f.t9);
    Refactor(d.t6, f.t6, n.t8, 19, f.t8);
    Rescale(f.t7, n.t7, 38, f.t7);
    hide PreparedSquare;
  }

  function Square5(f: Limbs64, d: Limbs64, n: Wrapped): (h: int64)
    requires PreparedSquare(f, d, n)
    ensures IsHalfWide(h)
  {
    Times(d.t0, f.t5) + Times(d.t1, f.t4) + Times(d.t2, f.t3)
    + Times(f.t6, n.t9) + Times(d.t7, n.t8)
  }

  lemma Square5IsColumn(f: Limbs64, d: Limbs64, n: Wrapped)
    requires PreparedSquare(f, d, n)
    ensures Square5(f, d, n) as int == Product(Ints(f), Ints(f)).t5
  {
    ProductLimb5(Ints(f), Ints(f));
    hide Product;
    Refactor(d.t0, f.t0, f.t5, 1, f.t5);
    Refactor(d.t1, f.t1, f.t4, 1, f.t4);
    Refactor(d.t2, f.t2, f.t3, 1, f.t3);
    Rescale(f.t6, n.t9, 38, f.t9);
    Refactor(d.t7, f.t7, n.t8, 19, f.t8);
    hide PreparedSquare;
  }

  function Square6(f: Limbs64, d: Limbs64, n: Wrapped): (h: int64)
    requires PreparedSquare(f, d, n)
    ensures IsHalfWide(h)
  {
    Times(d.t0, f.t6) + Times(d.t1, d.t5) + Times(d.t2, f.t4)
    + Times(d.t3, f.t3) + Times(d.t7, n.t9) + Times(f.t8, n.t8)
  }

  lemma Square6IsColumn(f: Limbs64, d: Limbs64, n: Wrapped)
    requires PreparedSquare(f, d, n)
    ensures Square6(f, d, n) as int == Product(Ints(f), Ints(f)).t6
  {
    ProductLimb6(Ints(f), Ints(f));
    hide Product;
    Refactor(d.t0, f.t0, f.t6, 1, f.t6);
    Refactor(d.t1, f.t1, d.t5, 2, f.t5);
    Refactor(d.t2, f.t2, f.t4, 1, f.t4);
    Refactor(d.t3, f.t3, f.t3, 1, f.t3);
    Refactor(d.t7, f.t7, n.t9, 38, f.t9);
    Rescale(f.t8, n.t8, 19, f.t8);
    hide PreparedSquare;
  }

  function Square7(f: Limbs64, d: Limbs64, n: Wrapped): (h: int64)
    requires PreparedSquare(f, d, n)
    ensures IsHalfWide(h)
  {
    Times(d.t0, f.t7) + Times(d.t1, f.t6) + Times(d.t2, f.t5)
    + Times(d.t3, f.t4) + Times(f.t8, n.t9)
  }

  lemma Square7IsColumn(f: Limbs64, d: Limbs64, n: Wrapped)
    requires PreparedSquare(f, d, n)
    ensures Square7(f, d, n) as int == Product(Ints(f), Ints(f)).t7
  {
    ProductLimb7(Ints(f), Ints(f));
    hide Product;
    Refactor(d.t0, f.t0, f.t7, 1, f.t7);
    Refactor(d.t1, f.t1, f.t6, 1, f.t6);
    Refactor(d.t2, f.t2, f.t5, 1, f.t5);
    Refactor(d.t3, f.t3, f.t4, 1, f.t4);
    Rescale(f.t8, n.t9, 38, f.t9);
    hide PreparedSquare;
  }

  function Square8(f: Limbs64, d: Limbs64, n: Wrapped): (h: int64)
    requires PreparedSquare(f, d, n)
    ensures IsHalfWide(h)
  {
    Times(d.t0, f.t8) + Times(d.t1, d.t7) + Times(d.t2, f.t6)
    + Times(d.t3, d.t5) + Times(f.t4, f.t4) + Times(f.t9, n.t9)
  }

  lemma Square8IsColumn(f: Limbs64, d: Limbs64, n: Wrapped)
    requires PreparedSquare(f, d, n)
    ensures Square8(f, d, n) as int == Product(Ints(f), Ints(f)).t8
  {
    ProductLimb8(Ints(f), Ints(f));
    hide Product;
    Refactor(d.t0, f.t0, f.t8, 1, f.t8);
    Refactor(d.t1, f.t1, d.t7, 2, f.t7);
    Refactor(d.t2, f.t2, f.t6, 1, f.t6);
    Refactor(d.t3, f.t3, d.t5, 2, f.t5);
    Rescale(f.t9, n.t9, 38, f.t9);
    hide PreparedSquare;
  }

  function Square9(f: Limbs64, d: Limbs64, n: Wrapped): (h: int64)
    requires PreparedSquare(f, d, n)
    ensures IsHalfWide(h)
  {
    Times(d.t0, f.t9) + Times(d.t1, f.t8) + Times(d.t2, f.t7)
    + Times(d.t3, f.t6) + Times(d.t4, f.t5)
  }

  lemma Square9IsColumn(f: Limbs64, d: Limbs64, n: Wrapped)
    requires PreparedSquare(f, d, n)
    ensures Square9(f, d, n) as int == Product(Ints(f), Ints(f)).t9
  {
    ProductLimb9(Ints(f), Ints(f));
    hide Product;
    Refactor(d.t0, f.t0, f.t9, 1, f.t9);
    Refactor(d.t1, f.t1, f.t8, 1, f.t8);
    Refactor(d.t2, f.t2, f.t7, 1, f.t7);
    Refactor(d.t3, f.t3, f.t6, 1, f.t6);
    Refactor(d.t4, f.t4, f.t5, 1, f.t5);
    hide PreparedSquare;
  }

  /** The limbs of f * f before carrying; every product of two different limbs is taken once and doubled. */
  method SquareColumns(f: array<int32>)
    returns (h0: int64, h1: int64, h2: int64, h3: int64, h4: int64,
             h5: int64, h6: int64, h7: int64, h8: int64, h9: int64)
    requires f.Length == 10
    requires Size(f[..]) <= LIMIT
    ensures WideLimbs(h0, h1, h2, h3, h4, h5, h6, h7, h8, h9) == Product(LimbsOf(f[..]), LimbsOf(f[..]))
    ensures IsHalfWide(h0) && IsHalfWide(h1) && IsHalfWide(h2) && IsHalfWide(h3) && IsHalfWide(h4)
    ensures IsHalfWide(h5) && IsHalfWide(h6) && IsHalfWide(h7) && IsHalfWide(h8) && IsHalfWide(h9)
  {
    hide Norm, Product, Square0, Square1, Square2, Square3, Square4, Square5, Square6, Square7, Square8, Square9;
    NormBounds(LimbsOf(f[..]), LIMIT);
    var x := Limbs64(f[0] as int64, f[1] as int64, f[2] as int64, f[3] as int64, f[4] as int64,
                     f[5] as int64, f[6] as int64, f[7] as int64, f[8] as int64, f[9] as int64);
    var d := Limbs64((2 * f[0]) as int64, (2 * f[1]) as int64, (2 * f[2]) as int64, (2 * f[3]) as int64,
                     (2 * f[4]) as int64,
                     (2 * f[5]) as int64, (2 * f[6]) as int64, (2 * f[7]) as int64, 2 * x.t8, 2 * x.t9);
    var n := Wrapped(0, 0, 0, 0, 38 * x.t5, 19 * x.t6, 38 * x.t7, 19 * x.t8, 38 * x.t9);
    assert Ints(x) == LimbsOf(f[..]);
    h0 := Square0(x, d, n);
    Square0IsColumn(x, d, n);
    h1 := Square1(x, d, n);
    Square1IsColumn(x, d, n);
    h2 := Square2(x, d, n);
    Square2IsColumn(x, d, n);
    h3 := Square3(x, d, n);
    Square3IsColumn(x, d, n);
    h4 := Square4(x, d, n);
    Square4IsColumn(x, d, n);
    h5 := Square5(x, d, n);
    Square5IsColumn(x, d, n);
    h6 := Square6(x, d, n);
    Square6IsColumn(x, d, n);
    h7 := Square7(x, d, n);
    Square7IsColumn(x, d, n);
    h8 := Square8(x, d, n);
    Square8IsColumn(x, d, n);
    h9 := Square9(x, d, n);
    Square9IsColumn(x, d, n);
  }

  method FeSquare(h: array<int32>, f: array<int32>)
    requires h.Length == f.Length == 10
    requires Size(f[..]) <= LIMIT
    modifies h
    ensures Residue(Val(h[..])) == Residue(old(Val(f[..]) * Val(f[..])))
    ensures Size(h[..]) <= CARRIED
  {
    hide Norm, Weigh, Product;
    WeighProduct(LimbsOf(f[..]), LimbsOf(f[..]));
    var h0, h1, h2, h3, h4, h5, h6, h7, h8, h9 := SquareColumns(f);
    FeCombine(h, h0, h1, h2, h3, h4, h5, h6, h7, h8, h9);
  }

  method FeSquare2(h: array<int32>, f: array<int32>)
    requires h.Length == f.Length == 10
    requires Size(f[..]) <= LIMIT
    modifies h
    ensures Residue(Val(h[..])) == Residue(2 * old(Val(f[..]) * Val(f[..])))
    ensures Size(h[..]) <= CARRIED
  {
    hide Norm, Weigh, Product;
    ghost var x := LimbsOf(f[..]);
    WeighProduct(x, x);
    WeighScale(2, Product(x, x));
    ResidueProduct(2, 2, Weigh(Product(x, x)), Weigh(x) * Weigh(x));
    var h0, h1, h2, h3, h4, h5, h6, h7, h8, h9 := SquareColumns(f);
    h0, h1, h2, h3, h4 := h0 + h0, h1 + h1, h2 + h2, h3 + h3, h4 + h4;
    h5, h6, h7, h8, h9 := h5 + h5, h6 + h6, h7 + h7, h8 + h8, h9 + h9;
    assert WideLimbs(h0, h1, h2, h3, h4, h5, h6, h7, h8, h9) == Scale(2, Product(x, x));
    FeCombine(h, h0, h1, h2, h3, h4, h5, h6, h7, h8, h9);
  }
}
