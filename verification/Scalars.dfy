/** Scalar arithmetic modulo the order of the base point (RFC 8032, section 5.1.6). */
module Scalars {
  import opened Words
  import opened ScalarLimbs
  import opened ScalarBytes

  /** The limbs of a product of two groups of six limbs. */
  datatype Eleven = Eleven(t0: int, t1: int, t2: int, t3: int, t4: int, t5: int, t6: int, t7: int, t8: int, t9: int,
                           t10: int)

  ghost function Convolve(x: Six, y: Six): Eleven {
    var x0, x1, x2, x3, x4, x5 := x.s0 as int, x.s1 as int, x.s2 as int, x.s3 as int, x.s4 as int, x.s5 as int;
    var y0, y1, y2, y3, y4, y5 := y.s0 as int, y.s1 as int, y.s2 as int, y.s3 as int, y.s4 as int, y.s5 as int;
    Eleven(x0 * y0,
           x0 * y1 + x1 * y0,
           x0 * y2 + x1 * y1 + x2 * y0,
           x0 * y3 + x1 * y2 + x2 * y1 + x3 * y0,
           x0 * y4 + x1 * y3 + x2 * y2 + x3 * y1 + x4 * y0,
           x0 * y5 + x1 * y4 + x2 * y3 + x3 * y2 + x4 * y1 + x5 * y0,
           x1 * y5 + x2 * y4 + x3 * y3 + x4 * y2 + x5 * y1,
           x2 * y5 + x3 * y4 + x4 * y3 + x5 * y2,
           x3 * y5 + x4 * y4 + x5 * y3,
           x4 * y5 + x5 * y4,
           x5 * y5)
  }

  ghost function Weigh11(t: Eleven): int {
    t.t0 + 0x20_0000 * t.t1 + 0x400_0000_0000 * t.t2 + 0x8000_0000_0000_0000 * t.t3
    + 0x10_0000_0000_0000_0000_0000 * t.t4 + 0x200_0000_0000_0000_0000_0000_0000 * t.t5
    + 0x4000_0000_0000_0000_0000_0000_0000_0000 * t.t6 + 0x8_0000_0000_0000_0000_0000_0000_0000_0000_0000 * t.t7
    + 0x100_0000_0000_0000_0000_0000_0000_0000_0000_0000_0000 * t.t8
    + 0x2000_0000_0000_0000_0000_0000_0000_0000_0000_0000_0000_0000 * t.t9
    + 0x4_0000_0000_0000_0000_0000_0000_0000_0000_0000_0000_0000_0000_0000 * t.t10
  }

  lemma ConvolutionWeight(x: Six, y: Six)
    ensures Weigh11(Convolve(x, y)) == Weigh6(x) * Weigh6(y)
  {
    Distribute(x.s0 as int, y);
    Distribute(x.s1 as int, y);
    Distribute(x.s2 as int, y);
    Distribute(x.s3 as int, y);
    Distribute(x.s4 as int, y);
    Distribute(x.s5 as int, y);
  }

  lemma Distribute(c: int, y: Six)
    ensures c * Weigh6(y) == c * y.s0 as int + 0x20_0000 * (c * y.s1 as int) + 0x400_0000_0000 * (c * y.s2 as int)
            + 0x8000_0000_0000_0000 * (c * y.s3 as int) + 0x10_0000_0000_0000_0000_0000 * (c * y.s4 as int)
            + 0x200_0000_0000_0000_0000_0000_0000 * (c * y.s5 as int)
  {
  }

  /** A product of limbs; only a last limb has more than 21 bits. */
  function Times(a: int64, b: int64): (r: int64)
    requires 0 <= a < 0x200_0000 && 0 <= b < 0x200_0000
    ensures r as int == a as int * b as int && 0 <= r < 0x4_0000_0000_0000
    ensures a < 0x20_0000 || b < 0x20_0000 ==> r < 0x4000_0000_0000
  {
    ProductBelow(a as int, b as int, 0x200_0000, 0x200_0000);
    if a < 0x20_0000 then ProductBelow(a as int, b as int, 0x20_0000, 0x200_0000); a * b
    else if b < 0x20_0000 then ProductBelow(a as int, b as int, 0x200_0000, 0x20_0000); a * b
    else a * b
  }

  lemma ProductBelow(a: int, b: int, m: int, n: int)
    requires 0 <= a < m && 0 <= b < n
    ensures 0 <= a * b < m * n
  {
    assert a * b <= a * n < m * n;
  }

  /** The limbs of a loaded scalar. */
  ghost predicate Loaded(x: Six, y: Six) {
    AreDigits(x) && AreDigits(y.(s5 := 0)) && 0 <= y.s5 < 0x200_0000
  }

  // The columns of the product of a + 2^126 a' and b + 2^126 b'.

  function Column0(a: Six, a': Six, b: Six, b': Six): (r: int64)
    requires Loaded(a, a') && Loaded(b, b')
    ensures r as int == Convolve(a, b).t0 && 0 <= r < 0x4_0000_0000_0000
  {
    Times(a.s0, b.s0)
  }

  function Column1(a: Six, a': Six, b: Six, b': Six): (r: int64)
    requires Loaded(a, a') && Loaded(b, b')
    ensures r as int == Convolve(a, b).t1 && 0 <= r < 0x4_0000_0000_0000
  {
    Times(a.s0, b.s1) + Times(a.s1, b.s0)
  }

  function Column2(a: Six, a': Six, b: Six, b': Six): (r: int64)
    requires Loaded(a, a') && Loaded(b, b')
    ensures r as int == Convolve(a, b).t2 && 0 <= r < 0x4_0000_0000_0000
  {
    Times(a.s0, b.s2) + Times(a.s1, b.s1) + Times(a.s2, b.s0)
  }

  function Column3(a: Six, a': Six, b: Six, b': Six): (r: int64)
    requires Loaded(a, a') && Loaded(b, b')
    ensures r as int == Convolve(a, b).t3 && 0 <= r < 0x4_0000_0000_0000
  {
    Times(a.s0, b.s3) + Times(a.s1, b.s2) + Times(a.s2, b.s1) + Times(a.s3, b.s0)
  }

  function Column4(a: Six, a': Six, b: Six, b': Six): (r: int64)
    requires Loaded(a, a') && Loaded(b, b')
    ensures r as int == Convolve(a, b).t4 && 0 <= r < 0x4_0000_0000_0000
  {
    Times(a.s0, b.s4) + Times(a.s1, b.s3) + Times(a.s2, b.s2) + Times(a.s3, b.s1) + Times(a.s4, b.s0)
  }

  function Column5(a: Six, a': Six, b: Six, b': Six): (r: int64)
    requires Loaded(a, a') && Loaded(b, b')
    ensures r as int == Convolve(a, b).t5 && 0 <= r < 0x4_0000_0000_0000
  {
    Times(a.s0, b.s5) + Times(a.s1, b.s4) + Times(a.s2, b.s3) + Times(a.s3, b.s2) + Times(a.s4, b.s1)
    + Times(a.s5, b.s0)
  }

  function Column6(a: Six, a': Six, b: Six, b': Six): (r: int64)
    requires Loaded(a, a') && Loaded(b, b')
    ensures r as int == Convolve(a, b).t6 + Convolve(a, b').t0 + Convolve(a', b).t0 && 0 <= r < 0x4_0000_0000_0000
  {
    Times(a.s0, b'.s0) + Times(a.s1, b.s5) + Times(a.s2, b.s4) + Times(a.s3, b.s3) + Times(a.s4, b.s2)
    + Times(a.s5, b.s1)
    + Times(a'.s0, b.s0)
  }

  function Column7(a: Six, a': Six, b: Six, b': Six): (r: int64)
    requires Loaded(a, a') && Loaded(b, b')
    ensures r as int == Convolve(a, b).t7 + Convolve(a, b').t1 + Convolve(a', b).t1 && 0 <= r < 0x4_0000_0000_0000
  {
    Times(a.s0, b'.s1) + Times(a.s1, b'.s0) + Times(a.s2, b.s5) + Times(a.s3, b.s4) + Times(a.s4, b.s3)
    + Times(a.s5, b.s2)
    + Times(a'.s0, b.s1) + Times(a'.s1, b.s0)
  }

  function Column8(a: Six, a': Six, b: Six, b': Six): (r: int64)
    requires Loaded(a, a') && Loaded(b, b')
    ensures r as int == Convolve(a, b).t8 + Convolve(a, b').t2 + Convolve(a', b).t2 && 0 <= r < 0x4_0000_0000_0000
  {
    Times(a.s0, b'.s2) + Times(a.s1, b'.s1) + Times(a.s2, b'.s0) + Times(a.s3, b.s5) + Times(a.s4, b.s4)
    + Times(a.s5, b.s3)
    + Times(a'.s0, b.s2) + Times(a'.s1, b.s1) + Times(a'.s2, b.s0)
  }

  function Column9(a: Six, a': Six, b: Six, b': Six): (r: int64)
    requires Loaded(a, a') && Loaded(b, b')
    ensures r as int == Convolve(a, b).t9 + Convolve(a, b').t3 + Convolve(a', b).t3 && 0 <= r < 0x4_0000_0000_0000
  {
    Times(a.s0, b'.s3) + Times(a.s1, b'.s2) + Times(a.s2, b'.s1) + Times(a.s3, b'.s0) + Times(a.s4, b.s5)
    + Times(a.s5, b.s4)
    + Times(a'.s0, b.s3) + Times(a'.s1, b.s2) + Times(a'.s2, b.s1) + Times(a'.s3, b.s0)
  }

  function Column10(a: Six, a': Six, b: Six, b': Six): (r: int64)
    requires Loaded(a, a') && Loaded(b, b')
    ensures r as int == Convolve(a, b).t10 + Convolve(a, b').t4 + Convolve(a', b).t4 && 0 <= r < 0x4_0000_0000_0000
  {
    Times(a.s0, b'.s4) + Times(a.s1, b'.s3) + Times(a.s2, b'.s2) + Times(a.s3, b'.s1) + Times(a.s4, b'.s0)
    + Times(a.s5, b.s5)
    + Times(a'.s0, b.s4) + Times(a'.s1, b.s3) + Times(a'.s2, b.s2) + Times(a'.s3, b.s1) + Times(a'.s4, b.s0)
  }

  function Column11(a: Six, a': Six, b: Six, b': Six): (r: int64)
    requires Loaded(a, a') && Loaded(b, b')
    ensures r as int == Convolve(a, b').t5 + Convolve(a', b).t5 && 0 <= r < 0x4_0000_0000_0000
  {
    Times(a.s0, b'.s5) + Times(a.s1, b'.s4) + Times(a.s2, b'.s3) + Times(a.s3, b'.s2) + Times(a.s4, b'.s1)
    + Times(a.s5, b'.s0)
    + Times(a'.s0, b.s5) + Times(a'.s1, b.s4) + Times(a'.s2, b.s3) + Times(a'.s3, b.s2) + Times(a'.s4, b.s1)
    + Times(a'.s5, b.s0)
  }

  function Column12(a: Six, a': Six, b: Six, b': Six): (r: int64)
    requires Loaded(a, a') && Loaded(b, b')
    ensures r as int == Convolve(a, b').t6 + Convolve(a', b).t6 + Convolve(a', b').t0 && 0 <= r < 0x4_0000_0000_0000
  {
    Times(a.s1, b'.s5) + Times(a.s2, b'.s4) + Times(a.s3, b'.s3) + Times(a.s4, b'.s2) + Times(a.s5, b'.s1)
    + Times(a'.s0, b'.s0)
    + Times(a'.s1, b.s5) + Times(a'.s2, b.s4) + Times(a'.s3, b.s3) + Times(a'.s4, b.s2) + Times(a'.s5, b.s1)
  }

  function Column13(a: Six, a': Six, b: Six, b': Six): (r: int64)
    requires Loaded(a, a') && Loaded(b, b')
    ensures r as int == Convolve(a, b').t7 + Convolve(a', b).t7 + Convolve(a', b').t1 && 0 <= r < 0x4_0000_0000_0000
  {
    Times(a.s2, b'.s5) + Times(a.s3, b'.s4) + Times(a.s4, b'.s3) + Times(a.s5, b'.s2) + Times(a'.s0, b'.s1)
    + Times(a'.s1, b'.s0)
    + Times(a'.s2, b.s5) + Times(a'.s3, b.s4) + Times(a'.s4, b.s3) + Times(a'.s5, b.s2)
  }

  function Column14(a: Six, a': Six, b: Six, b': Six): (r: int64)
    requires Loaded(a, a') && Loaded(b, b')
    ensures r as int == Convolve(a, b').t8 + Convolve(a', b).t8 + Convolve(a', b').t2 && 0 <= r < 0x4_0000_0000_0000
  {
    Times(a.s3, b'.s5) + Times(a.s4, b'.s4) + Times(a.s5, b'.s3) + Times(a'.s0, b'.s2) + Times(a'.s1, b'.s1)
    + Times(a'.s2, b'.s0)
    + Times(a'.s3, b.s5) + Times(a'.s4, b.s4) + Times(a'.s5, b.s3)
  }

  function Column15(a: Six, a': Six, b: Six, b': Six): (r: int64)
    requires Loaded(a, a') && Loaded(b, b')
    ensures r as int == Convolve(a, b').t9 + Convolve(a', b).t9 + Convolve(a', b').t3 && 0 <= r < 0x4_0000_0000_0000
  {
    Times(a.s4, b'.s5) + Times(a.s5, b'.s4) + Times(a'.s0, b'.s3) + Times(a'.s1, b'.s2) + Times(a'.s2, b'.s1)
    + Times(a'.s3, b'.s0)
    + Times(a'.s4, b.s5) + Times(a'.s5, b.s4)
  }

  function Column16(a: Six, a': Six, b: Six, b': Six): (r: int64)
    requires Loaded(a, a') && Loaded(b, b')
    ensures r as int == Convolve(a, b').t10 + Convolve(a', b).t10 + Convolve(a', b').t4 && 0 <= r < 0x4_0000_0000_0000
  {
    Times(a.s5, b'.s5) + Times(a'.s0, b'.s4) + Times(a'.s1, b'.s3) + Times(a'.s2, b'.s2) + Times(a'.s3, b'.s1)
    + Times(a'.s4, b'.s0)
    + Times(a'.s5, b.s5)
  }

  function Column17(a: Six, a': Six, b: Six, b': Six): (r: int64)
    requires Loaded(a, a') && Loaded(b, b')
    ensures r as int == Convolve(a', b').t5 && 0 <= r < 0x4_0000_0000_0000
  {
    Times(a'.s0, b'.s5) + Times(a'.s1, b'.s4) + Times(a'.s2, b'.s3) + Times(a'.s3, b'.s2) + Times(a'.s4, b'.s1)
    + Times(a'.s5, b'.s0)
  }

  function Column18(a: Six, a': Six, b: Six, b': Six): (r: int64)
    requires Loaded(a, a') && Loaded(b, b')
    ensures r as int == Convolve(a', b').t6 && 0 <= r < 0x4_0000_0000_0000
  {
    Times(a'.s1, b'.s5) + Times(a'.s2, b'.s4) + Times(a'.s3, b'.s3) + Times(a'.s4, b'.s2) + Times(a'.s5, b'.s1)
  }

  function Column19(a: Six, a': Six, b: Six, b': Six): (r: int64)
    requires Loaded(a, a') && Loaded(b, b')
    ensures r as int == Convolve(a', b').t7 && 0 <= r < 0x4_0000_0000_0000
  {
    Times(a'.s2, b'.s5) + Times(a'.s3, b'.s4) + Times(a'.s4, b'.s3) + Times(a'.s5, b'.s2)
  }

  function Column20(a: Six, a': Six, b: Six, b': Six): (r: int64)
    requires Loaded(a, a') && Loaded(b, b')
    ensures r as int == Convolve(a', b').t8 && 0 <= r < 0x4_0000_0000_0000
  {
    Times(a'.s3, b'.s5) + Times(a'.s4, b'.s4) + Times(a'.s5, b'.s3)
  }

  function Column21(a: Six, a': Six, b: Six, b': Six): (r: int64)
    requires Loaded(a, a') && Loaded(b, b')
    ensures r as int == Convolve(a', b').t9 && 0 <= r < 0x4_0000_0000_0000
  {
    Times(a'.s4, b'.s5) + Times(a'.s5, b'.s4)
  }

  function Column22(a: Six, a': Six, b: Six, b': Six): (r: int64)
    requires Loaded(a, a') && Loaded(b, b')
    ensures r as int == Convolve(a', b').t10 && 0 <= r < 0x4_0000_0000_0000
  {
    Times(a'.s5, b'.s5)
  }

  lemma ProductWeight(c: Six, c': Six, q0: Six, q1: Six, q2: Six, q3: Six,
                      ll: Eleven, lh: Eleven, hl: Eleven, hh: Eleven)
    requires q0.s0 as int == c.s0 as int + ll.t0
    requires q0.s1 as int == c.s1 as int + ll.t1
    requires q0.s2 as int == c.s2 as int + ll.t2
    requires q0.s3 as int == c.s3 as int + ll.t3
    requires q0.s4 as int == c.s4 as int + ll.t4
    requires q0.s5 as int == c.s5 as int + ll.t5
    requires q1.s0 as int == c'.s0 as int + ll.t6 + lh.t0 + hl.t0
    requires q1.s1 as int == c'.s1 as int + ll.t7 + lh.t1 + hl.t1
    requires q1.s2 as int == c'.s2 as int + ll.t8 + lh.t2 + hl.t2
    requires q1.s3 as int == c'.s3 as int + ll.t9 + lh.t3 + hl.t3
    requires q1.s4 as int == c'.s4 as int + ll.t10 + lh.t4 + hl.t4
    requires q1.s5 as int == c'.s5 as int + lh.t5 + hl.t5
    requires q2.s0 as int == lh.t6 + hl.t6 + hh.t0
    requires q2.s1 as int == lh.t7 + hl.t7 + hh.t1
    requires q2.s2 as int == lh.t8 + hl.t8 + hh.t2
    requires q2.s3 as int == lh.t9 + hl.t9 + hh.t3
    requires q2.s4 as int == lh.t10 + hl.t10 + hh.t4
    requires q2.s5 as int == hh.t5
    requires q3.s0 as int == hh.t6
    requires q3.s1 as int == hh.t7
    requires q3.s2 as int == hh.t8
    requires q3.s3 as int == hh.t9
    requires q3.s4 as int == hh.t10
    requires q3.s5 as int == 0
    ensures Weigh12(q0, q1) + TWO252 * Weigh12(q2, q3)
         == Weigh12(c, c') + Weigh11(ll) + TWO126 * (Weigh11(lh) + Weigh11(hl)) + TWO252 * Weigh11(hh)
  {
  }

  /** The limbs of a * b + c before any carry. */
  method MultiplyAdd(a: Six, a': Six, b: Six, b': Six, c: Six, c': Six) returns (q0: Six, q1: Six, q2: Six, q3: Six)
    requires Loaded(a, a') && Loaded(b, b') && Loaded(c, c')
    ensures Weigh12(q0, q1) + TWO252 * Weigh12(q2, q3) == Weigh12(a, a') * Weigh12(b, b') + Weigh12(c, c')
    ensures Within6(q0, 0x8_0000_0000_0000) && Within6(q1, 0x8_0000_0000_0000)
    ensures Within6(q2, 0x8_0000_0000_0000) && Within6(q3, 0x8_0000_0000_0000) && q3.s5 == 0
  {
    hide Weigh6, Weigh11, Convolve, Column0, Column1, Column2, Column3, Column4, Column5, Column6, Column7, Column8,
      Column9, Column10, Column11, Column12, Column13, Column14, Column15, Column16, Column17, Column18, Column19,
      Column20, Column21, Column22;
    q0 := Six(c.s0 + Column0(a, a', b, b'), c.s1 + Column1(a, a', b, b'), c.s2 + Column2(a, a', b, b'),
              c.s3 + Column3(a, a', b, b'), c.s4 + Column4(a, a', b, b'), c.s5 + Column5(a, a', b, b'));
    q1 := Six(c'.s0 + Column6(a, a', b, b'), c'.s1 + Column7(a, a', b, b'), c'.s2 + Column8(a, a', b, b'),
              c'.s3 + Column9(a, a', b, b'), c'.s4 + Column10(a, a', b, b'), c'.s5 + Column11(a, a', b, b'));
    q2 := Six(Column12(a, a', b, b'), Column13(a, a', b, b'), Column14(a, a', b, b'),
              Column15(a, a', b, b'), Column16(a, a', b, b'), Column17(a, a', b, b'));
    q3 := Six(Column18(a, a', b, b'), Column19(a, a', b, b'), Column20(a, a', b, b'),
              Column21(a, a', b, b'), Column22(a, a', b, b'), 0);
    ProductWeight(c, c', q0, q1, q2, q3, Convolve(a, b), Convolve(a, b'), Convolve(a', b), Convolve(a', b'));
    ConvolutionWeight(a, b);
    ConvolutionWeight(a, b');
    ConvolutionWeight(a', b);
    ConvolutionWeight(a', b');
    ProductOfSums(Weigh6(a), Weigh6(a'), Weigh6(b), Weigh6(b'));
  }

  lemma ProductOfSums(u: int, u': int, v: int, v': int)
    ensures (u + TWO126 * u') * (v + TWO126 * v') == u * v + TWO126 * (u * v' + u' * v) + TWO252 * (u' * v')
  {
  }

  /** The first carries of ScMulAdd, over all twenty-four limbs. */
  method CarryProduct(x0: Six, x1: Six, x2: Six, x3: Six) returns (q0: Six, q1: Six, q2: Six, q3: Six)
    requires Within6(x0, 0x8_0000_0000_0000) && Within6(x1, 0x8_0000_0000_0000)
    requires Within6(x2, 0x8_0000_0000_0000) && Within6(x3, 0x8_0000_0000_0000) && x3.s5 == 0
    ensures Weigh12(q0, q1) + TWO252 * Weigh12(q2, q3) == Weigh12(x0, x1) + TWO252 * Weigh12(x2, x3)
    ensures Within6(q0, 0x1_0000_0000) && Within6(q1, 0x1_0000_0000) && Within6(q2, 0x1_0000_0000)
            && Within6(q3, 0x1_0000_0000)
  {
    hide Weigh6;
    q0, q1 := RoundCarries(x0, x1, 0x8_0000_0000_0000);
    q2, q3 := RoundCarries(x2, x3, 0x8_0000_0000_0000);
    ghost var c;
    var s11, s12;
    s11, s12, c := RoundCarry(q1.s5, q2.s0);
    LastLimb(q1, s11);
    FirstLimb(q2, s12);
    q1, q2 := q1.(s5 := s11), q2.(s0 := s12);
  }

  lemma FirstLimb(x: Six, s: int64)
    ensures Weigh6(x) == Weigh6(x.(s0 := s)) + x.s0 as int - s as int
  {
  }

  /** s = (a * b + c) mod L, as the unique representative below L. */
  method ScMulAdd(s: array<byte>, a: array<byte>, b: array<byte>, c: array<byte>)
    requires s.Length == a.Length == b.Length == c.Length == 32
    modifies s
    ensures Le(s[..]) == old(Le(a[..]) * Le(b[..]) + Le(c[..])) % L
  {
    hide Weigh12, Le, LoadScalar, StoreScalar;
    LoadedScalar(a[..]);
    LoadedScalar(b[..]);
    LoadedScalar(c[..]);
    var x, y, z := LoadScalar(a[..]), LoadScalar(b[..]), LoadScalar(c[..]);
    var q0, q1, q2, q3 := MultiplyAdd(x.0, x.1, y.0, y.1, z.0, z.1);
    q0, q1, q2, q3 := CarryProduct(q0, q1, q2, q3);
    var r0, r1;
    ghost var w;
    r0, r1, w := ReduceLimbs(q0, q1, q2, q3);
    StoredScalar(r0, r1);
    WriteBytes(s, StoreScalar(r0, r1));
  }

  method WriteBytes(s: array<byte>, b: seq<byte>)
    requires s.Length == |b|
    modifies s
    ensures s[..] == b
  {
    forall i | 0 <= i < s.Length {
      s[i] := b[i];
    }
  }

  /** out = s mod L for a 64-byte s, as the unique representative below L. */
  method ScReduce(out: array<byte>, s: array<byte>)
    requires out.Length == 32 && s.Length == 64
    modifies out
    ensures Le(out[..]) == old(Le(s[..])) % L
  {
    hide Weigh12, Le, LoadWide, StoreScalar;
    LoadedWide(s[..]);
    var x := LoadWide(s[..]);
    var r0, r1;
    ghost var w;
    r0, r1, w := ReduceLimbs(x.0, x.1, x.2, x.3);
    StoredScalar(r0, r1);
    WriteBytes(out, StoreScalar(r0, r1));
  }

  /** The words of the order, the least significant one first. */
  const ORDER: seq<int> := [0x5812_631a_5cf5_d3ed, 0x14de_f9de_a2f7_9cd6, 0, 0x1000_0000_0000_0000]

  /** Decides whether a scalar is below the order, by comparing words from the top. */
  method ScMinimal(scalar: array<byte>) returns (minimal: bool)
    requires scalar.Length == 32
    ensures minimal <==> Le(scalar[..]) < L
  {
    hide Le, Word64;
    ghost var s := scalar[..];
    LeOf32(s);
    var i := 3;
    while true
      invariant 0 <= i <= 3
      invariant i < 3 ==> Word64(s, 24) == ORDER[3]
      invariant i < 2 ==> Word64(s, 16) == ORDER[2]
      invariant i < 1 ==> Word64(s, 8) == ORDER[1]
      decreases i
    {
      var v := Word64(scalar[..], i * 8);
      if v > ORDER[i] {
        return false;
      } else if v < ORDER[i] {
        break;
      } else if i == 0 {
        return false;
      }
      i := i - 1;
    }
    return true;
  }

  /** A reduced scalar is minimal, and its last byte is small enough for GeScalarMultBase. */
  lemma ReducedScalar(s: seq<byte>)
    requires |s| == 32 && Le(s) < L
    ensures s[31] <= 16
  {
    LeOf32(s);
  }
}
