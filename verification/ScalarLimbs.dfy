/** Numbers as signed limbs of 21 bits, and their reduction modulo the order of the base point. */
module ScalarLimbs {
  import opened Bits
  import opened Words

  /** The order of the base point, 2^252 + 27742317777372353535851937790883648493. */
  const L: int := 0x1000_0000_0000_0000_0000_0000_0000_0000_14de_f9de_a2f7_9cd6_5812_631a_5cf5_d3ed

  /** L - 2^252 = -666643 - 470296 * 2^21 - 654183 * 2^42 + 997805 * 2^63 - 136657 * 2^84 + 683901 * 2^105. */
  const DELTA: int := 27742317777372353535851937790883648493

  const TWO126: int := 0x4000_0000_0000_0000_0000_0000_0000_0000
  const TWO252: int := 0x1000_0000_0000_0000_0000_0000_0000_0000_0000_0000_0000_0000_0000_0000_0000_0000

  /** Six neighbouring limbs; the limbs s0 to s23 of the Go code are four of these. */
  datatype Six = Six(s0: int64, s1: int64, s2: int64, s3: int64, s4: int64, s5: int64)

  ghost function Weigh6(x: Six): int {
    x.s0 as int + 0x20_0000 * x.s1 as int + 0x400_0000_0000 * x.s2 as int + 0x8000_0000_0000_0000 * x.s3 as int
    + 0x10_0000_0000_0000_0000_0000 * x.s4 as int + 0x200_0000_0000_0000_0000_0000_0000 * x.s5 as int
  }

  ghost function Weigh12(x: Six, y: Six): int {
    Weigh6(x) + TWO126 * Weigh6(y)
  }

  /** Every limb has magnitude at most n. */
  ghost predicate Within6(x: Six, n: int) {
    && -n <= x.s0 as int <= n && -n <= x.s1 as int <= n && -n <= x.s2 as int <= n
    && -n <= x.s3 as int <= n && -n <= x.s4 as int <= n && -n <= x.s5 as int <= n
  }

  // ----- folding: 2^252 is congruent to -DELTA

  /** Adds k times the digits of -DELTA to six limbs. */
  method Fold(x0: int64, x1: int64, x2: int64, x3: int64, x4: int64, x5: int64, k: int64, ghost n: nat, ghost m: nat)
    returns (y0: int64, y1: int64, y2: int64, y3: int64, y4: int64, y5: int64)
    requires -(m as int) <= k as int <= m && n + 0x10_0000 * m <= 0x7000_0000_0000_0000
    requires Within6(Six(x0, x1, x2, x3, x4, x5), n)
    ensures Within6(Six(y0, y1, y2, y3, y4, y5), n + 0x10_0000 * m)
    ensures y0 as int == x0 as int + 666643 * k as int && y1 as int == x1 as int + 470296 * k as int
    ensures y2 as int == x2 as int + 654183 * k as int && y3 as int == x3 as int - 997805 * k as int
    ensures y4 as int == x4 as int + 136657 * k as int && y5 as int == x5 as int - 683901 * k as int
  {
    y0 := x0 + k * 666643;
    y1 := x1 + k * 470296;
    y2 := x2 + k * 654183;
    y3 := x3 - k * 997805;
    y4 := x4 + k * 136657;
    y5 := x5 - k * 683901;
  }

  ghost function Weigh8(s0: int64, s1: int64, s2: int64, s3: int64, s4: int64, s5: int64, s6: int64, s7: int64): int {
    Weigh6(Six(s0, s1, s2, s3, s4, s5)) + TWO126 * (s6 as int + 0x20_0000 * s7 as int)
  }

  lemma FoldedThree(x0: int64, x1: int64, x2: int64, x3: int64, x4: int64, x5: int64, x6: int64, x7: int64,
                    k0: int64, k1: int64, k2: int64,
                    y0: int64, y1: int64, y2: int64, y3: int64, y4: int64, y5: int64, y6: int64, y7: int64)
    requires y0 as int == x0 as int + 666643 * k0 as int
    requires y1 as int == x1 as int + 470296 * k0 as int + 666643 * k1 as int
    requires y2 as int == x2 as int + 654183 * k0 as int + 470296 * k1 as int + 666643 * k2 as int
    requires y3 as int == x3 as int - 997805 * k0 as int + 654183 * k1 as int + 470296 * k2 as int
    requires y4 as int == x4 as int + 136657 * k0 as int - 997805 * k1 as int + 654183 * k2 as int
    requires y5 as int == x5 as int - 683901 * k0 as int + 136657 * k1 as int - 997805 * k2 as int
    requires y6 as int == x6 as int - 683901 * k1 as int + 136657 * k2 as int
    requires y7 as int == x7 as int - 683901 * k2 as int
    ensures Weigh8(y0, y1, y2, y3, y4, y5, y6, y7)
         == Weigh8(x0, x1, x2, x3, x4, x5, x6, x7)
            - DELTA * (k0 as int + 0x20_0000 * k1 as int + 0x400_0000_0000 * k2 as int)
  {
  }

  /** Folds three limbs, of which k0 lies twelve places above x0, the highest one first. */
  method FoldThree(x0: int64, x1: int64, x2: int64, x3: int64, x4: int64, x5: int64, x6: int64, x7: int64,
                   k0: int64, k1: int64, k2: int64, ghost n: nat, ghost m: nat)
    returns (y0: int64, y1: int64, y2: int64, y3: int64, y4: int64, y5: int64, y6: int64, y7: int64)
    requires Within6(Six(x0, x1, x2, x3, x4, x5), n) && Within6(Six(x6, x7, 0, 0, 0, 0), n)
    requires Within6(Six(k0, k1, k2, 0, 0, 0), m)
    requires n + 0x30_0000 * m <= 0x7000_0000_0000_0000
    ensures Within6(Six(y0, y1, y2, y3, y4, y5), n + 0x30_0000 * m)
            && Within6(Six(y6, y7, 0, 0, 0, 0), n + 0x30_0000 * m)
    ensures Weigh8(y0, y1, y2, y3, y4, y5, y6, y7)
         == Weigh8(x0, x1, x2, x3, x4, x5, x6, x7)
            - DELTA * (k0 as int + 0x20_0000 * k1 as int + 0x400_0000_0000 * k2 as int)
  {
    hide Weigh8;
    y0, y1, y2, y3, y4, y5, y6, y7 := x0, x1, x2, x3, x4, x5, x6, x7;
    y2, y3, y4, y5, y6, y7 := Fold(y2, y3, y4, y5, y6, y7, k2, n, m);
    y1, y2, y3, y4, y5, y6 := Fold(y1, y2, y3, y4, y5, y6, k1, n + 0x10_0000 * m, m);
    y0, y1, y2, y3, y4, y5 := Fold(y0, y1, y2, y3, y4, y5, k0, n + 0x20_0000 * m, m);
    FoldedThree(x0, x1, x2, x3, x4, x5, x6, x7, k0, k1, k2, y0, y1, y2, y3, y4, y5, y6, y7);
  }

  /** Folds the limbs z, which lie twelve places above x, into x and y, the highest one first. */
  method FoldSix(x: Six, y: Six, z: Six, ghost n: nat, ghost m: nat) returns (x': Six, y': Six)
    requires Within6(x, n) && Within6(y, n) && Within6(z, m)
    requires n + 0x60_0000 * m <= 0x7000_0000_0000_0000
    ensures Weigh12(x', y') == Weigh12(x, y) - DELTA * Weigh6(z)
    ensures Within6(x', n + 0x60_0000 * m) && Within6(y', n + 0x60_0000 * m) && y'.s5 == y.s5
  {
    hide Weigh6, Weigh8;
    var r3, r4, r5, r6, r7, r8, r9, r10 :=
      FoldThree(x.s3, x.s4, x.s5, y.s0, y.s1, y.s2, y.s3, y.s4, z.s3, z.s4, z.s5, n, m);
    var t0, t1, t2, t3, t4, t5, t6, t7 :=
      FoldThree(x.s0, x.s1, x.s2, r3, r4, r5, r6, r7, z.s0, z.s1, z.s2, n + 0x30_0000 * m, m);
    x', y' := Six(t0, t1, t2, t3, t4, t5), Six(t6, t7, r8, r9, r10, y.s5);
    FoldedWeight(x, y, z, r3, r4, r5, r6, r7, x', y');
  }

  lemma FoldedWeight(x: Six, y: Six, z: Six, r3: int64, r4: int64, r5: int64, r6: int64, r7: int64, x': Six, y': Six)
    requires Weigh8(r3, r4, r5, r6, r7, y'.s2, y'.s3, y'.s4)
          == Weigh8(x.s3, x.s4, x.s5, y.s0, y.s1, y.s2, y.s3, y.s4)
             - DELTA * (z.s3 as int + 0x20_0000 * z.s4 as int + 0x400_0000_0000 * z.s5 as int)
    requires Weigh8(x'.s0, x'.s1, x'.s2, x'.s3, x'.s4, x'.s5, y'.s0, y'.s1)
          == Weigh8(x.s0, x.s1, x.s2, r3, r4, r5, r6, r7)
             - DELTA * (z.s0 as int + 0x20_0000 * z.s1 as int + 0x400_0000_0000 * z.s2 as int)
    requires y'.s5 == y.s5
    ensures Weigh12(x', y') == Weigh12(x, y) - DELTA * Weigh6(z)
  {
  }

  // ----- carrying

  /** Moves the part of a limb above 21 bits, rounded to nearest, into the next limb. */
  method RoundCarry(s: int64, next: int64) returns (s': int64, next': int64, ghost c: int)
    requires -0x7000_0000_0000_0000 <= s <= 0x7000_0000_0000_0000
    requires -0x7000_0000_0000_0000 <= next <= 0x7000_0000_0000_0000
    ensures -0x10_0000 <= s' < 0x10_0000
    ensures s as int == s' as int + 0x20_0000 * c && next' as int == next as int + c
  {
    var carry := (s + 0x10_0000) / 0x20_0000;
    next' := next + carry;
    s' := s - carry * 0x20_0000;
    c := carry as int;
  }

  /** The same, rounded down. */
  method FloorCarry(s: int64, next: int64) returns (s': int64, next': int64, ghost c: int)
    requires -0x7000_0000_0000_0000 <= s <= 0x7000_0000_0000_0000
    requires -0x7000_0000_0000_0000 <= next <= 0x7000_0000_0000_0000
    ensures 0 <= s' < 0x20_0000
    ensures s as int == s' as int + 0x20_0000 * c && next' as int == next as int + c
  {
    var carry := s / 0x20_0000;
    next' := next + carry;
    s' := s - carry * 0x20_0000;
    c := carry as int;
  }

  /** Carries out of the even limbs of x and y and then out of the odd ones, but for the last. */
  method RoundCarries(x: Six, y: Six, ghost n: nat) returns (x': Six, y': Six)
    requires Within6(x, n) && Within6(y, n) && n <= 0x3000_0000_0000_0000
    ensures Weigh12(x', y') == Weigh12(x, y)
    ensures Within6(x', 0x10_0001 + n / 0x10_0000)
    ensures Within6(y'.(s5 := 0), 0x10_0001 + n / 0x10_0000)
    ensures y.s5 as int - 1 - n / 0x10_0000 <= y'.s5 as int <= y.s5 as int + 1 + n / 0x10_0000
    ensures -0x10_0000 <= x'.s5 < 0x10_0000
  {
    hide Weigh6;
    var s0, s1, s2, s3, s4, s5 := x.s0, x.s1, x.s2, x.s3, x.s4, x.s5;
    var s6, s7, s8, s9, s10, s11 := y.s0, y.s1, y.s2, y.s3, y.s4, y.s5;
    ghost var c0, c1, c2, c3, c4, c5, c6, c7, c8, c9, c10;
    s0, s1, c0 := RoundCarry(s0, s1);
    s2, s3, c2 := RoundCarry(s2, s3);
    s4, s5, c4 := RoundCarry(s4, s5);
    s6, s7, c6 := RoundCarry(s6, s7);
    s8, s9, c8 := RoundCarry(s8, s9);
    s10, s11, c10 := RoundCarry(s10, s11);
    s1, s2, c1 := RoundCarry(s1, s2);
    s3, s4, c3 := RoundCarry(s3, s4);
    s5, s6, c5 := RoundCarry(s5, s6);
    s7, s8, c7 := RoundCarry(s7, s8);
    s9, s10, c9 := RoundCarry(s9, s10);
    x' := Six(s0, s1, s2, s3, s4, s5);
    y' := Six(s6, s7, s8, s9, s10, s11);
    CarriedWeight(x, y, x', y', c0, c1, c2, c3, c4, c5, c6, c7, c8, c9, c10, 0);
  }

  lemma CarriedWeight(x: Six, y: Six, x': Six, y': Six, c0: int, c1: int, c2: int, c3: int, c4: int, c5: int,
                      c6: int, c7: int, c8: int, c9: int, c10: int, c11: int)
    requires x.s0 as int == x'.s0 as int + 0x20_0000 * c0
    requires x.s1 as int + c0 == x'.s1 as int + 0x20_0000 * c1
    requires x.s2 as int + c1 == x'.s2 as int + 0x20_0000 * c2
    requires x.s3 as int + c2 == x'.s3 as int + 0x20_0000 * c3
    requires x.s4 as int + c3 == x'.s4 as int + 0x20_0000 * c4
    requires x.s5 as int + c4 == x'.s5 as int + 0x20_0000 * c5
    requires y.s0 as int + c5 == y'.s0 as int + 0x20_0000 * c6
    requires y.s1 as int + c6 == y'.s1 as int + 0x20_0000 * c7
    requires y.s2 as int + c7 == y'.s2 as int + 0x20_0000 * c8
    requires y.s3 as int + c8 == y'.s3 as int + 0x20_0000 * c9
    requires y.s4 as int + c9 == y'.s4 as int + 0x20_0000 * c10
    requires y.s5 as int + c10 == y'.s5 as int + 0x20_0000 * c11
    ensures Weigh12(x, y) == Weigh12(x', y') + TWO252 * c11
  {
  }

  ghost predicate IsDigit(s: int64) {
    0 <= s < 0x20_0000
  }

  ghost predicate AreDigits(x: Six) {
    IsDigit(x.s0) && IsDigit(x.s1) && IsDigit(x.s2) && IsDigit(x.s3) && IsDigit(x.s4) && IsDigit(x.s5)
  }

  /** Carries out of every limb but the last, rounding down, so that the others become digits. */
  method FloorFive(x: Six) returns (x': Six)
    requires Within6(x, 0x2000_0000_0000_0000)
    ensures Weigh6(x') == Weigh6(x) && AreDigits(x'.(s5 := 0))
    ensures x.s5 as int - 0x200_0000_0000 <= x'.s5 as int <= x.s5 as int + 0x200_0000_0000
  {
    var s0, s1, s2, s3, s4, s5 := x.s0, x.s1, x.s2, x.s3, x.s4, x.s5;
    ghost var c0, c1, c2, c3, c4;
    s0, s1, c0 := FloorCarry(s0, s1);
    s1, s2, c1 := FloorCarry(s1, s2);
    s2, s3, c2 := FloorCarry(s2, s3);
    s3, s4, c3 := FloorCarry(s3, s4);
    s4, s5, c4 := FloorCarry(s4, s5);
    x' := Six(s0, s1, s2, s3, s4, s5);
  }

  /** The same for twelve limbs. */
  method FloorCarries(x: Six, y: Six) returns (x': Six, y': Six)
    requires Within6(x, 0x1000_0000_0000_0000) && Within6(y, 0x1000_0000_0000_0000)
    ensures Weigh12(x, y) == Weigh12(x', y')
    ensures AreDigits(x') && AreDigits(y'.(s5 := 0)) && -0x2000_0000_0000_0000 <= y'.s5 <= 0x2000_0000_0000_0000
  {
    hide Weigh6;
    x' := FloorFive(x);
    var s5, s6;
    ghost var c;
    s5, s6, c := FloorCarry(x'.s5, y.s0);
    LastLimb(x', s5);
    FirstLimb(y, s6);
    x' := x'.(s5 := s5);
    y' := FloorFive(y.(s0 := s6));
  }

  lemma DigitsBound(x: Six)
    requires AreDigits(x)
    ensures 0 <= Weigh6(x) < TWO126
  {
  }

  lemma LastLimb(x: Six, s: int64)
    ensures Weigh6(x) == Weigh6(x.(s5 := s)) + 0x200_0000_0000_0000_0000_0000_0000 * (x.s5 as int - s as int)
  {
  }

  lemma FirstLimb(x: Six, s: int64)
    ensures Weigh6(x.(s0 := s)) == Weigh6(x) + (s as int - x.s0 as int)
  {
  }

  lemma TopLimbs(x: Six, y: Six, n: int)
    requires Within6(x, n) && Within6(y.(s5 := 0), n) && n <= 0x40_0000_0000
    requires -0x10_0000 <= y.s5 < 0x10_0000
    ensures -TWO252 < 2 * Weigh12(x, y) + TWO252 / 4 && 2 * Weigh12(x, y) - TWO252 / 4 < TWO252
  {
  }

  // ----- reduction

  /** Folds s23 to s12 and carries, as ScReduce and ScMulAdd both do, down to twelve limbs and a small s12. */
  method FoldAll(q0: Six, q1: Six, q2: Six, q3: Six) returns (r0: Six, r1: Six, s12: int64, ghost k: int)
    requires Within6(q0, 0x1_0000_0000) && Within6(q1, 0x1_0000_0000) && Within6(q2, 0x1_0000_0000)
            && Within6(q3, 0x1_0000_0000)
    ensures Weigh12(r0, r1) + TWO252 * s12 as int == Weigh12(q0, q1) + TWO252 * Weigh12(q2, q3) - L * k
    ensures Within6(r0, 0x40_0000_0000) && Within6(r1.(s5 := 0), 0x40_0000_0000) && -0x10_0000 <= r1.s5 < 0x10_0000
    ensures -0x4_0000 <= s12 <= 0x4_0000
  {
    hide Weigh6;
    var x1, x2 := FoldSix(q1, q2, q3, 0x1_0000_0000, 0x1_0000_0000);
    x1, x2 := RoundCarries(x1, x2, 0x60_0001_0000_0000);
    r0, r1 := FoldSix(q0, x1, x2, 0x8_0000_0000, 0x8_0000_0000);
    r0, r1 := RoundCarries(r0, r1, 0x300_0008_0000_0000);
    k := TWO126 * Weigh6(q3) + Weigh6(x2);
    assert Weigh12(r0, r1) == Weigh12(q0, q1) + TWO252 * Weigh12(q2, q3) - L * k;
    ghost var c;
    var s11;
    s11, s12, c := RoundCarry(r1.s5, 0);
    LastLimb(r1, s11);
    r1 := r1.(s5 := s11);
  }

  method FoldTop(x: Six, s12: int64) returns (y: Six)
    requires Within6(x, 0x40_0000_0000) && -0x4_0000 <= s12 <= 0x4_0000
    ensures Weigh6(y) == Weigh6(x) - DELTA * s12 as int
    ensures Within6(y, 0x80_0000_0000)
  {
    var y0, y1, y2, y3, y4, y5 := Fold(x.s0, x.s1, x.s2, x.s3, x.s4, x.s5, s12, 0x40_0000_0000, 0x4_0000);
    y := Six(y0, y1, y2, y3, y4, y5);
  }

  /** Floor carries split a number between -2^252 and 2^252 into digits and a quotient of -1 or 0, by its sign. */
  method SplitSign(x: Six, y: Six) returns (x': Six, y': Six, top: int64)
    requires Within6(x, 0x1000_0000_0000_0000) && Within6(y, 0x1000_0000_0000_0000)
    requires -TWO252 < Weigh12(x, y) < TWO252
    ensures AreDigits(x') && AreDigits(y')
    ensures top == if Weigh12(x, y) < 0 then -1 else 0
    ensures Weigh12(x, y) == Weigh12(x', y') + TWO252 * top as int
  {
    hide Weigh6;
    x', y' := FloorCarries(x, y);
    ghost var c;
    var s11;
    s11, top, c := FloorCarry(y'.s5, 0);
    LastLimb(y', s11);
    y' := y'.(s5 := s11);
    DigitsBound(x');
    DigitsBound(y');
  }

  /** The limbs of the canonical representative modulo L; only the last one may exceed 21 bits, by one.

      After the first of the two closing folds the value w lies between -2^252 and 2^252, so the second one has only
      to add L to a negative w.
   */
  method ReduceLimbs(q0: Six, q1: Six, q2: Six, q3: Six) returns (r0: Six, r1: Six, ghost w: int)
    requires Within6(q0, 0x1_0000_0000) && Within6(q1, 0x1_0000_0000)
    requires Within6(q2, 0x1_0000_0000) && Within6(q3, 0x1_0000_0000)
    ensures Weigh12(r0, r1) == (Weigh12(q0, q1) + TWO252 * Weigh12(q2, q3)) % L
    ensures -TWO252 < w < TWO252 && Weigh12(r0, r1) == if w < 0 then w + L else w
    ensures AreDigits(r0) && AreDigits(r1.(s5 := 0)) && 0 <= r1.s5 <= 0x20_0000
  {
    hide Weigh6;
    ghost var v := Weigh12(q0, q1) + TWO252 * Weigh12(q2, q3);
    var s12;
    ghost var k;
    r0, r1, s12, k := FoldAll(q0, q1, q2, q3);
    TopLimbs(r0, r1, 0x40_0000_0000);
    r0 := FoldTop(r0, s12);
    w := Weigh12(r0, r1);
    assert w == v - L * (k + s12 as int);
    var top;
    r0, r1, top := SplitSign(r0, r1);
    DigitsBound(r0);
    DigitsBound(r1);
    r0 := FoldTop(r0, top);
    r0, r1 := FloorCarries(r0, r1);
    assert Weigh12(r0, r1) == w - L * top as int;
    Canonical(v, k + s12 as int + top as int, Weigh12(r0, r1));
    LastDigit(r0, r1);
  }

  lemma Canonical(v: int, k: int, r: int)
    requires r == v - L * k && 0 <= r < L
    ensures r == v % L
  {
    DivisionIsUnique(v, L, k, r);
  }

  lemma LastDigit(x: Six, y: Six)
    requires AreDigits(x) && AreDigits(y.(s5 := 0))
    requires 0 <= Weigh12(x, y) < L
    ensures 0 <= y.s5 <= 0x20_0000
  {
  }
}
