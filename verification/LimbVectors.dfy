/** Ten signed limbs of alternating width 26 and 25 as one integer.

    Limb k of a field element counts units of 2^ceil(25.5 k); this module relates that reading to the
    operations the field code performs on the limbs.
 */
module LimbVectors {
  import opened Residues

  datatype Limbs = Limbs(t0: int, t1: int, t2: int, t3: int, t4: int, t5: int, t6: int, t7: int, t8: int, t9: int)

  /** The integer that the limbs represent, with exponents 0, 26, 51, 77, 102, 128, 153, 179, 204 and 230. */
  ghost function Weigh(a: Limbs): int {
    a.t0 + 0x400_0000 * a.t1 + 0x8_0000_0000_0000 * a.t2 + 0x2000_0000_0000_0000_0000 * a.t3
    + 0x40_0000_0000_0000_0000_0000_0000 * a.t4 + 0x1_0000_0000_0000_0000_0000_0000_0000_0000 * a.t5
    + 0x200_0000_0000_0000_0000_0000_0000_0000_0000_0000 * a.t6
    + 0x8_0000_0000_0000_0000_0000_0000_0000_0000_0000_0000_0000 * a.t7
    + 0x1000_0000_0000_0000_0000_0000_0000_0000_0000_0000_0000_0000_0000 * a.t8
    + 0x40_0000_0000_0000_0000_0000_0000_0000_0000_0000_0000_0000_0000_0000_0000 * a.t9
  }

  function Abs(x: int): nat {
    if x < 0 then -x else x
  }

  function Max(x: nat, y: nat): nat {
    if x < y then y else x
  }

  /** The magnitude of a limb vector, where the narrower odd limbs count double.

      A vector of norm n has even limbs within n and odd limbs within n / 2.
   */
  ghost function Norm(a: Limbs): nat {
    Max(Max(Max(Abs(a.t0), 2 * Abs(a.t1)), Max(Abs(a.t2), 2 * Abs(a.t3))),
        Max(Max(Max(Abs(a.t4), 2 * Abs(a.t5)), Max(Abs(a.t6), 2 * Abs(a.t7))), Max(Abs(a.t8), 2 * Abs(a.t9))))
  }

  ghost predicate Bounded(a: Limbs, n: int) {
    && -n <= a.t0 <= n && -n <= 2 * a.t1 <= n && -n <= a.t2 <= n && -n <= 2 * a.t3 <= n && -n <= a.t4 <= n
    && -n <= 2 * a.t5 <= n && -n <= a.t6 <= n && -n <= 2 * a.t7 <= n && -n <= a.t8 <= n && -n <= 2 * a.t9 <= n
  }

  lemma NormBounds(a: Limbs, n: nat)
    ensures Norm(a) <= n <==> Bounded(a, n)
  {
  }

  ghost function Plus(a: Limbs, b: Limbs): Limbs {
    Limbs(a.t0 + b.t0, a.t1 + b.t1, a.t2 + b.t2, a.t3 + b.t3, a.t4 + b.t4,
          a.t5 + b.t5, a.t6 + b.t6, a.t7 + b.t7, a.t8 + b.t8, a.t9 + b.t9)
  }

  ghost function Scale(x: int, a: Limbs): Limbs {
    Limbs(x * a.t0, x * a.t1, x * a.t2, x * a.t3, x * a.t4, x * a.t5, x * a.t6, x * a.t7, x * a.t8, x * a.t9)
  }

  lemma WeighPlus(a: Limbs, b: Limbs)
    ensures Weigh(Plus(a, b)) == Weigh(a) + Weigh(b)
  {
  }

  lemma NormPlus(a: Limbs, b: Limbs)
    ensures Norm(Plus(a, b)) <= Norm(a) + Norm(b)
  {
    hide Norm;
    NormBounds(a, Norm(a));
    NormBounds(b, Norm(b));
    NormBounds(Plus(a, b), Norm(a) + Norm(b));
  }

  lemma WeighScale(x: int, a: Limbs)
    ensures Weigh(Scale(x, a)) == x * Weigh(a)
  {
  }

  lemma NormNegative(a: Limbs)
    ensures Norm(Scale(-1, a)) == Norm(a)
  {
    hide Norm;
    var b := Scale(-1, a);
    NormBounds(a, Norm(a));
    NormBounds(b, Norm(a));
    NormBounds(b, Norm(b));
    NormBounds(a, Norm(b));
  }

  /** The vector of the number x < 2^26. */
  ghost function Single(x: int): Limbs {
    Limbs(x, 0, 0, 0, 0, 0, 0, 0, 0, 0)
  }

  lemma SingleFacts(x: nat)
    ensures Weigh(Single(x)) == x && Norm(Single(x)) == x
  {
  }

  ghost function Minus(a: Limbs, b: Limbs): Limbs {
    Plus(a, Scale(-1, b))
  }

  lemma MinusLimbs(a: Limbs, b: Limbs)
    ensures Minus(a, b) == Limbs(a.t0 - b.t0, a.t1 - b.t1, a.t2 - b.t2, a.t3 - b.t3, a.t4 - b.t4,
                                 a.t5 - b.t5, a.t6 - b.t6, a.t7 - b.t7, a.t8 - b.t8, a.t9 - b.t9)
  {
  }

  lemma SumFacts(a: Limbs, b: Limbs, n: nat)
    requires Norm(a) + Norm(b) <= n
    ensures Bounded(Plus(a, b), n) && Bounded(Minus(a, b), n)
    ensures Weigh(Plus(a, b)) == Weigh(a) + Weigh(b)
    ensures Weigh(Minus(a, b)) == Weigh(a) - Weigh(b)
    ensures Norm(Plus(a, b)) <= Norm(a) + Norm(b)
    ensures Norm(Minus(a, b)) <= Norm(a) + Norm(b)
  {
    hide Norm, Weigh, Plus, Scale, Bounded;
    WeighScale(-1, b);
    NormNegative(b);
    NormPlus(a, b);
    NormPlus(a, Scale(-1, b));
    WeighPlus(a, b);
    WeighPlus(a, Scale(-1, b));
    NormBounds(Plus(a, b), n);
    NormBounds(Minus(a, b), n);
  }

  // ----- the product of two limb vectors

  /** Multiplication by 2^26: each limb moves up one place, the last one wraps round with factor 2 * 19. */
  ghost function Up1(a: Limbs): Limbs {
    Limbs(38 * a.t9, a.t0, 2 * a.t1, a.t2, 2 * a.t3, a.t4, 2 * a.t5, a.t6, 2 * a.t7, a.t8)
  }

  /** Multiplication by 2^51: each limb moves up two places. */
  ghost function Up2(a: Limbs): Limbs {
    Limbs(19 * a.t8, 19 * a.t9, a.t0, a.t1, a.t2, a.t3, a.t4, a.t5, a.t6, a.t7)
  }

  lemma WeighUp1(a: Limbs)
    ensures Residue(Weigh(Up1(a))) == Residue(0x400_0000 * Weigh(a))
  {
    ResidueOfMultiple(Weigh(Up1(a)), 0x400_0000 * Weigh(a), -2 * a.t9);
  }

  lemma WeighUp2(a: Limbs)
    ensures Residue(Weigh(Up2(a))) == Residue(0x8_0000_0000_0000 * Weigh(a))
  {
    ResidueOfMultiple(Weigh(Up2(a)), 0x8_0000_0000_0000 * Weigh(a), -a.t8 - 0x400_0000 * a.t9);
  }

  /** The limbs of x + 2^26 y, times g. */
  ghost function Pair(x: int, y: int, g: Limbs): Limbs {
    Plus(Scale(x, g), Scale(y, Up1(g)))
  }

  lemma WeighPair(x: int, y: int, g: Limbs)
    ensures Residue(Weigh(Pair(x, y, g))) == Residue((x + 0x400_0000 * y) * Weigh(g))
  {
    hide Weigh;
    WeighScale(x, g);
    WeighScale(y, Up1(g));
    WeighPlus(Scale(x, g), Scale(y, Up1(g)));
    WeighUp1(g);
    ResidueProduct(y, y, Weigh(Up1(g)), 0x400_0000 * Weigh(g));
    ResidueSum(x * Weigh(g), x * Weigh(g), y * Weigh(Up1(g)), y * (0x400_0000 * Weigh(g)));
    assert (x + 0x400_0000 * y) * Weigh(g) == x * Weigh(g) + y * (0x400_0000 * Weigh(g));
  }

  /** Schoolbook multiplication of limb vectors, with the overflowing half folded back by 2^255 = 19. */
  ghost function Product(f: Limbs, g: Limbs): Limbs {
    Plus(Pair(f.t0, f.t1, g),
         Plus(Pair(f.t2, f.t3, Up2(g)),
              Plus(Pair(f.t4, f.t5, Up2(Up2(g))),
                   Plus(Pair(f.t6, f.t7, Up2(Up2(Up2(g)))), Pair(f.t8, f.t9, Up2(Up2(Up2(Up2(g)))))))))
  }

  // The limbs of a product, written out.

  lemma ProductLimb0(f: Limbs, g: Limbs)
    ensures Product(f, g).t0
            == f.t0 * g.t0 + f.t1 * (38 * g.t9) + f.t2 * (19 * g.t8) + f.t3 * (38 * g.t7) + f.t4 * (19 * g.t6)
                             + f.t5 * (38 * g.t5) + f.t6 * (19 * g.t4) + f.t7 * (38 * g.t3) + f.t8 * (19 * g.t2)
                             + f.t9 * (38 * g.t1)
  {
  }

  lemma ProductLimb1(f: Limbs, g: Limbs)
    ensures Product(f, g).t1 == f.t0 * g.t1 + f.t1 * g.t0 + f.t2 * (19 * g.t9) + f.t3 * (19 * g.t8) + f.t4 * (19 * g.t7)
                             + f.t5 * (19 * g.t6) + f.t6 * (19 * g.t5) + f.t7 * (19 * g.t4) + f.t8 * (19 * g.t3)
                             + f.t9 * (19 * g.t2)
  {
  }

  lemma ProductLimb2(f: Limbs, g: Limbs)
    ensures Product(f, g).t2 == f.t0 * g.t2 + f.t1 * (2 * g.t1) + f.t2 * g.t0 + f.t3 * (38 * g.t9) + f.t4 * (19 * g.t8)
                             + f.t5 * (38 * g.t7) + f.t6 * (19 * g.t6) + f.t7 * (38 * g.t5) + f.t8 * (19 * g.t4)
                             + f.t9 * (38 * g.t3)
  {
  }

  lemma ProductLimb3(f: Limbs, g: Limbs)
    ensures Product(f, g).t3 == f.t0 * g.t3 + f.t1 * g.t2 + f.t2 * g.t1 + f.t3 * g.t0 + f.t4 * (19 * g.t9)
                             + f.t5 * (19 * g.t8) + f.t6 * (19 * g.t7) + f.t7 * (19 * g.t6) + f.t8 * (19 * g.t5)
                             + f.t9 * (19 * g.t4)
  {
  }

  lemma ProductLimb4(f: Limbs, g: Limbs)
    ensures Product(f, g).t4 == f.t0 * g.t4 + f.t1 * (2 * g.t3) + f.t2 * g.t2 + f.t3 * (2 * g.t1) + f.t4 * g.t0
                             + f.t5 * (38 * g.t9) + f.t6 * (19 * g.t8) + f.t7 * (38 * g.t7) + f.t8 * (19 * g.t6)
                             + f.t9 * (38 * g.t5)
  {
  }

  lemma ProductLimb5(f: Limbs, g: Limbs)
    ensures Product(f, g).t5 == f.t0 * g.t5 + f.t1 * g.t4 + f.t2 * g.t3 + f.t3 * g.t2 + f.t4 * g.t1
                             + f.t5 * g.t0 + f.t6 * (19 * g.t9) + f.t7 * (19 * g.t8) + f.t8 * (19 * g.t7)
                             + f.t9 * (19 * g.t6)
  {
  }

  lemma ProductLimb6(f: Limbs, g: Limbs)
    ensures Product(f, g).t6 == f.t0 * g.t6 + f.t1 * (2 * g.t5) + f.t2 * g.t4 + f.t3 * (2 * g.t3) + f.t4 * g.t2
                             + f.t5 * (2 * g.t1) + f.t6 * g.t0 + f.t7 * (38 * g.t9) + f.t8 * (19 * g.t8)
                             + f.t9 * (38 * g.t7)
  {
  }

  lemma ProductLimb7(f: Limbs, g: Limbs)
    ensures Product(f, g).t7 == f.t0 * g.t7 + f.t1 * g.t6 + f.t2 * g.t5 + f.t3 * g.t4 + f.t4 * g.t3
                             + f.t5 * g.t2 + f.t6 * g.t1 + f.t7 * g.t0 + f.t8 * (19 * g.t9) + f.t9 * (19 * g.t8)
  {
  }

  lemma ProductLimb8(f: Limbs, g: Limbs)
    ensures Product(f, g).t8 == f.t0 * g.t8 + f.t1 * (2 * g.t7) + f.t2 * g.t6 + f.t3 * (2 * g.t5) + f.t4 * g.t4
                             + f.t5 * (2 * g.t3) + f.t6 * g.t2 + f.t7 * (2 * g.t1) + f.t8 * g.t0 + f.t9 * (38 * g.t9)
  {
  }

  lemma ProductLimb9(f: Limbs, g: Limbs)
    ensures Product(f, g).t9 == f.t0 * g.t9 + f.t1 * g.t8 + f.t2 * g.t7 + f.t3 * g.t6 + f.t4 * g.t5
                             + f.t5 * g.t4 + f.t6 * g.t3 + f.t7 * g.t2 + f.t8 * g.t1 + f.t9 * g.t0
  {
  }

  /** One step of Horner's rule: a is the weight of a pair of limbs, p that of the pair times g, v and v2 those of g and
      of Up2(g), and r that of the rest. */
  lemma HornerStep(a: int, w: int, v: int, v2: int, p: int, r: int)
    requires Residue(p) == Residue(a * v) && Residue(r) == Residue(w * v2)
    requires Residue(v2) == Residue(0x8_0000_0000_0000 * v)
    ensures Residue(p + r) == Residue((a + 0x8_0000_0000_0000 * w) * v)
  {
    ResidueProduct(w, w, v2, 0x8_0000_0000_0000 * v);
    ResidueSum(p, a * v, r, w * (0x8_0000_0000_0000 * v));
    HornerSum(a, w, v);
  }

  lemma HornerSum(a: int, w: int, v: int)
    ensures (a + 0x8_0000_0000_0000 * w) * v == a * v + w * (0x8_0000_0000_0000 * v)
  {
  }

  /** The vector r weighs as much as w times g. */
  ghost predicate WeighsAs(r: Limbs, w: int, g: Limbs) {
    var v := Residue(Weigh(g));
    Residue(Weigh(r)) == Residue(w * v)
  }

  lemma WeighsByResidue(r: Limbs, w: int, g: Limbs)
    ensures WeighsAs(r, w, g) <==> Residue(Weigh(r)) == Residue(w * Weigh(g))
  {
    hide Weigh;
    ResidueTwice(Weigh(g));
    ResidueProduct(w, w, Residue(Weigh(g)), Weigh(g));
  }

  lemma WeighStep(x: int, y: int, g: Limbs, rest: Limbs, w: int)
    requires WeighsAs(rest, w, Up2(g))
    ensures WeighsAs(Plus(Pair(x, y, g), rest), x + 0x400_0000 * y + 0x8_0000_0000_0000 * w, g)
  {
    hide Weigh, Pair, Up2;
    WeighPlus(Pair(x, y, g), rest);
    WeighPair(x, y, g);
    WeighUp2(g);
    WeighsByResidue(rest, w, Up2(g));
    WeighsByResidue(Plus(Pair(x, y, g), rest), x + 0x400_0000 * y + 0x8_0000_0000_0000 * w, g);
    hide WeighsAs;
    HornerStep(x + 0x400_0000 * y, w, Weigh(g), Weigh(Up2(g)), Weigh(Pair(x, y, g)), Weigh(rest));
  }

  lemma WeighHorner(a: Limbs)
    ensures Weigh(a) == a.t0 + 0x400_0000 * a.t1 + 0x8_0000_0000_0000 * (
      a.t2 + 0x400_0000 * a.t3 + 0x8_0000_0000_0000 * (
      a.t4 + 0x400_0000 * a.t5 + 0x8_0000_0000_0000 * (
      a.t6 + 0x400_0000 * a.t7 + 0x8_0000_0000_0000 * (a.t8 + 0x400_0000 * a.t9))))
  {
  }

  lemma WeighProduct(f: Limbs, g: Limbs)
    ensures Residue(Weigh(Product(f, g))) == Residue(Weigh(f) * Weigh(g))
  {
    hide Weigh, Pair, Plus, Up2, WeighsAs;
    WeighHorner(f);
    var g2 := Up2(g);
    var g4 := Up2(g2);
    var g6 := Up2(g4);
    var w8 := f.t8 + 0x400_0000 * f.t9;
    var w6 := f.t6 + 0x400_0000 * f.t7 + 0x8_0000_0000_0000 * w8;
    var w4 := f.t4 + 0x400_0000 * f.t5 + 0x8_0000_0000_0000 * w6;
    var w2 := f.t2 + 0x400_0000 * f.t3 + 0x8_0000_0000_0000 * w4;
    var g8 := Up2(g6);
    var p8 := Pair(f.t8, f.t9, g8);
    var p6 := Plus(Pair(f.t6, f.t7, g6), p8);
    var p4 := Plus(Pair(f.t4, f.t5, g4), p6);
    WeighPair(f.t8, f.t9, g8);
    WeighsByResidue(p8, w8, g8);
    WeighStep(f.t6, f.t7, g6, p8, w8);
    WeighStep(f.t4, f.t5, g4, p6, w6);
    WeighStep(f.t2, f.t3, g2, p4, w4);
    WeighStep(f.t0, f.t1, g, Plus(Pair(f.t2, f.t3, g2), p4), w2);
    WeighsByResidue(Product(f, g), Weigh(f), g);
  }
}
