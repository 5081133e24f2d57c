/** Field elements of GF(2^255 - 19) as arrays of ten int32 limbs, updated in place. */
module FieldElements {
  import opened Words
  import opened Residues
  import opened LimbVectors

  /** Size of a freshly carried element: even limbs within 1.01 * 2^25, odd limbs within 1.01 * 2^24. */
  const CARRIED: nat := 33890304

  /** Largest size that may be multiplied: even limbs within 1.65 * 2^26, odd limbs within 1.65 * 2^25. */
  const LIMIT: nat := 110729625

  ghost function LimbsOf(h: seq<int32>): Limbs
    requires |h| == 10
  {
    Limbs(h[0] as int, h[1] as int, h[2] as int, h[3] as int, h[4] as int,
          h[5] as int, h[6] as int, h[7] as int, h[8] as int, h[9] as int)
  }

  /** The integer that an element represents, and its size. */
  ghost function Val(h: seq<int32>): int
    requires |h| == 10
  {
    Weigh(LimbsOf(h))
  }

  ghost function Size(h: seq<int32>): nat
    requires |h| == 10
  {
    Norm(LimbsOf(h))
  }

  method FeZero(fe: array<int32>)
    requires fe.Length == 10
    modifies fe
    ensures LimbsOf(fe[..]) == Single(0)
    ensures Val(fe[..]) == 0 && Size(fe[..]) == 0
  {
    hide Weigh, Norm;
    forall i | 0 <= i < 10 {
      fe[i] := 0;
    }
    SingleFacts(0);
  }

  method FeOne(fe: array<int32>)
    requires fe.Length == 10
    modifies fe
    ensures Val(fe[..]) == 1 && Size(fe[..]) == 1
  {
    hide Weigh, Norm;
    FeZero(fe);
    fe[0] := 1;
    SingleFacts(1);
    assert LimbsOf(fe[..]) == Single(1);
  }

  // Each limb of a sum, difference or negation depends on the same limb of the operands alone, so the
  // destination may be one of them.

  method FeAdd(dst: array<int32>, a: array<int32>, b: array<int32>)
    requires dst.Length == a.Length == b.Length == 10
    requires Size(a[..]) + Size(b[..]) < 0x8000_0000
    modifies dst
    ensures Val(dst[..]) == old(Val(a[..]) + Val(b[..]))
    ensures Size(dst[..]) <= old(Size(a[..]) + Size(b[..]))
  {
    hide Weigh, Norm;
    ghost var x, y := LimbsOf(a[..]), LimbsOf(b[..]);
    SumFacts(x, y, 0x7fff_ffff);
    dst[0], dst[1], dst[2], dst[3], dst[4], dst[5], dst[6], dst[7], dst[8], dst[9] :=
      a[0] + b[0], a[1] + b[1], a[2] + b[2], a[3] + b[3], a[4] + b[4],
      a[5] + b[5], a[6] + b[6], a[7] + b[7], a[8] + b[8], a[9] + b[9];
    assert LimbsOf(dst[..]) == Plus(x, y);
  }

  method FeSub(dst: array<int32>, a: array<int32>, b: array<int32>)
    requires dst.Length == a.Length == b.Length == 10
    requires Size(a[..]) + Size(b[..]) < 0x8000_0000
    modifies dst
    ensures Val(dst[..]) == old(Val(a[..]) - Val(b[..]))
    ensures Size(dst[..]) <= old(Size(a[..]) + Size(b[..]))
  {
    hide Weigh, Norm, Minus;
    ghost var x, y := LimbsOf(a[..]), LimbsOf(b[..]);
    SumFacts(x, y, 0x7fff_ffff);
    MinusLimbs(x, y);
    dst[0], dst[1], dst[2], dst[3], dst[4], dst[5], dst[6], dst[7], dst[8], dst[9] :=
      a[0] - b[0], a[1] - b[1], a[2] - b[2], a[3] - b[3], a[4] - b[4],
      a[5] - b[5], a[6] - b[6], a[7] - b[7], a[8] - b[8], a[9] - b[9];
    assert LimbsOf(dst[..]) == Minus(x, y);
  }

  method FeNeg(h: array<int32>, f: array<int32>)
    requires h.Length == f.Length == 10
    requires Size(f[..]) < 0x8000_0000
    modifies h
    ensures Val(h[..]) == -old(Val(f[..]))
    ensures Size(h[..]) == old(Size(f[..]))
  {
    hide Weigh, Norm;
    ghost var x := LimbsOf(f[..]);
    WeighScale(-1, x);
    NormNegative(x);
    NormBounds(x, Norm(x));
    h[0], h[1], h[2], h[3], h[4], h[5], h[6], h[7], h[8], h[9] :=
      -f[0], -f[1], -f[2], -f[3], -f[4], -f[5], -f[6], -f[7], -f[8], -f[9];
    assert LimbsOf(h[..]) == Scale(-1, x);
  }

  method FeCopy(dst: array<int32>, src: array<int32>)
    requires dst.Length == src.Length == 10
    modifies dst
    ensures dst[..] == old(src[..])
  {
    forall i | 0 <= i < 10 {
      dst[i] := src[i];
    }
  }

  // ----- carrying

  /** Largest magnitude of a limb that is carried. */
  const WIDE: int64 := 0x5000_0000_0000_0000

  ghost predicate IsWide(h: int64) {
    -WIDE <= h <= WIDE
  }

  /** Moves the part of an even limb above 26 bits, rounded to nearest, into the next limb. */
  method Carry26(h: int64, next: int64) returns (h': int64, next': int64, ghost c: int)
    requires -0x6000_0000_0000_0000 <= h <= 0x6000_0000_0000_0000
    requires -0x6000_0000_0000_0000 <= next <= 0x6000_0000_0000_0000
    ensures -0x200_0000 <= h' < 0x200_0000
    ensures h' as int == h as int - 0x400_0000 * c && next' as int == next as int + c
  {
    var q := (h + 0x200_0000) / 0x400_0000;
    next' := next + q;
    h' := h - q * 0x400_0000;
    c := q as int;
  }

  /** The same for an odd limb of 25 bits. */
  method Carry25(h: int64, next: int64) returns (h': int64, next': int64, ghost c: int)
    requires -0x6000_0000_0000_0000 <= h <= 0x6000_0000_0000_0000
    requires -0x6000_0000_0000_0000 <= next <= 0x6000_0000_0000_0000
    ensures -0x100_0000 <= h' < 0x100_0000
    ensures h' as int == h as int - 0x200_0000 * c && next' as int == next as int + c
  {
    var q := (h + 0x100_0000) / 0x200_0000;
    next' := next + q;
    h' := h - q * 0x200_0000;
    c := q as int;
  }

  ghost function WideLimbs(h0: int64, h1: int64, h2: int64, h3: int64, h4: int64,
                           h5: int64, h6: int64, h7: int64, h8: int64, h9: int64): Limbs
  {
    Limbs(h0 as int, h1 as int, h2 as int, h3 as int, h4 as int, h5 as int, h6 as int, h7 as int, h8 as int, h9 as int)
  }

  // Neither half of the carry chain of FeCombine changes the value, but for a multiple of P.

  lemma EightCarries(a: Limbs, c0: int, c1: int, c2: int, c3: int, c4: int, c5: int, c6: int, c7: int)
    ensures Weigh(Limbs(a.t0 - 0x400_0000 * c0, a.t1 + c0 - 0x200_0000 * c1,
                        a.t2 + c1 - 0x400_0000 * c2, a.t3 + c2 - 0x200_0000 * c3, a.t4 - 0x400_0000 * c4 + c3,
                        a.t5 + c4 - 0x200_0000 * c5, a.t6 + c5 - 0x400_0000 * c6, a.t7 + c6 - 0x200_0000 * c7,
                        a.t8 + c7, a.t9)) == Weigh(a)
  {
  }

  lemma LastCarries(a: Limbs, c4: int, c8: int, c9: int, c0: int)
    ensures Weigh(Limbs(a.t0 + 19 * c9 - 0x400_0000 * c0, a.t1 + c0, a.t2, a.t3, a.t4 - 0x400_0000 * c4, a.t5 + c4,
                        a.t6, a.t7, a.t8 - 0x400_0000 * c8, a.t9 + c8 - 0x200_0000 * c9)) == Weigh(a) - c9 * P
  {
  }

  method FirstCarries(a0: int64, a1: int64, a2: int64, a3: int64, a4: int64,
                      a5: int64, a6: int64, a7: int64, a8: int64, a9: int64)
    returns (h0: int64, h1: int64, h2: int64, h3: int64, h4: int64,
             h5: int64, h6: int64, h7: int64, h8: int64, h9: int64)
    requires IsWide(a0) && IsWide(a1) && IsWide(a2) && IsWide(a3) && IsWide(a4)
    requires IsWide(a5) && IsWide(a6) && IsWide(a7) && IsWide(a8) && IsWide(a9)
    ensures Weigh(WideLimbs(h0, h1, h2, h3, h4, h5, h6, h7, h8, h9))
         == Weigh(WideLimbs(a0, a1, a2, a3, a4, a5, a6, a7, a8, a9))
    ensures -0x200_0000 <= h0 <= 0x200_0000 && -0x100_0000 <= h1 <= 0x100_0000
    ensures -0x200_0000 <= h2 <= 0x200_0000 && -0x100_0000 <= h3 <= 0x100_0000
    ensures -0x40_0000_0000 <= h4 <= 0x40_0000_0000 && -0x100_0000 <= h5 <= 0x100_0000
    ensures -0x200_0000 <= h6 <= 0x200_0000 && -0x100_0000 <= h7 <= 0x100_0000
    ensures -0x5100_0000_0000_0000 <= h8 <= 0x5100_0000_0000_0000
    ensures h9 == a9
  {
    hide Weigh;
    h0, h1, h2, h3, h4, h5, h6, h7, h8, h9 := a0, a1, a2, a3, a4, a5, a6, a7, a8, a9;
    ghost var c0, c1, c2, c3, c4, c5, c6, c7;
    h0, h1, c0 := Carry26(h0, h1);
    h4, h5, c4 := Carry26(h4, h5);
    h1, h2, c1 := Carry25(h1, h2);
    h5, h6, c5 := Carry25(h5, h6);
    h2, h3, c2 := Carry26(h2, h3);
    h6, h7, c6 := Carry26(h6, h7);
    h3, h4, c3 := Carry25(h3, h4);
    h7, h8, c7 := Carry25(h7, h8);
    EightCarries(WideLimbs(a0, a1, a2, a3, a4, a5, a6, a7, a8, a9), c0, c1, c2, c3, c4, c5, c6, c7);
  }

  /** Brings ten wide limbs back to the size of a carried element without changing their value modulo P. */
  method FeCombine(h: array<int32>, a0: int64, a1: int64, a2: int64, a3: int64, a4: int64,
                   a5: int64, a6: int64, a7: int64, a8: int64, a9: int64)
    requires h.Length == 10
    requires IsWide(a0) && IsWide(a1) && IsWide(a2) && IsWide(a3) && IsWide(a4)
    requires IsWide(a5) && IsWide(a6) && IsWide(a7) && IsWide(a8) && IsWide(a9)
    modifies h
    ensures Residue(Val(h[..])) == Residue(Weigh(WideLimbs(a0, a1, a2, a3, a4, a5, a6, a7, a8, a9)))
    ensures Size(h[..]) <= CARRIED
  {
    hide Weigh, Norm;
    var h0, h1, h2, h3, h4, h5, h6, h7, h8, h9 := FirstCarries(a0, a1, a2, a3, a4, a5, a6, a7, a8, a9);
    ghost var mid := WideLimbs(h0, h1, h2, h3, h4, h5, h6, h7, h8, h9);
    ghost var c0, c4, c8;
    h4, h5, c4 := Carry26(h4, h5);
    h8, h9, c8 := Carry26(h8, h9);
    var c9 := (h9 + 0x100_0000) / 0x200_0000;
    h0 := h0 + c9 * 19;
    h9 := h9 - c9 * 0x200_0000;
    h0, h1, c0 := Carry26(h0, h1);
    LastCarries(mid, c4, c8, c9 as int, c0);
    ResidueOfMultiple(Weigh(mid) - c9 as int * P, Weigh(mid), -(c9 as int));
    NormBounds(WideLimbs(h0, h1, h2, h3, h4, h5, h6, h7, h8, h9), CARRIED);
    h[0], h[1], h[2], h[3], h[4], h[5], h[6], h[7], h[8], h[9] :=
      h0 as int32, h1 as int32, h2 as int32, h3 as int32, h4 as int32,
      h5 as int32, h6 as int32, h7 as int32, h8 as int32, h9 as int32;
    assert LimbsOf(h[..]) == WideLimbs(h0, h1, h2, h3, h4, h5, h6, h7, h8, h9);
  }
}
