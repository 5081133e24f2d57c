/** Field elements as 32 little-endian bytes (RFC 8032, section 5.1.2). */
module FieldBytes {
  import opened Bits
  import opened Words
  import opened BytePacking
  import opened Residues
  import opened LimbVectors
  import opened FieldElements

  const TWO255: nat := 0x8000_0000_0000_0000_0000_0000_0000_0000_0000_0000_0000_0000_0000_0000_0000_0000

  /** The number in a 32-byte string without its most significant bit. */
  ghost function LowBits(s: seq<byte>): nat
    requires |s| == 32
  {
    Le(s) % TWO255
  }

  lemma SplitTopBit(s: seq<byte>)
    requires |s| == 32
    ensures Le(s) == LowBits(s) + TWO255 * (s[31] as nat / 128)
  {
    LeOf32(s);
    hide Le;
    var w0, w1, w2 := Word64(s, 0), Word64(s, 8), Word64(s, 16);
    var w3 := Word64(s, 24);
    var b := s[31] as nat / 128;
    assert 0 <= w3 - 0x8000_0000_0000_0000 * b < 0x8000_0000_0000_0000;
    hide Word64;
    TopBit(Le(s), w0, w1, w2, w3 - 0x8000_0000_0000_0000 * b, b);
  }

  lemma TopBit(n: nat, w0: nat, w1: nat, w2: nat, w3: nat, b: nat)
    requires w0 < 0x1_0000_0000_0000_0000 && w1 < 0x1_0000_0000_0000_0000
    requires w2 < 0x1_0000_0000_0000_0000 && w3 < 0x8000_0000_0000_0000
    requires n == w0 + 0x1_0000_0000_0000_0000 * w1 + 0x1_0000_0000_0000_0000_0000_0000_0000_0000 * w2
                  + 0x1_0000_0000_0000_0000_0000_0000_0000_0000_0000_0000_0000_0000 * w3 + TWO255 * b
    ensures n == n % TWO255 + TWO255 * b
  {
    DivisionIsUnique(n, TWO255, b, n - TWO255 * b);
  }

  method FeFromBytes(dst: array<int32>, src: array<byte>)
    requires dst.Length == 10 && src.Length == 32
    modifies dst
    ensures Residue(Val(dst[..])) == Residue(LowBits(src[..]))
    ensures Size(dst[..]) <= CARRIED
  {
    hide Weigh, Norm, LowBits;
    var s := src[..];
    var h0 := Load4(s, 0);
    var h1 := Load3(s, 4) * 0x40;
    var h2 := Load3(s, 7) * 0x20;
    var h3 := Load3(s, 10) * 8;
    var h4 := Load3(s, 13) * 4;
    var h5 := Load4(s, 16);
    var h6 := Load3(s, 20) * 0x80;
    var h7 := Load3(s, 23) * 0x20;
    var h8 := Load3(s, 26) * 0x10;
    var h9 := Low23(Load3(s, 29)) * 4;
    LoadedLimbs(s, h0 as int, h1 as int, h2 as int, h3 as int, h4 as int,
                h5 as int, h6 as int, h7 as int, h8 as int, h9 as int);
    FeCombine(dst, h0, h1, h2, h3, h4, h5, h6, h7, h8, h9);
  }

  /** The Go expression `x & 8388607`. */
  function Low23(x: int64): (r: int64)
    ensures r as int == x as int % 0x80_0000
  {
    PowersOfTwo();
    AndMask(23, x as int);
    And(0x7f_ffff, x as int) as int64
  }

  // Limbs 0 to 4 hold the first sixteen bytes, limbs 5 to 9 the others.

  lemma LoadedLimbs(s: seq<byte>, h0: int, h1: int, h2: int, h3: int, h4: int,
                    h5: int, h6: int, h7: int, h8: int, h9: int)
    requires |s| == 32
    requires h0 == Load4(s, 0) as int && h1 == 0x40 * Load3(s, 4) as int && h2 == 0x20 * Load3(s, 7) as int
    requires h3 == 8 * Load3(s, 10) as int && h4 == 4 * Load3(s, 13) as int && h5 == Load4(s, 16) as int
    requires h6 == 0x80 * Load3(s, 20) as int && h7 == 0x20 * Load3(s, 23) as int && h8 == 0x10 * Load3(s, 26) as int
    requires h9 == 4 * (Load3(s, 29) as int % 0x80_0000)
    ensures Weigh(Limbs(h0, h1, h2, h3, h4, h5, h6, h7, h8, h9)) == LowBits(s)
  {
    LowHalf(s);
    HighHalf(s);
    hide Load3, Load4, Word64;
    SplitTopBit(s);
    LeOf32(s);
    hide Le, LowBits;
  }

  lemma LowHalf(s: seq<byte>)
    requires |s| == 32
    ensures Word64(s, 0) + 0x1_0000_0000_0000_0000 * Word64(s, 8)
         == Load4(s, 0) as int + 0x400_0000 * (0x40 * Load3(s, 4) as int)
            + 0x8_0000_0000_0000 * (0x20 * Load3(s, 7) as int)
            + 0x2000_0000_0000_0000_0000 * (8 * Load3(s, 10) as int)
            + 0x40_0000_0000_0000_0000_0000_0000 * (4 * Load3(s, 13) as int)
  {
    hide Load3, Load4;
  }

  lemma HighHalf(s: seq<byte>)
    requires |s| == 32
    ensures Word64(s, 16) + 0x1_0000_0000_0000_0000 * Word64(s, 24)
         == Load4(s, 16) as int + 0x200_0000 * (0x80 * Load3(s, 20) as int)
            + 0x8_0000_0000_0000 * (0x20 * Load3(s, 23) as int)
            + 0x1000_0000_0000_0000_0000 * (0x10 * Load3(s, 26) as int)
            + 0x40_0000_0000_0000_0000_0000_0000 * (4 * (Load3(s, 29) as int % 0x80_0000))
            + 0x8000_0000_0000_0000_0000_0000_0000_0000 * (s[31] as int / 128)
  {
    hide Load3, Load4;
    assert Load3(s, 29) as int % 0x80_0000 == Load3(s, 29) as int - 0x80_0000 * (s[31] as int / 128);
  }

  // ----- FeToBytes

  /** Largest size that FeToBytes accepts: even limbs within 1.1 * 2^26, odd limbs within 1.1 * 2^25. */
  const PRINTABLE: nat := 73819750

  /** The limbs of a number in 0 .. 2^255 - 1. */
  ghost predicate Canonical(a: Limbs) {
    && 0 <= a.t0 < 0x400_0000 && 0 <= a.t1 < 0x200_0000 && 0 <= a.t2 < 0x400_0000 && 0 <= a.t3 < 0x200_0000
    && 0 <= a.t4 < 0x400_0000 && 0 <= a.t5 < 0x200_0000 && 0 <= a.t6 < 0x400_0000 && 0 <= a.t7 < 0x200_0000
    && 0 <= a.t8 < 0x400_0000 && 0 <= a.t9 < 0x200_0000
  }

  lemma CanonicalFacts(a: Limbs)
    requires Canonical(a)
    ensures 0 <= Weigh(a) < TWO255
    ensures Norm(a) <= 0x400_0000
  {
    NormBounds(a, 0x400_0000);
    hide Norm;
  }

  /** The remainders of the nested floor divisions are the limbs of (value + q0) modulo 2^255. */
  lemma NestedFloors(a: Limbs, q0: int, q1: int, q2: int, q3: int, q4: int, q5: int, q6: int, q7: int, q8: int, q9: int,
                     q: int)
    requires q1 == (a.t0 + q0) / 0x400_0000 && q2 == (a.t1 + q1) / 0x200_0000
    requires q3 == (a.t2 + q2) / 0x400_0000 && q4 == (a.t3 + q3) / 0x200_0000
    requires q5 == (a.t4 + q4) / 0x400_0000 && q6 == (a.t5 + q5) / 0x200_0000
    requires q7 == (a.t6 + q6) / 0x400_0000 && q8 == (a.t7 + q7) / 0x200_0000
    requires q9 == (a.t8 + q8) / 0x400_0000 && q == (a.t9 + q9) / 0x200_0000
    ensures 0 <= Weigh(a) + q0 - TWO255 * q < TWO255
  {
    var r := Limbs((a.t0 + q0) % 0x400_0000, (a.t1 + q1) % 0x200_0000, (a.t2 + q2) % 0x400_0000,
                   (a.t3 + q3) % 0x200_0000, (a.t4 + q4) % 0x400_0000, (a.t5 + q5) % 0x200_0000,
                   (a.t6 + q6) % 0x400_0000, (a.t7 + q7) % 0x200_0000,
                   (a.t8 + q8) % 0x400_0000, (a.t9 + q9) % 0x200_0000);
    assert Canonical(r);
    CanonicalFacts(r);
    CarriedOut(a, r, q0, q1, q2, q3, q4, q5, q6, q7, q8, q9, q);
  }

  lemma CarriedOut(a: Limbs, r: Limbs, q0: int, q1: int, q2: int, q3: int, q4: int,
                   q5: int, q6: int, q7: int, q8: int, q9: int, q: int)
    requires a.t0 + q0 == 0x400_0000 * q1 + r.t0 && a.t1 + q1 == 0x200_0000 * q2 + r.t1
    requires a.t2 + q2 == 0x400_0000 * q3 + r.t2 && a.t3 + q3 == 0x200_0000 * q4 + r.t3
    requires a.t4 + q4 == 0x400_0000 * q5 + r.t4 && a.t5 + q5 == 0x200_0000 * q6 + r.t5
    requires a.t6 + q6 == 0x400_0000 * q7 + r.t6 && a.t7 + q7 == 0x200_0000 * q8 + r.t7
    requires a.t8 + q8 == 0x400_0000 * q9 + r.t8 && a.t9 + q9 == 0x200_0000 * q + r.t9
    ensures Weigh(a) + q0 == Weigh(r) + TWO255 * q
  {
  }

  /** The claim above FeToBytes: the estimate from the top limb makes the nested floors divide by P exactly. */
  lemma QuotientClaim(a: Limbs, q0: int, q: int)
    requires Bounded(a, PRINTABLE)
    requires q0 == (19 * a.t9 + 0x100_0000) / 0x200_0000
    requires 0 <= Weigh(a) + q0 - TWO255 * q < TWO255
    ensures 0 <= Weigh(a) - P * q < P
  {
  }

  /** Sixteen bytes that end in the parts of five limbs, the joined ones between them, carry their weighted sum. */
  lemma PackedSum(b: seq<byte>, p0: Parts, m1: int, p1: Parts, m2: int, p2: Parts, m3: int, p3: Parts, m4: int,
                  p4: Parts)
    requires |b| == 16
    requires b[0] as int == p0.low && b[1] == p0.b0 && b[2] == p0.b1 && b[3] as int == p0.top + m1 * p1.low
    requires b[4] == p1.b0 && b[5] == p1.b1 && b[6] as int == p1.top + m2 * p2.low
    requires b[7] == p2.b0 && b[8] == p2.b1 && b[9] as int == p2.top + m3 * p3.low
    requires b[10] == p3.b0 && b[11] == p3.b1 && b[12] as int == p3.top + m4 * p4.low
    requires b[13] == p4.b0 && b[14] == p4.b1 && b[15] as int == p4.top
    ensures Word64(b, 0) + 0x1_0000_0000_0000_0000 * Word64(b, 8)
         == p0.low + 0x100 * (p0.b0 as int + 0x100 * p0.b1 as int + 0x1_0000 * p0.top)
            + 0x100_0000 * (m1 * p1.low) + 0x1_0000_0000 * (p1.b0 as int + 0x100 * p1.b1 as int + 0x1_0000 * p1.top)
            + 0x1_0000_0000_0000 * (m2 * p2.low)
            + 0x100_0000_0000_0000 * (p2.b0 as int + 0x100 * p2.b1 as int + 0x1_0000 * p2.top)
            + 0x100_0000_0000_0000_0000 * (m3 * p3.low)
            + 0x1_0000_0000_0000_0000_0000 * (p3.b0 as int + 0x100 * p3.b1 as int + 0x1_0000 * p3.top)
            + 0x1_0000_0000_0000_0000_0000_0000 * (m4 * p4.low)
            + 0x100_0000_0000_0000_0000_0000_0000 * (p4.b0 as int + 0x100 * p4.b1 as int + 0x1_0000 * p4.top)
  {
  }

  ghost predicate LowFive(h0: int, h1: int, h2: int, h3: int, h4: int) {
    0 <= h0 < 0x400_0000 && 0 <= h1 < 0x200_0000 && 0 <= h2 < 0x400_0000 && 0 <= h3 < 0x200_0000 && 0 <= h4 < 0x400_0000
  }

  ghost predicate HighFive(h5: int, h6: int, h7: int, h8: int, h9: int) {
    0 <= h5 < 0x200_0000 && 0 <= h6 < 0x400_0000 && 0 <= h7 < 0x200_0000 && 0 <= h8 < 0x400_0000 && 0 <= h9 < 0x200_0000
  }

  function PackLow(h0: int, h1: int, h2: int, h3: int, h4: int): (b: seq<byte>)
    requires LowFive(h0, h1, h2, h3, h4)
    ensures |b| == 16
  {
    hide Pow2, Join, Split;
    PowersOfTwo();
    var p0, p1, p2, p3, p4 := Split(h0, 0x100), Split(h1, 0x40), Split(h2, 0x20), Split(h3, 8), Split(h4, 4);
    [ByteOf(h0), p0.b0, p0.b1, Join(p0.top, h1, 2, 32, 4, 64),
     p1.b0, p1.b1, Join(p1.top, h2, 3, 32, 8, 32),
     p2.b0, p2.b1, Join(p2.top, h3, 5, 32, 32, 8),
     p3.b0, p3.b1, Join(p3.top, h4, 6, 32, 64, 4),
     p4.b0, p4.b1, ByteOf(p4.top)]
  }

  lemma PackedLow(h0: int, h1: int, h2: int, h3: int, h4: int)
    requires LowFive(h0, h1, h2, h3, h4)
    ensures var b := PackLow(h0, h1, h2, h3, h4);
            Word64(b, 0) + 0x1_0000_0000_0000_0000 * Word64(b, 8)
            == h0 + 0x400_0000 * h1 + 0x8_0000_0000_0000 * h2 + 0x2000_0000_0000_0000_0000 * h3
               + 0x40_0000_0000_0000_0000_0000_0000 * h4
  {
    hide Pow2, Join, Split, Word64;
    PowersOfTwo();
    var p0, p1, p2, p3, p4 := Split(h0, 0x100), Split(h1, 0x40), Split(h2, 0x20), Split(h3, 8), Split(h4, 4);
    PackedSum(PackLow(h0, h1, h2, h3, h4), p0, 4, p1, 8, p2, 32, p3, 64, p4);
  }

  function PackHigh(h5: int, h6: int, h7: int, h8: int, h9: int): (b: seq<byte>)
    requires HighFive(h5, h6, h7, h8, h9)
    ensures |b| == 16
  {
    hide Pow2, Join, Split;
    PowersOfTwo();
    var p5, p6, p7, p8, p9 := Split(h5, 0x100), Split(h6, 0x80), Split(h7, 0x20), Split(h8, 0x10), Split(h9, 4);
    [ByteOf(h5), p5.b0, p5.b1, Join(p5.top, h6, 1, 32, 2, 128),
     p6.b0, p6.b1, Join(p6.top, h7, 3, 32, 8, 32),
     p7.b0, p7.b1, Join(p7.top, h8, 4, 32, 16, 16),
     p8.b0, p8.b1, Join(p8.top, h9, 6, 32, 64, 4),
     p9.b0, p9.b1, ByteOf(p9.top)]
  }

  lemma PackedHigh(h5: int, h6: int, h7: int, h8: int, h9: int)
    requires HighFive(h5, h6, h7, h8, h9)
    ensures var b := PackHigh(h5, h6, h7, h8, h9);
            Word64(b, 0) + 0x1_0000_0000_0000_0000 * Word64(b, 8)
            == h5 + 0x200_0000 * h6 + 0x8_0000_0000_0000 * h7 + 0x1000_0000_0000_0000_0000 * h8
               + 0x40_0000_0000_0000_0000_0000_0000 * h9
  {
    hide Pow2, Join, Split, Word64;
    PowersOfTwo();
    var p5, p6, p7, p8, p9 := Split(h5, 0x100), Split(h6, 0x80), Split(h7, 0x20), Split(h8, 0x10), Split(h9, 4);
    PackedSum(PackHigh(h5, h6, h7, h8, h9), p5, 2, p6, 8, p7, 16, p8, 64, p9);
  }

  lemma PackedBytes(a: Limbs)
    requires Canonical(a)
    ensures Le(PackLow(a.t0, a.t1, a.t2, a.t3, a.t4) + PackHigh(a.t5, a.t6, a.t7, a.t8, a.t9)) == Weigh(a)
  {
    hide PackLow, PackHigh;
    PackedLow(a.t0, a.t1, a.t2, a.t3, a.t4);
    PackedHigh(a.t5, a.t6, a.t7, a.t8, a.t9);
    var low, high := PackLow(a.t0, a.t1, a.t2, a.t3, a.t4), PackHigh(a.t5, a.t6, a.t7, a.t8, a.t9);
    LeOf32(low + high);
    assert Word64(low + high, 0) == Word64(low, 0) && Word64(low + high, 8) == Word64(low, 8);
    assert Word64(low + high, 16) == Word64(high, 0) && Word64(low + high, 24) == Word64(high, 8);
    hide Le, Word64;
  }

  /** The Go shift `x >> 26` or `x >> 25`. */
  function ShiftRight(x: int32, width: int32): (q: int32)
    requires width == 0x400_0000 || width == 0x200_0000
    ensures q as int == x as int / width as int && -0x40 <= q < 0x40
  {
    x / width
  }

  /** Floor division by P of a printable element, by the estimate of QuotientClaim. */
  method QuotientByP(h: array<int32>) returns (q: int32)
    requires h.Length == 10
    requires Size(h[..]) <= PRINTABLE
    ensures 0 <= Val(h[..]) - P * q as int < P
    ensures -0x40 <= q < 0x40
  {
    hide Weigh, Norm, ShiftRight;
    ghost var a := LimbsOf(h[..]);
    NormBounds(a, PRINTABLE);
    var q0 := ShiftRight(19 * h[9] + 0x100_0000, 0x200_0000);
    var q1 := ShiftRight(h[0] + q0, 0x400_0000);
    var q2 := ShiftRight(h[1] + q1, 0x200_0000);
    var q3 := ShiftRight(h[2] + q2, 0x400_0000);
    var q4 := ShiftRight(h[3] + q3, 0x200_0000);
    var q5 := ShiftRight(h[4] + q4, 0x400_0000);
    var q6 := ShiftRight(h[5] + q5, 0x200_0000);
    var q7 := ShiftRight(h[6] + q6, 0x400_0000);
    var q8 := ShiftRight(h[7] + q7, 0x200_0000);
    var q9 := ShiftRight(h[8] + q8, 0x400_0000);
    var q10 := ShiftRight(h[9] + q9, 0x200_0000);
    NestedFloors(a, q0 as int, q1 as int, q2 as int, q3 as int, q4 as int,
                 q5 as int, q6 as int, q7 as int, q8 as int, q9 as int, q10 as int);
    QuotientClaim(a, q0 as int, q10 as int);
    q := q10;
  }

  /** Moves everything above a limb's width into the next limb. */
  method FloorCarry(h: int32, next: int32, width: int32) returns (h': int32, next': int32, ghost c: int)
    requires width == 0x400_0000 || width == 0x200_0000
    requires -0x4000_0000 <= h < 0x4000_0000 && -0x4000_0000 <= next < 0x4000_0000
    ensures 0 <= h' < width
    ensures h as int == h' as int + width as int * c && next' as int == next as int + c
  {
    var carry := h / width;
    next' := next + carry;
    h' := h - carry * width;
    c := carry as int;
  }

  lemma FloorCarriesValue(a: Limbs, r: Limbs, q: int, c0: int, c1: int, c2: int, c3: int, c4: int,
                          c5: int, c6: int, c7: int, c8: int, c9: int)
    requires Canonical(r)
    requires a.t0 + 19 * q == r.t0 + 0x400_0000 * c0 && a.t1 + c0 == r.t1 + 0x200_0000 * c1
    requires a.t2 + c1 == r.t2 + 0x400_0000 * c2 && a.t3 + c2 == r.t3 + 0x200_0000 * c3
    requires a.t4 + c3 == r.t4 + 0x400_0000 * c4 && a.t5 + c4 == r.t5 + 0x200_0000 * c5
    requires a.t6 + c5 == r.t6 + 0x400_0000 * c6 && a.t7 + c6 == r.t7 + 0x200_0000 * c7
    requires a.t8 + c7 == r.t8 + 0x400_0000 * c8 && a.t9 + c8 == r.t9 + 0x200_0000 * c9
    requires 0 <= Weigh(a) - P * q < P
    ensures Weigh(r) == Residue(Weigh(a))
  {
    CanonicalFacts(r);
    CarriedOut(a, r, 19 * q, c0, c1, c2, c3, c4, c5, c6, c7, c8, c9);
    hide Weigh, Canonical;
    UniqueRepresentative(Weigh(a), Weigh(r), q, c9);
  }

  lemma UniqueRepresentative(v: int, r: int, q: int, c: int)
    requires v + 19 * q == r + TWO255 * c && 0 <= v - P * q < P && 0 <= r < TWO255
    ensures r == Residue(v)
  {
    QuotientIsUnique(TWO255, q, v - P * q, c, r);
    DivisionIsUnique(v, P, q, v - P * q);
    ResidueIsRemainder(v);
  }

  /** The limbs of the representative of a in 0 .. P - 1, given the quotient q. */
  method FloorCarries(ghost a: Limbs, q: int32, h0: int32, h1: int32, h2: int32, h3: int32, h4: int32,
                      h5: int32, h6: int32, h7: int32, h8: int32, h9: int32) returns (r: seq<int32>)
    requires a == Limbs(h0 as int, h1 as int, h2 as int, h3 as int, h4 as int,
                        h5 as int, h6 as int, h7 as int, h8 as int, h9 as int)
    requires Bounded(a, PRINTABLE) && -0x40 <= q < 0x40
    requires 0 <= Weigh(a) - P * q as int < P
    ensures |r| == 10 && Canonical(LimbsOf(r)) && Val(r) == Residue(Weigh(a))
  {
    hide Weigh;
    var r0, r1, r2, r3, r4, r5, r6, r7, r8, r9;
    ghost var c0, c1, c2, c3, c4, c5, c6, c7, c8;
    r0, r1, c0 := FloorCarry(h0 + 19 * q, h1, 0x400_0000);
    r1, r2, c1 := FloorCarry(r1, h2, 0x200_0000);
    r2, r3, c2 := FloorCarry(r2, h3, 0x400_0000);
    r3, r4, c3 := FloorCarry(r3, h4, 0x200_0000);
    r4, r5, c4 := FloorCarry(r4, h5, 0x400_0000);
    r5, r6, c5 := FloorCarry(r5, h6, 0x200_0000);
    r6, r7, c6 := FloorCarry(r6, h7, 0x400_0000);
    r7, r8, c7 := FloorCarry(r7, h8, 0x200_0000);
    r8, r9, c8 := FloorCarry(r8, h9, 0x400_0000);
    var c9 := r9 / 0x200_0000;
    r9 := r9 - c9 * 0x200_0000;
    r := [r0, r1, r2, r3, r4, r5, r6, r7, r8, r9];
    FloorCarriesValue(a, LimbsOf(r), q as int, c0, c1, c2, c3, c4, c5, c6, c7, c8, c9 as int);
  }

  /** Replaces h by the limbs of the representative of its value in 0 .. P - 1. */
  method FeReduce(h: array<int32>)
    requires h.Length == 10
    requires Size(h[..]) <= PRINTABLE
    modifies h
    ensures Canonical(LimbsOf(h[..]))
    ensures Val(h[..]) == Residue(old(Val(h[..])))
  {
    hide Weigh, Norm, Bounded;
    ghost var a := LimbsOf(h[..]);
    NormBounds(a, PRINTABLE);
    var q := QuotientByP(h);
    var r := FloorCarries(a, q, h[0], h[1], h[2], h[3], h[4], h[5], h[6], h[7], h[8], h[9]);
    forall i | 0 <= i < 10 {
      h[i] := r[i];
    }
    assert h[..] == r;
  }

  /** Writes the unique representative of h in 0 .. P - 1 to s, and leaves h equal to it as well. */
  method FeToBytes(s: array<byte>, h: array<int32>)
    requires s.Length == 32 && h.Length == 10
    requires Size(h[..]) <= PRINTABLE
    modifies s, h
    ensures Le(s[..]) == Residue(old(Val(h[..])))
    ensures Val(h[..]) == Residue(old(Val(h[..])))
    ensures Size(h[..]) <= 0x400_0000
  {
    hide Weigh, Norm, Le, PackLow, PackHigh;
    FeReduce(h);
    ghost var a := LimbsOf(h[..]);
    CanonicalFacts(a);
    PackedBytes(a);
    var bytes := PackLow(h[0] as int, h[1] as int, h[2] as int, h[3] as int, h[4] as int)
               + PackHigh(h[5] as int, h[6] as int, h[7] as int, h[8] as int, h[9] as int);
    forall i | 0 <= i < 32 {
      s[i] := bytes[i];
    }
    assert s[..] == bytes;
    assert LimbsOf(h[..]) == a;
  }

  /** The parity of the representative of f, which serves as its sign. */
  method FeIsNegative(f: array<int32>) returns (sign: byte)
    requires f.Length == 10
    requires Size(f[..]) <= PRINTABLE
    modifies f
    ensures sign as int == Residue(old(Val(f[..]))) % 2
    ensures Val(f[..]) == Residue(old(Val(f[..])))
    ensures Size(f[..]) <= 0x400_0000
  {
    hide Weigh, Norm;
    var s := new byte[32];
    FeToBytes(s, f);
    LowestBit(s[..]);
    PowersOfTwo();
    AndMask(1, s[0] as int);
    sign := And(1, s[0] as int) as byte;
  }

  lemma LowestBit(s: seq<byte>)
    requires |s| == 32
    ensures Le(s) % 2 == s[0] as int % 2
  {
    assert Le(s) == s[0] as nat + 0x100 * LeFrom(s, 1);
  }

  /** Returns 1 unless f is zero modulo P. */
  method FeIsNonZero(f: array<int32>) returns (b: int32)
    requires f.Length == 10
    requires Size(f[..]) <= PRINTABLE
    modifies f
    ensures b == if Residue(old(Val(f[..]))) == 0 then 0 else 1
    ensures Val(f[..]) == Residue(old(Val(f[..])))
    ensures Size(f[..]) <= 0x400_0000
  {
    hide Weigh, Norm, Le;
    var s := new byte[32];
    FeToBytes(s, f);
    b := AnyByte(s);
  }

  /** Or-s all bytes together and folds the bits of the result into one. */
  method AnyByte(s: array<byte>) returns (b: int32)
    requires s.Length == 32
    ensures b == if Le(s[..]) == 0 then 0 else 1
  {
    hide Or, Le, Pow2;
    PowersOfTwo();
    var x := 0;
    for i := 0 to 32
      invariant 0 <= x < 0x100
      invariant x == 0 <==> forall j :: 0 <= j < i ==> s[j] == 0
    {
      OrOfNaturals(x, s[i] as int, 8);
      x := Or(x, s[i] as int);
    }
    ZeroBytes(s[..]);
    FoldedBits(x);
    x := Or(x, x / 0x10);
    x := Or(x, x / 4);
    x := Or(x, x / 2);
    AndMask(1, x);
    b := And(1, x) as int32;
  }

  lemma ZeroBytes(s: seq<byte>)
    ensures Le(s) == 0 <==> forall j :: 0 <= j < |s| ==> s[j] == 0
  {
    ZeroBytesFrom(s, 0);
  }

  lemma {:induction false} ZeroBytesFrom(s: seq<byte>, i: nat)
    requires i <= |s|
    ensures LeFrom(s, i) == 0 <==> forall j :: i <= j < |s| ==> s[j] == 0
    decreases |s| - i
  {
    if i < |s| {
      ZeroBytesFrom(s, i + 1);
    }
  }

  /** Or-ing a byte with its shifts by 4, 2 and 1 collects all its bits in the lowest one. */
  lemma FoldedBits(x: nat)
    requires x < 0x100
    ensures var x1 := Or(x, x / 0x10);
            var x2 := Or(x1, x1 / 4);
            Or(x2, x2 / 2) % 2 == if x == 0 then 0 else 1
  {
    hide Or;
    var x1 := Or(x, x / 0x10);
    var x2 := Or(x1, x1 / 4);
    OrHalves(x2, x2 / 2);
    OrHalves(x1, x1 / 4);
    OrHalves(x1 / 2, x1 / 8);
    OrHalves(x, x / 0x10);
    OrHalves(x / 2, x / 0x20);
    OrHalves(x / 4, x / 0x40);
    OrHalves(x / 8, x / 0x80);
  }
}
