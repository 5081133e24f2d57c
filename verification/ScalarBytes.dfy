/** Scalars as little-endian bytes and as limbs of 21 bits. */
module ScalarBytes {
  import opened Bits
  import opened Words
  import opened BytePacking
  import opened ScalarLimbs

  /** Seven bytes read as one little-endian number; three of these fill eight limbs. */
  function Word56(s: seq<byte>, i: nat): (w: nat)
    requires i + 7 <= |s|
    ensures w < 0x100_0000_0000_0000
  {
    s[i] as nat + 0x100 * s[i + 1] as nat + 0x1_0000 * s[i + 2] as nat + 0x100_0000 * s[i + 3] as nat
    + 0x1_0000_0000 * s[i + 4] as nat + 0x100_0000_0000 * s[i + 5] as nat + 0x1_0000_0000_0000 * s[i + 6] as nat
  }

  lemma LeSeven(s: seq<byte>, i: nat)
    requires i + 7 <= |s|
    ensures LeFrom(s, i) == Word56(s, i) + 0x100_0000_0000_0000 * LeFrom(s, i + 7)
  {
    assert LeFrom(s, i + 5) == s[i + 5] as nat + 0x100 * s[i + 6] as nat + 0x1_0000 * LeFrom(s, i + 7);
    assert LeFrom(s, i + 3) == s[i + 3] as nat + 0x100 * s[i + 4] as nat + 0x1_0000 * LeFrom(s, i + 5);
    assert LeFrom(s, i + 1) == s[i + 1] as nat + 0x100 * s[i + 2] as nat + 0x1_0000 * LeFrom(s, i + 3);
  }

  /** Twenty-one bytes read as one little-endian number. */
  ghost function Word168(s: seq<byte>, i: nat): nat
    requires i + 21 <= |s|
  {
    Word56(s, i) + 0x100_0000_0000_0000 * Word56(s, i + 7) + 0x1_0000_0000_0000_0000_0000_0000_0000 * Word56(s, i + 14)
  }

  lemma LeTwentyOne(s: seq<byte>, i: nat)
    requires i + 21 <= |s|
    ensures LeFrom(s, i) == Word168(s, i) + 0x100_0000_0000_0000_0000_0000_0000_0000_0000_0000_0000 * LeFrom(s, i + 21)
  {
    LeSeven(s, i);
    LeSeven(s, i + 7);
    LeSeven(s, i + 14);
    hide Word56, LeFrom;
  }

  datatype Eight = Eight(s0: int64, s1: int64, s2: int64, s3: int64, s4: int64, s5: int64, s6: int64, s7: int64)

  ghost function WeighEight(x: Eight): int {
    x.s0 as int + 0x20_0000 * x.s1 as int + 0x400_0000_0000 * x.s2 as int + 0x8000_0000_0000_0000 * x.s3 as int
    + 0x10_0000_0000_0000_0000_0000 * x.s4 as int + 0x200_0000_0000_0000_0000_0000_0000 * x.s5 as int
    + TWO126 * x.s6 as int + 0x8_0000_0000_0000_0000_0000_0000_0000_0000_0000 * x.s7 as int
  }

  /** The Go expression `2097151 & (x >> k)` for m = 2^k. */
  function Limb(x: int64, m: int): (r: int64)
    requires m > 0
    ensures r as int == x as int / m % 0x20_0000 && IsDigit(r)
  {
    PowersOfTwo();
    AndMask(21, x as int / m);
    And(0x1f_ffff, x as int / m) as int64
  }

  /** A limb that starts inside the byte b0 takes the rest of it, the whole bytes y, and the first bits of c. */
  lemma LimbBits(x: int, b0: int, y: int, c: int, m: int, u: int, ys: int, w: int, n: int)
    requires 0 <= b0 < 0x100 && 0 <= y < ys && m > 0 && n > 0
    requires m * u == 0x100 && u * ys == w && w * n == 0x20_0000
    requires x == b0 + 0x100 * y + m * w * c
    ensures x / m % 0x20_0000 == b0 / m + u * y + w * (c % n)
  {
    var t := b0 / m;
    Below(t, b0 % m, m, u);
    BelowProduct(t, u, y, ys);
    assert x == (t + u * y + w * c) * m + b0 % m by {
      assert (t + u * y + w * c) * m == t * m + m * u * y + m * w * c;
    }
    DivisionIsUnique(x, m, t + u * y + w * c, b0 % m);
    var q, r := c / n, c % n;
    assert w * c == w * n * q + w * r by {
      assert c == q * n + r;
      assert w * (q * n + r) == w * n * q + w * r;
    }
    BelowProduct(t + u * y, w, r, n);
    DivisionIsUnique(t + u * y + w * c, 0x20_0000, q, t + u * y + w * r);
  }

  lemma Below(q: int, r: int, m: int, u: int)
    requires m > 0 && 0 <= r && 0 <= q * m + r < m * u && r < m
    ensures 0 <= q < u
  {
  }

  lemma BelowProduct(t: int, u: int, y: int, ys: int)
    requires 0 <= t < u && 0 <= y < ys
    ensures 0 <= t + u * y < u * ys
  {
    assert u * y <= u * (ys - 1);
  }

  /** Limbs loaded from three or four bytes, of which the first gives all but its log2(m) low bits, the last its bits
      below n. */
  function Limb3(s: seq<byte>, i: nat, m: int, ghost u: int, ghost w: int, ghost n: int): (r: int64)
    requires i + 3 <= |s| && m > 0 && n > 0 && m * u == 0x100 && u * 0x100 == w && w * n == 0x20_0000
    ensures r as int == s[i] as int / m + u * s[i + 1] as int + w * (s[i + 2] as int % n) && IsDigit(r)
  {
    LimbBits(Load3(s, i) as int, s[i] as int, s[i + 1] as int, s[i + 2] as int, m, u, 0x100, w, n);
    Limb(Load3(s, i), m)
  }

  function Limb4(s: seq<byte>, i: nat, m: int, ghost u: int, ghost w: int, ghost n: int): (r: int64)
    requires i + 4 <= |s| && m > 0 && n > 0 && m * u == 0x100 && u * 0x1_0000 == w && w * n == 0x20_0000
    ensures r as int == s[i] as int / m + u * (s[i + 1] as int + 0x100 * s[i + 2] as int) + w * (s[i + 3] as int % n)
            && IsDigit(r)
  {
    LimbBits(Load4(s, i) as int, s[i] as int, s[i + 1] as int + 0x100 * s[i + 2] as int, s[i + 3] as int,
             m, u, 0x1_0000, w, n);
    Limb(Load4(s, i), m)
  }

  /** Eight limbs from the twenty-one bytes at position i. */
  function LoadEight(s: seq<byte>, i: nat): (x: Eight)
    requires i + 21 <= |s|
  {
    Eight(Limb3(s, i, 1, 0x100, 0x1_0000, 0x20), Limb4(s, i + 2, 0x20, 8, 0x8_0000, 4),
          Limb3(s, i + 5, 4, 0x40, 0x4000, 0x80), Limb4(s, i + 7, 0x80, 2, 0x2_0000, 0x10),
          Limb4(s, i + 10, 0x10, 0x10, 0x10_0000, 2), Limb3(s, i + 13, 2, 0x80, 0x8000, 0x40),
          Limb4(s, i + 15, 0x40, 4, 0x4_0000, 8), Limb3(s, i + 18, 8, 0x20, 0x2000, 0x100))
  }

  lemma LoadedEight(s: seq<byte>, i: nat)
    requires i + 21 <= |s|
    ensures WeighEight(LoadEight(s, i)) == Word168(s, i)
    ensures EightDigits(LoadEight(s, i))
  {
    hide Limb3, Limb4, WeighEight, Word168;
    EightSum(s, i, LoadEight(s, i));
  }

  ghost predicate EightDigits(x: Eight) {
    IsDigit(x.s0) && IsDigit(x.s1) && IsDigit(x.s2) && IsDigit(x.s3)
    && IsDigit(x.s4) && IsDigit(x.s5) && IsDigit(x.s6) && IsDigit(x.s7)
  }

  lemma EightSum(s: seq<byte>, i: nat, x: Eight)
    requires i + 21 <= |s|
    requires x.s0 as int == s[i] as int / 1 + 0x100 * s[i + 1] as int + 0x1_0000 * (s[i + 2] as int % 0x20)
    requires x.s1 as int
            == s[i + 2] as int / 0x20 + 8 * (s[i + 3] as int + 0x100 * s[i + 4] as int)
               + 0x8_0000 * (s[i + 5] as int % 4)
    requires x.s2 as int == s[i + 5] as int / 4 + 0x40 * s[i + 6] as int + 0x4000 * (s[i + 7] as int % 0x80)
    requires x.s3 as int
            == s[i + 7] as int / 0x80 + 2 * (s[i + 8] as int + 0x100 * s[i + 9] as int)
               + 0x2_0000 * (s[i + 10] as int % 0x10)
    requires x.s4 as int
            == s[i + 10] as int / 0x10 + 0x10 * (s[i + 11] as int + 0x100 * s[i + 12] as int)
               + 0x10_0000 * (s[i + 13] as int % 2)
    requires x.s5 as int == s[i + 13] as int / 2 + 0x80 * s[i + 14] as int + 0x8000 * (s[i + 15] as int % 0x40)
    requires x.s6 as int
            == s[i + 15] as int / 0x40 + 4 * (s[i + 16] as int + 0x100 * s[i + 17] as int)
               + 0x4_0000 * (s[i + 18] as int % 8)
    requires x.s7 as int == s[i + 18] as int / 8 + 0x20 * s[i + 19] as int + 0x2000 * (s[i + 20] as int % 0x100)
    ensures WeighEight(x) == Word168(s, i)
  {
    FirstFour(s, i, x);
    LastFour(s, i, x);
  }

  lemma FirstFour(s: seq<byte>, i: nat, x: Eight)
    requires i + 21 <= |s|
    requires x.s0 as int == s[i] as int / 1 + 0x100 * s[i + 1] as int + 0x1_0000 * (s[i + 2] as int % 0x20)
    requires x.s1 as int
            == s[i + 2] as int / 0x20 + 8 * (s[i + 3] as int + 0x100 * s[i + 4] as int)
               + 0x8_0000 * (s[i + 5] as int % 4)
    requires x.s2 as int == s[i + 5] as int / 4 + 0x40 * s[i + 6] as int + 0x4000 * (s[i + 7] as int % 0x80)
    requires x.s3 as int
            == s[i + 7] as int / 0x80 + 2 * (s[i + 8] as int + 0x100 * s[i + 9] as int)
               + 0x2_0000 * (s[i + 10] as int % 0x10)
    ensures x.s0 as int + 0x20_0000 * x.s1 as int + 0x400_0000_0000 * x.s2 as int + 0x8000_0000_0000_0000 * x.s3 as int
         == Word56(s, i)
            + 0x100_0000_0000_0000 * (s[i + 7] as int + 0x100 * s[i + 8] as int + 0x1_0000 * s[i + 9] as int
                                                    + 0x100_0000 * (s[i + 10] as int % 0x10))
  {
  }

  lemma LastFour(s: seq<byte>, i: nat, x: Eight)
    requires i + 21 <= |s|
    requires x.s4 as int
            == s[i + 10] as int / 0x10 + 0x10 * (s[i + 11] as int + 0x100 * s[i + 12] as int)
               + 0x10_0000 * (s[i + 13] as int % 2)
    requires x.s5 as int == s[i + 13] as int / 2 + 0x80 * s[i + 14] as int + 0x8000 * (s[i + 15] as int % 0x40)
    requires x.s6 as int
            == s[i + 15] as int / 0x40 + 4 * (s[i + 16] as int + 0x100 * s[i + 17] as int)
               + 0x4_0000 * (s[i + 18] as int % 8)
    requires x.s7 as int == s[i + 18] as int / 8 + 0x20 * s[i + 19] as int + 0x2000 * (s[i + 20] as int % 0x100)
    ensures x.s4 as int + 0x20_0000 * x.s5 as int + 0x400_0000_0000 * x.s6 as int + 0x8000_0000_0000_0000 * x.s7 as int
         == s[i + 10] as int / 0x10 + 0x10 * s[i + 11] as int + 0x1000 * s[i + 12] as int + 0x10_0000 * s[i + 13] as int
            + 0x1000_0000 * Word56(s, i + 14)
  {
  }

  /** Twelve limbs of a 32-byte scalar; the last one takes all 25 remaining bits. */
  function LoadScalar(s: seq<byte>): (x: (Six, Six))
    requires |s| == 32
  {
    var x := LoadEight(s, 0);
    (Six(x.s0, x.s1, x.s2, x.s3, x.s4, x.s5),
     Six(x.s6, x.s7, Limb3(s, 21, 1, 0x100, 0x1_0000, 0x20), Limb4(s, 23, 0x20, 8, 0x8_0000, 4),
         Limb3(s, 26, 4, 0x40, 0x4000, 0x80), Load4(s, 28) / 0x80))
  }

  lemma LoadedScalar(s: seq<byte>)
    requires |s| == 32
    ensures var x := LoadScalar(s);
            Weigh12(x.0, x.1) == Le(s) && AreDigits(x.0) && AreDigits(x.1.(s5 := 0)) && 0 <= x.1.s5 < 0x200_0000
  {
    hide LoadEight, Limb3, Limb4, Load4;
    var x, y := LoadScalar(s), LoadEight(s, 0);
    LoadedEight(s, 0);
    LeTwentyOne(s, 0);
    LeSeven(s, 21);
    LastElevenBytes(s, x.1.s2, x.1.s3, x.1.s4, x.1.s5);
    hide LeFrom, Word168, Word56;
    assert Weigh12(x.0, x.1) == WeighEight(y)
        + 0x100_0000_0000_0000_0000_0000_0000_0000_0000_0000_0000
          * (x.1.s2 as int + 0x20_0000 * x.1.s3 as int + 0x400_0000_0000 * x.1.s4 as int
             + 0x8000_0000_0000_0000 * x.1.s5 as int);
  }

  lemma LastElevenBytes(s: seq<byte>, a: int64, b: int64, c: int64, d: int64)
    requires |s| == 32
    requires a == Limb3(s, 21, 1, 0x100, 0x1_0000, 0x20) && b == Limb4(s, 23, 0x20, 8, 0x8_0000, 4)
    requires c == Limb3(s, 26, 4, 0x40, 0x4000, 0x80) && d == Load4(s, 28) / 0x80
    ensures a as int + 0x20_0000 * b as int + 0x400_0000_0000 * c as int + 0x8000_0000_0000_0000 * d as int
         == Word56(s, 21) + 0x100_0000_0000_0000 * LeFrom(s, 28)
  {
    hide Limb3, Limb4;
    assert LeFrom(s, 31) == s[31] as nat;
    assert LeFrom(s, 30) == s[30] as nat + 0x100 * s[31] as nat;
    assert LeFrom(s, 28) == s[28] as nat + 0x100 * s[29] as nat + 0x1_0000 * LeFrom(s, 30);
    hide LeFrom, Load4;
    assert d as int == s[28] as int / 0x80 + 2 * s[29] as int + 0x200 * s[30] as int + 0x2_0000 * s[31] as int;
  }

  /** Twenty-four limbs of a 64-byte number; the last one takes all 29 remaining bits. */
  function LoadWide(s: seq<byte>): (x: (Six, Six, Six, Six))
    requires |s| == 64
  {
    var x, y, z := LoadEight(s, 0), LoadEight(s, 21), LoadEight(s, 42);
    (Six(x.s0, x.s1, x.s2, x.s3, x.s4, x.s5), Six(x.s6, x.s7, y.s0, y.s1, y.s2, y.s3),
     Six(y.s4, y.s5, y.s6, y.s7, z.s0, z.s1), Six(z.s2, z.s3, z.s4, z.s5, z.s6, Load4(s, 60) / 8))
  }

  lemma LoadedWide(s: seq<byte>)
    requires |s| == 64
    ensures var x := LoadWide(s);
            Weigh12(x.0, x.1) + TWO252 * Weigh12(x.2, x.3) == Le(s)
            && AreDigits(x.0) && AreDigits(x.1) && AreDigits(x.2) && AreDigits(x.3.(s5 := 0))
               && 0 <= x.3.s5 < 0x2000_0000
  {
    hide LoadEight, Load4, Le, Word168, WeighEight, Weigh12;
    LoadedEight(s, 0);
    LoadedEight(s, 21);
    LoadedEight(s, 42);
    TopOfWide(s);
    ThreeTimesTwentyOne(s);
    var v, x, y, z := LoadWide(s), LoadEight(s, 0), LoadEight(s, 21), LoadEight(s, 42);
    RegroupLimbs(v.0, v.1, v.2, v.3, x, y, z, s[63] as int);
  }

  lemma ThreeTimesTwentyOne(s: seq<byte>)
    requires |s| == 64
    ensures Le(s) == Word168(s, 0) + 0x100_0000_0000_0000_0000_0000_0000_0000_0000_0000_0000
            * (Word168(s, 21) + 0x100_0000_0000_0000_0000_0000_0000_0000_0000_0000_0000
               * (Word168(s, 42) + 0x100_0000_0000_0000_0000_0000_0000_0000_0000_0000_0000 * s[63] as nat))
  {
    LeTwentyOne(s, 0);
    LeTwentyOne(s, 21);
    LeTwentyOne(s, 42);
    assert LeFrom(s, 63) == s[63] as nat;
    hide LeFrom, Word168;
  }

  lemma LastOfEight(s: seq<byte>, i: nat)
    requires i + 21 <= |s|
    ensures LoadEight(s, i).s7 == Limb3(s, i + 18, 8, 0x20, 0x2000, 0x100)
  {
    hide Limb3, Limb4;
  }

  lemma TopOfWide(s: seq<byte>)
    requires |s| == 64
    ensures Load4(s, 60) as int / 8 == LoadEight(s, 42).s7 as int + 0x20_0000 * s[63] as int
  {
    LastOfEight(s, 42);
    hide Limb3, LoadEight, Load4;
    EighthOfFour(s[60] as int, s[61] as int, s[62] as int, s[63] as int, Load4(s, 60) as int);
  }

  lemma EighthOfFour(b0: int, b1: int, b2: int, b3: int, x: int)
    requires 0 <= b0 < 0x100 && 0 <= b1 < 0x100 && 0 <= b2 < 0x100
    requires x == b0 + 0x100 * b1 + 0x1_0000 * b2 + 0x100_0000 * b3
    ensures x / 8 == b0 / 8 + 0x20 * b1 + 0x2000 * (b2 % 0x100) + 0x20_0000 * b3
  {
    assert x / 8 == b0 / 8 + 0x20 * b1 + 0x2000 * b2 + 0x20_0000 * b3;
  }

  lemma RegroupLimbs(a: Six, b: Six, c: Six, d: Six, x: Eight, y: Eight, z: Eight, top: int)
    requires a == Six(x.s0, x.s1, x.s2, x.s3, x.s4, x.s5) && b == Six(x.s6, x.s7, y.s0, y.s1, y.s2, y.s3)
    requires c == Six(y.s4, y.s5, y.s6, y.s7, z.s0, z.s1) && d.(s5 := 0) == Six(z.s2, z.s3, z.s4, z.s5, z.s6, 0)
    requires d.s5 as int == z.s7 as int + 0x20_0000 * top
    ensures Weigh12(a, b) + TWO252 * Weigh12(c, d)
         == WeighEight(x) + 0x100_0000_0000_0000_0000_0000_0000_0000_0000_0000_0000
            * (WeighEight(y) + 0x100_0000_0000_0000_0000_0000_0000_0000_0000_0000_0000
               * (WeighEight(z) + 0x100_0000_0000_0000_0000_0000_0000_0000_0000_0000_0000 * top))
  {
  }

  // ----- writing limbs back as bytes

  /** The first twenty-one bytes, from limbs that are digits. */
  function StoreEight(x: Eight): (b: seq<byte>)
    requires EightDigits(x)
    ensures |b| == 21
  {
    hide Pow2, Join, Split;
    PowersOfTwo();
    var p0, p1, p2, p3 := Split(x.s0 as int, 1), Split(x.s1 as int, 8), Split(x.s2 as int, 0x40), Split(x.s3 as int, 2);
    var p4, p5, p6, p7 := Split(x.s4 as int, 0x10), Split(x.s5 as int, 0x80), Split(x.s6 as int, 4),
      Split(x.s7 as int, 0x20);
    [p0.b0, p0.b1, Join(p0.top, x.s1 as int, 5, 64, 0x20, 8),
     p1.b0, p1.b1, Join(p1.top, x.s2 as int, 2, 64, 4, 0x40),
     p2.b0, Join(p2.b1 as int, x.s3 as int, 7, 64, 0x80, 2),
     p3.b0, p3.b1, Join(p3.top, x.s4 as int, 4, 64, 0x10, 0x10),
     p4.b0, p4.b1, Join(p4.top, x.s5 as int, 1, 64, 2, 0x80),
     p5.b0, Join(p5.b1 as int, x.s6 as int, 6, 64, 0x40, 4),
     p6.b0, p6.b1, Join(p6.top, x.s7 as int, 3, 64, 8, 0x20),
     p7.b0, p7.b1]
  }

  lemma StoredEight(x: Eight)
    requires EightDigits(x)
    ensures Word168(StoreEight(x), 0) == WeighEight(x)
  {
    hide Pow2, Join, Split, WeighEight, Word168;
    PowersOfTwo();
    var p0, p1, p2, p3 := Split(x.s0 as int, 1), Split(x.s1 as int, 8), Split(x.s2 as int, 0x40), Split(x.s3 as int, 2);
    var p4, p5, p6, p7 := Split(x.s4 as int, 0x10), Split(x.s5 as int, 0x80), Split(x.s6 as int, 4),
      Split(x.s7 as int, 0x20);
    StoredSum(StoreEight(x), x, p0, p1, p2, p3, p4, p5, p6, p7);
  }

  lemma StoredSum(b: seq<byte>, x: Eight, p0: Parts, p1: Parts, p2: Parts, p3: Parts, p4: Parts, p5: Parts, p6: Parts,
                  p7: Parts)
    requires |b| == 21
    requires p0.low == 0 && p2.top == 0 && p5.top == 0 && p7.top == 0
    requires x.s0 as int == p0.low + (p0.b0 as int + 0x100 * p0.b1 as int + 0x1_0000 * p0.top)
    requires x.s1 as int == p1.low + 8 * (p1.b0 as int + 0x100 * p1.b1 as int + 0x1_0000 * p1.top)
    requires x.s2 as int == p2.low + 0x40 * (p2.b0 as int + 0x100 * p2.b1 as int + 0x1_0000 * p2.top)
    requires x.s3 as int == p3.low + 2 * (p3.b0 as int + 0x100 * p3.b1 as int + 0x1_0000 * p3.top)
    requires x.s4 as int == p4.low + 0x10 * (p4.b0 as int + 0x100 * p4.b1 as int + 0x1_0000 * p4.top)
    requires x.s5 as int == p5.low + 0x80 * (p5.b0 as int + 0x100 * p5.b1 as int + 0x1_0000 * p5.top)
    requires x.s6 as int == p6.low + 4 * (p6.b0 as int + 0x100 * p6.b1 as int + 0x1_0000 * p6.top)
    requires x.s7 as int == p7.low + 0x20 * (p7.b0 as int + 0x100 * p7.b1 as int + 0x1_0000 * p7.top)
    requires b[0] == p0.b0 && b[1] == p0.b1 && b[2] as int == p0.top + 0x20 * p1.low
    requires b[3] == p1.b0 && b[4] == p1.b1 && b[5] as int == p1.top + 4 * p2.low
    requires b[6] == p2.b0 && b[7] as int == p2.b1 as int + 0x80 * p3.low
    requires b[8] == p3.b0 && b[9] == p3.b1 && b[10] as int == p3.top + 0x10 * p4.low
    requires b[11] == p4.b0 && b[12] == p4.b1 && b[13] as int == p4.top + 2 * p5.low
    requires b[14] == p5.b0 && b[15] as int == p5.b1 as int + 0x40 * p6.low
    requires b[16] == p6.b0 && b[17] == p6.b1 && b[18] as int == p6.top + 8 * p7.low
    requires b[19] == p7.b0 && b[20] == p7.b1
    ensures Word168(b, 0) == WeighEight(x)
  {
    StoredFirst(b, x, p0, p1, p2);
    StoredMiddle(b, x, p2, p3, p4, p5);
    StoredLast(b, x, p5, p6, p7);
    hide Word56;
  }

  lemma StoredFirst(b: seq<byte>, x: Eight, p0: Parts, p1: Parts, p2: Parts)
    requires |b| == 21 && p0.low == 0
    requires x.s0 as int == p0.low + (p0.b0 as int + 0x100 * p0.b1 as int + 0x1_0000 * p0.top)
    requires x.s1 as int == p1.low + 8 * (p1.b0 as int + 0x100 * p1.b1 as int + 0x1_0000 * p1.top)
    requires b[0] == p0.b0 && b[1] == p0.b1 && b[2] as int == p0.top + 0x20 * p1.low
    requires b[3] == p1.b0 && b[4] == p1.b1 && b[5] as int == p1.top + 4 * p2.low && b[6] == p2.b0
    ensures Word56(b, 0)
            == x.s0 as int + 0x20_0000 * x.s1 as int + 0x400_0000_0000 * (p2.low + 0x40 * p2.b0 as int)
  {
  }

  lemma StoredMiddle(b: seq<byte>, x: Eight, p2: Parts, p3: Parts, p4: Parts, p5: Parts)
    requires |b| == 21
    requires x.s3 as int == p3.low + 2 * (p3.b0 as int + 0x100 * p3.b1 as int + 0x1_0000 * p3.top)
    requires x.s4 as int == p4.low + 0x10 * (p4.b0 as int + 0x100 * p4.b1 as int + 0x1_0000 * p4.top)
    requires b[7] as int == p2.b1 as int + 0x80 * p3.low
    requires b[8] == p3.b0 && b[9] == p3.b1 && b[10] as int == p3.top + 0x10 * p4.low
    requires b[11] == p4.b0 && b[12] == p4.b1 && b[13] as int == p4.top + 2 * p5.low
    ensures Word56(b, 7)
            == p2.b1 as int + 0x80 * x.s3 as int + 0x1000_0000 * x.s4 as int + 0x2_0000_0000_0000 * p5.low
  {
  }

  lemma StoredLast(b: seq<byte>, x: Eight, p5: Parts, p6: Parts, p7: Parts)
    requires |b| == 21 && p7.top == 0
    requires x.s6 as int == p6.low + 4 * (p6.b0 as int + 0x100 * p6.b1 as int + 0x1_0000 * p6.top)
    requires x.s7 as int == p7.low + 0x20 * (p7.b0 as int + 0x100 * p7.b1 as int + 0x1_0000 * p7.top)
    requires b[14] == p5.b0 && b[15] as int == p5.b1 as int + 0x40 * p6.low
    requires b[16] == p6.b0 && b[17] == p6.b1 && b[18] as int == p6.top + 8 * p7.low
    requires b[19] == p7.b0 && b[20] == p7.b1
    ensures Word56(b, 14)
            == p5.b0 as int + 0x100 * p5.b1 as int + 0x4000 * x.s6 as int + 0x8_0000_0000 * x.s7 as int
  {
  }

  /** The last eleven bytes, from limbs 8 to 11. */
  function StoreFour(s8: int64, s9: int64, s10: int64, s11: int64): (b: seq<byte>)
    requires IsDigit(s8) && IsDigit(s9) && IsDigit(s10) && 0 <= s11 <= 0x20_0000
    ensures |b| == 11
  {
    hide Pow2, Join, Split;
    PowersOfTwo();
    var p8, p9, p10, p11 := Split(s8 as int, 1), Split(s9 as int, 8), Split(s10 as int, 0x40), Split(s11 as int, 2);
    [p8.b0, p8.b1, Join(p8.top, s9 as int, 5, 64, 0x20, 8),
     p9.b0, p9.b1, Join(p9.top, s10 as int, 2, 64, 4, 0x40),
     p10.b0, Join(p10.b1 as int, s11 as int, 7, 64, 0x80, 2),
     p11.b0, p11.b1, ByteOf(p11.top)]
  }

  lemma StoredFour(s8: int64, s9: int64, s10: int64, s11: int64)
    requires IsDigit(s8) && IsDigit(s9) && IsDigit(s10) && 0 <= s11 <= 0x20_0000
    ensures LeFrom(StoreFour(s8, s9, s10, s11), 0)
         == s8 as int + 0x20_0000 * s9 as int + 0x400_0000_0000 * s10 as int + 0x8000_0000_0000_0000 * s11 as int
  {
    hide Pow2, Join, Split;
    PowersOfTwo();
    var p8, p9, p10, p11 := Split(s8 as int, 1), Split(s9 as int, 8), Split(s10 as int, 0x40), Split(s11 as int, 2);
    var b := StoreFour(s8, s9, s10, s11);
    assert p8.low == 0 && p10.top == 0 && 0 <= p11.top < 0x100;
    StoredElevenBytes(b, s8 as int, s9 as int, s10 as int, s11 as int, p8, p9, p10, p11);
  }

  lemma StoredElevenBytes(b: seq<byte>, s8: int, s9: int, s10: int, s11: int, p8: Parts, p9: Parts, p10: Parts,
                          p11: Parts)
    requires |b| == 11 && p8.low == 0 && p10.top == 0
    requires s8 == p8.low + (p8.b0 as int + 0x100 * p8.b1 as int + 0x1_0000 * p8.top)
    requires s9 == p9.low + 8 * (p9.b0 as int + 0x100 * p9.b1 as int + 0x1_0000 * p9.top)
    requires s10 == p10.low + 0x40 * (p10.b0 as int + 0x100 * p10.b1 as int + 0x1_0000 * p10.top)
    requires s11 == p11.low + 2 * (p11.b0 as int + 0x100 * p11.b1 as int + 0x1_0000 * p11.top)
    requires b[0] == p8.b0 && b[1] == p8.b1 && b[2] as int == p8.top + 0x20 * p9.low
    requires b[3] == p9.b0 && b[4] == p9.b1 && b[5] as int == p9.top + 4 * p10.low
    requires b[6] == p10.b0 && b[7] as int == p10.b1 as int + 0x80 * p11.low
    requires b[8] == p11.b0 && b[9] == p11.b1 && b[10] as int == p11.top
    ensures LeFrom(b, 0) == s8 + 0x20_0000 * s9 + 0x400_0000_0000 * s10 + 0x8000_0000_0000_0000 * s11
  {
    LeSeven(b, 0);
    LeOfFour(b, 7);
    hide LeFrom;
  }

  lemma LeOfFour(b: seq<byte>, i: nat)
    requires i + 4 == |b|
    ensures LeFrom(b, i)
            == b[i] as int + 0x100 * b[i + 1] as int + 0x1_0000 * b[i + 2] as int + 0x100_0000 * b[i + 3] as int
  {
    assert LeFrom(b, i + 3) == b[i + 3] as nat;
    assert LeFrom(b, i + 2) == b[i + 2] as nat + 0x100 * LeFrom(b, i + 3);
  }

  function StoreScalar(x: Six, y: Six): (b: seq<byte>)
    requires AreDigits(x) && AreDigits(y.(s5 := 0)) && 0 <= y.s5 <= 0x20_0000
    ensures |b| == 32
  {
    StoreEight(Eight(x.s0, x.s1, x.s2, x.s3, x.s4, x.s5, y.s0, y.s1)) + StoreFour(y.s2, y.s3, y.s4, y.s5)
  }

  lemma StoredScalar(x: Six, y: Six)
    requires AreDigits(x) && AreDigits(y.(s5 := 0)) && 0 <= y.s5 <= 0x20_0000
    ensures Le(StoreScalar(x, y)) == Weigh12(x, y)
  {
    var e := Eight(x.s0, x.s1, x.s2, x.s3, x.s4, x.s5, y.s0, y.s1);
    hide StoreEight, StoreFour;
    var a, b := StoreEight(e), StoreFour(y.s2, y.s3, y.s4, y.s5);
    StoredEight(e);
    StoredFour(y.s2, y.s3, y.s4, y.s5);
    LeTwentyOne(a + b, 0);
    SameBytes(a, b);
    LeOfSuffix(a, b, 0);
    hide LeFrom, Word168;
  }

  lemma SameBytes(a: seq<byte>, b: seq<byte>)
    requires |a| == 21
    ensures Word168(a + b, 0) == Word168(a, 0)
  {
    assert Word56(a + b, 0) == Word56(a, 0);
    assert Word56(a + b, 7) == Word56(a, 7);
    assert Word56(a + b, 14) == Word56(a, 14);
    hide Word56;
  }

  lemma {:induction false} LeOfSuffix(a: seq<byte>, b: seq<byte>, i: nat)
    requires i <= |b|
    ensures LeFrom(a + b, |a| + i) == LeFrom(b, i)
    decreases |b| - i
  {
    if i < |b| {
      LeOfSuffix(a, b, i + 1);
    }
  }
}
