/** Signed-digit recodings of a scalar, in place over a digit array. */
module Recoding {
  import opened Bits
  import opened Words
  import opened BytePacking

  /** The number whose digits of weight 1, 2, 4, ... are the elements of r from position i on. */
  ghost function SumFrom(r: seq<int8>, i: nat): int
    decreases |r| - i
  {
    if i >= |r| then 0 else r[i] as int + 2 * SumFrom(r, i + 1)
  }

  ghost predicate IsBit(d: int8) {
    d == 0 || d == 1
  }

  ghost predicate AreBits(r: seq<int8>, i: nat) {
    forall j :: i <= j < |r| ==> IsBit(r[j])
  }

  ghost predicate AreZero(r: seq<int8>, i: nat) {
    forall j :: i <= j < |r| ==> r[j] == 0
  }

  /** The sum from a position on depends on nothing before it. */
  lemma {:induction false} SameSum(r: seq<int8>, r': seq<int8>, i: nat)
    requires |r| == |r'| && forall j :: i <= j < |r| ==> r[j] == r'[j]
    ensures SumFrom(r, i) == SumFrom(r', i)
    decreases |r| - i
  {
    if i < |r| {
      SameSum(r, r', i + 1);
    }
  }

  /** A change of the sum from position i on, with the digits from k to i kept, shows multiplied in the sum from k. */
  lemma {:induction false} SamePrefix(r: seq<int8>, r': seq<int8>, k: nat, i: nat)
    requires k <= i <= |r| == |r'| && forall j :: k <= j < i ==> r[j] == r'[j]
    ensures SumFrom(r', k) - SumFrom(r, k) == Pow2(i - k) * (SumFrom(r', i) - SumFrom(r, i))
    decreases i - k
  {
    if k < i {
      SamePrefix(r, r', k + 1, i);
      Reassociate(2, Pow2(i - k - 1), SumFrom(r', i) - SumFrom(r, i));
    }
  }

  lemma Reassociate(b: int, p: int, d: int)
    ensures (b * p) * d == b * (p * d)
  {
  }

  // ----- slide: the binary digits

  lemma EightDigits(r: seq<int8>, i: nat)
    requires i + 8 <= |r|
    ensures SumFrom(r, i)
            == r[i] as int + 2 * r[i + 1] as int + 4 * r[i + 2] as int + 8 * r[i + 3] as int + 0x10 * r[i + 4] as int
            + 0x20 * r[i + 5] as int + 0x40 * r[i + 6] as int + 0x80 * r[i + 7] as int + 0x100 * SumFrom(r, i + 8)
  {
    assert SumFrom(r, i + 6) == r[i + 6] as int + 2 * r[i + 7] as int + 4 * SumFrom(r, i + 8);
    assert SumFrom(r, i + 4) == r[i + 4] as int + 2 * r[i + 5] as int + 4 * SumFrom(r, i + 6);
    assert SumFrom(r, i + 2) == r[i + 2] as int + 2 * r[i + 3] as int + 4 * SumFrom(r, i + 4);
    assert SumFrom(r, i) == r[i] as int + 2 * r[i + 1] as int + 4 * SumFrom(r, i + 2);
  }

  /** The bit of weight 2^i of a byte string. */
  ghost function BitAt(s: seq<byte>, i: nat): int
    requires i < 8 * |s|
  {
    s[i / 8] as int / Pow2(i % 8) % 2
  }

  lemma BitsOfByte(s: seq<byte>, m: nat)
    requires m < |s|
    ensures s[m] as int == BitAt(s, 8 * m) + 2 * BitAt(s, 8 * m + 1) + 4 * BitAt(s, 8 * m + 2) + 8 * BitAt(s, 8 * m + 3)
            + 0x10 * BitAt(s, 8 * m + 4) + 0x20 * BitAt(s, 8 * m + 5) + 0x40 * BitAt(s, 8 * m + 6)
            + 0x80 * BitAt(s, 8 * m + 7)
  {
    var b := s[m] as int;
    PowersOfTwo();
    hide Pow2, BitAt, Bit, Above;
    ByteBit(s, m, 0, 1);
    ByteBit(s, m, 1, 2);
    ByteBit(s, m, 2, 4);
    ByteBit(s, m, 3, 8);
    ByteBit(s, m, 4, 0x10);
    ByteBit(s, m, 5, 0x20);
    ByteBit(s, m, 6, 0x40);
    ByteBit(s, m, 7, 0x80);
    EightBits(b);
  }

  /** A bit of a number, given its weight, and the part of a number from a weight on. */
  ghost function Bit(b: int, p: int): int
    requires p > 0
  {
    b / p % 2
  }

  ghost function Above(b: int, p: int): int
    requires p > 0
  {
    b / p
  }

  lemma EightBits(b: int)
    requires 0 <= b < 0x100
    ensures b == Bit(b, 1) + 2 * Bit(b, 2) + 4 * Bit(b, 4) + 8 * Bit(b, 8)
                 + 0x10 * Bit(b, 0x10) + 0x20 * Bit(b, 0x20) + 0x40 * Bit(b, 0x40) + 0x80 * Bit(b, 0x80)
  {
    assert Above(b, 1) == b && Above(b, 0x100) == 0;
    hide Bit, Above;
    NextBit(b, 1);
    NextBit(b, 2);
    NextBit(b, 4);
    NextBit(b, 8);
    NextBit(b, 0x10);
    NextBit(b, 0x20);
    NextBit(b, 0x40);
    NextBit(b, 0x80);
  }

  lemma NextBit(b: int, p: int)
    requires p > 0
    ensures Above(b, p) == Bit(b, p) + 2 * Above(b, 2 * p)
  {
    NestedDivision(b, p, 2);
  }

  lemma ByteBit(s: seq<byte>, m: nat, t: nat, p: nat)
    requires m < |s| && t < 8 && p == Pow2(t) && p > 0
    ensures BitAt(s, 8 * m + t) == Bit(s[m] as int, p)
  {
    assert (8 * m + t) / 8 == m && (8 * m + t) % 8 == t;
  }

  lemma {:induction false} BitsOfNumber(s: seq<byte>, r: seq<int8>, m: nat)
    requires m <= |s| && |r| == 8 * |s|
    requires forall i :: 0 <= i < |r| ==> r[i] as int == BitAt(s, i)
    ensures SumFrom(r, 8 * m) == LeFrom(s, m)
    decreases |s| - m
  {
    hide BitAt;
    if m < |s| {
      BitsOfNumber(s, r, m + 1);
      BitsOfByte(s, m);
      EightDigits(r, 8 * m);
    }
  }

  /** The Go expression `1 & (a[i >> 3] >> (i & 7))`. */
  function BitOf(s: seq<byte>, i: nat): (b: int8)
    requires i < 8 * |s|
    ensures b as int == BitAt(s, i)
  {
    var x := s[i / 8] as int / Pow2(i % 8);
    AndMask(1, x);
    PowersOfTwo();
    And(1, x) as int8
  }

  method LoadBits(r: array<int8>, a: array<byte>)
    requires r.Length == 256 && a.Length == 32
    modifies r
    ensures AreBits(r[..], 0) && SumFrom(r[..], 0) == Le(a[..])
  {
    hide BitOf, SumFrom, Le, BitAt;
    ghost var s := a[..];
    for i := 0 to 256
      invariant a[..] == s
      invariant forall j :: 0 <= j < i ==> r[j] as int == BitAt(s, j)
    {
      r[i] := BitOf(a[..], i);
    }
    LoadedBits(s, r[..]);
  }

  lemma LoadedBits(s: seq<byte>, r: seq<int8>)
    requires |s| == 32 && |r| == 256
    requires forall j :: 0 <= j < 256 ==> r[j] as int == BitAt(s, j)
    ensures AreBits(r, 0) && SumFrom(r, 0) == Le(s)
  {
    BitsOfNumber(s, r, 0);
    hide SumFrom;
  }

  // ----- slide: folding bits into odd digits

  lemma {:induction false} OnesBelow(r: seq<int8>, p: nat, k: nat)
    requires p <= k <= |r| && forall j :: p <= j < k ==> r[j] == 1
    ensures SumFrom(r, p) == Pow2(k - p) - 1 + Pow2(k - p) * SumFrom(r, k)
    decreases k - p
  {
    if p < k {
      OnesBelow(r, p + 1, k);
      Reassociate(2, Pow2(k - p - 1), SumFrom(r, k));
    }
  }

  lemma {:induction false} ZerosBelow(r: seq<int8>, p: nat, k: nat)
    requires p <= k <= |r| && forall j :: p <= j < k ==> r[j] == 0
    ensures SumFrom(r, p) == Pow2(k - p) * SumFrom(r, k)
    decreases k - p
  {
    if p < k {
      ZerosBelow(r, p + 1, k);
      Reassociate(2, Pow2(k - p - 1), SumFrom(r, k));
    }
  }

  /** Adds one at position p of the bits of r; a carry out of position 255 is lost. */
  method PropagateCarry(r: array<int8>, p: nat) returns (ghost lost: nat)
    requires r.Length == 256 && p < 256 && AreBits(r[..], p)
    modifies r
    ensures forall j :: 0 <= j < p ==> r[j] == old(r[j])
    ensures AreBits(r[..], p)
    ensures old(r[p]) == 1 ==> r[p] == 0
    ensures lost <= 1 && SumFrom(r[..], p) + lost * Pow2(256 - p) == old(SumFrom(r[..], p)) + 1
    ensures lost == 1 ==> old(SumFrom(r[..], p)) + 1 == Pow2(256 - p)
    ensures lost == 1 ==> AreZero(r[..], p)
  {
    hide SumFrom, Pow2;
    ghost var before := r[..];
    var k := p;
    while k < 256
      invariant p <= k <= 256
      invariant forall j :: 0 <= j < p ==> r[j] == before[j]
      invariant forall j :: p <= j < k ==> before[j] == 1 && r[j] == 0
      invariant forall j :: k <= j < 256 ==> r[j] == before[j]
    {
      if r[k] == 0 {
        r[k] := 1;
        CarryStops(before, r[..], p, k);
        return 0;
      }
      r[k] := 0;
      k := k + 1;
    }
    CarryLost(before, r[..], p);
    lost := 1;
  }

  lemma CarryStops(r: seq<int8>, r': seq<int8>, p: nat, k: nat)
    requires p <= k < |r| == |r'|
    requires forall j :: p <= j < k ==> r[j] == 1 && r'[j] == 0
    requires r[k] == 0 && r'[k] == 1 && forall j :: k < j < |r| ==> r[j] == r'[j]
    ensures SumFrom(r', p) == SumFrom(r, p) + 1
  {
    OnesBelow(r, p, k);
    ZerosBelow(r', p, k);
    SameSum(r, r', k + 1);
    assert SumFrom(r', k) == SumFrom(r, k) + 1;
    hide SumFrom, Pow2;
    assert Pow2(k - p) * (SumFrom(r, k) + 1) == Pow2(k - p) * SumFrom(r, k) + Pow2(k - p);
  }

  lemma CarryLost(r: seq<int8>, r': seq<int8>, p: nat)
    requires p <= |r| == |r'|
    requires forall j :: p <= j < |r| ==> r[j] == 1 && r'[j] == 0
    ensures SumFrom(r, p) + 1 == Pow2(|r| - p) && SumFrom(r', p) == 0
  {
    OnesBelow(r, p, |r|);
    ZerosBelow(r', p, |r|);
  }

  /** An odd digit of magnitude at most 15. */
  ghost predicate IsOddDigit(d: int8) {
    d % 2 == 1 && -15 <= d <= 15
  }

  /** The four digits after position i, as far as they exist, are zero. */
  ghost predicate FourZeros(r: seq<int8>, i: nat) {
    forall j :: i < j <= i + 4 && j < |r| ==> r[j] == 0
  }

  lemma MovedSum(m: int, p: int, d: int, e: int, s: int, s': int, t: int, t': int, x: int, x': int)
    requires p == 2 * m && s' == s - d - e && t' - t == m * (s' - s) && x' - x == p * d + 2 * (t' - t)
    ensures x' == x - p * e
  {
    assert m * (s' - s) == m * (-d - e) == -(m * d) - m * e;
    assert p * d == 2 * (m * d) && p * e == 2 * (m * e);
  }

  /** What a change of the digits at positions i and i + b does to the sum. */
  lemma Moved(r: seq<int8>, r': seq<int8>, i: nat, b: nat, d: int, e: int)
    requires 0 < b && i + b < |r| == |r'|
    requires r'[i] as int == r[i] as int + Pow2(b) * d
    requires forall j :: i < j < i + b ==> r[j] == r'[j]
    requires SumFrom(r', i + b) == SumFrom(r, i + b) - d - e
    ensures SumFrom(r', i) == SumFrom(r, i) - Pow2(b) * e
  {
    SamePrefix(r, r', i + 1, i + b);
    assert Pow2(b) == 2 * Pow2(b - 1);
    assert SumFrom(r', i) == r'[i] as int + 2 * SumFrom(r', i + 1);
    assert SumFrom(r, i) == r[i] as int + 2 * SumFrom(r, i + 1);
    hide SumFrom, Pow2;
    MovedSum(Pow2(b - 1), Pow2(b), d, e, SumFrom(r, i + b), SumFrom(r', i + b), SumFrom(r, i + 1), SumFrom(r', i + 1),
             SumFrom(r, i), SumFrom(r', i));
  }

  /** What the loop over b has achieved when it reaches b, for the digit at position i. */
  ghost predicate Absorbing(r: seq<int8>, i: nat, b: nat)
    requires i < |r| && 0 < b <= 7
  {
    && AreBits(r, i + 1)
    && IsOddDigit(r[i])
    && if b <= 4 then 0 < r[i] as int < Pow2(b) && forall j :: i < j < i + b && j < |r| ==> r[j] == 0
       else FourZeros(r, i)
  }

  /** The Go expression `r[i+b] << b`. */
  function Shifted(d: int8, b: nat): (x: int8)
    requires IsBit(d) && b <= 6
    ensures x as int == Pow2(b) * d as int && 0 <= x <= 64
  {
    assert Pow2(b) <= 64 by { PowersOfTwo(); }
    (d as int * Pow2(b)) as int8
  }

  /** Collects into the digit at position i all that fits of the six bits after it. */
  method Absorb(r: array<int8>, i: nat) returns (ghost lost: nat)
    requires r.Length == 256 && i < 256 && AreBits(r[..], i) && r[i] == 1
    modifies r
    ensures forall j :: 0 <= j < i ==> r[j] == old(r[j])
    ensures AreBits(r[..], i + 1) && IsOddDigit(r[i]) && FourZeros(r[..], i)
    ensures lost <= 1 && SumFrom(r[..], i) + lost * Pow2(256 - i) == old(SumFrom(r[..], i))
    ensures lost == 1 ==> old(SumFrom(r[..], i)) > Pow2(255 - i) && AreZero(r[..], i + 1)
  {
    hide SumFrom, Pow2;
    PowersOfTwo();
    ghost var before := r[..];
    lost := 0;
    var b := 1;
    while b <= 6 && i + b < 256
      invariant 1 <= b <= 7
      invariant forall j :: 0 <= j < i ==> r[j] == before[j]
      invariant Absorbing(r[..], i, b)
      invariant lost <= 1 && SumFrom(r[..], i) + lost * Pow2(256 - i) == SumFrom(before, i)
      invariant lost == 1 ==> SumFrom(before, i) > Pow2(255 - i) && AreZero(r[..], i + 1)
      invariant b <= 4 ==> lost == 0
    {
      if r[i + b] != 0 {
        ghost var now := r[..];
        var x := Shifted(r[i + b], b);
        if r[i] + x <= 15 {
          r[i] := r[i] + x;
          r[i + b] := 0;
          FoldedUp(now, r[..], i, b);
        } else if r[i] - x >= -15 {
          r[i] := r[i] - x;
          SameSum(now, r[..], i + b);
          lost := PropagateCarry(r, i + b);
          FoldedDown(now, r[..], i, b, lost);
        } else {
          break;
        }
      }
      b := b + 1;
    }
  }

  lemma FoldedUp(r: seq<int8>, r': seq<int8>, i: nat, b: nat)
    requires |r| == |r'| && 0 < b <= 6 && i + b < |r| && Absorbing(r, i, b)
    requires r[i + b] == 1 && r[i] as int + Pow2(b) <= 15
    requires r'[i] as int == r[i] as int + Pow2(b) && r'[i + b] == 0
    requires forall j :: i < j < |r| && j != i + b ==> r'[j] == r[j]
    ensures Absorbing(r', i, b + 1) && b <= 3
    ensures SumFrom(r', i) == SumFrom(r, i)
  {
    PowersOfTwo();
    assert b <= 3 && Pow2(b + 1) == 2 * Pow2(b) && Pow2(b) % 2 == 0;
    SameSum(r, r', i + b + 1);
    assert SumFrom(r', i + b) == SumFrom(r, i + b) - 1;
    hide SumFrom, Pow2;
    Moved(r, r', i, b, 1, 0);
  }

  lemma FoldedDown(r: seq<int8>, r': seq<int8>, i: nat, b: nat, lost: nat)
    requires |r| == |r'| == 256 && 0 < b <= 6 && i + b < |r| && Absorbing(r, i, b)
    requires r[i + b] == 1 && r[i] as int + Pow2(b) > 15 && r[i] as int - Pow2(b) >= -15
    requires r'[i] as int == r[i] as int - Pow2(b) && r'[i + b] == 0 && AreBits(r', i + b)
    requires forall j :: i < j < i + b ==> r'[j] == r[j]
    requires lost <= 1 && SumFrom(r', i + b) + lost * Pow2(256 - (i + b)) == SumFrom(r, i + b) + 1
    requires lost == 1 ==> SumFrom(r, i + b) + 1 == Pow2(256 - (i + b)) && AreZero(r', i + b)
    ensures Absorbing(r', i, b + 1) && b == 4
    ensures SumFrom(r', i) + lost * Pow2(256 - i) == SumFrom(r, i)
    ensures lost == 1 ==> SumFrom(r, i) > Pow2(255 - i) && AreZero(r', i + 1)
  {
    PowersOfTwo();
    hide SumFrom, Pow2;
    assert b == 4;
    assert AreBits(r', i + 1) && FourZeros(r', i) && IsOddDigit(r'[i]);
    hide IsOddDigit, AreBits, FourZeros;
    FoldedDownSum(r, r', i, lost);
  }

  lemma FoldedDownSum(r: seq<int8>, r': seq<int8>, i: nat, lost: nat)
    requires |r| == |r'| == 256 && i + 4 < 256 && 0 < r[i] && r'[i] as int == r[i] as int - Pow2(4)
    requires forall j :: i < j < i + 4 ==> r[j] == 0 && r'[j] == 0
    requires lost <= 1 && SumFrom(r', i + 4) + lost * Pow2(252 - i) == SumFrom(r, i + 4) + 1
    requires lost == 1 ==> SumFrom(r, i + 4) + 1 == Pow2(252 - i)
    ensures SumFrom(r', i) + lost * Pow2(256 - i) == SumFrom(r, i)
    ensures lost != 0 ==> SumFrom(r, i) > Pow2(255 - i)
  {
    hide SumFrom, Pow2;
    var e := if lost == 0 then 0 else Pow2(252 - i);
    MovedByFour(r, r', i, e);
    SmallShifts(252 - i);
    if lost == 1 {
      DigitAndZeros(r, i);
    }
  }

  lemma DigitAndZeros(r: seq<int8>, i: nat)
    requires i + 4 < |r| && forall j :: i < j < i + 4 ==> r[j] == 0
    ensures SumFrom(r, i) == r[i] as int + 0x10 * SumFrom(r, i + 4)
  {
    assert SumFrom(r, i) == r[i] as int + 2 * SumFrom(r, i + 1);
    ZerosBelow(r, i + 1, i + 4);
    assert Pow2(3) == 8;
  }

  lemma MovedByFour(r: seq<int8>, r': seq<int8>, i: nat, e: int)
    requires i + 4 < |r| == |r'| && r'[i] as int == r[i] as int - Pow2(4)
    requires forall j :: i < j < i + 4 ==> r[j] == r'[j]
    requires SumFrom(r', i + 4) == SumFrom(r, i + 4) + 1 - e
    ensures SumFrom(r', i) == SumFrom(r, i) - 0x10 * e
  {
    assert Pow2(4) == 0x10;
    hide SumFrom, Pow2;
    Moved(r, r', i, 4, -1, e);
  }

  lemma SmallShifts(k: nat)
    ensures Pow2(k + 3) == 8 * Pow2(k) && Pow2(k + 4) == 0x10 * Pow2(k) && (k > 0 ==> Pow2(k) >= 2)
  {
    assert Pow2(k + 1) == 2 * Pow2(k);
    assert Pow2(k + 2) == 2 * Pow2(k + 1);
    assert Pow2(k + 3) == 2 * Pow2(k + 2);
  }

  // ----- slide

  /** The digits before position i are done: each is zero or odd and small, and four zeros follow an odd one. */
  ghost predicate Sparse(r: seq<int8>, i: nat) {
    forall j :: 0 <= j < i && j < |r| && r[j] != 0 ==> IsOddDigit(r[j]) && FourZeros(r, j)
  }

  lemma AfterAbsorb(r: seq<int8>, r': seq<int8>, i: nat, lost: nat)
    requires |r| == |r'| == 256 && i < 256
    requires AreBits(r, i) && r[i] == 1 && Sparse(r, i) && forall j :: 0 <= j < i ==> r'[j] == r[j]
    requires AreBits(r', i + 1) && IsOddDigit(r'[i]) && FourZeros(r', i)
    requires SumFrom(r', i) + lost * Pow2(256 - i) == SumFrom(r, i)
    requires lost != 0 ==> SumFrom(r, i) > Pow2(255 - i)
    ensures Sparse(r', i + 1)
    ensures SumFrom(r', 0) + lost * Pow2(256) == SumFrom(r, 0)
    ensures SumFrom(r, i) <= Pow2(255 - i) ==> lost == 0 && (i < 255 ==> SumFrom(r', i + 1) <= Pow2(254 - i))
  {
    hide SumFrom, Pow2, AreBits, Sparse, IsOddDigit, FourZeros;
    SparseStep(r, r', i);
    SamePrefix(r, r', 0, i);
    SmallRest(r', i, SumFrom(r, i));
    Pow2Sum(i, 256 - i);
    LostProduct(Pow2(i), Pow2(256 - i), lost, SumFrom(r', i) - SumFrom(r, i));
  }

  lemma LostProduct(p: int, q: int, lost: int, d: int)
    requires d == -(lost * q)
    ensures p * d == -(lost * (p * q))
  {
    assert p * d == p * -(lost * q) == -(lost * (p * q));
  }

  /** Below 2^255 the part that is still to be recoded stays below 2^255 as well, since it is a multiple of 32. */
  lemma SmallRest(r: seq<int8>, i: nat, n: int)
    requires |r| == 256 && i < 256 && IsOddDigit(r[i]) && FourZeros(r, i)
    ensures SumFrom(r, i) == n && n <= Pow2(255 - i) && i < 255 ==> SumFrom(r, i + 1) <= Pow2(254 - i)
  {
    if i < 251 {
      MultipleOf32(r, i);
    } else {
      assert SumFrom(r, i) == r[i] as int + 2 * SumFrom(r, i + 1);
      ZerosBelow(r, i + 1, 256);
    }
  }

  lemma MultipleOf32(r: seq<int8>, i: nat)
    requires |r| == 256 && i < 251 && IsOddDigit(r[i]) && FourZeros(r, i)
    ensures SumFrom(r, i) <= Pow2(255 - i) ==> SumFrom(r, i + 1) <= Pow2(254 - i)
  {
    hide Pow2;
    assert SumFrom(r, i) == r[i] as int + 2 * SumFrom(r, i + 1);
    hide SumFrom;
    ZerosBelow(r, i + 1, i + 5);
    PowersOfTwo();
    Pow2Sum(5, 250 - i);
    Pow2Sum(4, 250 - i);
    RoundedBelow(r[i] as int, SumFrom(r, i + 5), Pow2(250 - i));
  }

  lemma RoundedBelow(d: int, s: int, p: int)
    requires -15 <= d
    ensures d + 32 * s <= 32 * p ==> s <= p
  {
  }

  lemma SparseStep(r: seq<int8>, r': seq<int8>, i: nat)
    requires |r| == |r'| == 256 && i < 256
    requires r[i] == 1 && Sparse(r, i) && forall j :: 0 <= j < i ==> r'[j] == r[j]
    requires IsOddDigit(r'[i]) && FourZeros(r', i)
    ensures Sparse(r', i + 1)
  {
    forall j | 0 <= j < i && r'[j] != 0
      ensures IsOddDigit(r'[j]) && FourZeros(r', j)
    {
      assert IsOddDigit(r[j]) && FourZeros(r, j);
      assert i > j + 4;
    }
  }

  lemma AfterZero(r: seq<int8>, i: nat)
    requires |r| == 256 && i < 256 && AreBits(r, i) && r[i] == 0 && Sparse(r, i)
    ensures AreBits(r, i + 1) && Sparse(r, i + 1)
    ensures i < 255 && SumFrom(r, i) <= Pow2(255 - i) ==> SumFrom(r, i + 1) <= Pow2(254 - i)
  {
    assert SumFrom(r, i) == 2 * SumFrom(r, i + 1);
    if i < 255 {
      assert Pow2(255 - i) == 2 * Pow2(254 - i);
    }
  }

  /** Recodes a into 256 digits, each zero or odd with magnitude at most 15 and odd ones five places apart.

      The digits represent a when it is below 2^255. A larger one may lose one carry, which is worth 2^256.
   */
  method Slide(r: array<int8>, a: array<byte>) returns (ghost lost: nat)
    requires r.Length == 256 && a.Length == 32
    modifies r
    ensures Sparse(r[..], 256)
    ensures lost <= 1 && SumFrom(r[..], 0) + lost * Pow2(256) == Le(a[..])
    ensures Le(a[..]) < Pow2(255) ==> lost == 0
  {
    hide SumFrom, Pow2, Le;
    LoadBits(r, a);
    ghost var n := Le(a[..]);
    lost := 0;
    for i := 0 to 256
      invariant a[..] == old(a[..])
      invariant AreBits(r[..], i) && Sparse(r[..], i)
      invariant lost <= 1 && SumFrom(r[..], 0) + lost * Pow2(256) == n
      invariant lost == 1 ==> AreZero(r[..], i)
      invariant n < Pow2(255) ==> lost == 0 && (i < 256 ==> SumFrom(r[..], i) <= Pow2(255 - i))
    {
      ghost var before := r[..];
      if r[i] != 0 {
        ghost var l;
        l := Absorb(r, i);
        AfterAbsorb(before, r[..], i, l);
        lost := l;
      } else {
        AfterZero(r[..], i);
      }
    }
  }

  /** Digits that are odd or zero cannot sum to a multiple of their full range, unless to zero. */
  lemma {:induction false} NoFullRange(r: seq<int8>, i: nat, q: int)
    requires |r| == 256 && i <= 256 && Sparse(r, 256)
    requires SumFrom(r, i) == Pow2(256 - i) * q
    ensures SumFrom(r, i) == 0
    decreases 256 - i
  {
    if i < 256 {
      assert SumFrom(r, i) == r[i] as int + 2 * SumFrom(r, i + 1);
      assert Pow2(256 - i) * q == 2 * (Pow2(255 - i) * q) by { Reassociate(2, Pow2(255 - i), q); }
      assert r[i] == 0;
      NoFullRange(r, i + 1, q);
    }
  }

  lemma {:induction false} LeOfOnes(s: seq<byte>, m: nat)
    requires m <= |s| && forall j :: 0 <= j < |s| ==> s[j] == 0xff
    ensures LeFrom(s, m) == Pow2(8 * (|s| - m)) - 1
    decreases |s| - m
  {
    if m < |s| {
      LeOfOnes(s, m + 1);
      PowersOfTwo();
      Pow2Sum(8, 8 * (|s| - m - 1));
    }
  }

  /** The thirty-two bytes of 2^256 - 1. */
  ghost predicate AllOnes(a: seq<byte>) {
    |a| == 32 && forall j :: 0 <= j < 32 ==> a[j] == 0xff
  }

  lemma OnesOf(a: seq<byte>)
    requires AllOnes(a)
    ensures Le(a) == Pow2(256) - 1 == 0x20 * Pow2(251) - 1
  {
    hide Pow2, LeFrom;
    LeOfOnes(a, 0);
    PowersOfTwo();
    Pow2Sum(5, 251);
  }

  /** Thirty-two bytes of ones lose a carry: whatever Slide may leave for them are the digits of -1. */
  lemma LostCarry(a: seq<byte>, r: seq<int8>, lost: nat)
    requires AllOnes(a)
    requires |r| == 256 && Sparse(r, 256) && lost <= 1 && SumFrom(r, 0) + lost * Pow2(256) == Le(a)
    ensures lost == 1 && SumFrom(r, 0) == -1
  {
    hide Le, Pow2, SumFrom, Sparse;
    OnesOf(a);
    var h := Pow2(251) * (1 - lost);
    OddSum(r, h);
    LastDigit(r[0] as int, SumFrom(r, 5), h);
    NoFullRange(r, 5, 1 - lost);
  }

  /** An odd sum of sparse digits ends in a digit and four zeros. */
  lemma OddSum(r: seq<int8>, h: int)
    requires |r| == 256 && Sparse(r, 256) && SumFrom(r, 0) == 32 * h - 1
    ensures IsOddDigit(r[0]) && SumFrom(r, 0) == r[0] as int + 32 * SumFrom(r, 5)
  {
    assert SumFrom(r, 0) == r[0] as int + 2 * SumFrom(r, 1);
    assert r[0] != 0;
    ZerosBelow(r, 1, 5);
    assert Pow2(4) == 0x10;
  }

  lemma LastDigit(d: int, s: int, h: int)
    requires -15 <= d <= 15 && d + 32 * s == 32 * h - 1
    ensures d == -1 && s == h
  {
  }

  // ----- the radix-16 digits of GeScalarMultBase

  /** The number whose digits of weight 1, 16, 256, ... are the elements of e from position i on. */
  ghost function Sum16(e: seq<int8>, i: nat): int
    decreases |e| - i
  {
    if i >= |e| then 0 else e[i] as int + 16 * Sum16(e, i + 1)
  }

  ghost function Pow16(i: nat): (p: nat)
    ensures p > 0
  {
    if i == 0 then 1 else 16 * Pow16(i - 1)
  }

  lemma {:induction false} SamePrefix16(e: seq<int8>, e': seq<int8>, k: nat, i: nat)
    requires k <= i <= |e| == |e'| && forall j :: k <= j < i ==> e[j] == e'[j]
    ensures Sum16(e', k) - Sum16(e, k) == Pow16(i - k) * (Sum16(e', i) - Sum16(e, i))
    decreases i - k
  {
    if k < i {
      SamePrefix16(e, e', k + 1, i);
      Reassociate(16, Pow16(i - k - 1), Sum16(e', i) - Sum16(e, i));
    }
  }

  lemma {:induction false} SameSum16(e: seq<int8>, e': seq<int8>, i: nat)
    requires |e| == |e'| && forall j :: i <= j < |e| ==> e[j] == e'[j]
    ensures Sum16(e, i) == Sum16(e', i)
    decreases |e| - i
  {
    if i < |e| {
      SameSum16(e, e', i + 1);
    }
  }

  ghost predicate IsHalved(e: seq<int8>, s: seq<byte>, i: nat)
    requires i < |s| && |e| == 2 * |s|
  {
    e[2 * i] as int == s[i] as int % 16 && e[2 * i + 1] as int == s[i] as int / 16
  }

  lemma {:induction false} HalfBytes(s: seq<byte>, e: seq<int8>, m: nat)
    requires m <= |s| && |e| == 2 * |s|
    requires forall i :: 0 <= i < |s| ==> IsHalved(e, s, i)
    ensures Sum16(e, 2 * m) == LeFrom(s, m)
    decreases |s| - m
  {
    if m < |s| {
      HalfBytes(s, e, m + 1);
      assert IsHalved(e, s, m);
      assert Sum16(e, 2 * m) == e[2 * m] as int + 16 * Sum16(e, 2 * m + 1);
      assert Sum16(e, 2 * m + 1) == e[2 * m + 1] as int + 16 * Sum16(e, 2 * m + 2);
    }
  }

  /** The Go expression `v & 15`. */
  function Low4(v: int): (d: int8)
    ensures d as int == v % 16
  {
    PowersOfTwo();
    AndMask(4, v);
    And(15, v) as int8
  }

  method LoadHalfBytes(e: array<int8>, a: array<byte>)
    requires e.Length == 64 && a.Length == 32
    modifies e
    ensures forall i :: 0 <= i < 32 ==> IsHalved(e[..], a[..], i)
  {
    hide Low4;
    for i := 0 to 32
      invariant forall j :: 0 <= j < i ==> IsHalved(e[..], a[..], j)
    {
      ghost var before := e[..];
      e[2 * i] := Low4(a[i] as int);
      e[2 * i + 1] := Low4(a[i] as int / 16);
      forall j | 0 <= j < i ensures IsHalved(e[..], a[..], j) {
        assert IsHalved(before, a[..], j);
      }
    }
  }

  /** The 64 signed digits of a, each between -8 and 7 but for the last, which takes all the rest. */
  method Radix16(e: array<int8>, a: array<byte>)
    requires e.Length == 64 && a.Length == 32
    modifies e
    ensures Sum16(e[..], 0) == Le(a[..])
    ensures forall i :: 0 <= i < 63 ==> -8 <= e[i] <= 7
    ensures e[63] as int == TopDigit(Le(a[..]), 63)
    ensures 0 <= e[63] <= 16 && (a[31] <= 127 ==> e[63] <= 8)
  {
    hide Sum16, Pow16, Le, TopDigit;
    LoadHalfBytes(e, a);
    HalfBytes(a[..], e[..], 0);
    LeFromStart(a[..]);
    UnsignedDigits(a[..], e[..]);
    assert Pow16(0) == 1 by { Pow16Start(); }
    var carry: int8 := 0;
    for i := 0 to 63
      invariant 0 <= carry <= 1
      invariant forall j :: 0 <= j < i ==> -8 <= e[j] <= 7
      invariant forall j :: i <= j < 63 ==> 0 <= e[j] <= 15
      invariant 0 <= e[63] <= 15 && (a[31] <= 127 ==> e[63] <= 7)
      invariant a[..] == old(a[..])
      invariant Sum16(e[..], 0) + carry as int * Pow16(i) == Le(a[..])
    {
      ghost var before, c := e[..], carry;
      e[i] := e[i] + carry;
      carry := (e[i] + 8) / 16;
      e[i] := e[i] - carry * 16;
      CarryStep(before, e[..], i, c as int, carry as int);
    }
    ghost var before := e[..];
    e[63] := e[63] + carry;
    CarryStep(before, e[..], 63, carry as int, 0);
    LastDigitIsTop(e[..], 63);
  }

  /** The number whose k digits of weight 1, 16, 256, ... are all 1. */
  ghost function Ones16(k: nat): nat {
    if k == 0 then 0 else 1 + 16 * Ones16(k - 1)
  }

  /** How often 16^k goes into n when k digits of -8 .. 7 take the rest. */
  ghost function TopDigit(n: int, k: nat): int {
    (n + 8 * Ones16(k)) / Pow16(k)
  }

  lemma {:induction false} LowDigits(e: seq<int8>, k: nat, i: nat)
    requires |e| == k + 1 && i <= k && forall j :: 0 <= j < k ==> -8 <= e[j] <= 7
    ensures 0 <= Sum16(e, i) + 8 * Ones16(k - i) - Pow16(k - i) * e[k] as int < Pow16(k - i)
    decreases k - i
  {
    if i < k {
      LowDigits(e, k, i + 1);
      Reassociate(16, Pow16(k - i - 1), e[k] as int);
    } else {
      assert Sum16(e, k + 1) == 0;
    }
  }

  lemma LastDigitIsTop(e: seq<int8>, k: nat)
    requires |e| == k + 1 && forall j :: 0 <= j < k ==> -8 <= e[j] <= 7
    ensures e[k] as int == TopDigit(Sum16(e, 0), k)
  {
    hide Sum16, Ones16, Pow16;
    LowDigits(e, k, 0);
    RoundedQuotient(Sum16(e, 0) + 8 * Ones16(k), Pow16(k), e[k] as int);
  }

  lemma RoundedQuotient(n: int, p: int, d: int)
    requires 0 <= n - p * d < p
    ensures n / p == d
  {
    DivisionIsUnique(n, p, d, n - p * d);
  }

  lemma LeFromStart(s: seq<byte>)
    ensures Le(s) == LeFrom(s, 0)
  {
  }

  lemma Pow16Start()
    ensures Pow16(0) == 1
  {
  }

  lemma UnsignedDigits(s: seq<byte>, e: seq<int8>)
    requires |s| == 32 && |e| == 64
    requires forall i :: 0 <= i < 32 ==> IsHalved(e, s, i)
    ensures forall j :: 0 <= j < 64 ==> 0 <= e[j] <= 15
    ensures s[31] <= 127 ==> e[63] <= 7
  {
    forall j | 0 <= j < 64
      ensures 0 <= e[j] <= 15
    {
      var i := j / 2;
      assert IsHalved(e, s, i);
      assert j == 2 * i || j == 2 * i + 1;
    }
    assert IsHalved(e, s, 31);
  }

  lemma CarryStep(e: seq<int8>, e': seq<int8>, i: nat, c: int, c': int)
    requires i < |e| == |e'| && forall j :: 0 <= j < |e| && j != i ==> e'[j] == e[j]
    requires e'[i] as int == e[i] as int + c - 16 * c'
    ensures Sum16(e', 0) + c' * Pow16(i + 1) == Sum16(e, 0) + c * Pow16(i)
  {
    SameSum16(e, e', i + 1);
    SamePrefix16(e, e', 0, i);
    assert Sum16(e', i) - Sum16(e, i) == c - 16 * c';
    assert Pow16(i + 1) == 16 * Pow16(i);
    hide Sum16, Pow16;
    CarryProduct(Pow16(i), c, c', Sum16(e', i) - Sum16(e, i));
  }

  lemma CarryProduct(p: int, c: int, c': int, d: int)
    requires d == c - 16 * c'
    ensures p * d == c * p - c' * (16 * p)
  {
  }
}
