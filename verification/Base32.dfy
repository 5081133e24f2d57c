/** The base 32 encoding of RFC 4648, section 6, on whole groups of five bytes and eight symbols. */
module Base32 {
  import opened Bits
  import opened Words

  // ----- positional numbers

  ghost predicate AreDigits(ds: seq<int>, base: int) {
    forall i :: 0 <= i < |ds| ==> 0 <= ds[i] < base
  }

  /** The number with big-endian digits ds. */
  function Number(ds: seq<int>, base: int): int {
    if ds == [] then 0 else Number(ds[..|ds| - 1], base) * base + ds[|ds| - 1]
  }

  lemma Remainder(v: int, base: int)
    requires base > 0
    ensures 0 <= v % base < base && v == (v / base) * base + v % base
  {
  }

  /** The last n digits of v, most significant first. */
  function Digits(v: int, base: int, n: nat): (ds: seq<int>)
    requires base > 0
    ensures |ds| == n
    decreases n
  {
    if n == 0 then [] else Digits(v / base, base, n - 1) + [v % base]
  }

  lemma {:induction false} DigitsAreDigits(v: int, base: int, n: nat)
    requires base > 0
    ensures AreDigits(Digits(v, base, n), base)
    decreases n
  {
    if n == 0 {
    } else {
      var d := v % base;
      Remainder(v, base);
      DigitsAreDigits(v / base, base, n - 1);
    }
  }

  ghost function Power(base: int, n: nat): int {
    if n == 0 then 1 else Power(base, n - 1) * base
  }

  lemma {:induction false} NumberOfDigits(v: int, base: int, n: nat)
    requires base > 0 && 0 <= v < Power(base, n)
    ensures Number(Digits(v, base, n), base) == v
    decreases n
  {
    if n == 0 {
    } else {
      var q, d := v / base, v % base;
      Remainder(v, base);
      QuotientBound(q, d, base, Power(base, n - 1));
      NumberOfDigits(q, base, n - 1);
      var ds := Digits(q, base, n - 1);
      assert (ds + [d])[..n - 1] == ds;
    }
  }

  lemma QuotientBound(q: int, d: int, base: int, m: int)
    requires 0 <= d < base && 0 <= q * base + d < m * base
    ensures 0 <= q < m
  {
    MultipleIsFar(q - m, base);
    MultipleIsFar(q, base);
    assert (q - m) * base == q * base - m * base;
  }

  lemma {:induction false} DigitsOfNumber(ds: seq<int>, base: int)
    requires base > 0 && AreDigits(ds, base)
    ensures 0 <= Number(ds, base) < Power(base, |ds|)
    ensures Digits(Number(ds, base), base, |ds|) == ds
  {
    if ds == [] {
    } else {
      var init, last := ds[..|ds| - 1], ds[|ds| - 1];
      DigitsOfNumber(init, base);
      Shifted(Number(init, base), last, base, Power(base, |init|));
      assert ds == init + [last];
    }
  }

  lemma Shifted(u: int, d: int, base: int, m: int)
    requires 0 <= d < base && 0 <= u < m
    ensures (u * base + d) / base == u && (u * base + d) % base == d
    ensures 0 <= u * base + d < m * base
  {
    DivisionIsUnique(u * base + d, base, u, d);
    if u + 1 < m {
      MultipleIsFar(m - u - 1, base);
    }
    assert (m - u - 1) * base == m * base - u * base - base;
  }

  lemma FortyBits()
    ensures Power(32, 8) == Power(0x100, 5)
  {
    assert Power(32, 4) == 0x10_0000;
    assert Power(32, 8) == Power(32, 4) * 32 * 32 * 32 * 32;
    assert Power(0x100, 5) == Power(0x100, 3) * 0x100 * 0x100;
  }

  // ----- groups

  function Symbol(d: int): char
    requires 0 <= d < 32
  {
    if d < 26 then 'A' + d as char else '2' + (d - 26) as char
  }

  predicate IsSymbol(c: char) {
    'A' <= c <= 'Z' || '2' <= c <= '7'
  }

  function SymbolValue(c: char): (d: int)
    requires IsSymbol(c)
    ensures 0 <= d < 32
  {
    if 'A' <= c then c as int - 'A' as int else c as int - '2' as int + 26
  }

  lemma SymbolsAndValues()
    ensures forall d :: 0 <= d < 32 ==> IsSymbol(Symbol(d)) && SymbolValue(Symbol(d)) == d
    ensures forall c :: IsSymbol(c) ==> Symbol(SymbolValue(c)) == c
  {
  }

  ghost predicate AreSymbols(s: string) {
    forall i :: 0 <= i < |s| ==> IsSymbol(s[i])
  }

  function Ints(b: seq<byte>): (ds: seq<int>)
    ensures |ds| == |b| && AreDigits(ds, 0x100)
    ensures forall i :: 0 <= i < |b| ==> ds[i] == b[i] as int
  {
    seq(|b|, i requires 0 <= i < |b| => b[i] as int)
  }

  function Bytes(ds: seq<int>): (b: seq<byte>)
    requires AreDigits(ds, 0x100)
    ensures |b| == |ds| && Ints(b) == ds
  {
    seq(|ds|, i requires 0 <= i < |ds| => ds[i] as byte)
  }

  function Symbols(ds: seq<int>): (s: string)
    requires AreDigits(ds, 32)
    ensures |s| == |ds|
    ensures forall i :: 0 <= i < |ds| ==> s[i] == Symbol(ds[i])
  {
    seq(|ds|, i requires 0 <= i < |ds| => Symbol(ds[i]))
  }

  function Values(s: string): (ds: seq<int>)
    requires AreSymbols(s)
    ensures |ds| == |s| && AreDigits(ds, 32)
    ensures forall i :: 0 <= i < |s| ==> ds[i] == SymbolValue(s[i])
  {
    seq(|s|, i requires 0 <= i < |s| => SymbolValue(s[i]))
  }

  /** Forty bits are five bytes or eight symbols. */
  function EncodeGroup(b: seq<byte>): (s: string)
    requires |b| == 5
    ensures |s| == 8
  {
    var n := Number(Ints(b), 0x100);
    DigitsAreDigits(n, 32, 8);
    Symbols(Digits(n, 32, 8))
  }

  function DecodeGroup(s: string): (b: seq<byte>)
    requires |s| == 8 && AreSymbols(s)
    ensures |b| == 5
  {
    var n := Number(Values(s), 32);
    DigitsAreDigits(n, 0x100, 5);
    Bytes(Digits(n, 0x100, 5))
  }

  lemma DecodeEncodeGroup(b: seq<byte>)
    requires |b| == 5
    ensures AreSymbols(EncodeGroup(b)) && DecodeGroup(EncodeGroup(b)) == b
  {
    var n := Number(Ints(b), 0x100);
    var ds := Digits(n, 32, 8);
    DigitsAreDigits(n, 32, 8);
    SymbolsAndValues();
    assert Values(Symbols(ds)) == ds;
    hide Number, Digits, Power;
    FortyBits();
    DigitsOfNumber(Ints(b), 0x100);
    NumberOfDigits(n, 32, 8);
    SameInts(DecodeGroup(EncodeGroup(b)), b);
  }

  lemma SameInts(a: seq<byte>, b: seq<byte>)
    requires Ints(a) == Ints(b)
    ensures a == b
  {
    assert |a| == |b|;
    forall i | 0 <= i < |a| ensures a[i] == b[i] {
      assert Ints(a)[i] == Ints(b)[i];
    }
  }

  lemma EncodeDecodeGroup(s: string)
    requires |s| == 8 && AreSymbols(s)
    ensures EncodeGroup(DecodeGroup(s)) == s
  {
    var n := Number(Values(s), 32);
    hide Number, Digits, Power;
    FortyBits();
    DigitsOfNumber(Values(s), 32);
    NumberOfDigits(n, 0x100, 5);
    SymbolsAndValues();
    assert Symbols(Values(s)) == s;
  }

  // ----- strings

  function Encode(b: seq<byte>): (s: string)
    requires |b| % 5 == 0
    ensures |s| * 5 == |b| * 8
  {
    if b == [] then [] else EncodeGroup(b[..5]) + Encode(b[5..])
  }

  function Decode(s: string): (b: seq<byte>)
    requires |s| % 8 == 0 && AreSymbols(s)
    ensures |b| * 8 == |s| * 5
  {
    if s == [] then [] else DecodeGroup(s[..8]) + Decode(s[8..])
  }

  lemma {:induction false} DecodeEncode(b: seq<byte>)
    requires |b| % 5 == 0
    ensures AreSymbols(Encode(b)) && Decode(Encode(b)) == b
  {
    hide EncodeGroup, DecodeGroup;
    if b == [] {
    } else {
      DecodeEncodeGroup(b[..5]);
      DecodeEncode(b[5..]);
      var s := EncodeGroup(b[..5]) + Encode(b[5..]);
      assert s[..8] == EncodeGroup(b[..5]) && s[8..] == Encode(b[5..]);
    }
  }

  lemma {:induction false} EncodeDecode(s: string)
    requires |s| % 8 == 0 && AreSymbols(s)
    ensures Encode(Decode(s)) == s
  {
    hide EncodeGroup, DecodeGroup;
    if s == [] {
    } else {
      EncodeDecodeGroup(s[..8]);
      EncodeDecode(s[8..]);
      var b := DecodeGroup(s[..8]) + Decode(s[8..]);
      assert b[..5] == DecodeGroup(s[..8]) && b[5..] == Decode(s[8..]);
    }
  }

  // ----- RFC 4648 by the places of bits

  lemma NumberOfFive(b: seq<byte>)
    requires |b| == 5
    ensures Number(Ints(b), 0x100) == 0x1_0000_0000 * b[0] as int + 0x100_0000 * b[1] as int + 0x1_0000 * b[2] as int
                                      + 0x100 * b[3] as int + b[4] as int
  {
    var ds := Ints(b);
    assert ds[..4][..3] == ds[..3] && ds[..3][..2] == ds[..2] && ds[..2][..1] == ds[..1] && ds[..1][..0] == [];
    assert Number(ds[..1], 0x100) == ds[0];
    assert Number(ds[..2], 0x100) == Number(ds[..1], 0x100) * 0x100 + ds[1];
    assert Number(ds[..3], 0x100) == Number(ds[..2], 0x100) * 0x100 + ds[2];
    assert Number(ds[..4], 0x100) == Number(ds[..3], 0x100) * 0x100 + ds[3];
  }

  lemma NumberOfMore(ds: seq<int>, base: int)
    requires ds != []
    ensures Number(ds, base) == Number(ds[..|ds| - 1], base) * base + ds[|ds| - 1]
  {
  }

  lemma NumberOfEight(d: seq<int>)
    requires |d| == 8
    ensures Number(d, 32) == 0x8_0000_0000 * d[0] + 0x4000_0000 * d[1] + 0x200_0000 * d[2] + 0x10_0000 * d[3]
                             + 0x8000 * d[4] + 0x400 * d[5] + 0x20 * d[6] + d[7]
  {
    assert d[..7][..6] == d[..6] && d[..6][..5] == d[..5] && d[..5][..4] == d[..4];
    assert d[..4][..3] == d[..3] && d[..3][..2] == d[..2] && d[..2][..1] == d[..1] && d[..1][..0] == [];
    assert Number(d[..1], 32) == d[0];
    hide Number;
    NumberOfMore(d[..2], 32);
    NumberOfMore(d[..3], 32);
    NumberOfMore(d[..4], 32);
    NumberOfMore(d[..5], 32);
    NumberOfMore(d[..6], 32);
    NumberOfMore(d[..7], 32);
    NumberOfMore(d, 32);
  }

  /** The eight symbols for five bytes stand for the same forty bits, most significant first: A to Z for 0 to 25, and
      2 to 7 for 26 to 31. */
  lemma EncodedBits(b: seq<byte>, g: nat, d: seq<int>)
    requires |b| % 5 == 0 && 5 * g + 5 <= |b| && |d| == 8
    requires forall i :: 0 <= i < 8 ==> 0 <= d[i] < 32
    requires forall i :: 0 <= i < 8 ==>
               Encode(b)[8 * g + i] == if d[i] < 26 then 'A' + d[i] as char else '2' + (d[i] - 26) as char
    ensures 0x8_0000_0000 * d[0] + 0x4000_0000 * d[1] + 0x200_0000 * d[2] + 0x10_0000 * d[3]
            + 0x8000 * d[4] + 0x400 * d[5] + 0x20 * d[6] + d[7]
         == 0x1_0000_0000 * b[5 * g] as int + 0x100_0000 * b[5 * g + 1] as int + 0x1_0000 * b[5 * g + 2] as int
            + 0x100 * b[5 * g + 3] as int + b[5 * g + 4] as int
  {
    hide Encode, EncodeGroup, Number;
    var five := b[5 * g..5 * g + 5];
    GroupAt(b, g);
    forall i | 0 <= i < 8 ensures EncodeGroup(five)[i] == Encode(b)[8 * g + i] {
      assert EncodeGroup(five)[i] == Encode(b)[8 * g..8 * g + 8][i];
    }
    NumberOfFive(five);
    NumberOfEight(d);
    SameGroup(five, d);
  }

  lemma SameGroup(b: seq<byte>, d: seq<int>)
    requires |b| == 5 && |d| == 8 && AreDigits(d, 32)
    requires forall i :: 0 <= i < 8 ==>
               EncodeGroup(b)[i] == if d[i] < 26 then 'A' + d[i] as char else '2' + (d[i] - 26) as char
    ensures Number(Ints(b), 0x100) == Number(d, 32)
  {
    var n := Number(Ints(b), 0x100);
    DigitsAreDigits(n, 32, 8);
    SymbolsAndValues();
    hide Number, Digits, Power;
    assert forall i :: 0 <= i < 8 ==> EncodeGroup(b)[i] == Symbol(d[i]);
    assert Digits(n, 32, 8) == d;
    FortyBits();
    DigitsOfNumber(Ints(b), 0x100);
    NumberOfDigits(n, 32, 8);
  }

  lemma {:induction false} GroupAt(b: seq<byte>, g: nat)
    requires |b| % 5 == 0 && 5 * g + 5 <= |b|
    ensures Encode(b)[8 * g..8 * g + 8] == EncodeGroup(b[5 * g..5 * g + 5])
  {
    hide EncodeGroup;
    if g > 0 {
      GroupAt(b[5..], g - 1);
      assert b[5..][5 * (g - 1)..5 * (g - 1) + 5] == b[5 * g..5 * g + 5];
      assert Encode(b)[8..] == Encode(b[5..]);
    }
  }
}
