/** The fixed-width integers of Go, and byte strings as little-endian numbers.

    A result that leaves the range of its newtype is a verification error, so every operation below and
    in the modules that import this one is shown not to overflow.
 */
module Words {
  import opened Bits

  newtype byte = x: int | 0 <= x < 0x100
  newtype int8 = x: int | -0x80 <= x < 0x80
  newtype int32 = x: int | -0x8000_0000 <= x < 0x8000_0000
  newtype int64 = x: int | -0x8000_0000_0000_0000 <= x < 0x8000_0000_0000_0000

  /** The conversion `byte(x)`, which drops all but the low eight bits. */
  function ByteOf(x: int): (b: byte)
    ensures b as int == x % 0x100
  {
    (x % 0x100) as byte
  }

  /** What copying a string into a zeroed array of 32 bytes leaves there. */
  function FirstBytes(p: seq<byte>): (s: seq<byte>)
    ensures |s| == 32
    ensures if |p| >= 32 then s == p[..32] else s[..|p|] == p && forall i :: |p| <= i < 32 ==> s[i] == 0
  {
    seq(32, i requires 0 <= i < 32 => if i < |p| then p[i] else 0)
  }

  /** The number whose little-endian digits in base 256 are the bytes of s from position i on. */
  ghost function LeFrom(s: seq<byte>, i: nat): nat
    decreases |s| - i
  {
    if i >= |s| then 0 else s[i] as nat + 0x100 * LeFrom(s, i + 1)
  }

  ghost function Le(s: seq<byte>): nat {
    LeFrom(s, 0)
  }

  /** Eight bytes read as one little-endian word. */
  function Word64(s: seq<byte>, i: nat): (w: nat)
    requires i + 8 <= |s|
    ensures w < 0x1_0000_0000_0000_0000
  {
    s[i] as nat + 0x100 * s[i + 1] as nat + 0x1_0000 * s[i + 2] as nat + 0x100_0000 * s[i + 3] as nat
    + 0x1_0000_0000 * s[i + 4] as nat + 0x100_0000_0000 * s[i + 5] as nat
    + 0x1_0000_0000_0000 * s[i + 6] as nat + 0x100_0000_0000_0000 * s[i + 7] as nat
  }

  lemma LeStep(s: seq<byte>, i: nat)
    requires i + 8 <= |s|
    ensures LeFrom(s, i) == Word64(s, i) + 0x1_0000_0000_0000_0000 * LeFrom(s, i + 8)
  {
    assert LeFrom(s, i + 6) == s[i + 6] as nat + 0x100 * s[i + 7] as nat + 0x1_0000 * LeFrom(s, i + 8);
    assert LeFrom(s, i + 4) == s[i + 4] as nat + 0x100 * s[i + 5] as nat + 0x1_0000 * LeFrom(s, i + 6);
    assert LeFrom(s, i + 2) == s[i + 2] as nat + 0x100 * s[i + 3] as nat + 0x1_0000 * LeFrom(s, i + 4);
    assert LeFrom(s, i) == s[i] as nat + 0x100 * s[i + 1] as nat + 0x1_0000 * LeFrom(s, i + 2);
  }

  /** A 32-byte string as four 64-bit words. */
  lemma LeOf32(s: seq<byte>)
    requires |s| == 32
    ensures Le(s) == Word64(s, 0) + 0x1_0000_0000_0000_0000 * Word64(s, 8)
                     + 0x1_0000_0000_0000_0000_0000_0000_0000_0000 * Word64(s, 16)
                     + 0x1_0000_0000_0000_0000_0000_0000_0000_0000_0000_0000_0000_0000 * Word64(s, 24)
  {
    LeStep(s, 0);
    LeStep(s, 8);
    LeStep(s, 16);
    LeStep(s, 24);
    hide Word64, LeFrom;
    assert LeFrom(s, 32) == 0 by { LeEnd(s); }
  }

  lemma LeEnd(s: seq<byte>)
    ensures LeFrom(s, |s|) == 0
  {
  }

  lemma PowersOfTwo()
    ensures Pow2(0) == 1 && Pow2(1) == 2 && Pow2(2) == 4 && Pow2(3) == 8 && Pow2(4) == 0x10 && Pow2(5) == 0x20
    ensures Pow2(6) == 0x40 && Pow2(7) == 0x80 && Pow2(8) == 0x100
    ensures Pow2(16) == 0x1_0000 && Pow2(21) == 0x20_0000 && Pow2(23) == 0x80_0000 && Pow2(24) == 0x100_0000
  {
    assert Pow2(8) == 0x100;
    Pow2Sum(8, 8);
    Pow2Sum(16, 5);
    Pow2Sum(16, 7);
    Pow2Sum(16, 8);
    assert Pow2(5) == 0x20 && Pow2(7) == 0x80;
  }

  /** Go's load3 and load4: the bytes occupy disjoint bits, so or-ing them in adds them up. */
  function Load3(s: seq<byte>, i: nat): (r: int64)
    requires i + 3 <= |s|
    ensures r as int == s[i] as int + 0x100 * s[i + 1] as int + 0x1_0000 * s[i + 2] as int
  {
    hide Or, Pow2;
    PowersOfTwo();
    OrDisjoint(s[i] as int, s[i + 1] as int, 8);
    OrDisjoint(s[i] as int + s[i + 1] as int * 0x100, s[i + 2] as int, 16);
    Or(Or(s[i] as int, s[i + 1] as int * 0x100), s[i + 2] as int * 0x1_0000) as int64
  }

  function Load4(s: seq<byte>, i: nat): (r: int64)
    requires i + 4 <= |s|
    ensures r as int
            == s[i] as int + 0x100 * s[i + 1] as int + 0x1_0000 * s[i + 2] as int + 0x100_0000 * s[i + 3] as int
  {
    hide Or, Pow2;
    PowersOfTwo();
    OrDisjoint(Load3(s, i) as int, s[i + 3] as int, 24);
    Or(Load3(s, i) as int, s[i + 3] as int * 0x100_0000) as int64
  }
}
