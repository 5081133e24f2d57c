/** Limbs whose ends share a byte with their neighbours. */
module BytePacking {
  import opened Bits
  import opened Words

  /** What is left of a number in a signed integer of so many bits. */
  function Wrapped(x: int, width: nat): int
    requires width > 0
  {
    var half := Pow2(width - 1);
    (x + half) % Pow2(width) - half
  }

  /** The Go expression `byte(low | high << k)` for a low part of at most k bits, with a shift in so many bits: the high
      part fills the byte up, since the bits that the shift loses are not in it. */
  function Join(low: int, high: int, k: nat, width: nat, ghost m: nat, ghost n: nat): (b: byte)
    requires k <= 8 <= width && m == Pow2(k) && n == Pow2(8 - k) && 0 <= low < m
    ensures b as int == low + m * (high % n)
  {
    ghost var h := Wrapped(high * m, width) / m;
    WrappedShift(high, k, width, m, n);
    OrDisjoint(low, h, k);
    FillByte(low, h, m, n);
    Pow2Sum(k, 8 - k);
    PowersOfTwo();
    ByteOf(Or(low, Wrapped(high * Pow2(k), width)))
  }

  lemma WrappedShift(high: int, k: nat, width: nat, m: nat, n: nat)
    requires k <= 8 <= width && m == Pow2(k) && n == Pow2(8 - k)
    ensures m > 0 && n > 0
    ensures var h := Wrapped(high * m, width) / m; Wrapped(high * m, width) == h * m && h % n == high % n
  {
    hide Pow2;
    Pow2Sum(k, 8 - k);
    Pow2Sum(8, width - 8);
    PowersOfTwo();
    var p, w := Pow2(width - 8), Wrapped(high * m, width);
    var q := (high * m + Pow2(width - 1)) / Pow2(width);
    var h := high - q * p * n;
    assert w == high * m - q * Pow2(width);
    ShiftedBy(high, q, p, m, n);
    DivisionIsUnique(w, m, h, 0);
    DivisionIsUnique(h, n, high / n - q * p, high % n);
  }

  lemma ShiftedBy(high: int, q: int, p: int, m: int, n: int)
    ensures high * m - q * (m * n * p) == (high - q * p * n) * m
    ensures n != 0 ==> high - q * p * n == (high / n - q * p) * n + high % n
  {
    assert q * p * n * m == q * (m * n * p);
    assert n != 0 ==> high == high / n * n + high % n;
  }

  lemma FillByte(low: int, high: int, m: nat, n: nat)
    requires 0 <= low < m && n > 0
    ensures (low + high * m) % (m * n) == low + m * (high % n)
  {
    var q, r := high / n, high % n;
    assert low + high * m == q * (m * n) + (low + m * r) by {
      assert high == q * n + r;
    }
    assert 0 <= low + m * r < m * n by {
      assert m * r <= m * (n - 1);
    }
    DivisionIsUnique(low + high * m, m * n, q, low + m * r);
  }

  /** The bits of a limb: low ones in a byte shared with the limb before, two whole bytes, top ones left over. */
  datatype Parts = Parts(low: int, b0: byte, b1: byte, top: int)

  function Split(x: int, m: int): (p: Parts)
    requires m > 0
    ensures p.low == x % m
    ensures x == p.low + m * (p.b0 as int + 0x100 * p.b1 as int + 0x1_0000 * p.top)
  {
    SplitIsExact(x, m);
    Parts(x % m, ByteOf(x / m), ByteOf(x / (0x100 * m)), x / (0x1_0000 * m))
  }

  lemma SplitIsExact(x: int, m: int)
    requires m > 0
    ensures x == x % m + m * ((x / m) % 0x100 + 0x100 * ((x / (0x100 * m)) % 0x100) + 0x1_0000 * (x / (0x1_0000 * m)))
  {
    var y := x / m;
    NestedDivision(x, m, 0x100);
    NestedDivision(x, m, 0x1_0000);
    assert y == y % 0x100 + 0x100 * ((y / 0x100) % 0x100) + 0x1_0000 * (y / 0x1_0000);
    assert x == x % m + m * y;
  }

  lemma NestedDivision(x: int, m: int, n: int)
    requires m > 0 && n > 0
    ensures n * m > 0 && x / (n * m) == (x / m) / n
  {
    var y, s := x / m, x % m;
    var q, r := y / n, y % n;
    Recombine(q, n, r, m, s);
    DivisionIsUnique(x, n * m, q, r * m + s);
  }

  lemma Recombine(q: int, n: int, r: int, m: int, s: int)
    requires 0 <= r < n && 0 <= s < m
    ensures (q * n + r) * m + s == q * (n * m) + (r * m + s)
    ensures 0 <= r * m + s < n * m
  {
    MultipleIsFar(n - r, m);
    assert (n - r) * m == n * m - r * m;
    assert (q * n + r) * m == q * n * m + r * m;
    assert q * n * m == q * (n * m);
  }
}
