/** The base point, its tables, and the selection of table entries without branches. */
module BasePoint {
  import opened Bits
  import opened Words
  import opened Residues
  import opened Curve
  import opened Multiples
  import opened LimbVectors
  import opened FieldElements
  import opened PointCoordinates
  import opened PointDecoding
  import opened GroupElements
  import opened Recoding

  /** The point with y = 4/5 and even x (RFC 8032, section 5.1). */
  const B: Point := Point(
    0x2169_36d3_cd6e_53fe_c0a4_e231_fdd6_dc5c_692c_c760_9525_a7b2_c956_2d60_8f25_d51a,
    0x6666_6666_6666_6666_6666_6666_6666_6666_6666_6666_6666_6666_6666_6666_6666_6658)

  /** The squares of its coordinates, and their product. */
  const XX: int := 0x39e5_a76b_6f33_fadb_c92a_232f_db1c_32f2_ebe3_9c55_5ccb_6a7d_690b_8a0f_82e8_1c67
  const YY: int := 0x51eb_851e_b851_eb85_1eb8_51eb_851e_b851_eb85_1eb8_51eb_851e_b851_eb85_1eb8_51e0
  const XXYY: int := 0x43c6_2db5_65e3_d3bf_dce7_c499_81fd_913f_4f49_fda7_45a0_e7fe_57b5_7714_2ad1_fdae

  lemma BaseSquares()
    ensures Residue(B.x * B.x) == XX && Residue(B.y * B.y) == YY
  {
    ResidueIsRemainder(B.x * B.x);
    ResidueIsRemainder(B.y * B.y);
  }

  lemma BaseProducts()
    ensures Residue(XX * YY) == XXYY && Residue(YY - XX) == Residue(1 + D * XXYY)
  {
    ResidueIsRemainder(XX * YY);
    ResidueIsRemainder(YY - XX);
    ValueOfD();
    ResidueIsRemainder(1 + D * XXYY);
  }

  lemma BaseIsOnCurve()
    ensures OnCurve(B) && Residue(5 * B.y) == 4 && B.x % 2 == 0
  {
    BaseSquares();
    BaseProducts();
    ResidueIsRemainder(5 * B.y);
    SmallResidue(XX);
    SmallResidue(YY);
    SmallResidue(XXYY);
    ResidueSum(B.y * B.y, YY, B.x * B.x, XX);
    ResidueProduct(B.x * B.x, XX, B.y * B.y, YY);
    ResidueProduct(D, D, B.x * B.x * (B.y * B.y), XXYY);
    ResidueSum(1, 1, D * (B.x * B.x * (B.y * B.y)), D * XXYY);
  }

  /** The base point is encoded by 0x58 and thirty-one bytes 0x66, and its opposite by the same with the top bit set. */
  lemma EncodedBase()
    ensures Encode(B) == 0x6666_6666_6666_6666_6666_6666_6666_6666_6666_6666_6666_6666_6666_6666_6666_6658
    ensures Encode(Neg(B)) == 0xe666_6666_6666_6666_6666_6666_6666_6666_6666_6666_6666_6666_6666_6666_6666_6658
  {
    OppositeParity(B.x);
  }

  /** An entry of the precomputed tables. */
  datatype Entry = Entry(yPlusX: seq<int32>, yMinusX: seq<int32>, xy2d: seq<int32>)

  ghost predicate IsEntry(e: Entry, p: Point) {
    && |e.yPlusX| == |e.yMinusX| == |e.xy2d| == 10
    && IsCached(Val(e.yPlusX), Val(e.yMinusX), 1, Val(e.xy2d), p)
    && Size(e.yPlusX) <= CARRIED && Size(e.yMinusX) <= CARRIED && Size(e.xy2d) <= CARRIED
  }

  ghost predicate IsTableRow(row: seq<Entry>, i: nat) {
    |row| == 8 && forall j :: 0 <= j < 8 ==> IsEntry(row[j], Multiple((j + 1) * Pow16(2 * i), B))
  }

  /** base[i][j] = (j + 1) * 256^i * B. */
  ghost predicate IsBaseTable(base: seq<seq<Entry>>) {
    |base| == 32 && forall i :: 0 <= i < 32 ==> IsTableRow(base[i], i)
  }

  /** bi[k] = (2 k + 1) * B. */
  ghost predicate IsOddTable(bi: seq<Entry>) {
    |bi| == 8 && forall k :: 0 <= k < 8 ==> IsEntry(bi[k], Multiple(2 * k + 1, B))
  }

  /** The entry with which both tables begin, and which stands for the base point. */
  const FIRST: Entry := Entry(
    [25967493, -14356035, 29566456, 3660896, -12694345, 4014787, 27544626, -11754271, -6079156, 2047605],
    [-12545711, 934262, -2722910, 3049990, -727428, 9406986, 12720692, 5043384, 19500929, -15469378],
    [-8738181, 4489570, 9688441, -14785194, 10184609, -12363380, 29287919, 11864899, -24514362, -4438546])

  lemma FirstEntry()
    requires FermatsLittleTheorem()
    ensures IsEntry(FIRST, B)
    ensures forall base {:trigger IsBaseTable(base)} :: IsBaseTable(base) ==> IsEntry(base[0][0], B)
    ensures forall bi {:trigger IsOddTable(bi)} :: IsOddTable(bi) ==> IsEntry(bi[0], B)
  {
    hide FermatsLittleTheorem, Val, Size, IsCached, Multiple, Pow16;
    FirstSizes();
    FirstValues();
    FirstMultiple();
    forall base | IsBaseTable(base) ensures IsEntry(base[0][0], B) {
      assert IsTableRow(base[0], 0);
      assert IsEntry(base[0][0], Multiple((0 + 1) * Pow16(2 * 0), B));
    }
    forall bi | IsOddTable(bi) ensures IsEntry(bi[0], B) {
      assert IsEntry(bi[0], Multiple(2 * 0 + 1, B));
    }
  }

  lemma FirstMultiple()
    requires FermatsLittleTheorem()
    ensures Pow16(0) == 1 && Multiple(1, B) == B
  {
    BaseIsOnCurve();
    hide FermatsLittleTheorem, Multiple, OnCurve;
    SmallMultiples(B);
  }

  lemma FirstSizes()
    ensures Size(FIRST.yPlusX) <= CARRIED && Size(FIRST.yMinusX) <= CARRIED && Size(FIRST.xy2d) <= CARRIED
  {
  }

  lemma FirstValues()
    ensures IsCached(Val(FIRST.yPlusX), Val(FIRST.yMinusX), 1, Val(FIRST.xy2d), B)
  {
    SmallResidue(1);
    FirstSum();
    FirstDifference();
    FirstProduct();
    hide Val;
  }

  lemma FirstSum()
    ensures Residue(Val(FIRST.yPlusX)) == Residue((B.y + B.x) * 1)
  {
    ResidueIsRemainder(Val(FIRST.yPlusX));
    ResidueIsRemainder((B.y + B.x) * 1);
  }

  lemma FirstDifference()
    ensures Residue(Val(FIRST.yMinusX)) == Residue((B.y - B.x) * 1)
  {
    ResidueIsRemainder(Val(FIRST.yMinusX));
    ResidueIsRemainder((B.y - B.x) * 1);
  }

  lemma FirstProduct()
    ensures Residue(Val(FIRST.xy2d)) == Residue(2 * D * (B.x * B.y) * 1)
  {
    ValueOfD();
    ResidueIsRemainder(Val(FIRST.xy2d));
    ResidueIsRemainder(2 * D * (B.x * B.y) * 1);
  }

  /** The structure that a table entry stands for. */
  method Load(e: Entry, ghost p: Point) returns (q: PreComputedGroupElement)
    requires IsEntry(e, p)
    ensures q.Valid() && fresh(q) && fresh(q.yPlusX) && fresh(q.yMinusX) && fresh(q.xy2d) && q.Is(p)
  {
    hide Val, Size, IsCached;
    q := new PreComputedGroupElement();
    forall i | 0 <= i < 10 {
      q.yPlusX[i] := e.yPlusX[i];
    }
    forall i | 0 <= i < 10 {
      q.yMinusX[i] := e.yMinusX[i];
    }
    forall i | 0 <= i < 10 {
      q.xy2d[i] := e.xy2d[i];
    }
    assert q.yPlusX[..] == e.yPlusX && q.yMinusX[..] == e.yMinusX && q.xy2d[..] == e.xy2d;
  }

  // ----- selection without branches

  /** The Go expression `f ^ (-b & (f ^ g))`. */
  function Move(f: int32, g: int32, b: int32): (r: int32)
    requires b == 0 || b == 1
    ensures r == if b == 1 then g else f
  {
    AndZero(Xor(f as int, g as int));
    AndOnes(Xor(f as int, g as int));
    XorZero(f as int);
    XorTwice(f as int, g as int);
    Xor(f as int, And(-b as int, Xor(f as int, g as int))) as int32
  }

  method FeCMove(f: array<int32>, g: array<int32>, b: int32)
    requires f.Length == g.Length == 10 && (b == 0 || b == 1)
    modifies f
    ensures f[..] == old(if b == 1 then g[..] else f[..])
  {
    f[0], f[1], f[2], f[3], f[4], f[5], f[6], f[7], f[8], f[9] :=
      Move(f[0], g[0], b), Move(f[1], g[1], b), Move(f[2], g[2], b), Move(f[3], g[3], b), Move(f[4], g[4], b),
      Move(f[5], g[5], b), Move(f[6], g[6], b), Move(f[7], g[7], b), Move(f[8], g[8], b), Move(f[9], g[9], b);
  }

  method PreComputedGroupElementCMove(t: PreComputedGroupElement, u: PreComputedGroupElement, b: int32,
                                      ghost p: Point, ghost q: Point)
    requires t.Valid() && u.Valid() && (b == 0 || b == 1)
    requires {t.yPlusX, t.yMinusX, t.xy2d} !! {u.yPlusX, u.yMinusX, u.xy2d}
    requires t.Is(p) && u.Is(q)
    modifies t.yPlusX, t.yMinusX, t.xy2d
    ensures t.Is(if b == 1 then q else p)
  {
    hide Val, Size, IsCached;
    FeCMove(t.yPlusX, u.yPlusX, b);
    FeCMove(t.yMinusX, u.yMinusX, b);
    FeCMove(t.xy2d, u.xy2d, b);
  }

  /** Subtracting one from the exclusive-or borrows from bit 31 only when the numbers are equal. */
  method Equal(b: int32, c: int32) returns (r: int32)
    requires 0 <= b && 0 <= c
    ensures r == if b == c then 1 else 0
  {
    hide Xor, Pow2;
    assert Pow2(31) == 0x8000_0000 by {
      PowersOfTwo();
      Pow2Sum(24, 7);
    }
    XorOfNaturals(b as int, c as int, 31);
    var x := Xor(b as int, c as int) % 0x1_0000_0000;
    x := (x - 1) % 0x1_0000_0000;
    r := (x / 0x8000_0000) as int32;
  }

  method Negative(b: int32) returns (r: int32)
    ensures r == if b < 0 then 1 else 0
  {
    PowersOfTwo();
    AndMask(1, b as int / 0x8000_0000);
    r := And(1, b as int / 0x8000_0000) as int32;
  }

  /** The entry that the digit b selects from the multiples of n * B: its own multiple, or none for a large digit. */
  ghost function Selected(b: int, n: int): Point {
    if -8 <= b <= 8 then Multiple(b * n, B) else ZERO
  }

  /** t = b * 256^pos * B for the digits -8 .. 8. */
  method SelectPoint(t: PreComputedGroupElement, pos: nat, b: int32, base: seq<seq<Entry>>)
    requires IsGroup() && IsBaseTable(base)
    requires t.Valid() && pos < 32 && -0x80 <= b < 0x80
    modifies t.yPlusX, t.yMinusX, t.xy2d
    ensures t.Is(Selected(b as int, Pow16(2 * pos)))
  {
    hide IsGroup, IsCached, Val, Size, And, Multiple, Pow16, IsEntry, OnCurve;
    var minusT := new PreComputedGroupElement();
    var bNegative := Negative(b);
    AndZero(b as int);
    AndOnes(b as int);
    var bAbs := b - (And(-bNegative as int, b as int) * 2) as int32;
    ghost var n := Pow16(2 * pos);
    assert IsTableRow(base[pos], pos);
    t.Zero();
    for i := 0 to 8
      invariant t.Is(if 1 <= bAbs as int <= i then Multiple(bAbs as int * n, B) else ZERO)
    {
      var u := Load(base[pos][i], Multiple((i + 1) * n, B));
      var same := Equal(bAbs, i as int32 + 1);
      PreComputedGroupElementCMove(t, u, same, if 1 <= bAbs as int <= i then Multiple(bAbs as int * n, B) else ZERO,
                                   Multiple((i + 1) * n, B));
    }
    ghost var p := if 1 <= bAbs as int <= 8 then Multiple(bAbs as int * n, B) else ZERO;
    SelectedMultiple(b as int, bAbs as int, n);
    hide Selected;
    FeCopy(minusT.yPlusX, t.yMinusX);
    FeCopy(minusT.yMinusX, t.yPlusX);
    FeNeg(minusT.xy2d, t.xy2d);
    NegIsCached(Val(t.yPlusX[..]), Val(t.yMinusX[..]), 1, Val(t.xy2d[..]), p);
    PreComputedGroupElementCMove(t, minusT, bNegative, p, Neg(p));
  }

  lemma SelectedMultiple(b: int, bAbs: int, n: int)
    requires IsGroup() && bAbs == if b < 0 then -b else b
    ensures var p := if 1 <= bAbs <= 8 then Multiple(bAbs * n, B) else ZERO;
            Selected(b, n) == if b < 0 then Neg(p) else p
  {
    hide IsGroup, OnCurve, Neg, Multiple, Add;
    BaseIsOnCurve();
    NoMultiple();
    NegOfZero();
    if 1 <= bAbs <= 8 {
      MultipleOfNeg(bAbs * n, B);
      assert -bAbs * n == -(bAbs * n);
    }
  }

  lemma NoMultiple()
    ensures Multiple(0, B) == ZERO
  {
  }
}
