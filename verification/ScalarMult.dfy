/** The two scalar multiplications: a * B from a table of multiples, and a * A + b * B by double-and-add. */
module ScalarMult {
  import opened Bits
  import opened Words
  import opened Residues
  import opened Curve
  import opened Multiples
  import opened FieldElements
  import opened GroupElements
  import opened BasePoint
  import opened Recoding

  // ----- a * B

  /** The chosen digits at even or at odd positions, weighted by powers of 256. */
  ghost function EverySecond(e: seq<int8>, first: nat, k: nat): int
    requires first + 2 * k <= |e| + 1
  {
    if k == 0 then 0 else EverySecond(e, first, k - 1) + Chosen(e[first + 2 * k - 2]) * Pow16(2 * k - 2)
  }

  lemma {:induction false} EvenAndOddDigits(e: seq<int8>, k: nat)
    requires 2 * k <= |e| && forall i :: 0 <= i < 2 * k ==> -8 <= e[i] <= 8
    ensures Sum16(e, 0) == EverySecond(e, 0, k) + 16 * EverySecond(e, 1, k) + Pow16(2 * k) * Sum16(e, 2 * k)
  {
    if k == 0 {
    } else {
      EvenAndOddDigits(e, k - 1);
      var n := Pow16(2 * k - 2);
      assert Pow16(2 * k) == 16 * Pow16(2 * k - 1) == 0x100 * n;
      var s, d0, d1 := Sum16(e, 2 * k), e[2 * k - 2] as int, e[2 * k - 1] as int;
      assert Sum16(e, 2 * k - 2) == d0 + 16 * (d1 + 16 * s);
      DigitPair(n, d0, d1, s);
    }
  }

  lemma DigitPair(n: int, d0: int, d1: int, s: int)
    ensures n * (d0 + 16 * (d1 + 16 * s)) == d0 * n + 16 * (d1 * n) + 0x100 * n * s
  {
  }

  /** The digits that have an entry in the table; the others select none. */
  ghost function Chosen(digit: int8): int {
    if -8 <= digit <= 8 then digit as int else 0
  }

  // One round of the loops of GeScalarMultBase.
  method AddDigit(h: ExtendedGroupElement, t: PreComputedGroupElement, r: CompletedGroupElement, pos: nat, digit: int8,
                  base: seq<seq<Entry>>, ghost m: int)
    requires IsGroup() && IsBaseTable(base)
    requires h.Valid() && t.Valid() && r.Valid() && pos < 32
    requires {h.X, h.Y, h.Z, h.T} !! {r.X, r.Y, r.Z, r.T}
    requires {t.yPlusX, t.yMinusX, t.xy2d} !! {h.X, h.Y, h.Z, h.T} + {r.X, r.Y, r.Z, r.T}
    requires h.Is(Multiple(m, B))
    modifies h.X, h.Y, h.Z, h.T, t.yPlusX, t.yMinusX, t.xy2d, r.X, r.Y, r.Z, r.T
    ensures h.Is(Multiple(m + Chosen(digit) * Pow16(2 * pos), B))
  {
    hide FermatsLittleTheorem, AdditionIsAssociative, Multiple, OnCurve, IsBaseTable, Add, Pow16;
    hide ExtendedGroupElement.Is, PreComputedGroupElement.Is, CompletedGroupElement.Is;
    ghost var n := Chosen(digit) * Pow16(2 * pos);
    SelectedDigit(digit, Pow16(2 * pos));
    hide Selected, Chosen;
    SumOfMultiples(m, n);
    SelectPoint(t, pos, digit as int32, base);
    GeMixedAdd(r, h, t, Multiple(m, B), Multiple(n, B));
    r.ToExtended(h, Multiple(m + n, B));
  }

  lemma SelectedDigit(digit: int8, n: int)
    ensures Selected(digit as int, n) == Multiple(Chosen(digit) * n, B)
  {
    ZeroMultiple();
    hide Multiple;
  }

  lemma SumOfMultiples(m: int, n: int)
    requires IsGroup()
    ensures OnCurve(Multiple(m, B)) && OnCurve(Multiple(n, B))
    ensures Add(Multiple(m, B), Multiple(n, B)) == Multiple(m + n, B)
  {
    hide FermatsLittleTheorem, AdditionIsAssociative, Multiple, Add;
    BaseIsOnCurve();
    hide OnCurve;
    MultipleSum(m, n, B);
    MultipleIsOnCurve(m, B);
    MultipleIsOnCurve(n, B);
  }

  /** Adds the digits at positions first, first + 2, ... to h, each with its power of 256. */
  method AddDigits(h: ExtendedGroupElement, e: array<int8>, first: nat, base: seq<seq<Entry>>, ghost m: int)
    requires IsGroup() && IsBaseTable(base)
    requires h.Valid() && e.Length == 64 && first <= 1
    requires h.Is(Multiple(m, B))
    modifies h.X, h.Y, h.Z, h.T
    ensures h.Is(Multiple(m + EverySecond(e[..], first, 32), B))
  {
    hide IsGroup, Multiple, IsBaseTable, ExtendedGroupElement.Is, Pow16;
    var t := new PreComputedGroupElement();
    var r := new CompletedGroupElement();
    ghost var digits := e[..];
    var i := first;
    while i < 64
      invariant first <= i <= 64 + first && (i - first) % 2 == 0
      invariant e[..] == digits
      invariant h.Is(Multiple(m + EverySecond(digits, first, (i - first) / 2), B))
    {
      ghost var k := (i - first) / 2;
      assert i / 2 == k && i == first + 2 * (k + 1) - 2;
      AddDigit(h, t, r, i / 2, e[i], base, m + EverySecond(digits, first, k));
      i := i + 2;
    }
  }

  // The doublings between the two loops.
  method DoubleOnce(s: ProjectiveGroupElement, r: CompletedGroupElement, ghost n: int)
    requires IsGroup()
    requires s.Valid() && r.Valid() && {s.X, s.Y, s.Z} !! {r.X, r.Y, r.Z, r.T}
    requires s.Is(Multiple(n, B))
    modifies s.X, s.Y, s.Z, r.X, r.Y, r.Z, r.T
    ensures s.Is(Multiple(2 * n, B))
  {
    hide FermatsLittleTheorem, AdditionIsAssociative, Multiple, OnCurve, Add;
    hide ProjectiveGroupElement.Is, CompletedGroupElement.Is;
    SumOfMultiples(n, n);
    s.Double(r, Multiple(n, B));
    r.ToProjective(s, Multiple(2 * n, B));
  }

  method TimesSixteen(h: ExtendedGroupElement, ghost n: int)
    requires IsGroup()
    requires h.Valid() && h.Is(Multiple(n, B))
    modifies h.X, h.Y, h.Z, h.T
    ensures h.Is(Multiple(16 * n, B))
  {
    hide FermatsLittleTheorem, AdditionIsAssociative, Multiple, OnCurve, Add;
    hide ExtendedGroupElement.Is, ProjectiveGroupElement.Is, CompletedGroupElement.Is;
    var s := new ProjectiveGroupElement();
    var r := new CompletedGroupElement();
    SumOfMultiples(n, n);
    SumOfMultiples(8 * n, 8 * n);
    h.Double(r, Multiple(n, B));
    r.ToProjective(s, Multiple(2 * n, B));
    DoubleOnce(s, r, 2 * n);
    DoubleOnce(s, r, 4 * n);
    s.Double(r, Multiple(8 * n, B));
    r.ToExtended(h, Multiple(16 * n, B));
  }

  /** The scalar without the multiple of 16^63 that no entry of the table stands for. */
  ghost function BaseScalar(n: int): int {
    if TopDigit(n, 63) <= 8 then n else n - TopDigit(n, 63) * Pow16(63)
  }

  /** h = a * B for a scalar with a last byte of at most 127; a larger one may lose its last digit. */
  method GeScalarMultBase(h: ExtendedGroupElement, a: array<byte>, base: seq<seq<Entry>>)
    requires IsGroup() && IsBaseTable(base)
    requires h.Valid() && a.Length == 32
    modifies h.X, h.Y, h.Z, h.T
    ensures h.Is(Multiple(BaseScalar(Le(a[..])), B))
    ensures a[31] <= 127 ==> BaseScalar(Le(a[..])) == Le(a[..])
  {
    hide IsGroup, IsBaseTable, Le, ExtendedGroupElement.Is, EverySecond, Sum16, Pow16, Multiple, TopDigit, BaseScalar;
    var e := new int8[64];
    Radix16(e, a);
    ghost var digits := e[..];
    h.Zero();
    ZeroMultiple();
    AddDigits(h, e, 1, base, 0);
    TimesSixteen(h, EverySecond(digits, 1, 32));
    assert e[..] == digits;
    AddDigits(h, e, 0, base, 16 * EverySecond(digits, 1, 32));
    ChosenDigits(digits, Le(a[..]));
  }

  lemma ChosenDigits(e: seq<int8>, n: int)
    requires |e| == 64 && Sum16(e, 0) == n && e[63] as int == TopDigit(n, 63)
    requires forall i :: 0 <= i < 63 ==> -8 <= e[i] <= 7
    requires 0 <= e[63] <= 16
    ensures EverySecond(e, 0, 32) + 16 * EverySecond(e, 1, 32) == BaseScalar(n)
    ensures e[63] <= 8 ==> BaseScalar(n) == n
  {
    hide Sum16, EverySecond, Pow16, TopDigit;
    var c := e[63 := Chosen(e[63]) as int8];
    EvenAndOddDigits(c, 32);
    NoDigits(c);
    SameDigits(e, c, 0, 32);
    SameDigits(e, c, 1, 32);
    LastDigitChanged(e, c, 63);
    WithoutDigit(Pow16(63), e[63] as int);
  }

  lemma WithoutDigit(p: int, t: int)
    ensures p * (0 - t) == -(t * p)
  {
  }

  lemma {:induction false} SameDigits(e: seq<int8>, c: seq<int8>, first: nat, k: nat)
    requires |e| == |c| && first + 2 * k <= |e| + 1
    requires forall i :: 0 <= i < |e| ==> Chosen(e[i]) == Chosen(c[i])
    ensures EverySecond(e, first, k) == EverySecond(c, first, k)
  {
    if k > 0 {
      SameDigits(e, c, first, k - 1);
    }
  }

  lemma LastDigitChanged(e: seq<int8>, c: seq<int8>, k: nat)
    requires |e| == |c| == k + 1 && forall i :: 0 <= i < k ==> e[i] == c[i]
    ensures Sum16(c, 0) - Sum16(e, 0) == Pow16(k) * (c[k] as int - e[k] as int)
  {
    LastDigitAlone(e);
    LastDigitAlone(c);
    hide Sum16, Pow16;
    SamePrefix16(e, c, 0, k);
  }

  lemma LastDigitAlone(e: seq<int8>)
    requires |e| > 0
    ensures Sum16(e, |e| - 1) == e[|e| - 1] as int
  {
    assert Sum16(e, |e|) == 0;
  }

  lemma ZeroMultiple()
    ensures Multiple(0, B) == ZERO
  {
  }

  lemma NoDigits(e: seq<int8>)
    ensures Sum16(e, |e|) == 0
  {
  }

  // ----- a * A + b * B

  /** m * A + n * B. */
  ghost function Combination(m: int, n: int, A: Point): Point {
    Add(Multiple(m, A), Multiple(n, B))
  }

  lemma CombinationIsOnCurve(m: int, n: int, A: Point)
    requires IsGroup() && OnCurve(A)
    ensures OnCurve(Combination(m, n, A)) && OnCurve(Multiple(m, A)) && OnCurve(Multiple(n, B))
  {
    hide FermatsLittleTheorem, AdditionIsAssociative, Multiple, Add;
    BaseIsOnCurve();
    hide OnCurve;
    MultipleIsOnCurve(m, A);
    MultipleIsOnCurve(n, B);
    AddIsOnCurve(Multiple(m, A), Multiple(n, B));
  }

  lemma SumOfCombinations(m: int, n: int, m': int, n': int, A: Point)
    requires IsGroup() && OnCurve(A)
    ensures Add(Combination(m, n, A), Combination(m', n', A)) == Combination(m + m', n + n', A)
  {
    hide FermatsLittleTheorem, AdditionIsAssociative, Multiple, Add;
    BaseIsOnCurve();
    hide OnCurve;
    CombinationIsOnCurve(m, n, A);
    CombinationIsOnCurve(m', n', A);
    MultipleSum(m, m', A);
    MultipleSum(n, n', B);
    Rearrange(Multiple(m, A), Multiple(n, B), Multiple(m', A), Multiple(n', B));
  }

  lemma Rearrange(p: Point, q: Point, r: Point, s: Point)
    requires IsGroup() && OnCurve(p) && OnCurve(q) && OnCurve(r) && OnCurve(s)
    ensures Add(Add(p, q), Add(r, s)) == Add(Add(p, r), Add(q, s))
  {
    hide FermatsLittleTheorem, AdditionIsAssociative, OnCurve, Add;
    AddIsOnCurve(r, s);
    AddIsOnCurve(q, s);
    Associative(p, q, Add(r, s));
    Associative(q, r, s);
    AddCommutes(q, r);
    Associative(r, q, s);
    Associative(p, r, Add(q, s));
  }

  lemma PureCombinations(k: int, A: Point)
    requires IsGroup() && OnCurve(A)
    ensures Combination(k, 0, A) == Multiple(k, A) && Combination(0, k, A) == Multiple(k, B)
  {
    BaseIsOnCurve();
    assert Multiple(0, A) == ZERO && Multiple(0, B) == ZERO;
    hide FermatsLittleTheorem, AdditionIsAssociative, Multiple, OnCurve, Add;
    MultipleIsOnCurve(k, A);
    MultipleIsOnCurve(k, B);
    AddZero(Multiple(k, A));
    AddZero(Multiple(k, B));
  }

  lemma NegativeMultiple(k: int, A: Point)
    requires IsGroup() && OnCurve(A)
    ensures Multiple(k, A) == Neg(Multiple(-k, A)) && OnCurve(Multiple(k, A)) && OnCurve(Multiple(-k, A))
  {
    hide FermatsLittleTheorem, AdditionIsAssociative, Multiple, OnCurve, Neg;
    MultipleOfNeg(-k, A);
    MultipleIsOnCurve(k, A);
    MultipleIsOnCurve(-k, A);
  }

  /** Ai[k] = (2 k + 1) * A, kept in the arrays of a set. */
  ghost predicate IsOddMultiples(Ai: seq<CachedGroupElement>, table: set<array<int32>>, A: Point)
    reads table
  {
    forall k :: 0 <= k < |Ai| ==> IsOddMultiple(Ai[k], table, 2 * k + 1, A)
  }

  ghost predicate IsOddMultiple(c: CachedGroupElement, table: set<array<int32>>, n: int, A: Point)
    reads table
  {
    c.Valid() && {c.yPlusX, c.yMinusX, c.Z, c.T2d} <= table && c.Is(Multiple(n, A))
  }

  // The entry for A itself, and 2 A.
  method FirstMultiples(a: ExtendedGroupElement, t: CompletedGroupElement, A2: ExtendedGroupElement, ghost A: Point)
    returns (first: CachedGroupElement)
    requires IsGroup()
    requires a.Valid() && a.Is(A) && OnCurve(A) && t.Valid() && A2.Valid()
    requires {t.X, t.Y, t.Z, t.T} !! {a.X, a.Y, a.Z, a.T} + {A2.X, A2.Y, A2.Z, A2.T}
    modifies t.X, t.Y, t.Z, t.T, A2.X, A2.Y, A2.Z, A2.T
    ensures fresh({first.yPlusX, first.yMinusX, first.Z, first.T2d})
    ensures IsOddMultiple(first, {first.yPlusX, first.yMinusX, first.Z, first.T2d}, 1, A)
    ensures A2.Is(Multiple(2, A))
  {
    hide FermatsLittleTheorem, AdditionIsAssociative, Multiple, OnCurve, Add;
    hide ExtendedGroupElement.Is, CachedGroupElement.Is, CompletedGroupElement.Is;
    SmallMultiples(A);
    first := new CachedGroupElement();
    a.ToCached(first, A);
    a.Double(t, A);
    t.ToExtended(A2, Multiple(2, A));
  }

  lemma OddEntry(Ai: seq<CachedGroupElement>, table: set<array<int32>>, i: nat, k: int, A: Point)
    requires i < |Ai| && k == 2 * i + 1 && IsOddMultiples(Ai, table, A)
    ensures IsOddMultiple(Ai[i], table, k, A)
  {
  }

  lemma LongerTable(Ai: seq<CachedGroupElement>, table: set<array<int32>>, next: CachedGroupElement,
                    new': set<array<int32>>, A: Point)
    ensures IsOddMultiples(Ai, table, A) && IsOddMultiple(next, new', 2 * |Ai| + 1, A)
            ==> IsOddMultiples(Ai + [next], table + new', A)
  {
    hide Multiple, CachedGroupElement.Is, CachedGroupElement.Valid;
    if IsOddMultiples(Ai, table, A) && IsOddMultiple(next, new', 2 * |Ai| + 1, A) {
      forall k | 0 <= k <= |Ai| ensures IsOddMultiple((Ai + [next])[k], table + new', 2 * k + 1, A) {
        if k < |Ai| {
          assert IsOddMultiple(Ai[k], table, 2 * k + 1, A);
        }
      }
    }
  }

  // (2 i + 1) A gives (2 i + 3) A.
  method NextEntry(t: CompletedGroupElement, u: ExtendedGroupElement, A2: ExtendedGroupElement, c: CachedGroupElement,
                   ghost i: nat, ghost A: Point)
    returns (next: CachedGroupElement)
    requires IsGroup() && OnCurve(A)
    requires t.Valid() && u.Valid() && A2.Valid() && A2.Is(Multiple(2, A)) && c.Valid() && c.Is(Multiple(2 * i + 1, A))
    requires {t.X, t.Y, t.Z, t.T} !! {u.X, u.Y, u.Z, u.T} + {A2.X, A2.Y, A2.Z, A2.T}
                                     + {c.yPlusX, c.yMinusX, c.Z, c.T2d}
    modifies t.X, t.Y, t.Z, t.T, u.X, u.Y, u.Z, u.T
    ensures fresh({next.yPlusX, next.yMinusX, next.Z, next.T2d})
    ensures IsOddMultiple(next, {next.yPlusX, next.yMinusX, next.Z, next.T2d}, 2 * i + 3, A)
  {
    hide FermatsLittleTheorem, AdditionIsAssociative, Multiple, OnCurve, Add;
    hide ExtendedGroupElement.Is, CachedGroupElement.Is, CompletedGroupElement.Is;
    NextOddMultiple(i, A);
    GeAdd(t, A2, c, Multiple(2, A), Multiple(2 * i + 1, A));
    t.ToExtended(u, Multiple(2 * i + 3, A));
    next := new CachedGroupElement();
    u.ToCached(next, Multiple(2 * i + 3, A));
  }

  // The body of the loop.
  method AppendMultiple(t: CompletedGroupElement, u: ExtendedGroupElement, A2: ExtendedGroupElement,
                        Ai: seq<CachedGroupElement>, ghost table: set<array<int32>>, ghost A: Point)
    returns (longer: seq<CachedGroupElement>, ghost table': set<array<int32>>)
    requires IsGroup() && OnCurve(A)
    requires t.Valid() && u.Valid() && A2.Valid() && A2.Is(Multiple(2, A)) && |Ai| > 0 && IsOddMultiples(Ai, table, A)
    requires {t.X, t.Y, t.Z, t.T} !! {u.X, u.Y, u.Z, u.T} + {A2.X, A2.Y, A2.Z, A2.T} + table
    requires {u.X, u.Y, u.Z, u.T} !! table
    modifies t.X, t.Y, t.Z, t.T, u.X, u.Y, u.Z, u.T
    ensures fresh(table' - table) && |longer| == |Ai| + 1 && IsOddMultiples(longer, table', A)
  {
    hide IsGroup, Multiple, OnCurve, IsOddMultiples, ExtendedGroupElement.Is, CachedGroupElement.Is;
    var i := |Ai| - 1;
    OddEntry(Ai, table, i, 2 * i + 1, A);
    var next := NextEntry(t, u, A2, Ai[i], i, A);
    longer := Ai + [next];
    ghost var new' := {next.yPlusX, next.yMinusX, next.Z, next.T2d};
    LongerTable(Ai, table, next, new', A);
    table' := table + new';
  }

  lemma NextOddMultiple(i: nat, A: Point)
    requires IsGroup() && OnCurve(A)
    ensures Add(Multiple(2, A), Multiple(2 * i + 1, A)) == Multiple(2 * i + 3, A)
    ensures OnCurve(Multiple(2, A)) && OnCurve(Multiple(2 * i + 1, A))
  {
    hide FermatsLittleTheorem, AdditionIsAssociative, Multiple, OnCurve, Add;
    MultipleSum(2, 2 * i + 1, A);
    MultipleIsOnCurve(2, A);
    MultipleIsOnCurve(2 * i + 1, A);
  }

  /** A, 3A, 5A, 7A, 9A, 11A, 13A, 15A. */
  method OddMultiples(a: ExtendedGroupElement, t: CompletedGroupElement, u: ExtendedGroupElement,
                      A2: ExtendedGroupElement, ghost A: Point)
    returns (Ai: seq<CachedGroupElement>, ghost table: set<array<int32>>)
    requires IsGroup()
    requires a.Valid() && a.Is(A) && OnCurve(A) && t.Valid() && u.Valid() && A2.Valid()
    requires {t.X, t.Y, t.Z, t.T} !! {a.X, a.Y, a.Z, a.T} + {A2.X, A2.Y, A2.Z, A2.T} + {u.X, u.Y, u.Z, u.T}
    requires {u.X, u.Y, u.Z, u.T} !! {A2.X, A2.Y, A2.Z, A2.T}
    modifies t.X, t.Y, t.Z, t.T, u.X, u.Y, u.Z, u.T, A2.X, A2.Y, A2.Z, A2.T
    ensures |Ai| == 8 && fresh(table) && IsOddMultiples(Ai, table, A)
  {
    hide IsGroup, Multiple, OnCurve, IsOddMultiple, ExtendedGroupElement.Is;
    var first := FirstMultiples(a, t, A2, A);
    Ai := [first];
    table := {first.yPlusX, first.yMinusX, first.Z, first.T2d};
    assert IsOddMultiples(Ai, table, A);
    hide IsOddMultiples;
    for i := 0 to 7
      invariant |Ai| == i + 1 && fresh(table) && IsOddMultiples(Ai, table, A)
      invariant A2.Is(Multiple(2, A))
    {
      Ai, table := AppendMultiple(t, u, A2, Ai, table, A);
    }
  }

  // t = t + digit * A, by the entry for the digit's absolute value.
  method AddTableDigit(t: CompletedGroupElement, u: ExtendedGroupElement, Ai: seq<CachedGroupElement>, digit: int8,
                       ghost table: set<array<int32>>, ghost m: int, ghost n: int, ghost A: Point)
    requires IsGroup() && OnCurve(A)
    requires t.Valid() && u.Valid() && {t.X, t.Y, t.Z, t.T} !! {u.X, u.Y, u.Z, u.T}
    requires |Ai| == 8 && IsOddMultiples(Ai, table, A)
    requires table !! {t.X, t.Y, t.Z, t.T} && table !! {u.X, u.Y, u.Z, u.T}
    requires digit == 0 || IsOddDigit(digit)
    requires t.Is(Combination(m, n, A))
    modifies t.X, t.Y, t.Z, t.T, u.X, u.Y, u.Z, u.T
    ensures t.Is(Combination(m + digit as int, n, A))
  {
    hide FermatsLittleTheorem, AdditionIsAssociative, Multiple, OnCurve, Add, Combination,
      IsOddMultiples;
    hide ExtendedGroupElement.Is, CachedGroupElement.Is, CompletedGroupElement.Is;
    ghost var k := digit as int;
    CombinationIsOnCurve(m, n, A);
    NegativeMultiple(k, A);
    PureCombinations(k, A);
    SumOfCombinations(m, n, k, 0, A);
    if digit > 0 {
      t.ToExtended(u, Combination(m, n, A));
      OddEntry(Ai, table, digit as int / 2, k, A);
      GeAdd(t, u, Ai[digit / 2], Combination(m, n, A), Multiple(k, A));
    } else if digit < 0 {
      t.ToExtended(u, Combination(m, n, A));
      OddEntry(Ai, table, -digit as int / 2, -k, A);
      GeSub(t, u, Ai[-digit / 2], Combination(m, n, A), Multiple(-k, A));
    }
  }

  // t = t + digit * B, by the precomputed entry for the digit's absolute value.
  method AddBaseDigit(t: CompletedGroupElement, u: ExtendedGroupElement, bi: seq<Entry>, digit: int8,
                      ghost m: int, ghost n: int, ghost A: Point)
    requires IsGroup() && OnCurve(A) && IsOddTable(bi)
    requires t.Valid() && u.Valid() && {t.X, t.Y, t.Z, t.T} !! {u.X, u.Y, u.Z, u.T}
    requires digit == 0 || IsOddDigit(digit)
    requires t.Is(Combination(m, n, A))
    modifies t.X, t.Y, t.Z, t.T, u.X, u.Y, u.Z, u.T
    ensures t.Is(Combination(m, n + digit as int, A))
  {
    hide FermatsLittleTheorem, AdditionIsAssociative, Multiple, OnCurve, Add, Combination, IsEntry;
    hide ExtendedGroupElement.Is, PreComputedGroupElement.Is, CompletedGroupElement.Is;
    ghost var k := digit as int;
    CombinationIsOnCurve(m, n, A);
    BaseOnCurve();
    NegativeMultiple(k, B);
    PureCombinations(k, A);
    SumOfCombinations(m, n, 0, k, A);
    if digit > 0 {
      t.ToExtended(u, Combination(m, n, A));
      var q := Load(bi[digit / 2], Multiple(k, B));
      GeMixedAdd(t, u, q, Combination(m, n, A), Multiple(k, B));
    } else if digit < 0 {
      t.ToExtended(u, Combination(m, n, A));
      var q := Load(bi[-digit / 2], Multiple(-k, B));
      GeMixedSub(t, u, q, Combination(m, n, A), Multiple(-k, B));
    }
  }

  lemma BaseOnCurve()
    ensures OnCurve(B)
  {
    BaseIsOnCurve();
  }

  // One round of the main loop: r = 2 r + a digit of a times A + a digit of b times B.
  method DoubleAndAdd(r: ProjectiveGroupElement, t: CompletedGroupElement, u: ExtendedGroupElement,
                      Ai: seq<CachedGroupElement>, bi: seq<Entry>, aDigit: int8, bDigit: int8,
                      ghost table: set<array<int32>>, ghost m: int, ghost n: int, ghost A: Point)
    requires IsGroup() && OnCurve(A) && IsOddTable(bi)
    requires r.Valid() && t.Valid() && u.Valid() && |Ai| == 8 && IsOddMultiples(Ai, table, A)
    requires {t.X, t.Y, t.Z, t.T} !! {u.X, u.Y, u.Z, u.T} + {r.X, r.Y, r.Z} + table
    requires {u.X, u.Y, u.Z, u.T} !! table
    requires aDigit == 0 || IsOddDigit(aDigit)
    requires bDigit == 0 || IsOddDigit(bDigit)
    requires r.Is(Combination(m, n, A))
    modifies r.X, r.Y, r.Z, t.X, t.Y, t.Z, t.T, u.X, u.Y, u.Z, u.T
    ensures r.Is(Combination(2 * m + aDigit as int, 2 * n + bDigit as int, A))
  {
    hide FermatsLittleTheorem, AdditionIsAssociative, OnCurve, Add, Combination;
    hide IsOddMultiples, IsOddTable, IsOddDigit;
    hide ProjectiveGroupElement.Is, CompletedGroupElement.Is;
    CombinationIsOnCurve(m, n, A);
    SumOfCombinations(m, n, m, n, A);
    r.Double(t, Combination(m, n, A));
    AddTableDigit(t, u, Ai, aDigit, table, 2 * m, 2 * n, A);
    AddBaseDigit(t, u, bi, bDigit, 2 * m + aDigit as int, 2 * n, A);
    t.ToProjective(r, Combination(2 * m + aDigit as int, 2 * n + bDigit as int, A));
  }

  lemma SlideDigits(r: seq<int8>)
    requires Sparse(r, |r|)
    ensures forall i :: 0 <= i < |r| ==> r[i] == 0 || IsOddDigit(r[i])
  {
  }

  lemma NextDigit(r: seq<int8>, i: nat)
    requires i < |r|
    ensures SumFrom(r, i) == 2 * SumFrom(r, i + 1) + r[i] as int
  {
  }

  // The first position from the top where one of the scalars has a digit, or -1.
  method LeadingDigit(aSlide: array<int8>, bSlide: array<int8>) returns (i: int)
    requires aSlide.Length == bSlide.Length == 256
    ensures -1 <= i < 256
    ensures SumFrom(aSlide[..], i + 1) == 0 && SumFrom(bSlide[..], i + 1) == 0
  {
    i := 255;
    while i >= 0
      invariant -1 <= i < 256
      invariant SumFrom(aSlide[..], i + 1) == 0 && SumFrom(bSlide[..], i + 1) == 0
    {
      if aSlide[i] != 0 || bSlide[i] != 0 {
        break;
      }
      i := i - 1;
    }
  }

  // The main loop, from the leading digit down.
  method MultiplyByDigits(r: ProjectiveGroupElement, t: CompletedGroupElement, u: ExtendedGroupElement,
                          Ai: seq<CachedGroupElement>, bi: seq<Entry>, aSlide: array<int8>, bSlide: array<int8>,
                          leading: int, ghost table: set<array<int32>>, ghost A: Point)
    requires IsGroup() && OnCurve(A) && IsOddTable(bi)
    requires r.Valid() && t.Valid() && u.Valid() && |Ai| == 8 && IsOddMultiples(Ai, table, A)
    requires {t.X, t.Y, t.Z, t.T} !! {u.X, u.Y, u.Z, u.T} + {r.X, r.Y, r.Z} + table
    requires {u.X, u.Y, u.Z, u.T} !! {r.X, r.Y, r.Z} + table && {r.X, r.Y, r.Z} !! table
    requires aSlide.Length == bSlide.Length == 256 && -1 <= leading < 256
    requires Sparse(aSlide[..], 256) && Sparse(bSlide[..], 256)
    requires SumFrom(aSlide[..], leading + 1) == 0 && SumFrom(bSlide[..], leading + 1) == 0
    requires r.Is(ZERO)
    modifies r.X, r.Y, r.Z, t.X, t.Y, t.Z, t.T, u.X, u.Y, u.Z, u.T
    ensures r.Is(Combination(SumFrom(aSlide[..], 0), SumFrom(bSlide[..], 0), A))
  {
    hide IsGroup, OnCurve, Combination, IsOddMultiples, IsOddTable, IsOddDigit, Sparse, SumFrom;
    hide ProjectiveGroupElement.Is;
    ghost var a, b := aSlide[..], bSlide[..];
    SlideDigits(a);
    SlideDigits(b);
    ZeroCombination(A);
    var i := leading;
    while i >= 0
      invariant -1 <= i < 256
      invariant aSlide[..] == a && bSlide[..] == b
      invariant IsOddMultiples(Ai, table, A)
      invariant r.Is(Combination(SumFrom(a, i + 1), SumFrom(b, i + 1), A))
    {
      NextDigit(a, i);
      NextDigit(b, i);
      DoubleAndAdd(r, t, u, Ai, bi, aSlide[i], bSlide[i], table, SumFrom(a, i + 1), SumFrom(b, i + 1), A);
      i := i - 1;
    }
  }

  lemma ZeroCombination(A: Point)
    requires IsGroup() && OnCurve(A)
    ensures Combination(0, 0, A) == ZERO
  {
    PureCombinations(0, A);
    ZeroMultiple();
  }

  method TableOf(A: ExtendedGroupElement, ghost pA: Point)
    returns (Ai: seq<CachedGroupElement>, ghost table: set<array<int32>>)
    requires IsGroup() && OnCurve(pA) && A.Valid() && A.Is(pA)
    ensures |Ai| == 8 && fresh(table) && IsOddMultiples(Ai, table, pA)
  {
    hide IsGroup, OnCurve, IsOddMultiples, ExtendedGroupElement.Is;
    var t := new CompletedGroupElement();
    var u := new ExtendedGroupElement();
    var A2 := new ExtendedGroupElement();
    Ai, table := OddMultiples(A, t, u, A2, pA);
  }

  // What GeDoubleScalarMultVartime does with the recoded scalars.
  method CombineRecoded(r: ProjectiveGroupElement, aSlide: array<int8>, A: ExtendedGroupElement, bSlide: array<int8>,
                        bi: seq<Entry>, ghost pA: Point)
    requires IsGroup() && OnCurve(pA) && IsOddTable(bi)
    requires r.Valid() && A.Valid() && A.Is(pA) && {r.X, r.Y, r.Z} !! {A.X, A.Y, A.Z, A.T}
    requires aSlide.Length == bSlide.Length == 256 && Sparse(aSlide[..], 256) && Sparse(bSlide[..], 256)
    modifies r.X, r.Y, r.Z
    ensures r.Is(Combination(SumFrom(aSlide[..], 0), SumFrom(bSlide[..], 0), pA))
  {
    hide IsGroup, OnCurve, Combination, IsOddMultiples, IsOddTable, Sparse, SumFrom;
    hide ProjectiveGroupElement.Is, ExtendedGroupElement.Is;
    var Ai: seq<CachedGroupElement>;
    ghost var table: set<array<int32>>;
    Ai, table := TableOf(A, pA);
    var t := new CompletedGroupElement();
    var u := new ExtendedGroupElement();
    r.Zero();
    var i := LeadingDigit(aSlide, bSlide);
    MultiplyByDigits(r, t, u, Ai, bi, aSlide, bSlide, i, table, pA);
  }

  /** r = a * A + b * B; the recoding of a scalar of 2^255 or more may lose a carry, once 2^256 times the point. */
  method GeDoubleScalarMultVartime(r: ProjectiveGroupElement, a: array<byte>, A: ExtendedGroupElement, b: array<byte>,
                                   bi: seq<Entry>, ghost pA: Point)
    returns (ghost aLost: nat, ghost bLost: nat)
    requires IsGroup() && OnCurve(pA) && IsOddTable(bi)
    requires r.Valid() && A.Valid() && A.Is(pA) && a.Length == b.Length == 32 && {r.X, r.Y, r.Z} !! {A.X, A.Y, A.Z, A.T}
    modifies r.X, r.Y, r.Z
    ensures r.Is(Combination(Le(a[..]) - aLost * Pow2(256), Le(b[..]) - bLost * Pow2(256), pA))
    ensures aLost <= 1 && bLost <= 1
    ensures Le(a[..]) < Pow2(255) ==> aLost == 0
    ensures Le(b[..]) < Pow2(255) ==> bLost == 0
    ensures (AllOnes(a[..]) ==> aLost == 1) && (AllOnes(b[..]) ==> bLost == 1)
  {
    hide IsGroup, OnCurve, Combination, Pow2, Le, IsOddTable, Sparse, SumFrom;
    hide ProjectiveGroupElement.Is, ExtendedGroupElement.Is;
    var aSlide, bSlide := new int8[256], new int8[256];
    ghost var aScalar, bScalar := Le(a[..]), Le(b[..]);
    aLost := Slide(aSlide, a);
    bLost := Slide(bSlide, b);
    assert Le(a[..]) == aScalar && Le(b[..]) == bScalar;
    assert SumFrom(aSlide[..], 0) == aScalar - aLost * Pow2(256)
           && SumFrom(bSlide[..], 0) == bScalar - bLost * Pow2(256);
    OnesAreLost(a[..], aSlide[..], aLost);
    OnesAreLost(b[..], bSlide[..], bLost);
    CombineRecoded(r, aSlide, A, bSlide, bi, pA);
  }

  lemma OnesAreLost(a: seq<byte>, r: seq<int8>, lost: nat)
    requires |a| == 32 && |r| == 256 && Sparse(r, 256) && lost <= 1 && SumFrom(r, 0) + lost * Pow2(256) == Le(a)
    ensures AllOnes(a) ==> lost == 1
  {
    hide Pow2, Le, SumFrom, Sparse;
    if AllOnes(a) {
      LostCarry(a, r, lost);
    }
  }
}
