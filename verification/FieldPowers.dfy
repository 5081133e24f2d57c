/** The addition chains of FeInvert and FePow22523. */
module FieldPowers {
  import opened Bits
  import opened Words
  import opened Residues
  import opened FieldElements
  import opened FieldProducts

  /** The element h equals z to the n modulo P. */
  ghost predicate IsPower(h: seq<int32>, z: int, n: nat)
    requires |h| == 10
  {
    Residue(Val(h)) == Residue(Pow(z, n)) && Size(h) <= LIMIT
  }

  lemma ProductOfPowers(a: int, m: nat, b: int, n: nat, z: int)
    requires Residue(a) == Residue(Pow(z, m)) && Residue(b) == Residue(Pow(z, n))
    ensures Residue(a * b) == Residue(Pow(z, m + n))
  {
    PowSum(z, m, n);
    ResidueProduct(a, Pow(z, m), b, Pow(z, n));
  }

  method Multiply(h: array<int32>, f: array<int32>, g: array<int32>, ghost z: int, ghost m: nat, ghost n: nat)
    requires h.Length == f.Length == g.Length == 10
    requires IsPower(f[..], z, m) && IsPower(g[..], z, n)
    modifies h
    ensures IsPower(h[..], z, m + n) && Size(h[..]) <= CARRIED
  {
    hide Pow, Val, Size;
    ProductOfPowers(Val(f[..]), m, Val(g[..]), n, z);
    FeMul(h, f, g);
  }

  /** One squaring into h and then k - 1 squarings in place. */
  method SquareTimes(h: array<int32>, f: array<int32>, k: nat, ghost z: int, ghost n: nat)
    requires h.Length == f.Length == 10 && k > 0
    requires IsPower(f[..], z, n)
    modifies h
    ensures IsPower(h[..], z, n * Pow2(k))
  {
    hide Pow, Val, Size;
    ProductOfPowers(Val(f[..]), n, Val(f[..]), n, z);
    FeSquare(h, f);
    ghost var e := n + n;
    assert e == n * Pow2(1);
    for i := 1 to k
      invariant e == n * Pow2(i)
      invariant IsPower(h[..], z, e)
    {
      ProductOfPowers(Val(h[..]), e, Val(h[..]), e, z);
      FeSquare(h, h);
      e := e + e;
    }
  }

  /** The exponent whose binary digits are k ones. */
  ghost function Ones(k: nat): nat {
    Pow2(k) - 1
  }

  lemma JoinOnes(j: nat, k: nat)
    ensures Ones(j) * Pow2(k) + Ones(k) == Ones(j + k)
  {
    Pow2Sum(j, k);
    assert Ones(j) * Pow2(k) == Pow2(j) * Pow2(k) - Pow2(k);
  }

  lemma LargePowers()
    ensures Pow2(5) == 32 && Pow2(2) == 4
    ensures Pow2(250) == 0x400_0000_0000_0000_0000_0000_0000_0000_0000_0000_0000_0000_0000_0000_0000_0000
  {
    assert Pow2(5) == 32 && Pow2(2) == 4;
    assert Pow2(10) == 0x400;
    hide Pow2;
    Pow2Sum(10, 10);
    Pow2Sum(20, 5);
    Pow2Sum(25, 25);
    assert Pow2(50) == 0x4_0000_0000_0000;
    Pow2Sum(50, 50);
    assert Pow2(100) == 0x10_0000_0000_0000_0000_0000_0000;
    Pow2Sum(100, 100);
    Pow2Sum(200, 50);
  }

  lemma FinalExponents()
    ensures Ones(250) * Pow2(5) + 11 == P - 2
    ensures Ones(250) * Pow2(2) + 1 == (P - 5) / 8
  {
    LargePowers();
    hide Pow2;
  }

  lemma FinalPower(h: seq<int32>, z: int, n: nat)
    requires |h| == 10 && IsPower(h, z, n)
    ensures Residue(Val(h)) == Residue(Pow(z, n))
  {
  }

  lemma FirstPower(h: seq<int32>)
    requires |h| == 10 && Size(h) <= LIMIT
    ensures IsPower(h, Val(h), 1)
  {
    hide Val, Size;
    assert Pow(Val(h), 1) == Val(h) * Pow(Val(h), 0);
  }

  // From here on both functions run the same chain, t taking the place of t1 or t0, and u and v those of the
  // two other temporaries.

  method FiftyOnes(t: array<int32>, u: array<int32>, v: array<int32>, ghost z: int)
    requires t.Length == u.Length == v.Length == 10 && t != u && t != v && u != v
    requires IsPower(t[..], z, Ones(5))
    modifies t, u, v
    ensures IsPower(t[..], z, Ones(50))
  {
    hide IsPower, Ones, Pow2;
    JoinOnes(5, 5);
    SquareTimes(u, t, 5, z, Ones(5));
    Multiply(t, u, t, z, Ones(5) * Pow2(5), Ones(5));
    JoinOnes(10, 10);
    SquareTimes(u, t, 10, z, Ones(10));
    Multiply(u, u, t, z, Ones(10) * Pow2(10), Ones(10));
    JoinOnes(20, 20);
    SquareTimes(v, u, 20, z, Ones(20));
    Multiply(u, v, u, z, Ones(20) * Pow2(20), Ones(20));
    JoinOnes(40, 10);
    SquareTimes(u, u, 10, z, Ones(40));
    Multiply(t, u, t, z, Ones(40) * Pow2(10), Ones(10));
  }

  method AllOnes(t: array<int32>, u: array<int32>, v: array<int32>, ghost z: int)
    requires t.Length == u.Length == v.Length == 10 && t != u && t != v && u != v
    requires IsPower(t[..], z, Ones(5))
    modifies t, u, v
    ensures IsPower(t[..], z, Ones(250))
  {
    hide IsPower, Ones, Pow2;
    FiftyOnes(t, u, v, z);
    JoinOnes(50, 50);
    SquareTimes(u, t, 50, z, Ones(50));
    Multiply(u, u, t, z, Ones(50) * Pow2(50), Ones(50));
    JoinOnes(100, 100);
    SquareTimes(v, u, 100, z, Ones(100));
    Multiply(u, v, u, z, Ones(100) * Pow2(100), Ones(100));
    JoinOnes(200, 50);
    SquareTimes(u, u, 50, z, Ones(200));
    Multiply(t, u, t, z, Ones(200) * Pow2(50), Ones(50));
  }

  /** out = z^(P - 2), the inverse of z unless z is zero. */
  method FeInvert(out: array<int32>, f: array<int32>)
    requires out.Length == f.Length == 10
    requires Size(f[..]) <= LIMIT
    modifies out
    ensures Residue(Val(out[..])) == Inverse(old(Val(f[..])))
    ensures Size(out[..]) <= CARRIED
  {
    hide IsPower, Val, Size;
    ghost var z := Val(f[..]);
    FirstPower(f[..]);
    var t0, t1, t2, t3 := new int32[10], new int32[10], new int32[10], new int32[10];
    SquareTimes(t0, f, 1, z, 1);
    SmallExponents();
    hide Pow2, Ones;
    SquareTimes(t1, t0, 2, z, 2);
    Multiply(t1, f, t1, z, 1, 8);
    Multiply(t0, t0, t1, z, 2, 9);
    SquareTimes(t2, t0, 1, z, 11);
    Multiply(t1, t1, t2, z, 9, 22);
    AllOnes(t1, t2, t3, z);
    SquareTimes(t1, t1, 5, z, Ones(250));
    Multiply(out, t1, t0, z, Ones(250) * Pow2(5), 11);
    FinalExponents();
    FinalPower(out[..], z, Ones(250) * Pow2(5) + 11);
  }

  lemma SmallExponents()
    ensures Pow2(1) == 2 && Pow2(2) == 4 && Ones(5) == 31
  {
  }

  /** out = z^((P - 5) / 8) = z^(2^252 - 3); the result may replace z. */
  method FePow22523(out: array<int32>, f: array<int32>)
    requires out.Length == f.Length == 10
    requires Size(f[..]) <= LIMIT
    modifies out
    ensures Residue(Val(out[..])) == Residue(Pow(old(Val(f[..])), (P - 5) / 8))
    ensures Size(out[..]) <= CARRIED
  {
    hide IsPower, Val, Size;
    ghost var z := Val(f[..]);
    FirstPower(f[..]);
    var t0, t1, t2 := new int32[10], new int32[10], new int32[10];
    SquareTimes(t0, f, 1, z, 1);
    SmallExponents();
    hide Pow2, Ones;
    SquareTimes(t1, t0, 2, z, 2);
    Multiply(t1, f, t1, z, 1, 8);
    Multiply(t0, t0, t1, z, 2, 9);
    SquareTimes(t0, t0, 1, z, 11);
    Multiply(t0, t1, t0, z, 9, 22);
    AllOnes(t0, t1, t2, z);
    SquareTimes(t0, t0, 2, z, Ones(250));
    Multiply(out, t0, f, z, Ones(250) * Pow2(2), 1);
    FinalExponents();
    FinalPower(out[..], z, Ones(250) * Pow2(2) + 1);
  }

  /** What FeInvert computes is the inverse of everything but zero, and zero for zero. */
  lemma InverseFacts(z: int)
    requires FermatsLittleTheorem()
    ensures Residue(z) != 0 ==> Residue(z * Inverse(z)) == 1
    ensures Residue(z) == 0 ==> Inverse(z) == 0
  {
    if Residue(z) != 0 {
      InverseIsInverse(z);
    } else {
      SmallResidue(0);
      ResiduePow(z, 0, P - 2);
      PowOfZero(P - 2);
    }
  }
}
