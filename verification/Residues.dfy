/** Arithmetic modulo the prime 2^255 - 19.

    Two integers stand for the same field element when their residues agree, so congruence is an equation
    between values of `Residue`.  Primality enters as one hypothesis, Fermat's little theorem.
 */
module Residues {

  const P: nat := 0x7fff_ffff_ffff_ffff_ffff_ffff_ffff_ffff_ffff_ffff_ffff_ffff_ffff_ffff_ffff_ffed

  // The modulus appears in the definition of a residue only behind this predicate.  Proofs see a residue as some number
  // in 0 .. P - 1 unless they mention the predicate, which keeps divisions by P out of proofs about products.
  ghost predicate IsModulus(m: nat) {
    m == P
  }

  ghost predicate Represents(r: int, a: int) {
    0 <= r < P && forall m: nat {:trigger IsModulus(m)} :: IsModulus(m) ==> r == a % m
  }

  /** The remainder of a modulo P. */
  ghost function Residue(a: int): (r: int)
    ensures 0 <= r < P
  {
    assert Represents(a % P, a);
    var r :| Represents(r, a);
    r
  }

  lemma ResidueIsRemainder(a: int)
    ensures Residue(a) == a % P
  {
    assert IsModulus(P);
  }

  lemma SmallResidue(a: int)
    requires 0 <= a < P
    ensures Residue(a) == a
  {
    ResidueIsRemainder(a);
  }

  lemma MinusOne()
    ensures Residue(-1) == P - 1
  {
    ResidueIsRemainder(-1);
  }

  lemma ResidueOfMultiple(a: int, b: int, k: int)
    requires a - b == k * P
    ensures Residue(a) == Residue(b)
  {
    ResidueIsRemainder(a);
    ResidueIsRemainder(b);
  }

  lemma ResidueDifference(a: int, b: int) returns (k: int)
    requires Residue(a) == Residue(b)
    ensures a - b == k * P
  {
    ResidueIsRemainder(a);
    ResidueIsRemainder(b);
    k := a / P - b / P;
  }

  /** A residue stands for the integer it comes from. */
  lemma ResidueTwice(a: int)
    ensures Residue(Residue(a)) == Residue(a)
  {
    SmallResidue(Residue(a));
  }

  lemma ResidueSum(a: int, a': int, b: int, b': int)
    requires Residue(a) == Residue(a') && Residue(b) == Residue(b')
    ensures Residue(a + b) == Residue(a' + b')
    ensures Residue(a - b) == Residue(a' - b')
  {
    var k := ResidueDifference(a, a');
    var l := ResidueDifference(b, b');
    ResidueOfMultiple(a + b, a' + b', k + l);
    ResidueOfMultiple(a - b, a' - b', k - l);
  }

  lemma ResidueProduct(a: int, a': int, b: int, b': int)
    requires Residue(a) == Residue(a') && Residue(b) == Residue(b')
    ensures Residue(a * b) == Residue(a' * b')
  {
    var k := ResidueDifference(a, a');
    var l := ResidueDifference(b, b');
    ProductDifference(a', k, b', l, P);
    ResidueOfMultiple(a * b, a' * b', a' * l + k * b' + k * l * P);
  }

  lemma ProductDifference(a: int, k: int, b: int, l: int, m: int)
    ensures (a + k * m) * (b + l * m) - a * b == (a * l + k * b + k * l * m) * m
  {
    assert (a + k * m) * (b + l * m) == a * b + a * (l * m) + k * m * b + k * m * (l * m);
    assert a * (l * m) == a * l * m && k * m * b == k * b * m && k * m * (l * m) == k * l * m * m;
  }

  /** Two integers are congruent exactly when their difference vanishes. */
  lemma ResidueOfDifference(a: int, b: int)
    ensures Residue(a) == Residue(b) <==> Residue(a - b) == 0
  {
    SmallResidue(0);
    if Residue(a) == Residue(b) {
      var k := ResidueDifference(a, b);
      ResidueOfMultiple(a - b, 0, k);
    }
    if Residue(a - b) == 0 {
      var k := ResidueDifference(a - b, 0);
      ResidueOfMultiple(a, b, k);
    }
  }

  /** An integer combination of vanishing integers vanishes. */
  lemma VanishingCombination(u: int, a: int, v: int, b: int)
    requires Residue(a) == 0 && Residue(b) == 0
    ensures Residue(u * a + v * b) == 0
  {
    SmallResidue(0);
    ResidueProduct(u, u, a, 0);
    ResidueProduct(v, v, b, 0);
    ResidueSum(u * a, 0, v * b, 0);
  }

  // ----- powers

  ghost function Pow(z: int, n: nat): int {
    if n == 0 then 1 else z * Pow(z, n - 1)
  }

  lemma {:induction false} PowSum(z: int, m: nat, n: nat)
    ensures Pow(z, m + n) == Pow(z, m) * Pow(z, n)
  {
    if m == 0 {
    } else {
      PowSum(z, m - 1, n);
      assert z * Pow(z, m - 1) * Pow(z, n) == z * (Pow(z, m - 1) * Pow(z, n));
    }
  }

  lemma {:induction false} PowOfProduct(a: int, b: int, n: nat)
    ensures Pow(a * b, n) == Pow(a, n) * Pow(b, n)
  {
    if n == 0 {
    } else {
      PowOfProduct(a, b, n - 1);
      Regroup(a, b, Pow(a, n - 1), Pow(b, n - 1));
    }
  }

  lemma Regroup(a: int, b: int, c: int, d: int)
    ensures (a * b) * (c * d) == (a * c) * (b * d)
  {
    assert (a * b) * (c * d) == a * (b * (c * d)) == a * (c * (b * d)) == (a * c) * (b * d);
  }

  lemma {:induction false} ResiduePow(a: int, b: int, n: nat)
    requires Residue(a) == Residue(b)
    ensures Residue(Pow(a, n)) == Residue(Pow(b, n))
  {
    if n == 0 {
    } else {
      ResiduePow(a, b, n - 1);
      ResidueProduct(a, b, Pow(a, n - 1), Pow(b, n - 1));
    }
  }

  lemma PowOfZero(n: nat)
    requires n > 0
    ensures Pow(0, n) == 0
  {
  }

  lemma SmallPowers(z: int)
    ensures Pow(z, 1) == z && Pow(z, 2) == z * z && Pow(z, 3) == z * z * z
  {
    assert Pow(z, 1) == z * Pow(z, 0);
    assert Pow(z, 2) == z * Pow(z, 1);
    assert Pow(z, 3) == z * Pow(z, 2);
  }

  // ----- the field

  /** Fermat's little theorem for P, which holds because P is prime.  A hypothesis of every result that divides. */
  ghost predicate FermatsLittleTheorem() {
    forall z: int {:trigger Pow(z, P - 1)} :: Residue(z) != 0 ==> Residue(Pow(z, P - 1)) == 1
  }

  lemma FermatPower(t: int)
    requires FermatsLittleTheorem() && Residue(t) != 0
    ensures Residue(Pow(t, P - 1)) == 1
  {
    hide Pow;
  }

  ghost function Inverse(a: int): (r: int)
    ensures 0 <= r < P
  {
    Residue(Pow(a, P - 2))
  }

  lemma InverseIsInverse(a: int)
    requires FermatsLittleTheorem()
    requires Residue(a) != 0
    ensures Residue(a * Inverse(a)) == 1
  {
    var n: nat := P - 2;
    assert Pow(a, P - 1) == a * Pow(a, n);
    hide Pow;
    ResidueTwice(Pow(a, n));
    ResidueProduct(a, a, Inverse(a), Pow(a, n));
  }

  /** The field has no zero divisors. */
  lemma ZeroProduct(a: int, b: int)
    requires FermatsLittleTheorem()
    requires Residue(a * b) == 0
    ensures Residue(a) == 0 || Residue(b) == 0
  {
    SmallResidue(0);
    SmallResidue(1);
    hide Inverse, Pow;
    if Residue(a) != 0 {
      InverseIsInverse(a);
      var i := Inverse(a);
      ResidueProduct(i, i, a * b, 0);
      assert i * (a * b) == (a * i) * b;
      ResidueProduct(a * i, 1, b, b);
    }
  }

  lemma NonZeroProduct(a: int, b: int)
    requires FermatsLittleTheorem()
    requires Residue(a) != 0 && Residue(b) != 0
    ensures Residue(a * b) != 0
  {
    if Residue(a * b) == 0 {
      ZeroProduct(a, b);
    }
  }

  lemma CancelFactor(a: int, b: int, c: int)
    requires FermatsLittleTheorem()
    requires Residue(c) != 0
    requires Residue(a * c) == Residue(b * c)
    ensures Residue(a) == Residue(b)
  {
    hide Inverse, Pow;
    ResidueOfDifference(a * c, b * c);
    assert a * c - b * c == (a - b) * c;
    ZeroProduct(a - b, c);
    ResidueOfDifference(a, b);
  }

  /** Solving y * c = x for y. */
  lemma Quotient(x: int, c: int)
    requires FermatsLittleTheorem()
    requires Residue(c) != 0
    ensures Residue(x * Inverse(c) * c) == Residue(x)
  {
    SmallResidue(1);
    hide Inverse, Pow;
    InverseIsInverse(c);
    assert x * Inverse(c) * c == x * (c * Inverse(c));
    ResidueProduct(x, x, c * Inverse(c), 1);
  }

  lemma EqualSquares(a: int, b: int)
    requires FermatsLittleTheorem()
    requires Residue(a * a) == Residue(b * b)
    ensures Residue(a) == Residue(b) || Residue(a) == Residue(-b)
  {
    hide Pow;
    ResidueOfDifference(a * a, b * b);
    assert a * a - b * b == (a - b) * (a + b);
    ZeroProduct(a - b, a + b);
    ResidueOfDifference(a, b);
    ResidueOfDifference(a, -b);
  }
}
