/** Go's bitwise operators on signed integers.

    An integer stands for its two's complement bit string, extended to the left without bound by its
    sign.  A fixed-width word of Go holds a prefix of that string, and `&`, `|` and `^` of two words that
    fit a width fit it too, so the unbounded operators below agree with the fixed-width ones.
 */
module Bits {

  function Pow2(k: nat): nat
    ensures Pow2(k) > 0
  {
    if k == 0 then 1 else 2 * Pow2(k - 1)
  }

  lemma {:induction false} Pow2Sum(j: nat, k: nat)
    ensures Pow2(j + k) == Pow2(j) * Pow2(k)
  {
    if j == 0 {
    } else {
      Pow2Sum(j - 1, k);
      assert 2 * Pow2(j - 1) * Pow2(k) == 2 * (Pow2(j - 1) * Pow2(k));
    }
  }

  /** The values 0 and -1, all of whose bits are equal, are the ones that halving leaves alone. */
  function Distance(a: int): nat {
    if a < 0 then -a - 1 else a
  }

  function And(a: int, b: int): int
    decreases Distance(a) + Distance(b)
  {
    if Distance(a) == 0 && Distance(b) == 0 then if a == -1 && b == -1 then -1 else 0
    else 2 * And(a / 2, b / 2) + if a % 2 == 1 && b % 2 == 1 then 1 else 0
  }

  function Or(a: int, b: int): int
    decreases Distance(a) + Distance(b)
  {
    if Distance(a) == 0 && Distance(b) == 0 then if a == -1 || b == -1 then -1 else 0
    else 2 * Or(a / 2, b / 2) + if a % 2 == 1 || b % 2 == 1 then 1 else 0
  }

  function Xor(a: int, b: int): int
    decreases Distance(a) + Distance(b)
  {
    if Distance(a) == 0 && Distance(b) == 0 then if a != b then -1 else 0
    else 2 * Xor(a / 2, b / 2) + if a % 2 != b % 2 then 1 else 0
  }

  /** `x & (2^k - 1)` keeps the low k bits, also of a negative number. */
  lemma {:induction false} AndMask(k: nat, x: int)
    ensures And(Pow2(k) - 1, x) == x % Pow2(k)
  {
    if k == 0 {
      AndZero(x);
    } else {
      AndMask(k - 1, x / 2);
      var m := Pow2(k - 1);
      assert Pow2(k) == 2 * m;
      hide And, Pow2;
      assert (2 * m - 1) / 2 == m - 1 && (2 * m - 1) % 2 == 1;
      AndHalves(2 * m - 1, x);
      HalvingMod(x, m);
    }
  }

  lemma HalvingMod(x: int, m: nat)
    requires m > 0
    ensures x % (2 * m) == 2 * ((x / 2) % m) + x % 2
  {
    var q, r := (x / 2) / m, (x / 2) % m;
    assert x / 2 == q * m + r;
    assert x == q * (2 * m) + (2 * r + x % 2);
    DivisionIsUnique(x, 2 * m, q, 2 * r + x % 2);
  }

  lemma DivisionIsUnique(x: int, m: int, q: int, r: int)
    requires m > 0 && x == q * m + r && 0 <= r < m
    ensures x / m == q && x % m == r
  {
    QuotientIsUnique(m, q, r, x / m, x % m);
  }

  lemma QuotientIsUnique(m: int, q: int, r: int, q': int, r': int)
    requires 0 <= r < m && 0 <= r' < m
    requires q * m + r == q' * m + r'
    ensures q == q' && r == r'
  {
    var d := q - q';
    assert d * m == r' - r;
    MultipleIsFar(d, m);
  }

  lemma MultipleIsFar(d: int, m: int)
    requires m > 0
    ensures d >= 1 ==> d * m >= m
    ensures d <= -1 ==> d * m <= -m
  {
  }

  lemma {:induction false} AndZero(x: int)
    ensures And(0, x) == 0
    decreases Distance(x)
  {
    if Distance(x) == 0 {
    } else {
      AndZero(x / 2);
    }
  }

  lemma {:induction false} AndOnes(x: int)
    ensures And(-1, x) == x
    decreases Distance(x)
  {
    if Distance(x) == 0 {
    } else {
      AndOnes(x / 2);
    }
  }

  lemma {:induction false} XorZero(x: int)
    ensures Xor(x, 0) == x && Xor(0, x) == x
    decreases Distance(x)
  {
    if Distance(x) == 0 {
    } else {
      XorZero(x / 2);
    }
  }

  /** Applying the same exclusive-or twice undoes it. */
  lemma {:induction false} XorTwice(a: int, b: int)
    ensures Xor(a, Xor(a, b)) == b
    decreases Distance(a) + Distance(b)
  {
    if Distance(a) == 0 && Distance(b) == 0 {
    } else {
      XorTwice(a / 2, b / 2);
      XorHalves(a, b);
      XorHalves(a, Xor(a, b));
    }
  }

  /** The recursion of the definition also holds at its end points. */
  lemma XorHalves(a: int, b: int)
    ensures Xor(a, b) / 2 == Xor(a / 2, b / 2)
    ensures Xor(a, b) % 2 == if a % 2 != b % 2 then 1 else 0
  {
  }

  lemma OrHalves(a: int, b: int)
    ensures Or(a, b) / 2 == Or(a / 2, b / 2)
    ensures Or(a, b) % 2 == if a % 2 == 1 || b % 2 == 1 then 1 else 0
  {
  }

  lemma {:induction false} OrZero(x: int)
    ensures Or(0, x) == x
    decreases Distance(x)
  {
    if Distance(x) == 0 {
    } else {
      OrZero(x / 2);
    }
  }

  /** `|` of numbers without a common bit is their sum. */
  lemma {:induction false} OrDisjoint(low: int, high: int, k: nat)
    requires 0 <= low < Pow2(k)
    ensures Or(low, high * Pow2(k)) == low + high * Pow2(k)
  {
    var x := high * Pow2(k);
    if k == 0 {
      OrZero(x);
    } else {
      assert x == 2 * (high * Pow2(k - 1));
      OrDisjoint(low / 2, high, k - 1);
      OrHalves(low, x);
      assert x / 2 == high * Pow2(k - 1) && x % 2 == 0;
    }
  }

  /** And so is `^`. */
  lemma {:induction false} XorDisjoint(low: int, high: int, k: nat)
    requires 0 <= low < Pow2(k)
    ensures Xor(low, high * Pow2(k)) == low + high * Pow2(k)
  {
    var x := high * Pow2(k);
    if k == 0 {
      XorZero(x);
    } else {
      assert x == 2 * (high * Pow2(k - 1));
      XorDisjoint(low / 2, high, k - 1);
      XorHalves(low, x);
      assert x / 2 == high * Pow2(k - 1) && x % 2 == 0;
    }
  }

  /** `|` of non-negative numbers is zero only when both are, and sets no new leading bit. */
  lemma {:induction false} OrOfNaturals(a: nat, b: nat, k: nat)
    requires a < Pow2(k) && b < Pow2(k)
    ensures 0 <= Or(a, b) < Pow2(k)
    ensures Or(a, b) == 0 <==> a == 0 && b == 0
  {
    if k == 0 {
    } else {
      OrOfNaturals(a / 2, b / 2, k - 1);
      OrHalves(a, b);
    }
  }

  /** `^` of non-negative numbers is zero only when they are equal, and sets no new leading bit. */
  lemma {:induction false} XorOfNaturals(a: nat, b: nat, k: nat)
    requires a < Pow2(k) && b < Pow2(k)
    ensures 0 <= Xor(a, b) < Pow2(k)
    ensures Xor(a, b) == 0 <==> a == b
  {
    if k == 0 {
    } else {
      XorOfNaturals(a / 2, b / 2, k - 1);
      XorHalves(a, b);
    }
  }

  lemma AndHalves(a: int, b: int)
    ensures And(a, b) / 2 == And(a / 2, b / 2)
    ensures And(a, b) % 2 == if a % 2 == 1 && b % 2 == 1 then 1 else 0
  {
  }

  /** A mask whose low k bits are clear selects among the higher bits of x; or-ing it in keeps the low ones. */
  lemma {:induction false} HighMask(mask: int, x: int, k: nat)
    ensures And(mask * Pow2(k), x) == And(mask, x / Pow2(k)) * Pow2(k)
    ensures Or(mask * Pow2(k), x) == Or(mask, x / Pow2(k)) * Pow2(k) + x % Pow2(k)
    decreases k
  {
    hide And, Or;
    if k == 0 {
    } else {
      var m := Pow2(k - 1);
      HighMask(mask, x / 2, k - 1);
      assert mask * Pow2(k) == 2 * (mask * m);
      DoubledMask(mask * m, x);
      HalvingMod(x, m);
      QuotientOfHalf(x, m);
      Twice(And(mask, x / 2 / m), m);
      Twice(Or(mask, x / 2 / m), m);
    }
  }

  lemma DoubledMask(mask: int, x: int)
    ensures And(2 * mask, x) == 2 * And(mask, x / 2)
    ensures Or(2 * mask, x) == 2 * Or(mask, x / 2) + x % 2
  {
    hide And, Or;
    AndHalves(2 * mask, x);
    OrHalves(2 * mask, x);
  }

  lemma QuotientOfHalf(x: int, m: nat)
    requires m > 0
    ensures x / 2 / m == x / (2 * m)
  {
    HalvingMod(x, m);
    var q := x / 2 / m;
    assert x / 2 == q * m + x / 2 % m;
    assert q * (2 * m) == 2 * (q * m);
    DivisionIsUnique(x, 2 * m, q, x % (2 * m));
  }

  lemma Twice(a: int, m: int)
    ensures 2 * (a * m) == a * (2 * m)
  {
  }
}
