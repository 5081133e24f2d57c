/** The group of points: consequences of associativity, and integer multiples of a point. */
module Multiples {
  import opened Curve
  import opened Residues

  ghost predicate AdditionIsAssociative() {
    forall p, q, r {:trigger Add(Add(p, q), r)} {:trigger Add(p, Add(q, r))} ::
      OnCurve(p) && OnCurve(q) && OnCurve(r) ==> Add(Add(p, q), r) == Add(p, Add(q, r))
  }

  /** What the Go code relies on and this model does not prove. */
  ghost predicate IsGroup() {
    FermatsLittleTheorem() && AdditionIsAssociative()
  }

  lemma Associative(p: Point, q: Point, r: Point)
    requires IsGroup()
    requires OnCurve(p) && OnCurve(q) && OnCurve(r)
    ensures Add(Add(p, q), r) == Add(p, Add(q, r))
  {
    hide FermatsLittleTheorem, OnCurve, Add;
  }

  /** The opposite is the only point that cancels. */
  lemma NegIsUnique(p: Point, q: Point)
    requires IsGroup()
    requires OnCurve(p) && OnCurve(q) && Add(p, q) == ZERO
    ensures q == Neg(p)
  {
    hide FermatsLittleTheorem, AdditionIsAssociative, OnCurve, Add, Neg;
    var n := Neg(p);
    NegIsOnCurve(p);
    AddNeg(p);
    AddCommutes(n, p);
    Associative(n, p, q);
    AddZero(q);
    AddZero(n);
  }

  /** The n-fold sum of a point; of its opposite when n is negative. */
  ghost function Multiple(n: int, p: Point): Point
    decreases if n < 0 then -n else n
  {
    if n == 0 then ZERO
    else if n > 0 then Add(Multiple(n - 1, p), p)
    else Add(Multiple(n + 1, p), Neg(p))
  }

  lemma {:induction false} MultipleIsOnCurve(n: int, p: Point)
    requires FermatsLittleTheorem()
    requires OnCurve(p)
    ensures OnCurve(Multiple(n, p))
    decreases if n < 0 then -n else n
  {
    hide FermatsLittleTheorem, Add, Neg;
    ZeroIsOnCurve();
    hide OnCurve;
    NegIsOnCurve(p);
    if n > 0 {
      MultipleIsOnCurve(n - 1, p);
      AddIsOnCurve(Multiple(n - 1, p), p);
    } else if n < 0 {
      MultipleIsOnCurve(n + 1, p);
      AddIsOnCurve(Multiple(n + 1, p), Neg(p));
    }
  }

  lemma NextMultiple(n: int, p: Point)
    requires IsGroup() && OnCurve(p)
    ensures Multiple(n + 1, p) == Add(Multiple(n, p), p)
    ensures Multiple(n - 1, p) == Add(Multiple(n, p), Neg(p))
  {
    hide FermatsLittleTheorem, AdditionIsAssociative, OnCurve, Add, Neg;
    NegIsOnCurve(p);
    AddNeg(p);
    AddCommutes(Neg(p), p);
    if n < 0 {
      var m := Multiple(n + 1, p);
      MultipleIsOnCurve(n + 1, p);
      Associative(m, Neg(p), p);
      AddZero(m);
    }
    if n > 0 {
      var m := Multiple(n - 1, p);
      MultipleIsOnCurve(n - 1, p);
      Associative(m, p, Neg(p));
      AddZero(m);
    }
  }

  lemma {:induction false} MultipleSum(m: int, n: int, p: Point)
    requires IsGroup() && OnCurve(p)
    ensures Multiple(m + n, p) == Add(Multiple(m, p), Multiple(n, p))
    decreases if n < 0 then -n else n
  {
    hide FermatsLittleTheorem, AdditionIsAssociative, OnCurve, Add, Neg;
    MultipleIsOnCurve(m, p);
    if n == 0 {
      AddZero(Multiple(m, p));
    } else if n > 0 {
      MultipleSum(m, n - 1, p);
      MultipleIsOnCurve(n - 1, p);
      NextMultiple(m + n - 1, p);
      Associative(Multiple(m, p), Multiple(n - 1, p), p);
    } else {
      MultipleSum(m, n + 1, p);
      MultipleIsOnCurve(n + 1, p);
      NextMultiple(m + n + 1, p);
      NegIsOnCurve(p);
      Associative(Multiple(m, p), Multiple(n + 1, p), Neg(p));
    }
  }

  lemma MultipleOfNeg(n: int, p: Point)
    requires IsGroup() && OnCurve(p)
    ensures Multiple(-n, p) == Neg(Multiple(n, p))
  {
    hide FermatsLittleTheorem, AdditionIsAssociative, OnCurve, Add, Neg;
    MultipleSum(n, -n, p);
    MultipleIsOnCurve(n, p);
    MultipleIsOnCurve(-n, p);
    NegIsUnique(Multiple(n, p), Multiple(-n, p));
  }

  lemma {:induction false} MultipleProduct(m: int, n: int, p: Point)
    requires IsGroup() && OnCurve(p)
    ensures Multiple(m * n, p) == Multiple(m, Multiple(n, p))
    decreases if m < 0 then -m else m
  {
    hide FermatsLittleTheorem, AdditionIsAssociative, OnCurve, Add, Neg;
    MultipleIsOnCurve(n, p);
    if m > 0 {
      MultipleProduct(m - 1, n, p);
      assert m * n == (m - 1) * n + n;
      MultipleSum((m - 1) * n, n, p);
    } else if m < 0 {
      MultipleProduct(m + 1, n, p);
      assert m * n == (m + 1) * n + -n;
      MultipleSum((m + 1) * n, -n, p);
      MultipleOfNeg(n, p);
    }
  }

  lemma SmallMultiples(p: Point)
    requires FermatsLittleTheorem() && OnCurve(p)
    ensures Multiple(0, p) == ZERO && Multiple(1, p) == p && Multiple(2, p) == Add(p, p)
  {
    hide FermatsLittleTheorem, OnCurve, Add, Neg;
    AddZero(p);
    assert Multiple(1, p) == Add(Multiple(0, p), p);
  }

  /** Multiples by numbers that agree modulo the order of a point are equal. */
  lemma MultipleModulo(n: int, m: nat, p: Point)
    requires IsGroup() && OnCurve(p)
    requires m > 0 && Multiple(m, p) == ZERO
    ensures Multiple(n % m, p) == Multiple(n, p)
  {
    hide FermatsLittleTheorem, AdditionIsAssociative, OnCurve, Add, Neg;
    var q := n / m;
    MultipleProduct(q, m, p);
    MultipleOfZero(q);
    assert n == n % m + q * m;
    MultipleIsOnCurve(n % m, p);
    MultipleSum(n % m, q * m, p);
    AddZero(Multiple(n % m, p));
  }

  lemma NegOfZero()
    ensures Neg(ZERO) == ZERO
  {
    assert Neg(ZERO).y == ZERO.y;
    SmallResidue(-ZERO.x);
  }

  lemma {:induction false} MultipleOfZero(n: int)
    requires FermatsLittleTheorem()
    ensures Multiple(n, ZERO) == ZERO
    decreases if n < 0 then -n else n
  {
    NegOfZero();
    hide FermatsLittleTheorem, OnCurve, Add, Neg;
    ZeroIsOnCurve();
    AddZero(ZERO);
    if n > 0 {
      MultipleOfZero(n - 1);
    } else if n < 0 {
      MultipleOfZero(n + 1);
    }
  }
}
