/**
 Detailed balance of the carry chain: the closed form of its two corner entries, the
 recurrence of the corner gap in the number of summands, and the theorem that the
 chain is reversible for at most three summands only.
 */
module CarryReversibility {
  import opened Arith
  import opened Binomial
  import opened Series
  import opened CarryChain

  // ------------------------------------------------------------------- closed form

  /** C(n + s - 1, s), and nothing for negative sums. */
  function Free(n: nat, s: int): nat
  {
    if s < 0 then 0 else Multiset(n, s)
  }

  lemma FreeStep(n: nat, s: int)
    ensures Free(n + 1, s) == Free(n + 1, s - 1) + Free(n, s)
  {
    if s > 0 {
      assert Choose(n + s, s) == Choose(n + s - 1, s - 1) + Choose(n + s - 1, s);
      if n == 0 {
        ChooseAbove(s - 1, s);
      }
    }
  }

  /** Inclusion and exclusion below two bases: at most one digit is too large. */
  lemma {:induction false} CountBelowTwo(n: nat, base: nat, s: int)
    requires base > 0 && s < 2 * base
    ensures Count(n, base, s) == Free(n, s) - n * Free(n, s - base)
    decreases n, s + 1
  {
    if s < 0 {
      CountOutside(n, base, s);
    } else if n > 0 {
      CountStep(n - 1, base, s);
      CountBelowTwo(n, base, s - 1);
      CountBelowTwo(n - 1, base, s);
      CountBelowTwo(n - 1, base, s - base);
      FreeStep(n - 1, s);
      FreeStep(n - 1, s - base);
      CollectFree(n, Free(n, s - 1 - base), Free(n - 1, s - base));
    }
  }

  lemma CollectFree(n: int, x: int, y: int)
    ensures n * x + (n - 1) * y + y == n * (x + y)
  {
    Distribute(n, x, y);
    DistributeSub(y, n, 1);
  }

  lemma {:induction false} ChooseSymmetric(a: nat, b: nat)
    ensures Choose(a + b, a) == Choose(a + b, b)
    decreases a + b
  {
    if a == 0 {
      ChooseAll(b);
    } else if b == 0 {
      ChooseAll(a);
    } else {
      ChooseSymmetric(a - 1, b);
      ChooseSymmetric(a, b - 1);
    }
  }

  // ----------------------------------------------------------------------- corners

  /** comb(2*base + n - 1, n) - (n + 1)*comb(base + n - 1, n) and comb(base + n - 2, n). */
  function CornerCounts(n: nat, base: nat): (int, int)
    requires n >= 2 && base >= 2
  {
    (Choose(2 * base + n - 1, n) - (n + 1) * Choose(base + n - 1, n), Choose(base + n - 2, n))
  }

  /** The two corner entries of the matrix are the closed forms. */
  lemma Corners(n: nat, base: nat)
    requires n >= 2 && base >= 2
    ensures Transition(n, base, 0, 1) == CornerCounts(n, base).0
    ensures Transition(n, base, 1, 0) == CornerCounts(n, base).1
  {
    TransitionIsCount(n, base, 0, 1);
    TransitionIsCount(n, base, 1, 0);
    CountBelowTwo(n + 1, base, 2 * base - 1);
    CountBelowTwo(n + 1, base, base - 2);
    ChooseSymmetric(n, 2 * base - 1);
    ChooseSymmetric(n, base - 1);
    ChooseSymmetric(n, base - 2);
  }

  lemma {:induction false} EulerianCorner(n: nat)
    requires n >= 1
    ensures Eulerian(n, 0) == 1 && Eulerian(n, 1) == Pow(2, n) - n - 1
  {
    if n == 1 {
      assert Eulerian(0, 0) == 1 && Eulerian(0, 1) == 0 && Eulerian(0, -1) == 0;
      assert Eulerian(1, 0) == 1 && Eulerian(1, 1) == 0;
      assert Pow(2, 1) == 2 * Pow(2, 0);
    } else {
      EulerianCorner(n - 1);
      assert Eulerian(n - 1, -1) == 0;
      assert Eulerian(n, 0) == 1 * Eulerian(n - 1, 0) + n * 0;
    }
  }

  function Gap(n: nat, base: nat): int
    requires n >= 2 && base >= 2
  {
    var (t01, t10) := CornerCounts(n, base);
    t01 - (Pow(2, n) - n - 1) * t10
  }

  /** The recurrence of the gap in n. */
  lemma GapRecurrence(n: nat, base: nat)
    requires n >= 2 && base >= 2
    ensures (n + 1) * -Gap(n + 1, base)
         == (2 * base + n) * -Gap(n, base) + (n - 2) * ((Pow(2, n) - n - 1) * Choose(base + n - 2, n))
  {
    var x, y, z: int := Choose(2 * base + n - 1, n), Choose(base + n - 1, n), Choose(base + n - 2, n);
    var x1, y1, z1: int := Choose(2 * base + n, n + 1), Choose(base + n, n + 1), Choose(base + n - 1, n + 1);
    Absorb(2 * base + n, n + 1);
    Absorb(base + n, n + 1);
    Absorb(base + n - 1, n + 1);
    NeighbourRatio(n, base);
    var e := Pow(2, n);
    assert Pow(2, n + 1) == 2 * e;
    assert Gap(n, base) == x - (n + 1) * y - (e - n - 1) * z;
    assert Gap(n + 1, base) == x1 - (n + 2) * y1 - (2 * e - n - 2) * z1;
    GapAlgebra(n, base, e, x, y, z, x1, y1, z1, Gap(n, base), Gap(n + 1, base));
  }

  /** (base - 1)*C(base + n - 1, n) = (base + n - 1)*C(base + n - 2, n). */
  lemma NeighbourRatio(n: nat, base: nat)
    requires n >= 1 && base >= 2
    ensures (base - 1) * Choose(base + n - 1, n) == (base + n - 1) * Choose(base + n - 2, n)
  {
    Absorb(base + n - 1, base - 1);
    ChooseSymmetric(base - 1, n);
    ChooseSymmetric(base - 2, n);
  }

  lemma GapAlgebra(n: int, b: int, e: int, x: int, y: int, z: int, x1: int, y1: int, z1: int, g: int, g1: int)
    requires (n + 1) * x1 == (2 * b + n) * x && (n + 1) * y1 == (b + n) * y && (n + 1) * z1 == (b + n - 1) * z
    requires (b - 1) * y == (b + n - 1) * z
    requires g == x - (n + 1) * y - (e - n - 1) * z
    requires g1 == x1 - (n + 2) * y1 - (2 * e - n - 2) * z1
    ensures (n + 1) * -g1 == (2 * b + n) * -g + (n - 2) * ((e - n - 1) * z)
  {
    var m := n + 1;
    assert m * g1 == (2 * b + n) * x - (n + 2) * ((b + n) * y) - (2 * e - n - 2) * ((b + n - 1) * z) by {
      DistributeSub(m, x1 - (n + 2) * y1, (2 * e - n - 2) * z1);
      DistributeSub(m, x1, (n + 2) * y1);
      Exchange(m, n + 2, y1);
      Exchange(m, 2 * e - n - 2, z1);
    }
    assert (2 * b + n) * g == (2 * b + n) * x - (2 * b + n) * (m * y) - (2 * b + n) * ((e - n - 1) * z) by {
      DistributeSub(2 * b + n, x - m * y, (e - n - 1) * z);
      DistributeSub(2 * b + n, x, m * y);
    }
    YTerms(n, b, y, z);
    ZTerms(n, b, e, z);
  }

  lemma YTerms(n: int, b: int, y: int, z: int)
    requires (b - 1) * y == (b + n - 1) * z
    ensures (2 * b + n) * ((n + 1) * y) - (n + 2) * ((b + n) * y) == n * ((b + n - 1) * z)
  {
    YCoefficient(n, b);
    var p, q := (2 * b + n) * (n + 1), (n + 2) * (b + n);
    Assoc(2 * b + n, n + 1, y);
    Assoc(n + 2, b + n, y);
    DistributeSub(y, p, q);
    Assoc(n, b - 1, y);
  }

  lemma YCoefficient(n: int, b: int)
    ensures (2 * b + n) * (n + 1) - (n + 2) * (b + n) == n * (b - 1)
  {
  }

  lemma ZTerms(n: int, b: int, e: int, z: int)
    ensures (2 * b + n) * ((e - n - 1) * z) - (2 * e - n - 2) * ((b + n - 1) * z) + n * ((b + n - 1) * z)
         == -((n - 2) * ((e - n - 1) * z))
  {
    ZCoefficient(n, b, e);
    var p, q, r, s := (2 * b + n) * (e - n - 1), (2 * e - n - 2) * (b + n - 1), n * (b + n - 1), (n - 2) * (e - n - 1);
    Assoc(2 * b + n, e - n - 1, z);
    Assoc(2 * e - n - 2, b + n - 1, z);
    Assoc(n, b + n - 1, z);
    Assoc(n - 2, e - n - 1, z);
    CommonFactor(p, q, r, s, z);
  }

  lemma CommonFactor(p: int, q: int, r: int, s: int, z: int)
    requires p - q + r == -s
    ensures p * z - q * z + r * z == -(s * z)
  {
    DistributeSub(z, p, q);
    Distribute(z, p - q, r);
    DistributeSub(z, 0, s);
  }

  lemma ZCoefficient(n: int, b: int, e: int)
    ensures (2 * b + n) * (e - n - 1) - (2 * e - n - 2) * (b + n - 1) + n * (b + n - 1) == -((n - 2) * (e - n - 1))
  {
  }

  lemma {:induction false} PowTwoLarge(n: nat)
    requires n >= 2
    ensures Pow(2, n) >= n + 2
  {
    if n == 2 {
      assert Pow(2, 2) == 2 * Pow(2, 1) && Pow(2, 1) == 2 * Pow(2, 0);
    } else {
      PowTwoLarge(n - 1);
    }
  }

  lemma {:induction false} ChoosePositive(n: nat, k: nat)
    requires k <= n
    ensures Choose(n, k) >= 1
  {
    if k > 0 {
      ChoosePositive(n - 1, k - 1);
    }
  }

  lemma GapTwo(base: nat)
    requires base >= 2
    ensures Gap(2, base) == 0
  {
    PairCount(2 * base + 1);
    PairCount(base + 1);
    PairCount(base);
    assert Pow(2, 2) == 2 * Pow(2, 1) && Pow(2, 1) == 2 * Pow(2, 0);
    PairGap(base, Choose(2 * base + 1, 2), Choose(base + 1, 2), Choose(base, 2));
  }

  lemma PairGap(b: int, x: int, y: int, z: int)
    requires 2 * x == (2 * b + 1) * (2 * b) && 2 * y == (b + 1) * b && 2 * z == b * (b - 1)
    ensures x - 3 * y - z == 0
  {
    Distribute(b, b, 1);
    DistributeSub(b, b, 1);
    Distribute(2 * b, 2 * b, 1);
    Assoc(2 * b, 2, b);
    Assoc(2, b, b);
  }

  /** 2*C(m, 2) = m*(m - 1). */
  lemma PairCount(m: nat)
    requires m >= 2
    ensures 2 * Choose(m, 2) == m * (m - 1)
  {
    Absorb(m, 2);
    Absorb(m - 1, 1);
    assert Choose(m - 2, 0) == 1;
  }

  /** The corner gap vanishes for two and three summands and is negative from four on. */
  lemma {:induction false} GapSign(n: nat, base: nat)
    requires n >= 2 && base >= 2
    ensures n <= 3 ==> Gap(n, base) == 0
    ensures n >= 4 ==> Gap(n, base) < 0
  {
    if n == 2 {
      GapTwo(base);
    } else {
      var m := n - 1;
      GapSign(m, base);
      GapRecurrence(m, base);
      PowTwoLarge(m);
      ChoosePositive(base + m - 2, m);
      SignStep(m, 2 * base + m, Gap(m, base), Gap(n, base), Pow(2, m) - m - 1, Choose(base + m - 2, m));
    }
  }

  lemma SignStep(m: int, c: int, g: int, g1: int, e: int, z: int)
    requires m >= 2 && c > 0 && g <= 0 && e >= 1 && z >= 1 && (m + 1) * -g1 == c * -g + (m - 2) * (e * z)
    ensures m == 2 && g == 0 ==> g1 == 0
    ensures m > 2 ==> g1 < 0
  {
    MulMono(0, -g, c);
    MulMono(1, e, z);
    if m == 2 {
      if g == 0 {
        SmallMultiple(3, g1);
      }
    } else {
      MulMono(1, m - 2, e * z);
      assert (m + 1) * -g1 == -((m + 1) * g1);
      if g1 >= 0 {
        MulMono(0, g1, m + 1);
      }
    }
  }

  // --------------------------------------------------------------- detailed balance

  /** The flow from i to j equals the flow from j to i under the Eulerian weights. */
  predicate Balanced(n: nat, base: nat, i: nat, j: nat)
  {
    Eulerian(n, i) * Transition(n, base, i, j) == Eulerian(n, j) * Transition(n, base, j, i)
  }

  /** Reversing the order of the carries leaves the matrix unchanged. */
  lemma TransitionSymmetric(n: nat, base: nat, i: nat, j: nat)
    requires base > 0 && i < n && j < n
    ensures Transition(n, base, i, j) == Transition(n, base, n - 1 - i, n - 1 - j)
  {
    TransitionIsCount(n, base, i, j);
    TransitionIsCount(n, base, n - 1 - i, n - 1 - j);
    var s, t := (j + 1) * base - 1 - i, (n - j) * base - 1 - (n - 1 - i);
    assert s + t == (n + 1) * (base - 1) by {
      Distribute(base, j + 1, n - j);
      DistributeSub(n + 1, base, 1);
    }
    assert n - 1 - j + 1 == n - j;
    CountSymmetric(n + 1, base, s, t);
  }

  lemma SmallRows()
    ensures Eulerian(2, 0) == 1 && Eulerian(2, 1) == 1
    ensures Eulerian(3, 0) == 1 && Eulerian(3, 1) == 4 && Eulerian(3, 2) == 1
  {
    EulerianCorner(1);
    EulerianCorner(2);
    EulerianCorner(3);
    EulerianAbove(2, 2);
    assert Pow(2, 3) == 2 * Pow(2, 2) && Pow(2, 2) == 2 * Pow(2, 1) && Pow(2, 1) == 2 * Pow(2, 0);
    assert Eulerian(3, 2) == 3 * Eulerian(2, 2) + 1 * Eulerian(2, 1);
  }

  /** The corner pair is balanced exactly when the gap vanishes. */
  lemma CornerBalance(n: nat, base: nat)
    requires n >= 2 && base >= 2
    ensures Balanced(n, base, 0, 1) <==> Gap(n, base) == 0
  {
    Corners(n, base);
    EulerianCorner(n);
  }

  lemma ThreeBalanced(base: nat, i: nat, j: nat)
    requires base >= 2 && i < 3 && j < 3
    ensures Balanced(3, base, i, j)
  {
    SmallRows();
    GapSign(3, base);
    CornerBalance(3, base);
    TransitionSymmetric(3, base, 0, 1);
    TransitionSymmetric(3, base, 1, 0);
    TransitionSymmetric(3, base, 0, 2);
  }

  /**
   The carry chain on n summands is reversible with respect to its Eulerian law if and
   only if n is at most three, whatever the base.
   */
  lemma ReversibleExactly(n: nat, base: nat)
    requires n >= 1 && base >= 2
    ensures (forall i: nat, j: nat :: i < n && j < n ==> Balanced(n, base, i, j)) <==> n <= 3
  {
    if n >= 4 {
      GapSign(n, base);
      CornerBalance(n, base);
      assert !Balanced(n, base, 0, 1);
    } else {
      forall i: nat, j: nat | i < n && j < n
        ensures Balanced(n, base, i, j)
      {
        if n == 2 {
          GapSign(2, base);
          CornerBalance(2, base);
        } else if n == 3 {
          ThreeBalanced(base, i, j);
        }
      }
    }
  }
}
