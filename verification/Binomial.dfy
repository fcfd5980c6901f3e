/** Binomial coefficients by Pascal's rule, with the identities the oracles rest on. */
module Binomial {
  import opened Arith
  import opened Units

  function Choose(n: nat, k: nat): (r: nat)
    decreases n
  {
    if k == 0 then 1 else if n == 0 then 0 else Choose(n - 1, k - 1) + Choose(n - 1, k)
  }

  lemma {:induction false} ChooseAbove(n: nat, k: nat)
    requires k > n
    ensures Choose(n, k) == 0
  {
    if n > 0 {
      ChooseAbove(n - 1, k - 1);
      ChooseAbove(n - 1, k);
    }
  }

  lemma {:induction false} ChooseAll(n: nat)
    ensures Choose(n, n) == 1
  {
    if n > 0 {
      ChooseAll(n - 1);
      ChooseAbove(n - 1, n);
    }
  }

  /** k * C(n, k) = n * C(n - 1, k - 1). */
  lemma {:induction false} Absorb(n: nat, k: nat)
    requires n > 0 && k > 0
    ensures k * Choose(n, k) == n * Choose(n - 1, k - 1)
  {
    var a, b := Choose(n - 1, k - 1), Choose(n - 1, k);
    if n == 1 {
      assert Choose(0, k - 1) == (if k == 1 then 1 else 0);
    } else {
      Absorb(n - 1, k);
      Distribute(k, a, b);
      if k > 1 {
        Absorb(n - 1, k - 1);
        var c, d := Choose(n - 2, k - 2), Choose(n - 2, k - 1);
        assert a == c + d && b == Choose(n - 2, k - 1) + Choose(n - 2, k);
        Distribute(n - 1, c, d);
        AbsorbStep(n, k, a, b, c, d);
      } else {
        assert a == 1 && Choose(n - 2, 0) == 1;
      }
    }
  }

  lemma AbsorbStep(n: int, k: int, a: int, b: int, c: int, d: int)
    requires a == c + d && (k - 1) * a == (n - 1) * c && k * b == (n - 1) * d
    ensures k * (a + b) == n * a
  {
    Distribute(k, a, b);
    Distribute(n - 1, c, d);
    DistributeSub(a, k, 1);
    DistributeSub(a, n, 1);
  }

  /** A prime divides its inner binomial coefficients. */
  lemma PrimeDividesChoose(p: nat, k: nat)
    requires Prime(p) && 0 < k < p
    ensures Cong(Choose(p, k), 0, p)
  {
    Absorb(p, k);
    CongFrom(k * Choose(p, k), 0, p, Choose(p - 1, k - 1));
    if Cong(k, 0, p) {
      CongSmallEqual(k, 0, p);
    }
    PrimeUnit(k, p);
    CoprimeCancel(k, Choose(p, k), p);
  }
}
