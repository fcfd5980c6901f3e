/**
 When the documented relation of the plaintext switch, c0_small + c1_small*s = m
 modulo t, holds: for one secret, and for every ternary secret at once. The
 second condition is read off the public components alone.
 */
module PublicSwitch {
  import opened Arith
  import opened Vectors
  import opened Negacyclic
  import opened CarryBridge
  import opened ClockworkBootstrap
  import Rns

  /** The documented relation at coefficient j: the switched phase is the rounded phase modulo t. */
  ghost predicate RelationHolds(c0: Poly, c1: Poly, s: Poly, q: int, t: int, j: nat)
    requires q > 0 && t > 0 && j < |c0| == |c1| == |s|
  {
    Cong(Affine(SwitchToPlaintext(c0, q, t), SwitchToPlaintext(c1, q, t), s)[j], Nearest(t * Affine(c0, c1, s)[j], q), t)
  }

  /** The largest residual any ternary secret can build up at coefficient j from the first m terms. */
  function Reach(r0: Poly, r1: Poly, j: nat, m: nat): int
    requires j < |r0| && m <= |r1|
  {
    Abs(r0[j]) + L1(r1[..m])
  }

  function Sign(x: int): int
  {
    if x < 0 then -1 else 1
  }

  /** The index of the first component that s[l] multiplies in coefficient j. */
  function Partner(n: nat, j: nat, l: nat): nat
    requires j < n && l < n
  {
    if l <= j then j - l else n + j - l
  }

  /**
   The worst secret for the first m terms: each entry carries the sign that
   moves the residual away from zero, negated where the product wraps.
   */
  function WorstSecret(r0: Poly, r1: Poly, j: nat, m: nat): (s: Poly)
    requires j < |r0| == |r1|
    ensures |s| == |r0| && Ternary(s)
  {
    var n := |r0|;
    seq(n, l requires 0 <= l < n =>
      var i := Partner(n, j, l);
      if i >= m then 0 else if l <= j then Sign(r0[j]) * Sign(r1[i]) else -(Sign(r0[j]) * Sign(r1[i])))
  }

  lemma {:induction false} L1Snoc(a: Poly, x: int)
    ensures L1(a + [x]) == L1(a) + Abs(x)
  {
    if |a| == 0 {
      assert a + [x] == [x] && [x][1..] == [];
    } else {
      assert (a + [x])[1..] == a[1..] + [x];
      L1Snoc(a[1..], x);
    }
  }

  lemma ReachStep(r0: Poly, r1: Poly, j: nat, m: nat)
    requires j < |r0| && m < |r1|
    ensures Reach(r0, r1, j, m + 1) == Reach(r0, r1, j, m) + Abs(r1[m])
  {
    assert r1[..m + 1] == r1[..m] + [r1[m]];
    L1Snoc(r1[..m], r1[m]);
  }

  /** One term of the worst secret's convolution. */
  lemma WorstTerm(r0: Poly, r1: Poly, j: nat, m: nat, i: nat)
    requires j < |r0| == |r1| && i < |r0|
    ensures var s := WorstSecret(r0, r1, j, m);
            var x := if i <= j then r1[i] * s[j - i] else r1[i] * -s[|r0| + j - i];
            x == if i < m then Sign(r0[j]) * Abs(r1[i]) else 0
  {
  }

  lemma {:induction false} WorstSum(r0: Poly, r1: Poly, j: nat, m: nat, k: nat)
    requires j < |r0| == |r1| && m <= |r0| && k <= |r0|
    ensures r0[j] + Convolve(r1, WorstSecret(r0, r1, j, m), j, k)
         == Sign(r0[j]) * Reach(r0, r1, j, if k < m then k else m)
  {
    if k == 0 {
      assert r1[..0] == [];
    } else {
      WorstSum(r0, r1, j, m, k - 1);
      WorstTerm(r0, r1, j, m, k - 1);
      if k <= m {
        ReachStep(r0, r1, j, k - 1);
        Distribute(Sign(r0[j]), Reach(r0, r1, j, k - 1), Abs(r1[k - 1]));
      }
    }
  }

  /** The first prefix whose reach leaves the rounding cell of zero. */
  lemma {:induction false} FirstCrossing(r0: Poly, r1: Poly, q: int, j: nat, m: nat) returns (k: nat)
    requires j < |r0| && m <= |r1|
    requires 2 * Abs(r0[j]) < q <= 2 * Reach(r0, r1, j, m)
    ensures 0 < k <= m && 2 * Reach(r0, r1, j, k - 1) < q <= 2 * Reach(r0, r1, j, k)
  {
    assert Reach(r0, r1, j, 0) == Abs(r0[j]) + L1([]) by {
      assert r1[..0] == [];
    }
    if 2 * Reach(r0, r1, j, m - 1) < q {
      k := m;
    } else {
      k := FirstCrossing(r0, r1, q, j, m - 1);
    }
  }

  lemma NearestSign(v: int, q: int)
    requires OracleModulus(q) && q <= 2 * v <= 2 * (q - 1)
    ensures Nearest(v, q) == 1 && Nearest(-v, q) == -1
  {
    NearestUnique(v, q, 1);
    NearestUnique(-v, q, -1);
  }

  /** A reach of half the modulus gives some ternary secret a carry of exactly one. */
  lemma SecretWithCarry(c0: Poly, c1: Poly, q: int, t: int, j: nat) returns (s: Poly)
    requires OracleModulus(q) && j < |c0| == |c1|
    requires q <= 2 * Reach(Residual(c0, q, t), Residual(c1, q, t), j, |c1|)
    ensures |s| == |c0| && Ternary(s) && Abs(SwitchCarry(c0, c1, s, q, t)[j]) == 1
  {
    var r0, r1, n := Residual(c0, q, t), Residual(c1, q, t), |c0|;
    ResidualSmall(c0, q, t);
    ResidualSmall(c1, q, t);
    assert 2 * Abs(r0[j]) <= q - 1;
    var k := FirstCrossing(r0, r1, q, j, n);
    s := WorstSecret(r0, r1, j, k);
    ReachStep(r0, r1, j, k - 1);
    assert 2 * Abs(r1[k - 1]) <= q - 1;
    WorstSum(r0, r1, j, k, n);
    MulIsConvolution(r1, s, j);
    NearestSign(Reach(r0, r1, j, k), q);
  }

  /** No ternary secret exceeds the reach of the whole second component. */
  lemma ReachBounds(r0: Poly, r1: Poly, s: Poly, j: nat)
    requires j < |r0| == |r1| == |s| && Ternary(s)
    ensures Abs(Affine(r0, r1, s)[j]) <= Reach(r0, r1, j, |r1|)
  {
    assert r1[..|r1|] == r1;
    MulBounded(r1, s, 1);
  }

  /** The carry vanishes exactly when the residual stays in the rounding cell of zero. */
  lemma ZeroCarry(v: int, q: int)
    requires OracleModulus(q)
    ensures Nearest(v, q) == 0 <==> 2 * Abs(v) < q
  {
    if 2 * Abs(v) < q {
      NearestUnique(v, q, 0);
    } else {
      NearestResidual(v, q);
    }
  }

  /**
   For every ciphertext: the documented relation holds at a coefficient under
   every ternary secret exactly when the rounding residuals of the components
   add up to less than half the modulus. (Modulo 1 every relation holds.)
   */
  lemma HoldsForEverySecret(c0: Poly, c1: Poly, q: int, t: int, j: nat)
    requires OracleModulus(q) && t > 0 && j < |c0| == |c1|
    ensures (forall s: Poly :: |s| == |c0| && Ternary(s) ==> RelationHolds(c0, c1, s, q, t, j))
       <==> t == 1 || 2 * (Abs(Residual(c0, q, t)[j]) + L1(Residual(c1, q, t))) < q
  {
    var r0, r1 := Residual(c0, q, t), Residual(c1, q, t);
    assert r1[..|c1|] == r1;
    if t > 1 && q <= 2 * Reach(r0, r1, j, |c1|) {
      var s := SecretWithCarry(c0, c1, q, t, j);
      SwitchedPhase(c0, c1, s, q, t, j);
      SmallCarry(SwitchCarry(c0, c1, s, q, t)[j], t);
      assert !RelationHolds(c0, c1, s, q, t, j);
    } else {
      forall s: Poly | |s| == |c0| && Ternary(s)
        ensures RelationHolds(c0, c1, s, q, t, j)
      {
        SwitchedPhase(c0, c1, s, q, t, j);
        ReachBounds(r0, r1, s, j);
        ZeroCarry(SwitchResidual(c0, c1, s, q, t)[j], q);
        CongMod(SwitchCarry(c0, c1, s, q, t)[j], 0, t);
      }
    }
  }

  /** A carry below t is divisible by t only if it is zero. */
  lemma SmallCarry(k: int, t: int)
    requires t > 0 && Abs(k) < t
    ensures Cong(k, 0, t) <==> k == 0
  {
    if Cong(k, 0, t) {
      CongSmallEqual(k, 0, t);
    }
  }

  /** Under a ternary secret the carry stays below every plaintext modulus above the degree. */
  lemma CarryBelow(c0: Poly, c1: Poly, s: Poly, q: int, t: int, j: nat)
    requires OracleModulus(q) && j < |c0| == |c1| == |s| < t && Ternary(s)
    ensures Abs(SwitchCarry(c0, c1, s, q, t)[j]) < t
  {
    var v, n := SwitchResidual(c0, c1, s, q, t)[j], |s|;
    SwitchResidualBounded(c0, c1, s, q, t);
    var k := Nearest(v, q);
    NearestResidual(v, q);
    AbsMul(q, k);
    Exchange(2, q, Abs(k));
    Distribute(n + 1, q, -1);
    Distribute(q, n + 1, 1);
    CancelLess(q, 2 * Abs(k), n + 2);
  }

  /**
   For one ternary secret and a plaintext modulus above the degree, the relation
   holds exactly when the residual the secret leaves is below half the modulus.
   */
  lemma HoldsForSecret(c0: Poly, c1: Poly, s: Poly, q: int, t: int, j: nat)
    requires OracleModulus(q) && j < |c0| == |c1| == |s| < t && Ternary(s)
    ensures RelationHolds(c0, c1, s, q, t, j) <==> 2 * Abs(SwitchResidual(c0, c1, s, q, t)[j]) < q
  {
    SwitchedPhase(c0, c1, s, q, t, j);
    CarryBelow(c0, c1, s, q, t, j);
    SmallCarry(SwitchCarry(c0, c1, s, q, t)[j], t);
    ZeroCarry(SwitchResidual(c0, c1, s, q, t)[j], q);
  }

  /**
   The bootstrap end to end: when the public components meet the residual condition, the
   lanes that the inner product returns for the switched pair decode under the new secret
   to the message of the exhausted ciphertext.
   */
  lemma BootstrapRecovers(c0: Poly, c1: Poly, s: Poly, q: int, t: int, j: nat, main0: seq<Poly>, main1: seq<Poly>,
                          s': Poly, primes: seq<int>, noise: Poly, v: int)
    requires OracleModulus(q) && t > 0 && j < |c0| == |c1| == |s| == |s'| == |noise| && Ternary(s)
    requires 2 * (Abs(Residual(c0, q, t)[j]) + L1(Residual(c1, q, t))) < q
    requires Rns.Positive(primes) && Rns.PairwiseCoprime(primes) && Rns.Prod(primes) > 0
    requires var w := Affine(SwitchToPlaintext(c0, q, t), SwitchToPlaintext(c1, q, t), s);
             && LanePhases(main0, main1, s', primes, Rns.Prod(primes) / t, w, noise)
             && (forall l :: 0 <= l < |primes| ==> Cong(v, Affine(main0[l], main1[l], s')[j], primes[l]))
             && 2 * Abs(Rns.DecodingNoise(w[j], noise[j], Rns.Prod(primes), t)) < Rns.Prod(primes)
    ensures Rns.DecodeBfv(v, Rns.Prod(primes), t) == Nearest(t * Affine(c0, c1, s)[j], q) % t
  {
    var w := Affine(SwitchToPlaintext(c0, q, t), SwitchToPlaintext(c1, q, t), s);
    LanesDecode(main0, main1, s', primes, t, w, noise, j, v);
    HoldsForEverySecret(c0, c1, q, t, j);
    assert RelationHolds(c0, c1, s, q, t, j);
    CongMod(w[j], Nearest(t * Affine(c0, c1, s)[j], q), t);
  }
}
