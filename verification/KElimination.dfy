/**
 Phase-1 K-elimination: the carry between the two ways of switching a
 ciphertext is recovered from residues modulo one small tray.
 */
module KElimination {
  import opened Arith
  import opened Units
  import opened Vectors
  import opened Negacyclic
  import opened NoiseOracle
  import opened CarryBridge
  import opened Wrappers

  /** The K of S = q*K + g, from residues of S and g modulo the tray. */
  function EliminateCarry(source: int, residue: int, q: int, tray: int): Option<int>
    requires tray > 0
  {
    match Inverse(q, tray)
    case None => None
    case Some(inverse) => Some(Centered((source - residue) * inverse, tray))
  }

  /**
   For a tray coprime to q the recovered value is the winding exactly when the
   winding lies in the centered range of the tray.
   */
  lemma EliminationExact(s: int, g: int, k: int, source: int, residue: int, q: int, tray: int)
    requires tray > 0 && Coprime(q, tray) && s == q * k + g
    requires Cong(source, s, tray) && Cong(residue, g, tray)
    ensures EliminateCarry(source, residue, q, tray).Some?
    ensures EliminateCarry(source, residue, q, tray).value == k <==> -tray < 2 * k <= tray
  {
    InverseCorrect(q, tray);
    var v := Inverse(q, tray).value;
    CongSub(source, s, residue, g, tray);
    CongMul(source - residue, q * k, v, v, tray);
    CongScale(k, q * v, 1, tray);
    assert (q * k) * v == k * (q * v) by {
      Assoc(k, q, v);
    }
    CenteredRange((source - residue) * v, tray);
    if -tray < 2 * k <= tray {
      CenteredUnique((source - residue) * v, tray, k);
    }
  }

  /**
   One full polynomial: separately rounded components, plus the carry recovered
   coefficientwise from residues in any tray wider than n and coprime to q, give
   the rounding of the combined centered phase modulo t.
   */
  method OnePolynomialCase(c0: Poly, c1: Poly, s: Poly, q: int, t: int, tray: int) returns (carry: Poly)
    requires OracleModulus(q) && t > 0 && |c0| == |c1| == |s| && |s| % 2 == 0 && Ternary(s)
    requires tray > |s| && Coprime(q, tray)
    ensures carry == SwitchCarry(c0, c1, s, q, t) && Bounded(carry, |s| / 2)
    ensures forall i :: 0 <= i < |s| ==>
              Cong(Affine(ScaleRound(c0, q, t), ScaleRound(c1, q, t), s)[i] + carry[i],
                   Nearest(t * Centered(Affine(c0, c1, s)[i], q), q), t)
  {
    var r0, r1 := Residual(c0, q, t), Residual(c1, q, t);
    var product := MulLoops(r1, s);
    var source := Add(r0, product);
    SwitchCarryBounded(c0, c1, s, q, t);
    carry := [];
    for i := 0 to |s|
      invariant |carry| == i
      invariant forall j :: 0 <= j < i ==> carry[j] == SwitchCarry(c0, c1, s, q, t)[j]
    {
      var g := source[i] - q * Nearest(source[i], q);
      ModCong(source[i], tray);
      ModCong(g, tray);
      EliminationExact(source[i], g, Nearest(source[i], q), source[i] % tray, g % tray, q, tray);
      assert Abs(SwitchCarry(c0, c1, s, q, t)[i]) <= |s| / 2;
      carry := carry + [EliminateCarry(source[i] % tray, g % tray, q, tray).value];
    }
    CombinedSwitch(c0, c1, s, carry, q, t);
  }

  lemma CombinedSwitch(c0: Poly, c1: Poly, s: Poly, carry: Poly, q: int, t: int)
    requires OracleModulus(q) && t > 0 && |c0| == |c1| == |s| && carry == SwitchCarry(c0, c1, s, q, t)
    ensures forall i :: 0 <= i < |s| ==>
              Cong(Affine(ScaleRound(c0, q, t), ScaleRound(c1, q, t), s)[i] + carry[i],
                   Nearest(t * Centered(Affine(c0, c1, s)[i], q), q), t)
  {
    var v, a := Affine(c0, c1, s), Affine(ScaleRound(c0, q, t), ScaleRound(c1, q, t), s);
    ComponentSwitch(c0, c1, s, q, t);
    forall i | 0 <= i < |s|
      ensures Cong(a[i] + carry[i], Nearest(t * Centered(v[i], q), q), t)
    {
      assert ScaleRound(v, q, t)[i] == Add(a, carry)[i];
      CenteredRange(v[i], q);
      var k := CongWitness(Centered(v[i], q), v[i], q);
      RepresentativeFree(v[i], k, q, t);
    }
  }
}
