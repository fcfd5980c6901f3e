/**
 The public bootstrap arithmetic: two-prime reconstruction, the switch of both
 components to the plaintext modulus, and the homomorphic inner product over
 RNS lanes.
 */
module ClockworkBootstrap {
  import opened Arith
  import opened Units
  import opened Vectors
  import opened Negacyclic
  import opened NoiseOracle
  import opened CarryBridge
  import Rns
  import opened Wrappers

  const U64 := 0x1_0000_0000_0000_0000
  const U128 := 0x1_0000_0000_0000_0000_0000_0000_0000_0000

  // ------------------------------------------------ two-prime reconstruction

  /** r0 + k*p0 with k = (r1 - r0)/p0 modulo p1; the subtraction never goes negative. */
  function CrtReconstruct2(r0: int, r1: int, p0: int, p1: int, inverse: int): int
    requires p0 > 0 && p1 > 0
  {
    var low := r0 % p1;
    var diff := if r1 >= low then r1 - low else p1 - (low - r1);
    r0 + diff * inverse % p1 * p0
  }

  /** The unique value below p0*p1 with the two residues. */
  lemma CrtReconstruct2Correct(r0: int, r1: int, p0: int, p1: int, inverse: int, x: int)
    requires 0 <= r0 < p0 && 0 <= r1 < p1 && ModInverse(p0, p1) == Some(inverse)
    requires 0 <= x < p0 * p1 && Cong(x, r0, p0) && Cong(x, r1, p1)
    ensures CrtReconstruct2(r0, r1, p0, p1, inverse) == x
  {
    var low := r0 % p1;
    var diff := if r1 >= low then r1 - low else p1 - (low - r1);
    var k := diff * inverse % p1;
    var y := r0 + k * p0;
    ModInverseCorrect(p0, p1);
    CongFrom(y, r0, p0, k);
    // p0*k = diff = r1 - r0 modulo p1
    ModCong(diff * inverse, p1);
    CongScale(p0, k, diff * inverse, p1);
    CongScale(diff, p0 * inverse, 1, p1);
    Exchange(p0, diff, inverse);
    ModCong(r0, p1);
    CongSub(r1, r1, low, r0, p1);
    CongFrom(diff, r1 - low, p1, if r1 >= low then 0 else 1);
    CongAdd(r0, r0, p0 * k, r1 - r0, p1);
    MulMono(k + 1, p1, p0);
    MulMono(0, k, p0);
    Distribute(p0, k, 1);
    CoprimeLift(y, x, p0, p1);
    CongSmallEqual(y, x, p0 * p1);
  }

  /** With 64-bit rows and primes no intermediate of the reconstruction leaves 128 bits. */
  lemma ReconstructionFits(r0: int, r1: int, p0: int, p1: int, inverse: int)
    requires 0 <= r0 < U64 && 0 <= r1 < U64 && 0 < p0 < U64 && 0 < p1 < U64 && 0 <= inverse < p1
    ensures var low := r0 % p1;
            var diff := if r1 >= low then r1 - low else p1 - (low - r1);
            && 0 <= diff * inverse < U128
            && 0 <= diff * inverse % p1 * p0 < U128
            && 0 <= CrtReconstruct2(r0, r1, p0, p1, inverse) < U128
  {
    var low := r0 % p1;
    var diff := if r1 >= low then r1 - low else p1 - (low - r1);
    var k := diff * inverse % p1;
    ProductFits(diff, inverse);
    MulMono(0, diff, inverse);
    MulMono(0, k, p0);
    MulMono(k, U64 - 2, p0);
    MulMono(p0, U64 - 1, U64 - 2);
  }

  // ------------------------------------------------- switch to the plaintext modulus

  /** (x*t + q/2)/q mod t for every coefficient. */
  function SwitchToPlaintext(c: Poly, q: int, t: int): (r: Poly)
    requires q > 0 && t > 0
    ensures |r| == |c|
  {
    seq(|c|, i requires 0 <= i < |c| => (c[i] * t + q / 2) / q % t)
  }

  /** The same quotient in 128-bit words, whose product and sum wrap around. */
  function SwitchWord(x: int, q: int, t: int): int
    requires q > 0 && t > 0
  {
    (x * t % U128 + q / 2) % U128 / q % t
  }

  /** The largest value that is not rounded up to q*t. */
  function LastBelow(q: int, t: int): int
    requires q > 0 && t > 0
  {
    (q * t - 1 - q / 2) / t
  }

  /** No product that decides a rounding leaves 128 bits. */
  predicate WordsFit(q: int, t: int)
    requires q > 0 && t > 0
  {
    LastBelow(q, t) * t + q / 2 < U128
  }

  lemma WordWraps(x: int, q: int, t: int)
    requires q > 0 && t > 0
    ensures SwitchWord(x, q, t) == (x * t + q / 2) % U128 / q % t
  {
    var y := x * t;
    CongMod(y % U128 + q / 2, y + q / 2, U128);
    ModCong(y, U128);
    CongAdd(y % U128, y, q / 2, q / 2, U128);
  }

  /** The value x0 = LastBelow is maximal: x0*t + q/2 < q*t <= (x0 + 1)*t + q/2. */
  lemma LastBelowMaximal(q: int, t: int)
    requires 0 < t <= q
    ensures 0 <= LastBelow(q, t) < q
    ensures LastBelow(q, t) * t + q / 2 < q * t <= LastBelow(q, t) * t + t + q / 2
  {
    var n := q * t - 1 - q / 2;
    var x := n / t;
    assert n == t * x + n % t;
    MulMono(1, t, q);
    DivNonNegative(n, t);
    CancelLess(t, x, q);
  }

  lemma ProductOrder(x: int, y: int, t: int)
    requires t > 0
    ensures x <= y ==> x * t <= y * t
    ensures x < y ==> x * t <= y * t - t
  {
    if x < y {
      MulMono(x + 1, y, t);
      Distribute(t, x, 1);
    }
  }

  /** A wrapped value past q*t rounds to t exactly and to 0 in words: both are 0 modulo t. */
  lemma LateWrap(y: int, top: int, q: int, t: int)
    requires 0 < t <= q < U128 && top == q * t && top <= y < top + q && U128 <= y < U128 + q
    ensures y / q % t == 0 && y % U128 / q % t == 0
  {
    DivModUnique(y, q, t, y - top);
    DivModUnique(t, t, 1, 0);
    WrapsToZero(y, q, t);
  }

  lemma WrapsToZero(y: int, q: int, t: int)
    requires 0 < t && 0 < q < U128 <= y < U128 + q
    ensures y % U128 / q % t == 0
  {
    var rest := y - U128;
    DivModUnique(y, U128, 1, rest);
    DivModUnique(rest, q, 0, rest);
    DivModUnique(0, t, 0, 0);
  }

  /** Below 128 bits the words are exact; a wrap is harmless past q*t. */
  lemma WordExactAt(x: int, q: int, t: int)
    requires 0 < t <= q < U128 && 0 <= x < q && WordsFit(q, t)
    ensures SwitchWord(x, q, t) == (x * t + q / 2) / q % t
  {
    var y, top := x * t + q / 2, q * t;
    WordWraps(x, q, t);
    LastBelowMaximal(q, t);
    ProductOrder(0, x, t);
    if y < U128 {
      DivModUnique(y, U128, 0, y);
    } else {
      ProductOrder(x, q, t);
      ProductOrder(x, LastBelow(q, t), t);
      ProductOrder(LastBelow(q, t), x, t);
      LateWrap(y, top, q, t);
    }
  }

  lemma EarlyWrap(y: int, q: int, t: int)
    requires 0 < t <= q < U128 <= y < U128 + t && y < q * t
    ensures y % U128 / q % t == 0 && y / q % t != 0
  {
    WrapsToZero(y, q, t);
    QuotientRange(y, q, t);
  }

  /** The least product past 128 bits wraps to a quotient of zero, while the exact one lies in 1..t-1. */
  lemma FirstWrap(q: int, t: int) returns (x: int)
    requires 0 < t <= q < U128 && !WordsFit(q, t)
    ensures 0 <= x < q && SwitchWord(x, q, t) != (x * t + q / 2) / q % t
  {
    var last, gap := LastBelow(q, t), U128 - q / 2;
    LastBelowMaximal(q, t);
    x := CeilDiv(gap, t);
    assert gap + t - 1 == x * t + (gap + t - 1) % t;
    DivNonNegative(gap + t - 1, t);
    ProductOrder(last, x, t);
    ProductOrder(x, last, t);
    WordWraps(x, q, t);
    EarlyWrap(x * t + q / 2, q, t);
  }

  lemma QuotientRange(y: int, q: int, t: int)
    requires q > 0 && q <= y < q * t
    ensures 1 <= y / q < t && y / q % t == y / q
  {
    var k := y / q;
    QuotientBetween(k, y % q, y, q, t);
    DivModUnique(k, t, 0, k);
  }

  lemma QuotientBetween(k: int, r: int, y: int, q: int, t: int)
    requires q > 0 && y == q * k + r && 0 <= r < q <= y < q * t
    ensures 1 <= k < t
  {
    CancelLess(q, k, t);
    CancelLess(q, 0, k);
  }

  /**
   The 128-bit arithmetic of the switch is exact on every canonical coefficient
   if and only if the last product below q*t fits.
   */
  lemma WordSwitchExact(q: int, t: int)
    requires 0 < t <= q < U128
    ensures (forall x :: 0 <= x < q ==> SwitchWord(x, q, t) == (x * t + q / 2) / q % t) <==> WordsFit(q, t)
  {
    if WordsFit(q, t) {
      forall x | 0 <= x < q
        ensures SwitchWord(x, q, t) == (x * t + q / 2) / q % t
      {
        WordExactAt(x, q, t);
      }
    } else {
      var x := FirstWrap(q, t);
    }
  }

  /**
   The two residue rows of a component, reconstructed and switched in 128-bit
   words; refused when fewer than two limbs are present or the first prime is
   not invertible. Rounded exactly whenever WordsFit.
   */
  method ModswitchToT(main: seq<Poly>, n: nat, p0: int, p1: int, t: int) returns (result: Result<Poly>)
    requires 0 < p0 < U64 && 0 < p1 < U64 && t > 0
    requires forall l :: 0 <= l < |main| ==> |main[l]| == n
    ensures result.Err? <==> |main| < 2 || !Coprime(p0, p1)
    ensures result.Ok? ==> |result.value| == n
    ensures forall c: Poly, i :: result.Ok? && |c| == n && Lanes(c, main, p0, p1) && 0 <= i < n ==>
              result.value[i] == SwitchWord(c[i], p0 * p1, t)
    ensures forall c: Poly :: result.Ok? && |c| == n && Lanes(c, main, p0, p1) && t <= p0 * p1 && WordsFit(p0 * p1, t) ==>
              result.value == SwitchToPlaintext(c, p0 * p1, t)
  {
    ModInverseCorrect(p0, p1);
    if |main| < 2 {
      return Err;
    }
    match ModInverse(p0, p1)
    case None =>
      return Err;
    case Some(inverse) =>
      ProductFits(p0, p1);
      MulMono(1, p0, p1);
      var q := p0 * p1;
      var small := Zero(n);
      for i := 0 to n
        invariant |small| == n
        invariant forall c: Poly, j :: |c| == n && Lanes(c, main, p0, p1) && 0 <= j < i ==>
                    small[j] == SwitchWord(c[j], q, t)
      {
        var x := CrtReconstruct2(main[0][i], main[1][i], p0, p1, inverse);
        small := small[i := SwitchWord(x, q, t)];
        forall c: Poly | |c| == n && Lanes(c, main, p0, p1)
          ensures small[i] == SwitchWord(c[i], q, t)
        {
          CrtReconstruct2Correct(main[0][i], main[1][i], p0, p1, inverse, c[i]);
        }
      }
      forall c: Poly | |c| == n && Lanes(c, main, p0, p1) && t <= q && WordsFit(q, t)
        ensures small == SwitchToPlaintext(c, q, t)
      {
        WordSwitchExact(q, t);
      }
      return Ok(small);
  }

  /** c has canonical coefficients below p0*p1, and the first two rows hold its residues. */
  ghost predicate Lanes(c: Poly, main: seq<Poly>, p0: int, p1: int)
    requires p0 > 0 && p1 > 0
  {
    |main| >= 2 && |main[0]| == |main[1]| == |c| &&
    forall i :: 0 <= i < |c| ==>
      && 0 <= c[i] < p0 * p1 && 0 <= main[0][i] < p0 && 0 <= main[1][i] < p1
      && Cong(c[i], main[0][i], p0) && Cong(c[i], main[1][i], p1)
  }

  /**
   What the switched components decrypt to: their phase under the secret is the
   rounded phase minus the switching carry, modulo t. The documented relation
   (that the phase is the rounded phase itself) therefore holds at a coefficient
   exactly when t divides the carry there.
   */
  lemma SwitchedPhase(c0: Poly, c1: Poly, s: Poly, q: int, t: int, j: nat)
    requires OracleModulus(q) && t > 0 && j < |c0| == |c1| == |s|
    ensures var phase := Affine(SwitchToPlaintext(c0, q, t), SwitchToPlaintext(c1, q, t), s)[j];
            var target := Nearest(t * Affine(c0, c1, s)[j], q);
            var carry := SwitchCarry(c0, c1, s, q, t)[j];
            && Cong(phase + carry, target, t)
            && (Cong(phase, target, t) <==> Cong(carry, 0, t))
  {
    var b0, b1 := SwitchToPlaintext(c0, q, t), SwitchToPlaintext(c1, q, t);
    var a0, a1 := ScaleRound(c0, q, t), ScaleRound(c1, q, t);
    ComponentSwitch(c0, c1, s, q, t);
    ReducedComponent(c0, q, t);
    ReducedComponent(c1, q, t);
    assert CongPoly(s, s, t);
    CongPolyMul(b1, a1, s, s, t);
    CongPolyAdd(b0, a0, Mul(b1, s), Mul(a1, s), t);
    var phase, carry := Affine(b0, b1, s)[j], SwitchCarry(c0, c1, s, q, t)[j];
    var affine := Affine(a0, a1, s)[j];
    assert ScaleRound(Affine(c0, c1, s), q, t)[j] == Add(Affine(a0, a1, s), SwitchCarry(c0, c1, s, q, t))[j];
    assert Cong(phase, affine, t);
    CongAdd(phase, affine, carry, carry, t);
    if Cong(phase, affine + carry, t) {
      CongSub(affine + carry, phase, affine, phase, t);
    }
    if Cong(carry, 0, t) {
      CongAdd(affine, affine, carry, 0, t);
    }
  }

  lemma ReducedComponent(c: Poly, q: int, t: int)
    requires q > 0 && t > 0
    ensures CongPoly(SwitchToPlaintext(c, q, t), ScaleRound(c, q, t), t)
  {
    forall i | 0 <= i < |c|
      ensures Cong(SwitchToPlaintext(c, q, t)[i], ScaleRound(c, q, t)[i], t)
    {
      assert c[i] * t == t * c[i];
      ModCong(Nearest(t * c[i], q), t);
    }
  }

  /**
   The documented relation fails: the rows of the pair (value, value) modulo 3
   and 5 encrypt 1 under the secret 1, but the switched pair has phase 0. The
   plaintext modulus 3 divides q = 15, the modulus 7 is coprime to it.
   */
  method DocumentedRelationFails(value: int, t: int) returns (b0: Result<Poly>, b1: Result<Poly>)
    requires (value == 2 && t == 3) || (value == 1 && t == 7)
    ensures Nearest(t * Affine([value], [value], [1])[0], 15) == 1
    ensures b0.Ok? && b1.Ok? && |b0.value| == |b1.value| == 1
    ensures Affine(b0.value, b1.value, [1])[0] == 0 && !Cong(Affine(b0.value, b1.value, [1])[0], 1, t)
  {
    var rows := [[value % 3], [value % 5]];
    SmallRows(value);
    b0 := ModswitchToT(rows, 1, 3, 5, t);
    b1 := ModswitchToT(rows, 1, 3, 5, t);
    SmallSwitch(value, t);
    ConstantPhase(value, value);
    assert [value][0] == value;
    assert b0.value[0] == SwitchWord(value, 3 * 5, t) && b1.value[0] == SwitchWord(value, 3 * 5, t);
    assert b0.value == [0] && b1.value == [0];
    ConstantPhase(0, 0);
    CongMod(0, 1, t);
  }

  lemma SmallSwitch(value: int, t: int)
    requires (value == 2 && t == 3) || (value == 1 && t == 7)
    ensures SwitchWord(value, 15, t) == 0 && Nearest(t * (value + value), 15) == 1
  {
    WordWraps(value, 15, t);
    DivModUnique(value * t + 7, U128, 0, value * t + 7);
  }

  /** Degree one: the phase under the secret 1 is the sum of the components. */
  lemma ConstantPhase(a: int, b: int)
    ensures Affine([a], [b], [1]) == [a + b]
  {
    MulIsConvolution([b], [1], 0);
    assert Convolve([b], [1], 0, 0) == 0;
  }

  lemma SmallRows(value: int)
    requires 0 <= value < 15
    ensures Lanes([value], [[value % 3], [value % 5]], 3, 5) && Coprime(3, 5)
  {
    ModCong(value, 3);
    ModCong(value, 5);
    assert Bezout(3, 5, 2, -1);
  }

  // ------------------------------------------------------- homomorphic inner product

  /** The lane of the scale when the product of the primes leaves 128 bits: others * p * t^-1. */
  function OverflowDelta(others: int, p: int, tInverse: int): int
    requires p > 0 && p * p > 0
  {
    others * p % (p * p) * tInverse % U128 % p
  }

  /** That branch loses the scale: for 32-bit primes it is zero in every lane. */
  lemma OverflowDeltaVanishes(others: int, p: int, tInverse: int)
    requires 0 < p < 0x1_0000_0000 && p * p > 0 && 0 <= others < p && 0 <= tInverse < p
    ensures OverflowDelta(others, p, tInverse) == 0
  {
    MulMono(others + 1, p, p);
    Distribute(p, others, 1);
    MulMono(0, others, p);
    DivModUnique(others * p, p * p, 0, others * p);
    ProductFits(others * p, tInverse) by {
      MulMono(p, 0x1_0000_0000, p);
      MulMono(p, 0x1_0000_0000, 0x1_0000_0000);
    }
    MulNonNegative(others * p, tInverse);
    var x := others * p * tInverse;
    DivModUnique(x, U128, 0, x);
    Exchange(others, p, tInverse);
    Assoc(others, p, tInverse);
    DivModUnique(x, p, others * tInverse, 0);
  }

  /** The checked product of the primes, absent when it leaves 128 bits. */
  method CheckedProduct(primes: seq<int>) returns (product: Option<int>)
    requires Rns.Positive(primes)
    ensures product.Some? <==> Rns.Prod(primes) < U128
    ensures product.Some? ==> product.value == Rns.Prod(primes)
  {
    var m := 1;
    Rns.ProdSnoc([], 1);
    for i := 0 to |primes|
      invariant m == Rns.Prod(primes[..i]) && 0 < m < U128
    {
      assert primes[..i + 1] == primes[..i] + [primes[i]];
      Rns.ProdSnoc(primes[..i], primes[i]);
      MulMono(1, primes[i], m);
      if m * primes[i] >= U128 {
        PrefixAtMost(primes, i + 1);
        return None;
      }
      m := m * primes[i];
    }
    assert primes[..|primes|] == primes;
    return Some(m);
  }

  lemma {:induction false} PrefixAtMost(primes: seq<int>, k: nat)
    requires Rns.Positive(primes) && k <= |primes|
    ensures Rns.Prod(primes[..k]) <= Rns.Prod(primes)
    decreases |primes|
  {
    if k < |primes| {
      var last := |primes| - 1;
      var rest := primes[..last];
      PrefixAtMost(rest, k);
      assert rest[..k] == primes[..k];
      assert primes == rest + [primes[last]];
      Rns.ProdSnoc(rest, primes[last]);
      Rns.ProdPositive(rest);
      MulMono(1, primes[last], Rns.Prod(rest));
    } else {
      assert primes[..k] == primes;
    }
  }

  /** The product of all the other primes, reduced at every step. */
  method OtherPrimes(primes: seq<int>, lane: nat) returns (others: int)
    requires Rns.Positive(primes) && lane < |primes| && primes[lane] > 1
    ensures 0 <= others < primes[lane]
  {
    others := 1;
    for j := 0 to |primes|
      invariant 0 <= others < primes[lane]
    {
      if j != lane {
        others := others * (primes[j] % primes[lane]) % primes[lane];
      }
    }
  }

  /**
   The scale modulo each prime: floor(Q/t) when the product Q fits 128 bits. Beyond 128
   bits the branch that the original calls approximate leaves nothing but zeros.
   */
  method ComputeDelta(primes: seq<int>, t: int) returns (delta: seq<int>)
    requires t > 0 && Rns.Positive(primes) && DeltaDomain(primes)
    ensures |delta| == |primes| && forall l :: 0 <= l < |primes| ==> 0 <= delta[l] < primes[l]
    ensures Rns.Prod(primes) < U128 ==> forall l :: 0 <= l < |primes| ==> Cong(delta[l], Rns.Prod(primes) / t, primes[l])
    ensures Rns.Prod(primes) >= U128 ==> forall l :: 0 <= l < |primes| ==> delta[l] == 0
  {
    var product := CheckedProduct(primes);
    delta := [];
    if product.None? {
      for l := 0 to |primes|
        invariant |delta| == l && forall i :: 0 <= i < l ==> delta[i] == 0
      {
        var others := OtherPrimes(primes, l);
        var d := OverflowLane(others, t, primes[l]);
        delta := delta + [d];
      }
      return;
    }
    var scale := product.value / t;
    for l := 0 to |primes|
      invariant |delta| == l
      invariant forall i :: 0 <= i < l ==> 0 <= delta[i] < primes[i] && Cong(delta[i], scale, primes[i])
    {
      ModCong(scale, primes[l]);
      delta := delta + [scale % primes[l]];
    }
  }

  /** One lane of the overflow branch, with 0 for a missing inverse. */
  method OverflowLane(others: int, t: int, p: int) returns (d: int)
    requires 1 < p < 0x1_0000_0000 && 0 <= others < p && t > 0
    ensures d == 0
  {
    ModInverseCorrect(t, p);
    var inverse := ModInverse(t, p);
    var tInverse := if inverse.Some? then inverse.value else 0;
    MulMono(1, p, p);
    OverflowDeltaVanishes(others, p, tInverse);
    d := OverflowDelta(others, p, tInverse);
  }

  /** Beyond 128 bits the primes are at most 32 bits wide, as the original's are. */
  ghost predicate DeltaDomain(primes: seq<int>)
    requires Rns.Positive(primes)
  {
    Rns.Prod(primes) >= U128 ==> forall l :: 0 <= l < |primes| ==> 1 < primes[l] < 0x1_0000_0000
  }

  /** One lane of a public polynomial times a ciphertext component: the wrap-and-negate loops. */
  method LaneProduct(c1: Poly, key: Poly, p: int) returns (out: Poly)
    requires |c1| == |key| && 0 < p < U64
    requires forall i :: 0 <= i < |c1| ==> 0 <= c1[i] < U64 && 0 <= key[i] < U64
    ensures CongPoly(out, Mul(c1, key), p)
    ensures forall j :: 0 <= j < |out| ==> 0 <= out[j] < p
  {
    var n := |c1|;
    out := Zero(n);
    for j := 0 to n
      invariant |out| == n
      invariant forall i :: 0 <= i < j ==> 0 <= out[i] < p && Cong(out[i], Mul(c1, key)[i], p)
      invariant forall i :: j <= i < n ==> out[i] == 0
    {
      var sum := 0;
      for k := 0 to n
        invariant 0 <= sum < p && Cong(sum, Convolve(c1, key, j, k), p)
      {
        var idx, neg := if k <= j then j - k else n + j - k, k > j;
        var coeff := c1[k] % p;
        ProductFits(key[idx], coeff);
        assert key[idx] * coeff < U128;
        var prod := key[idx] * coeff % p;
        LaneTerm(c1[k], key[idx], p);
        if neg {
          SubtractTerm(sum, Convolve(c1, key, j, k), prod, c1[k], key[idx], p);
          sum := (sum + p - prod) % p;
        } else {
          AddTerm(sum, Convolve(c1, key, j, k), prod, c1[k], key[idx], p);
          sum := (sum + prod) % p;
        }
      }
      MulIsConvolution(c1, key, j);
      out := out[j := sum];
    }
  }

  /** Two 64-bit factors never overflow the 128-bit accumulator. */
  lemma ProductFits(a: int, b: int)
    requires 0 <= a < U64 && 0 <= b < U64
    ensures a * b < U128
  {
    MulMono(a, U64 - 1, b);
    MulMono(b, U64 - 1, U64 - 1);
  }

  lemma LaneTerm(a: int, b: int, p: int)
    requires p > 0
    ensures Cong(b * (a % p) % p, a * b, p) && 0 <= b * (a % p) % p < p
  {
    ModCong(a, p);
    ModCong(b * (a % p), p);
    CongScale(b, a % p, a, p);
  }

  lemma AddTerm(sum: int, total: int, prod: int, a: int, b: int, p: int)
    requires p > 0 && Cong(sum, total, p) && Cong(prod, a * b, p)
    ensures Cong((sum + prod) % p, total + a * b, p)
  {
    ModCong(sum + prod, p);
    CongAdd(sum, total, prod, a * b, p);
  }

  lemma SubtractTerm(sum: int, total: int, prod: int, a: int, b: int, p: int)
    requires p > 0 && Cong(sum, total, p) && Cong(prod, a * b, p)
    ensures Cong((sum + p - prod) % p, total + a * -b, p)
  {
    ModCong(sum + p - prod, p);
    CongSub(sum, total, prod, a * b, p);
    CongFrom(sum + p - prod, sum - prod, p, 1);
  }

  /** One RNS lane of the inner product: delta*c0 + c1*b0 and c1*b1. */
  method InnerProductLane(c0: Poly, c1: Poly, b0: Poly, b1: Poly, delta: int, p: int) returns (r0: Poly, r1: Poly)
    requires |c0| == |c1| == |b0| == |b1| && 0 < p < U64 && 0 <= delta < p
    requires forall i :: 0 <= i < |c1| ==>
               0 <= c0[i] < U64 && 0 <= c1[i] < U64 && 0 <= b0[i] < U64 && 0 <= b1[i] < U64
    ensures CongPoly(r0, Add(Scale(delta, c0), Mul(c1, b0)), p) && CongPoly(r1, Mul(c1, b1), p)
    ensures forall j :: 0 <= j < |r0| ==> 0 <= r0[j] < p && 0 <= r1[j] < p
  {
    var n := |c0|;
    var product := LaneProduct(c1, b0, p);
    r1 := LaneProduct(c1, b1, p);
    r0 := Zero(n);
    for j := 0 to n
      invariant |r0| == n
      invariant forall i :: 0 <= i < j ==> 0 <= r0[i] < p && Cong(r0[i], delta * c0[i] + Mul(c1, b0)[i], p)
    {
      ProductFits(delta, c0[j]);
      var trivial := delta * c0[j] % p;
      ModCong(delta * c0[j], p);
      ModCong(trivial + product[j], p);
      CongAdd(trivial, delta * c0[j], product[j], Mul(c1, b0)[j], p);
      r0 := r0[j := (trivial + product[j]) % p];
    }
  }

  /**
   The lane phase: for any key pair with b0 + b1*s' = delta*s + e modulo p, the
   returned pair has phase delta*(c0 + c1*s) + c1*e under s'.
   */
  lemma InnerProductPhase(c0: Poly, c1: Poly, b0: Poly, b1: Poly, r0: Poly, r1: Poly, s: Poly, s': Poly, e: Poly, delta: int, p: int)
    requires p > 0 && |c0| == |c1| == |b0| == |b1| == |r0| == |r1| == |s| == |s'| == |e|
    requires CongPoly(r0, Add(Scale(delta, c0), Mul(c1, b0)), p) && CongPoly(r1, Mul(c1, b1), p)
    requires CongPoly(Affine(b0, b1, s'), Add(Scale(delta, s), e), p)
    ensures CongPoly(Affine(r0, r1, s'), Add(Scale(delta, Affine(c0, c1, s)), Mul(c1, e)), p)
  {
    var key, target := Affine(b0, b1, s'), Add(Scale(delta, s), e);
    assert CongPoly(s', s', p) && CongPoly(c1, c1, p) && CongPoly(Scale(delta, c0), Scale(delta, c0), p);
    CongPolyMul(r1, Mul(c1, b1), s', s', p);
    CongPolyAdd(r0, Add(Scale(delta, c0), Mul(c1, b0)), Mul(r1, s'), Mul(Mul(c1, b1), s'), p);
    MulAssoc(c1, b1, s');
    MulAddRight(c1, b0, Mul(b1, s'));
    AddAssoc(Scale(delta, c0), Mul(c1, b0), Mul(c1, Mul(b1, s')));
    CongPolyMul(c1, c1, key, target, p);
    CongPolyAdd(Scale(delta, c0), Scale(delta, c0), Mul(c1, key), Mul(c1, target), p);
    MulAddRight(c1, Scale(delta, s), e);
    MulScaleRight(c1, delta, s);
    AddAssoc(Scale(delta, c0), Scale(delta, Mul(c1, s)), Mul(c1, e));
    ScaleAdd(delta, c0, Mul(c1, s));
    CongPolyTrans(Affine(r0, r1, s'), Add(Scale(delta, c0), Mul(c1, key)), Add(Scale(delta, c0), Mul(c1, target)), p);
  }

  /** A scale that is congruent in the lane gives the same key relation. */
  lemma LaneScale(x: int, y: int, s: Poly, e: Poly, p: int)
    requires p > 0 && Cong(x, y, p) && |s| == |e|
    ensures CongPoly(Add(Scale(x, s), e), Add(Scale(y, s), e), p)
  {
    forall i | 0 <= i < |s|
      ensures Cong(x * s[i] + e[i], y * s[i] + e[i], p)
    {
      CongMul(x, y, s[i], s[i], p);
      CongAdd(x * s[i], y * s[i], e[i], e[i], p);
    }
  }

  /** Lane l of a pair has phase floor(Q/t)*w + noise under s'. */
  ghost predicate LanePhases(main0: seq<Poly>, main1: seq<Poly>, s': Poly, primes: seq<int>, scale: int, w: Poly, noise: Poly)
    requires Rns.Positive(primes) && |w| == |noise|
  {
    && |main0| == |main1| == |primes|
    && forall l :: 0 <= l < |primes| ==>
         && |main0[l]| == |main1[l]| == |s'|
         && CongPoly(Affine(main0[l], main1[l], s'), Add(Scale(scale, w), noise), primes[l])
  }

  /**
   What the lanes decrypt to: any integer with the lane phases of coefficient j decodes
   to w[j] modulo t while the noise is below the decoding threshold.
   */
  lemma LanesDecode(main0: seq<Poly>, main1: seq<Poly>, s': Poly, primes: seq<int>, t: int, w: Poly, noise: Poly, j: nat, v: int)
    requires t > 0 && Rns.Positive(primes) && Rns.PairwiseCoprime(primes) && Rns.Prod(primes) > 0
    requires |w| == |noise| == |s'| && j < |w|
    requires LanePhases(main0, main1, s', primes, Rns.Prod(primes) / t, w, noise)
    requires forall l :: 0 <= l < |primes| ==> Cong(v, Affine(main0[l], main1[l], s')[j], primes[l])
    requires 2 * Abs(Rns.DecodingNoise(w[j], noise[j], Rns.Prod(primes), t)) < Rns.Prod(primes)
    ensures Rns.DecodeBfv(v, Rns.Prod(primes), t) == w[j] % t
  {
    var q := Rns.Prod(primes);
    var target := q / t * w[j] + noise[j];
    forall l | 0 <= l < |primes|
      ensures Cong(v, target, primes[l])
    {
      assert Cong(Affine(main0[l], main1[l], s')[j], Add(Scale(q / t, w), noise)[j], primes[l]);
    }
    Rns.LanesToProduct(v, target, primes);
    Rns.DecodeCorrect(v, q, t, w[j], noise[j]);
  }

  /** What the lanes of the scale stand for. */
  ghost function EffectiveScale(primes: seq<int>, t: int): int
    requires t > 0
  {
    if Rns.Prod(primes) < U128 then Rns.Prod(primes) / t else 0
  }

  lemma DeltaScale(primes: seq<int>, t: int, delta: seq<int>)
    requires t > 0 && Rns.Positive(primes) && |delta| == |primes|
    requires Rns.Prod(primes) < U128 ==> forall l :: 0 <= l < |primes| ==> Cong(delta[l], Rns.Prod(primes) / t, primes[l])
    requires Rns.Prod(primes) >= U128 ==> forall l :: 0 <= l < |primes| ==> delta[l] == 0
    ensures forall l :: 0 <= l < |primes| ==> Cong(delta[l], EffectiveScale(primes, t), primes[l])
  {
  }

  /**
   The homomorphic inner product, for any key pair of phase scale*s + e under s' with the
   scale that the lanes stand for. While the product Q of the primes fits 128 bits, that
   scale is floor(Q/t): every lane carries floor(Q/t)*(c0 + c1*s) + c1*e, and the pair
   decodes under s' to c0 + c1*s modulo t as long as c1*e stays below the threshold.
   Beyond 128 bits the scale is 0 and the message is lost: every lane carries c1*e alone.
   */
  method HomomorphicInnerProduct(c0: Poly, c1: Poly, k0: seq<Poly>, k1: seq<Poly>, primes: seq<int>, t: int,
                                 ghost s: Poly, ghost s': Poly, ghost e: Poly)
    returns (main0: seq<Poly>, main1: seq<Poly>)
    requires t > 0 && |k0| == |k1| == |primes| && |c0| == |c1| == |s| == |s'| == |e|
    requires forall l :: 0 <= l < |primes| ==> 0 < primes[l] < U64 && |k0[l]| == |k1[l]| == |c0|
    requires DeltaDomain(primes)
    requires forall i :: 0 <= i < |c0| ==> 0 <= c0[i] < U64 && 0 <= c1[i] < U64
    requires forall l, i :: 0 <= l < |primes| && 0 <= i < |c0| ==> 0 <= k0[l][i] < U64 && 0 <= k1[l][i] < U64
    requires forall l :: 0 <= l < |primes| ==>
               CongPoly(Affine(k0[l], k1[l], s'), Add(Scale(EffectiveScale(primes, t), s), e), primes[l])
    ensures Rns.Prod(primes) > 0
    ensures Rns.Prod(primes) < U128 ==> LanePhases(main0, main1, s', primes, Rns.Prod(primes) / t, Affine(c0, c1, s), Mul(c1, e))
    ensures Rns.Prod(primes) >= U128 ==> LanePhases(main0, main1, s', primes, 0, Affine(c0, c1, s), Mul(c1, e))
    ensures Rns.Prod(primes) < U128 && Rns.PairwiseCoprime(primes) ==>
              forall j, v :: 0 <= j < |c0|
                && (forall l :: 0 <= l < |primes| ==> Cong(v, Affine(main0[l], main1[l], s')[j], primes[l]))
                && 2 * Abs(Rns.DecodingNoise(Affine(c0, c1, s)[j], Mul(c1, e)[j], Rns.Prod(primes), t)) < Rns.Prod(primes)
                ==> Rns.DecodeBfv(v, Rns.Prod(primes), t) == Affine(c0, c1, s)[j] % t
  {
    Rns.ProdPositive(primes);
    ghost var w, noise := Affine(c0, c1, s), Mul(c1, e);
    var delta := ComputeDelta(primes, t);
    DeltaScale(primes, t, delta);
    main0, main1 := InnerProductLanes(c0, c1, k0, k1, primes, delta, s, s', e, EffectiveScale(primes, t));
    if Rns.Prod(primes) < U128 && Rns.PairwiseCoprime(primes) {
      forall j, v | 0 <= j < |c0|
          && (forall l :: 0 <= l < |primes| ==> Cong(v, Affine(main0[l], main1[l], s')[j], primes[l]))
          && 2 * Abs(Rns.DecodingNoise(w[j], noise[j], Rns.Prod(primes), t)) < Rns.Prod(primes)
        ensures Rns.DecodeBfv(v, Rns.Prod(primes), t) == w[j] % t
      {
        LanesDecode(main0, main1, s', primes, t, w, noise, j, v);
      }
    }
  }

  /** The lanes one after the other, for any scale with the given residues. */
  method InnerProductLanes(c0: Poly, c1: Poly, k0: seq<Poly>, k1: seq<Poly>, primes: seq<int>, delta: seq<int>,
                           ghost s: Poly, ghost s': Poly, ghost e: Poly, ghost scale: int)
    returns (main0: seq<Poly>, main1: seq<Poly>)
    requires |k0| == |k1| == |primes| == |delta| && |c0| == |c1| == |s| == |s'| == |e|
    requires forall l :: 0 <= l < |primes| ==> 0 < primes[l] < U64 && |k0[l]| == |k1[l]| == |c0|
    requires forall l :: 0 <= l < |primes| ==> 0 <= delta[l] < primes[l] && Cong(delta[l], scale, primes[l])
    requires forall i :: 0 <= i < |c0| ==> 0 <= c0[i] < U64 && 0 <= c1[i] < U64
    requires forall l, i :: 0 <= l < |primes| && 0 <= i < |c0| ==> 0 <= k0[l][i] < U64 && 0 <= k1[l][i] < U64
    requires forall l :: 0 <= l < |primes| ==> CongPoly(Affine(k0[l], k1[l], s'), Add(Scale(scale, s), e), primes[l])
    ensures LanePhases(main0, main1, s', primes, scale, Affine(c0, c1, s), Mul(c1, e))
  {
    ghost var w, noise := Affine(c0, c1, s), Mul(c1, e);
    main0, main1 := [], [];
    for l := 0 to |primes|
      invariant LanePhases(main0, main1, s', primes[..l], scale, w, noise)
    {
      ghost var p := primes[l];
      LaneScale(scale, delta[l], s, e, p);
      CongPolyTrans(Affine(k0[l], k1[l], s'), Add(Scale(scale, s), e), Add(Scale(delta[l], s), e), p);
      var r0, r1 := InnerProductLane(c0, c1, k0[l], k1[l], delta[l], primes[l]);
      InnerProductPhase(c0, c1, k0[l], k1[l], r0, r1, s, s', e, delta[l], p);
      LaneScale(delta[l], scale, w, noise, p);
      CongPolyTrans(Affine(r0, r1, s'), Add(Scale(delta[l], w), noise), Add(Scale(scale, w), noise), p);
      main0, main1 := main0 + [r0], main1 + [r1];
    }
    assert primes[..|primes|] == primes;
  }
}
