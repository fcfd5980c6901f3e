/**
 Residue number systems over a list of pairwise coprime moduli: direct CRT
 reconstruction, the signed value recovered with an anchor basis, the decoding of a
 ciphertext coefficient from its lanes, and exact rounded division lane by lane.
 */
module Rns {
  import opened Arith
  import opened Units
  import opened Vectors
  import opened Negacyclic
  import opened Wrappers

  predicate Positive(ms: seq<int>)
  {
    forall i :: 0 <= i < |ms| ==> ms[i] > 0
  }

  ghost predicate IsProd(ms: seq<int>, r: int)
  {
    forall t {:trigger Unfold(t)} :: Unfold(t) ==> r == ListProduct(ms)
  }

  /** The product of the moduli; unfolded by ProdSplit. */
  ghost function Prod(ms: seq<int>): int
  {
    assert IsProd(ms, ListProduct(ms));
    var r :| IsProd(ms, r);
    r
  }

  lemma ProdSnoc(ms: seq<int>, m: int)
    ensures Prod(ms + [m]) == Prod(ms) * m
    ensures Prod([]) == 1
  {
    assert Unfold(0);
    assert (ms + [m])[..|ms|] == ms;
  }

  lemma {:induction false} ProdPositive(ms: seq<int>)
    requires Positive(ms)
    ensures Prod(ms) > 0
  {
    if |ms| == 0 {
      ProdSnoc([], 1);
    } else {
      var last := |ms| - 1;
      assert ms == ms[..last] + [ms[last]];
      ProdPositive(ms[..last]);
      ProdSnoc(ms[..last], ms[last]);
      MulMono(1, ms[last], Prod(ms[..last]));
    }
  }

  method Product(ms: seq<int>) returns (m: int)
    ensures m == Prod(ms)
  {
    ProdSnoc([], 1);
    m := 1;
    for i := 0 to |ms|
      invariant m == Prod(ms[..i])
    {
      assert ms[..i + 1] == ms[..i] + [ms[i]];
      ProdSnoc(ms[..i], ms[i]);
      m := m * ms[i];
    }
    assert ms[..|ms|] == ms;
  }

  /** Every modulus but the one at i. */
  function Others(ms: seq<int>, i: nat): seq<int>
    requires i < |ms|
  {
    ms[..i] + ms[i + 1..]
  }

  lemma {:induction false} ProdOthers(ms: seq<int>, i: nat)
    requires i < |ms|
    ensures Prod(ms) == ms[i] * Prod(Others(ms, i))
    decreases |ms|
  {
    var last := |ms| - 1;
    assert ms == ms[..last] + [ms[last]];
    ProdSnoc(ms[..last], ms[last]);
    if i < last {
      ProdOthers(ms[..last], i);
      assert Others(ms, i) == Others(ms[..last], i) + [ms[last]];
      ProdSnoc(Others(ms[..last], i), ms[last]);
      Assoc(ms[i], Prod(Others(ms[..last], i)), ms[last]);
    } else {
      assert Others(ms, i) == ms[..last];
    }
  }

  ghost predicate PairwiseCoprime(ms: seq<int>)
  {
    forall i, j :: 0 <= i < j < |ms| ==> Coprime(ms[i], ms[j])
  }

  /** m is coprime to the product when it is coprime to every factor, and conversely. */
  lemma {:induction false} CoprimeProd(ms: seq<int>, m: int)
    ensures Coprime(Prod(ms), m) <==> forall i :: 0 <= i < |ms| ==> Coprime(ms[i], m)
  {
    if |ms| == 0 {
      ProdSnoc([], 1);
      assert Bezout(1, m, 1, 0);
    } else {
      var last := |ms| - 1;
      assert ms == ms[..last] + [ms[last]];
      CoprimeProd(ms[..last], m);
      ProdSnoc(ms[..last], ms[last]);
      if Coprime(Prod(ms), m) {
        CoprimeFactor(Prod(ms[..last]), ms[last], m);
      } else if Coprime(Prod(ms[..last]), m) && Coprime(ms[last], m) {
        CoprimeMul(Prod(ms[..last]), ms[last], m);
      }
    }
  }

  lemma CoprimeFactor(a: int, b: int, m: int)
    requires Coprime(a * b, m)
    ensures Coprime(a, m) && Coprime(b, m)
  {
    var x, y :| Bezout(a * b, m, x, y);
    Assoc(a, b, x);
    Exchange(a, b, x);
    assert Bezout(a, m, b * x, y);
    assert Bezout(b, m, a * x, y);
  }

  /** Pairwise coprimality says that each modulus is coprime to the product of the others. */
  lemma OthersCoprime(ms: seq<int>)
    ensures PairwiseCoprime(ms) <==> forall i :: 0 <= i < |ms| ==> Coprime(Prod(Others(ms, i)), ms[i])
  {
    if PairwiseCoprime(ms) {
      forall i | 0 <= i < |ms|
        ensures Coprime(Prod(Others(ms, i)), ms[i])
      {
        var o := Others(ms, i);
        forall k | 0 <= k < |o|
          ensures Coprime(o[k], ms[i])
        {
          if k >= i {
            assert Coprime(ms[i], ms[k + 1]);
            CoprimeComm(ms[i], ms[k + 1]);
          }
        }
        CoprimeProd(o, ms[i]);
      }
    } else {
      var i, j :| 0 <= i < j < |ms| && !Coprime(ms[i], ms[j]);
      var o := Others(ms, j);
      assert o[i] == ms[i];
      CoprimeProd(o, ms[j]);
    }
  }

  // ------------------------------------------------------------ reconstruction

  /** x has the given residues. */
  ghost predicate HasResidues(x: int, residues: seq<int>, ms: seq<int>)
    requires |residues| == |ms| && Positive(ms)
  {
    forall i :: 0 <= i < |ms| ==> Cong(x, residues[i], ms[i])
  }

  ghost predicate SameResidues(x: int, y: int, ms: seq<int>)
    requires Positive(ms)
  {
    forall i :: 0 <= i < |ms| ==> Cong(x, y, ms[i])
  }

  /** Congruence in every lane is congruence modulo the product. */
  lemma {:induction false} LanesToProduct(x: int, y: int, ms: seq<int>)
    requires Positive(ms) && PairwiseCoprime(ms) && SameResidues(x, y, ms)
    ensures Prod(ms) > 0 && Cong(x, y, Prod(ms))
  {
    ProdPositive(ms);
    if |ms| == 0 {
      ProdSnoc([], 1);
      CongFrom(x, y, 1, x - y);
    } else {
      var last := |ms| - 1;
      var rest := ms[..last];
      assert ms == rest + [ms[last]];
      LanesToProduct(x, y, rest);
      ProdSnoc(rest, ms[last]);
      CoprimeProd(rest, ms[last]);
      CoprimeLift(x, y, Prod(rest), ms[last]);
    }
  }

  lemma ProductToLanes(x: int, y: int, ms: seq<int>)
    requires Positive(ms) && Prod(ms) > 0 && Cong(x, y, Prod(ms))
    ensures SameResidues(x, y, ms)
  {
    forall i | 0 <= i < |ms|
      ensures Cong(x, y, ms[i])
    {
      ProductToLane(x, y, ms, i);
    }
  }

  lemma ProductToLane(x: int, y: int, ms: seq<int>, i: nat)
    requires Positive(ms) && i < |ms| && Prod(ms) > 0 && Cong(x, y, Prod(ms))
    ensures Cong(x, y, ms[i])
  {
    ProdOthers(ms, i);
    ProdPositive(Others(ms, i));
    CongDivisor(x, y, ms[i], Prod(Others(ms, i)));
  }

  /** The canonical value below the product is unique. */
  lemma ReconstructionUnique(x: int, y: int, residues: seq<int>, ms: seq<int>)
    requires |residues| == |ms| && Positive(ms) && PairwiseCoprime(ms)
    requires HasResidues(x, residues, ms) && HasResidues(y, residues, ms)
    ensures Prod(ms) > 0 && Cong(x, y, Prod(ms))
  {
    forall i | 0 <= i < |ms|
      ensures Cong(x, y, ms[i])
    {
      assert Cong(x, residues[i], ms[i]) && Cong(y, residues[i], ms[i]);
    }
    LanesToProduct(x, y, ms);
  }

  /** The first k terms have been accumulated: the earlier lanes are right, the later ones zero. */
  ghost predicate Accumulated(acc: int, residues: seq<int>, ms: seq<int>, k: nat)
    requires |residues| == |ms| && Positive(ms)
  {
    forall i :: 0 <= i < |ms| ==> Cong(acc, if i < k then residues[i] else 0, ms[i])
  }

  /** One CRT term is the residue in its own lane and zero in every other lane. */
  lemma TermStep(acc: int, next: int, term: int, c: int, residues: seq<int>, ms: seq<int>, k: nat, inverse: int)
    requires |residues| == |ms| && Positive(ms) && k < |ms| && Accumulated(acc, residues, ms, k)
    requires Cong(Prod(Others(ms, k)) * inverse, 1, ms[k])
    requires term == c * Prod(Others(ms, k)) && Cong(c, residues[k] * inverse, ms[k])
    requires Prod(ms) > 0 && Cong(next, acc + term, Prod(ms))
    ensures Accumulated(next, residues, ms, k + 1)
  {
    var o := Prod(Others(ms, k));
    forall i | 0 <= i < |ms|
      ensures Cong(next, if i < k + 1 then residues[i] else 0, ms[i])
    {
      ProductToLane(next, acc + term, ms, i);
      if i == k {
        OwnLane(c, o, inverse, residues[k], ms[k]);
        CongAdd(acc, 0, term, residues[k], ms[k]);
      } else {
        OtherLane(c, ms, k, i);
        CongAdd(acc, if i < k then residues[i] else 0, term, 0, ms[i]);
      }
    }
  }

  lemma OwnLane(c: int, o: int, inverse: int, residue: int, m: int)
    requires m > 0 && Cong(c, residue * inverse, m) && Cong(o * inverse, 1, m)
    ensures Cong(c * o, residue, m)
  {
    CongMul(c, residue * inverse, o, o, m);
    assert (residue * inverse) * o == residue * (o * inverse);
    CongScale(residue, o * inverse, 1, m);
  }

  lemma OtherLane(c: int, ms: seq<int>, k: nat, i: nat)
    requires Positive(ms) && k < |ms| && i < |ms| && i != k
    ensures Cong(c * Prod(Others(ms, k)), 0, ms[i])
  {
    var o := Others(ms, k);
    var j := if i < k then i else i - 1;
    assert o[j] == ms[i];
    ProdOthers(o, j);
    Exchange(c, ms[i], Prod(Others(o, j)));
    CongFrom(c * Prod(o), 0, ms[i], c * Prod(Others(o, j)));
  }

  /** M / p is the product of the other moduli. */
  lemma Cofactor(ms: seq<int>, i: nat)
    requires i < |ms| && Positive(ms)
    ensures Prod(ms) / ms[i] == Prod(Others(ms, i))
  {
    ProdOthers(ms, i);
    DivModUnique(Prod(ms), ms[i], Prod(Others(ms, i)), 0);
  }

  lemma NothingAccumulated(residues: seq<int>, ms: seq<int>)
    requires |residues| == |ms| && Positive(ms)
    ensures Accumulated(0, residues, ms, 0)
  {
  }

  lemma AllAccumulated(acc: int, residues: seq<int>, ms: seq<int>)
    requires |residues| == |ms| && Positive(ms) && Accumulated(acc, residues, ms, |ms|)
    ensures HasResidues(acc, residues, ms)
  {
  }

  /** The reduced inverse of a cofactor exists exactly when it is a unit. */
  lemma CofactorInverse(o: int, p: int)
    requires p > 0
    ensures Inverse(o % p, p).Some? <==> Coprime(o, p)
    ensures Inverse(o % p, p).Some? ==> Cong(o * Inverse(o % p, p).value, 1, p)
  {
    InverseCorrect(o % p, p);
    ModCong(o, p);
    if Coprime(o, p) {
      CoprimeMod(o, o % p, p);
    }
    if Inverse(o % p, p).Some? {
      CoprimeMod(o % p, o, p);
      var v := Inverse(o % p, p).value;
      CongMul(o % p, o, v, v, p);
    }
  }

  /**
   Direct CRT: every term is computed on its own and summed modulo the product. It is
   refused exactly when the moduli are not pairwise coprime; otherwise it returns the
   only value below the product with the given residues.
   */
  method CrtReconstruct(residues: seq<int>, primes: seq<int>) returns (result: Result<int>)
    requires |residues| == |primes| && Positive(primes)
    ensures result.Ok? <==> PairwiseCoprime(primes)
    ensures result.Ok? ==> 0 <= result.value < Prod(primes) && HasResidues(result.value, residues, primes)
  {
    var m := Product(primes);
    ProdPositive(primes);
    OthersCoprime(primes);
    NothingAccumulated(residues, primes);
    var acc := 0;
    for i := 0 to |primes|
      invariant 0 <= acc < m && Accumulated(acc, residues, primes, i)
      invariant forall j :: 0 <= j < i ==> Coprime(Prod(Others(primes, j)), primes[j])
    {
      var p := primes[i];
      var mi := m / p;
      Cofactor(primes, i);
      CofactorInverse(mi, p);
      ModMod(mi, p);
      var inverse := Inverse(mi % p, p);
      if inverse.None? {
        return Err;
      }
      var term := (residues[i] * inverse.value % p) * mi;
      ModCong(residues[i] * inverse.value, p);
      ModCong(acc + term, m);
      TermStep(acc, (acc + term) % m, term, residues[i] * inverse.value % p, residues, primes, i, inverse.value);
      acc := (acc + term) % m;
    }
    AllAccumulated(acc, residues, primes);
    return Ok(acc);
  }

  // ----------------------------------------------------------- the signed value

  datatype Signed = Signed(vExact: int, vM: int, k: int, mLevel: int, aFull: int)

  /** The winding of x over the main basis lies in the half-range of the anchor. */
  predicate InHalfRange(winding: int, capacity: int)
  {
    capacity / 2 - capacity < winding <= capacity / 2
  }

  ghost predicate Basis(main: seq<int>, anchor: seq<int>)
  {
    && PairwiseCoprime(main) && PairwiseCoprime(anchor)
    && forall j :: 0 <= j < |anchor| ==> Coprime(Prod(main), anchor[j])
  }

  /** The residues of the winding, lane by lane. */
  method WindingResidues(mLevel: int, vM: int, anchorResidues: seq<int>, anchor: seq<int>)
    returns (result: Result<seq<int>>)
    requires |anchorResidues| == |anchor| && Positive(anchor)
    ensures result.Ok? <==> forall j :: 0 <= j < |anchor| ==> Coprime(mLevel, anchor[j])
    ensures result.Ok? ==> |result.value| == |anchor| && forall j :: 0 <= j < |anchor| ==>
              Cong(mLevel * result.value[j], anchorResidues[j] - vM, anchor[j])
  {
    var k: seq<int> := [];
    for j := 0 to |anchor|
      invariant |k| == j
      invariant forall i :: 0 <= i < j ==> Coprime(mLevel, anchor[i])
      invariant forall i :: 0 <= i < j ==> Cong(mLevel * k[i], anchorResidues[i] - vM, anchor[i])
    {
      var a := anchor[j];
      CofactorInverse(mLevel, a);
      ModMod(mLevel, a);
      var inverse := Inverse(mLevel % a % a, a);
      if inverse.None? {
        return Err;
      }
      var diff := (anchorResidues[j] - vM % a) % a;
      LaneWinding(mLevel, vM, anchorResidues[j], inverse.value, a);
      k := k + [diff * inverse.value % a];
    }
    return Ok(k);
  }

  lemma LaneWinding(m: int, v: int, r: int, inverse: int, a: int)
    requires a > 0 && Cong(m * inverse, 1, a)
    ensures Cong(m * ((r - v % a) % a * inverse % a), r - v, a)
  {
    var diff := (r - v % a) % a;
    ModCong(v, a);
    ModCong(r - v % a, a);
    CongSub(r, r, v % a, v, a);
    ModCong(diff * inverse, a);
    CongScale(m, diff * inverse % a, diff * inverse, a);
    CongScale(diff, m * inverse, 1, a);
    Exchange(m, diff, inverse);
  }

  /** Splitting an integer into its main residue and its winding. */
  lemma WindingLanes(x: int, vM: int, m: int, k: int, residues: seq<int>, laneK: seq<int>, anchor: seq<int>)
    requires m > 0 && |residues| == |laneK| == |anchor| && Positive(anchor)
    requires x == vM + m * k && HasResidues(x, residues, anchor)
    requires forall j :: 0 <= j < |anchor| ==> Coprime(m, anchor[j])
    requires forall j :: 0 <= j < |anchor| ==> Cong(m * laneK[j], residues[j] - vM, anchor[j])
    ensures HasResidues(k, laneK, anchor)
  {
    forall j | 0 <= j < |anchor|
      ensures Cong(k, laneK[j], anchor[j])
    {
      assert Cong(x, residues[j], anchor[j]);
      CongSub(x, residues[j], vM, vM, anchor[j]);
      assert Cong(m * laneK[j], residues[j] - vM, anchor[j]);
      assert Coprime(m, anchor[j]);
      CoprimeCancelEqual(m, k, laneK[j], anchor[j]);
    }
  }

  /** The signed representative used by the reconstruction is unique in its half-range. */
  lemma HalfRangeUnique(k: int, w: int, capacity: int)
    requires capacity > 0 && 0 <= k < capacity && Cong(k, w, capacity)
    ensures (if k > capacity / 2 then k - capacity else k) == w <==> InHalfRange(w, capacity)
  {
    var signed := if k > capacity / 2 then k - capacity else k;
    assert InHalfRange(signed, capacity);
    CongFrom(signed, k, capacity, if k > capacity / 2 then -1 else 0);
    if InHalfRange(w, capacity) {
      CongSmallEqual(signed, w, capacity);
    }
  }

  /**
   The signed reconstruction. For every integer x with the given residues on both
   bases, it returns x exactly if and only if the winding of x over the main basis
   lies in the anchor half-range; it is refused exactly when a needed inverse is missing.
   */
  method ReconstructSignedValue(mainResidues: seq<int>, anchorResidues: seq<int>, mainPrimes: seq<int>, anchorPrimes: seq<int>)
    returns (result: Result<Signed>)
    requires |mainResidues| == |mainPrimes| && |anchorResidues| == |anchorPrimes|
    requires Positive(mainPrimes) && Positive(anchorPrimes)
    ensures result.Ok? <==> Basis(mainPrimes, anchorPrimes)
    ensures result.Ok? ==> result.value.mLevel == Prod(mainPrimes) && result.value.aFull == Prod(anchorPrimes)
    ensures result.Ok? ==> InHalfRange(result.value.k, Prod(anchorPrimes))
    ensures result.Ok? ==> 0 <= result.value.vM < Prod(mainPrimes) && HasResidues(result.value.vM, mainResidues, mainPrimes)
    ensures result.Ok? ==> result.value.vExact == result.value.vM + result.value.k * Prod(mainPrimes)
    ensures result.Ok? ==> Prod(mainPrimes) > 0 && forall x ::
              HasResidues(x, mainResidues, mainPrimes) && HasResidues(x, anchorResidues, anchorPrimes) ==>
                (result.value.vExact == x <==> InHalfRange(x / Prod(mainPrimes), Prod(anchorPrimes)))
  {
    var vm := CrtReconstruct(mainResidues, mainPrimes);
    if vm.Err? {
      return Err;
    }
    var mLevel := Product(mainPrimes);
    ProdPositive(mainPrimes);
    ProdPositive(anchorPrimes);
    var lanes := WindingResidues(mLevel, vm.value, anchorResidues, anchorPrimes);
    if lanes.Err? {
      return Err;
    }
    var k := CrtReconstruct(lanes.value, anchorPrimes);
    if k.Err? {
      return Err;
    }
    var aFull := Product(anchorPrimes);
    var kSigned := if k.value > aFull / 2 then k.value - aFull else k.value;
    var vExact := vm.value + kSigned * mLevel;
    forall x | HasResidues(x, mainResidues, mainPrimes) && HasResidues(x, anchorResidues, anchorPrimes)
      ensures vExact == x <==> InHalfRange(x / mLevel, aFull)
    {
      SignedExact(x, vm.value, k.value, mainResidues, mainPrimes, anchorResidues, lanes.value, anchorPrimes);
    }
    return Ok(Signed(vExact, vm.value, kSigned, mLevel, aFull));
  }

  lemma SignedExact(x: int, vM: int, k: int, mainResidues: seq<int>, main: seq<int>, residues: seq<int>, laneK: seq<int>, anchor: seq<int>)
    requires |mainResidues| == |main| && |residues| == |laneK| == |anchor| && Positive(main) && Positive(anchor)
    requires Basis(main, anchor) && Prod(main) > 0 && Prod(anchor) > 0
    requires 0 <= vM < Prod(main) && HasResidues(vM, mainResidues, main) && HasResidues(x, mainResidues, main)
    requires HasResidues(x, residues, anchor)
    requires forall j :: 0 <= j < |anchor| ==> Cong(Prod(main) * laneK[j], residues[j] - vM, anchor[j])
    requires 0 <= k < Prod(anchor) && HasResidues(k, laneK, anchor)
    ensures var a := Prod(anchor);
            vM + (if k > a / 2 then k - a else k) * Prod(main) == x <==> InHalfRange(x / Prod(main), a)
  {
    var m, a := Prod(main), Prod(anchor);
    ReconstructionUnique(x, vM, mainResidues, main);
    CongMod(x, vM, m);
    DivModUnique(vM, m, 0, vM);
    var w := x / m;
    WindingLanes(x, vM, m, w, residues, laneK, anchor);
    ReconstructionUnique(k, w, laneK, anchor);
    HalfRangeUnique(k, w, a);
    var signed := if k > a / 2 then k - a else k;
    if signed != w {
      DistributeSub(m, signed, w);
      NonzeroMultiple(m, signed - w);
    }
  }

  // --------------------------------------------------------------------- decoding

  /** Rounding half up, for nonnegative numerators. */
  function RoundDivHalfUp(numerator: int, denominator: int): int
    requires denominator > 0
  {
    (2 * numerator + denominator) / (2 * denominator)
  }

  function DecodeBfv(v: int, q: int, t: int): int
    requires q > 0 && t > 0
  {
    var u := v % q;
    if u > q / 2 then (t - RoundDivHalfUp((q - u) * t, q)) % t else RoundDivHalfUp(u * t, q) % t
  }

  lemma RoundingUnique(x: int, q: int, k: int, r: int)
    requires q > 0 && x == q * k + r && 2 * Abs(r) < q
    ensures RoundDivHalfUp(x, q) == k
  {
    Assoc(2, q, k);
    DivModUnique(2 * x + q, 2 * q, k, 2 * r + q);
  }

  /** The decoding noise of error e on message m: what t*(delta*m + e) misses q*m by. */
  function DecodingNoise(m: int, e: int, q: int, t: int): int
    requires t > 0
  {
    t * e - q % t * m
  }

  /**
   A phase delta*m + e with delta = floor(q/t) decodes to m whenever twice its
   decoding noise is below q.
   */
  lemma DecodeCorrect(v: int, q: int, t: int, m: int, e: int)
    requires q > 0 && t > 0 && Cong(v, q / t * m + e, q) && 2 * Abs(DecodingNoise(m, e, q, t)) < q
    ensures DecodeBfv(v, q, t) == m % t
  {
    var u := v % q;
    var x := if u > q / 2 then u - q else u;
    ModCong(v, q);
    CongFrom(x, u, q, if u > q / 2 then -1 else 0);
    var l := CongWitness(x, q / t * m + e, q);
    ScaledPhase(x, q, t, m, e, l);
    var k, r := m + t * l, DecodingNoise(m, e, q, t);
    if u > q / 2 {
      assert (q - u) * t == -(x * t);
      assert q * -k == -(q * k);
      RoundingUnique((q - u) * t, q, -k, -r);
      ShiftMessage(t - -k, m, t, l + 1);
    } else {
      RoundingUnique(u * t, q, k, r);
      ShiftMessage(k, m, t, l);
    }
  }

  lemma ShiftMessage(x: int, m: int, t: int, l: int)
    requires t > 0 && (x == m + t * l || x == t + m + t * (l - 1))
    ensures x % t == m % t
  {
    DistributeSub(t, l, 1);
    CongFrom(x, m, t, l);
    CongMod(x, m, t);
  }

  lemma ScaledPhase(x: int, q: int, t: int, m: int, e: int, l: int)
    requires q > 0 && t > 0 && x == q / t * m + e + q * l
    ensures x * t == q * (m + t * l) + DecodingNoise(m, e, q, t)
  {
    var d, z := q / t, q % t;
    assert q == t * d + z;
    Distribute(t, d * m + e, q * l);
    Distribute(t, d * m, e);
    Assoc(t, d, m);
    Distribute(m, t * d, z);
    Distribute(q, m, t * l);
    Exchange(t, q, l);
  }

  // ------------------------------------------------------ one lane of the product

  /** The inner loop of row i; zero coefficients are skipped. */
  method ConvolveRow(start: Poly, a: Poly, i: nat, b: Poly, modulus: int) returns (result: Poly)
    requires modulus > 0 && |a| == |b| == |start| && i < |a|
    ensures CongPoly(result, Add(start, Scale(a[i], Power(i, b))), modulus)
  {
    var n := |a|;
    result := start;
    ghost var row := Scale(a[i], Power(i, b));
    for j := 0 to n
      invariant |result| == n
      invariant forall d :: 0 <= d < n ==> Cong(result[d], start[d] + RowPart(row, i, j, d), modulus)
    {
      EntryStep(a, b, row, i, j);
      if b[j] != 0 {
        var k := i + j;
        var term := a[i] * b[j];
        if k >= n {
          k := k - n;
          ModCong(result[k] - term, modulus);
          CongSub(result[k], start[k] + RowPart(row, i, j, k), term, term, modulus);
          result := result[k := (result[k] - term) % modulus];
        } else {
          ModCong(result[k] + term, modulus);
          CongAdd(result[k], start[k] + RowPart(row, i, j, k), term, term, modulus);
          result := result[k := (result[k] + term) % modulus];
        }
      } else {
        assert a[i] * b[j] == 0;
      }
    }
    assert forall d :: 0 <= d < n ==> RowPart(row, i, n, d) == row[d];
  }

  /** The lane-wise schoolbook convolution is the ring product modulo the lane. */
  method NegacyclicConvolve(a: Poly, b: Poly, modulus: int) returns (result: Poly)
    requires modulus > 0 && |a| == |b|
    ensures CongPoly(result, Mul(a, b), modulus)
  {
    result := Zero(|a|);
    PartialEnds(a, b);
    for i := 0 to |a|
      invariant CongPoly(result, Partial(a, i, b), modulus)
    {
      PartialStep(a, i, b);
      ghost var row := Scale(a[i], Power(i, b));
      if a[i] != 0 {
        ghost var before := result;
        result := ConvolveRow(result, a, i, b, modulus);
        CongPolyAdd(before, Partial(a, i, b), row, row, modulus);
      } else {
        AddNothing(Partial(a, i, b), Power(i, b));
      }
    }
  }

  // ------------------------------------------------------------- decoding by lanes

  /** The lanes of an integer polynomial. */
  ghost predicate Lanes(lanes: seq<Poly>, a: Poly, ms: seq<int>)
    requires Positive(ms)
  {
    |lanes| == |ms| && forall i :: 0 <= i < |ms| ==> CongPoly(lanes[i], a, ms[i])
  }

  /** The decoded coefficient 0 of the phase c0 + c1*s is m. */
  ghost predicate Encrypts(c0: Poly, c1: Poly, s: Poly, m: int, e: int, q: int, t: int)
    requires |c0| == |c1| == |s| > 0 && q > 0 && t > 0
  {
    Cong(c0[0] + Mul(c1, s)[0], q / t * m + e, q) && 2 * Abs(DecodingNoise(m, e, q, t)) < q
  }

  /**
   Decoding from the dumped lanes: convolve lane by lane, add, reconstruct, round. For
   any ciphertext with these lanes whose phase encrypts m, the answer is m modulo t.
   */
  method CheckDecode(c0Main: seq<Poly>, c1Main: seq<Poly>, sMain: seq<Poly>, primes: seq<int>, t: int,
                     ghost c0: Poly, ghost c1: Poly, ghost s: Poly) returns (decoded: Result<int>)
    requires Positive(primes) && t > 0 && |c0| == |c1| == |s| > 0
    requires Lanes(c0Main, c0, primes) && Lanes(c1Main, c1, primes) && Lanes(sMain, s, primes)
    ensures decoded.Ok? <==> PairwiseCoprime(primes)
    ensures decoded.Ok? ==> Prod(primes) > 0
    ensures decoded.Ok? ==> forall m, e :: Encrypts(c0, c1, s, m, e, Prod(primes), t) ==> decoded.value == m % t
  {
    var inner: seq<int> := [];
    ghost var phase := c0[0] + Mul(c1, s)[0];
    for lane := 0 to |primes|
      invariant |inner| == lane
      invariant forall i :: 0 <= i < lane ==> Cong(phase, inner[i], primes[i])
    {
      var p := primes[lane];
      assert CongPoly(c0Main[lane], c0, p) && CongPoly(c1Main[lane], c1, p) && CongPoly(sMain[lane], s, p);
      var c1s := NegacyclicConvolve(c1Main[lane], sMain[lane], p);
      CongPolyMul(c1Main[lane], c1, sMain[lane], s, p);
      CongAdd(c0Main[lane][0], c0[0], c1s[0], Mul(c1, s)[0], p);
      ModCong(c0Main[lane][0] + c1s[0], p);
      inner := inner + [(c0Main[lane][0] + c1s[0]) % p];
    }
    ProdPositive(primes);
    var v := CrtReconstruct(inner, primes);
    if v.Err? {
      return Err;
    }
    var q := Product(primes);
    decoded := Ok(DecodeBfv(v.value, q, t));
    assert HasResidues(phase, inner, primes);
    ReconstructionUnique(v.value, phase, inner, primes);
    forall m, e | Encrypts(c0, c1, s, m, e, q, t)
      ensures decoded.value == m % t
    {
      DecodeCorrect(v.value, q, t, m, e);
    }
  }

  // ----------------------------------------------------------- rounded division

  /** floor((inputPlain*x + outputPlain/2) / outputPlain). */
  function ScaleRound(x: int, inputPlain: int, outputPlain: int): int
    requires outputPlain > 0
  {
    (inputPlain * x + outputPlain / 2) / outputPlain
  }

  predicate Shaped(residues: seq<int>, moduli: seq<int>)
  {
    |residues| == |moduli| && |moduli| > 0
  }

  predicate CanonicalLanes(residues: seq<int>, moduli: seq<int>)
  {
    |residues| == |moduli| && forall i :: 0 <= i < |moduli| ==> 0 <= residues[i] < moduli[i]
  }

  /** The centered integer with the given lanes. */
  ghost predicate CenteredValue(x: int, residues: seq<int>, moduli: seq<int>)
    requires |residues| == |moduli| && Positive(moduli)
  {
    -Prod(moduli) < 2 * x <= Prod(moduli) && HasResidues(x, residues, moduli)
  }

  /** The sum of the CRT terms, without reduction. */
  method CrtSum(residues: seq<int>, moduli: seq<int>, q: int) returns (result: Result<int>)
    requires |residues| == |moduli| && Positive(moduli) && q == Prod(moduli) && q > 0
    ensures result.Ok? <==> PairwiseCoprime(moduli) && CanonicalLanes(residues, moduli)
    ensures result.Ok? ==> HasResidues(result.value, residues, moduli)
  {
    OthersCoprime(moduli);
    NothingAccumulated(residues, moduli);
    var x := 0;
    for i := 0 to |moduli|
      invariant Accumulated(x, residues, moduli, i)
      invariant forall j :: 0 <= j < i ==> Coprime(Prod(Others(moduli, j)), moduli[j]) && 0 <= residues[j] < moduli[j]
    {
      var residue, modulus := residues[i], moduli[i];
      if !(0 <= residue < modulus) {
        return Err;
      }
      var part := q / modulus;
      Cofactor(moduli, i);
      InverseCorrect(part, modulus);
      var inverse := Inverse(part, modulus);
      if inverse.None? {
        return Err;
      }
      var term := residue * part * inverse.value;
      SumTerm(residue, part, inverse.value);
      TermStep(x, x + term, term, residue * inverse.value, residues, moduli, i, inverse.value);
      x := x + term;
    }
    AllAccumulated(x, residues, moduli);
    return Ok(x);
  }

  lemma SumTerm(a: int, b: int, c: int)
    ensures a * b * c == (a * c) * b
  {
    Assoc(a, c, b);
    Assoc(a, b, c);
  }

  lemma CenteredRepresentative(sum: int, residues: seq<int>, moduli: seq<int>)
    requires |residues| == |moduli| && Positive(moduli) && Prod(moduli) > 0 && HasResidues(sum, residues, moduli)
    ensures CenteredValue(Centered(sum % Prod(moduli), Prod(moduli)), residues, moduli)
  {
    var q := Prod(moduli);
    var x := Centered(sum % q, q);
    CenteredRange(sum % q, q);
    ModCong(sum, q);
    ProductToLanes(x, sum, moduli);
    forall i | 0 <= i < |moduli|
      ensures Cong(x, residues[i], moduli[i])
    {
      assert Cong(x, sum, moduli[i]) && Cong(sum, residues[i], moduli[i]);
    }
  }

  /** In each lane, subtracting the anchor remainder makes the division exact. */
  lemma LaneQuotient(x: int, residue: int, inputPlain: int, outputPlain: int, remainder: int, inverse: int, p: int)
    requires p > 0 && outputPlain > 0 && Cong(x, residue, p) && Cong(outputPlain * inverse, 1, p)
    requires remainder == (inputPlain * (x % outputPlain) + outputPlain / 2) % outputPlain
    ensures ((inputPlain * residue + outputPlain / 2) % p - remainder) % p * inverse % p
         == ScaleRound(x, inputPlain, outputPlain) % p
  {
    var h, f := outputPlain / 2, ScaleRound(x, inputPlain, outputPlain);
    var top := inputPlain * x + h;
    AnchorRemainder(x, inputPlain, outputPlain, remainder);
    QuotientRest(top, outputPlain, f, remainder);
    LaneTop(x, residue, inputPlain, h, p);
    LaneDivide(inputPlain * residue + h, top, remainder, outputPlain, f, inverse, p);
  }

  lemma QuotientRest(top: int, d: int, f: int, r: int)
    requires d > 0 && f == top / d && r == top % d
    ensures top - r == d * f
  {
  }

  lemma LaneTop(x: int, residue: int, inputPlain: int, h: int, p: int)
    requires p > 0 && Cong(x, residue, p)
    ensures Cong(inputPlain * residue + h, inputPlain * x + h, p)
  {
    CongScale(inputPlain, residue, x, p);
    CongAdd(inputPlain * residue, inputPlain * x, h, h, p);
  }

  lemma LaneDivide(lane: int, top: int, remainder: int, d: int, f: int, inverse: int, p: int)
    requires p > 0 && Cong(lane, top, p) && top - remainder == d * f && Cong(d * inverse, 1, p)
    ensures (lane % p - remainder) % p * inverse % p == f % p
  {
    var numerator := lane % p;
    ModCong(lane, p);
    CongSub(numerator, top, remainder, remainder, p);
    ModCong(numerator - remainder, p);
    CongMul((numerator - remainder) % p, d * f, inverse, inverse, p);
    Exchange(f, d, inverse);
    Assoc(d, f, inverse);
    CongScale(f, d * inverse, 1, p);
    CongMod((numerator - remainder) % p * inverse, f, p);
  }

  lemma AnchorRemainder(x: int, inputPlain: int, outputPlain: int, remainder: int)
    requires outputPlain > 0
    requires remainder == (inputPlain * (x % outputPlain) + outputPlain / 2) % outputPlain
    ensures remainder == (inputPlain * x + outputPlain / 2) % outputPlain
  {
    var h := outputPlain / 2;
    ModCong(x, outputPlain);
    CongScale(inputPlain, x % outputPlain, x, outputPlain);
    CongAdd(inputPlain * (x % outputPlain), inputPlain * x, h, h, outputPlain);
    CongMod(inputPlain * (x % outputPlain) + h, inputPlain * x + h, outputPlain);
  }

  ghost predicate DivisionDomain(residues: seq<int>, moduli: seq<int>, outputPlain: int)
  {
    && Shaped(residues, moduli) && CanonicalLanes(residues, moduli) && PairwiseCoprime(moduli)
    && forall i :: 0 <= i < |moduli| ==> Coprime(outputPlain, moduli[i])
  }

  /**
   Lane-wise division refines integer division: every lane of the result is the residue
   of floor((inputPlain*x + outputPlain/2)/outputPlain), where x is the centered integer
   with the given lanes.
   */
  method RnsScaleDivide(residues: seq<int>, moduli: seq<int>, inputPlain: int, outputPlain: int)
    returns (result: Result<seq<int>>)
    requires Positive(moduli) && outputPlain > 0
    ensures result.Ok? <==> DivisionDomain(residues, moduli, outputPlain)
    ensures result.Ok? ==> |result.value| == |moduli|
    ensures result.Ok? ==> forall x :: CenteredValue(x, residues, moduli) ==>
              forall i :: 0 <= i < |moduli| ==> result.value[i] == ScaleRound(x, inputPlain, outputPlain) % moduli[i]
  {
    if |residues| != |moduli| || |moduli| == 0 {
      return Err;
    }
    var q := Product(moduli);
    ProdPositive(moduli);
    var sum := CrtSum(residues, moduli, q);
    if sum.Err? {
      return Err;
    }
    var x := Centered(sum.value % q, q);
    CenteredRepresentative(sum.value, residues, moduli);
    var remainder := (inputPlain * (x % outputPlain) + outputPlain / 2) % outputPlain;
    var lanes: seq<int> := [];
    for i := 0 to |moduli|
      invariant |lanes| == i
      invariant forall j :: 0 <= j < i ==> Coprime(outputPlain, moduli[j])
      invariant forall j :: 0 <= j < i ==> lanes[j] == ScaleRound(x, inputPlain, outputPlain) % moduli[j]
    {
      var modulus := moduli[i];
      var numerator := (inputPlain * residues[i] + outputPlain / 2) % modulus;
      InverseCorrect(outputPlain, modulus);
      var inverse := Inverse(outputPlain, modulus);
      if inverse.None? {
        return Err;
      }
      LaneQuotient(x, residues[i], inputPlain, outputPlain, remainder, inverse.value, modulus);
      lanes := lanes + [(numerator - remainder) % modulus * inverse.value % modulus];
    }
    forall y | CenteredValue(y, residues, moduli)
      ensures y == x
    {
      ReconstructionUnique(x, y, residues, moduli);
      CongSmallEqual(x, y, q);
    }
    return Ok(lanes);
  }

  // ---------------------------------------------------- adjacent 120/121 recovery

  const WEIGHT_SCALE := 120
  const RESIDUE_PLAIN := 120
  const CARRY_PLAIN := 121

  /** (recovered, z, residue, anchor), or a refusal outside the certified envelope. */
  function RecoverCarry(carry: int, residual: int, carryRadius: int, residualBound: int): Result<(int, int, int, int)>
  {
    if Abs(carry) > carryRadius || Abs(residual) > residualBound then Err
    else
      var z := WEIGHT_SCALE * carry + residual;
      var residue, anchor := Centered(z, RESIDUE_PLAIN), Centered(z, CARRY_PLAIN);
      Ok((Centered(residue - anchor, CARRY_PLAIN), z, residue, anchor))
  }

  /** The two views recover a small carry exactly when it fits the anchor half-range. */
  lemma RecoverCarryExact(carry: int, residual: int, carryRadius: int, residualBound: int)
    requires -60 < residual <= 60
    ensures var r := RecoverCarry(carry, residual, carryRadius, residualBound);
            && (r.Ok? <==> Abs(carry) <= carryRadius && Abs(residual) <= residualBound)
            && (r.Ok? ==> r.value.2 == residual && (r.value.0 == carry <==> -60 <= carry <= 60))
            && (r.Ok? ==> r.value.1 == 120 * carry + residual && Abs(r.value.3) <= 60 && Cong(r.value.3, r.value.1, 121))
  {
    var z := WEIGHT_SCALE * carry + residual;
    CongFrom(residual, z, RESIDUE_PLAIN, -carry);
    CenteredUnique(z, RESIDUE_PLAIN, residual);
    var anchor := Centered(z, CARRY_PLAIN);
    CenteredRange(z, CARRY_PLAIN);
    CongSub(residual, residual, anchor, z, CARRY_PLAIN);
    CongFrom(residual - z, carry, CARRY_PLAIN, -carry);
    CenteredRange(residual - anchor, CARRY_PLAIN);
    if -60 <= carry <= 60 {
      CenteredUnique(residual - anchor, CARRY_PLAIN, carry);
    }
  }
}
