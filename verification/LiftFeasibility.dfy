/**
 The canonical-lift noise certificate: a memoised recursion over balanced products
 that refuses at the first bound reaching half of delta, its dyadic ceiling, and the
 closed-form lower bound that condemns it in advance.
 */
module LiftFeasibility {
  import opened Arith
  import opened Wrappers

  // ---------------------------------------------------------------- bit lengths

  /** int.bit_length for nonnegative integers. */
  function BitLength(x: nat): nat
  {
    if x == 0 then 0 else 1 + BitLength(x / 2)
  }

  lemma {:induction false} BitLengthBounds(x: nat)
    ensures x < Pow(2, BitLength(x))
    ensures x > 0 ==> BitLength(x) >= 1 && Pow(2, BitLength(x) - 1) <= x
  {
    if x > 0 {
      var h := x / 2;
      BitLengthBounds(h);
      Doubling(BitLength(h));
      if h > 0 {
        Doubling(BitLength(h) - 1);
      }
    }
  }

  lemma Doubling(k: nat)
    ensures Pow(2, k + 1) == 2 * Pow(2, k) && Pow(2, 0) == 1
  {
  }

  lemma {:induction false} PowTwoSum(a: nat, b: nat)
    ensures Pow(2, a + b) == Pow(2, a) * Pow(2, b)
  {
    if a > 0 {
      PowTwoSum(a - 1, b);
      Assoc(2, Pow(2, a - 1), Pow(2, b));
    }
  }

  predicate PowerOfTwo(n: nat)
  {
    n == 1 || (n > 1 && n % 2 == 0 && PowerOfTwo(n / 2))
  }

  // ---------------------------------------------------------------- the constants

  datatype Record = Record(n: int, base: int, eta: int, primes: seq<int>)

  datatype Ledger = Ledger(n: int, base: int, modulus: int, expanded: int, half: int, switch: int,
                           phase: int, projection: int, factor: int, leaf: int, rounding: int)

  function DigitSum(primes: seq<int>, baseBits: nat): int
    requires baseBits > 0 && forall i :: 0 <= i < |primes| ==> primes[i] > 0
  {
    if |primes| == 0 then 0
    else DigitSum(primes[..|primes| - 1], baseBits) + CeilDiv(BitLength(primes[|primes| - 1]), baseBits)
  }

  /** The parameter checks, then every constant the recursion uses. */
  function MakeLedger(r: Record, baseBits: nat): Option<Ledger>
    requires baseBits > 0 && forall i :: 0 <= i < |r.primes| ==> r.primes[i] > 0
  {
    if r.n < 2 || !PowerOfTwo(r.n) || r.base < 3 || r.base % 2 == 0 || r.eta < 1 then None
    else
      var n, p, modulus := r.n, r.base, ListProduct(r.primes);
      var expanded := p * p;
      if expanded <= 0 then None
      else
        var half := modulus / expanded / 2;
        if half == 0 then None
        else
          var switch := r.eta * n * (Pow(2, baseBits) - 1) * DigitSum(r.primes, baseBits);
          var remainder := modulus % expanded;
          var phase := r.eta * (2 * n + 1) * n * ((expanded - 1) / 2) + remainder * (n + 1) + CeilDiv(remainder, 2);
          var projection := n * phase + (n - 1) * switch;
          Some(Ledger(n, p, modulus, expanded, half, switch, phase, projection,
                      (expanded - 1) / 2 + expanded * n * (n / 2 + 1),
                      projection + CeilDiv(remainder * (p - 1), expanded),
                      CeilDiv(1 + n + n * n, 2)))
  }

  /** What the recursion relies on: nonnegative terms, a positive factor, and leaf above projection. */
  predicate Sound(l: Ledger)
  {
    && l.n >= 2 && l.base >= 3 && l.modulus > 0 && l.expanded > 0 && l.half > 0 && l.switch >= 0
    && l.phase >= 0 && l.projection >= 0 && l.factor >= 1 && l.leaf >= l.projection && l.rounding >= 0
  }

  lemma {:induction false} DigitSumPositive(primes: seq<int>, baseBits: nat)
    requires baseBits > 0 && forall i :: 0 <= i < |primes| ==> primes[i] > 0
    ensures DigitSum(primes, baseBits) >= 0
  {
    if |primes| > 0 {
      DigitSumPositive(primes[..|primes| - 1], baseBits);
      DivNonNegative(BitLength(primes[|primes| - 1]) + baseBits - 1, baseBits);
    }
  }

  /** Admitted parameters give a sound ledger. */
  lemma LedgerSound(r: Record, baseBits: nat)
    requires baseBits > 0 && forall i :: 0 <= i < |r.primes| ==> r.primes[i] > 0
    requires MakeLedger(r, baseBits).Some?
    ensures Sound(MakeLedger(r, baseBits).value)
  {
    var n, p, modulus := r.n, r.base, ListProduct(r.primes);
    var expanded := p * p;
    var remainder := modulus % expanded;
    ListProductPositive(r.primes);
    DivNonNegative(modulus, expanded);
    var digits := DigitSum(r.primes, baseBits);
    DigitSumPositive(r.primes, baseBits);
    PowPositive(2, baseBits);
    MulNonNegative(r.eta, n);
    MulNonNegative(r.eta * n, Pow(2, baseBits) - 1);
    MulNonNegative(r.eta * n * (Pow(2, baseBits) - 1), digits);
    MulNonNegative(r.eta, 2 * n + 1);
    MulNonNegative(r.eta * (2 * n + 1), n);
    MulNonNegative(r.eta * (2 * n + 1) * n, (expanded - 1) / 2);
    MulNonNegative(remainder, n + 1);
    var l := MakeLedger(r, baseBits).value;
    MulNonNegative(n, l.phase);
    MulNonNegative(n - 1, l.switch);
    MulNonNegative(remainder, p - 1);
    DivNonNegative(remainder * (p - 1) + expanded - 1, expanded);
    MulMono(1, n, expanded);
    MulMono(1, n / 2 + 1, expanded * n);
    MulNonNegative(n, n);
  }

  // ------------------------------------------------------------ dyadic ceiling

  /** ceil(n*expanded*left*right / modulus). */
  function ExactQuadratic(l: Ledger, left: nat, right: nat): int
    requires l.modulus > 0
  {
    CeilDiv(l.n * l.expanded * left * right, l.modulus)
  }

  function Exponent(l: Ledger, left: nat, right: nat): int
    requires l.n * l.expanded >= 0 && l.modulus > 0
  {
    BitLength(left) + BitLength(right) + BitLength(l.n * l.expanded) - (BitLength(l.modulus) - 1)
  }

  function Dyadic(l: Ledger, left: nat, right: nat): int
    requires l.n * l.expanded >= 0 && l.modulus > 0
  {
    if left == 0 || right == 0 then 0 else Pow(2, Max(0, Exponent(l, left, right)))
  }

  /** A product of numbers below powers of two. */
  lemma ProductBelow(x: int, y: int, a: nat, b: nat)
    requires 0 <= x < Pow(2, a) && 0 <= y < Pow(2, b)
    ensures x * y < Pow(2, a + b)
  {
    PowTwoSum(a, b);
    PowPositive(2, b);
    MulMono(x, Pow(2, a) - 1, y);
    MulMono(y, Pow(2, b), Pow(2, a) - 1);
    DistributeSub(Pow(2, b), Pow(2, a), 1);
  }

  lemma CeilAtMost(x: int, m: int, e: int)
    requires m > 0 && x <= e * m
    ensures CeilDiv(x, m) <= e
  {
    var c := CeilDiv(x, m);
    if c > e {
      MulMono(e + 1, c, m);
      Distribute(m, e, 1);
    }
  }

  /** The dyadic ceiling never underestimates the exact quadratic term. */
  lemma DyadicDominates(l: Ledger, left: nat, right: nat)
    requires l.n * l.expanded >= 0 && l.modulus > 0
    ensures Dyadic(l, left, right) >= ExactQuadratic(l, left, right)
  {
    if left == 0 || right == 0 {
      ZeroQuotient(l.n * l.expanded, left, right, l.modulus);
    } else {
      DyadicAbove(l.n * l.expanded, left, right, l.modulus);
    }
  }

  /**
   It is the least power of two that the bit lengths alone allow: any smaller one is
   exceeded by numbers of the same lengths.
   */
  lemma DyadicLeast(l: Ledger, left: nat, right: nat, e: nat)
    requires l.n * l.expanded >= 0 && l.modulus > 0
    ensures left == 0 || right == 0 ==> Dyadic(l, left, right) == 0
    ensures left > 0 && right > 0 ==>
              (Dyadic(l, left, right) <= Pow(2, e) <==>
               Pow(2, BitLength(left) + BitLength(right) + BitLength(l.n * l.expanded)) <= Pow(2, e + (BitLength(l.modulus) - 1)))
  {
    BitLengthBounds(l.modulus);
    if left > 0 && right > 0 {
      PowTwoOrder(BitLength(left) + BitLength(right) + BitLength(l.n * l.expanded), e + (BitLength(l.modulus) - 1));
      PowTwoOrder(Max(0, Exponent(l, left, right)), e);
    }
  }

  lemma PowTwoOrder(a: nat, b: nat)
    ensures Pow(2, a) <= Pow(2, b) <==> a <= b
  {
    if a <= b {
      PowTwoMono(a, b);
    } else {
      PowTwoMono(b + 1, a);
      FullLevel(b);
    }
  }

  lemma ZeroQuotient(s: nat, left: nat, right: nat, m: nat)
    requires m > 0 && (left == 0 || right == 0)
    ensures CeilDiv(s * left * right, m) <= 0
  {
    ZeroNumerator(s, left, right);
    CeilAtMost(s * left * right, m, 0);
  }

  lemma DyadicAbove(s: nat, left: nat, right: nat, m: nat)
    requires m > 0
    ensures CeilDiv(s * left * right, m)
         <= Pow(2, Max(0, BitLength(left) + BitLength(right) + BitLength(s) - (BitLength(m) - 1)))
  {
    BitLengthBounds(m);
    BitLengthBounds(left);
    BitLengthBounds(right);
    BitLengthBounds(s);
    DyadicBits(s, left, right, m, BitLength(s), BitLength(left), BitLength(right), BitLength(m) - 1);
  }

  lemma DyadicBits(s: nat, left: nat, right: nat, m: nat, a: nat, b: nat, c: nat, d: nat)
    requires m > 0 && s < Pow(2, a) && left < Pow(2, b) && right < Pow(2, c) && Pow(2, d) <= m
    ensures CeilDiv(s * left * right, m) <= Pow(2, Max(0, b + c + a - d))
  {
    NumeratorBelow(s, left, right, a, b, c);
    QuotientBelow(s * left * right, m, a + b + c, d);
  }

  lemma NumeratorBelow(s: nat, left: nat, right: nat, a: nat, b: nat, c: nat)
    requires s < Pow(2, a) && left < Pow(2, b) && right < Pow(2, c)
    ensures s * left * right < Pow(2, a + b + c)
  {
    MulNonNegative(s, left);
    ProductBelow(s, left, a, b);
    ProductBelow(s * left, right, a + b, c);
  }

  lemma ZeroNumerator(s: int, x: int, y: int)
    requires x == 0 || y == 0
    ensures s * x * y == 0
  {
  }

  lemma QuotientBelow(x: int, m: int, a: nat, d: nat)
    requires m > 0 && x < Pow(2, a) && Pow(2, d) <= m
    ensures CeilDiv(x, m) <= Pow(2, Max(0, a - d))
  {
    var e := Max(0, a - d);
    PowPositive(2, e);
    if a >= d {
      PowTwoSum(e, d);
      MulMono(Pow(2, d), m, Pow(2, e));
    } else {
      PowTwoSum(a, d - a);
      PowPositive(2, d - a);
      PowPositive(2, a);
      MulMono(1, Pow(2, d - a), Pow(2, a));
    }
    CeilAtMost(x, m, Pow(2, e));
  }

  // ------------------------------------------------------------------ recursion

  function CombineRule(l: Ledger, left: nat, right: nat): (r: nat)
    requires Sound(l)
  {
    MulNonNegative(l.n, l.expanded);
    MulNonNegative(l.factor, left + right);
    PowPositive(2, Max(0, Exponent(l, left, right)));
    l.factor * (left + right) + Dyadic(l, left, right) + l.rounding + l.switch
  }

  ghost predicate IsCombine(l: Ledger, left: nat, right: nat, r: nat)
    requires Sound(l)
  {
    forall t {:trigger Unfold(t)} :: Unfold(t) ==> r == CombineRule(l, left, right)
  }

  /** The bound of one multiplication; unfolded by CombineValue. */
  ghost function Combine(l: Ledger, left: nat, right: nat): (r: nat)
    requires Sound(l)
  {
    assert IsCombine(l, left, right, CombineRule(l, left, right));
    var r: nat :| IsCombine(l, left, right, r);
    r
  }

  lemma CombineValue(l: Ledger, left: nat, right: nat)
    requires Sound(l)
    ensures Combine(l, left, right) == CombineRule(l, left, right)
  {
    assert Unfold(0);
  }

  /** The bound of a balanced product of `count` factors, without the admission checks. */
  ghost function Raw(l: Ledger, count: nat): (r: nat)
    requires Sound(l) && count >= 1
  {
    if count == 1 then l.leaf else Combine(l, Raw(l, count / 2), Raw(l, count - count / 2))
  }

  datatype Stage = Input | Projection | Affine | Multiply | Section | Reassembly

  datatype Outcome = Admitted(error: nat) | Refused(stage: Stage, count: nat, error: nat)

  function Admit(l: Ledger, stage: Stage, count: nat, error: nat): Outcome
  {
    if error >= l.half then Refused(stage, count, error) else Admitted(error)
  }

  ghost function BoundedRule(l: Ledger, count: nat): Outcome
    requires Sound(l) && count >= 1
  {
    if count == 1 then Admit(l, Affine, 1, l.leaf)
    else
      match BoundedRule(l, count / 2)
      case Refused(s, c, e) => Refused(s, c, e)
      case Admitted(left) =>
        match BoundedRule(l, count - count / 2)
        case Refused(s, c, e) => Refused(s, c, e)
        case Admitted(right) => Admit(l, Multiply, count, Combine(l, left, right))
  }

  ghost predicate IsBounded(l: Ledger, count: nat, r: Outcome)
    requires Sound(l) && count >= 1
  {
    forall t {:trigger Unfold(t)} :: Unfold(t) ==> r == BoundedRule(l, count)
  }

  /** The recursion with its refusals, the left product before the right; unfolded by BoundedSplit. */
  ghost function Bounded(l: Ledger, count: nat): Outcome
    requires Sound(l) && count >= 1
  {
    assert IsBounded(l, count, BoundedRule(l, count));
    var r :| IsBounded(l, count, r);
    r
  }

  lemma BoundedSplit(l: Ledger, count: nat)
    requires Sound(l) && count >= 1
    ensures count == 1 ==> Bounded(l, count) == Admit(l, Affine, 1, l.leaf)
    ensures count > 1 ==>
              var left, right := Bounded(l, count / 2), Bounded(l, count - count / 2);
              Bounded(l, count) == if left.Refused? then left else if right.Refused? then right
                                   else Admit(l, Multiply, count, Combine(l, left.error, right.error))
  {
    assert Unfold(0);
  }

  /** An admitted bound is the raw bound, below half of delta; a refusal names a real overflow. */
  lemma {:induction false} BoundedIsRaw(l: Ledger, count: nat)
    requires Sound(l) && count >= 1
    ensures Bounded(l, count).Admitted? ==> Bounded(l, count).error == Raw(l, count) < l.half
    ensures Bounded(l, count).Refused? ==> Bounded(l, count).error >= l.half && 1 <= Bounded(l, count).count <= count
    ensures Bounded(l, count).Refused? ==> Bounded(l, count).error == Raw(l, Bounded(l, count).count)
  {
    BoundedSplit(l, count);
    if count > 1 {
      BoundedIsRaw(l, count / 2);
      BoundedIsRaw(l, count - count / 2);
    }
  }

  // ------------------------------------------------------------------ closed form

  /** floor(log2 count). */
  function Log2(count: nat): nat
    requires count >= 1
  {
    BitLength(count) - 1
  }

  /** The balanced tree with k full levels: 2^(k+1) - c leaves at depth k, the rest one deeper. */
  function Weight(f: int, k: nat, c: int): int
  {
    Pow(f, k) * ((Pow(2, k + 1) - c) + f * (2 * c - Pow(2, k + 1)))
  }

  /** Halving both the leaves and the level. */
  lemma WeightSplit(f: int, k: nat, a: int, b: int)
    requires k >= 1
    ensures Weight(f, k, a + b) == f * (Weight(f, k - 1, a) + Weight(f, k - 1, b))
  {
    var g, t := Pow(f, k - 1), Pow(2, k);
    assert Pow(2, k + 1) == 2 * t && Pow(f, k) == f * g;
    var u, v := (t - a) + f * (2 * a - t), (t - b) + f * (2 * b - t);
    SplitAlgebra(f, g, t, a, b, u, v);
  }

  lemma SplitAlgebra(f: int, g: int, t: int, a: int, b: int, u: int, v: int)
    requires u == (t - a) + f * (2 * a - t) && v == (t - b) + f * (2 * b - t)
    ensures (f * g) * ((2 * t - (a + b)) + f * (2 * (a + b) - 2 * t)) == f * (g * u + g * v)
  {
    Distribute(f, 2 * a - t, 2 * b - t);
    Distribute(g, u, v);
    Assoc(f, g, u + v);
  }

  /** A full level may be read at either depth. */
  lemma WeightFull(f: int, k: nat)
    requires k >= 1
    ensures Weight(f, k - 1, Pow(2, k)) == Weight(f, k, Pow(2, k))
  {
    var g, t := Pow(f, k - 1), Pow(2, k);
    assert Pow(2, k + 1) == 2 * t && Pow(f, k) == f * g;
    assert f * (2 * t - 2 * t) == 0;
    Assoc(g, f, t);
  }

  lemma {:induction false} PowTwoMono(a: nat, b: nat)
    requires a <= b
    ensures Pow(2, a) <= Pow(2, b)
  {
    if a < b {
      PowTwoMono(a, b - 1);
      PowPositive(2, b - 1);
    }
  }

  /** The two halves of a balanced split lie on the level below, up to a full level. */
  lemma HalvesLevel(count: nat, k: nat)
    requires k >= 1 && Pow(2, k) <= count < Pow(2, k + 1)
    ensures Pow(2, k - 1) <= count / 2 < Pow(2, k)
    ensures Pow(2, k - 1) <= count - count / 2 <= Pow(2, k)
  {
    assert Pow(2, k) == 2 * Pow(2, k - 1) && Pow(2, k + 1) == 2 * Pow(2, k);
  }

  lemma LevelZero(count: nat, k: nat)
    requires Pow(2, k) <= count < Pow(2, k + 1)
    ensures count == 1 <==> k == 0
  {
    PowTwoMono(if k > 0 then 1 else 0, k);
    assert Pow(2, 0) == 1 && Pow(2, 1) == 2 * Pow(2, 0);
  }

  lemma FullLevel(k: nat)
    ensures Pow(2, k) < Pow(2, k + 1) == 2 * Pow(2, k)
  {
    PowPositive(2, k);
  }

  /** The recursion is at least the linear-only closed form, for every number of factors. */
  lemma {:induction false} RawAboveClosedForm(l: Ledger, count: nat, k: nat)
    requires Sound(l) && count >= 1 && Pow(2, k) <= count < Pow(2, k + 1)
    ensures Raw(l, count) >= l.projection * Weight(l.factor, k, count)
    decreases count
  {
    LevelZero(count, k);
    if count == 1 {
      assert Pow(2, 1) == 2 * Pow(2, 0) && Pow(l.factor, 0) == 1;
      assert l.factor * 0 == 0;
      assert Weight(l.factor, 0, 1) == 1;
    } else {
      var a, b := count / 2, count - count / 2;
      HalvesLevel(count, k);
      assert Pow(2, k) == 2 * Pow(2, k - 1);
      RawAboveClosedForm(l, a, k - 1);
      if b == Pow(2, k) {
        FullLevel(k);
        RawAboveClosedForm(l, b, k);
        WeightFull(l.factor, k);
      } else {
        RawAboveClosedForm(l, b, k - 1);
      }
      WeightSplit(l.factor, k, a, b);
      CombineAbove(l, Raw(l, a), Raw(l, b), Weight(l.factor, k - 1, a), Weight(l.factor, k - 1, b), Weight(l.factor, k, count));
    }
  }

  lemma CombineAbove(l: Ledger, left: nat, right: nat, u: int, v: int, w: int)
    requires Sound(l) && left >= l.projection * u && right >= l.projection * v && w == l.factor * (u + v)
    ensures Combine(l, left, right) >= l.projection * w
  {
    CombineValue(l, left, right);
    PowPositive(2, Max(0, Exponent(l, left, right)));
    var p, f := l.projection, l.factor;
    Distribute(p, u, v);
    MulMono(p * (u + v), left + right, f);
    Exchange(p, f, u + v);
  }

  /** The recursion without its quadratic, rounding and switch terms and without the constants. */
  ghost function Linear(l: Ledger, count: nat): int
    requires count >= 1
  {
    if count == 1 then l.projection else l.factor * (Linear(l, count / 2) + Linear(l, count - count / 2))
  }

  /** The closed form is the linear recursion itself. */
  lemma {:induction false} LinearIsClosedForm(l: Ledger, count: nat, k: nat)
    requires count >= 1 && Pow(2, k) <= count < Pow(2, k + 1)
    ensures Linear(l, count) == l.projection * Weight(l.factor, k, count)
    decreases count
  {
    LevelZero(count, k);
    if count == 1 {
      UnitWeight(l.factor);
    } else {
      var a, b := count / 2, count - count / 2;
      HalvesLevel(count, k);
      LinearIsClosedForm(l, a, k - 1);
      if b == Pow(2, k) {
        FullLevel(k);
        LinearIsClosedForm(l, b, k);
        WeightFull(l.factor, k);
      } else {
        LinearIsClosedForm(l, b, k - 1);
      }
      WeightSplit(l.factor, k, a, b);
      LinearStep(l.projection, l.factor, Weight(l.factor, k - 1, a), Weight(l.factor, k - 1, b));
    }
  }

  lemma UnitWeight(f: int)
    ensures Weight(f, 0, 1) == 1
  {
    assert Pow(2, 1) == 2 * Pow(2, 0) && Pow(f, 0) == 1;
    assert f * 0 == 0;
  }

  lemma LinearStep(p: int, f: int, u: int, v: int)
    ensures f * (p * u + p * v) == p * (f * (u + v))
  {
    Distribute(p, u, v);
    Exchange(f, p, u + v);
  }

  /** projection*factor^k*(shallow + factor*deep) for the base-many factors. */
  function OptimisticProduct(l: Ledger): int
    requires Sound(l)
  {
    var k := Log2(l.base);
    var shallow, deep := Pow(2, k + 1) - l.base, 2 * l.base - Pow(2, k + 1);
    l.projection * Pow(l.factor, k) * (shallow + l.factor * deep)
  }

  /** The closed form is exactly the linear recursion over the base-many factors. */
  lemma OptimisticIsLinear(l: Ledger)
    requires Sound(l)
    ensures OptimisticProduct(l) == Linear(l, l.base) && OptimisticLift(l) == l.n * (l.projection + Linear(l, l.base))
  {
    var k := Log2(l.base);
    LogBounds(l.base);
    LinearIsClosedForm(l, l.base, k);
    WeightProduct(l.projection, l.factor, k, l.base);
  }

  function OptimisticLift(l: Ledger): int
    requires Sound(l)
  {
    l.n * (l.projection + OptimisticProduct(l))
  }

  lemma ProductAboveClosedForm(l: Ledger)
    requires Sound(l)
    ensures Raw(l, l.base) >= OptimisticProduct(l)
  {
    var k := Log2(l.base);
    LogBounds(l.base);
    RawAboveClosedForm(l, l.base, k);
    WeightProduct(l.projection, l.factor, k, l.base);
  }

  lemma LogBounds(x: nat)
    requires x >= 1
    ensures Pow(2, Log2(x)) <= x < Pow(2, Log2(x) + 1)
  {
    BitLengthBounds(x);
  }

  lemma WeightProduct(p: int, f: int, k: nat, c: int)
    ensures p * Weight(f, k, c) == p * Pow(f, k) * ((Pow(2, k + 1) - c) + f * (2 * c - Pow(2, k + 1)))
  {
    Assoc(p, Pow(f, k), (Pow(2, k + 1) - c) + f * (2 * c - Pow(2, k + 1)));
  }

  // -------------------------------------------------------------------- assessment

  /** The five admission points in order; Admitted carries the lifted error. */
  ghost function Assess(l: Ledger): Outcome
    requires Sound(l)
  {
    match Admit(l, Input, 1, l.phase)
    case Refused(s, c, e) => Refused(s, c, e)
    case Admitted(_) =>
      match Admit(l, Projection, 1, l.projection)
      case Refused(s, c, e) => Refused(s, c, e)
      case Admitted(_) =>
        match Bounded(l, l.base)
        case Refused(s, c, e) => Refused(s, c, e)
        case Admitted(bound) =>
          match Admit(l, Section, l.base, l.projection + bound)
          case Refused(s, c, e) => Refused(s, c, e)
          case Admitted(coefficient) =>
            MulNonNegative(l.n, coefficient);
            Admit(l, Reassembly, l.base, l.n * coefficient)
  }

  /**
   The closed form condemns in advance: an admitted lift lies at or above it and below
   half of delta, so whenever the closed form reaches half of delta the recursion refuses.
   */
  lemma ClosedFormCondemns(l: Ledger)
    requires Sound(l)
    ensures Assess(l).Admitted? ==> OptimisticLift(l) <= Assess(l).error < l.half
    ensures OptimisticLift(l) >= l.half ==> Assess(l).Refused?
    ensures Assess(l).Refused? ==> Assess(l).error >= l.half
  {
    BoundedIsRaw(l, l.base);
    ProductAboveClosedForm(l);
    MulMono(l.projection + OptimisticProduct(l), l.projection + Raw(l, l.base), l.n);
  }

  /** The refusal names the first admission point that fails. */
  lemma AssessStages(l: Ledger)
    requires Sound(l)
    ensures Assess(l).Refused? && Assess(l).stage == Input <==> l.phase >= l.half
    ensures Assess(l).Refused? && Assess(l).stage == Projection <==> l.phase < l.half <= l.projection
    ensures Assess(l).Refused? && Assess(l).stage == Section <==>
              && l.phase < l.half && l.projection < l.half && Bounded(l, l.base).Admitted?
              && l.projection + Raw(l, l.base) >= l.half
    ensures Assess(l).Refused? && Assess(l).stage == Reassembly <==>
              && l.phase < l.half && l.projection + Raw(l, l.base) < l.half && Bounded(l, l.base).Admitted?
              && l.n * (l.projection + Raw(l, l.base)) >= l.half
    ensures Assess(l).Refused? && (Assess(l).stage == Affine || Assess(l).stage == Multiply) <==>
              l.phase < l.half && l.projection < l.half && Bounded(l, l.base).Refused?
  {
    BoundedIsRaw(l, l.base);
    BoundedStages(l, l.base);
  }

  /** A refusal inside the product comes from its leaf or from a multiplication. */
  lemma {:induction false} BoundedStages(l: Ledger, count: nat)
    requires Sound(l) && count >= 1
    ensures Bounded(l, count).Refused? ==> Bounded(l, count).stage == (if Bounded(l, count).count == 1 then Affine else Multiply)
  {
    BoundedSplit(l, count);
    if count > 1 {
      BoundedStages(l, count / 2);
      BoundedStages(l, count - count / 2);
    }
  }

  // ------------------------------------------------------------------- memoisation

  ghost function ReachRule(count: nat): set<nat>
    requires count >= 1
  {
    if count == 1 then {1} else {count} + ReachRule(count / 2) + ReachRule(count - count / 2)
  }

  ghost predicate IsReach(count: nat, r: set<nat>)
    requires count >= 1
  {
    forall t {:trigger Unfold(t)} :: Unfold(t) ==> r == ReachRule(count)
  }

  /** The sub-products a balanced product visits; unfolded by ReachSplit. */
  ghost function Reach(count: nat): set<nat>
    requires count >= 1
  {
    assert IsReach(count, ReachRule(count));
    var r :| IsReach(count, r);
    r
  }

  lemma ReachSplit(count: nat)
    requires count >= 1
    ensures count == 1 ==> Reach(count) == {1}
    ensures count > 1 ==> Reach(count) == {count} + Reach(count / 2) + Reach(count - count / 2)
  {
    assert Unfold(0);
  }

  lemma {:induction false} ReachBelow(count: nat)
    requires count >= 1
    ensures forall c :: c in Reach(count) ==> 1 <= c <= count
  {
    ReachSplit(count);
    if count > 1 {
      ReachBelow(count / 2);
      ReachBelow(count - count / 2);
    }
  }

  ghost predicate TableRule(l: Ledger, cache: map<nat, nat>)
    requires Sound(l)
  {
    forall c :: c in cache ==> c >= 1 && Bounded(l, c) == Admitted(cache[c]) && Reach(c) <= cache.Keys
  }

  ghost predicate IsTable(l: Ledger, cache: map<nat, nat>, b: bool)
    requires Sound(l)
  {
    forall t {:trigger Unfold(t)} :: Unfold(t) ==> b == TableRule(l, cache)
  }

  /** The table holds admitted bounds and is closed under sub-products; unfolded by TableValue. */
  ghost predicate Table(l: Ledger, cache: map<nat, nat>)
    requires Sound(l)
  {
    assert IsTable(l, cache, TableRule(l, cache));
    var b :| IsTable(l, cache, b);
    b
  }

  lemma TableValue(l: Ledger, cache: map<nat, nat>, c: nat)
    requires Sound(l) && Table(l, cache) && c in cache
    ensures c >= 1 && Bounded(l, c) == Admitted(cache[c]) && Reach(c) <= cache.Keys
  {
    assert Unfold(0);
  }

  lemma TableInsert(l: Ledger, cache: map<nat, nat>, count: nat, error: nat)
    requires Sound(l) && Table(l, cache) && count >= 1 && Bounded(l, count) == Admitted(error)
    requires Reach(count) <= cache.Keys + {count}
    ensures Table(l, cache[count := error])
  {
    assert Unfold(0);
    var next := cache[count := error];
    assert next.Keys == cache.Keys + {count};
    forall c | c in next
      ensures c >= 1 && Bounded(l, c) == Admitted(next[c]) && Reach(c) <= next.Keys
    {
      if c != count {
        TableValue(l, cache, c);
      }
    }
  }

  lemma TableEmpty(l: Ledger)
    requires Sound(l)
    ensures Table(l, map[])
  {
    assert Unfold(0);
  }

  /** The multiplied nodes of a table: everything but the leaf. */
  ghost function Multiplied(cache: map<nat, nat>): nat
  {
    |cache.Keys - {1}|
  }

  lemma MultipliedInsert(cache: map<nat, nat>, count: nat, error: nat)
    requires count !in cache
    ensures cache[count := error].Keys == cache.Keys + {count}
    ensures Multiplied(cache[count := error]) == Multiplied(cache) + (if count == 1 then 0 else 1)
  {
    assert cache[count := error].Keys == cache.Keys + {count};
    SetInsert(cache.Keys, count);
  }

  lemma SetInsert(keys: set<nat>, count: nat)
    requires count !in keys
    ensures |(keys + {count}) - {1}| == |keys - {1}| + (if count == 1 then 0 else 1)
  {
    if count == 1 {
      assert (keys + {count}) - {1} == keys - {1};
    } else {
      assert (keys + {count}) - {1} == (keys - {1}) + {count};
    }
  }

  /** A revisited product adds nothing to the table. */
  lemma Revisited(l: Ledger, cache: map<nat, nat>, count: nat)
    requires Sound(l) && Table(l, cache) && count in cache
    ensures count >= 1 && cache.Keys == cache.Keys + Reach(count) && Bounded(l, count) == Admitted(cache[count])
  {
    TableValue(l, cache, count);
  }

  /** A new product extends the tables of its halves by itself. */
  lemma ReachGrow(count: nat, before: set<nat>, keys: set<nat>)
    requires count > 1 && count !in before && keys == before + Reach(count / 2) + Reach(count - count / 2)
    ensures count !in keys && Reach(count) <= keys + {count} && keys + {count} == before + Reach(count)
  {
    ReachSplit(count);
    ReachBelow(count / 2);
    ReachBelow(count - count / 2);
  }

  /** The memoised recursion: a table of admitted bounds and the counter of multiplied nodes. */
  class Certificate {
    const l: Ledger
    var cache: map<nat, nat>
    var nodesChecked: nat

    ghost predicate Valid()
      reads this
    {
      Sound(l) && Table(l, cache) && nodesChecked == Multiplied(cache)
    }

    constructor (l: Ledger)
      requires Sound(l)
      ensures Valid() && this.l == l && cache == map[]
    {
      this.l := l;
      cache := map[];
      nodesChecked := 0;
      new;
      TableEmpty(l);
    }

    /** One multiplication: the dyadic ceiling dominates the exact term, and the node is counted. */
    method Multiplication(count: nat, left: nat, right: nat) returns (r: Outcome)
      requires Sound(l) && count > 1
      modifies this`nodesChecked
      ensures r == Admit(l, Multiply, count, Combine(l, left, right))
      ensures nodesChecked == old(nodesChecked) + 1
    {
      MulNonNegative(l.n, l.expanded);
      DyadicDominates(l, left, right);
      assert Dyadic(l, left, right) >= ExactQuadratic(l, left, right);
      nodesChecked := nodesChecked + 1;
      CombineValue(l, left, right);
      r := Admit(l, Multiply, count, CombineRule(l, left, right));
    }

    /**
     The cached product: the same outcome as the plain recursion. On admission the table
     gains exactly the visited sub-products, each multiplied once.
     */
    method MemoProduct(count: nat) returns (r: Outcome)
      requires Valid() && count >= 1
      modifies this
      ensures r == Bounded(l, count)
      ensures r.Admitted? ==> Valid() && cache.Keys == old(cache.Keys) + Reach(count)
      decreases count
    {
      if count in cache {
        Revisited(l, cache, count);
        return Admitted(cache[count]);
      }
      BoundedSplit(l, count);
      if count == 1 {
        ReachSplit(1);
        r := Admit(l, Affine, 1, l.leaf);
      } else {
        var left := MemoProduct(count / 2);
        if left.Refused? {
          return left;
        }
        var right := MemoProduct(count - count / 2);
        if right.Refused? {
          return right;
        }
        ReachGrow(count, old(cache.Keys), cache.Keys);
        r := Multiplication(count, left.error, right.error);
      }
      if r.Admitted? {
        Remember(count, r.error);
      }
    }

    /** cache[count] = error, for a product whose halves are in the table and which has been counted. */
    method Remember(count: nat, error: nat)
      requires Sound(l) && Table(l, cache) && count >= 1 && count !in cache && Bounded(l, count) == Admitted(error)
      requires Reach(count) <= cache.Keys + {count} && nodesChecked == Multiplied(cache) + (if count == 1 then 0 else 1)
      modifies this`cache
      ensures Valid() && cache.Keys == old(cache.Keys) + {count}
    {
      TableInsert(l, cache, count, error);
      MultipliedInsert(cache, count, error);
      cache := cache[count := error];
    }
  }

  /** The assessment: the five admission points around the memoised product. */
  method AssessRecord(l: Ledger) returns (r: Outcome)
    requires Sound(l)
    ensures r == Assess(l)
  {
    r := Admit(l, Input, 1, l.phase);
    if r.Refused? {
      return;
    }
    r := Admit(l, Projection, 1, l.projection);
    if r.Refused? {
      return;
    }
    var certificate := new Certificate(l);
    var bound := certificate.MemoProduct(l.base);
    if bound.Refused? {
      return bound;
    }
    r := Reassemble(l, bound.error);
  }

  /** The last two admission points, for an admitted product bound. */
  method Reassemble(l: Ledger, bound: nat) returns (r: Outcome)
    requires Sound(l) && Admit(l, Input, 1, l.phase).Admitted? && Admit(l, Projection, 1, l.projection).Admitted?
    requires Bounded(l, l.base) == Admitted(bound)
    ensures r == Assess(l)
  {
    r := Admit(l, Section, l.base, l.projection + bound);
    if r.Refused? {
      return;
    }
    MulNonNegative(l.n, r.error);
    r := Admit(l, Reassembly, l.base, l.n * r.error);
  }

  /**
   From the parameters of a record to its verdict: refused parameters are exactly
   those without a ledger, and a closed form at half of delta forces a refusal.
   */
  method AssessParameters(r: Record, baseBits: nat) returns (result: Option<Outcome>)
    requires baseBits > 0 && forall i :: 0 <= i < |r.primes| ==> r.primes[i] > 0
    ensures result.None? <==> MakeLedger(r, baseBits).None?
    ensures result.None? <==>
              || r.n < 2 || !PowerOfTwo(r.n) || r.base < 3 || r.base % 2 == 0 || r.eta < 1
              || r.base * r.base <= 0 || ListProduct(r.primes) / (r.base * r.base) < 2
    ensures result.Some? ==> r.base * r.base > 0
    ensures result.Some? ==>
              var delta := ListProduct(r.primes) / (r.base * r.base);
              && (result.value.Admitted? ==> 2 * (result.value.error + 1) <= delta)
              && (result.value.Refused? ==> 2 * (result.value.error + 1) > delta)
    ensures result.Some? ==>
              var l := MakeLedger(r, baseBits).value;
              && Sound(l) && result.value == Assess(l)
              && (OptimisticLift(l) >= l.half ==> result.value.Refused?)
              && (result.value.Admitted? ==> OptimisticLift(l) <= result.value.error < l.half)
  {
    match MakeLedger(r, baseBits)
    case None =>
      return None;
    case Some(l) =>
      LedgerSound(r, baseBits);
      ClosedFormCondemns(l);
      var verdict := AssessRecord(l);
      return Some(verdict);
  }
}
