/**
 The polynomial of the canonical lift, F(x) = x + x*(x - 1)*...*(x - (p - 1)): for every
 prime p it is the low digit of x modulo p*p. The proof is Wilson's theorem, by pairing
 every residue with its inverse.
 */
module CanonicalSection {
  import opened Arith
  import opened Units

  // ------------------------------------------------------------------ falling products

  /** (x - start)*(x - start - 1)*... with count factors. */
  function Falling(x: int, start: int, count: nat): int
  {
    if count == 0 then 1 else Falling(x, start, count - 1) * (x - (start + count - 1))
  }

  lemma {:induction false} FallingSplit(x: int, start: int, a: nat, b: nat)
    ensures Falling(x, start, a + b) == Falling(x, start, a) * Falling(x, start + a, b)
  {
    if b > 0 {
      FallingSplit(x, start, a, b - 1);
      Assoc(Falling(x, start, a), Falling(x, start + a, b - 1), x - (start + a + b - 1));
    }
  }

  lemma OneFactor(x: int, start: int)
    ensures Falling(x, start, 1) == x - start
  {
    assert Falling(x, start, 0) == 1;
  }

  lemma {:induction false} FallingShift(x: int, start: int, count: nat)
    ensures Falling(x + 1, start + 1, count) == Falling(x, start, count)
  {
    if count > 0 {
      FallingShift(x, start, count - 1);
    }
  }

  lemma {:induction false} FallingCong(x: int, y: int, start: int, count: nat, m: int)
    requires m > 0 && Cong(x, y, m)
    ensures Cong(Falling(x, start, count), Falling(y, start, count), m)
  {
    if count > 0 {
      FallingCong(x, y, start, count - 1, m);
      var c := start + count - 1;
      CongSub(x, y, c, c, m);
      CongMul(Falling(x, start, count - 1), Falling(y, start, count - 1), x - c, y - c, m);
    }
  }

  // ------------------------------------------------------------------ Wilson's theorem

  /** The product of the members of s from 1 to k. */
  ghost function ProductOf(s: set<int>, k: nat): int
  {
    if k == 0 then 1 else ProductOf(s, k - 1) * (if k in s then k else 1)
  }

  lemma {:induction false} ProductRemove(s: set<int>, k: nat, x: int)
    requires x in s && 1 <= x
    ensures ProductOf(s, k) == (if x <= k then x else 1) * ProductOf(s - {x}, k)
  {
    if k > 0 {
      ProductRemove(s, k - 1, x);
      var y := ProductOf(s - {x}, k - 1);
      if x == k {
        assert ProductOf(s, k - 1) == y;
      } else if x < k {
        Assoc(x, y, if k in s then k else 1);
      }
    }
  }

  lemma {:induction false} EmptyProduct(s: set<int>, k: nat)
    requires forall x :: 1 <= x <= k ==> x !in s
    ensures ProductOf(s, k) == 1
  {
    if k > 0 {
      EmptyProduct(s, k - 1);
    }
  }

  ghost predicate Partners(x: int, y: int, p: int)
    requires p > 0
  {
    Cong(x * y, 1, p)
  }

  lemma PartnersComm(x: int, y: int, p: int)
    requires p > 0 && Partners(x, y, p)
    ensures Partners(y, x, p)
  {
    assert x * y == y * x;
  }

  /** Every member of s has a partner in s, other than itself, whose partner it is. */
  ghost predicate Paired(s: set<int>, f: map<int, int>)
  {
    forall x {:trigger x in s} :: x in s ==> x >= 1 && x in f && f[x] in s && f[x] != x && f[x] in f && f[f[x]] == x
  }

  lemma UnitFromInverse(x: int, y: int, p: int)
    requires p > 0 && Cong(x * y, 1, p)
    ensures Coprime(x, p)
  {
    var k := CongWitness(x * y, 1, p);
    assert Bezout(x, p, y, -k);
  }

  /** Inverses are unique. */
  lemma UniqueInverse(x: int, y: int, z: int, p: int)
    requires p > 0 && 0 <= y < p && 0 <= z < p && Partners(x, y, p) && Partners(x, z, p)
    ensures y == z
  {
    UnitFromInverse(x, y, p);
    CoprimeCancelEqual(x, y, z, p);
    CongSmallEqual(y, z, p);
  }

  /** The product of a set paired by inverses is 1 modulo p. */
  lemma {:induction false} PairsCancel(s: set<int>, f: map<int, int>, p: int)
    requires p > 0 && Paired(s, f) && forall x :: x in f && 1 <= x < p ==> Partners(x, f[x], p)
    requires forall x :: x in s ==> x < p
    ensures Cong(ProductOf(s, p - 1), 1, p)
    decreases |s|
  {
    if forall x :: 1 <= x < p ==> x !in s {
      EmptyProduct(s, p - 1);
    } else {
      var x :| 1 <= x < p && x in s;
      var y := f[x];
      var rest := s - {x, y};
      PairsCancel(rest, f, p);
      RemovePair(s, x, y, rest, p);
    }
  }

  lemma RemovePair(s: set<int>, x: int, y: int, rest: set<int>, p: int)
    requires 1 <= x < p && 1 <= y < p && x in s && y in s && x != y && rest == s - {x, y}
    requires Partners(x, y, p) && Cong(ProductOf(rest, p - 1), 1, p)
    ensures Cong(ProductOf(s, p - 1), 1, p)
  {
    ProductRemove(s, p - 1, x);
    ProductRemove(s - {x}, p - 1, y);
    assert s - {x} - {y} == rest;
    Assoc(x, y, ProductOf(rest, p - 1));
    CongMul(x * y, 1, ProductOf(rest, p - 1), 1, p);
  }

  function UpTo(k: int): (s: set<int>)
    ensures forall x :: x in s <==> 1 <= x <= k
  {
    if k <= 0 then {} else UpTo(k - 1) + {k}
  }

  /** The residues other than 0, 1 and -1. */
  function Middle(p: int): (s: set<int>)
    ensures forall x :: x in s <==> 2 <= x <= p - 2
  {
    UpTo(p - 2) - {1}
  }

  /** Only 1 and -1 are their own inverses. */
  lemma SelfInverse(x: int, p: int)
    requires Prime(p) && 1 <= x < p && Cong(x * x, 1, p)
    ensures x == 1 || x == p - 1
  {
    if x != 1 {
      assert (x - 1) * (x + 1) == x * x - 1;
      CongSub(x * x, 1, 1, 1, p);
      NonzeroResidue(x - 1, p);
      PrimeUnit(x - 1, p);
      CoprimeCancel(x - 1, x + 1, p);
      if x + 1 < p {
        NonzeroResidue(x + 1, p);
      }
    }
  }

  lemma NonzeroResidue(x: int, p: int)
    requires 0 < x < p
    ensures !Cong(x, 0, p)
  {
    if Cong(x, 0, p) {
      CongSmallEqual(x, 0, p);
    }
  }

  /** The inverses modulo p. */
  ghost function Inverses(p: int): (f: map<int, int>)
    requires Prime(p)
    ensures forall x :: x in f <==> 1 <= x < p
    ensures forall x :: x in f ==> 0 <= f[x] < p && Partners(x, f[x], p)
  {
    map x | 1 <= x < p :: InverseAt(x, p)
  }

  function InverseAt(x: int, p: int): (y: int)
    requires Prime(p) && 1 <= x < p
    ensures 0 <= y < p && Partners(x, y, p)
  {
    NonzeroResidue(x, p);
    PrimeUnit(x, p);
    InverseCorrect(x, p);
    Inverse(x, p).value
  }

  lemma MiddlePaired(p: int)
    requires Prime(p)
    ensures Paired(Middle(p), Inverses(p))
  {
    var f := Inverses(p);
    forall x | x in Middle(p)
      ensures f[x] in Middle(p) && f[x] != x && f[f[x]] == x
    {
      PartnerInside(x, f[x], p);
      if f[x] == x {
        SelfInverse(x, p);
      }
      PartnersComm(x, f[x], p);
      UniqueInverse(f[x], f[f[x]], x, p);
    }
  }

  /** The partner of a middle residue is not 0, 1 or -1. */
  lemma PartnerInside(x: int, y: int, p: int)
    requires 2 <= x <= p - 2 && 0 <= y < p && Cong(x * y, 1, p)
    ensures 2 <= y <= p - 2
  {
    if y == 0 {
      CongSmallEqual(0, 1, p);
    } else if y == 1 {
      CongSmallEqual(x, 1, p);
    } else if y == p - 1 {
      DistributeSub(x, p, 1);
      assert x * p == p * x;
      CongFrom(-x, x * (p - 1), p, -x);
      CongSub(0, 0, -x, 1, p);
      CongSmallEqual(x, -1, p);
    }
  }

  /** Wilson's theorem. */
  lemma Wilson(p: int)
    requires Prime(p)
    ensures Cong(ProductOf(UpTo(p - 1), p - 1), -1, p)
  {
    if p == 2 {
      assert ProductOf(UpTo(1), 1) == ProductOf(UpTo(1), 0) * 1;
      CongFrom(1, -1, 2, 1);
    } else {
      var y := MiddleProduct(p);
      MiddlePaired(p);
      PairsCancel(Middle(p), Inverses(p), p);
      CongFrom(p - 1, -1, p, 1);
      CongMul(p - 1, -1, y, 1, p);
    }
  }

  lemma MiddleProduct(p: int) returns (y: int)
    requires p >= 3
    ensures y == ProductOf(Middle(p), p - 1) && ProductOf(UpTo(p - 1), p - 1) == (p - 1) * y
  {
    var all := UpTo(p - 1);
    ProductRemove(all, p - 1, p - 1);
    ProductRemove(all - {p - 1}, p - 1, 1);
    assert all - {p - 1} - {1} == Middle(p);
    y := ProductOf(Middle(p), p - 1);
  }

  // -------------------------------------------------------------- the slope at a root

  lemma {:induction false} FactorialProduct(k: nat)
    ensures Falling(k, 0, k) == ProductOf(UpTo(k), k)
  {
    if k > 0 {
      FactorialProduct(k - 1);
      FallingSplit(k, 0, 1, k - 1);
      OneFactor(k, 0);
      FallingShift(k - 1, 0, k - 1);
      SameProduct(UpTo(k), UpTo(k - 1), k - 1);
    }
  }

  lemma {:induction false} SameProduct(s: set<int>, t: set<int>, k: nat)
    requires forall x :: 1 <= x <= k ==> (x in s <==> x in t)
    ensures ProductOf(s, k) == ProductOf(t, k)
  {
    if k > 0 {
      SameProduct(s, t, k - 1);
    }
  }

  /** The product of all factors but x - d at x = d: the slope of the falling product at its root d. */
  function Slope(d: nat, p: nat): int
    requires d < p
  {
    Falling(d, 0, d) * Falling(d, d + 1, p - 1 - d)
  }

  lemma SlopeStep(d: nat, p: nat)
    requires d + 1 < p
    ensures Slope(d, p) * (d + 1) == Slope(d + 1, p) * (d + 1 - p)
  {
    var count := p - 2 - d;
    var a, b := Falling(d, 0, d), Falling(d, d + 1, count);
    FallingSplit(d + 1, 0, 1, d);
    OneFactor(d + 1, 0);
    FallingShift(d, 0, d);
    FallingShift(d, d + 1, count);
    assert Falling(d + 1, 0, d + 1) == (d + 1) * a;
    assert Falling(d, d + 1, count + 1) == b * (d - (d + 1 + count));
    Assoc(a, b, d + 1 - p);
    Assoc(d + 1, a, b);
    Assoc(d + 1, a * b, d + 1 - p);
  }

  /** The slope at the last root is a factorial. */
  lemma LastSlope(p: nat)
    requires Prime(p)
    ensures Cong(Slope(p - 1, p), -1, p)
  {
    FactorialProduct(p - 1);
    Wilson(p);
    assert Falling(p - 1, p, 0) == 1;
  }

  lemma CarriedSlope(x: int, y: int, e: int, p: int)
    requires Prime(p) && 0 < e < p && x * e == y * (e - p) && Cong(y, -1, p)
    ensures Cong(x, -1, p)
  {
    CongFrom(e - p, e, p, -1);
    CongMul(y, -1, e - p, e, p);
    NonzeroResidue(e, p);
    PrimeUnit(e, p);
    assert x * e == e * x && -1 * e == e * -1;
    CoprimeCancelEqual(e, x, -1, p);
  }

  /** Every slope is -1 modulo p. */
  lemma {:induction false} SlopeIsMinusOne(d: nat, p: nat)
    requires Prime(p) && d < p
    ensures Cong(Slope(d, p), -1, p)
    decreases p - d
  {
    if d == p - 1 {
      LastSlope(p);
    } else {
      SlopeIsMinusOne(d + 1, p);
      SlopeStep(d, p);
      CarriedSlope(Slope(d, p), Slope(d + 1, p), d + 1, p);
    }
  }

  // ------------------------------------------------------------------- the low digit

  /** F(x) = x + x*(x - 1)*...*(x - (p - 1)), which the lift evaluates on every coefficient. */
  function SectionValue(x: int, p: nat): int
  {
    x + Falling(x, 0, p)
  }

  /** The falling product is the root's distance times the other factors. */
  lemma RootFactor(x: int, p: nat, d: nat)
    requires d < p
    ensures Falling(x, 0, p) == (x - d) * (Falling(x, 0, d) * Falling(x, d + 1, p - 1 - d))
  {
    FallingSplit(x, 0, d, p - d);
    FallingSplit(x, d, 1, p - 1 - d);
    OneFactor(x, d);
    Exchange(Falling(x, 0, d), x - d, Falling(x, d + 1, p - 1 - d));
  }

  /** For every prime p and integer x, F(x) is the low digit of x in base p, modulo p*p. */
  lemma LowDigit(x: int, p: nat)
    requires Prime(p) && p * p > 0
    ensures Cong(SectionValue(x, p), x % p, p * p)
  {
    var d, k := x % p, x / p;
    assert x == p * k + d;
    var others := Falling(x, 0, d) * Falling(x, d + 1, p - 1 - d);
    RootFactor(x, p, d);
    ModCong(x, p);
    FallingCong(x, d, 0, d, p);
    FallingCong(x, d, d + 1, p - 1 - d, p);
    CongMul(Falling(x, 0, d), Falling(d, 0, d), Falling(x, d + 1, p - 1 - d), Falling(d, d + 1, p - 1 - d), p);
    SlopeIsMinusOne(d, p);
    assert Cong(others, -1, p);
    LiftedProduct(p, k, others);
    CongAdd(x, x, (p * k) * others, -(p * k), p * p);
  }

  lemma LiftedProduct(p: nat, k: int, others: int)
    requires p > 0 && p * p > 0 && Cong(others, -1, p)
    ensures Cong((p * k) * others, -(p * k), p * p)
  {
    CongScale(k, others, -1, p);
    CongScaleModulus(p, k * others, k * -1, p);
    Assoc(p, k, others);
    Assoc(p, k, -1);
  }
}
