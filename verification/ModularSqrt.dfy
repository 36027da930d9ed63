/** scripts/util.py modular_sqrt: the closed form for primes that are 3 mod 4 and the
    Tonelli-Shanks loop for the others. */
module ModularSqrt {
  import opened ModArith
  import opened Primes
  import opened Residues
  import opened Wrappers

  /** The closed-form branch: a^((p+1)/4) when a is a residue. */
  function PrincipalSqrt(a: int, p: int): (r: Option<int>)
    requires p > 1
    ensures r.Some? ==> 0 <= r.value < p
  {
    if Legendre(a, p) != 1 then None else Some(Pow(a, (p + 1) / 4) % p)
  }

  lemma {:induction false} ResiduePower(p: int, a: int, e: nat)
    requires OddPrime(p) && Legendre(a, p) == 1
    ensures Legendre(Pow(a, e), p) == 1
    decreases e
  {
    if e == 0 {
      OneNonzero(p);
      LegendreSquare(p, 1);
    } else {
      ResiduePower(p, a, e - 1);
      LegendreProduct(p, a, Pow(a, e - 1));
    }
  }

  /** Two roots of the same number differ by a sign. */
  lemma RootsUpToSign(p: int, a: int, x: int, y: int)
    requires IsPrime(p) && IsRoot(p, a, x) && IsRoot(p, a, y)
    ensures Cong(p, x, y) || Cong(p, x, -y)
  {
    Lin2(p, (x - y) * (x + y), 1, x * x - a, -1, y * y - a) by {
      assert (x - y) * (x + y) == x * x - y * y;
    }
    Euclid(p, x - y, x + y);
  }

  lemma PrincipalRootSquares(p: int, a: int)
    requires OddPrime(p) && p % 4 == 3 && Legendre(a, p) == 1
    ensures IsRoot(p, a, Pow(a, (p + 1) / 4))
  {
    var k, h := (p + 1) / 4, Half(p);
    LegendreMeaning(p, a);
    PowAdd(a, k, k);
    assert k + k == h + 1;
    MultipleDivides(p, 0);
    CongMul(p, a, a, Pow(a, h), 1);
  }

  /** For p == 3 mod 4 the result exists exactly for nonzero squares, squares to a, and is the one
      root that is itself a residue. */
  lemma PrincipalSqrtMeaning(p: int, a: int)
    requires OddPrime(p) && p % 4 == 3
    ensures PrincipalSqrt(a, p).Some? <==> NonzeroSquare(p, a)
    ensures forall y :: PrincipalSqrt(a, p) == Some(y) <==>
                        0 < y < p && IsRoot(p, a, y) && Legendre(y, p) == 1 && !Divides(p, a)
  {
    EulerCriterion(p, a);
    if Legendre(a, p) == 1 {
      var w := Pow(a, (p + 1) / 4);
      var r := w % p;
      PrincipalRootSquares(p, a);
      ResiduePower(p, a, (p + 1) / 4);
      ModCong(p, w);
      CongMul(p, r, w, r, w);
      CongTrans(p, r * r, w * w, a);
      LegendreCong(p, r, w);
      LegendreMeaning(p, r);
      forall y | 0 < y < p && IsRoot(p, a, y) && Legendre(y, p) == 1
        ensures y == r
      {
        PrincipalUnique(p, a, r, y);
      }
    } else {
      forall y | 0 < y < p && IsRoot(p, a, y) && !Divides(p, a)
        ensures NonzeroSquare(p, a)
      {
      }
    }
  }

  lemma PrincipalUnique(p: int, a: int, x: int, y: int)
    requires OddPrime(p) && p % 4 == 3 && IsRoot(p, a, x) && IsRoot(p, a, y)
    requires Legendre(x, p) == 1 && Legendre(y, p) == 1
    requires 0 <= x < p && 0 <= y < p
    ensures x == y
  {
    RootsUpToSign(p, a, x, y);
    if Cong(p, x, -y) {
      LegendreCong(p, x, -y);
      LegendreNegative(p, y);
    }
    SmallMultiple(p, x - y);
  }

  // ------------------------------------------------------------------ repeated squaring

  function Pow2(k: nat): (r: nat)
    ensures r >= 1
  {
    if k == 0 then 1 else 2 * Pow2(k - 1)
  }

  /** b squared k times. */
  function Squared(b: int, k: nat): int {
    if k == 0 then b else Squared(b, k - 1) * Squared(b, k - 1)
  }

  lemma {:induction false} SquaredIsPow(b: int, s: nat, k: nat)
    ensures Pow(b, s * Pow2(k)) == Squared(Pow(b, s), k)
    decreases k
  {
    if k > 0 {
      SquaredIsPow(b, s, k - 1);
      var d := s * Pow2(k - 1);
      assert s * Pow2(k) == d + d;
      PowAdd(b, d, d);
    }
  }

  lemma {:induction false} SquaredProduct(x: int, y: int, k: nat)
    ensures Squared(x * y, k) == Squared(x, k) * Squared(y, k)
    decreases k
  {
    if k > 0 {
      SquaredProduct(x, y, k - 1);
      var s, t := Squared(x, k - 1), Squared(y, k - 1);
      MulExchange(s, t, s, t);
    }
  }

  lemma {:induction false} SquaredTwice(b: int, j: nat, k: nat)
    ensures Squared(Squared(b, j), k) == Squared(b, j + k)
    decreases k
  {
    if k > 0 { SquaredTwice(b, j, k - 1); }
  }

  lemma {:induction false} SquaredCong(p: int, x: int, y: int, k: nat)
    requires p > 0 && Cong(p, x, y)
    ensures Cong(p, Squared(x, k), Squared(y, k))
    decreases k
  {
    if k > 0 {
      SquaredCong(p, x, y, k - 1);
      CongMul(p, Squared(x, k - 1), Squared(y, k - 1), Squared(x, k - 1), Squared(y, k - 1));
    }
  }

  // ------------------------------------------------------------------ Tonelli-Shanks

  /** The loop invariant: x*x == a*b, g^(2^(r-1)) == -1 and b^(2^(r-1)) == 1. */
  ghost predicate Invariant(p: int, a: int, x: int, b: int, g: int, r: int)
  {
    && p > 0 && r > 0
    && 0 <= x < p && 0 <= b < p
    && Cong(p, x * x, a * b)
    && Cong(p, Squared(g, r - 1), -1)
    && Cong(p, Squared(b, r - 1), 1)
  }

  lemma InvariantInit(p: int, a: int, n: int, s: nat, e: nat)
    requires OddPrime(p) && s % 2 == 1 && e > 0 && s * Pow2(e) == p - 1
    requires Legendre(a, p) == 1 && Legendre(n, p) == -1
    ensures Invariant(p, a, Pow(a, (s + 1) / 2) % p, Pow(a, s) % p, Pow(n, s) % p, e)
  {
    hide Pow, Squared, Legendre;
    LegendreMeaning(p, a);
    LegendreMeaning(p, n);
    HalfExponent(p, s, e);
    ReducedPower(p, n, s, e - 1, -1);
    ReducedPower(p, a, s, e - 1, 1);
    RootInit(p, a, s);
  }

  lemma HalfExponent(p: int, s: nat, e: nat)
    requires e > 0 && s * Pow2(e) == p - 1
    ensures s * Pow2(e - 1) == Half(p)
  {
    assert s * Pow2(e) == 2 * (s * Pow2(e - 1));
  }

  lemma ReducedPower(p: int, c: int, s: nat, k: nat, v: int)
    requires p > 0 && Cong(p, Pow(c, s * Pow2(k)), v)
    ensures Cong(p, Squared(Pow(c, s) % p, k), v)
  {
    SquaredIsPow(c, s, k);
    ModCong(p, Pow(c, s));
    SquaredCong(p, Pow(c, s) % p, Pow(c, s), k);
    CongTrans(p, Squared(Pow(c, s) % p, k), Squared(Pow(c, s), k), v);
  }

  lemma RootInit(p: int, a: int, s: nat)
    requires p > 0 && s % 2 == 1
    ensures var x, b := Pow(a, (s + 1) / 2) % p, Pow(a, s) % p;
            Cong(p, x * x, a * b)
  {
    var t := (s + 1) / 2;
    var w, y := Pow(a, t), Pow(a, s);
    PowAdd(a, t, t);
    assert w * w == a * y by { assert t + t == s + 1; }
    ModCong(p, w);
    ModCong(p, y);
    MultipleDivides(p, 0);
    CongMul(p, w % p, w, w % p, w);
    CongMul(p, a, a, y, y % p);
    CongTrans(p, (w % p) * (w % p), w * w, a * (y % p));
  }

  /** One round with 0 < m < r, where m is the least number of squarings that takes b to 1. */
  lemma InvariantStep(p: int, a: int, x: int, b: int, g: int, r: int, m: int, gs: int)
    requires OddPrime(p) && Invariant(p, a, x, b, g, r) && 0 < m < r
    requires Cong(p, Squared(b, m), 1) && !Cong(p, Squared(b, m - 1), 1)
    requires Cong(p, gs, Squared(g, r - m - 1))
    ensures var g' := (gs * gs) % p; Invariant(p, a, (x * gs) % p, (b * g') % p, g', m)
  {
    var g' := (gs * gs) % p;
    ModCong(p, gs * gs);
    RootStep(p, a, x, b, gs, g');
    // g' is g squared r - m times
    CongMul(p, gs, Squared(g, r - m - 1), gs, Squared(g, r - m - 1));
    CongTrans(p, g', gs * gs, Squared(g, r - m));
    SquaredCong(p, g', Squared(g, r - m), m - 1);
    SquaredTwice(g, r - m, m - 1);
    CongTrans(p, Squared(g', m - 1), Squared(g, r - 1), -1);
    // b squared m - 1 times is -1, and the two signs cancel
    RootsOfOne(p, Squared(b, m - 1));
    ModCong(p, b * g');
    SquaredCong(p, (b * g') % p, b * g', m - 1);
    SquaredProduct(b, g', m - 1);
    CongMul(p, Squared(b, m - 1), -1, Squared(g', m - 1), -1);
    CongTrans(p, Squared((b * g') % p, m - 1), Squared(b * g', m - 1), 1);
  }

  lemma RootStep(p: int, a: int, x: int, b: int, gs: int, g': int)
    requires p > 0 && Cong(p, x * x, a * b) && Cong(p, g', gs * gs)
    ensures var x', b' := (x * gs) % p, (b * g') % p; Cong(p, x' * x', a * b')
  {
    var x', b' := (x * gs) % p, (b * g') % p;
    ModCong(p, x * gs);
    CongMul(p, x', x * gs, x', x * gs);
    ModCong(p, b * g');
    MultipleDivides(p, 0);
    CongMul(p, a, a, b * g', b');
    MulExchange(x, gs, x, gs);
    CongMul(p, x * x, a * b, gs * gs, g') by { CongSym(p, g', gs * gs); }
    assert (a * b) * g' == a * (b * g');
    CongTrans(p, (x * gs) * (x * gs), (a * b) * g', a * b');
    CongTrans(p, x' * x', (x * gs) * (x * gs), a * b');
  }

  /** The inner search: m ends as the least m with b^(2^m) == 1. */
  method Order2(p: int, b: int, r: int) returns (m: int)
    requires IsPrime(p) && r > 0 && 0 <= b < p && Cong(p, Squared(b, r - 1), 1)
    ensures 0 <= m < r && Cong(p, Squared(b, m), 1)
    ensures forall i :: 0 <= i < m ==> !Cong(p, Squared(b, i), 1)
  {
    var t := b;
    m := 0;
    var k := 0;
    MultipleDivides(p, 0);
    while k < r
      invariant 0 <= k <= r && 0 <= t < p
      invariant Cong(p, t, Squared(b, k))
      invariant forall i :: 0 <= i < k ==> !Cong(p, Squared(b, i), 1)
    {
      m := k;
      TargetReached(p, t, Squared(b, k));
      if t == 1 {
        return;
      }
      ModCong(p, t * t);
      CongMul(p, t, Squared(b, k), t, Squared(b, k));
      CongTrans(p, (t * t) % p, t * t, Squared(b, k + 1));
      t := (t * t) % p;
      k := k + 1;
    }
  }

  lemma TargetReached(p: int, t: int, v: int)
    requires IsPrime(p) && 0 <= t < p && Cong(p, t, v)
    ensures t == 1 <==> Cong(p, v, 1)
  {
    OneResidue(p, v);
    ReducedIsResidue(p, t, v);
  }

  /** p - 1 == s * 2^e with s odd. */
  method OddPart(p: int) returns (s: int, e: nat)
    requires p > 1
    ensures s > 0 && s % 2 == 1 && s * Pow2(e) == p - 1
  {
    s, e := p - 1, 0;
    while s % 2 == 0
      invariant s > 0 && s * Pow2(e) == p - 1
      decreases s
    {
      assert (s / 2) * Pow2(e + 1) == s * Pow2(e);
      s := s / 2;
      e := e + 1;
    }
  }

  /** The least n >= 2 whose symbol is -1. */
  method FindNonResidue(p: int) returns (n: int)
    requires OddPrime(p)
    ensures 2 <= n < p && Legendre(n, p) == -1
    ensures forall i :: 2 <= i < n ==> Legendre(i, p) != -1
  {
    ghost var w := NonResidueExists(p);
    n := 2;
    while Legendre(n, p) != -1
      invariant 2 <= n <= w
      invariant forall i :: 2 <= i < n ==> Legendre(i, p) != -1
      decreases w - n
    {
      n := n + 1;
    }
  }

  /** The outer loop of Tonelli-Shanks. */
  method TonelliShanks(a: int, p: int) returns (x: int)
    requires OddPrime(p) && Legendre(a, p) == 1
    ensures 0 <= x < p && IsRoot(p, a, x)
  {
    hide Pow, Squared, Legendre, Invariant;
    var s, e := OddPart(p);
    var n := FindNonResidue(p);
    EvenOrder(p, s, e);
    x := Pow(a, (s + 1) / 2) % p;
    var b := Pow(a, s) % p;
    var g := Pow(n, s) % p;
    var r: int := e;
    InvariantInit(p, a, n, s, e);
    while true
      invariant Invariant(p, a, x, b, g, r)
      decreases r
    {
      InvariantFacts(p, a, x, b, g, r);
      var m := Order2(p, b, r);
      if m == 0 {
        RootFound(p, a, x, b);
        return;
      }
      assert !Cong(p, Squared(b, m - 1), 1);
      var gs := Pow(g, Pow2(r - m - 1)) % p;
      StepFactor(p, g, r - m - 1);
      InvariantStep(p, a, x, b, g, r, m, gs);
      g := (gs * gs) % p;
      x := (x * gs) % p;
      b := (b * g) % p;
      r := m;
    }
  }

  /** p - 1 is even, so at least one factor 2 was split off. */
  lemma EvenOrder(p: int, s: int, e: nat)
    requires p % 2 == 1 && s % 2 == 1 && s * Pow2(e) == p - 1
    ensures e > 0
  {
  }

  lemma InvariantFacts(p: int, a: int, x: int, b: int, g: int, r: int)
    requires Invariant(p, a, x, b, g, r)
    ensures r > 0 && 0 <= x < p && 0 <= b < p
    ensures Cong(p, x * x, a * b) && Cong(p, Squared(b, r - 1), 1)
  {
  }

  lemma RootFound(p: int, a: int, x: int, b: int)
    requires p > 0 && Cong(p, x * x, a * b) && Cong(p, Squared(b, 0), 1)
    ensures IsRoot(p, a, x)
  {
    MultipleDivides(p, 0);
    CongMul(p, a, a, b, 1);
    CongTrans(p, x * x, a * b, a);
  }

  lemma StepFactor(p: int, g: int, k: nat)
    requires p > 0
    ensures Cong(p, Pow(g, Pow2(k)) % p, Squared(g, k))
  {
    SquaredIsPow(g, 1, k);
    assert Pow(g, 1) == g * Pow(g, 0) == g;
    assert 1 * Pow2(k) == Pow2(k);
    ModCong(p, Pow(g, Pow2(k)));
  }

  /** scripts/util.py modular_sqrt, for every odd prime: a root is returned exactly when a is a
      nonzero square. The test for a == 0 after the symbol test is unreachable and is not copied. */
  method ModSqrt(a: int, p: int) returns (r: Option<int>)
    requires OddPrime(p)
    ensures r.Some? <==> NonzeroSquare(p, a)
    ensures r.Some? ==> 0 < r.value < p && IsRoot(p, a, r.value)
    ensures p % 4 == 3 ==> r == PrincipalSqrt(a, p)
  {
    EulerCriterion(p, a);
    if Legendre(a, p) != 1 {
      return None;
    }
    LegendreMeaning(p, a);
    if p % 4 == 3 {
      PrincipalSqrtMeaning(p, a);
      return Some(Pow(a, (p + 1) / 4) % p);
    }
    var x := TonelliShanks(a, p);
    if x == 0 {
      Lin1(p, a, -1, 0 * 0 - a);
    }
    r := Some(x);
  }
}
