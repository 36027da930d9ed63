/** Inverting f: scripts/encode.py calc_v. */
module Inversion {
  import opened ModArith
  import opened Primes
  import opened Residues
  import opened ModularSqrt
  import opened Curves
  import opened Elligator
  import opened Wrappers

  /** The principal root of e or, when positive is false, its negative p - r. */
  function SignedRoot(p: int, e: int, positive: bool): Option<int>
    requires p > 1
  {
    match PrincipalSqrt(e, p)
    case None => None
    case Some(r) => Some(if positive then r else p - r)
  }

  lemma SignedRootMeaning(p: int, e: int, positive: bool, y: int)
    requires OddPrime(p) && p % 4 == 3
    ensures SignedRoot(p, e, positive) == Some(y) <==>
            0 < y < p && IsRoot(p, e, y) && !Divides(p, e) && (Legendre(y, p) == 1 <==> positive)
  {
    PrincipalSqrtMeaning(p, e);
    if !positive {
      NegatedRoot(p, y);
      NegatedRoot(p, p - y);
      LegendreCong(p, p - y, -y);
      LegendreNegative(p, y);
      if IsRoot(p, e, y) {
        CongTrans(p, (p - y) * (p - y), y * y, e);
      }
      if IsRoot(p, e, p - y) {
        CongTrans(p, (p - (p - y)) * (p - (p - y)), (p - y) * (p - y), e);
      }
      if 0 < y < p {
        LegendreMeaning(p, y);
        if Divides(p, y) { SmallMultiple(p, y); }
      }
    }
  }

  /** The factor whose inverse calc_v multiplies by. */
  function Divisor(c: Curve, q: Point): int
    requires IsPrime(c.p) && !Divides(c.p, c.b) && q.Affine?
  {
    if IsQuadraticResidue(q.y, c.p) then 2 * Omega(c, q.x) else 2
  }

  function Discriminant(c: Curve, q: Point): int
    requires IsPrime(c.p) && !Divides(c.p, c.b) && q.Affine?
  {
    var omega := Omega(c, q.x);
    (omega * omega) % c.p - 4 * omega
  }

  lemma PositiveSymbol(p: int, d: int)
    requires OddPrime(p) && PrincipalSqrt(d, p).Some?
    ensures !Divides(p, d)
  {
    EulerCriterion(p, d);
  }

  lemma DivisorInvertible(c: Curve, q: Point)
    requires c.Valid() && q.Affine? && PrincipalSqrt(Discriminant(c, q), c.p).Some?
    ensures !Divides(c.p, Omega(c, q.x)) && !Divides(c.p, Divisor(c, q))
  {
    hide Omega, Legendre;
    var p, o, d := c.p, Omega(c, q.x), Discriminant(c, q);
    PositiveSymbol(p, d);
    if Divides(p, o) {
      ModCong(p, o * o);
      Lin2(p, d, 1, (o * o) % p - o * o, o - 4, o);
    }
    if Divides(p, 2) { SmallMultiple(p, 2); }
    NonzeroProduct(p, 2, o);
  }

  /** scripts/encode.py calc_v. */
  function CalcV(c: Curve, q: Point, j: int): Option<int>
    requires c.Valid() && q.Affine?
  {
    match SignedRoot(c.p, Discriminant(c, q), j == 0 || j == 1)
    case None => None
    case Some(sqrt) =>
      DivisorInvertible(c, q);
      SignedRoot(c.p, (Omega(c, q.x) + sqrt) * InvertMod(Divisor(c, q), c.p).value, j == 0 || j == 2)
  }

  /** The square root of the discriminant that belongs to a preimage v. */
  function Turn(c: Curve, q: Point, v: int): int
    requires IsPrime(c.p) && !Divides(c.p, c.b) && q.Affine?
  {
    Divisor(c, q) * (v * v) - Omega(c, q.x)
  }

  lemma DiscriminantCong(c: Curve, q: Point)
    requires c.Valid() && q.Affine?
    ensures var o := Omega(c, q.x); Cong(c.p, Discriminant(c, q), o * o - 4 * o)
  {
    var p, o := c.p, Omega(c, q.x);
    ModCong(p, o * o);
    Lin1(p, Discriminant(c, q) - (o * o - 4 * o), 1, (o * o) % p - o * o);
  }

  lemma TurnIdentity(o: int, w: int)
    ensures (2 * o * w - o) * (2 * o * w - o) - (o * o - 4 * o) == (4 * o) * (o * (w * w - w) + 1)
    ensures (2 * w - o) * (2 * w - o) - (o * o - 4 * o) == 4 * (w * w - o * (w - 1))
  {
    var z := o * w;
    assert 2 * o * w == 2 * z;
    assert o * (o * (w * w - w) + 1) == z * z - o * z + o by {
      assert o * (o * (w * w - w)) == (o * w) * (o * w) - o * (o * w);
    }
  }

  /** v is a preimage of q exactly when its turn squares to the discriminant. */
  lemma PreimageTurns(c: Curve, q: Point, v: int)
    requires EncodingCurve(c) && q.Affine? && c.OnCurve(q) && !Divides(c.p, Omega(c, q.x))
    ensures F(c, v) == Ok(q) <==> IsRoot(c.p, Discriminant(c, q), Turn(c, q, v))
  {
    hide F, Omega, Legendre, Discriminant;
    var p, o, w, t := c.p, Omega(c, q.x), v * v, Turn(c, q, v);
    Preimages(c, v, q);
    DiscriminantCong(c, q);
    TurnIdentity(o, w);
    FourNonzero(p);
    NonzeroProduct(p, 4, o);
    var d := o * o - 4 * o;
    CongSwap(p, t * t, Discriminant(c, q), d);
    if Legendre(q.y, p) == 1 {
      ProductZero(p, 4 * o, o * (w * w - w) + 1);
    } else {
      ProductZero(p, 4, w * w - o * (w - 1));
    }
  }

  lemma CongSwap(p: int, x: int, y: int, z: int)
    requires p > 0 && Cong(p, y, z)
    ensures Cong(p, x, y) <==> Cong(p, x, z)
  {
    CongSym(p, y, z);
    if Cong(p, x, y) { CongTrans(p, x, y, z); }
    if Cong(p, x, z) { CongTrans(p, x, z, y); }
  }

  lemma FourNonzero(p: int)
    requires OddPrime(p)
    ensures !Divides(p, 2) && !Divides(p, 4)
  {
    if Divides(p, 2) { SmallMultiple(p, 2); }
    NonzeroProduct(p, 2, 2);
  }

  lemma ProductZero(p: int, k: int, e: int)
    requires IsPrime(p) && !Divides(p, k)
    ensures Divides(p, k * e) <==> Divides(p, e)
  {
    if Divides(p, k * e) { Euclid(p, k, e); }
    if Divides(p, e) { Lin1(p, k * e, k, e); }
  }

  /** (o + t) * m == v*v exactly when the turn of v is t, where m inverts the divisor k. */
  lemma TurnInverts(p: int, k: int, m: int, o: int, t: int, w: int)
    requires IsPrime(p) && Cong(p, k * m, 1)
    ensures Cong(p, w, (o + t) * m) <==> Cong(p, k * w - o, t)
  {
    if Cong(p, w, (o + t) * m) {
      assert (k * w - o) - t == k * (w - (o + t) * m) + (o + t) * (k * m - 1);
      Lin2(p, (k * w - o) - t, k, w - (o + t) * m, o + t, k * m - 1);
    }
    if Cong(p, k * w - o, t) {
      assert w - (o + t) * m == m * ((k * w - o) - t) + -w * (k * m - 1);
      Lin2(p, w - (o + t) * m, m, (k * w - o) - t, -w, k * m - 1);
    }
  }

  /** calc_v(q, j) == v says exactly: v is a preimage of q in 1..p-1, the discriminant is not zero, and j
      names the symbols of v and of its turn. */
  lemma CalcVMeaning(c: Curve, q: Point, j: int, v: int)
    requires EncodingCurve(c) && q.Affine? && c.OnCurve(q)
    ensures CalcV(c, q, j) == Some(v) <==>
            && 0 < v < c.p && F(c, v) == Ok(q) && !Divides(c.p, Discriminant(c, q))
            && (Legendre(Turn(c, q, v), c.p) == 1 <==> j == 0 || j == 1)
            && (Legendre(v, c.p) == 1 <==> j == 0 || j == 2)
  {
    if CalcV(c, q, j) == Some(v) {
      CalcVSound(c, q, j, v);
    }
    if && 0 < v < c.p && F(c, v) == Ok(q) && !Divides(c.p, Discriminant(c, q))
       && (Legendre(Turn(c, q, v), c.p) == 1 <==> j == 0 || j == 1)
       && (Legendre(v, c.p) == 1 <==> j == 0 || j == 2)
    {
      CalcVComplete(c, q, j, v);
    }
  }

  lemma CalcVSound(c: Curve, q: Point, j: int, v: int)
    requires EncodingCurve(c) && q.Affine? && c.OnCurve(q) && CalcV(c, q, j) == Some(v)
    ensures 0 < v < c.p && F(c, v) == Ok(q) && !Divides(c.p, Discriminant(c, q))
    ensures Legendre(Turn(c, q, v), c.p) == 1 <==> j == 0 || j == 1
    ensures Legendre(v, c.p) == 1 <==> j == 0 || j == 2
  {
    var p, o, d, k := c.p, Omega(c, q.x), Discriminant(c, q), Divisor(c, q);
    var sqrt := SignedRoot(p, d, j == 0 || j == 1).value;
    DivisorInvertible(c, q);
    var m := InvertMod(k, p).value;
    var t := Turn(c, q, v);
    SignedRootMeaning(p, d, j == 0 || j == 1, sqrt);
    SignedRootMeaning(p, (o + sqrt) * m, j == 0 || j == 2, v);
    TurnInverts(p, k, m, o, sqrt, v * v);
    LegendreCong(p, t, sqrt);
    CongMul(p, t, sqrt, t, sqrt);
    CongTrans(p, t * t, sqrt * sqrt, d);
    PreimageTurns(c, q, v);
  }

  lemma PreimageOmega(c: Curve, q: Point, v: int)
    requires EncodingCurve(c) && q.Affine? && c.OnCurve(q) && F(c, v) == Ok(q)
    ensures !Divides(c.p, Omega(c, q.x)) && !Divides(c.p, Divisor(c, q))
  {
    hide F, Omega, Legendre;
    var p, o := c.p, Omega(c, q.x);
    Preimages(c, v, q);
    if Legendre(q.y, p) == 1 {
      Branch0Omega(p, o, v * v);
    }
    FourNonzero(p);
    NonzeroProduct(p, 2, o);
  }

  lemma CalcVComplete(c: Curve, q: Point, j: int, v: int)
    requires EncodingCurve(c) && q.Affine? && c.OnCurve(q)
    requires 0 < v < c.p && F(c, v) == Ok(q) && !Divides(c.p, Discriminant(c, q))
    requires Legendre(Turn(c, q, v), c.p) == 1 <==> j == 0 || j == 1
    requires Legendre(v, c.p) == 1 <==> j == 0 || j == 2
    ensures CalcV(c, q, j) == Some(v)
  {
    hide F, Omega, Legendre, SignedRoot, Discriminant, Divisor, InvertMod, c.Cubic, c.OnCurve;
    var p, o, d, k, t := c.p, Omega(c, q.x), Discriminant(c, q), Divisor(c, q), Turn(c, q, v);
    PreimageOmega(c, q, v);
    PreimageTurns(c, q, v);
    FirstRootOf(p, d, t, j == 0 || j == 1);
    SecondRootOf(p, k, InvertMod(k, p).value, o, t % p, v, j == 0 || j == 2);
  }

  /** A root of e, reduced, is the signed root for its symbol. */
  lemma FirstRootOf(p: int, e: int, t: int, positive: bool)
    requires OddPrime(p) && p % 4 == 3 && IsRoot(p, e, t) && !Divides(p, e) && (Legendre(t, p) == 1 <==> positive)
    ensures SignedRoot(p, e, positive) == Some(t % p) && Cong(p, t, t % p)
  {
    hide Legendre, SignedRoot, IsRoot;
    ModCong(p, t);
    ReducedRoot(p, e, t, t % p, positive);
  }

  lemma ReducedRoot(p: int, e: int, t: int, r: int, positive: bool)
    requires OddPrime(p) && p % 4 == 3 && IsRoot(p, e, t) && !Divides(p, e) && (Legendre(t, p) == 1 <==> positive)
    requires 0 <= r < p && Cong(p, r, t)
    ensures SignedRoot(p, e, positive) == Some(r)
  {
    hide Legendre, SignedRoot, Cong, Divides;
    if r == 0 { MultipleDivides(p, 0); }
    CongMul(p, r, t, r, t);
    CongTrans(p, r * r, t * t, e);
    LegendreCong(p, r, t);
    RootNonzero(p, e, r);
    SignedRootMeaning(p, e, positive, r);
  }

  /** If v*v turns into r, then v is the signed root that undoes the turn. */
  lemma SecondRootOf(p: int, k: int, m: int, o: int, r: int, v: int, positive: bool)
    requires OddPrime(p) && p % 4 == 3 && Cong(p, k * m, 1) && Cong(p, k * (v * v) - o, r)
    requires 0 < v < p && (Legendre(v, p) == 1 <==> positive)
    ensures SignedRoot(p, (o + r) * m, positive) == Some(v)
  {
    hide Legendre, SignedRoot;
    TurnInverts(p, k, m, o, r, v * v);
    if Divides(p, v) { SmallMultiple(p, v); }
    NonzeroProduct(p, v, v);
    DividesCong(p, v * v, (o + r) * m);
    SignedRootMeaning(p, (o + r) * m, positive, v);
  }

  lemma RootNonzero(p: int, e: int, y: int)
    requires IsPrime(p) && IsRoot(p, e, y) && !Divides(p, e)
    ensures !Divides(p, y)
  {
    if Divides(p, y) {
      Lin2(p, e, y, y, -1, y * y - e);
    }
  }

  // ------------------------------------------------------------------ enumeration

  /** j such that calc_v(q, j) == v. */
  ghost predicate Finds(c: Curve, q: Point, v: int, j: int)
    requires c.Valid() && q.Affine?
  {
    0 <= j < 4 && CalcV(c, q, j) == Some(v)
  }

  /** When the discriminant is not zero, the results for j = 0..3 are the preimages of q, each found by
      exactly one j. */
  lemma Enumeration(c: Curve, q: Point, v: int)
    requires EncodingCurve(c) && q.Affine? && c.OnCurve(q) && !Divides(c.p, Discriminant(c, q))
    ensures 0 <= v < c.p && F(c, v) == Ok(q) <==> exists j :: Finds(c, q, v, j)
    ensures forall j, k :: Finds(c, q, v, j) && Finds(c, q, v, k) ==> j == k
  {
    forall j
      ensures CalcV(c, q, j) == Some(v) <==>
            && 0 < v < c.p && F(c, v) == Ok(q) && !Divides(c.p, Discriminant(c, q))
            && (Legendre(Turn(c, q, v), c.p) == 1 <==> j == 0 || j == 1)
            && (Legendre(v, c.p) == 1 <==> j == 0 || j == 2)
    {
      CalcVMeaning(c, q, j, v);
    }
    if 0 <= v < c.p && F(c, v) == Ok(q) {
      FMeaning(c, v);
      MultipleDivides(c.p, 0);
      var turn, sign := Legendre(Turn(c, q, v), c.p) == 1, Legendre(v, c.p) == 1;
      var j := (if turn then 0 else 2) + (if sign then 0 else 1);
      assert Finds(c, q, v, j);
    }
  }

  lemma ZeroDiscriminant(c: Curve, q: Point)
    requires c.Valid() && q.Affine?
    ensures var o := Omega(c, q.x);
            Divides(c.p, Discriminant(c, q)) <==> Divides(c.p, o) || Divides(c.p, o - 4)
  {
    var p, o := c.p, Omega(c, q.x);
    DiscriminantCong(c, q);
    DividesCong(p, Discriminant(c, q), o * o - 4 * o);
    assert o * o - 4 * o == o * (o - 4);
    if Divides(p, o * (o - 4)) { Euclid(p, o, o - 4); }
    if Divides(p, o) { Lin1(p, o * (o - 4), o - 4, o); }
    if Divides(p, o - 4) { Lin1(p, o * (o - 4), o, o - 4); }
  }

  /** With a zero discriminant calc_v rejects every j, because modular_sqrt(0) is None. */
  lemma NothingFound(c: Curve, q: Point, j: int)
    requires EncodingCurve(c) && q.Affine? && c.OnCurve(q) && Divides(c.p, Discriminant(c, q))
    ensures CalcV(c, q, j) == None
  {
    PrincipalSqrtMeaning(c.p, Discriminant(c, q));
  }

  /** At omega == 4 the preimages are the v with k*v*v == 4, where k is 8 or 2. */
  lemma FoldedPreimage(c: Curve, q: Point, v: int)
    requires EncodingCurve(c) && q.Affine? && c.OnCurve(q) && Divides(c.p, Omega(c, q.x) - 4)
    ensures F(c, v) == Ok(q) <==> Divides(c.p, (if Legendre(q.y, c.p) == 1 then 8 else 2) * (v * v) - 4)
  {
    var p, o := c.p, Omega(c, q.x);
    ZeroDiscriminant(c, q);
    FourNonzero(p);
    if Divides(p, o) { Lin2(p, 4, 1, o, -1, o - 4); }
    PreimageTurns(c, q, v);
    RootOfZero(p, Discriminant(c, q), Turn(c, q, v));
    FoldedTurn(p, o, v * v);
  }

  lemma FoldedTurn(p: int, o: int, w: int)
    requires p > 0 && Divides(p, o - 4)
    ensures Divides(p, (2 * o) * w - o) <==> Divides(p, 8 * w - 4)
    ensures Divides(p, 2 * w - o) <==> Divides(p, 2 * w - 4)
  {
    assert ((2 * o) * w - o) - (8 * w - 4) == (2 * w - 1) * (o - 4);
    Lin1(p, ((2 * o) * w - o) - (8 * w - 4), 2 * w - 1, o - 4);
    DividesCong(p, (2 * o) * w - o, 8 * w - 4);
    Lin1(p, (2 * w - o) - (2 * w - 4), -1, o - 4);
    DividesCong(p, 2 * w - o, 2 * w - 4);
  }

  lemma RootOfZero(p: int, e: int, t: int)
    requires IsPrime(p) && Divides(p, e)
    ensures IsRoot(p, e, t) <==> Divides(p, t)
  {
    if IsRoot(p, e, t) {
      Lin2(p, t * t, 1, t * t - e, 1, e);
      Euclid(p, t, t);
    }
    if Divides(p, t) {
      Lin2(p, t * t - e, t, t, -1, e);
    }
  }

  /** Such a v exists exactly when 2 is a residue. */
  lemma FoldedNeedsTwo(p: int, k: int, v: int)
    requires OddPrime(p) && (k == 8 || k == 2) && Divides(p, k * (v * v) - 4)
    ensures Legendre(2, p) == 1
  {
    FourNonzero(p);
    if k == 2 {
      assert 2 * (v * v - 2) == k * (v * v) - 4;
      Euclid(p, 2, v * v - 2);
      assert IsRoot(p, 2, v);
    } else {
      assert 2 * ((2 * v) * (2 * v) - 2) == k * (v * v) - 4;
      Euclid(p, 2, (2 * v) * (2 * v) - 2);
      assert IsRoot(p, 2, 2 * v);
    }
    EulerCriterion(p, 2);
  }

  lemma FoldedFromTwo(p: int, k: int) returns (v: int)
    requires OddPrime(p) && p % 4 == 3 && (k == 8 || k == 2) && Legendre(2, p) == 1
    ensures 0 <= v < p && Divides(p, k * (v * v) - 4)
  {
    FourNonzero(p);
    PrincipalSqrtMeaning(p, 2);
    var r := PrincipalSqrt(2, p).value;
    hide *;
    if k == 2 {
      v := r;
      Lin1(p, k * (v * v) - 4, 2, v * v - 2);
    } else {
      v := HalfRoot(p, r);
    }
  }

  lemma HalfRoot(p: int, r: int) returns (v: int)
    requires OddPrime(p) && IsRoot(p, 2, r)
    ensures 0 <= v < p && Divides(p, 8 * (v * v) - 4)
  {
    FourNonzero(p);
    var h := InvertMod(2, p).value;
    v := (r * h) % p;
    ModCong(p, r * h);
    DoubledHalf(p, r, h, v);
    CongMul(p, 2 * v, r, 2 * v, r);
    CongTrans(p, (2 * v) * (2 * v), r * r, 2);
    EightSquares(v);
    Lin1(p, 8 * (v * v) - 4, 2, (2 * v) * (2 * v) - 2);
  }

  lemma EightSquares(v: int)
    ensures 8 * (v * v) - 4 == 2 * ((2 * v) * (2 * v) - 2)
  {
  }

  lemma DoubledHalf(p: int, r: int, h: int, v: int)
    requires p > 0 && Cong(p, v, r * h) && Cong(p, 2 * h, 1)
    ensures Cong(p, 2 * v, r)
  {
    assert 2 * v - r == 2 * (v - r * h) + r * (2 * h - 1);
    Lin2(p, 2 * v - r, 2, v - r * h, r, 2 * h - 1);
  }

  /** Every preimage of q is found by some j. */
  ghost predicate Complete(c: Curve, q: Point)
    requires c.Valid() && q.Affine?
  {
    forall v :: 0 <= v < c.p && F(c, v) == Ok(q) ==> exists j :: Finds(c, q, v, j)
  }

  /** Exactly when every preimage of q is found by some j: unless omega == 4 and 2 is a residue. */
  lemma CompleteIff(c: Curve, q: Point)
    requires EncodingCurve(c) && q.Affine? && c.OnCurve(q)
    ensures Complete(c, q) <==> !(Divides(c.p, Omega(c, q.x) - 4) && Legendre(2, c.p) == 1)
  {
    var p, o := c.p, Omega(c, q.x);
    var k := if Legendre(q.y, p) == 1 then 8 else 2;
    ZeroDiscriminant(c, q);
    if !Divides(p, Discriminant(c, q)) {
      forall v | 0 <= v < p && F(c, v) == Ok(q)
        ensures exists j :: Finds(c, q, v, j)
      {
        Enumeration(c, q, v);
      }
    } else if Divides(p, o - 4) && Legendre(2, p) == 1 {
      var v := FoldedFromTwo(p, k);
      FoldedPreimage(c, q, v);
      forall j
        ensures !Finds(c, q, v, j)
      {
        NothingFound(c, q, j);
      }
    } else {
      forall v | 0 <= v < p
        ensures F(c, v) != Ok(q)
      {
        if F(c, v) == Ok(q) {
          PreimageOmega(c, q, v);
          FoldedPreimage(c, q, v);
          FoldedNeedsTwo(p, k, v);
        }
      }
    }
  }
}
