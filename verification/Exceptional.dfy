/** The two exceptional abscissas of the encoders, as a property of the curve: which curves have a point with
    omega == 0 or omega == 4, and what that means for encoding every point under every draw. */
module Exceptional {
  import opened ModArith
  import opened Primes
  import opened Residues
  import opened ModularSqrt
  import opened Curves
  import opened Elligator
  import opened Inversion
  import opened EncodeC
  import opened Wrappers

  // ------------------------------------------------------------------ symbols

  /** Squares do not change the symbol. */
  lemma LegendreTimesSquare(p: int, x: int, s: int)
    requires OddPrime(p) && !Divides(p, s)
    ensures Legendre(x * (s * s), p) == Legendre(x, p)
  {
    hide Legendre;
    LegendreProduct(p, x, s * s);
    LegendreSquare(p, s);
  }

  /** On the abscissa -b/a the cubic is x^3, a residue exactly when -a*b is. */
  lemma SymbolAtZero(c: Curve, x: int)
    requires c.Valid() && Divides(c.p, c.a * x + c.b)
    ensures Legendre(c.Cubic(x), c.p) == Legendre(-(c.a * c.b), c.p)
  {
    hide Legendre;
    var p, a, b := c.p, c.a, c.b;
    ZeroAbscissaNonzero(p, a, b, x);
    Lin1(p, c.Cubic(x) - x * (x * x), 1, a * x + b);
    LegendreCong(p, c.Cubic(x), x * (x * x));
    LegendreTimesSquare(p, x, x);
    LegendreTimesSquare(p, x, a);
    assert -(a * b) - x * (a * a) == -a * (a * x + b);
    Lin1(p, -(a * b) - x * (a * a), -a, a * x + b);
    LegendreCong(p, -(a * b), x * (a * a));
  }

  lemma ZeroAbscissaNonzero(p: int, a: int, b: int, x: int)
    requires p > 0 && Divides(p, a * x + b) && !Divides(p, b)
    ensures !Divides(p, x)
  {
    if Divides(p, x) { Lin2(p, b, 1, a * x + b, -a, x); }
  }

  /** On the abscissa 3b/a the cubic is a residue exactly when a*b*(4a^3 + 27b^2) is. */
  lemma SymbolAtFour(c: Curve, x: int)
    requires c.Valid() && Divides(c.p, c.a * x - 3 * c.b)
    ensures Legendre(c.Cubic(x), c.p) ==
            Legendre(c.a * c.b * (4 * (c.a * c.a * c.a) + 27 * (c.b * c.b)), c.p)
  {
    hide Legendre;
    var p, a, b := c.p, c.a, c.b;
    NonzeroProduct(p, a, a);
    LegendreTimesSquare(p, c.Cubic(x), a * a);
    var t := a * b * (4 * (a * a * a) + 27 * (b * b));
    var h := a * x - 3 * b;
    CubicAtFour(a, b, x, h);
    Lin1(p, c.Cubic(x) * ((a * a) * (a * a)) - t, a * (h * h + 9 * (b * h) + 27 * (b * b) + a * a * a), h);
    LegendreCong(p, c.Cubic(x) * ((a * a) * (a * a)), t);
  }

  lemma CubicAtFour(a: int, b: int, x: int, h: int)
    requires h == a * x - 3 * b
    ensures (x * x * x + a * x + b) * ((a * a) * (a * a)) - a * b * (4 * (a * a * a) + 27 * (b * b))
            == (a * (h * h + 9 * (b * h) + 27 * (b * b) + a * a * a)) * h
  {
    var s, a3 := a * x, a * a * a;
    ScaledCubic(a, b, x);
    ShiftedCube(b, h);
    assert s == h + 3 * b;
    assert s * s * s + a3 * s + a3 * b - b * (4 * a3 + 27 * (b * b))
           == (h * h + 9 * (b * h) + 27 * (b * b)) * h + a3 * h;
    FourCombine(a, s * s * s + a3 * s + a3 * b, b * (4 * a3 + 27 * (b * b)), h * h + 9 * (b * h) + 27 * (b * b), a3, h);
  }

  lemma ScaledCubic(a: int, b: int, x: int)
    ensures (x * x * x + a * x + b) * ((a * a) * (a * a))
            == a * ((a * x) * (a * x) * (a * x) + (a * a * a) * (a * x) + (a * a * a) * b)
  {
    CubeOfProduct(a, x);
    var a3, x3 := a * a * a, x * x * x;
    assert (a * a) * (a * a) == a * a3;
    assert (x3 + a * x + b) * (a * a3) == a * (a3 * x3 + a3 * (a * x) + a3 * b);
  }

  lemma ShiftedCube(b: int, h: int)
    ensures (h + 3 * b) * (h + 3 * b) * (h + 3 * b) - 27 * (b * (b * b)) == (h * h + 9 * (b * h) + 27 * (b * b)) * h
  {
    var s := h + 3 * b;
    assert s * s == h * h + 6 * (b * h) + 9 * (b * b);
    assert s * s * s == (h * h + 6 * (b * h) + 9 * (b * b)) * h + 3 * ((h * h + 6 * (b * h) + 9 * (b * b)) * b);
    assert (h * h) * b == (b * h) * h && (b * h) * b == (b * b) * h;
  }

  lemma FourCombine(a: int, t: int, u: int, k: int, a3: int, h: int)
    requires t - u == k * h + a3 * h
    ensures a * t - a * u == (a * (k + a3)) * h
  {
    assert a * (t - u) == a * ((k + a3) * h);
  }

  // ------------------------------------------------------------------ points

  /** The abscissa k*b/a. */
  function Multiple(c: Curve, k: int): (x: int)
    requires c.Valid()
    ensures 0 <= x < c.p
  {
    (k * c.b * InvertMod(c.a, c.p).value) % c.p
  }

  lemma MultipleMeaning(c: Curve, k: int)
    requires c.Valid()
    ensures Divides(c.p, c.a * Multiple(c, k) - k * c.b)
  {
    hide InvertMod, c.Cubic;
    var kb, ia := k * c.b, InvertMod(c.a, c.p).value;
    ModCong(c.p, kb * ia);
    QuotientTimes(c.p, c.a, kb, ia, Multiple(c, k));
  }

  lemma QuotientTimes(p: int, a: int, kb: int, ia: int, x: int)
    requires p > 0 && Cong(p, x, kb * ia) && Cong(p, a * ia, 1)
    ensures Divides(p, a * x - kb)
  {
    assert a * x - kb == a * (x - kb * ia) + kb * (a * ia - 1);
    Lin2(p, a * x - kb, a, x - kb * ia, kb, a * ia - 1);
  }

  lemma PointAt(c: Curve, x: int) returns (q: Point)
    requires EncodingCurve(c) && 0 <= x < c.p && Legendre(c.Cubic(x), c.p) == 1
    ensures q.Affine? && q.x == x && c.OnCurve(q)
  {
    hide Legendre, PrincipalSqrt, c.Cubic;
    EulerCriterion(c.p, c.Cubic(x));
    PrincipalSqrtMeaning(c.p, c.Cubic(x));
    var y := PrincipalSqrt(c.Cubic(x), c.p).value;
    assert PrincipalSqrt(c.Cubic(x), c.p) == Some(y);
    q := Affine(x, y);
  }

  ghost predicate HasPoint(c: Curve, o: int)
    requires c.Valid()
  {
    exists q: Point :: AtOmega(c, q, o)
  }

  /** q is an affine point of the curve whose omega is o. */
  ghost predicate AtOmega(c: Curve, q: Point, o: int)
    requires c.Valid()
  {
    q.Affine? && c.OnCurve(q) && Divides(c.p, Omega(c, q.x) - o)
  }

  /** A point with omega == 0 exists exactly on the curves where -a*b is a residue. */
  lemma ZeroPointIff(c: Curve)
    requires EncodingCurve(c)
    ensures HasPoint(c, 0) <==> Legendre(-(c.a * c.b), c.p) == 1
  {
    hide Legendre, Omega, c.Cubic, c.OnCurve, Multiple;
    if HasPoint(c, 0) {
      var q :| AtOmega(c, q, 0);
      OmegaShift(c, q.x, 0);
      assert c.a * q.x - (0 - 1) * c.b == c.a * q.x + c.b;
      SymbolAtZero(c, q.x);
      OnCurveSymbol(c, q);
    }
    if Legendre(-(c.a * c.b), c.p) == 1 {
      var x := Multiple(c, -1);
      MultipleMeaning(c, -1);
      assert c.a * x - -1 * c.b == c.a * x + c.b;
      SymbolAtZero(c, x);
      var q := PointAt(c, x);
      OmegaShift(c, x, 0);
      assert AtOmega(c, q, 0);
    }
  }

  /** A point with omega == 4 exists exactly on the curves where a*b*(4a^3 + 27b^2) is a residue. */
  lemma FourPointIff(c: Curve)
    requires EncodingCurve(c)
    ensures HasPoint(c, 4) <==> Legendre(c.a * c.b * (4 * (c.a * c.a * c.a) + 27 * (c.b * c.b)), c.p) == 1
  {
    hide Legendre, Omega, c.Cubic, c.OnCurve, Multiple;
    if HasPoint(c, 4) {
      var q :| AtOmega(c, q, 4);
      OmegaShift(c, q.x, 4);
      SymbolAtFour(c, q.x);
      OnCurveSymbol(c, q);
    }
    if Legendre(c.a * c.b * (4 * (c.a * c.a * c.a) + 27 * (c.b * c.b)), c.p) == 1 {
      var x := Multiple(c, 3);
      MultipleMeaning(c, 3);
      SymbolAtFour(c, x);
      var q := PointAt(c, x);
      OmegaShift(c, x, 4);
      assert AtOmega(c, q, 4);
    }
  }

  // ------------------------------------------------------------------ all points, all draws

  /** scripts/encode.py calc_v is complete on the whole curve unless 2 and a*b*(4a^3 + 27b^2) are residues. */
  lemma CompleteEverywhereIff(c: Curve)
    requires EncodingCurve(c)
    ensures (forall q: Point :: q.Affine? && c.OnCurve(q) ==> Complete(c, q)) <==>
            !(Legendre(2, c.p) == 1
              && Legendre(c.a * c.b * (4 * (c.a * c.a * c.a) + 27 * (c.b * c.b)), c.p) == 1)
  {
    hide Legendre, Omega, c.Cubic, c.OnCurve, F, Finds;
    FourPointIff(c);
    forall q: Point | q.Affine? && c.OnCurve(q)
      ensures Complete(c, q) <==> !(AtOmega(c, q, 4) && Legendre(2, c.p) == 1)
    {
      CompleteIff(c, q);
    }
    if HasPoint(c, 4) {
      var q :| AtOmega(c, q, 4);
    }
  }

  /** es_encode may return (u, v) for the point. */
  ghost predicate MayEncode(c: Curve, g: Group, point: Point, u: int, j: int, v: int)
    requires EncodingCurve(c)
  {
    c.OnCurve(point) && 0 < u < c.p && 0 <= v && TryC(c, g, point, (u, j)) == Some(v)
  }

  ghost predicate AllDecode(c: Curve, g: Group)
    requires EncodingCurve(c)
  {
    forall point, u, j, v :: MayEncode(c, g, point, u, j, v) ==> Decoded(c, g, u, v) == Some(point)
  }

  ghost predicate AllDecodeWoven(c: Curve, g: Group)
    requires EncodingCurve(c)
  {
    forall point, u, j, v :: MayEncode(c, g, point, u, j, v) ==> Decoded(c, g, u, v % c.p) == Some(point)
  }

  /** An exceptional point yields an encoding that does not decode, directly or through the weaver. */
  lemma FailingEncoding(c: Curve, g: Group, q: Point) returns (point: Point)
    requires EncodingCurve(c) && IsGroup(c, g) && c.p != 3 && AtOmega(c, q, 0)
    ensures MayEncode(c, g, point, 2, 0, 0) && Decoded(c, g, 2, 0) != Some(point)
  {
    hide Legendre, Omega, c.Cubic, c.OnCurve, F, FC, CalcVC, IsGroup, Decoded, MapsBack;
    assert c.p > 3;
    DifferenceFacts(c, g, q, 2);
    var s := FC(c, 2).value;
    point := AddBack(c, g, s, q);
    SpuriousValue(c, q, 0);
    assert TryC(c, g, point, (2, 0)) == Some(0);
    RoundTripIff(c, g, point, 2, 0, 0);
    assert !MapsBack(c, q, 0) by { NotBack(c, q); }
  }

  lemma NotBack(c: Curve, q: Point)
    requires c.Valid() && q.Affine? && Divides(c.p, Omega(c, q.x))
    ensures !MapsBack(c, q, 0)
  {
  }

  lemma AddBack(c: Curve, g: Group, s: Point, q: Point) returns (point: Point)
    requires c.p > 0 && IsGroup(c, g) && c.OnCurve(s) && c.OnCurve(q)
    ensures c.OnCurve(point) && g.add(point, g.neg(s)) == q
  {
    point := g.add(s, q);
    SubtractSum(c, g, s, q);
  }

  /** Encoding and decoding agree for every point and every draw exactly on the curves where -a*b is not a residue
      (over the field of three elements no u is ever used). */
  lemma AllDecodeIff(c: Curve, g: Group)
    requires EncodingCurve(c) && IsGroup(c, g)
    ensures AllDecode(c, g) <==> c.p == 3 || Legendre(-(c.a * c.b), c.p) != 1
    ensures AllDecodeWoven(c, g) <==> c.p == 3 || Legendre(-(c.a * c.b), c.p) != 1
  {
    hide Legendre, Omega, c.Cubic, c.OnCurve, FC, CalcVC, IsGroup, Decoded, MapsBack, TryC;
    ZeroPointIff(c);
    if c.p == 3 || !HasPoint(c, 0) {
      forall point, u, j, v | MayEncode(c, g, point, u, j, v)
        ensures Decoded(c, g, u, v) == Some(point) && Decoded(c, g, u, v % c.p) == Some(point)
      {
        AlwaysDecodes(c, g, point, u, j, v);
      }
    } else {
      var q :| AtOmega(c, q, 0);
      var point := FailingEncoding(c, g, q);
      MultipleDivides(c.p, 0);
      assert 0 % c.p == 0;
      assert MayEncode(c, g, point, 2, 0, 0);
    }
  }

  lemma AlwaysDecodes(c: Curve, g: Group, point: Point, u: int, j: int, v: int)
    requires EncodingCurve(c) && IsGroup(c, g) && (c.p == 3 || !HasPoint(c, 0)) && MayEncode(c, g, point, u, j, v)
    ensures Decoded(c, g, u, v) == Some(point) && Decoded(c, g, u, v % c.p) == Some(point)
  {
    hide Legendre, Omega, c.Cubic, c.OnCurve, FC, CalcVC, IsGroup, Decoded;
    var q := Difference(c, g, point, u);
    assert c.p != 3;
    RoundTripIff(c, g, point, u, j, v);
    WovenRoundTripIff(c, g, point, u, j, v);
    assert !AtOmega(c, q, 0);
  }
}
