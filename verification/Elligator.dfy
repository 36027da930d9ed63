/** The map f of Elligator Squared and its preimages: scripts/encode.py X_0, X_1 and f, over any valid
    curve with p == 3 mod 4. */
module Elligator {
  import opened ModArith
  import opened Primes
  import opened Residues
  import opened ModularSqrt
  import opened Curves
  import opened Wrappers

  ghost predicate EncodingCurve(c: Curve) {
    c.Valid() && c.p % 4 == 3
  }

  function G(c: Curve, x: int): int
    requires c.p > 0
  {
    c.Cubic(x) % c.p
  }

  /** scripts/encode.py X_0; None stands for the exception raised by a failed inversion. */
  function X0(c: Curve, u: int): (r: Option<int>)
    requires IsPrime(c.p)
    ensures r.Some? ==> 0 <= r.value < c.p
  {
    var uu := (u * u) % c.p;
    var ia, iv := InvertMod(c.a, c.p), InvertMod(uu * uu - uu, c.p);
    if ia.None? || iv.None? then None
    else Some((-(c.b * ia.value) * (1 + iv.value)) % c.p)
  }

  /** scripts/encode.py X_1. */
  function X1(c: Curve, u: int): (r: Option<int>)
    requires IsPrime(c.p)
    ensures r.Some? ==> 0 <= r.value < c.p
  {
    var x0 := X0(c, u);
    if x0.None? then None else Some((-((u * u) % c.p) * x0.value) % c.p)
  }

  /** scripts/encode.py f, with its guard as written: the three comparisons are joined by `and`, so it
      never holds and the excluded inputs reach the failing inversion in X_0. */
  function F(c: Curve, u: int): Result<Point, Error>
    requires IsPrime(c.p)
  {
    if u == c.p - 1 && u == 0 && u == 1 then Ok(Infinity)
    else
      match X0(c, u)
      case None => Err(NotInvertible)
      case Some(x0) =>
        match PrincipalSqrt(G(c, x0), c.p)
        case Some(y) => Ok(Affine(x0, y))
        case None =>
          match X1(c, u)
          case None => Err(NotInvertible)
          case Some(x1) =>
            match PrincipalSqrt(G(c, x1), c.p)
            case Some(y) => Ok(Affine(x1, c.p - y))
            case None => Err(AssertionFailed)
  }

  /** u is none of 0, 1 and -1 modulo p. */
  predicate Regular(p: int, u: int)
    requires p > 0
  {
    !Divides(p, u) && !Divides(p, u - 1) && !Divides(p, u + 1)
  }

  lemma RegularDenominator(p: int, u: int)
    requires IsPrime(p)
    ensures Divides(p, (u * u) * (u * u) - u * u) <==> !Regular(p, u)
  {
    var d := (u * u) * (u * u) - u * u;
    assert d == (u * u) * ((u - 1) * (u + 1)) by {
      assert (u - 1) * (u + 1) == u * u - 1;
      assert (u * u) * (u * u - 1) == d;
    }
    if Divides(p, d) {
      Euclid(p, u * u, (u - 1) * (u + 1));
      if Divides(p, u * u) { Euclid(p, u, u); } else { Euclid(p, u - 1, u + 1); }
    }
    if !Regular(p, u) {
      if Divides(p, u) {
        Lin1(p, u * u, u, u);
        Lin1(p, d, (u - 1) * (u + 1), u * u);
      } else {
        if Divides(p, u - 1) {
          Lin1(p, (u - 1) * (u + 1), u + 1, u - 1);
        } else {
          Lin1(p, (u - 1) * (u + 1), u - 1, u + 1);
        }
        Lin1(p, d, u * u, (u - 1) * (u + 1));
      }
    }
  }

  /** d with u*u reduced first is congruent to d computed from u. */
  lemma ReducedDenominator(p: int, u: int)
    requires p > 0
    ensures var uu := (u * u) % p; Cong(p, uu * uu - uu, (u * u) * (u * u) - u * u)
  {
    var uu := (u * u) % p;
    ModCong(p, u * u);
    CongMul(p, uu, u * u, uu, u * u);
    CongAdd(p, uu * uu, (u * u) * (u * u), uu, u * u);
  }

  lemma DividesCong(p: int, x: int, y: int)
    requires p > 0 && Cong(p, x, y)
    ensures Divides(p, x) <==> Divides(p, y)
  {
    if Divides(p, x) { Lin2(p, y, 1, x, -1, x - y); }
    if Divides(p, y) { Lin2(p, x, 1, y, 1, x - y); }
  }

  /** X_0(u) exists exactly for regular u and solves a*x*d == -b*(d + 1) with d = u^4 - u^2. */
  lemma X0Meaning(c: Curve, u: int)
    requires c.Valid()
    ensures X0(c, u).Some? <==> Regular(c.p, u)
    ensures X0(c, u).Some? ==>
              var d := (u * u) * (u * u) - u * u; Divides(c.p, c.a * X0(c, u).value * d + c.b * (d + 1))
  {
    var p, a, b := c.p, c.a, c.b;
    var uu, d := (u * u) % p, (u * u) * (u * u) - u * u;
    ReducedDenominator(p, u);
    RegularDenominator(p, u);
    DividesCong(p, uu * uu - uu, d);
    if X0(c, u).Some? {
      var ia, iv := InvertMod(a, p).value, InvertMod(uu * uu - uu, p).value;
      var x := X0(c, u).value;
      CongMul(p, uu * uu - uu, d, iv, iv) by { MultipleDivides(p, 0); }
      CongSym(p, (uu * uu - uu) * iv, d * iv);
      CongTrans(p, d * iv, (uu * uu - uu) * iv, 1);
      ModCong(p, -(b * ia) * (1 + iv));
      AbscissaEquation(p, a, b, d, ia, iv, x);
    }
  }

  lemma NegatedSquare(s: int)
    ensures -s * -s + -s == s * s - s
  {
  }

  lemma ScaledNegative(p: int, s: int, x0: int, x1: int)
    requires p > 0 && Cong(p, x1, -(s % p) * x0)
    ensures Cong(p, x1, -s * x0)
  {
    ModCong(p, s);
    CongMul(p, s % p, s, x0, x0) by { MultipleDivides(p, 0); }
    Lin2(p, x1 - -s * x0, 1, x1 - -(s % p) * x0, -1, (s % p) * x0 - s * x0);
  }

  /** X_1(u) is w*X_0(u) with w = -u^2, so the cubic is scaled by w^3. */
  lemma X1Meaning(c: Curve, u: int)
    requires c.Valid() && Regular(c.p, u)
    ensures X0(c, u).Some? && X1(c, u).Some?
    ensures Cong(c.p, X1(c, u).value, -(u * u) * X0(c, u).value)
    ensures var w := -(u * u); Cong(c.p, c.Cubic(X1(c, u).value), w * w * w * c.Cubic(X0(c, u).value))
  {
    hide X0, c.Cubic;
    X0Meaning(c, u);
    var p, w := c.p, -(u * u);
    var x0, x1 := X0(c, u).value, X1(c, u).value;
    ModCong(p, -((u * u) % p) * x0);
    ScaledNegative(p, u * u, x0, x1);
    NegatedSquare(u * u);
    CubicScales(c, w, x0);
    CubicCong(c, x1, w * x0);
    CongTrans(p, c.Cubic(x1), c.Cubic(w * x0), w * w * w * c.Cubic(x0));
  }

  /** Exactly one of the two candidate abscissas has a square cubic. */
  lemma ExactlyOneSquare(c: Curve, u: int)
    requires EncodingCurve(c) && Regular(c.p, u)
    ensures X0(c, u).Some? && X1(c, u).Some?
    ensures Legendre(c.Cubic(X0(c, u).value), c.p) != 0
    ensures Legendre(c.Cubic(X1(c, u).value), c.p) == -Legendre(c.Cubic(X0(c, u).value), c.p)
  {
    X1Meaning(c, u);
    var p, w := c.p, -(u * u);
    var g0, g1 := c.Cubic(X0(c, u).value), c.Cubic(X1(c, u).value);
    LegendreMeaning(p, g0);
    LegendreCong(p, g1, w * w * w * g0);
    LegendreProduct(p, w * w * w, g0);
    LegendreProduct(p, w * w, w);
    LegendreSquare(p, u);
    LegendreNegative(p, u * u);
    LegendreProduct(p, w, w);
  }

  lemma ReducedSymbol(c: Curve, x: int)
    requires c.Valid()
    ensures Legendre(G(c, x), c.p) == Legendre(c.Cubic(x), c.p)
    ensures Cong(c.p, G(c, x), c.Cubic(x)) && !Divides(c.p, G(c, x))
  {
    ModCong(c.p, c.Cubic(x));
    LegendreCong(c.p, G(c, x), c.Cubic(x));
    DividesCong(c.p, G(c, x), c.Cubic(x));
  }

  /** f succeeds exactly on the regular inputs. Its value lies on the curve, is not at infinity, and its
      ordinate is a residue on the X_0 branch and a non-residue on the X_1 branch. */
  lemma FMeaning(c: Curve, u: int)
    requires EncodingCurve(c)
    ensures F(c, u).Ok? <==> Regular(c.p, u)
    ensures F(c, u).Err? ==> F(c, u).error == NotInvertible
    ensures F(c, u).Ok? ==>
              var q := F(c, u).value;
              && q.Affine? && c.OnCurve(q) && 0 < q.y < c.p
              && X0(c, u).Some? && X1(c, u).Some?
              && (Legendre(c.Cubic(X0(c, u).value), c.p) == 1 ==> q.x == X0(c, u).value && Legendre(q.y, c.p) == 1)
              && (Legendre(c.Cubic(X0(c, u).value), c.p) != 1 ==> q.x == X1(c, u).value && Legendre(q.y, c.p) == -1)
  {
    var p := c.p;
    X0Meaning(c, u);
    if Regular(p, u) {
      ExactlyOneSquare(c, u);
      var x0, x1 := X0(c, u).value, X1(c, u).value;
      ReducedSymbol(c, x0);
      ReducedSymbol(c, x1);
      if Legendre(c.Cubic(x0), p) == 1 {
        BranchRoot(c, x0, PrincipalSqrt(G(c, x0), p).value);
      } else {
        LegendreMeaning(p, c.Cubic(x0));
        BranchRoot(c, x1, PrincipalSqrt(G(c, x1), p).value);
      }
    }
  }

  /** The principal root of the cubic, and its negative, as ordinates. */
  lemma BranchRoot(c: Curve, x: int, y: int)
    requires EncodingCurve(c) && 0 <= x < c.p && PrincipalSqrt(G(c, x), c.p) == Some(y)
    ensures 0 < y < c.p && c.OnCurve(Affine(x, y)) && Legendre(y, c.p) == 1
    ensures c.OnCurve(Affine(x, c.p - y)) && Legendre(c.p - y, c.p) == -1
  {
    var p := c.p;
    PrincipalSqrtMeaning(p, G(c, x));
    ReducedSymbol(c, x);
    CongTrans(p, y * y, G(c, x), c.Cubic(x));
    NegatedRoot(p, y);
    CongTrans(p, (p - y) * (p - y), y * y, c.Cubic(x));
    LegendreCong(p, p - y, -y);
    LegendreNegative(p, y);
  }

  lemma NegatedRoot(p: int, y: int)
    requires p > 0
    ensures Cong(p, p - y, -y) && Cong(p, (p - y) * (p - y), y * y)
  {
    MultipleDivides(p, 1);
    assert (p - y) - -y == p;
    CongMul(p, p - y, -y, p - y, -y);
    assert -y * -y == y * y;
  }

  /** f does not see the sign of its argument, nor multiples of p. */
  lemma FEven(c: Curve, u: int, v: int)
    requires IsPrime(c.p) && (Cong(c.p, u, v) || Cong(c.p, u, -v))
    ensures F(c, u) == F(c, v)
  {
    var p := c.p;
    if Cong(p, u, v) {
      CongMul(p, u, v, u, v);
    } else {
      CongMul(p, u, -v, u, -v);
      assert -v * -v == v * v;
    }
    CongIffSameResidue(p, u * u, v * v);
    assert X0(c, u) == X0(c, v);
    assert X1(c, u) == X1(c, v);
  }

  // ------------------------------------------------------------------ preimages as quadratics

  /** omega = (a/b)*x + 1. */
  function Omega(c: Curve, x: int): int
    requires IsPrime(c.p) && !Divides(c.p, c.b)
  {
    (c.a * InvertMod(c.b, c.p).value * x + 1) % c.p
  }

  lemma OmegaMeaning(c: Curve, x: int)
    requires c.Valid()
    ensures Divides(c.p, c.b * Omega(c, x) - c.a * x - c.b)
  {
    var p, ib, o := c.p, InvertMod(c.b, c.p).value, Omega(c, x);
    ModCong(p, c.a * ib * x + 1);
    OmegaIdentity(c.a, c.b, ib, x, o);
    Lin2(p, c.b * o - c.a * x - c.b, c.b, o - (c.a * ib * x + 1), c.a * x, c.b * ib - 1);
  }

  /** omega == o exactly on the abscissa (o - 1)*b/a. */
  lemma OmegaShift(c: Curve, x: int, o: int)
    requires c.Valid()
    ensures Divides(c.p, Omega(c, x) - o) <==> Divides(c.p, c.a * x - (o - 1) * c.b)
  {
    OmegaMeaning(c, x);
    ShiftAlgebra(c.p, c.a * x, c.b, Omega(c, x), o);
  }

  lemma ShiftAlgebra(p: int, ax: int, b: int, w: int, o: int)
    requires IsPrime(p) && !Divides(p, b) && Divides(p, b * w - ax - b)
    ensures Divides(p, w - o) <==> Divides(p, ax - (o - 1) * b)
  {
    var e, d := ax - (o - 1) * b, b * w - ax - b;
    assert b * (w - o) == d + e;
    if Divides(p, w - o) { Lin2(p, e, b, w - o, -1, d); }
    if Divides(p, e) {
      Lin2(p, b * (w - o), 1, d, 1, e);
      Euclid(p, b, w - o);
    }
  }

  lemma OmegaIdentity(a: int, b: int, ib: int, x: int, o: int)
    ensures b * o - a * x - b == b * (o - (a * ib * x + 1)) + (a * x) * (b * ib - 1)
  {
    assert b * (a * ib * x) == (a * x) * (b * ib);
  }

  /** v*v solves omega*(W*W - W) == -1: the quadratic of the X_0 branch. */
  predicate OnBranch0(p: int, o: int, w: int)
    requires p > 0
  {
    Divides(p, o * (w * w - w) + 1)
  }

  /** v*v solves W*W == omega*(W - 1): the quadratic of the X_1 branch. */
  predicate OnBranch1(p: int, o: int, w: int)
    requires p > 0
  {
    Divides(p, w * w - o * (w - 1))
  }

  /** X_0(v) == x in terms of omega. */
  lemma Branch0(c: Curve, v: int, x: int)
    requires c.Valid()
    ensures OnBranch0(c.p, Omega(c, x), v * v) ==> Regular(c.p, v)
    ensures Regular(c.p, v) ==>
              X0(c, v).Some? && (Cong(c.p, X0(c, v).value, x) <==> OnBranch0(c.p, Omega(c, x), v * v))
  {
    var p, a, b, o := c.p, c.a, c.b, Omega(c, x);
    var d := (v * v) * (v * v) - v * v;
    OmegaMeaning(c, x);
    X0Meaning(c, v);
    RegularDenominator(p, v);
    assert OnBranch0(p, o, v * v) == Divides(p, o * d + 1);
    if OnBranch0(p, o, v * v) {
      Branch0Denominator(p, o, d);
    }
    if Regular(p, v) {
      Branch0Equation(p, a, b, d, o, X0(c, v).value, x);
    }
  }

  lemma Branch0Denominator(p: int, o: int, d: int)
    requires IsPrime(p) && Divides(p, o * d + 1)
    ensures !Divides(p, d)
  {
    if Divides(p, d) {
      Lin2(p, 1, 1, o * d + 1, -o, d);
      OneNonzero(p);
    }
  }

  lemma Branch0Omega(p: int, o: int, w: int)
    requires IsPrime(p) && OnBranch0(p, o, w)
    ensures !Divides(p, o)
  {
    assert o * (w * w - w) == (w * w - w) * o;
    Branch0Denominator(p, w * w - w, o);
  }

  lemma Branch0Equation(p: int, a: int, b: int, d: int, o: int, x0: int, x: int)
    requires IsPrime(p) && !Divides(p, a) && !Divides(p, b) && !Divides(p, d)
    requires Divides(p, a * x0 * d + b * (d + 1)) && Divides(p, b * o - a * x - b)
    ensures Cong(p, x0, x) <==> Divides(p, o * d + 1)
  {
    var h := a * x0 * d + b * (d + 1);
    Branch0Identity(a, b, d, o, x0, x);
    if Cong(p, x0, x) {
      Lin3(p, b * (o * d + 1), 1, h, -(a * d), x0 - x, d, b * o - a * x - b);
      Euclid(p, b, o * d + 1);
    }
    if Divides(p, o * d + 1) {
      Lin3(p, (a * d) * (x0 - x), 1, h, -b, o * d + 1, d, b * o - a * x - b);
      NonzeroProduct(p, a, d);
      Euclid(p, a * d, x0 - x);
    }
  }

  lemma Branch0Identity(a: int, b: int, d: int, o: int, x0: int, x: int)
    ensures b * (o * d + 1) == 1 * (a * x0 * d + b * (d + 1)) + -(a * d) * (x0 - x) + d * (b * o - a * x - b)
    ensures (a * d) * (x0 - x) == 1 * (a * x0 * d + b * (d + 1)) + -b * (o * d + 1) + d * (b * o - a * x - b)
  {
  }

  /** X_1(v) == x in terms of omega. */
  lemma Branch1(c: Curve, v: int, x: int)
    requires c.Valid()
    ensures OnBranch1(c.p, Omega(c, x), v * v) && !Divides(c.p, Omega(c, x)) ==> Regular(c.p, v)
    ensures Regular(c.p, v) ==>
              && X1(c, v).Some?
              && (Cong(c.p, X1(c, v).value, x) <==> OnBranch1(c.p, Omega(c, x), v * v))
              && (OnBranch1(c.p, Omega(c, x), v * v) ==> !Divides(c.p, Omega(c, x)))
  {
    hide X0, X1, Omega;
    var p, a, b, o, w := c.p, c.a, c.b, Omega(c, x), v * v;
    OmegaMeaning(c, x);
    if OnBranch1(p, o, w) && !Divides(p, o) {
      Branch1Regular(p, o, v);
    }
    if Regular(p, v) {
      X1Meaning(c, v);
      X0Meaning(c, v);
      RegularFactors(p, v);
      Branch1Equation(p, a, b, w, o, X0(c, v).value, X1(c, v).value, x);
      if OnBranch1(p, o, w) && Divides(p, o) {
        Branch1Zero(p, o, w);
      }
    }
  }

  lemma Branch1Zero(p: int, o: int, w: int)
    requires IsPrime(p) && OnBranch1(p, o, w) && Divides(p, o)
    ensures Divides(p, w)
  {
    Lin2(p, w * w, 1, w * w - o * (w - 1), w - 1, o);
    Euclid(p, w, w);
  }

  lemma Branch1Equation(p: int, a: int, b: int, w: int, o: int, x0: int, x1: int, x: int)
    requires IsPrime(p) && !Divides(p, a) && !Divides(p, b) && !Divides(p, w - 1)
    requires Divides(p, a * x0 * (w * w - w) + b * (w * w - w + 1)) && Divides(p, b * o - a * x - b)
    requires Cong(p, x1, -w * x0)
    ensures Cong(p, x1, x) <==> OnBranch1(p, o, w)
  {
    var h, k := a * x0 * (w * w - w) + b * (w * w - w + 1), a * (w - 1);
    Branch1Identity(a, b, w, o, x0, x1, x);
    if Cong(p, x1, x) {
      Lin4(p, b * (w * w - o * (w - 1)), 1, h, -k, x1 - -w * x0, k, x1 - x, -(w - 1), b * o - a * x - b);
      Euclid(p, b, w * w - o * (w - 1));
    }
    if OnBranch1(p, o, w) {
      Lin4(p, k * (x1 - x), -1, h, k, x1 - -w * x0, b, w * w - o * (w - 1), w - 1, b * o - a * x - b);
      NonzeroProduct(p, a, w - 1);
      Euclid(p, k, x1 - x);
    }
  }

  lemma Branch1Identity(a: int, b: int, w: int, o: int, x0: int, x1: int, x: int)
    ensures b * (w * w - o * (w - 1))
            == 1 * (a * x0 * (w * w - w) + b * (w * w - w + 1)) + -(a * (w - 1)) * (x1 - -w * x0)
               + (a * (w - 1)) * (x1 - x) + -(w - 1) * (b * o - a * x - b)
    ensures (a * (w - 1)) * (x1 - x)
            == -1 * (a * x0 * (w * w - w) + b * (w * w - w + 1)) + (a * (w - 1)) * (x1 - -w * x0)
               + b * (w * w - o * (w - 1)) + (w - 1) * (b * o - a * x - b)
  {
  }

  lemma Branch1Regular(p: int, o: int, v: int)
    requires IsPrime(p) && OnBranch1(p, o, v * v) && !Divides(p, o)
    ensures Regular(p, v)
  {
    if !Regular(p, v) {
      RegularDenominator(p, v);
      Branch1Degenerate(p, o, v * v);
    }
  }

  lemma Branch1Degenerate(p: int, o: int, w: int)
    requires IsPrime(p) && OnBranch1(p, o, w) && Divides(p, w * w - w)
    ensures Divides(p, o)
  {
    var h := w * w - o * (w - 1);
    DegenerateIdentities(o, w);
    Euclid(p, w, w - 1);
    if !Divides(p, w) {
      Lin2(p, w * w, 1, h, o, w - 1);
      Euclid(p, w, w);
    }
    Lin2(p, o, 1, h, o - w, w);
  }

  lemma DegenerateIdentities(o: int, w: int)
    ensures w * w - w == w * (w - 1)
    ensures w * w == 1 * (w * w - o * (w - 1)) + o * (w - 1)
    ensures o == 1 * (w * w - o * (w - 1)) + (o - w) * w
  {
    assert o * (w - 1) == o * w - o;
    assert (o - w) * w == o * w - w * w;
  }

  lemma RegularFactors(p: int, v: int)
    requires IsPrime(p) && Regular(p, v)
    ensures !Divides(p, v * v) && !Divides(p, v * v - 1)
  {
    NonzeroProduct(p, v, v);
    NonzeroProduct(p, v - 1, v + 1);
    assert (v - 1) * (v + 1) == v * v - 1;
  }

  /** The preimages of a point under f, branch by branch. */
  lemma Preimages(c: Curve, v: int, q: Point)
    requires EncodingCurve(c) && q.Affine? && c.OnCurve(q)
    ensures Legendre(q.y, c.p) == 1 ==> (F(c, v) == Ok(q) <==> OnBranch0(c.p, Omega(c, q.x), v * v))
    ensures Legendre(q.y, c.p) == -1 ==>
              (F(c, v) == Ok(q) <==> OnBranch1(c.p, Omega(c, q.x), v * v) && !Divides(c.p, Omega(c, q.x)))
    ensures Legendre(q.y, c.p) == 1 || Legendre(q.y, c.p) == -1
  {
    var p := c.p;
    FMeaning(c, v);
    Branch0(c, v, q.x);
    Branch1(c, v, q.x);
    OrdinateNonzero(c, q);
    LegendreMeaning(p, q.y);
    if Regular(p, v) {
      ExactlyOneSquare(c, v);
      var x0, x1, g := X0(c, v).value, X1(c, v).value, F(c, v).value;
      if Cong(p, x0, q.x) {
        SmallMultiple(p, x0 - q.x);
      } else {
        MultipleDivides(p, 0);
      }
      if Cong(p, x1, q.x) {
        SmallMultiple(p, x1 - q.x);
      } else {
        MultipleDivides(p, 0);
      }
      if g.x == q.x && Legendre(g.y, p) == Legendre(q.y, p) {
        SameOrdinate(c, g, q);
      }
      OnCurveSymbol(c, q);
    }
  }

  lemma OrdinateNonzero(c: Curve, q: Point)
    requires c.Valid() && q.Affine? && c.OnCurve(q)
    ensures !Divides(c.p, q.y)
  {
    if Divides(c.p, q.y) {
      Lin2(c.p, c.Cubic(q.x), q.y, q.y, -1, q.y * q.y - c.Cubic(q.x));
    }
  }

  lemma OnCurveSymbol(c: Curve, q: Point)
    requires c.Valid() && q.Affine? && c.OnCurve(q)
    ensures Legendre(c.Cubic(q.x), c.p) == 1
  {
    OrdinateNonzero(c, q);
    LegendreSquare(c.p, q.y);
    LegendreCong(c.p, q.y * q.y, c.Cubic(q.x));
  }

  /** A point is determined by its abscissa and the symbol of its ordinate. */
  lemma SameOrdinate(c: Curve, s: Point, t: Point)
    requires EncodingCurve(c) && s.Affine? && t.Affine? && c.OnCurve(s) && c.OnCurve(t)
    requires s.x == t.x && Legendre(s.y, c.p) == Legendre(t.y, c.p)
    ensures s == t
  {
    var p := c.p;
    RootsUpToSign(p, c.Cubic(s.x), s.y, t.y);
    if Cong(p, s.y, -t.y) {
      LegendreCong(p, s.y, -t.y);
      LegendreNegative(p, t.y);
      OrdinateNonzero(c, t);
      LegendreMeaning(p, t.y);
    }
    SmallMultiple(p, s.y - t.y);
  }
}
