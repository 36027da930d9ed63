/** c-prototype/src/encode.c. It differs from the Python code in four places: f maps 0, 1 and p - 1 to infinity, the
    abscissas are computed in 1..p, BN_mod_sqrt(0) is 0 instead of a failure, and a failed inversion goes unnoticed and
    leaves 0. */
module EncodeC {
  import opened ModArith
  import opened Primes
  import opened Residues
  import opened ModularSqrt
  import opened Curves
  import opened Elligator
  import opened Inversion
  import opened Encode
  import opened Wrappers

  /** BN_mod_sqrt for p == 3 mod 4. */
  function BnModSqrt(e: int, p: int): (r: Option<int>)
    requires p > 1
  {
    if e % p == 0 then Some(0) else PrincipalSqrt(e, p)
  }

  /** What BN_mod_inverse leaves in its result; the callers ignore that a multiple of p has no inverse, and the result
      is then still 0. */
  function BnModInverse(a: int, p: int): int
    requires IsPrime(p)
  {
    if Divides(p, a) then 0 else InvertMod(a, p).value
  }

  /** c-prototype/src/encode.c X_0. */
  function X0C(c: Curve, u: int): (x: int)
    requires c.Valid()
    ensures 0 < x <= c.p
  {
    var p := c.p;
    var uu := (u * u) % p;
    var temp := ((uu * uu) % p - uu) % p;
    var tempSum := (1 + BnModInverse(temp, p)) % p;
    var ba := (c.b * BnModInverse(c.a, p)) % p;
    p - (ba * tempSum) % p
  }

  lemma InvertibleTemp(p: int, u: int)
    requires IsPrime(p) && Regular(p, u)
    ensures var uu := (u * u) % p; !Divides(p, ((uu * uu) % p - uu) % p)
    ensures var uu := (u * u) % p; Cong(p, ((uu * uu) % p - uu) % p, uu * uu - uu)
  {
    var uu := (u * u) % p;
    var d := uu * uu - uu;
    ModCong(p, uu * uu);
    ModCong(p, (uu * uu) % p - uu);
    Lin2(p, ((uu * uu) % p - uu) % p - d,
         1, ((uu * uu) % p - uu) % p - ((uu * uu) % p - uu), 1, (uu * uu) % p - uu * uu);
    ReducedDenominator(p, u);
    RegularDenominator(p, u);
    DividesCong(p, d, (u * u) * (u * u) - u * u);
    DividesCong(p, ((uu * uu) % p - uu) % p, d);
  }

  /** c-prototype/src/encode.c X_1. */
  function X1C(c: Curve, u: int): (x: int)
    requires c.Valid()
    ensures 0 < x <= c.p
  {
    c.p - (((u * u) % c.p) * X0C(c, u)) % c.p
  }

  /** EC_POINT_set_affine_coordinates reduces what it is given. */
  function SetAffine(p: int, x: int, y: int): Point
    requires p > 0
  {
    Affine(x % p, y % p)
  }

  lemma SetAffineReduced(p: int, x: int, y: int)
    requires p > 0 && 0 <= y < p
    ensures SetAffine(p, x, y) == Affine(x % p, y)
  {
    MultipleDivides(p, 0);
    ReducedIsResidue(p, y, y);
  }

  /** c-prototype/src/encode.c f. The guard compares u itself, so u == p is not excluded. */
  function FC(c: Curve, u: int): Option<Point>
    requires c.Valid() && 0 <= u
  {
    if u == 1 || u == 0 || u == c.p - 1 then Some(Infinity)
    else
      var p, x0 := c.p, X0C(c, u);
      match BnModSqrt(c.Cubic(x0) % p, p)
      case Some(y) => Some(SetAffine(p, x0, y))
      case None =>
        var x1 := X1C(c, u);
        match BnModSqrt(c.Cubic(x1) % p, p)
        case Some(y) => Some(SetAffine(p, x1, p - y))
        case None => None
  }

  lemma SameX0(c: Curve, u: int)
    requires c.Valid() && Regular(c.p, u)
    ensures X0(c, u) == Some(X0C(c, u) % c.p)
  {
    var p := c.p;
    X0Meaning(c, u);
    InvertibleTemp(p, u);
    var uu := (u * u) % p;
    SameInverse(p, ((uu * uu) % p - uu) % p, uu * uu - uu);
    var s, t := c.b * InvertMod(c.a, p).value, 1 + InvertMod(uu * uu - uu, p).value;
    NegatedProduct(p, s, t, s % p, t % p);
    CongIffSameResidue(p, X0C(c, u), -s * t);
  }

  lemma SameX1(c: Curve, u: int)
    requires c.Valid() && Regular(c.p, u)
    ensures X1(c, u) == Some(X1C(c, u) % c.p)
  {
    hide X0, X0C;
    var p, uu := c.p, (u * u) % c.p;
    X1Meaning(c, u);
    SameX0(c, u);
    NegatedFactor(p, uu, X0C(c, u));
    CongIffSameResidue(p, X1C(c, u), -uu * X0(c, u).value);
  }

  lemma NegatedFactor(p: int, s: int, t: int)
    requires p > 0
    ensures Cong(p, p - (s * t) % p, -s * (t % p))
  {
    ModCong(p, s * t);
    ModCong(p, t);
    MultipleDivides(p, 1);
    assert (p - (s * t) % p) - -s * (t % p) == p + -((s * t) % p - s * t) + -s * (t - t % p);
    Lin3(p, (p - (s * t) % p) - -s * (t % p), 1, p, -1, (s * t) % p - s * t, -s, t - t % p);
  }

  lemma SameInverse(p: int, x: int, y: int)
    requires IsPrime(p) && Cong(p, x, y) && !Divides(p, x) && !Divides(p, y)
    ensures InvertMod(x, p) == InvertMod(y, p)
  {
    CongIffSameResidue(p, x, y);
  }

  lemma NegatedProduct(p: int, s: int, t: int, s': int, t': int)
    requires p > 0 && s' == s % p && t' == t % p
    ensures Cong(p, p - (s' * t') % p, -s * t)
  {
    ModCong(p, s);
    ModCong(p, t);
    CongMul(p, s', s, t', t);
    ModCong(p, s' * t');
    MultipleDivides(p, 1);
    Lin3(p, (p - (s' * t') % p) - -s * t, 1, p, -1, (s' * t') % p - s' * t', -1, s' * t' - s * t);
  }

  /** The C map agrees with the Python map where the latter is defined, is infinity elsewhere, and never
      reaches its NULL return. */
  lemma FCMeaning(c: Curve, u: int)
    requires EncodingCurve(c) && 0 <= u < c.p
    ensures F(c, u).Ok? <==> Regular(c.p, u)
    ensures FC(c, u) == Some(if F(c, u).Ok? then F(c, u).value else Infinity)
  {
    var p := c.p;
    RegularInRange(p, u);
    FMeaning(c, u);
    if Regular(p, u) {
      SameX0(c, u);
      SameX1(c, u);
      FCUnfold(c, u);
    }
  }

  lemma FCUnfold(c: Curve, u: int)
    requires EncodingCurve(c) && 0 <= u < c.p && Regular(c.p, u) && F(c, u).Ok?
    requires X0(c, u) == Some(X0C(c, u) % c.p) && X1(c, u) == Some(X1C(c, u) % c.p)
    ensures FC(c, u) == Some(F(c, u).value)
  {
    hide X0, X1, X0C, X1C, BnModSqrt, PrincipalSqrt, G, SetAffine;
    var p, x0, x1 := c.p, X0C(c, u), X1C(c, u);
    RegularInRange(p, u);
    SameRoot(c, x0);
    SameRoot(c, x1);
    var r0, r1 := BnModSqrt(c.Cubic(x0) % p, p), BnModSqrt(c.Cubic(x1) % p, p);
    if r0.Some? { SetAffineReduced(p, x0, r0.value); }
    if r1.Some? { SetAffineReduced(p, x1, p - r1.value); }
  }

  lemma SameRoot(c: Curve, x: int)
    requires EncodingCurve(c)
    ensures BnModSqrt(c.Cubic(x) % c.p, c.p) == PrincipalSqrt(G(c, x % c.p), c.p)
    ensures BnModSqrt(c.Cubic(x) % c.p, c.p).Some? ==> 0 < BnModSqrt(c.Cubic(x) % c.p, c.p).value < c.p
  {
    var p := c.p;
    ModCong(p, x);
    CubicCong(c, x, x % p);
    CongIffSameResidue(p, c.Cubic(x), c.Cubic(x % p));
    ReducedSymbol(c, x);
    PrincipalSqrtMeaning(p, G(c, x));
  }

  // ------------------------------------------------------------------ calc_v

  function SignedRootC(p: int, e: int, positive: bool): Option<int>
    requires p > 1
  {
    match BnModSqrt(e, p)
    case None => None
    case Some(r) => Some(if positive then r else p - r)
  }

  /** c-prototype/src/encode.c calc_v. For omega == 0 the failed inversion of 2*omega leaves 0 behind; the
      value does not matter, because omega + sqrt is then 0 as well. */
  function CalcVC(c: Curve, q: Point, j: int): Option<int>
    requires c.Valid() && q.Affine?
  {
    var p, omega := c.p, Omega(c, q.x);
    var disc := (omega * omega) % p - (4 * omega) % p;
    match SignedRootC(p, disc, j == 0 || j == 1)
    case None => None
    case Some(sqrt) =>
      var k := if BnModSqrt(q.y, p).Some? then (2 * omega) % p else 2;
      var multiply := BnModInverse(k, p);
      SignedRootC(p, (((omega + sqrt) % p) * multiply) % p, j == 0 || j == 2)
  }

  lemma PrincipalSqrtCong(p: int, d: int, e: int)
    requires OddPrime(p) && Cong(p, d, e)
    ensures BnModSqrt(d, p) == BnModSqrt(e, p)
  {
    LegendreCong(p, d, e);
    CongIffSameResidue(p, d, e);
    PowCong(p, d, e, (p + 1) / 4);
    CongIffSameResidue(p, Pow(d, (p + 1) / 4), Pow(e, (p + 1) / 4));
  }

  lemma ScaledCong(p: int, s: int, m: int)
    requires p > 0
    ensures Cong(p, ((s % p) * m) % p, s * m)
  {
    ModCong(p, s);
    MultipleDivides(p, 0);
    CongMul(p, s % p, s, m, m);
    ModCong(p, (s % p) * m);
    CongTrans(p, ((s % p) * m) % p, (s % p) * m, s * m);
  }

  /** The reductions and inversions of the C code, written as in calc_v of the Python code. */
  lemma CalcVCForm(c: Curve, q: Point, j: int)
    requires EncodingCurve(c) && q.Affine? && c.OnCurve(q) && !Divides(c.p, Omega(c, q.x))
    ensures !Divides(c.p, Divisor(c, q))
    ensures CalcVC(c, q, j) ==
            match SignedRootC(c.p, Discriminant(c, q), j == 0 || j == 1)
            case None => None
            case Some(sqrt) =>
              SignedRootC(c.p, (Omega(c, q.x) + sqrt) * InvertMod(Divisor(c, q), c.p).value, j == 0 || j == 2)
  {
    hide InvertMod, Omega, Legendre, PrincipalSqrt;
    var p, omega := c.p, Omega(c, q.x);
    FourNonzero(p);
    NonzeroProduct(p, 2, omega);
    ModCong(p, 4 * omega);
    var disc := (omega * omega) % p - (4 * omega) % p;
    Lin1(p, disc - Discriminant(c, q), -1, (4 * omega) % p - 4 * omega);
    PrincipalSqrtCong(p, disc, Discriminant(c, q));
    OrdinateTest(c, q);
    ModCong(p, 2 * omega);
    DividesCong(p, (2 * omega) % p, 2 * omega);
    SameInverse(p, (2 * omega) % p, 2 * omega);
    var k := if BnModSqrt(q.y, p).Some? then (2 * omega) % p else 2;
    var m := InvertMod(Divisor(c, q), p).value;
    assert BnModInverse(k, p) == m;
    var first := SignedRootC(p, Discriminant(c, q), j == 0 || j == 1);
    if first.Some? {
      var sqrt := first.value;
      ScaledCong(p, omega + sqrt, m);
      PrincipalSqrtCong(p, (((omega + sqrt) % p) * m) % p, (omega + sqrt) * m);
    }
  }

  lemma OrdinateTest(c: Curve, q: Point)
    requires c.Valid() && q.Affine? && c.OnCurve(q)
    ensures BnModSqrt(q.y, c.p).Some? <==> IsQuadraticResidue(q.y, c.p)
  {
    OrdinateNonzero(c, q);
  }

  /** omega + sqrt does not vanish when omega does not. */
  lemma SecondRadicand(p: int, o: int, d: int, sqrt: int, m: int, k: int)
    requires OddPrime(p) && !Divides(p, o) && Cong(p, d, o * o - 4 * o) && IsRoot(p, d, sqrt) && Cong(p, k * m, 1)
    ensures !Divides(p, (o + sqrt) * m)
  {
    if Divides(p, m) {
      Lin2(p, 1, k, m, -1, k * m - 1);
      OneNonzero(p);
    }
    if Divides(p, o + sqrt) {
      assert 4 * o == (o - sqrt) * (o + sqrt) + (sqrt * sqrt - d) + (d - (o * o - 4 * o));
      Lin3(p, 4 * o, o - sqrt, o + sqrt, 1, sqrt * sqrt - d, 1, d - (o * o - 4 * o));
      FourNonzero(p);
      Euclid(p, 4, o);
    }
    NonzeroProduct(p, o + sqrt, m);
  }

  lemma FirstRoot(p: int, d: int, positive: bool, sqrt: int)
    requires OddPrime(p) && p % 4 == 3 && SignedRootC(p, d, positive) == Some(sqrt)
    ensures IsRoot(p, d, sqrt)
    ensures Divides(p, d) ==> Divides(p, sqrt)
  {
    if Divides(p, d) {
      MultipleDivides(p, 0);
      MultipleDivides(p, 1);
      RootOfZero(p, d, sqrt);
    } else {
      SignedRootMeaning(p, d, positive, sqrt);
    }
  }

  /** calc_v in C, for omega != 0: the preimages of q, all of them, also when the discriminant is zero. */
  lemma CalcVCMeaning(c: Curve, q: Point, j: int, v: int)
    requires EncodingCurve(c) && q.Affine? && c.OnCurve(q) && !Divides(c.p, Omega(c, q.x))
    ensures CalcVC(c, q, j) == Some(v) <==>
            && 0 < v < c.p && F(c, v) == Ok(q)
            && (!Divides(c.p, Discriminant(c, q)) ==> (Legendre(Turn(c, q, v), c.p) == 1 <==> j == 0 || j == 1))
            && (Legendre(v, c.p) == 1 <==> j == 0 || j == 2)
  {
    CalcVCForm(c, q, j);
    DiscriminantCong(c, q);
    if Divides(c.p, Discriminant(c, q)) {
      FoldedC(c, q, j, v);
    } else {
      UnfoldedC(c, q, j);
      CalcVMeaning(c, q, j, v);
    }
  }

  lemma UnfoldedC(c: Curve, q: Point, j: int)
    requires EncodingCurve(c) && q.Affine? && c.OnCurve(q) && !Divides(c.p, Omega(c, q.x))
    requires !Divides(c.p, Discriminant(c, q))
    ensures CalcVC(c, q, j) == CalcV(c, q, j)
  {
    hide InvertMod, Omega, Legendre, PrincipalSqrt;
    var p, o, d, k := c.p, Omega(c, q.x), Discriminant(c, q), Divisor(c, q);
    CalcVCForm(c, q, j);
    DiscriminantCong(c, q);
    var first := SignedRootC(p, d, j == 0 || j == 1);
    if first.Some? {
      FirstRoot(p, d, j == 0 || j == 1, first.value);
      SecondRadicand(p, o, d, first.value, InvertMod(k, p).value, k);
    }
  }

  lemma ZeroSides(p: int, x: int, y: int)
    requires p > 0 && Divides(p, y)
    ensures Cong(p, x, y) <==> Divides(p, x)
  {
    if Divides(p, x) { Lin2(p, x - y, 1, x, -1, y); }
    if Cong(p, x, y) { Lin2(p, x, 1, x - y, 1, y); }
  }

  lemma FoldedC(c: Curve, q: Point, j: int, v: int)
    requires EncodingCurve(c) && q.Affine? && c.OnCurve(q) && !Divides(c.p, Omega(c, q.x))
    requires Divides(c.p, Discriminant(c, q))
    ensures CalcVC(c, q, j) == Some(v) <==>
            0 < v < c.p && F(c, v) == Ok(q) && (Legendre(v, c.p) == 1 <==> j == 0 || j == 2)
  {
    hide InvertMod, Omega, Legendre, PrincipalSqrt, F, CalcVC, Divisor, Discriminant;
    var p, o, d, k, t := c.p, Omega(c, q.x), Discriminant(c, q), Divisor(c, q), Turn(c, q, v);
    CalcVCForm(c, q, j);
    DiscriminantCong(c, q);
    var sqrt, m := SignedRootC(p, d, j == 0 || j == 1).value, InvertMod(k, p).value;
    FirstRoot(p, d, j == 0 || j == 1, sqrt);
    SecondRadicand(p, o, d, sqrt, m, k);
    SignedRootMeaning(p, (o + sqrt) * m, j == 0 || j == 2, v);
    TurnInverts(p, k, m, o, sqrt, v * v);
    PreimageTurns(c, q, v);
    RootOfZero(p, d, t);
    ZeroSides(p, t, sqrt);
  }

  lemma OmegaReduced(c: Curve, x: int)
    requires c.Valid()
    ensures 0 <= Omega(c, x) < c.p
  {
  }

  /** At omega == 0 calc_v still returns a value, 0 or p, although no residue is a preimage of q. */
  lemma SpuriousValue(c: Curve, q: Point, j: int)
    requires EncodingCurve(c) && q.Affine? && c.OnCurve(q) && Divides(c.p, Omega(c, q.x))
    ensures CalcVC(c, q, j) == Some(if j == 0 || j == 2 then 0 else c.p)
  {
    hide InvertMod, Legendre, PrincipalSqrt, Omega, c.Cubic, c.OnCurve;
    var p, omega := c.p, Omega(c, q.x);
    OmegaReduced(c, q.x);
    SmallMultiple(p, omega);
    MultipleDivides(p, 0);
    MultipleDivides(p, 1);
    assert (omega * omega) % p - (4 * omega) % p == 0;
    var sqrt := if j == 0 || j == 1 then 0 else p;
    assert (omega + sqrt) % p == 0;
  }

  /** point - f(u). */
  function Difference(c: Curve, g: Group, point: Point, u: int): Point
    requires c.Valid() && 0 <= u < c.p
  {
    g.add(point, g.neg(if FC(c, u).Some? then FC(c, u).value else Infinity))
  }

  /** One try of es_encode: nothing for an excluded u, for a difference at infinity, or when calc_v finds nothing. */
  function TryC(c: Curve, g: Group, point: Point, draw: (int, int)): Option<int>
    requires c.Valid() && 0 <= draw.0 < c.p
  {
    var (u, j) := draw;
    if u == 0 || u == 1 || u == c.p - 1 then None
    else
      var diff := Difference(c, g, point, u);
      if diff.Infinity? then None else CalcVC(c, diff, j)
  }

  lemma X0Unfolds(c: Curve)
    requires c.Valid()
    ensures X0C(c, c.p) == c.p - (c.b * InvertMod(c.a, c.p).value) % c.p
  {
    hide InvertMod;
    var p, ia := c.p, InvertMod(c.a, c.p).value;
    MultipleDivides(p, p);
    MultipleDivides(p, 0);
    ModCong(p, c.b * ia);
    var ba := (c.b * ia) % p;
    assert (p * p) % p == 0;
    assert X0C(c, p) == p - (ba * ((1 + 0) % p)) % p;
    ReducedIsResidue(p, 1, 1);
    ReducedIsResidue(p, ba, ba);
  }

  /** At u == p the inversion in X_0 fails and leaves 0, so that the abscissa is -b/a. */
  lemma X0AtPrime(c: Curve)
    requires c.Valid()
    ensures 0 < X0C(c, c.p) < c.p && Divides(c.p, c.a * X0C(c, c.p) + c.b)
  {
    hide X0C, InvertMod, c.Cubic;
    var p, ia := c.p, InvertMod(c.a, c.p).value;
    X0Unfolds(c);
    var ba := (c.b * ia) % p;
    ModCong(p, c.b * ia);
    SmallResidue(p, ia);
    NonzeroProduct(p, c.b, ia);
    DividesCong(p, ba, c.b * ia);
    MultipleDivides(p, c.a);
    NegatedQuotient(p, c.a, c.b, ia, ba);
  }

  lemma SmallResidue(p: int, x: int)
    requires p > 0 && 0 < x < p
    ensures !Divides(p, x)
  {
    if Divides(p, x) { SmallMultiple(p, x); }
  }

  lemma NegatedQuotient(p: int, a: int, b: int, ia: int, ba: int)
    requires p > 0 && Cong(p, ba, b * ia) && Cong(p, a * ia, 1) && Divides(p, a * p)
    ensures Divides(p, a * (p - ba) + b)
  {
    assert a * (p - ba) + b == a * p + -a * (ba - b * ia) + -b * (a * ia - 1);
    Lin3(p, a * (p - ba) + b, 1, a * p, -a, ba - b * ia, -b, a * ia - 1);
  }

  lemma SameAbscissa(c: Curve, x: int, y: int)
    requires c.Valid() && 0 <= x < c.p && 0 <= y < c.p
    requires Divides(c.p, c.a * x + c.b) && Divides(c.p, c.a * y + c.b)
    ensures x == y
  {
    var p := c.p;
    Lin2(p, c.a * (x - y), 1, c.a * x + c.b, -1, c.a * y + c.b);
    Euclid(p, c.a, x - y);
    SmallMultiple(p, x - y);
  }

  /** f(p) has the abscissa of every point with omega == 0, and is the one of the two whose ordinate is a residue. */
  lemma FAtPrime(c: Curve, q: Point)
    requires EncodingCurve(c) && q.Affine? && c.OnCurve(q) && Divides(c.p, Omega(c, q.x))
    ensures FC(c, c.p).Some? && c.OnCurve(FC(c, c.p).value)
    ensures FC(c, c.p).value == q <==> Legendre(q.y, c.p) == 1
  {
    var p, x0 := c.p, X0C(c, c.p);
    OmegaShift(c, q.x, 0);
    assert c.a * q.x - (0 - 1) * c.b == c.a * q.x + c.b;
    X0AtPrime(c);
    SameAbscissa(c, q.x, x0);
    hide X0C, X1C, c.Cubic, PrincipalSqrt, Legendre, Omega;
    SameRoot(c, x0);
    OrdinateNonzero(c, q);
    RootOfPoint(c, q);
    var r := BnModSqrt(c.Cubic(x0) % p, p);
    SetAffineReduced(p, x0, r.value);
    MultipleDivides(p, 0);
    ReducedIsResidue(p, x0, x0);
  }

  lemma RootOfPoint(c: Curve, q: Point)
    requires EncodingCurve(c) && q.Affine? && c.OnCurve(q)
    ensures var r := BnModSqrt(c.Cubic(q.x) % c.p, c.p);
            r.Some? && 0 < r.value < c.p && Cong(c.p, r.value * r.value, c.Cubic(q.x))
            && (r.value == q.y <==> Legendre(q.y, c.p) == 1)
  {
    var p, x := c.p, c.Cubic(q.x);
    assert !Divides(p, x);
    OrdinateNonzero(c, q);
    hide PrincipalSqrt, Legendre, c.Cubic;
    ModCong(p, x);
    DividesCong(p, x % p, x);
    CongTrans(p, q.y * q.y, x, x % p);
    if q.y == 0 { MultipleDivides(p, 0); }
    PrincipalOf(p, x % p, q.y);
    var r := PrincipalSqrt(x % p, p).value;
    ModCong(p, x % p);
    assert BnModSqrt(x % p, p) == PrincipalSqrt(x % p, p);
    CongTrans(p, r * r, x % p, x);
  }

  lemma PrincipalOf(p: int, e: int, y: int)
    requires OddPrime(p) && p % 4 == 3 && 0 < y < p && IsRoot(p, e, y) && !Divides(p, e)
    ensures var r := PrincipalSqrt(e, p);
            r.Some? && 0 < r.value < p && IsRoot(p, e, r.value) && (r.value == y <==> Legendre(y, p) == 1)
  {
    hide PrincipalSqrt, Legendre;
    PrincipalSqrtMeaning(p, e);
    assert NonzeroSquare(p, e);
    var r := PrincipalSqrt(e, p).value;
    assert PrincipalSqrt(e, p) == Some(r);
  }

  /** c-prototype/src/encode.c es_decode; None if f returns NULL for either value. */
  function Decoded(c: Curve, g: Group, u: int, v: int): Option<Point>
    requires c.Valid() && 0 <= u && 0 <= v
  {
    match FC(c, u)
    case None => None
    case Some(s) =>
      match FC(c, v)
      case None => None
      case Some(t) => Some(g.add(s, t))
  }

  /** When a value returned by calc_v for q and j is mapped back to q: unless omega == 0; and then still if the value
      is p, which f takes for another argument than 0, and the ordinate is a residue. */
  ghost predicate MapsBack(c: Curve, q: Point, j: int)
    requires c.Valid() && q.Affine?
  {
    !Divides(c.p, Omega(c, q.x)) || (j != 0 && j != 2 && Legendre(q.y, c.p) == 1)
  }

  /** f of what calc_v returns. */
  lemma MapsBackIff(c: Curve, q: Point, j: int, v: int)
    requires EncodingCurve(c) && q.Affine? && c.OnCurve(q) && CalcVC(c, q, j) == Some(v)
    ensures 0 <= v <= c.p && FC(c, v).Some? && c.OnCurve(FC(c, v).value)
    ensures FC(c, v).value == q <==> MapsBack(c, q, j)
    ensures FC(c, v % c.p).Some? && c.OnCurve(FC(c, v % c.p).value)
    ensures FC(c, v % c.p).value == q <==> !Divides(c.p, Omega(c, q.x))
  {
    hide F, FC, CalcVC, Omega, Legendre;
    var p := c.p;
    if Divides(p, Omega(c, q.x)) {
      SpuriousValue(c, q, j);
      MultipleDivides(p, 1);
      FCMeaning(c, 0);
      FMeaning(c, 0);
      FAtPrime(c, q);
      RegularInRange(p, 0);
    } else {
      CalcVCMeaning(c, q, j, v);
      MultipleDivides(p, 0);
      ReducedIsResidue(p, v, v);
      FCMeaning(c, v);
    }
  }

  /** c-prototype/src/encode.c es_encode followed directly by es_decode. */
  lemma RoundTripIff(c: Curve, g: Group, point: Point, u: int, j: int, v: int)
    requires EncodingCurve(c) && IsGroup(c, g) && c.OnCurve(point) && 0 <= u < c.p
    requires TryC(c, g, point, (u, j)) == Some(v)
    ensures var q := Difference(c, g, point, u);
            && q.Affine? && c.OnCurve(q) && 0 <= v <= c.p && Decoded(c, g, u, v).Some?
            && (Decoded(c, g, u, v) == Some(point) <==> MapsBack(c, q, j))
  {
    var q := Difference(c, g, point, u);
    DifferenceFacts(c, g, point, u);
    hide F, FC, CalcVC, Omega, IsGroup, Legendre, MapsBack, c.OnCurve;
    MapsBackIff(c, q, j, v);
    SumIff(c, g, FC(c, u).value, FC(c, v).value, point);
  }

  /** es_encode followed by es_decode with v reduced in between, as weave and evaluate do. */
  lemma WovenRoundTripIff(c: Curve, g: Group, point: Point, u: int, j: int, v: int)
    requires EncodingCurve(c) && IsGroup(c, g) && c.OnCurve(point) && 0 <= u < c.p
    requires TryC(c, g, point, (u, j)) == Some(v)
    ensures var q := Difference(c, g, point, u);
            && q.Affine? && c.OnCurve(q) && Decoded(c, g, u, v % c.p).Some?
            && (Decoded(c, g, u, v % c.p) == Some(point) <==> !Divides(c.p, Omega(c, q.x)))
  {
    var q := Difference(c, g, point, u);
    DifferenceFacts(c, g, point, u);
    hide F, FC, CalcVC, Omega, IsGroup, Legendre, MapsBack, c.OnCurve;
    MapsBackIff(c, q, j, v);
    SumIff(c, g, FC(c, u).value, FC(c, v % c.p).value, point);
  }

  lemma DifferenceFacts(c: Curve, g: Group, point: Point, u: int)
    requires EncodingCurve(c) && IsGroup(c, g) && c.OnCurve(point) && 0 <= u < c.p
    ensures FC(c, u).Some? && c.OnCurve(FC(c, u).value) && c.OnCurve(Difference(c, g, point, u))
  {
    hide F, FC, IsGroup, c.OnCurve;
    FCMeaning(c, u);
    FMeaning(c, u);
    InfinityOnCurve(c);
    DifferenceOnCurve(c, g, FC(c, u).value, point);
  }

  lemma InfinityOnCurve(c: Curve)
    requires c.p > 0
    ensures c.OnCurve(Infinity)
  {
  }

  // ------------------------------------------------------------------ the code

  /** c-prototype/src/encode.c f; temporaries are overwritten in place. */
  method MapToPoint(c: Curve, u: int) returns (r: Option<Point>)
    requires EncodingCurve(c) && 0 <= u
    ensures r == FC(c, u)
    ensures u < c.p ==> r == Some(if F(c, u).Ok? then F(c, u).value else Infinity)
  {
    if u < c.p { FCMeaning(c, u); }
    var p := c.p;
    if u == 1 || u == 0 || u == p - 1 {
      return Some(Infinity);
    }
    hide F, BnModSqrt, c.Cubic;
    var x0 := X0C(c, u);
    var g := c.Cubic(x0) % p;
    var y := BnModSqrt(g, p);
    if y.Some? {
      return Some(SetAffine(p, x0, y.value));
    }
    var x1 := X1C(c, u);
    g := c.Cubic(x1) % p;
    y := BnModSqrt(g, p);
    if y.Some? {
      return Some(SetAffine(p, x1, p - y.value));
    }
    return None;
  }

  /** c-prototype/src/encode.c calc_v. */
  method CalcVInPlace(c: Curve, q: Point, j: int) returns (result: Option<int>)
    requires c.Valid() && q.Affine?
    ensures result == CalcVC(c, q, j)
  {
    hide BnModSqrt;
    var p := c.p;
    var omega := (c.a * BnModInverse(c.b, p) * q.x + 1) % p;
    var sqrt := (omega * omega) % p - (4 * omega) % p;
    var root := BnModSqrt(sqrt, p);
    if root.None? {
      return None;
    }
    sqrt := root.value;
    if j != 0 && j != 1 {
      sqrt := p - sqrt;
    }
    var multiply := 2;
    if BnModSqrt(q.y, p).Some? {
      multiply := (2 * omega) % p;
    }
    multiply := BnModInverse(multiply, p);
    var temp := (omega + sqrt) % p;
    temp := (temp * multiply) % p;
    root := BnModSqrt(temp, p);
    if root.None? {
      return None;
    }
    temp := root.value;
    if j != 0 && j != 2 {
      temp := p - temp;
    }
    result := Some(temp);
  }

  /** j names the signs that lead calc_v from q to v; with a zero discriminant only the second one matters. */
  ghost predicate IsIndexC(c: Curve, q: Point, v: int, j: int)
    requires c.Valid()
  {
    && q.Affine?
    && (!Divides(c.p, Discriminant(c, q)) ==> (Legendre(Turn(c, q, v), c.p) == 1 <==> j == 0 || j == 1))
    && (Legendre(v, c.p) == 1 <==> j == 0 || j == 2)
  }

  /** What calc_v is handed lies where no residue is mapped to. */
  ghost predicate Unreached(c: Curve, g: Group, point: Point, u: int)
    requires c.Valid() && 0 <= u < c.p
  {
    var q := Difference(c, g, point, u);
    q.Affine? && Divides(c.p, Omega(c, q.x))
  }

  /** Exactly when a draw yields v: u is regular, and either v is a residue with f(u) + f(v) == point and index j, or
      the difference has omega == 0 and v is 0 or p. */
  lemma TryIff(c: Curve, g: Group, point: Point, u: int, j: int, v: int)
    requires EncodingCurve(c) && IsGroup(c, g) && c.OnCurve(point) && 0 <= u < c.p && 0 <= v
    ensures TryC(c, g, point, (u, j)) == Some(v) <==>
            && Regular(c.p, u)
            && if Unreached(c, g, point, u) then v == (if j == 0 || j == 2 then 0 else c.p)
               else 0 < v < c.p && Regular(c.p, v) && Decoded(c, g, u, v) == Some(point)
                    && IsIndexC(c, FC(c, v).value, v, j)
  {
    RegularInRange(c.p, u);
    DifferenceFacts(c, g, point, u);
    var s, q := FC(c, u).value, Difference(c, g, point, u);
    hide F, FC, CalcVC, Omega, Legendre, Discriminant, Turn, IsGroup, c.OnCurve, c.Cubic, Regular;
    if q.Affine? && Divides(c.p, Omega(c, q.x)) {
      SpuriousValue(c, q, j);
    } else {
      if q.Affine? { CalcVCMeaning(c, q, j, v); }
      if 0 < v < c.p {
        RegularInRange(c.p, v);
        FCMeaning(c, v);
        FMeaning(c, v);
        InfinityOnCurve(c);
        SumIff(c, g, s, FC(c, v).value, point);
      }
    }
  }

  /** The symbols of a preimage choose its index. */
  ghost function IndexOf(c: Curve, q: Point, v: int): (j: int)
    requires c.Valid()
    ensures 0 <= j < 4 && (q.Affine? ==> IsIndexC(c, q, v, j))
  {
    if q.Affine? && Legendre(Turn(c, q, v), c.p) == 1 then if Legendre(v, c.p) == 1 then 0 else 1
    else if Legendre(v, c.p) == 1 then 2 else 3
  }

  /** Every decomposition of a point into f(u) + f(v) is yielded for some j, without exception. */
  lemma TryComplete(c: Curve, g: Group, point: Point, u: int, v: int)
    requires EncodingCurve(c) && IsGroup(c, g) && c.OnCurve(point) && 0 <= u < c.p && 0 <= v < c.p
    requires Regular(c.p, u) && Regular(c.p, v) && Decoded(c, g, u, v) == Some(point)
    ensures exists j :: 0 <= j < 4 && TryC(c, g, point, (u, j)) == Some(v)
  {
    RegularInRange(c.p, v);
    FCMeaning(c, v);
    FMeaning(c, v);
    FCMeaning(c, u);
    FMeaning(c, u);
    hide F, FC, CalcVC, Omega, Legendre, Discriminant, Turn, IsGroup, c.OnCurve, c.Cubic, Regular, IsIndexC;
    var t := FC(c, v).value;
    SumIff(c, g, FC(c, u).value, t, point);
    PreimageOmega(c, t, v);
    var j := IndexOf(c, t, v);
    TryIff(c, g, point, u, j, v);
  }

  /** Draw i is the first that yields a value, and r is what it yields. */
  ghost predicate FirstTry(c: Curve, g: Group, point: Point, draws: seq<(int, int)>, i: int, r: (int, int))
    requires c.Valid() && forall k :: 0 <= k < |draws| ==> 0 < draws[k].0 < c.p
  {
    && 0 <= i < |draws| && r.0 == draws[i].0 && TryC(c, g, point, draws[i]) == Some(r.1)
    && forall k :: 0 <= k < i ==> TryC(c, g, point, draws[k]) == None
  }

  /** What is known of a pair returned for the draw (u, j). */
  ghost predicate DecodesAs(c: Curve, g: Group, point: Point, u: int, j: int, v: int)
    requires c.Valid() && 0 <= u < c.p
  {
    var q := Difference(c, g, point, u);
    && 0 <= v <= c.p && q.Affine?
    && (Decoded(c, g, u, v) == Some(point) <==> MapsBack(c, q, j))
    && (Decoded(c, g, u, v % c.p) == Some(point) <==> !Divides(c.p, Omega(c, q.x)))
  }

  /** c-prototype/src/encode.c es_encode on given draws of u and j; None stands for the missing return after the last
      try. The first try that yields a value is returned; what the pair decodes to is as in RoundTripIff and, reduced,
      as in WovenRoundTripIff. */
  method EsEncode(c: Curve, g: Group, point: Point, draws: seq<(int, int)>) returns (r: Option<(int, int)>)
    requires EncodingCurve(c) && IsGroup(c, g) && c.OnCurve(point)
    requires |draws| == TRIES && forall i :: 0 <= i < |draws| ==> 0 < draws[i].0 < c.p
    ensures r.None? <==> forall i :: 0 <= i < |draws| ==> TryC(c, g, point, draws[i]) == None
    ensures r.Some? ==>
              exists i :: && FirstTry(c, g, point, draws, i, r.value)
                          && DecodesAs(c, g, point, r.value.0, draws[i].1, r.value.1)
  {
    hide CalcVC, FC, IsGroup, F, Omega, MapsBack, Decoded;
    for i := 0 to TRIES
      invariant forall k :: 0 <= k < i ==> TryC(c, g, point, draws[k]) == None
    {
      var (u, j) := draws[i];
      RegularInRange(c.p, u);
      if u != 0 && u != 1 && u != c.p - 1 {
        var s := MapToPoint(c, u);
        var diff := g.add(point, g.neg(s.value));
        if diff.Affine? {
          var v := CalcVInPlace(c, diff, j);
          if v.Some? {
            assert TryC(c, g, point, draws[i]) == Some(v.value);
            RoundTripIff(c, g, point, u, j, v.value);
            WovenRoundTripIff(c, g, point, u, j, v.value);
            assert FirstTry(c, g, point, draws, i, (u, v.value));
            return Some((u, v.value));
          }
        }
      }
      assert TryC(c, g, point, draws[i]) == None;
    }
    r := None;
  }

  /** c-prototype/src/encode.c es_decode. */
  method EsDecode(c: Curve, g: Group, u: int, v: int) returns (r: Option<Point>)
    requires EncodingCurve(c) && 0 <= u && 0 <= v
    ensures r == Decoded(c, g, u, v)
  {
    hide FC;
    var s := MapToPoint(c, u);
    var t := MapToPoint(c, v);
    if s.None? || t.None? {
      return None;
    }
    r := Some(g.add(s.value, t.value));
  }
}
