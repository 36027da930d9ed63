/** Hashing to the curve: scripts/decoyauth.py simplified_swu, over any odd prime (section 6.6.2 of RFC 9380). */
module Swu {
  import opened ModArith
  import opened Primes
  import opened Residues
  import opened ModularSqrt
  import opened Curves

  function PowMod(b: int, e: nat, p: int): (r: int)
    requires p > 0
    ensures 0 <= r < p && Cong(p, r, Pow(b, e))
  {
    ModCong(p, Pow(b, e));
    Pow(b, e) % p
  }

  /** The exceptional abscissa b / (z*a), used when m is 0. */
  function Exceptional(c: Curve, z: int): (x: int)
    requires c.p > 1
    ensures 0 <= x < c.p
  {
    (c.b * PowMod(z * c.a, c.p - 2, c.p)) % c.p
  }

  /** z is a non-residue and the cubic is a square at b / (z*a). */
  ghost predicate SwuCurve(c: Curve, z: int) {
    c.Valid() && Legendre(z, c.p) == -1 && Legendre(c.Cubic(Exceptional(c, z)), c.p) == 1
  }

  /** m = z^2 * u^4 + z * u^2. */
  function M(c: Curve, z: int, u: int): (m: int)
    requires c.p > 1
    ensures 0 <= m < c.p
  {
    var p := c.p;
    (PowMod(z, 2, p) * PowMod(u, 4, p) + z * PowMod(u, 2, p)) % p
  }

  function Candidate1(c: Curve, z: int, u: int): (x: int)
    requires c.p > 1
    ensures 0 <= x < c.p
  {
    var p, m := c.p, M(c, z, u);
    var t := PowMod(m, p - 2, p);
    if m == 0 then Exceptional(c, z) else (-c.b * (1 + t) * PowMod(c.a, p - 2, p)) % p
  }

  function Candidate2(c: Curve, z: int, u: int): (x: int)
    requires c.p > 1
    ensures 0 <= x < c.p
  {
    (z * PowMod(u, 2, c.p) * Candidate1(c, z, u)) % c.p
  }

  function GMod(c: Curve, x: int): int
    requires c.p > 1
  {
    (PowMod(x, 3, c.p) + c.a * x + c.b) % c.p
  }

  lemma GModCong(c: Curve, x: int)
    requires c.p > 1
    ensures Cong(c.p, GMod(c, x), c.Cubic(x))
  {
    var p := c.p;
    assert Pow(x, 3) == x * Pow(x, 2) == x * (x * Pow(x, 1)) == x * (x * (x * Pow(x, 0)));
    assert x * (x * x) == x * x * x;
    var t := c.a * x + c.b;
    CongAdd(p, PowMod(x, 3, p), x * x * x, t, t) by { MultipleDivides(p, 0); }
    ModCong(p, PowMod(x, 3, p) + c.a * x + c.b);
    CongTrans(p, GMod(c, x), PowMod(x, 3, p) + t, c.Cubic(x));
  }

  /** The inverse by Fermat: x^(p-2). */
  lemma FermatInverse(p: int, x: int)
    requires IsPrime(p) && !Divides(p, x)
    ensures Cong(p, x * PowMod(x, p - 2, p), 1)
  {
    Fermat(p, x);
    MultipleDivides(p, 0);
    CongMul(p, x, x, PowMod(x, p - 2, p), Pow(x, p - 2));
    CongTrans(p, x * PowMod(x, p - 2, p), Pow(x, p - 1), 1);
  }

  lemma SquareCong(p: int, u: int)
    requires p > 0
    ensures Cong(p, PowMod(u, 2, p), u * u)
  {
    assert Pow(u, 2) == u * Pow(u, 1) == u * (u * Pow(u, 0));
  }

  lemma FourthCong(p: int, u: int)
    requires p > 0
    ensures Cong(p, PowMod(u, 4, p), (u * u) * (u * u))
  {
    PowAdd(u, 2, 2);
    assert Pow(u, 2) == u * Pow(u, 1) == u * (u * Pow(u, 0));
  }

  /** m == w*w + w with w = z*u*u. */
  lemma MMeaning(c: Curve, z: int, u: int)
    requires c.p > 1
    ensures var w := z * (u * u); Cong(c.p, M(c, z, u), w * w + w)
  {
    var p, w, s := c.p, z * (u * u), u * u;
    SquareCong(p, z);
    SquareCong(p, u);
    FourthCong(p, u);
    CongMul(p, PowMod(z, 2, p), z * z, PowMod(u, 4, p), s * s);
    CongMul(p, z, z, PowMod(u, 2, p), s) by { MultipleDivides(p, 0); }
    var e := PowMod(z, 2, p) * PowMod(u, 4, p) + z * PowMod(u, 2, p);
    CongAdd(p, PowMod(z, 2, p) * PowMod(u, 4, p), (z * z) * (s * s), z * PowMod(u, 2, p), z * s);
    MulExchange(z, z, s, s);
    ModCong(p, e);
    CongTrans(p, M(c, z, u), e, w * w + w);
  }

  lemma Candidate2Meaning(c: Curve, z: int, u: int)
    requires c.p > 1
    ensures Cong(c.p, Candidate2(c, z, u), z * (u * u) * Candidate1(c, z, u))
  {
    var p, x := c.p, Candidate1(c, z, u);
    SquareCong(p, u);
    MultipleDivides(p, 0);
    CongMul(p, z, z, PowMod(u, 2, p), u * u);
    CongMul(p, z * PowMod(u, 2, p), z * (u * u), x, x);
    ModCong(p, z * PowMod(u, 2, p) * x);
    CongTrans(p, Candidate2(c, z, u), z * PowMod(u, 2, p) * x, z * (u * u) * x);
  }

  /** Outside the exceptional case x1 solves a*x*(w*w + w) == -b*(w*w + w + 1). */
  lemma Candidate1Meaning(c: Curve, z: int, u: int)
    requires c.Valid() && M(c, z, u) != 0
    ensures var w := z * (u * u);
            && !Divides(c.p, w * w + w)
            && Divides(c.p, c.a * Candidate1(c, z, u) * (w * w + w) + c.b * (w * w + w + 1))
  {
    hide M, PowMod;
    var p, w, m, x := c.p, z * (u * u), M(c, z, u), Candidate1(c, z, u);
    var d := w * w + w;
    MMeaning(c, z, u);
    if Divides(p, d) {
      Lin2(p, m, 1, m - d, 1, d);
      SmallMultiple(p, m);
    }
    if Divides(p, m) { SmallMultiple(p, m); }
    var t, ia := PowMod(m, p - 2, p), PowMod(c.a, p - 2, p);
    FermatInverse(p, m);
    FermatInverse(p, c.a);
    InverseTransfer(p, m, d, t);
    ModCong(p, -c.b * (1 + t) * ia);
    Rearrange(c.b, t, ia);
    AbscissaEquation(p, c.a, c.b, d, ia, t, x);
  }

  lemma Rearrange(b: int, t: int, ia: int)
    ensures -b * (1 + t) * ia == -(b * ia) * (1 + t)
  {
  }

  lemma InverseTransfer(p: int, m: int, d: int, t: int)
    requires p > 0 && Cong(p, m, d) && Cong(p, m * t, 1)
    ensures Cong(p, d * t, 1)
  {
    CongSym(p, m, d);
    CongMul(p, d, m, t, t) by { MultipleDivides(p, 0); }
    CongTrans(p, d * t, m * t, 1);
  }

  lemma CandidateSymbols(c: Curve, z: int, u: int)
    requires SwuCurve(c, z)
    ensures Legendre(c.Cubic(Candidate1(c, z, u)), c.p) != 0
    ensures Legendre(c.Cubic(Candidate1(c, z, u)), c.p) == -1 ==> Legendre(c.Cubic(Candidate2(c, z, u)), c.p) == 1
  {
    var p, w := c.p, z * (u * u);
    var x1, x2 := Candidate1(c, z, u), Candidate2(c, z, u);
    LegendreMeaning(p, c.Cubic(x1));
    if Legendre(c.Cubic(x1), p) == -1 {
      Candidate1Meaning(c, z, u);
      CubicScales(c, w, x1);
      Candidate2Meaning(c, z, u);
      CubicCong(c, x2, w * x1);
      CongTrans(p, c.Cubic(x2), c.Cubic(w * x1), w * w * w * c.Cubic(x1));
      LegendreCong(p, c.Cubic(x2), w * w * w * c.Cubic(x1));
      FactorSymbol(p, z, u);
      LegendreProduct(p, w * w * w, c.Cubic(x1));
    }
  }

  lemma FactorSymbol(p: int, z: int, u: int)
    requires OddPrime(p) && Legendre(z, p) == -1
    requires var w := z * (u * u); !Divides(p, w * w + w)
    ensures var w := z * (u * u); Legendre(w * w * w, p) == -1
  {
    var w := z * (u * u);
    if Divides(p, u) {
      Lin1(p, w, z * u, u);
      Lin1(p, w * w + w, w + 1, w);
    }
    LegendreSquare(p, u);
    LegendreProduct(p, z, u * u);
    LegendreProduct(p, w, w);
    LegendreProduct(p, w * w, w);
  }

  /** The abscissa simplified_swu settles on. */
  function SwuX(c: Curve, z: int, u: int): (x: int)
    requires c.p > 1
    ensures 0 <= x < c.p
  {
    if IsQuadraticResidue(GMod(c, Candidate1(c, z, u)), c.p) then Candidate1(c, z, u) else Candidate2(c, z, u)
  }

  lemma GModSymbol(c: Curve, x: int)
    requires c.Valid()
    ensures Legendre(GMod(c, x), c.p) == Legendre(c.Cubic(x), c.p) != 0
  {
    GModCong(c, x);
    LegendreCong(c.p, GMod(c, x), c.Cubic(x));
    LegendreMeaning(c.p, c.Cubic(x));
  }

  /** The cubic is a nonzero square at the chosen abscissa, whatever u is. */
  lemma SwuXIsSquare(c: Curve, z: int, u: int)
    requires SwuCurve(c, z)
    ensures NonzeroSquare(c.p, GMod(c, SwuX(c, z, u)))
  {
    var x1, x2 := Candidate1(c, z, u), Candidate2(c, z, u);
    CandidateSymbols(c, z, u);
    GModSymbol(c, x1);
    GModSymbol(c, x2);
    LegendreMeaning(c.p, c.Cubic(x1));
    EulerCriterion(c.p, GMod(c, SwuX(c, z, u)));
  }

  /** The exceptional abscissa solves z*a*x == b. */
  lemma ExceptionalMeaning(c: Curve, z: int)
    requires c.Valid() && !Divides(c.p, z)
    ensures Divides(c.p, z * c.a * Exceptional(c, z) - c.b)
  {
    hide PowMod;
    var p, k := c.p, z * c.a;
    NonzeroProduct(p, z, c.a);
    FermatInverse(p, k);
    var i := PowMod(k, p - 2, p);
    ModCong(p, c.b * i);
    SolvesProduct(p, k, i, c.b, Exceptional(c, z));
  }

  lemma SolvesProduct(p: int, k: int, i: int, b: int, x: int)
    requires p > 0 && Cong(p, k * i, 1) && Cong(p, x, b * i)
    ensures Divides(p, k * x - b)
  {
    assert k * x - b == k * (x - b * i) + b * (k * i - 1);
    Lin2(p, k * x - b, k, x - b * i, b, k * i - 1);
  }

  /** The choice, with w = z*u*u: x1 solves a*x*(w*w + w) == -b*(w*w + w + 1), or z*a*x == b where w*w + w is 0; the
      result is x1 if the cubic is a square there and w*x1 otherwise. */
  lemma SwuChoice(c: Curve, z: int, u: int)
    requires SwuCurve(c, z)
    ensures var w, x1, x := z * (u * u), Candidate1(c, z, u), SwuX(c, z, u);
            && (!Divides(c.p, w * w + w) ==> Divides(c.p, c.a * x1 * (w * w + w) + c.b * (w * w + w + 1)))
            && (Divides(c.p, w * w + w) ==> Divides(c.p, z * c.a * x1 - c.b))
            && (NonzeroSquare(c.p, c.Cubic(x1)) ==> x == x1)
            && (!NonzeroSquare(c.p, c.Cubic(x1)) ==> Cong(c.p, x, w * x1))
  {
    var p, m, w, x1 := c.p, M(c, z, u), z * (u * u), Candidate1(c, z, u);
    LegendreMeaning(p, z);
    MMeaning(c, z, u);
    if m != 0 {
      Candidate1Meaning(c, z, u);
    } else {
      Lin1(p, w * w + w, -1, 0 - (w * w + w));
      ExceptionalMeaning(c, z);
    }
    hide M, Candidate1, Candidate2, Exceptional, GMod, Legendre, c.Cubic;
    EulerCriterion(p, c.Cubic(x1));
    GModSymbol(c, x1);
    Candidate2Meaning(c, z, u);
  }

  /** q is the point simplified_swu maps u to: abscissa SwuX, on the curve, ordinate of the parity of u. */
  ghost predicate IsSwu(c: Curve, z: int, u: int, q: Point)
    requires c.p > 1
  {
    q.Affine? && c.OnCurve(q) && 0 < q.y < c.p && q.x == SwuX(c, z, u) && q.y % 2 == u % 2
  }

  /** scripts/decoyauth.py simplified_swu. The square root never fails. */
  method SimplifiedSwu(c: Curve, z: int, u: int) returns (q: Point)
    requires SwuCurve(c, z)
    ensures IsSwu(c, z, u, q)
  {
    var p := c.p;
    var m := M(c, z, u);
    var x1 := Candidate1(c, z, u);
    var gx1 := GMod(c, x1);
    var x2 := Candidate2(c, z, u);
    var gx2 := GMod(c, x2);
    var l := IsQuadraticResidue(gx1, p);
    var v := if l then gx1 else gx2;
    var x := if l then x1 else x2;
    SwuXIsSquare(c, z, u);
    var root := ModSqrt(v, p);
    var y := root.value;
    OrdinateParity(c, x, y);
    if u % 2 == y % 2 {
      return Affine(x, y);
    } else {
      return Affine(x, p - y);
    }
  }

  lemma OrdinateParity(c: Curve, x: int, y: int)
    requires c.Valid() && 0 <= x < c.p && 0 < y < c.p && IsRoot(c.p, GMod(c, x), y)
    ensures c.OnCurve(Affine(x, y)) && c.OnCurve(Affine(x, c.p - y))
    ensures (c.p - y) % 2 != y % 2
  {
    var p := c.p;
    GModCong(c, x);
    CongTrans(p, y * y, GMod(c, x), c.Cubic(x));
    MultipleDivides(p, 1);
    assert (p - y) - -y == p;
    CongMul(p, p - y, -y, p - y, -y);
    assert -y * -y == y * y;
    CongTrans(p, (p - y) * (p - y), y * y, c.Cubic(x));
  }

  /** The three properties leave no choice. */
  lemma SwuUnique(c: Curve, z: int, u: int, q: Point, r: Point)
    requires c.Valid() && IsSwu(c, z, u, q) && IsSwu(c, z, u, r)
    ensures q == r
  {
    hide SwuX;
    RootsUpToSign(c.p, c.Cubic(q.x), q.y, r.y);
    SameParity(c.p, q.y, r.y);
  }

  lemma SameParity(p: int, y: int, z: int)
    requires OddPrime(p) && 0 < y < p && 0 < z < p && y % 2 == z % 2 && (Cong(p, y, z) || Cong(p, y, -z))
    ensures y == z
  {
    if Cong(p, y, z) {
      SmallMultiple(p, y - z);
    } else {
      MultipleDivides(p, 1);
      Lin2(p, y + z - p, 1, y - -z, -1, p);
      SmallMultiple(p, y + z - p);
    }
  }

  /** simplified_swu as a function of u. */
  ghost function SwuPoint(c: Curve, z: int, u: int): (q: Point)
    requires SwuCurve(c, z)
    ensures IsSwu(c, z, u, q)
  {
    SwuExists(c, z, u);
    var q :| IsSwu(c, z, u, q);
    q
  }

  lemma SwuExists(c: Curve, z: int, u: int)
    requires SwuCurve(c, z)
    ensures exists q :: IsSwu(c, z, u, q)
  {
    var p, x := c.p, SwuX(c, z, u);
    SwuXIsSquare(c, z, u);
    var r :| IsRoot(p, GMod(c, x), r);
    var y := r % p;
    ModCong(p, r);
    CongMul(p, y, r, y, r);
    CongTrans(p, y * y, r * r, GMod(c, x));
    if y == 0 {
      Lin1(p, GMod(c, x), -1, 0 * 0 - GMod(c, x));
    }
    OrdinateParity(c, x, y);
    assert IsSwu(c, z, u, Affine(x, if y % 2 == u % 2 then y else p - y));
  }
}
