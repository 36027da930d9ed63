/** Short Weierstrass curves over a prime field, and a group law given by its laws only. */
module Curves {
  import opened ModArith
  import opened Primes

  /** The Python code writes the point at infinity as (0, 0), which no curve with b != 0 contains. */
  datatype Point = Infinity | Affine(x: int, y: int)

  datatype Curve = Curve(p: int, a: int, b: int)
  {
    function Cubic(x: int): int {
      x * x * x + a * x + b
    }

    /** Prime field, a and b nonzero, and no point of order two. */
    ghost predicate Valid() {
      && OddPrime(p) && !Divides(p, a) && !Divides(p, b)
      && forall x :: !Divides(p, Cubic(x))
    }

    predicate OnCurve(q: Point)
      requires p > 0
    {
      q.Affine? ==> 0 <= q.x < p && 0 <= q.y < p && Cong(p, q.y * q.y, Cubic(q.x))
    }
  }

  lemma CubicCong(c: Curve, x: int, y: int)
    requires c.p > 0 && Cong(c.p, x, y)
    ensures Cong(c.p, c.Cubic(x), c.Cubic(y))
  {
    var p := c.p;
    CongMul(p, x, y, x, y);
    CongMul(p, x * x, y * y, x, y);
    MultipleDivides(p, 0);
    CongMul(p, c.a, c.a, x, y);
    CongAdd(p, x * x * x, y * y * y, c.a * x, c.a * y);
    CongAdd(p, x * x * x + c.a * x, y * y * y + c.a * y, c.b, c.b);
  }

  /** The cubic at w*x is w^3 times the cubic at x whenever a*x*(w*w + w) == -b*(w*w + w + 1). This one
      identity carries both the Elligator map and simplified SWU. */
  lemma CubicScales(c: Curve, w: int, x: int)
    requires c.p > 0 && Divides(c.p, c.a * x * (w * w + w) + c.b * (w * w + w + 1))
    ensures Cong(c.p, c.Cubic(w * x), w * w * w * c.Cubic(x))
  {
    var h := c.a * x * (w * w + w) + c.b * (w * w + w + 1);
    CubicScalesAlgebra(c.a, c.b, w, x);
    Lin1(c.p, c.Cubic(w * x) - w * w * w * c.Cubic(x), 1 - w, h);
  }

  lemma CubicScalesAlgebra(a: int, b: int, w: int, x: int)
    ensures ((w * x) * (w * x) * (w * x) + a * (w * x) + b) - w * w * w * (x * x * x + a * x + b)
            == (1 - w) * (a * x * (w * w + w) + b * (w * w + w + 1))
  {
    var t, q, s := w * w * w, w * w + w, x * x * x;
    CubeOfProduct(w, x);
    assert a * (w * x) == w * (a * x);
    assert (1 - w) * q == w - t && (1 - w) * (q + 1) == 1 - t;
    ScaleCombine(a * x, b, w, t, q, s);
  }

  lemma ScaleCombine(ax: int, b: int, w: int, t: int, q: int, s: int)
    requires (1 - w) * q == w - t && (1 - w) * (q + 1) == 1 - t
    ensures (t * s + w * ax + b) - t * (s + ax + b) == (1 - w) * (ax * q + b * (q + 1))
  {
    calc {
      (1 - w) * (ax * q + b * (q + 1));
      ax * ((1 - w) * q) + b * ((1 - w) * (q + 1));
      ax * (w - t) + b * (1 - t);
    }
  }

  lemma CubeOfProduct(w: int, x: int)
    ensures (w * x) * (w * x) * (w * x) == (w * w * w) * (x * x * x)
  {
    MulExchange(w, x, w, x);
    MulExchange(w * w, x * x, w, x);
  }

  /** x == -(b/a)*(1 + 1/d) solves a*x*d == -b*(d + 1). */
  lemma AbscissaEquation(p: int, a: int, b: int, d: int, ia: int, iv: int, x: int)
    requires p > 0 && Cong(p, a * ia, 1) && Cong(p, d * iv, 1) && Cong(p, x, -(b * ia) * (1 + iv))
    ensures Divides(p, a * x * d + b * (d + 1))
  {
    var t := -(b * ia) * (1 + iv);
    AbscissaIdentity(a, b, d, ia, iv, x);
    Lin3(p, a * x * d + b * (d + 1), a * d, x - t, -b * (d + d * iv), a * ia - 1, -b, d * iv - 1);
  }

  lemma AbscissaIdentity(a: int, b: int, d: int, ia: int, iv: int, x: int)
    ensures a * x * d + b * (d + 1)
            == (a * d) * (x - -(b * ia) * (1 + iv)) + (-b * (d + d * iv)) * (a * ia - 1) + -b * (d * iv - 1)
  {
  }

  /** Point addition is delegated to libraries; it enters through the abelian-group laws. */
  datatype Group = Group(add: (Point, Point) -> Point, neg: Point -> Point)

  ghost predicate Commutes(g: Group, s: Point, t: Point) {
    g.add(s, t) == g.add(t, s)
  }

  ghost predicate Associates(g: Group, r: Point, s: Point, t: Point) {
    g.add(g.add(r, s), t) == g.add(r, g.add(s, t))
  }

  ghost predicate IsGroup(c: Curve, g: Group)
    requires c.p > 0
  {
    && (forall s, t {:trigger g.add(s, t)} :: c.OnCurve(s) && c.OnCurve(t) ==> c.OnCurve(g.add(s, t)))
    && (forall s {:trigger g.neg(s)} :: c.OnCurve(s) ==> c.OnCurve(g.neg(s)) && g.add(s, g.neg(s)) == Infinity)
    && (forall s {:trigger g.add(s, Infinity)} :: c.OnCurve(s) ==> g.add(s, Infinity) == s)
    && (forall s, t :: c.OnCurve(s) && c.OnCurve(t) ==> Commutes(g, s, t))
    && (forall r, s, t :: c.OnCurve(r) && c.OnCurve(s) && c.OnCurve(t) ==> Associates(g, r, s, t))
  }

  /** s + (t - s) == t. */
  lemma AddDifference(c: Curve, g: Group, s: Point, t: Point)
    requires c.p > 0 && IsGroup(c, g) && c.OnCurve(s) && c.OnCurve(t)
    ensures g.add(s, g.add(t, g.neg(s))) == t
  {
    calc {
      g.add(s, g.add(t, g.neg(s)));
      { assert Commutes(g, s, g.add(t, g.neg(s))); }
      g.add(g.add(t, g.neg(s)), s);
      { assert Associates(g, t, g.neg(s), s); }
      g.add(t, g.add(g.neg(s), s));
      { assert Commutes(g, s, g.neg(s)); }
      t;
    }
  }

  /** (s + t) - s == t. */
  lemma SubtractSum(c: Curve, g: Group, s: Point, t: Point)
    requires c.p > 0 && IsGroup(c, g) && c.OnCurve(s) && c.OnCurve(t)
    ensures g.add(g.add(s, t), g.neg(s)) == t
  {
    calc {
      g.add(g.add(s, t), g.neg(s));
      { assert Commutes(g, s, t); }
      g.add(g.add(t, s), g.neg(s));
      { assert Associates(g, t, s, g.neg(s)); }
      t;
    }
  }
}
