/** The whole C path: es_encode, precompute, weave, evaluate and es_decode of c-prototype/src over n nodes. */
module WovenC {
  import opened ModArith
  import opened Primes
  import opened Polynomials
  import opened Residues
  import opened Curves
  import opened Elligator
  import opened Encode
  import opened EncodeC
  import opened Exceptional
  import opened Weaver
  import opened Wrappers

  /** What was encoded for every point, and what comes out at its node. */
  datatype Transfer = Transfer(us: seq<int>, vs: seq<int>, cu: seq<int>, cv: seq<int>, back: seq<Option<Point>>)

  ghost predicate GoodDraws(c: Curve, draws: seq<(int, int)>) {
    |draws| == TRIES && forall i :: 0 <= i < |draws| ==> 0 < draws[i].0 < c.p
  }

  ghost predicate AllGood(c: Curve, points: seq<Point>, draws: seq<seq<(int, int)>>)
    requires c.Valid()
  {
    && |draws| == |points|
    && forall k :: 0 <= k < |points| ==> c.OnCurve(points[k]) && GoodDraws(c, draws[k])
  }

  /** No draw yields a value for the point. */
  ghost predicate Unencodable(c: Curve, g: Group, point: Point, draws: seq<(int, int)>)
    requires c.Valid() && GoodDraws(c, draws)
  {
    forall i :: 0 <= i < |draws| ==> TryC(c, g, point, draws[i]) == None
  }

  /** (u, v) is what the first successful draw yields for the point. */
  ghost predicate EncodedAs(c: Curve, g: Group, point: Point, draws: seq<(int, int)>, u: int, v: int)
    requires c.Valid() && GoodDraws(c, draws)
  {
    exists i :: FirstTry(c, g, point, draws, i, (u, v))
  }

  /** point - f(u) has omega == 0. */
  ghost predicate Degenerate(c: Curve, g: Group, point: Point, u: int)
    requires c.Valid()
  {
    && 0 <= u < c.p && Difference(c, g, point, u).Affine?
    && Divides(c.p, Omega(c, Difference(c, g, point, u).x))
  }

  /** What is known of every encoded pair. */
  ghost predicate PairFor(c: Curve, g: Group, point: Point, draws: seq<(int, int)>, u: int, v: int)
    requires c.Valid() && GoodDraws(c, draws)
  {
    && 0 < u < c.p && 0 <= v && EncodedAs(c, g, point, draws, u, v)
    && (Decoded(c, g, u, v % c.p) == Some(point) <==> !Degenerate(c, g, point, u))
  }

  method EncodePoint(c: Curve, g: Group, point: Point, draws: seq<(int, int)>) returns (r: Option<(int, int)>)
    requires EncodingCurve(c) && IsGroup(c, g) && c.OnCurve(point) && GoodDraws(c, draws)
    ensures r.None? <==> Unencodable(c, g, point, draws)
    ensures r.Some? ==> PairFor(c, g, point, draws, r.value.0, r.value.1)
  {
    hide TryC, Difference, Omega, IsGroup, MapsBack, Decoded, c.OnCurve;
    r := EsEncode(c, g, point, draws);
    if r.Some? {
      var (u, v) := r.value;
      assert exists i :: FirstTry(c, g, point, draws, i, (u, v)) && DecodesAs(c, g, point, u, draws[i].1, v);
    }
  }

  method EncodePoints(c: Curve, g: Group, points: seq<Point>, draws: seq<seq<(int, int)>>)
    returns (r: Option<(seq<int>, seq<int>)>)
    requires EncodingCurve(c) && IsGroup(c, g) && AllGood(c, points, draws)
    ensures r.None? <==> exists k :: 0 <= k < |points| && Unencodable(c, g, points[k], draws[k])
    ensures r.Some? ==>
              && |r.value.0| == |r.value.1| == |points|
              && forall k :: 0 <= k < |points| ==> PairFor(c, g, points[k], draws[k], r.value.0[k], r.value.1[k])
  {
    hide EncodingCurve, IsGroup, GoodDraws, Unencodable, PairFor, c.OnCurve;
    CurveFacts(c);
    var us, vs := [], [];
    for i := 0 to |points|
      invariant |us| == |vs| == i
      invariant forall k :: 0 <= k < i ==> PairFor(c, g, points[k], draws[k], us[k], vs[k])
      invariant forall k :: 0 <= k < i ==> !Unencodable(c, g, points[k], draws[k])
    {
      var pair := EncodePoint(c, g, points[i], draws[i]);
      if pair.None? {
        return None;
      }
      us, vs := us + [pair.value.0], vs + [pair.value.1];
    }
    r := Some((us, vs));
  }

  /** Evaluating woven values at a node gives that node's value, reduced, or 0 if the node clashes. */
  method ValueAtNode(p: int, xs: seq<int>, ys: seq<int>, m: Matrix, c: seq<int>, k: nat) returns (y: int)
    requires p > 0 && |xs| == |ys| && k < |xs| && Diagonal(p, xs, m, Alone(p, xs))
    requires Woven(p, m, ys, c) && Reduced(p, c)
    ensures 0 <= y < p && y == Eval(c, xs[k]) % p
    ensures y == if Clashes(p, xs, k) then 0 else ys[k] % p
  {
    hide Eval, Dot, Clashes;
    y := EvaluateStepwise(c, xs[k], p);
    ClashingValue(p, xs, ys, m, c, k);
    MultipleDivides(p, 0);
    CongIffSameResidue(p, Eval(c, xs[k]), if Clashes(p, xs, k) then 0 else ys[k]);
  }

  /** What comes back at node k: infinity if the node clashes; otherwise the point, exactly if its difference to f(u)
      does not have omega == 0. In any case it is decoded from the values of the coefficients at the node. */
  ghost predicate ComesBack(c: Curve, g: Group, xs: seq<int>, points: seq<Point>, t: Transfer, k: nat)
    requires c.Valid() && |xs| == |points| == |t.us| == |t.back| && k < |xs|
  {
    && t.back[k] == Decoded(c, g, Eval(t.cu, xs[k]) % c.p, Eval(t.cv, xs[k]) % c.p)
    && if Clashes(c.p, xs, k) then t.back[k] == Some(Infinity)
       else t.back[k] == Some(points[k]) <==> !Degenerate(c, g, points[k], t.us[k])
  }

  lemma InfinityTwice(c: Curve, g: Group)
    requires EncodingCurve(c) && IsGroup(c, g)
    ensures Decoded(c, g, 0, 0) == Some(Infinity)
  {
    InfinityOnCurve(c);
    assert g.add(Infinity, Infinity) == Infinity;
  }

  /** c-prototype/tst/combined_tst.cpp: every point is encoded, the encodings are woven over the nodes, evaluated at
      every node and decoded. */
  method TransferAll(c: Curve, g: Group, xs: seq<int>, points: seq<Point>, draws: seq<seq<(int, int)>>)
    returns (r: Option<Transfer>)
    requires EncodingCurve(c) && IsGroup(c, g) && AllGood(c, points, draws)
    requires |xs| == |points| && |xs| >= 2
    ensures r.None? <==> exists k :: 0 <= k < |points| && Unencodable(c, g, points[k], draws[k])
    ensures r.Some? ==>
              var t := r.value;
              && |t.us| == |t.vs| == |t.cu| == |t.cv| == |t.back| == |points|
              && Reduced(c.p, t.cu) && Reduced(c.p, t.cv)
              && (forall k :: 0 <= k < |points| ==> PairFor(c, g, points[k], draws[k], t.us[k], t.vs[k]))
              && (forall k :: 0 <= k < |points| ==> ComesBack(c, g, xs, points, t, k))
  {
    hide IsGroup, GoodDraws, Unencodable, Degenerate, EncodedAs, Decoded, Woven, Clashes, Eval, Diagonal, Interpolates;
    hide EncodingCurve, DistinctMod;
    CurveFacts(c);
    InfinityTwice(c, g);
    var p := c.p;
    var encoded := EncodePoints(c, g, points, draws);
    if encoded.None? {
      return None;
    }
    var (us, vs) := encoded.value;
    var matrix := PrecomputeUnchecked(xs, p);
    var cu := WeaveStepwise(us, matrix, p);
    var cv := WeaveStepwise(vs, matrix, p);
    WovenLength(p, matrix, us, cu);
    WovenLength(p, matrix, vs, cv);
    var back := [];
    for i := 0 to |points|
      invariant |back| == i
      invariant forall k :: 0 <= k < i ==>
                  && back[k] == Decoded(c, g, Eval(cu, xs[k]) % p, Eval(cv, xs[k]) % p)
                  && if Clashes(p, xs, k) then back[k] == Some(Infinity)
                     else back[k] == Some(points[k]) <==> !Degenerate(c, g, points[k], us[k])
    {
      var u := ValueAtNode(p, xs, us, matrix, cu, i);
      var v := ValueAtNode(p, xs, vs, matrix, cv, i);
      assert PairFor(c, g, points[i], draws[i], us[i], vs[i]);
      SmallRemainder(p, us[i]);
      var q := EsDecode(c, g, u, v);
      back := back + [q];
    }
    r := Some(Transfer(us, vs, cu, cv, back));
  }

  /** With nodes distinct modulo p all points come back exactly if no difference has omega == 0; and always, whatever
      the points and draws, on a curve where -a*b is not a residue. */
  lemma AllComeBackIff(c: Curve, g: Group, xs: seq<int>, points: seq<Point>, draws: seq<seq<(int, int)>>, t: Transfer)
    requires EncodingCurve(c) && IsGroup(c, g) && AllGood(c, points, draws) && DistinctMod(c.p, xs)
    requires |xs| == |points| == |t.us| == |t.vs| == |t.back|
    requires forall k :: 0 <= k < |points| ==> PairFor(c, g, points[k], draws[k], t.us[k], t.vs[k])
    requires forall k :: 0 <= k < |points| ==> ComesBack(c, g, xs, points, t, k)
    ensures (forall k :: 0 <= k < |points| ==> t.back[k] == Some(points[k])) <==>
            (forall k :: 0 <= k < |points| ==> !Degenerate(c, g, points[k], t.us[k]))
    ensures Legendre(-(c.a * c.b), c.p) != 1 ==> forall k :: 0 <= k < |points| ==> t.back[k] == Some(points[k])
  {
    hide IsGroup, GoodDraws, Degenerate, EncodedAs, Decoded, Clashes, Eval, EncodingCurve, DistinctMod, Legendre;
    CurveFacts(c);
    DistinctAlone(c.p, xs);
    forall k | 0 <= k < |points|
      ensures t.back[k] == Some(points[k]) <==> !Degenerate(c, g, points[k], t.us[k])
      ensures Legendre(-(c.a * c.b), c.p) != 1 ==> !Degenerate(c, g, points[k], t.us[k])
    {
      assert ComesBack(c, g, xs, points, t, k);
      assert PairFor(c, g, points[k], draws[k], t.us[k], t.vs[k]);
      if Legendre(-(c.a * c.b), c.p) != 1 { NeverDegenerate(c, g, points[k], t.us[k]); }
    }
  }

  lemma CurveFacts(c: Curve)
    requires EncodingCurve(c)
    ensures c.Valid() && IsPrime(c.p)
  {
  }

  lemma SmallRemainder(p: int, u: int)
    requires 0 <= u < p
    ensures u % p == u
  {
    MultipleDivides(p, 0);
    ReducedIsResidue(p, u, u);
  }

  lemma NeverDegenerate(c: Curve, g: Group, point: Point, u: int)
    requires EncodingCurve(c) && IsGroup(c, g) && c.OnCurve(point) && 0 <= u < c.p && Legendre(-(c.a * c.b), c.p) != 1
    ensures !Degenerate(c, g, point, u)
  {
    hide IsGroup, EncodingCurve, Legendre, Omega, c.OnCurve;
    CurveFacts(c);
    DifferenceFacts(c, g, point, u);
    ZeroPointIff(c);
    assert !AtOmega(c, Difference(c, g, point, u), 0);
  }
}
