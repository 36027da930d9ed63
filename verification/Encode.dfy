/** Encoding a curve point as a pair of field elements: scripts/encode.py point_to_values and
    values_to_point. Addition is the group law g; random draws are inputs. */
module Encode {
  import opened ModArith
  import opened Primes
  import opened Residues
  import opened Curves
  import opened Elligator
  import opened Inversion
  import opened Wrappers

  const TRIES := 1000

  /** scripts/encode.py point_to_values_for_u_j. */
  function PointToValuesForUJ(c: Curve, g: Group, point: Point, u: int, j: int): Result<Option<int>, Error>
    requires c.Valid()
  {
    if u == c.p - 1 || u == 0 || u == 1 then Ok(None)
    else
      match F(c, u)
      case Err(e) => Err(e)
      case Ok(s) =>
        var q := g.add(point, g.neg(s));
        if q.Infinity? then Ok(None) else Ok(CalcV(c, q, j))
  }

  /** scripts/encode.py values_to_point. */
  function ValuesToPoint(c: Curve, g: Group, u: int, v: int): Result<Point, Error>
    requires IsPrime(c.p)
  {
    match F(c, u)
    case Err(e) => Err(e)
    case Ok(s) =>
      match F(c, v)
      case Err(e) => Err(e)
      case Ok(t) => Ok(g.add(s, t))
  }

  lemma RegularInRange(p: int, u: int)
    requires IsPrime(p) && 0 <= u < p
    ensures Regular(p, u) <==> u != 0 && u != 1 && u != p - 1
  {
    MultipleDivides(p, 0);
    MultipleDivides(p, 1);
    if Divides(p, u) { SmallMultiple(p, u); }
    if Divides(p, u - 1) { SmallMultiple(p, u - 1); }
    if Divides(p, u + 1) && u != p - 1 { SmallMultiple(p, u + 1); }
  }

  /** Encoding a point with drawn u and j never raises, and v is returned exactly when f(u) + f(v) is the
      point and j is the index of v among the preimages of the difference. */
  lemma EncodeMeaning(c: Curve, g: Group, point: Point, u: int, j: int, v: int)
    requires EncodingCurve(c) && IsGroup(c, g) && c.OnCurve(point) && 0 <= u < c.p
    ensures PointToValuesForUJ(c, g, point, u, j).Ok?
    ensures PointToValuesForUJ(c, g, point, u, j) == Ok(Some(v)) <==>
            && 0 < v < c.p && ValuesToPoint(c, g, u, v) == Ok(point)
            && IsIndex(c, F(c, v).value, v, j)
  {
    RegularInRange(c.p, u);
    FMeaning(c, u);
    FMeaning(c, v);
    hide F, CalcV, IsGroup, Discriminant, Turn, Legendre, Regular, X0, X1, Divides, c.OnCurve, c.Cubic;
    if F(c, u).Ok? {
      var s := F(c, u).value;
      var q := g.add(point, g.neg(s));
      DifferenceOnCurve(c, g, s, point);
      if q.Affine? { CalcVMeaning(c, q, j, v); }
      if F(c, v).Ok? { SumIff(c, g, s, F(c, v).value, point); }
    }
  }

  lemma DifferenceOnCurve(c: Curve, g: Group, s: Point, t: Point)
    requires c.p > 0 && IsGroup(c, g) && c.OnCurve(s) && c.OnCurve(t)
    ensures c.OnCurve(g.add(t, g.neg(s)))
  {
  }

  lemma SumIff(c: Curve, g: Group, s: Point, t: Point, point: Point)
    requires c.p > 0 && IsGroup(c, g) && c.OnCurve(s) && c.OnCurve(t) && c.OnCurve(point)
    ensures g.add(s, t) == point <==> g.add(point, g.neg(s)) == t
  {
    AddDifference(c, g, s, point);
    SubtractSum(c, g, s, t);
  }

  /** The discriminant of q is not 0, and j names the signs that lead to the preimage v. */
  ghost predicate IsIndex(c: Curve, q: Point, v: int, j: int)
    requires c.Valid()
  {
    && q.Affine? && !Divides(c.p, Discriminant(c, q))
    && (Legendre(Turn(c, q, v), c.p) == 1 <==> j == 0 || j == 1)
    && (Legendre(v, c.p) == 1 <==> j == 0 || j == 2)
  }

  /** Conversely, every decomposition of the point into f(u) + f(v) with a nonzero discriminant is the
      encoding for exactly one j in 0..3. */
  lemma EncodeComplete(c: Curve, g: Group, point: Point, u: int, v: int)
    requires EncodingCurve(c) && IsGroup(c, g) && c.OnCurve(point) && 0 <= u < c.p && 0 <= v < c.p
    requires ValuesToPoint(c, g, u, v) == Ok(point)
    requires !Divides(c.p, Discriminant(c, F(c, v).value))
    ensures exists j :: 0 <= j < 4 && Encodes(c, g, point, (u, j), v)
    ensures forall j, k | 0 <= j < 4 && 0 <= k < 4 ::
              Encodes(c, g, point, (u, j), v) && Encodes(c, g, point, (u, k), v) ==> j == k
  {
    var s, t := F(c, u).value, F(c, v).value;
    RegularInRange(c.p, u);
    FMeaning(c, u);
    FMeaning(c, v);
    SubtractSum(c, g, s, t);
    Enumeration(c, t, v);
    var j :| Finds(c, t, v, j);
    assert Encodes(c, g, point, (u, j), v);
    forall k, l | 0 <= k < 4 && 0 <= l < 4 && Encodes(c, g, point, (u, k), v) && Encodes(c, g, point, (u, l), v)
      ensures k == l
    {
      assert Finds(c, t, v, k) && Finds(c, t, v, l);
    }
  }

  /** What one draw yields. */
  ghost predicate Encodes(c: Curve, g: Group, point: Point, draw: (int, int), v: int)
    requires c.Valid()
  {
    PointToValuesForUJ(c, g, point, draw.0, draw.1) == Ok(Some(v))
  }

  ghost predicate Rejects(c: Curve, g: Group, point: Point, draw: (int, int))
    requires c.Valid()
  {
    PointToValuesForUJ(c, g, point, draw.0, draw.1) == Ok(None)
  }

  /** scripts/encode.py point_to_values: the first draw that encodes, if one of the tries does. Whatever is
      returned decodes to the point. */
  method PointToValues(c: Curve, g: Group, point: Point, draws: seq<(int, int)>) returns (r: Option<(int, int)>)
    requires EncodingCurve(c) && IsGroup(c, g) && c.OnCurve(point)
    requires |draws| == TRIES && forall i :: 0 <= i < |draws| ==> 0 < draws[i].0 < c.p
    ensures r.None? <==> forall i :: 0 <= i < |draws| ==> Rejects(c, g, point, draws[i])
    ensures r.Some? ==>
              && 0 < r.value.0 < c.p && 0 < r.value.1 < c.p
              && ValuesToPoint(c, g, r.value.0, r.value.1) == Ok(point)
              && exists i :: && 0 <= i < |draws| && r.value.0 == draws[i].0
                             && Encodes(c, g, point, draws[i], r.value.1)
                             && forall k :: 0 <= k < i ==> Rejects(c, g, point, draws[k])
  {
    for i := 0 to TRIES
      invariant forall k :: 0 <= k < i ==> Rejects(c, g, point, draws[k])
    {
      var (u, j) := draws[i];
      var v := PointToValuesForUJ(c, g, point, u, j);
      EncodeMeaning(c, g, point, u, j, if v.Ok? && v.value.Some? then v.value.value else 0);
      if v.value.Some? {
        assert Encodes(c, g, point, draws[i], v.value.value);
        return Some((u, v.value.value));
      }
      assert Rejects(c, g, point, draws[i]);
    }
    r := None;
  }
}
