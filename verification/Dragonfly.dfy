/** The Dragonfly commit exchange: scripts/decoyauth.py get_commit_info and calc_k_kck_pmk. */
module Dragonfly {
  import opened ModArith
  import opened Curves

  /** k*s, by repeated addition. */
  function Times(g: Group, k: nat, s: Point): Point {
    if k == 0 then Infinity else g.add(Times(g, k - 1, s), s)
  }

  /** order*s is infinity for every point, as on a curve whose number of points is order. */
  ghost predicate HasOrder(c: Curve, g: Group, order: int)
    requires c.p > 0
  {
    order > 0 && forall s {:trigger Times(g, order, s)} :: c.OnCurve(s) ==> Times(g, order, s) == Infinity
  }

  lemma {:induction false} TimesOnCurve(c: Curve, g: Group, k: nat, s: Point)
    requires c.p > 0 && IsGroup(c, g) && c.OnCurve(s)
    ensures c.OnCurve(Times(g, k, s))
  {
    if k > 0 { TimesOnCurve(c, g, k - 1, s); }
  }

  lemma InfinityIsNeutral(c: Curve, g: Group, s: Point)
    requires c.p > 0 && IsGroup(c, g) && c.OnCurve(s)
    ensures g.add(Infinity, s) == s == g.add(s, Infinity)
  {
    assert c.OnCurve(Infinity);
    assert Commutes(g, Infinity, s);
  }

  lemma Regroup(c: Curve, g: Group, r: Point, s: Point, t: Point)
    requires c.p > 0 && IsGroup(c, g) && c.OnCurve(r) && c.OnCurve(s) && c.OnCurve(t)
    ensures g.add(g.add(r, s), t) == g.add(r, g.add(s, t))
  {
    assert Associates(g, r, s, t);
  }

  lemma {:induction false} TimesSum(c: Curve, g: Group, j: nat, k: nat, s: Point)
    requires c.p > 0 && IsGroup(c, g) && c.OnCurve(s)
    ensures Times(g, j + k, s) == g.add(Times(g, j, s), Times(g, k, s))
    decreases k
  {
    hide IsGroup;
    TimesOnCurve(c, g, j, s);
    if k == 0 {
      InfinityIsNeutral(c, g, Times(g, j, s));
    } else {
      TimesSum(c, g, j, k - 1, s);
      TimesOnCurve(c, g, k - 1, s);
      Regroup(c, g, Times(g, j, s), Times(g, k - 1, s), s);
    }
  }

  lemma {:induction false} TimesProduct(c: Curve, g: Group, j: nat, k: nat, s: Point)
    requires c.p > 0 && IsGroup(c, g) && c.OnCurve(s)
    ensures Times(g, j * k, s) == Times(g, k, Times(g, j, s))
    decreases k
  {
    hide IsGroup;
    if k > 0 {
      TimesProduct(c, g, j, k - 1, s);
      var i := j * (k - 1);
      assert j * k == i + j;
      TimesSum(c, g, i, j, s);
    }
  }

  lemma TimesTwice(c: Curve, g: Group, j: nat, k: nat, s: Point)
    requires c.p > 0 && IsGroup(c, g) && c.OnCurve(s)
    ensures Times(g, j, Times(g, k, s)) == Times(g, j * k, s) == Times(g, k, Times(g, j, s))
  {
    hide Times, IsGroup;
    TimesProduct(c, g, j, k, s);
    TimesProduct(c, g, k, j, s);
    assert j * k == k * j;
  }

  lemma {:induction false} TimesInfinity(c: Curve, g: Group, k: nat)
    requires c.p > 0 && IsGroup(c, g)
    ensures Times(g, k, Infinity) == Infinity
  {
    if k > 0 {
      TimesInfinity(c, g, k - 1);
      InfinityIsNeutral(c, g, Infinity);
    }
  }

  /** Scalars may be reduced modulo the order. */
  lemma TimesReduced(c: Curve, g: Group, order: int, k: nat, s: Point)
    requires c.p > 0 && IsGroup(c, g) && HasOrder(c, g, order) && c.OnCurve(s)
    ensures Times(g, k % order, s) == Times(g, k, s)
  {
    hide IsGroup, Times;
    var q, r := k / order, k % order;
    assert Times(g, order, s) == Infinity;
    assert k == order * q + r;
    assert q >= 0;
    TimesSum(c, g, order * q, r, s);
    TimesProduct(c, g, order, q, s);
    TimesInfinity(c, g, q);
    TimesOnCurve(c, g, r, s);
    InfinityIsNeutral(c, g, Times(g, r, s));
  }

  /** (t + s) + (u - s) == t + u. */
  lemma CancelPair(c: Curve, g: Group, t: Point, s: Point, u: Point)
    requires c.p > 0 && IsGroup(c, g) && c.OnCurve(t) && c.OnCurve(s) && c.OnCurve(u)
    ensures g.add(g.add(t, s), g.add(u, g.neg(s))) == g.add(t, u)
  {
    AddDifference(c, g, s, u);
    assert Associates(g, t, s, g.add(u, g.neg(s)));
  }

  /** k*s + k*(-s) is infinity. */
  lemma {:induction false} TimesNegated(c: Curve, g: Group, k: nat, s: Point)
    requires c.p > 0 && IsGroup(c, g) && c.OnCurve(s)
    ensures g.add(Times(g, k, s), Times(g, k, g.neg(s))) == Infinity
  {
    hide IsGroup;
    if k == 0 {
      InfinityIsNeutral(c, g, Infinity);
    } else {
      NegOnCurve(c, g, s);
      TimesNegated(c, g, k - 1, s);
      TimesOnCurve(c, g, k - 1, s);
      TimesOnCurve(c, g, k - 1, g.neg(s));
      CancelPair(c, g, Times(g, k - 1, s), s, Times(g, k - 1, g.neg(s)));
    }
  }

  lemma NegOnCurve(c: Curve, g: Group, s: Point)
    requires c.p > 0 && IsGroup(c, g) && c.OnCurve(s)
    ensures c.OnCurve(g.neg(s))
  {
  }

  lemma Strip(c: Curve, g: Group, r: Point, m: Point, e: Point)
    requires c.p > 0 && IsGroup(c, g) && c.OnCurve(r) && c.OnCurve(m) && c.OnCurve(e)
    requires g.add(m, e) == Infinity
    ensures g.add(g.add(r, m), e) == r
  {
    assert Associates(g, r, m, e);
  }

  /** A commit message together with the secrets behind it. */
  datatype Commit = Commit(rand: nat, mask: nat, scalar: nat, element: Point)

  /** scripts/decoyauth.py get_commit_info. */
  function CommitInfo(g: Group, order: int, pwe: Point, rand: nat, mask: nat): Commit
    requires order > 0
  {
    Commit(rand, mask, (rand + mask) % order, Times(g, mask, g.neg(pwe)))
  }

  /** The point whose abscissa is the shared secret (scripts/decoyauth.py calc_k_kck_pmk). */
  function SharedPoint(g: Group, pwe: Point, peerElement: Point, peerScalar: nat, rand: nat): Point {
    Times(g, rand, g.add(Times(g, peerScalar, pwe), peerElement))
  }

  /** What a commit message is: its scalar acts on every point as the sum of both secrets, and its element is the
      negative of the mask times the password element. */
  lemma CommitMeaning(c: Curve, g: Group, order: int, pwe: Point, rand: nat, mask: nat, q: Point)
    requires c.p > 0 && IsGroup(c, g) && HasOrder(c, g, order) && c.OnCurve(pwe) && c.OnCurve(q)
    ensures var m := CommitInfo(g, order, pwe, rand, mask);
            && m.rand == rand && m.mask == mask
            && m.scalar < order && (m.scalar - rand - mask) % order == 0
            && Times(g, m.scalar, q) == g.add(Times(g, rand, q), Times(g, mask, q))
            && c.OnCurve(m.element) && g.add(Times(g, mask, pwe), m.element) == Infinity
  {
    hide Times, IsGroup;
    TimesReduced(c, g, order, rand + mask, q);
    TimesSum(c, g, rand, mask, q);
    NegOnCurve(c, g, pwe);
    TimesOnCurve(c, g, mask, g.neg(pwe));
    TimesNegated(c, g, mask, pwe);
    RemainderStep(rand + mask, order);
  }

  lemma RemainderStep(n: nat, order: int)
    requires order > 0
    ensures (n % order - n) % order == 0
  {
    assert n % order - n == -(n / order) * order;
    MultipleVanishes(-(n / order), order);
  }

  lemma MultipleVanishes(k: int, order: int)
    requires order > 0
    ensures (k * order) % order == 0
  {
    MultipleDivides(order, k);
  }

  /** The peer's commit strips to rand*pwe: the mask cancels, although the scalar is reduced. */
  lemma MaskCancels(c: Curve, g: Group, order: int, pwe: Point, rand: nat, mask: nat)
    requires c.p > 0 && IsGroup(c, g) && HasOrder(c, g, order) && c.OnCurve(pwe)
    ensures var m := CommitInfo(g, order, pwe, rand, mask);
            g.add(Times(g, m.scalar, pwe), m.element) == Times(g, rand, pwe)
  {
    hide Times, IsGroup;
    TimesReduced(c, g, order, rand + mask, pwe);
    TimesSum(c, g, rand, mask, pwe);
    TimesOnCurve(c, g, rand, pwe);
    TimesOnCurve(c, g, mask, pwe);
    NegOnCurve(c, g, pwe);
    TimesOnCurve(c, g, mask, g.neg(pwe));
    TimesNegated(c, g, mask, pwe);
    Strip(c, g, Times(g, rand, pwe), Times(g, mask, pwe), Times(g, mask, g.neg(pwe)));
  }

  /** What either side reaches: its own secret times the peer's secret times the element. */
  lemma SharedPointValue(c: Curve, g: Group, order: int, pwe: Point, mine: nat, rand: nat, mask: nat)
    requires c.p > 0 && IsGroup(c, g) && HasOrder(c, g, order) && c.OnCurve(pwe)
    ensures var peer := CommitInfo(g, order, pwe, rand, mask);
            SharedPoint(g, pwe, peer.element, peer.scalar, mine) == Times(g, mine, Times(g, rand, pwe))
  {
    hide Times, IsGroup;
    MaskCancels(c, g, order, pwe, rand, mask);
  }

  /** Both sides reach the same point, for all secrets. */
  lemma Agreement(c: Curve, g: Group, order: int, pwe: Point, rA: nat, mA: nat, rB: nat, mB: nat)
    requires c.p > 0 && IsGroup(c, g) && HasOrder(c, g, order) && c.OnCurve(pwe)
    ensures var a, b := CommitInfo(g, order, pwe, rA, mA), CommitInfo(g, order, pwe, rB, mB);
            SharedPoint(g, pwe, b.element, b.scalar, rA) == SharedPoint(g, pwe, a.element, a.scalar, rB)
  {
    hide Times, IsGroup, SharedPoint;
    SharedPointValue(c, g, order, pwe, rA, rB, mB);
    SharedPointValue(c, g, order, pwe, rB, rA, mA);
    TimesTwice(c, g, rA, rB, pwe);
  }
}
