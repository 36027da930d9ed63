/** Polynomials over the integers, read modulo a prime: Horner values, division by X - r,
    products of linear factors, and the bound on the number of roots. */
module Polynomials {
  import opened ModArith
  import opened Primes

  /** Value of a polynomial whose coefficients are listed from the constant term up. */
  function Eval(c: seq<int>, x: int): int {
    if c == [] then 0 else c[0] + x * Eval(c[1..], x)
  }

  /** Value of a polynomial whose coefficients are listed from the leading term down. */
  function Hi(s: seq<int>, x: int): int {
    if s == [] then 0 else Hi(s[..|s| - 1], x) * x + s[|s| - 1]
  }

  function Reversed(s: seq<int>): (r: seq<int>)
    ensures |r| == |s| && forall j :: 0 <= j < |s| ==> r[j] == s[|s| - 1 - j]
  {
    seq(|s|, j requires 0 <= j < |s| => s[|s| - 1 - j])
  }

  lemma {:induction false} EvalIsHi(c: seq<int>, x: int)
    ensures Eval(c, x) == Hi(Reversed(c), x)
  {
    if c != [] {
      EvalIsHi(c[1..], x);
      var r := Reversed(c);
      assert r[..|r| - 1] == Reversed(c[1..]);
    }
  }

  ghost predicate SeqCong(p: int, s: seq<int>, t: seq<int>)
    requires p > 0
  {
    |s| == |t| && forall i :: 0 <= i < |s| ==> Cong(p, s[i], t[i])
  }

  lemma {:induction false} HiCong(p: int, s: seq<int>, t: seq<int>, x: int, y: int)
    requires p > 0 && SeqCong(p, s, t) && Cong(p, x, y)
    ensures Cong(p, Hi(s, x), Hi(t, y))
  {
    if s == [] {
      MultipleDivides(p, 0);
    } else {
      var n := |s| - 1;
      HiCong(p, s[..n], t[..n], x, y);
      CongMul(p, Hi(s[..n], x), Hi(t[..n], y), x, y);
      CongAdd(p, Hi(s[..n], x) * x, Hi(t[..n], y) * y, s[n], t[n]);
    }
  }

  lemma EvalCong(p: int, c: seq<int>, d: seq<int>, x: int, y: int)
    requires p > 0 && SeqCong(p, c, d) && Cong(p, x, y)
    ensures Cong(p, Eval(c, x), Eval(d, y))
  {
    EvalIsHi(c, x);
    EvalIsHi(d, y);
    HiCong(p, Reversed(c), Reversed(d), x, y);
  }

  // ------------------------------------------------------------------ division by X - r

  /** Synthetic division: the quotient's coefficients are the partial Horner values. */
  function Quotient(s: seq<int>, r: int): (q: seq<int>)
    requires |s| > 0
    ensures |q| == |s| - 1 && forall j :: 0 <= j < |q| ==> q[j] == Hi(s[..j + 1], r)
  {
    seq(|s| - 1, j requires 0 <= j < |s| - 1 => Hi(s[..j + 1], r))
  }

  lemma QuotientGrows(s: seq<int>, r: int)
    requires |s| > 1
    ensures Quotient(s, r) == Quotient(s[..|s| - 1], r) + [Hi(s[..|s| - 1], r)]
  {
    var s', q := s[..|s| - 1], Quotient(s, r);
    forall j | 0 <= j < |s| - 2
      ensures q[j] == Hi(s'[..j + 1], r)
    {
      assert s'[..j + 1] == s[..j + 1];
    }
  }

  /** s(x) == (x - r) * q(x) + s(r). */
  lemma {:induction false} DivisionIdentity(s: seq<int>, r: int, x: int)
    requires |s| > 0
    ensures Hi(s, x) - Hi(s, r) == (x - r) * Hi(Quotient(s, r), x)
  {
    if |s| > 1 {
      var s' := s[..|s| - 1];
      DivisionIdentity(s', r, x);
      QuotientGrows(s, r);
      assert Quotient(s, r)[..|s| - 2] == Quotient(s', r);
      DivisionAlgebra(Hi(s', x), Hi(s', r), Hi(Quotient(s', r), x), s[|s| - 1], r, x);
    }
  }

  lemma DivisionAlgebra(h: int, k: int, q: int, c: int, r: int, x: int)
    requires h - k == (x - r) * q
    ensures (h * x + c) - (k * r + c) == (x - r) * (q * x + k)
  {
    assert (x - r) * (q * x + k) == ((x - r) * q) * x + (x - r) * k;
  }

  // ------------------------------------------------------------------ multiplication by X - t

  function TimesLinear(s: seq<int>, t: int): (m: seq<int>)
    ensures |m| == |s| + 1
    ensures forall j :: 0 <= j <= |s| ==>
              m[j] == (if j < |s| then s[j] else 0) - t * (if j > 0 then s[j - 1] else 0)
  {
    seq(|s| + 1, j requires 0 <= j <= |s| =>
      (if j < |s| then s[j] else 0) - t * (if j > 0 then s[j - 1] else 0))
  }

  /** The formal derivative at r, which is also the quotient by X - r taken at r. */
  function Slope(s: seq<int>, r: int): int {
    if s == [] then 0 else Slope(s[..|s| - 1], r) * r + Hi(s[..|s| - 1], r)
  }

  lemma {:induction false} SlopeIsQuotient(s: seq<int>, r: int)
    requires |s| > 0
    ensures Slope(s, r) == Hi(Quotient(s, r), r)
  {
    if |s| > 1 {
      var s' := s[..|s| - 1];
      SlopeIsQuotient(s', r);
      QuotientGrows(s, r);
      assert Quotient(s, r)[..|s| - 2] == Quotient(s', r);
    } else {
      assert s[..0] == [];
    }
  }

  /** (X - t) * (X*s + c) adds one coefficient and changes the one before it. */
  lemma TimesLinearSnoc(s: seq<int>, t: int)
    requires |s| > 0
    ensures var n, m, m' := |s|, TimesLinear(s, t), TimesLinear(s[..|s| - 1], t);
            m[..n] == m'[..n - 1] + [m'[n - 1] + s[n - 1]]
  {
  }

  lemma TimesLinearStep(s: seq<int>, t: int, x: int)
    requires |s| > 0
    ensures var m, m', c := TimesLinear(s, t), TimesLinear(s[..|s| - 1], t), s[|s| - 1];
            && Hi(m, x) == (Hi(m', x) + c) * x + -t * c
            && Slope(m, x) == Slope(m', x) * x + (Hi(m', x) + c)
  {
    hide Hi, Slope, TimesLinear;
    var n, m, m', c := |s|, TimesLinear(s, t), TimesLinear(s[..|s| - 1], t), s[|s| - 1];
    TimesLinearSnoc(s, t);
    LastChanged(m[..n], m', c, x);
    LastSplit(m, x);
    assert m[n] == -t * c;
  }

  lemma LastSplit(m: seq<int>, x: int)
    requires |m| > 0
    ensures var n := |m| - 1;
            && Hi(m, x) == Hi(m[..n], x) * x + m[n]
            && Slope(m, x) == Slope(m[..n], x) * x + Hi(m[..n], x)
  {
  }

  lemma LastChanged(u: seq<int>, m: seq<int>, c: int, x: int)
    requires |m| > 0 && u == m[..|m| - 1] + [m[|m| - 1] + c]
    ensures Hi(u, x) == Hi(m, x) + c && Slope(u, x) == Slope(m, x)
  {
    assert u[..|u| - 1] == m[..|m| - 1];
  }

  lemma {:induction false} TimesLinearValue(s: seq<int>, t: int, x: int)
    ensures Hi(TimesLinear(s, t), x) == (x - t) * Hi(s, x)
    ensures Slope(TimesLinear(s, t), x) == (x - t) * Slope(s, x) + Hi(s, x)
    decreases |s|
  {
    if s == [] {
      assert TimesLinear(s, t)[..0] == [];
    } else {
      hide Hi, Slope, TimesLinear;
      var s' := s[..|s| - 1];
      LastSplit(s, x);
      TimesLinearStep(s, t, x);
      TimesLinearValue(s', t, x);
      TimesLinearAlgebra(Hi(s', x), Slope(s', x), s[|s| - 1], t, x);
    }
  }

  lemma TimesLinearAlgebra(h: int, d: int, c: int, t: int, x: int)
    ensures ((x - t) * h + c) * x + -t * c == (x - t) * (h * x + c)
    ensures ((x - t) * d + h) * x + ((x - t) * h + c) == (x - t) * (d * x + h) + (h * x + c)
  {
  }

  // ------------------------------------------------------------------ products of linear factors

  /** Coefficients of the product of X - xs[k], leading term first. */
  function FromRoots(xs: seq<int>): (s: seq<int>)
    ensures |s| == |xs| + 1 && s[0] == 1
  {
    if xs == [] then [1] else TimesLinear(FromRoots(xs[..|xs| - 1]), xs[|xs| - 1])
  }

  /** The product of x - xs[k] over all k other than skip. */
  function Differences(xs: seq<int>, x: int, skip: int): int {
    if xs == [] then 1
    else
      var k := |xs| - 1;
      Differences(xs[..k], x, skip) * (if k == skip then 1 else x - xs[k])
  }

  lemma FromRootsStep(xs: seq<int>, x: int)
    requires |xs| > 0
    ensures var k := |xs| - 1;
            && Hi(FromRoots(xs), x) == (x - xs[k]) * Hi(FromRoots(xs[..k]), x)
            && Slope(FromRoots(xs), x) == (x - xs[k]) * Slope(FromRoots(xs[..k]), x) + Hi(FromRoots(xs[..k]), x)
  {
    TimesLinearValue(FromRoots(xs[..|xs| - 1]), xs[|xs| - 1], x);
  }

  lemma {:induction false} FromRootsValue(xs: seq<int>, x: int)
    ensures Hi(FromRoots(xs), x) == Differences(xs, x, -1)
  {
    if xs == [] {
      assert [1][..0] == [];
    } else {
      var k := |xs| - 1;
      FromRootsStep(xs, x);
      FromRootsValue(xs[..k], x);
      calc {
        Hi(FromRoots(xs), x);
        (x - xs[k]) * Differences(xs[..k], x, -1);
        Differences(xs[..k], x, -1) * (x - xs[k]);
        Differences(xs, x, -1);
      }
    }
  }

  lemma {:induction false} DifferencesAtRoot(xs: seq<int>, i: nat)
    requires i < |xs|
    ensures Differences(xs, xs[i], -1) == 0
  {
    if i < |xs| - 1 {
      DifferencesAtRoot(xs[..|xs| - 1], i);
    }
  }

  lemma RootsAreRoots(xs: seq<int>, i: nat, x: int)
    requires i < |xs| && x == xs[i]
    ensures Hi(FromRoots(xs), x) == 0
  {
    FromRootsValue(xs, x);
    DifferencesAtRoot(xs, i);
  }

  lemma {:induction false} SkipBeyond(xs: seq<int>, x: int, skip: int)
    requires skip >= |xs|
    ensures Differences(xs, x, skip) == Differences(xs, x, -1)
  {
    if xs != [] { SkipBeyond(xs[..|xs| - 1], x, skip); }
  }

  lemma SlopeStep(xs: seq<int>, x: int)
    requires |xs| > 0 && Hi(FromRoots(xs[..|xs| - 1]), x) == 0
    ensures Slope(FromRoots(xs), x) == Slope(FromRoots(xs[..|xs| - 1]), x) * (x - xs[|xs| - 1])
  {
    hide *;
    FromRootsStep(xs, x);
  }

  lemma SlopeLast(xs: seq<int>)
    requires |xs| > 0
    ensures var k := |xs| - 1;
            Slope(FromRoots(xs), xs[k]) == Differences(xs[..k], xs[k], -1)
  {
    hide *;
    var k := |xs| - 1;
    FromRootsStep(xs, xs[k]);
    FromRootsValue(xs[..k], xs[k]);
  }

  /** At a root, the slope of the product is the product of the other differences. */
  lemma {:induction false} SlopeAtRoot(xs: seq<int>, i: nat, x: int)
    requires i < |xs| && x == xs[i]
    ensures Slope(FromRoots(xs), x) == Differences(xs, x, i)
    decreases |xs|
  {
    hide FromRoots, Slope, Hi;
    var k := |xs| - 1;
    if i < k {
      SlopeAtRoot(xs[..k], i, x);
      RootsAreRoots(xs[..k], i, x);
      SlopeStep(xs, x);
    } else {
      SlopeLast(xs);
      SkipBeyond(xs[..k], x, k);
    }
  }

  // ------------------------------------------------------------------ counting roots

  ghost predicate DistinctMod(p: int, xs: seq<int>)
    requires p > 0
  {
    forall i, j :: 0 <= i < j < |xs| ==> !Cong(p, xs[i], xs[j])
  }

  lemma DistinctBothWays(p: int, xs: seq<int>, i: nat, j: nat)
    requires p > 0 && DistinctMod(p, xs) && i < |xs| && j < |xs| && i != j
    ensures !Cong(p, xs[i], xs[j])
  {
    if Cong(p, xs[i], xs[j]) {
      CongSym(p, xs[i], xs[j]);
    }
  }

  /** n coefficients with n distinct roots modulo a prime all vanish. */
  lemma {:induction false} RootCount(p: int, s: seq<int>, xs: seq<int>)
    requires IsPrime(p) && |s| == |xs| && DistinctMod(p, xs)
    requires forall k :: 0 <= k < |xs| ==> Divides(p, Hi(s, xs[k]))
    ensures forall j :: 0 <= j < |s| ==> Divides(p, s[j])
    decreases |s|
  {
    if |s| > 0 {
      var n := |s| - 1;
      var r, q := xs[n], Quotient(s, xs[n]);
      forall k | 0 <= k < n
        ensures Divides(p, Hi(q, xs[k]))
      {
        QuotientRoot(p, s, r, xs[k]);
      }
      RootCount(p, q, xs[..n]);
      QuotientVanishes(p, s, r);
    }
  }

  lemma QuotientRoot(p: int, s: seq<int>, r: int, x: int)
    requires IsPrime(p) && |s| > 0 && Divides(p, Hi(s, r)) && Divides(p, Hi(s, x)) && !Cong(p, x, r)
    ensures Divides(p, Hi(Quotient(s, r), x))
  {
    DivisionIdentity(s, r, x);
    Lin2(p, Hi(s, x) - Hi(s, r), 1, Hi(s, x), -1, Hi(s, r));
    Euclid(p, x - r, Hi(Quotient(s, r), x));
  }

  lemma QuotientVanishes(p: int, s: seq<int>, r: int)
    requires p > 0 && |s| > 0 && Divides(p, Hi(s, r))
    requires forall j :: 0 <= j < |s| - 1 ==> Divides(p, Quotient(s, r)[j])
    ensures forall j :: 0 <= j < |s| ==> Divides(p, s[j])
  {
    assert s[..|s|] == s;
    forall j | 0 <= j < |s|
      ensures Divides(p, s[j])
    {
      var h, h' := Hi(s[..j], r), Hi(s[..j + 1], r);
      assert s[..j + 1][..j] == s[..j];
      assert h' == h * r + s[j];
      assert Divides(p, h') by { assert j < |s| - 1 ==> h' == Quotient(s, r)[j]; }
      assert Divides(p, h) by {
        if j == 0 { MultipleDivides(p, 0); } else { assert h == Quotient(s, r)[j - 1]; }
      }
      Lin2(p, s[j], 1, h', -r, h);
    }
  }

  /** Two coefficient lists of length n that agree at n distinct nodes are congruent. */
  lemma Uniqueness(p: int, c: seq<int>, d: seq<int>, xs: seq<int>)
    requires IsPrime(p) && |c| == |d| == |xs| && DistinctMod(p, xs)
    requires forall k :: 0 <= k < |xs| ==> Cong(p, Eval(c, xs[k]), Eval(d, xs[k]))
    ensures SeqCong(p, c, d)
  {
    hide Eval, Hi, Reversed;
    var e := Minus(c, d);
    forall k | 0 <= k < |xs|
      ensures Divides(p, Hi(Reversed(e), xs[k]))
    {
      EvalIsHi(e, xs[k]);
      EvalDifference(c, d, e, xs[k]);
    }
    RootCount(p, Reversed(e), xs);
    ReversedZero(p, e);
  }

  lemma ReversedZero(p: int, e: seq<int>)
    requires p > 0 && forall j :: 0 <= j < |e| ==> Divides(p, Reversed(e)[j])
    ensures forall i :: 0 <= i < |e| ==> Divides(p, e[i])
  {
    forall i | 0 <= i < |e|
      ensures Divides(p, e[i])
    {
      assert Reversed(e)[|e| - 1 - i] == e[i];
    }
  }

  ghost function Minus(c: seq<int>, d: seq<int>): (e: seq<int>)
    requires |c| == |d|
    ensures |e| == |c| && forall i :: 0 <= i < |c| ==> e[i] == c[i] - d[i]
  {
    seq(|c|, i requires 0 <= i < |c| => c[i] - d[i])
  }

  lemma {:induction false} EvalDifference(c: seq<int>, d: seq<int>, e: seq<int>, x: int)
    requires |c| == |d| == |e| && forall i :: 0 <= i < |c| ==> e[i] == c[i] - d[i]
    ensures Eval(e, x) == Eval(c, x) - Eval(d, x)
  {
    if c != [] {
      EvalDifference(c[1..], d[1..], e[1..], x);
    }
  }
}
