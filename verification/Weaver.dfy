/** Password-hiding interpolation: scripts/weaver.py (precompute, weaver, eval_weave). */
module Weaver {
  import opened ModArith
  import opened Primes
  import opened Polynomials
  import opened Residues
  import opened Wrappers

  type Matrix = seq<seq<int>>

  ghost predicate Square(m: Matrix, n: nat) {
    |m| == n && forall i :: 0 <= i < n ==> |m[i]| == n
  }

  /** Column j, which holds the coefficients of one interpolation polynomial, constant term first. */
  function Column(m: Matrix, j: nat): (c: seq<int>)
    requires forall i :: 0 <= i < |m| ==> j < |m[i]|
    ensures |c| == |m| && forall i :: 0 <= i < |m| ==> c[i] == m[i][j]
  {
    seq(|m|, i requires 0 <= i < |m| => m[i][j])
  }

  function Dot(x: seq<int>, y: seq<int>): int
    requires |x| == |y|
  {
    if x == [] then 0 else Dot(x[..|x| - 1], y[..|x| - 1]) + x[|x| - 1] * y[|x| - 1]
  }

  /** The powers 1, x, ..., x^(n-1): one row of the Vandermonde matrix. */
  function Powers(x: int, n: nat): (s: seq<int>)
    ensures |s| == n && forall i :: 0 <= i < n ==> s[i] == Pow(x, i)
  {
    seq(n, i requires 0 <= i < n => Pow(x, i))
  }

  function Delta(i: int, j: int): int { if i == j then 1 else 0 }

  /** Every column's polynomial is 1 at its own node and 0 at the others. */
  ghost predicate Interpolates(p: int, xs: seq<int>, m: Matrix)
    requires p > 0
  {
    && Square(m, |xs|)
    && forall j, k :: 0 <= j < |xs| && 0 <= k < |xs| ==> Cong(p, Eval(Column(m, j), xs[k]), Delta(j, k))
  }

  /** Node i agrees with another one. */
  ghost predicate Clashes(p: int, xs: seq<int>, i: nat)
    requires p > 0 && i < |xs|
  {
    exists k :: 0 <= k < |xs| && k != i && Cong(p, xs[i], xs[k])
  }

  /** Every column's polynomial is d at its own node and 0 at the others. */
  ghost predicate Diagonal(p: int, xs: seq<int>, m: Matrix, d: seq<int>)
    requires p > 0
  {
    && Square(m, |xs|) && |d| == |xs|
    && forall j, k :: 0 <= j < |xs| && 0 <= k < |xs| ==>
                      Cong(p, Eval(Column(m, j), xs[k]), if j == k then d[j] else 0)
  }

  /** 1 for the nodes that no other one agrees with, 0 for the others. */
  ghost function Alone(p: int, xs: seq<int>): (d: seq<int>)
    requires p > 0
    ensures |d| == |xs| && forall i :: 0 <= i < |xs| ==> d[i] == if Clashes(p, xs, i) then 0 else 1
  {
    seq(|xs|, i requires 0 <= i < |xs| => if Clashes(p, xs, i) then 0 else 1)
  }

  lemma DistinctAlone(p: int, xs: seq<int>)
    requires p > 0
    ensures DistinctMod(p, xs) <==> forall i :: 0 <= i < |xs| ==> !Clashes(p, xs, i)
  {
    forall i, k | 0 <= i < |xs| && 0 <= k < |xs| && Cong(p, xs[i], xs[k])
      ensures Cong(p, xs[k], xs[i])
    {
      CongSym(p, xs[i], xs[k]);
    }
    if !DistinctMod(p, xs) {
      var i, j :| 0 <= i < j < |xs| && Cong(p, xs[i], xs[j]);
      assert Clashes(p, xs, i);
    }
  }

  // ------------------------------------------------------------------ the master polynomial

  /** a, with its implicit leading 1, lists the coefficients of the product of X - xs[k]. */
  ghost predicate Master(p: int, xs: seq<int>, a: seq<int>)
    requires p > 0
  {
    SeqCong(p, [1] + a, FromRoots(xs))
  }

  lemma RootsOfTwo(x: int, y: int)
    ensures FromRoots([x, y]) == [1, -(x + y), x * y]
  {
    assert [x, y][..1] == [x] && [x][..0] == [];
    assert FromRoots([x]) == TimesLinear([1], x) == [1, -x];
    var t := TimesLinear([1, -x], y);
    assert t[2] == 0 - y * -x == x * y;
  }

  lemma MasterOfTwo(p: int, x: int, y: int, s: int, t: int)
    requires p > 0 && Cong(p, s, -(x + y)) && Cong(p, t, x * y)
    ensures Master(p, [x, y], [s, t])
  {
    hide FromRoots;
    RootsOfTwo(x, y);
    MultipleDivides(p, 0);
  }

  /** What the update for node x leaves at place m: the value before it, minus x times its left
      neighbour, where the left neighbour of place 0 is the leading 1. */
  ghost function Updated(a: seq<int>, x: int, m: int): int
    requires 0 <= m <= |a|
  {
    (if m < |a| then a[m] else 0) - x * (if m > 0 then a[m - 1] else 1)
  }

  lemma MasterStep(p: int, xs: seq<int>, x: int, a: seq<int>, a': seq<int>)
    requires p > 0 && Master(p, xs, a)
    requires |a'| == |a| + 1 && forall m :: 0 <= m <= |a| ==> Cong(p, a'[m], Updated(a, x, m))
    ensures Master(p, xs + [x], a')
  {
    assert (xs + [x])[..|xs|] == xs;
    var s, s', u := FromRoots(xs), FromRoots(xs + [x]), [1] + a;
    MultipleDivides(p, 0);
    forall i | 0 <= i < |s'|
      ensures Cong(p, ([1] + a')[i], s'[i])
    {
      if i == 0 {
        assert s'[0] == 1;
      } else {
        var v, w := if i < |s| then u[i] else 0, if i < |s| then s[i] else 0;
        assert Cong(p, v, w);
        CongMul(p, x, x, u[i - 1], s[i - 1]);
        CongAdd(p, v, w, x * u[i - 1], x * s[i - 1]);
        assert Updated(a, x, i - 1) == v - x * u[i - 1];
        CongTrans(p, a'[i - 1], v - x * u[i - 1], s'[i]);
      }
    }
  }

  /** scripts/weaver.py:11-14: one node is multiplied into the first i coefficients, in place and
      from the right, so that each place still reads its old left neighbour. */
  method AddNode(a: array<int>, x: int, i: int, p: int)
    requires p > 0 && 0 < i < a.Length
    modifies a
    ensures forall m :: 0 <= m <= i ==> Cong(p, a[m], Updated(old(a[..i]), x, m))
    ensures a[i + 1..] == old(a[i + 1..])
  {
    hide Updated, Cong;
    ghost var was := a[..i];
    LastUpdated(p, was, x);
    a[i] := (-x * a[i - 1]) % p;
    for m := i downto 1
      invariant a[..m] == was[..m] && a[i + 1..] == old(a[i + 1..])
      invariant forall k :: m <= k <= i ==> Cong(p, a[k], Updated(was, x, k))
    {
      assert a[m] == was[m] && a[m - 1] == was[m - 1];
      InnerUpdated(p, was, x, m);
      a[m] := (a[m] - x * a[m - 1]) % p;
    }
    assert a[0] == was[0];
    FirstUpdated(p, was, x);
    a[0] := (a[0] - x) % p;
  }

  lemma LastUpdated(p: int, a: seq<int>, x: int)
    requires p > 0 && |a| > 0
    ensures Cong(p, (-x * a[|a| - 1]) % p, Updated(a, x, |a|))
  {
    hide Cong;
    NegatedResidue(p, x, a[|a| - 1]);
  }

  lemma NegatedResidue(p: int, x: int, v: int)
    requires p > 0
    ensures Cong(p, (-x * v) % p, 0 - x * v)
  {
    hide Cong;
    var e := -x * v;
    assert e == 0 - x * v;
    ModCong(p, e);
  }

  lemma InnerUpdated(p: int, a: seq<int>, x: int, m: int)
    requires p > 0 && 0 < m < |a|
    ensures Cong(p, (a[m] - x * a[m - 1]) % p, Updated(a, x, m))
  {
    hide Cong;
    ModCong(p, a[m] - x * a[m - 1]);
  }

  lemma FirstUpdated(p: int, a: seq<int>, x: int)
    requires p > 0 && |a| > 0
    ensures Cong(p, (a[0] - x) % p, Updated(a, x, 0))
  {
    hide Cong;
    ModCong(p, a[0] - x);
  }

  /** The remaining nodes are multiplied in one by one. */
  method AddNodes(a: array<int>, xs: seq<int>, p: int)
    requires p > 0 && a.Length == |xs| >= 2 && Master(p, xs[..2], a[..2])
    modifies a
    ensures Master(p, xs, a[..])
  {
    var n := |xs|;
    for i := 2 to n
      invariant Master(p, xs[..i], a[..i])
    {
      ghost var was := a[..i];
      AddNode(a, xs[i], i, p);
      MasterStep(p, xs[..i], xs[i], was, a[..i + 1]);
      assert xs[..i] + [xs[i]] == xs[..i + 1];
    }
    assert xs[..n] == xs && a[..n] == a[..];
  }

  /** scripts/weaver.py:6-14, the expansion of the product of X - xs[k]. */
  method ExpandProduct(xs: seq<int>, p: int) returns (a: array<int>)
    requires p > 0 && |xs| >= 2
    ensures fresh(a) && a.Length == |xs| && Master(p, xs, a[..])
  {
    a := new int[|xs|](_ => 0);
    a[0] := -(xs[0] + xs[1]) % p;
    a[1] := (xs[0] * xs[1]) % p;
    ModCong(p, -(xs[0] + xs[1]));
    ModCong(p, xs[0] * xs[1]);
    assert a[..2] == [a[0], a[1]];
    assert xs[..2] == [xs[0], xs[1]];
    MasterOfTwo(p, xs[0], xs[1], a[0], a[1]);
    AddNodes(a, xs, p);
  }

  /** c-prototype/src/weaver.c:9-32, where the first coefficient is negated after its reduction. */
  method ExpandProductSigned(xs: seq<int>, p: int) returns (a: array<int>)
    requires p > 0 && |xs| >= 2
    ensures fresh(a) && a.Length == |xs| && Master(p, xs, a[..])
  {
    a := new int[|xs|](_ => 0);
    a[0] := (xs[0] + xs[1]) % p;
    ModCong(p, xs[0] + xs[1]);
    Lin1(p, -a[0] - -(xs[0] + xs[1]), -1, a[0] - (xs[0] + xs[1]));
    a[0] := -a[0];
    ModCong(p, xs[0] * xs[1]);
    a[1] := (xs[0] * xs[1]) % p;
    assert a[..2] == [a[0], a[1]];
    assert xs[..2] == [xs[0], xs[1]];
    MasterOfTwo(p, xs[0], xs[1], a[0], a[1]);
    AddNodes(a, xs, p);
  }

  // ------------------------------------------------------------------ the denominators

  lemma {:induction false} DifferencesZero(p: int, xs: seq<int>, x: int, skip: int)
    requires IsPrime(p)
    ensures Divides(p, Differences(xs, x, skip)) <==>
            exists k :: 0 <= k < |xs| && k != skip && Cong(p, x, xs[k])
  {
    if xs == [] {
      OneNonzero(p);
    } else {
      var k := |xs| - 1;
      var ys, f := xs[..k], if k == skip then 1 else x - xs[k];
      DifferencesZero(p, ys, x, skip);
      OneNonzero(p);
      var d := Differences(ys, x, skip);
      if Divides(p, d * f) {
        Euclid(p, d, f);
        if Divides(p, d) {
          var i :| 0 <= i < |ys| && i != skip && Cong(p, x, ys[i]);
          assert xs[i] == ys[i];
        }
      }
      if i :| 0 <= i < |xs| && i != skip && Cong(p, x, xs[i]) {
        if i < k {
          assert ys[i] == xs[i];
          Lin1(p, d * f, f, d);
        } else {
          Lin1(p, d * f, d, f);
        }
      }
    }
  }

  /** scripts/weaver.py:16-20. */
  method NodeProducts(xs: seq<int>, p: int) returns (d: seq<int>)
    requires p > 0
    ensures |d| == |xs| && forall i :: 0 <= i < |xs| ==> Cong(p, d[i], Differences(xs, xs[i], i))
  {
    var n := |xs|;
    d := seq(n, _ => 1);
    for i := 0 to n
      invariant |d| == n && forall k :: i <= k < n ==> d[k] == 1
      invariant forall k :: 0 <= k < i ==> Cong(p, d[k], Differences(xs, xs[k], k))
    {
      MultipleDivides(p, 0);
      assert xs[..0] == [];
      for j := 0 to n
        invariant |d| == n && forall k :: i < k < n ==> d[k] == 1
        invariant forall k :: 0 <= k < i ==> Cong(p, d[k], Differences(xs, xs[k], k))
        invariant Cong(p, d[i], Differences(xs[..j], xs[i], i))
      {
        assert xs[..j + 1][..j] == xs[..j];
        if j != i {
          ModCong(p, d[i] * (xs[i] - xs[j]));
          CongMul(p, d[i], Differences(xs[..j], xs[i], i), xs[i] - xs[j], xs[i] - xs[j]);
          CongTrans(p, (d[i] * (xs[i] - xs[j])) % p, d[i] * (xs[i] - xs[j]), Differences(xs[..j + 1], xs[i], i));
          d := d[i := (d[i] * (xs[i] - xs[j])) % p];
        }
      }
      assert xs[..n] == xs;
    }
  }

  // ------------------------------------------------------------------ the columns

  /** scripts/weaver.py:25-27: the quotient of the master polynomial by X - x. */
  method DivideNode(p: int, a: seq<int>, x: int) returns (b: seq<int>)
    requires p > 0 && |a| > 0
    ensures SeqCong(p, b, Quotient([1] + a, x))
  {
    hide Hi, Cong;
    ghost var s := [1] + a;
    b := [1];
    FirstQuotient(p, s, x);
    for j := 0 to |a| - 1
      invariant |b| == j + 1
      invariant forall i :: 0 <= i <= j ==> Cong(p, b[i], Hi(s[..i + 1], x))
    {
      assert s[j + 1] == a[j];
      NextQuotient(p, s, x, j, b[j]);
      b := b + [(a[j] + x * b[j]) % p];
    }
  }

  lemma FirstQuotient(p: int, s: seq<int>, x: int)
    requires p > 0 && |s| > 0 && s[0] == 1
    ensures Cong(p, 1, Hi(s[..1], x))
  {
    assert s[..1] == [1] && [1][..0] == [];
    MultipleDivides(p, 0);
  }

  lemma NextQuotient(p: int, s: seq<int>, x: int, j: nat, b: int)
    requires p > 0 && j + 1 < |s| && Cong(p, b, Hi(s[..j + 1], x))
    ensures Cong(p, (s[j + 1] + x * b) % p, Hi(s[..j + 2], x))
  {
    hide Cong, Hi;
    HiSnoc(s, x, j);
    HornerResidue(p, s[j + 1], x, b, Hi(s[..j + 1], x));
  }

  lemma HiSnoc(s: seq<int>, x: int, j: nat)
    requires j + 1 < |s|
    ensures Hi(s[..j + 2], x) == Hi(s[..j + 1], x) * x + s[j + 1]
  {
    assert s[..j + 2][..j + 1] == s[..j + 1];
  }

  lemma HornerResidue(p: int, c: int, x: int, b: int, h: int)
    requires p > 0 && Cong(p, b, h)
    ensures Cong(p, (c + x * b) % p, h * x + c)
  {
    ModCong(p, c + x * b);
    assert (c + x * b) - (h * x + c) == x * (b - h);
    Lin1(p, (c + x * b) - (h * x + c), x, b - h);
    CongTrans(p, (c + x * b) % p, c + x * b, h * x + c);
  }

  /** c lists b from the right, every entry scaled by w. */
  ghost predicate ScaledReverse(p: int, c: seq<int>, b: seq<int>, w: int)
    requires p > 0
  {
    |c| == |b| && forall j :: 0 <= j < |b| ==> Cong(p, c[j], b[|b| - 1 - j] * w)
  }

  lemma {:induction false} HiScaled(p: int, c: seq<int>, b: seq<int>, w: int, x: int)
    requires p > 0 && |c| == |b| && forall j :: 0 <= j < |b| ==> Cong(p, c[j], b[j] * w)
    ensures Cong(p, Hi(c, x), Hi(b, x) * w)
  {
    if c == [] {
      MultipleDivides(p, 0);
    } else {
      var n := |c| - 1;
      HiScaled(p, c[..n], b[..n], w, x);
      var h, k := Hi(c[..n], x), Hi(b[..n], x);
      Lin2(p, (h * x + c[n]) - (k * x + b[n]) * w, x, h - k * w, 1, c[n] - b[n] * w) by {
        ScaledAlgebra(h, k, x, c[n], b[n], w);
      }
    }
  }

  lemma ScaledAlgebra(h: int, k: int, x: int, c: int, b: int, w: int)
    ensures (h * x + c) - (k * x + b) * w == x * (h - k * w) + 1 * (c - b * w)
  {
    assert x * (h - k * w) == x * h - k * x * w;
  }

  lemma ColumnValue(p: int, c: seq<int>, b: seq<int>, w: int, x: int)
    requires p > 0 && ScaledReverse(p, c, b, w)
    ensures Cong(p, Eval(c, x), Hi(b, x) * w)
  {
    EvalIsHi(c, x);
    HiScaled(p, Reversed(c), b, w, x);
  }

  /** The quotient by X - xs[i] vanishes at the other nodes. */
  lemma QuotientAtOther(p: int, xs: seq<int>, i: nat, k: nat)
    requires IsPrime(p) && i < |xs| && k < |xs| && !Cong(p, xs[k], xs[i])
    ensures Divides(p, Hi(Quotient(FromRoots(xs), xs[i]), xs[k]))
  {
    RootsAreRoots(xs, i, xs[i]);
    RootsAreRoots(xs, k, xs[k]);
    MultipleDivides(p, 0);
    QuotientRoot(p, FromRoots(xs), xs[i], xs[k]);
  }

  /** ... and is the product of the differences at its own. */
  lemma QuotientAtOwn(xs: seq<int>, i: nat)
    requires i < |xs|
    ensures Hi(Quotient(FromRoots(xs), xs[i]), xs[i]) == Differences(xs, xs[i], i)
  {
    SlopeIsQuotient(FromRoots(xs), xs[i]);
    SlopeAtRoot(xs, i, xs[i]);
  }

  lemma {:induction false} PrefixCong(p: int, s: seq<int>, t: seq<int>, x: int)
    requires p > 0 && SeqCong(p, s, t) && |s| > 0
    ensures SeqCong(p, Quotient(s, x), Quotient(t, x))
  {
    MultipleDivides(p, 0);
    forall j | 0 <= j < |s| - 1
      ensures Cong(p, Quotient(s, x)[j], Quotient(t, x)[j])
    {
      HiCong(p, s[..j + 1], t[..j + 1], x, x);
    }
  }

  lemma BasisColumn(p: int, xs: seq<int>, a: seq<int>, b: seq<int>, c: seq<int>, d: int, w: int, i: nat, k: nat)
    requires IsPrime(p) && i < |xs| && k < |xs| && !Clashes(p, xs, i) && Master(p, xs, a)
    requires SeqCong(p, b, Quotient([1] + a, xs[i]))
    requires Cong(p, d, Differences(xs, xs[i], i)) && Cong(p, d * w, 1)
    requires ScaledReverse(p, c, b, w)
    ensures Cong(p, Eval(c, xs[k]), Delta(i, k))
  {
    var x, q := xs[k], Quotient(FromRoots(xs), xs[i]);
    MultipleDivides(p, 0);
    PrefixCong(p, [1] + a, FromRoots(xs), xs[i]);
    HiCong(p, b, Quotient([1] + a, xs[i]), x, x);
    HiCong(p, Quotient([1] + a, xs[i]), q, x, x);
    CongTrans(p, Hi(b, x), Hi(Quotient([1] + a, xs[i]), x), Hi(q, x));
    ColumnValue(p, c, b, w, x);
    CongMul(p, Hi(b, x), Hi(q, x), w, w);
    CongTrans(p, Eval(c, x), Hi(b, x) * w, Hi(q, x) * w);
    if i == k {
      QuotientAtOwn(xs, i);
      CongSym(p, d, Hi(q, x));
      CongMul(p, Hi(q, x), d, w, w);
      CongTrans(p, Hi(q, x) * w, d * w, 1);
      CongTrans(p, Eval(c, x), Hi(q, x) * w, 1);
    } else {
      if Cong(p, xs[k], xs[i]) { CongSym(p, xs[k], xs[i]); }
      QuotientAtOther(p, xs, i, k);
      Lin1(p, Hi(q, x) * w - 0, w, Hi(q, x));
      CongTrans(p, Eval(c, x), Hi(q, x) * w, 0);
    }
  }

  // ------------------------------------------------------------------ precompute

  ghost predicate Reduced(p: int, s: seq<int>) {
    forall i :: 0 <= i < |s| ==> 0 <= s[i] < p
  }

  ghost predicate ReducedRows(p: int, m: Matrix) {
    forall i :: 0 <= i < |m| ==> Reduced(p, m[i])
  }

  /** scripts/weaver.py:28-29: column i receives b from the right, scaled by w. */
  method FillColumn(m: Matrix, i: int, b: seq<int>, w: int, p: int) returns (m': Matrix)
    requires p > 0 && Square(m, |b|) && 0 <= i < |b| && ReducedRows(p, m)
    ensures Square(m', |b|) && ReducedRows(p, m') && ScaledReverse(p, Column(m', i), b, w)
    ensures forall k :: 0 <= k < |b| && k != i ==> Column(m', k) == Column(m, k)
  {
    var n := |b|;
    m' := m;
    for j := 0 to n
      invariant Square(m', n) && ReducedRows(p, m')
      invariant forall r :: 0 <= r < j ==> Cong(p, m'[r][i], b[n - 1 - r] * w)
      invariant forall r, k :: 0 <= r < n && 0 <= k < n && k != i ==> m'[r][k] == m[r][k]
    {
      ModCong(p, b[n - 1 - j] * w);
      m' := m'[j := m'[j][i := (b[n - 1 - j] * w) % p]];
    }
  }

  /** scripts/weaver.py precompute: for every list of nodes it either fails, exactly when there are
      fewer than two nodes or two nodes agree modulo p, or returns the interpolation matrix. */
  method Precompute(xs: seq<int>, p: int) returns (r: Result<Matrix, Error>)
    requires IsPrime(p)
    ensures r.Ok? <==> |xs| >= 2 && DistinctMod(p, xs)
    ensures r.Ok? ==> Interpolates(p, xs, r.value) && ReducedRows(p, r.value)
    ensures r.Err? ==> r.error == if |xs| < 2 then IndexError else NotInvertible
  {
    var n := |xs|;
    if n < 2 {
      return Err(IndexError);
    }
    var a := ExpandProduct(xs, p);
    var d := NodeProducts(xs, p);
    var matrix := seq(n, _ => seq(n, _ => 0));
    for i := 0 to n
      invariant Square(matrix, n) && ReducedRows(p, matrix) && Master(p, xs, a[..])
      invariant forall k :: 0 <= k < i ==> !Divides(p, d[k])
      invariant DistinctMod(p, xs) ==>
                  forall k, l :: 0 <= k < i && 0 <= l < n ==> Cong(p, Eval(Column(matrix, k), xs[l]), Delta(k, l))
    {
      var b := DivideNode(p, a[..], xs[i]);
      var inv := InvertMod(d[i], p);
      NodeClash(p, xs, d[i], i);
      if inv == None {
        return Err(NotInvertible);
      }
      matrix := FillColumn(matrix, i, b, inv.value, p);
      if DistinctMod(p, xs) {
        forall l | 0 <= l < n
          ensures Cong(p, Eval(Column(matrix, i), xs[l]), Delta(i, l))
        {
          BasisColumn(p, xs, a[..], b, Column(matrix, i), d[i], inv.value, i, l);
        }
      }
    }
    AllInvertible(p, xs, d);
    r := Ok(matrix);
  }

  /** c-prototype/src/weaver.c precompute: a failed inversion is not noticed and leaves 0. A node that agrees with
      another one gets a zero column; every other column interpolates its unit vector. So the result is an
      interpolation matrix if and only if the nodes are distinct modulo p. */
  method PrecomputeUnchecked(xs: seq<int>, p: int) returns (matrix: Matrix)
    requires IsPrime(p) && |xs| >= 2
    ensures Square(matrix, |xs|) && ReducedRows(p, matrix)
    ensures Diagonal(p, xs, matrix, Alone(p, xs))
    ensures forall i, r :: 0 <= i < |xs| && 0 <= r < |xs| && Clashes(p, xs, i) ==> Column(matrix, i)[r] == 0
    ensures Interpolates(p, xs, matrix) <==> DistinctMod(p, xs)
  {
    hide Eval, Master, Clashes, Interpolates, DistinctMod;
    var n := |xs|;
    var a := ExpandProductSigned(xs, p);
    var d := NodeProducts(xs, p);
    matrix := seq(n, _ => seq(n, _ => 0));
    for i := 0 to n
      invariant Square(matrix, n) && ReducedRows(p, matrix) && Master(p, xs, a[..])
      invariant forall k, l :: 0 <= k < i && 0 <= l < n ==>
                               Cong(p, Eval(Column(matrix, k), xs[l]), if k == l then Alone(p, xs)[k] else 0)
      invariant forall k, r :: 0 <= k < i && 0 <= r < n && Clashes(p, xs, k) ==> Column(matrix, k)[r] == 0
    {
      var b := DivideNode(p, a[..], xs[i]);
      var inv := InvertMod(d[i], p);
      var invert := if inv == None then 0 else inv.value;
      NodeClash(p, xs, d[i], i);
      ghost var was := matrix;
      matrix := FillColumn(matrix, i, b, invert, p);
      ColumnEither(p, xs, a[..], b, Column(matrix, i), d[i], invert, i);
      assert forall k :: 0 <= k < i ==> Column(matrix, k) == Column(was, k);
    }
    DistinctAlone(p, xs);
    DiagonalInterpolates(p, xs, matrix);
  }

  /** The column of node i, whether it clashes or not. */
  lemma ColumnEither(p: int, xs: seq<int>, a: seq<int>, b: seq<int>, c: seq<int>, d: int, w: int, i: nat)
    requires IsPrime(p) && i < |xs| && Master(p, xs, a) && SeqCong(p, b, Quotient([1] + a, xs[i]))
    requires Cong(p, d, Differences(xs, xs[i], i)) && ScaledReverse(p, c, b, w) && Reduced(p, c)
    requires if Clashes(p, xs, i) then w == 0 else Cong(p, d * w, 1)
    ensures forall l :: 0 <= l < |xs| ==> Cong(p, Eval(c, xs[l]), if i == l then Alone(p, xs)[i] else 0)
    ensures Clashes(p, xs, i) ==> forall r :: 0 <= r < |c| ==> c[r] == 0
  {
    hide Eval, Master, Clashes, SeqCong;
    if Clashes(p, xs, i) {
      ZeroColumn(p, c, b);
      forall l | 0 <= l < |xs|
        ensures Cong(p, Eval(c, xs[l]), 0)
      {
        EvalZero(c, xs[l]);
        MultipleDivides(p, 0);
      }
    } else {
      forall l | 0 <= l < |xs|
        ensures Cong(p, Eval(c, xs[l]), Delta(i, l))
      {
        BasisColumn(p, xs, a, b, c, d, w, i, l);
      }
    }
  }

  lemma ZeroColumn(p: int, c: seq<int>, b: seq<int>)
    requires p > 0 && ScaledReverse(p, c, b, 0) && Reduced(p, c)
    ensures forall r :: 0 <= r < |c| ==> c[r] == 0
  {
    forall r | 0 <= r < |c|
      ensures c[r] == 0
    {
      assert Cong(p, c[r], b[|b| - 1 - r] * 0);
      SmallMultiple(p, c[r]);
    }
  }

  lemma DiagonalInterpolates(p: int, xs: seq<int>, m: Matrix)
    requires IsPrime(p) && Diagonal(p, xs, m, Alone(p, xs))
    ensures Interpolates(p, xs, m) <==> DistinctMod(p, xs)
  {
    hide Eval, DistinctMod;
    DistinctAlone(p, xs);
    if Interpolates(p, xs, m) { InterpolationNeedsDistinct(p, xs, m); }
  }

  lemma InterpolationNeedsDistinct(p: int, xs: seq<int>, m: Matrix)
    requires IsPrime(p) && Interpolates(p, xs, m)
    ensures DistinctMod(p, xs)
  {
    hide Eval;
    forall i, j | 0 <= i < j < |xs|
      ensures !Cong(p, xs[i], xs[j])
    {
      if Cong(p, xs[i], xs[j]) {
        var c := Column(m, i);
        var s, t := Eval(c, xs[i]), Eval(c, xs[j]);
        MultipleDivides(p, 0);
        EvalCong(p, c, c, xs[i], xs[j]);
        Lin3(p, 1, -1, s - 1, 1, s - t, 1, t - 0);
        OneNonzero(p);
      }
    }
  }

  lemma NodeClash(p: int, xs: seq<int>, d: int, i: nat)
    requires IsPrime(p) && i < |xs| && Cong(p, d, Differences(xs, xs[i], i))
    ensures Divides(p, d) <==> Clashes(p, xs, i)
    ensures DistinctMod(p, xs) ==> !Divides(p, d)
  {
    DifferencesZero(p, xs, xs[i], i);
    var e := Differences(xs, xs[i], i);
    if Divides(p, d) { Lin2(p, e, 1, d, -1, d - e); }
    if Divides(p, e) { Lin2(p, d, 1, e, 1, d - e); }
    if DistinctMod(p, xs) {
      forall k | 0 <= k < |xs| && k != i
        ensures !Cong(p, xs[i], xs[k])
      {
        DistinctBothWays(p, xs, i, k);
      }
    }
  }

  lemma AllInvertible(p: int, xs: seq<int>, d: seq<int>)
    requires IsPrime(p) && |d| == |xs|
    requires forall i :: 0 <= i < |xs| ==> Cong(p, d[i], Differences(xs, xs[i], i)) && !Divides(p, d[i])
    ensures DistinctMod(p, xs)
  {
    forall i, j | 0 <= i < j < |xs|
      ensures !Cong(p, xs[i], xs[j])
    {
      NodeClash(p, xs, d[i], i);
    }
  }

  /** Nodes 1 and 1: whatever matrix is returned for them does not interpolate. */
  lemma ClashingNodes(p: int, m: Matrix)
    requires IsPrime(p)
    ensures !Interpolates(p, [1, 1], m)
  {
    MultipleDivides(p, 0);
    var xs := [1, 1];
    assert Cong(p, xs[0], xs[1]);
    if Interpolates(p, xs, m) { InterpolationNeedsDistinct(p, xs, m); }
  }

  // ------------------------------------------------------------------ weave and evaluate

  /** c is the matrix-vector product, modulo p. */
  ghost predicate Woven(p: int, m: Matrix, ys: seq<int>, c: seq<int>)
    requires p > 0 && Square(m, |ys|)
  {
    |c| == |ys| && forall i :: 0 <= i < |ys| ==> Cong(p, c[i], Dot(m[i], ys))
  }

  lemma WovenLength(p: int, m: Matrix, ys: seq<int>, c: seq<int>)
    requires p > 0 && Square(m, |ys|) && Woven(p, m, ys, c)
    ensures |c| == |ys|
  {
  }

  /** scripts/weaver.py weaver. */
  method Weave(ys: seq<int>, m: Matrix, p: int) returns (c: seq<int>)
    requires p > 0 && Square(m, |ys|)
    ensures Woven(p, m, ys, c) && Reduced(p, c)
  {
    var n := |ys|;
    c := [];
    for i := 0 to n
      invariant |c| == i && Reduced(p, c)
      invariant forall k :: 0 <= k < i ==> Cong(p, c[k], Dot(m[k], ys))
    {
      c := c + [0];
      MultipleDivides(p, 0);
      for j := 0 to n
        invariant |c| == i + 1 && Reduced(p, c)
        invariant forall k :: 0 <= k < i ==> Cong(p, c[k], Dot(m[k], ys))
        invariant Cong(p, c[i], Dot(m[i][..j], ys[..j]))
      {
        var v := c[i] + m[i][j] * ys[j];
        ModCong(p, v);
        assert m[i][..j + 1][..j] == m[i][..j] && ys[..j + 1][..j] == ys[..j];
        CongAdd(p, c[i], Dot(m[i][..j], ys[..j]), m[i][j] * ys[j], m[i][j] * ys[j]);
        CongTrans(p, v % p, v, Dot(m[i][..j + 1], ys[..j + 1]));
        c := c[i := v % p];
      }
      assert m[i][..n] == m[i] && ys[..n] == ys;
    }
  }

  /** c-prototype/src/weaver.c weave: every product is reduced before it is added. */
  method WeaveStepwise(ys: seq<int>, m: Matrix, p: int) returns (c: seq<int>)
    requires p > 0 && Square(m, |ys|)
    ensures Woven(p, m, ys, c) && Reduced(p, c)
  {
    hide Dot, Cong;
    var n := |ys|;
    c := [];
    for i := 0 to n
      invariant |c| == i && Reduced(p, c)
      invariant forall k :: 0 <= k < i ==> Cong(p, c[k], Dot(m[k], ys))
    {
      var sum := 0;
      EmptyDot(p, m[i][..0], ys[..0]);
      for j := 0 to n
        invariant 0 <= sum < p && Cong(p, sum, Dot(m[i][..j], ys[..j]))
      {
        var mul := (m[i][j] * ys[j]) % p;
        DotStep(p, m[i], ys, j, sum);
        sum := (sum + mul) % p;
      }
      assert m[i][..n] == m[i] && ys[..n] == ys;
      c := c + [sum];
    }
  }

  lemma EmptyDot(p: int, x: seq<int>, y: seq<int>)
    requires p > 0 && x == y == []
    ensures Cong(p, 0, Dot(x, y))
  {
    MultipleDivides(p, 0);
  }

  lemma DotStep(p: int, x: seq<int>, y: seq<int>, j: nat, sum: int)
    requires p > 0 && |x| == |y| && j < |x| && Cong(p, sum, Dot(x[..j], y[..j]))
    ensures Cong(p, (sum + (x[j] * y[j]) % p) % p, Dot(x[..j + 1], y[..j + 1]))
  {
    assert x[..j + 1][..j] == x[..j] && y[..j + 1][..j] == y[..j];
    assert Dot(x[..j + 1], y[..j + 1]) == Dot(x[..j], y[..j]) + x[j] * y[j];
    SumResidue(p, sum, Dot(x[..j], y[..j]), x[j] * y[j]);
  }

  lemma SumResidue(p: int, s: int, d: int, e: int)
    requires p > 0 && Cong(p, s, d)
    ensures Cong(p, (s + e % p) % p, d + e)
  {
    ModCong(p, e);
    ModCong(p, s + e % p);
    CongAdd(p, s, d, e % p, e);
    CongTrans(p, (s + e % p) % p, s + e % p, d + e);
  }

  /** scripts/weaver.py eval_weave: reduction, if any, only at the end. */
  method EvalWeave(c: seq<int>, x: int, prime: Option<int>) returns (r: int)
    requires |c| > 0 && (prime.Some? ==> prime.value > 0)
    ensures r == if prime.None? then Eval(c, x) else Eval(c, x) % prime.value
  {
    var n := |c|;
    r := c[n - 1];
    assert c[n - 1..][1..] == [];
    for k := n - 1 downto 0
      invariant r == Eval(c[k..], x)
    {
      assert c[k..][1..] == c[k + 1..];
      r := c[k] + x * r;
    }
    if prime.Some? {
      r := r % prime.value;
    }
  }

  /** c-prototype/src/weaver.c evaluate: reduction at every step but none of the first copy. */
  method EvaluateStepwise(c: seq<int>, x: int, p: int) returns (r: int)
    requires |c| > 0 && p > 0
    ensures Cong(p, r, Eval(c, x))
    ensures |c| > 1 || 0 <= c[0] < p ==> r == Eval(c, x) % p
  {
    hide Eval;
    var n := |c|;
    r := c[n - 1];
    EvalStep(c, n - 1, x);
    EvalEmpty(c[n..], x);
    MultipleDivides(p, 0);
    for k := n - 1 downto 0
      invariant Cong(p, r, Eval(c[k..], x))
      invariant k < n - 1 || 0 <= c[n - 1] < p ==> 0 <= r < p
    {
      var mul := (x * r) % p;
      HornerStep(p, c[k], x, r, Eval(c[k + 1..], x));
      EvalStep(c, k, x);
      r := (c[k] + mul) % p;
    }
    assert c[0..] == c;
    if 0 <= r < p {
      ReducedIsResidue(p, r, Eval(c, x));
    }
  }

  lemma EvalStep(c: seq<int>, k: nat, x: int)
    requires k < |c|
    ensures Eval(c[k..], x) == c[k] + x * Eval(c[k + 1..], x)
  {
    assert c[k..][1..] == c[k + 1..];
  }

  lemma EvalEmpty(c: seq<int>, x: int)
    requires |c| == 0
    ensures Eval(c, x) == 0
  {
  }

  lemma HornerStep(p: int, c: int, x: int, r: int, e: int)
    requires p > 0 && Cong(p, r, e)
    ensures Cong(p, (c + (x * r) % p) % p, c + x * e)
  {
    var mul := (x * r) % p;
    ModCong(p, x * r);
    ModCong(p, c + mul);
    MultipleDivides(p, 0);
    CongMul(p, x, x, r, e);
    CongTrans(p, mul, x * r, x * e);
    CongAdd(p, c, c, mul, x * e);
    CongTrans(p, (c + mul) % p, c + mul, c + x * e);
  }

  // ------------------------------------------------------------------ interpolation

  /** The values of the first t columns at x, weighted by ys. */
  ghost function Combination(m: Matrix, ys: seq<int>, x: int, t: nat): int
    requires Square(m, |ys|) && t <= |ys|
  {
    if t == 0 then 0 else Combination(m, ys, x, t - 1) + ys[t - 1] * Eval(Column(m, t - 1), x)
  }

  ghost function PartialProducts(m: Matrix, ys: seq<int>, t: nat): (c: seq<int>)
    requires Square(m, |ys|) && t <= |ys|
    ensures |c| == |ys| && forall i :: 0 <= i < |ys| ==> c[i] == Dot(m[i][..t], ys[..t])
  {
    seq(|ys|, i requires 0 <= i < |ys| => Dot(m[i][..t], ys[..t]))
  }

  lemma {:induction false} EvalAddScaled(c: seq<int>, d: seq<int>, e: seq<int>, w: int, x: int)
    requires |c| == |d| == |e| && forall i :: 0 <= i < |c| ==> e[i] == c[i] + d[i] * w
    ensures Eval(e, x) == Eval(c, x) + w * Eval(d, x)
    decreases |c|
  {
    if c != [] {
      EvalAddScaled(c[1..], d[1..], e[1..], w, x);
      AddScaledAlgebra(c[0], d[0], w, x, Eval(c[1..], x), Eval(d[1..], x));
    }
  }

  lemma AddScaledAlgebra(c: int, d: int, w: int, x: int, s: int, t: int)
    ensures (c + d * w) + x * (s + w * t) == (c + x * s) + w * (d + x * t)
  {
  }

  lemma {:induction false} EvalOfProducts(m: Matrix, ys: seq<int>, x: int, t: nat)
    requires Square(m, |ys|) && t <= |ys|
    ensures Eval(PartialProducts(m, ys, t), x) == Combination(m, ys, x, t)
    decreases t
  {
    var c := PartialProducts(m, ys, t);
    if t == 0 {
      EvalZero(c, x);
    } else {
      var c', w := PartialProducts(m, ys, t - 1), ys[t - 1];
      EvalOfProducts(m, ys, x, t - 1);
      forall i | 0 <= i < |ys|
        ensures c[i] == c'[i] + Column(m, t - 1)[i] * w
      {
        assert m[i][..t][..t - 1] == m[i][..t - 1] && ys[..t][..t - 1] == ys[..t - 1];
      }
      EvalAddScaled(c', Column(m, t - 1), c, w, x);
    }
  }

  lemma {:induction false} EvalZero(c: seq<int>, x: int)
    requires forall i :: 0 <= i < |c| ==> c[i] == 0
    ensures Eval(c, x) == 0
  {
    if c != [] { EvalZero(c[1..], x); }
  }

  lemma {:induction false} CombinationAtNode(p: int, xs: seq<int>, ys: seq<int>, m: Matrix, d: seq<int>, k: nat, t: nat)
    requires p > 0 && |xs| == |ys| && Diagonal(p, xs, m, d) && k < |xs| && t <= |xs|
    ensures Cong(p, Combination(m, ys, xs[k], t), if k < t then ys[k] * d[k] else 0)
    decreases t
  {
    MultipleDivides(p, 0);
    if t > 0 {
      CombinationAtNode(p, xs, ys, m, d, k, t - 1);
      hide Eval;
      var y, e, v := ys[t - 1], Eval(Column(m, t - 1), xs[k]), if t - 1 == k then d[k] else 0;
      CongMul(p, y, y, e, v);
      CongAdd(p, Combination(m, ys, xs[k], t - 1), if k < t - 1 then ys[k] * d[k] else 0, y * e, y * v);
    }
  }

  /** Evaluating the woven coefficients at a node gives that node's value times its diagonal entry. */
  lemma DiagonalValue(p: int, xs: seq<int>, ys: seq<int>, m: Matrix, d: seq<int>, c: seq<int>, k: nat)
    requires p > 0 && |xs| == |ys| && Diagonal(p, xs, m, d) && Woven(p, m, ys, c) && k < |xs|
    ensures Cong(p, Eval(c, xs[k]), ys[k] * d[k])
  {
    assert Square(m, |xs|) && |d| == |xs|;
    hide Diagonal, Eval;
    var n := |ys|;
    var e := PartialProducts(m, ys, n);
    forall i | 0 <= i < n
      ensures Cong(p, c[i], e[i])
    {
      assert m[i][..n] == m[i] && ys[..n] == ys;
    }
    MultipleDivides(p, 0);
    EvalCong(p, c, e, xs[k], xs[k]);
    EvalOfProducts(m, ys, xs[k], n);
    CombinationAtNode(p, xs, ys, m, d, k, n);
    CongTrans(p, Eval(c, xs[k]), Eval(e, xs[k]), ys[k] * d[k]);
  }

  /** Evaluating the woven coefficients at a node gives that node's value. */
  lemma Interpolation(p: int, xs: seq<int>, ys: seq<int>, m: Matrix, c: seq<int>, k: nat)
    requires p > 0 && |xs| == |ys| && Interpolates(p, xs, m) && Woven(p, m, ys, c) && k < |xs|
    ensures Cong(p, Eval(c, xs[k]), ys[k])
  {
    hide Eval, Woven;
    var d := seq(|xs|, _ => 1);
    assert Diagonal(p, xs, m, d);
    DiagonalValue(p, xs, ys, m, d, c, k);
  }

  /** With clashing nodes, as the C code weaves them: a node that clashes reads back 0, every other one its value. */
  lemma ClashingValue(p: int, xs: seq<int>, ys: seq<int>, m: Matrix, c: seq<int>, k: nat)
    requires p > 0 && |xs| == |ys| && Diagonal(p, xs, m, Alone(p, xs)) && Woven(p, m, ys, c) && k < |xs|
    ensures Cong(p, Eval(c, xs[k]), if Clashes(p, xs, k) then 0 else ys[k])
  {
    hide Eval, Woven, Diagonal, Clashes;
    DiagonalValue(p, xs, ys, m, Alone(p, xs), c, k);
  }

  /** c is the only reduced list of n coefficients through the points. */
  lemma WovenIsUnique(p: int, xs: seq<int>, ys: seq<int>, m: Matrix, c: seq<int>, d: seq<int>)
    requires IsPrime(p) && |xs| == |ys| == |d| && Interpolates(p, xs, m) && Woven(p, m, ys, c)
    requires Reduced(p, c) && Reduced(p, d)
    ensures c == d <==> forall k :: 0 <= k < |xs| ==> Cong(p, Eval(d, xs[k]), ys[k])
  {
    hide Eval, Dot, Interpolates;
    InterpolationNeedsDistinct(p, xs, m);
    forall k | 0 <= k < |xs|
      ensures Cong(p, Eval(c, xs[k]), ys[k])
    {
      Interpolation(p, xs, ys, m, c, k);
    }
    if forall k :: 0 <= k < |xs| ==> Cong(p, Eval(d, xs[k]), ys[k]) {
      forall k | 0 <= k < |xs|
        ensures Cong(p, Eval(c, xs[k]), Eval(d, xs[k]))
      {
        CongSym(p, Eval(d, xs[k]), ys[k]);
        CongTrans(p, Eval(c, xs[k]), ys[k], Eval(d, xs[k]));
      }
      Uniqueness(p, c, d, xs);
      forall i | 0 <= i < |c|
        ensures c[i] == d[i]
      {
        SmallMultiple(p, c[i] - d[i]);
      }
    }
  }

  /** The order in which nodes and values are listed together does not reach the coefficients. */
  lemma OrderIsHidden(p: int, xs: seq<int>, ys: seq<int>, m: Matrix, c: seq<int>,
                      xs': seq<int>, ys': seq<int>, m': Matrix, c': seq<int>, pi: seq<nat>)
    requires IsPrime(p) && |xs| == |ys| == |xs'| == |ys'| == |pi|
    requires forall k :: 0 <= k < |pi| ==> pi[k] < |xs| && xs'[k] == xs[pi[k]] && ys'[k] == ys[pi[k]]
    requires Interpolates(p, xs, m) && Woven(p, m, ys, c) && Reduced(p, c)
    requires Interpolates(p, xs', m') && Woven(p, m', ys', c') && Reduced(p, c')
    ensures c == c'
  {
    forall k | 0 <= k < |xs'|
      ensures Cong(p, Eval(c, xs'[k]), ys'[k])
    {
      Interpolation(p, xs, ys, m, c, pi[k]);
    }
    WovenIsUnique(p, xs', ys', m', c', c);
  }

  // ------------------------------------------------------------------ the inverse of the Vandermonde matrix

  lemma {:induction false} EvalSnoc(c: seq<int>, y: int, x: int)
    ensures Eval(c + [y], x) == Eval(c, x) + Pow(x, |c|) * y
    decreases |c|
  {
    if c == [] {
      assert [y][1..] == [];
    } else {
      assert (c + [y])[1..] == c[1..] + [y];
      EvalSnoc(c[1..], y, x);
      SnocAlgebra(c[0], x, Eval(c[1..], x), Pow(x, |c| - 1), y);
    }
  }

  lemma SnocAlgebra(c: int, x: int, e: int, w: int, y: int)
    ensures c + x * (e + w * y) == (c + x * e) + (x * w) * y
  {
  }

  lemma {:induction false} DotPowers(c: seq<int>, x: int)
    ensures Dot(Powers(x, |c|), c) == Eval(c, x)
    decreases |c|
  {
    if c != [] {
      var n := |c| - 1;
      DotPowers(c[..n], x);
      assert Powers(x, |c|)[..n] == Powers(x, n);
      EvalSnoc(c[..n], c[n], x);
      assert c[..n] + [c[n]] == c;
    }
  }

  /** Column l of the Vandermonde matrix: the l-th power of every node. */
  ghost function NodePowers(xs: seq<int>, l: nat): (s: seq<int>)
    ensures |s| == |xs| && forall k :: 0 <= k < |xs| ==> s[k] == Pow(xs[k], l)
  {
    seq(|xs|, k requires 0 <= k < |xs| => Pow(xs[k], l))
  }

  ghost function Unit(n: nat, l: nat): (s: seq<int>)
    ensures |s| == n && forall i :: 0 <= i < n ==> s[i] == Delta(i, l)
  {
    seq(n, i => Delta(i, l))
  }

  lemma {:induction false} EvalUnit(n: nat, l: nat, x: int)
    ensures Eval(Unit(n, l), x) == if l < n then Pow(x, l) else 0
    decreases n
  {
    if n > 0 {
      EvalUnit(n - 1, l, x);
      EvalSnoc(Unit(n - 1, l), Delta(n - 1, l), x);
      assert Unit(n - 1, l) + [Delta(n - 1, l)] == Unit(n, l);
    }
  }

  /** The matrix is a two-sided inverse of the Vandermonde matrix of the nodes. */
  lemma VandermondeInverse(p: int, xs: seq<int>, m: Matrix, i: nat, j: nat)
    requires IsPrime(p) && Interpolates(p, xs, m) && i < |xs| && j < |xs|
    ensures Cong(p, Dot(Powers(xs[i], |xs|), Column(m, j)), Delta(i, j))
    ensures Cong(p, Dot(m[i], NodePowers(xs, j)), Delta(i, j))
  {
    hide Eval, Dot, Pow;
    InterpolationNeedsDistinct(p, xs, m);
    var n, ys := |xs|, NodePowers(xs, j);
    DotPowers(Column(m, j), xs[i]);
    var c := seq(n, r requires 0 <= r < n => Dot(m[r], ys));
    MultipleDivides(p, 0);
    assert Woven(p, m, ys, c);
    forall k | 0 <= k < n
      ensures Cong(p, Eval(c, xs[k]), Eval(Unit(n, j), xs[k]))
    {
      Interpolation(p, xs, ys, m, c, k);
      EvalUnit(n, j, xs[k]);
    }
    Uniqueness(p, c, Unit(n, j), xs);
    assert Cong(p, c[i], Unit(n, j)[i]);
  }
}
