/** Quadratic residues: the Legendre symbol and the inverse of scripts/util.py, and Euler's criterion. */
module Residues {
  import opened ModArith
  import opened Primes
  import opened Polynomials
  import opened Wrappers

  function Half(p: int): int { (p - 1) / 2 }

  /** scripts/util.py invert_mod: pow(a, -1, p) raises when a is a multiple of p. */
  function InvertMod(a: int, p: int): (r: Option<int>)
    requires IsPrime(p)
    ensures r.Some? <==> !Divides(p, a)
    ensures r.Some? ==> 0 < r.value < p && Cong(p, a * r.value, 1)
  {
    if a % p == 0 then None
    else
      var y := InverseSmall(a % p, p);
      ReducedInverse(p, a, y);
      Some(y)
  }

  lemma ReducedInverse(p: int, a: int, y: int)
    requires p > 0 && Cong(p, (a % p) * y, 1)
    ensures Cong(p, a * y, 1)
  {
    ModCong(p, a);
    Lin2(p, a * y - 1, y, a - a % p, 1, (a % p) * y - 1);
  }

  /** scripts/util.py legendre_symbol. */
  function Legendre(a: int, p: int): int
    requires p > 1
  {
    if a % p == 0 then 0
    else
      var ls := Pow(a, Half(p)) % p;
      if ls == p - 1 then -1 else ls
  }

  /** scripts/util.py is_quadratic_residue. */
  predicate IsQuadraticResidue(a: int, p: int)
    requires p > 1
  {
    Legendre(a, p) == 1
  }

  predicate IsRoot(p: int, a: int, x: int)
    requires p > 0
  {
    Cong(p, x * x, a)
  }

  /** a is a nonzero square modulo p. */
  ghost predicate NonzeroSquare(p: int, a: int)
    requires p > 0
  {
    !Divides(p, a) && exists x :: IsRoot(p, a, x)
  }

  // ------------------------------------------------------------------ square roots of 1

  lemma RootsOfOne(p: int, x: int)
    requires IsPrime(p) && Cong(p, x * x, 1)
    ensures Cong(p, x, 1) || Cong(p, x, -1)
  {
    assert x * x - 1 == (x - 1) * (x + 1);
    Euclid(p, x - 1, x + 1);
  }

  lemma OneIsNotMinusOne(p: int, x: int)
    requires OddPrime(p)
    ensures !(Cong(p, x, 1) && Cong(p, x, -1))
  {
    if Cong(p, x, 1) && Cong(p, x, -1) {
      Lin2(p, 2, 1, x - -1, -1, x - 1);
      SmallMultiple(p, 2);
    }
  }

  lemma HalfPower(p: int, a: int)
    requires OddPrime(p) && !Divides(p, a)
    ensures Cong(p, Pow(a, Half(p)), 1) || Cong(p, Pow(a, Half(p)), -1)
  {
    var h := Half(p);
    assert h + h == p - 1;
    PowAdd(a, h, h);
    Fermat(p, a);
    RootsOfOne(p, Pow(a, h));
  }

  /** The symbol read off from the half power. */
  lemma LegendreMeaning(p: int, a: int)
    requires OddPrime(p)
    ensures Legendre(a, p) == 0 <==> Divides(p, a)
    ensures Legendre(a, p) == 1 <==> !Divides(p, a) && Cong(p, Pow(a, Half(p)), 1)
    ensures Legendre(a, p) == -1 <==> !Divides(p, a) && Cong(p, Pow(a, Half(p)), -1)
    ensures -1 <= Legendre(a, p) <= 1
  {
    hide Pow;
    var x := Pow(a, Half(p));
    OneIsNotMinusOne(p, x);
    OneResidue(p, x);
    MinusOneResidue(p, x);
    if !Divides(p, a) {
      HalfPower(p, a);
    }
  }

  lemma OneResidue(p: int, x: int)
    requires IsPrime(p)
    ensures Cong(p, x, 1) <==> x % p == 1
  {
    CongIffSameResidue(p, x, 1);
    assert 1 % p == 1;
  }

  lemma MinusOneResidue(p: int, x: int)
    requires IsPrime(p)
    ensures Cong(p, x, -1) <==> x % p == p - 1
  {
    MultipleDivides(p, 1);
    assert p - 1 - -1 == 1 * p;
    ReducedIsResidue(p, p - 1, -1);
    CongIffSameResidue(p, x, -1);
  }

  // ------------------------------------------------------------------ Euler's criterion

  /** Coefficients of X^h - 1, leading term first. */
  ghost function PowerMinusOne(h: int): seq<int>
    requires h > 0
  {
    seq(h + 1, j => if j == 0 then 1 else if j == h then -1 else 0)
  }

  lemma {:induction false} LeadingPower(h: int, k: int, x: int)
    requires 0 < k <= h
    ensures Hi(PowerMinusOne(h)[..k], x) == Pow(x, k - 1)
    decreases k
  {
    var s := PowerMinusOne(h);
    assert s[..k][..k - 1] == s[..k - 1];
    if k > 1 {
      LeadingPower(h, k - 1, x);
    }
  }

  lemma PowerMinusOneValue(h: int, x: int)
    requires h > 0
    ensures Hi(PowerMinusOne(h), x) == Pow(x, h) - 1
  {
    var s := PowerMinusOne(h);
    LeadingPower(h, h, x);
    assert Pow(x, h) == x * Pow(x, h - 1);
  }

  /** X^h - 1 cannot have h + 1 distinct roots. */
  lemma TooManyRoots(p: int, h: int, xs: seq<int>)
    requires IsPrime(p) && h > 0 && |xs| == h + 1 && DistinctMod(p, xs)
    ensures exists k :: 0 <= k < |xs| && !Cong(p, Pow(xs[k], h), 1)
  {
    if forall k :: 0 <= k < |xs| ==> Cong(p, Pow(xs[k], h), 1) {
      var s := PowerMinusOne(h);
      forall k | 0 <= k < |xs|
        ensures Divides(p, Hi(s, xs[k]))
      {
        PowerMinusOneValue(h, xs[k]);
      }
      RootCount(p, s, xs);
      assert s[0] == 1;
      OneNonzero(p);
    }
  }

  lemma SquareHasHalfPowerOne(p: int, a: int)
    requires OddPrime(p) && NonzeroSquare(p, a)
    ensures Cong(p, Pow(a, Half(p)), 1)
  {
    var h := Half(p);
    var x :| IsRoot(p, a, x);
    if Divides(p, x) {
      Lin2(p, a, x, x, -1, x * x - a);
    }
    Fermat(p, x);
    PowAdd(x, h, h);
    PowProduct(x, x, h);
    CongSym(p, x * x, a);
    PowCong(p, a, x * x, h);
    CongTrans(p, Pow(a, h), Pow(x * x, h), 1);
  }

  lemma DistinctSquares(p: int, i: int, j: int)
    requires IsPrime(p) && 0 < i < j && i + j < p
    ensures !Cong(p, i * i, j * j)
  {
    if Cong(p, i * i, j * j) {
      assert i * i - j * j == (i - j) * (i + j);
      Euclid(p, i - j, i + j);
      if Divides(p, i - j) { SmallMultiple(p, i - j); } else { SmallMultiple(p, i + j); }
    }
  }

  /** The squares 1, 4, ..., h*h followed by a. */
  ghost function SquaresAnd(h: int, a: int): seq<int>
    requires h >= 0
  {
    seq(h + 1, k => if k < h then (k + 1) * (k + 1) else a)
  }

  lemma HalfPowerOneIsSquare(p: int, a: int)
    requires OddPrime(p) && !Divides(p, a) && Cong(p, Pow(a, Half(p)), 1)
    ensures NonzeroSquare(p, a)
  {
    if !NonzeroSquare(p, a) {
      var h := Half(p);
      var xs := SquaresAnd(h, a);
      assert DistinctMod(p, xs) by {
        forall i, j | 0 <= i < j < |xs|
          ensures !Cong(p, xs[i], xs[j])
        {
          if j < h {
            DistinctSquares(p, i + 1, j + 1);
          } else {
            assert !IsRoot(p, a, i + 1);
          }
        }
      }
      TooManyRoots(p, h, xs);
      var k :| 0 <= k < |xs| && !Cong(p, Pow(xs[k], h), 1);
      if k < h {
        SmallSquare(p, k + 1);
      }
    }
  }

  lemma SmallSquare(p: int, k: int)
    requires OddPrime(p) && 0 < k < p
    ensures Cong(p, Pow(k * k, Half(p)), 1)
  {
    if Divides(p, k) { SmallMultiple(p, k); }
    NonzeroProduct(p, k, k);
    MultipleDivides(p, 0);
    assert IsRoot(p, k * k, k);
    SquareHasHalfPowerOne(p, k * k);
  }

  /** Euler's criterion: the symbol is 1 exactly on the nonzero squares. */
  lemma EulerCriterion(p: int, a: int)
    requires OddPrime(p)
    ensures IsQuadraticResidue(a, p) <==> NonzeroSquare(p, a)
  {
    LegendreMeaning(p, a);
    if NonzeroSquare(p, a) { SquareHasHalfPowerOne(p, a); }
    if IsQuadraticResidue(a, p) { HalfPowerOneIsSquare(p, a); }
  }

  /** Some number below p has symbol -1, so a search from 2 upwards ends. */
  lemma NonResidueExists(p: int) returns (w: int)
    requires OddPrime(p)
    ensures 2 <= w < p && Legendre(w, p) == -1
  {
    var h := Half(p);
    var xs := seq(h + 1, k => k + 1);
    assert DistinctMod(p, xs) by {
      forall i, j | 0 <= i < j < |xs|
        ensures !Cong(p, xs[i], xs[j])
      {
        if Cong(p, xs[i], xs[j]) { SmallMultiple(p, i - j); }
      }
    }
    TooManyRoots(p, h, xs);
    var k :| 0 <= k < |xs| && !Cong(p, Pow(xs[k], h), 1);
    w := k + 1;
    if Divides(p, w) { SmallMultiple(p, w); }
    LegendreMeaning(p, w);
    if w == 1 {
      PowOfOne(h);
      MultipleDivides(p, 0);
    }
  }

  // ------------------------------------------------------------------ multiplicativity

  lemma LegendreProduct(p: int, a: int, b: int)
    requires OddPrime(p)
    ensures Legendre(a * b, p) == Legendre(a, p) * Legendre(b, p)
  {
    hide Legendre, Pow;
    LegendreMeaning(p, a);
    LegendreMeaning(p, b);
    LegendreMeaning(p, a * b);
    if Divides(p, a) {
      Lin1(p, a * b, b, a);
    } else if Divides(p, b) {
      Lin1(p, a * b, a, b);
    } else {
      NonzeroProduct(p, a, b);
      var h, s, t := Half(p), Legendre(a, p), Legendre(b, p);
      PowProduct(a, b, h);
      CongMul(p, Pow(a, h), s, Pow(b, h), t);
      assert s * t == if s == t then 1 else -1;
    }
  }

  lemma LegendreCong(p: int, a: int, b: int)
    requires OddPrime(p) && Cong(p, a, b)
    ensures Legendre(a, p) == Legendre(b, p)
  {
    CongIffSameResidue(p, a, b);
    PowCong(p, a, b, Half(p));
    CongIffSameResidue(p, Pow(a, Half(p)), Pow(b, Half(p)));
  }

  lemma LegendreSquare(p: int, x: int)
    requires OddPrime(p) && !Divides(p, x)
    ensures Legendre(x * x, p) == 1
  {
    LegendreProduct(p, x, x);
    LegendreMeaning(p, x);
  }

  lemma MinusOneSymbol(p: int)
    requires OddPrime(p) && p % 4 == 3
    ensures Legendre(-1, p) == -1
  {
    hide Legendre, Pow;
    OneNonzero(p);
    LegendreMeaning(p, -1);
    OddHalf(p);
    OddPowerOfMinusOne(Half(p));
    MultipleDivides(p, 0);
  }

  lemma OddHalf(p: int)
    requires p > 0 && p % 4 == 3
    ensures Half(p) > 0 && Half(p) % 2 == 1
  {
    assert p == 4 * (p / 4) + 3;
  }

  lemma {:induction false} OddPowerOfMinusOne(e: int)
    requires e > 0 && e % 2 == 1
    ensures Pow(-1, e) == -1
    decreases e
  {
    if e > 1 {
      OddPowerOfMinusOne(e - 2);
      assert Pow(-1, e) == -1 * Pow(-1, e - 1) == -1 * (-1 * Pow(-1, e - 2));
    }
  }

  lemma LegendreNegative(p: int, x: int)
    requires OddPrime(p) && p % 4 == 3
    ensures Legendre(-x, p) == -Legendre(x, p)
  {
    MinusOneSymbol(p);
    LegendreProduct(p, -1, x);
    assert -1 * x == -x;
  }
}
