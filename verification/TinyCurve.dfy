/** The curve y^2 == x^3 + x + 6 over the field of 7 elements, on which both exceptional abscissas occur. */
module TinyCurve {
  import opened ModArith
  import opened Primes
  import opened Residues
  import opened Curves
  import opened Elligator
  import opened Inversion
  import opened EncodeC
  import opened Wrappers

  const TINY := Curve(7, 1, 6)

  lemma SevenIsPrime()
    ensures OddPrime(7)
  {
    forall m | 2 <= m < 7
      ensures !Divides(m, 7)
    {
      assert m == 2 || m == 3 || m == 4 || m == 5 || m == 6;
    }
  }

  lemma NoRoot(x: int)
    ensures !Divides(7, TINY.Cubic(x))
  {
    var r := x % 7;
    ModCong(7, x);
    CubicCong(TINY, x, r);
    DividesCong(7, TINY.Cubic(x), TINY.Cubic(r));
    SmallCubics();
    assert r == 0 || r == 1 || r == 2 || r == 3 || r == 4 || r == 5 || r == 6;
  }

  lemma SmallCubics()
    ensures TINY.Cubic(0) == 6 && TINY.Cubic(1) == 8 && TINY.Cubic(2) == 16 && TINY.Cubic(3) == 36
    ensures TINY.Cubic(4) == 74 && TINY.Cubic(5) == 136 && TINY.Cubic(6) == 228
  {
  }

  lemma TinyIsValid()
    ensures EncodingCurve(TINY)
  {
    hide TINY.Cubic;
    SevenIsPrime();
    forall x
      ensures !Divides(7, TINY.Cubic(x))
    {
      NoRoot(x);
    }
  }

  lemma SmallOmegas()
    ensures EncodingCurve(TINY) && Omega(TINY, 4) == 4 && Omega(TINY, 1) == 0
  {
    TinyIsValid();
    assert InvertMod(6, 7) == Some(6);
  }

  lemma SmallPoints()
    ensures TINY.OnCurve(Affine(4, 2)) && TINY.OnCurve(Affine(1, 1)) && Legendre(2, 7) == 1
  {
    hide TINY.Cubic;
    SmallCubics();
    assert Pow(2, 3) == 8;
  }

  /** (4, 2) is f(2), yet calc_v of the Python code finds no preimage of it. */
  lemma MissedPreimage(j: int)
    ensures EncodingCurve(TINY)
    ensures F(TINY, 2) == Ok(Affine(4, 2)) && CalcV(TINY, Affine(4, 2), j) == None
  {
    hide F, CalcV, Omega, Legendre, Discriminant, TINY.Cubic, TINY.OnCurve;
    SmallOmegas();
    SmallPoints();
    var q := Affine(4, 2);
    FoldedPreimage(TINY, q, 2);
    ZeroDiscriminant(TINY, q);
    NothingFound(TINY, q, j);
  }

  /** calc_v of the C code returns 0 for (1, 1), and f(0) is infinity. */
  lemma SpuriousPreimage()
    ensures EncodingCurve(TINY) && TINY.OnCurve(Affine(1, 1))
    ensures CalcVC(TINY, Affine(1, 1), 0) == Some(0) && FC(TINY, 0) == Some(Infinity)
  {
    hide CalcVC, Omega, TINY.Cubic, TINY.OnCurve;
    SmallOmegas();
    SmallPoints();
    SpuriousValue(TINY, Affine(1, 1), 0);
  }

  /** For the same point and j == 1 the value is the modulus itself, and f maps that back to (1, 1): a direct decode
      succeeds where a reduced one does not. */
  lemma ModulusAsPreimage()
    ensures EncodingCurve(TINY)
    ensures CalcVC(TINY, Affine(1, 1), 1) == Some(7) && FC(TINY, 7) == Some(Affine(1, 1))
  {
    hide CalcVC, FC, Omega, TINY.Cubic, TINY.OnCurve;
    SmallOmegas();
    SmallPoints();
    assert Legendre(1, 7) == 1 by { assert Pow(1, 3) == 1; }
    hide Legendre;
    SpuriousValue(TINY, Affine(1, 1), 1);
    FAtPrime(TINY, Affine(1, 1));
  }
}
