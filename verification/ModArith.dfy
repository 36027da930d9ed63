/** Congruence arithmetic. `Divides(p, e)` is the only notion of "zero mod p" used in the
    project. Algebraic facts are proved by certificates: an integer identity that writes the
    goal as a combination of terms already known to be multiples of `p`. */
module ModArith {

  predicate Divides(p: int, e: int)
    requires p != 0
  {
    e % p == 0
  }

  /** x and y are equal modulo p. */
  predicate Cong(p: int, x: int, y: int)
    requires p > 0
  {
    Divides(p, x - y)
  }

  lemma MultipleDivides(p: int, k: int)
    requires p > 0
    ensures Divides(p, k * p)
  {
    var q, r := (k * p) / p, (k * p) % p;
    assert (k - q) * p == r;
    assert k - q >= 1 ==> (k - q) * p >= p;
    assert k - q <= -1 ==> (k - q) * p <= -p;
  }

  lemma Lin1(p: int, e: int, c1: int, h1: int)
    requires p > 0 && Divides(p, h1)
    requires e == c1 * h1
    ensures Divides(p, e)
  {
    var k1 := h1 / p;
    assert h1 == k1 * p;
    assert e == (c1 * k1) * p;
    MultipleDivides(p, c1 * k1);
  }

  lemma Sum2(p: int, x: int, y: int)
    requires p > 0 && Divides(p, x) && Divides(p, y)
    ensures Divides(p, x + y)
  {
    assert x + y == (x / p + y / p) * p;
    MultipleDivides(p, x / p + y / p);
  }

  lemma Lin2(p: int, e: int, c1: int, h1: int, c2: int, h2: int)
    requires p > 0 && Divides(p, h1) && Divides(p, h2)
    requires e == c1 * h1 + c2 * h2
    ensures Divides(p, e)
  {
    Lin1(p, c1 * h1, c1, h1);
    Lin1(p, c2 * h2, c2, h2);
    Sum2(p, c1 * h1, c2 * h2);
  }

  lemma Lin3(p: int, e: int, c1: int, h1: int, c2: int, h2: int, c3: int, h3: int)
    requires p > 0 && Divides(p, h1) && Divides(p, h2) && Divides(p, h3)
    requires e == c1 * h1 + c2 * h2 + c3 * h3
    ensures Divides(p, e)
  {
    Lin2(p, c1 * h1 + c2 * h2, c1, h1, c2, h2);
    Lin2(p, e, 1, c1 * h1 + c2 * h2, c3, h3);
  }

  lemma Lin4(p: int, e: int, c1: int, h1: int, c2: int, h2: int, c3: int, h3: int, c4: int, h4: int)
    requires p > 0 && Divides(p, h1) && Divides(p, h2) && Divides(p, h3) && Divides(p, h4)
    requires e == c1 * h1 + c2 * h2 + c3 * h3 + c4 * h4
    ensures Divides(p, e)
  {
    Lin2(p, c1 * h1 + c2 * h2, c1, h1, c2, h2);
    Lin3(p, e, 1, c1 * h1 + c2 * h2, c3, h3, c4, h4);
  }

  lemma SmallMultiple(p: int, e: int)
    requires p > 0 && Divides(p, e) && -p < e < p
    ensures e == 0
  {
    var k := e / p;
    assert e == k * p;
    assert k >= 1 ==> k * p >= p;
    assert k <= -1 ==> k * p <= -p;
  }

  /** Reducing does not change the residue class. */
  lemma ModCong(p: int, x: int)
    requires p > 0
    ensures Cong(p, x % p, x) && Cong(p, x, x % p)
  {
    assert x - x % p == (x / p) * p;
    assert x % p - x == -(x / p) * p;
    MultipleDivides(p, x / p);
    MultipleDivides(p, -(x / p));
  }

  lemma CongIffSameResidue(p: int, x: int, y: int)
    requires p > 0
    ensures Cong(p, x, y) <==> x % p == y % p
  {
    ModCong(p, x);
    ModCong(p, y);
    if Cong(p, x, y) {
      Lin3(p, x % p - y % p, 1, x % p - x, 1, x - y, 1, y - y % p);
      SmallMultiple(p, x % p - y % p);
    }
    if x % p == y % p {
      Lin2(p, x - y, 1, x - x % p, 1, y % p - y);
    }
  }

  lemma ReducedIsResidue(p: int, r: int, x: int)
    requires p > 0 && 0 <= r < p && Cong(p, r, x)
    ensures r == x % p
  {
    CongIffSameResidue(p, r, x);
    assert r % p == r;
  }

  lemma CongSym(p: int, x: int, y: int)
    requires p > 0 && Cong(p, x, y)
    ensures Cong(p, y, x)
  {
    Lin1(p, y - x, -1, x - y);
  }

  lemma CongTrans(p: int, x: int, y: int, z: int)
    requires p > 0 && Cong(p, x, y) && Cong(p, y, z)
    ensures Cong(p, x, z)
  {
    Lin2(p, x - z, 1, x - y, 1, y - z);
  }

  lemma CongAdd(p: int, x: int, x': int, y: int, y': int)
    requires p > 0 && Cong(p, x, x') && Cong(p, y, y')
    ensures Cong(p, x + y, x' + y') && Cong(p, x - y, x' - y')
  {
    Lin2(p, (x + y) - (x' + y'), 1, x - x', 1, y - y');
    Lin2(p, (x - y) - (x' - y'), 1, x - x', -1, y - y');
  }

  lemma CongMul(p: int, x: int, x': int, y: int, y': int)
    requires p > 0 && Cong(p, x, x') && Cong(p, y, y')
    ensures Cong(p, x * y, x' * y')
  {
    Lin2(p, x * y - x' * y', y, x - x', x', y - y');
  }
}
