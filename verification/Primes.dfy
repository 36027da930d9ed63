/** Primes: Euclid's lemma, modular inverses, powers and Fermat's little theorem. */
module Primes {
  import opened ModArith

  ghost predicate IsPrime(p: int) {
    p >= 2 && forall m :: 2 <= m < p ==> !Divides(m, p)
  }

  ghost predicate OddPrime(p: int) {
    IsPrime(p) && p % 2 == 1
  }

  /** Euclid's lemma, by descent on the smaller factor. */
  lemma {:induction false} EuclidSmall(p: int, x: int, y: int)
    requires IsPrime(p) && 0 < x < p && Divides(p, x * y)
    ensures Divides(p, y)
    decreases x
  {
    if x > 1 {
      var q, r := p / x, p % x;
      assert p == q * x + r;
      assert !Divides(x, p);
      Lin2(p, r * y, y, p, -q, x * y) by {
        assert y * p == q * (x * y) + r * y by {
          assert y * p == y * (q * x + r);
        }
        assert Divides(p, p) by { MultipleDivides(p, 1); }
      }
      EuclidSmall(p, r, y);
    }
  }

  /** A prime that divides a product divides a factor: the residues have no zero divisors. */
  lemma Euclid(p: int, x: int, y: int)
    requires IsPrime(p) && Divides(p, x * y)
    ensures Divides(p, x) || Divides(p, y)
  {
    if !Divides(p, x) {
      ModCong(p, x);
      var r := x % p;
      Lin2(p, r * y, 1, x * y, y, r - x);
      EuclidSmall(p, r, y);
    }
  }

  /** Nonzero common factors cancel. */
  lemma Cancel(p: int, c: int, x: int, y: int)
    requires IsPrime(p) && !Divides(p, c) && Cong(p, c * x, c * y)
    ensures Cong(p, x, y)
  {
    assert c * x - c * y == c * (x - y);
    Euclid(p, c, x - y);
  }

  lemma NonzeroProduct(p: int, x: int, y: int)
    requires IsPrime(p) && !Divides(p, x) && !Divides(p, y)
    ensures !Divides(p, x * y)
  {
    if Divides(p, x * y) {
      Euclid(p, x, y);
    }
  }

  lemma OneNonzero(p: int)
    requires IsPrime(p)
    ensures !Divides(p, 1) && !Divides(p, -1)
  {
    if Divides(p, 1) { SmallMultiple(p, 1); }
    if Divides(p, -1) { SmallMultiple(p, -1); }
  }

  lemma ProperRemainder(p: int, x: int)
    requires IsPrime(p) && 1 < x < p
    ensures 0 < p % x < x && p == (p / x) * x + p % x
  {
    assert !Divides(x, p);
  }

  /** The inverse of a residue in 1..p-1, by p == q*x + r and x^-1 == -q * r^-1. */
  function InverseSmall(x: int, p: int): (y: int)
    requires IsPrime(p) && 0 < x < p
    ensures 0 < y < p && Cong(p, x * y, 1)
    decreases x
  {
    if x == 1 then
      assert Divides(p, 0) by { MultipleDivides(p, 0); }
      1
    else
      var q, r := p / x, p % x;
      ProperRemainder(p, x);
      var z := InverseSmall(r, p);
      InverseStep(p, x, q, r, z);
      (-q * z) % p
  }

  lemma InverseStep(p: int, x: int, q: int, r: int, z: int)
    requires IsPrime(p) && 1 < x < p && p == q * x + r && Cong(p, r * z, 1)
    ensures 0 < (-q * z) % p < p && Cong(p, x * ((-q * z) % p), 1)
  {
    ModCong(p, -q * z);
    MultipleDivides(p, z);
    InverseCombines(p, x, q, r, z, (-q * z) % p);
    if (-q * z) % p == 0 {
      OneNonzero(p);
    }
  }

  lemma InverseCombines(p: int, x: int, q: int, r: int, z: int, y: int)
    requires p > 0 && p == q * x + r && Cong(p, r * z, 1) && Cong(p, y, -q * z) && Divides(p, z * p)
    ensures Cong(p, x * y, 1)
  {
    InverseIdentity(p, x, q, r, z, y);
    Lin3(p, x * y - 1, x, y - -q * z, 1, r * z - 1, -1, z * p);
  }

  lemma InverseIdentity(p: int, x: int, q: int, r: int, z: int, y: int)
    requires p == q * x + r
    ensures x * y - 1 == x * (y - -q * z) + 1 * (r * z - 1) + -1 * (z * p)
  {
    assert z * p == z * (q * x) + z * r;
    assert z * (q * x) == x * (q * z);
    assert x * (y - -q * z) == x * y + x * (q * z);
  }

  // ------------------------------------------------------------------ powers

  function Pow(b: int, e: nat): int
    decreases e
  {
    if e == 0 then 1 else b * Pow(b, e - 1)
  }

  lemma {:induction false} PowAdd(b: int, d: nat, e: nat)
    ensures Pow(b, d + e) == Pow(b, d) * Pow(b, e)
    decreases d
  {
    if d > 0 {
      PowAdd(b, d - 1, e);
      assert Pow(b, d + e) == b * Pow(b, d - 1 + e);
    }
  }

  lemma MulExchange(w: int, x: int, y: int, z: int)
    ensures (w * x) * (y * z) == (w * y) * (x * z)
  {
    assert (w * x) * (y * z) == w * (x * (y * z)) == w * (y * (x * z));
  }

  lemma {:induction false} PowProduct(x: int, y: int, e: nat)
    ensures Pow(x * y, e) == Pow(x, e) * Pow(y, e)
    decreases e
  {
    if e > 0 {
      PowProduct(x, y, e - 1);
      MulExchange(x, y, Pow(x, e - 1), Pow(y, e - 1));
    }
  }

  lemma {:induction false} PowCong(p: int, x: int, y: int, e: nat)
    requires p > 0 && Cong(p, x, y)
    ensures Cong(p, Pow(x, e), Pow(y, e))
    decreases e
  {
    if e == 0 {
      MultipleDivides(p, 0);
    } else {
      PowCong(p, x, y, e - 1);
      CongMul(p, x, y, Pow(x, e - 1), Pow(y, e - 1));
    }
  }

  lemma {:induction false} PowOfOne(e: nat)
    ensures Pow(1, e) == 1
    decreases e
  {
    if e > 0 { PowOfOne(e - 1); }
  }

  // ------------------------------------------------------------------ Fermat

  /** The product of the members of s that lie in 1..n. */
  ghost function Product(s: set<int>, n: nat): int {
    if n == 0 then 1 else Product(s, n - 1) * (if n in s then n else 1)
  }

  lemma {:induction false} ProductInsert(s: set<int>, n: nat, x: int)
    requires 1 <= x <= n && x !in s
    ensures Product(s + {x}, n) == Product(s, n) * x
  {
    if x < n {
      ProductInsert(s, n - 1, x);
      var f := if n in s then n else 1;
      assert n in s <==> n in s + {x};
      assert Product(s, n - 1) * x * f == Product(s, n - 1) * f * x;
    } else {
      ProductBelow(s, s + {x}, n - 1);
    }
  }

  lemma {:induction false} ProductBelow(s: set<int>, t: set<int>, n: nat)
    requires forall i :: 1 <= i <= n ==> (i in s <==> i in t)
    ensures Product(s, n) == Product(t, n)
  {
    if n > 0 { ProductBelow(s, t, n - 1); }
  }

  /** The residues of x, 2x, ..., kx. */
  ghost function Multiples(p: int, x: int, k: nat): set<int>
    requires p > 0
  {
    if k == 0 then {} else Multiples(p, x, k - 1) + {(x * k) % p}
  }

  ghost function Range(n: nat): (s: set<int>)
    ensures forall i :: i in s <==> 1 <= i <= n
    ensures |s| == n
  {
    if n == 0 then {} else Range(n - 1) + {n}
  }

  lemma {:induction false} ProductOfMultiples(p: int, x: int, k: nat)
    requires IsPrime(p) && !Divides(p, x) && k < p
    ensures |Multiples(p, x, k)| == k && Multiples(p, x, k) <= Range(p - 1)
    ensures Cong(p, Product(Multiples(p, x, k), p - 1), Pow(x, k) * Product(Range(k), k))
    decreases k
  {
    if k == 0 {
      EmptyProduct(p - 1);
      MultipleDivides(p, 0);
    } else {
      ProductOfMultiples(p, x, k - 1);
      MultiplesStep(p, x, k);
      FactorialStep(k);
      ScaleStep(p, Product(Multiples(p, x, k - 1), p - 1), Pow(x, k - 1), Product(Range(k - 1), k - 1), x, k);
    }
  }

  lemma MultiplesStep(p: int, x: int, k: int)
    requires IsPrime(p) && !Divides(p, x) && 1 <= k < p
    requires Multiples(p, x, k - 1) <= Range(p - 1)
    ensures |Multiples(p, x, k)| == |Multiples(p, x, k - 1)| + 1 && Multiples(p, x, k) <= Range(p - 1)
    ensures Product(Multiples(p, x, k), p - 1) == Product(Multiples(p, x, k - 1), p - 1) * ((x * k) % p)
  {
    var s, y := Multiples(p, x, k - 1), (x * k) % p;
    MultipleIsNew(p, x, k, k - 1);
    if Divides(p, k) { SmallMultiple(p, k); }
    NonzeroProduct(p, x, k);
    ProductInsert(s, p - 1, y);
  }

  lemma ScaleStep(p: int, w: int, u: int, v: int, x: int, k: int)
    requires p > 0 && Cong(p, w, u * v)
    ensures Cong(p, w * ((x * k) % p), (x * u) * (v * k))
  {
    ModCong(p, x * k);
    CongMul(p, w, u * v, (x * k) % p, x * k);
    MulExchange(u, v, x, k);
  }

  lemma FactorialStep(k: nat)
    requires k > 0
    ensures Product(Range(k), k) == Product(Range(k - 1), k - 1) * k
  {
    ProductBelow(Range(k), Range(k - 1), k - 1);
  }

  lemma {:induction false} EmptyProduct(n: nat)
    ensures Product({}, n) == 1
  {
    if n > 0 { EmptyProduct(n - 1); }
  }

  lemma {:induction false} MultipleIsNew(p: int, x: int, k: int, j: nat)
    requires IsPrime(p) && !Divides(p, x) && j < k < p
    ensures (x * k) % p !in Multiples(p, x, j)
    decreases j
  {
    if j > 0 {
      MultipleIsNew(p, x, k, j - 1);
      if (x * j) % p == (x * k) % p {
        CongIffSameResidue(p, x * j, x * k);
        Cancel(p, x, j, k);
        SmallMultiple(p, j - k);
      }
    }
  }

  lemma SubsetOfEqualSize(s: set<int>, t: set<int>)
    requires s <= t && |s| == |t|
    ensures s == t
  {
    var d := t - s;
    assert t == s + d;
    assert |t| == |s| + |d|;
  }

  lemma {:induction false} FactorialNonzero(p: int, n: nat)
    requires IsPrime(p) && n < p
    ensures !Divides(p, Product(Range(n), n))
  {
    if n == 0 {
      OneNonzero(p);
    } else {
      FactorialNonzero(p, n - 1);
      FactorialStep(n);
      if Divides(p, n) { SmallMultiple(p, n); }
      NonzeroProduct(p, Product(Range(n - 1), n - 1), n);
    }
  }

  lemma CancelFactor(p: int, f: int, y: int)
    requires IsPrime(p) && !Divides(p, f) && Cong(p, f, y * f)
    ensures Cong(p, y, 1)
  {
    CongSym(p, f, y * f);
    assert f * y == y * f && f * 1 == f;
    Cancel(p, f, y, 1);
  }

  /** Fermat's little theorem. */
  lemma Fermat(p: int, x: int)
    requires IsPrime(p) && !Divides(p, x)
    ensures Cong(p, Pow(x, p - 1), 1)
  {
    ProductOfMultiples(p, x, p - 1);
    SubsetOfEqualSize(Multiples(p, x, p - 1), Range(p - 1));
    FactorialNonzero(p, p - 1);
    CancelFactor(p, Product(Range(p - 1), p - 1), Pow(x, p - 1));
  }
}
