/**
 Real arithmetic shared by the numerical kernels. Product is multiplication under
 a name, so that proofs can treat a product as one term.
 */
module Numeric {

  function Abs(x: real): (y: real)
    ensures y >= 0.0 && (y == x || y == -x)
  {
    if x < 0.0 then -x else x
  }

  function Product(a: real, b: real): real { a * b }

  ghost predicate Increasing(x: seq<real>) {
    forall i, j :: 0 <= i < j < |x| ==> x[i] < x[j]
  }

  lemma Distributes(p: real, a: real, b: real)
    ensures Product(p, a + b) == Product(p, a) + Product(p, b)
  {
  }

  lemma Commutes(a: real, b: real)
    ensures Product(a, b) == Product(b, a)
  {
  }

  lemma WithZeroAndOne(a: real)
    ensures Product(a, 0.0) == 0.0 == Product(0.0, a) && Product(a, 1.0) == a == Product(1.0, a)
  {
  }

  lemma ZeroFactor(t: real, z: real)
    requires t != 0.0 && Product(t, z) == 0.0
    ensures z == 0.0
  {
  }

  /** A reciprocal undone by its own reciprocal. */
  lemma Reciprocal(t: real, y: real)
    requires Product(t, y) == 1.0
    ensures t != 0.0 && y != 0.0 && 1.0 / t == y
  {
    assert t != 0.0 && y != 0.0;
    var z := 1.0 / t;
    assert z * t == 1.0;
    assert z == z * (t * y) == (z * t) * y;
  }

  lemma QuotientTimes(a: real, t: real)
    requires t != 0.0
    ensures Product(a / t, t) == a == Product(t, a / t)
  {
  }

  /**
   One row of a tridiagonal system. Given the eliminated row before it, the row
   a m0 + b m1 + c m2 == d holds when its eliminated form does, and only then for a nonzero pivot.
   */
  lemma TridiagonalRow(a: real, b: real, c: real, d: real, c0: real, d0: real, c1: real, d1: real, m0: real, m1: real, m2: real)
    requires m0 == d0 - Product(c0, m1)
    requires Product(c1, b - Product(a, c0)) == c && Product(d1, b - Product(a, c0)) == d - Product(a, d0)
    ensures m1 == d1 - Product(c1, m2) ==> Product(a, m0) + Product(b, m1) + Product(c, m2) == d
    ensures b - Product(a, c0) != 0.0 && Product(a, m0) + Product(b, m1) + Product(c, m2) == d ==> m1 == d1 - Product(c1, m2)
  {
    var t := b - a * c0;
    assert a * m0 == a * d0 - a * c0 * m1;
    assert a * m0 + b * m1 == a * d0 + t * m1;
    assert c * m2 == t * (c1 * m2);
    assert a * m0 + b * m1 + c * m2 - d == t * (m1 + c1 * m2 - d1);
    if t != 0.0 && a * m0 + b * m1 + c * m2 == d { ZeroFactor(t, m1 + c1 * m2 - d1); }
  }
}
