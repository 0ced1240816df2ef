/**
 Real matrices as total functions from (row, column), and the finite algebra
 the numerical kernels are specified with: inner products, products,
 row and column exchanges, and what it means to be an inverse.
 */
module MatrixAlgebra {

  type Mat = (int, int) -> real

  /** The contents of a row-major array, as a value that no later write changes. */
  ghost function View(A: array2<real>): (m: Mat)
    reads A
    ensures forall i, j {:trigger m(i, j)} :: 0 <= i < A.Length0 && 0 <= j < A.Length1 ==> m(i, j) == A[i, j]
  {
    var rows := seq(A.Length0, i requires 0 <= i < A.Length0 reads A =>
                      seq(A.Length1, j requires 0 <= j < A.Length1 reads A => A[i, j]));
    (i, j) => if 0 <= i < |rows| && 0 <= j < |rows[i]| then rows[i][j] else 0.0
  }

  ghost predicate Same(n: nat, a: Mat, b: Mat) {
    forall i, j :: 0 <= i < n && 0 <= j < n ==> a(i, j) == b(i, j)
  }

  /** Sum of a(i,k) * b(k,j) for lo <= k < hi. */
  ghost function Dot(a: Mat, b: Mat, i: int, j: int, lo: int, hi: int): real
    decreases hi - lo
  {
    if hi <= lo then 0.0 else Dot(a, b, i, j, lo, hi - 1) + a(i, hi - 1) * b(hi - 1, j)
  }

  ghost function Mul(n: nat, a: Mat, b: Mat): Mat {
    (i, j) => Dot(a, b, i, j, 0, n)
  }

  ghost function Identity(): Mat {
    (i, j) => if i == j then 1.0 else 0.0
  }

  ghost predicate LeftInverse(n: nat, x: Mat, b: Mat) {
    forall i, j :: 0 <= i < n && 0 <= j < n ==> Dot(x, b, i, j, 0, n) == if i == j then 1.0 else 0.0
  }

  /** x is the two-sided inverse of b. */
  ghost predicate IsInverse(n: nat, x: Mat, b: Mat) {
    LeftInverse(n, x, b) && LeftInverse(n, b, x)
  }

  /** The columns of b are linearly dependent: b sends the nonzero vector v to zero. */
  ghost predicate Kills(n: nat, b: Mat, v: int -> real) {
    && (exists k :: 0 <= k < n && v(k) != 0.0)
    && forall i :: 0 <= i < n ==> Dot(b, Column(v), i, 0, 0, n) == 0.0
  }

  ghost predicate SingularMatrix(n: nat, b: Mat) {
    exists v: int -> real :: Kills(n, b, v)
  }

  ghost function Column(v: int -> real): Mat {
    (i, j) => v(i)
  }

  lemma {:induction false} DotCongruence(a: Mat, b: Mat, a': Mat, b': Mat, i: int, j: int, i': int, j': int, lo: int, hi: int)
    requires forall k :: lo <= k < hi ==> a(i, k) == a'(i', k) && b(k, j) == b'(k, j')
    ensures Dot(a, b, i, j, lo, hi) == Dot(a', b', i', j', lo, hi)
    decreases hi - lo
  {
    if lo < hi { DotCongruence(a, b, a', b', i, j, i', j', lo, hi - 1); }
  }

  lemma {:induction false} DotSplit(a: Mat, b: Mat, i: int, j: int, lo: int, mid: int, hi: int)
    requires lo <= mid <= hi
    ensures Dot(a, b, i, j, lo, hi) == Dot(a, b, i, j, lo, mid) + Dot(a, b, i, j, mid, hi)
    decreases hi - mid
  {
    if mid < hi { DotSplit(a, b, i, j, lo, mid, hi - 1); }
  }

  lemma {:induction false} DotZero(a: Mat, b: Mat, i: int, j: int, lo: int, hi: int)
    requires forall k :: lo <= k < hi ==> a(i, k) == 0.0 || b(k, j) == 0.0
    ensures Dot(a, b, i, j, lo, hi) == 0.0
    decreases hi - lo
  {
    if lo < hi { DotZero(a, b, i, j, lo, hi - 1); }
  }

  /** A sum with one nonzero term. */
  lemma DotSingle(a: Mat, b: Mat, i: int, j: int, lo: int, at: int, hi: int)
    requires lo <= at < hi
    requires forall k :: lo <= k < hi && k != at ==> a(i, k) == 0.0 || b(k, j) == 0.0
    ensures Dot(a, b, i, j, lo, hi) == a(i, at) * b(at, j)
  {
    DotSplit(a, b, i, j, lo, at + 1, hi);
    DotZero(a, b, i, j, at + 1, hi);
    DotZero(a, b, i, j, lo, at);
  }

  lemma {:induction false} DotMulStep(a: Mat, b: Mat, c: Mat, i: int, j: int, n: nat, m: nat)
    requires m > 0
    ensures Dot(a, Mul(m, b, c), i, j, 0, n) == Dot(a, Mul(m - 1, b, c), i, j, 0, n) + Dot(a, b, i, m - 1, 0, n) * c(m - 1, j)
    decreases n
  {
    if n > 0 {
      DotMulStep(a, b, c, i, j, n - 1, m);
      var p, q := Dot(b, c, n - 1, j, 0, m - 1), b(n - 1, m - 1) * c(m - 1, j);
      assert Mul(m, b, c)(n - 1, j) == p + q;
      assert a(i, n - 1) * (p + q) == a(i, n - 1) * p + a(i, n - 1) * b(n - 1, m - 1) * c(m - 1, j);
    }
  }

  /** (a b) c == a (b c), entry by entry; the inner dimensions are n and m. */
  lemma {:induction false} MulAssociative(a: Mat, b: Mat, c: Mat, i: int, j: int, n: nat, m: nat)
    ensures Dot(Mul(n, a, b), c, i, j, 0, m) == Dot(a, Mul(m, b, c), i, j, 0, n)
    decreases m
  {
    if m > 0 {
      MulAssociative(a, b, c, i, j, n, m - 1);
      DotMulStep(a, b, c, i, j, n, m);
    } else {
      DotZero(a, Mul(0, b, c), i, j, 0, n);
    }
  }

  lemma MulIdentityRight(n: nat, a: Mat, e: Mat, i: int, j: int)
    requires 0 <= j < n
    requires forall k :: 0 <= k < n ==> e(k, j) == if k == j then 1.0 else 0.0
    ensures Dot(a, e, i, j, 0, n) == a(i, j)
  {
    DotSingle(a, e, i, j, 0, j, n);
  }

  lemma MulIdentityLeft(n: nat, e: Mat, a: Mat, i: int, j: int)
    requires 0 <= i < n
    requires forall k :: 0 <= k < n ==> e(i, k) == if k == i then 1.0 else 0.0
    ensures Dot(e, a, i, j, 0, n) == a(i, j)
  {
    DotSingle(e, a, i, j, 0, i, n);
  }

  /** If x inverts a and y inverts b from the left, y x inverts a b from the left. */
  lemma ProductLeftInverse(n: nat, x: Mat, a: Mat, y: Mat, b: Mat)
    requires LeftInverse(n, x, a) && LeftInverse(n, y, b)
    ensures LeftInverse(n, Mul(n, y, x), Mul(n, a, b))
  {
    forall i, j | 0 <= i < n && 0 <= j < n
      ensures Dot(Mul(n, y, x), Mul(n, a, b), i, j, 0, n) == if i == j then 1.0 else 0.0
    {
      // (y x)(a b) == y (x (a b)) == y ((x a) b) == y b
      MulAssociative(y, x, Mul(n, a, b), i, j, n, n);
      forall k | 0 <= k < n ensures Mul(n, x, Mul(n, a, b))(k, j) == b(k, j) {
        MulAssociative(x, a, b, k, j, n, n);
        MulIdentityLeft(n, Mul(n, x, a), b, k, j);
      }
      DotCongruence(y, Mul(n, x, Mul(n, a, b)), y, b, i, j, i, j, 0, n);
    }
  }

  ghost function Exchange(x: int, y: int, i: int): int {
    if i == x then y else if i == y then x else i
  }

  ghost function SwapRows(b: Mat, x: int, y: int): Mat {
    (i, j) => b(Exchange(x, y, i), j)
  }

  ghost function SwapColumns(b: Mat, x: int, y: int): Mat {
    (i, j) => b(i, Exchange(x, y, j))
  }

  /** One term of a sum, singled out. */
  lemma SplitAtOne(a: Mat, b: Mat, i: int, j: int, lo: int, x: int, hi: int)
    requires lo <= x < hi
    ensures Dot(a, b, i, j, lo, hi) == Dot(a, b, i, j, lo, x) + a(i, x) * b(x, j) + Dot(a, b, i, j, x + 1, hi)
  {
    DotSplit(a, b, i, j, lo, x + 1, hi);
  }

  /** Exchanging two terms of an inner product leaves the sum as it was. */
  lemma DotExchange(a: Mat, b: Mat, i: int, j: int, x: int, y: int, n: nat)
    requires 0 <= x <= y < n
    ensures Dot(SwapColumns(a, x, y), SwapRows(b, x, y), i, j, 0, n) == Dot(a, b, i, j, 0, n)
  {
    var a', b' := SwapColumns(a, x, y), SwapRows(b, x, y);
    if x == y {
      DotCongruence(a', b', a, b, i, j, i, j, 0, n);
    } else {
      DotExchangeDistinct(a, b, a', b', i, j, x, y, n);
    }
  }

  lemma DotExchangeDistinct(a: Mat, b: Mat, a': Mat, b': Mat, i: int, j: int, x: int, y: int, n: nat)
    requires 0 <= x < y < n
    requires forall k :: 0 <= k < n ==> a'(i, k) == a(i, Exchange(x, y, k)) && b'(k, j) == b(Exchange(x, y, k), j)
    ensures Dot(a', b', i, j, 0, n) == Dot(a, b, i, j, 0, n)
  {
    var tx, ty := a(i, x) * b(x, j), a(i, y) * b(y, j);
    assert a'(i, x) * b'(x, j) == ty && a'(i, y) * b'(y, j) == tx;
    DotCongruence(a', b', a, b, i, j, i, j, 0, x);
    DotCongruence(a', b', a, b, i, j, i, j, x + 1, y);
    DotCongruence(a', b', a, b, i, j, i, j, y + 1, n);
    SplitAtOne(a, b, i, j, 0, x, y);
    SplitAtOne(a, b, i, j, 0, y, n);
    SplitAtOne(a', b', i, j, 0, x, y);
    SplitAtOne(a', b', i, j, 0, y, n);
  }

  /** Undoing a row exchange of b on the columns of its inverse keeps the two inverse to each other. */
  lemma InverseExchange(n: nat, x: Mat, b: Mat, p: int, q: int)
    requires 0 <= p <= q < n
    requires IsInverse(n, x, SwapRows(b, p, q))
    ensures IsInverse(n, SwapColumns(x, p, q), b)
  {
    var x', c := SwapColumns(x, p, q), SwapRows(b, p, q);
    forall i, j | 0 <= i < n && 0 <= j < n
      ensures Dot(x', b, i, j, 0, n) == (if i == j then 1.0 else 0.0)
      ensures Dot(b, x', i, j, 0, n) == if i == j then 1.0 else 0.0
    {
      DotExchange(x, c, i, j, p, q, n);
      DotCongruence(x', SwapRows(c, p, q), x', b, i, j, i, j, 0, n);
      assert Exchange(p, q, Exchange(p, q, i)) == i;
      DotCongruence(b, x', c, x, i, j, Exchange(p, q, i), Exchange(p, q, j), 0, n);
    }
  }

  /** A matrix with a left inverse kills no nonzero vector. */
  lemma InvertibleIsRegular(n: nat, x: Mat, b: Mat)
    requires LeftInverse(n, x, b)
    ensures !SingularMatrix(n, b)
  {
    forall v: int -> real | Kills(n, b, v) ensures false {
      var k :| 0 <= k < n && v(k) != 0.0;
      MulAssociative(x, b, Column(v), k, 0, n, n);
      MulIdentityLeft(n, Mul(n, x, b), Column(v), k, 0);
      DotZero(x, Mul(n, b, Column(v)), k, 0, 0, n);
      assert false;
    }
  }

  // ----- triangular matrices

  /** Upper part of a packed factorisation whose diagonal holds the reciprocals of U's diagonal. */
  ghost function UpperOf(f: Mat): Mat {
    (i, j) => if i < j then f(i, j) else if i == j && f(i, i) != 0.0 then 1.0 / f(i, i) else 0.0
  }

  /** Strictly lower part of a packed factorisation, with L's implicit unit diagonal. */
  ghost function UnitLowerOf(f: Mat): Mat {
    (i, j) => if j < i then f(i, j) else if i == j then 1.0 else 0.0
  }

  /** Upper part including the stored diagonal. */
  ghost function UpperStored(f: Mat): Mat {
    (i, j) => if i <= j then f(i, j) else 0.0
  }

  ghost predicate UpperTriangular(n: nat, u: Mat) {
    && (forall i, j :: 0 <= j < i < n ==> u(i, j) == 0.0)
    && (forall i :: 0 <= i < n ==> u(i, i) != 0.0)
  }

  ghost predicate LowerTriangular(n: nat, l: Mat) {
    && (forall i, j :: 0 <= i < j < n ==> l(i, j) == 0.0)
    && (forall i :: 0 <= i < n ==> l(i, i) != 0.0)
  }

  /** Back substitution: an upper triangular u with nonzero diagonal is injective on columns. */
  lemma {:induction false} UpperInjective(n: nat, u: Mat, e: Mat, j: int, k: int)
    requires UpperTriangular(n, u) && 0 <= k < n
    requires forall i :: 0 <= i < n ==> Dot(u, e, i, j, 0, n) == 0.0
    ensures e(k, j) == 0.0
    decreases n - k
  {
    forall m | k < m < n ensures e(m, j) == 0.0 { UpperInjective(n, u, e, j, m); }
    DotSingle(u, e, k, j, 0, k, n);
  }

  lemma {:induction false} LowerInjective(n: nat, l: Mat, e: Mat, j: int, k: int)
    requires LowerTriangular(n, l) && 0 <= k < n
    requires forall i :: 0 <= i < n ==> Dot(l, e, i, j, 0, n) == 0.0
    ensures e(k, j) == 0.0
    decreases k
  {
    forall m | 0 <= m < k ensures e(m, j) == 0.0 { LowerInjective(n, l, e, j, m); }
    DotSingle(l, e, k, j, 0, k, n);
  }

  /** v b == I gives v (b v - I) == 0. */
  lemma ResidualKilled(n: nat, v: Mat, b: Mat, i: int, j: int)
    requires LeftInverse(n, v, b) && 0 <= i < n && 0 <= j < n
    ensures Dot(v, Residual(n, b, v), i, j, 0, n) == 0.0
  {
    MulAssociative(v, b, v, i, j, n, n);
    MulIdentityLeft(n, Mul(n, v, b), v, i, j);
    MulIdentityRight(n, v, Identity(), i, j);
    DotSubtract(v, Mul(n, b, v), Identity(), Residual(n, b, v), i, j, n);
  }

  ghost function Residual(n: nat, b: Mat, v: Mat): Mat {
    (i, j) => Mul(n, b, v)(i, j) - Identity()(i, j)
  }

  lemma {:induction false} DotSubtract(v: Mat, p: Mat, q: Mat, d: Mat, i: int, j: int, n: nat)
    requires forall k :: 0 <= k < n ==> d(k, j) == p(k, j) - q(k, j)
    ensures Dot(v, d, i, j, 0, n) == Dot(v, p, i, j, 0, n) - Dot(v, q, i, j, 0, n)
  {
    if n > 0 {
      DotSubtract(v, p, q, d, i, j, n - 1);
      var x, y, z := v(i, n - 1), p(n - 1, j), q(n - 1, j);
      assert x * (y - z) == x * y - x * z;
    }
  }

  /** For triangular v, a left inverse is two-sided. */
  lemma TriangularTwoSided(n: nat, v: Mat, b: Mat)
    requires UpperTriangular(n, v) || LowerTriangular(n, v)
    requires LeftInverse(n, v, b)
    ensures IsInverse(n, v, b)
  {
    var e := Residual(n, b, v);
    forall i, j | 0 <= i < n && 0 <= j < n
      ensures Dot(b, v, i, j, 0, n) == if i == j then 1.0 else 0.0
    {
      forall k | 0 <= k < n ensures Dot(v, e, k, j, 0, n) == 0.0 { ResidualKilled(n, v, b, k, j); }
      if UpperTriangular(n, v) { UpperInjective(n, v, e, j, i); } else { LowerInjective(n, v, e, j, i); }
      assert e(i, j) == Dot(b, v, i, j, 0, n) - Identity()(i, j);
    }
  }
}
