/**
 Linear solving through the in-place inverse, and the normal equations that
 src/AMath.cpp builds to fit a two-dimensional Gaussian surface.
 */
module LeastSquares {
  import opened MatrixAlgebra
  import opened MatrixInverse
  import opened Numeric

  // ----- least squares over an m-column design matrix F with n rows

  ghost function Transpose(a: Mat): Mat {
    (i, j) => a(j, i)
  }

  /** What is left of y, row by row, after the fit F c. */
  ghost function Misfit(m: nat, F: Mat, y: Mat, c: Mat): Mat {
    (i, j) => y(i, j) - Mul(m, F, c)(i, j)
  }

  ghost function SumOfSquares(n: nat, r: Mat): real {
    Dot(Transpose(r), r, 0, 0, 0, n)
  }

  /** F'F c == F'y. */
  ghost predicate NormalEquations(n: nat, m: nat, F: Mat, y: Mat, c: Mat) {
    forall a :: 0 <= a < m ==> Dot(Mul(n, Transpose(F), F), c, a, 0, 0, m) == Dot(Transpose(F), y, a, 0, 0, n)
  }

  lemma {:induction false} SumOfSquaresNonnegative(n: nat, r: Mat)
    ensures SumOfSquares(n, r) >= 0.0
  {
    if n > 0 {
      SumOfSquaresNonnegative(n - 1, r);
      assert r(n - 1, 0) * r(n - 1, 0) >= 0.0;
    }
  }

  /** Pythagoras: |p - q|^2 == |p|^2 - 2 p.q + |q|^2. */
  lemma {:induction false} SquareOfDifference(n: nat, p: Mat, q: Mat, d: Mat)
    requires forall i :: 0 <= i < n ==> d(i, 0) == p(i, 0) - q(i, 0)
    ensures SumOfSquares(n, d) == SumOfSquares(n, p) - 2.0 * Dot(Transpose(p), q, 0, 0, 0, n) + SumOfSquares(n, q)
  {
    if n > 0 {
      SquareOfDifference(n - 1, p, q, d);
      var x, y := p(n - 1, 0), q(n - 1, 0);
      assert (x - y) * (x - y) == x * x - 2.0 * (x * y) + y * y;
    }
  }

  /** The misfit of a solution of the normal equations is orthogonal to every column of F. */
  lemma MisfitOrthogonal(n: nat, m: nat, F: Mat, y: Mat, c: Mat, a: int)
    requires NormalEquations(n, m, F, y, c) && 0 <= a < m
    ensures Dot(Transpose(Misfit(m, F, y, c)), F, 0, a, 0, n) == 0.0
  {
    var r := Misfit(m, F, y, c);
    MulAssociative(Transpose(F), F, c, a, 0, n, m);
    DotSubtract(Transpose(F), y, Mul(m, F, c), r, a, 0, n);
    DotFlip(Transpose(F), r, Transpose(r), F, a, 0, n);
  }

  lemma {:induction false} DotFlip(a: Mat, b: Mat, b': Mat, a': Mat, i: int, j: int, n: nat)
    requires forall k :: 0 <= k < n ==> a'(k, i) == a(i, k) && b'(j, k) == b(k, j)
    ensures Dot(a, b, i, j, 0, n) == Dot(b', a', j, i, 0, n)
  {
    if n > 0 { DotFlip(a, b, b', a', i, j, n - 1); }
  }

  /** A solution of the normal equations fits at least as well as any other coefficients. */
  lemma NormalEquationsMinimise(n: nat, m: nat, F: Mat, y: Mat, c: Mat, d: Mat)
    requires NormalEquations(n, m, F, y, c)
    ensures SumOfSquares(n, Misfit(m, F, y, c)) <= SumOfSquares(n, Misfit(m, F, y, d))
  {
    var p, s := Misfit(m, F, y, c), Misfit(m, F, y, d);
    var e: Mat := (i, j) => d(i, j) - c(i, j);
    var q := Mul(m, F, e);
    forall i | 0 <= i < n ensures s(i, 0) == p(i, 0) - q(i, 0) {
      DotSubtract(F, d, c, e, i, 0, m);
      assert s(i, 0) == y(i, 0) - Dot(F, d, i, 0, 0, m);
      assert p(i, 0) == y(i, 0) - Dot(F, c, i, 0, 0, m);
    }
    SquareOfDifference(n, p, q, s);
    // p.(F e) == (p F).e == 0
    MulAssociative(Transpose(p), F, e, 0, 0, n, m);
    forall a | 0 <= a < m ensures Mul(n, Transpose(p), F)(0, a) == 0.0 { MisfitOrthogonal(n, m, F, y, c, a); }
    DotZero(Mul(n, Transpose(p), F), e, 0, 0, 0, m);
    SumOfSquaresNonnegative(n, q);
  }

  // ----- matrix product and linear solve

  method RowTimesColumn(A: array2<real>, j: nat, q0: array<real>, ghost b: Mat, ghost i: int) returns (z: real)
    requires j < A.Length0 && q0.Length == A.Length1 && forall r :: 0 <= r < q0.Length ==> q0[r] == b(r, i)
    ensures z == Dot(View(A), b, j, i, 0, A.Length1)
  {
    ghost var a := View(A);
    z := 0.0;
    for k := 0 to A.Length1
      invariant z == Dot(a, b, j, i, 0, k)
    {
      z := z + A[j, k] * q0[k];
    }
  }

  /** Column i of the product, from the scratch copy of column i of B. */
  method MultiplyColumn(M: nat, A: array2<real>, i: nat, q0: array<real>, RM: array2<real>, ghost b: Mat)
    requires A.Length0 == M && RM.Length0 == M && i < RM.Length1 && RM != A
    requires q0.Length == A.Length1 && forall r :: 0 <= r < q0.Length ==> q0[r] == b(r, i)
    modifies RM
    ensures forall r, c :: 0 <= r < M && 0 <= c < RM.Length1 ==>
              RM[r, c] == if c == i then Dot(View(A), b, r, i, 0, A.Length1) else old(RM[r, c])
  {
    hide Dot;
    ghost var a := View(A);
    for j := 0 to M
      invariant forall r, c :: 0 <= r < M && 0 <= c < RM.Length1 ==>
                  RM[r, c] == if c == i && r < j then Dot(a, b, r, i, 0, A.Length1) else old(RM[r, c])
    {
      RM[j, i] := RowTimesColumn(A, j, q0, b, i);
    }
  }

  /** RM := A B for an M x L matrix A and an L x N matrix B. */
  method MatRealMult(M: nat, L: nat, N: nat, A: array2<real>, B: array2<real>, RM: array2<real>)
    requires A.Length0 == M && A.Length1 == L && B.Length0 == L && B.Length1 == N
    requires RM.Length0 == M && RM.Length1 == N && RM != A && RM != B
    modifies RM
    ensures forall i, j :: 0 <= i < M && 0 <= j < N ==> RM[i, j] == Dot(View(A), View(B), i, j, 0, L)
  {
    hide Dot;
    ghost var a, b := View(A), View(B);
    var q0 := new real[L];
    for i := 0 to N
      invariant forall r, c :: 0 <= r < M && 0 <= c < i ==> RM[r, c] == Dot(a, b, r, c, 0, L)
    {
      for k := 0 to L
        modifies q0
        invariant forall r :: 0 <= r < k ==> q0[r] == b(r, i)
      {
        q0[k] := B[k, i];
      }
      MultiplyColumn(M, A, i, q0, RM, b);
    }
  }

  /**
   Solves A X = Y for one right-hand column; A is overwritten. The source's true is
   Inverted (and NotFinite, whose X it fills with non-finite values); false is Refused.
   */
  method LSLinearSolve(M: nat, Y: array2<real>, A: array2<real>, X: array2<real>) returns (st: Status)
    requires Square(M, A) && Y.Length0 == M && Y.Length1 == 1 && X.Length0 == M && X.Length1 == 1
    requires A != Y && A != X && X != Y
    modifies A, X
    ensures st == NotFinite <==> ZeroFirstColumn(M, old(View(A)))
    ensures st == Inverted ==> forall i :: 0 <= i < M ==> Dot(old(View(A)), View(X), i, 0, 0, M) == View(Y)(i, 0)
    ensures st == Inverted <==> !ZeroFirstColumn(M, old(View(A))) && PivotsPass(M, old(View(A)))
    ensures SingularMatrix(M, old(View(A))) && !ZeroFirstColumn(M, old(View(A))) ==> st == Refused
  {
    hide ZeroFirstColumn, SingularMatrix, IsInverse, PivotsPass;
    ghost var b := View(A);
    st := MatInvert(M, A);
    if st == Inverted {
      MatRealMult(M, M, 1, A, Y, X);
      SolvedByInverse(M, b, View(A), View(Y), View(X));
    }
  }

  lemma SolvedByInverse(m: nat, b: Mat, x: Mat, y: Mat, s: Mat)
    requires IsInverse(m, x, b) && forall i :: 0 <= i < m ==> s(i, 0) == Dot(x, y, i, 0, 0, m)
    ensures forall i :: 0 <= i < m ==> Dot(b, s, i, 0, 0, m) == y(i, 0)
  {
    forall i | 0 <= i < m ensures Dot(b, s, i, 0, 0, m) == y(i, 0) {
      DotCongruence(b, s, b, Mul(m, x, y), i, 0, i, 0, 0, m);
      MulAssociative(b, x, y, i, 0, m, m);
      MulIdentityLeft(m, Mul(m, b, x), y, i, 0);
    }
  }

  // ----- the Gaussian surface

  datatype Sample = Sample(x: real, y: real, z: real) {
    /** The source drops samples with z <= 1E-10. */
    predicate Kept() { z > 0.0000000001 }
  }

  /** The five coefficients of ln z == c0 + c1 x + c2 y + c3 x^2 + c4 y^2. */
  datatype Coefficients = Coefficients(c0: real, c1: real, c2: real, c3: real, c4: real) {
    function At(x: real, y: real): real {
      c0 + c1 * x + c2 * y + c3 * (x * x) + c4 * (y * y)
    }
  }

  /** What a sample adds to the loss: z^2 (ln z - c.(1, x, y, x^2, y^2))^2, or nothing when dropped. */
  ghost function SampleLoss(p: Sample, ln: real -> real, c: Coefficients): real {
    var e := ln(p.z) - c.At(p.x, p.y);
    if p.Kept() then (p.z * p.z) * (e * e) else 0.0
  }

  ghost function Loss(s: seq<Sample>, ln: real -> real, c: Coefficients): real {
    if s == [] then 0.0 else Loss(s[..|s| - 1], ln, c) + SampleLoss(s[|s| - 1], ln, c)
  }

  /** Each sample above 1e-10 adds its squared misfit, weighted by the square of its height. */
  lemma LossOfOneMore(s: seq<Sample>, p: Sample, ln: real -> real, c: Coefficients)
    ensures var misfit := ln(p.z) - (c.c0 + c.c1 * p.x + c.c2 * p.y + c.c3 * (p.x * p.x) + c.c4 * (p.y * p.y));
            Loss(s + [p], ln, c) == Loss(s, ln, c) + if p.z > 0.0000000001 then (p.z * p.z) * (misfit * misfit) else 0.0
    ensures Loss([], ln, c) == 0.0
  {
    assert (s + [p])[..|s|] == s;
  }

  /** z times 1, x, y, x^2, y^2, in the source's order of products. */
  function Feature(p: Sample, a: int): real {
    if a == 0 then p.z
    else if a == 1 then p.z * p.x
    else if a == 2 then p.z * p.y
    else if a == 3 then p.z * p.x * p.x
    else p.z * p.y * p.y
  }

  /** The design matrix: a dropped sample is a row of zeros. */
  ghost function Design(s: seq<Sample>): Mat {
    (i, a) => if 0 <= i < |s| && s[i].Kept() then Feature(s[i], a) else 0.0
  }

  ghost function Gram(s: seq<Sample>): Mat { Mul(|s|, Transpose(Design(s)), Design(s)) }

  ghost function Target(s: seq<Sample>, ln: real -> real): Mat {
    (i, j) => if 0 <= i < |s| && s[i].Kept() then SampleTarget(s[i], ln) else 0.0
  }

  function SampleTarget(p: Sample, ln: real -> real): real { p.z * ln(p.z) }

  ghost function AsColumn(c: Coefficients): Mat {
    (i, j) => if i == 0 then c.c0 else if i == 1 then c.c1 else if i == 2 then c.c2 else if i == 3 then c.c3 else c.c4
  }

  lemma FeaturesTimesCoefficients(s: seq<Sample>, c: Coefficients, i: int)
    requires 0 <= i < |s| && s[i].Kept()
    ensures Dot(Design(s), AsColumn(c), i, 0, 0, 5) == s[i].z * c.At(s[i].x, s[i].y)
  {
    var f, k, p := Design(s), AsColumn(c), s[i];
    assert Dot(f, k, i, 0, 0, 5) == Dot(f, k, i, 0, 0, 4) + f(i, 4) * c.c4;
    assert Dot(f, k, i, 0, 0, 4) == Dot(f, k, i, 0, 0, 3) + f(i, 3) * c.c3;
    assert Dot(f, k, i, 0, 0, 3) == Dot(f, k, i, 0, 0, 2) + f(i, 2) * c.c2;
    assert Dot(f, k, i, 0, 0, 2) == Dot(f, k, i, 0, 0, 1) + f(i, 1) * c.c1;
    assert Dot(f, k, i, 0, 0, 1) == f(i, 0) * c.c0;
    Expand(p.z, p.x, p.y, c);
  }

  lemma Expand(z: real, x: real, y: real, c: Coefficients)
    ensures z * c.c0 + z * x * c.c1 + z * y * c.c2 + z * x * x * c.c3 + z * y * y * c.c4 == z * c.At(x, y)
  {
  }

  ghost function FitMisfit(s: seq<Sample>, ln: real -> real, c: Coefficients): Mat {
    Misfit(5, Design(s), Target(s, ln), AsColumn(c))
  }

  lemma MisfitOfSample(s: seq<Sample>, ln: real -> real, c: Coefficients, i: int)
    requires 0 <= i < |s|
    ensures FitMisfit(s, ln, c)(i, 0) == if s[i].Kept() then s[i].z * ln(s[i].z) - s[i].z * c.At(s[i].x, s[i].y) else 0.0
  {
    hide Coefficients.At;
    assert FitMisfit(s, ln, c)(i, 0) == Target(s, ln)(i, 0) - Dot(Design(s), AsColumn(c), i, 0, 0, 5);
    if s[i].Kept() {
      FeaturesTimesCoefficients(s, c, i);
    } else {
      DotZero(Design(s), AsColumn(c), i, 0, 0, 5);
    }
  }

  lemma SquaredMisfitOfSample(s: seq<Sample>, ln: real -> real, c: Coefficients, i: int)
    requires 0 <= i < |s|
    ensures Product(FitMisfit(s, ln, c)(i, 0), FitMisfit(s, ln, c)(i, 0)) == SampleLoss(s[i], ln, c)
  {
    hide FitMisfit, Coefficients.At;
    MisfitOfSample(s, ln, c, i);
    SquareOfScaled(s[i].z, ln(s[i].z), c.At(s[i].x, s[i].y));
  }

  lemma MisfitOfPrefix(s: seq<Sample>, ln: real -> real, c: Coefficients, n: nat, i: int)
    requires 0 <= i < n <= |s|
    ensures FitMisfit(s, ln, c)(i, 0) == FitMisfit(s[..n], ln, c)(i, 0)
  {
    assert s[i] == s[..n][i];
    assert Target(s, ln)(i, 0) == Target(s[..n], ln)(i, 0);
    DotCongruence(Design(s), AsColumn(c), Design(s[..n]), AsColumn(c), i, 0, i, 0, 0, 5);
  }

  lemma SumOfSquaresAppend(n: nat, r: Mat, t: Mat)
    requires forall k :: 0 <= k < n ==> r(k, 0) == t(k, 0)
    ensures SumOfSquares(n + 1, r) == SumOfSquares(n, t) + Product(r(n, 0), r(n, 0))
  {
    DotCongruence(Transpose(r), r, Transpose(t), t, 0, 0, 0, 0, 0, n);
  }

  /** The loss is the sum of squared misfits of the design matrix. */
  lemma {:induction false} LossIsSumOfSquares(s: seq<Sample>, ln: real -> real, c: Coefficients)
    ensures Loss(s, ln, c) == SumOfSquares(|s|, FitMisfit(s, ln, c))
  {
    if s != [] {
      hide SumOfSquares, FitMisfit, SampleLoss, Product;
      var n := |s| - 1;
      LossIsSumOfSquares(s[..n], ln, c);
      forall i | 0 <= i < n ensures FitMisfit(s, ln, c)(i, 0) == FitMisfit(s[..n], ln, c)(i, 0) {
        MisfitOfPrefix(s, ln, c, n, i);
      }
      SumOfSquaresAppend(n, FitMisfit(s, ln, c), FitMisfit(s[..n], ln, c));
      SquaredMisfitOfSample(s, ln, c, n);
    }
  }

  lemma SquareOfScaled(z: real, l: real, a: real)
    ensures (z * l - z * a) * (z * l - z * a) == (z * z) * ((l - a) * (l - a))
  {
    assert z * l - z * a == z * (l - a);
  }

  /** B and Q hold the normal matrix and the right-hand side of the first samples. */
  ghost predicate Accumulated(s: seq<Sample>, ln: real -> real, b: Mat, q: Mat) {
    && (forall r, c :: 0 <= r < 5 && 0 <= c < 5 ==> b(r, c) == Dot(Transpose(Design(s)), Design(s), r, c, 0, |s|))
    && (forall r :: 0 <= r < 5 ==> q(r, 0) == Dot(Transpose(Design(s)), Target(s, ln), r, 0, 0, |s|))
  }

  /** What the loop body adds for one sample. */
  ghost predicate SampleAdded(p: Sample, ln: real -> real, b: Mat, q: Mat, b': Mat, q': Mat) {
    && (forall r, c :: 0 <= r < 5 && 0 <= c < 5 ==>
          b'(r, c) == b(r, c) + if p.Kept() then Product(Feature(p, r), Feature(p, c)) else 0.0)
    && (forall r :: 0 <= r < 5 ==>
          q'(r, 0) == q(r, 0) + if p.Kept() then Product(SampleTarget(p, ln), Feature(p, r)) else 0.0)
  }

  lemma AccumulateStep(s: seq<Sample>, ln: real -> real, b: Mat, q: Mat, b': Mat, q': Mat)
    requires s != [] && Accumulated(s[..|s| - 1], ln, b, q)
    requires SampleAdded(s[|s| - 1], ln, b, q, b', q')
    ensures Accumulated(s, ln, b', q')
  {
    hide Product, Feature, SampleTarget;
    var n := |s| - 1;
    var t := s[..n];
    var f, g, y, h := Design(s), Design(t), Target(s, ln), Target(t, ln);
    forall r, c | 0 <= r < 5 && 0 <= c < 5 ensures b'(r, c) == Dot(Transpose(f), f, r, c, 0, |s|) {
      DotAppend(Transpose(f), f, Transpose(g), g, r, c, n);
      TimesZero(f(n, r), f(n, c));
    }
    forall r | 0 <= r < 5 ensures q'(r, 0) == Dot(Transpose(f), y, r, 0, 0, |s|) {
      DotAppend(Transpose(f), y, Transpose(g), h, r, 0, n);
      TimesZero(f(n, r), y(n, 0));
    }
  }

  lemma TimesZero(x: real, y: real)
    ensures x == 0.0 || y == 0.0 ==> Product(x, y) == 0.0
    ensures Product(x, y) == Product(y, x)
  {
  }

  lemma NothingAccumulated(ln: real -> real, b: Mat, q: Mat)
    requires forall r, c :: 0 <= r < 5 && 0 <= c < 5 ==> b(r, c) == 0.0
    requires forall r :: 0 <= r < 5 ==> q(r, 0) == 0.0
    ensures Accumulated([], ln, b, q)
  {
  }

  lemma DroppedSample(p: Sample, ln: real -> real, b: Mat, q: Mat)
    requires !p.Kept()
    ensures SampleAdded(p, ln, b, q, b, q)
  {
  }

  lemma DotAppend(a: Mat, b: Mat, a': Mat, b': Mat, i: int, j: int, n: nat)
    requires forall k :: 0 <= k < n ==> a(i, k) == a'(i, k) && b(k, j) == b'(k, j)
    ensures Dot(a, b, i, j, 0, n + 1) == Dot(a', b', i, j, 0, n) + Product(a(i, n), b(n, j))
  {
    DotCongruence(a, b, a', b', i, j, i, j, 0, n);
  }

  method AddToRow(B: array2<real>, a: nat, f: seq<real>)
    requires Square(5, B) && a < 5 && |f| == 5
    modifies B
    ensures forall r, c :: 0 <= r < 5 && 0 <= c < 5 ==> B[r, c] == old(B[r, c]) + if r == a then Product(f[a], f[c]) else 0.0
  {
    for b := 0 to 5
      invariant forall r, c :: 0 <= r < 5 && 0 <= c < 5 ==>
                  B[r, c] == old(B[r, c]) + if r == a && c < b then Product(f[a], f[c]) else 0.0
    {
      B[a, b] := B[a, b] + f[a] * f[b];
    }
  }

  method AddToMatrix(B: array2<real>, f: seq<real>)
    requires Square(5, B) && |f| == 5
    modifies B
    ensures forall r, c :: 0 <= r < 5 && 0 <= c < 5 ==> B[r, c] == old(B[r, c]) + Product(f[r], f[c])
  {
    hide Product;
    for a := 0 to 5
      invariant forall r, c :: 0 <= r < 5 && 0 <= c < 5 ==> B[r, c] == old(B[r, c]) + if r < a then Product(f[r], f[c]) else 0.0
    {
      AddToRow(B, a, f);
    }
  }

  method AddToColumn(Q: array2<real>, zlnz: real, f: seq<real>)
    requires Q.Length0 == 5 && Q.Length1 == 1 && |f| == 5
    modifies Q
    ensures forall r :: 0 <= r < 5 ==> Q[r, 0] == old(Q[r, 0]) + Product(zlnz, f[r])
  {
    for a := 0 to 5
      invariant forall r :: 0 <= r < 5 ==> Q[r, 0] == old(Q[r, 0]) + if r < a then Product(zlnz, f[r]) else 0.0
    {
      Q[a, 0] := Q[a, 0] + zlnz * f[a];
    }
  }

  method FeaturesOf(p: Sample) returns (f: seq<real>)
    ensures |f| == 5 && forall a :: 0 <= a < 5 ==> f[a] == Feature(p, a)
  {
    var zx, zy := p.z * p.x, p.z * p.y;
    f := [p.z, zx, zy, zx * p.x, zy * p.y];
  }

  /** One kept sample: Q[a] += z ln z f[a] and B[5 a + b] += f[a] f[b] for the five features f. */
  method AddSample(p: Sample, ln: real -> real, B: array2<real>, Q: array2<real>)
    requires Square(5, B) && Q.Length0 == 5 && Q.Length1 == 1 && B != Q && p.Kept()
    modifies B, Q
    ensures SampleAdded(p, ln, old(View(B)), old(View(Q)), View(B), View(Q))
  {
    hide Product, Feature, SampleTarget;
    var f := FeaturesOf(p);
    AddToColumn(Q, SampleTarget(p, ln), f);
    ghost var q := View(Q);
    assert forall r :: 0 <= r < 5 ==> q(r, 0) == old(View(Q))(r, 0) + Product(SampleTarget(p, ln), Feature(p, r));
    AddToMatrix(B, f);
    assert View(Q) == q;
    assert forall r, c :: 0 <= r < 5 && 0 <= c < 5 ==> B[r, c] == old(B[r, c]) + Product(Feature(p, r), Feature(p, c));
  }

  /** The accumulation loop over the samples. */
  method BuildNormalEquations(s: seq<Sample>, ln: real -> real) returns (B: array2<real>, Q: array2<real>)
    ensures fresh(B) && fresh(Q) && B != Q && Square(5, B) && Q.Length0 == 5 && Q.Length1 == 1
    ensures Accumulated(s, ln, View(B), View(Q))
  {
    hide Accumulated, SampleAdded;
    B := new real[5, 5]((i, j) => 0.0);
    Q := new real[5, 1]((i, j) => 0.0);
    NothingAccumulated(ln, View(B), View(Q));
    for i := 0 to |s|
      invariant Accumulated(s[..i], ln, View(B), View(Q))
    {
      ghost var b, q := View(B), View(Q);
      if s[i].Kept() {
        AddSample(s[i], ln, B, Q);
      } else {
        DroppedSample(s[i], ln, b, q);
      }
      assert s[..i + 1][..i] == s[..i];
      AccumulateStep(s[..i + 1], ln, b, q, View(B), View(Q));
    }
    assert s[..|s|] == s;
  }

  // ----- the fit

  /**
   Fitted and Shapeless carry the solved coefficients; the source reports success only
   for the first. Unsolvable is its false for a refused matrix. NoSamples stands for
   its true with non-finite results, when no sample is kept.
   */
  datatype Fit =
    | Fitted(c: Coefficients, x0: real, y0: real)
    | Shapeless(c: Coefficients)
    | Unsolvable
    | NoSamples

  ghost predicate BestFit(s: seq<Sample>, ln: real -> real, c: Coefficients) {
    forall d: Coefficients :: Loss(s, ln, c) <= Loss(s, ln, d)
  }

  predicate NoneKept(s: seq<Sample>) {
    forall i :: 0 <= i < |s| ==> s[i].z <= 0.0000000001
  }

  lemma SolutionIsBest(s: seq<Sample>, ln: real -> real, b: Mat, q: Mat, x: Mat, c: Coefficients)
    requires Accumulated(s, ln, b, q)
    requires forall i :: 0 <= i < 5 ==> Dot(b, x, i, 0, 0, 5) == q(i, 0)
    requires forall i :: 0 <= i < 5 ==> x(i, 0) == AsColumn(c)(i, 0)
    ensures BestFit(s, ln, c)
  {
    var n, f, y := |s|, Design(s), Target(s, ln);
    forall a | 0 <= a < 5 ensures Dot(Mul(n, Transpose(f), f), AsColumn(c), a, 0, 0, 5) == Dot(Transpose(f), y, a, 0, 0, n) {
      DotCongruence(b, x, Mul(n, Transpose(f), f), AsColumn(c), a, 0, a, 0, 0, 5);
    }
    forall d: Coefficients ensures Loss(s, ln, c) <= Loss(s, ln, d) {
      NormalEquationsMinimise(n, 5, f, y, AsColumn(c), AsColumn(d));
      LossIsSumOfSquares(s, ln, c);
      LossIsSumOfSquares(s, ln, d);
    }
  }

  /** B[0] is the sum of z^2 over the kept samples, so the first column vanishes only without samples. */
  lemma FirstColumnOfGram(s: seq<Sample>, ln: real -> real, b: Mat, q: Mat)
    requires Accumulated(s, ln, b, q)
    ensures ZeroFirstColumn(5, b) <==> NoneKept(s)
  {
    var f := Design(s);
    if NoneKept(s) {
      forall r | 0 <= r < 5 ensures b(r, 0) == 0.0 { DotZero(Transpose(f), f, r, 0, 0, |s|); }
    } else {
      var i :| 0 <= i < |s| && s[i].Kept();
      PositiveSquareSum(f, i, |s|);
      assert b(0, 0) > 0.0;
    }
  }

  lemma {:induction false} PositiveSquareSum(f: Mat, i: int, n: nat)
    requires 0 <= i < n && f(i, 0) > 0.0
    ensures Dot(Transpose(f), f, 0, 0, 0, n) > 0.0
  {
    var x := f(n - 1, 0);
    assert x * x >= 0.0;
    if i < n - 1 {
      PositiveSquareSum(f, i, n - 1);
    } else {
      SumOfSquaresNonnegative(n - 1, f);
      assert x * x > 0.0;
    }
  }

  /** With both quadratic coefficients negative, (x0, y0) is where the fitted surface peaks. */
  lemma PeakOfSurface(c: Coefficients, x0: real, y0: real, x: real, y: real)
    requires c.c3 < 0.0 && c.c4 < 0.0
    requires 2.0 * c.c3 * x0 == -c.c1 && 2.0 * c.c4 * y0 == -c.c2
    ensures c.At(x, y) <= c.At(x0, y0)
  {
    VertexIsTop(c.c1, c.c3, x0, x);
    VertexIsTop(c.c2, c.c4, y0, y);
  }

  lemma VertexIsTop(b: real, a: real, v: real, x: real)
    requires a < 0.0 && 2.0 * a * v == -b
    ensures b * x + a * (x * x) <= b * v + a * (v * v)
  {
    var d := x - v;
    assert d * d >= 0.0;
    assert a * (d * d) <= 0.0;
    assert b == -(2.0 * a * v);
    assert b * x + a * (x * x) - (b * v + a * (v * v)) == a * (d * d);
  }

  /** The fit up to the coefficients and the peak; ln is the logarithm the source calls. */
  method GaussFit2D(s: seq<Sample>, ln: real -> real) returns (r: Fit)
    ensures r == NoSamples <==> NoneKept(s)
    ensures r.Fitted? || r.Shapeless? ==> BestFit(s, ln, r.c)
    ensures r.Shapeless? ==> r.c.c3 >= -0.0000000001 || r.c.c4 >= -0.0000000001
    ensures r.Fitted? ==> r.c.c3 < -0.0000000001 && r.c.c4 < -0.0000000001
    ensures r.Fitted? ==> forall x, y :: r.c.At(x, y) <= r.c.At(r.x0, r.y0)
    ensures r == Unsolvable <==> !NoneKept(s) && !PivotsPass(5, Gram(s))
    ensures SingularMatrix(5, Gram(s)) && !NoneKept(s) ==> r == Unsolvable
  {
    hide Accumulated, ZeroFirstColumn, NoneKept, SingularMatrix, BestFit, PivotsPass, Gram;
    var B, Q := BuildNormalEquations(s, ln);
    var C := new real[5, 1];
    ghost var b, q := View(B), View(Q);
    FirstColumnOfGram(s, ln, b, q);
    AccumulatedIsGram(s, ln, b, q);
    SameElimination(5, b, Gram(s));
    SingularGram(b, Gram(s));
    var st := LSLinearSolve(5, Q, B, C);
    match st {
      case NotFinite => return NoSamples;
      case Refused => return Unsolvable;
      case Inverted =>
        var c := Coefficients(C[0, 0], C[1, 0], C[2, 0], C[3, 0], C[4, 0]);
        SolutionIsBest(s, ln, b, q, View(C), c);
        if c.c3 >= -0.0000000001 || c.c4 >= -0.0000000001 {
          return Shapeless(c);
        }
        var x0, y0 := -0.5 * c.c1 / c.c3, -0.5 * c.c2 / c.c4;
        VertexOf(c.c1, c.c3, x0);
        VertexOf(c.c2, c.c4, y0);
        forall x, y ensures c.At(x, y) <= c.At(x0, y0) { PeakOfSurface(c, x0, y0, x, y); }
        return Fitted(c, x0, y0);
    }
  }

  lemma VertexOf(b: real, a: real, v: real)
    requires a != 0.0 && v == -0.5 * b / a
    ensures 2.0 * a * v == -b
  {
    assert v * a == -0.5 * b;
  }

  lemma AccumulatedIsGram(s: seq<Sample>, ln: real -> real, b: Mat, q: Mat)
    requires Accumulated(s, ln, b, q)
    ensures Same(5, b, Gram(s))
  {
  }

  lemma SingularGram(b: Mat, g: Mat)
    requires Same(5, b, g)
    ensures SingularMatrix(5, g) ==> SingularMatrix(5, b)
  {
    if SingularMatrix(5, g) {
      var v :| Kills(5, g, v);
      forall i | 0 <= i < 5 ensures Dot(b, Column(v), i, 0, 0, 5) == 0.0 {
        DotCongruence(b, Column(v), g, Column(v), i, 0, i, 0, 0, 5);
      }
      assert Kills(5, b, v);
    }
  }
}
