/**
 The one-dimensional spline interpolator of src/AMath.cpp: the tridiagonal system
 for the second derivatives, its elimination and back substitution in place, and
 the piecewise cubic it evaluates.
 */
module CubicSplines {
  import opened Numeric

  // ----- the tridiagonal system

  /** Coefficients of row i; the end rows say that the two outermost second derivatives agree. */
  function Below(x: seq<real>, i: int): real
    requires 0 <= i < |x|
  {
    if i == 0 then 0.0 else if i == |x| - 1 then 1.0 else (x[i] - x[i - 1]) / 6.0
  }

  function Above(x: seq<real>, i: int): real
    requires 0 <= i < |x|
  {
    if i == |x| - 1 then 0.0 else if i == 0 then -1.0 else (x[i + 1] - x[i]) / 6.0
  }

  function Diagonal(x: seq<real>, i: int): real
    requires 0 <= i < |x|
  {
    if i == |x| - 1 then -1.0 else if i == 0 then 1.0 else 2.0 * (Below(x, i) + Above(x, i))
  }

  function Secant(x: seq<real>, y: seq<real>, i: int): real
    requires 0 <= i && i + 1 < |x| && |x| == |y| && x[i] != x[i + 1]
  {
    (y[i + 1] - y[i]) / (x[i + 1] - x[i])
  }

  function RightSide(x: seq<real>, y: seq<real>, i: int): real
    requires 0 <= i < |x| && |x| == |y| && Increasing(x)
  {
    if i == 0 || i == |x| - 1 then 0.0 else Secant(x, y, i) - Secant(x, y, i - 1)
  }

  /** Row i of the system holds of the second derivatives m. */
  ghost predicate Row(x: seq<real>, y: seq<real>, m: seq<real>, i: int)
    requires 0 <= i < |x| && |x| == |y| == |m| && Increasing(x)
  {
    (if i == 0 then 0.0 else Product(Below(x, i), m[i - 1])) + Product(Diagonal(x, i), m[i])
      + (if i == |x| - 1 then 0.0 else Product(Above(x, i), m[i + 1])) == RightSide(x, y, i)
  }

  ghost predicate Solves(x: seq<real>, y: seq<real>, m: seq<real>)
  {
    |x| == |y| == |m| && Increasing(x) && forall i :: 0 <= i < |x| ==> Row(x, y, m, i)
  }

  // ----- elimination

  /** c[i] and d[i] are row i after elimination: m[i] + c[i] m[i+1] == d[i]. */
  ghost predicate Eliminated(x: seq<real>, y: seq<real>, c: seq<real>, d: seq<real>, i: int)
    requires 0 <= i < |x| && |x| == |y| == |c| == |d| && Increasing(x)
  {
    if i == 0 then c[0] == Above(x, 0) && d[0] == RightSide(x, y, 0)
    else
      var t := PivotAt(x, c, i);
      t != 0.0 && Product(c[i], t) == Above(x, i)
      && Product(d[i], t) == RightSide(x, y, i) - Product(Below(x, i), d[i - 1])
  }

  ghost function PivotAt(x: seq<real>, c: seq<real>, i: int): real
    requires 0 < i < |x| == |c|
  {
    Diagonal(x, i) - Product(Below(x, i), c[i - 1])
  }

  /** Bounds that keep every pivot away from zero: -1 <= c[0], and 0 < c[i] < 1 inside. */
  ghost predicate Bounded(c: seq<real>, i: int)
    requires 0 <= i < |c|
  {
    if i == 0 then c[0] == -1.0 else if i < |c| - 1 then 0.0 < c[i] < 1.0 else true
  }

  /** Inside, the pivot exceeds the entry above the diagonal; at the end it is below -1; for two knots it is zero. */
  lemma PivotSign(x: seq<real>, c: seq<real>, i: int)
    requires Increasing(x) && 0 < i < |x| == |c| && Bounded(c, i - 1)
    ensures i < |x| - 1 ==> PivotAt(x, c, i) > Above(x, i) > 0.0
    ensures i == |x| - 1 && i > 1 ==> PivotAt(x, c, i) < -1.0
    ensures i == |x| - 1 == 1 ==> PivotAt(x, c, i) == 0.0
  {
    var a, k := Below(x, i), c[i - 1];
    if i < |x| - 1 {
      assert a > 0.0 && Above(x, i) > 0.0 && k < 1.0;
      assert a * (1.0 - k) > 0.0;
      assert a * (1.0 - k) == a - Product(a, k);
    }
  }

  lemma QuotientBetween(c: real, a: real, t: real)
    requires t > a > 0.0 && Product(c, t) == a
    ensures 0.0 < c < 1.0
  {
    if c <= 0.0 { Monotone(c, 0.0, t); }
    if c >= 1.0 { Monotone(1.0, c, t); }
  }

  lemma Monotone(p: real, q: real, t: real)
    requires p <= q && t > 0.0
    ensures Product(p, t) <= Product(q, t)
  {
  }

  /** Before step i: the first i rows are eliminated and bounded, the others are as built. */
  ghost predicate EliminatedTo(x: seq<real>, y: seq<real>, c: seq<real>, d: seq<real>, i: int)
    requires |x| == |y| && Increasing(x)
  {
    && |c| == |d| == |x| && 0 <= i <= |x|
    && (forall k :: 0 <= k < i ==> Eliminated(x, y, c, d, k) && Bounded(c, k))
    && (forall k :: i <= k < |x| ==> c[k] == Above(x, k) && d[k] == RightSide(x, y, k))
  }

  lemma EliminationStep(x: seq<real>, y: seq<real>, c: seq<real>, d: seq<real>, i: int, t: real, c': seq<real>, d': seq<real>)
    requires |x| == |y| && Increasing(x) && 0 < i < |x| && EliminatedTo(x, y, c, d, i)
    requires t == Diagonal(x, i) - Product(Below(x, i), c[i - 1]) && t != 0.0
    requires c' == c[i := c[i] / t] && d' == d[i := (d[i] - Product(Below(x, i), d[i - 1])) / t]
    ensures EliminatedTo(x, y, c', d', i + 1)
  {
    QuotientTimes(c[i], t);
    QuotientTimes(d[i] - Product(Below(x, i), d[i - 1]), t);
    forall k | 0 <= k < i ensures Eliminated(x, y, c', d', k) && Bounded(c', k) {
      assert Eliminated(x, y, c, d, k) && Bounded(c, k);
    }
    assert Bounded(c, i - 1);
    PivotSign(x, c, i);
    if i < |x| - 1 { QuotientBetween(c'[i], Above(x, i), t); }
  }

  /**
   Fills the four coefficient arrays and eliminates the subdiagonal. It returns false where
   the source divides by a zero pivot, which is exactly when there are only two knots.
   */
  method EliminateRows(x: seq<real>, y: seq<real>, A: array<real>, B: array<real>, C: array<real>, D: array<real>)
    returns (finite: bool)
    requires |x| == |y| >= 2 && Increasing(x)
    requires A.Length == B.Length == C.Length == D.Length == |x|
    requires A != B && A != C && A != D && B != C && B != D && C != D
    modifies A, B, C, D
    ensures finite <==> |x| >= 3
    ensures finite ==> EliminatedTo(x, y, C[..], D[..], |x|)
  {
    hide EliminatedTo, Product;
    BuildRows(x, y, A, B, C, D);
    Nothing(x, y, C[..], D[..]);
    for i := 1 to |x|
      invariant forall k :: 0 <= k < |x| ==> A[k] == Below(x, k) && B[k] == Diagonal(x, k)
      invariant EliminatedTo(x, y, C[..], D[..], i)
      invariant |x| == 2 ==> i == 1
    {
      ghost var c, d := C[..], D[..];
      PivotNonzero(x, y, c, d, i);
      var t := EliminateRow(i, A, B, C, D);
      if t == 0.0 {
        return false;
      }
      EliminationStep(x, y, c, d, i, t, C[..], D[..]);
    }
    finite := true;
  }

  /** One row; a zero pivot t is reported before it divides. */
  method EliminateRow(i: nat, A: array<real>, B: array<real>, C: array<real>, D: array<real>) returns (t: real)
    requires 0 < i < A.Length == B.Length == C.Length == D.Length
    requires A != C && A != D && B != C && B != D && C != D
    modifies C, D
    ensures t == B[i] - Product(A[i], old(C[i - 1]))
    ensures t != 0.0 ==> C[..] == old(C[..][i := C[i] / t])
    ensures t != 0.0 ==> D[..] == old(D[..][i := (D[i] - Product(A[i], D[i - 1])) / t])
  {
    t := B[i] - A[i] * C[i - 1];
    if t != 0.0 {
      C[i] := C[i] / t;
      ghost var d := D[i] - Product(A[i], D[i - 1]);
      D[i] := (D[i] - A[i] * D[i - 1]) / t;
      assert D[i] == d / t;
    }
  }

  lemma Nothing(x: seq<real>, y: seq<real>, c: seq<real>, d: seq<real>)
    requires |x| == |y| == |c| == |d| >= 2 && Increasing(x)
    requires forall k :: 0 <= k < |x| ==> c[k] == Above(x, k) && d[k] == RightSide(x, y, k)
    ensures EliminatedTo(x, y, c, d, 1)
  {
  }

  lemma PivotNonzero(x: seq<real>, y: seq<real>, c: seq<real>, d: seq<real>, i: int)
    requires |x| == |y| && Increasing(x) && 0 < i < |x| && EliminatedTo(x, y, c, d, i)
    ensures |c| == |x| && (PivotAt(x, c, i) == 0.0 <==> |x| == 2)
  {
    assert Bounded(c, i - 1);
    PivotSign(x, c, i);
  }

  method BuildRows(x: seq<real>, y: seq<real>, A: array<real>, B: array<real>, C: array<real>, D: array<real>)
    requires |x| == |y| >= 2 && Increasing(x)
    requires A.Length == B.Length == C.Length == D.Length == |x|
    requires A != B && A != C && A != D && B != C && B != D && C != D
    modifies A, B, C, D
    ensures forall k :: 0 <= k < |x| ==> A[k] == Below(x, k) && B[k] == Diagonal(x, k)
    ensures forall k :: 0 <= k < |x| ==> C[k] == Above(x, k) && D[k] == RightSide(x, y, k)
  {
    var L := |x| - 1;
    A[0], A[L] := 0.0, 1.0;
    B[0], B[L] := 1.0, -1.0;
    C[0], C[L] := -1.0, 0.0;
    D[0], D[L] := 0.0, 0.0;
    for i := 1 to L
      invariant forall k :: (0 <= k < i || k == L) ==> A[k] == Below(x, k) && B[k] == Diagonal(x, k)
      invariant forall k :: (0 <= k < i || k == L) ==> C[k] == Above(x, k) && D[k] == RightSide(x, y, k)
    {
      var t := x[i] - x[i - 1];
      var p := x[i + 1] - x[i];
      A[i] := t / 6.0;
      C[i] := p / 6.0;
      B[i] := 2.0 * (A[i] + C[i]);
      D[i] := (y[i + 1] - y[i]) / p - (y[i] - y[i - 1]) / t;
    }
  }

  /** m[i] + c[i] m[i+1] == d[i], with nothing after the last row. */
  ghost predicate BackRow(c: seq<real>, d: seq<real>, m: seq<real>, i: int)
    requires 0 <= i < |m| == |c| == |d|
  {
    m[i] == d[i] - if i == |m| - 1 then 0.0 else Product(c[i], m[i + 1])
  }

  method BackSubstitute(c: seq<real>, d: seq<real>, A: array<real>)
    requires |c| == |d| == A.Length >= 1
    modifies A
    ensures forall i :: 0 <= i < A.Length ==> BackRow(c, d, A[..], i)
  {
    var N := A.Length;
    A[N - 1] := d[N - 1];
    for i := 0 to N - 1
      invariant A[N - 1] == d[N - 1]
      invariant forall k :: N - 1 - i <= k < N - 1 ==> A[k] == d[k] - Product(c[k], A[k + 1])
    {
      var j := N - i - 2;
      A[j] := d[j] - c[j] * A[j + 1];
    }
  }

  ghost predicate AllEliminated(x: seq<real>, y: seq<real>, c: seq<real>, d: seq<real>) {
    && |x| == |y| == |c| == |d| && |x| >= 2 && Increasing(x)
    && (forall i :: 0 <= i < |x| ==> Eliminated(x, y, c, d, i))
  }

  /** Back substitution satisfies every row of the original system. */
  lemma EliminationSolves(x: seq<real>, y: seq<real>, c: seq<real>, d: seq<real>, m: seq<real>)
    requires AllEliminated(x, y, c, d) && |m| == |x|
    requires forall i :: 0 <= i < |m| ==> BackRow(c, d, m, i)
    ensures Solves(x, y, m)
  {
    forall i | 0 <= i < |x| ensures Row(x, y, m, i) {
      assert Eliminated(x, y, c, d, i) && BackRow(c, d, m, i);
      if i > 0 {
        assert BackRow(c, d, m, i - 1);
        TridiagonalRow(Below(x, i), Diagonal(x, i), Above(x, i), RightSide(x, y, i), c[i - 1], d[i - 1], c[i], d[i],
                   m[i - 1], m[i], if i == |m| - 1 then 0.0 else m[i + 1]);
      }
    }
  }

  /** Every solution satisfies the eliminated rows. */
  lemma {:induction false} SolutionIsEliminated(x: seq<real>, y: seq<real>, c: seq<real>, d: seq<real>, m: seq<real>, i: int)
    requires AllEliminated(x, y, c, d) && Solves(x, y, m) && 0 <= i < |x|
    ensures BackRow(c, d, m, i)
    decreases i
  {
    assert Row(x, y, m, i) && Eliminated(x, y, c, d, i);
    if i > 0 {
      SolutionIsEliminated(x, y, c, d, m, i - 1);
      TridiagonalRow(Below(x, i), Diagonal(x, i), Above(x, i), RightSide(x, y, i), c[i - 1], d[i - 1], c[i], d[i],
                 m[i - 1], m[i], if i == |m| - 1 then 0.0 else m[i + 1]);
    }
  }

  lemma {:induction false} BackRowsDetermine(c: seq<real>, d: seq<real>, m: seq<real>, n: seq<real>, i: int)
    requires 0 <= i < |m| == |n| == |c| == |d|
    requires forall k :: 0 <= k < |m| ==> BackRow(c, d, m, k) && BackRow(c, d, n, k)
    ensures m[i] == n[i]
    decreases |m| - i
  {
    assert BackRow(c, d, m, i) && BackRow(c, d, n, i);
    if i < |m| - 1 { BackRowsDetermine(c, d, m, n, i + 1); }
  }

  /** Nonzero pivots leave room for one solution only. */
  lemma SolutionUnique(x: seq<real>, y: seq<real>, c: seq<real>, d: seq<real>, m: seq<real>, n: seq<real>)
    requires AllEliminated(x, y, c, d) && Solves(x, y, m) && Solves(x, y, n)
    ensures m == n
  {
    forall i | 0 <= i < |x| ensures BackRow(c, d, m, i) && BackRow(c, d, n, i) {
      SolutionIsEliminated(x, y, c, d, m, i);
      SolutionIsEliminated(x, y, c, d, n, i);
    }
    forall i | 0 <= i < |m| ensures m[i] == n[i] { BackRowsDetermine(c, d, m, n, i); }
  }

  // ----- the piecewise cubic

  function Cube(u: real): real { Product(u * u, u) }

  /** The cubic over [a, b] with end values ya, yb and end second derivatives ma, mb, as the source evaluates it. */
  function Piece(a: real, b: real, ya: real, yb: real, ma: real, mb: real, t: real): real
    requires a < b
  {
    var p := b - a;
    (ma * Cube(b - t) + mb * Cube(t - a)) / 6.0 / p
      + (b - t) * (ya / p - ma * p / 6.0) + (t - a) * (yb / p - mb * p / 6.0)
  }

  function PieceSlope(a: real, b: real, ya: real, yb: real, ma: real, mb: real, t: real): real
    requires a < b
  {
    var p := b - a;
    (mb * ((t - a) * (t - a)) - ma * ((b - t) * (b - t))) / 2.0 / p + (yb - ya) / p - (mb - ma) * p / 6.0
  }

  function PieceCurvature(a: real, b: real, ma: real, mb: real, t: real): real
    requires a < b
  {
    (ma * (b - t) + mb * (t - a)) / (b - a)
  }

  function PieceJerk(a: real, b: real, ma: real, mb: real): real
    requires a < b
  {
    (mb - ma) / (b - a)
  }

  /** Piece in terms of u == b - t, v == t - a, p == b - a and r == 1 / p. */
  function Blend(u: real, v: real, p: real, r: real, ya: real, yb: real, ma: real, mb: real): real {
    ma * Side(u, p, r) + mb * Side(v, p, r) + ya * (u * r) + yb * (v * r)
  }

  function Side(u: real, p: real, r: real): real { Cube(u) * r / 6.0 - u * p / 6.0 }

  /** Change of Side(u, p, r) when u moves by h; h2 and h3 are the square and the cube of h. */
  ghost function SideChange(u: real, p: real, r: real, h: real, h2: real, h3: real): real {
    (u * u) / 2.0 * r * h + u * r * (h2 / 2.0) + r * (h3 / 6.0) - h * p / 6.0
  }

  lemma PieceIsBlend(a: real, b: real, ya: real, yb: real, ma: real, mb: real, t: real, r: real)
    requires a < b && Product(b - a, r) == 1.0
    ensures Piece(a, b, ya, yb, ma, mb, t) == Blend(b - t, t - a, b - a, r, ya, yb, ma, mb)
  {
    var u, v, p, c, d := b - t, t - a, b - a, Cube(b - t), Cube(t - a);
    DivideByReciprocal((ma * c + mb * d) / 6.0, p, r);
    DivideByReciprocal(ya, p, r);
    DivideByReciprocal(yb, p, r);
    hide Cube, Product;
    BlendAlgebra(u, v, p, r, ya, yb, ma, mb, c, d, ya / p, yb / p, (ma * c + mb * d) / 6.0 / p);
  }

  lemma DivideByReciprocal(n: real, p: real, r: real)
    requires Product(p, r) == 1.0
    ensures p != 0.0 && n / p == n * r
  {
    assert p != 0.0;
    var q := n / p;
    assert q * p == n;
    assert q * (p * r) == (q * p) * r;
  }

  lemma BlendAlgebra(u: real, v: real, p: real, r: real, ya: real, yb: real, ma: real, mb: real, c: real, d: real, qa: real, qb: real, q: real)
    requires qa == ya * r && qb == yb * r && q == (ma * c + mb * d) / 6.0 * r
    ensures q + u * (qa - ma * p / 6.0) + v * (qb - mb * p / 6.0)
            == ma * (c * r / 6.0 - u * p / 6.0) + mb * (d * r / 6.0 - v * p / 6.0) + ya * (u * r) + yb * (v * r)
  {
    assert u * (qa - ma * p / 6.0) == u * (ya * r) - u * (ma * p / 6.0);
    assert v * (qb - mb * p / 6.0) == v * (yb * r) - v * (mb * p / 6.0);
  }

  /**
   PieceSlope, PieceCurvature and PieceJerk are the derivatives of Piece: they are
   the coefficients of its expansion about every t, for every step h.
   */
  lemma PieceTaylor(a: real, b: real, ya: real, yb: real, ma: real, mb: real, t: real, h: real)
    requires a < b
    ensures Piece(a, b, ya, yb, ma, mb, t + h) ==
            Piece(a, b, ya, yb, ma, mb, t) + Product(PieceSlope(a, b, ya, yb, ma, mb, t), h)
            + Product(PieceCurvature(a, b, ma, mb, t), h * h / 2.0) + Product(PieceJerk(a, b, ma, mb), Cube(h) / 6.0)
  {
    var u, v, p := b - t, t - a, b - a;
    var r := 1.0 / p;
    assert p * r == 1.0;
    PieceIsBlend(a, b, ya, yb, ma, mb, t, r);
    PieceIsBlend(a, b, ya, yb, ma, mb, t + h, r);
    CurvatureByReciprocal(a, b, ma, mb, t, r);
    SlopeByReciprocal(a, b, ya, yb, ma, mb, t, r);
    assert b - (t + h) == u - h && t + h - a == v + h;
    BlendTaylor(u, v, p, r, ya, yb, ma, mb, h);
    hide Piece, PieceSlope, PieceCurvature, PieceJerk, Blend, BlendSlope, BlendCurvature, Product, Cube;
  }

  lemma CurvatureByReciprocal(a: real, b: real, ma: real, mb: real, t: real, r: real)
    requires a < b && Product(b - a, r) == 1.0
    ensures PieceCurvature(a, b, ma, mb, t) == BlendCurvature(b - t, t - a, r, ma, mb)
    ensures PieceJerk(a, b, ma, mb) == (mb - ma) * r
  {
    DivideByReciprocal(ma * (b - t) + mb * (t - a), b - a, r);
    DivideByReciprocal(mb - ma, b - a, r);
  }

  ghost function BlendCurvature(u: real, v: real, r: real, ma: real, mb: real): real { (ma * u + mb * v) * r }

  ghost function BlendSlope(u: real, v: real, p: real, r: real, dy: real, ma: real, mb: real): real {
    (mb * (v * v) - ma * (u * u)) / 2.0 * r + dy * r - (mb - ma) * p / 6.0
  }

  lemma SlopeByReciprocal(a: real, b: real, ya: real, yb: real, ma: real, mb: real, t: real, r: real)
    requires a < b && Product(b - a, r) == 1.0
    ensures PieceSlope(a, b, ya, yb, ma, mb, t) == BlendSlope(b - t, t - a, b - a, r, yb - ya, ma, mb)
  {
    var p := b - a;
    var n := (mb * ((t - a) * (t - a)) - ma * ((b - t) * (b - t))) / 2.0;
    DivideByReciprocal(n, p, r);
    DivideByReciprocal(yb - ya, p, r);
    assert PieceSlope(a, b, ya, yb, ma, mb, t) == n / p + (yb - ya) / p - (mb - ma) * p / 6.0;
  }

  lemma BlendTaylor(u: real, v: real, p: real, r: real, ya: real, yb: real, ma: real, mb: real, h: real)
    ensures Blend(u - h, v + h, p, r, ya, yb, ma, mb) ==
            Blend(u, v, p, r, ya, yb, ma, mb) + Product(BlendSlope(u, v, p, r, yb - ya, ma, mb), h)
            + Product(BlendCurvature(u, v, r, ma, mb), h * h / 2.0) + Product((mb - ma) * r, Cube(h) / 6.0)
  {
    CubeOfNegative(h);
    SideTaylor(u, p, r, -h, h * h, -Cube(h));
    SideTaylor(v, p, r, h, h * h, Cube(h));
    ChangesAddUp(u, v, p, r, yb - ya, ma, mb, h, h * h, Cube(h));
    BlendChange(u, v, p, r, ya, yb, ma, mb, h, SideChange(u, p, r, -h, h * h, -Cube(h)), SideChange(v, p, r, h, h * h, Cube(h)));
  }

  lemma BlendChange(u: real, v: real, p: real, r: real, ya: real, yb: real, ma: real, mb: real, h: real, du: real, dv: real)
    requires Side(u - h, p, r) == Side(u, p, r) + du && Side(v + h, p, r) == Side(v, p, r) + dv
    ensures Blend(u - h, v + h, p, r, ya, yb, ma, mb) ==
            Blend(u, v, p, r, ya, yb, ma, mb) + Product(ma, du) + Product(mb, dv) + Product((yb - ya) * r, h)
  {
    var su, sv, tu, tv := Side(u, p, r), Side(v, p, r), Side(u - h, p, r), Side(v + h, p, r);
    hide Side;
    SumTimes(ma, su, du, tu);
    SumTimes(mb, sv, dv, tv);
    assert ya * ((u - h) * r) + yb * ((v + h) * r) == ya * (u * r) + yb * (v * r) + Product((yb - ya) * r, h);
  }

  lemma SumTimes(m: real, s: real, d: real, t: real)
    requires t == s + d
    ensures m * t == m * s + Product(m, d)
  {
  }

  lemma CubeOfNegative(h: real)
    ensures (-h) * (-h) == h * h && Cube(-h) == -Cube(h)
  {
    var q := h * h;
    assert (-h) * (-h) == q;
    assert Cube(-h) == q * (-h);
  }

  lemma ChangesAddUp(u: real, v: real, p: real, r: real, dy: real, ma: real, mb: real, h: real, h2: real, h3: real)
    ensures Product(ma, SideChange(u, p, r, -h, h2, -h3)) + Product(mb, SideChange(v, p, r, h, h2, h3)) + Product(dy * r, h)
            == Product(BlendSlope(u, v, p, r, dy, ma, mb), h)
               + Product(BlendCurvature(u, v, r, ma, mb), h2 / 2.0) + Product((mb - ma) * r, h3 / 6.0)
  {
    SideProduct(ma, u, p, r, -h, h2, -h3);
    SideProduct(mb, v, p, r, h, h2, h3);
    var k, l, e := ma * (u * u) / 2.0 * r - ma * p / 6.0, mb * (v * v) / 2.0 * r - mb * p / 6.0, dy * r;
    assert BlendSlope(u, v, p, r, dy, ma, mb) == l - k + e;
    Distribute(l, k, e, h);
    var a, b := ma * u * r, mb * v * r;
    assert BlendCurvature(u, v, r, ma, mb) == a + b;
    Distribute(a, 0.0, b, h2 / 2.0);
    var f, g := mb * r, ma * r;
    assert (mb - ma) * r == f - g;
    Distribute(f, g, 0.0, h3 / 6.0);
    assert Product(0.0, h2 / 2.0) == 0.0 && Product(0.0, -(h2 / 2.0)) == 0.0 && Product(0.0, h3 / 6.0) == 0.0;
    assert -h3 / 6.0 == -(h3 / 6.0);
    hide SideChange, BlendSlope, BlendCurvature, Product;
  }

  lemma Distribute(l: real, k: real, e: real, h: real)
    ensures Product(l - k + e, h) == Product(l, h) + Product(k, -h) + Product(e, h)
  {
  }

  lemma SideProduct(m: real, u: real, p: real, r: real, h: real, h2: real, h3: real)
    ensures Product(m, SideChange(u, p, r, h, h2, h3))
            == Product(m * (u * u) / 2.0 * r - m * p / 6.0, h) + Product(m * u * r, h2 / 2.0) + Product(m * r, h3 / 6.0)
  {
  }

  lemma CubeShift(u: real, h: real)
    ensures Cube(u + h) == Cube(u) + 3.0 * (u * u) * h + 3.0 * u * (h * h) + Cube(h)
  {
    var q := u * u + 2.0 * (u * h) + h * h;
    assert (u + h) * (u + h) == q;
    assert Cube(u + h) == q * (u + h);
  }

  lemma SideTaylor(u: real, p: real, r: real, h: real, h2: real, h3: real)
    requires h2 == h * h && h3 == Cube(h)
    ensures Side(u + h, p, r) == Side(u, p, r) + SideChange(u, p, r, h, h2, h3)
  {
    CubeShift(u, h);
    SideAlgebra(u, p, r, h, h2, h3, Cube(u), Cube(u + h));
  }

  lemma SideAlgebra(u: real, p: real, r: real, h: real, h2: real, h3: real, c: real, c': real)
    requires c' == c + 3.0 * (u * u) * h + 3.0 * u * h2 + h3
    ensures c' * r / 6.0 - (u + h) * p / 6.0 == c * r / 6.0 - u * p / 6.0 + SideChange(u, p, r, h, h2, h3)
  {
    assert c' * r == (c + 3.0 * (u * u) * h + 3.0 * u * h2 + h3) * r;
  }

  /** At its two ends a piece takes the end values. */
  lemma PieceAtEnds(a: real, b: real, ya: real, yb: real, ma: real, mb: real)
    requires a < b
    ensures Piece(a, b, ya, yb, ma, mb, a) == ya
    ensures Piece(a, b, ya, yb, ma, mb, b) == yb
  {
    var p := b - a;
    var r := 1.0 / p;
    assert p * r == 1.0;
    PieceIsBlend(a, b, ya, yb, ma, mb, a, r);
    PieceIsBlend(a, b, ya, yb, ma, mb, b, r);
    assert Cube(p) * r == p * p * (p * r) == p * p;
    assert Cube(0.0) == 0.0;
  }

  /** End slopes, as chord slope plus the curvature terms. */
  lemma PieceSlopeAtEnds(a: real, b: real, ya: real, yb: real, ma: real, mb: real)
    requires a < b
    ensures PieceSlope(a, b, ya, yb, ma, mb, a) == (yb - ya) / (b - a) - (2.0 * ma + mb) * (b - a) / 6.0
    ensures PieceSlope(a, b, ya, yb, ma, mb, b) == (yb - ya) / (b - a) + (ma + 2.0 * mb) * (b - a) / 6.0
    ensures PieceCurvature(a, b, ma, mb, a) == ma && PieceCurvature(a, b, ma, mb, b) == mb
  {
    var p := b - a;
    HalfSquare(mb, p);
    HalfSquare(-ma, p);
    assert (ma * p) / p == ma;
    assert (mb * p) / p == mb;
  }

  lemma HalfSquare(m: real, p: real)
    requires p != 0.0
    ensures m * (p * p) / 2.0 / p == m * p / 2.0
  {
    assert m * (p * p) / 2.0 == m * p / 2.0 * p;
  }

  // ----- the spline through the knots

  /** Knots, values and second derivatives of one length, at least two. */
  ghost predicate Knots(x: seq<real>, y: seq<real>, m: seq<real>) {
    |x| == |y| == |m| && |x| >= 2 && Increasing(x)
  }

  function SegmentValue(x: seq<real>, y: seq<real>, m: seq<real>, j: int, t: real): real
    requires Knots(x, y, m) && 0 <= j < |x| - 1
  {
    Piece(x[j], x[j + 1], y[j], y[j + 1], m[j], m[j + 1], t)
  }

  function SegmentSlope(x: seq<real>, y: seq<real>, m: seq<real>, j: int, t: real): real
    requires Knots(x, y, m) && 0 <= j < |x| - 1
  {
    PieceSlope(x[j], x[j + 1], y[j], y[j + 1], m[j], m[j + 1], t)
  }

  function SegmentCurvature(x: seq<real>, y: seq<real>, m: seq<real>, j: int, t: real): real
    requires Knots(x, y, m) && 0 <= j < |x| - 1
  {
    PieceCurvature(x[j], x[j + 1], m[j], m[j + 1], t)
  }

  /** Segment j serves t: it contains t, or t lies beyond the end that j is at. */
  ghost predicate Serves(x: seq<real>, j: int, t: real) {
    && 0 <= j < |x| - 1
    && (x[j] <= t <= x[j + 1] || (j == 0 && t < x[0]) || (j == |x| - 2 && t > x[|x| - 1]))
  }

  /** v is the value at t of the spline with second derivatives m. */
  ghost predicate OnSpline(x: seq<real>, y: seq<real>, m: seq<real>, t: real, v: real) {
    Knots(x, y, m) && forall j :: Serves(x, j, t) ==> v == SegmentValue(x, y, m, j, t)
  }

  /** The curve is the piece over the segment that holds t, and beyond the knots the end piece goes on. */
  lemma OnSplineMeans(x: seq<real>, y: seq<real>, m: seq<real>, t: real, v: real)
    requires OnSpline(x, y, m, t, v)
    ensures t <= x[1] ==> v == SegmentValue(x, y, m, 0, t)
    ensures t >= x[|x| - 2] ==> v == SegmentValue(x, y, m, |x| - 2, t)
    ensures forall j :: 0 <= j < |x| - 1 && x[j] <= t <= x[j + 1] ==> v == SegmentValue(x, y, m, j, t)
  {
    hide SegmentValue;
    assert t <= x[1] ==> Serves(x, 0, t);
    assert t >= x[|x| - 2] ==> Serves(x, |x| - 2, t);
    forall j | 0 <= j < |x| - 1 && x[j] <= t <= x[j + 1] ensures v == SegmentValue(x, y, m, j, t) { assert Serves(x, j, t); }
  }

  /** The curve passes through every knot, whichever adjoining segment evaluates it. */
  lemma PassesThroughKnots(x: seq<real>, y: seq<real>, m: seq<real>, j: int)
    requires Knots(x, y, m) && 0 <= j < |x| - 1
    ensures SegmentValue(x, y, m, j, x[j]) == y[j] && SegmentValue(x, y, m, j, x[j + 1]) == y[j + 1]
  {
    PieceAtEnds(x[j], x[j + 1], y[j], y[j + 1], m[j], m[j + 1]);
  }

  /**
   First and second derivatives agree on both sides of an interior knot; the first
   is exactly what row j of the system says.
   */
  lemma SmoothAtKnot(x: seq<real>, y: seq<real>, m: seq<real>, j: int)
    requires Knots(x, y, m) && 0 < j < |x| - 1
    ensures SegmentCurvature(x, y, m, j - 1, x[j]) == SegmentCurvature(x, y, m, j, x[j]) == m[j]
    ensures SegmentSlope(x, y, m, j - 1, x[j]) == SegmentSlope(x, y, m, j, x[j]) <==> Row(x, y, m, j)
  {
    PieceSlopeAtEnds(x[j - 1], x[j], y[j - 1], y[j], m[j - 1], m[j]);
    PieceSlopeAtEnds(x[j], x[j + 1], y[j], y[j + 1], m[j], m[j + 1]);
    SlopeGap(x[j] - x[j - 1], x[j + 1] - x[j], m[j - 1], m[j], m[j + 1]);
    var l, r := SegmentSlope(x, y, m, j - 1, x[j]), SegmentSlope(x, y, m, j, x[j]);
    assert l == Secant(x, y, j - 1) + (m[j - 1] + 2.0 * m[j]) * (x[j] - x[j - 1]) / 6.0;
    assert r == Secant(x, y, j) - (2.0 * m[j] + m[j + 1]) * (x[j + 1] - x[j]) / 6.0;
  }

  /** Slopes and curvatures agree on both sides of every interior knot. */
  ghost predicate Smooth(x: seq<real>, y: seq<real>, m: seq<real>) {
    && Knots(x, y, m)
    && forall j :: 0 < j < |x| - 1 ==>
         && SegmentSlope(x, y, m, j - 1, x[j]) == SegmentSlope(x, y, m, j, x[j])
         && SegmentCurvature(x, y, m, j - 1, x[j]) == SegmentCurvature(x, y, m, j, x[j])
  }

  /** A curve is smooth exactly when its second derivatives satisfy the interior rows. */
  lemma SmoothIffRows(x: seq<real>, y: seq<real>, m: seq<real>)
    requires Knots(x, y, m)
    ensures Smooth(x, y, m) <==> forall j :: 0 < j < |x| - 1 ==> Row(x, y, m, j)
  {
    hide Row, SegmentSlope, SegmentCurvature;
    forall j | 0 < j < |x| - 1
      ensures SegmentCurvature(x, y, m, j - 1, x[j]) == SegmentCurvature(x, y, m, j, x[j])
      ensures SegmentSlope(x, y, m, j - 1, x[j]) == SegmentSlope(x, y, m, j, x[j]) <==> Row(x, y, m, j)
    {
      SmoothAtKnot(x, y, m, j);
    }
  }

  lemma SlopeGap(p: real, q: real, m0: real, m1: real, m2: real)
    ensures (m0 + 2.0 * m1) * p / 6.0 + (2.0 * m1 + m2) * q / 6.0
            == Product(p / 6.0, m0) + Product(2.0 * (p / 6.0 + q / 6.0), m1) + Product(q / 6.0, m2)
  {
  }

  /** Two segments that serve the same t give the same value. */
  lemma ServingSegmentsAgree(x: seq<real>, y: seq<real>, m: seq<real>, i: int, j: int, t: real)
    requires Knots(x, y, m) && Serves(x, i, t) && Serves(x, j, t)
    ensures SegmentValue(x, y, m, i, t) == SegmentValue(x, y, m, j, t)
  {
    if i < j {
      NeighboursAgree(x, y, m, i, j, t);
    } else if j < i {
      NeighboursAgree(x, y, m, j, i, t);
    }
  }

  lemma NeighboursAgree(x: seq<real>, y: seq<real>, m: seq<real>, i: int, j: int, t: real)
    requires Knots(x, y, m) && Serves(x, i, t) && Serves(x, j, t) && i < j
    ensures SegmentValue(x, y, m, i, t) == SegmentValue(x, y, m, j, t)
  {
    assert t >= x[j] && t <= x[i + 1];
    assert j == i + 1;
    PassesThroughKnots(x, y, m, i);
    PassesThroughKnots(x, y, m, j);
  }

  // ----- quadratics

  function Quadratic(q0: real, q1: real, q2: real, t: real): real { q0 + q1 * t + q2 * (t * t) }

  ghost predicate Samples(x: seq<real>, y: seq<real>, q0: real, q1: real, q2: real) {
    |x| == |y| && forall i :: 0 <= i < |x| ==> y[i] == Quadratic(q0, q1, q2, x[i])
  }

  lemma SecantOfQuadratic(q0: real, q1: real, q2: real, a: real, b: real)
    requires a != b
    ensures (Quadratic(q0, q1, q2, b) - Quadratic(q0, q1, q2, a)) / (b - a) == q1 + q2 * (a + b)
  {
    var d, s := b - a, q1 + q2 * (a + b);
    assert s * d == Quadratic(q0, q1, q2, b) - Quadratic(q0, q1, q2, a);
    assert (s * d) / d == s;
  }

  /** The constant second derivative of a quadratic solves the system for its samples. */
  lemma ConstantSolves(x: seq<real>, y: seq<real>, m: seq<real>, q0: real, q1: real, q2: real)
    requires Knots(x, y, m) && Samples(x, y, q0, q1, q2)
    requires forall i :: 0 <= i < |m| ==> m[i] == 2.0 * q2
    ensures Solves(x, y, m)
  {
    forall i | 0 <= i < |x| ensures Row(x, y, m, i) {
      if 0 < i < |x| - 1 {
        SecantOfQuadratic(q0, q1, q2, x[i - 1], x[i]);
        SecantOfQuadratic(q0, q1, q2, x[i], x[i + 1]);
        ConstantRow(x[i - 1], x[i], x[i + 1], q1, q2);
      }
    }
  }

  lemma ConstantRow(a: real, b: real, c: real, q1: real, q2: real)
    ensures Product((b - a) / 6.0, 2.0 * q2) + Product(2.0 * ((b - a) / 6.0 + (c - b) / 6.0), 2.0 * q2) + Product((c - b) / 6.0, 2.0 * q2)
            == (q1 + q2 * (b + c)) - (q1 + q2 * (a + b))
  {
  }

  /** A piece with the ends and the second derivative of a quadratic is that quadratic everywhere. */
  lemma PieceOfQuadratic(a: real, b: real, q0: real, q1: real, q2: real, t: real)
    requires a < b
    ensures Piece(a, b, Quadratic(q0, q1, q2, a), Quadratic(q0, q1, q2, b), 2.0 * q2, 2.0 * q2, t) == Quadratic(q0, q1, q2, t)
  {
    // the same polynomial has the same expansion about a
    var h := t - a;
    var ya, yb, m := Quadratic(q0, q1, q2, a), Quadratic(q0, q1, q2, b), 2.0 * q2;
    PieceTaylor(a, b, ya, yb, m, m, a, h);
    PieceAtEnds(a, b, ya, yb, m, m);
    PieceSlopeAtEnds(a, b, ya, yb, m, m);
    SecantOfQuadratic(q0, q1, q2, a, b);
    assert PieceJerk(a, b, m, m) == 0.0;
    var sl, cu := PieceSlope(a, b, ya, yb, m, m, a), PieceCurvature(a, b, m, m, a);
    assert (2.0 * m + m) * (b - a) / 6.0 == q2 * (b - a);
    assert q2 * (a + b) - q2 * (b - a) == 2.0 * (q2 * a);
    assert sl == q1 + 2.0 * (q2 * a);
    assert cu == 2.0 * q2;
    assert t == a + h;
    hide Piece, PieceSlope, PieceCurvature, PieceJerk, Cube;
    QuadraticTaylor(q0, q1, q2, a, h);
  }

  lemma QuadraticTaylor(q0: real, q1: real, q2: real, a: real, h: real)
    ensures Quadratic(q0, q1, q2, a + h) == Quadratic(q0, q1, q2, a) + Product(q1 + 2.0 * (q2 * a), h) + Product(2.0 * q2, h * h / 2.0)
  {
    assert (a + h) * (a + h) == a * a + 2.0 * (a * h) + h * h;
  }

  // ----- the interpolator

  method FindSegment(x: seq<real>, t: real) returns (j: int)
    requires |x| >= 2 && Increasing(x)
    ensures Serves(x, j, t)
  {
    var L := |x| - 1;
    if t < x[0] {
      j := 0;
    } else if t > x[L] {
      j := L - 1;
    } else {
      j := 0;
      while j < L
        invariant 0 <= j <= L && x[j] <= t
        invariant j > 0 ==> x[j] < t
      {
        if x[j] <= t && t <= x[j + 1] { break; }
        j := j + 1;
      }
    }
  }

  lemma ServedValue(x: seq<real>, y: seq<real>, m: seq<real>, j: int, t: real)
    requires Knots(x, y, m) && Serves(x, j, t)
    ensures OnSpline(x, y, m, t, SegmentValue(x, y, m, j, t))
  {
    forall i | Serves(x, i, t) ensures SegmentValue(x, y, m, j, t) == SegmentValue(x, y, m, i, t) {
      ServingSegmentsAgree(x, y, m, i, j, t);
    }
  }

  /** The loop over the requested positions; A holds the second derivatives. */
  method Evaluate(x: seq<real>, y: seq<real>, A: array<real>, XO: seq<real>, YO: array<real>)
    requires Knots(x, y, A[..]) && YO.Length == |XO| && YO != A
    modifies YO
    ensures forall i :: 0 <= i < |XO| ==> OnSpline(x, y, A[..], XO[i], YO[i])
  {
    hide OnSpline, Piece;
    ghost var m := A[..];
    for i := 0 to |XO|
      invariant forall k :: 0 <= k < i ==> OnSpline(x, y, m, XO[k], YO[k])
    {
      var t := XO[i];
      var j := FindSegment(x, t);
      YO[i] := Piece(x[j], x[j + 1], y[j], y[j + 1], A[j], A[j + 1], t);
      ServedValue(x, y, m, j, t);
    }
  }

  /**
   Interpolates the samples (x, y) at the positions XO. With at least three knots the
   values lie on the smooth curve whose second derivatives solve the system, and samples of a
   quadratic give back the quadratic at every position, inside the knots or beyond them.
   It reports false for two knots, where the source divides zero by zero.
   */
  method CubicSpline(x: seq<real>, y: seq<real>, XO: seq<real>, YO: array<real>) returns (finite: bool)
    requires |x| == |y| >= 2 && Increasing(x) && YO.Length == |XO|
    modifies YO
    ensures finite <==> |x| >= 3
    ensures finite ==> exists m :: Solves(x, y, m) && Smooth(x, y, m) && forall i :: 0 <= i < |XO| ==> OnSpline(x, y, m, XO[i], YO[i])
    ensures finite ==> forall i, k :: 0 <= i < |XO| && 0 <= k < |x| && XO[i] == x[k] ==> YO[i] == y[k]
    ensures finite ==> forall q0, q1, q2, i :: Samples(x, y, q0, q1, q2) && 0 <= i < |XO| ==> YO[i] == Quadratic(q0, q1, q2, XO[i])
  {
    hide EliminatedTo, Solves, Smooth, OnSpline, Samples, Quadratic;
    var N := |x|;
    var A, B, C, D := new real[N], new real[N], new real[N], new real[N];
    finite := EliminateRows(x, y, A, B, C, D);
    if !finite {
      return;
    }
    BackSubstitute(C[..], D[..], A);
    ghost var c, d, m := C[..], D[..], A[..];
    SystemSolved(x, y, c, d, m);
    Evaluate(x, y, A, XO, YO);
    forall i, k | 0 <= i < |XO| && 0 <= k < |x| && XO[i] == x[k] ensures YO[i] == y[k] {
      KnotValue(x, y, m, k, YO[i]);
    }
    forall q0, q1, q2, i | Samples(x, y, q0, q1, q2) && 0 <= i < |XO| ensures YO[i] == Quadratic(q0, q1, q2, XO[i]) {
      QuadraticReproduced(x, y, c, d, m, q0, q1, q2, XO[i], YO[i]);
    }
  }

  lemma SystemSolved(x: seq<real>, y: seq<real>, c: seq<real>, d: seq<real>, m: seq<real>)
    requires |x| == |y| == |m| && |x| >= 2 && Increasing(x) && EliminatedTo(x, y, c, d, |x|)
    requires forall i :: 0 <= i < |m| ==> BackRow(c, d, m, i)
    ensures AllEliminated(x, y, c, d) && Solves(x, y, m) && Smooth(x, y, m)
  {
    hide Row, Smooth;
    EliminationSolves(x, y, c, d, m);
    SmoothIffRows(x, y, m);
  }

  lemma KnotValue(x: seq<real>, y: seq<real>, m: seq<real>, k: int, v: real)
    requires 0 <= k < |x| && OnSpline(x, y, m, x[k], v)
    ensures v == y[k]
  {
    var j := if k < |x| - 1 then k else k - 1;
    assert Serves(x, j, x[k]);
    PassesThroughKnots(x, y, m, j);
  }

  /** Uniqueness of the solution turns the constant solution into the computed one. */
  lemma QuadraticReproduced(x: seq<real>, y: seq<real>, c: seq<real>, d: seq<real>, m: seq<real>,
                            q0: real, q1: real, q2: real, t: real, v: real)
    requires AllEliminated(x, y, c, d) && Solves(x, y, m) && Samples(x, y, q0, q1, q2) && OnSpline(x, y, m, t, v)
    ensures v == Quadratic(q0, q1, q2, t)
  {
    var n := seq(|x|, _ => 2.0 * q2);
    ConstantSolves(x, y, n, q0, q1, q2);
    SolutionUnique(x, y, c, d, m, n);
    var j := SomeSegment(x, t);
    PieceOfQuadratic(x[j], x[j + 1], q0, q1, q2, t);
  }

  lemma SomeSegment(x: seq<real>, t: real) returns (j: int)
    requires |x| >= 2 && Increasing(x)
    ensures Serves(x, j, t)
  {
    j := 0;
    while j < |x| - 2 && x[j + 1] < t
      invariant 0 <= j < |x| - 1
      invariant j > 0 ==> x[j] < t
    {
      j := j + 1;
    }
  }
}
