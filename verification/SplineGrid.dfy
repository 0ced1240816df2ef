/**
 The natural spline of src/AMath.cpp, its evaluation by bisection, and their
 composition on a rectangular grid stored row by row in one flat array.
 */
module SplineGrids {
  import opened Numeric
  import CubicSplines

  /** AEPS: a bracket narrower than this is refused. */
  const AEPS: real := 0.000001

  // ----- the natural system

  /** Share of the left gap in the two gaps around node i. */
  function Sig(x: seq<real>, i: int): real
    requires 0 < i < |x| - 1 && Increasing(x)
  {
    (x[i] - x[i - 1]) / (x[i + 1] - x[i - 1])
  }

  function RightSide(x: seq<real>, y: seq<real>, i: int): real
    requires 0 < i < |x| - 1 && |x| == |y| && Increasing(x)
  {
    6.0 * ((y[i + 1] - y[i]) / (x[i + 1] - x[i]) - (y[i] - y[i - 1]) / (x[i] - x[i - 1])) / (x[i + 1] - x[i - 1])
  }

  /** Row i of the tridiagonal system for the second derivatives c. */
  ghost predicate Row(x: seq<real>, y: seq<real>, c: seq<real>, i: int)
    requires 0 < i < |x| - 1 && |x| == |y| == |c| && Increasing(x)
  {
    Product(Sig(x, i), c[i - 1]) + 2.0 * c[i] + Product(1.0 - Sig(x, i), c[i + 1]) == RightSide(x, y, i)
  }

  /** c are the second derivatives of the natural spline through (x, y). */
  ghost predicate Natural(x: seq<real>, y: seq<real>, c: seq<real>) {
    && |x| == |y| == |c| >= 2 && Increasing(x)
    && c[0] == 0.0 && c[|c| - 1] == 0.0
    && forall i :: 0 < i < |x| - 1 ==> Row(x, y, c, i)
  }

  // ----- what the system means for the curve

  /** The piecewise cubic with second derivatives c has continuous slope and curvature, and no curvature at its ends. */
  ghost predicate NaturalCurve(x: seq<real>, y: seq<real>, c: seq<real>) {
    && CubicSplines.Smooth(x, y, c)
    && CubicSplines.SegmentCurvature(x, y, c, 0, x[0]) == 0.0
    && CubicSplines.SegmentCurvature(x, y, c, |x| - 2, x[|x| - 1]) == 0.0
  }

  /** Row i is row i of the other interpolator's system, scaled: both say that the slopes agree at node i. */
  lemma RowIffKnotRow(x: seq<real>, y: seq<real>, c: seq<real>, i: int)
    requires 0 < i < |x| - 1 && |x| == |y| == |c| && Increasing(x)
    ensures Row(x, y, c, i) <==> CubicSplines.Row(x, y, c, i)
  {
    var l, g := x[i] - x[i - 1], x[i + 1] - x[i - 1];
    var d := CubicSplines.Secant(x, y, i) - CubicSplines.Secant(x, y, i - 1);
    var s, k := Sig(x, i), RightSide(x, y, i);
    assert k == 6.0 * d / g;
    ScaledRow(l, g, d, s, k, c[i - 1], c[i], c[i + 1]);
  }

  lemma ScaledRow(l: real, g: real, d: real, s: real, k: real, m0: real, m1: real, m2: real)
    requires g > 0.0 && s == l / g && k == 6.0 * d / g
    ensures Product(s, m0) + 2.0 * m1 + Product(1.0 - s, m2) == k <==>
            Product(l / 6.0, m0) + Product(2.0 * (l / 6.0 + (g - l) / 6.0), m1) + Product((g - l) / 6.0, m2) == d
  {
    assert s * g == l && k * g == 6.0 * d;
    var z := Product(s, m0) + 2.0 * m1 + Product(1.0 - s, m2) - k;
    assert Product(g, z) == (s * g) * m0 + 2.0 * (g * m1) + (g - s * g) * m2 - k * g;
    if Product(g, z) == 0.0 { ZeroFactor(g, z); }
    WithZeroAndOne(g);
  }

  /** The system says exactly that the curve is smooth and free of curvature at its ends. */
  lemma NaturalIsCurve(x: seq<real>, y: seq<real>, c: seq<real>)
    requires |x| == |y| == |c| >= 2 && Increasing(x)
    ensures Natural(x, y, c) <==> NaturalCurve(x, y, c)
  {
    hide Row, CubicSplines.Row, CubicSplines.Smooth;
    CubicSplines.SmoothIffRows(x, y, c);
    forall i | 0 < i < |x| - 1 ensures Row(x, y, c, i) <==> CubicSplines.Row(x, y, c, i) { RowIffKnotRow(x, y, c, i); }
    var n := |x| - 1;
    CubicSplines.PieceSlopeAtEnds(x[0], x[1], y[0], y[1], c[0], c[1]);
    CubicSplines.PieceSlopeAtEnds(x[n - 1], x[n], y[n - 1], y[n], c[n - 1], c[n]);
  }

  // ----- forward elimination and back substitution

  ghost predicate Eliminated(x: seq<real>, y: seq<real>, c: seq<real>, u: seq<real>, i: int)
    requires 0 < i < |x| - 1 && |x| == |y| && |c| >= |x| && |u| >= |x| && Increasing(x)
  {
    var p := Product(Sig(x, i), c[i - 1]) + 2.0;
    && p > 1.0
    && Product(p, c[i]) == Sig(x, i) - 1.0
    && Product(p, u[i]) == RightSide(x, y, i) - Product(Sig(x, i), u[i - 1])
  }

  lemma SigBetween(x: seq<real>, i: int)
    requires 0 < i < |x| - 1 && Increasing(x)
    ensures 0.0 < Sig(x, i) < 1.0
  {
    var t1, t2 := x[i] - x[i - 1], x[i + 1] - x[i - 1];
    assert 0.0 < t1 < t2;
    Fraction(t1, t2, Sig(x, i));
  }

  lemma Fraction(a: real, b: real, q: real)
    requires 0.0 < a < b && q == a / b
    ensures 0.0 < q < 1.0
  {
    assert Product(q, b) == a;
    SignOfFactor(q, b, a);
    assert Product(1.0 - q, b) == b - a;
    SignOfFactor(1.0 - q, b, b - a);
  }

  lemma SignOfFactor(q: real, b: real, a: real)
    requires b > 0.0 && Product(q, b) == a
    ensures a > 0.0 ==> q > 0.0
  {
  }

  /** With the previous coefficient in (-1, 0] the pivot exceeds 1 and the next coefficient lies in (-1, 0). */
  lemma PivotAboveOne(sig: real, c0: real)
    requires 0.0 < sig < 1.0 && -1.0 < c0 <= 0.0
    ensures var p := Product(sig, c0) + 2.0; p > 1.0 && -1.0 < (sig - 1.0) / p < 0.0
  {
    var p := Product(sig, c0) + 2.0;
    assert Product(sig, c0 + 1.0) > 0.0;
    assert Product(sig, c0 + 1.0) == Product(sig, c0) + sig;
    assert p > 1.0;
    Fraction(1.0 - sig, p, (1.0 - sig) / p);
    NegatedQuotient(1.0 - sig, p);
  }

  lemma NegatedQuotient(a: real, p: real)
    requires p > 0.0
    ensures (-a) / p == -(a / p)
  {
    var q := a / p;
    assert q * p == a;
    assert (-q) * p == -a;
  }

  ghost predicate EliminatedTo(x: seq<real>, y: seq<real>, c: seq<real>, u: seq<real>, i: int)
    requires |x| == |y| && Increasing(x)
  {
    && |c| >= |x| && |u| >= |x| && 1 <= i < |x|
    && c[0] == 0.0 && u[0] == 0.0
    && (forall k :: 0 <= k < i ==> -1.0 < c[k] <= 0.0)
    && (forall k :: 0 < k < i ==> Eliminated(x, y, c, u, k))
  }

  lemma EliminationStep(x: seq<real>, y: seq<real>, c: seq<real>, u: seq<real>, i: int, ci: real, ui: real)
    requires |x| == |y| && Increasing(x) && i < |x| - 1 && EliminatedTo(x, y, c, u, i)
    requires var p := Product(Sig(x, i), c[i - 1]) + 2.0;
             p != 0.0 ==> ci == (Sig(x, i) - 1.0) / p && ui == (RightSide(x, y, i) - Product(Sig(x, i), u[i - 1])) / p
    ensures EliminatedTo(x, y, c[i := ci], u[i := ui], i + 1)
  {
    SigBetween(x, i);
    PivotAboveOne(Sig(x, i), c[i - 1]);
    var p := Product(Sig(x, i), c[i - 1]) + 2.0;
    QuotientTimes(Sig(x, i) - 1.0, p);
    QuotientTimes(RightSide(x, y, i) - Product(Sig(x, i), u[i - 1]), p);
    var c', u' := c[i := ci], u[i := ui];
    forall k | 0 < k < i ensures Eliminated(x, y, c', u', k) {
      assert Eliminated(x, y, c, u, k);
    }
  }

  /** The natural branch of spline, which both ends take when their slope is unknown. */
  method NaturalSpline(x: seq<real>, y: seq<real>, c: array<real>)
    requires |x| == |y| >= 2 && Increasing(x) && c.Length >= |x|
    modifies c
    ensures Natural(x, y, c[..|x|]) && NaturalCurve(x, y, c[..|x|])
  {
    hide ReadyForBack, Natural, NaturalCurve, BackRows;
    var n := |x|;
    var u := new real[n];
    EliminateRows(x, y, c, u);
    ghost var c0, u0 := c[..], u[..];
    BackSubstitute(c, u, n);
    BackSubstituted(x, y, c0, u0, c[..n]);
    NaturalIsCurve(x, y, c[..n]);
  }

  /** m[k] == c[k] m[k+1] + u[k], from the last entry up. */
  ghost predicate BackRows(c: seq<real>, u: seq<real>, m: seq<real>) {
    && 0 < |m| <= |c| && |m| <= |u| && m[|m| - 1] == c[|m| - 1]
    && forall k :: 0 <= k < |m| - 1 ==> m[k] == Product(c[k], m[k + 1]) + u[k]
  }

  method BackSubstitute(c: array<real>, u: array<real>, n: int)
    requires 0 < n <= c.Length && n <= u.Length && c != u
    modifies c
    ensures BackRows(old(c[..]), u[..], c[..n])
  {
    hide Product;
    ghost var c0 := c[..];
    for i := n - 1 downto 0
      invariant forall k :: 0 <= k < i || k == n - 1 ==> c[k] == c0[k]
      invariant forall k :: i <= k < n - 1 ==> c[k] == Product(c0[k], c[k + 1]) + u[k]
    {
      c[i] := Product(c[i], c[i + 1]) + u[i];
    }
  }

  method EliminateRows(x: seq<real>, y: seq<real>, c: array<real>, u: array<real>)
    requires |x| == |y| == u.Length >= 2 && Increasing(x) && c.Length >= |x| && c != u
    modifies c, u
    ensures ReadyForBack(x, y, c[..], u[..])
  {
    hide EliminatedTo, ReadyForBack, Product, Sig, RightSide;
    var n := |x|;
    c[0] := 0.0;
    u[0] := 0.0;
    NothingEliminated(x, y, c[..], u[..]);
    for i := 1 to n - 1
      invariant EliminatedTo(x, y, c[..], u[..], i)
    {
      ghost var c0, u0 := c[..], u[..];
      PivotPositive(x, y, c0, u0, i);
      EliminateRow(x, y, c, u, i);
      EliminationStep(x, y, c0, u0, i, c[i], u[i]);
    }
    ghost var c1 := c[..];
    c[n - 1] := (0.0 - 0.0 * u[n - 2]) / (0.0 * c[n - 2] + 1.0);
    LastCoefficient(x, y, c1, c[..], u[..]);
  }

  method EliminateRow(x: seq<real>, y: seq<real>, c: array<real>, u: array<real>, i: int)
    requires |x| == |y| && Increasing(x) && 0 < i < |x| - 1 && c.Length >= |x| && u.Length >= |x| && c != u
    requires Product(Sig(x, i), c[i - 1]) + 2.0 != 0.0
    modifies c, u
    ensures c[..] == old(c[..])[i := c[i]] && u[..] == old(u[..])[i := u[i]]
    ensures c[i] == (Sig(x, i) - 1.0) / (Product(Sig(x, i), c[i - 1]) + 2.0)
    ensures u[i] == (RightSide(x, y, i) - Product(Sig(x, i), u[i - 1])) / (Product(Sig(x, i), c[i - 1]) + 2.0)
  {
    var t1 := x[i] - x[i - 1];
    var t2 := x[i + 1] - x[i - 1];
    var sig := t1 / t2;
    var p := sig * c[i - 1] + 2.0;
    c[i] := (sig - 1.0) / p;
    ghost var rhs := RightSide(x, y, i) - Product(sig, u[i - 1]);
    u[i] := (6.0 * ((y[i + 1] - y[i]) / (x[i + 1] - x[i]) - (y[i] - y[i - 1]) / t1) / t2 - sig * u[i - 1]) / p;
    assert u[i] == rhs / p;
  }

  lemma NothingEliminated(x: seq<real>, y: seq<real>, c: seq<real>, u: seq<real>)
    requires |x| == |y| >= 2 && Increasing(x) && |c| >= |x| && |u| >= |x| && c[0] == 0.0 && u[0] == 0.0
    ensures EliminatedTo(x, y, c, u, 1)
  {
  }

  lemma PivotPositive(x: seq<real>, y: seq<real>, c: seq<real>, u: seq<real>, i: int)
    requires |x| == |y| && Increasing(x) && i < |x| - 1 && EliminatedTo(x, y, c, u, i)
    ensures Product(Sig(x, i), c[i - 1]) + 2.0 > 1.0
  {
    SigBetween(x, i);
    PivotAboveOne(Sig(x, i), c[i - 1]);
  }

  /** Setting the last entry leaves the eliminated rows alone. */
  ghost predicate ReadyForBack(x: seq<real>, y: seq<real>, c: seq<real>, u: seq<real>)
    requires |x| == |y| && Increasing(x)
  {
    && |c| >= |x| >= 2 && |u| >= |x|
    && c[0] == 0.0 && u[0] == 0.0 && c[|x| - 1] == 0.0
    && (forall k :: 0 < k < |x| - 1 ==> Eliminated(x, y, c, u, k))
  }

  lemma LastCoefficient(x: seq<real>, y: seq<real>, c: seq<real>, c': seq<real>, u: seq<real>)
    requires |x| == |y| >= 2 && Increasing(x) && EliminatedTo(x, y, c, u, |x| - 1)
    requires c' == c[|x| - 1 := 0.0]
    ensures ReadyForBack(x, y, c', u)
  {
    forall k | 0 < k < |x| - 1 ensures Eliminated(x, y, c', u, k) {
      assert Eliminated(x, y, c, u, k);
    }
  }

  lemma BackSubstituted(x: seq<real>, y: seq<real>, c: seq<real>, u: seq<real>, m: seq<real>)
    requires |x| == |y| == |m| && Increasing(x) && ReadyForBack(x, y, c, u)
    requires BackRows(c, u, m)
    ensures Natural(x, y, m)
  {
    forall i | 0 < i < |x| - 1 ensures Row(x, y, m, i) {
      assert Eliminated(x, y, c, u, i);
      NaturalRowStep(Sig(x, i), c[i - 1], c[i], u[i - 1], u[i], RightSide(x, y, i), m[i - 1], m[i], m[i + 1]);
    }
    assert m[0] == Product(0.0, m[1]) + 0.0;
  }

  /** The shared row step; the array holds the coefficients with the opposite sign. */
  lemma NaturalRowStep(sig: real, c0: real, c1: real, u0: real, u1: real, r: real, m0: real, m1: real, m2: real)
    requires Product(Product(sig, c0) + 2.0, c1) == sig - 1.0
    requires Product(Product(sig, c0) + 2.0, u1) == r - Product(sig, u0)
    requires m0 == Product(c0, m1) + u0
    ensures m1 == Product(c1, m2) + u1 ==> Product(sig, m0) + 2.0 * m1 + Product(1.0 - sig, m2) == r
    ensures Product(sig, c0) + 2.0 > 1.0 && Product(sig, m0) + 2.0 * m1 + Product(1.0 - sig, m2) == r ==> m1 == Product(c1, m2) + u1
  {
    TridiagonalRow(sig, 2.0, 1.0 - sig, r, -c0, u0, -c1, u1, m0, m1, m2);
  }

  // ----- the natural solution is unique

  lemma {:induction false} SolutionIsEliminated(x: seq<real>, y: seq<real>, c: seq<real>, u: seq<real>, m: seq<real>, i: int)
    requires |x| == |y| && Increasing(x) && ReadyForBack(x, y, c, u) && Natural(x, y, m) && 0 <= i < |x| - 1
    ensures m[i] == Product(c[i], m[i + 1]) + u[i]
    decreases i
  {
    WithZeroAndOne(m[i + 1]);
    if i > 0 {
      SolutionIsEliminated(x, y, c, u, m, i - 1);
      assert Row(x, y, m, i) && Eliminated(x, y, c, u, i);
      NaturalRowStep(Sig(x, i), c[i - 1], c[i], u[i - 1], u[i], RightSide(x, y, i), m[i - 1], m[i], m[i + 1]);
    }
  }

  lemma {:induction false} SameFromBehind(x: seq<real>, y: seq<real>, c: seq<real>, u: seq<real>, m: seq<real>, n: seq<real>, i: int)
    requires |x| == |y| && Increasing(x) && ReadyForBack(x, y, c, u) && Natural(x, y, m) && Natural(x, y, n) && 0 <= i < |x|
    ensures m[i] == n[i]
    decreases |x| - i
  {
    if i < |x| - 1 {
      SameFromBehind(x, y, c, u, m, n, i + 1);
      SolutionIsEliminated(x, y, c, u, m, i);
      SolutionIsEliminated(x, y, c, u, n, i);
    }
  }

  lemma OnlySolution(x: seq<real>, y: seq<real>, c: seq<real>, u: seq<real>, m: seq<real>, n: seq<real>)
    requires |x| == |y| && Increasing(x) && ReadyForBack(x, y, c, u) && Natural(x, y, m) && Natural(x, y, n)
    ensures n == m
  {
    forall i | 0 <= i < |m| ensures n[i] == m[i] { SameFromBehind(x, y, c, u, n, m, i); }
  }

  /** The elimination as a value. */
  lemma Elimination(x: seq<real>, y: seq<real>) returns (c: seq<real>, u: seq<real>)
    requires |x| == |y| >= 2 && Increasing(x)
    ensures ReadyForBack(x, y, c, u)
  {
    hide EliminatedTo, ReadyForBack, Product, Sig, RightSide;
    c, u := seq(|x|, _ => 0.0), seq(|x|, _ => 0.0);
    NothingEliminated(x, y, c, u);
    for i := 1 to |x| - 1
      invariant |c| == |u| == |x| && EliminatedTo(x, y, c, u, i)
    {
      PivotPositive(x, y, c, u, i);
      var p := Product(Sig(x, i), c[i - 1]) + 2.0;
      var ci, ui := (Sig(x, i) - 1.0) / p, (RightSide(x, y, i) - Product(Sig(x, i), u[i - 1])) / p;
      EliminationStep(x, y, c, u, i, ci, ui);
      c, u := c[i := ci], u[i := ui];
    }
    var c0 := c;
    c := c[|x| - 1 := 0.0];
    LastCoefficient(x, y, c0, c, u);
  }

  /** A table has one natural spline. */
  lemma NaturalUnique(x: seq<real>, y: seq<real>, m: seq<real>, n: seq<real>)
    requires Natural(x, y, m) && Natural(x, y, n)
    ensures m == n
  {
    var c, u := Elimination(x, y);
    OnlySolution(x, y, c, u, m, n);
  }

  // ----- evaluation

  /** The source's formula at t between or beyond the nodes l and r, in the weights a and b of the two. */
  method EvaluatePiece(l: real, r: real, yl: real, yr: real, cl: real, cr: real, t: real) returns (v: real)
    requires l < r
    ensures v == CubicSplines.Piece(l, r, yl, yr, cl, cr, t)
  {
    hide CubicSplines.Piece;
    var h := r - l;
    var a := (r - t) / h;
    var b := (t - l) / h;
    var ka, kb := (a * a - 1.0) * a, (b * b - 1.0) * b;
    v := a * yl + b * yr + (ka * cl + kb * cr) * h * h / 6.0;
    WeightsGivePiece(l, r, yl, yr, cl, cr, t, h, a, b, ka, kb, v);
  }

  lemma WeightsGivePiece(l: real, r: real, yl: real, yr: real, cl: real, cr: real, t: real,
                         h: real, a: real, b: real, ka: real, kb: real, v: real)
    requires l < r && h == r - l && a == (r - t) / h && b == (t - l) / h
    requires ka == (a * a - 1.0) * a && kb == (b * b - 1.0) * b
    requires v == a * yl + b * yr + (ka * cl + kb * cr) * h * h / 6.0
    ensures v == CubicSplines.Piece(l, r, yl, yr, cl, cr, t)
  {
    hide CubicSplines.Piece, CubicSplines.Side;
    var q := 1.0 / h;
    assert Product(h, q) == 1.0;
    CubicSplines.PieceIsBlend(l, r, yl, yr, cl, cr, t, q);
    CubicSplines.DivideByReciprocal(r - t, h, q);
    CubicSplines.DivideByReciprocal(t - l, h, q);
    WeightIsSide(r - t, h, q, a, ka);
    WeightIsSide(t - l, h, q, b, kb);
    SidesAddUp(ka, kb, cl, cr, h, CubicSplines.Side(r - t, h, q), CubicSplines.Side(t - l, h, q));
  }

  lemma WeightIsSide(u: real, h: real, q: real, a: real, k: real)
    requires Product(h, q) == 1.0 && a == u * q && k == (a * a - 1.0) * a
    ensures Product(k, h * h) / 6.0 == CubicSplines.Side(u, h, q)
  {
    assert a * h == u * (h * q) == u;
    assert a * a * a * (h * h) == a * (a * h) * (a * h) == a * (u * u) == u * u * u * q;
    assert a * (h * h) == (a * h) * h == u * h;
  }

  lemma SidesAddUp(ka: real, kb: real, cl: real, cr: real, h: real, sa: real, sb: real)
    requires Product(ka, h * h) / 6.0 == sa && Product(kb, h * h) / 6.0 == sb
    ensures (ka * cl + kb * cr) * h * h / 6.0 == cl * sa + cr * sb
  {
    assert (ka * cl + kb * cr) * h * h == cl * (ka * (h * h)) + cr * (kb * (h * h));
  }

  /** The bracket bisection ends with: the last node not beyond xo, kept inside the table. */
  ghost predicate Bracket(x: seq<real>, klo: int, xo: real) {
    && 0 <= klo < |x| - 1
    && (klo == 0 || x[klo] <= xo)
    && (klo == |x| - 2 || x[klo + 1] > xo)
  }

  ghost predicate GapsAtLeast(x: seq<real>, eps: real) {
    forall i :: 0 <= i < |x| - 1 ==> x[i + 1] - x[i] >= eps
  }

  /** The nodes around xo are at least 1e-6 apart. */
  ghost predicate Resolved(x: seq<real>, xo: real) {
    forall klo :: Bracket(x, klo, xo) ==> x[klo + 1] - x[klo] >= 0.000001
  }

  lemma ResolvedEverywhere(x: seq<real>, xo: real)
    ensures GapsAtLeast(x, 0.000001) ==> Resolved(x, xo)
  {
  }

  /** Which gap decides: the one from the last node not beyond xo, or the end gap for positions beyond the table. */
  lemma ResolvedMeans(x: seq<real>, j: int, xo: real)
    requires Increasing(x) && 0 <= j < |x| - 1
    requires (x[j] <= xo || j == 0) && (xo < x[j + 1] || j == |x| - 2)
    ensures Resolved(x, xo) <==> x[j + 1] - x[j] >= 0.000001
  {
    assert Bracket(x, j, xo);
    forall k | Bracket(x, k, xo) ensures k == j { BracketUnique(x, k, j, xo); }
  }

  /** The bracket is the segment that holds xo, or the end segment on the side where xo lies beyond the table. */
  lemma BracketServes(x: seq<real>, klo: int, xo: real)
    requires Increasing(x) && Bracket(x, klo, xo)
    ensures CubicSplines.Serves(x, klo, xo)
  {
  }

  lemma BracketUnique(x: seq<real>, i: int, j: int, xo: real)
    requires Increasing(x) && Bracket(x, i, xo) && Bracket(x, j, xo)
    ensures i == j
  {
  }

  method FindBracket(x: seq<real>, xo: real) returns (klo: int, khi: int)
    requires |x| >= 1 && Increasing(x)
    ensures if |x| == 1 then klo == khi == 0 else khi == klo + 1 && Bracket(x, klo, xo)
  {
    klo, khi := 0, |x| - 1;
    while khi - klo > 1
      invariant 0 <= klo <= khi < |x| && (|x| > 1 ==> klo < khi)
      invariant klo == 0 || x[klo] <= xo
      invariant khi == |x| - 1 || x[khi] > xo
      decreases khi - klo
    {
      var k := (khi + klo) / 2;
      if x[k] > xo { khi := k; } else { klo := k; }
    }
  }

  lemma SegmentIsPiece(x: seq<real>, y: seq<real>, c: seq<real>, j: int, t: real)
    requires CubicSplines.Knots(x, y, c) && 0 <= j < |x| - 1
    ensures CubicSplines.SegmentValue(x, y, c, j, t) == CubicSplines.Piece(x[j], x[j + 1], y[j], y[j + 1], c[j], c[j + 1], t)
  {
  }

  /** The value at xo of the curve with second derivatives c, refused exactly when the bracketing nodes are closer than 1e-6. */
  method Splint(x: seq<real>, y: seq<real>, c: seq<real>, xo: real) returns (ok: bool, yo: real)
    requires |x| == |y| == |c| >= 1 && Increasing(x)
    ensures ok <==> |x| > 1 && Resolved(x, xo)
    ensures ok ==> CubicSplines.OnSpline(x, y, c, xo, yo)
    ensures ok ==> forall m :: 0 <= m < |x| && xo == x[m] ==> yo == y[m]
  {
    hide CubicSplines.OnSpline, CubicSplines.Piece, CubicSplines.Serves, CubicSplines.SegmentValue;
    yo := 0.0;
    var klo, khi := FindBracket(x, xo);
    var h := x[khi] - x[klo];
    if Abs(h) < AEPS { return false, yo; }
    yo := EvaluatePiece(x[klo], x[khi], y[klo], y[khi], c[klo], c[khi], xo);
    SegmentIsPiece(x, y, c, klo, xo);
    BracketServes(x, klo, xo);
    CubicSplines.ServedValue(x, y, c, klo, xo);
    forall k | Bracket(x, k, xo) ensures k == klo { BracketUnique(x, k, klo, xo); }
    forall m | 0 <= m < |x| && xo == x[m] ensures yo == y[m] { CubicSplines.KnotValue(x, y, c, m, yo); }
    ok := true;
  }

  // ----- straight lines

  ghost predicate OnLine(x: seq<real>, y: seq<real>, p: real, q: real) {
    |y| >= |x| && forall i :: 0 <= i < |x| ==> y[i] == p + Product(q, x[i])
  }

  /** A line has no second derivative, and the natural solution is unique, so all its coefficients vanish. */
  lemma LineHasZeroCoefficients(x: seq<real>, y: seq<real>, p: real, q: real, z: seq<real>)
    requires |x| == |y| == |z| >= 2 && Increasing(x) && OnLine(x, y, p, q)
    requires forall i :: 0 <= i < |z| ==> z[i] == 0.0
    ensures Natural(x, y, z)
  {
    forall i | 0 < i < |x| - 1 ensures Row(x, y, z, i) {
      ChordOfLine(p, q, x[i - 1], x[i]);
      ChordOfLine(p, q, x[i], x[i + 1]);
      WithZeroAndOne(Sig(x, i));
      WithZeroAndOne(1.0 - Sig(x, i));
      assert 6.0 * (q - q) / (x[i + 1] - x[i - 1]) == 0.0;
    }
  }

  lemma ChordOfLine(p: real, q: real, a: real, b: real)
    requires a != b
    ensures ((p + Product(q, b)) - (p + Product(q, a))) / (b - a) == q
  {
    assert q * b - q * a == q * (b - a);
    assert (q * (b - a)) / (b - a) == q;
  }

  /** With vanishing coefficients the curve is the line itself, at every xo. */
  lemma LineReproduced(x: seq<real>, y: seq<real>, c: seq<real>, p: real, q: real, xo: real, v: real)
    requires OnLine(x, y, p, q) && CubicSplines.OnSpline(x, y, c, xo, v)
    requires forall i :: 0 <= i < |c| ==> c[i] == 0.0
    ensures v == p + Product(q, xo)
  {
    var j := CubicSplines.SomeSegment(x, xo);
    CubicSplines.PieceOfQuadratic(x[j], x[j + 1], p, q, 0.0, xo);
    hide CubicSplines.Piece;
    assert v == CubicSplines.SegmentValue(x, y, c, j, xo);
    assert y[j] == CubicSplines.Quadratic(p, q, 0.0, x[j]) && y[j + 1] == CubicSplines.Quadratic(p, q, 0.0, x[j + 1]);
  }

  // ----- the grid

  lemma RowBounds(nr: int, nc: int, r: int)
    requires 0 <= r < nr && 0 <= nc
    ensures 0 <= r * nc && r * nc + nc == (r + 1) * nc <= nr * nc
  {
    NonnegativeProduct(nr - r - 1, nc);
    NonnegativeProduct(r, nc);
    assert nr * nc == (nr - r - 1) * nc + (r * nc + nc);
  }

  lemma NonnegativeProduct(a: int, b: int)
    requires a >= 0 && b >= 0
    ensures a * b >= 0
  {
  }

  /** Row r of a table stored row by row. */
  function RowOf(s: seq<real>, nr: int, nc: int, r: int): (row: seq<real>)
    requires 0 <= r < nr && 0 <= nc && |s| == nr * nc
    ensures |row| == nc
  {
    RowBounds(nr, nc, r);
    s[r * nc..r * nc + nc]
  }

  ghost predicate Grid(nr: int, nc: int, x1: seq<real>, x2: seq<real>, y: seq<real>) {
    nr >= 2 && nc >= 2 && |x1| == nr && |x2| == nc && |y| == nr * nc && Increasing(x1) && Increasing(x2)
  }

  /** c holds, row by row, the natural coefficients of the rows of y. */
  ghost predicate RowCoefficients(nr: int, nc: int, x2: seq<real>, y: seq<real>, c: seq<real>, upto: int) {
    && 0 <= upto <= nr && 0 <= nc && |y| == |c| == nr * nc
    && forall r :: 0 <= r < upto ==> Natural(x2, RowOf(y, nr, nc, r), RowOf(c, nr, nc, r))
  }

  /** Copies one row of coefficients into the flat table at offset. */
  method StoreRow(c: array<real>, offset: int, ctmp: array<real>, nc: int)
    requires 0 <= offset && 0 <= nc <= ctmp.Length && offset + nc <= c.Length && c != ctmp
    modifies c
    ensures c[..offset] == old(c[..offset]) && c[offset..offset + nc] == ctmp[..nc]
  {
    var i := offset;
    for k := 0 to nc
      invariant i == offset + k
      invariant forall m :: 0 <= m < offset ==> c[m] == old(c[m])
      invariant forall m :: 0 <= m < k ==> c[offset + m] == ctmp[m]
    {
      c[i] := ctmp[k];
      i := i + 1;
    }
  }

  lemma RowStored(nr: int, nc: int, x2: seq<real>, y: seq<real>, c: seq<real>, c': seq<real>, j: int)
    requires 0 <= j < nr && RowCoefficients(nr, nc, x2, y, c, j) && |c'| == |c|
    requires 0 <= j * nc && j * nc + nc <= |c| && c'[..j * nc] == c[..j * nc]
    requires Natural(x2, RowOf(y, nr, nc, j), c'[j * nc..j * nc + nc])
    ensures RowCoefficients(nr, nc, x2, y, c', j + 1)
  {
    forall r | 0 <= r < j ensures RowOf(c', nr, nc, r) == RowOf(c, nr, nc, r) {
      RowBounds(nr, nc, r);
      RowBounds(j, nc, r);
      var before := c[..j * nc];
      assert RowOf(c, nr, nc, r) == before[r * nc..r * nc + nc];
      assert RowOf(c', nr, nc, r) == c'[..j * nc][r * nc..r * nc + nc];
    }
  }

  method Spline2(nr: int, nc: int, x1: seq<real>, x2: seq<real>, y: seq<real>, c: array<real>)
    requires Grid(nr, nc, x1, x2, y) && c.Length == nr * nc
    modifies c
    ensures RowCoefficients(nr, nc, x2, y, c[..], nr)
    ensures forall r :: 0 <= r < nr ==> NaturalCurve(x2, RowOf(y, nr, nc, r), RowOf(c[..], nr, nc, r))
  {
    hide Natural, NaturalCurve, RowCoefficients;
    var ctmp := new real[nc];
    NoRows(nr, nc, x2, y, c[..]);
    for j := 0 to nr
      invariant RowCoefficients(nr, nc, x2, y, c[..], j)
    {
      RowBounds(nr, nc, j);
      var ytmp := y[j * nc..j * nc + nc];
      NaturalSpline(x2, ytmp, ctmp);
      ghost var c0 := c[..];
      StoreRow(c, j * nc, ctmp, nc);
      assert c[..][..j * nc] == c0[..j * nc];
      RowStored(nr, nc, x2, y, c0, c[..], j);
    }
    RowsAreCurves(nr, nc, x2, y, c[..]);
  }

  lemma RowsAreCurves(nr: int, nc: int, x2: seq<real>, y: seq<real>, c: seq<real>)
    requires RowCoefficients(nr, nc, x2, y, c, nr) && |x2| == nc >= 2 && Increasing(x2)
    ensures forall r :: 0 <= r < nr ==> NaturalCurve(x2, RowOf(y, nr, nc, r), RowOf(c, nr, nc, r))
  {
    hide Natural, NaturalCurve;
    forall r | 0 <= r < nr ensures NaturalCurve(x2, RowOf(y, nr, nc, r), RowOf(c, nr, nc, r)) {
      NaturalIsCurve(x2, RowOf(y, nr, nc, r), RowOf(c, nr, nc, r));
    }
  }

  lemma NoRows(nr: int, nc: int, x2: seq<real>, y: seq<real>, c: seq<real>)
    requires 0 <= nr && 0 <= nc && |y| == |c| == nr * nc
    ensures RowCoefficients(nr, nc, x2, y, c, 0)
  {
  }

  /** The values at x2o of the rows' curves. */
  ghost predicate RowValues(nr: int, nc: int, x2: seq<real>, y: seq<real>, c: seq<real>, x2o: real, yy: seq<real>, upto: int) {
    && 0 <= upto <= nr && upto <= |yy| && 0 <= nc == |x2| && |y| == |c| == nr * nc && Increasing(x2)
    && forall r :: 0 <= r < upto ==> CubicSplines.OnSpline(x2, RowOf(y, nr, nc, r), RowOf(c, nr, nc, r), x2o, yy[r])
  }

  /** yo is on the natural curve, along the first variable, through the values of the rows at x2o. */
  ghost predicate GridValue(nr: int, nc: int, x1: seq<real>, x2: seq<real>, y: seq<real>, c: seq<real>,
                            x1o: real, x2o: real, yo: real, yy: seq<real>, cc: seq<real>) {
    && |yy| == nr && RowValues(nr, nc, x2, y, c, x2o, yy, nr)
    && Natural(x1, yy, cc) && NaturalCurve(x1, yy, cc)
    && CubicSplines.OnSpline(x1, yy, cc, x1o, yo)
  }

  method Splint2(nr: int, nc: int, x1: seq<real>, x2: seq<real>, y: seq<real>, c: seq<real>, x1o: real, x2o: real)
    returns (ok: bool, yo: real)
    requires Grid(nr, nc, x1, x2, y) && |c| == nr * nc
    ensures ok ==> exists yy, cc :: GridValue(nr, nc, x1, x2, y, c, x1o, x2o, yo, yy, cc)
    ensures ok <==> Resolved(x1, x1o) && Resolved(x2, x2o)
    ensures GapsAtLeast(x1, 0.000001) && GapsAtLeast(x2, 0.000001) ==> ok
  {
    hide Natural, NaturalCurve, CubicSplines.OnSpline, Resolved, GapsAtLeast;
    ResolvedEverywhere(x1, x1o);
    ResolvedEverywhere(x2, x2o);
    yo := 0.0;
    var ctmp, yytmp := new real[if nr > nc then nr else nc], new real[nr];
    for j := 0 to nr
      invariant RowValues(nr, nc, x2, y, c, x2o, yytmp[..], j) && (j > 0 ==> Resolved(x2, x2o))
    {
      RowBounds(nr, nc, j);
      ghost var before := yytmp[..];
      ok, yytmp[j] := Splint(x2, y[j * nc..j * nc + nc], c[j * nc..j * nc + nc], x2o);
      if !ok { return; }
      assert CubicSplines.OnSpline(x2, RowOf(y, nr, nc, j), RowOf(c, nr, nc, j), x2o, yytmp[j]);
      assert forall r :: 0 <= r < j ==> yytmp[r] == before[r];
    }
    NaturalSpline(x1, yytmp[..], ctmp);
    ok, yo := Splint(x1, yytmp[..], ctmp[..nr], x1o);
    if ok {
      assert GridValue(nr, nc, x1, x2, y, c, x1o, x2o, yo, yytmp[..], ctmp[..nr]);
    }
  }

  /** At a grid point the interpolation returns the tabulated value. */
  lemma GridPointValue(nr: int, nc: int, x1: seq<real>, x2: seq<real>, y: seq<real>, c: seq<real>, r: int, s: int,
                       yo: real, yy: seq<real>, cc: seq<real>)
    requires Grid(nr, nc, x1, x2, y) && 0 <= r < nr && 0 <= s < nc
    requires GridValue(nr, nc, x1, x2, y, c, x1[r], x2[s], yo, yy, cc)
    ensures 0 <= r * nc + s < |y| && yo == y[r * nc + s]
  {
    hide CubicSplines.OnSpline, Natural, NaturalCurve;
    RowBounds(nr, nc, r);
    CubicSplines.KnotValue(x1, yy, cc, r, yo);
    CubicSplines.KnotValue(x2, RowOf(y, nr, nc, r), RowOf(c, nr, nc, r), s, yy[r]);
  }

  /** y[r nc + s] == p + q x1[r] + (u + v x1[r]) x2[s]. */
  ghost predicate Bilinear(nr: int, nc: int, x1: seq<real>, x2: seq<real>, y: seq<real>, p: real, q: real, u: real, v: real) {
    Grid(nr, nc, x1, x2, y) && forall r :: 0 <= r < nr ==> OnLine(x2, RowOf(y, nr, nc, r), p + Product(q, x1[r]), u + Product(v, x1[r]))
  }

  /** With the coefficients spline2 computes, bilinear data are reproduced at every position, inside the grid or beyond it. */
  lemma BilinearReproduced(nr: int, nc: int, x1: seq<real>, x2: seq<real>, y: seq<real>, c: seq<real>, x1o: real, x2o: real,
                           yo: real, yy: seq<real>, cc: seq<real>, p: real, q: real, u: real, v: real)
    requires Bilinear(nr, nc, x1, x2, y, p, q, u, v) && RowCoefficients(nr, nc, x2, y, c, nr)
    requires GridValue(nr, nc, x1, x2, y, c, x1o, x2o, yo, yy, cc)
    ensures yo == p + Product(q, x1o) + Product(u + Product(v, x1o), x2o)
  {
    hide CubicSplines.OnSpline, Product, Natural, NaturalCurve;
    var p', q' := p + Product(u, x2o), q + Product(v, x2o);
    forall r | 0 <= r < nr ensures yy[r] == p' + Product(q', x1[r]) {
      var row, coef := RowOf(y, nr, nc, r), RowOf(c, nr, nc, r);
      LineCoefficients(x2, row, p + Product(q, x1[r]), u + Product(v, x1[r]), coef);
      LineReproduced(x2, row, coef, p + Product(q, x1[r]), u + Product(v, x1[r]), x2o, yy[r]);
      Regroup(q, x1[r], u, v, x2o);
    }
    LineCoefficients(x1, yy, p', q', cc);
    LineReproduced(x1, yy, cc, p', q', x1o, yo);
    Regroup(q, x1o, u, v, x2o);
  }

  lemma LineCoefficients(x: seq<real>, y: seq<real>, p: real, q: real, c: seq<real>)
    requires OnLine(x, y, p, q) && Natural(x, y, c)
    ensures |x| == |y| == |c| >= 2 && Increasing(x) && forall i :: 0 <= i < |c| ==> c[i] == 0.0
  {
    var z := seq(|x|, _ => 0.0);
    LineHasZeroCoefficients(x, y, p, q, z);
    NaturalUnique(x, y, c, z);
  }

  lemma Regroup(q: real, a: real, u: real, v: real, b: real)
    ensures Product(q, a) + Product(u + Product(v, a), b) == Product(u, b) + Product(q + Product(v, b), a)
  {
  }
}
