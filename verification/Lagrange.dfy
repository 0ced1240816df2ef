/**
 The sliding-window Lagrange interpolation of src/AMath.cpp, and the theorem it
 rests on: a window of n nodes reproduces every polynomial of degree below n.
 */
module LagrangeInterpolation {
  import opened Numeric

  /** A polynomial as its coefficients, constant term first. */
  type Polynomial = seq<real>

  ghost function Eval(p: Polynomial, t: real): real {
    if p == [] then 0.0 else p[0] + Product(t, Eval(p[1..], t))
  }

  /** The quotient of p by (t - f), by synthetic division. */
  ghost function Quotient(p: Polynomial, f: real): (q: Polynomial)
    ensures |q| == if p == [] then 0 else |p| - 1
  {
    if |p| <= 1 then [] else [Eval(p[1..], f)] + Quotient(p[1..], f)
  }

  /** p(t) == p(f) + (t - f) q(t). */
  lemma {:induction false} SyntheticDivision(p: Polynomial, f: real, t: real)
    ensures Eval(p, t) == Eval(p, f) + Product(t - f, Eval(Quotient(p, f), t))
  {
    WithZeroAndOne(t - f);
    WithZeroAndOne(f);
    WithZeroAndOne(t);
    if |p| > 1 {
      var r, q := p[1..], Quotient(p, f);
      SyntheticDivision(r, f, t);
      assert q[1..] == Quotient(r, f);
      DivisionStep(f, t, Eval(r, f), Eval(r, t), Eval(Quotient(r, f), t));
    } else if |p| == 1 {
      assert p[1..] == [];
    }
  }

  lemma DivisionStep(f: real, t: real, rf: real, rt: real, qt: real)
    requires rt == rf + Product(t - f, qt)
    ensures Product(t, rt) == Product(f, rf) + Product(t - f, rf + Product(t, qt))
  {
    assert t * rt == t * rf + t * ((t - f) * qt);
  }

  // ----- the basis of a window of nodes lo, ..., hi - 1

  /** One factor of the source's product: t1 * n / d. */
  function Stretch(b: real, n: real, d: real): real
    requires d != 0.0
  {
    b * n / d
  }

  /** The source's product over the nodes of the window other than i, in index order. */
  function Basis(x: seq<real>, lo: int, hi: int, i: int, t: real): real
    requires 0 <= lo && hi <= |x| && 0 <= i < |x| && Increasing(x)
    decreases hi
  {
    if hi <= lo then 1.0
    else if hi - 1 == i then Basis(x, lo, hi - 1, i, t)
    else Stretch(Basis(x, lo, hi - 1, i, t), t - x[hi - 1], x[i] - x[hi - 1])
  }

  /** Sum of the first terms of the interpolant, nodes lo, ..., k - 1. */
  function Partial(x: seq<real>, y: seq<real>, lo: int, hi: int, k: int, t: real): real
    requires 0 <= lo <= k <= hi <= |x| == |y| && Increasing(x)
    decreases k
  {
    if k <= lo then 0.0 else Partial(x, y, lo, hi, k - 1, t) + Product(Basis(x, lo, hi, k - 1, t), y[k - 1])
  }

  function Interpolant(x: seq<real>, y: seq<real>, lo: int, hi: int, t: real): real
    requires 0 <= lo <= hi <= |x| == |y| && Increasing(x)
  {
    Partial(x, y, lo, hi, hi, t)
  }

  lemma StretchBack(b: real, n: real, d: real)
    requires d != 0.0
    ensures Product(Stretch(b, n, d), d) == Product(n, b)
  {
  }

  lemma StretchRatio(a: real, b: real, d: real, s: real, n: real, e: real)
    requires e != 0.0 && Product(a, d) == Product(s, b)
    ensures Product(Stretch(a, n, e), d) == Product(s, Stretch(b, n, e))
  {
    var p, q := Stretch(a, n, e), Stretch(b, n, e);
    StretchBack(a, n, e);
    StretchBack(b, n, e);
    ThroughFactor(a, b, d, s, n, e, p, q);
  }

  lemma ThroughFactor(a: real, b: real, d: real, s: real, n: real, e: real, p: real, q: real)
    requires e != 0.0 && Product(a, d) == Product(s, b)
    requires Product(p, e) == Product(n, a) && Product(q, e) == Product(n, b)
    ensures Product(p, d) == Product(s, q)
  {
    assert p * d * e == (p * e) * d == n * (a * d);
    assert s * q * e == s * (q * e) == n * (s * b);
    assert (p * d - s * q) * e == 0.0;
    ZeroFactor(e, p * d - s * q);
  }

  /** Leaving out the last node. */
  lemma DropLast(x: seq<real>, lo: int, hi: int, i: int, t: real)
    requires 0 <= lo <= i < hi - 1 < |x| && Increasing(x)
    ensures Product(Basis(x, lo, hi, i, t), x[i] - x[hi - 1]) == Product(t - x[hi - 1], Basis(x, lo, hi - 1, i, t))
  {
    hide Product, Stretch;
    StretchBack(Basis(x, lo, hi - 1, i, t), t - x[hi - 1], x[i] - x[hi - 1]);
  }

  /** Leaving out the first node. */
  lemma {:induction false} DropFirst(x: seq<real>, lo: int, hi: int, i: int, t: real)
    requires 0 <= lo < i < |x| && lo < hi <= |x| && Increasing(x)
    ensures Product(Basis(x, lo, hi, i, t), x[i] - x[lo]) == Product(t - x[lo], Basis(x, lo + 1, hi, i, t))
    decreases hi
  {
    hide Product, Stretch;
    if hi == lo + 1 {
      assert Basis(x, lo, lo, i, t) == 1.0;
      StretchBack(1.0, t - x[lo], x[i] - x[lo]);
    } else {
      DropFirst(x, lo, hi - 1, i, t);
      if hi - 1 != i {
        StretchRatio(Basis(x, lo, hi - 1, i, t), Basis(x, lo + 1, hi - 1, i, t), x[i] - x[lo], t - x[lo], t - x[hi - 1], x[i] - x[hi - 1]);
      }
    }
  }

  /** Neville's recurrence for one term; in the two outermost cases one of the shorter windows lacks it. */
  lemma NevilleTerm(d: real, b: real, n: real, b1: real, s: real, b2: real, w: real, xi: real, e: real, f: real)
    requires d == e - f
    requires Product(b, xi - f) == Product(n, b1) && Product(b, xi - e) == Product(s, b2)
    ensures Product(d, Product(b, w)) == Product(n, Product(b1, w)) - Product(s, Product(b2, w))
  {
    assert d * b == n * b1 - s * b2;
    assert d * (b * w) == (d * b) * w;
    assert n * (b1 * w) - s * (b2 * w) == (n * b1 - s * b2) * w;
  }

  lemma {:induction false} NevillePartial(x: seq<real>, y: seq<real>, lo: int, hi: int, k: int, t: real)
    requires 0 <= lo < k < hi <= |x| == |y| && Increasing(x)
    ensures Product(x[lo] - x[hi - 1], Partial(x, y, lo, hi, k, t))
            == Product(t - x[hi - 1], Partial(x, y, lo, hi - 1, k, t)) - Product(t - x[lo], Partial(x, y, lo + 1, hi, k, t))
    decreases k
  {
    hide Product, Basis;
    var e, f, i := x[lo], x[hi - 1], k - 1;
    DropLast(x, lo, hi, i, t);
    WithZeroAndOne(e - f);
    WithZeroAndOne(t - f);
    WithZeroAndOne(t - e);
    WithZeroAndOne(y[i]);
    var b, b1 := Basis(x, lo, hi, i, t), Basis(x, lo, hi - 1, i, t);
    if k == lo + 1 {
      WithZeroAndOne(b);
      NevilleTerm(e - f, b, t - f, b1, t - e, 0.0, y[i], x[i], e, f);
    } else {
      NevillePartial(x, y, lo, hi, i, t);
      DropFirst(x, lo, hi, i, t);
      NevilleTerm(e - f, b, t - f, b1, t - e, Basis(x, lo + 1, hi, i, t), y[i], x[i], e, f);
      Distributes(e - f, Partial(x, y, lo, hi, i, t), Product(b, y[i]));
      Distributes(t - f, Partial(x, y, lo, hi - 1, i, t), Product(b1, y[i]));
      Distributes(t - e, Partial(x, y, lo + 1, hi, i, t), Product(Basis(x, lo + 1, hi, i, t), y[i]));
    }
  }

  /** Neville's recurrence between a window and the two windows one node shorter. */
  lemma Neville(x: seq<real>, y: seq<real>, lo: int, hi: int, t: real)
    requires 0 <= lo < hi - 1 < |x| == |y| && Increasing(x)
    ensures Product(x[lo] - x[hi - 1], Interpolant(x, y, lo, hi, t))
            == Product(t - x[hi - 1], Interpolant(x, y, lo, hi - 1, t)) - Product(t - x[lo], Interpolant(x, y, lo + 1, hi, t))
  {
    hide Product, Basis;
    var e, f, i := x[lo], x[hi - 1], hi - 1;
    NevillePartial(x, y, lo, hi, i, t);
    DropFirst(x, lo, hi, i, t);
    var b, c := Basis(x, lo, hi, i, t), Basis(x, lo + 1, hi, i, t);
    WithZeroAndOne(b);
    WithZeroAndOne(t - f);
    WithZeroAndOne(y[i]);
    NevilleTerm(e - f, b, t - f, 0.0, t - e, c, y[i], f, e, f);
    Distributes(e - f, Partial(x, y, lo, hi, i, t), Product(b, y[i]));
    Distributes(t - e, Partial(x, y, lo + 1, hi, i, t), Product(c, y[i]));
  }

  // ----- polynomials are reproduced

  ghost predicate ConstantOne(y: seq<real>) { forall i :: 0 <= i < |y| ==> y[i] == 1.0 }

  /** The basis of any nonempty window adds up to one. */
  lemma {:induction false} PartitionOfUnity(x: seq<real>, y: seq<real>, lo: int, hi: int, t: real)
    requires 0 <= lo < hi <= |x| == |y| && Increasing(x) && ConstantOne(y)
    ensures Interpolant(x, y, lo, hi, t) == 1.0
    decreases hi - lo
  {
    if hi == lo + 1 {
      assert Basis(x, lo, hi, lo, t) == Basis(x, lo, lo, lo, t) == 1.0;
      assert Partial(x, y, lo, hi, lo, t) == 0.0;
    } else {
      hide Product, Interpolant;
      PartitionOfUnity(x, y, lo, hi - 1, t);
      PartitionOfUnity(x, y, lo + 1, hi, t);
      Neville(x, y, lo, hi, t);
      WithZeroAndOne(t - x[hi - 1]);
      WithZeroAndOne(t - x[lo]);
      Cancel(x[lo] - x[hi - 1], Interpolant(x, y, lo, hi, t));
    }
  }

  lemma Cancel(d: real, v: real)
    requires d != 0.0 && Product(d, v) == d
    ensures v == 1.0
  {
    assert Product(d, v - 1.0) == 0.0;
    ZeroFactor(d, v - 1.0);
  }

  /**
   Where y[i] == c + (x[i] - f) z[i] for the last node f, the terms are c times the
   window's own basis plus (t - f) times the shorter window's terms of z.
   */
  lemma {:induction false} DividedPartial(x: seq<real>, y: seq<real>, z: seq<real>, u: seq<real>, c: real, lo: int, hi: int, k: int, t: real)
    requires 0 <= lo <= k < hi <= |x| == |y| == |z| == |u| && Increasing(x) && ConstantOne(u)
    requires forall i :: lo <= i < hi ==> y[i] == c + Product(x[i] - x[hi - 1], z[i])
    ensures Partial(x, y, lo, hi, k, t) == Product(c, Partial(x, u, lo, hi, k, t)) + Product(t - x[hi - 1], Partial(x, z, lo, hi - 1, k, t))
    decreases k
  {
    hide Product, Basis;
    WithZeroAndOne(c);
    WithZeroAndOne(t - x[hi - 1]);
    if k > lo {
      var i, f := k - 1, x[hi - 1];
      DividedPartial(x, y, z, u, c, lo, hi, i, t);
      DropLast(x, lo, hi, i, t);
      var b, b' := Basis(x, lo, hi, i, t), Basis(x, lo, hi - 1, i, t);
      DividedTerm(b, b', c, x[i] - f, t - f, z[i], y[i]);
      Distributes(c, Partial(x, u, lo, hi, i, t), Product(b, u[i]));
      Distributes(t - f, Partial(x, z, lo, hi - 1, i, t), Product(b', z[i]));
    }
  }

  lemma DividedTerm(b: real, b': real, c: real, d: real, s: real, z: real, y: real)
    requires Product(b, d) == Product(s, b') && y == c + Product(d, z)
    ensures Product(b, y) == Product(c, Product(b, 1.0)) + Product(s, Product(b', z))
  {
    assert b * y == b * c + (b * d) * z;
    assert s * (b' * z) == (s * b') * z;
  }

  ghost function SamplesOf(p: Polynomial, x: seq<real>): seq<real> {
    seq(|x|, i requires 0 <= i < |x| => Eval(p, x[i]))
  }

  /** A window of hi - lo nodes reproduces every polynomial with at most that many coefficients, at every t. */
  lemma {:induction false} WindowReproduces(x: seq<real>, y: seq<real>, p: Polynomial, lo: int, hi: int, t: real)
    requires 0 <= lo < hi <= |x| == |y| && Increasing(x) && |p| <= hi - lo
    requires forall i :: lo <= i < hi ==> y[i] == Eval(p, x[i])
    ensures Interpolant(x, y, lo, hi, t) == Eval(p, t)
    decreases hi - lo
  {
    hide Product, Basis, Quotient;
    var f, n := x[hi - 1], hi - 1;
    var q, c := Quotient(p, f), Eval(p, f);
    var z, u := SamplesOf(q, x), seq(|x|, _ => 1.0);
    forall i | lo <= i < hi ensures y[i] == c + Product(x[i] - f, z[i]) { SyntheticDivision(p, f, x[i]); }
    SplitLastNode(x, y, z, u, c, lo, hi, t);
    SyntheticDivision(p, f, t);
    if lo < n {
      WindowReproduces(x, z, q, lo, n, t);
    } else {
      assert q == [];
    }
  }

  /** The step from the quotient's interpolant to the polynomial's. */
  lemma SplitLastNode(x: seq<real>, y: seq<real>, z: seq<real>, u: seq<real>, c: real, lo: int, hi: int, t: real)
    requires 0 <= lo < hi <= |x| == |y| == |z| == |u| && Increasing(x) && ConstantOne(u)
    requires forall i :: lo <= i < hi ==> y[i] == c + Product(x[i] - x[hi - 1], z[i])
    ensures Interpolant(x, y, lo, hi, t) == c + Product(t - x[hi - 1], Interpolant(x, z, lo, hi - 1, t))
  {
    hide Product, Basis;
    var n := hi - 1;
    DividedPartial(x, y, z, u, c, lo, hi, n, t);
    PartitionOfUnity(x, u, lo, hi, t);
    WithZeroAndOne(z[n]);
    WithZeroAndOne(c);
    var b := Basis(x, lo, hi, n, t);
    WithZeroAndOne(b);
    Commutes(b, c);
    Distributes(c, Partial(x, u, lo, hi, n, t), b);
  }

  // ----- values at the nodes

  lemma StretchOfZeroAndOne(b: real, d: real)
    requires d != 0.0
    ensures Stretch(b, 0.0, d) == 0.0 && Stretch(0.0, b, d) == 0.0 && Stretch(1.0, d, d) == 1.0
  {
  }

  lemma {:induction false} BasisAtNode(x: seq<real>, lo: int, hi: int, i: int, m: int)
    requires 0 <= lo <= hi <= |x| && 0 <= i < |x| && 0 <= m < |x| && Increasing(x)
    ensures m == i ==> Basis(x, lo, hi, i, x[m]) == 1.0
    ensures m != i && lo <= m < hi ==> Basis(x, lo, hi, i, x[m]) == 0.0
    decreases hi
  {
    hide Stretch;
    if lo < hi {
      BasisAtNode(x, lo, hi - 1, i, m);
      if hi - 1 != i {
        var d := x[i] - x[hi - 1];
        StretchOfZeroAndOne(Basis(x, lo, hi - 1, i, x[m]), d);
        StretchOfZeroAndOne(x[m] - x[hi - 1], d);
      }
    }
  }

  lemma {:induction false} PartialAtNode(x: seq<real>, y: seq<real>, lo: int, hi: int, k: int, m: int)
    requires 0 <= lo <= k <= hi <= |x| == |y| && lo <= m < hi && Increasing(x)
    ensures Partial(x, y, lo, hi, k, x[m]) == if m < k then y[m] else 0.0
    decreases k
  {
    hide Product, Basis;
    if lo < k {
      PartialAtNode(x, y, lo, hi, k - 1, m);
      BasisAtNode(x, lo, hi, k - 1, m);
      WithZeroAndOne(y[k - 1]);
    }
  }

  // ----- the window

  /** The order after both clamps. */
  function Order(n: int, od: int): int {
    var o := if od < 2 then 2 else od;
    if o > n then n else o
  }

  /** j is the first node beyond t. */
  ghost predicate FirstBeyond(x: seq<real>, t: real, j: int) {
    && 0 <= j <= |x|
    && (forall i :: 0 <= i < j ==> x[i] <= t)
    && (j < |x| ==> x[j] > t)
  }

  lemma OrderClamps(n: int, od: int)
    requires n >= 1
    ensures 2 <= od <= n ==> Order(n, od) == od
    ensures od < 2 <= n ==> Order(n, od) == 2
    ensures od > n || n == 1 ==> Order(n, od) == n
  {
  }

  /**
   The o nodes from lo on stand around t: half of them at or before it and, for an odd o, one more
   beyond it than before, unless there are no further nodes on a side to move to.
   */
  ghost predicate Centred(x: seq<real>, o: int, t: real, lo: int) {
    && 0 < o && 0 <= lo && lo + o <= |x|
    && (lo > 0 ==> lo + o / 2 - 1 >= 0 && x[lo + o / 2 - 1] <= t)
    && (lo + o < |x| ==> t < x[lo + o / 2])
  }

  /**
   A centred window contains every node where t lies and, within the data, a node on either side
   of t; unless it touches the end on that side, o / 2 of its nodes are at or before t and the others beyond it.
   */
  lemma WindowFits(x: seq<real>, od: int, t: real, lo: int)
    requires |x| > 0 && Increasing(x) && Centred(x, Order(|x|, od), t, lo)
    ensures var o := Order(|x|, od);
      && (forall m :: 0 <= m < |x| && x[m] == t ==> lo <= m < lo + o)
      && (x[0] <= t < x[|x| - 1] ==> x[lo] <= t < x[lo + o - 1])
      && (lo > 0 ==> forall i :: lo <= i < lo + o / 2 ==> x[i] <= t)
      && (lo + o < |x| ==> forall i :: lo + o / 2 <= i < lo + o ==> t < x[i])
  {
    OrderClamps(|x|, od);
    var o := Order(|x|, od);
    var h := o / 2;
    if lo > 0 { forall i | lo <= i < lo + h ensures x[i] <= t { assert i == lo + h - 1 || x[i] < x[lo + h - 1]; } }
    if lo + o < |x| { forall i | lo + h <= i < |x| ensures t < x[i] { assert i == lo + h || x[lo + h] < x[i]; } }
  }

  /** There is one such window. */
  lemma WindowUnique(x: seq<real>, o: int, t: real, lo: int, lo': int)
    requires Increasing(x) && Centred(x, o, t, lo) && Centred(x, o, t, lo')
    ensures lo == lo'
  {
  }

  method FindFirstBeyond(x: seq<real>, t: real) returns (j: int)
    requires Increasing(x)
    ensures FirstBeyond(x, t, j)
  {
    j := 0;
    while j < |x|
      invariant 0 <= j <= |x| && forall i :: 0 <= i < j ==> x[i] <= t
    {
      if x[j] > t { break; }
      j := j + 1;
    }
  }

  method BasisProduct(x: seq<real>, lo: int, hi: int, i: int, t: real) returns (t1: real)
    requires 0 <= lo <= i < hi <= |x| && Increasing(x)
    ensures t1 == Basis(x, lo, hi, i, t)
  {
    hide Stretch;
    t1 := 1.0;
    for j := lo to i
      invariant t1 == Basis(x, lo, j, i, t)
    {
      t1 := Stretch(t1, t - x[j], x[i] - x[j]);
    }
    for j := i + 1 to hi
      invariant t1 == Basis(x, lo, j, i, t)
    {
      t1 := Stretch(t1, t - x[j], x[i] - x[j]);
    }
  }

  /** v is the interpolant at t of the centred window of OD nodes, clamped. */
  ghost predicate WindowValue(x: seq<real>, y: seq<real>, od: int, t: real, v: real, lo: int)
    requires |x| == |y| > 0 && Increasing(x)
  {
    var o := Order(|x|, od);
    Centred(x, o, t, lo) && v == Interpolant(x, y, lo, lo + o, t)
  }

  ghost predicate Interpolates(x: seq<real>, y: seq<real>, od: int, t: real, v: real)
    requires |x| == |y| && Increasing(x)
  {
    if |x| == 0 then v == 0.0 else exists lo :: WindowValue(x, y, od, t, v, lo)
  }

  method SumOfTerms(x: seq<real>, y: seq<real>, SI: int, EI: int, t: real) returns (t0: real)
    requires |x| == |y| && Increasing(x) && 0 <= SI <= EI < |x|
    ensures t0 == Interpolant(x, y, SI, EI + 1, t)
  {
    hide Basis;
    t0 := 0.0;
    for i := SI to EI + 1
      invariant t0 == Partial(x, y, SI, EI + 1, i, t)
    {
      var t1 := BasisProduct(x, SI, EI + 1, i, t);
      t0 := t0 + Product(t1, y[i]);
    }
  }

  method InterpolateAt(x: seq<real>, y: seq<real>, OD: int, t: real) returns (t0: real)
    requires |x| == |y| && Increasing(x)
    ensures Interpolates(x, y, OD, t, t0)
  {
    hide Interpolant;
    var N := |x|;
    var od := if OD < 2 then 2 else OD;
    od := if od > N then N else od;
    var OH := od / 2;
    var j := FindFirstBeyond(x, t);
    var SI := j - OH;
    var EI := SI + od - 1;
    if SI < 0 {
      SI := 0;
      EI := od - 1;
    }
    if EI >= N {
      EI := N - 1;
      SI := EI - od + 1;
    }
    t0 := 0.0;
    if N > 0 {
      assert od == Order(N, OD) && EI + 1 == SI + od;
      assert Centred(x, od, t, SI);
      t0 := SumOfTerms(x, y, SI, EI, t);
      assert WindowValue(x, y, OD, t, t0, SI);
    }
  }

  lemma ReproducesPolynomials(x: seq<real>, y: seq<real>, od: int, t: real, v: real, p: Polynomial)
    requires |x| == |y| > 0 && Increasing(x) && Interpolates(x, y, od, t, v)
    requires |p| <= Order(|x|, od) && y == SamplesOf(p, x)
    ensures v == Eval(p, t)
  {
    hide Interpolant, SamplesOf, Eval;
    var lo :| WindowValue(x, y, od, t, v, lo);
    SampleAt(p, x);
    WindowReproduces(x, y, p, lo, lo + Order(|x|, od), t);
  }

  lemma SampleAt(p: Polynomial, x: seq<real>)
    ensures |SamplesOf(p, x)| == |x| && forall i :: 0 <= i < |x| ==> SamplesOf(p, x)[i] == Eval(p, x[i])
  {
  }

  lemma ReturnsNodeValues(x: seq<real>, y: seq<real>, od: int, m: int, v: real)
    requires |x| == |y| && 0 <= m < |x| && Increasing(x) && Interpolates(x, y, od, x[m], v)
    ensures v == y[m]
  {
    var lo :| WindowValue(x, y, od, x[m], v, lo);
    WindowFits(x, od, x[m], lo);
    var o := Order(|x|, od);
    PartialAtNode(x, y, lo, lo + o, lo + o, m);
  }

  /**
   Interpolates (x, y) at the positions XO with the windows of OD nodes centred at them. Samples
   of a polynomial of degree below the clamped order give back the polynomial at every position, and a node
   gives back its own value.
   */
  method Lagrange(x: seq<real>, y: seq<real>, OD: int, XO: seq<real>, YO: array<real>)
    requires |x| == |y| && Increasing(x) && YO.Length == |XO|
    modifies YO
    ensures forall k :: 0 <= k < |XO| ==> Interpolates(x, y, OD, XO[k], YO[k])
    ensures |x| > 0 ==> forall p: Polynomial, k :: |p| <= |x| && (|p| <= 2 || |p| <= OD) && y == SamplesOf(p, x) && 0 <= k < |XO| ==> YO[k] == Eval(p, XO[k])
    ensures forall m, k :: 0 <= m < |x| && 0 <= k < |XO| && XO[k] == x[m] ==> YO[k] == y[m]
  {
    hide Interpolates, SamplesOf, Eval;
    for k := 0 to |XO|
      invariant forall i :: 0 <= i < k ==> Interpolates(x, y, OD, XO[i], YO[i])
    {
      YO[k] := InterpolateAt(x, y, OD, XO[k]);
    }
    if |x| > 0 {
      forall p: Polynomial, k | |p| <= |x| && (|p| <= 2 || |p| <= OD) && y == SamplesOf(p, x) && 0 <= k < |XO| ensures YO[k] == Eval(p, XO[k]) {
        ReproducesPolynomials(x, y, OD, XO[k], YO[k], p);
      }
    }
    forall m, k | 0 <= m < |x| && 0 <= k < |XO| && XO[k] == x[m] ensures YO[k] == y[m] {
      ReturnsNodeValues(x, y, OD, m, YO[k]);
    }
  }
}
