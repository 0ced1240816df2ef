/**
 The Gaussian convolution of src/AMath.h: building a normalised kernel around its
 centre and applying it at a pixel.
 */
module GaussianConvolution {
  import opened Numeric

  // ----- finite sums

  ghost function Sum(f: int -> real, n: nat): real {
    if n == 0 then 0.0 else Sum(f, n - 1) + f(n - 1)
  }

  lemma {:induction false} SumCongruence(f: int -> real, g: int -> real, n: nat)
    requires forall i :: 0 <= i < n ==> f(i) == g(i)
    ensures Sum(f, n) == Sum(g, n)
  {
    if n > 0 { SumCongruence(f, g, n - 1); }
  }

  lemma {:induction false} SumFront(f: int -> real, g: int -> real, n: nat)
    requires forall i :: 0 <= i < n ==> g(i) == f(i + 1)
    ensures Sum(f, n + 1) == f(0) + Sum(g, n)
  {
    if n > 0 { SumFront(f, g, n - 1); }
  }

  /** A sum may be taken from either end. */
  lemma {:induction false} SumReversed(f: int -> real, r: int -> real, n: nat)
    requires forall i :: 0 <= i < n ==> r(i) == f(n - 1 - i)
    ensures Sum(r, n) == Sum(f, n)
  {
    if n > 0 {
      var g := (i: int) => f(i + 1);
      SumFront(f, g, n - 1);
      SumReversed(g, r, n - 1);
    }
  }

  lemma {:induction false} SumCombine(f: int -> real, g: int -> real, k: int -> real, a: real, n: nat)
    requires forall i :: 0 <= i < n ==> k(i) == Product(a, f(i)) + g(i)
    ensures Sum(k, n) == Product(a, Sum(f, n)) + Sum(g, n)
  {
    WithZeroAndOne(a);
    if n > 0 {
      SumCombine(f, g, k, a, n - 1);
      Distributes(a, Sum(f, n - 1), f(n - 1));
    }
  }

  lemma {:induction false} SumPositive(f: int -> real, n: nat)
    requires n > 0 && forall i :: 0 <= i < n ==> f(i) > 0.0
    ensures Sum(f, n) > 0.0
  {
    if n > 1 { SumPositive(f, n - 1); } else { assert Sum(f, 0) == 0.0; }
  }

  /** A window of values, addressed (row, column). */
  type Window = (int, int) -> real

  ghost function RowSums(f: Window, w: nat): int -> real {
    y => Sum(Row(f, y), w)
  }

  ghost function Row(f: Window, y: int): int -> real {
    x => f(y, x)
  }

  ghost function Total(f: Window, h: nat, w: nat): real {
    Sum(RowSums(f, w), h)
  }

  lemma TotalCombine(f: Window, g: Window, k: Window, a: real, h: nat, w: nat)
    requires forall y, x :: 0 <= y < h && 0 <= x < w ==> k(y, x) == Product(a, f(y, x)) + g(y, x)
    ensures Total(k, h, w) == Product(a, Total(f, h, w)) + Total(g, h, w)
  {
    forall y | 0 <= y < h ensures RowSums(k, w)(y) == Product(a, RowSums(f, w)(y)) + RowSums(g, w)(y) {
      SumCombine(Row(f, y), Row(g, y), Row(k, y), a, w);
    }
    SumCombine(RowSums(f, w), RowSums(g, w), RowSums(k, w), a, h);
  }

  /** The window seen through its centre has the same total. */
  lemma TotalReflected(f: Window, r: Window, h: nat, w: nat)
    requires forall y, x :: 0 <= y < h && 0 <= x < w ==> r(y, x) == f(h - 1 - y, w - 1 - x)
    ensures Total(r, h, w) == Total(f, h, w)
  {
    forall y | 0 <= y < h ensures RowSums(r, w)(y) == RowSums(f, w)(h - 1 - y) {
      SumReversed(Row(f, h - 1 - y), Row(r, y), w);
    }
    SumReversed(RowSums(f, w), RowSums(r, w), h);
  }

  lemma TotalPositive(f: Window, h: nat, w: nat)
    requires h > 0 && w > 0 && forall y, x :: 0 <= y < h && 0 <= x < w ==> f(y, x) > 0.0
    ensures Total(f, h, w) > 0.0
  {
    forall y | 0 <= y < h ensures RowSums(f, w)(y) > 0.0 { SumPositive(Row(f, y), w); }
    SumPositive(RowSums(f, w), h);
  }

  lemma TotalZero(f: Window, h: nat, w: nat)
    requires forall y, x :: 0 <= y < h && 0 <= x < w ==> f(y, x) == 0.0
    ensures Total(f, h, w) == 0.0
  {
    WithZeroAndOne(-1.0);
    TotalCombine(f, f, f, -1.0, h, w);
  }

  /** A window that changes sign through its centre has total zero. */
  lemma OddTotalIsZero(f: Window, h: nat, w: nat)
    requires forall y, x :: 0 <= y < h && 0 <= x < w ==> f(h - 1 - y, w - 1 - x) == -f(y, x)
    ensures Total(f, h, w) == 0.0
  {
    var r: Window := (y, x) => f(h - 1 - y, w - 1 - x);
    var z: Window := (y, x) => 0.0;
    TotalReflected(f, r, h, w);
    forall y, x | 0 <= y < h && 0 <= x < w ensures r(y, x) == Product(-1.0, f(y, x)) + z(y, x) { }
    TotalCombine(f, z, r, -1.0, h, w);
    TotalZero(z, h, w);
  }

  // ----- the kernel

  ghost predicate PositiveFunction(exp: real -> real) {
    forall t :: exp(t) > 0.0
  }

  /** The unnormalised weight at (y, x). */
  function Weight(exp: real -> real, sigmax: real, sigmay: real, h: int, w: int, y: int, x: int): real
    requires sigmax > 0.0 && sigmay > 0.0
  {
    exp(Exponent(sigmax, sigmay, x - w / 2, y - h / 2))
  }

  /** The exponent at an offset from the centre, as the source forms it: the same in all directions. */
  function Exponent(sigmax: real, sigmay: real, ox: int, oy: int): real
    requires sigmax > 0.0 && sigmay > 0.0
  {
    var fract := 2.0 * sigmax * sigmay;
    var dx, dy := (ox * ox) as real, (oy * oy) as real;
    assert fract > 0.0;
    -(dx + dy) / fract
  }

  /** The exponent of a Gaussian with sigmax and sigmay as the standard deviations of the two axes. */
  function AxisExponent(sigmax: real, sigmay: real, ox: int, oy: int): real
    requires sigmax > 0.0 && sigmay > 0.0
  {
    assert sigmax * sigmax > 0.0 && sigmay * sigmay > 0.0;
    -((ox * ox) as real / (2.0 * (sigmax * sigmax)) + (oy * oy) as real / (2.0 * (sigmay * sigmay)))
  }

  /** The two agree at an offset for equal widths, and otherwise only along two lines. */
  lemma ExponentsAgreeIff(sigmax: real, sigmay: real, ox: int, oy: int)
    requires sigmax > 0.0 && sigmay > 0.0
    ensures Exponent(sigmax, sigmay, ox, oy) == AxisExponent(sigmax, sigmay, ox, oy) <==>
            sigmax == sigmay || BalancedOffset(sigmax, sigmay, ox, oy)
  {
    hide Product;
    var p, q, a, b := 1.0 / sigmax, 1.0 / sigmay, (ox * ox) as real, (oy * oy) as real;
    HalfQuotient(-(a + b), sigmax, sigmay, p, q);
    HalfQuotient(a, sigmax, sigmax, p, p);
    HalfQuotient(b, sigmay, sigmay, q, q);
    ExponentGap(a, b, p, q);
    CrossMultiply(1.0, 1.0, sigmay, sigmax, q, p);
    WithZeroAndOne(sigmax);
    WithZeroAndOne(sigmay);
    CrossMultiply(a, b, sigmax, sigmay, p, q);
  }

  predicate BalancedOffset(sigmax: real, sigmay: real, ox: int, oy: int) {
    Product((ox * ox) as real, sigmay) == Product((oy * oy) as real, sigmax)
  }

  lemma HalfQuotient(a: real, s: real, t: real, p: real, q: real)
    requires s > 0.0 && t > 0.0 && p == 1.0 / s && q == 1.0 / t
    ensures s * t > 0.0 && 2.0 * s * t == 2.0 * (s * t) && a / (2.0 * (s * t)) == Product(Product(a, p), q) / 2.0
  {
    assert p * s == 1.0 && q * t == 1.0 && s * t > 0.0;
    assert (a * p * q / 2.0) * (2.0 * (s * t)) == a * (p * s) * (q * t);
  }

  lemma ExponentGap(a: real, b: real, p: real, q: real)
    ensures Product(Product(-(a + b), p), q) == -(Product(Product(a, p), p) + Product(Product(b, q), q)) <==>
            Product(1.0, q) == Product(1.0, p) || Product(a, p) == Product(b, q)
  {
    var gap := a * p * p + b * q * q - (a + b) * p * q;
    assert gap == (p - q) * (a * p - b * q);
    if gap == 0.0 && p != q { ZeroFactor(p - q, a * p - b * q); }
  }

  lemma CrossMultiply(a: real, b: real, s: real, t: real, p: real, q: real)
    requires s > 0.0 && t > 0.0 && p == 1.0 / s && q == 1.0 / t
    ensures Product(a, p) == Product(b, q) <==> Product(a, t) == Product(b, s)
  {
    assert p * s == 1.0 && q * t == 1.0 && s * t > 0.0;
    assert (a * p) * (s * t) == a * t * (p * s);
    assert (b * q) * (s * t) == b * s * (q * t);
    assert Product(s * t, a * p - b * q) == a * t - b * s;
    if a * t == b * s { ZeroFactor(s * t, a * p - b * q); }
  }

  ghost predicate AxesFollowedAt(sigmax: real, sigmay: real, h: int, w: int, y: int, x: int)
    requires sigmax > 0.0 && sigmay > 0.0
  {
    Exponent(sigmax, sigmay, x - w / 2, y - h / 2) == AxisExponent(sigmax, sigmay, x - w / 2, y - h / 2)
  }

  /** The kernel has the documented standard deviations exactly when they are equal, or the window is one point. */
  lemma WidthsAreDeviationsIff(sigmax: real, sigmay: real, h: int, w: int)
    requires sigmax > 0.0 && sigmay > 0.0 && Odd(h) && Odd(w)
    ensures (forall y, x :: 0 <= y < h && 0 <= x < w ==> AxesFollowedAt(sigmax, sigmay, h, w, y, x)) <==>
            sigmax == sigmay || (h == 1 && w == 1)
  {
    hide Exponent, AxisExponent;
    forall y, x | 0 <= y < h && 0 <= x < w && (sigmax == sigmay || (h == 1 && w == 1))
      ensures AxesFollowedAt(sigmax, sigmay, h, w, y, x)
    {
      ExponentsAgreeIff(sigmax, sigmay, x - w / 2, y - h / 2);
    }
    ExponentsAgreeIff(sigmax, sigmay, 1, 0);
    ExponentsAgreeIff(sigmax, sigmay, 0, 1);
    if sigmax != sigmay && w > 1 { assert !AxesFollowedAt(sigmax, sigmay, h, w, h / 2, w / 2 + 1); }
    if sigmax != sigmay && h > 1 { assert !AxesFollowedAt(sigmax, sigmay, h, w, h / 2 + 1, w / 2); }
  }

  lemma UnequalWidths()
    ensures Exponent(1.0, 2.0, 1, 0) == -0.25 && AxisExponent(1.0, 2.0, 1, 0) == -0.5
  {
  }

  ghost function Weights(exp: real -> real, sigmax: real, sigmay: real, h: int, w: int): Window
    requires sigmax > 0.0 && sigmay > 0.0
  {
    (y, x) => Weight(exp, sigmax, sigmay, h, w, y, x)
  }

  lemma WeightPositive(exp: real -> real, sigmax: real, sigmay: real, h: int, w: int, y: int, x: int)
    requires PositiveFunction(exp) && sigmax > 0.0 && sigmay > 0.0
    ensures Weight(exp, sigmax, sigmay, h, w, y, x) > 0.0
  {
  }

  ghost predicate Odd(n: int) { n > 0 && n % 2 == 1 }

  /** What a normalised kernel is: positive, the same seen through its centre, with total one. */
  ghost predicate Kernel(k: Window, h: nat, w: nat) {
    && Odd(h) && Odd(w)
    && (forall y, x :: 0 <= y < h && 0 <= x < w ==> k(y, x) > 0.0)
    && (forall y, x :: 0 <= y < h && 0 <= x < w ==> k(h - 1 - y, w - 1 - x) == k(y, x))
    && Total(k, h, w) == 1.0
  }

  lemma WeightSymmetric(exp: real -> real, sigmax: real, sigmay: real, h: int, w: int, y: int, x: int)
    requires sigmax > 0.0 && sigmay > 0.0 && Odd(h) && Odd(w)
    ensures Weight(exp, sigmax, sigmay, h, w, h - 1 - y, w - 1 - x) == Weight(exp, sigmax, sigmay, h, w, y, x)
  {
    var dy, dx := y - h / 2, x - w / 2;
    assert h - 1 - y - h / 2 == -dy && w - 1 - x - w / 2 == -dx;
    assert (-dy) * (-dy) == dy * dy && (-dx) * (-dx) == dx * dx;
  }

  /** Dividing the weights by their total yields a kernel, for any positive exp. */
  lemma NormalisedIsKernel(exp: real -> real, sigmax: real, sigmay: real, k: Window, h: nat, w: nat)
    requires PositiveFunction(exp) && sigmax > 0.0 && sigmay > 0.0 && Odd(h) && Odd(w)
    requires var f := Weights(exp, sigmax, sigmay, h, w); var t := Total(f, h, w);
             t > 0.0 ==> forall y, x :: 0 <= y < h && 0 <= x < w ==> k(y, x) == f(y, x) / t
    ensures Kernel(k, h, w)
  {
    var f, z: Window := Weights(exp, sigmax, sigmay, h, w), (y, x) => 0.0;
    TotalPositive(f, h, w);
    var t := Total(f, h, w);
    forall y, x | 0 <= y < h && 0 <= x < w
      ensures k(y, x) > 0.0 && k(h - 1 - y, w - 1 - x) == k(y, x)
      ensures f(y, x) == Product(t, k(y, x)) + z(y, x)
    {
      WeightSymmetric(exp, sigmax, sigmay, h, w, y, x);
      PositiveQuotient(f(y, x), t);
    }
    TotalCombine(k, z, f, t, h, w);
    TotalZero(z, h, w);
    OneFactor(t, Total(k, h, w));
  }

  lemma PositiveQuotient(a: real, t: real)
    requires a > 0.0 && t > 0.0
    ensures a / t > 0.0 && Product(t, a / t) == a
  {
    var q := a / t;
    assert q * t == a;
    if q <= 0.0 { NonpositiveTimes(q, t); }
  }

  lemma NonpositiveTimes(q: real, t: real)
    requires q <= 0.0 && t > 0.0
    ensures q * t <= 0.0
  {
  }

  lemma OneFactor(t: real, s: real)
    requires t > 0.0 && Product(t, s) == t
    ensures s == 1.0
  {
    assert Product(t, s - 1.0) == 0.0;
    ZeroFactor(t, s - 1.0);
  }

  // ----- convolution

  ghost function Image(data: array2<real>): (f: Window)
    reads data
    ensures forall y, x {:trigger f(y, x)} :: 0 <= y < data.Length0 && 0 <= x < data.Length1 ==> f(y, x) == data[y, x]
  {
    var rows := seq(data.Length0, y requires 0 <= y < data.Length0 reads data =>
                      seq(data.Length1, x requires 0 <= x < data.Length1 reads data => data[y, x]));
    (y, x) => if 0 <= y < |rows| && 0 <= x < |rows[y]| then rows[y][x] else 0.0
  }

  /** The products the convolution at (x0, y0) adds up. */
  ghost function Terms(f: Window, k: Window, ymin: int, xmin: int): Window {
    (y, x) => Product(f(ymin + y, xmin + x), k(y, x))
  }

  function Plane(a: real, b: real, c: real, x: int, y: int): real {
    a + Product(b, x as real) + Product(c, y as real)
  }

  /** The image is a plane over the window of half sizes hh and wh around (x0, y0). */
  ghost predicate Affine(f: Window, hh: int, wh: int, x0: int, y0: int, a: real, b: real, c: real) {
    forall y, x :: y0 - hh <= y <= y0 + hh && x0 - wh <= x <= x0 + wh ==> f(y, x) == Plane(a, b, c, x, y)
  }

  /** The part of a term that changes sign through the centre. */
  ghost function OddPart(k: Window, h: int, w: int, b: real, c: real): Window {
    (y, x) => Product(Product(b, (x - w / 2) as real) + Product(c, (y - h / 2) as real), k(y, x))
  }

  /** On an affine image a kernel returns the value at its centre. */
  lemma AffineImageKept(f: Window, k: Window, h: nat, w: nat, x0: int, y0: int, a: real, b: real, c: real)
    requires Kernel(k, h, w) && Affine(f, h / 2, w / 2, x0, y0, a, b, c)
    ensures Total(Terms(f, k, y0 - h / 2, x0 - w / 2), h, w) == Plane(a, b, c, x0, y0)
  {
    hide Total, Product, Plane;
    var v, g, t := Plane(a, b, c, x0, y0), OddPart(k, h, w, b, c), Terms(f, k, y0 - h / 2, x0 - w / 2);
    forall y, x | 0 <= y < h && 0 <= x < w ensures t(y, x) == Product(v, k(y, x)) + g(y, x) {
      TermAround(f, k, h, w, x0, y0, a, b, c, y, x);
    }
    TotalCombine(k, g, t, v, h, w);
    forall y, x | 0 <= y < h && 0 <= x < w ensures g(h - 1 - y, w - 1 - x) == -g(y, x) {
      OddPartIsOdd(k, h, w, b, c, y, x);
    }
    OddTotalIsZero(g, h, w);
    WithZeroAndOne(v);
  }

  lemma KernelIsOdd(k: Window, h: nat, w: nat)
    requires Kernel(k, h, w)
    ensures Odd(h) && Odd(w)
  {
  }

  lemma TermAround(f: Window, k: Window, h: nat, w: nat, x0: int, y0: int, a: real, b: real, c: real, y: int, x: int)
    requires Odd(h) && Odd(w) && Affine(f, h / 2, w / 2, x0, y0, a, b, c) && 0 <= y < h && 0 <= x < w
    ensures Terms(f, k, y0 - h / 2, x0 - w / 2)(y, x) == Product(Plane(a, b, c, x0, y0), k(y, x)) + OddPart(k, h, w, b, c)(y, x)
  {
    var py, px := y0 - h / 2 + y, x0 - w / 2 + x;
    assert f(py, px) == Plane(a, b, c, px, py);
    assert px as real == x0 as real + (x - w / 2) as real && py as real == y0 as real + (y - h / 2) as real;
    OffsetTerm(a, b, c, x0 as real, y0 as real, (x - w / 2) as real, (y - h / 2) as real, k(y, x));
  }

  lemma OddPartIsOdd(k: Window, h: nat, w: nat, b: real, c: real, y: int, x: int)
    requires Kernel(k, h, w) && 0 <= y < h && 0 <= x < w
    ensures OddPart(k, h, w, b, c)(h - 1 - y, w - 1 - x) == -OddPart(k, h, w, b, c)(y, x)
  {
    var dx, dy := (x - w / 2) as real, (y - h / 2) as real;
    assert (w - 1 - x - w / 2) as real == -dx && (h - 1 - y - h / 2) as real == -dy;
    assert k(h - 1 - y, w - 1 - x) == k(y, x);
    OddTerm(b, c, dx, dy, k(y, x));
  }

  lemma OffsetTerm(a: real, b: real, c: real, x0: real, y0: real, dx: real, dy: real, k: real)
    ensures Product(a + Product(b, x0 + dx) + Product(c, y0 + dy), k)
            == Product(a + Product(b, x0) + Product(c, y0), k) + Product(Product(b, dx) + Product(c, dy), k)
  {
  }

  lemma OddTerm(b: real, c: real, dx: real, dy: real, k: real)
    ensures Product(Product(b, -dx) + Product(c, -dy), k) == -Product(Product(b, dx) + Product(c, dy), k)
  {
  }

  /** Squared distance of (y, x) from the centre of the window. */
  function SquaredDistance(h: int, w: int, y: int, x: int): int {
    (x - w / 2) * (x - w / 2) + (y - h / 2) * (y - h / 2)
  }

  /**
   Around its centre k is the Gaussian of twice the product of the widths: each entry is to the
   central one as exp(-d / (2 sigmax sigmay)) is to exp(0), d being the squared distance.
   */
  ghost predicate GaussianAround(k: Window, exp: real -> real, sigmax: real, sigmay: real, h: nat, w: nat)
    requires sigmax > 0.0 && sigmay > 0.0
  {
    assert 2.0 * sigmax * sigmay > 0.0;
    forall y, x :: 0 <= y < h && 0 <= x < w ==>
      Product(k(y, x), exp(0.0)) ==
      Product(k(h / 2, w / 2), exp(-(((x - w / 2) * (x - w / 2) + (y - h / 2) * (y - h / 2)) as real) / (2.0 * sigmax * sigmay)))
  }

  lemma NormalisedIsGaussian(exp: real -> real, sigmax: real, sigmay: real, k: Window, h: nat, w: nat)
    requires sigmax > 0.0 && sigmay > 0.0 && Odd(h) && Odd(w)
    requires var f := Weights(exp, sigmax, sigmay, h, w); var t := Total(f, h, w);
             t > 0.0 && forall y, x :: 0 <= y < h && 0 <= x < w ==> k(y, x) == f(y, x) / t
    ensures GaussianAround(k, exp, sigmax, sigmay, h, w)
  {
    hide Total, Product;
    var t := Total(Weights(exp, sigmax, sigmay, h, w), h, w);
    assert 2.0 * sigmax * sigmay > 0.0;
    CentreExponent(sigmax, sigmay);
    forall y, x | 0 <= y < h && 0 <= x < w
      ensures Product(k(y, x), exp(0.0)) ==
              Product(k(h / 2, w / 2), exp(-(((x - w / 2) * (x - w / 2) + (y - h / 2) * (y - h / 2)) as real) / (2.0 * sigmax * sigmay)))
    {
      var e := Exponent(sigmax, sigmay, x - w / 2, y - h / 2);
      SameRatio(exp(e), exp(0.0), t);
    }
  }

  lemma CentreExponent(sigmax: real, sigmay: real)
    requires sigmax > 0.0 && sigmay > 0.0
    ensures Exponent(sigmax, sigmay, 0, 0) == 0.0
  {
  }

  lemma SameRatio(a: real, b: real, t: real)
    requires t > 0.0
    ensures Product(a / t, b) == Product(b / t, a)
  {
    var p, q := a / t, b / t;
    assert p * t == a && q * t == b;
    assert p * b == p * (q * t) == q * (p * t);
  }

  /** For an increasing exp the kernel does not grow with the distance from the centre. */
  lemma KernelFalls(exp: real -> real, sigmax: real, sigmay: real, k: Window, h: nat, w: nat, y: int, x: int, y': int, x': int)
    requires sigmax > 0.0 && sigmay > 0.0 && PositiveFunction(exp) && Kernel(k, h, w) && GaussianAround(k, exp, sigmax, sigmay, h, w)
    requires forall s, t {:trigger exp(s), exp(t)} :: s <= t ==> exp(s) <= exp(t)
    requires 0 <= y < h && 0 <= x < w && 0 <= y' < h && 0 <= x' < w && SquaredDistance(h, w, y, x) <= SquaredDistance(h, w, y', x')
    ensures k(y, x) >= k(y', x')
  {
    hide Product, Total;
    var f, d, d' := 2.0 * sigmax * sigmay, SquaredDistance(h, w, y, x) as real, SquaredDistance(h, w, y', x') as real;
    QuotientsFall(d, d', f);
    var c, e, e' := k(h / 2, w / 2), exp(-d / f), exp(-d' / f);
    assert e' <= e;
    assert Product(k(y, x), exp(0.0)) == Product(c, e) && Product(k(y', x'), exp(0.0)) == Product(c, e');
    FactorsCompare(k(y, x), k(y', x'), exp(0.0), c, e, e');
  }

  lemma QuotientsFall(d: real, d': real, f: real)
    requires d <= d' && f > 0.0
    ensures -d' / f <= -d / f
  {
    var q := (d' - d) / f;
    assert q * f == d' - d;
    if q < 0.0 { NonpositiveTimes(q, f); }
    assert -d / f - (-d' / f) == q;
  }

  lemma FactorsCompare(a: real, a': real, u: real, c: real, e: real, e': real)
    requires u > 0.0 && c > 0.0 && e' <= e && Product(a, u) == Product(c, e) && Product(a', u) == Product(c, e')
    ensures a >= a'
  {
    assert c * (e - e') >= 0.0;
    assert (a - a') * u == c * (e - e');
    if a < a' { NegativeTimes(a - a', u); }
  }

  lemma NegativeTimes(q: real, t: real)
    requires q < 0.0 && t > 0.0
    ensures q * t < 0.0
  {
  }

  // ----- an image of one pixel

  lemma {:induction false} SumSingle(f: int -> real, n: nat, at: int)
    requires forall i :: 0 <= i < n && i != at ==> f(i) == 0.0
    ensures Sum(f, n) == if 0 <= at < n then f(at) else 0.0
  {
    if n > 0 { SumSingle(f, n - 1, at); }
  }

  lemma TotalSingle(f: Window, h: nat, w: nat, py: int, px: int)
    requires forall y, x :: 0 <= y < h && 0 <= x < w && (y, x) != (py, px) ==> f(y, x) == 0.0
    ensures Total(f, h, w) == if 0 <= py < h && 0 <= px < w then f(py, px) else 0.0
  {
    forall y | 0 <= y < h
      ensures RowSums(f, w)(y) == if y == py && 0 <= px < w then f(py, px) else 0.0
    {
      SumSingle(Row(f, y), w, px);
    }
    SumSingle(RowSums(f, w), h, py);
  }

  /** Only the pixel (py, px) is not zero. */
  ghost predicate OnePixel(f: Window, py: int, px: int) {
    forall y, x :: (y, x) != (py, px) ==> f(y, x) == 0.0
  }

  /** One pixel gives back the kernel entry at its offset from the window's corner, or nothing outside the window. */
  lemma OnePixelImage(f: Window, k: Window, h: nat, w: nat, ymin: int, xmin: int, py: int, px: int)
    requires OnePixel(f, py, px)
    ensures Total(Terms(f, k, ymin, xmin), h, w) ==
            if ymin <= py < ymin + h && xmin <= px < xmin + w then Product(f(py, px), k(py - ymin, px - xmin)) else 0.0
  {
    var t := Terms(f, k, ymin, xmin);
    forall y, x | 0 <= y < h && 0 <= x < w && (y, x) != (py - ymin, px - xmin) ensures t(y, x) == 0.0 {
      assert f(ymin + y, xmin + x) == 0.0;
      WithZeroAndOne(k(y, x));
    }
    TotalSingle(t, h, w, py - ymin, px - xmin);
  }

  /**
   r is the sum of the image around (x0, y0) weighted by the kernel: on a plane the value of the plane
   at (x0, y0), and on an image of one pixel that pixel times the kernel entry at its offset.
   */
  ghost predicate Convolved(f: Window, k: Window, h: nat, w: nat, x0: int, y0: int, r: real) {
    && r == Total(Terms(f, k, y0 - h / 2, x0 - w / 2), h, w)
    && (forall a, b, c :: Affine(f, h / 2, w / 2, x0, y0, a, b, c) ==> r == Plane(a, b, c, x0, y0))
    && (forall py, px :: OnePixel(f, py, px) ==>
          r == if -(h / 2) <= py - y0 <= h / 2 && -(w / 2) <= px - x0 <= w / 2
               then Product(f(py, px), k(py - y0 + h / 2, px - x0 + w / 2)) else 0.0)
  }

  lemma WeightedSumConvolves(f: Window, k: Window, h: nat, w: nat, x0: int, y0: int, r: real)
    requires Kernel(k, h, w) && r == Total(Terms(f, k, y0 - h / 2, x0 - w / 2), h, w)
    ensures Convolved(f, k, h, w, x0, y0, r)
  {
    KernelIsOdd(k, h, w);
    hide Affine, Plane, Total, Kernel, OnePixel, Terms;
    forall a, b, c | Affine(f, h / 2, w / 2, x0, y0, a, b, c) ensures r == Plane(a, b, c, x0, y0) {
      AffineImageKept(f, k, h, w, x0, y0, a, b, c);
    }
    forall py, px | OnePixel(f, py, px)
      ensures r == if -(h / 2) <= py - y0 <= h / 2 && -(w / 2) <= px - x0 <= w / 2
                   then Product(f(py, px), k(py - y0 + h / 2, px - x0 + w / 2)) else 0.0
    {
      OnePixelImage(f, k, h, w, y0 - h / 2, x0 - w / 2, py, px);
    }
  }

  class GaussConvolve {
    var sigmax: real
    var sigmay: real
    var kernel: array2<real>
    var wSize: int
    var hSize: int

    /** The kernel is the normalised one for the current sizes. */
    ghost predicate Valid()
      reads this, kernel
    {
      && kernel.Length0 == hSize && kernel.Length1 == wSize
      && Kernel(Image(kernel), hSize, wSize)
    }

    constructor (sx: real, sy: real, exp: real -> real)
      requires sx > 0.0 && sy > 0.0 && PositiveFunction(exp)
      ensures Valid() && fresh(kernel) && sigmax == sx && sigmay == sy
      ensures wSize == (3.5 * sx).Floor * 2 + 1 && hSize == (3.5 * sy).Floor * 2 + 1
      ensures GaussianAround(Image(kernel), exp, sx, sy, hSize, wSize)
    {
      hide Kernel, GaussianAround, Image;
      sigmax, sigmay := sx, sy;
      wSize := (3.5 * sx).Floor * 2 + 1;
      hSize := (3.5 * sy).Floor * 2 + 1;
      kernel := new real[(3.5 * sy).Floor * 2 + 1, (3.5 * sx).Floor * 2 + 1];
      new;
      MakeKernel(exp);
    }

    /** Keeps the kernel when both widths are within 1e-6 of the current ones, and rebuilds it otherwise. */
    method NewKernel(sx: real, sy: real, exp: real -> real) returns (ok: bool)
      requires Valid() && sx > 0.0 && sy > 0.0 && PositiveFunction(exp)
      modifies this, kernel
      ensures ok && Valid() && (kernel == old(kernel) || fresh(kernel))
      ensures if Abs(old(sigmax) - sx) < 0.000001 && Abs(old(sigmay) - sy) < 0.000001
              then unchanged(this) && unchanged(kernel)
              else
                && sigmax == sx && sigmay == sy && wSize == (3.5 * sx).Floor * 2 + 1 && hSize == (3.5 * sy).Floor * 2 + 1
                && GaussianAround(Image(kernel), exp, sx, sy, hSize, wSize)
    {
      hide Kernel, GaussianAround, Image;
      if Abs(sigmax - sx) < 0.000001 && Abs(sigmay - sy) < 0.000001 { return true; }
      sigmax, sigmay := sx, sy;
      var wNew := (3.5 * sx).Floor * 2 + 1;
      var hNew := (3.5 * sy).Floor * 2 + 1;
      if wSize != wNew || hSize != hNew {
        kernel := new real[hNew, wNew];
      }
      wSize, hSize := wNew, hNew;
      MakeKernel(exp);
      ok := true;
    }

    method MakeKernel(exp: real -> real)
      requires kernel.Length0 == hSize && kernel.Length1 == wSize && Odd(hSize) && Odd(wSize)
      requires sigmax > 0.0 && sigmay > 0.0 && PositiveFunction(exp)
      modifies kernel
      ensures Valid() && GaussianAround(Image(kernel), exp, sigmax, sigmay, hSize, wSize)
    {
      hide Weight, Kernel, GaussianAround;
      var sum := FillWeights(exp);
      ghost var f := Weights(exp, sigmax, sigmay, hSize, wSize);
      TotalPositive(f, hSize, wSize) by {
        forall y, x ensures f(y, x) > 0.0 { WeightPositive(exp, sigmax, sigmay, hSize, wSize, y, x); }
      }
      Normalise(f, sum);
      NormalisedIsKernel(exp, sigmax, sigmay, Image(kernel), hSize, wSize);
      NormalisedIsGaussian(exp, sigmax, sigmay, Image(kernel), hSize, wSize);
    }

    method Normalise(ghost f: Window, sum: real)
      requires kernel.Length0 == hSize && kernel.Length1 == wSize && sum != 0.0
      requires forall r, c :: 0 <= r < hSize && 0 <= c < wSize ==> kernel[r, c] == f(r, c)
      modifies kernel
      ensures forall r, c :: 0 <= r < hSize && 0 <= c < wSize ==> kernel[r, c] == f(r, c) / sum
    {
      for y := 0 to hSize
        invariant forall r, c :: 0 <= r < hSize && 0 <= c < wSize ==> kernel[r, c] == if r < y then f(r, c) / sum else f(r, c)
      {
        for x := 0 to wSize
          invariant forall r, c :: 0 <= r < hSize && 0 <= c < wSize ==>
                      kernel[r, c] == if r < y || (r == y && c < x) then f(r, c) / sum else f(r, c)
        {
          kernel[y, x] := kernel[y, x] / sum;
        }
      }
    }

    /** The first pass: unnormalised weights and their sum. */
    method FillWeights(exp: real -> real) returns (sum: real)
      requires kernel.Length0 == hSize && kernel.Length1 == wSize && hSize > 0 && wSize > 0
      requires sigmax > 0.0 && sigmay > 0.0
      modifies kernel
      ensures forall r, c :: 0 <= r < hSize && 0 <= c < wSize ==> kernel[r, c] == Weights(exp, sigmax, sigmay, hSize, wSize)(r, c)
      ensures sum == Total(Weights(exp, sigmax, sigmay, hSize, wSize), hSize, wSize)
    {
      hide Weight;
      ghost var f := Weights(exp, sigmax, sigmay, hSize, wSize);
      sum := 0.0;
      for y := 0 to hSize
        invariant forall r, c :: 0 <= r < y && 0 <= c < wSize ==> kernel[r, c] == f(r, c)
        invariant sum == Sum(RowSums(f, wSize), y)
      {
        sum := FillRow(exp, y, sum);
      }
    }

    /** The weights of row y, and their sum on top of sum0. */
    method FillRow(exp: real -> real, y: int, sum0: real) returns (sum: real)
      requires kernel.Length0 == hSize && kernel.Length1 == wSize && wSize > 0 && 0 <= y < hSize
      requires sigmax > 0.0 && sigmay > 0.0
      modifies kernel
      ensures forall r, c :: 0 <= r < hSize && 0 <= c < wSize ==>
                kernel[r, c] == if r == y then Weights(exp, sigmax, sigmay, hSize, wSize)(r, c) else old(kernel[r, c])
      ensures sum == sum0 + Sum(Row(Weights(exp, sigmax, sigmay, hSize, wSize), y), wSize)
    {
      hide Weight;
      ghost var f := Weights(exp, sigmax, sigmay, hSize, wSize);
      sum := sum0;
      for x := 0 to wSize
        invariant forall r, c :: 0 <= r < hSize && 0 <= c < wSize ==>
                    kernel[r, c] == if r == y && c < x then f(r, c) else old(kernel[r, c])
        invariant sum == sum0 + Sum(Row(f, y), x)
      {
        var val := Weight(exp, sigmax, sigmay, hSize, wSize, y, x);
        sum := sum + val;
        kernel[y, x] := val;
      }
    }

    /**
     The weighted sum around (x0, y0), or 0 where the window leaves the image. A window that
     fits over an affine image returns the value at its centre exactly.
     */
    method Convolve(data: array2<real>, x0: int, y0: int) returns (r: real)
      requires Valid()
      ensures var fits := x0 - wSize / 2 >= 0 && x0 + wSize / 2 < data.Length1 && y0 - hSize / 2 >= 0 && y0 + hSize / 2 < data.Length0;
              if fits then Convolved(Image(data), Image(kernel), hSize, wSize, x0, y0, r) else r == 0.0
    {
      hide Convolved, Total, Kernel, Terms;
      var wHalf, hHalf := wSize / 2, hSize / 2;
      var xmin, xmax, ymin, ymax := x0 - wHalf, x0 + wHalf, y0 - hHalf, y0 + hHalf;
      if xmin < 0 || xmax >= data.Length1 || ymin < 0 || ymax >= data.Length0 { return 0.0; }
      KernelIsOdd(Image(kernel), hSize, wSize);
      r := WindowSum(data, xmin, ymin);
      WeightedSumConvolves(Image(data), Image(kernel), hSize, wSize, x0, y0, r);
    }

    method WindowSum(data: array2<real>, xmin: int, ymin: int) returns (sum: real)
      requires Valid() && 0 <= xmin && xmin + wSize <= data.Length1 && 0 <= ymin && ymin + hSize <= data.Length0
      ensures sum == Total(Terms(Image(data), Image(kernel), ymin, xmin), hSize, wSize)
    {
      hide Kernel, Row;
      ghost var t := Terms(Image(data), Image(kernel), ymin, xmin);
      sum := 0.0;
      for y := 0 to hSize
        invariant sum == Sum(RowSums(t, wSize), y)
      {
        sum := AddRow(data, xmin, ymin, y, sum);
      }
    }

    /** Adds the products of one kernel row to the running sum. */
    method AddRow(data: array2<real>, xmin: int, ymin: int, y: int, sum0: real) returns (sum: real)
      requires kernel.Length0 == hSize && kernel.Length1 == wSize && wSize >= 0 && 0 <= y < hSize
      requires 0 <= xmin && xmin + wSize <= data.Length1 && 0 <= ymin && ymin + hSize <= data.Length0
      ensures sum == sum0 + Sum(Row(Terms(Image(data), Image(kernel), ymin, xmin), y), wSize)
    {
      hide Product;
      ghost var t := Terms(Image(data), Image(kernel), ymin, xmin);
      sum := sum0;
      for x := 0 to wSize
        invariant sum == sum0 + Sum(Row(t, y), x)
      {
        sum := sum + Product(data[ymin + y, xmin + x], kernel[y, x]);
      }
    }
  }
}
