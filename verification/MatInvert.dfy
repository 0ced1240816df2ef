/**
 The in-place inverse of src/AMath.cpp: column-wise elimination with partial
 pivoting, inversion of both triangular factors where they lie, their product,
 and the column exchanges that undo the pivoting. Every stage works on the same
 array with one scratch column, as the source does.
 */
module MatrixInverse {
  import opened MatrixAlgebra
  import opened Numeric

  /**
   Inverted is the source's 0 and Refused its -1. NotFinite stands for the runs
   in which the source divides by a zero pivot and goes on with non-finite values.
   */
  datatype Status = Inverted | Refused | NotFinite

  /** zr * x for the source's zr = 1e-15. */
  function Threshold(x: real): real { 0.000000000000001 * x }

  function Min(a: int, b: int): int { if a < b then a else b }

  ghost predicate Square(n: nat, A: array2<real>) {
    A.Length0 == n && A.Length1 == n
  }

  /** A scratch column read as a one-column matrix. */
  ghost function Scratch(q: seq<real>, from: int): Mat {
    (i, j) => if 0 <= i - from < |q| then q[i - from] else 0.0
  }

  // ----- what the elimination leaves behind

  /** The pivot whose reciprocal is stored on the diagonal. */
  ghost function Pivot(f: Mat, c: int): real {
    if f(c, c) == 0.0 then 0.0 else 1.0 / f(c, c)
  }

  /** What entry (r, c) of the packed array adds to row r of L times column c of U. */
  ghost function Packed(f: Mat, r: int, c: int): real {
    if r < c then f(r, c) else if r == c then Pivot(f, c) else Product(f(r, c), Pivot(f, c))
  }

  ghost predicate EntryFactored(f: Mat, b: Mat, r: int, c: int) {
    b(r, c) == Dot(f, f, r, c, 0, Min(r, c)) + Packed(f, r, c)
  }

  ghost predicate ColumnFactored(n: nat, f: Mat, b: Mat, c: int) {
    && f(c, c) != 0.0
    && (forall r :: 0 <= r < n ==> EntryFactored(f, b, r, c))
    && (forall r :: c < r < n ==> Abs(f(r, c)) <= 1.0)
  }

  /** Columns before j hold a packed L U of b; columns from j on are still b's. */
  ghost predicate FactoredTo(n: nat, j: int, f: Mat, b: Mat) {
    && (forall c :: 0 <= c < j ==> ColumnFactored(n, f, b, c))
    && (forall r, c :: 0 <= r < n && j <= c < n ==> f(r, c) == b(r, c))
  }

  /** As FactoredTo, with column j already reduced by the columns before it. */
  ghost predicate Reduced(n: nat, j: int, f: Mat, b: Mat) {
    && (forall c :: 0 <= c < j ==> ColumnFactored(n, f, b, c))
    && (forall r :: 0 <= r < n ==> b(r, j) == Dot(f, f, r, j, 0, Min(r, j)) + f(r, j))
    && (forall r, c :: 0 <= r < n && j < c < n ==> f(r, c) == b(r, c))
  }

  /** p[0], p[1], ... are the row exchanges made at steps 0, 1, ... */
  ghost function PermuteRows(p: seq<int>, b: Mat): Mat {
    if p == [] then b else SwapRows(PermuteRows(p[..|p| - 1], b), |p| - 1, p[|p| - 1])
  }

  ghost predicate PivotList(n: nat, p: seq<int>) {
    |p| <= n && forall i :: 0 <= i < |p| ==> i <= p[i] < n
  }

  /** No pivot is below 1e-15 times an earlier one. */
  ghost predicate PivotsAccepted(j: int, f: Mat) {
    forall i, c :: 0 <= i <= c < j ==> Abs(Pivot(f, c)) >= Threshold(Abs(Pivot(f, i)))
  }

  // ----- the textbook elimination, which decides the outcome

  /** Row l is the first of those from j on whose entry in column j is largest. */
  ghost predicate IsFirstLargest(s: Mat, j: int, n: int, l: int) {
    && j <= l < n
    && (forall r :: j <= r < n ==> Abs(s(r, j)) <= Abs(s(l, j)))
    && (forall r :: j <= r < l ==> Abs(s(r, j)) < Abs(s(l, j)))
  }

  ghost function FirstLargest(s: Mat, j: int, n: int): (l: int)
    requires j < n
    ensures IsFirstLargest(s, j, n, l)
    decreases n - j
  {
    if n == j + 1 then j
    else
      var l := FirstLargest(s, j, n - 1);
      if Abs(s(n - 1, j)) > Abs(s(l, j)) then n - 1 else l
  }

  lemma FirstLargestUnique(s: Mat, s': Mat, j: int, n: int, l: int)
    requires IsFirstLargest(s, j, n, l) && forall r :: j <= r < n ==> s'(r, j) == s(r, j)
    ensures FirstLargest(s', j, n) == l
  {
    var l' := FirstLargest(s', j, n);
    assert Abs(s(l, j)) == Abs(s(l', j));
  }

  /** Clears column j below the diagonal by subtracting multiples of row j. */
  ghost function Cleared(s: Mat, j: int): Mat {
    (r, c) => if r > j && c > j && s(j, j) != 0.0 then s(r, c) - Product(s(r, j) / s(j, j), s(j, c)) else s(r, c)
  }

  /** b after j steps of Gaussian elimination with partial pivoting, the first of equal pivots taken. */
  ghost function Complement(n: nat, b: Mat, j: nat): Mat
    requires j <= n
    decreases j, 0
  {
    if j == 0 then b else Cleared(Pivoted(n, b, j - 1), j - 1)
  }

  /** The row that step j exchanges with row j. */
  ghost function PivotRow(n: nat, b: Mat, j: nat): int
    requires j < n
    decreases j, 1
  {
    FirstLargest(Complement(n, b, j), j, n)
  }

  ghost function Pivoted(n: nat, b: Mat, j: nat): Mat
    requires j < n
    decreases j, 2
  {
    SwapRows(Complement(n, b, j), j, PivotRow(n, b, j))
  }

  /** The size of the pivot of step j. */
  ghost function PivotSize(n: nat, b: Mat, j: nat): real
    requires j < n
  {
    Abs(Complement(n, b, j)(PivotRow(n, b, j), j))
  }

  /** No pivot of b is below 1e-15 times an earlier one. */
  ghost predicate PivotsPass(n: nat, b: Mat) {
    forall i, c :: 0 <= i <= c < n ==> PivotSize(n, b, c) >= 0.000000000000001 * PivotSize(n, b, i)
  }

  /** The textbook elimination looks at the n by n entries only. */
  lemma {:induction false} SameComplement(n: nat, b: Mat, b': Mat, j: nat)
    requires j <= n && Same(n, b, b')
    ensures Same(n, Complement(n, b, j), Complement(n, b', j))
  {
    if j > 0 {
      hide Same, Cleared, Pivoted;
      SameComplement(n, b, b', j - 1);
      SamePivot(n, b, b', j - 1);
      SameCleared(n, Pivoted(n, b, j - 1), Pivoted(n, b', j - 1), j - 1);
    }
  }

  lemma SamePivot(n: nat, b: Mat, b': Mat, j: nat)
    requires j < n && Same(n, Complement(n, b, j), Complement(n, b', j))
    ensures PivotRow(n, b, j) == PivotRow(n, b', j) && PivotSize(n, b, j) == PivotSize(n, b', j)
    ensures Same(n, Pivoted(n, b, j), Pivoted(n, b', j))
  {
    hide Complement, IsFirstLargest, SwapRows, Same;
    var s, s', l := Complement(n, b, j), Complement(n, b', j), PivotRow(n, b, j);
    PivotRowRange(n, b, j);
    SameEntries(n, s, s');
    FirstLargestUnique(s, s', j, n, l);
    SameSwapped(n, s, s', j, l);
  }

  lemma SameEntries(n: nat, s: Mat, s': Mat)
    requires Same(n, s, s')
    ensures forall r, c :: 0 <= r < n && 0 <= c < n ==> s(r, c) == s'(r, c)
  {
  }

  lemma SameSwapped(n: nat, s: Mat, s': Mat, x: int, y: int)
    requires Same(n, s, s') && 0 <= x < n && 0 <= y < n
    ensures Same(n, SwapRows(s, x, y), SwapRows(s', x, y))
  {
    forall r, c | 0 <= r < n && 0 <= c < n ensures SwapRows(s, x, y)(r, c) == SwapRows(s', x, y)(r, c) {
      assert s(Exchange(x, y, r), c) == s'(Exchange(x, y, r), c);
    }
  }

  lemma PivotRowRange(n: nat, b: Mat, j: nat)
    requires j < n
    ensures j <= PivotRow(n, b, j) < n && IsFirstLargest(Complement(n, b, j), j, n, PivotRow(n, b, j))
    ensures var s, l := Complement(n, b, j), PivotRow(n, b, j);
      && (forall r :: j <= r < l ==> Abs(s(r, j)) < Abs(s(l, j)))
      && (forall r :: l <= r < n ==> Abs(s(r, j)) <= Abs(s(l, j)))
  {
  }

  lemma SameCleared(n: nat, s: Mat, s': Mat, j: nat)
    requires j < n && Same(n, s, s')
    ensures Same(n, Cleared(s, j), Cleared(s', j))
  {
  }

  lemma SameElimination(n: nat, b: Mat, b': Mat)
    requires Same(n, b, b')
    ensures PivotsPass(n, b) <==> PivotsPass(n, b')
  {
    hide PivotSize, Same, Complement;
    forall j: nat | j < n ensures PivotSize(n, b, j) == PivotSize(n, b', j) {
      SameComplement(n, b, b', j);
      SamePivot(n, b, b', j);
    }
  }

  /** With the multipliers in f, s is what the textbook elimination has made of b's columns from j on. */
  ghost predicate Shadows(n: nat, j: int, f: Mat, b: Mat, s: Mat) {
    forall r, c :: 0 <= r < n && j <= c < n ==> b(r, c) == Dot(f, s, r, c, 0, Min(r, j)) + s(r, c)
  }

  /** Column j of f is reduced, and it is the textbook's. */
  ghost predicate Ready(n: nat, j: int, f: Mat, b: Mat, s: Mat) {
    Reduced(n, j, f, b) && Shadows(n, j, f, b, s) && forall r :: 0 <= r < n ==> f(r, j) == s(r, j)
  }

  /** Forward substitution has one solution, so the reduced column is the textbook's. */
  lemma {:induction false} ColumnIsTextbook(n: nat, j: int, f: Mat, b: Mat, s: Mat, r: int)
    requires 0 <= r < n && 0 <= j < n && Reduced(n, j, f, b) && Shadows(n, j, f, b, s)
    ensures forall k :: 0 <= k <= r ==> f(k, j) == s(k, j)
    decreases r
  {
    hide Reduced, Shadows;
    if r > 0 { ColumnIsTextbook(n, j, f, b, s, r - 1); }
    EntryIsTextbook(n, j, f, b, s, r);
  }

  lemma EntryIsTextbook(n: nat, j: int, f: Mat, b: Mat, s: Mat, r: int)
    requires 0 <= r < n && 0 <= j < n && Reduced(n, j, f, b) && Shadows(n, j, f, b, s)
    requires forall k :: 0 <= k < r ==> f(k, j) == s(k, j)
    ensures f(r, j) == s(r, j)
  {
    hide Dot, ColumnFactored;
    DotCongruence(f, s, f, f, r, j, r, j, 0, Min(r, j));
    assert b(r, j) == Dot(f, s, r, j, 0, Min(r, j)) + s(r, j);
  }

  lemma ReducedIsReady(n: nat, j: int, f: Mat, f': Mat, b: Mat, s: Mat)
    requires 0 <= j < n && Reduced(n, j, f', b) && Shadows(n, j, f, b, s)
    requires forall r, c :: 0 <= r < n && 0 <= c < n && c != j ==> f'(r, c) == f(r, c)
    ensures Ready(n, j, f', b, s)
  {
    forall r, c | 0 <= r < n && j <= c < n ensures b(r, c) == Dot(f', s, r, c, 0, Min(r, j)) + s(r, c) {
      DotCongruence(f', s, f, s, r, c, r, c, 0, Min(r, j));
    }
    ColumnIsTextbook(n, j, f', b, s, n - 1);
  }

  lemma SwapKeepsReady(n: nat, j: int, f: Mat, f': Mat, b: Mat, s: Mat, y: int)
    requires 0 <= j <= y < n && Ready(n, j, f, b, s)
    requires forall r, k :: 0 <= r < n && 0 <= k < n ==> f'(r, k) == f(Exchange(j, y, r), k)
    ensures Ready(n, j, f', SwapRows(b, j, y), SwapRows(s, j, y))
  {
    var b', s' := SwapRows(b, j, y), SwapRows(s, j, y);
    SwapKeepsReduced(n, j, f, f', b, y);
    forall r, c | 0 <= r < n && j <= c < n ensures b'(r, c) == Dot(f', s', r, c, 0, Min(r, j)) + s'(r, c) {
      var r0 := Exchange(j, y, r);
      DotCongruence(f', s', f, s, r, c, r0, c, 0, Min(r, j));
    }
  }

  /** Scaling column j in the array is clearing it in the textbook. */
  lemma ScaleClears(n: nat, j: int, f: Mat, f': Mat, b: Mat, s: Mat, t: real)
    requires 0 <= j < n && Ready(n, j, f, b, s) && Product(t, f(j, j)) == 1.0
    requires forall r, k :: 0 <= r < n && 0 <= k < n && (k != j || r < j) ==> f'(r, k) == f(r, k)
    requires forall r :: j < r < n ==> f'(r, j) == Product(f(r, j), t)
    ensures Shadows(n, j + 1, f', b, Cleared(s, j))
  {
    hide Dot, Reduced, Cleared;
    forall r, c | 0 <= r < n && j + 1 <= c < n
      ensures b(r, c) == Dot(f', Cleared(s, j), r, c, 0, Min(r, j + 1)) + Cleared(s, j)(r, c)
    {
      assert b(r, c) == Dot(f, s, r, c, 0, Min(r, j)) + s(r, c);
      EntryClears(j, f, f', b, s, t, r, c);
    }
  }

  lemma EntryClears(j: int, f: Mat, f': Mat, b: Mat, s: Mat, t: real, r: int, c: int)
    requires 0 <= j < c && 0 <= r && Product(t, f(j, j)) == 1.0 && f(j, j) == s(j, j) && f(r, j) == s(r, j)
    requires forall k :: 0 <= k < j ==> f'(r, k) == f(r, k)
    requires r > j ==> f'(r, j) == Product(f(r, j), t)
    requires b(r, c) == Dot(f, s, r, c, 0, Min(r, j)) + s(r, c)
    ensures b(r, c) == Dot(f', Cleared(s, j), r, c, 0, Min(r, j + 1)) + Cleared(s, j)(r, c)
  {
    hide Product, Dot;
    var s' := Cleared(s, j);
    DotCongruence(f', s', f, s, r, c, r, c, 0, Min(r, j));
    if r > j {
      MultipleOfPivotRow(f(r, j), s(j, j), t, s(j, c));
      LastTerm(f', s', r, c, j);
    }
  }

  lemma LastTerm(a: Mat, b: Mat, r: int, c: int, j: nat)
    ensures Dot(a, b, r, c, 0, j + 1) == Dot(a, b, r, c, 0, j) + a(r, j) * b(j, c)
  {
  }

  lemma MultipleOfPivotRow(x: real, y: real, t: real, u: real)
    requires Product(t, y) == 1.0
    ensures y != 0.0 && Product(x, t) * u == Product(x / y, u)
  {
    assert x / y == (x / y) * (y * t) == x * t;
  }

  /** Entry (r, c) of f' and b' is entry (r0, c) of f and b; what lies left of it and above it agrees too. */
  lemma EntryCarriesOver(f: Mat, f': Mat, b: Mat, b': Mat, r: int, r0: int, c: int)
    requires c >= 0 && EntryFactored(f, b, r0, c) && b'(r, c) == b(r0, c)
    requires Min(r, c) == Min(r0, c) && (r == r0 || (c < r && c < r0))
    requires forall k :: 0 <= k <= c ==> f'(r, k) == f(r0, k)
    requires forall k :: 0 <= k < Min(r, c) || k == c ==> f'(k, c) == f(k, c)
    ensures EntryFactored(f', b', r, c)
  {
    DotCongruence(f', f', f, f, r, c, r0, c, 0, Min(r, c));
    assert Pivot(f', c) == Pivot(f, c) && f'(r, c) == f(r0, c);
  }

  lemma SwapKeepsColumn(n: nat, j: int, f: Mat, f': Mat, b: Mat, b': Mat, x: int, y: int, c: int)
    requires 0 <= c < j <= x <= y < n
    requires forall r :: 0 <= r < n ==> b'(r, c) == b(Exchange(x, y, r), c)
    requires forall r, k :: 0 <= r < n && 0 <= k < n ==> f'(r, k) == f(Exchange(x, y, r), k)
    requires ColumnFactored(n, f, b, c)
    ensures ColumnFactored(n, f', b', c)
  {
    forall r | 0 <= r < n ensures EntryFactored(f', b', r, c) {
      EntryCarriesOver(f, f', b, b', r, Exchange(x, y, r), c);
    }
    forall r | c < r < n ensures Abs(f'(r, c)) <= 1.0 {
      assert f'(r, c) == f(Exchange(x, y, r), c);
    }
  }

  /** A column of f whose entries and whose columns to the left are kept stays factored. */
  lemma KeepColumn(n: nat, f: Mat, f': Mat, b: Mat, c: int)
    requires 0 <= c < n && ColumnFactored(n, f, b, c)
    requires forall r, k :: 0 <= r < n && 0 <= k <= c ==> f'(r, k) == f(r, k)
    ensures ColumnFactored(n, f', b, c)
  {
    forall r | 0 <= r < n ensures EntryFactored(f', b, r, c) {
      EntryCarriesOver(f, f', b, b, r, r, c);
    }
  }

  lemma SwapKeepsReduced(n: nat, j: int, f: Mat, f': Mat, b: Mat, y: int)
    requires 0 <= j <= y < n && Reduced(n, j, f, b)
    requires forall r, k :: 0 <= r < n && 0 <= k < n ==> f'(r, k) == f(Exchange(j, y, r), k)
    ensures Reduced(n, j, f', SwapRows(b, j, y))
  {
    var b' := SwapRows(b, j, y);
    forall c | 0 <= c < j ensures ColumnFactored(n, f', b', c) {
      SwapKeepsColumn(n, j, f, f', b, b', j, y, c);
    }
    forall r | 0 <= r < n ensures b'(r, j) == Dot(f', f', r, j, 0, Min(r, j)) + f'(r, j) {
      var r0 := Exchange(j, y, r);
      DotCongruence(f', f', f, f, r, j, r0, j, 0, Min(r, j));
    }
  }

  lemma ScaleFinishesColumn(n: nat, j: int, f: Mat, f': Mat, b: Mat, t: real)
    requires 0 <= j < n && Reduced(n, j, f, b) && Product(t, f(j, j)) == 1.0
    requires forall r :: j <= r < n ==> Abs(f(r, j)) <= Abs(f(j, j))
    requires forall r, k :: 0 <= r < n && 0 <= k < n && (k != j || r < j) ==> f'(r, k) == f(r, k)
    requires f'(j, j) == t
    requires forall r :: j < r < n ==> f'(r, j) == Product(f(r, j), t)
    ensures FactoredTo(n, j + 1, f', b)
    ensures Pivot(f', j) == f(j, j)
  {
    forall c | 0 <= c < j ensures ColumnFactored(n, f', b, c) { KeepColumn(n, f, f', b, c); }
    Reciprocal(t, f(j, j));
    forall r | 0 <= r < n
      ensures EntryFactored(f', b, r, j)
      ensures r > j ==> Abs(f'(r, j)) <= 1.0
    {
      ScaleFinishesEntry(f, f', b, r, j, t);
    }
  }

  lemma ScaleFinishesEntry(f: Mat, f': Mat, b: Mat, r: int, j: int, t: real)
    requires 0 <= j && 0 <= r && Pivot(f', j) == f(j, j) && Product(t, f(j, j)) == 1.0
    requires b(r, j) == Dot(f, f, r, j, 0, Min(r, j)) + f(r, j)
    requires forall k :: 0 <= k < j ==> f'(r, k) == f(r, k)
    requires forall k :: 0 <= k < j ==> f'(k, j) == f(k, j)
    requires r > j ==> f'(r, j) == Product(f(r, j), t) && Abs(f(r, j)) <= Abs(f(j, j))
    ensures EntryFactored(f', b, r, j)
    ensures r > j ==> Abs(f'(r, j)) <= 1.0
  {
    DotCongruence(f', f', f, f, r, j, r, j, 0, Min(r, j));
    if r > j { Ratio(f(r, j), f(j, j), t); }
  }

  lemma Ratio(x: real, y: real, t: real)
    requires Product(t, y) == 1.0 && Abs(x) <= Abs(y)
    ensures Product(Product(x, t), y) == x
    ensures Abs(Product(x, t)) <= 1.0
  {
    assert x * t * y == x * (t * y);
    BoundedByOne(Product(x, t), y, x);
  }

  lemma BoundedByOne(q: real, y: real, x: real)
    requires Product(q, y) == x && Abs(x) <= Abs(y) && y != 0.0
    ensures Abs(q) <= 1.0
  {
    var a, b := Abs(q), Abs(y);
    assert a * b == Abs(x);
    if a > 1.0 {
      ProductGrows(a, b);
      assert false;
    }
  }

  lemma ProductGrows(a: real, b: real)
    requires a > 1.0 && b > 0.0
    ensures a * b > b
  {
    assert (a - 1.0) * b > 0.0;
  }

  // ----- stage 1: P A = L U

  /** The first m entries of q are rows from, ..., from + m - 1 of column j. */
  ghost predicate Loaded(f: Mat, j: int, from: int, m: int, q: seq<real>) {
    m <= |q| && forall i :: 0 <= i < m ==> q[i] == f(from + i, j)
  }

  /** f' is f with those rows of column j replaced by q. */
  ghost predicate Stored(n: nat, f: Mat, f': Mat, j: int, from: int, m: int, q: seq<real>) {
    && m <= |q|
    && forall r, c :: 0 <= r < n && 0 <= c < n ==>
         f'(r, c) == if c == j && from <= r < from + m then q[r - from] else f(r, c)
  }

  method LoadColumn(N: nat, A: array2<real>, j: nat, from: nat, m: nat, q0: array<real>)
    requires Square(N, A) && j < N && from + m <= N && m <= q0.Length
    modifies q0
    ensures Loaded(View(A), j, from, m, q0[..])
  {
    for i := 0 to m
      invariant forall r :: 0 <= r < i ==> q0[r] == A[from + r, j]
    {
      q0[i] := A[from + i, j];
    }
  }

  method StoreColumn(N: nat, A: array2<real>, j: nat, from: nat, m: nat, q0: array<real>)
    requires Square(N, A) && j < N && from + m <= N && m <= q0.Length
    modifies A
    ensures Stored(N, old(View(A)), View(A), j, from, m, q0[..])
  {
    for i := 0 to m
      invariant forall r, c :: 0 <= r < N && 0 <= c < N ==>
                  A[r, c] == if c == j && from <= r < from + i then q0[r - from] else old(A[r, c])
    {
      A[from + i, j] := q0[i];
    }
  }

  /** Entry r of column col, reduced by the columns before j, is q[r]. */
  ghost predicate ScratchReduced(f: Mat, col: seq<real>, q: seq<real>, j: int, r: int)
    requires 0 <= r < |col| && |q| == |col|
  {
    col[r] == Dot(f, Scratch(q, 0), r, j, 0, Min(r, j)) + q[r]
  }

  ghost predicate ReducedFrom(n: nat, f: Mat, col: seq<real>, q: seq<real>, j: int) {
    n == |col| == |q| && forall r :: 0 <= r < n ==> ScratchReduced(f, col, q, j, r)
  }

  /** Reducing entry i leaves the entries before it reduced. */
  lemma ReduceStep(N: nat, f: Mat, col: seq<real>, q: seq<real>, q': seq<real>, j: nat, i: nat, t: real)
    requires N == |col| == |q| && i < N && q' == q[i := q[i] - t] && q[i] == col[i]
    requires t == Dot(f, Scratch(q, 0), i, j, 0, Min(i, j))
    requires forall r :: 0 <= r < i ==> ScratchReduced(f, col, q, j, r)
    ensures forall r :: 0 <= r <= i ==> ScratchReduced(f, col, q', j, r)
  {
    hide Dot;
    forall r | 0 <= r <= i ensures ScratchReduced(f, col, q', j, r) {
      if r < i { assert ScratchReduced(f, col, q, j, r); }
      DotCongruence(f, Scratch(q, 0), f, Scratch(q', 0), r, j, r, j, 0, Min(r, j));
    }
  }

  /** The first lc entries of row i times those of the scratch column. */
  method RowTimesScratch(N: nat, A: array2<real>, i: nat, j: nat, q0: array<real>, lc: nat) returns (t: real)
    requires Square(N, A) && q0.Length == N && i < N && lc <= N
    ensures t == Dot(View(A), Scratch(q0[..], 0), i, j, 0, lc)
  {
    ghost var f, g := View(A), Scratch(q0[..], 0);
    t := 0.0;
    for k := 0 to lc
      invariant t == Dot(f, g, i, j, 0, k)
    {
      assert f(i, k) == A[i, k] && g(k, j) == q0[k];
      t := t + A[i, k] * q0[k];
    }
  }

  method ReduceScratch(N: nat, A: array2<real>, j: nat, q0: array<real>, ghost f: Mat)
    requires Square(N, A) && q0.Length == N && j < N && f == View(A)
    modifies q0
    ensures ReducedFrom(N, f, old(q0[..]), q0[..], j)
  {
    ghost var col := q0[..];
    for i := 1 to N
      invariant forall r :: 0 <= r < i && r < N ==> ScratchReduced(f, col, q0[..], j, r)
      invariant forall r :: i <= r < N ==> q0[r] == col[r]
    {
      var lc := if i < j then i else j;
      ghost var q := q0[..];
      var t := RowTimesScratch(N, A, i, j, q0, lc);
      q0[i] := q0[i] - t;
      ReduceStep(N, f, col, q, q0[..], j, i, t);
    }
  }

  /** Column j of f is what the columns before it account for in f', plus column j of f'. */
  ghost predicate ColumnReduced(n: nat, f: Mat, f': Mat, j: int) {
    && (forall r, c :: 0 <= r < n && 0 <= c < n && c != j ==> f'(r, c) == f(r, c))
    && (forall r :: 0 <= r < n ==> EntryReduced(f, f', r, j))
  }

  ghost predicate EntryReduced(f: Mat, f': Mat, r: int, j: int) {
    f(r, j) == Dot(f', f', r, j, 0, Min(r, j)) + f'(r, j)
  }

  /** Subtracts from column j what the columns before it account for. */
  method ReduceColumn(N: nat, A: array2<real>, j: nat, q0: array<real>)
    requires Square(N, A) && q0.Length == N && j < N
    modifies A, q0
    ensures ColumnReduced(N, old(View(A)), View(A), j)
  {
    hide Loaded, Stored, ReducedFrom, ColumnReduced;
    ghost var f := View(A);
    if j > 0 {
      LoadColumn(N, A, j, 0, N, q0);
      ghost var col := q0[..];
      ReduceScratch(N, A, j, q0, f);
      StoreColumn(N, A, j, 0, N, q0);
      ScratchMeansReduced(N, j, f, View(A), col, q0[..]);
    } else {
      FirstColumnReduced(N, f);
    }
  }

  lemma FirstColumnReduced(n: nat, f: Mat)
    ensures ColumnReduced(n, f, f, 0)
  {
  }

  lemma ScratchMeansReduced(n: nat, j: int, f: Mat, f': Mat, col: seq<real>, q: seq<real>)
    requires 0 <= j < n && Loaded(f, j, 0, n, col) && ReducedFrom(n, f, col, q, j) && Stored(n, f, f', j, 0, n, q)
    ensures ColumnReduced(n, f, f', j)
  {
    forall r | 0 <= r < n ensures EntryReduced(f, f', r, j) {
      assert ScratchReduced(f, col, q, j, r);
      DotCongruence(f, Scratch(q, 0), f', f', r, j, r, j, 0, Min(r, j));
    }
  }

  method LargestBelow(N: nat, A: array2<real>, j: nat) returns (s: real, lc: nat)
    requires Square(N, A) && j < N
    ensures IsFirstLargest(View(A), j, N, lc) && s == Abs(A[lc, j])
  {
    s, lc := Abs(A[j, j]), j;
    for k := j + 1 to N
      invariant j <= lc < N && s == Abs(A[lc, j])
      invariant forall r :: j <= r < k ==> Abs(A[r, j]) <= s
      invariant forall r :: j <= r < lc ==> Abs(A[r, j]) < s
    {
      var t := Abs(A[k, j]);
      if t > s {
        s, lc := t, k;
      }
    }
  }

  method ExchangeRows(N: nat, A: array2<real>, x: nat, y: nat)
    requires Square(N, A) && x < N && y < N
    modifies A
    ensures forall r, c :: 0 <= r < N && 0 <= c < N ==> A[r, c] == old(A[Exchange(x, y, r), c])
  {
    if x != y {
      for k := 0 to N
        invariant forall r, c :: 0 <= r < N && 0 <= c < N ==> A[r, c] == old(A[if c < k then Exchange(x, y, r) else r, c])
      {
        A[x, k], A[y, k] := A[y, k], A[x, k];
      }
    }
  }

  method ScaleColumn(N: nat, A: array2<real>, j: nat) returns (t: real)
    requires Square(N, A) && j < N && A[j, j] != 0.0
    modifies A
    ensures forall r, c :: 0 <= r < N && 0 <= c < N && (c != j || r < j) ==> A[r, c] == old(A[r, c])
    ensures A[j, j] == t && Product(t, old(A[j, j])) == 1.0
    ensures forall r :: j < r < N ==> A[r, j] == Product(old(A[r, j]), t)
  {
    t := 1.0 / A[j, j];
    for k := j + 1 to N
      invariant forall r, c :: 0 <= r < N && 0 <= c < N && (c != j || r <= j || k <= r) ==> A[r, c] == old(A[r, c])
      invariant forall r :: j < r < k ==> A[r, j] == Product(old(A[r, j]), t)
    {
      A[k, j] := A[k, j] * t;
    }
    A[j, j] := t;
  }

  /** The state of the elimination of b before column j; tq is the largest pivot so far. */
  ghost predicate Progress(n: nat, j: int, f: Mat, b: Mat, p: seq<int>, tq: real) {
    && 0 <= j <= n && |p| == j && PivotList(n, p)
    && FactoredTo(n, j, f, PermuteRows(p, b))
    && Shadows(n, j, f, PermuteRows(p, b), Complement(n, b, j))
    && (forall c :: 0 <= c < j ==> p[c] == PivotRow(n, b, c) && Abs(Pivot(f, c)) == PivotSize(n, b, c))
    && PivotsAccepted(j, f)
    && LargestSoFar(j, f, tq)
  }

  ghost predicate LargestSoFar(j: int, f: Mat, tq: real) {
    && (forall c :: 0 <= c < j ==> Abs(Pivot(f, c)) <= tq)
    && (if j == 0 then tq == 0.0 else tq > 0.0 && exists c :: 0 <= c < j && Abs(Pivot(f, c)) == tq)
  }

  ghost predicate ZeroFirstColumn(n: nat, b: Mat) {
    n > 0 && forall r :: 0 <= r < n ==> b(r, 0) == 0.0
  }

  /** Pivot search in the reduced column j, the acceptance test, and the exchange. */
  method ChoosePivot(N: nat, A: array2<real>, le: array<int>, j: nat, tq0: real, ghost b: Mat, ghost f0: Mat)
    returns (ok: bool, tq: real)
    requires Square(N, A) && le.Length == N && j < N
    requires Progress(N, j, f0, b, le[..j], tq0)
    requires Ready(N, j, View(A), PermuteRows(le[..j], b), Complement(N, b, j))
    requires forall c :: 0 <= c < j ==> View(A)(c, c) == f0(c, c)
    modifies A, le
    ensures le[..j] == old(le[..j])
    ensures !ok ==> j > 0 && !PivotsPass(N, b)
    ensures ok ==> le[j] == PivotRow(N, b, j) && IsFirstLargest(old(View(A)), j, N, le[j])
    ensures ok ==> Ready(N, j, View(A), PermuteRows(le[..j + 1], b), Pivoted(N, b, j))
    ensures ok ==> forall c :: 0 <= c < j ==> View(A)(c, c) == f0(c, c)
    ensures ok ==> forall r :: j <= r < N ==> Abs(View(A)(r, j)) <= Abs(View(A)(j, j))
    ensures ok ==> Abs(View(A)(j, j)) == PivotSize(N, b, j)
    ensures ok ==> tq == (if tq0 > Abs(View(A)(j, j)) then tq0 else Abs(View(A)(j, j)))
    ensures ok ==> Abs(View(A)(j, j)) >= Threshold(tq)
  {
    hide Progress, Ready, PermuteRows, PivotsPass, PivotRow, PivotSize, Pivoted, Complement;
    ghost var p, f1 := le[..j], View(A);
    var s, lc := LargestBelow(N, A, j);
    PivotIsTextbook(N, j, f1, b, p, lc);
    tq := if tq0 > s then tq0 else s;
    if s < Threshold(tq) {
      RefusedBySmallPivot(N, j, f0, b, p, tq0, tq);
      return false, tq;
    }
    le[j] := lc;
    ExchangeRows(N, A, j, lc);
    assert le[..j + 1] == p + [lc];
    ExchangeKeepsReady(N, j, f1, View(A), b, p, lc);
    ok := true;
  }

  /** One turn of the column loop. */
  method EliminateColumn(N: nat, A: array2<real>, le: array<int>, q0: array<real>, j: nat, tq0: real, ghost b: Mat)
    returns (st: Status, tq: real)
    requires Square(N, A) && q0.Length == N && le.Length == N && j < N
    requires Progress(N, j, View(A), b, le[..j], tq0)
    modifies A, le, q0
    ensures st == NotFinite <==> j == 0 && ZeroFirstColumn(N, b)
    ensures st == Inverted ==> Progress(N, j + 1, View(A), b, le[..j + 1], tq)
    ensures st == Refused ==> j > 0 && !PivotsPass(N, b)
  {
    hide ColumnReduced, Progress, Ready, PivotsPass, FactoredTo, PivotsAccepted, ZeroFirstColumn, PermuteRows, PivotRow, PivotSize,
      Pivoted, Complement, IsFirstLargest;
    ghost var p, f0 := le[..j], View(A);
    ReduceColumn(N, A, j, q0);
    ghost var f1 := View(A);
    ReducedByProgress(N, j, f0, f1, b, p, tq0);
    var ok;
    ok, tq := ChoosePivot(N, A, le, j, tq0, b, f0);
    if !ok {
      return Refused, tq;
    }
    ghost var p' := le[..j + 1];
    assert p'[..j] == p;
    st := FinishColumn(N, A, j, b, p', f0, tq0, tq);
  }

  method FinishColumn(N: nat, A: array2<real>, j: nat, ghost b: Mat, ghost p: seq<int>, ghost f0: Mat, ghost tq0: real, ghost tq: real)
    returns (st: Status)
    requires Square(N, A) && j < N && |p| == j + 1 && p[j] == PivotRow(N, b, j)
    requires Progress(N, j, f0, b, p[..j], tq0) && Ready(N, j, View(A), PermuteRows(p, b), Pivoted(N, b, j))
    requires forall c :: 0 <= c < j ==> View(A)(c, c) == f0(c, c)
    requires forall r :: j <= r < N ==> Abs(View(A)(r, j)) <= Abs(View(A)(j, j))
    requires Abs(View(A)(j, j)) == PivotSize(N, b, j)
    requires tq == (if tq0 > Abs(View(A)(j, j)) then tq0 else Abs(View(A)(j, j)))
    requires Abs(View(A)(j, j)) >= Threshold(tq)
    modifies A
    ensures st == Inverted || st == NotFinite
    ensures st == NotFinite <==> j == 0 && ZeroFirstColumn(N, b)
    ensures st == Inverted ==> Progress(N, j + 1, View(A), b, p, tq)
  {
    hide Progress, Ready, Reduced, FactoredTo, Shadows, ZeroFirstColumn, PermuteRows, PivotRow, PivotSize, Pivoted, Complement, Cleared;
    ghost var f2 := View(A);
    ComplementStep(N, b, j);
    ReadyIsReduced(N, j, f2, PermuteRows(p, b), Pivoted(N, b, j));
    ZeroPivot(N, j, f2, b, p);
    if A[j, j] == 0.0 {
      ZeroPivotOnlyFirst(N, j, f0, b, p[..j], tq0, tq);
      return NotFinite;
    }
    var t := ScaleColumn(N, A, j);
    ScaleFinishesColumn(N, j, f2, View(A), PermuteRows(p, b), t);
    ScaleClears(N, j, f2, View(A), PermuteRows(p, b), Pivoted(N, b, j), t);
    ProgressStep(N, j, f0, View(A), b, p, tq0, tq);
    st := Inverted;
  }

  lemma ComplementStep(n: nat, b: Mat, j: nat)
    requires j < n
    ensures Complement(n, b, j + 1) == Cleared(Pivoted(n, b, j), j) && j <= PivotRow(n, b, j) < n
  {
  }

  lemma ReadyIsReduced(n: nat, j: int, f: Mat, b: Mat, s: Mat)
    requires Ready(n, j, f, b, s)
    ensures Reduced(n, j, f, b)
  {
  }

  lemma ReducedByProgress(n: nat, j: int, f: Mat, f': Mat, b: Mat, p: seq<int>, tq: real)
    requires 0 <= j < n && Progress(n, j, f, b, p, tq) && ColumnReduced(n, f, f', j)
    ensures Ready(n, j, f', PermuteRows(p, b), Complement(n, b, j))
    ensures forall c :: 0 <= c < j ==> f'(c, c) == f(c, c)
  {
    hide Shadows, Complement, PermuteRows, PivotsAccepted, PivotRow, PivotSize;
    var pb := PermuteRows(p, b);
    forall c | 0 <= c < j ensures ColumnFactored(n, f', pb, c) {
      KeepColumn(n, f, f', pb, c);
    }
    forall r | 0 <= r < n ensures pb(r, j) == Dot(f', f', r, j, 0, Min(r, j)) + f'(r, j) {
      assert EntryReduced(f, f', r, j);
    }
    ReducedIsReady(n, j, f, f', pb, Complement(n, b, j));
  }

  lemma PivotIsTextbook(n: nat, j: nat, f: Mat, b: Mat, p: seq<int>, l: int)
    requires j < n && Ready(n, j, f, PermuteRows(p, b), Complement(n, b, j)) && IsFirstLargest(f, j, n, l)
    ensures PivotRow(n, b, j) == l && PivotSize(n, b, j) == Abs(f(l, j))
  {
    FirstLargestUnique(f, Complement(n, b, j), j, n, l);
  }

  lemma RefusedBySmallPivot(n: nat, j: nat, f: Mat, b: Mat, p: seq<int>, tq0: real, tq: real)
    requires j < n && Progress(n, j, f, b, p, tq0)
    requires var s := PivotSize(n, b, j); tq == (if tq0 > s then tq0 else s) && s < Threshold(tq)
    ensures j > 0 && !PivotsPass(n, b)
  {
    hide FactoredTo, Shadows, PermuteRows, Complement, PivotRow, PivotsAccepted;
    var i :| 0 <= i < j && Abs(Pivot(f, i)) == tq0;
    assert PivotSize(n, b, i) == tq0;
  }

  lemma ExchangeKeepsReady(n: nat, j: nat, f: Mat, f': Mat, b: Mat, p: seq<int>, lc: int)
    requires j <= lc < n && |p| == j && lc == PivotRow(n, b, j)
    requires Ready(n, j, f, PermuteRows(p, b), Complement(n, b, j))
    requires forall r, k :: 0 <= r < n && 0 <= k < n ==> f'(r, k) == f(Exchange(j, lc, r), k)
    ensures Ready(n, j, f', PermuteRows(p + [lc], b), Pivoted(n, b, j))
  {
    hide Ready, Complement, PivotRow;
    assert (p + [lc])[..j] == p;
    SwapKeepsReady(n, j, f, f', PermuteRows(p, b), Complement(n, b, j), lc);
  }

  /** In column 0 the largest entry is the pivot, so a zero pivot means a zero column. */
  lemma ZeroPivot(n: nat, j: int, f: Mat, b: Mat, p: seq<int>)
    requires 0 <= j < n && |p| == j + 1 && Reduced(n, j, f, PermuteRows(p, b)) && 0 <= p[j] < n
    requires forall r :: j <= r < n ==> Abs(f(r, j)) <= Abs(f(j, j))
    ensures j == 0 ==> (f(j, j) == 0.0 <==> ZeroFirstColumn(n, b))
  {
    if j == 0 {
      assert p[..|p| - 1] == [];
      var c := SwapRows(b, 0, p[0]);
      assert PermuteRows(p, b) == c;
      forall r | 0 <= r < n ensures b(r, 0) == f(Exchange(0, p[0], r), 0) {
        var r' := Exchange(0, p[0], r);
        assert c(r', 0) == b(Exchange(0, p[0], r'), 0) == b(r, 0);
        assert c(r', 0) == Dot(f, f, r', 0, 0, Min(r', 0)) + f(r', 0);
      }
    }
  }

  lemma ZeroPivotOnlyFirst(n: nat, j: int, f: Mat, b: Mat, p: seq<int>, tq0: real, tq: real)
    requires Progress(n, j, f, b, p, tq0) && tq >= tq0 && 0.0 >= Threshold(tq)
    ensures j == 0
  {
  }

  lemma ProgressStep(n: nat, j: int, f: Mat, f': Mat, b: Mat, p: seq<int>, tq0: real, tq: real)
    requires 0 <= j < n && |p| == j + 1 && p[j] == PivotRow(n, b, j) && Progress(n, j, f, b, p[..j], tq0)
    requires FactoredTo(n, j + 1, f', PermuteRows(p, b)) && Shadows(n, j + 1, f', PermuteRows(p, b), Complement(n, b, j + 1))
    requires Abs(Pivot(f', j)) == PivotSize(n, b, j)
    requires forall c :: 0 <= c < j ==> f'(c, c) == f(c, c)
    requires tq == if tq0 > Abs(Pivot(f', j)) then tq0 else Abs(Pivot(f', j))
    requires Pivot(f', j) != 0.0 && Abs(Pivot(f', j)) >= Threshold(tq)
    ensures Progress(n, j + 1, f', b, p, tq)
  {
    hide FactoredTo, Shadows, Complement, PermuteRows, PivotRow, Pivoted, PivotSize, PivotsAccepted, LargestSoFar, Pivot;
    ComplementStep(n, b, j);
    PivotsKept(j, f, f');
    OneMoreAccepted(j, f, f', tq0, tq);
    OneMorePivot(j, f, f', tq0, tq);
  }

  lemma OneMorePivot(j: int, f: Mat, f': Mat, tq0: real, tq: real)
    requires j >= 0 && LargestSoFar(j, f, tq0) && forall c :: 0 <= c < j ==> Pivot(f', c) == Pivot(f, c)
    requires Pivot(f', j) != 0.0 && tq == if tq0 > Abs(Pivot(f', j)) then tq0 else Abs(Pivot(f', j))
    ensures LargestSoFar(j + 1, f', tq)
  {
    hide Pivot;
    if tq == tq0 && j > 0 {
      var c :| 0 <= c < j && Abs(Pivot(f, c)) == tq0;
      assert Abs(Pivot(f', c)) == tq;
    } else {
      assert Abs(Pivot(f', j)) == tq;
    }
  }

  lemma OneMoreAccepted(j: int, f: Mat, f': Mat, tq0: real, tq: real)
    requires j >= 0 && PivotsAccepted(j, f) && forall c :: 0 <= c < j ==> Pivot(f', c) == Pivot(f, c)
    requires LargestSoFar(j, f, tq0)
    requires tq >= tq0 && tq >= Abs(Pivot(f', j)) >= Threshold(tq)
    ensures PivotsAccepted(j + 1, f')
  {
    hide Pivot;
  }

  /**
   Elimination with partial pivoting. On Inverted the array is a packed P A = L U
   with |L| <= 1 and the reciprocal pivots on the diagonal, le encoding P.
   */
  method Eliminate(N: nat, A: array2<real>, le: array<int>, q0: array<real>) returns (st: Status)
    requires Square(N, A) && q0.Length == N && le.Length == N
    modifies A, le, q0
    ensures st == NotFinite <==> ZeroFirstColumn(N, old(View(A)))
    ensures st == Inverted <==> !ZeroFirstColumn(N, old(View(A))) && PivotsPass(N, old(View(A)))
    ensures st == Inverted ==> PivotList(N, le[..]) && PivotsAccepted(N, View(A))
                               && FactoredTo(N, N, View(A), PermuteRows(le[..], old(View(A))))
    ensures st == Inverted ==> forall c :: 0 <= c < N ==> le[c] == PivotRow(N, old(View(A)), c)
    ensures st == Inverted ==> forall c :: 0 <= c < N ==> Abs(Pivot(View(A), c)) == PivotSize(N, old(View(A)), c)
  {
    hide ZeroFirstColumn, PivotsPass, Progress, PermuteRows, FactoredTo, PivotsAccepted, PivotRow, PivotSize;
    ghost var b := View(A);
    NoProgress(N, b, le[..0]);
    var tq := 0.0;
    for j := 0 to N
      invariant Progress(N, j, View(A), b, le[..j], tq)
      invariant j > 0 ==> !ZeroFirstColumn(N, b)
    {
      st, tq := EliminateColumn(N, A, le, q0, j, tq, b);
      if st != Inverted {
        return;
      }
    }
    assert le[..N] == le[..];
    AllPass(N, View(A), b, le[..], tq);
    st := Inverted;
  }

  lemma NoProgress(n: nat, b: Mat, p: seq<int>)
    requires p == []
    ensures Progress(n, 0, b, b, p, 0.0) && (n == 0 ==> !ZeroFirstColumn(n, b))
  {
  }

  /** At the end of the column loop every pivot has passed. */
  lemma AllPass(n: nat, f: Mat, b: Mat, p: seq<int>, tq: real)
    requires Progress(n, n, f, b, p, tq)
    ensures PivotsPass(n, b) && PivotList(n, p) && PivotsAccepted(n, f) && FactoredTo(n, n, f, PermuteRows(p, b))
    ensures forall c :: 0 <= c < n ==> p[c] == PivotRow(n, b, c) && Abs(Pivot(f, c)) == PivotSize(n, b, c)
  {
    hide FactoredTo, Shadows, PermuteRows, Complement, PivotRow, PivotSize;
  }

  lemma PivotsKept(j: int, f: Mat, f': Mat)
    requires forall c :: 0 <= c < j ==> f'(c, c) == f(c, c)
    ensures forall c :: 0 <= c < j ==> Pivot(f', c) == Pivot(f, c)
    ensures PivotsAccepted(j, f) ==> PivotsAccepted(j, f')
  {
  }

  // ----- from the packed array to L, U and the product

  /** The packed entries are those of a unit lower L and an upper U with L U == b. */
  lemma PackedIsProduct(n: nat, f: Mat, b: Mat, r: int, c: int)
    requires FactoredTo(n, n, f, b) && 0 <= r < n && 0 <= c < n
    ensures Dot(UnitLowerOf(f), UpperOf(f), r, c, 0, n) == b(r, c)
  {
    var l, u, m := UnitLowerOf(f), UpperOf(f), Min(r, c);
    assert ColumnFactored(n, f, b, c);
    assert EntryFactored(f, b, r, c);
    DotSplit(l, u, r, c, 0, m + 1, n);
    DotZero(l, u, r, c, m + 1, n);
    DotCongruence(l, u, f, f, r, c, r, c, 0, m);
  }

  // ----- stages 2 and 3: U replaced by its inverse

  ghost predicate DiagonalNonzero(n: nat, f: Mat) {
    forall i :: 0 <= i < n ==> f(i, i) != 0.0
  }

  /** Entry (k, c) of the inverse of U, in terms of the columns before c. */
  ghost predicate UpperEntry(v: Mat, f: Mat, k: int, c: int) {
    v(k, c) == Product(-Dot(v, f, k, c, k, c), f(c, c))
  }

  lemma UpperEntriesInvert(n: nat, v: Mat, f: Mat)
    requires DiagonalNonzero(n, f)
    requires forall i :: 0 <= i < n ==> v(i, i) == f(i, i)
    requires forall k, c :: 0 <= k < c < n ==> UpperEntry(v, f, k, c)
    ensures LeftInverse(n, UpperStored(v), UpperOf(f))
    ensures UpperTriangular(n, UpperStored(v))
  {
    var x, u := UpperStored(v), UpperOf(f);
    forall k, c | 0 <= k < n && 0 <= c < n
      ensures Dot(x, u, k, c, 0, n) == if k == c then 1.0 else 0.0
    {
      if k > c {
        DotZero(x, u, k, c, 0, n);
      } else if k == c {
        DotSingle(x, u, k, c, 0, k, n);
      } else {
        AboveDiagonalCancels(n, v, f, k, c);
      }
    }
  }

  lemma AboveDiagonalCancels(n: nat, v: Mat, f: Mat, k: int, c: int)
    requires 0 <= k < c < n && f(c, c) != 0.0 && UpperEntry(v, f, k, c)
    ensures Dot(UpperStored(v), UpperOf(f), k, c, 0, n) == 0.0
  {
    var x, u := UpperStored(v), UpperOf(f);
    SplitAtOne(x, u, k, c, 0, c, n);
    DotZero(x, u, k, c, c + 1, n);
    DotSplit(x, u, k, c, 0, k, c);
    DotZero(x, u, k, c, 0, k);
    DotCongruence(x, u, v, f, k, c, k, c, k, c);
    Cancels(Dot(v, f, k, c, k, c), f(c, c), v(k, c));
  }

  lemma Cancels(s: real, d: real, x: real)
    requires d != 0.0 && x == Product(-s, d)
    ensures s + x * (1.0 / d) == 0.0
  {
    var t := 1.0 / d;
    assert d * t == 1.0;
    assert -s * d * t == -s * (d * t);
  }

  lemma {:induction false} DotScaled(v: Mat, g: Mat, f: Mat, k: int, c: int, lo: int, hi: int, d: real)
    requires forall i :: lo <= i < hi ==> g(i, c) == Product(f(i, c), d)
    ensures Dot(v, g, k, c, lo, hi) == Product(Dot(v, f, k, c, lo, hi), d)
    decreases hi - lo
  {
    if lo < hi {
      DotScaled(v, g, f, k, c, lo, hi - 1, d);
      var s, x, y := Dot(v, f, k, c, lo, hi - 1), v(k, hi - 1), f(hi - 1, c);
      assert x * (y * d) == (x * y) * d;
      assert (s + x * y) * d == s * d + (x * y) * d;
    }
  }

  /** Divides the part of U above the diagonal by the pivots, column by column. */
  method DivideByPivots(N: nat, A: array2<real>)
    requires Square(N, A)
    modifies A
    ensures forall r, c :: 0 <= r < N && 0 <= c < N ==>
              A[r, c] == if r < c then Product(old(A[r, c]), old(A[c, c])) else old(A[r, c])
  {
    var j := 1;
    while j < N
      invariant forall r, c :: 0 <= r < N && 0 <= c < N ==>
                  A[r, c] == if r < c < j then Product(old(A[r, c]), old(A[c, c])) else old(A[r, c])
    {
      for k := 0 to j
        invariant forall r, c :: 0 <= r < N && 0 <= c < N ==>
                    A[r, c] == if r < c && (c < j || (c == j && r < k)) then Product(old(A[r, c]), old(A[c, c])) else old(A[r, c])
      {
        A[k, j] := A[k, j] * A[j, j];
      }
      j := j + 1;
    }
  }

  ghost predicate NegatedRow(v: Mat, g: Mat, k: int, c: int) {
    v(k, c) == -Dot(v, g, k, c, k, c)
  }

  /** q' is -V q for the leading triangle V of f before column j. */
  ghost predicate UpperApplied(f: Mat, q: seq<real>, q': seq<real>, j: int) {
    j <= |q| && j <= |q'| && forall k :: 0 <= k < j ==> q'[k] == -Dot(f, Scratch(q, 0), k, j, k, j)
  }

  method UpperScratch(N: nat, A: array2<real>, j: nat, q0: array<real>, ghost f: Mat)
    requires Square(N, A) && q0.Length == N && j < N && f == View(A)
    modifies q0
    ensures UpperApplied(f, old(q0[..]), q0[..], j)
  {
    ghost var q := q0[..];
    for k := 0 to j
      invariant forall r :: 0 <= r < k ==> q0[r] == -Dot(f, Scratch(q, 0), r, j, r, j)
      invariant forall r :: k <= r < N ==> q0[r] == q[r]
    {
      var t := 0.0;
      for i := k to j
        invariant t == -Dot(f, Scratch(q, 0), k, j, k, i)
      {
        t := t - A[k, i] * q0[i];
      }
      q0[k] := t;
    }
  }

  /** Columns before j of the upper triangle are inverted; the others are still g's. */
  ghost predicate UpperDone(n: nat, j: int, v: Mat, g: Mat) {
    && (forall r, c :: 0 <= r < n && 0 <= c < n && (c <= r || j <= c) ==> v(r, c) == g(r, c))
    && (forall k, c :: 0 <= k < c < j && c < n ==> NegatedRow(v, g, k, c))
  }

  method InvertScaledUpper(N: nat, A: array2<real>, q0: array<real>, ghost g: Mat)
    requires Square(N, A) && q0.Length == N && g == View(A)
    modifies A, q0
    ensures UpperDone(N, N, View(A), g)
  {
    hide Loaded, Stored, UpperApplied, UpperDone;
    var j := 1;
    UpperStart(N, g);
    while j < N
      invariant UpperDone(N, if j <= N then j else N, View(A), g)
    {
      ghost var v := View(A);
      LoadColumn(N, A, j, 0, j, q0);
      ghost var q := q0[..];
      UpperScratch(N, A, j, q0, v);
      StoreColumn(N, A, j, 0, j, q0);
      UpperColumnStep(N, j, v, View(A), g, q, q0[..]);
      j := j + 1;
    }
  }

  lemma UpperStart(n: nat, g: Mat)
    ensures UpperDone(n, if 1 <= n then 1 else n, g, g)
  {
  }

  lemma UpperColumnStep(n: nat, j: int, v: Mat, v': Mat, g: Mat, q: seq<real>, q': seq<real>)
    requires 0 < j < n && UpperDone(n, j, v, g)
    requires Loaded(v, j, 0, j, q) && UpperApplied(v, q, q', j) && Stored(n, v, v', j, 0, j, q')
    ensures UpperDone(n, j + 1, v', g)
  {
    forall k, c | 0 <= k < c <= j ensures NegatedRow(v', g, k, c) {
      if c < j {
        assert NegatedRow(v, g, k, c);
        DotCongruence(v, g, v', g, k, c, k, c, k, c);
      } else {
        DotCongruence(v, Scratch(q, 0), v', g, k, c, k, c, k, c);
      }
    }
  }

  /** Stages 2 and 3: the upper triangle becomes the inverse of U; below the diagonal nothing changes. */
  method InvertUpper(N: nat, A: array2<real>, q0: array<real>)
    requires Square(N, A) && q0.Length == N && DiagonalNonzero(N, View(A))
    modifies A, q0
    ensures LeftInverse(N, UpperStored(View(A)), UpperOf(old(View(A)))) && UpperTriangular(N, UpperStored(View(A)))
    ensures forall r, c :: 0 <= c < r < N ==> View(A)(r, c) == old(View(A))(r, c)
  {
    hide UpperDone, UpperTriangular, LeftInverse;
    ghost var f := View(A);
    DivideByPivots(N, A);
    ghost var g := View(A);
    InvertScaledUpper(N, A, q0, g);
    UpperFinished(N, f, g, View(A));
  }

  lemma UpperFinished(n: nat, f: Mat, g: Mat, v: Mat)
    requires DiagonalNonzero(n, f) && UpperDone(n, n, v, g)
    requires forall r, c :: 0 <= r < n && 0 <= c < n ==> g(r, c) == if r < c then Product(f(r, c), f(c, c)) else f(r, c)
    ensures LeftInverse(n, UpperStored(v), UpperOf(f)) && UpperTriangular(n, UpperStored(v))
    ensures forall r, c :: 0 <= c < r < n ==> v(r, c) == f(r, c)
  {
    forall k, c | 0 <= k < c < n ensures UpperEntry(v, f, k, c) {
      assert NegatedRow(v, g, k, c);
      DotScaled(v, g, f, k, c, k, c, f(c, c));
      NegateProduct(Dot(v, f, k, c, k, c), f(c, c));
    }
    UpperEntriesInvert(n, v, f);
  }

  lemma NegateProduct(x: real, y: real)
    ensures -Product(x, y) == Product(-x, y)
  {
  }

  // ----- stage 4: L replaced by its inverse

  /** Entry (k, c) of the inverse of L, in terms of the columns after c. */
  ghost predicate LowerEntry(w: Mat, f: Mat, k: int, c: int) {
    w(k, c) == -f(k, c) - Dot(w, f, k, c, c + 1, k)
  }

  lemma LowerEntriesInvert(n: nat, w: Mat, f: Mat)
    requires forall k, c :: 0 <= c < k < n ==> LowerEntry(w, f, k, c)
    ensures LeftInverse(n, UnitLowerOf(w), UnitLowerOf(f))
    ensures LowerTriangular(n, UnitLowerOf(w))
  {
    var x, l := UnitLowerOf(w), UnitLowerOf(f);
    forall k, c | 0 <= k < n && 0 <= c < n
      ensures Dot(x, l, k, c, 0, n) == if k == c then 1.0 else 0.0
    {
      if k < c {
        DotZero(x, l, k, c, 0, n);
      } else if k == c {
        DotSingle(x, l, k, c, 0, k, n);
      } else {
        assert LowerEntry(w, f, k, c);
        SplitAtOne(x, l, k, c, 0, k, n);
        DotZero(x, l, k, c, k + 1, n);
        SplitAtOne(x, l, k, c, 0, c, k);
        DotZero(x, l, k, c, 0, c);
        DotCongruence(x, l, w, f, k, c, k, c, c + 1, k);
      }
    }
  }

  method LowerEntryValue(N: nat, A: array2<real>, k: int, j: nat, q0: array<real>, ghost f: Mat) returns (t: real)
    requires Square(N, A) && q0.Length == N && j < k < N && f == View(A)
    requires forall i :: j < i < k ==> q0[i - j - 1] == f(i, j)
    ensures t == -f(k, j) - Dot(f, f, k, j, j + 1, k)
  {
    t := -A[k, j];
    for i := j + 1 to k
      invariant t == -f(k, j) - Dot(f, f, k, j, j + 1, i)
    {
      t := t - A[k, i] * q0[i - j - 1];
    }
  }

  ghost predicate LowerColumn(n: nat, f: Mat, j: int, q: seq<real>) {
    && n - j - 1 <= |q|
    && forall m :: 0 <= m < n - j - 1 ==> q[m] == -f(m + j + 1, j) - Dot(f, f, m + j + 1, j, j + 1, m + j + 1)
  }

  /** Replaces the scratch copy of column j below the diagonal by column j of the inverse of L. */
  method LowerScratch(N: nat, A: array2<real>, j: nat, q0: array<real>, ghost f: Mat)
    requires Square(N, A) && q0.Length == N && j < N && f == View(A)
    requires Loaded(f, j, j + 1, N - j - 1, q0[..])
    modifies q0
    ensures LowerColumn(N, f, j, q0[..])
  {
    hide Dot, LowerFrom;
    var m := N - j - 1;
    var k := N - 1;
    LowerFromStart(N, f, j, q0[..]);
    while k > j
      invariant j <= k < N && m == k - j && LowerFrom(N, f, j, m, q0[..])
    {
      LowerFromLoaded(N, f, j, m, q0[..]);
      var t := LowerEntryValue(N, A, k, j, q0, f);
      LowerFromStep(N, f, j, m, q0[..], t);
      m := m - 1;
      q0[m] := t;
      k := k - 1;
    }
    LowerFromEnd(N, f, j, q0[..]);
  }

  /** Scratch entries from m on are replaced, those before are still f's column. */
  ghost predicate LowerFrom(n: nat, f: Mat, j: nat, m: int, q: seq<real>) {
    && 0 <= m <= n - j - 1 <= |q| && Loaded(f, j, j + 1, m, q)
    && forall i :: m <= i < n - j - 1 ==> q[i] == -f(i + j + 1, j) - Dot(f, f, i + j + 1, j, j + 1, i + j + 1)
  }

  lemma LowerFromStart(n: nat, f: Mat, j: nat, q: seq<real>)
    requires j < n && Loaded(f, j, j + 1, n - j - 1, q)
    ensures LowerFrom(n, f, j, n - j - 1, q)
  {
  }

  lemma LowerFromLoaded(n: nat, f: Mat, j: nat, m: int, q: seq<real>)
    requires LowerFrom(n, f, j, m, q)
    ensures 0 <= m <= |q| && forall i :: j < i < m + j + 1 ==> q[i - j - 1] == f(i, j)
  {
    hide Dot;
    forall i | j < i < m + j + 1 ensures q[i - j - 1] == f(i, j) { assert q[i - j - 1] == f(j + 1 + (i - j - 1), j); }
  }

  lemma LowerFromStep(n: nat, f: Mat, j: nat, m: int, q: seq<real>, t: real)
    requires LowerFrom(n, f, j, m, q) && m > 0 && t == -f(m + j, j) - Dot(f, f, m + j, j, j + 1, m + j)
    ensures LowerFrom(n, f, j, m - 1, q[m - 1 := t])
  {
    hide Dot;
  }

  lemma LowerFromEnd(n: nat, f: Mat, j: nat, q: seq<real>)
    requires LowerFrom(n, f, j, 0, q)
    ensures LowerColumn(n, f, j, q)
  {
    hide Dot;
  }

  /** Columns after j of the lower triangle are inverted; the rest is still f's. */
  ghost predicate LowerDone(n: nat, j: int, w: Mat, f: Mat) {
    && (forall r, c :: 0 <= r < n && 0 <= c < n && (r <= c || c <= j) ==> w(r, c) == f(r, c))
    && (forall k, c :: 0 <= c < k < n && j < c ==> LowerEntry(w, f, k, c))
  }

  lemma LowerColumnStep(n: nat, j: int, w: Mat, w': Mat, f: Mat, q: seq<real>)
    requires 0 <= j < n && LowerDone(n, j, w, f)
    requires LowerColumn(n, w, j, q) && Stored(n, w, w', j, j + 1, n - j - 1, q)
    ensures LowerDone(n, j - 1, w', f)
  {
    forall k, c | 0 <= c < k < n && j <= c ensures LowerEntry(w', f, k, c) {
      if j < c { LowerKeptEntry(n, j, w, w', f, q, k, c); } else {
        assert w'(k, j) == q[k - j - 1];
        LowerNewEntry(n, j, w, w', f, k);
      }
    }
  }

  lemma LowerKeptEntry(n: nat, j: int, w: Mat, w': Mat, f: Mat, q: seq<real>, k: int, c: int)
    requires 0 <= j < c < k < n && LowerEntry(w, f, k, c)
    requires Stored(n, w, w', j, j + 1, n - j - 1, q)
    ensures LowerEntry(w', f, k, c)
  {
    DotCongruence(w, f, w', f, k, c, k, c, c + 1, k);
  }

  lemma LowerNewEntry(n: nat, j: int, w: Mat, w': Mat, f: Mat, k: int)
    requires 0 <= j < k < n
    requires forall r :: 0 <= r < n ==> w(r, j) == f(r, j)
    requires forall c :: j < c < n ==> w'(k, c) == w(k, c)
    requires w'(k, j) == -w(k, j) - Dot(w, w, k, j, j + 1, k)
    ensures LowerEntry(w', f, k, j)
  {
    DotCongruence(w, w, w', f, k, j, k, j, j + 1, k);
  }

  /** Stage 4: the strictly lower triangle becomes the inverse of L; the rest is left alone. */
  method InvertLower(N: nat, A: array2<real>, q0: array<real>)
    requires Square(N, A) && q0.Length == N
    modifies A, q0
    ensures LeftInverse(N, UnitLowerOf(View(A)), UnitLowerOf(old(View(A)))) && LowerTriangular(N, UnitLowerOf(View(A)))
    ensures forall r, c :: 0 <= r <= c < N ==> View(A)(r, c) == old(View(A))(r, c)
  {
    hide Loaded, Stored, LowerColumn, LowerDone, LeftInverse, LowerTriangular;
    ghost var f := View(A);
    LowerStart(N, f);
    var j := N - 2;
    while j >= 0
      invariant -2 <= j < N && LowerDone(N, j, View(A), f)
    {
      ghost var w := View(A);
      LoadColumn(N, A, j, j + 1, N - j - 1, q0);
      LowerScratch(N, A, j, q0, w);
      StoreColumn(N, A, j, j + 1, N - j - 1, q0);
      LowerColumnStep(N, j, w, View(A), f, q0[..]);
      j := j - 1;
    }
    LowerFinished(N, j, View(A), f);
  }

  lemma LowerStart(n: nat, f: Mat)
    ensures LowerDone(n, n - 2, f, f)
  {
  }

  lemma LowerFinished(n: nat, j: int, w: Mat, f: Mat)
    requires j < 0 && LowerDone(n, j, w, f)
    ensures LeftInverse(n, UnitLowerOf(w), UnitLowerOf(f)) && LowerTriangular(n, UnitLowerOf(w))
    ensures forall r, c :: 0 <= r <= c < n ==> w(r, c) == f(r, c)
  {
    LowerEntriesInvert(n, w, f);
  }

  // ----- stage 5: the product of the two inverses

  /** Row j of the inverse of U times column k of the inverse of L, from the scratch copy of that column. */
  method ProductEntry(N: nat, A: array2<real>, j: nat, k: nat, q0: array<real>, ghost g: Mat) returns (t: real)
    requires Square(N, A) && q0.Length == N && k < N && j < N
    requires forall r, c :: 0 <= r < N && k < c < N ==> A[r, c] == g(r, c)
    requires forall i :: j <= i < N ==> q0[i] == g(i, k)
    ensures t == Dot(UpperStored(g), UnitLowerOf(g), j, k, 0, N)
  {
    ghost var u, l := UpperStored(g), UnitLowerOf(g);
    var i;
    if j > k {
      t, i := 0.0, j;
      DotZero(u, l, j, k, 0, j);
    } else {
      t, i := q0[j], k + 1;
      DotZero(u, l, j, k, 0, k);
    }
    while i < N
      invariant k < i <= N && j <= i
      invariant t == Dot(u, l, j, k, 0, i)
    {
      assert u(j, i) == A[j, i] && l(i, k) == q0[i];
      t := t + A[j, i] * q0[i];
      i := i + 1;
    }
  }

  ghost predicate ProductColumn(n: nat, g: Mat, k: int, q: seq<real>) {
    n == |q| && forall r :: 0 <= r < n ==> q[r] == Dot(UpperStored(g), UnitLowerOf(g), r, k, 0, n)
  }

  /** Replaces the scratch copy of column k by column k of the product. */
  method ProductScratch(N: nat, A: array2<real>, k: nat, q0: array<real>, ghost g: Mat)
    requires Square(N, A) && q0.Length == N && k < N
    requires ProductDone(N, k, View(A), g) && Loaded(View(A), k, 0, N, q0[..])
    modifies q0
    ensures ProductColumn(N, g, k, q0[..])
  {
    hide Dot;
    ghost var u, l := UpperStored(g), UnitLowerOf(g);
    ghost var q := q0[..];
    for j := 0 to N
      invariant forall r :: 0 <= r < j ==> q0[r] == Dot(u, l, r, k, 0, N)
      invariant forall r :: j <= r < N ==> q0[r] == g(r, k)
    {
      q0[j] := ProductEntry(N, A, j, k, q0, g);
    }
  }

  method MultiplyFactors(N: nat, A: array2<real>, q0: array<real>)
    requires Square(N, A) && q0.Length == N
    modifies A, q0
    ensures Same(N, View(A), Mul(N, UpperStored(old(View(A))), UnitLowerOf(old(View(A)))))
  {
    hide Loaded, Stored, ProductColumn, ProductDone, Same;
    ghost var g := View(A);
    ProductStart(N, g);
    var k := 0;
    while k < N - 1
      invariant 0 <= k && (k < N || N == 0)
      invariant ProductDone(N, k, View(A), g)
    {
      ghost var x := View(A);
      LoadColumn(N, A, k, 0, N, q0);
      ProductScratch(N, A, k, q0, g);
      StoreColumn(N, A, k, 0, N, q0);
      ProductColumnStep(N, k, x, View(A), g, q0[..]);
      k := k + 1;
    }
    LastColumnUnchanged(N, k, View(A), g);
  }

  lemma ProductStart(n: nat, g: Mat)
    ensures ProductDone(n, 0, g, g)
  {
  }

  lemma ProductColumnStep(n: nat, k: int, x: Mat, x': Mat, g: Mat, q: seq<real>)
    requires 0 <= k < n && ProductDone(n, k, x, g) && ProductColumn(n, g, k, q) && Stored(n, x, x', k, 0, n, q)
    ensures ProductDone(n, k + 1, x', g)
  {
  }

  /** Columns before k hold the product; the others are still g's. */
  ghost predicate ProductDone(n: nat, k: int, x: Mat, g: Mat) {
    forall r, c :: 0 <= r < n && 0 <= c < n ==>
      x(r, c) == if c < k then Dot(UpperStored(g), UnitLowerOf(g), r, c, 0, n) else g(r, c)
  }

  lemma LastColumnUnchanged(n: nat, k: int, x: Mat, g: Mat)
    requires ProductDone(n, k, x, g) && (k == n - 1 || n == 0)
    ensures Same(n, x, Mul(n, UpperStored(g), UnitLowerOf(g)))
  {
    var u, l := UpperStored(g), UnitLowerOf(g);
    forall r, c | 0 <= r < n && 0 <= c < n ensures x(r, c) == Mul(n, u, l)(r, c) {
      if c == n - 1 { DotSingle(u, l, r, c, 0, c, n); }
    }
  }

  // ----- stage 6: the row exchanges undone on the columns

  method ExchangeColumns(N: nat, A: array2<real>, x: nat, y: nat)
    requires Square(N, A) && x < N && y < N
    modifies A
    ensures Same(N, View(A), SwapColumns(old(View(A)), x, y))
  {
    ghost var f := View(A);
    for k := 0 to N
      invariant forall r, c :: 0 <= r < N && 0 <= c < N ==> A[r, c] == f(r, if r < k then Exchange(x, y, c) else c)
    {
      var t := A[k, x];
      A[k, x] := A[k, y];
      A[k, y] := t;
    }
  }

  lemma SameInverse(n: nat, x: Mat, y: Mat, b: Mat)
    requires Same(n, x, y) && IsInverse(n, y, b)
    ensures IsInverse(n, x, b)
  {
    forall i, j | 0 <= i < n && 0 <= j < n
      ensures Dot(x, b, i, j, 0, n) == (if i == j then 1.0 else 0.0)
      ensures Dot(b, x, i, j, 0, n) == if i == j then 1.0 else 0.0
    {
      DotCongruence(x, b, y, b, i, j, i, j, 0, n);
      DotCongruence(b, x, b, y, i, j, i, j, 0, n);
    }
  }

  lemma LastExchangeIsTrivial(n: nat, p: seq<int>, x: Mat, b: Mat)
    requires n > 0 && |p| == n && PivotList(n, p) && IsInverse(n, x, PermuteRows(p, b))
    ensures IsInverse(n, x, PermuteRows(p[..n - 1], b))
  {
    InverseExchange(n, x, PermuteRows(p[..n - 1], b), n - 1, n - 1);
    SameInverse(n, x, SwapColumns(x, n - 1, n - 1), PermuteRows(p[..n - 1], b));
  }

  method UndoPermutation(N: nat, A: array2<real>, le: array<int>, ghost b: Mat)
    requires Square(N, A) && le.Length == N && PivotList(N, le[..])
    requires IsInverse(N, View(A), PermuteRows(le[..], b))
    modifies A
    ensures IsInverse(N, View(A), b)
  {
    if N > 0 { LastExchangeIsTrivial(N, le[..], View(A), b); }
    var j := N - 2;
    ghost var p := le[..];
    while j >= 0
      invariant -2 <= j < N && le[..] == p
      invariant IsInverse(N, View(A), PermuteRows(p[..if j < 0 then 0 else j + 1], b))
    {
      ghost var x := View(A);
      assert p[..j + 1][..j] == p[..j];
      ExchangeColumns(N, A, j, le[j]);
      InverseExchange(N, x, PermuteRows(p[..j], b), j, p[j]);
      SameInverse(N, View(A), SwapColumns(x, j, p[j]), PermuteRows(p[..j], b));
      j := j - 1;
    }
  }

  // ----- the whole inversion

  /** U^-1 L^-1 is the inverse of L U. */
  lemma InvertedFactors(n: nat, v: Mat, w: Mat, u: Mat, l: Mat, x: Mat, b: Mat)
    requires LeftInverse(n, v, u) && UpperTriangular(n, v)
    requires LeftInverse(n, w, l) && LowerTriangular(n, w)
    requires Same(n, x, Mul(n, v, w)) && Same(n, b, Mul(n, l, u))
    ensures IsInverse(n, x, b)
  {
    TriangularTwoSided(n, v, u);
    TriangularTwoSided(n, w, l);
    ProductLeftInverse(n, w, l, v, u);
    ProductLeftInverse(n, u, v, l, w);
    forall i, j | 0 <= i < n && 0 <= j < n
      ensures Dot(x, b, i, j, 0, n) == (if i == j then 1.0 else 0.0)
      ensures Dot(b, x, i, j, 0, n) == if i == j then 1.0 else 0.0
    {
      DotCongruence(x, b, Mul(n, v, w), Mul(n, l, u), i, j, i, j, 0, n);
      DotCongruence(b, x, Mul(n, l, u), Mul(n, v, w), i, j, i, j, 0, n);
    }
  }

  /**
   Inverts A in place. If it reports Inverted the array holds the exact two-sided
   inverse of the input, and it does so exactly when no pivot of the textbook elimination
   is below 1e-15 times an earlier one; a singular input whose first column is not zero is
   always refused; and the only division by zero is by a first column of zeros.
   */
  method MatInvert(N: nat, A: array2<real>) returns (st: Status)
    requires Square(N, A)
    modifies A
    ensures st == Inverted ==> IsInverse(N, View(A), old(View(A)))
    ensures st == Inverted <==> !ZeroFirstColumn(N, old(View(A))) && PivotsPass(N, old(View(A)))
    ensures st == NotFinite <==> ZeroFirstColumn(N, old(View(A)))
    ensures st == Refused <==> !ZeroFirstColumn(N, old(View(A))) && !PivotsPass(N, old(View(A)))
    ensures SingularMatrix(N, old(View(A))) && !ZeroFirstColumn(N, old(View(A))) ==> st == Refused
  {
    hide FactoredTo, PivotsAccepted, PivotsPass, PivotRow, PivotSize, PermuteRows, ZeroFirstColumn, UpperTriangular, LowerTriangular, IsInverse, LeftInverse;
    ghost var b := View(A);
    var le, q0 := new int[N], new real[N];
    st := Eliminate(N, A, le, q0);
    if st != Inverted {
      return;
    }
    ghost var f, pb := View(A), PermuteRows(le[..], b);
    FactorsOf(N, f, pb);
    InvertUpper(N, A, q0);
    ghost var v := View(A);
    InvertLower(N, A, q0);
    ghost var w := View(A);
    MultiplyFactors(N, A, q0);
    FactorsAgree(N, f, v, w, pb, View(A));
    UndoPermutation(N, A, le, b);
    InverseMeansRegular(N, View(A), b);
  }

  lemma FactorsOf(n: nat, f: Mat, b: Mat)
    requires FactoredTo(n, n, f, b)
    ensures DiagonalNonzero(n, f)
    ensures Same(n, b, Mul(n, UnitLowerOf(f), UpperOf(f)))
  {
    forall i | 0 <= i < n ensures f(i, i) != 0.0 { assert ColumnFactored(n, f, b, i); }
    forall r, c | 0 <= r < n && 0 <= c < n ensures b(r, c) == Mul(n, UnitLowerOf(f), UpperOf(f))(r, c) {
      PackedIsProduct(n, f, b, r, c);
    }
  }

  /**
   f, v and w are the array after elimination, after stage 3 and after stage 4;
   x is their final product. Each stage leaves the other triangle alone.
   */
  lemma FactorsAgree(n: nat, f: Mat, v: Mat, w: Mat, b: Mat, x: Mat)
    requires LeftInverse(n, UpperStored(v), UpperOf(f)) && UpperTriangular(n, UpperStored(v))
    requires LeftInverse(n, UnitLowerOf(w), UnitLowerOf(v)) && LowerTriangular(n, UnitLowerOf(w))
    requires forall r, c :: 0 <= c < r < n ==> v(r, c) == f(r, c)
    requires forall r, c :: 0 <= r <= c < n ==> w(r, c) == v(r, c)
    requires Same(n, b, Mul(n, UnitLowerOf(f), UpperOf(f)))
    requires Same(n, x, Mul(n, UpperStored(w), UnitLowerOf(w)))
    ensures IsInverse(n, x, b)
  {
    var uv, lv, u, lw := UpperStored(v), UnitLowerOf(v), UpperOf(f), UnitLowerOf(w);
    forall r, c | 0 <= r < n && 0 <= c < n
      ensures x(r, c) == Mul(n, uv, lw)(r, c) && b(r, c) == Mul(n, lv, u)(r, c)
    {
      DotCongruence(UpperStored(w), lw, uv, lw, r, c, r, c, 0, n);
      DotCongruence(UnitLowerOf(f), u, lv, u, r, c, r, c, 0, n);
    }
    InvertedFactors(n, uv, lw, u, lv, x, b);
  }

  lemma InverseMeansRegular(n: nat, x: Mat, b: Mat)
    requires IsInverse(n, x, b)
    ensures !SingularMatrix(n, b)
  {
    InvertibleIsRegular(n, x, b);
  }

  /** diag(1, e): regular, and accepted exactly from e == 1e-15 on. */
  ghost function Lopsided(e: real): Mat {
    (i, j) => if i != j then 0.0 else if i == 0 then 1.0 else e
  }

  lemma RegularYetRefused(e: real)
    requires 0.0 < e < 1.0
    ensures !SingularMatrix(2, Lopsided(e))
    ensures PivotsPass(2, Lopsided(e)) <==> e >= 0.000000000000001
  {
    hide PivotSize;
    LopsidedIsRegular(e);
    LopsidedPivots(e);
  }

  lemma LopsidedIsRegular(e: real)
    requires e != 0.0
    ensures !SingularMatrix(2, Lopsided(e))
  {
    forall v: int -> real ensures !Kills(2, Lopsided(e), v) { LopsidedRows(e, v); }
  }

  lemma LopsidedRows(e: real, v: int -> real)
    ensures Dot(Lopsided(e), Column(v), 0, 0, 0, 2) == v(0) && Dot(Lopsided(e), Column(v), 1, 0, 0, 2) == e * v(1)
  {
    assert Dot(Lopsided(e), Column(v), 0, 0, 0, 1) == v(0) && Dot(Lopsided(e), Column(v), 1, 0, 0, 1) == 0.0;
  }

  lemma LopsidedPivots(e: real)
    requires 0.0 < e < 1.0
    ensures PivotSize(2, Lopsided(e), 0) == 1.0 && PivotSize(2, Lopsided(e), 1) == e
  {
    hide Complement;
    var b := Lopsided(e);
    ComplementStart(2, b);
    FirstLargestUnique(b, b, 0, 2, 0);
    ComplementStep(2, b, 0);
    var t, s := Pivoted(2, b, 0), Complement(2, b, 1);
    assert PivotRow(2, b, 0) == 0;
    assert t(0, 0) == 1.0 && t(1, 0) == 0.0 && t(0, 1) == 0.0 && t(1, 1) == e;
    assert s(1, 1) == t(1, 1) - Product(t(1, 0) / t(0, 0), t(0, 1));
    FirstLargestUnique(s, s, 1, 2, 1);
  }

  lemma ComplementStart(n: nat, b: Mat)
    ensures Complement(n, b, 0) == b
  {
  }
}
