/**
 The selection routine of src/AMath.h: quickselect with a median-of-three pivot
 whose two neighbours stop the unguarded inner scans.
 */
module Selection {

  /** Everything before c is at most everything from c on. */
  ghost predicate Split(s: seq<real>, c: int) {
    forall p, q :: 0 <= p < c <= q < |s| ==> s[p] <= s[q]
  }

  /** s[k] separates the sequence. */
  ghost predicate Selected(s: seq<real>, k: int) {
    && 0 <= k < |s|
    && (forall p :: 0 <= p < k ==> s[p] <= s[k])
    && (forall q :: k < q < |s| ==> s[k] <= s[q])
  }

  ghost predicate Sorted(s: seq<real>) {
    forall p, q :: 0 <= p < q < |s| ==> s[p] <= s[q]
  }

  lemma SplitBothSides(s: seq<real>, k: int)
    requires 0 <= k < |s| && Split(s, k) && Split(s, k + 1)
    ensures Selected(s, k)
  {
  }

  // ----- the k-th smallest value is unique

  lemma SubmultisetSize(a: multiset<real>, b: multiset<real>)
    requires a <= b
    ensures |a| <= |b|
  {
    assert a + (b - a) == b;
  }

  /** Values below t[k] occur in t as often as they occur before k. */
  lemma BelowSelected(t: seq<real>, k: int, e: real)
    requires Selected(t, k) && e < t[k]
    ensures multiset(t)[e] == multiset(t[..k])[e]
  {
    var u := t[k..];
    assert t == t[..k] + u;
    assert forall q :: 0 <= q < |u| ==> u[q] == t[k + q] >= t[k];
    assert e !in u;
  }

  /** Were s[k] below t[k], k + 1 values of s would have to fit into the k values before t[k]. */
  lemma SelectedNotBelow(s: seq<real>, t: seq<real>, k: int)
    requires multiset(s) == multiset(t) && Selected(s, k) && Selected(t, k)
    ensures s[k] >= t[k]
  {
    if s[k] < t[k] {
      var head := s[..k + 1];
      var low, before := multiset(head), multiset(t[..k]);
      assert s == head + s[k + 1..];
      forall e ensures low[e] <= before[e] {
        if e in head { BelowSelected(t, k, e); }
      }
      SubmultisetSize(low, before);
    }
  }

  lemma SelectedUnique(s: seq<real>, t: seq<real>, k: int)
    requires multiset(s) == multiset(t) && Selected(s, k) && Selected(t, k)
    ensures s[k] == t[k]
  {
    SelectedNotBelow(s, t, k);
    SelectedNotBelow(t, s, k);
  }

  /** A selected value is the one sorting would put at k. */
  lemma SelectedIsKthSmallest(s: seq<real>, k: int, sorted: seq<real>)
    requires Selected(s, k) && multiset(sorted) == multiset(s) && Sorted(sorted)
    ensures |sorted| == |s| && sorted[k] == s[k]
  {
    assert |multiset(sorted)| == |multiset(s)|;
    SelectedUnique(s, sorted, k);
  }

  // ----- exchanges inside a segment

  function Exchanged(s: seq<real>, i: int, j: int): (t: seq<real>)
    requires 0 <= i < |s| && 0 <= j < |s|
    ensures |t| == |s|
  {
    s[i := s[j]][j := s[i]]
  }

  lemma ExchangedPermutes(s: seq<real>, i: int, j: int)
    requires 0 <= i < |s| && 0 <= j < |s|
    ensures multiset(Exchanged(s, i, j)) == multiset(s)
  {
  }

  lemma ExchangedKeepsSplit(s: seq<real>, i: int, j: int, c: int)
    requires 0 <= i < |s| && 0 <= j < |s| && Split(s, c) && (i < c <==> j < c)
    ensures Split(Exchanged(s, i, j), c)
  {
  }

  /** t is s with the segment l, ..., ir permuted; both ends of the segment still split it from the rest. */
  ghost predicate Rearranged(s: seq<real>, t: seq<real>, l: int, ir: int) {
    |t| == |s| && multiset(t) == multiset(s) && Split(t, l) && Split(t, ir + 1)
  }

  method Swap(a: array<real>, i: int, j: int, ghost s: seq<real>, ghost l: int, ghost ir: int)
    requires 0 <= l <= i <= ir < a.Length && l <= j <= ir && Rearranged(s, a[..], l, ir)
    modifies a
    ensures a[..] == Exchanged(old(a[..]), i, j) && Rearranged(s, a[..], l, ir)
  {
    ExchangedPermutes(a[..], i, j);
    ExchangedKeepsSplit(a[..], i, j, l);
    ExchangedKeepsSplit(a[..], i, j, ir + 1);
    ghost var before := a[..];
    var t := a[i];
    a[i] := a[j];
    a[j] := t;
    assert a[..] == Exchanged(before, i, j);
  }

  // ----- partition

  /** Middle element to l + 1, then the three ends ordered: both scans now meet a stop. */
  method MedianOfThree(a: array<real>, l: int, ir: int, ghost s: seq<real>)
    requires 0 <= l && l + 2 <= ir < a.Length && Rearranged(s, a[..], l, ir)
    modifies a
    ensures Rearranged(s, a[..], l, ir)
    ensures a[l] <= a[l + 1] <= a[ir]
  {
    var mid := (l + ir) / 2;
    Swap(a, mid, l + 1, s, l, ir);
    if a[l] > a[ir] { Swap(a, l, ir, s, l, ir); }
    if a[l + 1] > a[ir] { Swap(a, l + 1, ir, s, l, ir); }
    if a[l] > a[l + 1] { Swap(a, l, l + 1, s, l, ir); }
  }

  /** Everything in l, ..., i is at most v and everything in j, ..., ir at least v. */
  ghost predicate Sides(s: seq<real>, l: int, i: int, j: int, ir: int, v: real) {
    && 0 <= l <= i < |s| && 0 <= j <= ir < |s|
    && (forall p :: l <= p <= i ==> s[p] <= v)
    && (forall q :: j <= q <= ir ==> v <= s[q])
  }

  /** The two inner scans; no index test is needed, because a[j] stops the first and a[i] the second. */
  method Scan(a: array<real>, l: int, ir: int, i0: int, j0: int, v: real) returns (i: int, j: int)
    requires l < i0 < j0 <= ir && Sides(a[..], l, i0, j0, ir, v)
    ensures i0 < i <= j0 && i0 <= j < j0 && i <= j + 1
    ensures a[i] >= v && a[j] <= v
    ensures forall p :: l <= p < i ==> a[p] <= v
    ensures forall q :: j < q <= ir ==> v <= a[q]
  {
    assert a[..][j0] == a[j0] && a[..][i0] == a[i0];
    assert forall p :: l <= p <= i0 ==> a[p] == a[..][p] <= v;
    assert forall q :: j0 <= q <= ir ==> a[q] == a[..][q] >= v;
    i := i0 + 1;
    while a[i] < v
      invariant i0 < i <= j0
      invariant forall p :: l <= p < i ==> a[p] <= v
      decreases j0 - i
    {
      i := i + 1;
    }
    j := j0 - 1;
    while a[j] > v
      invariant i0 <= j < j0 && i <= j + 1
      invariant forall q :: j < q <= ir ==> v <= a[q]
      decreases j - i0
    {
      j := j - 1;
    }
  }

  /** The partition of l, ..., ir around the pivot at l + 1. */
  method Partition(a: array<real>, l: int, ir: int, ghost s: seq<real>) returns (i: int, j: int)
    requires 0 <= l && l + 2 <= ir < a.Length && Rearranged(s, a[..], l, ir)
    requires a[l] <= a[l + 1] <= a[ir]
    modifies a
    ensures Rearranged(s, a[..], l, ir)
    ensures l < j < ir && l + 1 < i && j <= i <= j + 1
    ensures Split(a[..], j) && Split(a[..], j + 1)
  {
    i, j := l + 1, ir;
    var v := a[l + 1];
    while true
      invariant l < i < j <= ir && a[l + 1] == v
      invariant Rearranged(s, a[..], l, ir) && Sides(a[..], l, i, j, ir, v)
      decreases j - i
    {
      i, j := Scan(a, l, ir, i, j, v);
      if j <= i { break; }
      Swap(a, i, j, s, l, ir);
    }
    ghost var t := a[..];
    Swap(a, l + 1, j, s, l, ir);
    PivotSplits(t, a[..], l, ir, i, j, v);
  }

  lemma PivotSplits(t: seq<real>, u: seq<real>, l: int, ir: int, i: int, j: int, v: real)
    requires 0 <= l < j <= ir < |t| && j <= i <= j + 1 && u == Exchanged(t, l + 1, j)
    requires t[l + 1] == v && t[j] <= v
    requires forall p :: l <= p < i ==> t[p] <= v
    requires forall q :: j < q <= ir ==> v <= t[q]
    requires Split(u, l) && Split(u, ir + 1)
    ensures Split(u, j) && Split(u, j + 1)
  {
  }

  // ----- the selection loop

  /** Either k still lies in l, ..., ir and the rest is settled, or it has been selected. */
  ghost predicate Narrowed(s: seq<real>, t: seq<real>, l: int, ir: int, k: int) {
    && |t| == |s| && multiset(t) == multiset(s) && 0 <= k < |s|
    && ((0 <= l <= k <= ir < |s| && Split(t, l) && Split(t, ir + 1)) || (ir < l && Selected(t, k)))
  }

  /**
   The k-th smallest of the array, counting from 0, or -1 for an index out of range. The
   array is rearranged so that nothing before k exceeds a[k] and nothing after k is below it.
   */
  method KSelect(a: array<real>, k: int) returns (r: real)
    modifies a
    ensures k < 0 || k >= a.Length ==> r == -1.0 && a[..] == old(a[..])
    ensures 0 <= k < a.Length ==> r == a[k] && Selected(a[..], k) && multiset(a[..]) == multiset(old(a[..]))
    ensures 0 <= k < a.Length ==> forall sorted: seq<real> ::
              multiset(sorted) == multiset(old(a[..])) && Sorted(sorted) ==> |sorted| == a.Length && sorted[k] == r
  {
    if k < 0 || k >= a.Length { return -1.0; }
    hide Split, Selected;
    ghost var s := a[..];
    EndsSplit(s);
    var l, ir, bwhile := 0, a.Length - 1, true;
    while bwhile
      invariant Narrowed(s, a[..], l, ir, k)
      invariant !bwhile ==> Selected(a[..], k)
      decreases bwhile, ir - l + 1
    {
      if ir - l <= 1 {
        if ir - l == 1 && a[ir] < a[l] {
          Swap(a, l, ir, s, l, ir);
        }
        ShortSegment(s, a[..], l, ir, k);
        bwhile := false;
      } else {
        MedianOfThree(a, l, ir, s);
        var i, j := Partition(a, l, ir, s);
        Narrow(s, a[..], l, ir, i, j, k);
        if j >= k { ir := j - 1; }
        if j <= k { l := i; }
      }
    }
    r := a[k];
    forall sorted: seq<real> | multiset(sorted) == multiset(s) && Sorted(sorted) ensures |sorted| == a.Length && sorted[k] == r {
      SelectedIsKthSmallest(a[..], k, sorted);
    }
  }

  lemma EndsSplit(s: seq<real>)
    ensures Split(s, 0) && Split(s, |s|)
  {
  }

  /** A segment of one or two ordered elements is settled. */
  lemma ShortSegment(s: seq<real>, t: seq<real>, l: int, ir: int, k: int)
    requires Narrowed(s, t, l, ir, k) && ir - l <= 1
    requires ir - l == 1 ==> t[l] <= t[ir]
    ensures Selected(t, k)
  {
  }

  lemma Narrow(s: seq<real>, t: seq<real>, l: int, ir: int, i: int, j: int, k: int)
    requires 0 <= l <= k <= ir < |s| && Rearranged(s, t, l, ir)
    requires l < j < ir && l + 1 < i && j <= i <= j + 1 && Split(t, j) && Split(t, j + 1)
    ensures Narrowed(s, t, if j <= k then i else l, if j >= k then j - 1 else ir, k)
  {
    if j == k { SplitBothSides(t, k); }
  }
}
