/** Sorting arrays of pointers in place, and searching sorted tuples. */
module Sorts {
  import opened Words

  // ---- comparison functions ----

  /** A comparison function in the C manner: negative, zero or positive. */
  type Cmp<!T> = (T, T) -> int

  ghost predicate TotalPreorder<T(!new)>(cmp: Cmp<T>) {
    && (forall x, y :: cmp(x, y) < 0 <==> cmp(y, x) > 0)
    && (forall x, y, z :: cmp(x, y) <= 0 && cmp(y, z) <= 0 ==> cmp(x, z) <= 0)
  }

  lemma Equivalent<T(!new)>(cmp: Cmp<T>, x: T, y: T, z: T)
    requires TotalPreorder(cmp)
    ensures cmp(x, x) == 0
    ensures cmp(x, y) == 0 <==> cmp(y, x) == 0
    ensures cmp(x, y) == 0 && cmp(y, z) == 0 ==> cmp(x, z) == 0
    ensures cmp(x, y) < 0 && cmp(y, z) <= 0 ==> cmp(x, z) < 0
    ensures cmp(x, y) <= 0 && cmp(y, z) < 0 ==> cmp(x, z) < 0
  {
    assert cmp(x, y) < 0 <==> cmp(y, x) > 0;
    assert cmp(z, x) < 0 <==> cmp(x, z) > 0;
    assert cmp(z, y) < 0 <==> cmp(y, z) > 0;
    assert cmp(x, z) < 0 <==> cmp(z, x) > 0;
  }

  // ---- segments ----

  ghost predicate Sorted<T>(cmp: Cmp<T>, s: seq<T>) {
    forall i, j :: 0 <= i < j < |s| ==> cmp(s[i], s[j]) <= 0
  }

  /** `t` is `s` with the elements of positions `lo..hi` rearranged. */
  ghost predicate Rearranged<T>(s: seq<T>, t: seq<T>, lo: nat, hi: nat) {
    && |s| == |t| && lo <= hi <= |s| && s[..lo] == t[..lo] && s[hi..] == t[hi..]
    && multiset(s[lo..hi]) == multiset(t[lo..hi])
  }

  function Exchanged<T>(s: seq<T>, i: nat, j: nat): seq<T>
    requires i < |s| && j < |s|
  {
    s[i := s[j]][j := s[i]]
  }

  lemma RearrangedSwap<T>(s: seq<T>, lo: nat, hi: nat, i: nat, j: nat)
    requires lo <= i < hi <= |s| && lo <= j < hi
    ensures Rearranged(s, Exchanged(s, i, j), lo, hi)
  {
    var t := Exchanged(s, i, j);
    assert t[lo..hi] == s[lo..hi][i - lo := s[j]][j - lo := s[i]];
  }

  lemma RearrangedTrans<T>(s: seq<T>, t: seq<T>, u: seq<T>, lo: nat, hi: nat)
    requires Rearranged(s, t, lo, hi) && Rearranged(t, u, lo, hi)
    ensures Rearranged(s, u, lo, hi)
  {}

  lemma RearrangedWiden<T>(s: seq<T>, t: seq<T>, lo: nat, hi: nat, lo': nat, hi': nat)
    requires Rearranged(s, t, lo', hi') && lo <= lo' && hi' <= hi <= |s|
    ensures Rearranged(s, t, lo, hi)
  {
    assert s[..lo] == s[..lo'][..lo] && t[..lo] == t[..lo'][..lo];
    assert s[hi..] == s[hi'..][hi - hi'..] && t[hi..] == t[hi'..][hi - hi'..];
    assert s[lo..hi] == s[..lo'][lo..] + s[lo'..hi'] + s[hi'..][..hi - hi'];
    assert t[lo..hi] == t[..lo'][lo..] + t[lo'..hi'] + t[hi'..][..hi - hi'];
  }

  /** Every element after a rearrangement was there before. */
  lemma Origin<T>(s: seq<T>, t: seq<T>, lo: nat, hi: nat, k: nat) returns (o: nat)
    requires Rearranged(s, t, lo, hi) && k < |t|
    ensures o < |s| && s[o] == t[k] && if lo <= k < hi then lo <= o < hi else o == k
  {
    if lo <= k < hi {
      assert t[lo..hi][k - lo] == t[k];
      assert t[k] in multiset(s[lo..hi]);
      o :| 0 <= o < hi - lo && s[lo..hi][o] == t[k];
      o := lo + o;
    } else if k < lo {
      o := k;
      assert s[..lo][k] == t[..lo][k];
    } else {
      o := k;
      assert s[hi..][k - hi] == t[hi..][k - hi];
    }
  }

  /** Within `lo..hi` only pairs inside `b..e` may still be out of order. */
  ghost predicate SortedAround<T>(cmp: Cmp<T>, s: seq<T>, lo: nat, hi: nat, b: nat, e: nat) {
    && lo <= b <= e <= hi <= |s|
    && forall i, j :: lo <= i < j < hi && !(b <= i && j < e) ==> cmp(s[i], s[j]) <= 0
  }

  /** Rearranging the part that may be out of order leaves the rest in order. */
  lemma AroundKept<T>(cmp: Cmp<T>, s: seq<T>, t: seq<T>, lo: nat, hi: nat, b: nat, e: nat)
    requires SortedAround(cmp, s, lo, hi, b, e) && Rearranged(s, t, b, e)
    ensures SortedAround(cmp, t, lo, hi, b, e)
  {
    forall i, j | lo <= i < j < hi && !(b <= i && j < e)
      ensures cmp(t[i], t[j]) <= 0
    {
      var i' := Origin(s, t, b, e, i);
      var j' := Origin(s, t, b, e, j);
    }
  }

  // ---- quicksort ----

  /** `m` splits `lo..hi`: nothing before it is greater, nothing after it is smaller. */
  ghost predicate Split<T>(cmp: Cmp<T>, s: seq<T>, lo: nat, hi: nat, m: nat) {
    && lo <= m < hi <= |s|
    && (forall k :: lo <= k < m ==> cmp(s[k], s[m]) <= 0)
    && (forall k :: m < k < hi ==> cmp(s[m], s[k]) <= 0)
  }

  /** The scans have passed `i` from below and `j` from above; the pivot waits in front. */
  ghost predicate Scanned<T>(cmp: Cmp<T>, s: seq<T>, lo: nat, n: nat, i: nat, j: nat) {
    && lo + n <= |s| && n > 0 && i < n && j <= n
    && (forall k :: lo < k <= lo + i ==> cmp(s[k], s[lo]) <= 0)
    && (forall k :: lo + j <= k < lo + n ==> cmp(s[lo], s[k]) <= 0)
  }

  method ScanDown<T(!new)>(a: array<T>, lo: nat, n: nat, i: nat, j0: nat, cmp: Cmp<T>) returns (j: nat)
    requires TotalPreorder(cmp) && lo + n <= a.Length && i < j0 && Scanned(cmp, a[..], lo, n, i, j0)
    ensures i <= j < j0 && Scanned(cmp, a[..], lo, n, i, j + 1)
    ensures j == 0 || cmp(a[..][lo + j], a[..][lo]) <= 0
  {
    hide TotalPreorder;
    j := j0 - 1;
    while j > 0 && cmp(a[lo + j], a[lo]) > 0
      invariant i <= j < j0 && Scanned(cmp, a[..], lo, n, i, j + 1)
    {
      Flip(cmp, a[lo], a[lo + j]);
      j := j - 1;
    }
  }

  method ScanUp<T(!new)>(a: array<T>, lo: nat, n: nat, i0: nat, j: nat, cmp: Cmp<T>) returns (i: nat)
    requires TotalPreorder(cmp) && lo + n <= a.Length && i0 <= j < n && Scanned(cmp, a[..], lo, n, i0, j + 1)
    ensures i0 < i && (i <= j || i == i0 + 1) && Scanned(cmp, a[..], lo, n, i - 1, j + 1)
    ensures i < j ==> cmp(a[..][lo], a[..][lo + i]) <= 0
  {
    hide TotalPreorder;
    i := i0 + 1;
    while i < j && cmp(a[lo + i], a[lo]) < 0
      invariant i0 < i && (i <= j || i == i0 + 1) && Scanned(cmp, a[..], lo, n, i - 1, j + 1)
    {
      i := i + 1;
    }
    Flip(cmp, a[lo], if i < j then a[lo + i] else a[lo]);
  }

  lemma Flip<T(!new)>(cmp: Cmp<T>, x: T, y: T)
    requires TotalPreorder(cmp)
    ensures cmp(y, x) >= 0 ==> cmp(x, y) <= 0
    ensures cmp(y, x) > 0 ==> cmp(x, y) < 0
  {}

  lemma SwapScanned<T(!new)>(cmp: Cmp<T>, s: seq<T>, lo: nat, n: nat, i: nat, j: nat)
    requires 0 < i < j < n && Scanned(cmp, s, lo, n, i - 1, j + 1)
    requires cmp(s[lo + j], s[lo]) <= 0 && cmp(s[lo], s[lo + i]) <= 0
    ensures Scanned(cmp, Exchanged(s, lo + i, lo + j), lo, n, i, j)
  {}

  lemma SwapPivot<T(!new)>(cmp: Cmp<T>, s: seq<T>, lo: nat, n: nat, i: nat, j: nat)
    requires TotalPreorder(cmp) && i > 0 && j <= i && j < n && Scanned(cmp, s, lo, n, i - 1, j + 1)
    requires j == 0 || cmp(s[lo + j], s[lo]) <= 0
    ensures Split(cmp, Exchanged(s, lo + j, lo), lo, lo + n, lo + j)
  {
    Equivalent(cmp, s[lo], s[lo], s[lo]);
    var t := Exchanged(s, lo + j, lo);
    assert t[lo + j] == s[lo];
  }

  /** The partition loop: a pivot is moved to the front, both scans close in on each other, and the pivot
      is put where they meet. */
  method Partition<T(!new)>(a: array<T>, lo: nat, n: nat, cmp: Cmp<T>) returns (j: nat)
    requires 1 < n && lo + n <= a.Length && TotalPreorder(cmp)
    modifies a
    ensures j < n && Split(cmp, a[..], lo, lo + n, lo + j)
    ensures Rearranged(old(a[..]), a[..], lo, lo + n)
  {
    hide *;
    ghost var s := a[..];
    RearrangedSelf(s, lo, lo + n);
    SwapInside(a, lo, n, lo, lo + n / 2, s);
    var i: nat := 0;
    j := n;
    ScanStart(cmp, a[..], lo, n);
    while true
      invariant i < j <= n && Scanned(cmp, a[..], lo, n, i, j) && Rearranged(s, a[..], lo, lo + n)
      decreases j - i
    {
      j := ScanDown(a, lo, n, i, j, cmp);
      i := ScanUp(a, lo, n, i, j, cmp);
      if i >= j { break; }
      SwapScanned(cmp, a[..], lo, n, i, j);
      SwapInside(a, lo, n, lo + i, lo + j, s);
    }
    SwapPivot(cmp, a[..], lo, n, i, j);
    SwapInside(a, lo, n, lo + j, lo, s);
  }

  lemma RearrangedSelf<T>(s: seq<T>, lo: nat, hi: nat)
    requires lo <= hi <= |s|
    ensures Rearranged(s, s, lo, hi)
  {}

  lemma ScanStart<T>(cmp: Cmp<T>, s: seq<T>, lo: nat, n: nat)
    requires lo + n <= |s| && n > 0
    ensures Scanned(cmp, s, lo, n, 0, n)
  {}

  /** `SWAP_void`. */
  method SwapInside<T>(a: array<T>, lo: nat, n: nat, i: nat, j: nat, ghost s: seq<T>)
    requires lo <= i < lo + n <= a.Length && lo <= j < lo + n && Rearranged(s, a[..], lo, lo + n)
    modifies a
    ensures a[..] == Exchanged(old(a[..]), i, j)
    ensures Rearranged(s, a[..], lo, lo + n)
  {
    hide Rearranged;
    ghost var t := a[..];
    RearrangedSwap(t, lo, lo + n, i, j);
    var tmp := a[i];
    a[i] := a[j];
    a[j] := tmp;
    assert a[..] == Exchanged(t, i, j);
    RearrangedTrans(s, t, a[..], lo, lo + n);
  }

  /** After a split at `m` only pairs on one side of it may be out of order. */
  ghost predicate SortedAcross<T>(cmp: Cmp<T>, s: seq<T>, lo: nat, hi: nat, b: nat, m: nat, e: nat) {
    && lo <= b <= m < e <= hi <= |s|
    && forall i, j :: lo <= i < j < hi && !(b <= i && j < m) && !(m < i && j < e) ==> cmp(s[i], s[j]) <= 0
  }

  lemma SplitAcross<T(!new)>(cmp: Cmp<T>, s: seq<T>, lo: nat, hi: nat, b: nat, m: nat, e: nat)
    requires TotalPreorder(cmp) && SortedAround(cmp, s, lo, hi, b, e) && Split(cmp, s, b, e, m)
    ensures SortedAcross(cmp, s, lo, hi, b, m, e)
  {
    forall i, j | lo <= i < j < hi && !(b <= i && j < m) && !(m < i && j < e)
      ensures cmp(s[i], s[j]) <= 0
    {
      if b <= i && j < e {
        assert cmp(s[i], s[m]) <= 0 || i == m;
        assert cmp(s[m], s[j]) <= 0 || j == m;
      }
    }
  }

  /** Sorting one side of a split leaves only the other side open. */
  lemma LeftDone<T(!new)>(cmp: Cmp<T>, s: seq<T>, t: seq<T>, lo: nat, hi: nat, b: nat, m: nat, e: nat)
    requires SortedAcross(cmp, s, lo, hi, b, m, e) && Rearranged(s, t, b, m) && Sorted(cmp, t[b..m])
    ensures SortedAround(cmp, t, lo, hi, m + 1, e)
  {
    forall i, j | lo <= i < j < hi && !(m + 1 <= i && j < e)
      ensures cmp(t[i], t[j]) <= 0
    {
      if b <= i && j < m {
        assert t[i] == t[b..m][i - b] && t[j] == t[b..m][j - b];
      } else {
        var i' := Origin(s, t, b, m, i);
        var j' := Origin(s, t, b, m, j);
        assert cmp(s[i'], s[j']) <= 0;
      }
    }
  }

  lemma RightDone<T(!new)>(cmp: Cmp<T>, s: seq<T>, t: seq<T>, lo: nat, hi: nat, b: nat, m: nat, e: nat)
    requires SortedAcross(cmp, s, lo, hi, b, m, e) && Rearranged(s, t, m + 1, e) && Sorted(cmp, t[m + 1..e])
    ensures SortedAround(cmp, t, lo, hi, b, m)
  {
    forall i, j | lo <= i < j < hi && !(b <= i && j < m)
      ensures cmp(t[i], t[j]) <= 0
    {
      if m < i && j < e {
        assert t[i] == t[m + 1..e][i - m - 1] && t[j] == t[m + 1..e][j - m - 1];
      } else {
        var i' := Origin(s, t, m + 1, e, i);
        var j' := Origin(s, t, m + 1, e, j);
        assert cmp(s[i'], s[j']) <= 0;
      }
    }
  }

  /** The loop of quicksort started from `s`; only `b..e` may still be out of order. */
  ghost predicate Progress<T>(cmp: Cmp<T>, s: seq<T>, t: seq<T>, lo: nat, hi: nat, b: nat, e: nat) {
    SortedAround(cmp, t, lo, hi, b, e) && Rearranged(s, t, lo, hi)
  }

  /** The same after a split at `m`. */
  ghost predicate Halfway<T>(cmp: Cmp<T>, s: seq<T>, t: seq<T>, lo: nat, hi: nat, b: nat, m: nat, e: nat) {
    SortedAcross(cmp, t, lo, hi, b, m, e) && Rearranged(s, t, lo, hi)
  }

  lemma QsortStart<T>(cmp: Cmp<T>, s: seq<T>, lo: nat, hi: nat)
    requires lo <= hi <= |s|
    ensures Progress(cmp, s, s, lo, hi, lo, hi) && Pow2(0) == 1
  {}

  lemma AfterPartition<T(!new)>(cmp: Cmp<T>, s: seq<T>, t: seq<T>, u: seq<T>, lo: nat, hi: nat, b: nat, m: nat, e: nat)
    requires TotalPreorder(cmp) && Progress(cmp, s, t, lo, hi, b, e) && Rearranged(t, u, b, e) && Split(cmp, u, b, e, m)
    ensures Halfway(cmp, s, u, lo, hi, b, m, e)
  {
    AroundKept(cmp, t, u, lo, hi, b, e);
    SplitAcross(cmp, u, lo, hi, b, m, e);
    RearrangedWiden(t, u, lo, hi, b, e);
    RearrangedTrans(s, t, u, lo, hi);
  }

  lemma AfterLeft<T(!new)>(cmp: Cmp<T>, s: seq<T>, t: seq<T>, u: seq<T>, lo: nat, hi: nat, b: nat, m: nat, e: nat)
    requires Halfway(cmp, s, t, lo, hi, b, m, e) && Rearranged(t, u, b, m) && Sorted(cmp, u[b..m])
    ensures Progress(cmp, s, u, lo, hi, m + 1, e)
  {
    LeftDone(cmp, t, u, lo, hi, b, m, e);
    RearrangedWiden(t, u, lo, hi, b, m);
    RearrangedTrans(s, t, u, lo, hi);
  }

  lemma AfterRight<T(!new)>(cmp: Cmp<T>, s: seq<T>, t: seq<T>, u: seq<T>, lo: nat, hi: nat, b: nat, m: nat, e: nat)
    requires Halfway(cmp, s, t, lo, hi, b, m, e) && Rearranged(t, u, m + 1, e) && Sorted(cmp, u[m + 1..e])
    ensures Progress(cmp, s, u, lo, hi, b, m)
  {
    RightDone(cmp, t, u, lo, hi, b, m, e);
    RearrangedWiden(t, u, lo, hi, m + 1, e);
    RearrangedTrans(s, t, u, lo, hi);
  }

  lemma QsortEnd<T>(cmp: Cmp<T>, s: seq<T>, t: seq<T>, lo: nat, hi: nat, b: nat, e: nat)
    requires Progress(cmp, s, t, lo, hi, b, e) && e <= b + 1
    ensures Sorted(cmp, t[lo..hi]) && Rearranged(s, t, lo, hi)
  {}

  /** A call for at most half of what is left is one level deeper. */
  lemma Deeper(d: nat, small: nat, n: nat)
    requires Pow2(d) <= small + 1 && 2 * small + 1 <= n
    ensures Pow2(d + 1) <= n + 1
  {}

  /** `trurl_qsort_voidp_arr`. Sorts `n` elements from `lo` in place, for every comparison function that is
      a total preorder. It calls itself only for the smaller side, so calls nest no deeper than the binary
      logarithm of `n + 1`. */
  method Qsort<T(!new)>(a: array<T>, lo: nat, n: nat, cmp: Cmp<T>) returns (ghost depth: nat)
    requires lo + n <= a.Length && TotalPreorder(cmp)
    modifies a
    ensures Sorted(cmp, a[..][lo..lo + n])
    ensures Rearranged(old(a[..]), a[..], lo, lo + n)
    ensures Pow2(depth) <= n + 1
    decreases n
  {
    hide *;
    ghost var s, hi := a[..], lo + n;
    var b: nat, size: nat := lo, n;
    depth := 0;
    QsortStart(cmp, s, lo, hi);
    while size > 1
      invariant lo <= b && b + size <= hi && size <= n
      invariant Progress(cmp, s, a[..], lo, hi, b, b + size)
      invariant Pow2(depth) <= n + 1
      decreases size
    {
      ghost var t := a[..];
      var j := Partition(a, b, size, cmp);
      ghost var u := a[..];
      AfterPartition(cmp, s, t, u, lo, hi, b, b + j, b + size);
      var ln, rn := j, size - (j + 1);
      ghost var d;
      if ln < rn {
        d := Qsort(a, b, ln, cmp);
        AfterLeft(cmp, s, u, a[..], lo, hi, b, b + j, b + size);
        Deeper(d, ln, n);
        b := b + (j + 1);
        size := rn;
      } else {
        d := Qsort(a, b + (j + 1), rn, cmp);
        AfterRight(cmp, s, u, a[..], lo, hi, b, b + j, b + size);
        Deeper(d, rn, n);
        size := ln;
      }
      depth := if d + 1 > depth then d + 1 else depth;
    }
    QsortEnd(cmp, s, a[..], lo, hi, b, b + size);
  }

  // ---- insertion sort ----

  /** The elements of `s` that compare equal to `x`, in order. */
  function Alike<T>(cmp: Cmp<T>, s: seq<T>, x: T): seq<T> {
    if s == [] then [] else (if cmp(s[0], x) == 0 then [s[0]] else []) + Alike(cmp, s[1..], x)
  }

  lemma {:induction false} AlikeConcat<T>(cmp: Cmp<T>, s: seq<T>, t: seq<T>, x: T)
    ensures Alike(cmp, s + t, x) == Alike(cmp, s, x) + Alike(cmp, t, x)
  {
    if s == [] {
      assert s + t == t;
    } else {
      AlikeConcat(cmp, s[1..], t, x);
      assert (s + t)[1..] == s[1..] + t;
    }
  }

  /** They are the elements at all positions where one compares equal, in the order of the positions. */
  lemma {:induction false} AlikeAt<T>(cmp: Cmp<T>, s: seq<T>, x: T) returns (at: seq<nat>)
    ensures |at| == |Alike(cmp, s, x)|
    ensures forall k :: 0 <= k < |at| ==> at[k] < |s| && Alike(cmp, s, x)[k] == s[at[k]]
    ensures forall j, k :: 0 <= j < k < |at| ==> at[j] < at[k]
    ensures forall i {:trigger s[i]} :: 0 <= i < |s| ==> (cmp(s[i], x) == 0 <==> i in at)
    decreases |s|
  {
    at := [];
    if s != [] {
      var n := |s| - 1;
      at := AlikeAt(cmp, s[..n], x);
      AlikeConcat(cmp, s[..n], [s[n]], x);
      AlikeOne(cmp, s[n], x);
      assert s == s[..n] + [s[n]];
      assert forall i :: 0 <= i < n ==> s[i] == s[..n][i];
      if cmp(s[n], x) == 0 { at := at + [n]; }
    }
  }

  lemma AlikeOne<T>(cmp: Cmp<T>, y: T, x: T)
    ensures Alike(cmp, [y], x) == if cmp(y, x) == 0 then [y] else []
  {}

  /** The same elements, and elements that compare equal in the same order. */
  ghost predicate SameOrder<T(!new)>(cmp: Cmp<T>, s: seq<T>, t: seq<T>) {
    multiset(s) == multiset(t) && forall x :: Alike(cmp, s, x) == Alike(cmp, t, x)
  }

  /** Exchanging two neighbours that differ keeps both. */
  lemma ExchangeNeighbours<T(!new)>(cmp: Cmp<T>, s: seq<T>, j: nat)
    requires TotalPreorder(cmp) && 0 < j < |s| && cmp(s[j], s[j - 1]) < 0
    ensures SameOrder(cmp, s, Exchanged(s, j - 1, j))
  {
    var t := Exchanged(s, j - 1, j);
    var p, q := s[..j - 1], s[j + 1..];
    assert s == p + ([s[j - 1]] + ([s[j]] + q));
    assert t == p + ([s[j]] + ([s[j - 1]] + q));
    forall x
      ensures Alike(cmp, s, x) == Alike(cmp, t, x)
    {
      NeighboursAlike(cmp, p, s[j - 1], s[j], q, x);
    }
  }

  lemma NeighboursAlike<T(!new)>(cmp: Cmp<T>, p: seq<T>, u: T, v: T, q: seq<T>, x: T)
    requires TotalPreorder(cmp) && cmp(v, u) < 0
    ensures Alike(cmp, p + ([u] + ([v] + q)), x) == Alike(cmp, p + ([v] + ([u] + q)), x)
  {
    AlikeConcat(cmp, p, [u] + ([v] + q), x);
    AlikeConcat(cmp, [u], [v] + q, x);
    AlikeConcat(cmp, [v], q, x);
    AlikeConcat(cmp, p, [v] + ([u] + q), x);
    AlikeConcat(cmp, [v], [u] + q, x);
    AlikeConcat(cmp, [u], q, x);
    hide TotalPreorder;
    NotBoth(cmp, u, v, x);
  }

  lemma NotBoth<T(!new)>(cmp: Cmp<T>, u: T, v: T, x: T)
    requires TotalPreorder(cmp) && cmp(v, u) < 0
    ensures Alike(cmp, [u], x) == [] || Alike(cmp, [v], x) == []
  {
    Equivalent(cmp, v, x, u);
    Equivalent(cmp, x, u, x);
  }

  /** `v[..i + 1]` is in order but for the element at `j`, which is less than all after it. */
  ghost predicate Inserting<T>(cmp: Cmp<T>, v: seq<T>, i: nat, j: nat) {
    && j <= i < |v|
    && (forall p, q :: 0 <= p < q <= i && p != j && q != j ==> cmp(v[p], v[q]) <= 0)
    && (forall q :: j < q <= i ==> cmp(v[j], v[q]) < 0)
  }

  lemma InsertShift<T(!new)>(cmp: Cmp<T>, s: seq<T>, v: seq<T>, i: nat, j: nat)
    requires TotalPreorder(cmp) && Inserting(cmp, v, i, j) && SameOrder(cmp, s, v)
    requires 0 < j && cmp(v[j], v[j - 1]) < 0
    ensures Inserting(cmp, Exchanged(v, j - 1, j), i, j - 1) && SameOrder(cmp, s, Exchanged(v, j - 1, j))
    ensures |Exchanged(v, j - 1, j)| == |v| && Exchanged(v, j - 1, j)[i + 1..] == v[i + 1..]
  {
    ExchangeNeighbours(cmp, v, j);
  }

  lemma InsertDone<T(!new)>(cmp: Cmp<T>, v: seq<T>, i: nat, j: nat)
    requires TotalPreorder(cmp) && Inserting(cmp, v, i, j) && (j == 0 || cmp(v[j], v[j - 1]) >= 0)
    ensures Sorted(cmp, v[..i + 1])
  {
    forall p, q | 0 <= p < q <= i
      ensures cmp(v[p], v[q]) <= 0
    {
      if q == j {
        Flip(cmp, v[j - 1], v[j]);
        if p < j - 1 { assert cmp(v[p], v[j - 1]) <= 0; }
      }
    }
  }

  lemma InsertStart<T(!new)>(cmp: Cmp<T>, v: seq<T>, i: nat)
    requires i < |v| && Sorted(cmp, v[..i])
    ensures Inserting(cmp, v, i, i)
  {
    assert forall k :: 0 <= k < i ==> v[k] == v[..i][k];
  }

  /** `trurl_isort_voidp_arr`: sorts the first `n` elements in place and is stable. */
  method Isort<T(!new)>(a: array<T>, n: nat, cmp: Cmp<T>)
    requires n <= a.Length && TotalPreorder(cmp)
    modifies a
    ensures Sorted(cmp, a[..][..n]) && SameOrder(cmp, old(a[..]), a[..])
    ensures a[..][n..] == old(a[..])[n..]
  {
    hide *;
    ghost var s := a[..];
    var i: nat := 1;
    FewSorted(cmp, s, n);
    while i < n
      invariant 1 <= i && (i <= n || (i == 1 && n == 0))
      invariant Sorted(cmp, a[..][..if i <= n then i else n]) && SameOrder(cmp, s, a[..]) && a[..][n..] == s[n..]
    {
      InsertStart(cmp, a[..], i);
      InsertOne(a, i, n, cmp, s);
      i := i + 1;
    }
  }

  lemma FewSorted<T(!new)>(cmp: Cmp<T>, s: seq<T>, n: nat)
    requires n <= |s|
    ensures Sorted(cmp, s[..if 1 <= n then 1 else n]) && SameOrder(cmp, s, s)
  {}

  /** The inner loop: the element at `i` moves down past everything greater. */
  method InsertOne<T(!new)>(a: array<T>, i: nat, n: nat, cmp: Cmp<T>, ghost s: seq<T>)
    requires i < n <= a.Length == |s| && TotalPreorder(cmp) && Inserting(cmp, a[..], i, i)
    requires SameOrder(cmp, s, a[..]) && a[..][n..] == s[n..]
    modifies a
    ensures Sorted(cmp, a[..][..i + 1]) && SameOrder(cmp, s, a[..]) && a[..][n..] == s[n..]
  {
    hide *;
    var tmp := a[i];
    var j: nat := i;
    ghost var v := a[..];
    while j > 0 && cmp(tmp, a[j - 1]) < 0
      invariant j <= i && |v| == a.Length && a[..][j := tmp] == v
      invariant Inserting(cmp, v, i, j) && SameOrder(cmp, s, v) && v[n..] == s[n..]
    {
      ghost var t := a[..];
      InsertShift(cmp, s, v, i, j);
      TailKept(v, Exchanged(v, j - 1, j), i, n);
      a[j] := a[j - 1];
      ShiftSeen(t, a[..], v, j, tmp);
      v := Exchanged(v, j - 1, j);
      j := j - 1;
    }
    a[j] := tmp;
    assert a[..] == v;
    InsertDone(cmp, v, i, j);
  }

  lemma TailKept<T>(v: seq<T>, w: seq<T>, i: nat, n: nat)
    requires i < n <= |v| == |w| && w[i + 1..] == v[i + 1..]
    ensures w[n..] == v[n..]
  {
    assert w[n..] == w[i + 1..][n - i - 1..] && v[n..] == v[i + 1..][n - i - 1..];
  }

  lemma ShiftSeen<T>(t: seq<T>, u: seq<T>, v: seq<T>, j: nat, tmp: T)
    requires 0 < j < |t| && v == t[j := tmp] && u == t[j := t[j - 1]]
    ensures u[j - 1 := tmp] == Exchanged(v, j - 1, j) && v[j] == tmp && v[j - 1] == t[j - 1]
  {}

  // ---- tuples ----

  datatype Algorithm = Either | Quick | Insertion

  /** A fixed-size array of elements. */
  class Tuple<T(!new)> {
    const data: array<T>

    constructor (data: array<T>)
      requires data.Length < 0xFFFF
      ensures this.data == data
    {
      this.data := data;
    }

    /** `n_tuple_sort_internal`. Short tuples are sorted stably. */
    method Sort(cmp: Cmp<T>, alg: Algorithm)
      requires TotalPreorder(cmp)
      modifies data
      ensures forall i, j :: 0 <= i < j < data.Length ==> cmp(data[i], data[j]) <= 0
      ensures Sorted(cmp, data[..]) && multiset(data[..]) == multiset(old(data[..]))
      ensures alg == Insertion || (alg == Either && data.Length <= 10) ==>
        forall x :: Alike(cmp, data[..], x) == Alike(cmp, old(data[..]), x)
    {
      ghost var s := data[..];
      if alg == Quick || (alg == Either && data.Length > 10) {
        ghost var depth := Qsort(data, 0, data.Length, cmp);
        assert data[..][0..data.Length] == data[..] && s[0..data.Length] == s;
      } else {
        Isort(data, data.Length, cmp);
        assert data[..][..data.Length] == data[..];
      }
    }

    /** `bsearch_voidp_tu`: some position that compares equal, if there is one. */
    method Bsearch(x: T, cmp: Cmp<T>) returns (r: int)
      requires TotalPreorder(cmp) && Sorted(cmp, data[..])
      ensures r == -1 || (0 <= r < data.Length && cmp(data[r], x) == 0)
      ensures r == -1 <==> forall k :: 0 <= k < data.Length ==> cmp(data[k], x) != 0
    {
      var lo, hi := 0, data.Length;
      while lo < hi
        invariant 0 <= lo <= hi <= data.Length
        invariant forall k :: 0 <= k < lo ==> cmp(data[k], x) < 0
        invariant forall k :: hi <= k < data.Length ==> cmp(data[k], x) > 0
      {
        var i := (lo + hi) / 2;
        var c := cmp(data[i], x);
        Bisect(cmp, data[..], x, i);
        if c == 0 {
          return i;
        } else if c > 0 {
          hi := i;
        } else {
          lo := i + 1;
        }
      }
      return -1;
    }

    /** `n_tuple_bsearch_idx_ex`: the first position that compares equal, or -1 exactly when none does. */
    method BsearchIdx(x: T, cmp: Cmp<T>) returns (r: int)
      requires TotalPreorder(cmp) && Sorted(cmp, data[..])
      ensures r == -1 <==> forall k :: 0 <= k < data.Length ==> cmp(data[k], x) != 0
      ensures r != -1 ==> 0 <= r < data.Length && cmp(data[r], x) == 0
                          && forall k :: 0 <= k < r ==> cmp(data[k], x) < 0
    {
      hide *;
      if data.Length == 0 { return -1; }
      if data.Length > 1 {
        r := Bsearch(x, cmp);
        if r > 0 {
          while r != 0
            invariant 0 <= r < data.Length && cmp(data[r], x) == 0
          {
            if cmp(data[r - 1], x) != 0 { break; }
            r := r - 1;
          }
          FirstEqual(cmp, data[..], x, r);
        }
      } else {
        r := -1;
        if cmp(data[0], x) == 0 { r := 0; }
      }
    }
  }

  /** One probe of a sorted sequence settles one side of it. */
  lemma Bisect<T(!new)>(cmp: Cmp<T>, s: seq<T>, x: T, i: nat)
    requires TotalPreorder(cmp) && Sorted(cmp, s) && i < |s|
    ensures cmp(s[i], x) > 0 ==> forall k :: i <= k < |s| ==> cmp(s[k], x) > 0
    ensures cmp(s[i], x) < 0 ==> forall k :: 0 <= k <= i ==> cmp(s[k], x) < 0
  {
    forall k | i <= k < |s| && cmp(s[i], x) > 0
      ensures cmp(s[k], x) > 0
    {
      Equivalent(cmp, x, s[i], s[k]);
      assert cmp(x, s[i]) < 0 <==> cmp(s[i], x) > 0;
      assert cmp(x, s[k]) < 0 <==> cmp(s[k], x) > 0;
      if k > i { assert cmp(s[i], s[k]) <= 0; }
    }
    forall k | 0 <= k <= i && cmp(s[i], x) < 0
      ensures cmp(s[k], x) < 0
    {
      Equivalent(cmp, s[k], s[i], x);
      if k < i { assert cmp(s[k], s[i]) <= 0; }
    }
  }

  /** An equal element whose left neighbour differs is the first. */
  lemma FirstEqual<T(!new)>(cmp: Cmp<T>, s: seq<T>, x: T, r: nat)
    requires TotalPreorder(cmp) && Sorted(cmp, s) && r < |s| && cmp(s[r], x) == 0
    requires r == 0 || cmp(s[r - 1], x) != 0
    ensures forall k :: 0 <= k < r ==> cmp(s[k], x) < 0
  {
    if r > 0 {
      Equivalent(cmp, s[r - 1], s[r], x);
      assert cmp(s[r - 1], s[r]) <= 0;
      Bisect(cmp, s, x, r - 1);
      assert cmp(s[r - 1], x) <= 0;
    }
  }
}
