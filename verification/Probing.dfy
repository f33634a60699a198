/** Quadratic probing in a table whose size is a power of two. */
module Probing {
  import opened Words
  import opened Triangular

  /** The bucket at displacement `d` from `home` in a table of `mask + 1` buckets. */
  function Pos(mask: nat, home: nat, d: nat): (b: nat)
    ensures b <= mask
  {
    BitAnd(home + Tri(d), mask)
  }

  lemma PosHome(mask: nat, home: nat)
    requires IsPow2(mask + 1) && home <= mask
    ensures Pos(mask, home, 0) == home
  {
    hide BitAnd, IsPow2;
    MaskIsRemainder(home, mask + 1);
    SmallRemainder(home, mask + 1);
  }

  /** When two probes meet, the table size divides the difference of their displacements' numbers. */
  lemma Meeting(mask: nat, home: nat, i: nat, j: nat)
    requires IsPow2(mask + 1) && i < j && Pos(mask, home, i) == Pos(mask, home, j)
    ensures Divides(2 * (mask + 1), 2 * (Tri(j) - Tri(i)))
  {
    hide BitAnd, IsPow2, Divides, Tri;
    MaskIsRemainder(home + Tri(i), mask + 1);
    MaskIsRemainder(home + Tri(j), mask + 1);
    TriGrows(i, j);
    SameRemainder(mask + 1, home + Tri(i), home + Tri(j));
  }

  /** No two of the first `mask + 1` probes meet. */
  lemma ProbesDiffer(mask: nat, home: nat, i: nat, j: nat)
    requires IsPow2(mask + 1) && i < j <= mask
    ensures Pos(mask, home, i) != Pos(mask, home, j)
  {
    hide *;
    if Pos(mask, home, i) == Pos(mask, home, j) {
      Meeting(mask, home, i, j);
      TriGap(i, j);
      Pow2Double(mask + 1);
      MixedProduct(2 * (mask + 1), j - i, j + i + 1);
    }
  }

  /** The buckets of the first `m` probes. */
  ghost function Probed(mask: nat, home: nat, m: nat): (r: set<nat>)
    ensures forall b :: b in r ==> b <= mask
  {
    if m == 0 then {} else Probed(mask, home, m - 1) + {Pos(mask, home, m - 1)}
  }

  lemma {:induction false} ProbedAre(mask: nat, home: nat, m: nat)
    ensures forall b :: b in Probed(mask, home, m) ==> exists d :: 0 <= d < m && Pos(mask, home, d) == b
  {
    if m > 0 {
      ProbedAre(mask, home, m - 1);
      forall b | b in Probed(mask, home, m)
        ensures exists d :: 0 <= d < m && Pos(mask, home, d) == b
      {
        if b !in Probed(mask, home, m - 1) {
          assert Pos(mask, home, m - 1) == b;
        }
      }
    }
  }

  /** `m` probes reach `m` different buckets, as long as there are that many. */
  lemma {:induction false} ProbedCount(mask: nat, home: nat, m: nat)
    requires IsPow2(mask + 1) && m <= mask + 1
    ensures |Probed(mask, home, m)| == m
  {
    hide Pos, IsPow2;
    if m > 0 {
      ProbedCount(mask, home, m - 1);
      ProbedAre(mask, home, m - 1);
      if Pos(mask, home, m - 1) in Probed(mask, home, m - 1) {
        var d :| 0 <= d < m - 1 && Pos(mask, home, d) == Pos(mask, home, m - 1);
        ProbesDiffer(mask, home, d, m - 1);
      }
    }
  }

  ghost function Below(n: nat): (r: set<nat>)
    ensures |r| == n && forall b: nat :: b in r <==> b < n
  {
    if n == 0 then {} else Below(n - 1) + {n - 1}
  }

  lemma SubsetCount<T>(s: set<T>, t: set<T>)
    requires s <= t
    ensures |s| <= |t| && (|s| == |t| ==> s == t)
  {
    assert t == s + (t - s) && |t| == |s| + |t - s|;
    if |s| == |t| { assert t - s == {}; }
  }

  /** The probe sequence is a permutation of the buckets. */
  lemma ProbesReachAll(mask: nat, home: nat, b: nat) returns (d: nat)
    requires IsPow2(mask + 1) && b <= mask
    ensures d <= mask && Pos(mask, home, d) == b
    ensures forall d' :: 0 <= d' <= mask && Pos(mask, home, d') == b ==> d' == d
  {
    hide *;
    ProbedCount(mask, home, mask + 1);
    SubsetCount(Probed(mask, home, mask + 1), Below(mask + 1));
    ProbedAre(mask, home, mask + 1);
    assert b in Probed(mask, home, mask + 1);
    d :| 0 <= d < mask + 1 && Pos(mask, home, d) == b;
    forall d' | 0 <= d' <= mask && Pos(mask, home, d') == b
      ensures d' == d
    {
      if d' < d { ProbesDiffer(mask, home, d', d); }
      if d < d' { ProbesDiffer(mask, home, d, d'); }
    }
  }
}
