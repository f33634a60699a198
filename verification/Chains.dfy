/** Chains of buckets threaded through an open-addressed array. A bucket is found from its home bucket
    by a quadratic displacement, so a link is the displacement of the next bucket, not its address. */
module Chains {
  import opened Words
  import opened Probing

  // ---- chains ----

  /** What a bucket means to its chain: the home bucket and displacement of the key stored in it, and
      the displacement of the next key of the same home. The displacement 0x7FF ends a chain. */
  datatype Node = Free | Node(home: nat, dist: nat, next: nat)

  /** The buckets that take part in chains; the buckets in `x` are occupied but cut off. */
  ghost predicate Member(s: seq<Node>, x: set<nat>, b: nat) {
    b < |s| && b !in x && s[b].Node?
  }

  ghost predicate Placed(s: seq<Node>, b: nat)
    requires b < |s|
  {
    s[b].Node? ==> s[b].home < |s| && s[b].dist < 0x7FF && Pos(|s| - 1, s[b].home, s[b].dist) == b
  }

  ghost predicate Rooted(s: seq<Node>, x: set<nat>, b: nat)
    requires Member(s, x, b)
  {
    var h := s[b].home;
    Member(s, x, h) && s[h].home == h && s[h].dist == 0
  }

  /** The link of `b` leads to a farther member of the same home, or ends the chain. */
  ghost predicate Reaches(s: seq<Node>, x: set<nat>, b: nat)
    requires Member(s, x, b)
  {
    && s[b].dist < s[b].next <= 0x7FF
    && (s[b].next < 0x7FF ==>
          var c := Pos(|s| - 1, s[b].home, s[b].next);
          c < |s| && c !in x && s[c].Node? && s[c].home == s[b].home && s[c].dist == s[b].next)
  }

  /** The link of `b` does not pass over `c`. */
  ghost predicate Minds(s: seq<Node>, x: set<nat>, b: nat, c: nat)
    requires Member(s, x, b)
  {
    Member(s, x, c) && s[c].home == s[b].home ==> s[c].dist <= s[b].dist || s[b].next <= s[c].dist
  }

  ghost predicate Linked(s: seq<Node>, x: set<nat>, b: nat)
    requires Member(s, x, b)
  {
    Rooted(s, x, b) && Reaches(s, x, b) && forall c: nat :: Minds(s, x, b, c)
  }

  /** A bucket that was cut out of a chain, and so was not its head. */
  ghost predicate Loose(s: seq<Node>, b: nat) {
    b < |s| && s[b].Node? && 0 < s[b].dist < s[b].next
  }

  ghost predicate Chained(s: seq<Node>, x: set<nat>) {
    && IsPow2(|s|) && (forall b :: b in x ==> Loose(s, b))
    && (forall b :: 0 <= b < |s| ==> Placed(s, b))
    && (forall b: nat :: Member(s, x, b) ==> Linked(s, x, b))
  }

  lemma Shape(s: seq<Node>, x: set<nat>)
    requires Chained(s, x)
    ensures IsPow2(|s|) && |s| > 0 && forall b :: b in x ==> Loose(s, b)
  {}

  lemma NodeFacts(s: seq<Node>, x: set<nat>, b: nat)
    requires Chained(s, x) && b < |s| && s[b].Node?
    ensures s[b].home < |s| && s[b].dist < 0x7FF && Pos(|s| - 1, s[b].home, s[b].dist) == b
    ensures b !in x ==> Member(s, x, b) && Rooted(s, x, b) && Reaches(s, x, b)
  {
    hide Rooted, Reaches, Minds, Pos, IsPow2;
    assert Placed(s, b);
    if b !in x {
      assert Member(s, x, b);
    }
  }

  lemma NothingBetween(s: seq<Node>, x: set<nat>, b: nat, c: nat)
    requires Chained(s, x) && Member(s, x, b)
    ensures Minds(s, x, b, c)
    ensures Member(s, x, c) && s[c].home == s[b].home && s[c].dist == s[b].dist ==> c == b
  {
    hide Rooted, Reaches, Minds, Pos, IsPow2;
    assert Linked(s, x, b);
    if Member(s, x, c) { assert Placed(s, b) && Placed(s, c); }
  }

  /** The bucket at displacement zero is the home bucket. */
  lemma HeadFacts(s: seq<Node>, x: set<nat>, h: nat)
    requires Chained(s, x) && h < |s|
    ensures s[h].Node? && s[h].dist == 0 ==> Member(s, x, h) && s[h].home == h
    ensures !(s[h].Node? && s[h].dist == 0) ==> forall b: nat :: Member(s, x, b) ==> s[b].home != h
  {
    hide Chained, Linked, Reaches, Minds, Placed, Pos, IsPow2;
    Shape(s, x);
    if s[h].Node? && s[h].dist == 0 {
      NodeFacts(s, x, h);
      PosHome(|s| - 1, s[h].home);
    } else {
      forall b: nat | Member(s, x, b)
        ensures s[b].home != h
      {
        NodeFacts(s, x, b);
      }
    }
  }

  lemma NextFacts(s: seq<Node>, x: set<nat>, b: nat)
    requires Chained(s, x) && Member(s, x, b) && s[b].next != 0x7FF
    ensures var c := Pos(|s| - 1, s[b].home, s[b].next);
      Member(s, x, c) && s[c].home == s[b].home && s[c].dist == s[b].next && s[b].dist < s[c].dist < 0x7FF
  {
    hide Chained, Linked, Rooted, Minds, Placed, Pos, IsPow2;
    NodeFacts(s, x, b);
    NodeFacts(s, x, Pos(|s| - 1, s[b].home, s[b].next));
  }

  /** The link of `prev` names `b` by its displacement whenever it names it by its place. */
  lemma LinkNames(s: seq<Node>, x: set<nat>, prev: nat, b: nat)
    requires Chained(s, x) && Member(s, x, prev) && Member(s, x, b) && s[prev].home == s[b].home
    requires s[prev].dist < s[b].dist
    ensures s[prev].next <= s[b].dist < 0x7FF
    ensures Pos(|s| - 1, s[prev].home, s[prev].next) == b <==> s[prev].next == s[b].dist
  {
    hide Chained, Linked, Rooted, Reaches, Placed, Pos, IsPow2;
    NothingBetween(s, x, prev, b);
    NodeFacts(s, x, b);
    NextFacts(s, x, prev);
  }

  ghost function Relinked(s: seq<Node>, b: nat, next: nat): (t: seq<Node>)
    requires b < |s| && s[b].Node?
    ensures |t| == |s| && t[b] == Node(s[b].home, s[b].dist, next)
    ensures forall c :: 0 <= c < |s| && c != b ==> t[c] == s[c]
  {
    s[b := s[b].(next := next)]
  }

  ghost function Joined(s: seq<Node>, prev: nat, e: nat, d: nat): (t: seq<Node>)
    requires prev < |s| && s[prev].Node? && e < |s| && e != prev
    ensures |t| == |s| && t[e] == Node(s[prev].home, d, s[prev].next)
    ensures t[prev] == Node(s[prev].home, s[prev].dist, d)
    ensures forall c :: 0 <= c < |s| && c != e && c != prev ==> t[c] == s[c]
  {
    Relinked(s, prev, d)[e := Node(s[prev].home, d, s[prev].next)]
  }

  ghost function Freed(s: seq<Node>, b: nat): (t: seq<Node>)
    requires b < |s|
    ensures |t| == |s| && t[b].Free?
    ensures forall c :: 0 <= c < |s| && c != b ==> t[c] == s[c]
  {
    s[b := Free]
  }

  ghost function Headed(s: seq<Node>, h: nat): (t: seq<Node>)
    requires h < |s|
    ensures |t| == |s| && t[h] == Node(h, 0, 0x7FF)
    ensures forall c :: 0 <= c < |s| && c != h ==> t[c] == s[c]
  {
    s[h := Node(h, 0, 0x7FF)]
  }

  /** Assembles `Chained` from its parts. */
  lemma Assemble(t: seq<Node>, x: set<nat>)
    requires IsPow2(|t|) && forall b :: b in x ==> Loose(t, b)
    requires forall b :: 0 <= b < |t| ==> Placed(t, b)
    requires forall b: nat :: Member(t, x, b) ==> Linked(t, x, b)
    ensures Chained(t, x)
  {}

  /** A free bucket joins the chain behind `prev`. */
  lemma Join(s: seq<Node>, x: set<nat>, prev: nat, e: nat, d: nat)
    requires Chained(s, x) && Member(s, x, prev) && e < |s| && s[e].Free?
    requires Pos(|s| - 1, s[prev].home, d) == e && s[prev].dist < d < s[prev].next
    ensures Chained(Joined(s, prev, e, d), x)
  {
    hide Chained, Linked, Rooted, Minds, Pos, IsPow2;
    var t := Joined(s, prev, e, d);
    Shape(s, x);
    NodeFacts(s, x, prev);
    forall b | 0 <= b < |t|
      ensures Placed(t, b)
    {
      if s[b].Node? { NodeFacts(s, x, b); }
    }
    forall b: nat | Member(t, x, b)
      ensures Linked(t, x, b)
    {
      JoinKeeps(s, x, prev, e, d, b);
    }
    Assemble(t, x);
  }

  lemma JoinKeeps(s: seq<Node>, x: set<nat>, prev: nat, e: nat, d: nat, b: nat)
    requires Chained(s, x) && Member(s, x, prev) && e < |s| && s[e].Free?
    requires Pos(|s| - 1, s[prev].home, d) == e && s[prev].dist < d < s[prev].next
    requires Member(Joined(s, prev, e, d), x, b)
    ensures Linked(Joined(s, prev, e, d), x, b)
  {
    hide Chained, Placed, Pos, IsPow2;
    var t := Joined(s, prev, e, d);
    var was := if b == e then prev else b;
    Shape(s, x);
    NodeFacts(s, x, prev);
    NodeFacts(s, x, was);
    if s[was].next != 0x7FF { NextFacts(s, x, was); }
    NothingBetween(s, x, was, prev);
    NothingBetween(s, x, prev, was);
    forall c: nat
      ensures Minds(t, x, b, c)
    {
      NothingBetween(s, x, was, c);
      NothingBetween(s, x, prev, c);
    }
  }

  /** A bucket other than a head is cut out of its chain. */
  lemma Unlink(s: seq<Node>, x: set<nat>, prev: nat, b: nat)
    requires Chained(s, x) && Member(s, x, prev) && Member(s, x, b)
    requires s[prev].home == s[b].home && s[prev].next == s[b].dist
    ensures Chained(Relinked(s, prev, s[b].next), x + {b})
  {
    hide Chained, Linked, Rooted, Minds, Pos, IsPow2;
    var t := Relinked(s, prev, s[b].next);
    Shape(s, x);
    NodeFacts(s, x, b);
    NodeFacts(s, x, prev);
    forall c | 0 <= c < |t|
      ensures Placed(t, c)
    {
      if s[c].Node? { NodeFacts(s, x, c); }
    }
    forall c: nat | Member(t, x + {b}, c)
      ensures Linked(t, x + {b}, c)
    {
      UnlinkKeeps(s, x, prev, b, c);
    }
    Assemble(t, x + {b});
  }

  lemma UnlinkKeeps(s: seq<Node>, x: set<nat>, prev: nat, b: nat, c: nat)
    requires Chained(s, x) && Member(s, x, prev) && Member(s, x, b)
    requires s[prev].home == s[b].home && s[prev].next == s[b].dist
    requires Member(Relinked(s, prev, s[b].next), x + {b}, c)
    ensures Linked(Relinked(s, prev, s[b].next), x + {b}, c)
  {
    hide Chained, Placed, Pos, IsPow2;
    var t := Relinked(s, prev, s[b].next);
    var was := if c == prev then b else c;
    NodeFacts(s, x, prev);
    NodeFacts(s, x, b);
    NodeFacts(s, x, c);
    if s[was].next != 0x7FF { NextFacts(s, x, was); }
    NothingBetween(s, x, prev, c);
    NothingBetween(s, x, c, prev);
    forall d: nat
      ensures Minds(t, x + {b}, c, d)
    {
      NothingBetween(s, x, c, d);
      NothingBetween(s, x, was, d);
    }
  }

  /** A bucket that was cut off is emptied. */
  lemma Vacate(s: seq<Node>, x: set<nat>, b: nat)
    requires Chained(s, x) && b in x && b < |s|
    ensures Chained(Freed(s, b), x - {b})
  {
    hide Chained, Pos, IsPow2;
    var t := Freed(s, b);
    Shape(s, x);
    forall c | 0 <= c < |t|
      ensures Placed(t, c)
    {
      if s[c].Node? { NodeFacts(s, x, c); }
    }
    forall c: nat | Member(t, x - {b}, c)
      ensures Linked(t, x - {b}, c)
    {
      NodeFacts(s, x, c);
      forall d: nat
        ensures Minds(t, x - {b}, c, d)
      {
        NothingBetween(s, x, c, d);
      }
    }
    Assemble(t, x - {b});
  }

  /** A bucket whose own chain is empty becomes the head of one. */
  lemma Head(s: seq<Node>, x: set<nat>, h: nat)
    requires Chained(s, x) && h < |s| && s[h].Free?
    ensures Chained(Headed(s, h), x)
  {
    hide Chained, Pos, IsPow2;
    var t := Headed(s, h);
    Shape(s, x);
    PosHome(|s| - 1, h);
    forall b | 0 <= b < |t|
      ensures Placed(t, b)
    {
      if s[b].Node? { NodeFacts(s, x, b); }
    }
    forall b: nat | Member(t, x, b)
      ensures Linked(t, x, b)
    {
      if b != h { NodeFacts(s, x, b); }
      forall c: nat
        ensures Minds(t, x, b, c)
      {
        if Member(s, x, c) { NodeFacts(s, x, c); }
        if b != h { NothingBetween(s, x, b, c); }
      }
    }
    Assemble(t, x);
  }

  /** A chain of one bucket ends with it. */
  lemma Behead(s: seq<Node>, x: set<nat>, h: nat)
    requires Chained(s, x) && Member(s, x, h) && s[h].dist == 0 && s[h].next == 0x7FF
    ensures Chained(Freed(s, h), x)
  {
    hide Chained, Pos, IsPow2;
    var t := Freed(s, h);
    Shape(s, x);
    NodeFacts(s, x, h);
    PosHome(|s| - 1, s[h].home);
    forall b | 0 <= b < |t|
      ensures Placed(t, b)
    {
      if s[b].Node? { NodeFacts(s, x, b); }
    }
    forall b: nat | Member(t, x, b)
      ensures Linked(t, x, b)
    {
      NodeFacts(s, x, b);
      NothingBetween(s, x, h, b);
      if s[b].next != 0x7FF { NextFacts(s, x, b); }
      forall c: nat
        ensures Minds(t, x, b, c)
      {
        NothingBetween(s, x, b, c);
      }
    }
    Assemble(t, x);
  }

  // ---- what following the links visits ----

  /** The buckets met by following the links from `b`. */
  ghost function Followed(s: seq<Node>, b: nat): (r: seq<nat>)
    requires b < |s| && s[b].Node?
    ensures forall c :: c in r ==> c < |s| && s[c].Node?
    decreases 0x7FF - s[b].dist
  {
    var c := Pos(|s| - 1, s[b].home, s[b].next);
    if s[b].next < 0x7FF && s[c].Node? && s[b].dist < s[c].dist < 0x7FF then [b] + Followed(s, c) else [b]
  }

  /** Each bucket of `r` is farther from home than the ones before it. */
  ghost predicate Farther(s: seq<Node>, r: seq<nat>) {
    forall i, j :: 0 <= i < j < |r| && r[i] < |s| && r[j] < |s| && s[r[i]].Node? && s[r[j]].Node? ==>
      s[r[i]].dist < s[r[j]].dist
  }

  /** From any member on, the links visit the members of the same home at no smaller displacement:
      all of them, nothing else, and in the order of their displacements. */
  lemma {:induction false} FollowedExactly(s: seq<Node>, x: set<nat>, b: nat)
    requires Chained(s, x) && Member(s, x, b)
    ensures forall c: nat :: c in Followed(s, b) <==>
      Member(s, x, c) && s[c].home == s[b].home && s[b].dist <= s[c].dist
    ensures Farther(s, Followed(s, b))
    decreases 0x7FF - s[b].dist
  {
    hide Chained, Linked, Rooted, Placed, Pos, IsPow2;
    NodeFacts(s, x, b);
    var next := Pos(|s| - 1, s[b].home, s[b].next);
    if s[b].next != 0x7FF {
      NextFacts(s, x, b);
      FollowedExactly(s, x, next);
    }
    forall c: nat
      ensures c in Followed(s, b) <==> Member(s, x, c) && s[c].home == s[b].home && s[b].dist <= s[c].dist
    {
      NothingBetween(s, x, b, c);
      if Member(s, x, c) { NodeFacts(s, x, c); }
    }
  }

  /** From an occupied home bucket the links visit exactly the buckets whose keys belong there. */
  lemma ChainOfHome(s: seq<Node>, x: set<nat>, h: nat)
    requires Chained(s, x) && h < |s| && s[h].Node? && s[h].dist == 0
    ensures forall c: nat :: c in Followed(s, h) <==> Member(s, x, c) && s[c].home == h
    ensures Farther(s, Followed(s, h))
  {
    hide Chained, Linked, Pos, IsPow2;
    HeadFacts(s, x, h);
    FollowedExactly(s, x, h);
  }
}
