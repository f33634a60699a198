/** Where the displacement limit of the chained quadratic table shows: which sizes are too crowded for a
    map, and a table in which an eviction fails and the next one never ends. */
module VerstableLimits {
  import opened Words
  import opened Triangular
  import opened Probing
  import opened Chains
  import opened VerstableSpec

  // ---- sizes that are too small ----

  /** `t` is a table of `size` buckets with a part of the map `m` and no place for the key `k` of `m`. */
  ghost predicate Crowds<K, V>(t: State<K, V>, hash: K -> nat, m: map<K, V>, size: nat, k: K) {
    && t.Wf(hash, |t.nodes|, {}) && |t.meta| == size && k in m && t.Refuses(hash, {}, k)
    && forall j :: j in t.View() ==> j in m && m[j] == t.View()[j]
  }

  ghost predicate Crowded<K(!new), V(!new)>(hash: K -> nat, m: map<K, V>, size: nat) {
    exists t: State<K, V>, k: K :: Crowds(t, hash, m, size, k)
  }

  lemma CrowdedBy<K(!new), V(!new)>(t: State<K, V>, hash: K -> nat, m: map<K, V>, size: nat, k: K)
    requires Crowds(t, hash, m, size, k)
    ensures Crowded(hash, m, size)
  {}

  /** Doubling from `count` came to `asked`: every size before it was granted and found too crowded. */
  ghost predicate Tried<K(!new), V(!new)>(grant: nat -> bool, hash: K -> nat, m: map<K, V>, count: nat, asked: nat)
    decreases asked - count
  {
    asked == count
    || (0 < count < asked && !Refused(grant, count) && Crowded(hash, m, count)
        && Tried(grant, hash, m, 2 * count, asked))
  }

  /** Only a table of more than 2048 buckets can be too crowded, and only for more than 2047 keys. */
  lemma CrowdedNeeds<K(!new), V(!new)>(hash: K -> nat, m: map<K, V>, size: nat)
    requires Crowded(hash, m, size) && 10 * |m| <= 9 * BucketCount(size)
    ensures size > 2048 && |m| > 0x7FF
  {
    hide Crowds, BucketCount, IsPow2;
    var t: State<K, V>, k: K :| Crowds(t, hash, m, size, k);
    CrowdsFacts(t, hash, m, size, k);
    RefusedFor(t, hash, {}, k);
  }

  lemma CrowdsFacts<K, V>(t: State<K, V>, hash: K -> nat, m: map<K, V>, size: nat, k: K)
    requires Crowds(t, hash, m, size, k) && 10 * |m| <= 9 * BucketCount(size)
    ensures t.Wf(hash, |t.nodes|, {}) && |t.meta| == size && t.Refuses(hash, {}, k)
    ensures |t.where| < |m| && !LoadReached(|t.where|, size)
    ensures |t.where| >= 0x7FF ==> size > 2048
  {
    hide State.Wf, State.View;
    KeyCount(t, hash, |t.nodes|, {});
    SubsetCount(t.View().Keys, m.Keys - {k});
  }

  /** Below the maximum load a key is refused only in a table of at least 2047 keys. */
  lemma RefusedFor<K, V>(st: State<K, V>, hash: K -> nat, loose: set<nat>, key: K)
    requires st.Wf(hash, |st.nodes|, loose) && st.Refuses(hash, loose, key) && !LoadReached(|st.where|, |st.meta|)
    requires HomeOf(hash(key), |st.meta| - 1) !in loose
    ensures |st.where| >= 0x7FF
  {
    hide State.Wf, NoRoom, HomeOf;
    var h := HomeOf(hash(key), |st.meta| - 1);
    if st.meta[h].home && NoRoom(st.meta, h) {
      SearchedInVain(st, hash, loose, h);
    } else {
      Resident(st, hash, loose, h);
      var home := HomeOf(hash(st.bk[h].key), |st.meta| - 1);
      HeadOfChain(st, hash, loose, home, h);
      SearchedInVain(st, hash, loose, home);
    }
  }

  /** The size asked for when a key is refused. */
  function Grown(n: nat): nat {
    if n > 1 then BucketCount(n) * 2 else 8
  }

  /** Growth from `st` was stopped by the refusal of `asked` buckets. */
  ghost predicate Stopped<K(!new), V(!new)>(grant: nat -> bool, hash: K -> nat, st: State<K, V>, asked: nat) {
    Tried(grant, hash, st.View(), Grown(|st.meta|), asked) && Refused(grant, asked)
  }

  /** A table as an attempt to insert finds it: the first table, or a larger one without cut-off keys after
      the first has refused the key and growth was granted, of the size asked for if there are few keys. */
  ghost predicate Attempt<K, V>(grant: nat -> bool, hash: K -> nat, key: K,
                                first: State<K, V>, cut: set<nat>, st: State<K, V>, loose: set<nat>)
  {
    (st == first && loose == cut)
    || (loose == {} && |st.meta| >= Grown(|first.meta|) && first.Refuses(hash, cut, key)
        && |st.where| == |first.where| && (|st.where| < 0x7FF ==> |st.meta| == Grown(|first.meta|))
        && !LoadReached(|st.where|, |st.meta|) && !Refused(grant, Grown(|first.meta|)))
  }

  lemma AttemptFirst<K, V>(grant: nat -> bool, hash: K -> nat, key: K, first: State<K, V>, cut: set<nat>)
    ensures Attempt(grant, hash, key, first, cut, first, cut)
  {}

  lemma GrownRoom(count: nat, n: nat)
    requires n > 0 && 10 * count <= 9 * BucketCount(n)
    ensures Grown(n) > 1 && Grown(n) > n && 10 * count <= 9 * Grown(n)
    ensures forall m :: m >= Grown(n) ==> !LoadReached(count, m)
  {}

  lemma AttemptNext<K(!new), V(!new)>(grant: nat -> bool, hash: K -> nat, key: K, first: State<K, V>, cut: set<nat>,
                                      last: State<K, V>, lost: set<nat>, asked: nat, st: State<K, V>)
    requires Attempt(grant, hash, key, first, cut, last, lost) && last.Refuses(hash, lost, key)
    requires |last.meta| > 0 && 10 * |last.where| <= 9 * BucketCount(|last.meta|)
    requires Tried(grant, hash, last.View(), Grown(|last.meta|), asked) && !Refused(grant, asked)
    requires |st.meta| == asked && |st.where| == |last.where| && |last.View()| <= |last.where|
    requires |last.where| < 0x7FF ==> last == first
    ensures Attempt(grant, hash, key, first, cut, st, {})
  {
    hide Tried, Refused, Grown, State.Refuses, LoadReached;
    GrownRoom(|last.where|, |last.meta|);
    TriedOnce(grant, hash, last.View(), Grown(|last.meta|), asked);
    TriedGrows(grant, hash, last.View(), Grown(|last.meta|), asked);
  }

  /** A full table refuses an absent key at every attempt, if growth is refused. */
  lemma AttemptFull<K, V>(grant: nat -> bool, hash: K -> nat, key: K, first: State<K, V>, cut: set<nat>,
                          last: State<K, V>, lost: set<nat>)
    requires Attempt(grant, hash, key, first, cut, last, lost) && last.Wf(hash, |last.nodes|, lost)
    ensures (key !in first.where || first.where[key] in cut) && LoadReached(|first.where|, |first.meta|)
            && Refused(grant, Grown(|first.meta|))
            ==> last == first && lost == cut && last.Refuses(hash, lost, key)
  {
    Basics(last, hash, |last.nodes|, lost);
  }

  /** With fewer than 2047 keys a second attempt succeeds, and a refused size is the first asked for. */
  lemma AttemptSmall<K(!new), V(!new)>(grant: nat -> bool, hash: K -> nat, key: K, first: State<K, V>, cut: set<nat>,
                                       last: State<K, V>, lost: set<nat>)
    requires Attempt(grant, hash, key, first, cut, last, lost) && last.Wf(hash, |last.nodes|, lost)
    requires last.Refuses(hash, lost, key) && !last.Spoiled(hash, lost, key)
    requires |last.where| < 0x7FF && 10 * |last.where| <= 9 * BucketCount(|last.meta|)
    ensures last == first && lost == cut && LoadReached(|last.where|, |last.meta|)
    ensures key !in last.where || last.where[key] in lost
    ensures forall asked: nat :: Stopped(grant, hash, last, asked) ==>
              var size := if |last.meta| > 1 then 2 * |last.meta| else 8;
              asked == size && (size > 0x1000_0000_0000_0000 || !grant(size))
  {
    hide State.Wf, State.Spoiled, LoadReached, Tried, Refused;
    SmallTable(last, hash, lost, key);
    KeyCount(last, hash, |last.nodes|, lost);
    GrownRoom(|last.where|, |last.meta|);
    forall asked: nat | Stopped(grant, hash, last, asked)
      ensures asked == Grown(|last.meta|) && (asked > MAX_BUCKETS || !grant(asked))
    {
      RefusedIs(grant, asked);
      TriedOnce(grant, hash, last.View(), Grown(|last.meta|), asked);
    }
  }

  /** How an insertion ends and what size the table has then, in numbers: the old size, or at least the
      double of it, or 8 buckets for the first key; with fewer than 2047 keys exactly that. */
  lemma AttemptEnd<K(!new), V(!new)>(grant: nat -> bool, hash: K -> nat, key: K, first: State<K, V>, cut: set<nat>,
                                     last: State<K, V>, lost: set<nat>)
    requires Attempt(grant, hash, key, first, cut, last, lost) && first.Wf(hash, |first.nodes|, cut)
    requires last.Wf(hash, |last.nodes|, lost) && !first.Spoiled(hash, cut, key) && !last.Spoiled(hash, lost, key)
    ensures var n := |first.meta|;
      var size := if n > 1 then 2 * n else 8;
      var absent := key !in first.where || first.where[key] in cut;
      var full := 10 * (|first.where| + 1) > 9 * (if n > 1 then n else 0);
      && (last == first || (|last.meta| >= size && first.Refuses(hash, cut, key)))
      && (|first.where| < 0x7FF ==>
            && (last.Refuses(hash, lost, key) ==> last == first && absent && full)
            && (!last.Refuses(hash, lost, key) ==> |last.meta| == if absent && full then size else n)
            && (last != first ==> size <= 0x1000_0000_0000_0000 && grant(size)))
  {
    hide State.Wf, State.Spoiled, State.Refuses, State.View, Refused;
    RefusedIs(grant, Grown(|first.meta|));
    RefusesIf(first, hash, cut, key);
    RefusesIf(last, hash, lost, key);
    if first.Refuses(hash, cut, key) { SmallTable(first, hash, cut, key); }
    if last.Refuses(hash, lost, key) { SmallTable(last, hash, lost, key); }
  }

  lemma RefusesIf<K, V>(st: State<K, V>, hash: K -> nat, loose: set<nat>, key: K)
    requires st.Wf(hash, |st.nodes|, loose)
    ensures st.Refuses(hash, loose, key) ==> key !in st.where || st.where[key] in loose
    ensures (key !in st.where || st.where[key] in loose) && LoadReached(|st.where|, |st.meta|) ==>
      st.Refuses(hash, loose, key)
    ensures |st.meta| > 0
  {
    Basics(st, hash, |st.nodes|, loose);
  }

  lemma SameCount<K, A, B>(v: map<K, A>, w: map<K, B>)
    requires v.Keys == w.Keys
    ensures |v| == |w|
  {
    assert |v| == |v.Keys| && |w| == |w.Keys|;
  }

  lemma StoppedBy<K(!new), V(!new)>(grant: nat -> bool, hash: K -> nat, st: State<K, V>, asked: nat)
    requires Tried(grant, hash, st.View(), Grown(|st.meta|), asked) && Refused(grant, asked)
    ensures Stopped(grant, hash, st, asked)
  {}

  lemma Unspoiled<K, V>(st: State<K, V>, hash: K -> nat, key: K)
    ensures !st.Spoiled(hash, {}, key)
  {}

  lemma FirstTry<K(!new), V(!new)>(grant: nat -> bool, hash: K -> nat, m: map<K, V>, count: nat)
    ensures Tried(grant, hash, m, count, count)
  {}

  lemma RefusedIs(grant: nat -> bool, count: nat)
    ensures Refused(grant, count) <==> count > MAX_BUCKETS || !grant(count)
  {}

  lemma {:induction false} TriedMore<K(!new), V(!new)>(grant: nat -> bool, hash: K -> nat, m: map<K, V>,
                                                       count: nat, asked: nat)
    requires Tried(grant, hash, m, count, asked) && asked > 0 && !Refused(grant, asked) && Crowded(hash, m, asked)
    ensures Tried(grant, hash, m, count, 2 * asked)
    decreases asked - count
  {
    if asked != count {
      TriedMore(grant, hash, m, 2 * count, asked);
    }
  }

  /** No size beyond the first is asked for when that is refused, or when it cannot be too crowded. */
  lemma TriedOnce<K(!new), V(!new)>(grant: nat -> bool, hash: K -> nat, m: map<K, V>, count: nat, asked: nat)
    requires Tried(grant, hash, m, count, asked) && count > 1
    ensures Refused(grant, count) ==> asked == count
    ensures 10 * |m| <= 9 * count && (count <= 2048 || |m| <= 0x7FF) ==> asked == count
  {
    if asked != count && 10 * |m| <= 9 * count {
      CrowdedNeeds(hash, m, count);
    }
  }

  lemma TriedGrows<K(!new), V(!new)>(grant: nat -> bool, hash: K -> nat, m: map<K, V>, count: nat, asked: nat)
    requires Tried(grant, hash, m, count, asked)
    ensures count <= asked
  {}

  lemma SmallTable<K, V>(st: State<K, V>, hash: K -> nat, loose: set<nat>, key: K)
    requires st.Wf(hash, |st.nodes|, loose) && st.Refuses(hash, loose, key) && !st.Spoiled(hash, loose, key)
    ensures LoadReached(|st.where|, |st.meta|) || |st.where| >= 0x7FF
  {
    hide State.Wf, State.Refuses, HomeOf, LoadReached;
    Basics(st, hash, |st.nodes|, loose);
    if !LoadReached(|st.where|, |st.meta|) { RefusedFor(st, hash, loose, key); }
  }

  // ---- a failing eviction ----

  /** The links that can be followed lead to no bucket that was cut off. */
  lemma CutOffUnmet<K, V>(st: State<K, V>, hash: K -> nat, loose: set<nat>, home: nat, c: nat)
    requires st.Wf(hash, |st.nodes|, loose) && On(st, loose, home, c, 0x7FF) && st.meta[c].disp != 0x7FF
    ensures Pos(|st.meta| - 1, home, st.meta[c].disp) !in loose
  {
    hide Chained, HomeOf, Frag, Pos;
    LastStep(st, hash, loose, home, c);
  }

  /** Where the search for the key in front of an evicted one is after `i` steps. */
  ghost function EvictWalk(meta: seq<Meta>, home: nat, i: nat): (b: nat)
    requires meta != [] && home < |meta|
    ensures b < |meta|
  {
    if i == 0 then home else Pos(|meta| - 1, home, meta[EvictWalk(meta, home, i - 1)].disp)
  }

  /** The buckets of the first 2047 probes from bucket 0 in a table of 4096 buckets. */
  ghost function Probes(): (p: set<nat>)
    ensures forall b :: b in p <==> exists d: nat :: d < 0x7FF && Pos(4095, 0, d) == b
  {
    set d: nat | d < 0x7FF :: Pos(4095, 0, d)
  }

  /** A table of 4096 buckets with keys in the probed buckets: the keys 0 and 4096 form the chain of
      bucket 0, the others are heads. */
  ghost function Jam<V>(v: V): (st: State<nat, V>)
    ensures |st.meta| == |st.bk| == |st.nodes| == 4096
  {
    State(
      seq(4096, b requires 0 <= b => if b in Probes() then JamMeta(b) else Meta(0, false, 0)),
      seq(4096, b requires 0 <= b => if b in Probes() then Slot(JamKey(b), v) else Blank),
      seq(4096, b requires 0 <= b => if b in Probes() then JamNode(b) else Free),
      map k | k in Probes() - {1} + {4096} :: if k == 4096 then 1 else k)
  }

  function JamKey(b: nat): nat { if b == 1 then 4096 else b }

  function JamMeta(b: nat): Meta { Meta(0, b != 1, if b == 0 then 1 else 0x7FF) }

  function JamNode(b: nat): Node {
    if b == 0 then Node(0, 0, 1) else if b == 1 then Node(0, 1, 0x7FF) else Node(b, 0, 0x7FF)
  }

  lemma Size4096()
    ensures IsPow2(4096)
  {
    assert IsPow2(2);
    assert IsPow2(16) by { assert IsPow2(4); }
    assert IsPow2(256) by { assert IsPow2(64); }
    assert IsPow2(1024);
  }

  lemma Small(b: nat)
    requires b < 4096
    ensures Frag(b) == 0 && HomeOf(b, 4095) == b && Pos(4095, b, 0) == b
  {
    hide BitAnd, IsPow2;
    Size4096();
    MaskIsRemainder(b, 4096);
    SmallRemainder(b, 4096);
    PosHome(4095, b);
  }

  lemma Displaced()
    ensures Frag(4096) == 0 && HomeOf(4096, 4095) == 0 && Pos(4095, 0, 1) == 1 && Pos(4095, 0, 0x7FF) == 3072
  {
    hide BitAnd, IsPow2;
    Size4096();
    MaskIsRemainder(4096, 4096);
    MaskIsRemainder(Tri(1), 4096);
    MaskIsRemainder(Tri(0x7FF), 4096);
  }

  /** Buckets 0 and 1 are probed, bucket 3072 is not. */
  lemma ProbesFacts()
    ensures 0 in Probes() && 1 in Probes() && 3072 !in Probes() && |Probes()| == 0x7FF
    ensures forall b :: b in Probes() ==> b < 4096
  {
    hide IsPow2, Pos;
    Size4096();
    Small(0);
    Displaced();
    ProbesCounted(0x7FF);
    if 3072 in Probes() {
      var d: nat :| d < 0x7FF && Pos(4095, 0, d) == 3072;
      ProbesDiffer(4095, 0, d, 0x7FF);
    }
  }

  lemma {:induction false} AllProbed(m: nat, d: nat)
    requires d < m
    ensures Pos(4095, 0, d) in Probed(4095, 0, m)
  {
    if d < m - 1 { AllProbed(m - 1, d); }
  }

  lemma ProbesCounted(m: nat)
    requires m == 0x7FF
    ensures |Probes()| == m && forall b :: b in Probes() ==> b < 4096
  {
    hide IsPow2, Pos, Probed;
    Size4096();
    ProbedCount(4095, 0, m);
    ProbedAre(4095, 0, m);
    forall b | b in Probes()
      ensures b in Probed(4095, 0, m)
    {
      var d: nat :| d < m && Pos(4095, 0, d) == b;
      AllProbed(m, d);
    }
    assert Probes() == Probed(4095, 0, m);
  }

  lemma JamPlaced(b: nat)
    requires b < 4096
    ensures JamNode(b).home < 4096 && Pos(4095, JamNode(b).home, JamNode(b).dist) == b
    ensures JamNode(b).home == HomeOf(JamKey(b), 4095) && Frag(JamKey(b)) == 0
  {
    hide Pos, HomeOf, Frag;
    Small(b);
    Displaced();
  }

  lemma JamLinked(s: seq<Node>, b: nat)
    requires |s| == 4096 && forall c :: 0 <= c < |s| && s[c].Node? ==> s[c] == JamNode(c)
    requires s[0].Node? && s[1].Node? && Member(s, {}, b)
    ensures Linked(s, {}, b)
  {
    hide Pos;
    Displaced();
  }

  lemma JamChained<V>(v: V)
    ensures Chained(Jam(v).nodes, {})
  {
    hide IsPow2, Pos, Probes, Linked;
    var s := Jam(v).nodes;
    Size4096();
    ProbesFacts();
    forall b | 0 <= b < |s|
      ensures Placed(s, b)
    {
      JamPlaced(b);
    }
    forall b: nat | Member(s, {}, b)
      ensures Linked(s, {}, b)
    {
      JamLinked(s, b);
    }
    Assemble(s, {});
  }

  lemma JamTied<V>(hash: nat -> nat, v: V, b: nat)
    requires (forall k :: hash(k) == k) && b < 4096 && Jam(v).Shaped()
    ensures Jam(v).Tied(hash, b)
  {
    hide IsPow2, Pos, Probes, HomeOf, Frag;
    ProbesFacts();
    JamPlaced(b);
  }

  lemma JamCount<V>(v: V)
    ensures |Jam(v).where| == 0x7FF && 1 !in Jam(v).where && forall k :: k in Jam(v).where ==> Jam(v).Indexed(k)
  {
    hide Pos, Probes;
    var st := Jam(v);
    ProbesFacts();
    assert st.where.Keys == Probes() - {1} + {4096};
    assert |st.where| == |st.where.Keys|;
  }

  /** A valid table far below its load in which the insertion of the key 1 evicts the key 4096 in vain. */
  lemma EvictionFails<V>(hash: nat -> nat, v: V)
    requires forall k :: hash(k) == k
    ensures Jam(v).Wf(hash, 4096, {}) && |Jam(v).where| == 2047 && !LoadReached(2047, 4096)
    ensures 1 !in Jam(v).where && Jam(v).CutsOff(hash, 1)
  {
    hide IsPow2, Probes, Chained, State.Tied, State.Indexed, State.CutsOff;
    var st := Jam(v);
    JamChained(v);
    JamCount(v);
    forall b: nat | b < |st.meta|
      ensures st.Tied(hash, b)
    {
      JamTied(hash, v, b);
    }
    JamRefuses(hash, v);
  }

  lemma JamRefuses<V>(hash: nat -> nat, v: V)
    requires (forall k :: hash(k) == k) && |Jam(v).where| == 2047
    ensures Jam(v).CutsOff(hash, 1)
  {
    hide IsPow2, Pos, HomeOf, Frag;
    Small(1);
    ProbesFacts();
    Displaced();
    forall d: nat | 1 <= d < 0x7FF
      ensures Full(Jam(v).meta, 0, d)
    {
      assert Pos(4095, 0, d) in Probes();
    }
  }

  lemma JamCut<V>(v: V)
    ensures Jam(v).Shaped() && Jam(v).nodes[0].Node? && Jam(v).nodes[1].Node?
    ensures Jam(v).Cut(0, 1).meta[0].disp == 0x7FF && Jam(v).Cut(0, 1).meta[3072].disp == 0
  {
    hide Probes;
    ProbesFacts();
  }

  lemma WalkOn(meta: seq<Meta>, home: nat, i: nat)
    requires home < |meta|
    ensures EvictWalk(meta, home, i) ==
            if i == 0 then home else Pos(|meta| - 1, home, meta[EvictWalk(meta, home, i - 1)].disp)
  {}

  lemma {:induction false} BackAndForth(meta: seq<Meta>, i: nat)
    requires |meta| == 4096 && meta[0].disp == 0x7FF && meta[3072].disp == 0
    ensures EvictWalk(meta, 0, i) == if i % 2 == 0 then 0 else 3072
  {
    hide *;
    Displaced();
    Small(0);
    WalkOn(meta, 0, i);
    if i > 0 { BackAndForth(meta, i - 1); }
  }

  /** After that eviction has failed, the same insertion looks for bucket 1 in its chain for ever: the
      search goes back and forth between two other buckets. */
  lemma EvictionNeverEnds<V>(v: V, i: nat)
    ensures Jam(v).Shaped() && Jam(v).nodes[0].Node? && Jam(v).nodes[1].Node?
    ensures EvictWalk(Jam(v).Cut(0, 1).meta, 0, i) == if i % 2 == 0 then 0 else 3072
  {
    hide Probes, EvictWalk;
    JamCut(v);
    BackAndForth(Jam(v).Cut(0, 1).meta, i);
  }
}
