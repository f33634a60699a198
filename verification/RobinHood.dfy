/** The slot array of the Robin Hood table as a value: the whole-table invariant and the facts
    that lookup, the swap chain and the backward shift rest on. */
module RobinHood {
  import opened Words

  /** One slot. `hash == 0` marks it empty; its other fields are then meaningless. */
  datatype Entry = Entry(hash: u32, psl: u16, klen: u16, dataIndex: u32)

  /** What a slot stands for, whatever its probe length. */
  datatype Core = Free | Used(hash: u32, klen: u16, dataIndex: u32)

  predicate Occupied(e: Entry) { e.hash != 0 }

  function CoreOf(e: Entry): Core {
    if Occupied(e) then Used(e.hash, e.klen, e.dataIndex) else Free
  }

  // ---- cyclic positions, kept linear ----

  function Home(cap: nat, hash: nat): (i: nat)
    requires cap > 0
    ensures i < cap
  {
    BitAnd(hash, cap - 1)
  }

  function Next(cap: nat, i: nat): nat { if i + 1 >= cap then 0 else i + 1 }

  function Prev(cap: nat, i: nat): nat { if i == 0 then if cap == 0 then 0 else cap - 1 else i - 1 }

  /** The position `k` steps after `i`, for at most one turn. */
  function At(cap: nat, i: nat, k: nat): nat { if i + k < cap then i + k else i + k - cap }

  /** Steps from `i` forward to `j`. */
  function Dist(cap: nat, i: nat, j: nat): int { if i <= j then j - i else j + (cap - i) }

  /** The code steps with a mask. */
  lemma MaskedStep(cap: nat, i: nat)
    requires IsPow2(cap) && i < cap
    ensures BitAnd(i + 1, cap - 1) == Next(cap, i)
  {
    MaskIsRemainder(i + 1, cap);
    if i + 1 < cap { SmallRemainder(i + 1, cap); } else { SelfRemainder(cap); }
  }

  // ---- the invariant ----

  /** `e` may stand at position `i`: its probe length is its cyclic distance from home and exceeds
      that of the slot before by at most one. */
  ghost predicate Fits(t: seq<Entry>, i: nat, e: Entry)
    requires i < |t|
  {
    && e.psl == Dist(|t|, Home(|t|, e.hash), i)
    && (e.psl > 0 ==> Occupied(t[Prev(|t|, i)]) && t[Prev(|t|, i)].psl + 1 >= e.psl)
  }

  ghost predicate Ordered(t: seq<Entry>) {
    forall i {:trigger Fits(t, i, t[i])} :: 0 <= i < |t| && Occupied(t[i]) ==> Fits(t, i, t[i])
  }

  lemma FitsAt(t: seq<Entry>, i: nat)
    requires Ordered(t) && i < |t| && Occupied(t[i])
    ensures Fits(t, i, t[i]) && t[i].psl < |t|
  {}

  ghost predicate HasFree(t: seq<Entry>) {
    exists i :: 0 <= i < |t| && !Occupied(t[i])
  }

  ghost predicate IsStop(e: Entry) { !Occupied(e) || e.psl == 0 }

  /** Some slot is empty or holds an entry at home. */
  ghost predicate HasStop(t: seq<Entry>) {
    exists i :: 0 <= i < |t| && IsStop(t[i])
  }

  ghost function Cores(t: seq<Entry>): seq<Core> {
    seq(|t|, i requires 0 <= i < |t| => CoreOf(t[i]))
  }

  ghost function Content(t: seq<Entry>): multiset<Core> { multiset(Cores(t)) }

  // ---- lookup ----

  /** Every slot on the way from home to an entry is occupied by an entry at least as displaced. */
  lemma {:induction false} ProbePath(t: seq<Entry>, p: nat, k: nat)
    requires Ordered(t) && p < |t| && Occupied(t[p]) && k <= t[p].psl
    ensures var i := At(|t|, Home(|t|, t[p].hash), k);
            i < |t| && Occupied(t[i]) && t[i].psl >= k && (k == t[p].psl ==> i == p)
    decreases t[p].psl - k
  {
    assert Fits(t, p, t[p]);
    if k < t[p].psl {
      ProbePath(t, p, k + 1);
      var n := At(|t|, Home(|t|, t[p].hash), k + 1);
      assert Fits(t, n, t[n]);
    }
  }

  // ---- the swap chain ----

  /** Settling a carried entry into an empty slot, or over a less displaced entry. */
  lemma Settle(t: seq<Entry>, i: nat, e: Entry)
    requires Ordered(t) && |t| >= 2 && i < |t| && Occupied(e) && Fits(t, i, e)
    requires !Occupied(t[i]) || e.psl > t[i].psl
    ensures Ordered(t[i := e])
  {
    var u := t[i := e];
    forall j | 0 <= j < |u| && Occupied(u[j])
      ensures Fits(u, j, u[j])
    {
      if j != i { assert Fits(t, j, t[j]); }
    }
  }

  /** The slots from the home of a carried entry up to where it stands are occupied. */
  lemma {:induction false} CarriedPath(t: seq<Entry>, i: nat, e: Entry, k: nat)
    requires Ordered(t) && i < |t| && Fits(t, i, e) && k < e.psl
    ensures Occupied(t[At(|t|, Home(|t|, e.hash), k)])
  {
    CarriedBack(t, i, e, e.psl - k);
  }

  lemma {:induction false} CarriedBack(t: seq<Entry>, i: nat, e: Entry, b: nat)
    requires Ordered(t) && i < |t| && Fits(t, i, e) && 1 <= b <= e.psl
    ensures var j := At(|t|, Home(|t|, e.hash), e.psl - b);
            j < |t| && Occupied(t[j]) && t[j].psl + b >= e.psl
  {
    if b > 1 {
      CarriedBack(t, i, e, b - 1);
      var n := At(|t|, Home(|t|, e.hash), e.psl - b + 1);
      assert Fits(t, n, t[n]);
    }
  }

  /** While some slot is empty, a carried entry that meets an occupied slot can go one step further
      without its probe length reaching the capacity. */
  lemma RoomAhead(t: seq<Entry>, i: nat, e: Entry, q: nat)
    requires Ordered(t) && i < |t| && Fits(t, i, e) && Occupied(t[i])
    requires q < |t| && !Occupied(t[q])
    ensures e.psl + 1 < |t|
  {
    if e.psl + 1 >= |t| {
      CarriedPath(t, i, e, Dist(|t|, Home(|t|, e.hash), q));
      assert false;
    }
  }

  lemma StepOn(t: seq<Entry>, i: nat, e: Entry)
    requires |t| <= 0x1_0000 && i < |t| && Fits(t, i, e) && e.psl + 1 < |t|
    requires Occupied(t[i]) && t[i].psl >= e.psl
    ensures Fits(t, Next(|t|, i), e.(psl := e.psl + 1))
  {}

  // ---- contents as a multiset ----

  lemma ContentUpdate(t: seq<Entry>, i: nat, e: Entry)
    requires i < |t|
    ensures CoreOf(t[i]) in Content(t)
    ensures Content(t[i := e]) == Content(t) - multiset{CoreOf(t[i])} + multiset{CoreOf(e)}
  {
    assert Cores(t)[i] == CoreOf(t[i]);
    assert Cores(t[i := e]) == Cores(t)[i := CoreOf(e)];
  }

  lemma ContentIndex(t: seq<Entry>, c: Core) returns (i: nat)
    requires c in Content(t)
    ensures i < |t| && CoreOf(t[i]) == c
  {
    i :| 0 <= i < |t| && Cores(t)[i] == c;
  }

  lemma ContentMember(t: seq<Entry>, i: nat)
    requires i < |t|
    ensures CoreOf(t[i]) in Content(t)
  {
    assert Cores(t)[i] == CoreOf(t[i]);
  }

  lemma ContentUnique(t: seq<Entry>, i: nat, j: nat)
    requires i < |t| && j < |t| && CoreOf(t[i]) == CoreOf(t[j]) && Content(t)[CoreOf(t[i])] == 1
    ensures i == j
  {
    if i != j {
      var e := Entry(0, 0, 0, 0);
      var other := if Occupied(t[i]) then e else Entry(1, 0, 0, 0);
      ContentUpdate(t, i, other);
      ContentMember(t[i := other], j);
      assert false;
    }
  }

  lemma Exchange<T>(m: multiset<T>, a: T, b: T)
    requires a in m
    ensures m - multiset{a} + multiset{b} + multiset{a} == m + multiset{b}
  {}

  lemma ExchangeBoth<T>(m: multiset<T>, b: T, m0: multiset<T>, b0: T, a: T)
    requires m + multiset{b} == m0 + multiset{b0} && a in m && a in m0
    ensures m - multiset{a} + multiset{b} == m0 - multiset{a} + multiset{b0}
  {
    assert m - multiset{a} + multiset{b} == (m + multiset{b}) - multiset{a};
  }

  // ---- one run of the swap chain ----

  /** First of the entries that share its home. */
  ghost predicate IsHead(t: seq<Entry>, a: nat)
    requires a < |t|
  {
    t[a].psl == 0 || t[Prev(|t|, a)].psl >= t[a].psl
  }

  /** A chain that enters at `start` displaces the entry at `a` and carries it into slot `b`, which
      agrees with it on hash and key length. */
  ghost predicate Meets(t: seq<Entry>, start: nat, a: nat, b: nat) {
    && start < |t| && a < |t| && b < |t| && Occupied(t[a])
    && t[a].hash == t[b].hash && t[a].klen == t[b].klen && t[a].psl < t[b].psl
    && IsHead(t, a) && t[a].psl < Dist(|t|, start, a) < Dist(|t|, start, b)
    && forall j {:trigger t[j]} :: 0 <= j < |t| && Dist(|t|, start, j) <= Dist(|t|, start, b) ==> Occupied(t[j])
  }

  /** How far along a chain is: it has reached position `i` carrying `e`; `q` is the slot it is bound
      to stop at or before; `re` is the slot where the new entry was settled, if it was; then `e` came
      from slot `a`. */
  datatype Walk = Walk(e: Entry, i: nat, q: nat, re: Option<nat>, a: nat)

  /** The chain that inserts `e0` into `t0` has made the table `t` so far. */
  ghost predicate Chain(t0: seq<Entry>, t: seq<Entry>, e0: Entry, w: Walk) {
    Carrying(t0, t, e0, w) && Route(t0, e0, w)
  }

  ghost predicate Carrying(t0: seq<Entry>, t: seq<Entry>, e0: Entry, w: Walk) {
    && 2 <= |t| == |t0| <= 0x1_0000 && w.i < |t| && w.q < |t|
    && Occupied(e0) && Occupied(w.e) && Ordered(t) && Ordered(t0) && Fits(t, w.i, w.e)
    && Content(t) + multiset{CoreOf(w.e)} == Content(t0) + multiset{CoreOf(e0)}
    && (forall j {:trigger t[j]} :: 0 <= j < |t| ==> Occupied(t[j]) == Occupied(t0[j]))
    && (forall j {:trigger t[j]} :: 0 <= j < |t| && Dist(|t|, j, w.q) <= Dist(|t|, w.i, w.q) ==> t[j] == t0[j])
    && (w.re.None? ==> t == t0 && w.e == e0.(psl := w.e.psl))
    && (w.re.Some? ==> w.re.value < |t| && CoreOf(t[w.re.value]) == CoreOf(e0)
                       && Dist(|t|, w.i, w.q) < Dist(|t|, w.re.value, w.q))
    && (!Occupied(t0[w.q]) ==> t[Next(|t|, w.q)] == t0[Next(|t|, w.q)]
                               && (Dist(|t|, w.i, w.q) == |t| - 1 ==> w.e.psl == 0))
  }

  /** Where the chain has been, in terms of the table it started from. */
  ghost predicate Route(t0: seq<Entry>, e0: Entry, w: Walk)
    requires |t0| > 0 && w.i < |t0| && w.q < |t0|
  {
    var cap := |t0|;
    var start := Home(cap, e0.hash);
    var before := t0[Prev(cap, w.i)];
    && Dist(cap, start, w.i) + Dist(cap, w.i, w.q) == Dist(cap, start, w.q)
    && (forall j {:trigger t0[j]} :: 0 <= j < cap && Dist(cap, start, j) < Dist(cap, start, w.i) ==> Occupied(t0[j]))
    && (w.re.None? ==> w.e.psl == Dist(cap, start, w.i))
    && (w.re.Some? ==>
          && w.i != start && w.a < cap && Occupied(t0[w.a]) && CoreOf(t0[w.a]) == CoreOf(w.e)
          && IsHead(t0, w.a) && t0[w.a].psl < Dist(cap, start, w.a) < Dist(cap, start, w.i)
          && w.e.psl == t0[w.a].psl + Dist(cap, w.a, w.i))
    && (w.i != start ==> w.e.psl <= before.psl + 1
                         && (w.e.psl >= Dist(cap, start, w.i) || w.e.psl >= before.psl + 1))
  }

  lemma ChainStart(t: seq<Entry>, e: Entry, q: nat)
    requires 2 <= |t| <= 0x1_0000 && q < |t| && Occupied(e) && Ordered(t)
    ensures Chain(t, t, e, Walk(e.(psl := 0), Home(|t|, e.hash), q, None, 0))
  {}

  lemma ChainFacts(t0: seq<Entry>, t: seq<Entry>, e0: Entry, w: Walk)
    requires Chain(t0, t, e0, w)
    ensures w.i < |t| == |t0| <= 0x1_0000 && w.q < |t| && Occupied(w.e) && t[w.i] == t0[w.i]
    ensures w.re.None? ==> t == t0 && w.e == e0.(psl := w.e.psl)
    ensures w.re.Some? ==> w.re.value < |t|
    ensures Occupied(t[w.i]) && !Occupied(t0[w.q]) && w.e.psl <= t[w.i].psl ==> w.e.psl + 1 < |t| && w.i != w.q
    ensures w.i != w.q ==> Dist(|t|, Next(|t|, w.i), w.q) < Dist(|t|, w.i, w.q)
  {
    if Occupied(t[w.i]) && !Occupied(t0[w.q]) && w.e.psl <= t[w.i].psl {
      assert Occupied(t[w.q]) == Occupied(t0[w.q]);
      RoomAhead(t, w.i, w.e, w.q);
    }
  }

  /** An entry one step further from home, in the 16-bit field. */
  function Further(e: Entry): Entry { e.(psl := (e.psl + 1) % 0x1_0000) }

  /** The slot in the way keeps its entry. */
  function Skipped(cap: nat, w: Walk): Walk {
    w.(e := Further(w.e), i := Next(cap, w.i))
  }

  lemma ChainSkip(t0: seq<Entry>, t: seq<Entry>, e0: Entry, w: Walk)
    requires Chain(t0, t, e0, w)
    requires Occupied(t[w.i]) && w.e.psl <= t[w.i].psl && w.e.psl + 1 < |t| && w.i != w.q
    ensures Chain(t0, t, e0, Skipped(|t|, w))
  {
    ChainFacts(t0, t, e0, w);
    assert Ordered(t0);
    hide Carrying, Route, Ordered;
    RouteSkip(t0, e0, w);
    CarrySkip(t0, t, e0, w);
  }

  lemma CarrySkip(t0: seq<Entry>, t: seq<Entry>, e0: Entry, w: Walk)
    requires Carrying(t0, t, e0, w)
    requires Occupied(t[w.i]) && w.e.psl <= t[w.i].psl && w.e.psl + 1 < |t| && w.i != w.q
    ensures Carrying(t0, t, e0, Skipped(|t|, w))
  {
    StepOn(t, w.i, w.e);
    assert CoreOf(Skipped(|t|, w).e) == CoreOf(w.e);
  }

  lemma RouteSkip(t0: seq<Entry>, e0: Entry, w: Walk)
    requires 2 <= |t0| <= 0x1_0000 && w.i < |t0| && w.q < |t0| && w.i != w.q
    requires Ordered(t0) && Route(t0, e0, w)
    requires Occupied(t0[w.i]) && w.e.psl <= t0[w.i].psl && w.e.psl + 1 < |t0|
    ensures Route(t0, e0, Skipped(|t0|, w))
  {
    hide BitAnd, IsPow2, Ordered, Dist, Home, Next, Prev;
    FitsAt(t0, w.i);
    StepFacts(|t0|, Home(|t0|, e0.hash), w.i);
    if w.re.Some? { StepFacts(|t0|, w.a, w.i); }
    OneOn(|t0|, Home(|t0|, e0.hash), w.i, w.q);
    if w.re.Some? { OneOn(|t0|, w.a, w.i, w.q); }
  }

  lemma StepFacts(cap: nat, s: nat, i: nat)
    requires s < cap && i < cap
    ensures Next(cap, i) < cap && Prev(cap, i) < cap && Prev(cap, Next(cap, i)) == i
    ensures 0 <= Dist(cap, s, i) < cap && (Dist(cap, s, i) == 0 <==> s == i)
    ensures 0 <= Dist(cap, s, Next(cap, i)) && (Dist(cap, s, Next(cap, i)) == 0 <==> s == Next(cap, i))
    ensures cap > 1 ==> Dist(cap, i, Next(cap, i)) == 1
  {}

  lemma Between(cap: nat, s: nat, a: nat, i: nat)
    requires s < cap && a < cap && i < cap && Dist(cap, s, a) < Dist(cap, s, i)
    ensures Dist(cap, s, a) + Dist(cap, a, i) == Dist(cap, s, i)
  {}

  /** Stepping from `i` towards `q` on a way that began at `s`. */
  lemma OneOn(cap: nat, s: nat, i: nat, q: nat)
    requires s < cap && i < cap && q < cap && i != q
    requires Dist(cap, s, i) + Dist(cap, i, q) == Dist(cap, s, q) || Dist(cap, s, i) < cap - 1
    ensures Dist(cap, s, Next(cap, i)) == Dist(cap, s, i) + 1
    ensures Dist(cap, Next(cap, i), q) == Dist(cap, i, q) - 1
    ensures forall j :: 0 <= j < cap && Dist(cap, s, j) < Dist(cap, s, Next(cap, i)) ==>
            Dist(cap, s, j) < Dist(cap, s, i) || j == i
  {}

  /** On the way to an entry at `q` the searched entry swaps nowhere and does not run past it. */
  ghost predicate Hunting(t: seq<Entry>, e: Entry, i: nat, q: nat) {
    && Ordered(t) && |t| > 0 && q < |t| && Occupied(t[q]) && t[q].hash == e.hash
    && e.psl <= t[q].psl && i == At(|t|, Home(|t|, e.hash), e.psl)
  }

  lemma HuntingFacts(t: seq<Entry>, e: Entry, i: nat, q: nat)
    requires Hunting(t, e, i, q)
    ensures i < |t| && Occupied(t[i]) && e.psl <= t[i].psl
    ensures i != q ==> e.psl + 1 < |t| && Hunting(t, Further(e), Next(|t|, i), q)
  {
    ProbePath(t, q, e.psl);
    assert Fits(t, q, t[q]);
  }

  /** The carried entry takes the slot and its old entry is carried on. */
  function Swapped(t: seq<Entry>, w: Walk): Walk
    requires w.i < |t|
  {
    Walk(Further(t[w.i]), Next(|t|, w.i), w.q,
         if w.re.None? then Some(w.i) else w.re, w.i)
  }

  lemma ChainSwap(t0: seq<Entry>, t: seq<Entry>, e0: Entry, w: Walk)
    requires Chain(t0, t, e0, w)
    requires Occupied(t[w.i]) && w.e.psl > t[w.i].psl && !Occupied(t0[w.q])
    ensures w.i != w.q
    ensures Chain(t0, t[w.i := w.e], e0, Swapped(t, w))
  {
    CarrySwap(t0, t, e0, w);
    SameHere(t0, t, e0, w);
    hide Carrying, Route;
    RouteSwap(t0, e0, w);
  }

  lemma SameHere(t0: seq<Entry>, t: seq<Entry>, e0: Entry, w: Walk)
    requires Carrying(t0, t, e0, w)
    ensures t[w.i] == t0[w.i]
  {}

  lemma CarrySwap(t0: seq<Entry>, t: seq<Entry>, e0: Entry, w: Walk)
    requires Carrying(t0, t, e0, w)
    requires Occupied(t[w.i]) && w.e.psl > t[w.i].psl && !Occupied(t0[w.q])
    ensures w.i != w.q && t[w.i].psl + 1 < |t|
    ensures Carrying(t0, t[w.i := w.e], e0, Swapped(t, w))
  {
    hide Content, IsPow2, BitAnd;
    var e, i, q := w.e, w.i, w.q;
    var u, f := t[i := e], t[i];
    assert Fits(t, i, f);
    RoomAhead(t, i, f, q);
    assert Ordered(u) && Fits(u, Next(|t|, i), f.(psl := f.psl + 1)) by {
      Settle(t, i, e);
      StepOn(u, i, f);
    }
    assert Content(u) + multiset{CoreOf(f)} == Content(t) + multiset{CoreOf(e)} by {
      ContentUpdate(t, i, e);
      Exchange(Content(t), CoreOf(f), CoreOf(e));
    }
    assert i != Next(|t|, q);
    assert CoreOf(Swapped(t, w).e) == CoreOf(f);
  }

  lemma RouteSwap(t0: seq<Entry>, e0: Entry, w: Walk)
    requires 2 <= |t0| <= 0x1_0000 && w.i < |t0| && w.q < |t0| && w.i != w.q
    requires Ordered(t0) && Route(t0, e0, w)
    requires Occupied(t0[w.i]) && w.e.psl > t0[w.i].psl && t0[w.i].psl + 1 < |t0|
    ensures Route(t0, e0, Swapped(t0, w))
  {
    hide BitAnd, IsPow2, Ordered, Dist, Home, Next, Prev;
    var cap, start := |t0|, Home(|t0|, e0.hash);
    FitsAt(t0, w.i);
    StepFacts(cap, start, w.i);
    StepFacts(cap, w.i, w.i);
    if w.re.Some? { Between(cap, start, w.a, w.i); }
    OneOn(cap, start, w.i, w.q);
  }

  /** The chain ends in an empty slot: exactly one entry was added, and a stop remains. */
  lemma ChainEnd(t0: seq<Entry>, t: seq<Entry>, e0: Entry, w: Walk)
    requires Chain(t0, t, e0, w)
    requires !Occupied(t[w.i]) && !Occupied(t0[w.q])
    ensures var u, r := t[w.i := w.e], if w.re.None? then w.i else w.re.value;
            && Ordered(u) && HasStop(u) && CoreOf(u[r]) == CoreOf(e0)
            && Content(u) == Content(t0) - multiset{Free} + multiset{CoreOf(e0)}
            && Free in Content(t0)
  {
    hide Content, BitAnd, IsPow2, HasStop, Ordered;
    Settle(t, w.i, w.e);
    ChainStop(t0, t, e0, w);
    ContentUpdate(t, w.i, w.e);
    ContentMember(t0, w.q);
    ExchangeBoth(Content(t), CoreOf(w.e), Content(t0), CoreOf(e0), Free);
  }

  lemma ChainStop(t0: seq<Entry>, t: seq<Entry>, e0: Entry, w: Walk)
    requires Carrying(t0, t, e0, w) && !Occupied(t[w.i]) && !Occupied(t0[w.q])
    ensures HasStop(t[w.i := w.e])
  {
    hide Content, BitAnd, IsPow2;
    var u, q := t[w.i := w.e], w.q;
    if w.i == q {
      var n := Next(|t|, q);
      if Occupied(t0[n]) { assert Fits(t0, n, t0[n]); }
      assert IsStop(u[n]);
    } else {
      assert IsStop(u[q]);
    }
  }

  // ---- when a chain carries an entry into its twin ----

  /** A displaced entry that agrees with the slot in the way on hash and key length. */
  lemma TwinMet(t0: seq<Entry>, t: seq<Entry>, e0: Entry, w: Walk)
    requires Chain(t0, t, e0, w) && w.re.Some? && Occupied(t0[w.i])
    requires t0[w.i].hash == w.e.hash && t0[w.i].klen == w.e.klen
    ensures Meets(t0, Home(|t0|, e0.hash), w.a, w.i)
  {
    assert Fits(t0, w.i, t0[w.i]);
    assert Fits(t0, w.a, t0[w.a]);
    var cap, start := |t0|, Home(|t0|, e0.hash);
    assert Dist(cap, w.a, w.i) > 0;
    forall j | 0 <= j < cap && Dist(cap, start, j) <= Dist(cap, start, w.i)
      ensures Occupied(t0[j])
    {
      if Dist(cap, start, j) == Dist(cap, start, w.i) { assert j == w.i; }
    }
  }

  /** A chain bound to carry slot `a` into its twin `b` is on its way: not past `b`, and past `a` only
      with the entry of `a` in hand. */
  ghost predicate Bound(t0: seq<Entry>, e0: Entry, w: Walk, a: nat, b: nat) {
    && |t0| > 0 && w.i < |t0| && Meets(t0, Home(|t0|, e0.hash), a, b)
    && Dist(|t0|, Home(|t0|, e0.hash), w.i) <= Dist(|t0|, Home(|t0|, e0.hash), b)
    && (Dist(|t0|, Home(|t0|, e0.hash), w.i) > Dist(|t0|, Home(|t0|, e0.hash), a) ==> w.re.Some? && w.a == a)
  }

  /** Home `h`, slots `a`, `i` and `b` in this order on the way from `start`. */
  lemma InTurn(cap: nat, start: nat, h: nat, a: nat, i: nat, b: nat)
    requires start < cap && h < cap && a < cap && i < cap && b < cap
    requires Dist(cap, h, a) < Dist(cap, start, a) < Dist(cap, start, i) <= Dist(cap, start, b)
    ensures Dist(cap, h, a) + Dist(cap, a, i) == Dist(cap, h, i) <= Dist(cap, h, b)
    ensures At(cap, h, Dist(cap, h, i)) == i && (i == b <==> Dist(cap, h, i) == Dist(cap, h, b))
  {}

  /** Past slot `a` the entry in hand has its probe length in slot `b`, or is on its probe path there. */
  lemma BoundAhead(t0: seq<Entry>, e0: Entry, w: Walk, a: nat, b: nat)
    requires |t0| > 0 && w.i < |t0| && w.q < |t0| && Home(|t0|, e0.hash) < |t0|
    requires Ordered(t0) && Route(t0, e0, w) && Bound(t0, e0, w, a, b)
    requires Dist(|t0|, Home(|t0|, e0.hash), w.i) > Dist(|t0|, Home(|t0|, e0.hash), a)
    ensures w.e.psl <= t0[w.i].psl
  {
    hide BitAnd, IsPow2, Content, Ordered, Home, Dist, At, Next, Prev;
    FitsAt(t0, a);
    FitsAt(t0, b);
    InTurn(|t0|, Home(|t0|, e0.hash), Home(|t0|, t0[a].hash), a, w.i, b);
    ProbePath(t0, b, w.e.psl);
  }

  lemma BoundFacts(t0: seq<Entry>, t: seq<Entry>, e0: Entry, w: Walk, a: nat, b: nat)
    requires Chain(t0, t, e0, w) && Bound(t0, e0, w, a, b)
    ensures Occupied(t0[w.i])
    ensures w.i == b ==> w.re.Some? && t0[w.i].hash == w.e.hash && t0[w.i].klen == w.e.klen
    ensures w.i == a ==> w.e.psl > t0[a].psl
    ensures Dist(|t0|, Home(|t0|, e0.hash), w.i) > Dist(|t0|, Home(|t0|, e0.hash), a) && w.i != b ==>
              w.e.psl <= t0[w.i].psl
  {
    hide BitAnd, IsPow2, Content, Ordered, Carrying, Home, At, Next;
    InChain(t0, t, e0, w);
    if Dist(|t0|, Home(|t0|, e0.hash), w.i) > Dist(|t0|, Home(|t0|, e0.hash), a) {
      BoundAhead(t0, e0, w, a, b);
    }
  }

  lemma BoundStep(t0: seq<Entry>, t: seq<Entry>, e0: Entry, w: Walk, w': Walk, a: nat, b: nat)
    requires Chain(t0, t, e0, w) && Bound(t0, e0, w, a, b) && w.i != b && w.i != w.q
    requires w' == if w.e.psl > t0[w.i].psl then Swapped(t0, w) else Skipped(|t0|, w)
    ensures Bound(t0, e0, w', a, b)
  {
    hide BitAnd, IsPow2, Content, Ordered, Carrying, Dist, Home, Next, Prev;
    InChain(t0, t, e0, w);
    BoundFacts(t0, t, e0, w, a, b);
    StepFacts(|t0|, Home(|t0|, e0.hash), w.i);
    OneOn(|t0|, Home(|t0|, e0.hash), w.i, w.q);
  }

  lemma InChain(t0: seq<Entry>, t: seq<Entry>, e0: Entry, w: Walk)
    requires Chain(t0, t, e0, w)
    ensures w.i < |t| == |t0| && w.q < |t| && |t0| >= 2 && Route(t0, e0, w) && Home(|t0|, e0.hash) < |t0|
    ensures Ordered(t0)
  {}

  // ---- backward-shift removal ----

  /** Removing slot `p` has moved `n` entries back by one; position `At(p, n)` is the hole, which
      still holds a stale copy. */
  ghost predicate Shifted(t0: seq<Entry>, t: seq<Entry>, p: nat, n: nat) {
    && Moved(t0, t, p, n)
    && Content(t) - multiset{CoreOf(t[At(|t|, p, n)])} == Content(t0) - multiset{CoreOf(t0[p])}
  }

  ghost predicate Moved(t0: seq<Entry>, t: seq<Entry>, p: nat, n: nat) {
    && 2 <= |t| == |t0| <= 0x1_0000 && p < |t| && n < |t| && Occupied(t0[p])
    && forall j {:trigger MovedAt(t0, t, p, n, j)} :: 0 <= j < |t| ==> MovedAt(t0, t, p, n, j)
  }

  ghost predicate MovedAt(t0: seq<Entry>, t: seq<Entry>, p: nat, n: nat, j: nat)
    requires j < |t| == |t0|
  {
    var k, next := Dist(|t|, p, j), t0[Next(|t|, j)];
    && (1 <= k <= n ==> Occupied(t0[j]) && t0[j].psl > 0)
    && (k < n ==> Occupied(next) && next.psl > 0 && t[j] == next.(psl := next.psl - 1))
    && (k > n ==> t[j] == t0[j])
  }

  /** The code writes the decremented entry both where it was and where it goes. */
  lemma ShiftStep(t0: seq<Entry>, t: seq<Entry>, p: nat, n: nat)
    requires Shifted(t0, t, p, n) && n + 1 < |t|
    requires var i := At(|t|, p, n + 1); Occupied(t[i]) && t[i].psl > 0
    ensures var i, h := At(|t|, p, n + 1), At(|t|, p, n);
            var e := t[i].(psl := t[i].psl - 1);
            Shifted(t0, t[i := e][h := e], p, n + 1)
  {
    var i, h := At(|t|, p, n + 1), At(|t|, p, n);
    var e := t[i].(psl := t[i].psl - 1);
    ShiftContent(t, i, h, e);
    MovedStep(t0, t, p, n);
  }

  lemma MovedStep(t0: seq<Entry>, t: seq<Entry>, p: nat, n: nat)
    requires Moved(t0, t, p, n) && n + 1 < |t|
    requires var i := At(|t|, p, n + 1); Occupied(t[i]) && t[i].psl > 0
    ensures var i, h := At(|t|, p, n + 1), At(|t|, p, n);
            var e := t[i].(psl := t[i].psl - 1);
            Moved(t0, t[i := e][h := e], p, n + 1)
  {
    var i, h := At(|t|, p, n + 1), At(|t|, p, n);
    var e := t[i].(psl := t[i].psl - 1);
    assert MovedAt(t0, t, p, n, i);
    var v := t[i := e][h := e];
    var n' := n + 1;
    forall j {:trigger MovedAt(t0, v, p, n', j)} | 0 <= j < |v|
      ensures MovedAt(t0, v, p, n', j)
    {
      assert MovedAt(t0, t, p, n, j);
      if Dist(|t|, p, j) == n {
        assert j == h && i == Next(|t|, h);
      } else if Dist(|t|, p, j) == n + 1 {
        assert j == i;
      } else {
        assert j != h && j != i;
      }
    }
  }

  lemma ShiftContent(t: seq<Entry>, i: nat, h: nat, e: Entry)
    requires i < |t| && h < |t| && i != h && CoreOf(e) == CoreOf(t[i])
    ensures var v := t[i := e][h := e];
            Content(v) - multiset{CoreOf(v[i])} == Content(t) - multiset{CoreOf(t[h])}
  {
    var u := t[i := e];
    ContentUpdate(t, i, e);
    ContentUpdate(u, h, e);
    assert Content(u) == Content(t);
    PutTake(Content(u), CoreOf(u[h]), CoreOf(e));
  }

  lemma PutTake<T>(m: multiset<T>, a: T, b: T)
    requires a in m
    ensures m - multiset{a} + multiset{b} - multiset{b} == m - multiset{a}
  {}

  /** After a full turn the scan is back at the first slot it filled, and stops there: since some slot
      of the old table was a stop, it was the removed one, so its successor was one step from home. */
  lemma ShiftWraps(t0: seq<Entry>, t: seq<Entry>, p: nat, n: nat)
    requires Shifted(t0, t, p, n) && n + 1 == |t0| && Ordered(t0) && HasStop(t0)
    ensures IsStop(t[p]) && Occupied(t[p])
  {
    var z :| 0 <= z < |t0| && IsStop(t0[z]);
    assert MovedAt(t0, t, p, n, z) && MovedAt(t0, t, p, n, p);
    assert z == p;
    var j := Next(|t0|, p);
    assert MovedAt(t0, t, p, n, j);
    assert Fits(t0, j, t0[j]);
  }

  /** Clearing the hole ends the removal. */
  lemma ShiftEnd(t0: seq<Entry>, t: seq<Entry>, p: nat, n: nat, e: Entry)
    requires Shifted(t0, t, p, n) && Ordered(t0) && HasStop(t0) && !Occupied(e)
    requires n + 1 < |t| ==> IsStop(t[At(|t|, p, n + 1)])
    ensures var u := t[At(|t|, p, n) := e];
            && Ordered(u) && HasStop(u)
            && Content(u) == Content(t0) - multiset{CoreOf(t0[p])} + multiset{Free}
  {
    var h := At(|t|, p, n);
    var u := t[h := e];
    assert IsStop(u[h]);
    ContentUpdate(t, h, e);
    if n + 1 == |t| { ShiftWraps(t0, t, p, n); }
    forall j | 0 <= j < |u| && Occupied(u[j])
      ensures Fits(u, j, u[j])
    {
      ShiftedFits(t0, t, p, n, e, j);
    }
  }

  lemma ShiftedFits(t0: seq<Entry>, t: seq<Entry>, p: nat, n: nat, e: Entry, j: nat)
    requires Shifted(t0, t, p, n) && Ordered(t0) && !Occupied(e)
    requires if n + 1 < |t| then IsStop(t[At(|t|, p, n + 1)]) else IsStop(t[p])
    requires var u := t[At(|t|, p, n) := e]; j < |u| && Occupied(u[j])
    ensures var u := t[At(|t|, p, n) := e]; Fits(u, j, u[j])
  {
    hide BitAnd;
    var cap, h, b := |t|, At(|t|, p, n), Prev(|t|, j);
    assert MovedAt(t0, t, p, n, j) && MovedAt(t0, t, p, n, b) && MovedAt(t0, t, p, n, p);
    assert Fits(t0, j, t0[j]);
    if Dist(cap, p, j) < n {
      var i := Next(cap, j);
      assert Fits(t0, i, t0[i]);
      assert t[j].psl == Dist(cap, Home(cap, t[j].hash), j);
      if j != p {
        assert Dist(cap, p, b) == Dist(cap, p, j) - 1 && b != h;
      } else if n + 1 < cap {
        assert Dist(cap, p, b) == cap - 1 && b != h;
      }
    } else if Dist(cap, p, j) > n + 1 {
      assert Dist(cap, p, b) == Dist(cap, p, j) - 1 && b != h;
    } else {
      assert j == At(cap, p, n + 1);
    }
  }
}
