/** Slots, keys and data cells taken together, over values: which slot belongs to which key, and what
    the chain that inserts a key makes of the table. */
module OashSpec {
  import opened Words
  import opened RobinHood

  /** How `n_oash_put_entry` ends; `Aborted` is its failing assertion. */
  datatype Outcome = Found | Added | Aborted

  // ---- comparing keys ----

  /** The byte at `i`; past the end stands the terminating NUL. */
  function ByteAt(s: seq<u8>, i: nat): u8 { if i < |s| then s[i] else 0 }

  /** `strncmp(a, b, n) == 0`, from position `i` on. */
  predicate SameUpTo(a: seq<u8>, b: seq<u8>, n: nat, i: nat)
    decreases n - i
  {
    i >= n || (ByteAt(a, i) == ByteAt(b, i) && (ByteAt(a, i) == 0 || SameUpTo(a, b, n, i + 1)))
  }

  lemma {:induction false} SameFrom(a: Key, b: Key, i: nat)
    requires i <= |a| && (i <= |b| ==> a[..i] == b[..i]) && i <= |b|
    ensures SameUpTo(a, b, |a|, i) <==> a <= b
    decreases |a| - i
  {
    if i < |a| {
      assert a[i] in a && a[i] != 0;
      if i < |b| && a[i] == b[i] {
        assert a[..i + 1] == a[..i] + [a[i]] && b[..i + 1] == b[..i] + [b[i]];
        SameFrom(a, b, i + 1);
      }
    } else {
      assert a[..i] == a;
    }
  }

  /** Comparing as many bytes as `a` has asks whether `a` is a prefix of `b`: it decides equality only
      for keys of equal length. */
  lemma SameIsPrefix(a: Key, b: Key)
    ensures SameUpTo(a, b, |a|, 0) <==> a <= b
    ensures |a| == |b| ==> (a <= b <==> a == b)
  {
    SameFrom(a, b, 0);
  }

  // ---- the keys of the data cells ----

  /** Zero marks an empty slot, so a zero hash is replaced. */
  function HashOf(raw: Key -> u32, key: Key): (h: u32)
    ensures h != 0 && (raw(key) != 0 ==> h == raw(key))
  {
    if raw(key) != 0 then raw(key) else 1
  }

  /** The slot content of a key whose dentry is in cell `j`. */
  function KeyCore(raw: Key -> u32, key: Key, j: u32): Core { Used(HashOf(raw, key), |key|, j) }

  /** Every used cell is the cell of its key. */
  ghost predicate CellsOwned(d: seq<Option<Key>>, m: map<Key, nat>) {
    forall j :: 0 <= j < |d| && d[j].Some? ==> d[j].value in m && m[d[j].value] == j
  }

  /** Slots, keys and data cells are in bijection. */
  ghost predicate Linked(raw: Key -> u32, t: seq<Entry>, d: seq<Option<Key>>, m: map<Key, nat>) {
    && |d| <= 0x1_0000
    && CellsOwned(d, m)
    && (forall k :: k in m ==> m[k] < |d| && d[m[k]] == Some(k) && Content(t)[KeyCore(raw, k, m[k])] == 1)
    && (forall c :: c in Content(t) && c.Used? ==>
          c.dataIndex < |d| && d[c.dataIndex].Some? && c == KeyCore(raw, d[c.dataIndex].value, c.dataIndex))
  }

  ghost function CellKeys(d: seq<Option<Key>>, n: nat): set<Key>
    requires n <= |d| && forall j :: 0 <= j < n ==> d[j].Some?
  {
    set j | 0 <= j < n :: d[j].value
  }

  lemma {:induction false} CellKeysCount(d: seq<Option<Key>>, m: map<Key, nat>, n: nat)
    requires CellsOwned(d, m) && n <= |d| && forall j :: 0 <= j < n ==> d[j].Some?
    ensures CellKeys(d, n) <= m.Keys && |CellKeys(d, n)| == n
  {
    if n > 0 {
      CellKeysCount(d, m, n - 1);
      assert CellKeys(d, n) == CellKeys(d, n - 1) + {d[n - 1].value};
      assert d[n - 1].value !in CellKeys(d, n - 1);
    }
  }

  /** As long as there are fewer keys than cells, some cell is free. */
  lemma FreeCell(d: seq<Option<Key>>, m: map<Key, nat>) returns (f: nat)
    requires CellsOwned(d, m) && |m| < |d|
    ensures f < |d| && d[f].None?
  {
    if forall j :: 0 <= j < |d| ==> d[j].Some? {
      CellKeysCount(d, m, |d|);
      SubsetSize(CellKeys(d, |d|), m.Keys);
      assert false;
    }
    f :| 0 <= f < |d| && d[f].None?;
  }

  lemma {:induction false} SubsetSize<T>(a: set<T>, b: set<T>)
    requires a <= b
    ensures |a| <= |b|
  {
    if a != {} {
      var x :| x in a;
      SubsetSize(a - {x}, b - {x});
    }
  }

  // ---- consequences ----

  lemma KeyAt(raw: Key -> u32, t: seq<Entry>, d: seq<Option<Key>>, m: map<Key, nat>, key: Key) returns (p: nat)
    requires Linked(raw, t, d, m) && key in m
    ensures p < |t| && CoreOf(t[p]) == KeyCore(raw, key, m[key])
  {
    p := ContentIndex(t, KeyCore(raw, key, m[key]));
  }

  /** What the key test of the code says about an occupied slot. */
  lemma MatchFacts(raw: Key -> u32, t: seq<Entry>, d: seq<Option<Key>>, m: map<Key, nat>, key: Key, i: nat)
    requires Linked(raw, t, d, m) && i < |t| && Occupied(t[i])
    ensures t[i].dataIndex < |d| && d[t[i].dataIndex].Some?
    ensures var k := d[t[i].dataIndex].value;
            && CoreOf(t[i]) == KeyCore(raw, k, t[i].dataIndex)
            && (k == key ==> key in m && CoreOf(t[i]) == KeyCore(raw, key, m[key])
                             && t[i].hash == HashOf(raw, key) && t[i].klen == |key|)
            && (key in m && CoreOf(t[i]) == KeyCore(raw, key, m[key]) ==> k == key)
            && (SameUpTo(k, key, t[i].klen, 0) <==> k <= key)
            && (SameUpTo(key, k, |key|, 0) <==> key <= k)
            && (t[i].klen == |key| && (k <= key || key <= k) ==> k == key)
  {
    ContentMember(t, i);
    var k := d[t[i].dataIndex].value;
    assert CoreOf(t[i]) == KeyCore(raw, k, t[i].dataIndex);
    SameIsPrefix(k, key);
    SameIsPrefix(key, k);
  }

  lemma OneSlot(raw: Key -> u32, t: seq<Entry>, d: seq<Option<Key>>, m: map<Key, nat>, key: Key, i: nat, p: nat)
    requires Linked(raw, t, d, m) && key in m && i < |t| && p < |t|
    requires CoreOf(t[i]) == KeyCore(raw, key, m[key]) == CoreOf(t[p])
    ensures i == p
  {
    ContentUnique(t, i, p);
  }

  // ---- inserting ----

  /** The test of the code in a slot: the slot against the carried entry, its key against the new key. */
  predicate KeyTest(slot: Entry, carried: Entry, slotKey: Key, key: Key) {
    slot.hash == carried.hash && slot.klen == carried.klen && SameUpTo(slotKey, key, slot.klen, 0)
  }

  /** One insertion: the new entry, its key unless it is known to be new, and what it finds. */
  datatype Job = Job(raw: Key -> u32, t: seq<Entry>, d: seq<Option<Key>>, m: map<Key, nat>,
                     key: Option<Key>, e: Entry)
  {
    ghost predicate Valid() {
      && 2 <= |t| <= 0x1_0000 && IsPow2(|t|) && Ordered(t) && Occupied(e)
      && (key.Some? ==> Linked(raw, t, d, m) && e.hash == HashOf(raw, key.value) && e.klen == |key.value|)
    }

    ghost predicate Present() { key.Some? && key.value in m }

    /** Inserting the key displaces an entry and carries it into another entry of the same hash and key
        length whose key is a prefix of the new key. */
    ghost predicate Clash() {
      key.Some? && !Present() && |t| > 0 && exists a, b :: ClashAt(a, b)
    }

    ghost predicate ClashAt(a: nat, b: nat) {
      && key.Some? && |t| > 0 && Meets(t, Home(|t|, e.hash), a, b)
      && t[b].dataIndex < |d| && d[t[b].dataIndex].Some? && d[t[b].dataIndex].value <= key.value
    }

    /** On the way from home to the empty slot `q` no entry is nearer to its home than the new one is to its
        own, so nothing is displaced. */
    ghost predicate StraightTo(q: nat) {
      && q < |t| && !Occupied(t[q])
      && forall j {:trigger t[j]} ::
           0 <= j < |t| && Dist(|t|, Home(|t|, e.hash), j) < Dist(|t|, Home(|t|, e.hash), q) ==>
           Occupied(t[j]) && t[j].psl >= Dist(|t|, Home(|t|, e.hash), j)
    }

    /** The table with the new entry in slot `q`. */
    ghost predicate SettledAt(u: seq<Entry>, q: nat) {
      q < |t| && 0 <= Dist(|t|, Home(|t|, e.hash), q) < 0x1_0000
      && u == t[q := e.(psl := Dist(|t|, Home(|t|, e.hash), q))]
    }

    /** What the insertion makes of the table: it finds the key where it is and changes nothing; or it
        fails its assertion, exactly when there is a clash; or the table gains exactly the new entry, in
        slot `re`. */
    ghost predicate Placed(u: seq<Entry>, re: nat, outcome: Outcome) {
      && Valid() && re < |u| == |t|
      && (outcome == Found <==> Present())
      && (outcome == Aborted <==> Clash())
      && (outcome == Found ==> u == t && CoreOf(u[re]) == KeyCore(raw, key.value, m[key.value]))
      && (outcome == Added ==>
            && Ordered(u) && HasStop(u) && CoreOf(u[re]) == CoreOf(e) && Free in Content(t)
            && Content(u) == Content(t) - multiset{Free} + multiset{CoreOf(e)})
      && (outcome == Added ==> forall q: nat :: StraightTo(q) ==> re == q && SettledAt(u, q))
    }

    /** The table with the new entry and its dentry. */
    ghost predicate Into(t': seq<Entry>, d': seq<Option<Key>>, m': map<Key, nat>) {
      key.Some? && exists u: seq<Entry>, re: nat, j: u32 :: IntoAt(u, re, j, t', d', m')
    }

    ghost predicate IntoAt(u: seq<Entry>, re: nat, j: u32, t': seq<Entry>, d': seq<Option<Key>>, m': map<Key, nat>)
      requires key.Some?
    {
      && Placed(u, re, Added) && j < |d| && d[j].None?
      && t' == u[re := u[re].(dataIndex := j)] && d' == d[j := key] && m' == m[key.value := j]
    }

    /** The loop invariant of the insertion. */
    ghost predicate Going(u: seq<Entry>, w: Walk) {
      && Valid() && Chain(t, u, e, w) && w.q < |t|
      && (if Present()
          then w.re.None? && Hunting(t, w.e, w.i, w.q) && CoreOf(t[w.q]) == KeyCore(raw, key.value, m[key.value])
          else !Occupied(t[w.q]))
      && (Clash() ==> exists a: nat, b: nat :: ClashAt(a, b) && Bound(t, e, w, a, b))
      && (w.re.Some? ==> forall q: nat :: !StraightTo(q))
    }

    /** Where a straight chain is, it has displaced nothing, and it ends in the slot it is straight to. */
    lemma Straight(u: seq<Entry>, w: Walk, q: nat)
      requires Chain(t, u, e, w) && w.re.None? && StraightTo(q)
      ensures Occupied(t[w.i]) ==> w.e.psl <= t[w.i].psl
      ensures !Occupied(t[w.i]) ==> w.i == q && SettledAt(u[w.i := w.e], q)
    {
      hide BitAnd, IsPow2;
    }

    /** Nothing is displaced, so nothing clashes. */
    lemma StraightNoClash(q: nat)
      requires StraightTo(q)
      ensures !Clash()
    {
      hide BitAnd, IsPow2;
    }

    lemma Start() returns (q: nat)
      requires Valid() && (Present() || HasFree(t))
      ensures Going(t, Walk(e.(psl := 0), BitAnd(e.hash, |t| - 1), q, None, 0))
    {
      if Present() {
        q := KeyAt(raw, t, d, m, key.value);
      } else {
        q :| 0 <= q < |t| && !Occupied(t[q]);
      }
      ChainStart(t, e, q);
      var w := Walk(e.(psl := 0), Home(|t|, e.hash), q, None, 0);
      if Clash() {
        var a: nat, b: nat :| ClashAt(a, b);
        assert Bound(t, e, w, a, b);
      }
    }

    /** At an empty slot the insertion succeeds, and no clash was lurking. */
    lemma Stop(u: seq<Entry>, w: Walk)
      requires Going(u, w) && w.i < |u| && !Occupied(u[w.i])
      ensures Placed(u[w.i := w.e], if w.re.None? then w.i else w.re.value, Added)
    {
      hide Chain, Bound, Hunting, Content, Ordered, Linked, StraightTo, SettledAt;
      ChainFacts(t, u, e, w);
      if Present() {
        HuntingFacts(t, w.e, w.i, w.q);
      } else {
        if Clash() {
          var a: nat, b: nat :| ClashAt(a, b) && Bound(t, e, w, a, b);
          BoundFacts(t, u, e, w, a, b);
          assert false;
        }
        ChainEnd(t, u, e, w);
        SameOccupied(u, w);
        forall q: nat | StraightTo(q)
          ensures w.re.None? && w.i == q && SettledAt(u[w.i := w.e], q)
        {
          Straight(u, w, q);
        }
      }
    }

    lemma SameOccupied(u: seq<Entry>, w: Walk)
      requires Chain(t, u, e, w)
      ensures w.i < |u| == |t| && u[w.i] == t[w.i]
    {
      ChainFacts(t, u, e, w);
    }

    lemma SlotFacts(u: seq<Entry>, w: Walk)
      requires Going(u, w) && key.Some? && w.i < |u| && Occupied(u[w.i])
      ensures |u| == |t| && u[w.i] == t[w.i] && u[w.i].dataIndex < |d| && d[u[w.i].dataIndex].Some?
    {
      hide Chain, Bound, Hunting, Content, Ordered, Meets;
      ChainFacts(t, u, e, w);
      MatchFacts(raw, t, d, m, key.value, w.i);
    }

    /** A slot that passes the key test is the slot of the key, unless a displaced entry is carried:
        then the assertion fails, and a clash is why. */
    lemma Match(u: seq<Entry>, w: Walk)
      requires Going(u, w) && key.Some? && w.i < |u| && Occupied(u[w.i])
      requires u[w.i].dataIndex < |d| && d[u[w.i].dataIndex].Some?
      requires KeyTest(u[w.i], w.e, d[u[w.i].dataIndex].value, key.value)
      ensures Placed(u, w.i, if w.re.Some? then Aborted else Found)
    {
      hide Chain, Bound, Hunting, Content, Ordered, Meets, Linked;
      ChainFacts(t, u, e, w);
      MatchFacts(raw, t, d, m, key.value, w.i);
      if w.re.Some? {
        TwinMet(t, u, e, w);
        assert ClashAt(w.a, w.i);
      }
    }

    /** A slot that fails the test is not the one the insertion is bound for. */
    lemma NotThere(u: seq<Entry>, w: Walk)
      requires Going(u, w) && key.Some? && w.i < |u| && Occupied(u[w.i])
      requires u[w.i].dataIndex < |d| && d[u[w.i].dataIndex].Some?
      requires !KeyTest(u[w.i], w.e, d[u[w.i].dataIndex].value, key.value)
      ensures Present() ==> w.i != w.q
      ensures forall a: nat, b: nat :: ClashAt(a, b) && Bound(t, e, w, a, b) ==> w.i != b
    {
      hide Chain, Bound, Hunting, Content, Ordered, Meets;
      ChainFacts(t, u, e, w);
      MatchFacts(raw, t, d, m, key.value, w.i);
      forall a: nat, b: nat | ClashAt(a, b) && Bound(t, e, w, a, b)
        ensures w.i != b
      {
        BoundFacts(t, u, e, w, a, b);
      }
    }

    /** Both ways of going on: swapping when the carried entry is further from home, or passing. */
    lemma On(u: seq<Entry>, w: Walk)
      requires Going(u, w) && w.i < |u| && Occupied(u[w.i])
      requires key.Some? ==> u[w.i].dataIndex < |d| && d[u[w.i].dataIndex].Some?
                             && !KeyTest(u[w.i], w.e, d[u[w.i].dataIndex].value, key.value)
      ensures w.q < |u| && 0 <= Dist(|u|, Next(|u|, w.i), w.q) < Dist(|u|, w.i, w.q)
      ensures if w.e.psl > u[w.i].psl then Going(u[w.i := w.e], Swapped(u, w)) else Going(u, Skipped(|u|, w))
    {
      hide Chain, Bound, Hunting, Content, Ordered, Linked, ClashAt, StraightTo;
      ChainFacts(t, u, e, w);
      forall q: nat | StraightTo(q)
        ensures w.e.psl <= u[w.i].psl
      {
        Straight(u, w, q);
      }
      if key.Some? { NotThere(u, w); }
      if Present() { HuntingFacts(t, w.e, w.i, w.q); }
      if w.e.psl > u[w.i].psl {
        ChainSwap(t, u, e, w);
      } else {
        ChainSkip(t, u, e, w);
      }
      if Clash() {
        var a: nat, b: nat :| ClashAt(a, b) && Bound(t, e, w, a, b);
        BoundStep(t, u, e, w, if w.e.psl > u[w.i].psl then Swapped(t, w) else Skipped(|t|, w), a, b);
      }
    }

    /** The same in the terms of the code. */
    lemma Forward(u: seq<Entry>, w: Walk)
      requires Going(u, w) && w.i < |u| && Occupied(u[w.i])
      requires key.Some? ==> u[w.i].dataIndex < |d| && d[u[w.i].dataIndex].Some?
                             && !KeyTest(u[w.i], w.e, d[u[w.i].dataIndex].value, key.value)
      ensures var i' := BitAnd(w.i + 1, |u| - 1);
              && i' < |u| && w.q < |u| && 0 <= Dist(|u|, i', w.q) < Dist(|u|, w.i, w.q)
              && if w.e.psl > u[w.i].psl
                 then Going(u[w.i := w.e], Walk(Further(u[w.i]), i', w.q, if w.re.None? then Some(w.i) else w.re, w.i))
                 else Going(u, Walk(Further(w.e), i', w.q, w.re, w.a))
    {
      hide Going, IsPow2, BitAnd, Clash, ClashAt, Linked, KeyTest, Occupied;
      Size(u, w);
      MaskedStep(|u|, w.i);
      On(u, w);
    }

    lemma Size(u: seq<Entry>, w: Walk)
      requires Going(u, w)
      ensures IsPow2(|u|) && |u| == |t|
    {}
  }

  // ---- the whole table ----

  /** The invariant of the table: `m` maps each of its `n` keys to its data cell. */
  ghost predicate State(raw: Key -> u32, t: seq<Entry>, d: seq<Option<Key>>, m: map<Key, nat>, n: nat) {
    && IsPow2(|t|) && 4 <= |t| <= 0x1_0000 && |d| == |t|
    && Ordered(t) && HasStop(t) && Linked(raw, t, d, m)
    && n == |m| && n + Content(t)[Free] == |t|
  }

  lemma {:induction false} NoContent(t: seq<Entry>)
    requires forall i :: 0 <= i < |t| ==> !Occupied(t[i])
    ensures Content(t) == multiset{}[Free := |t|]
    ensures Ordered(t)
    decreases |t|
  {
    var c := Cores(t);
    if |t| == 0 {
      assert c == [];
    } else {
      var n := |t| - 1;
      NoContent(t[..n]);
      assert c == Cores(t[..n]) + [Free];
    }
  }

  lemma StateEmpty(raw: Key -> u32, t: seq<Entry>, d: seq<Option<Key>>)
    requires IsPow2(|t|) && 4 <= |t| <= 0x1_0000 && |d| == |t|
    requires forall i :: 0 <= i < |t| ==> !Occupied(t[i])
    requires forall j :: 0 <= j < |d| ==> d[j].None?
    ensures State(raw, t, d, map[], 0)
  {
    NoContent(t);
    assert IsStop(t[0]);
  }

  /** A table that is not full has a free slot and a free cell. */
  lemma StateRoom(raw: Key -> u32, t: seq<Entry>, d: seq<Option<Key>>, m: map<Key, nat>, n: nat)
    requires State(raw, t, d, m, n) && n < |t|
    ensures HasFree(t)
    ensures exists f :: 0 <= f < |d| && d[f].None?
  {
    var i := ContentIndex(t, Free);
    var f := FreeCell(d, m);
  }

  // ---- a new key ----

  /** The new slot gets its data index only after the chain has run. */
  lemma SetIndex(t: seq<Entry>, i: nat, j: u32)
    requires i < |t| && Ordered(t) && HasStop(t) && Occupied(t[i])
    ensures var u := t[i := t[i].(dataIndex := j)];
            && Ordered(u) && HasStop(u)
            && CoreOf(t[i]) in Content(t)
            && Content(u) == Content(t) - multiset{CoreOf(t[i])} + multiset{CoreOf(t[i]).(dataIndex := j)}
  {
    var u := t[i := t[i].(dataIndex := j)];
    ContentUpdate(t, i, u[i]);
    var z :| 0 <= z < |t| && IsStop(t[z]);
    assert IsStop(u[z]);
    forall k | 0 <= k < |u| && Occupied(u[k])
      ensures Fits(u, k, u[k])
    {
      assert Fits(t, k, t[k]);
    }
  }

  lemma LinkedInsert(raw: Key -> u32, t: seq<Entry>, d: seq<Option<Key>>, m: map<Key, nat>,
                     u: seq<Entry>, key: Key, j: nat)
    requires Linked(raw, t, d, m) && key !in m && j < |d| && d[j].None?
    requires Content(u) == Content(t) - multiset{Free} + multiset{KeyCore(raw, key, j)}
    ensures Linked(raw, u, d[j := Some(key)], m[key := j])
  {
    hide Content;
    var d', m' := d[j := Some(key)], m[key := j];
    var c := KeyCore(raw, key, j);
    assert Content(t)[c] == 0;
    forall k | k in m'
      ensures m'[k] < |d'| && d'[m'[k]] == Some(k) && Content(u)[KeyCore(raw, k, m'[k])] == 1
    {
      if k != key { assert m[k] != j && KeyCore(raw, k, m[k]) != c; }
    }
    forall x | x in Content(u) && x.Used?
      ensures x.dataIndex < |d'| && d'[x.dataIndex].Some?
      ensures x == KeyCore(raw, d'[x.dataIndex].value, x.dataIndex)
    {
      if x != c { assert x in Content(t); }
    }
  }

  /** A key whose entry the chain has placed and whose dentry stands in cell `j` is in the table. */
  lemma StateInsert(job: Job, n: nat, u: seq<Entry>, re: nat, j: nat)
    requires State(job.raw, job.t, job.d, job.m, n) && job.key.Some? && job.e.dataIndex == 0
    requires job.Placed(u, re, Added) && j < |job.d| && job.d[j].None?
    ensures re < |u|
    ensures State(job.raw, u[re := u[re].(dataIndex := j)], job.d[j := job.key], job.m[job.key.value := j], n + 1)
  {
    hide Content;
    var key, v := job.key.value, u[re := u[re].(dataIndex := j)];
    assert CoreOf(u[re]) == KeyCore(job.raw, key, 0);
    SetIndex(u, re, j);
    var c0, c1 := KeyCore(job.raw, key, 0), KeyCore(job.raw, key, j);
    SwapOne(Content(job.t), Free, c0, c1);
    assert Content(v) == Content(job.t) - multiset{Free} + multiset{c1};
    LinkedInsert(job.raw, job.t, job.d, job.m, v, key, j);
  }

  lemma SwapOne<T>(m: multiset<T>, a: T, b: T, c: T)
    requires a in m
    ensures m - multiset{a} + multiset{b} - multiset{b} + multiset{c} == m - multiset{a} + multiset{c}
  {
    PutTake(m, a, b);
  }

  // ---- a key less ----

  lemma LinkedRemove(raw: Key -> u32, t: seq<Entry>, d: seq<Option<Key>>, m: map<Key, nat>, u: seq<Entry>, key: Key)
    requires Linked(raw, t, d, m) && key in m
    requires Content(u) == Content(t) - multiset{KeyCore(raw, key, m[key])} + multiset{Free}
    ensures Linked(raw, u, d[m[key] := None], m - {key})
  {
    hide Content;
    var j := m[key];
    var d', m' := d[j := None], m - {key};
    var c := KeyCore(raw, key, j);
    assert c in Content(t);
    forall k | k in m'
      ensures m'[k] < |d'| && d'[m'[k]] == Some(k) && Content(u)[KeyCore(raw, k, m'[k])] == 1
    {
      assert m[k] != j && KeyCore(raw, k, m[k]) != c;
    }
    forall x | x in Content(u) && x.Used?
      ensures x.dataIndex < |d'| && d'[x.dataIndex].Some?
      ensures x == KeyCore(raw, d'[x.dataIndex].value, x.dataIndex)
    {
      assert x != c && x in Content(t);
    }
  }

  /** The key in slot `p` is gone after the shift, and so is its dentry. */
  lemma StateRemove(raw: Key -> u32, t: seq<Entry>, d: seq<Option<Key>>, m: map<Key, nat>, n: nat,
                    u: seq<Entry>, key: Key, p: nat)
    requires State(raw, t, d, m, n) && key in m && p < |t| && CoreOf(t[p]) == KeyCore(raw, key, m[key])
    requires |u| == |t| && Ordered(u) && HasStop(u)
    requires Content(u) == Content(t) - multiset{CoreOf(t[p])} + multiset{Free}
    ensures n > 0 && State(raw, u, d[m[key] := None], m - {key}, n - 1)
  {
    hide Content;
    assert KeyCore(raw, key, m[key]) in Content(t);
    LinkedRemove(raw, t, d, m, u, key);
    assert |m - {key}| == |m| - 1;
  }

  // ---- lookup ----

  /** A search for `key`, and what the table says about it. */
  datatype Search = Search(raw: Key -> u32, t: seq<Entry>, d: seq<Option<Key>>, m: map<Key, nat>, key: Key)
  {
    function Start(): nat { if |t| > 0 then Home(|t|, HashOf(raw, key)) else 0 }

    ghost predicate IsKeyOf(i: nat) {
      i < |t| && key in m && m[key] < 0x1_0000_0000 && CoreOf(t[i]) == KeyCore(raw, key, m[key])
    }

    /** After `np` probes the search stands at `i` and has not passed the key. */
    ghost predicate Probing(i: nat, np: nat) {
      && |t| > 0 && IsPow2(|t|) && |t| <= 0x1_0000 && Ordered(t) && Linked(raw, t, d, m)
      && i < |t| && np <= |t| && i == At(|t|, Start(), np)
      && (key in m ==> exists p: nat :: IsKeyOf(p) && np <= t[p].psl)
    }

    lemma Begin()
      requires |t| > 0 && IsPow2(|t|) && |t| <= 0x1_0000 && Ordered(t) && Linked(raw, t, d, m)
      ensures Probing(Start(), 0) && Start() == BitAnd(HashOf(raw, key), |t| - 1) && Start() < |t|
    {
      if key in m {
        var p := KeyAt(raw, t, d, m, key);
        assert IsKeyOf(p);
      }
    }

    /** Each way the loop gives up means that the key is absent. */
    lemma GiveUp(i: nat, np: nat)
      requires Probing(i, np) && i < |t|
      requires !Occupied(t[i]) || np > PslDiff(|t|, t[i], i) || (i != Start() && t[i].psl == 0)
      ensures key !in m
    {
      hide Linked, Content, BitAnd, IsPow2;
      if Occupied(t[i]) { assert Fits(t, i, t[i]); }
      if key in m {
        var p: nat :| IsKeyOf(p) && np <= t[p].psl;
        ProbePath(t, p, np);
        assert false;
      }
    }

    lemma SlotKey(i: nat, np: nat)
      requires Probing(i, np) && i < |t| && Occupied(t[i])
      ensures t[i].dataIndex < |d| && d[t[i].dataIndex].Some?
    {
      MatchFacts(raw, t, d, m, key, i);
    }

    lemma Hit(i: nat, np: nat)
      requires Probing(i, np) && i < |t| && Occupied(t[i])
      requires t[i].dataIndex < |d| && d[t[i].dataIndex].Some?
      requires |key| == t[i].klen && SameUpTo(key, d[t[i].dataIndex].value, |key|, 0)
      ensures key in m && IsKeyOf(i)
    {
      MatchFacts(raw, t, d, m, key, i);
    }

    lemma Miss(i: nat, np: nat)
      requires Probing(i, np) && i < |t| && Occupied(t[i]) && np <= PslDiff(|t|, t[i], i)
      requires t[i].dataIndex < |d| && d[t[i].dataIndex].Some?
      requires !(HashOf(raw, key) == t[i].hash && |key| == t[i].klen
                 && SameUpTo(key, d[t[i].dataIndex].value, |key|, 0))
      ensures np < |t| && BitAnd(i + 1, |t| - 1) < |t| && Probing(BitAnd(i + 1, |t| - 1), np + 1)
    {
      hide Linked, Content, BitAnd, IsPow2, SameUpTo, Ordered;
      MatchFacts(raw, t, d, m, key, i);
      MaskedStep(|t|, i);
      if key in m {
        var p: nat :| IsKeyOf(p) && np <= t[p].psl;
        ProbePath(t, p, np);
        FitsAt(t, p);
        assert i != p;
        assert IsKeyOf(p) && np + 1 <= t[p].psl;
      }
    }

    /** An absent key is in no slot: the early exits agree with a scan of the whole table. */
    lemma Scan()
      requires Linked(raw, t, d, m) && key !in m
      ensures forall i :: 0 <= i < |t| && Occupied(t[i]) ==>
                t[i].dataIndex < |d| && d[t[i].dataIndex].Some? && d[t[i].dataIndex].value != key
    {
      forall i | 0 <= i < |t| && Occupied(t[i])
        ensures t[i].dataIndex < |d| && d[t[i].dataIndex].Some? && d[t[i].dataIndex].value != key
      {
        MatchFacts(raw, t, d, m, key, i);
      }
    }
  }

  /** The code's own computation of a slot's probe length. */
  function PslDiff(cap: nat, e: Entry, index: nat): (d: nat)
    requires cap > 0 && index < cap
    ensures d == Dist(cap, Home(cap, e.hash), index) && d < cap
  {
    var index0 := BitAnd(e.hash, cap - 1);
    if index0 <= index then index - index0 else index + (cap - index0)
  }

  // ---- rehashing ----

  /** The new table `u` holds exactly the entries of the first `i` old slots, `n` of them. */
  ghost predicate Rehashed(t: seq<Entry>, i: nat, u: seq<Entry>, n: nat) {
    && i <= |t| && |u| == 2 * |t| && Ordered(u) && HasStop(u)
    && (forall c {:trigger Content(u)[c]} :: c != Free ==> Content(u)[c] == Content(t[..i])[c])
    && Content(u)[Free] + n == |u| && n + Content(t[..i])[Free] == i
  }

  lemma RehashStart(t: seq<Entry>, u: seq<Entry>)
    requires |t| > 0 && |u| == 2 * |t| && forall i :: 0 <= i < |u| ==> !Occupied(u[i])
    ensures Rehashed(t, 0, u, 0)
  {
    NoContent(u);
    assert IsStop(u[0]);
    assert Cores(t[..0]) == [];
  }

  lemma OneMore(t: seq<Entry>, i: nat)
    requires i < |t|
    ensures Content(t[..i + 1]) == Content(t[..i]) + multiset{CoreOf(t[i])}
  {
    assert Cores(t[..i + 1]) == Cores(t[..i]) + [CoreOf(t[i])];
  }

  lemma RehashSkip(t: seq<Entry>, i: nat, u: seq<Entry>, n: nat)
    requires Rehashed(t, i, u, n) && i < |t| && !Occupied(t[i])
    ensures Rehashed(t, i + 1, u, n)
  {
    OneMore(t, i);
  }

  lemma RehashRoom(t: seq<Entry>, i: nat, u: seq<Entry>, n: nat)
    requires Rehashed(t, i, u, n) && i < |t|
    ensures HasFree(u)
  {
    var f := ContentIndex(u, Free);
  }

  lemma RehashPut(job: Job, t: seq<Entry>, i: nat, n: nat, u: seq<Entry>, re: nat, outcome: Outcome)
    requires Rehashed(t, i, job.t, n) && i < |t| && Occupied(t[i])
    requires job.key.None? && CoreOf(job.e) == CoreOf(t[i]) && job.Placed(u, re, outcome)
    ensures outcome == Added && Rehashed(t, i + 1, u, n + 1)
  {
    hide Content;
    OneMore(t, i);
  }

  lemma StateRehashed(raw: Key -> u32, t: seq<Entry>, d: seq<Option<Key>>, m: map<Key, nat>, n: nat,
                      u: seq<Entry>, d': seq<Option<Key>>, n': nat)
    requires State(raw, t, d, m, n) && Rehashed(t, |t|, u, n')
    requires |u| <= 0x1_0000 && |d'| == |u| && d'[..|d|] == d && forall j :: |d| <= j < |d'| ==> d'[j].None?
    ensures n' == n && State(raw, u, d', m, n)
  {
    assert t[..|t|] == t;
    assert IsPow2(|u|) by { assert |u| / 2 == |t|; }
    LinkedGrown(raw, t, d, m, u, d');
  }

  lemma LinkedGrown(raw: Key -> u32, t: seq<Entry>, d: seq<Option<Key>>, m: map<Key, nat>,
                    u: seq<Entry>, d': seq<Option<Key>>)
    requires Linked(raw, t, d, m) && forall c {:trigger Content(u)[c]} :: c != Free ==> Content(u)[c] == Content(t)[c]
    requires |d| <= |d'| <= 0x1_0000 && d'[..|d|] == d && forall j :: |d| <= j < |d'| ==> d'[j].None?
    ensures Linked(raw, u, d', m)
  {
    hide Content;
    assert forall j :: 0 <= j < |d| ==> d'[j] == d'[..|d|][j];
    assert forall c :: c in Content(u) && c.Used? ==> c in Content(t);
  }

  // ---- removing ----

  /** The removal of slot `p` of `t` has shifted `n` entries; `h` is the hole, `i` the slot after it. */
  ghost predicate Shifting(t: seq<Entry>, u: seq<Entry>, p: nat, n: nat, h: nat, i: nat) {
    && Shifted(t, u, p, n) && Ordered(t) && HasStop(t) && IsPow2(|t|)
    && h == At(|t|, p, n) && i == Next(|t|, h)
  }

  lemma ShiftingBegin(t: seq<Entry>, p: nat)
    requires 2 <= |t| <= 0x1_0000 && IsPow2(|t|) && Ordered(t) && HasStop(t) && p < |t| && Occupied(t[p])
    ensures BitAnd(p + 1, |t| - 1) < |t| && Shifting(t, t, p, 0, p, BitAnd(p + 1, |t| - 1))
  {
    MaskedStep(|t|, p);
    assert forall j {:trigger MovedAt(t, t, p, 0, j)} :: 0 <= j < |t| ==> MovedAt(t, t, p, 0, j);
  }

  lemma ShiftingFacts(t: seq<Entry>, u: seq<Entry>, p: nat, n: nat, h: nat, i: nat)
    requires Shifting(t, u, p, n, h, i)
    ensures |u| == |t| && h < |t| && i < |t| && p < |t| && n < |t|
    ensures n + 1 < |t| ==> i == At(|t|, p, n + 1)
  {}

  /** A full turn never happens: the scan stops at the latest where it started. */
  lemma ShiftingOn(t: seq<Entry>, u: seq<Entry>, p: nat, n: nat, h: nat, i: nat)
    requires Shifting(t, u, p, n, h, i) && i < |u| && Occupied(u[i]) && u[i].psl > 0
    ensures n + 1 < |t| && h < |u| && BitAnd(i + 1, |u| - 1) < |u|
    ensures var e := u[i].(psl := u[i].psl - 1);
            Shifting(t, u[i := e][h := e], p, n + 1, i, BitAnd(i + 1, |u| - 1))
  {
    hide Content, BitAnd, IsPow2, Shifted, Ordered, HasStop;
    ShiftingFacts(t, u, p, n, h, i);
    if n + 1 == |t| {
      assert i == p;
      ShiftWraps(t, u, p, n);
    } else {
      ShiftStep(t, u, p, n);
      MaskedStep(|u|, i);
    }
  }

  lemma ShiftingEnd(t: seq<Entry>, u: seq<Entry>, p: nat, n: nat, h: nat, i: nat)
    requires Shifting(t, u, p, n, h, i) && i < |u| && (!Occupied(u[i]) || u[i].psl == 0)
    ensures h < |u| && p < |t|
    ensures var v := u[h := u[h].(hash := 0)];
            && Ordered(v) && HasStop(v)
            && Content(v) == Content(t) - multiset{CoreOf(t[p])} + multiset{Free}
  {
    hide Content, BitAnd, IsPow2, Moved;
    ShiftingFacts(t, u, p, n, h, i);
    ShiftEnd(t, u, p, n, u[h].(hash := 0));
  }

  // ---- cleaning ----

  /** The first `i` slots and their cells have been emptied. */
  ghost predicate Cleaned(raw: Key -> u32, t: seq<Entry>, d: seq<Option<Key>>, m: map<Key, nat>,
                          i: nat, u: seq<Entry>, e: seq<Option<Key>>) {
    && Linked(raw, t, d, m) && i <= |t| == |u| && |e| == |d|
    && (forall k :: 0 <= k < i ==> !Occupied(u[k]))
    && (forall k :: i <= k < |t| ==> u[k] == t[k])
    && (forall j :: 0 <= j < |d| && e[j].Some? ==> exists k :: i <= k < |t| && Occupied(t[k]) && t[k].dataIndex == j)
    && (forall k :: i <= k < |t| && Occupied(t[k]) ==> t[k].dataIndex < |d| && e[t[k].dataIndex].Some?)
  }

  lemma CleanStart(raw: Key -> u32, t: seq<Entry>, d: seq<Option<Key>>, m: map<Key, nat>)
    requires Linked(raw, t, d, m)
    ensures Cleaned(raw, t, d, m, 0, t, d)
  {
    forall j | 0 <= j < |d| && d[j].Some?
      ensures exists k :: 0 <= k < |t| && Occupied(t[k]) && t[k].dataIndex == j
    {
      var p := KeyAt(raw, t, d, m, d[j].value);
    }
    forall k | 0 <= k < |t| && Occupied(t[k])
      ensures t[k].dataIndex < |d| && d[t[k].dataIndex].Some?
    {
      ContentMember(t, k);
    }
  }

  lemma SlotsDiffer(raw: Key -> u32, t: seq<Entry>, d: seq<Option<Key>>, m: map<Key, nat>, i: nat, k: nat)
    requires Linked(raw, t, d, m) && i < |t| && k < |t| && i != k && Occupied(t[i]) && Occupied(t[k])
    ensures t[i].dataIndex != t[k].dataIndex
  {
    ContentMember(t, i);
    ContentMember(t, k);
    if t[i].dataIndex == t[k].dataIndex {
      OneSlot(raw, t, d, m, d[t[i].dataIndex].value, i, k);
    }
  }

  lemma CleanStep(raw: Key -> u32, t: seq<Entry>, d: seq<Option<Key>>, m: map<Key, nat>,
                  i: nat, u: seq<Entry>, e: seq<Option<Key>>)
    requires Cleaned(raw, t, d, m, i, u, e) && i < |u|
    ensures !Occupied(u[i]) ==> Cleaned(raw, t, d, m, i + 1, u, e)
    ensures Occupied(u[i]) ==> u[i].dataIndex < |e| && e[u[i].dataIndex].Some?
                               && Cleaned(raw, t, d, m, i + 1, u[i := u[i].(hash := 0)], e[u[i].dataIndex := None])
  {
    forall k | i < k < |t| && Occupied(t[i]) && Occupied(t[k])
      ensures t[i].dataIndex != t[k].dataIndex
    {
      SlotsDiffer(raw, t, d, m, i, k);
    }
  }

  lemma CleanEnd(raw: Key -> u32, t: seq<Entry>, d: seq<Option<Key>>, m: map<Key, nat>,
                 u: seq<Entry>, e: seq<Option<Key>>)
    requires Cleaned(raw, t, d, m, |t|, u, e)
    requires IsPow2(|t|) && 4 <= |t| <= 0x1_0000 && |d| == |t|
    ensures State(raw, u, e, map[], 0)
  {
    StateEmpty(raw, u, e);
  }

  // ---- when a clash is possible ----

  /** Two keys that agree on hash and length, one of them a proper prefix of `key`. */
  ghost predicate TwinPrefix(raw: Key -> u32, keys: set<Key>, key: Key) {
    exists a, b :: a in keys && b in keys && a != b && HashOf(raw, a) == HashOf(raw, b) && |a| == |b|
                   && b < key
  }

  /** What a caller can check before inserting: without such a pair nothing clashes. */
  lemma ClashNeedsTwins(job: Job)
    requires job.Valid() && job.Clash()
    ensures TwinPrefix(job.raw, job.m.Keys, job.key.value)
    ensures exists a, b :: a in job.m && b in job.m && a != b && HashOf(job.raw, a) == HashOf(job.raw, b)
                           && |a| == |b| && b < job.key.value
  {
    hide Content, Meets;
    var a: nat, b: nat :| job.ClashAt(a, b);
    MeetsFacts(job.t, Home(|job.t|, job.e.hash), a, b);
    SlotsDiffer(job.raw, job.t, job.d, job.m, a, b);
    MatchFacts(job.raw, job.t, job.d, job.m, job.key.value, a);
    MatchFacts(job.raw, job.t, job.d, job.m, job.key.value, b);
    var ka, kb := job.d[job.t[a].dataIndex].value, job.d[job.t[b].dataIndex].value;
    MatchFacts(job.raw, job.t, job.d, job.m, ka, a);
    MatchFacts(job.raw, job.t, job.d, job.m, kb, b);
    assert kb <= job.key.value && kb != job.key.value;
  }

  lemma MeetsFacts(t: seq<Entry>, start: nat, a: nat, b: nat)
    requires Meets(t, start, a, b)
    ensures a < |t| && b < |t| && a != b && Occupied(t[a]) && Occupied(t[b])
    ensures t[a].hash == t[b].hash && t[a].klen == t[b].klen
  {}

  // ---- a failing insertion ----

  const EXAMPLE_KEY: Key := [1, 1]

  function ExampleHash(k: Key): u32 { if k == [3] || k == EXAMPLE_KEY then 4 else 1 }

  function ExampleSlots(): seq<Entry> {
    [Entry(4, 0, 1, 0), Entry(1, 0, 1, 1), Entry(1, 1, 1, 2), Entry(0, 0, 0, 0)]
  }

  function ExampleCells(): seq<Option<Key>> { [Some([3]), Some([2]), Some([1]), None] }

  function ExampleMap(): map<Key, nat> { map[[3] := 0, [2] := 1, [1] := 2] }

  lemma ExampleContent()
    ensures Content(ExampleSlots()) == multiset{Used(4, 1, 0), Used(1, 1, 1), Used(1, 1, 2), Free}
  {
    assert Cores(ExampleSlots()) == [Used(4, 1, 0), Used(1, 1, 1), Used(1, 1, 2), Free];
  }

  lemma ExampleState()
    ensures State(ExampleHash, ExampleSlots(), ExampleCells(), ExampleMap(), 3)
  {
    hide Content, Ordered, Linked, IsPow2;
    ExampleContent();
    ExampleOrdered();
    ExampleLinked();
    Pow4();
    assert IsStop(ExampleSlots()[0]);
    assert ExampleMap().Keys == {[3], [2], [1]};
  }

  lemma ExampleOrdered()
    ensures Ordered(ExampleSlots())
  {
    assert BitAnd(4, 3) == 0 && BitAnd(1, 3) == 1;
  }

  lemma ExampleLinked()
    ensures Linked(ExampleHash, ExampleSlots(), ExampleCells(), ExampleMap())
  {
    hide Content, Ordered, IsPow2, BitAnd;
    ExampleContent();
    assert ExampleMap().Keys == {[3], [2], [1]};
    assert CellsOwned(ExampleCells(), ExampleMap());
  }

  /** A small table in which an insertion fails: two one-byte keys of equal hash, behind a key at the slot
      before them, and a new two-byte key that begins with the second of the two. */
  lemma ClashExample() returns (job: Job)
    ensures State(job.raw, job.t, job.d, job.m, 3) && job.Valid() && HasFree(job.t)
    ensures job.key == Some(EXAMPLE_KEY) && job.t == ExampleSlots() && job.d == ExampleCells()
    ensures job.Clash()
  {
    hide Linked, Content;
    ExampleState();
    var t := ExampleSlots();
    job := Job(ExampleHash, t, ExampleCells(), ExampleMap(), Some(EXAMPLE_KEY), Entry(4, 0, 2, 0));
    assert BitAnd(4, 3) == 0;
    assert !Occupied(t[3]);
    assert Meets(t, 0, 1, 2);
    assert [1] <= EXAMPLE_KEY;
    assert job.ClashAt(1, 2);
  }
}
