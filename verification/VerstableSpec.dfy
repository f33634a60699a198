/** The state of the chained quadratic table as a value: what each write of the table code does to it,
    and why every lookup walks exactly one chain. */
module VerstableSpec {
  import opened Words
  import opened Triangular
  import opened Probing
  import opened Chains

  /** A metadatum: four bits of the hash, the in-home flag and the displacement of the next key. */
  datatype Meta = Meta(frag: nat, home: bool, disp: nat)

  datatype Bucket<+K, +V> = Blank | Slot(key: K, val: V)

  /** The highest four bits of a 64-bit hash. */
  function Frag(h: nat): nat {
    h / 0x1000_0000_0000_0000 % 16
  }

  function HomeOf(h: nat, mask: nat): (r: nat)
    ensures r <= mask
  {
    BitAnd(h, mask)
  }

  function BucketCount(n: nat): nat {
    if n == 1 then 0 else n
  }

  /** One more key would exceed the maximum load of nine tenths. */
  predicate LoadReached(count: nat, n: nat) {
    10 * (count + 1) > 9 * BucketCount(n)
  }

  /** Allocations of more buckets than this are refused. */
  const MAX_BUCKETS: nat := 0x1000_0000_0000_0000

  predicate Refused(grant: nat -> bool, count: nat) {
    count > MAX_BUCKETS || !grant(count)
  }

  /** The `d`-th probe from `home` finds a key. */
  ghost predicate Full(meta: seq<Meta>, home: nat, d: nat) {
    meta != [] && var b := Pos(|meta| - 1, home, d); meta[b] != Meta(0, false, 0)
  }

  /** No probe within the displacement limit finds an empty bucket. */
  ghost predicate NoRoom(meta: seq<Meta>, home: nat) {
    forall d: nat :: 1 <= d < 0x7FF ==> Full(meta, home, d)
  }

  datatype State<!K, +V> = State(meta: seq<Meta>, bk: seq<Bucket<K, V>>, nodes: seq<Node>, where: map<K, nat>) {
    ghost predicate Shaped() {
      |meta| == |nodes| && |meta| > 0 && |bk| == BucketCount(|meta|)
    }

    /** The arrays agree with the node at `b`. */
    ghost predicate Tied(hash: K -> nat, b: nat)
      requires Shaped() && b < |meta|
    {
      if nodes[b].Free? then meta[b] == Meta(0, false, 0) else
        && b < |bk| && bk[b].Slot? && bk[b].key in where && where[bk[b].key] == b
        && nodes[b].home == HomeOf(hash(bk[b].key), |meta| - 1)
        && meta[b] == Meta(Frag(hash(bk[b].key)), nodes[b].dist == 0, nodes[b].next)
    }

    ghost predicate Indexed(k: K)
      requires k in where
    {
      var b := where[k];
      b < |nodes| && nodes[b].Node? && b < |bk| && bk[b].Slot? && bk[b].key == k
    }

    /** Bucket `hole`, if there is one, still shows a key that was moved away; the buckets in `loose`
        hold keys that their chains no longer reach. */
    ghost predicate Wf(hash: K -> nat, hole: nat, loose: set<nat>) {
      && Shaped() && Chained(nodes, loose)
      && (hole < |nodes| ==> nodes[hole].Free?)
      && (forall b: nat :: b < |meta| && b != hole ==> Tied(hash, b))
      && (forall k :: k in where ==> Indexed(k))
    }

    /** The map the table stands for. */
    ghost function View(): map<K, V> {
      map k | k in where && Indexed(k) :: bk[where[k]].val
    }

    // ---- when an insertion is refused ----

    /** The home bucket of `key` holds a key of another chain, and that chain has no room to take it. */
    ghost predicate CutsOff(hash: K -> nat, key: K) {
      Shaped() && !LoadReached(|where|, |meta|) &&
      var h := HomeOf(hash(key), |meta| - 1);
      && !meta[h].home && meta[h] != Meta(0, false, 0)
      && h < |bk| && bk[h].Slot? && NoRoom(meta, HomeOf(hash(bk[h].key), |meta| - 1))
    }

    /** An absent key finds no place: the load is reached, or its chain has no room, or the key in the
        way finds none. */
    ghost predicate Refuses(hash: K -> nat, loose: set<nat>, key: K) {
      Shaped() && (key in where ==> where[key] in loose) &&
      var h := HomeOf(hash(key), |meta| - 1);
      LoadReached(|where|, |meta|) || (meta[h].home && NoRoom(meta, h)) || CutsOff(hash, key)
    }

    /** The code does not survive this insertion: it would look for a cut-off key in its chain to evict
        it, or store a cut-off key a second time, as it does unless it refuses the key. */
    ghost predicate Spoiled(hash: K -> nat, loose: set<nat>, key: K) {
      Shaped() && !LoadReached(|where|, |meta|) &&
      (HomeOf(hash(key), |meta| - 1) in loose
       || (key in where && where[key] in loose && !Refuses(hash, loose, key)))
    }

    // ---- the writes of the table code ----

    ghost function NewHead(h: nat, frag: nat, key: K, val: V): State<K, V>
      requires Shaped() && h < |bk|
    {
      State(meta[h := Meta(frag, true, 0x7FF)], bk[h := Slot(key, val)], Headed(nodes, h), where[key := h])
    }

    ghost function NewLink(prev: nat, e: nat, d: nat, frag: nat, key: K, val: V): State<K, V>
      requires Shaped() && prev < |bk| && e < |bk| && e != prev && nodes[prev].Node?
    {
      State(meta[e := Meta(frag, false, meta[prev].disp)][prev := meta[prev].(disp := d)],
            bk[e := Slot(key, val)], Joined(nodes, prev, e, d), where[key := e])
    }

    ghost function Cut(prev: nat, x: nat): State<K, V>
      requires Shaped() && prev < |meta| && x < |meta| && nodes[prev].Node? && nodes[x].Node?
    {
      State(meta[prev := meta[prev].(disp := meta[x].disp)], bk, Relinked(nodes, prev, nodes[x].next), where)
    }

    ghost function Moved(x: nat, prev: nat, e: nat, d: nat): State<K, V>
      requires Shaped() && prev < |bk| && e < |bk| && x < |bk| && e != prev && x != prev
      requires nodes[prev].Node? && bk[x].Slot?
    {
      State(meta[e := Meta(meta[x].frag, false, meta[prev].disp)][prev := meta[prev].(disp := d)],
            bk[e := bk[x]], Joined(Freed(nodes, x), prev, e, d), where[bk[x].key := e])
    }

    ghost function Replaced(b: nat, key: K, val: V): State<K, V>
      requires b < |bk|
    {
      State(meta, bk[b := Slot(key, val)], nodes, where)
    }

    ghost function Erased(b: nat): State<K, V>
      requires Shaped() && b < |bk| && bk[b].Slot?
    {
      State(meta[b := Meta(0, false, 0)], bk, Freed(nodes, b), where - {bk[b].key})
    }

    /** The key of `b`, the last of its chain and linked from `prev`, is erased. */
    ghost function EndErased(prev: nat, b: nat): State<K, V>
      requires Shaped() && prev < |bk| && b < |bk| && bk[b].Slot? && nodes[prev].Node? && nodes[b].Node?
    {
      State(meta[prev := meta[prev].(disp := 0x7FF)][b := Meta(0, false, 0)], bk,
            Freed(Relinked(nodes, prev, nodes[b].next), b), where - {bk[b].key})
    }

    /** The key of the loose bucket `l` takes the place of the key in `b`. */
    ghost function Filled(b: nat, l: nat): State<K, V>
      requires Shaped() && b < |bk| && l < |bk| && bk[b].Slot? && bk[l].Slot?
    {
      State(meta[b := meta[b].(frag := meta[l].frag)][l := Meta(0, false, 0)], bk[b := bk[l]], Freed(nodes, l),
            (where - {bk[b].key})[bk[l].key := b])
    }

    /** The key of `last`, linked from `prev`, takes the place of the key in `b`. */
    ghost function LastMoved(b: nat, prev: nat, last: nat): State<K, V>
      requires Shaped() && b < |bk| && last < |bk| && prev < |bk| && bk[b].Slot? && bk[last].Slot?
      requires nodes[prev].Node? && nodes[last].Node?
    {
      var m := meta[b := meta[b].(frag := meta[last].frag)];
      State(m[prev := m[prev].(disp := 0x7FF)][last := Meta(0, false, 0)], bk[b := bk[last]],
            Freed(Relinked(nodes, prev, nodes[last].next), last), (where - {bk[b].key})[bk[last].key := b])
    }
  }

  // ---- facts ----

  lemma Basics<K, V>(st: State<K, V>, hash: K -> nat, hole: nat, loose: set<nat>)
    requires st.Wf(hash, hole, loose)
    ensures st.Shaped() && Chained(st.nodes, loose) && IsPow2(|st.nodes|)
    ensures st.View().Keys == st.where.Keys
    ensures forall b :: b in loose ==> b < |st.nodes| && st.nodes[b].Node?
  {
    Shape(st.nodes, loose);
  }

  lemma Occupied<K, V>(st: State<K, V>, hash: K -> nat, hole: nat, loose: set<nat>, b: nat)
    requires st.Wf(hash, hole, loose) && b < |st.meta| && b != hole
    ensures st.Shaped() && (st.meta[b] == Meta(0, false, 0) <==> st.nodes[b].Free?)
    ensures st.nodes[b].Node? ==> b < |st.bk| && st.bk[b].Slot? && st.bk[b].key in st.where
    ensures st.nodes[b].Node? ==> st.meta[b] == Meta(Frag(hash(st.bk[b].key)), st.nodes[b].dist == 0, st.nodes[b].next)
    ensures st.nodes[b].Node? ==> st.nodes[b].home == HomeOf(hash(st.bk[b].key), |st.meta| - 1)
    ensures st.nodes[b].Node? ==> st.where[st.bk[b].key] == b
    ensures st.nodes[b].Node? ==> st.bk[b].key in st.View() && st.View()[st.bk[b].key] == st.bk[b].val
  {
    assert st.Tied(hash, b);
    if st.nodes[b].Node? {
      assert st.Indexed(st.bk[b].key);
      if b !in loose { NodeFacts(st.nodes, loose, b); }
      Nonzero(st, hash, loose, b);
    }
  }

  /** The highest four bits of the hash stand in the metadatum, and the in-home flag only in the bucket that
      the lowest bits name. */
  lemma Metadatum<K, V>(st: State<K, V>, hash: K -> nat, loose: set<nat>, b: nat)
    requires st.Wf(hash, |st.nodes|, loose) && b < |st.meta| && st.meta[b] != Meta(0, false, 0)
    ensures b < |st.bk| && st.bk[b].Slot?
    ensures st.meta[b].frag == hash(st.bk[b].key) / 0x1000_0000_0000_0000 % 16
    ensures st.meta[b].home ==> b == hash(st.bk[b].key) % |st.meta|
  {
    hide Chained, BitAnd, IsPow2, Pos, State.Wf;
    Basics(st, hash, |st.nodes|, loose);
    Occupied(st, hash, |st.nodes|, loose, b);
    NodeFacts(st.nodes, loose, b);
    PosHome(|st.meta| - 1, st.nodes[b].home);
    MaskIsRemainder(hash(st.bk[b].key), |st.meta|);
  }

  lemma Nonzero<K, V>(st: State<K, V>, hash: K -> nat, loose: set<nat>, b: nat)
    requires st.Shaped() && b < |st.meta| && st.Tied(hash, b) && Chained(st.nodes, loose) && st.nodes[b].Node?
    ensures st.meta[b] != Meta(0, false, 0)
  {
    hide Chained, Pos;
    Shape(st.nodes, loose);
    if b !in loose { NodeFacts(st.nodes, loose, b); }
  }

  // ---- what each write keeps ----

  lemma HeadWritten<K, V>(st: State<K, V>, hash: K -> nat, loose: set<nat>, h: nat, key: K, val: V)
    requires st.Wf(hash, h, loose) && h < |st.bk| && st.nodes[h].Free?
    requires key !in st.where && h == HomeOf(hash(key), |st.meta| - 1)
    ensures var t := st.NewHead(h, Frag(hash(key)), key, val);
      t.Wf(hash, |st.nodes|, loose) && t.View() == st.View()[key := val]
  {
    hide Chained, HomeOf, Frag;
    var t := st.NewHead(h, Frag(hash(key)), key, val);
    Head(st.nodes, loose, h);
    forall b: nat | b < |t.meta|
      ensures t.Tied(hash, b)
    {
      if b != h { assert st.Tied(hash, b); }
    }
    forall k | k in t.where
      ensures t.Indexed(k)
    {
      if k != key { assert st.Indexed(k); }
    }
  }

  lemma LinkWritten<K, V>(st: State<K, V>, hash: K -> nat, loose: set<nat>, prev: nat, e: nat, d: nat, key: K, val: V)
    requires st.Wf(hash, |st.nodes|, loose) && Member(st.nodes, loose, prev) && prev < |st.bk|
    requires e < |st.bk| && st.nodes[e].Free? && Pos(|st.nodes| - 1, st.nodes[prev].home, d) == e
    requires st.nodes[prev].dist < d < st.nodes[prev].next
    requires key !in st.where && st.nodes[prev].home == HomeOf(hash(key), |st.meta| - 1)
    ensures var t := st.NewLink(prev, e, d, Frag(hash(key)), key, val);
      t.Wf(hash, |st.nodes|, loose) && t.View() == st.View()[key := val]
  {
    hide Chained, HomeOf, Frag, Pos;
    var t := st.NewLink(prev, e, d, Frag(hash(key)), key, val);
    Join(st.nodes, loose, prev, e, d);
    assert st.Tied(hash, prev);
    forall b: nat | b < |t.meta|
      ensures t.Tied(hash, b)
    {
      if b != e { assert st.Tied(hash, b); }
    }
    forall k | k in t.where
      ensures t.Indexed(k)
    {
      if k != key { assert st.Indexed(k); }
    }
  }

  lemma CutWritten<K, V>(st: State<K, V>, hash: K -> nat, loose: set<nat>, prev: nat, x: nat)
    requires st.Wf(hash, |st.nodes|, loose)
    requires Member(st.nodes, loose, prev) && Member(st.nodes, loose, x)
    requires st.nodes[prev].home == st.nodes[x].home && st.nodes[prev].next == st.nodes[x].dist
    ensures var t := st.Cut(prev, x); t.Wf(hash, |st.nodes|, loose + {x}) && t.View() == st.View()
  {
    hide Chained, HomeOf, Frag;
    var t := st.Cut(prev, x);
    Unlink(st.nodes, loose, prev, x);
    NodeFacts(st.nodes, loose, x);
    assert st.Tied(hash, x);
    forall b: nat | b < |t.meta|
      ensures t.Tied(hash, b)
    {
      assert st.Tied(hash, b);
    }
    forall k | k in t.where
      ensures t.Indexed(k)
    {
      assert st.Indexed(k);
    }
  }

  lemma MoveWritten<K, V>(st: State<K, V>, hash: K -> nat, loose: set<nat>, x: nat, prev: nat, e: nat, d: nat)
    requires st.Wf(hash, |st.nodes|, loose) && x in loose && x < |st.bk| && st.bk[x].Slot?
    requires Member(st.nodes, loose, prev) && prev < |st.bk| && st.nodes[prev].home == st.nodes[x].home
    requires e < |st.bk| && st.nodes[e].Free? && Pos(|st.nodes| - 1, st.nodes[prev].home, d) == e
    requires st.nodes[prev].dist < d < st.nodes[prev].next
    ensures var t := st.Moved(x, prev, e, d); t.Wf(hash, x, loose - {x}) && t.View() == st.View()
    ensures st.Moved(x, prev, e, d).nodes[x].Free?
  {
    hide Chained, HomeOf, Frag, Pos;
    var t := st.Moved(x, prev, e, d);
    Shape(st.nodes, loose);
    assert st.Tied(hash, x) && st.Tied(hash, prev);
    Vacate(st.nodes, loose, x);
    Join(Freed(st.nodes, x), loose - {x}, prev, e, d);
    forall b: nat | b < |t.meta| && b != x
      ensures t.Tied(hash, b)
    {
      assert st.Tied(hash, b);
    }
    forall k | k in t.where
      ensures t.Indexed(k)
    {
      assert st.Indexed(k);
    }
  }

  lemma ValueWritten<K, V>(st: State<K, V>, hash: K -> nat, loose: set<nat>, key: K, val: V)
    requires st.Wf(hash, |st.nodes|, loose) && key in st.where && st.Indexed(key)
    ensures var t := st.Replaced(st.where[key], key, val);
      t.Wf(hash, |st.nodes|, loose) && t.View() == st.View()[key := val]
  {
    hide Chained, HomeOf, Frag;
    var t := st.Replaced(st.where[key], key, val);
    forall b: nat | b < |t.meta|
      ensures t.Tied(hash, b)
    {
      assert st.Tied(hash, b);
    }
    forall k | k in t.where
      ensures t.Indexed(k)
    {
      assert st.Indexed(k);
    }
  }

  /** A bucket is emptied: the head of a chain of one, or a bucket already cut from its chain. */
  lemma ErasedWritten<K, V>(st: State<K, V>, hash: K -> nat, loose: set<nat>, b: nat)
    requires st.Wf(hash, |st.nodes|, loose) && b < |st.bk| && st.bk[b].Slot? && st.nodes[b].Node?
    requires b in loose || (st.nodes[b].dist == 0 && st.nodes[b].next == 0x7FF)
    ensures var t := st.Erased(b);
      t.Wf(hash, |st.nodes|, loose - {b}) && t.View() == st.View() - {st.bk[b].key}
  {
    hide Chained, HomeOf, Frag;
    var t := st.Erased(b);
    if b in loose {
      Vacate(st.nodes, loose, b);
    } else {
      Behead(st.nodes, loose, b);
      assert loose - {b} == loose;
    }
    assert st.Tied(hash, b);
    forall c: nat | c < |t.meta|
      ensures t.Tied(hash, c)
    {
      assert st.Tied(hash, c);
    }
    forall k | k in t.where
      ensures t.Indexed(k)
    {
      assert st.Indexed(k);
    }
  }

  lemma FilledWritten<K, V>(st: State<K, V>, hash: K -> nat, loose: set<nat>, b: nat, l: nat)
    requires st.Wf(hash, |st.nodes|, loose) && l in loose && b < |st.bk| && l < |st.bk| && b != l
    requires st.bk[b].Slot? && st.bk[l].Slot? && st.nodes[b].Node? && st.nodes[b].home == st.nodes[l].home
    ensures var t := st.Filled(b, l);
      t.Wf(hash, |st.nodes|, loose - {l}) && t.View() == st.View() - {st.bk[b].key}
  {
    hide Chained, HomeOf, Frag;
    var t := st.Filled(b, l);
    Shape(st.nodes, loose);
    Vacate(st.nodes, loose, l);
    assert st.Tied(hash, b) && st.Tied(hash, l);
    forall c: nat | c < |t.meta|
      ensures t.Tied(hash, c)
    {
      assert st.Tied(hash, c);
    }
    forall k | k in t.where
      ensures t.Indexed(k)
    {
      assert st.Indexed(k);
    }
  }

  /** A key that is cut off and is stored again, at the head of a chain or behind another key, is then in two
      occupied buckets. */
  lemma StoredTwice<K, V>(st: State<K, V>, hash: K -> nat, hole: nat, loose: set<nat>, key: K, val: V)
    requires st.Wf(hash, hole, loose) && key in st.where && st.where[key] in loose && st.Shaped()
    ensures st.where[key] < |st.nodes| && st.nodes[st.where[key]].Node? && st.where[key] != hole
    ensures forall h :: 0 <= h < |st.bk| && st.nodes[h].Free? ==>
      var t := st.NewHead(h, Frag(hash(key)), key, val); HeldTwice(t, key, st.where[key], h)
    ensures forall prev, e, d :: 0 <= prev < |st.bk| && 0 <= e < |st.bk| && e != prev && 0 <= d
                                 && st.nodes[prev].Node? && st.nodes[e].Free? ==>
      var t := st.NewLink(prev, e, d, Frag(hash(key)), key, val); HeldTwice(t, key, st.where[key], e)
  {
    hide Chained, HomeOf, Frag;
    assert st.Indexed(key);
    Shape(st.nodes, loose);
    var x := st.where[key];
    assert Loose(st.nodes, x);
    if hole < |st.nodes| { assert st.nodes[hole].Free?; }
    assert st.Tied(hash, x);
  }

  ghost predicate HeldTwice<K, V>(t: State<K, V>, key: K, a: nat, b: nat) {
    && a != b && a < |t.bk| && b < |t.bk| && t.bk[a].Slot? && t.bk[b].Slot? && t.bk[a].key == t.bk[b].key == key
    && a < |t.nodes| && b < |t.nodes| && t.nodes[a].Node? && t.nodes[b].Node?
  }

  // ---- lookups ----

  /** The key in `c` has been compared, if `c` is a member of the chain of `home` nearer than `dist`. */
  ghost predicate Compared<K, V>(st: State<K, V>, loose: set<nat>, key: K, home: nat, dist: nat, c: nat) {
    c < |st.bk| && Member(st.nodes, loose, c) && st.nodes[c].home == home && st.nodes[c].dist < dist
    ==> st.bk[c].Slot? && st.bk[c].key != key
  }

  /** A walk along the chain of `home` has come to `b` without meeting `key`. */
  ghost predicate Walking<K, V>(st: State<K, V>, loose: set<nat>, key: K, home: nat, b: nat) {
    && b < |st.bk| && Member(st.nodes, loose, b) && st.nodes[b].home == home && st.nodes[b].dist < 0x7FF
    && forall c: nat :: Compared(st, loose, key, home, st.nodes[b].dist, c)
  }

  /** Without the in-home flag at its home bucket a key cannot be reached. */
  lemma NoChain<K, V>(st: State<K, V>, hash: K -> nat, loose: set<nat>, key: K)
    requires st.Wf(hash, |st.nodes|, loose)
    ensures st.Shaped()
    ensures !st.meta[HomeOf(hash(key), |st.meta| - 1)].home ==> key !in st.where || st.where[key] in loose
  {
    hide Chained, HomeOf, Frag;
    var h := HomeOf(hash(key), |st.meta| - 1);
    assert st.Tied(hash, h);
    HeadFacts(st.nodes, loose, h);
    if key in st.where {
      assert st.Indexed(key) && st.Tied(hash, st.where[key]);
    }
  }

  lemma WalkBegins<K, V>(st: State<K, V>, hash: K -> nat, loose: set<nat>, key: K, home: nat)
    requires st.Wf(hash, |st.nodes|, loose) && home < |st.meta| && st.meta[home].home
    ensures Walking(st, loose, key, home, home) && st.nodes[home].dist == 0
  {
    hide Chained, HomeOf, Frag;
    assert st.Tied(hash, home);
    HeadFacts(st.nodes, loose, home);
  }

  lemma WalkFacts<K, V>(st: State<K, V>, hash: K -> nat, loose: set<nat>, key: K, home: nat, b: nat)
    requires st.Wf(hash, |st.nodes|, loose) && Walking(st, loose, key, home, b)
    ensures st.Shaped() && b < |st.bk| && b < |st.meta| && st.bk[b].Slot?
    ensures st.meta[b].frag == Frag(hash(st.bk[b].key)) && st.meta[b].disp == st.nodes[b].next
    ensures st.bk[b].key in st.where && st.where[st.bk[b].key] == b && b !in loose
    ensures b < |st.nodes| && st.nodes[b].Node? && st.nodes[b].home == home && st.nodes[b].dist < 0x7FF
    ensures st.nodes[b].dist == DistOf(st.nodes, b)
  {
    hide Chained, HomeOf, Frag;
    assert st.Tied(hash, b);
  }

  lemma WalkStep<K, V>(st: State<K, V>, hash: K -> nat, loose: set<nat>, key: K, home: nat, b: nat)
    requires st.Wf(hash, |st.nodes|, loose) && Walking(st, loose, key, home, b)
    requires st.bk[b].Slot? && st.bk[b].key != key && st.meta[b].disp != 0x7FF
    ensures var c := Pos(|st.meta| - 1, home, st.meta[b].disp);
      Walking(st, loose, key, home, c) && st.nodes[b].dist < st.nodes[c].dist
  {
    hide Chained, HomeOf, Frag, Pos;
    assert st.Tied(hash, b);
    NextFacts(st.nodes, loose, b);
    var c := Pos(|st.meta| - 1, home, st.meta[b].disp);
    assert st.Tied(hash, c);
    forall k: nat
      ensures Compared(st, loose, key, home, st.nodes[c].dist, k)
    {
      assert Compared(st, loose, key, home, st.nodes[b].dist, k);
      NothingBetween(st.nodes, loose, b, k);
    }
  }

  lemma WalkEnds<K, V>(st: State<K, V>, hash: K -> nat, loose: set<nat>, key: K, home: nat, b: nat)
    requires st.Wf(hash, |st.nodes|, loose) && Walking(st, loose, key, home, b)
    requires home == HomeOf(hash(key), |st.meta| - 1)
    requires st.bk[b].Slot? && st.bk[b].key != key && st.meta[b].disp == 0x7FF
    ensures key !in st.where || st.where[key] in loose
  {
    hide Chained, HomeOf, Frag;
    assert st.Tied(hash, b);
    if key in st.where && st.where[key] !in loose {
      var w := st.where[key];
      assert st.Indexed(key) && st.Tied(hash, w);
      assert Compared(st, loose, key, home, st.nodes[b].dist, w);
      NothingBetween(st.nodes, loose, b, w);
      NodeFacts(st.nodes, loose, w);
    }
  }

  // ---- free buckets ----

  lemma Injects<K>(o: set<nat>, key: map<nat, K>, keys: set<K>)
    requires forall b :: b in o ==> b in key && key[b] in keys
    requires forall b, c :: b in o && c in o && key[b] == key[c] ==> b == c
    ensures |o| <= |keys|
    decreases |o|
  {
    if o != {} {
      var b :| b in o;
      Injects(o - {b}, key, keys - {key[b]});
    }
  }

  /** Occupied buckets hold different keys. */
  lemma OccupiedCount<K, V>(st: State<K, V>, hash: K -> nat, loose: set<nat>, o: set<nat>)
    requires st.Wf(hash, |st.nodes|, loose)
    requires forall b :: b in o ==> b < |st.meta| && st.meta[b] != Meta(0, false, 0)
    ensures |o| <= |st.where|
  {
    hide Chained, HomeOf, Frag;
    var key := map b: nat | b in o && b < |st.bk| && st.bk[b].Slot? :: st.bk[b].key;
    forall b | b in o
      ensures b in key && key[b] in st.where && st.where[key[b]] == b
    {
      assert st.Tied(hash, b);
    }
    Injects(o, key, st.where.Keys);
  }

  lemma ProbedFull<K, V>(st: State<K, V>, home: nat, m: nat)
    requires IsPow2(|st.meta|) && home < |st.meta| && st.meta[home] != Meta(0, false, 0) && m <= 0x7FF
    requires NoRoom(st.meta, home)
    ensures forall b :: b in Probed(|st.meta| - 1, home, m) ==> b < |st.meta| && st.meta[b] != Meta(0, false, 0)
  {
    hide IsPow2, Pos;
    ProbedAre(|st.meta| - 1, home, m);
    PosHome(|st.meta| - 1, home);
    forall b | b in Probed(|st.meta| - 1, home, m)
      ensures b < |st.meta| && st.meta[b] != Meta(0, false, 0)
    {
      var d :| 0 <= d < m && Pos(|st.meta| - 1, home, d) == b;
      if d > 0 { assert Full(st.meta, home, d); }
    }
  }

  /** The search for an empty bucket gives up only in a table with at least 2047 keys, or a full one. */
  lemma SearchedInVain<K, V>(st: State<K, V>, hash: K -> nat, loose: set<nat>, home: nat)
    requires st.Wf(hash, |st.nodes|, loose) && home < |st.meta| && st.meta[home] != Meta(0, false, 0)
    requires NoRoom(st.meta, home)
    ensures |st.where| >= if |st.meta| < 0x7FF then |st.meta| else 0x7FF
  {
    hide *;
    Basics(st, hash, |st.nodes|, loose);
    Sizes(st);
    var m := if |st.meta| < 0x7FF then |st.meta| else 0x7FF;
    ProbedFull(st, home, m);
    ProbedCount(|st.meta| - 1, home, m);
    OccupiedCount(st, hash, loose, Probed(|st.meta| - 1, home, m));
  }

  lemma Room(meta: seq<Meta>, home: nat, d: nat)
    requires 1 <= d < 0x7FF && !Full(meta, home, d)
    ensures !NoRoom(meta, home)
  {}

  /** Cutting a key out of its chain makes no room. */
  lemma CutKeepsRoom<K, V>(st: State<K, V>, hash: K -> nat, loose: set<nat>, prev: nat, x: nat, home: nat)
    requires st.Wf(hash, |st.nodes|, loose) && st.Shaped() && prev < |st.meta| && x < |st.meta|
    requires st.nodes[prev].Node? && st.nodes[x].Node?
    requires st.Cut(prev, x).Wf(hash, |st.nodes|, loose + {x})
    ensures NoRoom(st.Cut(prev, x).meta, home) <==> NoRoom(st.meta, home)
  {
    hide State.Wf, Pos, NoRoom;
    var t := st.Cut(prev, x);
    Occupied(st, hash, |st.nodes|, loose, prev);
    Occupied(t, hash, |st.nodes|, loose + {x}, prev);
    SameRoom(st.meta, t.meta, home);
  }

  lemma SameRoom(m: seq<Meta>, m': seq<Meta>, home: nat)
    requires |m| == |m'| && forall b :: 0 <= b < |m| ==> (m[b] == Meta(0, false, 0) <==> m'[b] == Meta(0, false, 0))
    ensures NoRoom(m', home) <==> NoRoom(m, home)
  {
    hide Pos;
    forall d: nat
      ensures Full(m', home, d) <==> Full(m, home, d)
    {}
  }

  lemma Sizes<K, V>(st: State<K, V>)
    requires st.Shaped()
    ensures |st.meta| == |st.nodes| && |st.meta| > 0 && |st.bk| == BucketCount(|st.meta|)
    ensures |st.bk| <= |st.meta|
  {}

  // ---- walks along one chain ----

  /** `c` holds a key of the chain of `home`, at displacement less than `limit`. */
  ghost predicate On<K, V>(st: State<K, V>, loose: set<nat>, home: nat, c: nat, limit: nat) {
    c < |st.bk| && c < |st.meta| && Member(st.nodes, loose, c) && st.nodes[c].home == home && st.nodes[c].dist < limit
  }

  ghost function DistOf(s: seq<Node>, c: nat): nat {
    if c < |s| && s[c].Node? then s[c].dist else 0
  }

  lemma OnHome<K, V>(st: State<K, V>, hash: K -> nat, loose: set<nat>, home: nat, limit: nat)
    requires st.Wf(hash, |st.nodes|, loose) && home < |st.meta| && st.meta[home].home && limit > 0
    ensures On(st, loose, home, home, limit)
  {
    hide Chained, HomeOf, Frag;
    assert st.Tied(hash, home);
    HeadFacts(st.nodes, loose, home);
  }

  /** The search for the place behind which a key at displacement `d` is linked. */
  lemma SeekStep<K, V>(st: State<K, V>, hash: K -> nat, loose: set<nat>, home: nat, d: nat, e: nat, c: nat)
    requires st.Wf(hash, |st.nodes|, loose) && On(st, loose, home, c, d) && d < 0x7FF
    requires e < |st.meta| && st.meta[e] == Meta(0, false, 0) && e == Pos(|st.meta| - 1, home, d)
    ensures st.meta[c].disp == st.nodes[c].next
    ensures st.meta[c].disp <= d ==>
      var c' := Pos(|st.meta| - 1, home, st.meta[c].disp);
      On(st, loose, home, c', d) && DistOf(st.nodes, c) < DistOf(st.nodes, c') < 0x7FF
  {
    hide Chained, HomeOf, Frag, Pos;
    assert st.Tied(hash, c);
    Occupied(st, hash, |st.nodes|, loose, e);
    if st.meta[c].disp <= d {
      NextFacts(st.nodes, loose, c);
      assert st.Tied(hash, Pos(|st.meta| - 1, home, st.meta[c].disp));
    }
  }

  /** The search for the key in front of `x` in its chain. */
  lemma PrevStep<K, V>(st: State<K, V>, hash: K -> nat, loose: set<nat>, x: nat, c: nat)
    requires st.Wf(hash, |st.nodes|, loose) && Member(st.nodes, loose, x)
    requires On(st, loose, st.nodes[x].home, c, st.nodes[x].dist)
    ensures st.meta[c].disp == st.nodes[c].next
    ensures var c' := Pos(|st.meta| - 1, st.nodes[x].home, st.meta[c].disp);
      if c' == x then st.nodes[c].next == st.nodes[x].dist
      else On(st, loose, st.nodes[x].home, c', st.nodes[x].dist) && DistOf(st.nodes, c) < DistOf(st.nodes, c') < 0x7FF
  {
    hide Chained, HomeOf, Frag, Pos;
    assert st.Tied(hash, c);
    LinkNames(st.nodes, loose, c, x);
    if st.nodes[c].next != st.nodes[x].dist {
      NextFacts(st.nodes, loose, c);
      assert st.Tied(hash, Pos(|st.meta| - 1, st.nodes[x].home, st.meta[c].disp));
    }
  }

  /** The walk to the end of a chain. */
  lemma LastStep<K, V>(st: State<K, V>, hash: K -> nat, loose: set<nat>, home: nat, c: nat)
    requires st.Wf(hash, |st.nodes|, loose) && On(st, loose, home, c, 0x7FF) && st.meta[c].disp != 0x7FF
    ensures var c' := Pos(|st.meta| - 1, home, st.meta[c].disp);
      On(st, loose, home, c', 0x7FF) && DistOf(st.nodes, c) < DistOf(st.nodes, c') < 0x7FF
    ensures var c' := Pos(|st.meta| - 1, home, st.meta[c].disp); st.nodes[c].next == st.nodes[c'].dist && c' != c
  {
    hide Chained, HomeOf, Frag, Pos;
    assert st.Tied(hash, c);
    NextFacts(st.nodes, loose, c);
    assert st.Tied(hash, Pos(|st.meta| - 1, home, st.meta[c].disp));
  }

  lemma OnFacts<K, V>(st: State<K, V>, hash: K -> nat, loose: set<nat>, home: nat, c: nat, limit: nat)
    requires st.Wf(hash, |st.nodes|, loose) && On(st, loose, home, c, limit)
    ensures st.Shaped() && c < |st.bk| && c < |st.meta| && c < |st.nodes|
    ensures st.nodes[c].Node? && c !in loose && st.bk[c].Slot?
    ensures Member(st.nodes, loose, c) && st.nodes[c].home == home && st.nodes[c].dist < limit
    ensures st.nodes[c].dist == DistOf(st.nodes, c) < 0x7FF && st.meta[c].disp == st.nodes[c].next
    ensures st.meta[c].home <==> st.nodes[c].dist == 0
  {
    hide Chained, HomeOf, Frag, Pos;
    assert st.Tied(hash, c);
    NodeFacts(st.nodes, loose, c);
  }

  lemma HeadOfChain<K, V>(st: State<K, V>, hash: K -> nat, loose: set<nat>, home: nat, x: nat)
    requires st.Wf(hash, |st.nodes|, loose) && On(st, loose, home, x, 0x7FF)
    ensures home < |st.meta| && st.meta[home].home && st.meta[home] != Meta(0, false, 0)
    ensures st.nodes[x].dist > 0 ==> On(st, loose, home, home, st.nodes[x].dist)
  {
    hide Chained, HomeOf, Frag, Pos;
    NodeFacts(st.nodes, loose, x);
    assert st.Tied(hash, home);
  }

  lemma Resident<K, V>(st: State<K, V>, hash: K -> nat, loose: set<nat>, b: nat)
    requires st.Wf(hash, |st.nodes|, loose) && b < |st.meta| && b !in loose && st.meta[b] != Meta(0, false, 0)
    ensures b < |st.bk| && st.bk[b].Slot? && |st.bk| == |st.meta|
    ensures st.bk[b].key in st.where && st.where[st.bk[b].key] == b
    ensures On(st, loose, HomeOf(hash(st.bk[b].key), |st.meta| - 1), b, 0x7FF)
  {
    hide Chained, HomeOf, Frag, Pos;
    assert st.Tied(hash, b);
    NodeFacts(st.nodes, loose, b);
  }

  lemma NotFull<K, V>(st: State<K, V>, home: nat, d: nat)
    requires !Full(st.meta, home, d) && st.meta != []
    ensures st.meta[Pos(|st.meta| - 1, home, d)] == Meta(0, false, 0)
  {}

  /** What is left of the chain when `x` has been cut out of it. */
  lemma CutOn<K, V>(st: State<K, V>, hash: K -> nat, loose: set<nat>, home: nat, prev: nat, x: nat)
    requires st.Wf(hash, |st.nodes|, loose) && On(st, loose, home, x, 0x7FF)
    requires st.nodes[x].Node? && On(st, loose, home, prev, st.nodes[x].dist) && st.nodes[prev].next == st.nodes[x].dist
    ensures var t := st.Cut(prev, x);
      t.Wf(hash, |st.nodes|, loose + {x}) && t.View() == st.View() && On(t, loose + {x}, home, prev, 0x7FF)
  {
    hide Chained, HomeOf, Frag, Pos;
    NodeFacts(st.nodes, loose, x);
    CutWritten(st, hash, loose, prev, x);
  }

  lemma FoundAt<K, V>(st: State<K, V>, hash: K -> nat, hole: nat, loose: set<nat>, key: K)
    requires st.Wf(hash, hole, loose)
    ensures key in st.where <==> key in st.View()
    ensures key in st.where ==> var b := st.where[key];
      b < |st.bk| && b < |st.nodes| && st.bk[b].Slot? && st.bk[b].key == key && st.View()[key] == st.bk[b].val
  {
    hide Chained, HomeOf, Frag;
    if key in st.where { assert st.Indexed(key); }
  }

  lemma FoundIndexed<K, V>(st: State<K, V>, hash: K -> nat, loose: set<nat>, key: K)
    requires st.Wf(hash, |st.nodes|, loose) && key in st.where
    ensures st.Indexed(key) && st.where[key] < |st.bk|
  {
    hide Chained, HomeOf, Frag;
    assert st.Indexed(key);
  }

  /** A free home bucket may take the place of the hole. */
  lemma Vacant<K, V>(st: State<K, V>, hash: K -> nat, loose: set<nat>, h: nat)
    requires st.Wf(hash, |st.nodes|, loose) && h < |st.nodes| && st.nodes[h].Free?
    ensures st.Wf(hash, h, loose)
  {}

  // ---- whole tables ----

  lemma EmptyTable<K, V>(st: State<K, V>, hash: K -> nat)
    requires st.Shaped() && IsPow2(|st.meta|) && st.where == map[]
    requires forall b :: 0 <= b < |st.meta| ==> st.meta[b] == Meta(0, false, 0) && st.nodes[b].Free?
    ensures st.Wf(hash, |st.nodes|, {}) && st.View() == map[]
  {
    Assemble(st.nodes, {});
  }

  /** What the buckets before `i` hold. */
  ghost function Part<K, V>(st: State<K, V>, i: nat): map<K, V> {
    map k | k in st.where && st.where[k] < i && st.Indexed(k) :: st.bk[st.where[k]].val
  }

  lemma PartStart<K, V>(st: State<K, V>)
    ensures Part(st, 0) == map[]
  {}

  lemma PartStep<K, V>(st: State<K, V>, hash: K -> nat, loose: set<nat>, i: nat)
    requires st.Wf(hash, |st.nodes|, loose) && i < |st.meta|
    ensures st.meta[i] == Meta(0, false, 0) ==> Part(st, i + 1) == Part(st, i)
    ensures st.meta[i] != Meta(0, false, 0) ==>
      i < |st.bk| && st.bk[i].Slot? && st.bk[i].key !in Part(st, i)
      && Part(st, i + 1) == Part(st, i)[st.bk[i].key := st.bk[i].val]
    ensures st.meta[i] != Meta(0, false, 0) ==> |Part(st, i)| < |st.where|
  {
    hide Chained, HomeOf, Frag;
    Occupied(st, hash, |st.nodes|, loose, i);
    forall k | k in st.where
      ensures st.Indexed(k)
    {}
    if st.meta[i] == Meta(0, false, 0) {
      assert Part(st, i + 1) == Part(st, i);
    } else {
      assert Part(st, i + 1) == Part(st, i)[st.bk[i].key := st.bk[i].val];
      SubsetCount(Part(st, i).Keys, st.where.Keys);
    }
  }

  lemma PartWithin<K, V>(st: State<K, V>, hash: K -> nat, loose: set<nat>, i: nat)
    requires st.Wf(hash, |st.nodes|, loose)
    ensures forall k :: k in Part(st, i) ==> k in st.View() && Part(st, i)[k] == st.View()[k]
  {}

  lemma PartAll<K, V>(st: State<K, V>, hash: K -> nat, loose: set<nat>)
    requires st.Wf(hash, |st.nodes|, loose)
    ensures Part(st, |st.meta|) == st.View() && |st.View()| == |st.where|
  {
    hide Chained, HomeOf, Frag;
    forall k | k in st.where
      ensures st.Indexed(k)
    {}
    assert st.View().Keys == st.where.Keys;
  }

  lemma KeyCount<K, V>(st: State<K, V>, hash: K -> nat, hole: nat, loose: set<nat>)
    requires st.Wf(hash, hole, loose)
    ensures st.View().Keys == st.where.Keys && |st.View()| == |st.where|
  {
    hide Chained, HomeOf, Frag;
    forall k | k in st.where
      ensures st.Indexed(k)
    {}
    assert st.View().Keys == st.where.Keys;
  }

  /** The placeholder of a table without buckets is empty. */
  lemma Placeholder<K, V>(st: State<K, V>, hash: K -> nat, loose: set<nat>)
    requires st.Wf(hash, |st.nodes|, loose) && BucketCount(|st.meta|) < |st.meta|
    ensures |st.meta| == 1 && st.meta[0] == Meta(0, false, 0)
  {
    hide Chained, HomeOf, Frag;
    assert st.Tied(hash, 0);
  }

  /** Without the placeholder the buckets hold everything. */
  lemma PartRest<K, V>(st: State<K, V>, hash: K -> nat, loose: set<nat>, i: nat)
    requires st.Wf(hash, |st.nodes|, loose) && BucketCount(|st.meta|) <= i <= |st.meta|
    ensures Part(st, i) == st.View()
  {
    hide State.Wf, Part, BucketCount, Chained, HomeOf, Frag;
    Basics(st, hash, |st.nodes|, loose);
    if i < |st.meta| {
      Placeholder(st, hash, loose);
      PartStep(st, hash, loose, 0);
    }
    PartAll(st, hash, loose);
  }

  lemma NextSize<K, V>(st: State<K, V>, hash: K -> nat, loose: set<nat>)
    requires st.Wf(hash, |st.nodes|, loose)
    ensures IsPow2(8) && IsPow2(|st.meta|) && IsPow2(2 * |st.meta|)
  {
    Basics(st, hash, |st.nodes|, loose);
    Pow2Double(|st.meta|);
    assert IsPow2(2);
  }

  lemma OthersApart<K, V>(st: State<K, V>, hash: K -> nat, loose: set<nat>, b: nat)
    requires st.Wf(hash, |st.nodes|, loose) && b < |st.bk| && st.bk[b].Slot?
    ensures forall k :: k in st.where && k != st.bk[b].key ==> st.where[k] != b
  {
    hide Chained, HomeOf, Frag;
    forall k | k in st.where
      ensures st.Indexed(k)
    {}
  }

  lemma AtHome<K, V>(st: State<K, V>, hash: K -> nat, loose: set<nat>, home: nat, b: nat)
    requires st.Wf(hash, |st.nodes|, loose) && On(st, loose, home, b, 0x7FF)
    ensures st.meta[b].home ==> home == b
    ensures home < |st.meta|
  {
    hide Chained, HomeOf, Frag, Pos;
    assert st.Tied(hash, b);
    HeadFacts(st.nodes, loose, b);
    NodeFacts(st.nodes, loose, b);
  }

  lemma Nearer<K, V>(st: State<K, V>, loose: set<nat>, home: nat, c: nat, limit: nat)
    requires On(st, loose, home, c, 0x7FF) && DistOf(st.nodes, c) < limit
    ensures On(st, loose, home, c, limit)
  {}

  /** The last key of a chain is unlinked and erased. */
  lemma EndWritten<K, V>(st: State<K, V>, hash: K -> nat, loose: set<nat>, home: nat, prev: nat, b: nat)
    requires st.Wf(hash, |st.nodes|, loose) && On(st, loose, home, b, 0x7FF) && st.meta[b].disp == 0x7FF
    requires st.nodes[b].Node? && On(st, loose, home, prev, st.nodes[b].dist)
    requires st.nodes[prev].Node? && st.nodes[prev].next == st.nodes[b].dist
    ensures st.Shaped() && b < |st.bk| && prev < |st.bk| && st.bk[b].Slot? && st.bk[b].key in st.where
    ensures var t := st.EndErased(prev, b);
      t.Wf(hash, |st.nodes|, loose) && t.View() == st.View() - {st.bk[b].key} && |t.where| == |st.where| - 1
  {
    hide Chained, Pos, HomeOf, Frag, State.Wf, State.View, On, DistOf;
    OnFacts(st, hash, loose, home, b, 0x7FF);
    OnFacts(st, hash, loose, home, prev, st.nodes[b].dist);
    Occupied(st, hash, |st.nodes|, loose, b);
    CutOn(st, hash, loose, home, prev, b);
    ErasedWritten(st.Cut(prev, b), hash, loose + {b}, b);
    assert loose + {b} - {b} == loose;
    assert st.EndErased(prev, b) == st.Cut(prev, b).Erased(b);
  }

  /** The last key of a chain moves into the bucket of an erased one. */
  lemma LastWritten<K, V>(st: State<K, V>, hash: K -> nat, loose: set<nat>, home: nat, b: nat, prev: nat, last: nat)
    requires st.Wf(hash, |st.nodes|, loose) && b != last
    requires On(st, loose, home, b, 0x7FF) && On(st, loose, home, last, 0x7FF)
    requires last < |st.nodes| && st.nodes[last].Node? && On(st, loose, home, prev, st.nodes[last].dist)
    requires prev < |st.nodes| && st.nodes[prev].Node? && st.nodes[prev].next == st.nodes[last].dist
    requires st.meta[last].disp == 0x7FF
    ensures st.Shaped() && b < |st.bk| && last < |st.bk| && prev < |st.bk| && st.bk[b].Slot? && prev != last
    ensures st.bk[last].Slot? && st.bk[last].key in st.where && st.where[st.bk[last].key] == last
    ensures st.bk[b].key in st.where && st.bk[b].key != st.bk[last].key
    ensures var t := st.LastMoved(b, prev, last);
      t.Wf(hash, |st.nodes|, loose) && t.View() == st.View() - {st.bk[b].key}
  {
    hide Chained, Pos, HomeOf, Frag, State.Wf, State.View, On, DistOf;
    OnFacts(st, hash, loose, home, b, 0x7FF);
    OnFacts(st, hash, loose, home, last, 0x7FF);
    OnFacts(st, hash, loose, home, prev, st.nodes[last].dist);
    Occupied(st, hash, |st.nodes|, loose, last);
    Occupied(st, hash, |st.nodes|, loose, b);
    CutOn(st, hash, loose, home, prev, last);
    FilledWritten(st.Cut(prev, last), hash, loose + {last}, b, last);
    assert loose + {last} - {last} == loose;
    assert st.LastMoved(b, prev, last) == st.Cut(prev, last).Filled(b, last);
  }
}
