/** The copy of a Robin Hood table, slot by slot. */
module OashCopy {
  import opened Words
  import opened RobinHood
  import opened OashSpec
  import opened Oash
  import opened OashRuns

  /** The element of a copy: NULL stays NULL. */
  function Copied<V>(dup: V -> V, v: Option<V>): Option<V> {
    if v.Some? then Some(dup(v.value)) else None
  }

  /** The key in slot `i`. */
  ghost function SlotKey(t: seq<Entry>, d: seq<Option<Key>>, i: nat): Option<Key>
    requires i < |t|
  {
    if Occupied(t[i]) && t[i].dataIndex < |d| then d[t[i].dataIndex] else None
  }

  /** The keys of the first `i` slots. */
  ghost function KeysTo(t: seq<Entry>, d: seq<Option<Key>>, i: nat): set<Key>
    requires i <= |t|
  {
    set k: nat | k < i && SlotKey(t, d, k).Some? :: SlotKey(t, d, k).value
  }

  lemma KeysToStep(raw: Key -> u32, t: seq<Entry>, d: seq<Option<Key>>, m: map<Key, nat>, i: nat)
    requires Linked(raw, t, d, m) && i < |t|
    ensures !Occupied(t[i]) ==> KeysTo(t, d, i + 1) == KeysTo(t, d, i)
    ensures Occupied(t[i]) ==> SlotKey(t, d, i).Some? && SlotKey(t, d, i).value in m
                               && SlotKey(t, d, i).value !in KeysTo(t, d, i)
                               && KeysTo(t, d, i + 1) == KeysTo(t, d, i) + {SlotKey(t, d, i).value}
                               && t[i].hash == HashOf(raw, SlotKey(t, d, i).value)
                               && t[i].dataIndex == m[SlotKey(t, d, i).value]
  {
    if Occupied(t[i]) {
      MatchFacts(raw, t, d, m, [1], i);
      var key := SlotKey(t, d, i).value;
      forall k: nat | k < i && SlotKey(t, d, k).Some?
        ensures SlotKey(t, d, k).value != key
      {
        SlotsDiffer(raw, t, d, m, k, i);
        MatchFacts(raw, t, d, m, key, k);
        MatchFacts(raw, t, d, m, key, i);
      }
    }
  }

  /** All slots together hold exactly the keys of the table. */
  lemma KeysToEnd(raw: Key -> u32, t: seq<Entry>, d: seq<Option<Key>>, m: map<Key, nat>)
    requires Linked(raw, t, d, m)
    ensures KeysTo(t, d, |t|) == m.Keys
  {
    forall k | k in m
      ensures k in KeysTo(t, d, |t|)
    {
      var p := KeyAt(raw, t, d, m, k);
      assert SlotKey(t, d, p) == Some(k);
    }
    forall i: nat | i < |t| && SlotKey(t, d, i).Some?
      ensures SlotKey(t, d, i).value in m
    {
      MatchFacts(raw, t, d, m, [1], i);
    }
  }

  lemma KeysToBound(t: seq<Entry>, d: seq<Option<Key>>, i: nat)
    requires i <= |t|
    ensures KeysTo(t, d, i) <= KeysTo(t, d, |t|)
  {}

  // ---- the copy ----

  lemma CopyStart(cap: nat)
    requires IsPow2(cap) && 4 <= cap
    ensures RoundUp(cap) == cap
  {
    assert IsPow2(4) by { assert IsPow2(2); }
    DoublesTo(4, cap);
  }

  lemma {:induction false} DoublesTo(r: nat, cap: nat)
    requires IsPow2(r) && IsPow2(cap) && r <= cap
    ensures DoubleUntil(r, cap) == cap
    decreases cap - r
  {
    if r < cap {
      Pow2Gap(r, cap);
      DoublesTo(2 * r, cap);
    }
  }

  ghost predicate Fresh<V>(h: Table<V>, key: Key, keys: set<Key>)
    reads h, h.table, h.data
  {
    h.Valid() && h.HasCells() && h.cells.Keys == keys && key !in keys && h.size < h.cap && !h.GrowsWith(key)
  }

  lemma FreshFacts<V>(h: Table<V>, key: Key, keys: set<Key>)
    requires Fresh(h, key, keys)
    ensures h.Valid() && h.HasCells() && h.cells.Keys == keys && key !in h.cells && h.size < h.cap && !h.GrowsWith(key)
    ensures !(h.flags.rehash && h.cap - (h.size + 1) <= h.cap / 3)
    ensures h.Touched(key, Die) == {} && h.View().Keys == keys == Values(h).Keys
    ensures forall k :: k in h.View() ==> Values(h)[k] == h.View()[k].data && allocated(h.View()[k])
    ensures h.Hash(key) == HashOf(h.rawHash, key) && (h.Clashes(key) <==> h.JobFor(key).Clash())
    ensures h.JobFor(key) == Job(h.rawHash, h.table[..], KeysOf(h.data), h.cells, Some(key),
                                 Entry(HashOf(h.rawHash, key), 0, |key|, 0))
  {
    h.ValidFacts(key);
  }

  lemma StoredKeys<V>(h: Table<V>, v: map<Key, Dentry<V>>, key: Key, de: Dentry<V>)
    requires h.HasCells() && h.View() == v[key := de]
    ensures h.cells.Keys == v.Keys + {key}
  {
    assert h.cells.Keys == h.View().Keys;
  }

  // ---- the insertions of a copy ----

  /** The job is the insertion of the key in slot `k`. */
  ghost predicate OfSlot(raw: Key -> u32, t: seq<Entry>, d: seq<Option<Key>>, k: nat, job: Job) {
    && k < |t| && Occupied(t[k]) && job.raw == raw && job.key.Some? && job.key == SlotKey(t, d, k)
    && job.e == Entry(t[k].hash, 0, t[k].klen, 0)
  }

  /** The insertions `jobs`, one for each occupied slot of `t` in turn, make an empty table into the slots
      `c` with the cells `e` and the map `m`. */
  ghost predicate Copies(raw: Key -> u32, t: seq<Entry>, d: seq<Option<Key>>, jobs: seq<Option<Job>>,
                         c: seq<Entry>, e: seq<Option<Key>>, m: map<Key, nat>)
    decreases |jobs|
  {
    if jobs == [] then
      && |c| == |t| && |e| == |d| && m == map[] && (forall i :: 0 <= i < |c| ==> !Occupied(c[i]))
      && forall j :: 0 <= j < |e| ==> e[j].None?
    else
      var k := |jobs| - 1;
      k < |t| && match jobs[k]
        case None => !Occupied(t[k]) && Copies(raw, t, d, jobs[..k], c, e, m)
        case Some(job) =>
          OfSlot(raw, t, d, k, job) && job.Into(c, e, m) && Copies(raw, t, d, jobs[..k], job.t, job.d, job.m)
  }

  /** The job is the next insertion after `jobs`. */
  ghost predicate Begins(raw: Key -> u32, t: seq<Entry>, d: seq<Option<Key>>, jobs: seq<Option<Job>>, job: Job) {
    OfSlot(raw, t, d, |jobs|, job) && Copies(raw, t, d, jobs, job.t, job.d, job.m)
  }

  lemma CopiesMore(raw: Key -> u32, t: seq<Entry>, d: seq<Option<Key>>, jobs: seq<Option<Job>>, job: Option<Job>,
                   c: seq<Entry>, e: seq<Option<Key>>, m: map<Key, nat>)
    requires |jobs| < |t|
    requires match job
      case None => !Occupied(t[|jobs|]) && Copies(raw, t, d, jobs, c, e, m)
      case Some(j) => Begins(raw, t, d, jobs, j) && j.Into(c, e, m)
    ensures Copies(raw, t, d, jobs + [job], c, e, m)
  {
    hide OfSlot, SlotKey;
    assert (jobs + [job])[..|jobs|] == jobs;
  }

  /** The first `n` slots of `c` agree with those of `t` in everything but the cell; the others are empty. */
  ghost predicate Mirrors(t: seq<Entry>, c: seq<Entry>, n: nat) {
    && |c| == |t| && n <= |t|
    && (forall i {:trigger c[i]} :: 0 <= i < n ==> if Occupied(t[i]) then c[i] == t[i].(dataIndex := c[i].dataIndex)
                                                 else !Occupied(c[i]))
    && forall i {:trigger c[i]} :: n <= i < |t| ==> !Occupied(c[i])
  }

  /** If the first slot is a stop, no entry stands in a slot before its home. */
  lemma NoWrap(t: seq<Entry>, i: nat)
    requires Ordered(t) && i < |t| && Occupied(t[i]) && IsStop(t[0])
    ensures Home(|t|, t[i].hash) <= i
  {
    hide BitAnd;
    assert Fits(t, i, t[i]);
    var h := Home(|t|, t[i].hash);
    if h > i { ProbePath(t, i, |t| - h); }
  }

  lemma MirrorStraight(t: seq<Entry>, job: Job, i: nat)
    requires Ordered(t) && i < |t| && Occupied(t[i]) && IsStop(t[0])
    requires Mirrors(t, job.t, i) && job.e.hash == t[i].hash
    ensures job.StraightTo(i) && Dist(|t|, Home(|t|, t[i].hash), i) == t[i].psl
  {
    hide BitAnd;
    NoWrap(t, i);
    var cap, h := |t|, Home(|t|, t[i].hash);
    assert Fits(t, i, t[i]);
    forall j | 0 <= j < cap && Dist(cap, h, j) < Dist(cap, h, i)
      ensures Occupied(job.t[j]) && job.t[j].psl >= Dist(cap, h, j)
    {
      ProbePath(t, i, j - h);
    }
  }

  lemma MirrorMore(t: seq<Entry>, d: seq<Option<Key>>, raw: Key -> u32, job: Job, i: nat,
                   c: seq<Entry>, e: seq<Option<Key>>, m: map<Key, nat>)
    requires Ordered(t) && OfSlot(raw, t, d, i, job) && IsStop(t[0]) && Mirrors(t, job.t, i) && job.Into(c, e, m)
    ensures Mirrors(t, c, i + 1)
  {
    hide BitAnd, Ordered, Job.StraightTo, SlotKey;
    MirrorStraight(t, job, i);
    var u: seq<Entry>, re: nat, j: u32 :| job.IntoAt(u, re, j, c, e, m);
    assert re == i && job.SettledAt(u, i);
  }

  /** Copying in slot order rebuilds the table without displacing an entry, if no entry wraps round. */
  lemma {:induction false} CopyMirrors(raw: Key -> u32, t: seq<Entry>, d: seq<Option<Key>>, jobs: seq<Option<Job>>,
                                       c: seq<Entry>, e: seq<Option<Key>>, m: map<Key, nat>)
    requires Ordered(t) && t != [] && IsStop(t[0]) && Copies(raw, t, d, jobs, c, e, m)
    ensures Mirrors(t, c, |jobs|)
    decreases |jobs|
  {
    hide Ordered, IsStop, OfSlot, Job.Into;
    if jobs != [] {
      var k := |jobs| - 1;
      match jobs[k]
      case None => CopyMirrors(raw, t, d, jobs[..k], c, e, m);
      case Some(job) =>
        CopyMirrors(raw, t, d, jobs[..k], job.t, job.d, job.m);
        MirrorMore(t, d, raw, job, k, c, e, m);
    }
  }

  /** Then no insertion of the copy clashes. */
  lemma NoClashInOrder(raw: Key -> u32, t: seq<Entry>, d: seq<Option<Key>>, jobs: seq<Option<Job>>, job: Job)
    requires Ordered(t) && t != [] && IsStop(t[0]) && Begins(raw, t, d, jobs, job)
    ensures !job.Clash()
  {
    hide Ordered, IsStop, Copies, Job.StraightTo, Job.Clash, Mirrors;
    CopyMirrors(raw, t, d, jobs, job.t, job.d, job.m);
    MirrorStraight(t, job, |jobs|);
    job.StraightNoClash(|jobs|);
  }

  /** `n_oash_hinsert` of a key that is not there, into a table that has room for it. */
  method InsertCopy<V>(h: Table<V>, key: Key, khash: u32, value: Option<V>, ghost keys: set<Key>)
    returns (aborted: bool)
    requires Fresh(h, key, keys) && h.HasCells() && khash == HashOf(h.rawHash, key)
    modifies h, h.table, h.data
    ensures aborted <==> old(h.JobFor(key)).Clash()
    ensures aborted ==> TwinPrefix(h.rawHash, keys, key)
    ensures !aborted ==> old(h.JobFor(key)).Into(h.table[..], KeysOf(h.data), h.cells)
    ensures !aborted ==> h.Valid() && h.HasCells() && h.cells.Keys == keys + {key}
    ensures !aborted ==> h.cap == old(h.cap) && h.flags == old(h.flags) && h.size == old(h.size) + 1
    ensures !aborted ==> (h.table == old(h.table) || fresh(h.table)) && (h.data == old(h.data) || fresh(h.data))
    ensures !aborted ==> Values(h) == old(Values(h))[key := value]
  {
    hide *;
    FreshFacts(h, key, keys);
    ClashesNeedTwins(h, key);
    ghost var v, m := h.View(), Values(h);
    var de;
    de, aborted := h.Put(key, khash, value, Die);
    if aborted { return; }
    StoredView(h, v, m, key, value, Die, de);
    StoredKeys(h, v, key, de);
  }

  /** The part of the copy made from the keys in `keys`. */
  ghost function CopyOf<V>(m: Model<V>, dup: V -> V, keys: set<Key>): Model<V> {
    map k | k in m && k in keys :: Copied(dup, m[k])
  }

  /** The table that is copied, as values. */
  ghost predicate Source(raw: Key -> u32, t: seq<Entry>, d: seq<Option<Key>>, m: map<Key, nat>, n: nat, rehash: bool) {
    State(raw, t, d, m, n) && (rehash ==> |t| - n > |t| / 3)
  }

  /** A copy in progress always has room and never has to grow. */
  lemma CopyRoom<V>(h: Table<V>, raw: Key -> u32, t: seq<Entry>, d: seq<Option<Key>>, m: map<Key, nat>, n: nat, i: nat)
    requires Source(raw, t, d, m, n, h.flags.rehash) && i < |t| && Occupied(t[i])
    requires h.Valid() && h.HasCells() && h.cells.Keys == KeysTo(t, d, i) && h.cap == |t|
    ensures t[i].dataIndex < |d| && d[t[i].dataIndex].Some?
    ensures var key := d[t[i].dataIndex].value;
            && Fresh(h, key, KeysTo(t, d, i)) && key in m && m[key] == t[i].dataIndex && t[i].hash == HashOf(raw, key)
            && KeysTo(t, d, i + 1) == KeysTo(t, d, i) + {key} && KeysTo(t, d, i) <= m.Keys && t[i].klen == |key|
  {
    hide Content, Ordered;
    MatchFacts(raw, t, d, m, [1], i);
    h.ValidFacts([1]);
    h.CellFacts();
    KeysToStep(raw, t, d, m, i);
    KeysToEnd(raw, t, d, m);
    KeysToBound(t, d, i + 1);
    KeysToBound(t, d, i);
    SubsetSize(KeysTo(t, d, i + 1), m.Keys);
    assert |h.cells| == |h.cells.Keys| && |m| == |m.Keys|;
  }

  lemma CopyStep<V>(m: Model<V>, dup: V -> V, keys: set<Key>, key: Key)
    requires key in m && keys <= m.Keys
    ensures CopyOf(m, dup, keys + {key}) == CopyOf(m, dup, keys)[key := Copied(dup, m[key])]
  {}

  lemma SourceFacts<V>(ht: Table<V>)
    requires ht.Valid()
    ensures ht.HasCells() && ht.cap == ht.table.Length == ht.dcap == ht.data.Length && IsPow2(ht.cap)
    ensures 4 <= ht.cap <= 0x1_0000 && |ht.table[..]| == ht.cap
    ensures Source(ht.rawHash, ht.table[..], KeysOf(ht.data), ht.cells, ht.size, ht.flags.rehash)
    ensures Values(ht).Keys == ht.cells.Keys
    ensures forall j {:trigger KeysOf(ht.data)[j]} :: 0 <= j < |KeysOf(ht.data)| && KeysOf(ht.data)[j].Some? ==>
              j < ht.data.Length && ht.data[j] != null && ht.data[j].key == KeysOf(ht.data)[j].value
    ensures forall k :: k in ht.cells ==> ht.cells[k] < ht.data.Length && ht.data[ht.cells[k]] != null
                                          && Values(ht)[k] == ht.data[ht.cells[k]].data
    ensures KeysTo(ht.table[..], KeysOf(ht.data), 0) == {}
    ensures KeysTo(ht.table[..], KeysOf(ht.data), ht.cap) == ht.cells.Keys
  {
    KeysToEnd(ht.rawHash, ht.table[..], KeysOf(ht.data), ht.cells);
  }

  lemma NoValues<V>(h: Table<V>, m: Model<V>, dup: V -> V)
    requires h.HasCells() && h.View() == map[]
    ensures Values(h) == map[] == CopyOf(m, dup, {})
  {
    assert h.View().Keys == h.cells.Keys;
  }

  /** The copy `h` holds the first `i` slots of the table. */
  ghost predicate Partial<V>(h: Table<V>, raw: Key -> u32, t: seq<Entry>, d: seq<Option<Key>>, w: Model<V>,
                             dup: V -> V, flags: Flags, i: nat)
    reads h, h.table, h.data, set k | k in h.cells && h.HasCells() :: h.View()[k]
  {
    && i <= |t| && h.Valid() && h.HasCells() && h.rawHash == raw && h.cap == |t|
    && h.flags == flags.(nocpkey := false)
    && h.cells.Keys == KeysTo(t, d, i) && Values(h) == CopyOf(w, dup, KeysTo(t, d, i))
  }

  lemma PartialFacts<V>(h: Table<V>, raw: Key -> u32, t: seq<Entry>, d: seq<Option<Key>>, w: Model<V>,
                        dup: V -> V, flags: Flags, i: nat)
    requires Partial(h, raw, t, d, w, dup, flags, i)
    ensures i <= |t| && h.Valid() && h.HasCells() && h.rawHash == raw && h.cap == |t|
    ensures h.flags.rehash == flags.rehash && h.flags == flags.(nocpkey := false)
    ensures h.cells.Keys == KeysTo(t, d, i) && Values(h) == CopyOf(w, dup, KeysTo(t, d, i))
  {}

  lemma PartialStep<V>(h: Table<V>, raw: Key -> u32, t: seq<Entry>, d: seq<Option<Key>>, m: map<Key, nat>, w: Model<V>,
                       dup: V -> V, flags: Flags, i: nat)
    requires i < |t| && h.Valid() && h.HasCells() && h.rawHash == raw && h.cap == |t|
    requires h.flags == flags.(nocpkey := false) && Linked(raw, t, d, m) && w.Keys == m.Keys
    requires if Occupied(t[i])
             then SlotKey(t, d, i).Some? && SlotKey(t, d, i).value in w
                  && h.cells.Keys == KeysTo(t, d, i) + {SlotKey(t, d, i).value}
                  && Values(h) == CopyOf(w, dup, KeysTo(t, d, i))[SlotKey(t, d, i).value :=
                                                                   Copied(dup, w[SlotKey(t, d, i).value])]
             else h.cells.Keys == KeysTo(t, d, i) && Values(h) == CopyOf(w, dup, KeysTo(t, d, i))
    ensures Partial(h, raw, t, d, w, dup, flags, i + 1)
  {
    hide Linked;
    KeysToStep(raw, t, d, m, i);
    if Occupied(t[i]) {
      KeysToEnd(raw, t, d, m);
      KeysToBound(t, d, i);
      CopyStep(w, dup, KeysTo(t, d, i), SlotKey(t, d, i).value);
    }
  }

  lemma TwinsGrow(raw: Key -> u32, few: set<Key>, many: set<Key>, key: Key)
    requires TwinPrefix(raw, few, key) && few <= many && key in many
    ensures CopyTwins(raw, many)
  {
    var a, b :| a in few && b in few && a != b && HashOf(raw, a) == HashOf(raw, b) && |a| == |b| && b < key;
    assert a in many && b in many;
    assert TwinPrefix(raw, many, key);
  }

  /** Among the keys are two twins, one of them a proper prefix of a third key. */
  ghost predicate CopyTwins(raw: Key -> u32, keys: set<Key>) {
    exists key :: key in keys && TwinPrefix(raw, keys, key)
  }

  /** The table that is copied, captured as values before the copy begins. */
  ghost predicate Captured<V>(ht: Table<V>, t: seq<Entry>, d: seq<Option<Key>>, m: map<Key, nat>, w: Model<V>)
    reads ht, ht.table, ht.data
  {
    && Source(ht.rawHash, t, d, m, ht.size, ht.flags.rehash) && w.Keys == m.Keys
    && ht.cap == ht.table.Length == ht.data.Length == |d| && t == ht.table[..]
    && forall j {:trigger d[j]} :: 0 <= j < |d| && d[j].Some? ==> ht.data[j] != null && ht.data[j].key == d[j].value
  }

  lemma Capture<V>(ht: Table<V>)
    requires ht.Valid() && ht.HasCells()
    ensures Captured(ht, ht.table[..], KeysOf(ht.data), ht.cells, Values(ht))
    ensures IsPow2(ht.cap) && 4 <= ht.cap <= 0x1_0000 && RoundUp(ht.cap) == ht.cap == |ht.table[..]|
    ensures forall k :: k in ht.cells ==> ht.cells[k] < ht.data.Length && ht.data[ht.cells[k]] != null
                                          && k in Values(ht) && Values(ht)[k] == ht.data[ht.cells[k]].data
  {
    SourceFacts(ht);
    CopyStart(ht.cap);
  }

  lemma PartialStart<V>(h: Table<V>, raw: Key -> u32, t: seq<Entry>, d: seq<Option<Key>>, w: Model<V>,
                        dup: V -> V, flags: Flags)
    requires h.Valid() && h.HasCells() && h.View() == map[] && h.rawHash == raw && h.cap == |t|
    requires h.flags == flags.(nocpkey := false)
    ensures Partial(h, raw, t, d, w, dup, flags, 0)
  {
    NoValues(h, w, dup);
    assert h.View().Keys == h.cells.Keys;
    assert KeysTo(t, d, 0) == {};
  }

  /** What slot `i` of the table that is copied says about its key. */
  lemma SlotToCopy<V>(ht: Table<V>, h: Table<V>, dup: V -> V, i: nat,
                      t: seq<Entry>, d: seq<Option<Key>>, m: map<Key, nat>, w: Model<V>)
    requires Captured(ht, t, d, m, w) && Partial(h, ht.rawHash, t, d, w, dup, ht.flags, i)
    requires i < |t| && Occupied(t[i])
    ensures var j := t[i].dataIndex;
            && j < ht.data.Length && ht.data[j] != null && SlotKey(t, d, i) == Some(ht.data[j].key)
            && Fresh(h, ht.data[j].key, KeysTo(t, d, i)) && h.HasCells()
            && t[i].hash == HashOf(h.rawHash, ht.data[j].key) && t[i].klen == |ht.data[j].key|
            && ht.data[j].key in m && m[ht.data[j].key] == j && ht.data[j].key in w
            && KeysTo(t, d, i) <= m.Keys && h.cells.Keys == KeysTo(t, d, i)
  {
    hide Source, Partial, KeysTo, Table.Valid, CopyOf, KeysOf, Values;
    PartialFacts(h, ht.rawHash, t, d, w, dup, ht.flags, i);
    CopyRoom(h, ht.rawHash, t, d, m, ht.size, i);
  }

  /** The job for the key of slot `i` is the next one of the copy. */
  lemma NextJob<V>(h: Table<V>, t: seq<Entry>, d: seq<Option<Key>>, jobs: seq<Option<Job>>, key: Key, keys: set<Key>)
    requires Fresh(h, key, keys) && Copies(h.rawHash, t, d, jobs, h.table[..], KeysOf(h.data), h.cells)
    requires |jobs| < |t| && Occupied(t[|jobs|]) && SlotKey(t, d, |jobs|) == Some(key)
    requires t[|jobs|].hash == HashOf(h.rawHash, key) && t[|jobs|].klen == |key|
    ensures Begins(h.rawHash, t, d, jobs, h.JobFor(key))
  {
    hide Copies, Fresh, KeysOf, HashOf, Table.JobFor;
    FreshFacts(h, key, keys);
  }

  /** Copies one slot. `job` is the insertion this takes; it fails exactly if that clashes. */
  method CopySlot<V>(ht: Table<V>, h: Table<V>, dup: V -> V, i: nat, ghost jobs: seq<Option<Job>>,
                     ghost t: seq<Entry>, ghost d: seq<Option<Key>>, ghost m: map<Key, nat>, ghost w: Model<V>)
    returns (aborted: bool, ghost job: Option<Job>)
    requires Captured(ht, t, d, m, w) && Partial(h, ht.rawHash, t, d, w, dup, ht.flags, i)
    requires i == |jobs| < |t| == ht.table.Length && t == ht.table[..]
    requires Copies(ht.rawHash, t, d, jobs, h.table[..], KeysOf(h.data), h.cells)
    requires ht != h && ht.table != h.table && ht.data != h.data
    requires forall k :: k in m ==> m[k] < ht.data.Length && ht.data[m[k]] != null
                                    && k in w && w[k] == ht.data[m[k]].data
    modifies h, h.table, h.data
    ensures aborted <==> job.Some? && job.value.Clash()
    ensures job.Some? ==> Begins(ht.rawHash, t, d, jobs, job.value)
    ensures aborted ==> CopyTwins(ht.rawHash, m.Keys)
    ensures !aborted ==> Partial(h, ht.rawHash, t, d, w, dup, ht.flags, i + 1)
    ensures !aborted ==> Copies(ht.rawHash, t, d, jobs + [job], h.table[..], KeysOf(h.data), h.cells)
    ensures !aborted ==> (h.table == old(h.table) || fresh(h.table)) && (h.data == old(h.data) || fresh(h.data))
  {
    hide *;
    PartialFacts(h, ht.rawHash, t, d, w, dup, ht.flags, i);
    CapturedFacts(ht, t, d, m, w);
    aborted, job := false, None;
    if Occupied(ht.table[i]) {
      SlotToCopy(ht, h, dup, i, t, d, m, w);
      var e := ht.table[i];
      assert e == t[i];
      var de := ht.data[e.dataIndex];
      NextJob(h, t, d, jobs, de.key, KeysTo(t, d, i));
      job := Some(h.JobFor(de.key));
      var value := Copied(dup, de.data);
      aborted := InsertCopy(h, de.key, e.hash, value, KeysTo(t, d, i));
      if aborted {
        TwinsGrow(ht.rawHash, KeysTo(t, d, i), m.Keys, de.key);
        return;
      }
    }
    CopiesMore(ht.rawHash, t, d, jobs, job, h.table[..], KeysOf(h.data), h.cells);
    PartialStep(h, ht.rawHash, t, d, m, w, dup, ht.flags, i);
  }

  lemma CapturedFacts<V>(ht: Table<V>, t: seq<Entry>, d: seq<Option<Key>>, m: map<Key, nat>, w: Model<V>)
    requires Captured(ht, t, d, m, w)
    ensures w.Keys == m.Keys && Linked(ht.rawHash, t, d, m) && |t| == ht.cap && KeysTo(t, d, |t|) == m.Keys
  {
    hide Linked;
    KeysToEnd(ht.rawHash, t, d, m);
  }

  lemma CopyIs<V>(m: Model<V>, dup: V -> V, keys: set<Key>)
    requires m.Keys == keys
    ensures CopyOf(m, dup, keys).Keys == keys
    ensures forall k :: k in m ==>
      CopyOf(m, dup, keys)[k] == match m[k] case None => None case Some(v) => Some(dup(v))
  {}

  lemma CopyBegins<V>(h: Table<V>, raw: Key -> u32, t: seq<Entry>, d: seq<Option<Key>>)
    requires h.Valid() && h.View() == map[] && h.HasCells() && h.cells == map[] && h.cap == |t| == |d|
    ensures Copies(raw, t, d, [], h.table[..], KeysOf(h.data), h.cells)
  {
    h.CellFacts();
    forall i | 0 <= i < |h.table[..]|
      ensures !Occupied(h.table[..][i])
    {
      if Occupied(h.table[i]) { MatchFacts(h.rawHash, h.table[..], KeysOf(h.data), h.cells, [1], i); }
    }
  }

  lemma InOrder<V>(ht: Table<V>)
    requires ht.Valid()
    ensures ht.cap == ht.table.Length > 0 && Ordered(ht.table[..]) && ht.table[..] != []
    ensures ht.table[..][0] == ht.table[0]
  {
    ht.CellFacts();
  }

  /** `n_oash_dup`. The copy has the same keys, each with a copied element, the same capacity and the flags
      without NOCPKEY; it never grows on the way. `jobs` are the insertions that were completed, one for
      each occupied slot in turn. It fails exactly if the insertion `job` that comes next clashes; that
      takes twins in the table, one of them a proper prefix of a third key, and an entry that wraps
      round. Without the latter the copy has the slots of the table. */
  method Dup<V>(ht: Table<V>, dup: V -> V)
    returns (h: Table<V>, aborted: bool, ghost jobs: seq<Option<Job>>, ghost job: Option<Job>)
    requires ht.Valid() && ht.HasCells()
    ensures fresh(h)
    ensures aborted <==> job.Some? && job.value.Clash()
    ensures job.Some? ==> Begins(ht.rawHash, ht.table[..], KeysOf(ht.data), jobs, job.value)
    ensures aborted ==> CopyTwins(ht.rawHash, ht.cells.Keys)
    ensures !aborted ==> |jobs| == ht.cap
    ensures !aborted ==> Copies(ht.rawHash, ht.table[..], KeysOf(ht.data), jobs, h.table[..], KeysOf(h.data), h.cells)
    ensures ht.cap > 0 && ht.cap == ht.table.Length
    ensures IsStop(ht.table[0]) ==> !aborted && Mirrors(ht.table[..], h.table[..], ht.cap)
    ensures !aborted ==> h.Valid() && h.HasCells() && h.cap == ht.cap && h.rawHash == ht.rawHash
    ensures !aborted ==> h.flags == ht.flags.(nocpkey := false) && h.cells.Keys == ht.cells.Keys
    ensures !aborted ==> Values(h).Keys == old(Values(ht)).Keys
    ensures !aborted ==> forall k :: k in old(Values(ht)) ==>
      Values(h)[k] == match old(Values(ht))[k] case None => None case Some(v) => Some(dup(v))
  {
    hide *;
    Capture(ht);
    InOrder(ht);
    ghost var t, d, m, w := ht.table[..], KeysOf(ht.data), ht.cells, Values(ht);
    h := new Table(ht.rawHash, ht.cap);
    var _ := h.Ctl(Flags(false, ht.flags.rehash, ht.flags.noreplace));
    PartialStart(h, ht.rawHash, t, d, w, dup, ht.flags);
    CopyBegins(h, ht.rawHash, t, d);
    aborted, jobs, job := false, [], None;
    var i: nat := 0;
    while i < ht.cap
      invariant i == |jobs| <= ht.cap && fresh(h) && fresh(h.table) && fresh(h.data)
      invariant Captured(ht, t, d, m, w) && Partial(h, ht.rawHash, t, d, w, dup, ht.flags, i)
      invariant Copies(ht.rawHash, t, d, jobs, h.table[..], KeysOf(h.data), h.cells)
      invariant (job.Some? ==> !job.value.Clash())
    {
      aborted, job := CopySlot(ht, h, dup, i, jobs, t, d, m, w);
      if aborted {
        if IsStop(t[0]) { NoClashInOrder(ht.rawHash, t, d, jobs, job.value); }
        return;
      }
      jobs := jobs + [job];
      i := i + 1;
    }
    job := None;
    CapturedFacts(ht, t, d, m, w);
    PartialFacts(h, ht.rawHash, t, d, w, dup, ht.flags, i);
    if IsStop(t[0]) { CopyMirrors(ht.rawHash, t, d, jobs, h.table[..], KeysOf(h.data), h.cells); }
    CopyIs(w, dup, m.Keys);
  }
}
