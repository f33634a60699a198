/** The open-addressing hash table with Robin Hood hashing, as a class over its two arrays. */
module Oash {
  import opened Words
  import opened RobinHood
  import opened OashSpec

  datatype Mode = Replace | Keep | Die

  datatype Flags = Flags(nocpkey: bool, rehash: bool, noreplace: bool)

  /** What a slot's data index points to. The key bytes never change; the element may. */
  class Dentry<V> {
    const key: Key
    var data: Option<V>

    constructor (key: Key, data: Option<V>)
      ensures this.key == key && this.data == data
    {
      this.key, this.data := key, data;
    }
  }

  /** The keys of the data cells. */
  ghost function KeysOf<V>(d: array<Dentry?<V>>): (ks: seq<Option<Key>>)
    reads d
    ensures |ks| == d.Length
    ensures forall j {:trigger d[j]} :: 0 <= j < d.Length ==>
              if d[j] == null then ks[j].None? else ks[j] == Some(d[j].key)
  {
    seq(d.Length, j requires 0 <= j < d.Length reads d => if d[j] == null then None else Some(d[j].key))
  }

  /** Zeroed slots. */
  method NewSlots(n: nat) returns (t: array<Entry>)
    ensures fresh(t) && t.Length == n && forall i :: 0 <= i < n ==> t[i] == Entry(0, 0, 0, 0)
  {
    t := new Entry[n](_ => Entry(0, 0, 0, 0));
  }

  class Table<V> {
    const rawHash: Key -> u32
    var flags: Flags
    var cap: nat
    var table: array<Entry>
    var size: nat
    var dcap: nat
    var data: array<Dentry?<V>>
    var dsize: u32

    /** The cell of each key: the abstract map, up to the dentries in the cells. */
    ghost var cells: map<Key, nat>

    function Hash(key: Key): u32 { HashOf(rawHash, key) }

    /** Everything but the load bound. */
    ghost predicate Sound()
      reads this, table, data
    {
      && cap == table.Length == dcap == data.Length
      && State(rawHash, table[..], KeysOf(data), cells, size)
    }

    ghost predicate Valid()
      reads this, table, data
    {
      Sound() && (flags.rehash ==> cap - size > cap / 3)
    }

    ghost predicate HasCells()
      reads this`cells, this`data, data
    {
      forall k :: k in cells ==> cells[k] < data.Length && data[cells[k]] != null
    }

    /** The table as a finite map to its dentries. */
    ghost function View(): map<Key, Dentry<V>>
      requires HasCells()
      reads this`cells, this`data, data
    {
      map k | k in cells :: data[cells[k]]
    }

    lemma CellFacts()
      requires Sound()
      ensures HasCells() && 4 <= cap == table.Length == dcap == data.Length <= 0x1_0000 && IsPow2(cap)
      ensures size == |cells| <= cap && State(rawHash, table[..], KeysOf(data), cells, size)
      ensures forall k :: k in cells ==> cells[k] < cap && data[cells[k]] != null && data[cells[k]].key == k
      ensures forall k :: k in cells ==> k in View() && View()[k] == data[cells[k]]
      ensures View().Keys == cells.Keys
    {}

    // ---- lookup ----

    ghost function SearchOf(key: Key): Search
      reads this, table, data
    {
      Search(rawHash, table[..], KeysOf(data), cells, key)
    }

    lemma BeginSearch(key: Key) returns (s: Search)
      requires Sound()
      ensures s == SearchOf(key) && s.m == cells && cap == table.Length == |s.t| > 0 && s.t == table[..]
      ensures s.key == key && HashOf(s.raw, s.key) == Hash(key)
      ensures s.Start() == BitAnd(Hash(key), cap - 1) < cap && s.Probing(BitAnd(Hash(key), cap - 1), 0)
      ensures forall j {:trigger s.d[j]} :: 0 <= j < |s.d| && s.d[j].Some? ==>
                j < data.Length && data[j] != null && data[j].key == s.d[j].value
      ensures key !in cells ==> Absent(key)
    {
      s := SearchOf(key);
      s.Begin();
      if key !in cells { s.Scan(); }
    }

    /** No slot holds the key. */
    ghost predicate Absent(key: Key)
      reads this, table, data
    {
      forall i :: 0 <= i < table.Length && Occupied(table[i]) ==>
        table[i].dataIndex < data.Length && data[table[i].dataIndex] != null && data[table[i].dataIndex].key != key
    }

    /** Early-exit lookup. It finds exactly the keys of the map, so its early exits agree with a scan of
        every slot, and it ends within one turn and one probe even when no slot is empty. */
    method GetEntry(key: Key, khash: u32) returns (r: Option<nat>, ghost probes: nat)
      requires Sound() && khash == Hash(key)
      ensures r.Some? <==> key in cells
      ensures r.Some? ==> SearchOf(key).IsKeyOf(r.value)
      ensures r.None? ==> Absent(key)
      ensures probes <= cap + 1
    {
      hide *;
      ghost var s := BeginSearch(key);
      var index := BitAnd(khash, cap - 1);
      var i: nat, np: nat := index, 0;
      probes := 1;
      while Occupied(table[i])
        invariant i < cap && np <= cap && probes == np + 1 && s.Probing(i, np)
        decreases cap - np
      {
        var e := table[i];
        var diff := PslDiff(cap, e, i);
        if np > diff {
          s.GiveUp(i, np);
          return None, probes;
        }
        if i != index && e.psl == 0 {
          s.GiveUp(i, np);
          return None, probes;
        }
        s.SlotKey(i, np);
        if khash == e.hash && |key| == e.klen && SameUpTo(key, data[e.dataIndex].key, |key|, 0) {
          s.Hit(i, np);
          return Some(i), probes;
        }
        s.Miss(i, np);
        np := np + 1;
        i := BitAnd(i + 1, cap - 1);
        probes := probes + 1;
      }
      s.GiveUp(i, np);
      r := None;
    }

    // ---- inserting an entry ----

    ghost function JobOf(e: Entry, key: Option<Key>): Job
      reads this, table, data
    {
      Job(rawHash, table[..], KeysOf(data), cells, key, e)
    }

    lemma BeginPut(e: Entry, key: Option<Key>) returns (job: Job, q: nat)
      requires cap == table.Length && JobOf(e, key).Valid()
      requires JobOf(e, key).Present() || HasFree(table[..])
      ensures cap == table.Length >= 2
      ensures job == JobOf(e, key) && job.key == key
      ensures forall j {:trigger job.d[j]} :: 0 <= j < |job.d| && job.d[j].Some? ==>
                j < data.Length && data[j] != null && data[j].key == job.d[j].value
      ensures job.Going(table[..], Walk(e.(psl := 0), BitAnd(e.hash, cap - 1), q, None, 0))
      ensures BitAnd(e.hash, cap - 1) < cap
    {
      hide Job.Going, Job.Clash, Linked, Content, Ordered, HasFree, IsPow2;
      job := JobOf(e, key);
      q := job.Start();
    }

    method PutEntry(entry0: Entry, key: Option<Key>) returns (re: nat, outcome: Outcome)
      requires cap == table.Length && JobOf(entry0, key).Valid()
      requires JobOf(entry0, key).Present() || HasFree(table[..])
      modifies this`size, table
      ensures old(JobOf(entry0, key)).Placed(table[..], re, outcome)
      ensures size == old(size) + (if outcome == Added then 1 else 0)
    {
      hide *;
      ghost var job, q := BeginPut(entry0, key);
      var entry := entry0.(psl := 0);
      var index: nat := BitAnd(entry.hash, cap - 1);
      var r: Option<nat> := None;
      ghost var a: nat := 0;
      while true
        invariant job.Going(table[..], Walk(entry, index, q, r, a))
        invariant index < cap
        invariant size == old(size)
        decreases Dist(cap, index, q)
      {
        ghost var t, w := table[..], Walk(entry, index, q, r, a);
        var e := table[index];
        if !Occupied(e) {
          job.Stop(t, w);
          size := size + 1;
          table[index] := entry;
          assert table[..] == t[index := entry];
          return if r.None? then index else r.value, Added;
        }
        if key.Some? {
          job.SlotFacts(t, w);
          if KeyTest(e, entry, data[e.dataIndex].key, key.value) {
            job.Match(t, w);
            return index, if r.Some? then Aborted else Found;
          }
        }
        job.Forward(t, w);
        if entry.psl > e.psl {
          r := if r.None? then Some(index) else r;
          table[index] := entry;
          assert table[..] == t[index := entry];
          entry, a := Further(e), index;
        } else {
          entry := Further(entry);
        }
        index := BitAnd(index + 1, cap - 1);
      }
    }

    /** Finds a free cell from wherever `dsize` points; `dsize` need not count anything. */
    method PutDentry(de: Dentry<V>) returns (j: nat)
      requires dcap == data.Length && IsPow2(dcap) && exists f :: 0 <= f < data.Length && data[f] == null
      modifies this`dsize, data
      ensures j < data.Length && old(data[j]) == null
      ensures data[..] == old(data[..])[j := de]
      ensures KeysOf(data) == old(KeysOf(data))[j := Some(de.key)]
    {
      hide IsPow2, BitAnd;
      ghost var f: nat :| f < data.Length && data[f] == null;
      var index: nat := BitAnd(dsize, dcap - 1);
      while data[index] != null
        invariant index < data.Length && data[..] == old(data[..]) && data[f] == null
        decreases Dist(dcap, index, f)
      {
        MaskedStep(dcap, index);
        index := BitAnd(index + 1, dcap - 1);
      }
      data[index] := de;
      dsize := (dsize + 1) % 0x1_0000_0000;
      j := index;
    }

    // ---- growing ----

    method ReallocData()
      requires dcap == data.Length
      modifies this`data, this`dcap
      ensures fresh(data) && dcap == data.Length == 2 * old(dcap)
      ensures forall j :: 0 <= j < old(dcap) ==> data[j] == old(data[j])
      ensures forall j :: old(dcap) <= j < dcap ==> data[j] == null
    {
      var olddata := data;
      var newsize := 2 * dcap;
      var d := new Dentry?<V>[newsize](_ => null);
      for j := 0 to dcap
        invariant forall k :: 0 <= k < j ==> d[k] == olddata[k]
        invariant forall k :: j <= k < newsize ==> d[k] == null
      {
        d[j] := olddata[j];
      }
      data, dcap := d, newsize;
    }

    lemma KeysGrown(d0: seq<Option<Key>>, d: array<Dentry?<V>>, d1: array<Dentry?<V>>)
      requires d0 == KeysOf(d) && d1.Length == 2 * d.Length
      requires forall j :: 0 <= j < d.Length ==> d1[j] == d[j]
      requires forall j :: d.Length <= j < d1.Length ==> d1[j] == null
      ensures KeysOf(d1)[..|d0|] == d0 && forall j :: |d0| <= j < |KeysOf(d1)| ==> KeysOf(d1)[j].None?
    {}

    ghost predicate Growing(t: seq<Entry>, i: nat)
      reads this, table
    {
      cap == table.Length && IsPow2(cap) && 8 <= cap <= 0x1_0000 && Rehashed(t, i, table[..], size)
    }

    /** Doubles both arrays. Every entry moves to its new slot with its data index; every dentry object
        stays in its cell. */
    method Rehash()
      requires Sound() && 2 * cap <= 0x1_0000
      modifies this
      ensures Sound() && HasCells() && cap == 2 * old(cap) && size == old(size) && cells == old(cells)
      ensures fresh(table) && fresh(data) && flags == old(flags)
      ensures View() == old(View())
    {
      hide *;
      CellFacts();
      ghost var t0, d0, v0, data0 := table[..], KeysOf(data), View(), data;
      var oldtable := table;
      StartRehash();
      MoveEntries(oldtable, t0);
      EndGrowing(t0, d0, old(size), v0, data0);
    }

    /** New arrays of twice the size; the cells are copied, the slots are not. */
    method StartRehash()
      requires cap == table.Length == dcap == data.Length && IsPow2(cap) && 4 <= cap && 2 * cap <= 0x1_0000
      modifies this
      ensures fresh(table) && fresh(data) && cells == old(cells) && flags == old(flags)
      ensures cap == 2 * old(cap) == dcap == data.Length && Growing(old(table[..]), 0)
      ensures forall j :: 0 <= j < old(cap) ==> data[j] == old(data[j])
      ensures forall j :: old(cap) <= j < data.Length ==> data[j] == null
    {
      hide *;
      ghost var t := table[..];
      var newsize := 2 * cap;
      table := NewSlots(newsize);
      ReallocData();
      cap, size := newsize, 0;
      BeginGrowing(t, newsize);
    }

    /** The loop of `Rehash`: reinserts the old slots, in order, without looking for their keys. */
    method MoveEntries(oldtable: array<Entry>, ghost t: seq<Entry>)
      requires oldtable != table && oldtable[..] == t && Growing(t, 0)
      modifies this`size, table
      ensures Growing(t, |t|)
    {
      hide *;
      for i := 0 to oldtable.Length
        invariant Growing(t, i) && oldtable[..] == t
      {
        if Occupied(oldtable[i]) {
          ghost var job := BeginMove(t, i);
          ghost var n := size;
          var re, outcome := PutEntry(oldtable[i], None);
          EndMove(job, t, i, n, re, outcome);
        } else {
          SkipMove(t, i);
        }
      }
    }

    lemma BeginGrowing(t: seq<Entry>, n: nat)
      requires cap == table.Length == n == 2 * |t| <= 0x1_0000 && size == 0 && IsPow2(|t|) && |t| >= 4
      requires forall i :: 0 <= i < table.Length ==> table[i] == Entry(0, 0, 0, 0)
      ensures Growing(t, 0)
    {
      RehashStart(t, table[..]);
      assert n / 2 == |t|;
    }

    lemma BeginMove(t: seq<Entry>, i: nat) returns (job: Job)
      requires Growing(t, i) && i < |t| && Occupied(t[i])
      ensures job == JobOf(t[i], None) && job.t == table[..] && job.e == t[i] && job.key.None?
      ensures 8 <= cap <= 0x1_0000 && IsPow2(cap)
      ensures job.Valid() && !job.Present() && HasFree(table[..]) && cap == table.Length && Rehashed(t, i, job.t, size)
    {
      job := JobOf(t[i], None);
      RehashRoom(t, i, table[..], size);
    }

    lemma EndMove(job: Job, t: seq<Entry>, i: nat, n: nat, re: nat, outcome: Outcome)
      requires i < |t| && Occupied(t[i]) && job.key.None? && job.e == t[i] && Rehashed(t, i, job.t, n)
      requires job.Placed(table[..], re, outcome) && size == n + (if outcome == Added then 1 else 0)
      requires cap == table.Length && IsPow2(cap) && 8 <= cap <= 0x1_0000
      ensures Growing(t, i + 1)
    {
      RehashPut(job, t, i, n, table[..], re, outcome);
    }

    lemma SkipMove(t: seq<Entry>, i: nat)
      requires Growing(t, i) && i < |t| && !Occupied(t[i])
      ensures Growing(t, i + 1)
    {
      RehashSkip(t, i, table[..], size);
    }

    lemma EndGrowing(t: seq<Entry>, d: seq<Option<Key>>, n: nat, v: map<Key, Dentry<V>>, d0: array<Dentry?<V>>)
      requires State(rawHash, t, d, cells, n) && Growing(t, |t|) && cap == 2 * |t| == dcap == data.Length
      requires d == KeysOf(d0) && d0.Length == |t| && v.Keys == cells.Keys
      requires forall k :: k in cells ==> cells[k] < d0.Length && v[k] == d0[cells[k]]
      requires forall j :: 0 <= j < d0.Length ==> data[j] == d0[j]
      requires forall j :: d0.Length <= j < data.Length ==> data[j] == null
      ensures Sound() && size == n && HasCells() && View() == v
    {
      hide State, View;
      KeysGrown(d, d0, data);
      StateRehashed(rawHash, t, d, cells, n, table[..], KeysOf(data), size);
      SameView(v, d0);
    }

    lemma SameView(v: map<Key, Dentry<V>>, d: array<Dentry?<V>>)
      requires HasCells() && v.Keys == cells.Keys
      requires d.Length <= data.Length && forall k :: k in cells ==> cells[k] < d.Length && v[k] == d[cells[k]]
      requires forall j :: 0 <= j < d.Length ==> data[j] == d[j]
      ensures View() == v
    {}

    // ---- put ----

    function NewEntry(key: Key, khash: u32): Entry { Entry(khash, 0, |key|, 0) }

    /** The insertion of a key. */
    ghost function JobFor(key: Key): Job
      reads this, table, data
    {
      JobOf(NewEntry(key, Hash(key)), Some(key))
    }

    /** The one family of insertions that fails: an absent key, for which the chain would carry an entry
        into its twin. */
    ghost predicate Clashes(key: Key)
      reads this, table, data
    {
      size < cap && JobFor(key).Clash()
    }

    /** An insertion that ends with a new key makes the table grow when it is two thirds full. */
    ghost predicate GrowsWith(key: Key)
      reads this
    {
      flags.rehash && key !in cells && cap - (size + 1) <= cap / 3
    }

    lemma BeforeEntry(key: Key) returns (job: Job)
      requires Sound() && (key in cells || size < cap)
      ensures job == JobFor(key) == JobOf(NewEntry(key, Hash(key)), Some(key)) && job.Valid() && cap == table.Length
      ensures job.Present() || HasFree(table[..])
      ensures job.Present() <==> key in cells
      ensures job.key == Some(key) && job.e.dataIndex == 0 && job.d == KeysOf(data) && job.t == table[..]
      ensures job.m == cells && job.raw == rawHash
      ensures State(job.raw, job.t, job.d, job.m, size)
      ensures job.Clash() <==> (key !in cells && Clashes(key))
    {
      job := JobFor(key);
      if size < cap { StateRoom(rawHash, table[..], KeysOf(data), cells, size); }
    }

    /** Between `n_oash_put_entry` and the new dentry: slot `re` of `u` still has data index 0. */
    ghost predicate Placing(job: Job, key: Key, u: seq<Entry>, re: nat, n: nat) {
      && job.Placed(u, re, Added) && job.key == Some(key) && job.e.dataIndex == 0
      && State(rawHash, job.t, job.d, job.m, n) && job.raw == rawHash
    }

    ghost predicate Pending(job: Job, key: Key, re: nat)
      reads this, table, data
    {
      && cap == table.Length == dcap == data.Length && size > 0
      && Placing(job, key, table[..], re, size - 1)
      && job.d == KeysOf(data) && job.m == cells
    }

    lemma PendingFacts(job: Job, key: Key, re: nat)
      requires Pending(job, key, re)
      ensures HasCells() && re < cap == table.Length == dcap == data.Length <= 0x1_0000 && IsPow2(dcap)
      ensures 0 < size <= cap && key !in cells && Placing(job, key, table[..], re, size - 1)
      ensures forall k :: k in cells ==> k in View() && View()[k] == data[cells[k]]
      ensures View().Keys == cells.Keys && job.d == KeysOf(data) && job.m == cells
      ensures exists f :: 0 <= f < data.Length && data[f] == null
    {
      ghost var f := FreeCell(job.d, job.m);
    }

    lemma EndPending(job: Job, key: Key, re: nat, j: nat, u: seq<Entry>, n: nat)
      requires Placing(job, key, u, re, n) && re < |u| && j < |job.d| <= 0x1_0000 && job.d[j].None?
      requires cap == table.Length == dcap == data.Length && size == n + 1
      requires KeysOf(data) == job.d[j := Some(key)] && cells == job.m[key := j]
      requires table[..] == u[re := u[re].(dataIndex := j)]
      ensures Sound() && job.Into(table[..], KeysOf(data), cells)
    {
      assert job.IntoAt(u, re, j, table[..], KeysOf(data), cells);
      StateInsert(job, n, u, re, j);
    }

    lemma InsertedView(v: map<Key, Dentry<V>>, m: map<Key, nat>, d: seq<Dentry?<V>>, key: Key, j: nat)
      requires HasCells() && j < |d| == data.Length && data[j] != null && d[j] == null
      requires cells == m[key := j] && v.Keys == m.Keys && key !in m
      requires forall k :: k in m ==> m[k] < |d| && d[m[k]] == v[k]
      requires data[..] == d[j := data[j]]
      ensures View() == v[key := data[j]]
    {
      assert forall i :: 0 <= i < |d| ==> data[i] == data[..][i];
      assert cells.Keys == m.Keys + {key};
    }

    lemma EndPlacing(job: Job, re: nat, key: Key, u: seq<Entry>, d: seq<Dentry?<V>>, v: map<Key, Dentry<V>>, j: nat)
      requires size > 0 && Placing(job, key, u, re, size - 1) && re < |u| && j < |job.d| <= 0x1_0000 && job.d[j].None?
      requires cap == table.Length == dcap == data.Length == |d| == |job.d| && data[j] != null && d[j] == null
      requires KeysOf(data) == job.d[j := Some(key)] && cells == job.m[key := j]
      requires table[..] == u[re := u[re].(dataIndex := j)] && data[..] == d[j := data[j]]
      requires v.Keys == job.m.Keys && key !in job.m && forall k :: k in job.m ==> job.m[k] < |d| && d[job.m[k]] == v[k]
      ensures Sound() && HasCells() && job.Into(table[..], KeysOf(data), cells) && View() == v[key := data[j]]
    {
      hide *;
      EndPending(job, key, re, j, u, size - 1);
      CellFacts();
      InsertedView(v, job.m, d, key, j);
    }

    /** Creates the dentry and links it to the new slot. */
    method PlaceDentry(ghost job: Job, re: nat, key: Key, value: Option<V>) returns (de: Dentry<V>)
      requires Pending(job, key, re) && HasCells()
      modifies this`dsize, this`cells, table, data
      ensures Sound() && HasCells() && job.Into(table[..], KeysOf(data), cells)
      ensures fresh(de) && de.key == key && de.data == value && View() == old(View())[key := de]
    {
      hide *;
      PendingFacts(job, key, re);
      ghost var u, d, v := table[..], data[..], View();
      de := new Dentry(key, value);
      var j := PutDentry(de);
      table[re] := table[re].(dataIndex := j);
      assert table[..] == u[re := u[re].(dataIndex := j)];
      cells := cells[key := j];
      EndPlacing(job, re, key, u, d, v, j);
    }

    lemma LoadBound()
      requires Sound() && (flags.rehash ==> cap - size > cap / 3)
      ensures Valid()
    {}

    /** The new-key half of `n_oash_put`. */
    method FinishInsert(ghost job: Job, re: nat, key: Key, value: Option<V>) returns (de: Dentry<V>)
      requires Pending(job, key, re) && HasCells()
      requires flags.rehash && cap - size <= cap / 3 ==> 2 * cap <= 0x1_0000
      modifies this, table, data
      ensures Valid() && HasCells() && flags == old(flags)
      ensures fresh(de) && de.key == key && de.data == value && View() == old(View())[key := de]
      ensures size == old(size) && (table == old(table) || fresh(table)) && (data == old(data) || fresh(data))
      ensures cap == if old(flags.rehash && cap - size <= cap / 3) then 2 * old(cap) else old(cap)
      ensures !old(flags.rehash && cap - size <= cap / 3) ==> job.Into(table[..], KeysOf(data), cells)
    {
      hide *;
      de := PlaceDentry(job, re, key, value);
      if flags.rehash && cap - size <= cap / 3 {
        CellFacts();
        Rehash();
      }
      LoadBound();
    }

    /** The dentry a put may write to. */
    ghost function Touched(key: Key, mode: Mode): set<object>
      requires HasCells()
      reads this`cells, this`data, data
    {
      if mode == Replace && key in cells then {data[cells[key]]} else {}
    }

    lemma ValidFacts(key: Key)
      requires Valid()
      ensures Sound() && HasCells() && (flags.rehash ==> cap - size > cap / 3) && 4 <= cap && size <= cap
      ensures cap == table.Length == dcap == data.Length
      ensures GrowsWith(key) <==> flags.rehash && key !in cells && cap - (size + 1) <= cap / 3
      ensures Clashes(key) ==> size < cap
      ensures View().Keys == cells.Keys
    {}

    lemma AfterEntry(job: Job, key: Key, re: nat, outcome: Outcome, n: nat)
      requires cap == table.Length == dcap == data.Length && job.Placed(table[..], re, outcome)
      requires job.key == Some(key) && job.e.dataIndex == 0 && job.d == KeysOf(data) && job.m == cells
      requires job.raw == rawHash && State(job.raw, job.t, job.d, job.m, n)
      requires size == n + (if outcome == Added then 1 else 0)
      ensures outcome == Found ==> Sound() && HasCells() && re < cap && table[..] == job.t
      ensures outcome == Found ==> key in cells && table[re].dataIndex == cells[key]
      ensures outcome == Added ==> Pending(job, key, re) && HasCells()
      ensures outcome == Found <==> job.Present()
      ensures outcome == Aborted <==> job.Clash()
    {}

    /** `n_oash_put`. An absent key gets a new dentry unless the table is full; a present key keeps its
        dentry object, whose element `Replace` overwrites. It fails for an absent key that clashes, and
        for nothing else. */
    method Put(key: Key, khash0: u32, value: Option<V>, mode: Mode) returns (de: Dentry?<V>, aborted: bool)
      requires Valid() && HasCells() && (khash0 == 0 || khash0 == Hash(key))
      requires GrowsWith(key) ==> 2 * cap <= 0x1_0000
      modifies this, table, data, Touched(key, mode)
      ensures aborted <==> key !in old(cells) && old(Clashes(key))
      ensures aborted ==> de == null
      ensures !aborted ==> Valid() && HasCells() && flags == old(flags)
                           && (table == old(table) || fresh(table)) && (data == old(data) || fresh(data))
      ensures !aborted && key in old(cells) ==>
                View() == old(View()) && size == old(size) && cap == old(cap) && cells == old(cells)
                && table == old(table) && table[..] == old(table[..]) && data == old(data)
                && de == (if mode == Die then null else old(View())[key])
                && (mode == Replace ==> de.data == value)
      ensures !aborted && key !in old(cells) && old(size) == old(cap) ==>
                de == null && View() == old(View()) && size == old(size) && cap == old(cap) && cells == old(cells)
                && table == old(table) && table[..] == old(table[..]) && data == old(data)
      ensures !aborted && key !in old(cells) && old(size) < old(cap) ==>
                de != null && fresh(de) && de.key == key && de.data == value && size == old(size) + 1
                && View() == old(View())[key := de]
                && cap == (if old(flags.rehash && cap - (size + 1) <= cap / 3) then 2 * old(cap) else old(cap))
                && (!old(GrowsWith(key)) ==> old(JobFor(key)).Into(table[..], KeysOf(data), cells))
    {
      hide *;
      ValidFacts(key);
      var khash := if khash0 == 0 then Hash(key) else khash0;
      if cap == size {
        var ee, _ := GetEntry(key, khash);
        if ee.None? {
          if flags.rehash { assert false; }
          return null, false;
        }
        KeySlot(key, ee.value);
        if mode != Die {
          de := Keep(ee.value, key, value, mode);
          return de, false;
        }
      }
      de, aborted := PutOpen(key, khash, value, mode);
    }

    /** The rest of `n_oash_put`, for a key that is present or has room. */
    method PutOpen(key: Key, khash: u32, value: Option<V>, mode: Mode) returns (de: Dentry?<V>, aborted: bool)
      requires Valid() && HasCells() && khash == Hash(key) && (key in cells || size < cap)
      requires GrowsWith(key) ==> 2 * cap <= 0x1_0000
      modifies this, table, data, Touched(key, mode)
      ensures aborted <==> key !in old(cells) && old(Clashes(key))
      ensures aborted ==> de == null
      ensures !aborted ==> Valid() && HasCells() && flags == old(flags)
                           && (table == old(table) || fresh(table)) && (data == old(data) || fresh(data))
      ensures !aborted && key in old(cells) ==>
                View() == old(View()) && size == old(size) && cap == old(cap) && cells == old(cells)
                && table == old(table) && table[..] == old(table[..]) && data == old(data)
                && de == (if mode == Die then null else old(View())[key])
                && (mode == Replace ==> de.data == value)
      ensures !aborted && key !in old(cells) ==>
                de != null && fresh(de) && de.key == key && de.data == value && size == old(size) + 1
                && View() == old(View())[key := de]
                && cap == (if old(GrowsWith(key)) then 2 * old(cap) else old(cap))
                && (!old(GrowsWith(key)) ==> old(JobFor(key)).Into(table[..], KeysOf(data), cells))
    {
      hide *;
      ValidFacts(key);
      ghost var job := BeforeEntry(key);
      ghost var n := size;
      var re, outcome := PutEntry(NewEntry(key, khash), Some(key));
      AfterEntry(job, key, re, outcome, n);
      if outcome == Aborted { return null, true; }
      if outcome == Added {
        de := FinishInsert(job, re, key, value);
      } else {
        LoadBound();
        if mode == Die { return null, false; }
        de := Keep(re, key, value, mode);
      }
      aborted := false;
    }

    /** What `n_oash_put` does for a key it has found. */
    method Keep(i: nat, key: Key, value: Option<V>, mode: Mode) returns (de: Dentry<V>)
      requires Valid() && HasCells() && key in cells && i < table.Length && table[i].dataIndex == cells[key]
      requires mode != Die
      modifies Touched(key, mode)
      ensures Valid() && HasCells() && flags == old(flags) && table == old(table) && data == old(data)
      ensures cap == old(cap) && size == old(size) && cells == old(cells) && table[..] == old(table[..])
      ensures View() == old(View()) && de == View()[key]
      ensures mode == Replace ==> de.data == value
    {
      hide *;
      KeepFacts(key, mode);
      de := data[table[i].dataIndex];
      if mode == Replace { de.data := value; }
    }

    lemma KeepFacts(key: Key, mode: Mode)
      requires HasCells() && key in cells
      ensures cells[key] < data.Length && data[cells[key]] != null && key in View() && View()[key] == data[cells[key]]
      ensures mode == Replace ==> data[cells[key]] in Touched(key, mode)
    {}

    lemma KeySlot(key: Key, i: nat)
      requires Sound() && SearchOf(key).IsKeyOf(i)
      ensures i < cap && key in cells && table[i].dataIndex == cells[key] < data.Length && data[cells[key]] != null
    {}

    // ---- remove ----

    lemma RemoveFacts(key: Key, p: nat)
      requires Valid() && SearchOf(key).IsKeyOf(p)
      ensures cap == table.Length == dcap == data.Length && p < cap && HasCells()
      ensures 2 <= cap <= 0x1_0000 && IsPow2(cap) && Ordered(table[..]) && HasStop(table[..]) && Occupied(table[p])
      ensures Was(table[..], KeysOf(data), cells, size, View(), data[..], key, p)
      ensures key in cells && table[p].dataIndex == cells[key] < data.Length
      ensures data[cells[key]] != null && data[cells[key]] == View()[key]
      ensures flags.rehash ==> cap - size > cap / 3
      ensures size > 0
    {}

    lemma AbsentView(key: Key)
      requires HasCells() && key !in cells
      ensures View() - {key} == View()
    {}

    /** The table before a removal, with its dentries. */
    ghost predicate Was(t: seq<Entry>, d: seq<Option<Key>>, m: map<Key, nat>, n: nat,
                        v: map<Key, Dentry<V>>, c: seq<Dentry?<V>>, key: Key, p: nat) {
      && State(rawHash, t, d, m, n) && key in m && p < |t| && m[key] < |c| == |t|
      && CoreOf(t[p]) == KeyCore(rawHash, key, m[key])
      && v.Keys == m.Keys && (forall k :: k in m ==> m[k] < |c| && c[m[k]] == v[k])
    }

    lemma EndRemove(t: seq<Entry>, d: seq<Option<Key>>, m: map<Key, nat>, n: nat,
                    v: map<Key, Dentry<V>>, c: seq<Dentry?<V>>, key: Key, p: nat)
      requires Was(t, d, m, n, v, c, key, p) && cap == table.Length == dcap == data.Length == |t|
      requires Ordered(table[..]) && HasStop(table[..])
      requires Content(table[..]) == Content(t) - multiset{CoreOf(t[p])} + multiset{Free}
      requires m[key] < |d| && KeysOf(data) == d[m[key] := None] && data[..] == c[m[key] := null]
      requires cells == m - {key} && size == n - 1
      requires flags.rehash ==> cap - n > cap / 3
      ensures Valid() && HasCells() && View() == v - {key}
    {
      StateRemove(rawHash, t, d, m, n, table[..], key, p);
      RemovedView(v, m, c, key);
    }

    lemma RemovedView(v: map<Key, Dentry<V>>, m: map<Key, nat>, d: seq<Dentry?<V>>, key: Key)
      requires HasCells() && key in m && m[key] < |d| == data.Length && v.Keys == m.Keys
      requires forall k :: k in m ==> m[k] < |d| && d[m[k]] == v[k]
      requires cells == m - {key} && data[..] == d[m[key] := null]
      ensures View() == v - {key}
    {
      assert forall i :: 0 <= i < |d| ==> data[i] == data[..][i];
      assert cells.Keys == m.Keys - {key};
    }

    /** Clears a data cell. */
    method DropDentry(j: nat) returns (de: Dentry?<V>)
      requires j < data.Length
      modifies this`dsize, data
      ensures de == old(data[j]) && data[..] == old(data[..])[j := null]
      ensures KeysOf(data) == old(KeysOf(data))[j := None]
    {
      de := data[j];
      data[j] := null;
      dsize := (dsize - 1) % 0x1_0000_0000;
    }

    /** Closes the gap at slot `p` by moving entries back until one is at home. */
    method ShiftBack(p: nat)
      requires cap == table.Length && p < cap && 2 <= cap <= 0x1_0000 && IsPow2(cap)
      requires Ordered(table[..]) && HasStop(table[..]) && Occupied(table[p])
      modifies table
      ensures Ordered(table[..]) && HasStop(table[..])
      ensures Content(table[..]) == old(Content(table[..]) - multiset{CoreOf(table[p])}) + multiset{Free}
    {
      hide *;
      ghost var t, n: nat := table[..], 0;
      ShiftingBegin(t, p);
      var iprev: nat := p;
      var i: nat := BitAnd(p + 1, cap - 1);
      while Occupied(table[i]) && table[i].psl > 0
        invariant i < cap && Shifting(t, table[..], p, n, iprev, i) && n < cap
        decreases cap - n
      {
        ghost var u := table[..];
        ShiftingFacts(t, u, p, n, iprev, i);
        ShiftingOn(t, u, p, n, iprev, i);
        var e := table[i].(psl := table[i].psl - 1);
        table[i] := e;
        table[iprev] := e;
        assert table[..] == u[i := e][iprev := e];
        iprev := i;
        i := BitAnd(i + 1, cap - 1);
        n := n + 1;
      }
      ghost var u := table[..];
      ShiftingEnd(t, u, p, n, iprev, i);
      table[iprev] := table[iprev].(hash := 0);
      assert table[..] == u[iprev := u[iprev].(hash := 0)];
    }

    /** `n_oash_remove`: exactly the key goes, and its element is returned. */
    method Remove(key: Key) returns (r: Option<V>)
      requires Valid() && HasCells()
      modifies this, table, data
      ensures Valid() && HasCells() && flags == old(flags) && cap == old(cap)
      ensures table == old(table) && data == old(data)
      ensures View() == old(View()) - {key}
      ensures r == if key in old(cells) then old(View()[key].data) else None
      ensures size == old(size) - (if key in old(cells) then 1 else 0)
    {
      hide *;
      var khash := Hash(key);
      ValidFacts(key);
      if key in cells { KeepFacts(key, Mode.Keep); }
      var e, _ := GetEntry(key, khash);
      if e.None? {
        AbsentView(key);
        return None;
      }
      r := TakeOut(key, e.value);
    }

    /** The key of slot `p` goes, with its dentry. */
    method TakeOut(key: Key, p: nat) returns (r: Option<V>)
      requires Valid() && HasCells() && SearchOf(key).IsKeyOf(p)
      modifies this`size, this`dsize, this`cells, table, data
      ensures Valid() && HasCells() && View() == old(View()) - {key} && key in old(cells)
      ensures r == old(View()[key].data) && size == old(size) - 1
    {
      hide *;
      RemoveFacts(key, p);
      var ee := table[p];
      ghost var t, d, m, n, v, c := table[..], KeysOf(data), cells, size, View(), data[..];
      ShiftBack(p);
      var de := DropDentry(ee.dataIndex);
      r := de.data;
      size := size - 1;
      cells := cells - {key};
      EndRemove(t, d, m, n, v, c, key, p);
    }

    // ---- the rest of the interface ----

    /** `n_oash_new`: the smallest power of two that holds `size` slots, at least four. */
    constructor (rawHash: Key -> u32, size: nat)
      requires size <= 0x1_0000
      ensures Valid() && HasCells() && View() == map[] && cells == map[] && this.size == 0
      ensures cap == RoundUp(size) && flags == Flags(false, false, false)
      ensures fresh(table) && fresh(data) && this.rawHash == rawHash
    {
      this.rawHash := rawHash;
      flags := Flags(false, false, false);
      var rsize := RoundedUp(size);
      cap, dcap := rsize, rsize;
      var t := NewSlots(rsize);
      table := t;
      data := new Dentry?<V>[rsize](_ => null);
      this.size, dsize, cells := 0, 0, map[];
      new;
      assert forall j :: 0 <= j < rsize ==> KeysOf(data)[j].None?;
      StateEmpty(rawHash, table[..], KeysOf(data));
    }

    /** `n_oash_ctl`: flags may be set only while the table is empty. */
    method Ctl(f: Flags) returns (ok: bool)
      requires Valid()
      modifies this`flags
      ensures Valid() && (ok <==> size == 0)
      ensures flags == if ok
                       then Flags(old(flags).nocpkey || f.nocpkey, old(flags).rehash || f.rehash,
                                  old(flags).noreplace || f.noreplace)
                       else old(flags)
    {
      ValidFacts([1]);
      if size > 0 { return false; }
      flags := Flags(flags.nocpkey || f.nocpkey, flags.rehash || f.rehash, flags.noreplace || f.noreplace);
      ok := true;
    }

    /** `n_oash_get`: the element, or NULL both for an absent key and for a NULL element. */
    method Get(key: Key) returns (r: Option<V>)
      requires Valid() && HasCells()
      ensures r == if key in cells then View()[key].data else None
    {
      hide *;
      ValidFacts(key);
      var e, _ := GetEntry(key, Hash(key));
      if e.None? { return None; }
      RemoveFacts(key, e.value);
      r := data[table[e.value].dataIndex].data;
    }

    lemma CleanFacts()
      requires Valid()
      ensures Cleaned(rawHash, table[..], KeysOf(data), cells, 0, table[..], KeysOf(data))
      ensures cap == table.Length == dcap == data.Length
      ensures IsPow2(cap) && 4 <= cap <= 0x1_0000
    {
      CleanStart(rawHash, table[..], KeysOf(data), cells);
    }

    lemma CellAt(j: nat)
      requires j < |KeysOf(data)| && KeysOf(data)[j].Some?
      ensures j < data.Length && data[j] != null
    {}

    lemma CleanDone(t: seq<Entry>, d: seq<Option<Key>>, m: map<Key, nat>)
      requires Cleaned(rawHash, t, d, m, |t|, table[..], KeysOf(data))
      requires cap == table.Length == dcap == data.Length == |t| && IsPow2(cap) && 4 <= cap <= 0x1_0000
      requires cells == map[] && size == 0
      ensures Valid() && HasCells() && View() == map[]
    {
      CleanEnd(rawHash, t, d, m, table[..], KeysOf(data));
    }

    /** `n_oash_clean`: every slot and every cell is emptied; the capacity stays. */
    method Clean()
      requires Valid()
      modifies this, table, data
      ensures Valid() && HasCells() && View() == map[] && cells == map[] && size == 0
      ensures cap == old(cap) && flags == old(flags) && table == old(table) && data == old(data)
    {
      hide *;
      CleanFacts();
      ghost var t, d, m := table[..], KeysOf(data), cells;
      var i: nat := 0;
      while i < cap
        invariant i <= cap == |t| && Cleaned(rawHash, t, d, m, i, table[..], KeysOf(data))
        invariant cap == old(cap) && flags == old(flags) && table == old(table) && data == old(data)
        invariant cap == table.Length == dcap == data.Length && cells == m
      {
        ghost var u, e := table[..], KeysOf(data);
        CleanStep(rawHash, t, d, m, i, u, e);
        if Occupied(table[i]) {
          CellAt(table[i].dataIndex);
          table[i] := table[i].(hash := 0);
          assert table[..] == u[i := u[i].(hash := 0)];
          var de := DropDentry(table[i].dataIndex);
        }
        i := i + 1;
      }
      dsize, size := 0, 0;
      cells := map[];
      CleanDone(t, d, m);
    }
  }

  /** The capacity for a requested size. */
  ghost function RoundUp(size: nat): nat {
    DoubleUntil(4, size)
  }

  ghost function DoubleUntil(r: nat, size: nat): nat
    decreases size - r
  {
    if r == 0 || r >= size then r else DoubleUntil(2 * r, size)
  }

  method RoundedUp(size: nat) returns (rsize: nat)
    requires size <= 0x1_0000
    ensures rsize == RoundUp(size) && IsPow2(rsize) && 4 <= rsize <= 0x1_0000 && size <= rsize
    ensures rsize == 4 || rsize / 2 < size
  {
    hide *;
    Pow4();
    Pow16();
    StartDoubling(size);
    rsize := 4;
    while rsize < size
      invariant IsPow2(rsize) && 4 <= rsize <= 0x1_0000
      invariant rsize == 4 || rsize / 2 < size
      invariant DoubleUntil(rsize, size) == RoundUp(size)
    {
      Pow2Gap(rsize, 0x1_0000);
      Pow2Double(rsize);
      KeepDoubling(rsize, size);
      rsize := 2 * rsize;
    }
    StopDoubling(rsize, size);
  }

  lemma StartDoubling(size: nat)
    ensures DoubleUntil(4, size) == RoundUp(size)
  {}

  lemma KeepDoubling(r: nat, size: nat)
    requires 0 < r < size
    ensures DoubleUntil(2 * r, size) == DoubleUntil(r, size)
  {}

  lemma StopDoubling(r: nat, size: nat)
    requires r >= size
    ensures DoubleUntil(r, size) == r
  {}
}
