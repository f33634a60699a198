/** A table that was built without any failure and cannot be copied. */
module OashCopyFails {
  import opened Words
  import opened RobinHood
  import opened OashSpec
  import opened Oash
  import opened OashCopy

  const A: Key := [3]
  const AA: Key := [1, 1]
  const B: Key := [2]
  const C: Key := [1]

  /** The keys A and AA belong to slot 2 of four, B and C to slot 3; C is a prefix of AA. */
  function Raw(k: Key): (h: u32)
    ensures h != 0
  {
    if k == A || k == AA then 2 else 3
  }

  /** Slot `k` shows the key `key`, so many slots from its home. */
  ghost predicate Shows(t: seq<Entry>, d: seq<Option<Key>>, k: nat, key: Key, psl: nat) {
    && k < |t| && Occupied(t[k]) && t[k].psl == psl && t[k].hash == Raw(key) && t[k].klen == |key|
    && SlotKey(t, d, k) == Some(key)
  }

  ghost predicate Empty(t: seq<Entry>, k: nat) {
    k < |t| && !Occupied(t[k])
  }

  lemma Homes(key: Key)
    ensures Home(4, Raw(key)) == if key == A || key == AA then 2 else 3
  {
    assert BitAnd(2, 3) == 2 && BitAnd(3, 3) == 3;
  }

  /** The insertion of a key in a table of four slots. */
  ghost predicate Inserts(job: Job, key: Key) {
    job.raw == Raw && job.key == Some(key) && job.e == Entry(Raw(key), 0, |key|, 0) && |job.t| == 4
  }

  /** An insertion that displaces nothing shows its key in the slot it is straight to, and leaves the others
      as they are. */
  lemma StraightShows(job: Job, key: Key, q: nat, c: seq<Entry>, e: seq<Option<Key>>, m: map<Key, nat>)
    requires Inserts(job, key) && job.StraightTo(q) && job.Into(c, e, m)
    ensures |c| == 4 && Shows(c, e, q, key, Dist(4, Home(4, Raw(key)), q)) && m.Keys == job.m.Keys + {key}
    ensures forall k, key', psl :: k != q && Shows(job.t, job.d, k, key', psl) ==> Shows(c, e, k, key', psl)
    ensures forall k :: k != q && Empty(job.t, k) ==> Empty(c, k)
  {
    hide BitAnd, Job.StraightTo, Job.Placed, Raw, Content, Ordered, HasStop, Linked;
    var u: seq<Entry>, re: nat, j: u32 :| job.IntoAt(u, re, j, c, e, m);
    PlacedStraight(job, u, re, q);
  }

  lemma PlacedStraight(job: Job, u: seq<Entry>, re: nat, q: nat)
    requires job.Placed(u, re, Added) && job.StraightTo(q)
    ensures re == q && job.SettledAt(u, q)
  {}

  lemma StraightToHere(job: Job, key: Key, q: nat)
    requires Inserts(job, key) && Empty(job.t, q)
    requires forall k: nat :: k < 4 && Dist(4, Home(4, Raw(key)), k) < Dist(4, Home(4, Raw(key)), q) ==>
               exists key', psl: nat :: Shows(job.t, job.d, k, key', psl) && psl >= Dist(4, Home(4, Raw(key)), k)
    ensures job.StraightTo(q)
  {
    hide BitAnd, Raw;
    forall k | 0 <= k < 4 && Dist(4, Home(4, Raw(key)), k) < Dist(4, Home(4, Raw(key)), q)
      ensures Occupied(job.t[k]) && job.t[k].psl >= Dist(4, Home(4, Raw(key)), k)
    {
      var key', psl: nat :| Shows(job.t, job.d, k, key', psl) && psl >= Dist(4, Home(4, Raw(key)), k);
    }
  }

  /** Behind slots that show B, C and A, put in this order, the insertion of AA clashes: it displaces B and
      carries it into C. */
  lemma LastClashes(job: Job)
    requires Inserts(job, AA) && AA !in job.m
    requires Shows(job.t, job.d, 2, A, 0) && Shows(job.t, job.d, 3, B, 0) && Shows(job.t, job.d, 0, C, 1)
    ensures job.Clash()
  {
    hide BitAnd;
    Homes(AA);
    assert Meets(job.t, 2, 3, 0);
    assert C <= AA;
    assert job.ClashAt(3, 0);
  }

  /** The four slots of the table: B, C, A and AA, of which B and C wrapped round. */
  ghost predicate Full(t: seq<Entry>, d: seq<Option<Key>>) {
    |t| == 4 && Shows(t, d, 0, B, 1) && Shows(t, d, 1, C, 2) && Shows(t, d, 2, A, 0) && Shows(t, d, 3, AA, 1)
  }

  function KeyOf(k: nat): Key { if k == 0 then B else if k == 1 then C else if k == 2 then A else AA }

  function PlaceOf(k: nat): nat { if k == 0 then 3 else if k == 1 then 0 else k }

  /** What the copy shows after `n` of the first three slots. */
  ghost predicate Half(c: seq<Entry>, e: seq<Option<Key>>, m: map<Key, nat>, n: nat) {
    && |c| == 4
    && (if n > 0 then Shows(c, e, 3, B, 0) else Empty(c, 3))
    && (if n > 1 then Shows(c, e, 0, C, 1) else Empty(c, 0))
    && (if n > 2 then Shows(c, e, 2, A, 0) else Empty(c, 2))
    && m.Keys == (if n > 0 then {B} else {}) + (if n > 1 then {C} else {}) + (if n > 2 then {A} else {})
  }

  lemma HalfMore(job: Job, n: nat, c: seq<Entry>, e: seq<Option<Key>>, m: map<Key, nat>)
    requires n < 3 && Inserts(job, KeyOf(n)) && Half(job.t, job.d, job.m, n) && job.Into(c, e, m)
    ensures Half(c, e, m, n + 1)
  {
    hide BitAnd, Job.StraightTo, Job.Into, Shows, Empty, Raw;
    var key := KeyOf(n);
    Homes(key);
    StraightToHere(job, key, PlaceOf(n));
    StraightShows(job, key, PlaceOf(n), c, e, m);
  }

  lemma SlotInserts(t: seq<Entry>, d: seq<Option<Key>>, k: nat, job: Job)
    requires Full(t, d) && OfSlot(Raw, t, d, k, job) && |job.t| == 4
    ensures k < 4 && Inserts(job, KeyOf(k))
  {}

  lemma {:induction false} CopyHalf(t: seq<Entry>, d: seq<Option<Key>>, jobs: seq<Option<Job>>,
                                    c: seq<Entry>, e: seq<Option<Key>>, m: map<Key, nat>)
    requires Full(t, d) && |jobs| <= 3 && Copies(Raw, t, d, jobs, c, e, m)
    ensures Half(c, e, m, |jobs|)
    decreases |jobs|
  {
    hide OfSlot, Job.Into, Raw;
    if jobs != [] {
      var k := |jobs| - 1;
      assert Occupied(t[k]);
      var job := jobs[k].value;
      CopyHalf(t, d, jobs[..k], job.t, job.d, job.m);
      SlotInserts(t, d, k, job);
      HalfMore(job, k, c, e, m);
    }
  }

  /** The last insertion of the copy clashes. */
  lemma CopyClashes(t: seq<Entry>, d: seq<Option<Key>>, jobs: seq<Option<Job>>, job: Job)
    requires Full(t, d) && |jobs| == 3 && Begins(Raw, t, d, jobs, job)
    ensures job.Clash()
  {
    hide OfSlot, Copies, Full, Shows, Job.Clash;
    CopyHalf(t, d, jobs, job.t, job.d, job.m);
    SlotInserts(t, d, 3, job);
    LastClashes(job);
  }

  /** So the copy never comes to its end. */
  lemma NoCopy(t: seq<Entry>, d: seq<Option<Key>>, jobs: seq<Option<Job>>, c: seq<Entry>, e: seq<Option<Key>>,
               m: map<Key, nat>)
    requires Full(t, d) && |jobs| == 4
    ensures !Copies(Raw, t, d, jobs, c, e, m)
  {
    hide Copies, Full, Job.Clash;
    if Copies(Raw, t, d, jobs, c, e, m) {
      var job := LastJob(t, d, jobs, c, e, m);
      CopyClashes(t, d, jobs[..3], job);
    }
  }

  lemma LastJob(t: seq<Entry>, d: seq<Option<Key>>, jobs: seq<Option<Job>>, c: seq<Entry>, e: seq<Option<Key>>,
                m: map<Key, nat>)
    returns (job: Job)
    requires Full(t, d) && |jobs| == 4 && Copies(Raw, t, d, jobs, c, e, m)
    ensures Begins(Raw, t, d, jobs[..3], job) && !job.Clash()
  {
    hide Job.Clash;
    assert Occupied(t[3]);
    job := jobs[3].value;
  }

  // ---- building the table ----

  function PutKey(n: nat): Key { if n == 0 then A else if n == 1 then AA else if n == 2 then B else C }

  function PutSlot(n: nat): nat { if n < 2 then n + 2 else n - 2 }

  /** What the table shows after `n` insertions. */
  ghost predicate Stage(t: seq<Entry>, d: seq<Option<Key>>, m: map<Key, nat>, n: nat) {
    && |t| == 4
    && (if n > 0 then Shows(t, d, 2, A, 0) else Empty(t, 2))
    && (if n > 1 then Shows(t, d, 3, AA, 1) else Empty(t, 3))
    && (if n > 2 then Shows(t, d, 0, B, 1) else Empty(t, 0))
    && (if n > 3 then Shows(t, d, 1, C, 2) else Empty(t, 1))
    && m.Keys == (if n > 0 then {A} else {}) + (if n > 1 then {AA} else {}) + (if n > 2 then {B} else {})
                 + (if n > 3 then {C} else {})
  }

  lemma StageStraight(job: Job, n: nat)
    requires n < 4 && Inserts(job, PutKey(n)) && Stage(job.t, job.d, job.m, n)
    ensures job.StraightTo(PutSlot(n)) && !job.Clash() && PutKey(n) !in job.m
  {
    hide BitAnd, Job.StraightTo, Job.Clash, Shows, Empty, Raw;
    Homes(PutKey(n));
    StraightToHere(job, PutKey(n), PutSlot(n));
    job.StraightNoClash(PutSlot(n));
  }

  lemma StageMore(job: Job, n: nat, c: seq<Entry>, e: seq<Option<Key>>, m: map<Key, nat>)
    requires n < 4 && Inserts(job, PutKey(n)) && Stage(job.t, job.d, job.m, n) && job.Into(c, e, m)
    ensures Stage(c, e, m, n + 1)
  {
    hide BitAnd, Job.StraightTo, Job.Clash, Job.Into, Shows, Empty, Raw;
    Homes(PutKey(n));
    StageStraight(job, n);
    StraightShows(job, PutKey(n), PutSlot(n), c, e, m);
  }

  /** A table of fixed size after `n` insertions. */
  ghost predicate Built(ht: Table<bool>, n: nat)
    reads ht, ht.table, ht.data
  {
    && ht.Valid() && ht.HasCells() && ht.rawHash == Raw && ht.cap == 4 && ht.size == n
    && ht.flags == Flags(false, false, false) && Stage(ht.table[..], KeysOf(ht.data), ht.cells, n)
  }

  lemma BuiltFacts(ht: Table<bool>, n: nat)
    requires Built(ht, n) && n < 4
    ensures ht.Valid() && ht.HasCells() && !ht.GrowsWith(PutKey(n)) && ht.size == n < ht.cap == 4
    ensures ht.rawHash == Raw && ht.flags == Flags(false, false, false)
    ensures Inserts(ht.JobFor(PutKey(n)), PutKey(n)) && Stage(ht.table[..], KeysOf(ht.data), ht.cells, n)
    ensures var job := ht.JobFor(PutKey(n)); job.t == ht.table[..] && job.d == KeysOf(ht.data) && job.m == ht.cells
    ensures ht.Clashes(PutKey(n)) <==> ht.JobFor(PutKey(n)).Clash()
    ensures ht.Touched(PutKey(n), Die) == {}
  {
    hide Stage;
    ht.ValidFacts(PutKey(n));
  }

  method PutNext(ht: Table<bool>, n: nat)
    requires Built(ht, n) && n < 4
    modifies ht, ht.table, ht.data
    ensures Built(ht, n + 1) && (ht.table == old(ht.table) || fresh(ht.table))
    ensures (ht.data == old(ht.data) || fresh(ht.data))
  {
    hide *;
    BuiltFacts(ht, n);
    ghost var job := ht.JobFor(PutKey(n));
    StageStraight(job, n);
    var _, aborted := ht.Put(PutKey(n), 0, None, Die);
    StageMore(job, n, ht.table[..], KeysOf(ht.data), ht.cells);
    IsBuilt(ht, n + 1);
  }

  lemma IsBuilt(ht: Table<bool>, n: nat)
    requires ht.Valid() && ht.HasCells() && ht.rawHash == Raw && ht.cap == 4 && ht.size == n
    requires ht.flags == Flags(false, false, false) && Stage(ht.table[..], KeysOf(ht.data), ht.cells, n)
    ensures Built(ht, n)
  {}

  lemma NothingBuilt(ht: Table<bool>)
    requires ht.Valid() && ht.HasCells() && ht.View() == map[] && ht.cells == map[] && ht.cap == 4 && ht.size == 0
    ensures Stage(ht.table[..], KeysOf(ht.data), ht.cells, 0)
  {
    ht.CellFacts();
    CopyBegins(ht, Raw, ht.table[..], KeysOf(ht.data));
  }

  lemma AllBuilt(ht: Table<bool>)
    requires Built(ht, 4)
    ensures ht.Valid() && ht.HasCells() && ht.rawHash == Raw && ht.size == ht.cap == 4
    ensures Full(ht.table[..], KeysOf(ht.data)) && ht.cells.Keys == {A, AA, B, C}
  {
    hide Table.Valid;
  }

  /** Four insertions into a new table of four slots succeed, and the copy of the table fails. */
  method CopyFails() returns (ht: Table<bool>, aborted: bool)
    ensures fresh(ht) && ht.Valid() && ht.HasCells() && ht.size == ht.cap == 4 && ht.cells.Keys == {A, AA, B, C}
    ensures aborted
  {
    hide *;
    ht := Build();
    AllBuilt(ht);
    var h, failed, jobs, _ := Dup(ht, x => x);
    if !failed { NoCopy(ht.table[..], KeysOf(ht.data), jobs, h.table[..], KeysOf(h.data), h.cells); }
    aborted := failed;
  }

  method Build() returns (ht: Table<bool>)
    ensures fresh(ht) && Built(ht, 4)
  {
    hide *;
    Four();
    ht := new Table(Raw, 4);
    NothingBuilt(ht);
    IsBuilt(ht, 0);
    PutNext(ht, 0);
    PutNext(ht, 1);
    PutNext(ht, 2);
    PutNext(ht, 3);
  }

  lemma Four()
    ensures RoundUp(4) == 4
  {}
}
