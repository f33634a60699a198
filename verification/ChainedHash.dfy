/** The chained hash table: a key lives in the chain of its home slot or of one of two slots at a fixed
    distance from it, and put, get and remove must agree on the three. */
module ChainedHash {
  import opened Words

  class Bucket<V> {
    const key: Key
    var data: V
    var next: Bucket?<V>

    constructor (key: Key, data: V, next: Bucket?<V>)
      ensures this.key == key && this.data == data && this.next == next
    {
      this.key, this.data, this.next := key, data, next;
    }
  }

  type Links<!V> = map<Bucket<V>, Bucket?<V>>

  /** The distance to the alternate slots: the length plus the last character, which is signed, as a
      32-bit word. */
  function Shift(key: Key): (r: nat)
    ensures r < 0x1_0000_0000
    ensures var c: int := key[|key| - 1];
      var sum := |key| + if c < 128 then c else c - 256;
      r == if sum >= 0 then sum else sum + 0x1_0000_0000
  {
    var c: int := key[|key| - 1];
    (|key| + if c < 128 then c else c - 256) % 0x1_0000_0000
  }

  /** The three slots where a key may be, computed with 32-bit wrap-around. */
  predicate Candidate(home: nat, shift: nat, size: nat, slot: nat) {
    || slot == home
    || (slot == (home + shift) % 0x1_0000_0000 && slot < size)
    || (home > shift && slot == home - shift)
  }

  // ---- linked chains ----

  ghost predicate Linked<V>(h: Links<V>, p: Bucket?<V>, c: seq<Bucket<V>>) {
    if c == [] then p == null else p == c[0] && c[0] in h && Linked(h, h[c[0]], c[1..])
  }

  lemma {:induction false} LinkedFrame<V>(h: Links<V>, h': Links<V>, p: Bucket?<V>, c: seq<Bucket<V>>)
    requires Linked(h, p, c) && forall n :: n in c && n in h ==> n in h' && h'[n] == h[n]
    ensures Linked(h', p, c)
  {
    if c != [] {
      assert c[0] in c;
      LinkedFrame(h, h', h[c[0]], c[1..]);
    }
  }

  lemma {:induction false} LinkedIn<V>(h: Links<V>, p: Bucket?<V>, c: seq<Bucket<V>>)
    requires Linked(h, p, c)
    ensures forall n :: n in c ==> n in h
  {
    if c != [] { LinkedIn(h, h[c[0]], c[1..]); }
  }

  /** The chain from its `i`-th bucket on. */
  lemma {:induction false} LinkedAt<V>(h: Links<V>, p: Bucket?<V>, c: seq<Bucket<V>>, i: nat)
    requires Linked(h, p, c) && i < |c|
    ensures c[i] in h && Linked(h, h[c[i]], c[i + 1..])
    ensures h[c[i]] == if i + 1 < |c| then c[i + 1] else null
  {
    if i > 0 {
      LinkedAt(h, h[c[0]], c[1..], i - 1);
      assert c[1..][i..] == c[i + 1..];
    }
  }

  ghost predicate Distinct<V>(c: seq<Bucket<V>>) {
    forall i, j :: 0 <= i < j < |c| ==> c[i] != c[j]
  }

  /** The bucket in front is relinked past the `i`-th. */
  lemma {:induction false} Unlinked<V>(h: Links<V>, h': Links<V>, p: Bucket?<V>, c: seq<Bucket<V>>, i: nat)
    requires Linked(h, p, c) && Distinct(c) && 0 < i < |c|
    requires c[i] in h && c[i - 1] in h' && h'[c[i - 1]] == h[c[i]]
    requires forall n :: n in c && n in h && n != c[i] && n != c[i - 1] ==> n in h' && h'[n] == h[n]
    ensures Linked(h', p, c[..i] + c[i + 1..])
  {
    var d := c[..i] + c[i + 1..];
    if i == 1 {
      LinkedAt(h, p, c, 1);
      assert d == [c[0]] + c[2..];
      assert forall n :: n in c[2..] ==> n in c && n != c[0] && n != c[1] by {
        forall k | 0 <= k < |c[2..]|
          ensures c[2..][k] == c[k + 2]
        {}
      }
      LinkedFrame(h, h', h[c[1]], c[2..]);
      assert d[1..] == c[2..];
    } else {
      assert c[0] in c && c[0] != c[i] && c[0] != c[i - 1];
      assert c[1..][i - 1] == c[i] && c[1..][i - 2] == c[i - 1];
      Unlinked(h, h', h[c[0]], c[1..], i - 1);
      assert d[1..] == c[1..][..i - 1] + c[1..][i..];
    }
  }

  // ---- which bucket is where ----

  ghost predicate InSlot<V>(where: map<Key, Bucket<V>>, slot: map<Key, nat>, i: nat, n: Bucket<V>) {
    n.key in where && where[n.key] == n && n.key in slot && slot[n.key] == i
  }

  ghost predicate Found<V>(hash: Key -> nat, chains: seq<seq<Bucket<V>>>, where: map<Key, Bucket<V>>, slot: map<Key,
                           nat>,
                           k: Key)
    requires k in where
  {
    && where[k].key == k && k in slot && slot[k] < |chains| && where[k] in chains[slot[k]]
    && Candidate(BitAnd(hash(k), |chains| - 1), Shift(k), |chains|, slot[k])
  }

  /** Every key has one bucket, in one chain, at one of its three slots. */
  ghost predicate Filed<V>(hash: Key -> nat, chains: seq<seq<Bucket<V>>>, where: map<Key, Bucket<V>>, slot: map<Key,
                           nat>) {
    && |chains| > 0
    && (forall i, j :: 0 <= i < |chains| && 0 <= j < |chains[i]| ==> InSlot(where, slot, i, chains[i][j]))
    && (forall i :: 0 <= i < |chains| ==> Distinct(chains[i]))
    && (forall k :: k in where ==> Found(hash, chains, where, slot, k))
  }

  lemma FiledAt<V>(hash: Key -> nat, chains: seq<seq<Bucket<V>>>, where: map<Key, Bucket<V>>, slot: map<Key, nat>,
                   i: nat, n: Bucket<V>)
    requires Filed(hash, chains, where, slot) && i < |chains| && n in chains[i]
    ensures InSlot(where, slot, i, n)
  {
    var j :| 0 <= j < |chains[i]| && chains[i][j] == n;
  }

  lemma FiledParts<V>(hash: Key -> nat, chains: seq<seq<Bucket<V>>>, where: map<Key, Bucket<V>>, slot: map<Key, nat>)
    requires Filed(hash, chains, where, slot)
    ensures forall i, j :: 0 <= i < |chains| && 0 <= j < |chains[i]| ==> InSlot(where, slot, i, chains[i][j])
    ensures forall i :: 0 <= i < |chains| ==> Distinct(chains[i])
  {}

  lemma FoundAt<V>(hash: Key -> nat, chains: seq<seq<Bucket<V>>>, where: map<Key, Bucket<V>>, slot: map<Key,
                   nat>, k: Key)
    requires Filed(hash, chains, where, slot) && k in where
    ensures Found(hash, chains, where, slot, k)
  {}

  /** A new bucket in front of a chain that is a candidate of its key. */
  lemma Prepended<V>(hash: Key -> nat, chains: seq<seq<Bucket<V>>>, where: map<Key, Bucket<V>>, slot: map<Key, nat>,
                     i: nat, n: Bucket<V>)
    requires Filed(hash, chains, where, slot) && i < |chains| && n.key !in where
    requires Candidate(BitAnd(hash(n.key), |chains| - 1), Shift(n.key), |chains|, i)
    ensures Filed(hash, chains[i := [n] + chains[i]], where[n.key := n], slot[n.key := i])
  {
    hide Shift, BitAnd, Candidate, Found, Distinct, InSlot;
    var c', w', s' := chains[i := [n] + chains[i]], where[n.key := n], slot[n.key := i];
    FiledParts(hash, chains, where, slot);
    forall k, j | 0 <= k < |c'| && 0 <= j < |c'[k]|
      ensures InSlot(w', s', k, c'[k][j])
    {
      PrependedSlot(chains, where, slot, i, n, k, j);
    }
    NotAmong(where, slot, i, chains[i], n);
    forall k | k in w'
      ensures Found(hash, c', w', s', k)
    {
      PrependedFound(hash, chains, where, slot, i, n, k);
    }
  }

  lemma PrependedSlot<V>(chains: seq<seq<Bucket<V>>>, where: map<Key, Bucket<V>>, slot: map<Key, nat>,
                         i: nat, n: Bucket<V>, k: nat, j: nat)
    requires forall i, j :: 0 <= i < |chains| && 0 <= j < |chains[i]| ==> InSlot(where, slot, i, chains[i][j])
    requires i < |chains| && k < |chains| && n.key !in where && j < |chains[i := [n] + chains[i]][k]|
    ensures InSlot(where[n.key := n], slot[n.key := i], k, chains[i := [n] + chains[i]][k][j])
  {
    var d := [n] + chains[i];
    if k != i {
      assert InSlot(where, slot, k, chains[k][j]);
    } else if j > 0 {
      assert d[j] == chains[i][j - 1] && InSlot(where, slot, i, chains[i][j - 1]);
    }
  }

  lemma PrependedFound<V>(hash: Key -> nat, chains: seq<seq<Bucket<V>>>, where: map<Key, Bucket<V>>, slot: map<Key,
                          nat>,
                          i: nat, n: Bucket<V>, k: Key)
    requires Filed(hash, chains, where, slot) && i < |chains| && n.key !in where
    requires Candidate(BitAnd(hash(n.key), |chains| - 1), Shift(n.key), |chains|, i) && (k == n.key || k in where)
    ensures Found(hash, chains[i := [n] + chains[i]], where[n.key := n], slot[n.key := i], k)
  {
    hide Shift, BitAnd, Candidate, Filed;
    var d := [n] + chains[i];
    if k == n.key {
      assert d[0] == n;
    } else {
      FoundAt(hash, chains, where, slot, k);
      if slot[k] == i {
        var m :| 0 <= m < |chains[i]| && chains[i][m] == where[k];
        assert d[m + 1] == where[k];
      }
    }
  }

  lemma NotAmong<V>(where: map<Key, Bucket<V>>, slot: map<Key, nat>, i: nat, c: seq<Bucket<V>>, n: Bucket<V>)
    requires n.key !in where && Distinct(c) && forall j :: 0 <= j < |c| ==> InSlot(where, slot, i, c[j])
    ensures Distinct([n] + c)
  {
    forall j, k | 0 <= j < k < |[n] + c|
      ensures ([n] + c)[j] != ([n] + c)[k]
    {
      assert InSlot(where, slot, i, c[k - 1]);
    }
  }

  /** The `j`-th bucket of a chain is taken out. */
  lemma TakenOut<V>(hash: Key -> nat, chains: seq<seq<Bucket<V>>>, where: map<Key, Bucket<V>>, slot: map<Key, nat>,
                    i: nat, j: nat)
    requires Filed(hash, chains, where, slot) && i < |chains| && j < |chains[i]|
    ensures var n := chains[i][j];
      Filed(hash, chains[i := chains[i][..j] + chains[i][j + 1..]], where - {n.key}, slot - {n.key}) && n.key in where
  {
    hide Shift, BitAnd, Candidate;
    var n, c := chains[i][j], chains[i];
    var d := c[..j] + c[j + 1..];
    var c', w', s' := chains[i := d], where - {n.key}, slot - {n.key};
    assert Distinct(c);
    assert InSlot(where, slot, i, n);
    forall k, m | 0 <= k < |c'| && 0 <= m < |c'[k]|
      ensures InSlot(w', s', k, c'[k][m])
    {
      var was := if k == i && m >= j then m + 1 else m;
      assert c'[k][m] == chains[k][was];
      assert InSlot(where, slot, k, chains[k][was]);
    }
    forall k | 0 <= k < |c'|
      ensures Distinct(c'[k])
    {
      assert Distinct(chains[k]);
    }
    forall k | k in w'
      ensures Found(hash, c', w', s', k)
    {
      assert Found(hash, chains, where, slot, k);
      if slot[k] == i {
        var m :| 0 <= m < |c| && c[m] == where[k];
        assert d[if m < j then m else m - 1] == where[k];
      }
    }
  }

  /** The chains after the `j`-th bucket of the `i`-th one has been taken out. */
  lemma CutLinked<V>(h: Links<V>, h': Links<V>, t: seq<Bucket?<V>>, t': seq<Bucket?<V>>, chains: seq<seq<Bucket<V>>>,
                     i: nat, j: nat)
    requires |chains| == |t| == |t'| && i < |chains| && j < |chains[i]| && Distinct(chains[i])
    requires forall k :: 0 <= k < |chains| ==> Linked(h, t[k], chains[k])
    requires forall k :: 0 <= k < |chains| && k != i ==> chains[i][j] !in chains[k] && t'[k] == t[k]
    requires j > 0 ==> forall k :: 0 <= k < |chains| && k != i ==> chains[i][j - 1] !in chains[k]
    requires chains[i][j] in h
    requires if j > 0 then chains[i][j - 1] in h' && h'[chains[i][j - 1]] == h[chains[i][j]] && t'[i] == t[i]
      else t'[i] == h[chains[i][j]]
    requires forall n :: n in h && n != chains[i][j] && (j > 0 ==> n != chains[i][j - 1]) ==> n in h' && h'[n] == h[n]
    ensures forall k :: 0 <= k < |chains| ==>
      Linked(h', t'[k], chains[i := chains[i][..j] + chains[i][j + 1..]][k])
  {
    hide Linked;
    var c := chains[i];
    forall k | 0 <= k < |chains|
      ensures Linked(h', t'[k], chains[i := c[..j] + c[j + 1..]][k])
    {
      if k != i {
        LinkedFrame(h, h', t[k], chains[k]);
      } else if j > 0 {
        Unlinked(h, h', t[i], c, j);
      } else {
        LinkedAt(h, t[i], c, 0);
        assert c[..0] + c[1..] == c[1..];
        assert c[0] !in c[1..];
        LinkedFrame(h, h', h[c[0]], c[1..]);
      }
    }
  }

  // ---- moving to a larger table ----

  /** The old chains from the `i`-th on are still linked. */
  ghost predicate Waiting<V>(h: Links<V>, table0: seq<Bucket?<V>>, chains0: seq<seq<Bucket<V>>>, i: nat) {
    |chains0| == |table0| && forall k :: i <= k < |chains0| ==> Linked(h, table0[k], chains0[k])
  }

  /** Exactly the buckets before the `j`-th of the `i`-th old chain have been moved. */
  ghost predicate Moved<V>(where: map<Key, Bucket<V>>, chains0: seq<seq<Bucket<V>>>, where0: map<Key, Bucket<V>>,
                           slot0: map<Key, nat>, i: nat, j: nat) {
    && (i < |chains0| ==> j <= |chains0[i]|)
    && (forall k :: k in where ==> k in where0 && where[k] == where0[k])
    && (forall k :: k in where0 && k in slot0 ==>
          (k in where <==> slot0[k] < i || (slot0[k] == i && i < |chains0| && where0[k] in chains0[i][..j])))
  }

  lemma MovedStep<V>(hash: Key -> nat, where: map<Key, Bucket<V>>, chains0: seq<seq<Bucket<V>>>,
                     where0: map<Key, Bucket<V>>, slot0: map<Key, nat>, i: nat, j: nat)
    requires Moved(where, chains0, where0, slot0, i, j) && Filed(hash, chains0, where0, slot0)
    requires i < |chains0| && j < |chains0[i]|
    ensures var n := chains0[i][j];
      n.key !in where && n.key in where0 && where0[n.key] == n
        && Moved(where[n.key := n], chains0, where0, slot0, i, j + 1)
  {
    hide Shift, BitAnd, Candidate;
    var n := chains0[i][j];
    assert InSlot(where0, slot0, i, n) && Distinct(chains0[i]);
    forall k | k in where0 && k in slot0
      ensures k in where[n.key := n] <==> slot0[k] < i || (slot0[k] == i && where0[k] in chains0[i][..j + 1])
    {
      assert Found(hash, chains0, where0, slot0, k);
      assert chains0[i][..j + 1] == chains0[i][..j] + [n];
    }
  }

  lemma MovedChain<V>(hash: Key -> nat, where: map<Key, Bucket<V>>, chains0: seq<seq<Bucket<V>>>,
                      where0: map<Key, Bucket<V>>, slot0: map<Key, nat>, i: nat)
    requires i < |chains0| && Moved(where, chains0, where0, slot0, i, |chains0[i]|)
    requires Filed(hash, chains0, where0, slot0)
    ensures Moved(where, chains0, where0, slot0, i + 1, 0)
  {
    hide Shift, BitAnd, Candidate, Distinct;
    assert chains0[i][..|chains0[i]|] == chains0[i];
    forall k | k in where0 && k in slot0
      ensures k in where <==> slot0[k] < i + 1
    {
      assert Found(hash, chains0, where0, slot0, k);
    }
  }

  lemma MovedAll<V>(hash: Key -> nat, where: map<Key, Bucket<V>>, chains0: seq<seq<Bucket<V>>>,
                    where0: map<Key, Bucket<V>>, slot0: map<Key, nat>)
    requires Moved(where, chains0, where0, slot0, |chains0|, 0) && Filed(hash, chains0, where0, slot0)
    ensures where == where0
  {
    hide Shift, BitAnd, Candidate, Distinct;
    forall k | k in where0
      ensures k in where
    {
      assert Found(hash, chains0, where0, slot0, k);
    }
  }

  lemma WaitingFirst<V>(h: Links<V>, table0: seq<Bucket?<V>>, chains0: seq<seq<Bucket<V>>>, i: nat)
    requires i < |chains0| && Waiting(h, table0, chains0, i)
    ensures Waiting(h, table0, chains0, i + 1) && Linked(h, table0[i], chains0[i][0..])
    ensures table0[i] == if |chains0[i]| > 0 then chains0[i][0] else null
  {
    assert chains0[i][0..] == chains0[i];
  }

  /** Relinking the bucket that is moved changes neither the rest of its old chain nor the later ones. */
  lemma WaitingStep<V>(hash: Key -> nat, h: Links<V>, h': Links<V>, table0: seq<Bucket?<V>>,
                       chains0: seq<seq<Bucket<V>>>,
                       where0: map<Key, Bucket<V>>, slot0: map<Key, nat>, i: nat, j: nat)
    requires Filed(hash, chains0, where0, slot0) && i < |chains0| && j < |chains0[i]|
    requires Waiting(h, table0, chains0, i + 1) && Linked(h, chains0[i][j], chains0[i][j..])
    requires forall n :: n in h && n != chains0[i][j] ==> n in h' && h'[n] == h[n]
    ensures chains0[i][j] in h && Waiting(h', table0, chains0, i + 1)
    ensures Linked(h', h[chains0[i][j]], chains0[i][j + 1..])
    ensures h[chains0[i][j]] == if j + 1 < |chains0[i]| then chains0[i][j + 1] else null
  {
    hide Found, Shift, BitAnd, Candidate;
    var n, c := chains0[i][j], chains0[i];
    assert InSlot(where0, slot0, i, n) && Distinct(c);
    LinkedAt(h, n, c[j..], 0);
    assert c[j..][1..] == c[j + 1..];
    assert n !in c[j + 1..];
    LinkedFrame(h, h', h[n], c[j + 1..]);
    forall k | i + 1 <= k < |chains0|
      ensures Linked(h', table0[k], chains0[k])
    {
      if n in chains0[k] { FiledAt(hash, chains0, where0, slot0, k, n); }
      LinkedFrame(h, h', table0[k], chains0[k]);
    }
  }

  /** The subtraction of 32-bit words asks for growth exactly while the table is two thirds full and not
      more than full: once refused growths let it hold more items than slots, it asks no more. */
  lemma GrowthWindow(size: u32, items: u32)
    ensures (size - items) % 0x1_0000_0000 <= size / 3 <==> size - size / 3 <= items <= size
  {
    if items > size { assert (size - items) % 0x1_0000_0000 == size - items + 0x1_0000_0000; }
  }

  class HashTable<V> {
    const hash: Key -> nat
    const rehashing: bool
    var table: array<Bucket?<V>>
    var items: nat
    ghost var repr: set<Bucket<V>>
    ghost var chains: seq<seq<Bucket<V>>>
    ghost var where: map<Key, Bucket<V>>
    ghost var slot: map<Key, nat>

    ghost function Next(): Links<V>
      reads this`repr, repr`next
    {
      map n | n in repr :: n.next
    }

    /** The pointers draw the chains. */
    ghost predicate Wired()
      reads this`repr, this`table, this`chains, table, repr`next
    {
      |chains| == table.Length && forall i :: 0 <= i < |chains| ==> Linked(Next(), table[i], chains[i])
    }

    ghost predicate Sound()
      reads this`repr, this`table, this`chains, this`where, this`slot, table, repr`next
    {
      && Wired() && Filed(hash, chains, where, slot) && IsPow2(table.Length) && table.Length < 0x1_0000_0000
      && forall k :: k in where ==> where[k] in repr
    }

    ghost predicate Valid()
      reads this, table, repr`next
    {
      Sound() && items == |where|
    }

    ghost function View(): map<Key, V>
      reads this`where, this`repr, repr`data
    {
      map k | k in where && where[k] in repr :: where[k].data
    }

    /** An empty table; the requested size is rounded up to a power of two, at least four. */
    constructor (hash: Key -> nat, rehashing: bool, size: nat)
      requires size <= 0x4000_0000
      ensures Valid() && View() == map[] && fresh(table) && repr == {}
      ensures this.hash == hash && this.rehashing == rehashing
      ensures size <= table.Length && 4 <= table.Length && (table.Length == 4 || table.Length / 2 < size)
      ensures IsPow2(table.Length)
    {
      this.hash, this.rehashing, items, repr, where, slot := hash, rehashing, 0, {}, map[], map[];
      var rsize := 4;
      Pow4();
      while rsize < size
        invariant IsPow2(rsize) && 4 <= rsize <= 0x7FFF_FFFF && (rsize == 4 || rsize / 2 < size)
      {
        Pow2Double(rsize);
        rsize := 2 * rsize;
      }
      table := new Bucket?<V>[rsize](i => null);
      chains := seq(rsize, i => []);
    }

    function HomeSlot(key: Key): (r: nat)
      requires table.Length > 0
      reads this`table
      ensures r < table.Length
    {
      BitAnd(hash(key), table.Length - 1)
    }

    /** The bucket of a key in one chain. */
    method GetBucketLl(key: Key, i: nat) returns (ptr: Bucket?<V>)
      requires Sound() && i < table.Length && table[i] != null
      ensures ptr == if key in where && slot[key] == i then where[key] else null
    {
      hide Shift, Candidate, BitAnd, IsPow2;
      ptr := table[i];
      ghost var j := 0;
      ghost var h := Next();
      assert Linked(h, table[i], chains[i]);
      while ptr != null
        invariant 0 <= j <= |chains[i]| && ptr == if j < |chains[i]| then chains[i][j] else null
        invariant forall m :: 0 <= m < j ==> chains[i][m].key != key
        decreases |chains[i]| - j
      {
        assert InSlot(where, slot, i, chains[i][j]);
        if ptr.key == key {
          return;
        }
        LinkedAt(h, table[i], chains[i], j);
        ptr := ptr.next;
        j := j + 1;
      }
      if key in where {
        assert Found(hash, chains, where, slot, key);
      }
    }

    lemma NotHere(key: Key, i: nat)
      requires Sound() && i < table.Length && table[i] == null
      ensures chains[i] == [] && (key in where ==> slot[key] != i)
    {
      hide Shift, Candidate, BitAnd, IsPow2;
      assert Linked(Next(), table[i], chains[i]);
      if key in where { assert Found(hash, chains, where, slot, key); }
    }

    lemma AtCandidate(key: Key)
      requires Sound() && table.Length > 0
      ensures key in where ==> Candidate(HomeSlot(key), Shift(key), table.Length, slot[key]) && where[key].key == key
      ensures key in where ==> where[key] in repr && where[key] in chains[slot[key]]
    {
      if key in where { assert Found(hash, chains, where, slot, key); }
    }

    /** Looks in the home slot and in the two alternate ones, and so finds every key. */
    method GetBucket(key: Key, khash: nat) returns (ptr: Bucket?<V>)
      requires Sound() && table.Length > 0 && khash == HomeSlot(key)
      ensures ptr == if key in where then where[key] else null
      ensures ptr != null ==> ptr in repr
    {
      hide Shift, BitAnd, Sound, Linked, IsPow2;
      var size := table.Length;
      AtCandidate(key);
      ptr := null;
      if table[khash] != null {
        ptr := GetBucketLl(key, khash);
      } else {
        NotHere(key, khash);
      }
      if ptr == null {
        var shift := Shift(key);
        var nexthash := (khash + shift) % 0x1_0000_0000;
        if nexthash < size {
          if table[nexthash] != null {
            ptr := GetBucketLl(key, nexthash);
          } else {
            NotHere(key, nexthash);
          }
        }
        if ptr == null && khash > shift {
          nexthash := khash - shift;
          if table[nexthash] != null {
            ptr := GetBucketLl(key, nexthash);
          } else {
            NotHere(key, nexthash);
          }
        }
      }
    }

    /** The element of a key, if there is one. */
    method Get(key: Key) returns (data: Option<V>)
      requires Valid() && table.Length > 0
      ensures data == if key in View() then Some(View()[key]) else None
    {
      hide Shift, BitAnd, Sound, Linked, IsPow2, Candidate;
      AtCandidate(key);
      var ptr := GetBucket(key, HomeSlot(key));
      data := if ptr == null then None else Some(ptr.data);
    }

    /** Where a new key goes: to its home slot, or else to the first free one of its alternate slots. */
    ghost function FreeSlot(key: Key, khash: nat): nat
      requires khash < table.Length
      reads this`table, table
    {
      var shift := Shift(key);
      var up := (khash + shift) % 0x1_0000_0000;
      if table[khash] == null then khash
      else if up < table.Length && table[up] == null then up
      else if khash > shift && table[khash - shift] == null then khash - shift
      else khash
    }

    /** An empty slot for a key whose home slot is taken, or its home slot. */
    method FindFreeSlot(key: Key, khash: nat) returns (i: nat)
      requires khash < table.Length < 0x1_0000_0000
      ensures i < table.Length && Candidate(khash, Shift(key), table.Length, i) && (table[i] == null || i == khash)
      ensures table[khash] != null ==> i == FreeSlot(key, khash)
    {
      var shift := Shift(key);
      var nexthash := (khash + shift) % 0x1_0000_0000;
      if nexthash < table.Length && table[nexthash] == null {
        return nexthash;
      }
      if khash > shift {
        nexthash := khash - shift;
        if table[nexthash] == null {
          return nexthash;
        }
      }
      return khash;
    }

    /** Puts a bucket of a new key in front of a chain. */
    method Prepend(node: Bucket<V>, i: nat)
      requires Sound() && i < table.Length && node.key !in where && node.next == table[i]
      requires Candidate(HomeSlot(node.key), Shift(node.key), table.Length, i)
      requires forall k :: 0 <= k < |chains| ==> node !in chains[k]
      modifies this`repr, this`chains, this`where, this`slot, table
      ensures Sound() && repr == old(repr) + {node} && where == old(where)[node.key := node]
      ensures slot == old(slot)[node.key := i] && View() == old(View())[node.key := node.data]
    {
      hide Shift, BitAnd, Candidate, IsPow2, Filed;
      ghost var h, t := Next(), table[..];
      Prepended(hash, chains, where, slot, i, node);
      ghost var old' := chains;
      repr := repr + {node};
      table[i] := node;
      chains := chains[i := [node] + chains[i]];
      where := where[node.key := node];
      slot := slot[node.key := i];
      forall k | 0 <= k < |chains|
        ensures Linked(Next(), table[k], chains[k])
      {
        LinkedFrame(h, Next(), t[k], old'[k]);
      }
    }

    /** Sets the link of a bucket that is in no chain. */
    method Relink(node: Bucket<V>, next: Bucket?<V>)
      requires Sound() && forall k :: 0 <= k < |chains| ==> node !in chains[k]
      modifies node`next
      ensures Sound() && node.next == next
    {
      hide Filed, IsPow2;
      ghost var h := Next();
      node.next := next;
      forall k | 0 <= k < |chains|
        ensures Linked(Next(), table[k], chains[k])
      {
        LinkedFrame(h, Next(), table[k], chains[k]);
      }
    }

    /** Puts a bucket of the old table into the new one, at the home slot of its key. */
    method PutNode(node: Bucket<V>) returns (died: bool)
      requires Sound() && table.Length > 0 && node.key !in where
      requires forall k :: 0 <= k < |chains| ==> node !in chains[k]
      modifies this`repr, this`chains, this`where, this`slot, this`items, table, node`next
      ensures Sound() && !died && repr == old(repr) + {node} && items == old(items) + 1
      ensures where == old(where)[node.key := node]
      ensures forall n :: n in old(Next()) && n != node ==> n in Next() && Next()[n] == old(Next())[n]
    {
      hide Sound, Shift, BitAnd, IsPow2, Linked;
      var khash := HomeSlot(node.key);
      if table[khash] != null {
        var ptr := GetBucketLl(node.key, khash);
        if ptr != null {
          return true;
        }
      }
      Relink(node, table[khash]);
      SameLength();
      Prepend(node, khash);
      items := items + 1;
      died := false;
    }

    lemma SameLength()
      requires Sound()
      ensures |chains| == table.Length
    {}

    /** A bucket whose key is not filed is in no chain. */
    lemma InNoChain(n: Bucket<V>)
      requires Sound() && n.key !in where
      ensures forall k :: 0 <= k < |chains| ==> n !in chains[k]
    {
      hide Linked, Shift, BitAnd, Candidate, Found;
      forall k, j | 0 <= k < |chains| && 0 <= j < |chains[k]|
        ensures chains[k][j] != n
      {
        assert InSlot(where, slot, k, chains[k][j]);
      }
    }

    lemma NextOf(n: Bucket<V>)
      requires n in repr
      ensures n in Next() && Next()[n] == n.next
    {}

    /** The buckets of one old chain go to the new table. */
    method MoveChain(ghost table0: seq<Bucket?<V>>, ghost chains0: seq<seq<Bucket<V>>>,
                     ghost where0: map<Key, Bucket<V>>,
                     ghost slot0: map<Key, nat>, ghost i: nat, first: Bucket?<V>)
      requires Sound() && Filed(hash, chains0, where0, slot0) && i < |chains0| == |table0|
      requires Waiting(Next(), table0, chains0, i) && first == table0[i] && Moved(where, chains0, where0, slot0, i, 0)
      requires items == |where| && table.Length > 0 && forall k :: k in where0 ==> where0[k] in repr
      modifies this`repr, this`chains, this`where, this`slot, this`items, table, repr`next
      ensures Sound() && items == |where| && repr == old(repr)
      ensures Waiting(Next(), table0, chains0, i + 1) && Moved(where, chains0, where0, slot0, i, |chains0[i]|)
    {
      hide Sound, Filed, Shift, BitAnd, IsPow2, Linked, Moved, Waiting, Next;
      var node := first;
      ghost var j := 0;
      WaitingFirst(Next(), table0, chains0, i);
      while node != null
        invariant j <= |chains0[i]| && node == if j < |chains0[i]| then chains0[i][j] else null
        invariant Sound() && items == |where| && repr == old(repr) && Moved(where, chains0, where0, slot0, i, j)
        invariant Waiting(Next(), table0, chains0, i + 1) && Linked(Next(), node, chains0[i][j..])
        decreases |chains0[i]| - j
      {
        MovedStep(hash, where, chains0, where0, slot0, i, j);
        InNoChain(node);
        NextOf(node);
        ghost var h := Next();
        var next := node.next;
        var died := PutNode(node);
        WaitingStep(hash, h, Next(), table0, chains0, where0, slot0, i, j);
        node := next;
        j := j + 1;
      }
    }

    /** Quadruples the table, unless memory is refused. Every bucket stays the same object. */
    method Rehash(granted: bool)
      requires Valid() && table.Length > 0 && (granted ==> 4 * table.Length < 0x1_0000_0000)
      modifies this`table, this`repr, this`chains, this`where, this`slot, this`items, repr`next
      ensures Valid() && where == old(where) && repr == old(repr) && View() == old(View())
      ensures if granted then fresh(table) && table.Length == 4 * old(table.Length)
        else table == old(table) && table[..] == old(table[..]) && chains == old(chains) && slot == old(slot)
    {
      hide Filed, Shift, BitAnd, IsPow2, Linked, Moved, Waiting, Sound, Next;
      if !granted {
        return;
      }
      var oldtable := table;
      ghost var table0, chains0, where0, slot0 := table[..], chains, where, slot;
      Opened();
      Clear(4 * oldtable.Length);
      NothingFiled(table0, chains0, where0, slot0);
      MoveAll(oldtable, chains0, where0, slot0);
    }

    /** A new empty table. */
    method Clear(size: nat)
      modifies this`table, this`chains, this`where, this`slot, this`items
      ensures fresh(table) && table.Length == |chains| == size && items == 0 && where == map[] && slot == map[]
      ensures forall i :: 0 <= i < |chains| ==> chains[i] == [] && table[i] == null
    {
      table := new Bucket?<V>[size](i => null);
      items := 0;
      chains, where, slot := seq(size, i => []), map[], map[];
    }

    /** All buckets of the old table go to the new one. */
    method MoveAll(oldtable: array<Bucket?<V>>, ghost chains0: seq<seq<Bucket<V>>>, ghost where0: map<Key, Bucket<V>>,
                   ghost slot0: map<Key, nat>)
      requires Sound() && Filed(hash, chains0, where0, slot0) && oldtable != table && |chains0| == oldtable.Length
      requires Waiting(Next(), oldtable[..], chains0, 0) && Moved(where, chains0, where0, slot0, 0, 0)
      requires items == |where| && table.Length > 0 && forall k :: k in where0 ==> where0[k] in repr
      modifies this`repr, this`chains, this`where, this`slot, this`items, table, repr`next
      ensures Sound() && items == |where| && repr == old(repr) && where == where0
    {
      hide Filed, Shift, BitAnd, IsPow2, Linked, Moved, Waiting, Sound, Next;
      ghost var table0 := oldtable[..];
      var i := 0;
      while i < oldtable.Length
        invariant i <= oldtable.Length && Sound() && items == |where| && repr == old(repr) && oldtable[..] == table0
        invariant Waiting(Next(), table0, chains0, i) && Moved(where, chains0, where0, slot0, i, 0)
      {
        MoveChain(table0, chains0, where0, slot0, i, oldtable[i]);
        MovedChain(hash, where, chains0, where0, slot0, i);
        i := i + 1;
      }
      MovedAll(hash, where, chains0, where0, slot0);
    }

    lemma Opened()
      requires Sound()
      ensures Filed(hash, chains, where, slot) && Waiting(Next(), table[..], chains, 0) && |chains| == table.Length
      ensures IsPow2(table.Length) && forall k :: k in where ==> where[k] in repr
    {}

    lemma NothingFiled(table0: seq<Bucket?<V>>, chains0: seq<seq<Bucket<V>>>, where0: map<Key, Bucket<V>>,
                       slot0: map<Key, nat>)
      requires |chains| == table.Length == 4 * |chains0| < 0x1_0000_0000 && where == map[] && slot == map[]
      requires forall i :: 0 <= i < |chains| ==> chains[i] == [] && table[i] == null
      requires Filed(hash, chains0, where0, slot0) && IsPow2(|chains0|)
      ensures Sound() && Moved(where, chains0, where0, slot0, 0, 0)
    {
      Pow2Double(|chains0|);
      Pow2Double(2 * |chains0|);
      forall k | k in where0
        ensures k in slot0 && slot0[k] < |chains0|
      {
        assert Found(hash, chains0, where0, slot0, k);
      }
    }

    // ---- the operations ----

    /** What is left of the table before growth, by the subtraction of 32-bit words. */
    function Spare(): u32
      reads this`table, this`items
    {
      (table.Length - items) % 0x1_0000_0000
    }

    /** The growth test at the beginning of a put. */
    method MakeRoom(granted: bool) returns (tried: bool)
      requires Valid() && table.Length > 0 && (granted ==> 4 * table.Length < 0x1_0000_0000)
      modifies this`table, this`repr, this`chains, this`where, this`slot, this`items, repr`next
      ensures Valid() && where == old(where) && repr == old(repr) && View() == old(View()) && table.Length > 0
      ensures tried <==> old(rehashing && (table.Length - items) % 0x1_0000_0000 <= table.Length / 3)
      ensures old(items < 0x1_0000_0000) ==>
        (tried <==> old(rehashing && table.Length - table.Length / 3 <= items <= table.Length))
      ensures if tried && granted then fresh(table) && table.Length == 4 * old(table.Length)
        else table == old(table) && table[..] == old(table[..])
    {
      hide Sound, Shift, BitAnd, IsPow2, Linked, Candidate, Next, View;
      Placement();
      if items < 0x1_0000_0000 { GrowthWindow(table.Length, items); }
      tried := false;
      if rehashing && Spare() <= table.Length / 3 {
        Rehash(granted);
        tried := true;
      }
    }

    /** Inserts a key or replaces its element. A key that is already there without leave to replace it
        stops the program. */
    method Put(key: Key, khash0: nat, data: V, replace: bool, granted: bool) returns (died: bool)
      requires Valid() && table.Length > 0 && (khash0 == 0 || khash0 == HomeSlot(key))
      requires granted ==> 4 * table.Length < 0x1_0000_0000
      modifies this, table, repr
      ensures Valid() && (died <==> !replace && key in old(View()))
      ensures View() == if died then old(View()) else old(View())[key := data]
      ensures if old(granted && rehashing && (table.Length - items) % 0x1_0000_0000 <= table.Length / 3)
        then fresh(table) && table.Length == 4 * old(table.Length) else table == old(table)
      ensures old(items < 0x1_0000_0000) ==>
        if old(granted && rehashing && table.Length - table.Length / 3 <= items <= table.Length)
        then fresh(table) && table.Length == 4 * old(table.Length) else table == old(table)
      ensures HomeSlot(key) < table.Length
      ensures key !in old(where) && table == old(table) ==>
        key in slot && slot[key] == old(FreeSlot(key, HomeSlot(key)))
      ensures key in old(where) ==> where == old(where) && repr == old(repr)
      ensures fresh(repr - old(repr))
    {
      hide Valid, Sound, Shift, BitAnd, IsPow2, Linked, Candidate, Next, View, HomeSlot, FreeSlot;
      var khash := khash0;
      SoundNow();
      Placement();
      var tried := MakeRoom(granted);
      if tried {
        khash := 0;
      }
      if khash == 0 {
        khash := HomeSlot(key);
      }
      died := PutBucket(key, khash, data, replace);
    }

    /** The rest of `n_hash_put`, without growth. */
    method PutBucket(key: Key, khash: nat, data: V, replace: bool) returns (died: bool)
      requires Valid() && table.Length > 0 && khash == HomeSlot(key)
      modifies this`repr, this`chains, this`where, this`slot, this`items, table, repr`data
      ensures Valid() && (died <==> !replace && key in old(View()))
      ensures View() == if died then old(View()) else old(View())[key := data]
      ensures key !in old(where) ==> key in slot && slot[key] == old(FreeSlot(key, khash))
      ensures key in old(where) ==> where == old(where) && repr == old(repr)
      ensures fresh(repr - old(repr))
    {
      hide Valid, Sound, Shift, BitAnd, IsPow2, Linked, Candidate, Next, View, HomeSlot, FreeSlot;
      SoundNow();
      Placement();
      var ptr := GetBucket(key, khash);
      if ptr != null {
        if !replace {
          return true;
        }
        SetData(key, ptr, data);
        return false;
      }
      var _ := Add(key, data, khash);
      died := false;
    }

    lemma SoundNow()
      requires Valid()
      ensures Sound()
    {}

    /** The element of a key is replaced in its bucket. */
    method SetData(key: Key, ptr: Bucket<V>, data: V)
      requires Valid() && key in where && where[key] == ptr && ptr in repr
      modifies ptr`data
      ensures Valid() && View() == old(View())[key := data]
    {
      hide Shift, BitAnd, IsPow2, Linked, Candidate, Next, Found;
      ptr.data := data;
      OwnBuckets();
    }

    lemma OwnBuckets()
      requires Sound()
      ensures forall j, k :: j in where && k in where && j != k ==> where[j] != where[k]
      ensures forall k :: k in where ==> where[k] in repr
    {
      forall k | k in where
        ensures where[k].key == k
      {
        assert Found(hash, chains, where, slot, k);
      }
    }

    /** Files a key that is not in the table. */
    method Add(key: Key, data: V, khash0: nat) returns (khash: nat)
      requires Valid() && table.Length > 0 && khash0 == HomeSlot(key) && key !in where
      modifies this`repr, this`chains, this`where, this`slot, this`items, table
      ensures Valid() && View() == old(View())[key := data]
      ensures khash < table.Length && key in slot && slot[key] == khash
      ensures khash == old(FreeSlot(key, khash0))
      ensures fresh(repr - old(repr))
    {
      hide Sound, Shift, BitAnd, IsPow2, Linked, Next, View, Candidate, FreeSlot;
      khash := PickSlot(key, khash0);
      File(key, data, khash);
    }

    /** The home slot if it is empty, else an empty alternate slot, else the home slot. */
    method PickSlot(key: Key, khash0: nat) returns (khash: nat)
      requires Valid() && table.Length > 0 && khash0 == HomeSlot(key) && key !in where
      ensures khash < table.Length && Candidate(khash0, Shift(key), table.Length, khash)
      ensures khash == FreeSlot(key, khash0)
      ensures table[khash] != null ==>
        forall i :: 0 <= i < table.Length && Candidate(khash0, Shift(key), table.Length, i) ==> table[i] != null
    {
      hide Sound, Shift, BitAnd, IsPow2, Linked, Next, View;
      khash := khash0;
      Placement();
      OwnSlot(key);
      if table[khash] != null {
        khash := FindFreeSlot(key, khash);
        if table[khash] != null {
          var dup := GetBucketLl(key, khash);
          assert dup == null;
        }
      }
    }

    /** A new bucket goes to the front of a chain. */
    method File(key: Key, data: V, khash: nat)
      requires Valid() && khash < table.Length && key !in where
      requires Candidate(HomeSlot(key), Shift(key), table.Length, khash)
      modifies this`repr, this`chains, this`where, this`slot, this`items, table
      ensures Valid() && View() == old(View())[key := data] && key in slot && slot[key] == khash
      ensures fresh(repr - old(repr))
    {
      hide Sound, Shift, BitAnd, IsPow2, Linked, Next, View, Candidate;
      Placement();
      var node := new Bucket(key, data, table[khash]);
      Stranger(node);
      Prepend(node, khash);
      items := items + 1;
    }

    lemma Placement()
      requires Sound()
      ensures |chains| == table.Length < 0x1_0000_0000 && View().Keys == where.Keys
      ensures forall k :: k in where ==> where[k] in repr && where[k].key == k && k in slot
    {
      forall k | k in where
        ensures where[k] in repr && where[k].key == k && k in slot
      {
        assert Found(hash, chains, where, slot, k);
      }
    }

    lemma OwnSlot(key: Key)
      requires table.Length > 0
      ensures Candidate(HomeSlot(key), Shift(key), table.Length, HomeSlot(key))
    {}

    lemma Stranger(n: Bucket<V>)
      requires Sound() && n !in repr
      ensures forall k :: 0 <= k < |chains| ==> n !in chains[k]
    {
      forall k | 0 <= k < |chains|
        ensures n !in chains[k]
      {
        LinkedIn(Next(), table[k], chains[k]);
      }
    }

    /** Takes the bucket of a key out of one chain. */
    method RemoveBucketLl(key: Key, i: nat) returns (data: Option<V>)
      requires Sound() && i < table.Length && table[i] != null
      modifies this`repr, this`chains, this`where, this`slot, table, repr`next
      ensures Sound() && table.Length == old(table.Length)
      ensures data.Some? <==> key in old(where) && old(slot)[key] == i
      ensures data.None? ==> unchanged(this) && unchanged(table) && unchanged(repr)
      ensures data.Some? ==>
        data.value == old(where[key].data) && where == old(where) - {key} && repr == old(repr) - {old(where[key])}
    {
      hide Shift, Candidate, BitAnd, IsPow2, Filed;
      var ptr, last: Bucket?<V> := table[i], null;
      ghost var j := 0;
      ghost var h, c := Next(), chains[i];
      while ptr != null
        invariant 0 <= j <= |c| && ptr == (if j < |c| then c[j] else null) && last == if j > 0 then c[j - 1] else null
        invariant forall m :: 0 <= m < j ==> c[m].key != key
        modifies {}
        decreases |c| - j
      {
        if ptr.key == key {
          break;
        }
        LinkedAt(h, table[i], c, j);
        last := ptr;
        ptr := ptr.next;
        j := j + 1;
      }
      if ptr == null {
        NotInChain(key, i);
        return None;
      }
      OneOfChain(i, j);
      if j > 0 { OneOfChain(i, j - 1); }
      data := Some(ptr.data);
      Cut(i, j, ptr, last);
    }

    lemma NotInChain(key: Key, i: nat)
      requires Sound() && i < table.Length && forall m :: 0 <= m < |chains[i]| ==> chains[i][m].key != key
      ensures !(key in where && slot[key] == i)
    {
      if key in where { assert Found(hash, chains, where, slot, key); }
    }

    lemma OneOfChain(i: nat, j: nat)
      requires Sound() && i < |chains| && j < |chains[i]|
      ensures var n := chains[i][j]; n.key in where && where[n.key] == n && slot[n.key] == i && n in repr
    {
      assert InSlot(where, slot, i, chains[i][j]);
    }

    /** The pointer write that takes the `j`-th bucket out of a chain. */
    method Cut(i: nat, ghost j: nat, ptr: Bucket<V>, last: Bucket?<V>)
      requires Sound() && i < table.Length && j < |chains[i]| && ptr == chains[i][j] && ptr in repr
      requires ptr.key in where && where[ptr.key] == ptr && slot[ptr.key] == i
      requires last == (if j > 0 then chains[i][j - 1] else null) && (last != null ==> last in repr)
      modifies this`repr, this`chains, this`where, this`slot, table, repr`next
      ensures Sound() && where == old(where) - {ptr.key} && repr == old(repr) - {ptr}
    {
      hide Shift, Candidate, BitAnd, IsPow2, Filed;
      ghost var h, c, t, all := Next(), chains[i], table[..], chains;
      LinkedAt(h, table[i], c, j);
      LinkedIn(h, table[i], c);
      TakenOut(hash, chains, where, slot, i, j);
      Apart(i, j);
      if last != null {
        last.next := ptr.next;
      } else {
        table[i] := ptr.next;
      }
      repr := repr - {ptr};
      chains := chains[i := c[..j] + c[j + 1..]];
      where, slot := where - {ptr.key}, slot - {ptr.key};
      CutLinked(h, Next(), t, table[..], all, i, j);
    }

    lemma Apart(i: nat, j: nat)
      requires Sound() && i < |chains| && j < |chains[i]|
      ensures Distinct(chains[i])
      ensures forall k :: 0 <= k < |chains| && k != i ==> chains[i][j] !in chains[k]
      ensures j > 0 ==> forall k :: 0 <= k < |chains| && k != i ==> chains[i][j - 1] !in chains[k]
      ensures forall k :: k in where && k != chains[i][j].key ==> where[k] != chains[i][j]
    {
      hide Linked, Shift, BitAnd, Candidate;
      assert InSlot(where, slot, i, chains[i][j]);
      forall k, m | 0 <= k < |chains| && k != i && 0 <= m < |chains[k]|
        ensures chains[k][m] != chains[i][j] && (j > 0 ==> chains[k][m] != chains[i][j - 1])
      {
        assert InSlot(where, slot, k, chains[k][m]);
        if j > 0 { assert InSlot(where, slot, i, chains[i][j - 1]); }
      }
      forall k | k in where && k != chains[i][j].key
        ensures where[k] != chains[i][j]
      {
        assert Found(hash, chains, where, slot, k);
      }
    }

    /** Removes a key from one slot, if it is there. */
    method TryRemove(key: Key, i: nat) returns (data: Option<V>)
      requires Sound() && i < table.Length
      modifies this`repr, this`chains, this`where, this`slot, table, repr`next
      ensures Sound() && (data.Some? <==> key in old(where) && old(slot)[key] == i)
      ensures data.None? ==> unchanged(this) && unchanged(table) && unchanged(repr) && View() == old(View())
      ensures data.Some? ==> View() == old(View()) - {key} && where == old(where) - {key} && key in old(View())
      ensures data.Some? ==> data.value == old(View()[key])
    {
      hide Sound, Shift, BitAnd, IsPow2, Linked, Next, Candidate;
      Placement();
      OwnBuckets();
      data := None;
      if table[i] != null {
        data := RemoveBucketLl(key, i);
      } else {
        NotHere(key, i);
      }
    }

    /** Takes the key out of one chain, and counts it. */
    method RemoveAt(key: Key, i: nat) returns (data: Option<V>)
      requires Valid() && i < table.Length
      modifies this`items, this`repr, this`chains, this`where, this`slot, table, repr`next
      ensures Valid() && (data.Some? <==> key in old(where) && old(slot)[key] == i)
      ensures data.None? ==> unchanged(this) && unchanged(table) && unchanged(repr) && View() == old(View())
      ensures data.Some? ==> View() == old(View()) - {key} && key in old(View()) && data.value == old(View()[key])
    {
      hide Sound, View;
      data := TryRemove(key, i);
      if data.Some? {
        items := items - 1;
      }
    }

    /** Removes a key from whichever of its three slots it is in. */
    method Remove(key: Key) returns (data: Option<V>)
      requires Valid() && table.Length > 0
      modifies this`items, this`repr, this`chains, this`where, this`slot, table, repr`next
      ensures Valid() && View() == old(View()) - {key}
      ensures data == if key in old(View()) then Some(old(View()[key])) else None
    {
      hide Valid, Sound, Shift, BitAnd, IsPow2, Linked, Next, View;
      SoundNow();
      Placement();
      AtCandidate(key);
      var khash := HomeSlot(key);
      var shift := Shift(key);
      data := RemoveAt(key, khash);
      if data.None? {
        data := RemoveElsewhere(key, khash, shift);
      }
    }

    /** Removes a key that is not in its home slot. */
    method RemoveElsewhere(key: Key, home: nat, shift: nat) returns (data: Option<V>)
      requires Valid() && table.Length > 0 && home == HomeSlot(key) && shift == Shift(key)
      requires key in where ==> slot[key] != home && Candidate(home, shift, table.Length, slot[key])
      modifies this`items, this`repr, this`chains, this`where, this`slot, table, repr`next
      ensures Valid() && View() == old(View()) - {key}
      ensures data == if key in old(View()) then Some(old(View()[key])) else None
    {
      hide Valid, Sound, Shift, BitAnd, IsPow2, Linked, Next, View, HomeSlot, Candidate, Wrap;
      SoundNow();
      Placement();
      RoundTrip(home, shift);
      if key in where { Alternates(home, shift, table.Length, slot[key]); }
      var khash := Wrap(home + shift);
      data := None;
      if khash < table.Length {
        data := RemoveAt(key, khash);
        if data.Some? {
          return;
        }
      }
      khash := Wrap(khash - shift);
      if khash > shift {
        data := RemoveAt(key, khash - shift);
      }
    }
  }

  /** Adding and subtracting the distance leads back, with 32-bit wrap-around. */
  lemma RoundTrip(h: nat, shift: nat)
    requires h < 0x1_0000_0000 && shift < 0x1_0000_0000
    ensures Wrap(Wrap(h + shift) - shift) == h
  {}

  /** A 32-bit word. */
  function Wrap(x: int): nat {
    x % 0x1_0000_0000
  }

  lemma Alternates(home: nat, shift: nat, size: nat, i: nat)
    requires Candidate(home, shift, size, i) && i != home
    ensures (i == Wrap(home + shift) && i < size) || (home > shift && i == home - shift)
  {}

  // ---- a table that has stopped to grow ----

  /** Five puts into a new table of four slots with every growth refused; then there are more items than
      slots, and a sixth put does not grow the table although that would be granted. */
  method Outgrown(hash: Key -> nat) returns (ht: HashTable<bool>)
    ensures fresh(ht) && ht.Valid() && ht.rehashing && ht.items == 6 && ht.table.Length == 4
  {
    hide HashTable.Valid, IsPow2, Numbered;
    ht := new HashTable(hash, true, 4);
    NoNumbers();
    Pow4();
    if ht.table.Length > 4 { Pow2Gap(4, ht.table.Length); }
    var n := 0;
    while n < 6
      invariant 0 <= n <= 6 && fresh(ht) && ht.Valid() && fresh(ht.repr) && fresh(ht.table) && ht.rehashing
      invariant ht.table.Length == 4 && ht.View().Keys == Numbered(n)
    {
      PutNumbered(ht, n, n == 5);
      n := n + 1;
    }
    Counted(ht, 6);
  }

  method PutNumbered(ht: HashTable<bool>, n: nat, granted: bool)
    requires ht.Valid() && n < 0xFF && ht.View().Keys == Numbered(n) && ht.table.Length == 4 && (granted ==> n > 4)
    modifies ht, ht.table, ht.repr
    ensures ht.Valid() && ht.View().Keys == Numbered(n + 1) && ht.table == old(ht.table)
    ensures fresh(ht.repr - old(ht.repr))
  {
    hide HashTable.Valid, HashTable.View, HashTable.Spare, HashTable.HomeSlot;
    Counted(ht, n);
    var died := ht.Put([n + 1], 0, true, true, granted);
    assert ht.View().Keys == Numbered(n) + {[n + 1]};
  }

  ghost function Numbered(n: nat): (keys: set<Key>)
    requires n < 0x100
    ensures |keys| == n && forall k :: k in keys ==> |k| == 1 && k[0] <= n
  {
    if n == 0 then {} else Numbered(n - 1) + {[n]}
  }

  lemma NoNumbers()
    ensures Numbered(0) == {}
  {}

  lemma Counted(ht: HashTable<bool>, n: nat)
    requires ht.Valid() && n < 0x100 && ht.View().Keys == Numbered(n)
    ensures ht.items == n
  {
    ht.Placement();
    assert |ht.where| == |ht.where.Keys|;
  }
}
