/** The chained quadratic table: every key is reached from its home bucket by links that are quadratic
    displacements, and a key away from home gives way to the first key whose home its bucket is. */
module Verstable {
  import opened Words
  import opened Triangular
  import opened Probing
  import opened Chains
  import opened VerstableSpec
  import opened VerstableLimits

  /** An iterator: the end, or a bucket with the home bucket of its key. */
  datatype Itr = End | At(bucket: nat, home: nat)

  lemma TableSize(n: nat)
    requires n > 1
    ensures BucketCount(n) == n
  {}

  lemma Underload(count: nat, n: nat)
    requires n > 0 && !LoadReached(count, n)
    ensures n > 1 && count < n
  {}

  /** The next key to reinsert is not in the new table yet; what is there comes from the old one. */
  lemma Unmet<K, V>(st: State<K, V>, t: State<K, V>, hash: K -> nat, loose: set<nat>, i: nat)
    requires st.Wf(hash, |st.nodes|, loose) && i < |st.meta| && st.meta[i] != Meta(0, false, 0)
    requires t.Wf(hash, |t.nodes|, {}) && t.View() == Part(st, i)
    ensures |t.where| < |st.where| && i < |st.bk| && st.bk[i].Slot? && st.bk[i].key in st.View()
    ensures st.bk[i].key !in t.View() && !t.Spoiled(hash, {}, st.bk[i].key)
    ensures Part(st, i + 1) == Part(st, i)[st.bk[i].key := st.bk[i].val]
    ensures t.Refuses(hash, {}, st.bk[i].key) ==> Crowds(t, hash, st.View(), |t.meta|, st.bk[i].key)
    ensures forall k :: k in t.View() ==> k in st.View() && t.View()[k] == st.View()[k]
  {
    hide State.Wf, State.View, Part, HomeOf;
    PartStep(st, hash, loose, i);
    PartWithin(st, hash, loose, i);
    KeyCount(t, hash, |t.nodes|, {});
    Basics(st, hash, |st.nodes|, loose);
    Occupied(st, hash, |st.nodes|, loose, i);
  }

  // ---- going through all buckets ----

  /** The buckets before `b` are done: their keys have been visited, and the chosen ones erased. */
  ghost predicate Swept<K(!new)>(first: map<K, nat>, where: map<K, nat>, b: nat, visited: seq<K>, chosen: K -> bool) {
    && (forall k :: k in visited <==> k in first && (k in where ==> where[k] < b))
    && (forall k :: k in where <==> k in first && !(k in visited && chosen(k)))
    && (forall i, j :: 0 <= i < j < |visited| ==> visited[i] != visited[j])
  }

  ghost predicate Within<K(!new), V>(m: map<K, V>, was: map<K, V>) {
    forall k :: k in m ==> k in was && m[k] == was[k]
  }

  lemma SweepStarts<K(!new)>(first: map<K, nat>, chosen: K -> bool)
    ensures Swept(first, first, 0, [], chosen)
  {}

  lemma SweepPasses<K(!new)>(first: map<K, nat>, where: map<K, nat>, b: nat, visited: seq<K>, chosen: K -> bool)
    requires Swept(first, where, b, visited, chosen) && forall k :: k in where ==> where[k] != b
    ensures Swept(first, where, b + 1, visited, chosen)
  {}

  lemma SweepKeeps<K(!new)>(first: map<K, nat>, where: map<K, nat>, b: nat, visited: seq<K>, chosen: K -> bool, key: K)
    requires Swept(first, where, b, visited, chosen) && key in where && where[key] == b && !chosen(key)
    requires forall k :: k in where && k != key ==> where[k] != b
    ensures Swept(first, where, b + 1, visited + [key], chosen)
  {}

  /** An erasure moves at most one key, and none from the buckets to come to the buckets that are done. */
  lemma SweepErases<K(!new)>(first: map<K, nat>, where: map<K, nat>, where': map<K, nat>, b: nat, b': nat,
                             visited: seq<K>, chosen: K -> bool, key: K)
    requires Swept(first, where, b, visited, chosen) && key in where && where[key] == b && chosen(key)
    requires forall k :: k in where && k != key ==> where[k] != b
    requires where'.Keys == where.Keys - {key}
    requires forall k :: k in where' ==> k in where && (where'[k] >= b' <==> where[k] > b)
    ensures Swept(first, where', b', visited + [key], chosen)
  {}

  lemma WithinLess<K(!new), V>(m: map<K, V>, was: map<K, V>, key: K)
    requires Within(m, was)
    ensures Within(m - {key}, was)
  {}

  lemma WithinSelf<K(!new), V>(m: map<K, V>)
    ensures Within(m, m)
  {}

  lemma SweepEnds<K(!new), V>(first: map<K, nat>, st: State<K, V>, hash: K -> nat, was: map<K, V>, b: nat,
                              visited: seq<K>, chosen: K -> bool)
    requires st.Wf(hash, |st.nodes|, {}) && |st.meta| <= b && first.Keys == was.Keys
    requires Swept(first, st.where, b, visited, chosen) && Within(st.View(), was)
    ensures st.View() == map k | k in was && !chosen(k) :: was[k]
    ensures forall k :: k in visited <==> k in was
    ensures forall i, j :: 0 <= i < j < |visited| ==> visited[i] != visited[j]
  {
    hide Chained, HomeOf, Frag;
    KeyCount(st, hash, |st.nodes|, {});
    forall k | k in st.where
      ensures st.where[k] < b
    {
      assert st.Indexed(k);
    }
    assert st.View().Keys == (map k | k in was && !chosen(k) :: was[k]).Keys;
  }

  /** The key in a bucket, and that no other key is there. */
  lemma Occupant<K, V>(st: State<K, V>, hash: K -> nat, b: nat)
    requires st.Wf(hash, |st.nodes|, {}) && b < |st.meta|
    ensures st.meta[b] == Meta(0, false, 0) ==> forall k :: k in st.where ==> st.where[k] != b
    ensures st.meta[b] != Meta(0, false, 0) ==> b < |st.bk| && st.bk[b].Slot? && st.bk[b].key in st.where
    ensures st.meta[b] != Meta(0, false, 0) ==>
      st.where[st.bk[b].key] == b && forall k :: k in st.where && k != st.bk[b].key ==> st.where[k] != b
  {
    hide Chained, HomeOf, Frag;
    Occupied(st, hash, |st.nodes|, {}, b);
    forall k | k in st.where
      ensures st.Indexed(k)
    {}
  }

  class Table<K(==, !new), V(!new)> {
    const hash: K -> nat
    var keyCount: nat
    var mask: nat
    var buckets: array<Bucket<K, V>>
    var metadata: array<Meta>
    ghost var nodes: seq<Node>
    ghost var where: map<K, nat>
    ghost var loose: set<nat>

    ghost function St(): State<K, V>
      reads this`buckets, this`metadata, this`nodes, this`where, buckets, metadata
    {
      State(metadata[..], buckets[..], nodes, where)
    }

    ghost predicate Holds(hole: nat)
      reads this, buckets, metadata
    {
      St().Wf(hash, hole, loose) && keyCount == |where| && metadata.Length == mask + 1 == |nodes|
      && 10 * keyCount <= 9 * BucketCount(metadata.Length)
    }

    /** Every stored key is in the table, but some of them may be cut off from their chains. */
    ghost predicate Sound()
      reads this, buckets, metadata
    {
      Holds(metadata.Length)
    }

    ghost predicate Valid()
      reads this, buckets, metadata
    {
      Sound() && loose == {}
    }

    ghost function View(): map<K, V>
      reads this`buckets, this`metadata, this`nodes, this`where, buckets, metadata
    {
      St().View()
    }

    lemma SoundFacts()
      requires Sound()
      ensures St().Wf(hash, |St().nodes|, loose) && |St().where| == keyCount == |View()|
      ensures |St().meta| == metadata.Length == mask + 1
      ensures St().View() == View() && St().meta == metadata[..] && St().where == where && (loose == {} ==> Valid())
      ensures St().bk == buckets[..] && View().Keys == where.Keys
      ensures Overloaded() <==> LoadReached(|St().where|, |St().meta|)
      ensures 10 * keyCount <= 9 * BucketCount(metadata.Length)
    {
      hide State.Wf, State.View;
      KeyCount(St(), hash, metadata.Length, loose);
    }

    lemma ValidFacts()
      requires Valid()
      ensures Sound() && loose == {}
    {}

    // ---- searching ----

    /** The first empty bucket on the probe sequence of an occupied home bucket. */
    method FindFirstEmpty(home: nat) returns (found: bool, e: nat, d: nat)
      requires metadata.Length == mask + 1
      ensures if found
        then 1 <= d < 0x7FF && e == Pos(mask, home, d) && e <= mask && !Full(metadata[..], home, d)
          && forall i: nat :: 1 <= i < d ==> Full(metadata[..], home, i)
        else NoRoom(metadata[..], home)
    {
      d := 1;
      var linear := 1;
      while true
        invariant 1 <= d < 0x7FF && linear == Tri(d)
        invariant forall i: nat :: 1 <= i < d ==> Full(metadata[..], home, i)
        decreases 0x7FF - d
      {
        e := BitAnd(home + linear, mask);
        assert Full(metadata[..], home, d) <==> metadata[e] != Meta(0, false, 0);
        if metadata[e] == Meta(0, false, 0) {
          return true, e, d;
        }
        TriTwice(d);
        d := d + 1;
        if d == 0x7FF {
          return false, e, d;
        }
        linear := linear + d;
      }
    }

    /** The key of the chain of `home` behind which a key at displacement `d` belongs. */
    method FindInsertLocation(home: nat, d: nat, ghost e: nat) returns (c: nat)
      requires Sound() && home <= mask && metadata[home].home && 0 < d < 0x7FF
      requires e <= mask && metadata[e] == Meta(0, false, 0) && e == Pos(mask, home, d)
      ensures On(St(), loose, home, c, d) && c < metadata.Length && metadata[c].disp > d
    {
      hide Chained, Pos, HomeOf, State.Wf, On, State.View, DistOf;
      ghost var st := St();
      c := home;
      OnHome(st, hash, loose, home, d);
      while true
        invariant St() == st && On(st, loose, home, c, d)
        decreases 0x7FF - DistOf(nodes, c)
      {
        OnFacts(st, hash, loose, home, c, d);
        SeekStep(st, hash, loose, home, d, e, c);
        var disp := metadata[c].disp;
        if disp > d {
          return;
        }
        c := Pos(mask, home, disp);
      }
    }

    /** The bucket in front of `x`, a member of the chain of `home` that is not its head. */
    method FindPrevious(home: nat, x: nat) returns (prev: nat)
      requires Sound() && On(St(), loose, home, x, 0x7FF) && home <= mask && !metadata[x].home
      ensures On(St(), loose, home, prev, nodes[x].dist) && nodes[prev].next == nodes[x].dist
    {
      hide Chained, Pos, HomeOf, State.Wf, On, State.View, DistOf;
      ghost var st := St();
      OnFacts(st, hash, loose, home, x, 0x7FF);
      prev := home;
      HeadOfChain(st, hash, loose, home, x);
      while true
        invariant St() == st && On(st, loose, home, prev, st.nodes[x].dist)
        decreases 0x7FF - DistOf(nodes, prev)
      {
        OnFacts(st, hash, loose, home, prev, st.nodes[x].dist);
        PrevStep(st, hash, loose, x, prev);
        var next := Pos(mask, home, metadata[prev].disp);
        if next == x {
          return;
        }
        prev := next;
      }
    }

    /** Takes the key of `x` out of its chain, leaving it in its bucket. */
    method Disconnect(home: nat, x: nat)
      requires Sound() && On(St(), loose, home, x, 0x7FF) && home <= mask && x <= mask && !metadata[x].home
      modifies this`nodes, this`loose, metadata
      ensures Sound() && loose == old(loose) + {x} && x !in old(loose) && View() == old(View())
      ensures buckets[..] == old(buckets[..])
      ensures metadata[home].home && metadata[home] != Meta(0, false, 0) && nodes[x].Node? && nodes[x].home == home
      ensures nodes[x] == old(nodes[x]) && metadata[x] == old(metadata[x])
      ensures NoRoom(metadata[..], home) <==> old(NoRoom(metadata[..], home))
    {
      hide Chained, Pos, HomeOf, State.Wf, State.Shaped, State.View, On, DistOf, Full;
      ghost var s0 := St();
      OnFacts(s0, hash, loose, home, x, 0x7FF);
      var prev := FindPrevious(home, x);
      OnFacts(s0, hash, loose, home, prev, nodes[x].dist);
      CutOn(s0, hash, loose, home, prev, x);
      CutKeepsRoom(s0, hash, loose, prev, x, home);
      metadata[prev] := metadata[prev].(disp := metadata[x].disp);
      nodes, loose := Relinked(nodes, prev, nodes[x].next), loose + {x};
      assert St() == s0.Cut(prev, x);
      HeadOfChain(St(), hash, loose, home, prev);
    }

    /** Moves the key of `bucket`, which is not at home there, to an empty bucket of its own chain.
        This fails exactly if no probe from the home of that key finds an empty bucket, and then the key
        stays, already cut off from its chain. */
    method Evict(bucket: nat) returns (ok: bool)
      requires Sound() && bucket <= mask && metadata[bucket] != Meta(0, false, 0) && !metadata[bucket].home
      requires bucket !in loose && bucket < buckets.Length && buckets[bucket].Slot?
      modifies this`nodes, this`where, this`loose, metadata, buckets
      ensures ok <==> !old(NoRoom(metadata[..], HomeOf(hash(buckets[bucket].key), mask)))
      ensures View() == old(View())
      ensures if ok
        then Holds(bucket) && loose == old(loose) && nodes[bucket].Free?
        else Sound() && loose == old(loose) + {bucket} && (keyCount >= metadata.Length || keyCount >= 0x7FF)
      ensures !ok ==> where == old(where) && buckets[..] == old(buckets[..])
    {
      hide Chained, Pos, HomeOf, State.Wf, State.Shaped, State.View, On, DistOf, Full, NoRoom;
      Resident(St(), hash, loose, bucket);
      var home := HomeOf(hash(buckets[bucket].key), mask);
      Disconnect(home, bucket);
      var found, empty, d := FindFirstEmpty(home);
      if !found {
        SearchedInVain(St(), hash, loose, home);
        return false;
      }
      Room(metadata[..], home, d);
      NotFull(St(), home, d);
      Reconnect(home, bucket, empty, d);
      assert old(loose) + {bucket} - {bucket} == old(loose);
      ok := true;
    }

    /** Writes an entry to the bucket `e` and links it behind `prev`, at displacement `d`. */
    method WriteBehind(prev: nat, e: nat, d: nat, frag: nat, entry: Bucket<K, V>)
      requires prev < metadata.Length && e < metadata.Length && e < buckets.Length && e != prev
      modifies metadata, buckets
      ensures metadata[..] ==
              old(metadata[..][e := Meta(frag, false, metadata[prev].disp)][prev := metadata[prev].(disp := d)])
      ensures buckets[..] == old(buckets[..])[e := entry]
    {
      buckets[e] := entry;
      metadata[e] := Meta(frag, false, metadata[prev].disp);
      metadata[prev] := metadata[prev].(disp := d);
    }

    /** Moves the disconnected key of `x` to the empty bucket `e` and links it there. */
    method Reconnect(home: nat, x: nat, e: nat, d: nat)
      requires Sound() && x in loose && x <= mask && home <= mask && metadata[home].home && nodes[x].Node?
      requires nodes[x].home == home
      requires e <= mask && metadata[e] == Meta(0, false, 0) && e == Pos(mask, home, d) && 0 < d < 0x7FF
      modifies this`nodes, this`where, this`loose, metadata, buckets
      ensures View() == old(View()) && Holds(x) && loose == old(loose) - {x} && nodes[x].Free?
    {
      hide Chained, Pos, HomeOf, State.Wf, State.Shaped, State.View, On, DistOf, Full;
      ghost var st := St();
      var prev := FindInsertLocation(home, d, e);
      OnFacts(st, hash, loose, home, prev, d);
      Occupied(st, hash, metadata.Length, loose, e);
      Occupied(st, hash, metadata.Length, loose, x);
      Sizes(st);
      MoveWritten(st, hash, loose, x, prev, e, d);
      WriteBehind(prev, e, d, metadata[x].frag, buckets[x]);
      nodes, loose := Joined(Freed(nodes, x), prev, e, d), loose - {x};
      where := where[buckets[x].key := e];
      assert St() == st.Moved(x, prev, e, d);
      Basics(St(), hash, x, loose);
    }

    // ---- looking up ----

    /** Walks the chain of an occupied home bucket, comparing keys only where four bits of the hash agree. */
    method Search(key: K, home: nat) returns (found: bool, b: nat)
      requires Sound() && home == HomeOf(hash(key), mask) && metadata[home].home
      ensures if found then key in where && where[key] !in loose && b == where[key]
        else key !in where || where[key] in loose
    {
      hide Chained, Pos, HomeOf, Frag, State.Wf, State.Shaped, State.View, On, DistOf, Walking;
      ghost var st := St();
      var hashfrag := Frag(hash(key));
      b := home;
      WalkBegins(st, hash, loose, key, home);
      while true
        invariant Walking(st, loose, key, home, b)
        decreases 0x7FF - DistOf(nodes, b)
      {
        WalkFacts(st, hash, loose, key, home, b);
        if metadata[b].frag == hashfrag && buckets[b].key == key {
          return true, b;
        }
        var disp := metadata[b].disp;
        if disp == 0x7FF {
          WalkEnds(st, hash, loose, key, home, b);
          return false, b;
        }
        WalkStep(st, hash, loose, key, home, b);
        b := Pos(mask, home, disp);
        WalkFacts(st, hash, loose, key, home, b);
      }
    }

    /** Exactly the keys that no failed eviction has cut off are found, with their values. */
    method Get(key: K) returns (itr: Itr)
      requires Sound()
      ensures itr.End? <==> key !in View() || where[key] in loose
      ensures itr.At? ==> itr.bucket == where[key] && itr.bucket <= mask && itr.home == HomeOf(hash(key), mask)
      ensures itr.At? ==> itr.bucket < buckets.Length && buckets[itr.bucket] == Slot(key, View()[key])
    {
      hide Chained, Pos, HomeOf, Frag, State.Wf, State.Shaped, State.View, On, DistOf, Walking;
      var home := HomeOf(hash(key), mask);
      NoChain(St(), hash, loose, key);
      FoundAt(St(), hash, metadata.Length, loose, key);
      if !metadata[home].home {
        return End;
      }
      var found, b := Search(key, home);
      if !found {
        return End;
      }
      FoundIndexed(St(), hash, loose, key);
      Sizes(St());
      return At(b, home);
    }

    // ---- inserting ----

    predicate Overloaded()
      reads this`keyCount, this`metadata
    {
      LoadReached(keyCount, metadata.Length)
    }

    /** Inserts a key unless the load factor or the displacement limit stands in the way; `Refuses` and
        `CutsOff` say exactly when. */
    method InsertRaw(key: K, val: V, unique: bool, replace: bool) returns (itr: Itr)
      requires Sound() && !St().Spoiled(hash, loose, key) && (unique ==> key !in View())
      modifies this`keyCount, this`nodes, this`where, this`loose, metadata, buckets
      ensures Sound()
      ensures itr.End? <==> old(St().Refuses(hash, loose, key))
      ensures itr.At? ==> loose == old(loose) && key in where && where[key] !in loose && itr.bucket == where[key]
      ensures itr.At? ==> View() == if key in old(View()) && !replace then old(View()) else old(View())[key := val]
      ensures itr.End? ==> View() == old(View()) && keyCount == old(keyCount)
      ensures itr.End? ==> where == old(where) && buckets[..] == old(buckets[..])
      ensures if old(St().CutsOff(hash, key))
        then loose == old(loose) + {HomeOf(hash(key), mask)}
             && HomeOf(hash(key), mask) !in old(loose) && 0x7FF <= keyCount
        else loose == old(loose)
      ensures itr.End? && loose == old(loose) ==> St() == old(St())
    {
      hide Chained, Pos, HomeOf, Frag, State.Wf, State.Shaped, State.View, On, DistOf, Walking, NoRoom;
      ghost var st := St();
      var home := HomeOf(hash(key), mask);
      NoChain(st, hash, loose, key);
      FoundAt(st, hash, metadata.Length, loose, key);
      if !metadata[home].home {
        if Overloaded() {
          return End;
        }
        itr := InsertHead(key, val, home);
        return;
      }
      if !unique {
        var found, b := Search(key, home);
        if found {
          if replace {
            FoundIndexed(st, hash, loose, key);
            ValueWritten(st, hash, loose, key, val);
            buckets[b] := Slot(key, val);
            assert St() == st.Replaced(b, key, val);
          }
          return At(b, home);
        }
      }
      if Overloaded() {
        return End;
      }
      itr := InsertTail(key, val, home);
    }

    /** A key whose home bucket holds no key of its own becomes the head of a chain. */
    method InsertHead(key: K, val: V, home: nat) returns (itr: Itr)
      requires Sound() && home == HomeOf(hash(key), mask) && home !in loose && !metadata[home].home && !Overloaded()
      requires key in where ==> where[key] in loose && St().CutsOff(hash, key)
      modifies this`keyCount, this`nodes, this`where, this`loose, metadata, buckets
      ensures itr.End? <==> old(St().CutsOff(hash, key))
      ensures itr.At? ==> Sound() && loose == old(loose) && key in where && itr.bucket == where[key] == home
      ensures itr.At? ==> View() == old(View())[key := val]
      ensures itr.End? ==> Sound() && loose == old(loose) + {home} && View() == old(View()) && keyCount == old(keyCount)
      ensures itr.End? ==> 0x7FF <= keyCount && where == old(where) && buckets[..] == old(buckets[..])
    {
      hide Chained, Pos, HomeOf, Frag, State.Wf, State.View, On, DistOf, Walking, NoRoom;
      Occupied(St(), hash, metadata.Length, loose, home);
      FoundAt(St(), hash, metadata.Length, loose, key);
      if metadata[home] != Meta(0, false, 0) {
        var ok := Evict(home);
        if !ok {
          Underload(keyCount, metadata.Length);
          return End;
        }
      } else {
        Vacant(St(), hash, loose, home);
      }
      PlaceHead(key, val, home);
      return At(home, home);
    }

    method PlaceHead(key: K, val: V, home: nat)
      requires Holds(home) && key !in View() && home == HomeOf(hash(key), mask) && home <= mask && nodes[home].Free?
      requires home !in loose && !Overloaded()
      modifies this`keyCount, this`nodes, this`where, metadata, buckets
      ensures Sound() && key in where && where[key] == home && View() == old(View())[key := val]
    {
      hide Chained, Pos, HomeOf, Frag, State.Wf, State.Shaped, State.View, On, DistOf, Walking;
      ghost var st := St();
      FoundAt(st, hash, home, loose, key);
      Basics(st, hash, home, loose);
      Sizes(st);
      HeadWritten(st, hash, loose, home, key, val);
      buckets[home] := Slot(key, val);
      metadata[home] := Meta(Frag(hash(key)), true, 0x7FF);
      nodes, where := Headed(nodes, home), where[key := home];
      keyCount := keyCount + 1;
      assert St() == st.NewHead(home, Frag(hash(key)), key, val);
    }

    /** A key of an existing chain goes to the first empty probe and to its place in the chain. */
    method InsertTail(key: K, val: V, home: nat) returns (itr: Itr)
      requires Sound() && home == HomeOf(hash(key), mask) && metadata[home].home && !Overloaded()
      requires key in where ==> where[key] in loose && NoRoom(metadata[..], home)
      modifies this`keyCount, this`nodes, this`where, metadata, buckets
      ensures itr.End? <==> old(NoRoom(metadata[..], home))
      ensures itr.At? ==> Sound() && key in where && where[key] !in loose && itr.bucket == where[key]
      ensures itr.At? ==> View() == old(View())[key := val]
      ensures itr.End? ==> Sound() && St() == old(St()) && keyCount == old(keyCount) && 0x7FF <= keyCount
    {
      hide Chained, Pos, HomeOf, Frag, State.Wf, State.Shaped, State.View, On, DistOf, Walking, NoRoom, Full;
      OnHome(St(), hash, loose, home, 0x7FF);
      OnFacts(St(), hash, loose, home, home, 0x7FF);
      var found, e, d := FindFirstEmpty(home);
      if !found {
        HeadOfChain(St(), hash, loose, home, home);
        SearchedInVain(St(), hash, loose, home);
        Underload(keyCount, metadata.Length);
        return End;
      }
      Room(metadata[..], home, d);
      NotFull(St(), home, d);
      PlaceTail(key, val, home, e, d);
      return At(e, home);
    }

    /** Writes the key to the empty probe `e` and links it there. */
    method PlaceTail(key: K, val: V, home: nat, e: nat, d: nat)
      requires Sound() && key !in where && home == HomeOf(hash(key), mask) && metadata[home].home && !Overloaded()
      requires e <= mask && metadata[e] == Meta(0, false, 0) && e == Pos(mask, home, d) && 0 < d < 0x7FF
      modifies this`keyCount, this`nodes, this`where, metadata, buckets
      ensures Sound() && key in where && where[key] == e && e !in loose && View() == old(View())[key := val]
    {
      hide Chained, Pos, HomeOf, Frag, State.Wf, State.Shaped, State.View, On, DistOf, Walking, NoRoom, Full;
      ghost var st := St();
      var prev := FindInsertLocation(home, d, e);
      OnFacts(st, hash, loose, home, prev, d);
      Sizes(st);
      Occupied(st, hash, metadata.Length, loose, e);
      Basics(st, hash, metadata.Length, loose);
      LinkWritten(st, hash, loose, prev, e, d, key, val);
      WriteBehind(prev, e, d, Frag(hash(key)), Slot(key, val));
      nodes, where := Joined(nodes, prev, e, d), where[key := e];
      keyCount := keyCount + 1;
      assert St() == st.NewLink(prev, e, d, Frag(hash(key)), key, val);
    }

    // ---- allocation and rehashing ----

    /** A table without an allocation: one placeholder metadatum and no buckets. */
    constructor Init(hash: K -> nat)
      ensures Valid() && View() == map[] && fresh(metadata) && fresh(buckets) && this.hash == hash
    {
      this.hash := hash;
      keyCount, mask, nodes, where, loose := 0, 0, [Free], map[], {};
      metadata := new Meta[1](i => Meta(0, false, 0));
      buckets := new Bucket<K, V>[0];
      new;
      EmptyTable(St(), hash);
    }

    constructor Sized(hash: K -> nat, count: nat)
      requires IsPow2(count) && count > 1
      ensures Valid() && View() == map[] && fresh(metadata) && fresh(buckets)
      ensures this.hash == hash && metadata.Length == count
    {
      this.hash := hash;
      keyCount, mask, nodes, where, loose := 0, count - 1, seq(count, i => Free), map[], {};
      metadata := new Meta[count](i => Meta(0, false, 0));
      buckets := new Bucket<K, V>[count](i => Blank);
      new;
      EmptyTable(St(), hash);
    }

    /** Reinserts the key of one bucket, if there is one, into `table`, which has the keys of the buckets before it. */
    method ReinsertOne(table: Table<K, V>, bucket: nat) returns (ok: bool)
      requires Sound() && table.Valid() && table != this && table.hash == hash
      requires table.metadata != metadata && table.buckets != buckets
      requires bucket < metadata.Length && table.View() == Part(St(), bucket)
      modifies table`keyCount, table`nodes, table`where, table`loose, table.metadata, table.buckets
      ensures if ok then table.Valid() && table.View() == Part(St(), bucket + 1)
              else table.keyCount < keyCount && Crowded(hash, View(), table.metadata.Length)
    {
      hide *;
      ghost var st, before := St(), table.St();
      SoundFacts();
      table.ValidFacts();
      table.SoundFacts();
      PartStep(st, hash, loose, bucket);
      if metadata[bucket] == Meta(0, false, 0) {
        return true;
      }
      Unmet(st, before, hash, loose, bucket);
      var itr := table.InsertRaw(buckets[bucket].key, buckets[bucket].val, true, false);
      table.SoundFacts();
      if itr.End? {
        CrowdedBy(before, hash, View(), table.metadata.Length, buckets[bucket].key);
      }
      ok := itr.At?;
    }

    /** Reinserts every stored key into the empty table `table`; stops at the first refusal. */
    method Reinsert(table: Table<K, V>)
      requires Sound() && table.Valid() && table.View() == map[] && table != this && table.hash == hash
      requires table.metadata != metadata && table.buckets != buckets
      modifies table`keyCount, table`nodes, table`where, table`loose, table.metadata, table.buckets
      ensures table.keyCount >= keyCount ==> table.Valid() && table.View() == View() && table.keyCount == keyCount
      ensures table.keyCount < keyCount ==> Crowded(hash, View(), table.metadata.Length)
    {
      hide *;
      ghost var st := St();
      SoundFacts();
      Basics(st, hash, |st.nodes|, loose);
      Sizes(st);
      PartStart(st);
      var bucket := 0;
      while bucket < BucketCount(metadata.Length)
        invariant bucket <= metadata.Length && St() == st && Sound() && table.Valid()
        invariant table.View() == Part(st, bucket)
      {
        var ok := ReinsertOne(table, bucket);
        if !ok {
          return;
        }
        bucket := bucket + 1;
      }
      SoundFacts();
      PartRest(st, hash, loose, bucket);
      table.ValidFacts();
      table.SoundFacts();
    }

    /** Moves all keys to a table of `size` buckets, unless one of them finds no place there. */
    method RehashTo(size: nat) returns (done: bool)
      requires Sound() && IsPow2(size) && size > 1 && 10 * keyCount <= 9 * size
      modifies this
      ensures if done
        then Valid() && View() == old(View()) && keyCount == old(keyCount)
          && fresh(metadata) && fresh(buckets) && metadata.Length == size
        else unchanged(this) && Crowded(hash, old(View()), size)
    {
      hide *;
      var table := NewTable(size);
      TableSize(size);
      Reinsert(table);
      done := Adopt(table);
    }

    method NewTable(size: nat) returns (table: Table<K, V>)
      requires IsPow2(size) && size > 1
      ensures fresh(table) && fresh(table.metadata) && fresh(table.buckets) && table.hash == hash
      ensures table.Valid() && table.View() == map[] && table.metadata.Length == size
    {
      table := new Table.Sized(hash, size);
    }

    /** Takes over the arrays of `table` if it has all the keys. */
    method Adopt(table: Table<K, V>) returns (done: bool)
      requires table != this && table.hash == hash && (table.keyCount >= keyCount ==> table.Valid())
      modifies this
      ensures done <==> old(table.keyCount >= keyCount)
      ensures !done ==> unchanged(this)
      ensures done ==>
        Valid() && View() == old(table.View()) && keyCount == old(table.keyCount)
        && metadata == old(table.metadata) && buckets == old(table.buckets)
    {
      if table.keyCount < keyCount {
        return false;
      }
      keyCount, mask, buckets, metadata := table.keyCount, table.mask, table.buckets, table.metadata;
      nodes, where, loose := table.nodes, table.where, table.loose;
      done := true;
    }

    /** Moves all keys to a table of `count` buckets, or of the least doubling of that in which every key
        finds a place; stops at the first size that is refused. */
    method Rehash(count: nat, grant: nat -> bool) returns (ok: bool, ghost asked: nat)
      requires Sound() && IsPow2(count) && count > 1 && 10 * keyCount <= 9 * count
      modifies this
      ensures Tried(grant, hash, old(View()), count, asked) && (ok <==> !Refused(grant, asked))
      ensures count <= 2048 || keyCount <= 0x7FF || Refused(grant, count) ==> asked == count
      ensures ok ==> Valid() && fresh(metadata) && fresh(buckets) && metadata.Length == asked >= count
      ensures View() == old(View()) && keyCount == old(keyCount) && (!ok ==> unchanged(this))
    {
      hide Chained, Pos, HomeOf, Frag, State.Wf, State.Shaped, State.View, Part, IsPow2, Crowded, Tried, Refused;
      var size := count;
      asked := count;
      FirstTry(grant, hash, View(), count);
      KeyCount(St(), hash, metadata.Length, loose);
      while true
        invariant unchanged(this)
        invariant asked == size >= count && IsPow2(size) && Tried(grant, hash, old(View()), count, size)
        invariant size <= 2 * MAX_BUCKETS || size == count
        decreases if size <= 2 * MAX_BUCKETS then 2 * MAX_BUCKETS + 1 - size else 0
      {
        TriedOnce(grant, hash, old(View()), count, size);
        if size > MAX_BUCKETS || !grant(size) {
          RefusedIs(grant, size);
          return false, asked;
        }
        RefusedIs(grant, size);
        ok := RehashTo(size);
        if ok {
          return;
        }
        TriedMore(grant, hash, old(View()), count, size);
        Pow2Double(size);
        size := size * 2;
        asked := size;
      }
    }

    // ---- the operations ----

    /** After `last` has refused the key: grows the table, or finds growth refused. */
    method Grow(key: K, grant: nat -> bool, ghost first: State<K, V>, ghost cut: set<nat>,
                ghost last: State<K, V>, ghost lost: set<nat>) returns (ok: bool)
      requires Sound() && View() == last.View() && |last.where| == keyCount && |last.meta| == metadata.Length
      requires Attempt(grant, hash, key, first, cut, last, lost) && last.Refuses(hash, lost, key)
      requires keyCount < 0x7FF ==> last == first
      modifies this
      ensures View() == old(View()) && keyCount == old(keyCount)
      ensures ok ==> Valid() && !St().Spoiled(hash, loose, key) && fresh(metadata) && fresh(buckets)
      ensures ok ==> Attempt(grant, hash, key, first, cut, St(), loose) && old(mask) < mask <= MAX_BUCKETS
      ensures !ok ==> unchanged(this) && exists asked: nat :: Stopped(grant, hash, last, asked)
    {
      hide Chained, Pos, HomeOf, Frag, State.Wf, State.View, State.Refuses, State.CutsOff, State.Spoiled, Part, IsPow2,
           Tried, Refused, Crowded, LoadReached, Attempt, Stopped;
      NextSize(St(), hash, loose);
      GrownRoom(keyCount, metadata.Length);
      ghost var asked;
      ok, asked := Rehash(if mask != 0 then BucketCount(metadata.Length) * 2 else 8, grant);
      if !ok {
        StoppedBy(grant, hash, last, asked);
        return;
      }
      RefusedIs(grant, asked);
      SoundFacts();
      SameCount(View(), where);
      Unspoiled(St(), hash, key);
      AttemptNext(grant, hash, key, first, cut, last, lost, asked, St());
    }

    /** Inserts or replaces. The last attempt finds the table `last`, with the buckets `lost` cut off. Only
        a refused allocation can stop the insertion, and then no key is lost from the table, although the
        key that was in the way may have been cut off from its chain. */
    method Insert(key: K, val: V, replace: bool, grant: nat -> bool)
      returns (itr: Itr, ghost last: State<K, V>, ghost lost: set<nat>)
      requires Sound() && !St().Spoiled(hash, loose, key)
      modifies this, metadata, buckets
      ensures Sound() && Attempt(grant, hash, key, old(St()), old(loose), last, lost)
      ensures last.Wf(hash, |last.nodes|, lost) && last.View() == old(View()) && |last.meta| == metadata.Length
      ensures itr.End? <==> last.Refuses(hash, lost, key)
      ensures itr.End? ==> exists asked: nat :: Stopped(grant, hash, last, asked)
      ensures itr.At? ==> key in where && where[key] !in loose && itr.bucket == where[key]
      ensures itr.At? ==> View() == if key in old(View()) && !replace then old(View()) else old(View())[key := val]
      ensures itr.End? ==> View() == old(View()) && keyCount == old(keyCount)
      ensures itr.End? ==> where == last.where && buckets[..] == last.bk
      ensures loose == if last.CutsOff(hash, key) then lost + {HomeOf(hash(key), mask)} else lost
      ensures
        var n := old(metadata.Length);
        var size := if n > 1 then 2 * n else 8;
        var absent := key !in old(where) || old(where)[key] in old(loose);
        var full := 10 * (old(keyCount) + 1) > 9 * (if n > 1 then n else 0);
        && (last == old(St()) || (metadata.Length >= size && old(St().Refuses(hash, loose, key))))
        && (old(keyCount) < 0x7FF ==>
              && (itr.End? <==> absent && full && (size > 0x1000_0000_0000_0000 || !grant(size)))
              && metadata.Length == if itr.At? && absent && full then size else n)
    {
      hide *;
      SoundFacts();
      AttemptFirst(grant, hash, key, St(), loose);
      while true
        invariant Sound() && View() == old(View()) && keyCount == old(keyCount) && !St().Spoiled(hash, loose, key)
        invariant fresh(metadata) || metadata == old(metadata)
        invariant fresh(buckets) || buckets == old(buckets)
        invariant Attempt(grant, hash, key, old(St()), old(loose), St(), loose)
        decreases 2 * MAX_BUCKETS - mask
      {
        SoundFacts();
        last, lost := St(), loose;
        AttemptFull(grant, hash, key, old(St()), old(loose), last, lost);
        AttemptEnd(grant, hash, key, old(St()), old(loose), last, lost);
        itr := InsertRaw(key, val, false, replace);
        if itr.At? {
          return;
        }
        if |last.where| < 0x7FF { AttemptSmall(grant, hash, key, old(St()), old(loose), last, lost); }
        var ok := Grow(key, grant, old(St()), old(loose), last, lost);
        if !ok {
          return;
        }
        ValidFacts();
      }
    }

    // ---- erasing ----

    /** The last key of a chain and the one in front of it, from a key that is not the last. */
    method FindLast(home: nat, b: nat) returns (prev: nat, last: nat)
      requires Sound() && On(St(), loose, home, b, 0x7FF) && b <= mask && metadata[b].disp != 0x7FF
      ensures On(St(), loose, home, last, 0x7FF) && last <= mask && metadata[last].disp == 0x7FF && last != b
      ensures nodes[last].Node? && prev < |nodes| && nodes[prev].Node?
      ensures On(St(), loose, home, prev, nodes[last].dist) && nodes[prev].next == nodes[last].dist
    {
      hide Chained, Pos, HomeOf, Frag, State.Wf, State.View, On, DistOf;
      ghost var st := St();
      last := b;
      while true
        invariant St() == st && On(st, loose, home, last, 0x7FF) && last <= mask && metadata[last].disp != 0x7FF
        invariant DistOf(nodes, b) <= DistOf(nodes, last)
        decreases 0x7FF - DistOf(nodes, last)
      {
        prev := last;
        OnFacts(st, hash, loose, home, prev, 0x7FF);
        LastStep(st, hash, loose, home, prev);
        last := Pos(mask, home, metadata[last].disp);
        OnFacts(st, hash, loose, home, last, 0x7FF);
        if metadata[last].disp == 0x7FF {
          Nearer(st, loose, home, prev, nodes[last].dist);
          return;
        }
      }
    }

    /** The only key of a chain is erased with it. */
    method EraseOnly(b: nat)
      requires Sound() && b !in loose && b <= mask && b < buckets.Length && buckets[b].Slot? && buckets[b].key in where
      requires metadata[b].home && metadata[b].disp == 0x7FF
      modifies this`keyCount, this`nodes, this`where, metadata
      ensures Sound() && loose == old(loose) && View() == old(View()) - {buckets[b].key}
      ensures keyCount == old(keyCount) - 1
      ensures where == old(where) - {buckets[b].key}
    {
      hide Chained, Pos, HomeOf, Frag, State.Wf, State.Shaped, State.View, On, DistOf;
      ghost var st := St();
      Occupied(st, hash, metadata.Length, loose, b);
      ErasedWritten(st, hash, loose, b);
      assert loose - {b} == loose;
      metadata[b] := Meta(0, false, 0);
      nodes, where := Freed(nodes, b), where - {buckets[b].key};
      keyCount := keyCount - 1;
      assert St() == st.Erased(b);
      Basics(St(), hash, metadata.Length, loose);
    }

    /** The chain ends with `prev`; the bucket `last` is emptied. */
    method WriteEnd(prev: nat, last: nat)
      requires prev < metadata.Length && last < metadata.Length
      modifies metadata
      ensures metadata[..] == old(metadata[..][prev := metadata[prev].(disp := 0x7FF)][last := Meta(0, false, 0)])
    {
      metadata[prev] := metadata[prev].(disp := 0x7FF);
      metadata[last] := Meta(0, false, 0);
    }

    /** The key of `last` is written over the key of `b`, with its bits of the hash. */
    method WriteOver(b: nat, last: nat)
      requires b < metadata.Length && last < metadata.Length && b < buckets.Length && last < buckets.Length
      modifies metadata, buckets
      ensures metadata[..] == old(metadata[..][b := metadata[b].(frag := metadata[last].frag)])
      ensures buckets[..] == old(buckets[..][b := buckets[last]])
    {
      buckets[b] := buckets[last];
      metadata[b] := metadata[b].(frag := metadata[last].frag);
    }

    /** The last key of a chain that has others is unlinked and its bucket emptied. */
    method EraseLast(home: nat, b: nat)
      requires Sound() && On(St(), loose, home, b, 0x7FF) && home <= mask && b <= mask && b < buckets.Length
      requires !metadata[b].home && metadata[b].disp == 0x7FF && buckets[b].Slot? && buckets[b].key in where
      modifies this`keyCount, this`nodes, this`where, metadata
      ensures Sound() && loose == old(loose) && View() == old(View()) - {buckets[b].key}
      ensures keyCount == old(keyCount) - 1
      ensures where == old(where) - {buckets[b].key}
    {
      hide Chained, Pos, HomeOf, Frag, State.Wf, State.Shaped, State.View, On, DistOf;
      ghost var st := St();
      OnFacts(st, hash, loose, home, b, 0x7FF);
      var prev := FindPrevious(home, b);
      OnFacts(st, hash, loose, home, prev, nodes[b].dist);
      EndWritten(st, hash, loose, home, prev, b);
      WriteEnd(prev, b);
      nodes, where := Freed(Relinked(nodes, prev, nodes[b].next), b), where - {buckets[b].key};
      keyCount := keyCount - 1;
      assert St() == st.EndErased(prev, b);
      Basics(St(), hash, metadata.Length, loose);
    }

    /** The last key of the chain takes the place of the erased one. */
    method EraseInner(home: nat, b: nat) returns (last: nat)
      requires Sound() && On(St(), loose, home, b, 0x7FF) && home <= mask && b <= mask && b < buckets.Length
      requires metadata[b].disp != 0x7FF && buckets[b].Slot? && buckets[b].key in where
      modifies this`keyCount, this`nodes, this`where, metadata, buckets
      ensures Sound() && loose == old(loose) && View() == old(View()) - {old(buckets[b].key)}
      ensures keyCount == old(keyCount) - 1
      ensures buckets[b].Slot? && buckets[b].key in old(where) && old(where)[buckets[b].key] == last != b
      ensures where == (old(where) - {old(buckets[b].key)})[buckets[b].key := b]
    {
      hide Chained, Pos, HomeOf, Frag, State.Wf, State.Shaped, State.View, On, DistOf;
      var prev;
      prev, last := FindLast(home, b);
      OnFacts(St(), hash, loose, home, b, 0x7FF);
      FillFrom(home, b, prev, last);
    }

    /** Moves the key of `last`, the successor of `prev`, over the key of `b`. */
    method FillFrom(home: nat, b: nat, prev: nat, last: nat)
      requires Sound() && On(St(), loose, home, b, 0x7FF) && On(St(), loose, home, last, 0x7FF)
      requires last <= mask && b <= mask && b < buckets.Length && last != b && nodes[last].Node?
      requires buckets[b].Slot? && buckets[b].key in where && metadata[last].disp == 0x7FF
      requires On(St(), loose, home, prev, nodes[last].dist) && prev < |nodes| && nodes[prev].Node?
      requires nodes[prev].next == nodes[last].dist
      modifies this`keyCount, this`nodes, this`where, metadata, buckets
      ensures Sound() && loose == old(loose) && View() == old(View()) - {old(buckets[b].key)}
      ensures keyCount == old(keyCount) - 1
      ensures buckets[b].Slot? && buckets[b].key in old(where) && old(where)[buckets[b].key] == last
      ensures where == (old(where) - {old(buckets[b].key)})[buckets[b].key := b]
    {
      hide Chained, Pos, HomeOf, Frag, State.Wf, State.Shaped, State.View, On, DistOf;
      ghost var st := St();
      Basics(st, hash, metadata.Length, loose);
      LastWritten(st, hash, loose, home, b, prev, last);
      ghost var key := buckets[b].key;
      WriteOver(b, last);
      WriteEnd(prev, last);
      nodes := Freed(Relinked(nodes, prev, nodes[last].next), last);
      where := (where - {key})[buckets[b].key := b];
      keyCount := keyCount - 1;
      assert St() == st.LastMoved(b, prev, last);
    }

    /** Erases the key in bucket `b`; `hint` is its home bucket, if the iterator knows it. Tells whether
        an iteration over all buckets has to move on: the keys at or after the next position are then
        exactly the keys that were after `b`. */
    method EraseItrRaw(b: nat, hint: Option<nat>) returns (advance: bool)
      requires Sound() && b !in loose && b <= mask && metadata[b] != Meta(0, false, 0) && b < buckets.Length
      requires buckets[b].Slot?
      requires hint.Some? ==> hint.value == HomeOf(hash(buckets[b].key), mask)
      modifies this`keyCount, this`nodes, this`where, metadata, buckets
      ensures Sound() && loose == old(loose) && View() == old(View()) - {old(buckets[b].key)}
      ensures keyCount == old(keyCount) - 1
      ensures forall k :: k in where ==>
        k in old(where) && (where[k] >= (if advance then b + 1 else b) <==> old(where)[k] > b)
    {
      hide Chained, Pos, HomeOf, Frag, State.Wf, State.Shaped, State.View, On, DistOf;
      ghost var st := St();
      Resident(st, hash, loose, b);
      OthersApart(st, hash, loose, b);
      Occupied(st, hash, metadata.Length, loose, b);
      OnFacts(st, hash, loose, HomeOf(hash(buckets[b].key), mask), b, 0x7FF);
      if metadata[b].home && metadata[b].disp == 0x7FF {
        EraseOnly(b);
        return true;
      }
      AtHome(st, hash, loose, HomeOf(hash(buckets[b].key), mask), b);
      var home := if hint.Some? then hint.value else
        if metadata[b].home then b else HomeOf(hash(buckets[b].key), mask);
      if metadata[b].disp == 0x7FF {
        EraseLast(home, b);
        return true;
      }
      var last := EraseInner(home, b);
      return last < b;
    }

    /** Erases the key, if it exists and has not been cut off. */
    method Erase(key: K) returns (erased: bool)
      requires Sound()
      modifies this`keyCount, this`nodes, this`where, metadata, buckets
      ensures Sound() && loose == old(loose) && (erased <==> key in old(View()) && old(where)[key] !in loose)
      ensures View() == if erased then old(View()) - {key} else old(View())
    {
      hide Chained, Pos, HomeOf, Frag, State.Wf, State.Shaped, State.View, On, DistOf;
      FoundAt(St(), hash, metadata.Length, loose, key);
      var itr := Get(key);
      if itr.End? {
        return false;
      }
      Occupied(St(), hash, metadata.Length, loose, itr.bucket);
      FoundIndexed(St(), hash, loose, key);
      var _ := EraseItrRaw(itr.bucket, Some(itr.home));
      erased := true;
    }

    // ---- erasing while iterating ----

    /** Visits the key in bucket `b`; `next` is where the iteration goes on. */
    method EraseVisited(b: nat, chosen: K -> bool, ghost first: map<K, nat>, ghost was: map<K,
                        V>, ghost visited: seq<K>)
      returns (key: K, next: nat)
      requires Valid() && b <= mask && metadata[b] != Meta(0, false, 0)
      requires Swept(first, where, b, visited, chosen) && Within(View(), was)
      modifies this`keyCount, this`nodes, this`where, metadata, buckets
      ensures Valid() && Swept(first, where, next, visited + [key], chosen) && Within(View(), was)
      ensures next == b + 1 || (next == b && keyCount < old(keyCount))
      ensures keyCount <= old(keyCount)
    {
      hide *;
      ValidFacts();
      SoundFacts();
      Occupant(St(), hash, b);
      key := buckets[b].key;
      if !chosen(key) {
        SweepKeeps(first, where, b, visited, chosen, key);
        return key, b + 1;
      }
      ghost var before := where;
      WithinLess(View(), was, key);
      var advance := EraseItrRaw(b, None);
      next := if advance then b + 1 else b;
      ValidFacts();
      SoundFacts();
      SweepErases(first, before, where, b, next, visited, chosen, key);
    }

    /** Goes through all keys and erases the chosen ones, moving on as the erasure says. Every key is
        visited exactly once, although erasures move keys between buckets. */
    method EraseChosen(chosen: K -> bool) returns (visited: seq<K>)
      requires Valid()
      modifies this`keyCount, this`nodes, this`where, metadata, buckets
      ensures Valid() && View() == map k | k in old(View()) && !chosen(k) :: old(View())[k]
      ensures forall k :: k in visited <==> k in old(View())
      ensures forall i, j :: 0 <= i < j < |visited| ==> visited[i] != visited[j]
    {
      hide *;
      ValidFacts();
      SoundFacts();
      ghost var first, was := where, View();
      visited := [];
      SweepStarts(first, chosen);
      WithinSelf(was);
      var b: nat := 0;
      while b <= mask
        invariant metadata.Length == mask + 1 && Valid() && Swept(first, where, b, visited, chosen)
        invariant Within(View(), was)
        decreases keyCount, mask + 1 - b
      {
        if metadata[b] == Meta(0, false, 0) {
          PassBlank(b, chosen, first, visited);
          b := b + 1;
        } else {
          var key;
          key, b := EraseVisited(b, chosen, first, was, visited);
          visited := visited + [key];
        }
      }
      ValidFacts();
      SoundFacts();
      SweepEnds(first, St(), hash, was, b, visited, chosen);
    }

    lemma PassBlank(b: nat, chosen: K -> bool, first: map<K, nat>, visited: seq<K>)
      requires Valid() && b <= mask && metadata[b] == Meta(0, false, 0) && Swept(first, where, b, visited, chosen)
      ensures Swept(first, where, b + 1, visited, chosen)
    {
      hide *;
      ValidFacts();
      SoundFacts();
      Occupant(St(), hash, b);
      SweepPasses(first, where, b, visited, chosen);
    }
  }
}
