/** Sorted association lists: what the ordered map computes, without any tree. */
module OrderedLists {
  import opened Words
  import opened Sorts

  datatype Entry<+K, +V> = Entry(key: K, el: V)

  ghost predicate Ascending<K, V>(cmp: Cmp<K>, s: seq<Entry<K, V>>) {
    forall i, j :: 0 <= i < j < |s| ==> cmp(s[i].key, s[j].key) < 0
  }

  ghost predicate AllBelow<K, V>(cmp: Cmp<K>, key: K, s: seq<Entry<K, V>>) {
    forall i :: 0 <= i < |s| ==> cmp(key, s[i].key) > 0
  }

  ghost predicate AllAbove<K, V>(cmp: Cmp<K>, key: K, s: seq<Entry<K, V>>) {
    forall i :: 0 <= i < |s| ==> cmp(key, s[i].key) < 0
  }

  function Lookup<K, V>(cmp: Cmp<K>, s: seq<Entry<K, V>>, key: K): Option<V> {
    if s == [] then None
    else if cmp(key, s[0].key) == 0 then Some(s[0].el)
    else Lookup(cmp, s[1..], key)
  }

  /** Puts an entry where its key belongs; an entry with an equal key gives way if `replace` says so. */
  function Put<K, V>(cmp: Cmp<K>, s: seq<Entry<K, V>>, e: Entry<K, V>, replace: bool): seq<Entry<K, V>> {
    if s == [] || cmp(e.key, s[0].key) < 0 then [e] + s
    else if cmp(e.key, s[0].key) == 0 then (if replace then [e] + s[1..] else s)
    else [s[0]] + Put(cmp, s[1..], e, replace)
  }

  function Drop<K, V>(cmp: Cmp<K>, s: seq<Entry<K, V>>, key: K): seq<Entry<K, V>> {
    if s == [] then []
    else if cmp(key, s[0].key) == 0 then s[1..]
    else [s[0]] + Drop(cmp, s[1..], key)
  }

  // ---- positions ----

  lemma {:induction false} MissAt<K, V>(cmp: Cmp<K>, a: seq<Entry<K, V>>, b: seq<Entry<K, V>>, e: Entry<K, V>,
                                        replace: bool)
    requires AllBelow(cmp, e.key, a) && AllAbove(cmp, e.key, b)
    ensures Lookup(cmp, a + b, e.key) == None
    ensures Put(cmp, a + b, e, replace) == a + [e] + b
    ensures Drop(cmp, a + b, e.key) == a + b
  {
    if a == [] {
      assert a + b == b && a + [e] + b == [e] + b;
      AboveMiss(cmp, b, e.key);
    } else {
      assert (a + b)[0] == a[0] && (a + b)[1..] == a[1..] + b;
      MissAt(cmp, a[1..], b, e, replace);
      assert [a[0]] + (a[1..] + [e] + b) == a + [e] + b;
    }
  }

  lemma {:induction false} AboveMiss<K, V>(cmp: Cmp<K>, b: seq<Entry<K, V>>, key: K)
    requires AllAbove(cmp, key, b)
    ensures Lookup(cmp, b, key) == None && Drop(cmp, b, key) == b
  {
    if b != [] { AboveMiss(cmp, b[1..], key); }
  }

  lemma {:induction false} HitAt<K, V>(cmp: Cmp<K>, a: seq<Entry<K, V>>, x: Entry<K, V>, b: seq<Entry<K, V>>,
                                       e: Entry<K, V>, replace: bool)
    requires AllBelow(cmp, e.key, a) && cmp(e.key, x.key) == 0
    ensures Lookup(cmp, a + [x] + b, e.key) == Some(x.el)
    ensures Put(cmp, a + [x] + b, e, replace) == a + [if replace then e else x] + b
    ensures Drop(cmp, a + [x] + b, e.key) == a + b
  {
    var s := a + [x] + b;
    if a == [] {
      assert s[0] == x && s[1..] == b;
    } else {
      assert s[0] == a[0] && s[1..] == a[1..] + [x] + b;
      HitAt(cmp, a[1..], x, b, e, replace);
      assert [a[0]] + (a[1..] + [if replace then e else x] + b) == a + [if replace then e else x] + b;
      assert [a[0]] + (a[1..] + b) == a + b;
    }
  }

  /** Every ascending list splits at a key. */
  lemma {:induction false} SplitAt<K(!new), V>(cmp: Cmp<K>, s: seq<Entry<K, V>>, key: K) returns (i: nat)
    requires TotalPreorder(cmp) && Ascending(cmp, s)
    ensures i <= |s| && AllBelow(cmp, key, s[..i])
    ensures i == |s| || cmp(key, s[i].key) <= 0
    ensures AllAbove(cmp, key, s[if i < |s| && cmp(key, s[i].key) == 0 then i + 1 else i..])
  {
    hide TotalPreorder;
    i := 0;
    while i < |s| && cmp(key, s[i].key) > 0
      invariant i <= |s| && AllBelow(cmp, key, s[..i])
    {
      i := i + 1;
    }
    var j := if i < |s| && cmp(key, s[i].key) == 0 then i + 1 else i;
    forall k | 0 <= k < |s[j..]|
      ensures cmp(key, s[j..][k].key) < 0
    {
      if j + k > i { Trans(cmp, key, s[i].key, s[j + k].key); }
    }
  }

  lemma Trans<K(!new)>(cmp: Cmp<K>, x: K, y: K, z: K)
    requires TotalPreorder(cmp)
    ensures cmp(x, y) <= 0 && cmp(y, z) < 0 ==> cmp(x, z) < 0
    ensures cmp(x, y) < 0 && cmp(y, z) <= 0 ==> cmp(x, z) < 0
    ensures cmp(x, y) > 0 && cmp(y, z) >= 0 ==> cmp(x, z) > 0
    ensures cmp(x, y) >= 0 && cmp(y, z) > 0 ==> cmp(x, z) > 0
    ensures cmp(x, y) < 0 <==> cmp(y, x) > 0
    ensures cmp(x, y) == 0 <==> cmp(y, x) == 0
    ensures cmp(y, z) < 0 <==> cmp(z, y) > 0
    ensures cmp(y, z) == 0 <==> cmp(z, y) == 0
    ensures cmp(x, y) == 0 && cmp(y, z) == 0 ==> cmp(x, z) == 0
  {
    Equivalent(cmp, x, y, z);
    Equivalent(cmp, z, y, x);
    Equivalent(cmp, y, x, z);
    assert cmp(x, y) < 0 <==> cmp(y, x) > 0;
    assert cmp(y, x) < 0 <==> cmp(x, y) > 0;
    assert cmp(z, y) < 0 <==> cmp(y, z) > 0;
    assert cmp(y, z) < 0 <==> cmp(z, y) > 0;
    assert cmp(z, x) < 0 <==> cmp(x, z) > 0;
  }

  // ---- the lists are finite maps up to equal keys ----
  lemma Tail<K, V>(cmp: Cmp<K>, s: seq<Entry<K, V>>)
    requires Ascending(cmp, s) && s != []
    ensures Ascending(cmp, s[1..])
    ensures forall i :: 0 <= i < |s[1..]| ==> cmp(s[0].key, s[1..][i].key) < 0
  {}

  /** A key not above the head of an ascending list, nor equal to it, is not in the list. */
  lemma HeadMiss<K(!new), V>(cmp: Cmp<K>, s: seq<Entry<K, V>>, key: K)
    requires TotalPreorder(cmp) && Ascending(cmp, s) && s != [] && cmp(key, s[0].key) <= 0
    ensures Lookup(cmp, s[1..], key) == None
  {
    hide TotalPreorder, Lookup;
    Tail(cmp, s);
    forall i | 0 <= i < |s[1..]|
      ensures cmp(key, s[1..][i].key) < 0
    {
      Trans(cmp, key, s[0].key, s[1..][i].key);
    }
    AboveMiss(cmp, s[1..], key);
  }

  /** After a put, the key and its equals have the new element, unless an old one was to stay; all
      other keys have their old ones. */
  lemma {:induction false} PutLookup<K(!new), V>(cmp: Cmp<K>, s: seq<Entry<K, V>>, e: Entry<K, V>, replace: bool, k: K)
    requires TotalPreorder(cmp) && Ascending(cmp, s)
    ensures Lookup(cmp, Put(cmp, s, e, replace), k) ==
      if cmp(k, e.key) == 0 && (replace || Lookup(cmp, s, k) == None) then Some(e.el) else Lookup(cmp, s, k)
  {
    hide TotalPreorder, Ascending;
    if s != [] {
      Tail(cmp, s);
      Trans(cmp, k, e.key, s[0].key);
      Trans(cmp, k, s[0].key, e.key);
      if cmp(k, e.key) == 0 && cmp(e.key, s[0].key) < 0 { HeadMiss(cmp, s, k); }
      if cmp(e.key, s[0].key) > 0 { PutLookup(cmp, s[1..], e, replace, k); }
    }
  }

  /** After a drop, the key and its equals are gone and all others as before. */
  lemma {:induction false} DropLookup<K(!new), V>(cmp: Cmp<K>, s: seq<Entry<K, V>>, key: K, k: K)
    requires TotalPreorder(cmp) && Ascending(cmp, s)
    ensures Lookup(cmp, Drop(cmp, s, key), k) == if cmp(k, key) == 0 then None else Lookup(cmp, s, k)
  {
    hide TotalPreorder, Ascending;
    if s != [] {
      Tail(cmp, s);
      Trans(cmp, k, key, s[0].key);
      Trans(cmp, k, s[0].key, key);
      if cmp(key, s[0].key) == 0 {
        if cmp(k, key) == 0 { HeadMiss(cmp, s, k); }
      } else {
        DropLookup(cmp, s[1..], key, k);
      }
    }
  }

  lemma Between<K(!new), V>(cmp: Cmp<K>, a: seq<Entry<K, V>>, x: Entry<K, V>, b: seq<Entry<K, V>>, key: K)
    requires TotalPreorder(cmp) && Ascending(cmp, a) && Ascending(cmp, b) && cmp(key, x.key) == 0
    requires AllBelow(cmp, key, a) && AllAbove(cmp, key, b)
    ensures Ascending(cmp, a + [x] + b)
  {
    hide TotalPreorder;
    var s := a + [x] + b;
    forall i, j | 0 <= i < j < |s|
      ensures cmp(s[i].key, s[j].key) < 0
    {
      Trans(cmp, s[i].key, key, s[j].key);
      Trans(cmp, key, s[i].key, key);
      Trans(cmp, s[i].key, key, x.key);
      Trans(cmp, x.key, key, s[j].key);
    }
  }

  /** Both operations keep the list ascending. */
  lemma PutDropAscending<K(!new), V>(cmp: Cmp<K>, s: seq<Entry<K, V>>, e: Entry<K, V>, replace: bool)
    requires TotalPreorder(cmp) && Ascending(cmp, s)
    ensures Ascending(cmp, Put(cmp, s, e, replace)) && Ascending(cmp, Drop(cmp, s, e.key))
  {
    hide TotalPreorder, Put, Drop, Lookup;
    var i := SplitAt(cmp, s, e.key);
    var hit := i < |s| && cmp(e.key, s[i].key) == 0;
    var a, b := s[..i], s[if hit then i + 1 else i..];
    assert Ascending(cmp, a) && Ascending(cmp, b);
    Reflexive(cmp, e.key);
    if hit {
      assert s == a + [s[i]] + b;
      HitAt(cmp, a, s[i], b, e, replace);
      Between(cmp, a, if replace then e else s[i], b, e.key);
      Together(cmp, a, b, e.key);
    } else {
      assert s == a + b;
      MissAt(cmp, a, b, e, replace);
      Between(cmp, a, e, b, e.key);
    }
  }

  lemma Reflexive<K(!new)>(cmp: Cmp<K>, k: K)
    requires TotalPreorder(cmp)
    ensures cmp(k, k) == 0
  {}

  lemma Together<K(!new), V>(cmp: Cmp<K>, a: seq<Entry<K, V>>, b: seq<Entry<K, V>>, key: K)
    requires TotalPreorder(cmp) && Ascending(cmp, a) && Ascending(cmp, b)
    requires AllBelow(cmp, key, a) && AllAbove(cmp, key, b)
    ensures Ascending(cmp, a + b)
  {
    hide TotalPreorder;
    forall i, j | 0 <= i < j < |a + b|
      ensures cmp((a + b)[i].key, (a + b)[j].key) < 0
    {
      Trans(cmp, (a + b)[i].key, key, (a + b)[j].key);
      Trans(cmp, key, (a + b)[i].key, key);
    }
  }

  // ---- lists of nodes ----

  /** The entries of a sequence of nodes. */
  ghost function Listed<N, K, V>(d: map<N, Entry<K, V>>, o: seq<N>): seq<Entry<K, V>> {
    if o == [] then [] else (if o[0] in d then [d[o[0]]] else []) + Listed(d, o[1..])
  }

  lemma {:induction false} NotListed<N, K, V>(cmp: Cmp<K>, d: map<N, Entry<K, V>>, o: seq<N>, key: K, n: N)
    requires Lookup(cmp, Listed(d, o), key) == None && n in o && n in d
    ensures cmp(key, d[n].key) != 0
  {
    if o[0] in d {
      assert Listed(d, o)[0] == d[o[0]] && Listed(d, o)[1..] == Listed(d, o[1..]);
    } else {
      assert Listed(d, o) == Listed(d, o[1..]);
    }
    if n != o[0] { NotListed(cmp, d, o[1..], key, n); }
  }

  lemma {:induction false} ListedPlus<N, K, V>(d: map<N, Entry<K, V>>, a: seq<N>, b: seq<N>)
    ensures Listed(d, a + b) == Listed(d, a) + Listed(d, b)
  {
    if a == [] {
      assert a + b == b;
    } else {
      assert (a + b)[0] == a[0] && (a + b)[1..] == a[1..] + b;
      ListedPlus(d, a[1..], b);
    }
  }

  lemma {:induction false} ListedFrame<N, K, V>(d: map<N, Entry<K, V>>, d': map<N, Entry<K, V>>, o: seq<N>)
    requires forall n :: n in o ==> (n in d <==> n in d') && (n in d ==> d[n] == d'[n])
    ensures Listed(d, o) == Listed(d', o)
  {
    if o != [] { ListedFrame(d, d', o[1..]); }
  }

  lemma ListedThree<N, K, V>(d: map<N, Entry<K, V>>, a: seq<N>, n: N, b: seq<N>)
    requires n in d
    ensures Listed(d, a + [n] + b) == Listed(d, a) + [d[n]] + Listed(d, b)
  {
    ListedPlus(d, a + [n], b);
    ListedPlus(d, a, [n]);
    assert [n][1..] == [];
  }
}
