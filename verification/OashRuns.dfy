/** Whole runs of the Robin Hood table, and the copy of a table. */
module OashRuns {
  import opened Words
  import opened RobinHood
  import opened OashSpec
  import opened Oash

  // ---- runs ----

  datatype Op<V> =
    | Insert(key: Key, value: Option<V>)
    | Overwrite(key: Key, value: Option<V>)
    | GetInsert(key: Key)
    | Fetch(key: Key)
    | Delete(key: Key)
    | Empty

  /** The finite map a table stands for. */
  type Model<V> = map<Key, Option<V>>

  function Lookup<V>(m: Model<V>, key: Key): Option<V> { if key in m then m[key] else None }

  /** What a table allows: it takes as many keys as it has slots, or any number if it grows; and it may
      refuse replacements. */
  datatype Kind = Kind(room: Option<nat>, noreplace: bool)

  predicate Full<V>(kind: Kind, m: Model<V>) { kind.room.Some? && |m| >= kind.room.value }

  /** What an operation does to the map. A full map takes no new key. */
  function Effect<V>(kind: Kind, m: Model<V>, op: Op<V>): Model<V> {
    match op
    case Insert(k, v) => if k in m || Full(kind, m) then m else m[k := v]
    case Overwrite(k, v) => if kind.noreplace || (k !in m && Full(kind, m)) then m else m[k := v]
    case GetInsert(k) => if k in m || Full(kind, m) then m else m[k := None]
    case Fetch(_) => m
    case Delete(k) => m - {k}
    case Empty => map[]
  }

  /** What an operation answers: whether the key was stored, or found, and its element. */
  function Answer<V>(kind: Kind, m: Model<V>, op: Op<V>): (bool, Option<V>) {
    match op
    case Insert(k, v) => (k !in m && !Full(kind, m), None)
    case Overwrite(k, _) => (!kind.noreplace && (k in m || !Full(kind, m)), None)
    case GetInsert(k) => (k in m || !Full(kind, m), Lookup(m, k))
    case Fetch(k) => (true, Lookup(m, k))
    case Delete(k) => (true, Lookup(m, k))
    case Empty => (true, None)
  }

  function Effects<V>(kind: Kind, m: Model<V>, ops: seq<Op<V>>): Model<V>
    decreases |ops|
  {
    if ops == [] then m else Effects(kind, Effect(kind, m, ops[0]), ops[1..])
  }

  function Answers<V>(kind: Kind, m: Model<V>, ops: seq<Op<V>>): seq<(bool, Option<V>)>
    decreases |ops|
  {
    if ops == [] then [] else [Answer(kind, m, ops[0])] + Answers(kind, Effect(kind, m, ops[0]), ops[1..])
  }

  /** What a lookup finds after an operation: an insertion gives a new key its element if there is room and
      leaves a present one alone, a replacement changes that too unless the table forbids it, a removal takes
      one key away and cleaning all of them. No operation touches another key. */
  lemma LookupAfter<V>(kind: Kind, m: Model<V>, op: Op<V>, j: Key)
    ensures var fits := kind.room.None? || |m| < kind.room.value;
      var was := if j in m then m[j] else None;
      Answer(kind, Effect(kind, m, op), Fetch(j)) == (true,
        match op
        case Insert(k, v) => if j == k && j !in m && fits then v else was
        case Overwrite(k, v) => if j == k && !kind.noreplace && (j in m || fits) then v else was
        case GetInsert(k) => was
        case Fetch(k) => was
        case Delete(k) => if j == k then None else was
        case Empty => None)
  {}

  /** Whether an operation says that it did something: an insertion stores new keys only and only while there
      is room; a removal and a get-or-insert give the old element. */
  lemma Answered<V>(kind: Kind, m: Model<V>, k: Key, v: Option<V>)
    ensures var fits := kind.room.None? || |m| < kind.room.value;
      var was := if k in m then m[k] else None;
      && Answer(kind, m, Insert(k, v)) == (k !in m && fits, None)
      && Answer(kind, m, Overwrite(k, v)) == (!kind.noreplace && (k in m || fits), None)
      && Answer(kind, m, GetInsert(k)) == (k in m || fits, was)
      && Answer(kind, m, Delete(k)) == (true, was)
      && (k in Effect(kind, m, GetInsert(k)) <==> k in m || fits)
  {}

  /** The map of a table: keys to the elements of their dentries. */
  ghost function Values<V>(ht: Table<V>): Model<V>
    requires ht.HasCells()
    reads ht, ht.data, set k | k in ht.cells :: ht.View()[k]
  {
    map k | k in ht.View() :: ht.View()[k].data
  }

  ghost function Dentries<V>(ht: Table<V>): set<object>
    requires ht.HasCells()
    reads ht`cells, ht`data, ht.data
  {
    set k | k in ht.cells :: ht.View()[k]
  }

  /** With at most this many keys a growing table never needs more than 65536 slots. */
  const MAX_KEYS := 43690

  function KindOf<V>(ht: Table<V>): Kind
    reads ht
  {
    Kind(if ht.flags.rehash then None else Some(ht.cap), ht.flags.noreplace)
  }

  predicate Confined(kind: Kind, n: nat) {
    kind.room.None? ==> n <= MAX_KEYS
  }

  ghost predicate Ready<V>(ht: Table<V>)
    reads ht, ht.table, ht.data
  {
    ht.Valid() && ht.HasCells() && Confined(KindOf(ht), |ht.cells|)
  }

  /** A growing table may still take the key. */
  ghost predicate Takes<V>(ht: Table<V>, key: Key)
    reads ht
  {
    key !in ht.cells ==> Confined(KindOf(ht), |ht.cells| + 1)
  }

  lemma ReadyFacts<V>(ht: Table<V>, key: Key)
    requires Ready(ht)
    ensures ht.Valid() && ht.HasCells() && ht.size == |ht.cells| <= ht.cap
    ensures Takes(ht, key) && ht.GrowsWith(key) ==> 2 * ht.cap <= 0x1_0000
    ensures KindOf(ht) == Kind(if ht.flags.rehash then None else Some(ht.cap), ht.flags.noreplace)
    ensures ht.flags.rehash ==> ht.size < ht.cap
    ensures Full(KindOf(ht), Values(ht)) <==> ht.size == ht.cap
    ensures forall k :: k in ht.View() ==> ht.View()[k].key == k
    ensures ht.View().Keys == ht.cells.Keys == Values(ht).Keys && |Values(ht)| == |ht.cells|
    ensures forall k :: k in ht.View() ==> Values(ht)[k] == ht.View()[k].data
    ensures Lookup(Values(ht), key) == if key in ht.cells then ht.View()[key].data else None
    ensures Dentries(ht) == set k | k in ht.View() :: ht.View()[k]
  {
    hide Table.Valid, Table.View, Table.HasCells;
    ht.ValidFacts(key);
    ht.CellFacts();
    ViewFacts(ht);
    assert IsPow2(0x1_0000) by { Pow16(); }
    if ht.cap < 0x1_0000 { Pow2Gap(ht.cap, 0x1_0000); }
  }

  lemma ViewFacts<V>(ht: Table<V>)
    requires ht.HasCells()
    ensures ht.View().Keys == ht.cells.Keys == Values(ht).Keys && |Values(ht)| == |ht.cells|
    ensures forall k :: k in ht.View() ==> Values(ht)[k] == ht.View()[k].data
    ensures Dentries(ht) == set k | k in ht.View() :: ht.View()[k]
  {
    assert ht.View().Keys == ht.cells.Keys;
    assert |Values(ht)| == |Values(ht).Keys| && |ht.cells| == |ht.cells.Keys|;
  }

  /** What a put changes: nothing outside the dentry it may overwrite. */
  lemma TouchedFacts<V>(ht: Table<V>, key: Key, mode: Mode)
    requires Ready(ht)
    ensures ht.HasCells() && ht.Touched(key, mode) <= Dentries(ht)
    ensures forall k :: k in ht.View() && (k != key || mode != Replace) ==> ht.View()[k] !in ht.Touched(key, mode)
    ensures forall k :: k in ht.View() ==> allocated(ht.View()[k]) && ht.View()[k] in Dentries(ht)
  {
    hide ht.Valid, Values;
    ReadyFacts(ht, key);
  }

  /** Storing under `key` in the table is storing under `key` in the map. */
  lemma EndStore<V>(ht: Table<V>, v: map<Key, Dentry<V>>, m: Model<V>, key: Key, value: Option<V>, mode: Mode,
                    de: Dentry?<V>)
    requires ht.Valid() && ht.HasCells()
    requires m.Keys == v.Keys && (ht.flags.rehash ==> |v| <= MAX_KEYS && (key !in v ==> |v| + 1 <= MAX_KEYS))
    requires forall k :: k in v && (k != key || mode != Replace) ==> v[k].data == m[k]
    requires if key in v
             then ht.View() == v && (mode == Replace ==> v[key].data == value)
                  && de == (if mode == Die then null else v[key])
             else de != null && de.data == value && ht.View() == v[key := de]
    ensures Ready(ht)
    ensures Values(ht) == if key in v && mode != Replace then m else m[key := value]
    ensures de == null <==> key in v && mode == Die
    ensures de != null ==> key in Values(ht) && de.data == Values(ht)[key]
    ensures Dentries(ht) == set k | k in ht.View() :: ht.View()[k]
  {
    hide *;
    StoredView(ht, v, m, key, value, mode, de);
    ReadyAgain(ht, v, key);
    ReadyFacts(ht, key);
  }

  lemma ReadyAgain<V>(ht: Table<V>, v: map<Key, Dentry<V>>, key: Key)
    requires ht.Valid() && ht.HasCells()
    requires ht.flags.rehash ==> |v| <= MAX_KEYS && (key !in v ==> |v| + 1 <= MAX_KEYS)
    requires ht.View().Keys == v.Keys || ht.View().Keys == v.Keys + {key}
    ensures Ready(ht)
  {
    hide ht.Valid, ht.HasCells, ht.View, Values, Dentries;
    ht.ValidFacts(key);
    KeysCount(v, ht.cells, key);
  }

  lemma KeysCount<A, B>(v: map<Key, A>, w: map<Key, B>, key: Key)
    requires w.Keys == v.Keys || w.Keys == v.Keys + {key}
    ensures |w| <= |v| + if key in v then 0 else 1
  {
    assert |v| == |v.Keys| && |w| == |w.Keys|;
    if key in v { assert v.Keys + {key} == v.Keys; }
  }

  lemma StoredView<V>(ht: Table<V>, v: map<Key, Dentry<V>>, m: Model<V>, key: Key, value: Option<V>, mode: Mode,
                      de: Dentry?<V>)
    requires ht.HasCells() && m.Keys == v.Keys
    requires forall k :: k in v && (k != key || mode != Replace) ==> v[k].data == m[k]
    requires if key in v
             then ht.View() == v && (mode == Replace ==> v[key].data == value)
                  && de == (if mode == Die then null else v[key])
             else de != null && de.data == value && ht.View() == v[key := de]
    ensures Values(ht) == if key in v && mode != Replace then m else m[key := value]
    ensures de == null <==> key in v && mode == Die
    ensures de != null ==> key in Values(ht) && de.data == Values(ht)[key]
    ensures ht.View().Keys == v.Keys || ht.View().Keys == v.Keys + {key}
  {
    assert Values(ht).Keys == ht.View().Keys;
  }

  /** The key is refused because it is new and the table full. */
  ghost predicate NoRoom<V>(ht: Table<V>, key: Key)
    reads ht
  {
    key !in ht.cells && !ht.flags.rehash && |ht.cells| >= ht.cap
  }

  /** One insertion or replacement, with its effect on the map; a full table refuses a new key. It fails
      exactly for a new key that has room and clashes. */
  method Store<V>(ht: Table<V>, key: Key, value: Option<V>, mode: Mode) returns (de: Dentry?<V>, aborted: bool)
    requires Ready(ht) && Takes(ht, key)
    modifies ht, ht.table, ht.data, Dentries(ht)
    ensures aborted <==> key !in old(ht.cells) && old(ht.Clashes(key))
    ensures aborted ==> !old(NoRoom(ht, key)) && TwinPrefix(ht.rawHash, old(ht.cells).Keys, key)
    ensures !aborted ==> Ready(ht) && KindOf(ht) == old(KindOf(ht))
    ensures !aborted ==> (ht.table == old(ht.table) || fresh(ht.table)) && (ht.data == old(ht.data) || fresh(ht.data))
    ensures !aborted ==> forall o :: o in Dentries(ht) ==> o in old(Dentries(ht)) || fresh(o)
    ensures !aborted ==> (de == null <==> old(NoRoom(ht, key)) || (key in old(ht.cells) && mode == Die))
    ensures !aborted && de != null ==> key in Values(ht) && de.data == Values(ht)[key]
    ensures !aborted && (old(NoRoom(ht, key)) || (key in old(ht.cells) && mode != Replace)) ==>
              Values(ht) == old(Values(ht))
    ensures !aborted && !old(NoRoom(ht, key)) && (key in old(ht.cells) ==> mode == Replace) ==>
              Values(ht) == old(Values(ht))[key := value]
  {
    hide *;
    ReadyFacts(ht, key);
    TakesFacts(ht, key);
    TouchedFacts(ht, key, mode);
    ghost var v, m, full := ht.View(), Values(ht), NoRoom(ht, key);
    ClashesNeedTwins(ht, key);
    de, aborted := ht.Put(key, 0, value, mode);
    if !aborted {
      SameKind(ht);
      EndPut(ht, v, m, full, key, value, mode, de);
    }
  }

  /** A put has stored the key, or was refused. */
  lemma EndPut<V>(ht: Table<V>, v: map<Key, Dentry<V>>, m: Model<V>, full: bool, key: Key, value: Option<V>, mode: Mode,
                  de: Dentry?<V>)
    requires ht.Valid() && ht.HasCells() && m.Keys == v.Keys && (ht.flags.rehash ==> |v| <= MAX_KEYS)
    requires forall k :: k in v && (k != key || mode != Replace) ==> v[k].data == m[k]
    requires full ==> key !in v && de == null && ht.View() == v
    requires !full ==> (ht.flags.rehash && key !in v ==> |v| + 1 <= MAX_KEYS)
    requires !full ==>
      if key in v
      then ht.View() == v && (mode == Replace ==> v[key].data == value) && de == (if mode == Die then null else v[key])
      else de != null && de.data == value && ht.View() == v[key := de]
    ensures Ready(ht)
    ensures de == null <==> full || (key in v && mode == Die)
    ensures de != null ==> key in Values(ht) && de.data == Values(ht)[key]
    ensures Values(ht) == if full || (key in v && mode != Replace) then m else m[key := value]
    ensures Dentries(ht) == set k | k in ht.View() :: ht.View()[k]
  {
    hide *;
    if full {
      StillReady(ht, v, m);
    } else {
      EndStore(ht, v, m, key, value, mode, de);
    }
  }

  lemma TakesFacts<V>(ht: Table<V>, key: Key)
    requires Ready(ht) && Takes(ht, key)
    ensures KindOf(ht) == Kind(if ht.flags.rehash then None else Some(ht.cap), ht.flags.noreplace)
    ensures ht.HasCells() && |ht.View()| == |ht.cells|
    ensures ht.flags.rehash ==> |ht.cells| <= MAX_KEYS && (key !in ht.cells ==> |ht.cells| + 1 <= MAX_KEYS)
    ensures !ht.flags.rehash ==> !ht.GrowsWith(key)
    ensures ht.Clashes(key) ==> ht.size < ht.cap
    ensures NoRoom(ht, key) <==> key !in ht.cells && !ht.flags.rehash && ht.size >= ht.cap
  {
    hide Table.Sound, Table.GrowsWith;
    ht.ValidFacts(key);
    ReadyFacts(ht, key);
    assert |ht.View()| == |ht.View().Keys| && |ht.cells| == |ht.cells.Keys|;
  }

  lemma SameKind<V>(ht: Table<V>)
    ensures KindOf(ht) == Kind(if ht.flags.rehash then None else Some(ht.cap), ht.flags.noreplace) && 0 <= MAX_KEYS
  {}

  /** A refused insertion has changed nothing. */
  lemma StillReady<V>(ht: Table<V>, v: map<Key, Dentry<V>>, m: Model<V>)
    requires ht.Valid() && ht.HasCells() && (ht.flags.rehash ==> |v| <= MAX_KEYS)
    requires ht.View() == v && m.Keys == v.Keys && forall k :: k in v ==> v[k].data == m[k]
    ensures Ready(ht) && Values(ht) == m && Dentries(ht) == set k | k in v :: v[k]
  {
    hide *;
    ReadyStill(ht, v);
    SameView(ht, v, m);
  }

  lemma ReadyStill<V>(ht: Table<V>, v: map<Key, Dentry<V>>)
    requires ht.Valid() && ht.HasCells() && (ht.flags.rehash ==> |v| <= MAX_KEYS)
    requires ht.View() == v
    ensures Ready(ht)
  {
    hide ht.Valid, ht.HasCells, ht.View, Values, Dentries;
    ht.ValidFacts([1]);
    assert |v| == |v.Keys| && |ht.cells| == |ht.cells.Keys|;
  }

  lemma SameView<V>(ht: Table<V>, v: map<Key, Dentry<V>>, m: Model<V>)
    requires ht.HasCells() && ht.View() == v && m.Keys == v.Keys && forall k :: k in v ==> v[k].data == m[k]
    ensures Values(ht) == m && Dentries(ht) == set k | k in v :: v[k]
  {
    assert ht.View().Keys == ht.cells.Keys;
  }

  lemma ClashesNeedTwins<V>(ht: Table<V>, key: Key)
    requires ht.Valid()
    ensures key !in ht.cells && ht.Clashes(key) ==> TwinPrefix(ht.rawHash, ht.cells.Keys, key)
  {
    if key !in ht.cells && ht.Clashes(key) {
      var job := ht.BeforeEntry(key);
      ClashNeedsTwins(job);
    }
  }

  /** The key an operation would insert. */
  function Inserted<V>(kind: Kind, op: Op<V>): Option<Key> {
    match op
    case Insert(k, _) => Some(k)
    case Overwrite(k, _) => if kind.noreplace then None else Some(k)
    case GetInsert(k) => Some(k)
    case _ => None
  }

  lemma DroppedValues<V>(ht: Table<V>, v: map<Key, Dentry<V>>, m: Model<V>, key: Key)
    requires ht.HasCells() && ht.View() == v - {key} && m.Keys == v.Keys
    requires forall k :: k in v ==> v[k].data == m[k]
    ensures Values(ht) == m - {key}
    ensures Dentries(ht) <= set k | k in v :: v[k]
  {
    assert Values(ht).Keys == (m - {key}).Keys;
    assert ht.View().Keys == ht.cells.Keys;
  }

  /** Deleting a key, with its effect on the map. */
  method Drop<V>(ht: Table<V>, key: Key) returns (r: Option<V>)
    requires Ready(ht)
    modifies ht, ht.table, ht.data
    ensures Ready(ht) && KindOf(ht) == old(KindOf(ht))
    ensures ht.table == old(ht.table) && ht.data == old(ht.data) && Dentries(ht) <= old(Dentries(ht))
    ensures Values(ht) == old(Values(ht)) - {key} && r == old(Lookup(Values(ht), key))
  {
    hide *;
    ReadyFacts(ht, key);
    ReadyBound(ht);
    TouchedFacts(ht, key, Keep);
    ghost var v, m := ht.View(), Values(ht);
    SameKind(ht);
    r := ht.Remove(key);
    SameKind(ht);
    DroppedValues(ht, v, m, key);
    EndDrop(ht);
  }

  lemma ReadyBound<V>(ht: Table<V>)
    requires Ready(ht) && ht.HasCells()
    ensures ht.flags.rehash ==> ht.size <= MAX_KEYS
    ensures |ht.View()| == ht.size
  {
    ReadyFacts(ht, [1]);
    assert |ht.View()| == |ht.View().Keys| && |ht.cells| == |ht.cells.Keys|;
  }

  /** Looking a key up changes nothing. */
  method Look<V>(ht: Table<V>, key: Key) returns (r: Option<V>)
    requires Ready(ht)
    ensures Ready(ht) && Values(ht) == old(Values(ht)) && Dentries(ht) == old(Dentries(ht))
    ensures r == Lookup(Values(ht), key)
  {
    hide *;
    ReadyFacts(ht, key);
    ReadyBound(ht);
    TouchedFacts(ht, key, Keep);
    ghost var v, m := ht.View(), Values(ht);
    r := ht.Get(key);
    StillReady(ht, v, m);
    ReadyFacts(ht, key);
  }

  lemma EndDrop<V>(ht: Table<V>)
    requires ht.Valid() && ht.HasCells() && (ht.flags.rehash ==> ht.size <= MAX_KEYS)
    ensures Ready(ht)
  {
    ht.ValidFacts([1]);
    ht.CellFacts();
  }

  /** Emptying the table. */
  method Wipe<V>(ht: Table<V>)
    requires Ready(ht)
    modifies ht, ht.table, ht.data
    ensures Ready(ht) && KindOf(ht) == old(KindOf(ht)) && Values(ht) == map[] && Dentries(ht) == {}
    ensures ht.table == old(ht.table) && ht.data == old(ht.data)
  {
    hide *;
    ReadyFacts(ht, [1]);
    SameKind(ht);
    ht.Clean();
    SameKind(ht);
    EndDrop(ht);
    SameValues(ht);
  }

  lemma SameValues<V>(ht: Table<V>)
    requires ht.HasCells() && ht.View() == map[]
    ensures Values(ht) == map[] && Dentries(ht) == {}
  {
    assert ht.View().Keys == ht.cells.Keys;
  }

  /** The operation inserts a new key that clashes. */
  ghost predicate Stops<V>(ht: Table<V>, op: Op<V>)
    reads ht, ht.table, ht.data
  {
    var k := Inserted(KindOf(ht), op);
    k.Some? && k.value !in ht.cells && ht.Clashes(k.value)
  }

  /** One operation of the table does what it does to the map, unless it inserts a key that clashes. */
  method Apply<V>(ht: Table<V>, op: Op<V>) returns (answer: (bool, Option<V>), aborted: bool)
    requires Ready(ht) && Confined(KindOf(ht), |Effect(KindOf(ht), Values(ht), op)|)
    modifies ht, ht.table, ht.data, Dentries(ht)
    ensures aborted <==> old(Stops(ht, op))
    ensures !aborted ==> Ready(ht) && KindOf(ht) == old(KindOf(ht))
    ensures !aborted ==> (ht.table == old(ht.table) || fresh(ht.table)) && (ht.data == old(ht.data) || fresh(ht.data))
    ensures !aborted ==> forall o :: o in Dentries(ht) ==> o in old(Dentries(ht)) || fresh(o)
    ensures !aborted ==> Values(ht) == Effect(old(KindOf(ht)), old(Values(ht)), op)
    ensures !aborted ==> answer == Answer(old(KindOf(ht)), old(Values(ht)), op)
  {
    hide *;
    ReadyFacts(ht, [1]);
    EffectFacts(ht, op);
    answer, aborted := (true, None), false;
    match op {
      case Insert(k, v) =>
        var de;
        de, aborted := Store(ht, k, v, Die);
        answer := (de != null, None);
      case Overwrite(k, v) =>
        answer, aborted := Replaced(ht, k, v);
      case GetInsert(k) =>
        var de;
        de, aborted := Store(ht, k, None, Keep);
        if !aborted { answer := (de != null, if de != null then de.data else None); }
      case Fetch(k) =>
        var r := Look(ht, k);
        answer := (true, r);
      case Delete(k) =>
        var r := Drop(ht, k);
        answer := (true, r);
      case Empty =>
        Wipe(ht);
    }
  }

  /** `n_oash_hreplace`, which a table may refuse; the program goes on if the hook of `trurl_die` returns. */
  method Replaced<V>(ht: Table<V>, key: Key, value: Option<V>) returns (answer: (bool, Option<V>), aborted: bool)
    requires Ready(ht) && (!ht.flags.noreplace ==> Takes(ht, key))
    modifies ht, ht.table, ht.data, Dentries(ht)
    ensures aborted <==> !old(ht.flags.noreplace) && key !in old(ht.cells) && old(ht.Clashes(key))
    ensures !aborted ==> Ready(ht) && KindOf(ht) == old(KindOf(ht))
    ensures !aborted ==> (ht.table == old(ht.table) || fresh(ht.table)) && (ht.data == old(ht.data) || fresh(ht.data))
    ensures !aborted ==> forall o :: o in Dentries(ht) ==> o in old(Dentries(ht)) || fresh(o)
    ensures !aborted && old(ht.flags.noreplace || NoRoom(ht, key)) ==> Values(ht) == old(Values(ht))
    ensures !aborted && !old(ht.flags.noreplace || NoRoom(ht, key)) ==> Values(ht) == old(Values(ht))[key := value]
    ensures !aborted ==> answer == (!old(ht.flags.noreplace || NoRoom(ht, key)), None)
  {
    hide *;
    if ht.flags.noreplace {
      return (false, None), false;
    }
    var de;
    de, aborted := Store(ht, key, value, Replace);
    answer := (de != null, None);
  }

  lemma EffectFacts<V>(ht: Table<V>, op: Op<V>)
    requires Ready(ht) && Confined(KindOf(ht), |Effect(KindOf(ht), Values(ht), op)|)
    ensures op.Insert? || op.GetInsert? ==> Takes(ht, op.key)
    ensures op.Overwrite? && !ht.flags.noreplace ==> Takes(ht, op.key)
    ensures op.GetInsert? ==> (op.key in Values(ht) <==> op.key in ht.cells)
    ensures op.GetInsert? && op.key in ht.cells ==> !NoRoom(ht, op.key)
    ensures Stops(ht, op) <==> (op.Insert? || op.GetInsert? || (op.Overwrite? && !ht.flags.noreplace))
                               && op.key !in ht.cells && ht.Clashes(op.key)
    ensures var m := Values(ht);
      Effect(KindOf(ht), m, op) == match op
        case Insert(k, v) => if k in ht.cells || NoRoom(ht, k) then m else m[k := v]
        case Overwrite(k, v) => if ht.flags.noreplace || NoRoom(ht, k) then m else m[k := v]
        case GetInsert(k) => if k in ht.cells || NoRoom(ht, k) then m else m[k := None]
        case Fetch(_) => m
        case Delete(k) => m - {k}
        case Empty => map[]
    ensures var m := Values(ht);
      Answer(KindOf(ht), m, op) == match op
        case Insert(k, _) => (k !in ht.cells && !NoRoom(ht, k), None)
        case Overwrite(k, _) => (!(ht.flags.noreplace || NoRoom(ht, k)), None)
        case GetInsert(k) => (!NoRoom(ht, k), if k in m then m[k] else None)
        case Fetch(k) => (true, Lookup(m, k))
        case Delete(k) => (true, Lookup(m, k))
        case Empty => (true, None)
  {
    hide Ready, Values, Table.Valid, Table.Clashes;
    ReadyFacts(ht, [1]);
  }

  lemma RunStep<V>(kind: Kind, m: Model<V>, ops: seq<Op<V>>)
    requires ops != []
    ensures Effects(kind, m, ops) == Effects(kind, Effect(kind, m, ops[0]), ops[1..])
    ensures Answers(kind, m, ops) == [Answer(kind, m, ops[0])] + Answers(kind, Effect(kind, m, ops[0]), ops[1..])
  {}

  lemma RunStart<V>(kind: Kind, m: Model<V>, ops: seq<Op<V>>)
    requires ops == []
    ensures Effects(kind, m, ops) == m && Answers(kind, m, ops) == []
  {}

  /** The insertion that the operation makes in a table of the map `m` clashes, which takes a pair of twins
      in the map, one of them a proper prefix of the new key. */
  ghost predicate StopsAt<V>(raw: Key -> u32, kind: Kind, m: Model<V>, op: Op<V>, job: Job) {
    && job.raw == raw && job.key.Some? && job.key == Inserted(kind, op) && job.key.value !in m && !Full(kind, m)
    && State(raw, job.t, job.d, job.m, |m|) && job.m.Keys == m.Keys && job.Clash()
    && TwinPrefix(raw, m.Keys, job.key.value)
  }

  lemma StopsHere<V>(ht: Table<V>, op: Op<V>) returns (job: Job)
    requires Ready(ht) && Stops(ht, op)
    ensures StopsAt(ht.rawHash, KindOf(ht), Values(ht), op, job)
  {
    hide Values, Table.Valid, Dentries, Job.Clash, TwinPrefix;
    var key := Inserted(KindOf(ht), op).value;
    ReadyFacts(ht, key);
    ClashesNeedTwins(ht, key);
    ht.ValidFacts(key);
    ht.CellFacts();
    job := ht.BeforeEntry(key);
  }

  /** The run comes to an insertion that clashes, after the operations that gave the answers. */
  ghost predicate StuckAt<V>(raw: Key -> u32, kind: Kind, m: Model<V>, ops: seq<Op<V>>,
                             answers: seq<(bool, Option<V>)>, job: Job)
  {
    var n := |answers|;
    && n < |ops| && answers == Answers(kind, m, ops[..n])
    && StopsAt(raw, kind, Effects(kind, m, ops[..n]), ops[n], job)
  }

  lemma StuckHere<V>(raw: Key -> u32, kind: Kind, m: Model<V>, ops: seq<Op<V>>, job: Job)
    requires ops != [] && StopsAt(raw, kind, m, ops[0], job)
    ensures StuckAt(raw, kind, m, ops, [], job)
  {
    assert ops[..0] == [];
  }

  lemma StuckLater<V>(raw: Key -> u32, kind: Kind, m: Model<V>, ops: seq<Op<V>>,
                      answers: seq<(bool, Option<V>)>, job: Job)
    requires ops != [] && StuckAt(raw, kind, Effect(kind, m, ops[0]), ops[1..], answers, job)
    ensures StuckAt(raw, kind, m, ops, [Answer(kind, m, ops[0])] + answers, job)
  {
    hide StopsAt, Effect, Answer;
    var n := |answers|;
    assert ops[..n + 1][1..] == ops[1..][..n] && ops[..n + 1][0] == ops[0];
  }

  /** No map on the way has more keys than a growing table can take. */
  ghost predicate AllFit<V>(kind: Kind, m: Model<V>, ops: seq<Op<V>>) {
    forall i :: 0 <= i <= |ops| ==> Confined(kind, |Effects(kind, m, ops[..i])|)
  }

  lemma AllFitStep<V>(kind: Kind, m: Model<V>, ops: seq<Op<V>>)
    requires AllFit(kind, m, ops) && ops != []
    ensures Confined(kind, |Effect(kind, m, ops[0])|) && AllFit(kind, Effect(kind, m, ops[0]), ops[1..])
  {
    hide Effect, Confined;
    assert ops[..1][1..] == [] && ops[..1][0] == ops[0];
    assert Effects(kind, m, ops[..1]) == Effect(kind, m, ops[0]);
    forall i | 0 <= i <= |ops[1..]|
      ensures Confined(kind, |Effects(kind, Effect(kind, m, ops[0]), ops[1..][..i])|)
    {
      assert ops[..i + 1][1..] == ops[1..][..i] && ops[..i + 1][0] == ops[0];
      assert Confined(kind, |Effects(kind, m, ops[..i + 1])|);
    }
  }

  /** Every run is the run of the finite map: the same answers and the same final map. A growing table
      takes any number of keys, a fixed one as many as it has slots. The run can stop only at an
      insertion that clashes, and the answers up to there are those of the map. */
  method Run<V>(ht: Table<V>, ops: seq<Op<V>>)
    returns (answers: seq<(bool, Option<V>)>, aborted: bool, ghost job: Option<Job>)
    requires Ready(ht) && AllFit(KindOf(ht), Values(ht), ops)
    modifies ht, ht.table, ht.data, Dentries(ht)
    ensures !aborted ==> Ready(ht) && KindOf(ht) == old(KindOf(ht))
    ensures !aborted ==> Values(ht) == Effects(old(KindOf(ht)), old(Values(ht)), ops)
    ensures !aborted ==> answers == Answers(old(KindOf(ht)), old(Values(ht)), ops)
    ensures aborted <==> job.Some?
    ensures job.Some? ==> StuckAt(ht.rawHash, old(KindOf(ht)), old(Values(ht)), ops, answers, job.value)
    decreases |ops|
  {
    hide *;
    ReadyFacts(ht, [1]);
    ghost var kind, m := KindOf(ht), Values(ht);
    if ops == [] {
      RunStart(kind, m, ops);
      return [], false, None;
    }
    RunStep(kind, m, ops);
    AllFitStep(kind, m, ops);
    job := None;
    if Stops(ht, ops[0]) {
      var j := StopsHere(ht, ops[0]);
      job := Some(j);
      StuckHere(ht.rawHash, kind, m, ops, j);
    }
    var first;
    first, aborted := Apply(ht, ops[0]);
    answers := [];
    if aborted {
      return;
    }
    ReadyFacts(ht, [1]);
    answers, aborted, job := Run(ht, ops[1..]);
    if job.Some? { StuckLater(ht.rawHash, kind, m, ops, answers, job.value); }
    answers := [first] + answers;
  }
}
