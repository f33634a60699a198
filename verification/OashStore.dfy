/** Writing a Robin Hood table to a stream slot by slot, and reading it back. */
module OashStore {
  import opened Words
  import opened RobinHood
  import opened OashSpec
  import opened Oash
  import opened OashCopy

  // ---- the stream ----

  /** A byte stream; numbers are in network byte order. */
  class Stream {
    var buf: seq<u8>
    var pos: nat

    ghost predicate Ok()
      reads this
    {
      pos <= |buf|
    }

    ghost function Rest(): seq<u8>
      requires Ok()
      reads this
    {
      buf[pos..]
    }

    constructor ()
      ensures Ok() && buf == [] && Rest() == []
    {
      buf, pos := [], 0;
    }

    method Write(b: seq<u8>)
      requires Ok()
      modifies this
      ensures Ok() && pos == old(pos) && buf == old(buf) + b && Rest() == old(Rest()) + b
    {
      buf := buf + b;
    }

    /** Reads what there is, at most `n` bytes. */
    method Read(n: nat) returns (b: seq<u8>)
      requires Ok()
      modifies this
      ensures Ok() && buf == old(buf) && old(Rest()) == b + Rest()
      ensures |b| == if n <= |old(Rest())| then n else |old(Rest())|
    {
      var m := if n <= |buf| - pos then n else |buf| - pos;
      b := buf[pos..pos + m];
      pos := pos + m;
    }
  }

  function Be16(v: u16): (b: seq<u8>)
    ensures |b| == 2 && 0x100 * b[0] as int + b[1] as int == v
  {
    [v / 0x100, v % 0x100]
  }

  function Be32(v: u32): (b: seq<u8>)
    ensures |b| == 4
    ensures 0x100_0000 * b[0] as int + 0x1_0000 * b[1] as int + 0x100 * b[2] as int + b[3] as int == v
  {
    Be16(v / 0x1_0000) + Be16(v % 0x1_0000)
  }

  function FromBe16(b: seq<u8>): u16
    requires |b| == 2
  {
    b[0] as int * 0x100 + b[1] as int
  }

  function FromBe32(b: seq<u8>): u32
    requires |b| == 4
  {
    FromBe16(b[..2]) as int * 0x1_0000 + FromBe16(b[2..]) as int
  }

  lemma Be16RoundTrip(v: u16)
    ensures FromBe16(Be16(v)) == v
  {}

  lemma Be32RoundTrip(v: u32)
    ensures FromBe32(Be32(v)) == v
  {
    var hi: u16, lo: u16 := v / 0x1_0000, v % 0x1_0000;
    assert Be32(v)[..2] == Be16(hi) && Be32(v)[2..] == Be16(lo);
    Be16RoundTrip(hi);
    Be16RoundTrip(lo);
  }

  method ReadU16(st: Stream, ghost v: u16, ghost rest: seq<u8>) returns (r: u16)
    requires st.Ok() && st.Rest() == Be16(v) + rest
    modifies st
    ensures st.Ok() && st.Rest() == rest && r == v
  {
    var b := st.Read(2);
    assert b == (Be16(v) + rest)[..2];
    assert st.Rest() == (Be16(v) + rest)[2..];
    Be16RoundTrip(v);
    r := FromBe16(b);
  }

  method ReadU32(st: Stream, ghost v: u32, ghost rest: seq<u8>) returns (r: u32)
    requires st.Ok() && st.Rest() == Be32(v) + rest
    modifies st
    ensures st.Ok() && st.Rest() == rest && r == v
  {
    var b := st.Read(4);
    assert b == (Be32(v) + rest)[..4];
    assert st.Rest() == (Be32(v) + rest)[4..];
    Be32RoundTrip(v);
    r := FromBe32(b);
  }

  function FlagBits(f: Flags): u16 {
    (if f.nocpkey then 2 else 0) + (if f.rehash then 4 else 0) + (if f.noreplace then 8 else 0)
  }

  function FromFlagBits(b: u16): Flags { Flags(b / 2 % 2 == 1, b / 4 % 2 == 1, b / 8 % 2 == 1) }

  lemma FlagsRoundTrip(f: Flags)
    ensures FromFlagBits(FlagBits(f)) == f
  {}

  // ---- the format ----

  /** A table as values. */
  datatype Snapshot<V> = Snapshot(slots: seq<Entry>, elems: seq<Option<(Key, Option<V>)>>, flags: Flags, size: nat)

  ghost function Names<V>(elems: seq<Option<(Key, Option<V>)>>): seq<Option<Key>> {
    seq(|elems|, j requires 0 <= j < |elems| => if elems[j].Some? then Some(elems[j].value.0) else None)
  }

  /** A snapshot that can be stored: the invariant of the table, and keys that fit the reader's buffer. */
  ghost predicate Storable<V>(raw: Key -> u32, s: Snapshot<V>, m: map<Key, nat>) {
    && State(raw, s.slots, Names(s.elems), m, s.size)
    && (s.flags.rehash ==> |s.slots| - s.size > |s.slots| / 3)
    && forall j :: 0 <= j < |s.elems| && s.elems[j].Some? ==> |s.elems[j].value.0| <= 511
  }

  const VERSION: seq<u8> := [109, 114, 51]

  /** How elements are written; None is a failing callback. */
  type Encoder<!V> = Option<V> -> Option<seq<u8>>

  /** How elements are read: the element and the number of bytes it took. */
  type Decoder<!V> = seq<u8> -> (Option<V>, nat)

  ghost predicate Inverse<V(!new)>(enc: Encoder<V>, dec: Decoder<V>) {
    forall v, rest :: enc(v).Some? ==> dec(enc(v).value + rest) == (v, |enc(v).value|)
  }

  /** What is written for slot `i`, before the element. */
  function Record(i: u32, e: Entry, key: Key): seq<u8> {
    Be32(i) + Be32(e.hash) + Be16(e.psl) + Be16(e.klen) + Be32(e.dataIndex) + key
  }

  /** What is written for the slots from `i` on; None if a callback fails. */
  ghost function Body<V>(s: Snapshot<V>, enc: Encoder<V>, i: nat): Option<seq<u8>>
    requires i <= |s.slots| <= 0x1_0000
    decreases |s.slots| - i
  {
    if i == |s.slots| then Some([])
    else if !Occupied(s.slots[i]) then Body(s, enc, i + 1)
    else
      var j := s.slots[i].dataIndex;
      if j >= |s.elems| || s.elems[j].None? || enc(s.elems[j].value.1).None? then None
      else
        var tail := Body(s, enc, i + 1);
        if tail.None? then None
        else Some(Record(i, s.slots[i], s.elems[j].value.0) + enc(s.elems[j].value.1).value + tail.value)
  }

  function Header(cap: u32, flags: Flags, size: u32): seq<u8> {
    VERSION + Be32(cap) + Be16(FlagBits(flags.(nocpkey := false))) + Be32(size)
  }

  lemma Be32Bytes(v: u32)
    ensures Be32(v) == [v / 0x100_0000, v / 0x1_0000 % 0x100, v / 0x100 % 0x100, v % 0x100]
  {
    hide Be32;
    var b := Be32(v);
    var x: int, y: int, z: int := 0x100 * b[0] as int + b[1] as int, b[2] as int, b[3] as int;
    assert v / 0x100 == 0x100 * x + y && v % 0x100 == z;
    assert v / 0x1_0000 == x && v / 0x100_0000 == x / 0x100;
  }

  /** Byte by byte: the number of the slot, the four fields of its entry, and the key. */
  lemma RecordBytes(i: u32, e: Entry, key: Key)
    ensures Record(i, e, key) ==
      [i / 0x100_0000, i / 0x1_0000 % 0x100, i / 0x100 % 0x100, i % 0x100]
        + [e.hash / 0x100_0000, e.hash / 0x1_0000 % 0x100, e.hash / 0x100 % 0x100, e.hash % 0x100]
        + [e.psl / 0x100, e.psl % 0x100] + [e.klen / 0x100, e.klen % 0x100]
        + [e.dataIndex / 0x100_0000, e.dataIndex / 0x1_0000 % 0x100, e.dataIndex / 0x100 % 0x100, e.dataIndex % 0x100]
        + key
  {
    Be32Bytes(i);
    Be32Bytes(e.hash);
    Be32Bytes(e.dataIndex);
  }

  /** Byte by byte: the version, the capacity, the flags but for NOCPKEY, and the number of entries. */
  lemma HeaderBytes(cap: u32, flags: Flags, size: u32)
    ensures Header(cap, flags, size) ==
      [109, 114, 51] + [cap / 0x100_0000, cap / 0x1_0000 % 0x100, cap / 0x100 % 0x100, cap % 0x100]
        + [0, (if flags.rehash then 4 else 0) + (if flags.noreplace then 8 else 0)]
        + [size / 0x100_0000, size / 0x1_0000 % 0x100, size / 0x100 % 0x100, size % 0x100]
  {
    Be32Bytes(cap);
    Be32Bytes(size);
  }

  // ---- writing ----

  /** The table as values. */
  ghost function SnapshotOf<V>(ht: Table<V>): Snapshot<V>
    reads ht, ht.table, ht.data, set j | 0 <= j < ht.data.Length && ht.data[j] != null :: ht.data[j]
  {
    Snapshot(ht.table[..], ElemsOf(ht.data), ht.flags, ht.size)
  }

  ghost function ElemsOf<V>(d: array<Dentry?<V>>): (es: seq<Option<(Key, Option<V>)>>)
    reads d, set j | 0 <= j < d.Length && d[j] != null :: d[j]
    ensures |es| == d.Length
    ensures forall j {:trigger es[j]} :: 0 <= j < d.Length ==>
              es[j] == if d[j] == null then None else Some((d[j].key, d[j].data))
  {
    seq(d.Length, j requires 0 <= j < d.Length reads d, set k | 0 <= k < d.Length && d[k] != null :: d[k] =>
      if d[j] == null then None else Some((d[j].key, d[j].data)))
  }

  lemma SnapshotFacts<V>(ht: Table<V>)
    requires ht.Valid()
    ensures Names(SnapshotOf(ht).elems) == KeysOf(ht.data)
    ensures SnapshotOf(ht).size == ht.size && SnapshotOf(ht).flags == ht.flags
    ensures State(ht.rawHash, SnapshotOf(ht).slots, Names(SnapshotOf(ht).elems), ht.cells, ht.size)
    ensures |SnapshotOf(ht).slots| == ht.cap == ht.table.Length <= 0x1_0000 && ht.size <= ht.cap
    ensures forall i {:trigger ht.table[i]} :: 0 <= i < ht.cap ==>
              && SnapshotOf(ht).slots[i] == ht.table[i]
              && (Occupied(ht.table[i]) ==>
                    var j := ht.table[i].dataIndex;
                    && j < ht.data.Length && ht.data[j] != null && j < |SnapshotOf(ht).elems|
                    && SnapshotOf(ht).elems[j] == Some((ht.data[j].key, ht.data[j].data)))
  {
    hide Linked, Content, Ordered, HasStop, IsPow2, SameUpTo;
    ht.ValidFacts([1]);
    assert Names(SnapshotOf(ht).elems) == KeysOf(ht.data);
    forall i | 0 <= i < ht.cap && Occupied(ht.table[i])
      ensures ht.table[i].dataIndex < ht.data.Length && ht.data[ht.table[i].dataIndex] != null
    {
      MatchFacts(ht.rawHash, ht.table[..], KeysOf(ht.data), ht.cells, [1], i);
    }
  }

  /** What has been written after `i` slots, `n` of them occupied, completes to the whole. */
  ghost predicate Writing<V>(s: Snapshot<V>, enc: Encoder<V>, buf: seq<u8>, whole: seq<u8>, i: nat, n: nat) {
    && i <= |s.slots| <= 0x1_0000 && n + Content(s.slots[..i])[Free] == i
    && (Body(s, enc, 0).Some? <==> Body(s, enc, i).Some?)
    && (Body(s, enc, i).Some? ==> buf + Body(s, enc, i).value == whole)
  }

  lemma WritingStart<V>(s: Snapshot<V>, enc: Encoder<V>, buf: seq<u8>)
    requires |s.slots| <= 0x1_0000
    ensures Writing(s, enc, buf, if Body(s, enc, 0).Some? then buf + Body(s, enc, 0).value else buf, 0, 0)
  {
    assert s.slots[..0] == [];
    assert Cores(s.slots[..0]) == [];
  }

  lemma WritingSkip<V>(s: Snapshot<V>, enc: Encoder<V>, buf: seq<u8>, whole: seq<u8>, i: nat, n: nat)
    requires Writing(s, enc, buf, whole, i, n) && i < |s.slots| && !Occupied(s.slots[i])
    ensures Writing(s, enc, buf, whole, i + 1, n)
  {
    OneMore(s.slots, i);
  }

  lemma WritingOne<V>(s: Snapshot<V>, enc: Encoder<V>, buf: seq<u8>, whole: seq<u8>, i: nat, n: nat,
                      key: Key, value: Option<V>)
    requires Writing(s, enc, buf, whole, i, n) && i < |s.slots| && Occupied(s.slots[i])
    requires s.slots[i].dataIndex < |s.elems| && s.elems[s.slots[i].dataIndex] == Some((key, value))
    ensures enc(value).None? ==> Body(s, enc, 0).None?
    ensures enc(value).Some? ==>
              Writing(s, enc, buf + Record(i, s.slots[i], key) + enc(value).value, whole, i + 1, n + 1)
  {
    OneMore(s.slots, i);
    if enc(value).Some? && Body(s, enc, i + 1).Some? {
      var a, b, c := Record(i, s.slots[i], key), enc(value).value, Body(s, enc, i + 1).value;
      assert buf + (a + b + c) == buf + a + b + c;
    }
  }

  lemma WritingEnd<V>(raw: Key -> u32, s: Snapshot<V>, m: map<Key, nat>, enc: Encoder<V>,
                      buf: seq<u8>, whole: seq<u8>, n: nat)
    requires Writing(s, enc, buf, whole, |s.slots|, n) && State(raw, s.slots, Names(s.elems), m, s.size)
    ensures Body(s, enc, 0).Some? && buf == whole && n == s.size
  {
    assert s.slots[..|s.slots|] == s.slots;
    assert buf + [] == buf;
  }

  /** What a whole table writes. */
  ghost function Encoded<V>(s: Snapshot<V>, enc: Encoder<V>): seq<u8>
    requires |s.slots| <= 0x1_0000 && s.size <= 0x1_0000 && Body(s, enc, 0).Some?
  {
    Header(|s.slots|, s.flags, s.size) + Body(s, enc, 0).value
  }

  method WriteHeader(st: Stream, cap: u32, flags: Flags, size: u32)
    requires st.Ok()
    modifies st
    ensures st.Ok() && st.pos == old(st.pos) && st.buf == old(st.buf) + Header(cap, flags, size)
  {
    st.Write(VERSION);
    st.Write(Be32(cap));
    st.Write(Be16(FlagBits(flags.(nocpkey := false))));
    st.Write(Be32(size));
  }

  method WriteRecord(st: Stream, i: u32, e: Entry, key: Key)
    requires st.Ok()
    modifies st
    ensures st.Ok() && st.pos == old(st.pos) && st.buf == old(st.buf) + Record(i, e, key)
  {
    st.Write(Be32(i));
    st.Write(Be32(e.hash));
    st.Write(Be16(e.psl));
    st.Write(Be16(e.klen));
    st.Write(Be32(e.dataIndex));
    st.Write(key);
  }

  /** Where the records of the first `i` slots are in the stream: that of slot `k` is between `at[k]` and
      `at[k + 1]`, which are equal if the slot is free. */
  ghost predicate Records<V>(s: Snapshot<V>, enc: Encoder<V>, buf: seq<u8>, at: seq<nat>, i: nat) {
    && i <= |s.slots| <= 0x1_0000 && |at| == i + 1 && at[i] == |buf|
    && forall k :: 0 <= k < i ==> RecordAt(s, enc, buf, at[k], at[k + 1], k)
  }

  ghost predicate RecordAt<V>(s: Snapshot<V>, enc: Encoder<V>, buf: seq<u8>, p: nat, q: nat, k: nat)
    requires k < |s.slots| <= 0x1_0000
  {
    p <= q <= |buf| &&
    if !Occupied(s.slots[k]) then p == q
    else var j := s.slots[k].dataIndex;
      && j < |s.elems| && s.elems[j].Some? && enc(s.elems[j].value.1).Some?
      && buf[p..q] == Record(k, s.slots[k], s.elems[j].value.0) + enc(s.elems[j].value.1).value
  }

  lemma RecordsMore<V>(s: Snapshot<V>, enc: Encoder<V>, buf: seq<u8>, at: seq<nat>, i: nat, b: seq<u8>)
    requires Records(s, enc, buf, at, i) && i < |s.slots|
    requires RecordAt(s, enc, buf + b, |buf|, |buf + b|, i)
    ensures Records(s, enc, buf + b, at + [|buf + b|], i + 1)
  {
    forall k | 0 <= k < i
      ensures RecordAt(s, enc, buf + b, at[k], at[k + 1], k)
    {
      assert RecordAt(s, enc, buf, at[k], at[k + 1], k);
      assert (buf + b)[at[k]..at[k + 1]] == buf[at[k]..at[k + 1]];
    }
  }

  /** The record of slot `i` has been written. */
  lemma RecordWritten<V>(s: Snapshot<V>, enc: Encoder<V>, buf: seq<u8>, at: seq<nat>, i: nat,
                         key: Key, value: Option<V>)
    requires Records(s, enc, buf, at, i) && i < |s.slots| <= 0x1_0000 && Occupied(s.slots[i]) && enc(value).Some?
    requires s.slots[i].dataIndex < |s.elems| && s.elems[s.slots[i].dataIndex] == Some((key, value))
    ensures var buf' := buf + Record(i, s.slots[i], key) + enc(value).value;
      Records(s, enc, buf', at + [|buf'|], i + 1)
  {
    hide Records, Record;
    var b := Record(i, s.slots[i], key) + enc(value).value;
    assert buf + Record(i, s.slots[i], key) + enc(value).value == buf + b && (buf + b)[|buf|..] == b;
    RecordsMore(s, enc, buf, at, i, b);
  }

  lemma RecordsSkip<V>(s: Snapshot<V>, enc: Encoder<V>, buf: seq<u8>, at: seq<nat>, i: nat)
    requires Records(s, enc, buf, at, i) && i < |s.slots| && !Occupied(s.slots[i])
    ensures Records(s, enc, buf, at + [|buf|], i + 1)
  {
    assert buf + [] == buf;
    RecordsMore(s, enc, buf, at, i, []);
  }

  lemma {:induction false} BodyFails<V>(s: Snapshot<V>, enc: Encoder<V>, i: nat)
    requires i <= |s.slots| <= 0x1_0000
    ensures Body(s, enc, i).Some? <==> forall k {:trigger s.slots[k]} :: i <= k < |s.slots| && Occupied(s.slots[k]) ==>
      var j := s.slots[k].dataIndex; j < |s.elems| && s.elems[j].Some? && enc(s.elems[j].value.1).Some?
    decreases |s.slots| - i
  {
    if i < |s.slots| { BodyFails(s, enc, i + 1); }
  }

  /** Writing fails exactly if a callback does. */
  lemma Callbacks<V>(ht: Table<V>, enc: Encoder<V>)
    requires ht.Valid()
    ensures |SnapshotOf(ht).slots| == ht.cap == ht.table.Length <= 0x1_0000
    ensures SnapshotOf(ht).size == ht.size <= 0x1_0000
    ensures forall i {:trigger ht.table[i]} :: 0 <= i < ht.cap && ht.table[i].hash != 0 ==>
      ht.table[i].dataIndex < ht.data.Length && ht.data[ht.table[i].dataIndex] != null
    ensures Body(SnapshotOf(ht), enc, 0).Some? <==>
      forall i {:trigger ht.table[i]} :: 0 <= i < ht.cap && ht.table[i].hash != 0 ==>
        enc(ht.data[ht.table[i].dataIndex].data).Some?
  {
    hide Table.Valid, SnapshotOf, Body, State;
    SnapshotFacts(ht);
    var s := SnapshotOf(ht);
    BodyFails(s, enc, 0);
    assert forall i :: 0 <= i < ht.cap ==> s.slots[i] == ht.table[i];
  }

  lemma Layout<V>(ht: Table<V>, enc: Encoder<V>, buf: seq<u8>, at: seq<nat>)
    requires ht.Valid() && Records(SnapshotOf(ht), enc, buf, at, ht.cap)
    ensures ht.cap == ht.table.Length <= 0x1_0000
    ensures forall i {:trigger ht.table[i]} :: 0 <= i < ht.cap && ht.table[i].hash != 0 ==>
      ht.table[i].dataIndex < ht.data.Length && ht.data[ht.table[i].dataIndex] != null
    ensures
      && |at| == ht.cap + 1 && at[ht.cap] == |buf|
      && forall i {:trigger ht.table[i]} :: 0 <= i < ht.cap ==>
        if ht.table[i].hash == 0 then at[i] == at[i + 1]
        else var de := ht.data[ht.table[i].dataIndex];
          enc(de.data).Some? && at[i] <= at[i + 1] <= |buf|
          && buf[at[i]..at[i + 1]] == Record(i, ht.table[i], de.key) + enc(de.data).value
  {
    hide Table.Valid, SnapshotOf, Record, State;
    SnapshotFacts(ht);
    forall i {:trigger ht.table[i]} | 0 <= i < ht.cap
      ensures
        if ht.table[i].hash == 0 then at[i] == at[i + 1]
        else var de := ht.data[ht.table[i].dataIndex];
          enc(de.data).Some? && at[i] <= at[i + 1] <= |buf|
          && buf[at[i]..at[i + 1]] == Record(i, ht.table[i], de.key) + enc(de.data).value
    {
      assert RecordAt(SnapshotOf(ht), enc, buf, at[i], at[i + 1], i) && SnapshotOf(ht).slots[i] == ht.table[i];
    }
  }

  lemma RecordsStart<V>(s: Snapshot<V>, enc: Encoder<V>, buf: seq<u8>)
    requires |s.slots| <= 0x1_0000
    ensures Records(s, enc, buf, [|buf|], 0)
  {}

  /** `n_oash_store`: the number of entries written, or 0 if a callback fails. The numbers of the header
      are in network order; the record of slot `i` is between `at[i]` and `at[i + 1]`. */
  method Store<V>(ht: Table<V>, st: Stream, enc: Encoder<V>) returns (n: nat, ghost at: seq<nat>)
    requires ht.Valid() && st.Ok()
    modifies st
    ensures st.Ok() && st.pos == old(st.pos) && old(st.buf) <= st.buf
    ensures |SnapshotOf(ht).slots| <= 0x1_0000 && SnapshotOf(ht).size <= 0x1_0000
    ensures Body(SnapshotOf(ht), enc, 0).Some? ==>
              n == ht.size && st.buf == old(st.buf) + Encoded(SnapshotOf(ht), enc)
    ensures ht.cap == ht.table.Length <= 0x1_0000 && ht.size <= 0x1_0000
    ensures old(st.buf) + [109, 114, 51]
      + [ht.cap / 0x100_0000, ht.cap / 0x1_0000 % 0x100, ht.cap / 0x100 % 0x100, ht.cap % 0x100]
      + [0, (if ht.flags.rehash then 4 else 0) + (if ht.flags.noreplace then 8 else 0)]
      + [ht.size / 0x100_0000, ht.size / 0x1_0000 % 0x100, ht.size / 0x100 % 0x100, ht.size % 0x100] <= st.buf
    ensures forall i {:trigger ht.table[i]} :: 0 <= i < ht.cap && ht.table[i].hash != 0 ==>
      ht.table[i].dataIndex < ht.data.Length && ht.data[ht.table[i].dataIndex] != null
    ensures Body(SnapshotOf(ht), enc, 0).None? ==> n == 0
    ensures Body(SnapshotOf(ht), enc, 0).Some? <==>
      forall i {:trigger ht.table[i]} :: 0 <= i < ht.cap && ht.table[i].hash != 0 ==>
        enc(ht.data[ht.table[i].dataIndex].data).Some?
    ensures Body(SnapshotOf(ht), enc, 0).Some? ==>
      && |at| == ht.cap + 1 && at[0] == |old(st.buf)| + 13 && at[ht.cap] == |st.buf|
      && forall i {:trigger ht.table[i]} :: 0 <= i < ht.cap ==>
        if ht.table[i].hash == 0 then at[i] == at[i + 1]
        else var de := ht.data[ht.table[i].dataIndex];
          enc(de.data).Some? && at[i] <= at[i + 1] <= |st.buf|
          && st.buf[at[i]..at[i + 1]] == Record(i, ht.table[i], de.key) + enc(de.data).value
  {
    hide *;
    SnapshotFacts(ht);
    Callbacks(ht, enc);
    ghost var s, buf0, header := SnapshotOf(ht), st.buf, Header(ht.cap, ht.flags, ht.size);
    WriteHeader(st, ht.cap, ht.flags, ht.size);
    HeaderSeen(buf0, ht.cap, ht.flags, ht.size);
    ghost var whole := if Body(s, enc, 0).Some? then st.buf + Body(s, enc, 0).value else st.buf;
    WritingStart(s, enc, st.buf);
    RecordsStart(s, enc, st.buf);
    n, at := 0, [|st.buf|];
    var i: nat := 0;
    while i < ht.cap
      invariant i <= ht.cap && st.Ok() && st.pos == old(st.pos) && Writing(s, enc, st.buf, whole, i, n)
      invariant Records(s, enc, st.buf, at, i) && at != [] && at[0] == |buf0| + 13 && buf0 + header <= st.buf
    {
      var e := ht.table[i];
      if !Occupied(e) {
        WritingSkip(s, enc, st.buf, whole, i, n);
        RecordsSkip(s, enc, st.buf, at, i);
      } else {
        var de := ht.data[e.dataIndex];
        WritingOne(s, enc, st.buf, whole, i, n, de.key, de.data);
        ghost var buf := st.buf;
        WriteRecord(st, i, e, de.key);
        var b := enc(de.data);
        if b.None? { return 0, at; }
        st.Write(b.value);
        RecordWritten(s, enc, buf, at, i, de.key, de.data);
        n := n + 1;
      }
      at := at + [|st.buf|];
      i := i + 1;
    }
    WritingEnd(ht.rawHash, s, ht.cells, enc, st.buf, whole, n);
    EncodedIs(s, enc, buf0);
    Layout(ht, enc, st.buf, at);
  }

  lemma HeaderSeen(buf: seq<u8>, cap: u32, flags: Flags, size: u32)
    ensures |Header(cap, flags, size)| == 13
    ensures buf + Header(cap, flags, size) == buf
      + [109, 114, 51] + [cap / 0x100_0000, cap / 0x1_0000 % 0x100, cap / 0x100 % 0x100, cap % 0x100]
      + [0, (if flags.rehash then 4 else 0) + (if flags.noreplace then 8 else 0)]
      + [size / 0x100_0000, size / 0x1_0000 % 0x100, size / 0x100 % 0x100, size % 0x100]
  {
    hide Header;
    HeaderBytes(cap, flags, size);
  }

  lemma EncodedIs<V>(s: Snapshot<V>, enc: Encoder<V>, buf: seq<u8>)
    requires |s.slots| <= 0x1_0000 && s.size <= 0x1_0000 && Body(s, enc, 0).Some?
    ensures buf + Header(|s.slots|, s.flags, s.size) + Body(s, enc, 0).value == buf + Encoded(s, enc)
  {}

  // ---- reading ----

  /** The table read so far holds the first `i` slots of the stored one, `n` of them occupied, and the
      rest of the stream is what the other slots wrote. */
  ghost predicate Loading<V>(s: Snapshot<V>, enc: Encoder<V>, u: seq<Entry>, c: seq<Option<(Key, Option<V>)>>,
                             stream: seq<u8>, rest: seq<u8>, i: nat, n: nat) {
    && i <= |s.slots| == |u| <= 0x1_0000 && |c| == |s.elems| && n + Content(s.slots[..i])[Free] == i
    && Body(s, enc, i).Some? && stream == Body(s, enc, i).value + rest
    && (forall k :: 0 <= k < i && Occupied(s.slots[k]) ==> u[k] == s.slots[k])
    && (forall k :: 0 <= k < |u| && (k >= i || !Occupied(s.slots[k])) ==> !Occupied(u[k]))
    && (forall j :: 0 <= j < |c| && c[j].Some? ==> c[j] == s.elems[j])
    && (forall k :: 0 <= k < i && Occupied(s.slots[k]) ==>
          s.slots[k].dataIndex < |c| && c[s.slots[k].dataIndex].Some?)
  }

  lemma LoadingStart<V>(s: Snapshot<V>, enc: Encoder<V>, u: seq<Entry>, c: seq<Option<(Key, Option<V>)>>, rest: seq<u8>)
    requires |s.slots| == |u| <= 0x1_0000 && |c| == |s.elems| && Body(s, enc, 0).Some?
    requires forall k :: 0 <= k < |u| ==> !Occupied(u[k])
    requires forall j :: 0 <= j < |c| ==> c[j].None?
    ensures Loading(s, enc, u, c, Body(s, enc, 0).value + rest, rest, 0, 0)
  {
    assert Cores(s.slots[..0]) == [];
  }

  lemma LoadingSkip<V>(s: Snapshot<V>, enc: Encoder<V>, u: seq<Entry>, c: seq<Option<(Key, Option<V>)>>,
                       stream: seq<u8>, rest: seq<u8>, i: nat, n: nat)
    requires Loading(s, enc, u, c, stream, rest, i, n) && i < |s.slots| && !Occupied(s.slots[i])
    ensures Loading(s, enc, u, c, stream, rest, i + 1, n)
  {
    hide Content;
    OneMore(s.slots, i);
  }

  /** As long as entries are missing, slots are. */
  lemma LoadingMore<V>(raw: Key -> u32, s: Snapshot<V>, m: map<Key, nat>, enc: Encoder<V>,
                       u: seq<Entry>, c: seq<Option<(Key, Option<V>)>>, stream: seq<u8>, rest: seq<u8>, i: nat, n: nat)
    requires Loading(s, enc, u, c, stream, rest, i, n) && State(raw, s.slots, Names(s.elems), m, s.size)
    ensures i <= |s.slots| && (n < s.size ==> i < |s.slots|)
    ensures n == s.size && i < |s.slots| ==> !Occupied(s.slots[i])
  {
    hide Content, Ordered, Linked, HasStop, Body;
    if i == |s.slots| {
      assert s.slots[..i] == s.slots;
    } else if Occupied(s.slots[i]) {
      OneMore(s.slots, i);
      PrefixFree(s.slots, i + 1);
    }
  }

  lemma {:induction false} LoadingNext<V>(raw: Key -> u32, s: Snapshot<V>, m: map<Key, nat>, enc: Encoder<V>,
                                          u: seq<Entry>, c: seq<Option<(Key, Option<V>)>>,
                                          stream: seq<u8>, rest: seq<u8>, i: nat, n: nat) returns (k: nat)
    requires Loading(s, enc, u, c, stream, rest, i, n) && n < s.size
    requires State(raw, s.slots, Names(s.elems), m, s.size)
    ensures k < |s.slots| && Occupied(s.slots[k]) && Loading(s, enc, u, c, stream, rest, k, n)
    decreases |s.slots| - i
  {
    hide Loading, State;
    LoadingMore(raw, s, m, enc, u, c, stream, rest, i, n);
    if Occupied(s.slots[i]) {
      k := i;
    } else {
      LoadingSkip(s, enc, u, c, stream, rest, i, n);
      k := LoadingNext(raw, s, m, enc, u, c, stream, rest, i + 1, n);
    }
  }

  /** The record of the next occupied slot stands at the head of the stream. */
  lemma LoadingRecord<V>(raw: Key -> u32, s: Snapshot<V>, m: map<Key, nat>, enc: Encoder<V>,
                         u: seq<Entry>, c: seq<Option<(Key, Option<V>)>>,
                         stream: seq<u8>, rest: seq<u8>, k: nat, n: nat)
    returns (key: Key, value: Option<V>, tail: seq<u8>)
    requires Loading(s, enc, u, c, stream, rest, k, n) && k < |s.slots| && Occupied(s.slots[k])
    requires State(raw, s.slots, Names(s.elems), m, s.size)
    ensures var e := s.slots[k];
            && e.dataIndex < |s.elems| && s.elems[e.dataIndex] == Some((key, value)) && enc(value).Some?
            && stream == Be32(k) + (Be32(e.hash) + (Be16(e.psl) + (Be16(e.klen) + (Be32(e.dataIndex)
                         + (key + (enc(value).value + tail))))))
            && |key| == e.klen
            && Loading(s, enc, u[k := e], c[e.dataIndex := Some((key, value))], tail, rest, k + 1, n + 1)
  {
    hide Linked, Content, Ordered, HasStop, IsPow2, SameUpTo;
    var e := s.slots[k];
    MatchFacts(raw, s.slots, Names(s.elems), m, [1], k);
    key, value := s.elems[e.dataIndex].value.0, s.elems[e.dataIndex].value.1;
    tail := Body(s, enc, k + 1).value + rest;
    OneMore(s.slots, k);
    RecordIs(k, e, key, enc(value).value, Body(s, enc, k + 1).value, rest);
  }

  lemma RecordIs(i: u32, e: Entry, key: Key, b: seq<u8>, body: seq<u8>, rest: seq<u8>)
    ensures Record(i, e, key) + b + body + rest
            == Be32(i) + (Be32(e.hash) + (Be16(e.psl) + (Be16(e.klen) + (Be32(e.dataIndex)
               + (key + (b + (body + rest)))))))
  {}

  /** Slots that agree where they are occupied carry the invariant over. */
  lemma SameSlots(t: seq<Entry>, u: seq<Entry>)
    requires |t| == |u| && Ordered(t) && HasStop(t)
    requires forall k :: 0 <= k < |t| ==> if Occupied(t[k]) then u[k] == t[k] else !Occupied(u[k])
    ensures Ordered(u) && HasStop(u) && Content(u) == Content(t)
  {
    assert Cores(u) == Cores(t);
    var z :| 0 <= z < |t| && IsStop(t[z]);
    assert IsStop(u[z]);
    forall i | 0 <= i < |u| && Occupied(u[i])
      ensures Fits(u, i, u[i])
    {
      assert Fits(t, i, t[i]);
    }
  }

  /** Every used cell belongs to a slot, so all of them have been read. */
  lemma LoadedCells<V>(raw: Key -> u32, s: Snapshot<V>, m: map<Key, nat>, enc: Encoder<V>,
                       u: seq<Entry>, c: seq<Option<(Key, Option<V>)>>, stream: seq<u8>, rest: seq<u8>, n: nat)
    requires Loading(s, enc, u, c, stream, rest, |s.slots|, n) && Linked(raw, s.slots, Names(s.elems), m)
    ensures c == s.elems
  {
    hide Content, Body;
    forall j | 0 <= j < |c|
      ensures c[j] == s.elems[j]
    {
      if s.elems[j].Some? {
        assert Names(s.elems)[j] == Some(s.elems[j].value.0);
        var p := KeyAt(raw, s.slots, Names(s.elems), m, s.elems[j].value.0);
      }
    }
  }

  /** Once every entry has been read, every slot and every cell is as it was stored. */
  lemma {:induction false} LoadingEnd<V>(raw: Key -> u32, s: Snapshot<V>, m: map<Key, nat>, enc: Encoder<V>,
                                         u: seq<Entry>, c: seq<Option<(Key, Option<V>)>>,
                                         stream: seq<u8>, rest: seq<u8>, i: nat)
    requires Loading(s, enc, u, c, stream, rest, i, s.size)
    requires State(raw, s.slots, Names(s.elems), m, s.size)
    ensures stream == rest && c == s.elems && |u| == |s.slots|
    ensures forall k :: 0 <= k < |u| ==> if Occupied(s.slots[k]) then u[k] == s.slots[k] else !Occupied(u[k])
    ensures State(raw, u, Names(s.elems), m, s.size)
    decreases |s.slots| - i
  {
    hide Content, Linked, Ordered, HasStop, Occupied, Names;
    LoadingMore(raw, s, m, enc, u, c, stream, rest, i, s.size);
    if i < |s.slots| {
      LoadingSkip(s, enc, u, c, stream, rest, i, s.size);
      LoadingEnd(raw, s, m, enc, u, c, stream, rest, i + 1);
    } else {
      LoadedCells(raw, s, m, enc, u, c, stream, rest, s.size);
      assert [] + rest == rest;
      SameSlots(s.slots, u);
      LinkedSame(raw, s.slots, Names(s.elems), m, u);
    }
  }

  lemma LinkedSame(raw: Key -> u32, t: seq<Entry>, d: seq<Option<Key>>, m: map<Key, nat>, u: seq<Entry>)
    requires Linked(raw, t, d, m) && Content(u) == Content(t)
    ensures Linked(raw, u, d, m)
  {}

  /** A prefix has no more free slots than the whole. */
  lemma {:induction false} PrefixFree(t: seq<Entry>, i: nat)
    requires i <= |t|
    ensures Content(t)[Free] <= Content(t[..i])[Free] + (|t| - i)
    decreases |t| - i
  {
    if i == |t| {
      assert t[..i] == t;
    } else {
      PrefixFree(t, i + 1);
      OneMore(t, i);
    }
  }

  /** The table under construction: arrays of the right size, nothing else settled yet. */
  ghost predicate Building<V(!new)>(ht: Table<V>, s: Snapshot<V>, enc: Encoder<V>,
                              stream: seq<u8>, rest: seq<u8>, i: nat, n: nat)
    reads ht, ht.table, ht.data, set j | 0 <= j < ht.data.Length && ht.data[j] != null :: ht.data[j]
  {
    && ht.cap == ht.dcap == ht.table.Length == ht.data.Length
    && ht.flags == s.flags.(nocpkey := false) && ht.size == s.size
    && Loading(s, enc, ht.table[..], ElemsOf(ht.data), stream, rest, i, n)
  }

  lemma BuildingStart<V(!new)>(ht: Table<V>, s: Snapshot<V>, enc: Encoder<V>, rest: seq<u8>)
    requires ht.cap == ht.dcap == ht.table.Length == ht.data.Length == |s.slots| == |s.elems| <= 0x1_0000
    requires ht.flags == s.flags.(nocpkey := false) && ht.size == s.size && Body(s, enc, 0).Some?
    requires forall k :: 0 <= k < ht.cap ==> !Occupied(ht.table[k])
    requires forall j :: 0 <= j < ht.cap ==> ht.data[j] == null
    ensures Building(ht, s, enc, Body(s, enc, 0).value + rest, rest, 0, 0)
  {
    LoadingStart(s, enc, ht.table[..], ElemsOf(ht.data), rest);
  }

  lemma BuildingNext<V(!new)>(ht: Table<V>, raw: Key -> u32, s: Snapshot<V>, m: map<Key, nat>,
                               enc: Encoder<V>, dec: Decoder<V>,
                        stream: seq<u8>, rest: seq<u8>, i: nat, n: nat)
    returns (k: nat, key: Key, value: Option<V>, tail: seq<u8>)
    requires Building(ht, s, enc, stream, rest, i, n) && n < s.size && Storable(raw, s, m) && Inverse(enc, dec)
    ensures k < ht.cap == ht.table.Length <= 0x1_0000 && k < |s.slots| && ht.data.Length == ht.dcap == ht.cap
    ensures var e := s.slots[k];
            && Occupied(e) && e.dataIndex < ht.data.Length && enc(value).Some? && |key| == e.klen <= 511
            && stream == Be32(k) + (Be32(e.hash) + (Be16(e.psl) + (Be16(e.klen) + (Be32(e.dataIndex)
                         + (key + (enc(value).value + tail))))))
            && dec(enc(value).value + tail) == (value, |enc(value).value|)
            && e.dataIndex < |ElemsOf(ht.data)|
            && Loading(s, enc, ht.table[..][k := e], ElemsOf(ht.data)[e.dataIndex := Some((key, value))],
                       tail, rest, k + 1, n + 1)
    ensures ht.flags == s.flags.(nocpkey := false) && ht.size == s.size
  {
    hide Loading, State, Inverse;
    k := LoadingNext(raw, s, m, enc, ht.table[..], ElemsOf(ht.data), stream, rest, i, n);
    key, value, tail := LoadingRecord(raw, s, m, enc, ht.table[..], ElemsOf(ht.data), stream, rest, k, n);
    UseInverse(enc, dec, value, tail);
    BuildingSizes(ht, s, enc, stream, rest, i, n);
  }

  lemma UseInverse<V(!new)>(enc: Encoder<V>, dec: Decoder<V>, value: Option<V>, rest: seq<u8>)
    requires Inverse(enc, dec) && enc(value).Some?
    ensures dec(enc(value).value + rest) == (value, |enc(value).value|)
  {}

  lemma BuildingSizes<V(!new)>(ht: Table<V>, s: Snapshot<V>, enc: Encoder<V>,
                         stream: seq<u8>, rest: seq<u8>, i: nat, n: nat)
    requires Building(ht, s, enc, stream, rest, i, n)
    ensures ht.cap == |s.slots| == |s.elems| <= 0x1_0000
  {}

  /** The element callback of the reader: it takes its bytes off the stream. */
  method ReadElement<V(!new)>(st: Stream, dec: Decoder<V>, ghost b: seq<u8>, ghost value: Option<V>,
                                ghost rest: seq<u8>)
    returns (r: Option<V>)
    requires st.Ok() && st.Rest() == b + rest && dec(b + rest) == (value, |b|)
    modifies st
    ensures st.Ok() && st.Rest() == rest && r == value
  {
    var (v, k) := dec(st.buf[st.pos..]);
    r := v;
    st.pos := st.pos + k;
    assert st.Rest() == (b + rest)[|b|..];
  }

  method ReadKey(st: Stream, n: nat, ghost key: Key, ghost rest: seq<u8>) returns (r: Key)
    requires st.Ok() && st.Rest() == key + rest && n == |key|
    modifies st
    ensures st.Ok() && st.Rest() == rest && r == key
  {
    var b := st.Read(n);
    assert b == (key + rest)[..n];
    assert st.Rest() == (key + rest)[n..];
    r := b;
  }

  /** One turn of the reading loop: the record goes into the slot and the cell that it names. */
  method ReadEntry<V(!new)>(ht: Table<V>, st: Stream, dec: Decoder<V>, ghost raw: Key -> u32, ghost s: Snapshot<V>,
                      ghost m: map<Key, nat>, ghost enc: Encoder<V>, ghost rest: seq<u8>, ghost i: nat, ghost n: nat)
    returns (ghost i': nat)
    requires st.Ok() && Building(ht, s, enc, st.Rest(), rest, i, n) && n < s.size
    requires Storable(raw, s, m) && Inverse(enc, dec)
    modifies st, ht.table, ht.data
    ensures st.Ok() && Building(ht, s, enc, st.Rest(), rest, i', n + 1)
  {
    hide *;
    ghost var k, key0, value0, tail := BuildingNext(ht, raw, s, m, enc, dec, st.Rest(), rest, i, n);
    ghost var u, c, e := ht.table[..], ElemsOf(ht.data), s.slots[k];
    ghost var r5 := key0 + (enc(value0).value + tail);
    ghost var r4 := Be32(e.dataIndex) + r5;
    ghost var r3 := Be16(e.klen) + r4;
    ghost var r2 := Be16(e.psl) + r3;
    ghost var r1 := Be32(e.hash) + r2;
    var index := ReadU32(st, k, r1);
    var hash := ReadU32(st, e.hash, r2);
    var psl := ReadU16(st, e.psl, r3);
    var klen := ReadU16(st, e.klen, r4);
    var dataIndex := ReadU32(st, e.dataIndex, r5);
    var key := ReadKey(st, klen, key0, enc(value0).value + tail);
    var value := ReadElement(st, dec, enc(value0).value, value0, tail);
    PutRecord(ht, index, Entry(hash, psl, klen, dataIndex), key, value);
    i' := k + 1;
    BuildingIs(ht, s, enc, st.Rest(), rest, i', n + 1);
  }

  lemma BuildingIs<V(!new)>(ht: Table<V>, s: Snapshot<V>, enc: Encoder<V>, stream: seq<u8>, rest: seq<u8>,
                            i: nat, n: nat)
    requires ht.cap == ht.dcap == ht.table.Length == ht.data.Length
    requires ht.flags == s.flags.(nocpkey := false) && ht.size == s.size
    requires Loading(s, enc, ht.table[..], ElemsOf(ht.data), stream, rest, i, n)
    ensures Building(ht, s, enc, stream, rest, i, n)
  {}

  method PutRecord<V(!new)>(ht: Table<V>, index: nat, e: Entry, key: Key, value: Option<V>)
    requires index < ht.table.Length && e.dataIndex < ht.data.Length
    modifies ht.table, ht.data
    ensures ht.table[..] == old(ht.table[..])[index := e]
    ensures ElemsOf(ht.data) == old(ElemsOf(ht.data))[e.dataIndex := Some((key, value))]
  {
    ghost var c := ElemsOf(ht.data);
    var de := new Dentry(key, value);
    ht.table[index] := e;
    ht.data[e.dataIndex] := de;
    assert forall j :: 0 <= j < ht.data.Length && j != e.dataIndex ==> ElemsOf(ht.data)[j] == c[j];
  }

  /** Slot by slot the table is the stored one: the same entries in the same slots, the same dentries in
      the same cells. */
  ghost predicate SameTable<V>(ht: Table<V>, s: Snapshot<V>)
    reads ht, ht.table, ht.data, set j | 0 <= j < ht.data.Length && ht.data[j] != null :: ht.data[j]
  {
    && ht.cap == ht.table.Length == |s.slots| && ht.size == s.size && ht.flags == s.flags.(nocpkey := false)
    && ElemsOf(ht.data) == s.elems
    && forall k :: 0 <= k < ht.cap ==>
         if Occupied(s.slots[k]) then ht.table[k] == s.slots[k] else !Occupied(ht.table[k])
  }

  lemma RestoreEnd<V(!new)>(ht: Table<V>, s: Snapshot<V>, m: map<Key,
                     nat>, enc: Encoder<V>, stream: seq<u8>, rest: seq<u8>, i: nat)
    requires Building(ht, s, enc, stream, rest, i, s.size) && Storable(ht.rawHash, s, m) && ht.cells == m
    ensures ht.Valid() && ht.HasCells() && SameTable(ht, s) && stream == rest
  {
    hide Loading, State;
    LoadingEnd(ht.rawHash, s, m, enc, ht.table[..], ElemsOf(ht.data), stream, rest, i);
    assert Names(ElemsOf(ht.data)) == KeysOf(ht.data);
    BuildingSizes(ht, s, enc, stream, rest, i, s.size);
    LoadHolds(ht, s, m);
  }

  lemma LoadHolds<V(!new)>(ht: Table<V>, s: Snapshot<V>, m: map<Key, nat>)
    requires Storable(ht.rawHash, s, m) && ht.size == s.size && ht.flags == s.flags.(nocpkey := false) && ht.cells == m
    requires ht.cap == ht.dcap == ht.table.Length == ht.data.Length == |s.slots|
    requires State(ht.rawHash, ht.table[..], KeysOf(ht.data), m, s.size)
    ensures ht.Valid() && ht.HasCells()
  {
    ht.LoadBound();
    ht.ValidFacts([1]);
  }

  lemma RestoreFacts<V(!new)>(raw: Key -> u32, s: Snapshot<V>, m: map<Key, nat>, enc: Encoder<V>, rest: seq<u8>)
    returns (body: seq<u8>)
    requires Storable(raw, s, m) && |s.slots| <= 0x1_0000 && s.size <= 0x1_0000 && Body(s, enc, 0).Some?
    ensures |s.slots| == |s.elems| <= 0x1_0000 && s.size <= 0x1_0000
    ensures Body(s, enc, 0).Some? && body == Body(s, enc, 0).value + rest
    ensures RoundUp(|s.slots|) == |s.slots|
    ensures FromFlagBits(FlagBits(s.flags.(nocpkey := false))) == s.flags.(nocpkey := false)
    ensures Encoded(s, enc) + rest
            == VERSION + (Be32(|s.slots|) + (Be16(FlagBits(s.flags.(nocpkey := false))) + (Be32(s.size) + body)))
  {
    body := Body(s, enc, 0).value + rest;
    CopyStart(|s.slots|);
    FlagsRoundTrip(s.flags.(nocpkey := false));
  }

  /** `n_oash_restore`: NULL unless the stream begins with the version; then, from a stored table, the
      same table slot by slot. The free-cell hint `dsize` starts at 0 whatever the table holds. */
  method Restore<V(!new)>(st: Stream, dec: Decoder<V>, raw: Key -> u32, ghost s: Snapshot<V>,
                          ghost m: map<Key, nat>, ghost enc: Encoder<V>, ghost rest: seq<u8>) returns (ht: Table?<V>)
    requires st.Ok()
    requires [109, 114, 51] <= st.Rest() ==>
               && Storable(raw, s, m) && Inverse(enc, dec) && |s.slots| <= 0x1_0000 && s.size <= 0x1_0000
               && Body(s, enc, 0).Some? && st.Rest() == Encoded(s, enc) + rest
    modifies st
    ensures st.Ok() && (ht != null <==> [109, 114, 51] <= old(st.Rest()))
    ensures ht != null ==> fresh(ht) && ht.rawHash == raw && ht.Valid() && ht.HasCells() && ht.cells == m
                           && SameTable(ht, s) && st.Rest() == rest
  {
    ghost var r0 := st.Rest();
    var v := st.Read(3);
    if |r0| >= 3 { assert r0[..3] == v; }
    if v != VERSION { return null; }
    ghost var body := RestoreFacts(raw, s, m, enc, rest);
    AfterVersion(r0, v, st.Rest(), s, body);
    ht := RestoreTable(st, dec, raw, s, m, enc, rest, body);
  }

  lemma AfterVersion<V>(r0: seq<u8>, v: seq<u8>, r1: seq<u8>, s: Snapshot<V>, body: seq<u8>)
    requires |s.slots| <= 0x1_0000 && s.size <= 0x1_0000
    requires r0 == v + r1 && v == VERSION
    requires r0 == VERSION + (Be32(|s.slots|) + (Be16(FlagBits(s.flags.(nocpkey := false))) + (Be32(s.size) + body)))
    ensures r1 == Be32(|s.slots|) + (Be16(FlagBits(s.flags.(nocpkey := false))) + (Be32(s.size) + body))
  {
    assert r0[3..] == r1;
  }

  method RestoreTable<V(!new)>(st: Stream, dec: Decoder<V>, raw: Key -> u32, ghost s: Snapshot<V>,
                               ghost m: map<Key, nat>, ghost enc: Encoder<V>, ghost rest: seq<u8>, ghost body: seq<u8>)
    returns (ht: Table<V>)
    requires st.Ok() && Storable(raw, s, m) && Inverse(enc, dec)
    requires |s.slots| == |s.elems| <= 0x1_0000 && s.size <= 0x1_0000 && RoundUp(|s.slots|) == |s.slots|
    requires Body(s, enc, 0).Some? && body == Body(s, enc, 0).value + rest
    requires FromFlagBits(FlagBits(s.flags.(nocpkey := false))) == s.flags.(nocpkey := false)
    requires st.Rest() == Be32(|s.slots|) + (Be16(FlagBits(s.flags.(nocpkey := false))) + (Be32(s.size) + body))
    modifies st
    ensures fresh(ht) && ht.rawHash == raw && ht.Valid() && ht.HasCells() && ht.cells == m
    ensures st.Ok() && SameTable(ht, s) && st.Rest() == rest
  {
    hide *;
    ht := RestoreHead(st, raw, s, m, enc, rest, body);
    ghost var i: nat := 0;
    var n: nat := 0;
    while n < ht.size
      invariant st.Ok() && fresh(ht) && fresh(ht.table) && fresh(ht.data) && ht.rawHash == raw && ht.cells == m
      invariant n <= ht.size == s.size && Building(ht, s, enc, st.Rest(), rest, i, n)
    {
      i := ReadEntry(ht, st, dec, raw, s, m, enc, rest, i, n);
      n := n + 1;
    }
    RestoreEnd(ht, s, m, enc, st.Rest(), rest, i);
  }

  /** The part of a restoration before the loop. */
  method RestoreHead<V(!new)>(st: Stream, raw: Key -> u32, ghost s: Snapshot<V>, ghost m: map<Key, nat>,
                              ghost enc: Encoder<V>, ghost rest: seq<u8>, ghost body: seq<u8>)
    returns (ht: Table<V>)
    requires st.Ok() && |s.slots| == |s.elems| <= 0x1_0000 && s.size <= 0x1_0000 && RoundUp(|s.slots|) == |s.slots|
    requires Body(s, enc, 0).Some? && body == Body(s, enc, 0).value + rest
    requires FromFlagBits(FlagBits(s.flags.(nocpkey := false))) == s.flags.(nocpkey := false)
    requires st.Rest() == Be32(|s.slots|) + (Be16(FlagBits(s.flags.(nocpkey := false))) + (Be32(s.size) + body))
    modifies st
    ensures fresh(ht) && fresh(ht.table) && fresh(ht.data) && ht.rawHash == raw && ht.cells == m && ht.size == s.size
    ensures st.Ok() && Building(ht, s, enc, st.Rest(), rest, 0, 0)
  {
    hide *;
    ghost var bits := FlagBits(s.flags.(nocpkey := false));
    var cap := ReadU32(st, |s.slots|, Be16(bits) + (Be32(s.size) + body));
    ht := new Table(raw, cap);
    EmptyTable(ht);
    var flags := ReadU16(st, bits, Be32(s.size) + body);
    ht.flags := FromFlagBits(flags);
    ht.size := ReadU32(st, s.size, body);
    ht.cells := m;
    BuildingStart(ht, s, enc, rest);
  }

  lemma EmptyTable<V(!new)>(ht: Table<V>)
    requires ht.Valid() && ht.cells == map[]
    ensures ht.cap == ht.dcap == ht.table.Length == ht.data.Length
    ensures forall k :: 0 <= k < ht.cap ==> !Occupied(ht.table[k])
    ensures forall j :: 0 <= j < ht.cap ==> ht.data[j] == null
  {
    ht.ValidFacts([1]);
    forall k | 0 <= k < ht.cap
      ensures !Occupied(ht.table[k])
    {
      if Occupied(ht.table[k]) {
        MatchFacts(ht.rawHash, ht.table[..], KeysOf(ht.data), ht.cells, [1], k);
        assert false;
      }
    }
    forall j | 0 <= j < ht.cap
      ensures ht.data[j] == null
    {
      if ht.data[j] != null {
        OwnKey(ht, j);
        assert false;
      }
    }
  }

  // ---- the round trip ----

  lemma StorableNow<V(!new)>(ht: Table<V>)
    requires ht.Valid() && forall k: Key :: k in ht.cells ==> |k| <= 511
    ensures Storable(ht.rawHash, SnapshotOf(ht), ht.cells)
  {
    hide State;
    SnapshotFacts(ht);
    ht.ValidFacts([1]);
    forall j | 0 <= j < ht.data.Length && ht.data[j] != null
      ensures ht.data[j].key in ht.cells
    {
      OwnKey(ht, j);
    }
  }

  lemma OwnKey<V(!new)>(ht: Table<V>, j: nat)
    requires ht.Valid() && j < ht.data.Length && ht.data[j] != null
    ensures ht.data[j].key in ht.cells && ht.cells[ht.data[j].key] == j
  {
    assert KeysOf(ht.data)[j] == Some(ht.data[j].key);
  }

  /** Storing a table and restoring it gives a second table that is the same slot by slot and maps the same
      keys to the same elements, so every lookup agrees. */
  method RoundTrip<V(!new)>(ht: Table<V>, enc: Encoder<V>, dec: Decoder<V>) returns (h: Table?<V>)
    requires ht.Valid() && ht.HasCells() && Inverse(enc, dec)
    requires forall k: Key :: k in ht.cells ==> |k| <= 511
    requires |ht.table[..]| <= 0x1_0000 && Body(SnapshotOf(ht), enc, 0).Some?
    ensures h != null && fresh(h) && h.Valid() && h.HasCells() && h.rawHash == ht.rawHash && h.cells == ht.cells
    ensures SameTable(h, old(SnapshotOf(ht)))
    ensures forall k :: k in ht.cells ==> k in h.View() && h.View()[k].data == old(ht.View()[k].data)
  {
    hide *;
    StorableNow(ht);
    SnapshotFacts(ht);
    ghost var s, m, raw := SnapshotOf(ht), ht.cells, ht.rawHash;
    ElementsAre(ht, s);
    ghost var w := map k | k in m :: ht.View()[k].data;
    var st := new Stream();
    var n, _ := Store(ht, st, enc);
    StartsRight(s, enc);
    RestIs(st);
    h := Restore(st, dec, ht.rawHash, s, m, enc, []);
    SameElements(h, s, w);
  }

  lemma RestIs(st: Stream)
    requires st.Ok() && st.pos == 0
    ensures st.Rest() == st.buf
  {}

  lemma StartsRight<V>(s: Snapshot<V>, enc: Encoder<V>)
    requires |s.slots| <= 0x1_0000 && s.size <= 0x1_0000 && Body(s, enc, 0).Some?
    ensures [109, 114, 51] <= Encoded(s, enc) && [] + Encoded(s, enc) == Encoded(s, enc) == Encoded(s, enc) + []
  {
    assert Header(|s.slots|, s.flags, s.size)[..3] == VERSION;
  }

  lemma ElementsAre<V(!new)>(ht: Table<V>, s: Snapshot<V>)
    requires ht.Valid() && ht.HasCells() && s == SnapshotOf(ht)
    ensures ht.View().Keys == ht.cells.Keys
    ensures forall k :: k in ht.cells ==>
              ht.cells[k] < |s.elems| && s.elems[ht.cells[k]] == Some((k, ht.View()[k].data))
  {
    ht.ValidFacts([1]);
    ht.CellFacts();
  }

  lemma SameElements<V(!new)>(h: Table<V>, s: Snapshot<V>, w: map<Key, Option<V>>)
    requires h.Valid() && h.HasCells() && SameTable(h, s) && w.Keys == h.cells.Keys
    requires forall k :: k in w ==> h.cells[k] < |s.elems| && s.elems[h.cells[k]] == Some((k, w[k]))
    ensures forall k :: k in w ==> k in h.View() && h.View()[k].data == w[k]
  {
    h.ValidFacts([1]);
    h.CellFacts();
  }
}
