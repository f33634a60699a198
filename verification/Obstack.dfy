/** The obstack: objects are carved out of a chain of chunks, the one being built may move when it
    outgrows its chunk, and freeing an object unwinds the chain by comparing addresses. */
module Obstack {
  import opened Words

  // ---- layout ----

  /** A chunk occupies the addresses from `base` to `limit`; its header takes the first 16. */
  datatype Chunk = Chunk(base: nat, limit: nat) {
    function Contents(): nat {
      base + 16
    }
  }

  /** A finished object, with the position of its chunk in the chain. */
  datatype Object = Object(chunk: nat, addr: nat, bytes: seq<u8>) {
    function End(): nat {
      addr + |bytes|
    }
  }

  predicate Away(a: Chunk, b: Chunk) {
    a.limit <= b.base || b.limit <= a.base
  }

  /** Live chunks, oldest first: large enough for their headers, and no two share an address. */
  ghost predicate Chain(chunks: seq<Chunk>, size: nat) {
    && (forall i :: 0 <= i < |chunks| ==> chunks[i].Contents() <= chunks[i].limit <= size)
    && (forall i, j :: 0 <= i < j < |chunks| ==> Away(chunks[i], chunks[j]))
  }

  /** The object lies in its chunk and, in the current one, below `top`. */
  ghost predicate Inside(chunks: seq<Chunk>, o: Object, top: nat) {
    && o.chunk < |chunks| && chunks[o.chunk].Contents() <= o.addr
    && o.End() <= (if o.chunk == |chunks| - 1 then top else chunks[o.chunk].limit)
  }

  predicate Older(a: Object, b: Object) {
    a.chunk < b.chunk || (a.chunk == b.chunk && a.End() <= b.addr)
  }

  /** The finished objects lie in the chunks in the order in which they were made. */
  ghost predicate Laid(chunks: seq<Chunk>, objects: seq<Object>, top: nat) {
    && chunks != [] && chunks[|chunks| - 1].Contents() <= top <= chunks[|chunks| - 1].limit
    && (forall i :: 0 <= i < |objects| ==> Inside(chunks, objects[i], top))
    && (forall i, j :: 0 <= i < j < |objects| ==> Older(objects[i], objects[j]))
  }

  ghost predicate Kept(m: seq<u8>, o: Object) {
    o.End() <= |m| && m[o.addr..o.End()] == o.bytes
  }

  ghost predicate Stored(m: seq<u8>, objects: seq<Object>) {
    forall i :: 0 <= i < |objects| ==> Kept(m, objects[i])
  }

  /** Every empty object in the current chunk is announced. */
  ghost predicate NoneEmpty(chunks: seq<Chunk>, objects: seq<Object>) {
    forall i :: 0 <= i < |objects| && objects[i].chunk + 1 == |chunks| ==> objects[i].bytes != []
  }

  /** The addresses of an object are its own: no other object, no header, and not the growing object. */
  lemma Separate(chunks: seq<Chunk>, objects: seq<Object>, top: nat, size: nat, i: nat, j: nat)
    requires Chain(chunks, size) && Laid(chunks, objects, top) && i < |objects| && j < |objects| && i != j
    ensures objects[i].End() <= objects[j].addr || objects[j].End() <= objects[i].addr
    ensures forall k :: 0 <= k < |chunks| ==>
      objects[i].End() <= chunks[k].base || chunks[k].Contents() <= objects[i].addr
  {
    var a, b := objects[i], objects[j];
    assert Inside(chunks, a, top) && Inside(chunks, b, top);
    assert if i < j then Older(a, b) else Older(b, a);
    if a.chunk != b.chunk {
      assert Away(chunks[a.chunk], chunks[b.chunk]) || Away(chunks[b.chunk], chunks[a.chunk]);
    }
    forall k | 0 <= k < |chunks|
      ensures a.End() <= chunks[k].base || chunks[k].Contents() <= a.addr
    {
      if a.chunk != k {
        assert Away(chunks[a.chunk], chunks[k]) || Away(chunks[k], chunks[a.chunk]);
      }
    }
  }

  /** Writes above the finished objects of the current chunk, or outside all chunks, change none. */
  lemma Untouched(chunks: seq<Chunk>, objects: seq<Object>, top: nat, m: seq<u8>, m': seq<u8>, lo: nat, hi: nat)
    requires Chain(chunks, |m|) && Laid(chunks, objects, top) && Stored(m, objects) && |m'| == |m|
    requires forall a :: 0 <= a < |m| && !(lo <= a < hi) ==> m'[a] == m[a]
    requires (top <= lo && hi <= chunks[|chunks| - 1].limit)
      || forall k :: 0 <= k < |chunks| ==> hi <= chunks[k].base || chunks[k].limit <= lo
    ensures Stored(m', objects)
  {
    forall i | 0 <= i < |objects|
      ensures Kept(m', objects[i])
    {
      var o := objects[i];
      assert Inside(chunks, o, top) && Kept(m, o);
      if o.chunk < |chunks| - 1 {
        assert Away(chunks[o.chunk], chunks[|chunks| - 1]);
      }
      assert m'[o.addr..o.End()] == m[o.addr..o.End()];
    }
  }

  /** The objects of a chain that may be followed by a fresh chunk: none of them is cut at a top. */
  ghost predicate Settled(chunks: seq<Chunk>, objects: seq<Object>) {
    && (forall i :: 0 <= i < |objects| ==>
          objects[i].chunk < |chunks| && chunks[objects[i].chunk].Contents() <= objects[i].addr
          && objects[i].End() <= chunks[objects[i].chunk].limit)
    && (forall i, j :: 0 <= i < j < |objects| ==> Older(objects[i], objects[j]))
  }

  /** If the growing object starts its chunk and no empty object is announced, nothing else is in it. */
  lemma Deserted(chunks: seq<Chunk>, objects: seq<Object>, top: nat)
    requires Laid(chunks, objects, top) && NoneEmpty(chunks, objects) && top == chunks[|chunks| - 1].Contents()
    ensures Settled(chunks[..|chunks| - 1], objects)
  {
    forall i | 0 <= i < |objects|
      ensures objects[i].chunk < |chunks| - 1
    {
      assert Inside(chunks, objects[i], top);
    }
    forall i | 0 <= i < |objects|
      ensures chunks[objects[i].chunk].Contents() <= objects[i].addr
      ensures objects[i].End() <= chunks[objects[i].chunk].limit
    {
      assert Inside(chunks, objects[i], top);
    }
  }

  lemma Extended(chunks: seq<Chunk>, objects: seq<Object>, chunk: Chunk, size: nat)
    requires Settled(chunks, objects) && Chain(chunks, size) && chunk.Contents() <= chunk.limit <= size
    requires forall k :: 0 <= k < |chunks| ==> Away(chunks[k], chunk)
    ensures Chain(chunks + [chunk], size) && Laid(chunks + [chunk], objects, chunk.Contents())
    ensures NoneEmpty(chunks + [chunk], objects)
  {
    var all := chunks + [chunk];
    forall i | 0 <= i < |objects|
      ensures Inside(all, objects[i], chunk.Contents())
    {
      assert all[objects[i].chunk] == chunks[objects[i].chunk];
    }
  }

  lemma Closed(chunks: seq<Chunk>, objects: seq<Object>, top: nat, chunk: Chunk, size: nat)
    requires Laid(chunks, objects, top) && Chain(chunks, size) && chunk.Contents() <= chunk.limit <= size
    requires forall k :: 0 <= k < |chunks| ==> Away(chunks[k], chunk)
    ensures Chain(chunks + [chunk], size) && Laid(chunks + [chunk], objects, chunk.Contents())
    ensures NoneEmpty(chunks + [chunk], objects)
  {
    forall i | 0 <= i < |objects|
      ensures objects[i].chunk < |chunks| && chunks[objects[i].chunk].Contents() <= objects[i].addr
      ensures objects[i].End() <= chunks[objects[i].chunk].limit
    {
      assert Inside(chunks, objects[i], top);
    }
    Extended(chunks, objects, chunk, size);
  }

  lemma Current(chunks: seq<Chunk>, objects: seq<Object>, top: nat, size: nat)
    requires Chain(chunks, size) && Laid(chunks, objects, top)
    ensures chunks != [] && chunks[|chunks| - 1].Contents() <= top <= chunks[|chunks| - 1].limit <= size
  {}

  /** A fresh chunk behind the chain, or in the place of a deserted last chunk. */
  lemma Replacement(chunks: seq<Chunk>, objects: seq<Object>, top: nat, chunk: Chunk, size: nat)
    requires Laid(chunks, objects, top) && Chain(chunks, size) && chunk.Contents() <= chunk.limit <= size
    requires forall k :: 0 <= k < |chunks| ==> Away(chunks[k], chunk)
    ensures chunks != [] && Chain(chunks + [chunk], size) && Laid(chunks + [chunk], objects, chunk.Contents())
    ensures NoneEmpty(chunks + [chunk], objects)
    ensures var rest := chunks[..|chunks| - 1];
      NoneEmpty(chunks, objects) && top == chunks[|chunks| - 1].Contents() ==>
        && Chain(rest + [chunk], size) && Laid(rest + [chunk], objects, chunk.Contents())
        && NoneEmpty(rest + [chunk], objects)
  {
    Closed(chunks, objects, top, chunk, size);
    if NoneEmpty(chunks, objects) && top == chunks[|chunks| - 1].Contents() {
      Deserted(chunks, objects, top);
      Extended(chunks[..|chunks| - 1], objects, chunk, size);
    }
  }

  /** A finished object lies on top of the older ones. */
  lemma Finished(chunks: seq<Chunk>, objects: seq<Object>, top: nat, o: Object, next: nat, m: seq<u8>)
    requires Chain(chunks, |m|) && Laid(chunks, objects, top) && Stored(m, objects)
    requires o.chunk == |chunks| - 1 && o.addr == top && o.End() <= next <= chunks[|chunks| - 1].limit
    requires m[top..o.End()] == o.bytes
    ensures Laid(chunks, objects + [o], next) && Stored(m, objects + [o])
    ensures NoneEmpty(chunks, objects) && o.bytes != [] ==> NoneEmpty(chunks, objects + [o])
  {
    var all := objects + [o];
    forall i | 0 <= i < |all|
      ensures Inside(chunks, all[i], next) && Kept(m, all[i])
    {
      if i < |objects| { assert Inside(chunks, objects[i], top) && Kept(m, objects[i]); }
    }
    forall i, j | 0 <= i < j < |all|
      ensures Older(all[i], all[j])
    {
      assert Inside(chunks, objects[i], top);
      if j < |objects| { assert Older(objects[i], objects[j]); }
    }
  }

  lemma Behind(m: seq<u8>, m': seq<u8>, lo: nat, mid: nat, data: seq<u8>)
    requires lo <= mid && mid + |data| <= |m| == |m'| && forall a :: lo <= a < mid ==> m'[a] == m[a]
    requires forall a :: mid <= a < mid + |data| ==> m'[a] == data[a - mid]
    ensures m'[lo..mid + |data|] == m[lo..mid] + data
  {}

  lemma Longer(m: seq<u8>, lo: nat, mid: nat, hi: nat)
    requires lo <= mid <= |m| && lo <= hi <= |m|
    ensures if mid <= hi then m[lo..mid] <= m[lo..hi] else m[lo..hi] <= m[lo..mid]
  {
    if mid <= hi {
      assert m[lo..hi][..mid - lo] == m[lo..mid];
    } else {
      assert m[lo..mid][..hi - lo] == m[lo..hi];
    }
  }

  lemma FewerEmpty(chunks: seq<Chunk>, objects: seq<Object>, keep: nat)
    requires keep <= |objects|
    ensures NoneEmpty(chunks, objects) ==> NoneEmpty(chunks, objects[..keep])
  {}

  lemma Prefix(m: seq<u8>, objects: seq<Object>, keep: nat)
    requires Stored(m, objects) && keep <= |objects|
    ensures Stored(m, objects[..keep])
  {}

  /** The chunk that an address-only search takes the address to belong to. */
  predicate Holds(c: Chunk, addr: nat) {
    c.base < addr <= c.limit
  }

  /** No other chunk is mistaken for the one of an object, even of an empty one at the very end of its
      chunk where another chunk begins. */
  lemma OnlyItsChunk(chunks: seq<Chunk>, objects: seq<Object>, top: nat, size: nat, i: nat, k: nat)
    requires Chain(chunks, size) && Laid(chunks, objects, top) && i < |objects| && k < |chunks|
    ensures Holds(chunks[k], objects[i].addr) <==> k == objects[i].chunk
  {
    var o := objects[i];
    assert Inside(chunks, o, top);
    if k != o.chunk {
      assert Away(chunks[o.chunk], chunks[k]) || Away(chunks[k], chunks[o.chunk]);
    }
  }

  /** Cutting the chain behind the chunk of an object, and that chunk at the object, keeps the older ones. */
  lemma Unwound(chunks: seq<Chunk>, objects: seq<Object>, top: nat, size: nat, i: nat)
    requires Chain(chunks, size) && Laid(chunks, objects, top) && i < |objects|
    ensures var k := objects[i].chunk;
      k < |chunks| && Chain(chunks[..k + 1], size) && Laid(chunks[..k + 1], objects[..i], objects[i].addr)
  {
    var o := objects[i];
    assert Inside(chunks, o, top);
    var rest := chunks[..o.chunk + 1];
    forall j | 0 <= j < i
      ensures Inside(rest, objects[..i][j], o.addr)
    {
      assert Inside(chunks, objects[j], top) && Older(objects[j], o);
    }
    forall j, j' | 0 <= j < j' < i
      ensures Older(objects[..i][j], objects[..i][j'])
    {
      assert Older(objects[j], objects[j']);
    }
  }

  /** Rounds an address up with a mask, as the macro that finishes an object does. */
  function AlignUp(addr: nat, mask: nat): (r: nat)
    ensures addr <= r
  {
    addr + mask - BitAnd(addr + mask, mask)
  }

  predicate Aligned(addr: nat, mask: nat) {
    addr % (mask + 1) == 0
  }

  lemma AlignUpAligns(addr: nat, mask: nat)
    requires IsPow2(mask + 1)
    ensures Aligned(AlignUp(addr, mask), mask) && AlignUp(addr, mask) % (mask + 1) == 0
    ensures addr <= AlignUp(addr, mask) <= addr + mask
  {
    hide BitAnd, IsPow2;
    MaskIsRemainder(addr + mask, mask + 1);
    Rounded(addr + mask, mask + 1);
  }

  /** Rounding up stops at the first aligned address. */
  lemma AlignUpFirst(addr: nat, mask: nat)
    requires IsPow2(mask + 1)
    ensures forall a :: addr <= a < AlignUp(addr, mask) ==> !Aligned(a, mask)
  {
    hide BitAnd, IsPow2;
    var x, n := addr + mask, mask + 1;
    MaskIsRemainder(x, n);
    forall a | addr <= a < AlignUp(addr, mask)
      ensures !Aligned(a, mask)
    {
      if a % n == 0 { Multiples(a, x, n); }
    }
  }

  lemma Times(n: nat, j: nat, k: nat)
    requires j <= k
    ensures n * j <= n * k
  {
    assert n * k == n * j + n * (k - j);
  }

  lemma Multiples(a: nat, x: nat, n: nat)
    requires n > 0 && a % n == 0 && a < x - x % n
    ensures a + n <= x - x % n
  {
    var j, k := a / n, x / n;
    assert a == n * j && x - x % n == n * k;
    assert j < k by {
      if j >= k { Times(n, k, j); }
    }
    Times(n, j + 1, k);
  }

  lemma Rounded(x: nat, n: nat)
    requires n > 0
    ensures (x - x % n) % n == 0
  {
    assert x - x % n == n * (x / n) + 0;
    RemainderUnique(n, x / n, 0);
  }

  /** The size of the chunk that replaces a full one. */
  function NewSize(growing: nat, length: nat, chunkSize: nat): (r: nat)
    ensures r >= chunkSize && r >= growing + length + 100
  {
    var size := growing + length + growing / 8 + 100;
    if size < chunkSize then chunkSize else size
  }

  class Obstack {
    const mem: array<u8>
    const chunkSize: nat
    const alignmentMask: nat
    var chunks: seq<Chunk>
    var objectBase: nat
    var nextFree: nat
    var chunkLimit: nat
    var maybeEmptyObject: bool
    var allocFailed: bool
    ghost var objects: seq<Object>

    ghost predicate Valid()
      reads this, mem
    {
      && Chain(chunks, mem.Length) && Laid(chunks, objects, objectBase) && Stored(mem[..], objects)
      && objectBase <= nextFree <= chunkLimit == chunks[|chunks| - 1].limit
      && (!maybeEmptyObject ==> NoneEmpty(chunks, objects)) && IsPow2(alignmentMask + 1)
    }

    /** The object being built. */
    ghost function Growing(): seq<u8>
      reads this`objectBase, this`nextFree, mem
    {
      if objectBase <= nextFree <= mem.Length then mem[objectBase..nextFree] else []
    }

    /** Every finished object stands in its chunk, behind the header, and has its bytes. */
    lemma Stands(i: nat)
      requires Valid() && i < |objects|
      ensures var o := objects[i];
        && o.chunk < |chunks| && chunks[o.chunk].base + 16 <= o.addr && o.addr + |o.bytes| <= chunks[o.chunk].limit
        && o.addr + |o.bytes| <= mem.Length && mem[o.addr..o.addr + |o.bytes|] == o.bytes
    {
      var o := objects[i];
      assert Inside(chunks, o, objectBase) && Kept(mem[..], o);
    }

    /** What the chunk function promises: a refusal, or addresses that nothing live uses. */
    ghost predicate Placed(place: Option<nat>, size: nat)
      reads this`chunks
    {
      place.Some? ==>
        place.value + size <= mem.Length
        && forall k :: 0 <= k < |chunks| ==> Away(chunks[k], Chunk(place.value, place.value + size))
    }

    /** Starts an obstack; zero asks for the default size or alignment. */
    constructor Begin(mem: array<u8>, size: nat, alignment: nat, place: Option<nat>)
      requires size == 0 || size >= 16
      requires alignment == 0 || IsPow2(alignment)
      requires place.Some? ==> place.value + (if size == 0 then 4072 else size) <= mem.Length
      ensures this.mem == mem && allocFailed == place.None? && objects == []
      ensures place.Some? ==> Valid() && Growing() == [] && !maybeEmptyObject
      ensures place.Some? ==> chunks == [Chunk(place.value, place.value + if size == 0 then 4072 else size)]
      ensures place.Some? ==> nextFree == objectBase == place.value + 16 && chunkLimit == chunks[0].limit
      ensures chunkSize == (if size == 0 then 4072 else size)
      ensures alignmentMask == (if alignment == 0 then 8 else alignment) - 1
    {
      this.mem := mem;
      var mask := (if alignment == 0 then 8 else alignment) - 1;
      var bytes := if size == 0 then 4072 else size;
      chunkSize, alignmentMask, objects := bytes, mask, [];
      objectBase, nextFree, chunkLimit, maybeEmptyObject, allocFailed, chunks := 0, 0, 0, false, place.None?, [];
      if place.Some? {
        chunks := [Chunk(place.value, place.value + bytes)];
        objectBase, nextFree := place.value + 16, place.value + 16;
        chunkLimit := place.value + bytes;
      }
      new;
      assert IsPow2(4) && IsPow2(8);
    }

    /** The bytes of `from + lo` up to `from + hi`, as they were, are now also at `to + lo`. */
    twostate predicate Copied(from: nat, to: nat, lo: nat, hi: nat)
      requires to + hi <= mem.Length && from + hi <= mem.Length
      reads mem
    {
      && (forall a :: to + lo <= a < to + hi ==> mem[a] == old(mem[a - to + from]))
      && (forall a :: 0 <= a < mem.Length && !(to + lo <= a < to + hi) ==> mem[a] == old(mem[a]))
    }

    /** Copies whole units of four bytes, last one first. */
    method CopyUnits(from: nat, to: nat, units: nat)
      requires from + 4 * units <= mem.Length && to + 4 * units <= mem.Length
      requires from + 4 * units <= to || to + 4 * units <= from
      modifies mem
      ensures Copied(from, to, 0, 4 * units)
    {
      var i := units;
      while i > 0
        invariant 0 <= i <= units && Copied(from, to, 4 * i, 4 * units)
      {
        i := i - 1;
        mem[to + 4 * i], mem[to + 4 * i + 1], mem[to + 4 * i + 2], mem[to + 4 * i + 3] :=
          mem[from + 4 * i], mem[from + 4 * i + 1], mem[from + 4 * i + 2], mem[from + 4 * i + 3];
      }
    }

    /** Copies an object between disjoint places: whole units if the alignment allows, then the rest. */
    method CopyObject(from: nat, to: nat, size: nat)
      requires from + size <= mem.Length && to + size <= mem.Length && (from + size <= to || to + size <= from)
      modifies mem
      ensures mem[to..to + size] == old(mem[from..from + size])
      ensures forall a :: 0 <= a < mem.Length && !(to <= a < to + size) ==> mem[a] == old(mem[a])
    {
      var already := 0;
      if alignmentMask + 1 >= 8 {
        CopyUnits(from, to, size / 4);
        already := size / 4 * 4;
      }
      var i := already;
      while i < size
        invariant already <= i <= size && Copied(from, to, 0, i)
      {
        mem[to + i] := mem[from + i];
        i := i + 1;
      }
    }

    /** Moves the growing object to a new chunk with room for `length` more bytes. The old chunk is freed
        if nothing else can be in it. */
    method NewChunk(length: nat, place: Option<nat>)
      requires Valid() && Placed(place, NewSize(nextFree - objectBase, length, chunkSize))
      modifies this`chunks, this`objectBase, this`nextFree, this`chunkLimit, this`maybeEmptyObject, this`allocFailed
      modifies mem
      ensures Valid() && Growing() == old(Growing()) && allocFailed == place.None?
      ensures place.None? ==> unchanged(`chunks, `objectBase, `nextFree, `chunkLimit, `maybeEmptyObject, mem)
      ensures place.Some? ==>
        var kept := if old(objectBase == chunks[|chunks| - 1].Contents() && !maybeEmptyObject)
          then old(chunks[..|chunks| - 1]) else old(chunks);
        && chunks == kept + [Chunk(place.value, place.value + NewSize(old(nextFree - objectBase), length, chunkSize))]
        && objectBase == place.value + 16 && nextFree + length <= chunkLimit
      ensures place.Some? ==>
        var size := old(nextFree - objectBase);
        var wanted := size + length + size / 8 + 100;
        chunkLimit == place.value + (if wanted < chunkSize then chunkSize else wanted) && !maybeEmptyObject
    {
      hide Chain, Laid, Stored, NoneEmpty, Settled, IsPow2, Away, Inside, Older;
      var size := nextFree - objectBase;
      var newSize := NewSize(size, length, chunkSize);
      if place.None? {
        allocFailed := true;
        return;
      }
      allocFailed := false;
      var chunk := Chunk(place.value, place.value + newSize);
      Current(chunks, objects, objectBase, mem.Length);
      Replacement(chunks, objects, objectBase, chunk, mem.Length);
      Move(chunk, size);
      var kept := if objectBase == chunks[|chunks| - 1].Contents() && !maybeEmptyObject
        then chunks[..|chunks| - 1] else chunks;
      chunks := kept + [chunk];
      chunkLimit := chunk.limit;
      objectBase := chunk.Contents();
      nextFree := objectBase + size;
      maybeEmptyObject := false;
    }

    /** Copies the growing object to the front of a chunk of its own. */
    method Move(chunk: Chunk, size: nat)
      requires Valid() && size == nextFree - objectBase && chunk.Contents() + size <= chunk.limit <= mem.Length
      requires forall k :: 0 <= k < |chunks| ==> Away(chunks[k], chunk)
      modifies mem
      ensures Stored(mem[..], objects)
      ensures mem[chunk.Contents()..chunk.Contents() + size] == old(mem[objectBase..nextFree])
    {
      hide Stored, NoneEmpty, IsPow2;
      assert Away(chunks[|chunks| - 1], chunk);
      CopyObject(objectBase, chunk.Contents(), size);
      Untouched(chunks, objects, objectBase, old(mem[..]), mem[..], chunk.base, chunk.limit);
    }

    // ---- building an object ----

    /** Room for `length` more bytes without a new chunk. */
    predicate Fits(length: int)
      reads this`nextFree, this`chunkLimit
    {
      nextFree + length <= chunkLimit
    }

    /** The chunks after room for `length` more bytes has been made: the same if there is room, and otherwise
        with a new one, which takes the place of the last if nothing but the growing object is in that. */
    ghost function ChunksFor(length: int, place: Option<nat>): seq<Chunk>
      requires length >= 0 || Fits(length)
      reads this`chunks, this`objectBase, this`nextFree, this`chunkLimit, this`maybeEmptyObject
    {
      if Fits(length) || place.None? || chunks == [] || nextFree < objectBase then chunks
      else
        (if objectBase == chunks[|chunks| - 1].Contents() && !maybeEmptyObject then chunks[..|chunks| - 1] else chunks)
          + [Chunk(place.value, place.value + NewSize(nextFree - objectBase, length, chunkSize))]
    }

    lemma ChunksAre(length: nat, place: Option<nat>)
      requires Valid()
      ensures place.Some? && !Fits(length) ==>
        var kept := if objectBase == chunks[|chunks| - 1].Contents() && !maybeEmptyObject
          then chunks[..|chunks| - 1] else chunks;
        ChunksFor(length, place) == kept
          + [Chunk(place.value, place.value + NewSize(nextFree - objectBase, length, chunkSize))]
    {
      hide Laid, Stored, NoneEmpty, IsPow2, NewSize;
      Current(chunks, objects, objectBase, mem.Length);
    }

    /** Where the growing object is after that. */
    ghost function BaseFor(length: int, place: Option<nat>): nat
      reads this`objectBase, this`nextFree, this`chunkLimit
    {
      if Fits(length) || place.None? then objectBase else place.value + 16
    }

    /** Makes room. An earlier failure is only forgotten when a new chunk is allocated. */
    method Reserve(length: nat, place: Option<nat>)
      requires Valid() && Placed(place, NewSize(nextFree - objectBase, length, chunkSize))
      modifies this`chunks, this`objectBase, this`nextFree, this`chunkLimit, this`maybeEmptyObject, this`allocFailed
      modifies mem
      ensures Valid() && Growing() == old(Growing())
      ensures allocFailed == if old(Fits(length)) then old(allocFailed) else place.None?
      ensures !allocFailed ==> Fits(length)
      ensures chunks == old(ChunksFor(length, place)) && objectBase == old(BaseFor(length, place))
      ensures maybeEmptyObject == old(maybeEmptyObject && (Fits(length) || place.None?))
      ensures old(Fits(length)) || place.None? ==>
                unchanged(`chunks, `objectBase, `nextFree, `chunkLimit, `maybeEmptyObject, mem)
    {
      hide Chain, Laid, Stored, NoneEmpty, NewSize;
      ChunksAre(length, place);
      if nextFree + length > chunkLimit {
        NewChunk(length, place);
      }
    }

    /** Appends bytes to the growing object. */
    method Grow(data: seq<u8>, place: Option<nat>)
      requires Valid() && Placed(place, NewSize(nextFree - objectBase, |data|, chunkSize))
      modifies this`chunks, this`objectBase, this`nextFree, this`chunkLimit, this`maybeEmptyObject, this`allocFailed
      modifies mem
      ensures Valid() && Growing() == old(Growing()) + (if allocFailed then [] else data)
      ensures allocFailed == if old(Fits(|data|)) then old(allocFailed) else place.None?
      ensures allocFailed ==> unchanged(`chunks, `objectBase, `nextFree, `chunkLimit, mem)
      ensures chunks == old(ChunksFor(|data|, place)) && objectBase == old(BaseFor(|data|, place))
      ensures maybeEmptyObject == old(maybeEmptyObject && (Fits(|data|) || place.None?))
      ensures old(Fits(|data|)) ==> unchanged(`chunks, `objectBase, `chunkLimit)
    {
      hide Chain, Laid, Stored, NoneEmpty, IsPow2, Placed, NewSize, ChunksFor, BaseFor;
      Reserve(|data|, place);
      if !allocFailed {
        Current(chunks, objects, objectBase, mem.Length);
        Fill(data);
        nextFree := nextFree + |data|;
      }
    }

    /** A refused request is still felt by the next one, although that fits. */
    method FailureSticks(big: seq<u8>, small: seq<u8>)
      requires Valid() && !Fits(|big|) && Fits(|small|)
      modifies this`chunks, this`objectBase, this`nextFree, this`chunkLimit, this`maybeEmptyObject, this`allocFailed
      modifies mem
      ensures Valid() && allocFailed && Fits(|small|) && Growing() == old(Growing())
      ensures unchanged(`chunks, `objectBase, `nextFree, `chunkLimit, mem)
    {
      hide Valid, Growing;
      Grow(big, None);
      Grow(small, None);
    }

    /** Writes bytes behind the growing object. */
    method Fill(data: seq<u8>)
      requires Valid() && Fits(|data|)
      modifies mem
      ensures Valid() && objectBase <= nextFree && nextFree + |data| <= mem.Length
      ensures mem[objectBase..nextFree + |data|] == old(mem[objectBase..nextFree]) + data
    {
      hide Stored, NoneEmpty, IsPow2;
      Current(chunks, objects, objectBase, mem.Length);
      var i := 0;
      while i < |data|
        invariant 0 <= i <= |data|
        invariant forall a :: nextFree <= a < nextFree + i ==> mem[a] == data[a - nextFree]
        invariant forall a :: 0 <= a < mem.Length && !(nextFree <= a < nextFree + i) ==> mem[a] == old(mem[a])
      {
        mem[nextFree + i] := data[i];
        i := i + 1;
      }
      Untouched(chunks, objects, objectBase, old(mem[..]), mem[..], nextFree, nextFree + |data|);
      Behind(old(mem[..]), mem[..], objectBase, nextFree, data);
    }

    lemma Ends()
      requires Valid()
      ensures objectBase <= nextFree <= chunkLimit <= mem.Length && Growing() == mem[..][objectBase..nextFree]
    {
      hide Laid, Stored, NoneEmpty, IsPow2;
      Current(chunks, objects, objectBase, mem.Length);
    }

    /** Moves the end of the growing object, within the chunk. */
    method MoveEnd(length: int)
      requires Valid() && 0 <= |Growing()| + length && nextFree + length <= chunkLimit
      modifies this`nextFree
      ensures Valid() && |Growing()| == |old(Growing())| + length
      ensures if length < 0 then Growing() <= old(Growing()) else old(Growing()) <= Growing()
    {
      hide Chain, Laid, Stored, NoneEmpty, IsPow2;
      Ends();
      Longer(mem[..], objectBase, nextFree, nextFree + length);
      nextFree := nextFree + length;
    }

    /** Lengthens the growing object by bytes of any value; a negative length shortens it, unless an
        allocation has failed before. */
    method Blank(length: int, place: Option<nat>)
      requires Valid() && 0 <= |Growing()| + length
      requires length >= 0 ==> Placed(place, NewSize(nextFree - objectBase, length, chunkSize))
      modifies this`chunks, this`objectBase, this`nextFree, this`chunkLimit, this`maybeEmptyObject, this`allocFailed
      modifies mem
      ensures Valid() && |Growing()| == |old(Growing())| + if allocFailed then 0 else length
      ensures if length < 0 then Growing() <= old(Growing()) else old(Growing()) <= Growing()
      ensures allocFailed == if old(Fits(length)) then old(allocFailed) else place.None?
      ensures length < 0 ==> old(Fits(length))
      ensures chunks == old(ChunksFor(length, place)) && objectBase == old(BaseFor(length, place))
      ensures maybeEmptyObject == old(maybeEmptyObject && (Fits(length) || place.None?))
      ensures old(Fits(length)) ==> unchanged(`chunks, `objectBase, `chunkLimit, mem)
    {
      hide Valid, Growing, Placed, NewSize;
      Ends();
      if length >= 0 { ChunksAre(length, place); }
      if chunkLimit - nextFree < length {
        NewChunk(length, place);
      }
      if !allocFailed {
        MoveEnd(length);
      }
    }

    /** The next object begins behind `end`, at the first aligned address or at the limit. */
    ghost predicate Starts(end: nat)
      reads this`nextFree, this`objectBase, this`chunkLimit
    {
      && end <= objectBase == nextFree <= end + alignmentMask
      && (objectBase % (alignmentMask + 1) == 0 || objectBase == chunkLimit)
      && forall a :: end <= a < objectBase ==> !Aligned(a, alignmentMask)
    }

    /** The growing object becomes a finished one and will stay where it is. */
    method Finish() returns (value: Option<nat>)
      requires Valid()
      modifies this`objectBase, this`nextFree, this`maybeEmptyObject, this`objects
      ensures Valid()
      ensures value == if allocFailed then None else Some(old(objectBase))
      ensures allocFailed ==> unchanged(this)
      ensures !allocFailed ==>
        && objects == old(objects) + [Object(|chunks| - 1, old(objectBase), old(Growing()))] && Growing() == []
        && old(nextFree) == old(objectBase) + |old(Growing())|
        && old(nextFree) <= objectBase == nextFree <= old(nextFree) + alignmentMask
        && (Aligned(objectBase, alignmentMask) || objectBase == chunkLimit)
        && forall a :: old(nextFree) <= a < objectBase ==> !Aligned(a, alignmentMask)
      ensures !allocFailed ==> maybeEmptyObject == old(maybeEmptyObject || nextFree == objectBase)
    {
      hide IsPow2, AlignUp, Aligned, Chain, Laid, Stored, NoneEmpty;
      Current(chunks, objects, objectBase, mem.Length);
      if allocFailed {
        return None;
      }
      value := Some(objectBase);
      if nextFree == objectBase {
        maybeEmptyObject := true;
      }
      ghost var o := Object(|chunks| - 1, objectBase, Growing());
      ghost var top := nextFree;
      AlignUpAligns(nextFree, alignmentMask);
      AlignUpFirst(nextFree, alignmentMask);
      nextFree := AlignUp(nextFree, alignmentMask);
      if nextFree > chunkLimit {
        nextFree := chunkLimit;
      }
      Finished(chunks, objects, objectBase, o, nextFree, mem[..]);
      assert mem[nextFree..nextFree] == [];
      objects := objects + [o];
      objectBase := nextFree;
    }

    lemma StartsIs(end: nat)
      requires end <= objectBase == nextFree <= end + alignmentMask
      requires Aligned(objectBase, alignmentMask) || objectBase == chunkLimit
      requires forall a :: end <= a < objectBase ==> !Aligned(a, alignmentMask)
      ensures Starts(end)
    {}

    /** A finished object of the given length and any value. */
    method Alloc(length: nat, place: Option<nat>) returns (value: Option<nat>)
      requires Valid() && Placed(place, NewSize(nextFree - objectBase, length, chunkSize))
      modifies this, mem
      ensures Valid() && value.None? == allocFailed
      ensures allocFailed == if old(Fits(length)) then old(allocFailed) else place.None?
      ensures value.None? ==> objects == old(objects) && Growing() == old(Growing())
      ensures value.Some? ==>
        |objects| == |old(objects)| + 1 && old(objects) <= objects && Growing() == []
        && objects[|old(objects)|].addr == value.value && old(Growing()) <= objects[|old(objects)|].bytes
        && |objects[|old(objects)|].bytes| == |old(Growing())| + length
      ensures chunks == old(ChunksFor(length, place))
      ensures old(Fits(length)) ==> chunks == old(chunks) && chunkLimit == old(chunkLimit)
      ensures value.Some? ==> value.value == if old(Fits(length)) then old(objectBase) else place.value + 16
      ensures value.Some? ==> Starts(value.value + |old(Growing())| + length)
      ensures value.Some? ==>
        (maybeEmptyObject <==> old(maybeEmptyObject && Fits(length)) || |old(Growing())| + length == 0)
    {
      hide Valid, Growing, Placed, NewSize, Fits, ChunksFor, Starts, Aligned;
      Blank(length, place);
      ghost var end := nextFree;
      value := Finish();
      if value.Some? { StartsIs(end); }
    }

    /** A finished object with the given bytes. */
    method Copy(data: seq<u8>, place: Option<nat>) returns (value: Option<nat>)
      requires Valid() && Placed(place, NewSize(nextFree - objectBase, |data|, chunkSize))
      modifies this, mem
      ensures Valid() && value.None? == allocFailed
      ensures allocFailed == if old(Fits(|data|)) then old(allocFailed) else place.None?
      ensures value.None? ==> objects == old(objects) && Growing() == old(Growing())
      ensures value.Some? ==>
        objects == old(objects) + [Object(|chunks| - 1, value.value, old(Growing()) + data)] && Growing() == []
      ensures chunks == old(ChunksFor(|data|, place))
      ensures old(Fits(|data|)) ==> chunks == old(chunks) && chunkLimit == old(chunkLimit)
      ensures value.Some? ==> value.value == if old(Fits(|data|)) then old(objectBase) else place.value + 16
      ensures value.Some? ==> Starts(value.value + |old(Growing()) + data|)
      ensures value.Some? ==>
        (maybeEmptyObject <==> old(maybeEmptyObject && Fits(|data|)) || old(Growing()) + data == [])
    {
      hide Valid, Growing, Placed, NewSize, Fits, ChunksFor, Starts, Aligned;
      Grow(data, place);
      ghost var end := nextFree;
      value := Finish();
      if value.Some? { StartsIs(end); }
    }

    // ---- freeing ----

    /** The address of a finished object, or of the growing one behind them all. */
    ghost function AddressOf(keep: nat): nat
      reads this`objects, this`objectBase
    {
      if keep < |objects| then objects[keep].addr else objectBase
    }

    ghost function ChunkOf(keep: nat): int
      reads this`objects, this`chunks
    {
      if keep < |objects| then objects[keep].chunk else |chunks| - 1
    }

    /** What remains when an object is freed, and that its address leads to its chunk and no other. */
    lemma Remaining(keep: nat)
      requires Valid() && keep <= |objects|
      ensures var k, obj := ChunkOf(keep), AddressOf(keep);
        && 0 <= k < |chunks| && Chain(chunks[..k + 1], mem.Length) && Laid(chunks[..k + 1], objects[..keep], obj)
        && Stored(mem[..], objects[..keep]) && (NoneEmpty(chunks, objects) ==> NoneEmpty(chunks, objects[..keep]))
        && forall i :: k <= i < |chunks| ==> (Holds(chunks[i], obj) <==> i == k)
    {
      hide Chain, Laid, Stored, NoneEmpty, IsPow2, Holds;
      Current(chunks, objects, objectBase, mem.Length);
      if keep < |objects| {
        Unwound(chunks, objects, objectBase, mem.Length, keep);
        FewerEmpty(chunks, objects, keep);
        Prefix(mem[..], objects, keep);
        forall i | 0 <= i < |chunks|
          ensures Holds(chunks[i], objects[keep].addr) <==> i == objects[keep].chunk
        {
          OnlyItsChunk(chunks, objects, objectBase, mem.Length, keep, i);
        }
      } else {
        assert objects[..keep] == objects && chunks[..|chunks|] == chunks;
        Above(chunks[|chunks| - 1], objectBase);
      }
    }

    lemma Above(c: Chunk, addr: nat)
      requires c.Contents() <= addr <= c.limit
      ensures Holds(c, addr)
    {}

    /** Frees an object and everything newer, knowing only its address; the growing object is discarded
        alone. `keep` counts the older objects. */
    method Free(obj: nat, ghost keep: nat)
      requires Valid() && keep <= |objects| && obj == AddressOf(keep)
      modifies this`chunks, this`objectBase, this`nextFree, this`chunkLimit, this`maybeEmptyObject, this`objects
      ensures Valid() && objects == old(objects)[..keep] && Growing() == []
      ensures chunks == old(chunks[..ChunkOf(keep) + 1]) && objectBase == nextFree == obj
      ensures maybeEmptyObject == old(maybeEmptyObject || ChunkOf(keep) + 1 < |chunks|)
    {
      hide Chain, Laid, Stored, NoneEmpty, IsPow2;
      ghost var k := ChunkOf(keep);
      Current(chunks, objects, objectBase, mem.Length);
      Remaining(keep);
      if obj > chunks[|chunks| - 1].base && obj < chunkLimit {
        assert Holds(chunks[|chunks| - 1], obj) && chunks[..k + 1] == chunks;
        nextFree, objectBase := obj, obj;
      } else {
        var lp := FindChunk(obj, keep);
        assert lp == |chunks| ==> chunks[..lp] == chunks;
        objectBase, nextFree := obj, obj;
        chunkLimit := chunks[lp - 1].limit;
        chunks := chunks[..lp];
      }
      objects := objects[..keep];
      Current(chunks, objects, objectBase, mem.Length);
    }

    /** Goes back in the chain to the chunk of an object, looking only at addresses. */
    method FindChunk(obj: nat, ghost keep: nat) returns (lp: nat)
      requires Valid() && keep <= |objects| && obj == AddressOf(keep)
      modifies this`maybeEmptyObject
      ensures lp == ChunkOf(keep) + 1 && lp <= |chunks|
      ensures maybeEmptyObject == (old(maybeEmptyObject) || lp < |chunks|)
    {
      hide Chain, Laid, Stored, NoneEmpty, IsPow2;
      ghost var k := ChunkOf(keep);
      Remaining(keep);
      lp := |chunks|;
      while lp > 0 && (chunks[lp - 1].base >= obj || chunks[lp - 1].limit < obj)
        invariant k < lp <= |chunks| && maybeEmptyObject == (old(maybeEmptyObject) || lp < |chunks|)
      {
        assert !Holds(chunks[lp - 1], obj);
        lp := lp - 1;
        maybeEmptyObject := true;
      }
      assert Holds(chunks[lp - 1], obj);
    }

    /** Frees everything, for the address NULL: every chunk lies at or above it. Nothing can be built
        before the obstack is begun again. */
    method FreeAll()
      modifies this`chunks, this`maybeEmptyObject, this`objects
      ensures chunks == [] && objects == [] && maybeEmptyObject == old(maybeEmptyObject || chunks != [])
    {
      var lp := |chunks|;
      while lp > 0
        invariant 0 <= lp <= |chunks| && chunks == old(chunks)
        invariant maybeEmptyObject == (old(maybeEmptyObject) || lp < |chunks|)
      {
        lp := lp - 1;
        maybeEmptyObject := true;
      }
      chunks, objects := chunks[..lp], [];
    }
  }

  /** An obstack of one chunk of 64 bytes: after a request for 100 bytes has been refused, one byte cannot be
      added either, although there is room for 48. */
  method RefusedByte(mem: array<u8>) returns (o: Obstack)
    requires mem.Length >= 64
    modifies mem
    ensures fresh(o) && o.Valid() && o.allocFailed && o.Fits(48) && o.Growing() == []
  {
    o := new Obstack.Begin(mem, 64, 8, Some(0));
    o.FailureSticks(seq(100, i => 0), [7]);
  }
}
