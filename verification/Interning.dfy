/** String interning on top of the open-addressing table: equal strings share one object, which stays
    the same however the table grows. */
module Interning {
  import opened Words
  import opened OashSpec
  import opened Oash
  import OashRuns

  /** An interned string with the width of its length field. */
  class Str {
    const bytes: Key
    const max: u16

    constructor (bytes: Key, max: u16)
      ensures this.bytes == bytes && this.max == max
    {
      this.bytes, this.max := bytes, max;
    }
  }

  /** The dentries of a table. */
  ghost function Entries(ht: Table<Str>): set<Dentry<Str>>
    reads ht`data, ht.data
  {
    set j | 0 <= j < ht.data.Length && ht.data[j] != null :: ht.data[j]
  }

  /** What a pool may write. */
  ghost function Owned(ht: Table?<Str>): set<object>
    reads if ht == null then {} else {ht}
  {
    if ht == null then {} else var t: Table<Str> := ht; {t, t.table, t.data}
  }

  ghost function Read(ht: Table?<Str>): set<object>
    reads Owned(ht)
  {
    if ht == null then {} else var t: Table<Str> := ht; {t, t.table, t.data} + Entries(t)
  }

  /** Every key has its string, and its dentry points to it. */
  ghost predicate Pointed(v: map<Key, Dentry<Str>>, strings: map<Key, Str>)
    reads v.Values`data
  {
    v.Keys == strings.Keys && forall k :: k in v ==> v[k].data == Some(strings[k]) && strings[k].bytes == k
  }

  lemma InEntries(ht: Table<Str>)
    requires ht.HasCells()
    ensures ht.View().Values <= Entries(ht)
  {}

  /** The table holds the strings, and it grows when it has to. */
  ghost predicate Backed(ht: Table<Str>, strings: map<Key, Str>)
    reads ht, ht.table, ht.data, Entries(ht)`data
  {
    && ht.Valid() && ht.HasCells() && ht.flags.rehash
    && (InEntries(ht); Pointed(ht.View(), strings))
  }

  class Pool {
    const rawHash: Key -> u32
    var ht: Table?<Str>
    ghost var strings: map<Key, Str>

    ghost predicate Valid()
      reads this, Read(ht)
    {
      if ht == null then strings == map[] else Backed(ht, strings)
    }

    constructor (rawHash: Key -> u32)
      ensures Valid() && strings == map[] && this.rawHash == rawHash
    {
      this.rawHash, ht, strings := rawHash, null, map[];
    }

    /** Interning this string would end in the assertion of the table code. */
    ghost predicate Fails(str: Key)
      reads this, Owned(ht)
    {
      str !in strings && ht != null && ht.Clashes(str)
    }

    /** Returns the object of an interned string, or makes one. Every string interned before keeps its
        own object. */
    method AllocStr(str: Key, max: u16) returns (s: Str?, aborted: bool)
      requires Valid() && |str| <= max && (str in strings ==> strings[str].max == max)
      requires ht != null && ht.GrowsWith(str) ==> 2 * ht.cap <= 0x1_0000
      modifies this, Owned(ht)
      ensures aborted <==> old(Fails(str))
      ensures !aborted ==>
        && Valid() && s != null && s.bytes == str && s.max == max
        && (str in old(strings) ==> s == old(strings)[str] && strings == old(strings))
        && (str !in old(strings) ==> fresh(s) && strings == old(strings)[str := s])
    {
      hide Backed, Table.Valid, Table.Clashes, Table.HasCells, Table.View, Pointed;
      var t := Open(str);
      s, aborted := Intern(t, strings, str, max);
      if aborted {
        return;
      }
      if str !in strings {
        strings := strings[str := s];
      }
      Closed();
    }

    /** The table, made on first use with a size that grows and without copies of the keys. */
    method Open(ghost str: Key) returns (t: Table<Str>)
      requires Valid() && (ht != null && ht.GrowsWith(str) ==> 2 * ht.cap <= 0x1_0000)
      modifies this
      ensures t == ht && strings == old(strings) && Backed(t, strings) && (t.GrowsWith(str) ==> 2 * t.cap <= 0x1_0000)
      ensures if old(ht) == null then fresh(t) && fresh(t.table) && fresh(t.data) else t == old(ht)
      ensures (str !in strings && t.Clashes(str)) == old(Fails(str))
    {
      hide Table.Valid, Table.Clashes;
      if ht == null {
        t := new Table(rawHash, 0);
        var ok := t.Ctl(Flags(true, true, false));
        FirstUse(t, str);
        ht := t;
      } else {
        t := ht;
      }
    }

    lemma Closed()
      requires ht != null && Backed(ht, strings)
      ensures Valid()
    {}
  }

  /** In an empty table nothing clashes. */
  lemma FirstUse(t: Table<Str>, str: Key)
    requires t.Valid() && t.size == 0
    ensures !t.Clashes(str) && t.HasCells() && t.View() == map[]
  {
    t.CellFacts();
    OashRuns.ClashesNeedTwins(t, str);
  }

  /** `n_oash__get_insert` and, for a new string, the assignments to its dentry. */
  method Intern(t: Table<Str>, ghost strings: map<Key, Str>, str: Key, max: u16)
    returns (s: Str?, aborted: bool)
    requires Backed(t, strings) && (t.GrowsWith(str) ==> 2 * t.cap <= 0x1_0000)
    requires (str in strings ==> strings[str].max == max)
    modifies t, t.table, t.data
    ensures aborted <==> str !in strings && old(t.Clashes(str))
    ensures !aborted ==>
      && s != null && s.bytes == str && s.max == max
      && (if str in strings then s == strings[str] && Backed(t, strings)
          else fresh(s) && Backed(t, strings[str := s]))
      && (t.table == old(t.table) || fresh(t.table)) && (t.data == old(t.data) || fresh(t.data))
  {
    hide Table.Valid, Table.Sound, Table.Clashes, Table.GrowsWith, Table.View, Table.HasCells, Table.Touched, Pointed;
    var de;
    ghost var v := t.View();
    t.ValidFacts(str);
    PointedKeys(v, strings);
    de, aborted := GetInsert(t, strings, str);
    if aborted {
      return null, true;
    }
    if str in strings { PointedAt(v, strings, str); }
    if de.data.None? {
      s := Fill(de, v, strings, str, max);
    } else {
      s := de.data.value;
    }
  }

  /** A new dentry gets its string. */
  method Fill(de: Dentry<Str>, ghost v: map<Key, Dentry<Str>>, ghost strings: map<Key, Str>, str: Key, max: u16)
    returns (s: Str)
    requires Pointed(v, strings) && de !in v.Values && str !in v
    modifies de`data
    ensures fresh(s) && s.bytes == str && s.max == max && Pointed(v[str := de], strings[str := s])
  {
    s := new Str(str, max);
    de.data := Some(s);
  }

  /** `n_oash__get_insert`: the dentry of a key, with no element if it is new. */
  method GetInsert(t: Table<Str>, ghost strings: map<Key, Str>, str: Key) returns (de: Dentry?<Str>, aborted: bool)
    requires Backed(t, strings) && (t.GrowsWith(str) ==> 2 * t.cap <= 0x1_0000)
    modifies t, t.table, t.data
    ensures aborted <==> str !in strings && old(t.Clashes(str))
    ensures !aborted ==>
      && t.Valid() && t.HasCells() && t.flags.rehash && de != null && Pointed(old(t.View()), strings)
      && (t.table == old(t.table) || fresh(t.table)) && (t.data == old(t.data) || fresh(t.data))
      && (if str in strings then t.View() == old(t.View()) && str in t.View() && de == t.View()[str]
          else fresh(de) && de !in old(t.View()).Values && de.data.None? && t.View() == old(t.View())[str := de])
  {
    hide *;
    BackedFacts(t, strings);
    t.ValidFacts(str);
    Untouched(t, str);
    PointedKeys(t.View(), strings);
    Existing(t);
    de, aborted := t.Put(str, 0, None, Mode.Keep);
  }

  lemma BackedFacts(t: Table<Str>, strings: map<Key, Str>)
    requires Backed(t, strings)
    ensures t.Valid() && t.HasCells() && t.flags.rehash && Pointed(t.View(), strings)
  {}

  lemma Untouched(t: Table<Str>, str: Key)
    requires t.HasCells()
    ensures t.Touched(str, Mode.Keep) == {}
  {}

  lemma Existing(t: Table<Str>)
    requires t.HasCells()
    ensures forall k :: k in t.View() ==> allocated(t.View()[k])
  {}

  lemma PointedKeys(v: map<Key, Dentry<Str>>, strings: map<Key, Str>)
    requires Pointed(v, strings)
    ensures v.Keys == strings.Keys
  {}

  lemma PointedAt(v: map<Key, Dentry<Str>>, strings: map<Key, Str>, k: Key)
    requires Pointed(v, strings) && k in strings
    ensures v[k].data == Some(strings[k]) && strings[k].bytes == k
  {}
}
