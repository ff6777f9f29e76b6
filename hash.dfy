/** The key/value table of the runtime: two parallel arrays, `index` of
    keys and `data` of values, of which the first `used` slots are live.
    A write replaces the value of a present key or appends a new key after
    the live slots; a pop moves the last live entry into the slot it frees. */
module Hash {
  import opened Interface

  const UINT_LIMIT: nat := 0x1_0000_0000

  /** An `unsigned int` key. */
  type Key = k: nat | k < UINT_LIMIT

  /** No key occurs twice. */
  predicate Distinct(ks: seq<Key>) {
    forall i, j :: 0 <= i < j < |ks| ==> ks[i] != ks[j]
  }

  /** The map that parallel key and value lists hold, a later slot taking
      precedence (with distinct keys, order does not matter). */
  function AsMap<D>(ks: seq<Key>, vs: seq<D>): map<Key, D>
    requires |ks| == |vs|
    decreases |ks|
  {
    if |ks| == 0 then map[]
    else AsMap(ks[..|ks| - 1], vs[..|vs| - 1])[ks[|ks| - 1] := vs[|vs| - 1]]
  }

  /** The keys of the map are the keys of the list. */
  lemma {:induction false} AsMapDomain<D>(ks: seq<Key>, vs: seq<D>)
    requires |ks| == |vs|
    ensures forall k :: k in AsMap(ks, vs) <==> k in ks
    decreases |ks|
  {
    if |ks| > 0 {
      var n := |ks| - 1;
      AsMapDomain(ks[..n], vs[..n]);
      assert ks == ks[..n] + [ks[n]];
    }
  }

  /** With distinct keys, the map sends the key of each slot to the value
      of that slot. */
  lemma {:induction false} AsMapValue<D>(ks: seq<Key>, vs: seq<D>, i: nat)
    requires |ks| == |vs| && Distinct(ks) && i < |ks|
    ensures ks[i] in AsMap(ks, vs) && AsMap(ks, vs)[ks[i]] == vs[i]
    decreases |ks|
  {
    var n := |ks| - 1;
    if i < n {
      AsMapValue(ks[..n], vs[..n], i);
    }
  }

  /** Two maps agree when they have the same keys and the same value at
      each slot's key. */
  lemma AsMapEqual<D>(ks: seq<Key>, vs: seq<D>, m: map<Key, D>)
    requires |ks| == |vs| && Distinct(ks)
    requires forall k :: k in m <==> k in ks
    requires forall i :: 0 <= i < |ks| ==> m[ks[i]] == vs[i]
    ensures AsMap(ks, vs) == m
  {
    AsMapDomain(ks, vs);
    forall k | k in m
      ensures AsMap(ks, vs)[k] == m[k]
    {
      var i :| 0 <= i < |ks| && ks[i] == k;
      AsMapValue(ks, vs, i);
    }
  }

  /** Replacing the value of slot i replaces the value of its key. */
  lemma Replaced<D>(ks: seq<Key>, vs: seq<D>, i: nat, d: D)
    requires |ks| == |vs| && Distinct(ks) && i < |ks|
    ensures AsMap(ks, vs[i := d]) == AsMap(ks, vs)[ks[i] := d]
  {
    AsMapDomain(ks, vs);
    forall j | 0 <= j < |ks|
      ensures AsMap(ks, vs)[ks[i] := d][ks[j]] == vs[i := d][j]
    {
      AsMapValue(ks, vs, j);
    }
    AsMapEqual(ks, vs[i := d], AsMap(ks, vs)[ks[i] := d]);
  }

  /** Appending a new key adds it to the map. */
  lemma Appended<D>(ks: seq<Key>, vs: seq<D>, k: Key, d: D)
    requires |ks| == |vs|
    ensures AsMap(ks + [k], vs + [d]) == AsMap(ks, vs)[k := d]
  {
    assert (ks + [k])[..|ks|] == ks;
    assert (vs + [d])[..|vs|] == vs;
  }

  /** Moving the last entry into slot i and dropping the last slot removes
      the key of slot i and nothing else. */
  lemma Removed<D>(ks: seq<Key>, vs: seq<D>, i: nat)
    requires |ks| == |vs| && Distinct(ks) && i < |ks|
    ensures var n := |ks| - 1;
      && Distinct(ks[i := ks[n]][..n])
      && AsMap(ks[i := ks[n]][..n], vs[i := vs[n]][..n]) == AsMap(ks, vs) - {ks[i]}
  {
    var n := |ks| - 1;
    var ks', vs' := ks[i := ks[n]][..n], vs[i := vs[n]][..n];
    var m := AsMap(ks, vs) - {ks[i]};
    AsMapDomain(ks, vs);
    forall k
      ensures k in m <==> k in ks'
    {
      if k in ks' {
        var j :| 0 <= j < n && ks'[j] == k;
        assert ks'[j] == if j == i then ks[n] else ks[j];
      }
      if k in m {
        var j :| 0 <= j < |ks| && ks[j] == k;
        if j == n {
          assert ks'[i] == k;
        } else {
          assert ks'[j] == k;
        }
      }
    }
    forall j | 0 <= j < n
      ensures m[ks'[j]] == vs'[j]
    {
      if j == i {
        AsMapValue(ks, vs, n);
      } else {
        AsMapValue(ks, vs, j);
      }
    }
    AsMapEqual(ks', vs', m);
  }

  /** `struct hash_table` over the caller's arrays, with the scans bounded
      by `used`: slot `used` is not live, so a scan stops before it. */
  class Table<D> {
    const size: nat
    const index: array<Key>
    const data: array<D>
    var used: nat

    /** Both arrays have `size` slots, the live ones hold distinct keys. */
    ghost predicate Valid()
      reads this, index
    {
      && index.Length == size && data.Length == size && used <= size
      && (index as object) != (data as object)
      && Distinct(index[..used])
    }

    /** The entries of the live slots. */
    ghost function Entries(): map<Key, D>
      requires Valid()
      reads this, index, data
    {
      AsMap(index[..used], data[..used])
    }

    /** A table over two arrays of `size` slots with none in use. */
    constructor (size: nat, index: array<Key>, data: array<D>)
      requires index.Length == size && data.Length == size
      requires (index as object) != (data as object)
      ensures Valid() && Entries() == map[]
      ensures this.size == size && this.index == index && this.data == data
    {
      this.size, this.index, this.data := size, index, data;
      used := 0;
    }

    /** The live slot holding `key`, if any. */
    method Find(key: Key) returns (slot: Option<nat>)
      requires Valid()
      ensures slot.Some? ==> slot.value < used && index[slot.value] == key
      ensures slot.None? ==> key !in index[..used]
    {
      var i := 0;
      while i < used
        invariant i <= used
        invariant forall j :: 0 <= j < i ==> index[j] != key
      {
        if index[i] == key {
          return Some(i);
        }
        i := i + 1;
      }
      return None;
    }

    /** `hash_read`: the value of a present key, and `ERROR_BUFFER_EMPTY`
        for an absent one, which leaves the caller's value as it was. */
    method Read(key: Key, prior: D) returns (r: Status, value: D)
      requires Valid()
      ensures r == Ok <==> key in Entries()
      ensures r == Ok ==> value == Entries()[key]
      ensures r != Ok ==> r == ErrorBufferEmpty && value == prior
    {
      AsMapDomain(index[..used], data[..used]);
      var slot := Find(key);
      if slot.None? {
        return ErrorBufferEmpty, prior;
      }
      AsMapValue(index[..used], data[..used], slot.value);
      return Ok, data[slot.value];
    }

    /** `hash_write`: a present key gets the new value in its slot; a new
        key is appended at slot `used` while there is room; a full table
        answers `ERROR_BUFFER_FULL` and stays as it was. */
    method Write(key: Key, d: D) returns (r: Status)
      requires Valid()
      modifies this, index, data
      ensures Valid()
      ensures old(key in Entries()) ==>
        r == Ok && used == old(used) && Entries() == old(Entries())[key := d]
      ensures old(key !in Entries()) && old(used) < size ==>
        && r == Ok && used == old(used) + 1 && index[old(used)] == key
        && Entries() == old(Entries())[key := d]
      ensures old(key !in Entries()) && old(used) == size ==>
        r == ErrorBufferFull && unchanged(this) && unchanged(index) && unchanged(data)
    {
      AsMapDomain(index[..used], data[..used]);
      var slot := Find(key);
      if slot.Some? {
        Replaced(index[..used], data[..used], slot.value, d);
        data[slot.value] := d;
        assert data[..used] == old(data[..used])[slot.value := d];
        return Ok;
      }
      if size > used {
        Appended(index[..used], data[..used], key, d);
        index[used] := key;
        data[used] := d;
        assert index[..used + 1] == old(index[..used]) + [key];
        assert data[..used + 1] == old(data[..used]) + [d];
        used := used + 1;
        return Ok;
      }
      return ErrorBufferFull;
    }

    /** `hash_pop`: a present key leaves the table, the last live entry
        moving into its slot, and its value is returned (for a caller that
        passes a pointer); an absent key answers `ERROR_BUFFER_EMPTY`. */
    method Pop(key: Key) returns (r: Status, value: Option<D>)
      requires Valid()
      modifies this, index, data
      ensures Valid()
      ensures old(key in Entries()) ==>
        && r == Ok && value == Some(old(Entries())[key]) && used == old(used) - 1
        && Entries() == old(Entries()) - {key}
      ensures old(key !in Entries()) ==>
        r == ErrorBufferEmpty && value == None && unchanged(this) && unchanged(index) && unchanged(data)
    {
      AsMapDomain(index[..used], data[..used]);
      var slot := Find(key);
      if slot.None? {
        return ErrorBufferEmpty, None;
      }
      var i := slot.value;
      ghost var ks, vs := index[..used], data[..used];
      AsMapValue(ks, vs, i);
      value := Some(data[i]);
      Removed(ks, vs, i);
      MoveLast(i);
      used := used - 1;
      r := Ok;
    }

    /** Slot i takes the entry of the last live slot. */
    method MoveLast(i: nat)
      requires Valid() && i < used
      modifies index, data
      ensures index[..old(used) - 1] == old(index[..used])[i := old(index[used - 1])][..old(used) - 1]
      ensures data[..old(used) - 1] == old(data[..used])[i := old(data[used - 1])][..old(used) - 1]
    {
      data[i] := data[used - 1];
      index[i] := index[used - 1];
    }
  }

  /** A write that succeeds is read back: the key then holds the value
      written. */
  method WriteThenRead<D>(t: Table<D>, key: Key, d: D, prior: D) returns (w: Status, r: Status, value: D)
    requires t.Valid()
    modifies t, t.index, t.data
    ensures w == Ok <==> old(key in t.Entries()) || old(t.used) < t.size
    ensures w == Ok ==> r == Ok && value == d
  {
    w := t.Write(key, d);
    r, value := t.Read(key, prior);
  }

  /** A popped key is gone: reading it next answers `ERROR_BUFFER_EMPTY`
      and every other key keeps its value. */
  method PopThenRead<D>(t: Table<D>, key: Key, other: Key, prior: D) returns (r: Status, value: D)
    requires t.Valid() && other != key
    modifies t, t.index, t.data
    ensures t.Valid() && r == ErrorBufferEmpty && value == prior
    ensures other in t.Entries() <==> old(other in t.Entries())
    ensures other in t.Entries() ==> t.Entries()[other] == old(t.Entries()[other])
  {
    var p, v := t.Pop(key);
    r, value := t.Read(key, prior);
  }

  /** The table's slots as values: keys, values and the live count. */
  datatype Slots<D> = Slots(keys: seq<Key>, values: seq<D>, used: nat)

  /** What `hash_pop` as written does: pops a slot's entry, finds no key,
      or, having found the key in slot 0 of an empty table, computes the
      slot `used - 1` in unsigned arithmetic, 2^32 - 1, far past the
      arrays. */
  datatype Popped<D> = Popped(after: Slots<D>, value: D) | Missing | OutOfBounds

  /** The scan of the code as written, `index <= used`: it looks at slot
      `used` as well, which is not live (past the arrays when the table is
      full; the arrays here carry that extra slot). */
  function ScanAsWritten<D>(s: Slots<D>, key: Key, i: nat): (r: Option<nat>)
    requires s.used < |s.keys|
    ensures r.Some? ==> i <= r.value <= s.used && s.keys[r.value] == key
    ensures r.Some? ==> forall j :: i <= j < r.value ==> s.keys[j] != key
    ensures r.None? ==> forall j :: i <= j <= s.used ==> s.keys[j] != key
    decreases s.used + 1 - i
  {
    if i > s.used then None
    else if s.keys[i] == key then Some(i)
    else ScanAsWritten(s, key, i + 1)
  }

  /** `hash_read` as written. */
  function ReadAsWritten<D>(s: Slots<D>, key: Key): Option<D>
    requires s.used < |s.keys| == |s.values|
  {
    match ScanAsWritten(s, key, 0)
    case None => None
    case Some(i) => Some(s.values[i])
  }

  /** `hash_pop` as written. */
  function PopAsWritten<D>(s: Slots<D>, key: Key): Popped<D>
    requires s.used < |s.keys| == |s.values|
  {
    match ScanAsWritten(s, key, 0)
    case None => Missing
    case Some(i) =>
      if s.used == 0 then OutOfBounds
      else Popped(Slots(s.keys[i := s.keys[s.used - 1]], s.values[i := s.values[s.used - 1]], s.used - 1), s.values[i])
  }

  /** As written, popping the only entry of a table leaves its key in slot
      0, now slot `used`, where the next read still finds it: the popped key
      stays readable with its old value. */
  lemma PoppedKeyStaysReadable<D>(d: D, e: D)
    ensures var s := Slots([7, 0], [d, e], 1);
      && PopAsWritten(s, 7) == Popped(Slots([7, 0], [d, e], 0), d)
      && ReadAsWritten(Slots([7, 0], [d, e], 0), 7) == Some(d)
  {
    var s := Slots([7, 0], [d, e], 1);
    assert ScanAsWritten(s, 7, 0) == Some(0);
    assert [7, 0][0 := 7] == [7, 0];
    assert [d, e][0 := d] == [d, e];
    assert ScanAsWritten(Slots([7, 0], [d, e], 0), 7, 0) == Some(0);
  }
}
