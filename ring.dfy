/** The owner-tagged linked ring buffer: a fixed arena of cells whose `next`
    links form a cycle, with a `read` cursor at the first occupied cell, a
    `write` cursor at the first free one, a `tail` at the cell before `read`,
    and an OR-mask of the occupied cells' owner tags. Records are written at
    the end of the occupied run; a read takes the first record of its owner
    (any record for owner 0) and splices the freed cell back into the free
    region. */
module LinkedRing {
  import opened Interface
  import opened Words
  import opened LinkedRingLayout

  /** A character of a C string. */
  type Byte = w: Word | w < 0x100

  /** `lr_owner`: the tag of an owner is its pointer doubled. */
  function Owner(p: Word): (tag: Word)
    ensures tag % 2 == 0
  {
    (p + p) % WORD_LIMIT
  }

  /** A doubled pointer is even, so it is never the odd sentinel 0xFFFF. */
  lemma OwnerNeverSentinel(p: Word)
    ensures Owner(p) != SENTINEL
  {
    assert SENTINEL % 2 == 1;
  }

  /** The number of records an owner reads. */
  function Count(rs: seq<Record>, owner: Word): (c: nat)
    ensures c <= |rs|
  {
    if |rs| == 0 then 0 else (if Matches(rs[0], owner) then 1 else 0) + Count(rs[1..], owner)
  }

  /** An owner has records to read exactly when its count is positive. */
  lemma {:induction false} CountPositive(rs: seq<Record>, owner: Word)
    ensures Count(rs, owner) > 0 <==> HasMatch(rs, owner)
  {
    if |rs| > 0 {
      CountPositive(rs[1..], owner);
      if HasMatch(rs, owner) && !Matches(rs[0], owner) {
        var i :| 0 <= i < |rs| && Matches(rs[i], owner);
        assert rs[1..][i - 1] == rs[i];
      }
      if HasMatch(rs[1..], owner) {
        var i :| 0 <= i < |rs[1..]| && Matches(rs[1..][i], owner);
        assert rs[i + 1] == rs[1..][i];
      }
    }
  }

  /** The do/while loop of `lr_length_limited_owned` over the records of the
      run, from the one at position k: the 8-bit counter goes up (modulo 256)
      on every record the owner reads, and the loop goes on while records
      remain and the limit is 0 or is equal to the counter. */
  function Scan(rs: seq<Record>, owner: Word, limit: nat, k: nat, length: nat): (counted: nat)
    requires k < |rs| && length < 256
    ensures counted < 256
    decreases |rs| - k
  {
    var counted := if Matches(rs[k], owner) then (length + 1) % 256 else length;
    if k + 1 < |rs| && (limit == 0 || limit == counted) then Scan(rs, owner, limit, k + 1, counted) else counted
  }

  /** Without a limit the scan visits the rest of the run and adds the
      owner's record count there, modulo 256. */
  lemma {:induction false} ScanCounts(rs: seq<Record>, owner: Word, k: nat, length: nat)
    requires k < |rs| && length < 256
    ensures Scan(rs, owner, 0, k, length) == (length + Count(rs[k..], owner)) % 256
    decreases |rs| - k
  {
    var step := if Matches(rs[k], owner) then 1 else 0;
    var counted := (length + step) % 256;
    assert rs[k..][1..] == rs[k + 1..];
    if k + 1 < |rs| {
      ScanCounts(rs, owner, k + 1, counted);
      Mod256Add(length + step, Count(rs[k + 1..], owner));
    }
  }

  /** Reducing a partial sum modulo 256 does not change the final residue. */
  lemma Mod256Add(a: nat, b: nat)
    ensures (a % 256 + b) % 256 == (a + b) % 256
  {
    var q := a / 256;
    assert a == 256 * q + a % 256;
    assert a + b == 256 * q + (a % 256 + b);
  }

  /** `lr_length_limited_owned` on a ring whose run holds `rs`: 0 for an
      empty ring and for an owner some of whose bits are missing from the
      mask; `size` (as a 16-bit value) for owner 0 on a full ring; the scan
      otherwise. */
  function LengthOf(rs: seq<Record>, full: bool, owners: Word, size: nat, limit: nat, owner: Word): (len: nat)
    ensures len < 0x1_0000
  {
    if |rs| == 0 then 0
    else if owner != 0 && !Covers(owners, owner) then 0
    else if owner == 0 && full then size % 0x1_0000
    else Scan(rs, owner, limit, 0, 0)
  }

  /** The scan with limit 1 once the counter is at 1: it goes on past the
      records the owner does not read and stops at 2 on the next one it
      reads, so it ends at 1 exactly when no later record is the owner's. */
  lemma {:induction false} ScanPastFirst(rs: seq<Record>, owner: Word, k: nat)
    requires k < |rs|
    ensures Scan(rs, owner, 1, k, 1) == if Count(rs[k..], owner) == 0 then 1 else 2
    decreases |rs| - k
  {
    assert rs[k..][0] == rs[k] && rs[k..][1..] == rs[k + 1..];
    if !Matches(rs[k], owner) && k + 1 < |rs| {
      ScanPastFirst(rs, owner, k + 1);
    }
  }

  /** `lr_exists` as written, for all runs: the limit-1 loop goes on only
      while the counter equals 1, so the answer is 0 unless the owner reads
      the first record of the run, and then 1 or 2 depending on whether it
      reads a later one. */
  lemma ExistsAsWritten(rs: seq<Record>, full: bool, size: nat, owner: Word)
    requires owner != 0 || !full
    ensures LengthOf(rs, full, OrTags(rs), size, 1, owner) ==
      if |rs| == 0 || !Matches(rs[0], owner) then 0
      else if Count(rs[1..], owner) == 0 then 1
      else 2
  {
    if |rs| > 0 && Matches(rs[0], owner) {
      MaskKeepsPresent(rs, owner);
      if |rs| > 1 {
        ScanPastFirst(rs, owner, 1);
      }
    }
  }

  /** The mask test of the length function loses no record: with the mask
      equal to the OR of the run's tags, an owner with a record has all its
      bits in the mask. */
  lemma MaskKeepsPresent(rs: seq<Record>, owner: Word)
    requires HasMatch(rs, owner)
    ensures Covers(OrTags(rs), owner)
  {
    var i :| 0 <= i < |rs| && Matches(rs[i], owner);
    if owner != 0 {
      TagWithinOr(rs, i);
    } else {
      AndZero(OrTags(rs));
    }
  }

  /** The emptiness gate of `lr_read` (`lr_length_owned`) is nonzero only
      when the owner has a record ... */
  lemma GateSound(rs: seq<Record>, full: bool, size: nat, owner: Word)
    requires LengthOf(rs, full, OrTags(rs), size, 0, owner) != 0
    ensures HasMatch(rs, owner)
  {
    if owner == 0 {
      assert Matches(rs[0], owner);
    } else {
      ScanCounts(rs, owner, 0, 0);
      CountPositive(rs, owner);
    }
  }

  /** ... and, conversely, nonzero whenever the owner has a record, unless
      the 8-bit count wraps (256 records of the owner) or, for owner 0 on a
      full ring, the 16-bit size is 0. */
  lemma GateComplete(rs: seq<Record>, full: bool, size: nat, owner: Word)
    requires HasMatch(rs, owner) && Count(rs, owner) < 256
    requires !(owner == 0 && full && size % 0x1_0000 == 0)
    ensures LengthOf(rs, full, OrTags(rs), size, 0, owner) != 0
  {
    ScanCounts(rs, owner, 0, 0);
    CountPositive(rs, owner);
    MaskKeepsPresent(rs, owner);
  }

  /** Without a limit, the length function counts the owner's records
      (modulo 256); only owner 0 on a full ring gets `size` instead. */
  lemma OwnedLength(rs: seq<Record>, full: bool, size: nat, owner: Word)
    ensures owner != 0 || !full ==> LengthOf(rs, full, OrTags(rs), size, 0, owner) == Count(rs, owner) % 256
    ensures owner == 0 && full && |rs| > 0 ==> LengthOf(rs, full, OrTags(rs), size, 0, owner) == size % 0x1_0000
  {
    if |rs| > 0 {
      ScanCounts(rs, owner, 0, 0);
      CountPositive(rs, owner);
      if HasMatch(rs, owner) {
        MaskKeepsPresent(rs, owner);
      }
    }
  }

  /** The records a string of bytes becomes, all with one owner. */
  function Bytes(text: seq<Byte>, owner: Word): (rs: seq<Record>)
    ensures |rs| == |text|
  {
    seq(|text|, k requires 0 <= k < |text| => Record(text[k], owner))
  }

  /** Writing one more byte extends the records by one. */
  lemma BytesSnoc(rs: seq<Record>, s: seq<Byte>, i: nat, owner: Word, before: seq<Record>, after: seq<Record>)
    requires i < |s| && before == rs + Bytes(s[..i], owner) && after == before + [Record(s[i], owner)]
    ensures after == rs + Bytes(s[..i + 1], owner)
  {
    assert s[..i + 1] == s[..i] + [s[i]];
  }

  /** The bytes of a C string before its NUL terminator (all of them when
      there is none). */
  function Text(s: seq<Byte>): (t: seq<Byte>)
    ensures |t| <= |s| && t == s[..|t|]
    ensures forall k :: 0 <= k < |t| ==> t[k] != 0
    ensures |t| < |s| ==> s[|t|] == 0
  {
    if |s| == 0 || s[0] == 0 then [] else [s[0]] + Text(s[1..])
  }

  /** The part of a C string's text that fits in `room` free cells. */
  function Fitting(s: seq<Byte>, room: nat): (t: seq<Byte>)
    ensures |t| <= room && |t| <= |Text(s)| && t == Text(s)[..|t|]
    ensures |t| == room || t == Text(s)
  {
    if |Text(s)| <= room then Text(s) else Text(s)[..room]
  }

  /** A prefix without NUL bytes that ends the string, or meets its NUL,
      is its text. */
  lemma TextEnds(s: seq<Byte>, i: nat, room: nat)
    requires i <= |s| && i <= room && forall k :: 0 <= k < i ==> s[k] != 0
    requires i == |s| || s[i] == 0
    ensures |Text(s)| <= room && Fitting(s, room) == s[..i]
  {
  }

  /** A prefix without NUL bytes that fills the room, with more text after
      it, is the part that fits. */
  lemma TextCut(s: seq<Byte>, i: nat, room: nat)
    requires i < |s| && i == room && forall k :: 0 <= k <= i ==> s[k] != 0
    ensures |Text(s)| > room && Fitting(s, room) == s[..i]
  {
  }

  /** The arena of a ring, in one of its two shapes: never written into
      (all links null, all cursors null, empty mask), or in use, with the
      mask the OR of the occupied cells' tags. */
  predicate Arena(cs: seq<Cell>, owners: Word, read: int, write: int, tail: int, R: seq<int>, n: nat) {
    if tail == NULL then
      && Pristine(cs) && read == NULL && write == NULL && owners == 0 && n == 0
    else
      && |R| <= |cs| && InUse(cs, read, write, tail, R, n)
      && owners == OrTags(Records(cs, R, n))
  }

  /** The first write into a never-used arena gives a ring of the whole
      arena holding one record. */
  lemma ArenaStarted(cs: seq<Cell>, d: Word, o: Word)
    requires Pristine(cs) && |cs| >= 2 && o != SENTINEL
    ensures Arena(Started(cs, d, o), WordOr(0, o), 0, 1, |cs| - 1, Iota(|cs|), 1)
    ensures Records(Started(cs, d, o), Iota(|cs|), 1) == [Record(d, o)]
  {
    FirstWrite(cs, d, o);
    OrTagsSingle(Record(d, o));
    OrZero(o);
  }

  /** A write into the first free cell of a ring in use, as `lr_write`
      does it: the record is stored, a never-used cell is linked to the next
      cell of the arena, `write` moves on (to null when it comes round to
      `read`) and an empty ring gets its `read`. */
  lemma ArenaAppended(cs: seq<Cell>, owners: Word, read: int, write: int, tail: int, R: seq<int>, n: nat, d: Word, o: Word,
                      cs': seq<Cell>, owners': Word, read': int, write': int)
    requires Arena(cs, owners, read, write, tail, R, n) && tail != NULL && write != NULL && o != SENTINEL
    requires 0 <= write < |cs| && |cs'| == |cs|
    requires cs'[write].data == d && cs'[write].owner == o
    requires cs'[write].next == if cs[write].next == NULL then write + 1 else cs[write].next
    requires forall x :: 0 <= x < |cs| && x != write ==> cs'[x] == cs[x]
    requires owners' == WordOr(owners, o) && read' == (if read == NULL then write else read)
    requires write' == if cs'[write].next == read then NULL else cs'[write].next
    ensures Arena(cs', owners', read', write', tail, R, n + 1)
    ensures Records(cs', R, n + 1) == Records(cs, R, n) + [Record(d, o)]
  {
    assert Link(cs, R, n, n);
    assert Succ(R, n) == read <==> n + 1 == |R| by {
      if 0 < n && n + 1 < |R| {
        assert Apart(R, 0, n + 1);
      }
    }
    assert cs' == cs[R[n] := Cell(d, o, Succ(R, n))];
    Append(cs, read, tail, R, n, d, o);
    OrTagsSnoc(Records(cs, R, n), Record(d, o));
  }

  /** A read that takes the last record of the run leaves the cells as
      they are: `write` steps back onto it, and an emptied run loses its
      `read`. */
  lemma ArenaTaken(cs: seq<Cell>, owners: Word, read: int, write: int, tail: int, R: seq<int>, n: nat,
                   owners': Word, read': int, write': int)
    requires Arena(cs, owners, read, write, tail, R, n) && tail != NULL && 0 < n
    requires owners' == OrTags(Without(Records(cs, R, n), n - 1))
    requires read' == (if n == 1 then NULL else R[0]) && write' == R[n - 1]
    ensures Arena(cs, owners', read', write', tail, R, n - 1)
    ensures Records(cs, R, n - 1) == Without(Records(cs, R, n), n - 1)
  {
    TakeLast(cs, read, write, tail, R, n);
  }

  /** A read that takes record j from inside the run unlinks its cell and
      puts it at the head of the free region, where `write` points; on a
      full ring it also becomes the tail. */
  lemma ArenaSpliced(cs: seq<Cell>, owners: Word, read: int, write: int, tail: int, R: seq<int>, n: nat, j: nat,
                     cs': seq<Cell>, owners': Word, read': int, write': int, tail': int, R': seq<int>)
    requires Arena(cs, owners, read, write, tail, R, n) && tail != NULL && j + 1 < n
    requires cs' == Relinked(cs, R, n, j) && owners' == OrTags(Without(Records(cs, R, n), j))
    requires read' == (if j == 0 then R[1] else R[0]) && write' == R[j]
    requires tail' == (if n < |R| then R[|R| - 1] else R[j]) && R' == Spliced(R, n, j)
    ensures |R'| == |R| && Arena(cs', owners', read', write', tail', R', n - 1)
    ensures Records(cs', R', n - 1) == Without(Records(cs, R, n), j)
  {
    Splice(cs, read, write, tail, R, n, j);
  }

  /** A ring over an arena of `size + 1` cells (the first write makes cell
      `size` the tail). The ghost `order` is the cyclic order of the cells
      starting at the head, and its first `count` cells are occupied. */
  class Ring {
    const size: nat
    const cells: array<Cell>
    var owners: Word
    var read: int
    var write: int
    var tail: int
    ghost var order: seq<int>
    ghost var count: nat
    /** The occupied run, from `read` on. */
    ghost var contents: seq<Record>

    /** The arena is one of the two shapes, the ring order takes in every
        cell, and `contents` is the run it holds. */
    ghost predicate Valid()
      reads this, cells
    {
      && size >= 1 && cells.Length == size + 1
      && Arena(cells[..], owners, read, write, tail, order, count)
      && (tail != NULL ==> |order| == size + 1)
      && |contents| == count
      && forall k :: 0 <= k < count ==> Stores(cells[..], order, contents, k)
    }

    /** The run is the records of the first `count` cells of the order. */
    lemma Run()
      requires Valid()
      ensures contents == if tail == NULL then [] else Records(cells[..], order, count)
    {
      if tail != NULL {
        StoresRecords(cells[..], order, contents, count);
      }
    }

    /** Stores the cursors and the ghost order of a ring over the arena as it
        now stands. */
    method Install(owners': Word, read': int, write': int, tail': int,
                   ghost order': seq<int>, ghost count': nat, ghost contents': seq<Record>)
      requires size >= 1 && cells.Length == size + 1
      requires Arena(cells[..], owners', read', write', tail', order', count')
      requires tail' != NULL ==> |order'| == size + 1
      requires contents' == if tail' == NULL then [] else Records(cells[..], order', count')
      modifies this
      ensures Valid()
      ensures owners == owners' && read == read' && write == write' && tail == tail'
      ensures order == order' && count == count' && contents == contents'
    {
      owners, read, write, tail := owners', read', write', tail';
      order, count, contents := order', count', contents';
      if tail' != NULL {
        StoresRecords(cells[..], order', contents', count');
      }
    }

    /** The source's test for a full ring. */
    predicate Full()
      reads this
    {
      read != NULL && write == NULL
    }

    /** The cursors say what the run holds: `read` is null exactly when it
        is empty, and the ring is full exactly when the run fills it. */
    lemma Cursors()
      requires Valid()
      ensures read == NULL <==> |contents| == 0
      ensures Full() <==> |contents| == size + 1
      ensures |contents| <= size + 1
    {
    }

    /** The run never holds more records than the arena has cells. */
    lemma Bounded()
      requires Valid()
      ensures |contents| <= size + 1
    {
    }

    /** A zeroed arena of `size + 1` cells with null cursors. */
    constructor (size: nat)
      requires size >= 1
      ensures Valid() && contents == [] && this.size == size
      ensures fresh(cells)
    {
      this.size := size;
      cells := new Cell[size + 1](_ => Cell(0, 0, NULL));
      owners, read, write, tail := 0, NULL, NULL, NULL;
      order, count, contents := [], 0, [];
    }

    /** `lr_length_limited_owned`. */
    method LengthLimitedOwned(limit: nat, owner: Word) returns (len: nat)
      requires Valid() && limit < 0x1_0000
      ensures len == LengthOf(contents, Full(), owners, size, limit, owner)
    {
      ghost var target := LengthOf(contents, Full(), owners, size, limit, owner);
      if read == NULL {
        assert target == 0;
        return 0;
      }
      if owner != 0 && And(owners, owner) != owner {
        assert target == 0;
        return 0;
      }
      if owner == 0 && write == NULL {
        assert target == size % 0x1_0000;
        return size % 0x1_0000;
      }
      Run();
      TrailInUse(cells[..], read, write, tail, order, count);
      len := CountScan(cells, read, if write != NULL then write else read, limit, owner, order, contents, count);
    }

    /** `lr_length`: owner 0 without a limit, which counts the whole run
        modulo 256, except that a full ring reports `size` (16 bits), one
        less than the records it holds. */
    method Length() returns (len: nat)
      requires Valid()
      ensures len == if Full() then size % 0x1_0000 else |contents| % 256
    {
      len := LengthLimitedOwned(0, 0);
      Cursors();
      if |contents| > 0 && !Full() {
        ScanCounts(contents, 0, 0, 0);
        CountAll(contents);
      }
    }

    /** `lr_exists`: the length function with limit 1, its loop condition
        as written (the intended count is LinkedRingFindings.CappedExists). */
    method Exists(owner: Word) returns (len: nat)
      requires Valid()
      ensures len == LengthOf(contents, Full(), owners, size, 1, owner)
      ensures owner != 0 || !Full() ==>
        len == if |contents| == 0 || !Matches(contents[0], owner) then 0
               else if Count(contents[1..], owner) == 0 then 1
               else 2
      ensures owner == 0 && Full() ==> len == size % 0x1_0000
    {
      len := LengthLimitedOwned(1, owner);
      Mask();
      if owner != 0 || !Full() {
        ExistsAsWritten(contents, Full(), size, owner);
      } else {
        Cursors();
      }
    }

    /** `lr_length_owned`: no limit; the count of the owner's records modulo
        256 (for owner 0 on a full ring, `size`). */
    method LengthOwned(owner: Word) returns (len: nat)
      requires Valid()
      ensures owner != 0 || !Full() ==> len == Count(contents, owner) % 256
      ensures owner == 0 && Full() ==> len == size % 0x1_0000
    {
      len := LengthLimitedOwned(0, owner);
      Cursors();
      Mask();
      OwnedLength(contents, Full(), size, owner);
    }

    /** `lr_write`: a full ring refuses the record and changes nothing;
        otherwise the record joins the end of the run and its tag the mask. */
    method Write(d: Word, o: Word) returns (r: Status)
      requires Valid() && o != SENTINEL
      modifies this, cells
      ensures Valid()
      ensures old(|contents|) == size + 1 ==>
        r == ErrorBufferFull && unchanged(this) && unchanged(cells)
      ensures old(|contents|) < size + 1 ==>
        r == Ok && contents == old(contents) + [Record(d, o)] && owners == WordOr(old(owners), o)
    {
      Cursors();
      if write == NULL && read != NULL {
        return ErrorBufferFull;
      }
      if tail == NULL {
        Start(d, o);
      } else {
        Append(d, o);
      }
      return Ok;
    }

    /** The first write into a zeroed arena: cell `size` becomes the tail
        and links to cell 0, which takes the record and links to cell 1. */
    method Start(d: Word, o: Word)
      requires Valid() && tail == NULL && o != SENTINEL
      modifies this, cells
      ensures Valid()
      ensures contents == [Record(d, o)] && owners == WordOr(old(owners), o)
    {
      ArenaStarted(cells[..], d, o);
      cells[size] := cells[size].(next := 0);
      cells[0] := cells[0].(data := d, owner := o, next := 1);
      assert cells[..] == Started(old(cells[..]), d, o);
      Install(WordOr(owners, o), 0, 1, size, Iota(size + 1), 1, [Record(d, o)]);
    }

    /** A write into the first free cell of a ring in use. */
    method Append(d: Word, o: Word)
      requires Valid() && tail != NULL && write != NULL && o != SENTINEL
      modifies this, cells
      ensures Valid()
      ensures contents == old(contents) + [Record(d, o)] && owners == WordOr(old(owners), o)
    {
      Run();
      var cell := write;
      var written := cells[cell].(data := d, owner := o);
      if written.next == NULL {
        written := written.(next := cell + 1);
      }
      cells[cell] := written;
      var free := if written.next == read then NULL else written.next;
      var first := if read == NULL then cell else read;
      ArenaAppended(old(cells[..]), owners, read, cell, tail, order, count, d, o, cells[..], WordOr(owners, o), first, free);
      Install(WordOr(owners, o), first, free, tail, order, count + 1, contents + [Record(d, o)]);
    }

    /** `lr_write_string`: the bytes before the NUL terminator are written in
        order until the ring is full; what was written stays. */
    method WriteString(s: seq<Byte>, o: Word) returns (r: Status)
      requires Valid() && o != SENTINEL
      modifies this, cells
      ensures Valid()
      ensures var room := size + 1 - old(|contents|);
        && (r == Ok <==> |Text(s)| <= room)
        && (r != Ok ==> r == ErrorBufferFull)
        && contents == old(contents) + Bytes(Fitting(s, room), o)
    {
      Bounded();
      ghost var room := size + 1 - |contents|;
      var i;
      r, i := WriteBytes(s, o);
      if r == Ok {
        TextEnds(s, i, room);
      } else {
        TextCut(s, i, room);
      }
    }

    /** The loop of `lr_write_string`: it stops at the NUL, at the end of
        the string, or at the first byte the ring refuses, which it leaves
        as the i-th. */
    method WriteBytes(s: seq<Byte>, o: Word) returns (r: Status, i: nat)
      requires Valid() && o != SENTINEL
      modifies this, cells
      ensures Valid() && i <= |s| && forall k :: 0 <= k < i ==> s[k] != 0
      ensures contents == old(contents) + Bytes(s[..i], o)
      ensures r == Ok ==> i == |s| || s[i] == 0
      ensures r != Ok ==> r == ErrorBufferFull && i < |s| && s[i] != 0 && old(|contents|) + i == size + 1
    {
      ghost var rs := contents;
      i := 0;
      while i < |s| && s[i] != 0
        invariant i <= |s| && (forall k :: 0 <= k < i ==> s[k] != 0)
        invariant Valid() && contents == rs + Bytes(s[..i], o)
        decreases |s| - i
      {
        Bounded();
        ghost var before := contents;
        var w := Write(s[i], o);
        if w == ErrorBufferFull {
          return ErrorBufferFull, i;
        }
        BytesSnoc(rs, s, i, o, before, contents);
        i := i + 1;
      }
      return Ok, i;
    }

    /** The mask is the OR of the run's tags. */
    lemma Mask()
      requires Valid()
      ensures owners == OrTags(contents)
    {
      Run();
    }

    /** `lr_read`: the emptiness gate is `lr_length_owned`; when it lets the
        read through, the owner's first record (the first record at all for
        owner 0) leaves the run and its data is stored; otherwise nothing
        changes and the caller's data stays as it was. */
    method Read(owner: Word, prior: Word) returns (r: Status, data: Word)
      requires Valid()
      modifies this, cells
      ensures Valid()
      ensures var gate := LengthOf(old(contents), old(Full()), old(owners), size, 0, owner);
        gate == 0 ==> r == ErrorBufferEmpty && data == prior && unchanged(this) && unchanged(cells)
      ensures var gate := LengthOf(old(contents), old(Full()), old(owners), size, 0, owner);
        gate != 0 ==>
          && HasMatch(old(contents), owner) && r == Ok
          && data == old(contents)[FirstMatch(old(contents), owner)].data
          && contents == Without(old(contents), FirstMatch(old(contents), owner))
    {
      var gate := LengthLimitedOwned(0, owner);
      if gate == 0 {
        return ErrorBufferEmpty, prior;
      }
      Mask();
      GateSound(contents, Full(), size, owner);
      data := Extract(owner);
      r := Ok;
    }

    /** The scan of `lr_read` past its gate: the matching record leaves
        the run and the mask is rebuilt from the records that stay. */
    method Extract(owner: Word) returns (data: Word)
      requires Valid() && HasMatch(contents, owner)
      modifies this, cells
      ensures Valid()
      ensures var j := FirstMatch(old(contents), owner);
        data == old(contents)[j].data && contents == Without(old(contents), j)
    {
      Run();
      ghost var rs := contents;
      ghost var j := FirstMatch(rs, owner);
      var mask, first, free, last;
      ghost var R;
      data, mask, first, free, last, R := ReadScan(cells, read, write, tail, owner, order, count, owners);
      Install(mask, first, free, last, R, count - 1, Without(rs, j));
    }
  }

  /** The relinking of `lr_read` when it takes record j from inside the
      run: the cell before it (for the head, the tail, unless the ring is
      full) is linked past it, and the freed cell is linked to the first free
      cell, or on a full ring to the new head, which is returned. */
  method Bypass(cells: array<Cell>, previous: int, readable: int, next: int, read: int, write: int, tail: int,
                ghost cs0: seq<Cell>, ghost R: seq<int>, ghost n: nat, ghost j: nat)
      returns (head: int)
    requires InUse(cs0, read, write, tail, R, n) && j + 1 < n && cells[..] == cs0
    requires readable == R[j] && previous == (if j == 0 then NULL else R[j - 1]) && next == R[j + 1]
    modifies cells
    ensures cells[..] == Unlinked(cs0, R, n, j) && head == (if j == 0 then R[1] else R[0])
  {
    head := read;
    if previous != NULL {
      cells[previous] := cells[previous].(next := next);
    } else {
      head := next;
      if write != NULL {
        cells[tail] := cells[tail].(next := head);
      }
    }
    assert if j > 0 then Apart(R, j - 1, j) else Apart(R, 0, |R| - 1);
    cells[readable] := cells[readable].(next := if write != NULL then write else head);
  }

  /** The last step of `lr_read`: the cell where the scan ended is linked
      to the freed cell, which becomes the first free cell and, on a full
      ring, the tail. */
  method LinkFreed(cells: array<Cell>, previous: int, freed: int, write: int, tail: int,
                   ghost cs0: seq<Cell>, ghost R: seq<int>, ghost n: nat, ghost j: nat)
      returns (write': int, tail': int)
    requires Order(cs0, R) && j + 1 < n <= |R| && |cs0| == cells.Length
    requires cells[..] == Unlinked(cs0, R, n, j) && previous == R[n - 1] && freed == R[j]
    modifies cells
    ensures cells[..] == Relinked(cs0, R, n, j) && write' == freed
    ensures tail' == if write == NULL then freed else tail
  {
    cells[previous] := cells[previous].(next := freed);
    tail' := tail;
    if write == NULL {
      tail' := freed;
    }
    write' := freed;
  }

  /** The counting loop of `lr_length_limited_owned` over the arena of a
      ring in use, from `read` round to the cell after the run. */
  method CountScan(cells: array<Cell>, start: int, needle: int, limit: nat, owner: Word,
                   ghost R: seq<int>, ghost rs: seq<Record>, ghost n: nat)
      returns (len: nat)
    requires Trail(cells[..], R, rs, n, needle, 0) && |rs| == n && 0 < n <= |R| && start == R[0]
    ensures len == Scan(rs, owner, limit, 0, 0)
  {
    var counter := start;
    var length: nat := 0;
    ghost var k: nat := 0;
    while true
      invariant k < n && counter == R[k] && length < 256
      invariant Scan(rs, owner, limit, 0, 0) == Scan(rs, owner, limit, k, length)
      decreases n - k
    {
      assert Step(cells[..], R, rs, n, needle, k);
      if owner == 0 || cells[counter].owner == owner {
        length := (length + 1) % 256;
      }
      counter := cells[counter].next;
      k := k + 1;
      if counter == needle || !(limit == 0 || limit == length) {
        break;
      }
    }
    return length;
  }

  /** The part of the loop of `lr_read` before the owner's first record:
      each cell's tag is ORed into the new mask and the scan moves on. The
      gate has made sure the owner has a record in the run, so the scan meets
      it before it comes round to the cell after the run. Nothing is
      written. */
  method Seek(cells: array<Cell>, start: int, needle: int, owner: Word,
              ghost R: seq<int>, ghost rs: seq<Record>, ghost n: nat)
      returns (previous: int, readable: int, mask: Word)
    requires Trail(cells[..], R, rs, n, needle, 0) && |rs| == n && 0 < n <= |R| && start == R[0]
    requires HasMatch(rs, owner)
    ensures var j := FirstMatch(rs, owner);
      && readable == R[j] && previous == (if j == 0 then NULL else R[j - 1])
      && mask == OrRange(0, rs, 0, j)
  {
    ghost var j := FirstMatch(rs, owner);
    readable, previous, mask := start, NULL, 0;
    ghost var k: nat := 0;
    assert Step(cells[..], R, rs, n, needle, 0);
    while !(owner == 0 || cells[readable].owner == owner)
      invariant k <= j && readable == R[k] && Step(cells[..], R, rs, n, needle, k)
      invariant k == 0 ==> previous == NULL
      invariant k > 0 ==> previous == R[k - 1]
      invariant mask == OrRange(0, rs, 0, k)
      decreases j - k
    {
      mask := WordOr(mask, cells[readable].owner);
      previous := readable;
      readable := cells[readable].next;
      k := k + 1;
      assert Step(cells[..], R, rs, n, needle, k);
    }
  }

  /** The part of the loop of `lr_read` after the match: the owner has been
      set to the sentinel, which no occupied cell carries, so the remaining
      cells of the run only have their tags ORed in, up to the cell after the
      run. The cell where the scan ends, the last of the run, is returned. */
  method Collect(cells: array<Cell>, start: int, needle: int, mask0: Word,
                 ghost R: seq<int>, ghost rs: seq<Record>, ghost n: nat, ghost j: nat)
      returns (previous: int, mask: Word)
    requires Trail(cells[..], R, rs, n, needle, j + 1) && |rs| == n && j + 1 < n <= |R|
    requires start == R[j + 1] && mask0 == OrRange(0, rs, 0, j)
    ensures previous == R[n - 1] && mask == OrTags(Without(rs, j))
  {
    var readable := start;
    mask := mask0;
    ghost var k: nat := j + 1;
    while true
      invariant j < k < n && readable == R[k]
      invariant mask == OrRange(mask0, rs, j + 1, k)
      decreases n - k
    {
      assert Step(cells[..], R, rs, n, needle, k);
      mask := WordOr(mask, cells[readable].owner);
      previous := readable;
      readable := cells[readable].next;
      k := k + 1;
      if readable == needle {
        break;
      }
    }
    OrRangeWithout(rs, j);
  }

  /** `lr_read` when the matching record is the last of the run: the cell
      before it is linked to it again (the link it already has), `write`
      steps back onto it, and a run that held only it loses its `read`. */
  method ReleaseLast(cells: array<Cell>, previous: int, readable: int, read0: int, write0: int, tail0: int,
                     ghost R: seq<int>, ghost n: nat, ghost owners0: Word, mask: Word)
      returns (read: int, write: int)
    requires Arena(cells[..], owners0, read0, write0, tail0, R, n) && tail0 != NULL && 0 < n
    requires readable == R[n - 1] && previous == (if n == 1 then NULL else R[n - 2])
    requires mask == OrTags(Without(Records(cells[..], R, n), n - 1))
    modifies cells
    ensures cells[..] == old(cells[..])
    ensures Arena(cells[..], mask, read, write, tail0, R, n - 1)
    ensures Records(cells[..], R, n - 1) == Without(Records(cells[..], R, n), n - 1)
  {
    ghost var cs0 := cells[..];
    if previous != NULL {
      RunStep(cs0, read0, write0, tail0, R, n, n - 2);
      cells[previous] := cells[previous].(next := readable);
      assert cells[..] == cs0;
      read := read0;
    } else {
      read := NULL;
    }
    write := readable;
    ArenaTaken(cs0, owners0, read0, write0, tail0, R, n, mask, read, write);
  }

  /** `lr_read` when the matching record j is not the last of the run: its
      cell is unlinked from the run and put at the head of the free region,
      and the cells behind it add their tags to the mask. */
  method ReleaseInner(cells: array<Cell>, previous: int, readable: int, next: int, read0: int, write0: int, tail0: int,
                      mask0: Word, ghost R: seq<int>, ghost n: nat, ghost owners0: Word, ghost j: nat)
      returns (owners: Word, read: int, write: int, tail: int, ghost order: seq<int>)
    requires Arena(cells[..], owners0, read0, write0, tail0, R, n) && tail0 != NULL && j + 1 < n
    requires readable == R[j] && previous == (if j == 0 then NULL else R[j - 1]) && next == R[j + 1]
    requires mask0 == OrRange(0, Records(cells[..], R, n), 0, j)
    modifies cells
    ensures |order| == |R| && tail != NULL
    ensures Arena(cells[..], owners, read, write, tail, order, n - 1)
    ensures Records(cells[..], order, n - 1) == Without(Records(old(cells[..]), R, n), j)
  {
    ghost var cs0 := cells[..];
    ghost var rs := Records(cs0, R, n);
    var needle := if write0 != NULL then write0 else read0;
    read := Bypass(cells, previous, readable, next, read0, write0, tail0, cs0, R, n, j);
    TrailUnlinked(cs0, read0, write0, tail0, R, n, j);
    var last;
    last, owners := Collect(cells, next, needle, mask0, R, rs, n, j);
    write, tail := LinkFreed(cells, last, readable, write0, tail0, cs0, R, n, j);
    order := Spliced(R, n, j);
    ArenaSpliced(cs0, owners0, read0, write0, tail0, R, n, j, cells[..], owners, read, write, tail, order);
  }

  /** `lr_read` past its gate, over the arena of a ring in use whose run
      holds a record of `owner`, with the ring's cursors and mask kept in
      locals. The cells before the match have their tags ORed into the new
      mask; the matching cell's data is taken; the last record of the run
      just leaves it, any other cell is unlinked from the run and put at the
      head of the free region, after which the cells behind it add their
      tags. The result is the arena of the run without that record. */
  method ReadScan(cells: array<Cell>, read0: int, write0: int, tail0: int, owner: Word,
                  ghost R: seq<int>, ghost n: nat, ghost owners0: Word)
      returns (data: Word, owners: Word, read: int, write: int, tail: int, ghost order: seq<int>)
    requires Arena(cells[..], owners0, read0, write0, tail0, R, n) && tail0 != NULL
    requires HasMatch(Records(cells[..], R, n), owner)
    modifies cells
    ensures var rs := Records(old(cells[..]), R, n);
      var j := FirstMatch(rs, owner);
      && data == rs[j].data && |order| == |R| && tail != NULL
      && Arena(cells[..], owners, read, write, tail, order, n - 1)
      && Records(cells[..], order, n - 1) == Without(rs, j)
  {
    ghost var cs0 := cells[..];
    ghost var rs := Records(cs0, R, n);
    ghost var j := FirstMatch(rs, owner);
    var needle := if write0 != NULL then write0 else read0;
    TrailInUse(cs0, read0, write0, tail0, R, n);
    var previous, readable, mask := Seek(cells, read0, needle, owner, R, rs, n);
    assert rs[j] == Record(cells[readable].data, cells[readable].owner);
    data := cells[readable].data;
    var next := cells[readable].next;
    RunStep(cs0, read0, write0, tail0, R, n, j);
    if next == needle {
      OrRangeWithout(rs, j);
      read, write := ReleaseLast(cells, previous, readable, read0, write0, tail0, R, n, owners0, mask);
      owners, tail, order := mask, tail0, R;
    } else {
      owners, read, write, tail, order := ReleaseInner(cells, previous, readable, next, read0, write0, tail0, mask, R, n, owners0, j);
    }
  }

  /** Owner 0 reads every record. */
  lemma {:induction false} CountAll(rs: seq<Record>)
    ensures Count(rs, 0) == |rs|
  {
    if |rs| > 0 {
      CountAll(rs[1..]);
    }
  }
}
