/** Two places where the ring buffer's code does not do what its design
    says, each shown on a concrete ring: the code as written, and the
    corrected behaviour that module LinkedRing models. */
module LinkedRingFindings {
  import opened Interface
  import opened Words
  import opened LinkedRingLayout
  import opened LinkedRing

  /** The fields of `struct linked_ring`, as values, with `cells` the arena. */
  datatype Fields = Fields(size: nat, cells: seq<Cell>, owners: Word, read: int, write: int, tail: int)

  /** The locals of the loop of `lr_read`, together with the ring. */
  datatype Visit = Visit(f: Fields, owner: Word, readable: int, previous: int, freed: int, needle: int, data: Word)

  /** How a call of `lr_read` ends: its result, the ring after it and the
      data it stored; or, on a ring whose links never come round to the
      needle, no end within the fuel given. */
  datatype Outcome = Returned(status: Status, f: Fields, data: Word) | Unfinished

  /** The cell a pointer designates (a zero cell for any other value). */
  function At(cs: seq<Cell>, x: int): Cell {
    if 0 <= x < |cs| then cs[x] else Cell(0, 0, NULL)
  }

  /** `x->next = v`. */
  function Relink(cs: seq<Cell>, x: int, v: int): seq<Cell> {
    if 0 <= x < |cs| then SetNext(cs, x, v) else cs
  }

  // ---------------------------------------------------------------------
  // lr_read as written

  /** `lr_read` as written, on any ring, with at most `fuel` turns of its
      loop after the first. `prior` is what the caller's data held. */
  function ReadAsWritten(f: Fields, owner: Word, prior: Word, fuel: nat): Outcome {
    var needle := if f.write != NULL then f.write else f.read;
    if LengthAsWritten(f, 0, owner) == 0 then Returned(ErrorBufferEmpty, f, prior)
    else Turn(Visit(f.(owners := 0), owner, f.read, NULL, NULL, needle, prior), fuel)
  }

  /** One turn of the loop of `lr_read`, at the cell `readable`. */
  function Turn(v: Visit, fuel: nat): Outcome
    decreases fuel, 1
  {
    var cell := At(v.f.cells, v.readable);
    if v.owner == 0 || cell.owner == v.owner then
      var got := v.(owner := SENTINEL, data := cell.data);
      if v.previous != NULL then
        if cell.next == v.needle then
          Returned(Ok, v.f.(write := v.readable, cells := Relink(v.f.cells, v.previous, v.readable)), cell.data)
        else
          Advance(Free(got.(f := got.f.(cells := Relink(v.f.cells, v.previous, cell.next)))), cell.next, fuel)
      else
        if cell.next == v.needle then
          Returned(Ok, v.f.(read := NULL, write := v.readable), cell.data)
        else
          var moved := v.f.(read := cell.next);
          Advance(Free(got.(f := moved.(cells := Relink(moved.cells, moved.tail, moved.read)))), cell.next, fuel)
    else
      Advance(v.(f := v.f.(owners := WordOr(v.f.owners, cell.owner))), cell.next, fuel)
  }

  /** The matching cell becomes the freed cell: it is linked to `write`, or
      to `read` when there is no free cell, and a needle that pointed at it
      moves to the tail. */
  function Free(v: Visit): Visit {
    var cs := Relink(v.f.cells, v.readable, if v.f.write != NULL then v.f.write else v.f.read);
    v.(f := v.f.(cells := cs), freed := v.readable, needle := if v.needle == v.readable then v.f.tail else v.needle)
  }

  /** The end of a turn: the scan steps to `next` and goes on unless that is
      the needle; after the loop, an unmatched owner gets
      `ERROR_BUFFER_EMPTY`, and otherwise the cell where the scan ended is
      linked to the freed cell, which becomes `write` (and, on a full ring,
      the tail). */
  function Advance(v: Visit, next: int, fuel: nat): Outcome
    decreases fuel, 0
  {
    var w := v.(previous := v.readable, readable := next);
    if w.readable != w.needle then
      if fuel == 0 then Unfinished else Turn(w, fuel - 1)
    else if w.owner != SENTINEL then
      Returned(ErrorBufferEmpty, w.f, w.data)
    else
      var cs := Relink(w.f.cells, w.previous, w.freed);
      Returned(Ok, w.f.(cells := cs, tail := if w.f.write == NULL then w.freed else w.f.tail, write := w.freed), w.data)
  }

  /** `lr_length_limited_owned` as written, on the cells. */
  function LengthAsWritten(f: Fields, limit: nat, owner: Word): nat {
    var needle := if f.write != NULL then f.write else f.read;
    if f.read == NULL then 0
    else if owner != 0 && !Covers(f.owners, owner) then 0
    else if owner == 0 && f.write == NULL then f.size % 0x1_0000
    else Tally(f.cells, f.read, needle, limit, owner, 0, |f.cells|)
  }

  /** The counting loop of `lr_length_limited_owned` on the cells. */
  function Tally(cs: seq<Cell>, counter: int, needle: int, limit: nat, owner: Word, length: nat, fuel: nat): nat
    decreases fuel
  {
    var counted := if owner == 0 || At(cs, counter).owner == owner then (length + 1) % 256 else length;
    var next := At(cs, counter).next;
    if fuel > 0 && next != needle && (limit == 0 || limit == counted) then
      Tally(cs, next, needle, limit, owner, counted, fuel - 1)
    else counted
  }

  /** The records met on the links from cell `at` up to, not including,
      cell `stop`. */
  function Walk(cs: seq<Cell>, at: int, stop: int, fuel: nat): seq<Record>
    decreases fuel
  {
    if fuel == 0 || at == stop || !(0 <= at < |cs|) then []
    else [Record(cs[at].data, cs[at].owner)] + Walk(cs, cs[at].next, stop, fuel - 1)
  }

  /** A full ring of size 2: three cells holding a, b and c in that order,
      linked in a cycle, with no free cell. */
  function FullOfThree(): Fields {
    Fields(2, [Cell(10, 0, 1), Cell(20, 0, 2), Cell(30, 0, 0)], 0, 0, NULL, 2)
  }

  /** The run of the full ring: a, b, c. */
  function ThreeRecords(): seq<Record> {
    [Record(10, 0), Record(20, 0), Record(30, 0)]
  }

  /** The full ring of three is a ring in use by the model's standard. */
  lemma FullOfThreeIsARing()
    ensures var f := FullOfThree();
      && Arena(f.cells, f.owners, f.read, f.write, f.tail, [0, 1, 2], 3)
      && Records(f.cells, [0, 1, 2], 3) == ThreeRecords()
  {
    var f := FullOfThree();
    var R := [0, 1, 2];
    assert Order(f.cells, R);
    assert Records(f.cells, R, 3) == ThreeRecords();
    assert AllLinked(f.cells, R, 3) by {
      forall i | 0 <= i < 3 ensures Link(f.cells, R, 3, i) {
        assert Succ(R, i) == if i == 2 then 0 else i + 1;
      }
    }
  }

  /** Reading the head record of a full ring as written delivers it, but
      only b stays readable: the tail's link is moved to the new head, the
      needle moves to the tail, and the loop stops before the tail, whose
      cell c then drops out of the ring for good (no cell links to it).
      The corrected read keeps b and c. */
  lemma {:induction false} FullRingHeadReadLosesRecord()
    ensures var o := ReadAsWritten(FullOfThree(), 0, 0, 3);
      && o.Returned? && o.status == Ok && o.data == 10
      && o.f.read == 1 && o.f.write == 0
      && Walk(o.f.cells, o.f.read, o.f.write, 3) == [Record(20, 0)]
      && (forall x :: 0 <= x < |o.f.cells| ==> o.f.cells[x].next != 2)
    ensures HasMatch(ThreeRecords(), 0)
    ensures Without(ThreeRecords(), FirstMatch(ThreeRecords(), 0)) == [Record(20, 0), Record(30, 0)]
  {
    assert Matches(ThreeRecords()[0], 0);
    var f := FullOfThree();
    assert LengthAsWritten(f, 0, 0) == 2;
    var v0 := Visit(f.(owners := 0), 0, 0, NULL, NULL, 0, 0);
    var f1 := f.(owners := 0, read := 1, cells := [Cell(10, 0, 1), Cell(20, 0, 2), Cell(30, 0, 1)]);
    var v1 := Visit(f1, SENTINEL, 0, NULL, 0, 2, 10);
    assert Free(v0.(owner := SENTINEL, data := 10).(f := f.(owners := 0, read := 1, cells := Relink(f.cells, 2, 1)))) == v1;
    assert Turn(v0, 3) == Advance(v1, 1, 3);
    var v2 := Visit(f1, SENTINEL, 1, 0, 0, 2, 10);
    assert Advance(v1, 1, 3) == Turn(v2, 2);
    var v3 := v2.(f := f1.(owners := WordOr(0, 0)));
    assert Turn(v2, 2) == Advance(v3, 2, 2);
    OrZero(0);
    var cs := [Cell(10, 0, 1), Cell(20, 0, 0), Cell(30, 0, 1)];
    assert Advance(v3, 2, 2) == Returned(Ok, f1.(cells := cs, tail := 0, write := 0), 10);
    assert Walk(cs, 1, 0, 3) == [Record(20, 0)];
  }

  // ---------------------------------------------------------------------
  // lr_exists

  /** Two records of different owners, 2 and 4. */
  function TwoOwners(): seq<Record> {
    [Record(1, 2), Record(3, 4)]
  }

  /** `lr_exists` as written (limit 1 with the loop condition
      `!limit || limit == length`) answers 0 for owner 4, whose record is
      the second of the run: the scan stops after the first cell, which is
      not the owner's, because the counter (0) differs from the limit. */
  lemma ExistsMissesSecondRecord()
    ensures HasMatch(TwoOwners(), 4)
    ensures LengthOf(TwoOwners(), false, OrTags(TwoOwners()), 2, 1, 4) == 0
  {
    var rs := TwoOwners();
    assert Matches(rs[1], 4);
    assert OrTags(rs) == WordOr(WordOr(0, 2), 4);
    OrZero(2);
    assert Or(2, 4) == 6;
    assert And(6, 4) == 4;
    assert Scan(rs, 4, 1, 0, 0) == 0;
  }

  /** The scan the length function evidently intends: a nonzero limit caps
      the count, so the loop goes on while the counter is below it. */
  function CappedScan(rs: seq<Record>, owner: Word, limit: nat, k: nat, length: nat): (counted: nat)
    requires k < |rs| && length < 256
    ensures counted < 256
    decreases |rs| - k
  {
    var counted := if Matches(rs[k], owner) then (length + 1) % 256 else length;
    if k + 1 < |rs| && (limit == 0 || counted < limit) then CappedScan(rs, owner, limit, k + 1, counted) else counted
  }

  /** The length function with the capped scan. */
  function CappedLength(rs: seq<Record>, full: bool, owners: Word, size: nat, limit: nat, owner: Word): (len: nat)
    ensures len < 0x1_0000
  {
    if |rs| == 0 then 0
    else if owner != 0 && !Covers(owners, owner) then 0
    else if owner == 0 && full then size % 0x1_0000
    else CappedScan(rs, owner, limit, 0, 0)
  }

  /** With a limit below 256, the capped scan from position k counts the
      owner's records there, up to the limit. */
  lemma {:induction false} CappedScanCounts(rs: seq<Record>, owner: Word, limit: nat, k: nat, length: nat)
    requires k < |rs| && 0 < limit < 256 && length < limit
    ensures CappedScan(rs, owner, limit, k, length) == Min(length + Count(rs[k..], owner), limit)
    decreases |rs| - k
  {
    var step := if Matches(rs[k], owner) then 1 else 0;
    assert rs[k..][1..] == rs[k + 1..];
    if k + 1 < |rs| && length + step < limit {
      CappedScanCounts(rs, owner, limit, k + 1, length + step);
    }
  }

  function Min(a: nat, b: nat): nat {
    if a < b then a else b
  }

  /** The corrected `lr_exists` is 1 exactly when the owner has a record in
      the run, and 0 otherwise (for owner 0 on a full ring it reports the
      size, as the length function does). */
  lemma CappedExists(rs: seq<Record>, full: bool, size: nat, owner: Word)
    requires owner != 0 || !full
    ensures CappedLength(rs, full, OrTags(rs), size, 1, owner) == if HasMatch(rs, owner) then 1 else 0
  {
    if |rs| > 0 {
      CappedScanCounts(rs, owner, 1, 0, 0);
      CountPositive(rs, owner);
      if HasMatch(rs, owner) {
        MaskKeepsPresent(rs, owner);
      }
    }
  }
}
