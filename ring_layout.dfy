/** The arena of an owner-tagged linked ring, seen as values: the cells, the
    cyclic order in which their `next` links visit them, and the records of
    the occupied run. The ring class in module LinkedRing keeps its arena in
    this shape; the lemmas here show that writing and unlinking keep it. */
module LinkedRingLayout {
  import opened Words

  /** The null `next` pointer; cells are addressed by their index. */
  const NULL: int := -1

  /** The tag `lr_read` gives its owner once it has found its cell, so that no
      later cell matches again. */
  const SENTINEL: Word := 0xFFFF

  /** `struct lr_cell`: a data word, an owner tag and a successor link. */
  datatype Cell = Cell(data: Word, owner: Word, next: int)

  /** What an occupied cell holds. */
  datatype Record = Record(data: Word, owner: Word)

  /** A cell owner 0 reads any record; any other owner reads its own. */
  predicate Matches(r: Record, owner: Word) {
    owner == 0 || r.owner == owner
  }

  predicate HasMatch(rs: seq<Record>, owner: Word) {
    exists i :: 0 <= i < |rs| && Matches(rs[i], owner)
  }

  /** The position of the first record the owner reads. */
  function FirstMatch(rs: seq<Record>, owner: Word): (j: nat)
    requires HasMatch(rs, owner)
    ensures j < |rs| && Matches(rs[j], owner)
    ensures forall i :: 0 <= i < j ==> !Matches(rs[i], owner)
  {
    if Matches(rs[0], owner) then 0
    else
      assert HasMatch(rs[1..], owner) by {
        var i :| 0 <= i < |rs| && Matches(rs[i], owner);
        assert rs[1..][i - 1] == rs[i];
      }
      1 + FirstMatch(rs[1..], owner)
  }

  /** The mask a scan builds when it starts from `base` and ORs in the tags
      of positions a up to k - 1, one after the other. */
  function OrRange(base: Word, rs: seq<Record>, a: nat, k: nat): Word
    requires a <= k <= |rs|
    decreases k - a
  {
    if k == a then base else WordOr(OrRange(base, rs, a, k - 1), rs[k - 1].owner)
  }

  /** The bitwise OR of the owner tags of a list of records. */
  function OrTags(rs: seq<Record>): Word {
    OrRange(0, rs, 0, |rs|)
  }

  /** The mask depends only on the tags it takes in. */
  lemma {:induction false} OrRangeAgree(base: Word, rs: seq<Record>, us: seq<Record>, a: nat, k: nat)
    requires a <= k <= |rs| && k <= |us|
    requires forall i :: a <= i < k ==> rs[i].owner == us[i].owner
    ensures OrRange(base, rs, a, k) == OrRange(base, us, a, k)
    decreases k - a
  {
    if k > a {
      OrRangeAgree(base, rs, us, a, k - 1);
    }
  }

  /** The OR of one tag is that tag. */
  lemma OrTagsSingle(r: Record)
    ensures OrTags([r]) == r.owner
  {
    OrZero(r.owner);
  }

  /** Appending a record ORs its tag in. */
  lemma OrTagsSnoc(rs: seq<Record>, r: Record)
    ensures OrTags(rs + [r]) == WordOr(OrTags(rs), r.owner)
  {
    OrRangeAgree(0, rs + [r], rs, 0, |rs|);
  }

  /** A scan that has passed position i has i's tag in its mask. */
  lemma {:induction false} TagWithinRange(rs: seq<Record>, i: nat, k: nat)
    requires i < k <= |rs|
    ensures Covers(OrRange(0, rs, 0, k), rs[i].owner)
    decreases k
  {
    if i < k - 1 {
      TagWithinRange(rs, i, k - 1);
      AndOrKeeps(OrRange(0, rs, 0, k - 1), rs[k - 1].owner, rs[i].owner);
    } else {
      AndOrAbsorbs(OrRange(0, rs, 0, k - 1), rs[i].owner);
    }
  }

  /** Every record's tag is contained in the OR of all tags. */
  lemma TagWithinOr(rs: seq<Record>, i: nat)
    requires i < |rs|
    ensures Covers(OrTags(rs), rs[i].owner)
  {
    TagWithinRange(rs, i, |rs|);
  }

  /** The successor of position i in the cyclic order R. */
  function Succ(R: seq<int>, i: nat): int
    requires i < |R|
  {
    if i + 1 == |R| then R[0] else R[i + 1]
  }

  /** The order 0, 1, ..., m - 1 of an arena nobody has written into. */
  function Iota(m: nat): (R: seq<int>)
    ensures |R| == m && forall i :: 0 <= i < m ==> R[i] == i
  {
    seq(m, i => i)
  }

  /** Every cell still has the null link of a zeroed arena. */
  predicate Pristine(cs: seq<Cell>) {
    forall i :: 0 <= i < |cs| ==> cs[i].next == NULL
  }

  /** The order R names cells of the arena, each once. */
  predicate Order(cs: seq<Cell>, R: seq<int>) {
    && (forall i :: 0 <= i < |R| ==> 0 <= R[i] < |cs|)
    && (forall i, j :: 0 <= i < j < |R| ==> Apart(R, i, j))
  }

  /** The i-th and j-th cells of R are different cells. (Kept as a predicate
      of its own so that the distinctness of R is used only where a proof
      names the two positions.) */
  predicate Apart(R: seq<int>, i: nat, j: nat)
    requires i < |R| && j < |R|
  {
    R[i] != R[j]
  }

  /** An order names each cell once. */
  lemma Injective(cs: seq<Cell>, R: seq<int>)
    requires Order(cs, R)
    ensures forall a, b :: 0 <= a < b < |R| ==> R[a] != R[b]
  {
    forall a, b | 0 <= a < b < |R| ensures R[a] != R[b] {
      assert Apart(R, a, b);
    }
  }

  /** The link of the cell at position i leads to its successor in R, or it
      is still null: a never-used free cell, which `lr_write` links to the
      next cell of the arena, and that cell is its successor. */
  predicate Link(cs: seq<Cell>, R: seq<int>, n: nat, i: nat)
    requires Order(cs, R) && i < |R|
  {
    || cs[R[i]].next == Succ(R, i)
    || (n <= i && i + 1 < |R| && cs[R[i]].next == NULL && R[i + 1] == R[i] + 1)
  }

  /** Every link follows the order. */
  predicate AllLinked(cs: seq<Cell>, R: seq<int>, n: nat)
    requires Order(cs, R)
  {
    forall i :: 0 <= i < |R| ==> Link(cs, R, n, i)
  }

  /** No occupied cell carries the sentinel tag. */
  predicate Tagged(cs: seq<Cell>, R: seq<int>, n: nat)
    requires Order(cs, R) && n <= |R|
  {
    forall i :: 0 <= i < n ==> cs[R[i]].owner != SENTINEL
  }

  /** The records of the first n cells of R, the occupied run. */
  function Records(cs: seq<Cell>, R: seq<int>, n: nat): (rs: seq<Record>)
    requires Order(cs, R) && n <= |R|
    ensures |rs| == n
    ensures forall i {:trigger rs[i]} :: 0 <= i < n ==> rs[i] == Record(cs[R[i]].data, cs[R[i]].owner)
  {
    seq(n, i requires 0 <= i < n => Record(cs[R[i]].data, cs[R[i]].owner))
  }

  /** Cell R[k] holds the k-th record of rs. */
  predicate Stores(cs: seq<Cell>, R: seq<int>, rs: seq<Record>, k: nat) {
    && k < |R| && k < |rs| && 0 <= R[k] < |cs|
    && rs[k] == Record(cs[R[k]].data, cs[R[k]].owner)
  }

  /** n records are the run of the first n cells of R exactly when each of
      those cells holds its record. */
  lemma StoresRecords(cs: seq<Cell>, R: seq<int>, rs: seq<Record>, n: nat)
    requires Order(cs, R) && n <= |R| && |rs| == n
    ensures rs == Records(cs, R, n) <==> forall k :: 0 <= k < n ==> Stores(cs, R, rs, k)
  {
    if forall k :: 0 <= k < n ==> Stores(cs, R, rs, k) {
      forall k | 0 <= k < n
        ensures rs[k] == Records(cs, R, n)[k]
      {
        assert Stores(cs, R, rs, k);
      }
    }
  }

  /** A linked ring in use: the cursors and the links agree with the order R
      whose first n cells are occupied. `read` is the first occupied cell
      (null when none is), `write` the first free cell (null when none is),
      `tail` the last cell of the order; no occupied cell carries the
      sentinel tag. (The owner mask is kept apart, in the ring class.) */
  predicate InUse(cs: seq<Cell>, read: int, write: int, tail: int, R: seq<int>, n: nat) {
    && 2 <= |R| && Order(cs, R) && n <= |R|
    && read == (if n == 0 then NULL else R[0])
    && write == (if n == |R| then NULL else R[n])
    && tail == R[|R| - 1]
    && AllLinked(cs, R, n)
    && Tagged(cs, R, n)
  }

  /** Following the link of the k-th occupied cell leads to the next cell
      of the order, and it comes back to the cell after the run (`write`, or
      `read` on a full ring) exactly when the k-th cell is the last one. */
  lemma RunStep(cs: seq<Cell>, read: int, write: int, tail: int, R: seq<int>, n: nat, k: nat)
    requires InUse(cs, read, write, tail, R, n) && k < n
    ensures cs[R[k]].next == Succ(R, k)
    ensures cs[R[k]].next == (if write != NULL then write else read) <==> k + 1 == n
  {
    assert Link(cs, R, n, k);
    Injective(cs, R);
  }

  /** `cs` with the link of cell x set to v. */
  function SetNext(cs: seq<Cell>, x: int, v: int): seq<Cell>
    requires 0 <= x < |cs|
  {
    cs[x := cs[x].(next := v)]
  }

  /** The arena after the first write into a pristine one: the last cell is
      linked to cell 0, which holds the record and is linked to cell 1. */
  function Started(cs: seq<Cell>, d: Word, o: Word): seq<Cell>
    requires |cs| >= 2
  {
    SetNext(cs, |cs| - 1, 0)[0 := Cell(d, o, 1)]
  }

  lemma StartedLink(cs: seq<Cell>, d: Word, o: Word, i: nat)
    requires Pristine(cs) && |cs| >= 2 && i < |cs|
    ensures Order(Started(cs, d, o), Iota(|cs|)) && Link(Started(cs, d, o), Iota(|cs|), 1, i)
  {
    var cs' := Started(cs, d, o);
    var R := Iota(|cs|);
    if 0 < i < |cs| - 1 {
      assert cs'[i] == cs[i];
      assert cs'[R[i]].next == NULL && R[i + 1] == R[i] + 1;
    }
  }

  /** The first write into a pristine arena of m + 1 cells: the order is the
      arena's own and cell 0 is occupied. */
  lemma FirstWrite(cs: seq<Cell>, d: Word, o: Word)
    requires Pristine(cs) && |cs| >= 2 && o != SENTINEL
    ensures Order(Started(cs, d, o), Iota(|cs|))
    ensures InUse(Started(cs, d, o), 0, 1, |cs| - 1, Iota(|cs|), 1)
    ensures Records(Started(cs, d, o), Iota(|cs|), 1) == [Record(d, o)]
  {
    var cs' := Started(cs, d, o);
    var R := Iota(|cs|);
    StartedLink(cs, d, o, 0);
    forall i | 0 <= i < |R| ensures Link(cs', R, 1, i) {
      StartedLink(cs, d, o, i);
    }
    assert Records(cs', R, 1) == [Record(d, o)];
  }

  /** A write into the first free cell of a ring in use: that cell takes the
      record and its successor link, the record joins the end of the run, and
      `write` moves to the next cell or to null when the run has closed. */
  lemma Append(cs: seq<Cell>, read: int, tail: int, R: seq<int>, n: nat, d: Word, o: Word)
    requires n < |R| && InUse(cs, read, R[n], tail, R, n) && o != SENTINEL
    ensures var cs' := cs[R[n] := Cell(d, o, Succ(R, n))];
      && InUse(cs', R[0], if n + 1 == |R| then NULL else R[n + 1], tail, R, n + 1)
      && Records(cs', R, n + 1) == Records(cs, R, n) + [Record(d, o)]
  {
    var cs' := cs[R[n] := Cell(d, o, Succ(R, n))];
    var m := n + 1;
    Injective(cs, R);
    forall i | 0 <= i < |R| ensures Link(cs', R, m, i) {
      assert Link(cs, R, n, i);
      if i != n {
        assert cs'[R[i]] == cs[R[i]];
      }
    }
    var old_ := Records(cs, R, n);
    var new_ := Records(cs', R, n + 1);
    forall i | 0 <= i < n ensures new_[i] == old_[i] {
      assert cs'[R[i]] == cs[R[i]];
    }
    assert new_ == old_ + [Record(d, o)];
  }

  /** The order after the record at position j of the run has been taken
      out: the rest of the run keeps its order, the freed cell follows it as
      the first free cell, and the free cells keep theirs. */
  function Spliced(R: seq<int>, n: nat, j: nat): seq<int>
    requires j < n <= |R|
  {
    R[..j] + R[j + 1..n] + [R[j]] + R[n..]
  }

  /** Where each position of the spliced order comes from. */
  lemma SplicedAt(R: seq<int>, n: nat, j: nat)
    requires j < n <= |R|
    ensures |Spliced(R, n, j)| == |R|
    ensures forall i :: 0 <= i < |R| ==>
      Spliced(R, n, j)[i] == if i < j then R[i] else if i < n - 1 then R[i + 1] else if i == n - 1 then R[j] else R[i]
  {
  }

  /** The records of the run without the one at position j. */
  function Without(rs: seq<Record>, j: nat): seq<Record>
    requires j < |rs|
  {
    rs[..j] + rs[j + 1..]
  }

  /** The links `lr_read` has rewritten once it has unlinked the cell at
      position j, which is not the last of the run: the predecessor (or, when
      j is the head and some cell is free, the tail) is linked past it, and
      the freed cell is linked to the first free cell, or to the head when
      the ring was full. */
  function Unlinked(cs: seq<Cell>, R: seq<int>, n: nat, j: nat): seq<Cell>
    requires Order(cs, R) && j + 1 < n <= |R|
  {
    var L := |R|;
    var bypassed :=
      if j > 0 then SetNext(cs, R[j - 1], R[j + 1])
      else if n < L then SetNext(cs, R[L - 1], R[1])
      else cs;
    SetNext(bypassed, R[j], if n < L then R[n] else if j == 0 then R[1] else R[0])
  }

  /** The cells of the run after position j keep everything they held,
      links included, when position j is unlinked. */
  lemma UnlinkedKeeps(cs: seq<Cell>, R: seq<int>, n: nat, j: nat, k: nat)
    requires Order(cs, R) && j + 1 < n <= |R| && j < k < n
    ensures |Unlinked(cs, R, n, j)| == |cs| && Unlinked(cs, R, n, j)[R[k]] == cs[R[k]]
  {
    Injective(cs, R);
  }

  /** A scan that skips position j: the mask of the positions before j,
      with the tags from j + 1 on ORed in, is the mask of the run without j
      up to the same point. */
  lemma {:induction false} OrRangeSkip(rs: seq<Record>, j: nat, k: nat)
    requires j < k <= |rs|
    ensures OrRange(OrRange(0, rs, 0, j), rs, j + 1, k) == OrRange(0, Without(rs, j), 0, k - 1)
    decreases k
  {
    var w := Without(rs, j);
    if k == j + 1 {
      OrRangeAgree(0, rs, w, 0, j);
    } else {
      OrRangeSkip(rs, j, k - 1);
      assert w[k - 2] == rs[k - 1];
    }
  }

  /** Going on past j to the end of the run gives the OR of the tags of all
      the records but the j-th. */
  lemma OrRangeWithout(rs: seq<Record>, j: nat)
    requires j < |rs|
    ensures OrRange(OrRange(0, rs, 0, j), rs, j + 1, |rs|) == OrTags(Without(rs, j))
  {
    OrRangeSkip(rs, j, |rs|);
  }

  /** Position k of the run, as a scan of `lr_read` sees it: its cell holds
      the k-th record's tag and links to the next cell of the run or, for the
      last one, to `needle`, the cell after the run, which no earlier link
      reaches. */
  predicate Step(cs: seq<Cell>, R: seq<int>, rs: seq<Record>, n: nat, needle: int, k: nat) {
    && k < n <= |R| && n <= |rs| && 0 <= R[k] < |cs|
    && cs[R[k]].owner == rs[k].owner && cs[R[k]].data == rs[k].data
    && cs[R[k]].next == (if k + 1 == n then needle else R[k + 1])
    && (k + 1 < n ==> R[k + 1] != needle)
  }

  /** The scan can follow the run from position `from` to its end. */
  predicate Trail(cs: seq<Cell>, R: seq<int>, rs: seq<Record>, n: nat, needle: int, from: nat) {
    forall k :: from <= k < n ==> Step(cs, R, rs, n, needle, k)
  }

  /** A ring in use can be followed from its head. */
  lemma TrailInUse(cs: seq<Cell>, read: int, write: int, tail: int, R: seq<int>, n: nat)
    requires InUse(cs, read, write, tail, R, n)
    ensures Trail(cs, R, Records(cs, R, n), n, if write != NULL then write else read, 0)
  {
    var rs := Records(cs, R, n);
    var needle := if write != NULL then write else read;
    forall k | 0 <= k < n ensures Step(cs, R, rs, n, needle, k) {
      RunStep(cs, read, write, tail, R, n, k);
      if k + 1 < n {
        RunStep(cs, read, write, tail, R, n, k + 1);
      }
    }
  }

  /** Once position j has been unlinked, the run after it can still be
      followed. */
  lemma TrailUnlinked(cs: seq<Cell>, read: int, write: int, tail: int, R: seq<int>, n: nat, j: nat)
    requires InUse(cs, read, write, tail, R, n) && j + 1 < n
    ensures Trail(Unlinked(cs, R, n, j), R, Records(cs, R, n), n, if write != NULL then write else read, j + 1)
  {
    var rs := Records(cs, R, n);
    var needle := if write != NULL then write else read;
    TrailInUse(cs, read, write, tail, R, n);
    forall k | j + 1 <= k < n ensures Step(Unlinked(cs, R, n, j), R, rs, n, needle, k) {
      UnlinkedKeeps(cs, R, n, j, k);
      assert Step(cs, R, rs, n, needle, k);
    }
  }

  /** Where the freed cell is linked: the first free cell, or the new head
      when the ring was full. */
  function FreedNext(R: seq<int>, n: nat, j: nat): int
    requires j + 1 < n <= |R|
  {
    if n < |R| then R[n] else if j == 0 then R[1] else R[0]
  }

  /** The arena once `lr_read` has unlinked position j and, after its scan,
      linked the last cell of the run to the freed cell. */
  function Relinked(cs: seq<Cell>, R: seq<int>, n: nat, j: nat): seq<Cell>
    requires Order(cs, R) && j + 1 < n <= |R|
  {
    SetNext(Unlinked(cs, R, n, j), R[n - 1], R[j])
  }

  /** Each cell of the relinked arena: records unchanged, and the link of
      the four rewritten cells replaced. */
  lemma RelinkedAt(cs: seq<Cell>, R: seq<int>, n: nat, j: nat, x: int)
    requires Order(cs, R) && j + 1 < n <= |R| && 0 <= x < |cs|
    ensures |Relinked(cs, R, n, j)| == |cs|
    ensures var c := Relinked(cs, R, n, j)[x];
      && c.data == cs[x].data && c.owner == cs[x].owner
      && c.next == if x == R[n - 1] then R[j]
                   else if x == R[j] then FreedNext(R, n, j)
                   else if j > 0 && x == R[j - 1] then R[j + 1]
                   else if j == 0 && n < |R| && x == R[|R| - 1] then R[1]
                   else cs[x].next
  {
  }

  /** The spliced order names every cell of the order once. */
  lemma SplicedOrder(cs: seq<Cell>, R: seq<int>, n: nat, j: nat)
    requires Order(cs, R) && j < n <= |R|
    ensures Order(cs, Spliced(R, n, j))
  {
    var R' := Spliced(R, n, j);
    SplicedAt(R, n, j);
    Injective(cs, R);
    forall a, b | 0 <= a < b < |R'| ensures Apart(R', a, b) {
      var sa := if a < j then a else if a < n - 1 then a + 1 else if a == n - 1 then j else a;
      var sb := if b < j then b else if b < n - 1 then b + 1 else if b == n - 1 then j else b;
      assert R'[a] == R[sa] && R'[b] == R[sb] && sa != sb;
    }
  }

  /** The link at position i of the run of the relinked arena follows the
      spliced order: cells before j keep their links, the predecessor of j
      is linked past it, and the last cell of the run to the freed cell. */
  lemma SplicedLinkInRun(cs: seq<Cell>, read: int, write: int, tail: int, R: seq<int>, n: nat, j: nat, i: nat)
    requires j + 1 < n && InUse(cs, read, write, tail, R, n) && i < n - 1
    ensures Order(Relinked(cs, R, n, j), Spliced(R, n, j))
    ensures Link(Relinked(cs, R, n, j), Spliced(R, n, j), n - 1, i)
  {
    SplicedAt(R, n, j);
    SplicedOrder(cs, R, n, j);
    Injective(cs, R);
    RelinkedAt(cs, R, n, j, 0);
    if i < j {
      RelinkedAt(cs, R, n, j, R[i]);
      assert Link(cs, R, n, i);
    } else {
      RelinkedAt(cs, R, n, j, R[i + 1]);
      assert Link(cs, R, n, i + 1);
    }
  }

  /** The link at position i from the freed cell on follows the spliced
      order: the freed cell leads to the first free cell (or the head), and
      the free cells keep their links, the tail's leading to the head. */
  lemma SplicedLinkFree(cs: seq<Cell>, read: int, write: int, tail: int, R: seq<int>, n: nat, j: nat, i: nat)
    requires j + 1 < n && InUse(cs, read, write, tail, R, n) && n - 1 <= i < |R|
    ensures Order(Relinked(cs, R, n, j), Spliced(R, n, j))
    ensures Link(Relinked(cs, R, n, j), Spliced(R, n, j), n - 1, i)
  {
    SplicedAt(R, n, j);
    SplicedOrder(cs, R, n, j);
    Injective(cs, R);
    RelinkedAt(cs, R, n, j, 0);
    if i == n - 1 {
      RelinkedAt(cs, R, n, j, R[j]);
    } else {
      RelinkedAt(cs, R, n, j, R[i]);
      assert Link(cs, R, n, i);
    }
  }

  /** Every link of the relinked arena follows the spliced order. */
  lemma SplicedLinks(cs: seq<Cell>, read: int, write: int, tail: int, R: seq<int>, n: nat, j: nat)
    requires j + 1 < n && InUse(cs, read, write, tail, R, n)
    ensures Order(Relinked(cs, R, n, j), Spliced(R, n, j))
    ensures AllLinked(Relinked(cs, R, n, j), Spliced(R, n, j), n - 1)
  {
    var cs' := Relinked(cs, R, n, j);
    var R' := Spliced(R, n, j);
    var m := n - 1;
    SplicedLinkFree(cs, read, write, tail, R, n, j, n - 1);
    forall i | 0 <= i < |R| ensures Link(cs', R', m, i) {
      if i < n - 1 {
        SplicedLinkInRun(cs, read, write, tail, R, n, j, i);
      } else {
        SplicedLinkFree(cs, read, write, tail, R, n, j, i);
      }
    }
    SplicedAt(R, n, j);
  }

  /** Position i of the relinked run holds the record at position i of the
      run without j. */
  lemma SplicedRecordAt(cs: seq<Cell>, R: seq<int>, n: nat, j: nat, i: nat)
    requires Order(cs, R) && j + 1 < n <= |R| && i < n - 1
    ensures Order(Relinked(cs, R, n, j), Spliced(R, n, j))
    ensures Records(Relinked(cs, R, n, j), Spliced(R, n, j), n - 1)[i] == Without(Records(cs, R, n), j)[i]
  {
    var rs := Records(cs, R, n);
    SplicedAt(R, n, j);
    SplicedOrder(cs, R, n, j);
    RelinkedAt(cs, R, n, j, 0);
    if i < j {
      RelinkedAt(cs, R, n, j, R[i]);
      assert Without(rs, j)[i] == rs[i];
    } else {
      RelinkedAt(cs, R, n, j, R[i + 1]);
      assert Without(rs, j)[i] == rs[i + 1];
    }
  }

  /** The run of the relinked arena holds the other records in their order. */
  lemma SplicedRecords(cs: seq<Cell>, R: seq<int>, n: nat, j: nat)
    requires Order(cs, R) && j + 1 < n <= |R|
    ensures Order(Relinked(cs, R, n, j), Spliced(R, n, j))
    ensures Records(Relinked(cs, R, n, j), Spliced(R, n, j), n - 1) == Without(Records(cs, R, n), j)
  {
    SplicedRecordAt(cs, R, n, j, 0);
    var rs' := Records(Relinked(cs, R, n, j), Spliced(R, n, j), n - 1);
    var w := Without(Records(cs, R, n), j);
    forall i | 0 <= i < n - 1 ensures rs'[i] == w[i] {
      SplicedRecordAt(cs, R, n, j, i);
    }
  }

  /** Taking the last record of the run: no link changes, the run is one
      shorter, and its last cell becomes the first free one. */
  lemma TakeLast(cs: seq<Cell>, read: int, write: int, tail: int, R: seq<int>, n: nat)
    requires 0 < n && InUse(cs, read, write, tail, R, n)
    ensures var rs := Records(cs, R, n);
      && InUse(cs, if n == 1 then NULL else R[0], R[n - 1], tail, R, n - 1)
      && Records(cs, R, n - 1) == Without(rs, n - 1)
  {
    var rs := Records(cs, R, n);
    var m := n - 1;
    forall i | 0 <= i < |R| ensures Link(cs, R, m, i) {
      assert Link(cs, R, n, i);
    }
    assert Records(cs, R, n - 1) == rs[..n - 1];
    assert Without(rs, n - 1) == rs[..n - 1];
  }

  /** Taking the record at position j from the middle or the head of the
      run, and then linking the last cell of the run to the freed cell,
      gives a ring in use over the spliced order, whose run holds the other
      records in their order. */
  lemma Splice(cs: seq<Cell>, read: int, write: int, tail: int, R: seq<int>, n: nat, j: nat)
    requires j + 1 < n && InUse(cs, read, write, tail, R, n)
    ensures Order(Relinked(cs, R, n, j), Spliced(R, n, j))
    ensures InUse(Relinked(cs, R, n, j), if j == 0 then R[1] else R[0], R[j],
                  if n < |R| then R[|R| - 1] else R[j], Spliced(R, n, j), n - 1)
    ensures Records(Relinked(cs, R, n, j), Spliced(R, n, j), n - 1) == Without(Records(cs, R, n), j)
  {
    var R' := Spliced(R, n, j);
    var cs' := Relinked(cs, R, n, j);
    SplicedAt(R, n, j);
    SplicedLinks(cs, read, write, tail, R, n, j);
    SplicedRecords(cs, R, n, j);
    var rs' := Records(cs', R', n - 1);
    forall i | 0 <= i < n - 1 ensures cs'[R'[i]].owner != SENTINEL {
      if i < j {
        RelinkedAt(cs, R, n, j, R[i]);
      } else {
        RelinkedAt(cs, R, n, j, R[i + 1]);
      }
    }
  }
}
