/** The metadata half of `fastStartImpl`: the check for a compressed metadata ("moov") box
    and the byte-by-byte crawl through the moov box that finds every chunk offset table
    (`stco`, 32-bit entries; `co64`, 64-bit entries) and adds the moov box's size to each
    entry. Moving the moov box in front of the media data moves every chunk forward by
    exactly that many bytes, which is what the patched offsets say. */
module Patch {
  import opened Outcomes
  import opened JavaInt
  import opened BigEndian
  import opened Atoms

  /** The two chunk offset table types. */
  datatype TableKind = Stco | Co64

  /** Bytes per entry. */
  function Width(kind: TableKind): nat
  {
    if kind == Stco then 4 else 8
  }

  /** Entries are unsigned values modulo this. */
  function Modulus(kind: TableKind): nat
  {
    if kind == Stco then TWO_32 else TWO_64
  }

  /** Offset of entry `i` of a table whose entries start at `first`. */
  function Slot(kind: TableKind, first: nat, i: nat): nat
  {
    if kind == Stco then first + 4 * i else first + 8 * i
  }

  /** The unsigned big-endian value stored in entry `i`. */
  function Entry(m: seq<Byte>, kind: TableKind, first: nat, i: nat): nat
    requires Slot(kind, first, i) + Width(kind) <= |m|
  {
    BeValue(m, Slot(kind, first, i), Width(kind))
  }

  /** A 32-bit entry is what `getInt` reads there, taken as unsigned. */
  lemma {:induction false} EntryIsInt(m: seq<Byte>, at: nat)
    requires at + 4 <= |m|
    ensures Entry(m, Stco, at, 0) == Uint32ToLong(GetInt(m, at))
  {
  }

  /** A 64-bit entry is what `getLong` reads there, taken as unsigned. */
  lemma {:induction false} EntryIsLong(m: seq<Byte>, at: nat)
    requires at + 8 <= |m|
    ensures Entry(m, Co64, at, 0) == Uint64Value(GetLong(m, at))
  {
    BeValue8(m, at);
  }

  /** A table found by the crawl: its kind, where its entries start (16 bytes after its
      header: size, type, version and flags, entry count) and its entry count. */
  datatype Table = Table(kind: TableKind, first: nat, count: nat) {

    /** Just past the last entry. */
    function End(): nat {
      Slot(kind, first, count)
    }
  }

  /** `n` entries from `at` lie inside `len` bytes. */
  predicate Fits(len: nat, kind: TableKind, at: nat, n: nat)
  {
    Slot(kind, at, n) <= len
  }

  lemma {:induction false} SlotBelow(kind: TableKind, at: nat, i: nat, n: nat)
    requires i < n
    ensures Slot(kind, at, i) + Width(kind) <= Slot(kind, at, n)
  {
  }

  /** No 32-bit entry among the `n` from `at` leaves the unsigned range when `delta` is
      added; 64-bit entries never count as overflowing. */
  predicate NoOverflow(m: seq<Byte>, kind: TableKind, at: nat, n: nat, delta: int)
    requires Fits(|m|, kind, at, n)
  {
    kind == Co64 || forall i | 0 <= i < n :: Entry(m, kind, at, i) + delta < TWO_32
  }

  /** `m` and `m2` have the same length and the same bytes from `lo` on. */
  predicate SameFrom(m: seq<Byte>, m2: seq<Byte>, lo: nat)
  {
    |m| == |m2| && forall k | lo <= k < |m| :: m[k] == m2[k]
  }

  /** The loop over a table's `n` entries from offset `at`. Each entry is read with an
      absolute get, which throws past the end of the buffer; the moov size is added with
      Java wrap-around; a 32-bit entry whose sum leaves the unsigned range is refused. */
  function PatchEntries(m: seq<Byte>, kind: TableKind, at: nat, n: nat, delta: Int): (r: Result<seq<Byte>>)
    ensures r.Ok? ==> |r.value| == |m|
    decreases n
  {
    if n == 0 then Ok(m)
    else if at + Width(kind) > |m| then Aborted(IndexOutOfBounds)
    else if kind == Stco then
      var cur := GetInt(m, at);
      var next := Wrap32(cur + delta);
      if cur < 0 && next >= 0 then Err(UnsupportedFile)
      else PatchEntries(PutInt(m, at, next), kind, at + 4, n - 1, delta)
    else
      PatchEntries(PutLong(m, at, Wrap64(GetLong(m, at) + delta)), kind, at + 8, n - 1, delta)
  }

  /** The checks once a table type is seen at `p` (its header at `p`): the declared size
      must fit the remaining bytes, the cursor moves to `p + 12` (past the limit: illegal
      argument), the count must be readable and non-negative as an `int`, and the remaining
      bytes must hold `count` entries, the product being an `int` product. */
  function TableAt(m: seq<Byte>, kind: TableKind, p: nat): (r: Result<Int>)
    requires p + ATOM_PREAMBLE_SIZE <= |m|
    ensures r.Ok? ==> r.value >= 0 && p + 16 <= |m|
  {
    if Uint32ToLong(GetInt(m, p)) > |m| - p then Err(MalformedFile)
    else if p + 12 > |m| then Aborted(IllegalArgument)
    else if |m| - (p + 12) < 4 then Err(MalformedFile)
    else
      var count :- Uint32PatternToInt(GetInt(m, p + 12));
      if |m| - (p + 16) < Wrap32(if kind == Stco then count * 4 else count * 8) then Err(MalformedFile)
      else Ok(count)
  }

  /** The table kind a type code names, if any. */
  function KindOf(t: Int): Option<TableKind>
  {
    if t == STCO_ATOM then Some(Stco) else if t == CO64_ATOM then Some(Co64) else None
  }

  /** The crawl from buffer position `p` while at least 8 bytes remain: at a table type it
      patches the table and resumes just after its entries, anywhere else it moves on by one
      byte. */
  function PatchFrom(m: seq<Byte>, p: nat, delta: Int): (r: Result<seq<Byte>>)
    ensures r.Ok? ==> |r.value| == |m|
    decreases |m| - p
  {
    if p + ATOM_PREAMBLE_SIZE > |m| then Ok(m)
    else
      match KindOf(GetInt(m, p + 4))
      case None => PatchFrom(m, p + 1, delta)
      case Some(kind) =>
        var count :- TableAt(m, kind, p);
        var m' :- PatchEntries(m, kind, p + 16, count, delta);
        PatchFrom(m', Slot(kind, p + 16, count), delta)
  }

  /** The tables the crawl from `p` meets, read from the unpatched bytes: the crawl's path
      depends only on bytes past the table it has just patched. A table whose entries run
      past the end makes the entry loop throw. */
  function Locate(m: seq<Byte>, p: nat): (r: Result<seq<Table>>)
    ensures r.Ok? ==> forall j | 0 <= j < |r.value| :: p + 16 <= r.value[j].first && r.value[j].End() <= |m|
    ensures r.Ok? ==> forall j | 0 < j < |r.value| :: r.value[j - 1].End() + 16 <= r.value[j].first
    decreases |m| - p
  {
    if p + ATOM_PREAMBLE_SIZE > |m| then Ok([])
    else
      match KindOf(GetInt(m, p + 4))
      case None => Locate(m, p + 1)
      case Some(kind) =>
        var count :- TableAt(m, kind, p);
        var table := Table(kind, p + 16, count);
        if table.End() > |m| then Aborted(IndexOutOfBounds)
        else
          var rest :- Locate(m, table.End());
          Ok([table] + rest)
  }

  /** Every table of `ts` lies inside `len` bytes. */
  predicate TablesFit(len: nat, ts: seq<Table>)
  {
    forall j | 0 <= j < |ts| :: ts[j].End() <= len
  }

  /** No 32-bit entry of any table overflows. */
  predicate NoOverflowIn(m: seq<Byte>, ts: seq<Table>, delta: int)
    requires TablesFit(|m|, ts)
  {
    forall j | 0 <= j < |ts| :: NoOverflow(m, ts[j].kind, ts[j].first, ts[j].count, delta)
  }

  /** Byte `k` is an entry byte of one of the tables. */
  predicate InTables(ts: seq<Table>, k: int)
  {
    exists j | 0 <= j < |ts| :: ts[j].first <= k < ts[j].End()
  }

  /** Each entry of each table holds its old value plus `delta`, modulo the entry width. */
  predicate Shifted(m: seq<Byte>, m2: seq<Byte>, ts: seq<Table>, delta: int)
    requires |m2| == |m| && TablesFit(|m|, ts)
  {
    forall j, i | 0 <= j < |ts| && 0 <= i < ts[j].count ::
      Entry(m2, ts[j].kind, ts[j].first, i) == (Entry(m, ts[j].kind, ts[j].first, i) + delta) % Modulus(ts[j].kind)
  }

  /** The check for a compressed moov box, then the crawl from the start of the buffer,
      adding the moov box's own length. A buffer of fewer than 16 bytes makes the absolute
      read of the first child's type throw. */
  function PatchMoov(moov: seq<Byte>): (r: Result<seq<Byte>>)
    requires |moov| <= INT_MAX
    ensures r.Ok? ==> |r.value| == |moov|
  {
    if |moov| < 16 then Aborted(IndexOutOfBounds)
    else if GetInt(moov, 12) == CMOV_ATOM then Err(UnsupportedFile)
    else PatchFrom(moov, 0, |moov|)
  }

  // ---------------------------------------------------------------------------------------
  // Entries of one table

  /** An entry reads the same from two arrays that agree on its bytes. */
  lemma {:induction false} EntryFrame(m: seq<Byte>, m2: seq<Byte>, kind: TableKind, first: nat, i: nat)
    requires |m| == |m2| && Slot(kind, first, i) + Width(kind) <= |m|
    requires forall k | Slot(kind, first, i) <= k < Slot(kind, first, i) + Width(kind) :: m[k] == m2[k]
    ensures Entry(m2, kind, first, i) == Entry(m, kind, first, i)
  {
    BeValueFrame(m, m2, Slot(kind, first, i), Width(kind));
  }

  /** Entry `i + 1` from `at` is entry `i` from the next slot. */
  lemma {:induction false} SlotNext(kind: TableKind, at: nat, i: nat)
    ensures Slot(kind, at, i + 1) == Slot(kind, at + Width(kind), i)
  {
  }

  /** Entry `i + 1` from `at` is entry `i` from the next slot. */
  lemma {:induction false} EntryNext(m: seq<Byte>, kind: TableKind, at: nat, i: nat)
    requires Slot(kind, at, i + 1) + Width(kind) <= |m|
    ensures Entry(m, kind, at, i + 1) == Entry(m, kind, at + Width(kind), i)
  {
    SlotNext(kind, at, i);
  }

  /** Writing entry 0 leaves the entries after it as they were. */
  lemma {:induction false} EntriesAfterFirst(m: seq<Byte>, m1: seq<Byte>, kind: TableKind, at: nat, at2: nat, n: nat)
    requires n > 0 && at2 == at + Width(kind) && Fits(|m|, kind, at, n) && |m1| == |m|
    requires forall k | 0 <= k < |m| && !(at <= k < at2) :: m1[k] == m[k]
    ensures Fits(|m1|, kind, at2, n - 1)
    ensures forall i | 0 < i < n :: Entry(m1, kind, at2, i - 1) == Entry(m, kind, at, i)
  {
    forall i | 0 < i < n
      ensures Entry(m1, kind, at2, i - 1) == Entry(m, kind, at, i)
    {
      SlotBelow(kind, at, i, n);
      EntryNext(m1, kind, at, i - 1);
      EntryFrame(m, m1, kind, at, i);
    }
  }

  /** The buffer after the put of entry 0, leaving out the overflow test. */
  function PutFirst(m: seq<Byte>, kind: TableKind, at: nat, delta: Int): (m1: seq<Byte>)
    requires at + Width(kind) <= |m|
    ensures |m1| == |m|
    ensures forall k | 0 <= k < |m| && !(at <= k < at + Width(kind)) :: m1[k] == m[k]
  {
    if kind == Stco then PutInt(m, at, Wrap32(GetInt(m, at) + delta))
    else PutLong(m, at, Wrap64(GetLong(m, at) + delta))
  }

  /** The test that refuses the first of the remaining entries: a 32-bit entry that was
      negative as an `int` and is not after the addition. */
  predicate FirstOverflows(m: seq<Byte>, kind: TableKind, at: nat, delta: int)
    requires at + Width(kind) <= |m|
  {
    kind == Stco && GetInt(m, at) < 0 && Wrap32(GetInt(m, at) + delta) >= 0
  }

  /** The overflow test of the first entry, and the first entry after the put. */
  lemma {:induction false} FirstEntry(m: seq<Byte>, kind: TableKind, at: nat, delta: Int)
    requires at + Width(kind) <= |m| && 0 <= delta <= INT_MAX
    ensures FirstOverflows(m, kind, at, delta) <==> kind == Stco && Entry(m, kind, at, 0) + delta >= TWO_32
    ensures Entry(PutFirst(m, kind, at, delta), kind, at, 0) == (Entry(m, kind, at, 0) + delta) % Modulus(kind)
  {
    if kind == Stco {
      FirstEntry32(m, at, delta);
    } else {
      FirstEntry64(m, at, delta);
    }
  }

  lemma {:induction false} FirstEntry32(m: seq<Byte>, at: nat, delta: Int)
    requires at + 4 <= |m| && 0 <= delta <= INT_MAX
    ensures FirstOverflows(m, Stco, at, delta) <==> Entry(m, Stco, at, 0) + delta >= TWO_32
    ensures Entry(PutFirst(m, Stco, at, delta), Stco, at, 0) == (Entry(m, Stco, at, 0) + delta) % TWO_32
  {
    var cur := GetInt(m, at);
    EntryIsInt(m, at);
    StcoOverflowCheck(cur, delta);
    var m1 := PutInt(m, at, Wrap32(cur + delta));
    assert PutFirst(m, Stco, at, delta) == m1;
    EntryIsInt(m1, at);
    WrapAdd32(cur, delta);
  }

  lemma {:induction false} FirstEntry64(m: seq<Byte>, at: nat, delta: Int)
    requires at + 8 <= |m| && 0 <= delta <= INT_MAX
    ensures Entry(PutFirst(m, Co64, at, delta), Co64, at, 0) == (Entry(m, Co64, at, 0) + delta) % TWO_64
  {
    var cur := GetLong(m, at);
    EntryIsLong(m, at);
    var m1 := PutLong(m, at, Wrap64(cur + delta));
    assert PutFirst(m, Co64, at, delta) == m1;
    EntryIsLong(m1, at);
    WrapAdd64(cur, delta);
  }

  /** One turn of the entry loop. */
  lemma {:induction false} PatchEntriesStep(m: seq<Byte>, kind: TableKind, at: nat, n: nat, delta: Int)
    requires n > 0 && at + Width(kind) <= |m|
    ensures FirstOverflows(m, kind, at, delta) ==> PatchEntries(m, kind, at, n, delta) == Err(UnsupportedFile)
    ensures !FirstOverflows(m, kind, at, delta) ==>
      PatchEntries(m, kind, at, n, delta) == PatchEntries(PutFirst(m, kind, at, delta), kind, at + Width(kind), n - 1, delta)
  {
  }

  /** Entry 0 does not overflow: the rest of the loop overflows exactly when the whole does. */
  lemma {:induction false} OverflowStep(m: seq<Byte>, m1: seq<Byte>, kind: TableKind, at: nat, at2: nat, n: nat, delta: int)
    requires n > 0 && at2 == at + Width(kind) && Fits(|m|, kind, at, n) && |m1| == |m|
    requires forall k | 0 <= k < |m| && !(at <= k < at2) :: m1[k] == m[k]
    requires kind == Stco ==> Entry(m, kind, at, 0) + delta < TWO_32
    ensures Fits(|m1|, kind, at2, n - 1)
    ensures NoOverflow(m, kind, at, n, delta) <==> NoOverflow(m1, kind, at2, n - 1, delta)
  {
    EntriesAfterFirst(m, m1, kind, at, at2, n);
    if kind == Stco && NoOverflow(m1, kind, at2, n - 1, delta) {
      forall i | 0 <= i < n
        ensures Entry(m, kind, at, i) + delta < TWO_32
      {
        if i > 0 {
          assert Entry(m1, kind, at2, i - 1) + delta < TWO_32;
        }
      }
    }
    if kind == Stco && NoOverflow(m, kind, at, n, delta) {
      forall i | 0 <= i < n - 1
        ensures Entry(m1, kind, at2, i) + delta < TWO_32
      {
        assert Entry(m, kind, at, i + 1) + delta < TWO_32;
      }
    }
  }

  /** The entry loop succeeds exactly when the entries fit and no 32-bit sum overflows;
      with the entries in place its only failure is the overflow, and a 64-bit table that
      runs past the end throws. */
  lemma {:induction false} PatchEntriesOutcome(m: seq<Byte>, kind: TableKind, at: nat, n: nat, delta: Int)
    requires at <= |m| && 0 <= delta <= INT_MAX
    ensures var r := PatchEntries(m, kind, at, n, delta);
      && (r.Ok? <==> Fits(|m|, kind, at, n) && NoOverflow(m, kind, at, n, delta))
      && (Fits(|m|, kind, at, n) && !r.Ok? ==> r == Err(UnsupportedFile))
      && (kind == Co64 && !Fits(|m|, kind, at, n) ==> r == Aborted(IndexOutOfBounds))
  {
    EntriesOutcomeFrom(m, kind, at, n, delta);
  }

  /** What `PatchEntriesOutcome` states about the loop over `n` entries from `at`. */
  predicate EntriesOutcome(m: seq<Byte>, kind: TableKind, at: nat, n: nat, delta: Int)
  {
    var r := PatchEntries(m, kind, at, n, delta);
    && (r.Ok? <==> Fits(|m|, kind, at, n) && NoOverflow(m, kind, at, n, delta))
    && (Fits(|m|, kind, at, n) && !r.Ok? ==> r == Err(UnsupportedFile))
    && (kind == Co64 && !Fits(|m|, kind, at, n) ==> r == Aborted(IndexOutOfBounds))
  }

  lemma {:induction false} EntriesOutcomeFrom(m: seq<Byte>, kind: TableKind, at: nat, n: nat, delta: Int)
    requires at <= |m| && 0 <= delta <= INT_MAX
    ensures EntriesOutcome(m, kind, at, n, delta)
    decreases n
  {
    if n > 0 && at + Width(kind) <= |m| {
      if FirstOverflows(m, kind, at, delta) {
        EntriesOverflowFirst(m, kind, at, n, delta);
      } else {
        EntriesOutcomeFrom(PutFirst(m, kind, at, delta), kind, at + Width(kind), n - 1, delta);
        EntriesOutcomeStep(m, kind, at, n, delta);
      }
    }
  }

  /** The loop refuses a first entry that overflows. */
  lemma {:induction false} EntriesOverflowFirst(m: seq<Byte>, kind: TableKind, at: nat, n: nat, delta: Int)
    requires n > 0 && at + Width(kind) <= |m| && 0 <= delta <= INT_MAX
    requires FirstOverflows(m, kind, at, delta)
    ensures EntriesOutcome(m, kind, at, n, delta)
  {
    PatchEntriesStep(m, kind, at, n, delta);
    FirstEntry(m, kind, at, delta);
    if Fits(|m|, kind, at, n) {
      SlotBelow(kind, at, 0, n);
    }
  }

  /** The loop past a first entry that does not overflow. */
  lemma {:induction false} EntriesOutcomeStep(m: seq<Byte>, kind: TableKind, at: nat, n: nat, delta: Int)
    requires n > 0 && at + Width(kind) <= |m| && 0 <= delta <= INT_MAX
    requires !FirstOverflows(m, kind, at, delta)
    requires EntriesOutcome(PutFirst(m, kind, at, delta), kind, at + Width(kind), n - 1, delta)
    ensures EntriesOutcome(m, kind, at, n, delta)
  {
    PatchEntriesStep(m, kind, at, n, delta);
    FirstEntry(m, kind, at, delta);
    SlotNext(kind, at, n - 1);
    if Fits(|m|, kind, at, n) {
      OverflowStep(m, PutFirst(m, kind, at, delta), kind, at, at + Width(kind), n, delta);
    }
  }

  /** One step of `PatchEntriesValues`: entry 0 patched in `m1`, the rest patched in `m2`. */
  lemma {:induction false} ValuesStep(m: seq<Byte>, m1: seq<Byte>, kind: TableKind, at: nat, at2: nat, n: nat, delta: Int)
    requires n > 0 && at2 == at + Width(kind) && at2 <= |m| && |m1| == |m|
    requires forall k | 0 <= k < |m| && !(at <= k < at + Width(kind)) :: m1[k] == m[k]
    requires Entry(m1, kind, at, 0) == (Entry(m, kind, at, 0) + delta) % Modulus(kind)
    requires PatchEntries(m1, kind, at2, n - 1, delta).Ok? && EntriesShifted(m1, kind, at2, n - 1, delta)
    ensures var m2 := PatchEntries(m1, kind, at2, n - 1, delta).value;
      && Fits(|m|, kind, at, n)
      && (forall k | 0 <= k < |m| && !(at <= k < Slot(kind, at, n)) :: m2[k] == m[k])
      && (forall i | 0 <= i < n :: Entry(m2, kind, at, i) == (Entry(m, kind, at, i) + delta) % Modulus(kind))
  {
    var m2 := PatchEntries(m1, kind, at2, n - 1, delta).value;
    SlotNext(kind, at, n - 1);
    EntriesAfterFirst(m, m1, kind, at, at2, n);
    forall i | 0 <= i < n
      ensures Entry(m2, kind, at, i) == (Entry(m, kind, at, i) + delta) % Modulus(kind)
    {
      if i == 0 {
        EntryFrame(m1, m2, kind, at, 0);
      } else {
        ShiftedLater(m, m1, m2, kind, at, at2, i, delta);
      }
    }
  }

  /** Entry `i` from `at` is entry `i - 1` from `at2`: its shifted value carries over. */
  lemma {:induction false} ShiftedLater(m: seq<Byte>, m1: seq<Byte>, m2: seq<Byte>, kind: TableKind, at: nat, at2: nat, i: nat, delta: Int)
    requires 0 < i && at2 == at + Width(kind) && Slot(kind, at, i) + Width(kind) <= |m| && |m1| == |m| && |m2| == |m|
    requires Entry(m2, kind, at2, i - 1) == (Entry(m1, kind, at2, i - 1) + delta) % Modulus(kind)
    requires Entry(m1, kind, at2, i - 1) == Entry(m, kind, at, i)
    ensures Entry(m2, kind, at, i) == (Entry(m, kind, at, i) + delta) % Modulus(kind)
  {
    EntryNext(m2, kind, at, i - 1);
  }

  /** A successful entry loop adds `delta` to each of the `n` entries (modulo the width)
      and changes no byte outside them. */
  lemma {:induction false} PatchEntriesValues(m: seq<Byte>, kind: TableKind, at: nat, n: nat, delta: Int)
    requires at <= |m| && 0 <= delta <= INT_MAX
    requires PatchEntries(m, kind, at, n, delta).Ok?
    ensures var m2 := PatchEntries(m, kind, at, n, delta).value;
      && Fits(|m|, kind, at, n)
      && (forall k | 0 <= k < |m| && !(at <= k < Slot(kind, at, n)) :: m2[k] == m[k])
      && (forall i | 0 <= i < n :: Entry(m2, kind, at, i) == (Entry(m, kind, at, i) + delta) % Modulus(kind))
  {
    EntriesValuesFrom(m, kind, at, n, delta);
  }

  /** What `PatchEntriesValues` states about the loop over `n` entries from `at`. */
  predicate EntriesShifted(m: seq<Byte>, kind: TableKind, at: nat, n: nat, delta: Int)
  {
    PatchEntries(m, kind, at, n, delta).Ok? ==>
      var m2 := PatchEntries(m, kind, at, n, delta).value;
      && Fits(|m|, kind, at, n)
      && (forall k | 0 <= k < |m| && !(at <= k < Slot(kind, at, n)) :: m2[k] == m[k])
      && (forall i | 0 <= i < n :: Entry(m2, kind, at, i) == (Entry(m, kind, at, i) + delta) % Modulus(kind))
  }

  lemma {:induction false} EntriesValuesFrom(m: seq<Byte>, kind: TableKind, at: nat, n: nat, delta: Int)
    requires at <= |m| && 0 <= delta <= INT_MAX
    ensures EntriesShifted(m, kind, at, n, delta)
    decreases n
  {
    if n > 0 && PatchEntries(m, kind, at, n, delta).Ok? {
      EntriesPatched(m, kind, at, n, delta);
      EntriesValuesFrom(PutFirst(m, kind, at, delta), kind, at + Width(kind), n - 1, delta);
      EntriesValuesStep(m, kind, at, n, delta);
    }
  }

  /** A loop that succeeds had room for its first entry, which did not overflow. */
  lemma {:induction false} EntriesPatched(m: seq<Byte>, kind: TableKind, at: nat, n: nat, delta: Int)
    requires n > 0 && PatchEntries(m, kind, at, n, delta).Ok?
    ensures at + Width(kind) <= |m| && !FirstOverflows(m, kind, at, delta)
  {
  }

  /** The values past a first entry that does not overflow. */
  lemma {:induction false} EntriesValuesStep(m: seq<Byte>, kind: TableKind, at: nat, n: nat, delta: Int)
    requires n > 0 && at + Width(kind) <= |m| && 0 <= delta <= INT_MAX
    requires !FirstOverflows(m, kind, at, delta)
    requires EntriesShifted(PutFirst(m, kind, at, delta), kind, at + Width(kind), n - 1, delta)
    ensures EntriesShifted(m, kind, at, n, delta)
  {
    if PatchEntries(m, kind, at, n, delta).Ok? {
      var at2 := at + Width(kind);
      var m1 := PutFirst(m, kind, at, delta);
      PatchEntriesStep(m, kind, at, n, delta);
      FirstEntry(m, kind, at, delta);
      ValuesStep(m, m1, kind, at, at2, n, delta);
    }
  }

  /** A successful entry loop leaves every byte after the table as it was. */
  lemma {:induction false} PatchedAfterTable(m: seq<Byte>, kind: TableKind, at: nat, n: nat, delta: Int)
    requires at <= |m| && 0 <= delta <= INT_MAX
    requires PatchEntries(m, kind, at, n, delta).Ok?
    ensures Fits(|m|, kind, at, n) && SameFrom(m, PatchEntries(m, kind, at, n, delta).value, Slot(kind, at, n))
  {
    PatchEntriesValues(m, kind, at, n, delta);
  }

  // ---------------------------------------------------------------------------------------
  // The crawl

  /** The checks at a table header read only bytes from `p` on. */
  lemma {:induction false} TableAtFrame(m: seq<Byte>, m2: seq<Byte>, kind: TableKind, p: nat)
    requires p + ATOM_PREAMBLE_SIZE <= |m| && SameFrom(m, m2, p)
    ensures TableAt(m2, kind, p) == TableAt(m, kind, p)
  {
    GetIntFrame(m, m2, p);
    if p + 16 <= |m| {
      GetIntFrame(m, m2, p + 12);
    }
  }

  /** The tables found from `p` depend only on the bytes from `p` on. */
  lemma {:induction false} LocateFrame(m: seq<Byte>, m2: seq<Byte>, p: nat)
    requires SameFrom(m, m2, p)
    ensures Locate(m2, p) == Locate(m, p)
    decreases |m| - p
  {
    if p + ATOM_PREAMBLE_SIZE <= |m| {
      GetIntFrame(m, m2, p + 4);
      match KindOf(GetInt(m, p + 4))
      case None =>
        LocateFrame(m, m2, p + 1);
      case Some(kind) =>
        TableAtFrame(m, m2, kind, p);
        var count := TableAt(m, kind, p);
        if count.Ok? && Table(kind, p + 16, count.value).End() <= |m| {
          LocateFrame(m, m2, Table(kind, p + 16, count.value).End());
        }
    }
  }

  /** Whether entries overflow depends only on the bytes of the tables. */
  lemma {:induction false} NoOverflowFrame(m: seq<Byte>, m2: seq<Byte>, ts: seq<Table>, lo: nat, delta: int)
    requires SameFrom(m, m2, lo) && TablesFit(|m|, ts)
    requires forall j | 0 <= j < |ts| :: lo <= ts[j].first
    ensures NoOverflowIn(m2, ts, delta) <==> NoOverflowIn(m, ts, delta)
  {
    forall j, i | 0 <= j < |ts| && 0 <= i < ts[j].count
      ensures Entry(m2, ts[j].kind, ts[j].first, i) == Entry(m, ts[j].kind, ts[j].first, i)
    {
      SlotBelow(ts[j].kind, ts[j].first, i, ts[j].count);
      EntryFrame(m, m2, ts[j].kind, ts[j].first, i);
    }
  }

  lemma {:induction false} NoOverflowInCons(m: seq<Byte>, t: Table, rest: seq<Table>, delta: int)
    requires TablesFit(|m|, [t] + rest)
    ensures t.End() <= |m| && TablesFit(|m|, rest)
    ensures NoOverflowIn(m, [t] + rest, delta)
            <==> NoOverflow(m, t.kind, t.first, t.count, delta) && NoOverflowIn(m, rest, delta)
  {
    var ts := [t] + rest;
    assert ts[0] == t;
    assert forall j | 0 <= j < |rest| :: ts[j + 1] == rest[j];
  }

  /** The crawl moves on by one byte where no table type is. */
  lemma {:induction false} CrawlSkip(m: seq<Byte>, p: nat, delta: Int)
    requires p + ATOM_PREAMBLE_SIZE <= |m| && KindOf(GetInt(m, p + 4)) == None
    ensures PatchFrom(m, p, delta) == PatchFrom(m, p + 1, delta)
    ensures Locate(m, p) == Locate(m, p + 1)
  {
  }

  /** A failed check at a table header fails both the crawl and the search for tables. */
  lemma {:induction false} CrawlRejected(m: seq<Byte>, p: nat, kind: TableKind, delta: Int)
    requires p + ATOM_PREAMBLE_SIZE <= |m| && KindOf(GetInt(m, p + 4)) == Some(kind)
    requires !TableAt(m, kind, p).Ok?
    ensures !PatchFrom(m, p, delta).Ok? && !Locate(m, p).Ok?
  {
  }

  /** The checks at a table header, stated on its fields: a declared size beyond the bytes
      left, fewer than 4 bytes for the count, and fewer bytes than the 32-bit product of
      count and entry width are each `MalformedFile`; a count that is negative as an `int`
      is `UnsupportedFile`; a cursor moved past the limit throws. The crawl fails with the
      same outcome. */
  lemma {:induction false} TableChecks(m: seq<Byte>, p: nat, kind: TableKind, delta: Int)
    requires p + ATOM_PREAMBLE_SIZE <= |m| && KindOf(GetInt(m, p + 4)) == Some(kind)
    ensures Unsigned32(m, p) > |m| - p ==> TableAt(m, kind, p) == Err(MalformedFile)
    ensures Unsigned32(m, p) <= |m| - p && |m| < p + 12 ==> TableAt(m, kind, p) == Aborted(IllegalArgument)
    ensures Unsigned32(m, p) <= |m| - p && p + 12 <= |m| < p + 16 ==> TableAt(m, kind, p) == Err(MalformedFile)
    ensures Unsigned32(m, p) <= |m| - p && p + 16 <= |m| && GetInt(m, p + 12) < 0 ==>
              TableAt(m, kind, p) == Err(UnsupportedFile)
    ensures Unsigned32(m, p) <= |m| - p && p + 16 <= |m| && GetInt(m, p + 12) >= 0 ==>
              && (TableAt(m, kind, p).Ok? <==> Wrap32(GetInt(m, p + 12) * Width(kind)) <= |m| - (p + 16))
              && (TableAt(m, kind, p).Ok? ==> TableAt(m, kind, p).value == GetInt(m, p + 12))
              && (!TableAt(m, kind, p).Ok? ==> TableAt(m, kind, p) == Err(MalformedFile))
    ensures !TableAt(m, kind, p).Ok? ==> PatchFrom(m, p, delta) == TableAt(m, kind, p).PropagateFailure()
  {
    assert Uint32ToLong(GetInt(m, p)) == Unsigned32(m, p);
  }

  /** The crawl stops, changing nothing and finding no table, once fewer than 8 bytes
      remain. */
  lemma {:induction false} CrawlStops(m: seq<Byte>, p: nat, delta: Int)
    requires |m| < p + ATOM_PREAMBLE_SIZE
    ensures PatchFrom(m, p, delta) == Ok(m) && Locate(m, p) == Ok([])
  {
  }

  /** The crawl at a table whose entries were patched goes on just after the entries. */
  lemma {:induction false} CrawlAtTable(m: seq<Byte>, p: nat, kind: TableKind, count: nat, m1: seq<Byte>, delta: Int)
    requires p + ATOM_PREAMBLE_SIZE <= |m| && KindOf(GetInt(m, p + 4)) == Some(kind)
    requires TableAt(m, kind, p) == Ok(count)
    requires PatchEntries(m, kind, p + 16, count, delta) == Ok(m1)
    ensures PatchFrom(m, p, delta) == PatchFrom(m1, Slot(kind, p + 16, count), delta)
  {
  }

  /** The crawl at a table whose entry loop fails fails the same way. */
  lemma {:induction false} CrawlFailsAtTable(m: seq<Byte>, p: nat, kind: TableKind, count: nat, delta: Int)
    requires p + ATOM_PREAMBLE_SIZE <= |m| && KindOf(GetInt(m, p + 4)) == Some(kind)
    requires TableAt(m, kind, p) == Ok(count)
    requires !PatchEntries(m, kind, p + 16, count, delta).Ok?
    ensures PatchFrom(m, p, delta) == PatchEntries(m, kind, p + 16, count, delta)
  {
  }

  /** The search at a table that passed the header checks: the table is the first one found
      when its entries fit, and the search fails otherwise. */
  lemma {:induction false} LocateAtTable(m: seq<Byte>, p: nat, kind: TableKind)
    requires p + ATOM_PREAMBLE_SIZE <= |m| && KindOf(GetInt(m, p + 4)) == Some(kind)
    requires TableAt(m, kind, p).Ok?
    ensures var t := Table(kind, p + 16, TableAt(m, kind, p).value);
      && (t.End() > |m| ==> !Locate(m, p).Ok?)
      && (t.End() <= |m| ==> (Locate(m, p).Ok? <==> Locate(m, t.End()).Ok?))
      && (t.End() <= |m| && Locate(m, t.End()).Ok? ==> Locate(m, p).value == [t] + Locate(m, t.End()).value)
  {
  }

  /** A crawl that succeeds passed the checks at its table header and patched the table. */
  lemma {:induction false} TablePatched(m: seq<Byte>, p: nat, kind: TableKind, delta: Int)
    requires p + ATOM_PREAMBLE_SIZE <= |m| && KindOf(GetInt(m, p + 4)) == Some(kind)
    requires PatchFrom(m, p, delta).Ok?
    ensures TableAt(m, kind, p).Ok?
    ensures PatchEntries(m, kind, p + 16, TableAt(m, kind, p).value, delta).Ok?
  {
  }

  /** The crawl succeeds exactly when every table it meets fits and no 32-bit entry
      overflows; when all tables fit, its only failure is the overflow. */
  lemma {:induction false} PatchFromOutcome(m: seq<Byte>, p: nat, delta: Int)
    requires 0 <= delta <= INT_MAX
    ensures var r := PatchFrom(m, p, delta);
      var l := Locate(m, p);
      && (r.Ok? <==> l.Ok? && NoOverflowIn(m, l.value, delta))
      && (l.Ok? && !NoOverflowIn(m, l.value, delta) ==> r == Err(UnsupportedFile))
  {
    OutcomeFrom(m, p, delta);
  }

  lemma {:induction false} OutcomeFrom(m: seq<Byte>, p: nat, delta: Int)
    requires 0 <= delta <= INT_MAX
    ensures OutcomeHolds(m, p, delta)
    decreases |m| - p, 1
  {
    if p + ATOM_PREAMBLE_SIZE <= |m| {
      match KindOf(GetInt(m, p + 4))
      case None =>
        CrawlSkip(m, p, delta);
        OutcomeFrom(m, p + 1, delta);
      case Some(kind) =>
        OutcomeAtTable(m, p, kind, delta);
    }
  }

  /** What `PatchFromOutcome` states about the crawl from `p`. */
  predicate OutcomeHolds(m: seq<Byte>, p: nat, delta: Int)
  {
    var r := PatchFrom(m, p, delta);
    var l := Locate(m, p);
    && (r.Ok? <==> l.Ok? && NoOverflowIn(m, l.value, delta))
    && (l.Ok? && !NoOverflowIn(m, l.value, delta) ==> r == Err(UnsupportedFile))
  }

  /** `PatchFromOutcome` where a table type is seen. */
  lemma {:induction false} OutcomeAtTable(m: seq<Byte>, p: nat, kind: TableKind, delta: Int)
    requires 0 <= delta <= INT_MAX
    requires p + ATOM_PREAMBLE_SIZE <= |m| && KindOf(GetInt(m, p + 4)) == Some(kind)
    ensures OutcomeHolds(m, p, delta)
    decreases |m| - p, 0
  {
    if !TableAt(m, kind, p).Ok? {
      CrawlRejected(m, p, kind, delta);
    } else {
      var count := TableAt(m, kind, p).value;
      var pe := PatchEntries(m, kind, p + 16, count, delta);
      if pe.Ok? {
        OutcomeFrom(pe.value, Slot(kind, p + 16, count), delta);
        OutcomeEntriesPatched(m, p, kind, count, pe.value, delta);
      } else {
        OutcomeEntriesFailed(m, p, kind, count, delta);
      }
    }
  }

  /** At a table whose entry loop fails, the crawl fails, and if the tables fit it is
      because of an overflow. */
  lemma {:induction false} OutcomeEntriesFailed(m: seq<Byte>, p: nat, kind: TableKind, count: nat, delta: Int)
    requires 0 <= delta <= INT_MAX
    requires p + ATOM_PREAMBLE_SIZE <= |m| && KindOf(GetInt(m, p + 4)) == Some(kind)
    requires TableAt(m, kind, p) == Ok(count)
    requires !PatchEntries(m, kind, p + 16, count, delta).Ok?
    ensures OutcomeHolds(m, p, delta)
  {
    var pe := PatchEntries(m, kind, p + 16, count, delta);
    assert PatchFrom(m, p, delta) == pe by {
      CrawlFailsAtTable(m, p, kind, count, delta);
    }
    var l := Locate(m, p);
    if l.Ok? {
      var t := Table(kind, p + 16, count);
      assert t.End() <= |m| && l.value == [t] + Locate(m, t.End()).value by {
        LocateAtTable(m, p, kind);
      }
      assert !NoOverflow(m, kind, p + 16, count, delta) && pe == Err(UnsupportedFile) by {
        PatchEntriesOutcome(m, kind, p + 16, count, delta);
      }
      assert !NoOverflowIn(m, l.value, delta) by {
        NoOverflowInCons(m, t, Locate(m, t.End()).value, delta);
      }
    }
  }

  /** At a table whose entries were patched, the crawl's outcome carries over from the
      crawl after the table. */
  lemma {:induction false} OutcomeEntriesPatched(m: seq<Byte>, p: nat, kind: TableKind, count: nat, m1: seq<Byte>, delta: Int)
    requires 0 <= delta <= INT_MAX
    requires p + ATOM_PREAMBLE_SIZE <= |m| && KindOf(GetInt(m, p + 4)) == Some(kind)
    requires TableAt(m, kind, p) == Ok(count)
    requires PatchEntries(m, kind, p + 16, count, delta) == Ok(m1)
    requires OutcomeHolds(m1, Slot(kind, p + 16, count), delta)
    ensures OutcomeHolds(m, p, delta)
  {
    var t := Table(kind, p + 16, count);
    assert PatchFrom(m, p, delta) == PatchFrom(m1, t.End(), delta) by {
      CrawlAtTable(m, p, kind, count, m1, delta);
    }
    assert t.End() <= |m| && SameFrom(m, m1, t.End()) by {
      PatchedAfterTable(m, kind, p + 16, count, delta);
    }
    assert NoOverflow(m, kind, p + 16, count, delta) by {
      PatchEntriesOutcome(m, kind, p + 16, count, delta);
    }
    var l := Locate(m, p);
    assert (l.Ok? <==> Locate(m, t.End()).Ok?) && (l.Ok? ==> l.value == [t] + Locate(m, t.End()).value) by {
      LocateAtTable(m, p, kind);
    }
    OutcomeJoin(m, m1, t, delta, PatchFrom(m, p, delta), l);
  }

  /** The outcome at a patched table `t` from the outcome of the crawl after it: `r` and
      `l` are the crawl and the search from the table's header. */
  lemma {:induction false} OutcomeJoin(m: seq<Byte>, m1: seq<Byte>, t: Table, delta: Int,
                    r: Result<seq<Byte>>, l: Result<seq<Table>>)
    requires t.End() <= |m| && SameFrom(m, m1, t.End())
    requires NoOverflow(m, t.kind, t.first, t.count, delta)
    requires OutcomeHolds(m1, t.End(), delta)
    requires r == PatchFrom(m1, t.End(), delta)
    requires l.Ok? <==> Locate(m, t.End()).Ok?
    requires l.Ok? ==> l.value == [t] + Locate(m, t.End()).value
    ensures l.Ok? ==> TablesFit(|m|, l.value)
    ensures r.Ok? <==> l.Ok? && NoOverflowIn(m, l.value, delta)
    ensures l.Ok? && !NoOverflowIn(m, l.value, delta) ==> r == Err(UnsupportedFile)
  {
    OutcomeAfterTable(m, m1, t, delta);
  }

  /** The crawl after a patched table, seen from the unpatched bytes. */
  lemma {:induction false} OutcomeAfterTable(m: seq<Byte>, m1: seq<Byte>, t: Table, delta: Int)
    requires t.End() <= |m| && SameFrom(m, m1, t.End())
    ensures var l, l1 := Locate(m, t.End()), Locate(m1, t.End());
      && l1 == l
      && (l.Ok? ==> TablesFit(|m|, [t] + l.value) && TablesFit(|m1|, l.value))
      && (l.Ok? ==> (NoOverflowIn(m1, l.value, delta) <==> NoOverflowIn(m, l.value, delta)))
      && (l.Ok? ==> (NoOverflowIn(m, [t] + l.value, delta)
                     <==> NoOverflow(m, t.kind, t.first, t.count, delta) && NoOverflowIn(m, l.value, delta)))
  {
    LocateFrame(m, m1, t.End());
    var rest := Locate(m, t.End());
    if rest.Ok? {
      assert TablesFit(|m|, [t] + rest.value) by {
        var ts := [t] + rest.value;
        assert forall j | 0 < j < |ts| :: ts[j] == rest.value[j - 1];
      }
      NoOverflowFrame(m, m1, rest.value, t.End(), delta);
      NoOverflowInCons(m, t, rest.value, delta);
    }
  }

  /** Byte `k` lies in an entry of `[t] + rest` exactly when it lies in `t`'s or in one of
      `rest`'s. */
  lemma {:induction false} InTablesCons(t: Table, rest: seq<Table>, k: int)
    ensures InTables([t] + rest, k) <==> (t.first <= k < t.End()) || InTables(rest, k)
  {
    var ts := [t] + rest;
    assert ts[0] == t;
    if InTables(rest, k) {
      var j :| 0 <= j < |rest| && rest[j].first <= k < rest[j].End();
      assert ts[j + 1] == rest[j];
    }
    if InTables(ts, k) {
      var j :| 0 <= j < |ts| && ts[j].first <= k < ts[j].End();
      if j > 0 {
        assert ts[j] == rest[j - 1];
      }
    }
  }

  /** The bytes of the first table and of no later one keep what `m1` has. */
  lemma {:induction false} CrawlFrame(m: seq<Byte>, m1: seq<Byte>, m2: seq<Byte>, t: Table, rest: seq<Table>)
    requires t.End() <= |m| && |m1| == |m| && |m2| == |m|
    requires forall k | 0 <= k < |m| && !(t.first <= k < t.End()) :: m1[k] == m[k]
    requires forall j | 0 <= j < |rest| :: t.End() <= rest[j].first
    requires forall k | 0 <= k < |m| && !InTables(rest, k) :: m2[k] == m1[k]
    ensures forall k | 0 <= k < t.End() :: m2[k] == m1[k]
    ensures forall k | 0 <= k < |m| && !InTables([t] + rest, k) :: m2[k] == m[k]
  {
    forall k | 0 <= k < t.End()
      ensures m2[k] == m1[k]
    {
      assert !InTables(rest, k);
    }
    forall k | 0 <= k < |m| && !InTables([t] + rest, k)
      ensures m2[k] == m[k]
    {
      InTablesCons(t, rest, k);
    }
  }

  /** The entries of the first table and of the later ones, as `CrawlStep` states them. */
  lemma {:induction false} CrawlEntries(m: seq<Byte>, m1: seq<Byte>, m2: seq<Byte>, t: Table, rest: seq<Table>, delta: int)
    requires t.End() <= |m| && |m1| == |m| && |m2| == |m|
    requires forall k | t.End() <= k < |m| :: m1[k] == m[k]
    requires forall k | 0 <= k < t.End() :: m2[k] == m1[k]
    requires forall i | 0 <= i < t.count ::
      Entry(m1, t.kind, t.first, i) == (Entry(m, t.kind, t.first, i) + delta) % Modulus(t.kind)
    requires TablesFit(|m|, rest)
    requires forall j | 0 <= j < |rest| :: t.End() <= rest[j].first
    requires Shifted(m1, m2, rest, delta)
    ensures TablesFit(|m|, [t] + rest)
    ensures Shifted(m, m2, [t] + rest, delta)
  {
    var ts := [t] + rest;
    assert ts[0] == t;
    forall j, i | 0 <= j < |ts| && 0 <= i < ts[j].count
      ensures Entry(m2, ts[j].kind, ts[j].first, i) == (Entry(m, ts[j].kind, ts[j].first, i) + delta) % Modulus(ts[j].kind)
    {
      if j == 0 {
        TableEntryKept(m1, m2, t, i, 0);
      } else {
        var u := rest[j - 1];
        assert ts[j] == u;
        assert Entry(m2, u.kind, u.first, i) == (Entry(m1, u.kind, u.first, i) + delta) % Modulus(u.kind);
        TableEntryKept(m, m1, u, i, t.End());
      }
    }
  }

  /** An entry of table `u` reads the same from two arrays that agree on bytes `[lo, u.End())`
      when the table starts at `lo` or later. */
  lemma {:induction false} TableEntryKept(m: seq<Byte>, m2: seq<Byte>, u: Table, i: nat, lo: nat)
    requires u.End() <= |m| == |m2| && i < u.count && lo <= u.first
    requires forall k | lo <= k < u.End() :: m2[k] == m[k]
    ensures Entry(m2, u.kind, u.first, i) == Entry(m, u.kind, u.first, i)
  {
    SlotBelow(u.kind, u.first, i, u.count);
    EntryFrame(m, m2, u.kind, u.first, i);
  }

  /** A successful crawl adds `delta` to every entry of every table it meets and changes no
      other byte. */
  lemma {:induction false} PatchFromValues(m: seq<Byte>, p: nat, delta: Int)
    requires 0 <= delta <= INT_MAX
    requires PatchFrom(m, p, delta).Ok?
    ensures Locate(m, p).Ok?
    ensures var m2, ts := PatchFrom(m, p, delta).value, Locate(m, p).value;
      && Shifted(m, m2, ts, delta)
      && (forall k | 0 <= k < |m| && !InTables(ts, k) :: m2[k] == m[k])
  {
    ValuesFrom(m, p, delta);
  }

  /** What `PatchFromValues` states about the crawl from `p`. */
  predicate ValuesHold(m: seq<Byte>, p: nat, delta: Int)
  {
    PatchFrom(m, p, delta).Ok? ==>
      && Locate(m, p).Ok?
      && var m2, ts := PatchFrom(m, p, delta).value, Locate(m, p).value;
        && Shifted(m, m2, ts, delta)
        && (forall k | 0 <= k < |m| && !InTables(ts, k) :: m2[k] == m[k])
  }

  lemma {:induction false} ValuesFrom(m: seq<Byte>, p: nat, delta: Int)
    requires 0 <= delta <= INT_MAX
    ensures ValuesHold(m, p, delta)
    decreases |m| - p, 1
  {
    if p + ATOM_PREAMBLE_SIZE <= |m| {
      match KindOf(GetInt(m, p + 4))
      case None =>
        CrawlSkip(m, p, delta);
        ValuesFrom(m, p + 1, delta);
      case Some(kind) =>
        ValuesAtTable(m, p, kind, delta);
    }
  }

  /** `PatchFromValues` where a table type is seen. */
  lemma {:induction false} ValuesAtTable(m: seq<Byte>, p: nat, kind: TableKind, delta: Int)
    requires 0 <= delta <= INT_MAX
    requires p + ATOM_PREAMBLE_SIZE <= |m| && KindOf(GetInt(m, p + 4)) == Some(kind)
    ensures ValuesHold(m, p, delta)
    decreases |m| - p, 0
  {
    if PatchFrom(m, p, delta).Ok? {
      TablePatched(m, p, kind, delta);
      var count := TableAt(m, kind, p).value;
      var m1 := PatchEntries(m, kind, p + 16, count, delta).value;
      ValuesFrom(m1, Slot(kind, p + 16, count), delta);
      ValuesJoin(m, p, kind, count, m1, delta);
    }
  }

  /** At a table whose entries were patched, the values of the whole crawl follow from those
      of the crawl after the table. */
  lemma {:induction false} ValuesJoin(m: seq<Byte>, p: nat, kind: TableKind, count: nat, m1: seq<Byte>, delta: Int)
    requires 0 <= delta <= INT_MAX
    requires p + ATOM_PREAMBLE_SIZE <= |m| && KindOf(GetInt(m, p + 4)) == Some(kind)
    requires TableAt(m, kind, p) == Ok(count)
    requires PatchEntries(m, kind, p + 16, count, delta) == Ok(m1)
    requires ValuesHold(m1, Slot(kind, p + 16, count), delta)
    ensures ValuesHold(m, p, delta)
  {
    var end := Slot(kind, p + 16, count);
    assert PatchFrom(m, p, delta) == PatchFrom(m1, end, delta) by {
      CrawlAtTable(m, p, kind, count, m1, delta);
    }
    if PatchFrom(m1, end, delta).Ok? {
      assert Locate(m, p) == Ok([Table(kind, p + 16, count)] + Locate(m1, end).value) by {
        LocateSplit(m, p, kind, count, m1, delta);
      }
      ValuesAfterTable(m, kind, count, m1, p + 16, delta);
    }
  }

  /** `ValuesJoin` stated for the arrays and tables it relates. */
  lemma {:induction false} ValuesAfterTable(m: seq<Byte>, kind: TableKind, count: nat, m1: seq<Byte>, first: nat, delta: Int)
    requires 0 <= delta <= INT_MAX && first <= |m|
    requires PatchEntries(m, kind, first, count, delta) == Ok(m1)
    requires var end := Slot(kind, first, count);
      ValuesHold(m1, end, delta) && PatchFrom(m1, end, delta).Ok?
    ensures var t := Table(kind, first, count);
      var m2, rest := PatchFrom(m1, t.End(), delta).value, Locate(m1, t.End()).value;
      && TablesFit(|m|, [t] + rest)
      && Shifted(m, m2, [t] + rest, delta)
      && (forall k | 0 <= k < |m| && !InTables([t] + rest, k) :: m2[k] == m[k])
  {
    var end := Slot(kind, first, count);
    PatchEntriesValues(m, kind, first, count, delta);
    ValuesCombine(m, m1, PatchFrom(m1, end, delta).value, kind, first, count, Locate(m1, end).value, delta);
  }

  /** The tables found from a table header that passed its checks and whose entries were
      patched: the table, then those found after it in the patched bytes. */
  lemma {:induction false} LocateSplit(m: seq<Byte>, p: nat, kind: TableKind, count: nat, m1: seq<Byte>, delta: Int)
    requires 0 <= delta <= INT_MAX
    requires p + ATOM_PREAMBLE_SIZE <= |m| && KindOf(GetInt(m, p + 4)) == Some(kind)
    requires TableAt(m, kind, p) == Ok(count)
    requires PatchEntries(m, kind, p + 16, count, delta) == Ok(m1)
    requires Locate(m1, Slot(kind, p + 16, count)).Ok?
    ensures var t := Table(kind, p + 16, count);
      && t.End() <= |m|
      && Locate(m, p) == Ok([t] + Locate(m1, t.End()).value)
  {
    var t := Table(kind, p + 16, count);
    PatchedAfterTable(m, kind, p + 16, count, delta);
    LocateFrame(m, m1, t.End());
    LocateAtTable(m, p, kind);
  }

  /** The values after one table and the crawl past it, combined. */
  lemma {:induction false} ValuesCombine(m: seq<Byte>, m1: seq<Byte>, m2: seq<Byte>, kind: TableKind, first: nat, count: nat,
                      rest: seq<Table>, delta: int)
    requires Fits(|m|, kind, first, count) && |m1| == |m| && |m2| == |m|
    requires forall k | 0 <= k < |m| && !(first <= k < Slot(kind, first, count)) :: m1[k] == m[k]
    requires forall i | 0 <= i < count :: Entry(m1, kind, first, i) == (Entry(m, kind, first, i) + delta) % Modulus(kind)
    requires forall j | 0 <= j < |rest| :: Slot(kind, first, count) + 16 <= rest[j].first && rest[j].End() <= |m|
    requires Shifted(m1, m2, rest, delta)
    requires forall k | 0 <= k < |m| && !InTables(rest, k) :: m2[k] == m1[k]
    ensures TablesFit(|m|, [Table(kind, first, count)] + rest)
    ensures Shifted(m, m2, [Table(kind, first, count)] + rest, delta)
    ensures forall k | 0 <= k < |m| && !InTables([Table(kind, first, count)] + rest, k) :: m2[k] == m[k]
  {
    var t := Table(kind, first, count);
    CrawlFrame(m, m1, m2, t, rest);
    CrawlEntries(m, m1, m2, t, rest, delta);
  }

  /** The metadata patch fails on a short buffer and on a compressed moov box, and otherwise
      succeeds exactly when the crawl from the start finds tables that fit with no 32-bit
      overflow. */
  lemma {:induction false} PatchMoovOutcome(moov: seq<Byte>)
    requires |moov| <= INT_MAX
    ensures var r := PatchMoov(moov);
      && (|moov| < 16 ==> r == Aborted(IndexOutOfBounds))
      && (16 <= |moov| && GetInt(moov, 12) == CMOV_ATOM ==> r == Err(UnsupportedFile))
      && (16 <= |moov| && GetInt(moov, 12) != CMOV_ATOM ==>
            var l := Locate(moov, 0);
            && (r.Ok? <==> l.Ok? && NoOverflowIn(moov, l.value, |moov|))
            && (l.Ok? && !NoOverflowIn(moov, l.value, |moov|) ==> r == Err(UnsupportedFile)))
  {
    PatchFromOutcome(moov, 0, |moov|);
  }

  /** A patched moov box has every table entry moved on by the box's length, keeps every
      other byte, and in particular keeps its 16-byte head (its own header and the header
      of its first child), since every table starts past it. */
  lemma {:induction false} PatchMoovValues(moov: seq<Byte>)
    requires |moov| <= INT_MAX && PatchMoov(moov).Ok?
    ensures Locate(moov, 0).Ok?
    ensures var m2, ts := PatchMoov(moov).value, Locate(moov, 0).value;
      && Shifted(moov, m2, ts, |moov|)
      && (forall k | 0 <= k < |moov| && !InTables(ts, k) :: m2[k] == moov[k])
      && m2[..16] == moov[..16]
  {
    PatchFromValues(moov, 0, |moov|);
    var m2, ts := PatchMoov(moov).value, Locate(moov, 0).value;
    forall k | 0 <= k < 16
      ensures m2[k] == moov[k]
    {
      assert !InTables(ts, k);
    }
  }

  /** A 64-bit table whose entries run past the end of the buffer makes the entry loop
      throw once it gets there: 64-bit entries are never checked for overflow first. */
  lemma {:induction false} Co64RunsOff(m: seq<Byte>, at: nat, n: nat, delta: Int)
    requires at <= |m| < Slot(Co64, at, n)
    ensures PatchEntries(m, Co64, at, n, delta) == Aborted(IndexOutOfBounds)
    decreases n
  {
    if at + 8 <= |m| {
      Co64RunsOff(PutLong(m, at, Wrap64(GetLong(m, at) + delta)), at + 8, n - 1, delta);
    }
  }

  /** `offsetCount * 8` is an `int` product: when it wraps to a value the remaining bytes
      cover (a count of 2^29 makes it 2^32, which wraps to 0), the size check passes on a
      table with no room for its entries, and the entry loop then runs off the end of the
      buffer. */
  lemma {:induction false} WrappedCountRunsOff(m: seq<Byte>, p: nat, count: Int, delta: Int)
    requires p + 16 <= |m| <= INT_MAX
    requires Uint32ToLong(GetInt(m, p)) <= |m| - p && GetInt(m, p + 12) == count >= 0
    requires Wrap32(count * 8) <= |m| - (p + 16) < count * 8
    ensures TableAt(m, Co64, p) == Ok(count)
    ensures PatchEntries(m, Co64, p + 16, count, delta) == Aborted(IndexOutOfBounds)
  {
    Co64RunsOff(m, p + 16, count, delta);
  }
}
