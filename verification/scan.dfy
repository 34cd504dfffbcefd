/** The top-level loop of `fastStartImpl`: reads 8-byte headers from the input stream,
    keeps the last `ftyp` box verbatim, seeks past every other payload (with the 64-bit
    size when the 32-bit one is 1), and stops at the end of the file, at a type it does
    not know, or at a size below 8. */
module Scan {
  import opened Outcomes
  import opened JavaInt
  import opened BigEndian
  import opened Store
  import opened Atoms

  /** What the loop leaves for the decision: the type and size of the last box it
      classified, the captured `ftyp` buffer and the offset just after it. */
  datatype Scanned = Scanned(atomType: Int, atomSize: Long, ftyp: Option<seq<Byte>>, startOffset: Int)

  /** The local variables before the loop. */
  const Initial: Scanned := Scanned(0, 0, None, 0)

  /** `readAndFill` with the 8-byte header buffer: the bytes it got (its limit after `flip`). */
  function ReadAndFill(src: Stream): (r: (Stream, seq<Byte>))
    requires src.Valid() && 0 <= src.position <= src.Size()
    ensures r.0.data == src.data
    ensures |r.1| == Min(ATOM_PREAMBLE_SIZE, src.Size() - src.position)
    ensures r.1 == src.data[src.position..src.position + |r.1|]
    ensures r.0.position == src.position + |r.1|
  {
    var (src', buf) := Read(src, Allocate(ATOM_PREAMBLE_SIZE));
    (src', buf.bytes[..buf.pos])
  }

  /** The rest of one iteration once a full header is read and the cursor is just past it.
      An `ftyp` box is read whole (`ReadFtypBox`); a box whose 32-bit size is 1 takes its
      size from the next 8 bytes (`SkipExtended`). Any other box moves the cursor on by its
      size less the header, in Java `int` arithmetic on the `(int)` cast of the size: a
      size of 2^31 or more sends the cursor backwards. */
  function Advance(src: Stream, header: seq<Byte>, acc: Scanned): (r: Result<(Stream, Scanned)>)
    requires src.Valid() && |header| == ATOM_PREAMBLE_SIZE
    requires 0 <= src.position <= src.Size()
    ensures r.Ok? ==> r.value.0.data == src.data
    ensures r.Ok? ==> r.value.1.atomType == GetInt(header, 4)
    ensures GetInt(header, 4) == FTYP_ATOM ==> r == ReadFtypBox(src, header)
    ensures GetInt(header, 4) != FTYP_ATOM && Uint32ToLong(GetInt(header, 0)) == 1 ==>
              r == SkipExtended(src, GetInt(header, 4), acc)
    ensures GetInt(header, 4) != FTYP_ATOM && Uint32ToLong(GetInt(header, 0)) != 1 ==>
              r == Ok((src.SetPosition(Wrap32(src.position + Uint32ToLong(GetInt(header, 0)) - ATOM_PREAMBLE_SIZE)),
                       acc.(atomType := GetInt(header, 4), atomSize := Uint32ToLong(GetInt(header, 0)))))
  {
    var size := Uint32ToLong(GetInt(header, 0));
    var kind := GetInt(header, 4);
    if kind == FTYP_ATOM then ReadFtypBox(src, header)
    else if size == 1 then SkipExtended(src, kind, acc)
    else
      var next := Wrap32(src.position + Wrap32(size) - ATOM_PREAMBLE_SIZE);
      Wrap32OfCast(src.position - ATOM_PREAMBLE_SIZE, size);
      Ok((src.SetPosition(next), acc.(atomType := kind, atomSize := size)))
  }

  /** The `ftyp` branch of `Advance`: the size must be an `int` of at least 8, and the box
      is read into a buffer of that size holding the header. */
  function ReadFtypBox(src: Stream, header: seq<Byte>): (r: Result<(Stream, Scanned)>)
    requires src.Valid() && |header| == ATOM_PREAMBLE_SIZE
    requires 0 <= src.position <= src.Size()
    requires GetInt(header, 4) == FTYP_ATOM
    ensures r.Ok? ==> r.value.0.data == src.data && r.value.1.atomType == FTYP_ATOM
    ensures Uint32ToLong(GetInt(header, 0)) > INT_MAX ==> r == Err(UnsupportedFile)
    ensures Uint32ToLong(GetInt(header, 0)) < ATOM_PREAMBLE_SIZE ==> r == Aborted(BufferOverflow)
    ensures ATOM_PREAMBLE_SIZE <= Uint32ToLong(GetInt(header, 0)) <= INT_MAX ==>
              && (r.Ok? <==> src.Size() - src.position <= Uint32ToLong(GetInt(header, 0)) - ATOM_PREAMBLE_SIZE
                             || Uint32ToLong(GetInt(header, 0)) <= src.Size() - src.position)
              && (!r.Ok? ==> r == Aborted(BufferOverflow))
    ensures r.Ok? ==>
              && r.value.0.position
                 == src.position + Min(Uint32ToLong(GetInt(header, 0)) - ATOM_PREAMBLE_SIZE, src.Size() - src.position)
              && r.value.1.atomSize == Uint32ToLong(GetInt(header, 0))
              && r.value.1.startOffset == r.value.0.position
              && r.value.1.ftyp
                 == Some(header + src.data[src.position..r.value.0.position]
                         + Zeros(Uint32ToLong(GetInt(header, 0)) - ATOM_PREAMBLE_SIZE - (r.value.0.position - src.position)))
  {
    var size := Uint32ToLong(GetInt(header, 0));
    var ftypSize :- Uint32ToInt(size);
    if ftypSize < ATOM_PREAMBLE_SIZE then Aborted(BufferOverflow)
    else
      var buf := Buffer(header + Zeros(ftypSize - ATOM_PREAMBLE_SIZE), ATOM_PREAMBLE_SIZE);
      if !ReadFits(src.Size() - src.position, buf) then Aborted(BufferOverflow)
      else
        var (src', filled) := Read(src, buf);
        FtypFilled(src, header, ftypSize, src', filled);
        Ok((src', Scanned(FTYP_ATOM, size, Some(filled.bytes), src'.position)))
  }

  /** `uint64ToLong(getLong())` of the 8 bytes holding a 64-bit size: their unsigned value,
      which must fit a non-negative `long`. */
  function ParseExtendedSize(ext: seq<Byte>): (r: Result<Long>)
    requires |ext| == ATOM_PREAMBLE_SIZE
    ensures r.Ok? <==> Unsigned64(ext, 0) < TWO_63
    ensures !r.Ok? ==> r == Err(UnsupportedFile)
    ensures r.Ok? ==> r.value == Unsigned64(ext, 0)
  {
    Uint64ToLong(GetLong(ext, 0))
  }

  /** The read of the 64-bit size after a header whose 32-bit size is 1: `readAndFill` of
      8 more bytes, which must all be there, then `ParseExtendedSize`. */
  function ReadExtendedSize(src: Stream): (r: Result<(Stream, Long)>)
    requires src.Valid() && 0 <= src.position <= src.Size()
    ensures src.Size() < src.position + ATOM_PREAMBLE_SIZE ==> r == Aborted(BufferUnderflow)
    ensures src.position + ATOM_PREAMBLE_SIZE <= src.Size() ==>
              && (r.Ok? <==> Unsigned64(src.data, src.position) < TWO_63)
              && (!r.Ok? ==> r == Err(UnsupportedFile))
    ensures src.position + ATOM_PREAMBLE_SIZE <= src.Size() && r.Ok? ==>
              && r.value.0 == src.SetPosition(src.position + ATOM_PREAMBLE_SIZE)
              && r.value.1 == Unsigned64(src.data, src.position)
  {
    var (src', ext) := ReadAndFill(src);
    if |ext| < ATOM_PREAMBLE_SIZE then Aborted(BufferUnderflow)
    else
      Unsigned64Slice(src.data, src.position);
      var size64 :- ParseExtendedSize(ext);
      Ok((src', size64))
  }

  /** The branch of `Advance` for a 32-bit size of 1: the next 8 bytes hold the 64-bit
      size, which must be a non-negative `long`; the cursor then moves on by that size
      less both headers, in `int` arithmetic on its `(int)` cast. */
  function SkipExtended(src: Stream, kind: Int, acc: Scanned): (r: Result<(Stream, Scanned)>)
    requires src.Valid() && 0 <= src.position <= src.Size()
    ensures src.Size() < src.position + ATOM_PREAMBLE_SIZE ==> r == Aborted(BufferUnderflow)
    ensures src.position + ATOM_PREAMBLE_SIZE <= src.Size() ==>
              && (r.Ok? <==> Unsigned64(src.data, src.position) < TWO_63)
              && (!r.Ok? ==> r == Err(UnsupportedFile))
              && (r.Ok? ==>
                    && r.value.0 == src.SetPosition(Wrap32(src.position + Unsigned64(src.data, src.position) - ATOM_PREAMBLE_SIZE))
                    && r.value.1 == acc.(atomType := kind, atomSize := Unsigned64(src.data, src.position)))
  {
    var (src', size64) :- ReadExtendedSize(src);
    var next := Wrap32(src'.position + Wrap32(size64) - 2 * ATOM_PREAMBLE_SIZE);
    assert next == Wrap32(src.position + size64 - ATOM_PREAMBLE_SIZE) by {
      Wrap32OfCast(src'.position - 2 * ATOM_PREAMBLE_SIZE, size64);
    }
    Ok((src'.SetPosition(next), acc.(atomType := kind, atomSize := size64)))
  }

  /** The `ftyp` buffer after `read`: the header, the bytes read, then the zeros the read
      did not reach. */
  lemma {:induction false} FtypFilled(src: Stream, header: seq<Byte>, n: nat, src': Stream, filled: Buffer)
    requires src.Valid() && |header| == ATOM_PREAMBLE_SIZE <= n <= INT_MAX
    requires 0 <= src.position <= src.Size()
    requires ReadFits(src.Size() - src.position, Buffer(header + Zeros(n - ATOM_PREAMBLE_SIZE), ATOM_PREAMBLE_SIZE))
    requires (src', filled) == Read(src, Buffer(header + Zeros(n - ATOM_PREAMBLE_SIZE), ATOM_PREAMBLE_SIZE))
    ensures src'.position == src.position + Min(n - ATOM_PREAMBLE_SIZE, src.Size() - src.position)
    ensures filled.bytes == header + src.data[src.position..src'.position] + Zeros(n - ATOM_PREAMBLE_SIZE - (src'.position - src.position))
  {
    var q := src'.position - src.position;
    assert filled.bytes == filled.bytes[..ATOM_PREAMBLE_SIZE] + filled.bytes[ATOM_PREAMBLE_SIZE..ATOM_PREAMBLE_SIZE + q]
                           + filled.bytes[ATOM_PREAMBLE_SIZE + q..];
  }

  /** Header positions in `[0, size]` the loop has not continued from yet. */
  function Unvisited(size: nat, visited: set<int>): set<int>
  {
    set c | 0 <= c <= size && c !in visited
  }

  /** The loop, from the stream's cursor. `visited` holds the header positions from which an
      earlier iteration went on to the next one. One iteration depends only on its header
      position, so coming back to one of them means the Java loop never ends: that is the
      `Diverges` abort. A cursor outside the array makes the next read throw: past the end,
      the count of bytes left is negative; before the start, the copy fails, unless the
      `int` distance to the end wraps around and the count is negative again. */
  function ScanLoop(src: Stream, acc: Scanned, visited: set<int>): (r: Result<Scanned>)
    requires src.Valid()
    decreases Unvisited(src.Size(), visited), 1
  {
    if src.position < 0 then
      if Wrap32(src.Size() - src.position) < 0 then Aborted(NegativeArraySize) else Aborted(IndexOutOfBounds)
    else if src.position > src.Size() then Aborted(NegativeArraySize)
    else
      var (src1, header) := ReadAndFill(src);
      if |header| != ATOM_PREAMBLE_SIZE then Ok(acc)
      else if src.position in visited then Aborted(Diverges)
      else ScanBox(src.position, src1, header, acc, visited)
  }

  /** The rest of an iteration that read a full header at the fresh position `head`:
      classify or skip the box, stop at an unknown type or a size below 8, and otherwise
      go on from where the cursor now is. */
  function ScanBox(head: nat, src1: Stream, header: seq<Byte>, acc: Scanned, visited: set<int>): (r: Result<Scanned>)
    requires src1.Valid() && |header| == ATOM_PREAMBLE_SIZE
    requires head + ATOM_PREAMBLE_SIZE == src1.position <= src1.Size()
    requires head !in visited
    decreases Unvisited(src1.Size(), visited), 0
  {
    var step :- Advance(src1, header, acc);
    var (src2, acc2) := step;
    if !IsTopLevel(acc2.atomType) || acc2.atomSize < ATOM_PREAMBLE_SIZE then Ok(acc2)
    else
      assert head in Unvisited(src1.Size(), visited);
      assert Unvisited(src2.Size(), visited + {head}) < Unvisited(src1.Size(), visited);
      ScanLoop(src2, acc2, visited + {head})
  }

  /** The whole loop over a file. */
  function Scan(data: seq<Byte>): Result<Scanned>
    requires |data| <= INT_MAX
  {
    ScanLoop(FromBytes(data), Initial, {})
  }

  /** Boxes the loop classifies and goes on from: known types, sizes that fit an `int`. */
  predicate TopLevelBoxes(boxes: seq<Box>)
  {
    forall i | 0 <= i < |boxes| :: IsTopLevel(boxes[i].kind) && boxes[i].Valid()
  }

  lemma {:induction false} TopLevelTail(boxes: seq<Box>)
    requires |boxes| > 0 && TopLevelBoxes(boxes)
    ensures TopLevelBoxes(boxes[1..])
  {
    forall i | 0 <= i < |boxes| - 1
      ensures IsTopLevel(boxes[1..][i].kind) && boxes[1..][i].Valid()
    {
      assert boxes[1..][i] == boxes[i + 1];
    }
  }

  lemma {:induction false} Assoc<T>(a: seq<T>, b: seq<T>, c: seq<T>)
    ensures a + (b + c) == a + b + c
  {
  }

  lemma {:induction false} VisitedBelow(visited: set<int>, c: int, n: int)
    requires forall v | v in visited :: v < c
    requires c < n
    ensures forall v | v in visited + {c} :: v < n
  {
  }

  /** The loop state after classifying box `b` found at offset `start`. */
  function AfterBox(acc: Scanned, b: Box, start: nat): Scanned
    requires b.Valid() && start + b.Size() <= INT_MAX
  {
    if b.kind == FTYP_ATOM then Scanned(b.kind, b.Size(), Some(b.Bytes()), start + b.Size())
    else acc.(atomType := b.kind, atomSize := b.Size())
  }

  /** The loop state after classifying `boxes` laid out from offset `start`: each box sets
      the last type and size, and an `ftyp` box also replaces the captured bytes and the
      offset after it. */
  function Classified(acc: Scanned, boxes: seq<Box>, start: nat): Scanned
    requires AllValid(boxes) && start + TotalSize(boxes) <= INT_MAX
    decreases |boxes|
  {
    if |boxes| == 0 then acc
    else Classified(AfterBox(acc, boxes[0], start), boxes[1..], start + boxes[0].Size())
  }

  lemma {:induction false} ClassifiedCons(acc: Scanned, boxes: seq<Box>, start: nat)
    requires |boxes| > 0 && AllValid(boxes) && start + TotalSize(boxes) <= INT_MAX
    ensures Classified(acc, boxes, start) == Classified(AfterBox(acc, boxes[0], start), boxes[1..], start + boxes[0].Size())
  {
  }

  /** Fewer than 8 bytes left: the header read comes up short and the loop ends normally
      with what it had. */
  lemma {:induction false} ScanEndsShort(src: Stream, acc: Scanned, visited: set<int>)
    requires src.Valid() && 0 <= src.position <= src.Size() < src.position + ATOM_PREAMBLE_SIZE
    ensures ScanLoop(src, acc, visited) == Ok(acc)
  {
  }

  /** One iteration that reads a full header at a fresh position and neither fails nor
      breaks hands over to the next iteration. */
  lemma {:induction false} ScanContinues(src: Stream, acc: Scanned, visited: set<int>, src1: Stream, header: seq<Byte>,
                      src2: Stream, acc2: Scanned)
    requires src.Valid() && 0 <= src.position && src.position + ATOM_PREAMBLE_SIZE <= src.Size()
    requires src.position !in visited
    requires ReadAndFill(src) == (src1, header)
    requires Advance(src1, header, acc) == Ok((src2, acc2))
    requires IsTopLevel(acc2.atomType) && acc2.atomSize >= ATOM_PREAMBLE_SIZE
    ensures src2.Valid()
    ensures ScanLoop(src, acc, visited) == ScanLoop(src2, acc2, visited + {src.position})
  {
  }

  /** With at least 8 bytes left, the header buffer gets the next 8 bytes. */
  lemma {:induction false} HeaderRead(data: seq<Byte>, c: nat)
    requires |data| <= INT_MAX && c + ATOM_PREAMBLE_SIZE <= |data|
    ensures ReadAndFill(Stream(data, c)) == (Stream(data, c + ATOM_PREAMBLE_SIZE), data[c..c + ATOM_PREAMBLE_SIZE])
  {
  }

  /** A box other than `ftyp` whose header holds a plain 32-bit size is skipped to its
      end. */
  lemma {:induction false} SkipBox(data: seq<Byte>, c: nat, header: seq<Byte>, acc: Scanned)
    requires |data| <= INT_MAX && |header| == ATOM_PREAMBLE_SIZE
    requires GetInt(header, 4) != FTYP_ATOM
    requires ATOM_PREAMBLE_SIZE <= Uint32ToLong(GetInt(header, 0))
    requires c + Uint32ToLong(GetInt(header, 0)) <= |data|
    ensures var size := Uint32ToLong(GetInt(header, 0));
      Advance(Stream(data, c + ATOM_PREAMBLE_SIZE), header, acc)
      == Ok((Stream(data, c + size), acc.(atomType := GetInt(header, 4), atomSize := size)))
  {
  }

  /** An `ftyp` box is read whole: the captured bytes are the box and the start offset is
      its end. It needs nothing or a whole header after it: with 1 to 7 bytes left, the read
      into its buffer overflows. */
  lemma {:induction false} ReadFtyp(data: seq<Byte>, c: nat, header: seq<Byte>, acc: Scanned)
    requires |data| <= INT_MAX && c + ATOM_PREAMBLE_SIZE <= |data|
    requires header == data[c..c + ATOM_PREAMBLE_SIZE]
    requires GetInt(header, 4) == FTYP_ATOM
    requires ATOM_PREAMBLE_SIZE <= Uint32ToLong(GetInt(header, 0))
    requires var end := c + Uint32ToLong(GetInt(header, 0));
      end == |data| || end + ATOM_PREAMBLE_SIZE <= |data|
    ensures var size := Uint32ToLong(GetInt(header, 0));
      Advance(Stream(data, c + ATOM_PREAMBLE_SIZE), header, acc)
      == Ok((Stream(data, c + size), Scanned(FTYP_ATOM, size, Some(data[c..c + size]), c + size)))
  {
    var size := Uint32ToLong(GetInt(header, 0));
    ReadToBrim(Stream(data, c + 8), header, size);
    assert header + data[c + 8..c + size] == data[c..c + size];
  }

  /** What one iteration does at a laid-out box, given that its header reads back as the
      box's size and type. */
  lemma {:induction false} AdvanceOverBox(data: seq<Byte>, c: nat, b: Box, acc: Scanned)
    requires b.Valid() && |data| <= INT_MAX && c + b.Size() <= |data|
    requires data[c..c + b.Size()] == b.Bytes()
    requires c + b.Size() == |data| || c + b.Size() + ATOM_PREAMBLE_SIZE <= |data|
    requires var header := data[c..c + ATOM_PREAMBLE_SIZE];
      Uint32ToLong(GetInt(header, 0)) == b.Size() && GetInt(header, 4) == b.kind
    ensures Advance(Stream(data, c + ATOM_PREAMBLE_SIZE), data[c..c + ATOM_PREAMBLE_SIZE], acc)
            == Ok((Stream(data, c + b.Size()), AfterBox(acc, b, c)))
  {
    var header := data[c..c + 8];
    if b.kind == FTYP_ATOM {
      ReadFtyp(data, c, header, acc);
    } else {
      SkipBox(data, c, header, acc);
    }
  }

  /** The iteration at the start of a laid-out box moves the cursor to the box's end and
      classifies the box. */
  lemma {:induction false} StepOverBox(data: seq<Byte>, c: nat, b: Box, acc: Scanned)
    requires b.Valid() && |data| <= INT_MAX && c + b.Size() <= |data|
    requires data[c..c + b.Size()] == b.Bytes()
    requires c + b.Size() == |data| || c + b.Size() + ATOM_PREAMBLE_SIZE <= |data|
    ensures ReadAndFill(Stream(data, c)) == (Stream(data, c + ATOM_PREAMBLE_SIZE), data[c..c + ATOM_PREAMBLE_SIZE])
    ensures Advance(Stream(data, c + ATOM_PREAMBLE_SIZE), data[c..c + ATOM_PREAMBLE_SIZE], acc)
            == Ok((Stream(data, c + b.Size()), AfterBox(acc, b, c)))
  {
    HeaderRead(data, c);
    assert data[c..c + 8] == b.Bytes()[..8];
    BoxHeader(b);
    AdvanceOverBox(data, c, b, acc);
  }

  /** Box `b` of a known type is laid out at `c`, followed by the end of the file or by at
      least a whole header. */
  predicate BoxAt(data: seq<Byte>, c: nat, b: Box)
  {
    && b.Valid() && IsTopLevel(b.kind) && |data| <= INT_MAX && c + b.Size() <= |data|
    && data[c..c + b.Size()] == b.Bytes()
    && (c + b.Size() == |data| || c + b.Size() + ATOM_PREAMBLE_SIZE <= |data|)
  }

  /** At a laid-out box of a known type, the loop classifies the box and goes on at its end. */
  lemma {:induction false} ScanOverBox(data: seq<Byte>, c: nat, b: Box, acc: Scanned, visited: set<int>)
    requires BoxAt(data, c, b) && c !in visited
    ensures ScanLoop(Stream(data, c), acc, visited)
            == ScanLoop(Stream(data, c + b.Size()), AfterBox(acc, b, c), visited + {c})
  {
    StepOverBox(data, c, b, acc);
    var acc' := AfterBox(acc, b, c);
    assert acc'.atomType == b.kind && acc'.atomSize == b.Size();
    ScanContinues(Stream(data, c), acc, visited, Stream(data, c + ATOM_PREAMBLE_SIZE),
                  data[c..c + ATOM_PREAMBLE_SIZE], Stream(data, c + b.Size()), acc');
  }

  /** The bytes from `c` on are `bb` followed by `after`: then `bb` sits at `c` and `after`
      follows it. */
  lemma {:induction false} SplitAt(data: seq<Byte>, c: nat, bb: seq<Byte>, after: seq<Byte>)
    requires c <= |data| && data[c..] == bb + after
    ensures data[c..c + |bb|] == bb
    ensures data[c + |bb|..] == after
  {
    assert data[c..c + |bb|] == data[c..][..|bb|];
    assert data[c + |bb|..] == data[c..][|bb|..];
  }

  /** The first box of a layout sits at `c`, fits, and leaves the rest of the layout after
      it. */
  lemma {:induction false} FirstBox(data: seq<Byte>, c: nat, boxes: seq<Box>)
    requires |boxes| > 0 && TopLevelBoxes(boxes)
    requires |data| <= INT_MAX && c <= |data| && data[c..] == Serialize(boxes)
    ensures TopLevelBoxes(boxes[1..])
    ensures BoxAt(data, c, boxes[0])
    ensures data[c + boxes[0].Size()..] == Serialize(boxes[1..])
  {
    var b, rest := boxes[0], boxes[1..];
    TopLevelTail(boxes);
    var after := Serialize(rest);
    var bb := b.Bytes();
    assert data[c..] == bb + after;
    SplitAt(data, c, bb, after);
    assert |rest| > 0 ==> TotalSize(rest) >= ATOM_PREAMBLE_SIZE;
  }

  /** Boxes of known types sit one after another from `c` up to the end of `data`. */
  predicate LaidOut(data: seq<Byte>, c: nat, boxes: seq<Box>)
    decreases |boxes|
  {
    if |boxes| == 0 then |data| <= INT_MAX && c == |data|
    else BoxAt(data, c, boxes[0]) && LaidOut(data, c + boxes[0].Size(), boxes[1..])
  }

  /** The first laid-out box sits at `c`, and the rest follow it. */
  lemma {:induction false} LaidOutTail(data: seq<Byte>, c: nat, boxes: seq<Box>)
    requires |boxes| > 0 && LaidOut(data, c, boxes)
    ensures BoxAt(data, c, boxes[0]) && LaidOut(data, c + boxes[0].Size(), boxes[1..])
  {
  }

  /** Laid-out boxes fill the bytes from `c` on. */
  lemma {:induction false} LaidOutSize(data: seq<Byte>, c: nat, boxes: seq<Box>)
    requires LaidOut(data, c, boxes)
    ensures AllValid(boxes) && c + TotalSize(boxes) == |data| <= INT_MAX
    decreases |boxes|
  {
    if |boxes| > 0 {
      var rest := boxes[1..];
      LaidOutSize(data, c + boxes[0].Size(), rest);
      assert forall i | 0 < i < |boxes| :: boxes[i] == rest[i - 1];
    }
  }

  /** The serialized boxes are laid out box by box. */
  lemma {:induction false} SerializedLaidOut(data: seq<Byte>, c: nat, boxes: seq<Box>)
    requires TopLevelBoxes(boxes)
    requires |data| <= INT_MAX && c <= |data| && data[c..] == Serialize(boxes)
    ensures LaidOut(data, c, boxes)
    decreases |boxes|
  {
    if |boxes| > 0 {
      FirstBox(data, c, boxes);
      SerializedLaidOut(data, c + boxes[0].Size(), boxes[1..]);
    }
  }

  /** Scanning laid-out boxes of known types from `c` classifies each of them in turn and
      ends at the end of the file. */
  lemma {:induction false} ScanOfLaidOut(data: seq<Byte>, c: nat, boxes: seq<Box>, acc: Scanned, visited: set<int>)
    requires LaidOut(data, c, boxes)
    requires forall v | v in visited :: v < c
    ensures AllValid(boxes) && c + TotalSize(boxes) <= INT_MAX
    ensures ScanLoop(Stream(data, c), acc, visited) == Ok(Classified(acc, boxes, c))
    decreases |boxes|, 1
  {
    LaidOutSize(data, c, boxes);
    if |boxes| == 0 {
      ScanEndsShort(Stream(data, c), acc, visited);
    } else {
      ScanOfLaidOutCons(data, c, boxes, acc, visited);
    }
  }

  /** The inductive step of `ScanOfLaidOut`: the first box, then the rest. */
  lemma {:induction false} ScanOfLaidOutCons(data: seq<Byte>, c: nat, boxes: seq<Box>, acc: Scanned, visited: set<int>)
    requires |boxes| > 0 && LaidOut(data, c, boxes)
    requires forall v | v in visited :: v < c
    ensures AllValid(boxes) && c + TotalSize(boxes) <= INT_MAX
    ensures ScanLoop(Stream(data, c), acc, visited) == Ok(Classified(acc, boxes, c))
    decreases |boxes|, 0
  {
    var b, rest := boxes[0], boxes[1..];
    var end, acc' := c + b.Size(), AfterBox(acc, b, c);
    LaidOutSize(data, c, boxes);
    LaidOutTail(data, c, boxes);
    VisitedBelow(visited, c, end);
    var y := Classified(acc, boxes, c);
    assert ScanLoop(Stream(data, end), acc', visited + {c}) == Ok(y) by {
      ClassifiedCons(acc, boxes, c);
      ScanOfLaidOut(data, end, rest, acc', visited + {c});
    }
    ScanThrough(data, c, b, acc, visited, y);
  }

  /** A scan that goes on past a laid-out box ends as the scan from its end does. */
  lemma {:induction false} ScanThrough(data: seq<Byte>, c: nat, b: Box, acc: Scanned, visited: set<int>, y: Scanned)
    requires BoxAt(data, c, b) && c !in visited
    requires ScanLoop(Stream(data, c + b.Size()), AfterBox(acc, b, c), visited + {c}) == Ok(y)
    ensures ScanLoop(Stream(data, c), acc, visited) == Ok(y)
  {
    ScanOverBox(data, c, b, acc, visited);
  }

  /** Scanning a file made of boxes of known types, each with a 32-bit size, classifies each
      of them in turn: the scanner parses what the layout of section 4.2 of
      ISO/IEC 14496-12 produces. */
  lemma {:induction false} ScanOfBoxes(data: seq<Byte>, boxes: seq<Box>)
    requires TopLevelBoxes(boxes) && |data| <= INT_MAX && data == Serialize(boxes)
    ensures AllValid(boxes) && TotalSize(boxes) <= INT_MAX
    ensures Scan(data) == Ok(Classified(Initial, boxes, 0))
  {
    assert data[0..] == data;
    SerializedLaidOut(data, 0, boxes);
    ScanOfLaidOut(data, 0, boxes, Initial, {});
  }

  /** No box of the sequence is an `ftyp` box. */
  predicate NoFtyp(boxes: seq<Box>)
  {
    forall i | 0 <= i < |boxes| :: boxes[i].kind != FTYP_ATOM
  }

  /** Classifying `a + b` is classifying `a`, then `b` from where `a` ends. */
  lemma {:induction false} ClassifiedAppend(acc: Scanned, a: seq<Box>, b: seq<Box>, start: nat)
    requires AllValid(a) && AllValid(b) && start + TotalSize(a) + TotalSize(b) <= INT_MAX
    ensures AllValid(a + b) && TotalSize(a + b) == TotalSize(a) + TotalSize(b)
    ensures Classified(acc, a + b, start) == Classified(Classified(acc, a, start), b, start + TotalSize(a))
    decreases |a|
  {
    TotalSizeAppend(a, b);
    assert AllValid(a + b) by {
      forall i | 0 <= i < |a + b|
        ensures (a + b)[i].Valid()
      {
        if i >= |a| {
          assert (a + b)[i] == b[i - |a|];
        }
      }
    }
    if |a| == 0 {
      assert a + b == b;
    } else {
      var a1 := a[1..];
      assert (a + b)[0] == a[0] && (a + b)[1..] == a1 + b;
      assert AllValid(a1);
      ClassifiedAppend(AfterBox(acc, a[0], start), a1, b, start + a[0].Size());
    }
  }

  /** Boxes other than `ftyp` leave the captured `ftyp` and the offset after it alone, and
      the last of them sets the type and size. */
  lemma {:induction false} ClassifiedNoFtyp(acc: Scanned, boxes: seq<Box>, start: nat)
    requires AllValid(boxes) && start + TotalSize(boxes) <= INT_MAX && NoFtyp(boxes)
    ensures var s := Classified(acc, boxes, start);
      && s.ftyp == acc.ftyp && s.startOffset == acc.startOffset
      && (|boxes| > 0 ==> s.atomType == boxes[|boxes| - 1].kind && s.atomSize == boxes[|boxes| - 1].Size())
      && (|boxes| == 0 ==> s == acc)
    decreases |boxes|
  {
    if |boxes| > 0 {
      var rest := boxes[1..];
      assert AllValid(rest) && NoFtyp(rest);
      ClassifiedNoFtyp(AfterBox(acc, boxes[0], start), rest, start + boxes[0].Size());
      if |rest| > 0 {
        assert rest[|rest| - 1] == boxes[|boxes| - 1];
      }
    }
  }

  /** Whatever came before, the last box classified sets the type and size. */
  lemma {:induction false} ClassifiedLast(acc: Scanned, boxes: seq<Box>, start: nat)
    requires |boxes| > 0 && AllValid(boxes) && start + TotalSize(boxes) <= INT_MAX
    ensures Classified(acc, boxes, start).atomType == boxes[|boxes| - 1].kind
    ensures Classified(acc, boxes, start).atomSize == boxes[|boxes| - 1].Size()
    decreases |boxes|
  {
    var rest := boxes[1..];
    if |rest| > 0 {
      assert AllValid(rest);
      ClassifiedLast(AfterBox(acc, boxes[0], start), rest, start + boxes[0].Size());
      assert rest[|rest| - 1] == boxes[|boxes| - 1];
    }
  }

  /** A header read from the file gives the file's size and type fields. */
  lemma {:induction false} HeaderFields(data: seq<Byte>, c: nat)
    requires c + ATOM_PREAMBLE_SIZE <= |data|
    ensures var header := data[c..c + ATOM_PREAMBLE_SIZE];
      && Uint32ToLong(GetInt(header, 0)) == Unsigned32(data, c)
      && GetInt(header, 4) == GetInt(data, c + 4)
  {
    var header := data[c..c + 8];
    SameBytes32(header, 0, data, c);
    SameBytes32(header, 4, data, c + 4);
  }

  /** The 8 bytes after a header whose size is 1, read as the 64-bit size. */
  lemma {:induction false} ExtendedSize(data: seq<Byte>, c: nat)
    requires |data| <= INT_MAX && c + 2 * ATOM_PREAMBLE_SIZE <= |data|
    ensures ReadAndFill(Stream(data, c + ATOM_PREAMBLE_SIZE))
            == (Stream(data, c + 2 * ATOM_PREAMBLE_SIZE), data[c + 8..c + 16])
    ensures GetLong(data[c + 8..c + 16], 0) == Signed64(Unsigned64(data, c + 8))
  {
    HeaderRead(data, c + 8);
    Unsigned64Slice(data, c + 8);
  }

  /** A box other than `ftyp` whose 32-bit size is 1 takes its size from the next 8 bytes,
      and the cursor moves `size - 16` bytes past them: to the box's end. */
  lemma {:induction false} SkipLargeBox(data: seq<Byte>, c: nat, acc: Scanned)
    requires |data| <= INT_MAX && c + 2 * ATOM_PREAMBLE_SIZE <= |data|
    requires GetInt(data, c + 4) != FTYP_ATOM && Unsigned32(data, c) == 1
    requires 2 * ATOM_PREAMBLE_SIZE <= Unsigned64(data, c + 8) && c + Unsigned64(data, c + 8) <= |data|
    ensures var size64 := Unsigned64(data, c + 8);
      Advance(Stream(data, c + ATOM_PREAMBLE_SIZE), data[c..c + ATOM_PREAMBLE_SIZE], acc)
      == Ok((Stream(data, c + size64), acc.(atomType := GetInt(data, c + 4), atomSize := size64)))
  {
    HeaderFields(data, c);
    ExtendedSize(data, c);
  }

  /** The `(int)` cast of a 64-bit size: a box whose 64-bit size is a non-zero multiple of
      2^32 sends the cursor back to its own header, so the Java loop never ends. */
  lemma {:induction false} LargeSizeDiverges(data: seq<Byte>, c: nat, acc: Scanned, visited: set<int>)
    requires |data| <= INT_MAX && c + 2 * ATOM_PREAMBLE_SIZE <= |data| && c !in visited
    requires IsTopLevel(GetInt(data, c + 4)) && GetInt(data, c + 4) != FTYP_ATOM && Unsigned32(data, c) == 1
    requires 0 < Unsigned64(data, c + 8) < TWO_63 && Unsigned64(data, c + 8) % TWO_32 == 0
    ensures ScanLoop(Stream(data, c), acc, visited) == Aborted(Diverges)
  {
    HeaderRead(data, c);
    HeaderFields(data, c);
    ExtendedSize(data, c);
    var size64 := Unsigned64(data, c + 8);
    assert Wrap32(size64) == 0;
    var acc2 := acc.(atomType := GetInt(data, c + 4), atomSize := size64);
    assert Advance(Stream(data, c + 8), data[c..c + 8], acc) == Ok((Stream(data, c), acc2));
    assert ScanLoop(Stream(data, c), acc2, visited + {c}) == Aborted(Diverges) by {
      HeaderRead(data, c);
    }
  }

  /** A header of a type the loop does not know, or with a 32-bit size below 8 (other than
      1), ends the loop normally with that type and size as the last ones classified. */
  lemma {:induction false} ScanStops(data: seq<Byte>, c: nat, acc: Scanned, visited: set<int>)
    requires |data| <= INT_MAX && c + ATOM_PREAMBLE_SIZE <= |data| && c !in visited
    requires GetInt(data, c + 4) != FTYP_ATOM && Unsigned32(data, c) != 1
    requires !IsTopLevel(GetInt(data, c + 4)) || Unsigned32(data, c) < ATOM_PREAMBLE_SIZE
    ensures ScanLoop(Stream(data, c), acc, visited)
            == Ok(acc.(atomType := GetInt(data, c + 4), atomSize := Unsigned32(data, c)))
  {
    HeaderRead(data, c);
    HeaderFields(data, c);
  }

  /** One iteration at a header of a known type other than `ftyp`, with a plain 32-bit size
      of at least 8, moves the cursor to `c + size` in `int` arithmetic, inside the file or
      not, and the loop goes on from there. */
  lemma {:induction false} ScanPlainBox(data: seq<Byte>, c: nat, acc: Scanned, visited: set<int>)
    requires |data| <= INT_MAX && c + ATOM_PREAMBLE_SIZE <= |data| && c !in visited
    requires IsTopLevel(GetInt(data, c + 4)) && GetInt(data, c + 4) != FTYP_ATOM
    requires Unsigned32(data, c) != 1 && ATOM_PREAMBLE_SIZE <= Unsigned32(data, c)
    ensures ScanLoop(Stream(data, c), acc, visited)
            == ScanLoop(Stream(data, Wrap32(c + Unsigned32(data, c))),
                        acc.(atomType := GetInt(data, c + 4), atomSize := Unsigned32(data, c)), visited + {c})
  {
    var header := data[c..c + ATOM_PREAMBLE_SIZE];
    var acc2 := acc.(atomType := GetInt(data, c + 4), atomSize := Unsigned32(data, c));
    var next := Stream(data, Wrap32(c + Unsigned32(data, c)));
    HeaderRead(data, c);
    assert Advance(Stream(data, c + ATOM_PREAMBLE_SIZE), header, acc) == Ok((next, acc2)) by {
      HeaderFields(data, c);
    }
    ScanContinues(Stream(data, c), acc, visited, Stream(data, c + ATOM_PREAMBLE_SIZE), header, next, acc2);
  }

  /** A plain 32-bit size of 2^31 or more is negative after the `(int)` cast, so the seek
      can land on a header the loop has already gone on from: then the loop never ends. */
  lemma {:induction false} SeekBackDiverges(data: seq<Byte>, c: nat, acc: Scanned, visited: set<int>)
    requires |data| <= INT_MAX && c + ATOM_PREAMBLE_SIZE <= |data| && c !in visited
    requires IsTopLevel(GetInt(data, c + 4)) && GetInt(data, c + 4) != FTYP_ATOM
    requires Unsigned32(data, c) != 1 && ATOM_PREAMBLE_SIZE <= Unsigned32(data, c)
    requires Wrap32(c + Unsigned32(data, c)) in visited
    requires 0 <= Wrap32(c + Unsigned32(data, c)) && Wrap32(c + Unsigned32(data, c)) + ATOM_PREAMBLE_SIZE <= |data|
    ensures ScanLoop(Stream(data, c), acc, visited) == Aborted(Diverges)
  {
    ScanPlainBox(data, c, acc, visited);
    HeaderRead(data, Wrap32(c + Unsigned32(data, c)));
  }

  /** Two `free` boxes, the second declaring 0xFFFFFFF8 bytes. */
  const WRAPPING_FILE: seq<Byte> := [0, 0, 0, 8, 0x66, 0x72, 0x65, 0x65, 0xFF, 0xFF, 0xFF, 0xF8, 0x66, 0x72, 0x65, 0x65]

  /** A file whose first box is a `free` box of 8 bytes and whose second box has a known
      type other than `ftyp` and declares 0xFFFFFFF8 bytes: the seek past the second box
      wraps to offset 0, where the first box starts again, and the loop never ends. */
  lemma {:induction false} WrapToStartDiverges(d: seq<Byte>)
    requires 16 <= |d| <= INT_MAX
    requires Unsigned32(d, 0) == 8 && GetInt(d, 4) == FREE_ATOM
    requires Unsigned32(d, 8) == 0xFFFF_FFF8 && IsTopLevel(GetInt(d, 12)) && GetInt(d, 12) != FTYP_ATOM
    ensures Scan(d) == Aborted(Diverges)
  {
    var first := Initial.(atomType := GetInt(d, 4), atomSize := Unsigned32(d, 0));
    var seen := {} + {0};
    assert Wrap32(0 + Unsigned32(d, 0)) == 8;
    assert ScanLoop(Stream(d, 8), first, seen) == Aborted(Diverges) by {
      assert Wrap32(8 + Unsigned32(d, 8)) == 0;
      SeekBackDiverges(d, 8, first, seen);
    }
    assert ScanLoop(Stream(d, 0), Initial, {}) == ScanLoop(Stream(d, 8), first, seen) by {
      ScanPlainBox(d, 0, Initial, {});
    }
    assert FromBytes(d) == Stream(d, 0);
  }

  /** `WRAPPING_FILE` is such a file. */
  lemma {:induction false} WrappingFileDiverges(d: seq<Byte>)
    requires d == WRAPPING_FILE
    ensures Scan(d) == Aborted(Diverges)
  {
    assert Unsigned32(d, 0) == 8 by { Unsigned32Formula(d, 0); }
    assert Unsigned32(d, 8) == 0xFFFF_FFF8 by { Unsigned32Formula(d, 8); }
    assert GetInt(d, 4) == FREE_ATOM by { Unsigned32Formula(d, 4); }
    assert GetInt(d, 12) == FREE_ATOM by { Unsigned32Formula(d, 12); }
    WrapToStartDiverges(d);
  }
}
