/** `fastStartImpl` and the `fastStart(byte[])` wrapper: the decision taken after the
    top-level loop, the load of the trailing `moov` box, its patch, and the assembly of the
    output `ftyp ++ patched moov ++ input[startOffset, lastOffset)`. */
module FastStart {
  import opened Outcomes
  import opened JavaInt
  import opened BigEndian
  import opened Store
  import opened Atoms
  import opened Scan
  import opened Patch

  /** What `fastStartImpl` returns on success: the input array itself, when the last box
      the loop classified is not `moov`, or a new array. */
  datatype Output = Unchanged | Rewritten(bytes: seq<Byte>)

  /** The bytes `write` appends for the captured `ftyp` buffer: none when there was none. */
  function FtypBytes(ftyp: Option<seq<Byte>>): seq<Byte>
  {
    if ftyp.Some? then ftyp.value else []
  }

  /** The output stream after its first writes: a new stream, the `ftyp` buffer when one
      was captured, then the patched `moov` buffer. */
  function WriteHead(ftyp: Option<seq<Byte>>, moov: seq<Byte>): (out: Stream)
    requires |FtypBytes(ftyp)| + |moov| <= INT_MAX
    ensures out.Valid() && out.data == FtypBytes(ftyp) + moov
  {
    var out1 := if ftyp.Some? then Write(Empty(), Buffer(ftyp.value, 0)).0 else Empty();
    Write(out1, Buffer(moov, 0)).0
  }

  /** The output stream: the `ftyp` buffer (when one was captured), the patched `moov`
      buffer, then `transferTo` of `lastOffset - startOffset` bytes from `startOffset`, with
      that count cast to `int`. An output longer than an array can be makes the allocation
      inside `write` fail. */
  function Assemble(data: seq<Byte>, ftyp: Option<seq<Byte>>, startOffset: Int, lastOffset: int, moov: seq<Byte>)
    : (r: Result<Output>)
    requires |data| <= INT_MAX && 0 <= lastOffset <= |data|
    ensures r.Ok? ==> r.value.Rewritten?
    ensures r.Ok? <==> 0 <= startOffset <= lastOffset
                       && |FtypBytes(ftyp)| + |moov| + (lastOffset - startOffset) <= INT_MAX
    ensures r.Ok? ==> r.value.bytes == FtypBytes(ftyp) + moov + data[startOffset..lastOffset]
    ensures |FtypBytes(ftyp)| + |moov| > INT_MAX ==> r == Aborted(NegativeArraySize)
    ensures |FtypBytes(ftyp)| + |moov| <= INT_MAX
            ==> (r == Err(BadFilePosition) <==> !(0 <= startOffset <= lastOffset))
    ensures !r.Ok? && r != Err(BadFilePosition) ==> r == Aborted(NegativeArraySize)
  {
    var head := FtypBytes(ftyp);
    if |head| + |moov| > INT_MAX then Aborted(NegativeArraySize)
    else
      var out2 := WriteHead(ftyp, moov);
      var count := Wrap32(lastOffset - startOffset);
      if count >= 0 && 0 <= startOffset <= |data| && out2.Size() + count > INT_MAX then Aborted(NegativeArraySize)
      else
        var moved :- TransferTo(Stream(data, startOffset), startOffset, count, out2);
        assert moved.1.data == out2.data + data[startOffset..lastOffset] by {
          if count >= 0 && 0 <= startOffset <= |data| {
            TransferInside(Stream(data, startOffset), startOffset, count, out2);
          }
        }
        Ok(Rewritten(moved.1.GetByteArray()))
  }

  /** Everything `fastStartImpl` does once the loop has ended with state `s`. When the last
      classified type is not `moov` the input is returned as it is. Otherwise the last
      `size` bytes of the file are taken to be the `moov` box (`size` being the last size
      the loop saw), read with `read(buffer, (int) lastOffset)`, checked for compression and
      patched. The cursor the loop leaves behind plays no part: both later reads give their
      position. */
  function Rewrite(data: seq<Byte>, s: Scanned): (r: Result<Output>)
    requires |data| <= INT_MAX
  {
    if s.atomType != MOOV_ATOM then Ok(Unchanged)
    else
      var moovSize :- Uint32ToInt(s.atomSize);
      var moov :- LoadMoov(data, moovSize);
      var patched :- PatchMoov(moov);
      Assemble(data, s.ftyp, s.startOffset, |data| - moovSize, patched)
  }

  /** `readAndFill(in, moovAtom, lastOffset)` with `lastOffset = size - moovSize`: the last
      `moovSize` bytes of the file, or a `BadFilePosition` when the box would start before
      the file does. The stream's cursor, which this read only moves on, is not tracked: no
      byte read depends on it. */
  function LoadMoov(data: seq<Byte>, moovSize: nat): (r: Result<seq<Byte>>)
    requires |data| <= INT_MAX && moovSize <= INT_MAX
    ensures moovSize <= |data| ==> r == Ok(data[|data| - moovSize..])
    ensures moovSize > |data| ==> r == Err(BadFilePosition)
  {
    var lastOffset := |data| - moovSize;
    var loaded :- ReadAt(FromBytes(data), Allocate(moovSize), Wrap32(lastOffset));
    assert moovSize <= |data| ==> loaded.1.bytes == data[lastOffset..] by {
      if moovSize <= |data| {
        ReadWhole(FromBytes(data), lastOffset, moovSize);
      }
    }
    Ok(loaded.1.bytes)
  }

  /** `fastStartImpl` on the stream the `byte[]` constructor makes. */
  function FastStartImpl(data: seq<Byte>): (r: Result<Output>)
    requires |data| <= INT_MAX
  {
    var s :- Scan.Scan(data);
    Rewrite(data, s)
  }

  /** `fastStart(byte[])`: the converted bytes, the input array itself when there is
      nothing to move, and `null` when a checked exception was caught. The Java code lets
      runtime exceptions escape and can loop forever; callers here rule both out. */
  function FastStartBytes(data: seq<Byte>): (r: Option<seq<Byte>>)
    requires |data| <= INT_MAX && !FastStartImpl(data).Aborted?
    ensures r.None? <==> FastStartImpl(data).Err?
    ensures FastStartImpl(data) == Ok(Unchanged) ==> r == Some(data)
    ensures FastStartImpl(data).Ok? && FastStartImpl(data).value.Rewritten?
            ==> r == Some(FastStartImpl(data).value.bytes)
  {
    match FastStartImpl(data)
    case Ok(Unchanged) => Some(data)
    case Ok(Rewritten(bytes)) => Some(bytes)
    case Err(_) => None
  }

  /** A loop that ends normally hands its state to the rest of `fastStartImpl`; one that
      fails makes it fail the same way. */
  lemma {:induction false} FastStartOfScan(data: seq<Byte>, s: Result<Scanned>)
    requires |data| <= INT_MAX && Scan.Scan(data) == s
    ensures s.Ok? ==> FastStartImpl(data) == Rewrite(data, s.value)
    ensures !s.Ok? ==> FastStartImpl(data) == s.PropagateFailure()
  {
  }

  /** The input comes back as it is exactly when the last box the loop classified is not
      `moov`: a `moov` box always leads to a new array or a failure. */
  lemma {:induction false} RewriteDecision(data: seq<Byte>, s: Scanned)
    requires |data| <= INT_MAX
    ensures Rewrite(data, s) == Ok(Unchanged) <==> s.atomType != MOOV_ATOM
    ensures s.atomType == MOOV_ATOM && Rewrite(data, s).Ok? ==> Rewrite(data, s).value.Rewritten?
  {
  }

  /** The failures after a loop that ended on `moov`, in the order the Java code meets
      them: a size beyond `Integer.MAX_VALUE`, a `moov` box longer than the file (a negative
      read position), then whatever the patch of the last `size` bytes raises; if the patch
      succeeds, the output is assembled from it. */
  lemma {:induction false} RewriteOutcome(data: seq<Byte>, s: Scanned)
    requires |data| <= INT_MAX && s.atomType == MOOV_ATOM
    ensures !(0 <= s.atomSize <= INT_MAX) ==> Rewrite(data, s) == Err(UnsupportedFile)
    ensures 0 <= s.atomSize <= INT_MAX && s.atomSize > |data| ==> Rewrite(data, s) == Err(BadFilePosition)
    ensures 0 <= s.atomSize <= |data| && !PatchMoov(data[|data| - s.atomSize..]).Ok? ==>
              Rewrite(data, s) == PatchMoov(data[|data| - s.atomSize..]).PropagateFailure()
    ensures 0 <= s.atomSize <= |data| && PatchMoov(data[|data| - s.atomSize..]).Ok? ==>
              Rewrite(data, s)
              == Assemble(data, s.ftyp, s.startOffset, |data| - s.atomSize, PatchMoov(data[|data| - s.atomSize..]).value)
  {
  }

  /** A file of boxes of known types, each with a 32-bit size, in which an `ftyp` box `f`
      is followed by boxes `mid` of other types and then by the `moov` box `m`, last. The
      boxes `pre` before `f` are of any known type, `ftyp` included. */
  predicate MovableFile(pre: seq<Box>, f: Box, mid: seq<Box>, m: Box)
  {
    && TopLevelBoxes(pre)
    && f.kind == FTYP_ATOM && f.Valid()
    && TopLevelBoxes(mid) && NoFtyp(mid)
    && m.kind == MOOV_ATOM && m.Valid()
    && TotalSize(pre) + f.Size() + TotalSize(mid) + m.Size() <= INT_MAX
  }

  /** The loop state such a file ends in: on the `moov` box, holding the `ftyp` box and
      the offset after it. */
  function MovableState(pre: seq<Box>, f: Box, m: Box): Scanned
    requires AllValid(pre) && f.Valid() && m.Valid() && TotalSize(pre) + f.Size() <= INT_MAX
  {
    Scanned(MOOV_ATOM, m.Size(), Some(f.Bytes()), TotalSize(pre) + f.Size())
  }

  /** The boxes of such a file, in order. */
  function FileBoxes(pre: seq<Box>, f: Box, mid: seq<Box>, m: Box): seq<Box>
  {
    pre + [f] + mid + [m]
  }

  lemma {:induction false} OneBox(b: Box)
    requires b.Valid()
    ensures AllValid([b]) && TotalSize([b]) == b.Size() && Serialize([b]) == b.Bytes()
  {
    assert [b][1..] == [];
  }

  lemma {:induction false} TopLevelAppend(a: seq<Box>, b: seq<Box>)
    requires TopLevelBoxes(a) && TopLevelBoxes(b)
    ensures TopLevelBoxes(a + b)
  {
    forall i | 0 <= i < |a + b|
      ensures IsTopLevel((a + b)[i].kind) && (a + b)[i].Valid()
    {
      if i >= |a| {
        assert (a + b)[i] == b[i - |a|];
      }
    }
  }

  /** The boxes of such a file are of known types, and its bytes are the four parts one
      after another. */
  lemma {:induction false} MovableFileBytes(pre: seq<Box>, f: Box, mid: seq<Box>, m: Box)
    requires MovableFile(pre, f, mid, m)
    ensures var boxes := FileBoxes(pre, f, mid, m);
      && TopLevelBoxes(boxes) && AllValid(boxes) && AllValid(pre) && AllValid(mid)
      && TotalSize(boxes) == TotalSize(pre) + f.Size() + TotalSize(mid) + m.Size()
      && Serialize(boxes) == Serialize(pre) + f.Bytes() + Serialize(mid) + m.Bytes()
  {
    assert AllValid(pre) && AllValid(mid);
    TopLevelAppend(pre, [f]);
    TopLevelAppend(pre + [f], mid);
    TopLevelAppend(pre + [f] + mid, [m]);
    OneBox(f);
    OneBox(m);
    SerializeAppend(pre, [f]);
    SerializeAppend(pre + [f], mid);
    SerializeAppend(pre + [f] + mid, [m]);
    TotalSizeAppend(pre, [f]);
    TotalSizeAppend(pre + [f], mid);
    TotalSizeAppend(pre + [f] + mid, [m]);
  }

  /** After boxes ending with an `ftyp` box, the loop state holds that box and the offset
      just after it. */
  lemma {:induction false} ClassifiedUpToFtyp(pre: seq<Box>, f: Box)
    requires AllValid(pre) && f.Valid() && f.kind == FTYP_ATOM && TotalSize(pre) + f.Size() <= INT_MAX
    ensures AllValid(pre + [f]) && TotalSize(pre + [f]) == TotalSize(pre) + f.Size()
    ensures Classified(Initial, pre + [f], 0) == Scanned(FTYP_ATOM, f.Size(), Some(f.Bytes()), TotalSize(pre) + f.Size())
  {
    OneBox(f);
    ClassifiedAppend(Initial, pre, [f], 0);
    assert [f][1..] == [];
  }

  /** Then boxes other than `ftyp` and a last `moov` box leave the `ftyp` box held and the
      state on `moov`. */
  lemma {:induction false} ClassifiedToMoov(held: Scanned, mid: seq<Box>, m: Box, start: nat)
    requires AllValid(mid) && NoFtyp(mid) && m.Valid() && m.kind == MOOV_ATOM
    requires start + TotalSize(mid) + m.Size() <= INT_MAX
    ensures AllValid(mid + [m]) && TotalSize(mid + [m]) == TotalSize(mid) + m.Size()
    ensures Classified(held, mid + [m], start) == held.(atomType := MOOV_ATOM, atomSize := m.Size())
  {
    OneBox(m);
    ClassifiedAppend(held, mid, [m], start);
    ClassifiedNoFtyp(held, mid, start);
    ClassifiedLast(Classified(held, mid, start), [m], start + TotalSize(mid));
  }

  /** Classifying such a file's boxes ends on the `moov` box, holding the last `ftyp` box
      and the offset just after it. */
  lemma {:induction false} MovableFileClassified(pre: seq<Box>, f: Box, mid: seq<Box>, m: Box)
    requires MovableFile(pre, f, mid, m)
    ensures AllValid(FileBoxes(pre, f, mid, m)) && TotalSize(FileBoxes(pre, f, mid, m)) <= INT_MAX
    ensures Classified(Initial, FileBoxes(pre, f, mid, m), 0)
            == MovableState(pre, f, m)
  {
    assert AllValid(pre) && AllValid(mid);
    var start := TotalSize(pre) + f.Size();
    ClassifiedUpToFtyp(pre, f);
    ClassifiedToMoov(Scanned(FTYP_ATOM, f.Size(), Some(f.Bytes()), start), mid, m, start);
    assert FileBoxes(pre, f, mid, m) == (pre + [f]) + (mid + [m]);
    ClassifiedAppend(Initial, pre + [f], mid + [m], 0);
  }

  /** The loop runs through such a file the same way. */
  lemma {:induction false} MovableFileScan(pre: seq<Box>, f: Box, mid: seq<Box>, m: Box)
    requires MovableFile(pre, f, mid, m)
    ensures AllValid(FileBoxes(pre, f, mid, m)) && TotalSize(FileBoxes(pre, f, mid, m)) <= INT_MAX
    ensures Scan.Scan(Serialize(FileBoxes(pre, f, mid, m)))
            == Ok(MovableState(pre, f, m))
  {
    var boxes := FileBoxes(pre, f, mid, m);
    MovableFileBytes(pre, f, mid, m);
    MovableFileClassified(pre, f, mid, m);
    ScanOfBoxes(Serialize(boxes), boxes);
  }

  /** The rest of `fastStartImpl` on a file made of bytes `pb`, a part `fb` the loop
      captured as its `ftyp` buffer with the offset after it, a middle `b`, and a tail `mb`
      on which the loop ended as `moov`: the output is `fb`, the patched tail and the
      middle, and `pb` is dropped. */
  lemma {:induction false} RewriteMovable(data: seq<Byte>, pb: seq<Byte>, fb: seq<Byte>, b: seq<Byte>, mb: seq<Byte>,
                                          s: Scanned, pm: Result<seq<Byte>>)
    requires data == pb + fb + b + mb && |data| <= INT_MAX
    requires s == Scanned(MOOV_ATOM, |mb|, Some(fb), |pb| + |fb|) && pm == PatchMoov(mb)
    ensures pm.Ok? ==> Rewrite(data, s) == Ok(Rewritten(fb + pm.value + b))
    ensures !pm.Ok? ==> Rewrite(data, s) == pm.PropagateFailure()
  {
    var last := |data| - |mb|;
    assert data[last..] == mb && data[|pb| + |fb|..last] == b;
    RewriteOutcome(data, s);
  }

  /** Converting such a file: the loop ends on the `moov` box, which is the last `size`
      bytes. The output is the last `ftyp` box, the patched `moov` box and the boxes in
      between, or the patch's failure; the boxes before that `ftyp` box are not copied. */
  lemma {:induction false} ConvertMovableFile(pre: seq<Box>, f: Box, mid: seq<Box>, m: Box)
    requires MovableFile(pre, f, mid, m)
    ensures AllValid(FileBoxes(pre, f, mid, m)) && TotalSize(FileBoxes(pre, f, mid, m)) <= INT_MAX
    ensures AllValid(mid)
    ensures var data, pm := Serialize(FileBoxes(pre, f, mid, m)), PatchMoov(m.Bytes());
      && (pm.Ok? ==> FastStartImpl(data) == Ok(Rewritten(f.Bytes() + pm.value + Serialize(mid))))
      && (!pm.Ok? ==> FastStartImpl(data) == pm.PropagateFailure())
  {
    MovableFileImpl(pre, f, mid, m);
    MovableFileRewrite(pre, f, mid, m);
  }

  /** The rest of `fastStartImpl` after the loop, on such a file. */
  lemma {:induction false} MovableFileRewrite(pre: seq<Box>, f: Box, mid: seq<Box>, m: Box)
    requires MovableFile(pre, f, mid, m)
    ensures AllValid(FileBoxes(pre, f, mid, m)) && TotalSize(FileBoxes(pre, f, mid, m)) <= INT_MAX
    ensures AllValid(mid)
    ensures PatchMoov(m.Bytes()).Ok? ==>
              Rewrite(Serialize(FileBoxes(pre, f, mid, m)), MovableState(pre, f, m))
              == Ok(Rewritten(f.Bytes() + PatchMoov(m.Bytes()).value + Serialize(mid)))
    ensures !PatchMoov(m.Bytes()).Ok? ==>
              Rewrite(Serialize(FileBoxes(pre, f, mid, m)), MovableState(pre, f, m)) == PatchMoov(m.Bytes()).PropagateFailure()
  {
    var data, pb, fb, b, mb := Serialize(FileBoxes(pre, f, mid, m)), Serialize(pre), f.Bytes(), Serialize(mid), m.Bytes();
    assert data == pb + fb + b + mb && |data| <= INT_MAX && AllValid(mid) by {
      MovableFileBytes(pre, f, mid, m);
    }
    RewriteMovable(data, pb, fb, b, mb, MovableState(pre, f, m), PatchMoov(m.Bytes()));
  }

  /** So `fastStartImpl` on such a file goes on from that loop state. */
  lemma {:induction false} MovableFileImpl(pre: seq<Box>, f: Box, mid: seq<Box>, m: Box)
    requires MovableFile(pre, f, mid, m)
    ensures AllValid(FileBoxes(pre, f, mid, m)) && TotalSize(FileBoxes(pre, f, mid, m)) <= INT_MAX
    ensures FastStartImpl(Serialize(FileBoxes(pre, f, mid, m)))
            == Rewrite(Serialize(FileBoxes(pre, f, mid, m)), MovableState(pre, f, m))
  {
    var data := Serialize(FileBoxes(pre, f, mid, m));
    MovableFileScan(pre, f, mid, m);
    FastStartOfScan(data, Scan.Scan(data));
  }

  /** Through `fastStart(byte[])`: such a file whose patch raises no runtime exception gives
      the converted bytes, as long as the input less the boxes before `ftyp`, or `null`
      when the patch raises a checked exception. */
  lemma {:induction false} FastStartMovable(pre: seq<Box>, f: Box, mid: seq<Box>, m: Box)
    requires MovableFile(pre, f, mid, m) && !PatchMoov(m.Bytes()).Aborted?
    ensures AllValid(FileBoxes(pre, f, mid, m)) && TotalSize(FileBoxes(pre, f, mid, m)) <= INT_MAX
    ensures AllValid(mid) && AllValid(pre)
    ensures var data, pm := Serialize(FileBoxes(pre, f, mid, m)), PatchMoov(m.Bytes());
      && !FastStartImpl(data).Aborted?
      && (pm.Ok? ==> FastStartBytes(data) == Some(f.Bytes() + pm.value + Serialize(mid))
                     && |FastStartBytes(data).value| == |data| - TotalSize(pre))
      && (pm.Err? ==> FastStartBytes(data) == None)
  {
    MovableFileBytes(pre, f, mid, m);
    ConvertMovableFile(pre, f, mid, m);
  }

  /** A patched `moov` box is still a `moov` box of the same size: only entries past its
      16-byte head change. */
  lemma {:induction false} PatchedMoovBox(m: Box, p: seq<Byte>)
    requires m.Valid() && m.kind == MOOV_ATOM && PatchMoov(m.Bytes()) == Ok(p)
    ensures |p| == m.Size() >= 16
    ensures var m' := Box(MOOV_ATOM, p[ATOM_PREAMBLE_SIZE..]);
      m'.Valid() && m'.Size() == m.Size() && m'.Bytes() == p
  {
    PatchMoovValues(m.Bytes());
    var m' := Box(MOOV_ATOM, p[8..]);
    assert m'.Bytes()[..8] == m.Bytes()[..8];
    assert p[..8] == m.Bytes()[..8] by {
      assert p[..16][..8] == p[..8] && m.Bytes()[..16][..8] == m.Bytes()[..8];
    }
    assert p == p[..8] + p[8..];
  }

  /** The converted file is the `ftyp` box, the patched `moov` box, then the boxes that
      were in between. */
  lemma {:induction false} ConvertedBoxes(pre: seq<Box>, f: Box, mid: seq<Box>, m: Box, p: seq<Byte>)
    requires MovableFile(pre, f, mid, m) && PatchMoov(m.Bytes()) == Ok(p)
    ensures AllValid(mid)
    ensures var boxes := [f, Box(MOOV_ATOM, p[ATOM_PREAMBLE_SIZE..])] + mid;
      && TopLevelBoxes(boxes) && AllValid(boxes) && TotalSize(boxes) <= INT_MAX
      && Serialize(boxes) == f.Bytes() + p + Serialize(mid)
  {
    PatchedMoovBox(m, p);
    var m' := Box(MOOV_ATOM, p[ATOM_PREAMBLE_SIZE..]);
    assert AllValid(mid);
    var boxes := [f, m'] + mid;
    assert [f, m'][1..] == [m'];
    OneBox(m');
    assert TopLevelBoxes(boxes) by {
      TopLevelAppend([f, m'], mid);
    }
    assert Serialize([f, m']) == f.Bytes() + p;
    SerializeAppend([f, m'], mid);
    assert TotalSize([f, m']) == f.Size() + m'.Size();
    TotalSizeAppend([f, m'], mid);
  }

  /** So the loop over the converted file ends on the last of the boxes in between. */
  lemma {:induction false} SecondPassScan(pre: seq<Box>, f: Box, mid: seq<Box>, m: Box, p: seq<Byte>)
    requires MovableFile(pre, f, mid, m) && PatchMoov(m.Bytes()) == Ok(p) && |mid| > 0
    ensures AllValid(mid) && |f.Bytes() + p + Serialize(mid)| <= INT_MAX
    ensures var r := Scan.Scan(f.Bytes() + p + Serialize(mid));
      r.Ok? && r.value.atomType == mid[|mid| - 1].kind
  {
    ConvertedBoxes(pre, f, mid, m, p);
    var boxes := [f, Box(MOOV_ATOM, p[ATOM_PREAMBLE_SIZE..])] + mid;
    assert boxes[|boxes| - 1] == mid[|mid| - 1];
    ClassifiedLast(Initial, boxes, 0);
    ScanOfBoxes(Serialize(boxes), boxes);
  }

  /** A converted file whose last box is not `moov` converts to itself: running the
      conversion again returns its input. */
  lemma {:induction false} SecondPassUnchanged(pre: seq<Box>, f: Box, mid: seq<Box>, m: Box, p: seq<Byte>)
    requires MovableFile(pre, f, mid, m) && PatchMoov(m.Bytes()) == Ok(p)
    requires |mid| > 0 && mid[|mid| - 1].kind != MOOV_ATOM
    ensures AllValid(mid) && |f.Bytes() + p + Serialize(mid)| <= INT_MAX
    ensures FastStartImpl(f.Bytes() + p + Serialize(mid)) == Ok(Unchanged)
  {
    var out := f.Bytes() + p + Serialize(mid);
    SecondPassScan(pre, f, mid, m, p);
    var r := Scan.Scan(out);
    FastStartOfScan(out, r);
    RewriteDecision(out, r.value);
  }

  /** A file shorter than one header is returned as it is. */
  lemma {:induction false} ShortFileUnchanged(data: seq<Byte>)
    requires |data| < ATOM_PREAMBLE_SIZE
    ensures FastStartImpl(data) == Ok(Unchanged) && FastStartBytes(data) == Some(data)
  {
    ScanEndsShort(FromBytes(data), Initial, {});
    FastStartOfScan(data, Scan.Scan(data));
  }

  /** A file whose first box is of a type the loop does not know is returned as it is. */
  lemma {:induction false} UnknownFirstBox(data: seq<Byte>)
    requires ATOM_PREAMBLE_SIZE <= |data| <= INT_MAX
    requires !IsTopLevel(GetInt(data, 4)) && Unsigned32(data, 0) != 1
    ensures FastStartImpl(data) == Ok(Unchanged) && FastStartBytes(data) == Some(data)
  {
    ScanStops(data, 0, Initial, {});
    FastStartOfScan(data, Scan.Scan(data));
  }

  /** A file of boxes of known types whose last box is not `moov` is returned as it is,
      whatever the boxes before it. */
  lemma {:induction false} LastNotMoovUnchanged(boxes: seq<Box>)
    requires TopLevelBoxes(boxes) && TotalSize(boxes) <= INT_MAX
    requires |boxes| > 0 && boxes[|boxes| - 1].kind != MOOV_ATOM
    ensures AllValid(boxes)
    ensures FastStartImpl(Serialize(boxes)) == Ok(Unchanged)
  {
    var data := Serialize(boxes);
    ScanOfBoxes(data, boxes);
    ClassifiedLast(Initial, boxes, 0);
    FastStartOfScan(data, Scan.Scan(data));
  }
}
