/** `ArtificialFileStream`: a "file" that is a Java byte array plus a cursor, with bounded
    reads into a `ByteBuffer`, appending and positional writes that grow the array, and a
    transfer of a range into another stream. Conditions under which the Java code throws a
    runtime exception are preconditions here; `BadFilePositionException` is an `Err`. */
module Store {
  import opened Outcomes
  import opened JavaInt

  function Zeros(n: nat): (z: seq<Byte>)
    ensures |z| == n
    ensures forall k | 0 <= k < n :: z[k] == 0
  {
    seq(n, _ => 0)
  }

  function Min(a: int, b: int): int
  {
    if a <= b then a else b
  }

  function Max(a: int, b: int): int
  {
    if a <= b then b else a
  }

  /** A `ByteBuffer` whose limit equals its capacity (every buffer the converter hands to
      the stream is freshly allocated or cleared): its backing array and its position. */
  datatype Buffer = Buffer(bytes: seq<Byte>, pos: nat) {

    predicate Valid() {
      pos <= |bytes| <= INT_MAX
    }

    function Capacity(): nat {
      |bytes|
    }

    function Remaining(): int {
      |bytes| - pos
    }
  }

  /** `ByteBuffer.allocate(n)`: n zero bytes, position 0. */
  function Allocate(n: nat): Buffer
  {
    Buffer(Zeros(n), 0)
  }

  /** The stream: the backing array and a cursor that nothing validates. */
  datatype Stream = Stream(data: seq<Byte>, position: Int) {

    /** A Java array holds at most `Integer.MAX_VALUE` bytes. */
    predicate Valid() {
      |data| <= INT_MAX
    }

    /** `size()`. */
    function Size(): nat {
      |data|
    }

    /** `getByteArray()`: the backing array itself. */
    function GetByteArray(): seq<Byte> {
      data
    }

    /** `position(int)`: sets the cursor, with no check against the size. */
    function SetPosition(p: Int): Stream {
      this.(position := p)
    }
  }

  /** The `byte[]` constructor: wraps the array, cursor at 0. */
  function FromBytes(b: seq<Byte>): Stream
    requires |b| <= INT_MAX
  {
    Stream(b, 0)
  }

  /** The no-argument constructor: an empty array. */
  function Empty(): Stream
  {
    Stream([], 0)
  }

  /** How many bytes `read` moves when `avail` bytes are left in the array: it compares
      `avail` with the buffer's CAPACITY, but otherwise moves only its REMAINING room. */
  function ReadCount(avail: int, buf: Buffer): int
  {
    if avail < buf.Capacity() then avail else buf.Remaining()
  }

  /** `put` of `ReadCount` bytes does not overflow the buffer. */
  predicate ReadFits(avail: int, buf: Buffer)
  {
    ReadCount(avail, buf) <= buf.Remaining()
  }

  /** The buffer after `put`ting `src` at its position. */
  function Put(buf: Buffer, src: seq<Byte>): Buffer
    requires buf.pos + |src| <= |buf.bytes|
  {
    Buffer(buf.bytes[..buf.pos] + src + buf.bytes[buf.pos + |src|..], buf.pos + |src|)
  }

  /** `read(buffer)`: copies from the cursor as many bytes as both the buffer's room and the
      array allow, and advances the cursor by that many. A cursor outside `[0, size]` throws
      (negative array size, or index out of bounds), and so does a put beyond the buffer. */
  function Read(s: Stream, buf: Buffer): (r: (Stream, Buffer))
    requires s.Valid() && buf.Valid()
    requires 0 <= s.position <= s.Size()
    requires ReadFits(s.Size() - s.position, buf)
    ensures var q := Min(buf.Remaining(), s.Size() - s.position);
      && r.0.data == s.data
      && r.0.position == s.position + q
      && r.1.Valid()
      && |r.1.bytes| == |buf.bytes|
      && r.1.pos == buf.pos + q
      && r.1.bytes[..buf.pos] == buf.bytes[..buf.pos]
      && r.1.bytes[buf.pos..buf.pos + q] == s.data[s.position..s.position + q]
      && r.1.bytes[buf.pos + q..] == buf.bytes[buf.pos + q..]
  {
    var q := ReadCount(s.Size() - s.position, buf);
    var tmp := s.data[s.position..s.position + q];
    (s.SetPosition(s.position + q), Put(buf, tmp))
  }

  /** `read(buffer, position)`: like `read(buffer)` but from `position`; a position outside
      `[0, size]` is a `BadFilePosition`. The cursor is ADVANCED by the count (as a Java
      `int`), not set to the end of what was read. */
  function ReadAt(s: Stream, buf: Buffer, position: Int): (r: Result<(Stream, Buffer)>)
    requires s.Valid() && buf.Valid()
    requires 0 <= position <= s.Size() ==> ReadFits(s.Size() - position, buf)
    ensures r.Ok? <==> 0 <= position <= s.Size()
    ensures !r.Ok? ==> r == Err(BadFilePosition)
    ensures r.Ok? ==>
      var q := Min(buf.Remaining(), s.Size() - position);
      var (s', buf') := r.value;
      && s'.data == s.data
      && s'.position == Wrap32(s.position + q)
      && buf'.Valid()
      && |buf'.bytes| == |buf.bytes|
      && buf'.pos == buf.pos + q
      && buf'.bytes[..buf.pos] == buf.bytes[..buf.pos]
      && buf'.bytes[buf.pos..buf.pos + q] == s.data[position..position + q]
      && buf'.bytes[buf.pos + q..] == buf.bytes[buf.pos + q..]
  {
    if s.Size() < position then Err(BadFilePosition)
    else if position < 0 then Err(BadFilePosition)
    else
      var q := ReadCount(s.Size() - position, buf);
      var tmp := s.data[position..position + q];
      Ok((s.SetPosition(Wrap32(s.position + q)), Put(buf, tmp)))
  }

  /** `write(buffer)`: appends the buffer's whole backing array (whatever its position) and
      returns its length; the cursor does not move. The new length must be a valid `int`. */
  function Write(s: Stream, buf: Buffer): (r: (Stream, int))
    requires s.Valid()
    requires s.Size() + buf.Capacity() <= INT_MAX
    ensures r.0.Valid()
    ensures r.0.position == s.position
    ensures r.0.Size() == s.Size() + buf.Capacity()
    ensures r.0.data[..s.Size()] == s.data
    ensures r.0.data[s.Size()..] == buf.bytes
    ensures r.1 == buf.Capacity()
  {
    (s.(data := s.data + buf.bytes), |buf.bytes|)
  }

  /** Where `write(buffer, position)` puts the buffer: at `position`, except that past the
      end the array grows only to `position` and the buffer ENDS there. */
  function WriteStart(s: Stream, buf: Buffer, position: nat): int
  {
    if position > s.Size() then position - buf.Capacity() else position
  }

  /** `write(buffer, position)`. A negative position is a `BadFilePosition`; past the end the
      array grows to `position` (zero-filled) with the buffer in its last bytes; a write
      straddling the end grows the array to `position + capacity`; otherwise the write is in
      place. Returns the capacity; the cursor does not move. */
  function WriteAt(s: Stream, buf: Buffer, position: Int): (r: Result<(Stream, int)>)
    requires s.Valid() && buf.Valid()
    requires position > s.Size() ==> buf.Capacity() <= position
    requires 0 <= position <= s.Size() ==> position + buf.Capacity() <= INT_MAX
    ensures r.Ok? <==> position >= 0
    ensures !r.Ok? ==> r == Err(BadFilePosition)
    ensures r.Ok? ==>
      var start := WriteStart(s, buf, position);
      var (t, n) := r.value;
      && t.Valid()
      && t.position == s.position
      && n == buf.Capacity()
      && 0 <= start && start + buf.Capacity() <= t.Size()
      && t.Size() == (if position > s.Size() then position else Max(s.Size(), position + buf.Capacity()))
      && (forall k | 0 <= k < t.Size() ::
            t.data[k] == if start <= k < start + buf.Capacity() then buf.bytes[k - start]
                          else if k < s.Size() then s.data[k]
                          else 0)
  {
    if position < 0 then Err(BadFilePosition)
    else if position > s.Size() then
      var tmp := s.data + Zeros(position - s.Size());
      Ok((s.(data := tmp[..position - buf.Capacity()] + buf.bytes), buf.Capacity()))
    else if position + buf.Capacity() > s.Size() then
      Ok((s.(data := s.data[..position] + buf.bytes), buf.Capacity()))
    else
      Ok((s.(data := s.data[..position] + buf.bytes + s.data[position + buf.Capacity()..]), buf.Capacity()))
  }

  /** `transferTo(position, count, target)`: reads up to `count` bytes at `position` into a
      fresh buffer of `count` bytes and appends that WHOLE buffer to `target`, so the target
      grows by exactly `count` bytes, the ones past the end of the source being zero. A
      negative count or a position outside `[0, size]` is a `BadFilePosition`. */
  function TransferTo(src: Stream, position: Int, count: Int, target: Stream): (r: Result<(Stream, Stream, int)>)
    requires src.Valid() && target.Valid()
    requires count >= 0 && 0 <= position <= src.Size() ==> target.Size() + count <= INT_MAX
    ensures r.Ok? <==> count >= 0 && 0 <= position <= src.Size()
    ensures !r.Ok? ==> r == Err(BadFilePosition)
    ensures r.Ok? ==>
      var q := Min(count, src.Size() - position);
      && r.value.2 == count
      && r.value.0 == src.SetPosition(Wrap32(src.position + q))
      && r.value.1 == target.(data := target.data + src.data[position..position + q] + Zeros(count - q))
  {
    if count < 0 then Err(BadFilePosition)
    else
      var read :- ReadAt(src, Allocate(count), position);
      var (src', filled) := read;
      var (target', _) := Write(target, filled);
      AppendedRead(target'.data, target.data, filled.bytes, src.data[position..position + Min(count, src.Size() - position)], count);
      Ok((src', target', filled.Capacity()))
  }

  /** A transfer of bytes that all lie inside the source appends exactly those bytes. */
  lemma {:induction false} TransferInside(src: Stream, position: Int, count: Int, target: Stream)
    requires src.Valid() && target.Valid()
    requires 0 <= position && 0 <= count && position + count <= src.Size()
    requires target.Size() + count <= INT_MAX
    ensures TransferTo(src, position, count, target)
            == Ok((src.SetPosition(Wrap32(src.position + count)),
                   target.(data := target.data + src.data[position..position + count]), count))
  {
    assert Zeros(0) == [];
    assert target.data + src.data[position..position + count] + Zeros(0)
           == target.data + src.data[position..position + count];
  }

  /** `t` is `a` followed by a freshly allocated buffer `b` of `n` bytes into which `got`
      was read: so `t` is `a`, what was read, then the untouched zeros. */
  lemma {:induction false} AppendedRead(t: seq<Byte>, a: seq<Byte>, b: seq<Byte>, got: seq<Byte>, n: nat)
    requires |b| == n && |got| <= n
    requires b[0..|got|] == got && b[|got|..] == Zeros(n)[|got|..]
    requires |a| <= |t| && t[..|a|] == a && t[|a|..] == b
    ensures t == a + got + Zeros(n - |got|)
  {
    assert b == b[..|got|] + b[|got|..];
    assert t == t[..|a|] + t[|a|..];
  }

  /** A buffer of capacity `n` holding `head` (at least one byte) with the rest free is
      filled to the brim by `read` when the stream has exactly `n - |head|` bytes left or at
      least `n`; with anything in between the put overflows. */
  lemma {:induction false} ReadToBrim(s: Stream, head: seq<Byte>, n: nat)
    requires s.Valid() && 0 <= s.position <= s.Size()
    requires 0 < |head| <= n <= INT_MAX
    ensures var buf := Buffer(head + Zeros(n - |head|), |head|);
      var avail := s.Size() - s.position;
      && (ReadFits(avail, buf) <==> avail <= n - |head| || n <= avail)
      && (avail == n - |head| || n <= avail ==>
          Read(s, buf) == (s.SetPosition(s.position + n - |head|),
                           Buffer(head + s.data[s.position..s.position + n - |head|], n)))
  {
    var buf := Buffer(head + Zeros(n - |head|), |head|);
    var avail := s.Size() - s.position;
    if avail == n - |head| || n <= avail {
      var (s', filled) := Read(s, buf);
      assert filled.bytes == filled.bytes[..|head|] + filled.bytes[|head|..n];
    }
  }

  /** `read(buffer, position)` into a fresh buffer that the rest of the array can fill: the
      buffer gets exactly the bytes at `position`. */
  lemma {:induction false} ReadWhole(s: Stream, position: Int, n: nat)
    requires s.Valid() && 0 <= position && position + n <= s.Size()
    ensures ReadAt(s, Allocate(n), position)
            == Ok((s.SetPosition(Wrap32(s.position + n)), Buffer(s.data[position..position + n], n)))
  {
    var filled := ReadAt(s, Allocate(n), position).value.1;
    assert filled.bytes == filled.bytes[..n];
  }

  /** The constructor's stream reads the array from its first byte. */
  lemma {:induction false} ConstructorReadsFromStart(b: seq<Byte>, n: nat)
    requires |b| <= INT_MAX && n <= INT_MAX
    ensures var (s, buf) := Read(FromBytes(b), Allocate(n));
      && s.Size() == |b|
      && s.GetByteArray() == b
      && s.position == Min(n, |b|)
      && buf.bytes[..buf.pos] == b[..Min(n, |b|)]
  {
  }

  /** Moving the cursor with `position(int)` makes the next `read` start there. */
  lemma {:induction false} SeekThenRead(s: Stream, p: Int, n: nat)
    requires s.Valid() && 0 <= p <= s.Size() && n <= INT_MAX
    ensures var (s', buf) := Read(s.SetPosition(p), Allocate(n));
      && s'.position == p + Min(n, s.Size() - p)
      && buf.bytes[..buf.pos] == s.data[p..p + Min(n, s.Size() - p)]
  {
  }

  /** Reading back what `write(buffer)` appended gives the buffer's bytes. */
  lemma {:induction false} ReadBackAppended(s: Stream, buf: Buffer)
    requires s.Valid() && buf.Valid()
    requires s.Size() + buf.Capacity() <= INT_MAX
    ensures var t := Write(s, buf).0;
      var r := ReadAt(t, Allocate(buf.Capacity()), s.Size());
      r.Ok? && r.value.1.bytes == buf.bytes
  {
    var t := Write(s, buf).0;
    var r := ReadAt(t, Allocate(buf.Capacity()), s.Size());
    assert r.value.1.bytes == r.value.1.bytes[..buf.Capacity()];
  }

  /** Reading back at the place `write(buffer, position)` put the buffer gives its bytes. */
  lemma {:induction false} ReadBackWrittenAt(s: Stream, buf: Buffer, position: Int)
    requires s.Valid() && buf.Valid()
    requires position > s.Size() ==> buf.Capacity() <= position
    requires 0 <= position <= s.Size() ==> position + buf.Capacity() <= INT_MAX
    requires position >= 0
    ensures WriteAt(s, buf, position).Ok?
    ensures 0 <= WriteStart(s, buf, position) <= INT_MAX
    ensures ReadAt(WriteAt(s, buf, position).value.0, Allocate(buf.Capacity()), WriteStart(s, buf, position))
            == Ok((WriteAt(s, buf, position).value.0.SetPosition(Wrap32(s.position + buf.Capacity())),
                   Buffer(buf.bytes, buf.Capacity())))
  {
    var t := WriteAt(s, buf, position).value.0;
    var start := WriteStart(s, buf, position);
    var cap := buf.Capacity();
    assert t.data[start..start + cap] == buf.bytes by {
      forall k | 0 <= k < cap
        ensures t.data[start..start + cap][k] == buf.bytes[k]
      {
        assert t.data[start..start + cap][k] == t.data[start + k];
      }
    }
    ReadWhole(t, start, cap);
  }
}
