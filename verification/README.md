# QtFastStart in Dafny

A model of the Java port of `qt-faststart` (package `QtFastStart_Pipes`). The converter
takes a QuickTime/MP4 file whose metadata box (`moov`) comes last and moves that box to
the front, right after the file-type box (`ftyp`). Moving it shifts every media chunk
forward by the `moov` box's size, so the converter also adds that size to every entry of
every chunk offset table (`stco`, 32-bit entries; `co64`, 64-bit entries) it finds inside
`moov`. Boxes follow the layout of section 4.2 of ISO/IEC 14496-12: a 32-bit size, a
four-character type, and a 64-bit size after the header when the 32-bit size is 1. The
chunk offset tables follow section 8.7.5 of the same standard.

The model is pure and functional. Everything runs on one in-memory byte array.

| module | file | models |
|---|---|---|
| `Outcomes` | `outcomes.dfy` | `Result` holds a value, a checked exception (`Err`) or a Java runtime exception / endless loop (`Aborted`); `Option` models a nullable reference |
| `JavaInt` | `java_int.dfy` | Java `int`/`long` ranges, two's-complement wrap-around, `uint32ToLong`, both `uint32ToInt`s, `uint64ToLong` |
| `BigEndian` | `big_endian.dfy` | `ByteBuffer`'s big-endian absolute `getInt`/`putInt`/`getLong`/`putLong`, and `fourCcToInt` |
| `Atoms` | `atoms.dfy` | the type-code constants; a `Box` datatype and its serialisation, which serves as the reference layout of a file |
| `Store` | `store.dfy` | `ArtificialFileStream`: a byte array plus an unchecked cursor, with both `read`s, both `write`s, `transferTo` and the constructors |
| `Scan` | `scan.dfy` | the top-level loop of `fastStartImpl`; `Classified` is an independent reference definition of the state the loop reaches on a well-formed file |
| `Patch` | `patch.dfy` | the `cmov` check and the byte-by-byte crawl through `moov` that patches `stco`/`co64` tables; `Locate` lists the tables the crawl meets, independently of the patching |
| `FastStart` | `faststart.dfy` | the decision, the load of the trailing `moov` box, output assembly, `fastStartImpl` and the `fastStart(byte[])` wrapper, plus whole-file theorems |

Java integers are Dafny integers restricted to the Java ranges. Every wrap-around is
written out: the `(int)` casts of the seeks, `offsetCount * 4` and `offsetCount * 8`, the
`int`/`long` additions in the patch, and the cursor advance in `read(buffer, position)`.
Checked exceptions (`BadFilePositionException`, `MalformedFileException`,
`UnsupportedFileException`) are `Err` values. Runtime exceptions (negative array size,
index out of bounds, buffer overflow/underflow, illegal buffer position) are `Aborted`
values. So is the one way the top-level loop can run forever: a seek whose `(int)`-cast
size sends the cursor back to a header already read. Both seeks can do this: a plain
32-bit size of 2^31 or more is negative after the cast, and a 64-bit size can cast to
anything. The Store operations take their
runtime-exception triggers as preconditions. The converter functions check those
triggers and return `Aborted`, so the conversion is a total function of the input bytes.

The model keeps the code's quirks:

- **Unchanged files.** When the last box the loop classified is not `moov`, `fastStartImpl` returns the input array itself (`QtFastStart.java` lines 248-252), and `fastStart(byte[])` passes it on. It returns `null` only after catching a checked exception (lines 153-167).
- **Dead capacity guards.** The guards at `QtFastStart.java` lines 198, 208 and 264 compare a capacity that never changes, so they are not failure paths.
- **Several `ftyp` boxes.** The last one is kept.
- **Bytes before `ftyp`.** They are not copied to the output.
- **`read(buffer)` room check.** It compares the bytes left with the buffer's capacity but copies only its remaining room. With 1 to 7 bytes left after an `ftyp` box, that overflows the buffer.
- **`read(buffer, position)` cursor.** It adds the count to the cursor instead of setting it.
- **`write(buffer)`.** It appends the whole backing array.
- **`write(buffer, position)` past the end.** The buffer ends at `position`.
- **`transferTo`.** It appends `count` bytes and zero-fills what the source lacks.

## Model

| member | source | states |
|---|---|---|
| JavaInt.Wrap32 | src/main/java/QtFastStart_Pipes/QtFastStart.java:211-213 | the `(int)` cast: the result is congruent to its argument modulo 2^32, and equal to it when it already fits an `int` |
| JavaInt.Uint32ToLong | src/main/java/QtFastStart_Pipes/QtFastStart.java:47-49 | the result lies in [0, 2^32) and is congruent to the `int` modulo 2^32: it is the unsigned value of the bit pattern |
| JavaInt.Uint32PatternToInt | src/main/java/QtFastStart_Pipes/QtFastStart.java:55-60 | succeeds exactly on non-negative `int`s and returns them unchanged; otherwise `UnsupportedFile` |
| JavaInt.Uint32ToInt | src/main/java/QtFastStart_Pipes/QtFastStart.java:66-71 | succeeds exactly on `long`s in [0, `Integer.MAX_VALUE`] and returns them unchanged; otherwise `UnsupportedFile` |
| JavaInt.Uint64ToLong | src/main/java/QtFastStart_Pipes/QtFastStart.java:77-80 | succeeds exactly on non-negative `long`s and returns them unchanged; otherwise `UnsupportedFile` |
| JavaInt.StcoOverflowCheck | src/main/java/QtFastStart_Pipes/QtFastStart.java:300-307 | for any added length in [0, `Integer.MAX_VALUE`], the signed test `cur < 0 && cur + size >= 0` fires exactly when the unsigned sum reaches 2^32 |
| JavaInt.WrapAdd32 | src/main/java/QtFastStart_Pipes/QtFastStart.java:300-308 | wrapping `int` addition is unsigned addition modulo 2^32 |
| JavaInt.WrapAdd64 | src/main/java/QtFastStart_Pipes/QtFastStart.java:317-320 | wrapping `long` addition is unsigned addition modulo 2^64 |
| BigEndian.PutInt | src/main/java/QtFastStart_Pipes/QtFastStart.java:308 | after `putInt`, `getInt` at the same place reads the value back, the length is kept, and every other byte is unchanged |
| BigEndian.PutLong | src/main/java/QtFastStart_Pipes/QtFastStart.java:319 | after `putLong`, `getLong` reads the value back, the length is kept, and every other byte is unchanged |
| Atoms.TopLevelAtomCodes | src/main/java/QtFastStart_Pipes/QtFastStart.java:109-113 | `free`, `junk`, `mdat`, `moov`, `pnot`: each constant is `fourCcToInt` of its four ASCII characters |
| Atoms.MoreTopLevelAtomCodes | src/main/java/QtFastStart_Pipes/QtFastStart.java:114-118 | `skip`, `wide`, `PICT`, `ftyp`, `uuid`: each constant is `fourCcToInt` of its four ASCII characters |
| Atoms.MoovAtomCodes | src/main/java/QtFastStart_Pipes/QtFastStart.java:120-122 | `cmov`, `stco`, `co64`: each constant is `fourCcToInt` of its four ASCII characters |
| Atoms.BoxHeader | src/main/java/QtFastStart_Pipes/QtFastStart.java:187-188 | the first 8 bytes of a serialised box read back, through `uint32ToLong(getInt())` and `getInt()`, as the box's size and type |
| Store.Read | src/main/java/QtFastStart_Pipes/ArtificialFileStream.java:108-129 | copies q = min(remaining room, bytes left) bytes from the cursor into the buffer at its position; the buffer's other bytes and the array are kept; the cursor and the buffer position both advance by exactly q |
| Store.ReadAt | src/main/java/QtFastStart_Pipes/ArtificialFileStream.java:138-165 | `BadFilePosition` exactly when the position is negative or past the size; otherwise copies q bytes from `position` and ADDS q to the cursor as an `int` |
| Store.Write | src/main/java/QtFastStart_Pipes/ArtificialFileStream.java:172-184 | the array grows by the capacity; the old bytes form its prefix and the whole backing array its suffix; the cursor is kept; returns the capacity |
| Store.WriteAt | src/main/java/QtFastStart_Pipes/ArtificialFileStream.java:194-227 | `BadFilePosition` exactly on a negative position; otherwise the new size is `position` past the end, else max(size, position + capacity); byte by byte, the buffer sits at `WriteStart`, old bytes are kept elsewhere, and new bytes are zero |
| Store.TransferTo | src/main/java/QtFastStart_Pipes/ArtificialFileStream.java:237-250 | `BadFilePosition` exactly on a negative count or a bad position; otherwise the target grows by exactly `count` bytes: the source bytes from `position` (as many as exist), then zeros; returns `count`; the source cursor advances by what was read |
| Store.TransferInside | src/main/java/QtFastStart_Pipes/ArtificialFileStream.java:237-250 | a transfer of a range lying inside the source appends exactly that range |
| Store.ConstructorReadsFromStart | src/main/java/QtFastStart_Pipes/ArtificialFileStream.java:87-90 | the `byte[]` constructor's stream has that array as its contents and size, and a first read returns its first bytes |
| Store.SeekThenRead | src/main/java/QtFastStart_Pipes/ArtificialFileStream.java:61-64 | after `position(p)`, the next `read` starts at `p` and leaves the cursor after what it read |
| Store.ReadBackAppended | src/main/java/QtFastStart_Pipes/ArtificialFileStream.java:172-184 | reading at the old size after `write(buffer)` returns the buffer's bytes |
| Store.ReadBackWrittenAt | src/main/java/QtFastStart_Pipes/ArtificialFileStream.java:194-227 | reading at the place `write(buffer, position)` chose returns the buffer's bytes, in all three growth cases |
| Store.ReadToBrim | src/main/java/QtFastStart_Pipes/ArtificialFileStream.java:114-125 | for a partly filled buffer, the put fits exactly when the bytes left are at most its room or at least its capacity (in between, it overflows); when they are exactly its room or at least its capacity, the buffer is filled to the brim with the next bytes |
| Store.ReadWhole | src/main/java/QtFastStart_Pipes/ArtificialFileStream.java:149-161 | a fresh buffer that the rest of the array can fill receives exactly the `n` bytes at `position` |
| Scan.ReadAndFill | src/main/java/QtFastStart_Pipes/QtFastStart.java:91-97 | the header read returns min(8, bytes left) bytes from the cursor and moves the cursor past them |
| Scan.Advance | src/main/java/QtFastStart_Pipes/QtFastStart.java:187-214 | an iteration that goes on keeps the array and records the header's type as the last type; an `ftyp` header is `ReadFtypBox`, a size of 1 is `SkipExtended`, and any other header sets the cursor to `position + (int) size - 8` in wrapping `int` arithmetic and records that type and size |
| Scan.ReadFtypBox | src/main/java/QtFastStart_Pipes/QtFastStart.java:191-201 | an `ftyp` size above `Integer.MAX_VALUE` is `UnsupportedFile`; a size below 8 overflows the buffer; otherwise the read succeeds exactly when the bytes left are at most `size - 8` or at least `size`, and in between it overflows. On success the cursor moves by min(`size - 8`, bytes left), that cursor becomes `startOffset`, and the captured box is the header, the bytes read and zeros for the rest |
| Scan.ParseExtendedSize | src/main/java/QtFastStart_Pipes/QtFastStart.java:210 | the `long` read from 8 bytes is accepted exactly when their unsigned value is below 2^63, and is then that value; otherwise `UnsupportedFile` |
| Scan.ReadExtendedSize | src/main/java/QtFastStart_Pipes/QtFastStart.java:205-210 | fewer than 8 bytes left is a buffer underflow; otherwise the read moves the cursor by 8 and succeeds exactly when the 64-bit size there is below 2^63, giving that size |
| Scan.SkipExtended | src/main/java/QtFastStart_Pipes/QtFastStart.java:203-211 | fewer than 8 bytes left for the 64-bit size is a buffer underflow; otherwise the box goes on exactly when that size is below 2^63 (else `UnsupportedFile`), the cursor moves to `position + (int) size - 16` in wrapping `int` arithmetic, and that type and size are recorded |
| Scan.SkipBox | src/main/java/QtFastStart_Pipes/QtFastStart.java:212-214 | a non-`ftyp` box with a plain 32-bit size of at least 8 is skipped to its end; its type and size become the last classified |
| Scan.SkipLargeBox | src/main/java/QtFastStart_Pipes/QtFastStart.java:203-211 | a non-`ftyp` box whose 32-bit size is 1 takes the 64-bit size from the next 8 bytes and is skipped to its end (`size - 16` past those bytes) |
| Scan.LargeSizeDiverges | src/main/java/QtFastStart_Pipes/QtFastStart.java:210-211 | a known box whose 64-bit size is a non-zero multiple of 2^32 casts to a zero skip and sends the cursor back to its own header: the loop never ends |
| Scan.ScanPlainBox | src/main/java/QtFastStart_Pipes/QtFastStart.java:212-246 | a known non-`ftyp` box with a plain 32-bit size of at least 8 hands the loop over to position `c + size` wrapped to an `int`, inside the file or not, with that header marked as left |
| Scan.SeekBackDiverges | src/main/java/QtFastStart_Pipes/QtFastStart.java:213 | when that wrapped position is a header the loop has already left, the loop never ends |
| Scan.WrapToStartDiverges | src/main/java/QtFastStart_Pipes/QtFastStart.java:183-246 | a file starting with an 8-byte `free` box followed by a known box declaring 0xFFFFFFF8 bytes makes the loop seek back to offset 0 and never end |
| Scan.WrappingFileDiverges | src/main/java/QtFastStart_Pipes/QtFastStart.java:213 | the 16-byte file of two `free` boxes, the second declaring 0xFFFFFFF8 bytes, makes the loop run forever |
| Scan.ReadFtyp | src/main/java/QtFastStart_Pipes/QtFastStart.java:191-201 | an `ftyp` box followed by the end or by a whole header is captured verbatim, and the offset after it is recorded |
| Scan.ScanEndsShort | src/main/java/QtFastStart_Pipes/QtFastStart.java:184-186 | fewer than 8 bytes left: the loop ends normally with the state it had |
| Scan.ScanStops | src/main/java/QtFastStart_Pipes/QtFastStart.java:223-242 | a header other than `ftyp` with an unknown type, or with a 32-bit size below 8 (other than 1), ends the loop normally with that type and size as the last classified |
| Scan.ScanContinues | src/main/java/QtFastStart_Pipes/QtFastStart.java:186-246 | an iteration that neither fails nor breaks hands over to the loop from the new cursor |
| Scan.ScanOverBox | src/main/java/QtFastStart_Pipes/QtFastStart.java:186-246 | at a laid-out box of a known type, the loop classifies it (`AfterBox`) and goes on at its end |
| Scan.ScanOfLaidOut | src/main/java/QtFastStart_Pipes/QtFastStart.java:183-246 | from any box boundary, the loop over laid-out known boxes ends in the state the reference `Classified` gives |
| Scan.ScanOfBoxes | src/main/java/QtFastStart_Pipes/QtFastStart.java:183-246 | on the serialisation of any sequence of known boxes with 32-bit sizes, the loop ends normally in the state `Classified` gives |
| Scan.ClassifiedAppend | src/main/java/QtFastStart_Pipes/QtFastStart.java:186-246 | classifying `a + b` is classifying `a`, then `b` from where `a` ends |
| Scan.ClassifiedNoFtyp | src/main/java/QtFastStart_Pipes/QtFastStart.java:202-215 | boxes other than `ftyp` keep the captured `ftyp` and its end offset; the last of them sets the type and size |
| Scan.ClassifiedLast | src/main/java/QtFastStart_Pipes/QtFastStart.java:187-188 | the last box classified sets the type and size, whatever came before |
| Patch.EntryIsInt | src/main/java/QtFastStart_Pipes/QtFastStart.java:300 | a 32-bit entry is the unsigned value of `getInt` at its slot |
| Patch.EntryIsLong | src/main/java/QtFastStart_Pipes/QtFastStart.java:318 | a 64-bit entry is the unsigned value of `getLong` at its slot |
| Patch.TableAt | src/main/java/QtFastStart_Pipes/QtFastStart.java:281-298 | a table header that passes the checks has a non-negative count and a full 16-byte header inside the buffer |
| Patch.PatchEntriesOutcome | src/main/java/QtFastStart_Pipes/QtFastStart.java:299-320 | the entry loop succeeds exactly when the entries fit and no 32-bit sum overflows; if they fit, any failure is `UnsupportedFile`; 64-bit entries past the end throw |
| Patch.PatchEntriesValues | src/main/java/QtFastStart_Pipes/QtFastStart.java:299-320 | on success each entry becomes (old + size) mod 2^32 or mod 2^64, and every byte outside the entries is unchanged |
| Patch.PatchedAfterTable | src/main/java/QtFastStart_Pipes/QtFastStart.java:299-320 | the entry loop changes no byte past the table's last entry |
| Patch.Co64RunsOff | src/main/java/QtFastStart_Pipes/QtFastStart.java:317-320 | a `co64` table whose entries run past the buffer makes the loop throw: there is no overflow check to stop it first |
| Patch.WrappedCountRunsOff | src/main/java/QtFastStart_Pipes/QtFastStart.java:314-320 | when `offsetCount * 8` wraps to a value the remaining bytes cover, the size check passes although the entries do not fit, and the loop runs off the buffer |
| Patch.Locate | src/main/java/QtFastStart_Pipes/QtFastStart.java:274-322 | the tables the crawl meets lie inside the buffer, in order, each starting at least 16 bytes after the previous one ends |
| Patch.CrawlSkip | src/main/java/QtFastStart_Pipes/QtFastStart.java:277-279 | at a type other than `stco`/`co64`, the crawl moves on exactly one byte |
| Patch.CrawlRejected | src/main/java/QtFastStart_Pipes/QtFastStart.java:281-298 | a table whose size or count check fails makes the crawl fail |
| Patch.TableChecks | src/main/java/QtFastStart_Pipes/QtFastStart.java:281-298 | at a table header, in order: a declared size beyond the bytes left is `MalformedFile`; a cursor moved past the limit throws; fewer than 4 bytes for the count is `MalformedFile`; a count negative as an `int` is `UnsupportedFile`; then the table is accepted, with its count, exactly when the `int` product of count and entry width fits the bytes left, and `MalformedFile` otherwise; the crawl fails the same way |
| Patch.CrawlStops | src/main/java/QtFastStart_Pipes/QtFastStart.java:274 | with fewer than 8 bytes left, the crawl ends, changing nothing and finding no table |
| Patch.LocateAtTable | src/main/java/QtFastStart_Pipes/QtFastStart.java:281-322 | at a table header that passes its checks: when the entries fit, the table is the first one found and the search goes on right after its last entry; when they run past the buffer, the search fails |
| Patch.TablePatched | src/main/java/QtFastStart_Pipes/QtFastStart.java:281-322 | a crawl that succeeds passed each table's checks and patched its entries |
| Patch.LocateFrame | src/main/java/QtFastStart_Pipes/QtFastStart.java:274-322 | the tables found from `p` depend only on the bytes from `p` on, so patching the entries behind the crawl does not change which tables it finds next |
| Patch.PatchFromOutcome | src/main/java/QtFastStart_Pipes/QtFastStart.java:274-322 | the crawl succeeds exactly when every located table fits and none of its 32-bit entries overflows; if the tables are located, an overflow gives `UnsupportedFile` |
| Patch.PatchFromValues | src/main/java/QtFastStart_Pipes/QtFastStart.java:274-322 | after a successful crawl, every entry of every located table is shifted by the size, and every other byte is unchanged |
| Patch.PatchMoovOutcome | src/main/java/QtFastStart_Pipes/QtFastStart.java:268-322 | fewer than 16 bytes throw; `cmov` at offset 12 is `UnsupportedFile`; otherwise the patch succeeds exactly when the located tables fit and no 32-bit entry overflows when the `moov` length is added, and an overflow among located tables is `UnsupportedFile` |
| Patch.PatchMoovValues | src/main/java/QtFastStart_Pipes/QtFastStart.java:268-322 | a patched `moov` has every located entry shifted by its own length, its first 16 bytes intact, and every byte outside the tables unchanged |
| FastStart.WriteHead | src/main/java/QtFastStart_Pipes/QtFastStart.java:326-338 | the output stream holds the captured `ftyp` bytes (when there are any), then the `moov` bytes |
| FastStart.Assemble | src/main/java/QtFastStart_Pipes/QtFastStart.java:324-345 | succeeds exactly when `0 <= startOffset <= lastOffset` and the output fits an array; the output is then `ftyp ++ moov ++ input[startOffset, lastOffset)`. When `ftyp` and `moov` fit an array, it is `BadFilePosition` exactly when `startOffset` is negative or past `lastOffset`; every other failure is a negative-size allocation |
| FastStart.LoadMoov | src/main/java/QtFastStart_Pipes/QtFastStart.java:258-266 | returns the last `moovSize` bytes of the file, or `BadFilePosition` when the box would start before the file |
| FastStart.FastStartBytes | src/main/java/QtFastStart_Pipes/QtFastStart.java:153-167 | `null` exactly when `fastStartImpl` raised a checked exception; the input array itself when nothing is moved; the new array when the file was rewritten |
| FastStart.FastStartOfScan | src/main/java/QtFastStart_Pipes/QtFastStart.java:183-252 | a loop that ends normally hands its state to the rest of `fastStartImpl`; a failing loop makes it fail the same way |
| FastStart.RewriteDecision | src/main/java/QtFastStart_Pipes/QtFastStart.java:248-252 | the input is returned unchanged exactly when the last classified type is not `moov`; after `moov`, success means a new array |
| FastStart.RewriteOutcome | src/main/java/QtFastStart_Pipes/QtFastStart.java:254-345 | after `moov`, in order: a size beyond `Integer.MAX_VALUE` is `UnsupportedFile`; a box longer than the file is `BadFilePosition`; then the patch's failure, or the assembly of the patched last `size` bytes |
| FastStart.ClassifiedUpToFtyp | src/main/java/QtFastStart_Pipes/QtFastStart.java:191-201 | after boxes ending in `ftyp`, the state holds that box's bytes and the offset just after it, whatever earlier `ftyp` boxes there were |
| FastStart.ClassifiedToMoov | src/main/java/QtFastStart_Pipes/QtFastStart.java:202-246 | then non-`ftyp` boxes and a last `moov` box keep the captured `ftyp` and put the state on `moov` |
| FastStart.MovableFileClassified | src/main/java/QtFastStart_Pipes/QtFastStart.java:186-246 | a file of the form boxes, `ftyp`, non-`ftyp` boxes, `moov` classifies to "on `moov`, holding the last `ftyp` and the offset after it" |
| FastStart.MovableFileScan | src/main/java/QtFastStart_Pipes/QtFastStart.java:183-246 | the loop over such a file's bytes ends normally in that state |
| FastStart.MovableFileImpl | src/main/java/QtFastStart_Pipes/QtFastStart.java:183-252 | `fastStartImpl` on such a file goes on from that state |
| FastStart.RewriteMovable | src/main/java/QtFastStart_Pipes/QtFastStart.java:254-345 | on bytes `pb ++ fb ++ b ++ mb`, ending on `moov` with `fb` captured: the output is `fb ++ patched mb ++ b` and `pb` is dropped, or the patch's failure |
| FastStart.MovableFileRewrite | src/main/java/QtFastStart_Pipes/QtFastStart.java:254-345 | the same, stated on such a file's boxes |
| FastStart.ConvertMovableFile | src/main/java/QtFastStart_Pipes/QtFastStart.java:169-345 | `fastStartImpl` on such a file returns the last `ftyp` box, the patched `moov` box, then the boxes in between; or the patch's failure; boxes before that `ftyp` are dropped |
| FastStart.FastStartMovable | src/main/java/QtFastStart_Pipes/QtFastStart.java:153-167 | through `fastStart(byte[])`: the converted bytes, whose length is the input's less the boxes before `ftyp` (the input's length when `ftyp` comes first), or `null` on a checked exception |
| FastStart.PatchedMoovBox | src/main/java/QtFastStart_Pipes/QtFastStart.java:269-322 | a patched `moov` box is still a valid `moov` box of the same size |
| FastStart.ConvertedBoxes | src/main/java/QtFastStart_Pipes/QtFastStart.java:324-345 | the converted file is itself a well-formed box sequence: `ftyp`, the patched `moov`, the boxes in between |
| FastStart.SecondPassScan | src/main/java/QtFastStart_Pipes/QtFastStart.java:183-246 | the loop over a converted file ends normally on the last of the in-between boxes |
| FastStart.SecondPassUnchanged | src/main/java/QtFastStart_Pipes/QtFastStart.java:248-252 | converting a converted file again returns it unchanged, when its last box is not `moov` |
| FastStart.ShortFileUnchanged | src/main/java/QtFastStart_Pipes/QtFastStart.java:184-252 | a file shorter than one header comes back as it is |
| FastStart.UnknownFirstBox | src/main/java/QtFastStart_Pipes/QtFastStart.java:223-252 | a file whose first box has a type the loop does not know comes back as it is |
| FastStart.LastNotMoovUnchanged | src/main/java/QtFastStart_Pipes/QtFastStart.java:248-252 | a file of known boxes whose last box is not `moov` comes back as it is |

## Left out

- `src/test/java/Main.java` is not part of this model: it only handles command-line arguments, file I/O and printing.
- `fastStart(InputStream)` and the `ArtificialFileStream(InputStream)` constructor are not modelled. They read the whole stream into an array and then behave like the `byte[]` versions; their size checks can never fire for a Java array.
- Logging (`Logger`, `printf`, `sDEBUG`) has no effect on any result and is left out.
- `ByteBuffer` is modelled only as far as the converter uses it: a backing array plus a position. Limit and mark are implicit; `flip` becomes "the bytes up to the position".
- The accessors `position()`, `size()` and `getByteArray()` are plain fields and functions of `Store.Stream` with no contracts of their own. What they mean is stated through `Store.ConstructorReadsFromStart` and `Store.SeekThenRead`.
- The stream cursor after the top-level loop is not tracked. Every later read and `transferTo` takes an explicit position, and `in.position(startOffset)` at line 324 has no effect on the output.
- An endless top-level loop is the `Aborted(Diverges)` outcome. The model detects it when the loop returns to a header position it has already left from.
- Which Java runtime exception is thrown is named by the step contracts (`Scan.ReadFtypBox`, `Scan.ReadExtendedSize`, `Scan.SkipExtended`, `Patch.PatchEntriesOutcome`, `Patch.TableChecks`, `Patch.PatchMoovOutcome`, `Patch.Co64RunsOff`, `Patch.WrappedCountRunsOff`, `FastStart.Assemble`). The whole-file theorems only rule a runtime exception out, and where `Locate` fails the kind is not stated.
- Store.Read, Store.ReadAt, Store.Write, Store.WriteAt and Store.TransferTo: their `requires` beyond `Valid()` exclude the inputs on which the Java method throws a runtime exception. These are a cursor outside the array for `read(buffer)`, a put beyond the buffer's room, and a resulting array longer than `Integer.MAX_VALUE`, or one whose copy would not fit, for `write` and `transferTo`. The Store operations do not model those exceptions. `Scan`, `Patch` and `FastStart` test the same conditions before each call and return `Aborted` themselves.
- FastStart.FastStartBytes: requires that `fastStartImpl` neither throws a runtime exception nor loops forever. The Java method lets both escape, so there is no value to return in those cases.
- FastStart.ConvertMovableFile: covers files whose boxes all have 32-bit sizes. Boxes with 64-bit sizes are covered step by step (`Scan.SkipLargeBox`, `Scan.LargeSizeDiverges`) but not in a whole-file theorem.
- FastStart.FastStartMovable: requires that the patch throws no runtime exception, for the same reason as `FastStartBytes`.
- Patch.PatchEntriesOutcome: when a 32-bit table runs past the buffer, it states only that the loop fails. The failure is an overflow (`UnsupportedFile`) met before the end or the throwing read, depending on the entries.
- Patch.PatchMoovOutcome: when `Locate` fails, it states only that the patch fails. The outcome is then the first failing table check or the runaway entry loop.
