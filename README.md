# Segmented memory-mapped byte store

A Dafny model of `MMapDataAccess`, the memory-mapped storage of GraphHopper's
`core/src/main/java/com/graphhopper/storage/MMapDataAccess.java`. The store presents one
flat logical byte space. Behind it is an ordered list of segments, each a byte buffer of
`S = 2^segmentSizePower` bytes mapped at file offset `HEADER_OFFSET + i * S`.

The model covers:

- address translation `(bytePos >> segmentSizePower, bytePos & indexDivisor)`;
- the growth path `ensureCapacity`/`mapIt`, in both strategies:
  - incremental: the missing segments are appended after the existing ones;
  - clean remap: every segment is released and all are mapped anew;
- `create`, `trimTo`, `clean` and `close`, and the guards of `loadExisting`;
- the split `setBytes`/`getBytes`, which divide an access that runs past a segment's end
  between that segment and the next;
- the fixed-width accessors `setInt`/`getInt` and `setShort`/`getShort`;
- `getCapacity` and `getSegments`.

Files:

- `outcomes.dfy`: the exceptions the store throws, as values: `Result` and `Outcome`.
- `java_int.dfy`: Java's `int` and the narrowing cast `(int)`.
- `addressing.dfy`: `>>` and `&` on non-negative longs, proved to be `/` and `%` by the
  segment size. Also the segment counts of `mapIt` and `trimTo`, both exact and as the
  source computes them.
- `byte_codec.dfy`: the byte layout `ByteBuffer.putInt`/`putShort` give a value in either
  byte order, and its inverse.
- `segment_table.dfy`: the segment table as a value, one byte sequence per segment. It
  defines the flat logical space `Flatten`, and the split write and read as value
  functions. Lemmas prove that a split write replaces exactly the addressed logical bytes,
  and that a split read returns exactly them, whether or not the access crosses a
  boundary.
- `mmap_data_access.dfy`: the class `MMapDataAccess`.
  - Its `segments` list is grown, released, cut down and written in place.
  - Each segment is an `array<bv8>`.
  - A ghost table `Contents` mirrors the buffers' bytes, and `Logical()` is its flat
    view.
  - Each accessor's contract ties the new `Contents` to the value functions of
    `segment_table.dfy`, whose lemmas then give the meaning in the flat space.

The segment size, its power, `indexDivisor` and `HEADER_OFFSET` come from the superclass
`AbstractDataAccess`, which is not part of this model. They are constructor parameters
here. The invariant `Valid()` also records `S == 2^segmentSizePower` and
`indexDivisor == S - 1`.

Exceptions are error values:

- a segment index or offset out of range gives `IndexOutOfBounds` (what `List.get`,
  `subList` and `ByteBuffer` throw);
- a write to a read-only mapping gives `ReadOnlyBuffer`;
- the guards of `mapIt`, `create` and `loadExisting` give their own constructors.

`loadExisting` maps the header's byte count minus `HEADER_OFFSET` (MMapDataAccess.java
line 217).

## Model

| member | source | states |
|---|---|---|
| JavaInt.ToInt32 | core/src/main/java/com/graphhopper/storage/MMapDataAccess.java:105-106 | the `(int)` cast yields a Java int congruent to its argument modulo 2^32, and leaves every value that is already an int unchanged |
| Addressing.ShiftRightIsDivision | core/src/main/java/com/graphhopper/storage/MMapDataAccess.java:266 | `x >> k` on a non-negative long is `x / 2^k` |
| Addressing.MaskIsRemainder | core/src/main/java/com/graphhopper/storage/MMapDataAccess.java:267 | `x & (2^k - 1)` is `x % 2^k` |
| Addressing.SegmentIndex | core/src/main/java/com/graphhopper/storage/MMapDataAccess.java:280 | the segment number `bytePos >>> segmentSizePower` is `bytePos / S` |
| Addressing.SegmentOffset | core/src/main/java/com/graphhopper/storage/MMapDataAccess.java:281 | the offset `bytePos & indexDivisor` is `bytePos % S`, and so always below `S` |
| Addressing.AddressRoundTrip | core/src/main/java/com/graphhopper/storage/MMapDataAccess.java:265-289 | translating `i * S + j` with `j < S` gives back segment `i` and offset `j` |
| Addressing.AddressDecomposes | core/src/main/java/com/graphhopper/storage/MMapDataAccess.java:265-289 | every position is its segment number times `S` plus its offset |
| Addressing.CeilDiv | core/src/main/java/com/graphhopper/storage/MMapDataAccess.java:105-111 | quotient plus one on a remainder: `c * s` covers `n`, `(c - 1) * s` does not, and `c` is zero exactly when `n` is |
| Addressing.CeilDivIsLeast | core/src/main/java/com/graphhopper/storage/MMapDataAccess.java:105-111 | every segment count that covers `n` bytes is at least `CeilDiv(n, s)` |
| Addressing.SegmentsToMap | core/src/main/java/com/graphhopper/storage/MMapDataAccess.java:105-114 | the count is refused as zero exactly when `byteCount == 0`, and as too many exactly when the ceiling exceeds `Int32Max`; otherwise it is the least count that covers `byteCount` |
| Addressing.SegmentsToMapAsWrittenAgrees | core/src/main/java/com/graphhopper/storage/MMapDataAccess.java:105-114 | wherever the exact count fits an int, the source's cast-and-increment computation returns the exact result |
| Addressing.SegmentsToMapAsWritten | core/src/main/java/com/graphhopper/storage/MMapDataAccess.java:105-114 | the count as the source computes it, with the `(int)` cast and the int increment: a success is a nonzero int; a failure is "Too many segments" or "0 segments" |
| Addressing.SegmentsToKeepAsWritten | core/src/main/java/com/graphhopper/storage/MMapDataAccess.java:362-368 | `trimTo`'s count as the source computes it, with the `(int)` cast and the int increment: always an int |
| Addressing.ShiftRight | core/src/main/java/com/graphhopper/storage/MMapDataAccess.java:280 | the shift never grows a non-negative value and strictly shrinks it when it shifts by at least one bit |
| Addressing.BitAnd | core/src/main/java/com/graphhopper/storage/MMapDataAccess.java:267 | the masked value is at most either operand |
| Addressing.SegmentsToMapAsWrittenWraps | core/src/main/java/com/graphhopper/storage/MMapDataAccess.java:105-111 | with `S = 2^20` and `2^52 + 1` bytes, the source maps one segment and succeeds, although that one segment holds fewer than the requested bytes; the exact count is refused |
| Addressing.SegmentsToMapAsWrittenWrapsAtMax | core/src/main/java/com/graphhopper/storage/MMapDataAccess.java:105-114 | with `S = 2^20` and `Int32Max * 2^20 + 1` bytes, the quotient fits but the increment for the remainder wraps the count to `Int32Min`, which passes the "0 segments" guard; the exact count is refused |
| Addressing.SegmentIndexAsWritten | core/src/main/java/com/graphhopper/storage/MMapDataAccess.java:265-329 | the accessors' segment number `(int) (bytePos >> segmentSizePower)` (`>>>` in the short and byte accessors, the same on non-negative positions): always an int, and the exact segment number whenever that fits an int |
| Addressing.SegmentIndexAsWrittenNegative | core/src/main/java/com/graphhopper/storage/MMapDataAccess.java:265-329 | segment number `2^31` casts to `Int32Min`, a negative index that `segments.get` refuses, so there the source fails as the model does |
| Addressing.SegmentIndexAsWrittenWraps | core/src/main/java/com/graphhopper/storage/MMapDataAccess.java:265-329 | the position at offset `j` of segment `2^32 + k` casts to segment `k` at offset `j`, the address of position `k * S + j` |
| Addressing.SegmentsToKeep | core/src/main/java/com/graphhopper/storage/MMapDataAccess.java:363-369 | `trimTo` keeps at least one segment: the least count that covers `max(capacity, S)` |
| Addressing.SegmentsToKeepAsWrittenAgrees | core/src/main/java/com/graphhopper/storage/MMapDataAccess.java:363-369 | wherever the exact count fits an int, the source's computation returns it |
| Addressing.SegmentsToKeepAsWrittenWraps | core/src/main/java/com/graphhopper/storage/MMapDataAccess.java:366-373 | `trimTo(2^52 + 2^20)` with `S = 2^20` computes one segment, where the exact count is `2^32 + 1` |
| ByteCodec.InOrderTwice | core/src/main/java/com/graphhopper/storage/MMapDataAccess.java:265-290 | laying bytes out in the buffer's order twice gives them back: either order is its own inverse, which is what lets `getInt` undo `setInt` |
| ByteCodec.DecodeInt | core/src/main/java/com/graphhopper/storage/MMapDataAccess.java:272-276 | with big-endian order the int is the four bytes read most significant first; with little-endian order it is the same read of the reversed bytes |
| ByteCodec.DecodeShort | core/src/main/java/com/graphhopper/storage/MMapDataAccess.java:286-290 | the two-byte version of `DecodeInt` |
| ByteCodec.EncodeInt | core/src/main/java/com/graphhopper/storage/MMapDataAccess.java:265-269 | `putInt` lays out four bytes that `getInt`'s decoding reads back as the value |
| ByteCodec.EncodeShort | core/src/main/java/com/graphhopper/storage/MMapDataAccess.java:279-283 | `putShort` lays out two bytes that `getShort`'s decoding reads back as the value |
| ByteCodec.EncodeDecodeInt | core/src/main/java/com/graphhopper/storage/MMapDataAccess.java:271-276 | every four bytes are the layout of the int they decode to, so the int codec is a bijection |
| ByteCodec.EncodeDecodeShort | core/src/main/java/com/graphhopper/storage/MMapDataAccess.java:285-290 | every two bytes are the layout of the short they decode to |
| SegmentTable.FlattenLength | core/src/main/java/com/graphhopper/storage/MMapDataAccess.java:332-338 | the logical space of `n` segments of `S` bytes holds `n * S` bytes |
| SegmentTable.FlattenAround | core/src/main/java/com/graphhopper/storage/MMapDataAccess.java:295-298 | the logical space is the segments before `i` (`i * S` bytes), then segment `i`, then the rest |
| SegmentTable.FlattenSegment | core/src/main/java/com/graphhopper/storage/MMapDataAccess.java:295-298 | segment `i` is exactly the logical bytes `[i * S, i * S + S)` |
| SegmentTable.SegmentSliceFlat | core/src/main/java/com/graphhopper/storage/MMapDataAccess.java:315-318 | bytes `[a, b)` of segment `i` are the logical bytes `[i * S + a, i * S + b)` |
| SegmentTable.FlattenPrefix | core/src/main/java/com/graphhopper/storage/MMapDataAccess.java:371-373 | keeping the first `n` segments keeps exactly the first `n * S` logical bytes |
| SegmentTable.Put | core/src/main/java/com/graphhopper/storage/MMapDataAccess.java:298-308 | a relative `put` at `off` into segment `i` replaces that segment's bytes `[off, off + |b|)` by `b` and leaves every other byte of every segment unchanged |
| SegmentTable.PutFlat | core/src/main/java/com/graphhopper/storage/MMapDataAccess.java:307-308 | in the flat view, a write into one segment replaces the logical bytes `[i * S + off, i * S + off + |b|)` by `b` and no other byte |
| SegmentTable.ReachableIffInRange | core/src/main/java/com/graphhopper/storage/MMapDataAccess.java:297-304 | both segments a split access touches exist exactly when the access starts and ends inside the logical space |
| SegmentTable.ReadSplit | core/src/main/java/com/graphhopper/storage/MMapDataAccess.java:313-329 | a split read returns exactly `length` bytes: the prefix of `S - index` bytes plus the suffix of `delta` bytes |
| SegmentTable.CrossingWriteFlat | core/src/main/java/com/graphhopper/storage/MMapDataAccess.java:300-306 | the two `put`s of a boundary-crossing write together replace the logical bytes `[bytePos, bytePos + length)` by the values |
| SegmentTable.WriteSplit | core/src/main/java/com/graphhopper/storage/MMapDataAccess.java:300-309 | `setBytes` on the table: the prefix that fits goes to segment `i` at `off`, the rest to the start of segment `i + 1`; the table keeps its segment count and every segment keeps `S` bytes |
| SegmentTable.WriteSplitFlat | core/src/main/java/com/graphhopper/storage/MMapDataAccess.java:293-310 | `setBytes` replaces exactly the logical bytes `[bytePos, bytePos + length)` by the values, whether or not it crosses a boundary; every other byte of every segment is unchanged |
| SegmentTable.CrossingReadFlat | core/src/main/java/com/graphhopper/storage/MMapDataAccess.java:319-325 | the two `get`s of a boundary-crossing read return the logical bytes `[bytePos, bytePos + length)` |
| SegmentTable.ReadSplitFlat | core/src/main/java/com/graphhopper/storage/MMapDataAccess.java:313-329 | `getBytes` returns exactly the logical bytes `[bytePos, bytePos + length)` |
| SegmentTable.WriteThenRead | core/src/main/java/com/graphhopper/storage/MMapDataAccess.java:293-329 | `getBytes` after `setBytes` at the same position and length returns the written bytes, across a boundary too |
| SegmentTable.WriteSplitOfReadIsIdentity | core/src/main/java/com/graphhopper/storage/MMapDataAccess.java:293-329 | writing back the bytes just read changes no segment |
| SegmentTable.IntRoundTrip | core/src/main/java/com/graphhopper/storage/MMapDataAccess.java:265-276 | `getInt` after `setInt` at a position whose four bytes lie in one segment returns the value |
| SegmentTable.ShortRoundTrip | core/src/main/java/com/graphhopper/storage/MMapDataAccess.java:279-290 | `getShort` after `setShort` in one segment returns the value |
| MMapStorage.TotalSize | core/src/main/java/com/graphhopper/storage/MMapDataAccess.java:332-338 | the sum of the capacities is at least the capacity of each segment |
| MMapStorage.TotalSizeUniform | core/src/main/java/com/graphhopper/storage/MMapDataAccess.java:332-338 | when every segment holds `S` bytes, the sum of the capacities is the segment count times `S` |
| MMapStorage.CopyBytes | core/src/main/java/com/graphhopper/storage/MMapDataAccess.java:303-308 | `ByteBuffer.put`/`get` of `len` bytes: the target holds the copied bytes at `at` and is otherwise unchanged |
| MMapStorage.PutAt | core/src/main/java/com/graphhopper/storage/MMapDataAccess.java:268 | the buffer holds the laid-out bytes at `at` and is otherwise unchanged |
| MMapStorage.NewByteBuffer | core/src/main/java/com/graphhopper/storage/MMapDataAccess.java:151-155 | a newly mapped segment is a fresh buffer of the requested size |
| MMapStorage.MMapDataAccess.constructor | core/src/main/java/com/graphhopper/storage/MMapDataAccess.java:45-51 | a new store has no segments, is open, and is in incremental mode |
| MMapStorage.MMapDataAccess.CleanAndRemap | core/src/main/java/com/graphhopper/storage/MMapDataAccess.java:53-56 | sets the growth strategy and changes nothing else |
| MMapStorage.MMapDataAccess.Logical | core/src/main/java/com/graphhopper/storage/MMapDataAccess.java:332-338 | the flat logical space holds `getSegments() * S` bytes |
| MMapStorage.MMapDataAccess.GetCapacity | core/src/main/java/com/graphhopper/storage/MMapDataAccess.java:331-338 | the loop sums the segments' capacities, and the sum is `getSegments() * S` |
| MMapStorage.MMapDataAccess.GetSegments | core/src/main/java/com/graphhopper/storage/MMapDataAccess.java:340-343 | the segment count, whose product with `S` is the sum of the segments' capacities |
| MMapStorage.MMapDataAccess.Clean | core/src/main/java/com/graphhopper/storage/MMapDataAccess.java:353-359 | slots `[from, to)` become empty and every other slot is unchanged (nothing changes when `from >= to`) |
| MMapStorage.MMapDataAccess.ReleaseAll | core/src/main/java/com/graphhopper/storage/MMapDataAccess.java:123-126 | `clean(0, size)` then `clear()`: no segments remain |
| MMapStorage.MMapDataAccess.MapIt | core/src/main/java/com/graphhopper/storage/MMapDataAccess.java:98-141 | rejects negative counts; returns false and changes nothing when the capacity already suffices; otherwise returns true with exactly `ceil(byteCount / S)` segments and capacity `>= byteCount`, or the refusal of `SegmentsToMap` with nothing changed; incremental mode keeps the old segments and their bytes; every buffer added is newly allocated, so no array the caller already holds becomes a segment |
| MMapStorage.MMapDataAccess.MapSegments | core/src/main/java/com/graphhopper/storage/MMapDataAccess.java:116-140 | ends with exactly `segmentsToMap` segments: in clean-remap mode all are fresh; otherwise the old ones are kept with their bytes and only the missing ones are appended fresh; every buffer added is newly allocated |
| MMapStorage.MMapDataAccess.AddSegments | core/src/main/java/com/graphhopper/storage/MMapDataAccess.java:137-140 | appends `newSegments` fresh segments, each at the file offset where the previous one ends, keeping the old ones and their bytes; every buffer added is newly allocated |
| MMapStorage.MMapDataAccess.AddSegment | core/src/main/java/com/graphhopper/storage/MMapDataAccess.java:138 | appends one segment mapped at `bufferStart = HEADER_OFFSET + size * S`, whose buffer is newly allocated |
| MMapStorage.MMapDataAccess.EnsureCapacity | core/src/main/java/com/graphhopper/storage/MMapDataAccess.java:93-96 | the growth path from the header offset, with `mapIt`'s contract; every buffer it adds is newly allocated |
| MMapStorage.MMapDataAccess.EnsureCapacityTwice | core/src/main/java/com/graphhopper/storage/MMapDataAccess.java:98-103 | after a successful growth to `bytes`, a second growth to at most `bytes` returns false and leaves the segments and their bytes as the first growth left them, and the capacity covers `bytes`; every buffer added is newly allocated |
| MMapStorage.MMapDataAccess.Create | core/src/main/java/com/graphhopper/storage/MMapDataAccess.java:72-81 | refused when segments exist; otherwise grows the empty store to `ceil(max(40, bytes) / S)` segments, or refuses a count that is not an int; every buffer added is newly allocated |
| MMapStorage.MMapDataAccess.LoadExisting | core/src/main/java/com/graphhopper/storage/MMapDataAccess.java:200-222 | refused when segments exist or the store is closed; false for an absent or empty file or a negative header count; otherwise maps the header count minus the header offset and returns true (or the growth path's refusal); every buffer added is newly allocated |
| MMapStorage.MMapDataAccess.TrimTo | core/src/main/java/com/graphhopper/storage/MMapDataAccess.java:362-373 | keeps exactly the first `ceil(max(capacity, S) / S)` segments with their bytes, so the logical space becomes a prefix of the old one; a count beyond the table is refused and nothing changes |
| MMapStorage.MMapDataAccess.Close | core/src/main/java/com/graphhopper/storage/MMapDataAccess.java:247-258 | every segment is released, the list is empty and the store is closed |
| MMapStorage.MMapDataAccess.PutInSegment | core/src/main/java/com/graphhopper/storage/MMapDataAccess.java:298-308 | the bytes go to segment `i` at `off`, as `Put` states, and no other segment changes |
| MMapStorage.MMapDataAccess.Locate | core/src/main/java/com/graphhopper/storage/MMapDataAccess.java:295-296 | the segment number `bytePos / S` and the offset `bytePos % S < S`, with the segment number kept whole (the corrected half of the accessors' cast in "## Findings"): a segment number beyond an int is beyond the table |
| MMapStorage.MMapDataAccess.PutAcross | core/src/main/java/com/graphhopper/storage/MMapDataAccess.java:300-306 | the prefix of `S - index` bytes goes to segment `i`; then the suffix goes to the start of segment `i + 1` if it exists, and otherwise the write is refused after the prefix |
| MMapStorage.MMapDataAccess.SetBytes | core/src/main/java/com/graphhopper/storage/MMapDataAccess.java:293-310 | success exactly when the touched segments exist and the mapping is writable, and then the table becomes `WriteSplit` of the old one; a missing first segment or a read-only mapping changes nothing; a missing next segment leaves only the prefix written |
| MMapStorage.MMapDataAccess.GetFromSegment | core/src/main/java/com/graphhopper/storage/MMapDataAccess.java:322 | `len` bytes of segment `i` from `off` land in `values` at `at`, and the rest of `values` is unchanged |
| MMapStorage.MMapDataAccess.GetAcross | core/src/main/java/com/graphhopper/storage/MMapDataAccess.java:319-325 | the prefix comes from segment `i`; then the suffix from segment `i + 1` if it exists, and otherwise the read is refused after the prefix |
| MMapStorage.MMapDataAccess.GetBytes | core/src/main/java/com/graphhopper/storage/MMapDataAccess.java:313-329 | success exactly when the touched segments exist, and then `values[..length]` is `ReadSplit` of the table and the rest of `values` is unchanged; the failure cases say which bytes were copied |
| MMapStorage.MMapDataAccess.SetInt | core/src/main/java/com/graphhopper/storage/MMapDataAccess.java:265-269 | refused for a missing segment, a read-only mapping or four bytes that cross the segment's end, and then nothing changes; otherwise segment `i` holds `EncodeInt(value)` at the offset |
| MMapStorage.MMapDataAccess.GetInt | core/src/main/java/com/graphhopper/storage/MMapDataAccess.java:272-276 | refused for a missing segment or four bytes past the segment's end; otherwise the int decoded from the four bytes at the offset |
| MMapStorage.MMapDataAccess.SetShort | core/src/main/java/com/graphhopper/storage/MMapDataAccess.java:279-283 | as `setInt`, with two bytes and `EncodeShort` |
| MMapStorage.MMapDataAccess.GetShort | core/src/main/java/com/graphhopper/storage/MMapDataAccess.java:286-290 | as `getInt`, with the short decoded from two bytes |

## Left out

- File I/O is not modelled, because it needs the file system:
  - `RandomAccessFile`, `FileChannel.map`, `MappedByteBuffer.force` and `getFD().sync()`;
  - `flush`, and `rename`;
  - `raFile.setLength` in `trimTo`, which also depends on the platform;
  - the header read and write, which live in the superclass.

  `LoadExisting` takes the facts it needs from the file as parameters: whether the file
  exists, its length and the header's byte count.
- The bytes of a newly mapped segment are those of the file region. The model leaves them
  unconstrained.
- `newByteBuffer`'s retry loop, `Helper.cleanHack`, `Helper.cleanMappedByteBuffer` and the
  `IOException` wrapping are not modelled. They are runtime resource management with no
  behaviour that can be stated.
- MMapStorage.MMapDataAccess.MapIt: the model has no `offset` parameter, because every
  caller passes `HEADER_OFFSET`. It has no `clearNew` parameter either: `mapIt` never
  reads it (lines 98-149). The zero-fill block in `newByteBuffer` is guarded by a local
  `boolean tmp = false` (lines 185-186) and never runs.
- MMapStorage.MMapDataAccess.MapIt: the segment count is the corrected
  `Addressing.SegmentsToMap` of "## Findings", not the source's wrapping computation, which
  is `Addressing.SegmentsToMapAsWritten`. The same holds for EnsureCapacity, Create and
  MapSegments. When `ceil(byteCount / S)` does not fit an int the model refuses. For a
  quotient of `2^32` or more the source may instead map too few segments and report success.
  For a quotient of exactly `Int32Max` with a remainder, the source's increment wraps the
  count to `Int32Min`; in clean-remap mode it then releases every segment, maps none and
  reports success on an empty store, and in incremental mode its loop bound wraps as well.
  The model refuses that count with `TooManySegments`.
- MMapStorage.MMapDataAccess.TrimTo: the number of segments kept is the corrected
  `Addressing.SegmentsToKeep` of "## Findings", not the source's wrapping computation,
  which is `Addressing.SegmentsToKeepAsWritten`.
- MMapStorage.MMapDataAccess.Create: after `close()` the source fails when it maps the
  file, because the channel is closed (a `ClosedChannelException` wrapped in a
  `RuntimeException`, lines 142-147). This is file I/O, so the model does not look at the
  closed flag in `create` and grows the store as on an open file.
- MMapStorage.MMapDataAccess.EnsureCapacity: after `close()` the source fails on the closed
  channel when it maps a new segment (lines 142-147), and before `create` or
  `loadExisting` it dereferences the still-null `raFile` in `newByteBuffer`, a
  `NullPointerException` that is not caught. This is file I/O, so the model grows the
  store in both cases. The same holds for MapIt.
- MMapStorage.MMapDataAccess.MapIt: the failures on a closed or never-opened file described
  for EnsureCapacity are not modelled; the store grows as on an open file.
- `releaseSegment` is not modelled. It leaves a `null` slot that `getCapacity` would
  dereference, an inconsistent state outside `Valid()`.
- `copyTo` and `getType` are not modelled. `copyTo` delegates to the superclass, and
  `getType` returns a constant.
- MMapStorage.MMapDataAccess.Close: `super.close()` is modelled only as setting the
  closed flag, because the superclass is not part of this model.
- MMapStorage.MMapDataAccess.SetBytes: positions are natural numbers, so a negative `long` position is not modelled. The segment number is not cast to an int: a position whose segment number exceeds an int is refused as out of range. The source's cast keeps the low 32 bits of the segment number: when those name a segment of the table, the access reaches that segment instead ("## Findings"); otherwise `segments.get` throws `IndexOutOfBoundsException` too, as for a negative cast such as segment `2^31`.
- MMapStorage.MMapDataAccess.GetBytes: positions are natural numbers, so a negative `long` position is not modelled. The segment number is not cast to an int: a position whose segment number exceeds an int is refused as out of range. The source's cast keeps the low 32 bits of the segment number: when those name a segment of the table, the access reaches that segment instead ("## Findings"); otherwise `segments.get` throws `IndexOutOfBoundsException` too, as for a negative cast such as segment `2^31`.
- MMapStorage.MMapDataAccess.SetInt: positions are natural numbers, so a negative `long` position is not modelled. The segment number is not cast to an int: a position whose segment number exceeds an int is refused as out of range. The source's cast keeps the low 32 bits of the segment number: when those name a segment of the table, the access reaches that segment instead ("## Findings"); otherwise `segments.get` throws `IndexOutOfBoundsException` too, as for a negative cast such as segment `2^31`.
- MMapStorage.MMapDataAccess.GetInt: positions are natural numbers, so a negative `long` position is not modelled. The segment number is not cast to an int: a position whose segment number exceeds an int is refused as out of range. The source's cast keeps the low 32 bits of the segment number: when those name a segment of the table, the access reaches that segment instead ("## Findings"); otherwise `segments.get` throws `IndexOutOfBoundsException` too, as for a negative cast such as segment `2^31`.
- MMapStorage.MMapDataAccess.SetShort: positions are natural numbers, so a negative `long` position is not modelled. The segment number is not cast to an int: a position whose segment number exceeds an int is refused as out of range. The source's cast keeps the low 32 bits of the segment number: when those name a segment of the table, the access reaches that segment instead ("## Findings"); otherwise `segments.get` throws `IndexOutOfBoundsException` too, as for a negative cast such as segment `2^31`.
- MMapStorage.MMapDataAccess.GetShort: positions are natural numbers, so a negative `long` position is not modelled. The segment number is not cast to an int: a position whose segment number exceeds an int is refused as out of range. The source's cast keeps the low 32 bits of the segment number: when those name a segment of the table, the access reaches that segment instead ("## Findings"); otherwise `segments.get` throws `IndexOutOfBoundsException` too, as for a negative cast such as segment `2^31`.
- MMapStorage.MMapDataAccess.GetBytes: `values` must hold at least `length` bytes and must not be a segment buffer. The JDK's exception for a short array is not modelled. `length` is a natural number, so a negative `int length`, for which `bb.put`/`bb.get` throw `IndexOutOfBoundsException`, is not modelled either. The same holds for SetBytes. `length <= S` is the source's own assertion.
- MMapStorage.MMapDataAccess.SetBytes: the promise that only the logical bytes `[bytePos, bytePos + length)` change is not in the method's ensures. The method's ensures tie the new table to `WriteSplit`, and the flat-space statement is the lemma `SegmentTable.WriteSplitFlat`.
- `ByteBuffer.putInt`/`putShort` are modelled by their byte layout in `ByteCodec`, not as library calls.
- The class is `@NotThreadSafe`, and the model has no concurrency.
- The segment size is not bounded to a Java int. With that bound, the store's `long`
  arithmetic (capacity sums and file offsets) cannot overflow, so it is modelled with
  unbounded integers.

## Findings

| source | as written | input that shows it | evidently intended | confidence | as-written member | corrected member |
|---|---|---|---|---|---|---|
| core/src/main/java/com/graphhopper/storage/MMapDataAccess.java:105-111 | `(int) (byteCount / longSegmentSize)` is cast before the "Too many segments" test, and the increment is an `int` addition, so a quotient of 2^32 or more wraps | `S = 2^20`, `byteCount = 2^52 + 1`: the quotient 2^32 casts to 0, the increment makes 1, and one segment is mapped with success | refuse every count that does not fit an int, i.e. map exactly `ceil(byteCount / S)` segments or throw | not executed | Addressing.SegmentsToMapAsWrittenWraps | Addressing.SegmentsToMap |
| core/src/main/java/com/graphhopper/storage/MMapDataAccess.java:366-373 | `(int) (capacity / segmentSizeInBytes)` wraps, so `trimTo` can keep fewer segments than the capacity asks for | `S = 2^20`, `capacity = 2^52 + 2^20` on a store of two segments: the count `2^32 + 1` casts to 1, and the second segment is dropped | keep `ceil(max(capacity, S) / S)` segments (here: refuse, as `subList` would for an exact count beyond the table) | not executed | Addressing.SegmentsToKeepAsWrittenWraps | Addressing.SegmentsToKeep |
| core/src/main/java/com/graphhopper/storage/MMapDataAccess.java:105-114 | the increment `segmentsToMap++` for the remainder is an `int` addition, so a quotient of exactly `Int32Max` wraps to `Int32Min`, which the `== 0` guard lets through | `S = 2^20`, `byteCount = Int32Max * 2^20 + 1`: the count becomes `-2^31`; in clean-remap mode every segment is released, none is mapped, and the call returns true | refuse the count ("Too many segments"), as for every count that does not fit an int | not executed | Addressing.SegmentsToMapAsWrittenWrapsAtMax | Addressing.SegmentsToMap |
| core/src/main/java/com/graphhopper/storage/MMapDataAccess.java:265-329 | every accessor casts the segment number `bytePos >> segmentSizePower` (`>>>` in `setShort`, `getShort`, `setBytes` and `getBytes`) to `int`, so a segment number of `2^31` or more wraps: to a negative index, which `segments.get` refuses, or, from `2^32` on, possibly to a segment of the table | `bytePos = (2^32 + k) * S + j` with `k` a segment of the table: the cast gives segment `k`, and the access reads or writes the bytes of position `k * S + j` instead of failing | a position beyond the table is out of range (`IndexOutOfBoundsException`) | not executed | Addressing.SegmentIndexAsWrittenWraps | MMapStorage.MMapDataAccess.Locate |
