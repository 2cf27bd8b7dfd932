/** The segmented byte store: a list of fixed-size segments, each a byte buffer of
    `segmentSizeInBytes` bytes mapped at file offset `headerOffset + i * segmentSizeInBytes`,
    presenting one flat logical byte space. The list is grown, cleared, rebuilt and cut
    down in place; the accessors read and write the buffers in place. */
module MMapStorage {
  import opened JavaInt
  import opened Outcomes
  import opened Addressing
  import opened ByteCodec
  import opened SegmentTable

  /** One slot of the segment list: a mapped buffer and the file offset it is mapped
      at, or the empty slot that releasing a mapping leaves behind. */
  datatype Segment = Mapped(fileOffset: nat, buf: array<bv8>) | Released

  predicate AllMapped(segs: seq<Segment>) {
    forall i :: 0 <= i < |segs| ==> segs[i].Mapped?
  }

  /** The sum of the segments' buffer capacities. */
  function TotalSize(segs: seq<Segment>): (n: nat)
    requires AllMapped(segs)
    ensures forall i :: 0 <= i < |segs| ==> segs[i].buf.Length <= n
  {
    if segs == [] then 0 else TotalSize(segs[..|segs| - 1]) + segs[|segs| - 1].buf.Length
  }

  /** When every segment holds `s` bytes, the capacity is the segment count times `s`. */
  lemma {:induction false} TotalSizeUniform(segs: seq<Segment>, s: nat)
    requires AllMapped(segs)
    requires forall i :: 0 <= i < |segs| ==> segs[i].buf.Length == s
    ensures TotalSize(segs) == |segs| * s
  {
    if segs != [] {
      TotalSizeUniform(segs[..|segs| - 1], s);
      MulSucc(|segs| - 1, s);
    }
  }

  /** Copying `a` to the front of `v0` and then `b` right after it leaves `a + b` in
      front and the rest of `v0` behind. */
  lemma CopyTwice(v0: seq<bv8>, v1: seq<bv8>, v2: seq<bv8>, a: seq<bv8>, b: seq<bv8>)
    requires |a| + |b| <= |v0|
    requires v1 == v0[..0] + a + v0[|a|..]
    requires v2 == v1[..|a|] + b + v1[|a| + |b|..]
    ensures v2[..|a| + |b|] == a + b && v2[|a| + |b|..] == v0[|a| + |b|..]
  {
  }

  /** `ByteBuffer.put(byte[], int, int)` and `ByteBuffer.get(byte[], int, int)`: copies
      `len` bytes from `src` at `from` into `dst` at `at`. */
  method CopyBytes(src: array<bv8>, from: nat, dst: array<bv8>, at: nat, len: nat)
    requires from + len <= src.Length && at + len <= dst.Length && src != dst
    modifies dst
    ensures dst[..] == old(dst[..at]) + src[from .. from + len] + old(dst[at + len..])
  {
    forall k | 0 <= k < len {
      dst[at + k] := src[from + k];
    }
    assert dst[..] == old(dst[..at]) + src[from .. from + len] + old(dst[at + len..]);
  }

  /** `ByteBuffer.putInt(int, int)` and `putShort(int, short)` once the value is laid out:
      stores the bytes `b` at `at`. */
  method PutAt(dst: array<bv8>, at: nat, b: seq<bv8>)
    requires at + |b| <= dst.Length
    modifies dst
    ensures dst[..] == old(dst[..at]) + b + old(dst[at + |b|..])
  {
    forall k | 0 <= k < |b| {
      dst[at + k] := b[k];
    }
    assert dst[..] == old(dst[..at]) + b + old(dst[at + |b|..]);
  }

  /** A fresh segment buffer of `byteCount` bytes. In the source this maps the file
      region; what the region holds is not part of this model. */
  method NewByteBuffer(byteCount: nat) returns (buf: array<bv8>)
    ensures fresh(buf) && buf.Length == byteCount
  {
    buf := new bv8[byteCount];
  }

  class MMapDataAccess {
    const segmentSizePower: nat
    const segmentSizeInBytes: nat
    const indexDivisor: nat
    const headerOffset: nat
    const byteOrder: ByteOrder
    const allowWrites: bool

    var segments: seq<Segment>
    var cleanAndRemap: bool
    var closed: bool

    /** The bytes of the segments, segment by segment. */
    ghost var Contents: Table
    /** Every segment buffer. */
    ghost var Repr: set<array<bv8>>

    /** The store's invariant: the segment size is a power of two and the mask is one
        less; every slot is mapped, holds exactly one segment's bytes at its own file
        offset, and no two slots share a buffer; the list length is a Java int. The
        ghost table holds one segment's bytes per slot. */
    ghost predicate Valid()
      reads this, Repr
    {
      segmentSizeInBytes == Pow2(segmentSizePower) &&
      indexDivisor == segmentSizeInBytes - 1 &&
      |segments| <= Int32Max &&
      |Contents| == |segments| && Uniform(Contents, segmentSizeInBytes) &&
      (forall i :: 0 <= i < |segments| ==>
         segments[i].Mapped? && segments[i].buf in Repr &&
         segments[i].buf.Length == segmentSizeInBytes &&
         segments[i].fileOffset == headerOffset + i * segmentSizeInBytes &&
         Contents[i] == segments[i].buf[..]) &&
      (forall i, j :: 0 <= i < j < |segments| ==> segments[i].buf != segments[j].buf)
    }

    /** The flat logical byte space. */
    ghost function Logical(): (f: seq<bv8>)
      requires Valid()
      reads this, Repr
      ensures Uniform(Contents, segmentSizeInBytes)
      ensures |f| == |segments| * segmentSizeInBytes
    {
      FlattenLength(Contents, segmentSizeInBytes);
      Flatten(Contents)
    }

    constructor (segmentSizePower: nat, headerOffset: nat, byteOrder: ByteOrder, allowWrites: bool)
      ensures Valid() && segments == [] && Contents == [] && Repr == {}
      ensures !cleanAndRemap && !closed
      ensures this.segmentSizePower == segmentSizePower
      ensures segmentSizeInBytes == Pow2(segmentSizePower)
      ensures this.headerOffset == headerOffset
      ensures this.byteOrder == byteOrder && this.allowWrites == allowWrites
    {
      this.segmentSizePower := segmentSizePower;
      this.segmentSizeInBytes := Pow2(segmentSizePower);
      this.indexDivisor := Pow2(segmentSizePower) - 1;
      this.headerOffset := headerOffset;
      this.byteOrder := byteOrder;
      this.allowWrites := allowWrites;
      segments := [];
      cleanAndRemap := false;
      closed := false;
      Contents := [];
      Repr := {};
    }

    /** Chooses the growth strategy: rebuild every segment, or append new ones. */
    method CleanAndRemap(flag: bool)
      requires Valid()
      modifies this
      ensures Valid() && cleanAndRemap == flag
      ensures segments == old(segments) && Contents == old(Contents) && closed == old(closed) && Repr == old(Repr)
    {
      cleanAndRemap := flag;
    }

    /** The capacity: the sum of the segments' sizes, which is the segment count times
        the segment size. */
    method GetCapacity() returns (cap: nat)
      requires Valid()
      ensures cap == TotalSize(segments)
      ensures cap == |segments| * segmentSizeInBytes
    {
      assert AllMapped(segments);
      cap := 0;
      for i := 0 to |segments|
        invariant cap == TotalSize(segments[..i])
      {
        assert segments[..i + 1][..i] == segments[..i];
        cap := cap + segments[i].buf.Length;
      }
      assert segments[..|segments|] == segments;
      TotalSizeUniform(segments, segmentSizeInBytes);
    }

    /** The number of segments, whose product with the segment size is the capacity. */
    method GetSegments() returns (n: nat)
      requires Valid()
      ensures n == |segments| && n * segmentSizeInBytes == TotalSize(segments)
    {
      assert AllMapped(segments);
      TotalSizeUniform(segments, segmentSizeInBytes);
      n := |segments|;
    }

    /** Releases the mappings of slots `[from, to)`, leaving those slots empty. An empty
        range (`from >= to`) releases nothing. */
    method Clean(from: nat, to: nat)
      requires to <= |segments|
      modifies this
      ensures |segments| == old(|segments|)
      ensures forall i :: 0 <= i < |segments| ==>
                segments[i] == if from <= i < to then Released else old(segments[i])
      ensures cleanAndRemap == old(cleanAndRemap) && closed == old(closed)
      ensures Contents == old(Contents) && Repr == old(Repr)
    {
      var i := from;
      while i < to
        invariant i == from || from <= i <= to
        invariant |segments| == old(|segments|)
        invariant forall k :: 0 <= k < |segments| ==>
                    segments[k] == if from <= k < i then Released else old(segments[k])
        invariant cleanAndRemap == old(cleanAndRemap) && closed == old(closed)
        invariant Contents == old(Contents) && Repr == old(Repr)
      {
        segments := segments[i := Released];
        i := i + 1;
      }
    }

    /** `clean(0, segments.size())` followed by `segments.clear()`: releases every
        segment and empties the list. */
    method ReleaseAll()
      requires Valid()
      modifies this
      ensures Valid() && segments == [] && Contents == [] && Repr == {}
      ensures cleanAndRemap == old(cleanAndRemap) && closed == old(closed)
    {
      Clean(0, |segments|);
      segments := [];
      Contents := [];
      Repr := {};
    }

    /** Grows the store to hold `byteCount` bytes. A negative count is refused; a count
        the store already holds changes nothing and reports false; otherwise the segment
        count becomes ceil(byteCount / S) (refused when that is not a Java int), either
        by appending the missing segments after the existing ones, which keep their
        bytes, or, in clean-remap mode, by releasing every segment and mapping them all
        anew from the header offset. */
    method MapIt(byteCount: int) returns (r: Result<bool>)
      requires Valid()
      modifies this
      ensures Valid()
      ensures fresh(Repr - old(Repr))
      ensures cleanAndRemap == old(cleanAndRemap) && closed == old(closed)
      ensures byteCount < 0 ==> r == Err(NegativeCapacity)
      ensures 0 <= byteCount <= old(|segments|) * segmentSizeInBytes ==> r == Ok(false)
      ensures 0 <= byteCount && old(|segments|) * segmentSizeInBytes < byteCount ==>
                r == match SegmentsToMap(byteCount, segmentSizeInBytes)
                     case Ok(_) => Ok(true)
                     case Err(e) => Err(e)
      ensures r != Ok(true) ==> segments == old(segments) && Contents == old(Contents) && Repr == old(Repr)
      ensures r == Ok(true) ==>
                0 <= byteCount && SegmentsToMap(byteCount, segmentSizeInBytes).Ok? &&
                |segments| == SegmentsToMap(byteCount, segmentSizeInBytes).value &&
                |segments| * segmentSizeInBytes >= byteCount
      ensures r == Ok(true) && !cleanAndRemap ==>
                old(|segments|) < |segments| && segments[..old(|segments|)] == old(segments) &&
                Contents[..old(|segments|)] == old(Contents) &&
                forall i :: old(|segments|) <= i < |segments| ==> fresh(segments[i].buf)
      ensures r == Ok(true) && cleanAndRemap ==>
                forall i :: 0 <= i < |segments| ==> fresh(segments[i].buf)
    {
      if byteCount < 0 {
        return Err(NegativeCapacity);
      }
      var capacity := GetCapacity();
      if byteCount <= capacity {
        return Ok(false);
      }
      var toMap := SegmentsToMap(byteCount, segmentSizeInBytes);
      if toMap.Err? {
        return Err(toMap.error);
      }
      MapSegments(toMap.value);
      return Ok(true);
    }

    /** The mapping part of `mapIt` once the count `segmentsToMap` is known to exceed
        the current one: in clean-remap mode every segment is released and all are
        mapped anew from the header offset; otherwise the missing segments are mapped
        after the existing ones, from the file offset the last one ends at. */
    method MapSegments(segmentsToMap: nat)
      requires Valid() && segmentsToMap <= Int32Max
      requires |segments| * segmentSizeInBytes < segmentsToMap * segmentSizeInBytes
      modifies this
      ensures Valid()
      ensures fresh(Repr - old(Repr))
      ensures cleanAndRemap == old(cleanAndRemap) && closed == old(closed)
      ensures |segments| == segmentsToMap
      ensures !cleanAndRemap ==>
                old(|segments|) < |segments| && segments[..old(|segments|)] == old(segments) &&
                Contents[..old(|segments|)] == old(Contents) &&
                forall i :: old(|segments|) <= i < |segments| ==> fresh(segments[i].buf)
      ensures cleanAndRemap ==> forall i :: 0 <= i < |segments| ==> fresh(segments[i].buf)
    {
      var bufferStart := headerOffset;
      var newSegments: int;
      if cleanAndRemap {
        newSegments := segmentsToMap;
        ReleaseAll();
      } else {
        ProductBelow(|segments|, segmentsToMap, segmentSizeInBytes);
        bufferStart := bufferStart + |segments| * segmentSizeInBytes;
        newSegments := segmentsToMap - |segments|;
      }
      AddSegments(bufferStart, newSegments);
    }

    /** The loop of `mapIt`: maps `newSegments` fresh segments one after the other,
        the first at `bufferStart`, the file offset right after the last segment. */
    method AddSegments(bufferStart: nat, newSegments: nat)
      requires Valid() && |segments| + newSegments <= Int32Max
      requires bufferStart == headerOffset + |segments| * segmentSizeInBytes
      modifies this
      ensures Valid()
      ensures fresh(Repr - old(Repr))
      ensures cleanAndRemap == old(cleanAndRemap) && closed == old(closed)
      ensures |segments| == old(|segments|) + newSegments
      ensures segments[..old(|segments|)] == old(segments) && Contents[..old(|segments|)] == old(Contents)
      ensures forall k :: old(|segments|) <= k < |segments| ==> fresh(segments[k].buf)
    {
      ghost var base := |segments|;
      var start := bufferStart;
      var i := 0;
      while i < newSegments
        invariant 0 <= i <= newSegments && |segments| == base + i
        invariant start == headerOffset + |segments| * segmentSizeInBytes
        invariant Valid() && fresh(Repr - old(Repr))
        invariant cleanAndRemap == old(cleanAndRemap) && closed == old(closed)
        invariant segments[..base] == old(segments) && Contents[..base] == old(Contents)
        invariant forall k :: base <= k < |segments| ==> fresh(segments[k].buf)
      {
        AddSegment(start);
        MulSucc(|segments| - 1, segmentSizeInBytes);
        start := start + segmentSizeInBytes;
        i := i + 1;
      }
    }

    /** `segments.add(newByteBuffer(bufferStart, segmentSize))`: appends a fresh segment
        mapped at `bufferStart`, the file offset right after the last segment. */
    method AddSegment(bufferStart: nat)
      requires Valid() && |segments| < Int32Max
      requires bufferStart == headerOffset + |segments| * segmentSizeInBytes
      modifies this
      ensures Valid()
      ensures fresh(Repr - old(Repr))
      ensures |segments| == old(|segments|) + 1 && segments[..old(|segments|)] == old(segments)
      ensures Contents[..old(|segments|)] == old(Contents)
      ensures segments[old(|segments|)].fileOffset == bufferStart && fresh(segments[old(|segments|)].buf)
      ensures cleanAndRemap == old(cleanAndRemap) && closed == old(closed)
    {
      var buf := NewByteBuffer(segmentSizeInBytes);
      segments := segments + [Mapped(bufferStart, buf)];
      Contents := Contents + [buf[..]];
      Repr := Repr + {buf};
    }

    /** `ensureCapacity(bytes)`: the growth path from the header offset. */
    method EnsureCapacity(bytes: int) returns (r: Result<bool>)
      requires Valid()
      modifies this
      ensures Valid()
      ensures fresh(Repr - old(Repr))
      ensures cleanAndRemap == old(cleanAndRemap) && closed == old(closed)
      ensures bytes < 0 ==> r == Err(NegativeCapacity)
      ensures 0 <= bytes <= old(|segments|) * segmentSizeInBytes ==> r == Ok(false)
      ensures 0 <= bytes && old(|segments|) * segmentSizeInBytes < bytes ==>
                r == match SegmentsToMap(bytes, segmentSizeInBytes)
                     case Ok(_) => Ok(true)
                     case Err(e) => Err(e)
      ensures r != Ok(true) ==> segments == old(segments) && Contents == old(Contents) && Repr == old(Repr)
      ensures r == Ok(true) ==>
                0 <= bytes && SegmentsToMap(bytes, segmentSizeInBytes).Ok? &&
                |segments| == SegmentsToMap(bytes, segmentSizeInBytes).value &&
                |segments| * segmentSizeInBytes >= bytes
      ensures r == Ok(true) && !cleanAndRemap ==>
                old(|segments|) < |segments| && segments[..old(|segments|)] == old(segments) &&
                Contents[..old(|segments|)] == old(Contents) &&
                forall i :: old(|segments|) <= i < |segments| ==> fresh(segments[i].buf)
      ensures r == Ok(true) && cleanAndRemap ==>
                forall i :: 0 <= i < |segments| ==> fresh(segments[i].buf)
    {
      r := MapIt(bytes);
    }

    /** Growth only goes up: once `ensureCapacity(bytes)` has succeeded, a second call
        for `bytes` or fewer (but not a negative count) grows nothing and reports false:
        the segments and their bytes are those the first call left, and the capacity
        covers `bytes`. */
    method EnsureCapacityTwice(bytes: int, again: int)
        returns (first: Result<bool>, second: Result<bool>, ghost afterFirst: seq<Segment>, ghost contentsAfterFirst: Table)
      requires Valid() && 0 <= again <= bytes
      modifies this
      ensures Valid()
      ensures fresh(Repr - old(Repr))
      ensures first.Ok? ==> second == Ok(false) && |segments| * segmentSizeInBytes >= bytes
      ensures first.Ok? ==> segments == afterFirst && Contents == contentsAfterFirst
    {
      first := EnsureCapacity(bytes);
      afterFirst, contentsAfterFirst := segments, Contents;
      second := EnsureCapacity(again);
    }

    /** `create(bytes)`: refused when segments already exist; otherwise grows the empty
        store to at least 40 bytes. */
    method Create(bytes: int) returns (r: Outcome)
      requires Valid()
      modifies this
      ensures Valid()
      ensures fresh(Repr - old(Repr))
      ensures cleanAndRemap == old(cleanAndRemap) && closed == old(closed)
      ensures old(|segments|) > 0 ==> r == Fail(AlreadyCreated) && segments == old(segments) && Contents == old(Contents)
      ensures old(|segments|) == 0 ==>
                var n := if bytes < 40 then 40 else bytes;
                r == (if CeilDiv(n, segmentSizeInBytes) > Int32Max then Fail(TooManySegments) else Pass) &&
                (r == Pass ==> |segments| == CeilDiv(n, segmentSizeInBytes) &&
                               |segments| * segmentSizeInBytes >= n &&
                               forall i :: 0 <= i < |segments| ==> fresh(segments[i].buf)) &&
                (r != Pass ==> segments == [])
    {
      if |segments| > 0 {
        return Fail(AlreadyCreated);
      }
      var n := if bytes < 40 then 40 else bytes;
      var grown := EnsureCapacity(n);
      if grown.Err? {
        return Fail(grown.error);
      }
      return Pass;
    }

    /** The guards of `loadExisting`, with the file system as parameters: whether the
        file exists, its length, and the byte count its header records. Refused on a
        store that has segments or is closed; false for an absent or empty file or a
        negative header count; otherwise the header count minus the header offset is
        mapped through the growth path and the answer is true. */
    method LoadExisting(fileExists: bool, fileLength: nat, headerByteCount: int) returns (r: Result<bool>)
      requires Valid()
      modifies this
      ensures Valid()
      ensures fresh(Repr - old(Repr))
      ensures cleanAndRemap == old(cleanAndRemap) && closed == old(closed)
      ensures old(|segments|) > 0 ==>
                r == Err(AlreadyInitialized) && segments == old(segments) && Contents == old(Contents)
      ensures old(|segments|) == 0 && old(closed) ==> r == Err(AlreadyClosed) && segments == []
      ensures old(|segments|) == 0 && !old(closed) && (!fileExists || fileLength == 0 || headerByteCount < 0) ==>
                r == Ok(false) && segments == []
      ensures old(|segments|) == 0 && !old(closed) && fileExists && fileLength > 0 && headerByteCount >= 0 ==>
                var n := headerByteCount - headerOffset;
                (n < 0 ==> r == Err(NegativeCapacity) && segments == []) &&
                (n == 0 ==> r == Ok(true) && segments == []) &&
                (n > 0 ==> r == (if CeilDiv(n, segmentSizeInBytes) > Int32Max then Err(TooManySegments) else Ok(true))) &&
                (n > 0 && r == Ok(true) ==> |segments| == CeilDiv(n, segmentSizeInBytes) &&
                                            |segments| * segmentSizeInBytes >= n) &&
                (r.Err? ==> segments == [])
    {
      if |segments| > 0 {
        return Err(AlreadyInitialized);
      }
      if closed {
        return Err(AlreadyClosed);
      }
      if !fileExists || fileLength == 0 {
        return Ok(false);
      }
      if headerByteCount < 0 {
        return Ok(false);
      }
      var mapped := MapIt(headerByteCount - headerOffset);
      if mapped.Err? {
        return Err(mapped.error);
      }
      return Ok(true);
    }

    /** `trimTo(capacity)`: keeps the first ceil(max(capacity, S) / S) segments, with
        their bytes, and releases the rest. A count beyond the table is refused, as
        `subList` refuses it, and then nothing changes. */
    method TrimTo(capacity: int) returns (r: Outcome)
      requires Valid()
      modifies this
      ensures Valid()
      ensures cleanAndRemap == old(cleanAndRemap) && closed == old(closed) && Repr == old(Repr)
      ensures var n := SegmentsToKeep(capacity, segmentSizeInBytes);
              (n > old(|segments|) ==> r == Fail(IndexOutOfBounds) && segments == old(segments) && Contents == old(Contents)) &&
              (n <= old(|segments|) ==>
                 r == Pass && segments == old(segments)[..n] && Contents == old(Contents)[..n] &&
                 Logical() <= old(Logical()))
    {
      var remainingSegNo := SegmentsToKeep(capacity, segmentSizeInBytes);
      ghost var oldSegments := segments;
      Clean(remainingSegNo, |segments|);
      if remainingSegNo > |segments| {
        assert segments == oldSegments;
        return Fail(IndexOutOfBounds);
      }
      FlattenPrefix(Contents, segmentSizeInBytes, remainingSegNo);
      segments := segments[..remainingSegNo];
      assert segments == oldSegments[..remainingSegNo];
      Contents := Contents[..remainingSegNo];
      return Pass;
    }

    /** `close()`: releases every segment, empties the list and marks the store closed. */
    method Close()
      requires Valid()
      modifies this
      ensures Valid() && segments == [] && Contents == [] && Repr == {} && closed
      ensures cleanAndRemap == old(cleanAndRemap)
    {
      closed := true;
      ReleaseAll();
    }

    /** The relative `put` into segment `i` once its position is set to `off`: the bytes
        `b` replace the segment's bytes from `off` on, and every other segment keeps its
        bytes. */
    method PutInSegment(i: nat, off: nat, b: seq<bv8>)
      requires Valid() && i < |segments| && off + |b| <= segmentSizeInBytes
      modifies this, Repr
      ensures Valid()
      ensures segments == old(segments) && Repr == old(Repr)
      ensures cleanAndRemap == old(cleanAndRemap) && closed == old(closed)
      ensures Contents == Put(old(Contents), i, off, b)
    {
      var bb := segments[i].buf;
      PutAt(bb, off, b);
      Contents := Put(Contents, i, off, b);
      forall k | 0 <= k < |segments| ensures Contents[k] == segments[k].buf[..] {
        if k != i {
          assert segments[k].buf != bb;
        }
      }
    }

    /** The address translation every accessor starts with: the segment number
        `bytePos >>> segmentSizePower` and the offset `bytePos & indexDivisor`, which is
        below the segment size. The segment number is kept whole rather than cast to
        `int` (see `SegmentIndexAsWritten`), so a position past every segment the list
        can hold is out of range instead of landing in a low segment. */
    method Locate(bytePos: nat) returns (bufferIndex: nat, index: nat)
      requires Valid()
      ensures bufferIndex == bytePos / segmentSizeInBytes && index == bytePos % segmentSizeInBytes
      ensures bufferIndex == SegmentIndex(bytePos, segmentSizePower)
      ensures index == SegmentOffset(bytePos, indexDivisor, segmentSizePower)
      ensures index < segmentSizeInBytes
      ensures bufferIndex > Int32Max ==> bufferIndex >= |segments|
    {
      bufferIndex := SegmentIndex(bytePos, segmentSizePower);
      index := SegmentOffset(bytePos, indexDivisor, segmentSizePower);
    }

    /** The branch of `setBytes` for an access of `length` bytes at offset `index` of
        segment `i` that runs past the segment's end: the prefix goes to segment `i`,
        then the suffix to the start of segment `i + 1`, which must exist. */
    method PutAcross(i: nat, index: nat, values: array<bv8>, length: nat) returns (r: Outcome)
      requires Valid() && i < |segments| && index < segmentSizeInBytes
      requires segmentSizeInBytes < index + length && length <= segmentSizeInBytes
      requires length <= values.Length && values !in Repr
      modifies this, Repr
      ensures Valid()
      ensures segments == old(segments) && Repr == old(Repr)
      ensures cleanAndRemap == old(cleanAndRemap) && closed == old(closed)
      ensures r == if i + 1 < |segments| then Pass else Fail(IndexOutOfBounds)
      ensures r == Pass ==>
                var v := values[..length];
                Contents == Put(Put(old(Contents), i, index, v[..segmentSizeInBytes - index]),
                                i + 1, 0, v[segmentSizeInBytes - index..])
      ensures r.Fail? ==> Contents == Put(old(Contents), i, index, values[..segmentSizeInBytes - index])
    {
      ghost var v := values[..length];
      var delta := index + length - segmentSizeInBytes;
      var head := length - delta;
      assert v[..head] == values[..head];
      PutInSegment(i, index, values[..head]);
      if i + 1 >= |segments| {
        return Fail(IndexOutOfBounds);
      }
      assert v[head..] == values[head..length];
      PutInSegment(i + 1, 0, values[head..length]);
      return Pass;
    }

    /** `setBytes`: writes `values[..length]` at logical position `bytePos`; an access that
        runs past its segment's end puts its last `delta` bytes at the start of the next
        segment. A missing first segment, or a read-only mapping, refuses the write and
        changes nothing; a missing next segment is found after the prefix is written. */
    method SetBytes(bytePos: nat, values: array<bv8>, length: nat) returns (r: Outcome)
      requires Valid()
      requires length <= segmentSizeInBytes && length <= values.Length
      requires values !in Repr
      modifies this, Repr
      ensures Valid()
      ensures segments == old(segments) && Repr == old(Repr)
      ensures cleanAndRemap == old(cleanAndRemap) && closed == old(closed)
      ensures var i, off := SegmentIndex(bytePos, segmentSizePower), SegmentOffset(bytePos, indexDivisor, segmentSizePower);
              r == (if i >= |segments| then Fail(IndexOutOfBounds)
                    else if !allowWrites then Fail(ReadOnlyBuffer)
                    else if off + length > segmentSizeInBytes && i + 1 >= |segments| then Fail(IndexOutOfBounds)
                    else Pass)
      ensures var i, off := SegmentIndex(bytePos, segmentSizePower), SegmentOffset(bytePos, indexDivisor, segmentSizePower);
              r == Pass ==>
                Reachable(old(Contents), segmentSizeInBytes, i, off, length) &&
                Contents == WriteSplit(old(Contents), segmentSizeInBytes, i, off, values[..length])
      ensures var i, off := SegmentIndex(bytePos, segmentSizePower), SegmentOffset(bytePos, indexDivisor, segmentSizePower);
              r.Fail? && (i >= |segments| || !allowWrites) ==> Contents == old(Contents)
      ensures var i, off := SegmentIndex(bytePos, segmentSizePower), SegmentOffset(bytePos, indexDivisor, segmentSizePower);
              r.Fail? && i < |segments| && allowWrites ==>
                off + length > segmentSizeInBytes &&
                Contents == Put(old(Contents), i, off, values[..segmentSizeInBytes - off])
    {
      var bufferIndex, index := Locate(bytePos);
      if bufferIndex >= |segments| {
        return Fail(IndexOutOfBounds);
      }
      if !allowWrites {
        return Fail(ReadOnlyBuffer);
      }
      var delta := index + length - segmentSizeInBytes;
      if delta > 0 {
        r := PutAcross(bufferIndex, index, values, length);
      } else {
        PutInSegment(bufferIndex, index, values[..length]);
        r := Pass;
      }
    }

    /** The relative `get` from segment `i` once its position is set to `off`: `len`
        bytes of the segment land in `values` at `at`. */
    method GetFromSegment(i: nat, off: nat, values: array<bv8>, at: nat, len: nat)
      requires Valid() && i < |segments| && off + len <= segmentSizeInBytes
      requires at + len <= values.Length && values !in Repr
      modifies values
      ensures values[..] == old(values[..at]) + Contents[i][off .. off + len] + old(values[at + len..])
    {
      CopyBytes(segments[i].buf, off, values, at, len);
    }

    /** The branch of `getBytes` for an access of `length` bytes at offset `index` of
        segment `i` that runs past the segment's end: the prefix comes from segment
        `i`, then the suffix from the start of segment `i + 1`, which must exist. */
    method GetAcross(i: nat, index: nat, values: array<bv8>, length: nat) returns (r: Outcome)
      requires Valid() && i < |segments| && index < segmentSizeInBytes
      requires segmentSizeInBytes < index + length && length <= segmentSizeInBytes
      requires length <= values.Length && values !in Repr
      modifies values
      ensures r == if i + 1 < |segments| then Pass else Fail(IndexOutOfBounds)
      ensures values[..segmentSizeInBytes - index] == Contents[i][index .. segmentSizeInBytes]
      ensures r == Pass ==>
                values[..length] == Contents[i][index .. segmentSizeInBytes] + Contents[i + 1][0 .. index + length - segmentSizeInBytes] &&
                values[length..] == old(values[length..])
      ensures r.Fail? ==> values[segmentSizeInBytes - index..] == old(values[segmentSizeInBytes - index..])
    {
      ghost var v0 := values[..];
      var delta := index + length - segmentSizeInBytes;
      var head := length - delta;
      GetFromSegment(i, index, values, 0, head);
      ghost var v1 := values[..];
      if i + 1 >= |segments| {
        return Fail(IndexOutOfBounds);
      }
      GetFromSegment(i + 1, 0, values, head, delta);
      CopyTwice(v0, v1, values[..], Contents[i][index .. index + head], Contents[i + 1][0 .. delta]);
      return Pass;
    }

    /** `getBytes`: reads `length` bytes at logical position `bytePos` into
        `values[..length]`, the last `delta` of them from the start of the next segment
        when the access runs past its segment's end. A missing next segment is found
        after the prefix is read. */
    method GetBytes(bytePos: nat, values: array<bv8>, length: nat) returns (r: Outcome)
      requires Valid()
      requires length <= segmentSizeInBytes && length <= values.Length
      requires values !in Repr
      modifies values
      ensures Valid()
      ensures var i, off := SegmentIndex(bytePos, segmentSizePower), SegmentOffset(bytePos, indexDivisor, segmentSizePower);
              r == (if i >= |segments| then Fail(IndexOutOfBounds)
                    else if off + length > segmentSizeInBytes && i + 1 >= |segments| then Fail(IndexOutOfBounds)
                    else Pass)
      ensures var i, off := SegmentIndex(bytePos, segmentSizePower), SegmentOffset(bytePos, indexDivisor, segmentSizePower);
              r == Pass ==>
                Reachable(Contents, segmentSizeInBytes, i, off, length) &&
                values[..length] == ReadSplit(Contents, segmentSizeInBytes, i, off, length) &&
                values[length..] == old(values[length..])
      ensures var i, off := SegmentIndex(bytePos, segmentSizePower), SegmentOffset(bytePos, indexDivisor, segmentSizePower);
              r.Fail? && i >= |segments| ==> values[..] == old(values[..])
      ensures var i, off := SegmentIndex(bytePos, segmentSizePower), SegmentOffset(bytePos, indexDivisor, segmentSizePower);
              r.Fail? && i < |segments| ==>
                values[..segmentSizeInBytes - off] == Contents[i][off .. segmentSizeInBytes] &&
                values[segmentSizeInBytes - off..] == old(values[segmentSizeInBytes - off..])
    {
      var bufferIndex, index := Locate(bytePos);
      if bufferIndex >= |segments| {
        return Fail(IndexOutOfBounds);
      }
      var delta := index + length - segmentSizeInBytes;
      if delta > 0 {
        r := GetAcross(bufferIndex, index, values, length);
      } else {
        ghost var v0 := values[..];
        GetFromSegment(bufferIndex, index, values, 0, length);
        CopyTwice(v0, values[..], values[..], Contents[bufferIndex][index .. index + length], []);
        r := Pass;
      }
    }

    /** `setInt`: lays `value` out in the store's byte order in the four bytes at
        `bytePos`, which must lie in one segment: a value that would cross the segment's
        end is refused by the buffer, as is any write to a read-only mapping. */
    method SetInt(bytePos: nat, value: bv32) returns (r: Outcome)
      requires Valid()
      modifies this, Repr
      ensures Valid()
      ensures segments == old(segments) && Repr == old(Repr)
      ensures cleanAndRemap == old(cleanAndRemap) && closed == old(closed)
      ensures var i, off := SegmentIndex(bytePos, segmentSizePower), SegmentOffset(bytePos, indexDivisor, segmentSizePower);
              r == (if i >= |segments| then Fail(IndexOutOfBounds)
                    else if !allowWrites then Fail(ReadOnlyBuffer)
                    else if off + 4 > segmentSizeInBytes then Fail(IndexOutOfBounds)
                    else Pass)
      ensures r.Fail? ==> Contents == old(Contents)
      ensures var i, off := SegmentIndex(bytePos, segmentSizePower), SegmentOffset(bytePos, indexDivisor, segmentSizePower);
              r == Pass ==>
                i < |segments| && off + 4 <= segmentSizeInBytes &&
                Contents == Put(old(Contents), i, off, EncodeInt(value, byteOrder))
    {
      var bufferIndex, index := Locate(bytePos);
      if bufferIndex >= |segments| {
        return Fail(IndexOutOfBounds);
      }
      if !allowWrites {
        return Fail(ReadOnlyBuffer);
      }
      if index + 4 > segmentSizeInBytes {
        return Fail(IndexOutOfBounds);
      }
      PutInSegment(bufferIndex, index, EncodeInt(value, byteOrder));
      return Pass;
    }

    /** `getInt`: the int laid out in the four bytes at `bytePos`, which must lie in one
        segment. */
    method GetInt(bytePos: nat) returns (r: Result<bv32>)
      requires Valid()
      ensures var i, off := SegmentIndex(bytePos, segmentSizePower), SegmentOffset(bytePos, indexDivisor, segmentSizePower);
              r == (if i >= |segments| || off + 4 > segmentSizeInBytes then Err(IndexOutOfBounds)
                    else Ok(DecodeInt(Contents[i][off .. off + 4], byteOrder)))
    {
      var bufferIndex, index := Locate(bytePos);
      if bufferIndex >= |segments| {
        return Err(IndexOutOfBounds);
      }
      var bb := segments[bufferIndex].buf;
      if index + 4 > segmentSizeInBytes {
        return Err(IndexOutOfBounds);
      }
      return Ok(DecodeInt(bb[index .. index + 4], byteOrder));
    }

    /** `setShort`: lays `value` out in the two bytes at `bytePos`, which must lie in one
        segment. */
    method SetShort(bytePos: nat, value: bv16) returns (r: Outcome)
      requires Valid()
      modifies this, Repr
      ensures Valid()
      ensures segments == old(segments) && Repr == old(Repr)
      ensures cleanAndRemap == old(cleanAndRemap) && closed == old(closed)
      ensures var i, off := SegmentIndex(bytePos, segmentSizePower), SegmentOffset(bytePos, indexDivisor, segmentSizePower);
              r == (if i >= |segments| then Fail(IndexOutOfBounds)
                    else if !allowWrites then Fail(ReadOnlyBuffer)
                    else if off + 2 > segmentSizeInBytes then Fail(IndexOutOfBounds)
                    else Pass)
      ensures r.Fail? ==> Contents == old(Contents)
      ensures var i, off := SegmentIndex(bytePos, segmentSizePower), SegmentOffset(bytePos, indexDivisor, segmentSizePower);
              r == Pass ==>
                i < |segments| && off + 2 <= segmentSizeInBytes &&
                Contents == Put(old(Contents), i, off, EncodeShort(value, byteOrder))
    {
      var bufferIndex, index := Locate(bytePos);
      if bufferIndex >= |segments| {
        return Fail(IndexOutOfBounds);
      }
      if !allowWrites {
        return Fail(ReadOnlyBuffer);
      }
      if index + 2 > segmentSizeInBytes {
        return Fail(IndexOutOfBounds);
      }
      PutInSegment(bufferIndex, index, EncodeShort(value, byteOrder));
      return Pass;
    }

    /** `getShort`: the short laid out in the two bytes at `bytePos`, which must lie in
        one segment. */
    method GetShort(bytePos: nat) returns (r: Result<bv16>)
      requires Valid()
      ensures var i, off := SegmentIndex(bytePos, segmentSizePower), SegmentOffset(bytePos, indexDivisor, segmentSizePower);
              r == (if i >= |segments| || off + 2 > segmentSizeInBytes then Err(IndexOutOfBounds)
                    else Ok(DecodeShort(Contents[i][off .. off + 2], byteOrder)))
    {
      var bufferIndex, index := Locate(bytePos);
      if bufferIndex >= |segments| {
        return Err(IndexOutOfBounds);
      }
      var bb := segments[bufferIndex].buf;
      if index + 2 > segmentSizeInBytes {
        return Err(IndexOutOfBounds);
      }
      return Ok(DecodeShort(bb[index .. index + 2], byteOrder));
    }
  }
}
