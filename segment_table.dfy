/** The segment table as a value: one byte sequence of length `S` per segment, in
    address order. `Flatten` is the flat logical byte space the store presents; the
    split write and read below follow the source's `setBytes`/`getBytes`, and the
    lemmas say what they mean in the flat space. */
module SegmentTable {
  import opened Addressing
  import opened ByteCodec

  type Table = seq<seq<bv8>>

  /** Every segment holds exactly `s` bytes. */
  predicate Uniform(t: Table, s: nat) {
    forall i :: 0 <= i < |t| ==> |t[i]| == s
  }

  /** The logical byte space: the segments' bytes one after the other. */
  function Flatten(t: Table): seq<bv8> {
    if t == [] then [] else t[0] + Flatten(t[1..])
  }

  // ---- arithmetic helpers ----

  lemma MulLeq(a: int, b: int, s: int)
    requires a <= b && s >= 0
    ensures a * s <= b * s
  {
    MulMonotone(b - a, s);
    assert (b - a) * s == b * s - a * s;
  }

  lemma MulSucc(a: int, s: int)
    ensures (a + 1) * s == a * s + s
  {
  }

  // ---- the flat view ----

  /** The logical space holds `|t| * s` bytes. */
  lemma {:induction false} FlattenLength(t: Table, s: nat)
    requires Uniform(t, s)
    ensures |Flatten(t)| == |t| * s
  {
    if t != [] {
      FlattenLength(t[1..], s);
      MulSucc(|t| - 1, s);
    }
  }

  /** The logical space is the segments before `i`, then segment `i`, then the
      segments after it; the segments before `i` hold `i * s` bytes. */
  lemma {:induction false} FlattenAround(t: Table, s: nat, i: nat)
    requires Uniform(t, s) && i < |t|
    ensures Flatten(t) == Flatten(t[..i]) + t[i] + Flatten(t[i + 1..])
    ensures |Flatten(t[..i])| == i * s
  {
    FlattenLength(t[..i], s);
    if i > 0 {
      FlattenAround(t[1..], s, i - 1);
      assert t[..i][1..] == t[1..][..i - 1];
      assert t[1..][i - 1 + 1..] == t[i + 1..];
      assert Flatten(t[..i]) == t[0] + Flatten(t[1..][..i - 1]);
    }
  }

  /** Segment `i` occupies the logical bytes `[i * s, i * s + s)`. */
  lemma FlattenSegment(t: Table, s: nat, i: nat)
    requires Uniform(t, s) && i < |t|
    ensures i * s + s <= |Flatten(t)|
    ensures Flatten(t)[i * s .. i * s + s] == t[i]
  {
    FlattenAround(t, s, i);
  }

  /** Bytes `[a, b)` of segment `i` are the logical bytes `[i * s + a, i * s + b)`. */
  lemma SegmentSliceFlat(t: Table, s: nat, i: nat, a: nat, b: nat)
    requires Uniform(t, s) && i < |t| && a <= b <= s
    ensures i * s + b <= |Flatten(t)|
    ensures t[i][a..b] == Flatten(t)[i * s + a .. i * s + b]
  {
    FlattenSegment(t, s, i);
    var f := Flatten(t);
    assert t[i][a..b] == f[i * s .. i * s + s][a..b];
  }

  /** The first `n` segments hold the first `n * s` logical bytes: cutting the table
      down to a prefix keeps the contents of the segments that remain. */
  lemma {:induction false} FlattenPrefix(t: Table, s: nat, n: nat)
    requires Uniform(t, s) && n <= |t|
    ensures n * s <= |Flatten(t)|
    ensures Flatten(t[..n]) == Flatten(t)[..n * s]
  {
    FlattenLength(t, s);
    MulLeq(n, |t|, s);
    if n > 0 {
      FlattenPrefix(t[1..], s, n - 1);
      MulSucc(n - 1, s);
      assert t[..n][1..] == t[1..][..n - 1];
      assert Flatten(t[..n]) == t[0] + Flatten(t[1..][..n - 1]);
    }
  }

  // ---- writing into one segment ----

  /** Segment `i` with bytes `[off, off + |b|)` replaced by `b`; every other byte of
      every segment stays. */
  function Put(t: Table, i: nat, off: nat, b: seq<bv8>): (r: Table)
    requires i < |t| && off + |b| <= |t[i]|
    ensures |r| == |t| && |r[i]| == |t[i]|
    ensures r[i][..off] == t[i][..off] && r[i][off..off + |b|] == b
    ensures r[i][off + |b|..] == t[i][off + |b|..]
    ensures forall k :: 0 <= k < |t| && k != i ==> r[k] == t[k]
  {
    t[i := t[i][..off] + b + t[i][off + |b|..]]
  }

  /** `Put` keeps every segment at `s` bytes. */
  lemma PutUniform(t: Table, s: nat, i: nat, off: nat, b: seq<bv8>)
    requires Uniform(t, s) && i < |t| && off + |b| <= s
    ensures Uniform(Put(t, i, off, b), s)
  {
    var r := Put(t, i, off, b);
    forall k | 0 <= k < |r| ensures |r[k]| == s {
      if k != i {
        assert r[k] == t[k];
      }
    }
  }

  /** Replacing the middle part `y` of `a + y + c` by `y` with `[off, off + |b|)`
      replaced by `b` is splicing `b` in at `p == |a| + off`. */
  lemma SpliceMiddle(a: seq<bv8>, y: seq<bv8>, c: seq<bv8>, off: nat, b: seq<bv8>, p: nat)
    requires off + |b| <= |y| && p == |a| + off
    ensures p + |b| <= |a + y + c|
    ensures a + (y[..off] + b + y[off + |b|..]) + c ==
            (a + y + c)[..p] + b + (a + y + c)[p + |b|..]
  {
    var f := a + y + c;
    assert f[..p] == a + y[..off];
    assert f[p + |b|..] == y[off + |b|..] + c;
  }

  /** In the flat view, `Put` replaces the logical bytes `[i * s + off, i * s + off + |b|)`
      by `b` and leaves every other logical byte as it was. */
  lemma PutFlat(t: Table, s: nat, i: nat, off: nat, b: seq<bv8>)
    requires Uniform(t, s) && i < |t| && off + |b| <= s
    ensures Uniform(Put(t, i, off, b), s)
    ensures i * s + off + |b| <= |Flatten(t)|
    ensures Flatten(Put(t, i, off, b)) ==
            Flatten(t)[..i * s + off] + b + Flatten(t)[i * s + off + |b|..]
  {
    var r := Put(t, i, off, b);
    PutUniform(t, s, i, off, b);
    var mid := t[i][..off] + b + t[i][off + |b|..];
    assert r[..i] == t[..i];
    assert r[i + 1..] == t[i + 1..];
    assert r[i] == mid;
    var a, c := Flatten(t[..i]), Flatten(t[i + 1..]);
    FlattenAround(t, s, i);
    FlattenAround(r, s, i);
    calc {
      Flatten(r);
      Flatten(r[..i]) + r[i] + Flatten(r[i + 1..]);
      a + mid + c;
    }
    SpliceMiddle(a, t[i], c, off, b, i * s + off);
  }

  // ---- split accesses ----

  /** The segments an access of `len` bytes at offset `off` of segment `i` touches
      are all in the table: segment `i`, and segment `i + 1` too when the access runs
      past the end of segment `i`. */
  predicate Reachable(t: Table, s: nat, i: nat, off: nat, len: nat) {
    i < |t| && (off + len > s ==> i + 1 < |t|)
  }

  /** An access touches only segments of the table exactly when it starts inside the
      logical space and ends inside it. */
  lemma ReachableIffInRange(t: Table, s: nat, i: nat, off: nat, len: nat)
    requires off < s && len <= s
    ensures Reachable(t, s, i, off, len) <==> i * s + off < |t| * s && i * s + off + len <= |t| * s
  {
    MulSucc(i, s);
    MulSucc(i + 1, s);
    if i < |t| {
      MulLeq(i + 1, |t|, s);
      if i + 1 < |t| {
        MulLeq(i + 2, |t|, s);
      }
    }
    if i * s + off < |t| * s {
      ProductBelow(i, |t|, s);
      if off + len > s && i * s + off + len <= |t| * s {
        ProductBelow(i + 1, |t|, s);
      }
    }
  }

  /** `setBytes` at offset `off` of segment `i`: the bytes go there; when they run
      `delta` bytes past the segment's end, the first `s - off` go there and the last
      `delta` to the start of the next segment. */
  function WriteSplit(t: Table, s: nat, i: nat, off: nat, v: seq<bv8>): (r: Table)
    requires Uniform(t, s) && off < s && |v| <= s && Reachable(t, s, i, off, |v|)
    ensures |r| == |t| && Uniform(r, s)
  {
    var delta := off + |v| - s;
    if delta > 0 then
      PutUniform(t, s, i, off, v[..s - off]);
      PutUniform(Put(t, i, off, v[..s - off]), s, i + 1, 0, v[s - off..]);
      Put(Put(t, i, off, v[..s - off]), i + 1, 0, v[s - off..])
    else
      PutUniform(t, s, i, off, v);
      Put(t, i, off, v)
  }

  /** `getBytes` at offset `off` of segment `i`: the bytes from there; when they run
      `delta` bytes past the segment's end, the rest from the start of the next one. */
  function ReadSplit(t: Table, s: nat, i: nat, off: nat, len: nat): (r: seq<bv8>)
    requires Uniform(t, s) && off < s && len <= s && Reachable(t, s, i, off, len)
    ensures |r| == len
  {
    var delta := off + len - s;
    if delta > 0 then
      t[i][off .. s] + t[i + 1][0 .. delta]
    else
      t[i][off .. off + len]
  }

  /** Splicing `v[..h]` in at `p` and then `v[h..]` right after it splices in `v`. */
  lemma SpliceInTwoParts(f: seq<bv8>, p: nat, h: nat, v: seq<bv8>)
    requires h <= |v| && p + |v| <= |f|
    ensures var f1 := f[..p] + v[..h] + f[p + h..];
            f1[..p + h] + v[h..] + f1[p + |v|..] == f[..p] + v + f[p + |v|..]
  {
    var f1 := f[..p] + v[..h] + f[p + h..];
    assert f1[..p + h] == f[..p] + v[..h];
    assert f1[p + |v|..] == f[p + |v|..];
    assert v[..h] + v[h..] == v;
  }

  /** A write that crosses the end of segment `i`: its two `Put`s together replace
      the logical bytes `[i * s + off, i * s + off + |v|)` by `v`. */
  lemma CrossingWriteFlat(t: Table, s: nat, i: nat, off: nat, v: seq<bv8>)
    requires Uniform(t, s) && i + 1 < |t| && off < s && s < off + |v| && |v| <= s
    ensures i * s + off + |v| <= |Flatten(t)|
    ensures Uniform(Put(Put(t, i, off, v[..s - off]), i + 1, 0, v[s - off..]), s)
    ensures Flatten(Put(Put(t, i, off, v[..s - off]), i + 1, 0, v[s - off..])) ==
            Flatten(t)[..i * s + off] + v + Flatten(t)[i * s + off + |v|..]
  {
    var head := s - off;
    var p := i * s + off;
    var t1 := Put(t, i, off, v[..head]);
    var f := Flatten(t);
    PutFlat(t, s, i, off, v[..head]);
    var f1 := Flatten(t1);
    assert f1 == f[..p] + v[..head] + f[p + head..];
    MulSucc(i, s);
    assert (i + 1) * s + 0 == p + head;
    PutFlat(t1, s, i + 1, 0, v[head..]);
    assert Flatten(Put(t1, i + 1, 0, v[head..])) == f1[..p + head] + v[head..] + f1[p + |v|..];
    SpliceInTwoParts(f, p, head, v);
  }

  /** A split write replaces exactly the logical bytes `[i * s + off, i * s + off + |v|)`
      by `v`, whether or not it crosses a segment boundary, and no other byte of any
      segment. */
  lemma WriteSplitFlat(t: Table, s: nat, i: nat, off: nat, v: seq<bv8>)
    requires Uniform(t, s) && off < s && |v| <= s && Reachable(t, s, i, off, |v|)
    ensures Uniform(WriteSplit(t, s, i, off, v), s) && |WriteSplit(t, s, i, off, v)| == |t|
    ensures i * s + off + |v| <= |Flatten(t)|
    ensures Flatten(WriteSplit(t, s, i, off, v)) ==
            Flatten(t)[..i * s + off] + v + Flatten(t)[i * s + off + |v|..]
  {
    if off + |v| > s {
      CrossingWriteFlat(t, s, i, off, v);
    } else {
      PutFlat(t, s, i, off, v);
    }
  }

  /** The bytes of `y` from `off` on and then the first bytes of `z` are the bytes of
      `a + y + z + c` from `p == |a| + off` on. */
  lemma SliceAcross(a: seq<bv8>, y: seq<bv8>, z: seq<bv8>, c: seq<bv8>, off: nat, len: nat, p: nat)
    requires off < |y| < off + len <= |y| + |z| && p == |a| + off
    ensures p + len <= |a + y + z + c|
    ensures y[off .. |y|] + z[0 .. off + len - |y|] == (a + y + z + c)[p .. p + len]
  {
    var f := a + y + z + c;
    assert f[p .. p + |y| - off] == y[off .. |y|];
    assert f[p + |y| - off .. p + len] == z[0 .. off + len - |y|];
    assert f[p .. p + len] == f[p .. p + |y| - off] + f[p + |y| - off .. p + len];
  }

  /** A read that crosses the end of segment `i` returns the logical bytes
      `[i * s + off, i * s + off + len)`. */
  lemma CrossingReadFlat(t: Table, s: nat, i: nat, off: nat, len: nat)
    requires Uniform(t, s) && i + 1 < |t| && off < s && s < off + len && len <= s
    ensures i * s + off + len <= |Flatten(t)|
    ensures t[i][off .. s] + t[i + 1][0 .. off + len - s] == Flatten(t)[i * s + off .. i * s + off + len]
  {
    FlattenAround(t, s, i);
    var a, c := Flatten(t[..i]), Flatten(t[i + 2..]);
    assert t[i + 1..][1..] == t[i + 2..];
    assert Flatten(t[i + 1..]) == t[i + 1] + c;
    assert Flatten(t) == a + t[i] + t[i + 1] + c;
    SliceAcross(a, t[i], t[i + 1], c, off, len, i * s + off);
  }

  /** A split read returns exactly the logical bytes `[i * s + off, i * s + off + len)`. */
  lemma ReadSplitFlat(t: Table, s: nat, i: nat, off: nat, len: nat)
    requires Uniform(t, s) && off < s && len <= s && Reachable(t, s, i, off, len)
    ensures i * s + off + len <= |Flatten(t)|
    ensures ReadSplit(t, s, i, off, len) == Flatten(t)[i * s + off .. i * s + off + len]
  {
    if off + len > s {
      CrossingReadFlat(t, s, i, off, len);
    } else {
      SegmentSliceFlat(t, s, i, off, off + len);
    }
  }

  /** Reading back what was just written, at the same place and length, returns the
      written bytes; this holds across a segment boundary too. */
  lemma WriteThenRead(t: Table, s: nat, i: nat, off: nat, v: seq<bv8>)
    requires Uniform(t, s) && off < s && |v| <= s && Reachable(t, s, i, off, |v|)
    ensures Uniform(WriteSplit(t, s, i, off, v), s)
    ensures Reachable(WriteSplit(t, s, i, off, v), s, i, off, |v|)
    ensures ReadSplit(WriteSplit(t, s, i, off, v), s, i, off, |v|) == v
  {
    var w := WriteSplit(t, s, i, off, v);
    WriteSplitFlat(t, s, i, off, v);
    ReadSplitFlat(w, s, i, off, |v|);
    var f := Flatten(t);
    var p := i * s + off;
    assert (f[..p] + v + f[p + |v|..])[p .. p + |v|] == v;
  }

  /** Putting back the bytes a segment already holds changes nothing. */
  lemma PutOwnBytes(t: Table, i: nat, off: nat, len: nat)
    requires i < |t| && off + len <= |t[i]|
    ensures Put(t, i, off, t[i][off .. off + len]) == t
  {
    assert t[i][..off] + t[i][off .. off + len] + t[i][off + len..] == t[i];
  }

  /** A write of the bytes that are already there changes nothing. */
  lemma WriteSplitOfReadIsIdentity(t: Table, s: nat, i: nat, off: nat, len: nat)
    requires Uniform(t, s) && off < s && len <= s && Reachable(t, s, i, off, len)
    ensures WriteSplit(t, s, i, off, ReadSplit(t, s, i, off, len)) == t
  {
    var v := ReadSplit(t, s, i, off, len);
    if off + len > s {
      var delta := off + len - s;
      assert v[..s - off] == t[i][off .. off + (s - off)];
      assert v[s - off..] == t[i + 1][0 .. 0 + delta];
      PutOwnBytes(t, i, off, s - off);
      PutOwnBytes(t, i + 1, 0, delta);
    } else {
      PutOwnBytes(t, i, off, len);
    }
  }

  /** `setInt` followed by `getInt` at a position whose four bytes lie in one segment
      returns the value written. */
  lemma IntRoundTrip(t: Table, i: nat, off: nat, v: bv32, order: ByteOrder)
    requires i < |t| && off + 4 <= |t[i]|
    ensures DecodeInt(Put(t, i, off, EncodeInt(v, order))[i][off .. off + 4], order) == v
  {
  }

  /** `setShort` followed by `getShort` in one segment returns the value written. */
  lemma ShortRoundTrip(t: Table, i: nat, off: nat, v: bv16, order: ByteOrder)
    requires i < |t| && off + 2 <= |t[i]|
    ensures DecodeShort(Put(t, i, off, EncodeShort(v, order))[i][off .. off + 2], order) == v
  {
  }
}
