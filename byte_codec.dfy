/** The byte layout `ByteBuffer.putInt`/`putShort` give a value inside a segment, for
    the byte order the store was created with, and the reverse layout `getInt`/`getShort`
    read back. */
module ByteCodec {

  datatype ByteOrder = BigEndian | LittleEndian

  /** The bytes of a value, most significant first, put in the store's byte order. */
  function InOrder(mostSignificantFirst: seq<bv8>, order: ByteOrder): (b: seq<bv8>)
    ensures |b| == |mostSignificantFirst|
    ensures forall k :: 0 <= k < |b| ==>
              b[k] == mostSignificantFirst[if order == BigEndian then k else |b| - 1 - k]
  {
    var n := |mostSignificantFirst|;
    seq(n, k requires 0 <= k < n => mostSignificantFirst[if order == BigEndian then k else n - 1 - k])
  }

  /** Putting bytes in order twice gives them back: the order is its own inverse. */
  lemma InOrderTwice(m: seq<bv8>, order: ByteOrder)
    ensures InOrder(InOrder(m, order), order) == m
  {
  }

  /** The int whose bytes, most significant first, are `m`. */
  function IntOf(m: seq<bv8>): bv32
    requires |m| == 4
  {
    (m[0] as bv32 << 24) | (m[1] as bv32 << 16) | (m[2] as bv32 << 8) | m[3] as bv32
  }

  /** The bytes of `v`, most significant first. */
  function IntBytes(v: bv32): (m: seq<bv8>)
    ensures |m| == 4 && IntOf(m) == v
  {
    [(v >> 24) as bv8, ((v >> 16) & 0xff) as bv8, ((v >> 8) & 0xff) as bv8, (v & 0xff) as bv8]
  }

  /** The short whose bytes, most significant first, are `m`. */
  function ShortOf(m: seq<bv8>): bv16
    requires |m| == 2
  {
    (m[0] as bv16 << 8) | m[1] as bv16
  }

  /** The bytes of `v`, most significant first. */
  function ShortBytes(v: bv16): (m: seq<bv8>)
    ensures |m| == 2 && ShortOf(m) == v
  {
    [(v >> 8) as bv8, (v & 0xff) as bv8]
  }

  /** The four bytes `putInt` stores for `v`; `DecodeInt` reads `v` back. */
  function EncodeInt(v: bv32, order: ByteOrder): (b: seq<bv8>)
    ensures |b| == 4
    ensures DecodeInt(b, order) == v
  {
    InOrderTwice(IntBytes(v), order);
    InOrder(IntBytes(v), order)
  }

  /** The int `getInt` assembles from four bytes: in big-endian order the first byte
      is the most significant, in little-endian order the last. */
  function DecodeInt(b: seq<bv8>, order: ByteOrder): (v: bv32)
    requires |b| == 4
    ensures order == BigEndian ==> v == IntOf(b)
    ensures order == LittleEndian ==> v == IntOf([b[3], b[2], b[1], b[0]])
  {
    assert order == BigEndian ==> InOrder(b, order) == b;
    assert order == LittleEndian ==> InOrder(b, order) == [b[3], b[2], b[1], b[0]];
    IntOf(InOrder(b, order))
  }

  /** The two bytes `putShort` stores for `v`; `DecodeShort` reads `v` back. */
  function EncodeShort(v: bv16, order: ByteOrder): (b: seq<bv8>)
    ensures |b| == 2
    ensures DecodeShort(b, order) == v
  {
    InOrderTwice(ShortBytes(v), order);
    InOrder(ShortBytes(v), order)
  }

  /** The short `getShort` assembles from two bytes: in big-endian order the first
      byte is the most significant, in little-endian order the second. */
  function DecodeShort(b: seq<bv8>, order: ByteOrder): (v: bv16)
    requires |b| == 2
    ensures order == BigEndian ==> v == ShortOf(b)
    ensures order == LittleEndian ==> v == ShortOf([b[1], b[0]])
  {
    assert order == BigEndian ==> InOrder(b, order) == b;
    assert order == LittleEndian ==> InOrder(b, order) == [b[1], b[0]];
    ShortOf(InOrder(b, order))
  }

  /** The four bytes of an assembled int are the bytes it was assembled from. */
  lemma IntFields(a: bv8, b: bv8, c: bv8, d: bv8)
    ensures var v := (a as bv32 << 24) | (b as bv32 << 16) | (c as bv32 << 8) | d as bv32;
            (v >> 24) as bv8 == a && ((v >> 16) & 0xff) as bv8 == b &&
            ((v >> 8) & 0xff) as bv8 == c && (v & 0xff) as bv8 == d
  {
  }

  /** `IntBytes` undoes `IntOf`. */
  lemma IntParts(a: bv8, b: bv8, c: bv8, d: bv8)
    ensures IntBytes(IntOf([a, b, c, d])) == [a, b, c, d]
  {
    var v := (a as bv32 << 24) | (b as bv32 << 16) | (c as bv32 << 8) | d as bv32;
    assert IntOf([a, b, c, d]) == v;
    IntFields(a, b, c, d);
  }

  /** The two bytes of an assembled short are the bytes it was assembled from. */
  lemma ShortFields(a: bv8, b: bv8)
    ensures var v := (a as bv16 << 8) | b as bv16;
            (v >> 8) as bv8 == a && (v & 0xff) as bv8 == b
  {
  }

  /** `ShortBytes` undoes `ShortOf`. */
  lemma ShortParts(a: bv8, b: bv8)
    ensures ShortBytes(ShortOf([a, b])) == [a, b]
  {
    var v := (a as bv16 << 8) | b as bv16;
    assert ShortOf([a, b]) == v;
    ShortFields(a, b);
  }

  /** Every four bytes are the layout of the int they decode to: the codec is a
      bijection between ints and 4-byte groups. */
  lemma EncodeDecodeInt(b: seq<bv8>, order: ByteOrder)
    requires |b| == 4
    ensures EncodeInt(DecodeInt(b, order), order) == b
  {
    var m := InOrder(b, order);
    assert m == [m[0], m[1], m[2], m[3]];
    IntParts(m[0], m[1], m[2], m[3]);
    InOrderTwice(b, order);
  }

  /** Every two bytes are the layout of the short they decode to. */
  lemma EncodeDecodeShort(b: seq<bv8>, order: ByteOrder)
    requires |b| == 2
    ensures EncodeShort(DecodeShort(b, order), order) == b
  {
    var m := InOrder(b, order);
    assert m == [m[0], m[1]];
    ShortParts(m[0], m[1]);
    InOrderTwice(b, order);
  }
}
