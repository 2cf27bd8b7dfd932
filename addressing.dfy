/** Address translation and segment arithmetic of the segmented store: the logical
    position `p` lives in segment `p >> segmentSizePower` at offset `p & indexDivisor`,
    where the segment size `S` is `2^segmentSizePower` and `indexDivisor` is `S - 1`. */
module Addressing {
  import opened JavaInt
  import opened Outcomes

  function Pow2(k: nat): (r: nat)
    ensures r >= 1
  {
    if k == 0 then 1 else 2 * Pow2(k - 1)
  }

  /** `x >> k` (equally `x >>> k`) on a non-negative long: the k lowest bits are dropped. */
  function ShiftRight(x: nat, k: nat): (r: nat)
    ensures r <= x
    ensures k > 0 && x > 0 ==> r < x
  {
    if k == 0 then x else ShiftRight(x / 2, k - 1)
  }

  /** `x & y` on non-negative longs, bit by bit from the lowest bit up. */
  function BitAnd(x: nat, y: nat): (r: nat)
    ensures r <= x && r <= y
  {
    if x == 0 || y == 0 then 0
    else 2 * BitAnd(x / 2, y / 2) + (if x % 2 == 1 && y % 2 == 1 then 1 else 0)
  }

  // ---- Euclidean division facts used below ----

  /** Multiplying by a natural number: the product is at least the other factor. */
  lemma {:induction false} MulMonotone(k: nat, d: nat)
    ensures k * d >= 0
    ensures k >= 1 ==> k * d >= d
  {
    if k > 0 {
      MulMonotone(k - 1, d);
      assert k * d == (k - 1) * d + d;
    }
  }

  /** A non-zero multiple of `d` is at least `d` away from zero. */
  lemma MulSign(k: int, d: int)
    requires d >= 0
    ensures k >= 1 ==> k * d >= d
    ensures k <= -1 ==> k * d <= -d
  {
    if k >= 0 {
      MulMonotone(k, d);
    } else {
      MulMonotone(-k, d);
      assert (-k) * d == -(k * d);
    }
  }

  /** A number is its quotient times the divisor plus its remainder. */
  lemma DivModIdentity(x: nat, d: nat)
    requires d > 0
    ensures (x / d) * d + x % d == x
  {
  }

  /** A quotient and remainder in range are THE quotient and remainder. */
  lemma DivModUnique(x: int, d: int, q: int, r: int)
    requires d > 0 && x == q * d + r && 0 <= r < d
    ensures x / d == q && x % d == r
  {
    var q', r' := x / d, x % d;
    assert (q - q') * d == r' - r;
    MulSign(q - q', d);
  }

  /** Halving and then dividing by `m` is dividing by `2 * m`. */
  lemma DivideHalf(x: nat, m: nat)
    requires m > 0
    ensures x / 2 / m == x / (2 * m)
    ensures x % (2 * m) == 2 * ((x / 2) % m) + x % 2
  {
    var q, r := x / 2, x % 2;
    var q2, r2 := q / m, q % m;
    assert x == q2 * (2 * m) + (2 * r2 + r) by {
      assert q2 * (2 * m) == 2 * (q2 * m);
    }
    DivModUnique(x, 2 * m, q2, 2 * r2 + r);
  }

  /** The shift the source uses for the segment number is a division by the segment size. */
  lemma {:induction false} ShiftRightIsDivision(x: nat, k: nat)
    ensures ShiftRight(x, k) == x / Pow2(k)
  {
    if k > 0 {
      ShiftRightIsDivision(x / 2, k - 1);
      DivideHalf(x, Pow2(k - 1));
    }
  }

  /** One step of `&` with an odd mask: the lowest bit of the result is that of `x`. */
  lemma BitAndOddStep(x: nat, y: nat)
    requires x > 0 && y % 2 == 1
    ensures BitAnd(x, y) == 2 * BitAnd(x / 2, y / 2) + x % 2
  {
  }

  /** The mask the source uses for the offset is the remainder modulo the segment size. */
  lemma {:induction false} MaskIsRemainder(x: nat, k: nat)
    ensures BitAnd(x, Pow2(k) - 1) == x % Pow2(k)
  {
    if k > 0 && x > 0 {
      var m := Pow2(k - 1);
      var mask := Pow2(k) - 1;
      assert Pow2(k) == 2 * m;
      DivModUnique(mask, 2, m - 1, 1);
      BitAndOddStep(x, mask);
      assert BitAnd(x, mask) == 2 * BitAnd(x / 2, m - 1) + x % 2;
      MaskIsRemainder(x / 2, k - 1);
      assert BitAnd(x / 2, m - 1) == (x / 2) % m;
      DivideHalf(x, m);
    } else if k == 0 {
      assert BitAnd(x, 0) == 0;
      DivModUnique(x, 1, x, 0);
    } else {
      DivModUnique(0, Pow2(k), 0, 0);
    }
  }

  /** The segment number of a logical position: `bytePos >> segmentSizePower`. */
  function SegmentIndex(bytePos: nat, segmentSizePower: nat): (i: nat)
    ensures i == bytePos / Pow2(segmentSizePower)
  {
    ShiftRightIsDivision(bytePos, segmentSizePower);
    ShiftRight(bytePos, segmentSizePower)
  }

  /** The offset inside its segment of a logical position: `bytePos & indexDivisor`. */
  function SegmentOffset(bytePos: nat, indexDivisor: nat, segmentSizePower: nat): (j: nat)
    requires indexDivisor == Pow2(segmentSizePower) - 1
    ensures j == bytePos % Pow2(segmentSizePower)
    ensures j < Pow2(segmentSizePower)
  {
    MaskIsRemainder(bytePos, segmentSizePower);
    BitAnd(bytePos, indexDivisor)
  }

  /** Every (segment, offset) pair names exactly one logical position and back:
      translating `i * S + j` gives back `i` and `j`. */
  lemma AddressRoundTrip(i: nat, j: nat, segmentSizePower: nat)
    requires j < Pow2(segmentSizePower)
    ensures SegmentIndex(i * Pow2(segmentSizePower) + j, segmentSizePower) == i
    ensures SegmentOffset(i * Pow2(segmentSizePower) + j, Pow2(segmentSizePower) - 1, segmentSizePower) == j
  {
    var s := Pow2(segmentSizePower);
    DivModUnique(i * s + j, s, i, j);
  }

  /** A logical position is its segment number times the segment size plus its offset. */
  lemma AddressDecomposes(bytePos: nat, segmentSizePower: nat)
    ensures SegmentIndex(bytePos, segmentSizePower) * Pow2(segmentSizePower)
            + SegmentOffset(bytePos, Pow2(segmentSizePower) - 1, segmentSizePower) == bytePos
  {
    var s := Pow2(segmentSizePower);
    DivModIdentity(bytePos, s);
    var i := SegmentIndex(bytePos, segmentSizePower);
    var j := SegmentOffset(bytePos, s - 1, segmentSizePower);
    assert i == bytePos / s && j == bytePos % s;
  }

  /** `a * s < b * s` with a positive `s` means `a < b`. */
  lemma ProductBelow(a: int, b: int, s: int)
    requires s > 0 && a * s < b * s
    ensures a < b
  {
    assert (b - a) * s == b * s - a * s;
    MulSign(b - a, s);
  }

  // ---- segment counts ----

  /** ceil(n / s), computed as the source does: the quotient, plus one when there is a
      remainder. It is the least segment count whose bytes cover `n`. */
  function CeilDiv(n: nat, s: nat): (c: nat)
    requires s > 0
    ensures c * s >= n
    ensures c == 0 || (c - 1) * s < n
    ensures c == 0 <==> n == 0
  {
    var q := n / s;
    assert q * s + n % s == n;
    if n % s != 0 then
      assert (q + 1) * s == q * s + s;
      q + 1
    else
      assert q > 0 ==> (q - 1) * s == q * s - s;
      q
  }

  /** Any count that covers `n` bytes is at least `CeilDiv(n, s)`. */
  lemma CeilDivIsLeast(n: nat, s: nat, c: nat)
    requires s > 0 && c * s >= n
    ensures CeilDiv(n, s) <= c
  {
    var d := CeilDiv(n, s);
    if d > 0 {
      ProductBelow(d - 1, c, s);
    }
  }

  /** The segment count `mapIt` maps for `byteCount` bytes, with the guards of the
      source: a count that does not fit an `int` is refused ("Too many segments"),
      and so is a count of zero. */
  function SegmentsToMap(byteCount: nat, s: nat): (r: Result<nat>)
    requires s > 0
    ensures r == Err(ZeroSegments) <==> byteCount == 0
    ensures r == Err(TooManySegments) <==> CeilDiv(byteCount, s) > Int32Max
    ensures r.Ok? ==> 0 < r.value <= Int32Max
    ensures r.Ok? ==> r.value * s >= byteCount && (r.value - 1) * s < byteCount
  {
    var c := CeilDiv(byteCount, s);
    if c > Int32Max then Err(TooManySegments)
    else if c == 0 then Err(ZeroSegments)
    else Ok(c)
  }

  /** `mapIt`'s count AS WRITTEN: the quotient is cast to `int` before the
      "Too many segments" test and the increment is an `int` addition, so a
      quotient of 2^32 or more wraps around instead of being refused. */
  function SegmentsToMapAsWritten(byteCount: nat, s: nat): (r: Result<int>)
    requires s > 0
    ensures r.Ok? ==> IsInt32(r.value) && r.value != 0
    ensures r.Err? ==> r.error == TooManySegments || r.error == ZeroSegments
  {
    var q := ToInt32(byteCount / s);
    if q < 0 then Err(TooManySegments)
    else
      var c := if byteCount % s != 0 then ToInt32(q + 1) else q;
      if c == 0 then Err(ZeroSegments) else Ok(c)
  }

  /** Wherever the exact count fits an `int`, the source's computation is the exact one. */
  lemma SegmentsToMapAsWrittenAgrees(byteCount: nat, s: nat)
    requires s > 0 && CeilDiv(byteCount, s) <= Int32Max
    ensures SegmentsToMapAsWritten(byteCount, s) ==
            match SegmentsToMap(byteCount, s)
            case Ok(c) => Ok(c as int)
            case Err(e) => Err(e)
  {
    assert byteCount / s <= CeilDiv(byteCount, s);
  }

  /** Counterexample: with 1 MiB segments (2^20) and 2^52 + 1 bytes the quotient 2^32
      casts to 0, so the source maps ONE segment and reports success, although one
      segment holds far fewer bytes than were asked for; the exact count is refused. */
  lemma SegmentsToMapAsWrittenWraps()
    ensures SegmentsToMapAsWritten(0x10_0000_0000_0001, 0x10_0000) == Ok(1)
    ensures SegmentsToMapAsWritten(0x10_0000_0000_0001, 0x10_0000).value * 0x10_0000 < 0x10_0000_0000_0001
    ensures SegmentsToMap(0x10_0000_0000_0001, 0x10_0000) == Err(TooManySegments)
  {
    assert CeilDiv(0x10_0000_0000_0001, 0x10_0000) == 0x1_0000_0001;
  }

  /** Counterexample: with 1 MiB segments and `Int32Max * 2^20 + 1` bytes the quotient
      is `Int32Max` and fits, but the increment for the remainder wraps to `Int32Min`,
      which is not zero and so passes the "0 segments" guard; the exact count is
      refused. */
  lemma SegmentsToMapAsWrittenWrapsAtMax()
    ensures SegmentsToMapAsWritten(0x7fff_ffff * 0x10_0000 + 1, 0x10_0000) == Ok(Int32Min)
    ensures SegmentsToMap(0x7fff_ffff * 0x10_0000 + 1, 0x10_0000) == Err(TooManySegments)
  {
    assert (0x7fff_ffff * 0x10_0000 + 1) / 0x10_0000 == 0x7fff_ffff;
    assert CeilDiv(0x7fff_ffff * 0x10_0000 + 1, 0x10_0000) == 0x8000_0000;
  }

  /** The segment count `trimTo(capacity)` keeps: ceil(max(capacity, S) / S), so at
      least one segment, and exactly the segments that cover `capacity`. */
  function SegmentsToKeep(capacity: int, s: nat): (n: nat)
    requires s > 0
    ensures n >= 1
    ensures n * s >= capacity && (n - 1) * s < (if capacity < s then s else capacity)
  {
    CeilDiv(if capacity < s then s else capacity, s)
  }

  /** `trimTo`'s count AS WRITTEN: the quotient cast to `int`, the increment an `int`
      addition. */
  function SegmentsToKeepAsWritten(capacity: int, s: nat): (n: int)
    requires s > 0
    ensures IsInt32(n)
  {
    var c := if capacity < s then s else capacity;
    var q := ToInt32(c / s);
    if c % s != 0 then ToInt32(q + 1) else q
  }

  /** Wherever the exact count fits an `int`, the source's computation is the exact one. */
  lemma SegmentsToKeepAsWrittenAgrees(capacity: int, s: nat)
    requires s > 0 && SegmentsToKeep(capacity, s) <= Int32Max
    ensures SegmentsToKeepAsWritten(capacity, s) == SegmentsToKeep(capacity, s)
  {
    var c := if capacity < s then s else capacity;
    assert c / s <= CeilDiv(c, s);
  }

  /** Counterexample: with 1 MiB segments, `trimTo(2^52 + 2^20)` on a table of two
      segments computes 2^32 + 1 segments, which the cast turns into 1: the source
      drops the second segment, although the requested capacity exceeds the table and
      the exact count (which `subList` refuses) keeps every segment. */
  lemma SegmentsToKeepAsWrittenWraps()
    ensures SegmentsToKeepAsWritten(0x10_0000_0010_0000, 0x10_0000) == 1
    ensures SegmentsToKeep(0x10_0000_0010_0000, 0x10_0000) == 0x1_0000_0001
  {
    assert CeilDiv(0x10_0000_0010_0000, 0x10_0000) == 0x1_0000_0001;
  }

  /** The accessors' segment number AS WRITTEN: `(int) (bytePos >>> segmentSizePower)`.
      Below 2^31 segments it is the exact segment number. */
  function SegmentIndexAsWritten(bytePos: nat, segmentSizePower: nat): (i: int)
    ensures IsInt32(i)
    ensures SegmentIndex(bytePos, segmentSizePower) <= Int32Max ==> i == SegmentIndex(bytePos, segmentSizePower)
  {
    ToInt32(SegmentIndex(bytePos, segmentSizePower))
  }

  /** Counterexample: the position at offset `j` of segment `2^32 + k` is cast to
      segment `k`, so the accessors reach the bytes of position `k * S + j`, a
      position of the table, instead of failing for a segment beyond it. */
  lemma SegmentIndexAsWrittenWraps(k: nat, j: nat, segmentSizePower: nat)
    requires k <= Int32Max && j < Pow2(segmentSizePower)
    ensures var s := Pow2(segmentSizePower);
            SegmentIndex((TwoTo32 + k) * s + j, segmentSizePower) == TwoTo32 + k &&
            SegmentIndexAsWritten((TwoTo32 + k) * s + j, segmentSizePower) == k == SegmentIndex(k * s + j, segmentSizePower) &&
            SegmentOffset((TwoTo32 + k) * s + j, s - 1, segmentSizePower) == j == SegmentOffset(k * s + j, s - 1, segmentSizePower)
  {
    AddressRoundTrip(TwoTo32 + k, j, segmentSizePower);
    AddressRoundTrip(k, j, segmentSizePower);
    DivModUnique(TwoTo32 + k, TwoTo32, 1, k);
  }

  /** Segment number `2^31` casts to `Int32Min`: a negative index, which no list
      accepts, so at that position the source's accessors fail too. */
  lemma SegmentIndexAsWrittenNegative(j: nat, segmentSizePower: nat)
    requires j < Pow2(segmentSizePower)
    ensures SegmentIndexAsWritten(0x8000_0000 * Pow2(segmentSizePower) + j, segmentSizePower) == Int32Min
  {
    AddressRoundTrip(0x8000_0000, j, segmentSizePower);
  }
}
