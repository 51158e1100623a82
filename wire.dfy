/**
 * Fixed-width integer codec of the rochefort wire format.
 *
 * The client reads a record length with `Util.aByteToInt` (a Java `int`, four
 * bytes) and a record offset with `Util.abyteToLong` (a Java `long`, eight
 * bytes), and writes a batch of offsets with `Util.listOfLongsToBytes`. The
 * source of `Util` is not part of this model; this module fixes the byte order
 * as big-endian two's complement, which is the order `java.io.DataInputStream`
 * and `java.nio.ByteBuffer` use by default.
 */
module Wire {

  /** An octet, read without sign (the `& 0xff` of a Java byte). */
  type byte = b: int | 0 <= b < 256

  const INT32_MIN: int := -0x8000_0000
  const INT32_MAX: int := 0x7FFF_FFFF
  const INT64_MIN: int := -0x8000_0000_0000_0000
  const INT64_MAX: int := 0x7FFF_FFFF_FFFF_FFFF

  /** The values of a Java `int`. */
  predicate IsInt32(v: int) { INT32_MIN <= v <= INT32_MAX }

  /** The values of a Java `long`. */
  predicate IsInt64(v: int) { INT64_MIN <= v <= INT64_MAX }

  /** Concatenation regroups freely; stated once so that proofs over byte
      strings need not rediscover it. */
  lemma ConcatAssoc<T>(a: seq<T>, b: seq<T>, c: seq<T>)
    ensures (a + b) + c == a + (b + c)
  {
  }

  function Pow256(n: nat): (r: nat)
    ensures r >= 1
  {
    if n == 0 then 1 else 256 * Pow256(n - 1)
  }

  /** The smallest value that no longer fits the non-negative half of a
      `width`-byte two's complement integer. */
  function Half(width: nat): (h: int)
    requires width > 0
    ensures h > 0 && 2 * h == Pow256(width)
  {
    128 * Pow256(width - 1)
  }

  lemma Pow256Widths()
    ensures Pow256(3) == 0x100_0000
    ensures Half(4) == 0x8000_0000 && Pow256(4) == 0x1_0000_0000
    ensures Half(8) == 0x8000_0000_0000_0000 && Pow256(8) == 0x1_0000_0000_0000_0000
  {
    assert Pow256(1) == 256;
    assert Pow256(2) == 0x1_0000;
    assert Pow256(3) == 0x100_0000;
    assert Pow256(4) == 0x1_0000_0000;
    assert Pow256(5) == 0x100_0000_0000;
    assert Pow256(6) == 0x1_0000_0000_0000;
    assert Pow256(7) == 0x100_0000_0000_0000;
  }

  /** The unsigned big-endian value of a byte string. */
  function FromBytes(s: seq<byte>): (u: nat)
    ensures u < Pow256(|s|)
  {
    if s == [] then 0 else FromBytes(s[..|s| - 1]) * 256 + s[|s| - 1]
  }

  /** The `width`-byte unsigned big-endian encoding of `n`. */
  function ToBytes(n: nat, width: nat): (s: seq<byte>)
    requires n < Pow256(width)
    ensures |s| == width
    ensures FromBytes(s) == n
  {
    if width == 0 then []
    else
      var init := ToBytes(n / 256, width - 1);
      assert (init + [n % 256])[..width - 1] == init;
      init + [n % 256]
  }

  /** Decoding then re-encoding gives back the same bytes: the encoding of
      a width is one-to-one. */
  lemma {:induction false} ToBytesFromBytes(s: seq<byte>)
    ensures ToBytes(FromBytes(s), |s|) == s
  {
    if s != [] {
      var init := s[..|s| - 1];
      ToBytesFromBytes(init);
      var u := FromBytes(s);
      assert u / 256 == FromBytes(init) && u % 256 == s[|s| - 1];
      assert s == init + [s[|s| - 1]];
    }
  }

  /** The first byte weighs `256^(width-1)`. */
  lemma {:induction false} FromBytesFront(s: seq<byte>)
    requires |s| > 0
    ensures FromBytes(s) == s[0] * Pow256(|s| - 1) + FromBytes(s[1..])
  {
    if |s| > 1 {
      var init := s[..|s| - 1];
      FromBytesFront(init);
      assert init[1..] == s[1..][..|s| - 2];
      var p := Pow256(|s| - 2);
      var low := FromBytes(init[1..]);
      assert FromBytes(init) == s[0] * p + low;
      assert FromBytes(s[1..]) == low * 256 + s[|s| - 1];
      assert Pow256(|s| - 1) == 256 * p;
      MulCommutes(s[0], p);
    } else {
      assert s[1..] == [];
      assert s[..0] == [];
    }
  }

  lemma MulCommutes(a: nat, p: nat)
    ensures (a * p) * 256 == a * (256 * p)
  {
  }

  /** The two's complement value of a non-empty byte string. */
  function SignedOf(s: seq<byte>): (v: int)
    requires |s| > 0
    ensures -Half(|s|) <= v < Half(|s|)
    ensures v >= 0 <==> v == FromBytes(s)
  {
    var u := FromBytes(s);
    if u < Half(|s|) then u else u - Pow256(|s|)
  }

  /** The `width`-byte two's complement encoding of `v`. */
  function SignedBytes(v: int, width: nat): (s: seq<byte>)
    requires width > 0 && -Half(width) <= v < Half(width)
    ensures |s| == width
    ensures SignedOf(s) == v
  {
    ToBytes(if v < 0 then v + Pow256(width) else v, width)
  }

  /** Re-encoding a decoded value gives back the bytes it was read from. */
  lemma SignedBytesOf(s: seq<byte>)
    requires |s| > 0
    ensures SignedBytes(SignedOf(s), |s|) == s
  {
    ToBytesFromBytes(s);
  }

  lemma MulMonotone(a: nat, b: nat, p: nat)
    requires a <= b
    ensures a * p <= b * p
  {
    var k := b - a;
    assert b * p == a * p + k * p;
  }

  /** A value is negative exactly when the top bit of its first byte is set. */
  lemma SignedNegativeIffTopBit(s: seq<byte>)
    requires |s| > 0
    ensures SignedOf(s) < 0 <==> s[0] >= 128
  {
    FromBytesFront(s);
    var p := Pow256(|s| - 1);
    assert FromBytes(s[1..]) < p;
    if s[0] >= 128 {
      MulMonotone(128, s[0], p);
    } else {
      MulMonotone(s[0], 127, p);
    }
  }

  /** `Util.aByteToInt(s, pos)`: a Java `int` read at `pos`. */
  function Int32At(s: seq<byte>, pos: nat): (v: int)
    requires pos + 4 <= |s|
    ensures IsInt32(v)
  {
    Pow256Widths();
    SignedOf(s[pos..pos + 4])
  }

  /** `Util.abyteToLong(s, pos)`: a Java `long` read at `pos`. */
  function Int64At(s: seq<byte>, pos: nat): (v: int)
    requires pos + 8 <= |s|
    ensures IsInt64(v)
  {
    Pow256Widths();
    SignedOf(s[pos..pos + 8])
  }

  /** The four bytes that `Int32At` reads as `v`. */
  function Int32Bytes(v: int): (s: seq<byte>)
    requires IsInt32(v)
    ensures |s| == 4
  {
    Pow256Widths();
    SignedBytes(v, 4)
  }

  /** The eight bytes that `Int64At` reads as `v`. */
  function Int64Bytes(v: int): (s: seq<byte>)
    requires IsInt64(v)
    ensures |s| == 8
  {
    Pow256Widths();
    SignedBytes(v, 8)
  }

  /** Reading back a written `int`, wherever it stands, gives the same value. */
  lemma Int32RoundTrip(v: int, s: seq<byte>, pos: nat)
    requires IsInt32(v)
    requires pos + 4 <= |s| && s[pos..pos + 4] == Int32Bytes(v)
    ensures Int32At(s, pos) == v
  {
    Pow256Widths();
  }

  /** Reading back a written `long`, wherever it stands, gives the same value. */
  lemma Int64RoundTrip(v: int, s: seq<byte>, pos: nat)
    requires IsInt64(v)
    requires pos + 8 <= |s| && s[pos..pos + 8] == Int64Bytes(v)
    ensures Int64At(s, pos) == v
  {
    Pow256Widths();
  }

  /** Every four bytes are the encoding of the `int` they decode to. */
  lemma Int32BytesAt(s: seq<byte>, pos: nat)
    requires pos + 4 <= |s|
    ensures Int32Bytes(Int32At(s, pos)) == s[pos..pos + 4]
  {
    Pow256Widths();
    SignedBytesOf(s[pos..pos + 4]);
  }

  /** Every eight bytes are the encoding of the `long` they decode to. */
  lemma Int64BytesAt(s: seq<byte>, pos: nat)
    requires pos + 8 <= |s|
    ensures Int64Bytes(Int64At(s, pos)) == s[pos..pos + 8]
  {
    Pow256Widths();
    SignedBytesOf(s[pos..pos + 8]);
  }

  /** A length read by `Int32At` is negative exactly when the top bit of its
      first byte is set. */
  lemma Int32NegativeIffTopBit(s: seq<byte>, pos: nat)
    requires pos + 4 <= |s|
    ensures Int32At(s, pos) < 0 <==> s[pos] >= 128
  {
    SignedNegativeIffTopBit(s[pos..pos + 4]);
  }

  /** Leading zero bytes add nothing to the value. */
  lemma {:induction false} FromBytesOfLastByte(s: seq<byte>)
    requires |s| > 0
    requires forall i :: 0 <= i < |s| - 1 ==> s[i] == 0
    ensures FromBytes(s) == s[|s| - 1]
  {
    var init := s[..|s| - 1];
    if |init| > 0 {
      FromBytesOfLastByte(init);
      assert init[..|init| - 1] == s[..|s| - 2];
    } else {
      assert init == [];
    }
  }

  /** A header whose bytes are all zero but the last, below 128, reads as
      that last byte. */
  lemma SmallValue(s: seq<byte>, pos: nat, width: nat)
    requires width > 0 && pos + width <= |s| && s[pos + width - 1] < 128
    requires forall i :: pos <= i < pos + width - 1 ==> s[i] == 0
    ensures SignedOf(s[pos..pos + width]) == s[pos + width - 1]
  {
    var h := s[pos..pos + width];
    FromBytesOfLastByte(h);
    MulMonotone(1, Pow256(width - 1), 128);
  }

  predicate AllInt64(offsets: seq<int>)
  {
    forall i :: 0 <= i < |offsets| ==> IsInt64(offsets[i])
  }

  /** `Util.listOfLongsToBytes`: eight bytes per offset, in list order. */
  function EncodeOffsets(offsets: seq<int>): (s: seq<byte>)
    requires AllInt64(offsets)
    ensures |s| == 8 * |offsets|
  {
    if offsets == [] then [] else Int64Bytes(offsets[0]) + EncodeOffsets(offsets[1..])
  }

  /** How the server reads a batch request body: one `long` per eight bytes. */
  function DecodeOffsets(s: seq<byte>): (offsets: seq<int>)
    requires |s| % 8 == 0
    ensures |offsets| == |s| / 8
    ensures AllInt64(offsets)
    decreases |s|
  {
    if |s| == 0 then [] else [Int64At(s, 0)] + DecodeOffsets(s[8..])
  }

  /** An encoded offset list reads back as the same offsets in the same order. */
  lemma {:induction false} OffsetsRoundTrip(offsets: seq<int>)
    requires AllInt64(offsets)
    ensures DecodeOffsets(EncodeOffsets(offsets)) == offsets
  {
    if offsets != [] {
      var s := EncodeOffsets(offsets);
      var head := Int64Bytes(offsets[0]);
      assert s[..8] == head;
      assert s[8..] == EncodeOffsets(offsets[1..]);
      assert s[0..8] == head;
      OffsetsRoundTrip(offsets[1..]);
    }
  }
}
