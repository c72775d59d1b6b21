/**
 * The endian codec of `ConvertUtils`: fixed-width integers to and from their
 * bytes, and byte-order reversal of an integer.  Java's `short`, `int` and
 * `long` are modelled by their bit patterns (`bv16`, `bv32`, `bv64`); every
 * operation the source applies to them (`>>>`, `&`, `|`, `<<`, narrowing
 * casts) only moves and masks bits, so signedness never matters.
 */
module ConvertUtils {
  import opened Bytes

  // ---------------------------------------------------------------------
  // Big-endian encoders: most significant byte at index 0.
  // ---------------------------------------------------------------------

  function Short2Bytes(v: bv16): (r: seq<byte>)
    ensures |r| == 2
  {
    [((v >> 8) & 0xff) as byte, (v & 0xff) as byte]
  }

  function Int2Bytes(v: bv32): (r: seq<byte>)
    ensures |r| == 4
  {
    [((v >> 24) & 0xff) as byte, ((v >> 16) & 0xff) as byte,
     ((v >> 8) & 0xff) as byte, (v & 0xff) as byte]
  }

  function Long2Bytes(v: bv64): (r: seq<byte>)
    ensures |r| == 8
  {
    [((v >> 56) & 0xff) as byte, ((v >> 48) & 0xff) as byte,
     ((v >> 40) & 0xff) as byte, ((v >> 32) & 0xff) as byte,
     ((v >> 24) & 0xff) as byte, ((v >> 16) & 0xff) as byte,
     ((v >> 8) & 0xff) as byte, (v & 0xff) as byte]
  }

  // ---------------------------------------------------------------------
  // Little-endian encoders: written out independently in the source; each
  // is exactly the reversal of the big-endian array.
  // ---------------------------------------------------------------------

  function Short2BytesLE(v: bv16): (r: seq<byte>)
    ensures |r| == 2
  {
    [(v & 0xff) as byte, ((v >> 8) & 0xff) as byte]
  }

  function Int2BytesLE(v: bv32): (r: seq<byte>)
    ensures |r| == 4
  {
    [(v & 0xff) as byte, ((v >> 8) & 0xff) as byte,
     ((v >> 16) & 0xff) as byte, ((v >> 24) & 0xff) as byte]
  }

  function Long2BytesLE(v: bv64): (r: seq<byte>)
    ensures |r| == 8
  {
    [(v & 0xff) as byte, ((v >> 8) & 0xff) as byte,
     ((v >> 16) & 0xff) as byte, ((v >> 24) & 0xff) as byte,
     ((v >> 32) & 0xff) as byte, ((v >> 40) & 0xff) as byte,
     ((v >> 48) & 0xff) as byte, ((v >> 56) & 0xff) as byte]
  }

  /** Each little-endian array is exactly the reversal of the big-endian one. */
  lemma Short2BytesLEIsReverse(v: bv16)
    ensures Short2BytesLE(v) == Reverse(Short2Bytes(v))
  {
  }

  lemma Int2BytesLEIsReverse(v: bv32)
    ensures Int2BytesLE(v) == Reverse(Int2Bytes(v))
  {
  }

  lemma Long2BytesLEIsReverse(v: bv64)
    ensures Long2BytesLE(v) == Reverse(Long2Bytes(v))
  {
  }

  // ---------------------------------------------------------------------
  // What the encoders mean: the value is its bytes shifted into place.
  // ---------------------------------------------------------------------

  /** `Short2Bytes` puts the 2 bytes of `v` most significant byte first. */
  lemma Short2BytesWeights(v: bv16)
    ensures v == ((Short2Bytes(v)[0] as bv16) << 8) | (Short2Bytes(v)[1] as bv16)
  {
  }

  /** `Int2Bytes` puts the 4 bytes of `v` most significant byte first. */
  lemma Int2BytesWeights(v: bv32)
    ensures v == ((Int2Bytes(v)[0] as bv32) << 24) | ((Int2Bytes(v)[1] as bv32) << 16) | ((Int2Bytes(v)[2] as bv32) << 8) | (Int2Bytes(v)[3] as bv32)
  {
  }

  /** `Long2Bytes` puts the 8 bytes of `v` most significant byte first. */
  lemma Long2BytesWeights(v: bv64)
    ensures v == ((Long2Bytes(v)[0] as bv64) << 56) | ((Long2Bytes(v)[1] as bv64) << 48) | ((Long2Bytes(v)[2] as bv64) << 40) | ((Long2Bytes(v)[3] as bv64) << 32)
      | ((Long2Bytes(v)[4] as bv64) << 24) | ((Long2Bytes(v)[5] as bv64) << 16) | ((Long2Bytes(v)[6] as bv64) << 8) | (Long2Bytes(v)[7] as bv64)
  {
  }

  /** `Short2BytesLE` puts the 2 bytes of `v` least significant byte first. */
  lemma Short2BytesLEWeights(v: bv16)
    ensures v == ((Short2BytesLE(v)[1] as bv16) << 8) | (Short2BytesLE(v)[0] as bv16)
  {
  }

  /** `Int2BytesLE` puts the 4 bytes of `v` least significant byte first. */
  lemma Int2BytesLEWeights(v: bv32)
    ensures v == ((Int2BytesLE(v)[3] as bv32) << 24) | ((Int2BytesLE(v)[2] as bv32) << 16) | ((Int2BytesLE(v)[1] as bv32) << 8) | (Int2BytesLE(v)[0] as bv32)
  {
  }

  /** `Long2BytesLE` puts the 8 bytes of `v` least significant byte first. */
  lemma Long2BytesLEWeights(v: bv64)
    ensures v == ((Long2BytesLE(v)[7] as bv64) << 56) | ((Long2BytesLE(v)[6] as bv64) << 48) | ((Long2BytesLE(v)[5] as bv64) << 40) | ((Long2BytesLE(v)[4] as bv64) << 32)
      | ((Long2BytesLE(v)[3] as bv64) << 24) | ((Long2BytesLE(v)[2] as bv64) << 16) | ((Long2BytesLE(v)[1] as bv64) << 8) | (Long2BytesLE(v)[0] as bv64)
  {
  }

  // ---------------------------------------------------------------------
  // Big-endian decoders: the expressions the reader assembles values with
  // (`(b0 & 0xff) << 8 | (b1 & 0xff)` and its wider forms).  Each is the
  // inverse of the matching encoder.
  // ---------------------------------------------------------------------

  function Bytes2Short(s: seq<byte>): (r: bv16)
    requires |s| == 2
    ensures Short2Bytes(r) == s
  {
    ((s[0] as bv16) << 8) | (s[1] as bv16)
  }

  function Bytes2Int(s: seq<byte>): (r: bv32)
    requires |s| == 4
    ensures Int2Bytes(r) == s
  {
    ((s[0] as bv32) << 24) | ((s[1] as bv32) << 16)
    | ((s[2] as bv32) << 8) | (s[3] as bv32)
  }

  function Bytes2Long(s: seq<byte>): (r: bv64)
    requires |s| == 8
    ensures Long2Bytes(r) == s
  {
    var r := ((s[0] as bv64) << 56) | ((s[1] as bv64) << 48)
      | ((s[2] as bv64) << 40) | ((s[3] as bv64) << 32)
      | ((s[4] as bv64) << 24) | ((s[5] as bv64) << 16)
      | ((s[6] as bv64) << 8) | (s[7] as bv64);
    JoinInts(s, r);
    SplitLong(Bytes2Int(s[..4]), Bytes2Int(s[4..]));
    assert s == s[..4] + s[4..];
    r
  }

  /** The eight-byte assembly is the join of the two four-byte assemblies. */
  lemma JoinInts(s: seq<byte>, r: bv64)
    requires |s| == 8
    requires r == ((s[0] as bv64) << 56) | ((s[1] as bv64) << 48)
      | ((s[2] as bv64) << 40) | ((s[3] as bv64) << 32)
      | ((s[4] as bv64) << 24) | ((s[5] as bv64) << 16)
      | ((s[6] as bv64) << 8) | (s[7] as bv64)
    ensures r == ((Bytes2Int(s[..4]) as bv64) << 32) | (Bytes2Int(s[4..]) as bv64)
  {
  }

  /** The `long` whose high half is `hi` and whose low half is `lo`. */
  function JoinHalves(hi: bv32, lo: bv32): (r: bv64)
    ensures Long2Bytes(r) == Int2Bytes(hi) + Int2Bytes(lo)
  {
    SplitLong(hi, lo);
    ((hi as bv64) << 32) | (lo as bv64)
  }

  /** The big-endian bytes of a joined pair of `int`s are the bytes of each in turn. */
  lemma SplitLong(hi: bv32, lo: bv32)
    ensures Long2Bytes(((hi as bv64) << 32) | (lo as bv64)) == Int2Bytes(hi) + Int2Bytes(lo)
  {
  }

  /** Decoding the encoding gives the value back. */
  lemma ShortRoundTrip(v: bv16)
    ensures Bytes2Short(Short2Bytes(v)) == v
  {
  }

  lemma IntRoundTrip(v: bv32)
    ensures Bytes2Int(Int2Bytes(v)) == v
  {
  }

  lemma LongRoundTrip(v: bv64)
    ensures Bytes2Long(Long2Bytes(v)) == v
  {
  }

  // ---------------------------------------------------------------------
  // Byte-order reversal (`reverseBytesShort/Int/Long`).  In
  // `reverseBytesShort` the `short` is widened to `int`, but the masks
  // `0xff00` and `0x00ff` drop the sign-extension bits and the final
  // `(short)` cast drops bits 16 and up, so the 16-bit form is exact.
  // ---------------------------------------------------------------------

  /** Moves byte i to byte 1 - i: the big-endian bytes of the result are the little-endian bytes of `v`. */
  function ReverseBytesShort(v: bv16): (r: bv16)
    ensures Short2Bytes(r) == Short2BytesLE(v)
  {
    ((v & 0xff00) >> 8) | ((v & 0x00ff) << 8)
  }

  /** Moves byte i to byte 3 - i. */
  function ReverseBytesInt(v: bv32): (r: bv32)
    ensures Int2Bytes(r) == Int2BytesLE(v)
  {
    ((v & 0xff000000) >> 24)
    | ((v & 0x00ff0000) >> 8)
    | ((v & 0x0000ff00) << 8)
    | ((v & 0x000000ff) << 24)
  }

  /** Moves byte i to byte 7 - i. */
  function ReverseBytesLong(v: bv64): (r: bv64)
    ensures Long2Bytes(r) == Long2BytesLE(v)
  {
    ((v & 0xff00000000000000) >> 56)
    | ((v & 0x00ff000000000000) >> 40)
    | ((v & 0x0000ff0000000000) >> 24)
    | ((v & 0x000000ff00000000) >> 8)
    | ((v & 0x00000000ff000000) << 8)
    | ((v & 0x0000000000ff0000) << 24)
    | ((v & 0x000000000000ff00) << 40)
    | ((v & 0x00000000000000ff) << 56)
  }

  /** Reversing twice gives the value back. */
  lemma ReverseBytesShortInvolution(v: bv16)
    ensures ReverseBytesShort(ReverseBytesShort(v)) == v
  {
  }

  lemma ReverseBytesIntInvolution(v: bv32)
    ensures ReverseBytesInt(ReverseBytesInt(v)) == v
  {
  }

  lemma ReverseBytesLongInvolution(v: bv64)
    ensures ReverseBytesLong(ReverseBytesLong(v)) == v
  {
  }
}
