/** The ULID value of CSharp.Ulid/Ulid.cs: its sixteen byte fields, the binary
    codec (constructors, ToByteArray, TryWriteBytes), the TimeStamp getter,
    Equals, and the byte order that CompareTo is meant to follow. */
module UlidBinary {
  import opened Wrappers
  import opened Positional

  type byte = bv8

  /** C#'s `long`, as its 64-bit two's-complement bit pattern. The core applies
      only masks, shifts and equality to it. */
  type Long = bv64

  /** The sixteen byte properties in storage order: TimeStamp_0..TimeStamp_5 are
      entries 0..5 (most significant first), Randomness_0..Randomness_9 are
      entries 6..15. */
  type Ulid = s: seq<byte> | |s| == 16
    witness [0, 0, 0, 0, 0, 0, 0, 0, 0, 0, 0, 0, 0, 0, 0, 0]

  /** `default(Ulid)`: every field zero. */
  const Empty: Ulid := [0, 0, 0, 0, 0, 0, 0, 0, 0, 0, 0, 0, 0, 0, 0, 0]

  const TIMESTAMP_MASK_0: Long := 255
  const TIMESTAMP_MASK_1: Long := 65280
  const TIMESTAMP_MASK_2: Long := 16711680
  const TIMESTAMP_MASK_3: Long := 4278190080
  const TIMESTAMP_MASK_4: Long := 1095216660480
  const TIMESTAMP_MASK_5: Long := 280375465082880

  /** The low 48 bits of a long: the part of it a ULID timestamp can hold. */
  const Low48: Long := 0xFFFF_FFFF_FFFF

  /** The `(byte)` cast: keep the low eight bits. */
  function LowByte(x: Long): byte {
    (x & 0xFF) as byte
  }

  /** The timestamp bytes `Ulid(long, byte[])` builds from its long, most
      significant first. */
  function TimestampBytes(timestamp: Long): (r: seq<byte>)
    ensures |r| == 6
    ensures r[0] == LowByte(timestamp >> 40) && r[1] == LowByte(timestamp >> 32)
    ensures r[2] == LowByte(timestamp >> 24) && r[3] == LowByte(timestamp >> 16)
    ensures r[4] == LowByte(timestamp >> 8) && r[5] == LowByte(timestamp)
  {
    MasksSelectBytes(timestamp);
    [ LowByte((timestamp & TIMESTAMP_MASK_5) >> 40),
      LowByte((timestamp & TIMESTAMP_MASK_4) >> 32),
      LowByte((timestamp & TIMESTAMP_MASK_3) >> 24),
      LowByte((timestamp & TIMESTAMP_MASK_2) >> 16),
      LowByte((timestamp & TIMESTAMP_MASK_1) >> 8),
      LowByte((timestamp & TIMESTAMP_MASK_0) >> 0) ]
  }

  /** The `TimeStamp` getter: the six timestamp bytes recombined into a long. Its
      value is the big-endian number they spell, so it is below 2^48 and a later
      TimeStamp means larger leading bytes. */
  function TimeStamp(u: Ulid): (t: Long)
    ensures t as int == Value(ByteValues(u[..6]), 256)
    ensures t < 0x1_0000_0000_0000
  {
    BytesHorner(u[0], u[1], u[2], u[3], u[4], u[5]);
    PrefixHorner(u);
    ((u[0] as Long) << 40)
      | ((u[1] as Long) << 32)
      | ((u[2] as Long) << 24)
      | ((u[3] as Long) << 16)
      | ((u[4] as Long) << 8)
      | (u[5] as Long)
  }

  /** `Ulid(byte[] timestamp, byte[] randomness)`: the timestamp length is checked
      first, then the randomness length. */
  function FromParts(timestamp: seq<byte>, randomness: seq<byte>): (r: Result<Ulid>)
    ensures r.Success? <==> |timestamp| == 6 && |randomness| == 10
    ensures |timestamp| != 6 ==> r == Failure(ArgumentError("timestamp"))
    ensures |timestamp| == 6 && |randomness| != 10 ==> r == Failure(ArgumentError("randomness"))
    ensures r.Success? ==> r.value[..6] == timestamp && r.value[6..] == randomness
  {
    if |timestamp| != 6 then Failure(ArgumentError("timestamp"))
    else if |randomness| != 10 then Failure(ArgumentError("randomness"))
    else Success([ timestamp[0], timestamp[1], timestamp[2], timestamp[3], timestamp[4], timestamp[5],
                   randomness[0], randomness[1], randomness[2], randomness[3], randomness[4],
                   randomness[5], randomness[6], randomness[7], randomness[8], randomness[9] ])
  }

  /** `Ulid(long timestamp, byte[] randomness)`: the long's bytes, then the
      two-array constructor. */
  function FromTimestamp(timestamp: Long, randomness: seq<byte>): (r: Result<Ulid>)
    ensures r.Success? <==> |randomness| == 10
    ensures r.Failure? ==> r.error == ArgumentError("randomness")
    ensures r.Success? ==> TimeStamp(r.value) == timestamp & Low48 && r.value[6..] == randomness
  {
    var r := FromParts(TimestampBytes(timestamp), randomness);
    if r.Success? then TimeStampOfBytes(timestamp, r.value); r else r
  }

  /** `Ulid(byte[] data)` and `Ulid(ReadOnlySpan<byte> data)`: exactly 16 bytes,
      taken in storage order. */
  function FromData(data: seq<byte>): (r: Result<Ulid>)
    ensures r.Success? <==> |data| == 16
    ensures r.Failure? ==> r.error == ArgumentError("data")
    ensures r.Success? ==> r.value == data
  {
    if |data| != 16 then Failure(ArgumentError("data"))
    else Success([ data[0], data[1], data[2], data[3], data[4], data[5], data[6], data[7],
                   data[8], data[9], data[10], data[11], data[12], data[13], data[14], data[15] ])
  }

  /** `Equals(Ulid other)`: field by field. */
  function Equals(a: Ulid, b: Ulid): (r: bool)
    ensures r <==> a == b
  {
    var r := a[0] == b[0] && a[1] == b[1] && a[2] == b[2] && a[3] == b[3]
      && a[4] == b[4] && a[5] == b[5] && a[6] == b[6] && a[7] == b[7]
      && a[8] == b[8] && a[9] == b[9] && a[10] == b[10] && a[11] == b[11]
      && a[12] == b[12] && a[13] == b[13] && a[14] == b[14] && a[15] == b[15];
    assert r ==> forall i | 0 <= i < 16 :: a[i] == b[i];
    r
  }

  /** `TryWriteBytes(Span<byte> destination)`: false and no write when fewer than
      16 bytes fit; otherwise the 16 fields go to positions 0..15 and nothing else
      changes. */
  method TryWriteBytes(u: Ulid, destination: array<byte>) returns (ok: bool)
    modifies destination
    ensures ok <==> destination.Length >= 16
    ensures !ok ==> destination[..] == old(destination[..])
    ensures ok ==> destination[..16] == u && destination[16..] == old(destination[16..])
  {
    if destination.Length < 16 {
      return false;
    }
    // destination[0..5] := TimeStamp_0..5, destination[6..15] := Randomness_0..9
    forall i | 0 <= i < 16 {
      destination[i] := u[i];
    }
    return true;
  }

  /** `ToByteArray()`: a fresh 16-byte array written by TryWriteBytes. */
  method ToByteArray(u: Ulid) returns (destination: array<byte>)
    ensures fresh(destination)
    ensures destination[..] == u
  {
    destination := new byte[16];
    var _ := TryWriteBytes(u, destination);
    assert destination[..] == destination[..16];
  }

  /** The integer value of each byte, for ordering and arithmetic. */
  function ByteValues(s: seq<byte>): (r: seq<int>)
    ensures |r| == |s| && IsDigits(r, 256)
    ensures forall i :: 0 <= i < |s| ==> r[i] == s[i] as int
  {
    seq(|s|, i requires 0 <= i < |s| => s[i] as int)
  }

  /** The order the identifiers are meant to have: bytes compared in storage
      order. */
  function CompareBytes(a: Ulid, b: Ulid): int {
    LexCompare(ByteValues(a), ByteValues(b))
  }

  /** The ULID as the unsigned 128-bit number its bytes spell, most significant
      byte first. */
  function Number(u: Ulid): (n: int)
    ensures 0 <= n < Pow(256, 16)
  {
    ValueBounds(ByteValues(u), 256);
    Value(ByteValues(u), 256)
  }

  // ---- Properties ----

  /** The byte order is the order of the numbers. */
  lemma CompareBytesIsNumberOrder(a: Ulid, b: Ulid)
    ensures CompareBytes(a, b) == Sign(Number(a) - Number(b))
  {
    LexCompareIsValueOrder(ByteValues(a), ByteValues(b), 256);
  }

  /** The getter recombines the bytes of the constructor into the low 48 bits of
      the long it was given. */
  lemma TimeStampOfBytes(timestamp: Long, u: Ulid)
    requires u[..6] == TimestampBytes(timestamp)
    ensures TimeStamp(u) == timestamp & Low48
  {
    var b := TimestampBytes(timestamp);
    assert u[0] == b[0] && u[1] == b[1] && u[2] == b[2] && u[3] == b[3] && u[4] == b[4] && u[5] == b[5];
    RecombineMaskedBytes(timestamp);
  }

  lemma RecombineMaskedBytes(t: Long)
    ensures ((LowByte((t & TIMESTAMP_MASK_5) >> 40) as Long) << 40)
      | ((LowByte((t & TIMESTAMP_MASK_4) >> 32) as Long) << 32)
      | ((LowByte((t & TIMESTAMP_MASK_3) >> 24) as Long) << 24)
      | ((LowByte((t & TIMESTAMP_MASK_2) >> 16) as Long) << 16)
      | ((LowByte((t & TIMESTAMP_MASK_1) >> 8) as Long) << 8)
      | (LowByte((t & TIMESTAMP_MASK_0) >> 0) as Long) == t & Low48
  {
  }

  /** For a timestamp in 0..2^48-1 the getter returns the timestamp itself. */
  lemma TimeStampRoundTrip(timestamp: Long, randomness: seq<byte>)
    requires timestamp < 0x1_0000_0000_0000 && |randomness| == 10
    ensures FromTimestamp(timestamp, randomness).Success?
    ensures TimeStamp(FromTimestamp(timestamp, randomness).value) == timestamp
  {
  }

  lemma PrefixHorner(u: Ulid)
    ensures Value(ByteValues(u[..6]), 256) == ((((u[0] as int * 256 + u[1] as int) * 256 + u[2] as int)
      * 256 + u[3] as int) * 256 + u[4] as int) * 256 + u[5] as int
  {
    assert ByteValues(u[..1]) == [u[0] as int];
    ByteValuesSnoc(u, 1);
    ByteValuesSnoc(u, 2);
    ByteValuesSnoc(u, 3);
    ByteValuesSnoc(u, 4);
    ByteValuesSnoc(u, 5);
  }

  /** The getter determines the six timestamp bytes and nothing else. */
  lemma TimeStampDeterminesBytes(a: Ulid, b: Ulid)
    ensures TimeStamp(a) == TimeStamp(b) <==> a[..6] == b[..6]
  {
    if TimeStamp(a) == TimeStamp(b) {
      EqualTimeStampsEqualBytes(a, b);
    }
    if a[..6] == b[..6] {
      EqualBytesEqualTimeStamps(a, b);
    }
  }

  lemma EqualTimeStampsEqualBytes(a: Ulid, b: Ulid)
    requires TimeStamp(a) == TimeStamp(b)
    ensures a[..6] == b[..6]
  {
    var t := TimeStamp(a);
    assert Value(ByteValues(a[..6]), 256) == t as int == Value(ByteValues(b[..6]), 256);
    ValueDeterminesBytes(a[..6], b[..6]);
  }

  lemma EqualBytesEqualTimeStamps(a: Ulid, b: Ulid)
    requires a[..6] == b[..6]
    ensures TimeStamp(a) == TimeStamp(b)
  {
    assert a[0] == b[0] && a[1] == b[1] && a[2] == b[2] && a[3] == b[3] && a[4] == b[4] && a[5] == b[5];
  }

  /** Byte strings of one length with one value are equal. */
  lemma ValueDeterminesBytes(x: seq<byte>, y: seq<byte>)
    requires |x| == |y| && Value(ByteValues(x), 256) == Value(ByteValues(y), 256)
    ensures x == y
  {
    LexCompareIsValueOrder(ByteValues(x), ByteValues(y), 256);
    LexCompareZero(ByteValues(x), ByteValues(y));
    assert forall i | 0 <= i < |x| :: x[i] as int == ByteValues(x)[i] == ByteValues(y)[i] == y[i] as int;
  }

  lemma BytesHorner(b0: byte, b1: byte, b2: byte, b3: byte, b4: byte, b5: byte)
    ensures (((b0 as Long) << 40) | ((b1 as Long) << 32) | ((b2 as Long) << 24)
        | ((b3 as Long) << 16) | ((b4 as Long) << 8) | (b5 as Long)) as int
      == ((((b0 as int * 256 + b1 as int) * 256 + b2 as int) * 256 + b3 as int) * 256 + b4 as int) * 256 + b5 as int
    ensures ((b0 as Long) << 40) | ((b1 as Long) << 32) | ((b2 as Long) << 24)
        | ((b3 as Long) << 16) | ((b4 as Long) << 8) | (b5 as Long) < 0x1_0000_0000_0000
  {
    ShiftsAsSteps(b0, b1, b2, b3, b4, b5);
    var h1 := b0 as Long;
    ShiftOr8(h1, b1);
    var h2 := (h1 << 8) | (b1 as Long);
    ShiftOr8(h2, b2);
    var h3 := (h2 << 8) | (b2 as Long);
    ShiftOr8(h3, b3);
    var h4 := (h3 << 8) | (b3 as Long);
    ShiftOr8(h4, b4);
    var h5 := (h4 << 8) | (b4 as Long);
    ShiftOr8(h5, b5);
  }

  lemma ShiftsAsSteps(b0: byte, b1: byte, b2: byte, b3: byte, b4: byte, b5: byte)
    ensures ((b0 as Long) << 40) | ((b1 as Long) << 32) | ((b2 as Long) << 24)
        | ((b3 as Long) << 16) | ((b4 as Long) << 8) | (b5 as Long)
      == ((((((((((b0 as Long) << 8) | (b1 as Long)) << 8) | (b2 as Long)) << 8)
        | (b3 as Long)) << 8) | (b4 as Long)) << 8) | (b5 as Long)
  {
  }

  /** Shifting one byte into a value below 2^40 multiplies it by 256 and adds
      the byte. */
  lemma ShiftOr8(h: Long, b: byte)
    requires h < 0x100_0000_0000
    ensures ((h << 8) | (b as Long)) as int == h as int * 256 + b as int
    ensures (h << 8) | (b as Long) < 0x1_0000_0000_0000
    ensures h < 0x100 ==> (h << 8) | (b as Long) < 0x1_0000
    ensures h < 0x1_0000 ==> (h << 8) | (b as Long) < 0x100_0000
    ensures h < 0x100_0000 ==> (h << 8) | (b as Long) < 0x1_0000_0000
    ensures h < 0x1_0000_0000 ==> (h << 8) | (b as Long) < 0x100_0000_0000
  {
  }

  lemma ByteValuesSnoc(u: Ulid, k: nat)
    requires k < 16
    ensures Value(ByteValues(u[..k + 1]), 256) == Value(ByteValues(u[..k]), 256) * 256 + u[k] as int
  {
    assert ByteValues(u[..k + 1]) == ByteValues(u[..k]) + [u[k] as int];
    ValueConcat(ByteValues(u[..k]), [u[k] as int], 256);
  }

  /** The mask constants select byte k of a long, counting from the least
      significant end. */
  lemma MasksSelectBytes(t: Long)
    ensures TIMESTAMP_MASK_0 == 0xFF << 0 && TIMESTAMP_MASK_1 == 0xFF << 8
    ensures TIMESTAMP_MASK_2 == 0xFF << 16 && TIMESTAMP_MASK_3 == 0xFF << 24
    ensures TIMESTAMP_MASK_4 == 0xFF << 32 && TIMESTAMP_MASK_5 == 0xFF << 40
    ensures (t & TIMESTAMP_MASK_5) >> 40 == (t >> 40) & 0xFF
    ensures (t & TIMESTAMP_MASK_4) >> 32 == (t >> 32) & 0xFF
    ensures (t & TIMESTAMP_MASK_3) >> 24 == (t >> 24) & 0xFF
    ensures (t & TIMESTAMP_MASK_2) >> 16 == (t >> 16) & 0xFF
    ensures (t & TIMESTAMP_MASK_1) >> 8 == (t >> 8) & 0xFF
  {
  }

  /** Binary round trips: decoding what was written gives the identifier back,
      and writing a decoded buffer gives the buffer back. */
  lemma BinaryRoundTrip(u: Ulid, data: seq<byte>)
    ensures FromData(u) == Success(u)
    ensures |data| == 16 ==> FromData(data).Success? && FromData(data).value == data
  {
  }

  /** An earlier timestamp sorts first, whatever the randomness. The getter is
      below 2^48, so the integer value of its bit pattern is the long's value. */
  lemma EarlierTimeStampSortsFirst(a: Ulid, b: Ulid)
    requires TimeStamp(a) as int < TimeStamp(b) as int
    ensures CompareBytes(a, b) == -1
  {
    LargerPrefixSortsLater(a, b);
  }

  lemma {:induction false} LargerPrefixSortsLater(a: Ulid, b: Ulid)
    requires Value(ByteValues(a[..6]), 256) < Value(ByteValues(b[..6]), 256)
    ensures CompareBytes(a, b) == -1
  {
    var pa, pb := ByteValues(a[..6]), ByteValues(b[..6]);
    LexCompareIsValueOrder(pa, pb, 256);
    assert ByteValues(a) == pa + ByteValues(a[6..]);
    assert ByteValues(b) == pb + ByteValues(b[6..]);
    LexCompareDecidedByPrefix(pa, pb, ByteValues(a[6..]), ByteValues(b[6..]));
  }

  /** Under one timestamp the randomness alone decides the order. */
  lemma {:induction false} SameTimestampOrderedByRandomness(a: Ulid, b: Ulid)
    requires a[..6] == b[..6]
    ensures CompareBytes(a, b) == LexCompare(ByteValues(a[6..]), ByteValues(b[6..]))
  {
    var p := ByteValues(a[..6]);
    assert ByteValues(a) == p + ByteValues(a[6..]);
    assert ByteValues(b) == p + ByteValues(b[6..]);
    LexCompareCommonPrefix(p, ByteValues(a[6..]), ByteValues(b[6..]));
  }

  /** The byte order is a total order: zero exactly on equal identifiers, and
      antisymmetric. */
  lemma CompareBytesTotal(a: Ulid, b: Ulid)
    ensures CompareBytes(a, b) == 0 <==> a == b
    ensures CompareBytes(b, a) == -CompareBytes(a, b)
  {
    LexCompareZero(ByteValues(a), ByteValues(b));
    LexCompareAntisymmetric(ByteValues(a), ByteValues(b));
    if ByteValues(a) == ByteValues(b) {
      assert forall i | 0 <= i < 16 :: a[i] as int == b[i] as int;
    }
  }
}
