/** CSharp.Ulid/UlidTimestampHelper.cs: the six timestamp bytes, taken from a
    long or from a span, and a ULID made from them and ten randomness bytes. */
module UlidTimestampHelper {
  import opened Wrappers
  import opened Positional
  import opened UlidBinary

  /** The helper's TimeStamp_0..TimeStamp_5, most significant first. */
  type TimestampHelper = s: seq<byte> | |s| == 6 witness [0, 0, 0, 0, 0, 0]

  /** `UlidTimestampHelper(long timeStamp)`: the low six bytes of the long,
      selected with the same masks as `Ulid(long, byte[])`. */
  function FromLong(timeStamp: Long): (h: TimestampHelper)
    ensures h[0] == LowByte(timeStamp >> 40) && h[1] == LowByte(timeStamp >> 32)
    ensures h[2] == LowByte(timeStamp >> 24) && h[3] == LowByte(timeStamp >> 16)
    ensures h[4] == LowByte(timeStamp >> 8) && h[5] == LowByte(timeStamp)
  {
    MasksSelectBytes(timeStamp);
    TimestampBytes(timeStamp)
  }

  /** `UlidTimestampHelper(ReadOnlySpan<byte> timestamp)`: exactly six bytes. */
  function FromSpan(timestamp: seq<byte>): (r: Result<TimestampHelper>)
    ensures r.Success? <==> |timestamp| == 6
    ensures r.Failure? ==> r.error == ArgumentError("timestamp")
    ensures r.Success? ==> r.value == timestamp
  {
    if |timestamp| != 6 then Failure(ArgumentError("timestamp"))
    else Success(timestamp)
  }

  /** `Create(ReadOnlySpan<byte> randomness)`: the six timestamp bytes followed by
      the first ten randomness bytes; a shorter span fails on its first missing
      entry and extra entries are ignored. */
  function Create(h: TimestampHelper, randomness: seq<byte>): (r: Result<Ulid>)
    ensures r.Success? <==> |randomness| >= 10
    ensures r.Failure? ==> r.error == IndexOutOfRangeError
    ensures r.Success? ==> r.value[..6] == h && r.value[6..] == randomness[..10]
  {
    if |randomness| < 10 then Failure(IndexOutOfRangeError)
    else Success(h + randomness[..10])
  }

  /** From a long, the helper builds what `Ulid(long, byte[])` builds, and the
      getter reads back the long's low 48 bits. */
  lemma CreateFromLong(timeStamp: Long, randomness: seq<byte>)
    requires |randomness| == 10
    ensures Create(FromLong(timeStamp), randomness) == FromTimestamp(timeStamp, randomness)
    ensures TimeStamp(Create(FromLong(timeStamp), randomness).value) == timeStamp & Low48
  {
    var u := Create(FromLong(timeStamp), randomness).value;
    assert u == FromTimestamp(timeStamp, randomness).value;
  }

  /** From a span, the helper builds what `Ulid(byte[], byte[])` builds. */
  lemma CreateFromSpan(timestamp: seq<byte>, randomness: seq<byte>)
    requires |timestamp| == 6 && |randomness| == 10
    ensures FromSpan(timestamp).Success?
    ensures Create(FromSpan(timestamp).value, randomness) == FromParts(timestamp, randomness)
  {
    var u := Create(FromSpan(timestamp).value, randomness).value;
    assert u == FromParts(timestamp, randomness).value;
  }

  /** The timestamp the helper's bytes spell is what the getter returns. */
  lemma CreatedTimeStamp(h: TimestampHelper, randomness: seq<byte>)
    requires |randomness| >= 10
    ensures TimeStamp(Create(h, randomness).value) as int == Value(ByteValues(h), 256)
  {
  }
}
