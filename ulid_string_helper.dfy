/** CSharp.Ulid/UlidStringHelper.cs: the 26 base-32 indices of a ULID by
    position, and the ULID packed back from 26 indices. */
module UlidStringHelper {
  import opened Wrappers
  import opened UlidBinary
  import opened UlidText
  import opened UlidTextLaws
  import opened UlidOrder

  /** `this[int index]`: the 5-bit group at a position of the text form; any
      position outside 0..25 throws. */
  function Indexer(value: Ulid, index: int): (r: Result<bv32>)
    ensures r.Success? <==> 0 <= index < VALID_ULID_STRING_LENGTH
    ensures r.Failure? ==> r.error == ArgumentOutOfRangeError("index")
    ensures r.Success? ==> r.value < 32 && r.value as int == Digits(value)[index]
    ensures r.Success? && index == 0 ==> r.value < 8
    ensures r.Success? ==> ToString(value)[index] == CrockfordsBase32[r.value as int]
  {
    if 0 <= index < VALID_ULID_STRING_LENGTH then
      IndexIsDigit(value, index);
      Success(Index(value, index))
    else
      Failure(ArgumentOutOfRangeError("index"))
  }

  /** `FromString(ReadOnlySpan<int> index)`: the 16 fields packed from the first
      26 entries; a shorter span fails on its first missing entry. */
  function FromString(index: seq<bv32>): (r: Result<Ulid>)
    ensures r.Success? <==> |index| >= VALID_ULID_STRING_LENGTH
    ensures r.Failure? ==> r.error == IndexOutOfRangeError
    ensures r.Success? && ValidIndices(index[..26]) ==> EncodedIndices(r.value) == index[..26]
  {
    if |index| < VALID_ULID_STRING_LENGTH then Failure(IndexOutOfRangeError)
    else
      var first := index[..26];
      assert ValidIndices(first) ==> EncodedIndices(PackIndices(first)) == first by {
        if ValidIndices(first) {
          EncodePacked(first);
        }
      }
      Success(PackIndices(first))
  }

  /** The indexer's 26 values, in order. */
  function IndexerValues(value: Ulid): (r: seq<bv32>)
    ensures |r| == 26 && forall k :: 0 <= k < 26 ==> Indexer(value, k) == Success(r[k])
  {
    seq(26, k requires 0 <= k < 26 => Indexer(value, k).value)
  }

  /** Packing the indexer's values gives the ULID back. */
  lemma FromStringOfIndexer(value: Ulid)
    ensures FromString(IndexerValues(value)) == Success(value)
  {
    var v := IndexerValues(value);
    assert v == EncodedIndices(value);
    assert v[..26] == v;
    PackEncoded(value);
  }

  /** Indexing a packed ULID gives back every index it was packed from, when the
      indices are 5-bit groups and the first a 3-bit one. */
  lemma IndexerOfFromString(index: seq<bv32>)
    requires ValidIndices(index)
    ensures FromString(index).Success?
    ensures IndexerValues(FromString(index).value) == index
  {
    assert index[..26] == index;
    var u := FromString(index).value;
    assert IndexerValues(u) == EncodedIndices(u);
  }

  /** Entries 0..9 read only the timestamp bytes, entries 10..25 only the
      randomness bytes. */
  lemma IndexerLocality(a: Ulid, b: Ulid, index: int)
    requires 0 <= index < 10 ==> a[..6] == b[..6]
    requires 10 <= index < 26 ==> a[6..] == b[6..]
    ensures Indexer(a, index) == Indexer(b, index)
  {
    if 0 <= index < 26 {
      IndexLocality(a, b, index);
    }
  }

  /** The packing block of `TryParse` is this helper applied to the parsed
      indices. */
  lemma ParseIsFromString(s: string)
    requires Parse(Some(s)).Some?
    ensures FromString(IndicesOf(ToUpperInvariant(s))) == Success(Parse(Some(s)).value)
  {
    var index := IndicesOf(ToUpperInvariant(s));
    assert index[..26] == index;
  }
}
