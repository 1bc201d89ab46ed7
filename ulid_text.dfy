/** The text codec of CSharp.Ulid/Ulid.cs: ToString (26 Crockford Base32
    characters), TryParse, and CompareTo, which compares the two strings. */
module UlidText {
  import opened Wrappers
  import opened Positional
  import opened UlidBinary

  const VALID_ULID_STRING_LENGTH := 26

  /** Crockford's Base32 symbols, in ascending character order. */
  const CrockfordsBase32: string := "0123456789ABCDEFGHJKMNPQRSTVWXYZ"

  /** A byte promoted to C#'s 32-bit `int`, the width of every shift and mask below. */
  function AsInt32(b: byte): bv32 {
    b as bv32
  }

  /** The local `indexK` of `ToString` for K = k: a 5-bit group of the 128-bit
      value, most significant first; the first group holds only the top three
      bits of TimeStamp_0. */
  function Index(u: Ulid, k: int): (r: bv32)
    requires 0 <= k < 26
    ensures r < 32
    ensures k == 0 ==> r < 8
  {
    match k
    case 0 => (AsInt32(u[0]) & 224) >> 5
    case 1 => AsInt32(u[0]) & 31
    case 2 => (AsInt32(u[1]) & 248) >> 3
    case 3 => ((AsInt32(u[1]) & 7) << 2) | ((AsInt32(u[2]) & 192) >> 6)
    case 4 => (AsInt32(u[2]) & 62) >> 1
    case 5 => ((AsInt32(u[2]) & 1) << 4) | ((AsInt32(u[3]) & 240) >> 4)
    case 6 => ((AsInt32(u[3]) & 15) << 1) | ((AsInt32(u[4]) & 128) >> 7)
    case 7 => (AsInt32(u[4]) & 124) >> 2
    case 8 => ((AsInt32(u[4]) & 3) << 3) | ((AsInt32(u[5]) & 224) >> 5)
    case 9 => AsInt32(u[5]) & 31
    case 10 => (AsInt32(u[6]) & 248) >> 3
    case 11 => ((AsInt32(u[6]) & 7) << 2) | ((AsInt32(u[7]) & 192) >> 6)
    case 12 => (AsInt32(u[7]) & 62) >> 1
    case 13 => ((AsInt32(u[7]) & 1) << 4) | ((AsInt32(u[8]) & 240) >> 4)
    case 14 => ((AsInt32(u[8]) & 15) << 1) | ((AsInt32(u[9]) & 128) >> 7)
    case 15 => (AsInt32(u[9]) & 124) >> 2
    case 16 => ((AsInt32(u[9]) & 3) << 3) | ((AsInt32(u[10]) & 224) >> 5)
    case 17 => AsInt32(u[10]) & 31
    case 18 => (AsInt32(u[11]) & 248) >> 3
    case 19 => ((AsInt32(u[11]) & 7) << 2) | ((AsInt32(u[12]) & 192) >> 6)
    case 20 => (AsInt32(u[12]) & 62) >> 1
    case 21 => ((AsInt32(u[12]) & 1) << 4) | ((AsInt32(u[13]) & 240) >> 4)
    case 22 => ((AsInt32(u[13]) & 15) << 1) | ((AsInt32(u[14]) & 128) >> 7)
    case 23 => (AsInt32(u[14]) & 124) >> 2
    case 24 => ((AsInt32(u[14]) & 3) << 3) | ((AsInt32(u[15]) & 224) >> 5)
    case 25 => AsInt32(u[15]) & 31
  }

  /** index0..index25 of `ToString`, in order. */
  function EncodedIndices(u: Ulid): (r: seq<bv32>)
    ensures |r| == 26
    ensures forall k :: 0 <= k < 26 ==> r[k] == Index(u, k)
    ensures forall k :: 0 <= k < 26 ==> r[k] < 32
    ensures r[0] < 8
  {
    seq(26, k requires 0 <= k < 26 => Index(u, k))
  }

  /** `ToString()`: each index looked up in the alphabet. */
  function ToString(u: Ulid): (r: string)
    ensures |r| == VALID_ULID_STRING_LENGTH
    ensures forall k :: 0 <= k < |r| ==> r[k] in CrockfordsBase32
    ensures '0' <= r[0] <= '7'
  {
    var e := EncodedIndices(u);
    forall k | 0 <= k < 26 {
      SmallBits(e[k]);
    }
    AlphabetAscending();
    seq(26, k requires 0 <= k < 26 => CrockfordsBase32[e[k] as int])
  }

  /** `char.ToUpperInvariant` on the characters that matter here: ASCII letters. */
  function UpperInvariant(c: char): char {
    if 'a' <= c <= 'z' then (c as int - 32) as char else c
  }

  /** `string.ToUpperInvariant()`, character by character: every lower-case ASCII
      letter becomes its upper-case letter, every other character stays. */
  function ToUpperInvariant(s: string): (r: string)
    ensures |r| == |s|
    ensures forall i :: 0 <= i < |s| ==> r[i] == UpperInvariant(s[i])
    ensures forall i :: 0 <= i < |s| ==> !('a' <= r[i] <= 'z')
    ensures forall i :: 0 <= i < |s| && 'a' <= s[i] <= 'z' ==> r[i] as int == s[i] as int - 32
    ensures forall i :: 0 <= i < |s| && !('a' <= s[i] <= 'z') ==> r[i] == s[i]
  {
    seq(|s|, i requires 0 <= i < |s| => UpperInvariant(s[i]))
  }

  /** The inner search loop of `TryParse`: the first position of `c` in the
      alphabet at or after `from`. */
  function AlphabetSearch(c: char, from: nat): (r: Option<int>)
    requires from <= 32
    ensures r.Some? ==> from <= r.value < 32 && CrockfordsBase32[r.value] == c
    ensures r.Some? ==> forall w :: from <= w < r.value ==> CrockfordsBase32[w] != c
    ensures r.None? ==> forall w :: from <= w < 32 ==> CrockfordsBase32[w] != c
    decreases 32 - from
  {
    if from == 32 then None
    else if CrockfordsBase32[from] == c then Some(from)
    else AlphabetSearch(c, from + 1)
  }

  /** The value of one character: its position in the alphabet, if any. */
  function AlphabetIndex(c: char): (r: Option<int>)
    ensures r.Some? ==> 0 <= r.value < 32 && CrockfordsBase32[r.value] == c
  {
    AlphabetSearch(c, 0)
  }

  /** C#'s `>>` on an `int`: an arithmetic shift, which copies the sign bit. */
  function Sar(x: bv32, n: bv32): bv32
    requires n < 32
  {
    if x & 0x8000_0000 == 0 then x >> n else (x >> n) | !(0xFFFF_FFFF >> n)
  }

  /** The `(byte)` cast on an `int`: the low eight bits. */
  function ByteOf(x: bv32): byte {
    (x & 0xFF) as byte
  }

  /** Field j of the object initializer in `TryParse` (TimeStamp_0..5 for j < 6,
      Randomness_(j-6) after): a byte packed from the 26 indices. */
  function PackedByte(index: seq<bv32>, j: int): byte
    requires |index| >= 26 && 0 <= j < 16
  {
    match j
    case 0 => ByteOf((index[0] << 5) | index[1])
    case 1 => ByteOf((index[2] << 3) | Sar(index[3], 2))
    case 2 => ByteOf((index[3] << 6) | (index[4] << 1) | Sar(index[5], 4))
    case 3 => ByteOf((index[5] << 4) | Sar(index[6], 1))
    case 4 => ByteOf((index[6] << 7) | (index[7] << 2) | Sar(index[8], 3))
    case 5 => ByteOf((index[8] << 5) | index[9])
    case 6 => ByteOf((index[10] << 3) | Sar(index[11], 2))
    case 7 => ByteOf((index[11] << 6) | (index[12] << 1) | Sar(index[13], 4))
    case 8 => ByteOf((index[13] << 4) | Sar(index[14], 1))
    case 9 => ByteOf((index[14] << 7) | (index[15] << 2) | Sar(index[16], 3))
    case 10 => ByteOf((index[16] << 5) | index[17])
    case 11 => ByteOf((index[18] << 3) | Sar(index[19], 2))
    case 12 => ByteOf((index[19] << 6) | (index[20] << 1) | Sar(index[21], 4))
    case 13 => ByteOf((index[21] << 4) | Sar(index[22], 1))
    case 14 => ByteOf((index[22] << 7) | (index[23] << 2) | Sar(index[24], 3))
    case 15 => ByteOf((index[24] << 5) | index[25])
  }

  /** The packing block of `TryParse`: the 16 fields from the 26 indices, in
      storage order. Entries after the 26th are never read. */
  function PackIndices(index: seq<bv32>): (r: Ulid)
    requires |index| >= 26
    ensures forall j :: 0 <= j < 16 ==> r[j] == PackedByte(index, j)
    ensures forall j :: 0 <= j < 16 ==> r[j] == PackedByte(index[..26], j)
  {
    assert forall k :: 0 <= k < 26 ==> index[..26][k] == index[k];
    seq(16, j requires 0 <= j < 16 => PackedByte(index, j))
  }

  /** A digit value 0..31 as C#'s 32-bit `int`. */
  function Int32Of(d: int): (r: bv32)
    requires 0 <= d < 32
    ensures r < 32 && r as int == d
  {
    ByteOfSmall(d);
    (d as byte) as bv32
  }

  /** Every character of an (upper-cased) string is in the alphabet. */
  predicate AllInAlphabet(s: string) {
    forall i :: 0 <= i < |s| ==> AlphabetIndex(s[i]).Some?
  }

  /** The indices of a string all of whose characters are in the alphabet. */
  function IndicesOf(s: string): (r: seq<bv32>)
    requires AllInAlphabet(s)
    ensures |r| == |s|
    ensures forall i :: 0 <= i < |s| ==> r[i] < 32 && CrockfordsBase32[r[i] as int] == s[i]
  {
    seq(|s|, i requires 0 <= i < |s| => Int32Of(AlphabetIndex(s[i]).value))
  }

  /** What `TryParse` accepts and produces: nothing for a null input, a length
      other than 26, or a character outside the alphabet after upper-casing. */
  function Parse(input: Option<string>): (r: Option<Ulid>)
    ensures r.Some? <==> input.Some? && |input.value| == VALID_ULID_STRING_LENGTH
                         && AllInAlphabet(ToUpperInvariant(input.value))
  {
    if input.None? then None
    else if |input.value| != VALID_ULID_STRING_LENGTH then None
    else
      var upper := ToUpperInvariant(input.value);
      if AllInAlphabet(upper) then Some(PackIndices(IndicesOf(upper))) else None
  }

  /** `TryParse(string input, out Ulid ulid)`. A null string is `None`. On failure
      `ulid` is `default(Ulid)`. */
  method TryParse(input: Option<string>) returns (success: bool, ulid: Ulid)
    ensures success <==> Parse(input).Some?
    ensures ulid == if success then Parse(input).value else Empty
  {
    if input.None? {
      return false, Empty;
    }
    var s := input.value;
    if |s| != VALID_ULID_STRING_LENGTH {
      return false, Empty;
    }
    s := ToUpperInvariant(s);
    var index := new bv32[VALID_ULID_STRING_LENGTH];
    for i := 0 to VALID_ULID_STRING_LENGTH
      invariant forall j :: 0 <= j < i ==> AlphabetIndex(s[j]).Some? && index[j] == Int32Of(AlphabetIndex(s[j]).value)
    {
      var c := s[i];
      var found := false;
      for v := 0 to |CrockfordsBase32|
        invariant !found
        invariant AlphabetSearch(c, 0) == AlphabetSearch(c, v)
      {
        if CrockfordsBase32[v] == c {
          index[i] := Int32Of(v);
          found := true;
          break;
        }
      }
      if !found {
        assert AlphabetIndex(c).None?;
        return false, Empty;
      }
    }
    assert index[..] == IndicesOf(s);
    return true, PackIndices(index[..]);
  }

  /** The character codes of a string, for ordinal comparison. */
  function Codes(s: string): (r: seq<int>)
    ensures |r| == |s|
    ensures forall i :: 0 <= i < |s| ==> r[i] == s[i] as int
  {
    seq(|s|, i requires 0 <= i < |s| => s[i] as int)
  }

  /** `CompareTo(Ulid other)`: the two strings compared ordinally. The result is
      a sign, zero exactly when the two strings are equal. */
  function CompareTo(a: Ulid, b: Ulid): (r: int)
    ensures -1 <= r <= 1
    ensures r == 0 <==> ToString(a) == ToString(b)
  {
    var sa, sb := ToString(a), ToString(b);
    LexCompareZero(Codes(sa), Codes(sb));
    assert Codes(sa) == Codes(sb) ==> sa == sb by {
      if Codes(sa) == Codes(sb) {
        assert forall i | 0 <= i < 26 :: sa[i] as int == Codes(sa)[i] == Codes(sb)[i] == sb[i] as int;
      }
    }
    LexCompare(Codes(sa), Codes(sb))
  }

  // ---- Facts about the formulas ----

  lemma AlphabetAscending()
    ensures |CrockfordsBase32| == 32
    ensures forall i :: 0 <= i < 31 ==> CrockfordsBase32[i] < CrockfordsBase32[i + 1]
    ensures forall i :: 0 <= i < 32 ==> '0' <= CrockfordsBase32[i] <= 'Z'
    ensures forall i :: 0 <= i < 8 ==> CrockfordsBase32[i] <= '7'
    ensures forall i :: 8 <= i < 32 ==> CrockfordsBase32[i] > '7'
  {
  }

  /** A character has a value exactly when it is one of the 32 symbols. */
  lemma AlphabetIndexIsMembership(c: char)
    ensures AlphabetIndex(c).Some? <==> c in CrockfordsBase32
  {
  }

  /** Distinct positions of the alphabet hold ascending characters. */
  lemma {:induction false} AlphabetOrdered(i: int, j: int)
    requires 0 <= i < j < 32
    ensures CrockfordsBase32[i] < CrockfordsBase32[j]
    decreases j - i
  {
    AlphabetAscending();
    if i + 1 < j {
      AlphabetOrdered(i + 1, j);
    }
  }

  /** A 5-bit `int` and its integer value convert into each other. */
  lemma SmallBits(x: bv32)
    requires x < 32
    ensures 0 <= x as int < 32 && Int32Of(x as int) == x
  {
  }

  lemma ByteOfSmall(d: int)
    requires 0 <= d < 32
    ensures (d as byte) as int == d
  {
  }
}
