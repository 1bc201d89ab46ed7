/** The order of ULIDs. `CompareTo` in Ulid.cs compares the two `ToString`
    outputs; this module proves that this is the order of the 128-bit values,
    so that ULIDs sort by timestamp first (the ULID specification's
    "lexicographically sortable"). */
module UlidOrder {
  import opened Positional
  import opened UlidBinary
  import opened UlidText
  import opened Base32Bits

  /** Digit k (most significant first) of the 128-bit value in base 32, as
      integer arithmetic on the bytes: two digits from the first byte's low five
      bits and top three bits, then eight digits from each group of five bytes. */
  function Digit(u: Ulid, k: int): int
    requires 0 <= k < 26
  {
    match k
    case 0 => u[0] as int / 32
    case 1 => u[0] as int % 32
    case 2 => u[1] as int / 8
    case 3 => (u[1] as int % 8) * 4 + u[2] as int / 64
    case 4 => (u[2] as int / 2) % 32
    case 5 => (u[2] as int % 2) * 16 + u[3] as int / 16
    case 6 => (u[3] as int % 16) * 2 + u[4] as int / 128
    case 7 => (u[4] as int / 4) % 32
    case 8 => (u[4] as int % 4) * 8 + u[5] as int / 32
    case 9 => u[5] as int % 32
    case 10 => u[6] as int / 8
    case 11 => (u[6] as int % 8) * 4 + u[7] as int / 64
    case 12 => (u[7] as int / 2) % 32
    case 13 => (u[7] as int % 2) * 16 + u[8] as int / 16
    case 14 => (u[8] as int % 16) * 2 + u[9] as int / 128
    case 15 => (u[9] as int / 4) % 32
    case 16 => (u[9] as int % 4) * 8 + u[10] as int / 32
    case 17 => u[10] as int % 32
    case 18 => u[11] as int / 8
    case 19 => (u[11] as int % 8) * 4 + u[12] as int / 64
    case 20 => (u[12] as int / 2) % 32
    case 21 => (u[12] as int % 2) * 16 + u[13] as int / 16
    case 22 => (u[13] as int % 16) * 2 + u[14] as int / 128
    case 23 => (u[14] as int / 4) % 32
    case 24 => (u[14] as int % 4) * 8 + u[15] as int / 32
    case 25 => u[15] as int % 32
  }

  // The index `ToString` computes at each position is that digit; one lemma per
  // position keeps each proof to the bytes involved.

  lemma IndexIsDigit0(u: Ulid)
    ensures Index(u, 0) as int == Digit(u, 0)
  {
    FirstValue0(u[0]);
  }

  lemma IndexIsDigit1(u: Ulid)
    ensures Index(u, 1) as int == Digit(u, 1)
  {
    FirstValue1(u[0]);
  }

  lemma IndexIsDigit2(u: Ulid)
    ensures Index(u, 2) as int == Digit(u, 2)
  {
    Value0(u[1]);
  }

  lemma IndexIsDigit3(u: Ulid)
    ensures Index(u, 3) as int == Digit(u, 3)
  {
    Value1(u[1], u[2]);
  }

  lemma IndexIsDigit4(u: Ulid)
    ensures Index(u, 4) as int == Digit(u, 4)
  {
    Value2(u[2]);
  }

  lemma IndexIsDigit5(u: Ulid)
    ensures Index(u, 5) as int == Digit(u, 5)
  {
    Value3(u[2], u[3]);
  }

  lemma IndexIsDigit6(u: Ulid)
    ensures Index(u, 6) as int == Digit(u, 6)
  {
    Value4(u[3], u[4]);
  }

  lemma IndexIsDigit7(u: Ulid)
    ensures Index(u, 7) as int == Digit(u, 7)
  {
    Value5(u[4]);
  }

  lemma IndexIsDigit8(u: Ulid)
    ensures Index(u, 8) as int == Digit(u, 8)
  {
    Value6(u[4], u[5]);
  }

  lemma IndexIsDigit9(u: Ulid)
    ensures Index(u, 9) as int == Digit(u, 9)
  {
    FirstValue1(u[5]);
  }

  lemma IndexIsDigit10(u: Ulid)
    ensures Index(u, 10) as int == Digit(u, 10)
  {
    Value0(u[6]);
  }

  lemma IndexIsDigit11(u: Ulid)
    ensures Index(u, 11) as int == Digit(u, 11)
  {
    Value1(u[6], u[7]);
  }

  lemma IndexIsDigit12(u: Ulid)
    ensures Index(u, 12) as int == Digit(u, 12)
  {
    Value2(u[7]);
  }

  lemma IndexIsDigit13(u: Ulid)
    ensures Index(u, 13) as int == Digit(u, 13)
  {
    Value3(u[7], u[8]);
  }

  lemma IndexIsDigit14(u: Ulid)
    ensures Index(u, 14) as int == Digit(u, 14)
  {
    Value4(u[8], u[9]);
  }

  lemma IndexIsDigit15(u: Ulid)
    ensures Index(u, 15) as int == Digit(u, 15)
  {
    Value5(u[9]);
  }

  lemma IndexIsDigit16(u: Ulid)
    ensures Index(u, 16) as int == Digit(u, 16)
  {
    Value6(u[9], u[10]);
  }

  lemma IndexIsDigit17(u: Ulid)
    ensures Index(u, 17) as int == Digit(u, 17)
  {
    FirstValue1(u[10]);
  }

  lemma IndexIsDigit18(u: Ulid)
    ensures Index(u, 18) as int == Digit(u, 18)
  {
    Value0(u[11]);
  }

  lemma IndexIsDigit19(u: Ulid)
    ensures Index(u, 19) as int == Digit(u, 19)
  {
    Value1(u[11], u[12]);
  }

  lemma IndexIsDigit20(u: Ulid)
    ensures Index(u, 20) as int == Digit(u, 20)
  {
    Value2(u[12]);
  }

  lemma IndexIsDigit21(u: Ulid)
    ensures Index(u, 21) as int == Digit(u, 21)
  {
    Value3(u[12], u[13]);
  }

  lemma IndexIsDigit22(u: Ulid)
    ensures Index(u, 22) as int == Digit(u, 22)
  {
    Value4(u[13], u[14]);
  }

  lemma IndexIsDigit23(u: Ulid)
    ensures Index(u, 23) as int == Digit(u, 23)
  {
    Value5(u[14]);
  }

  lemma IndexIsDigit24(u: Ulid)
    ensures Index(u, 24) as int == Digit(u, 24)
  {
    Value6(u[14], u[15]);
  }

  lemma IndexIsDigit25(u: Ulid)
    ensures Index(u, 25) as int == Digit(u, 25)
  {
    FirstValue1(u[15]);
  }

  /** Every index `ToString` looks up is the base-32 digit at its position. */
  lemma IndexIsDigit(u: Ulid, k: int)
    requires 0 <= k < 26
    ensures Index(u, k) as int == Digit(u, k)
  {
    if k == 0 {
      IndexIsDigit0(u);
    } else if k == 1 {
      IndexIsDigit1(u);
    } else if k == 2 {
      IndexIsDigit2(u);
    } else if k == 3 {
      IndexIsDigit3(u);
    } else if k == 4 {
      IndexIsDigit4(u);
    } else if k == 5 {
      IndexIsDigit5(u);
    } else if k == 6 {
      IndexIsDigit6(u);
    } else if k == 7 {
      IndexIsDigit7(u);
    } else if k == 8 {
      IndexIsDigit8(u);
    } else if k == 9 {
      IndexIsDigit9(u);
    } else if k == 10 {
      IndexIsDigit10(u);
    } else if k == 11 {
      IndexIsDigit11(u);
    } else if k == 12 {
      IndexIsDigit12(u);
    } else if k == 13 {
      IndexIsDigit13(u);
    } else if k == 14 {
      IndexIsDigit14(u);
    } else if k == 15 {
      IndexIsDigit15(u);
    } else if k == 16 {
      IndexIsDigit16(u);
    } else if k == 17 {
      IndexIsDigit17(u);
    } else if k == 18 {
      IndexIsDigit18(u);
    } else if k == 19 {
      IndexIsDigit19(u);
    } else if k == 20 {
      IndexIsDigit20(u);
    } else if k == 21 {
      IndexIsDigit21(u);
    } else if k == 22 {
      IndexIsDigit22(u);
    } else if k == 23 {
      IndexIsDigit23(u);
    } else if k == 24 {
      IndexIsDigit24(u);
    } else {
      IndexIsDigit25(u);
    }
  }

  lemma ValueCons(t: seq<int>, base: nat)
    requires |t| > 0
    ensures Value(t, base) == t[0] * Pow(base, |t| - 1) + Value(t[1..], base)
  {
  }

  lemma ValueOfFiveBytes(t: seq<int>)
    requires |t| == 5
    ensures Value(t, 256) == t[0] * 0x1_0000_0000 + t[1] * 0x100_0000 + t[2] * 0x1_0000 + t[3] * 0x100 + t[4]
  {
    assert Pow(256, 4) == 0x1_0000_0000;
    ValueCons(t, 256);
    ValueCons(t[1..], 256);
    assert t[1..][1..] == t[2..];
    ValueCons(t[2..], 256);
    assert t[2..][1..] == t[3..];
    ValueCons(t[3..], 256);
    assert t[3..][1..] == t[4..];
    ValueCons(t[4..], 256);
  }

  lemma ValueOfFourDigits(t: seq<int>)
    requires |t| == 4
    ensures Value(t, 32) == t[0] * 0x8000 + t[1] * 0x400 + t[2] * 0x20 + t[3]
  {
    assert Pow(32, 3) == 0x8000;
    ValueCons(t, 32);
    ValueCons(t[1..], 32);
    assert t[1..][1..] == t[2..];
    ValueCons(t[2..], 32);
    assert t[2..][1..] == t[3..];
    ValueCons(t[3..], 32);
  }

  lemma ValueOfEightDigits(t: seq<int>)
    requires |t| == 8
    ensures Value(t, 32) == t[0] * 0x8_0000_0000 + t[1] * 0x4000_0000 + t[2] * 0x200_0000 + t[3] * 0x10_0000
                          + t[4] * 0x8000 + t[5] * 0x400 + t[6] * 0x20 + t[7]
  {
    assert t == t[..4] + t[4..];
    ValueConcat(t[..4], t[4..], 32);
    assert Pow(32, 4) == 0x10_0000;
    ValueOfFourDigits(t[..4]);
    ValueOfFourDigits(t[4..]);
  }

  /** Five bytes and the eight 5-bit groups cut from them have the same value. */
  lemma GroupArithmetic(x0: int, x1: int, x2: int, x3: int, x4: int)
    requires 0 <= x0 < 256 && 0 <= x1 < 256 && 0 <= x2 < 256 && 0 <= x3 < 256 && 0 <= x4 < 256
    ensures x0 * 0x1_0000_0000 + x1 * 0x100_0000 + x2 * 0x1_0000 + x3 * 0x100 + x4
         == (x0 / 8) * 0x8_0000_0000 + ((x0 % 8) * 4 + x1 / 64) * 0x4000_0000
          + ((x1 / 2) % 32) * 0x200_0000 + ((x1 % 2) * 16 + x2 / 16) * 0x10_0000
          + ((x2 % 16) * 2 + x3 / 128) * 0x8000 + ((x3 / 4) % 32) * 0x400
          + ((x3 % 4) * 8 + x4 / 32) * 0x20 + x4 % 32
  {
    assert x1 == 64 * (x1 / 64) + 2 * ((x1 / 2) % 32) + x1 % 2;
    assert x3 == 128 * (x3 / 128) + 4 * ((x3 / 4) % 32) + x3 % 4;
  }

  /** The 26 base-32 digits of the ULID. */
  function Digits(u: Ulid): (r: seq<int>)
    ensures |r| == 26 && forall k :: 0 <= k < 26 ==> r[k] == Digit(u, k)
  {
    seq(26, k requires 0 <= k < 26 => Digit(u, k))
  }

  /** The digits are base-32 digits. */
  lemma DigitsAreDigits(u: Ulid)
    ensures IsDigits(Digits(u), 32)
  {
    forall k | 0 <= k < 26
      ensures 0 <= Digits(u)[k] < 32
    {
      IndexIsDigit(u, k);
      SmallBits(EncodedIndices(u)[k]);
    }
  }

  lemma FirstByteValue(u: Ulid)
    ensures Value(ByteValues(u)[..1], 256) == Value(Digits(u)[..2], 32)
  {
    var d := Digits(u)[..2];
    ValueCons(d, 32);
    ValueCons(d[1..], 32);
    ValueCons(ByteValues(u)[..1], 256);
  }

  lemma TimestampGroupValue(u: Ulid)
    ensures Value(ByteValues(u)[1..6], 256) == Value(Digits(u)[2..10], 32)
  {
    ValueOfFiveBytes(ByteValues(u)[1..6]);
    ValueOfEightDigits(Digits(u)[2..10]);
    GroupArithmetic(u[1] as int, u[2] as int, u[3] as int, u[4] as int, u[5] as int);
  }

  lemma MiddleGroupValue(u: Ulid)
    ensures Value(ByteValues(u)[6..11], 256) == Value(Digits(u)[10..18], 32)
  {
    ValueOfFiveBytes(ByteValues(u)[6..11]);
    ValueOfEightDigits(Digits(u)[10..18]);
    GroupArithmetic(u[6] as int, u[7] as int, u[8] as int, u[9] as int, u[10] as int);
  }

  lemma LastGroupValue(u: Ulid)
    ensures Value(ByteValues(u)[11..16], 256) == Value(Digits(u)[18..26], 32)
  {
    ValueOfFiveBytes(ByteValues(u)[11..16]);
    ValueOfEightDigits(Digits(u)[18..26]);
    GroupArithmetic(u[11] as int, u[12] as int, u[13] as int, u[14] as int, u[15] as int);
  }

  /** The value of four pieces, the last three of which have weight 2^40 each. */
  lemma ValueOfPieces(s: seq<int>, base: nat, i: nat, j: nat, k: nat)
    requires 0 < i <= j <= k <= |s| && |s| - k == k - j == j - i
    requires Pow(base, |s| - k) == 0x100_0000_0000
    ensures Value(s, base) == ((Value(s[..i], base) * 0x100_0000_0000 + Value(s[i..j], base))
      * 0x100_0000_0000 + Value(s[j..k], base)) * 0x100_0000_0000 + Value(s[k..], base)
  {
    ValueSplit(s, k, base);
    ValueSplit(s[..k], j, base);
    assert s[..k][..j] == s[..j] && s[..k][j..] == s[j..k];
    ValueSplit(s[..j], i, base);
    assert s[..j][..i] == s[..i] && s[..j][i..] == s[i..j];
  }

  /** The 26 digits denote the same number as the 16 bytes. */
  lemma DigitsDenoteBytes(u: Ulid)
    ensures Value(Digits(u), 32) == Value(ByteValues(u), 256)
  {
    assert Pow(256, 5) == 0x100_0000_0000;
    assert Pow(32, 8) == 0x100_0000_0000;
    var s, d := ByteValues(u), Digits(u);
    ValueOfPieces(s, 256, 1, 6, 11);
    ValueOfPieces(d, 32, 2, 10, 18);
    FirstByteValue(u);
    TimestampGroupValue(u);
    MiddleGroupValue(u);
    LastGroupValue(u);
    assert s[11..] == s[11..16] && d[18..] == d[18..26];
  }

  /** Position k of the text is the alphabet symbol of digit k. */
  lemma CodeOfDigit(u: Ulid, k: int)
    requires 0 <= k < 26
    ensures 0 <= Digits(u)[k] < 32
    ensures Codes(ToString(u))[k] == CrockfordsBase32[Digits(u)[k]] as int
  {
    IndexIsDigit(u, k);
    SmallBits(EncodedIndices(u)[k]);
  }

  /** The symbols for two digits compare as the digits do. */
  lemma SymbolOrder(x: int, y: int)
    requires 0 <= x < 32 && 0 <= y < 32
    ensures Sign(CrockfordsBase32[x] as int - CrockfordsBase32[y] as int) == Sign(x - y)
  {
    if x < y {
      AlphabetOrdered(x, y);
    } else if y < x {
      AlphabetOrdered(y, x);
    }
  }

  lemma SymbolsCompareAsDigits(a: Ulid, b: Ulid, i: int)
    requires 0 <= i < 26
    ensures Sign(Codes(ToString(a))[i] - Codes(ToString(b))[i]) == Sign(Digits(a)[i] - Digits(b)[i])
  {
    CodeOfDigit(a, i);
    CodeOfDigit(b, i);
    SymbolOrder(Digits(a)[i], Digits(b)[i]);
  }

  /** Comparing the texts symbol by symbol is comparing the digits, because
      the alphabet is in ascending order. */
  lemma TextOrderIsDigitOrder(a: Ulid, b: Ulid)
    ensures CompareTo(a, b) == LexCompare(Digits(a), Digits(b))
  {
    var da, db := Digits(a), Digits(b);
    forall i | 0 <= i < 26
      ensures Sign(Codes(ToString(a))[i] - Codes(ToString(b))[i]) == Sign(da[i] - db[i])
    {
      SymbolsCompareAsDigits(a, b, i);
    }
    LexCompareSameOrder(da, db, Codes(ToString(a)), Codes(ToString(b)));
  }

  /** Comparing the digits is comparing the bytes: both compare the number. */
  lemma DigitOrderIsByteOrder(a: Ulid, b: Ulid)
    ensures LexCompare(Digits(a), Digits(b)) == CompareBytes(a, b)
  {
    DigitsAreDigits(a);
    DigitsAreDigits(b);
    LexCompareIsValueOrder(Digits(a), Digits(b), 32);
    LexCompareIsValueOrder(ByteValues(a), ByteValues(b), 256);
    DigitsDenoteBytes(a);
    DigitsDenoteBytes(b);
  }

  /** `CompareTo` orders ULIDs as the 128-bit numbers they are, which is the
      order of their bytes. */
  lemma CompareToIsByteOrder(a: Ulid, b: Ulid)
    ensures CompareTo(a, b) == CompareBytes(a, b)
  {
    TextOrderIsDigitOrder(a, b);
    DigitOrderIsByteOrder(a, b);
  }

  /** `CompareTo` is zero exactly when `Equals` holds, and swapping the
      operands negates it. */
  lemma CompareToConsistentWithEquals(a: Ulid, b: Ulid)
    ensures CompareTo(a, b) == 0 <==> Equals(a, b)
    ensures CompareTo(b, a) == -CompareTo(a, b)
  {
    CompareToIsByteOrder(a, b);
    CompareToIsByteOrder(b, a);
    CompareBytesTotal(a, b);
  }

  /** `CompareTo` is transitive. */
  lemma CompareToTransitive(a: Ulid, b: Ulid, c: Ulid)
    requires CompareTo(a, b) < 0 && CompareTo(b, c) < 0
    ensures CompareTo(a, c) < 0
  {
    CompareToIsByteOrder(a, b);
    CompareToIsByteOrder(b, c);
    CompareToIsByteOrder(a, c);
    CompareBytesIsNumberOrder(a, b);
    CompareBytesIsNumberOrder(b, c);
    CompareBytesIsNumberOrder(a, c);
  }

  /** ULIDs sort by timestamp first: an earlier TimeStamp compares lower,
      whatever the randomness. */
  lemma CompareToFollowsTimeStamp(a: Ulid, b: Ulid)
    requires TimeStamp(a) as int < TimeStamp(b) as int
    ensures CompareTo(a, b) < 0 && CompareTo(b, a) > 0
  {
    CompareToIsByteOrder(a, b);
    EarlierTimeStampSortsFirst(a, b);
    CompareToConsistentWithEquals(a, b);
  }

  /** Under one timestamp the randomness bytes decide `CompareTo`. */
  lemma CompareToUnderOneTimeStamp(a: Ulid, b: Ulid)
    requires a[..6] == b[..6]
    ensures CompareTo(a, b) == LexCompare(ByteValues(a[6..]), ByteValues(b[6..]))
  {
    CompareToIsByteOrder(a, b);
    SameTimestampOrderedByRandomness(a, b);
  }
}
