/** Laws of the text codec of Ulid.cs: ToString and TryParse undo each other,
    with the one exception that TryParse also accepts a first character above '7'. */
module UlidTextLaws {
  import opened Wrappers
  import opened UlidBinary
  import opened UlidText
  import opened Base32Bits

  /** 26 indices that name a ULID: 5-bit groups whose first has only three bits. */
  predicate ValidIndices(index: seq<bv32>) {
    |index| == 26 && index[0] < 8 && forall k :: 0 <= k < 26 ==> index[k] < 32
  }

  // ---- The bit formulas: packing and splitting undo each other ----
  // One lemma per byte and per index keeps each proof to the few bytes involved.

  lemma RepackByte0(u: Ulid)
    ensures PackedByte(EncodedIndices(u), 0) == u[0]
  {
    RepackFirst(u[0]);
  }

  lemma RepackByte1(u: Ulid)
    ensures PackedByte(EncodedIndices(u), 1) == u[1]
  {
    Repack0(u[1], u[2]);
  }

  lemma RepackByte2(u: Ulid)
    ensures PackedByte(EncodedIndices(u), 2) == u[2]
  {
    Repack1(u[1], u[2], u[3]);
  }

  lemma RepackByte3(u: Ulid)
    ensures PackedByte(EncodedIndices(u), 3) == u[3]
  {
    Repack2(u[2], u[3], u[4]);
  }

  lemma RepackByte4(u: Ulid)
    ensures PackedByte(EncodedIndices(u), 4) == u[4]
  {
    Repack3(u[3], u[4], u[5]);
  }

  lemma RepackByte5(u: Ulid)
    ensures PackedByte(EncodedIndices(u), 5) == u[5]
  {
    Repack4(u[4], u[5]);
  }

  lemma RepackByte6(u: Ulid)
    ensures PackedByte(EncodedIndices(u), 6) == u[6]
  {
    Repack0(u[6], u[7]);
  }

  lemma RepackByte7(u: Ulid)
    ensures PackedByte(EncodedIndices(u), 7) == u[7]
  {
    Repack1(u[6], u[7], u[8]);
  }

  lemma RepackByte8(u: Ulid)
    ensures PackedByte(EncodedIndices(u), 8) == u[8]
  {
    Repack2(u[7], u[8], u[9]);
  }

  lemma RepackByte9(u: Ulid)
    ensures PackedByte(EncodedIndices(u), 9) == u[9]
  {
    Repack3(u[8], u[9], u[10]);
  }

  lemma RepackByte10(u: Ulid)
    ensures PackedByte(EncodedIndices(u), 10) == u[10]
  {
    Repack4(u[9], u[10]);
  }

  lemma RepackByte11(u: Ulid)
    ensures PackedByte(EncodedIndices(u), 11) == u[11]
  {
    Repack0(u[11], u[12]);
  }

  lemma RepackByte12(u: Ulid)
    ensures PackedByte(EncodedIndices(u), 12) == u[12]
  {
    Repack1(u[11], u[12], u[13]);
  }

  lemma RepackByte13(u: Ulid)
    ensures PackedByte(EncodedIndices(u), 13) == u[13]
  {
    Repack2(u[12], u[13], u[14]);
  }

  lemma RepackByte14(u: Ulid)
    ensures PackedByte(EncodedIndices(u), 14) == u[14]
  {
    Repack3(u[13], u[14], u[15]);
  }

  lemma RepackByte15(u: Ulid)
    ensures PackedByte(EncodedIndices(u), 15) == u[15]
  {
    Repack4(u[14], u[15]);
  }

  /** Packing the indices of `ToString` rebuilds the ULID. */
  lemma PackEncoded(u: Ulid)
    ensures PackIndices(EncodedIndices(u)) == u
  {
    forall j | 0 <= j < 16
      ensures PackIndices(EncodedIndices(u))[j] == u[j]
    {
      if j == 0 {
        RepackByte0(u);
      } else if j == 1 {
        RepackByte1(u);
      } else if j == 2 {
        RepackByte2(u);
      } else if j == 3 {
        RepackByte3(u);
      } else if j == 4 {
        RepackByte4(u);
      } else if j == 5 {
        RepackByte5(u);
      } else if j == 6 {
        RepackByte6(u);
      } else if j == 7 {
        RepackByte7(u);
      } else if j == 8 {
        RepackByte8(u);
      } else if j == 9 {
        RepackByte9(u);
      } else if j == 10 {
        RepackByte10(u);
      } else if j == 11 {
        RepackByte11(u);
      } else if j == 12 {
        RepackByte12(u);
      } else if j == 13 {
        RepackByte13(u);
      } else if j == 14 {
        RepackByte14(u);
      } else {
        RepackByte15(u);
      }
    }
  }

  lemma RedigitIndex0(index: seq<bv32>)
    requires ValidIndices(index)
    ensures EncodedIndices(PackIndices(index))[0] == index[0]
  {
    RedigitFirst(index[0], index[1]);
  }

  lemma RedigitIndex1(index: seq<bv32>)
    requires ValidIndices(index)
    ensures EncodedIndices(PackIndices(index))[1] == index[1]
  {
    RedigitFirst(index[0], index[1]);
  }

  lemma RedigitIndex2(index: seq<bv32>)
    requires ValidIndices(index)
    ensures EncodedIndices(PackIndices(index))[2] == index[2]
  {
    Redigit0(index[2], index[3]);
  }

  lemma RedigitIndex3(index: seq<bv32>)
    requires ValidIndices(index)
    ensures EncodedIndices(PackIndices(index))[3] == index[3]
  {
    Redigit1(index[2], index[3], index[4], index[5]);
  }

  lemma RedigitIndex4(index: seq<bv32>)
    requires ValidIndices(index)
    ensures EncodedIndices(PackIndices(index))[4] == index[4]
  {
    Redigit2(index[3], index[4], index[5]);
  }

  lemma RedigitIndex5(index: seq<bv32>)
    requires ValidIndices(index)
    ensures EncodedIndices(PackIndices(index))[5] == index[5]
  {
    Redigit3(index[3], index[4], index[5], index[6]);
  }

  lemma RedigitIndex6(index: seq<bv32>)
    requires ValidIndices(index)
    ensures EncodedIndices(PackIndices(index))[6] == index[6]
  {
    Redigit4(index[5], index[6], index[7], index[8]);
  }

  lemma RedigitIndex7(index: seq<bv32>)
    requires ValidIndices(index)
    ensures EncodedIndices(PackIndices(index))[7] == index[7]
  {
    Redigit5(index[6], index[7], index[8]);
  }

  lemma RedigitIndex8(index: seq<bv32>)
    requires ValidIndices(index)
    ensures EncodedIndices(PackIndices(index))[8] == index[8]
  {
    Redigit6(index[6], index[7], index[8], index[9]);
  }

  lemma RedigitIndex9(index: seq<bv32>)
    requires ValidIndices(index)
    ensures EncodedIndices(PackIndices(index))[9] == index[9]
  {
    Redigit7(index[8], index[9]);
  }

  lemma RedigitIndex10(index: seq<bv32>)
    requires ValidIndices(index)
    ensures EncodedIndices(PackIndices(index))[10] == index[10]
  {
    Redigit0(index[10], index[11]);
  }

  lemma RedigitIndex11(index: seq<bv32>)
    requires ValidIndices(index)
    ensures EncodedIndices(PackIndices(index))[11] == index[11]
  {
    Redigit1(index[10], index[11], index[12], index[13]);
  }

  lemma RedigitIndex12(index: seq<bv32>)
    requires ValidIndices(index)
    ensures EncodedIndices(PackIndices(index))[12] == index[12]
  {
    Redigit2(index[11], index[12], index[13]);
  }

  lemma RedigitIndex13(index: seq<bv32>)
    requires ValidIndices(index)
    ensures EncodedIndices(PackIndices(index))[13] == index[13]
  {
    Redigit3(index[11], index[12], index[13], index[14]);
  }

  lemma RedigitIndex14(index: seq<bv32>)
    requires ValidIndices(index)
    ensures EncodedIndices(PackIndices(index))[14] == index[14]
  {
    Redigit4(index[13], index[14], index[15], index[16]);
  }

  lemma RedigitIndex15(index: seq<bv32>)
    requires ValidIndices(index)
    ensures EncodedIndices(PackIndices(index))[15] == index[15]
  {
    Redigit5(index[14], index[15], index[16]);
  }

  lemma RedigitIndex16(index: seq<bv32>)
    requires ValidIndices(index)
    ensures EncodedIndices(PackIndices(index))[16] == index[16]
  {
    Redigit6(index[14], index[15], index[16], index[17]);
  }

  lemma RedigitIndex17(index: seq<bv32>)
    requires ValidIndices(index)
    ensures EncodedIndices(PackIndices(index))[17] == index[17]
  {
    Redigit7(index[16], index[17]);
  }

  lemma RedigitIndex18(index: seq<bv32>)
    requires ValidIndices(index)
    ensures EncodedIndices(PackIndices(index))[18] == index[18]
  {
    Redigit0(index[18], index[19]);
  }

  lemma RedigitIndex19(index: seq<bv32>)
    requires ValidIndices(index)
    ensures EncodedIndices(PackIndices(index))[19] == index[19]
  {
    Redigit1(index[18], index[19], index[20], index[21]);
  }

  lemma RedigitIndex20(index: seq<bv32>)
    requires ValidIndices(index)
    ensures EncodedIndices(PackIndices(index))[20] == index[20]
  {
    var u := PackIndices(index);
    assert u[12] == PackedByte(index, 12);
    Redigit2(index[19], index[20], index[21]);
    assert Index(u, 20) == index[20];
  }

  lemma RedigitIndex21(index: seq<bv32>)
    requires ValidIndices(index)
    ensures EncodedIndices(PackIndices(index))[21] == index[21]
  {
    Redigit3(index[19], index[20], index[21], index[22]);
  }

  lemma RedigitIndex22(index: seq<bv32>)
    requires ValidIndices(index)
    ensures EncodedIndices(PackIndices(index))[22] == index[22]
  {
    var u := PackIndices(index);
    assert u[13] == PackedByte(index, 13) && u[14] == PackedByte(index, 14);
    Redigit4(index[21], index[22], index[23], index[24]);
    assert Index(u, 22) == index[22];
  }

  lemma RedigitIndex23(index: seq<bv32>)
    requires ValidIndices(index)
    ensures EncodedIndices(PackIndices(index))[23] == index[23]
  {
    var u := PackIndices(index);
    assert u[14] == PackedByte(index, 14);
    Redigit5(index[22], index[23], index[24]);
    assert Index(u, 23) == index[23];
  }

  lemma RedigitIndex24(index: seq<bv32>)
    requires ValidIndices(index)
    ensures EncodedIndices(PackIndices(index))[24] == index[24]
  {
    Redigit6(index[22], index[23], index[24], index[25]);
  }

  lemma RedigitIndex25(index: seq<bv32>)
    requires ValidIndices(index)
    ensures EncodedIndices(PackIndices(index))[25] == index[25]
  {
    Redigit7(index[24], index[25]);
  }

  /** Splitting the packed bytes gives back every valid index sequence. */
  lemma EncodePacked(index: seq<bv32>)
    requires ValidIndices(index)
    ensures EncodedIndices(PackIndices(index)) == index
  {
    forall k | 0 <= k < 26
      ensures EncodedIndices(PackIndices(index))[k] == index[k]
    {
      if k < 13 {
        RedigitLow(index, k);
      } else {
        RedigitHigh(index, k);
      }
    }
  }

  lemma RedigitLow(index: seq<bv32>, k: int)
    requires ValidIndices(index) && 0 <= k < 13
    ensures EncodedIndices(PackIndices(index))[k] == index[k]
  {
      if k == 0 {
        RedigitIndex0(index);
      } else if k == 1 {
        RedigitIndex1(index);
      } else if k == 2 {
        RedigitIndex2(index);
      } else if k == 3 {
        RedigitIndex3(index);
      } else if k == 4 {
        RedigitIndex4(index);
      } else if k == 5 {
        RedigitIndex5(index);
      } else if k == 6 {
        RedigitIndex6(index);
      } else if k == 7 {
        RedigitIndex7(index);
      } else if k == 8 {
        RedigitIndex8(index);
      } else if k == 9 {
        RedigitIndex9(index);
      } else if k == 10 {
        RedigitIndex10(index);
      } else if k == 11 {
        RedigitIndex11(index);
      } else {
        RedigitIndex12(index);
      }
  }

  lemma RedigitHigh(index: seq<bv32>, k: int)
    requires ValidIndices(index) && 13 <= k < 26
    ensures EncodedIndices(PackIndices(index))[k] == index[k]
  {
      if k == 13 {
        RedigitIndex13(index);
      } else if k == 14 {
        RedigitIndex14(index);
      } else if k == 15 {
        RedigitIndex15(index);
      } else if k == 16 {
        RedigitIndex16(index);
      } else if k == 17 {
        RedigitIndex17(index);
      } else if k == 18 {
        RedigitIndex18(index);
      } else if k == 19 {
        RedigitIndex19(index);
      } else if k == 20 {
        RedigitIndex20(index);
      } else if k == 21 {
        RedigitIndex21(index);
      } else if k == 22 {
        RedigitIndex22(index);
      } else if k == 23 {
        RedigitIndex23(index);
      } else if k == 24 {
        RedigitIndex24(index);
      } else {
        RedigitIndex25(index);
      }
  }

  /** The indices of `ToString` are valid. */
  lemma EncodedIndicesValid(u: Ulid)
    ensures ValidIndices(EncodedIndices(u))
  {
  }

  // ---- ToString and TryParse ----

  /** Each symbol's value is its position in the alphabet. */
  lemma AlphabetIndexOfSymbol(d: int)
    requires 0 <= d < 32
    ensures AlphabetIndex(CrockfordsBase32[d]) == Some(d)
  {
    AlphabetAscending();
    var r := AlphabetIndex(CrockfordsBase32[d]);
    assert r.Some?;
    if r.value < d {
      AlphabetOrdered(r.value, d);
    }
  }

  /** Upper-casing leaves the output of `ToString` unchanged: it has no lower-case letters. */
  lemma ToUpperKeepsToString(u: Ulid)
    ensures ToUpperInvariant(ToString(u)) == ToString(u)
  {
    AlphabetAscending();
    var s := ToString(u);
    forall k | 0 <= k < |s|
      ensures ToUpperInvariant(s)[k] == s[k]
    {
      var i :| 0 <= i < 32 && CrockfordsBase32[i] == s[k];
    }
  }

  /** Looking the characters of `ToString` up in the alphabet gives its indices back. */
  lemma IndicesOfToString(u: Ulid)
    ensures AllInAlphabet(ToString(u))
    ensures IndicesOf(ToString(u)) == EncodedIndices(u)
  {
    var e := EncodedIndices(u);
    forall k | 0 <= k < 26
      ensures AlphabetIndex(ToString(u)[k]) == Some(e[k] as int)
    {
      SmallBits(e[k]);
      AlphabetIndexOfSymbol(e[k] as int);
    }
    forall k | 0 <= k < 26
      ensures IndicesOf(ToString(u))[k] == e[k]
    {
      SmallBits(e[k]);
    }
  }

  /** `TryParse(u.ToString())` gives back `u`. */
  lemma ParseToString(u: Ulid)
    ensures Parse(Some(ToString(u))) == Some(u)
  {
    ToUpperKeepsToString(u);
    IndicesOfToString(u);
    PackEncoded(u);
  }

  /** `TryParse` ignores case: every string that upper-cases to `ToString(u)`,
      lower-case letters included, parses to `u`. */
  lemma ParseAnyCase(s: string, u: Ulid)
    requires ToUpperInvariant(s) == ToString(u)
    ensures Parse(Some(s)) == Some(u)
  {
    ParseToString(u);
    ToUpperKeepsToString(u);
  }

  /** Indices 0..9 read only the timestamp bytes, indices 10..25 only the
      randomness bytes. */
  lemma IndexLocality(a: Ulid, b: Ulid, k: int)
    requires 0 <= k < 26
    requires k < 10 ==> a[..6] == b[..6]
    requires k >= 10 ==> a[6..] == b[6..]
    ensures Index(a, k) == Index(b, k)
  {
    if k < 10 {
      assert a[0] == b[0] && a[1] == b[1] && a[2] == b[2] && a[3] == b[3] && a[4] == b[4] && a[5] == b[5];
      TimestampIndexLocality(a, b, k);
    } else {
      assert forall i | 6 <= i < 16 :: a[i] == b[i] by {
        assert forall i | 6 <= i < 16 :: a[6..][i - 6] == a[i] && b[6..][i - 6] == b[i];
      }
      RandomnessIndexLocality(a, b, k);
    }
  }

  lemma TimestampIndexLocality(a: Ulid, b: Ulid, k: int)
    requires 0 <= k < 10 && forall i | 0 <= i < 6 :: a[i] == b[i]
    ensures Index(a, k) == Index(b, k)
  {
  }

  lemma RandomnessIndexLocality(a: Ulid, b: Ulid, k: int)
    requires 10 <= k < 26 && forall i | 6 <= i < 16 :: a[i] == b[i]
    ensures Index(a, k) == Index(b, k)
  {
  }

  /** The first ten characters of `ToString` spell the timestamp: ULIDs from one
      millisecond share them. */
  lemma SameTimeStampSamePrefix(a: Ulid, b: Ulid)
    requires TimeStamp(a) == TimeStamp(b)
    ensures ToString(a)[..10] == ToString(b)[..10]
  {
    TimeStampDeterminesBytes(a, b);
    SameTimeBytesSamePrefix(a, b);
  }

  lemma SameTimeBytesSamePrefix(a: Ulid, b: Ulid)
    requires a[..6] == b[..6]
    ensures ToString(a)[..10] == ToString(b)[..10]
  {
    forall k | 0 <= k < 10
      ensures ToString(a)[k] == ToString(b)[k]
    {
      IndexLocality(a, b, k);
    }
  }

  /** The last sixteen characters of `ToString` spell the randomness. */
  lemma SameRandomnessSameSuffix(a: Ulid, b: Ulid)
    requires a[6..] == b[6..]
    ensures ToString(a)[10..] == ToString(b)[10..]
  {
    forall k | 10 <= k < 26
      ensures ToString(a)[k] == ToString(b)[k]
    {
      IndexLocality(a, b, k);
    }
  }

  /** An accepted string whose first character is at most '7' is, upper-cased,
      the `ToString` of what it parses to; one whose first character is above '7'
      is not. */
  lemma ToStringOfParsed(s: string)
    requires Parse(Some(s)).Some?
    ensures ToString(Parse(Some(s)).value) == ToUpperInvariant(s) <==> ToUpperInvariant(s)[0] <= '7'
  {
    var upper := ToUpperInvariant(s);
    var index := IndicesOf(upper);
    var v := Parse(Some(s)).value;
    assert v == PackIndices(index);
    if upper[0] <= '7' {
      AlphabetAscending();
      assert index[0] < 8 by {
        SmallBits(index[0]);
      }
      EncodePacked(index);
      forall k | 0 <= k < 26
        ensures ToString(v)[k] == upper[k]
      {
        SmallBits(index[k]);
      }
    }
  }

  /** `ToString(u)` with its first character, always one of '0'..'7', moved
      eight places up the alphabet. */
  function TopBitSpelling(u: Ulid): (t: string)
    ensures |t| == 26 && t[1..] == ToString(u)[1..]
    ensures t[0] > '7'
  {
    var e := EncodedIndices(u);
    SmallBits(e[0]);
    AlphabetAscending();
    [CrockfordsBase32[e[0] as int + 8]] + ToString(u)[1..]
  }

  /** `TryParse` accepts a second spelling of every ULID: the first character
      moved eight places up the alphabet (a value beyond 128 bits) loses its top
      bit and parses to the same ULID. For the zero ULID, "8" followed by 25 '0's. */
  lemma ParseIgnoresTopBit(u: Ulid)
    ensures TopBitSpelling(u) != ToString(u)
    ensures Parse(Some(TopBitSpelling(u))) == Some(u)
  {
    var t := TopBitSpelling(u);
    TopBitSpellingIndices(u);
    PackIgnoresTopBit(IndicesOf(t), EncodedIndices(u));
    PackEncoded(u);
  }

  /** The indices of the second spelling: the first is eight more, the rest are
      those of `ToString`. */
  lemma TopBitSpellingIndices(u: Ulid)
    ensures ToUpperInvariant(TopBitSpelling(u)) == TopBitSpelling(u)
    ensures AllInAlphabet(TopBitSpelling(u))
    ensures IndicesOf(TopBitSpelling(u))[0] == EncodedIndices(u)[0] + 8
    ensures forall k :: 1 <= k < 26 ==> IndicesOf(TopBitSpelling(u))[k] == EncodedIndices(u)[k]
  {
    var e := EncodedIndices(u);
    SmallBits(e[0]);
    ToUpperKeepsToString(u);
    IndicesOfToString(u);
    ReplaceFirstSymbol(ToString(u), TopBitSpelling(u), e[0] as int + 8);
    Int32OfPlus8(e[0]);
  }

  /** Replacing the first character of an upper-case string in the alphabet by
      the symbol of value d changes its first index to d and nothing else. */
  lemma ReplaceFirstSymbol(s: string, t: string, d: int)
    requires |s| == |t| > 0 && t[1..] == s[1..] && 0 <= d < 32 && t[0] == CrockfordsBase32[d]
    requires ToUpperInvariant(s) == s && AllInAlphabet(s)
    ensures ToUpperInvariant(t) == t && AllInAlphabet(t)
    ensures IndicesOf(t)[0] == Int32Of(d)
    ensures forall k :: 1 <= k < |t| ==> IndicesOf(t)[k] == IndicesOf(s)[k]
  {
    assert forall k :: 1 <= k < |t| ==> t[k] == s[k] by {
      assert t[1..] == s[1..];
    }
    AlphabetAscending();
    AlphabetIndexOfSymbol(d);
    assert forall k :: 1 <= k < |t| ==> UpperInvariant(s[k]) == s[k] by {
      assert forall k :: 0 <= k < |s| ==> ToUpperInvariant(s)[k] == s[k];
    }
  }

  /** Only TimeStamp_0 depends on the first index, and only on its low three bits. */
  lemma PackIgnoresTopBit(index: seq<bv32>, e: seq<bv32>)
    requires |index| == 26 && |e| == 26 && e[0] < 8 && e[1] < 32
    requires index[0] == e[0] + 8
    requires forall k :: 1 <= k < 26 ==> index[k] == e[k]
    ensures PackIndices(index) == PackIndices(e)
  {
    TopBitDropped(e[0], e[1]);
    forall j | 0 <= j < 16
      ensures PackIndices(index)[j] == PackIndices(e)[j]
    {
    }
  }

  /** What a parser that follows the ULID specification accepts: `TryParse`'s
      strings, less those whose first character is above '7' (values beyond 128 bits). */
  function ParseStrict(input: Option<string>): (r: Option<Ulid>)
    ensures r.Some? <==> input.Some? && |input.value| == VALID_ULID_STRING_LENGTH
                         && AllInAlphabet(ToUpperInvariant(input.value))
                         && ToUpperInvariant(input.value)[0] <= '7'
    ensures r.Some? ==> r == Parse(input)
  {
    var p := Parse(input);
    if p.Some? && ToUpperInvariant(input.value)[0] <= '7' then p else None
  }

  /** The strict parser inverts `ToString` on every ULID ... */
  lemma ParseStrictToString(u: Ulid)
    ensures ParseStrict(Some(ToString(u))) == Some(u)
  {
    ParseToString(u);
  }

  /** ... and `ToString` inverts it on every accepted string, up to case. */
  lemma ToStringOfParseStrict(s: string)
    requires ParseStrict(Some(s)).Some?
    ensures ToString(ParseStrict(Some(s)).value) == ToUpperInvariant(s)
  {
    ToStringOfParsed(s);
  }

  /** ... and rejects the second spelling that `TryParse` accepts. */
  lemma ParseStrictRejectsTopBit(u: Ulid)
    ensures ParseStrict(Some(TopBitSpelling(u))) == None
  {
    TopBitSpellingIndices(u);
  }

  /** `TryParse` with the check the ULID specification asks for. */
  method TryParseStrict(input: Option<string>) returns (success: bool, ulid: Ulid)
    ensures success <==> ParseStrict(input).Some?
    ensures ulid == if success then ParseStrict(input).value else Empty
  {
    success, ulid := TryParse(input);
    if success && ToUpperInvariant(input.value)[0] > '7' {
      success, ulid := false, Empty;
    }
  }
}
