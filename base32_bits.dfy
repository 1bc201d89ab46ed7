/** Bit-level facts about the shift-and-mask formulas of the Crockford Base32
    codec in Ulid.cs. Each lemma is about a handful of bytes or 5-bit groups, so
    that the solver reasons about bit-vectors without sequences around them. */
module Base32Bits {
  import opened UlidBinary
  import opened UlidText

  // ---- Packing the indices that ToString computes gives the bytes back ----

  /** Byte 0 (TimeStamp_0) from index0 and index1. */
  lemma RepackFirst(b: byte)
    ensures ByteOf((((AsInt32(b) & 224) >> 5) << 5) | (AsInt32(b) & 31)) == b
  {
  }

  /** Byte 0 of a five-byte group from the group's indices 0 and 1. */
  lemma Repack0(b0: byte, b1: byte)
    ensures ByteOf((((AsInt32(b0) & 248) >> 3) << 3) | Sar(((AsInt32(b0) & 7) << 2) | ((AsInt32(b1) & 192) >> 6), 2)) == b0
  {
  }

  /** Byte 1 of a five-byte group from the group's indices 1, 2 and 3. */
  lemma Repack1(b0: byte, b1: byte, b2: byte)
    ensures ByteOf(((((AsInt32(b0) & 7) << 2) | ((AsInt32(b1) & 192) >> 6)) << 6) | (((AsInt32(b1) & 62) >> 1) << 1)
                   | Sar(((AsInt32(b1) & 1) << 4) | ((AsInt32(b2) & 240) >> 4), 4)) == b1
  {
  }

  /** Byte 2 of a five-byte group from the group's indices 3 and 4. */
  lemma Repack2(b1: byte, b2: byte, b3: byte)
    ensures ByteOf(((((AsInt32(b1) & 1) << 4) | ((AsInt32(b2) & 240) >> 4)) << 4)
                   | Sar(((AsInt32(b2) & 15) << 1) | ((AsInt32(b3) & 128) >> 7), 1)) == b2
  {
  }

  /** Byte 3 of a five-byte group from the group's indices 4, 5 and 6. */
  lemma Repack3(b2: byte, b3: byte, b4: byte)
    ensures ByteOf(((((AsInt32(b2) & 15) << 1) | ((AsInt32(b3) & 128) >> 7)) << 7) | (((AsInt32(b3) & 124) >> 2) << 2)
                   | Sar(((AsInt32(b3) & 3) << 3) | ((AsInt32(b4) & 224) >> 5), 3)) == b3
  {
  }

  /** Byte 4 of a five-byte group from the group's indices 6 and 7. */
  lemma Repack4(b3: byte, b4: byte)
    ensures ByteOf(((((AsInt32(b3) & 3) << 3) | ((AsInt32(b4) & 224) >> 5)) << 5) | (AsInt32(b4) & 31)) == b4
  {
  }

  // ---- Splitting packed bytes gives 5-bit indices back ----

  /** index0 and index1 from TimeStamp_0, when index0 has three bits. */
  lemma RedigitFirst(e0: bv32, e1: bv32)
    requires e0 < 8 && e1 < 32
    ensures (AsInt32(ByteOf((e0 << 5) | e1)) & 224) >> 5 == e0
    ensures AsInt32(ByteOf((e0 << 5) | e1)) & 31 == e1
  {
  }

  lemma Redigit0(e0: bv32, e1: bv32)
    requires e0 < 32 && e1 < 32
    ensures (AsInt32(ByteOf((e0 << 3) | Sar(e1, 2))) & 248) >> 3 == e0
  {
  }

  lemma Redigit1(e0: bv32, e1: bv32, e2: bv32, e3: bv32)
    requires e0 < 32 && e1 < 32 && e2 < 32 && e3 < 32
    ensures ((AsInt32(ByteOf((e0 << 3) | Sar(e1, 2))) & 7) << 2)
            | ((AsInt32(ByteOf((e1 << 6) | (e2 << 1) | Sar(e3, 4))) & 192) >> 6) == e1
  {
  }

  lemma Redigit2(e1: bv32, e2: bv32, e3: bv32)
    requires e1 < 32 && e2 < 32 && e3 < 32
    ensures (AsInt32(ByteOf((e1 << 6) | (e2 << 1) | Sar(e3, 4))) & 62) >> 1 == e2
  {
  }

  lemma Redigit3(e1: bv32, e2: bv32, e3: bv32, e4: bv32)
    requires e1 < 32 && e2 < 32 && e3 < 32 && e4 < 32
    ensures ((AsInt32(ByteOf((e1 << 6) | (e2 << 1) | Sar(e3, 4))) & 1) << 4)
            | ((AsInt32(ByteOf((e3 << 4) | Sar(e4, 1))) & 240) >> 4) == e3
  {
  }

  lemma Redigit4(e3: bv32, e4: bv32, e5: bv32, e6: bv32)
    requires e3 < 32 && e4 < 32 && e5 < 32 && e6 < 32
    ensures ((AsInt32(ByteOf((e3 << 4) | Sar(e4, 1))) & 15) << 1)
            | ((AsInt32(ByteOf((e4 << 7) | (e5 << 2) | Sar(e6, 3))) & 128) >> 7) == e4
  {
  }

  lemma Redigit5(e4: bv32, e5: bv32, e6: bv32)
    requires e4 < 32 && e5 < 32 && e6 < 32
    ensures (AsInt32(ByteOf((e4 << 7) | (e5 << 2) | Sar(e6, 3))) & 124) >> 2 == e5
  {
  }

  lemma Redigit6(e4: bv32, e5: bv32, e6: bv32, e7: bv32)
    requires e4 < 32 && e5 < 32 && e6 < 32 && e7 < 32
    ensures ((AsInt32(ByteOf((e4 << 7) | (e5 << 2) | Sar(e6, 3))) & 3) << 3)
            | ((AsInt32(ByteOf((e6 << 5) | e7)) & 224) >> 5) == e6
  {
  }

  lemma Redigit7(e6: bv32, e7: bv32)
    requires e6 < 32 && e7 < 32
    ensures AsInt32(ByteOf((e6 << 5) | e7)) & 31 == e7
  {
  }

  // ---- The integer value of each index formula ----

  lemma Widen(x: byte)
    ensures AsInt32(x) as int == x as int
  {
  }

  lemma Shr1(b: byte) ensures (b >> 1) as int == b as int / 2 {}
  lemma Shr2(b: byte) ensures (b >> 2) as int == b as int / 4 {}
  lemma Shr3(b: byte) ensures (b >> 3) as int == b as int / 8 {}
  lemma Shr4(b: byte) ensures (b >> 4) as int == b as int / 16 {}
  lemma Shr5(b: byte) ensures (b >> 5) as int == b as int / 32 {}
  lemma Shr6(b: byte) ensures (b >> 6) as int == b as int / 64 {}
  lemma Shr7(b: byte) ensures (b >> 7) as int == b as int / 128 {}

  lemma Low1(b: byte) ensures (b & 1) as int == b as int % 2 {}
  lemma Low2(b: byte) ensures (b & 3) as int == b as int % 4 {}
  lemma Low3(b: byte) ensures (b & 7) as int == b as int % 8 {}
  lemma Low4(b: byte) ensures (b & 15) as int == b as int % 16 {}
  lemma Low5(b: byte) ensures (b & 31) as int == b as int % 32 {}

  lemma Join1(x: byte, y: byte)
    requires x < 16 && y < 2
    ensures ((x << 1) | y) as int == x as int * 2 + y as int
  {
  }

  lemma Join2(x: byte, y: byte)
    requires x < 8 && y < 4
    ensures ((x << 2) | y) as int == x as int * 4 + y as int
  {
  }

  lemma Join3(x: byte, y: byte)
    requires x < 4 && y < 8
    ensures ((x << 3) | y) as int == x as int * 8 + y as int
  {
  }

  lemma Join4(x: byte, y: byte)
    requires x < 2 && y < 16
    ensures ((x << 4) | y) as int == x as int * 16 + y as int
  {
  }

  /** index0: the top three bits of TimeStamp_0. */
  lemma FirstValue0(b: byte)
    ensures ((AsInt32(b) & 224) >> 5) as int == b as int / 32
  {
    assert (AsInt32(b) & 224) >> 5 == AsInt32(b >> 5);
    Widen(b >> 5);
    Shr5(b);
  }

  /** The low five bits of a byte (index1, and index7 of a group). */
  lemma FirstValue1(b: byte)
    ensures (AsInt32(b) & 31) as int == b as int % 32
  {
    assert AsInt32(b) & 31 == AsInt32(b & 31);
    Widen(b & 31);
    Low5(b);
  }

  lemma Value0(b0: byte)
    ensures ((AsInt32(b0) & 248) >> 3) as int == b0 as int / 8
  {
    assert (AsInt32(b0) & 248) >> 3 == AsInt32(b0 >> 3);
    Widen(b0 >> 3);
    Shr3(b0);
  }

  lemma Value1(b0: byte, b1: byte)
    ensures (((AsInt32(b0) & 7) << 2) | ((AsInt32(b1) & 192) >> 6)) as int == (b0 as int % 8) * 4 + b1 as int / 64
  {
    assert ((AsInt32(b0) & 7) << 2) | ((AsInt32(b1) & 192) >> 6) == AsInt32(((b0 & 7) << 2) | (b1 >> 6));
    Widen(((b0 & 7) << 2) | (b1 >> 6));
    Join2(b0 & 7, b1 >> 6);
    Low3(b0);
    Shr6(b1);
  }

  lemma Value2(b1: byte)
    ensures ((AsInt32(b1) & 62) >> 1) as int == (b1 as int / 2) % 32
  {
    assert (AsInt32(b1) & 62) >> 1 == AsInt32((b1 >> 1) & 31);
    Widen((b1 >> 1) & 31);
    Low5(b1 >> 1);
    Shr1(b1);
  }

  lemma Value3(b1: byte, b2: byte)
    ensures (((AsInt32(b1) & 1) << 4) | ((AsInt32(b2) & 240) >> 4)) as int == (b1 as int % 2) * 16 + b2 as int / 16
  {
    assert ((AsInt32(b1) & 1) << 4) | ((AsInt32(b2) & 240) >> 4) == AsInt32(((b1 & 1) << 4) | (b2 >> 4));
    Widen(((b1 & 1) << 4) | (b2 >> 4));
    Join4(b1 & 1, b2 >> 4);
    Low1(b1);
    Shr4(b2);
  }

  lemma Value4(b2: byte, b3: byte)
    ensures (((AsInt32(b2) & 15) << 1) | ((AsInt32(b3) & 128) >> 7)) as int == (b2 as int % 16) * 2 + b3 as int / 128
  {
    assert ((AsInt32(b2) & 15) << 1) | ((AsInt32(b3) & 128) >> 7) == AsInt32(((b2 & 15) << 1) | (b3 >> 7));
    Widen(((b2 & 15) << 1) | (b3 >> 7));
    Join1(b2 & 15, b3 >> 7);
    Low4(b2);
    Shr7(b3);
  }

  lemma Value5(b3: byte)
    ensures ((AsInt32(b3) & 124) >> 2) as int == (b3 as int / 4) % 32
  {
    assert (AsInt32(b3) & 124) >> 2 == AsInt32((b3 >> 2) & 31);
    Widen((b3 >> 2) & 31);
    Low5(b3 >> 2);
    Shr2(b3);
  }

  lemma Value6(b3: byte, b4: byte)
    ensures (((AsInt32(b3) & 3) << 3) | ((AsInt32(b4) & 224) >> 5)) as int == (b3 as int % 4) * 8 + b4 as int / 32
  {
    assert ((AsInt32(b3) & 3) << 3) | ((AsInt32(b4) & 224) >> 5) == AsInt32(((b3 & 3) << 3) | (b4 >> 5));
    Widen(((b3 & 3) << 3) | (b4 >> 5));
    Join3(b3 & 3, b4 >> 5);
    Low2(b3);
    Shr5(b4);
  }

  /** A first index with its top bit set packs like the same index without it. */
  lemma TopBitDropped(e0: bv32, e1: bv32)
    requires e0 < 8 && e1 < 32
    ensures ByteOf(((e0 + 8) << 5) | e1) == ByteOf((e0 << 5) | e1)
  {
  }

  lemma Int32OfPlus8(x: bv32)
    requires x < 8
    ensures Int32Of(x as int + 8) == x + 8
  {
    SmallBits(x);
    SmallBits(x + 8);
  }
}
