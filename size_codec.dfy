/**
 * `ID3#decode_size`: the decoder this reader applies to the 4-byte size field of an
 * ID3v2 tag header. Section 3.1 of ID3v2.3.0 and section 6.2 of ID3v2.4.0 store the
 * size as a synchsafe integer: four 7-bit groups, the top bit of every byte zero. The
 * decoder here masks each byte with 0xef instead of 0x7f, so it drops bit 4 of every
 * byte and keeps bit 7; it is modelled exactly as written and compared with the
 * standard decoding below.
 */
module SizeCodec {
  import opened Unpack

  /** The 32-bit word that directive `N` reads from four big-endian bytes. */
  function Word(b0: byte, b1: byte, b2: byte, b3: byte): bv32 {
    (b0 as bv32 << 24) | (b1 as bv32 << 16) | (b2 as bv32 << 8) | b3 as bv32
  }

  /** Byte `k` of a word, counting from the least significant one. */
  function ByteAt(w: bv32, k: nat): byte
    requires k < 4
  {
    ((if k == 0 then w else if k == 1 then w >> 8 else if k == 2 then w >> 16 else w >> 24) & 0xff) as byte
  }

  /** The unsigned value of a word, computed from its bytes. */
  function WordValue(w: bv32): nat {
    BigEndian([ByteAt(w, 3), ByteAt(w, 2), ByteAt(w, 1), ByteAt(w, 0)])
  }

  /** `decode_size`, bit for bit. */
  function DecodeSize(len: bv32): (d: bv32)
    ensures d < 0x2000_0000
  {
    (len & 0xef) | ((0xef00 & len) >> 1) | ((0xef0000 & len) >> 2) | ((0xef000000 & len) >> 3)
  }

  lemma DecodeSizeIgnoresBit4(len: bv32)
    ensures DecodeSize(len) == DecodeSize(len & 0xefefefef)
  {
  }

  lemma DecodeSizeBounds(len: bv32)
    ensures DecodeSize(len) <= len
    ensures DecodeSize(0) == 0
  {
  }

  /** A byte whose bits 7 and 4 are both clear. */
  predicate Clean(b: byte) {
    b & 0x90 == 0
  }

  /** The synchsafe value of four bytes, most significant first: 7 bits from each. */
  function SynchsafeValue(b0: byte, b1: byte, b2: byte, b3: byte): nat {
    b0 as int * 0x20_0000 + b1 as int * 0x4000 + b2 as int * 0x80 + b3 as int
  }

  /** The four bytes a conforming writer stores for a size below 2^28. */
  function SynchsafeEncode(n: nat): (s: Bytes)
    requires n < 0x1000_0000
    ensures |s| == 4 && forall k :: 0 <= k < 4 ==> s[k] < 0x80
  {
    var q1 := n / 0x80;
    var q2 := q1 / 0x80;
    [ByteOfInt(q2 / 0x80), ByteOfInt(q2 % 0x80), ByteOfInt(q1 % 0x80), ByteOfInt(n % 0x80)]
  }

  lemma SynchsafeRoundTrip(n: nat)
    requires n < 0x1000_0000
    ensures var s := SynchsafeEncode(n); SynchsafeValue(s[0], s[1], s[2], s[3]) == n
  {
    var q1 := n / 0x80;
    var q2 := q1 / 0x80;
    assert n == q1 * 0x80 + n % 0x80;
    assert q1 == q2 * 0x80 + q1 % 0x80;
    assert q2 == q2 / 0x80 * 0x80 + q2 % 0x80;
  }

  // The bytes of DecodeSize(Word(..)) when no byte has bit 7 or 4 set, one lemma per byte.
  lemma CleanByte0(b0: byte, b1: byte, b2: byte, b3: byte)
    requires Clean(b2) && Clean(b3)
    ensures ByteAt(DecodeSize(Word(b0, b1, b2, b3)), 0) == b3 | (b2 << 7)
  {
  }

  lemma CleanByte1(b0: byte, b1: byte, b2: byte, b3: byte)
    requires Clean(b1) && Clean(b2)
    ensures ByteAt(DecodeSize(Word(b0, b1, b2, b3)), 1) == (b2 >> 1) | (b1 << 6)
  {
  }

  lemma CleanByte2(b0: byte, b1: byte, b2: byte, b3: byte)
    requires Clean(b0) && Clean(b1)
    ensures ByteAt(DecodeSize(Word(b0, b1, b2, b3)), 2) == (b1 >> 2) | (b0 << 5)
  {
  }

  lemma CleanByte3(b0: byte, b1: byte, b2: byte, b3: byte)
    requires Clean(b0)
    ensures ByteAt(DecodeSize(Word(b0, b1, b2, b3)), 3) == b0 >> 3
  {
  }

  lemma DisjointOr(x: byte, y: byte, k: byte)
    requires 0 < k < 8 && x < (1 << k)
    ensures (x | (y << k)) as int == x as int + (y << k) as int
  {
  }

  lemma SplitByte(x: byte)
    ensures x as int == 2 * (x >> 1) as int + (x & 1) as int
    ensures x as int == 4 * (x >> 2) as int + (x & 3) as int
    ensures x as int == 8 * (x >> 3) as int + (x & 7) as int
  {
  }

  lemma ShiftedLow(x: byte)
    ensures (x << 7) as int == 128 * (x & 1) as int
    ensures (x << 6) as int == 64 * (x & 3) as int
    ensures (x << 5) as int == 32 * (x & 7) as int
  {
  }

  // The values of the bytes of DecodeSize(Word(..)) when no byte has bit 7 or 4 set.
  lemma CleanByteValues(b0: byte, b1: byte, b2: byte, b3: byte)
    requires Clean(b0) && Clean(b1) && Clean(b2) && Clean(b3)
    ensures var d := DecodeSize(Word(b0, b1, b2, b3));
      ByteAt(d, 0) as int == b3 as int + 128 * (b2 & 1) as int &&
      ByteAt(d, 1) as int == (b2 >> 1) as int + 64 * (b1 & 3) as int &&
      ByteAt(d, 2) as int == (b1 >> 2) as int + 32 * (b0 & 7) as int &&
      ByteAt(d, 3) as int == (b0 >> 3) as int &&
      b0 as int == 8 * (b0 >> 3) as int + (b0 & 7) as int &&
      b1 as int == 4 * (b1 >> 2) as int + (b1 & 3) as int &&
      b2 as int == 2 * (b2 >> 1) as int + (b2 & 1) as int
  {
    SplitByte(b0); SplitByte(b1); SplitByte(b2);
    CleanByte0(b0, b1, b2, b3);
    CleanByte1(b0, b1, b2, b3);
    CleanByte2(b0, b1, b2, b3);
    CleanByte3(b0, b1, b2, b3);
    ShiftedLow(b0); ShiftedLow(b1); ShiftedLow(b2);
    DisjointOr(b3, b2, 7);
    DisjointOr(b2 >> 1, b1, 6);
    DisjointOr(b1 >> 2, b0, 5);
  }

  /**
   * On bytes with bits 7 and 4 clear the literal decoder agrees with the synchsafe
   * decoding of section 6.2 of ID3v2.4.0.
   */
  lemma DecodeSizeSynchsafe(b0: byte, b1: byte, b2: byte, b3: byte)
    requires Clean(b0) && Clean(b1) && Clean(b2) && Clean(b3)
    ensures WordValue(DecodeSize(Word(b0, b1, b2, b3))) == SynchsafeValue(b0, b1, b2, b3)
  {
    var d := DecodeSize(Word(b0, b1, b2, b3));
    var d0, d1, d2, d3 := ByteAt(d, 0), ByteAt(d, 1), ByteAt(d, 2), ByteAt(d, 3);
    BigEndianFour([d3, d2, d1, d0]);
    CleanByteValues(b0, b1, b2, b3);
    RegroupBits(d0 as int, d1 as int, d2 as int, d3 as int, b0 as int, b1 as int, b2 as int, b3 as int,
                (b0 >> 3) as int, (b1 >> 2) as int, (b2 >> 1) as int,
                (b0 & 7) as int, (b1 & 3) as int, (b2 & 1) as int);
  }

  // The arithmetic of DecodeSizeSynchsafe: the low bits that spill into the next byte
  // carry the same weight in both sums.
  lemma RegroupBits(d0: int, d1: int, d2: int, d3: int, b0: int, b1: int, b2: int, b3: int,
                    h0: int, h1: int, h2: int, l0: int, l1: int, l2: int)
    requires b0 == 8 * h0 + l0 && b1 == 4 * h1 + l1 && b2 == 2 * h2 + l2
    requires d0 == b3 + 128 * l2 && d1 == h2 + 64 * l1 && d2 == h1 + 32 * l0 && d3 == h0
    ensures d3 * 0x100_0000 + d2 * 0x1_0000 + d1 * 0x100 + d0 == b0 * 0x20_0000 + b1 * 0x4000 + b2 * 0x80 + b3
  {
  }

  lemma MaskedWord(b0: byte, b1: byte, b2: byte, b3: byte)
    requires b0 < 0x80 && b1 < 0x80 && b2 < 0x80 && b3 < 0x80
    ensures DecodeSize(Word(b0, b1, b2, b3)) == DecodeSize(Word(b0 & 0x6f, b1 & 0x6f, b2 & 0x6f, b3 & 0x6f))
    ensures Clean(b0 & 0x6f) && Clean(b1 & 0x6f) && Clean(b2 & 0x6f) && Clean(b3 & 0x6f)
  {
  }

  /**
   * Whenever the top bits are clear, as section 3.1 of ID3v2.3.0 requires, the decoder
   * returns the synchsafe value of the bytes with bit 4 cleared.
   */
  lemma DecodeSizeDropsBit4(b0: byte, b1: byte, b2: byte, b3: byte)
    requires b0 < 0x80 && b1 < 0x80 && b2 < 0x80 && b3 < 0x80
    ensures WordValue(DecodeSize(Word(b0, b1, b2, b3)))
         == SynchsafeValue(b0 & 0x6f, b1 & 0x6f, b2 & 0x6f, b3 & 0x6f)
  {
    MaskedWord(b0, b1, b2, b3);
    DecodeSizeSynchsafe(b0 & 0x6f, b1 & 0x6f, b2 & 0x6f, b3 & 0x6f);
  }

  /**
   * For bytes with bit 7 clear the decoder never over-reports, and it returns the
   * synchsafe value exactly when no byte has bit 4 set.
   */
  lemma DecodeSizeExact(b0: byte, b1: byte, b2: byte, b3: byte)
    requires b0 < 0x80 && b1 < 0x80 && b2 < 0x80 && b3 < 0x80
    ensures WordValue(DecodeSize(Word(b0, b1, b2, b3))) <= SynchsafeValue(b0, b1, b2, b3)
    ensures WordValue(DecodeSize(Word(b0, b1, b2, b3))) == SynchsafeValue(b0, b1, b2, b3)
        <==> b0 & 0x10 == 0 && b1 & 0x10 == 0 && b2 & 0x10 == 0 && b3 & 0x10 == 0
  {
    DecodeSizeDropsBit4(b0, b1, b2, b3);
    MaskBit4(b0); MaskBit4(b1); MaskBit4(b2); MaskBit4(b3);
  }

  /**
   * The decoder inverts the synchsafe encoding of a size exactly when no byte of that
   * encoding has bit 4 set; otherwise it under-reports the size.
   */
  lemma DecodeSizeOfEncoded(n: nat)
    requires n < 0x1000_0000
    ensures var s := SynchsafeEncode(n);
      WordValue(DecodeSize(Word(s[0], s[1], s[2], s[3]))) == n
      <==> forall k :: 0 <= k < 4 ==> s[k] & 0x10 == 0
    ensures var s := SynchsafeEncode(n); WordValue(DecodeSize(Word(s[0], s[1], s[2], s[3]))) <= n
  {
    var s := SynchsafeEncode(n);
    SynchsafeRoundTrip(n);
    DecodeSizeExact(s[0], s[1], s[2], s[3]);
    assert (forall k :: 0 <= k < 4 ==> s[k] & 0x10 == 0)
       <==> s[0] & 0x10 == 0 && s[1] & 0x10 == 0 && s[2] & 0x10 == 0 && s[3] & 0x10 == 0;
  }

  // Masking a byte below 0x80 with 0x6f subtracts 16 exactly when bit 4 is set.
  lemma MaskBit4(x: byte)
    requires x < 0x80
    ensures (x & 0x6f) as int == x as int - (if x & 0x10 == 0 then 0 else 16)
  {
  }

  /** The smallest witness of the non-conformance: the synchsafe size 16 decodes to 0. */
  lemma DecodeSizeLosesSixteen()
    ensures SynchsafeValue(0, 0, 0, 0x10) == 16
    ensures WordValue(DecodeSize(Word(0, 0, 0, 0x10))) == 0
  {
    var d := DecodeSize(Word(0, 0, 0, 0x10));
    assert d == 0;
    BigEndianFour([ByteAt(d, 3), ByteAt(d, 2), ByteAt(d, 1), ByteAt(d, 0)]);
  }

  /**
   * Bit 7 of the most significant byte is not masked away: it lands on bit 28 of the
   * decoded size, so the decoder yields sizes no synchsafe integer can hold.
   */
  lemma DecodeSizeKeepsBit7(len: bv32)
    ensures DecodeSize(len) & 0x1000_0000 != 0 <==> len & 0x8000_0000 != 0
  {
  }

  /** The size bytes 80 00 00 00 decode to 2^28, one more than the largest synchsafe value. */
  lemma DecodeSizeTopBit()
    ensures WordValue(DecodeSize(Word(0x80, 0, 0, 0))) == 0x1000_0000
  {
    var d := DecodeSize(Word(0x80, 0, 0, 0));
    assert d == 0x1000_0000;
    assert ByteAt(d, 3) == 0x10 && ByteAt(d, 2) == 0 && ByteAt(d, 1) == 0 && ByteAt(d, 0) == 0;
    BigEndianFour([ByteAt(d, 3), ByteAt(d, 2), ByteAt(d, 1), ByteAt(d, 0)]);
  }
}
