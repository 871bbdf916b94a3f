/**
 * `ID3#read_id3v2_header`: the ten-byte header that opens an ID3v2 tag (section 3.1 of
 * ID3v2.3.0): the marker "ID3", a major version and a revision byte, a flags byte and the
 * tag size, all read with `unpack('a3c3N')` from the first ten bytes of the stream.
 */
module TagHeader {
  import opened Wrappers
  import opened Unpack
  import opened SizeCodec
  import opened Records

  /** The number of bytes the header occupies; frames start right after it. */
  const HEADER_SIZE: nat := 10

  /** Whether the stream begins with the marker "ID3". */
  predicate HasV2Marker(src: Bytes) {
    |src| >= 3 && src[..3] == Ascii("ID3")
  }

  /**
   * `read_id3v2_header` on a stream holding `src` from its start. No marker gives no
   * header; with the marker, a major version outside 2..4 is refused before anything
   * else is looked at, and a header cut short fails on the missing fields. An empty
   * stream fails too, since nothing comes back to unpack.
   */
  function ReadId3v2Header(src: Bytes): (r: Result<Option<Header>, Error>)
    ensures |src| == 0 ==> r == Err(TruncatedHeader)
    ensures r == Ok(None) <==> |src| > 0 && !HasV2Marker(src)
    ensures r == Err(UnknownVersion) <==> HasV2Marker(src) && |src| > 3 && !(2 <= Signed8(src[3]) <= 4)
    ensures r.Ok? && r.value.Some? ==> HasV2Marker(src) && |src| >= HEADER_SIZE
    ensures r.Ok? && r.value.Some? ==>
      var h := r.value.value; h.version.major == 2 && 2 <= h.version.minor <= 4 && h.version.minor == Signed8(src[3])
    ensures r.Ok? && r.value.Some? ==>
      r.value.value == Header(Version(2, Signed8(src[3]), Signed8(src[4])), Signed8(src[5]),
                              WordValue(DecodeSize(Word(src[6], src[7], src[8], src[9]))))
    ensures r == Err(TruncatedHeader) <==>
      |src| == 0 || (HasV2Marker(src) && |src| < HEADER_SIZE && (|src| == 3 || 2 <= Signed8(src[3]) <= 4))
  {
    match Read(src, 0, HEADER_SIZE)
    case None => Err(TruncatedHeader)
    case Some(bytes) =>
      if !(|bytes| >= 3 && bytes[..3] == Ascii("ID3")) then Ok(None)
      else if |bytes| < 4 then Err(TruncatedHeader)
      else
        var major := Signed8(bytes[3]);
        if major < 2 || major > 4 then Err(UnknownVersion)
        else if |bytes| < HEADER_SIZE then Err(TruncatedHeader)
        else
          var size := WordValue(DecodeSize(Word(bytes[6], bytes[7], bytes[8], bytes[9])));
          Ok(Some(Header(Version(2, major, Signed8(bytes[4])), Signed8(bytes[5]), size)))
  }

  /** Only the first ten bytes decide the header. */
  lemma HeaderIgnoresRest(src: Bytes, rest: Bytes)
    requires |src| >= HEADER_SIZE
    ensures ReadId3v2Header(src + rest) == ReadId3v2Header(src)
  {
    assert (src + rest)[..HEADER_SIZE] == src[..HEADER_SIZE];
  }

  /**
   * The ten bytes a conforming writer emits for version 2.`major`.`revision` with the
   * given flags and a tag size stored as a synchsafe integer.
   */
  function EncodeHeader(major: int, revision: int, flags: int, size: nat): (s: Bytes)
    requires 2 <= major <= 4 && -128 <= revision < 128 && -128 <= flags < 128
    requires size < 0x1000_0000
    ensures |s| == HEADER_SIZE
  {
    Ascii("ID3") + [ByteOfInt(major), SignedByte(revision), SignedByte(flags)] + SynchsafeEncode(size)
  }

  /**
   * The tag size `read_id3v2_header` reports for a size a conforming writer stored as a
   * synchsafe integer: never larger, and the same exactly when no stored byte has bit 4
   * set. Stored as 00 00 00 1E, a size of 30 is reported as 14.
   */
  function DecodedSize(size: nat): (d: nat)
    requires size < 0x1000_0000
    ensures d <= size
    ensures d == size <==> forall k :: 0 <= k < 4 ==> SynchsafeEncode(size)[k] & 0x10 == 0
  {
    DecodeSizeOfEncoded(size);
    var s := SynchsafeEncode(size);
    WordValue(DecodeSize(Word(s[0], s[1], s[2], s[3])))
  }

  /**
   * Reading back an encoded header recovers the version and the flags. The size comes
   * back as `decode_size` makes of its synchsafe form: exactly when no byte of that form
   * has bit 4 set, and never larger.
   */
  lemma HeaderRoundTrip(major: int, revision: int, flags: int, size: nat, rest: Bytes)
    requires 2 <= major <= 4 && -128 <= revision < 128 && -128 <= flags < 128
    requires size < 0x1000_0000
    ensures var r := ReadId3v2Header(EncodeHeader(major, revision, flags, size) + rest);
      r.Ok? && r.value.Some? &&
      r.value.value.version == Version(2, major, revision) && r.value.value.flags == flags &&
      r.value.value.size == DecodedSize(size) && r.value.value.size <= size &&
      (r.value.value.size == size <==> forall k :: 0 <= k < 4 ==> SynchsafeEncode(size)[k] & 0x10 == 0)
  {
    var enc := EncodeHeader(major, revision, flags, size);
    var s := SynchsafeEncode(size);
    assert enc[..3] == Ascii("ID3");
    assert enc[3] == ByteOfInt(major) && enc[4] == SignedByte(revision) && enc[5] == SignedByte(flags);
    assert enc[6] == s[0] && enc[7] == s[1] && enc[8] == s[2] && enc[9] == s[3];
    HeaderIgnoresRest(enc, rest);
    DecodeSizeOfEncoded(size);
  }
}
