/**
 * `ID3#read_id3v1_footer`: the fixed 128-byte ID3v1 trailer at the end of the stream,
 * unpacked with `a3a30a30a30a4a29cc`. In ID3v1.1 the last comment byte holds the track
 * number, which this reader takes as its own signed field.
 */
module TagFooter {
  import opened Wrappers
  import opened Unpack
  import opened Records

  const FOOTER_SIZE: nat := 128

  /** What a footer returned by the reader always looks like. */
  predicate WellFormedFooter(f: Footer) {
    && |f.title| == 30 && |f.artist| == 30 && |f.album| == 30 && |f.year| == 4 && |f.comment| == 29
    && -128 <= f.track < 128 && -128 <= f.genre < 128
    && f.version == Version(1, if f.track == 0 then 0 else 1, 0)
    && f.flags == 0 && f.size == FOOTER_SIZE
  }

  /** The 128 bytes a writer emits for a footer. */
  function EncodeFooter(f: Footer): (s: Bytes)
    requires WellFormedFooter(f)
    ensures |s| == FOOTER_SIZE
  {
    Ascii("TAG") + f.title + f.artist + f.album + f.year + f.comment + [SignedByte(f.track), SignedByte(f.genre)]
  }

  /**
   * `read_id3v1_footer`: the seek to 128 bytes before the end fails on a shorter stream;
   * otherwise the last 128 bytes must start with "TAG". The text fields are kept with
   * their padding; the version is 1.0 when the track byte is zero and 1.1 otherwise.
   */
  function ReadId3v1Footer(src: Bytes): (r: Result<Footer, Error>)
    ensures r == Err(SourceTooShort) <==> |src| < FOOTER_SIZE
    ensures r == Err(MissingFooter) <==> |src| >= FOOTER_SIZE && src[|src| - FOOTER_SIZE..][..3] != Ascii("TAG")
    ensures r.Ok? ==> WellFormedFooter(r.value) && EncodeFooter(r.value) == src[|src| - FOOTER_SIZE..]
  {
    if |src| < FOOTER_SIZE then Err(SourceTooShort)
    else
      var b := src[|src| - FOOTER_SIZE..];
      if b[..3] != Ascii("TAG") then Err(MissingFooter)
      else
        var track := Signed8(b[126]);
        var f := Footer(Version(1, if track == 0 then 0 else 1, 0), 0, FOOTER_SIZE,
                        b[3..33], b[33..63], b[63..93], b[93..97], b[97..126], track, Signed8(b[127]));
        FooterBytes(b, f);
        Ok(f)
  }

  // The 128 bytes of a trailer are the encoding of the fields unpacked from them.
  lemma FooterBytes(b: Bytes, f: Footer)
    requires |b| == FOOTER_SIZE && b[..3] == Ascii("TAG")
    requires f.title == b[3..33] && f.artist == b[33..63] && f.album == b[63..93]
    requires f.year == b[93..97] && f.comment == b[97..126]
    requires f.track == Signed8(b[126]) && f.genre == Signed8(b[127])
    requires f.version == Version(1, if f.track == 0 then 0 else 1, 0) && f.flags == 0 && f.size == FOOTER_SIZE
    ensures WellFormedFooter(f) && EncodeFooter(f) == b
  {
    SignedByteOfSigned8(b[126]);
    SignedByteOfSigned8(b[127]);
    assert b == b[..3] + b[3..33] + b[33..63] + b[63..93] + b[93..97] + b[97..126] + [b[126], b[127]];
  }

  /** A footer written after any prefix is read back unchanged. */
  lemma FooterRoundTrip(prefix: Bytes, f: Footer)
    requires WellFormedFooter(f)
    ensures ReadId3v1Footer(prefix + EncodeFooter(f)) == Ok(f)
  {
    var enc := EncodeFooter(f);
    var src := prefix + enc;
    assert src[|src| - FOOTER_SIZE..] == enc;
    assert enc[..3] == Ascii("TAG");
    assert enc[3..33] == f.title && enc[33..63] == f.artist && enc[63..93] == f.album;
    assert enc[93..97] == f.year && enc[97..126] == f.comment;
    assert Signed8(enc[126]) == f.track && Signed8(enc[127]) == f.genre;
  }

  /** Only the last 128 bytes of a long enough stream are looked at. */
  lemma FooterIgnoresPrefix(prefix: Bytes, src: Bytes)
    requires |src| >= FOOTER_SIZE
    ensures ReadId3v1Footer(prefix + src) == ReadId3v1Footer(src)
  {
    assert (prefix + src)[|prefix + src| - FOOTER_SIZE..] == src[|src| - FOOTER_SIZE..];
  }
}
