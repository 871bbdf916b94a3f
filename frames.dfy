/**
 * One step of `ID3#read_id3v23_frames`: a ten-byte frame header (section 3.3 of
 * ID3v2.3.0) unpacked with `a4Nn`, then the payload, turned into an `ID3::TextFrame`
 * when the key starts with "T" (section 4.2) and into a plain `ID3::Frame` otherwise.
 */
module Frames {
  import opened Wrappers
  import opened Unpack
  import opened Records

  const FRAME_HEADER_SIZE: nat := 10

  const LETTER_T: byte := 0x54

  /** `s =~ /^c/`: some line of `s` starts with the byte `c`. */
  predicate LineStartsWith(s: Bytes, c: byte) {
    exists k :: 0 <= k < |s| && s[k] == c && (k == 0 || s[k - 1] == NEWLINE)
  }

  /**
   * The keys that make a text frame. For a key of one line, which every four-byte key
   * without a newline is, that is a key starting with "T".
   */
  predicate IsTextKey(key: Bytes)
    ensures NEWLINE !in key ==> (IsTextKey(key) <==> |key| > 0 && key[0] == LETTER_T)
  {
    LineStartsWith(key, LETTER_T)
  }

  /** `TextFrame#initialize`: the payload unpacked with `cA*`, a signed encoding byte and the padded text. */
  function TextBody(payload: Bytes): (b: Body)
    requires |payload| > 0
    ensures b.Text? && -128 <= b.encoding < 128 && b.text <= payload[1..]
  {
    Text(Signed8(payload[0]), StripPadding(payload[1..]))
  }

  /** The payload of a text frame: the encoding byte, then the text. */
  function EncodeText(encoding: int, text: Bytes): (s: Bytes)
    requires -128 <= encoding < 128
    ensures |s| == |text| + 1
  {
    [SignedByte(encoding)] + text
  }

  /** A text that does not end in padding comes back from its payload, whatever padding follows it. */
  lemma TextRoundTrip(encoding: int, text: Bytes, pad: Bytes)
    requires -128 <= encoding < 128
    requires |text| == 0 || !IsPad(text[|text| - 1])
    requires forall i :: 0 <= i < |pad| ==> IsPad(pad[i])
    ensures TextBody(EncodeText(encoding, text) + pad) == Text(encoding, text)
  {
    var p := EncodeText(encoding, text) + pad;
    assert p[1..] == text + pad;
    StripPaddingOfPadded(text, pad);
  }

  /** The three fields of a frame header. */
  datatype FrameHeader = FrameHeader(key: Bytes, size: nat, flags: Option<nat>)

  /**
   * Ten header bytes read at `pos` and unpacked with `a4Nn`, with the position after
   * them. Fewer than eight bytes leave the size nil, which the size test then fails on;
   * eight or nine leave only the flags nil.
   */
  function ReadFrameHeader(src: Bytes, pos: nat): (r: Result<(FrameHeader, nat), Error>)
    ensures r.Err? ==> r.error == TruncatedFrame
    ensures r.Ok? ==> pos + 8 <= r.value.1 <= pos + FRAME_HEADER_SIZE && r.value.1 <= |src|
  {
    match Read(src, pos, FRAME_HEADER_SIZE)
    case None => Err(TruncatedFrame)
    case Some(bytes) =>
      if |bytes| < 8 then Err(TruncatedFrame)
      else
        var flags := if |bytes| == FRAME_HEADER_SIZE then Some(BigEndian(bytes[8..10])) else None;
        Ok((FrameHeader(bytes[..4], BigEndian(bytes[4..8]), flags), pos + |bytes|))
  }

  /** Where each field of a frame header comes from, and when the header cannot be read. */
  lemma ReadFrameHeaderFields(src: Bytes, pos: nat)
    ensures var r := ReadFrameHeader(src, pos);
      && (r.Ok? <==> pos + 8 <= |src|)
      && (r.Ok? ==> r.value.1 == if pos + FRAME_HEADER_SIZE <= |src| then pos + FRAME_HEADER_SIZE else |src|)
      && (r.Ok? ==> r.value.0.key == src[pos..pos + 4])
      && (r.Ok? ==> r.value.0.size == BigEndian(src[pos + 4..pos + 8]))
      && (r.Ok? ==> (r.value.0.flags.Some? <==> pos + FRAME_HEADER_SIZE <= |src|))
      && (r.Ok? && r.value.0.flags.Some? ==> r.value.0.flags.value == BigEndian(src[pos + 8..pos + 10]))
  {
    if pos + 8 <= |src| {
      var bytes := Read(src, pos, FRAME_HEADER_SIZE).value;
      assert bytes[..4] == src[pos..pos + 4];
      assert bytes[4..8] == src[pos + 4..pos + 8];
      assert |bytes| == FRAME_HEADER_SIZE ==> bytes[8..10] == src[pos + 8..pos + 10];
    }
  }

  /**
   * One iteration of the frame loop at `pos`: the frame it appends, if any, and the
   * stream position after it. A zero size appends nothing. The payload is read with the
   * declared size, whatever the tag size says, and may come back short or nil at the
   * end of the stream; a text frame cannot be built from a nil payload.
   */
  function ReadFrameAt(src: Bytes, pos: nat): (r: Result<(Option<Frame>, nat), Error>)
    ensures r.Err? ==> r.error == TruncatedFrame
    ensures r.Ok? ==> pos < r.value.1 <= |src|
  {
    var head :- ReadFrameHeader(src, pos);
    var (h, next) := head;
    if h.size == 0 then Ok((None, next))
    else
      var data := Read(src, next, h.size);
      var after := if data.Some? then next + |data.value| else next;
      if IsTextKey(h.key) then
        if data.None? then Err(TruncatedFrame)
        else Ok((Some(Frame(h.key, h.size, h.flags, data, TextBody(data.value))), after))
      else Ok((Some(Frame(h.key, h.size, h.flags, data, Opaque)), after))
  }

  /**
   * What one iteration guarantees: the position moves forward, past the whole header
   * unless the stream ends; an appended frame has a nonzero size, is a text frame exactly
   * when its key makes it one, and has its body made from its payload; the position
   * then lies just past what was read of the payload.
   */
  lemma ReadFrameAtFacts(src: Bytes, pos: nat)
    ensures var r := ReadFrameAt(src, pos);
      && (r.Ok? ==> pos < r.value.1 <= |src|)
      && (r.Ok? ==> r.value.1 >= pos + FRAME_HEADER_SIZE || r.value.1 == |src|)
      && (r.Ok? && r.value.0.Some? ==> var f := r.value.0.value;
            f.size > 0 && (f.body.Text? <==> IsTextKey(f.key)) && (f.data.Some? ==> |f.data.value| <= f.size))
      && (r.Ok? && r.value.0.Some? && r.value.0.value.body.Text? ==> var f := r.value.0.value;
            f.data.Some? && |f.data.value| > 0 && f.body == TextBody(f.data.value))
      && (r.Ok? && r.value.0.Some? && r.value.0.value.data.Some? ==>
            r.value.1 == pos + FRAME_HEADER_SIZE + |r.value.0.value.data.value|)
  {
    ReadFrameHeaderFields(src, pos);
  }

  /** Where the loop stands after reading a frame header at `pos`: ten bytes on, or the end of the stream. */
  function AfterHeader(src: Bytes, pos: nat): nat {
    if pos + FRAME_HEADER_SIZE <= |src| then pos + FRAME_HEADER_SIZE else |src|
  }

  /**
   * One iteration in terms of the stream. It fails exactly when the header is cut short
   * before its size field, or when a text frame of nonzero size finds the stream ended.
   * It appends nothing exactly for size 0. An appended frame holds the header's key,
   * size and flags, and whatever `read` returns of its payload.
   */
  lemma ReadFrameAtOutcome(src: Bytes, pos: nat)
    ensures pos + 8 > |src| ==> ReadFrameAt(src, pos) == Err(TruncatedFrame)
    ensures pos + 8 <= |src| ==>
      var r, key, size, next := ReadFrameAt(src, pos), src[pos..pos + 4], BigEndian(src[pos + 4..pos + 8]), AfterHeader(src, pos);
      && (r.Err? <==> size > 0 && IsTextKey(key) && next == |src|)
      && (r.Ok? ==> (r.value.0.None? <==> size == 0))
      && (r.Ok? && r.value.0.None? ==> r.value.1 == next)
      && (r.Ok? && r.value.0.Some? ==> var f := r.value.0.value;
            && size > 0 && f.key == key && f.size == size
            && f.flags == (if pos + FRAME_HEADER_SIZE <= |src| then Some(BigEndian(src[pos + 8..pos + 10])) else None)
            && f.data == Read(src, next, size))
  {
    ReadFrameHeaderFields(src, pos);
  }

  /**
   * A payload cut short by the end of the stream is kept as far as it goes, and the
   * loop then stands at the end of the stream.
   */
  lemma ShortPayloadKept(src: Bytes, pos: nat)
    requires pos + FRAME_HEADER_SIZE < |src| < pos + FRAME_HEADER_SIZE + BigEndian(src[pos + 4..pos + 8])
    ensures var r := ReadFrameAt(src, pos);
      r.Ok? && r.value.0.Some? && r.value.0.value.data == Some(src[pos + FRAME_HEADER_SIZE..]) && r.value.1 == |src|
  {
    ReadFrameAtOutcome(src, pos);
  }

  /** A frame as a writer emits it: four key bytes, the payload length, two flag bytes and the payload. */
  predicate WellFormedFrame(f: Frame) {
    && |f.key| == 4
    && f.data.Some? && 0 < |f.data.value| == f.size < Pow256(4)
    && f.flags.Some? && f.flags.value < Pow256(2)
    && f.body == (if IsTextKey(f.key) then TextBody(f.data.value) else Opaque)
  }

  function EncodeFrame(f: Frame): (s: Bytes)
    requires WellFormedFrame(f)
    ensures |s| == FRAME_HEADER_SIZE + f.size
  {
    f.key + ToBigEndian(f.size, 4) + ToBigEndian(f.flags.value, 2) + f.data.value
  }

  // Each field of an encoded frame lies where the header layout puts it.
  lemma EncodedFrameSlices(src: Bytes, pos: nat, f: Frame)
    requires WellFormedFrame(f)
    requires pos + FRAME_HEADER_SIZE + f.size <= |src| && src[pos..pos + FRAME_HEADER_SIZE + f.size] == EncodeFrame(f)
    ensures src[pos..pos + 4] == f.key
    ensures src[pos + 4..pos + 8] == ToBigEndian(f.size, 4)
    ensures src[pos + 8..pos + 10] == ToBigEndian(f.flags.value, 2)
    ensures src[pos + FRAME_HEADER_SIZE..pos + FRAME_HEADER_SIZE + f.size] == f.data.value
  {
    SlicesOfFour(src, pos, f.key, ToBigEndian(f.size, 4), ToBigEndian(f.flags.value, 2), f.data.value);
  }

  // The header of an encoded frame is read back as written.
  lemma EncodedFrameHeader(src: Bytes, pos: nat, f: Frame)
    requires WellFormedFrame(f)
    requires pos + FRAME_HEADER_SIZE + f.size <= |src| && src[pos..pos + FRAME_HEADER_SIZE + f.size] == EncodeFrame(f)
    ensures ReadFrameHeader(src, pos) == Ok((FrameHeader(f.key, f.size, f.flags), pos + FRAME_HEADER_SIZE))
    ensures src[pos + FRAME_HEADER_SIZE..pos + FRAME_HEADER_SIZE + f.size] == f.data.value
  {
    ReadFrameHeaderFields(src, pos);
    EncodedFrameSlices(src, pos, f);
    var sizeBytes, flagBytes := src[pos + 4..pos + 8], src[pos + 8..pos + 10];
    BigEndianRoundTrip(f.size, 4);
    BigEndianRoundTrip(f.flags.value, 2);
    assert BigEndian(sizeBytes) == f.size && BigEndian(flagBytes) == f.flags.value;
  }

  /** An encoded frame, wherever it sits in the stream, is read back whole and the position moves past it. */
  lemma FrameRoundTrip(src: Bytes, pos: nat, f: Frame)
    requires WellFormedFrame(f)
    requires pos + FRAME_HEADER_SIZE + f.size <= |src| && src[pos..pos + FRAME_HEADER_SIZE + f.size] == EncodeFrame(f)
    ensures ReadFrameAt(src, pos) == Ok((Some(f), pos + FRAME_HEADER_SIZE + f.size))
  {
    EncodedFrameHeader(src, pos, f);
    var next := pos + FRAME_HEADER_SIZE;
    assert Read(src, next, f.size) == f.data;
  }

  /** A header whose size field is zero yields no frame and moves the position past the header only. */
  lemma ZeroSizeFrame(src: Bytes, pos: nat)
    requires pos + FRAME_HEADER_SIZE <= |src|
    requires src[pos + 4..pos + 8] == [0, 0, 0, 0]
    ensures ReadFrameAt(src, pos) == Ok((None, pos + FRAME_HEADER_SIZE))
  {
    ReadFrameHeaderFields(src, pos);
    BigEndianFour(src[pos + 4..pos + 8]);
  }
}
