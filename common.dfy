/**
 * `@@COMMON_ID3V23_FRAMES` and `ID3#parse_common_id3v23_frame`: seven well-known frame
 * keys, each of which sets one attribute of the `ID3` object. Text frames (section 4.2
 * of ID3v2.3.0) hand over their text; `COMM` (section 4.11) hands over its payload after
 * the encoding byte and the three-byte language code. `TCON` goes through `parse_genre`.
 */
module CommonFields {
  import opened Wrappers
  import opened Unpack
  import opened Records
  import opened Genres
  import opened Frames

  /** The attributes that common frames set. */
  datatype Field = Title | Artist | Album | Track | Year | Genre | Comment

  /** Those attributes of an `ID3` object, None standing for nil. */
  datatype Fields = Fields(
    title: Option<Bytes>, artist: Option<Bytes>, album: Option<Bytes>, track: Option<Bytes>,
    year: Option<Bytes>, genre: Option<Bytes>, comment: Option<Bytes>)

  /** The attributes of a newly allocated object. */
  const NO_FIELDS: Fields := Fields(None, None, None, None, None, None, None)

  function Get(fs: Fields, f: Field): Option<Bytes> {
    match f
    case Title => fs.title
    case Artist => fs.artist
    case Album => fs.album
    case Track => fs.track
    case Year => fs.year
    case Genre => fs.genre
    case Comment => fs.comment
  }

  /** Setting one attribute, as each entry of the table does. */
  function Assign(fs: Fields, f: Field, v: Option<Bytes>): (r: Fields)
    ensures Get(r, f) == v
    ensures forall g :: g != f ==> Get(r, g) == Get(fs, g)
  {
    match f
    case Title => fs.(title := v)
    case Artist => fs.(artist := v)
    case Album => fs.(album := v)
    case Track => fs.(track := v)
    case Year => fs.(year := v)
    case Genre => fs.(genre := v)
    case Comment => fs.(comment := v)
  }

  /** The key of the frame that sets each attribute. */
  function KeyOf(f: Field): (key: Bytes)
    ensures |key| == 4
  {
    match f
    case Comment => [0x43, 0x4F, 0x4D, 0x4D]  // "COMM"
    case Album => [0x54, 0x41, 0x4C, 0x42]    // "TALB"
    case Genre => [0x54, 0x43, 0x4F, 0x4E]    // "TCON"
    case Title => [0x54, 0x49, 0x54, 0x32]    // "TIT2"
    case Artist => [0x54, 0x50, 0x45, 0x31]   // "TPE1"
    case Track => [0x54, 0x52, 0x43, 0x4B]    // "TRCK"
    case Year => [0x54, 0x59, 0x45, 0x52]     // "TYER"
  }

  /** The table lookup: the attribute a key sets, when it is one of the seven. */
  function CommonField(key: Bytes): (f: Option<Field>)
    ensures f.Some? ==> KeyOf(f.value) == key
  {
    if key == KeyOf(Comment) then Some(Comment)
    else if key == KeyOf(Album) then Some(Album)
    else if key == KeyOf(Genre) then Some(Genre)
    else if key == KeyOf(Title) then Some(Title)
    else if key == KeyOf(Artist) then Some(Artist)
    else if key == KeyOf(Track) then Some(Track)
    else if key == KeyOf(Year) then Some(Year)
    else None
  }

  /** The seven keys are distinct, so each names exactly its own attribute. */
  lemma CommonFieldOfKey(f: Field)
    ensures CommonField(KeyOf(f)) == Some(f)
  {
    var k := KeyOf(f);
    assert k[0] == 0x43 ==> f == Comment;
    assert k[1] == 0x41 ==> f == Album;
    assert k[1] == 0x43 ==> f == Genre;
    assert k[1] == 0x49 ==> f == Title;
    assert k[1] == 0x50 ==> f == Artist;
    assert k[1] == 0x52 ==> f == Track;
  }

  /** Every key but the seven is ignored by the table. */
  lemma CommonFieldNone(key: Bytes)
    ensures CommonField(key).None? <==> forall f: Field :: key != KeyOf(f)
  {
    if CommonField(key).None? {
      forall f: Field ensures key != KeyOf(f) {
        CommonFieldOfKey(f);
      }
    }
  }

  /**
   * The value `parse_common_id3v23_frame` passes on: the text of a text frame, or the
   * `COMM` payload unpacked with `ca3A*` (its last element, with trailing padding
   * removed). None where the Ruby code would call a method on nil.
   */
  function CommonValue(fr: Frame): (v: Option<Bytes>)
    ensures IsTextKey(fr.key) ==> (v.Some? <==> fr.body.Text?)
    ensures !IsTextKey(fr.key) ==> (v.Some? <==> fr.key == KeyOf(Comment) && fr.data.Some?)
    ensures v.Some? && !IsTextKey(fr.key) ==> |v.value| == 0 || !IsPad(v.value[|v.value| - 1])
  {
    if IsTextKey(fr.key) then
      match fr.body
      case Text(_, text) => Some(text)
      case Opaque => None
    else if fr.key == KeyOf(Comment) then
      match fr.data
      case Some(p) => Some(StripPadding(p[if |p| < 4 then |p| else 4..]))
      case None => None
    else None
  }

  /** The payload of a comment frame: encoding byte, language code, then the text. */
  function EncodeComment(encoding: int, language: Bytes, text: Bytes): (s: Bytes)
    requires -128 <= encoding < 128 && |language| == 3
    ensures |s| == 4 + |text|
  {
    [SignedByte(encoding)] + language + text
  }

  /** A comment text not ending in padding comes back from its payload, whatever padding follows. */
  lemma CommentRoundTrip(encoding: int, language: Bytes, text: Bytes, pad: Bytes, size: nat, flags: Option<nat>)
    requires -128 <= encoding < 128 && |language| == 3
    requires |text| == 0 || !IsPad(text[|text| - 1])
    requires forall i :: 0 <= i < |pad| ==> IsPad(pad[i])
    ensures CommonValue(Frame(KeyOf(Comment), size, flags, Some(EncodeComment(encoding, language, text) + pad), Opaque))
         == Some(text)
  {
    var key := KeyOf(Comment);
    assert !IsTextKey(key) by {
      assert forall k :: 0 <= k < 4 ==> key[k] != LETTER_T;
    }
    var p := EncodeComment(encoding, language, text) + pad;
    assert p[4..] == text + pad;
    StripPaddingOfPadded(text, pad);
  }

  /**
   * A text frame of the table as a writer emits it passes on its text, whatever the
   * encoding byte and the padding after the text; every attribute but the genre is
   * then set to exactly that text.
   */
  lemma TextValueRoundTrip(fields: Fields, f: Field, encoding: int, text: Bytes, pad: Bytes, size: nat, flags: Option<nat>)
    requires f != Comment && -128 <= encoding < 128
    requires |text| == 0 || !IsPad(text[|text| - 1])
    requires forall i :: 0 <= i < |pad| ==> IsPad(pad[i])
    ensures var p := EncodeText(encoding, text) + pad;
      CommonValue(Frame(KeyOf(f), size, flags, Some(p), TextBody(p))) == Some(text)
    ensures var p := EncodeText(encoding, text) + pad;
      f != Genre ==> ApplyCommon(fields, Frame(KeyOf(f), size, flags, Some(p), TextBody(p))) == Ok(Assign(fields, f, Some(text)))
  {
    var key := KeyOf(f);
    assert IsTextKey(key) by { assert key[0] == LETTER_T; }
    CommonFieldOfKey(f);
    TextRoundTrip(encoding, text, pad);
  }

  /**
   * One call of `parse_common_id3v23_frame` for a frame the loop has read, or nothing
   * for a key outside the table. Only the attribute the key names changes: to the value
   * passed on, or for `TCON` to what `parse_genre` makes of it.
   */
  function ApplyCommon(fields: Fields, fr: Frame): (r: Result<Fields, Error>)
    ensures CommonField(fr.key).None? ==> r == Ok(fields)
    ensures r.Ok? ==> forall g :: Some(g) != CommonField(fr.key) ==> Get(r.value, g) == Get(fields, g)
    ensures r.Ok? && CommonField(fr.key).Some? && CommonField(fr.key) != Some(Genre) ==>
      Get(r.value, CommonField(fr.key).value) == CommonValue(fr)
    ensures r.Ok? && CommonField(fr.key) == Some(Genre) ==>
      CommonValue(fr).Some? && ParseGenreText(CommonValue(fr).value) == Ok(r.value.genre)
    ensures r.Err? ==> CommonField(fr.key).Some?
    ensures r.Err? && CommonValue(fr).None? ==> r.error == TruncatedFrame
    ensures CommonField(fr.key).Some? && CommonValue(fr).None? ==> r == Err(TruncatedFrame)
    ensures r.Err? && CommonValue(fr).Some? ==>
      CommonField(fr.key) == Some(Genre) && ParseGenreText(CommonValue(fr).value) == Err(r.error)
  {
    match CommonField(fr.key)
    case None => Ok(fields)
    case Some(f) =>
      match CommonValue(fr)
      case None => Err(TruncatedFrame)
      case Some(v) =>
        if f != Genre then Ok(Assign(fields, f, Some(v)))
        else
          ApplyGenre(fields, v)
  }

  /** The genre entry of the table: the parsed text, or the failure of parsing it. */
  function ApplyGenre(fields: Fields, v: Bytes): (r: Result<Fields, Error>)
    ensures r.Ok? ==> ParseGenreText(v) == Ok(r.value.genre)
    ensures r.Ok? ==> forall g :: g != Genre ==> Get(r.value, g) == Get(fields, g)
    ensures r.Err? ==> ParseGenreText(v) == Err(r.error)
  {
    match ParseGenreText(v)
    case Ok(genre) => Ok(Assign(fields, Genre, genre))
    case Err(e) => Err(e)
  }

  /** The common frames of a sequence applied in order, stopping at the first failure. */
  function FoldCommon(fields: Fields, frames: seq<Frame>): (r: Result<Fields, Error>)
    ensures r.Err? ==> r.error in {TruncatedFrame, UnknownGenre, GenreCodeTooBig}
    decreases |frames|
  {
    if |frames| == 0 then Ok(fields)
    else
      var next :- ApplyCommon(fields, frames[0]);
      FoldCommon(next, frames[1..])
  }

  /** Folding over one more frame applies that frame to the result of the rest. */
  lemma {:induction false} FoldCommonAppend(fields: Fields, frames: seq<Frame>, last: Frame)
    ensures FoldCommon(fields, frames + [last])
         == match FoldCommon(fields, frames)
            case Ok(g) => ApplyCommon(g, last)
            case Err(e) => Err(e)
    decreases |frames|
  {
    if |frames| > 0 {
      var all := frames + [last];
      assert all[0] == frames[0] && all[1..] == frames[1..] + [last];
      var first := ApplyCommon(fields, frames[0]);
      if first.Ok? {
        assert FoldCommon(fields, all) == FoldCommon(first.value, frames[1..] + [last]);
        assert FoldCommon(fields, frames) == FoldCommon(first.value, frames[1..]);
        FoldCommonAppend(first.value, frames[1..], last);
      }
    } else {
      assert frames + [last] == [last] && [last][1..] == [];
    }
  }

  /**
   * A later frame overwrites the value of an earlier one with the same key: the last
   * frame of a successful fold decides the attribute its key names: its value, or for
   * `TCON` what `parse_genre` makes of its text.
   */
  lemma LastWriterWins(fields: Fields, frames: seq<Frame>, last: Frame, f: Field)
    requires CommonField(last.key) == Some(f)
    requires FoldCommon(fields, frames + [last]).Ok?
    ensures f != Genre ==> Get(FoldCommon(fields, frames + [last]).value, f) == CommonValue(last)
    ensures f == Genre ==>
      CommonValue(last).Some? && ParseGenreText(CommonValue(last).value) == Ok(FoldCommon(fields, frames + [last]).value.genre)
  {
    FoldCommonAppend(fields, frames, last);
  }

  /** An attribute no frame's key names keeps the value it had before the fold. */
  lemma {:induction false} FoldLeavesOthers(fields: Fields, frames: seq<Frame>, f: Field)
    requires forall i :: 0 <= i < |frames| ==> frames[i].key != KeyOf(f)
    requires FoldCommon(fields, frames).Ok?
    ensures Get(FoldCommon(fields, frames).value, f) == Get(fields, f)
    decreases |frames|
  {
    if |frames| > 0 {
      var next := ApplyCommon(fields, frames[0]).value;
      assert Get(next, f) == Get(fields, f);
      FoldLeavesOthers(next, frames[1..], f);
    }
  }

  /**
   * A `TCON` frame whose text is one line, neither a code nor a parenthesised code, sets
   * the genre to nil, whatever its encoding byte.
   */
  lemma FreeTextGenre(fields: Fields, fr: Frame, encoding: int, text: Bytes)
    requires fr.key == KeyOf(Genre) && fr.body == Text(encoding, text)
    requires NEWLINE !in text && ParenForm(text).None? && !AllDigits(text)
    ensures ApplyCommon(fields, fr) == Ok(fields.(genre := None))
  {
    assert IsTextKey(fr.key) by { assert fr.key[0] == LETTER_T; }
    CommonFieldOfKey(Genre);
    ParseGenreFreeText(text);
  }
}
