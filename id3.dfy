/**
 * The `ID3` object: `ID3#initialize` reads the ID3v2 header at the start of the stream
 * and the frames after it, or falls back to the ID3v1 trailer at its end; `to_hash`
 * indexes the frames by key. `Load` states in one value what a successful
 * `initialize` leaves behind; the class does the same work step by step and is proved
 * to agree with it.
 */
module Id3 {
  import opened Wrappers
  import opened Unpack
  import opened Records
  import opened Genres
  import opened SizeCodec
  import opened TagHeader
  import opened TagFooter
  import opened Frames
  import opened CommonFields
  import opened FrameScan

  /** The options hash of `ID3.new`: `:try_id3v1` is nil when absent, and only a true value is truthy. */
  datatype InitOptions = InitOptions(tryId3v1: Option<bool>)

  /** "Café" in Latin-1 and "1999": the texts of the example tag below. */
  const CAFE: Bytes := [0x43, 0x61, 0x66, 0xE9]
  const YEAR_1999: Bytes := [0x31, 0x39, 0x39, 0x39]

  /** `DEFAULT_INIT_OPTIONS`. */
  const DEFAULT_INIT_OPTIONS: InitOptions := InitOptions(Some(true))

  /** `opts ||= DEFAULT_INIT_OPTIONS` followed by the test of `opts[:try_id3v1]`. */
  function TryId3v1(opts: Option<InitOptions>): (b: bool)
    ensures opts.None? ==> b
    ensures opts.Some? ==> (b <==> opts.value.tryId3v1 == Some(true))
  {
    var o := if opts.None? then DEFAULT_INIT_OPTIONS else opts.value;
    o.tryId3v1 == Some(true)
  }

  /** Every failure inside `initialize` is re-raised as "Couldn't parse ID3 header", keeping its cause. */
  datatype LoadError = CouldNotParse(cause: Error)

  /** What a successful `initialize` leaves in the object: `header`, `version`, `frames` and the common attributes. */
  datatype Loaded = Loaded(header: TagInfo, version: Version, frames: Option<seq<Frame>>, fields: Fields)

  /**
   * `read_frames` with the stream at `start`, as a value: ID3v2.2 frames are refused,
   * ID3v2.3 and ID3v2.4 frames are read by the frame loop, and any other version reads
   * nothing.
   */
  function FramesOf(h: Header, src: Bytes, start: nat, fields: Fields): (r: Result<(Option<seq<Frame>>, Fields), Error>)
    ensures r.Ok? ==> (r.value.0.Some? <==> h.version.At(0) == Some(2))
    ensures r.Ok? && r.value.0.None? ==> r.value.1 == fields
    ensures r.Err? ==> r.error in {Id3v22Frames, TruncatedFrame, UnknownGenre, GenreCodeTooBig}
  {
    if h.version.At(0) == Some(2) then
      if h.version.At(1) == Some(2) then Err(Id3v22Frames)
      else
        var scanned :- ScanFrames(src, start, start, h.size, fields);
        Ok((Some(scanned.0), scanned.1))
    else Ok((None, fields))
  }

  /**
   * The attributes the ID3v1 branch of `initialize` copies from a trailer: its text
   * fields as unpacked, and the genre looked up by code. The track is left alone.
   */
  function V1Fields(f: Footer, fields: Fields): (g: Fields)
    ensures g.track == fields.track
    ensures g.genre.Some? <==> -GENRE_COUNT <= f.genre < GENRE_COUNT
  {
    fields.(title := Some(f.title), artist := Some(f.artist), album := Some(f.album),
            year := Some(f.year), comment := Some(f.comment), genre := GenreByCode(f.genre))
  }

  /** The ID3v2 branch of `initialize`: the header `h` has been read and the frames follow it. */
  function LoadV2(h: Header, src: Bytes, fields: Fields): (r: Result<Loaded, LoadError>)
    ensures r.Ok? ==> r.value.header == V2(h) && r.value.version == h.version
    ensures r.Ok? ==> (r.value.frames.Some? <==> h.version.At(0) == Some(2))
    ensures r.Err? ==> r.error.cause in {Id3v22Frames, TruncatedFrame, UnknownGenre, GenreCodeTooBig}
  {
    match FramesOf(h, src, HEADER_SIZE, fields)
    case Err(e) => Err(CouldNotParse(e))
    case Ok((frames, updated)) => Ok(Loaded(V2(h), h.version, frames, updated))
  }

  /** The ID3v1 branch of `initialize`: the trailer is read, and no frames are. */
  function LoadV1(src: Bytes, fields: Fields): (r: Result<Loaded, LoadError>)
    ensures r.Ok? ==> r.value.header.V1? && r.value.frames.None? && r.value.version == r.value.header.footer.version
    ensures r.Ok? ==> r.value.fields.track == fields.track
    ensures r.Err? ==> r.error.cause in {SourceTooShort, MissingFooter}
  {
    match ReadId3v1Footer(src)
    case Err(e) => Err(CouldNotParse(e))
    case Ok(f) => Ok(Loaded(V1(f), f.version, None, V1Fields(f, fields)))
  }

  /**
   * `initialize` as a value, on an object whose attributes are `fields`. An ID3v2 header
   * wins; without one, the ID3v1 trailer is read when the options allow it, and the
   * load fails otherwise. The stream is at `HEADER_SIZE` once a header has been read.
   */
  function Load(src: Bytes, opts: Option<InitOptions>, fields: Fields): (r: Result<Loaded, LoadError>)
    ensures r.Ok? ==> r.value.version == r.value.header.Version()
    ensures r.Err? && r.error.cause == NoTag ==> !TryId3v1(opts) && |src| > 0 && !HasV2Marker(src)
  {
    match ReadId3v2Header(src)
    case Err(e) => Err(CouldNotParse(e))
    case Ok(Some(h)) => LoadV2(h, src, fields)
    case Ok(None) => if TryId3v1(opts) then LoadV1(src, fields) else Err(CouldNotParse(NoTag))
  }

  /**
   * `to_hash` on a frame list: each frame stored under its key in list order, so that
   * a later frame replaces an earlier one with the same key.
   */
  function KeyIndex(frames: seq<Frame>): (m: map<Bytes, Frame>)
    ensures m.Keys == set i | 0 <= i < |frames| :: frames[i].key
  {
    if |frames| == 0 then map[]
    else
      var last := frames[|frames| - 1];
      var before := frames[..|frames| - 1];
      var m := KeyIndex(before)[last.key := last];
      assert forall i :: 0 <= i < |before| ==> before[i] == frames[i];
      m
  }

  /** The object of `ID3.new`: the tag it read and the attributes it set. */
  class ID3 {
    var header: Option<TagInfo>
    var version: Option<Version>
    var frames: Option<seq<Frame>>
    var title: Option<Bytes>
    var track: Option<Bytes>
    var artist: Option<Bytes>
    var album: Option<Bytes>
    var year: Option<Bytes>
    var genre: Option<Bytes>
    var comment: Option<Bytes>

    /** A newly allocated object: every attribute nil. */
    constructor ()
      ensures header.None? && version.None? && frames.None? && Attributes() == NO_FIELDS
    {
      header, version, frames := None, None, None;
      title, track, artist, album, year, genre, comment := None, None, None, None, None, None, None;
    }

    /** The seven common attributes. */
    function Attributes(): Fields
      reads this
    {
      Fields(title, artist, album, track, year, genre, comment)
    }

    /** The object's state as `Load` describes it, once a header and a version have been set. */
    function Contents(): Option<Loaded>
      reads this
    {
      if header.Some? && version.Some? then Some(Loaded(header.value, version.value, frames, Attributes()))
      else None
    }

    /**
     * `parse_common_id3v23_frame` on a frame whose key is in the table: the attribute
     * the key names is set, or the call fails and the attributes stay as they were.
     */
    method ParseCommonFrame(fr: Frame) returns (err: Option<Error>)
      requires CommonField(fr.key).Some?
      modifies this
      ensures header == old(header) && version == old(version) && frames == old(frames)
      ensures match ApplyCommon(old(Attributes()), fr)
              case Ok(updated) => err.None? && Attributes() == updated
              case Err(e) => err == Some(e) && Attributes() == old(Attributes())
    {
      var value := CommonValue(fr);
      if value.None? {
        return Some(TruncatedFrame);
      }
      match CommonField(fr.key).value {
        case Comment => comment := value;
        case Album => album := value;
        case Title => title := value;
        case Artist => artist := value;
        case Track => track := value;
        case Year => year := value;
        case Genre =>
          var parsed := ParseGenreText(value.value);
          if parsed.Err? {
            return Some(parsed.error);
          }
          genre := parsed.value;
      }
      return None;
    }

    /**
     * `read_id3v23_frames` with the stream at `start`: frames are read while the next
     * header starts within the tag size, each common frame is applied as soon as it is
     * read, and the frames are returned in stream order.
     */
    method ReadId3v23Frames(src: Bytes, start: nat) returns (r: Result<seq<Frame>, Error>)
      requires header.Some?
      modifies this
      ensures header == old(header) && version == old(version) && frames == old(frames)
      ensures match ScanFrames(src, start, start, old(header).value.Size(), old(Attributes()))
              case Ok((read, updated)) => r == Ok(read) && Attributes() == updated
              case Err(e) => r == Err(e)
    {
      var limit := header.value.Size();
      var ret: seq<Frame> := [];
      var pos := start;
      PrependTwice([], [], ScanFrames(src, start, pos, limit, Attributes()));
      while pos - start + FRAME_HEADER_SIZE < limit
        invariant start <= pos
        invariant header == old(header) && version == old(version) && frames == old(frames)
        invariant ScanFrames(src, start, start, limit, old(Attributes()))
               == Prepend(ret, ScanFrames(src, start, pos, limit, Attributes()))
        decreases |src| - pos
      {
        var step := ReadFrameAt(src, pos);
        if step.Err? {
          ScanReadFailure(src, start, pos, limit, Attributes());
          return Err(step.error);
        }
        var (read, next) := step.value;
        if read.None? {
          ScanSkip(src, start, pos, limit, Attributes(), next);
        } else {
          var f := read.value;
          ghost var before := Attributes();
          ScanStep(src, start, pos, limit, before, f, next);
          if CommonField(f.key).Some? {
            var err := ParseCommonFrame(f);
            if err.Some? {
              return Err(err.value);
            }
          }
          PrependTwice(ret, [f], ScanFrames(src, start, next, limit, Attributes()));
          ret := ret + [f];
        }
        pos := next;
      }
      ScanStops(src, start, pos, limit, Attributes());
      assert ret + [] == ret;
      return Ok(ret);
    }

    /**
     * `read_frames` with the stream at `start`: by the major and minor version of the
     * ID3v2 header just read.
     */
    method ReadFrames(src: Bytes, start: nat) returns (r: Result<Option<seq<Frame>>, Error>)
      requires header.Some? && header.value.V2?
      modifies this
      ensures header == old(header) && version == old(version) && frames == old(frames)
      ensures match FramesOf(old(header).value.header, src, start, old(Attributes()))
              case Ok((read, updated)) => r == Ok(read) && Attributes() == updated
              case Err(e) => r == Err(e)
    {
      var v := header.value.Version();
      if v.At(0) == Some(2) {
        if v.At(1) == Some(2) {
          return Err(Id3v22Frames);
        }
        var read := ReadId3v23Frames(src, start);
        if read.Err? {
          return Err(read.error);
        }
        return Ok(Some(read.value));
      }
      return Ok(None);
    }

    /**
     * `initialize` on the stream `src`: the object ends up as `Load` describes, or the
     * load fails with the failure `Load` names.
     */
    method Initialize(src: Bytes, opts: Option<InitOptions>) returns (err: Option<LoadError>)
      modifies this
      ensures match Load(src, opts, old(Attributes()))
              case Ok(loaded) => err.None? && Contents() == Some(loaded)
              case Err(e) => err == Some(e)
    {
      header, frames := None, None;
      var found := ReadId3v2Header(src);
      if found.Err? {
        return Some(CouldNotParse(found.error));
      }
      if found.value.Some? {
        err := InitializeV2(src, found.value.value);
      } else if TryId3v1(opts) {
        err := InitializeV1(src);
      } else {
        return Some(CouldNotParse(NoTag));
      }
    }

    /** The ID3v2 branch of `initialize`, with the stream just past the header `h`. */
    method InitializeV2(src: Bytes, h: Header) returns (err: Option<LoadError>)
      requires frames.None?
      modifies this
      ensures match LoadV2(h, src, old(Attributes()))
              case Ok(loaded) => err.None? && Contents() == Some(loaded)
              case Err(e) => err == Some(e)
    {
      header := Some(V2(h));
      var read := ReadFrames(src, HEADER_SIZE);
      if read.Err? {
        return Some(CouldNotParse(read.error));
      }
      frames := read.value;
      version := Some(h.version);
      return None;
    }

    /** The ID3v1 branch of `initialize`: the trailer's fields are copied, all but the track. */
    method InitializeV1(src: Bytes) returns (err: Option<LoadError>)
      requires frames.None?
      modifies this
      ensures match LoadV1(src, old(Attributes()))
              case Ok(loaded) => err.None? && Contents() == Some(loaded)
              case Err(e) => err == Some(e)
    {
      var footer := ReadId3v1Footer(src);
      if footer.Err? {
        return Some(CouldNotParse(footer.error));
      }
      SetFromFooter(footer.value);
      return None;
    }

    // The assignments of the ID3v1 branch, from the trailer `f`.
    method SetFromFooter(f: Footer)
      modifies this
      ensures header == Some(V1(f)) && version == Some(f.version) && frames == old(frames)
      ensures Attributes() == V1Fields(f, old(Attributes()))
    {
      header := Some(V1(f));
      artist, album, year, title, comment := Some(f.artist), Some(f.album), Some(f.year), Some(f.title), Some(f.comment);
      genre := GenreByCode(f.genre);
      version := Some(f.version);
    }

    /** `to_hash`: nil without frames, otherwise each frame under its key, the last one winning. */
    method ToHash() returns (r: Option<map<Bytes, Frame>>)
      ensures frames.None? ==> r.None?
      ensures frames.Some? ==> r == Some(KeyIndex(frames.value))
    {
      if frames.None? {
        return None;
      }
      var all := frames.value;
      var index: map<Bytes, Frame> := map[];
      for i := 0 to |all|
        invariant index == KeyIndex(all[..i])
      {
        assert all[..i + 1][..i] == all[..i];
        index := index[all[i].key := all[i]];
      }
      assert all[..|all|] == all;
      return Some(index);
    }
  }

  /** `ID3.new(io, opts)`: a new object initialised from the stream, or the failure that stopped it. */
  method Open(src: Bytes, opts: Option<InitOptions>) returns (r: Result<ID3, LoadError>)
    ensures r.Ok? ==> fresh(r.value) && r.value.Contents().Some? && Load(src, opts, NO_FIELDS) == Ok(r.value.Contents().value)
    ensures r.Err? ==> Load(src, opts, NO_FIELDS) == Err(r.error)
  {
    var id3 := new ID3();
    var err := id3.Initialize(src, opts);
    if err.Some? {
      return Err(err.value);
    }
    return Ok(id3);
  }

  // A pass of the loop that skips a frame leaves the rest of the loop as it was.
  lemma ScanSkip(src: Bytes, start: nat, pos: nat, limit: nat, fields: Fields, next: nat)
    requires Continues(start, pos, limit) && ReadFrameAt(src, pos) == Ok((None, next))
    ensures ScanFrames(src, start, pos, limit, fields) == ScanFrames(src, start, next, limit, fields)
  {
    assert ReadLoop(src, start, pos, limit) == ReadLoop(src, start, next, limit);
  }

  // Frames put in front in two goes are the frames of both, in order.
  lemma PrependTwice(a: seq<Frame>, b: seq<Frame>, r: Result<(seq<Frame>, Fields), Error>)
    ensures Prepend(a, Prepend(b, r)) == Prepend(a + b, r)
    ensures Prepend([], r) == r
  {
    if r.Ok? {
      assert a + (b + r.value.0) == a + b + r.value.0;
      assert [] + r.value.0 == r.value.0;
    }
  }

  /** With the marker "ID3" present, the options play no part and any tag read is an ID3v2 tag. */
  lemma LoadPrefersV2(src: Bytes, opts: Option<InitOptions>, other: Option<InitOptions>, fields: Fields)
    requires HasV2Marker(src)
    ensures Load(src, opts, fields) == Load(src, other, fields)
    ensures Load(src, opts, fields).Ok? ==> Load(src, opts, fields).value.header.V2?
  {
  }

  /** Without the marker, the ID3v1 trailer is read exactly when the options ask for it. */
  lemma LoadFallsBack(src: Bytes, opts: Option<InitOptions>, fields: Fields)
    requires |src| > 0 && !HasV2Marker(src)
    ensures TryId3v1(opts) ==> Load(src, opts, fields) == LoadV1(src, fields)
    ensures !TryId3v1(opts) ==> Load(src, opts, fields) == Err(CouldNotParse(NoTag))
  {
  }

  /** An empty stream fails while reading the ID3v2 header, before any fallback. */
  lemma LoadEmpty(opts: Option<InitOptions>, fields: Fields)
    ensures Load([], opts, fields) == Err(CouldNotParse(TruncatedHeader))
  {
  }

  /** A complete ID3v2.2 header makes the load fail, since frames of that version are not read. */
  lemma LoadRefusesV22(src: Bytes, opts: Option<InitOptions>, fields: Fields)
    requires HasV2Marker(src) && |src| >= HEADER_SIZE && src[3] == 2
    ensures Load(src, opts, fields) == Err(CouldNotParse(Id3v22Frames))
  {
    assert Signed8(src[3]) == 2;
  }

  /**
   * What every successful load leaves: the version is the header's; frames are present
   * exactly for an ID3v2 tag, whose version is 2.3 or 2.4; an ID3v1 tag sets the genre
   * from its code and leaves the track as it was.
   */
  lemma LoadShape(src: Bytes, opts: Option<InitOptions>, fields: Fields)
    requires Load(src, opts, fields).Ok?
    ensures var l := Load(src, opts, fields).value;
      && l.version == l.header.Version()
      && (l.frames.Some? <==> l.header.V2?)
      && (l.header.V2? ==> l.version.major == 2 && 3 <= l.version.minor <= 4)
      && (l.header.V1? ==> l.fields.track == fields.track && l.fields.genre == GenreByCode(l.header.footer.genre))
  {
  }

  /** A stream ending in an ID3v1 trailer, and not starting with "ID3", loads that trailer when the options allow it. */
  lemma LoadFooter(prefix: Bytes, f: Footer, opts: Option<InitOptions>, fields: Fields)
    requires WellFormedFooter(f) && TryId3v1(opts)
    requires !HasV2Marker(prefix + EncodeFooter(f))
    ensures Load(prefix + EncodeFooter(f), opts, fields) == Ok(Loaded(V1(f), f.version, None, V1Fields(f, fields)))
  {
    FooterRoundTrip(prefix, f);
  }

  /**
   * A stream holding an ID3v2.3 or ID3v2.4 header and frames loads those frames, with the
   * attributes their common frames set, whatever follows the tag, whenever the size
   * `decode_size` reports for the stored size is one for which the loop reads them all.
   */
  lemma LoadEncoded(major: int, revision: int, flags: int, size: nat, frames: seq<Frame>, rest: Bytes,
                    opts: Option<InitOptions>, fields: Fields)
    requires 3 <= major <= 4 && -128 <= revision < 128 && -128 <= flags < 128 && size < 0x1000_0000
    requires AllWellFormed(frames) && EndsAfter(HEADER_SIZE, HEADER_SIZE, DecodedSize(size), frames)
    ensures var v := Version(2, major, revision);
      Load(EncodeHeader(major, revision, flags, size) + EncodeFrames(frames) + rest, opts, fields)
      == match FoldCommon(fields, frames)
         case Ok(updated) => Ok(Loaded(V2(Header(v, flags, DecodedSize(size))), v, Some(frames), updated))
         case Err(e) => Err(CouldNotParse(e))
  {
    var head, body := EncodeHeader(major, revision, flags, size), EncodeFrames(frames);
    var src := head + body + rest;
    var h := Header(Version(2, major, revision), flags, DecodedSize(size));
    EncodedHeaderAt(major, revision, flags, size, body, rest);
    assert src[HEADER_SIZE..HEADER_SIZE + |body|] == body;
    EncodedFramesOf(h, src, frames, fields);
  }

  /**
   * The tag a writer emits without padding, its size the length of its frames, loads
   * those frames and the attributes they set.
   */
  lemma LoadUnpadded(major: int, revision: int, flags: int, frames: seq<Frame>, rest: Bytes,
                     opts: Option<InitOptions>, fields: Fields)
    requires 3 <= major <= 4 && -128 <= revision < 128 && -128 <= flags < 128
    requires AllWellFormed(frames) && |EncodeFrames(frames)| < 0x1000_0000
    requires forall k :: 0 <= k < 4 ==> SynchsafeEncode(|EncodeFrames(frames)|)[k] & 0x10 == 0
    ensures var v, size := Version(2, major, revision), |EncodeFrames(frames)|;
      Load(EncodeHeader(major, revision, flags, size) + EncodeFrames(frames) + rest, opts, fields)
      == match FoldCommon(fields, frames)
         case Ok(updated) => Ok(Loaded(V2(Header(v, flags, size)), v, Some(frames), updated))
         case Err(e) => Err(CouldNotParse(e))
  {
    WriterSizes(HEADER_SIZE, frames);
    LoadEncoded(major, revision, flags, |EncodeFrames(frames)|, frames, rest, opts, fields);
  }

  /** A text frame of the table as a writer emits it, with encoding byte 0 and no padding. */
  function WrittenText(f: Field, text: Bytes): (fr: Frame)
    requires f != Comment && 0 < |text| < 0x1_0000
    ensures WellFormedFrame(fr) && fr.key == KeyOf(f) && fr.size == |text| + 1
  {
    var payload := EncodeText(0, text);
    assert IsTextKey(KeyOf(f)) by { assert KeyOf(f)[0] == LETTER_T; }
    Frame(KeyOf(f), |payload|, Some(0), Some(payload), TextBody(payload))
  }

  /**
   * A tag written without padding whose stored size has bit 4 set loses its last frame.
   * A "TIT2" frame holding "Café" (Latin-1) and a "TYER" frame holding "1999" take 30
   * bytes, which a writer stores as 00 00 00 1E. `decode_size` reports 14, so the loop
   * stops after the first frame: the title is set and the year is not.
   */
  lemma UnpaddedTagDropsYear(rest: Bytes, opts: Option<InitOptions>)
    ensures var title, year := WrittenText(Title, CAFE), WrittenText(Year, YEAR_1999);
      var v := Version(2, 3, 0);
      && |EncodeFrames([title, year])| == 30 && DecodedSize(30) == 14
      && Load(EncodeHeader(3, 0, 0, 30) + EncodeFrames([title, year]) + rest, opts, NO_FIELDS)
         == Ok(Loaded(V2(Header(v, 0, 14)), v, Some([title]), Assign(NO_FIELDS, Title, Some(CAFE))))
  {
    var title, year := WrittenText(Title, CAFE), WrittenText(Year, YEAR_1999);
    assert SynchsafeEncode(30) == [0, 0, 0, 0x1E];
    assert DecodedSize(30) == 14;
    assert EncodeFrames([year]) == EncodeFrame(year);
    assert EncodeFrames([title]) == EncodeFrame(title);
    assert EncodeFrames([title, year]) == EncodeFrames([title]) + EncodeFrame(year);
    assert EncodeHeader(3, 0, 0, 30) + EncodeFrames([title, year]) + rest
        == EncodeHeader(3, 0, 0, 30) + EncodeFrames([title]) + (EncodeFrame(year) + rest);
    assert FramesLength([title]) == 15;
    TextValueRoundTrip(NO_FIELDS, Title, 0, CAFE, [], 5, Some(0));
    assert EncodeText(0, CAFE) + [] == EncodeText(0, CAFE);
    assert FoldCommon(NO_FIELDS, [title]) == Ok(Assign(NO_FIELDS, Title, Some(CAFE)));
    LoadEncoded(3, 0, 0, 30, [title], EncodeFrame(year) + rest, opts, NO_FIELDS);
  }

  /** The frames behind an ID3v2.3 or ID3v2.4 header are read by the loop as encoded. */
  lemma EncodedFramesOf(h: Header, src: Bytes, frames: seq<Frame>, fields: Fields)
    requires h.version.major == 2 && 3 <= h.version.minor <= 4
    requires AllWellFormed(frames) && EndsAfter(HEADER_SIZE, HEADER_SIZE, h.size, frames)
    requires HEADER_SIZE + |EncodeFrames(frames)| <= |src|
    requires src[HEADER_SIZE..HEADER_SIZE + |EncodeFrames(frames)|] == EncodeFrames(frames)
    ensures LoadV2(h, src, fields)
         == match FoldCommon(fields, frames)
            case Ok(updated) => Ok(Loaded(V2(h), h.version, Some(frames), updated))
            case Err(e) => Err(CouldNotParse(e))
  {
    ScanEncoded(src, HEADER_SIZE, HEADER_SIZE, h.size, frames, fields);
    assert h.version.At(0) == Some(2) && h.version.At(1) != Some(2);
  }

  // The header in front of the frames is read back with the size `decode_size` reports.
  lemma EncodedHeaderAt(major: int, revision: int, flags: int, size: nat, body: Bytes, rest: Bytes)
    requires 2 <= major <= 4 && -128 <= revision < 128 && -128 <= flags < 128 && size < 0x1000_0000
    ensures ReadId3v2Header(EncodeHeader(major, revision, flags, size) + body + rest)
         == Ok(Some(Header(Version(2, major, revision), flags, DecodedSize(size))))
  {
    var head := EncodeHeader(major, revision, flags, size);
    assert head + body + rest == head + (body + rest);
    HeaderRoundTrip(major, revision, flags, size, body + rest);
  }

  /** A frame that no later frame shares a key with is the one `to_hash` keeps under that key. */
  lemma {:induction false} KeyIndexLast(frames: seq<Frame>, i: nat)
    requires i < |frames|
    requires forall j :: i < j < |frames| ==> frames[j].key != frames[i].key
    ensures KeyIndex(frames)[frames[i].key] == frames[i]
    decreases |frames|
  {
    if i < |frames| - 1 {
      var before := frames[..|frames| - 1];
      assert before[i] == frames[i];
      assert forall j :: i < j < |before| ==> before[j] == frames[j];
      KeyIndexLast(before, i);
    }
  }
}
