/**
 * The records the ID3 reader builds: `ID3::Version`, the `Header`, `Footer` and `Frame`
 * structs, `ID3::TextFrame`, and the kinds of failure that the Ruby code signals by
 * raising.
 */
module Records {
  import opened Wrappers
  import opened Unpack

  /**
   * Why a read failed. Each kind stands for one place where the Ruby code raises,
   * explicitly or by calling a method on nil.
   */
  datatype Error =
    | TruncatedHeader    // "ID3" followed by fewer than 7 bytes, or an empty stream: a nil field is used
    | UnknownVersion     // "Unknown ID3v2 header version": major version outside 2..4
    | Id3v22Frames       // "TODO: ID3v22 frame support"
    | SourceTooShort     // the seek to 128 bytes before the end fails
    | MissingFooter      // "Missing ID3v1 footer"
    | TruncatedFrame     // a frame header or a needed frame payload is missing: a nil field is used
    | UnknownGenre       // "(N)..." with no table entry N: nil + sub_genre
    | GenreCodeTooBig    // a bare-digit genre whose `to_i` does not fit a C long: RangeError from Array#[]
    | NoTag              // "Couldn't load ID3 header": no ID3v2 header and no ID3v1 fallback

  /** `ID3::Version`: three integers, no ordering of its own. */
  datatype Version = Version(major: int, minor: int, revision: int) {

    /** `Version#[]`: indexing `[major, minor, revision]` as a Ruby array, negative indices from the end. */
    function At(i: int): (r: Option<int>)
      ensures r.Some? <==> -3 <= i < 3
      ensures i == 0 || i == -3 ==> r == Some(major)
      ensures i == 1 || i == -2 ==> r == Some(minor)
      ensures i == 2 || i == -1 ==> r == Some(revision)
    {
      if -3 <= i < 3 then Some([major, minor, revision][if i < 0 then i + 3 else i]) else None
    }

    /** `Version#to_s`: the three numbers joined with dots. */
    function ToString(): (s: Bytes)
      ensures DOT in s
    {
      var s := IntToString(major) + [DOT] + IntToString(minor) + [DOT] + IntToString(revision);
      assert s[|IntToString(major)|] == DOT;
      s
    }
  }

  /** Reads back a version string such as "2.3.0"; the partner of Version.ToString. */
  function ParseVersion(s: Bytes): Option<Version> {
    var parts := SplitOn(s, DOT);
    if |parts| != 3 then None
    else match (ParseInt(parts[0]), ParseInt(parts[1]), ParseInt(parts[2]))
      case (Some(a), Some(b), Some(c)) => Some(Version(a, b, c))
      case _ => None
  }

  lemma VersionStringRoundTrip(v: Version)
    ensures ParseVersion(v.ToString()) == Some(v)
  {
    var a, b, c := IntToString(v.major), IntToString(v.minor), IntToString(v.revision);
    SplitThree(a, b, c);
    IntToStringRoundTrip(v.major);
    IntToStringRoundTrip(v.minor);
    IntToStringRoundTrip(v.revision);
  }

  // Three pieces without a dot, joined by dots, split back into those pieces.
  lemma SplitThree(a: Bytes, b: Bytes, c: Bytes)
    requires DOT !in a && DOT !in b && DOT !in c
    ensures SplitOn(a + [DOT] + b + [DOT] + c, DOT) == [a, b, c]
  {
    var parts := [a, b, c];
    assert parts[1..] == [b, c] && parts[1..][1..] == [c];
    assert Join([b, c], DOT) == b + [DOT] + c;
    assert Join(parts, DOT) == a + [DOT] + (b + [DOT] + c);
    assert a + [DOT] + (b + [DOT] + c) == a + [DOT] + b + [DOT] + c;
    assert forall k :: 0 <= k < 3 ==> DOT !in parts[k];
    SplitJoin(parts, DOT);
  }

  /** `ID3::Header`: an ID3v2 tag header. */
  datatype Header = Header(version: Version, flags: int, size: nat)

  /** `ID3::Footer`: an ID3v1 trailer, its fields unstripped. */
  datatype Footer = Footer(
    version: Version, flags: int, size: nat,
    title: Bytes, artist: Bytes, album: Bytes, year: Bytes, comment: Bytes,
    track: int, genre: int)

  /** What `ID3#header` holds: the header of an ID3v2 tag or the trailer of an ID3v1 tag. */
  datatype TagInfo = V2(header: Header) | V1(footer: Footer) {
    function Version(): Version {
      match this
      case V2(h) => h.version
      case V1(f) => f.version
    }

    function Size(): nat {
      match this
      case V2(h) => h.size
      case V1(f) => f.size
    }
  }

  /** The part of a frame that depends on its kind: `ID3::TextFrame` adds an encoding and a text. */
  datatype Body = Opaque | Text(encoding: int, text: Bytes)

  /**
   * `ID3::Frame` and `ID3::TextFrame`: the key, the declared size, the flags (nil when the
   * stream ended inside them) and the payload as read (nil when the stream had already ended).
   */
  datatype Frame = Frame(key: Bytes, size: nat, flags: Option<nat>, data: Option<Bytes>, body: Body)
}
