/**
 * `ID3#parse_genre` and `@@GENRE_DESCRIPTIONS`: resolving a genre code from an ID3v1
 * trailer or the text of an ID3v2 `TCON` frame (section 4.2.1 of ID3v2.3.0) against the
 * 126-entry genre table (80 ID3v1 genres followed by 46 Winamp extensions).
 */
module Genres {
  import opened Wrappers
  import opened Unpack
  import opened Records

  const GENRE_COUNT: int := 126

  const OPEN_PAREN: byte := 0x28
  const CLOSE_PAREN: byte := 0x29

  /** `@@GENRE_DESCRIPTIONS`: entries 0..79 are the ID3v1 genres, 80..125 the Winamp extensions. */
  function GenreDescription(i: int): (d: string)
    requires 0 <= i < GENRE_COUNT
    ensures |d| > 0
  {
    match i
    case 0 => "Blues"
    case 1 => "Classic Rock"
    case 2 => "Country"
    case 3 => "Dance"
    case 4 => "Disco"
    case 5 => "Funk"
    case 6 => "Grunge"
    case 7 => "Hip-Hop"
    case 8 => "Jazz"
    case 9 => "Metal"
    case 10 => "New Age"
    case 11 => "Oldies"
    case 12 => "Other"
    case 13 => "Pop"
    case 14 => "R&B"
    case 15 => "Rap"
    case 16 => "Reggae"
    case 17 => "Rock"
    case 18 => "Techno"
    case 19 => "Industrial"
    case 20 => "Alternative"
    case 21 => "Ska"
    case 22 => "Death Metal"
    case 23 => "Pranks"
    case 24 => "Soundtrack"
    case 25 => "Euro-Techno"
    case 26 => "Ambient"
    case 27 => "Trip-Hop"
    case 28 => "Vocal"
    case 29 => "Jazz+Funk"
    case 30 => "Fusion"
    case 31 => "Trance"
    case 32 => "Classical"
    case 33 => "Instrumental"
    case 34 => "Acid"
    case 35 => "House"
    case 36 => "Game"
    case 37 => "Sound Clip"
    case 38 => "Gospel"
    case 39 => "Noise"
    case 40 => "AlternRock"
    case 41 => "Bass"
    case 42 => "Soul"
    case 43 => "Punk"
    case 44 => "Space"
    case 45 => "Meditative"
    case 46 => "Instrumental Pop"
    case 47 => "Instrumental Rock"
    case 48 => "Ethnic"
    case 49 => "Gothic"
    case 50 => "Darkwave"
    case 51 => "Techno-Industrial"
    case 52 => "Electronic"
    case 53 => "Pop-Folk"
    case 54 => "Eurodance"
    case 55 => "Dream"
    case 56 => "Southern Rock"
    case 57 => "Comedy"
    case 58 => "Cult"
    case 59 => "Gangsta"
    case 60 => "Top 40"
    case 61 => "Christian Rap"
    case 62 => "Pop/Funk"
    case 63 => "Jungle"
    case 64 => "Native American"
    case 65 => "Cabaret"
    case 66 => "New Wave"
    case 67 => "Psychadelic"
    case 68 => "Rave"
    case 69 => "Showtunes"
    case 70 => "Trailer"
    case 71 => "Lo-Fi"
    case 72 => "Tribal"
    case 73 => "Acid Punk"
    case 74 => "Acid Jazz"
    case 75 => "Polka"
    case 76 => "Retro"
    case 77 => "Musical"
    case 78 => "Rock & Roll"
    case 79 => "Hard Rock"
    case 80 => "Folk"
    case 81 => "Folk-Rock"
    case 82 => "National Folk"
    case 83 => "Swing"
    case 84 => "Fast Fusion"
    case 85 => "Bebob"
    case 86 => "Latin"
    case 87 => "Revival"
    case 88 => "Celtic"
    case 89 => "Bluegrass"
    case 90 => "Avantgarde"
    case 91 => "Gothic Rock"
    case 92 => "Progressive Rock"
    case 93 => "Psychedelic Rock"
    case 94 => "Symphonic Rock"
    case 95 => "Slow Rock"
    case 96 => "Big Band"
    case 97 => "Chorus"
    case 98 => "Easy Listening"
    case 99 => "Acoustic"
    case 100 => "Humour"
    case 101 => "Speech"
    case 102 => "Chanson"
    case 103 => "Opera"
    case 104 => "Chamber Music"
    case 105 => "Sonata"
    case 106 => "Symphony"
    case 107 => "Booty Bass"
    case 108 => "Primus"
    case 109 => "Porn Groove"
    case 110 => "Satire"
    case 111 => "Slow Jam"
    case 112 => "Club"
    case 113 => "Tango"
    case 114 => "Samba"
    case 115 => "Folklore"
    case 116 => "Ballad"
    case 117 => "Power Ballad"
    case 118 => "Rhythmic Soul"
    case 119 => "Freestyle"
    case 120 => "Duet"
    case 121 => "Punk Rock"
    case 122 => "Drum Solo"
    case 123 => "Acapella"
    case 124 => "Euro-House"
    case _ => "Dance Hall"  // 125
  }

  /** The table entry `i`, as bytes. */
  function GenreName(i: nat): Bytes
    requires i < GENRE_COUNT
  {
    Ascii(GenreDescription(i))
  }

  /**
   * `parse_genre` given an integer: `@@GENRE_DESCRIPTIONS[id]`, Ruby array indexing, so
   * that a negative code counts from the end of the table and anything outside
   * -126..125 gives nil.
   */
  function GenreByCode(id: int): (r: Option<Bytes>)
    ensures r.Some? <==> -GENRE_COUNT <= id < GENRE_COUNT
    ensures 0 <= id < GENRE_COUNT ==> r == Some(GenreName(id))
  {
    if 0 <= id < GENRE_COUNT then Some(GenreName(id))
    else if -GENRE_COUNT <= id < 0 then Some(GenreName(GENRE_COUNT + id))
    else None
  }

  /** A negative code names the same genre as the code 126 above it. */
  lemma GenreByCodeFromEnd(id: int)
    requires -GENRE_COUNT <= id < 0
    ensures GenreByCode(id) == GenreByCode(id + GENRE_COUNT)
  {
  }

  /** The longest prefix of `s` made of decimal digits. */
  function DigitRun(s: Bytes): (d: Bytes)
    ensures d <= s
    ensures forall i :: 0 <= i < |d| ==> IsDigit(d[i])
    ensures |d| < |s| ==> !IsDigit(s[|d|])
  {
    if |s| == 0 || !IsDigit(s[0]) then [] else [s[0]] + DigitRun(s[1..])
  }

  /**
   * A line matched against `/^\((\d+)\)(.*)$/`: the digits between the parentheses
   * and the rest of the line.
   */
  function ParenForm(line: Bytes): (m: Option<(Bytes, Bytes)>)
    ensures m.Some? ==> AllDigits(m.value.0)
    ensures m.Some? ==> line == [OPEN_PAREN] + m.value.0 + [CLOSE_PAREN] + m.value.1
  {
    if |line| == 0 || line[0] != OPEN_PAREN then None
    else
      var d := DigitRun(line[1..]);
      if |d| == 0 || |d| + 1 >= |line| || line[|d| + 1] != CLOSE_PAREN then None
      else
        assert line == [OPEN_PAREN] + d + [CLOSE_PAREN] + line[|d| + 2..];
        Some((d, line[|d| + 2..]))
  }

  /** The first line that matches the parenthesised form, as the regular expression search finds it. */
  function FirstParenLine(lines: seq<Bytes>): (m: Option<(Bytes, Bytes)>)
    ensures m.Some? ==> AllDigits(m.value.0)
  {
    if |lines| == 0 then None
    else if ParenForm(lines[0]).Some? then ParenForm(lines[0])
    else FirstParenLine(lines[1..])
  }

  /** The first line that matches `/^\d+$/`. */
  function FirstDigitLine(lines: seq<Bytes>): (m: Option<Bytes>)
    ensures m.Some? ==> AllDigits(m.value)
  {
    if |lines| == 0 then None
    else if AllDigits(lines[0]) then Some(lines[0])
    else FirstDigitLine(lines[1..])
  }

  /**
   * `parse_genre` given a string. The anchors of both regular expressions match at every
   * line, and the parenthesised form is tried first: the first line `"(N)rest"` gives
   * table entry N followed by `rest`, and raises when there is no entry N. Otherwise,
   * when some line is all digits, the table is indexed with `to_i` of the WHOLE string,
   * not of that line, so a first line that does not start with a number reads as 0 and
   * a leading minus sign counts from the end of the table; a number too large for a C
   * long raises. Anything else gives nil.
   */
  function ParseGenreText(s: Bytes): (r: Result<Option<Bytes>, Error>)
    ensures r.Err? ==> r.error == UnknownGenre || r.error == GenreCodeTooBig
    ensures r.Err? && r.error == UnknownGenre ==> FirstParenLine(Lines(s)).Some?
    ensures r.Err? && r.error == GenreCodeTooBig ==> FirstParenLine(Lines(s)).None? && !FitsLong(StringToInt(s))
    ensures FirstParenLine(Lines(s)).None? && FirstDigitLine(Lines(s)).None? ==> r == Ok(None)
  {
    var lines := Lines(s);
    match FirstParenLine(lines)
    case Some((digits, rest)) =>
      var n := DigitsValue(digits);
      if n < GENRE_COUNT then Ok(Some(GenreName(n) + rest)) else Err(UnknownGenre)
    case None =>
      if FirstDigitLine(lines).Some? then LookupCode(StringToInt(s)) else Ok(None)
  }

  /** The indices `Array#[]` accepts: those that fit a C `long` on a 64-bit platform. */
  predicate FitsLong(n: int) {
    -0x8000_0000_0000_0000 <= n < 0x8000_0000_0000_0000
  }

  /**
   * `@@GENRE_DESCRIPTIONS[n]` for an integer that may be a Bignum: the index is converted
   * to a C `long` first, which raises RangeError when it does not fit.
   */
  function LookupCode(n: int): Result<Option<Bytes>, Error> {
    if FitsLong(n) then Ok(GenreByCode(n)) else Err(GenreCodeTooBig)
  }

  lemma {:induction false} ParenFormOf(digits: Bytes, rest: Bytes)
    requires AllDigits(digits)
    ensures ParenForm([OPEN_PAREN] + digits + [CLOSE_PAREN] + rest) == Some((digits, rest))
  {
    var line := [OPEN_PAREN] + digits + [CLOSE_PAREN] + rest;
    assert line[1..] == digits + ([CLOSE_PAREN] + rest);
    DigitRunOf(digits, [CLOSE_PAREN] + rest);
    assert line[|digits| + 2..] == rest;
  }

  lemma {:induction false} DigitRunOf(digits: Bytes, rest: Bytes)
    requires forall i :: 0 <= i < |digits| ==> IsDigit(digits[i])
    requires |rest| > 0 && !IsDigit(rest[0])
    ensures DigitRun(digits + rest) == digits
  {
    if |digits| > 0 {
      assert (digits + rest)[1..] == digits[1..] + rest;
      DigitRunOf(digits[1..], rest);
    }
  }

  /** `"(N)rest"` on one line: table entry N with `rest` appended verbatim, or an error. */
  lemma ParseGenreParenthesised(digits: Bytes, rest: Bytes)
    requires AllDigits(digits) && NEWLINE !in rest
    ensures var n := DigitsValue(digits);
      ParseGenreText([OPEN_PAREN] + digits + [CLOSE_PAREN] + rest)
      == if n < GENRE_COUNT then Ok(Some(GenreName(n) + rest)) else Err(UnknownGenre)
  {
    var s := [OPEN_PAREN] + digits + [CLOSE_PAREN] + rest;
    assert NEWLINE !in s by {
      assert forall i :: 0 <= i < |digits| ==> digits[i] != NEWLINE;
    }
    SingleLine(s);
    ParenFormOf(digits, rest);
  }

  /**
   * A line of digits names its table entry, or nothing when the table has no such entry,
   * and raises when the number does not even fit a C long.
   */
  lemma ParseGenreDigits(digits: Bytes)
    requires AllDigits(digits)
    ensures var n := DigitsValue(digits);
      ParseGenreText(digits)
      == if n < GENRE_COUNT then Ok(Some(GenreName(n))) else if FitsLong(n) then Ok(None) else Err(GenreCodeTooBig)
  {
    assert NEWLINE !in digits by {
      assert forall i :: 0 <= i < |digits| ==> digits[i] != NEWLINE;
    }
    SingleLine(digits);
    assert ParenForm(digits).None? by { assert digits[0] != OPEN_PAREN; }
    assert [digits][1..] == [];
    assert FirstParenLine([digits]) == None;
    assert FirstDigitLine([digits]) == Some(digits);
    assert ParseGenreText(digits) == LookupCode(StringToInt(digits));
    StringToIntOfDigits(digits);
  }

  /**
   * Any integer printed by `Integer#to_s` is looked up as that integer when it is not
   * negative; a negative one is not a line of digits and gives nil.
   */
  lemma ParseGenreCodeText(n: int)
    ensures ParseGenreText(IntToString(n)) == if n >= 0 then LookupCode(n) else Ok(None)
  {
    if n >= 0 {
      DecimalRoundTrip(n);
      ParseGenreDigits(DecimalDigits(n));
    } else {
      var d := DecimalDigits(-n);
      var s := [MINUS] + d;
      assert NEWLINE !in s by {
        assert forall i :: 0 <= i < |d| ==> d[i] != NEWLINE;
      }
      assert ParenForm(s).None? && !AllDigits(s) by { assert s[0] == MINUS; }
      ParseGenreFreeText(s);
    }
  }

  /** "100000000000000000000" (10^20) is beyond a C long: the lookup raises instead of giving nil. */
  lemma ParseGenreHugeCode()
    ensures ParseGenreText(IntToString(100_000_000_000_000_000_000)) == Err(GenreCodeTooBig)
  {
    ParseGenreCodeText(100_000_000_000_000_000_000);
  }

  /**
   * One line that matches neither form resolves to no genre at all: free text such as
   * "Rock", and also "12a", "(4" or "(x)y".
   */
  lemma ParseGenreFreeText(s: Bytes)
    requires NEWLINE !in s
    requires ParenForm(s).None? && !AllDigits(s)
    ensures ParseGenreText(s) == Ok(None)
  {
    SingleLine(s);
    assert [s][1..] == [];
    assert FirstParenLine([s]) == FirstParenLine([]) == None;
    assert FirstDigitLine([s]) == FirstDigitLine([]) == None;
  }

  /**
   * When the first line matches neither form, a parenthesised second line decides the
   * result as if it stood alone, and so does a second line that matches neither form.
   */
  lemma ParseGenreSecondLine(first: Bytes, second: Bytes)
    requires NEWLINE !in first && NEWLINE !in second
    requires ParenForm(first).None? && !AllDigits(first)
    requires ParenForm(second).Some? || !AllDigits(second)
    ensures ParseGenreText(first + [NEWLINE] + second) == ParseGenreText(second)
  {
    var parts := [first, second];
    assert parts[1..] == [second];
    assert Join(parts, NEWLINE) == first + [NEWLINE] + second;
    SplitJoin(parts, NEWLINE);
    SingleLine(second);
    assert [second][1..] == [];
    assert FirstParenLine(parts) == FirstParenLine([second]);
    if ParenForm(second).None? {
      assert FirstParenLine([second]) == None;
      assert FirstDigitLine([second]) == None;
      assert FirstDigitLine(parts) == None;
    }
  }

  /**
   * A second line of digits makes the digit form match, but the code is `to_i` of the
   * whole text, first line included, and not the number on that line.
   */
  lemma ParseGenreLaterDigits(first: Bytes, second: Bytes)
    requires NEWLINE !in first && NEWLINE !in second
    requires ParenForm(first).None? && !AllDigits(first)
    requires ParenForm(second).None? && AllDigits(second)
    ensures var s := first + [NEWLINE] + second;
      ParseGenreText(s) == LookupCode(StringToInt(s))
  {
    var parts := [first, second];
    assert parts[1..] == [second];
    assert parts[1..][1..] == [];
    assert Join(parts, NEWLINE) == first + [NEWLINE] + second;
    SplitJoin(parts, NEWLINE);
    assert FirstParenLine(parts[1..][1..]) == None;
    assert FirstParenLine(parts[1..]) == None;
    assert FirstParenLine(parts) == None;
    assert FirstDigitLine(parts[1..]) == Some(second);
    assert FirstDigitLine(parts) == Some(second);
  }

  /** `"x\n17"` resolves to `"Blues"`: the whole text reads as 0, not as 17. */
  lemma ParseGenreLetterThenSeventeen()
    ensures ParseGenreText([0x78, NEWLINE, 0x31, 0x37]) == Ok(Some(Ascii("Blues")))
  {
    var first: Bytes := [0x78];
    var second: Bytes := [0x31, 0x37];
    assert first + [NEWLINE] + second == [0x78, NEWLINE, 0x31, 0x37];
    assert !AllDigits(first) by { assert !IsDigit(first[0]); }
    ParseGenreLaterDigits(first, second);
    assert StringToInt([0x78, NEWLINE, 0x31, 0x37]) == 0;
    NameZero();
  }

  /** `"-1x\n5"` resolves to `"Dance Hall"`: the whole text reads as -1, the last entry. */
  lemma ParseGenreMinusOneThenFive()
    ensures ParseGenreText([MINUS, 0x31, 0x78, NEWLINE, 0x35]) == Ok(Some(Ascii("Dance Hall")))
  {
    var first: Bytes := [MINUS, 0x31, 0x78];
    var second: Bytes := [0x35];
    var s := first + [NEWLINE] + second;
    assert s == [MINUS, 0x31, 0x78, NEWLINE, 0x35];
    assert !AllDigits(first) by { assert !IsDigit(first[0]); }
    ParseGenreLaterDigits(first, second);
    MinusOneThenFive();
    assert GenreByCode(-1) == Some(GenreName(125));
    NameLast();
  }

  // "-1x\n5" reads as -1: the digits stop at the "x".
  lemma MinusOneThenFive()
    ensures StringToInt([MINUS, 0x31, 0x78, NEWLINE, 0x35]) == -1
  {
    var s: Bytes := [MINUS, 0x31, 0x78, NEWLINE, 0x35];
    assert SkipSpace(s) == s;
    assert s[1..][1..] == [0x78, NEWLINE, 0x35];
    assert LeadingDigits(s[1..]) == [0x31];
    DigitsValueOne([0x31]);
  }

  lemma NameZero()
    ensures GenreName(0) == Ascii("Blues")
  {
    assert GenreDescription(0) == "Blues";
  }

  lemma NameFour()
    ensures GenreName(4) == Ascii("Disco")
  {
    assert GenreDescription(4) == "Disco";
  }

  lemma NameSeventeen()
    ensures GenreName(17) == Ascii("Rock")
  {
    assert GenreDescription(17) == "Rock";
  }

  lemma NameLast()
    ensures GenreName(125) == Ascii("Dance Hall")
  {
    assert GenreDescription(125) == "Dance Hall";
  }

  lemma DigitsValueOne(s: Bytes)
    requires |s| == 1 && IsDigit(s[0])
    ensures DigitsValue(s) == (s[0] - 0x30) as int
  {
    assert s[..0] == [];
  }

  lemma DigitsValueTwo(s: Bytes)
    requires |s| == 2 && IsDigit(s[0]) && IsDigit(s[1])
    ensures DigitsValue(s) == (s[0] - 0x30) as int * 10 + (s[1] - 0x30) as int
  {
    DigitsValueOne(s[..1]);
  }

  lemma DigitsValueThree(s: Bytes)
    requires |s| == 3 && IsDigit(s[0]) && IsDigit(s[1]) && IsDigit(s[2])
    ensures DigitsValue(s) == (s[0] - 0x30) as int * 100 + (s[1] - 0x30) as int * 10 + (s[2] - 0x30) as int
  {
    DigitsValueTwo(s[..2]);
  }

  /** `"(4)Classics"` resolves to `"Disco"` followed by `"Classics"`: no separator is inserted. */
  lemma ParseGenreDiscoClassics()
    ensures ParseGenreText([OPEN_PAREN, 0x34, CLOSE_PAREN] + Ascii("Classics")) == Ok(Some(Ascii("Disco") + Ascii("Classics")))
  {
    var four: Bytes := [0x34];
    DigitsValueOne(four);
    assert NEWLINE !in Ascii("Classics");
    ParseGenreParenthesised(four, Ascii("Classics"));
    assert [OPEN_PAREN] + four + [CLOSE_PAREN] + Ascii("Classics") == [OPEN_PAREN, 0x34, CLOSE_PAREN] + Ascii("Classics");
    NameFour();
  }

  /** `"17"` resolves to `"Rock"`. */
  lemma ParseGenreSeventeen()
    ensures ParseGenreText([0x31, 0x37]) == Ok(Some(Ascii("Rock")))
  {
    var seventeen: Bytes := [0x31, 0x37];
    DigitsValueTwo(seventeen);
    ParseGenreDigits(seventeen);
    NameSeventeen();
  }

  /** `"(200)"` names no table entry, so the parenthesised form fails. */
  lemma ParseGenreTwoHundred()
    ensures ParseGenreText([OPEN_PAREN, 0x32, 0x30, 0x30, CLOSE_PAREN]) == Err(UnknownGenre)
  {
    var twoHundred: Bytes := [0x32, 0x30, 0x30];
    DigitsValueThree(twoHundred);
    ParseGenreParenthesised(twoHundred, []);
    assert [OPEN_PAREN] + twoHundred + [CLOSE_PAREN] + [] == [OPEN_PAREN, 0x32, 0x30, 0x30, CLOSE_PAREN];
  }

  /** Codes in range name their entry, negative ones count from the end, others name nothing. */
  lemma GenreExamples()
    ensures GenreByCode(17) == Some(Ascii("Rock"))
    ensures GenreByCode(200) == None
    ensures GenreByCode(Signed8(0xFF)) == Some(Ascii("Dance Hall"))
    ensures GenreByCode(Signed8(0x80)) == None
  {
    NameSeventeen();
    NameLast();
    assert Signed8(0xFF) == -1 && Signed8(0x80) == -128;
  }
}
