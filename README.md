# ID3 tag reader, modelled in Dafny

This project models `id3.rb`, a small Ruby library that reads ID3 metadata from an audio stream. It covers:

- the ten-byte ID3v2 header and its tag-size decoding (`decode_size`);
- the 128-byte ID3v1 trailer;
- the ID3v2.3/2.4 frame loop, including text frames;
- the seven "common" frames that set the object's title, artist, album, track, year, genre and comment;
- genre resolution against the 126-entry table;
- the `ID3` object itself: `initialize` and `to_hash`.

The stream is an immutable byte sequence (`seq<bv8>`) plus a position. Every raise in the Ruby code becomes an `Error` value. Calling a method on nil also raises, so it becomes an `Error` too.

Files:

- `unpack.dfy`: the `String#unpack` directives used by the library (`a`, `A`, `c`, `N`, `n`), `io.read`, integer printing and splitting.
- `size_codec.dfy`: `decode_size` on a 32-bit word, and how it relates to the synchsafe integers of section 3.1 of ID3v2.3.0 and section 6.2 of ID3v2.4.0.
- `records.dfy`: `Version`, the `Header`, `Footer` and `Frame` records, and the error kinds.
- `genre.dfy`: the genre table and `parse_genre`.
- `header.dfy`, `footer.dfy`: the two tag readers.
- `frames.dfy`: one pass of the frame loop, which reads a header and a payload.
- `common.dfy`: the table of common frames and `parse_common_id3v23_frame`.
- `scan.dfy`: the whole frame loop, written as a specification function.
- `id3.dfy`: the specification of `initialize` (`Load`), and the class `ID3`. Its methods update its fields step by step, as the Ruby object does, and are proved to agree with `Load`, `ScanFrames` and `KeyIndex`.

Behaviour worth noting:

- The ID3v1 branch of `initialize` does not set `track`.
- `Version` has no ordering.
- A frame payload is read with its declared size, even past the tag size. A payload that comes back short at the end of the stream is kept.
- A bare-digit genre whose number does not fit a 64-bit C `long` makes the load fail: `Array#[]` raises RangeError on such an index.
- A correctly written tag whose synchsafe size has bit 4 set in any byte is read with a smaller size, because `decode_size` masks with 0xef. The loop then stops early and drops the trailing frames. For example, a 30-byte tag holding a title and a year loads only the title.
- An integer genre code uses Ruby array indexing, so negative codes count from the end of the table.
- With the default options, a stream of at least 128 bytes with neither a header nor a trailer fails with "Missing ID3v1 footer". A shorter one fails at the seek to its last 128 bytes. Neither fails with "Couldn't load ID3 header".
- An empty stream fails in the ID3v2 header read, before any fallback.
- Regular expression anchors match at every line. So `/^T/` picks out a key in which any line starts with "T", and either genre form matches when any line of the text has that form.
- When the bare-digit genre form matches, the table is indexed with `String#to_i` of the whole text, not of the matching line. So "x\n17" gives "Blues" (entry 0), and "-1x\n5" gives "Dance Hall" (entry -1, the last one).

## Model

| member | source | states |
|---|---|---|
| Unpack.Signed8 | id3.rb:64 | Directive `c` yields a value in -128..127 congruent to the byte mod 256, and non-negative exactly when bit 7 is clear. |
| Unpack.SignedByte | id3.rb:90 | Gives the byte that `c` reads back as a given signed value, the inverse of `Signed8`. |
| Unpack.SignedByteOfSigned8 | id3.rb:90 | Writing back a signed value read by `c` gives the original byte. |
| Unpack.BigEndian | id3.rb:300 | Directives `N`/`n` give an unsigned value below 256^length. |
| Unpack.BigEndianFour | id3.rb:300 | A four-byte `N` field is b0·2^24 + b1·2^16 + b2·2^8 + b3. |
| Unpack.BigEndianTwo | id3.rb:300 | A two-byte `n` field is b0·2^8 + b1. |
| Unpack.BigEndianRoundTrip | id3.rb:300 | Reading back the k big-endian bytes of any n < 256^k gives n. |
| Unpack.StripPadding | id3.rb:44 | Directive `A` removes exactly the trailing NUL and space bytes; the result is a prefix and no longer ends in padding. |
| Unpack.StripPaddingIdempotent | id3.rb:44 | Stripping twice is the same as stripping once. |
| Unpack.StripPaddingOfPadded | id3.rb:44 | Padding appended after a field that does not end in padding is exactly what `A` removes. |
| Unpack.SplitOn | id3.rb:31 | Splitting yields pieces free of the separator that join back to the input. |
| Unpack.SplitJoin | id3.rb:31 | Pieces free of the separator, joined and split again, come back unchanged. |
| Unpack.Lines | id3.rb:245-247 | The lines a line-anchored regular expression is tried on: at least one, none containing a newline. |
| Unpack.DecimalRoundTrip | id3.rb:31 | The decimal digits of n read back as n. |
| Unpack.IntToStringRoundTrip | id3.rb:31 | `Integer#to_s`, negative values included, parses back to the same integer. |
| Unpack.SkipSpace | id3.rb:248 | `to_i` skips exactly the leading white space: every byte skipped is a space, and the rest does not start with one. |
| Unpack.LeadingDigits | id3.rb:248 | The digits `to_i` reads are all digits, and there are none exactly when the text does not start with a digit. |
| Unpack.LeadingDigitsOfPrefix | id3.rb:248 | `to_i` reads exactly the run of digits the text starts with, up to anything but a digit or an underscore between digits. |
| Unpack.StringToInt | id3.rb:246-248 | `String#to_i` is 0 for a text that, after white space, starts with neither a digit nor a sign, and negative only after a minus sign. |
| Unpack.StringToIntOfPrefix | id3.rb:248 | `to_i` of digits followed by a newline or other non-digit is the value of those digits, unless the text starts with a `0d` prefix. |
| Unpack.StringToIntSeventeenRock | id3.rb:248 | `"17\nRock".to_i` is 17. |
| Unpack.StringToIntOfDigits | id3.rb:246-248 | `to_i` of a string of digits is the value of those digits. |
| Unpack.StringToIntOfNegative | id3.rb:248 | `to_i` of a minus sign followed by digits is the negated value. |
| Unpack.StringToIntRoundTrip | id3.rb:248 | `to_i` reads back any integer `Integer#to_s` wrote, negative ones included. |
| Unpack.Read | id3.rb:63 | `io.read(n)` is nil at end of stream, otherwise the next at most n bytes, short only at the end. |
| SizeCodec.DecodeSize | id3.rb:51-54 | `decode_size` always yields a value below 2^29. |
| SizeCodec.DecodeSizeKeepsBit7 | id3.rb:51-54 | Bit 7 of the top byte is not masked: it is bit 28 of the result, for every input. |
| SizeCodec.DecodeSizeTopBit | id3.rb:51-54 | Size bytes 80 00 00 00 decode to 2^28, which no synchsafe size can hold. |
| SizeCodec.DecodeSizeIgnoresBit4 | id3.rb:51-54 | `decode_size(x) == decode_size(x & 0xefefefef)`. |
| SizeCodec.DecodeSizeBounds | id3.rb:51-54 | `decode_size` never exceeds its input, and maps 0 to 0. |
| SizeCodec.SynchsafeRoundTrip | id3.rb:51-54 | The synchsafe encoding of any size below 2^28 decodes, by the standard's rule, to that size. |
| SizeCodec.DecodeSizeSynchsafe | id3.rb:51-54 | With bits 7 and 4 clear in every byte, `decode_size` equals b0·2^21 + b1·2^14 + b2·2^7 + b3. |
| SizeCodec.DecodeSizeDropsBit4 | id3.rb:51-54 | With bit 7 clear, `decode_size` is the synchsafe value of the bytes with bit 4 cleared. |
| SizeCodec.DecodeSizeExact | id3.rb:51-54 | With bit 7 clear, `decode_size` never over-reports, and is exact if and only if no byte has bit 4 set. |
| SizeCodec.DecodeSizeOfEncoded | id3.rb:51-54 | A size written as a synchsafe integer is read back exactly if and only if no byte of it has bit 4 set, and never larger. |
| SizeCodec.DecodeSizeLosesSixteen | id3.rb:51-54 | The synchsafe value 16 decodes to 0. |
| Records.Version.At | id3.rb:34-36 | `Version#[]` is defined for -3..2; both index forms name the major, minor and revision. |
| Records.Version.ToString | id3.rb:30-32 | `Version#to_s` joins the numbers with dots; `VersionStringRoundTrip` reads it back. |
| Records.VersionStringRoundTrip | id3.rb:30-32 | `Version#to_s` reads back as the same three integers. |
| TagHeader.ReadId3v2Header | id3.rb:59-80 | Nil exactly when a non-empty stream lacks "ID3". Raises for a major version outside 2..4, and for an empty or cut-short stream. Otherwise the header is version 2.(byte 3).(byte 4), with flags byte 5 (all read signed) and size `decode_size` of big-endian bytes 6..9. |
| TagHeader.HeaderIgnoresRest | id3.rb:63 | Only the first ten bytes decide the header. |
| TagHeader.DecodedSize | id3.rb:51-54 | The size `decode_size` reports for a size stored as a synchsafe integer is never larger, and equal exactly when no stored byte has bit 4 set. |
| TagHeader.HeaderRoundTrip | id3.rb:59-80 | An encoded header reads back with its version and flags. Its size is `DecodedSize` of the stored size: the same exactly when no synchsafe byte has bit 4 set, and never larger. |
| TagFooter.ReadId3v1Footer | id3.rb:85-103 | Fails on a stream under 128 bytes, and when the last 128 bytes lack "TAG". Otherwise the fixed-width fields, unstripped, with version 1.0 or 1.1 by the track byte; the footer re-encodes to those 128 bytes. |
| TagFooter.FooterRoundTrip | id3.rb:85-103 | A well-formed trailer written after any prefix is read back unchanged. |
| TagFooter.FooterIgnoresPrefix | id3.rb:87 | Only the last 128 bytes are looked at. |
| Genres.GenreDescription | id3.rb:105-234 | The 126 table entries are all non-empty names. |
| Genres.GenreByCode | id3.rb:240-241 | An integer code names an entry exactly when it lies in -126..125, and codes 0..125 name their own entry. |
| Genres.ParenForm | id3.rb:244 | A line matching `/^\((\d+)\)(.*)$/` is "(", the digits, ")" and the rest. `ParenFormOf` shows every such line matches. |
| Genres.GenreByCodeFromEnd | id3.rb:240-241 | A negative code names the entry 126 above it. |
| Genres.GenreExamples | id3.rb:105-241 | 17 is "Rock" and 200 is nil; signed byte 0xFF (-1) is "Dance Hall" and 0x80 (-128) is nil. |
| Genres.ParseGenreText | id3.rb:239-252 | `parse_genre` on a string raises only for the parenthesised form with no such entry, or for the digit form when `to_i` of the text does not fit a C long. Text with neither form on any line gives nil. |
| Genres.ParseGenreParenthesised | id3.rb:243-246 | `"(N)rest"` gives entry N followed by `rest` verbatim, and raises when there is no entry N. |
| Genres.ParseGenreDigits | id3.rb:247-248 | A digit string gives its entry, nil when there is none, and raises when its value does not fit a C long. |
| Genres.ParseGenreCodeText | id3.rb:247-248 | The text `Integer#to_s` writes for a non-negative code looks that code up as `Array#[]` does; a negative one gives nil. |
| Genres.ParseGenreHugeCode | id3.rb:247-248 | "100000000000000000000" raises rather than giving nil. |
| Genres.ParseGenreFreeText | id3.rb:243-250 | One line matching neither form gives nil: free text, and also "12a", "(4" or "(x)y". |
| Genres.ParseGenreSecondLine | id3.rb:243-246 | After a first line matching neither form, a parenthesised second line decides the result alone, as does a second line matching neither form. |
| Genres.ParseGenreLaterDigits | id3.rb:247-248 | A later all-digit line makes the digit form match, and the code is `to_i` of the whole text. |
| Genres.ParseGenreLetterThenSeventeen | id3.rb:247-248 | "x\n17" gives "Blues", not "Rock". |
| Genres.ParseGenreMinusOneThenFive | id3.rb:247-248 | "-1x\n5" gives "Dance Hall", the last entry. |
| Genres.ParseGenreDiscoClassics | id3.rb:243-246 | `"(4)Classics"` gives "Disco" + "Classics" with no separator. |
| Genres.ParseGenreSeventeen | id3.rb:247-248 | `"17"` gives "Rock". |
| Genres.ParseGenreTwoHundred | id3.rb:243-246 | `"(200)"` raises. |
| Frames.TextBody | id3.rb:42-45 | A text frame's encoding is the first payload byte, signed, and its text comes from the rest of the payload. |
| Frames.IsTextKey | id3.rb:306 | `/^T/` on a key: for a one-line key, exactly a key starting with "T". |
| Frames.TextRoundTrip | id3.rb:42-45 | An encoding byte and a text not ending in padding come back from the payload, whatever padding follows. |
| Frames.ReadFrameHeader | id3.rb:294-300 | Reading a frame header fails only with a missing field. On success the position moves forward by 8 to 10 bytes, staying within the stream. |
| Frames.ReadFrameHeaderFields | id3.rb:294-300 | The frame header needs 8 bytes. Its key is bytes 0..4 and its size is big-endian bytes 4..8. Its flags are big-endian bytes 8..10, or nil when the stream ends first. The position moves past what was read. |
| Frames.ReadFrameAt | id3.rb:294-310 | One pass fails only with a missing field. On success the position moves forward and stays within the stream. |
| Frames.ReadFrameAtFacts | id3.rb:294-310 | One pass moves the position forward, past the whole header unless the stream ends. An appended frame has a nonzero size and is a text frame exactly when a line of its key starts with "T". A text frame has a non-empty payload. |
| Frames.ReadFrameAtOutcome | id3.rb:294-310 | One pass fails exactly when the header ends before its size field, or when a text frame of nonzero size finds the stream ended. It appends nothing exactly for size 0. An appended frame holds the header's key, size and flags, and what `io.read(size)` returns. |
| Frames.ShortPayloadKept | id3.rb:304-310 | A payload cut short by the end of the stream is kept as far as it goes. |
| Frames.FrameRoundTrip | id3.rb:294-310 | An encoded frame anywhere in the stream is read back whole, with the position just past it. |
| Frames.ZeroSizeFrame | id3.rb:303 | A header with size zero appends nothing and moves only past the header. |
| CommonFields.CommonField | id3.rb:261-269 | The table lookup returns the attribute whose key is the frame key. |
| CommonFields.CommonFieldOfKey | id3.rb:261-269 | The seven keys are distinct: each maps to its own attribute. |
| CommonFields.CommonFieldNone | id3.rb:261-269 | A key is ignored exactly when it is none of the seven. |
| CommonFields.CommonValue | id3.rb:274-282 | A `T` key passes on a value exactly for a text frame. Of the other keys only `COMM` with a payload does, and its value never ends in padding. |
| CommonFields.CommentRoundTrip | id3.rb:279 | The `COMM` value is the payload after the encoding byte and the language code, with padding stripped. |
| CommonFields.ApplyCommon | id3.rb:261-282 | One common frame changes only the attribute its key names: to the frame's value, or through `parse_genre` for `TCON`. It fails exactly on a nil payload, or when `parse_genre` raises, and ignores other keys. |
| CommonFields.TextValueRoundTrip | id3.rb:274-282 | A table text frame as a writer emits it passes on its text whatever the encoding and padding, and sets its attribute to exactly that text (all but the genre). |
| CommonFields.FoldCommon | id3.rb:313-315 | Applying the common frames in order fails only with a missing payload or an unknown parenthesised genre. |
| CommonFields.FoldCommonAppend | id3.rb:313-315 | Applying frames in order: one more frame is applied to the result of the others. |
| CommonFields.LastWriterWins | id3.rb:261-269 | The last frame with a key decides that key's attribute: its value, or for `TCON` what `parse_genre` makes of its text. |
| CommonFields.FoldLeavesOthers | id3.rb:261-269 | An attribute whose key no frame carries keeps its value. |
| CommonFields.FreeTextGenre | id3.rb:263 | A `TCON` frame whose text is one line matching neither genre form sets the genre to nil, whatever its encoding. |
| FrameScan.ReadLoop | id3.rb:291-317 | Every frame appended has a nonzero size and is a text frame exactly for "T" keys. The loop appends nothing once its test fails. |
| FrameScan.Continues | id3.rb:291 | `io.pos - start_pos + 10 < @header.size`; it never holds for a tag size of 10 or less. |
| FrameScan.ScanFrames | id3.rb:287-320 | The loop fails only with a missing field or an unknown parenthesised genre. Every frame it returns has a nonzero size. |
| FrameScan.ScanStops | id3.rb:291 | When `pos - start + 10 < size` fails, the loop reads nothing and changes nothing. |
| FrameScan.ScanStep | id3.rb:302-315 | A pass that reads a frame applies it and continues after it, or stops with the failure. |
| FrameScan.ScanSkipsZeroSize | id3.rb:303 | A zero-size header is stepped over. |
| FrameScan.ScanReadFailure | id3.rb:294-307 | A frame that cannot be read ends the loop with that failure. |
| FrameScan.ReadFramesAt | id3.rb:291-317 | Frames lying one after the other are read back in order for every tag size at which the loop test holds where the last frame starts and fails after it. |
| FrameScan.ScanEncoded | id3.rb:287-320 | Encoded frames are all returned, with the attributes their common frames set, for every such tag size. |
| FrameScan.WriterSizes | id3.rb:291 | Both the unpadded size (the frames' length) and that length plus 10 are such tag sizes. |
| FrameScan.ScanReadsPastLimit | id3.rb:304 | A payload running past the tag size is still read whole. |
| Id3.TryId3v1 | id3.rb:348-356 | No options means the fallback is tried. Given options, only `try_id3v1: true` tries it. |
| Id3.FramesOf | id3.rb:329-339 | Frames come back exactly for major version 2. Other versions leave the attributes alone. Only 2.2 refusal, a missing field or an unknown genre make it fail. |
| Id3.V1Fields | id3.rb:361-366 | The ID3v1 branch leaves `track` alone and finds a genre exactly for codes in -126..125. |
| Id3.LoadV2 | id3.rb:353-355 | An ID3v2 load keeps the header and its version, with frames exactly for major version 2. |
| Id3.LoadV1 | id3.rb:356-366 | An ID3v1 load records the trailer and its version, no frames, and an unchanged `track`. It fails only when the trailer cannot be read or is missing. |
| Id3.Load | id3.rb:344-376 | `version` is the version of the tag recorded. "Couldn't load ID3 header" happens only for a non-empty stream without "ID3" when the fallback is off. |
| Id3.EncodedFramesOf | id3.rb:329-339 | Encoded frames behind a 2.3 or 2.4 header load as those frames with the attributes their common frames set, for every tag size at which the loop reads them all. |
| Id3.KeyIndex | id3.rb:381-390 | The hash's keys are exactly the frames' keys. |
| Id3.KeyIndexLast | id3.rb:384-386 | Under each key, the hash holds the last frame with that key. |
| Id3.ID3.ParseCommonFrame | id3.rb:274-282 | The object's attributes change as `ApplyCommon` says, or stay as they were on failure. Header, version and frames are untouched. |
| Id3.ID3.ReadId3v23Frames | id3.rb:287-320 | The `while` loop returns the frames `ScanFrames` reads and leaves the attributes it gives, or fails as it does. |
| Id3.ID3.ReadFrames | id3.rb:322-339 | Refuses version 2.2. Reads frames for 2.3/2.4. Reads nothing for other versions. |
| Id3.ID3.Initialize | id3.rb:344-376 | The object ends up as `Load` describes, or fails with `Load`'s error. |
| Id3.ID3.ToHash | id3.rb:381-390 | Nil without frames; otherwise `KeyIndex` of the frames. |
| Id3.Open | id3.rb:344-376 | `ID3.new`: a fresh object holding what `Load` gives, or `Load`'s error. |
| Id3.LoadPrefersV2 | id3.rb:353-356 | With "ID3" present the options play no part, and any tag loaded is an ID3v2 tag. |
| Id3.LoadFallsBack | id3.rb:356-369 | Without "ID3", the trailer is read exactly when the options allow it. Otherwise loading fails with "Couldn't load ID3 header". |
| Id3.LoadEmpty | id3.rb:63-64 | An empty stream fails before any fallback. |
| Id3.LoadRefusesV22 | id3.rb:331-332 | A complete version 2.2 header makes loading fail. |
| Id3.LoadShape | id3.rb:353-372 | `version` is the header's version. Frames are present exactly for ID3v2 tags, which are 2.3 or 2.4. An ID3v1 tag sets the genre from its code and keeps `track`. |
| Id3.LoadFooter | id3.rb:356-366 | A stream ending in a trailer, without "ID3", loads the trailer's fields. |
| Id3.LoadEncoded | id3.rb:344-376 | Header plus encoded frames load those frames and the attributes they set, whatever follows, with the header reporting the decoded size, for every stored size whose decoded size lets the loop read them all. |
| Id3.LoadUnpadded | id3.rb:344-376 | A tag written without padding, its size the frames' length, loads its frames and the attributes they set, provided no byte of the stored size has bit 4 set. |
| Id3.UnpaddedTagDropsYear | id3.rb:51-54 | When a stored size has bit 4 set, frames are lost: a 30-byte tag of a "TIT2" frame ("Café") and a "TYER" frame ("1999") is read with size 14, so it loads only the title. |

## Left out

- Files and I/O: `File::open`, `io.seek`, `io.read` and `io.pos`. The stream is a byte sequence and a position.
- The command-line block (id3.rb:502-516). It only prints fields.
- `describe_frame` and its table of frame descriptions (id3.rb:395-498). This is a static lookup that nothing in the core calls.
- Character-set decoding. The encoding byte is kept, and texts stay bytes.
- Exception message texts. They are error kinds instead.
- The ID3v2.2 frame reader (id3.rb:322-324). It only raises, which is modelled as `Id3v22Frames`.
- The extended header. It is not read by the code either.
- Fallback options: `try_id3v1` is a boolean or nil. Other truthy Ruby values are not modelled.
- The `Fixnum` test (id3.rb:240) is modelled as the integer/string dispatch it stands for. A bare-digit genre outside the table but within a C long (`nil.dup`) gives nil. A 64-bit `long` is assumed.
- The "Couldn't read from file" branch (id3.rb:99). It cannot be reached once the seek has succeeded.
- Id3.ID3.Initialize: says nothing of the object's fields after a failure, because `ID3.new` then returns no object.
- Id3.ID3.ReadId3v23Frames: says nothing of the attributes after a failure, for the same reason.
- Id3.ID3.ParseCommonFrame: requires a key from the table, because the Ruby method raises on any other key and its only caller never passes one.
- FrameScan.ScanEncoded: covers tag sizes between the frames' length minus the last payload and that length plus 10. A tag with padding bytes after its frames is covered frame by frame by `ScanStep`, `ScanSkipsZeroSize` and `ScanStops`, not by one lemma.
- Id3.EncodedFramesOf: covers the same tag sizes as `ScanEncoded`. Padding of more than ten bytes after the frames is covered only frame by frame, as above.
- Id3.LoadEncoded: covers stored sizes whose decoded size is among those `ScanEncoded` covers, for the same reason.
- Id3.LoadUnpadded: covers only a stored size with bit 4 clear in every byte. With bit 4 set, the unpadded tag loses its last frames, as `UnpaddedTagDropsYear` shows, and `LoadEncoded` then describes what loads.
