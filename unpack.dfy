/**
 * Byte strings and the pieces of Ruby's `String#unpack`, `IO#read` and line-anchored
 * regular expressions that the ID3 reader relies on. Ruby strings read from a file are
 * binary (one byte per character), so text is kept as bytes throughout.
 */
module Unpack {
  import opened Wrappers

  type byte = bv8
  type Bytes = seq<byte>

  const NUL: byte := 0x00
  const NEWLINE: byte := 0x0A
  const SPACE: byte := 0x20
  const DOT: byte := 0x2E
  const MINUS: byte := 0x2D
  const PLUS: byte := 0x2B
  const UNDERSCORE: byte := 0x5F

  // The byte holding a value below 16, chosen by comparisons so that no conversion from int is needed.
  function Nibble(x: int): (b: byte)
    requires 0 <= x < 16
    ensures b as int == x
  {
    if x < 8 then
      if x < 4 then (if x < 2 then (if x < 1 then 0 else 1) else (if x < 3 then 2 else 3))
      else (if x < 6 then (if x < 5 then 4 else 5) else (if x < 7 then 6 else 7))
    else
      if x < 12 then (if x < 10 then (if x < 9 then 8 else 9) else (if x < 11 then 10 else 11))
      else (if x < 14 then (if x < 13 then 12 else 13) else (if x < 15 then 14 else 15))
  }

  /** The byte holding the value `x`: its high and its low four bits. */
  function ByteOfInt(x: int): (b: byte)
    requires 0 <= x < 256
    ensures b as int == x
  {
    var high, low := Nibble(x / 16), Nibble(x % 16);
    assert high as int * 16 + low as int == x;
    (high << 4) | low
  }

  /** Directive `c`: one byte read as a signed 8-bit integer. */
  function Signed8(b: byte): (r: int)
    ensures -128 <= r < 128
    ensures r % 256 == b as int
    ensures r >= 0 <==> b < 0x80
  {
    if b < 0x80 then b as int else b as int - 256
  }

  /** The byte that directive `c` reads back as `x`; the partner of Signed8. */
  function SignedByte(x: int): (b: byte)
    requires -128 <= x < 128
    ensures Signed8(b) == x
  {
    ByteOfInt(if x < 0 then x + 256 else x)
  }

  lemma ByteValueInjective(x: byte, y: byte)
    requires x as int == y as int
    ensures x == y
  {
  }

  /** Writing back the value directive `c` read gives the byte it was read from. */
  lemma SignedByteOfSigned8(b: byte)
    ensures SignedByte(Signed8(b)) == b
  {
    ByteValueInjective(SignedByte(Signed8(b)), b);
  }

  function Pow256(k: nat): (r: nat)
    ensures r > 0
  {
    if k == 0 then 1 else 256 * Pow256(k - 1)
  }

  /** Directives `N` and `n`: an unsigned big-endian integer over all the bytes of `s`. */
  function BigEndian(s: Bytes): (r: nat)
    ensures r < Pow256(|s|)
  {
    if |s| == 0 then 0 else BigEndian(s[..|s| - 1]) * 256 + s[|s| - 1] as int
  }

  lemma BigEndianTwo(s: Bytes)
    requires |s| == 2
    ensures BigEndian(s) == s[0] as int * 0x100 + s[1] as int
  {
    var s1 := s[..1];
    assert s1[..0] == [];
    assert BigEndian(s1) == s[0] as int;
  }

  lemma BigEndianFour(s: Bytes)
    requires |s| == 4
    ensures BigEndian(s) == s[0] as int * 0x100_0000 + s[1] as int * 0x1_0000 + s[2] as int * 0x100 + s[3] as int
  {
    var s1, s2, s3 := s[..1], s[..2], s[..3];
    assert s1[..0] == [] && s2[..1] == s1 && s3[..2] == s2;
    assert BigEndian(s1) == s[0] as int;
    assert BigEndian(s2) == s[0] as int * 0x100 + s[1] as int;
    assert BigEndian(s3) == s[0] as int * 0x1_0000 + s[1] as int * 0x100 + s[2] as int;
  }

  /** The `k` bytes a writer emits for `n` with `pack('N')` (k = 4) or `pack('n')` (k = 2). */
  function ToBigEndian(n: nat, k: nat): (s: Bytes)
    requires n < Pow256(k)
    ensures |s| == k
  {
    if k == 0 then [] else
      DropLowByte(n, k);
      ToBigEndian(n / 256, k - 1) + [ByteOfInt(n % 256)]
  }

  // Removing the low byte of a value below 256^k leaves a value below 256^(k-1).
  lemma DropLowByte(n: nat, k: nat)
    requires k > 0 && n < Pow256(k)
    ensures n / 256 < Pow256(k - 1) && n == n / 256 * 256 + n % 256
  {
  }

  lemma {:induction false} BigEndianRoundTrip(n: nat, k: nat)
    requires n < Pow256(k)
    ensures BigEndian(ToBigEndian(n, k)) == n
  {
    if k > 0 {
      DropLowByte(n, k);
      var s := ToBigEndian(n, k);
      assert s[..k - 1] == ToBigEndian(n / 256, k - 1);
      assert s[k - 1] as int == n % 256;
      BigEndianRoundTrip(n / 256, k - 1);
      assert BigEndian(s) == BigEndian(s[..k - 1]) * 256 + s[k - 1] as int;
    }
  }

  lemma SliceOfSlice(s: Bytes, lo: nat, hi: nat, i: nat, j: nat)
    requires lo <= hi <= |s| && i <= j <= hi - lo
    ensures s[lo..hi][i..j] == s[lo + i..lo + j]
  {
    assert forall k :: 0 <= k < j - i ==> s[lo..hi][i..j][k] == s[lo + i + k];
  }

  // Four fields written one after the other are found again at their offsets.
  lemma SlicesOfFour(s: Bytes, lo: nat, a: Bytes, b: Bytes, c: Bytes, d: Bytes)
    requires lo + |a| + |b| + |c| + |d| <= |s| && s[lo..lo + |a| + |b| + |c| + |d|] == a + b + c + d
    ensures s[lo..lo + |a|] == a
    ensures s[lo + |a|..lo + |a| + |b|] == b
    ensures s[lo + |a| + |b|..lo + |a| + |b| + |c|] == c
    ensures s[lo + |a| + |b| + |c|..lo + |a| + |b| + |c| + |d|] == d
  {
    var i, j, k, hi := |a|, |a| + |b|, |a| + |b| + |c|, |a| + |b| + |c| + |d|;
    var w := a + b + c + d;
    SliceOfSlice(s, lo, lo + hi, 0, i);
    SliceOfSlice(s, lo, lo + hi, i, j);
    SliceOfSlice(s, lo, lo + hi, j, k);
    SliceOfSlice(s, lo, lo + hi, k, hi);
    assert w[0..i] == a && w[i..j] == b && w[j..k] == c && w[k..hi] == d;
  }

  /** The bytes directive `A` removes from the end of a field: NUL and space. */
  predicate IsPad(b: byte) {
    b == NUL || b == SPACE
  }

  /**
   * Directive `A`: the field with its trailing NULs and spaces removed. The result is the
   * longest prefix of `s` that does not end in padding.
   */
  function StripPadding(s: Bytes): (r: Bytes)
    ensures r <= s
    ensures |r| == 0 || !IsPad(r[|r| - 1])
    ensures forall i :: |r| <= i < |s| ==> IsPad(s[i])
  {
    if |s| == 0 || !IsPad(s[|s| - 1]) then s else StripPadding(s[..|s| - 1])
  }

  lemma {:induction false} StripPaddingIdempotent(s: Bytes)
    ensures StripPadding(StripPadding(s)) == StripPadding(s)
  {
  }

  /** Padding appended after a field that does not end in padding is exactly what directive `A` removes. */
  lemma {:induction false} StripPaddingOfPadded(s: Bytes, pad: Bytes)
    requires |s| == 0 || !IsPad(s[|s| - 1])
    requires forall i :: 0 <= i < |pad| ==> IsPad(pad[i])
    ensures StripPadding(s + pad) == s
  {
    if |pad| > 0 {
      assert (s + pad)[..|s + pad| - 1] == s + pad[..|pad| - 1];
      StripPaddingOfPadded(s, pad[..|pad| - 1]);
    } else {
      assert s + pad == s;
    }
  }

  function IndexOf(s: Bytes, b: byte): (i: nat)
    requires b in s
    ensures i < |s| && s[i] == b && b !in s[..i]
  {
    if s[0] == b then 0 else 1 + IndexOf(s[1..], b)
  }

  lemma {:induction false} IndexOfAfter(a: Bytes, sep: byte, rest: Bytes)
    requires sep !in a
    ensures sep in a + [sep] + rest && IndexOf(a + [sep] + rest, sep) == |a|
  {
    var s := a + [sep] + rest;
    assert s[|a|] == sep;
    if |a| > 0 {
      assert s[1..] == a[1..] + [sep] + rest;
      IndexOfAfter(a[1..], sep, rest);
    }
  }

  /** Splits `s` at every occurrence of `sep`; there is always at least one piece. */
  function SplitOn(s: Bytes, sep: byte): (parts: seq<Bytes>)
    ensures |parts| >= 1
    ensures forall k :: 0 <= k < |parts| ==> sep !in parts[k]
    ensures Join(parts, sep) == s
    decreases |s|
  {
    if sep !in s then [s]
    else
      var i := IndexOf(s, sep);
      assert s == s[..i] + [sep] + s[i + 1..];
      [s[..i]] + SplitOn(s[i + 1..], sep)
  }

  /** The inverse of SplitOn: the pieces glued back together with `sep` between them. */
  function Join(parts: seq<Bytes>, sep: byte): Bytes
    requires |parts| >= 1
  {
    if |parts| == 1 then parts[0] else parts[0] + [sep] + Join(parts[1..], sep)
  }

  lemma {:induction false} SplitJoin(parts: seq<Bytes>, sep: byte)
    requires |parts| >= 1
    requires forall k :: 0 <= k < |parts| ==> sep !in parts[k]
    ensures SplitOn(Join(parts, sep), sep) == parts
  {
    if |parts| > 1 {
      var rest := Join(parts[1..], sep);
      var s := parts[0] + [sep] + rest;
      IndexOfAfter(parts[0], sep, rest);
      assert s[..|parts[0]|] == parts[0];
      assert s[|parts[0]| + 1..] == rest;
      assert SplitOn(s, sep) == [parts[0]] + SplitOn(rest, sep);
      SplitJoin(parts[1..], sep);
      assert [parts[0]] + parts[1..] == parts;
    } else {
      assert sep !in parts[0];
      assert SplitOn(parts[0], sep) == [parts[0]];
    }
  }

  /**
   * The lines a Ruby regular expression sees: `^` matches at the start of each of these
   * and `$` at the end of each, and `.` never crosses a line break.
   */
  function Lines(s: Bytes): (ls: seq<Bytes>)
    ensures |ls| >= 1
    ensures forall k :: 0 <= k < |ls| ==> NEWLINE !in ls[k]
  {
    SplitOn(s, NEWLINE)
  }

  lemma SingleLine(s: Bytes)
    requires NEWLINE !in s
    ensures Lines(s) == [s]
  {
  }

  predicate IsDigit(b: byte) {
    0x30 <= b <= 0x39
  }

  /** The regular expression `\d+` matched against a whole line. */
  predicate AllDigits(s: Bytes) {
    |s| > 0 && forall i :: 0 <= i < |s| ==> IsDigit(s[i])
  }

  /** `String#to_i` of a string made only of decimal digits. */
  function DigitsValue(s: Bytes): (n: nat)
    requires forall i :: 0 <= i < |s| ==> IsDigit(s[i])
  {
    if |s| == 0 then 0 else DigitsValue(s[..|s| - 1]) * 10 + (s[|s| - 1] - 0x30) as int
  }

  /** `Integer#to_s` of a natural number: its decimal digits, no leading zero. */
  function DecimalDigits(n: nat): (s: Bytes)
    ensures AllDigits(s)
    ensures |s| > 1 ==> s[0] != 0x30
  {
    if n < 10 then [ByteOfInt(0x30 + n)] else DecimalDigits(n / 10) + [ByteOfInt(0x30 + n % 10)]
  }

  lemma {:induction false} DecimalRoundTrip(n: nat)
    ensures DigitsValue(DecimalDigits(n)) == n
  {
    var s := DecimalDigits(n);
    if n >= 10 {
      assert s[..|s| - 1] == DecimalDigits(n / 10);
      DecimalRoundTrip(n / 10);
    }
  }

  /** `Integer#to_s` of any integer: a minus sign in front of negative values. */
  function IntToString(n: int): (s: Bytes)
    ensures |s| > 0 && DOT !in s
  {
    if n < 0 then [MINUS] + DecimalDigits(-n) else DecimalDigits(n)
  }

  /** Reads back what IntToString wrote. */
  function ParseInt(s: Bytes): Option<int> {
    if AllDigits(s) then Some(DigitsValue(s) as int)
    else if |s| > 1 && s[0] == MINUS && AllDigits(s[1..]) then Some(-(DigitsValue(s[1..]) as int))
    else None
  }

  lemma IntToStringRoundTrip(n: int)
    ensures ParseInt(IntToString(n)) == Some(n)
  {
    if n < 0 {
      DecimalRoundTrip(-n);
      ParseNegative(DecimalDigits(-n));
      assert IntToString(n) == [MINUS] + DecimalDigits(-n);
    } else {
      DecimalRoundTrip(n);
      assert IntToString(n) == DecimalDigits(n);
    }
  }

  // A minus sign followed by digits reads back as the negated value.
  lemma ParseNegative(d: Bytes)
    requires AllDigits(d)
    ensures ParseInt([MINUS] + d) == Some(-(DigitsValue(d) as int))
  {
    var s := [MINUS] + d;
    assert !AllDigits(s) by { assert s[0] == MINUS; }
    assert s[1..] == d;
  }

  /** The bytes `String#to_i` skips before a number: space, tab, newline, vertical tab, form feed, carriage return. */
  predicate IsSpace(b: byte) {
    b == SPACE || 0x09 <= b <= 0x0D
  }

  /** `s` without its leading white space. */
  function SkipSpace(s: Bytes): (r: Bytes)
    ensures |r| <= |s| && r == s[|s| - |r|..]
    ensures |r| == 0 || !IsSpace(r[0])
    ensures forall i :: 0 <= i < |s| - |r| ==> IsSpace(s[i])
  {
    if |s| > 0 && IsSpace(s[0]) then SkipSpace(s[1..]) else s
  }

  /**
   * The digits of the longest prefix of `s` that reads as a decimal number, where a
   * single underscore may separate two digits; the underscores are dropped.
   */
  function LeadingDigits(s: Bytes): (d: Bytes)
    ensures |d| <= |s|
    ensures forall i :: 0 <= i < |d| ==> IsDigit(d[i])
    ensures |d| == 0 <==> |s| == 0 || !IsDigit(s[0])
  {
    if |s| == 0 || !IsDigit(s[0]) then []
    else if |s| > 2 && s[1] == UNDERSCORE && IsDigit(s[2]) then [s[0]] + LeadingDigits(s[2..])
    else [s[0]] + LeadingDigits(s[1..])
  }

  /**
   * `String#to_i`: leading white space is skipped, then one optional sign, then an
   * optional `0d` prefix, then as many digits as follow; a string that does not start
   * that way is 0. Whatever follows the digits, later lines included, is ignored.
   */
  function StringToInt(s: Bytes): (n: int)
    ensures var t := SkipSpace(s);
      |t| == 0 || !(IsDigit(t[0]) || t[0] == MINUS || t[0] == PLUS) ==> n == 0
    ensures n < 0 ==> var t := SkipSpace(s); |t| > 0 && t[0] == MINUS
  {
    var t := SkipSpace(s);
    if |t| > 0 && t[0] == MINUS then -(UnsignedToInt(t[1..]) as int)
    else if |t| > 0 && t[0] == PLUS then UnsignedToInt(t[1..])
    else UnsignedToInt(t)
  }

  /** What `to_i` reads after the sign: an optional `0d` prefix, then the leading digits. */
  function UnsignedToInt(u: Bytes): nat {
    var w := if |u| > 1 && u[0] == 0x30 && (u[1] == 0x64 || u[1] == 0x44) then u[2..] else u;
    DigitsValue(LeadingDigits(w))
  }

  lemma {:induction false} LeadingDigitsOfDigits(d: Bytes)
    requires forall i :: 0 <= i < |d| ==> IsDigit(d[i])
    ensures LeadingDigits(d) == d
  {
    if |d| > 0 {
      LeadingDigitsOfDigits(d[1..]);
      assert d == [d[0]] + d[1..];
    }
  }

  /** Whether `rest`, placed after a run of digits, ends the number `to_i` reads. */
  predicate EndsNumber(rest: Bytes) {
    |rest| == 0 || (!IsDigit(rest[0]) && !(rest[0] == UNDERSCORE && |rest| > 1 && IsDigit(rest[1])))
  }

  /** The digits `to_i` reads are exactly the run of digits the text starts with. */
  lemma {:induction false} LeadingDigitsOfPrefix(d: Bytes, rest: Bytes)
    requires forall i :: 0 <= i < |d| ==> IsDigit(d[i])
    requires EndsNumber(rest)
    ensures LeadingDigits(d + rest) == d
  {
    if |d| > 0 {
      assert (d + rest)[1..] == d[1..] + rest;
      LeadingDigitsOfPrefix(d[1..], rest);
      if |d| == 1 {
        assert d[1..] + rest == rest;
      }
      assert d == [d[0]] + d[1..];
    } else {
      assert d + rest == rest;
    }
  }

  /**
   * `to_i` of digits followed by anything that ends the number, such as a newline and
   * a second line, is the value of those digits, unless the text begins with a `0d` prefix.
   */
  lemma StringToIntOfPrefix(d: Bytes, rest: Bytes)
    requires AllDigits(d) && EndsNumber(rest)
    requires !(d == [0x30] && |rest| > 0 && (rest[0] == 0x64 || rest[0] == 0x44))
    ensures StringToInt(d + rest) == DigitsValue(d) as int
  {
    var s := d + rest;
    UnsignedOfPrefix(d, rest);
    assert s[0] == d[0] && IsDigit(d[0]);
    assert !IsSpace(s[0]) && s[0] != MINUS && s[0] != PLUS;
    assert SkipSpace(s) == s;
  }

  // After the sign, digits followed by what ends the number read as those digits.
  lemma UnsignedOfPrefix(d: Bytes, rest: Bytes)
    requires AllDigits(d) && EndsNumber(rest)
    requires !(d == [0x30] && |rest| > 0 && (rest[0] == 0x64 || rest[0] == 0x44))
    ensures UnsignedToInt(d + rest) == DigitsValue(d)
  {
    var s := d + rest;
    assert !(|s| > 1 && s[0] == 0x30 && (s[1] == 0x64 || s[1] == 0x44)) by {
      if |d| > 1 {
        assert s[1] == d[1] && IsDigit(d[1]);
      } else if |s| > 1 && s[0] == 0x30 {
        assert d == [0x30] && s[1] == rest[0];
      }
    }
    LeadingDigitsOfPrefix(d, rest);
  }

  /** `"17\nRock".to_i` is 17. */
  lemma StringToIntSeventeenRock()
    ensures StringToInt([0x31, 0x37, NEWLINE, 0x52, 0x6F, 0x63, 0x6B]) == 17
  {
    var d: Bytes := [0x31, 0x37];
    var rest: Bytes := [NEWLINE, 0x52, 0x6F, 0x63, 0x6B];
    assert d + rest == [0x31, 0x37, NEWLINE, 0x52, 0x6F, 0x63, 0x6B];
    StringToIntOfPrefix(d, rest);
    assert d[..1] == [0x31] && [0x31][..0] == [];
  }

  lemma UnsignedOfDigits(d: Bytes)
    requires AllDigits(d)
    ensures UnsignedToInt(d) == DigitsValue(d)
  {
    assert |d| > 1 ==> IsDigit(d[1]);
    LeadingDigitsOfDigits(d);
  }

  /** On a string of digits `to_i` is the value of those digits. */
  lemma StringToIntOfDigits(d: Bytes)
    requires AllDigits(d)
    ensures StringToInt(d) == DigitsValue(d) as int
  {
    assert IsDigit(d[0]);
    UnsignedOfDigits(d);
  }

  /** A minus sign followed by digits is the negated value of the digits. */
  lemma StringToIntOfNegative(d: Bytes)
    requires AllDigits(d)
    ensures StringToInt([MINUS] + d) == -(DigitsValue(d) as int)
  {
    var s := [MINUS] + d;
    assert SkipSpace(s) == s by { assert !IsSpace(s[0]); }
    assert s[1..] == d;
    UnsignedOfDigits(d);
  }

  /** `to_i` reads back what `Integer#to_s` wrote. */
  lemma StringToIntRoundTrip(n: int)
    ensures StringToInt(IntToString(n)) == n
  {
    if n < 0 {
      DecimalRoundTrip(-n);
      StringToIntOfNegative(DecimalDigits(-n));
    } else {
      DecimalRoundTrip(n);
      StringToIntOfDigits(DecimalDigits(n));
    }
  }

  /** The bytes of a Ruby string literal; every literal in the model is ASCII. */
  function Ascii(s: string): (r: Bytes)
    ensures |r| == |s|
  {
    seq(|s|, i requires 0 <= i < |s| => ByteOfInt(s[i] as int % 256))
  }

  /**
   * `io.read(n)` for `n > 0` on a stream holding `src` and positioned at `pos`: nil at the
   * end of the stream, otherwise the next `n` bytes or as many as remain. The stream
   * position advances by the length of what was returned.
   */
  function Read(src: Bytes, pos: nat, n: nat): (r: Option<Bytes>)
    requires n > 0
    ensures r.None? <==> pos >= |src|
    ensures r.Some? ==> 0 < |r.value| <= n && pos + |r.value| <= |src|
    ensures r.Some? ==> r.value == src[pos..pos + |r.value|]
    ensures r.Some? && |r.value| < n ==> pos + |r.value| == |src|
  {
    if pos >= |src| then None
    else if pos + n <= |src| then Some(src[pos..pos + n])
    else Some(src[pos..])
  }
}
