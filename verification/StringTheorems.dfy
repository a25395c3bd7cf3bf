/** What quoting, scanning and decoding guarantee together, for every byte string. */
module StringTheorems {
  import opened Bytes
  import opened Utf8
  import opened StringCodec
  import opened Seqs

  // ---------------------------------------------------------------- what decoding a quoted string gives

  /** The scalar value that a code point read from malformed input is written as. */
  function CleanCp(cp: nat): nat {
    if cp <= 0x10FFFF then cp else 0x10000 + (cp - 0x10000) % 0x100000
  }

  /** `s` from `i` on, re-encoded character by character. */
  function CleanFrom(s: Bytes, i: nat): Bytes
    requires i <= |s|
    decreases |s| - i
  {
    if i == |s| then []
    else CodePointToUtf8(CleanCp(Utf8ToCodepoint(s, i).cp)) + CleanFrom(s, i + Utf8ToCodepoint(s, i).size)
  }

  function Clean(s: Bytes): Bytes {
    CleanFrom(s, 0)
  }

  lemma CleanIsScalar(s: Bytes, i: nat)
    requires i < |s|
    ensures IsScalar(CleanCp(Utf8ToCodepoint(s, i).cp))
  {
  }

  lemma {:induction false} CleanFromIsValid(s: Bytes, i: nat)
    requires i <= |s|
    ensures Valid(CleanFrom(s, i))
    decreases |s| - i
  {
    if i < |s| {
      hide Utf8ToCodepoint, CodePointToUtf8, Valid, CleanCp;
      var next := i + Utf8ToCodepoint(s, i).size;
      CleanFromIsValid(s, next);
      CleanIsScalar(s, i);
      ValidPrepend(CleanCp(Utf8ToCodepoint(s, i).cp), CleanFrom(s, next));
    }
  }

  lemma {:induction false} CleanFromIsIdentity(s: Bytes, i: nat)
    requires i <= |s| && ValidFrom(s, i)
    ensures CleanFrom(s, i) == s[i..]
    decreases |s| - i
  {
    hide CodePointToUtf8, Utf8ToCodepoint, CharLength, CleanFrom, CleanCp;
    CleanStep(s, i);
    if i < |s| {
      DecodeEncode(s, i);
      CleanScalar(Utf8ToCodepoint(s, i).cp);
      var next := i + CharLength(s, i);
      CleanFromIsIdentity(s, next);
      assert s[i..] == s[i..next] + s[next..];
    }
  }

  lemma CleanStep(s: Bytes, i: nat)
    requires i <= |s|
    ensures if i == |s| then CleanFrom(s, i) == []
            else
              var d := Utf8ToCodepoint(s, i);
              CleanFrom(s, i) == CodePointToUtf8(CleanCp(d.cp)) + CleanFrom(s, i + d.size)
  {
    hide CodePointToUtf8, Utf8ToCodepoint, CleanCp;
  }

  lemma CleanScalar(cp: nat)
    requires IsScalar(cp)
    ensures CleanCp(cp) == cp
  {
  }

  /** Cleaning yields valid UTF-8 and changes exactly the strings that are not valid UTF-8. */
  lemma CleanIffValid(s: Bytes)
    ensures Valid(Clean(s))
    ensures Clean(s) == s <==> Valid(s)
  {
    CleanFromIsValid(s, 0);
    if Valid(s) {
      CleanFromIsIdentity(s, 0);
      assert s[0..] == s;
    }
  }

  // ---------------------------------------------------------------- decoding one escape

  lemma DecodeNoEscape(c: Bytes)
    requires c != [] && c[0] != BACKSLASH
    ensures DecodeContent(c) == if c[0] == QUOTE then Decoded([], c) else DecodeContent(c[1..]).Prepend([c[0]])
  {
    hide DecodeUnicode;
  }

  lemma DecodeEscape(c: Bytes)
    requires c != [] && c[0] == BACKSLASH
    ensures if |c| == 1 then DecodeContent(c).Undecodable?
            else if Unescape(c[1]) >= 0 then DecodeContent(c) == DecodeContent(c[2..]).Prepend([Unescape(c[1])])
            else c[1] != LOWER_U ==> DecodeContent(c).Undecodable?
  {
    hide DecodeUnicode;
  }

  lemma DecodeLongEscape(c: Bytes)
    requires |c| >= 2 && c[0] == BACKSLASH && c[1] == LOWER_U
    ensures var u := DecodeUnicode(c[2..]);
            if u.BadUnicode? then DecodeContent(c).Undecodable?
            else 2 + u.size <= |c| && DecodeContent(c) == DecodeContent(c[2 + u.size..]).Prepend(CodePointToUtf8(u.cp))
  {
    hide DecodeUnicode, CodePointToUtf8;
    assert Unescape(c[1]) < 0;
  }

  lemma HexInverse(d: nat)
    requires d < 16
    ensures HexValue(HexDigit(d)) == d
  {
  }

  lemma Nibbles(x: nat)
    requires x < 0x10000
    ensures x / 4096 % 16 * 4096 + x / 256 % 16 * 256 + x / 16 % 16 * 16 + x % 16 == x
  {
    var a, b, c := x / 16, x / 256, x / 4096;
    assert b == a / 16 && c == b / 16;
  }

  lemma HexRoundTrip(x: nat, more: Bytes)
    requires x < 0x10000
    ensures DecodeFour(Hex4(x) + more) == CodePoint(x, 4)
  {
    var c := Hex4(x) + more;
    HexInverse(x / 4096 % 16);
    HexInverse(x / 256 % 16);
    HexInverse(x / 16 % 16);
    HexInverse(x % 16);
    var p, q, r, z := x / 4096 % 16, x / 256 % 16, x / 16 % 16, x % 16;
    assert c[0] == HexDigit(p) && c[1] == HexDigit(q) && c[2] == HexDigit(r) && c[3] == HexDigit(z);
    assert HexValues(c, 0) == 0;
    assert HexValues(c, 1) == p;
    assert HexValues(c, 2) == p * 16 + q;
    assert HexValues(c, 3) == (p * 16 + q) * 16 + r;
    assert HexValues(c, 4) == ((p * 16 + q) * 16 + r) * 16 + z;
    Nibbles(x);
  }

  lemma DecodeUEscape(x: nat, more: Bytes)
    requires x < 0x10000 && !(0xD800 <= x <= 0xDBFF)
    ensures DecodeContent(UEscape(x) + more) == DecodeContent(more).Prepend(CodePointToUtf8(x))
  {
    var c := UEscape(x) + more;
    HexRoundTrip(x, more);
    assert c[2..] == Hex4(x) + more;
    assert c[6..] == more;
    assert c[0] == BACKSLASH && c[1] == LOWER_U;
    assert DecodeUnicode(c[2..]) == CodePoint(x, 4);
  }

  lemma DecodePair(hi: nat, lo: nat, more: Bytes)
    requires hi < 1024 && lo < 1024
    ensures DecodeUnicode(Hex4(0xD800 + hi) + UEscape(0xDC00 + lo) + more) ==
            CodePoint(0x10000 + hi * 1024 + lo, 10)
  {
    hide Hex4, DecodeFour;
    var second := UEscape(0xDC00 + lo) + more;
    var c := Hex4(0xD800 + hi) + UEscape(0xDC00 + lo) + more;
    assert c == Hex4(0xD800 + hi) + second;
    HexRoundTrip(0xD800 + hi, second);
    assert c[4] == BACKSLASH && c[5] == LOWER_U;
    assert c[6..] == Hex4(0xDC00 + lo) + more;
    HexRoundTrip(0xDC00 + lo, more);
    assert (0xD800 + hi) % 1024 == hi && (0xDC00 + lo) % 1024 == lo;
  }

  lemma DecodeSurrogates(hi: nat, lo: nat, more: Bytes)
    requires hi < 1024 && lo < 1024
    ensures DecodeContent(UEscape(0xD800 + hi) + UEscape(0xDC00 + lo) + more) ==
            DecodeContent(more).Prepend(CodePointToUtf8(0x10000 + hi * 1024 + lo))
  {
    hide Hex4, DecodeUnicode, CodePointToUtf8;
    var c := UEscape(0xD800 + hi) + UEscape(0xDC00 + lo) + more;
    DecodePair(hi, lo, more);
    assert c[2..] == Hex4(0xD800 + hi) + UEscape(0xDC00 + lo) + more;
    assert c[12..] == more;
    assert c[0] == BACKSLASH && c[1] == LOWER_U;
  }

  lemma SurrogateSplit(c: nat)
    ensures 0x10000 + c / 1024 % 1024 * 1024 + c % 1024 == 0x10000 + c % 0x100000
  {
    var q := c / 1024;
    var k, r := q / 1024, q % 1024 * 1024 + c % 1024;
    assert q == k * 1024 + q % 1024;
    assert c == k * 0x100000 + r;
    LowTwentyBits(k, r);
  }

  lemma LowTwentyBits(k: nat, r: nat)
    requires r < 0x100000
    ensures (k * 0x100000 + r) % 0x100000 == r
  {
  }

  lemma AsciiCodePoint(s: Bytes, i: nat)
    requires i < |s|
    ensures s[i] < 0x80 ==> Utf8ToCodepoint(s, i) == Character(s[i], 1)
    ensures s[i] >= 0x80 ==> Utf8ToCodepoint(s, i).cp >= 0x80
    ensures !(0xD800 <= Utf8ToCodepoint(s, i).cp <= 0xDFFF)
    ensures Utf8ToCodepoint(s, i).cp >= 0x10000 ==> Utf8ToCodepoint(s, i).size == 4
  {
  }

  lemma EncodeAscii(c: byte)
    requires c < 0x80
    ensures CodePointToUtf8(c) == [c]
  {
  }

  lemma DecodePlain(c: byte, more: Bytes)
    requires c != QUOTE && c != BACKSLASH
    ensures DecodeContent([c] + more) == DecodeContent(more).Prepend([c])
  {
    assert ([c] + more)[1..] == more;
  }

  lemma DecodeEscapedCodePoint(cp: nat, more: Bytes)
    requires !(0xD800 <= cp <= 0xDFFF) && cp != QUOTE && cp != BACKSLASH
    ensures DecodeContent(EscapeCodePoint(cp) + more) == DecodeContent(more).Prepend(CodePointToUtf8(CleanCp(cp)))
  {
    hide CodePointToUtf8, UEscape, DecodeContent;
    if cp < 0x20 || 0x80 <= cp < 0x10000 {
      DecodeUEscape(cp, more);
    } else if cp < 0x80 {
      DecodePlain(cp, more);
      EncodeAscii(cp);
    } else {
      var k := cp - 0x10000;
      SurrogateSplit(k);
      DecodeSurrogates(k / 1024 % 1024, k % 1024, more);
    }
  }

  /** Decoding undoes the escape of one character. */
  lemma DecodePiece(s: Bytes, i: nat, more: Bytes)
    requires i < |s|
    ensures EscapeAt(s, i).size == Utf8ToCodepoint(s, i).size
    ensures DecodeContent(EscapeAt(s, i).text + more) ==
            DecodeContent(more).Prepend(CodePointToUtf8(CleanCp(Utf8ToCodepoint(s, i).cp)))
  {
    hide CodePointToUtf8, Utf8ToCodepoint, EscapeCodePoint;
    AsciiCodePoint(s, i);
    if ShortEscape(s[i]) != 0 {
      DecodeShortEscape(s[i], more);
      EncodeAscii(s[i]);
    } else {
      DecodeEscapedCodePoint(Utf8ToCodepoint(s, i).cp, more);
    }
  }

  lemma DecodeShortEscape(c: byte, more: Bytes)
    requires ShortEscape(c) != 0
    ensures DecodeContent([BACKSLASH, ShortEscape(c)] + more) == DecodeContent(more).Prepend([c])
  {
    var x := [BACKSLASH, ShortEscape(c)] + more;
    assert x[2..] == more && x[0] == BACKSLASH && x[1] == ShortEscape(c);
  }

  lemma {:induction false} DecodeBody(s: Bytes, i: nat)
    requires i <= |s|
    ensures DecodeContent(QuoteBody(s, i)) == Decoded(CleanFrom(s, i), [])
    decreases |s| - i
  {
    hide EscapeAt, Utf8ToCodepoint, CodePointToUtf8, CleanCp, DecodeContent;
    if i < |s| {
      var next := i + EscapeAt(s, i).size;
      DecodePiece(s, i, QuoteBody(s, next));
      DecodeBody(s, next);
    } else {
      DecodeEmpty();
    }
  }

  lemma DecodeEmpty()
    ensures DecodeContent([]) == Decoded([], [])
  {
  }

  /**
   * Quoting is total: every byte string, valid UTF-8 or not, is written as a literal that
   * decodes without error to valid UTF-8, and to the same bytes exactly when they were valid.
   */
  lemma QuoteDecodes(s: Bytes)
    ensures DecodeText(Quote(s)) == Decoded(Clean(s), [])
    ensures Valid(Clean(s))
    ensures DecodeText(Quote(s)) == Decoded(s, []) <==> Valid(s)
  {
    DecodeBody(s, 0);
    assert Quote(s)[1..|Quote(s)| - 1] == QuoteBody(s, 0);
    CleanIffValid(s);
  }

  // ---------------------------------------------------------------- shape of a quoted string

  predicate Plain(c: byte) {
    0x20 <= c <= 0x7F
  }

  predicate AllPlain(s: Bytes) {
    forall k | 0 <= k < |s| :: Plain(s[k])
  }

  lemma PieceShape(s: Bytes, i: nat)
    requires i < |s|
    ensures AllPlain(EscapeAt(s, i).text)
    ensures |EscapeAt(s, i).text| <= 6 * EscapeAt(s, i).size
  {
    hide Utf8ToCodepoint;
    AsciiCodePoint(s, i);
  }

  lemma {:induction false} BodyShape(s: Bytes, i: nat)
    requires i <= |s|
    ensures AllPlain(QuoteBody(s, i))
    ensures |QuoteBody(s, i)| <= 6 * (|s| - i)
    decreases |s| - i
  {
    hide EscapeAt;
    if i < |s| {
      PieceShape(s, i);
      BodyShape(s, i + EscapeAt(s, i).size);
    }
  }

  /** The literal is printable ASCII and at most six times as long as the input, plus the quotes. */
  lemma QuoteShape(s: Bytes)
    ensures AllPlain(Quote(s))
    ensures 2 <= |Quote(s)| <= 6 * |s| + 2
    ensures Quote(s)[0] == QUOTE
  {
    BodyShape(s, 0);
  }

  // ---------------------------------------------------------------- scanning a quoted string

  predicate Inert(c: byte) {
    c != QUOTE && c != BACKSLASH
  }

  lemma {:induction false} ScanInert(t: Bytes, i: nat, n: nat)
    requires i + n <= |t|
    requires forall k | i <= k < i + n :: Inert(t[k])
    ensures ScanString(t, i) == ScanString(t, i + n)
    decreases n
  {
    if n > 0 {
      assert Inert(t[i]);
      ScanInert(t, i + 1, n - 1);
    }
  }

  lemma ScanUEscape(t: Bytes, i: nat, x: nat)
    requires i + 6 <= |t| && t[i..i + 6] == UEscape(x)
    ensures ScanString(t, i) == ScanString(t, i + 6)
  {
    var u := t[i..i + 6];
    assert u[0] == t[i] && u[2] == t[i + 2] && u[3] == t[i + 3] && u[4] == t[i + 4] && u[5] == t[i + 5];
    assert UEscape(x)[2..] == Hex4(x);
    ScanInert(t, i + 2, 4);
  }

  lemma ScanEscapedCodePoint(t: Bytes, j: nat, cp: nat)
    requires cp != QUOTE && cp != BACKSLASH
    requires j + |EscapeCodePoint(cp)| <= |t| && t[j..j + |EscapeCodePoint(cp)|] == EscapeCodePoint(cp)
    ensures ScanString(t, j) == ScanString(t, j + |EscapeCodePoint(cp)|)
  {
    hide Hex4;
    var p := EscapeCodePoint(cp);
    if cp < 0x20 || 0x80 <= cp < 0x10000 {
      ScanUEscape(t, j, cp);
    } else if cp < 0x80 {
      assert t[j] == p[0];
      ScanInert(t, j, 1);
    } else {
      var c := cp - 0x10000;
      var a, b := UEscape(0xD800 + c / 1024 % 1024), UEscape(0xDC00 + c % 1024);
      assert p == a + b && |a| == 6 && |b| == 6;
      assert t[j..j + 6] == t[j..j + 12][..6] == a;
      assert t[j + 6..j + 12] == t[j..j + 12][6..] == b;
      ScanUEscape(t, j, 0xD800 + c / 1024 % 1024);
      ScanUEscape(t, j + 6, 0xDC00 + c % 1024);
    }
  }

  lemma ScanPiece(t: Bytes, j: nat, s: Bytes, i: nat)
    requires i < |s|
    requires j <= |t| && EscapeAt(s, i).text <= t[j..]
    ensures ScanString(t, j) == ScanString(t, j + |EscapeAt(s, i).text|)
  {
    hide Utf8ToCodepoint, EscapeCodePoint;
    PrefixIsSlice(EscapeAt(s, i).text, t, j);
    AsciiCodePoint(s, i);
    var p := EscapeAt(s, i).text;
    if ShortEscape(s[i]) != 0 {
      assert t[j] == p[0];
    } else {
      ScanEscapedCodePoint(t, j, Utf8ToCodepoint(s, i).cp);
    }
  }

  lemma QuoteBodyStep(s: Bytes, i: nat)
    requires i <= |s|
    ensures if i == |s| then QuoteBody(s, i) == []
            else QuoteBody(s, i) == EscapeAt(s, i).text + QuoteBody(s, i + EscapeAt(s, i).size)
  {
    hide EscapeAt;
  }

  lemma LengthOfConcat(a: Bytes, b: Bytes, j: nat)
    ensures j + |a + b| == j + |a| + |b|
  {
  }

  lemma {:induction false} ScanBody(t: Bytes, j: nat, s: Bytes, i: nat)
    requires i <= |s| && j <= |t| && QuoteBody(s, i) <= t[j..]
    ensures ScanString(t, j) == ScanString(t, j + |QuoteBody(s, i)|)
    decreases |s| - i
  {
    hide EscapeAt, ScanString, QuoteBody;
    QuoteBodyStep(s, i);
    if i < |s| {
      var a, next := EscapeAt(s, i).text, i + EscapeAt(s, i).size;
      PrefixSplit(a, QuoteBody(s, next), t, j);
      ScanPiece(t, j, s, i);
      ScanBody(t, j + |a|, s, next);
      LengthOfConcat(a, QuoteBody(s, next), j);
    }
  }

  /** In any document, a quoted string is scanned as exactly one complete token. */
  lemma QuoteScans(t: Bytes, i: nat, s: Bytes)
    requires i + |Quote(s)| <= |t| && t[i..i + |Quote(s)|] == Quote(s)
    ensures ScanString(t, i + 1) == Scan(true, i + |Quote(s)|)
  {
    hide QuoteBody;
    var q := Quote(s);
    var n := |QuoteBody(s, 0)|;
    assert |q| == n + 2 && q[1..1 + n] == QuoteBody(s, 0);
    SliceOfSlice(t, i, i + |q|, 1, 1 + n);
    SliceIsPrefix(QuoteBody(s, 0), t, i + 1);
    ScanBody(t, i + 1, s, 0);
    assert t[i + 1 + n] == q[1 + n] == QUOTE;
  }

  // ---------------------------------------------------------------- scanner and decoder agree

  /** The decoder saw the whole content: no quote stopped it and no escape was cut off. */
  predicate Aligned(d: DecodedString) {
    if d.Decoded? then d.rest == [] else d.error != EmptyEscape
  }

  lemma HexAreInert(c: Bytes, n: nat)
    requires n <= |c| && HexValues(c, n) >= 0
    ensures forall k | 0 <= k < n :: Inert(c[k])
  {
  }

  lemma FourAreInert(x: Bytes, i: nat, end: nat)
    requires i <= end <= |x| && DecodeFour(x[i..end]).CodePoint?
    ensures ScanString(x, i) == ScanString(x, i + 4)
  {
    HexAreInert(x[i..end], 4);
    forall k | i <= k < i + 4 ensures Inert(x[k]) {
      assert Inert(x[i..end][k - i]);
    }
    ScanInert(x, i, 4);
  }

  /** The scanner skips exactly the characters that decodeUnicodeCodePoint consumes. */
  lemma UnicodeIsInert(x: Bytes, i: nat, end: nat)
    requires i <= end <= |x| && DecodeUnicode(x[i..end]).CodePoint?
    ensures ScanString(x, i) == ScanString(x, i + DecodeUnicode(x[i..end]).size)
  {
    var c := x[i..end];
    FourAreInert(x, i, end);
    if DecodeUnicode(c).size == 10 {
      assert c[4] == x[i + 4] && c[6..] == x[i + 6..end];
      FourAreInert(x, i + 6, end);
    }
  }

  /**
   * For every token the scanner accepts, the decoder never meets an unescaped quote inside the
   * content or an escape without a character after it; it consumes the content to its end.
   */
  lemma {:induction false} ScannedIsAligned(x: Bytes, i: nat)
    requires i < |x| && ScanString(x, i) == Scan(true, |x|)
    ensures Aligned(DecodeContent(x[i..|x| - 1]))
    decreases |x| - i
  {
    hide DecodeContent, DecodeUnicode, CodePointToUtf8;
    var end := |x| - 1;
    FinalStep(x, i, end, []);
    if i == end {
      PrependNothing(x[i..end]);
    } else if x[i] == BACKSLASH {
      assert i + 1 < end;
      if Unescape(x[i + 1]) >= 0 {
        ScannedIsAligned(x, i + 2);
        ShortStep(x, i, end, []);
        PrependNothing(x[i..end]);
      } else if x[i + 1] == LOWER_U {
        var u := DecodeUnicode(x[i + 2..end]);
        UnicodeStep(x, i, end, []);
        PrependNothing(x[i..end]);
        if u.CodePoint? {
          UnicodeIsInert(x, i + 2, end);
          ScannedIsAligned(x, i + 2 + u.size);
        }
      }
    } else {
      ScannedIsAligned(x, i + 1);
      PlainStep(x, i, end, []);
      PrependNothing(x[i..end]);
    }
  }

  lemma PrependNothing(c: Bytes)
    ensures DecodeContent(c).Prepend([]) == DecodeContent(c)
  {
    if DecodeContent(c).Decoded? {
      assert [] + DecodeContent(c).out == DecodeContent(c).out;
    }
  }

  /** Every escape the decoder accepts is a code point of Unicode, written as one to four bytes. */
  lemma EscapeIsEncodable(c: Bytes)
    requires DecodeUnicode(c).CodePoint?
    ensures DecodeUnicode(c).cp <= 0x10FFFF
    ensures 1 <= |CodePointToUtf8(DecodeUnicode(c).cp)| <= 4
  {
  }

  // ---------------------------------------------------------------- what is written for each character

  /** The lower-case hexadecimal digits. */
  const HEX_DIGITS: Bytes := [0x30, 0x31, 0x32, 0x33, 0x34, 0x35, 0x36, 0x37,
                              0x38, 0x39, 0x61, 0x62, 0x63, 0x64, 0x65, 0x66]

  /** A \\u escape of a number below 65536. */
  predicate IsEscape(x: Bytes, n: nat) {
    && |x| == 6 && x[0] == 0x5C && x[1] == 0x75
    && exists a, b, c, d | 0 <= a < 16 && 0 <= b < 16 && 0 <= c < 16 && 0 <= d < 16 ::
         && n == a * 4096 + b * 256 + c * 16 + d
         && x[2..] == [HEX_DIGITS[a], HEX_DIGITS[b], HEX_DIGITS[c], HEX_DIGITS[d]]
  }

  lemma UEscapeIsEscape(n: nat)
    requires n < 0x10000
    ensures IsEscape(UEscape(n), n)
  {
    var a, b, c, d := n / 4096 % 16, n / 256 % 16, n / 16 % 16, n % 16;
    Nibbles(n);
    HexDigitIs(a);
    HexDigitIs(b);
    HexDigitIs(c);
    HexDigitIs(d);
    assert UEscape(n)[2..] == [HEX_DIGITS[a], HEX_DIGITS[b], HEX_DIGITS[c], HEX_DIGITS[d]];
  }

  lemma HexDigitIs(d: nat)
    requires d < 16
    ensures HexDigit(d) == HEX_DIGITS[d]
  {
  }

  /** What is written for an ASCII character. */
  lemma AsciiPieceIs(s: Bytes, i: nat)
    requires i < |s| && s[i] < 0x80
    ensures var (c, x) := (s[i], EscapeAt(s, i).text);
            && EscapeAt(s, i).size == 1
            && (c == 0x22 || c == 0x5C ==> x == [0x5C, c])
            && (c == 0x08 ==> x == [0x5C, 0x62]) && (c == 0x0C ==> x == [0x5C, 0x66])
            && (c == 0x0A ==> x == [0x5C, 0x6E]) && (c == 0x0D ==> x == [0x5C, 0x72])
            && (c == 0x09 ==> x == [0x5C, 0x74])
            && (c < 0x20 && c !in {0x08, 0x09, 0x0A, 0x0C, 0x0D} ==> IsEscape(x, c))
            && (0x20 <= c && c != 0x22 && c != 0x5C ==> x == [c])
  {
    hide UEscape, IsEscape, Utf8ToCodepoint;
    AsciiCodePoint(s, i);
    UEscapeIsEscape(s[i]);
  }

  /** Any other character is written as one escape, or as a surrogate pair. */
  lemma PieceIs(s: Bytes, i: nat)
    requires i < |s| && s[i] >= 0x80
    ensures var (cp, x) := (Utf8ToCodepoint(s, i).cp, EscapeAt(s, i).text);
            && EscapeAt(s, i).size == Utf8ToCodepoint(s, i).size
            && (cp < 0x10000 ==> IsEscape(x, cp))
            && (0x10000 <= cp <= 0x10FFFF ==>
                  && |x| == 12 && IsEscape(x[..6], 0xD800 + (cp - 0x10000) / 1024)
                  && IsEscape(x[6..], 0xDC00 + (cp - 0x10000) % 1024))
  {
    hide UEscape, IsEscape, Utf8ToCodepoint;
    var cp := Utf8ToCodepoint(s, i).cp;
    CodePointIsHigh(s, i);
    if cp < 0x10000 {
      UEscapeIsEscape(cp);
    } else if cp <= 0x10FFFF {
      PairIsEscapes(cp - 0x10000);
    }
  }

  lemma PairIsEscapes(c: nat)
    requires c < 0x100000
    ensures var x := EscapeCodePoint(0x10000 + c);
            |x| == 12 && IsEscape(x[..6], 0xD800 + c / 1024) && IsEscape(x[6..], 0xDC00 + c % 1024)
  {
    hide UEscape, IsEscape;
    assert c / 1024 % 1024 == c / 1024;
    var hi, lo := UEscape(0xD800 + c / 1024), UEscape(0xDC00 + c % 1024);
    UEscapeIsEscape(0xD800 + c / 1024);
    UEscapeIsEscape(0xDC00 + c % 1024);
    assert (hi + lo)[..6] == hi && (hi + lo)[6..] == lo;
  }

  lemma CodePointIsHigh(s: Bytes, i: nat)
    requires i < |s| && s[i] >= 0x80
    ensures Utf8ToCodepoint(s, i).cp >= 0x80
  {
  }
}
