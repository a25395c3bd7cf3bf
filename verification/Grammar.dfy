/**
 * JSON texts as RFC 8259 defines them: values, numbers and strings with any escapes, and white
 * space wherever it is allowed. The reader accepts such a text exactly when it is at most 1000
 * deep, every number denotes something and every high surrogate escape is followed by another
 * escape; and then it gives the value that the text denotes.
 */
module Grammar {
  import opened Bytes
  import opened Seqs
  import opened Wrappers
  import opened Utf8
  import opened StringCodec
  import opened StringTheorems
  import opened Numbers
  import opened Lexer
  import opened LexerTheorems
  import opened Values
  import opened ReaderSpec
  import opened FastWriters
  import opened Rendering
  import opened FastTheorems
  import opened Syntaxes

  // ---------------------------------------------------------------- strings (section 7 of RFC 8259)

  /** A character as it is written: itself, a two-character escape, or \u with four hexadecimal digits. */
  datatype Char = Raw(b: byte) | Short(e: byte) | Unit(hex: Bytes)

  /** The character that a two-character escape denotes, by the table of section 7; -1 if there is none. */
  function EscapeTable(e: byte): int {
    if e == 0x22 then 0x22
    else if e == 0x5C then 0x5C
    else if e == 0x2F then 0x2F
    else if e == 0x62 then 0x08
    else if e == 0x66 then 0x0C
    else if e == 0x6E then 0x0A
    else if e == 0x72 then 0x0D
    else if e == 0x74 then 0x09
    else -1
  }

  /** The number that a hexadecimal digit of either case stands for; -1 if it is none. */
  function HexTable(c: byte): (v: int)
    ensures v < 16
  {
    if 0x30 <= c <= 0x39 then c - 0x30
    else if 0x41 <= c <= 0x46 then c - 0x41 + 10
    else if 0x61 <= c <= 0x66 then c - 0x61 + 10
    else -1
  }

  lemma TablesAgree(c: byte)
    ensures Unescape(c) == EscapeTable(c) && HexValue(c) == HexTable(c)
  {
  }

  /** White space, digits, structural characters and literal names are those of sections 2 and 3. */
  lemma CharactersAgree(c: byte)
    ensures IsSpace(c) <==> c == 0x20 || c == 0x09 || c == 0x0A || c == 0x0D
    ensures IsDigit(c) <==> 0x30 <= c <= 0x39
    ensures (LBRACKET, LBRACE, RBRACKET, RBRACE, COLON, COMMA) == (0x5B, 0x7B, 0x5D, 0x7D, 0x3A, 0x2C)
    ensures (QUOTE, MINUS, PLUS, DOT, LOWER_E, UPPER_E, ZERO) == (0x22, 0x2D, 0x2B, 0x2E, 0x65, 0x45, 0x30)
    ensures NULL_TEXT == [0x6E, 0x75, 0x6C, 0x6C] && TRUE_TEXT == [0x74, 0x72, 0x75, 0x65]
    ensures FALSE_TEXT == [0x66, 0x61, 0x6C, 0x73, 0x65]
  {
  }

  predicate IsHex(h: Bytes) {
    |h| == 4 && HexTable(h[0]) >= 0 && HexTable(h[1]) >= 0 && HexTable(h[2]) >= 0 && HexTable(h[3]) >= 0
  }

  predicate IsChar(c: Char) {
    match c
    case Raw(b) => b >= 0x20 && b != 0x22 && b != 0x5C
    case Short(e) => EscapeTable(e) >= 0
    case Unit(h) => IsHex(h)
  }

  predicate AreChars(cs: seq<Char>) {
    forall i | 0 <= i < |cs| :: IsChar(cs[i])
  }

  function CharText(c: Char): (r: Bytes)
    ensures r != []
  {
    match c
    case Raw(b) => [b]
    case Short(e) => [0x5C, e]
    case Unit(h) => [0x5C, 0x75] + h
  }

  function CharsText(cs: seq<Char>): Bytes {
    if cs == [] then [] else CharText(cs[0]) + CharsText(cs[1..])
  }

  /** The number that four hexadecimal digits stand for. */
  function UnitValue(h: Bytes): (v: nat)
    requires IsHex(h)
    ensures v < 0x10000
  {
    ((HexTable(h[0]) * 16 + HexTable(h[1])) * 16 + HexTable(h[2])) * 16 + HexTable(h[3])
  }

  predicate IsHigh(c: Char) {
    c.Unit? && IsHex(c.hex) && 0xD800 <= UnitValue(c.hex) <= 0xDBFF
  }

  /** Every high surrogate is followed by another \u escape. */
  predicate Paired(cs: seq<Char>)
    requires AreChars(cs)
  {
    cs == [] || (if IsHigh(cs[0]) then |cs| >= 2 && cs[1].Unit? && Paired(cs[2..]) else Paired(cs[1..]))
  }

  /** The bytes that a string denotes; a pair of surrogates is one code point. */
  function Denoted(cs: seq<Char>): Bytes
    requires AreChars(cs)
  {
    if cs == [] then []
    else if IsHigh(cs[0]) && |cs| >= 2 && cs[1].Unit? then
      CodePointToUtf8(PairValue(UnitValue(cs[0].hex), UnitValue(cs[1].hex))) + Denoted(cs[2..])
    else CharValue(cs[0]) + Denoted(cs[1..])
  }

  /** For a high and a low surrogate this is their code point. */
  function PairValue(hi: nat, lo: nat): nat
    requires 0xD800 <= hi <= 0xDBFF
  {
    0x10000 + (hi - 0xD800) * 0x400 + lo % 0x400
  }

  function CharValue(c: Char): Bytes
    requires IsChar(c)
  {
    match c
    case Raw(b) => [b]
    case Short(e) => [EscapeTable(e)]
    case Unit(h) => CodePointToUtf8(UnitValue(h))
  }

  lemma HexOfUnit(h: Bytes, more: Bytes)
    requires IsHex(h)
    ensures DecodeFour(h + more) == CodePoint(UnitValue(h), 4)
  {
    var c := h + more;
    assert c[0] == h[0] && c[1] == h[1] && c[2] == h[2] && c[3] == h[3];
    TablesAgree(h[0]);
    TablesAgree(h[1]);
    TablesAgree(h[2]);
    TablesAgree(h[3]);
    assert HexValues(c, 0) == 0;
    assert HexValues(c, 1) == HexValue(h[0]);
    assert HexValues(c, 2) == HexValue(h[0]) * 16 + HexValue(h[1]);
    assert HexValues(c, 3) == (HexValue(h[0]) * 16 + HexValue(h[1])) * 16 + HexValue(h[2]);
  }

  lemma UnitAlone(h: Bytes, more: Bytes)
    requires IsHex(h) && !(0xD800 <= UnitValue(h) <= 0xDBFF)
    ensures DecodeUnicode(h + more) == CodePoint(UnitValue(h), 4)
  {
    hide DecodeFour;
    HexOfUnit(h, more);
  }

  lemma UnitPair(h: Bytes, g: Bytes, more: Bytes)
    requires IsHex(h) && IsHex(g) && 0xD800 <= UnitValue(h) <= 0xDBFF
    ensures DecodeUnicode(h + ([BACKSLASH, LOWER_U] + g + more)) == CodePoint(PairValue(UnitValue(h), UnitValue(g)), 10)
  {
    hide DecodeFour, UnitValue;
    var rest := [BACKSLASH, LOWER_U] + g + more;
    var c := h + rest;
    HexOfUnit(h, rest);
    HexOfUnit(g, more);
    assert c[4] == BACKSLASH && c[5] == LOWER_U;
    assert c[6..] == g + more;
    HighBits(UnitValue(h));
  }

  lemma HighBits(hi: nat)
    requires 0xD800 <= hi <= 0xDBFF
    ensures hi % 1024 == hi - 0xD800
  {
  }

  /** A high surrogate followed by nothing, or by a character that is no \u escape. */
  lemma UnitBroken(h: Bytes, rest: Bytes)
    requires IsHex(h) && 0xD800 <= UnitValue(h) <= 0xDBFF
    requires |rest| < 2 || rest[0] != BACKSLASH || rest[1] != LOWER_U
    ensures DecodeUnicode(h + rest).BadUnicode?
  {
    hide DecodeFour, UnitValue;
    var c := h + rest;
    HexOfUnit(h, rest);
    assert |rest| >= 2 ==> c[4] == rest[0] && c[5] == rest[1];
  }

  lemma CharsTail(cs: seq<Char>)
    requires cs != [] && AreChars(cs)
    ensures IsChar(cs[0]) && AreChars(cs[1..]) && (|cs| >= 2 ==> AreChars(cs[2..]))
  {
  }

  /** Decoding succeeds exactly when surrogates are paired, and gives what the string denotes. */
  lemma {:induction false} StringDecodes(cs: seq<Char>)
    requires AreChars(cs)
    ensures if Paired(cs) then DecodeContent(CharsText(cs)) == Decoded(Denoted(cs), [])
            else DecodeContent(CharsText(cs)).Undecodable?
    decreases |cs|
  {
    hide DecodeContent, CodePointToUtf8, UnitValue, DecodeUnicode, IsHex;
    if cs == [] {
      DecodeEmpty();
    } else {
      CharsTail(cs);
      var rest := CharsText(cs[1..]);
      StringDecodes(cs[1..]);
      match cs[0]
      case Raw(b) => RawDecodes(b, rest);
      case Short(e) => ShortDecodes(e, rest);
      case Unit(h) =>
        if !IsHigh(cs[0]) {
          UnitDecodes(h, rest);
        } else {
          SurrogateDecodes(cs);
        }
    }
  }

  lemma RawDecodes(b: byte, rest: Bytes)
    requires IsChar(Raw(b))
    ensures DecodeContent(CharText(Raw(b)) + rest) == DecodeContent(rest).Prepend([b])
  {
    hide DecodeContent;
    var c := [b] + rest;
    DecodeNoEscape(c);
    assert c[1..] == rest;
  }

  lemma ShortDecodes(e: byte, rest: Bytes)
    requires IsChar(Short(e))
    ensures DecodeContent(CharText(Short(e)) + rest) == DecodeContent(rest).Prepend([EscapeTable(e)])
  {
    hide DecodeContent;
    TablesAgree(e);
    var c := [BACKSLASH, e] + rest;
    DecodeEscape(c);
    assert c[2..] == rest;
  }

  lemma UnitDecodes(h: Bytes, rest: Bytes)
    requires IsChar(Unit(h)) && !IsHigh(Unit(h))
    ensures DecodeContent(CharText(Unit(h)) + rest) == DecodeContent(rest).Prepend(CodePointToUtf8(UnitValue(h)))
  {
    hide DecodeContent, CodePointToUtf8, UnitValue, DecodeUnicode;
    var c := [BACKSLASH, LOWER_U] + h + rest;
    assert c[2..] == h + rest && c[6..] == rest;
    UnitAlone(h, rest);
    DecodeLongEscape(c);
  }

  lemma PairDecodes(h: Bytes, g: Bytes, more: Bytes)
    requires IsChar(Unit(h)) && IsHigh(Unit(h)) && IsChar(Unit(g))
    ensures DecodeContent(CharText(Unit(h)) + (CharText(Unit(g)) + more)) ==
            DecodeContent(more).Prepend(CodePointToUtf8(PairValue(UnitValue(h), UnitValue(g))))
  {
    hide DecodeContent, CodePointToUtf8, UnitValue, DecodeUnicode;
    var rest := [BACKSLASH, LOWER_U] + g + more;
    var c := [BACKSLASH, LOWER_U] + h + rest;
    assert c[2..] == h + rest && c[12..] == more;
    UnitPair(h, g, more);
    DecodeLongEscape(c);
  }

  lemma LoneDecodes(h: Bytes, rest: Bytes)
    requires IsChar(Unit(h)) && IsHigh(Unit(h))
    requires |rest| < 2 || rest[0] != BACKSLASH || rest[1] != LOWER_U
    ensures DecodeContent(CharText(Unit(h)) + rest).Undecodable?
  {
    hide DecodeContent, UnitValue, DecodeUnicode;
    var c := [BACKSLASH, LOWER_U] + h + rest;
    assert c[2..] == h + rest;
    UnitBroken(h, rest);
    DecodeLongEscape(c);
  }

  lemma {:induction false} SurrogateDecodes(cs: seq<Char>)
    requires AreChars(cs) && cs != [] && IsHigh(cs[0])
    ensures if Paired(cs) then DecodeContent(CharsText(cs)) == Decoded(Denoted(cs), [])
            else DecodeContent(CharsText(cs)).Undecodable?
    decreases |cs|, 0
  {
    hide DecodeContent, CodePointToUtf8, UnitValue, CharText;
    CharsTail(cs);
    if |cs| >= 2 && cs[1].Unit? {
      assert cs[1..][0] == cs[1] && cs[1..][1..] == cs[2..];
      assert IsChar(cs[1]);
      PairDecodes(cs[0].hex, cs[1].hex, CharsText(cs[2..]));
      StringDecodes(cs[2..]);
    } else {
      NotUnit(cs[1..]);
      LoneDecodes(cs[0].hex, CharsText(cs[1..]));
    }
  }

  lemma NotUnit(cs: seq<Char>)
    requires AreChars(cs) && (cs == [] || !cs[0].Unit?)
    ensures var t := CharsText(cs); |t| < 2 || t[0] != BACKSLASH || t[1] != LOWER_U
  {
    if cs != [] {
      assert IsChar(cs[0]);
    }
  }

  // ---------------------------------------------------------------- scanning strings

  function StringText(cs: seq<Char>): Bytes {
    [QUOTE] + CharsText(cs) + [QUOTE]
  }

  lemma {:induction false} ScanChars(t: Bytes, i: nat, cs: seq<Char>)
    requires AreChars(cs) && i <= |t| && CharsText(cs) <= t[i..]
    ensures ScanString(t, i) == ScanString(t, i + |CharsText(cs)|)
    decreases |cs|
  {
    hide IsHex, ScanString, CharText;
    if cs != [] {
      CharsTail(cs);
      PrefixSplit(CharText(cs[0]), CharsText(cs[1..]), t, i);
      ScanChar(t, i, cs[0]);
      ScanChars(t, i + |CharText(cs[0])|, cs[1..]);
    }
  }

  lemma ScanChar(t: Bytes, i: nat, c: Char)
    requires IsChar(c) && i <= |t| && CharText(c) <= t[i..]
    ensures ScanString(t, i) == ScanString(t, i + |CharText(c)|)
  {
    var x := CharText(c);
    assert forall k | 0 <= k < |x| :: x[k] == t[i..][k];
    assert t[i] == x[0];
    if c.Unit? {
      assert t[i + 2] == x[2] && t[i + 3] == x[3] && t[i + 4] == x[4] && t[i + 5] == x[5];
      HexIsInert(c.hex);
      ScanInert(t, i + 2, 4);
    }
  }

  lemma HexIsInert(h: Bytes)
    requires IsHex(h)
    ensures Inert(h[0]) && Inert(h[1]) && Inert(h[2]) && Inert(h[3])
  {
  }

  lemma LexString(cs: seq<Char>, post: Bytes)
    requires AreChars(cs)
    ensures Lex(StringText(cs) + post) == [Lexeme(StringToken, StringText(cs))] + Lex(post)
  {
    hide CharsText, ScanString;
    var x := StringText(cs);
    var t := x + post;
    var n := |CharsText(cs)|;
    assert t[1..][..n] == CharsText(cs);
    ScanChars(t, 1, cs);
    assert t[1 + n] == QUOTE;
    QuoteEnds(t, 1 + n);
    LexFront(x, StringToken, post);
  }

  lemma QuoteEnds(t: Bytes, i: nat)
    requires i < |t| && t[i] == QUOTE
    ensures ScanString(t, i) == Scan(true, i + 1)
  {
  }

  lemma ClosedString(cs: seq<Char>)
    requires AreChars(cs)
    ensures RendersClosed(StringText(cs), [Lexeme(StringToken, StringText(cs))])
  {
    hide Lex, StringText;
    forall post ensures Lex(StringText(cs) + post) == [Lexeme(StringToken, StringText(cs))] + Lex(post) {
      LexString(cs, post);
    }
  }

  lemma StringMeans(cfg: Config, cs: seq<Char>)
    requires AreChars(cs)
    ensures var l := Lexeme(StringToken, StringText(cs));
            && ScalarOf(cfg, Bare(l)).Denotes? == NameOf(cfg, Bare(l)).Name? == Paired(cs)
            && (Paired(cs) ==>
                  ScalarOf(cfg, Bare(l)) == Denotes(Str(Denoted(cs))) && NameOf(cfg, Bare(l)) == Name(Denoted(cs)))
  {
    hide CharsText, DecodeContent, Denoted, Paired;
    StringDecodes(cs);
    var x := StringText(cs);
    assert x[1..|x| - 1] == CharsText(cs);
  }

  // ---------------------------------------------------------------- numbers (section 6 of RFC 8259)

  datatype Number = Number(minus: bool, digits: Bytes, fraction: Bytes, exponent: Bytes)

  predicate SomeDigits(d: Bytes) {
    d != [] && AllDigits(d)
  }

  predicate IsFraction(x: Bytes) {
    x == [] || (x[0] == DOT && SomeDigits(x[1..]))
  }

  predicate IsSign(c: byte) {
    c == PLUS || c == MINUS
  }

  predicate IsExponent(x: Bytes) {
    x == [] || ((x[0] == LOWER_E || x[0] == UPPER_E) &&
                (SomeDigits(x[1..]) || (|x| > 1 && IsSign(x[1]) && SomeDigits(x[2..]))))
  }

  predicate IsNumber(n: Number) {
    && SomeDigits(n.digits) && (|n.digits| > 1 ==> n.digits[0] != ZERO)
    && IsFraction(n.fraction) && IsExponent(n.exponent)
  }

  function NumberText(n: Number): Bytes {
    (if n.minus then [MINUS] else []) + n.digits + (n.fraction + n.exponent)
  }

  /** Digits at `i`, followed by something that is no digit. */
  lemma SkipDigitsAt(t: Bytes, i: nat, d: Bytes)
    requires i <= |t| && d <= t[i..] && AllDigits(d) && (i + |d| < |t| ==> !IsDigit(t[i + |d|]))
    ensures SkipDigits(t, i) == i + |d|
  {
    assert forall k | 0 <= k < |d| :: d[k] == t[i..][k];
    forall m | i <= m < i + |d| ensures IsDigit(t[m]) {
      assert t[m] == d[m - i];
    }
    DigitsAreSkipped(t, i, i + |d|);
  }

  lemma SkipFractionAt(t: Bytes, i: nat, x: Bytes)
    requires i <= |t| && x <= t[i..] && IsFraction(x)
    requires i + |x| < |t| ==> !IsDigit(t[i + |x|]) && t[i + |x|] != DOT
    ensures SkipFraction(t, i) == i + |x|
  {
    if x != [] {
      assert x == [x[0]] + x[1..];
      PrefixSplit([x[0]], x[1..], t, i);
      assert t[i] == t[i..][0] == x[0];
      SkipDigitsAt(t, i + 1, x[1..]);
    }
  }

  lemma SkipExponentAt(t: Bytes, i: nat, x: Bytes)
    requires i <= |t| && x <= t[i..] && IsExponent(x)
    requires i + |x| < |t| ==> !IsNumberChar(t[i + |x|])
    ensures SkipExponent(t, i) == i + |x|
  {
    if x != [] {
      assert x == [x[0]] + x[1..];
      PrefixSplit([x[0]], x[1..], t, i);
      assert t[i] == t[i..][0] == x[0];
      assert t[i + 1] == t[i + 1..][0] == x[1];
      if SomeDigits(x[1..]) {
        assert IsDigit(x[1..][0]);
        SkipDigitsAt(t, i + 1, x[1..]);
      } else {
        assert x[1..] == [x[1]] + x[2..];
        PrefixSplit([x[1]], x[2..], t, i + 1);
        SkipDigitsAt(t, i + 2, x[2..]);
      }
    }
  }

  /** What stands where an exponent may start is neither a digit nor a dot. */
  lemma BeforeExponent(t: Bytes, i: nat, e: Bytes)
    requires i <= |t| && e <= t[i..] && IsExponent(e) && (i + |e| < |t| ==> !IsNumberChar(t[i + |e|]))
    ensures i < |t| ==> !IsDigit(t[i]) && t[i] != DOT
  {
    StartOf(e, t, i);
  }

  lemma BeforeFraction(t: Bytes, i: nat, f: Bytes)
    requires i <= |t| && f <= t[i..] && IsFraction(f) && (i + |f| < |t| ==> !IsDigit(t[i + |f|]))
    ensures i < |t| ==> !IsDigit(t[i])
  {
    StartOf(f, t, i);
  }

  lemma ScanNumberAt(t: Bytes, i: nat, d: Bytes, f: Bytes, e: Bytes)
    requires i <= |t| && d + (f + e) <= t[i..] && AllDigits(d) && IsFraction(f) && IsExponent(e)
    requires i + |d| + |f| + |e| < |t| ==> !IsNumberChar(t[i + |d| + |f| + |e|])
    ensures ScanNumber(t, i) == i + |d| + |f| + |e|
  {
    hide SkipDigits, SkipFraction, SkipExponent, IsFraction, IsExponent, AllDigits;
    PrefixSplit(d, f + e, t, i);
    var j := i + |d|;
    PrefixSplit(f, e, t, j);
    var k := j + |f|;
    BeforeExponent(t, k, e);
    BeforeFraction(t, j, f);
    SkipExponentAt(t, k, e);
    SkipFractionAt(t, j, f);
    SkipDigitsAt(t, i, d);
  }

  lemma StartOf(x: Bytes, t: Bytes, i: nat)
    requires i <= |t| && x <= t[i..]
    ensures x != [] ==> i < |t| && t[i] == x[0]
  {
    if x != [] {
      assert t[i..][0] == x[0];
    }
  }

  lemma LexNumber(n: Number, post: Bytes)
    requires IsNumber(n) && EndsNumber(post)
    ensures Lex(NumberText(n) + post) == [Lexeme(NumberToken, NumberText(n))] + Lex(post)
  {
    hide Lex, SkipDigits, IsExponent, IsFraction;
    var x := NumberText(n);
    var t := x + post;
    assert |x| < |t| ==> t[|x|] == post[0];
    assert IsDigit(n.digits[0]);
    var d := if n.minus then n.digits else n.digits[1..];
    assert x[1..] == d + (n.fraction + n.exponent);
    assert t[1..] == x[1..] + post;
    ScanNumberAt(t, 1, d, n.fraction, n.exponent);
    assert t[0] == x[0];
    LexFront(x, NumberToken, post);
  }

  /** The scalar that a number denotes: an exact integer if it is one and fits, else a double if there is one. */
  function NumberValue(cfg: Config, n: Number): Option<Scalar>
    requires IsNumber(n)
  {
    var v := NatOf(n.digits);
    if n.fraction == [] && n.exponent == [] && n.minus && v <= 0x8000_0000_0000_0000 then Some(Int(-(v as int)))
    else if n.fraction == [] && n.exponent == [] && !n.minus && v <= 0x7FFF_FFFF then Some(Int(v))
    else if n.fraction == [] && n.exponent == [] && !n.minus && v <= 0xFFFF_FFFF_FFFF_FFFF then Some(UInt(v))
    else
      match cfg.parseDouble(NumberText(n))
      case None => None
      case Some(bits) => Some(Real(bits))
  }

  lemma IntegerForm(n: Number)
    requires IsNumber(n)
    ensures NumberText(n) != [] && (NumberText(n)[0] == MINUS <==> n.minus)
    ensures Magnitude(NumberText(n)) == n.digits + (n.fraction + n.exponent)
    ensures AllDigits(Magnitude(NumberText(n))) <==> n.fraction == [] && n.exponent == []
  {
    hide IsExponent, IsFraction, AllDigits;
    assert IsDigit(n.digits[0]) by {
      FirstDigit(n.digits);
    }
    var rest := n.fraction + n.exponent;
    assert n.minus ==> NumberText(n)[1..] == n.digits + rest;
    assert !n.minus ==> NumberText(n) == n.digits + rest;
    PartsAreNoDigits(n);
    DigitsOnlyIff(n.digits, rest);
  }

  lemma FirstDigit(d: Bytes)
    requires SomeDigits(d)
    ensures IsDigit(d[0])
  {
  }

  lemma PartsAreNoDigits(n: Number)
    requires IsNumber(n)
    ensures var rest := n.fraction + n.exponent; rest != [] ==> !IsDigit(rest[0])
  {
    var rest := n.fraction + n.exponent;
    if n.fraction == [] {
      assert rest == n.exponent;
    } else {
      assert rest[0] == n.fraction[0];
    }
  }

  lemma DigitsOnlyIff(d: Bytes, rest: Bytes)
    requires AllDigits(d) && (rest != [] ==> !IsDigit(rest[0]))
    ensures AllDigits(d + rest) <==> rest == []
  {
    if rest != [] {
      assert (d + rest)[|d|] == rest[0];
    } else {
      assert d + rest == d;
    }
  }

  lemma NumberMeans(cfg: Config, n: Number)
    requires IsNumber(n)
    ensures DecodeScalar(cfg, NumberText(n)) == NumberValue(cfg, n)
  {
    hide NumberText, NatOf, IsExponent, IsFraction;
    IntegerForm(n);
    if n.fraction == [] && n.exponent == [] {
      assert n.digits + (n.fraction + n.exponent) == n.digits;
    }
  }

  // ---------------------------------------------------------------- texts (sections 2 to 5 of RFC 8259)

  /** An element with the white space around it. */
  datatype Item<V> = Item(before: Bytes, val: V, after: Bytes)

  /** A member: white space, name, white space, colon, white space, value, white space. */
  datatype Pair<V> = Pair(before: Bytes, name: seq<Char>, mid: Bytes, lead: Bytes, val: V, after: Bytes)

  /** A JSON text as it is written; `blank` is white space after the opening bracket. */
  datatype Json =
    | JNull
    | JTrue
    | JFalse
    | JNumber(n: Number)
    | JString(cs: seq<Char>)
    | JArray(blank: Bytes, items: seq<Item<Json>>)
    | JObject(blank: Bytes, members: seq<Pair<Json>>)

  predicate WellFormed(j: Json) {
    match j
    case JNull => true
    case JTrue => true
    case JFalse => true
    case JNumber(n) => IsNumber(n)
    case JString(cs) => AreChars(cs)
    case JArray(blank, items) =>
      AllSpaces(blank) && forall x | x in items :: AllSpaces(x.before) && WellFormed(x.val) && AllSpaces(x.after)
    case JObject(blank, members) =>
      AllSpaces(blank) && forall x | x in members ::
        AllSpaces(x.before) && AreChars(x.name) && AllSpaces(x.mid) && AllSpaces(x.lead)
            && WellFormed(x.val) && AllSpaces(x.after)
  }

  function Source(j: Json): Bytes
    decreases j
  {
    match j
    case JNull => NULL_TEXT
    case JTrue => TRUE_TEXT
    case JFalse => FALSE_TEXT
    case JNumber(n) => NumberText(n)
    case JString(cs) => StringText(cs)
    case JArray(blank, items) => [LBRACKET] + blank + ItemsText(items, 0) + [RBRACKET]
    case JObject(blank, members) => [LBRACE] + blank + PairsText(members, 0) + [RBRACE]
  }

  function ItemsText(items: seq<Item<Json>>, i: nat): Bytes
    requires i <= |items|
    decreases items, |items| - i
  {
    if i == |items| then []
    else CommaText(i) + items[i].before + Source(items[i].val) + items[i].after + ItemsText(items, i + 1)
  }

  /** Up to the value of a member. */
  function NameText(x: Pair<Json>): Bytes {
    x.before + StringText(x.name) + x.mid + [COLON] + x.lead
  }

  function PairsText(members: seq<Pair<Json>>, i: nat): Bytes
    requires i <= |members|
    decreases members, |members| - i
  {
    if i == |members| then []
    else CommaText(i) + NameText(members[i]) + Source(members[i].val) + members[i].after + PairsText(members, i + 1)
  }

  /** A text with white space around it. */
  function Document(before: Bytes, j: Json, after: Bytes): Bytes {
    before + Source(j) + after
  }

  function Tree(j: Json): Syntax {
    match j
    case JNull => Atom(Lexeme(NullToken, NULL_TEXT))
    case JTrue => Atom(Lexeme(TrueToken, TRUE_TEXT))
    case JFalse => Atom(Lexeme(FalseToken, FALSE_TEXT))
    case JNumber(n) => Atom(Lexeme(NumberToken, NumberText(n)))
    case JString(cs) => Atom(Lexeme(StringToken, StringText(cs)))
    case JArray(_, items) => List(seq(|items|, i requires 0 <= i < |items| => Tree(items[i].val)))
    case JObject(_, members) =>
      Record(seq(|members|, i requires 0 <= i < |members| => Field(StringText(members[i].name), Tree(members[i].val))))
  }

  function Trees(items: seq<Item<Json>>): (r: seq<Syntax>)
    ensures |r| == |items| && forall i | 0 <= i < |items| :: r[i] == Tree(items[i].val)
  {
    seq(|items|, i requires 0 <= i < |items| => Tree(items[i].val))
  }

  function TreePairs(members: seq<Pair<Json>>): (r: seq<Field<Syntax>>)
    ensures |r| == |members|
    ensures forall i | 0 <= i < |members| :: r[i] == Field(StringText(members[i].name), Tree(members[i].val))
  {
    seq(|members|, i requires 0 <= i < |members| => Field(StringText(members[i].name), Tree(members[i].val)))
  }

  lemma TreeArray(blank: Bytes, items: seq<Item<Json>>)
    ensures Tree(JArray(blank, items)) == List(Trees(items))
  {
  }

  lemma TreeObject(blank: Bytes, members: seq<Pair<Json>>)
    ensures Tree(JObject(blank, members)) == Record(TreePairs(members))
  {
    hide StringText;
    var a := seq(|members|, i requires 0 <= i < |members| => Field(StringText(members[i].name), Tree(members[i].val)));
    assert a == TreePairs(members);
  }

  // ---------------------------------------------------------------- texts are lexed into their trees

  lemma {:induction false} SourceRenders(j: Json)
    requires WellFormed(j)
    ensures Renders(Source(j), Spelling(Tree(j)))
    decreases j, 1
  {
    hide Lex, Renders, RendersClosed, Spelling, Tree, ItemsText, PairsText, NumberText, StringText;
    match j
    case JArray(blank, items) =>
      ItemsRender(items, 0);
      TreeArray(blank, items);
      SpellingOfList(Trees(items));
      Bracketed(LBRACKET, blank, ItemsText(items, 0) + [RBRACKET], SpellElems(Trees(items), 0) + [Mark(RBRACKET)]);
      assert Source(j) == [LBRACKET] + blank + (ItemsText(items, 0) + [RBRACKET]) by {
        Reassociate([LBRACKET] + blank, ItemsText(items, 0), [RBRACKET]);
      }
    case JObject(blank, members) =>
      PairsRender(members, 0);
      TreeObject(blank, members);
      SpellingOfRecord(TreePairs(members));
      Bracketed(LBRACE, blank, PairsText(members, 0) + [RBRACE], SpellFields(TreePairs(members), 0) + [Mark(RBRACE)]);
      assert Source(j) == [LBRACE] + blank + (PairsText(members, 0) + [RBRACE]) by {
        Reassociate([LBRACE] + blank, PairsText(members, 0), [RBRACE]);
      }
    case _ => AtomRenders(j);
  }

  lemma AtomRenders(j: Json)
    requires WellFormed(j) && !j.JArray? && !j.JObject?
    ensures Renders(Source(j), Spelling(Tree(j)))
  {
    hide Lex, NumberText, StringText;
    var l := Tree(j).lexeme;
    forall post | EndsNumber(post) ensures Lex(Source(j) + post) == [l] + Lex(post) {
      match j
      case JNull => LexWord(LOWER_N, NULL_TAIL, NullToken, post);
      case JTrue => LexWord(LOWER_T, TRUE_TAIL, TrueToken, post);
      case JFalse => LexWord(LOWER_F, FALSE_TAIL, FalseToken, post);
      case JNumber(n) => LexNumber(n, post);
      case JString(cs) => LexString(cs, post);
    }
  }

  lemma SpellingOfList(es: seq<Syntax>)
    ensures Spelling(List(es)) == [Mark(LBRACKET)] + (SpellElems(es, 0) + [Mark(RBRACKET)])
  {
    hide SpellElems;
    Reassociate([Mark(LBRACKET)], SpellElems(es, 0), [Mark(RBRACKET)]);
  }

  lemma SpellingOfRecord(fs: seq<Field<Syntax>>)
    ensures Spelling(Record(fs)) == [Mark(LBRACE)] + (SpellFields(fs, 0) + [Mark(RBRACE)])
  {
    hide SpellFields;
    Reassociate([Mark(LBRACE)], SpellFields(fs, 0), [Mark(RBRACE)]);
  }

  lemma Bracketed(open: byte, blank: Bytes, body: Bytes, ls: seq<Lexeme>)
    requires (open == LBRACKET || open == LBRACE) && AllSpaces(blank) && RendersClosed(body, ls)
    ensures Renders([open] + blank + body, [Mark(open)] + ls)
  {
    hide Lex, Renders, RendersClosed, AllSpaces;
    ClosedMark(open);
    ClosedSpaces(blank);
    ClosedConcat([open], [Mark(open)], blank, []);
    ClosedConcat([open] + blank, [Mark(open)] + [], body, ls);
    assert [Mark(open)] + [] == [Mark(open)];
    ClosedIsRendered([open] + blank + body, [Mark(open)] + ls);
  }

  /** White space, a separator or a bracket after a value do not extend a number. */
  lemma SpacesEndNumber(w: Bytes, rest: Bytes)
    requires AllSpaces(w) && EndsNumber(rest)
    ensures EndsNumber(w + rest)
  {
    if w == [] {
      assert w + rest == rest;
    } else {
      assert (w + rest)[0] == w[0];
    }
  }

  /** separator and white space, value, white space, rest */
  lemma Spaced(head: Bytes, hl: seq<Lexeme>, val: Bytes, vl: seq<Lexeme>, after: Bytes, rest: Bytes, rl: seq<Lexeme>)
    requires RendersClosed(head, hl) && Renders(val, vl) && AllSpaces(after) && RendersClosed(rest, rl)
    requires rest != [] && EndsNumber(rest)
    ensures RendersClosed(head + val + after + rest, hl + vl + rl)
  {
    hide Lex, Renders, RendersClosed, AllSpaces, EndsNumber;
    ClosedSpaces(after);
    ClosedConcat(after, [], rest, rl);
    assert [] + rl == rl;
    SpacesEndNumber(after, rest);
    ElementPiece(head, hl, val, vl, after + rest, rl);
    Reassociate(head + val, after, rest);
  }

  lemma {:induction false} ItemsRender(items: seq<Item<Json>>, i: nat)
    requires i <= |items|
    requires forall x | x in items :: AllSpaces(x.before) && WellFormed(x.val) && AllSpaces(x.after)
    ensures RendersClosed(ItemsText(items, i) + [RBRACKET], SpellElems(Trees(items), i) + [Mark(RBRACKET)])
    ensures EndsNumber(ItemsText(items, i) + [RBRACKET]) || i == 0
    decreases items, |items| - i
  {
    hide Lex, Renders, RendersClosed, Source, Spelling, WellFormed, Tree, AllSpaces;
    if i == |items| {
      ClosedMark(RBRACKET);
      assert [] + [RBRACKET] == [RBRACKET] && [] + [Mark(RBRACKET)] == [Mark(RBRACKET)];
    } else {
      var x := items[i];
      assert x in items;
      ItemsRender(items, i + 1);
      SourceRenders(x.val);
      SeparatorAndBlank(i, x.before);
      var rest, rl := ItemsText(items, i + 1), SpellElems(Trees(items), i + 1);
      var head, val := CommaText(i) + x.before, Source(x.val);
      Spaced(head, Separator(i), val, Spelling(Tree(x.val)), x.after, rest + [RBRACKET], rl + [Mark(RBRACKET)]);
      Reassociate(head + val + x.after, rest, [RBRACKET]);
      Reassociate(Separator(i) + Spelling(Tree(x.val)), rl, [Mark(RBRACKET)]);
    }
  }

  lemma SeparatorAndBlank(i: nat, before: Bytes)
    requires AllSpaces(before)
    ensures RendersClosed(CommaText(i) + before, Separator(i))
  {
    hide Lex, RendersClosed, AllSpaces;
    CommaIsClosed(i);
    ClosedSpaces(before);
    ClosedConcat(CommaText(i), Separator(i), before, []);
    assert Separator(i) + [] == Separator(i);
  }

  lemma NameIsClosed(x: Pair<Json>)
    requires AllSpaces(x.before) && AreChars(x.name) && AllSpaces(x.mid) && AllSpaces(x.lead)
    ensures RendersClosed(NameText(x), [Lexeme(StringToken, StringText(x.name)), Mark(COLON)])
  {
    hide Lex, RendersClosed, AllSpaces, StringText;
    var l := Lexeme(StringToken, StringText(x.name));
    ClosedSpaces(x.before);
    ClosedString(x.name);
    ClosedSpaces(x.mid);
    ClosedMark(COLON);
    ClosedSpaces(x.lead);
    ClosedConcat(x.before, [], StringText(x.name), [l]);
    ClosedConcat(x.before + StringText(x.name), [] + [l], x.mid, []);
    ClosedConcat(x.before + StringText(x.name) + x.mid, [] + [l] + [], [COLON], [Mark(COLON)]);
    ClosedConcat(x.before + StringText(x.name) + x.mid + [COLON], [] + [l] + [] + [Mark(COLON)], x.lead, []);
    assert [] + [l] + [] + [Mark(COLON)] + [] == [l, Mark(COLON)];
  }

  lemma {:induction false} PairsRender(members: seq<Pair<Json>>, i: nat)
    requires i <= |members|
    requires forall x | x in members ::
               AllSpaces(x.before) && AreChars(x.name) && AllSpaces(x.mid) && AllSpaces(x.lead)
                   && WellFormed(x.val) && AllSpaces(x.after)
    ensures RendersClosed(PairsText(members, i) + [RBRACE], SpellFields(TreePairs(members), i) + [Mark(RBRACE)])
    ensures EndsNumber(PairsText(members, i) + [RBRACE]) || i == 0
    decreases members, |members| - i
  {
    hide Lex, Renders, RendersClosed, Source, Spelling, WellFormed, Tree, AllSpaces, NameText, StringText, AreChars;
    if i == |members| {
      ClosedMark(RBRACE);
      assert [] + [RBRACE] == [RBRACE] && [] + [Mark(RBRACE)] == [Mark(RBRACE)];
    } else {
      var x := members[i];
      assert x in members;
      PairsRender(members, i + 1);
      SourceRenders(x.val);
      CommaIsClosed(i);
      NameIsClosed(x);
      var name := [Lexeme(StringToken, StringText(x.name)), Mark(COLON)];
      ClosedConcat(CommaText(i), Separator(i), NameText(x), name);
      var rest, rl := PairsText(members, i + 1), SpellFields(TreePairs(members), i + 1);
      var head, hl, val := CommaText(i) + NameText(x), Separator(i) + name, Source(x.val);
      Spaced(head, hl, val, Spelling(Tree(x.val)), x.after, rest + [RBRACE], rl + [Mark(RBRACE)]);
      Reassociate(head + val + x.after, rest, [RBRACE]);
      Reassociate(hl + Spelling(Tree(x.val)), rl, [Mark(RBRACE)]);
    }
  }

  lemma DocumentLexes(before: Bytes, j: Json, after: Bytes)
    requires WellFormed(j) && AllSpaces(before) && AllSpaces(after)
    ensures Lex(Document(before, j, after)) == Spelling(Tree(j))
  {
    hide Lex, Source, Tree, Spelling, WellFormed;
    SourceRenders(j);
    Reassociate(before, Source(j), after);
    LexSpaces(before, Source(j) + after);
    SpacesEndNumber(after, []);
    assert after + [] == after;
    LexEnd(after);
    assert Spelling(Tree(j)) + [] == Spelling(Tree(j));
  }

  // ---------------------------------------------------------------- what texts denote

  /** Every number denotes a scalar, and surrogates are paired in every string and name. */
  predicate Acceptable(cfg: Config, j: Json)
    requires WellFormed(j)
  {
    match j
    case JNumber(n) => NumberValue(cfg, n).Some?
    case JString(cs) => Paired(cs)
    case JArray(_, items) => forall x | x in items :: Acceptable(cfg, x.val)
    case JObject(_, members) => forall x | x in members :: Paired(x.name) && Acceptable(cfg, x.val)
    case _ => true
  }

  /** The value of a text; of members with the same name the last one counts. */
  function Denotation(cfg: Config, j: Json): Value
    requires WellFormed(j) && Acceptable(cfg, j)
  {
    match j
    case JNull => Leaf(Null)
    case JTrue => Leaf(Bool(true))
    case JFalse => Leaf(Bool(false))
    case JNumber(n) => Leaf(NumberValue(cfg, n).value)
    case JString(cs) => Leaf(Str(Denoted(cs)))
    case JArray(_, items) => Arr(seq(|items|, i requires 0 <= i < |items| => Denotation(cfg, items[i].val)))
    case JObject(_, members) =>
      Obj(PutAll([], seq(|members|, i requires 0 <= i < |members| =>
        Entry(Denoted(members[i].name), Denotation(cfg, members[i].val)))))
  }

  function Nesting(j: Json): (d: nat)
    ensures d >= 1
    decreases j
  {
    match j
    case JArray(_, items) => 1 + ItemsNesting(items, 0)
    case JObject(_, members) => 1 + PairsNesting(members, 0)
    case _ => 1
  }

  function ItemsNesting(items: seq<Item<Json>>, i: nat): nat
    requires i <= |items|
    decreases items, |items| - i
  {
    if i == |items| then 0 else Max(Nesting(items[i].val), ItemsNesting(items, i + 1))
  }

  function PairsNesting(members: seq<Pair<Json>>, i: nat): nat
    requires i <= |members|
    decreases members, |members| - i
  {
    if i == |members| then 0 else Max(Nesting(members[i].val), PairsNesting(members, i + 1))
  }

  /** The tree of a text is readable exactly when the text is acceptable, and then means what it denotes. */
  ghost predicate Agrees(cfg: Config, j: Json) {
    && WellFormed(j)
    && Proper(Tree(j)) && Height(Tree(j)) == Nesting(j)
    && (Readable(cfg, Tree(j)) <==> Acceptable(cfg, j))
    && (Acceptable(cfg, j) ==> Meaning(cfg, Tree(j)) == Denotation(cfg, j))
  }

  lemma {:induction false} TreeAgrees(cfg: Config, j: Json)
    requires WellFormed(j)
    ensures Agrees(cfg, j)
    decreases j
  {
    match j
    case JArray(blank, items) =>
      forall x | x in items ensures Agrees(cfg, x.val) {
        TreeAgrees(cfg, x.val);
      }
      ArrayAgrees(cfg, blank, items);
    case JObject(blank, members) =>
      forall x | x in members ensures Agrees(cfg, x.val) {
        TreeAgrees(cfg, x.val);
      }
      ObjectAgrees(cfg, blank, members);
    case _ => AtomAgrees(cfg, j);
  }

  lemma AtomAgrees(cfg: Config, j: Json)
    requires WellFormed(j) && !j.JArray? && !j.JObject?
    ensures Agrees(cfg, j)
  {
    hide NumberText, StringText, NumberValue, Denoted, DecodeScalar, DecodeLiteral, Paired, AreChars, IsNumber;
    match j
    case JNumber(n) => NumberMeans(cfg, n);
    case JString(cs) => StringMeans(cfg, cs);
    case _ =>
  }

  lemma {:induction false} ItemsAgree(cfg: Config, items: seq<Item<Json>>, i: nat)
    requires i <= |items| && forall x | x in items :: Agrees(cfg, x.val)
    ensures ElemsHeight(Trees(items), i) == ItemsNesting(items, i)
    ensures forall k | 0 <= k < |items| :: WellFormed(items[k].val)
    ensures ReadableElems(cfg, Trees(items), i) <==> forall k | i <= k < |items| :: Acceptable(cfg, items[k].val)
    decreases |items| - i
  {
    hide WellFormed, Acceptable, Denotation, Tree, Readable, Meaning, Height, Nesting, Proper;
    forall k | 0 <= k < |items| ensures WellFormed(items[k].val) {
      assert items[k] in items;
    }
    if i < |items| {
      assert items[i] in items;
      ItemsAgree(cfg, items, i + 1);
    }
  }

  lemma ArrayAgrees(cfg: Config, blank: Bytes, items: seq<Item<Json>>)
    requires WellFormed(JArray(blank, items)) && forall x | x in items :: Agrees(cfg, x.val)
    ensures Agrees(cfg, JArray(blank, items))
  {
    hide Tree, Meaning, Denotation, ElemsHeight, ItemsNesting, ReadableElems;
    var j := JArray(blank, items);
    TreeArray(blank, items);
    ItemsAgree(cfg, items, 0);
    MeaningList(cfg, Trees(items));
    assert Proper(List(Trees(items)));
    AcceptableArray(cfg, blank, items);
    if Acceptable(cfg, j) {
      DenotationArray(cfg, blank, items);
      assert MeaningAll(cfg, Trees(items)) == DenotationAll(cfg, items);
    }
  }

  lemma AcceptableArray(cfg: Config, blank: Bytes, items: seq<Item<Json>>)
    requires WellFormed(JArray(blank, items))
    ensures forall k | 0 <= k < |items| :: WellFormed(items[k].val)
    ensures Acceptable(cfg, JArray(blank, items)) <==> forall k | 0 <= k < |items| :: Acceptable(cfg, items[k].val)
  {
    forall k | 0 <= k < |items| ensures WellFormed(items[k].val) {
      assert items[k] in items;
    }
    assert forall k | 0 <= k < |items| :: items[k] in items;
  }

  function DenotationAll(cfg: Config, items: seq<Item<Json>>): (r: seq<Value>)
    requires forall k | 0 <= k < |items| :: WellFormed(items[k].val) && Acceptable(cfg, items[k].val)
    ensures |r| == |items| && forall k | 0 <= k < |items| :: r[k] == Denotation(cfg, items[k].val)
  {
    seq(|items|, i requires 0 <= i < |items| => Denotation(cfg, items[i].val))
  }

  lemma DenotationArray(cfg: Config, blank: Bytes, items: seq<Item<Json>>)
    requires WellFormed(JArray(blank, items)) && Acceptable(cfg, JArray(blank, items))
    requires forall k | 0 <= k < |items| :: WellFormed(items[k].val) && Acceptable(cfg, items[k].val)
    ensures Denotation(cfg, JArray(blank, items)) == Arr(DenotationAll(cfg, items))
  {
  }

  lemma {:induction false} PairsAgree(cfg: Config, members: seq<Pair<Json>>, i: nat)
    requires i <= |members| && forall x | x in members :: Agrees(cfg, x.val) && AreChars(x.name)
    ensures FieldsHeight(TreePairs(members), i) == PairsNesting(members, i)
    ensures forall k | 0 <= k < |members| :: WellFormed(members[k].val) && AreChars(members[k].name)
    ensures ReadableFields(cfg, TreePairs(members), i) <==>
            forall k | i <= k < |members| :: Paired(members[k].name) && Acceptable(cfg, members[k].val)
    decreases |members| - i
  {
    hide WellFormed, Acceptable, Denotation, Tree, Readable, Meaning, Height, Nesting, Proper, NameOf,
        ScalarOf, StringText, Paired, AreChars;
    forall k | 0 <= k < |members| ensures WellFormed(members[k].val) && AreChars(members[k].name) {
      assert members[k] in members;
    }
    if i < |members| {
      assert members[i] in members;
      StringMeans(cfg, members[i].name);
      PairsAgree(cfg, members, i + 1);
    }
  }

  lemma ObjectAgrees(cfg: Config, blank: Bytes, members: seq<Pair<Json>>)
    requires WellFormed(JObject(blank, members)) && forall x | x in members :: Agrees(cfg, x.val)
    ensures Agrees(cfg, JObject(blank, members))
  {
    hide Tree, Meaning, Denotation, FieldsHeight, PairsNesting, ReadableFields, StringText, FieldName, NameOf,
        PutAll, AreChars, Paired, Denoted;
    var j := JObject(blank, members);
    TreeObject(blank, members);
    PairsAgree(cfg, members, 0);
    MeaningRecord(cfg, TreePairs(members));
    assert Proper(Record(TreePairs(members)));
    AcceptableObject(cfg, blank, members);
    if Acceptable(cfg, j) {
      DenotationObject(cfg, blank, members);
      forall k | 0 <= k < |members|
        ensures FieldName(cfg, TreePairs(members)[k]) == Denoted(members[k].name)
      {
        NameMeans(cfg, TreePairs(members)[k], members[k].name);
      }
      assert MeaningFields(cfg, TreePairs(members)) == DenotationPairs(cfg, members);
    }
  }

  lemma NameMeans(cfg: Config, f: Field<Syntax>, name: seq<Char>)
    requires AreChars(name) && Paired(name) && f.text == StringText(name)
    ensures FieldName(cfg, f) == Denoted(name)
  {
    hide NameOf, ScalarOf, StringText, Paired, Denoted;
    StringMeans(cfg, name);
  }

  lemma AcceptableObject(cfg: Config, blank: Bytes, members: seq<Pair<Json>>)
    requires WellFormed(JObject(blank, members))
    ensures forall k | 0 <= k < |members| :: WellFormed(members[k].val) && AreChars(members[k].name)
    ensures Acceptable(cfg, JObject(blank, members)) <==>
            forall k | 0 <= k < |members| :: Paired(members[k].name) && Acceptable(cfg, members[k].val)
  {
    hide AreChars, Paired;
    forall k | 0 <= k < |members| ensures WellFormed(members[k].val) && AreChars(members[k].name) {
      assert members[k] in members;
    }
    assert forall k | 0 <= k < |members| :: members[k] in members;
  }

  function DenotationPairs(cfg: Config, members: seq<Pair<Json>>): (r: seq<Entry<Value>>)
    requires forall k | 0 <= k < |members| ::
               AreChars(members[k].name) && WellFormed(members[k].val) && Acceptable(cfg, members[k].val)
    ensures |r| == |members|
    ensures forall k | 0 <= k < |members| :: r[k] == Entry(Denoted(members[k].name), Denotation(cfg, members[k].val))
  {
    seq(|members|, i requires 0 <= i < |members| => Entry(Denoted(members[i].name), Denotation(cfg, members[i].val)))
  }

  lemma DenotationObject(cfg: Config, blank: Bytes, members: seq<Pair<Json>>)
    requires WellFormed(JObject(blank, members)) && Acceptable(cfg, JObject(blank, members))
    requires forall k | 0 <= k < |members| ::
               AreChars(members[k].name) && WellFormed(members[k].val) && Acceptable(cfg, members[k].val)
    ensures Denotation(cfg, JObject(blank, members)) == Obj(PutAll([], DenotationPairs(cfg, members)))
  {
    hide PutAll, Denoted, AreChars, Paired;
    var a := seq(|members|, i requires 0 <= i < |members| =>
        Entry(Denoted(members[i].name), Denotation(cfg, members[i].val)));
    assert a == DenotationPairs(cfg, members);
  }

  // ---------------------------------------------------------------- the theorem

  /**
   * The reader on any text of the grammar: it succeeds exactly when the text is acceptable and
   * at most 1000 deep, and then the value is the one denoted; an acceptable text that is deeper
   * makes it abort.
   */
  lemma ReadsGrammar(cfg: Config, before: Bytes, j: Json, after: Bytes, root: Node)
    requires WellFormed(j) && AllSpaces(before) && AllSpaces(after)
    requires cfg.strictRoot ==> j.JArray? || j.JObject?
    ensures var p := Parse(cfg, Document(before, j, after), root);
            && (p.status == Ok <==> Acceptable(cfg, j) && Nesting(j) <= 1000)
            && (p.status == Ok ==> Strip(p.root) == Denotation(cfg, j) && p.errors == [])
            && (Acceptable(cfg, j) && Nesting(j) > 1000 ==> p.status == Aborted)
  {
    hide Parse, Document, Acceptable, Denotation, Nesting, Spelling, Meaning, Height, Proper, Readable, Lex;
    DocumentLexes(before, j, after);
    TreeAgrees(cfg, j);
    ReadsSpelling(cfg, Document(before, j, after), root, Tree(j));
  }

  /** The grammar allows a lone high surrogate, as in "\ud800"; the reader refuses it. */
  lemma LoneSurrogateIsRefused(cfg: Config, root: Node)
    requires !cfg.strictRoot
    ensures var j := JString([Unit([0x64, 0x38, 0x30, 0x30])]);
            WellFormed(j) && Parse(cfg, Source(j), root).status != Ok
  {
    hide Parse;
    var h: Bytes := [0x64, 0x38, 0x30, 0x30];
    var j := JString([Unit(h)]);
    assert UnitValue(h) == 0xD800;
    assert !Paired([Unit(h)]);
    assert Document([], j, []) == Source(j);
    ReadsGrammar(cfg, [], j, [], root);
  }
}
