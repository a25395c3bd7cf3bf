/**
 * JSON string literals: the quoting of json_writer.cpp, and the scanner and the decoder of
 * json_reader.cpp. `Quote` always produces one string token, and decoding it gives back the
 * input with every malformed UTF-8 sequence replaced.
 */
module StringCodec {
  import opened Bytes
  import opened Utf8
  import opened Seqs

  // ---------------------------------------------------------------- quoting

  function HexDigit(d: nat): byte
    requires d < 16
  {
    if d < 10 then ZERO + d else LOWER_A + (d - 10)
  }

  /** toHex16Bit. */
  function Hex4(x: nat): (r: Bytes)
    ensures |r| == 4
  {
    [HexDigit(x / 4096 % 16), HexDigit(x / 256 % 16), HexDigit(x / 16 % 16), HexDigit(x % 16)]
  }

  function UEscape(x: nat): (r: Bytes)
    ensures |r| == 6
  {
    [BACKSLASH, LOWER_U] + Hex4(x)
  }

  /** What the default branch of valueToQuotedStringN appends for one code point. */
  function EscapeCodePoint(cp: nat): Bytes {
    if cp < 0x20 then UEscape(cp)
    else if cp < 0x80 then [cp]
    else if cp < 0x10000 then UEscape(cp)
    else
      var c := cp - 0x10000;
      UEscape(0xD800 + c / 1024 % 1024) + UEscape(0xDC00 + c % 1024)
  }

  /** The letter of a two-character escape, or 0 for characters that have none. */
  function ShortEscape(c: byte): byte {
    if c == QUOTE then QUOTE
    else if c == BACKSLASH then BACKSLASH
    else if c == BACKSPACE then LOWER_B
    else if c == FORMFEED then LOWER_F
    else if c == LF then LOWER_N
    else if c == CR then LOWER_R
    else if c == TAB then LOWER_T
    else 0
  }

  /** The output for the character at `i`, and how many input bytes it stands for. */
  datatype Piece = Piece(text: Bytes, size: nat)

  function EscapeAt(s: Bytes, i: nat): (p: Piece)
    requires i < |s|
    ensures 1 <= p.size && i + p.size <= |s|
  {
    if ShortEscape(s[i]) != 0 then Piece([BACKSLASH, ShortEscape(s[i])], 1)
    else
      var d := Utf8ToCodepoint(s, i);
      Piece(EscapeCodePoint(d.cp), d.size)
  }

  function QuoteBody(s: Bytes, i: nat): Bytes
    requires i <= |s|
    decreases |s| - i
  {
    if i == |s| then [] else EscapeAt(s, i).text + QuoteBody(s, i + EscapeAt(s, i).size)
  }

  function Quote(s: Bytes): Bytes {
    [QUOTE] + QuoteBody(s, 0) + [QUOTE]
  }

  predicate NeedsEscape(c: byte) {
    c == BACKSLASH || c == QUOTE || c < 0x20 || c > 0x7F
  }

  /** doesAnyCharRequireEscaping. */
  predicate AnyNeedsEscape(s: Bytes) {
    exists i | 0 <= i < |s| :: NeedsEscape(s[i])
  }

  /** valueToQuotedStringN with emitUTF8 off: a fast path, and a loop that consumes one character at a time. */
  method QuoteString(value: Bytes) returns (r: Bytes)
    ensures r == Quote(value)
  {
    hide EscapeAt;
    if !AnyNeedsEscape(value) {
      FastPath(value, 0);
      assert value[0..] == value;
      return [QUOTE] + value + [QUOTE];
    }
    r := [QUOTE];
    var c := 0;
    while c != |value|
      invariant 0 <= c <= |value|
      invariant r + QuoteBody(value, c) == [QUOTE] + QuoteBody(value, 0)
      decreases |value| - c
    {
      var p := EscapeAt(value, c);
      assert r + (p.text + QuoteBody(value, c + p.size)) == r + p.text + QuoteBody(value, c + p.size);
      r := r + p.text;
      c := c + p.size;
    }
    r := r + [QUOTE];
  }

  /** The fast path writes what the loop would have written. */
  lemma {:induction false} FastPath(s: Bytes, i: nat)
    requires !AnyNeedsEscape(s) && i <= |s|
    ensures QuoteBody(s, i) == s[i..]
    decreases |s| - i
  {
    if i < |s| {
      assert !NeedsEscape(s[i]);
      FastPath(s, i + 1);
    }
  }

  // ---------------------------------------------------------------- scanning

  /** Outcome of a scanner: whether the token is complete, and where the cursor stops. */
  datatype Scan = Scan(ok: bool, end: nat)

  /** readString from just after the opening quote. */
  function ScanString(t: Bytes, i: nat): (r: Scan)
    requires i <= |t|
    ensures i <= r.end <= |t|
    ensures r.ok ==> i < r.end && t[r.end - 1] == QUOTE
    ensures !r.ok ==> r.end == |t|
    decreases |t| - i
  {
    if i == |t| then Scan(false, i)
    else if t[i] == BACKSLASH then
      if i + 1 == |t| then Scan(false, i + 1) else ScanString(t, i + 2)
    else if t[i] == QUOTE then Scan(true, i + 1)
    else ScanString(t, i + 1)
  }

  // ---------------------------------------------------------------- decoding

  datatype StringError =
    | EmptyEscape
    | BadEscape
    | SixMoreExpected
    | SecondEscapeExpected
    | FourDigitsExpected
    | HexDigitExpected

  /** `rest` is what was left unread when the loop stopped at an unescaped quote; normally empty. */
  datatype DecodedString =
    | Decoded(out: Bytes, rest: Bytes)
    | Undecodable(error: StringError)
  {
    function Prepend(front: Bytes): DecodedString {
      if Decoded? then Decoded(front + out, rest) else this
    }
  }

  /** Value of a hexadecimal digit of either case, -1 for any other character. */
  function HexValue(c: byte): int {
    if ZERO <= c <= NINE then c - ZERO
    else if LOWER_A <= c <= LOWER_F then c - LOWER_A + 10
    else if 0x41 <= c <= 0x46 then c - 0x41 + 10
    else -1
  }

  function HexValues(c: Bytes, n: nat): (v: int)
    requires n <= |c|
  {
    if n == 0 then 0
    else
      var v := HexValues(c, n - 1);
      if v < 0 || HexValue(c[n - 1]) < 0 then -1 else v * 16 + HexValue(c[n - 1])
  }

  datatype UnicodeEscape =
    | CodePoint(cp: nat, size: nat)
    | BadUnicode(error: StringError)

  /** decodeUnicodeEscapeSequence on the characters after the `u`. */
  function DecodeFour(c: Bytes): (r: UnicodeEscape)
    ensures r.CodePoint? ==> r.cp < 0x10000 && r.size == 4 && |c| >= 4
  {
    if |c| < 4 then BadUnicode(FourDigitsExpected)
    else
      HexValuesBound(c);
      if HexValues(c, 4) < 0 then BadUnicode(HexDigitExpected) else CodePoint(HexValues(c, 4), 4)
  }

  lemma HexValuesBound(c: Bytes)
    requires |c| >= 4
    ensures -1 <= HexValues(c, 4) < 0x10000
  {
    assert -1 <= HexValues(c, 1) < 0x10;
    assert -1 <= HexValues(c, 2) < 0x100;
    assert -1 <= HexValues(c, 3) < 0x1000;
  }

  /** decodeUnicodeCodePoint: one escape, or two when the first is a high surrogate. */
  function DecodeUnicode(c: Bytes): (r: UnicodeEscape)
    ensures r.CodePoint? ==> r.cp <= 0x10FFFF && 4 <= r.size <= |c|
    ensures r.BadUnicode? ==> r.error != EmptyEscape
  {
    var first := DecodeFour(c);
    if first.BadUnicode? || !(0xD800 <= first.cp <= 0xDBFF) then first
    else if |c| - 4 < 6 then BadUnicode(SixMoreExpected)
    else if c[4] != BACKSLASH || c[5] != LOWER_U then BadUnicode(SecondEscapeExpected)
    else
      var second := DecodeFour(c[6..]);
      if second.BadUnicode? then second
      else CodePoint(0x10000 + first.cp % 1024 * 1024 + second.cp % 1024, 10)
  }

  /** The character a two-character escape stands for, or -1 if there is no such escape. */
  function Unescape(e: byte): (r: int)
    ensures r < 256
  {
    if e == QUOTE || e == SLASH || e == BACKSLASH then e
    else if e == LOWER_B then BACKSPACE
    else if e == LOWER_F then FORMFEED
    else if e == LOWER_N then LF
    else if e == LOWER_R then CR
    else if e == LOWER_T then TAB
    else -1
  }

  /** decodeString on the characters between the quotes. */
  function DecodeContent(c: Bytes): (d: DecodedString)
    decreases |c|
  {
    if c == [] then Decoded([], [])
    else if c[0] == QUOTE then Decoded([], c)
    else if c[0] != BACKSLASH then DecodeContent(c[1..]).Prepend([c[0]])
    else if |c| == 1 then Undecodable(EmptyEscape)
    else if Unescape(c[1]) >= 0 then DecodeContent(c[2..]).Prepend([Unescape(c[1])])
    else if c[1] == LOWER_U then
      var u := DecodeUnicode(c[2..]);
      if u.BadUnicode? then Undecodable(u.error)
      else DecodeContent(c[2 + u.size..]).Prepend(CodePointToUtf8(u.cp))
    else Undecodable(BadEscape)
  }

  /** decodeString on a token that starts and ends with a quote. */
  function DecodeText(x: Bytes): DecodedString
    requires |x| >= 2
  {
    DecodeContent(x[1..|x| - 1])
  }

  /** decodeUnicodeEscapeSequence as a loop over the document. */
  method ReadFour(t: Bytes, current: nat, end: nat) returns (r: UnicodeEscape)
    requires current <= end <= |t|
    ensures r == DecodeFour(t[current..end])
  {
    if end - current < 4 {
      return BadUnicode(FourDigitsExpected);
    }
    ghost var c := t[current..end];
    var unicode := 0;
    var index := 0;
    while index < 4
      invariant 0 <= index <= 4 && 0 <= unicode
      invariant HexValues(c, index) == unicode
    {
      var h := HexValue(t[current + index]);
      assert c[index] == t[current + index];
      if h < 0 {
        HexFails(c, index + 1, 4);
        return BadUnicode(HexDigitExpected);
      }
      unicode := unicode * 16 + h;
      index := index + 1;
    }
    r := CodePoint(unicode, 4);
  }

  lemma HexFails(c: Bytes, m: nat, n: nat)
    requires m <= n <= |c| && HexValues(c, m) < 0
    ensures HexValues(c, n) < 0
  {
    if m < n {
      HexFails(c, m, n - 1);
    }
  }

  /** decodeUnicodeCodePoint over the document. */
  method ReadUnicode(t: Bytes, current: nat, end: nat) returns (r: UnicodeEscape)
    requires current <= end <= |t|
    ensures r == DecodeUnicode(t[current..end])
  {
    ghost var c := t[current..end];
    r := ReadFour(t, current, end);
    if r.BadUnicode? || !(0xD800 <= r.cp <= 0xDBFF) {
      return;
    }
    if end - (current + 4) < 6 {
      return BadUnicode(SixMoreExpected);
    }
    assert c[4] == t[current + 4] && c[5] == t[current + 5];
    if t[current + 4] == BACKSLASH && t[current + 5] == LOWER_U {
      var second := ReadFour(t, current + 6, end);
      assert t[current + 6..end] == c[6..];
      if second.BadUnicode? {
        return second;
      }
      r := CodePoint(0x10000 + r.cp % 1024 * 1024 + second.cp % 1024, 10);
    } else {
      r := BadUnicode(SecondEscapeExpected);
    }
  }

  lemma PrependTwice(d: DecodedString, a: Bytes, b: Bytes)
    ensures d.Prepend(b).Prepend(a) == d.Prepend(a + b)
  {
    if d.Decoded? {
      assert a + (b + d.out) == a + b + d.out;
    }
  }

  /** One iteration of decodeString on an ordinary character. */
  lemma PlainStep(t: Bytes, i: nat, end: nat, out: Bytes)
    requires i < end <= |t| && t[i] != QUOTE && t[i] != BACKSLASH
    ensures DecodeContent(t[i..end]).Prepend(out) == DecodeContent(t[i + 1..end]).Prepend(out + [t[i]])
  {
    var c := t[i..end];
    assert c[0] == t[i] && c[1..] == t[i + 1..end];
    PrependTwice(DecodeContent(c[1..]), out, [t[i]]);
  }

  /** One iteration on a two-character escape. */
  lemma ShortStep(t: Bytes, i: nat, end: nat, out: Bytes)
    requires i + 1 < end <= |t| && t[i] == BACKSLASH && Unescape(t[i + 1]) >= 0
    ensures DecodeContent(t[i..end]).Prepend(out) ==
            DecodeContent(t[i + 2..end]).Prepend(out + [Unescape(t[i + 1])])
  {
    var c := t[i..end];
    assert c[0] == t[i] && c[1] == t[i + 1] && c[2..] == t[i + 2..end];
    PrependTwice(DecodeContent(c[2..]), out, [Unescape(t[i + 1])]);
  }

  /** One iteration on a \u escape. */
  lemma UnicodeStep(t: Bytes, i: nat, end: nat, out: Bytes)
    requires i + 1 < end <= |t| && t[i] == BACKSLASH && t[i + 1] == LOWER_U
    ensures var u := DecodeUnicode(t[i + 2..end]);
            DecodeContent(t[i..end]).Prepend(out) ==
            if u.BadUnicode? then Undecodable(u.error)
            else DecodeContent(t[i + 2 + u.size..end]).Prepend(out + CodePointToUtf8(u.cp))
  {
    hide DecodeUnicode, CodePointToUtf8;
    var c := t[i..end];
    assert c[0] == t[i] && c[1] == t[i + 1] && c[2..] == t[i + 2..end];
    var u := DecodeUnicode(t[i + 2..end]);
    if u.CodePoint? {
      assert c[2 + u.size..] == t[i + 2 + u.size..end];
      PrependTwice(DecodeContent(c[2 + u.size..]), out, CodePointToUtf8(u.cp));
    }
  }

  /** The iterations that end the loop. */
  lemma FinalStep(t: Bytes, i: nat, end: nat, out: Bytes)
    requires i <= end <= |t|
    ensures i == end ==> DecodeContent(t[i..end]).Prepend(out) == Decoded(out, [])
    ensures i < end && t[i] == QUOTE ==> DecodeContent(t[i..end]).Prepend(out) == Decoded(out, t[i..end])
    ensures i + 1 == end && t[i] == BACKSLASH ==> DecodeContent(t[i..end]) == Undecodable(EmptyEscape)
    ensures i + 1 < end && t[i] == BACKSLASH && Unescape(t[i + 1]) < 0 && t[i + 1] != LOWER_U ==>
              DecodeContent(t[i..end]) == Undecodable(BadEscape)
  {
    var c := t[i..end];
    assert i < end ==> c[0] == t[i];
    assert i + 1 < end ==> c[1] == t[i + 1];
    assert out + [] == out;
  }

  /** decodeString as a loop over the document: the token is t[start..limit]. */
  method DecodeString(t: Bytes, start: nat, limit: nat) returns (d: DecodedString)
    requires start + 2 <= limit <= |t|
    ensures d == DecodeText(t[start..limit])
  {
    hide DecodeContent, DecodeUnicode, CodePointToUtf8;
    var current, end := start + 1, limit - 1;
    SliceOfSlice(t, start, limit, 1, limit - start - 1);
    ghost var whole := DecodeContent(t[current..end]);
    var decoded: Bytes := [];
    assert whole.Prepend([]) == whole;
    while current != end
      invariant start + 1 <= current <= end
      invariant whole == DecodeContent(t[current..end]).Prepend(decoded)
      decreases end - current
    {
      var c := t[current];
      FinalStep(t, current, end, decoded);
      if c == QUOTE {
        return Decoded(decoded, t[current..end]);
      }
      if c == BACKSLASH {
        if current + 1 == end {
          return Undecodable(EmptyEscape);
        }
        var escape := t[current + 1];
        if Unescape(escape) >= 0 {
          ShortStep(t, current, end, decoded);
          decoded := decoded + [Unescape(escape)];
          current := current + 2;
        } else if escape == LOWER_U {
          UnicodeStep(t, current, end, decoded);
          var u := ReadUnicode(t, current + 2, end);
          if u.BadUnicode? {
            return Undecodable(u.error);
          }
          decoded := decoded + CodePointToUtf8(u.cp);
          current := current + 2 + u.size;
        } else {
          return Undecodable(BadEscape);
        }
      } else {
        PlainStep(t, current, end, decoded);
        decoded := decoded + [c];
        current := current + 1;
      }
    }
    FinalStep(t, end, end, decoded);
    d := Decoded(decoded, []);
  }
}
