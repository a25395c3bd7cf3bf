/**
 * UTF-8: the encoder of json_tool.h, the lenient decoder of json_writer.cpp, and the
 * grammar of section 4 of RFC 3629 as the independent definition of valid UTF-8.
 * The bit operations of the source are written as division and remainder.
 */
module Utf8 {
  import opened Bytes

  const REPLACEMENT: nat := 0xFFFD

  /** Unicode scalar values: code points that are not surrogates. */
  predicate IsScalar(cp: int) {
    0 <= cp <= 0x10FFFF && !(0xD800 <= cp <= 0xDFFF)
  }

  function CodePointToUtf8(cp: nat): (r: Bytes)
  {
    if cp <= 0x7F then [cp]
    else if cp <= 0x7FF then TwoBytes(cp)
    else if cp <= 0xFFFF then ThreeBytes(cp)
    else if cp <= 0x10FFFF then FourBytes(cp)
    else []
  }

  function TwoBytes(cp: nat): Bytes {
    [0xC0 + cp / 64 % 32, 0x80 + cp % 64]
  }

  function ThreeBytes(cp: nat): Bytes {
    [0xE0 + cp / 4096 % 16, 0x80 + cp / 64 % 64, 0x80 + cp % 64]
  }

  function FourBytes(cp: nat): Bytes {
    [0xF0 + cp / 262144 % 8, 0x80 + cp / 4096 % 64, 0x80 + cp / 64 % 64, 0x80 + cp % 64]
  }

  /** The payload bits of two, three and four byte forms. */
  function Join2(a: int, b: int): int {
    a % 32 * 64 + b % 64
  }

  function Join3(a: int, b: int, c: int): int {
    a % 16 * 4096 + b % 64 * 64 + c % 64
  }

  function Join4(a: int, b: int, c: int, d: int): int {
    a % 8 * 262144 + b % 64 * 4096 + c % 64 * 64 + d % 64
  }

  /** A decoded code point and the number of bytes it took. */
  datatype Character = Character(cp: nat, size: nat)

  /** utf8ToCodepoint on the bytes at `i`: never fails, never checks continuation bytes. */
  function Utf8ToCodepoint(s: Bytes, i: nat): (d: Character)
    requires i < |s|
    ensures 1 <= d.size <= 4 && i + d.size <= |s|
  {
    var b := s[i];
    if b < 0x80 then Character(b, 1)
    else if b < 0xE0 then
      if |s| - i < 2 then Character(REPLACEMENT, 1)
      else
        var c := Join2(b, s[i + 1]);
        Character(if c < 0x80 then REPLACEMENT else c, 2)
    else if b < 0xF0 then
      if |s| - i < 3 then Character(REPLACEMENT, 1)
      else
        var c := Join3(b, s[i + 1], s[i + 2]);
        Character(if 0xD800 <= c <= 0xDFFF || c < 0x800 then REPLACEMENT else c, 3)
    else if b < 0xF8 then
      if |s| - i < 4 then Character(REPLACEMENT, 1)
      else
        var c := Join4(b, s[i + 1], s[i + 2], s[i + 3]);
        Character(if c < 0x10000 then REPLACEMENT else c, 4)
    else Character(REPLACEMENT, 1)
  }

  predicate IsTail(b: byte) {
    0x80 <= b <= 0xBF
  }

  /** Length of the well-formed character at `i` by the grammar of RFC 3629, or 0 if there is none. */
  function CharLength(s: Bytes, i: nat): (n: nat)
    requires i < |s|
    ensures i + n <= |s| && n <= 4
  {
    var b := s[i];
    if b <= 0x7F then 1
    else if 0xC2 <= b <= 0xDF && i + 1 < |s| && IsTail(s[i + 1]) then 2
    else if 0xE0 <= b <= 0xEF && i + 2 < |s| && IsTail(s[i + 1]) && IsTail(s[i + 2])
            && (b == 0xE0 ==> 0xA0 <= s[i + 1]) && (b == 0xED ==> s[i + 1] <= 0x9F) then 3
    else if 0xF0 <= b <= 0xF4 && i + 3 < |s| && IsTail(s[i + 1]) && IsTail(s[i + 2]) && IsTail(s[i + 3])
            && (b == 0xF0 ==> 0x90 <= s[i + 1]) && (b == 0xF4 ==> s[i + 1] <= 0x8F) then 4
    else 0
  }

  /** The bytes from `i` on are a sequence of well-formed characters. */
  predicate ValidFrom(s: Bytes, i: nat)
    requires i <= |s|
    decreases |s| - i
  {
    i == |s| || (CharLength(s, i) > 0 && ValidFrom(s, i + CharLength(s, i)))
  }

  predicate Valid(s: Bytes) {
    ValidFrom(s, 0)
  }

  /** On a well-formed character the lenient decoder is exact: encoding its answer gives the bytes back. */
  lemma DecodeEncode(s: Bytes, i: nat)
    requires i < |s| && CharLength(s, i) > 0
    ensures Utf8ToCodepoint(s, i).size == CharLength(s, i)
    ensures IsScalar(Utf8ToCodepoint(s, i).cp)
    ensures CodePointToUtf8(Utf8ToCodepoint(s, i).cp) == s[i..i + CharLength(s, i)]
  {
    var n := CharLength(s, i);
    var cp := Utf8ToCodepoint(s, i).cp;
    if n == 2 {
      SplitTwo(s[i], s[i + 1]);
    } else if n == 3 {
      SplitThree(s[i], s[i + 1], s[i + 2]);
    } else if n == 4 {
      SplitFour(s[i], s[i + 1], s[i + 2], s[i + 3]);
    }
  }

  /** The number of bytes that a lead byte announces; 1 for a byte that is none. */
  function Announced(b: byte): nat {
    if b < 0x80 then 1 else if b < 0xE0 then 2 else if b < 0xF0 then 3 else if b < 0xF8 then 4 else 1
  }

  /** The low bits of a byte: its remainder by a power of two. */
  function Low(b: int, power: int): nat
    requires power > 0
  {
    b % power
  }

  /** The payload bits of the first `n` bytes at `i`: seven, or those of the lead and six of each other one. */
  function Payload(s: Bytes, i: nat, n: nat): nat
    requires 1 <= n <= 4 && i + n <= |s|
  {
    if n == 1 then s[i] % 0x80
    else if n == 2 then Low(s[i], 0x20) * 0x40 + Low(s[i + 1], 0x40)
    else if n == 3 then Low(s[i], 0x10) * 0x1000 + Low(s[i + 1], 0x40) * 0x40 + Low(s[i + 2], 0x40)
    else Low(s[i], 8) * 0x40000 + Low(s[i + 1], 0x40) * 0x1000 + Low(s[i + 2], 0x40) * 0x40 + Low(s[i + 3], 0x40)
  }

  /**
   * On any bytes: a byte that is no lead or announces more than there is counts alone and gives
   * the replacement character; otherwise the announced bytes are taken, and they give their
   * payload unless that is a surrogate or needs fewer bytes.
   */
  lemma LenientAnswer(s: Bytes, i: nat)
    requires i < |s|
    ensures var (n, d) := (Announced(s[i]), Utf8ToCodepoint(s, i));
            if i + n > |s| || s[i] >= 0xF8 then d == Character(0xFFFD, 1)
            else
              var p := Payload(s, i, n);
              && d.size == n
              && d.cp == if (n == 2 && p < 0x80) || (n == 3 && (p < 0x800 || 0xD800 <= p <= 0xDFFF))
                            || (n == 4 && p < 0x10000) then 0xFFFD else p
  {
  }

  lemma Shift64(q: nat, r: nat)
    requires r < 64
    ensures (q * 64 + r) / 64 == q && (q * 64 + r) % 64 == r
  {
  }

  lemma TailBits(b: byte)
    requires IsTail(b)
    ensures b as int % 64 == b - 0x80
  {
  }

  lemma LeadBits(b: byte)
    ensures 0xC0 <= b <= 0xDF ==> b as int % 32 == b - 0xC0
    ensures 0xE0 <= b <= 0xEF ==> b as int % 16 == b - 0xE0
    ensures 0xF0 <= b <= 0xF7 ==> b as int % 8 == b - 0xF0
  {
  }

  lemma Quotients(cp: nat)
    ensures cp / 4096 == cp / 64 / 64 && cp / 262144 == cp / 64 / 64 / 64
  {
  }

  lemma SplitTwo(a: byte, b: byte)
    requires 0xC2 <= a <= 0xDF && IsTail(b)
    ensures 0x80 <= Join2(a, b) <= 0x7FF && CodePointToUtf8(Join2(a, b)) == [a, b]
  {
    hide TwoBytes, ThreeBytes, FourBytes;
    TailBits(b);
    LeadBits(a);
    EncodeTwo(a - 0xC0, b - 0x80);
  }

  lemma EncodeTwo(q: nat, z: nat)
    requires q < 32 && z < 64
    ensures TwoBytes(q * 64 + z) == [0xC0 + q, 0x80 + z]
  {
    Shift64(q, z);
  }

  lemma SplitThree(a: byte, b: byte, c: byte)
    requires 0xE0 <= a <= 0xEF && IsTail(b) && IsTail(c)
    requires (a == 0xE0 ==> 0xA0 <= b) && (a == 0xED ==> b <= 0x9F)
    ensures 0x800 <= Join3(a, b, c) <= 0xFFFF && IsScalar(Join3(a, b, c))
    ensures CodePointToUtf8(Join3(a, b, c)) == [a, b, c]
  {
    hide TwoBytes, ThreeBytes, FourBytes;
    TailBits(b);
    TailBits(c);
    LeadBits(a);
    assert Join3(a, b, c) == ((a - 0xE0) * 64 + (b - 0x80)) * 64 + (c - 0x80);
    EncodeThree(a - 0xE0, b - 0x80, c - 0x80);
  }

  lemma EncodeThree(x: nat, y: nat, z: nat)
    requires x < 16 && y < 64 && z < 64
    ensures ThreeBytes((x * 64 + y) * 64 + z) == [0xE0 + x, 0x80 + y, 0x80 + z]
  {
    Shift64(x * 64 + y, z);
    Shift64(x, y);
    Quotients((x * 64 + y) * 64 + z);
  }

  lemma SplitFour(a: byte, b: byte, c: byte, d: byte)
    requires 0xF0 <= a <= 0xF4 && IsTail(b) && IsTail(c) && IsTail(d)
    requires (a == 0xF0 ==> 0x90 <= b) && (a == 0xF4 ==> b <= 0x8F)
    ensures 0x10000 <= Join4(a, b, c, d) <= 0x10FFFF
    ensures CodePointToUtf8(Join4(a, b, c, d)) == [a, b, c, d]
  {
    hide TwoBytes, ThreeBytes, FourBytes;
    TailBits(b);
    TailBits(c);
    TailBits(d);
    LeadBits(a);
    assert Join4(a, b, c, d) == (((a - 0xF0) * 64 + (b - 0x80)) * 64 + (c - 0x80)) * 64 + (d - 0x80);
    EncodeFour(a - 0xF0, b - 0x80, c - 0x80, d - 0x80);
  }

  lemma EncodeFour(w: nat, x: nat, y: nat, z: nat)
    requires w < 8 && x < 64 && y < 64 && z < 64
    ensures FourBytes(((w * 64 + x) * 64 + y) * 64 + z) == [0xF0 + w, 0x80 + x, 0x80 + y, 0x80 + z]
  {
    Shift64((w * 64 + x) * 64 + y, z);
    Shift64(w * 64 + x, y);
    Shift64(w, x);
    Quotients(((w * 64 + x) * 64 + y) * 64 + z);
  }

  /** An encoded scalar value is one well-formed character. */
  lemma EncodedIsWellFormed(cp: nat)
    requires IsScalar(cp)
    ensures CharLength(CodePointToUtf8(cp), 0) == |CodePointToUtf8(cp)|
  {
    hide TwoBytes, ThreeBytes, FourBytes;
    var z, q := cp % 64, cp / 64;
    var y, p := q % 64, q / 64;
    assert cp == q * 64 + z && q == p * 64 + y;
    if 0x7F < cp <= 0x7FF {
      EncodeTwo(q, z);
    } else if 0x7FF < cp <= 0xFFFF {
      EncodeThree(p, y, z);
    } else if 0xFFFF < cp {
      var x, w := p % 64, p / 64;
      assert p == w * 64 + x;
      EncodeFour(w, x, y, z);
    }
  }

  /** Well-formedness of a character depends on its own bytes only. */
  lemma CharLengthLocal(s: Bytes, i: nat, e: Bytes)
    requires e != [] && CharLength(e, 0) == |e| && i + |e| <= |s| && s[i..i + |e|] == e
    ensures CharLength(s, i) == |e|
  {
    assert forall k | 0 <= k < |e| :: e[k] == s[i + k];
  }

  /** Prepending an encoded scalar value keeps a byte string valid. */
  lemma ValidPrepend(cp: nat, post: Bytes)
    requires IsScalar(cp) && Valid(post)
    ensures Valid(CodePointToUtf8(cp) + post)
  {
    var e := CodePointToUtf8(cp);
    EncodedIsWellFormed(cp);
    assert (e + post)[0..|e|] == e;
    CharLengthLocal(e + post, 0, e);
    ValidShift(e, post, 0);
  }

  lemma {:induction false} ValidShift(pre: Bytes, s: Bytes, i: nat)
    requires i <= |s|
    ensures ValidFrom(pre + s, |pre| + i) == ValidFrom(s, i)
    decreases |s| - i
  {
    if i < |s| {
      var t := pre + s;
      assert forall k | 0 <= k < |s| :: t[|pre| + k] == s[k];
      assert CharLength(t, |pre| + i) == CharLength(s, i);
      if CharLength(s, i) > 0 {
        ValidShift(pre, s, i + CharLength(s, i));
      }
    }
  }
}
