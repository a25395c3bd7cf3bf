/**
 * Integers in JSON text: uintToString and valueToString write them, and the two versions of
 * decodeNumber read them. Machine words are `uint64` and `int64`, so every operation below is
 * proved not to overflow.
 */
module Numbers {
  import opened Bytes

  newtype uint64 = x: int | 0 <= x < 0x1_0000_0000_0000_0000
  newtype int64 = x: int | -0x8000_0000_0000_0000 <= x < 0x8000_0000_0000_0000

  const MAX_INT32: int := 0x7FFF_FFFF
  const MAX_INT64: int := 0x7FFF_FFFF_FFFF_FFFF
  const MAX_UINT64: int := 0xFFFF_FFFF_FFFF_FFFF

  // ---------------------------------------------------------------- decimal text

  /** Decimal digits of `n`, most significant first. */
  function UIntText(n: nat): (r: Bytes)
    ensures r != []
  {
    if n < 10 then [ZERO + n] else UIntText(n / 10) + [ZERO + n % 10]
  }

  function IntText(i: int): (r: Bytes)
    ensures r != []
  {
    if i < 0 then [MINUS] + UIntText(-i) else UIntText(i)
  }

  predicate AllDigits(d: Bytes) {
    forall k | 0 <= k < |d| :: IsDigit(d[k])
  }

  function DigitOf(c: byte): nat
    requires IsDigit(c)
  {
    c - ZERO
  }

  /** The number that a string of digits denotes. */
  function NatOf(d: Bytes): (v: nat)
    requires AllDigits(d)
  {
    if d == [] then 0 else NatOf(d[..|d| - 1]) * 10 + DigitOf(d[|d| - 1])
  }

  lemma {:induction false} UIntTextValue(n: nat)
    ensures AllDigits(UIntText(n)) && NatOf(UIntText(n)) == n
  {
    if n >= 10 {
      UIntTextValue(n / 10);
      var x := UIntText(n);
      assert x[..|x| - 1] == UIntText(n / 10);
    }
  }

  /** No leading zero: a text of more than one digit starts with another digit. */
  lemma {:induction false} NoLeadingZero(n: nat)
    ensures var x := UIntText(n);
            x[0] == 0x30 ==> n == 0 && x == [0x30]
  {
    if n >= 10 {
      NoLeadingZero(n / 10);
    }
  }

  function Pow10(k: nat): nat {
    if k == 0 then 1 else 10 * Pow10(k - 1)
  }

  lemma {:induction false} UIntTextLength(n: nat, k: nat)
    requires 1 <= k && n < Pow10(k)
    ensures |UIntText(n)| <= k
    decreases k
  {
    if n >= 10 {
      assert k >= 2 by {
        assert Pow10(1) == 10 * Pow10(0);
      }
      UIntTextLength(n / 10, k - 1);
    }
  }

  lemma Uint64Length(n: nat)
    requires n <= MAX_UINT64
    ensures |UIntText(n)| <= 20
  {
    assert Pow10(5) == 10_0000;
    assert Pow10(10) == 10_0000 * 10_0000;
    assert Pow10(15) == Pow10(10) * 10_0000;
    assert Pow10(20) == Pow10(15) * 10_0000;
    UIntTextLength(n, 20);
  }

  // ---------------------------------------------------------------- writing into the 25-byte buffer

  const BUFFER_SIZE: nat := 3 * 8 + 1

  /** uintToString: writes a terminator and the digits backwards from `current`. */
  method UIntToString(value: uint64, buffer: array<byte>, current: nat) returns (start: nat)
    requires 21 <= current <= buffer.Length
    modifies buffer
    ensures start + |UIntText(value as int)| + 1 == current
    ensures buffer[start..current - 1] == UIntText(value as int) && buffer[current - 1] == NUL
    ensures start + 21 >= current
  {
    Uint64Length(value as int);
    start := current - 1;
    buffer[start] := NUL;
    var v := value;
    ghost var done: Bytes := [];
    while true
      invariant start <= current - 1 && buffer[start..current - 1] == done
      invariant buffer[current - 1] == NUL
      invariant |UIntText(v as int)| + |done| == |UIntText(value as int)|
      invariant UIntText(v as int) + done == UIntText(value as int)
      invariant start + |done| + 1 == current
      decreases v
    {
      Prefix(v as int, done);
      start := start - 1;
      buffer[start] := (v % 10) as int + ZERO;
      done := [(v % 10) as int + ZERO] + done;
      v := v / 10;
      if v == 0 {
        break;
      }
    }
  }

  /** Dropping the last digit and writing it in front of what is already written. */
  lemma Prefix(v: nat, done: Bytes)
    ensures v >= 10 ==> UIntText(v) + done == UIntText(v / 10) + ([ZERO + v % 10] + done)
    ensures v >= 10 ==> |UIntText(v)| == |UIntText(v / 10)| + 1
    ensures v < 10 ==> UIntText(v) + done == [ZERO + v % 10] + done
  {
  }

  /** valueToString(LargestUInt). */
  method UIntValueToString(value: uint64) returns (r: Bytes)
    ensures r == UIntText(value as int)
  {
    var buffer := new byte[BUFFER_SIZE];
    var current := UIntToString(value, buffer, BUFFER_SIZE);
    r := buffer[current..BUFFER_SIZE - 1];
  }

  /** valueToString(LargestInt): the smallest integer is handled apart because its negation overflows. */
  method IntValueToString(value: int64) returns (r: Bytes)
    ensures r == IntText(value as int)
  {
    hide UIntText;
    var buffer := new byte[BUFFER_SIZE];
    var current: nat;
    if value == -0x8000_0000_0000_0000 {
      current := UIntToString(0x8000_0000_0000_0000, buffer, BUFFER_SIZE);
      ghost var digits := buffer[current..BUFFER_SIZE - 1];
      current := current - 1;
      buffer[current] := MINUS;
      assert buffer[current..BUFFER_SIZE - 1] == [MINUS] + digits;
    } else if value < 0 {
      current := UIntToString((-value) as uint64, buffer, BUFFER_SIZE);
      ghost var digits := buffer[current..BUFFER_SIZE - 1];
      current := current - 1;
      buffer[current] := MINUS;
      assert buffer[current..BUFFER_SIZE - 1] == [MINUS] + digits;
    } else {
      current := UIntToString(value as uint64, buffer, BUFFER_SIZE);
    }
    r := buffer[current..BUFFER_SIZE - 1];
  }

  // ---------------------------------------------------------------- decoding

  /** The result of decodeNumber; `NotInteger` stands for handing the token to decodeDouble. */
  datatype DecodedNumber = Signed(i: int) | Unsigned(u: nat) | NotInteger

  /** A number token without its sign. */
  function Magnitude(x: Bytes): Bytes
    requires x != []
  {
    if x[0] == MINUS then x[1..] else x
  }

  /** What an integer token denotes; values above `signedMax` are tagged unsigned. */
  function DecodeInteger(x: Bytes, signedMax: int): DecodedNumber
    requires x != []
  {
    var d := Magnitude(x);
    if !AllDigits(d) then NotInteger
    else if x[0] == MINUS then
      if NatOf(d) <= MAX_INT64 + 1 then Signed(-(NatOf(d) as int)) else NotInteger
    else if NatOf(d) > MAX_UINT64 then NotInteger
    else if NatOf(d) <= signedMax then Signed(NatOf(d))
    else Unsigned(NatOf(d))
  }

  lemma NatOfStep(d: Bytes, j: nat)
    requires j < |d| && AllDigits(d[..j + 1])
    ensures AllDigits(d[..j]) && IsDigit(d[j])
    ensures NatOf(d[..j + 1]) == NatOf(d[..j]) * 10 + DigitOf(d[j])
  {
    assert d[..j + 1][..j] == d[..j];
    assert d[..j + 1][j] == d[j];
    forall k | 0 <= k < j ensures IsDigit(d[..j][k]) {
      assert IsDigit(d[..j + 1][k]);
    }
  }

  /** A longer string of digits denotes a larger number. */
  lemma {:induction false} NatOfGrows(d: Bytes, j: nat)
    requires j <= |d| && AllDigits(d)
    ensures AllDigits(d[..j]) && NatOf(d) >= NatOf(d[..j])
    ensures j < |d| ==> NatOf(d) >= NatOf(d[..j]) * 10
    decreases |d|
  {
    if j < |d| {
      var e := d[..|d| - 1];
      NatOfGrows(e, j);
      assert e[..j] == d[..j];
    } else {
      assert d[..j] == d;
    }
  }

  /** The overflow test of the digit loop rejects exactly the tokens whose value does not fit. */
  lemma OverflowTest(d: Bytes, j: nat, max: nat)
    requires j < |d| && max >= 100
    requires AllDigits(d[..j]) && IsDigit(d[j]) && NatOf(d[..j]) <= max
    ensures AllDigits(d[..j + 1])
    ensures var v, c := NatOf(d[..j]), DigitOf(d[j]);
            var stop := v >= max / 10 && (v > max / 10 || j + 1 != |d| || c > max % 10);
            if stop then AllDigits(d) ==> NatOf(d) > max
            else NatOf(d[..j + 1]) == v * 10 + c <= max
  {
    var v, c := NatOf(d[..j]), DigitOf(d[j]);
    assert d[..j + 1] == d[..j] + [d[j]];
    NatOfStep(d, j);
    if v >= max / 10 && (v > max / 10 || j + 1 != |d| || c > max % 10) && AllDigits(d) {
      NatOfGrows(d, j + 1);
      Exceeds(v, c, max);
      if j + 1 == |d| {
        assert d[..j + 1] == d;
      }
    }
  }

  lemma Exceeds(v: nat, c: nat, max: nat)
    requires max >= 100 && v >= max / 10
    ensures v > max / 10 || c > max % 10 ==> v * 10 + c > max
    ensures (v * 10 + c) * 10 > max
  {
  }

  /** Reader::decodeNumber on the token t[start..end]. */
  method DecodeNumber(t: Bytes, start: nat, end: nat) returns (r: DecodedNumber)
    requires start < end <= |t|
    ensures r == DecodeInteger(t[start..end], MAX_INT32)
  {
    hide NatOf;
    ghost var x := t[start..end];
    ghost var d := Magnitude(x);
    var current := start;
    var isNegative := t[current] == MINUS;
    if isNegative {
      current := current + 1;
    }
    ghost var first := current;
    var maxIntegerValue: uint64 := if isNegative then 0x8000_0000_0000_0000 else 0xFFFF_FFFF_FFFF_FFFF;
    var threshold := maxIntegerValue / 10;
    var value: uint64 := 0;
    NatOfNothing(d);
    while current < end
      invariant first <= current <= end
      invariant AllDigits(d[..current - first])
      invariant value as int == NatOf(d[..current - first]) <= maxIntegerValue as int
    {
      var c := t[current];
      assert d[current - first] == c;
      if c < ZERO || c > NINE {
        return NotInteger;
      }
      var digit := (c - ZERO) as uint64;
      OverflowTest(d, current - first, maxIntegerValue as int);
      current := current + 1;
      if value >= threshold {
        if value > threshold || current != end || digit > maxIntegerValue % 10 {
          return NotInteger;
        }
      }
      value := value * 10 + digit;
    }
    assert d[..end - first] == d;
    if isNegative && value == maxIntegerValue {
      r := Signed(-0x8000_0000_0000_0000);
    } else if isNegative {
      r := Signed((-(value as int64)) as int);
    } else if value <= 0x7FFF_FFFF {
      r := Signed((value as int64) as int);
    } else {
      r := Unsigned(value as int);
    }
  }

  lemma NatOfNothing(d: Bytes)
    ensures AllDigits(d[..0]) && NatOf(d[..0]) == 0
  {
  }

  /** OurReader::decodeNumber: thresholds without a negated minimum, and the signed tag up to 2^63-1. */
  method DecodeNumberStrict(t: Bytes, start: nat, end: nat) returns (r: DecodedNumber)
    requires start < end <= |t|
    ensures r == DecodeInteger(t[start..end], MAX_INT64)
  {
    hide NatOf;
    ghost var x := t[start..end];
    ghost var d := Magnitude(x);
    var current := start;
    var isNegative := t[current] == MINUS;
    if isNegative {
      current := current + 1;
    }
    ghost var first := current;
    ghost var max := if isNegative then MAX_INT64 + 1 else MAX_UINT64;
    var threshold: uint64 := if isNegative then 922_3372_0368_5477_580 else 1844_6744_0737_0955_161;
    var maxLastDigit: uint64 := if isNegative then 8 else 5;
    assert threshold as int == max / 10 && maxLastDigit as int == max % 10;
    var value: uint64 := 0;
    NatOfNothing(d);
    while current < end
      invariant first <= current <= end
      invariant AllDigits(d[..current - first])
      invariant value as int == NatOf(d[..current - first]) <= max
    {
      var c := t[current];
      assert d[current - first] == c;
      if c < ZERO || c > NINE {
        return NotInteger;
      }
      var digit := (c - ZERO) as uint64;
      OverflowTest(d, current - first, max);
      current := current + 1;
      if value >= threshold {
        if value > threshold || current != end || digit > maxLastDigit {
          return NotInteger;
        }
      }
      value := value * 10 + digit;
    }
    assert d[..end - first] == d;
    if isNegative {
      var lastDigit := (value % 10) as int64;
      r := Signed((-((value / 10) as int64) * 10 - lastDigit) as int);
    } else if value <= 0x7FFF_FFFF_FFFF_FFFF {
      r := Signed((value as int64) as int);
    } else {
      r := Unsigned(value as int);
    }
  }

  // ---------------------------------------------------------------- the two decoders and the writer together

  /** The tag that the default reader gives an integer. */
  function TagOf(i: int): DecodedNumber
  {
    if i <= MAX_INT32 then Signed(i) else Unsigned(i)
  }

  /** Decoding inverts valueToString on every int64 and uint64. */
  lemma IntegerRoundTrip(i: int)
    requires -MAX_INT64 - 1 <= i <= MAX_UINT64
    ensures DecodeInteger(IntText(i), MAX_INT32) == TagOf(i)
    ensures DecodeInteger(IntText(i), MAX_INT64) == if i <= MAX_INT64 then Signed(i) else Unsigned(i)
  {
    hide UIntText, NatOf;
    if i < 0 {
      UIntTextValue(-i);
      assert Magnitude(IntText(i)) == UIntText(-i);
    } else {
      UIntTextValue(i);
      assert IsDigit(UIntText(i)[0]);
    }
  }

  /** The integer a decoded number denotes. */
  function ValueOf(d: DecodedNumber): int
    requires !d.NotInteger?
  {
    if d.Signed? then d.i else d.u
  }

  /** The two decoders agree on every token except for the tag of 2^31 .. 2^63-1. */
  lemma DecodersAgree(x: Bytes)
    requires x != []
    ensures var a, b := DecodeInteger(x, MAX_INT32), DecodeInteger(x, MAX_INT64);
            && (a.NotInteger? <==> b.NotInteger?)
            && (!a.NotInteger? ==> ValueOf(a) == ValueOf(b))
            && (a != b <==> !a.NotInteger? && MAX_INT32 < ValueOf(a) <= MAX_INT64)
  {
  }

  /** A lone minus sign is the integer zero. */
  lemma LoneMinus()
    ensures DecodeInteger([MINUS], MAX_INT32) == Signed(0)
  {
  }
}
