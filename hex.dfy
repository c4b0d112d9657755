/** The hex decoding macros of the pattern scanner: `getBits` turns one
    pattern character into a nibble, `getByte` two characters into a byte. */
module Hex {
  import opened Machine

  /** Reference table: the value of a hex digit is its index here. */
  const DIGITS: string := "0123456789abcdef"

  predicate IsHexDigit(c: char)
  {
    '0' <= c <= '9' || 'a' <= c <= 'f' || 'A' <= c <= 'F'
  }

  /** C `tolower` in the "C" locale: only 'A'..'Z' change. */
  function ToLowerAscii(c: char): char
  {
    if 'A' <= c <= 'Z' then (c as int + 32) as char else c
  }

  /** `x & ~0x20`: the character code with bit 5 (the ASCII case bit) cleared. */
  function ClearCaseBit(c: char): int
  {
    var n := c as int;
    if (n / 32) % 2 == 1 then n - 32 else n
  }

  /** `getBits(x)`: a hex digit of either case gives its value; every other
      character contributes nibble 0. */
  function GetBits(c: char): (v: nat)
    ensures v < 16
    ensures IsHexDigit(c) ==> DIGITS[v] == ToLowerAscii(c)
    ensures !IsHexDigit(c) ==> v == 0
  {
    var u := ClearCaseBit(c);
    if 'A' as int <= u <= 'F' as int then u - 'A' as int + 0xA
    else if '0' <= c <= '9' then c as int - '0' as int
    else 0
  }

  /** `getByte(x)`: the high nibble from the first character, the low nibble
      from the second. Written arithmetically; `GetByteIsShiftOr` proves it
      equal to the macro's `getBits(x[0]) << 4 | getBits(x[1])` on bytes. */
  function GetByte(hi: char, lo: char): (b: Byte)
    ensures b / 16 == GetBits(hi) && b % 16 == GetBits(lo)
    ensures IsHexDigit(hi) && IsHexDigit(lo) ==> HexPair(b, false) == [ToLowerAscii(hi), ToLowerAscii(lo)]
  {
    16 * GetBits(hi) + GetBits(lo)
  }

  /** The macro's bit-level formula computes the same byte. */
  lemma GetByteIsShiftOr(hi: char, lo: char)
    ensures GetByte(hi, lo) == ((GetBits(hi) as bv8 << 4) | GetBits(lo) as bv8) as int
  {
    ShiftOrIsArithmetic(GetBits(hi), GetBits(lo));
  }

  /** Shifting a nibble up by four and or-ing in another nibble is the
      arithmetic `16 * hi + lo`. */
  lemma ShiftOrIsArithmetic(h: nat, l: nat)
    requires h < 16 && l < 16
    ensures ((h as bv8 << 4) | l as bv8) as int == 16 * h + l
  {
    NibbleConversion(h);
    NibbleConversion(l);
    var hb, lb := h as bv8, l as bv8;
    assert (hb << 4) | lb == hb * 16 + lb;
    assert (hb * 16 + lb) as int == (hb * 16) as int + lb as int;
    assert (hb * 16) as int == 16 * (hb as int);
  }

  lemma NibbleConversion(n: nat)
    requires n < 16
    ensures (n as bv8) as int == n
  {
  }

  /** Decoding ignores letter case entirely. */
  lemma GetByteCaseInsensitive(hi: char, lo: char)
    ensures GetByte(hi, lo) == GetByte(ToLowerAscii(hi), ToLowerAscii(lo))
  {
    GetBitsCaseInsensitive(hi);
    GetBitsCaseInsensitive(lo);
  }

  lemma GetBitsCaseInsensitive(c: char)
    ensures GetBits(c) == GetBits(ToLowerAscii(c))
  {
    if IsHexDigit(c) {
      DigitsInjective(GetBits(c), GetBits(ToLowerAscii(c)));
    }
  }

  lemma DigitsInjective(i: nat, j: nat)
    requires i < 16 && j < 16 && DIGITS[i] == DIGITS[j]
    ensures i == j
  {
  }

  /** Formatting a byte as two hex digits (the inverse of `getByte`). */
  function HexPair(b: Byte, upper: bool): (s: string)
    ensures |s| == 2 && IsHexDigit(s[0]) && IsHexDigit(s[1])
  {
    var hi := DIGITS[b / 16];
    var lo := DIGITS[b % 16];
    if upper then [ToUpperHex(hi), ToUpperHex(lo)] else [hi, lo]
  }

  function ToUpperHex(c: char): char
  {
    if 'a' <= c <= 'f' then (c as int - 32) as char else c
  }

  /** Round trip: `getByte` recovers any byte from its two-digit spelling,
      in upper or lower case. */
  lemma {:induction false} GetByteHexPair(b: Byte, upper: bool)
    ensures var s := HexPair(b, upper); GetByte(s[0], s[1]) == b
  {
    var s := HexPair(b, upper);
    DigitValue(b / 16, upper);
    DigitValue(b % 16, upper);
    assert GetBits(s[0]) == b / 16;
    assert GetBits(s[1]) == b % 16;
  }

  lemma DigitValue(d: nat, upper: bool)
    requires d < 16
    ensures GetBits(if upper then ToUpperHex(DIGITS[d]) else DIGITS[d]) == d
  {
    var c := if upper then ToUpperHex(DIGITS[d]) else DIGITS[d];
    assert ToLowerAscii(c) == DIGITS[d];
    DigitsInjective(GetBits(c), d);
  }
}
