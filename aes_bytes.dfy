/** The bytes of the AES-128 trace engine. Every cell of the source's 4x4 state is a
    two-digit upper-case hex string: `blockToState` cuts it from the input
    (src/lib/ciphers/aes-steps.ts:121), the S-box tables hold such strings, and
    `mixColumns`/`addRoundKey` format a number in [0, 256) with
    `toString(16).padStart(2, '0').toUpperCase()` (lines 161-164, 174). The model keeps
    the value of a cell as a byte and turns it into hex text only where the source
    reads or writes text. */
module AesBytes {
  import opened JsText

  type byte = bv8

  /** `parseInt(c, 16)` of one hex digit, as four bits. */
  function Nibble(c: char): (n: bv4)
    requires IsHexDigit(c)
  {
    HexValue(c) as bv4
  }

  lemma NibbleValue(c: char)
    requires IsHexDigit(c)
    ensures Nibble(c) as int == HexValue(c)
  {
    SmallToNibble(HexValue(c));
  }

  lemma SmallToNibble(v: int)
    requires 0 <= v < 16
    ensures (v as bv4) as int == v
  {
  }

  /** `parseInt(hi + lo, 16)`: the byte written by two hex digits. */
  function ParseByte(hi: char, lo: char): byte
    requires IsHexDigit(hi) && IsHexDigit(lo)
  {
    Join(Nibble(hi), Nibble(lo))
  }

  /** The byte whose high and low four bits are h and l. */
  function Join(h: bv4, l: bv4): byte
  {
    ((h as byte) << 4) | l as byte
  }

  /** `v.toString(16).padStart(2, '0').toUpperCase()` for a byte value v. */
  function HexPair(b: byte): (s: string)
    ensures |s| == 2 && AllUpperHex(s)
  {
    [HexDigit((b >> 4) as int), HexDigit((b & 15) as int)]
  }

  /** The four bits of each half of a parsed byte are the values of its digits. */
  lemma ParseByteParts(hi: char, lo: char)
    requires IsHexDigit(hi) && IsHexDigit(lo)
    ensures (ParseByte(hi, lo) >> 4) as int == HexValue(hi)
    ensures (ParseByte(hi, lo) & 15) as int == HexValue(lo)
  {
    NibbleValue(hi);
    NibbleValue(lo);
    JoinHalves(Nibble(hi), Nibble(lo));
  }

  lemma JoinHalves(h: bv4, l: bv4)
    ensures (Join(h, l) >> 4) as int == h as int
    ensures (Join(h, l) & 15) as int == l as int
  {
  }

  /** Formatting a parsed byte gives back its two digits, in upper case. */
  lemma HexPairOfParse(hi: char, lo: char)
    requires IsHexDigit(hi) && IsHexDigit(lo)
    ensures HexPair(ParseByte(hi, lo)) == [UpperChar(hi), UpperChar(lo)]
  {
    ParseByteParts(hi, lo);
    HexDigitOfValue(hi);
    HexDigitOfValue(lo);
  }

  /** Parsing the formatted byte gives back the byte. */
  lemma ParseOfHexPair(b: byte)
    ensures IsHexDigit(HexPair(b)[0]) && IsHexDigit(HexPair(b)[1])
    ensures ParseByte(HexPair(b)[0], HexPair(b)[1]) == b
  {
    ParseOfDigits(b, (b >> 4) as int, (b & 15) as int);
  }

  lemma ParseOfDigits(b: byte, hi: int, lo: int)
    requires hi == (b >> 4) as int && lo == (b & 15) as int
    ensures 0 <= hi < 16 && 0 <= lo < 16
    ensures ParseByte(HexDigit(hi), HexDigit(lo)) == b
  {
    NibbleOfDigit(hi);
    NibbleOfDigit(lo);
    HalvesJoin(b, Nibble(HexDigit(hi)), Nibble(HexDigit(lo)));
  }

  lemma NibbleOfDigit(v: int)
    requires 0 <= v < 16
    ensures IsHexDigit(HexDigit(v)) && Nibble(HexDigit(v)) as int == v
  {
    SmallToNibble(v);
  }

  lemma HalvesJoin(b: byte, h: bv4, l: bv4)
    requires h as int == (b >> 4) as int && l as int == (b & 15) as int
    ensures Join(h, l) == b
  {
  }
}
