/** `multiplyInGF` of the GF(2^8) multiplication tool
    (src/components/aether-vault/gf28-multiplication.tsx:32-48): the loop of `gMul`
    (src/lib/ciphers/aes-steps.ts:106-116) between hex-string input and output. The
    tool's form lets through only one or two hex digits for the value (`hexRegex`,
    line 24) and a two-digit multiplier from a fixed list (line 28). */
module GfTool {
  import opened JsText
  import opened AesBytes
  import opened AesField

  /** `/^[0-9a-fA-F]{1,2}$/`, the inputs the form passes. */
  predicate IsShortHex(s: string) { 1 <= |s| <= 2 && AllHex(s) }

  /** `parseInt(s, 16)` of one or two hex digits. */
  function HexByte(s: string): (b: byte)
    requires IsShortHex(s)
    ensures |s| == 1 ==> b as int == HexValue(s[0])
    ensures |s| == 2 ==> b as int == 16 * HexValue(s[0]) + HexValue(s[1])
  {
    ByteValue(if |s| == 1 then ParseByte('0', s[0]) else ParseByte(s[0], s[1]));
    if |s| == 1 then
      ParseByteParts('0', s[0]);
      ParseByte('0', s[0])
    else
      ParseByteParts(s[0], s[1]);
      ParseByte(s[0], s[1])
  }

  lemma ByteValue(b: byte)
    ensures b as int == 16 * ((b >> 4) as int) + (b & 15) as int
  {
  }

  /** What `multiplyInGF(stra, strb)` returns: the low byte of the accumulator after
      the eight rounds, as `toString(16).toUpperCase().padStart(2, '0')`. */
  function MultiplyInGF(stra: string, strb: string): (r: string)
    requires IsShortHex(stra) && IsShortHex(strb)
    ensures |r| == 2 && AllUpperHex(r)
  {
    HexPair(Low(Product(HexByte(stra) as bv32, HexByte(strb) as bv32, 0, 8)))
  }

  /** `multiplyInGF` as the source runs it (lines 32-48). */
  method MultiplyInGFLoop(stra: string, strb: string) returns (r: string)
    requires IsShortHex(stra) && IsShortHex(strb)
    ensures r == MultiplyInGF(stra, strb)
  {
    hide HexByte, Product, HexPair, Low;
    var a: bv32 := HexByte(stra) as bv32;
    var b: bv32 := HexByte(strb) as bv32;
    var result: bv32 := 0;
    ghost var target := Product(a, b, result, 8);
    for i := 0 to 8
      invariant Product(a, b, result, 8 - i) == target
    {
      ProductUnfold(a, b, result, 8 - i);
      ghost var a0, b0, p0 := a, b, result;
      if b & 1 != 0 {
        result := result ^ a;
      }
      assert result == Accumulated(p0, a0, b0);
      var highBitSet := a & 0x80 != 0;
      a := a << 1;
      if highBitSet {
        a := a ^ 0x1B;
      }
      assert a == Doubled(a0);
      b := b >> 1;
    }
    ProductDone(a, b, result);
    r := HexPair(Low(result));
  }

  /** The tool computes `gMul` of the parsed inputs: read back, its answer is the byte
      `gMul(parseInt(stra, 16), parseInt(strb, 16))`. */
  lemma AgreesWithGMul(stra: string, strb: string)
    requires IsShortHex(stra) && IsShortHex(strb)
    ensures MultiplyInGF(stra, strb) == HexPair(GMul(HexByte(stra), HexByte(strb)))
    ensures IsHexDigit(MultiplyInGF(stra, strb)[0]) && IsHexDigit(MultiplyInGF(stra, strb)[1])
    ensures ParseByte(MultiplyInGF(stra, strb)[0], MultiplyInGF(stra, strb)[1]) == GMul(HexByte(stra), HexByte(strb))
  {
    hide HexByte, HexPair, GMul, Product, ParseByte, Low;
    LowOfProduct(HexByte(stra), HexByte(strb));
    ParseOfHexPair(GMul(HexByte(stra), HexByte(strb)));
  }

  /** Multiplying by "01", on either side, gives back the value as two upper-case
      digits, zero-padded. */
  lemma TimesOne(s: string)
    requires IsShortHex(s)
    ensures MultiplyInGF(s, "01") == HexPair(HexByte(s))
    ensures MultiplyInGF("01", s) == HexPair(HexByte(s))
    ensures |s| == 1 ==> MultiplyInGF(s, "01") == ['0', UpperChar(s[0])]
    ensures |s| == 2 ==> MultiplyInGF(s, "01") == ToUpper(s)
  {
    hide GMul, Product, ParseByte, Low;
    MultiplierValues();
    AgreesWithGMul(s, "01");
    AgreesWithGMul("01", s);
    GMulOne(HexByte(s));
    GMulOneLeft(HexByte(s));
    if |s| == 1 {
      HexPairOfParse('0', s[0]);
    } else {
      HexPairOfParse(s[0], s[1]);
    }
  }

  lemma MultiplierValues()
    ensures HexByte("01") == 1 && HexByte("02") == 2
  {
    ParseByteParts('0', '1');
    ByteValue(ParseByte('0', '1'));
    ParseByteParts('0', '2');
    ByteValue(ParseByte('0', '2'));
  }

  /** The multipliers the form offers (line 28): "02", "03", "09", "0b", "0d", "0e". */
  predicate IsToolMultiplier(m: string)
  {
    m == "02" || m == "03" || m == "09" || m == "0b" || m == "0d" || m == "0e"
  }

  /** With one of the form's multipliers the operands can be swapped. */
  lemma ToolMultiplierCommutes(s: string, m: string)
    requires IsShortHex(s) && IsToolMultiplier(m)
    ensures IsShortHex(m) && MultiplyInGF(s, m) == MultiplyInGF(m, s)
  {
    var c := HexByte(m);
    assert c == 2 || c == 3 || c == 9 || c == 11 || c == 13 || c == 14;
    AgreesWithGMul(s, m);
    AgreesWithGMul(m, s);
    GMulCommutesWithTableMultiplier(HexByte(s), c);
  }

  /** Multiplying by "02" is `xtime`: a doubling with 0x1B folded in when bit 7 of the
      value was set (lines 41-44). */
  lemma TimesTwo(s: string)
    requires IsShortHex(s)
    ensures MultiplyInGF(s, "02") == HexPair(Xtime(HexByte(s)))
    ensures HexByte(s) & 0x80 == 0 ==> MultiplyInGF(s, "02") == HexPair(HexByte(s) << 1)
    ensures HexByte(s) & 0x80 != 0 ==> MultiplyInGF(s, "02") == HexPair((HexByte(s) << 1) ^ 0x1B)
  {
    hide HexPair, GMul, Product, ParseByte, Low;
    MultiplierValues();
    AgreesWithGMul(s, "02");
    GMulByTwo(HexByte(s));
  }
}
