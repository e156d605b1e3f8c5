/** The bit-string helpers of the DES trace engine (src/lib/ciphers/des-steps.ts:135-172).
    As in the source, a bit string is a string of '0' and '1' characters and a block
    is a string of hexadecimal digits. */
module DesBits {
  import opened JsText
  import opened DesTables
  import ModArith

  predicate IsBit(c: char) { c == '0' || c == '1' }
  predicate AllBits(s: string) { forall i :: 0 <= i < |s| ==> IsBit(s[i]) }

  function Bit(v: int): char
  {
    if v % 2 == 1 then '1' else '0'
  }

  function BitValue(c: char): int
  {
    if c == '1' then 1 else 0
  }

  function Pow2(n: nat): nat
  {
    if n == 0 then 1 else 2 * Pow2(n - 1)
  }

  /** `parseInt(b, 2)` on a non-empty string of bits, most significant bit first. */
  function BitsValue(b: string): (v: nat)
    requires AllBits(b)
    ensures v < Pow2(|b|)
  {
    if b == [] then 0 else 2 * BitsValue(b[..|b| - 1]) + BitValue(b[|b| - 1])
  }

  lemma Pow2UpToFour(n: nat)
    requires n <= 4
    ensures Pow2(n) <= 16
  {
  }

  /** `v.toString(2).padStart(4, '0')` for a 4-bit value. */
  function Nibble(v: int): (b: string)
    requires 0 <= v < 16
    ensures |b| == 4 && AllBits(b)
  {
    [Bit(v / 8), Bit(v / 4), Bit(v / 2), Bit(v)]
  }

  /** Four bits read back as a number give the value they were written from. */
  lemma NibbleValue(v: int)
    requires 0 <= v < 16
    ensures BitsValue(Nibble(v)) == v
  {
    var b := Nibble(v);
    FourBitsValue(b);
    assert v == 8 * (v / 8) + 4 * (v / 4 % 2) + 2 * (v / 2 % 2) + v % 2;
  }

  /** Four bits are the nibble of their value. */
  lemma ValueNibble(b: string)
    requires |b| == 4 && AllBits(b)
    ensures Nibble(BitsValue(b)) == b
  {
    FourBitsValue(b);
    var v := BitsValue(b);
    var b0, b1, b2, b3 := BitValue(b[0]), BitValue(b[1]), BitValue(b[2]), BitValue(b[3]);
    ModArith.DivModUnique(v, 8, b0, 4 * b1 + 2 * b2 + b3);
    ModArith.DivModUnique(v, 4, 2 * b0 + b1, 2 * b2 + b3);
    ModArith.DivModUnique(v, 2, 4 * b0 + 2 * b1 + b2, b3);
    ModArith.DivModUnique(2 * b0 + b1, 2, b0, b1);
    ModArith.DivModUnique(4 * b0 + 2 * b1 + b2, 2, 2 * b0 + b1, b2);
  }

  /** Four bits have the value 8 b0 + 4 b1 + 2 b2 + b3. */
  lemma FourBitsValue(b: string)
    requires |b| == 4 && AllBits(b)
    ensures BitsValue(b) == 8 * BitValue(b[0]) + 4 * BitValue(b[1]) + 2 * BitValue(b[2]) + BitValue(b[3])
  {
    assert b[..3][..2] == b[..2] && b[..2][..1] == b[..1] && b[..1][..0] == [];
    assert BitsValue(b[..1]) == BitValue(b[0]);
    assert BitsValue(b[..2]) == 2 * BitValue(b[0]) + BitValue(b[1]);
    assert BitsValue(b[..3]) == 2 * BitsValue(b[..2]) + BitValue(b[2]);
  }

  /** `hexToBinary` (lines 135-137): four bits per hexadecimal digit. */
  function HexToBinary(h: string): (b: string)
    requires AllHex(h)
    ensures |b| == 4 * |h| && AllBits(b)
  {
    if h == [] then [] else Nibble(HexValue(h[0])) + HexToBinary(h[1..])
  }

  lemma TimesFourMod(n: int)
    ensures (4 * n) % 4 == 0
  {
    ModArith.DivModUnique(4 * n, 4, n, 0);
  }

  /** Bits 4k .. 4k+3 of `hexToBinary(h)` are the nibble of digit k. */
  lemma {:induction false} HexToBinaryDigit(h: string, k: int)
    requires AllHex(h) && 0 <= k < |h|
    ensures HexToBinary(h)[4 * k .. 4 * k + 4] == Nibble(HexValue(h[k]))
  {
    if k > 0 {
      HexToBinaryDigit(h[1..], k - 1);
      assert h[1..][k - 1] == h[k];
    }
  }

  /** The 4-bit chunk of `binaryToHex` that starts at `i`, possibly short at the end. */
  function Chunk(b: string, i: nat): string
    requires i < |b|
  {
    if i + 4 <= |b| then b[i .. i + 4] else b[i..]
  }

  /** One chunk as a hex digit: `parseInt(chunk, 2).toString(16).toUpperCase()`. */
  function ChunkDigit(chunk: string): (c: char)
    requires AllBits(chunk) && |chunk| <= 4
    ensures IsUpperHexDigit(c)
  {
    Pow2UpToFour(|chunk|);
    HexDigit(BitsValue(chunk))
  }

  /** `binaryToHex` (lines 139-145): one digit per four bits, the last chunk possibly
      shorter. */
  function BinaryToHex(b: string): (h: string)
    requires AllBits(b)
    ensures |h| == (|b| + 3) / 4 && AllUpperHex(h)
    decreases |b|
  {
    if b == [] then []
    else [ChunkDigit(Chunk(b, 0))] + BinaryToHex(b[|Chunk(b, 0)|..])
  }

  /** The loop of `binaryToHex`. */
  method BinaryToHexLoop(bin: string) returns (hex: string)
    requires AllBits(bin)
    ensures hex == BinaryToHex(bin)
  {
    hex := "";
    var i := 0;
    while i < |bin|
      invariant 0 <= i
      invariant hex + BinaryToHex(Rest(bin, i)) == BinaryToHex(bin)
      decreases |bin| - i
    {
      var chunk := if i + 4 <= |bin| then bin[i .. i + 4] else bin[i..];
      BinaryToHexStep(bin, i);
      var digit := ChunkDigit(chunk);
      AppendAssoc(hex, [digit], BinaryToHex(Rest(bin, i + 4)));
      hex := hex + [digit];
      i := i + 4;
    }
  }

  /** The bits from position i on, none once i is past the end. */
  function Rest(b: string, i: nat): string
  {
    if i <= |b| then b[i..] else []
  }

  lemma BinaryToHexStep(b: string, i: nat)
    requires AllBits(b) && i < |b|
    ensures AllBits(Chunk(b, i)) && |Chunk(b, i)| <= 4 && AllBits(Rest(b, i + 4))
    ensures BinaryToHex(Rest(b, i)) == [ChunkDigit(Chunk(b, i))] + BinaryToHex(Rest(b, i + 4))
  {
    assert Chunk(b[i..], 0) == Chunk(b, i);
    assert b[i..][|Chunk(b, i)|..] == Rest(b, i + 4);
  }

  /** Converting digits to bits and back gives the digits in upper case. */
  lemma {:induction false} HexRoundTrip(h: string)
    requires AllHex(h)
    ensures BinaryToHex(HexToBinary(h)) == ToUpper(h)
  {
    if h != [] {
      HexFirst(h);
      HexRoundTrip(h[1..]);
      ToUpperCons(h);
    }
  }

  /** The first digit's four bits come back as that digit in upper case. */
  lemma HexFirst(h: string)
    requires AllHex(h) && h != []
    ensures BinaryToHex(HexToBinary(h)) == [UpperChar(h[0])] + BinaryToHex(HexToBinary(h[1..]))
  {
    var b := HexToBinary(h);
    var n := Nibble(HexValue(h[0]));
    assert b == n + HexToBinary(h[1..]);
    assert Chunk(b, 0) == n;
    assert b[4..] == HexToBinary(h[1..]);
    NibbleValue(HexValue(h[0]));
    HexDigitOfValue(h[0]);
  }

  /** Converting whole nibbles to digits and back gives the same bits. */
  lemma {:induction false} BinaryRoundTrip(b: string)
    requires AllBits(b) && |b| % 4 == 0
    ensures HexToBinary(BinaryToHex(b)) == b
  {
    if b != [] {
      var first, rest := b[..4], b[4..];
      assert Chunk(b, 0) == first;
      var d := ChunkDigit(first);
      assert BinaryToHex(b) == [d] + BinaryToHex(rest);
      BinaryRoundTrip(rest);
      ValueNibble(first);
      UpperHexIsHex(BinaryToHex(rest));
      HexToBinaryCons(d, BinaryToHex(rest));
      assert b == first + rest;
    }
  }

  lemma HexToBinaryCons(d: char, rest: string)
    requires IsHexDigit(d) && AllHex(rest)
    ensures HexToBinary([d] + rest) == Nibble(HexValue(d)) + HexToBinary(rest)
  {
    assert ([d] + rest)[1..] == rest;
  }

  /** Upper-casing a hex string does not change its bits. */
  lemma {:induction false} HexToBinaryUpper(h: string)
    requires AllHex(h)
    ensures AllHex(ToUpper(h)) && HexToBinary(ToUpper(h)) == HexToBinary(h)
  {
    if h != [] {
      HexToBinaryUpper(h[1..]);
      var u := ToUpper(h);
      assert u[1..] == ToUpper(h[1..]);
      HexValueUpper(h[0]);
    }
  }

  /** Upper-casing a hex digit keeps its value. */
  lemma HexValueUpper(c: char)
    requires IsHexDigit(c)
    ensures IsHexDigit(UpperChar(c)) && HexValue(UpperChar(c)) == HexValue(c)
  {
  }

  // ---- performXOR ----

  /** The bit loop of `performXOR` (lines 150-153): the length comes from `b1`, and
      a position that `b2` lacks compares unequal and gives '1'. */
  function XorBits(b1: string, b2: string): (r: string)
    ensures |r| == |b1| && AllBits(r)
  {
    seq(|b1|, i requires 0 <= i < |b1| => if i < |b2| && b1[i] == b2[i] then '0' else '1')
  }

  method XorBitsLoop(b1: string, b2: string) returns (res: string)
    ensures res == XorBits(b1, b2)
  {
    res := "";
    for i := 0 to |b1|
      invariant res == XorBits(b1[..i], b2)
    {
      assert XorBits(b1[..i + 1], b2) == res + [if b1[i] == (if i < |b2| then b2[i] else '?') && i < |b2| then '0' else '1'];
      res := res + [if i < |b2| && b1[i] == b2[i] then '0' else '1'];
    }
    assert b1[..|b1|] == b1;
  }

  /** `performXOR` (lines 147-155). */
  function PerformXor(hex1: string, hex2: string): (r: string)
    requires AllHex(hex1) && AllHex(hex2)
    ensures |r| == |hex1| && AllUpperHex(r)
  {
    BinaryToHex(XorBits(HexToBinary(hex1), HexToBinary(hex2)))
  }

  method PerformXorLoop(hex1: string, hex2: string) returns (r: string)
    requires AllHex(hex1) && AllHex(hex2)
    ensures r == PerformXor(hex1, hex2)
  {
    var res := XorBitsLoop(HexToBinary(hex1), HexToBinary(hex2));
    r := BinaryToHexLoop(res);
  }

  /** The bits of a XOR are the exclusive or of the operands' bits. */
  lemma XorBitsOf(hex1: string, hex2: string)
    requires AllHex(hex1) && AllHex(hex2) && |hex1| == |hex2|
    ensures HexToBinary(PerformXor(hex1, hex2)) == XorBits(HexToBinary(hex1), HexToBinary(hex2))
  {
    var x := XorBits(HexToBinary(hex1), HexToBinary(hex2));
    TimesFourMod(|hex1|);
    BinaryRoundTrip(x);
  }

  /** On bit strings of equal length a result bit is '1' exactly where the operands differ. */
  lemma XorBitsDiffer(b1: string, b2: string, i: int)
    requires AllBits(b1) && AllBits(b2) && |b1| == |b2| && 0 <= i < |b1|
    ensures XorBits(b1, b2)[i] == '1' <==> b1[i] != b2[i]
  {
  }

  /** Where the second operand is shorter, its missing bits count as different. */
  lemma XorPastEnd(hex1: string, hex2: string, i: int)
    requires AllHex(hex1) && AllHex(hex2) && 4 * |hex2| <= i < 4 * |hex1|
    ensures HexToBinary(PerformXor(hex1, hex2))[i] == '1'
  {
    BinaryRoundTrip(XorBits(HexToBinary(hex1), HexToBinary(hex2)));
  }

  lemma XorCommutes(hex1: string, hex2: string)
    requires AllHex(hex1) && AllHex(hex2) && |hex1| == |hex2|
    ensures PerformXor(hex1, hex2) == PerformXor(hex2, hex1)
  {
    assert XorBits(HexToBinary(hex1), HexToBinary(hex2)) == XorBits(HexToBinary(hex2), HexToBinary(hex1));
  }

  function Zeros(n: nat): (r: string)
  {
    seq(n, _ => '0')
  }

  /** x XOR x is all zeros. */
  lemma XorSelf(hex: string)
    requires AllHex(hex)
    ensures PerformXor(hex, hex) == Zeros(|hex|)
  {
    var b := HexToBinary(hex);
    assert XorBits(b, b) == Zeros(4 * |hex|);
    ZerosToHex(|hex|);
  }

  lemma {:induction false} ZerosToHex(n: nat)
    ensures BinaryToHex(Zeros(4 * n)) == Zeros(n)
  {
    if n > 0 {
      var z := Zeros(4 * n);
      assert Chunk(z, 0) == Zeros(4);
      assert z[4..] == Zeros(4 * (n - 1));
      assert BitsValue(Zeros(4)) == 0 by {
        assert Zeros(4)[..3][..2][..1] == Zeros(1);
      }
      ZerosToHex(n - 1);
    }
  }

  /** XOR with the same value twice gives back the first operand, in upper case. */
  lemma XorCancel(a: string, f: string)
    requires AllHex(a) && AllHex(f) && |a| == |f|
    ensures PerformXor(PerformXor(a, f), f) == ToUpper(a)
  {
    var ba, bf := HexToBinary(a), HexToBinary(f);
    XorBitsOf(a, f);
    XorBitsTwice(ba, bf);
    HexRoundTrip(a);
  }

  lemma XorBitsTwice(a: string, f: string)
    requires AllBits(a) && AllBits(f) && |a| == |f|
    ensures XorBits(XorBits(a, f), f) == a
  {
  }

  // ---- permutation ----

  /** The bit loop of `permutation` (lines 159-162): bit `box[q] - 1` of the input for
      every entry of the table; an entry outside the input contributes nothing. */
  function PermuteBits(box: seq<int>, b: string): (r: string)
    requires AllBits(b)
    ensures |r| <= |box| && AllBits(r)
  {
    if box == [] then "" else PermuteBits(box[..|box| - 1], b) + CharAt(b, box[|box| - 1] - 1)
  }

  method PermuteBitsLoop(box: seq<int>, binary: string) returns (res: string)
    requires AllBits(binary)
    ensures res == PermuteBits(box, binary)
  {
    res := "";
    for i := 0 to |box|
      invariant res == PermuteBits(box[..i], binary)
    {
      assert box[..i + 1][..i] == box[..i];
      res := res + CharAt(binary, box[i] - 1);
    }
    assert box[..|box|] == box;
  }

  /** `permutation` (lines 157-164). */
  function Permutation(box: seq<int>, hex: string): (r: string)
    requires AllHex(hex)
    ensures AllUpperHex(r)
  {
    BinaryToHex(PermuteBits(box, HexToBinary(hex)))
  }

  method PermutationLoop(box: seq<int>, hex: string) returns (r: string)
    requires AllHex(hex)
    ensures r == Permutation(box, hex)
  {
    var res := PermuteBitsLoop(box, HexToBinary(hex));
    r := BinaryToHexLoop(res);
  }

  /** With every entry in range, output bit q is input bit box[q] - 1. */
  lemma {:induction false} PermuteBitsWithin(box: seq<int>, b: string)
    requires AllBits(b) && PositionsWithin(box, |b|)
    ensures |PermuteBits(box, b)| == |box|
    ensures forall q :: 0 <= q < |box| ==> PermuteBits(box, b)[q] == b[box[q] - 1]
  {
    if box != [] {
      PermuteBitsWithin(box[..|box| - 1], b);
    }
  }

  /** An entry past the input is skipped, so the output is shorter than the table. */
  lemma PermuteBitsSkips(box: seq<int>, b: string, p: int)
    requires AllBits(b) && !(1 <= p <= |b|)
    ensures PermuteBits(box + [p], b) == PermuteBits(box, b)
  {
    assert (box + [p])[..|box|] == box;
  }

  /** `permutation(box, hex)` yields box.length bits, bit q being input bit box[q] - 1. */
  lemma PermutationBits(box: seq<int>, hex: string)
    requires AllHex(hex) && PositionsWithin(box, 4 * |hex|) && |box| % 4 == 0
    ensures |Permutation(box, hex)| == |box| / 4
    ensures HexToBinary(Permutation(box, hex)) == PermuteBits(box, HexToBinary(hex))
    ensures forall q :: 0 <= q < |box| ==>
      HexToBinary(Permutation(box, hex))[q] == HexToBinary(hex)[box[q] - 1]
  {
    PermuteBitsWithin(box, HexToBinary(hex));
    BinaryRoundTrip(PermuteBits(box, HexToBinary(hex)));
  }

  /** A table that undoes another restores the block, in upper case. */
  lemma PermutationUndone(outer: seq<int>, inner: seq<int>, hex: string)
    requires AllHex(hex) && |inner| % 4 == 0 && |outer| == 4 * |hex|
    requires PositionsWithin(inner, 4 * |hex|) && Undoes(outer, inner)
    ensures Permutation(outer, Permutation(inner, hex)) == ToUpper(hex)
  {
    PermutationBits(inner, hex);
    PermuteBitsUndone(outer, inner, HexToBinary(hex), HexToBinary(Permutation(inner, hex)));
    HexRoundTrip(hex);
  }

  /** Bits permuted by `inner` and then by a table that undoes it are the bits. */
  lemma PermuteBitsUndone(outer: seq<int>, inner: seq<int>, b: string, m: string)
    requires AllBits(b) && AllBits(m) && |m| == |inner| && |outer| == |b| && PositionsWithin(inner, |b|)
    requires forall q :: 0 <= q < |inner| ==> m[q] == b[inner[q] - 1]
    requires Undoes(outer, inner)
    ensures PermuteBits(outer, m) == b
  {
    PermuteBitsWithin(outer, m);
  }

  // ---- leftCircularShift ----

  /** Rounds 1, 2, 9 and 16 rotate the key halves by one place, the others by two. */
  function ShiftAmount(round: int): (k: int)
    ensures k == 1 || k == 2
  {
    if round == 1 || round == 2 || round == 9 || round == 16 then 1 else 2
  }

  /** `leftCircularShift` (lines 166-172), with `substring` clamping to the string. */
  function LeftCircularShift(input: string, round: int): (r: string)
  {
    if round == 1 || round == 2 || round == 9 || round == 16 then
      Substring(input, 1, |input|) + CharAt(input, 0)
    else
      Substring(input, 2, |input|) + Substring(input, 0, 2)
  }

  /** The shift keeps the length and moves the character at (i + k) mod n to i. */
  lemma ShiftRotates(input: string, round: int)
    requires |input| >= 2
    ensures |LeftCircularShift(input, round)| == |input|
    ensures forall i :: 0 <= i < |input| ==>
      LeftCircularShift(input, round)[i] == input[(i + ShiftAmount(round)) % |input|]
  {
    var r, k, n := LeftCircularShift(input, round), ShiftAmount(round), |input|;
    forall i | 0 <= i < n ensures r[i] == input[(i + k) % n] {
      if i + k < n {
        ModArith.DivModUnique(i + k, n, 0, i + k);
      } else {
        ModArith.DivModUnique(i + k, n, 1, i + k - n);
      }
    }
  }

  /** The shift keeps a bit string a bit string of the same length. */
  lemma ShiftKeepsBits(input: string, round: int)
    requires |input| >= 2 && AllBits(input)
    ensures |LeftCircularShift(input, round)| == |input| && AllBits(LeftCircularShift(input, round))
  {
    ShiftRotates(input, round);
    var r := LeftCircularShift(input, round);
    forall i | 0 <= i < |r| ensures IsBit(r[i]) {
      assert r[i] == input[(i + ShiftAmount(round)) % |input|];
    }
  }

  /** The total rotation over rounds 1 .. n. */
  function TotalShift(n: nat): (t: nat)
  {
    if n == 0 then 0 else TotalShift(n - 1) + ShiftAmount(n)
  }

  /** A key half after the shifts of rounds 1 .. n. */
  function ShiftedBy(half: string, n: nat): (r: string)
  {
    if n == 0 then half else LeftCircularShift(ShiftedBy(half, n - 1), n)
  }

  /** cur is the 28-bit half rotated left by t. */
  predicate RotatedBy(cur: string, half: string, t: int)
    requires |half| == 28
  {
    |cur| == 28 && forall i :: 0 <= i < 28 ==> cur[i] == half[(i + t) % 28]
  }

  /** After n rounds the half is rotated by the total of the round shifts. */
  lemma {:induction false} ShiftedByRotates(half: string, n: nat)
    requires |half| == 28
    ensures RotatedBy(ShiftedBy(half, n), half, TotalShift(n))
  {
    if n == 0 {
      forall i | 0 <= i < 28 ensures ShiftedBy(half, n)[i] == half[(i + TotalShift(n)) % 28] {
        SmallMod(i, 28);
      }
    } else {
      ShiftedByRotates(half, n - 1);
      ShiftStep(half, ShiftedBy(half, n - 1), ShiftedBy(half, n), n, TotalShift(n - 1), TotalShift(n));
    }
  }

  lemma SmallMod(i: int, m: int)
    requires 0 <= i < m
    ensures i % m == i
  {
  }

  /** One more round's shift adds its amount to the rotation of a 28-bit half. */
  lemma ShiftStep(half: string, prev: string, cur: string, round: int, t: int, total: int)
    requires |half| == 28 && cur == LeftCircularShift(prev, round)
    requires total == t + ShiftAmount(round)
    requires RotatedBy(prev, half, t)
    ensures RotatedBy(cur, half, total)
  {
    ShiftRotates(prev, round);
    RotationsAdd(half, prev, cur, t, ShiftAmount(round), total);
  }

  /** Rotating by t and then by k is rotating by t + k. */
  lemma RotationsAdd(half: string, prev: string, cur: string, t: int, k: int, total: int)
    requires |half| == 28 && |prev| == |half| && |cur| == |half| && total == t + k
    requires forall i :: 0 <= i < |half| ==> prev[i] == half[(i + t) % 28]
    requires forall i :: 0 <= i < |half| ==> cur[i] == prev[(i + k) % 28]
    ensures forall i :: 0 <= i < |half| ==> cur[i] == half[(i + total) % 28]
  {
    forall i | 0 <= i < 28 ensures cur[i] == half[(i + total) % 28] {
      var j := (i + k) % 28;
      assert cur[i] == prev[j];
      ModSum(i + k, t, 28);
      assert (i + k) + t == i + total;
    }
  }

  lemma ModSum(a: int, b: int, m: int)
    requires m > 0
    ensures (a % m + b) % m == (a + b) % m
  {
    var q, r := a / m, a % m;
    var q', r' := (r + b) / m, (r + b) % m;
    assert r + b == m * q' + r';
    assert a + b == m * (q + q') + r';
    ModArith.DivModUnique(a + b, m, q + q', r');
  }

  /** The sixteen round shifts add up to 28, a whole turn of a 28-bit half. */
  lemma SixteenShiftsAreOneTurn()
    ensures TotalShift(16) == 28
  {
    assert TotalShift(2) == 2;
    assert TotalShift(8) == 14;
    assert TotalShift(15) == 27;
  }

  /** After all sixteen rounds a 28-bit half is back where it started. */
  lemma HalfReturns(half: string)
    requires |half| == 28
    ensures ShiftedBy(half, 16) == half
  {
    ShiftedByRotates(half, 16);
    SixteenShiftsAreOneTurn();
    forall i | 0 <= i < 28 ensures ShiftedBy(half, 16)[i] == half[i] {
      ModArith.DivModUnique(i + 28, 28, 1, i);
    }
  }
}
