/** Multiplication in GF(2^8) as `gMul` computes it (src/lib/ciphers/aes-steps.ts:106-116),
    following section 4.2 of FIPS 197.

    The loop works on JavaScript numbers under 32-bit bitwise operators: `a` is doubled
    every round and is never cut back to eight bits, so the accumulator `p` may carry bits
    above bit 7 until the final `p & 0xFF`. The model keeps that: the loop state is
    three 32-bit values. A byte input never comes near bit 31 in eight rounds. */
module AesField {
  import opened AesBytes

  /** The new `a` of one round (lines 111-112): doubled, with 0x1B folded in when bit 7
      was set. Bits above bit 7 are kept, as under JavaScript's 32-bit `<<`. */
  function Doubled(a: bv32): bv32
  {
    if a & 0x80 != 0 then (a << 1) ^ 0x1B else a << 1
  }

  /** The new `p` of one round (line 110): `a` is added when the low bit of `b` is set. */
  function Accumulated(p: bv32, a: bv32, b: bv32): bv32
  {
    if b & 1 != 0 then p ^ a else p
  }

  /** `p` after k more rounds from the loop state (a, b, p). */
  function Product(a: bv32, b: bv32, p: bv32, k: nat): bv32
    decreases k
  {
    if k == 0 then p else Product(Doubled(a), b >> 1, Accumulated(p, a, b), k - 1)
  }

  /** What `gMul(a, b)` returns for bytes a and b: the low byte of `p` after eight rounds
      from `p = 0`. */
  function GMul(a: byte, b: byte): byte
  {
    (Product(a as bv32, b as bv32, 0, 8) & 0xFF) as byte
  }

  /** `gMul` as the source runs it (lines 106-116). */
  method GMulLoop(a0: byte, b0: byte) returns (r: byte)
    ensures r == GMul(a0, b0)
  {
    var a: bv32, b: bv32, p: bv32 := a0 as bv32, b0 as bv32, 0;
    ghost var target := Product(a, b, p, 8);
    for counter := 0 to 8
      invariant Product(a, b, p, 8 - counter) == target
    {
      ProductUnfold(a, b, p, 8 - counter);
      a, b, p := MulRound(a, b, p);
    }
    r := (p & 0xFF) as byte;
    LowByteOfProduct(a0, b0, p, r);
  }

  /** The body of the loop (lines 109-113), in the source's order. */
  method MulRound(a0: bv32, b0: bv32, p0: bv32) returns (a: bv32, b: bv32, p: bv32)
    ensures a == Doubled(a0) && b == b0 >> 1 && p == Accumulated(p0, a0, b0)
  {
    a, b, p := a0, b0, p0;
    if b & 1 != 0 {
      p := p ^ a;
    }
    var hiBitSet := a & 0x80 != 0;
    a := a << 1;
    if hiBitSet {
      a := a ^ 0x1B;
    }
    b := b >> 1;
  }

  lemma ProductUnfold(a: bv32, b: bv32, p: bv32, k: nat)
    requires k > 0
    ensures Product(a, b, p, k) == Product(Doubled(a), b >> 1, Accumulated(p, a, b), k - 1)
  {
  }

  lemma ProductDone(a: bv32, b: bv32, p: bv32)
    ensures Product(a, b, p, 0) == p
  {
  }

  lemma LowByteOfProduct(a: byte, b: byte, p: bv32, r: byte)
    requires p == Product(a as bv32, b as bv32, 0, 8) && r == (p & 0xFF) as byte
    ensures r == GMul(a, b)
  {
  }

  /** Eight rounds written out. */
  function EightRounds(a: bv32, b: bv32, p: bv32): bv32
  {
    var a1, b1, p1 := Doubled(a), b >> 1, Accumulated(p, a, b);
    var a2, b2, p2 := Doubled(a1), b1 >> 1, Accumulated(p1, a1, b1);
    var a3, b3, p3 := Doubled(a2), b2 >> 1, Accumulated(p2, a2, b2);
    var a4, b4, p4 := Doubled(a3), b3 >> 1, Accumulated(p3, a3, b3);
    var a5, b5, p5 := Doubled(a4), b4 >> 1, Accumulated(p4, a4, b4);
    var a6, b6, p6 := Doubled(a5), b5 >> 1, Accumulated(p5, a5, b5);
    var a7, b7, p7 := Doubled(a6), b6 >> 1, Accumulated(p6, a6, b6);
    Accumulated(p7, a7, b7)
  }

  lemma Unrolled(a: bv32, b: bv32, p: bv32)
    ensures Product(a, b, p, 8) == EightRounds(a, b, p)
  {
    var a1, b1, p1 := Doubled(a), b >> 1, Accumulated(p, a, b);
    var a2, b2, p2 := Doubled(a1), b1 >> 1, Accumulated(p1, a1, b1);
    var a3, b3, p3 := Doubled(a2), b2 >> 1, Accumulated(p2, a2, b2);
    var a4, b4, p4 := Doubled(a3), b3 >> 1, Accumulated(p3, a3, b3);
    var a5, b5, p5 := Doubled(a4), b4 >> 1, Accumulated(p4, a4, b4);
    var a6, b6, p6 := Doubled(a5), b5 >> 1, Accumulated(p5, a5, b5);
    var a7, b7, p7 := Doubled(a6), b6 >> 1, Accumulated(p6, a6, b6);
    ProductUnfold(a, b, p, 8);
    ProductUnfold(a1, b1, p1, 7);
    ProductUnfold(a2, b2, p2, 6);
    ProductUnfold(a3, b3, p3, 5);
    ProductUnfold(a4, b4, p4, 4);
    ProductUnfold(a5, b5, p5, 3);
    ProductUnfold(a6, b6, p6, 2);
    ProductUnfold(a7, b7, p7, 1);
  }

  /** `xtime` of section 4.2.1 of FIPS 197: multiplication by x, reduced by the
      polynomial x^8 + x^4 + x^3 + x + 1 whose low byte is 0x1B. */
  function Xtime(a: byte): byte
  {
    if a & 0x80 == 0 then a << 1 else (a << 1) ^ 0x1B
  }

  /** 1 is the unit: `gMul(a, 1)` is a. */
  lemma GMulOne(a: byte)
    ensures GMul(a, 1) == a
  {
    Unrolled(a as bv32, 1 as bv32, 0);
  }

  /** Multiplying by 2 is `xtime` with the reduction constant 0x1B. */
  lemma GMulTwo(a: byte)
    ensures GMul(2, a) == Xtime(a)
  {
    Unrolled(2 as bv32, a as bv32, 0);
  }

  /** `xtime` distributes over exclusive or. */
  lemma XtimeLinear(x: byte, y: byte)
    ensures Xtime(x ^ y) == Xtime(x) ^ Xtime(y)
  {
    if x & 0x80 == 0 {
      if y & 0x80 == 0 { assert (x ^ y) & 0x80 == 0; } else { assert (x ^ y) & 0x80 != 0; }
    } else {
      if y & 0x80 == 0 { assert (x ^ y) & 0x80 != 0; } else { assert (x ^ y) & 0x80 == 0; }
    }
  }

  /** The multipliers of `mixColumns` and `invMixColumns` as sums of powers of x:
      3 = x + 1, 9 = x^3 + 1, 11 = x^3 + x + 1, 13 = x^3 + x^2 + 1, 14 = x^3 + x^2 + x. */
  lemma GMulThree(a: byte)
    ensures GMul(3, a) == Xtime(a) ^ a
  {
    Unrolled(3 as bv32, a as bv32, 0);
  }

  lemma GMulNine(a: byte)
    ensures GMul(9, a) == Xtime(Xtime(Xtime(a))) ^ a
  {
    Unrolled(9 as bv32, a as bv32, 0);
  }

  lemma GMulEleven(a: byte)
    ensures GMul(11, a) == Xtime(Xtime(Xtime(a))) ^ Xtime(a) ^ a
  {
    Unrolled(11 as bv32, a as bv32, 0);
  }

  lemma GMulThirteen(a: byte)
    ensures GMul(13, a) == Xtime(Xtime(Xtime(a))) ^ Xtime(Xtime(a)) ^ a
  {
    Unrolled(13 as bv32, a as bv32, 0);
  }

  lemma GMulFourteen(a: byte)
    ensures GMul(14, a) == Xtime(Xtime(Xtime(a))) ^ Xtime(Xtime(a)) ^ Xtime(a)
  {
    Unrolled(14 as bv32, a as bv32, 0);
  }

  /** The low byte of a 32-bit loop value. */
  function Low(x: bv32): byte
  {
    (x & 0xFF) as byte
  }

  /** What `gMul` returns is the low byte of the accumulator. */
  lemma LowOfProduct(a: byte, b: byte)
    ensures GMul(a, b) == Low(Product(a as bv32, b as bv32, 0, 8))
  {
  }

  lemma LowOfByte(a: byte)
    ensures Low(a as bv32) == a
  {
  }

  /** The low byte of a doubled value is `xtime` of its low byte: bits above bit 7
      never come back into the low byte. */
  lemma LowDoubled(x: bv32)
    ensures Low(Doubled(x)) == Xtime(Low(x))
  {
  }

  lemma LowXor(x: bv32, y: bv32)
    ensures Low(x ^ y) == Low(x) ^ Low(y)
  {
  }

  /** With no multiplier bits left the accumulator stays as it is. */
  lemma {:induction false} ProductOfZero(a: bv32, p: bv32, k: nat)
    ensures Product(a, 0, p, k) == p
    decreases k
  {
    if k > 0 {
      ProductUnfold(a, 0, p, k);
      ProductOfZero(Doubled(a), p, k - 1);
    }
  }

  /** The low bytes of the doubled values are the powers of `xtime`. */
  lemma LowPowers(x: bv32, a: byte)
    requires Low(x) == a
    ensures Low(Doubled(x)) == Xtime(a)
    ensures Low(Doubled(Doubled(x))) == Xtime(Xtime(a))
    ensures Low(Doubled(Doubled(Doubled(x)))) == Xtime(Xtime(Xtime(a)))
  {
    LowDoubled(x);
    LowDoubled(Doubled(x));
    LowDoubled(Doubled(Doubled(x)));
  }

  lemma LowSum2(x: bv32, y: bv32, u: byte, v: byte)
    requires Low(x) == u && Low(y) == v
    ensures Low(x ^ y) == u ^ v
  {
    LowXor(x, y);
  }

  lemma LowSum3(x: bv32, y: bv32, z: bv32, u: byte, v: byte, w: byte)
    requires Low(x) == u && Low(y) == v && Low(z) == w
    ensures Low(x ^ y ^ z) == u ^ v ^ w
  {
    LowXor(x, y);
    LowXor(x ^ y, z);
  }

  // The multipliers of the tables on the right-hand side. With `GMulTwo` to
  // `GMulFourteen` they give `gMul(a, c) == gMul(c, a)` for each of them.

  /** `gMul(a, 0x02)`, the multiplier on the right. */
  lemma GMulByTwo(a: byte)
    ensures GMul(a, 2) == Xtime(a)
  {
    hide GMul, Product, Doubled, Xtime, Low;
    LowOfProduct(a, 2);
    ProductByTwo(a as bv32);
    LowOfByte(a);
    LowByTwo(a as bv32, a);
  }

  lemma ProductByTwo(x: bv32)
    ensures Product(x, 2, 0, 8) == Doubled(x)
  {
    hide Doubled, Product;
    ProductUnfold(x, 2, 0, 8);
    ProductUnfold(Doubled(x), 1, 0, 7);
    ProductOfZero(Doubled(Doubled(x)), Doubled(x), 6);
  }

  lemma LowByTwo(x: bv32, a: byte)
    requires Low(x) == a
    ensures Low(Doubled(x)) == Xtime(a)
  {
    LowPowers(x, a);
  }

  /** `gMul(a, 0x03)`, the multiplier on the right. */
  lemma GMulByThree(a: byte)
    ensures GMul(a, 3) == Xtime(a) ^ a
  {
    hide GMul, Product, Doubled, Xtime, Low;
    LowOfProduct(a, 3);
    ProductByThree(a as bv32);
    LowOfByte(a);
    LowByThree(a as bv32, a);
  }

  lemma ProductByThree(x: bv32)
    ensures Product(x, 3, 0, 8) == x ^ Doubled(x)
  {
    hide Doubled, Product;
    ProductUnfold(x, 3, 0, 8);
    ProductUnfold(Doubled(x), 1, x, 7);
    ProductOfZero(Doubled(Doubled(x)), x ^ Doubled(x), 6);
  }

  lemma LowByThree(x: bv32, a: byte)
    requires Low(x) == a
    ensures Low(x ^ Doubled(x)) == Xtime(a) ^ a
  {
    LowPowers(x, a);
    LowSum2(x, Doubled(x), a, Xtime(a));
  }

  /** `gMul(a, 0x09)`, the multiplier on the right. */
  lemma GMulByNine(a: byte)
    ensures GMul(a, 9) == Xtime(Xtime(Xtime(a))) ^ a
  {
    hide GMul, Product, Doubled, Xtime, Low;
    LowOfProduct(a, 9);
    ProductByNine(a as bv32);
    LowOfByte(a);
    LowByNine(a as bv32, a);
  }

  lemma ProductByNine(x: bv32)
    ensures Product(x, 9, 0, 8) == x ^ Doubled(Doubled(Doubled(x)))
  {
    hide Doubled, Product;
    ProductUnfold(x, 9, 0, 8);
    ProductUnfold(Doubled(x), 4, x, 7);
    ProductUnfold(Doubled(Doubled(x)), 2, x, 6);
    ProductUnfold(Doubled(Doubled(Doubled(x))), 1, x, 5);
    ProductOfZero(Doubled(Doubled(Doubled(Doubled(x)))), x ^ Doubled(Doubled(Doubled(x))), 4);
  }

  lemma LowByNine(x: bv32, a: byte)
    requires Low(x) == a
    ensures Low(x ^ Doubled(Doubled(Doubled(x)))) == Xtime(Xtime(Xtime(a))) ^ a
  {
    LowPowers(x, a);
    LowSum2(x, Doubled(Doubled(Doubled(x))), a, Xtime(Xtime(Xtime(a))));
  }

  /** `gMul(a, 0x0B)`, the multiplier on the right. */
  lemma GMulByEleven(a: byte)
    ensures GMul(a, 11) == Xtime(Xtime(Xtime(a))) ^ Xtime(a) ^ a
  {
    hide GMul, Product, Doubled, Xtime, Low;
    LowOfProduct(a, 11);
    ProductByEleven(a as bv32);
    LowOfByte(a);
    LowByEleven(a as bv32, a);
  }

  lemma ProductByEleven(x: bv32)
    ensures Product(x, 11, 0, 8) == x ^ Doubled(x) ^ Doubled(Doubled(Doubled(x)))
  {
    hide Doubled, Product;
    ProductUnfold(x, 11, 0, 8);
    ProductUnfold(Doubled(x), 5, x, 7);
    ProductUnfold(Doubled(Doubled(x)), 2, x ^ Doubled(x), 6);
    ProductUnfold(Doubled(Doubled(Doubled(x))), 1, x ^ Doubled(x), 5);
    ProductOfZero(Doubled(Doubled(Doubled(Doubled(x)))), x ^ Doubled(x) ^ Doubled(Doubled(Doubled(x))), 4);
  }

  lemma LowByEleven(x: bv32, a: byte)
    requires Low(x) == a
    ensures Low(x ^ Doubled(x) ^ Doubled(Doubled(Doubled(x)))) == Xtime(Xtime(Xtime(a))) ^ Xtime(a) ^ a
  {
    LowPowers(x, a);
    LowSum3(x, Doubled(x), Doubled(Doubled(Doubled(x))), a, Xtime(a), Xtime(Xtime(Xtime(a))));
  }

  /** `gMul(a, 0x0D)`, the multiplier on the right. */
  lemma GMulByThirteen(a: byte)
    ensures GMul(a, 13) == Xtime(Xtime(Xtime(a))) ^ Xtime(Xtime(a)) ^ a
  {
    hide GMul, Product, Doubled, Xtime, Low;
    LowOfProduct(a, 13);
    ProductByThirteen(a as bv32);
    LowOfByte(a);
    LowByThirteen(a as bv32, a);
  }

  lemma ProductByThirteen(x: bv32)
    ensures Product(x, 13, 0, 8) == x ^ Doubled(Doubled(x)) ^ Doubled(Doubled(Doubled(x)))
  {
    hide Doubled, Product;
    ProductUnfold(x, 13, 0, 8);
    ProductUnfold(Doubled(x), 6, x, 7);
    ProductUnfold(Doubled(Doubled(x)), 3, x, 6);
    ProductUnfold(Doubled(Doubled(Doubled(x))), 1, x ^ Doubled(Doubled(x)), 5);
    ProductOfZero(Doubled(Doubled(Doubled(Doubled(x)))), x ^ Doubled(Doubled(x)) ^ Doubled(Doubled(Doubled(x))), 4);
  }

  lemma LowByThirteen(x: bv32, a: byte)
    requires Low(x) == a
    ensures Low(x ^ Doubled(Doubled(x)) ^ Doubled(Doubled(Doubled(x)))) == Xtime(Xtime(Xtime(a))) ^ Xtime(Xtime(a)) ^ a
  {
    LowPowers(x, a);
    LowSum3(x, Doubled(Doubled(x)), Doubled(Doubled(Doubled(x))), a, Xtime(Xtime(a)), Xtime(Xtime(Xtime(a))));
  }

  /** `gMul(a, 0x0E)`, the multiplier on the right. */
  lemma GMulByFourteen(a: byte)
    ensures GMul(a, 14) == Xtime(Xtime(Xtime(a))) ^ Xtime(Xtime(a)) ^ Xtime(a)
  {
    hide GMul, Product, Doubled, Xtime, Low;
    LowOfProduct(a, 14);
    ProductByFourteen(a as bv32);
    LowOfByte(a);
    LowByFourteen(a as bv32, a);
  }

  lemma ProductByFourteen(x: bv32)
    ensures Product(x, 14, 0, 8) == Doubled(x) ^ Doubled(Doubled(x)) ^ Doubled(Doubled(Doubled(x)))
  {
    hide Doubled, Product;
    ProductUnfold(x, 14, 0, 8);
    ProductUnfold(Doubled(x), 7, 0, 7);
    ProductUnfold(Doubled(Doubled(x)), 3, Doubled(x), 6);
    ProductUnfold(Doubled(Doubled(Doubled(x))), 1, Doubled(x) ^ Doubled(Doubled(x)), 5);
    ProductOfZero(Doubled(Doubled(Doubled(Doubled(x)))), Doubled(x) ^ Doubled(Doubled(x)) ^ Doubled(Doubled(Doubled(x))), 4);
  }

  lemma LowByFourteen(x: bv32, a: byte)
    requires Low(x) == a
    ensures Low(Doubled(x) ^ Doubled(Doubled(x)) ^ Doubled(Doubled(Doubled(x)))) == Xtime(Xtime(Xtime(a))) ^ Xtime(Xtime(a)) ^ Xtime(a)
  {
    LowPowers(x, a);
    LowSum3(Doubled(x), Doubled(Doubled(x)), Doubled(Doubled(Doubled(x))), Xtime(a), Xtime(Xtime(a)), Xtime(Xtime(Xtime(a))));
  }

  /** 1 is the unit on the left as well. */
  lemma GMulOneLeft(a: byte)
    ensures GMul(1, a) == a
  {
    Unrolled(1 as bv32, a as bv32, 0);
  }

  /** `gMul` commutes when one operand is a multiplier of the tables. */
  lemma GMulCommutesWithTableMultiplier(a: byte, c: byte)
    requires c == 1 || c == 2 || c == 3 || c == 9 || c == 11 || c == 13 || c == 14
    ensures GMul(a, c) == GMul(c, a)
  {
    if c == 1 {
      GMulOne(a); GMulOneLeft(a);
    } else if c == 2 {
      GMulByTwo(a); GMulTwo(a);
    } else if c == 3 {
      GMulByThree(a); GMulThree(a);
    } else if c == 9 {
      GMulByNine(a); GMulNine(a);
    } else if c == 11 {
      GMulByEleven(a); GMulEleven(a);
    } else if c == 13 {
      GMulByThirteen(a); GMulThirteen(a);
    } else {
      GMulByFourteen(a); GMulFourteen(a);
    }
  }
}
