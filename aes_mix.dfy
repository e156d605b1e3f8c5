/** The column arithmetic of `mixColumns` and `invMixColumns`
    (src/lib/ciphers/aes-steps.ts:153-167, 197-210), sections 5.1.3 and 5.3.3 of FIPS 197,
    and the proof that the second undoes the first.

    Each output byte of a column is an exclusive or of `gMul` products of the four input
    bytes. The proof keeps exclusive or behind the function `Xor`, so that it proceeds by
    replacing equal terms: linearity of multiplication by 9, 11, 13 and 14, one exchange of
    a 4x4 sum, and four identities in one byte (`Diagonal0` to `Diagonal3`) which say that
    the products of the two coefficient rows add up to 1 on the diagonal and to 0 off it. */
module AesMix {
  import opened AesBytes
  import opened AesField

  /** Byte r of a column after `mixColumns` (lines 161-164): the rows of the matrix
      of coefficients are 2 3 1 1, 1 2 3 1, 1 1 2 3 and 3 1 1 2. */
  function MixedByte(r: int, s0: byte, s1: byte, s2: byte, s3: byte): byte
    requires 0 <= r < 4
  {
    if r == 0 then GMul(2, s0) ^ GMul(3, s1) ^ s2 ^ s3
    else if r == 1 then s0 ^ GMul(2, s1) ^ GMul(3, s2) ^ s3
    else if r == 2 then s0 ^ s1 ^ GMul(2, s2) ^ GMul(3, s3)
    else GMul(3, s0) ^ s1 ^ s2 ^ GMul(2, s3)
  }

  /** Byte r of a column after `invMixColumns` (lines 206-209): the rows are
      14 11 13 9, 9 14 11 13, 13 9 14 11 and 11 13 9 14. */
  function UnmixedByte(r: int, s0: byte, s1: byte, s2: byte, s3: byte): byte
    requires 0 <= r < 4
  {
    if r == 0 then GMul(14, s0) ^ GMul(11, s1) ^ GMul(13, s2) ^ GMul(9, s3)
    else if r == 1 then GMul(9, s0) ^ GMul(14, s1) ^ GMul(11, s2) ^ GMul(13, s3)
    else if r == 2 then GMul(13, s0) ^ GMul(9, s1) ^ GMul(14, s2) ^ GMul(11, s3)
    else GMul(11, s0) ^ GMul(13, s1) ^ GMul(9, s2) ^ GMul(14, s3)
  }

  /** `invMixColumns` undoes `mixColumns`: row r of the column comes back. */
  lemma RowRestored(r: int, s0: byte, s1: byte, s2: byte, s3: byte)
    requires 0 <= r < 4
    ensures UnmixedByte(r, MixedByte(0, s0, s1, s2, s3), MixedByte(1, s0, s1, s2, s3),
                           MixedByte(2, s0, s1, s2, s3), MixedByte(3, s0, s1, s2, s3)) == [s0, s1, s2, s3][r]
  {
    if r == 0 {
      RowZeroRestored(s0, s1, s2, s3);
    } else if r == 1 {
      SecondRowRestored(s0, s1, s2, s3);
    } else if r == 2 {
      ThirdRowRestored(s0, s1, s2, s3);
    } else {
      FourthRowRestored(s0, s1, s2, s3);
    }
  }

  lemma RowZeroRestored(s0: byte, s1: byte, s2: byte, s3: byte)
    ensures UnmixedByte(0, MixedByte(0, s0, s1, s2, s3), MixedByte(1, s0, s1, s2, s3), MixedByte(2, s0, s1, s2, s3), MixedByte(3, s0, s1, s2, s3)) == s0
  {
    Unmixed0(MixedByte(0, s0, s1, s2, s3), MixedByte(1, s0, s1, s2, s3), MixedByte(2, s0, s1, s2, s3), MixedByte(3, s0, s1, s2, s3));
    FirstRowRestored(s0, s1, s2, s3);
  }

  lemma SecondRowRestored(s0: byte, s1: byte, s2: byte, s3: byte)
    ensures UnmixedByte(1, MixedByte(0, s0, s1, s2, s3), MixedByte(1, s0, s1, s2, s3), MixedByte(2, s0, s1, s2, s3), MixedByte(3, s0, s1, s2, s3)) == s1
  {
    Unmixed1(MixedByte(0, s0, s1, s2, s3), MixedByte(1, s0, s1, s2, s3), MixedByte(2, s0, s1, s2, s3), MixedByte(3, s0, s1, s2, s3));
    Sum4Rotate(GMul(9, MixedByte(0, s0, s1, s2, s3)), GMul(14, MixedByte(1, s0, s1, s2, s3)), GMul(11, MixedByte(2, s0, s1, s2, s3)), GMul(13, MixedByte(3, s0, s1, s2, s3)));
    MixedTurned(s0, s1, s2, s3);
    FirstRowRestored(s1, s2, s3, s0);
  }

  lemma ThirdRowRestored(s0: byte, s1: byte, s2: byte, s3: byte)
    ensures UnmixedByte(2, MixedByte(0, s0, s1, s2, s3), MixedByte(1, s0, s1, s2, s3), MixedByte(2, s0, s1, s2, s3), MixedByte(3, s0, s1, s2, s3)) == s2
  {
    Unmixed2(MixedByte(0, s0, s1, s2, s3), MixedByte(1, s0, s1, s2, s3), MixedByte(2, s0, s1, s2, s3), MixedByte(3, s0, s1, s2, s3));
    Sum4Rotate(GMul(13, MixedByte(0, s0, s1, s2, s3)), GMul(9, MixedByte(1, s0, s1, s2, s3)), GMul(14, MixedByte(2, s0, s1, s2, s3)), GMul(11, MixedByte(3, s0, s1, s2, s3)));
    Sum4Rotate(GMul(9, MixedByte(1, s0, s1, s2, s3)), GMul(14, MixedByte(2, s0, s1, s2, s3)), GMul(11, MixedByte(3, s0, s1, s2, s3)), GMul(13, MixedByte(0, s0, s1, s2, s3)));
    MixedTurned(s0, s1, s2, s3);
    MixedTurned(s1, s2, s3, s0);
    FirstRowRestored(s2, s3, s0, s1);
  }

  lemma FourthRowRestored(s0: byte, s1: byte, s2: byte, s3: byte)
    ensures UnmixedByte(3, MixedByte(0, s0, s1, s2, s3), MixedByte(1, s0, s1, s2, s3), MixedByte(2, s0, s1, s2, s3), MixedByte(3, s0, s1, s2, s3)) == s3
  {
    Unmixed3(MixedByte(0, s0, s1, s2, s3), MixedByte(1, s0, s1, s2, s3), MixedByte(2, s0, s1, s2, s3), MixedByte(3, s0, s1, s2, s3));
    Sum4Rotate(GMul(11, MixedByte(0, s0, s1, s2, s3)), GMul(13, MixedByte(1, s0, s1, s2, s3)), GMul(9, MixedByte(2, s0, s1, s2, s3)), GMul(14, MixedByte(3, s0, s1, s2, s3)));
    Sum4Rotate(GMul(13, MixedByte(1, s0, s1, s2, s3)), GMul(9, MixedByte(2, s0, s1, s2, s3)), GMul(14, MixedByte(3, s0, s1, s2, s3)), GMul(11, MixedByte(0, s0, s1, s2, s3)));
    Sum4Rotate(GMul(9, MixedByte(2, s0, s1, s2, s3)), GMul(14, MixedByte(3, s0, s1, s2, s3)), GMul(11, MixedByte(0, s0, s1, s2, s3)), GMul(13, MixedByte(1, s0, s1, s2, s3)));
    MixedTurned(s0, s1, s2, s3);
    MixedTurned(s1, s2, s3, s0);
    MixedTurned(s2, s3, s0, s1);
    FirstRowRestored(s3, s0, s1, s2);
  }

  /** The bytes of an unmixed column as sums of four terms. */
  lemma Unmixed0(m0: byte, m1: byte, m2: byte, m3: byte)
    ensures UnmixedByte(0, m0, m1, m2, m3) == Sum4(GMul(14, m0), GMul(11, m1), GMul(13, m2), GMul(9, m3))
  {
    Sum4Flat(GMul(14, m0), GMul(11, m1), GMul(13, m2), GMul(9, m3));
  }

  lemma Unmixed1(m0: byte, m1: byte, m2: byte, m3: byte)
    ensures UnmixedByte(1, m0, m1, m2, m3) == Sum4(GMul(9, m0), GMul(14, m1), GMul(11, m2), GMul(13, m3))
  {
    Sum4Flat(GMul(9, m0), GMul(14, m1), GMul(11, m2), GMul(13, m3));
  }

  lemma Unmixed2(m0: byte, m1: byte, m2: byte, m3: byte)
    ensures UnmixedByte(2, m0, m1, m2, m3) == Sum4(GMul(13, m0), GMul(9, m1), GMul(14, m2), GMul(11, m3))
  {
    Sum4Flat(GMul(13, m0), GMul(9, m1), GMul(14, m2), GMul(11, m3));
  }

  lemma Unmixed3(m0: byte, m1: byte, m2: byte, m3: byte)
    ensures UnmixedByte(3, m0, m1, m2, m3) == Sum4(GMul(11, m0), GMul(13, m1), GMul(9, m2), GMul(14, m3))
  {
    Sum4Flat(GMul(11, m0), GMul(13, m1), GMul(9, m2), GMul(14, m3));
  }

  /** Row 0 of `invMixColumns` after `mixColumns` gives back byte 0 of the column. The
      other rows are this one applied to the column turned round, since both matrices
      are circulant. */
  lemma FirstRowRestored(s0: byte, s1: byte, s2: byte, s3: byte)
    ensures Sum4(GMul(14, MixedByte(0, s0, s1, s2, s3)), GMul(11, MixedByte(1, s0, s1, s2, s3)),
                 GMul(13, MixedByte(2, s0, s1, s2, s3)), GMul(9, MixedByte(3, s0, s1, s2, s3))) == s0
  {
    MixedAsSums(s0, s1, s2, s3);
    Spread(14, GMul(2, s0), GMul(3, s1), s2, s3);
    Spread(11, s0, GMul(2, s1), GMul(3, s2), s3);
    Spread(13, s0, s1, GMul(2, s2), GMul(3, s3));
    Spread(9, GMul(3, s0), s1, s2, GMul(2, s3));
    Transpose(GMul(14, GMul(2, s0)), GMul(14, GMul(3, s1)), GMul(14, s2), GMul(14, s3),
              GMul(11, s0), GMul(11, GMul(2, s1)), GMul(11, GMul(3, s2)), GMul(11, s3),
              GMul(13, s0), GMul(13, s1), GMul(13, GMul(2, s2)), GMul(13, GMul(3, s3)),
              GMul(9, GMul(3, s0)), GMul(9, s1), GMul(9, s2), GMul(9, GMul(2, s3)));
    Diagonal0(s0);
    Diagonal1(s1);
    Diagonal2(s2);
    Diagonal3(s3);
    Sum4Flat(s0, 0, 0, 0);
  }

  /** The four bytes of a mixed column as sums of four terms. */
  lemma MixedAsSums(s0: byte, s1: byte, s2: byte, s3: byte)
    ensures MixedByte(0, s0, s1, s2, s3) == Sum4(GMul(2, s0), GMul(3, s1), s2, s3)
    ensures MixedByte(1, s0, s1, s2, s3) == Sum4(s0, GMul(2, s1), GMul(3, s2), s3)
    ensures MixedByte(2, s0, s1, s2, s3) == Sum4(s0, s1, GMul(2, s2), GMul(3, s3))
    ensures MixedByte(3, s0, s1, s2, s3) == Sum4(GMul(3, s0), s1, s2, GMul(2, s3))
  {
    Mixed0(s0, s1, s2, s3);
    Mixed1(s0, s1, s2, s3);
    Mixed2(s0, s1, s2, s3);
    Mixed3(s0, s1, s2, s3);
  }

  lemma Mixed0(s0: byte, s1: byte, s2: byte, s3: byte)
    ensures MixedByte(0, s0, s1, s2, s3) == Sum4(GMul(2, s0), GMul(3, s1), s2, s3)
  {
    Sum4Flat(GMul(2, s0), GMul(3, s1), s2, s3);
  }

  lemma Mixed1(s0: byte, s1: byte, s2: byte, s3: byte)
    ensures MixedByte(1, s0, s1, s2, s3) == Sum4(s0, GMul(2, s1), GMul(3, s2), s3)
  {
    Sum4Flat(s0, GMul(2, s1), GMul(3, s2), s3);
  }

  lemma Mixed2(s0: byte, s1: byte, s2: byte, s3: byte)
    ensures MixedByte(2, s0, s1, s2, s3) == Sum4(s0, s1, GMul(2, s2), GMul(3, s3))
  {
    Sum4Flat(s0, s1, GMul(2, s2), GMul(3, s3));
  }

  lemma Mixed3(s0: byte, s1: byte, s2: byte, s3: byte)
    ensures MixedByte(3, s0, s1, s2, s3) == Sum4(GMul(3, s0), s1, s2, GMul(2, s3))
  {
    Sum4Flat(GMul(3, s0), s1, s2, GMul(2, s3));
  }

  /** Mixing the column turned round by one gives the mixed column turned round. */
  lemma MixedTurned(s0: byte, s1: byte, s2: byte, s3: byte)
    ensures MixedByte(0, s1, s2, s3, s0) == MixedByte(1, s0, s1, s2, s3)
    ensures MixedByte(1, s1, s2, s3, s0) == MixedByte(2, s0, s1, s2, s3)
    ensures MixedByte(2, s1, s2, s3, s0) == MixedByte(3, s0, s1, s2, s3)
    ensures MixedByte(3, s1, s2, s3, s0) == MixedByte(0, s0, s1, s2, s3)
  {
    MixedAsSums(s0, s1, s2, s3);
    MixedAsSums(s1, s2, s3, s0);
    Sum4Rotate(s0, GMul(2, s1), GMul(3, s2), s3);
    Sum4Rotate(s0, s1, GMul(2, s2), GMul(3, s3));
    Sum4Rotate(GMul(3, s0), s1, s2, GMul(2, s3));
    Sum4Rotate(GMul(2, s0), GMul(3, s1), s2, s3);
  }

  /** Exclusive or, kept as a function symbol. */
  function Xor(a: byte, b: byte): byte
  {
    a ^ b
  }

  function Sum4(a: byte, b: byte, c: byte, d: byte): byte
  {
    Xor(Xor(a, b), Xor(c, d))
  }

  lemma XorIs(a: byte, b: byte)
    ensures Xor(a, b) == a ^ b
  {
  }

  lemma Sum4Flat(a: byte, b: byte, c: byte, d: byte)
    ensures Sum4(a, b, c, d) == a ^ b ^ c ^ d
  {
    XorIs(a, b);
    XorIs(c, d);
    XorIs(a ^ b, c ^ d);
  }

  lemma Sum4Rotate(a: byte, b: byte, c: byte, d: byte)
    ensures Sum4(a, b, c, d) == Sum4(b, c, d, a)
  {
    Sum4Flat(a, b, c, d);
    Sum4Flat(b, c, d, a);
  }

  /** (a + b) + (c + d) = (a + c) + (b + d). */
  lemma Medial(a: byte, b: byte, c: byte, d: byte)
    ensures Xor(Xor(a, b), Xor(c, d)) == Xor(Xor(a, c), Xor(b, d))
  {
    Sum4Flat(a, b, c, d);
    Sum4Flat(a, c, b, d);
  }

  /** A sum of sixteen terms by rows equals the sum by columns. */
  lemma Transpose(b00: byte, b01: byte, b02: byte, b03: byte, b10: byte, b11: byte, b12: byte, b13: byte,
                  b20: byte, b21: byte, b22: byte, b23: byte, b30: byte, b31: byte, b32: byte, b33: byte)
    ensures Sum4(Sum4(b00, b01, b02, b03), Sum4(b10, b11, b12, b13), Sum4(b20, b21, b22, b23), Sum4(b30, b31, b32, b33))
         == Sum4(Sum4(b00, b10, b20, b30), Sum4(b01, b11, b21, b31), Sum4(b02, b12, b22, b32), Sum4(b03, b13, b23, b33))
  {
    Medial(Xor(b00, b01), Xor(b02, b03), Xor(b10, b11), Xor(b12, b13));
    Medial(b00, b01, b10, b11);
    Medial(b02, b03, b12, b13);
    Medial(Xor(b20, b21), Xor(b22, b23), Xor(b30, b31), Xor(b32, b33));
    Medial(b20, b21, b30, b31);
    Medial(b22, b23, b32, b33);
    var p0, p1, p2, p3 := Xor(b00, b10), Xor(b01, b11), Xor(b02, b12), Xor(b03, b13);
    var q0, q1, q2, q3 := Xor(b20, b30), Xor(b21, b31), Xor(b22, b32), Xor(b23, b33);
    Medial(Xor(p0, p1), Xor(p2, p3), Xor(q0, q1), Xor(q2, q3));
    Medial(p0, p1, q0, q1);
    Medial(p2, p3, q2, q3);
  }

  /** `xtime` distributes over `Xor`. */
  lemma XtimeAdditive(x: byte, y: byte)
    ensures Xtime(Xor(x, y)) == Xor(Xtime(x), Xtime(y))
  {
    XtimeLinear(x, y);
    XorIs(x, y);
    XorIs(Xtime(x), Xtime(y));
  }

  /** x, x^2 and x^3 times a sum are the sums of the products. */
  lemma PowersAdditive(x: byte, y: byte)
    ensures Xtime(Xor(x, y)) == Xor(Xtime(x), Xtime(y))
    ensures Xtime(Xtime(Xor(x, y))) == Xor(Xtime(Xtime(x)), Xtime(Xtime(y)))
    ensures Xtime(Xtime(Xtime(Xor(x, y)))) == Xor(Xtime(Xtime(Xtime(x))), Xtime(Xtime(Xtime(y))))
  {
    XtimeAdditive(x, y);
    XtimeAdditive(Xtime(x), Xtime(y));
    XtimeAdditive(Xtime(Xtime(x)), Xtime(Xtime(y)));
  }

  /** Multiplication by each coefficient of `invMixColumns` distributes over
      exclusive or. */
  lemma InverseCoefficientAdditive(c: byte, x: byte, y: byte)
    requires c == 9 || c == 11 || c == 13 || c == 14
    ensures GMul(c, Xor(x, y)) == Xor(GMul(c, x), GMul(c, y))
  {
    PowersAdditive(x, y);
    var x1, x2, x3 := Xtime(x), Xtime(Xtime(x)), Xtime(Xtime(Xtime(x)));
    var y1, y2, y3 := Xtime(y), Xtime(Xtime(y)), Xtime(Xtime(Xtime(y)));
    if c == 9 {
      NineAsSum(x); NineAsSum(y); NineAsSum(Xor(x, y));
      Medial(x3, y3, x, y);
    } else if c == 11 {
      ElevenAsSum(x); ElevenAsSum(y); ElevenAsSum(Xor(x, y));
      Medial(x3, y3, x1, y1);
      Medial(Xor(x3, x1), Xor(y3, y1), x, y);
    } else if c == 13 {
      ThirteenAsSum(x); ThirteenAsSum(y); ThirteenAsSum(Xor(x, y));
      Medial(x3, y3, x2, y2);
      Medial(Xor(x3, x2), Xor(y3, y2), x, y);
    } else {
      FourteenAsSum(x); FourteenAsSum(y); FourteenAsSum(Xor(x, y));
      Medial(x3, y3, x2, y2);
      Medial(Xor(x3, x2), Xor(y3, y2), x1, y1);
    }
  }

  lemma NineAsSum(a: byte)
    ensures GMul(9, a) == Xor(Xtime(Xtime(Xtime(a))), a)
  {
    GMulNine(a);
  }

  lemma ElevenAsSum(a: byte)
    ensures GMul(11, a) == Xor(Xor(Xtime(Xtime(Xtime(a))), Xtime(a)), a)
  {
    GMulEleven(a);
  }

  lemma ThirteenAsSum(a: byte)
    ensures GMul(13, a) == Xor(Xor(Xtime(Xtime(Xtime(a))), Xtime(Xtime(a))), a)
  {
    GMulThirteen(a);
  }

  lemma FourteenAsSum(a: byte)
    ensures GMul(14, a) == Xor(Xor(Xtime(Xtime(Xtime(a))), Xtime(Xtime(a))), Xtime(a))
  {
    GMulFourteen(a);
  }

  /** Multiplication by 2 and by 3, the coefficients of `mixColumns`, distributes over
      exclusive or. */
  lemma ForwardCoefficientAdditive(c: byte, x: byte, y: byte)
    requires c == 2 || c == 3
    ensures GMul(c, Xor(x, y)) == Xor(GMul(c, x), GMul(c, y))
  {
    XtimeAdditive(x, y);
    if c == 2 {
      GMulTwo(x); GMulTwo(y); GMulTwo(Xor(x, y));
    } else {
      ThreeAsSum(x); ThreeAsSum(y); ThreeAsSum(Xor(x, y));
      Medial(Xtime(x), Xtime(y), x, y);
    }
  }

  lemma CoefficientAdditive(c: byte, x: byte, y: byte)
    requires c == 2 || c == 3 || c == 9 || c == 11 || c == 13 || c == 14
    ensures GMul(c, Xor(x, y)) == Xor(GMul(c, x), GMul(c, y))
  {
    if c == 2 || c == 3 {
      ForwardCoefficientAdditive(c, x, y);
    } else {
      InverseCoefficientAdditive(c, x, y);
    }
  }

  /** Multiplication by a coefficient of either matrix spread over a sum of four. */
  lemma Spread(c: byte, a: byte, b: byte, d: byte, e: byte)
    requires c == 2 || c == 3 || c == 9 || c == 11 || c == 13 || c == 14
    ensures GMul(c, Sum4(a, b, d, e)) == Sum4(GMul(c, a), GMul(c, b), GMul(c, d), GMul(c, e))
  {
    CoefficientAdditive(c, Xor(a, b), Xor(d, e));
    CoefficientAdditive(c, a, b);
    CoefficientAdditive(c, d, e);
  }

  lemma ThreeAsSum(a: byte)
    ensures GMul(3, a) == Xor(Xtime(a), a)
  {
    GMulThree(a);
  }

  /** Column i of row 0 of the product of the two matrices: 14·2 + 11 + 13 + 9·3 = 1,
      14·3 + 11·2 + 13 + 9 = 0, 14 + 11·3 + 13·2 + 9 = 0 and 14 + 11 + 13·3 + 9·2 = 0.
      Each product is written out as a sum of the powers v, x·v, ..., x^4·v, and the
      powers cancel in pairs (`Cancel0` to `Cancel3`). */
  lemma Diagonal0(v: byte)
    ensures Sum4(GMul(14, GMul(2, v)), GMul(11, v), GMul(13, v), GMul(9, GMul(3, v))) == v
  {
    GMulTwo(v); ThreeAsSum(v);
    PowersAdditive(Xtime(v), v);
    FourteenAsSum(GMul(2, v)); ElevenAsSum(v); ThirteenAsSum(v); NineAsSum(GMul(3, v));
    Cancel0(v, Xtime(v), Xtime(Xtime(v)), Xtime(Xtime(Xtime(v))), Xtime(Xtime(Xtime(Xtime(v)))));
  }

  lemma Diagonal1(v: byte)
    ensures Sum4(GMul(14, GMul(3, v)), GMul(11, GMul(2, v)), GMul(13, v), GMul(9, v)) == 0
  {
    GMulTwo(v); ThreeAsSum(v);
    PowersAdditive(Xtime(v), v);
    FourteenAsSum(GMul(3, v)); ElevenAsSum(GMul(2, v)); ThirteenAsSum(v); NineAsSum(v);
    Cancel1(v, Xtime(v), Xtime(Xtime(v)), Xtime(Xtime(Xtime(v))), Xtime(Xtime(Xtime(Xtime(v)))));
  }

  lemma Diagonal2(v: byte)
    ensures Sum4(GMul(14, v), GMul(11, GMul(3, v)), GMul(13, GMul(2, v)), GMul(9, v)) == 0
  {
    GMulTwo(v); ThreeAsSum(v);
    PowersAdditive(Xtime(v), v);
    FourteenAsSum(v); ElevenAsSum(GMul(3, v)); ThirteenAsSum(GMul(2, v)); NineAsSum(v);
    Cancel2(v, Xtime(v), Xtime(Xtime(v)), Xtime(Xtime(Xtime(v))), Xtime(Xtime(Xtime(Xtime(v)))));
  }

  lemma Diagonal3(v: byte)
    ensures Sum4(GMul(14, v), GMul(11, v), GMul(13, GMul(3, v)), GMul(9, GMul(2, v))) == 0
  {
    GMulTwo(v); ThreeAsSum(v);
    PowersAdditive(Xtime(v), v);
    FourteenAsSum(v); ElevenAsSum(v); ThirteenAsSum(GMul(3, v)); NineAsSum(GMul(2, v));
    Cancel3(v, Xtime(v), Xtime(Xtime(v)), Xtime(Xtime(Xtime(v))), Xtime(Xtime(Xtime(Xtime(v)))));
  }

  /** The sums of powers in `Diagonal0` to `Diagonal3`, with p1 to p4 standing for
      x·v to x^4·v. */
  lemma Cancel0(v: byte, p1: byte, p2: byte, p3: byte, p4: byte)
    ensures Sum4(Xor(Xor(p4, p3), p2), Xor(Xor(p3, p1), v), Xor(Xor(p3, p2), v),
                 Xor(Xor(p4, p3), Xor(p1, v))) == v
  {
    XorIs(p4, p3);
    XorIs(p4 ^ p3, p2);
    XorIs(p3, p1);
    XorIs(p3 ^ p1, v);
    XorIs(p4 ^ p3 ^ p2, p3 ^ p1 ^ v);
    XorIs(p3, p2);
    XorIs(p3 ^ p2, v);
    XorIs(p1, v);
    XorIs(p4 ^ p3, p1 ^ v);
    XorIs(p3 ^ p2 ^ v, p4 ^ p3 ^ p1 ^ v);
    XorIs(p4 ^ p3 ^ p2 ^ p3 ^ p1 ^ v, p3 ^ p2 ^ v ^ p4 ^ p3 ^ p1 ^ v);
  }

  lemma Cancel1(v: byte, p1: byte, p2: byte, p3: byte, p4: byte)
    ensures Sum4(Xor(Xor(Xor(p4, p3), Xor(p3, p2)), Xor(p2, p1)), Xor(Xor(p4, p2), p1),
                 Xor(Xor(p3, p2), v), Xor(p3, v)) == 0
  {
    XorIs(p4, p3);
    XorIs(p3, p2);
    XorIs(p4 ^ p3, p3 ^ p2);
    XorIs(p2, p1);
    XorIs(p4 ^ p3 ^ p3 ^ p2, p2 ^ p1);
    XorIs(p4, p2);
    XorIs(p4 ^ p2, p1);
    XorIs(p4 ^ p3 ^ p3 ^ p2 ^ p2 ^ p1, p4 ^ p2 ^ p1);
    XorIs(p3 ^ p2, v);
    XorIs(p3, v);
    XorIs(p3 ^ p2 ^ v, p3 ^ v);
    XorIs(p4 ^ p3 ^ p3 ^ p2 ^ p2 ^ p1 ^ p4 ^ p2 ^ p1, p3 ^ p2 ^ v ^ p3 ^ v);
  }

  lemma Cancel2(v: byte, p1: byte, p2: byte, p3: byte, p4: byte)
    ensures Sum4(Xor(Xor(p3, p2), p1), Xor(Xor(Xor(p4, p3), Xor(p2, p1)), Xor(p1, v)),
                 Xor(Xor(p4, p3), p1), Xor(p3, v)) == 0
  {
    XorIs(p3, p2);
    XorIs(p3 ^ p2, p1);
    XorIs(p4, p3);
    XorIs(p2, p1);
    XorIs(p4 ^ p3, p2 ^ p1);
    XorIs(p1, v);
    XorIs(p4 ^ p3 ^ p2 ^ p1, p1 ^ v);
    XorIs(p3 ^ p2 ^ p1, p4 ^ p3 ^ p2 ^ p1 ^ p1 ^ v);
    XorIs(p4 ^ p3, p1);
    XorIs(p3, v);
    XorIs(p4 ^ p3 ^ p1, p3 ^ v);
    XorIs(p3 ^ p2 ^ p1 ^ p4 ^ p3 ^ p2 ^ p1 ^ p1 ^ v, p4 ^ p3 ^ p1 ^ p3 ^ v);
  }

  lemma Cancel3(v: byte, p1: byte, p2: byte, p3: byte, p4: byte)
    ensures Sum4(Xor(Xor(p3, p2), p1), Xor(Xor(p3, p1), v),
                 Xor(Xor(Xor(p4, p3), Xor(p3, p2)), Xor(p1, v)), Xor(p4, p1)) == 0
  {
    XorIs(p3, p2);
    XorIs(p3 ^ p2, p1);
    XorIs(p3, p1);
    XorIs(p3 ^ p1, v);
    XorIs(p3 ^ p2 ^ p1, p3 ^ p1 ^ v);
    XorIs(p4, p3);
    XorIs(p4 ^ p3, p3 ^ p2);
    XorIs(p1, v);
    XorIs(p4 ^ p3 ^ p3 ^ p2, p1 ^ v);
    XorIs(p4, p1);
    XorIs(p4 ^ p3 ^ p3 ^ p2 ^ p1 ^ v, p4 ^ p1);
    XorIs(p3 ^ p2 ^ p1 ^ p3 ^ p1 ^ v, p4 ^ p3 ^ p3 ^ p2 ^ p1 ^ v ^ p4 ^ p1);
  }

  // ---- mixColumns undoes invMixColumns ----

  /** `mixColumns` undoes `invMixColumns`: row r of the column comes back. */
  lemma RowRemixed(r: int, s0: byte, s1: byte, s2: byte, s3: byte)
    requires 0 <= r < 4
    ensures MixedByte(r, UnmixedByte(0, s0, s1, s2, s3), UnmixedByte(1, s0, s1, s2, s3),
                         UnmixedByte(2, s0, s1, s2, s3), UnmixedByte(3, s0, s1, s2, s3)) == [s0, s1, s2, s3][r]
  {
    if r == 0 {
      RowZeroRemixed(s0, s1, s2, s3);
    } else if r == 1 {
      SecondRowRemixed(s0, s1, s2, s3);
    } else if r == 2 {
      ThirdRowRemixed(s0, s1, s2, s3);
    } else {
      FourthRowRemixed(s0, s1, s2, s3);
    }
  }

  lemma RowZeroRemixed(s0: byte, s1: byte, s2: byte, s3: byte)
    ensures MixedByte(0, UnmixedByte(0, s0, s1, s2, s3), UnmixedByte(1, s0, s1, s2, s3), UnmixedByte(2, s0, s1, s2, s3), UnmixedByte(3, s0, s1, s2, s3)) == s0
  {
    Mixed0(UnmixedByte(0, s0, s1, s2, s3), UnmixedByte(1, s0, s1, s2, s3), UnmixedByte(2, s0, s1, s2, s3), UnmixedByte(3, s0, s1, s2, s3));
    FirstRowRemixed(s0, s1, s2, s3);
  }

  lemma SecondRowRemixed(s0: byte, s1: byte, s2: byte, s3: byte)
    ensures MixedByte(1, UnmixedByte(0, s0, s1, s2, s3), UnmixedByte(1, s0, s1, s2, s3), UnmixedByte(2, s0, s1, s2, s3), UnmixedByte(3, s0, s1, s2, s3)) == s1
  {
    var u0, u1, u2, u3 := UnmixedByte(0, s0, s1, s2, s3), UnmixedByte(1, s0, s1, s2, s3), UnmixedByte(2, s0, s1, s2, s3), UnmixedByte(3, s0, s1, s2, s3);
    Mixed1(u0, u1, u2, u3);
    Sum4Rotate(u0, GMul(2, u1), GMul(3, u2), u3);
    UnmixedTurned(s0, s1, s2, s3);
    FirstRowRemixed(s1, s2, s3, s0);
  }

  lemma ThirdRowRemixed(s0: byte, s1: byte, s2: byte, s3: byte)
    ensures MixedByte(2, UnmixedByte(0, s0, s1, s2, s3), UnmixedByte(1, s0, s1, s2, s3), UnmixedByte(2, s0, s1, s2, s3), UnmixedByte(3, s0, s1, s2, s3)) == s2
  {
    var u0, u1, u2, u3 := UnmixedByte(0, s0, s1, s2, s3), UnmixedByte(1, s0, s1, s2, s3), UnmixedByte(2, s0, s1, s2, s3), UnmixedByte(3, s0, s1, s2, s3);
    Mixed2(u0, u1, u2, u3);
    Sum4Rotate(u0, u1, GMul(2, u2), GMul(3, u3));
    Sum4Rotate(u1, GMul(2, u2), GMul(3, u3), u0);
    UnmixedTurned(s0, s1, s2, s3);
    UnmixedTurned(s1, s2, s3, s0);
    FirstRowRemixed(s2, s3, s0, s1);
  }

  lemma FourthRowRemixed(s0: byte, s1: byte, s2: byte, s3: byte)
    ensures MixedByte(3, UnmixedByte(0, s0, s1, s2, s3), UnmixedByte(1, s0, s1, s2, s3), UnmixedByte(2, s0, s1, s2, s3), UnmixedByte(3, s0, s1, s2, s3)) == s3
  {
    var u0, u1, u2, u3 := UnmixedByte(0, s0, s1, s2, s3), UnmixedByte(1, s0, s1, s2, s3), UnmixedByte(2, s0, s1, s2, s3), UnmixedByte(3, s0, s1, s2, s3);
    Mixed3(u0, u1, u2, u3);
    Sum4Rotate(GMul(3, u0), u1, u2, GMul(2, u3));
    Sum4Rotate(u1, u2, GMul(2, u3), GMul(3, u0));
    Sum4Rotate(u2, GMul(2, u3), GMul(3, u0), u1);
    UnmixedTurned(s0, s1, s2, s3);
    UnmixedTurned(s1, s2, s3, s0);
    UnmixedTurned(s2, s3, s0, s1);
    FirstRowRemixed(s3, s0, s1, s2);
  }

  /** Unmixing the column turned round by one gives the unmixed column turned round. */
  lemma UnmixedTurned(s0: byte, s1: byte, s2: byte, s3: byte)
    ensures UnmixedByte(0, s1, s2, s3, s0) == UnmixedByte(1, s0, s1, s2, s3)
    ensures UnmixedByte(1, s1, s2, s3, s0) == UnmixedByte(2, s0, s1, s2, s3)
    ensures UnmixedByte(2, s1, s2, s3, s0) == UnmixedByte(3, s0, s1, s2, s3)
    ensures UnmixedByte(3, s1, s2, s3, s0) == UnmixedByte(0, s0, s1, s2, s3)
  {
    Unmixed0(s0, s1, s2, s3); Unmixed1(s0, s1, s2, s3); Unmixed2(s0, s1, s2, s3); Unmixed3(s0, s1, s2, s3);
    Unmixed0(s1, s2, s3, s0); Unmixed1(s1, s2, s3, s0); Unmixed2(s1, s2, s3, s0); Unmixed3(s1, s2, s3, s0);
    Sum4Rotate(GMul(9, s0), GMul(14, s1), GMul(11, s2), GMul(13, s3));
    Sum4Rotate(GMul(13, s0), GMul(9, s1), GMul(14, s2), GMul(11, s3));
    Sum4Rotate(GMul(11, s0), GMul(13, s1), GMul(9, s2), GMul(14, s3));
    Sum4Rotate(GMul(14, s0), GMul(11, s1), GMul(13, s2), GMul(9, s3));
  }

  /** Row 0 of `mixColumns` after `invMixColumns` gives back byte 0 of the column. */
  lemma FirstRowRemixed(s0: byte, s1: byte, s2: byte, s3: byte)
    ensures Sum4(GMul(2, UnmixedByte(0, s0, s1, s2, s3)), GMul(3, UnmixedByte(1, s0, s1, s2, s3)),
                 UnmixedByte(2, s0, s1, s2, s3), UnmixedByte(3, s0, s1, s2, s3)) == s0
  {
    Unmixed0(s0, s1, s2, s3); Unmixed1(s0, s1, s2, s3); Unmixed2(s0, s1, s2, s3); Unmixed3(s0, s1, s2, s3);
    Spread(2, GMul(14, s0), GMul(11, s1), GMul(13, s2), GMul(9, s3));
    Spread(3, GMul(9, s0), GMul(14, s1), GMul(11, s2), GMul(13, s3));
    Transpose(GMul(2, GMul(14, s0)), GMul(2, GMul(11, s1)), GMul(2, GMul(13, s2)), GMul(2, GMul(9, s3)),
              GMul(3, GMul(9, s0)), GMul(3, GMul(14, s1)), GMul(3, GMul(11, s2)), GMul(3, GMul(13, s3)),
              GMul(13, s0), GMul(9, s1), GMul(14, s2), GMul(11, s3),
              GMul(11, s0), GMul(13, s1), GMul(9, s2), GMul(14, s3));
    Rediagonal0(s0);
    Rediagonal1(s1);
    Rediagonal2(s2);
    Rediagonal3(s3);
    Sum4Flat(s0, 0, 0, 0);
  }

  /** Column i of row 0 of the product of the matrices taken the other way round:
      2·14 + 3·9 + 13 + 11 = 1, 2·11 + 3·14 + 9 + 13 = 0, 2·13 + 3·11 + 14 + 9 = 0 and
      2·9 + 3·13 + 11 + 14 = 0, each written out as a sum of powers of x times v. */
  lemma Rediagonal0(v: byte)
    ensures Sum4(GMul(2, GMul(14, v)), GMul(3, GMul(9, v)), GMul(13, v), GMul(11, v)) == v
  {
    var p1, p2, p3 := Xtime(v), Xtime(Xtime(v)), Xtime(Xtime(Xtime(v)));
    FourteenAsSum(v); NineAsSum(v); ThirteenAsSum(v); ElevenAsSum(v);
    GMulTwo(GMul(14, v)); ThreeAsSum(GMul(9, v));
    XtimeAdditive(Xor(p3, p2), p1); XtimeAdditive(p3, p2);
    XtimeAdditive(p3, v);
    Recancel0(v, p1, p2, p3, Xtime(p3));
  }

  lemma Rediagonal1(v: byte)
    ensures Sum4(GMul(2, GMul(11, v)), GMul(3, GMul(14, v)), GMul(9, v), GMul(13, v)) == 0
  {
    var p1, p2, p3 := Xtime(v), Xtime(Xtime(v)), Xtime(Xtime(Xtime(v)));
    ElevenAsSum(v); FourteenAsSum(v); NineAsSum(v); ThirteenAsSum(v);
    GMulTwo(GMul(11, v)); ThreeAsSum(GMul(14, v));
    XtimeAdditive(Xor(p3, p1), v); XtimeAdditive(p3, p1);
    XtimeAdditive(Xor(p3, p2), p1); XtimeAdditive(p3, p2);
    Recancel1(v, p1, p2, p3, Xtime(p3));
  }

  lemma Rediagonal2(v: byte)
    ensures Sum4(GMul(2, GMul(13, v)), GMul(3, GMul(11, v)), GMul(14, v), GMul(9, v)) == 0
  {
    var p1, p2, p3 := Xtime(v), Xtime(Xtime(v)), Xtime(Xtime(Xtime(v)));
    ThirteenAsSum(v); ElevenAsSum(v); FourteenAsSum(v); NineAsSum(v);
    GMulTwo(GMul(13, v)); ThreeAsSum(GMul(11, v));
    XtimeAdditive(Xor(p3, p2), v); XtimeAdditive(p3, p2);
    XtimeAdditive(Xor(p3, p1), v); XtimeAdditive(p3, p1);
    Recancel2(v, p1, p2, p3, Xtime(p3));
  }

  lemma Rediagonal3(v: byte)
    ensures Sum4(GMul(2, GMul(9, v)), GMul(3, GMul(13, v)), GMul(11, v), GMul(14, v)) == 0
  {
    var p1, p2, p3 := Xtime(v), Xtime(Xtime(v)), Xtime(Xtime(Xtime(v)));
    NineAsSum(v); ThirteenAsSum(v); ElevenAsSum(v); FourteenAsSum(v);
    GMulTwo(GMul(9, v)); ThreeAsSum(GMul(13, v));
    XtimeAdditive(p3, v);
    XtimeAdditive(Xor(p3, p2), v); XtimeAdditive(p3, p2);
    Recancel3(v, p1, p2, p3, Xtime(p3));
  }

  /** The sums of powers in `Rediagonal0` to `Rediagonal3`, p1 to p4 standing for x·v
      to x^4·v. */
  lemma Recancel0(v: byte, p1: byte, p2: byte, p3: byte, p4: byte)
    ensures Sum4(Xor(Xor(p4, p3), p2), Xor(Xor(p4, p1), Xor(p3, v)), Xor(Xor(p3, p2), v), Xor(Xor(p3, p1), v)) == v
  {
    XorIs(p4, p3);
    XorIs(p4 ^ p3, p2);
    XorIs(p4, p1);
    XorIs(p3, v);
    XorIs(p4 ^ p1, p3 ^ v);
    XorIs(p4 ^ p3 ^ p2, p4 ^ p1 ^ p3 ^ v);
    XorIs(p3, p2);
    XorIs(p3 ^ p2, v);
    XorIs(p3, p1);
    XorIs(p3 ^ p1, v);
    XorIs(p3 ^ p2 ^ v, p3 ^ p1 ^ v);
    XorIs(p4 ^ p3 ^ p2 ^ p4 ^ p1 ^ p3 ^ v, p3 ^ p2 ^ v ^ p3 ^ p1 ^ v);
  }

  lemma Recancel1(v: byte, p1: byte, p2: byte, p3: byte, p4: byte)
    ensures Sum4(Xor(Xor(p4, p2), p1), Xor(Xor(Xor(p4, p3), p2), Xor(Xor(p3, p2), p1)), Xor(p3, v), Xor(Xor(p3, p2), v)) == 0
  {
    XorIs(p4, p2);
    XorIs(p4 ^ p2, p1);
    XorIs(p4, p3);
    XorIs(p4 ^ p3, p2);
    XorIs(p3, p2);
    XorIs(p3 ^ p2, p1);
    XorIs(p4 ^ p3 ^ p2, p3 ^ p2 ^ p1);
    XorIs(p4 ^ p2 ^ p1, p4 ^ p3 ^ p2 ^ p3 ^ p2 ^ p1);
    XorIs(p3, v);
    XorIs(p3 ^ p2, v);
    XorIs(p3 ^ v, p3 ^ p2 ^ v);
    XorIs(p4 ^ p2 ^ p1 ^ p4 ^ p3 ^ p2 ^ p3 ^ p2 ^ p1, p3 ^ v ^ p3 ^ p2 ^ v);
  }

  lemma Recancel2(v: byte, p1: byte, p2: byte, p3: byte, p4: byte)
    ensures Sum4(Xor(Xor(p4, p3), p1), Xor(Xor(Xor(p4, p2), p1), Xor(Xor(p3, p1), v)), Xor(Xor(p3, p2), p1), Xor(p3, v)) == 0
  {
    XorIs(p4, p3);
    XorIs(p4 ^ p3, p1);
    XorIs(p4, p2);
    XorIs(p4 ^ p2, p1);
    XorIs(p3, p1);
    XorIs(p3 ^ p1, v);
    XorIs(p4 ^ p2 ^ p1, p3 ^ p1 ^ v);
    XorIs(p4 ^ p3 ^ p1, p4 ^ p2 ^ p1 ^ p3 ^ p1 ^ v);
    XorIs(p3, p2);
    XorIs(p3 ^ p2, p1);
    XorIs(p3, v);
    XorIs(p3 ^ p2 ^ p1, p3 ^ v);
    XorIs(p4 ^ p3 ^ p1 ^ p4 ^ p2 ^ p1 ^ p3 ^ p1 ^ v, p3 ^ p2 ^ p1 ^ p3 ^ v);
  }

  lemma Recancel3(v: byte, p1: byte, p2: byte, p3: byte, p4: byte)
    ensures Sum4(Xor(p4, p1), Xor(Xor(Xor(p4, p3), p1), Xor(Xor(p3, p2), v)), Xor(Xor(p3, p1), v), Xor(Xor(p3, p2), p1)) == 0
  {
    XorIs(p4, p1);
    XorIs(p4, p3);
    XorIs(p4 ^ p3, p1);
    XorIs(p3, p2);
    XorIs(p3 ^ p2, v);
    XorIs(p4 ^ p3 ^ p1, p3 ^ p2 ^ v);
    XorIs(p4 ^ p1, p4 ^ p3 ^ p1 ^ p3 ^ p2 ^ v);
    XorIs(p3, p1);
    XorIs(p3 ^ p1, v);
    XorIs(p3 ^ p2, p1);
    XorIs(p3 ^ p1 ^ v, p3 ^ p2 ^ p1);
    XorIs(p4 ^ p1 ^ p4 ^ p3 ^ p1 ^ p3 ^ p2 ^ v, p3 ^ p1 ^ v ^ p3 ^ p2 ^ p1);
  }
}
