/** The fixed tables of the DES trace engine (src/lib/ciphers/des-steps.ts:42-131).
    Permutation tables hold 1-based bit positions; `SBOX[j][row][col]` is a 4-bit value.
    Each table is written as the concatenation of its printed rows. */
module DesTables {

  const IP: seq<int> :=
    [58, 50, 42, 34, 26, 18, 10, 2, 60, 52, 44, 36, 28, 20, 12, 4] +
    [62, 54, 46, 38, 30, 22, 14, 6, 64, 56, 48, 40, 32, 24, 16, 8] +
    [57, 49, 41, 33, 25, 17, 9, 1, 59, 51, 43, 35, 27, 19, 11, 3] +
    [61, 53, 45, 37, 29, 21, 13, 5, 63, 55, 47, 39, 31, 23, 15, 7]

  const IP1: seq<int> :=
    [40, 8, 48, 16, 56, 24, 64, 32, 39, 7, 47, 15, 55, 23, 63, 31] +
    [38, 6, 46, 14, 54, 22, 62, 30, 37, 5, 45, 13, 53, 21, 61, 29] +
    [36, 4, 44, 12, 52, 20, 60, 28, 35, 3, 43, 11, 51, 19, 59, 27] +
    [34, 2, 42, 10, 50, 18, 58, 26, 33, 1, 41, 9, 49, 17, 57, 25]

  const PC1: seq<int> :=
    [57, 49, 41, 33, 25, 17, 9, 1, 58, 50, 42, 34, 26, 18] +
    [10, 2, 59, 51, 43, 35, 27, 19, 11, 3, 60, 52, 44, 36] +
    [63, 55, 47, 39, 31, 23, 15, 7, 62, 54, 46, 38, 30, 22] +
    [14, 6, 61, 53, 45, 37, 29, 21, 13, 5, 28, 20, 12, 4]

  const PC2: seq<int> :=
    [14, 17, 11, 24, 1, 5, 3, 28, 15, 6, 21, 10] +
    [23, 19, 12, 4, 26, 8, 16, 7, 27, 20, 13, 2] +
    [41, 52, 31, 37, 47, 55, 30, 40, 51, 45, 33, 48] +
    [44, 49, 39, 56, 34, 53, 46, 42, 50, 36, 29, 32]

  const EXP_D: seq<int> :=
    [32, 1, 2, 3, 4, 5, 4, 5, 6, 7, 8, 9] +
    [8, 9, 10, 11, 12, 13, 12, 13, 14, 15, 16, 17] +
    [16, 17, 18, 19, 20, 21, 20, 21, 22, 23, 24, 25] +
    [24, 25, 26, 27, 28, 29, 28, 29, 30, 31, 32, 1]

  const PBOX: seq<int> :=
    [16, 7, 20, 21, 29, 12, 28, 17, 1, 15, 23, 26, 5, 18, 31, 10] +
    [2, 8, 24, 14, 32, 27, 3, 9, 19, 13, 30, 6, 22, 11, 4, 25]

  const S1: seq<seq<int>> := [
    [14, 4, 13, 1, 2, 15, 11, 8, 3, 10, 6, 12, 5, 9, 0, 7],
    [0, 15, 7, 4, 14, 2, 13, 1, 10, 6, 12, 11, 9, 5, 3, 8],
    [4, 1, 14, 8, 13, 6, 2, 11, 15, 12, 9, 7, 3, 10, 5, 0],
    [15, 12, 8, 2, 4, 9, 1, 7, 5, 11, 3, 14, 10, 0, 6, 13]
  ]

  const S2: seq<seq<int>> := [
    [15, 1, 8, 14, 6, 11, 3, 4, 9, 7, 2, 13, 12, 0, 5, 10],
    [3, 13, 4, 7, 15, 2, 8, 14, 12, 0, 1, 10, 6, 9, 11, 5],
    [0, 14, 7, 11, 10, 4, 13, 1, 5, 8, 12, 6, 9, 3, 2, 15],
    [13, 8, 10, 1, 3, 15, 4, 2, 11, 6, 7, 12, 0, 5, 14, 9]
  ]

  const S3: seq<seq<int>> := [
    [10, 0, 9, 14, 6, 3, 15, 5, 1, 13, 12, 7, 11, 4, 2, 8],
    [13, 7, 0, 9, 3, 4, 6, 10, 2, 8, 5, 14, 12, 11, 15, 1],
    [13, 6, 4, 9, 8, 15, 3, 0, 11, 1, 2, 12, 5, 10, 14, 7],
    [1, 10, 13, 0, 6, 9, 8, 7, 4, 15, 14, 3, 11, 5, 2, 12]
  ]

  const S4: seq<seq<int>> := [
    [7, 13, 14, 3, 0, 6, 9, 10, 1, 2, 8, 5, 11, 12, 4, 15],
    [13, 8, 11, 5, 6, 15, 0, 3, 4, 7, 2, 12, 1, 10, 14, 9],
    [10, 6, 9, 0, 12, 11, 7, 13, 15, 1, 3, 14, 5, 2, 8, 4],
    [3, 15, 0, 6, 10, 1, 13, 8, 9, 4, 5, 11, 12, 7, 2, 14]
  ]

  const S5: seq<seq<int>> := [
    [2, 12, 4, 1, 7, 10, 11, 6, 8, 5, 3, 15, 13, 0, 14, 9],
    [14, 11, 2, 12, 4, 7, 13, 1, 5, 0, 15, 10, 3, 9, 8, 6],
    [4, 2, 1, 11, 10, 13, 7, 8, 15, 9, 12, 5, 6, 3, 0, 14],
    [11, 8, 12, 7, 1, 14, 2, 13, 6, 15, 0, 9, 10, 4, 5, 3]
  ]

  const S6: seq<seq<int>> := [
    [12, 1, 10, 15, 9, 2, 6, 8, 0, 13, 3, 4, 14, 7, 5, 11],
    [10, 15, 4, 2, 7, 12, 9, 5, 6, 1, 13, 14, 0, 11, 3, 8],
    [9, 14, 15, 5, 2, 8, 12, 3, 7, 0, 4, 10, 1, 13, 11, 6],
    [4, 3, 2, 12, 9, 5, 15, 10, 11, 14, 1, 7, 6, 0, 8, 13]
  ]

  const S7: seq<seq<int>> := [
    [4, 11, 2, 14, 15, 0, 8, 13, 3, 12, 9, 7, 5, 10, 6, 1],
    [13, 0, 11, 7, 4, 9, 1, 10, 14, 3, 5, 12, 2, 15, 8, 6],
    [1, 4, 11, 13, 12, 3, 7, 14, 10, 15, 6, 8, 0, 5, 9, 2],
    [6, 11, 13, 8, 1, 4, 10, 7, 9, 5, 0, 15, 14, 2, 3, 12]
  ]

  const S8: seq<seq<int>> := [
    [13, 2, 8, 4, 6, 15, 11, 1, 10, 9, 3, 14, 5, 0, 12, 7],
    [1, 15, 13, 8, 10, 3, 7, 4, 12, 5, 6, 11, 0, 14, 9, 2],
    [7, 11, 4, 1, 9, 12, 14, 2, 0, 6, 10, 13, 15, 3, 5, 8],
    [2, 1, 14, 7, 4, 10, 8, 13, 15, 12, 9, 0, 3, 5, 6, 11]
  ]

  const SBOX: seq<seq<seq<int>>> := [S1, S2, S3, S4, S5, S6, S7, S8]

  /** Every entry of `box` names one of the bit positions 1 .. n. */
  predicate PositionsWithin(box: seq<int>, n: int)
  {
    forall q :: 0 <= q < |box| ==> 1 <= box[q] <= n
  }

  /** Permuting by `inner` and then by `outer` puts every bit back in place:
      output bit q of `outer` reads bit outer[q] - 1 of its input, which `inner`
      took from input bit q. */
  predicate Undoes(outer: seq<int>, inner: seq<int>)
  {
    forall q :: 0 <= q < |outer| ==> 1 <= outer[q] <= |inner| && inner[outer[q] - 1] == q + 1
  }

  /** PC-1 picks 56 of the 64 key bits. */
  lemma PC1Shape()
    ensures |PC1| == 56 && PositionsWithin(PC1, 64)
  {
    forall q | 0 <= q < 56 ensures 1 <= PC1[q] <= 64 { PC1Within(q); }
  }

  /** PC-2 picks 48 of the 56 scheduled key bits. */
  lemma PC2Shape()
    ensures |PC2| == 48 && PositionsWithin(PC2, 56)
  {
    forall q | 0 <= q < 48 ensures 1 <= PC2[q] <= 56 { PC2Within(q); }
  }

  /** The expansion spreads 32 bits over 48. */
  lemma ExpansionShape()
    ensures |EXP_D| == 48 && PositionsWithin(EXP_D, 32)
  {
    forall q | 0 <= q < 48 ensures 1 <= EXP_D[q] <= 32 { ExpansionWithin(q); }
  }

  /** The P-box rearranges 32 bits. */
  lemma PBoxShape()
    ensures |PBOX| == 32 && PositionsWithin(PBOX, 32)
  {
  }

  lemma PC1Within(q: int)
    requires 0 <= q < 56
    ensures 1 <= PC1[q] <= 64
  {
  }

  lemma PC2Within(q: int)
    requires 0 <= q < 48
    ensures 1 <= PC2[q] <= 56
  {
  }

  lemma ExpansionWithin(q: int)
    requires 0 <= q < 48
    ensures 1 <= EXP_D[q] <= 32
  {
  }

  /** IP-1 is the inverse of IP, in both orders. */
  lemma InitialPermutationInverse()
    ensures |IP| == 64 && |IP1| == 64
    ensures Undoes(IP1, IP) && Undoes(IP, IP1)
  {
    forall q | 0 <= q < 64
      ensures 1 <= IP1[q] <= 64 && IP[IP1[q] - 1] == q + 1
      ensures 1 <= IP[q] <= 64 && IP1[IP[q] - 1] == q + 1
    {
      if q < 4 {
        InverseBlock0(q);
      } else if q < 8 {
        InverseBlock1(q);
      } else if q < 12 {
        InverseBlock2(q);
      } else if q < 16 {
        InverseBlock3(q);
      } else if q < 20 {
        InverseBlock4(q);
      } else if q < 24 {
        InverseBlock5(q);
      } else if q < 28 {
        InverseBlock6(q);
      } else if q < 32 {
        InverseBlock7(q);
      } else if q < 36 {
        InverseBlock8(q);
      } else if q < 40 {
        InverseBlock9(q);
      } else if q < 44 {
        InverseBlock10(q);
      } else if q < 48 {
        InverseBlock11(q);
      } else if q < 52 {
        InverseBlock12(q);
      } else if q < 56 {
        InverseBlock13(q);
      } else if q < 60 {
        InverseBlock14(q);
      } else {
        InverseBlock15(q);
      }
    }
  }

  lemma InverseBlock0(q: int)
    requires 0 <= q < 4
    ensures 1 <= IP1[q] <= 64 && IP[IP1[q] - 1] == q + 1
    ensures 1 <= IP[q] <= 64 && IP1[IP[q] - 1] == q + 1
  {
  }

  lemma InverseBlock1(q: int)
    requires 4 <= q < 8
    ensures 1 <= IP1[q] <= 64 && IP[IP1[q] - 1] == q + 1
    ensures 1 <= IP[q] <= 64 && IP1[IP[q] - 1] == q + 1
  {
  }

  lemma InverseBlock2(q: int)
    requires 8 <= q < 12
    ensures 1 <= IP1[q] <= 64 && IP[IP1[q] - 1] == q + 1
    ensures 1 <= IP[q] <= 64 && IP1[IP[q] - 1] == q + 1
  {
  }

  lemma InverseBlock3(q: int)
    requires 12 <= q < 16
    ensures 1 <= IP1[q] <= 64 && IP[IP1[q] - 1] == q + 1
    ensures 1 <= IP[q] <= 64 && IP1[IP[q] - 1] == q + 1
  {
  }

  lemma InverseBlock4(q: int)
    requires 16 <= q < 20
    ensures 1 <= IP1[q] <= 64 && IP[IP1[q] - 1] == q + 1
    ensures 1 <= IP[q] <= 64 && IP1[IP[q] - 1] == q + 1
  {
  }

  lemma InverseBlock5(q: int)
    requires 20 <= q < 24
    ensures 1 <= IP1[q] <= 64 && IP[IP1[q] - 1] == q + 1
    ensures 1 <= IP[q] <= 64 && IP1[IP[q] - 1] == q + 1
  {
  }

  lemma InverseBlock6(q: int)
    requires 24 <= q < 28
    ensures 1 <= IP1[q] <= 64 && IP[IP1[q] - 1] == q + 1
    ensures 1 <= IP[q] <= 64 && IP1[IP[q] - 1] == q + 1
  {
  }

  lemma InverseBlock7(q: int)
    requires 28 <= q < 32
    ensures 1 <= IP1[q] <= 64 && IP[IP1[q] - 1] == q + 1
    ensures 1 <= IP[q] <= 64 && IP1[IP[q] - 1] == q + 1
  {
  }

  lemma InverseBlock8(q: int)
    requires 32 <= q < 36
    ensures 1 <= IP1[q] <= 64 && IP[IP1[q] - 1] == q + 1
    ensures 1 <= IP[q] <= 64 && IP1[IP[q] - 1] == q + 1
  {
  }

  lemma InverseBlock9(q: int)
    requires 36 <= q < 40
    ensures 1 <= IP1[q] <= 64 && IP[IP1[q] - 1] == q + 1
    ensures 1 <= IP[q] <= 64 && IP1[IP[q] - 1] == q + 1
  {
  }

  lemma InverseBlock10(q: int)
    requires 40 <= q < 44
    ensures 1 <= IP1[q] <= 64 && IP[IP1[q] - 1] == q + 1
    ensures 1 <= IP[q] <= 64 && IP1[IP[q] - 1] == q + 1
  {
  }

  lemma InverseBlock11(q: int)
    requires 44 <= q < 48
    ensures 1 <= IP1[q] <= 64 && IP[IP1[q] - 1] == q + 1
    ensures 1 <= IP[q] <= 64 && IP1[IP[q] - 1] == q + 1
  {
  }

  lemma InverseBlock12(q: int)
    requires 48 <= q < 52
    ensures 1 <= IP1[q] <= 64 && IP[IP1[q] - 1] == q + 1
    ensures 1 <= IP[q] <= 64 && IP1[IP[q] - 1] == q + 1
  {
  }

  lemma InverseBlock13(q: int)
    requires 52 <= q < 56
    ensures 1 <= IP1[q] <= 64 && IP[IP1[q] - 1] == q + 1
    ensures 1 <= IP[q] <= 64 && IP1[IP[q] - 1] == q + 1
  {
  }

  lemma InverseBlock14(q: int)
    requires 56 <= q < 60
    ensures 1 <= IP1[q] <= 64 && IP[IP1[q] - 1] == q + 1
    ensures 1 <= IP[q] <= 64 && IP1[IP[q] - 1] == q + 1
  {
  }

  lemma InverseBlock15(q: int)
    requires 60 <= q < 64
    ensures 1 <= IP1[q] <= 64 && IP[IP1[q] - 1] == q + 1
    ensures 1 <= IP[q] <= 64 && IP1[IP[q] - 1] == q + 1
  {
  }

  /** Every S-box has 4 rows of 16 entries, each a 4-bit value. */
  lemma SBoxShape(j: int, row: int, col: int)
    requires 0 <= j < 8 && 0 <= row < 4 && 0 <= col < 16
    ensures |SBOX| == 8 && |SBOX[j]| == 4 && |SBOX[j][row]| == 16
    ensures 0 <= SBOX[j][row][col] < 16
  {
    if j == 0 {
      S1Shape(row, col);
    } else if j == 1 {
      S2Shape(row, col);
    } else if j == 2 {
      S3Shape(row, col);
    } else if j == 3 {
      S4Shape(row, col);
    } else if j == 4 {
      S5Shape(row, col);
    } else if j == 5 {
      S6Shape(row, col);
    } else if j == 6 {
      S7Shape(row, col);
    } else {
      S8Shape(row, col);
    }
  }

  lemma S1Shape(row: int, col: int)
    requires 0 <= row < 4 && 0 <= col < 16
    ensures |S1| == 4 && |S1[row]| == 16 && 0 <= S1[row][col] < 16
  {
  }

  lemma S2Shape(row: int, col: int)
    requires 0 <= row < 4 && 0 <= col < 16
    ensures |S2| == 4 && |S2[row]| == 16 && 0 <= S2[row][col] < 16
  {
  }

  lemma S3Shape(row: int, col: int)
    requires 0 <= row < 4 && 0 <= col < 16
    ensures |S3| == 4 && |S3[row]| == 16 && 0 <= S3[row][col] < 16
  {
  }

  lemma S4Shape(row: int, col: int)
    requires 0 <= row < 4 && 0 <= col < 16
    ensures |S4| == 4 && |S4[row]| == 16 && 0 <= S4[row][col] < 16
  {
  }

  lemma S5Shape(row: int, col: int)
    requires 0 <= row < 4 && 0 <= col < 16
    ensures |S5| == 4 && |S5[row]| == 16 && 0 <= S5[row][col] < 16
  {
  }

  lemma S6Shape(row: int, col: int)
    requires 0 <= row < 4 && 0 <= col < 16
    ensures |S6| == 4 && |S6[row]| == 16 && 0 <= S6[row][col] < 16
  {
  }

  lemma S7Shape(row: int, col: int)
    requires 0 <= row < 4 && 0 <= col < 16
    ensures |S7| == 4 && |S7[row]| == 16 && 0 <= S7[row][col] < 16
  {
  }

  lemma S8Shape(row: int, col: int)
    requires 0 <= row < 4 && 0 <= col < 16
    ensures |S8| == 4 && |S8[row]| == 16 && 0 <= S8[row][col] < 16
  {
  }

  // ---- the tables as one value ----

  /** The tables a DES block computation reads. The rounds are stated over any value
      of this shape, and `STANDARD` holds the tables above. */
  datatype Tables = Tables(ip: seq<int>, ip1: seq<int>, pc1: seq<int>, pc2: seq<int>,
                           expansion: seq<int>, pbox: seq<int>, sbox: seq<seq<seq<int>>>)

  const STANDARD: Tables := Tables(IP, IP1, PC1, PC2, EXP_D, PBOX, SBOX)

  /** Eight boxes of 4 rows of 16 four-bit values. */
  predicate SBoxesShaped(sbox: seq<seq<seq<int>>>)
  {
    && |sbox| == 8
    && (forall j :: 0 <= j < 8 ==> |sbox[j]| == 4)
    && (forall j, row :: 0 <= j < 8 && 0 <= row < 4 ==> |sbox[j][row]| == 16)
    && (forall j, row, col :: 0 <= j < 8 && 0 <= row < 4 && 0 <= col < 16 ==> 0 <= sbox[j][row][col] < 16)
  }

  /** What the block computation needs of its tables: IP and IP-1 permute 64 bits,
      PC-1 picks 56 of 64 key bits, PC-2 48 of 56, the expansion 48 of 32 and the
      P-box 32 of 32; the S-boxes map 6 bits to 4. */
  predicate WellShaped(t: Tables)
  {
    && |t.ip| == 64 && PositionsWithin(t.ip, 64) && |t.ip1| == 64 && PositionsWithin(t.ip1, 64)
    && |t.pc1| == 56 && PositionsWithin(t.pc1, 64)
    && |t.pc2| == 48 && PositionsWithin(t.pc2, 56)
    && |t.expansion| == 48 && PositionsWithin(t.expansion, 32)
    && |t.pbox| == 32 && PositionsWithin(t.pbox, 32)
    && SBoxesShaped(t.sbox)
  }

  /** Tables whose entries all index into the strings they are applied to. */
  type ShapedTables = t: Tables | WellShaped(t)
    witness Tables(seq(64, i => 1), seq(64, i => 1), seq(56, i => 1), seq(48, i => 1),
                   seq(48, i => 1), seq(32, i => 1), seq(8, j => seq(4, row => seq(16, col => 0))))

  /** The final permutation undoes the initial one, and the other way round. */
  predicate Inverses(t: Tables)
  {
    |t.ip| == 64 && |t.ip1| == 64 && Undoes(t.ip1, t.ip) && Undoes(t.ip, t.ip1)
  }

  lemma StandardSBoxesShaped()
    ensures SBoxesShaped(SBOX)
  {
    forall j, row, col | 0 <= j < 8 && 0 <= row < 4 && 0 <= col < 16
      ensures |SBOX[j]| == 4 && |SBOX[j][row]| == 16 && 0 <= SBOX[j][row][col] < 16
    {
      SBoxShape(j, row, col);
    }
    SBoxShape(0, 0, 0);
  }

  /** The published tables have the shape the computation needs. */
  lemma StandardShaped()
    ensures WellShaped(STANDARD) && Inverses(STANDARD)
  {
    InitialPermutationInverse();
    PC1Shape();
    PC2Shape();
    ExpansionShape();
    PBoxShape();
    StandardSBoxesShaped();
  }
}
