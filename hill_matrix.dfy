/** The matrix helpers of the Hill cipher (src/lib/ciphers/core.ts:193-222):
    `minor` and the Laplace-expansion `determinantMat`, which reduces modulo 26
    for every size but 1. Matrices are sequences of rows. */
module HillMatrix {
  import opened ModArith

  type Matrix = seq<seq<int>>

  /** A non-empty matrix whose every row is as long as the matrix is high. */
  predicate IsSquare(m: Matrix) { |m| > 0 && forall i :: 0 <= i < |m| ==> |m[i]| == |m| }

  /** `Math.pow(-1, i)` for a natural exponent. */
  function Sign(i: int): (s: int)
    ensures s == 1 || s == -1
  {
    if i % 2 == 0 then 1 else -1
  }

  /** s with the element at index k removed; s itself when k is out of range. */
  function Without<T>(s: seq<T>, k: int): (r: seq<T>)
    ensures 0 <= k < |s| ==> |r| == |s| - 1
    ensures !(0 <= k < |s|) ==> r == s
    ensures 0 <= k < |s| ==> forall i :: 0 <= i < |r| ==> r[i] == s[if i < k then i else i + 1]
  {
    if 0 <= k < |s| then s[..k] + s[k + 1..] else s
  }

  /** Extending a sequence by one element extends it with the element removed,
      except at index k. */
  lemma WithoutSnoc<T>(s: seq<T>, j: int, k: int)
    requires 0 <= j < |s| && 0 <= k
    ensures Without(s[..j + 1], k) == if j == k then Without(s[..j], k) else Without(s[..j], k) + [s[j]]
  {
    var a, b := s[..j + 1], s[..j];
    assert a == b + [s[j]];
    if k < j {
      assert a[..k] == b[..k];
      assert a[k + 1..] == b[k + 1..] + [s[j]];
    } else if k == j {
      assert a[..k] == b;
    }
  }

  /** `minor(matrix, row, column)` (src/lib/ciphers/core.ts:193-205): the rows other
      than `row`, each without its entry `column`. */
  function Minor(m: Matrix, row: int, column: int): (r: Matrix)
    ensures |r| == |Without(m, row)|
    ensures forall i :: 0 <= i < |r| ==> r[i] == Without(Without(m, row)[i], column)
  {
    var rows := Without(m, row);
    seq(|rows|, i requires 0 <= i < |rows| => Without(rows[i], column))
  }

  /** The minor of an n×n matrix at an entry is (n-1)×(n-1). */
  lemma MinorShape(m: Matrix, row: int, column: int)
    requires IsSquare(m) && |m| >= 2 && 0 <= row < |m| && 0 <= column < |m|
    ensures IsSquare(Minor(m, row, column)) && |Minor(m, row, column)| == |m| - 1
  {
  }

  /** Entry (a, b) of a minor is the entry of the matrix with a and b stepped over
      `row` and `column`. */
  lemma MinorEntry(m: Matrix, row: int, column: int, a: int, b: int)
    requires IsSquare(m) && |m| >= 2 && 0 <= row < |m| && 0 <= column < |m|
    requires 0 <= a < |m| - 1 && 0 <= b < |m| - 1
    ensures Minor(m, row, column)[a][b] == m[if a < row then a else a + 1][if b < column then b else b + 1]
  {
  }

  /** The loops of `minor`, pushing the kept entries row by row. */
  method MinorLoop(matrix: Matrix, row: int, column: int) returns (result: Matrix)
    requires 0 <= row && 0 <= column
    ensures result == Minor(matrix, row, column)
  {
    result := [];
    for i := 0 to |matrix|
      invariant result == Minor(matrix[..i], row, column)
    {
      WithoutSnoc(matrix, i, row);
      if i == row {
        assert Minor(matrix[..i + 1], row, column) == Minor(matrix[..i], row, column);
        continue;
      }
      var newRow := [];
      for j := 0 to |matrix[i]|
        invariant newRow == Without(matrix[i][..j], column)
      {
        WithoutSnoc(matrix[i], j, column);
        if j == column {
          continue;
        }
        newRow := newRow + [matrix[i][j]];
      }
      assert matrix[i][..|matrix[i]|] == matrix[i];
      assert Minor(matrix[..i + 1], row, column) == result + [newRow];
      result := result + [newRow];
    }
    assert matrix[..|matrix|] == matrix;
  }

  // ---- the determinant ----

  /** `determinantMat` (src/lib/ciphers/core.ts:207-222): the entry itself for a
      1×1 matrix, the closed 2×2 formula modulo 26, and otherwise the expansion
      along the first row, reduced modulo 26. */
  function Det(m: Matrix): (d: int)
    requires IsSquare(m)
    ensures |m| >= 2 ==> 0 <= d < 26
    decreases |m|, 1, 0
  {
    if |m| == 1 then m[0][0]
    else if |m| == 2 then Mod(m[0][0] * m[1][1] - m[0][1] * m[1][0], 26)
    else Mod(LaplaceSum(m, |m|), 26)
  }

  /** The first k terms of the loop at src/lib/ciphers/core.ts:218-220. */
  function LaplaceSum(m: Matrix, k: int): int
    requires IsSquare(m) && |m| >= 2 && 0 <= k <= |m|
    decreases |m|, 0, k
  {
    if k == 0 then 0
    else
      LaplaceSum(m, k - 1) + Sign(k - 1) * m[0][k - 1] * MinorDet(m, 0, k - 1)
  }

  /** The determinant of the minor at an entry. */
  function MinorDet(m: Matrix, row: int, column: int): (d: int)
    requires IsSquare(m) && |m| >= 2 && 0 <= row < |m| && 0 <= column < |m|
    ensures |m| >= 3 ==> 0 <= d < 26
    decreases |m|, 0, 0
  {
    MinorShape(m, row, column);
    Det(Minor(m, row, column))
  }

  /** The minor of a 2×2 matrix is the opposite entry. */
  lemma MinorDetOfTwo(m: Matrix, row: int, column: int)
    requires IsSquare(m) && |m| == 2 && 0 <= row < 2 && 0 <= column < 2
    ensures MinorDet(m, row, column) == m[1 - row][1 - column]
  {
    MinorShape(m, row, column);
    MinorEntry(m, row, column, 0, 0);
  }

  /** The term the loop adds for column i, once the minor's determinant is known. */
  lemma LaplaceSumStep(m: Matrix, i: int, minorDet: int)
    requires IsSquare(m) && |m| >= 2 && 0 <= i < |m|
    requires minorDet == MinorDet(m, 0, i)
    ensures LaplaceSum(m, i + 1) == LaplaceSum(m, i) + Sign(i) * m[0][i] * minorDet
  {
  }

  /** `determinantMat` with the accumulation loop of the source. */
  method DeterminantMat(matrix: Matrix) returns (d: int)
    requires IsSquare(matrix)
    ensures d == Det(matrix)
    decreases |matrix|, 2
  {
    if |matrix| == 1 {
      return matrix[0][0];
    }
    if |matrix| == 2 {
      return Mod(matrix[0][0] * matrix[1][1] - matrix[0][1] * matrix[1][0], 26);
    }
    var det := LaplaceLoop(matrix);
    return Mod(det, 26);
  }

  /** The loop at lines 218-220: the signed first-row entries times their minors'
      determinants, summed. */
  method LaplaceLoop(matrix: Matrix) returns (det: int)
    requires IsSquare(matrix) && |matrix| >= 2
    ensures det == LaplaceSum(matrix, |matrix|)
    decreases |matrix|, 1
  {
    det := 0;
    for i := 0 to |matrix[0]|
      invariant det == LaplaceSum(matrix, i)
    {
      var minorDet := MinorDeterminant(matrix, 0, i);
      LaplaceSumStep(matrix, i, minorDet);
      det := det + Sign(i) * matrix[0][i] * minorDet;
    }
  }

  /** `determinantMat(minor(matrix, row, column))`, as the loops at lines 218-220 and
      247-250 compute it. */
  method MinorDeterminant(matrix: Matrix, row: int, column: int) returns (d: int)
    requires IsSquare(matrix) && |matrix| >= 2 && 0 <= row < |matrix| && 0 <= column < |matrix|
    ensures d == MinorDet(matrix, row, column)
    decreases |matrix|, 0
  {
    MinorShape(matrix, row, column);
    var sub := MinorLoop(matrix, row, column);
    d := DeterminantMat(sub);
  }

  /** The determinant itself, by the same expansion with no reduction. */
  function RefDet(m: Matrix): int
    requires IsSquare(m)
    decreases |m|, 1, 0
  {
    if |m| == 1 then m[0][0] else RefLaplaceSum(m, |m|)
  }

  function RefLaplaceSum(m: Matrix, k: int): int
    requires IsSquare(m) && |m| >= 2 && 0 <= k <= |m|
    decreases |m|, 0, k
  {
    if k == 0 then 0
    else RefLaplaceSum(m, k - 1) + Sign(k - 1) * m[0][k - 1] * RefMinorDet(m, 0, k - 1)
  }

  function RefMinorDet(m: Matrix, row: int, column: int): int
    requires IsSquare(m) && |m| >= 2 && 0 <= row < |m| && 0 <= column < |m|
    decreases |m|, 0, 0
  {
    MinorShape(m, row, column);
    RefDet(Minor(m, row, column))
  }

  /** Congruent summands give congruent sums. */
  lemma ModCombination(x: int, x': int, y: int, y': int, c: int)
    requires Mod(x, 26) == Mod(x', 26) && Mod(y, 26) == Mod(y', 26)
    ensures Mod(x + c * y, 26) == Mod(x' + c * y', 26)
  {
    ModMulLeft(y, c, 26);
    ModMulLeft(y', c, 26);
    assert y * c == c * y && y' * c == c * y';
    ModAddLeft(x, c * y, 26);
    ModAddLeft(x', c * y, 26);
    ModAddLeft(c * y, x', 26);
    ModAddLeft(c * y', x', 26);
  }

  /** `determinantMat` is the determinant modulo 26 for n >= 2, and the unreduced
      determinant for n = 1. */
  lemma {:induction false} DetIsReducedDeterminant(m: Matrix)
    requires IsSquare(m)
    ensures |m| == 1 ==> Det(m) == RefDet(m)
    ensures |m| >= 2 ==> Det(m) == Mod(RefDet(m), 26)
    ensures Mod(Det(m), 26) == Mod(RefDet(m), 26)
    decreases |m|, 1, 0
  {
    if |m| == 2 {
      MinorShape(m, 0, 0);
      MinorShape(m, 0, 1);
      MinorEntry(m, 0, 0, 0, 0);
      MinorEntry(m, 0, 1, 0, 0);
      assert RefMinorDet(m, 0, 0) == m[1][1];
      assert RefMinorDet(m, 0, 1) == m[1][0];
      assert Sign(0) == 1 && Sign(1) == -1;
      assert RefLaplaceSum(m, 1) == m[0][0] * m[1][1];
      assert RefDet(m) == m[0][0] * m[1][1] - m[0][1] * m[1][0];
    } else if |m| > 2 {
      LaplaceCongruent(m, |m|);
    }
    if |m| >= 2 {
      ModOfResidue(Det(m), 26);
    }
  }

  lemma {:induction false} LaplaceCongruent(m: Matrix, k: int)
    requires IsSquare(m) && |m| >= 2 && 0 <= k <= |m|
    ensures Mod(LaplaceSum(m, k), 26) == Mod(RefLaplaceSum(m, k), 26)
    decreases |m|, 0, k
  {
    if k > 0 {
      LaplaceCongruent(m, k - 1);
      MinorCongruent(m, k - 1);
      LaplaceCongruentStep(m, k - 1);
    }
  }

  lemma {:induction false} MinorCongruent(m: Matrix, i: int)
    requires IsSquare(m) && |m| >= 2 && 0 <= i < |m|
    ensures Mod(MinorDet(m, 0, i), 26) == Mod(RefMinorDet(m, 0, i), 26)
    decreases |m|, 0, 0
  {
    MinorShape(m, 0, i);
    DetIsReducedDeterminant(Minor(m, 0, i));
  }

  /** Congruent first i terms and a congruent minor give congruent first i + 1 terms. */
  lemma LaplaceCongruentStep(m: Matrix, i: int)
    requires IsSquare(m) && |m| >= 2 && 0 <= i < |m|
    requires Mod(LaplaceSum(m, i), 26) == Mod(RefLaplaceSum(m, i), 26)
    requires Mod(MinorDet(m, 0, i), 26) == Mod(RefMinorDet(m, 0, i), 26)
    ensures Mod(LaplaceSum(m, i + 1), 26) == Mod(RefLaplaceSum(m, i + 1), 26)
  {
    LaplaceSumStep(m, i, MinorDet(m, 0, i));
    ModCombination(LaplaceSum(m, i), RefLaplaceSum(m, i), MinorDet(m, 0, i), RefMinorDet(m, 0, i), Sign(i) * m[0][i]);
  }

}
