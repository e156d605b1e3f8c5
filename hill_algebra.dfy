/** Matrix product and inverse modulo 26 of the Hill cipher
    (src/lib/ciphers/core.ts:224-286), with the algebra the cipher relies on:
    the product is associative modulo 26, the identity is neutral, and for 1×1
    and 2×2 keys `inverseMat` is a two-sided inverse. */
module HillAlgebra {
  import opened Wrappers
  import opened ModArith
  import opened HillMatrix

  datatype HillError =
    | NotSquare            // the key is empty or not square
    | DetNotCoprime(det: int)  // gcd(det, 26) != 1
    | NoInverse            // modInverse(det, 26) returned -1
    | BadDimensions        // the factors of a product do not fit
    | BadLength            // a ciphertext length that is not a multiple of n

  /** `rows` rows of `cols` entries each. */
  predicate IsRect(m: Matrix, rows: int, cols: int)
  {
    |m| == rows && forall i :: 0 <= i < |m| ==> |m[i]| == cols
  }

  /** Every row as long as the first: the shape of every `Array.from` grid. */
  predicate IsGrid(m: Matrix) { |m| == 0 || IsRect(m, |m|, |m[0]|) }

  predicate Reduced(m: Matrix)
  {
    forall i, j :: 0 <= i < |m| && 0 <= j < |m[i]| ==> 0 <= m[i][j] < 26
  }

  /** Entry (i, j), taken as 0 outside the matrix. */
  function Get(m: Matrix, i: int, j: int): int
  {
    if 0 <= i < |m| && 0 <= j < |m[i]| then m[i][j] else 0
  }

  // ---- finite sums ----

  /** f(0) + ... + f(n - 1) */
  function Sum(n: nat, f: int -> int): int
  {
    if n == 0 then 0 else Sum(n - 1, f) + f(n - 1)
  }

  lemma {:induction false} SumExt(n: nat, f: int -> int, g: int -> int)
    requires forall k :: 0 <= k < n ==> f(k) == g(k)
    ensures Sum(n, f) == Sum(n, g)
  {
    if n > 0 {
      SumExt(n - 1, f, g);
    }
  }

  /** Summands that agree modulo 26 give sums that agree modulo 26. */
  lemma {:induction false} SumCongruent(n: nat, f: int -> int, g: int -> int)
    requires forall k :: 0 <= k < n ==> Mod(f(k), 26) == Mod(g(k), 26)
    ensures Mod(Sum(n, f), 26) == Mod(Sum(n, g), 26)
  {
    if n > 0 {
      SumCongruent(n - 1, f, g);
      ModCombination(Sum(n - 1, f), Sum(n - 1, g), f(n - 1), g(n - 1), 1);
    }
  }

  /** A common factor comes out of a sum. */
  lemma {:induction false} SumScale(n: nat, c: int, f: int -> int, g: int -> int)
    requires forall k :: 0 <= k < n ==> g(k) == c * f(k)
    ensures Sum(n, g) == c * Sum(n, f)
  {
    if n > 0 {
      SumScale(n - 1, c, f, g);
      assert c * Sum(n - 1, f) + c * f(n - 1) == c * (Sum(n - 1, f) + f(n - 1));
    }
  }

  lemma {:induction false} SumAdd(n: nat, f: int -> int, g: int -> int, h: int -> int)
    requires forall k :: 0 <= k < n ==> h(k) == f(k) + g(k)
    ensures Sum(n, h) == Sum(n, f) + Sum(n, g)
  {
    if n > 0 {
      SumAdd(n - 1, f, g, h);
    }
  }

  /** Row k of a double array of summands, and column l. */
  function RowTerms(F: (int, int) -> int, k: int): int -> int { l => F(k, l) }
  function ColTerms(F: (int, int) -> int, l: int): int -> int { k => F(k, l) }

  /** The row sums over m columns, and the column sums over n rows. */
  function RowSums(F: (int, int) -> int, m: nat): int -> int { k => Sum(m, RowTerms(F, k)) }
  function ColSums(F: (int, int) -> int, n: nat): int -> int { l => Sum(n, ColTerms(F, l)) }

  /** A double sum may be taken in either order. */
  lemma {:induction false} SumSwap(n: nat, m: nat, F: (int, int) -> int)
    ensures Sum(n, RowSums(F, m)) == Sum(m, ColSums(F, n))
  {
    if n == 0 {
      SumZero(m, ColSums(F, 0));
    } else {
      SumSwap(n - 1, m, F);
      SumAdd(m, ColSums(F, n - 1), RowTerms(F, n - 1), ColSums(F, n));
    }
  }

  /** A sum whose summands vanish except at index i. */
  lemma {:induction false} SumSingle(n: nat, i: nat, f: int -> int)
    requires i < n && forall k :: 0 <= k < n && k != i ==> f(k) == 0
    ensures Sum(n, f) == f(i)
  {
    if n - 1 > i {
      SumSingle(n - 1, i, f);
    } else {
      assert n - 1 == i;
      SumZero(n - 1, f);
    }
  }

  lemma {:induction false} SumZero(n: nat, f: int -> int)
    requires forall k :: 0 <= k < n ==> f(k) == 0
    ensures Sum(n, f) == 0
  {
    if n > 0 {
      SumZero(n - 1, f);
    }
  }

  // ---- the product ----

  /** The sum `a[i][0] * b[0][j] + ... + a[i][n-1] * b[n-1][j]`. */
  function Dot(a: Matrix, b: Matrix, i: int, j: int, n: nat): int
  {
    Sum(n, DotTerms(a, b, i, j))
  }

  function DotTerms(a: Matrix, b: Matrix, i: int, j: int): int -> int
  {
    k => Get(a, i, k) * Get(b, k, j)
  }

  /** `multiplyMat` (src/lib/ciphers/core.ts:270-286): the product reduced modulo
      26, or an error when a factor is empty or the inner dimensions differ. */
  function MatMul(a: Matrix, b: Matrix): (r: Result<Matrix, HillError>)
    ensures r.Err? <==> |a| == 0 || |b| == 0 || |a[0]| != |b|
    ensures r.Ok? ==> IsRect(r.value, |a|, |b[0]|) && Reduced(r.value)
    ensures r.Ok? ==> forall i, j :: 0 <= i < |a| && 0 <= j < |b[0]| ==>
      r.value[i][j] == Mod(Dot(a, b, i, j, |a[0]|), 26)
  {
    if |a| == 0 || |b| == 0 || |a[0]| != |b| then Err(BadDimensions)
    else
      Ok(seq(|a|, i requires 0 <= i < |a| =>
        seq(|b[0]|, j requires 0 <= j < |b[0]| => Mod(Dot(a, b, i, j, |a[0]|), 26))))
  }

  /** The contents of a two-dimensional array as rows. */
  function Rows(a: array2<int>): (m: Matrix)
    reads a
    ensures IsRect(m, a.Length0, a.Length1)
    ensures forall i, j :: 0 <= i < a.Length0 && 0 <= j < a.Length1 ==> m[i][j] == a[i, j]
  {
    seq(a.Length0, i requires 0 <= i < a.Length0 reads a =>
      seq(a.Length1, j requires 0 <= j < a.Length1 reads a => a[i, j]))
  }

  /** Two matrices of one shape with equal entries are equal. */
  lemma RectEqual(m: Matrix, m': Matrix, rows: int, cols: int)
    requires IsRect(m, rows, cols) && IsRect(m', rows, cols)
    requires forall i, j :: 0 <= i < rows && 0 <= j < cols ==> m[i][j] == m'[i][j]
    ensures m == m'
  {
    forall i | 0 <= i < rows ensures m[i] == m'[i] {
    }
  }

  /** `multiplyMat` with its three loops over a zero-filled grid. */
  method MultiplyMat(a: Matrix, b: Matrix) returns (r: Result<Matrix, HillError>)
    requires IsGrid(a) && IsGrid(b)
    ensures r == MatMul(a, b)
  {
    if |a| == 0 || |b| == 0 || |a[0]| != |b| {
      return Err(BadDimensions);
    }
    var rows, cols, inner := |a|, |b[0]|, |a[0]|;
    var matrix := new int[rows, cols]((i, j) => 0);
    for i := 0 to rows
      invariant forall i', j :: 0 <= i' < i && 0 <= j < cols ==> matrix[i', j] == Mod(Dot(a, b, i', j, inner), 26)
    {
      for j := 0 to cols
        invariant forall i', j' :: 0 <= i' < i && 0 <= j' < cols ==> matrix[i', j'] == Mod(Dot(a, b, i', j', inner), 26)
        invariant forall j' :: 0 <= j' < j ==> matrix[i, j'] == Mod(Dot(a, b, i, j', inner), 26)
      {
        var sum := 0;
        for k := 0 to inner
          invariant sum == Dot(a, b, i, j, k)
        {
          sum := sum + a[i][k] * b[k][j];
        }
        matrix[i, j] := Mod(sum, 26);
      }
    }
    RectEqual(Rows(matrix), MatMul(a, b).value, rows, cols);
    return Ok(Rows(matrix));
  }

  // ---- identity and associativity ----

  function Identity(n: nat): (m: Matrix)
    ensures IsRect(m, n, n)
    ensures forall i, j :: 0 <= i < n && 0 <= j < n ==> m[i][j] == if i == j then 1 else 0
  {
    seq(n, i requires 0 <= i < n => seq(n, j requires 0 <= j < n => if i == j then 1 else 0))
  }

  /** The identity is neutral on either side for a reduced matrix. */
  lemma IdentityNeutral(p: Matrix, rows: nat, cols: nat)
    requires rows > 0 && cols > 0 && IsRect(p, rows, cols) && Reduced(p)
    ensures MatMul(Identity(rows), p) == Ok(p)
    ensures MatMul(p, Identity(cols)) == Ok(p)
  {
    var left := MatMul(Identity(rows), p).value;
    forall i, j | 0 <= i < rows && 0 <= j < cols ensures left[i][j] == p[i][j] {
      SumSingle(rows, i, DotTerms(Identity(rows), p, i, j));
      ModOfResidue(p[i][j], 26);
    }
    RectEqual(left, p, rows, cols);
    var right := MatMul(p, Identity(cols)).value;
    forall i, j | 0 <= i < rows && 0 <= j < cols ensures right[i][j] == p[i][j] {
      SumSingle(cols, j, DotTerms(p, Identity(cols), i, j));
      ModOfResidue(p[i][j], 26);
    }
    RectEqual(right, p, rows, cols);
  }

  /** The summands a[i][k] * (b[k][l] * c[l][j]) of entry (i, j) of abc. */
  function Triple(a: Matrix, b: Matrix, c: Matrix, i: int, j: int): (int, int) -> int
  {
    (k, l) => Get(a, i, k) * (Get(b, k, l) * Get(c, l, j))
  }

  /** Term k of entry (i, j) of a(bc) is row sum k of the double sum. */
  lemma AssocLeftTerm(a: Matrix, b: Matrix, c: Matrix, bc: Matrix, r: nat, i: int, j: int, k: int)
    requires forall k' :: 0 <= k' < |bc| && 0 <= j < |bc[k']| ==> bc[k'][j] == Mod(Dot(b, c, k', j, r), 26)
    requires 0 <= k < |bc| && 0 <= j < |bc[k]|
    ensures Mod(DotTerms(a, bc, i, j)(k), 26) == Mod(RowSums(Triple(a, b, c, i, j), r)(k), 26)
  {
    var F := Triple(a, b, c, i, j);
    SumScale(r, Get(a, i, k), DotTerms(b, c, k, j), RowTerms(F, k));
    ModMulLeft(Dot(b, c, k, j, r), Get(a, i, k), 26);
    assert Dot(b, c, k, j, r) * Get(a, i, k) == Get(a, i, k) * Dot(b, c, k, j, r);
    assert Mod(Dot(b, c, k, j, r), 26) * Get(a, i, k) == Get(a, i, k) * Get(bc, k, j);
  }

  /** Term l of entry (i, j) of (ab)c is column sum l of the double sum. */
  lemma AssocRightTerm(a: Matrix, b: Matrix, c: Matrix, ab: Matrix, q: nat, i: int, j: int, l: int)
    requires 0 <= i < |ab| && 0 <= l < |ab[i]| && ab[i][l] == Mod(Dot(a, b, i, l, q), 26)
    ensures Mod(DotTerms(ab, c, i, j)(l), 26) == Mod(ColSums(Triple(a, b, c, i, j), q)(l), 26)
  {
    var F := Triple(a, b, c, i, j);
    forall k | 0 <= k < q ensures ColTerms(F, l)(k) == Get(c, l, j) * DotTerms(a, b, i, l)(k) {
      assert Get(a, i, k) * (Get(b, k, l) * Get(c, l, j)) == Get(c, l, j) * (Get(a, i, k) * Get(b, k, l));
    }
    SumScale(q, Get(c, l, j), DotTerms(a, b, i, l), ColTerms(F, l));
    ModMulLeft(Dot(a, b, i, l, q), Get(c, l, j), 26);
    assert Dot(a, b, i, l, q) * Get(c, l, j) == Get(c, l, j) * Dot(a, b, i, l, q);
  }

  /** Entry (i, j) of a(bc) and of (ab)c agree: both are the double sum of
      a[i][k] * b[k][l] * c[l][j] modulo 26. */
  lemma AssocEntry(a: Matrix, b: Matrix, c: Matrix, q: nat, r: nat, s: nat, i: int, j: int)
    requires q > 0 && r > 0 && s > 0 && IsRect(b, q, r) && IsRect(c, r, s)
    requires |a| > 0 && IsRect(a, |a|, q) && 0 <= i < |a| && 0 <= j < s
    ensures Mod(Dot(a, MatMul(b, c).value, i, j, q), 26) == Mod(Dot(MatMul(a, b).value, c, i, j, r), 26)
  {
    var bc := MatMul(b, c).value;
    var ab := MatMul(a, b).value;
    var F := Triple(a, b, c, i, j);
    forall k | 0 <= k < q ensures Mod(DotTerms(a, bc, i, j)(k), 26) == Mod(RowSums(F, r)(k), 26) {
      AssocLeftTerm(a, b, c, bc, r, i, j, k);
    }
    SumCongruent(q, DotTerms(a, bc, i, j), RowSums(F, r));
    forall l | 0 <= l < r ensures Mod(DotTerms(ab, c, i, j)(l), 26) == Mod(ColSums(F, q)(l), 26) {
      AssocRightTerm(a, b, c, ab, q, i, j, l);
    }
    SumCongruent(r, DotTerms(ab, c, i, j), ColSums(F, q));
    SumSwap(q, r, F);
  }

  /** The product modulo 26 is associative. */
  lemma MatMulAssoc(a: Matrix, b: Matrix, c: Matrix, q: nat, r: nat, s: nat)
    requires q > 0 && r > 0 && s > 0 && IsRect(b, q, r) && IsRect(c, r, s)
    requires |a| > 0 && IsRect(a, |a|, q)
    ensures MatMul(a, MatMul(b, c).value) == MatMul(MatMul(a, b).value, c)
  {
    var bc := MatMul(b, c).value;
    var ab := MatMul(a, b).value;
    var left := MatMul(a, bc).value;
    var right := MatMul(ab, c).value;
    forall i, j | 0 <= i < |a| && 0 <= j < s ensures left[i][j] == right[i][j] {
      AssocEntry(a, b, c, q, r, s, i, j);
    }
    RectEqual(left, right, |a|, s);
  }

  // ---- the inverse ----

  /** `cofactorMatrix[i][j]` (src/lib/ciphers/core.ts:247-252) */
  function Cofactor(m: Matrix, i: int, j: int): (c: int)
    requires IsSquare(m) && |m| >= 2 && 0 <= i < |m| && 0 <= j < |m|
    ensures 0 <= c < 26
  {
    Mod(Sign(i + j) * MinorDet(m, i, j), 26)
  }

  /** `inverseMat` (src/lib/ciphers/core.ts:224-268): the adjugate scaled by the
      inverse of the determinant modulo 26, and `[[detInv]]` for a 1×1 matrix. */
  function InverseMat(m: Matrix): (r: Result<Matrix, HillError>)
    requires IsSquare(m)
    ensures !IsCoprime(Det(m), 26) ==> r == Err(DetNotCoprime(Det(m)))
    ensures r.Ok? <==> IsCoprime(Det(m), 26)
    ensures r.Ok? ==> IsRect(r.value, |m|, |m|) && Reduced(r.value)
  {
    var det := Det(m);
    if !IsCoprime(det, 26) then Err(DetNotCoprime(det))
    else
      var detInv := ModInverseOf(det, 26);
      CoprimeOfMod(det, 26);
      ModInverseExistsIffCoprime(det, 26);
      if detInv == -1 then Err(NoInverse)
      else if |m| == 1 then Ok([[detInv]])
      else
        Ok(seq(|m|, i requires 0 <= i < |m| =>
          seq(|m|, j requires 0 <= j < |m| => Mod(Cofactor(m, j, i) * detInv, 26))))
  }

  /** `inverseMat` with the cofactor, adjugate and inverse grids filled in place. */
  method InverseMatLoops(matrix: Matrix) returns (r: Result<Matrix, HillError>)
    requires IsSquare(matrix)
    ensures r == InverseMat(matrix)
  {
    var n := |matrix|;
    var det := DeterminantMat(matrix);
    if Gcd(det, 26) != 1 {
      return Err(DetNotCoprime(det));
    }
    var detInv := ModInverse(det, 26);
    CoprimeOfMod(det, 26);
    ModInverseExistsIffCoprime(det, 26);
    if detInv == -1 {
      return Err(NoInverse);
    }
    if n == 1 {
      return Ok([[detInv]]);
    }
    var cofactorMatrix := CofactorGrid(matrix);
    var adjugateMatrix := Transpose(cofactorMatrix);
    var inverse := ScaleGrid(adjugateMatrix, detInv);
    ghost var spec := InverseMat(matrix).value;
    assert forall i, j :: 0 <= i < n && 0 <= j < n ==> spec[i][j] == Mod(Cofactor(matrix, j, i) * detInv, 26);
    RectEqual(Rows(inverse), spec, n, n);
    return Ok(Rows(inverse));
  }

  /** The loops at src/lib/ciphers/core.ts:245-253: every cofactor. */
  method CofactorGrid(matrix: Matrix) returns (g: array2<int>)
    requires IsSquare(matrix) && |matrix| >= 2
    ensures fresh(g) && g.Length0 == |matrix| && g.Length1 == |matrix|
    ensures forall i, j :: 0 <= i < |matrix| && 0 <= j < |matrix| ==> g[i, j] == Cofactor(matrix, i, j)
  {
    var n := |matrix|;
    g := new int[n, n]((i, j) => 0);
    for i := 0 to n
      invariant forall i', j :: 0 <= i' < i && 0 <= j < n ==> g[i', j] == Cofactor(matrix, i', j)
    {
      for j := 0 to n
        invariant forall i', j' :: 0 <= i' < i && 0 <= j' < n ==> g[i', j'] == Cofactor(matrix, i', j')
        invariant forall j' :: 0 <= j' < j ==> g[i, j'] == Cofactor(matrix, i, j')
      {
        var c := CofactorAt(matrix, i, j);
        g[i, j] := c;
      }
    }
  }

  /** The body of the cofactor loop: the signed determinant of a minor. */
  method CofactorAt(matrix: Matrix, i: int, j: int) returns (c: int)
    requires IsSquare(matrix) && |matrix| >= 2 && 0 <= i < |matrix| && 0 <= j < |matrix|
    ensures c == Cofactor(matrix, i, j)
  {
    var minorDet := MinorDeterminant(matrix, i, j);
    c := Mod(Sign(i + j) * minorDet, 26);
  }

  /** The loops at src/lib/ciphers/core.ts:255-259: the transpose. */
  method Transpose(g: array2<int>) returns (t: array2<int>)
    requires g.Length0 == g.Length1
    ensures fresh(t) && t.Length0 == g.Length0 && t.Length1 == g.Length0
    ensures forall i, j :: 0 <= i < t.Length0 && 0 <= j < t.Length1 ==> t[i, j] == g[j, i]
  {
    var n := g.Length0;
    t := new int[n, n]((i, j) => 0);
    for i := 0 to n
      invariant forall i', j :: 0 <= i' < i && 0 <= j < n ==> t[i', j] == g[j, i']
    {
      for j := 0 to n
        invariant forall i', j' :: 0 <= i' < i && 0 <= j' < n ==> t[i', j'] == g[j', i']
        invariant forall j' :: 0 <= j' < j ==> t[i, j'] == g[j', i]
      {
        t[i, j] := g[j, i];
      }
    }
  }

  /** The loops at src/lib/ciphers/core.ts:261-266: every entry times k, modulo 26. */
  method ScaleGrid(g: array2<int>, k: int) returns (s: array2<int>)
    ensures fresh(s) && s.Length0 == g.Length0 && s.Length1 == g.Length1
    ensures forall i, j :: 0 <= i < s.Length0 && 0 <= j < s.Length1 ==> s[i, j] == Mod(g[i, j] * k, 26)
  {
    s := new int[g.Length0, g.Length1]((i, j) => 0);
    for i := 0 to g.Length0
      invariant forall i', j :: 0 <= i' < i && 0 <= j < g.Length1 ==> s[i', j] == Mod(g[i', j] * k, 26)
    {
      for j := 0 to g.Length1
        invariant forall i', j' :: 0 <= i' < i && 0 <= j' < g.Length1 ==> s[i', j'] == Mod(g[i', j'] * k, 26)
        invariant forall j' :: 0 <= j' < j ==> s[i, j'] == Mod(g[i, j'] * k, 26)
      {
        s[i, j] := Mod(g[i, j] * k, 26);
      }
    }
  }

  /** A left and right inverse modulo 26. */
  predicate InvertsModulo26(inv: Matrix, m: Matrix)
  {
    MatMul(inv, m) == Ok(Identity(|m|)) && MatMul(m, inv) == Ok(Identity(|m|))
  }

  /** The 2×2 adjugate identity: mod(mod(p·i) * x + mod(q·i) * y, 26) agrees with
      i·(p·x + q·y) modulo 26. */
  lemma ScaledCombination(p: int, q: int, x: int, y: int, di: int)
    ensures Mod(Mod(Mod(p, 26) * di, 26) * x + Mod(Mod(q, 26) * di, 26) * y, 26)
      == Mod(di * (p * x + q * y), 26)
  {
    var a, b := Mod(Mod(p, 26) * di, 26), Mod(Mod(q, 26) * di, 26);
    ModMulLeft(p, di, 26);
    ModMulLeft(q, di, 26);
    ModMulLeft(p * di, x, 26);
    ModMulLeft(q * di, y, 26);
    ModCombination(a * x, p * di * x, b * y, q * di * y, 1);
    assert 1 * (b * y) == b * y && 1 * (q * di * y) == q * di * y;
    assert p * di * x + q * di * y == di * (p * x + q * y);
  }

  /** A residue times an inverse of the determinant is 1 modulo 26. */
  lemma InverseTimesDet(raw: int, di: int)
    requires Mod(Mod(raw, 26) * di, 26) == 1
    ensures Mod(di * raw, 26) == 1
  {
    ModMulLeft(raw, di, 26);
    assert raw * di == di * raw;
  }

  /** An entry of a product with the scaled adjugate whose sum is a multiple of
      the determinant. */
  lemma EntryOne(p: int, q: int, x: int, y: int, di: int, raw: int, u: int, v: int)
    requires p * x + q * y == raw && Mod(di * raw, 26) == 1
    requires u == Mod(Mod(p, 26) * di, 26) && v == Mod(Mod(q, 26) * di, 26)
    ensures Mod(u * x + v * y, 26) == 1 && Mod(x * u + y * v, 26) == 1
  {
    ScaledCombination(p, q, x, y, di);
    assert x * u + y * v == u * x + v * y;
  }

  /** An entry whose sum cancels out. */
  lemma EntryZero(p: int, q: int, x: int, y: int, di: int, u: int, v: int)
    requires p * x + q * y == 0
    requires u == Mod(Mod(p, 26) * di, 26) && v == Mod(Mod(q, 26) * di, 26)
    ensures Mod(u * x + v * y, 26) == 0 && Mod(x * u + y * v, 26) == 0
  {
    ScaledCombination(p, q, x, y, di);
    assert x * u + y * v == u * x + v * y;
    assert di * (p * x + q * y) == 0;
  }

  /** The determinant ad - bc, summed in the orders the adjugate products sum it. */
  lemma DeterminantOrders(a: int, b: int, c: int, d: int)
    ensures d * a + -b * c == a * d - b * c && -c * b + a * d == a * d - b * c
    ensures d * a + -c * b == a * d - b * c && -b * c + a * d == a * d - b * c
  {
  }

  /** The entries of the 2×2 adjugate scaled by di, times the matrix on the left. */
  lemma AdjugateLeft(a: int, b: int, c: int, d: int, di: int, x00: int, x01: int, x10: int, x11: int)
    requires Mod(di * (a * d - b * c), 26) == 1
    requires x00 == Mod(Mod(d, 26) * di, 26) && x01 == Mod(Mod(-b, 26) * di, 26)
    requires x10 == Mod(Mod(-c, 26) * di, 26) && x11 == Mod(Mod(a, 26) * di, 26)
    ensures Mod(x00 * a + x01 * c, 26) == 1 && Mod(x00 * b + x01 * d, 26) == 0
    ensures Mod(x10 * a + x11 * c, 26) == 0 && Mod(x10 * b + x11 * d, 26) == 1
  {
    DeterminantOrders(a, b, c, d);
    EntryOne(d, -b, a, c, di, a * d - b * c, x00, x01);
    EntryZero(d, -b, b, d, di, x00, x01);
    EntryZero(-c, a, a, c, di, x10, x11);
    EntryOne(-c, a, b, d, di, a * d - b * c, x10, x11);
  }

  /** The same entries, times the matrix on the right. */
  lemma AdjugateRight(a: int, b: int, c: int, d: int, di: int, x00: int, x01: int, x10: int, x11: int)
    requires Mod(di * (a * d - b * c), 26) == 1
    requires x00 == Mod(Mod(d, 26) * di, 26) && x01 == Mod(Mod(-b, 26) * di, 26)
    requires x10 == Mod(Mod(-c, 26) * di, 26) && x11 == Mod(Mod(a, 26) * di, 26)
    ensures Mod(a * x00 + b * x10, 26) == 1 && Mod(a * x01 + b * x11, 26) == 0
    ensures Mod(c * x00 + d * x10, 26) == 0 && Mod(c * x01 + d * x11, 26) == 1
  {
    DeterminantOrders(a, b, c, d);
    EntryOne(d, -c, a, b, di, a * d - b * c, x00, x10);
    EntryZero(-b, a, a, b, di, x01, x11);
    EntryZero(d, -c, c, d, di, x00, x10);
    EntryOne(-b, a, c, d, di, a * d - b * c, x01, x11);
  }

  /** A 2×2 product whose four sums are those of the identity modulo 26. */
  lemma TwoByTwoIdentity(x: Matrix, y: Matrix)
    requires IsRect(x, 2, 2) && IsRect(y, 2, 2)
    requires Mod(Dot(x, y, 0, 0, 2), 26) == 1 && Mod(Dot(x, y, 0, 1, 2), 26) == 0
    requires Mod(Dot(x, y, 1, 0, 2), 26) == 0 && Mod(Dot(x, y, 1, 1, 2), 26) == 1
    ensures MatMul(x, y) == Ok(Identity(2))
  {
    var p := MatMul(x, y).value;
    assert p == [[1, 0], [0, 1]] by {
      assert p[0] == [1, 0] && p[1] == [0, 1];
    }
    assert Identity(2) == [[1, 0], [0, 1]] by {
      assert Identity(2)[0] == [1, 0] && Identity(2)[1] == [0, 1];
    }
  }

  /** The inverse of a 2×2 key with a determinant prime to 26. */
  lemma TwoByTwoInverseEntries(m: Matrix)
    requires IsSquare(m) && |m| == 2 && IsCoprime(Det(m), 26)
    ensures InverseMat(m).Ok?
    ensures var di := ModInverseOf(Det(m), 26); var inv := InverseMat(m).value;
      IsRect(inv, 2, 2) &&
      inv[0][0] == Mod(Mod(m[1][1], 26) * di, 26) && inv[0][1] == Mod(Mod(-m[0][1], 26) * di, 26) &&
      inv[1][0] == Mod(Mod(-m[1][0], 26) * di, 26) && inv[1][1] == Mod(Mod(m[0][0], 26) * di, 26) &&
      Mod(di * (m[0][0] * m[1][1] - m[0][1] * m[1][0]), 26) == 1
  {
    var det := Det(m);
    var di := ModInverseOf(det, 26);
    CoprimeOfMod(det, 26);
    ModInverseExistsIffCoprime(det, 26);
    ModOfResidue(det, 26);
    InverseTimesDet(m[0][0] * m[1][1] - m[0][1] * m[1][0], di);
    TwoByTwoCofactors(m);
    var inv := InverseMat(m).value;
    assert inv[0] == [Mod(Mod(m[1][1], 26) * di, 26), Mod(Mod(-m[0][1], 26) * di, 26)];
    assert inv[1] == [Mod(Mod(-m[1][0], 26) * di, 26), Mod(Mod(m[0][0], 26) * di, 26)];
  }

  /** For a 1×1 or 2×2 key with a determinant prime to 26, `inverseMat` is an
      inverse modulo 26 on both sides. */
  lemma SmallInverse(m: Matrix)
    requires IsSquare(m) && |m| <= 2 && IsCoprime(Det(m), 26)
    ensures InverseMat(m).Ok? && InvertsModulo26(InverseMat(m).value, m)
  {
    if |m| == 1 {
      OneByOneInverse(m);
    } else {
      TwoByTwoInverse(m);
    }
  }

  lemma TwoByTwoInverse(m: Matrix)
    requires IsSquare(m) && |m| == 2 && IsCoprime(Det(m), 26)
    ensures InverseMat(m).Ok? && InvertsModulo26(InverseMat(m).value, m)
  {
    TwoByTwoInverseEntries(m);
    var inv := InverseMat(m).value;
    var di := ModInverseOf(Det(m), 26);
    InverseOnLeft(inv, m, di);
    InverseOnRight(inv, m, di);
  }

  /** The entries of the scaled 2×2 adjugate of m. */
  predicate IsScaledAdjugate(inv: Matrix, m: Matrix, di: int)
  {
    IsRect(inv, 2, 2) && IsRect(m, 2, 2) &&
    inv[0][0] == Mod(Mod(m[1][1], 26) * di, 26) && inv[0][1] == Mod(Mod(-m[0][1], 26) * di, 26) &&
    inv[1][0] == Mod(Mod(-m[1][0], 26) * di, 26) && inv[1][1] == Mod(Mod(m[0][0], 26) * di, 26) &&
    Mod(di * (m[0][0] * m[1][1] - m[0][1] * m[1][0]), 26) == 1
  }

  lemma InverseOnLeft(inv: Matrix, m: Matrix, di: int)
    requires IsScaledAdjugate(inv, m, di)
    ensures MatMul(inv, m) == Ok(Identity(2))
  {
    AdjugateLeft(m[0][0], m[0][1], m[1][0], m[1][1], di, inv[0][0], inv[0][1], inv[1][0], inv[1][1]);
    TwoByTwoDot(inv, m, 0, 0);
    TwoByTwoDot(inv, m, 0, 1);
    TwoByTwoDot(inv, m, 1, 0);
    TwoByTwoDot(inv, m, 1, 1);
    TwoByTwoIdentity(inv, m);
  }

  lemma InverseOnRight(inv: Matrix, m: Matrix, di: int)
    requires IsScaledAdjugate(inv, m, di)
    ensures MatMul(m, inv) == Ok(Identity(2))
  {
    AdjugateRight(m[0][0], m[0][1], m[1][0], m[1][1], di, inv[0][0], inv[0][1], inv[1][0], inv[1][1]);
    TwoByTwoDot(m, inv, 0, 0);
    TwoByTwoDot(m, inv, 0, 1);
    TwoByTwoDot(m, inv, 1, 0);
    TwoByTwoDot(m, inv, 1, 1);
    TwoByTwoIdentity(m, inv);
  }

  lemma OneByOneInverse(m: Matrix)
    requires IsSquare(m) && |m| == 1 && IsCoprime(Det(m), 26)
    ensures InverseMat(m).Ok? && InvertsModulo26(InverseMat(m).value, m)
  {
    var di := ModInverseOf(m[0][0], 26);
    CoprimeOfMod(m[0][0], 26);
    ModInverseExistsIffCoprime(m[0][0], 26);
    var inv := InverseMat(m).value;
    assert inv == [[di]];
    InverseTimesDet(m[0][0], di);
    OneByOneProduct(inv, m);
    OneByOneProduct(m, inv);
  }

  /** A 1×1 product whose entry is 1 modulo 26. */
  lemma OneByOneProduct(x: Matrix, y: Matrix)
    requires IsRect(x, 1, 1) && IsRect(y, 1, 1) && Mod(x[0][0] * y[0][0], 26) == 1
    ensures MatMul(x, y) == Ok(Identity(1))
  {
    var p := MatMul(x, y).value;
    assert Dot(x, y, 0, 0, 1) == x[0][0] * y[0][0];
    RectEqual(p, Identity(1), 1, 1);
  }

  /** The four cofactors of a 2×2 matrix. */
  lemma TwoByTwoCofactors(m: Matrix)
    requires IsSquare(m) && |m| == 2
    ensures Cofactor(m, 0, 0) == Mod(m[1][1], 26) && Cofactor(m, 0, 1) == Mod(-m[1][0], 26)
    ensures Cofactor(m, 1, 0) == Mod(-m[0][1], 26) && Cofactor(m, 1, 1) == Mod(m[0][0], 26)
  {
    MinorDetOfTwo(m, 0, 0);
    MinorDetOfTwo(m, 0, 1);
    MinorDetOfTwo(m, 1, 0);
    MinorDetOfTwo(m, 1, 1);
    assert Sign(0) == 1 && Sign(1) == -1 && Sign(2) == 1;
  }

  /** The four sums of a product of 2×2 matrices. */
  lemma TwoByTwoDot(x: Matrix, y: Matrix, i: int, j: int)
    requires IsRect(x, 2, 2) && IsRect(y, 2, 2) && 0 <= i < 2 && 0 <= j < 2
    ensures Dot(x, y, i, j, 2) == x[i][0] * y[0][j] + x[i][1] * y[1][j]
  {
  }
}
