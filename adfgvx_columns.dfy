/** The columnar transposition of `adfgvxCipher`: the grid and the column read of
    the encryption (src/lib/ciphers/adfgvx.ts:45-65), and the column split and the
    row read of the decryption (lines 74-98). The fractionated stream f is laid out
    row by row in `cols` columns; column c holds f[c], f[c + cols], f[c + 2·cols], … */
module AdfgvxColumns {
  import opened JsText
  import opened ModArith
  import opened AdfgvxKey

  // ---- concatenations of columns ----

  function Concat(xs: seq<string>): string
    decreases |xs|
  {
    if xs == [] then [] else Concat(xs[..|xs| - 1]) + xs[|xs| - 1]
  }

  lemma {:induction false} ConcatAppend(a: seq<string>, b: seq<string>)
    ensures Concat(a + b) == Concat(a) + Concat(b)
    decreases |b|
  {
    if b == [] {
      assert a + b == a;
    } else {
      var m := |b| - 1;
      ConcatAppend(a, b[..m]);
      AppendInit(a, b);
      AppendAssoc(Concat(a), Concat(b[..m]), b[m]);
    }
  }

  lemma ConcatSingle(x: string)
    ensures Concat([x]) == x
  {
    assert [x][..0] == [];
  }

  /** Element p of a sequence of strings sits in their concatenation right after
      the elements before it. */
  lemma ConcatSlice(xs: seq<string>, p: int)
    requires 0 <= p < |xs|
    ensures |Concat(xs[..p])| + |xs[p]| <= |Concat(xs)|
    ensures Concat(xs)[|Concat(xs[..p])|..|Concat(xs[..p])| + |xs[p]|] == xs[p]
  {
    assert xs == xs[..p] + ([xs[p]] + xs[p + 1..]);
    ConcatAppend(xs[..p], [xs[p]] + xs[p + 1..]);
    ConcatAppend([xs[p]], xs[p + 1..]);
    ConcatSingle(xs[p]);
  }

  /** Appending a character to one element appends it to the multiset of the concatenation. */
  lemma ConcatUpdate(xs: seq<string>, c: int, x: char)
    requires 0 <= c < |xs|
    ensures multiset(Concat(xs[c := xs[c] + [x]])) == multiset(Concat(xs)) + multiset{x}
  {
    var ys := xs[c := xs[c] + [x]];
    assert xs == xs[..c] + ([xs[c]] + xs[c + 1..]);
    assert ys == xs[..c] + ([xs[c] + [x]] + xs[c + 1..]);
    ConcatAppend(xs[..c], [xs[c]] + xs[c + 1..]);
    ConcatAppend([xs[c]], xs[c + 1..]);
    ConcatSingle(xs[c]);
    ConcatAppend(xs[..c], [xs[c] + [x]] + xs[c + 1..]);
    ConcatAppend([xs[c] + [x]], xs[c + 1..]);
    ConcatSingle(xs[c] + [x]);
  }

  /** The strings of xs in the order `order` names them. */
  function Permute(xs: seq<string>, order: seq<int>): (ys: seq<string>)
    requires forall q :: 0 <= q < |order| ==> 0 <= order[q] < |xs|
    ensures |ys| == |order| && forall q :: 0 <= q < |order| ==> ys[q] == xs[order[q]]
  {
    seq(|order|, q requires 0 <= q < |order| => xs[order[q]])
  }

  /** Taking the elements in another order rearranges the concatenation. */
  lemma {:induction false} ConcatPermuted(xs: seq<string>, order: seq<int>)
    requires IsOrderOf(order, |xs|)
    ensures multiset(Concat(Permute(xs, order))) == multiset(Concat(xs))
    decreases |xs|
  {
    var n := |xs|;
    if n > 0 {
      assert n - 1 in order;
      var p0 :| 0 <= p0 < n && order[p0] == n - 1;
      var last, init := xs[n - 1], xs[..n - 1];
      var a, b := PermuteSplit(xs, order, p0);
      ConcatPermuted(init, order[..p0] + order[p0 + 1..]);
      ConcatThree(a, last, b);
      ConcatAppend(a, b);
      ConcatAppend(init, [last]);
      ConcatSingle(last);
      SplitLast(xs);
    }
  }

  lemma ConcatThree(a: seq<string>, x: string, b: seq<string>)
    ensures Concat(a + ([x] + b)) == Concat(a) + (x + Concat(b))
  {
    ConcatAppend(a, [x] + b);
    ConcatAppend([x], b);
    ConcatSingle(x);
  }

  /** Splitting a permutation at the position of the last element. */
  lemma PermuteSplit(xs: seq<string>, order: seq<int>, p0: int) returns (a: seq<string>, b: seq<string>)
    requires IsOrderOf(order, |xs|) && 0 <= p0 < |xs| && order[p0] == |xs| - 1
    ensures Permute(xs, order) == a + ([xs[|xs| - 1]] + b)
    ensures IsOrderOf(order[..p0] + order[p0 + 1..], |xs| - 1)
    ensures Permute(xs[..|xs| - 1], order[..p0] + order[p0 + 1..]) == a + b
  {
    WithoutLast(order, |xs|, p0);
    a, b := PermuteAround(xs, order, p0);
  }

  lemma PermuteAround(xs: seq<string>, order: seq<int>, p0: int) returns (a: seq<string>, b: seq<string>)
    requires |xs| > 0 && 0 <= p0 < |order| && order[p0] == |xs| - 1
    requires forall q :: 0 <= q < |order| ==> 0 <= order[q] < |xs|
    requires var rest := order[..p0] + order[p0 + 1..]; forall q :: 0 <= q < |rest| ==> 0 <= rest[q] < |xs| - 1
    ensures Permute(xs, order) == a + ([xs[|xs| - 1]] + b)
    ensures Permute(xs[..|xs| - 1], order[..p0] + order[p0 + 1..]) == a + b
  {
    var n := |xs|;
    a, b := Permute(xs, order[..p0]), Permute(xs, order[p0 + 1..]);
    var rest := order[..p0] + order[p0 + 1..];
    var whole, part := Permute(xs, order), Permute(xs[..n - 1], rest);
    forall q | 0 <= q < |order| ensures whole[q] == (a + ([xs[n - 1]] + b))[q] {
      if q > p0 {
        assert whole[q] == b[q - p0 - 1];
      }
    }
    forall q | 0 <= q < |rest| ensures part[q] == (a + b)[q] {
      if q >= p0 {
        assert part[q] == b[q - p0];
      }
    }
  }

  /** Removing the last position from an order leaves an order of the others. */
  lemma WithoutLast(order: seq<int>, n: int, p0: int)
    requires IsOrderOf(order, n) && 0 <= p0 < n && order[p0] == n - 1
    ensures IsOrderOf(order[..p0] + order[p0 + 1..], n - 1)
  {
    var rest := order[..p0] + order[p0 + 1..];
    assert forall q :: 0 <= q < |rest| ==> rest[q] == order[if q < p0 then q else q + 1];
    forall i | 0 <= i < n - 1 ensures i in rest {
      assert i in order;
      var j :| 0 <= j < n && order[j] == i;
      assert rest[if j < p0 then j else j - 1] == i;
    }
  }

  // ---- the columns of a stream ----

  lemma MulMono(a: int, b: int, m: int)
    requires a <= b && m >= 0
    ensures a * m <= b * m
  {
    assert b * m - a * m == (b - a) * m;
  }

  /** How many characters of a stream of length len fall in column c. */
  function ColumnLength(len: int, cols: int, c: int): (n: int)
    requires cols > 0
    ensures n >= 0
  {
    if c < len then (len - 1 - c) / cols + 1 else 0
  }

  /** Row r of column c holds a character exactly when its position is inside the stream. */
  lemma ColumnLengthSpec(len: int, cols: int, c: int, r: int)
    requires cols > 0 && 0 <= c && 0 <= r
    ensures r < ColumnLength(len, cols, c) <==> r * cols + c < len
  {
    MulMono(0, r, cols);
    if c < len {
      var q := (len - 1 - c) / cols;
      assert len - 1 - c == q * cols + (len - 1 - c) % cols;
      if r <= q {
        MulMono(r, q, cols);
      } else {
        MulMono(q + 1, r, cols);
      }
    }
  }

  function ColumnChar(f: string, cols: int, c: int, r: int): char
    requires cols > 0 && 0 <= c && 0 <= r < ColumnLength(|f|, cols, c)
  {
    ColumnLengthSpec(|f|, cols, c, r);
    f[r * cols + c]
  }
  /** Column c of the stream f, top to bottom. */
  function Column(f: string, cols: int, c: int): (col: string)
    requires cols > 0 && 0 <= c
    ensures |col| == ColumnLength(|f|, cols, c)
  {
    seq(ColumnLength(|f|, cols, c), r requires 0 <= r < ColumnLength(|f|, cols, c) => ColumnChar(f, cols, c, r))
  }
  lemma ColumnAt(f: string, cols: int, c: int, r: int)
    requires cols > 0 && 0 <= c && 0 <= r < ColumnLength(|f|, cols, c)
    ensures r * cols + c < |f| && Column(f, cols, c)[r] == f[r * cols + c]
  {
    ColumnLengthSpec(|f|, cols, c, r);
  }


  function Columns(f: string, cols: int): (xs: seq<string>)
    requires cols > 0
    ensures |xs| == cols && forall c :: 0 <= c < cols ==> xs[c] == Column(f, cols, c)
  {
    seq(cols, c requires 0 <= c < cols => Column(f, cols, c))
  }

  /** One more character in the stream lengthens only the column it falls in. */
  lemma ColumnLengthStep(k: int, cols: int, c: int)
    requires cols > 0 && 0 <= c < cols && 0 <= k
    ensures ColumnLength(k + 1, cols, c) == if c == k % cols then ColumnLength(k, cols, c) + 1 else ColumnLength(k, cols, c)
  {
    var q := k / cols;
    assert k == q * cols + k % cols;
    if c == k % cols {
      ColumnLengthGrows(k, cols, c, q);
    } else {
      ColumnLengthStays(k, cols, c);
    }
  }

  lemma ColumnLengthGrows(k: int, cols: int, c: int, q: int)
    requires cols > 0 && 0 <= c < cols && 0 <= q && k == q * cols + c
    ensures ColumnLength(k + 1, cols, c) == q + 1 && ColumnLength(k, cols, c) == q
  {
    ColumnLengthSpec(k, cols, c, q);
    ColumnLengthSpec(k + 1, cols, c, q);
    ColumnLengthSpec(k + 1, cols, c, q + 1);
    assert (q + 1) * cols + c == k + cols;
    if q > 0 {
      ColumnLengthSpec(k, cols, c, q - 1);
      assert (q - 1) * cols + c == k - cols;
    }
  }

  lemma ColumnLengthStays(k: int, cols: int, c: int)
    requires cols > 0 && 0 <= c < cols && 0 <= k && c != k % cols
    ensures ColumnLength(k + 1, cols, c) == ColumnLength(k, cols, c)
  {
    var a := ColumnLength(k, cols, c);
    ColumnLengthSpec(k, cols, c, a);
    ColumnLengthSpec(k + 1, cols, c, a);
    if a * cols + c == k {
      DivModUnique(k, cols, a, c);
    }
    if a > 0 {
      ColumnLengthSpec(k, cols, c, a - 1);
      ColumnLengthSpec(k + 1, cols, c, a - 1);
    }
  }

  /** A column of a longer stream: unchanged, except for the column the new
      character falls in. */
  lemma ColumnStep(g: string, cols: int, c: int)
    requires cols > 0 && 0 <= c < cols && |g| > 0
    ensures var k := |g| - 1;
      Column(g, cols, c) == if c == k % cols then Column(g[..k], cols, c) + [g[k]] else Column(g[..k], cols, c)
  {
    var k := |g| - 1;
    var old_, new_ := Column(g[..k], cols, c), Column(g, cols, c);
    ColumnLengthStep(k, cols, c);
    forall r | 0 <= r < |old_| ensures new_[r] == old_[r] {
      ColumnAt(g[..k], cols, c, r);
      ColumnAt(g, cols, c, r);
    }
    if c == k % cols {
      var r := |old_|;
      ColumnAt(g, cols, c, r);
      ColumnLengthSpec(k, cols, c, r);
      assert r * cols + c == k;
      assert new_ == old_ + [g[k]];
    } else {
      assert new_ == old_;
    }
  }

  lemma ColumnsStep(g: string, cols: int)
    requires cols > 0 && |g| > 0
    ensures var k := |g| - 1;
      Columns(g, cols) == Columns(g[..k], cols)[k % cols := Column(g[..k], cols, k % cols) + [g[k]]]
  {
    var k := |g| - 1;
    forall c | 0 <= c < cols
      ensures Columns(g, cols)[c] == Columns(g[..k], cols)[k % cols := Column(g[..k], cols, k % cols) + [g[k]]][c]
    {
      ColumnStep(g, cols, c);
    }
  }

  lemma ConcatEmpties(xs: seq<string>)
    requires forall c :: 0 <= c < |xs| ==> xs[c] == []
    ensures Concat(xs) == []
    decreases |xs|
  {
    if xs != [] {
      ConcatEmpties(xs[..|xs| - 1]);
    }
  }

  /** The columns partition the stream: together they hold its characters, each once. */
  lemma {:induction false} ColumnsPartition(f: string, cols: int)
    requires cols > 0
    ensures multiset(Concat(Columns(f, cols))) == multiset(f)
    ensures |Concat(Columns(f, cols))| == |f|
    decreases |f|
  {
    if f == [] {
      ConcatEmpties(Columns(f, cols));
    } else {
      var k := |f| - 1;
      ColumnsPartition(f[..k], cols);
      ColumnsStep(f, cols);
      ConcatUpdate(Columns(f[..k], cols), k % cols, f[k]);
      SplitLast(f);
    }
    assert |multiset(Concat(Columns(f, cols)))| == |multiset(f)|;
  }

  // ---- the grid of the encryption (lines 45-65) ----

  /** `Math.ceil(len / cols)` for a non-negative length. */
  function Rows(len: int, cols: int): int
    requires cols > 0
  {
    (len + cols - 1) / cols
  }

  /** The rows and the short columns of a grid of len characters: len = (Rows - 1)·cols + long
      when the last row is partly filled, len = Rows·cols otherwise. */
  lemma ColumnLengthCases(len: int, cols: int, c: int)
    requires cols > 0 && 0 <= c < cols && 0 <= len
    ensures var long := len % cols;
      ColumnLength(len, cols, c)
      == if long == 0 || c < long then Rows(len, cols) else Rows(len, cols) - 1
  {
    var q, long := len / cols, len % cols;
    assert len == q * cols + long;
    MulMono(0, q, cols);
    if long == 0 {
      WholeRows(len, cols, c, q);
    } else {
      PartialRow(len, cols, c, q, long);
    }
  }

  /** A grid whose rows are all full: every column is as long as the grid is tall. */
  lemma WholeRows(len: int, cols: int, c: int, q: int)
    requires cols > 0 && 0 <= c < cols && q >= 0 && len == q * cols
    ensures ColumnLength(len, cols, c) == Rows(len, cols)
  {
    DivModUnique(len + cols - 1, cols, q, cols - 1);
    ColumnLengthSpec(len, cols, c, q);
    if q > 0 {
      ColumnLengthSpec(len, cols, c, q - 1);
      assert (q - 1) * cols + c == len - cols + c;
    }
  }

  /** A grid whose last row holds long characters: the first long columns reach it. */
  lemma PartialRow(len: int, cols: int, c: int, q: int, long: int)
    requires cols > 0 && 0 <= c < cols && q >= 0 && 0 < long < cols && len == q * cols + long
    ensures ColumnLength(len, cols, c) == if c < long then Rows(len, cols) else Rows(len, cols) - 1
  {
    DivModUnique(len + cols - 1, cols, q + 1, long - 1);
    ColumnLengthSpec(len, cols, c, q);
    if c < long {
      ColumnLengthSpec(len, cols, c, q + 1);
      assert (q + 1) * cols + c == len + cols - long + c;
    } else if q > 0 {
      ColumnLengthSpec(len, cols, c, q - 1);
      assert (q - 1) * cols + c == len - cols - long + c;
    }
  }

  /** No column is longer than the grid is tall. */
  lemma ColumnLengthAtMostRows(len: int, cols: int, c: int)
    requires cols > 0 && 0 <= c < cols && 0 <= len
    ensures ColumnLength(len, cols, c) <= Rows(len, cols)
  {
    ColumnLengthCases(len, cols, c);
  }

  /** `grid[r][c]`: the character at that place in the row-major fill, or the pad. */
  function Cell(f: string, pad: string, cols: int, r: int, c: int): string
    requires cols > 0 && 0 <= r && 0 <= c
  {
    if r * cols + c < |f| then [f[r * cols + c]] else pad
  }

  /** The first n cells of column c, top to bottom. */
  function ColumnCells(f: string, pad: string, cols: int, c: int, n: nat): string
    requires cols > 0 && 0 <= c
  {
    if n == 0 then [] else ColumnCells(f, pad, cols, c, n - 1) + Cell(f, pad, cols, n - 1, c)
  }

  /** The columns in sorted positions 0 .. p-1, each read top to bottom. */
  function ReadColumns(f: string, pad: string, cols: int, order: seq<int>, p: nat): string
    requires cols > 0 && p <= |order| && forall q :: 0 <= q < |order| ==> 0 <= order[q] < cols
  {
    if p == 0 then []
    else ReadColumns(f, pad, cols, order, p - 1) + ColumnCells(f, pad, cols, order[p - 1], Rows(|f|, cols))
  }

  /** The output of the encryption's transposition step. */
  function Transposed(f: string, pad: string, cols: int, order: seq<int>): string
    requires cols > 0 && forall q :: 0 <= q < |order| ==> 0 <= order[q] < cols
  {
    ReadColumns(f, pad, cols, order, |order|)
  }

  /** Without a pad, the cells of a column spell the column itself. */
  lemma {:induction false} ColumnCellsUnpadded(f: string, cols: int, c: int, n: nat)
    requires cols > 0 && 0 <= c < cols && ColumnLength(|f|, cols, c) <= n
    ensures ColumnCells(f, "", cols, c, n) == Column(f, cols, c)
  {
    var m := ColumnLength(|f|, cols, c);
    if n > m {
      ColumnCellsUnpadded(f, cols, c, n - 1);
      ColumnLengthSpec(|f|, cols, c, n - 1);
    } else {
      ColumnCellsPrefix(f, cols, c, n);
    }
  }

  lemma {:induction false} ColumnCellsPrefix(f: string, cols: int, c: int, n: nat)
    requires cols > 0 && 0 <= c < cols && n <= ColumnLength(|f|, cols, c)
    ensures ColumnCells(f, "", cols, c, n) == Column(f, cols, c)[..n]
  {
    if n > 0 {
      var col := Column(f, cols, c);
      ColumnCellsPrefix(f, cols, c, n - 1);
      ColumnAt(f, cols, c, n - 1);
      AppendInit(col[..n - 1], [col[n - 1]]);
      assert col[..n - 1] + [col[n - 1]] == col[..n];
    }
  }

  /** Without a pad, the encryption reads the columns in sorted order. */
  lemma {:induction false} ReadColumnsUnpadded(f: string, cols: int, order: seq<int>, p: nat)
    requires cols > 0 && p <= |order| && forall q :: 0 <= q < |order| ==> 0 <= order[q] < cols
    ensures ReadColumns(f, "", cols, order, p) == Concat(Permute(Columns(f, cols), order[..p]))
  {
    var xs := Columns(f, cols);
    if p == 0 {
      assert Permute(xs, order[..0]) == [];
    } else {
      ReadColumnsUnpadded(f, cols, order, p - 1);
      ColumnLengthAtMostRows(|f|, cols, order[p - 1]);
      ColumnCellsUnpadded(f, cols, order[p - 1], Rows(|f|, cols));
      PermuteLast(xs, order, p);
    }
  }

  lemma PermuteLast(xs: seq<string>, order: seq<int>, p: int)
    requires 0 < p <= |order| && forall q :: 0 <= q < |order| ==> 0 <= order[q] < |xs|
    ensures Concat(Permute(xs, order[..p])) == Concat(Permute(xs, order[..p - 1])) + xs[order[p - 1]]
  {
    var a, b := Permute(xs, order[..p - 1]), Permute(xs, order[..p]);
    assert b == a + [xs[order[p - 1]]];
    ConcatAppend(a, [xs[order[p - 1]]]);
    ConcatSingle(xs[order[p - 1]]);
  }

  /** With no pad, encryption's transposition only rearranges the stream: the
      output is the columns in sorted order, and holds each character of the stream once. */
  lemma TransposedUnpadded(f: string, cols: int, order: seq<int>)
    requires cols > 0 && IsOrderOf(order, cols)
    ensures Transposed(f, "", cols, order) == Concat(Permute(Columns(f, cols), order))
    ensures multiset(Transposed(f, "", cols, order)) == multiset(f)
    ensures |Transposed(f, "", cols, order)| == |f|
  {
    ReadColumnsUnpadded(f, cols, order, |order|);
    assert order[..|order|] == order;
    ConcatPermuted(Columns(f, cols), order);
    ColumnsPartition(f, cols);
    assert |multiset(Transposed(f, "", cols, order))| == |multiset(f)|;
  }

  /** With a one-character pad every cell holds one character: each column is Rows long,
      and the output fills the whole grid. */
  lemma {:induction false} ColumnCellsPadded(f: string, pad: string, cols: int, c: int, n: nat)
    requires cols > 0 && 0 <= c && |pad| == 1
    ensures |ColumnCells(f, pad, cols, c, n)| == n
  {
    if n > 0 {
      ColumnCellsPadded(f, pad, cols, c, n - 1);
    }
  }

  lemma {:induction false} ReadColumnsPadded(f: string, pad: string, cols: int, order: seq<int>, p: nat)
    requires cols > 0 && p <= |order| && forall q :: 0 <= q < |order| ==> 0 <= order[q] < cols
    requires |pad| == 1
    ensures |ReadColumns(f, pad, cols, order, p)| == p * Rows(|f|, cols)
  {
    if p > 0 {
      var rows := Rows(|f|, cols);
      ReadColumnsPadded(f, pad, cols, order, p - 1);
      ColumnCellsPadded(f, pad, cols, order[p - 1], rows);
      assert p * rows == (p - 1) * rows + rows;
    }
  }

  lemma TransposedPadded(f: string, pad: string, cols: int, order: seq<int>)
    requires cols > 0 && IsOrderOf(order, cols) && |pad| == 1
    ensures |Transposed(f, pad, cols, order)| == Rows(|f|, cols) * cols
    ensures var rows := Rows(|f|, cols); |f| <= rows * cols < |f| + cols
  {
    ReadColumnsPadded(f, pad, cols, order, |order|);
    RowsBounds(|f|, cols);
  }

  lemma RowsBounds(len: int, cols: int)
    requires cols > 0 && 0 <= len
    ensures 0 <= Rows(len, cols) && len <= Rows(len, cols) * cols < len + cols
  {
    var q, long := len / cols, len % cols;
    assert len == q * cols + long;
    MulMono(0, q, cols);
    if long == 0 {
      DivModUnique(len + cols - 1, cols, q, cols - 1);
    } else {
      DivModUnique(len + cols - 1, cols, q + 1, long - 1);
      assert (q + 1) * cols == q * cols + cols;
    }
  }

  // ---- the column split and row read of the decryption (lines 74-98) ----

  /** `cursor` before sorted position p: the lengths of the columns cut so far. */
  function Cursor(lens: seq<int>, p: nat): int
    requires p <= |lens|
  {
    if p == 0 then 0 else Cursor(lens, p - 1) + lens[p - 1]
  }

  /** `colData` after the first p sorted positions: original column order[q] gets
      the lens[q] characters at the cursor. */
  function SplitColumns(cipher: string, order: seq<int>, lens: seq<int>, p: nat): map<int, string>
    requires p <= |order| == |lens|
  {
    if p == 0 then map[]
    else
      var cursor := Cursor(lens, p - 1);
      SplitColumns(cipher, order, lens, p - 1)[order[p - 1] := Substring(cipher, cursor, cursor + lens[p - 1])]
  }

  /** One more sorted position: its column is cut at the cursor, which moves on. */
  lemma SplitColumnsStep(cipher: string, order: seq<int>, lens: seq<int>, p: nat)
    requires p < |order| == |lens|
    ensures Cursor(lens, p + 1) == Cursor(lens, p) + lens[p]
    ensures SplitColumns(cipher, order, lens, p + 1)
         == SplitColumns(cipher, order, lens, p)[order[p] := Substring(cipher, Cursor(lens, p), Cursor(lens, p) + lens[p])]
  {
  }

  /** What the row read takes from column c in row r: `colData[c][r]` when that exists. */
  function Pick(colData: map<int, string>, r: int, c: int): string
    requires 0 <= r
  {
    if c in colData && r < |colData[c]| then [colData[c][r]] else []
  }

  /** The row read over the first k grid places, row by row. */
  function Gather(colData: map<int, string>, cols: int, k: nat): string
    requires cols > 0
  {
    if k == 0 then [] else Gather(colData, cols, k - 1) + Pick(colData, (k - 1) / cols, (k - 1) % cols)
  }

  /** The decryption's transposition step, given the length of each sorted column. */
  function Untranspose(cipher: string, cols: int, order: seq<int>, lens: seq<int>): string
    requires cols > 0 && |order| == |lens| == cols
  {
    var rows := Rows(|cipher|, cols);
    assert rows >= 0 by { RowsBounds(|cipher|, cols); }
    Gather(SplitColumns(cipher, order, lens, cols), cols, rows * cols)
  }

  /** The column lengths as written: the first `longCols` SORTED positions get
      `rows` characters, the others `rows - 1`; all get `rows` when the grid is full. */
  function SourceLengths(len: int, cols: int): (lens: seq<int>)
    requires cols > 0
    ensures |lens| == cols
  {
    var rows, long := Rows(len, cols), len % cols;
    seq(cols, p => if long == 0 || p < long then rows else rows - 1)
  }

  lemma SourceLengthAt(len: int, cols: int, p: int)
    requires cols > 0 && 0 <= p < cols
    ensures SourceLengths(len, cols)[p]
         == if len % cols == 0 || p < len % cols then (len + cols - 1) / cols else (len + cols - 1) / cols - 1
  {
  }

  /** The column lengths the encryption produces: the first `longCols` ORIGINAL
      columns are the long ones, wherever the key sorts them. */
  function IntendedLengths(len: int, cols: int, order: seq<int>): (lens: seq<int>)
    requires cols > 0
    ensures |lens| == |order|
  {
    var rows, long := Rows(len, cols), len % cols;
    seq(|order|, p requires 0 <= p < |order| => if long == 0 || order[p] < long then rows else rows - 1)
  }

  /** The intended lengths are the lengths of the columns in sorted order. */
  lemma IntendedLengthsAreColumnLengths(len: int, cols: int, order: seq<int>)
    requires cols > 0 && 0 <= len && IsOrderOf(order, cols)
    ensures forall p :: 0 <= p < cols ==> IntendedLengths(len, cols, order)[p] == ColumnLength(len, cols, order[p])
  {
    forall p | 0 <= p < cols ensures IntendedLengths(len, cols, order)[p] == ColumnLength(len, cols, order[p]) {
      ColumnLengthCases(len, cols, order[p]);
    }
  }

  /** The lengths as written agree with the column lengths exactly when the grid
      is full or the key sorts the long columns first. */
  lemma SourceLengthsCorrectIff(len: int, cols: int, order: seq<int>)
    requires cols > 0 && 0 <= len && IsOrderOf(order, cols)
    ensures (forall p :: 0 <= p < cols ==> SourceLengths(len, cols)[p] == ColumnLength(len, cols, order[p]))
        <==> (len % cols == 0 || forall p :: 0 <= p < cols ==> (p < len % cols <==> order[p] < len % cols))
  {
    var long := len % cols;
    forall p | 0 <= p < cols
      ensures ColumnLength(len, cols, order[p]) == if long == 0 || order[p] < long then Rows(len, cols) else Rows(len, cols) - 1
    {
      ColumnLengthCases(len, cols, order[p]);
    }
  }

  /** The cursor before sorted position p is where that column starts in the output. */
  lemma {:induction false} CursorIsPrefixLength(ys: seq<string>, lens: seq<int>, p: nat)
    requires |lens| == |ys| && p <= |ys| && forall q :: 0 <= q < |ys| ==> lens[q] == |ys[q]|
    ensures Cursor(lens, p) == |Concat(ys[..p])|
  {
    if p > 0 {
      CursorIsPrefixLength(ys, lens, p - 1);
      ConcatAppend(ys[..p - 1], [ys[p - 1]]);
      ConcatSingle(ys[p - 1]);
      assert ys[..p - 1] + [ys[p - 1]] == ys[..p];
    }
  }

  /** Cutting the output at the right lengths gives back each original column. */
  lemma SplitColumnsContents(f: string, cols: int, order: seq<int>, lens: seq<int>, p: nat)
    requires cols > 0 && IsOrderOf(order, cols) && |lens| == cols && p <= cols
    requires forall q :: 0 <= q < cols ==> lens[q] == ColumnLength(|f|, cols, order[q])
    ensures var m := SplitColumns(Concat(Permute(Columns(f, cols), order)), order, lens, p);
      && (forall c :: c in m ==> 0 <= c < cols && m[c] == Column(f, cols, c))
      && (forall q :: 0 <= q < p ==> order[q] in m)
  {
    var xs := Columns(f, cols);
    ColumnLengths(f, cols, order, lens);
    SplitPieces(Permute(xs, order), order, lens, xs, p);
  }

  /** Cutting a concatenation of pieces at their lengths gives back each piece,
      filed under its own key. */
  lemma SplitPieces(ys: seq<string>, order: seq<int>, lens: seq<int>, xs: seq<string>, p: nat)
    requires |ys| == |order| == |lens| && p <= |ys|
    requires forall q :: 0 <= q < |ys| ==> lens[q] == |ys[q]|
    requires forall q :: 0 <= q < |ys| ==> 0 <= order[q] < |xs| && ys[q] == xs[order[q]]
    ensures var m := SplitColumns(Concat(ys), order, lens, p);
      && (forall c :: c in m ==> 0 <= c < |xs| && m[c] == xs[c])
      && (forall q :: 0 <= q < p ==> order[q] in m)
  {
    var m := SplitColumns(Concat(ys), order, lens, p);
    forall c | c in m ensures 0 <= c < |xs| && m[c] == xs[c] {
      SplitPiece(ys, order, lens, xs, p, c);
    }
    forall q | 0 <= q < p ensures order[q] in m {
      SplitKeys(Concat(ys), order, lens, p, q);
    }
  }

  lemma {:induction false} SplitPiece(ys: seq<string>, order: seq<int>, lens: seq<int>, xs: seq<string>, p: nat, c: int)
    requires |ys| == |order| == |lens| && p <= |ys|
    requires forall q :: 0 <= q < |ys| ==> lens[q] == |ys[q]|
    requires forall q :: 0 <= q < |ys| ==> 0 <= order[q] < |xs| && ys[q] == xs[order[q]]
    requires c in SplitColumns(Concat(ys), order, lens, p)
    ensures 0 <= c < |xs| && SplitColumns(Concat(ys), order, lens, p)[c] == xs[c]
  {
    if c != order[p - 1] {
      SplitPiece(ys, order, lens, xs, p - 1, c);
    } else {
      CutAt(ys, lens, p - 1);
    }
  }

  lemma {:induction false} SplitKeys(cipher: string, order: seq<int>, lens: seq<int>, p: nat, q: int)
    requires p <= |order| == |lens| && 0 <= q < p
    ensures order[q] in SplitColumns(cipher, order, lens, p)
  {
    if q < p - 1 {
      SplitKeys(cipher, order, lens, p - 1, q);
    }
  }

  lemma ColumnLengths(f: string, cols: int, order: seq<int>, lens: seq<int>)
    requires cols > 0 && IsOrderOf(order, cols) && |lens| == cols
    requires forall q :: 0 <= q < cols ==> lens[q] == ColumnLength(|f|, cols, order[q])
    ensures var ys := Permute(Columns(f, cols), order);
      |ys| == cols && forall q :: 0 <= q < cols ==> lens[q] == |ys[q]|
  {
  }

  /** Cutting a concatenation at the cursor gives back the piece there. */
  lemma CutAt(ys: seq<string>, lens: seq<int>, p: nat)
    requires |lens| == |ys| && p < |ys| && forall q :: 0 <= q < |ys| ==> lens[q] == |ys[q]|
    ensures Substring(Concat(ys), Cursor(lens, p), Cursor(lens, p) + lens[p]) == ys[p]
  {
    CursorIsPrefixLength(ys, lens, p);
    ConcatSlice(ys, p);
  }

  /** Reading the recovered columns row by row gives back the stream, one grid place at a time. */
  lemma {:induction false} GatherColumns(f: string, cols: int, m: map<int, string>, k: nat)
    requires cols > 0 && forall c :: 0 <= c < cols ==> c in m && m[c] == Column(f, cols, c)
    ensures Gather(m, cols, k) == f[..if k < |f| then k else |f|]
  {
    if k > 0 {
      GatherColumns(f, cols, m, k - 1);
      PickColumn(f, cols, m, k - 1);
      if k - 1 < |f| {
        AppendInit(f[..k - 1], [f[k - 1]]);
        assert f[..k - 1] + [f[k - 1]] == f[..k];
      }
    }
  }

  /** Grid place i of the row read holds stream character i, if there is one. */
  lemma PickColumn(f: string, cols: int, m: map<int, string>, i: nat)
    requires cols > 0 && forall c :: 0 <= c < cols ==> c in m && m[c] == Column(f, cols, c)
    ensures Pick(m, i / cols, i % cols) == if i < |f| then [f[i]] else []
  {
    var r, c := i / cols, i % cols;
    assert c in m && m[c] == Column(f, cols, c);
    assert r * cols + c == i;
    ColumnLengthSpec(|f|, cols, c, r);
    if i < |f| {
      ColumnAt(f, cols, c, r);
    }
  }

  /** Decryption undoes encryption's transposition when it cuts the columns at their
      true lengths: with no pad, for any stream and any key order. */
  lemma UntransposeTransposed(f: string, cols: int, order: seq<int>, lens: seq<int>)
    requires cols > 0 && IsOrderOf(order, cols) && |lens| == cols
    requires forall p :: 0 <= p < cols ==> lens[p] == ColumnLength(|f|, cols, order[p])
    ensures Untranspose(Transposed(f, "", cols, order), cols, order, lens) == f
  {
    TransposedUnpadded(f, cols, order);
    var cipher := Transposed(f, "", cols, order);
    SplitColumnsContents(f, cols, order, lens, cols);
    var m := SplitColumns(cipher, order, lens, cols);
    forall c | 0 <= c < cols ensures c in m && m[c] == Column(f, cols, c) {
      assert c in order;
    }
    RowsBounds(|f|, cols);
    GatherColumns(f, cols, m, Rows(|f|, cols) * cols);
  }

  // ---- a one-character pad fills the grid ----

  /** The stream followed by pad characters up to the end of its last row. */
  function Filled(f: string, x: char, cols: int): (g: string)
    requires cols > 0
    ensures |g| == |f| + (Rows(|f|, cols) * cols - |f|)
  {
    RowsBounds(|f|, cols);
    f + seq(Rows(|f|, cols) * cols - |f|, _ => x)
  }

  lemma RowsOfFull(rows: int, cols: int)
    requires cols > 0 && rows >= 0
    ensures Rows(rows * cols, cols) == rows
  {
    DivModUnique(rows * cols + cols - 1, cols, rows, cols - 1);
  }

  /** A cell of the padded grid is the same cell of the filled stream. */
  lemma CellFilled(f: string, x: char, cols: int, r: int, c: int)
    requires cols > 0 && 0 <= c < cols && 0 <= r < Rows(|f|, cols)
    ensures Cell(f, [x], cols, r, c) == Cell(Filled(f, x, cols), "", cols, r, c)
  {
    var rows := Rows(|f|, cols);
    RowsBounds(|f|, cols);
    MulMono(r, rows - 1, cols);
    assert (rows - 1) * cols + c < rows * cols;
  }

  lemma {:induction false} ColumnCellsFilled(f: string, x: char, cols: int, c: int, n: nat)
    requires cols > 0 && 0 <= c < cols && n <= Rows(|f|, cols)
    ensures ColumnCells(f, [x], cols, c, n) == ColumnCells(Filled(f, x, cols), "", cols, c, n)
  {
    if n > 0 {
      ColumnCellsFilled(f, x, cols, c, n - 1);
      CellFilled(f, x, cols, n - 1, c);
    }
  }

  lemma {:induction false} ReadColumnsFilled(f: string, x: char, cols: int, order: seq<int>, p: nat)
    requires cols > 0 && p <= |order| && forall q :: 0 <= q < |order| ==> 0 <= order[q] < cols
    ensures ReadColumns(f, [x], cols, order, p) == ReadColumns(Filled(f, x, cols), "", cols, order, p)
  {
    if p > 0 {
      var g := Filled(f, x, cols);
      ReadColumnsFilled(f, x, cols, order, p - 1);
      RowsBounds(|f|, cols);
      RowsOfFull(Rows(|f|, cols), cols);
      assert Rows(|g|, cols) == Rows(|f|, cols);
      ColumnCellsFilled(f, x, cols, order[p - 1], Rows(|f|, cols));
    }
  }

  /** In a full grid every column has the full height, as the lengths as written assume. */
  lemma FullGridLengths(len: int, cols: int, order: seq<int>)
    requires cols > 0 && 0 <= len && len % cols == 0 && IsOrderOf(order, cols)
    ensures forall p :: 0 <= p < cols ==> SourceLengths(len, cols)[p] == ColumnLength(len, cols, order[p])
  {
    forall p | 0 <= p < cols ensures SourceLengths(len, cols)[p] == ColumnLength(len, cols, order[p]) {
      ColumnLengthCases(len, cols, order[p]);
    }
  }

  lemma FilledIsFull(f: string, x: char, cols: int)
    requires cols > 0
    ensures |Filled(f, x, cols)| % cols == 0
  {
    RowsBounds(|f|, cols);
    var rows := Rows(|f|, cols);
    DivModUnique(rows * cols, cols, rows, 0);
  }

  /** With a one-character pad, decryption as written recovers the filled stream:
      the grid is full, so every column has the full height. */
  lemma UntransposePadded(f: string, x: char, cols: int, order: seq<int>)
    requires cols > 0 && IsOrderOf(order, cols)
    ensures var cipher := Transposed(f, [x], cols, order);
      Untranspose(cipher, cols, order, SourceLengths(|cipher|, cols)) == Filled(f, x, cols)
  {
    var g := Filled(f, x, cols);
    ReadColumnsFilled(f, x, cols, order, |order|);
    TransposedUnpadded(g, cols, order);
    FilledIsFull(f, x, cols);
    FullGridLengths(|g|, cols, order);
    UntransposeTransposed(g, cols, order, SourceLengths(|g|, cols));
  }
}
