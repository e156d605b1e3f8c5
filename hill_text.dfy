/** The text side of the Hill cipher (src/lib/ciphers/core.ts:304-392): letters
    as indices 0..25, padding, and the two ways the source lays a text out as a
    grid — by columns of height n in the standard mode and by rows of width n in
    the book mode — and reads a grid back. */
module HillText {
  import opened JsText
  import opened ModArith
  import opened HillMatrix
  import opened HillAlgebra

  /** The standard mode multiplies the key by column vectors; the book mode
      multiplies row vectors by the key. */
  datatype Mode = Standard | Book

  /** `characterToIndex`: `char.charCodeAt(0) - 'a'.charCodeAt(0)` */
  function SmallIndex(c: char): int { c as int - 97 }

  /** `indexToCharacter`: `String.fromCharCode(index + 'a'.charCodeAt(0))` */
  function SmallLetter(i: int): (c: char)
    requires 0 <= i < 26
    ensures IsLower(c) && SmallIndex(c) == i
  {
    (i + 97) as char
  }

  function Indices(s: string): (r: seq<int>)
    ensures |r| == |s| && forall i :: 0 <= i < |s| ==> r[i] == SmallIndex(s[i])
  {
    seq(|s|, i requires 0 <= i < |s| => SmallIndex(s[i]))
  }

  predicate InRange(v: seq<int>) { forall i :: 0 <= i < |v| ==> 0 <= v[i] < 26 }

  function Letters(v: seq<int>): (r: string)
    requires InRange(v)
    ensures |r| == |v| && AllLower(r)
    ensures forall i :: 0 <= i < |v| ==> r[i] == SmallLetter(v[i])
  {
    seq(|v|, i requires 0 <= i < |v| => SmallLetter(v[i]))
  }

  /** Lower-case letters map to indices 0..25 and back. */
  lemma LettersOfIndices(s: string)
    requires AllLower(s)
    ensures InRange(Indices(s)) && Letters(Indices(s)) == s
  {
  }

  lemma IndicesOfLetters(v: seq<int>)
    requires InRange(v)
    ensures Indices(Letters(v)) == v
  {
  }

  /** Cleaning the upper-case form of lower-case letters gives them back. */
  lemma LowerLettersOfUpper(s: string)
    requires AllLower(s)
    ensures LowerLetters(ToUpper(s)) == s
  {
    assert ToLower(ToUpper(s)) == s;
    FilterKeepsAll(IsLower, s);
  }

  // ---- padding ----

  /** `paddingChar`: 'x' in the standard mode, 'z' in the book mode. */
  function PadChar(mode: Mode): char { if mode.Standard? then 'x' else 'z' }

  /** The text extended with `c` until its length is a multiple of n. */
  function Pad(s: string, n: int, c: char): (r: string)
    requires n > 0
    ensures |r| % n == 0 && |s| <= |r| < |s| + n
    ensures r[..|s|] == s && forall i :: |s| <= i < |r| ==> r[i] == c
    ensures forall k :: |s| <= k < |r| ==> k % n != 0
  {
    var p := (n - |s| % n) % n;
    PadArithmetic(|s|, n);
    s + seq(p, _ => c)
  }

  lemma PadArithmetic(len: nat, n: int)
    requires n > 0
    ensures var p := (n - len % n) % n;
      0 <= p < n && (len + p) % n == 0 && forall k :: len <= k < len + p ==> k % n != 0
  {
    var q, m := len / n, len % n;
    var p := (n - m) % n;
    if m == 0 {
      DivModUnique(n, n, 1, 0);
      assert p == 0;
    } else {
      DivModUnique(n - m, n, 0, n - m);
      DivModUnique(len + p, n, q + 1, 0);
      forall k | len <= k < len + p ensures k % n != 0 {
        DivModUnique(k, n, q, m + (k - len));
      }
    }
  }

  /** The `while (cleanText.length % n !== 0)` loop. */
  method PadLoop(s: string, n: int, c: char) returns (r: string)
    requires n > 0
    ensures r == Pad(s, n, c)
  {
    ghost var padded := Pad(s, n, c);
    r := s;
    while |r| % n != 0
      invariant |s| <= |r| <= |padded| && r == padded[..|r|]
      decreases |padded| - |r|
    {
      assert |r| < |padded|;
      assert padded[..|r| + 1] == r + [c];
      r := r + [c];
    }
    assert |r| == |padded|;
  }

  // ---- text to grid and back ----

  /** Position i·n + j of a text with `cols` groups of n. */
  lemma CellIndex(i: int, j: int, n: int, cols: int)
    requires 0 <= i < cols && 0 <= j < n
    ensures 0 <= i * n + j < cols * n
    ensures (i * n + j) / n == i && (i * n + j) % n == j
  {
    MulAtLeast(n, cols - i);
    assert cols * n == i * n + (cols - i) * n;
    DivModUnique(i * n + j, n, i, j);
  }

  /** The group and the place within it of position k. */
  lemma CellOf(k: int, n: int, cols: int)
    requires n > 0 && 0 <= k < cols * n
    ensures 0 <= k / n < cols && 0 <= k % n < n && k == (k / n) * n + k % n
  {
  }

  lemma LengthOfGroups(len: int, n: int)
    requires n > 0 && len >= 0 && len % n == 0
    ensures len == (len / n) * n && len / n >= 0
  {
  }

  /** The grid the source fills from a text of whole groups of n: n rows of
      |t| / n columns, filled column by column, in the standard mode, and |t| / n
      rows of n, filled row by row, in the book mode. */
  function ToGrid(t: seq<int>, n: int, mode: Mode): (g: Matrix)
    requires n > 0 && |t| % n == 0
    ensures mode.Standard? ==> IsRect(g, n, |t| / n)
    ensures mode.Book? ==> IsRect(g, |t| / n, n)
  {
    var cols := |t| / n;
    LengthOfGroups(|t|, n);
    if mode.Standard? then
      seq(n, j requires 0 <= j < n =>
        seq(cols, i requires 0 <= i < cols => CellIndex(i, j, n, cols); t[i * n + j]))
    else
      seq(cols, i requires 0 <= i < cols =>
        seq(n, j requires 0 <= j < n => CellIndex(i, j, n, cols); t[i * n + j]))
  }

  /** Entry (j, i) of the standard grid, or (i, j) of the book grid, is the
      j-th letter of group i. */
  lemma ToGridEntry(t: seq<int>, n: int, mode: Mode, i: int, j: int)
    requires n > 0 && |t| % n == 0 && 0 <= i < |t| / n && 0 <= j < n
    ensures 0 <= i * n + j < |t|
    ensures mode.Standard? ==> ToGrid(t, n, mode)[j][i] == t[i * n + j]
    ensures mode.Book? ==> ToGrid(t, n, mode)[i][j] == t[i * n + j]
  {
    LengthOfGroups(|t|, n);
    CellIndex(i, j, n, |t| / n);
  }

  /** The number of groups a grid holds, and their size. */
  function Groups(g: Matrix, mode: Mode): int
  {
    if mode.Standard? then (if |g| == 0 then 0 else |g[0]|) else |g|
  }

  function GroupSize(g: Matrix, mode: Mode): int
  {
    if mode.Standard? then |g| else if |g| == 0 then 0 else |g[0]|
  }

  /** Group i of a grid: column i in the standard mode, row i in the book mode. */
  function GroupCells(g: Matrix, mode: Mode, i: int): (c: seq<int>)
    requires IsGrid(g) && 0 <= i < Groups(g, mode)
    ensures |c| == GroupSize(g, mode)
    ensures Reduced(g) ==> InRange(c)
  {
    seq(GroupSize(g, mode), j requires 0 <= j < GroupSize(g, mode) =>
      if mode.Standard? then g[j][i] else g[i][j])
  }

  /** The first k groups of a grid, one after another. */
  function GroupsUpTo(g: Matrix, mode: Mode, k: int): (t: seq<int>)
    requires IsGrid(g) && 0 <= k <= Groups(g, mode)
    ensures |t| == k * GroupSize(g, mode)
    ensures Reduced(g) ==> InRange(t)
    decreases k
  {
    if k == 0 then []
    else
      var t, c := GroupsUpTo(g, mode, k - 1), GroupCells(g, mode, k - 1);
      assert |t + c| == k * GroupSize(g, mode) by {
        assert k * GroupSize(g, mode) == (k - 1) * GroupSize(g, mode) + GroupSize(g, mode);
      }
      t + c
  }

  /** The text the source reads off a grid: column by column in the standard
      mode, row by row in the book mode. */
  function FromGrid(g: Matrix, mode: Mode): (t: seq<int>)
    requires IsGrid(g)
    ensures |t| == Groups(g, mode) * GroupSize(g, mode)
  {
    GroupsUpTo(g, mode, Groups(g, mode))
  }

  /** Entry j of group i is at position i·n + j of the first k > i groups. */
  lemma {:induction false} GroupsUpToEntry(g: Matrix, mode: Mode, k: int, i: int, j: int)
    requires IsGrid(g) && 0 <= i < k <= Groups(g, mode) && 0 <= j < GroupSize(g, mode)
    ensures 0 <= i * GroupSize(g, mode) + j < |GroupsUpTo(g, mode, k)|
    ensures GroupsUpTo(g, mode, k)[i * GroupSize(g, mode) + j] == GroupCells(g, mode, i)[j]
  {
    var n := GroupSize(g, mode);
    CellIndex(i, j, n, k);
    var t, c := GroupsUpTo(g, mode, k - 1), GroupCells(g, mode, k - 1);
    if i == k - 1 {
      AppendIndexRight(t, c, j);
    } else {
      GroupsUpToEntry(g, mode, k - 1, i, j);
      AppendIndex(t, c, i * n + j);
    }
  }

  lemma FromGridEntry(g: Matrix, mode: Mode, i: int, j: int)
    requires IsGrid(g) && 0 <= i < Groups(g, mode) && 0 <= j < GroupSize(g, mode)
    ensures 0 <= i * GroupSize(g, mode) + j < |FromGrid(g, mode)|
    ensures FromGrid(g, mode)[i * GroupSize(g, mode) + j] == if mode.Standard? then g[j][i] else g[i][j]
  {
    GroupsUpToEntry(g, mode, Groups(g, mode), i, j);
  }

  /** Read-off of a reduced grid gives indices of letters. */
  lemma FromGridInRange(g: Matrix, mode: Mode)
    requires IsGrid(g) && Reduced(g)
    ensures InRange(FromGrid(g, mode))
  {
  }

  /** Laying a text out and reading it back gives the text. */
  lemma FromToGrid(t: seq<int>, n: int, mode: Mode)
    requires n > 0 && |t| % n == 0 && |t| > 0
    ensures FromGrid(ToGrid(t, n, mode), mode) == t
  {
    var g := ToGrid(t, n, mode);
    var cols := |t| / n;
    LengthOfGroups(|t|, n);
    assert Groups(g, mode) == cols && GroupSize(g, mode) == n;
    forall k | 0 <= k < |t| ensures FromGrid(g, mode)[k] == t[k] {
      CellOf(k, n, cols);
      FromGridEntry(g, mode, k / n, k % n);
      ToGridEntry(t, n, mode, k / n, k % n);
    }
  }

  /** Reading a grid off and laying it out again gives the grid. */
  lemma ToFromGrid(g: Matrix, mode: Mode)
    requires IsGrid(g) && Groups(g, mode) > 0 && GroupSize(g, mode) > 0
    ensures |FromGrid(g, mode)| % GroupSize(g, mode) == 0
    ensures ToGrid(FromGrid(g, mode), GroupSize(g, mode), mode) == g
  {
    var cols, n := Groups(g, mode), GroupSize(g, mode);
    var t := FromGrid(g, mode);
    CellOf(0, n, cols);
    DivModUnique(|t|, n, cols, 0);
    var g' := ToGrid(t, n, mode);
    if mode.Standard? {
      forall j, i | 0 <= j < n && 0 <= i < cols ensures g'[j][i] == g[j][i] {
        ToGridEntry(t, n, mode, i, j);
        FromGridEntry(g, mode, i, j);
      }
      RectEqual(g', g, n, cols);
    } else {
      forall i, j | 0 <= i < cols && 0 <= j < n ensures g'[i][j] == g[i][j] {
        ToGridEntry(t, n, mode, i, j);
        FromGridEntry(g, mode, i, j);
      }
      RectEqual(g', g, cols, n);
    }
  }

  /** Grids of indices are reduced. */
  lemma ToGridReduced(t: seq<int>, n: int, mode: Mode)
    requires n > 0 && |t| % n == 0 && InRange(t)
    ensures Reduced(ToGrid(t, n, mode))
  {
    var g := ToGrid(t, n, mode);
    var cols := |t| / n;
    if mode.Standard? {
      forall j, i | 0 <= j < n && 0 <= i < cols ensures 0 <= g[j][i] < 26 {
        ToGridEntry(t, n, mode, i, j);
      }
    } else {
      forall i, j | 0 <= i < cols && 0 <= j < n ensures 0 <= g[i][j] < 26 {
        ToGridEntry(t, n, mode, i, j);
      }
    }
  }

  // ---- the loops of the source ----

  /** The nested loops that fill the grid with `characterToIndex(cleanText.charAt(index++))`:
      entry (j, i) in the standard mode, (i, j) in the book mode. */
  method GridOfText(text: string, n: int, mode: Mode) returns (g: Matrix)
    requires n > 0 && |text| % n == 0
    ensures g == ToGrid(Indices(text), n, mode)
  {
    if mode.Standard? {
      g := ColumnGrid(text, n);
    } else {
      g := RowGrid(text, n);
    }
  }

  /** Entry (i, j) of the grid is the letter at index i * n + j of the text. */
  lemma TextCell(text: string, n: int, mode: Mode, i: int, j: int, index: int)
    requires n > 0 && |text| % n == 0 && 0 <= i < |text| / n && 0 <= j < n && index == i * n + j
    ensures 0 <= index < |text|
    ensures mode.Standard? ==> ToGrid(Indices(text), n, mode)[j][i] == SmallIndex(text[index])
    ensures mode.Book? ==> ToGrid(Indices(text), n, mode)[i][j] == SmallIndex(text[index])
  {
    ToGridEntry(Indices(text), n, mode, i, j);
  }

  lemma NextGroup(i: int, n: int)
    ensures i * n + n == (i + 1) * n
  {
  }

  method ColumnGrid(text: string, n: int) returns (g: Matrix)
    requires n > 0 && |text| % n == 0
    ensures g == ToGrid(Indices(text), n, Standard)
  {
    var columns := |text| / n;
    LengthOfGroups(|text|, n);
    var grid := new int[n, columns]((i, j) => 0);
    ghost var spec := ToGrid(Indices(text), n, Standard);
    var index := 0;
    for i := 0 to columns
      invariant index == i * n
      invariant forall i', j :: 0 <= i' < i && 0 <= j < n ==> grid[j, i'] == spec[j][i']
    {
      for j := 0 to n
        invariant index == i * n + j
        invariant forall i', j' :: 0 <= i' < i && 0 <= j' < n ==> grid[j', i'] == spec[j'][i']
        invariant forall j' :: 0 <= j' < j ==> grid[j', i] == spec[j'][i]
      {
        TextCell(text, n, Standard, i, j, index);
        grid[j, i] := SmallIndex(text[index]);
        index := index + 1;
      }
      NextGroup(i, n);
    }
    RectEqual(Rows(grid), spec, n, columns);
    g := Rows(grid);
  }

  method RowGrid(text: string, n: int) returns (g: Matrix)
    requires n > 0 && |text| % n == 0
    ensures g == ToGrid(Indices(text), n, Book)
  {
    var rows := |text| / n;
    LengthOfGroups(|text|, n);
    var grid := new int[rows, n]((i, j) => 0);
    ghost var spec := ToGrid(Indices(text), n, Book);
    var index := 0;
    for i := 0 to rows
      invariant index == i * n
      invariant forall i', j :: 0 <= i' < i && 0 <= j < n ==> grid[i', j] == spec[i'][j]
    {
      for j := 0 to n
        invariant index == i * n + j
        invariant forall i', j' :: 0 <= i' < i && 0 <= j' < n ==> grid[i', j'] == spec[i'][j']
        invariant forall j' :: 0 <= j' < j ==> grid[i, j'] == spec[i][j']
      {
        TextCell(text, n, Book, i, j, index);
        grid[i, j] := SmallIndex(text[index]);
        index := index + 1;
      }
      NextGroup(i, n);
    }
    RectEqual(Rows(grid), spec, rows, n);
    g := Rows(grid);
  }

  /** The nested loops that append `indexToCharacter` of every entry, group by group. */
  method TextOfGrid(g: Matrix, mode: Mode) returns (result: string)
    requires IsGrid(g) && Reduced(g)
    ensures InRange(FromGrid(g, mode)) && result == Letters(FromGrid(g, mode))
  {
    var groups := Groups(g, mode);
    result := "";
    for i := 0 to groups
      invariant result == Letters(GroupsUpTo(g, mode, i))
    {
      var group := ReadGroup(g, mode, i);
      LettersAppend(GroupsUpTo(g, mode, i), GroupCells(g, mode, i));
      result := result + group;
    }
  }

  /** The inner loop of the read-off: the letters of group i. */
  method ReadGroup(g: Matrix, mode: Mode, i: int) returns (group: string)
    requires IsGrid(g) && Reduced(g) && 0 <= i < Groups(g, mode)
    ensures InRange(GroupCells(g, mode, i)) && group == Letters(GroupCells(g, mode, i))
  {
    var n := GroupSize(g, mode);
    ghost var spec := Letters(GroupCells(g, mode, i));
    group := "";
    for j := 0 to n
      invariant group == spec[..j]
    {
      assert spec[..j + 1] == spec[..j] + [spec[j]];
      group := group + [SmallLetter(if mode.Standard? then g[j][i] else g[i][j])];
    }
    assert spec[..n] == spec;
  }

  /** The letters of two texts one after the other. */
  lemma LettersAppend(a: seq<int>, b: seq<int>)
    requires InRange(a) && InRange(b)
    ensures InRange(a + b) && Letters(a + b) == Letters(a) + Letters(b)
  {
  }

}
