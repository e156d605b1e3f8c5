/** The 4x4 state of the AES-128 trace engine and the step functions on it
    (src/lib/ciphers/aes-steps.ts:118-210), sections 3.4 and 5.1-5.3 of FIPS 197.

    The source keeps the state as rows of two-digit upper-case hex strings. Every cell it
    writes is such a string: `blockToState` upper-cases two digits of a validated block,
    the S-box tables hold such strings, and `mixColumns`, `invMixColumns` and
    `addRoundKey` format a byte with `toString(16).padStart(2, '0').toUpperCase()`. A
    cell is therefore modelled by its byte, and `StateText` gives the strings the source
    holds. */
module AesState {
  import opened JsText
  import opened AesBytes
  import opened AesTables
  import opened AesField
  import opened AesMix

  type State = seq<seq<byte>>

  /** Four rows of four cells. */
  predicate IsState(s: State)
  {
    |s| == 4 && forall r :: 0 <= r < 4 ==> |s[r]| == 4
  }

  /** States with the same cells are the same. */
  lemma SameCells(a: State, b: State)
    requires IsState(a) && IsState(b)
    requires forall r, c :: 0 <= r < 4 && 0 <= c < 4 ==> a[r][c] == b[r][c]
    ensures a == b
  {
    forall r | 0 <= r < 4
      ensures a[r] == b[r]
    {
    }
  }

  /** A 128-bit block given as 32 hex digits of either case. */
  predicate IsBlock(hex: string)
  {
    |hex| == 32 && AllHex(hex)
  }

  /** The strings the source holds for a state. */
  function StateText(s: State): (t: seq<seq<string>>)
    requires IsState(s)
    ensures |t| == 4 && forall r :: 0 <= r < 4 ==> |t[r]| == 4
    ensures forall r, c :: 0 <= r < 4 && 0 <= c < 4 ==> |t[r][c]| == 2 && AllUpperHex(t[r][c])
  {
    seq(4, r requires 0 <= r < 4 => seq(4, c requires 0 <= c < 4 => HexPair(s[r][c])))
  }

  // ---- blockToState and stateToBlock ----

  /** `blockToState` (lines 118-124): digit pair i of the block, i = r + 4c, fills row r
      of column c, so the block is read column by column. */
  function BlockToState(hex: string): (s: State)
    requires IsBlock(hex)
    ensures IsState(s)
  {
    seq(4, r requires 0 <= r < 4 => seq(4, c requires 0 <= c < 4 => ParseByte(hex[8 * c + 2 * r], hex[8 * c + 2 * r + 1])))
  }

  /** The cell text `blockToState` stores is the upper-cased digit pair `i % 4`,
      `floor(i / 4)` of the block. */
  lemma BlockToStateText(hex: string, i: int)
    requires IsBlock(hex) && 0 <= i < 16
    ensures StateText(BlockToState(hex))[i % 4][i / 4] == ToUpper(hex[2 * i .. 2 * i + 2])
  {
    hide ParseByte, HexPair;
    BlockCell(hex, i);
    HexPairOfParse(hex[2 * i], hex[2 * i + 1]);
    UpperPair(hex, 2 * i);
  }

  lemma UpperPair(s: string, j: int)
    requires 0 <= j && j + 2 <= |s|
    ensures ToUpper(s[j..j + 2]) == [UpperChar(s[j]), UpperChar(s[j + 1])]
  {
  }

  /** `blockToState` as the source runs it: sixteen assignments into four rows that start
      empty. Row `i % 4` receives its cells in the order of its columns. */
  method BlockToStateLoop(hex: string) returns (s: State)
    requires IsBlock(hex)
    ensures s == BlockToState(hex)
  {
    hide ParseByte, BlockToState;
    s := [[], [], [], []];
    for i := 0 to 16
      invariant Filled(s, BlockToState(hex), i)
    {
      BlockCell(hex, i);
      FillStep(s, BlockToState(hex), i, ParseByte(hex[2 * i], hex[2 * i + 1]));
      s := s[i % 4 := s[i % 4] + [ParseByte(hex[2 * i], hex[2 * i + 1])]];
    }
    FilledAll(s, BlockToState(hex));
  }

  /** The first i cells of `blockToState`'s order are those of b: row r holds the cells
      r, r + 4, ... below i. */
  predicate Filled(s: State, b: State, i: int)
    requires IsState(b)
  {
    |s| == 4 &&
    (forall r :: 0 <= r < 4 ==> |s[r]| == CellsFilled(i, r) && |s[r]| <= 4) &&
    (forall r, c :: 0 <= r < 4 && 0 <= c < |s[r]| ==> s[r][c] == b[r][c])
  }

  lemma FillStep(s: State, b: State, i: int, v: byte)
    requires IsState(b) && 0 <= i < 16 && Filled(s, b, i) && v == b[i % 4][i / 4]
    ensures Filled(s[i % 4 := s[i % 4] + [v]], b, i + 1)
  {
    forall r | 0 <= r < 4
      ensures CellsFilled(i + 1, r) == if r == i % 4 then CellsFilled(i, r) + 1 else CellsFilled(i, r)
      ensures r == i % 4 ==> CellsFilled(i, r) == i / 4
    {
      FilledStep(i, r);
    }
  }

  lemma FilledAll(s: State, b: State)
    requires IsState(b) && Filled(s, b, 16)
    ensures s == b
  {
    forall r | 0 <= r < 4
      ensures |s[r]| == 4
    {
      FilledStep(15, r);
    }
    SameCells(s, b);
  }

  /** How many cells of row r the first i assignments fill. */
  function CellsFilled(i: int, r: int): int
  {
    (i + 3 - r) / 4
  }

  lemma FilledStep(i: int, r: int)
    requires 0 <= i < 16 && 0 <= r < 4
    ensures CellsFilled(i + 1, r) == if r == i % 4 then CellsFilled(i, r) + 1 else CellsFilled(i, r)
    ensures r == i % 4 ==> CellsFilled(i, r) == i / 4
  {
  }

  lemma BlockCell(hex: string, i: int)
    requires IsBlock(hex) && 0 <= i < 16
    ensures ParseByte(hex[2 * i], hex[2 * i + 1]) == BlockToState(hex)[i % 4][i / 4]
  {
    hide ParseByte;
    assert 8 * (i / 4) + 2 * (i % 4) == 2 * i;
  }

  /** `stateToBlock` (lines 126-134): the cells column by column, each as two digits.
      Character i of the block is digit `i % 2` of row `(i / 2) % 4`, column `i / 8`. */
  function StateToBlock(s: State): (b: string)
    requires IsState(s)
    ensures |b| == 32 && AllUpperHex(b)
  {
    seq(32, i requires 0 <= i < 32 => HexPair(s[(i / 2) % 4][i / 8])[i % 2])
  }

  /** `stateToBlock` as the source runs it: two nested loops appending cell texts. */
  method StateToBlockLoop(s: State) returns (b: string)
    requires IsState(s)
    ensures b == StateToBlock(s)
  {
    b := "";
    for c := 0 to 4
      invariant b == StateToBlock(s)[..8 * c]
    {
      for r := 0 to 4
        invariant b == StateToBlock(s)[..8 * c + 2 * r]
      {
        BlockPrefixStep(s, c, r);
        b := b + HexPair(s[r][c]);
      }
    }
    assert StateToBlock(s)[..32] == StateToBlock(s);
  }

  /** The text of cell (r, c) follows the cells before it in `stateToBlock`'s order. */
  lemma BlockPrefixStep(s: State, c: int, r: int)
    requires IsState(s) && 0 <= c < 4 && 0 <= r < 4
    ensures StateToBlock(s)[..8 * c + 2 * r] + HexPair(s[r][c]) == StateToBlock(s)[..8 * c + 2 * r + 2]
  {
    BlockChars(s, c, r, 0);
    BlockChars(s, c, r, 1);
    PrefixAppendPair(StateToBlock(s), 8 * c + 2 * r, HexPair(s[r][c]));
  }

  /** The two characters of cell (r, c) in `stateToBlock`'s text. */
  lemma BlockChars(s: State, c: int, r: int, k: int)
    requires IsState(s) && 0 <= c < 4 && 0 <= r < 4 && 0 <= k < 2
    ensures StateToBlock(s)[8 * c + 2 * r + k] == HexPair(s[r][c])[k]
  {
    hide HexPair;
    var i := 8 * c + 2 * r + k;
    assert i / 8 == c && (i / 2) % 4 == r && i % 2 == k;
  }

  lemma PrefixAppendPair<T>(a: seq<T>, i: int, p: seq<T>)
    requires 0 <= i && i + 2 <= |a| && |p| == 2 && p[0] == a[i] && p[1] == a[i + 1]
    ensures a[..i] + p == a[..i + 2]
  {
  }

  /** Writing out a read block gives back the block, upper-cased. */
  lemma BlockRoundTrip(hex: string)
    requires IsBlock(hex)
    ensures StateToBlock(BlockToState(hex)) == ToUpper(hex)
  {
    hide StateToBlock, BlockToState;
    forall i | 0 <= i < 32
      ensures StateToBlock(BlockToState(hex))[i] == ToUpper(hex)[i]
    {
      BlockPosition(i);
      CharRoundTrip(hex, i / 8, (i / 2) % 4, i % 2);
    }
  }

  /** Character i of a block is digit `i % 2` of the cell in row `(i / 2) % 4` and
      column `i / 8`. */
  lemma BlockPosition(i: int)
    requires 0 <= i < 32
    ensures i == 8 * (i / 8) + 2 * ((i / 2) % 4) + i % 2
    ensures 0 <= i / 8 < 4 && 0 <= (i / 2) % 4 < 4 && 0 <= i % 2 < 2
  {
  }

  lemma CharRoundTrip(hex: string, c: int, r: int, k: int)
    requires IsBlock(hex) && 0 <= c < 4 && 0 <= r < 4 && 0 <= k < 2
    ensures StateToBlock(BlockToState(hex))[8 * c + 2 * r + k] == ToUpper(hex)[8 * c + 2 * r + k]
  {
    hide StateToBlock, BlockToState, ParseByte, HexPair;
    BlockChars(BlockToState(hex), c, r, k);
    StateCell(hex, r, c);
    HexPairOfParse(hex[8 * c + 2 * r], hex[8 * c + 2 * r + 1]);
    if k == 0 {
      assert HexPair(ParseByte(hex[8 * c + 2 * r], hex[8 * c + 2 * r + 1]))[k] == UpperChar(hex[8 * c + 2 * r + k]);
    } else {
      assert HexPair(ParseByte(hex[8 * c + 2 * r], hex[8 * c + 2 * r + 1]))[k] == UpperChar(hex[8 * c + 2 * r + k]);
    }
  }

  lemma StateCell(hex: string, r: int, c: int)
    requires IsBlock(hex) && 0 <= r < 4 && 0 <= c < 4
    ensures BlockToState(hex)[r][c] == ParseByte(hex[8 * c + 2 * r], hex[8 * c + 2 * r + 1])
  {
    hide ParseByte;
  }

  /** Reading a written block gives back the state. */
  lemma StateRoundTrip(s: State)
    requires IsState(s)
    ensures BlockToState(StateToBlock(s)) == s
  {
    hide StateToBlock, BlockToState;
    forall r, c | 0 <= r < 4 && 0 <= c < 4
      ensures BlockToState(StateToBlock(s))[r][c] == s[r][c]
    {
      CellRoundTrip(s, r, c);
    }
    SameCells(BlockToState(StateToBlock(s)), s);
  }

  lemma CellRoundTrip(s: State, r: int, c: int)
    requires IsState(s) && 0 <= r < 4 && 0 <= c < 4
    ensures BlockToState(StateToBlock(s))[r][c] == s[r][c]
  {
    hide StateToBlock, BlockToState, ParseByte, HexPair;
    StateCell(StateToBlock(s), r, c);
    BlockChars(s, c, r, 0);
    BlockChars(s, c, r, 1);
    ParseOfHexPair(s[r][c]);
  }

  // ---- subBytes and invSubBytes ----

  /** `subBytes` (lines 138-140): every cell through the S-box. */
  function SubBytes(s: State): (t: State)
    requires IsState(s)
    ensures IsState(t)
  {
    seq(4, r requires 0 <= r < 4 => seq(4, c requires 0 <= c < 4 => SBox(s[r][c])))
  }

  /** `invSubBytes` (lines 182-184): every cell through the inverse S-box. */
  function InvSubBytes(s: State): (t: State)
    requires IsState(s)
    ensures IsState(t)
  {
    seq(4, r requires 0 <= r < 4 => seq(4, c requires 0 <= c < 4 => InvSBox(s[r][c])))
  }

  lemma SubBytesUndone(s: State)
    requires IsState(s)
    ensures InvSubBytes(SubBytes(s)) == s
  {
    hide SBox, InvSBox;
    forall r, c | 0 <= r < 4 && 0 <= c < 4
      ensures InvSubBytes(SubBytes(s))[r][c] == s[r][c]
    {
      SBoxInverse(s[r][c]);
    }
    SameCells(InvSubBytes(SubBytes(s)), s);
  }

  lemma InvSubBytesUndone(s: State)
    requires IsState(s)
    ensures SubBytes(InvSubBytes(s)) == s
  {
    hide SBox, InvSBox;
    forall r, c | 0 <= r < 4 && 0 <= c < 4
      ensures SubBytes(InvSubBytes(s))[r][c] == s[r][c]
    {
      InvSBoxInverse(s[r][c]);
    }
    SameCells(SubBytes(InvSubBytes(s)), s);
  }

  // ---- shiftRows and invShiftRows ----

  /** A row of four turned k places to the left: cell c comes from cell c + k. */
  function RotatedLeft(row: seq<byte>, k: nat): (t: seq<byte>)
    requires |row| == 4
    ensures |t| == 4
  {
    seq(4, c requires 0 <= c < 4 => row[(c + k) % 4])
  }

  /** A row of four turned k places to the right: cell c comes from cell c - k. */
  function RotatedRight(row: seq<byte>, k: nat): (t: seq<byte>)
    requires |row| == 4 && k <= 4
    ensures |t| == 4
  {
    seq(4, c requires 0 <= c < 4 => row[(c + 4 - k) % 4])
  }

  /** `shift()` followed by `push()` turns a row one more place to the left. */
  lemma ShiftPushStep(row: seq<byte>, k: nat)
    requires |row| == 4
    ensures RotatedLeft(row, k)[1..] + [RotatedLeft(row, k)[0]] == RotatedLeft(row, k + 1)
  {
  }

  /** `pop()` followed by `unshift()` turns a row one more place to the right. */
  lemma PopUnshiftStep(row: seq<byte>, k: nat)
    requires |row| == 4 && k < 4
    ensures [RotatedRight(row, k)[3]] + RotatedRight(row, k)[..3] == RotatedRight(row, k + 1)
  {
  }

  /** `shiftRows` (lines 142-151): row r turned r places to the left. */
  function ShiftRows(s: State): (t: State)
    requires IsState(s)
    ensures IsState(t)
  {
    seq(4, r requires 0 <= r < 4 => RotatedLeft(s[r], r))
  }

  /** `invShiftRows` (lines 186-195): row r turned r places to the right. */
  function InvShiftRows(s: State): (t: State)
    requires IsState(s)
    ensures IsState(t)
  {
    seq(4, r requires 0 <= r < 4 => RotatedRight(s[r], r))
  }

  /** `shiftRows` as the source runs it: row i takes i rounds of `shift`/`push`. */
  method ShiftRowsLoop(s: State) returns (t: State)
    requires IsState(s)
    ensures t == ShiftRows(s)
  {
    t := s;
    for i := 1 to 4
      invariant RowsDone(t, s, ShiftRows(s), i, if i < 4 then s[i] else [])
    {
      RotatedLeftZero(s[i]);
      for j := 0 to i
        invariant RowsDone(t, s, ShiftRows(s), i, RotatedLeft(s[i], j))
      {
        ShiftPushStep(s[i], j);
        var row := t[i];
        var temp := row[0];
        row := row[1..];
        row := row + [temp];
        RowReplaced(t, s, ShiftRows(s), i, RotatedLeft(s[i], j), row);
        t := t[i := row];
      }
      NextRow(t, s, ShiftRows(s), i);
    }
    RowsAllDone(t, s, ShiftRows(s));
  }

  /** `invShiftRows` as the source runs it: row i takes i rounds of `pop`/`unshift`. */
  method InvShiftRowsLoop(s: State) returns (t: State)
    requires IsState(s)
    ensures t == InvShiftRows(s)
  {
    t := s;
    for i := 1 to 4
      invariant RowsDone(t, s, InvShiftRows(s), i, if i < 4 then s[i] else [])
    {
      RotatedRightZero(s[i]);
      for j := 0 to i
        invariant RowsDone(t, s, InvShiftRows(s), i, RotatedRight(s[i], j))
      {
        PopUnshiftStep(s[i], j);
        var row := t[i];
        var temp := row[3];
        row := row[..3];
        row := [temp] + row;
        RowReplaced(t, s, InvShiftRows(s), i, RotatedRight(s[i], j), row);
        t := t[i := row];
      }
      NextRow(t, s, InvShiftRows(s), i);
    }
    RowsAllDone(t, s, InvShiftRows(s));
  }

  lemma RotatedLeftZero(row: seq<byte>)
    requires |row| == 4
    ensures RotatedLeft(row, 0) == row
  {
  }

  lemma RotatedRightZero(row: seq<byte>)
    requires |row| == 4
    ensures RotatedRight(row, 0) == row
  {
  }

  /** While row i is being turned: the rows above it are as in g, row i is p and the
      rows below are as in s. */
  predicate RowsDone(t: State, s: State, g: State, i: int, p: seq<byte>)
    requires IsState(s) && IsState(g)
  {
    |t| == 4 && 0 <= i &&
    (forall k :: 0 <= k < i && k < 4 ==> t[k] == g[k]) &&
    (i < 4 ==> t[i] == p) &&
    (forall k :: i < k < 4 ==> t[k] == s[k])
  }

  lemma RowReplaced(t: State, s: State, g: State, i: int, p: seq<byte>, q: seq<byte>)
    requires IsState(s) && IsState(g) && 0 <= i < 4 && RowsDone(t, s, g, i, p)
    ensures RowsDone(t[i := q], s, g, i, q)
  {
  }

  lemma NextRow(t: State, s: State, g: State, i: int)
    requires IsState(s) && IsState(g) && 0 <= i < 4 && RowsDone(t, s, g, i, g[i])
    ensures i + 1 < 4 ==> RowsDone(t, s, g, i + 1, s[i + 1])
    ensures i + 1 == 4 ==> RowsDone(t, s, g, 4, [])
  {
  }

  lemma RowsAllDone(t: State, s: State, g: State)
    requires IsState(s) && IsState(g) && RowsDone(t, s, g, 4, [])
    ensures t == g
  {
  }

  lemma ShiftRowsUndone(s: State)
    requires IsState(s)
    ensures InvShiftRows(ShiftRows(s)) == s
  {
    forall r, c | 0 <= r < 4 && 0 <= c < 4
      ensures InvShiftRows(ShiftRows(s))[r][c] == s[r][c]
    {
      assert ((c + 4 - r) % 4 + r) % 4 == c;
    }
    SameCells(InvShiftRows(ShiftRows(s)), s);
  }

  lemma InvShiftRowsUndone(s: State)
    requires IsState(s)
    ensures ShiftRows(InvShiftRows(s)) == s
  {
    forall r, c | 0 <= r < 4 && 0 <= c < 4
      ensures ShiftRows(InvShiftRows(s))[r][c] == s[r][c]
    {
      assert ((c + r) % 4 + 4 - r) % 4 == c;
    }
    SameCells(ShiftRows(InvShiftRows(s)), s);
  }

  // ---- addRoundKey ----

  /** `addRoundKey` (lines 169-178): every cell exclusive-ored with the cell of the key
      block read as a state. */
  function AddRoundKey(s: State, key: string): (t: State)
    requires IsState(s) && IsBlock(key)
    ensures IsState(t)
  {
    seq(4, r requires 0 <= r < 4 => seq(4, c requires 0 <= c < 4 => s[r][c] ^ BlockToState(key)[r][c]))
  }

  /** `addRoundKey` as the source runs it: the key block is read, then two nested loops
      fill rows that start empty. */
  method AddRoundKeyLoop(s: State, key: string) returns (t: State)
    requires IsState(s) && IsBlock(key)
    ensures t == AddRoundKey(s, key)
  {
    var keyState := BlockToStateLoop(key);
    t := [[], [], [], []];
    for r := 0 to 4
      invariant CellsDone(t, AddRoundKey(s, key), r, 0)
    {
      for c := 0 to 4
        invariant CellsDone(t, AddRoundKey(s, key), r, c)
      {
        CellAppended(t, AddRoundKey(s, key), r, c, s[r][c] ^ keyState[r][c]);
        t := t[r := t[r] + [s[r][c] ^ keyState[r][c]]];
      }
      RowFilled(t, AddRoundKey(s, key), r);
    }
    CellsAllDone(t, AddRoundKey(s, key));
  }

  /** Rows above r are as in g, row r holds the first c cells of g's row r and the rows
      below are empty. */
  predicate CellsDone(t: State, g: State, r: int, c: int)
    requires IsState(g)
  {
    |t| == 4 && 0 <= r &&
    (forall k :: 0 <= k < r && k < 4 ==> t[k] == g[k]) &&
    (r < 4 ==> 0 <= c <= 4 && t[r] == g[r][..c]) &&
    (forall k :: r < k < 4 ==> t[k] == [])
  }

  lemma CellAppended(t: State, g: State, r: int, c: int, x: byte)
    requires IsState(g) && 0 <= r < 4 && 0 <= c < 4 && CellsDone(t, g, r, c) && x == g[r][c]
    ensures CellsDone(t[r := t[r] + [x]], g, r, c + 1)
  {
    assert g[r][..c + 1] == g[r][..c] + [x];
  }

  lemma RowFilled(t: State, g: State, r: int)
    requires IsState(g) && 0 <= r < 4 && CellsDone(t, g, r, 4)
    ensures CellsDone(t, g, r + 1, 0)
  {
    assert g[r][..4] == g[r];
    if r + 1 < 4 {
      assert g[r + 1][..0] == [];
    }
  }

  lemma CellsAllDone(t: State, g: State)
    requires IsState(g) && CellsDone(t, g, 4, 0)
    ensures t == g
  {
  }

  /** Adding the same round key twice gives back the state. */
  lemma AddRoundKeyTwice(s: State, key: string)
    requires IsState(s) && IsBlock(key)
    ensures AddRoundKey(AddRoundKey(s, key), key) == s
  {
    forall r, c | 0 <= r < 4 && 0 <= c < 4
      ensures AddRoundKey(AddRoundKey(s, key), key)[r][c] == s[r][c]
    {
      XorTwice(s[r][c], BlockToState(key)[r][c]);
    }
    SameCells(AddRoundKey(AddRoundKey(s, key), key), s);
  }

  lemma XorTwice(a: byte, b: byte)
    ensures a ^ b ^ b == a
  {
  }

  // ---- mixColumns and invMixColumns ----

  /** `mixColumns` (lines 153-167): each column through the matrix of `MixedByte`. */
  function MixColumns(s: State): (t: State)
    requires IsState(s)
    ensures IsState(t)
  {
    seq(4, r requires 0 <= r < 4 => seq(4, c requires 0 <= c < 4 => MixedByte(r, s[0][c], s[1][c], s[2][c], s[3][c])))
  }

  /** `invMixColumns` (lines 197-210): each column through the matrix of `UnmixedByte`. */
  function InvMixColumns(s: State): (t: State)
    requires IsState(s)
    ensures IsState(t)
  {
    seq(4, r requires 0 <= r < 4 => seq(4, c requires 0 <= c < 4 => UnmixedByte(r, s[0][c], s[1][c], s[2][c], s[3][c])))
  }

  /** `mixColumns` as the source runs it: one column at a time, the four new cells
      appended to rows that start empty. */
  method MixColumnsLoop(s: State) returns (t: State)
    requires IsState(s)
    ensures t == MixColumns(s)
  {
    hide MixedByte, UnmixedByte;
    t := [[], [], [], []];
    for c := 0 to 4
      invariant ColumnsDone(t, MixColumns(s), c)
    {
      var s0, s1, s2, s3 := s[0][c], s[1][c], s[2][c], s[3][c];
      var m0, m1, m2, m3 := MixColumn(s0, s1, s2, s3);
      ColumnAppended(t, MixColumns(s), c, m0, m1, m2, m3);
      t := [t[0] + [m0], t[1] + [m1], t[2] + [m2], t[3] + [m3]];
    }
    ColumnsAllDone(t, MixColumns(s));
  }

  /** The first c columns of g are in place. */
  predicate ColumnsDone(t: State, g: State, c: int)
    requires IsState(g)
  {
    |t| == 4 && 0 <= c <= 4 && forall r :: 0 <= r < 4 ==> t[r] == g[r][..c]
  }

  lemma ColumnAppended(t: State, g: State, c: int, x0: byte, x1: byte, x2: byte, x3: byte)
    requires IsState(g) && 0 <= c < 4 && ColumnsDone(t, g, c)
    requires x0 == g[0][c] && x1 == g[1][c] && x2 == g[2][c] && x3 == g[3][c]
    ensures ColumnsDone([t[0] + [x0], t[1] + [x1], t[2] + [x2], t[3] + [x3]], g, c + 1)
  {
    assert g[0][..c + 1] == g[0][..c] + [x0];
    assert g[1][..c + 1] == g[1][..c] + [x1];
    assert g[2][..c + 1] == g[2][..c] + [x2];
    assert g[3][..c + 1] == g[3][..c] + [x3];
  }

  lemma ColumnsAllDone(t: State, g: State)
    requires IsState(g) && ColumnsDone(t, g, 4)
    ensures t == g
  {
    assert g[0][..4] == g[0] && g[1][..4] == g[1] && g[2][..4] == g[2] && g[3][..4] == g[3];
  }

  /** The four new cells of one column (lines 161-164), with `gMul` run as a loop. */
  method MixColumn(s0: byte, s1: byte, s2: byte, s3: byte) returns (m0: byte, m1: byte, m2: byte, m3: byte)
    ensures m0 == MixedByte(0, s0, s1, s2, s3) && m1 == MixedByte(1, s0, s1, s2, s3)
    ensures m2 == MixedByte(2, s0, s1, s2, s3) && m3 == MixedByte(3, s0, s1, s2, s3)
  {
    var a0 := GMulLoop(2, s0);
    var b1 := GMulLoop(3, s1);
    m0 := a0 ^ b1 ^ s2 ^ s3;
    var a1 := GMulLoop(2, s1);
    var b2 := GMulLoop(3, s2);
    m1 := s0 ^ a1 ^ b2 ^ s3;
    var a2 := GMulLoop(2, s2);
    var b3 := GMulLoop(3, s3);
    m2 := s0 ^ s1 ^ a2 ^ b3;
    var b0 := GMulLoop(3, s0);
    var a3 := GMulLoop(2, s3);
    m3 := b0 ^ s1 ^ s2 ^ a3;
    Sum4Flat(a0, b1, s2, s3);
    Sum4Flat(s0, a1, b2, s3);
    Sum4Flat(s0, s1, a2, b3);
    Sum4Flat(b0, s1, s2, a3);
    MixedAsSums(s0, s1, s2, s3);
  }

  /** `invMixColumns` as the source runs it. */
  method InvMixColumnsLoop(s: State) returns (t: State)
    requires IsState(s)
    ensures t == InvMixColumns(s)
  {
    hide MixedByte, UnmixedByte;
    t := [[], [], [], []];
    for c := 0 to 4
      invariant ColumnsDone(t, InvMixColumns(s), c)
    {
      var s0, s1, s2, s3 := s[0][c], s[1][c], s[2][c], s[3][c];
      var u0, u1, u2, u3 := UnmixColumn(s0, s1, s2, s3);
      ColumnAppended(t, InvMixColumns(s), c, u0, u1, u2, u3);
      t := [t[0] + [u0], t[1] + [u1], t[2] + [u2], t[3] + [u3]];
    }
    ColumnsAllDone(t, InvMixColumns(s));
  }

  /** The four new cells of one column (lines 206-209). */
  method UnmixColumn(s0: byte, s1: byte, s2: byte, s3: byte) returns (u0: byte, u1: byte, u2: byte, u3: byte)
    ensures u0 == UnmixedByte(0, s0, s1, s2, s3) && u1 == UnmixedByte(1, s0, s1, s2, s3)
    ensures u2 == UnmixedByte(2, s0, s1, s2, s3) && u3 == UnmixedByte(3, s0, s1, s2, s3)
  {
    var e0 := GMulLoop(14, s0);
    var b1 := GMulLoop(11, s1);
    var d2 := GMulLoop(13, s2);
    var n3 := GMulLoop(9, s3);
    u0 := e0 ^ b1 ^ d2 ^ n3;
    var n0 := GMulLoop(9, s0);
    var e1 := GMulLoop(14, s1);
    var b2 := GMulLoop(11, s2);
    var d3 := GMulLoop(13, s3);
    u1 := n0 ^ e1 ^ b2 ^ d3;
    var d0 := GMulLoop(13, s0);
    var n1 := GMulLoop(9, s1);
    var e2 := GMulLoop(14, s2);
    var b3 := GMulLoop(11, s3);
    u2 := d0 ^ n1 ^ e2 ^ b3;
    var b0 := GMulLoop(11, s0);
    var d1 := GMulLoop(13, s1);
    var n2 := GMulLoop(9, s2);
    var e3 := GMulLoop(14, s3);
    u3 := b0 ^ d1 ^ n2 ^ e3;
    Sum4Flat(e0, b1, d2, n3);
    Sum4Flat(n0, e1, b2, d3);
    Sum4Flat(d0, n1, e2, b3);
    Sum4Flat(b0, d1, n2, e3);
    Unmixed0(s0, s1, s2, s3);
    Unmixed1(s0, s1, s2, s3);
    Unmixed2(s0, s1, s2, s3);
    Unmixed3(s0, s1, s2, s3);
  }

  /** `invMixColumns` undoes `mixColumns`. */
  lemma MixColumnsUndone(s: State)
    requires IsState(s)
    ensures InvMixColumns(MixColumns(s)) == s
  {
    hide MixedByte, UnmixedByte;
    forall r, c | 0 <= r < 4 && 0 <= c < 4
      ensures InvMixColumns(MixColumns(s))[r][c] == s[r][c]
    {
      RowRestored(r, s[0][c], s[1][c], s[2][c], s[3][c]);
    }
    SameCells(InvMixColumns(MixColumns(s)), s);
  }

  /** `mixColumns` undoes `invMixColumns`. */
  lemma InvMixColumnsUndone(s: State)
    requires IsState(s)
    ensures MixColumns(InvMixColumns(s)) == s
  {
    hide MixedByte, UnmixedByte;
    forall r, c | 0 <= r < 4 && 0 <= c < 4
      ensures MixColumns(InvMixColumns(s))[r][c] == s[r][c]
    {
      RowRemixed(r, s[0][c], s[1][c], s[2][c], s[3][c]);
    }
    SameCells(MixColumns(InvMixColumns(s)), s);
  }
}
