/** `adfgvxCipher` (src/lib/ciphers/adfgvx.ts): a 6×6 Polybius square over A-Z and
    0-9 turns each character into two of the letters A D F G V X, and a columnar
    transposition under a keyword rearranges the result. */
module Adfgvx {
  import opened Wrappers
  import opened JsText
  import opened AdfgvxSquare
  import opened AdfgvxKey
  import opened AdfgvxColumns
  import opened ModArith

  /** The two `throw`s: an empty cleaned key (line 27), a ciphertext with a
      character other than A D F G V X in either case (lines 69-71). */
  datatype AdfgvxError = KeyRequired | NotAdfgvx

  datatype Output = Output(output: string, fullSquare: string)

  /** `paddingChar || ''` */
  function PadOf(paddingChar: Option<string>): string
  {
    match paddingChar
    case None => ""
    case Some(p) => p
  }

  /** A character that `/[^ADFGVX]/i` does not match. */
  predicate IsAdfgvxChar(c: char) { UpperChar(c) in Headers }

  predicate OnlyAdfgvx(s: string) { forall i :: 0 <= i < |s| ==> IsAdfgvxChar(s[i]) }

  /** The encryption half: fractionate the cleaned text, then transpose it under the key. */
  function Encrypt(text: string, sq: string, key: string, pad: string): string
    requires |sq| == 36 && key != []
  {
    var order := SortedKey(key);
    SortedKeyIsSorted(key);
    Transposed(Fractionate(sq, UpperAlnum(text)), pad, |key|, order)
  }

  /** The decryption half, given the length of each sorted column. */
  function Decrypt(cleanCipher: string, sq: string, key: string, lens: seq<int>): string
    requires |sq| == 36 && key != [] && |lens| == |key|
  {
    Unpair(sq, Untranspose(cleanCipher, |key|, SortedKey(key), lens))
  }

  function Adfgvx(text: string, square: string, transpositionKey: string, decrypt: bool,
                  paddingChar: Option<string>): (r: Result<Output, AdfgvxError>)
    ensures r.Err? <==> UpperLetters(transpositionKey) == [] || (decrypt && !OnlyAdfgvx(text))
    ensures UpperLetters(transpositionKey) == [] ==> r == Err(KeyRequired)
    ensures r.Ok? ==> r.value.fullSquare == FullSquare(square)
  {
    var fullSquare := FullSquare(square);
    var key := UpperLetters(transpositionKey);
    if key == [] then Err(KeyRequired)
    else if !decrypt then Ok(Output(Encrypt(text, fullSquare, key, PadOf(paddingChar)), fullSquare))
    else if !OnlyAdfgvx(text) then Err(NotAdfgvx)
    else
      var cleanCipher := ToUpper(text);
      Ok(Output(Decrypt(cleanCipher, fullSquare, key, SourceLengths(|cleanCipher|, |key|)), fullSquare))
  }

  /** The decryption with each column cut at the length the encryption gave it:
      the long columns are the first `longCols` columns of the grid, not the
      first `longCols` in sorted order. Encryption and the errors are unchanged. */
  function AdfgvxFixed(text: string, square: string, transpositionKey: string, decrypt: bool,
                       paddingChar: Option<string>): (r: Result<Output, AdfgvxError>)
    ensures r.Err? <==> Adfgvx(text, square, transpositionKey, decrypt, paddingChar).Err?
    ensures !decrypt ==> r == Adfgvx(text, square, transpositionKey, decrypt, paddingChar)
  {
    var key := UpperLetters(transpositionKey);
    if decrypt && key != [] && OnlyAdfgvx(text) then
      var fullSquare := FullSquare(square);
      var cleanCipher := ToUpper(text);
      SortedKeyIsSorted(key);
      Ok(Output(Decrypt(cleanCipher, fullSquare, key, IntendedLengths(|cleanCipher|, |key|, SortedKey(key))), fullSquare))
    else Adfgvx(text, square, transpositionKey, decrypt, paddingChar)
  }

  // ---- the loops ----

  method AdfgvxCipher(text: string, square: string, transpositionKey: string, decrypt: bool,
                      paddingChar: Option<string>) returns (r: Result<Output, AdfgvxError>)
    ensures r == Adfgvx(text, square, transpositionKey, decrypt, paddingChar)
  {
    var matrix := CompleteSquare(square);
    var cleanTransKey := UpperLetters(transpositionKey);
    if cleanTransKey == [] {
      return Err(KeyRequired);
    }
    var sortedKey := SortedKey(cleanTransKey);
    SortedKeyIsSorted(cleanTransKey);
    if !decrypt {
      var fractionated := FractionateLoop(matrix, UpperAlnum(text));
      var output := TransposeGrid(fractionated, PadOf(paddingChar), |cleanTransKey|, sortedKey);
      return Ok(Output(output, matrix));
    }
    if !OnlyAdfgvx(text) {
      return Err(NotAdfgvx);
    }
    var cleanCipher := ToUpper(text);
    var fractionated := UntransposeColumns(cleanCipher, |cleanTransKey|, sortedKey);
    var output := UnpairLoop(matrix, fractionated);
    return Ok(Output(output, matrix));
  }

  /** Lines 45-65: fill a rows × cols grid row by row, padding the last row, then
      read the columns in sorted order, each top to bottom. */
  method TransposeGrid(fractionated: string, pad: string, cols: int, sortedKey: seq<int>) returns (result: string)
    requires cols > 0 && forall q :: 0 <= q < |sortedKey| ==> 0 <= sortedKey[q] < cols
    ensures result == Transposed(fractionated, pad, cols, sortedKey)
  {
    var rows := (|fractionated| + cols - 1) / cols;
    RowsBounds(|fractionated|, cols);
    var grid := FillGrid(fractionated, pad, rows, cols);
    result := "";
    for p := 0 to |sortedKey|
      invariant result == ReadColumns(fractionated, pad, cols, sortedKey, p)
    {
      var i := sortedKey[p];
      for r := 0 to rows
        invariant result == ReadColumns(fractionated, pad, cols, sortedKey, p) + ColumnCells(fractionated, pad, cols, i, r)
      {
        result := result + grid[r, i];
      }
    }
  }

  /** Lines 47-58: `grid[r][c]` is the next character of the stream while there is one, the pad after. */
  method FillGrid(fractionated: string, pad: string, rows: int, cols: int) returns (grid: array2<string>)
    requires cols > 0 && rows >= 0
    ensures fresh(grid) && grid.Length0 == rows && grid.Length1 == cols
    ensures forall r, c :: 0 <= r < rows && 0 <= c < cols ==> grid[r, c] == Cell(fractionated, pad, cols, r, c)
  {
    grid := new string[rows, cols];
    var charIdx := 0;
    ghost var k := 0;
    for r := 0 to rows
      invariant k == r * cols && charIdx == if k < |fractionated| then k else |fractionated|
      invariant forall r', c' :: 0 <= r' < r && 0 <= c' < cols ==> grid[r', c'] == Cell(fractionated, pad, cols, r', c')
    {
      for c := 0 to cols
        invariant k == r * cols + c && charIdx == if k < |fractionated| then k else |fractionated|
        invariant forall r', c' :: 0 <= r' < r && 0 <= c' < cols ==> grid[r', c'] == Cell(fractionated, pad, cols, r', c')
        invariant forall c' :: 0 <= c' < c ==> grid[r, c'] == Cell(fractionated, pad, cols, r, c')
      {
        if charIdx < |fractionated| {
          grid[r, c] := [fractionated[charIdx]];
          charIdx := charIdx + 1;
        } else {
          grid[r, c] := pad;
        }
        k := k + 1;
      }
      assert k == (r + 1) * cols;
    }
  }

  /** Lines 74-98: cut the ciphertext into the columns, in sorted order, then read
      the grid row by row. */
  method UntransposeColumns(cleanCipher: string, cols: int, sortedKey: seq<int>) returns (fractionated: string)
    requires cols > 0 && |sortedKey| == cols
    ensures fractionated == Untranspose(cleanCipher, cols, sortedKey, SourceLengths(|cleanCipher|, cols))
  {
    var rows := (|cleanCipher| + cols - 1) / cols;
    RowsBounds(|cleanCipher|, cols);
    var colData := CutColumns(cleanCipher, cols, sortedKey);
    fractionated := ReadRows(colData, rows, cols);
  }

  /** Lines 74-89: column `key.i` gets the next `colLength` characters, where the
      first `longCols` sorted positions are the long ones. */
  method CutColumns(cleanCipher: string, cols: int, sortedKey: seq<int>) returns (colData: map<int, string>)
    requires cols > 0 && |sortedKey| == cols
    ensures colData == SplitColumns(cleanCipher, sortedKey, SourceLengths(|cleanCipher|, cols), cols)
  {
    var rows := (|cleanCipher| + cols - 1) / cols;
    var longCols := if |cleanCipher| % cols == 0 then 0 else |cleanCipher| % cols;
    ghost var lens := SourceLengths(|cleanCipher|, cols);
    colData := map[];
    var cursor := 0;
    for sortedIdx := 0 to |sortedKey|
      invariant cursor == Cursor(lens, sortedIdx)
      invariant colData == SplitColumns(cleanCipher, sortedKey, lens, sortedIdx)
    {
      var colLength := if sortedIdx < longCols then rows else rows - 1;
      SourceLengthAt(|cleanCipher|, cols, sortedIdx);
      SplitColumnsStep(cleanCipher, sortedKey, lens, sortedIdx);
      if longCols == 0 {
        colData := colData[sortedKey[sortedIdx] := Substring(cleanCipher, cursor, cursor + rows)];
        cursor := cursor + rows;
      } else {
        colData := colData[sortedKey[sortedIdx] := Substring(cleanCipher, cursor, cursor + colLength)];
        cursor := cursor + colLength;
      }
    }
  }

  /** Lines 91-98: row by row, take `colData[c][r]` from every column that has it. */
  method ReadRows(colData: map<int, string>, rows: int, cols: int) returns (fractionated: string)
    requires cols > 0 && rows >= 0
    ensures fractionated == Gather(colData, cols, rows * cols)
  {
    fractionated := "";
    ghost var k := 0;
    for r := 0 to rows
      invariant k == r * cols && fractionated == Gather(colData, cols, k)
    {
      for c := 0 to cols
        invariant k == r * cols + c && fractionated == Gather(colData, cols, k)
      {
        DivModUnique(k, cols, r, c);
        if c in colData && colData[c] != "" && r < |colData[c]| {
          fractionated := fractionated + [colData[c][r]];
        }
        k := k + 1;
      }
      assert k == (r + 1) * cols;
    }
  }

  // ---- what the cipher promises ----

  /** The cleaned plaintext is in every completed square. */
  lemma CleanTextInSquare(text: string, sq: string)
    requires ValidSquare(sq)
    ensures AllIn(UpperAlnum(text), sq)
  {
  }

  /** A rearranged ADFGVX stream passes the decryption's character check and is
      already upper case. */
  lemma CipherOfHeaders(f: string, cols: int, order: seq<int>)
    requires cols > 0 && IsOrderOf(order, cols) && AllHeaders(f)
    ensures var cipher := Transposed(f, "", cols, order);
      OnlyAdfgvx(cipher) && ToUpper(cipher) == cipher && |cipher| == |f|
  {
    var cipher := Transposed(f, "", cols, order);
    TransposedUnpadded(f, cols, order);
    RearrangedHeaders(cipher, f);
    HeadersAreAdfgvx(cipher);
  }

  lemma RearrangedHeaders(s: string, t: string)
    requires multiset(s) == multiset(t) && AllHeaders(t)
    ensures AllHeaders(s)
  {
    forall i | 0 <= i < |s| ensures s[i] in Headers {
      assert s[i] in multiset(t);
    }
  }

  lemma HeadersAreAdfgvx(s: string)
    requires AllHeaders(s)
    ensures OnlyAdfgvx(s) && ToUpper(s) == s
  {
    forall i | 0 <= i < |s| ensures UpperChar(s[i]) == s[i] {
      assert s[i] in Headers;
    }
  }

  /** With no pad, the ciphertext is the fractionated text rearranged: two letters
      of A D F G V X per plaintext character. */
  lemma AdfgvxCiphertext(text: string, square: string, transpositionKey: string, paddingChar: Option<string>)
    requires UpperLetters(transpositionKey) != [] && PadOf(paddingChar) == ""
    ensures var enc := Adfgvx(text, square, transpositionKey, false, paddingChar);
      && enc.Ok?
      && multiset(enc.value.output) == multiset(Fractionate(FullSquare(square), UpperAlnum(text)))
      && |enc.value.output| == 2 * |UpperAlnum(text)|
      && OnlyAdfgvx(enc.value.output)
  {
    var sq, key := FullSquare(square), UpperLetters(transpositionKey);
    SortedKeyIsSorted(key);
    var f := Fractionate(sq, UpperAlnum(text));
    CleanTextInSquare(text, sq);
    TransposedUnpadded(f, |key|, SortedKey(key));
    CipherOfHeaders(f, |key|, SortedKey(key));
  }

  /** The corrected decryption undoes encryption for every text, square and key:
      it gives back the cleaned plaintext. */
  lemma AdfgvxFixedRoundTrip(text: string, square: string, transpositionKey: string, paddingChar: Option<string>)
    requires UpperLetters(transpositionKey) != [] && PadOf(paddingChar) == ""
    ensures var enc := Adfgvx(text, square, transpositionKey, false, paddingChar);
      && enc.Ok?
      && AdfgvxFixed(enc.value.output, square, transpositionKey, true, paddingChar)
         == Ok(Output(UpperAlnum(text), FullSquare(square)))
  {
    var sq, key := FullSquare(square), UpperLetters(transpositionKey);
    var cols, order := |key|, SortedKey(key);
    SortedKeyIsSorted(key);
    var s := UpperAlnum(text);
    var f := Fractionate(sq, s);
    CipherOfHeaders(f, cols, order);
    IntendedLengthsAreColumnLengths(|f|, cols, order);
    UntransposeTransposed(f, cols, order, IntendedLengths(|f|, cols, order));
    CleanTextInSquare(text, sq);
    UnpairFractionate(sq, s);
  }

  /** Decryption as written undoes encryption when the grid is full or the key's
      letters are already in order: then the long columns come first in sorted order. */
  lemma AdfgvxRoundTrip(text: string, square: string, transpositionKey: string, paddingChar: Option<string>)
    requires UpperLetters(transpositionKey) != [] && PadOf(paddingChar) == ""
    requires var key := UpperLetters(transpositionKey);
      || (2 * |UpperAlnum(text)|) % |key| == 0
      || forall i, j :: 0 <= i < j < |key| ==> key[i] <= key[j]
    ensures var enc := Adfgvx(text, square, transpositionKey, false, paddingChar);
      && enc.Ok?
      && Adfgvx(enc.value.output, square, transpositionKey, true, paddingChar)
         == Ok(Output(UpperAlnum(text), FullSquare(square)))
  {
    var sq, key := FullSquare(square), UpperLetters(transpositionKey);
    var cols, order := |key|, SortedKey(key);
    SortedKeyIsSorted(key);
    var s := UpperAlnum(text);
    var f := Fractionate(sq, s);
    CleanTextInSquare(text, sq);
    CipherOfHeaders(f, cols, order);
    if |f| % cols != 0 {
      SortedKeyOfOrderedKey(key);
    }
    SourceLengthsCorrectIff(|f|, cols, order);
    UntransposeTransposed(f, cols, order, SourceLengths(|f|, cols));
    UnpairFractionate(sq, s);
  }

  /** With a one-letter ADFGVX pad the grid is full, so decryption as written gives
      back the cleaned plaintext, followed by whatever the pad letters spell in pairs. */
  lemma AdfgvxPaddedRoundTrip(text: string, square: string, transpositionKey: string, x: char)
    requires UpperLetters(transpositionKey) != [] && x in Headers
    ensures var cols, n := |UpperLetters(transpositionKey)|, 2 * |UpperAlnum(text)|;
      var extra := Rows(n, cols) * cols - n;
      var enc := Adfgvx(text, square, transpositionKey, false, Some([x]));
      && 0 <= extra < cols
      && enc.Ok?
      && Adfgvx(enc.value.output, square, transpositionKey, true, Some([x]))
         == Ok(Output(UpperAlnum(text) + Unpair(FullSquare(square), seq(extra, _ => x)), FullSquare(square)))
  {
    var sq, key := FullSquare(square), UpperLetters(transpositionKey);
    SortedKeyIsSorted(key);
    var s := UpperAlnum(text);
    var f := Fractionate(sq, s);
    CleanTextInSquare(text, sq);
    PaddedCipher(f, x, |key|, SortedKey(key));
    RowsBounds(|f|, |key|);
    var extra := Rows(|f|, |key|) * |key| - |f|;
    UnpairAppend(sq, f, seq(extra, _ => x));
    UnpairFractionate(sq, s);
  }

  /** The padded ciphertext passes the character check, and decryption as written
      recovers the stream with the pad letters after it. */
  lemma PaddedCipher(f: string, x: char, cols: int, order: seq<int>)
    requires cols > 0 && IsOrderOf(order, cols) && AllHeaders(f) && x in Headers
    ensures var cipher := Transposed(f, [x], cols, order);
      && OnlyAdfgvx(cipher) && ToUpper(cipher) == cipher
      && Untranspose(cipher, cols, order, SourceLengths(|cipher|, cols))
         == f + seq(Rows(|f|, cols) * cols - |f|, _ => x)
  {
    var g := Filled(f, x, cols);
    assert AllHeaders(g);
    ReadColumnsFilled(f, x, cols, order, |order|);
    CipherOfHeaders(g, cols, order);
    UntransposePadded(f, x, cols, order);
  }

  // ---- the column lengths of the decryption ----

  /** The default square is the alphabet itself. */
  lemma DefaultSquare()
    ensures FullSquare("") == Alphabet
  {
    AlphabetContents();
    SquareOfDistinct(Alphabet);
  }

  lemma SquareOfDistinct(alphabet: string)
    requires Distinct(alphabet)
    ensures FirstOccurrences(UpperAlnum("") + alphabet) == alphabet
  {
    assert UpperAlnum("") + alphabet == alphabet;
    FirstOccurrencesOfDistinct(alphabet);
  }

  lemma KeyCab()
    ensures UpperLetters("CAB") == "CAB" && SortedKey("CAB") == [1, 2, 0]
  {
    UpperLettersOfUpper("CAB");
    CabFirstTwo();
    CabAll();
  }

  /** A sorts before C. */
  lemma CabFirstTwo()
    ensures SortPrefix("CAB", 2) == [1, 0]
  {
    var k := "CAB";
    assert SortPrefix(k, 1) == [0];
    assert Before(k, 1, 0);
    assert SortPrefix(k, 2) == Insert(k, 1, [0]);
  }

  /** B sorts between A and C. */
  lemma CabAll()
    requires SortPrefix("CAB", 2) == [1, 0]
    ensures SortPrefix("CAB", 3) == [1, 2, 0]
  {
    var k := "CAB";
    assert !Before(k, 2, 1) && Before(k, 2, 0);
    assert Insert(k, 2, [0]) == [2, 0];
    assert SortPrefix(k, 3) == Insert(k, 2, [1, 0]);
  }

  /** One character of the square fractionates to its row and column letters. */
  lemma FractionateOne(sq: string, c: char)
    requires |sq| == 36 && c in sq
    ensures Fractionate(sq, [c]) == PairOf(IndexOf(sq, c))
  {
    assert [c][..0] == [];
  }

  lemma AlphabetB()
    ensures Fractionate(Alphabet, "B") == "AD" && Unpair(Alphabet, "AD") == "B" && Unpair(Alphabet, "DA") == "G"
  {
    assert |Alphabet| == 36 && Alphabet[0] == 'A' && Alphabet[1] == 'B' && Alphabet[6] == 'G';
    SquareB(Alphabet);
  }

  lemma SquareB(sq: string)
    requires |sq| == 36 && sq[0] == 'A' && sq[1] == 'B' && sq[6] == 'G'
    ensures Fractionate(sq, "B") == "AD" && Unpair(sq, "AD") == "B" && Unpair(sq, "DA") == "G"
  {
    IndexOfFirst(sq, 'B', 1);
    FractionateOne(sq, 'B');
    assert PairOf(1) == "AD" && PairOf(6) == "DA";
    UnpairOfPair(sq, 1);
    UnpairOfPair(sq, 6);
  }

  lemma TransposeAD()
    ensures Transposed("AD", "", 3, [1, 2, 0]) == "DA"
  {
    assert Rows(2, 3) == 1;
    assert ColumnCells("AD", "", 3, 1, 1) == "D";
    assert ColumnCells("AD", "", 3, 2, 1) == "";
    assert ColumnCells("AD", "", 3, 0, 1) == "A";
  }

  lemma UntransposeDA()
    ensures SourceLengths(2, 3) == [1, 1, 0]
    ensures Untranspose("DA", 3, [1, 2, 0], [1, 1, 0]) == "DA"
  {
    var order, lens := [1, 2, 0], [1, 1, 0];
    assert Rows(2, 3) == 1;
    assert Cursor(lens, 1) == 1 && Cursor(lens, 2) == 2;
    assert Substring("DA", 0, 1) == "D" && Substring("DA", 1, 2) == "A" && Substring("DA", 2, 2) == "";
    var m := SplitColumns("DA", order, lens, 3);
    assert m == map[1 := "D", 2 := "A", 0 := ""];
    assert Gather(m, 3, 1) == "" && Gather(m, 3, 2) == "D";
  }

  lemma UntransposeFixedDA()
    ensures IntendedLengths(2, 3, [1, 2, 0]) == [1, 0, 1]
    ensures Untranspose("DA", 3, [1, 2, 0], [1, 0, 1]) == "AD"
  {
    var order, lens := [1, 2, 0], [1, 0, 1];
    assert Rows(2, 3) == 1;
    assert Cursor(lens, 1) == 1 && Cursor(lens, 2) == 1;
    assert Substring("DA", 0, 1) == "D" && Substring("DA", 1, 1) == "" && Substring("DA", 1, 2) == "A";
    var m := SplitColumns("DA", order, lens, 3);
    assert m == map[1 := "D", 2 := "", 0 := "A"];
    assert Gather(m, 3, 1) == "A" && Gather(m, 3, 2) == "AD";
  }

  /** Line 81 gives the full height to the first `longCols` columns in sorted order,
      but the encryption filled the first `longCols` columns of the grid. With the
      key CAB and the plaintext B (AD once fractionated), column 0 holds A and is
      read last; the decryption cuts it empty and gives back G. */
  lemma ColumnLengthsCounterexample()
    ensures Adfgvx("B", "", "CAB", false, None) == Ok(Output("DA", Alphabet))
    ensures Adfgvx("DA", "", "CAB", true, None) == Ok(Output("G", Alphabet))
    ensures AdfgvxFixed("DA", "", "CAB", true, None) == Ok(Output("B", Alphabet))
  {
    EncryptB();
    DecryptDA();
    DecryptFixedDA();
  }

  lemma EncryptB()
    ensures Adfgvx("B", "", "CAB", false, None) == Ok(Output("DA", Alphabet))
  {
    DefaultSquare();
    KeyCab();
    assert UpperAlnum("B") == "B";
    AlphabetB();
    TransposeAD();
  }

  lemma DecryptDA()
    ensures Adfgvx("DA", "", "CAB", true, None) == Ok(Output("G", Alphabet))
  {
    DefaultSquare();
    KeyCab();
    assert ToUpper("DA") == "DA" && OnlyAdfgvx("DA");
    UntransposeDA();
    AlphabetB();
  }

  lemma DecryptFixedDA()
    ensures AdfgvxFixed("DA", "", "CAB", true, None) == Ok(Output("B", Alphabet))
  {
    DefaultSquare();
    KeyCab();
    assert ToUpper("DA") == "DA" && OnlyAdfgvx("DA");
    UntransposeFixedDA();
    AlphabetB();
  }
}
