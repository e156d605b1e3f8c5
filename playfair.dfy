/** The Playfair cipher of src/lib/ciphers/core.ts:121-190: a 5×5 key square of
    the 25 letters other than J, digraph preparation with 'X' fillers, and the
    same-row, same-column and rectangle rules. */
module Playfair {
  import opened Wrappers
  import opened JsText
  import opened ModArith

  datatype PlayfairError =
    | KeyNotLetters    // the key fails `/^[a-zA-Z]*$/`
    | TextNotLetters   // the text fails `/^[a-zA-Z]*$/`

  /** The square's alphabet: A-Z without J. */
  const Alphabet: string := "ABCDEFGHIKLMNOPQRSTUVWXYZ"

  predicate SquareLetter(c: char) { IsUpper(c) && c != 'J' }

  predicate AllSquareLetters(s: string) { forall i :: 0 <= i < |s| ==> SquareLetter(s[i]) }

  /** A key square: 25 distinct cells holding every square letter. */
  predicate ValidSquare(sq: string)
  {
    |sq| == 25 && Distinct(sq) && forall c :: SquareLetter(c) ==> c in sq
  }

  lemma AlphabetContents()
    ensures |Alphabet| == 25 && Distinct(Alphabet)
    ensures forall c :: c in Alphabet <==> SquareLetter(c)
  {
    forall i, j | 0 <= i < j < 25 ensures Alphabet[i] != Alphabet[j] {
      AlphabetAt(i);
      AlphabetAt(j);
    }
    forall c | c in Alphabet ensures SquareLetter(c) {
      var i :| 0 <= i < 25 && Alphabet[i] == c;
      AlphabetAt(i);
    }
    forall c | SquareLetter(c) ensures c in Alphabet {
      var i := if c < 'J' then c as int - 65 else c as int - 66;
      AlphabetAt(i);
    }
  }

  /** Letter i of the alphabet: A + i before J, A + i + 1 after it. */
  lemma AlphabetAt(i: int)
    requires 0 <= i < 25
    ensures Alphabet[i] as int == if i < 9 then 65 + i else 66 + i
  {
  }

  /** `.replace(/J/g, 'I')` */
  function ReplaceJ(s: string): (r: string)
    ensures |r| == |s|
    ensures forall i :: 0 <= i < |s| ==> r[i] == if s[i] == 'J' then 'I' else s[i]
  {
    seq(|s|, i requires 0 <= i < |s| => if s[i] == 'J' then 'I' else s[i])
  }

  /** `cleanKey` (src/lib/ciphers/core.ts:129-132): the key, upper-cased with J
      read as I, followed by the alphabet, keeping first occurrences. */
  function Square(key: string): (sq: string)
    ensures AllLetters(key) ==> ValidSquare(sq) && AllSquareLetters(sq)
  {
    var sq := FirstOccurrences(KeyLetters(key) + Alphabet);
    if AllLetters(key) then
      SquareContents(key);
      sq
    else sq
  }

  function KeyLetters(key: string): string { ReplaceJ(ToUpper(key)) }

  lemma SquareContents(key: string)
    requires AllLetters(key)
    ensures var sq := FirstOccurrences(KeyLetters(key) + Alphabet);
      ValidSquare(sq) && AllSquareLetters(sq)
  {
    var k := KeyLetters(key);
    var sq := FirstOccurrences(k + Alphabet);
    AlphabetContents();
    forall i | 0 <= i < |k| ensures SquareLetter(k[i]) {
      assert IsLetter(key[i]);
    }
    forall c ensures c in sq <==> SquareLetter(c) {
      assert c in k + Alphabet <==> c in k || c in Alphabet;
    }
    SameElementsSameLength(sq, Alphabet);
  }

  /** The key's own letters open the square, in first-seen order. */
  lemma SquareStartsWithKey(key: string)
    ensures var k := FirstOccurrences(KeyLetters(key));
      |k| <= |Square(key)| && Square(key)[..|k|] == k
  {
    FirstOccurrencesPrefix(KeyLetters(key), Alphabet);
  }

  // ---- digraph preparation (src/lib/ciphers/core.ts:136-159) ----

  /** The prepared text: pairs of letters, a doubled letter split by 'X', and an
      odd last letter completed with 'X'. */
  function Prepare(s: string): (r: string)
    ensures |r| % 2 == 0
    ensures |s| <= |r| <= 2 * |s|
    decreases |s|
  {
    if s == [] then []
    else if |s| == 1 then [s[0], 'X']
    else
      var double := s[0] == s[1];
      (if double then [s[0], 'X'] else [s[0], s[1]]) + Prepare(if double then s[1..] else s[2..])
  }

  /** No prepared digraph repeats a letter, except the digraph "XX". */
  lemma {:induction false} PrepareSplitsDoubles(s: string, k: int)
    requires 0 <= k < |Prepare(s)| / 2
    ensures Prepare(s)[2 * k] == Prepare(s)[2 * k + 1] ==> Prepare(s)[2 * k] == 'X'
    decreases |s|
  {
    if |s| >= 2 && k > 0 {
      var rest := if s[0] == s[1] then s[1..] else s[2..];
      assert Prepare(s)[2..] == Prepare(rest);
      PrepareSplitsDoubles(rest, k - 1);
      assert Prepare(s)[2 * k] == Prepare(rest)[2 * (k - 1)];
      assert Prepare(s)[2 * k + 1] == Prepare(rest)[2 * (k - 1) + 1];
    }
  }

  predicate NotX(c: char) { c != 'X' }

  /** The first digraph of a text of two or more letters: its letters taken from the
      text, the filler 'X' when they are equal, and the rest of the text. */
  lemma PrepareFirst(s: string) returns (head: string, filler: string, rest: string)
    requires |s| >= 2
    ensures s == head + rest && |rest| < |s|
    ensures Prepare(s) == (head + filler) + Prepare(rest)
    ensures filler == [] || filler == ['X']
  {
    if s[0] == s[1] {
      head, filler, rest := [s[0]], ['X'], s[1..];
    } else {
      head, filler, rest := [s[0], s[1]], [], s[2..];
    }
    assert s == head + rest;
  }

  /** Dropping 'X' removes the filler entirely. */
  lemma NoFiller(filler: string)
    requires filler == [] || filler == ['X']
    ensures Filter(NotX, filler) == []
  {
    if filler != [] {
      assert filler[1..] == [];
    }
  }

  /** Apart from the inserted fillers, preparation keeps the text as it was. */
  lemma {:induction false} PrepareOnlyAddsX(s: string)
    ensures Filter(NotX, Prepare(s)) == Filter(NotX, s)
    decreases |s|
  {
    if |s| == 1 {
      assert Prepare(s) == s + ['X'];
      FilterAppend(NotX, s, ['X']);
    } else if |s| >= 2 {
      var head, filler, rest := PrepareFirst(s);
      PrepareOnlyAddsX(rest);
      FilterAppend(NotX, head + filler, Prepare(rest));
      FilterAppend(NotX, head, filler);
      FilterAppend(NotX, head, rest);
      NoFiller(filler);
      assert Filter(NotX, head) + Filter(NotX, filler) == Filter(NotX, head);
    }
  }

  /** Preparation adds only 'X', which is a square letter. */
  lemma {:induction false} PrepareSquareLetters(s: string)
    requires AllSquareLetters(s)
    ensures AllSquareLetters(Prepare(s))
    decreases |s|
  {
    if |s| >= 2 {
      var rest := if s[0] == s[1] then s[1..] else s[2..];
      PrepareSquareLetters(rest);
    }
  }

  /** The preparation loop (src/lib/ciphers/core.ts:137-158). Each pass appends
      exactly two characters, so the odd-length padding after the loop never runs. */
  method PrepareLoop(cleanText: string) returns (preparedText: string)
    ensures preparedText == Prepare(cleanText)
  {
    preparedText := "";
    var tempCleanText := cleanText;
    while |tempCleanText| > 0
      invariant preparedText + Prepare(tempCleanText) == Prepare(cleanText)
      decreases |tempCleanText|
    {
      var char1 := tempCleanText[0];
      var piece, next;
      if |tempCleanText| == 1 {
        piece, next := [char1, 'X'], "";
      } else {
        var char2 := tempCleanText[1];
        if char1 == char2 {
          piece, next := [char1, 'X'], tempCleanText[1..];
        } else {
          piece, next := [char1, char2], tempCleanText[2..];
        }
      }
      assert Prepare(tempCleanText) == piece + Prepare(next);
      assert (preparedText + piece) + Prepare(next) == preparedText + (piece + Prepare(next));
      preparedText := preparedText + piece;
      tempCleanText := next;
    }
    assert preparedText == Prepare(cleanText);
    // the loop always closes its pairs, so the source's odd-length padding never applies
    assert |preparedText| % 2 == 0;
    if |preparedText| % 2 != 0 {
      preparedText := preparedText + "X";
    }
  }

  // ---- the square and its positions ----

  /** `matrix[r][c]` of the square. */
  function At(sq: string, r: int, c: int): char
    requires |sq| == 25 && 0 <= r < 5 && 0 <= c < 5
  {
    sq[5 * r + c]
  }

  /** `findPos` (src/lib/ciphers/core.ts:161-168): the row and column of the first
      cell holding c, or (0, 0) when there is none. */
  function PosOf(sq: string, c: char): (p: (int, int))
    ensures 0 <= p.0 < 5 && 0 <= p.1 < 5
    ensures |sq| == 25 && c in sq ==> At(sq, p.0, p.1) == c
    ensures c !in sq ==> p == (0, 0)
  {
    var i := IndexOf(sq, c);
    if i < 0 || i >= 25 then (0, 0) else (i / 5, i % 5)
  }

  /** In a square of distinct letters, the position of cell (r, c) is (r, c). */
  lemma PosOfAt(sq: string, r: int, c: int)
    requires |sq| == 25 && Distinct(sq) && 0 <= r < 5 && 0 <= c < 5
    ensures PosOf(sq, At(sq, r, c)) == (r, c)
  {
    IndexOfFirst(sq, sq[5 * r + c], 5 * r + c);
  }

  /** The matrix of src/lib/ciphers/core.ts:170-171: five slices of five. */
  method BuildMatrix(sq: string) returns (matrix: seq<seq<char>>)
    requires |sq| == 25
    ensures |matrix| == 5
    ensures forall r :: 0 <= r < 5 ==> |matrix[r]| == 5
    ensures forall r, c :: 0 <= r < 5 && 0 <= c < 5 ==> matrix[r][c] == At(sq, r, c)
  {
    matrix := [];
    for i := 0 to 5
      invariant |matrix| == i
      invariant forall r :: 0 <= r < i ==> matrix[r] == sq[5 * r..5 * r + 5]
    {
      matrix := matrix + [sq[i * 5..i * 5 + 5]];
    }
  }

  /** The nested search loop of `findPos`. */
  method FindPos(matrix: seq<seq<char>>, ghost sq: string, ch: char) returns (r: int, c: int)
    requires |sq| == 25 && |matrix| == 5
    requires forall r :: 0 <= r < 5 ==> |matrix[r]| == 5
    requires forall r, c :: 0 <= r < 5 && 0 <= c < 5 ==> matrix[r][c] == At(sq, r, c)
    ensures (r, c) == PosOf(sq, ch)
  {
    ghost var i := IndexOf(sq, ch);
    for row := 0 to 5
      invariant forall j :: 0 <= j < 5 * row ==> sq[j] != ch
    {
      for col := 0 to 5
        invariant forall j :: 0 <= j < 5 * row + col ==> sq[j] != ch
      {
        if matrix[row][col] == ch {
          IndexOfFirst(sq, ch, 5 * row + col);
          return row, col;
        }
      }
    }
    assert ch !in sq;
    return 0, 0;
  }

  // ---- the digraph rules (src/lib/ciphers/core.ts:177-187) ----

  /** The cell positions a digraph at (r1, c1), (r2, c2) maps to, for a shift of 1
      (encryption) or -1 (decryption). */
  function PairRule(r1: int, c1: int, r2: int, c2: int, shift: int): (q: (int, int, int, int))
    requires 0 <= r1 < 5 && 0 <= c1 < 5 && 0 <= r2 < 5 && 0 <= c2 < 5
    ensures 0 <= q.0 < 5 && 0 <= q.1 < 5 && 0 <= q.2 < 5 && 0 <= q.3 < 5
  {
    if r1 == r2 then (r1, Mod(c1 + shift, 5), r2, Mod(c2 + shift, 5))
    else if c1 == c2 then (Mod(r1 + shift, 5), c1, Mod(r2 + shift, 5), c2)
    else (r1, c2, r2, c1)
  }

  /** Shifting by one cell and back returns the cell. */
  lemma ShiftCell(x: int, shift: int)
    requires 0 <= x < 5 && (shift == 1 || shift == -1)
    ensures Mod(Mod(x + shift, 5) - shift, 5) == x
  {
  }

  /** The decryption rule undoes the encryption rule and vice versa: a same row
      stays a same row, a same column a same column, a rectangle a rectangle. */
  lemma PairRuleInverse(r1: int, c1: int, r2: int, c2: int, shift: int)
    requires 0 <= r1 < 5 && 0 <= c1 < 5 && 0 <= r2 < 5 && 0 <= c2 < 5
    requires shift == 1 || shift == -1
    ensures var q := PairRule(r1, c1, r2, c2, shift);
      PairRule(q.0, q.1, q.2, q.3, -shift) == (r1, c1, r2, c2)
  {
    ShiftCell(c1, shift);
    ShiftCell(c2, shift);
    ShiftCell(r1, shift);
    ShiftCell(r2, shift);
    if r1 != r2 && c1 == c2 {
      assert Mod(r1 + shift, 5) != Mod(r2 + shift, 5);
    }
  }

  /** One digraph of ciphertext (or of plaintext, when decrypting). */
  function EncodePair(sq: string, a: char, b: char, decrypt: bool): (r: string)
    requires |sq| == 25
    ensures |r| == 2
  {
    var p1 := PosOf(sq, a);
    var p2 := PosOf(sq, b);
    var q := PairRule(p1.0, p1.1, p2.0, p2.1, if decrypt then -1 else 1);
    [At(sq, q.0, q.1), At(sq, q.2, q.3)]
  }

  /** For two square letters, decoding an encoded digraph gives it back, and so
      does encoding a decoded one. Equal letters are covered as well. */
  lemma EncodePairInverse(sq: string, a: char, b: char, decrypt: bool)
    requires ValidSquare(sq) && SquareLetter(a) && SquareLetter(b)
    ensures var e := EncodePair(sq, a, b, decrypt);
      EncodePair(sq, e[0], e[1], !decrypt) == [a, b]
  {
    var p1 := PosOf(sq, a);
    var p2 := PosOf(sq, b);
    var shift := if decrypt then -1 else 1;
    var q := PairRule(p1.0, p1.1, p2.0, p2.1, shift);
    PosOfAt(sq, q.0, q.1);
    PosOfAt(sq, q.2, q.3);
    PairRuleInverse(p1.0, p1.1, p2.0, p2.1, shift);
  }

  /** All digraphs of s in turn; a trailing single letter is skipped
      (src/lib/ciphers/core.ts:174). */
  function EncodePairs(sq: string, s: string, decrypt: bool): (r: string)
    requires |sq| == 25
    ensures |r| == |s| - |s| % 2
    decreases |s|
  {
    if |s| < 2 then [] else EncodePair(sq, s[0], s[1], decrypt) + EncodePairs(sq, s[2..], decrypt)
  }

  lemma EncodePairsCons(sq: string, a: char, b: char, t: string, decrypt: bool)
    requires |sq| == 25
    ensures EncodePairs(sq, [a, b] + t, decrypt) == EncodePair(sq, a, b, decrypt) + EncodePairs(sq, t, decrypt)
  {
    var s := [a, b] + t;
    assert s[0] == a && s[1] == b && s[2..] == t;
  }

  /** Encoding and decoding the digraphs of an even-length text of square letters
      are mutually inverse. */
  lemma {:induction false} EncodePairsInverse(sq: string, s: string, decrypt: bool)
    requires ValidSquare(sq) && AllSquareLetters(s) && |s| % 2 == 0
    ensures EncodePairs(sq, EncodePairs(sq, s, decrypt), !decrypt) == s
    decreases |s|
  {
    if |s| >= 2 {
      EncodePairsFirst(sq, s, decrypt);
      EncodePairsInverse(sq, s[2..], decrypt);
      SplitFirstTwo(s);
    }
  }

  /** Encoding and decoding give back the first digraph, then go on with the rest. */
  lemma EncodePairsFirst(sq: string, s: string, decrypt: bool)
    requires ValidSquare(sq) && AllSquareLetters(s) && |s| >= 2
    ensures AllSquareLetters(s[2..]) && |s[2..]| == |s| - 2
    ensures EncodePairs(sq, EncodePairs(sq, s, decrypt), !decrypt)
         == [s[0], s[1]] + EncodePairs(sq, EncodePairs(sq, s[2..], decrypt), !decrypt)
  {
    var t := s[2..];
    var e := EncodePair(sq, s[0], s[1], decrypt);
    var rest := EncodePairs(sq, t, decrypt);
    assert EncodePairs(sq, s, decrypt) == [e[0], e[1]] + rest;
    EncodePairsCons(sq, e[0], e[1], rest, !decrypt);
    EncodePairInverse(sq, s[0], s[1], decrypt);
  }

  /** Every encoded letter is a square cell. */
  lemma {:induction false} EncodePairsInSquare(sq: string, s: string, decrypt: bool)
    requires |sq| == 25 && AllSquareLetters(sq)
    ensures AllSquareLetters(EncodePairs(sq, s, decrypt))
    decreases |s|
  {
    if |s| >= 2 {
      EncodePairsInSquare(sq, s[2..], decrypt);
    }
  }

  // ---- the cipher ----

  /** `text.toUpperCase().replace(/[^A-Z]/g, '').replace(/J/g, 'I')` */
  function CleanText(text: string): (r: string)
    ensures AllSquareLetters(r)
  {
    ReplaceJ(UpperLetters(text))
  }

  /** `playfairCipher` (src/lib/ciphers/core.ts:121-190) as a specification. */
  function Playfair(text: string, key: string, decrypt: bool): (r: Result<string, PlayfairError>)
    ensures !AllLetters(key) ==> r == Err(KeyNotLetters)
    ensures AllLetters(key) && !AllLetters(text) ==> r == Err(TextNotLetters)
    ensures r.Ok? <==> AllLetters(key) && AllLetters(text)
    ensures r.Ok? && !decrypt ==> AllSquareLetters(r.value) && |r.value| % 2 == 0
    ensures r.Ok? && decrypt ==> |r.value| == |CleanText(text)| - |CleanText(text)| % 2
  {
    if !AllLetters(key) then Err(KeyNotLetters)
    else if !AllLetters(text) then Err(TextNotLetters)
    else
      var sq := Square(key);
      var cleanText := if decrypt then CleanText(text) else Prepare(CleanText(text));
      var res := EncodePairs(sq, cleanText, decrypt);
      EncodePairsInSquare(sq, cleanText, decrypt);
      Ok(if decrypt then ToLower(res) else res)
  }

  /** `playfairCipher` (src/lib/ciphers/core.ts:121-190) with the loops of the source. */
  method PlayfairCipher(text: string, key: string, decrypt: bool) returns (r: Result<string, PlayfairError>)
    ensures r == Playfair(text, key, decrypt)
  {
    if !AllLetters(key) {
      return Err(KeyNotLetters);
    }
    if !AllLetters(text) {
      return Err(TextNotLetters);
    }
    var cleanKey := Square(key);
    var cleanText := CleanText(text);
    if !decrypt {
      cleanText := PrepareLoop(cleanText);
    }
    var matrix := BuildMatrix(cleanKey);
    var result := DigraphLoop(matrix, cleanKey, cleanText, decrypt);
    return Ok(if decrypt then ToLower(result) else result);
  }

  /** The digraph loop (src/lib/ciphers/core.ts:173-188). */
  method DigraphLoop(matrix: seq<seq<char>>, ghost sq: string, cleanText: string, decrypt: bool)
    returns (result: string)
    requires |sq| == 25 && |matrix| == 5
    requires forall r :: 0 <= r < 5 ==> |matrix[r]| == 5
    requires forall r, c :: 0 <= r < 5 && 0 <= c < 5 ==> matrix[r][c] == At(sq, r, c)
    ensures result == EncodePairs(sq, cleanText, decrypt)
  {
    result := "";
    var i := 0;
    ghost var rest := cleanText;
    while i < |cleanText|
      invariant 0 <= i
      invariant rest == if i <= |cleanText| then cleanText[i..] else []
      invariant result + EncodePairs(sq, rest, decrypt) == EncodePairs(sq, cleanText, decrypt)
      decreases |cleanText| - i
    {
      if i + 1 >= |cleanText| {
        i := i + 2;
        rest := [];
        continue;
      }
      var pair := Digraph(matrix, sq, cleanText[i], cleanText[i + 1], decrypt);
      EncodePairsStep(sq, rest, decrypt);
      assert rest[2..] == cleanText[i + 2..];
      result, rest := result + pair, rest[2..];
      i := i + 2;
    }
  }

  /** One pass of the digraph loop: the first digraph, then the rest. */
  lemma EncodePairsStep(sq: string, s: string, decrypt: bool)
    requires |sq| == 25 && |s| >= 2
    ensures EncodePairs(sq, s, decrypt) == EncodePair(sq, s[0], s[1], decrypt) + EncodePairs(sq, s[2..], decrypt)
    ensures forall u: string ::
      (u + EncodePair(sq, s[0], s[1], decrypt)) + EncodePairs(sq, s[2..], decrypt) == u + EncodePairs(sq, s, decrypt)
  {
  }

  /** The body of the digraph loop: locate both letters and apply the rule. */
  method Digraph(matrix: seq<seq<char>>, ghost sq: string, a: char, b: char, decrypt: bool)
    returns (pair: string)
    requires |sq| == 25 && |matrix| == 5
    requires forall r :: 0 <= r < 5 ==> |matrix[r]| == 5
    requires forall r, c :: 0 <= r < 5 && 0 <= c < 5 ==> matrix[r][c] == At(sq, r, c)
    ensures pair == EncodePair(sq, a, b, decrypt)
  {
    var r1, c1 := FindPos(matrix, sq, a);
    var r2, c2 := FindPos(matrix, sq, b);
    var shift := if decrypt then -1 else 1;
    if r1 == r2 {
      pair := [matrix[r1][Mod(c1 + shift, 5)], matrix[r2][Mod(c2 + shift, 5)]];
    } else if c1 == c2 {
      pair := [matrix[Mod(r1 + shift, 5)][c1], matrix[Mod(r2 + shift, 5)][c2]];
    } else {
      pair := [matrix[r1][c2], matrix[r2][c1]];
    }
  }

  /** Decrypting a Playfair encryption gives the prepared plaintext in lower case. */
  lemma PlayfairRoundTrip(text: string, key: string)
    requires AllLetters(key) && AllLetters(text)
    ensures Playfair(Playfair(text, key, false).value, key, true)
      == Ok(ToLower(Prepare(CleanText(text))))
  {
    var sq := Square(key);
    var p := Prepare(CleanText(text));
    PrepareSquareLetters(CleanText(text));
    var c := EncodePairs(sq, p, false);
    EncodePairsInSquare(sq, p, false);
    assert AllUpper(c) && AllLetters(c);
    assert CleanText(c) == c by {
      UpperLettersOfUpper(c);
    }
    EncodePairsInverse(sq, p, false);
  }
}
