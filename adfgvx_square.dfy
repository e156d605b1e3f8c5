/** The 6×6 Polybius square of `adfgvxCipher` (src/lib/ciphers/adfgvx.ts:11-23),
    the fractionation of the cleaned text into pairs of header letters (lines
    37-43) and its inverse, the pair loop of the decryption (lines 100-108). */
module AdfgvxSquare {
  import opened JsText

  const Alphabet: string := "ABCDEFGHIJKLMNOPQRSTUVWXYZ0123456789"
  const Headers: string := "ADFGVX"

  /** The square's alphabet, position by position. */
  function AlphabetChar(i: int): char
    requires 0 <= i < 36
  {
    if i < 26 then (65 + i) as char else (22 + i) as char
  }

  lemma AlphabetContents()
    ensures |Alphabet| == 36 && Distinct(Alphabet)
    ensures forall c :: c in Alphabet <==> IsUpperAlnum(c)
  {
    forall i | 0 <= i < 36 ensures Alphabet[i] == AlphabetChar(i) {
    }
    forall c | IsUpperAlnum(c) ensures c in Alphabet {
      var i := if IsUpper(c) then c as int - 65 else c as int - 22;
      assert Alphabet[i] == c;
    }
  }

  /** `headers.indexOf(c)`. */
  function HeaderIndex(c: char): (j: int)
    ensures -1 <= j < 6
    ensures j == -1 <==> c !in Headers
    ensures j >= 0 ==> Headers[j] == c
  {
    if c == 'A' then 0 else if c == 'D' then 1 else if c == 'F' then 2
    else if c == 'G' then 3 else if c == 'V' then 4 else if c == 'X' then 5 else -1
  }

  lemma HeaderIndexOfHeader(j: int)
    requires 0 <= j < 6
    ensures HeaderIndex(Headers[j]) == j
  {
  }

  /** A complete square: the 36 letters and digits, each once. */
  predicate ValidSquare(sq: string)
  {
    |sq| == 36 && Distinct(sq) && forall c :: c in sq <==> IsUpperAlnum(c)
  }

  /** `fullSquare`: the distinct letters and digits of the square text in first-seen
      order, followed by the rest of the alphabet in alphabet order. */
  function FullSquare(square: string): (sq: string)
    ensures ValidSquare(sq)
  {
    var sq := FirstOccurrences(UpperAlnum(square) + Alphabet);
    AlphabetContents();
    forall c ensures c in sq <==> IsUpperAlnum(c) {
      assert c in UpperAlnum(square) + Alphabet <==> c in UpperAlnum(square) || c in Alphabet;
    }
    SameElementsSameLength(sq, Alphabet);
    sq
  }

  /** The membership test of the completion loop, as a predicate on characters. */
  function NotIn(s: string): char -> bool
  {
    c => c !in s
  }

  /** Appending distinct characters adds, in order, those not already seen. */
  lemma {:induction false} FirstOccurrencesAppend(a: string, b: string)
    requires Distinct(b)
    ensures FirstOccurrences(a + b) == FirstOccurrences(a) + Filter(NotIn(a), b)
    decreases |b|
  {
    if b == [] {
      assert a + b == a;
    } else {
      var m := |b| - 1;
      var b' := b[..m];
      assert b == b' + [b[m]];
      assert (a + b)[..|a + b| - 1] == a + b';
      FirstOccurrencesAppend(a, b');
      FilterAppend(NotIn(a), b', [b[m]]);
      assert b[m] !in b';
      assert b[m] in a + b' <==> b[m] in a;
    }
  }

  /** The characters of the square text open the square in first-seen order; the
      missing characters follow in alphabet order. */
  lemma SquareOrder(square: string)
    ensures FullSquare(square) ==
      FirstOccurrences(UpperAlnum(square)) + Filter(NotIn(UpperAlnum(square)), Alphabet)
  {
    AlphabetContents();
    FirstOccurrencesAppend(UpperAlnum(square), Alphabet);
  }

  /** A square text holding every letter and digit is its own square, duplicates removed. */
  lemma CompleteSquareText(square: string)
    requires forall c :: IsUpperAlnum(c) ==> c in UpperAlnum(square)
    ensures FullSquare(square) == FirstOccurrences(UpperAlnum(square))
  {
    SquareOrder(square);
    var keep := NotIn(UpperAlnum(square));
    AlphabetContents();
    FilterNone(keep, Alphabet);
  }

  lemma {:induction false} FilterNone(keep: char -> bool, s: string)
    requires forall i :: 0 <= i < |s| ==> !keep(s[i])
    ensures Filter(keep, s) == []
  {
    if s != [] {
      FilterNone(keep, s[1..]);
    }
  }

  /** The completion of lines 13-20: the distinct characters of the square
      text, then the alphabet loop. */
  method CompleteSquare(square: string) returns (matrix: string)
    ensures matrix == FullSquare(square)
  {
    var cleanInput := UpperAlnum(square);
    var full := FullSquare(square);
    matrix := PushMissing(cleanInput, Alphabet);
  }

  /** The loop of lines 15-20: push each alphabet character the array lacks, and
      stop once it holds 36. */
  method PushMissing(cleanInput: string, alphabet: string) returns (matrix: string)
    requires |FirstOccurrences(cleanInput + alphabet)| == 36
    ensures matrix == FirstOccurrences(cleanInput + alphabet)
  {
    matrix := FirstOccurrences(cleanInput);
    assert cleanInput + alphabet[..0] == cleanInput;
    for k := 0 to |alphabet|
      invariant matrix == FirstOccurrences(cleanInput + alphabet[..k])
    {
      PushStep(cleanInput, alphabet, k);
      if alphabet[k] !in matrix {
        matrix := matrix + [alphabet[k]];
      }
      if |matrix| == 36 {
        FullStop(cleanInput, alphabet, k + 1);
        return;
      }
    }
    assert alphabet[..|alphabet|] == alphabet;
  }

  /** One step of the completion loop. */
  lemma PushStep(a: string, b: string, k: int)
    requires 0 <= k < |b|
    ensures var prev := FirstOccurrences(a + b[..k]);
      FirstOccurrences(a + b[..k + 1]) == if b[k] in prev then prev else prev + [b[k]]
  {
    var prefix := a + b[..k + 1];
    assert prefix[..|prefix| - 1] == a + b[..k];
  }

  /** Once the array is as long as the completed square, nothing more is pushed. */
  lemma FullStop(a: string, b: string, k: int)
    requires 0 <= k <= |b| && |FirstOccurrences(a + b[..k])| == |FirstOccurrences(a + b)|
    ensures FirstOccurrences(a + b[..k]) == FirstOccurrences(a + b)
  {
    assert a + b == (a + b[..k]) + b[k..];
    FirstOccurrencesPrefix(a + b[..k], b[k..]);
    var full := FirstOccurrences(a + b);
    assert full[..|full|] == full;
  }

  // ---- fractionation ----

  /** `headers[Math.floor(idx / 6)] + headers[idx % 6]` */
  function PairOf(idx: int): (p: string)
    requires 0 <= idx < 36
    ensures |p| == 2 && p[0] in Headers && p[1] in Headers
  {
    [Headers[idx / 6], Headers[idx % 6]]
  }

  predicate AllHeaders(s: string) { forall i :: 0 <= i < |s| ==> s[i] in Headers }

  predicate AllIn(s: string, sq: string) { forall i :: 0 <= i < |s| ==> s[i] in sq }

  /** The fractionated stream: the pair of every character found in the square;
      a character not in the square contributes nothing. */
  function Fractionate(sq: string, s: string): (f: string)
    requires |sq| == 36
    ensures AllHeaders(f) && |f| % 2 == 0
    ensures AllIn(s, sq) ==> |f| == 2 * |s|
    decreases |s|
  {
    if s == [] then []
    else
      var prev := Fractionate(sq, s[..|s| - 1]);
      var idx := IndexOf(sq, s[|s| - 1]);
      assert AllIn(s, sq) ==> AllIn(s[..|s| - 1], sq);
      if idx == -1 then prev else prev + PairOf(idx)
  }

  /** The loop of lines 39-43. */
  method FractionateLoop(matrix: string, cleanText: string) returns (fractionated: string)
    requires |matrix| == 36
    ensures fractionated == Fractionate(matrix, cleanText)
  {
    fractionated := "";
    for k := 0 to |cleanText|
      invariant fractionated == Fractionate(matrix, cleanText[..k])
    {
      assert cleanText[..k + 1][..k] == cleanText[..k];
      var idx := IndexOf(matrix, cleanText[k]);
      if idx == -1 {
        continue;
      }
      fractionated := fractionated + [Headers[idx / 6]] + [Headers[idx % 6]];
    }
    assert cleanText[..|cleanText|] == cleanText;
  }

  /** Pair k of the stream names the cell of the k-th character: its row header,
      then its column header. */
  lemma FractionatePairs(sq: string, s: string, k: int)
    requires |sq| == 36 && AllIn(s, sq) && 0 <= k < |s|
    ensures Fractionate(sq, s)[2 * k..2 * k + 2] == PairOf(IndexOf(sq, s[k]))
  {
    FractionateAround(sq, s, k);
    PairAt(Fractionate(sq, s), Fractionate(sq, s[..k]), PairOf(IndexOf(sq, s[k])), Fractionate(sq, s[k + 1..]));
  }

  /** The stream of a text around its k-th character. */
  lemma FractionateAround(sq: string, s: string, k: int)
    requires |sq| == 36 && AllIn(s, sq) && 0 <= k < |s|
    ensures 0 <= IndexOf(sq, s[k]) < 36 && |Fractionate(sq, s[..k])| == 2 * k
    ensures Fractionate(sq, s) == Fractionate(sq, s[..k]) + (PairOf(IndexOf(sq, s[k])) + Fractionate(sq, s[k + 1..]))
  {
    var before, after := s[..k], s[k + 1..];
    assert s == before + ([s[k]] + after);
    assert AllIn(before, sq);
    assert s[k] in sq;
    FractionateAppend(sq, before, [s[k]] + after);
    FractionatePrepend(sq, s[k], after);
  }

  /** The two characters after a prefix of a concatenation. */
  lemma PairAt(f: string, before: string, pair: string, after: string)
    requires f == before + (pair + after) && |pair| == 2
    ensures f[|before|..|before| + 2] == pair
  {
  }

  // ---- the pair loop of the decryption ----

  function CellOfPair(sq: string, a: char, b: char): (r: string)
    requires |sq| == 36
    ensures |r| <= 1
  {
    var row, col := HeaderIndex(a), HeaderIndex(b);
    if row != -1 && col != -1 then [sq[row * 6 + col]] else []
  }

  /** Each pair of header letters names a cell of the square; a trailing odd
      letter is dropped. */
  function Unpair(sq: string, f: string): (r: string)
    requires |sq| == 36
    ensures |r| <= |f| / 2
    ensures AllHeaders(f) ==> |r| == |f| / 2
    decreases |f|
  {
    if |f| < 2 then []
    else CellOfPair(sq, f[0], f[1]) + Unpair(sq, f[2..])
  }

  /** The loop of lines 100-108. */
  method UnpairLoop(matrix: string, fractionated: string) returns (result: string)
    requires |matrix| == 36
    ensures result == Unpair(matrix, fractionated)
  {
    result := "";
    var i := 0;
    while i < |fractionated|
      invariant 0 <= i <= |fractionated|
      invariant result + Unpair(matrix, fractionated[i..]) == Unpair(matrix, fractionated)
    {
      if i + 1 >= |fractionated| {
        break;
      }
      var r := HeaderIndex(fractionated[i]);
      var c := HeaderIndex(fractionated[i + 1]);
      ghost var cell := CellOfPair(matrix, fractionated[i], fractionated[i + 1]);
      UnpairAt(matrix, fractionated, i);
      ghost var before := result;
      if r != -1 && c != -1 {
        result := result + [matrix[r * 6 + c]];
      }
      assert result == before + cell;
      AppendAssoc(before, cell, Unpair(matrix, fractionated[i + 2..]));
      i := i + 2;
    }
  }

  /** The pair at position i names the next cell. */
  lemma UnpairAt(sq: string, f: string, i: int)
    requires |sq| == 36 && 0 <= i && i + 1 < |f|
    ensures Unpair(sq, f[i..]) == CellOfPair(sq, f[i], f[i + 1]) + Unpair(sq, f[i + 2..])
  {
    assert f[i..][2..] == f[i + 2..];
  }

  lemma {:induction false} UnpairAppend(sq: string, a: string, b: string)
    requires |sq| == 36 && |a| % 2 == 0
    ensures Unpair(sq, a + b) == Unpair(sq, a) + Unpair(sq, b)
    decreases |a|
  {
    if a == [] {
      assert a + b == b;
    } else {
      assert (a + b)[2..] == a[2..] + b;
      UnpairAppend(sq, a[2..], b);
    }
  }

  /** A cell's pair names the cell. */
  lemma UnpairOfPair(sq: string, idx: int)
    requires |sq| == 36 && 0 <= idx < 36
    ensures Unpair(sq, PairOf(idx)) == [sq[idx]]
  {
    HeaderIndexOfHeader(idx / 6);
    HeaderIndexOfHeader(idx % 6);
    var p := PairOf(idx);
    assert p[2..] == [];
    assert (idx / 6) * 6 + idx % 6 == idx;
  }

  /** The pair loop undoes the fractionation of characters of the square. */
  lemma {:induction false} UnpairFractionate(sq: string, s: string)
    requires ValidSquare(sq) && AllIn(s, sq)
    ensures Unpair(sq, Fractionate(sq, s)) == s
    decreases |s|
  {
    if s != [] {
      var m := |s| - 1;
      var init := s[..m];
      assert AllIn(init, sq);
      UnpairFractionate(sq, init);
      UnpairFractionateStep(sq, init, s[m]);
      SplitLast(s);
    }
  }

  lemma UnpairFractionateStep(sq: string, init: string, x: char)
    requires |sq| == 36 && x in sq
    ensures Unpair(sq, Fractionate(sq, init + [x])) == Unpair(sq, Fractionate(sq, init)) + [x]
  {
    var s := init + [x];
    assert s[..|s| - 1] == init;
    var idx := IndexOf(sq, x);
    var f, p := Fractionate(sq, init), PairOf(idx);
    assert Fractionate(sq, s) == f + p;
    UnpairAppend(sq, f, p);
    UnpairOfPair(sq, idx);
  }

  /** The fractionation undoes the pair loop on whole pairs of header letters. */
  lemma {:induction false} FractionateUnpair(sq: string, f: string)
    requires ValidSquare(sq) && AllHeaders(f) && |f| % 2 == 0
    ensures Fractionate(sq, Unpair(sq, f)) == f
    decreases |f|
  {
    if f != [] {
      AllHeadersSuffix(f, 2);
      FractionateUnpair(sq, f[2..]);
      FractionateUnpairStep(sq, f);
      SplitFirstTwo(f);
    }
  }

  lemma FractionateUnpairStep(sq: string, f: string)
    requires |sq| == 36 && Distinct(sq) && |f| >= 2 && f[0] in Headers && f[1] in Headers
    ensures Fractionate(sq, Unpair(sq, f)) == [f[0], f[1]] + Fractionate(sq, Unpair(sq, f[2..]))
  {
    var idx := PairOfHeaders(f[0], f[1]);
    var u := Unpair(sq, f[2..]);
    UnpairFirst(sq, f, idx);
    IndexInSquare(sq, idx);
    FractionatePrepend(sq, sq[idx], u);
    assert PairOf(idx) == [f[0], f[1]];
  }

  /** The first pair of header letters names cell idx. */
  lemma UnpairFirst(sq: string, f: string, idx: int)
    requires |sq| == 36 && |f| >= 2 && f[0] in Headers && f[1] in Headers
    requires idx == HeaderIndex(f[0]) * 6 + HeaderIndex(f[1]) && 0 <= idx < 36
    ensures Unpair(sq, f) == [sq[idx]] + Unpair(sq, f[2..])
  {
  }

  /** Two header letters are the pair of the cell they name. */
  lemma PairOfHeaders(a: char, b: char) returns (idx: int)
    requires a in Headers && b in Headers
    ensures idx == HeaderIndex(a) * 6 + HeaderIndex(b) && 0 <= idx < 36
    ensures PairOf(idx) == [a, b]
  {
    idx := HeaderIndex(a) * 6 + HeaderIndex(b);
    assert idx / 6 == HeaderIndex(a) && idx % 6 == HeaderIndex(b);
  }

  /** In a square of distinct characters, a cell's character is found at the cell. */
  lemma IndexInSquare(sq: string, idx: int)
    requires Distinct(sq) && 0 <= idx < |sq|
    ensures IndexOf(sq, sq[idx]) == idx
  {
    IndexOfFirst(sq, sq[idx], idx);
  }

  lemma AllHeadersSuffix(f: string, k: int)
    requires AllHeaders(f) && 0 <= k <= |f|
    ensures AllHeaders(f[k..])
  {
  }

  lemma FractionatePrepend(sq: string, c: char, s: string)
    requires |sq| == 36 && c in sq
    ensures Fractionate(sq, [c] + s) == PairOf(IndexOf(sq, c)) + Fractionate(sq, s)
  {
    FractionateAppend(sq, [c], s);
    assert [c][..0] == [];
  }

  /** The fractionation of a concatenation is the concatenation of the fractionations. */
  lemma {:induction false} FractionateAppend(sq: string, a: string, b: string)
    requires |sq| == 36
    ensures Fractionate(sq, a + b) == Fractionate(sq, a) + Fractionate(sq, b)
    decreases |b|
  {
    if b == [] {
      assert a + b == a;
    } else {
      var m := |b| - 1;
      var init := b[..m];
      FractionateAppend(sq, a, init);
      var ab := a + b;
      AppendInit(a, b);
      var idx := IndexOf(sq, b[m]);
      var tail := if idx == -1 then [] else PairOf(idx);
      assert Fractionate(sq, ab) == Fractionate(sq, a + init) + tail;
      assert Fractionate(sq, b) == Fractionate(sq, init) + tail;
      AppendAssoc(Fractionate(sq, a), Fractionate(sq, init), tail);
    }
  }
}
