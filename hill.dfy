/** `hillCipher` (src/lib/ciphers/core.ts:288-393): the key is checked to be a
    non-empty square matrix whose determinant is prime to 26; encryption pads the
    cleaned text to whole groups of n, lays it out as a grid, multiplies by the key
    (on the left in the standard mode, on the right in the book mode) and reads the
    product back in upper case; decryption multiplies by `inverseMat` of the key and
    reads the product back in lower case. */
module Hill {
  import opened Wrappers
  import opened JsText
  import opened ModArith
  import opened HillMatrix
  import opened HillAlgebra
  import opened HillText

  /** The product each mode uses: m × grid in the standard mode, grid × m in the
      book mode. */
  function Apply(m: Matrix, grid: Matrix, mode: Mode): Result<Matrix, HillError>
  {
    if mode.Standard? then MatMul(m, grid) else MatMul(grid, m)
  }

  /** The product, read back as letters. */
  function Read(product: Result<Matrix, HillError>, mode: Mode): (r: Result<string, HillError>)
    requires product.Ok? ==> IsGrid(product.value) && Reduced(product.value)
    ensures product.Err? ==> r == Err(product.error)
    ensures r.Ok? <==> product.Ok?
    ensures r.Ok? ==> AllLower(r.value)
  {
    if product.Err? then Err(product.error)
    else
      FromGridInRange(product.value, mode);
      Ok(Letters(FromGrid(product.value, mode)))
  }

  /** The cipher as the source computes it, error cases included. */
  function HillCipher(text: string, key: Matrix, mode: Mode, decrypt: bool): (r: Result<string, HillError>)
    ensures !IsSquare(key) ==> r == Err(NotSquare)
    ensures IsSquare(key) && !IsCoprime(Det(key), 26) ==> r == Err(DetNotCoprime(Det(key)))
    ensures IsSquare(key) && IsCoprime(Det(key), 26) ==>
      (r.Err? <==> (decrypt && |LowerLetters(text)| % |key| != 0) || (mode.Book? && |LowerLetters(text)| == 0))
    ensures IsSquare(key) && IsCoprime(Det(key), 26) && decrypt ==>
      (r == Err(BadLength) <==> |LowerLetters(text)| % |key| != 0)
    ensures IsSquare(key) && IsCoprime(Det(key), 26) && mode.Book? && |LowerLetters(text)| == 0 ==>
      r == Err(BadDimensions)
    ensures r.Ok? && decrypt ==> AllLower(r.value)
    ensures r.Ok? && !decrypt ==> AllUpper(r.value)
  {
    if !IsSquare(key) then Err(NotSquare)
    else
      var n := |key|;
      var det := Det(key);
      if !IsCoprime(det, 26) then Err(DetNotCoprime(det))
      else
        var cleanText := LowerLetters(text);
        if decrypt then
          // inverseMat repeats the determinant check, which has passed: invKey is Ok
          var invKey := InverseMat(key);
          if |cleanText| % n != 0 then Err(BadLength)
          else
            GridApplies(invKey.value, Indices(cleanText), mode);
            Read(Apply(invKey.value, ToGrid(Indices(cleanText), n, mode), mode), mode)
        else
          var padded := Pad(cleanText, n, PadChar(mode));
          PadEmpty(cleanText, n, PadChar(mode));
          GridApplies(key, Indices(padded), mode);
          var result := Read(Apply(key, ToGrid(Indices(padded), n, mode), mode), mode);
          if result.Err? then result
          else
            UpperOfLower(result.value);
            Ok(ToUpper(result.value))
  }

  /** The product of a square matrix and the grid of a text of whole groups exists,
      except for the empty text in the book mode, whose grid has no rows. */
  lemma GridApplies(m: Matrix, t: seq<int>, mode: Mode)
    requires IsSquare(m) && |t| % |m| == 0
    ensures Apply(m, ToGrid(t, |m|, mode), mode).Err? <==> mode.Book? && |t| == 0
    ensures Apply(m, ToGrid(t, |m|, mode), mode).Err? ==> Apply(m, ToGrid(t, |m|, mode), mode) == Err(BadDimensions)
  {
    var g := ToGrid(t, |m|, mode);
    if mode.Book? && |t| > 0 {
      LengthOfGroups(|t|, |m|);
      assert |g[0]| == |m|;
    }
  }

  /** Padding leaves a text empty exactly when it is empty. */
  lemma PadEmpty(s: string, n: int, c: char)
    requires n > 0
    ensures |Pad(s, n, c)| == 0 <==> |s| == 0
  {
  }

  lemma UpperOfLower(s: string)
    requires AllLower(s)
    ensures AllUpper(ToUpper(s))
  {
  }

  /** The method `hillCipher`, with the loops of `determinantMat`, `inverseMat`,
      `multiplyMat`, the padding loop and the grid loops. */
  method HillCipherLoops(text: string, key: Matrix, mode: Mode, decrypt: bool) returns (r: Result<string, HillError>)
    ensures r == HillCipher(text, key, mode, decrypt)
  {
    if !IsSquare(key) {
      return Err(NotSquare);
    }
    var n := |key|;
    var det := DeterminantMat(key);
    if Gcd(det, 26) != 1 {
      return Err(DetNotCoprime(det));
    }
    var cleanText := LowerLetters(text);
    var product: Result<Matrix, HillError>;
    if decrypt {
      var invKey := InverseMatLoops(key);
      // inverseMat repeats the determinant check, which has passed: invKey is Ok
      if |cleanText| % n != 0 {
        return Err(BadLength);
      }
      var ciphertext := GridOfText(cleanText, n, mode);
      if mode.Standard? {
        product := MultiplyMat(invKey.value, ciphertext);
      } else {
        product := MultiplyMat(ciphertext, invKey.value);
      }
    } else {
      var padded := PadLoop(cleanText, n, PadChar(mode));
      var plaintext := GridOfText(padded, n, mode);
      if mode.Standard? {
        product := MultiplyMat(key, plaintext);
      } else {
        product := MultiplyMat(plaintext, key);
      }
    }
    if product.Err? {
      return Err(product.error);
    }
    var result := TextOfGrid(product.value, mode);
    if decrypt {
      return Ok(result);
    }
    UpperOfLower(result);
    return Ok(ToUpper(result));
  }

  // ---- round trips ----

  lemma LowerLettersOfLower(s: string)
    requires AllLower(s)
    ensures LowerLetters(s) == s
  {
    assert ToLower(s) == s;
    FilterKeepsAll(IsLower, s);
  }

  /** A text of whole groups needs no padding. */
  lemma PadWhole(s: string, n: int, c: char)
    requires n > 0 && |s| % n == 0
    ensures Pad(s, n, c) == s
  {
    var r := Pad(s, n, c);
    assert r == r[..|s|];
  }

  /** The padded text is made of letters. */
  lemma PaddedLower(s: string, n: int, mode: Mode)
    requires n > 0 && AllLower(s)
    ensures AllLower(Pad(s, n, PadChar(mode)))
  {
    var r := Pad(s, n, PadChar(mode));
    forall i | 0 <= i < |r| ensures IsLower(r[i]) {
      if i < |s| {
        assert r[i] == r[..|s|][i];
      }
    }
  }

  /** A matrix undoes its inverse on a reduced grid, in either mode. */
  lemma ApplyCancels(k: Matrix, k': Matrix, grid: Matrix, mode: Mode)
    requires IsSquare(k) && IsRect(k', |k|, |k|) && InvertsModulo26(k', k)
    requires mode.Standard? ==> |grid| > 0 && IsRect(grid, |k|, |grid[0]|) && |grid[0]| > 0
    requires mode.Book? ==> |grid| > 0 && IsRect(grid, |grid|, |k|)
    requires Reduced(grid)
    ensures Apply(k, grid, mode).Ok?
    ensures Apply(k', Apply(k, grid, mode).value, mode) == Ok(grid)
  {
    var n := |k|;
    if mode.Standard? {
      var cols := |grid[0]|;
      MatMulAssoc(k', k, grid, n, n, cols);
      IdentityNeutral(grid, n, cols);
    } else {
      MatMulAssoc(grid, k, k', n, n, n);
      IdentityNeutral(grid, |grid|, n);
    }
  }

  /** Encryption, step by step, for a key that passes the checks. */
  lemma EncryptSteps(text: string, key: Matrix, mode: Mode)
    requires IsSquare(key) && IsCoprime(Det(key), 26)
    ensures var padded := Pad(LowerLetters(text), |key|, PadChar(mode));
      var product := Apply(key, ToGrid(Indices(padded), |key|, mode), mode);
      var read := Read(product, mode);
      HillCipher(text, key, mode, false) == if read.Err? then read else Ok(ToUpper(read.value))
  {
  }

  /** Decryption, step by step, for a key that passes the checks. */
  lemma DecryptSteps(text: string, key: Matrix, mode: Mode)
    requires IsSquare(key) && IsCoprime(Det(key), 26)
    ensures InverseMat(key).Ok?
    ensures var cleanText := LowerLetters(text);
      HillCipher(text, key, mode, true) ==
        if |cleanText| % |key| != 0 then Err(BadLength)
        else Read(Apply(InverseMat(key).value, ToGrid(Indices(cleanText), |key|, mode), mode), mode)
  {
  }

  /** Reading a product back and laying the letters out again gives the product;
      grid, letters and product agree in size. */
  lemma ReadBack(product: Matrix, mode: Mode, n: int)
    requires n > 0 && IsGrid(product) && Reduced(product) && GroupSize(product, mode) == n
    requires Groups(product, mode) > 0
    ensures InRange(FromGrid(product, mode))
    ensures var letters := Letters(FromGrid(product, mode));
      |letters| % n == 0 && ToGrid(Indices(letters), n, mode) == product
  {
    FromGridInRange(product, mode);
    IndicesOfLetters(FromGrid(product, mode));
    ToFromGrid(product, mode);
  }

  /** The empty text multiplies to nothing in the standard mode. */
  lemma EmptyRead(m: Matrix, mode: Mode)
    requires IsSquare(m) && mode.Standard?
    ensures Apply(m, ToGrid([], |m|, mode), mode).Ok?
    ensures Read(Apply(m, ToGrid([], |m|, mode), mode), mode) == Ok([])
  {
    var g := MatMul(m, ToGrid([], |m|, mode)).value;
    assert FromGrid(g, mode) == [];
  }

  /** Decrypting an encryption gives the cleaned, padded text back, in lower
      case, for a key with a two-sided inverse modulo 26 and, in the book mode,
      a text with at least one letter. */
  lemma HillRoundTrip(text: string, key: Matrix, mode: Mode)
    requires IsSquare(key) && IsCoprime(Det(key), 26)
    requires InvertsModulo26(InverseMat(key).value, key)
    requires mode.Book? ==> |LowerLetters(text)| > 0
    ensures HillCipher(text, key, mode, false).Ok?
    ensures HillCipher(HillCipher(text, key, mode, false).value, key, mode, true)
      == Ok(Pad(LowerLetters(text), |key|, PadChar(mode)))
  {
    var padded := Pad(LowerLetters(text), |key|, PadChar(mode));
    PaddedLower(LowerLetters(text), |key|, mode);
    var enc := EncryptLetters(padded, key, mode);
    EncryptSteps(text, key, mode);
    DecryptLetters(padded, key, mode);
  }

  /** The key times the grid of a text of whole groups is a reduced grid that reads
      back to as many letters as the text has. */
  lemma ProductGrid(t: seq<int>, key: Matrix, mode: Mode)
    requires IsSquare(key) && |t| % |key| == 0 && InRange(t)
    requires mode.Book? ==> |t| > 0
    ensures Apply(key, ToGrid(t, |key|, mode), mode).Ok?
    ensures var p := Apply(key, ToGrid(t, |key|, mode), mode).value;
      IsGrid(p) && Reduced(p) && |FromGrid(p, mode)| == |t|
  {
    var n := |key|;
    LengthOfGroups(|t|, n);
    if |t| > 0 {
      CellOf(0, n, |t| / n);
    }
  }

  /** Encryption of lower-case letters in whole groups, as letters. */
  lemma EncryptLetters(padded: string, key: Matrix, mode: Mode) returns (letters: string)
    requires IsSquare(key) && IsCoprime(Det(key), 26) && AllLower(padded) && |padded| % |key| == 0
    requires mode.Book? ==> |padded| > 0
    ensures var product := Apply(key, ToGrid(Indices(padded), |key|, mode), mode);
      product.Ok? && Read(product, mode) == Ok(letters) && AllLower(letters) && |letters| % |key| == 0
    ensures LowerLetters(ToUpper(letters)) == letters
  {
    var n := |key|;
    LettersOfIndices(padded);
    var t := Indices(padded);
    ProductGrid(t, key, mode);
    var product := Apply(key, ToGrid(t, n, mode), mode).value;
    FromGridInRange(product, mode);
    letters := Letters(FromGrid(product, mode));
    LowerLettersOfUpper(letters);
  }

  /** Decrypting the letters of an encryption gives the padded text. */
  lemma DecryptLetters(padded: string, key: Matrix, mode: Mode)
    requires IsSquare(key) && IsCoprime(Det(key), 26) && AllLower(padded) && |padded| % |key| == 0
    requires InvertsModulo26(InverseMat(key).value, key)
    requires mode.Book? ==> |padded| > 0
    ensures var product := Apply(key, ToGrid(Indices(padded), |key|, mode), mode);
      product.Ok? && Read(product, mode).Ok? &&
      HillCipher(ToUpper(Read(product, mode).value), key, mode, true) == Ok(padded)
  {
    var n := |key|;
    var letters := EncryptLetters(padded, key, mode);
    LettersOfIndices(padded);
    var t := Indices(padded);
    var grid := ToGrid(t, n, mode);
    ToGridReduced(t, n, mode);
    var inv := InverseMat(key).value;
    var product := Apply(key, grid, mode).value;
    DecryptSteps(ToUpper(letters), key, mode);
    if |padded| == 0 {
      EmptyRead(key, mode);
      EmptyRead(inv, mode);
      assert Indices(letters) == t;
    } else {
      LengthOfGroups(|t|, n);
      CellOf(0, n, |t| / n);
      ApplyCancels(key, inv, grid, mode);
      ReadBack(product, mode, n);
      FromToGrid(t, n, mode);
    }
  }

  /** Encrypting a decryption gives the cleaned ciphertext back, in upper case,
      for a key with a two-sided inverse modulo 26 and a ciphertext of whole
      groups (with at least one letter in the book mode). */
  lemma HillEncryptsDecryption(text: string, key: Matrix, mode: Mode)
    requires IsSquare(key) && IsCoprime(Det(key), 26)
    requires InvertsModulo26(InverseMat(key).value, key)
    requires |LowerLetters(text)| % |key| == 0
    requires mode.Book? ==> |LowerLetters(text)| > 0
    ensures HillCipher(text, key, mode, true).Ok?
    ensures HillCipher(HillCipher(text, key, mode, true).value, key, mode, false)
      == Ok(ToUpper(LowerLetters(text)))
  {
    var dec := DecryptedLetters(LowerLetters(text), key, mode);
    DecryptSteps(text, key, mode);
    ReEncrypt(LowerLetters(text), key, mode);
  }

  /** Decryption of lower-case letters in whole groups, as letters. */
  lemma DecryptedLetters(cleanText: string, key: Matrix, mode: Mode) returns (dec: string)
    requires IsSquare(key) && IsCoprime(Det(key), 26) && AllLower(cleanText) && |cleanText| % |key| == 0
    requires mode.Book? ==> |cleanText| > 0
    ensures InverseMat(key).Ok?
    ensures var product := Apply(InverseMat(key).value, ToGrid(Indices(cleanText), |key|, mode), mode);
      product.Ok? && Read(product, mode) == Ok(dec)
    ensures LowerLetters(dec) == dec && Pad(dec, |key|, PadChar(mode)) == dec
  {
    var n := |key|;
    LettersOfIndices(cleanText);
    var t := Indices(cleanText);
    var grid := ToGrid(t, n, mode);
    ToGridReduced(t, n, mode);
    var product := Apply(InverseMat(key).value, grid, mode);
    assert product.Ok?;
    FromGridInRange(product.value, mode);
    dec := Letters(FromGrid(product.value, mode));
    LowerLettersOfLower(dec);
    if |cleanText| == 0 {
      EmptyRead(InverseMat(key).value, mode);
    } else {
      LengthOfGroups(|t|, n);
      CellOf(0, n, |t| / n);
      ReadBack(product.value, mode, n);
    }
    PadWhole(dec, n, PadChar(mode));
  }

  /** Encrypting the letters of a decryption gives the ciphertext, upper-cased. */
  lemma ReEncrypt(cleanText: string, key: Matrix, mode: Mode)
    requires IsSquare(key) && IsCoprime(Det(key), 26) && AllLower(cleanText) && |cleanText| % |key| == 0
    requires InvertsModulo26(InverseMat(key).value, key)
    requires mode.Book? ==> |cleanText| > 0
    ensures var product := Apply(InverseMat(key).value, ToGrid(Indices(cleanText), |key|, mode), mode);
      product.Ok? && Read(product, mode).Ok? &&
      HillCipher(Read(product, mode).value, key, mode, false) == Ok(ToUpper(cleanText))
  {
    var n := |key|;
    var dec := DecryptedLetters(cleanText, key, mode);
    LettersOfIndices(cleanText);
    var t := Indices(cleanText);
    var grid := ToGrid(t, n, mode);
    ToGridReduced(t, n, mode);
    var inv := InverseMat(key).value;
    var product := Apply(inv, grid, mode).value;
    EncryptSteps(dec, key, mode);
    if |cleanText| == 0 {
      EmptyRead(key, mode);
      EmptyRead(inv, mode);
      assert Indices(dec) == t;
    } else {
      LengthOfGroups(|t|, n);
      CellOf(0, n, |t| / n);
      ApplyCancels(inv, key, grid, mode);
      ReadBack(product, mode, n);
      FromToGrid(t, n, mode);
    }
  }

  /** For 1×1 and 2×2 keys both round trips hold outright. */
  lemma SmallKeyRoundTrips(text: string, key: Matrix, mode: Mode)
    requires IsSquare(key) && |key| <= 2 && IsCoprime(Det(key), 26)
    requires mode.Book? ==> |LowerLetters(text)| > 0
    ensures HillCipher(text, key, mode, false).Ok?
    ensures HillCipher(HillCipher(text, key, mode, false).value, key, mode, true)
      == Ok(Pad(LowerLetters(text), |key|, PadChar(mode)))
    ensures |LowerLetters(text)| % |key| == 0 ==>
      HillCipher(text, key, mode, true).Ok? &&
      HillCipher(HillCipher(text, key, mode, true).value, key, mode, false) == Ok(ToUpper(LowerLetters(text)))
  {
    SmallInverse(key);
    HillRoundTrip(text, key, mode);
    if |LowerLetters(text)| % |key| == 0 {
      HillEncryptsDecryption(text, key, mode);
    }
  }
}
