/** The letter-substitution ciphers of src/lib/ciphers/core.ts: additive,
    multiplicative, affine, Vigenère and autokey. Each cleans its text to the
    upper-case letters A-Z, maps letter indices modulo 26, and returns
    decryptions in lower case. A thrown `Error` is an `Err` value. */
module Classical {
  import opened Wrappers
  import opened JsText
  import opened ModArith

  datatype CipherError =
    | KeyOutOfRange        // a key outside [0, 25]
    | KeyNotCoprime        // a (multiplicative) key that is not coprime to 26
    | KeyNotLetters        // a key that is not a non-empty string of letters

  /** Applies a letter map to every character. */
  function MapChars(s: string, f: char -> char): (r: string)
    ensures |r| == |s| && forall i :: 0 <= i < |s| ==> r[i] == f(s[i])
  {
    seq(|s|, i requires 0 <= i < |s| => f(s[i]))
  }

  /** A letter map undone letter by letter is undone on a whole upper-case text. */
  lemma MapCharsUndo(s: string, f: char -> char, g: char -> char)
    requires AllUpper(s)
    requires forall c :: IsUpper(c) ==> g(f(c)) == c
    ensures MapChars(MapChars(s, f), g) == s
  {
    var t := MapChars(MapChars(s, f), g);
    assert forall i :: 0 <= i < |s| ==> t[i] == s[i];
  }

  /** `String.fromCharCode(mod(x, 26) + 65)` */
  function LetterMod(x: int): (c: char)
    ensures IsUpper(c) && LetterIndex(c) == Mod(x, 26)
  {
    Letter(Mod(x, 26))
  }

  /** Lower-casing a decryption and cleaning it again gives the upper-case text. */
  lemma CleanLowered(s: string)
    requires AllUpper(s)
    ensures UpperLetters(ToLower(s)) == s
  {
    var l := ToLower(s);
    assert AllLower(l);
    UpperLettersOfLower(l);
    assert ToUpper(l) == s;
  }

  /** Shifting by k and then by -k is the identity on letter indices. */
  lemma ShiftBackIndex(p: int, k: int)
    requires 0 <= p < 26
    ensures Mod(Mod(p + Mod(k, 26), 26) + Mod(-k, 26), 26) == p
  {
    var q, a := k / 26, Mod(k, 26);
    assert k == 26 * q + a;
    ModAddLeft(p + a, Mod(-k, 26), 26);
    ModOfResidue(p, 26);
    if a == 0 {
      DivModUnique(-k, 26, -q, 0);
    } else {
      DivModUnique(-k, 26, -q - 1, 26 - a);
      SameResidue(p + 26, p, 26, 1);
    }
  }

  // ---- additive ----

  function AddChar(c: char, shift: int): char { LetterMod(LetterIndex(c) + shift) }

  /** Shifting a letter by k and then by mod(-k, 26) gives it back. */
  lemma ShiftBack(c: char, k: int)
    requires IsUpper(c)
    ensures AddChar(AddChar(c, Mod(k, 26)), Mod(-k, 26)) == c
  {
    LetterOfIndex(c);
    ShiftBackIndex(LetterIndex(c), k);
  }

  /** Shifting a letter by mod(-k, 26) and then by k gives it back. */
  lemma ShiftForth(c: char, k: int)
    requires IsUpper(c)
    ensures AddChar(AddChar(c, Mod(-k, 26)), Mod(k, 26)) == c
  {
    ShiftBack(c, -k);
    assert - -k == k;
  }

  /** `additiveCipher` (src/lib/ciphers/core.ts:18-30) */
  function Additive(text: string, key: int, decrypt: bool): (r: Result<string, CipherError>)
    ensures r.Err? <==> key < 0 || key > 25
    ensures r.Ok? ==> |r.value| == |UpperLetters(text)|
    ensures r.Ok? && !decrypt ==> AllUpper(r.value)
    ensures r.Ok? && decrypt ==> AllLower(r.value)
  {
    if key < 0 || key > 25 then Err(KeyOutOfRange)
    else
      var shift := if decrypt then Mod(-key, 26) else Mod(key, 26);
      var res := MapChars(UpperLetters(text), c => AddChar(c, shift));
      Ok(if decrypt then ToLower(res) else res)
  }

  /** Decrypting an additive encryption gives the cleaned text in lower case. */
  lemma AdditiveRoundTrip(text: string, key: int)
    requires 0 <= key <= 25
    ensures Additive(Additive(text, key, false).value, key, true) == Ok(ToLower(UpperLetters(text)))
  {
    var p := UpperLetters(text);
    var f := ch => AddChar(ch, Mod(key, 26));
    var g := ch => AddChar(ch, Mod(-key, 26));
    var c := MapChars(p, f);
    UpperLettersOfUpper(c);
    forall ch | IsUpper(ch) ensures g(f(ch)) == ch {
      ShiftBack(ch, key);
    }
    MapCharsUndo(p, f, g);
  }

  /** Encrypting an additive decryption gives the cleaned ciphertext back. */
  lemma AdditiveEncryptsDecryption(text: string, key: int)
    requires 0 <= key <= 25
    ensures Additive(Additive(text, key, true).value, key, false) == Ok(UpperLetters(text))
  {
    var c := UpperLetters(text);
    var f := ch => AddChar(ch, Mod(-key, 26));
    var g := ch => AddChar(ch, Mod(key, 26));
    var d := MapChars(c, f);
    CleanLowered(d);
    forall ch | IsUpper(ch) ensures g(f(ch)) == ch {
      ShiftForth(ch, key);
    }
    MapCharsUndo(c, f, g);
  }

  // ---- multiplicative ----

  function MulChar(c: char, multiplier: int): char { LetterMod(LetterIndex(c) * multiplier) }

  /** For a key coprime to 26, `modInverse(key, 26)` is a proper inverse. */
  lemma InverseOfCoprimeKey(key: int)
    requires 0 <= key <= 25 && IsCoprime(key, 26)
    ensures 1 <= ModInverseOf(key, 26) < 26
    ensures Mod(key * ModInverseOf(key, 26), 26) == 1
  {
    ModOfResidue(key, 26);
    ModInverseExistsIffCoprime(key, 26);
  }

  /** Multiplying by k and then by an inverse of k is the identity on letters. */
  lemma ScaleBack(c: char, k: int, kInv: int)
    requires IsUpper(c) && Mod(k * kInv, 26) == 1
    ensures MulChar(MulChar(c, k), kInv) == c
  {
    var p := LetterIndex(c);
    LetterOfIndex(c);
    ModMulLeft(p * k, kInv, 26);
    assert (p * k) * kInv == (k * kInv) * p;
    ModMulLeft(k * kInv, p, 26);
    ModOfResidue(p, 26);
  }

  /** `multiplicativeCipher` (src/lib/ciphers/core.ts:32-45) */
  function Multiplicative(text: string, key: int, decrypt: bool): (r: Result<string, CipherError>)
    ensures key < 0 || key > 25 ==> r == Err(KeyOutOfRange)
    ensures 0 <= key <= 25 && !IsCoprime(key, 26) ==> r == Err(KeyNotCoprime)
    ensures r.Ok? <==> 0 <= key <= 25 && IsCoprime(key, 26)
    ensures r.Ok? ==> |r.value| == |UpperLetters(text)|
  {
    if key < 0 || key > 25 then Err(KeyOutOfRange)
    else if !IsCoprime(key, 26) then Err(KeyNotCoprime)
    else
      var multiplier := if decrypt then ModInverseOf(key, 26) else Mod(key, 26);
      var res := MapChars(UpperLetters(text), c => MulChar(c, multiplier));
      Ok(if decrypt then ToLower(res) else res)
  }

  /** Decrypting a multiplicative encryption gives the cleaned text in lower case. */
  lemma MultiplicativeRoundTrip(text: string, key: int)
    requires 0 <= key <= 25 && IsCoprime(key, 26)
    ensures Multiplicative(Multiplicative(text, key, false).value, key, true) == Ok(ToLower(UpperLetters(text)))
  {
    var p := UpperLetters(text);
    InverseOfCoprimeKey(key);
    ModOfResidue(key, 26);
    var inv := ModInverseOf(key, 26);
    var f := ch => MulChar(ch, Mod(key, 26));
    var g := ch => MulChar(ch, inv);
    var c := MapChars(p, f);
    UpperLettersOfUpper(c);
    forall ch | IsUpper(ch) ensures g(f(ch)) == ch {
      ScaleBack(ch, key, inv);
    }
    MapCharsUndo(p, f, g);
  }

  /** Encrypting a multiplicative decryption gives the cleaned ciphertext back. */
  lemma MultiplicativeEncryptsDecryption(text: string, key: int)
    requires 0 <= key <= 25 && IsCoprime(key, 26)
    ensures Multiplicative(Multiplicative(text, key, true).value, key, false) == Ok(UpperLetters(text))
  {
    var c := UpperLetters(text);
    InverseOfCoprimeKey(key);
    ModOfResidue(key, 26);
    var inv := ModInverseOf(key, 26);
    var f := ch => MulChar(ch, inv);
    var g := ch => MulChar(ch, Mod(key, 26));
    var d := MapChars(c, f);
    CleanLowered(d);
    forall ch | IsUpper(ch) ensures g(f(ch)) == ch {
      assert inv * key == key * inv;
      ScaleBack(ch, inv, key);
    }
    MapCharsUndo(c, f, g);
  }

  // ---- affine ----

  function AffineEncChar(c: char, a: int, b: int): char { LetterMod(a * LetterIndex(c) + b) }
  function AffineDecChar(c: char, aInv: int, b: int): char { LetterMod(aInv * (LetterIndex(c) - b)) }

  lemma AffineBack(c: char, a: int, aInv: int, b: int)
    requires IsUpper(c) && Mod(a * aInv, 26) == 1
    ensures AffineDecChar(AffineEncChar(c, a, b), aInv, b) == c
  {
    var p := LetterIndex(c);
    LetterOfIndex(c);
    var y := Mod(a * p + b, 26);
    // aInv * (y - b) = aInv * (a*p + b - b) = (a * aInv) * p, modulo 26
    ModAddLeft(a * p + b, -b, 26);
    assert Mod(y - b, 26) == Mod(a * p, 26);
    ModMulLeft(y - b, aInv, 26);
    ModMulLeft(a * p, aInv, 26);
    assert (y - b) * aInv == aInv * (y - b);
    assert (a * p) * aInv == (a * aInv) * p;
    ModMulLeft(a * aInv, p, 26);
    ModOfResidue(p, 26);
  }

  lemma AffineForward(c: char, a: int, aInv: int, b: int)
    requires IsUpper(c) && Mod(a * aInv, 26) == 1
    ensures AffineEncChar(AffineDecChar(c, aInv, b), a, b) == c
  {
    var p := LetterIndex(c);
    LetterOfIndex(c);
    var y := Mod(aInv * (p - b), 26);
    // a * y + b = (a * aInv) * (p - b) + b = p, modulo 26
    ModMulLeft(aInv * (p - b), a, 26);
    assert y * a == a * y;
    assert (aInv * (p - b)) * a == (a * aInv) * (p - b);
    ModMulLeft(a * aInv, p - b, 26);
    assert Mod(a * y, 26) == Mod(p - b, 26);
    ModAddLeft(a * y, b, 26);
    ModAddLeft(p - b, b, 26);
    ModOfResidue(p, 26);
  }

  /** `affineCipher` (src/lib/ciphers/core.ts:47-70) */
  function Affine(text: string, a: int, b: int, decrypt: bool): (r: Result<string, CipherError>)
    ensures a < 0 || a > 25 || b < 0 || b > 25 ==> r == Err(KeyOutOfRange)
    ensures 0 <= a <= 25 && 0 <= b <= 25 && !IsCoprime(a, 26) ==> r == Err(KeyNotCoprime)
    ensures r.Ok? <==> 0 <= a <= 25 && 0 <= b <= 25 && IsCoprime(a, 26)
    ensures r.Ok? ==> |r.value| == |UpperLetters(text)|
  {
    if a < 0 || a > 25 || b < 0 || b > 25 then Err(KeyOutOfRange)
    else if !IsCoprime(a, 26) then Err(KeyNotCoprime)
    else if decrypt then
      var aInv := ModInverseOf(a, 26);
      Ok(ToLower(MapChars(UpperLetters(text), c => AffineDecChar(c, aInv, b))))
    else
      Ok(MapChars(UpperLetters(text), c => AffineEncChar(c, a, b)))
  }

  /** Decrypting an affine encryption gives the cleaned text in lower case. */
  lemma AffineRoundTrip(text: string, a: int, b: int)
    requires 0 <= a <= 25 && 0 <= b <= 25 && IsCoprime(a, 26)
    ensures Affine(Affine(text, a, b, false).value, a, b, true) == Ok(ToLower(UpperLetters(text)))
  {
    var p := UpperLetters(text);
    InverseOfCoprimeKey(a);
    var aInv := ModInverseOf(a, 26);
    var f := ch => AffineEncChar(ch, a, b);
    var g := ch => AffineDecChar(ch, aInv, b);
    var c := MapChars(p, f);
    UpperLettersOfUpper(c);
    forall ch | IsUpper(ch) ensures g(f(ch)) == ch {
      AffineBack(ch, a, aInv, b);
    }
    MapCharsUndo(p, f, g);
  }

  /** Encrypting an affine decryption gives the cleaned ciphertext back. */
  lemma AffineEncryptsDecryption(text: string, a: int, b: int)
    requires 0 <= a <= 25 && 0 <= b <= 25 && IsCoprime(a, 26)
    ensures Affine(Affine(text, a, b, true).value, a, b, false) == Ok(UpperLetters(text))
  {
    var c := UpperLetters(text);
    InverseOfCoprimeKey(a);
    var aInv := ModInverseOf(a, 26);
    var f := ch => AffineDecChar(ch, aInv, b);
    var g := ch => AffineEncChar(ch, a, b);
    var d := MapChars(c, f);
    CleanLowered(d);
    forall ch | IsUpper(ch) ensures g(f(ch)) == ch {
      AffineForward(ch, a, aInv, b);
    }
    MapCharsUndo(c, f, g);
  }

  // ---- Vigenère ----

  /** `/^[a-zA-Z]+$/` */
  predicate IsLetterKey(key: string) { |key| > 0 && AllLetters(key) }

  function VigenereChar(c: char, k: char, decrypt: bool): (r: char)
    ensures IsUpper(r)
  {
    if decrypt then LetterMod(LetterIndex(c) - LetterIndex(k)) else LetterMod(LetterIndex(c) + LetterIndex(k))
  }

  /** `vigenereCipher` (src/lib/ciphers/core.ts:72-90): letter i is shifted by key
      letter i mod |key|. */
  function Vigenere(text: string, key: string, decrypt: bool): (r: Result<string, CipherError>)
    ensures r.Err? <==> !IsLetterKey(key)
    ensures r.Ok? ==> |r.value| == |UpperLetters(text)|
  {
    if !IsLetterKey(key) then Err(KeyNotLetters)
    else
      var cleanText := UpperLetters(text);
      var cleanKey := UpperLetters(key);
      if |cleanKey| == 0 then Ok(cleanText)
      else
        var res := VigenereMap(cleanText, cleanKey, decrypt);
        Ok(if decrypt then ToLower(res) else res)
  }

  /** Letter i shifted by key letter i mod |key|. */
  function VigenereMap(s: string, k: string, decrypt: bool): (r: string)
    requires |k| > 0
    ensures |r| == |s| && AllUpper(r)
    ensures forall i :: 0 <= i < |s| ==> r[i] == VigenereChar(s[i], k[i % |k|], decrypt)
  {
    seq(|s|, i requires 0 <= i < |s| => VigenereChar(s[i], k[i % |k|], decrypt))
  }

  /** A letter key survives cleaning with its length, so the `!cleanKey` branch of
      the source never returns. */
  lemma {:induction false} LetterKeyClean(key: string)
    requires AllLetters(key)
    ensures |UpperLetters(key)| == |key|
    ensures forall i :: 0 <= i < |key| ==> UpperLetters(key)[i] == UpperChar(key[i])
  {
    var u := ToUpper(key);
    assert AllUpper(u);
    FilterKeepsAll(IsUpper, u);
  }

  lemma VigenereBack(c: char, k: char)
    requires IsUpper(c) && IsUpper(k)
    ensures VigenereChar(VigenereChar(c, k, false), k, true) == c
    ensures VigenereChar(VigenereChar(c, k, true), k, false) == c
  {
    var p, s := LetterIndex(c), LetterIndex(k);
    LetterOfIndex(c);
    ModAddLeft(p + s, -s, 26);
    ModAddLeft(p - s, s, 26);
    ModOfResidue(p, 26);
  }

  /** Shifting with one key back and forth, in either order, is the identity. */
  lemma VigenereMapUndo(s: string, k: string, decrypt: bool)
    requires AllUpper(s) && AllUpper(k) && |k| > 0
    ensures VigenereMap(VigenereMap(s, k, decrypt), k, !decrypt) == s
  {
    var t := VigenereMap(VigenereMap(s, k, decrypt), k, !decrypt);
    forall i | 0 <= i < |s| ensures t[i] == s[i] {
      VigenereBack(s[i], k[i % |k|]);
    }
  }

  /** Decrypting a Vigenère encryption gives the cleaned text in lower case;
      encrypting a decryption gives the cleaned ciphertext back. */
  lemma VigenereRoundTrip(text: string, key: string)
    requires IsLetterKey(key)
    ensures Vigenere(Vigenere(text, key, false).value, key, true) == Ok(ToLower(UpperLetters(text)))
    ensures Vigenere(Vigenere(text, key, true).value, key, false) == Ok(UpperLetters(text))
  {
    var p := UpperLetters(text);
    var k := UpperLetters(key);
    LetterKeyClean(key);
    var c := VigenereMap(p, k, false);
    UpperLettersOfUpper(c);
    VigenereMapUndo(p, k, false);
    var d := VigenereMap(p, k, true);
    CleanLowered(d);
    VigenereMapUndo(p, k, true);
  }

  // ---- autokey ----

  /** The key letter of autokey position i: key letter i while i < |key|, then
      plaintext letter i - |key|. */
  function AutokeyShift(p: string, k: string, i: int): char
    requires 0 <= i < |p|
  {
    if i < |k| then k[i] else p[i - |k|]
  }

  /** Autokey encryption with the key stream `(cleanKey + cleanText).substring(0, n)`. */
  function AutokeyEncrypt(p: string, k: string): (c: string)
    ensures |c| == |p| && AllUpper(c)
    ensures forall i :: 0 <= i < |p| ==> c[i] == VigenereChar(p[i], AutokeyShift(p, k, i), false)
  {
    var fullKey := (k + p)[..|p|];
    seq(|p|, i requires 0 <= i < |p| => VigenereChar(p[i], fullKey[i], false))
  }

  /** Autokey decryption: the key stream is the key followed by the plaintext
      recovered so far. */
  function AutokeyDecrypt(c: string, k: string): (p: string)
    requires |k| > 0
    ensures |p| == |c| && AllUpper(p)
  {
    if c == [] then []
    else
      var n := |c| - 1;
      var prev := AutokeyDecrypt(c[..n], k);
      prev + [VigenereChar(c[n], (k + prev)[n], true)]
  }

  /** Each recovered letter is its ciphertext letter shifted back by the key
      letter that encrypted it. */
  lemma {:induction false} AutokeyDecryptAt(c: string, k: string, i: int)
    requires |k| > 0 && 0 <= i < |c|
    ensures var p := AutokeyDecrypt(c, k);
      p[i] == VigenereChar(c[i], AutokeyShift(p, k, i), true)
  {
    var n := |c| - 1;
    var prev := AutokeyDecrypt(c[..n], k);
    var p := AutokeyDecrypt(c, k);
    assert p[..n] == prev;
    if i < n {
      AutokeyDecryptAt(c[..n], k, i);
      assert c[..n][i] == c[i];
      assert AutokeyShift(prev, k, i) == AutokeyShift(p, k, i);
    } else {
      assert (k + prev)[n] == AutokeyShift(p, k, n);
    }
  }

  /** Decrypting one more ciphertext letter extends the decryption by one letter. */
  lemma AutokeyDecryptSnoc(c: string, k: string, x: char)
    requires |k| > 0
    ensures AutokeyDecrypt(c + [x], k)
      == AutokeyDecrypt(c, k) + [VigenereChar(x, (k + AutokeyDecrypt(c, k))[|c|], true)]
  {
    assert (c + [x])[..|c|] == c;
  }

  /** `autokeyCipher` (src/lib/ciphers/core.ts:92-119) as a specification. */
  function Autokey(text: string, key: string, decrypt: bool): (r: Result<string, CipherError>)
    ensures r.Err? <==> !IsLetterKey(key)
    ensures r.Ok? ==> |r.value| == |UpperLetters(text)|
  {
    if !IsLetterKey(key) then Err(KeyNotLetters)
    else
      var cleanText := UpperLetters(text);
      var cleanKey := UpperLetters(key);
      if |cleanKey| == 0 then Ok(cleanText)
      else if decrypt then Ok(ToLower(AutokeyDecrypt(cleanText, cleanKey)))
      else Ok(AutokeyEncrypt(cleanText, cleanKey))
  }

  /** `autokeyCipher` (src/lib/ciphers/core.ts:92-119): cleaning, the key check
      and the choice of loop. */
  method AutokeyCipher(text: string, key: string, decrypt: bool) returns (r: Result<string, CipherError>)
    ensures r == Autokey(text, key, decrypt)
  {
    if !IsLetterKey(key) {
      return Err(KeyNotLetters);
    }
    var cleanText := UpperLetters(text);
    var cleanKey := UpperLetters(key);
    if |cleanKey| == 0 {
      return Ok(cleanText);
    }
    var result;
    if decrypt {
      result := AutokeyDecryptLoop(cleanText, cleanKey);
      return Ok(ToLower(result));
    } else {
      result := AutokeyEncryptLoop(cleanText, cleanKey);
      return Ok(result);
    }
  }

  /** The decryption loop (src/lib/ciphers/core.ts:101-109): each recovered letter
      is appended to the running key. */
  method AutokeyDecryptLoop(cleanText: string, cleanKey: string) returns (result: string)
    requires |cleanKey| > 0
    ensures result == AutokeyDecrypt(cleanText, cleanKey)
  {
    result := "";
    var currentKey := cleanKey;
    for i := 0 to |cleanText|
      invariant |result| == i
      invariant result == AutokeyDecrypt(cleanText[..i], cleanKey)
      invariant currentKey == cleanKey + result
    {
      var p := LetterIndex(cleanText[i]);
      var k := LetterIndex(currentKey[i]);
      var decoded := LetterMod(p - k);
      AutokeyDecryptSnoc(cleanText[..i], cleanKey, cleanText[i]);
      assert cleanText[..i + 1] == cleanText[..i] + [cleanText[i]];
      result := result + [decoded];
      currentKey := currentKey + [decoded];
    }
    assert cleanText[..|cleanText|] == cleanText;
  }

  /** The encryption loop (src/lib/ciphers/core.ts:110-117) over the key stream
      `(cleanKey + cleanText).substring(0, cleanText.length)`. */
  method AutokeyEncryptLoop(cleanText: string, cleanKey: string) returns (result: string)
    ensures result == AutokeyEncrypt(cleanText, cleanKey)
  {
    result := "";
    var fullKey := (cleanKey + cleanText)[..|cleanText|];
    ghost var e := AutokeyEncrypt(cleanText, cleanKey);
    for i := 0 to |cleanText|
      invariant result == e[..i]
    {
      var p := LetterIndex(cleanText[i]);
      var k := LetterIndex(fullKey[i]);
      assert fullKey[i] == AutokeyShift(cleanText, cleanKey, i);
      assert e[..i + 1] == e[..i] + [e[i]];
      result := result + [LetterMod(p + k)];
    }
    assert e[..|cleanText|] == e;
  }

  /** The autokey encryption of a prefix is the prefix of the encryption. */
  lemma AutokeyEncryptPrefix(p: string, k: string, n: int)
    requires 0 <= n <= |p|
    ensures AutokeyEncrypt(p[..n], k) == AutokeyEncrypt(p, k)[..n]
  {
    var a, b := AutokeyEncrypt(p[..n], k), AutokeyEncrypt(p, k)[..n];
    forall i | 0 <= i < n ensures a[i] == b[i] {
      assert AutokeyShift(p, k, i) == AutokeyShift(p[..n], k, i);
    }
  }

  /** Autokey decryption undoes autokey encryption. */
  lemma {:induction false} AutokeyDecryptsEncryption(p: string, k: string)
    requires AllUpper(p) && AllUpper(k) && |k| > 0
    ensures AutokeyDecrypt(AutokeyEncrypt(p, k), k) == p
    decreases |p|
  {
    if p != [] {
      var n := |p| - 1;
      var c := AutokeyEncrypt(p, k);
      var q := p[..n];
      var x := c[n];
      assert AutokeyDecrypt(c[..n], k) == q by {
        AutokeyEncryptPrefix(p, k, n);
        AutokeyDecryptsEncryption(q, k);
      }
      assert AutokeyDecrypt(c, k) == q + [VigenereChar(x, (k + q)[n], true)] by {
        assert c == c[..n] + [x];
        AutokeyDecryptSnoc(c[..n], k, x);
      }
      assert VigenereChar(x, (k + q)[n], true) == p[n] by {
        var shift := AutokeyShift(p, k, n);
        assert (k + q)[n] == shift;
        VigenereBack(p[n], shift);
      }
      assert p == q + [p[n]];
    }
  }

  /** Autokey encryption undoes autokey decryption. */
  lemma AutokeyEncryptsDecryption(c: string, k: string)
    requires AllUpper(c) && AllUpper(k) && |k| > 0
    ensures AutokeyEncrypt(AutokeyDecrypt(c, k), k) == c
  {
    var p := AutokeyDecrypt(c, k);
    var e := AutokeyEncrypt(p, k);
    forall i | 0 <= i < |c| ensures e[i] == c[i] {
      AutokeyDecryptAt(c, k, i);
      VigenereBack(c[i], AutokeyShift(p, k, i));
    }
  }

  lemma AutokeyRoundTrip(text: string, key: string)
    requires IsLetterKey(key)
    ensures Autokey(Autokey(text, key, false).value, key, true) == Ok(ToLower(UpperLetters(text)))
    ensures Autokey(Autokey(text, key, true).value, key, false) == Ok(UpperLetters(text))
  {
    var p := UpperLetters(text);
    var k := UpperLetters(key);
    LetterKeyClean(key);
    var c := AutokeyEncrypt(p, k);
    UpperLettersOfUpper(c);
    AutokeyDecryptsEncryption(p, k);
    var d := AutokeyDecrypt(p, k);
    CleanLowered(d);
    AutokeyEncryptsDecryption(p, k);
  }
}
