# AetherVault cipher core in Dafny

A model of the cipher engines of AetherVault, a web application that shows classical and
modern ciphers step by step, with proofs about the model. It covers:

- `src/lib/ciphers/core.ts`: the `mod`, `gcd`, `modInverse` and `isCoprime` helpers; the
  additive, multiplicative, affine, Vigenère and autokey ciphers; Playfair; and the Hill
  cipher with its Laplace determinant, cofactor inverse and matrix product, in the
  "standard" (column vectors) and "book" (row vectors) orientations.
- `src/lib/ciphers/adfgvx.ts`: the ADFGVX cipher, namely the completion of the 6×6 Polybius
  square, fractionation into header pairs, and columnar transposition under a stable key
  sort, with its inverse.
- `src/lib/ciphers/des-steps.ts`: the DES trace engine (FIPS 46-3). It covers hex/binary
  conversion, table permutations, the PC-1/PC-2 key schedule, the S-box lookup and the
  sixteen Feistel rounds, all recorded round by round.
- `src/lib/ciphers/aes-steps.ts`: the AES-128 trace engine (FIPS 197). It covers the state
  conversions, SubBytes, ShiftRows, MixColumns and AddRoundKey with their inverses, `gMul`,
  the key expansion, and the ten-round encryption and decryption records.
- `multiplyInGF` of the GF(2^8) tool (`src/components/aether-vault/gf28-multiplication.tsx`).
- The `gcd` and extended-Euclid `modInverse` closures of the modular-inverse tool
  (`src/components/aether-vault/modular-inverse.tsx`).

The source's pure map/join pipelines are modelled as functions. Its loops are methods,
each with the invariants that tie it to a specification function. The main results are
the round trips:

- decryption undoes encryption for every cipher, and the other way round where the
  source allows it (`Classical.*RoundTrip`, `Playfair.PlayfairRoundTrip`,
  `Hill.HillRoundTrip`, `Adfgvx.AdfgvxFixedRoundTrip`, `Des.DesStepsUndone`,
  `Aes.AesStepsUndone`);
- the key schedules (`Des.Subkeys`, `AesKey.ExpansionRecurrence`);
- the shape of every recorded trace;
- the agreement of the two tools with their library counterparts
  (`GfTool.AgreesWithGMul`, `InverseTool.AgreesWithSearch`).

A thrown `Error` is an `Err` value of a `Result`. Strings are `seq<char>`. DES keeps
the source's strings of hex digits and of '0'/'1' bits, and it reads their values as
`nat`s. AES bytes are `bv8` (`AesBytes.byte`) and the hex digits inside them are `bv4`.
The accumulator of `gMul` and of the GF(2^8) tool is a `bv32`. It stands in for
JavaScript's 32-bit `<<=` and `^=`, which never reach bit 31 from byte operands, and
`& 0xFF` masks it back to a byte. The DES and AES tables are the published constants,
copied digit for digit.

Files: `wrappers.dfy`, `js_text.dfy`, `mod_arith.dfy`, `classical.dfy`, `playfair.dfy`,
`hill_matrix.dfy`, `hill_algebra.dfy`, `hill_text.dfy`, `hill.dfy`, `adfgvx_key.dfy`,
`adfgvx_square.dfy`, `adfgvx_columns.dfy`, `adfgvx.dfy`, `des_bits.dfy`, `des_tables.dfy`,
`des_feistel.dfy`, `des.dfy`, `aes_bytes.dfy`, `aes_tables.dfy`, `aes_field.dfy`,
`aes_state.dfy`, `aes_mix.dfy`, `aes_key.dfy`, `aes.dfy`, `gf28_tool.dfy`,
`mod_inverse_tool.dfy`.

## Model

| member | source | states |
|---|---|---|
| Classical.LetterMod | src/lib/ciphers/core.ts:27 | `String.fromCharCode(mod(x, 26) + 65)` is an upper-case letter whose index is x reduced modulo 26 |
| Classical.CleanLowered | src/lib/ciphers/core.ts:24-25 | cleaning the lower-cased form of upper-case letters gives them back |
| Classical.ShiftBack | src/lib/ciphers/core.ts:22-27 | shifting a letter by mod(key, 26) and then by mod(-key, 26) gives it back |
| Classical.ShiftForth | src/lib/ciphers/core.ts:22-27 | shifting a letter by mod(-key, 26) and then by mod(key, 26) gives it back |
| Classical.MapChars | src/lib/ciphers/core.ts:26-28 | the `split/map/join` of the ciphers: as long as the text, with character i mapped by f |
| Classical.MapCharsUndo | src/lib/ciphers/core.ts:26-28 | a letter map undone letter by letter is undone on a whole upper-case text |
| Classical.Additive | src/lib/ciphers/core.ts:18-30 | an error exactly when the key is outside 0..25; otherwise one letter per letter of the cleaned text, upper case when encrypting, lower case when decrypting |
| Classical.AdditiveRoundTrip | src/lib/ciphers/core.ts:18-30 | decrypting an encryption with the same key gives the cleaned text in lower case |
| Classical.AdditiveEncryptsDecryption | src/lib/ciphers/core.ts:18-30 | encrypting a decryption with the same key gives the cleaned text |
| Classical.InverseOfCoprimeKey | src/lib/ciphers/core.ts:8-37 | for a key in 0..25 prime to 26, `modInverse(key, 26)` lies in 1..25 and is an inverse of the key modulo 26 |
| Classical.ScaleBack | src/lib/ciphers/core.ts:42 | multiplying a letter index by k and then by an inverse of k gives the letter back |
| Classical.Multiplicative | src/lib/ciphers/core.ts:32-45 | KeyOutOfRange for keys outside 0..25, KeyNotCoprime for keys that share a factor with 26, a result exactly otherwise, as long as the cleaned text |
| Classical.MultiplicativeRoundTrip | src/lib/ciphers/core.ts:32-45 | decrypting an encryption gives the cleaned text in lower case |
| Classical.MultiplicativeEncryptsDecryption | src/lib/ciphers/core.ts:32-45 | encrypting a decryption gives the cleaned text |
| Classical.AffineBack | src/lib/ciphers/core.ts:59-66 | the affine letter map `a·p + b` is undone by `aInv·(c - b)` when a·aInv is 1 modulo 26 |
| Classical.AffineForward | src/lib/ciphers/core.ts:59-66 | `aInv·(c - b)` is undone by `a·p + b` when a·aInv is 1 modulo 26 |
| Classical.Affine | src/lib/ciphers/core.ts:47-70 | KeyOutOfRange when a or b is outside 0..25, KeyNotCoprime when a shares a factor with 26, a result exactly otherwise, as long as the cleaned text |
| Classical.AffineRoundTrip | src/lib/ciphers/core.ts:47-70 | decrypting an encryption with the same a and b gives the cleaned text in lower case |
| Classical.AffineEncryptsDecryption | src/lib/ciphers/core.ts:47-70 | encrypting a decryption gives the cleaned text |
| Classical.VigenereChar | src/lib/ciphers/core.ts:83-86 | each shifted letter is an upper-case letter |
| Classical.Vigenere | src/lib/ciphers/core.ts:72-90 | an error exactly when the key is empty or holds a non-letter; otherwise as long as the cleaned text |
| Classical.VigenereMap | src/lib/ciphers/core.ts:80-88 | letter i of the result is letter i of the text shifted by key letter i mod the key length |
| Classical.LetterKeyClean | src/lib/ciphers/core.ts:73-78 | a key of letters keeps its length and its letters (upper-cased) through cleaning, so the empty-key branch never returns |
| Classical.VigenereBack | src/lib/ciphers/core.ts:85 | `mod(p - k, 26)` undoes `mod(p + k, 26)`, and the other way round |
| Classical.VigenereMapUndo | src/lib/ciphers/core.ts:80-88 | shifting with the same key forth and back, in either order, is the identity on upper-case text |
| Classical.VigenereRoundTrip | src/lib/ciphers/core.ts:72-90 | decrypting an encryption gives the cleaned text in lower case; encrypting a decryption gives the cleaned text |
| Classical.AutokeyEncrypt | src/lib/ciphers/core.ts:111-116 | letter i of the ciphertext is plaintext letter i shifted by letter i of key followed by plaintext |
| Classical.AutokeyDecrypt | src/lib/ciphers/core.ts:102-109 | as many upper-case letters as the ciphertext |
| Classical.AutokeyDecryptAt | src/lib/ciphers/core.ts:104-108 | each recovered letter is its ciphertext letter shifted back by letter i of key followed by the recovered plaintext |
| Classical.AutokeyDecryptSnoc | src/lib/ciphers/core.ts:103-109 | one more ciphertext letter extends the decryption by one letter, shifted back by the running key |
| Classical.Autokey | src/lib/ciphers/core.ts:92-119 | an error exactly when the key is empty or holds a non-letter; otherwise as long as the cleaned text |
| Classical.AutokeyCipher | src/lib/ciphers/core.ts:92-119 | the method with the source's loops computes `Autokey` |
| Classical.AutokeyDecryptLoop | src/lib/ciphers/core.ts:101-109 | the decryption loop, appending each recovered letter to the running key, computes `AutokeyDecrypt` |
| Classical.AutokeyEncryptLoop | src/lib/ciphers/core.ts:110-117 | the encryption loop computes `AutokeyEncrypt` |
| Classical.AutokeyEncryptPrefix | src/lib/ciphers/core.ts:111-116 | the encryption of a prefix is the prefix of the encryption |
| Classical.AutokeyDecryptsEncryption | src/lib/ciphers/core.ts:101-117 | autokey decryption undoes autokey encryption with the same key |
| Classical.AutokeyEncryptsDecryption | src/lib/ciphers/core.ts:101-117 | autokey encryption undoes autokey decryption with the same key |
| Classical.AutokeyRoundTrip | src/lib/ciphers/core.ts:92-119 | decrypting an encryption gives the cleaned text in lower case; encrypting a decryption gives the cleaned text |
| JsText.UpperChar | src/lib/ciphers/core.ts:24 | `toUpperCase` on one character: a lower-case ASCII letter moves up by 32, every other character is kept |
| JsText.LowerChar | src/lib/ciphers/core.ts:29 | `toLowerCase` on one character: an upper-case ASCII letter moves down by 32, every other character is kept |
| JsText.ToUpper | src/lib/ciphers/core.ts:24 | `toUpperCase`: same length, every character upper-cased |
| JsText.ToLower | src/lib/ciphers/core.ts:29 | `toLowerCase`: same length, every character lower-cased |
| JsText.Filter | src/lib/ciphers/core.ts:25 | `replace(/[^…]/g, '')`: no longer than the text, every kept character passes the test, and a character is kept exactly when it occurs and passes |
| JsText.FilterKeepsAll | src/lib/ciphers/core.ts:25 | a text whose every character passes is kept whole |
| JsText.FilterAppend | src/lib/ciphers/core.ts:25 | the filter of a concatenation is the concatenation of the filters |
| JsText.UpperLetters | src/lib/ciphers/core.ts:24-25 | the cleaned text is upper-case letters and no longer than the text |
| JsText.LowerLetters | src/lib/ciphers/core.ts:307 | the cleaned text is lower-case letters and no longer than the text |
| JsText.UpperAlnum | src/lib/ciphers/adfgvx.ts:37 | the cleaned text is upper-case letters and digits and no longer than the text |
| JsText.UpperLettersOfUpper | src/lib/ciphers/core.ts:24-25 | cleaning upper-case letters changes nothing |
| JsText.UpperLettersOfLower | src/lib/ciphers/core.ts:24-25 | cleaning lower-case letters upper-cases them and drops nothing |
| JsText.Letter | src/lib/ciphers/core.ts:27 | `String.fromCharCode(i + 65)` is the upper-case letter of index i |
| JsText.LetterOfIndex | src/lib/ciphers/core.ts:27 | `charCodeAt(0) - 65` of an upper-case letter is an index in 0..25 that `fromCharCode(i + 65)` turns back into the letter |
| JsText.Substring | src/lib/ciphers/aes-steps.ts:225 | `substring` inside the string is the slice between its ends |
| JsText.CharAt | src/lib/ciphers/des-steps.ts:161 | `charAt(i)`: the character at i inside the string, the empty string outside |
| JsText.HexValue | src/lib/ciphers/aes-steps.ts:98 | `parseInt(c, 16)` of a hexadecimal digit lies in 0..15 |
| JsText.HexDigit | src/lib/ciphers/aes-steps.ts:101 | `toString(16).toUpperCase()` of a value in 0..15 is an upper-case hex digit whose value it is |
| JsText.HexDigitOfValue | src/lib/ciphers/aes-steps.ts:98-101 | printing a parsed digit gives the digit in upper case |
| JsText.UpperHexIsHex | src/lib/ciphers/aes-steps.ts:213-218 | upper-case hex text is hex text that `toUpperCase` leaves alone |
| JsText.FirstOccurrences | src/lib/ciphers/core.ts:130-132 | `filter((v, i, a) => a.indexOf(v) === i)`: distinct characters, exactly those of the text |
| JsText.FirstOccurrencesPrefix | src/lib/ciphers/core.ts:130-132 | the first occurrences of a prefix open the first occurrences of the whole, in the same order |
| JsText.DistinctCard | src/lib/ciphers/core.ts:130-132 | distinct characters are as many as their set |
| JsText.SameElementsSameLength | src/lib/ciphers/core.ts:130-132 | two texts of distinct characters with the same characters are equally long |
| JsText.FirstOccurrencesOfDistinct | src/lib/ciphers/core.ts:130-132 | a text of distinct characters is its own first occurrences |
| JsText.IndexOf | src/lib/ciphers/adfgvx.ts:40 | `indexOf`: -1 exactly when the character is absent, else an index holding it |
| JsText.IndexOfFirst | src/lib/ciphers/adfgvx.ts:40 | `indexOf` returns the first index holding the character |
| Playfair.AlphabetContents | src/lib/ciphers/core.ts:128 | the alphabet holds 25 distinct letters, exactly the upper-case letters other than J |
| Playfair.AlphabetAt | src/lib/ciphers/core.ts:128 | letter i of the alphabet is A + i before J and A + i + 1 from J on |
| Playfair.ReplaceJ | src/lib/ciphers/core.ts:129-134 | `replace(/J/g, 'I')`: same length, every J read as I and nothing else changed |
| Playfair.Square | src/lib/ciphers/core.ts:128-132 | for a key of letters the square is 25 distinct letters, none of them J |
| Playfair.SquareContents | src/lib/ciphers/core.ts:128-132 | the first occurrences of key and alphabet form a valid square |
| Playfair.SquareStartsWithKey | src/lib/ciphers/core.ts:129-132 | the key's own letters open the square, in the order they first occur |
| Playfair.Prepare | src/lib/ciphers/core.ts:137-157 | the prepared text has even length, at least the text's and at most twice it |
| Playfair.PrepareSplitsDoubles | src/lib/ciphers/core.ts:146-147 | a prepared digraph repeats a letter only as "XX" |
| Playfair.PrepareFirst | src/lib/ciphers/core.ts:140-152 | the first digraph takes one or two letters of the text and perhaps the filler X, then the rest is prepared |
| Playfair.NoFiller | src/lib/ciphers/core.ts:142-147 | the inserted filler is X or nothing |
| Playfair.PrepareOnlyAddsX | src/lib/ciphers/core.ts:137-157 | with every X dropped, the prepared text is the text with every X dropped |
| Playfair.PrepareSquareLetters | src/lib/ciphers/core.ts:137-157 | preparing square letters gives square letters |
| Playfair.PrepareLoop | src/lib/ciphers/core.ts:137-158 | the preparation loop computes `Prepare` |
| Playfair.PosOf | src/lib/ciphers/core.ts:161-168 | `findPos`: a cell of the 5×5 grid that holds the character when it is in the square, (0, 0) when it is not |
| Playfair.PosOfAt | src/lib/ciphers/core.ts:161-168 | in a square of distinct letters the position of cell (r, c) is (r, c) |
| Playfair.BuildMatrix | src/lib/ciphers/core.ts:170-171 | the matrix has five rows of five, cell (r, c) being letter 5r + c of the square |
| Playfair.FindPos | src/lib/ciphers/core.ts:161-168 | the nested search loop computes `PosOf` |
| Playfair.PairRule | src/lib/ciphers/core.ts:179-187 | the positions a digraph maps to stay in the grid |
| Playfair.ShiftCell | src/lib/ciphers/core.ts:181-184 | `mod(x + shift, 5)` undone by `mod(x - shift, 5)` |
| Playfair.PairRuleInverse | src/lib/ciphers/core.ts:179-187 | the rule with shift -1 undoes the rule with shift 1 and the other way round, for rows, columns and rectangles |
| Playfair.EncodePair | src/lib/ciphers/core.ts:176-187 | one digraph gives two letters |
| Playfair.EncodePairInverse | src/lib/ciphers/core.ts:176-187 | in a valid square, decoding an encoded digraph gives it back, and encoding a decoded one |
| Playfair.EncodePairs | src/lib/ciphers/core.ts:173-188 | the result is as long as the text less a trailing odd letter |
| Playfair.EncodePairsCons | src/lib/ciphers/core.ts:173-188 | the digraphs are encoded one after the other |
| Playfair.EncodePairsInverse | src/lib/ciphers/core.ts:173-188 | for an even-length text of square letters, encoding and decoding all digraphs are mutually inverse |
| Playfair.EncodePairsFirst | src/lib/ciphers/core.ts:173-188 | the round trip gives back the first digraph and goes on with the rest |
| Playfair.EncodePairsInSquare | src/lib/ciphers/core.ts:173-188 | every encoded letter is a letter of the square |
| Playfair.CleanText | src/lib/ciphers/core.ts:134 | the cleaned text is upper-case letters other than J |
| Playfair.Playfair | src/lib/ciphers/core.ts:121-190 | KeyNotLetters for a key with a non-letter, TextNotLetters for such a text, a result exactly otherwise; an encryption is square letters of even length, a decryption as long as the cleaned text less a trailing odd letter |
| Playfair.PlayfairCipher | src/lib/ciphers/core.ts:121-190 | the method with the source's loops computes `Playfair` |
| Playfair.DigraphLoop | src/lib/ciphers/core.ts:173-188 | the digraph loop computes `EncodePairs` |
| Playfair.EncodePairsStep | src/lib/ciphers/core.ts:174-187 | one pass of the loop adds the first digraph's letters before those of the rest |
| Playfair.Digraph | src/lib/ciphers/core.ts:176-187 | the loop body computes `EncodePair` |
| Playfair.PlayfairRoundTrip | src/lib/ciphers/core.ts:121-190 | decrypting an encryption gives the prepared text in lower case |
| ModArith.Abs | src/lib/ciphers/core.ts:4-6 | the magnitude of x |
| ModArith.JsRem | src/lib/ciphers/core.ts:2-5 | JavaScript's `%`: smaller in magnitude than the divisor, with the sign of the dividend |
| ModArith.JsDivision | src/lib/ciphers/core.ts:2-5 | the dividend is the divisor times the truncated quotient plus `JsRem` |
| ModArith.JsRemNonNegative | src/lib/ciphers/core.ts:2 | for a non-negative dividend and a positive divisor `JsRem` is the Euclidean remainder |
| ModArith.Mod | src/lib/ciphers/core.ts:2 | `mod(n, m)` lies in [0, m) for m > 0 |
| ModArith.ModIsSourceFormula | src/lib/ciphers/core.ts:2 | `Mod` equals `((n % m) + m) % m` with JavaScript's `%` for every m ≠ 0 |
| ModArith.ModIsEuclidean | src/lib/ciphers/core.ts:2 | for m > 0 `((n % m) + m) % m` is the Euclidean residue |
| ModArith.SameResidue | src/lib/ciphers/core.ts:2 | numbers differing by a multiple of m have the same residue |
| ModArith.ModMulLeft | src/lib/ciphers/core.ts:2-10 | reducing a factor first does not change the residue of a product |
| ModArith.ModAddLeft | src/lib/ciphers/core.ts:2 | reducing a summand first does not change the residue of a sum |
| ModArith.ModOfResidue | src/lib/ciphers/core.ts:2 | `mod` of a residue is the residue |
| ModArith.Gcd | src/lib/ciphers/core.ts:4-6 | no contract of its own: `gcd` with JavaScript's truncating remainder, which is also the `gcd` closure of the modular inverse tool (modular-inverse.tsx lines 41-43); `ModArith.GcdIsGreatestCommonDivisor`, `Bezout` and `GcdNonNegative` state what it computes |
| ModArith.GcdIsGreatestCommonDivisor | src/lib/ciphers/core.ts:4-6 | `gcd(a, b)` divides both arguments and every common divisor divides it |
| ModArith.Bezout | src/lib/ciphers/core.ts:4-6 | `gcd(a, b)` is an integer combination of a and b |
| ModArith.GcdNonNegative | src/lib/ciphers/core.ts:4-6 | with non-negative arguments `gcd` is non-negative |
| ModArith.InverseSearch | src/lib/ciphers/core.ts:9-13 | the loop from candidate x returns the first x' < m with `mod(a·x', m) = 1`, and -1 exactly when there is none |
| ModArith.ModInverseOf | src/lib/ciphers/core.ts:8-14 | -1 for m ≤ 0 or when no x in [1, m) inverts `mod(a, m)`; otherwise the least such x |
| ModArith.ModInverse | src/lib/ciphers/core.ts:8-14 | the loop computes `ModInverseOf` |
| ModArith.InverseUnique | src/lib/ciphers/core.ts:8-14 | an inverse in [0, m) is unique |
| ModArith.ModInverseExistsIffCoprime | src/lib/ciphers/core.ts:8-16 | for m ≥ 2 `modInverse(a, m)` succeeds exactly when `isCoprime(mod(a, m), m)` |
| ModArith.CoprimeHasInverse | src/lib/ciphers/core.ts:8-16 | a residue prime to m has an inverse in [1, m) |
| ModArith.IsCoprime | src/lib/ciphers/core.ts:16 | no contract of its own: `isCoprime(a, m)` holds when `gcd(a, m)` is 1; `ModArith.CoprimeOfMod` and `NegativeNotCoprime` state how it relates to the residue of a, and `ModInverseExistsIffCoprime` that it decides whether `modInverse` succeeds |
| ModArith.CoprimeOfMod | src/lib/ciphers/core.ts:16 | a number `isCoprime` accepts has a residue it accepts |
| ModArith.NegativeNotCoprime | src/lib/ciphers/core.ts:4-16 | the converse fails: `gcd(-3, 26)` is -1, so -3 is rejected although its residue 23 is prime to 26 |
| ModArith.ModInverseModulusOne | src/lib/ciphers/core.ts:8-14 | with m = 1 the search returns -1 although every number is prime to 1 |
| InverseTool.ToolInverse | src/components/aether-vault/modular-inverse.tsx:45-66 | no contract of its own: the number-or-string answer of `modInverse` as written; `InverseTool.ModInverseLoop`, `NoInverseIffGcd`, `ModulusOne`, `ToolInverseCorrect` and `AgreesWithSearch` state its behaviour, and `NegativeNumberCounterexample` shows the negative-number defect |
| InverseTool.Euclid | src/components/aether-vault/modular-inverse.tsx:57-61 | no contract of its own: the x the loop leaves, by recursion over the loop state (a, m, x, y); `InverseTool.EuclidSolves` states its bound and its residue |
| InverseTool.Adjusted | src/components/aether-vault/modular-inverse.tsx:63 | no contract of its own: a negative x moved up by the original modulus; `InverseTool.AdjustedSolves` states what this keeps |
| InverseTool.AdjustedSolves | src/components/aether-vault/modular-inverse.tsx:63 | when r times a is 1 more than a multiple of m and -m < r < m, the adjusted x lies in [0, m) and a times x is again 1 more than a multiple of m |
| InverseTool.ToolInverseFixed | src/components/aether-vault/modular-inverse.tsx:45-66 | no contract of its own: the routine with the number first reduced modulo m when m >= 2; `InverseTool.ToolInverseFixedCorrect` states that it finds the inverse of every integer that has one |
| InverseTool.FloorDiv | src/components/aether-vault/modular-inverse.tsx:58 | `Math.floor(a / m)`: the quotient rounded down, for either sign of m |
| InverseTool.ModInverseLoop | src/components/aether-vault/modular-inverse.tsx:45-66 | the routine with its `while` loop computes `ToolInverse` |
| InverseTool.NoInverseIffGcd | src/components/aether-vault/modular-inverse.tsx:48-50 | the error answer comes exactly when `gcd(a, m)` is not 1, and names a and m |
| InverseTool.ModulusOne | src/components/aether-vault/modular-inverse.tsx:55 | with modulus 1 the answer is 0 |
| InverseTool.EuclidSolves | src/components/aether-vault/modular-inverse.tsx:57-61 | from a state keeping the extended-Euclid invariants, the loop leaves an x of magnitude at most m0 with x·a0 ≡ 1 modulo m0 |
| InverseTool.ToolInverseCorrect | src/components/aether-vault/modular-inverse.tsx:45-66 | for a ≥ 1, m > 1 and gcd 1 the answer is in [0, m) and inverts a modulo m |
| InverseTool.AgreesWithSearch | src/components/aether-vault/modular-inverse.tsx:45-66 | for a ≥ 0 and m ≥ 2 the tool gives the same answer as `modInverse` of src/lib/ciphers/core.ts:8-14, the error exactly when that search fails |
| InverseTool.NegativeNumberCounterexample | src/components/aether-vault/modular-inverse.tsx:45-66 | `modInverse(-3, 7)` answers 1, but -3·1 is 4 modulo 7; the inverse is 2 |
| InverseTool.NegativeModulus | src/components/aether-vault/modular-inverse.tsx:45-66 | `modInverse(3, -26)` runs one round and answers 0 |
| InverseTool.ToolInverseFixedCorrect | src/components/aether-vault/modular-inverse.tsx:45-66 | with the number first reduced modulo m ≥ 2 the routine agrees with the search for every integer, and its answer inverts a |
| GfTool.HexByte | src/components/aether-vault/gf28-multiplication.tsx:34-35 | `parseInt(s, 16)` of one or two hex digits |
| GfTool.MultiplyInGF | src/components/aether-vault/gf28-multiplication.tsx:32-48 | the answer is two upper-case hex digits |
| GfTool.MultiplyInGFLoop | src/components/aether-vault/gf28-multiplication.tsx:32-48 | the eight-round loop computes `MultiplyInGF` |
| GfTool.AgreesWithGMul | src/components/aether-vault/gf28-multiplication.tsx:32-48 | the answer, read back, is `gMul` of the parsed inputs (src/lib/ciphers/aes-steps.ts:106-116) |
| GfTool.TimesOne | src/components/aether-vault/gf28-multiplication.tsx:32-48 | multiplying by "01" on either side gives the value back as two upper-case digits |
| GfTool.ToolMultiplierCommutes | src/components/aether-vault/gf28-multiplication.tsx:32-48 | with one of the multipliers 02, 03, 09, 0b, 0d, 0e the operands can be swapped |
| GfTool.TimesTwo | src/components/aether-vault/gf28-multiplication.tsx:39-44 | multiplying by "02" doubles the value, folding in 0x1B when bit 7 was set |
| HillMatrix.Sign | src/lib/ciphers/core.ts:219-249 | `Math.pow(-1, i)` is 1 or -1 |
| HillMatrix.Without | src/lib/ciphers/core.ts:195-201 | dropping index k keeps every other element in order, and nothing is dropped for an index out of range |
| HillMatrix.Minor | src/lib/ciphers/core.ts:193-205 | the minor's rows are the rows other than `row`, each without entry `column` |
| HillMatrix.MinorShape | src/lib/ciphers/core.ts:193-205 | the minor of an n×n matrix is (n-1)×(n-1) |
| HillMatrix.MinorEntry | src/lib/ciphers/core.ts:193-205 | entry (a, b) of the minor is the matrix entry with a and b stepped over `row` and `column` |
| HillMatrix.MinorLoop | src/lib/ciphers/core.ts:193-205 | the pushing loops compute `Minor` |
| HillMatrix.Det | src/lib/ciphers/core.ts:207-222 | for n ≥ 2 `determinantMat` lies in 0 .. 25 |
| HillMatrix.MinorDet | src/lib/ciphers/core.ts:219-248 | the determinant of a minor of a matrix of size 3 or more lies in 0 .. 25 |
| HillMatrix.MinorDetOfTwo | src/lib/ciphers/core.ts:211-248 | the minor of a 2×2 matrix at (r, c) has the opposite entry as its determinant |
| HillMatrix.DeterminantMat | src/lib/ciphers/core.ts:207-222 | the recursive procedure with its accumulation loop computes `Det` |
| HillMatrix.LaplaceLoop | src/lib/ciphers/core.ts:217-220 | the loop sums the signed first-row entries times their minors' determinants |
| HillMatrix.MinorDeterminant | src/lib/ciphers/core.ts:219-248 | `determinantMat(minor(matrix, row, column))` as run computes `MinorDet` |
| HillMatrix.DetIsReducedDeterminant | src/lib/ciphers/core.ts:207-222 | against an independent Laplace-expansion determinant: equal for n = 1, equal modulo 26 for n ≥ 2 |
| HillAlgebra.SumCongruent | src/lib/ciphers/core.ts:278-282 | sums of summands congruent modulo 26 are congruent |
| HillAlgebra.SumSwap | src/lib/ciphers/core.ts:276-284 | a double sum may be taken in either order |
| HillAlgebra.MatMul | src/lib/ciphers/core.ts:270-286 | `multiplyMat` throws exactly when a factor is empty or the inner dimensions differ; otherwise entry (i, j) is the dot product of row i and column j modulo 26 |
| HillAlgebra.RectEqual | src/lib/ciphers/core.ts:275 | matrices of one shape with the same entries are equal |
| HillAlgebra.MultiplyMat | src/lib/ciphers/core.ts:270-286 | the three loops over a zero-filled grid compute `MatMul` |
| HillAlgebra.IdentityNeutral | src/lib/ciphers/core.ts:270-286 | the identity is neutral on either side of a reduced matrix |
| HillAlgebra.AssocEntry | src/lib/ciphers/core.ts:270-286 | entry (i, j) of a(bc) and of (ab)c agree |
| HillAlgebra.MatMulAssoc | src/lib/ciphers/core.ts:270-286 | the product modulo 26 is associative |
| HillAlgebra.Cofactor | src/lib/ciphers/core.ts:246-251 | a cofactor lies in 0 .. 25 |
| HillAlgebra.InverseMat | src/lib/ciphers/core.ts:224-268 | `inverseMat` throws exactly when the determinant is not prime to 26, with that determinant; otherwise it gives a reduced n×n matrix |
| HillAlgebra.InverseMatLoops | src/lib/ciphers/core.ts:224-268 | the cofactor, adjugate and scaling loops compute `InverseMat` |
| HillAlgebra.CofactorGrid | src/lib/ciphers/core.ts:244-251 | every entry of the filled grid is its cofactor |
| HillAlgebra.CofactorAt | src/lib/ciphers/core.ts:248-249 | the body of the cofactor loop computes `Cofactor` |
| HillAlgebra.Transpose | src/lib/ciphers/core.ts:253-258 | the adjugate grid is the transpose of the cofactor grid |
| HillAlgebra.ScaleGrid | src/lib/ciphers/core.ts:260-265 | every entry is the adjugate entry times `detInv`, modulo 26 |
| HillAlgebra.InverseTimesDet | src/lib/ciphers/core.ts:235 | an inverse of the reduced determinant inverts the determinant modulo 26 |
| HillAlgebra.TwoByTwoInverseEntries | src/lib/ciphers/core.ts:240-268 | the four entries of the inverse of a 2×2 key: the swapped diagonal and negated off-diagonal entries, times `detInv` |
| HillAlgebra.TwoByTwoCofactors | src/lib/ciphers/core.ts:246-251 | the four cofactors of a 2×2 matrix |
| HillAlgebra.OneByOneInverse | src/lib/ciphers/core.ts:240-241 | `[[detInv]]` inverts a 1×1 key modulo 26 on both sides |
| HillAlgebra.TwoByTwoInverse | src/lib/ciphers/core.ts:240-268 | the adjugate times `detInv` inverts a 2×2 key modulo 26 on both sides |
| HillAlgebra.SmallInverse | src/lib/ciphers/core.ts:224-268 | for keys of size 1 or 2 with a determinant prime to 26, `inverseMat` is an inverse modulo 26 on both sides |
| HillText.SmallLetter | src/lib/ciphers/core.ts:304-305 | `indexToCharacter` of 0 .. 25 is a lower-case letter that `characterToIndex` maps back |
| HillText.Indices | src/lib/ciphers/core.ts:304 | one index per character, `characterToIndex` of it |
| HillText.Letters | src/lib/ciphers/core.ts:305 | one lower-case letter per index, `indexToCharacter` of it |
| HillText.LettersOfIndices | src/lib/ciphers/core.ts:304-305 | lower-case letters to indices and back give the letters |
| HillText.IndicesOfLetters | src/lib/ciphers/core.ts:304-305 | indices 0 .. 25 to letters and back give the indices |
| HillText.LowerLettersOfUpper | src/lib/ciphers/core.ts:307 | cleaning the upper-cased output of lower-case letters gives the letters back (with line 391) |
| HillText.Pad | src/lib/ciphers/core.ts:352-355 | the padded text keeps the text as its prefix, adds fewer than n padding characters, and has a length that is a multiple of n |
| HillText.PadArithmetic | src/lib/ciphers/core.ts:353-355 | the number of padding characters is the least that makes the length a multiple of n |
| HillText.PadLoop | src/lib/ciphers/core.ts:353-355 | the `while` loop computes `Pad` |
| HillText.ToGrid | src/lib/ciphers/core.ts:317-376 | n rows of one column per group in the standard mode, one row of n per group in the book mode |
| HillText.ToGridEntry | src/lib/ciphers/core.ts:319-340 | index i·n + j goes to entry (j, i) in the standard mode and (i, j) in the book mode |
| HillText.GroupCells | src/lib/ciphers/core.ts:327-347 | a group has as many cells as the key, all in range on a reduced grid |
| HillText.GroupsUpTo | src/lib/ciphers/core.ts:327-347 | k groups read off give k group-sizes of indices |
| HillText.FromGrid | src/lib/ciphers/core.ts:327-347 | the read-off has one index per entry |
| HillText.FromGridInRange | src/lib/ciphers/core.ts:282-331 | a reduced grid reads off into indices of letters |
| HillText.FromToGrid | src/lib/ciphers/core.ts:317-331 | laying a non-empty text out and reading it back gives the text |
| HillText.ToFromGrid | src/lib/ciphers/core.ts:317-331 | reading a grid off and laying it out again gives the grid |
| HillText.ToGridReduced | src/lib/ciphers/core.ts:319-324 | grids of letter indices are reduced |
| HillText.GridOfText | src/lib/ciphers/core.ts:317-340 | the filling loops compute `ToGrid` of the text's indices |
| HillText.TextCell | src/lib/ciphers/core.ts:322-338 | the entry filled at step `index++` is the index of character i·n + j |
| HillText.ColumnGrid | src/lib/ciphers/core.ts:317-324 | the standard-mode loops compute the standard grid |
| HillText.RowGrid | src/lib/ciphers/core.ts:333-340 | the book-mode loops compute the book grid |
| HillText.TextOfGrid | src/lib/ciphers/core.ts:327-347 | the read-off loops compute the letters of `FromGrid` |
| HillText.ReadGroup | src/lib/ciphers/core.ts:328-346 | the inner read-off loop computes the letters of one group |
| HillText.LettersAppend | src/lib/ciphers/core.ts:329-345 | the letters of two index sequences one after the other |
| Hill.Read | src/lib/ciphers/core.ts:325-347 | an error from the product passes through, and a product reads back as lower-case letters |
| Hill.HillCipher | src/lib/ciphers/core.ts:288-393 | a key that is not square, then a determinant not prime to 26, fail in that order; with a good key it fails exactly for a decryption whose letters are not whole groups (`BadLength`) or an empty book-mode text (whose grid has no rows); decryptions are lower case, encryptions upper case |
| Hill.GridApplies | src/lib/ciphers/core.ts:317-341 | the key times the grid of whole groups exists except for the empty book-mode text, which fails in `multiplyMat` (with lines 270-273) |
| Hill.PadEmpty | src/lib/ciphers/core.ts:352-355 | padding leaves a text empty exactly when it is empty |
| Hill.HillCipherLoops | src/lib/ciphers/core.ts:288-393 | the procedure with all its loops computes `HillCipher` |
| Hill.PadWhole | src/lib/ciphers/core.ts:353-355 | a text of whole groups is not padded |
| Hill.PaddedLower | src/lib/ciphers/core.ts:352-355 | the padded text is lower-case letters |
| Hill.ApplyCancels | src/lib/ciphers/core.ts:325-383 | a matrix undoes its inverse modulo 26 on a reduced grid in either mode |
| Hill.EncryptSteps | src/lib/ciphers/core.ts:351-392 | encryption is pad, lay out, multiply by the key, read off and upper-case |
| Hill.DecryptSteps | src/lib/ciphers/core.ts:309-350 | decryption fails on a partial group, else lays out, multiplies by the inverse and reads off |
| Hill.ReadBack | src/lib/ciphers/core.ts:327-347 | reading a product back and laying the letters out again gives the product |
| Hill.EmptyRead | src/lib/ciphers/core.ts:316-331 | in the standard mode the empty text multiplies to nothing and reads back as "" |
| Hill.ProductGrid | src/lib/ciphers/core.ts:317-331 | the key times the grid of whole groups is a reduced grid that reads back to as many letters |
| Hill.EncryptLetters | src/lib/ciphers/core.ts:358-391 | encryption of whole groups yields whole groups of letters that the cleaning step keeps |
| Hill.DecryptLetters | src/lib/ciphers/core.ts:309-391 | decrypting an encryption of padded letters gives the padded letters |
| Hill.HillRoundTrip | src/lib/ciphers/core.ts:288-393 | for a key whose `inverseMat` inverts it, decrypting an encryption gives the cleaned text with its padding |
| Hill.DecryptedLetters | src/lib/ciphers/core.ts:309-349 | decryption of whole groups yields whole groups of lower-case letters |
| Hill.ReEncrypt | src/lib/ciphers/core.ts:309-391 | encrypting a decryption of whole groups gives the ciphertext in upper case |
| Hill.HillEncryptsDecryption | src/lib/ciphers/core.ts:288-393 | for a key whose `inverseMat` inverts it, encrypting a decryption of whole groups gives the cleaned ciphertext in upper case |
| Hill.SmallKeyRoundTrips | src/lib/ciphers/core.ts:224-393 | for keys of size 1 and 2 both round trips hold with no hypothesis on the inverse |
| AdfgvxKey.BeforeTotal | src/lib/ciphers/adfgvx.ts:29-33 | the comparator orders any two distinct positions one way or the other |
| AdfgvxKey.InsertOrdered | src/lib/ciphers/adfgvx.ts:29-33 | inserting a new position keeps a sequence ordered by (letter, position) |
| AdfgvxKey.SortedKey | src/lib/ciphers/adfgvx.ts:29-33 | `sortedKey` has one entry per key letter |
| AdfgvxKey.SortedKeyIsSorted | src/lib/ciphers/adfgvx.ts:29-33 | `sortedKey` lists every position of the key exactly once, ordered by letter and then by position |
| AdfgvxKey.SortedKeyOfOrderedKey | src/lib/ciphers/adfgvx.ts:29-33 | a key whose letters are already in order keeps its columns in place |
| AdfgvxSquare.HeaderIndex | src/lib/ciphers/adfgvx.ts:103-104 | `headers.indexOf(c)` is -1 exactly for a non-header and otherwise names c |
| AdfgvxSquare.HeaderIndexOfHeader | src/lib/ciphers/adfgvx.ts:103-104 | the index of header j is j (with line 24) |
| AdfgvxSquare.FullSquare | src/lib/ciphers/adfgvx.ts:11-23 | `fullSquare` is 36 distinct letters and digits |
| AdfgvxSquare.SquareOrder | src/lib/ciphers/adfgvx.ts:12-20 | the square text's distinct letters and digits in first-seen order, then the missing ones in alphabet order |
| AdfgvxSquare.CompleteSquareText | src/lib/ciphers/adfgvx.ts:12-20 | a square text holding every letter and digit is its own square, duplicates removed |
| AdfgvxSquare.CompleteSquare | src/lib/ciphers/adfgvx.ts:12-23 | the set and the completion loop compute `FullSquare` |
| AdfgvxSquare.PushMissing | src/lib/ciphers/adfgvx.ts:15-20 | the loop pushes each missing alphabet character, stopping at 36 |
| AdfgvxSquare.PushStep | src/lib/ciphers/adfgvx.ts:16-18 | one step pushes the character exactly when it is not yet there |
| AdfgvxSquare.FullStop | src/lib/ciphers/adfgvx.ts:19 | once the array holds the whole square, further steps push nothing |
| AdfgvxSquare.PairOf | src/lib/ciphers/adfgvx.ts:42 | a cell's pair is two header letters |
| AdfgvxSquare.Fractionate | src/lib/ciphers/adfgvx.ts:38-43 | the stream is header letters, two per character found in the square |
| AdfgvxSquare.FractionateLoop | src/lib/ciphers/adfgvx.ts:38-43 | the loop computes `Fractionate` |
| AdfgvxSquare.FractionatePairs | src/lib/ciphers/adfgvx.ts:40-42 | pair k names the row and column of the k-th character's cell |
| AdfgvxSquare.Unpair | src/lib/ciphers/adfgvx.ts:100-108 | at most one character per whole pair, exactly one when every letter is a header |
| AdfgvxSquare.UnpairLoop | src/lib/ciphers/adfgvx.ts:100-108 | the loop computes `Unpair` |
| AdfgvxSquare.UnpairAt | src/lib/ciphers/adfgvx.ts:101-107 | the pair at i names the next cell, and the loop goes on two further |
| AdfgvxSquare.UnpairOfPair | src/lib/ciphers/adfgvx.ts:103-106 | a cell's pair names that cell (with line 42) |
| AdfgvxSquare.UnpairFractionate | src/lib/ciphers/adfgvx.ts:100-108 | the pair loop undoes the fractionation of characters of the square (with lines 38-43) |
| AdfgvxSquare.FractionateUnpair | src/lib/ciphers/adfgvx.ts:100-108 | the fractionation undoes the pair loop on whole pairs of header letters (with lines 38-43) |
| AdfgvxSquare.PairOfHeaders | src/lib/ciphers/adfgvx.ts:103-106 | two header letters are the pair of the cell 6 r + c they name |
| AdfgvxSquare.IndexInSquare | src/lib/ciphers/adfgvx.ts:40 | in a square of distinct characters `indexOf` finds a cell's character at that cell |
| AdfgvxSquare.FractionateAppend | src/lib/ciphers/adfgvx.ts:38-43 | the stream of a concatenation is the concatenation of the streams |
| AdfgvxColumns.Permute | src/lib/ciphers/adfgvx.ts:61 | the columns taken in the order `sortedKey` names them |
| AdfgvxColumns.ConcatPermuted | src/lib/ciphers/adfgvx.ts:61-65 | taking the columns in another order only rearranges their characters |
| AdfgvxColumns.ColumnLength | src/lib/ciphers/adfgvx.ts:46-58 | how many stream characters fall in column c |
| AdfgvxColumns.ColumnLengthSpec | src/lib/ciphers/adfgvx.ts:49-58 | row r of column c holds a character exactly when r·cols + c is inside the stream |
| AdfgvxColumns.Column | src/lib/ciphers/adfgvx.ts:62-64 | column c holds `ColumnLength` characters |
| AdfgvxColumns.Columns | src/lib/ciphers/adfgvx.ts:62-64 | one column per key letter |
| AdfgvxColumns.ColumnsPartition | src/lib/ciphers/adfgvx.ts:47-58 | the columns together hold the stream's characters, each once |
| AdfgvxColumns.ColumnLengthCases | src/lib/ciphers/adfgvx.ts:46-76 | a column is `rows` long when the last row is full or the column falls in it, `rows - 1` otherwise |
| AdfgvxColumns.WholeRows | src/lib/ciphers/adfgvx.ts:46-58 | in a grid of whole rows every column is `rows` long |
| AdfgvxColumns.PartialRow | src/lib/ciphers/adfgvx.ts:46-58 | with a partial last row the first `long` original columns reach it |
| AdfgvxColumns.ColumnLengthAtMostRows | src/lib/ciphers/adfgvx.ts:46-58 | no column is longer than the grid is tall |
| AdfgvxColumns.ReadColumnsUnpadded | src/lib/ciphers/adfgvx.ts:60-65 | without a pad, the encryption reads the columns in sorted order |
| AdfgvxColumns.Transposed | src/lib/ciphers/adfgvx.ts:45-65 | no contract of its own: the grid read column by column in sorted order; `AdfgvxColumns.TransposedUnpadded`, `UntransposeTransposed` and `Adfgvx.TransposeGrid` state what it is |
| AdfgvxColumns.TransposedUnpadded | src/lib/ciphers/adfgvx.ts:45-65 | without a pad the output is the columns in sorted order, a rearrangement of the stream of the same length |
| AdfgvxColumns.ColumnCellsPadded | src/lib/ciphers/adfgvx.ts:55 | with a one-character pad every cell holds one character, so each column is `rows` long |
| AdfgvxColumns.SourceLengths | src/lib/ciphers/adfgvx.ts:76-88 | the column lengths as written: one per column |
| AdfgvxColumns.IntendedLengths | src/lib/ciphers/adfgvx.ts:46-65 | the column lengths encryption produces, in sorted order: one per position |
| AdfgvxColumns.IntendedLengthsAreColumnLengths | src/lib/ciphers/adfgvx.ts:46-65 | the intended lengths are the lengths of the columns in sorted order |
| AdfgvxColumns.SourceLengthsCorrectIff | src/lib/ciphers/adfgvx.ts:76-88 | the lengths as written agree with the true ones exactly when the grid is full or the key sorts the long columns first |
| AdfgvxColumns.SplitColumnsContents | src/lib/ciphers/adfgvx.ts:78-89 | cutting the output at the true lengths gives back each original column under its index |
| AdfgvxColumns.SplitPieces | src/lib/ciphers/adfgvx.ts:78-89 | cutting a concatenation at its pieces' lengths gives back each piece under its key |
| AdfgvxColumns.GatherColumns | src/lib/ciphers/adfgvx.ts:91-98 | reading the recovered columns row by row gives back the stream |
| AdfgvxColumns.Untranspose | src/lib/ciphers/adfgvx.ts:74-98 | no contract of its own: the ciphertext cut into columns at the given lengths and read back row by row; `AdfgvxColumns.UntransposeTransposed` states that it undoes `Transposed` at the true lengths |
| AdfgvxColumns.UntransposeTransposed | src/lib/ciphers/adfgvx.ts:45-98 | decryption undoes encryption's transposition when it cuts the columns at their true lengths |
| AdfgvxColumns.Filled | src/lib/ciphers/adfgvx.ts:50-58 | the stream extended with the pad to the end of its last row |
| AdfgvxColumns.FullGridLengths | src/lib/ciphers/adfgvx.ts:76-88 | in a full grid the lengths as written are right |
| AdfgvxColumns.UntransposePadded | src/lib/ciphers/adfgvx.ts:45-98 | with a one-character pad, decryption as written recovers the filled stream |
| Adfgvx.Encrypt | src/lib/ciphers/adfgvx.ts:35-66 | no contract of its own: fractionation followed by the columnar transposition in sorted key order; `Adfgvx.AdfgvxCiphertext` and `AdfgvxFixedRoundTrip` state its properties |
| Adfgvx.Decrypt | src/lib/ciphers/adfgvx.ts:68-110 | no contract of its own: untransposition at the given column lengths, then unpairing; `Adfgvx.Adfgvx` uses it with the lengths as written, `AdfgvxFixed` with the true lengths |
| Adfgvx.Adfgvx | src/lib/ciphers/adfgvx.ts:4-111 | fails exactly for a key with no letters (checked first) or a decryption text with a non-ADFGVX character; on success, reports the completed square |
| Adfgvx.AdfgvxFixed | src/lib/ciphers/adfgvx.ts:4-111 | the corrected decryption fails exactly where the original does, and encryption is unchanged |
| Adfgvx.AdfgvxCipher | src/lib/ciphers/adfgvx.ts:4-111 | the procedure with its loops computes `Adfgvx` |
| Adfgvx.TransposeGrid | src/lib/ciphers/adfgvx.ts:45-65 | filling the grid and reading its columns in sorted order computes `Transposed` |
| Adfgvx.FillGrid | src/lib/ciphers/adfgvx.ts:47-58 | each cell holds the next stream character while there is one, the pad after |
| Adfgvx.UntransposeColumns | src/lib/ciphers/adfgvx.ts:74-98 | cutting with the lengths as written and reading row by row computes `Untranspose` |
| Adfgvx.CutColumns | src/lib/ciphers/adfgvx.ts:74-89 | `colData` is the output cut at the lengths as written |
| Adfgvx.ReadRows | src/lib/ciphers/adfgvx.ts:91-98 | row by row, the characters of every column that has them |
| Adfgvx.CleanTextInSquare | src/lib/ciphers/adfgvx.ts:37-40 | every character of the cleaned plaintext is found in the completed square |
| Adfgvx.CipherOfHeaders | src/lib/ciphers/adfgvx.ts:61-72 | a rearranged stream passes the decryption's character check and is already upper case |
| Adfgvx.AdfgvxCiphertext | src/lib/ciphers/adfgvx.ts:35-66 | without a pad the ciphertext is a rearrangement of the fractionated text: two ADFGVX letters per plaintext character |
| Adfgvx.AdfgvxFixedRoundTrip | src/lib/ciphers/adfgvx.ts:35-110 | the corrected decryption undoes encryption with no pad, for every text, square and key |
| Adfgvx.AdfgvxRoundTrip | src/lib/ciphers/adfgvx.ts:35-110 | decryption as written undoes unpadded encryption when the grid is full or the key's letters are in order |
| Adfgvx.AdfgvxPaddedRoundTrip | src/lib/ciphers/adfgvx.ts:35-110 | with a one-letter ADFGVX pad, decryption as written gives the cleaned plaintext followed by what the pad letters decode to |
| Adfgvx.PaddedCipher | src/lib/ciphers/adfgvx.ts:45-98 | the padded ciphertext passes the character check and decryption as written recovers the filled stream |
| Adfgvx.DefaultSquare | src/lib/ciphers/adfgvx.ts:11-20 | an empty square text gives the alphabet as the square |
| Adfgvx.ColumnLengthsCounterexample | src/lib/ciphers/adfgvx.ts:81 | with key CAB and no square, "B" encrypts to "DA", which the decryption as written turns into "G" and the corrected one into "B" |
| Adfgvx.EncryptB | src/lib/ciphers/adfgvx.ts:35-66 | "B" encrypts to "DA" under key CAB |
| Adfgvx.DecryptDA | src/lib/ciphers/adfgvx.ts:68-110 | "DA" decrypts as written to "G" under key CAB |
| Adfgvx.DecryptFixedDA | src/lib/ciphers/adfgvx.ts:68-110 | "DA" decrypts with the corrected lengths to "B" under key CAB |
| DesBits.BitsValue | src/lib/ciphers/des-steps.ts:235-236 | `parseInt(b, 2)` of n bits is below 2^n (with line 141) |
| DesBits.Nibble | src/lib/ciphers/des-steps.ts:136 | `toString(2).padStart(4, '0')` of a 4-bit value is four bits (with line 237) |
| DesBits.NibbleValue | src/lib/ciphers/des-steps.ts:136-141 | four bits written from a value read back as that value |
| DesBits.HexToBinary | src/lib/ciphers/des-steps.ts:135-137 | four bits per hex digit |
| DesBits.HexToBinaryDigit | src/lib/ciphers/des-steps.ts:135-137 | bits 4k .. 4k+3 are the nibble of digit k |
| DesBits.ChunkDigit | src/lib/ciphers/des-steps.ts:141 | a chunk of at most four bits becomes one upper-case hex digit |
| DesBits.BinaryToHex | src/lib/ciphers/des-steps.ts:139-145 | one upper-case digit per started group of four bits |
| DesBits.BinaryToHexLoop | src/lib/ciphers/des-steps.ts:139-145 | the loop computes `BinaryToHex` |
| DesBits.HexRoundTrip | src/lib/ciphers/des-steps.ts:135-145 | hex to bits and back gives the digits in upper case |
| DesBits.BinaryRoundTrip | src/lib/ciphers/des-steps.ts:135-145 | whole nibbles to hex and back give the same bits |
| DesBits.HexToBinaryUpper | src/lib/ciphers/des-steps.ts:135-137 | upper-casing a hex string does not change its bits |
| DesBits.XorBits | src/lib/ciphers/des-steps.ts:150-153 | the bit loop yields one bit per bit of `b1` |
| DesBits.XorBitsLoop | src/lib/ciphers/des-steps.ts:150-153 | the bit loop computes `XorBits` |
| DesBits.PerformXor | src/lib/ciphers/des-steps.ts:147-155 | one upper-case digit per digit of the first operand |
| DesBits.PerformXorLoop | src/lib/ciphers/des-steps.ts:147-155 | `performXOR` as run computes `PerformXor` |
| DesBits.XorBitsOf | src/lib/ciphers/des-steps.ts:147-155 | on operands of equal length the bits of the XOR are the XOR of the bits |
| DesBits.XorBitsDiffer | src/lib/ciphers/des-steps.ts:152 | a result bit is '1' exactly where the operands differ |
| DesBits.XorPastEnd | src/lib/ciphers/des-steps.ts:152 | past the end of a shorter second operand every result bit is '1' |
| DesBits.XorCommutes | src/lib/ciphers/des-steps.ts:147-155 | on operands of equal length the XOR is symmetric |
| DesBits.XorSelf | src/lib/ciphers/des-steps.ts:147-155 | x XOR x is all zeros |
| DesBits.XorCancel | src/lib/ciphers/des-steps.ts:147-155 | XOR with the same operand twice gives the first back in upper case |
| DesBits.PermuteBits | src/lib/ciphers/des-steps.ts:159-162 | at most one bit per table entry |
| DesBits.PermuteBitsLoop | src/lib/ciphers/des-steps.ts:159-162 | the loop computes `PermuteBits` |
| DesBits.Permutation | src/lib/ciphers/des-steps.ts:157-164 | `permutation` yields upper-case hex digits |
| DesBits.PermutationLoop | src/lib/ciphers/des-steps.ts:157-164 | `permutation` as run computes `Permutation` |
| DesBits.PermuteBitsWithin | src/lib/ciphers/des-steps.ts:159-162 | with every entry in range, output bit q is input bit box[q] - 1 |
| DesBits.PermuteBitsSkips | src/lib/ciphers/des-steps.ts:161 | an entry outside the input contributes nothing (`charAt` gives "") |
| DesBits.PermutationBits | src/lib/ciphers/des-steps.ts:157-164 | `permutation(box, hex)` holds box.length bits, bit q being input bit box[q] - 1 |
| DesBits.PermutationUndone | src/lib/ciphers/des-steps.ts:157-164 | a table that undoes another restores the input in upper case |
| DesBits.ShiftAmount | src/lib/ciphers/des-steps.ts:166-172 | every round rotates by one or two places |
| DesBits.LeftCircularShift | src/lib/ciphers/des-steps.ts:166-172 | no contract of its own: one place for rounds 1, 2, 9 and 16, two otherwise; `DesBits.ShiftRotates` and `ShiftAmount` state that it rotates by that amount |
| DesBits.ShiftRotates | src/lib/ciphers/des-steps.ts:166-172 | `leftCircularShift` keeps the length and moves character (i + k) mod n to i |
| DesBits.ShiftedByRotates | src/lib/ciphers/des-steps.ts:192-198 | after n rounds a 28-bit half is rotated by the total of the shifts |
| DesBits.SixteenShiftsAreOneTurn | src/lib/ciphers/des-steps.ts:166-172 | the sixteen shifts add up to 28 |
| DesBits.HalfReturns | src/lib/ciphers/des-steps.ts:192-198 | after sixteen rounds a 28-bit half is back where it started |
| DesTables.PC1Shape | src/lib/ciphers/des-steps.ts:56-61 | PC-1 names 56 of the 64 key bits |
| DesTables.PC2Shape | src/lib/ciphers/des-steps.ts:63-68 | PC-2 names 48 of the 56 scheduled bits |
| DesTables.ExpansionShape | src/lib/ciphers/des-steps.ts:70-75 | the expansion names 48 positions of 32 bits |
| DesTables.PBoxShape | src/lib/ciphers/des-steps.ts:77-80 | the P-box names 32 positions of 32 bits |
| DesTables.InitialPermutationInverse | src/lib/ciphers/des-steps.ts:42-54 | IP-1 is the inverse of IP in both orders |
| DesTables.SBoxShape | src/lib/ciphers/des-steps.ts:82-131 | eight S-boxes of 4 rows of 16 four-bit values |
| DesTables.StandardShaped | src/lib/ciphers/des-steps.ts:42-131 | the published tables have the shape the computation needs and IP, IP-1 are inverses |
| DesFeistel.RoundUndone | src/lib/ciphers/des-steps.ts:245-256 | a Feistel round run on its own exchanged output gives the exchanged input |
| DesFeistel.FeistelUnwinds | src/lib/ciphers/des-steps.ts:219-274 | the first m rounds with the keys reversed undo the last m rounds with the keys |
| DesFeistel.FeistelUndone | src/lib/ciphers/des-steps.ts:219-274 | all rounds with the keys reversed, on the exchanged output, give the exchanged input (with line 211) |
| DesFeistel.ChainIsRounds | src/lib/ciphers/des-steps.ts:219-274 | a chain of round-by-round halves ends at the rounds run on its start |
| DesFeistel.ChainUndone | src/lib/ciphers/des-steps.ts:219-274 | a chain with reversed keys started from another chain's exchanged end ends at its exchanged start (with line 211) |
| Des.ReversedTwice | src/lib/ciphers/des-steps.ts:211 | reversing the keys twice gives them back |
| Des.Pc1 | src/lib/ciphers/des-steps.ts:189 | `pc1Key` is 14 upper-case digits |
| Des.Pc2 | src/lib/ciphers/des-steps.ts:197 | a subkey is 12 upper-case digits |
| Des.Ip | src/lib/ciphers/des-steps.ts:214 | the initial permutation of a block is an upper-case block |
| Des.Ip1 | src/lib/ciphers/des-steps.ts:276 | the final permutation of a block is an upper-case block |
| Des.Expand | src/lib/ciphers/des-steps.ts:225 | `expandedR` is 12 upper-case digits |
| Des.PBox | src/lib/ciphers/des-steps.ts:242 | `fResult` is 8 upper-case digits |
| Des.IpUndone | src/lib/ciphers/des-steps.ts:214 | IP-1 undoes IP and IP undoes IP-1, in upper case (with line 276) |
| Des.SubkeyBits | src/lib/ciphers/des-steps.ts:197 | subkey bit q is bit PC2[q] - 1 of the rotated key |
| Des.ShiftedKey | src/lib/ciphers/des-steps.ts:193-196 | the rotated key is 56 bits |
| Des.ShiftedKeyHalves | src/lib/ciphers/des-steps.ts:193-196 | the rotated key is the two 28-bit halves, each rotated on its own |
| Des.KeyStep | src/lib/ciphers/des-steps.ts:193-206 | pass i records round i and the subkey PC-2 of the rotated key |
| Des.ScheduledKey | src/lib/ciphers/des-steps.ts:190-196 | `binaryKey` stays 56 bits through the passes |
| Des.ScheduledKeyStep | src/lib/ciphers/des-steps.ts:192-196 | pass k + 1 rotates the key by the shifts of round k + 1 |
| Des.SubkeySteps | src/lib/ciphers/des-steps.ts:185-209 | sixteen passes are recorded |
| Des.SubkeysOf | src/lib/ciphers/des-steps.ts:186-207 | `subkeys` lists the subkey of every pass, in order |
| Des.KeySchedule | src/lib/ciphers/des-steps.ts:192-209 | the schedule loop records `SubkeySteps` and their subkeys |
| Des.KeyPass | src/lib/ciphers/des-steps.ts:193-208 | one pass computes `KeyStep`, its shifted halves joining into the rotated key |
| Des.Subkeys | src/lib/ciphers/des-steps.ts:192-209 | sixteen subkeys, subkey k being PC-2 of the key after k + 1 passes, each 12 upper-case digits |
| Des.ScheduleHalves | src/lib/ciphers/des-steps.ts:192-198 | after n passes each half has taken the shifts of rounds 1 .. n |
| Des.ScheduleReturns | src/lib/ciphers/des-steps.ts:192-198 | after sixteen passes `binaryKey` is back to `pc1KeyBinary` |
| Des.SBoxInput | src/lib/ciphers/des-steps.ts:234 | chunk j is bits 6j .. 6j+5 |
| Des.SBoxLookup | src/lib/ciphers/des-steps.ts:235-237 | an S-box value is below 16 |
| Des.SBoxIndices | src/lib/ciphers/des-steps.ts:235-237 | row 2 b0 + b5 and column 8 b1 + 4 b2 + 2 b3 + b4 of box j |
| Des.SBoxBits | src/lib/ciphers/des-steps.ts:232-238 | four bits per chunk looked up |
| Des.SBoxBitsChunk | src/lib/ciphers/des-steps.ts:232-238 | output bits 4j .. 4j+3 are the nibble of S-box j on input bits 6j .. 6j+5 |
| Des.SBoxLoop | src/lib/ciphers/des-steps.ts:232-238 | the S-box loop computes `SBoxBits` |
| Des.SBoxOutput | src/lib/ciphers/des-steps.ts:239 | `sboxOutput` is 8 upper-case digits |
| Des.FResult | src/lib/ciphers/des-steps.ts:224-242 | f is 8 upper-case digits |
| Des.NextBlock | src/lib/ciphers/des-steps.ts:245-273 | a round turns a block into a block, an upper-case one into an upper-case one |
| Des.RoundHalves | src/lib/ciphers/des-steps.ts:220-271 | a round reads the two halves of the text, records its number, key and swap flag |
| Des.RoundF | src/lib/ciphers/des-steps.ts:224-245 | the recorded f is `FResult` of R and the key, XORed into L |
| Des.RoundNext | src/lib/ciphers/des-steps.ts:273 | the recorded halves join into the next block |
| Des.RoundOf | src/lib/ciphers/des-steps.ts:220-271 | no contract of its own: the record of round i + 1 from the text and the key; `Des.RoundHalves`, `RoundF` and `RoundNext` state its fields, `RoundLoop` computes it, and `RoundIsFeistel` states that it is a Feistel round |
| Des.RoundLoop | src/lib/ciphers/des-steps.ts:220-271 | one round as run computes `RoundOf` |
| Des.TextAfter | src/lib/ciphers/des-steps.ts:214-274 | `text` stays a block through the rounds |
| Des.Rounds | src/lib/ciphers/des-steps.ts:217-274 | sixteen rounds are recorded |
| Des.RoundsLoop | src/lib/ciphers/des-steps.ts:219-274 | the round loop records `Rounds` and ends with `TextAfter(…, 16)` |
| Des.KeyBits | src/lib/ciphers/des-steps.ts:190 | `pc1KeyBinary` is 56 bits |
| Des.KeysOf | src/lib/ciphers/des-steps.ts:192-209 | sixteen hex subkeys |
| Des.ActiveKeys | src/lib/ciphers/des-steps.ts:211 | sixteen hex keys in the order of use |
| Des.BlockTrace | src/lib/ciphers/des-steps.ts:278-286 | no contract of its own: the breakdown object of a valid key and block; `Des.Trace`, `TraceRound`, `TraceFinal` and `BlockTraceUndone` state its properties |
| Des.Trace | src/lib/ciphers/des-steps.ts:177-183 | the procedure throws exactly when key or text is not 16 hex digits, and reports the key when the key is wrong |
| Des.DesSteps | src/lib/ciphers/des-steps.ts:177-183 | as `Trace`, over the published tables |
| Des.KeyPhase | src/lib/ciphers/des-steps.ts:189-211 | PC-1, the schedule and the key order as run equal their functions |
| Des.BlockPhase | src/lib/ciphers/des-steps.ts:214-276 | the initial permutation, the rounds and the final permutation as run equal their functions |
| Des.GetTrace | src/lib/ciphers/des-steps.ts:177-287 | the whole procedure over tables `t` computes `Trace` |
| Des.GetDesSteps | src/lib/ciphers/des-steps.ts:177-287 | `getDESSteps` computes `DesSteps` |
| Des.MixValueTwice | src/lib/ciphers/des-steps.ts:245 | XOR of L with f(R, key) keeps L's length and undoes itself |
| Des.RoundIsFeistel | src/lib/ciphers/des-steps.ts:245-273 | a round is a Feistel round on the halves, round 16 exchanging them back |
| Des.HalvesAreChain | src/lib/ciphers/des-steps.ts:219-274 | the halves after each round form a chain of Feistel rounds |
| Des.HalvesUndone | src/lib/ciphers/des-steps.ts:219-274 | sixteen rounds with the keys reversed on the output halves give the exchanged input halves (with line 211) |
| Des.RoundsUndone | src/lib/ciphers/des-steps.ts:219-274 | the rounds run again with the keys reversed give back the upper-case block they started from (with line 211) |
| Des.CipherUndone | src/lib/ciphers/des-steps.ts:211-276 | permutations and rounds with the keys reversed on a cipher block give back the input in upper case |
| Des.BlockTraceUndone | src/lib/ciphers/des-steps.ts:177-287 | what one direction outputs, the other direction with the same key turns back into the input in upper case |
| Des.DesStepsUndone | src/lib/ciphers/des-steps.ts:177-287 | whenever `getDESSteps` succeeds, the other direction on its output succeeds and gives the input block in upper case |
| Des.TraceRound | src/lib/ciphers/des-steps.ts:219-271 | round i + 1 of the breakdown has its number, its key in order of use, the halves of the text after i rounds and the swap flag |
| Des.TraceRoundIs | src/lib/ciphers/des-steps.ts:219-274 | round i + 1 of the breakdown is the round computed on the text after i rounds |
| Des.RoundSwapped | src/lib/ciphers/des-steps.ts:245-256 | rounds 1-15 pass on (R, L xor f) and report a swap; round 16 passes on (L xor f, R) and reports none |
| Des.TraceThreads | src/lib/ciphers/des-steps.ts:219-273 | each round reads the halves the round before passed on |
| Des.TraceFinal | src/lib/ciphers/des-steps.ts:273-276 | `finalPermutation` is IP-1 of the halves round 16 passes on |
| Des.DecryptKeys | src/lib/ciphers/des-steps.ts:211 | encryption uses the subkeys in order, decryption the same subkeys reversed |
| AesBytes.HexPair | src/lib/ciphers/aes-steps.ts:161-174 | `toString(16).padStart(2, '0').toUpperCase()` of a byte is two upper-case hex digits |
| AesBytes.ParseByteParts | src/lib/ciphers/aes-steps.ts:139-156 | the high and low four bits of `parseInt(cell, 16)` are the values of the cell's two digits |
| AesBytes.HexPairOfParse | src/lib/ciphers/aes-steps.ts:156-161 | formatting a parsed cell gives its digits back in upper case |
| AesBytes.ParseOfHexPair | src/lib/ciphers/aes-steps.ts:156-161 | parsing a formatted byte gives the byte back |
| AesTables.RconShape | src/lib/ciphers/aes-steps.ts:89-92 | there are ten round constants, each eight upper-case hex digits |
| AesTables.SBox | src/lib/ciphers/aes-steps.ts:50-67 | no contract of its own: `SBOX[b]`, read as row `b >> 4` and column `b & 15` of the table; `AesTables.SBoxInverse` and `InvSBoxInverse` state that it and `InvSBox` are mutually inverse |
| AesTables.InvSBox | src/lib/ciphers/aes-steps.ts:69-86 | no contract of its own: `INV_SBOX[b]`; see `AesTables.SBoxInverse` and `InvSBoxInverse` |
| AesTables.SBoxInverse | src/lib/ciphers/aes-steps.ts:50-87 | the inverse S-box undoes the S-box on every byte |
| AesTables.InvSBoxInverse | src/lib/ciphers/aes-steps.ts:50-87 | the S-box undoes the inverse S-box on every byte |
| AesField.GMul | src/lib/ciphers/aes-steps.ts:106-116 | no contract of its own: the low byte of the accumulator after the eight rounds; `AesField.GMulLoop` computes it, and `GMulOne`, `GMulTwo` and `GMulCommutesWithTableMultiplier` state its algebra |
| AesField.Xtime | src/lib/ciphers/aes-steps.ts:110-112 | no contract of its own: the doubling with 0x1B folded in when bit 7 was set (xtime of section 4.2.1 of FIPS 197); `AesField.GMulTwo` states that `gMul(2, a)` is this map |
| AesField.GMulLoop | src/lib/ciphers/aes-steps.ts:106-116 | the eight-round loop of `gMul` computes `GMul` |
| AesField.MulRound | src/lib/ciphers/aes-steps.ts:109-113 | one round doubles a (folding 0x1B back on the high bit), halves b and adds a to the product when b is odd |
| AesField.Unrolled | src/lib/ciphers/aes-steps.ts:108-114 | eight rounds of the loop, written out |
| AesField.LowOfProduct | src/lib/ciphers/aes-steps.ts:115 | `gMul` returns the low byte of the accumulated product |
| AesField.GMulOne | src/lib/ciphers/aes-steps.ts:106-116 | `gMul(a, 1)` is a |
| AesField.GMulOneLeft | src/lib/ciphers/aes-steps.ts:106-116 | `gMul(1, a)` is a |
| AesField.GMulTwo | src/lib/ciphers/aes-steps.ts:161 | `gMul(2, a)` is xtime(a), the doubling modulo x^8 + x^4 + x^3 + x + 1 |
| AesField.XtimeLinear | src/lib/ciphers/aes-steps.ts:109-112 | xtime distributes over exclusive or |
| AesField.GMulThree | src/lib/ciphers/aes-steps.ts:161 | `gMul(3, a)` is xtime(a) ^ a |
| AesField.GMulNine | src/lib/ciphers/aes-steps.ts:204-207 | `gMul(9, a)` is xtime³(a) ^ a |
| AesField.GMulEleven | src/lib/ciphers/aes-steps.ts:204-207 | `gMul(11, a)` is xtime³(a) ^ xtime(a) ^ a |
| AesField.GMulThirteen | src/lib/ciphers/aes-steps.ts:204-207 | `gMul(13, a)` is xtime³(a) ^ xtime²(a) ^ a |
| AesField.GMulFourteen | src/lib/ciphers/aes-steps.ts:204-207 | `gMul(14, a)` is xtime³(a) ^ xtime²(a) ^ xtime(a) |
| AesField.GMulByTwo | src/lib/ciphers/aes-steps.ts:106-116 | `gMul(a, 2)` is xtime(a): the multiplier on the right |
| AesField.GMulByThree | src/lib/ciphers/aes-steps.ts:106-116 | `gMul(a, 3)` is xtime(a) ^ a |
| AesField.GMulByNine | src/lib/ciphers/aes-steps.ts:106-116 | `gMul(a, 9)` is xtime³(a) ^ a |
| AesField.GMulByEleven | src/lib/ciphers/aes-steps.ts:106-116 | `gMul(a, 11)` is xtime³(a) ^ xtime(a) ^ a |
| AesField.GMulByThirteen | src/lib/ciphers/aes-steps.ts:106-116 | `gMul(a, 13)` is xtime³(a) ^ xtime²(a) ^ a |
| AesField.GMulByFourteen | src/lib/ciphers/aes-steps.ts:106-116 | `gMul(a, 14)` is xtime³(a) ^ xtime²(a) ^ xtime(a) |
| AesField.GMulCommutesWithTableMultiplier | src/lib/ciphers/aes-steps.ts:106-116 | `gMul(a, c) == gMul(c, a)` for every multiplier c of the tables (1, 2, 3, 9, 11, 13, 14) |
| AesState.SameCells | src/lib/ciphers/aes-steps.ts:118-124 | two 4×4 states with the same cells are the same state |
| AesState.StateText | src/lib/ciphers/aes-steps.ts:139-174 | the strings the source holds for a state: 4×4 cells of two upper-case hex digits |
| AesState.BlockToState | src/lib/ciphers/aes-steps.ts:118-124 | `blockToState` of a 32-digit block is a 4×4 state of bytes |
| AesState.BlockToStateText | src/lib/ciphers/aes-steps.ts:118-124 | cell (i % 4, floor(i / 4)) holds digit pair i of the block, upper-cased: the block is read column by column |
| AesState.BlockToStateLoop | src/lib/ciphers/aes-steps.ts:118-124 | the sixteen assignments into rows that start empty compute `BlockToState` |
| AesState.StateToBlock | src/lib/ciphers/aes-steps.ts:126-134 | `stateToBlock` writes 32 upper-case hex digits |
| AesState.StateToBlockLoop | src/lib/ciphers/aes-steps.ts:126-134 | the two nested loops appending cell texts compute `StateToBlock` |
| AesState.BlockPrefixStep | src/lib/ciphers/aes-steps.ts:128-131 | the text of cell (r, c) follows the cells before it in column order |
| AesState.BlockChars | src/lib/ciphers/aes-steps.ts:128-131 | characters 8c + 2r and 8c + 2r + 1 of the block are the two digits of cell (r, c) |
| AesState.BlockPosition | src/lib/ciphers/aes-steps.ts:121-131 | character i of a block is digit i % 2 of the cell in row (i / 2) % 4 and column i / 8 |
| AesState.BlockRoundTrip | src/lib/ciphers/aes-steps.ts:118-134 | writing out a read block gives back the block in upper case |
| AesState.StateRoundTrip | src/lib/ciphers/aes-steps.ts:118-134 | reading a written state gives back the state |
| AesState.SubBytes | src/lib/ciphers/aes-steps.ts:138-140 | the result is again a 4 by 4 state of bytes; `AesState.SubBytesUndone` states that `invSubBytes` undoes it |
| AesState.InvSubBytes | src/lib/ciphers/aes-steps.ts:182-184 | the result is again a 4 by 4 state of bytes; `AesState.InvSubBytesUndone` states that `subBytes` undoes it |
| AesState.SubBytesUndone | src/lib/ciphers/aes-steps.ts:138-184 | `invSubBytes` undoes `subBytes` |
| AesState.InvSubBytesUndone | src/lib/ciphers/aes-steps.ts:138-184 | `subBytes` undoes `invSubBytes` |
| AesState.ShiftRows | src/lib/ciphers/aes-steps.ts:142-151 | the result is again a 4 by 4 state; `AesState.ShiftRowsLoop` ties it to the source's loop (row r turned r places left), and `ShiftRowsUndone` states that `invShiftRows` undoes it |
| AesState.InvShiftRows | src/lib/ciphers/aes-steps.ts:186-195 | the result is again a 4 by 4 state; `AesState.InvShiftRowsLoop` ties it to the source's loop, and `InvShiftRowsUndone` states that `shiftRows` undoes it |
| AesState.ShiftPushStep | src/lib/ciphers/aes-steps.ts:146-147 | `shift()` then `push()` turns a row of four one more place to the left |
| AesState.PopUnshiftStep | src/lib/ciphers/aes-steps.ts:190-191 | `pop()` then `unshift()` turns a row of four one more place to the right |
| AesState.ShiftRowsLoop | src/lib/ciphers/aes-steps.ts:142-151 | the loop giving row i i rounds of shift/push computes `ShiftRows`, row r turned r places left |
| AesState.InvShiftRowsLoop | src/lib/ciphers/aes-steps.ts:186-195 | the loop giving row i i rounds of pop/unshift computes `InvShiftRows`, row r turned r places right |
| AesState.ShiftRowsUndone | src/lib/ciphers/aes-steps.ts:142-195 | `invShiftRows` undoes `shiftRows` |
| AesState.InvShiftRowsUndone | src/lib/ciphers/aes-steps.ts:142-195 | `shiftRows` undoes `invShiftRows` |
| AesState.AddRoundKey | src/lib/ciphers/aes-steps.ts:169-178 | the result is again a 4 by 4 state; `AesState.AddRoundKeyTwice` states that it is its own inverse, and `AesKey.AddRoundKeyIsXor` that it is `performXOR` of the written-out blocks |
| AesState.AddRoundKeyLoop | src/lib/ciphers/aes-steps.ts:169-178 | the nested loops over rows that start empty compute `AddRoundKey`, each cell exclusive-ored with the key block's cell |
| AesState.AddRoundKeyTwice | src/lib/ciphers/aes-steps.ts:169-178 | adding the same round key twice gives back the state |
| AesState.MixColumns | src/lib/ciphers/aes-steps.ts:153-167 | the result is again a 4 by 4 state; `AesState.MixColumnsUndone` states that `invMixColumns` undoes it |
| AesState.InvMixColumns | src/lib/ciphers/aes-steps.ts:197-210 | the result is again a 4 by 4 state; `AesState.InvMixColumnsUndone` states that `mixColumns` undoes it |
| AesState.MixColumnsLoop | src/lib/ciphers/aes-steps.ts:153-167 | the column loop computes `MixColumns` |
| AesState.MixColumn | src/lib/ciphers/aes-steps.ts:156-164 | the four new cells of one column, with `gMul` run as its loop, are the rows of the MixColumns matrix |
| AesState.InvMixColumnsLoop | src/lib/ciphers/aes-steps.ts:197-210 | the column loop computes `InvMixColumns` |
| AesState.UnmixColumn | src/lib/ciphers/aes-steps.ts:200-207 | the four new cells of one column are the rows of the InvMixColumns matrix |
| AesState.MixColumnsUndone | src/lib/ciphers/aes-steps.ts:153-210 | `invMixColumns` undoes `mixColumns` |
| AesState.InvMixColumnsUndone | src/lib/ciphers/aes-steps.ts:153-210 | `mixColumns` undoes `invMixColumns` |
| AesMix.MixedByte | src/lib/ciphers/aes-steps.ts:161-164 | no contract of its own: byte r of a column after `mixColumns`, with rows 2 3 1 1 turned; `AesMix.MixedTurned` states the rotation and `RowRestored` that `invMixColumns` brings the byte back |
| AesMix.UnmixedByte | src/lib/ciphers/aes-steps.ts:204-207 | no contract of its own: byte r of a column after `invMixColumns`, with rows 14 11 13 9 turned; see `AesMix.UnmixedTurned` and `RowRemixed` |
| AesMix.RowRestored | src/lib/ciphers/aes-steps.ts:161-207 | row r of the InvMixColumns matrix applied to a mixed column gives back byte r of the column |
| AesMix.FirstRowRestored | src/lib/ciphers/aes-steps.ts:161-204 | row 0 of that product: 14·m0 + 11·m1 + 13·m2 + 9·m3 is s0 |
| AesMix.MixedTurned | src/lib/ciphers/aes-steps.ts:161-164 | mixing the column turned round by one gives the mixed column turned round (the matrix is circulant) |
| AesMix.UnmixedTurned | src/lib/ciphers/aes-steps.ts:204-207 | the same for the InvMixColumns matrix |
| AesMix.InverseCoefficientAdditive | src/lib/ciphers/aes-steps.ts:204-207 | multiplying by 9, 11, 13 or 14 distributes over exclusive or |
| AesMix.CoefficientAdditive | src/lib/ciphers/aes-steps.ts:161-207 | multiplying by any coefficient of either matrix distributes over exclusive or |
| AesMix.RowRemixed | src/lib/ciphers/aes-steps.ts:161-207 | row r of the MixColumns matrix applied to an unmixed column gives back byte r of the column |
| AesKey.DigitAt | src/lib/ciphers/aes-steps.ts:99-101 | the value `^` takes from `parseInt(h[i], 16)`: the hex digit's value, or 0 where the character is missing or no hex digit |
| AesKey.PerformXor | src/lib/ciphers/aes-steps.ts:96-104 | the result has one upper-case hex digit per character of the first operand |
| AesKey.PerformXorLoop | src/lib/ciphers/aes-steps.ts:96-104 | the appending loop computes `PerformXor` |
| AesKey.XorDigitValue | src/lib/ciphers/aes-steps.ts:99-101 | digit i of the XOR is the exclusive or of the two operands' digit values at i |
| AesKey.XorCancel | src/lib/ciphers/aes-steps.ts:96-104 | XOR with the same string twice gives the first operand back, in upper case |
| AesKey.XorCommutes | src/lib/ciphers/aes-steps.ts:96-104 | on operands of equal length the XOR is symmetric |
| AesKey.XorPair | src/lib/ciphers/aes-steps.ts:96-104 | two neighbouring digits of the XOR, read as a byte, are the exclusive or of the operands' bytes |
| AesKey.AddRoundKeyIsXor | src/lib/ciphers/aes-steps.ts:169-178 | `addRoundKey` equals `performXOR` of the written-out state with the key, read back into a state |
| AesKey.RotWord | src/lib/ciphers/aes-steps.ts:235 | turning a word one byte to the left gives a word |
| AesKey.SBoxPair | src/lib/ciphers/aes-steps.ts:238 | the S-box entry of a byte of the rotated word is two upper-case hex digits |
| AesKey.Substituted | src/lib/ciphers/aes-steps.ts:236-239 | after k turns of the loop `substituted` holds 2k upper-case hex digits |
| AesKey.SubstitutedLoop | src/lib/ciphers/aes-steps.ts:236-239 | the substitution loop computes `Substituted(rotated, 4)` |
| AesKey.StepOf | src/lib/ciphers/aes-steps.ts:229-250 | every recorded step's result is a word |
| AesKey.Words | src/lib/ciphers/aes-steps.ts:224-251 | `words` filled up to n holds n words |
| AesKey.Steps | src/lib/ciphers/aes-steps.ts:228-251 | `wordSteps` holds one step per word after the first four |
| AesKey.StepLoop | src/lib/ciphers/aes-steps.ts:229-250 | one turn of the expansion loop computes `StepOf` of the previous word and the word four back |
| AesKey.KeyExpansion | src/lib/ciphers/aes-steps.ts:220-251 | the expansion loops build exactly `Words(hexKey, 44)` and `Steps(hexKey, 44)` |
| AesKey.SubKeys | src/lib/ciphers/aes-steps.ts:253-256 | eleven round keys of 32 hex digits each |
| AesKey.SubKeysLoop | src/lib/ciphers/aes-steps.ts:253-256 | the joining loop computes `SubKeys` |
| AesKey.RoundKeys | src/lib/ciphers/aes-steps.ts:220-256 | a cipher key yields eleven round keys of 32 hex digits |
| AesKey.FirstRoundKey | src/lib/ciphers/aes-steps.ts:224-256 | round key 0 is the cipher key in upper case |
| AesKey.WordsPrefix | src/lib/ciphers/aes-steps.ts:228-251 | filling more words never changes the words already filled |
| AesKey.StepsPrefix | src/lib/ciphers/aes-steps.ts:228-251 | recording more steps never changes the steps already recorded |
| AesKey.StepAt | src/lib/ciphers/aes-steps.ts:229-250 | step i - 4 is computed from words i - 1 and i - 4 and its result is word i |
| AesKey.ScheduleShape | src/lib/ciphers/aes-steps.ts:228-251 | forty steps; step i records index i, words i - 1 and i - 4 and its result word i; the rotated, substituted, rcon and XOR fields are present exactly when i is a multiple of four, with rcon `RCON[i / 4 - 1]` |
| AesKey.ExpansionRecurrence | src/lib/ciphers/aes-steps.ts:224-251 | read as bytes, the schedule is the key expansion of section 5.2 of FIPS 197: the key's bytes, then SubWord(RotWord) XOR Rcon XOR w[i-4] at multiples of four and w[i-1] XOR w[i-4] elsewhere |
| AesKey.UpperParse | src/lib/ciphers/aes-steps.ts:225 | upper-casing two hex digits does not change the byte they write |
| AesKey.WordXor | src/lib/ciphers/aes-steps.ts:96-104 | `performXOR` of two words is the bytewise XOR of their bytes |
| AesKey.RotatedBytes | src/lib/ciphers/aes-steps.ts:235 | the rotated word's bytes are [a1, a2, a3, a0] |
| AesKey.SubstitutedBytes | src/lib/ciphers/aes-steps.ts:236-239 | the substituted word's bytes are the S-box images of the rotated word's bytes |
| AesKey.SubstitutedChunk | src/lib/ciphers/aes-steps.ts:236-239 | pair k of `substituted` is the S-box entry of pair k of the rotated word, and later turns keep it |
| AesKey.RconBytes | src/lib/ciphers/aes-steps.ts:89-92 | `RCON[j - 1]` is the word [Rc(j), 0, 0, 0] |
| AesKey.RcValues | src/lib/ciphers/aes-steps.ts:89-92 | the round constants are the powers of x in GF(2^8): 01, 02, 04, …, 80, 1B, 36 |
| AesKey.RoundKeyColumns | src/lib/ciphers/aes-steps.ts:118-124 | column c of round key r read as a state is word 4r + c of the schedule (with lines 253-256) |
| Aes.EncryptRound | src/lib/ciphers/aes-steps.ts:319-329 | one encryption round keeps a 4 × 4 state of bytes |
| Aes.EncryptionRecord | src/lib/ciphers/aes-steps.ts:331-339 | no contract of its own: the record of one encryption round (its number, input, the state after each step, its round key, and no MixColumns in round 10); `Aes.EncryptionRoundShape` states its fields |
| Aes.EncryptedState | src/lib/ciphers/aes-steps.ts:316-340 | the state after i encryption rounds is a state |
| Aes.EncryptionRounds | src/lib/ciphers/aes-steps.ts:315-340 | ten encryption rounds are recorded |
| Aes.DecryptRound | src/lib/ciphers/aes-steps.ts:270-293 | one decryption round keeps a 4 × 4 state of bytes |
| Aes.DecryptionRecord | src/lib/ciphers/aes-steps.ts:277-302 | no contract of its own: the record of one decryption round, rounds 1 to 9 with InvMixColumns and round 10 without; `Aes.DecryptionRoundShape` states its fields |
| Aes.DecryptedState | src/lib/ciphers/aes-steps.ts:266-302 | the state after j decryption rounds is a state |
| Aes.DecryptionRounds | src/lib/ciphers/aes-steps.ts:262-302 | ten decryption rounds are recorded |
| Aes.Trace | src/lib/ciphers/aes-steps.ts:304-349 | no contract of its own: the breakdown object returned for a state under a schedule, with only the encryption rounds or only the decryption rounds; `Aes.AesSteps` and `AesStepsUndone` state its properties |
| Aes.BlockTrace | src/lib/ciphers/aes-steps.ts:220-350 | no contract of its own: `Trace` of the block as a state under the round keys and the 44 expansion steps of the key; `Aes.AesSteps`, `EncryptedBlockUndone`, `DecryptedBlockUndone` and `AesStepsUndone` state its properties |
| Aes.AesSteps | src/lib/ciphers/aes-steps.ts:212-218 | `getAESSteps` throws exactly when the key or the block is not 32 hex digits, and reports the key when the key is wrong |
| Aes.EncryptStep | src/lib/ciphers/aes-steps.ts:319-339 | one loop turn records `EncryptionRecord` and moves the state by `EncryptRound` |
| Aes.EncryptLoop | src/lib/ciphers/aes-steps.ts:315-340 | the encryption loop records `EncryptionRounds` and ends in the state after ten rounds |
| Aes.EncryptionPrefix | src/lib/ciphers/aes-steps.ts:315-340 | the first i records are the first i - 1 followed by round i's record |
| Aes.DecryptStep | src/lib/ciphers/aes-steps.ts:269-302 | one loop turn records `DecryptionRecord` and moves the state by `DecryptRound` |
| Aes.DecryptLoop | src/lib/ciphers/aes-steps.ts:262-302 | the decryption loops record `DecryptionRounds` and end in the state after ten rounds |
| Aes.DecryptionPrefix | src/lib/ciphers/aes-steps.ts:262-302 | the first j records are the first j - 1 followed by round j's record |
| Aes.GetAesSteps | src/lib/ciphers/aes-steps.ts:212-350 | the whole procedure computes `AesSteps` |
| Aes.EncryptionRoundShape | src/lib/ciphers/aes-steps.ts:318-340 | record i is round i + 1, uses round key i + 1, and lacks MixColumns exactly in the last round |
| Aes.EncryptionRoundsChain | src/lib/ciphers/aes-steps.ts:316-340 | each round's input is the previous round's output, the first round's the block after the initial AddRoundKey |
| Aes.EncryptionOutput | src/lib/ciphers/aes-steps.ts:342-349 | the output is a 32-digit block and is the state the last round left |
| Aes.DecryptionRoundShape | src/lib/ciphers/aes-steps.ts:269-302 | record j is round j + 1, uses round key 9 - j, and lacks InvMixColumns exactly in the last round |
| Aes.DecryptionRoundsChain | src/lib/ciphers/aes-steps.ts:266-302 | the first round takes the block after AddRoundKey with round key 10; every later round takes what the previous left after InvMixColumns |
| Aes.DecryptionOutput | src/lib/ciphers/aes-steps.ts:304-311 | the output is a 32-digit block and is the state the last round left |
| Aes.DecryptionRetraces | src/lib/ciphers/aes-steps.ts:262-340 | after j decryption rounds of a ciphertext the state is the one encryption had after ShiftRows of round 10 - j |
| Aes.DecryptionUndoesEncryption | src/lib/ciphers/aes-steps.ts:262-340 | decrypting the encrypted state with the same round keys gives the block back |
| Aes.EncryptionRetraces | src/lib/ciphers/aes-steps.ts:262-340 | after i encryption rounds of a decryption's output the state is the one decryption had in round 10 - i, taken back through InvShiftRows and InvSubBytes |
| Aes.EncryptionUndoesDecryption | src/lib/ciphers/aes-steps.ts:262-340 | encrypting the decrypted state with the same round keys gives the block back |
| Aes.EncryptedBlockUndone | src/lib/ciphers/aes-steps.ts:212-350 | the encryption output is a block, and decrypting it with the same key gives the input block in upper case |
| Aes.DecryptedBlockUndone | src/lib/ciphers/aes-steps.ts:212-350 | the decryption output is a block, and encrypting it with the same key gives the input block in upper case |
| Aes.AesStepsUndone | src/lib/ciphers/aes-steps.ts:212-350 | whenever `getAESSteps` succeeds, running it again in the other direction on its output with the same key succeeds and gives the input block in upper case |

## Left out

- JsText.UpperChar: upper-cases only the ASCII letters a-z. JavaScript's `toUpperCase`/`toLowerCase` map full Unicode (src/lib/ciphers/core.ts:24,39,56,63,76,96,129,134,307 and src/lib/ciphers/adfgvx.ts:12,26,37). In the source, 'ß' becomes "SS", 'ı' becomes 'I', 'ſ' becomes 'S', 'ﬁ' becomes "FI", and at core.ts:307 the Kelvin sign becomes 'k'. So additive with key 3 takes "straße" to "VWUDVVH" in the source but to "VWUDH" in `Classical.Additive`. The same holds for every cipher that cleans its text or key.
- JsText.LowerChar: the same ASCII-only restriction for `toLowerCase` (src/lib/ciphers/core.ts:307).
- Hill.HillRoundTrip: takes `InvertsModulo26(InverseMat(key).value, key)` as a hypothesis. That hypothesis is proved only for keys of size 1 and 2 (`HillAlgebra.SmallInverse`, hill_algebra.dfy:560; `Hill.SmallKeyRoundTrips` has no hypothesis). A general n×n proof of the adjugate identity is not part of this model.
- Hill.HillEncryptsDecryption: the same hypothesis on `inverseMat`, proved only for n ≤ 2.
- Adfgvx.AdfgvxPaddedRoundTrip: the padded round trip covers a single ADFGVX pad character only. The source accepts any `paddingChar` string. The model computes the encryption for every pad string (`AdfgvxColumns.Transposed`), but states no round trip for longer pads or for pads outside A D F G V X.
- Adfgvx.AdfgvxFixedRoundTrip: the corrected round trip is stated for the unpadded case.
- Keys and matrix entries are mathematical integers. JavaScript numbers with fractions, NaN, infinities and 53-bit precision loss in `a * x`, `sum += …` and `det +=` are not modelled. A caller passing `parseInt` of a non-number is outside the model.
- Error messages are reduced to constructors, carrying the numbers the message interpolates (the determinant in `DetNotCoprime`, a and m in `InverseTool.NoInverse`). The text of the message is not modelled.
- GfTool.ToolMultiplierCommutes: commutativity of `multiplyInGF` is proved only when one operand is a multiplier the tool offers (02, 03, 09, 0b, 0d, 0e). For the AES table multipliers it is `AesField.GMulCommutesWithTableMultiplier`. General commutativity of GF(2^8) multiplication over all 65536 pairs is not proved.
- GfTool.MultiplyInGF: modelled for the one- and two-digit hex strings the tool's form accepts (`/^[0-9a-fA-F]{1,2}$/`). Other input strings, such as `parseInt` of a longer string or NaN, are outside the model.
- AesKey.DigitAt: `performXOR` of aes-steps.ts reads a missing or non-hex character as NaN, which `^` turns into 0. The model does the same, but no property is proved for operands that are not hex.
- `Math.pow(-1, i)` in src/lib/ciphers/core.ts:219,249 is modelled as an exact sign ±1.
- ModArith.Mod: requires a modulus other than 0. JavaScript's `mod(n, 0)` is NaN, and no modelled caller passes 0: the ciphers pass 26, and `modInverse` of core.ts returns -1 for m ≤ 0 before it reduces modulo m (`ModArith.ModInverseOf`). The modular-inverse form's `values.modulus || 26` default (modular-inverse.tsx:72) belongs to the form code and is not part of this model.
- src/lib/ciphers/modern.ts (a wrapper over CryptoJS), src/lib/cipher-actions.ts (form parsing), and all React components, pages and visualizers are not part of this model. Only `multiplyInGF` and the `gcd`/`modInverse` closures of the two tools are modelled.
- The breakdown records keep the fields the source computes and returns. Display-only formatting in the visualizers is not modelled.
- Checking the FIPS 197 and FIPS 46-3 test vectors by evaluation is not part of this model. The round trips and the recurrences are proved instead.

## Findings

| source | as written | input that shows it | evidently intended | confidence | as-written member | corrected member |
|---|---|---|---|---|---|---|
| src/lib/ciphers/adfgvx.ts:81 | decryption makes a column long when its SORTED position is below `longCols` | key "CAB", default square, text "B": encryption gives "DA", which decryption as written turns into "G" | a column is long when its ORIGINAL index is below `longCols`, as encryption fills the grid (lines 50-58) | not executed | Adfgvx.Adfgvx, Adfgvx.ColumnLengthsCounterexample | Adfgvx.AdfgvxFixed, Adfgvx.AdfgvxFixedRoundTrip |
| src/components/aether-vault/modular-inverse.tsx:45-66 | a negative number passes the gcd test and the loop `while (a > 1)` never runs, so x stays 1 | `modInverse(-3, 7)` answers 1, but -3 · 1 is 4 modulo 7; the inverse is 2 | reduce the number modulo m first, as `modInverse` of src/lib/ciphers/core.ts:9 does | not executed | InverseTool.ToolInverse, InverseTool.NegativeNumberCounterexample | InverseTool.ToolInverseFixed, InverseTool.ToolInverseFixedCorrect |
