/** The key expansion of the AES-128 trace engine (src/lib/ciphers/aes-steps.ts:96-104,
    220-256), section 5.2 of FIPS 197. The source keeps the expanded key as 44 words of
    eight upper-case hex digits and combines them with `performXOR`, one digit at a time;
    the model does the same, and relates the words to the byte-level recurrence of the
    standard. */
module AesKey {
  import opened Wrappers
  import opened JsText
  import opened AesBytes
  import opened AesTables
  import opened AesField
  import opened AesState

  // ---- performXOR ----

  /** `parseInt(h[i], 16)` as `^` reads it: the digit's value, or 0 where the character
      is missing or no hex digit (`parseInt` gives NaN there, which `^` reads as 0). */
  function DigitAt(h: string, i: int): (v: bv4)
    ensures v as int == if 0 <= i < |h| && IsHexDigit(h[i]) then HexValue(h[i]) else 0
  {
    if 0 <= i < |h| && IsHexDigit(h[i]) then NibbleValue(h[i]); Nibble(h[i]) else 0
  }

  /** The digit `performXOR` appends for position i: `(v1 ^ v2).toString(16).toUpperCase()`. */
  function XorDigit(h1: string, h2: string, i: int): char
  {
    HexDigit((DigitAt(h1, i) ^ DigitAt(h2, i)) as int)
  }

  /** `performXOR` (lines 96-104): one digit per digit of the first operand. */
  function PerformXor(h1: string, h2: string): (r: string)
    ensures |r| == |h1| && AllUpperHex(r)
  {
    seq(|h1|, i requires 0 <= i < |h1| => XorDigit(h1, h2, i))
  }

  /** `performXOR` as the source runs it: a loop appending to `res`. */
  method PerformXorLoop(h1: string, h2: string) returns (res: string)
    ensures res == PerformXor(h1, h2)
  {
    res := "";
    for i := 0 to |h1|
      invariant res == PerformXor(h1, h2)[..i]
    {
      var v1 := DigitAt(h1, i);
      var v2 := DigitAt(h2, i);
      res := res + [HexDigit((v1 ^ v2) as int)];
    }
  }

  /** Digit i of a XOR has the exclusive or of the operands' digits as its value. */
  lemma XorDigitValue(h1: string, h2: string, i: int)
    requires 0 <= i < |h1|
    ensures DigitAt(PerformXor(h1, h2), i) == DigitAt(h1, i) ^ DigitAt(h2, i)
  {
    var x := DigitAt(h1, i) ^ DigitAt(h2, i);
    var c := PerformXor(h1, h2)[i];
    assert c == HexDigit(x as int);
    assert DigitAt(PerformXor(h1, h2), i) as int == x as int;
  }

  /** XOR with the same digits twice gives back the first operand, in upper case. */
  lemma XorCancel(a: string, b: string)
    requires AllHex(a)
    ensures PerformXor(PerformXor(a, b), b) == ToUpper(a)
  {
    forall i | 0 <= i < |a|
      ensures PerformXor(PerformXor(a, b), b)[i] == ToUpper(a)[i]
    {
      XorCancelAt(a, b, i);
    }
  }

  lemma XorCancelAt(a: string, b: string, i: int)
    requires AllHex(a) && 0 <= i < |a|
    ensures PerformXor(PerformXor(a, b), b)[i] == ToUpper(a)[i]
  {
    XorDigitValue(a, b, i);
    HexDigitOfValue(a[i]);
    assert (DigitAt(a, i) ^ DigitAt(b, i) ^ DigitAt(b, i)) == DigitAt(a, i);
  }

  /** On operands of equal length the operands can be swapped. */
  lemma XorCommutes(a: string, b: string)
    requires |a| == |b|
    ensures PerformXor(a, b) == PerformXor(b, a)
  {
    forall i | 0 <= i < |a|
      ensures PerformXor(a, b)[i] == PerformXor(b, a)[i]
    {
      assert DigitAt(a, i) ^ DigitAt(b, i) == DigitAt(b, i) ^ DigitAt(a, i);
    }
  }

  /** Two digits of a XOR, read as a byte, are the exclusive or of the operands' bytes. */
  lemma XorPair(h1: string, h2: string, k: int)
    requires AllHex(h1) && AllHex(h2) && 0 <= k && k + 1 < |h1| && k + 1 < |h2|
    ensures var p := PerformXor(h1, h2);
      AllHex(p) && ParseByte(p[k], p[k + 1]) == ParseByte(h1[k], h1[k + 1]) ^ ParseByte(h2[k], h2[k + 1])
  {
    var p := PerformXor(h1, h2);
    UpperHexIsHex(p);
    XorDigitValue(h1, h2, k);
    XorDigitValue(h1, h2, k + 1);
    JoinXor(Nibble(h1[k]), Nibble(h1[k + 1]), Nibble(h2[k]), Nibble(h2[k + 1]));
  }

  lemma JoinXor(a: bv4, b: bv4, c: bv4, d: bv4)
    ensures Join(a ^ c, b ^ d) == Join(a, b) ^ Join(c, d)
  {
  }

  /** `addRoundKey` is `performXOR` of the written-out state and the key, read back. */
  lemma AddRoundKeyIsXor(s: State, key: string)
    requires IsState(s) && IsBlock(key)
    ensures IsBlock(PerformXor(StateToBlock(s), key))
    ensures AddRoundKey(s, key) == BlockToState(PerformXor(StateToBlock(s), key))
  {
    var b := StateToBlock(s);
    var p := PerformXor(b, key);
    UpperHexIsHex(p);
    UpperHexIsHex(b);
    forall r, c | 0 <= r < 4 && 0 <= c < 4
      ensures AddRoundKey(s, key)[r][c] == BlockToState(p)[r][c]
    {
      CellIsXor(s, key, r, c);
    }
    SameCells(AddRoundKey(s, key), BlockToState(p));
  }

  lemma CellIsXor(s: State, key: string, r: int, c: int)
    requires IsState(s) && IsBlock(key) && 0 <= r < 4 && 0 <= c < 4
    requires IsBlock(PerformXor(StateToBlock(s), key)) && IsBlock(StateToBlock(s))
    ensures AddRoundKey(s, key)[r][c] == BlockToState(PerformXor(StateToBlock(s), key))[r][c]
  {
    hide StateToBlock, BlockToState, PerformXor, ParseByte;
    var b := StateToBlock(s);
    StateCell(PerformXor(b, key), r, c);
    StateCell(b, r, c);
    StateCell(key, r, c);
    CellRoundTrip(s, r, c);
    XorPair(b, key, 8 * c + 2 * r);
  }

  // ---- the words of the expanded key ----

  /** A word of the key schedule: eight upper-case hex digits. */
  predicate IsWord(w: string) { |w| == 8 && AllUpperHex(w) }

  predicate AllWords(w: seq<string>) { forall j :: 0 <= j < |w| ==> IsWord(w[j]) }

  /** `prevWord.substring(2) + prevWord.substring(0, 2)` (line 235): the word turned one
      byte to the left. */
  function RotWord(w: string): (r: string)
    requires IsWord(w)
    ensures IsWord(r)
  {
    w[2..] + w[..2]
  }

  /** `SBOX[parseInt(rotated.substring(2 * k, 2 * k + 2), 16)]` (line 238). */
  function SBoxPair(w: string, k: int): (p: string)
    requires IsWord(w) && 0 <= k < 4
    ensures |p| == 2 && AllUpperHex(p)
  {
    UpperHexIsHex(w);
    HexPair(SBox(ParseByte(w[2 * k], w[2 * k + 1])))
  }

  /** `substituted` after k rounds of the loop of lines 237-239. */
  function Substituted(w: string, k: nat): (r: string)
    requires IsWord(w) && k <= 4
    ensures |r| == 2 * k && AllUpperHex(r)
  {
    if k == 0 then "" else Substituted(w, k - 1) + SBoxPair(w, k - 1)
  }

  method SubstitutedLoop(rotated: string) returns (substituted: string)
    requires IsWord(rotated)
    ensures substituted == Substituted(rotated, 4)
  {
    substituted := "";
    for k := 0 to 4
      invariant substituted == Substituted(rotated, k)
    {
      substituted := substituted + SBoxPair(rotated, k);
    }
  }

  datatype WordStep = WordStep(index: int, prevWord: string, wordMinus4: string,
                               rotated: Option<string>, substituted: Option<string>,
                               rcon: Option<string>, xorWithRcon: Option<string>,
                               result: string, isSpecial: bool)

  /** The step that computes word i from W(i-1) and W(i-4) (lines 229-250): a word at
      a multiple of four goes through rotation, the S-box and the round constant before
      the XOR with W(i-4); every other word is W(i-1) XOR W(i-4). */
  function StepOf(prev: string, w4: string, i: int): (s: WordStep)
    requires IsWord(prev) && IsWord(w4) && 4 <= i < 44
    ensures IsWord(s.result)
  {
    RconShape();
    if i % 4 == 0 then
      var rotated := RotWord(prev);
      var substituted := Substituted(rotated, 4);
      var rcon := RCON[i / 4 - 1];
      var xorWithRcon := PerformXor(substituted, rcon);
      WordStep(i, prev, w4, Some(rotated), Some(substituted), Some(rcon), Some(xorWithRcon),
               PerformXor(xorWithRcon, w4), true)
    else
      WordStep(i, prev, w4, None, None, None, None, PerformXor(prev, w4), false)
  }

  /** `words` once n of its entries are filled (lines 224-251). */
  function Words(key: string, n: nat): (w: seq<string>)
    requires IsBlock(key) && 4 <= n <= 44
    ensures |w| == n && AllWords(w)
  {
    if n == 4 then
      seq(4, j requires 0 <= j < 4 => ToUpper(key[8 * j .. 8 * j + 8]))
    else
      var w := Words(key, n - 1);
      w + [StepOf(w[n - 2], w[n - 5], n - 1).result]
  }

  /** `wordSteps` once the words below n are filled. */
  function Steps(key: string, n: nat): (s: seq<WordStep>)
    requires IsBlock(key) && 4 <= n <= 44
    ensures |s| == n - 4
  {
    if n == 4 then [] else
      var w := Words(key, n - 1);
      Steps(key, n - 1) + [StepOf(w[n - 2], w[n - 5], n - 1)]
  }

  method StepLoop(prevWord: string, wordMinus4: string, i: int) returns (step: WordStep)
    requires IsWord(prevWord) && IsWord(wordMinus4) && 4 <= i < 44
    ensures step == StepOf(prevWord, wordMinus4, i)
  {
    hide Substituted, PerformXor;
    if i % 4 == 0 {
      var rotated := Substring(prevWord, 2, |prevWord|) + Substring(prevWord, 0, 2);
      assert rotated == RotWord(prevWord);
      var substituted := SubstitutedLoop(rotated);
      var rcon := RCON[i / 4 - 1];
      var xorWithRcon := PerformXorLoop(substituted, rcon);
      var result := PerformXorLoop(xorWithRcon, wordMinus4);
      step := WordStep(i, prevWord, wordMinus4, Some(rotated), Some(substituted), Some(rcon),
                       Some(xorWithRcon), result, true);
    } else {
      var result := PerformXorLoop(prevWord, wordMinus4);
      step := WordStep(i, prevWord, wordMinus4, None, None, None, None, result, false);
    }
  }

  /** The key expansion as the source runs it (lines 220-251): the four words of the key,
      then forty steps, each reading the words it has already filled. */
  method KeyExpansion(hexKey: string) returns (wordSteps: seq<WordStep>, words: seq<string>)
    requires IsBlock(hexKey)
    ensures words == Words(hexKey, 44) && wordSteps == Steps(hexKey, 44)
  {
    words := [];
    for i := 0 to 4
      invariant words == Words(hexKey, 4)[..i]
    {
      words := words + [ToUpper(Substring(hexKey, i * 8, (i + 1) * 8))];
    }
    wordSteps := [];
    for i := 4 to 44
      invariant words == Words(hexKey, i) && wordSteps == Steps(hexKey, i)
    {
      var step := StepLoop(words[i - 1], words[i - 4], i);
      words := words + [step.result];
      wordSteps := wordSteps + [step];
    }
  }

  // ---- the round keys ----

  predicate AllKeys(k: seq<string>) { forall j :: 0 <= j < |k| ==> IsBlock(k[j]) && AllUpperHex(k[j]) }

  /** `subKeys` (lines 253-256): round key j joins words 4j to 4j + 3. */
  function SubKeys(w: seq<string>): (k: seq<string>)
    requires |w| == 44 && AllWords(w)
    ensures |k| == 11 && AllKeys(k)
  {
    seq(11, j requires 0 <= j < 11 => w[4 * j] + w[4 * j + 1] + w[4 * j + 2] + w[4 * j + 3])
  }

  method SubKeysLoop(words: seq<string>) returns (subKeys: seq<string>)
    requires |words| == 44 && AllWords(words)
    ensures subKeys == SubKeys(words)
  {
    subKeys := [];
    var i := 0;
    while i < 44
      invariant 0 <= i <= 44 && i % 4 == 0 && subKeys == SubKeys(words)[..i / 4]
    {
      subKeys := subKeys + [words[i] + words[i + 1] + words[i + 2] + words[i + 3]];
      i := i + 4;
    }
  }

  /** The round keys of a cipher key. */
  function RoundKeys(key: string): (k: seq<string>)
    requires IsBlock(key)
    ensures |k| == 11 && AllKeys(k)
  {
    SubKeys(Words(key, 44))
  }

  /** Round key 0 is the cipher key, in upper case. */
  lemma FirstRoundKey(key: string)
    requires IsBlock(key)
    ensures RoundKeys(key)[0] == ToUpper(key)
  {
    var w := Words(key, 44);
    WordsPrefix(key, 4, 44);
    assert w[..4] == Words(key, 4);
    assert key == key[0..8] + key[8..16] + key[16..24] + key[24..32];
  }

  // ---- the shape of the schedule ----

  lemma {:induction false} WordsPrefix(key: string, m: nat, n: nat)
    requires IsBlock(key) && 4 <= m <= n <= 44
    ensures Words(key, n)[..m] == Words(key, m)
    decreases n
  {
    hide StepOf;
    if m < n {
      WordsPrefix(key, m, n - 1);
      assert Words(key, n)[..n - 1] == Words(key, n - 1);
    }
  }

  lemma {:induction false} StepsPrefix(key: string, m: nat, n: nat)
    requires IsBlock(key) && 4 <= m <= n <= 44
    ensures Steps(key, n)[..m - 4] == Steps(key, m)
    decreases n
  {
    hide StepOf, Words;
    if m < n {
      StepsPrefix(key, m, n - 1);
      assert Steps(key, n)[..n - 5] == Steps(key, n - 1);
    }
  }

  /** Step i - 4 of the schedule computes word i from words i - 1 and i - 4. */
  lemma StepAt(key: string, i: int)
    requires IsBlock(key) && 4 <= i < 44
    ensures var w := Words(key, 44);
      Steps(key, 44)[i - 4] == StepOf(w[i - 1], w[i - 4], i) && w[i] == StepOf(w[i - 1], w[i - 4], i).result
  {
    var w := Words(key, 44);
    WordsPrefix(key, i + 1, 44);
    WordsPrefix(key, i, i + 1);
    StepsPrefix(key, i + 1, 44);
    assert w[..i + 1][i] == w[i];
    assert Steps(key, 44)[..i - 3][i - 4] == Steps(key, 44)[i - 4];
    assert w[..i + 1][..i] == w[..i];
  }

  /** The schedule records 40 steps; step i - 4 is numbered i, reads words i - 1 and
      i - 4, yields word i, and is special, with the intermediate words of lines
      234-244 recorded, exactly when i is a multiple of four (lines 228-251). */
  lemma ScheduleShape(key: string, i: int)
    requires IsBlock(key) && 4 <= i < 44
    ensures var w := Words(key, 44); var s := Steps(key, 44)[i - 4];
      |Steps(key, 44)| == 40 && s.index == i && s.prevWord == w[i - 1] && s.wordMinus4 == w[i - 4]
      && s.result == w[i] && s.isSpecial == (i % 4 == 0)
      && s.rotated.Some? == s.isSpecial && s.substituted.Some? == s.isSpecial
      && s.rcon.Some? == s.isSpecial && s.xorWithRcon.Some? == s.isSpecial
      && (s.isSpecial ==> s.rcon.value == RCON[i / 4 - 1] && s.result == PerformXor(s.xorWithRcon.value, s.wordMinus4))
  {
    StepAt(key, i);
  }

  // ---- the schedule in bytes, as section 5.2 of FIPS 197 states it ----

  /** The four bytes of a word. */
  function WordBytes(w: string): (b: seq<byte>)
    requires IsWord(w)
    ensures |b| == 4
  {
    seq(4, k requires 0 <= k < 4 => ParseByte(w[2 * k], w[2 * k + 1]))
  }

  function XorBytes(a: seq<byte>, b: seq<byte>): (c: seq<byte>)
    requires |a| == 4 && |b| == 4
    ensures |c| == 4
  {
    seq(4, k requires 0 <= k < 4 => a[k] ^ b[k])
  }

  /** RotWord: [a0, a1, a2, a3] becomes [a1, a2, a3, a0]. */
  function RotBytes(a: seq<byte>): (r: seq<byte>)
    requires |a| == 4
    ensures |r| == 4
  {
    a[1..] + a[..1]
  }

  /** SubWord: the S-box on each byte. */
  function SubWordBytes(a: seq<byte>): (r: seq<byte>)
    requires |a| == 4
    ensures |r| == 4
  {
    seq(4, k requires 0 <= k < 4 => SBox(a[k]))
  }

  /** The round constant of round j: x to the power j - 1 in GF(2^8). */
  function Rc(j: nat): byte
    requires j >= 1
  {
    if j == 1 then 1 else Xtime(Rc(j - 1))
  }

  /** The words of the schedule as bytes: the cipher key's bytes four at a time, then
      for i >= 4 the word four back XORed with the previous word, the previous word first
      rotated, substituted and XORed with the round constant when i is a multiple of
      four. */
  lemma ExpansionRecurrence(key: string, i: int)
    requires IsBlock(key) && 0 <= i < 44
    ensures var w := Words(key, 44);
      if i < 4 then WordBytes(w[i]) == seq(4, k requires 0 <= k < 4 => ParseByte(key[8 * i + 2 * k], key[8 * i + 2 * k + 1]))
      else
        var prev, back := WordBytes(w[i - 1]), WordBytes(w[i - 4]);
        WordBytes(w[i]) == if i % 4 == 0
          then XorBytes(XorBytes(SubWordBytes(RotBytes(prev)), [Rc(i / 4), 0, 0, 0]), back)
          else XorBytes(prev, back)
  {
    var w := Words(key, 44);
    if i < 4 {
      WordsPrefix(key, 4, 44);
      assert w[i] == Words(key, 4)[i];
      KeyWordBytes(key, i);
    } else {
      StepAt(key, i);
      UpperHexIsHex(w[i - 1]);
      UpperHexIsHex(w[i - 4]);
      if i % 4 == 0 {
        var rotated := RotWord(w[i - 1]);
        var substituted := Substituted(rotated, 4);
        RconShape();
        var rcon := RCON[i / 4 - 1];
        UpperHexIsHex(substituted);
        UpperHexIsHex(rotated);
        UpperHexIsHex(rcon);
        var x := PerformXor(substituted, rcon);
        UpperHexIsHex(x);
        WordXor(x, w[i - 4]);
        WordXor(substituted, rcon);
        RconBytes(i / 4);
        SubstitutedBytes(rotated);
        RotatedBytes(w[i - 1]);
      } else {
        WordXor(w[i - 1], w[i - 4]);
      }
    }
  }

  lemma KeyWordBytes(key: string, i: int)
    requires IsBlock(key) && 0 <= i < 4
    ensures var v := ToUpper(key[8 * i .. 8 * i + 8]);
      IsWord(v) && WordBytes(v) == seq(4, k requires 0 <= k < 4 => ParseByte(key[8 * i + 2 * k], key[8 * i + 2 * k + 1]))
  {
    var v := ToUpper(key[8 * i .. 8 * i + 8]);
    UpperHexIsHex(v);
    forall k | 0 <= k < 4
      ensures ParseByte(v[2 * k], v[2 * k + 1]) == ParseByte(key[8 * i + 2 * k], key[8 * i + 2 * k + 1])
    {
      UpperParse(key[8 * i + 2 * k], key[8 * i + 2 * k + 1]);
    }
  }

  /** Upper-casing the digits does not change the byte they write. */
  lemma UpperParse(hi: char, lo: char)
    requires IsHexDigit(hi) && IsHexDigit(lo)
    ensures IsHexDigit(UpperChar(hi)) && IsHexDigit(UpperChar(lo))
    ensures ParseByte(UpperChar(hi), UpperChar(lo)) == ParseByte(hi, lo)
  {
  }

  /** `performXOR` of two words is the XOR of their bytes. */
  lemma WordXor(a: string, b: string)
    requires IsWord(a) && IsWord(b)
    ensures WordBytes(PerformXor(a, b)) == XorBytes(WordBytes(a), WordBytes(b))
  {
    hide PerformXor, ParseByte;
    UpperHexIsHex(a);
    UpperHexIsHex(b);
    forall k | 0 <= k < 4
      ensures WordBytes(PerformXor(a, b))[k] == XorBytes(WordBytes(a), WordBytes(b))[k]
    {
      XorPair(a, b, 2 * k);
    }
  }

  lemma RotatedBytes(w: string)
    requires IsWord(w)
    ensures WordBytes(RotWord(w)) == RotBytes(WordBytes(w))
  {
  }

  lemma SubstitutedBytes(w: string)
    requires IsWord(w)
    ensures WordBytes(Substituted(w, 4)) == SubWordBytes(WordBytes(w))
  {
    hide SBoxPair, SBox, ParseByte;
    var s := Substituted(w, 4);
    forall k | 0 <= k < 4
      ensures WordBytes(s)[k] == SubWordBytes(WordBytes(w))[k]
    {
      SubstitutedChunk(w, 4, k);
      SBoxPairByte(w, k);
    }
  }

  lemma SBoxPairByte(w: string, k: int)
    requires IsWord(w) && 0 <= k < 4
    ensures ParseByte(SBoxPair(w, k)[0], SBoxPair(w, k)[1]) == SBox(ParseByte(w[2 * k], w[2 * k + 1]))
  {
    hide SBox;
    ParseOfHexPair(SBox(ParseByte(w[2 * k], w[2 * k + 1])));
  }

  /** Pair k of `substituted` is the S-box entry of pair k of the rotated word. */
  lemma {:induction false} SubstitutedChunk(w: string, n: nat, k: nat)
    requires IsWord(w) && k < n <= 4
    ensures Substituted(w, n)[2 * k] == SBoxPair(w, k)[0] && Substituted(w, n)[2 * k + 1] == SBoxPair(w, k)[1]
  {
    hide SBoxPair;
    if k < n - 1 {
      SubstitutedChunk(w, n - 1, k);
    }
  }

  /** `RCON[j - 1]` is the word [Rc(j), 0, 0, 0]. */
  lemma RconBytes(j: int)
    requires 1 <= j <= 10
    ensures |RCON| == 10 && IsWord(RCON[j - 1]) && WordBytes(RCON[j - 1]) == [Rc(j), 0, 0, 0]
  {
    hide ParseByte, Rc;
    RconShape();
    RconLead(j);
    assert RCON[j - 1][2..] == "000000";
    ZeroByte();
  }

  lemma ZeroByte()
    ensures ParseByte('0', '0') == 0
  {
  }

  lemma RconLead(j: int)
    requires 1 <= j <= 10
    ensures |RCON| == 10 && |RCON[j - 1]| == 8
    ensures IsHexDigit(RCON[j - 1][0]) && IsHexDigit(RCON[j - 1][1])
    ensures ParseByte(RCON[j - 1][0], RCON[j - 1][1]) == Rc(j)
  {
    hide Rc;
    RconShape();
    RcValues();
  }

  lemma RcValues()
    ensures Rc(1) == 0x01 && Rc(2) == 0x02 && Rc(3) == 0x04 && Rc(4) == 0x08 && Rc(5) == 0x10
    ensures Rc(6) == 0x20 && Rc(7) == 0x40 && Rc(8) == 0x80 && Rc(9) == 0x1B && Rc(10) == 0x36
  {
  }

  /** Column c of round key r read as a state is word 4r + c of the schedule, so the
      round keys are the schedule's words four at a time (section 5.1.4 of FIPS 197). */
  lemma RoundKeyColumns(key: string, r: int, row: int, c: int)
    requires IsBlock(key) && 0 <= r < 11 && 0 <= row < 4 && 0 <= c < 4
    ensures BlockToState(RoundKeys(key)[r])[row][c] == WordBytes(Words(key, 44)[4 * r + c])[row]
  {
    hide BlockToState, Words, ParseByte;
    var w := Words(key, 44);
    var k := RoundKeys(key)[r];
    StateCell(k, row, c);
    assert k == w[4 * r] + w[4 * r + 1] + w[4 * r + 2] + w[4 * r + 3];
    KeyWordChar(w[4 * r], w[4 * r + 1], w[4 * r + 2], w[4 * r + 3], c, 2 * row);
    KeyWordChar(w[4 * r], w[4 * r + 1], w[4 * r + 2], w[4 * r + 3], c, 2 * row + 1);
  }

  /** Character m of word c of four joined words. */
  lemma KeyWordChar(w0: string, w1: string, w2: string, w3: string, c: int, m: int)
    requires |w0| == 8 && |w1| == 8 && |w2| == 8 && |w3| == 8 && 0 <= c < 4 && 0 <= m < 8
    ensures (w0 + w1 + w2 + w3)[8 * c + m] == [w0, w1, w2, w3][c][m]
  {
  }
}
