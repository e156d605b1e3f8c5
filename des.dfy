/** `getDESSteps` (src/lib/ciphers/des-steps.ts:177-287): one 64-bit DES block, with
    the key schedule and every round recorded for display. The computation reads its
    tables from a `Tables` value, so that what is proved holds for any tables of the
    right shape; `DesSteps` and `GetDesSteps` use the published ones. */
module Des {
  import opened Wrappers
  import opened JsText
  import opened DesTables
  import opened DesBits
  import opened DesFeistel

  /** The two errors thrown at lines 178-183, key first. */
  datatype DesError = KeyNotBlock | TextNotBlock

  datatype SubkeyStep = SubkeyStep(round: int, leftHalf: string, rightHalf: string,
                                   shiftedLeft: string, shiftedRight: string, subkey: string)

  datatype RoundStep = RoundStep(round: int, L: string, R: string, key: string,
                                 expandedR: string, xoredWithKey: string, sboxOutput: string,
                                 fResult: string, xorWithOldLeft: string,
                                 nextL: string, nextR: string, swapped: bool)

  datatype Breakdown = Breakdown(pc1Key: string, pc1KeyBinary: string,
                                 subkeySteps: seq<SubkeyStep>, subkeys: seq<string>,
                                 rounds: seq<RoundStep>,
                                 initialPermutation: string, finalPermutation: string)

  /** `/^[0-9A-Fa-f]{16}$/`: one block of sixteen hexadecimal digits. */
  predicate IsBlock(s: string) { |s| == 16 && AllHex(s) }

  predicate AllHexKeys(keys: seq<string>) { forall k :: 0 <= k < |keys| ==> AllHex(keys[k]) }

  function Reversed(s: seq<string>): (r: seq<string>)
    ensures |r| == |s| && forall i :: 0 <= i < |s| ==> r[i] == s[|s| - 1 - i]
  {
    seq(|s|, i requires 0 <= i < |s| => s[|s| - 1 - i])
  }

  lemma ReversedTwice(s: seq<string>)
    ensures Reversed(Reversed(s)) == s
  {
  }

  // ---- the tables applied to blocks ----

  /** `permutation(PC1, hexKey)`: 56 of the 64 key bits, as 14 digits. */
  function Pc1(t: ShapedTables, hexKey: string): (k: string)
    requires IsBlock(hexKey)
    ensures |k| == 14 && AllUpperHex(k)
  {
    PermutationBits(t.pc1, hexKey);
    Permutation(t.pc1, hexKey)
  }

  /** `permutation(PC2, binaryToHex(binaryKey))`: a 48-bit subkey, as 12 digits. */
  function Pc2(t: ShapedTables, binaryKey: string): (k: string)
    requires |binaryKey| == 56 && AllBits(binaryKey)
    ensures |k| == 12 && AllUpperHex(k)
  {
    PermutationBits(t.pc2, BinaryToHex(binaryKey));
    Permutation(t.pc2, BinaryToHex(binaryKey))
  }

  /** `permutation(IP, hexText)`. */
  function Ip(t: ShapedTables, hexText: string): (r: string)
    requires IsBlock(hexText)
    ensures IsBlock(r) && AllUpperHex(r)
  {
    PermutationBits(t.ip, hexText);
    Permutation(t.ip, hexText)
  }

  /** `permutation(IP1, text)`. */
  function Ip1(t: ShapedTables, text: string): (r: string)
    requires IsBlock(text)
    ensures IsBlock(r) && AllUpperHex(r)
  {
    PermutationBits(t.ip1, text);
    Permutation(t.ip1, text)
  }

  /** `permutation(EXP_D, R)`: the 32-bit right half spread over 48 bits. */
  function Expand(t: ShapedTables, R: string): (e: string)
    requires |R| == 8 && AllHex(R)
    ensures |e| == 12 && AllUpperHex(e)
  {
    PermutationBits(t.expansion, R);
    Permutation(t.expansion, R)
  }

  /** `permutation(PBOX, sboxOutput)`. */
  function PBox(t: ShapedTables, sboxOutput: string): (f: string)
    requires |sboxOutput| == 8 && AllHex(sboxOutput)
    ensures |f| == 8 && AllUpperHex(f)
  {
    PermutationBits(t.pbox, sboxOutput);
    Permutation(t.pbox, sboxOutput)
  }

  /** IP-1 restores what IP scrambled, and the other way round (in upper case). */
  lemma IpUndone(t: ShapedTables, x: string)
    requires Inverses(t) && IsBlock(x)
    ensures Ip1(t, Ip(t, x)) == ToUpper(x) && Ip(t, Ip1(t, x)) == ToUpper(x)
  {
    PermutationUndone(t.ip1, t.ip, x);
    PermutationUndone(t.ip, t.ip1, x);
  }

  /** A subkey holds the bits of the rotated key that PC-2 names. */
  lemma SubkeyBits(t: ShapedTables, binaryKey: string)
    requires |binaryKey| == 56 && AllBits(binaryKey)
    ensures forall q :: 0 <= q < 48 ==> HexToBinary(Pc2(t, binaryKey))[q] == binaryKey[t.pc2[q] - 1]
  {
    BinaryRoundTrip(binaryKey);
    PermutationBits(t.pc2, BinaryToHex(binaryKey));
  }

  // ---- the key schedule (lines 189-209) ----

  /** Both 28-bit halves of the key rotated for round i (lines 193-198). */
  function ShiftedKey(binaryKey: string, i: int): (k: string)
    requires |binaryKey| == 56 && AllBits(binaryKey)
    ensures |k| == 56 && AllBits(k)
  {
    ShiftKeepsBits(Substring(binaryKey, 0, 28), i);
    ShiftKeepsBits(Substring(binaryKey, 28, 56), i);
    LeftCircularShift(Substring(binaryKey, 0, 28), i) + LeftCircularShift(Substring(binaryKey, 28, 56), i)
  }

  /** The rotated key is the two halves, each rotated on its own. */
  lemma ShiftedKeyHalves(binaryKey: string, i: int)
    requires |binaryKey| == 56 && AllBits(binaryKey)
    ensures ShiftedKey(binaryKey, i)[..28] == LeftCircularShift(binaryKey[..28], i)
    ensures ShiftedKey(binaryKey, i)[28..] == LeftCircularShift(binaryKey[28..], i)
  {
    var l, r := LeftCircularShift(binaryKey[..28], i), LeftCircularShift(binaryKey[28..], i);
    ShiftKeepsBits(binaryKey[..28], i);
    ShiftKeepsBits(binaryKey[28..], i);
    assert Substring(binaryKey, 0, 28) == binaryKey[..28];
    assert Substring(binaryKey, 28, 56) == binaryKey[28..];
    assert ShiftedKey(binaryKey, i) == l + r;
    assert (l + r)[28..] == r;
  }

  /** One pass of the schedule loop for round i: split the key into halves, rotate
      both, and permute the result by PC-2. */
  function KeyStep(t: ShapedTables, binaryKey: string, i: int): (s: SubkeyStep)
    requires |binaryKey| == 56 && AllBits(binaryKey)
    ensures s.round == i && s.subkey == Pc2(t, ShiftedKey(binaryKey, i))
  {
    SubkeyStep(i, Substring(binaryKey, 0, 28), Substring(binaryKey, 28, 56),
               LeftCircularShift(Substring(binaryKey, 0, 28), i),
               LeftCircularShift(Substring(binaryKey, 28, 56), i), Pc2(t, ShiftedKey(binaryKey, i)))
  }

  /** `binaryKey` after the first n passes. */
  function ScheduledKey(pc1KeyBinary: string, n: nat): (k: string)
    requires |pc1KeyBinary| == 56 && AllBits(pc1KeyBinary)
    ensures |k| == 56 && AllBits(k)
  {
    if n == 0 then pc1KeyBinary else ShiftedKey(ScheduledKey(pc1KeyBinary, n - 1), n)
  }

  /** Pass k + 1 rotates the key left by the shifts of round k + 1. */
  lemma ScheduledKeyStep(pc1KeyBinary: string, k: nat)
    requires |pc1KeyBinary| == 56 && AllBits(pc1KeyBinary)
    ensures ScheduledKey(pc1KeyBinary, k + 1) == ShiftedKey(ScheduledKey(pc1KeyBinary, k), k + 1)
  {
  }

  /** Pass k + 1 works on the key rotated k times. */
  function SchedulePass(t: ShapedTables, pc1KeyBinary: string, k: nat): SubkeyStep
    requires |pc1KeyBinary| == 56 && AllBits(pc1KeyBinary)
  {
    KeyStep(t, ScheduledKey(pc1KeyBinary, k), k + 1)
  }

  function KeyPassAt(t: ShapedTables, pc1KeyBinary: string): nat --> SubkeyStep
    requires |pc1KeyBinary| == 56 && AllBits(pc1KeyBinary)
  {
    (k: nat) => SchedulePass(t, pc1KeyBinary, k)
  }

  /** `subkeySteps`: the sixteen passes. */
  function SubkeySteps(t: ShapedTables, pc1KeyBinary: string): (steps: seq<SubkeyStep>)
    requires |pc1KeyBinary| == 56 && AllBits(pc1KeyBinary)
    ensures |steps| == 16
  {
    Tabulate(KeyPassAt(t, pc1KeyBinary), 16)
  }

  /** `subkeys`: the subkey of every step, in order. */
  function SubkeysOf(steps: seq<SubkeyStep>): (keys: seq<string>)
    ensures |keys| == |steps| && forall k :: 0 <= k < |steps| ==> keys[k] == steps[k].subkey
  {
    if steps == [] then [] else SubkeysOf(steps[..|steps| - 1]) + [steps[|steps| - 1].subkey]
  }

  lemma SubkeysOfAppend(steps: seq<SubkeyStep>, s: SubkeyStep)
    ensures SubkeysOf(steps + [s]) == SubkeysOf(steps) + [s.subkey]
  {
    assert (steps + [s])[..|steps|] == steps;
  }

  /** The loop of lines 192-209, with `k` counting the passes made so far. */
  method KeySchedule(t: ShapedTables, pc1KeyBinary: string) returns (subkeySteps: seq<SubkeyStep>, subkeys: seq<string>)
    requires |pc1KeyBinary| == 56 && AllBits(pc1KeyBinary)
    ensures subkeySteps == SubkeySteps(t, pc1KeyBinary) && subkeys == SubkeysOf(subkeySteps)
  {
    var binaryKey := pc1KeyBinary;
    subkeySteps, subkeys := [], [];
    for k := 0 to 16
      invariant binaryKey == ScheduledKey(pc1KeyBinary, k)
      invariant subkeySteps == Tabulate(KeyPassAt(t, pc1KeyBinary), k) && subkeys == SubkeysOf(subkeySteps)
    {
      var s := KeyPass(t, binaryKey, k + 1);
      ScheduledKeyStep(pc1KeyBinary, k);
      KeyPassesStep(t, pc1KeyBinary, k);
      SubkeysOfAppend(subkeySteps, s);
      binaryKey := s.shiftedLeft + s.shiftedRight;
      subkeySteps := subkeySteps + [s];
      subkeys := subkeys + [s.subkey];
    }
  }

  /** Pass k + 1 appends its step to the steps of the passes before it. */
  lemma KeyPassesStep(t: ShapedTables, pc1KeyBinary: string, k: nat)
    requires |pc1KeyBinary| == 56 && AllBits(pc1KeyBinary)
    ensures Tabulate(KeyPassAt(t, pc1KeyBinary), k + 1)
      == Tabulate(KeyPassAt(t, pc1KeyBinary), k) + [SchedulePass(t, pc1KeyBinary, k)]
  {
    TabulateStep(KeyPassAt(t, pc1KeyBinary), k);
  }

  /** The body of the schedule loop for round i (lines 193-208). */
  method KeyPass(t: ShapedTables, binaryKey: string, i: int) returns (s: SubkeyStep)
    requires |binaryKey| == 56 && AllBits(binaryKey)
    ensures s == KeyStep(t, binaryKey, i) && s.shiftedLeft + s.shiftedRight == ShiftedKey(binaryKey, i)
  {
    var leftHalf := Substring(binaryKey, 0, 28);
    var rightHalf := Substring(binaryKey, 28, 56);
    var shiftedLeft := LeftCircularShift(leftHalf, i);
    var shiftedRight := LeftCircularShift(rightHalf, i);
    var combined := shiftedLeft + shiftedRight;
    assert combined == ShiftedKey(binaryKey, i);
    var hex := BinaryToHexLoop(combined);
    var subkey := PermutationLoop(t.pc2, hex);
    s := SubkeyStep(i, leftHalf, rightHalf, shiftedLeft, shiftedRight, subkey);
  }

  /** Subkey k is PC-2 of the key rotated k + 1 times; so every subkey is twelve
      upper-case digits. */
  lemma Subkeys(t: ShapedTables, pc1KeyBinary: string)
    requires |pc1KeyBinary| == 56 && AllBits(pc1KeyBinary)
    ensures |SubkeysOf(SubkeySteps(t, pc1KeyBinary))| == 16
    ensures AllHexKeys(SubkeysOf(SubkeySteps(t, pc1KeyBinary)))
    ensures forall k :: 0 <= k < 16 ==>
      SubkeysOf(SubkeySteps(t, pc1KeyBinary))[k] == Pc2(t, ScheduledKey(pc1KeyBinary, k + 1))
    ensures forall k :: 0 <= k < 16 ==>
      |SubkeysOf(SubkeySteps(t, pc1KeyBinary))[k]| == 12 && AllUpperHex(SubkeysOf(SubkeySteps(t, pc1KeyBinary))[k])
  {
    var keys := SubkeysOf(SubkeySteps(t, pc1KeyBinary));
    forall k | 0 <= k < 16
      ensures keys[k] == Pc2(t, ScheduledKey(pc1KeyBinary, k + 1)) && AllHex(keys[k])
    {
      UpperHexIsHex(keys[k]);
    }
  }

  /** After n passes each half of the key has taken the shifts of rounds 1 .. n. */
  lemma {:induction false} ScheduleHalves(pc1KeyBinary: string, n: nat)
    requires |pc1KeyBinary| == 56 && AllBits(pc1KeyBinary)
    ensures ScheduledKey(pc1KeyBinary, n)[..28] == ShiftedBy(pc1KeyBinary[..28], n)
    ensures ScheduledKey(pc1KeyBinary, n)[28..] == ShiftedBy(pc1KeyBinary[28..], n)
  {
    if n > 0 {
      ScheduleHalves(pc1KeyBinary, n - 1);
      var prev := ScheduledKey(pc1KeyBinary, n - 1);
      var left, right := ShiftedBy(pc1KeyBinary[..28], n - 1), ShiftedBy(pc1KeyBinary[28..], n - 1);
      assert ScheduledKey(pc1KeyBinary, n) == ShiftedKey(prev, n);
      ShiftedKeyHalves(prev, n);
      assert ShiftedKey(prev, n)[..28] == LeftCircularShift(left, n);
      assert ShiftedKey(prev, n)[28..] == LeftCircularShift(right, n);
    }
  }

  /** After the sixteen passes the key is back to `pc1KeyBinary`. */
  lemma ScheduleReturns(pc1KeyBinary: string)
    requires |pc1KeyBinary| == 56 && AllBits(pc1KeyBinary)
    ensures ScheduledKey(pc1KeyBinary, 16) == pc1KeyBinary
  {
    ScheduleHalves(pc1KeyBinary, 16);
    HalfReturns(pc1KeyBinary[..28]);
    HalfReturns(pc1KeyBinary[28..]);
    SameHalves(ScheduledKey(pc1KeyBinary, 16), pc1KeyBinary);
  }

  /** Two keys with the same halves are the same key. */
  lemma SameHalves(k: string, p: string)
    requires |k| == 56 && |p| == 56 && k[..28] == p[..28] && k[28..] == p[28..]
    ensures k == p
  {
    assert k == k[..28] + k[28..];
    assert p == p[..28] + p[28..];
  }

  // ---- one round (lines 219-274) ----

  /** `sboxInput` of chunk j (line 234): six bits. */
  function SBoxInput(binaryXored: string, j: int): (input: string)
    requires |binaryXored| == 48 && AllBits(binaryXored) && 0 <= j < 8
    ensures |input| == 6 && AllBits(input)
    ensures input == binaryXored[6 * j .. 6 * j + 6]
  {
    Substring(binaryXored, j * 6, (j + 1) * 6)
  }

  /** The S-box lookup of lines 235-237: the row from the outer two bits, the column
      from the inner four. */
  function SBoxLookup(t: ShapedTables, sboxInput: string, j: int): (v: int)
    requires |sboxInput| == 6 && AllBits(sboxInput) && 0 <= j < 8
    ensures 0 <= v < 16
  {
    var row := BitsValue(CharAt(sboxInput, 0) + CharAt(sboxInput, 5));
    var col := BitsValue(Substring(sboxInput, 1, 5));
    Pow2UpToFour(4);
    t.sbox[j][row][col]
  }

  /** Row 2 b0 + b5 and column 8 b1 + 4 b2 + 2 b3 + b4 of box j. */
  lemma SBoxIndices(t: ShapedTables, sboxInput: string, j: int)
    requires |sboxInput| == 6 && AllBits(sboxInput) && 0 <= j < 8
    ensures var b := sboxInput;
      SBoxLookup(t, b, j) == t.sbox[j][2 * BitValue(b[0]) + BitValue(b[5])]
        [8 * BitValue(b[1]) + 4 * BitValue(b[2]) + 2 * BitValue(b[3]) + BitValue(b[4])]
  {
    var outer := CharAt(sboxInput, 0) + CharAt(sboxInput, 5);
    assert outer[..1] == [sboxInput[0]];
    assert BitsValue(outer[..1]) == BitValue(sboxInput[0]);
    FourBitsValue(Substring(sboxInput, 1, 5));
  }

  /** The four output bits of S-box j. */
  function SBoxNibble(t: ShapedTables, binaryXored: string, j: nat): string
    requires |binaryXored| == 48 && AllBits(binaryXored) && j < 8
  {
    Nibble(SBoxLookup(t, SBoxInput(binaryXored, j), j))
  }

  function SBoxNibbleAt(t: ShapedTables, binaryXored: string): nat --> string
    requires |binaryXored| == 48 && AllBits(binaryXored)
  {
    (j: nat) requires j < 8 => SBoxNibble(t, binaryXored, j)
  }

  /** `sboxBinaryOutput` after the first n chunks. */
  function SBoxBits(t: ShapedTables, binaryXored: string, n: nat): (out: string)
    requires |binaryXored| == 48 && AllBits(binaryXored) && n <= 8
    ensures |out| == 4 * n && AllBits(out)
  {
    var parts := Tabulate(SBoxNibbleAt(t, binaryXored), n);
    FlattenLength(parts);
    FlattenAll(parts, IsBit);
    Flatten(parts)
  }

  /** Output bits 4j .. 4j+3 are S-box j applied to input bits 6j .. 6j+5. */
  lemma SBoxBitsChunk(t: ShapedTables, binaryXored: string, j: nat)
    requires |binaryXored| == 48 && AllBits(binaryXored) && j < 8
    ensures SBoxBits(t, binaryXored, 8)[4 * j .. 4 * j + 4]
      == Nibble(SBoxLookup(t, binaryXored[6 * j .. 6 * j + 6], j))
  {
    FlattenChunk(Tabulate(SBoxNibbleAt(t, binaryXored), 8), j);
  }

  method SBoxLoop(t: ShapedTables, binaryXored: string) returns (sboxBinaryOutput: string)
    requires |binaryXored| == 48 && AllBits(binaryXored)
    ensures sboxBinaryOutput == SBoxBits(t, binaryXored, 8)
  {
    sboxBinaryOutput := "";
    for j := 0 to 8
      invariant sboxBinaryOutput == Flatten(Tabulate(SBoxNibbleAt(t, binaryXored), j))
    {
      var sboxInput := Substring(binaryXored, j * 6, (j + 1) * 6);
      assert sboxInput == SBoxInput(binaryXored, j);
      var row := BitsValue(CharAt(sboxInput, 0) + CharAt(sboxInput, 5));
      var col := BitsValue(Substring(sboxInput, 1, 5));
      Pow2UpToFour(4);
      assert t.sbox[j][row][col] == SBoxLookup(t, sboxInput, j);
      TabulateStep(SBoxNibbleAt(t, binaryXored), j);
      FlattenAppend(Tabulate(SBoxNibbleAt(t, binaryXored), j), Nibble(t.sbox[j][row][col]));
      sboxBinaryOutput := sboxBinaryOutput + Nibble(t.sbox[j][row][col]);
    }
  }

  /** `sboxOutput`: the eight S-box results as hexadecimal digits. */
  function SBoxOutput(t: ShapedTables, xoredWithKey: string): (out: string)
    requires |xoredWithKey| == 12 && AllHex(xoredWithKey)
    ensures |out| == 8 && AllUpperHex(out)
  {
    BinaryToHex(SBoxBits(t, HexToBinary(xoredWithKey), 8))
  }

  /** The round function f: expansion, key XOR, S-boxes and P-box. */
  function FResult(t: ShapedTables, R: string, key: string): (f: string)
    requires |R| == 8 && AllHex(R) && AllHex(key)
    ensures |f| == 8 && AllUpperHex(f)
  {
    PBox(t, SBoxOutput(t, PerformXor(Expand(t, R), key)))
  }

  /** Round i + 1 of the loop at lines 219-274 on the block `text`. */
  function RoundOf(t: ShapedTables, i: int, text: string, key: string): (r: RoundStep)
    requires IsBlock(text) && AllHex(key)
  {
    var L, R := text[..8], text[8..];
    var expandedR := Expand(t, R);
    var xoredWithKey := PerformXor(expandedR, key);
    var sboxOutput := SBoxOutput(t, xoredWithKey);
    var fResult := PBox(t, sboxOutput);
    var xorWithOldLeft := PerformXor(L, fResult);
    var isLastRound := i == 15;
    var nextL := if isLastRound then xorWithOldLeft else R;
    var nextR := if isLastRound then R else xorWithOldLeft;
    RoundStep(i + 1, L, R, key, expandedR, xoredWithKey, sboxOutput, fResult, xorWithOldLeft,
              nextL, nextR, !isLastRound)
  }

  /** The block after round i + 1, as a Feistel round (lines 245-256): f of the right
      half is XORed into the left half and the halves are swapped, except after the last
      round, which keeps them in place. */
  function NextBlock(t: ShapedTables, i: int, text: string, key: string): (r: string)
    requires IsBlock(text) && AllHex(key)
    ensures IsBlock(r) && (AllUpperHex(text) ==> AllUpperHex(r))
  {
    var x := PerformXor(text[..8], FResult(t, text[8..], key));
    if i == 15 then x + text[8..] else text[8..] + x
  }

  /** The halves a round reads (lines 220-221), its number, key and swap flag. */
  lemma RoundHalves(t: ShapedTables, i: int, text: string, key: string)
    requires IsBlock(text) && AllHex(key)
    ensures var r := RoundOf(t, i, text, key);
      r.L == text[..8] && r.R == text[8..] && r.round == i + 1 && r.key == key && r.swapped == (i != 15)
  {
  }

  /** The f value a round computes (lines 225-242) and what it XORs into L (line 245). */
  lemma RoundF(t: ShapedTables, i: int, text: string, key: string)
    requires IsBlock(text) && AllHex(key)
    ensures var r := RoundOf(t, i, text, key);
      r.fResult == FResult(t, text[8..], key) && r.xorWithOldLeft == PerformXor(text[..8], r.fResult)
  {
  }

  /** The halves a round records join into the next block (line 273). */
  lemma RoundNext(t: ShapedTables, i: int, text: string, key: string)
    requires IsBlock(text) && AllHex(key)
    ensures RoundOf(t, i, text, key).nextL + RoundOf(t, i, text, key).nextR == NextBlock(t, i, text, key)
  {
    RoundF(t, i, text, key);
  }

  method RoundLoop(t: ShapedTables, i: int, text: string, key: string) returns (r: RoundStep)
    requires IsBlock(text) && AllHex(key)
    ensures r == RoundOf(t, i, text, key)
  {
    var L := Substring(text, 0, 8);
    var R := Substring(text, 8, 16);
    assert L == text[..8] && R == text[8..];
    var expandedR := PermutationLoop(t.expansion, R);
    assert expandedR == Expand(t, R);
    var xoredWithKey := PerformXorLoop(expandedR, key);
    var binaryXored := HexToBinary(xoredWithKey);
    var sboxBinaryOutput := SBoxLoop(t, binaryXored);
    var sboxOutput := BinaryToHexLoop(sboxBinaryOutput);
    var fResult := PermutationLoop(t.pbox, sboxOutput);
    assert fResult == PBox(t, sboxOutput);
    var xorWithOldLeft := PerformXorLoop(L, fResult);
    var isLastRound := i == 15;
    var nextL, nextR;
    if isLastRound {
      nextL, nextR := xorWithOldLeft, R;
    } else {
      nextL, nextR := R, xorWithOldLeft;
    }
    r := RoundStep(i + 1, L, R, key, expandedR, xoredWithKey, sboxOutput, fResult, xorWithOldLeft,
                   nextL, nextR, !isLastRound);
  }

  /** `text` after the first n rounds, starting from the initial permutation `ip`. */
  function TextAfter(t: ShapedTables, ip: string, keys: seq<string>, n: nat): (r: string)
    requires IsBlock(ip) && n <= |keys| && AllHexKeys(keys)
    ensures IsBlock(r) && (AllUpperHex(ip) ==> AllUpperHex(r))
  {
    if n == 0 then ip else NextBlock(t, n - 1, TextAfter(t, ip, keys, n - 1), keys[n - 1])
  }

  /** Round i + 1 works on the text after i rounds, with key i. */
  function RoundNumber(t: ShapedTables, ip: string, keys: seq<string>, i: nat): RoundStep
    requires IsBlock(ip) && AllHexKeys(keys) && i < |keys|
  {
    RoundOf(t, i, TextAfter(t, ip, keys, i), keys[i])
  }

  function RoundAt(t: ShapedTables, ip: string, keys: seq<string>): nat --> RoundStep
    requires IsBlock(ip) && AllHexKeys(keys)
  {
    (i: nat) requires i < |keys| => RoundNumber(t, ip, keys, i)
  }

  /** `rounds`: the sixteen rounds. */
  function Rounds(t: ShapedTables, ip: string, keys: seq<string>): (rs: seq<RoundStep>)
    requires IsBlock(ip) && |keys| == 16 && AllHexKeys(keys)
    ensures |rs| == 16
  {
    Tabulate(RoundAt(t, ip, keys), 16)
  }

  /** Round i + 1 passes on the text after i + 1 rounds. */
  lemma TextAfterStep(t: ShapedTables, ip: string, keys: seq<string>, i: nat)
    requires IsBlock(ip) && i < |keys| && AllHexKeys(keys)
    ensures TextAfter(t, ip, keys, i + 1) == NextBlock(t, i, TextAfter(t, ip, keys, i), keys[i])
  {
  }

  /** What one more round adds to the rounds. */
  lemma RoundsStep(t: ShapedTables, ip: string, keys: seq<string>, i: nat)
    requires IsBlock(ip) && i < |keys| && AllHexKeys(keys)
    ensures Tabulate(RoundAt(t, ip, keys), i + 1)
      == Tabulate(RoundAt(t, ip, keys), i) + [RoundNumber(t, ip, keys, i)]
  {
    TabulateStep(RoundAt(t, ip, keys), i);
  }

  /** The loop of lines 219-274. */
  method RoundsLoop(t: ShapedTables, ip: string, keys: seq<string>) returns (rounds: seq<RoundStep>, text: string)
    requires IsBlock(ip) && |keys| == 16 && AllHexKeys(keys)
    ensures rounds == Rounds(t, ip, keys) && text == TextAfter(t, ip, keys, 16)
  {
    text, rounds := ip, [];
    for i := 0 to 16
      invariant text == TextAfter(t, ip, keys, i) && rounds == Tabulate(RoundAt(t, ip, keys), i)
    {
      var r := RoundLoop(t, i, text, keys[i]);
      RoundsStep(t, ip, keys, i);
      RoundNext(t, i, text, keys[i]);
      rounds := rounds + [r];
      text := r.nextL + r.nextR;
    }
  }

  // ---- the whole trace ----

  /** `pc1KeyBinary` (line 190): the 56 key bits PC-1 keeps. */
  function KeyBits(t: ShapedTables, hexKey: string): (b: string)
    requires IsBlock(hexKey)
    ensures |b| == 56 && AllBits(b)
  {
    HexToBinary(Pc1(t, hexKey))
  }

  /** `subkeys` (lines 192-209): the sixteen round keys. */
  function KeysOf(t: ShapedTables, hexKey: string): (keys: seq<string>)
    requires IsBlock(hexKey)
    ensures |keys| == 16 && AllHexKeys(keys)
  {
    Subkeys(t, KeyBits(t, hexKey));
    SubkeysOf(SubkeySteps(t, KeyBits(t, hexKey)))
  }

  /** `activeSubkeys` (line 211): the round keys in the order the rounds use them. */
  function ActiveKeys(t: ShapedTables, hexKey: string, decrypt: bool): (keys: seq<string>)
    requires IsBlock(hexKey)
    ensures |keys| == 16 && AllHexKeys(keys)
  {
    if decrypt then Reversed(KeysOf(t, hexKey)) else KeysOf(t, hexKey)
  }

  /** The recorded computation of lines 186-286 on two valid blocks. */
  function BlockTrace(t: ShapedTables, hexText: string, hexKey: string, decrypt: bool): (b: Breakdown)
    requires IsBlock(hexText) && IsBlock(hexKey)
  {
    Breakdown(Pc1(t, hexKey), KeyBits(t, hexKey), SubkeySteps(t, KeyBits(t, hexKey)), KeysOf(t, hexKey),
              Rounds(t, Ip(t, hexText), ActiveKeys(t, hexKey, decrypt)), Ip(t, hexText),
              Ip1(t, TextAfter(t, Ip(t, hexText), ActiveKeys(t, hexKey, decrypt), 16)))
  }

  /** `getDESSteps` over the tables `t`. */
  function Trace(t: ShapedTables, hexText: string, hexKey: string, decrypt: bool): (r: Result<Breakdown, DesError>)
    ensures r.Err? <==> !IsBlock(hexKey) || !IsBlock(hexText)
    ensures r == Err(KeyNotBlock) <==> !IsBlock(hexKey)
  {
    if !IsBlock(hexKey) then Err(KeyNotBlock)
    else if !IsBlock(hexText) then Err(TextNotBlock)
    else Ok(BlockTrace(t, hexText, hexKey, decrypt))
  }

  /** `getDESSteps(hexText, hexKey, decrypt)` with the published tables. */
  function DesSteps(hexText: string, hexKey: string, decrypt: bool): (r: Result<Breakdown, DesError>)
    ensures r.Err? <==> !IsBlock(hexKey) || !IsBlock(hexText)
    ensures r == Err(KeyNotBlock) <==> !IsBlock(hexKey)
  {
    StandardShaped();
    Trace(STANDARD, hexText, hexKey, decrypt)
  }

  /** Lines 189-211: PC-1, the key schedule and the keys in the order of use. */
  method KeyPhase(t: ShapedTables, hexKey: string, decrypt: bool)
    returns (pc1Key: string, pc1KeyBinary: string, subkeySteps: seq<SubkeyStep>, subkeys: seq<string>,
             activeSubkeys: seq<string>)
    requires IsBlock(hexKey)
    ensures pc1Key == Pc1(t, hexKey) && pc1KeyBinary == KeyBits(t, hexKey)
    ensures subkeySteps == SubkeySteps(t, pc1KeyBinary) && subkeys == KeysOf(t, hexKey)
    ensures activeSubkeys == ActiveKeys(t, hexKey, decrypt)
  {
    pc1Key := PermutationLoop(t.pc1, hexKey);
    assert pc1Key == Pc1(t, hexKey);
    pc1KeyBinary := HexToBinary(pc1Key);
    subkeySteps, subkeys := KeySchedule(t, pc1KeyBinary);
    activeSubkeys := if decrypt then Reversed(subkeys) else subkeys;
  }

  /** Lines 214-276: the initial permutation, the rounds and the final permutation. */
  method BlockPhase(t: ShapedTables, hexText: string, keys: seq<string>)
    returns (initialPermutation: string, rounds: seq<RoundStep>, finalPermutation: string)
    requires IsBlock(hexText) && |keys| == 16 && AllHexKeys(keys)
    ensures initialPermutation == Ip(t, hexText) && rounds == Rounds(t, initialPermutation, keys)
    ensures finalPermutation == Ip1(t, TextAfter(t, initialPermutation, keys, 16))
  {
    var text := PermutationLoop(t.ip, hexText);
    assert text == Ip(t, hexText);
    initialPermutation := text;
    rounds, text := RoundsLoop(t, text, keys);
    finalPermutation := PermutationLoop(t.ip1, text);
    assert finalPermutation == Ip1(t, text);
  }

  method GetTrace(t: ShapedTables, hexText: string, hexKey: string, decrypt: bool) returns (r: Result<Breakdown, DesError>)
    ensures r == Trace(t, hexText, hexKey, decrypt)
  {
    if !IsBlock(hexKey) {
      return Err(KeyNotBlock);
    }
    if !IsBlock(hexText) {
      return Err(TextNotBlock);
    }
    var pc1Key, pc1KeyBinary, subkeySteps, subkeys, activeSubkeys := KeyPhase(t, hexKey, decrypt);
    var initialPermutation, rounds, finalPermutation := BlockPhase(t, hexText, activeSubkeys);
    r := Ok(Breakdown(pc1Key, pc1KeyBinary, subkeySteps, subkeys, rounds,
                      initialPermutation, finalPermutation));
  }

  /** `getDESSteps` (lines 177-287), reading the published tables. */
  method GetDesSteps(hexText: string, hexKey: string, decrypt: bool) returns (r: Result<Breakdown, DesError>)
    ensures r == DesSteps(hexText, hexKey, decrypt)
  {
    StandardShaped();
    r := GetTrace(STANDARD, hexText, hexKey, decrypt);
  }

  // ---- decryption undoes encryption ----

  /** The new right half of lines 225-245, L xor f(R, key), for a hexadecimal key and
      halves of eight digits, L in upper case as every round's L is; other arguments,
      which no round passes, give L back. */
  function MixValue(t: ShapedTables, key: string, L: string, R: string): string
  {
    if AllHex(key) && |L| == 8 && AllUpperHex(L) && |R| == 8 && AllHex(R) then PerformXor(L, FResult(t, R, key)) else L
  }

  /** XOR with f(R, key) keeps the length of L and undoes itself. */
  lemma MixValueTwice(t: ShapedTables, key: string, L: string, R: string)
    ensures |MixValue(t, key, L, R)| == |L|
    ensures MixValue(t, key, MixValue(t, key, L, R), R) == L
  {
    if AllHex(key) && |L| == 8 && AllUpperHex(L) && |R| == 8 && AllHex(R) {
      var f := FResult(t, R, key);
      UpperHexIsHex(f);
      UpperHexIsHex(L);
      XorCancel(L, f);
    }
  }

  /** The DES combining step as a function of the key and the halves. */
  function Mixer(t: ShapedTables): (g: (string, string, string) -> string)
    ensures IsMixer(g)
  {
    forall key: string, L: string, R: string
      ensures MixValue(t, key, MixValue(t, key, L, R), R) == L
    {
      MixValueTwice(t, key, L, R);
    }
    (key: string, L: string, R: string) => MixValue(t, key, L, R)
  }

  /** A block cut into its halves (lines 220-221). */
  function Split(x: string): Halves
    requires |x| == 16
  {
    Halves(x[..8], x[8..])
  }

  /** The halves put back together (line 273). */
  function Join(h: Halves): string
  {
    h.L + h.R
  }

  /** Cutting a block and joining the halves gives the block. */
  lemma JoinSplit(x: string)
    requires |x| == 16
    ensures Join(Split(x)) == x
  {
    assert x == x[..8] + x[8..];
  }

  /** Joining halves of eight digits and cutting the block gives the halves. */
  lemma SplitJoin(h: Halves)
    requires |h.L| == 8 && |h.R| == 8
    ensures |Join(h)| == 16 && Split(Join(h)) == h
  {
    assert (h.L + h.R)[..8] == h.L && (h.L + h.R)[8..] == h.R;
  }

  /** A round on an upper-case block is a Feistel round on its halves, followed for
      round 16 by exchanging them back. */
  lemma RoundIsFeistel(t: ShapedTables, i: int, text: string, key: string)
    requires IsBlock(text) && AllUpperHex(text) && AllHex(key)
    ensures var h := FeistelRound(Mixer(t), key, Split(text));
      NextBlock(t, i, text, key) == if i == 15 then Join(Swap(h)) else Join(h)
  {
    assert AllUpperHex(text[..8]) && AllHex(text[8..]);
  }

  /** An upper-case block and sixteen hexadecimal keys: what the rounds start from. */
  predicate RoundsInput(ip: string, keys: seq<string>)
  {
    IsBlock(ip) && AllUpperHex(ip) && |keys| == 16 && AllHexKeys(keys)
  }

  /** The halves of the text after i rounds; those after round 16 exchanged back, as a
      Feistel network leaves them. */
  function HalvesAt(t: ShapedTables, ip: string, keys: seq<string>, i: nat): Halves
  {
    if RoundsInput(ip, keys) && i <= 16 then
      var h := Split(TextAfter(t, ip, keys, i));
      if i == 16 then Swap(h) else h
    else Halves("", "")
  }

  function HalvesChain(t: ShapedTables, ip: string, keys: seq<string>): nat -> Halves
  {
    (i: nat) => HalvesAt(t, ip, keys, i)
  }

  /** Round i + 1 is a Feistel round on the halves. */
  lemma HalvesStep(t: ShapedTables, ip: string, keys: seq<string>, i: nat)
    requires RoundsInput(ip, keys) && i < 16
    ensures HalvesAt(t, ip, keys, i + 1) == FeistelRound(Mixer(t), keys[i], HalvesAt(t, ip, keys, i))
  {
    var x := TextAfter(t, ip, keys, i);
    var h := FeistelRound(Mixer(t), keys[i], Split(x));
    RoundIsFeistel(t, i, x, keys[i]);
    MixValueTwice(t, keys[i], x[..8], x[8..]);
    SplitJoin(h);
    SplitJoin(Swap(h));
  }

  /** The halves after each round form a chain of Feistel rounds. */
  lemma HalvesAreChain(t: ShapedTables, ip: string, keys: seq<string>)
    requires RoundsInput(ip, keys)
    ensures IsChain(Mixer(t), keys, HalvesChain(t, ip, keys), 16)
  {
    forall i | 0 <= i < 16
      ensures HalvesChain(t, ip, keys)(i + 1) == FeistelRound(Mixer(t), keys[i], HalvesChain(t, ip, keys)(i))
    {
      HalvesStep(t, ip, keys, i);
    }
  }

  /** Blocks with the same halves are the same block. */
  lemma SplitInjective(x: string, z: string)
    requires |x| == 16 && |z| == 16 && Split(x) == Split(z)
    ensures x == z
  {
    JoinSplit(x);
    JoinSplit(z);
  }

  /** The keys in reverse order are hexadecimal when the keys are. */
  lemma ReversedHexKeys(keys: seq<string>)
    requires AllHexKeys(keys)
    ensures AllHexKeys(Reversed(keys))
  {
  }

  /** The halves left by sixteen rounds with the keys reversed, run on the halves the
      rounds with the keys left, are the exchanged halves the latter started from. */
  lemma HalvesUndone(t: ShapedTables, ip: string, keys: seq<string>, y: string, rev: seq<string>)
    requires RoundsInput(ip, keys) && rev == Reversed(keys) && RoundsInput(y, rev)
    requires y == TextAfter(t, ip, keys, 16)
    ensures HalvesAt(t, y, rev, 16) == Swap(HalvesAt(t, ip, keys, 0))
  {
    HalvesAreChain(t, ip, keys);
    HalvesAreChain(t, y, rev);
    ChainUndone(Mixer(t), keys, rev, HalvesChain(t, ip, keys), HalvesChain(t, y, rev));
  }

  /** The sixteen rounds run again with the keys in reverse order give back the upper-case
      block they started from. */
  lemma RoundsUndone(t: ShapedTables, ip: string, keys: seq<string>)
    requires IsBlock(ip) && AllUpperHex(ip) && |keys| == 16 && AllHexKeys(keys)
    ensures AllHexKeys(Reversed(keys))
    ensures TextAfter(t, TextAfter(t, ip, keys, 16), Reversed(keys), 16) == ip
  {
    var rev := Reversed(keys);
    ReversedHexKeys(keys);
    var y := TextAfter(t, ip, keys, 16);
    HalvesUndone(t, ip, keys, y, rev);
    SplitInjective(TextAfter(t, y, rev, 16), ip);
  }

  // ---- the whole cipher undone ----

  /** The rounds and permutations run with the keys reversed on a cipher block give back
      the block enciphered, in upper case. */
  lemma CipherUndone(t: ShapedTables, x: string, keys: seq<string>, rev: seq<string>)
    requires Inverses(t) && IsBlock(x) && |keys| == 16 && AllHexKeys(keys)
    requires rev == Reversed(keys) && AllHexKeys(rev)
    ensures Ip1(t, TextAfter(t, Ip(t, Ip1(t, TextAfter(t, Ip(t, x), keys, 16))), rev, 16)) == ToUpper(x)
  {
    var y := TextAfter(t, Ip(t, x), keys, 16);
    IpUndone(t, y);
    UpperHexIsHex(y);
    RoundsUndone(t, Ip(t, x), keys);
    IpUndone(t, x);
  }

  /** Decrypting with the same key undoes encrypting, and encrypting undoes decrypting:
      the final permutation of the one, fed to the other, comes back as the block the
      first started from, in upper case. */
  lemma BlockTraceUndone(t: ShapedTables, x: string, k: string, decrypt: bool)
    requires Inverses(t) && IsBlock(x) && IsBlock(k)
    ensures IsBlock(BlockTrace(t, x, k, decrypt).finalPermutation)
    ensures BlockTrace(t, BlockTrace(t, x, k, decrypt).finalPermutation, k, !decrypt).finalPermutation == ToUpper(x)
  {
    var keys := ActiveKeys(t, k, decrypt);
    ReversedTwice(KeysOf(t, k));
    assert ActiveKeys(t, k, !decrypt) == Reversed(keys);
    CipherUndone(t, x, keys, ActiveKeys(t, k, !decrypt));
  }

  /** `getDESSteps` with the published tables: what one direction outputs on valid
      inputs, the other direction turns back into the input block in upper case. */
  lemma DesStepsUndone(hexText: string, hexKey: string, decrypt: bool)
    requires DesSteps(hexText, hexKey, decrypt).Ok?
    ensures var c := DesSteps(hexText, hexKey, decrypt).value.finalPermutation;
      DesSteps(c, hexKey, !decrypt).Ok? && DesSteps(c, hexKey, !decrypt).value.finalPermutation == ToUpper(hexText)
  {
    StandardShaped();
    BlockTraceUndone(STANDARD, hexText, hexKey, decrypt);
  }

  // ---- the shape of the trace ----

  /** Round i + 1 of the trace is numbered i + 1, reads the halves of the text after i
      rounds, uses the i-th key in the order of use, and swaps its halves unless it is
      the last round (lines 219-274). */
  lemma TraceRound(t: ShapedTables, hexText: string, hexKey: string, decrypt: bool, i: nat)
    requires IsBlock(hexText) && IsBlock(hexKey) && i < 16
    ensures var b := BlockTrace(t, hexText, hexKey, decrypt);
      var text := TextAfter(t, b.initialPermutation, ActiveKeys(t, hexKey, decrypt), i);
      |b.rounds| == 16 && b.rounds[i].round == i + 1 && b.rounds[i].key == ActiveKeys(t, hexKey, decrypt)[i]
      && b.rounds[i].L == text[..8] && b.rounds[i].R == text[8..] && b.rounds[i].swapped == (i != 15)
  {
    var ip := Ip(t, hexText);
    var keys := ActiveKeys(t, hexKey, decrypt);
    TraceRoundIs(t, hexText, hexKey, decrypt, i);
    RoundHalves(t, i, TextAfter(t, ip, keys, i), keys[i]);
  }

  /** Round i + 1 of the trace is the round computed on the text after i rounds. */
  lemma TraceRoundIs(t: ShapedTables, hexText: string, hexKey: string, decrypt: bool, i: nat)
    requires IsBlock(hexText) && IsBlock(hexKey) && i < 16
    ensures |BlockTrace(t, hexText, hexKey, decrypt).rounds| == 16
    ensures BlockTrace(t, hexText, hexKey, decrypt).rounds[i]
      == RoundOf(t, i, TextAfter(t, Ip(t, hexText), ActiveKeys(t, hexKey, decrypt), i), ActiveKeys(t, hexKey, decrypt)[i])
  {
    var ip := Ip(t, hexText);
    var keys := ActiveKeys(t, hexKey, decrypt);
    assert RoundAt(t, ip, keys)(i) == RoundNumber(t, ip, keys, i);
  }

  /** Rounds 1-15 pass on (R, L xor f) and report a swap; round 16 passes on
      (L xor f, R) and reports none (lines 245-271). */
  lemma RoundSwapped(t: ShapedTables, i: int, text: string, key: string)
    requires IsBlock(text) && AllHex(key)
    ensures var r := RoundOf(t, i, text, key);
      var x := PerformXor(r.L, FResult(t, r.R, key));
      |r.nextL| == 8 && |r.nextR| == 8 && r.swapped == (i != 15)
      && (if i == 15 then r.nextL == x && r.nextR == r.R else r.nextL == r.R && r.nextR == x)
  {
    RoundF(t, i, text, key);
  }

  /** Each round reads the halves the round before passed on (lines 219-221, 273). */
  lemma TraceThreads(t: ShapedTables, hexText: string, hexKey: string, decrypt: bool, i: nat, j: nat)
    requires IsBlock(hexText) && IsBlock(hexKey) && i + 1 == j < 16
    ensures var rs := BlockTrace(t, hexText, hexKey, decrypt).rounds;
      |rs| == 16 && rs[j].L == rs[i].nextL && rs[j].R == rs[i].nextR
  {
    var ip := Ip(t, hexText);
    var keys := ActiveKeys(t, hexKey, decrypt);
    var x := TextAfter(t, ip, keys, i);
    TraceRoundIs(t, hexText, hexKey, decrypt, i);
    TraceRoundIs(t, hexText, hexKey, decrypt, j);
    RoundSwapped(t, i, x, keys[i]);
    RoundNext(t, i, x, keys[i]);
    TextAfterStep(t, ip, keys, i);
    Halve(RoundOf(t, i, x, keys[i]).nextL, RoundOf(t, i, x, keys[i]).nextR);
  }

  /** Two strings of eight characters are the halves of their concatenation. */
  lemma Halve(a: string, b: string)
    requires |a| == 8 && |b| == 8
    ensures (a + b)[..8] == a && (a + b)[8..] == b
  {
  }

  /** `finalPermutation` is IP-1 of the halves round 16 passes on (line 276). */
  lemma TraceFinal(t: ShapedTables, hexText: string, hexKey: string, decrypt: bool)
    requires IsBlock(hexText) && IsBlock(hexKey)
    ensures var b := BlockTrace(t, hexText, hexKey, decrypt);
      |b.rounds| == 16 && IsBlock(b.rounds[15].nextL + b.rounds[15].nextR)
      && b.finalPermutation == Ip1(t, b.rounds[15].nextL + b.rounds[15].nextR)
  {
    var ip := Ip(t, hexText);
    var keys := ActiveKeys(t, hexKey, decrypt);
    TraceRoundIs(t, hexText, hexKey, decrypt, 15);
    RoundNext(t, 15, TextAfter(t, ip, keys, 15), keys[15]);
    TextAfterStep(t, ip, keys, 15);
  }

  /** Decryption runs the rounds with the encryption keys in reverse order (line 211). */
  lemma DecryptKeys(t: ShapedTables, hexKey: string)
    requires IsBlock(hexKey)
    ensures ActiveKeys(t, hexKey, false) == KeysOf(t, hexKey)
    ensures ActiveKeys(t, hexKey, true) == Reversed(ActiveKeys(t, hexKey, false))
  {
  }
}
