/** `getAESSteps` (src/lib/ciphers/aes-steps.ts:212-350): one AES-128 block, with the key
    schedule and every round recorded for display, both directions of FIPS 197
    (sections 5.1 and 5.3). The recorded states are the source's grids of two-digit
    upper-case hex strings, `StateText` of the byte states the model computes with. */
module Aes {
  import opened Wrappers
  import opened JsText
  import opened AesBytes
  import opened AesState
  import opened AesKey

  /** The two errors thrown at lines 213-218, key first. */
  datatype AesError = KeyNotBlock | TextNotBlock

  /** A state as the source holds it: four rows of four two-digit strings. */
  type Grid = seq<seq<string>>

  datatype EncryptionRound = EncryptionRound(round: int, inputState: Grid, afterSubBytes: Grid,
                                             afterShiftRows: Grid, afterMixColumns: Option<Grid>,
                                             afterAddRoundKey: Grid, roundKey: string)

  datatype DecryptionRound = DecryptionRound(round: int, inputState: Grid, afterInvShiftRows: Grid,
                                             afterInvSubBytes: Grid, afterAddRoundKey: Grid,
                                             afterInvMixColumns: Option<Grid>, roundKey: string)

  datatype Action = Encrypt | Decrypt

  datatype Breakdown = Breakdown(initialState: Grid, wordSteps: seq<WordStep>, subKeys: seq<string>,
                                 encryptionRounds: Option<seq<EncryptionRound>>,
                                 decryptionRounds: Option<seq<DecryptionRound>>,
                                 finalOutput: string, action: Action)

  /** Eleven round keys of 32 hex digits. */
  predicate IsSchedule(keys: seq<string>) { |keys| == 11 && AllKeys(keys) }

  // ---- encryption ----

  /** Encryption round i (lines 319-329): SubBytes, ShiftRows, MixColumns except in
      round 10, and the round key. */
  function EncryptRound(s: State, keys: seq<string>, i: int): (t: State)
    requires IsState(s) && IsSchedule(keys) && 1 <= i <= 10
    ensures IsState(t)
  {
    var shifted := ShiftRows(SubBytes(s));
    AddRoundKey(if i < 10 then MixColumns(shifted) else shifted, keys[i])
  }

  /** `currentState` after encryption round i, round 0 being the first AddRoundKey
      (line 316). */
  function EncryptedState(b: State, keys: seq<string>, i: nat): (s: State)
    requires IsState(b) && IsSchedule(keys) && i <= 10
    ensures IsState(s)
  {
    if i == 0 then AddRoundKey(b, keys[0]) else EncryptRound(EncryptedState(b, keys, i - 1), keys, i)
  }

  /** The record of encryption round i on input s (lines 331-339). */
  function EncryptionRecord(s: State, keys: seq<string>, i: int): (r: EncryptionRound)
    requires IsState(s) && IsSchedule(keys) && 1 <= i <= 10
  {
    var afterSubBytes := SubBytes(s);
    var afterShiftRows := ShiftRows(afterSubBytes);
    EncryptionRound(i, StateText(s), StateText(afterSubBytes), StateText(afterShiftRows),
                    if i < 10 then Some(StateText(MixColumns(afterShiftRows))) else None,
                    StateText(EncryptRound(s, keys, i)), keys[i])
  }

  function EncryptionRounds(b: State, keys: seq<string>): (rs: seq<EncryptionRound>)
    requires IsState(b) && IsSchedule(keys)
    ensures |rs| == 10
  {
    seq(10, j requires 0 <= j < 10 => EncryptionRecord(EncryptedState(b, keys, j), keys, j + 1))
  }

  // ---- decryption ----

  /** Decryption round j (lines 270-275 for rounds 1 to 9, 289-293 for round 10):
      InvShiftRows, InvSubBytes, round key 10 - j, and InvMixColumns except in round 10. */
  function DecryptRound(s: State, keys: seq<string>, j: int): (t: State)
    requires IsState(s) && IsSchedule(keys) && 1 <= j <= 10
    ensures IsState(t)
  {
    var added := AddRoundKey(InvSubBytes(InvShiftRows(s)), keys[10 - j]);
    if j < 10 then InvMixColumns(added) else added
  }

  /** `currentState` after decryption round j, round 0 being the first AddRoundKey
      (line 266). */
  function DecryptedState(b: State, keys: seq<string>, j: nat): (s: State)
    requires IsState(b) && IsSchedule(keys) && j <= 10
    ensures IsState(s)
  {
    if j == 0 then AddRoundKey(b, keys[10]) else DecryptRound(DecryptedState(b, keys, j - 1), keys, j)
  }

  /** The record of decryption round j on input s (lines 277-285, 295-302). */
  function DecryptionRecord(s: State, keys: seq<string>, j: int): (r: DecryptionRound)
    requires IsState(s) && IsSchedule(keys) && 1 <= j <= 10
  {
    var afterInvShiftRows := InvShiftRows(s);
    var afterInvSubBytes := InvSubBytes(afterInvShiftRows);
    var afterAddRoundKey := AddRoundKey(afterInvSubBytes, keys[10 - j]);
    DecryptionRound(j, StateText(s), StateText(afterInvShiftRows), StateText(afterInvSubBytes),
                    StateText(afterAddRoundKey),
                    if j < 10 then Some(StateText(InvMixColumns(afterAddRoundKey))) else None,
                    keys[10 - j])
  }

  function DecryptionRounds(b: State, keys: seq<string>): (rs: seq<DecryptionRound>)
    requires IsState(b) && IsSchedule(keys)
    ensures |rs| == 10
  {
    seq(10, j requires 0 <= j < 10 => DecryptionRecord(DecryptedState(b, keys, j), keys, j + 1))
  }

  // ---- getAESSteps ----

  /** The breakdown of a block b under the round keys and the key expansion steps of
      a key. */
  function Trace(b: State, keys: seq<string>, steps: seq<WordStep>, decrypt: bool): (t: Breakdown)
    requires IsState(b) && IsSchedule(keys)
  {
    if decrypt then
      Breakdown(StateText(b), steps, keys, None, Some(DecryptionRounds(b, keys)),
                StateToBlock(DecryptedState(b, keys, 10)), Decrypt)
    else
      Breakdown(StateText(b), steps, keys, Some(EncryptionRounds(b, keys)), None,
                StateToBlock(EncryptedState(b, keys, 10)), Encrypt)
  }

  /** The breakdown of a valid key and block (lines 220-350). */
  function BlockTrace(hexText: string, hexKey: string, decrypt: bool): (b: Breakdown)
    requires IsBlock(hexText) && IsBlock(hexKey)
  {
    Trace(BlockToState(hexText), RoundKeys(hexKey), Steps(hexKey, 44), decrypt)
  }

  /** `getAESSteps(hexText, hexKey, decrypt)`: the key is checked first, then the block. */
  function AesSteps(hexText: string, hexKey: string, decrypt: bool): (r: Result<Breakdown, AesError>)
    ensures r.Err? <==> !IsBlock(hexKey) || !IsBlock(hexText)
    ensures r == Err(KeyNotBlock) <==> !IsBlock(hexKey)
  {
    if !IsBlock(hexKey) then Err(KeyNotBlock)
    else if !IsBlock(hexText) then Err(TextNotBlock)
    else Ok(BlockTrace(hexText, hexKey, decrypt))
  }

  /** One encryption round as the source runs it (lines 319-339). */
  method EncryptStep(state: State, keys: seq<string>, i: int) returns (record: EncryptionRound, next: State)
    requires IsState(state) && IsSchedule(keys) && 1 <= i <= 10
    ensures record == EncryptionRecord(state, keys, i) && next == EncryptRound(state, keys, i)
  {
    var inputState := state;
    var afterSubBytes := SubBytes(inputState);
    var afterShiftRows := ShiftRowsLoop(afterSubBytes);
    var afterMixColumns: Option<Grid> := None;
    if i < 10 {
      var mixed := MixColumnsLoop(afterShiftRows);
      afterMixColumns := Some(StateText(mixed));
      next := AddRoundKeyLoop(mixed, keys[i]);
    } else {
      next := AddRoundKeyLoop(afterShiftRows, keys[i]);
    }
    record := EncryptionRound(i, StateText(inputState), StateText(afterSubBytes), StateText(afterShiftRows),
                              afterMixColumns, StateText(next), keys[i]);
  }

  /** Lines 314-344 as the source runs them: the first AddRoundKey, then ten rounds, each
      recorded. */
  method EncryptLoop(b: State, keys: seq<string>) returns (rounds: seq<EncryptionRound>, state: State)
    requires IsState(b) && IsSchedule(keys)
    ensures rounds == EncryptionRounds(b, keys) && state == EncryptedState(b, keys, 10)
  {
    hide EncryptionRecord, EncryptRound, AddRoundKey;
    state := AddRoundKeyLoop(b, keys[0]);
    rounds := [];
    for i := 1 to 11
      invariant IsState(state) && state == EncryptedState(b, keys, i - 1)
      invariant rounds == EncryptionRounds(b, keys)[..i - 1]
    {
      var record;
      record, state := EncryptStep(state, keys, i);
      EncryptionPrefix(b, keys, i);
      rounds := rounds + [record];
    }
  }

  lemma EncryptionPrefix(b: State, keys: seq<string>, i: int)
    requires IsState(b) && IsSchedule(keys) && 1 <= i <= 10
    ensures EncryptionRounds(b, keys)[..i]
      == EncryptionRounds(b, keys)[..i - 1] + [EncryptionRecord(EncryptedState(b, keys, i - 1), keys, i)]
  {
    hide EncryptionRecord, EncryptedState;
    assert EncryptionRounds(b, keys)[..i] == EncryptionRounds(b, keys)[..i - 1] + [EncryptionRounds(b, keys)[i - 1]];
  }

  /** One of the first nine decryption rounds as the source runs it (lines 270-285), or
      the final round (lines 289-302). */
  method DecryptStep(state: State, keys: seq<string>, j: int) returns (record: DecryptionRound, next: State)
    requires IsState(state) && IsSchedule(keys) && 1 <= j <= 10
    ensures record == DecryptionRecord(state, keys, j) && next == DecryptRound(state, keys, j)
  {
    var inputState := state;
    var afterInvShiftRows := InvShiftRowsLoop(inputState);
    var afterInvSubBytes := InvSubBytes(afterInvShiftRows);
    var afterAddRoundKey := AddRoundKeyLoop(afterInvSubBytes, keys[10 - j]);
    if j < 10 {
      var afterInvMixColumns := InvMixColumnsLoop(afterAddRoundKey);
      next := afterInvMixColumns;
      record := DecryptionRound(j, StateText(inputState), StateText(afterInvShiftRows),
                                StateText(afterInvSubBytes), StateText(afterAddRoundKey),
                                Some(StateText(afterInvMixColumns)), keys[10 - j]);
    } else {
      next := afterAddRoundKey;
      record := DecryptionRound(j, StateText(inputState), StateText(afterInvShiftRows),
                                StateText(afterInvSubBytes), StateText(afterAddRoundKey), None, keys[10 - j]);
    }
  }

  /** Lines 260-303 as the source runs them: the first AddRoundKey with the last round
      key, nine rounds with round keys 9 down to 1, and the final round with round key 0. */
  method DecryptLoop(b: State, keys: seq<string>) returns (rounds: seq<DecryptionRound>, state: State)
    requires IsState(b) && IsSchedule(keys)
    ensures rounds == DecryptionRounds(b, keys) && state == DecryptedState(b, keys, 10)
  {
    hide DecryptionRecord, DecryptRound, AddRoundKey;
    state := AddRoundKeyLoop(b, keys[10]);
    rounds := [];
    var i := 9;
    while i >= 1
      invariant 0 <= i <= 9 && IsState(state) && state == DecryptedState(b, keys, 9 - i)
      invariant rounds == DecryptionRounds(b, keys)[..9 - i]
    {
      var record;
      record, state := DecryptStep(state, keys, 10 - i);
      DecryptionPrefix(b, keys, 10 - i);
      rounds := rounds + [record];
      i := i - 1;
    }
    var record;
    record, state := DecryptStep(state, keys, 10);
    DecryptionPrefix(b, keys, 10);
    rounds := rounds + [record];
  }

  lemma DecryptionPrefix(b: State, keys: seq<string>, j: int)
    requires IsState(b) && IsSchedule(keys) && 1 <= j <= 10
    ensures DecryptionRounds(b, keys)[..j]
      == DecryptionRounds(b, keys)[..j - 1] + [DecryptionRecord(DecryptedState(b, keys, j - 1), keys, j)]
  {
    hide DecryptionRecord, DecryptedState;
    assert DecryptionRounds(b, keys)[..j] == DecryptionRounds(b, keys)[..j - 1] + [DecryptionRounds(b, keys)[j - 1]];
  }

  /** `getAESSteps` (lines 212-350) as the source runs it. */
  method GetAesSteps(hexText: string, hexKey: string, decrypt: bool) returns (r: Result<Breakdown, AesError>)
    ensures r == AesSteps(hexText, hexKey, decrypt)
  {
    if !IsBlock(hexKey) {
      return Err(KeyNotBlock);
    }
    if !IsBlock(hexText) {
      return Err(TextNotBlock);
    }
    var wordSteps, words := KeyExpansion(hexKey);
    var subKeys := SubKeysLoop(words);
    var initialState := BlockToStateLoop(hexText);
    if decrypt {
      var rounds, finalState := DecryptLoop(initialState, subKeys);
      var finalOutput := StateToBlockLoop(finalState);
      return Ok(Breakdown(StateText(initialState), wordSteps, subKeys, None, Some(rounds), finalOutput, Decrypt));
    }
    var rounds, finalState := EncryptLoop(initialState, subKeys);
    var finalOutput := StateToBlockLoop(finalState);
    r := Ok(Breakdown(StateText(initialState), wordSteps, subKeys, Some(rounds), None, finalOutput, Encrypt));
  }

  // ---- the shape of the breakdown ----

  /** Encryption round i + 1 of the breakdown: its number and key, and MixColumns left
      out of the last round only. */
  lemma EncryptionRoundShape(b: State, keys: seq<string>, i: int)
    requires IsState(b) && IsSchedule(keys) && 0 <= i < 10
    ensures var r := EncryptionRounds(b, keys)[i];
      r.round == i + 1 && r.roundKey == keys[i + 1] && (r.afterMixColumns.None? <==> i == 9)
  {
    hide SubBytes, ShiftRows, MixColumns, AddRoundKey, StateText, EncryptedState, EncryptRound;
  }

  /** Each encryption round takes the state the one before it left, the first the
      block after the initial AddRoundKey. */
  lemma EncryptionRoundsChain(b: State, keys: seq<string>, i: int)
    requires IsState(b) && IsSchedule(keys) && 0 <= i < 10
    ensures EncryptionRounds(b, keys)[i].inputState ==
      if i == 0 then StateText(AddRoundKey(b, keys[0])) else EncryptionRounds(b, keys)[i - 1].afterAddRoundKey
  {
    hide SubBytes, ShiftRows, MixColumns, AddRoundKey, StateText, EncryptRound;
  }

  /** The output block of an encryption is the state its last round left. */
  lemma EncryptionOutput(b: State, keys: seq<string>)
    requires IsState(b) && IsSchedule(keys)
    ensures IsBlock(StateToBlock(EncryptedState(b, keys, 10)))
    ensures StateText(BlockToState(StateToBlock(EncryptedState(b, keys, 10)))) == EncryptionRounds(b, keys)[9].afterAddRoundKey
  {
    hide SubBytes, ShiftRows, MixColumns, AddRoundKey, StateText, StateToBlock, BlockToState;
    var e := EncryptedState(b, keys, 10);
    UpperHexIsHex(StateToBlock(e));
    StateRoundTrip(e);
  }

  /** Decryption round j + 1 of the breakdown: round key 9 - j, and InvMixColumns left
      out of the last round only. */
  lemma DecryptionRoundShape(b: State, keys: seq<string>, j: int)
    requires IsState(b) && IsSchedule(keys) && 0 <= j < 10
    ensures var r := DecryptionRounds(b, keys)[j];
      r.round == j + 1 && r.roundKey == keys[9 - j] && (r.afterInvMixColumns.None? <==> j == 9)
  {
    hide InvSubBytes, InvShiftRows, InvMixColumns, AddRoundKey, StateText, DecryptedState, DecryptRound;
  }

  /** Each decryption round takes the state the one before it left after
      InvMixColumns, the first the block after the initial AddRoundKey. */
  lemma DecryptionRoundsChain(b: State, keys: seq<string>, j: int)
    requires IsState(b) && IsSchedule(keys) && 0 <= j < 10
    ensures j == 0 ==> DecryptionRounds(b, keys)[j].inputState == StateText(AddRoundKey(b, keys[10]))
    ensures j > 0 ==> DecryptionRounds(b, keys)[j - 1].afterInvMixColumns == Some(DecryptionRounds(b, keys)[j].inputState)
  {
    hide InvSubBytes, InvShiftRows, InvMixColumns, AddRoundKey, StateText;
  }

  /** The output block of a decryption is the state its last round left. */
  lemma DecryptionOutput(b: State, keys: seq<string>)
    requires IsState(b) && IsSchedule(keys)
    ensures IsBlock(StateToBlock(DecryptedState(b, keys, 10)))
    ensures StateText(BlockToState(StateToBlock(DecryptedState(b, keys, 10)))) == DecryptionRounds(b, keys)[9].afterAddRoundKey
  {
    hide InvSubBytes, InvShiftRows, InvMixColumns, AddRoundKey, StateText, StateToBlock, BlockToState;
    var d := DecryptedState(b, keys, 10);
    UpperHexIsHex(StateToBlock(d));
    StateRoundTrip(d);
  }

  // ---- decryption undoes encryption ----

  /** Decryption round j meets the state encryption had after ShiftRows of round 10 - j. */
  lemma {:induction false} DecryptionRetraces(b: State, keys: seq<string>, j: nat)
    requires IsState(b) && IsSchedule(keys) && j <= 9
    ensures DecryptedState(EncryptedState(b, keys, 10), keys, j) == ShiftRows(SubBytes(EncryptedState(b, keys, 9 - j)))
  {
    hide ShiftRows, SubBytes, InvShiftRows, InvSubBytes, MixColumns, InvMixColumns, AddRoundKey;
    var p := EncryptedState(b, keys, 9 - j);
    if j == 0 {
      AddRoundKeyTwice(ShiftRows(SubBytes(p)), keys[10]);
    } else {
      DecryptionRetraces(b, keys, j - 1);
      var s := EncryptedState(b, keys, 10 - j);
      ShiftRowsUndone(SubBytes(s));
      SubBytesUndone(s);
      AddRoundKeyTwice(MixColumns(ShiftRows(SubBytes(p))), keys[10 - j]);
      MixColumnsUndone(ShiftRows(SubBytes(p)));
    }
  }

  /** The ten decryption rounds undo the ten encryption rounds with the same keys. */
  lemma DecryptionUndoesEncryption(b: State, keys: seq<string>)
    requires IsState(b) && IsSchedule(keys)
    ensures DecryptedState(EncryptedState(b, keys, 10), keys, 10) == b
  {
    hide ShiftRows, SubBytes, InvShiftRows, InvSubBytes, MixColumns, InvMixColumns, AddRoundKey;
    DecryptionRetraces(b, keys, 9);
    var s := EncryptedState(b, keys, 0);
    ShiftRowsUndone(SubBytes(s));
    SubBytesUndone(s);
    AddRoundKeyTwice(b, keys[0]);
  }

  // ---- encryption undoes decryption ----

  /** Encryption round i meets the state decryption had before InvMixColumns of
      round 10 - i, taken back through InvShiftRows and InvSubBytes. */
  lemma {:induction false} EncryptionRetraces(b: State, keys: seq<string>, i: nat)
    requires IsState(b) && IsSchedule(keys) && i <= 9
    ensures EncryptedState(DecryptedState(b, keys, 10), keys, i) == InvSubBytes(InvShiftRows(DecryptedState(b, keys, 9 - i)))
  {
    hide ShiftRows, SubBytes, InvShiftRows, InvSubBytes, MixColumns, InvMixColumns, AddRoundKey;
    var p := DecryptedState(b, keys, 9 - i);
    if i == 0 {
      AddRoundKeyTwice(InvSubBytes(InvShiftRows(p)), keys[0]);
    } else {
      EncryptionRetraces(b, keys, i - 1);
      var s := DecryptedState(b, keys, 10 - i);
      InvSubBytesUndone(InvShiftRows(s));
      InvShiftRowsUndone(s);
      var added := AddRoundKey(InvSubBytes(InvShiftRows(p)), keys[i]);
      InvMixColumnsUndone(added);
      AddRoundKeyTwice(InvSubBytes(InvShiftRows(p)), keys[i]);
    }
  }

  /** The ten encryption rounds undo the ten decryption rounds with the same keys. */
  lemma EncryptionUndoesDecryption(b: State, keys: seq<string>)
    requires IsState(b) && IsSchedule(keys)
    ensures EncryptedState(DecryptedState(b, keys, 10), keys, 10) == b
  {
    hide ShiftRows, SubBytes, InvShiftRows, InvSubBytes, MixColumns, InvMixColumns, AddRoundKey;
    EncryptionRetraces(b, keys, 9);
    var s := DecryptedState(b, keys, 0);
    InvSubBytesUndone(InvShiftRows(s));
    InvShiftRowsUndone(s);
    AddRoundKeyTwice(b, keys[10]);
  }

  /** AES-128 encryption of a block, undone by decryption with the same key. */
  lemma EncryptedBlockUndone(hexText: string, hexKey: string)
    requires IsBlock(hexText) && IsBlock(hexKey)
    ensures IsBlock(BlockTrace(hexText, hexKey, false).finalOutput)
    ensures BlockTrace(BlockTrace(hexText, hexKey, false).finalOutput, hexKey, true).finalOutput == ToUpper(hexText)
  {
    var keys := RoundKeys(hexKey);
    var b := BlockToState(hexText);
    var e := EncryptedState(b, keys, 10);
    hide EncryptedState, DecryptedState, RoundKeys, BlockToState, StateToBlock, EncryptionRounds, DecryptionRounds, Steps, StateText;
    UpperHexIsHex(StateToBlock(e));
    StateRoundTrip(e);
    DecryptionUndoesEncryption(b, keys);
    BlockRoundTrip(hexText);
  }

  /** AES-128 decryption of a block, undone by encryption with the same key. */
  lemma DecryptedBlockUndone(hexText: string, hexKey: string)
    requires IsBlock(hexText) && IsBlock(hexKey)
    ensures IsBlock(BlockTrace(hexText, hexKey, true).finalOutput)
    ensures BlockTrace(BlockTrace(hexText, hexKey, true).finalOutput, hexKey, false).finalOutput == ToUpper(hexText)
  {
    var keys := RoundKeys(hexKey);
    var b := BlockToState(hexText);
    var e := DecryptedState(b, keys, 10);
    hide EncryptedState, DecryptedState, RoundKeys, BlockToState, StateToBlock, EncryptionRounds, DecryptionRounds, Steps, StateText;
    UpperHexIsHex(StateToBlock(e));
    StateRoundTrip(e);
    EncryptionUndoesDecryption(b, keys);
    BlockRoundTrip(hexText);
  }

  /** What `getAESSteps` encrypts (decrypts), it decrypts (encrypts) with the same key
      back into the input block, in upper case. */
  lemma AesStepsUndone(hexText: string, hexKey: string, decrypt: bool)
    requires AesSteps(hexText, hexKey, decrypt).Ok?
    ensures var c := AesSteps(hexText, hexKey, decrypt).value.finalOutput;
      AesSteps(c, hexKey, !decrypt).Ok? && AesSteps(c, hexKey, !decrypt).value.finalOutput == ToUpper(hexText)
  {
    hide BlockTrace;
    if decrypt {
      DecryptedBlockUndone(hexText, hexKey);
    } else {
      EncryptedBlockUndone(hexText, hexKey);
    }
  }
}
