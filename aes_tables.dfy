/** The constant tables of the AES-128 trace engine (src/lib/ciphers/aes-steps.ts:50-92):
    the S-box and the inverse S-box of FIPS 197 (sections 5.1.1 and 5.3.2) and the round
    constants of the key schedule (section 5.2).

    The source writes each S-box entry as a two-digit upper-case hex string in a flat list
    of 256, sixteen to a line; here each line is a row of byte values, so entry `b` of the
    list is row `b >> 4`, column `b & 15`. */
module AesTables {
  import opened JsText
  import opened AesBytes

  /** `SBOX`, lines 50-67. */
  const SBoxRow0: seq<byte> := [0x63, 0x7C, 0x77, 0x7B, 0xF2, 0x6B, 0x6F, 0xC5, 0x30, 0x01, 0x67, 0x2B, 0xFE, 0xD7, 0xAB, 0x76]
  const SBoxRow1: seq<byte> := [0xCA, 0x82, 0xC9, 0x7D, 0xFA, 0x59, 0x47, 0xF0, 0xAD, 0xD4, 0xA2, 0xAF, 0x9C, 0xA4, 0x72, 0xC0]
  const SBoxRow2: seq<byte> := [0xB7, 0xFD, 0x93, 0x26, 0x36, 0x3F, 0xF7, 0xCC, 0x34, 0xA5, 0xE5, 0xF1, 0x71, 0xD8, 0x31, 0x15]
  const SBoxRow3: seq<byte> := [0x04, 0xC7, 0x23, 0xC3, 0x18, 0x96, 0x05, 0x9A, 0x07, 0x12, 0x80, 0xE2, 0xEB, 0x27, 0xB2, 0x75]
  const SBoxRow4: seq<byte> := [0x09, 0x83, 0x2C, 0x1A, 0x1B, 0x6E, 0x5A, 0xA0, 0x52, 0x3B, 0xD6, 0xB3, 0x29, 0xE3, 0x2F, 0x84]
  const SBoxRow5: seq<byte> := [0x53, 0xD1, 0x00, 0xED, 0x20, 0xFC, 0xB1, 0x5B, 0x6A, 0xCB, 0xBE, 0x39, 0x4A, 0x4C, 0x58, 0xCF]
  const SBoxRow6: seq<byte> := [0xD0, 0xEF, 0xAA, 0xFB, 0x43, 0x4D, 0x33, 0x85, 0x45, 0xF9, 0x02, 0x7F, 0x50, 0x3C, 0x9F, 0xA8]
  const SBoxRow7: seq<byte> := [0x51, 0xA3, 0x40, 0x8F, 0x92, 0x9D, 0x38, 0xF5, 0xBC, 0xB6, 0xDA, 0x21, 0x10, 0xFF, 0xF3, 0xD2]
  const SBoxRow8: seq<byte> := [0xCD, 0x0C, 0x13, 0xEC, 0x5F, 0x97, 0x44, 0x17, 0xC4, 0xA7, 0x7E, 0x3D, 0x64, 0x5D, 0x19, 0x73]
  const SBoxRow9: seq<byte> := [0x60, 0x81, 0x4F, 0xDC, 0x22, 0x2A, 0x90, 0x88, 0x46, 0xEE, 0xB8, 0x14, 0xDE, 0x5E, 0x0B, 0xDB]
  const SBoxRow10: seq<byte> := [0xE0, 0x32, 0x3A, 0x0A, 0x49, 0x06, 0x24, 0x5C, 0xC2, 0xD3, 0xAC, 0x62, 0x91, 0x95, 0xE4, 0x79]
  const SBoxRow11: seq<byte> := [0xE7, 0xC8, 0x37, 0x6D, 0x8D, 0xD5, 0x4E, 0xA9, 0x6C, 0x56, 0xF4, 0xEA, 0x65, 0x7A, 0xAE, 0x08]
  const SBoxRow12: seq<byte> := [0xBA, 0x78, 0x25, 0x2E, 0x1C, 0xA6, 0xB4, 0xC6, 0xE8, 0xDD, 0x74, 0x1F, 0x4B, 0xBD, 0x8B, 0x8A]
  const SBoxRow13: seq<byte> := [0x70, 0x3E, 0xB5, 0x66, 0x48, 0x03, 0xF6, 0x0E, 0x61, 0x35, 0x57, 0xB9, 0x86, 0xC1, 0x1D, 0x9E]
  const SBoxRow14: seq<byte> := [0xE1, 0xF8, 0x98, 0x11, 0x69, 0xD9, 0x8E, 0x94, 0x9B, 0x1E, 0x87, 0xE9, 0xCE, 0x55, 0x28, 0xDF]
  const SBoxRow15: seq<byte> := [0x8C, 0xA1, 0x89, 0x0D, 0xBF, 0xE6, 0x42, 0x68, 0x41, 0x99, 0x2D, 0x0F, 0xB0, 0x54, 0xBB, 0x16]
  const SBoxRows: seq<seq<byte>> := [SBoxRow0, SBoxRow1, SBoxRow2, SBoxRow3, SBoxRow4, SBoxRow5, SBoxRow6, SBoxRow7, SBoxRow8, SBoxRow9, SBoxRow10, SBoxRow11, SBoxRow12, SBoxRow13, SBoxRow14, SBoxRow15]

  /** `INV_SBOX`, lines 69-86. */
  const InvSBoxRow0: seq<byte> := [0x52, 0x09, 0x6A, 0xD5, 0x30, 0x36, 0xA5, 0x38, 0xBF, 0x40, 0xA3, 0x9E, 0x81, 0xF3, 0xD7, 0xFB]
  const InvSBoxRow1: seq<byte> := [0x7C, 0xE3, 0x39, 0x82, 0x9B, 0x2F, 0xFF, 0x87, 0x34, 0x8E, 0x43, 0x44, 0xC4, 0xDE, 0xE9, 0xCB]
  const InvSBoxRow2: seq<byte> := [0x54, 0x7B, 0x94, 0x32, 0xA6, 0xC2, 0x23, 0x3D, 0xEE, 0x4C, 0x95, 0x0B, 0x42, 0xFA, 0xC3, 0x4E]
  const InvSBoxRow3: seq<byte> := [0x08, 0x2E, 0xA1, 0x66, 0x28, 0xD9, 0x24, 0xB2, 0x76, 0x5B, 0xA2, 0x49, 0x6D, 0x8B, 0xD1, 0x25]
  const InvSBoxRow4: seq<byte> := [0x72, 0xF8, 0xF6, 0x64, 0x86, 0x68, 0x98, 0x16, 0xD4, 0xA4, 0x5C, 0xCC, 0x5D, 0x65, 0xB6, 0x92]
  const InvSBoxRow5: seq<byte> := [0x6C, 0x70, 0x48, 0x50, 0xFD, 0xED, 0xB9, 0xDA, 0x5E, 0x15, 0x46, 0x57, 0xA7, 0x8D, 0x9D, 0x84]
  const InvSBoxRow6: seq<byte> := [0x90, 0xD8, 0xAB, 0x00, 0x8C, 0xBC, 0xD3, 0x0A, 0xF7, 0xE4, 0x58, 0x05, 0xB8, 0xB3, 0x45, 0x06]
  const InvSBoxRow7: seq<byte> := [0xD0, 0x2C, 0x1E, 0x8F, 0xCA, 0x3F, 0x0F, 0x02, 0xC1, 0xAF, 0xBD, 0x03, 0x01, 0x13, 0x8A, 0x6B]
  const InvSBoxRow8: seq<byte> := [0x3A, 0x91, 0x11, 0x41, 0x4F, 0x67, 0xDC, 0xEA, 0x97, 0xF2, 0xCF, 0xCE, 0xF0, 0xB4, 0xE6, 0x73]
  const InvSBoxRow9: seq<byte> := [0x96, 0xAC, 0x74, 0x22, 0xE7, 0xAD, 0x35, 0x85, 0xE2, 0xF9, 0x37, 0xE8, 0x1C, 0x75, 0xDF, 0x6E]
  const InvSBoxRow10: seq<byte> := [0x47, 0xF1, 0x1A, 0x71, 0x1D, 0x29, 0xC5, 0x89, 0x6F, 0xB7, 0x62, 0x0E, 0xAA, 0x18, 0xBE, 0x1B]
  const InvSBoxRow11: seq<byte> := [0xFC, 0x56, 0x3E, 0x4B, 0xC6, 0xD2, 0x79, 0x20, 0x9A, 0xDB, 0xC0, 0xFE, 0x78, 0xCD, 0x5A, 0xF4]
  const InvSBoxRow12: seq<byte> := [0x1F, 0xDD, 0xA8, 0x33, 0x88, 0x07, 0xC7, 0x31, 0xB1, 0x12, 0x10, 0x59, 0x27, 0x80, 0xEC, 0x5F]
  const InvSBoxRow13: seq<byte> := [0x60, 0x51, 0x7F, 0xA9, 0x19, 0xB5, 0x4A, 0x0D, 0x2D, 0xE5, 0x7A, 0x9F, 0x93, 0xC9, 0x9C, 0xEF]
  const InvSBoxRow14: seq<byte> := [0xA0, 0xE0, 0x3B, 0x4D, 0xAE, 0x2A, 0xF5, 0xB0, 0xC8, 0xEB, 0xBB, 0x3C, 0x83, 0x53, 0x99, 0x61]
  const InvSBoxRow15: seq<byte> := [0x17, 0x2B, 0x04, 0x7E, 0xBA, 0x77, 0xD6, 0x26, 0xE1, 0x69, 0x14, 0x63, 0x55, 0x21, 0x0C, 0x7D]
  const InvSBoxRows: seq<seq<byte>> := [InvSBoxRow0, InvSBoxRow1, InvSBoxRow2, InvSBoxRow3, InvSBoxRow4, InvSBoxRow5, InvSBoxRow6, InvSBoxRow7, InvSBoxRow8, InvSBoxRow9, InvSBoxRow10, InvSBoxRow11, InvSBoxRow12, InvSBoxRow13, InvSBoxRow14, InvSBoxRow15]

  /** `RCON`, lines 89-92: the round constants as eight-digit words. */
  const RCON: seq<string> := [
    "01000000", "02000000", "04000000", "08000000", "10000000",
    "20000000", "40000000", "80000000", "1B000000", "36000000"
  ]

  /** `SBOX[b]`. */
  function SBox(b: byte): byte
  {
    SBoxRows[(b >> 4) as int][(b & 15) as int]
  }

  /** `INV_SBOX[b]`. */
  function InvSBox(b: byte): byte
  {
    InvSBoxRows[(b >> 4) as int][(b & 15) as int]
  }

  /** Every round constant is eight upper-case hex digits. */
  lemma RconShape()
    ensures |RCON| == 10
    ensures forall i :: 0 <= i < 10 ==> |RCON[i]| == 8 && AllUpperHex(RCON[i])
  {
  }

  /** The inverse S-box undoes the S-box on every byte. */
  lemma SBoxInverse(b: byte)
    ensures InvSBox(SBox(b)) == b
  {
    var row := b >> 4;
    if row == 0 {
      InverseRow0(b);
    } else if row == 1 {
      InverseRow1(b);
    } else if row == 2 {
      InverseRow2(b);
    } else if row == 3 {
      InverseRow3(b);
    } else if row == 4 {
      InverseRow4(b);
    } else if row == 5 {
      InverseRow5(b);
    } else if row == 6 {
      InverseRow6(b);
    } else if row == 7 {
      InverseRow7(b);
    } else if row == 8 {
      InverseRow8(b);
    } else if row == 9 {
      InverseRow9(b);
    } else if row == 10 {
      InverseRow10(b);
    } else if row == 11 {
      InverseRow11(b);
    } else if row == 12 {
      InverseRow12(b);
    } else if row == 13 {
      InverseRow13(b);
    } else if row == 14 {
      InverseRow14(b);
    } else {
      InverseRow15(b);
    }
  }

  lemma InverseRow0(b: byte)
    requires b >> 4 == 0
    ensures InvSBox(SBox(b)) == b
  {
    var c := b & 15;
    if c == 0 {
      assert b == 0x00;
    } else if c == 1 {
      assert b == 0x01;
    } else if c == 2 {
      assert b == 0x02;
    } else if c == 3 {
      assert b == 0x03;
    } else if c == 4 {
      assert b == 0x04;
    } else if c == 5 {
      assert b == 0x05;
    } else if c == 6 {
      assert b == 0x06;
    } else if c == 7 {
      assert b == 0x07;
    } else if c == 8 {
      assert b == 0x08;
    } else if c == 9 {
      assert b == 0x09;
    } else if c == 10 {
      assert b == 0x0A;
    } else if c == 11 {
      assert b == 0x0B;
    } else if c == 12 {
      assert b == 0x0C;
    } else if c == 13 {
      assert b == 0x0D;
    } else if c == 14 {
      assert b == 0x0E;
    } else {
      assert b == 0x0F;
    }
  }

  lemma InverseRow1(b: byte)
    requires b >> 4 == 1
    ensures InvSBox(SBox(b)) == b
  {
    var c := b & 15;
    if c == 0 {
      assert b == 0x10;
    } else if c == 1 {
      assert b == 0x11;
    } else if c == 2 {
      assert b == 0x12;
    } else if c == 3 {
      assert b == 0x13;
    } else if c == 4 {
      assert b == 0x14;
    } else if c == 5 {
      assert b == 0x15;
    } else if c == 6 {
      assert b == 0x16;
    } else if c == 7 {
      assert b == 0x17;
    } else if c == 8 {
      assert b == 0x18;
    } else if c == 9 {
      assert b == 0x19;
    } else if c == 10 {
      assert b == 0x1A;
    } else if c == 11 {
      assert b == 0x1B;
    } else if c == 12 {
      assert b == 0x1C;
    } else if c == 13 {
      assert b == 0x1D;
    } else if c == 14 {
      assert b == 0x1E;
    } else {
      assert b == 0x1F;
    }
  }

  lemma InverseRow2(b: byte)
    requires b >> 4 == 2
    ensures InvSBox(SBox(b)) == b
  {
    var c := b & 15;
    if c == 0 {
      assert b == 0x20;
    } else if c == 1 {
      assert b == 0x21;
    } else if c == 2 {
      assert b == 0x22;
    } else if c == 3 {
      assert b == 0x23;
    } else if c == 4 {
      assert b == 0x24;
    } else if c == 5 {
      assert b == 0x25;
    } else if c == 6 {
      assert b == 0x26;
    } else if c == 7 {
      assert b == 0x27;
    } else if c == 8 {
      assert b == 0x28;
    } else if c == 9 {
      assert b == 0x29;
    } else if c == 10 {
      assert b == 0x2A;
    } else if c == 11 {
      assert b == 0x2B;
    } else if c == 12 {
      assert b == 0x2C;
    } else if c == 13 {
      assert b == 0x2D;
    } else if c == 14 {
      assert b == 0x2E;
    } else {
      assert b == 0x2F;
    }
  }

  lemma InverseRow3(b: byte)
    requires b >> 4 == 3
    ensures InvSBox(SBox(b)) == b
  {
    var c := b & 15;
    if c == 0 {
      assert b == 0x30;
    } else if c == 1 {
      assert b == 0x31;
    } else if c == 2 {
      assert b == 0x32;
    } else if c == 3 {
      assert b == 0x33;
    } else if c == 4 {
      assert b == 0x34;
    } else if c == 5 {
      assert b == 0x35;
    } else if c == 6 {
      assert b == 0x36;
    } else if c == 7 {
      assert b == 0x37;
    } else if c == 8 {
      assert b == 0x38;
    } else if c == 9 {
      assert b == 0x39;
    } else if c == 10 {
      assert b == 0x3A;
    } else if c == 11 {
      assert b == 0x3B;
    } else if c == 12 {
      assert b == 0x3C;
    } else if c == 13 {
      assert b == 0x3D;
    } else if c == 14 {
      assert b == 0x3E;
    } else {
      assert b == 0x3F;
    }
  }

  lemma InverseRow4(b: byte)
    requires b >> 4 == 4
    ensures InvSBox(SBox(b)) == b
  {
    var c := b & 15;
    if c == 0 {
      assert b == 0x40;
    } else if c == 1 {
      assert b == 0x41;
    } else if c == 2 {
      assert b == 0x42;
    } else if c == 3 {
      assert b == 0x43;
    } else if c == 4 {
      assert b == 0x44;
    } else if c == 5 {
      assert b == 0x45;
    } else if c == 6 {
      assert b == 0x46;
    } else if c == 7 {
      assert b == 0x47;
    } else if c == 8 {
      assert b == 0x48;
    } else if c == 9 {
      assert b == 0x49;
    } else if c == 10 {
      assert b == 0x4A;
    } else if c == 11 {
      assert b == 0x4B;
    } else if c == 12 {
      assert b == 0x4C;
    } else if c == 13 {
      assert b == 0x4D;
    } else if c == 14 {
      assert b == 0x4E;
    } else {
      assert b == 0x4F;
    }
  }

  lemma InverseRow5(b: byte)
    requires b >> 4 == 5
    ensures InvSBox(SBox(b)) == b
  {
    var c := b & 15;
    if c == 0 {
      assert b == 0x50;
    } else if c == 1 {
      assert b == 0x51;
    } else if c == 2 {
      assert b == 0x52;
    } else if c == 3 {
      assert b == 0x53;
    } else if c == 4 {
      assert b == 0x54;
    } else if c == 5 {
      assert b == 0x55;
    } else if c == 6 {
      assert b == 0x56;
    } else if c == 7 {
      assert b == 0x57;
    } else if c == 8 {
      assert b == 0x58;
    } else if c == 9 {
      assert b == 0x59;
    } else if c == 10 {
      assert b == 0x5A;
    } else if c == 11 {
      assert b == 0x5B;
    } else if c == 12 {
      assert b == 0x5C;
    } else if c == 13 {
      assert b == 0x5D;
    } else if c == 14 {
      assert b == 0x5E;
    } else {
      assert b == 0x5F;
    }
  }

  lemma InverseRow6(b: byte)
    requires b >> 4 == 6
    ensures InvSBox(SBox(b)) == b
  {
    var c := b & 15;
    if c == 0 {
      assert b == 0x60;
    } else if c == 1 {
      assert b == 0x61;
    } else if c == 2 {
      assert b == 0x62;
    } else if c == 3 {
      assert b == 0x63;
    } else if c == 4 {
      assert b == 0x64;
    } else if c == 5 {
      assert b == 0x65;
    } else if c == 6 {
      assert b == 0x66;
    } else if c == 7 {
      assert b == 0x67;
    } else if c == 8 {
      assert b == 0x68;
    } else if c == 9 {
      assert b == 0x69;
    } else if c == 10 {
      assert b == 0x6A;
    } else if c == 11 {
      assert b == 0x6B;
    } else if c == 12 {
      assert b == 0x6C;
    } else if c == 13 {
      assert b == 0x6D;
    } else if c == 14 {
      assert b == 0x6E;
    } else {
      assert b == 0x6F;
    }
  }

  lemma InverseRow7(b: byte)
    requires b >> 4 == 7
    ensures InvSBox(SBox(b)) == b
  {
    var c := b & 15;
    if c == 0 {
      assert b == 0x70;
    } else if c == 1 {
      assert b == 0x71;
    } else if c == 2 {
      assert b == 0x72;
    } else if c == 3 {
      assert b == 0x73;
    } else if c == 4 {
      assert b == 0x74;
    } else if c == 5 {
      assert b == 0x75;
    } else if c == 6 {
      assert b == 0x76;
    } else if c == 7 {
      assert b == 0x77;
    } else if c == 8 {
      assert b == 0x78;
    } else if c == 9 {
      assert b == 0x79;
    } else if c == 10 {
      assert b == 0x7A;
    } else if c == 11 {
      assert b == 0x7B;
    } else if c == 12 {
      assert b == 0x7C;
    } else if c == 13 {
      assert b == 0x7D;
    } else if c == 14 {
      assert b == 0x7E;
    } else {
      assert b == 0x7F;
    }
  }

  lemma InverseRow8(b: byte)
    requires b >> 4 == 8
    ensures InvSBox(SBox(b)) == b
  {
    var c := b & 15;
    if c == 0 {
      assert b == 0x80;
    } else if c == 1 {
      assert b == 0x81;
    } else if c == 2 {
      assert b == 0x82;
    } else if c == 3 {
      assert b == 0x83;
    } else if c == 4 {
      assert b == 0x84;
    } else if c == 5 {
      assert b == 0x85;
    } else if c == 6 {
      assert b == 0x86;
    } else if c == 7 {
      assert b == 0x87;
    } else if c == 8 {
      assert b == 0x88;
    } else if c == 9 {
      assert b == 0x89;
    } else if c == 10 {
      assert b == 0x8A;
    } else if c == 11 {
      assert b == 0x8B;
    } else if c == 12 {
      assert b == 0x8C;
    } else if c == 13 {
      assert b == 0x8D;
    } else if c == 14 {
      assert b == 0x8E;
    } else {
      assert b == 0x8F;
    }
  }

  lemma InverseRow9(b: byte)
    requires b >> 4 == 9
    ensures InvSBox(SBox(b)) == b
  {
    var c := b & 15;
    if c == 0 {
      assert b == 0x90;
    } else if c == 1 {
      assert b == 0x91;
    } else if c == 2 {
      assert b == 0x92;
    } else if c == 3 {
      assert b == 0x93;
    } else if c == 4 {
      assert b == 0x94;
    } else if c == 5 {
      assert b == 0x95;
    } else if c == 6 {
      assert b == 0x96;
    } else if c == 7 {
      assert b == 0x97;
    } else if c == 8 {
      assert b == 0x98;
    } else if c == 9 {
      assert b == 0x99;
    } else if c == 10 {
      assert b == 0x9A;
    } else if c == 11 {
      assert b == 0x9B;
    } else if c == 12 {
      assert b == 0x9C;
    } else if c == 13 {
      assert b == 0x9D;
    } else if c == 14 {
      assert b == 0x9E;
    } else {
      assert b == 0x9F;
    }
  }

  lemma InverseRow10(b: byte)
    requires b >> 4 == 10
    ensures InvSBox(SBox(b)) == b
  {
    var c := b & 15;
    if c == 0 {
      assert b == 0xA0;
    } else if c == 1 {
      assert b == 0xA1;
    } else if c == 2 {
      assert b == 0xA2;
    } else if c == 3 {
      assert b == 0xA3;
    } else if c == 4 {
      assert b == 0xA4;
    } else if c == 5 {
      assert b == 0xA5;
    } else if c == 6 {
      assert b == 0xA6;
    } else if c == 7 {
      assert b == 0xA7;
    } else if c == 8 {
      assert b == 0xA8;
    } else if c == 9 {
      assert b == 0xA9;
    } else if c == 10 {
      assert b == 0xAA;
    } else if c == 11 {
      assert b == 0xAB;
    } else if c == 12 {
      assert b == 0xAC;
    } else if c == 13 {
      assert b == 0xAD;
    } else if c == 14 {
      assert b == 0xAE;
    } else {
      assert b == 0xAF;
    }
  }

  lemma InverseRow11(b: byte)
    requires b >> 4 == 11
    ensures InvSBox(SBox(b)) == b
  {
    var c := b & 15;
    if c == 0 {
      assert b == 0xB0;
    } else if c == 1 {
      assert b == 0xB1;
    } else if c == 2 {
      assert b == 0xB2;
    } else if c == 3 {
      assert b == 0xB3;
    } else if c == 4 {
      assert b == 0xB4;
    } else if c == 5 {
      assert b == 0xB5;
    } else if c == 6 {
      assert b == 0xB6;
    } else if c == 7 {
      assert b == 0xB7;
    } else if c == 8 {
      assert b == 0xB8;
    } else if c == 9 {
      assert b == 0xB9;
    } else if c == 10 {
      assert b == 0xBA;
    } else if c == 11 {
      assert b == 0xBB;
    } else if c == 12 {
      assert b == 0xBC;
    } else if c == 13 {
      assert b == 0xBD;
    } else if c == 14 {
      assert b == 0xBE;
    } else {
      assert b == 0xBF;
    }
  }

  lemma InverseRow12(b: byte)
    requires b >> 4 == 12
    ensures InvSBox(SBox(b)) == b
  {
    var c := b & 15;
    if c == 0 {
      assert b == 0xC0;
    } else if c == 1 {
      assert b == 0xC1;
    } else if c == 2 {
      assert b == 0xC2;
    } else if c == 3 {
      assert b == 0xC3;
    } else if c == 4 {
      assert b == 0xC4;
    } else if c == 5 {
      assert b == 0xC5;
    } else if c == 6 {
      assert b == 0xC6;
    } else if c == 7 {
      assert b == 0xC7;
    } else if c == 8 {
      assert b == 0xC8;
    } else if c == 9 {
      assert b == 0xC9;
    } else if c == 10 {
      assert b == 0xCA;
    } else if c == 11 {
      assert b == 0xCB;
    } else if c == 12 {
      assert b == 0xCC;
    } else if c == 13 {
      assert b == 0xCD;
    } else if c == 14 {
      assert b == 0xCE;
    } else {
      assert b == 0xCF;
    }
  }

  lemma InverseRow13(b: byte)
    requires b >> 4 == 13
    ensures InvSBox(SBox(b)) == b
  {
    var c := b & 15;
    if c == 0 {
      assert b == 0xD0;
    } else if c == 1 {
      assert b == 0xD1;
    } else if c == 2 {
      assert b == 0xD2;
    } else if c == 3 {
      assert b == 0xD3;
    } else if c == 4 {
      assert b == 0xD4;
    } else if c == 5 {
      assert b == 0xD5;
    } else if c == 6 {
      assert b == 0xD6;
    } else if c == 7 {
      assert b == 0xD7;
    } else if c == 8 {
      assert b == 0xD8;
    } else if c == 9 {
      assert b == 0xD9;
    } else if c == 10 {
      assert b == 0xDA;
    } else if c == 11 {
      assert b == 0xDB;
    } else if c == 12 {
      assert b == 0xDC;
    } else if c == 13 {
      assert b == 0xDD;
    } else if c == 14 {
      assert b == 0xDE;
    } else {
      assert b == 0xDF;
    }
  }

  lemma InverseRow14(b: byte)
    requires b >> 4 == 14
    ensures InvSBox(SBox(b)) == b
  {
    var c := b & 15;
    if c == 0 {
      assert b == 0xE0;
    } else if c == 1 {
      assert b == 0xE1;
    } else if c == 2 {
      assert b == 0xE2;
    } else if c == 3 {
      assert b == 0xE3;
    } else if c == 4 {
      assert b == 0xE4;
    } else if c == 5 {
      assert b == 0xE5;
    } else if c == 6 {
      assert b == 0xE6;
    } else if c == 7 {
      assert b == 0xE7;
    } else if c == 8 {
      assert b == 0xE8;
    } else if c == 9 {
      assert b == 0xE9;
    } else if c == 10 {
      assert b == 0xEA;
    } else if c == 11 {
      assert b == 0xEB;
    } else if c == 12 {
      assert b == 0xEC;
    } else if c == 13 {
      assert b == 0xED;
    } else if c == 14 {
      assert b == 0xEE;
    } else {
      assert b == 0xEF;
    }
  }

  lemma InverseRow15(b: byte)
    requires b >> 4 == 15
    ensures InvSBox(SBox(b)) == b
  {
    var c := b & 15;
    if c == 0 {
      assert b == 0xF0;
    } else if c == 1 {
      assert b == 0xF1;
    } else if c == 2 {
      assert b == 0xF2;
    } else if c == 3 {
      assert b == 0xF3;
    } else if c == 4 {
      assert b == 0xF4;
    } else if c == 5 {
      assert b == 0xF5;
    } else if c == 6 {
      assert b == 0xF6;
    } else if c == 7 {
      assert b == 0xF7;
    } else if c == 8 {
      assert b == 0xF8;
    } else if c == 9 {
      assert b == 0xF9;
    } else if c == 10 {
      assert b == 0xFA;
    } else if c == 11 {
      assert b == 0xFB;
    } else if c == 12 {
      assert b == 0xFC;
    } else if c == 13 {
      assert b == 0xFD;
    } else if c == 14 {
      assert b == 0xFE;
    } else {
      assert b == 0xFF;
    }
  }

  /** The S-box undoes the inverse S-box on every byte. */
  lemma InvSBoxInverse(b: byte)
    ensures SBox(InvSBox(b)) == b
  {
    var row := b >> 4;
    if row == 0 {
      UninverseRow0(b);
    } else if row == 1 {
      UninverseRow1(b);
    } else if row == 2 {
      UninverseRow2(b);
    } else if row == 3 {
      UninverseRow3(b);
    } else if row == 4 {
      UninverseRow4(b);
    } else if row == 5 {
      UninverseRow5(b);
    } else if row == 6 {
      UninverseRow6(b);
    } else if row == 7 {
      UninverseRow7(b);
    } else if row == 8 {
      UninverseRow8(b);
    } else if row == 9 {
      UninverseRow9(b);
    } else if row == 10 {
      UninverseRow10(b);
    } else if row == 11 {
      UninverseRow11(b);
    } else if row == 12 {
      UninverseRow12(b);
    } else if row == 13 {
      UninverseRow13(b);
    } else if row == 14 {
      UninverseRow14(b);
    } else {
      UninverseRow15(b);
    }
  }

  lemma UninverseRow0(b: byte)
    requires b >> 4 == 0
    ensures SBox(InvSBox(b)) == b
  {
    var c := b & 15;
    if c == 0 {
      assert b == 0x00;
    } else if c == 1 {
      assert b == 0x01;
    } else if c == 2 {
      assert b == 0x02;
    } else if c == 3 {
      assert b == 0x03;
    } else if c == 4 {
      assert b == 0x04;
    } else if c == 5 {
      assert b == 0x05;
    } else if c == 6 {
      assert b == 0x06;
    } else if c == 7 {
      assert b == 0x07;
    } else if c == 8 {
      assert b == 0x08;
    } else if c == 9 {
      assert b == 0x09;
    } else if c == 10 {
      assert b == 0x0A;
    } else if c == 11 {
      assert b == 0x0B;
    } else if c == 12 {
      assert b == 0x0C;
    } else if c == 13 {
      assert b == 0x0D;
    } else if c == 14 {
      assert b == 0x0E;
    } else {
      assert b == 0x0F;
    }
  }

  lemma UninverseRow1(b: byte)
    requires b >> 4 == 1
    ensures SBox(InvSBox(b)) == b
  {
    var c := b & 15;
    if c == 0 {
      assert b == 0x10;
    } else if c == 1 {
      assert b == 0x11;
    } else if c == 2 {
      assert b == 0x12;
    } else if c == 3 {
      assert b == 0x13;
    } else if c == 4 {
      assert b == 0x14;
    } else if c == 5 {
      assert b == 0x15;
    } else if c == 6 {
      assert b == 0x16;
    } else if c == 7 {
      assert b == 0x17;
    } else if c == 8 {
      assert b == 0x18;
    } else if c == 9 {
      assert b == 0x19;
    } else if c == 10 {
      assert b == 0x1A;
    } else if c == 11 {
      assert b == 0x1B;
    } else if c == 12 {
      assert b == 0x1C;
    } else if c == 13 {
      assert b == 0x1D;
    } else if c == 14 {
      assert b == 0x1E;
    } else {
      assert b == 0x1F;
    }
  }

  lemma UninverseRow2(b: byte)
    requires b >> 4 == 2
    ensures SBox(InvSBox(b)) == b
  {
    var c := b & 15;
    if c == 0 {
      assert b == 0x20;
    } else if c == 1 {
      assert b == 0x21;
    } else if c == 2 {
      assert b == 0x22;
    } else if c == 3 {
      assert b == 0x23;
    } else if c == 4 {
      assert b == 0x24;
    } else if c == 5 {
      assert b == 0x25;
    } else if c == 6 {
      assert b == 0x26;
    } else if c == 7 {
      assert b == 0x27;
    } else if c == 8 {
      assert b == 0x28;
    } else if c == 9 {
      assert b == 0x29;
    } else if c == 10 {
      assert b == 0x2A;
    } else if c == 11 {
      assert b == 0x2B;
    } else if c == 12 {
      assert b == 0x2C;
    } else if c == 13 {
      assert b == 0x2D;
    } else if c == 14 {
      assert b == 0x2E;
    } else {
      assert b == 0x2F;
    }
  }

  lemma UninverseRow3(b: byte)
    requires b >> 4 == 3
    ensures SBox(InvSBox(b)) == b
  {
    var c := b & 15;
    if c == 0 {
      assert b == 0x30;
    } else if c == 1 {
      assert b == 0x31;
    } else if c == 2 {
      assert b == 0x32;
    } else if c == 3 {
      assert b == 0x33;
    } else if c == 4 {
      assert b == 0x34;
    } else if c == 5 {
      assert b == 0x35;
    } else if c == 6 {
      assert b == 0x36;
    } else if c == 7 {
      assert b == 0x37;
    } else if c == 8 {
      assert b == 0x38;
    } else if c == 9 {
      assert b == 0x39;
    } else if c == 10 {
      assert b == 0x3A;
    } else if c == 11 {
      assert b == 0x3B;
    } else if c == 12 {
      assert b == 0x3C;
    } else if c == 13 {
      assert b == 0x3D;
    } else if c == 14 {
      assert b == 0x3E;
    } else {
      assert b == 0x3F;
    }
  }

  lemma UninverseRow4(b: byte)
    requires b >> 4 == 4
    ensures SBox(InvSBox(b)) == b
  {
    var c := b & 15;
    if c == 0 {
      assert b == 0x40;
    } else if c == 1 {
      assert b == 0x41;
    } else if c == 2 {
      assert b == 0x42;
    } else if c == 3 {
      assert b == 0x43;
    } else if c == 4 {
      assert b == 0x44;
    } else if c == 5 {
      assert b == 0x45;
    } else if c == 6 {
      assert b == 0x46;
    } else if c == 7 {
      assert b == 0x47;
    } else if c == 8 {
      assert b == 0x48;
    } else if c == 9 {
      assert b == 0x49;
    } else if c == 10 {
      assert b == 0x4A;
    } else if c == 11 {
      assert b == 0x4B;
    } else if c == 12 {
      assert b == 0x4C;
    } else if c == 13 {
      assert b == 0x4D;
    } else if c == 14 {
      assert b == 0x4E;
    } else {
      assert b == 0x4F;
    }
  }

  lemma UninverseRow5(b: byte)
    requires b >> 4 == 5
    ensures SBox(InvSBox(b)) == b
  {
    var c := b & 15;
    if c == 0 {
      assert b == 0x50;
    } else if c == 1 {
      assert b == 0x51;
    } else if c == 2 {
      assert b == 0x52;
    } else if c == 3 {
      assert b == 0x53;
    } else if c == 4 {
      assert b == 0x54;
    } else if c == 5 {
      assert b == 0x55;
    } else if c == 6 {
      assert b == 0x56;
    } else if c == 7 {
      assert b == 0x57;
    } else if c == 8 {
      assert b == 0x58;
    } else if c == 9 {
      assert b == 0x59;
    } else if c == 10 {
      assert b == 0x5A;
    } else if c == 11 {
      assert b == 0x5B;
    } else if c == 12 {
      assert b == 0x5C;
    } else if c == 13 {
      assert b == 0x5D;
    } else if c == 14 {
      assert b == 0x5E;
    } else {
      assert b == 0x5F;
    }
  }

  lemma UninverseRow6(b: byte)
    requires b >> 4 == 6
    ensures SBox(InvSBox(b)) == b
  {
    var c := b & 15;
    if c == 0 {
      assert b == 0x60;
    } else if c == 1 {
      assert b == 0x61;
    } else if c == 2 {
      assert b == 0x62;
    } else if c == 3 {
      assert b == 0x63;
    } else if c == 4 {
      assert b == 0x64;
    } else if c == 5 {
      assert b == 0x65;
    } else if c == 6 {
      assert b == 0x66;
    } else if c == 7 {
      assert b == 0x67;
    } else if c == 8 {
      assert b == 0x68;
    } else if c == 9 {
      assert b == 0x69;
    } else if c == 10 {
      assert b == 0x6A;
    } else if c == 11 {
      assert b == 0x6B;
    } else if c == 12 {
      assert b == 0x6C;
    } else if c == 13 {
      assert b == 0x6D;
    } else if c == 14 {
      assert b == 0x6E;
    } else {
      assert b == 0x6F;
    }
  }

  lemma UninverseRow7(b: byte)
    requires b >> 4 == 7
    ensures SBox(InvSBox(b)) == b
  {
    var c := b & 15;
    if c == 0 {
      assert b == 0x70;
    } else if c == 1 {
      assert b == 0x71;
    } else if c == 2 {
      assert b == 0x72;
    } else if c == 3 {
      assert b == 0x73;
    } else if c == 4 {
      assert b == 0x74;
    } else if c == 5 {
      assert b == 0x75;
    } else if c == 6 {
      assert b == 0x76;
    } else if c == 7 {
      assert b == 0x77;
    } else if c == 8 {
      assert b == 0x78;
    } else if c == 9 {
      assert b == 0x79;
    } else if c == 10 {
      assert b == 0x7A;
    } else if c == 11 {
      assert b == 0x7B;
    } else if c == 12 {
      assert b == 0x7C;
    } else if c == 13 {
      assert b == 0x7D;
    } else if c == 14 {
      assert b == 0x7E;
    } else {
      assert b == 0x7F;
    }
  }

  lemma UninverseRow8(b: byte)
    requires b >> 4 == 8
    ensures SBox(InvSBox(b)) == b
  {
    var c := b & 15;
    if c == 0 {
      assert b == 0x80;
    } else if c == 1 {
      assert b == 0x81;
    } else if c == 2 {
      assert b == 0x82;
    } else if c == 3 {
      assert b == 0x83;
    } else if c == 4 {
      assert b == 0x84;
    } else if c == 5 {
      assert b == 0x85;
    } else if c == 6 {
      assert b == 0x86;
    } else if c == 7 {
      assert b == 0x87;
    } else if c == 8 {
      assert b == 0x88;
    } else if c == 9 {
      assert b == 0x89;
    } else if c == 10 {
      assert b == 0x8A;
    } else if c == 11 {
      assert b == 0x8B;
    } else if c == 12 {
      assert b == 0x8C;
    } else if c == 13 {
      assert b == 0x8D;
    } else if c == 14 {
      assert b == 0x8E;
    } else {
      assert b == 0x8F;
    }
  }

  lemma UninverseRow9(b: byte)
    requires b >> 4 == 9
    ensures SBox(InvSBox(b)) == b
  {
    var c := b & 15;
    if c == 0 {
      assert b == 0x90;
    } else if c == 1 {
      assert b == 0x91;
    } else if c == 2 {
      assert b == 0x92;
    } else if c == 3 {
      assert b == 0x93;
    } else if c == 4 {
      assert b == 0x94;
    } else if c == 5 {
      assert b == 0x95;
    } else if c == 6 {
      assert b == 0x96;
    } else if c == 7 {
      assert b == 0x97;
    } else if c == 8 {
      assert b == 0x98;
    } else if c == 9 {
      assert b == 0x99;
    } else if c == 10 {
      assert b == 0x9A;
    } else if c == 11 {
      assert b == 0x9B;
    } else if c == 12 {
      assert b == 0x9C;
    } else if c == 13 {
      assert b == 0x9D;
    } else if c == 14 {
      assert b == 0x9E;
    } else {
      assert b == 0x9F;
    }
  }

  lemma UninverseRow10(b: byte)
    requires b >> 4 == 10
    ensures SBox(InvSBox(b)) == b
  {
    var c := b & 15;
    if c == 0 {
      assert b == 0xA0;
    } else if c == 1 {
      assert b == 0xA1;
    } else if c == 2 {
      assert b == 0xA2;
    } else if c == 3 {
      assert b == 0xA3;
    } else if c == 4 {
      assert b == 0xA4;
    } else if c == 5 {
      assert b == 0xA5;
    } else if c == 6 {
      assert b == 0xA6;
    } else if c == 7 {
      assert b == 0xA7;
    } else if c == 8 {
      assert b == 0xA8;
    } else if c == 9 {
      assert b == 0xA9;
    } else if c == 10 {
      assert b == 0xAA;
    } else if c == 11 {
      assert b == 0xAB;
    } else if c == 12 {
      assert b == 0xAC;
    } else if c == 13 {
      assert b == 0xAD;
    } else if c == 14 {
      assert b == 0xAE;
    } else {
      assert b == 0xAF;
    }
  }

  lemma UninverseRow11(b: byte)
    requires b >> 4 == 11
    ensures SBox(InvSBox(b)) == b
  {
    var c := b & 15;
    if c == 0 {
      assert b == 0xB0;
    } else if c == 1 {
      assert b == 0xB1;
    } else if c == 2 {
      assert b == 0xB2;
    } else if c == 3 {
      assert b == 0xB3;
    } else if c == 4 {
      assert b == 0xB4;
    } else if c == 5 {
      assert b == 0xB5;
    } else if c == 6 {
      assert b == 0xB6;
    } else if c == 7 {
      assert b == 0xB7;
    } else if c == 8 {
      assert b == 0xB8;
    } else if c == 9 {
      assert b == 0xB9;
    } else if c == 10 {
      assert b == 0xBA;
    } else if c == 11 {
      assert b == 0xBB;
    } else if c == 12 {
      assert b == 0xBC;
    } else if c == 13 {
      assert b == 0xBD;
    } else if c == 14 {
      assert b == 0xBE;
    } else {
      assert b == 0xBF;
    }
  }

  lemma UninverseRow12(b: byte)
    requires b >> 4 == 12
    ensures SBox(InvSBox(b)) == b
  {
    var c := b & 15;
    if c == 0 {
      assert b == 0xC0;
    } else if c == 1 {
      assert b == 0xC1;
    } else if c == 2 {
      assert b == 0xC2;
    } else if c == 3 {
      assert b == 0xC3;
    } else if c == 4 {
      assert b == 0xC4;
    } else if c == 5 {
      assert b == 0xC5;
    } else if c == 6 {
      assert b == 0xC6;
    } else if c == 7 {
      assert b == 0xC7;
    } else if c == 8 {
      assert b == 0xC8;
    } else if c == 9 {
      assert b == 0xC9;
    } else if c == 10 {
      assert b == 0xCA;
    } else if c == 11 {
      assert b == 0xCB;
    } else if c == 12 {
      assert b == 0xCC;
    } else if c == 13 {
      assert b == 0xCD;
    } else if c == 14 {
      assert b == 0xCE;
    } else {
      assert b == 0xCF;
    }
  }

  lemma UninverseRow13(b: byte)
    requires b >> 4 == 13
    ensures SBox(InvSBox(b)) == b
  {
    var c := b & 15;
    if c == 0 {
      assert b == 0xD0;
    } else if c == 1 {
      assert b == 0xD1;
    } else if c == 2 {
      assert b == 0xD2;
    } else if c == 3 {
      assert b == 0xD3;
    } else if c == 4 {
      assert b == 0xD4;
    } else if c == 5 {
      assert b == 0xD5;
    } else if c == 6 {
      assert b == 0xD6;
    } else if c == 7 {
      assert b == 0xD7;
    } else if c == 8 {
      assert b == 0xD8;
    } else if c == 9 {
      assert b == 0xD9;
    } else if c == 10 {
      assert b == 0xDA;
    } else if c == 11 {
      assert b == 0xDB;
    } else if c == 12 {
      assert b == 0xDC;
    } else if c == 13 {
      assert b == 0xDD;
    } else if c == 14 {
      assert b == 0xDE;
    } else {
      assert b == 0xDF;
    }
  }

  lemma UninverseRow14(b: byte)
    requires b >> 4 == 14
    ensures SBox(InvSBox(b)) == b
  {
    var c := b & 15;
    if c == 0 {
      assert b == 0xE0;
    } else if c == 1 {
      assert b == 0xE1;
    } else if c == 2 {
      assert b == 0xE2;
    } else if c == 3 {
      assert b == 0xE3;
    } else if c == 4 {
      assert b == 0xE4;
    } else if c == 5 {
      assert b == 0xE5;
    } else if c == 6 {
      assert b == 0xE6;
    } else if c == 7 {
      assert b == 0xE7;
    } else if c == 8 {
      assert b == 0xE8;
    } else if c == 9 {
      assert b == 0xE9;
    } else if c == 10 {
      assert b == 0xEA;
    } else if c == 11 {
      assert b == 0xEB;
    } else if c == 12 {
      assert b == 0xEC;
    } else if c == 13 {
      assert b == 0xED;
    } else if c == 14 {
      assert b == 0xEE;
    } else {
      assert b == 0xEF;
    }
  }

  lemma UninverseRow15(b: byte)
    requires b >> 4 == 15
    ensures SBox(InvSBox(b)) == b
  {
    var c := b & 15;
    if c == 0 {
      assert b == 0xF0;
    } else if c == 1 {
      assert b == 0xF1;
    } else if c == 2 {
      assert b == 0xF2;
    } else if c == 3 {
      assert b == 0xF3;
    } else if c == 4 {
      assert b == 0xF4;
    } else if c == 5 {
      assert b == 0xF5;
    } else if c == 6 {
      assert b == 0xF6;
    } else if c == 7 {
      assert b == 0xF7;
    } else if c == 8 {
      assert b == 0xF8;
    } else if c == 9 {
      assert b == 0xF9;
    } else if c == 10 {
      assert b == 0xFA;
    } else if c == 11 {
      assert b == 0xFB;
    } else if c == 12 {
      assert b == 0xFC;
    } else if c == 13 {
      assert b == 0xFD;
    } else if c == 14 {
      assert b == 0xFE;
    } else {
      assert b == 0xFF;
    }
  }
}
