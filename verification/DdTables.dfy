/** dd: the translation tables between ASCII and EBCDIC, in rows of sixteen. */
module DdTables {
  import opened Common

  /** Entry k of a row. */
  function Pick(k: nat, a0: byte, a1: byte, a2: byte, a3: byte, a4: byte, a5: byte, a6: byte, a7: byte,
                a8: byte, a9: byte, a10: byte, a11: byte, a12: byte, a13: byte, a14: byte, a15: byte): byte
  {
    if k < 8 then
      if k < 4 then (if k == 0 then a0 else if k == 1 then a1 else if k == 2 then a2 else a3)
      else (if k == 4 then a4 else if k == 5 then a5 else if k == 6 then a6 else a7)
    else
      if k < 12 then (if k == 8 then a8 else if k == 9 then a9 else if k == 10 then a10 else a11)
      else (if k == 12 then a12 else if k == 13 then a13 else if k == 14 then a14 else a15)
  }

  /** etoa: from EBCDIC */
  function Etoa(c: byte): byte {
    var r, k := c / 16, c % 16;
    if r == 0 then Pick(k, 0x00, 0x01, 0x02, 0x03, 0x9c, 0x09, 0x86, 0x7f, 0x97, 0x8d, 0x8e, 0x0b, 0x0c, 0x0d, 0x0e, 0x0f)
    else if r == 1 then Pick(k, 0x10, 0x11, 0x12, 0x13, 0x9d, 0x85, 0x08, 0x87, 0x18, 0x19, 0x92, 0x8f, 0x1c, 0x1d, 0x1e, 0x1f)
    else if r == 2 then Pick(k, 0x80, 0x81, 0x82, 0x83, 0x84, 0x0a, 0x17, 0x1b, 0x88, 0x89, 0x8a, 0x8b, 0x8c, 0x05, 0x06, 0x07)
    else if r == 3 then Pick(k, 0x90, 0x91, 0x16, 0x93, 0x94, 0x95, 0x96, 0x04, 0x98, 0x99, 0x9a, 0x9b, 0x14, 0x15, 0x9e, 0x1a)
    else if r == 4 then Pick(k, 0x20, 0xa0, 0xa1, 0xa2, 0xa3, 0xa4, 0xa5, 0xa6, 0xa7, 0xa8, 0x5b, 0x2e, 0x3c, 0x28, 0x2b, 0x21)
    else if r == 5 then Pick(k, 0x26, 0xa9, 0xaa, 0xab, 0xac, 0xad, 0xae, 0xaf, 0xb0, 0xb1, 0x5d, 0x24, 0x2a, 0x29, 0x3b, 0x5e)
    else if r == 6 then Pick(k, 0x2d, 0x2f, 0xb2, 0xb3, 0xb4, 0xb5, 0xb6, 0xb7, 0xb8, 0xb9, 0x7c, 0x2c, 0x25, 0x5f, 0x3e, 0x3f)
    else if r == 7 then Pick(k, 0xba, 0xbb, 0xbc, 0xbd, 0xbe, 0xbf, 0xc0, 0xc1, 0xc2, 0x60, 0x3a, 0x23, 0x40, 0x27, 0x3d, 0x22)
    else if r == 8 then Pick(k, 0xc3, 0x61, 0x62, 0x63, 0x64, 0x65, 0x66, 0x67, 0x68, 0x69, 0xc4, 0xc5, 0xc6, 0xc7, 0xc8, 0xc9)
    else if r == 9 then Pick(k, 0xca, 0x6a, 0x6b, 0x6c, 0x6d, 0x6e, 0x6f, 0x70, 0x71, 0x72, 0xcb, 0xcc, 0xcd, 0xce, 0xcf, 0xd0)
    else if r == 10 then Pick(k, 0xd1, 0x7e, 0x73, 0x74, 0x75, 0x76, 0x77, 0x78, 0x79, 0x7a, 0xd2, 0xd3, 0xd4, 0xd5, 0xd6, 0xd7)
    else if r == 11 then Pick(k, 0xd8, 0xd9, 0xda, 0xdb, 0xdc, 0xdd, 0xde, 0xdf, 0xe0, 0xe1, 0xe2, 0xe3, 0xe4, 0xe5, 0xe6, 0xe7)
    else if r == 12 then Pick(k, 0x7b, 0x41, 0x42, 0x43, 0x44, 0x45, 0x46, 0x47, 0x48, 0x49, 0xe8, 0xe9, 0xea, 0xeb, 0xec, 0xed)
    else if r == 13 then Pick(k, 0x7d, 0x4a, 0x4b, 0x4c, 0x4d, 0x4e, 0x4f, 0x50, 0x51, 0x52, 0xee, 0xef, 0xf0, 0xf1, 0xf2, 0xf3)
    else if r == 14 then Pick(k, 0x5c, 0x9f, 0x53, 0x54, 0x55, 0x56, 0x57, 0x58, 0x59, 0x5a, 0xf4, 0xf5, 0xf6, 0xf7, 0xf8, 0xf9)
    else Pick(k, 0x30, 0x31, 0x32, 0x33, 0x34, 0x35, 0x36, 0x37, 0x38, 0x39, 0xfa, 0xfb, 0xfc, 0xfd, 0xfe, 0xff)
  }

  /** atoe: to EBCDIC */
  function Atoe(c: byte): byte {
    var r, k := c / 16, c % 16;
    if r == 0 then Pick(k, 0x00, 0x01, 0x02, 0x03, 0x37, 0x2d, 0x2e, 0x2f, 0x16, 0x05, 0x25, 0x0b, 0x0c, 0x0d, 0x0e, 0x0f)
    else if r == 1 then Pick(k, 0x10, 0x11, 0x12, 0x13, 0x3c, 0x3d, 0x32, 0x26, 0x18, 0x19, 0x3f, 0x27, 0x1c, 0x1d, 0x1e, 0x1f)
    else if r == 2 then Pick(k, 0x40, 0x4f, 0x7f, 0x7b, 0x5b, 0x6c, 0x50, 0x7d, 0x4d, 0x5d, 0x5c, 0x4e, 0x6b, 0x60, 0x4b, 0x61)
    else if r == 3 then Pick(k, 0xf0, 0xf1, 0xf2, 0xf3, 0xf4, 0xf5, 0xf6, 0xf7, 0xf8, 0xf9, 0x7a, 0x5e, 0x4c, 0x7e, 0x6e, 0x6f)
    else if r == 4 then Pick(k, 0x7c, 0xc1, 0xc2, 0xc3, 0xc4, 0xc5, 0xc6, 0xc7, 0xc8, 0xc9, 0xd1, 0xd2, 0xd3, 0xd4, 0xd5, 0xd6)
    else if r == 5 then Pick(k, 0xd7, 0xd8, 0xd9, 0xe2, 0xe3, 0xe4, 0xe5, 0xe6, 0xe7, 0xe8, 0xe9, 0x4a, 0xe0, 0x5a, 0x5f, 0x6d)
    else if r == 6 then Pick(k, 0x79, 0x81, 0x82, 0x83, 0x84, 0x85, 0x86, 0x87, 0x88, 0x89, 0x91, 0x92, 0x93, 0x94, 0x95, 0x96)
    else if r == 7 then Pick(k, 0x97, 0x98, 0x99, 0xa2, 0xa3, 0xa4, 0xa5, 0xa6, 0xa7, 0xa8, 0xa9, 0xc0, 0x6a, 0xd0, 0xa1, 0x07)
    else if r == 8 then Pick(k, 0x20, 0x21, 0x22, 0x23, 0x24, 0x15, 0x06, 0x17, 0x28, 0x29, 0x2a, 0x2b, 0x2c, 0x09, 0x0a, 0x1b)
    else if r == 9 then Pick(k, 0x30, 0x31, 0x1a, 0x33, 0x34, 0x35, 0x36, 0x08, 0x38, 0x39, 0x3a, 0x3b, 0x04, 0x14, 0x3e, 0xe1)
    else if r == 10 then Pick(k, 0x41, 0x42, 0x43, 0x44, 0x45, 0x46, 0x47, 0x48, 0x49, 0x51, 0x52, 0x53, 0x54, 0x55, 0x56, 0x57)
    else if r == 11 then Pick(k, 0x58, 0x59, 0x62, 0x63, 0x64, 0x65, 0x66, 0x67, 0x68, 0x69, 0x70, 0x71, 0x72, 0x73, 0x74, 0x75)
    else if r == 12 then Pick(k, 0x76, 0x77, 0x78, 0x80, 0x8a, 0x8b, 0x8c, 0x8d, 0x8e, 0x8f, 0x90, 0x9a, 0x9b, 0x9c, 0x9d, 0x9e)
    else if r == 13 then Pick(k, 0x9f, 0xa0, 0xaa, 0xab, 0xac, 0xad, 0xae, 0xaf, 0xb0, 0xb1, 0xb2, 0xb3, 0xb4, 0xb5, 0xb6, 0xb7)
    else if r == 14 then Pick(k, 0xb8, 0xb9, 0xba, 0xbb, 0xbc, 0xbd, 0xbe, 0xbf, 0xca, 0xcb, 0xcc, 0xcd, 0xce, 0xcf, 0xda, 0xdb)
    else Pick(k, 0xdc, 0xdd, 0xde, 0xdf, 0xea, 0xeb, 0xec, 0xed, 0xee, 0xef, 0xfa, 0xfb, 0xfc, 0xfd, 0xfe, 0xff)
  }

  predicate Inverse(c: byte) {
    Etoa(Atoe(c)) == c
  }

  lemma Rows0(c: byte)
    requires 0 <= c < 32
    ensures Inverse(c)
  {
  }

  lemma Rows2(c: byte)
    requires 32 <= c < 64
    ensures Inverse(c)
  {
  }

  lemma Rows4(c: byte)
    requires 64 <= c < 96
    ensures Inverse(c)
  {
  }

  lemma Rows6(c: byte)
    requires 96 <= c < 128
    ensures Inverse(c)
  {
  }

  lemma Rows8(c: byte)
    requires 128 <= c < 160
    ensures Inverse(c)
  {
  }

  lemma Rows10(c: byte)
    requires 160 <= c < 192
    ensures Inverse(c)
  {
  }

  lemma Rows12(c: byte)
    requires 192 <= c < 224
    ensures Inverse(c)
  {
  }

  lemma Rows14(c: byte)
    requires 224 <= c < 240
    ensures Inverse(c)
  {
  }

  lemma Rows15(c: byte)
    requires 240 <= c < 256
    ensures Inverse(c)
  {
  }

  /** Translating to EBCDIC and back changes nothing. */
  lemma TablesInverse(c: byte)
    ensures Etoa(Atoe(c)) == c
  {
    if c < 32 {
      Rows0(c);
    } else if c < 64 {
      Rows2(c);
    } else if c < 96 {
      Rows4(c);
    } else if c < 128 {
      Rows6(c);
    } else if c < 160 {
      Rows8(c);
    } else if c < 192 {
      Rows10(c);
    } else if c < 224 {
      Rows12(c);
    } else if c < 240 {
      Rows14(c);
    } else {
      Rows15(c);
    }
    assert Inverse(c);
  }

  // ---- What the codes are ----

  /** In EBCDIC letters come in runs, nine from 0x81, nine from 0x91 and eight from 0xA2, and so on for capitals. */
  predicate LetterCode(c: byte) {
    && ('a' as byte <= c <= 'i' as byte ==> Atoe(c) == 0x81 + (c - 'a' as byte))
    && ('j' as byte <= c <= 'r' as byte ==> Atoe(c) == 0x91 + (c - 'j' as byte))
    && ('s' as byte <= c <= 'z' as byte ==> Atoe(c) == 0xA2 + (c - 's' as byte))
    && ('A' as byte <= c <= 'I' as byte ==> Atoe(c) == 0xC1 + (c - 'A' as byte))
    && ('J' as byte <= c <= 'R' as byte ==> Atoe(c) == 0xD1 + (c - 'J' as byte))
    && ('S' as byte <= c <= 'Z' as byte ==> Atoe(c) == 0xE2 + (c - 'S' as byte))
  }

  lemma CapitalCodes(c: byte)
    requires 0x40 <= c < 0x60
    ensures LetterCode(c)
  {
  }

  lemma SmallCodes(c: byte)
    requires 0x60 <= c < 0x80
    ensures LetterCode(c)
  {
  }

  lemma Letters(c: byte)
    ensures LetterCode(c)
  {
    if 0x40 <= c < 0x60 {
      CapitalCodes(c);
    } else if 0x60 <= c < 0x80 {
      SmallCodes(c);
    }
  }

  /** Digits, the space, and what ends a line. */
  lemma DigitsAndSpace(c: byte)
    ensures '0' as byte <= c <= '9' as byte ==> Atoe(c) == 0xF0 + (c - '0' as byte)
    ensures Atoe(' ' as byte) == 0x40 && Atoe('\n' as byte) == 0x25 && Atoe(0) == 0
    ensures Atoe('.' as byte) == 0x4B && Atoe(',' as byte) == 0x6B && Atoe('-' as byte) == 0x60 && Atoe('/' as byte) == 0x61
  {
    assert '0' as byte <= c <= '9' as byte ==> c / 16 == 3;
  }
}
