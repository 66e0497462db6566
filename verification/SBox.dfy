/** The substitution tables of FIPS 197, sections 5.1.1 and 5.3.2: one row for each high nibble. */
module SBox {
  import opened Gf256

  // ---- the table and its inverse

  function S0(l: bv8): bv8 {
    if l == 0 then 0x63 else if l == 1 then 0x7c else if l == 2 then 0x77 else if l == 3 then 0x7b else if l == 4 then 0xf2 else if l == 5 then 0x6b else
    if l == 6 then 0x6f else if l == 7 then 0xc5 else if l == 8 then 0x30 else if l == 9 then 0x01 else if l == 10 then 0x67 else
    if l == 11 then 0x2b else if l == 12 then 0xfe else if l == 13 then 0xd7 else if l == 14 then 0xab else 0x76
  }

  function S1(l: bv8): bv8 {
    if l == 0 then 0xca else if l == 1 then 0x82 else if l == 2 then 0xc9 else if l == 3 then 0x7d else if l == 4 then 0xfa else if l == 5 then 0x59 else
    if l == 6 then 0x47 else if l == 7 then 0xf0 else if l == 8 then 0xad else if l == 9 then 0xd4 else if l == 10 then 0xa2 else
    if l == 11 then 0xaf else if l == 12 then 0x9c else if l == 13 then 0xa4 else if l == 14 then 0x72 else 0xc0
  }

  function S2(l: bv8): bv8 {
    if l == 0 then 0xb7 else if l == 1 then 0xfd else if l == 2 then 0x93 else if l == 3 then 0x26 else if l == 4 then 0x36 else if l == 5 then 0x3f else
    if l == 6 then 0xf7 else if l == 7 then 0xcc else if l == 8 then 0x34 else if l == 9 then 0xa5 else if l == 10 then 0xe5 else
    if l == 11 then 0xf1 else if l == 12 then 0x71 else if l == 13 then 0xd8 else if l == 14 then 0x31 else 0x15
  }

  function S3(l: bv8): bv8 {
    if l == 0 then 0x04 else if l == 1 then 0xc7 else if l == 2 then 0x23 else if l == 3 then 0xc3 else if l == 4 then 0x18 else if l == 5 then 0x96 else
    if l == 6 then 0x05 else if l == 7 then 0x9a else if l == 8 then 0x07 else if l == 9 then 0x12 else if l == 10 then 0x80 else
    if l == 11 then 0xe2 else if l == 12 then 0xeb else if l == 13 then 0x27 else if l == 14 then 0xb2 else 0x75
  }

  function S4(l: bv8): bv8 {
    if l == 0 then 0x09 else if l == 1 then 0x83 else if l == 2 then 0x2c else if l == 3 then 0x1a else if l == 4 then 0x1b else if l == 5 then 0x6e else
    if l == 6 then 0x5a else if l == 7 then 0xa0 else if l == 8 then 0x52 else if l == 9 then 0x3b else if l == 10 then 0xd6 else
    if l == 11 then 0xb3 else if l == 12 then 0x29 else if l == 13 then 0xe3 else if l == 14 then 0x2f else 0x84
  }

  function S5(l: bv8): bv8 {
    if l == 0 then 0x53 else if l == 1 then 0xd1 else if l == 2 then 0x00 else if l == 3 then 0xed else if l == 4 then 0x20 else if l == 5 then 0xfc else
    if l == 6 then 0xb1 else if l == 7 then 0x5b else if l == 8 then 0x6a else if l == 9 then 0xcb else if l == 10 then 0xbe else
    if l == 11 then 0x39 else if l == 12 then 0x4a else if l == 13 then 0x4c else if l == 14 then 0x58 else 0xcf
  }

  function S6(l: bv8): bv8 {
    if l == 0 then 0xd0 else if l == 1 then 0xef else if l == 2 then 0xaa else if l == 3 then 0xfb else if l == 4 then 0x43 else if l == 5 then 0x4d else
    if l == 6 then 0x33 else if l == 7 then 0x85 else if l == 8 then 0x45 else if l == 9 then 0xf9 else if l == 10 then 0x02 else
    if l == 11 then 0x7f else if l == 12 then 0x50 else if l == 13 then 0x3c else if l == 14 then 0x9f else 0xa8
  }

  function S7(l: bv8): bv8 {
    if l == 0 then 0x51 else if l == 1 then 0xa3 else if l == 2 then 0x40 else if l == 3 then 0x8f else if l == 4 then 0x92 else if l == 5 then 0x9d else
    if l == 6 then 0x38 else if l == 7 then 0xf5 else if l == 8 then 0xbc else if l == 9 then 0xb6 else if l == 10 then 0xda else
    if l == 11 then 0x21 else if l == 12 then 0x10 else if l == 13 then 0xff else if l == 14 then 0xf3 else 0xd2
  }

  function S8(l: bv8): bv8 {
    if l == 0 then 0xcd else if l == 1 then 0x0c else if l == 2 then 0x13 else if l == 3 then 0xec else if l == 4 then 0x5f else if l == 5 then 0x97 else
    if l == 6 then 0x44 else if l == 7 then 0x17 else if l == 8 then 0xc4 else if l == 9 then 0xa7 else if l == 10 then 0x7e else
    if l == 11 then 0x3d else if l == 12 then 0x64 else if l == 13 then 0x5d else if l == 14 then 0x19 else 0x73
  }

  function S9(l: bv8): bv8 {
    if l == 0 then 0x60 else if l == 1 then 0x81 else if l == 2 then 0x4f else if l == 3 then 0xdc else if l == 4 then 0x22 else if l == 5 then 0x2a else
    if l == 6 then 0x90 else if l == 7 then 0x88 else if l == 8 then 0x46 else if l == 9 then 0xee else if l == 10 then 0xb8 else
    if l == 11 then 0x14 else if l == 12 then 0xde else if l == 13 then 0x5e else if l == 14 then 0x0b else 0xdb
  }

  function SA(l: bv8): bv8 {
    if l == 0 then 0xe0 else if l == 1 then 0x32 else if l == 2 then 0x3a else if l == 3 then 0x0a else if l == 4 then 0x49 else if l == 5 then 0x06 else
    if l == 6 then 0x24 else if l == 7 then 0x5c else if l == 8 then 0xc2 else if l == 9 then 0xd3 else if l == 10 then 0xac else
    if l == 11 then 0x62 else if l == 12 then 0x91 else if l == 13 then 0x95 else if l == 14 then 0xe4 else 0x79
  }

  function SB(l: bv8): bv8 {
    if l == 0 then 0xe7 else if l == 1 then 0xc8 else if l == 2 then 0x37 else if l == 3 then 0x6d else if l == 4 then 0x8d else if l == 5 then 0xd5 else
    if l == 6 then 0x4e else if l == 7 then 0xa9 else if l == 8 then 0x6c else if l == 9 then 0x56 else if l == 10 then 0xf4 else
    if l == 11 then 0xea else if l == 12 then 0x65 else if l == 13 then 0x7a else if l == 14 then 0xae else 0x08
  }

  function SC(l: bv8): bv8 {
    if l == 0 then 0xba else if l == 1 then 0x78 else if l == 2 then 0x25 else if l == 3 then 0x2e else if l == 4 then 0x1c else if l == 5 then 0xa6 else
    if l == 6 then 0xb4 else if l == 7 then 0xc6 else if l == 8 then 0xe8 else if l == 9 then 0xdd else if l == 10 then 0x74 else
    if l == 11 then 0x1f else if l == 12 then 0x4b else if l == 13 then 0xbd else if l == 14 then 0x8b else 0x8a
  }

  function SD(l: bv8): bv8 {
    if l == 0 then 0x70 else if l == 1 then 0x3e else if l == 2 then 0xb5 else if l == 3 then 0x66 else if l == 4 then 0x48 else if l == 5 then 0x03 else
    if l == 6 then 0xf6 else if l == 7 then 0x0e else if l == 8 then 0x61 else if l == 9 then 0x35 else if l == 10 then 0x57 else
    if l == 11 then 0xb9 else if l == 12 then 0x86 else if l == 13 then 0xc1 else if l == 14 then 0x1d else 0x9e
  }

  function SE(l: bv8): bv8 {
    if l == 0 then 0xe1 else if l == 1 then 0xf8 else if l == 2 then 0x98 else if l == 3 then 0x11 else if l == 4 then 0x69 else if l == 5 then 0xd9 else
    if l == 6 then 0x8e else if l == 7 then 0x94 else if l == 8 then 0x9b else if l == 9 then 0x1e else if l == 10 then 0x87 else
    if l == 11 then 0xe9 else if l == 12 then 0xce else if l == 13 then 0x55 else if l == 14 then 0x28 else 0xdf
  }

  function SF(l: bv8): bv8 {
    if l == 0 then 0x8c else if l == 1 then 0xa1 else if l == 2 then 0x89 else if l == 3 then 0x0d else if l == 4 then 0xbf else if l == 5 then 0xe6 else
    if l == 6 then 0x42 else if l == 7 then 0x68 else if l == 8 then 0x41 else if l == 9 then 0x99 else if l == 10 then 0x2d else
    if l == 11 then 0x0f else if l == 12 then 0xb0 else if l == 13 then 0x54 else if l == 14 then 0xbb else 0x16
  }

  function R0(l: bv8): bv8 {
    if l == 0 then 0x52 else if l == 1 then 0x09 else if l == 2 then 0x6a else if l == 3 then 0xd5 else if l == 4 then 0x30 else if l == 5 then 0x36 else
    if l == 6 then 0xa5 else if l == 7 then 0x38 else if l == 8 then 0xbf else if l == 9 then 0x40 else if l == 10 then 0xa3 else
    if l == 11 then 0x9e else if l == 12 then 0x81 else if l == 13 then 0xf3 else if l == 14 then 0xd7 else 0xfb
  }

  function R1(l: bv8): bv8 {
    if l == 0 then 0x7c else if l == 1 then 0xe3 else if l == 2 then 0x39 else if l == 3 then 0x82 else if l == 4 then 0x9b else if l == 5 then 0x2f else
    if l == 6 then 0xff else if l == 7 then 0x87 else if l == 8 then 0x34 else if l == 9 then 0x8e else if l == 10 then 0x43 else
    if l == 11 then 0x44 else if l == 12 then 0xc4 else if l == 13 then 0xde else if l == 14 then 0xe9 else 0xcb
  }

  function R2(l: bv8): bv8 {
    if l == 0 then 0x54 else if l == 1 then 0x7b else if l == 2 then 0x94 else if l == 3 then 0x32 else if l == 4 then 0xa6 else if l == 5 then 0xc2 else
    if l == 6 then 0x23 else if l == 7 then 0x3d else if l == 8 then 0xee else if l == 9 then 0x4c else if l == 10 then 0x95 else
    if l == 11 then 0x0b else if l == 12 then 0x42 else if l == 13 then 0xfa else if l == 14 then 0xc3 else 0x4e
  }

  function R3(l: bv8): bv8 {
    if l == 0 then 0x08 else if l == 1 then 0x2e else if l == 2 then 0xa1 else if l == 3 then 0x66 else if l == 4 then 0x28 else if l == 5 then 0xd9 else
    if l == 6 then 0x24 else if l == 7 then 0xb2 else if l == 8 then 0x76 else if l == 9 then 0x5b else if l == 10 then 0xa2 else
    if l == 11 then 0x49 else if l == 12 then 0x6d else if l == 13 then 0x8b else if l == 14 then 0xd1 else 0x25
  }

  function R4(l: bv8): bv8 {
    if l == 0 then 0x72 else if l == 1 then 0xf8 else if l == 2 then 0xf6 else if l == 3 then 0x64 else if l == 4 then 0x86 else if l == 5 then 0x68 else
    if l == 6 then 0x98 else if l == 7 then 0x16 else if l == 8 then 0xd4 else if l == 9 then 0xa4 else if l == 10 then 0x5c else
    if l == 11 then 0xcc else if l == 12 then 0x5d else if l == 13 then 0x65 else if l == 14 then 0xb6 else 0x92
  }

  function R5(l: bv8): bv8 {
    if l == 0 then 0x6c else if l == 1 then 0x70 else if l == 2 then 0x48 else if l == 3 then 0x50 else if l == 4 then 0xfd else if l == 5 then 0xed else
    if l == 6 then 0xb9 else if l == 7 then 0xda else if l == 8 then 0x5e else if l == 9 then 0x15 else if l == 10 then 0x46 else
    if l == 11 then 0x57 else if l == 12 then 0xa7 else if l == 13 then 0x8d else if l == 14 then 0x9d else 0x84
  }

  function R6(l: bv8): bv8 {
    if l == 0 then 0x90 else if l == 1 then 0xd8 else if l == 2 then 0xab else if l == 3 then 0x00 else if l == 4 then 0x8c else if l == 5 then 0xbc else
    if l == 6 then 0xd3 else if l == 7 then 0x0a else if l == 8 then 0xf7 else if l == 9 then 0xe4 else if l == 10 then 0x58 else
    if l == 11 then 0x05 else if l == 12 then 0xb8 else if l == 13 then 0xb3 else if l == 14 then 0x45 else 0x06
  }

  function R7(l: bv8): bv8 {
    if l == 0 then 0xd0 else if l == 1 then 0x2c else if l == 2 then 0x1e else if l == 3 then 0x8f else if l == 4 then 0xca else if l == 5 then 0x3f else
    if l == 6 then 0x0f else if l == 7 then 0x02 else if l == 8 then 0xc1 else if l == 9 then 0xaf else if l == 10 then 0xbd else
    if l == 11 then 0x03 else if l == 12 then 0x01 else if l == 13 then 0x13 else if l == 14 then 0x8a else 0x6b
  }

  function R8(l: bv8): bv8 {
    if l == 0 then 0x3a else if l == 1 then 0x91 else if l == 2 then 0x11 else if l == 3 then 0x41 else if l == 4 then 0x4f else if l == 5 then 0x67 else
    if l == 6 then 0xdc else if l == 7 then 0xea else if l == 8 then 0x97 else if l == 9 then 0xf2 else if l == 10 then 0xcf else
    if l == 11 then 0xce else if l == 12 then 0xf0 else if l == 13 then 0xb4 else if l == 14 then 0xe6 else 0x73
  }

  function R9(l: bv8): bv8 {
    if l == 0 then 0x96 else if l == 1 then 0xac else if l == 2 then 0x74 else if l == 3 then 0x22 else if l == 4 then 0xe7 else if l == 5 then 0xad else
    if l == 6 then 0x35 else if l == 7 then 0x85 else if l == 8 then 0xe2 else if l == 9 then 0xf9 else if l == 10 then 0x37 else
    if l == 11 then 0xe8 else if l == 12 then 0x1c else if l == 13 then 0x75 else if l == 14 then 0xdf else 0x6e
  }

  function RA(l: bv8): bv8 {
    if l == 0 then 0x47 else if l == 1 then 0xf1 else if l == 2 then 0x1a else if l == 3 then 0x71 else if l == 4 then 0x1d else if l == 5 then 0x29 else
    if l == 6 then 0xc5 else if l == 7 then 0x89 else if l == 8 then 0x6f else if l == 9 then 0xb7 else if l == 10 then 0x62 else
    if l == 11 then 0x0e else if l == 12 then 0xaa else if l == 13 then 0x18 else if l == 14 then 0xbe else 0x1b
  }

  function RB(l: bv8): bv8 {
    if l == 0 then 0xfc else if l == 1 then 0x56 else if l == 2 then 0x3e else if l == 3 then 0x4b else if l == 4 then 0xc6 else if l == 5 then 0xd2 else
    if l == 6 then 0x79 else if l == 7 then 0x20 else if l == 8 then 0x9a else if l == 9 then 0xdb else if l == 10 then 0xc0 else
    if l == 11 then 0xfe else if l == 12 then 0x78 else if l == 13 then 0xcd else if l == 14 then 0x5a else 0xf4
  }

  function RC(l: bv8): bv8 {
    if l == 0 then 0x1f else if l == 1 then 0xdd else if l == 2 then 0xa8 else if l == 3 then 0x33 else if l == 4 then 0x88 else if l == 5 then 0x07 else
    if l == 6 then 0xc7 else if l == 7 then 0x31 else if l == 8 then 0xb1 else if l == 9 then 0x12 else if l == 10 then 0x10 else
    if l == 11 then 0x59 else if l == 12 then 0x27 else if l == 13 then 0x80 else if l == 14 then 0xec else 0x5f
  }

  function RD(l: bv8): bv8 {
    if l == 0 then 0x60 else if l == 1 then 0x51 else if l == 2 then 0x7f else if l == 3 then 0xa9 else if l == 4 then 0x19 else if l == 5 then 0xb5 else
    if l == 6 then 0x4a else if l == 7 then 0x0d else if l == 8 then 0x2d else if l == 9 then 0xe5 else if l == 10 then 0x7a else
    if l == 11 then 0x9f else if l == 12 then 0x93 else if l == 13 then 0xc9 else if l == 14 then 0x9c else 0xef
  }

  function RE(l: bv8): bv8 {
    if l == 0 then 0xa0 else if l == 1 then 0xe0 else if l == 2 then 0x3b else if l == 3 then 0x4d else if l == 4 then 0xae else if l == 5 then 0x2a else
    if l == 6 then 0xf5 else if l == 7 then 0xb0 else if l == 8 then 0xc8 else if l == 9 then 0xeb else if l == 10 then 0xbb else
    if l == 11 then 0x3c else if l == 12 then 0x83 else if l == 13 then 0x53 else if l == 14 then 0x99 else 0x61
  }

  function RF(l: bv8): bv8 {
    if l == 0 then 0x17 else if l == 1 then 0x2b else if l == 2 then 0x04 else if l == 3 then 0x7e else if l == 4 then 0xba else if l == 5 then 0x77 else
    if l == 6 then 0xd6 else if l == 7 then 0x26 else if l == 8 then 0xe1 else if l == 9 then 0x69 else if l == 10 then 0x14 else
    if l == 11 then 0x63 else if l == 12 then 0x55 else if l == 13 then 0x21 else if l == 14 then 0x0c else 0x7d
  }

  function Sub(x: bv8): bv8 {
    if x >> 4 == 0 then S0(x & 15)
    else if x >> 4 == 1 then S1(x & 15)
    else if x >> 4 == 2 then S2(x & 15)
    else if x >> 4 == 3 then S3(x & 15)
    else if x >> 4 == 4 then S4(x & 15)
    else if x >> 4 == 5 then S5(x & 15)
    else if x >> 4 == 6 then S6(x & 15)
    else if x >> 4 == 7 then S7(x & 15)
    else if x >> 4 == 8 then S8(x & 15)
    else if x >> 4 == 9 then S9(x & 15)
    else if x >> 4 == 10 then SA(x & 15)
    else if x >> 4 == 11 then SB(x & 15)
    else if x >> 4 == 12 then SC(x & 15)
    else if x >> 4 == 13 then SD(x & 15)
    else if x >> 4 == 14 then SE(x & 15)
    else SF(x & 15)
  }

  function InvSub(x: bv8): bv8 {
    if x >> 4 == 0 then R0(x & 15)
    else if x >> 4 == 1 then R1(x & 15)
    else if x >> 4 == 2 then R2(x & 15)
    else if x >> 4 == 3 then R3(x & 15)
    else if x >> 4 == 4 then R4(x & 15)
    else if x >> 4 == 5 then R5(x & 15)
    else if x >> 4 == 6 then R6(x & 15)
    else if x >> 4 == 7 then R7(x & 15)
    else if x >> 4 == 8 then R8(x & 15)
    else if x >> 4 == 9 then R9(x & 15)
    else if x >> 4 == 10 then RA(x & 15)
    else if x >> 4 == 11 then RB(x & 15)
    else if x >> 4 == 12 then RC(x & 15)
    else if x >> 4 == 13 then RD(x & 15)
    else if x >> 4 == 14 then RE(x & 15)
    else RF(x & 15)
  }

  // ---- each undoes the other

  lemma Row0(x: bv8)
    requires x >> 4 == 0
    ensures InvSub(Sub(x)) == x
  {
    var y := S0(x & 15);
    assert Sub(x) == y;
    hide Sub;
    assert InvSub(y) == x;
  }

  lemma Row1(x: bv8)
    requires x >> 4 == 1
    ensures InvSub(Sub(x)) == x
  {
    var y := S1(x & 15);
    assert Sub(x) == y;
    hide Sub;
    assert InvSub(y) == x;
  }

  lemma Row2(x: bv8)
    requires x >> 4 == 2
    ensures InvSub(Sub(x)) == x
  {
    var y := S2(x & 15);
    assert Sub(x) == y;
    hide Sub;
    assert InvSub(y) == x;
  }

  lemma Row3(x: bv8)
    requires x >> 4 == 3
    ensures InvSub(Sub(x)) == x
  {
    var y := S3(x & 15);
    assert Sub(x) == y;
    hide Sub;
    assert InvSub(y) == x;
  }

  lemma Row4(x: bv8)
    requires x >> 4 == 4
    ensures InvSub(Sub(x)) == x
  {
    var y := S4(x & 15);
    assert Sub(x) == y;
    hide Sub;
    assert InvSub(y) == x;
  }

  lemma Row5(x: bv8)
    requires x >> 4 == 5
    ensures InvSub(Sub(x)) == x
  {
    var y := S5(x & 15);
    assert Sub(x) == y;
    hide Sub;
    assert InvSub(y) == x;
  }

  lemma Row6(x: bv8)
    requires x >> 4 == 6
    ensures InvSub(Sub(x)) == x
  {
    var y := S6(x & 15);
    assert Sub(x) == y;
    hide Sub;
    assert InvSub(y) == x;
  }

  lemma Row7(x: bv8)
    requires x >> 4 == 7
    ensures InvSub(Sub(x)) == x
  {
    var y := S7(x & 15);
    assert Sub(x) == y;
    hide Sub;
    assert InvSub(y) == x;
  }

  lemma Row8(x: bv8)
    requires x >> 4 == 8
    ensures InvSub(Sub(x)) == x
  {
    var y := S8(x & 15);
    assert Sub(x) == y;
    hide Sub;
    assert InvSub(y) == x;
  }

  lemma Row9(x: bv8)
    requires x >> 4 == 9
    ensures InvSub(Sub(x)) == x
  {
    var y := S9(x & 15);
    assert Sub(x) == y;
    hide Sub;
    assert InvSub(y) == x;
  }

  lemma RowA(x: bv8)
    requires x >> 4 == 10
    ensures InvSub(Sub(x)) == x
  {
    var y := SA(x & 15);
    assert Sub(x) == y;
    hide Sub;
    assert InvSub(y) == x;
  }

  lemma RowB(x: bv8)
    requires x >> 4 == 11
    ensures InvSub(Sub(x)) == x
  {
    var y := SB(x & 15);
    assert Sub(x) == y;
    hide Sub;
    assert InvSub(y) == x;
  }

  lemma RowC(x: bv8)
    requires x >> 4 == 12
    ensures InvSub(Sub(x)) == x
  {
    var y := SC(x & 15);
    assert Sub(x) == y;
    hide Sub;
    assert InvSub(y) == x;
  }

  lemma RowD(x: bv8)
    requires x >> 4 == 13
    ensures InvSub(Sub(x)) == x
  {
    var y := SD(x & 15);
    assert Sub(x) == y;
    hide Sub;
    assert InvSub(y) == x;
  }

  lemma RowE(x: bv8)
    requires x >> 4 == 14
    ensures InvSub(Sub(x)) == x
  {
    var y := SE(x & 15);
    assert Sub(x) == y;
    hide Sub;
    assert InvSub(y) == x;
  }

  lemma RowF(x: bv8)
    requires x >> 4 == 15
    ensures InvSub(Sub(x)) == x
  {
    var y := SF(x & 15);
    assert Sub(x) == y;
    hide Sub;
    assert InvSub(y) == x;
  }

  lemma HighNibble(x: bv8)
    requires x >> 4 != 0 && x >> 4 != 1 && x >> 4 != 2 && x >> 4 != 3 && x >> 4 != 4 && x >> 4 != 5 && x >> 4 != 6
    requires x >> 4 != 7 && x >> 4 != 8 && x >> 4 != 9 && x >> 4 != 10 && x >> 4 != 11 && x >> 4 != 12
    requires x >> 4 != 13 && x >> 4 != 14
    ensures x >> 4 == 15
  {
  }

  /** InvSubBytes undoes SubBytes. */
  lemma SubBack(x: bv8)
    ensures InvSub(Sub(x)) == x
  {
    hide Sub, InvSub;
    if x >> 4 == 0 {
      Row0(x);
    } else if x >> 4 == 1 {
      Row1(x);
    } else if x >> 4 == 2 {
      Row2(x);
    } else if x >> 4 == 3 {
      Row3(x);
    } else if x >> 4 == 4 {
      Row4(x);
    } else if x >> 4 == 5 {
      Row5(x);
    } else if x >> 4 == 6 {
      Row6(x);
    } else if x >> 4 == 7 {
      Row7(x);
    } else if x >> 4 == 8 {
      Row8(x);
    } else if x >> 4 == 9 {
      Row9(x);
    } else if x >> 4 == 10 {
      RowA(x);
    } else if x >> 4 == 11 {
      RowB(x);
    } else if x >> 4 == 12 {
      RowC(x);
    } else if x >> 4 == 13 {
      RowD(x);
    } else if x >> 4 == 14 {
      RowE(x);
    } else {
      HighNibble(x);
      RowF(x);
    }
  }

  // ---- the table is the one the standard describes

  /** Section 5.1.1, the affine map: every bit plus the four above it, and the constant. */
  function Affine(b: bv8): bv8 {
    b ^ ((b << 1) | (b >> 7)) ^ ((b << 2) | (b >> 6)) ^ ((b << 3) | (b >> 5)) ^ ((b << 4) | (b >> 4)) ^ 0x63
  }

  function AffineBack(y: bv8): bv8 {
    ((y << 1) | (y >> 7)) ^ ((y << 3) | (y >> 5)) ^ ((y << 6) | (y >> 2)) ^ 0x05
  }

  function Pick(y: bv8, bit: bv8, x: bv8): bv8 {
    if y & bit == 0 then 0 else x
  }

  /** The product, all eight steps at once. */
  function Mul8(x: bv8, y: bv8): bv8 {
    var x1 := Xtime(x); var x2 := Xtime(x1); var x3 := Xtime(x2); var x4 := Xtime(x3);
    var x5 := Xtime(x4); var x6 := Xtime(x5); var x7 := Xtime(x6);
    Add(Pick(y, 1, x), Add(Pick(y, 2, x1), Add(Pick(y, 4, x2), Add(Pick(y, 8, x3), Add(Pick(y, 16, x4),
      Add(Pick(y, 32, x5), Add(Pick(y, 64, x6), Pick(y, 128, x7))))))))
  }

  lemma PickShifted(y: bv8, x: bv8)
    ensures (if y & 1 == 1 then x else 0) == Pick(y, 1, x)
    ensures (if (y >> 1) & 1 == 1 then x else 0) == Pick(y, 2, x)
    ensures (if (y >> 1 >> 1) & 1 == 1 then x else 0) == Pick(y, 4, x)
    ensures (if (y >> 1 >> 1 >> 1) & 1 == 1 then x else 0) == Pick(y, 8, x)
    ensures (if (y >> 1 >> 1 >> 1 >> 1) & 1 == 1 then x else 0) == Pick(y, 16, x)
    ensures (if (y >> 1 >> 1 >> 1 >> 1 >> 1) & 1 == 1 then x else 0) == Pick(y, 32, x)
    ensures (if (y >> 1 >> 1 >> 1 >> 1 >> 1 >> 1) & 1 == 1 then x else 0) == Pick(y, 64, x)
    ensures (if (y >> 1 >> 1 >> 1 >> 1 >> 1 >> 1 >> 1) & 1 == 1 then x else 0) == Pick(y, 128, x)
  {
  }

  lemma MulIsEight(x: bv8, y: bv8)
    ensures Mul(x, y) == Mul8(x, y)
  {
    hide Add, Xtime, MulFrom, Pick;
    var x1 := Xtime(x); var x2 := Xtime(x1); var x3 := Xtime(x2); var x4 := Xtime(x3);
    var x5 := Xtime(x4); var x6 := Xtime(x5); var x7 := Xtime(x6);
    var y1 := y >> 1; var y2 := y1 >> 1; var y3 := y2 >> 1; var y4 := y3 >> 1;
    var y5 := y4 >> 1; var y6 := y5 >> 1; var y7 := y6 >> 1;
    PickShifted(y, x);
    PickShifted(y, x1);
    PickShifted(y, x2);
    PickShifted(y, x3);
    PickShifted(y, x4);
    PickShifted(y, x5);
    PickShifted(y, x6);
    PickShifted(y, x7);
    MulUnfold(x, y, 0);
    MulUnfold(x1, y1, 1);
    MulUnfold(x2, y2, 2);
    MulUnfold(x3, y3, 3);
    MulUnfold(x4, y4, 4);
    MulUnfold(x5, y5, 5);
    MulUnfold(x6, y6, 6);
    MulUnfold(x7, y7, 7);
    MulEnd(Xtime(x7), y7 >> 1);
    AddLaws(Pick(y, 128, x7), 0, 0);
  }

  lemma Inverse0(x: bv8)
    requires x >> 4 == 0
    ensures Mul8(x, AffineBack(Sub(x))) == if x == 0 then 0 else 1
  {
    var y := AffineBack(S0(x & 15));
    assert AffineBack(Sub(x)) == y;
    hide Sub, AffineBack;
  }

  lemma Inverse1(x: bv8)
    requires x >> 4 == 1
    ensures Mul8(x, AffineBack(Sub(x))) == if x == 0 then 0 else 1
  {
    var y := AffineBack(S1(x & 15));
    assert AffineBack(Sub(x)) == y;
    hide Sub, AffineBack;
  }

  lemma Inverse2(x: bv8)
    requires x >> 4 == 2
    ensures Mul8(x, AffineBack(Sub(x))) == if x == 0 then 0 else 1
  {
    var y := AffineBack(S2(x & 15));
    assert AffineBack(Sub(x)) == y;
    hide Sub, AffineBack;
  }

  lemma Inverse3(x: bv8)
    requires x >> 4 == 3
    ensures Mul8(x, AffineBack(Sub(x))) == if x == 0 then 0 else 1
  {
    var y := AffineBack(S3(x & 15));
    assert AffineBack(Sub(x)) == y;
    hide Sub, AffineBack;
  }

  lemma Inverse4(x: bv8)
    requires x >> 4 == 4
    ensures Mul8(x, AffineBack(Sub(x))) == if x == 0 then 0 else 1
  {
    var y := AffineBack(S4(x & 15));
    assert AffineBack(Sub(x)) == y;
    hide Sub, AffineBack;
  }

  lemma Inverse5(x: bv8)
    requires x >> 4 == 5
    ensures Mul8(x, AffineBack(Sub(x))) == if x == 0 then 0 else 1
  {
    var y := AffineBack(S5(x & 15));
    assert AffineBack(Sub(x)) == y;
    hide Sub, AffineBack;
  }

  lemma Inverse6(x: bv8)
    requires x >> 4 == 6
    ensures Mul8(x, AffineBack(Sub(x))) == if x == 0 then 0 else 1
  {
    var y := AffineBack(S6(x & 15));
    assert AffineBack(Sub(x)) == y;
    hide Sub, AffineBack;
  }

  lemma Inverse7(x: bv8)
    requires x >> 4 == 7
    ensures Mul8(x, AffineBack(Sub(x))) == if x == 0 then 0 else 1
  {
    var y := AffineBack(S7(x & 15));
    assert AffineBack(Sub(x)) == y;
    hide Sub, AffineBack;
  }

  lemma Inverse8(x: bv8)
    requires x >> 4 == 8
    ensures Mul8(x, AffineBack(Sub(x))) == if x == 0 then 0 else 1
  {
    var y := AffineBack(S8(x & 15));
    assert AffineBack(Sub(x)) == y;
    hide Sub, AffineBack;
  }

  lemma Inverse9(x: bv8)
    requires x >> 4 == 9
    ensures Mul8(x, AffineBack(Sub(x))) == if x == 0 then 0 else 1
  {
    var y := AffineBack(S9(x & 15));
    assert AffineBack(Sub(x)) == y;
    hide Sub, AffineBack;
  }

  lemma InverseA(x: bv8)
    requires x >> 4 == 10
    ensures Mul8(x, AffineBack(Sub(x))) == if x == 0 then 0 else 1
  {
    var y := AffineBack(SA(x & 15));
    assert AffineBack(Sub(x)) == y;
    hide Sub, AffineBack;
  }

  lemma InverseB(x: bv8)
    requires x >> 4 == 11
    ensures Mul8(x, AffineBack(Sub(x))) == if x == 0 then 0 else 1
  {
    var y := AffineBack(SB(x & 15));
    assert AffineBack(Sub(x)) == y;
    hide Sub, AffineBack;
  }

  lemma InverseC(x: bv8)
    requires x >> 4 == 12
    ensures Mul8(x, AffineBack(Sub(x))) == if x == 0 then 0 else 1
  {
    var y := AffineBack(SC(x & 15));
    assert AffineBack(Sub(x)) == y;
    hide Sub, AffineBack;
  }

  lemma InverseD(x: bv8)
    requires x >> 4 == 13
    ensures Mul8(x, AffineBack(Sub(x))) == if x == 0 then 0 else 1
  {
    var y := AffineBack(SD(x & 15));
    assert AffineBack(Sub(x)) == y;
    hide Sub, AffineBack;
  }

  lemma InverseE(x: bv8)
    requires x >> 4 == 14
    ensures Mul8(x, AffineBack(Sub(x))) == if x == 0 then 0 else 1
  {
    var y := AffineBack(SE(x & 15));
    assert AffineBack(Sub(x)) == y;
    hide Sub, AffineBack;
  }

  lemma InverseF(x: bv8)
    requires x >> 4 == 15
    ensures Mul8(x, AffineBack(Sub(x))) == if x == 0 then 0 else 1
  {
    var y := AffineBack(SF(x & 15));
    assert AffineBack(Sub(x)) == y;
    hide Sub, AffineBack;
  }

  lemma InverseRow(x: bv8)
    ensures Mul8(x, AffineBack(Sub(x))) == if x == 0 then 0 else 1
  {
    hide Sub, AffineBack, Mul8;
    if x >> 4 == 0 {
      Inverse0(x);
    } else if x >> 4 == 1 {
      Inverse1(x);
    } else if x >> 4 == 2 {
      Inverse2(x);
    } else if x >> 4 == 3 {
      Inverse3(x);
    } else if x >> 4 == 4 {
      Inverse4(x);
    } else if x >> 4 == 5 {
      Inverse5(x);
    } else if x >> 4 == 6 {
      Inverse6(x);
    } else if x >> 4 == 7 {
      Inverse7(x);
    } else if x >> 4 == 8 {
      Inverse8(x);
    } else if x >> 4 == 9 {
      Inverse9(x);
    } else if x >> 4 == 10 {
      InverseA(x);
    } else if x >> 4 == 11 {
      InverseB(x);
    } else if x >> 4 == 12 {
      InverseC(x);
    } else if x >> 4 == 13 {
      InverseD(x);
    } else if x >> 4 == 14 {
      InverseE(x);
    } else {
      HighNibble(x);
      InverseF(x);
    }
  }

  /** Every entry of the table is the affine map of the byte's multiplicative inverse, or of zero for zero. */
  lemma SubIsAffineInverse(x: bv8)
    ensures var b := AffineBack(Sub(x)); Sub(x) == Affine(b) && (if x == 0 then b == 0 else Mul(x, b) == 1)
  {
    assert Affine(AffineBack(Sub(x))) == Sub(x);
    assert AffineBack(Sub(0)) == 0;
    hide Sub, Affine, AffineBack, Mul, Mul8;
    InverseRow(x);
    MulIsEight(x, AffineBack(Sub(x)));
  }
}
