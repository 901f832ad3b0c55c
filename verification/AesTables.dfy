/** The S-box of class AES256CBC in pure-secp256k1.js, its inverse, and doubling in the field of 256
    elements. */
module AesTables {

  type octet = bv8

  /** Entry lo of one line of a table. */
  function Row(lo: octet,
               v0: octet, v1: octet, v2: octet, v3: octet, v4: octet, v5: octet, v6: octet, v7: octet,
               v8: octet, v9: octet, v10: octet, v11: octet, v12: octet, v13: octet, v14: octet, v15: octet): octet
  {
    if lo == 0 then v0
    else if lo == 1 then v1
    else if lo == 2 then v2
    else if lo == 3 then v3
    else if lo == 4 then v4
    else if lo == 5 then v5
    else if lo == 6 then v6
    else if lo == 7 then v7
    else if lo == 8 then v8
    else if lo == 9 then v9
    else if lo == 10 then v10
    else if lo == 11 then v11
    else if lo == 12 then v12
    else if lo == 13 then v13
    else if lo == 14 then v14
    else v15
  }

  /** The S-box. */
  function SBox(b: octet): octet
  {
    var lo := b & 0x0f;
    if b < 0x10 then Row(lo, 0x63, 0x7c, 0x77, 0x7b, 0xf2, 0x6b, 0x6f, 0xc5, 0x30, 0x01, 0x67, 0x2b, 0xfe, 0xd7, 0xab, 0x76)
    else if b < 0x20 then Row(lo, 0xca, 0x82, 0xc9, 0x7d, 0xfa, 0x59, 0x47, 0xf0, 0xad, 0xd4, 0xa2, 0xaf, 0x9c, 0xa4, 0x72, 0xc0)
    else if b < 0x30 then Row(lo, 0xb7, 0xfd, 0x93, 0x26, 0x36, 0x3f, 0xf7, 0xcc, 0x34, 0xa5, 0xe5, 0xf1, 0x71, 0xd8, 0x31, 0x15)
    else if b < 0x40 then Row(lo, 0x04, 0xc7, 0x23, 0xc3, 0x18, 0x96, 0x05, 0x9a, 0x07, 0x12, 0x80, 0xe2, 0xeb, 0x27, 0xb2, 0x75)
    else if b < 0x50 then Row(lo, 0x09, 0x83, 0x2c, 0x1a, 0x1b, 0x6e, 0x5a, 0xa0, 0x52, 0x3b, 0xd6, 0xb3, 0x29, 0xe3, 0x2f, 0x84)
    else if b < 0x60 then Row(lo, 0x53, 0xd1, 0x00, 0xed, 0x20, 0xfc, 0xb1, 0x5b, 0x6a, 0xcb, 0xbe, 0x39, 0x4a, 0x4c, 0x58, 0xcf)
    else if b < 0x70 then Row(lo, 0xd0, 0xef, 0xaa, 0xfb, 0x43, 0x4d, 0x33, 0x85, 0x45, 0xf9, 0x02, 0x7f, 0x50, 0x3c, 0x9f, 0xa8)
    else if b < 0x80 then Row(lo, 0x51, 0xa3, 0x40, 0x8f, 0x92, 0x9d, 0x38, 0xf5, 0xbc, 0xb6, 0xda, 0x21, 0x10, 0xff, 0xf3, 0xd2)
    else if b < 0x90 then Row(lo, 0xcd, 0x0c, 0x13, 0xec, 0x5f, 0x97, 0x44, 0x17, 0xc4, 0xa7, 0x7e, 0x3d, 0x64, 0x5d, 0x19, 0x73)
    else if b < 0xa0 then Row(lo, 0x60, 0x81, 0x4f, 0xdc, 0x22, 0x2a, 0x90, 0x88, 0x46, 0xee, 0xb8, 0x14, 0xde, 0x5e, 0x0b, 0xdb)
    else if b < 0xb0 then Row(lo, 0xe0, 0x32, 0x3a, 0x0a, 0x49, 0x06, 0x24, 0x5c, 0xc2, 0xd3, 0xac, 0x62, 0x91, 0x95, 0xe4, 0x79)
    else if b < 0xc0 then Row(lo, 0xe7, 0xc8, 0x37, 0x6d, 0x8d, 0xd5, 0x4e, 0xa9, 0x6c, 0x56, 0xf4, 0xea, 0x65, 0x7a, 0xae, 0x08)
    else if b < 0xd0 then Row(lo, 0xba, 0x78, 0x25, 0x2e, 0x1c, 0xa6, 0xb4, 0xc6, 0xe8, 0xdd, 0x74, 0x1f, 0x4b, 0xbd, 0x8b, 0x8a)
    else if b < 0xe0 then Row(lo, 0x70, 0x3e, 0xb5, 0x66, 0x48, 0x03, 0xf6, 0x0e, 0x61, 0x35, 0x57, 0xb9, 0x86, 0xc1, 0x1d, 0x9e)
    else if b < 0xf0 then Row(lo, 0xe1, 0xf8, 0x98, 0x11, 0x69, 0xd9, 0x8e, 0x94, 0x9b, 0x1e, 0x87, 0xe9, 0xce, 0x55, 0x28, 0xdf)
    else Row(lo, 0x8c, 0xa1, 0x89, 0x0d, 0xbf, 0xe6, 0x42, 0x68, 0x41, 0x99, 0x2d, 0x0f, 0xb0, 0x54, 0xbb, 0x16)
  }

  /** The inverse S-box, written out. The code does not contain this table: it fills an array by
      going through the S-box, as BuildInvSBox does. */
  function InvSBox(b: octet): octet
  {
    var lo := b & 0x0f;
    if b < 0x10 then Row(lo, 0x52, 0x09, 0x6a, 0xd5, 0x30, 0x36, 0xa5, 0x38, 0xbf, 0x40, 0xa3, 0x9e, 0x81, 0xf3, 0xd7, 0xfb)
    else if b < 0x20 then Row(lo, 0x7c, 0xe3, 0x39, 0x82, 0x9b, 0x2f, 0xff, 0x87, 0x34, 0x8e, 0x43, 0x44, 0xc4, 0xde, 0xe9, 0xcb)
    else if b < 0x30 then Row(lo, 0x54, 0x7b, 0x94, 0x32, 0xa6, 0xc2, 0x23, 0x3d, 0xee, 0x4c, 0x95, 0x0b, 0x42, 0xfa, 0xc3, 0x4e)
    else if b < 0x40 then Row(lo, 0x08, 0x2e, 0xa1, 0x66, 0x28, 0xd9, 0x24, 0xb2, 0x76, 0x5b, 0xa2, 0x49, 0x6d, 0x8b, 0xd1, 0x25)
    else if b < 0x50 then Row(lo, 0x72, 0xf8, 0xf6, 0x64, 0x86, 0x68, 0x98, 0x16, 0xd4, 0xa4, 0x5c, 0xcc, 0x5d, 0x65, 0xb6, 0x92)
    else if b < 0x60 then Row(lo, 0x6c, 0x70, 0x48, 0x50, 0xfd, 0xed, 0xb9, 0xda, 0x5e, 0x15, 0x46, 0x57, 0xa7, 0x8d, 0x9d, 0x84)
    else if b < 0x70 then Row(lo, 0x90, 0xd8, 0xab, 0x00, 0x8c, 0xbc, 0xd3, 0x0a, 0xf7, 0xe4, 0x58, 0x05, 0xb8, 0xb3, 0x45, 0x06)
    else if b < 0x80 then Row(lo, 0xd0, 0x2c, 0x1e, 0x8f, 0xca, 0x3f, 0x0f, 0x02, 0xc1, 0xaf, 0xbd, 0x03, 0x01, 0x13, 0x8a, 0x6b)
    else if b < 0x90 then Row(lo, 0x3a, 0x91, 0x11, 0x41, 0x4f, 0x67, 0xdc, 0xea, 0x97, 0xf2, 0xcf, 0xce, 0xf0, 0xb4, 0xe6, 0x73)
    else if b < 0xa0 then Row(lo, 0x96, 0xac, 0x74, 0x22, 0xe7, 0xad, 0x35, 0x85, 0xe2, 0xf9, 0x37, 0xe8, 0x1c, 0x75, 0xdf, 0x6e)
    else if b < 0xb0 then Row(lo, 0x47, 0xf1, 0x1a, 0x71, 0x1d, 0x29, 0xc5, 0x89, 0x6f, 0xb7, 0x62, 0x0e, 0xaa, 0x18, 0xbe, 0x1b)
    else if b < 0xc0 then Row(lo, 0xfc, 0x56, 0x3e, 0x4b, 0xc6, 0xd2, 0x79, 0x20, 0x9a, 0xdb, 0xc0, 0xfe, 0x78, 0xcd, 0x5a, 0xf4)
    else if b < 0xd0 then Row(lo, 0x1f, 0xdd, 0xa8, 0x33, 0x88, 0x07, 0xc7, 0x31, 0xb1, 0x12, 0x10, 0x59, 0x27, 0x80, 0xec, 0x5f)
    else if b < 0xe0 then Row(lo, 0x60, 0x51, 0x7f, 0xa9, 0x19, 0xb5, 0x4a, 0x0d, 0x2d, 0xe5, 0x7a, 0x9f, 0x93, 0xc9, 0x9c, 0xef)
    else if b < 0xf0 then Row(lo, 0xa0, 0xe0, 0x3b, 0x4d, 0xae, 0x2a, 0xf5, 0xb0, 0xc8, 0xeb, 0xbb, 0x3c, 0x83, 0x53, 0x99, 0x61)
    else Row(lo, 0x17, 0x2b, 0x04, 0x7e, 0xba, 0x77, 0xd6, 0x26, 0xe1, 0x69, 0x14, 0x63, 0x55, 0x21, 0x0c, 0x7d)
  }

  lemma ForwardPart0(b: octet)
    requires b < 0x20
    ensures InvSBox(SBox(b)) == b
  {
  }

  lemma ForwardPart1(b: octet)
    requires 0x20 <= b < 0x40
    ensures InvSBox(SBox(b)) == b
  {
  }

  lemma ForwardPart2(b: octet)
    requires 0x40 <= b < 0x60
    ensures InvSBox(SBox(b)) == b
  {
  }

  lemma ForwardPart3(b: octet)
    requires 0x60 <= b < 0x80
    ensures InvSBox(SBox(b)) == b
  {
  }

  lemma ForwardPart4(b: octet)
    requires 0x80 <= b < 0xa0
    ensures InvSBox(SBox(b)) == b
  {
  }

  lemma ForwardPart5(b: octet)
    requires 0xa0 <= b < 0xc0
    ensures InvSBox(SBox(b)) == b
  {
  }

  lemma ForwardPart6(b: octet)
    requires 0xc0 <= b < 0xe0
    ensures InvSBox(SBox(b)) == b
  {
  }

  lemma ForwardPart7(b: octet)
    requires 0xe0 <= b
    ensures InvSBox(SBox(b)) == b
  {
  }

  lemma BackwardPart0(b: octet)
    requires b < 0x20
    ensures SBox(InvSBox(b)) == b
  {
  }

  lemma BackwardPart1(b: octet)
    requires 0x20 <= b < 0x40
    ensures SBox(InvSBox(b)) == b
  {
  }

  lemma BackwardPart2(b: octet)
    requires 0x40 <= b < 0x60
    ensures SBox(InvSBox(b)) == b
  {
  }

  lemma BackwardPart3(b: octet)
    requires 0x60 <= b < 0x80
    ensures SBox(InvSBox(b)) == b
  {
  }

  lemma BackwardPart4(b: octet)
    requires 0x80 <= b < 0xa0
    ensures SBox(InvSBox(b)) == b
  {
  }

  lemma BackwardPart5(b: octet)
    requires 0xa0 <= b < 0xc0
    ensures SBox(InvSBox(b)) == b
  {
  }

  lemma BackwardPart6(b: octet)
    requires 0xc0 <= b < 0xe0
    ensures SBox(InvSBox(b)) == b
  {
  }

  lemma BackwardPart7(b: octet)
    requires 0xe0 <= b
    ensures SBox(InvSBox(b)) == b
  {
  }

  /** The S-box is a permutation of the 256 octets. */
  lemma SBoxInverse(b: octet)
    ensures InvSBox(SBox(b)) == b
    ensures SBox(InvSBox(b)) == b
  {
    if b < 0x20 {
      ForwardPart0(b);
      BackwardPart0(b);
    } else if b < 0x40 {
      ForwardPart1(b);
      BackwardPart1(b);
    } else if b < 0x60 {
      ForwardPart2(b);
      BackwardPart2(b);
    } else if b < 0x80 {
      ForwardPart3(b);
      BackwardPart3(b);
    } else if b < 0xa0 {
      ForwardPart4(b);
      BackwardPart4(b);
    } else if b < 0xc0 {
      ForwardPart5(b);
      BackwardPart5(b);
    } else if b < 0xe0 {
      ForwardPart6(b);
      BackwardPart6(b);
    } else {
      ForwardPart7(b);
      BackwardPart7(b);
    }
  }

  lemma SBoxInverseAll()
    ensures forall b :: InvSBox(SBox(b)) == b && SBox(InvSBox(b)) == b
  {
    forall b
      ensures InvSBox(SBox(b)) == b && SBox(InvSBox(b)) == b
    {
      SBoxInverse(b);
    }
  }

  function OctetOf(i: int): octet
    requires 0 <= i < 256
  {
    i as octet
  }

  lemma OctetBack(b: octet)
    ensures 0 <= b as int < 256 && OctetOf(b as int) == b
  {
  }

  /** The loop of the constructor that inverts a table, for any permutation. */
  method InvertTable(table: octet -> octet, ghost inverse: octet -> octet) returns (inv: array<octet>)
    requires forall b :: inverse(table(b)) == b && table(inverse(b)) == b
    ensures fresh(inv) && inv.Length == 256
    ensures forall b: octet :: inv[b as int] == inverse(b)
  {
    inv := new octet[256];
    for i := 0 to 256
      invariant forall b: octet :: inverse(b) as int < i ==> inv[b as int] == inverse(b)
    {
      var slot := table(OctetOf(i));
      inv[slot as int] := OctetOf(i);
      forall b: octet | inverse(b) as int < i + 1
        ensures inv[b as int] == inverse(b)
      {
        OctetBack(inverse(b));
        OctetBack(b);
        OctetBack(slot);
      }
    }
    forall b: octet
      ensures inv[b as int] == inverse(b)
    {
      OctetBack(inverse(b));
    }
  }

  /** The field invSbox. */
  ghost predicate InverseTable(inv: array<octet>)
    reads inv
  {
    inv.Length == 256 && forall b: octet :: inv[b as int] == InvSBox(b)
  }

  /** The inverse S-box as the constructor computes it. */
  method BuildInvSBox() returns (inv: array<octet>)
    ensures fresh(inv) && InverseTable(inv)
  {
    SBoxInverseAll();
    inv := InvertTable(SBox, InvSBox);
  }

  // ---------- The field with 256 elements ----------

  /** Multiplication by x modulo x^8 + x^4 + x^3 + x + 1. */
  function XTime(a: octet): octet
  {
    (a << 1) ^ (if a & 0x80 != 0 then 0x1b else 0)
  }

  /** The same without a case distinction: the carry, added at the bits of 0x1b. */
  function XTimeBits(a: octet): octet
  {
    (a << 1) ^ (a >> 7) ^ ((a >> 7) << 1) ^ ((a >> 7) << 3) ^ ((a >> 7) << 4)
  }

  lemma XTimeAsBits(a: octet)
    ensures XTime(a) == XTimeBits(a)
  {
  }

  lemma XTimeBitsLinear(a: octet, b: octet)
    ensures XTimeBits(a ^ b) == XTimeBits(a) ^ XTimeBits(b)
  {
  }

  lemma XTimeLinear(a: octet, b: octet)
    ensures XTime(a ^ b) == XTime(a) ^ XTime(b)
  {
    XTimeAsBits(a);
    XTimeAsBits(b);
    XTimeAsBits(a ^ b);
    XTimeBitsLinear(a, b);
  }
}
