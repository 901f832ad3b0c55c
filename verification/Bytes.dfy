/** Byte strings, big-endian integers and hexadecimal: bytesToBigInt, bigIntToBytes and the hex
    helpers of pure-secp256k1.js and nostr-utils.js. */
module Bytes {
  import opened NumberTheory

  type byte = x: int | 0 <= x < 256
  type bytes = seq<byte>

  // ---------- Big-endian integers ----------

  function BytesToInt(b: bytes): nat
  {
    if b == [] then 0 else 256 * BytesToInt(b[..|b| - 1]) + b[|b| - 1]
  }

  /** The low length bytes of num, most significant first. */
  function IntToBytes(num: int, length: nat): (b: bytes)
    ensures |b| == length
    decreases length, num
  {
    if length == 0 then [] else IntToBytes(num / 256, length - 1) + [num % 256]
  }

  /** bytesToBigInt. */
  method BytesToBigInt(b: bytes) returns (result: nat)
    ensures result == BytesToInt(b)
  {
    result := 0;
    for i := 0 to |b|
      invariant result == BytesToInt(b[..i])
    {
      assert b[..i + 1][..i] == b[..i];
      result := result * 256 + b[i];
    }
    assert b[..|b|] == b;
  }

  /** bigIntToBytes. */
  method BigIntToBytes(num: int, length: nat) returns (a: array<byte>)
    ensures fresh(a) && a[..] == IntToBytes(num, length)
  {
    a := new byte[length];
    var temp := num;
    var i := length;
    while i > 0
      invariant 0 <= i <= length
      invariant IntToBytes(num, length) == IntToBytes(temp, i) + a[i..]
    {
      i := i - 1;
      a[i] := temp % 256;
      temp := temp / 256;
    }
  }

  lemma {:induction false} BytesToIntBound(b: bytes)
    ensures BytesToInt(b) < Pow(256, |b|)
    decreases |b|
  {
    if b != [] { BytesToIntBound(b[..|b| - 1]); }
  }

  /** Reading back a written integer gives its residue modulo 256^length. */
  lemma {:induction false} IntRoundTrip(num: int, length: nat)
    ensures Pow(256, length) > 0 && BytesToInt(IntToBytes(num, length)) == num % Pow(256, length)
    decreases length
  {
    PowPositive(256, length);
    if length == 0 {
      DivModUnique(num, 1, num, 0);
    } else {
      IntRoundTrip(num / 256, length - 1);
      var b := IntToBytes(num, length);
      assert b[..|b| - 1] == IntToBytes(num / 256, length - 1);
      ModSplit(num, Pow(256, length - 1));
    }
  }

  /** Byte i of a written integer is its digit of weight 256^(length - 1 - i): the most significant byte
      comes first. */
  lemma {:induction false} ByteAt(num: int, length: nat, i: nat)
    requires i < length
    ensures Pow(256, length - 1 - i) > 0 && IntToBytes(num, length)[i] == num / Pow(256, length - 1 - i) % 256
    decreases length
  {
    PowPositive(256, length - 1 - i);
    if i < length - 1 {
      ByteAt(num / 256, length - 1, i);
      ModSplit(num, Pow(256, length - 2 - i));
    }
  }

  lemma ModSplit(num: int, m: int)
    requires m > 0
    ensures 256 * m > 0 && num / (256 * m) == num / 256 / m
    ensures num % (256 * m) == 256 * (num / 256 % m) + num % 256
  {
    var q, r := num / 256 / m, num / 256 % m;
    assert num / 256 == q * m + r;
    MulRegroup(256, q, m, 1);
    DivModUnique(num, 256 * m, q, 256 * r + num % 256);
  }

  lemma {:induction false} PowPositive(b: int, e: nat)
    requires b > 0
    ensures Pow(b, e) > 0
    decreases e
  {
    if e > 0 {
      PowPositive(b, e - 1);
      MulLe(1, b, Pow(b, e - 1));
    }
  }

  lemma IntFits(num: nat, length: nat)
    requires num < Pow(256, length)
    ensures BytesToInt(IntToBytes(num, length)) == num
  {
    IntRoundTrip(num, length);
    SmallMod(num, Pow(256, length));
  }

  lemma {:induction false} BytesRoundTrip(b: bytes)
    ensures IntToBytes(BytesToInt(b), |b|) == b
    decreases |b|
  {
    if b != [] {
      var n := |b| - 1;
      BytesRoundTrip(b[..n]);
      DivModUnique(BytesToInt(b), 256, BytesToInt(b[..n]), b[n]);
      assert b == b[..n] + [b[n]];
    }
  }

  // ---------- Hexadecimal ----------

  function HexChar(v: int): (c: char)
    requires 0 <= v < 16
    ensures IsHexChar(c) && HexValue(c) == v && LowerChar(c) == c
  {
    if v < 10 then '0' + v as char else 'a' + (v - 10) as char
  }

  predicate IsHexChar(c: char)
  {
    '0' <= c <= '9' || 'a' <= c <= 'f' || 'A' <= c <= 'F'
  }

  function HexValue(c: char): (v: int)
    requires IsHexChar(c)
    ensures 0 <= v < 16
  {
    if '0' <= c <= '9' then c as int - '0' as int
    else if 'a' <= c <= 'f' then c as int - 'a' as int + 10
    else c as int - 'A' as int + 10
  }

  /** Lower case, on the characters that hexadecimal uses. */
  function LowerChar(c: char): char
  {
    if 'A' <= c <= 'F' then 'a' + (c - 'A') else c
  }

  function Lower(s: string): (t: string)
    ensures |t| == |s| && forall i :: 0 <= i < |s| ==> t[i] == LowerChar(s[i])
  {
    if s == [] then [] else [LowerChar(s[0])] + Lower(s[1..])
  }

  predicate IsHex(s: string)
  {
    |s| % 2 == 0 && forall i :: 0 <= i < |s| ==> IsHexChar(s[i])
  }

  /** Two hexadecimal digits to the byte. */
  function HexDecode(s: string): (b: bytes)
    requires IsHex(s)
    ensures |b| == |s| / 2
  {
    if s == [] then [] else
    [16 * HexValue(s[0]) + HexValue(s[1])] + HexDecode(s[2..])
  }

  /** bytesToHex. */
  function HexEncode(b: bytes): (s: string)
    ensures |s| == 2 * |b| && IsHex(s) && Lower(s) == s
  {
    if b == [] then [] else
    var v := b[0];
    [HexChar(v / 16), HexChar(v % 16)] + HexEncode(b[1..])
  }

  lemma {:induction false} HexRoundTrip(b: bytes)
    ensures HexDecode(HexEncode(b)) == b
    decreases |b|
  {
    if b != [] {
      var v := b[0];
      HexRoundTrip(b[1..]);
      assert b == [v] + b[1..];
      EncodeByte(v, b[1..]);
      DecodePair(HexEncode(b));
      assert HexEncode(b)[2..] == HexEncode(b[1..]);
      assert 16 * (v / 16) + v % 16 == v;
    }
  }

  lemma HexPair(c: char, d: char)
    requires IsHexChar(c) && IsHexChar(d)
    ensures var v := 16 * HexValue(c) + HexValue(d);
            HexChar(v / 16) == LowerChar(c) && HexChar(v % 16) == LowerChar(d)
  {
    var h, l := HexValue(c), HexValue(d);
    DivModUnique(16 * h + l, 16, h, l);
  }

  lemma EncodeByte(v: byte, b: bytes)
    ensures HexEncode([v] + b) == [HexChar(v / 16), HexChar(v % 16)] + HexEncode(b)
  {
    assert ([v] + b)[1..] == b;
  }

  lemma EncodePair(c: char, d: char, b: bytes)
    requires IsHexChar(c) && IsHexChar(d)
    ensures HexEncode([16 * HexValue(c) + HexValue(d)] + b) == [LowerChar(c), LowerChar(d)] + HexEncode(b)
  {
    HexPair(c, d);
    EncodeByte(16 * HexValue(c) + HexValue(d), b);
  }

  lemma DecodePair(s: string)
    requires IsHex(s) && s != []
    ensures HexDecode(s) == [16 * HexValue(s[0]) + HexValue(s[1])] + HexDecode(s[2..])
  {
  }

  /** Writing decoded digits gives them back in lower case. */
  lemma {:induction false} HexRoundTripBack(s: string)
    requires IsHex(s)
    ensures HexEncode(HexDecode(s)) == Lower(s)
    decreases |s|
  {
    if s != [] {
      var rest := HexDecode(s[2..]);
      HexRoundTripBack(s[2..]);
      DecodePair(s);
      EncodePair(s[0], s[1], rest);
      LowerPair(s);
    }
  }

  lemma LowerPair(s: string)
    requires |s| >= 2
    ensures Lower(s) == [LowerChar(s[0]), LowerChar(s[1])] + Lower(s[2..])
  {
    assert s[1..][1..] == s[2..];
  }
}
