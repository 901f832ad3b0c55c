/** The JavaScript string operations that the modelled code relies on: split, trim and the lenient
    reading of hexadecimal by parseInt. */
module Text {
  import opened Results
  import opened Bytes

  // ---------- split ----------

  predicate OccursAt(s: string, sep: string, i: int)
  {
    0 <= i <= |s| - |sep| && s[i..i + |sep|] == sep
  }

  /** The first place where sep occurs in s. */
  function Find(s: string, sep: string): (r: Option<nat>)
    ensures r.None? ==> forall i :: !OccursAt(s, sep, i)
    ensures r.Some? ==> OccursAt(s, sep, r.value) && forall i :: 0 <= i < r.value ==> !OccursAt(s, sep, i)
  {
    FindFrom(s, sep, 0)
  }

  function FindFrom(s: string, sep: string, from: nat): (r: Option<nat>)
    requires from <= |s|
    ensures r.None? ==> forall i :: from <= i ==> !OccursAt(s, sep, i)
    ensures r.Some? ==> OccursAt(s, sep, r.value) && forall i :: from <= i < r.value ==> !OccursAt(s, sep, i)
    decreases |s| - from
  {
    if OccursAt(s, sep, from) then Some(from)
    else if from == |s| then None
    else FindFrom(s, sep, from + 1)
  }

  /** s.split(sep). */
  function Split(s: string, sep: string): (pieces: seq<string>)
    requires sep != ""
    ensures pieces != []
    decreases |s|
  {
    match Find(s, sep)
    case None => [s]
    case Some(i) => [s[..i]] + Split(s[i + |sep|..], sep)
  }

  function Join(pieces: seq<string>, sep: string): string
    requires pieces != []
  {
    if |pieces| == 1 then pieces[0] else pieces[0] + sep + Join(pieces[1..], sep)
  }

  /** The pieces make up the string again and none of them contains the separator. */
  lemma {:induction false} SplitPieces(s: string, sep: string)
    requires sep != ""
    ensures Join(Split(s, sep), sep) == s
    ensures forall k, i :: 0 <= k < |Split(s, sep)| ==> !OccursAt(Split(s, sep)[k], sep, i)
    decreases |s|
  {
    var found := Find(s, sep);
    if found.Some? {
      var i := found.value;
      var rest := s[i + |sep|..];
      SplitPieces(rest, sep);
      assert Split(s, sep)[1..] == Split(rest, sep);
      assert s == s[..i] + sep + rest;
      forall j
        ensures !OccursAt(s[..i], sep, j)
      {
        OccursInPrefix(s, sep, i, j);
      }
    }
  }

  lemma OccursInPrefix(s: string, sep: string, i: nat, j: int)
    requires i <= |s|
    ensures OccursAt(s[..i], sep, j) ==> OccursAt(s, sep, j)
  {
    if OccursAt(s[..i], sep, j) { assert s[..i][j..j + |sep|] == s[j..j + |sep|]; }
  }

  lemma NotThere(s: string, sep: string, i: nat)
    requires sep != "" && i < |s| && s[i] != sep[0]
    ensures !OccursAt(s, sep, i)
  {
    if i + |sep| <= |s| { assert s[i..i + |sep|][0] == s[i]; }
  }

  /** The separator occurs in s at position j, and between from and j nowhere; or j is the end and it occurs nowhere. */
  ghost predicate NextAt(s: string, sep: string, from: nat, j: nat)
  {
    && from <= j <= |s|
    && (forall k :: from <= k < j ==> !OccursAt(s, sep, k))
    && (j == |s| || OccursAt(s, sep, j))
  }

  lemma OccursAfter(s: string, sep: string, from: nat, k: nat)
    requires from <= |s|
    ensures OccursAt(s[from..], sep, k) <==> OccursAt(s, sep, from + k)
  {
    if from + k + |sep| <= |s| { assert s[from..][k..k + |sep|] == s[from + k..from + k + |sep|]; }
  }

  /** The first piece reaches to the first separator or the end. */
  lemma FirstPiece(s: string, sep: string, i: nat)
    requires sep != "" && NextAt(s, sep, 0, i)
    ensures Split(s, sep) == if i < |s| then [s[..i]] + Split(s[i + |sep|..], sep) else [s]
  {
    if i < |s| { assert OccursAt(s, sep, i); }
  }

  lemma NextAfter(s: string, sep: string, from: nat, j: nat)
    requires NextAt(s, sep, from, j)
    ensures NextAt(s[from..], sep, 0, j - from)
  {
    forall k | 0 <= k < j - from
      ensures !OccursAt(s[from..], sep, k)
    {
      OccursAfter(s, sep, from, k);
    }
    OccursAfter(s, sep, from, j - from);
  }

  /** The second piece reaches from the first separator to the next one or the end. */
  lemma FirstPieces(s: string, sep: string, i: nat, j: nat)
    requires sep != "" && NextAt(s, sep, 0, i) && i < |s| && NextAt(s, sep, i + |sep|, j)
    ensures |Split(s, sep)| >= 2 && Split(s, sep)[0] == s[..i] && Split(s, sep)[1] == s[i + |sep|..j]
  {
    var from := i + |sep|;
    FirstPiece(s, sep, i);
    NextAfter(s, sep, from, j);
    SecondPiece(s, sep, from, j);
    assert Split(s, sep)[1] == Split(s[from..], sep)[0];
  }

  lemma SecondPiece(s: string, sep: string, from: nat, j: nat)
    requires sep != "" && from <= j <= |s| && NextAt(s[from..], sep, 0, j - from)
    ensures Split(s[from..], sep)[0] == s[from..j]
  {
    FirstPiece(s[from..], sep, j - from);
    assert s[from..][..j - from] == s[from..j];
  }

  /** A separator whose first character occurs in neither part splits exactly between them. */
  lemma SplitOnce(a: string, b: string, sep: string)
    requires sep != "" && sep[0] !in a && sep[0] !in b
    ensures Split(a + sep + b, sep) == [a, b]
  {
    var s := a + sep + b;
    assert OccursAt(s, sep, |a|);
    forall i | 0 <= i < |a|
      ensures !OccursAt(s, sep, i)
    {
      assert s[i] == a[i];
      NotThere(s, sep, i);
    }
    assert s[..|a|] == a && s[|a| + |sep|..] == b;
    forall i | 0 <= i < |b|
      ensures !OccursAt(b, sep, i)
    {
      NotThere(b, sep, i);
    }
    assert Split(b, sep) == [b];
  }

  // ---------- trim ----------

  /** White space and line terminators of ECMAScript. */
  predicate IsSpace(c: char)
  {
    var v := c as int;
    9 <= v <= 13 || v == 32 || v == 160 || v == 5760 || 8192 <= v <= 8202
    || v == 8232 || v == 8233 || v == 8239 || v == 8287 || v == 12288 || v == 65279
  }

  function TrimStart(s: string): (t: string)
    ensures t == "" || !IsSpace(t[0])
    ensures |t| <= |s| && t == s[|s| - |t|..]
    ensures forall i :: 0 <= i < |s| - |t| ==> IsSpace(s[i])
  {
    if s != "" && IsSpace(s[0]) then TrimStart(s[1..]) else s
  }

  function TrimEnd(s: string): (t: string)
    ensures t == "" || !IsSpace(t[|t| - 1])
    ensures |t| <= |s| && t == s[..|t|]
    ensures forall i :: |t| <= i < |s| ==> IsSpace(s[i])
  {
    if s != "" && IsSpace(s[|s| - 1]) then TrimEnd(s[..|s| - 1]) else s
  }

  function Trim(s: string): string
  {
    TrimEnd(TrimStart(s))
  }

  /** White space and line terminators of ECMAScript (sections 12.2 and 12.3): tab, line feed, vertical tab, form feed,
      carriage return, the spaces of category Zs, the two separators and the byte order mark. */
  const WHITE_SPACE: seq<int> := [
    0x9, 0xA, 0xB, 0xC, 0xD, 0x20, 0xA0, 0x1680,
    0x2000, 0x2001, 0x2002, 0x2003, 0x2004, 0x2005, 0x2006, 0x2007, 0x2008, 0x2009, 0x200A,
    0x2028, 0x2029, 0x202F, 0x205F, 0x3000, 0xFEFF]

  lemma SpacesOfStandard(c: char)
    ensures IsSpace(c) <==> c as int in WHITE_SPACE
  {
    if IsSpace(c) {
      var v := c as int;
      var k := if v <= 13 then v - 9 else if v == 32 then 5 else if v == 160 then 6 else if v == 5760 then 7
               else if v <= 8202 then v - 8192 + 8 else if v <= 8233 then v - 8232 + 19
               else if v == 8239 then 21 else if v == 8287 then 22 else if v == 12288 then 23 else 24;
      assert WHITE_SPACE[k] == v;
    }
  }

  ghost predicate AllSpaces(s: string)
  {
    forall i :: 0 <= i < |s| ==> IsSpace(s[i])
  }

  /** trim takes away all white space around the text, and nothing else. */
  lemma TrimAround(front: string, s: string, back: string)
    requires AllSpaces(front) && AllSpaces(back)
    requires s == "" || (!IsSpace(s[0]) && !IsSpace(s[|s| - 1]))
    ensures Trim(front + s + back) == s
  {
    if s == "" {
      assert front + s + back == front + back;
      TrimSpaces(front + back);
    } else {
      assert front + s + back == front + (s + back);
      TrimFront(front, s + back);
      TrimBack(s, back);
    }
  }

  lemma TrimSpaces(s: string)
    requires AllSpaces(s)
    ensures Trim(s) == ""
  {
    assert s + "" == s;
    TrimFront(s, "");
  }

  lemma {:induction false} TrimFront(front: string, s: string)
    requires AllSpaces(front)
    ensures TrimStart(front + s) == TrimStart(s)
    decreases |front|
  {
    if front == "" {
      assert front + s == s;
    } else {
      assert (front + s)[1..] == front[1..] + s;
      TrimFront(front[1..], s);
    }
  }

  lemma TrimBack(s: string, back: string)
    requires AllSpaces(back) && s != "" && !IsSpace(s[0]) && !IsSpace(s[|s| - 1])
    ensures TrimStart(s + back) == s + back && Trim(s + back) == s
  {
    var all, t := s + back, TrimEnd(s + back);
    assert all[|s| - 1] == s[|s| - 1];
    assert forall i :: |s| <= i < |all| ==> all[i] == back[i - |s|];
  }

  // ---------- parseInt(_, 16) on pairs ----------

  /** parseInt(s, 16) of ECMAScript (section 19.2.5): after white space, a sign and 0x, the number that the longest
      run of digits spells; None stands for NaN. */
  function ParseInt16(s: string): Option<int>
  {
    ParseSigned(TrimStart(s))
  }

  function ParseSigned(t: string): Option<int>
  {
    if t != "" && t[0] == '+' then ParseDigits(t[1..], 1)
    else if t != "" && t[0] == '-' then ParseDigits(t[1..], -1)
    else ParseDigits(t, 1)
  }

  function ParseDigits(u: string, sign: int): Option<int>
  {
    var v := if |u| >= 2 && u[0] == '0' && (u[1] == 'x' || u[1] == 'X') then u[2..] else u;
    var digits := LeadingDigits(v);
    if digits == "" then None else Some(sign * HexNumber(digits))
  }

  function LeadingDigits(s: string): (d: string)
    ensures forall i :: 0 <= i < |d| ==> IsHexChar(d[i])
  {
    if s != "" && IsHexChar(s[0]) then [s[0]] + LeadingDigits(s[1..]) else ""
  }

  function HexNumber(s: string): nat
    requires forall i :: 0 <= i < |s| ==> IsHexChar(s[i])
  {
    if s == "" then 0 else 16 * HexNumber(s[..|s| - 1]) + HexValue(s[|s| - 1])
  }

  /** The digits are those of both cases, in order. */
  lemma HexDigits(v: nat)
    requires v < 16
    ensures var lower, upper := "0123456789abcdef"[v], "0123456789ABCDEF"[v];
            IsHexChar(lower) && HexValue(lower) == v && IsHexChar(upper) && HexValue(upper) == v
  {
  }

  /** What a byte becomes when parseInt of two characters is stored in it: NaN is stored as 0, other numbers
      modulo 256. */
  lemma PairIsParsed(c: char, d: char)
    ensures ParsePair(c, d) == ToByte(ParseInt16([c, d]))
  {
    TrimPair(c, d);
    if IsSpace(c) {
      PairAfterSpace(c, d);
    } else if c == '+' || c == '-' {
      PairAfterSign(c, d);
    } else if c == '0' && (d == 'x' || d == 'X') {
      PairOfPrefix(d);
    } else {
      PairOfDigits(c, d);
    }
  }

  function ToByte(v: Option<int>): byte
  {
    if v.Some? then v.value % 256 else 0
  }

  lemma TrimPair(c: char, d: char)
    ensures TrimStart([c, d]) == if !IsSpace(c) then [c, d] else if !IsSpace(d) then [d] else ""
  {
    assert [c, d][1..] == [d] && [d][1..] == "";
  }

  lemma PairAfterSpace(c: char, d: char)
    requires IsSpace(c)
    ensures ParsePair(c, d) == ToByte(ParseSigned(if !IsSpace(d) then [d] else ""))
  {
    SingleDigits(d);
    assert [d][1..] == "";
  }

  lemma PairAfterSign(c: char, d: char)
    requires c == '+' || c == '-'
    ensures ParsePair(c, d) == ToByte(ParseSigned([c, d]))
  {
    assert [c, d][1..] == [d];
    SingleDigits(d);
  }

  lemma PairOfPrefix(d: char)
    requires d == 'x' || d == 'X'
    ensures ParsePair('0', d) == ToByte(ParseSigned(['0', d]))
  {
    assert ['0', d][2..] == "";
  }

  lemma SingleDigits(d: char)
    ensures LeadingDigits([d]) == if IsHexChar(d) then [d] else ""
    ensures IsHexChar(d) ==> HexNumber([d]) == HexValue(d)
    ensures LeadingDigits("") == ""
  {
    assert [d][..0] == "";
  }

  lemma PairOfDigits(c: char, d: char)
    requires !IsSpace(c) && c != '+' && c != '-' && !(c == '0' && (d == 'x' || d == 'X'))
    ensures ParsePair(c, d) == ToByte(ParseSigned([c, d]))
  {
    DigitsOfPair(c, d);
  }

  lemma DigitsOfPair(c: char, d: char)
    ensures LeadingDigits([c, d]) == if !IsHexChar(c) then "" else if IsHexChar(d) then [c, d] else [c]
    ensures IsHexChar(c) && IsHexChar(d) ==> HexNumber([c, d]) == 16 * HexValue(c) + HexValue(d)
    ensures IsHexChar(c) ==> HexNumber([c]) == HexValue(c)
  {
    assert [c, d][1..] == [d];
    assert [c, d][..1] == [c];
    SingleDigits(c);
    SingleDigits(d);
  }

  /** parseInt of two characters in base 16, stored in a byte: leading white space and a sign are
      accepted, reading stops at the first other character, and no digit at all gives 0. */
  function ParsePair(c: char, d: char): byte
  {
    if IsHexChar(c) then
      if IsHexChar(d) then 16 * HexValue(c) + HexValue(d) else HexValue(c)
    else if IsHexChar(d) && (IsSpace(c) || c == '+') then HexValue(d)
    else if IsHexChar(d) && c == '-' then (256 - HexValue(d)) % 256
    else 0
  }

  // ---------- Code units ----------

  /** A JavaScript string is a sequence of UTF-16 code units. */
  type CodeUnit = n: int | 0 <= n < 0x10000

  /** A character above U+FFFF is a pair of surrogates. */
  function UnitsOf(c: char): seq<CodeUnit>
  {
    var v := c as int;
    if v < 0x10000 then [v] else [0xD800 + (v - 0x10000) / 0x400, 0xDC00 + (v - 0x10000) % 0x400]
  }

  function CodeUnits(s: string): (u: seq<CodeUnit>)
    ensures (forall i :: 0 <= i < |s| ==> s[i] as int < 0x10000) ==>
              |u| == |s| && forall i :: 0 <= i < |s| ==> u[i] == s[i] as int
  {
    if s == "" then [] else UnitsOf(s[0]) + CodeUnits(s[1..])
  }

  /** A pair of surrogates stands for the character with twenty bits above U+FFFF that they hold, ten each. */
  lemma UnitsStandFor(c: char)
    ensures var u := UnitsOf(c);
            if |u| == 1 then u[0] == c as int else
            && |u| == 2 && 0xD800 <= u[0] < 0xDC00 <= u[1] < 0xE000
            && var high: int, low: int := u[0] as int - 0xD800, u[1] as int - 0xDC00;
               c as int == 0x10000 + high * 0x400 + low
  {
  }

  /** The character of a code unit on its own. A surrogate, which is no digit, sign or white space, is
      read as the replacement character, which is none either. */
  function UnitChar(u: CodeUnit): char
  {
    if 0xD800 <= u < 0xE000 then '\U{FFFD}' else u as char
  }

  /** The bytes of pairs of code units: an odd last one is dropped. */
  function ParseUnits(u: seq<CodeUnit>): (b: bytes)
    ensures |b| == |u| / 2
  {
    if |u| < 2 then [] else [ParsePair(UnitChar(u[0]), UnitChar(u[1]))] + ParseUnits(u[2..])
  }

  /** utils.hexToBytes of pure-secp256k1.js. */
  function ParseHex(s: string): bytes
  {
    ParseUnits(CodeUnits(s))
  }

  lemma {:induction false} ParseUnitsValid(s: string, u: seq<CodeUnit>)
    requires IsHex(s) && |u| == |s| && forall i :: 0 <= i < |s| ==> u[i] == s[i] as int
    ensures ParseUnits(u) == HexDecode(s)
    decreases |s|
  {
    if s != "" { ParseUnitsValid(s[2..], u[2..]); }
  }

  /** On hexadecimal text the lenient reading is the usual one. */
  lemma ParseHexValid(s: string)
    requires IsHex(s)
    ensures ParseHex(s) == HexDecode(s)
  {
    assert forall i :: 0 <= i < |s| ==> IsHexChar(s[i]);
    ParseUnitsValid(s, CodeUnits(s));
  }

  /** The loop of utils.hexToBytes over the code units of the string. */
  method ParseHexLoop(s: string) returns (a: array<byte>)
    ensures fresh(a) && a[..] == ParseHex(s)
  {
    var u := CodeUnits(s);
    a := new byte[|u| / 2];
    for i := 0 to a.Length
      invariant a[..i] + ParseUnits(u[2 * i..]) == ParseUnits(u)
    {
      ghost var done := a[..i];
      ParseUnitsNext(done, u, i);
      a[i] := ParsePair(UnitChar(u[2 * i]), UnitChar(u[2 * i + 1]));
      assert a[..i + 1] == done + [a[i]];
    }
    assert a[..a.Length] == a[..];
  }

  lemma ParseUnitsNext(done: bytes, u: seq<CodeUnit>, i: nat)
    requires 2 * i + 1 < |u|
    ensures done + ParseUnits(u[2 * i..]) ==
              (done + [ParsePair(UnitChar(u[2 * i]), UnitChar(u[2 * i + 1]))]) + ParseUnits(u[2 * (i + 1)..])
  {
    assert u[2 * i..][2..] == u[2 * (i + 1)..];
  }
}
