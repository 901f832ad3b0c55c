/** hexToNpub and hexToNsec of nostr-utils.js. */
module Npub {
  import opened Results
  import opened Bytes
  import opened Text
  import opened Regrouping
  import opened Bech32

  /** hexToBytes: the text without surrounding white space must be a non-empty even number of
      hexadecimal digits. */
  function HexToBytes(hex: string): Result<bytes>
  {
    var normalized := Trim(hex);
    if normalized == "" || !IsHex(normalized) then Err(InvalidHex) else Ok(HexDecode(normalized))
  }

  /** bytesToHex writes what hexToBytes reads back, but for the empty byte string, whose text is refused. */
  lemma BytesRoundTripHex(b: bytes)
    ensures HexToBytes(HexEncode(b)) == if b == [] then Err(InvalidHex) else Ok(b)
  {
    var s := HexEncode(b);
    HexRoundTrip(b);
    if b != [] {
      HexNotSpace(s[0]);
      HexNotSpace(s[|s| - 1]);
      assert TrimStart(s) == s;
    } else {
      assert Trim(s) == "";
    }
  }

  lemma HexNotSpace(c: char)
    requires IsHexChar(c)
    ensures !IsSpace(c)
  {
  }

  /** What hexToBytes reads, bytesToHex writes in lower case and without the surrounding white space. */
  lemma HexRoundTripBytes(hex: string)
    ensures HexToBytes(hex).Ok? ==> HexEncode(HexToBytes(hex).value) == Lower(Trim(hex))
  {
    if HexToBytes(hex).Ok? { HexRoundTripBack(Trim(hex)); }
  }

  function SymbolOf(i: int): symbol
    requires 0 <= i < 32
  {
    (i as bv5) as bv32
  }

  lemma SymbolOfBack(i: int)
    requires 0 <= i < 32
    ensures SymbolOf(i) as int == i
  {
  }

  function SymbolsOf(words: seq<int>): (s: seq<symbol>)
    requires forall i :: 0 <= i < |words| ==> 0 <= words[i] < 32
    ensures |s| == |words|
  {
    seq(|words|, i requires 0 <= i < |words| => SymbolOf(words[i]))
  }

  function NumbersOf(symbols: seq<symbol>): seq<int>
  {
    seq(|symbols|, i requires 0 <= i < |symbols| => symbols[i] as int)
  }

  lemma NumbersBack(words: seq<int>)
    requires forall i :: 0 <= i < |words| ==> 0 <= words[i] < 32
    ensures NumbersOf(SymbolsOf(words)) == words
  {
    forall i | 0 <= i < |words|
      ensures NumbersOf(SymbolsOf(words))[i] == words[i]
    {
      SymbolOfBack(words[i]);
    }
  }

  /** The five-bit words of a byte string. */
  ghost function Words(b: bytes): (s: seq<symbol>)
  {
    ByteWords(b);
    SymbolsOf(Convert(b, 8, 5, true).value)
  }

  lemma ByteWords(b: bytes)
    ensures Convert(b, 8, 5, true).Some?
    ensures Convert(Convert(b, 8, 5, true).value, 5, 8, false) == Some(b)
    ensures InRange(Convert(b, 8, 5, true).value, 32)
  {
    FiveBitRoundTrip(b);
  }

  /** hexToNpub and hexToNsec, for their two human-readable parts. An exception becomes null. */
  ghost function HexToText(hrp: string, hex: string): Option<string>
  {
    match HexToBytes(hex)
    case Err(_) => None
    case Ok(b) => Some(Encode(hrp, Words(b)))
  }

  method HexToTextLoop(hrp: string, hex: string) returns (r: Option<string>)
    ensures r == HexToText(hrp, hex)
  {
    match HexToBytes(hex) {
      case Err(_) => return None;
      case Ok(b) =>
        ByteWords(b);
        SmallWords(b);
        var words := ConvertBits(b, 8, 5, true);
        if words.None? { return None; }
        var text := EncodeLoop(hrp, SymbolsOf(words.value));
        return Some(text);
    }
  }

  method HexToNpub(hex: string) returns (r: Option<string>)
    ensures r == HexToText("npub", hex)
  {
    r := HexToTextLoop("npub", hex);
  }

  method HexToNsec(hex: string) returns (r: Option<string>)
    ensures r == HexToText("nsec", hex)
  {
    r := HexToTextLoop("nsec", hex);
  }

  /** The bytes that a text spells for a part, for a decoder that checks the checksum and regroups
      strictly. */
  ghost predicate Decodes(hrp: string, text: string, b: bytes)
  {
    exists symbols ::
      && Reads(hrp, text, symbols) && 6 <= |symbols| && Checks(hrp, symbols)
      && Convert(NumbersOf(symbols[..|symbols| - 6]), 5, 8, false) == Some(b)
  }

  /** The text decodes to the bytes that were encoded, and to no others. */
  lemma TextDecodes(hrp: string, b: bytes, d: bytes)
    ensures Decodes(hrp, Encode(hrp, Words(b)), d) <==> d == b
  {
    var data := Words(b);
    var combined := data + CreateChecksum(hrp, data);
    var text := Encode(hrp, data);
    ByteWords(b);
    NumbersBack(Convert(b, 8, 5, true).value);
    EncodeAccepted(hrp, data);
    ChecksumChecks(hrp, data);
    assert combined[..|combined| - 6] == data;
    assert Reads(hrp, text, combined);
    assert Convert(NumbersOf(combined[..|combined| - 6]), 5, 8, false) == Some(b);
    assert Decodes(hrp, text, b);
  }

  /** A result is given exactly for valid hexadecimal, and it decodes to the bytes written there. */
  lemma HexDecodes(hrp: string, hex: string)
    ensures HexToText(hrp, hex).Some? <==> Trim(hex) != "" && IsHex(Trim(hex))
    ensures HexToText(hrp, hex).Some? ==> Decodes(hrp, HexToText(hrp, hex).value, HexDecode(Trim(hex)))
  {
    if HexToText(hrp, hex).Some? { TextDecodes(hrp, HexDecode(Trim(hex)), HexDecode(Trim(hex))); }
  }

  /** Two valid inputs give the same text exactly when they differ only in letter case and in
      surrounding white space. */
  lemma SameTextIff(hrp: string, g: string, h: string)
    requires HexToText(hrp, g).Some? && HexToText(hrp, h).Some?
    ensures HexToText(hrp, g) == HexToText(hrp, h) <==> Lower(Trim(g)) == Lower(Trim(h))
  {
    var s, t := Trim(g), Trim(h);
    HexRoundTripBack(s);
    HexRoundTripBack(t);
    LowerDecode(s);
    LowerDecode(t);
    TextDecodes(hrp, HexDecode(s), HexDecode(t));
    TextDecodes(hrp, HexDecode(t), HexDecode(t));
  }

  /** Letter case does not change what hexadecimal says. */
  lemma LowerDecode(s: string)
    requires IsHex(s)
    ensures IsHex(Lower(s)) && HexDecode(Lower(s)) == HexDecode(s)
  {
    HexRoundTripBack(s);
    HexRoundTrip(HexDecode(s));
  }
}
