/** The Bech32 encoder of nostr-utils.js, after the "Bech32" section of BIP 173. */
module Bech32 {
  import opened Text
  import opened AbelianGroup
  import opened LinearRegister

  type word = bv32
  type symbol = v: bv32 | v < 32 witness 0

  const CHARSET := "qpzry9x8gf2tvdw0s3jn54khce6mua7l"

  function Generator(i: nat): word
  {
    if i == 0 then 0x3b6a57b2 else if i == 1 then 0x26508e6d else if i == 2 then 0x1ea119fa
    else if i == 3 then 0x3d4233dd else 0x2a1462b3
  }

  // ---------- The checksum register ----------

  function Shifted(chk: word): word
  {
    (chk & 0x1ffffff) << 5
  }

  predicate Bit(top: word, i: nat)
  {
    i < 5 && (top >> i) & 1 != 0
  }

  predicate OutBit(chk: word, i: nat)
  {
    Bit(chk >> 25, i)
  }

  function Mix(a: word, b: word): word
  {
    a ^ b
  }

  function WordGroup(): Group<word>
  {
    Group(Mix, a => a, 0, a => true)
  }

  /** The 30-bit register of BIP 173. */
  function Polynomial(): Register<word>
  {
    Register(WordGroup(), Shifted, OutBit, Generator, 5)
  }

  function Check(chk: word, values: seq<word>): word
  {
    Run(Polynomial(), chk, values)
  }

  /** bech32Polymod. */
  method Polymod(values: seq<word>) returns (chk: word)
    ensures chk == Check(1, values)
  {
    chk := 1;
    for j := 0 to |values|
      invariant Check(chk, values[j..]) == Check(1, values)
    {
      assert values[j..][1..] == values[j + 1..];
      chk := PolymodStep(chk, values[j]);
    }
  }

  method PolymodStep(chk: word, value: word) returns (next: word)
    ensures next == Step(Polynomial(), chk, value)
  {
    ghost var r := Polynomial();
    var top := chk >> 25;
    next := Mix(Shifted(chk), value);
    ghost var start := next;
    MixZero(start);
    for i := 0 to 5
      invariant next == Mix(start, Taps(r, chk, i))
    {
      ghost var taps := Taps(r, chk, i);
      MixAssociates(start, taps, Generator(i));
      MixZero(taps);
      TapsNext(chk, i);
      if Bit(top, i) { next := Mix(next, Generator(i)); }
    }
  }

  lemma TapsNext(chk: word, i: nat)
    ensures Taps(Polynomial(), chk, i + 1) ==
              Mix(Taps(Polynomial(), chk, i), if Bit(chk >> 25, i) then Generator(i) else 0)
  {
  }

  lemma XorAssociates(a: word, b: word, c: word)
    ensures (a ^ b) ^ c == a ^ (b ^ c)
  {
  }

  lemma MixAssociates(a: word, b: word, c: word)
    ensures Mix(Mix(a, b), c) == Mix(a, Mix(b, c))
  {
    calc {
      Mix(Mix(a, b), c);
      Mix(a ^ b, c);
      (a ^ b) ^ c;
      { XorAssociates(a, b, c); }
      a ^ (b ^ c);
      Mix(a, b ^ c);
      Mix(a, Mix(b, c));
    }
  }

  lemma MixZero(a: word)
    ensures Mix(a, 0) == a && Mix(0, a) == a && Mix(a, a) == 0
  {
  }

  lemma MixCommutes(a: word, b: word)
    ensures Mix(a, b) == Mix(b, a)
  {
  }

  // ---------- Expansion, checksum, encoding ----------

  function HighPart(c: CodeUnit): word
  {
    (c as bv32) >> 5
  }

  function LowPart(c: CodeUnit): word
  {
    (c as bv32) & 31
  }

  function ExpandUnits(u: seq<CodeUnit>): seq<word>
  {
    Parts(HighPart, u) + [0] + Parts(LowPart, u)
  }

  /** bech32HrpExpand: the high parts of the code units, a zero, the low parts. */
  function HrpExpand(hrp: string): seq<word>
  {
    ExpandUnits(CodeUnits(hrp))
  }

  const SIX_ZEROS: seq<word> := [0, 0, 0, 0, 0, 0]

  /** Symbol p of the six that spell a 30-bit number, most significant first. */
  function Digit(n: word, p: word): symbol
    requires p < 6
  {
    (n >> (5 * (5 - p))) & 31
  }

  function Digits(n: word): (d: seq<symbol>)
    ensures |d| == 6
  {
    [Digit(n, 0), Digit(n, 1), Digit(n, 2), Digit(n, 3), Digit(n, 4), Digit(n, 5)]
  }

  function CreateChecksum(hrp: string, data: seq<word>): (c: seq<symbol>)
    ensures |c| == 6
  {
    Digits(Mix(Check(1, HrpExpand(hrp) + data + SIX_ZEROS), 1))
  }

  function CharOf(v: symbol): char
  {
    CHARSET[v as int]
  }

  /** charset[value] as text: "undefined" beyond the charset. */
  function TextOf(value: word): string
  {
    if value < 32 then [CharOf(value)] else "undefined"
  }

  function SpellWords(values: seq<word>): string
  {
    if values == [] then "" else SpellWords(values[..|values| - 1]) + TextOf(values[|values| - 1])
  }

  /** bech32Encode, for values of any 32 bits. */
  function Encode(hrp: string, data: seq<word>): string
  {
    hrp + "1" + SpellWords(data + CreateChecksum(hrp, data))
  }

  function Spell(symbols: seq<symbol>): string
  {
    seq(|symbols|, i requires 0 <= i < |symbols| => CharOf(symbols[i]))
  }

  /** Symbols are spelled with one character each. */
  lemma {:induction false} SpellSymbols(symbols: seq<symbol>)
    ensures SpellWords(symbols) == Spell(symbols)
    decreases |symbols|
  {
    if symbols != [] {
      var front := symbols[..|symbols| - 1];
      SpellSymbols(front);
      assert Spell(symbols) == Spell(front) + [CharOf(symbols[|symbols| - 1])];
    }
  }

  lemma EncodeSymbols(hrp: string, data: seq<symbol>)
    ensures Encode(hrp, data) == hrp + "1" + Spell(data + CreateChecksum(hrp, data))
  {
    SpellSymbols(data + CreateChecksum(hrp, data));
  }

  // ---------- The loops ----------

  function Parts(part: CodeUnit -> word, u: seq<CodeUnit>): seq<word>
  {
    seq(|u|, i requires 0 <= i < |u| => part(u[i]))
  }

  /** One of the two loops of bech32HrpExpand. */
  method PushParts(front: seq<word>, part: CodeUnit -> word, u: seq<CodeUnit>) returns (ret: seq<word>)
    ensures ret == front + Parts(part, u)
  {
    ret := front;
    for i := 0 to |u|
      invariant ret == front + Parts(part, u)[..i]
    {
      ret := ret + [part(u[i])];
    }
  }

  method HrpExpandLoop(hrp: string) returns (ret: seq<word>)
    ensures ret == HrpExpand(hrp)
  {
    var units := CodeUnits(hrp);
    ret := PushParts([], HighPart, units);
    ret := ret + [0];
    ret := PushParts(ret, LowPart, units);
  }

  function FirstDigits(n: word, p: word): seq<symbol>
    requires p <= 6
    decreases p
  {
    if p == 0 then [] else FirstDigits(n, p - 1) + [Digit(n, p - 1)]
  }

  lemma NextDigit(n: word, p: word)
    requires p < 6
    ensures FirstDigits(n, p + 1) == FirstDigits(n, p) + [Digit(n, p)]
  {
  }

  lemma AllDigits(n: word)
    ensures FirstDigits(n, 6) == Digits(n)
  {
    NextDigit(n, 0);
    NextDigit(n, 1);
    NextDigit(n, 2);
    NextDigit(n, 3);
    NextDigit(n, 4);
    NextDigit(n, 5);
  }

  method CreateChecksumLoop(hrp: string, data: seq<word>) returns (ret: seq<symbol>)
    ensures ret == CreateChecksum(hrp, data)
  {
    var values := HrpExpandLoop(hrp);
    values := values + data + SIX_ZEROS;
    var n := Polymod(values);
    var mod := Mix(n, 1);
    ret := [];
    var p: word := 0;
    while p < 6
      invariant p <= 6 && ret == FirstDigits(mod, p)
      decreases 6 - p
    {
      ret := ret + [Digit(mod, p)];
      p := p + 1;
    }
    AllDigits(mod);
  }

  lemma SpellNext(values: seq<word>, i: nat)
    requires i < |values|
    ensures SpellWords(values[..i + 1]) == SpellWords(values[..i]) + TextOf(values[i])
  {
    assert values[..i + 1][..i] == values[..i];
  }

  method SpellLoop(prefix: string, values: seq<word>) returns (ret: string)
    ensures ret == prefix + SpellWords(values)
  {
    ret := prefix;
    for i := 0 to |values|
      invariant ret == prefix + SpellWords(values[..i])
    {
      SpellNext(values, i);
      ret := ret + TextOf(values[i]);
    }
    assert values[..|values|] == values;
  }

  method EncodeLoop(hrp: string, data: seq<word>) returns (ret: string)
    ensures ret == Encode(hrp, data)
  {
    var checksum := CreateChecksumLoop(hrp, data);
    ret := SpellLoop(hrp + "1", data + checksum);
  }

  // ---------- The register is linear and loses nothing ----------

  lemma WordsAbelian()
    ensures IsAbelian(WordGroup())
    ensures forall a :: Doubles(WordGroup(), a)
  {
    var g := WordGroup();
    forall a, b, c
      ensures Associates(g, a, b, c) && Commutes(g, a, b) && Identity(g, a) && Doubles(WordGroup(), a)
    {
      MixAssociates(a, b, c);
      MixCommutes(a, b);
      MixZero(a);
    }
  }

  lemma ShiftXor(a: word, b: word)
    ensures ((a ^ b) & 0x1ffffff) << 5 == ((a & 0x1ffffff) << 5) ^ ((b & 0x1ffffff) << 5)
  {
  }

  lemma ShiftMix(a: word, b: word)
    ensures Shifted(Mix(a, b)) == Mix(Shifted(a), Shifted(b))
  {
    ShiftXor(a, b);
  }

  /** Outgoing bit i, read with a mask. */
  predicate MaskBit(chk: word, i: nat)
  {
    if i == 0 then chk & 0x2000000 != 0
    else if i == 1 then chk & 0x4000000 != 0
    else if i == 2 then chk & 0x8000000 != 0
    else if i == 3 then chk & 0x10000000 != 0
    else i == 4 && chk & 0x20000000 != 0
  }

  lemma OutBitMask(chk: word, i: nat)
    ensures OutBit(chk, i) == MaskBit(chk, i)
  {
    if i < 5 {
      assert OutBit(chk, 0) == MaskBit(chk, 0);
      assert OutBit(chk, 1) == MaskBit(chk, 1);
      assert OutBit(chk, 2) == MaskBit(chk, 2);
      assert OutBit(chk, 3) == MaskBit(chk, 3);
      assert OutBit(chk, 4) == MaskBit(chk, 4);
    }
  }

  lemma MaskBitXor(a: word, b: word, i: nat)
    ensures MaskBit(a ^ b, i) == (MaskBit(a, i) != MaskBit(b, i))
  {
  }

  lemma OutBitMix(a: word, b: word, i: nat)
    ensures OutBit(Mix(a, b), i) == (OutBit(a, i) != OutBit(b, i))
  {
    OutBitMask(a, i);
    OutBitMask(b, i);
    OutBitMask(Mix(a, b), i);
    MaskBitXor(a, b, i);
  }

  lemma ShiftAddsAt(a: word, b: word)
    ensures ShiftAdds(Polynomial(), a, b)
  {
    ShiftMix(a, b);
  }

  lemma ChoiceAddsAt(a: word, b: word, i: nat)
    ensures ChoiceAdds(Polynomial(), a, b, i)
  {
    OutBitMix(a, b, i);
  }

  lemma PolynomialLinear()
    ensures Linear(Polynomial())
  {
    WordsAbelian();
    forall a, b
      ensures ShiftAdds(Polynomial(), a, b)
    {
      ShiftAddsAt(a, b);
    }
    forall a, b, i
      ensures ChoiceAdds(Polynomial(), a, b, i)
    {
      ChoiceAddsAt(a, b, i);
    }
  }

  predicate Small(x: word) { x < 0x40000000 }

  lemma MixSmall(a: word, b: word)
    requires Small(a) && Small(b)
    ensures Small(Mix(a, b))
  {
  }

  lemma {:induction false} TapsSmall(chk: word, i: nat)
    ensures Small(Taps(Polynomial(), chk, i))
    decreases i
  {
    if i > 0 {
      var tap := if Bit(chk >> 25, i - 1) then Generator(i - 1) else 0;
      TapsSmall(chk, i - 1);
      TapsNext(chk, i - 1);
      MixSmall(Taps(Polynomial(), chk, i - 1), tap);
    }
  }

  lemma ShiftedSmall(chk: word)
    ensures Small(Shifted(chk))
  {
  }

  /** The register keeps to 30 bits. */
  lemma StepSmall(chk: word, v: word)
    requires Small(v)
    ensures Small(Step(Polynomial(), chk, v))
  {
    TapsSmall(chk, 5);
    ShiftedSmall(chk);
    MixSmall(Shifted(chk), v);
    MixSmall(Mix(Shifted(chk), v), Taps(Polynomial(), chk, 5));
  }

  function Tap(chk: word, i: nat): word
  {
    if MaskBit(chk, i) then Generator(i) else 0
  }

  function AllTaps(chk: word): word
  {
    Mix(Mix(Mix(Mix(Tap(chk, 0), Tap(chk, 1)), Tap(chk, 2)), Tap(chk, 3)), Tap(chk, 4))
  }

  lemma TapsAll(chk: word)
    ensures Taps(Polynomial(), chk, 5) == AllTaps(chk)
  {
    var r := Polynomial();
    forall i: nat
      ensures Taps(r, chk, i + 1) == Mix(Taps(r, chk, i), Tap(chk, i))
    {
      TapsNext(chk, i);
      OutBitMask(chk, i);
    }
    MixZero(Tap(chk, 0));
    assert Taps(r, chk, 0 + 1) == Tap(chk, 0);
    assert Taps(r, chk, 1 + 1) == Mix(Tap(chk, 0), Tap(chk, 1));
    assert Taps(r, chk, 2 + 1) == Mix(Mix(Tap(chk, 0), Tap(chk, 1)), Tap(chk, 2));
    assert Taps(r, chk, 3 + 1) == Mix(Mix(Mix(Tap(chk, 0), Tap(chk, 1)), Tap(chk, 2)), Tap(chk, 3));
    assert Taps(r, chk, 4 + 1) == AllTaps(chk);
  }

  lemma NoTaps(chk: word)
    requires chk < 0x2000000
    ensures AllTaps(chk) == 0
  {
  }

  lemma OnlyZeroVanishes(chk: word)
    requires Small(chk) && Mix(Shifted(chk), AllTaps(chk)) == 0
    ensures chk == 0
  {
  }

  lemma StepClosed(chk: word, v: word)
    ensures Step(Polynomial(), chk, v) == Mix(Mix(Shifted(chk), v), AllTaps(chk))
  {
    TapsAll(chk);
  }

  lemma MixEqual(a: word, b: word)
    requires Mix(a, b) == 0
    ensures a == b
  {
  }

  lemma StepInjective(a: word, b: word, v: word)
    requires Small(a) && Small(b) && Step(Polynomial(), a, v) == Step(Polynomial(), b, v)
    ensures a == b
  {
    PolynomialLinear();
    StepKernel(Polynomial(), a, b, v);
    StepClosed(Mix(a, b), 0);
    MixZero(Shifted(Mix(a, b)));
    MixSmall(a, b);
    OnlyZeroVanishes(Mix(a, b));
    MixEqual(a, b);
  }

  ghost predicate AllSmall(values: seq<word>)
  {
    forall i :: 0 <= i < |values| ==> Small(values[i])
  }

  lemma {:induction false} CheckSmall(chk: word, values: seq<word>)
    requires Small(chk) && AllSmall(values)
    ensures Small(Check(chk, values))
    decreases |values|
  {
    if values != [] {
      StepSmall(chk, values[0]);
      CheckSmall(Step(Polynomial(), chk, values[0]), values[1..]);
    }
  }

  /** No sequence of further symbols hides a difference between two registers. */
  lemma CheckInjective(a: word, b: word, values: seq<word>)
    requires Small(a) && Small(b) && AllSmall(values) && Check(a, values) == Check(b, values)
    ensures a == b
  {
    forall x, v
      ensures StaysIn(Polynomial(), Small, x, v)
    {
      StaysSmall(x, v);
    }
    forall x, y, v
      ensures LosesNothing(Polynomial(), Small, x, y, v)
    {
      StepLosesNothing(x, y, v);
    }
    RunInjective(Polynomial(), Small, a, b, values);
  }

  lemma StaysSmall(x: word, v: word)
    ensures StaysIn(Polynomial(), Small, x, v)
  {
    if Small(v) { StepSmall(x, v); }
  }

  lemma StepLosesNothing(x: word, y: word, v: word)
    ensures LosesNothing(Polynomial(), Small, x, y, v)
  {
    if Small(x) && Small(y) && Step(Polynomial(), x, v) == Step(Polynomial(), y, v) { StepInjective(x, y, v); }
  }

  // ---------- Six symbols fill the register ----------

  /** The number that six symbols spell. */
  function Spelled(a: word, b: word, c: word, d: word, e: word, f: word): word
  {
    (a << 25) ^ (b << 20) ^ (c << 15) ^ (d << 10) ^ (e << 5) ^ f
  }

  lemma StepShifts(chk: word, v: word)
    requires chk < 0x2000000
    ensures Step(Polynomial(), chk, v) == (chk << 5) ^ v
  {
    StepClosed(chk, v);
    NoTaps(chk);
    MixZero(Mix(Shifted(chk), v));
    NothingShiftedOut(chk, v);
  }

  lemma NothingShiftedOut(chk: word, v: word)
    requires chk < 0x2000000
    ensures Mix(Shifted(chk), v) == (chk << 5) ^ v
  {
  }

  lemma Horner(a: word, b: word, c: word, d: word, e: word, f: word)
    requires a < 32 && b < 32 && c < 32 && d < 32 && e < 32 && f < 32
    ensures var n2 := (a << 5) ^ b; var n3 := (n2 << 5) ^ c; var n4 := (n3 << 5) ^ d; var n5 := (n4 << 5) ^ e;
            && n2 < 0x2000000 && n3 < 0x2000000 && n4 < 0x2000000 && n5 < 0x2000000
            && (n5 << 5) ^ f == Spelled(a, b, c, d, e, f)
            && (0 << 5) ^ a == a
  {
  }

  lemma CheckSpells(w: seq<symbol>)
    requires |w| == 6
    ensures Check(0, w) == Spelled(w[0], w[1], w[2], w[3], w[4], w[5])
  {
    var r := Polynomial();
    Horner(w[0], w[1], w[2], w[3], w[4], w[5]);
    var n1 := Step(r, 0, w[0]);
    StepShifts(0, w[0]);
    var n2 := Step(r, n1, w[1]);
    StepShifts(n1, w[1]);
    var n3 := Step(r, n2, w[2]);
    StepShifts(n2, w[2]);
    var n4 := Step(r, n3, w[3]);
    StepShifts(n3, w[3]);
    var n5 := Step(r, n4, w[4]);
    StepShifts(n4, w[4]);
    StepShifts(n5, w[5]);
    RunSix(r, 0, w);
  }

  lemma DigitValues(n: word)
    ensures Digit(n, 0) == (n >> 25) & 31 && Digit(n, 1) == (n >> 20) & 31 && Digit(n, 2) == (n >> 15) & 31
    ensures Digit(n, 3) == (n >> 10) & 31 && Digit(n, 4) == (n >> 5) & 31 && Digit(n, 5) == n & 31
  {
  }

  lemma XorDigits(n: word)
    requires n < 0x40000000
    ensures (((n >> 25) & 31) << 25) ^ (((n >> 20) & 31) << 20) ^ (((n >> 15) & 31) << 15)
            ^ (((n >> 10) & 31) << 10) ^ (((n >> 5) & 31) << 5) ^ (n & 31) == n
  {
  }

  lemma DigitsSpell(n: word)
    requires Small(n)
    ensures Spelled(Digit(n, 0), Digit(n, 1), Digit(n, 2), Digit(n, 3), Digit(n, 4), Digit(n, 5)) == n
  {
    DigitValues(n);
    XorDigits(n);
  }

  lemma XorSpelled(a: word, b: word, c: word, d: word, e: word, f: word)
    requires a < 32 && b < 32 && c < 32 && d < 32 && e < 32 && f < 32
    ensures var n := (a << 25) ^ (b << 20) ^ (c << 15) ^ (d << 10) ^ (e << 5) ^ f;
            && (n >> 25) & 31 == a && (n >> 20) & 31 == b && (n >> 15) & 31 == c
            && (n >> 10) & 31 == d && (n >> 5) & 31 == e && n & 31 == f
  {
  }

  lemma SpelledDigits(a: symbol, b: symbol, c: symbol, d: symbol, e: symbol, f: symbol)
    ensures Digits(Spelled(a, b, c, d, e, f)) == [a, b, c, d, e, f]
  {
    var n := Spelled(a, b, c, d, e, f);
    DigitValues(n);
    XorSpelled(a, b, c, d, e, f);
  }

  // ---------- Main results ----------

  lemma ExpandSmall(hrp: string, symbols: seq<symbol>)
    ensures AllSmall(HrpExpand(hrp) + symbols)
  {
    forall c
      ensures Small(HighPart(c)) && Small(LowPart(c))
    {
      PartsSmall(c as bv32);
    }
  }

  lemma PartsSmall(n: word)
    ensures Small(n >> 5) && Small(n & 31)
  {
  }

  /** The polymod check of the BIP on the symbols after the separator. */
  predicate Checks(hrp: string, symbols: seq<symbol>)
  {
    Check(1, HrpExpand(hrp) + symbols) == 1
  }

  /** The register after six symbols: what it held, moved on, and what they spell. */
  lemma SixSymbols(chk: word, w: seq<symbol>)
    requires |w| == 6
    ensures Check(chk, w) == Mix(Check(chk, SIX_ZEROS), Check(0, w))
  {
    PolynomialLinear();
    RunSplit(Polynomial(), chk, 0, w);
    MixZero(chk);
    SixZeros();
  }

  lemma SixZeros()
    ensures Zeros(Polynomial(), 6) == SIX_ZEROS
  {
  }

  /** The number that the checksum spells has 30 bits. */
  lemma ChecksumSmall(front: seq<word>)
    requires AllSmall(front)
    ensures Check(1, front + SIX_ZEROS) == Check(Check(1, front), SIX_ZEROS)
    ensures Small(Mix(Check(1, front + SIX_ZEROS), 1))
  {
    RunAppend(Polynomial(), 1, front, SIX_ZEROS);
    CheckSmall(1, front);
    assert AllSmall(SIX_ZEROS) by { assert forall i :: 0 <= i < 6 ==> SIX_ZEROS[i] == 0; }
    CheckSmall(Check(1, front), SIX_ZEROS);
    MixSmall(Check(1, front + SIX_ZEROS), 1);
  }

  /** The six symbols that bring the register to 1. */
  lemma DigitsBalance(chk: word, n: word)
    requires n == Check(chk, SIX_ZEROS) && Small(Mix(n, 1))
    ensures Check(chk, Digits(Mix(n, 1))) == 1
  {
    SixSymbols(chk, Digits(Mix(n, 1)));
    CheckSpells(Digits(Mix(n, 1)));
    DigitsSpell(Mix(n, 1));
    MixOneTwice(n);
  }

  /** The checksum makes the check succeed. */
  lemma ChecksumChecks(hrp: string, data: seq<symbol>)
    ensures Checks(hrp, data + CreateChecksum(hrp, data))
  {
    var front := HrpExpand(hrp) + data;
    var w := CreateChecksum(hrp, data);
    ExpandSmall(hrp, data);
    ChecksumSmall(front);
    DigitsBalance(Check(1, front), Check(1, front + SIX_ZEROS));
    ChecksInParts(hrp, data, w);
  }

  lemma ChecksInParts(hrp: string, data: seq<symbol>, w: seq<symbol>)
    ensures Checks(hrp, data + w) <==> Check(Check(1, HrpExpand(hrp) + data), w) == 1
  {
    RunAppend(Polynomial(), 1, HrpExpand(hrp) + data, w);
    assert HrpExpand(hrp) + data + w == HrpExpand(hrp) + (data + w);
  }

  lemma MixOneTwice(n: word)
    ensures Mix(n, Mix(n, 1)) == 1
  {
  }

  /** A change confined to six consecutive symbols is always noticed, in strings of any length. */
  lemma BurstDetected(hrp: string, u: seq<symbol>, v: seq<symbol>, k: nat)
    requires |u| == |v| && k + 6 <= |u| && u[..k] == v[..k] && u[k + 6..] == v[k + 6..]
    requires Checks(hrp, u)
    ensures Checks(hrp, v) <==> u == v
  {
    if Checks(hrp, v) {
      WindowRun(hrp, u, k);
      WindowRun(hrp, v, k);
      ExpandSmall(hrp, u[..k]);
      WindowsEqual(HrpExpand(hrp) + u[..k], u[k..k + 6], v[k..k + 6], u[k + 6..]);
      assert u == u[..k] + u[k..k + 6] + u[k + 6..] && v == u[..k] + v[k..k + 6] + u[k + 6..];
    }
  }

  /** Between the same symbols, different windows of six lead to different registers. */
  lemma WindowsEqual(front: seq<word>, s: seq<symbol>, t: seq<symbol>, back: seq<symbol>)
    requires AllSmall(front) && |s| == 6 && |t| == 6
    requires Check(Check(Check(1, front), s), back) == Check(Check(Check(1, front), t), back)
    ensures s == t
  {
    var chk := Check(1, front);
    CheckSmall(1, front);
    CheckSmall(chk, s);
    CheckSmall(chk, t);
    CheckInjective(Check(chk, s), Check(chk, t), back);
    WindowDecides(chk, s, t);
  }

  lemma WindowRun(hrp: string, u: seq<symbol>, k: nat)
    requires k + 6 <= |u|
    ensures Check(1, HrpExpand(hrp) + u) ==
              Check(Check(Check(1, HrpExpand(hrp) + u[..k]), u[k..k + 6]), u[k + 6..])
  {
    var front, w, back := HrpExpand(hrp) + u[..k], u[k..k + 6], u[k + 6..];
    assert HrpExpand(hrp) + u == front + (w + back);
    RunAppend(Polynomial(), 1, front, w + back);
    RunAppend(Polynomial(), Check(1, front), w, back);
  }

  /** Six symbols are determined by the register before and after them. */
  lemma WindowDecides(chk: word, s: seq<symbol>, t: seq<symbol>)
    requires |s| == 6 && |t| == 6 && Check(chk, s) == Check(chk, t)
    ensures s == t
  {
    SixSymbols(chk, s);
    SixSymbols(chk, t);
    MixCancel(Check(chk, SIX_ZEROS), Check(0, s), Check(0, t));
    CheckDecides(s, t);
  }

  lemma CheckDecides(s: seq<symbol>, t: seq<symbol>)
    requires |s| == 6 && |t| == 6 && Check(0, s) == Check(0, t)
    ensures s == t
  {
    DigitsOfCheck(s);
    DigitsOfCheck(t);
  }

  lemma DigitsOfCheck(s: seq<symbol>)
    requires |s| == 6
    ensures Digits(Check(0, s)) == s
  {
    CheckSpells(s);
    SpelledDigits(s[0], s[1], s[2], s[3], s[4], s[5]);
  }

  lemma MixCancel(a: word, b: word, c: word)
    requires Mix(a, b) == Mix(a, c)
    ensures b == c
  {
  }

  /** In particular a single changed symbol, of the data or the checksum, is noticed. */
  lemma SingleChangeDetected(hrp: string, u: seq<symbol>, i: nat, x: symbol)
    requires 6 <= |u| && i < |u| && Checks(hrp, u)
    ensures Checks(hrp, u[i := x]) <==> x == u[i]
  {
    var k := if i + 6 <= |u| then i else |u| - 6;
    BurstDetected(hrp, u, u[i := x], k);
  }

  lemma StepKeepsValue(chk: word, v: word, w: word)
    requires Step(Polynomial(), chk, v) == Step(Polynomial(), chk, w)
    ensures v == w
  {
    StepClosed(chk, v);
    StepClosed(chk, w);
    MixCommutes(Mix(Shifted(chk), v), AllTaps(chk));
    MixCommutes(Mix(Shifted(chk), w), AllTaps(chk));
    MixCancel(AllTaps(chk), Mix(Shifted(chk), v), Mix(Shifted(chk), w));
    MixCancel(Shifted(chk), v, w);
  }

  /** A change of one value, of up to 30 bits, always changes the register at the end. */
  lemma SingleValueDetected(values: seq<word>, j: nat, v: word)
    requires AllSmall(values) && Small(v) && j < |values|
    ensures Check(1, values[j := v]) == Check(1, values) <==> v == values[j]
  {
    if Check(1, values[j := v]) == Check(1, values) { SameCheckSameValue(values, j, v); }
    if v == values[j] { assert values[j := v] == values; }
  }

  lemma SameCheckSameValue(values: seq<word>, j: nat, v: word)
    requires AllSmall(values) && Small(v) && j < |values| && Check(1, values[j := v]) == Check(1, values)
    ensures v == values[j]
  {
    var front, back := values[..j], values[j + 1..];
    var chk := Check(1, front);
    OneValueRun(values, j);
    OneValueRun(values[j := v], j);
    assert values[j := v][..j] == front && values[j := v][j + 1..] == back;
    CheckSmall(1, front);
    StepSmall(chk, v);
    StepSmall(chk, values[j]);
    CheckInjective(Step(Polynomial(), chk, v), Step(Polynomial(), chk, values[j]), back);
    StepKeepsValue(chk, v, values[j]);
  }

  lemma OneValueRun(values: seq<word>, j: nat)
    requires j < |values|
    ensures Check(1, values) == Check(Step(Polynomial(), Check(1, values[..j]), values[j]), values[j + 1..])
  {
    assert values == values[..j] + values[j..];
    RunAppend(Polynomial(), 1, values[..j], values[j..]);
    assert values[j..][1..] == values[j + 1..];
  }

  /** Two values of which one is changed. */
  lemma OneOfTwoDetected(front: seq<word>, rest: seq<word>, i: nat, j: nat, v: word, w: word)
    requires i < j < |front| && AllSmall(front + rest) && Small(v) && Small(w) && (v == front[i]) != (w == front[j])
    ensures Check(1, front[i := v][j := w] + rest) != Check(1, front + rest)
  {
    var values := front + rest;
    if w == front[j] {
      assert front[i := v][j := w] + rest == values[i := v];
      SingleValueDetected(values, i, v);
    } else {
      assert front[i := v][j := w] + rest == values[j := w];
      SingleValueDetected(values, j, w);
    }
  }

  /** The human-readable part is covered too: replacing one of its code units by one that differs in
      the high or in the low part only, such as the other letter case, makes the check fail. */
  lemma PartChangeDetected(hrp: string, changed: string, i: nat, c: CodeUnit, u: seq<symbol>)
    requires i < |CodeUnits(hrp)| && CodeUnits(changed) == CodeUnits(hrp)[i := c] && Checks(hrp, u)
    requires (HighPart(c) == HighPart(CodeUnits(hrp)[i])) != (LowPart(c) == LowPart(CodeUnits(hrp)[i]))
    ensures !Checks(changed, u)
  {
    ExpandSmall(hrp, u);
    UnitChangeDetected(CodeUnits(hrp), i, c, u);
  }

  lemma UnitChangeDetected(units: seq<CodeUnit>, i: nat, c: CodeUnit, u: seq<symbol>)
    requires i < |units| && AllSmall(ExpandUnits(units) + u)
    requires (HighPart(c) == HighPart(units[i])) != (LowPart(c) == LowPart(units[i]))
    ensures Check(1, ExpandUnits(units[i := c]) + u) != Check(1, ExpandUnits(units) + u)
  {
    var front, low := ExpandUnits(units), |units| + 1 + i;
    var v, w := HighPart(c), LowPart(c);
    PartsSmall(c as bv32);
    ExpandUpdate(units, i, c);
    OneOfTwoDetected(front, u, i, low, v, w);
  }

  lemma ExpandUpdate(u: seq<CodeUnit>, i: nat, c: CodeUnit)
    requires i < |u|
    ensures |ExpandUnits(u)| == 2 * |u| + 1
    ensures ExpandUnits(u)[i] == HighPart(u[i]) && ExpandUnits(u)[|u| + 1 + i] == LowPart(u[i])
    ensures ExpandUnits(u[i := c]) == ExpandUnits(u)[i := HighPart(c)][|u| + 1 + i := LowPart(c)]
  {
  }

  // ---------- The same for strings ----------

  /** The place of a character in the charset. */
  function PlaceOf(c: char): nat
  {
    match c
    case 'q' => 0 case 'p' => 1 case 'z' => 2 case 'r' => 3 case 'y' => 4 case '9' => 5 case 'x' => 6 case '8' => 7
    case 'g' => 8 case 'f' => 9 case '2' => 10 case 't' => 11 case 'v' => 12 case 'd' => 13 case 'w' => 14 case '0' => 15
    case 's' => 16 case '3' => 17 case 'j' => 18 case 'n' => 19 case '5' => 20 case '4' => 21 case 'k' => 22 case 'h' => 23
    case 'c' => 24 case 'e' => 25 case '6' => 26 case 'm' => 27 case 'u' => 28 case 'a' => 29 case '7' => 30 case _ => 31
  }

  lemma CharsetPlaces(i: nat)
    ensures |CHARSET| == 32
    ensures i < 32 ==> PlaceOf(CHARSET[i]) == i
  {
  }

  lemma CharOfInjective(u: symbol, v: symbol)
    requires CharOf(u) == CharOf(v)
    ensures u == v
  {
    CharsetPlaces(u as int);
    CharsetPlaces(v as int);
  }

  lemma SpellInjective(u: seq<symbol>, v: seq<symbol>)
    requires Spell(u) == Spell(v)
    ensures u == v
  {
    forall i | 0 <= i < |u|
      ensures |u| == |v| && u[i] == v[i]
    {
      assert Spell(u)[i] == CharOf(u[i]) && Spell(v)[i] == CharOf(v[i]);
      CharOfInjective(u[i], v[i]);
    }
    assert |u| == |Spell(u)| == |Spell(v)| == |v|;
  }

  /** The text spells the symbols after the part and the separator. */
  ghost predicate Reads(hrp: string, text: string, symbols: seq<symbol>)
  {
    text == hrp + "1" + Spell(symbols)
  }

  /** A decoder for the part accepts the text: at least six symbols that pass the check. */
  ghost predicate Accepted(hrp: string, text: string)
  {
    exists symbols :: Reads(hrp, text, symbols) && 6 <= |symbols| && Checks(hrp, symbols)
  }

  lemma ReadsUnique(hrp: string, text: string, u: seq<symbol>, v: seq<symbol>)
    requires Reads(hrp, text, u) && Reads(hrp, text, v)
    ensures u == v
  {
    assert text[|hrp| + 1..] == Spell(u) && text[|hrp| + 1..] == Spell(v);
    SpellInjective(u, v);
  }

  /** What is encoded is accepted and read back as the data and the checksum, and nothing else. */
  lemma EncodeAccepted(hrp: string, data: seq<symbol>)
    ensures Accepted(hrp, Encode(hrp, data))
    ensures forall u :: Reads(hrp, Encode(hrp, data), u) <==> u == data + CreateChecksum(hrp, data)
  {
    var combined := data + CreateChecksum(hrp, data);
    ChecksumChecks(hrp, data);
    EncodeSymbols(hrp, data);
    assert Reads(hrp, Encode(hrp, data), combined);
    forall u | Reads(hrp, Encode(hrp, data), u)
      ensures u == combined
    {
      ReadsUnique(hrp, Encode(hrp, data), u, combined);
    }
  }

  lemma EncodeInjective(hrp: string, d: seq<symbol>, e: seq<symbol>)
    ensures Encode(hrp, d) == Encode(hrp, e) <==> d == e
  {
    if Encode(hrp, d) == Encode(hrp, e) {
      var u, v := d + CreateChecksum(hrp, d), e + CreateChecksum(hrp, e);
      EncodeSymbols(hrp, d);
      EncodeSymbols(hrp, e);
      ReadsUnique(hrp, Encode(hrp, d), u, v);
      assert d == u[..|u| - 6] && e == v[..|v| - 6];
    }
  }

  /** Text that differs from an encoding within six consecutive characters is refused. */
  lemma CorruptionRefused(hrp: string, data: seq<symbol>, text: string, k: nat)
    requires |hrp| + 7 + k <= |text| == |Encode(hrp, data)|
    requires text[..|hrp| + 1 + k] == Encode(hrp, data)[..|hrp| + 1 + k]
    requires text[|hrp| + 7 + k..] == Encode(hrp, data)[|hrp| + 7 + k..]
    ensures Accepted(hrp, text) <==> text == Encode(hrp, data)
  {
    EncodeAccepted(hrp, data);
    EncodeSymbols(hrp, data);
    if Accepted(hrp, text) {
      var u := data + CreateChecksum(hrp, data);
      var v: seq<symbol> :| Reads(hrp, text, v) && 6 <= |v| && Checks(hrp, v);
      ChecksumChecks(hrp, data);
      SpellSlices(u, v, hrp, k);
      BurstDetected(hrp, u, v, k);
    }
  }

  lemma SpellSlices(u: seq<symbol>, v: seq<symbol>, hrp: string, k: nat)
    requires |u| == |v| && k + 6 <= |u|
    requires (hrp + "1" + Spell(u))[..|hrp| + 1 + k] == (hrp + "1" + Spell(v))[..|hrp| + 1 + k]
    requires (hrp + "1" + Spell(u))[|hrp| + 7 + k..] == (hrp + "1" + Spell(v))[|hrp| + 7 + k..]
    ensures u[..k] == v[..k] && u[k + 6..] == v[k + 6..]
  {
    var s, t := hrp + "1" + Spell(u), hrp + "1" + Spell(v);
    var n := |hrp| + 1;
    forall i | 0 <= i < |u| && (i < k || k + 6 <= i)
      ensures u[i] == v[i]
    {
      assert s[n + i] == CharOf(u[i]) && t[n + i] == CharOf(v[i]);
      if i < k {
        assert s[n + i] == s[..n + k][n + i] && t[n + i] == t[..n + k][n + i];
      } else {
        assert s[n + i] == s[n + k + 6..][i - k - 6] && t[n + i] == t[n + k + 6..][i - k - 6];
      }
      CharOfInjective(u[i], v[i]);
    }
  }
}
