/** The Bech32 checksum from its definition in the section "Checksum design" of BIP 173: remainders of polynomials over
    the field with 32 elements. Nothing here speaks of the five generators of the code. */
module BchCode {
  import opened Text
  import opened LinearRegister
  import opened Bech32

  // ---------- The field with 32 elements ----------

  /** x times a, modulo x^5 + x^3 + 1. */
  function FieldDouble(a: word): word
  {
    if a & 16 != 0 then ((a << 1) ^ 41) else a << 1
  }

  /** x^i times a. */
  function Doubled(a: word, i: nat): word
  {
    if i == 0 then a else FieldDouble(Doubled(a, i - 1))
  }

  predicate HasPower(t: word, i: nat)
  {
    if i == 0 then t & 1 != 0 else if i == 1 then t & 2 != 0 else if i == 2 then t & 4 != 0
    else if i == 3 then t & 8 != 0 else i == 4 && t & 16 != 0
  }

  /** What the power x^i of b contributes to a product. */
  function Part(a: word, b: word, i: nat): word
  {
    if HasPower(b, i) then Doubled(a, i) else 0
  }

  function FieldPlus(a: word, b: word): word
  {
    a ^ b
  }

  /** The product in the field. */
  function FieldTimes(a: word, b: word): word
  {
    FieldPlus(FieldPlus(FieldPlus(FieldPlus(Part(a, b, 0), Part(a, b, 1)), Part(a, b, 2)), Part(a, b, 3)), Part(a, b, 4))
  }

  lemma {:induction false} PartSymbol(a: symbol, b: word, i: nat)
    ensures Doubled(a, i) < 32 && Part(a, b, i) < 32
    decreases i
  {
    if i > 0 {
      PartSymbol(a, b, i - 1);
      DoubleSymbol(Doubled(a, i - 1));
    }
  }

  lemma DoubleSymbol(a: word)
    requires a < 32
    ensures FieldDouble(a) < 32
  {
  }

  lemma PlusSymbol(a: word, b: word)
    requires a < 32 && b < 32
    ensures FieldPlus(a, b) < 32
  {
  }

  lemma FieldSymbol(a: symbol, b: symbol, c: symbol)
    ensures FieldPlus(a, FieldTimes(b, c)) < 32
  {
    PartSymbol(b, c, 0);
    PartSymbol(b, c, 1);
    PartSymbol(b, c, 2);
    PartSymbol(b, c, 3);
    PartSymbol(b, c, 4);
    var s1 := FieldPlus(Part(b, c, 0), Part(b, c, 1));
    PlusSymbol(Part(b, c, 0), Part(b, c, 1));
    var s2 := FieldPlus(s1, Part(b, c, 2));
    PlusSymbol(s1, Part(b, c, 2));
    var s3 := FieldPlus(s2, Part(b, c, 3));
    PlusSymbol(s2, Part(b, c, 3));
    PlusSymbol(s3, Part(b, c, 4));
    PlusSymbol(a, FieldTimes(b, c));
  }

  // ---------- Long division ----------

  /** x^6 + 29x^5 + 22x^4 + 20x^3 + 21x^2 + 29x + 18, without its leading coefficient. */
  const DIVISOR: seq<symbol> := [29, 22, 20, 21, 29, 18]

  /** One step of long division: v[0] times the divisor is taken away from the front. */
  function Cancelled(v: seq<symbol>): (r: seq<symbol>)
    requires |v| == 7
    ensures |r| == 6
  {
    seq(6, i requires 0 <= i < 6 => CancelledAt(v, i))
  }

  function CancelledAt(v: seq<symbol>, i: nat): symbol
    requires |v| == 7 && i < 6
  {
    FieldSymbol(v[i + 1], DIVISOR[i], v[0]);
    FieldPlus(v[i + 1], FieldTimes(DIVISOR[i], v[0]))
  }

  /** The remainder of the polynomial with the coefficients v, highest first. */
  function Remainder(v: seq<symbol>): (r: seq<symbol>)
    requires |v| >= 6
    ensures |r| == 6
    decreases |v|
  {
    if |v| == 6 then v else Remainder(Cancelled(v[..7]) + v[7..])
  }

  // ---------- The register divides ----------

  // The digits of the first generator are the divisor, and each further generator is twice the one before.

  lemma GeneratorDigits0(i: nat)
    requires i < 5
    ensures Digit(Generator(i), 0) == Doubled(29, i)
  {
    assert Doubled(29, 0) == 29;
    assert Doubled(29, 1) == FieldDouble(29);
    assert Doubled(29, 2) == FieldDouble(FieldDouble(29));
    assert Doubled(29, 3) == FieldDouble(FieldDouble(FieldDouble(29)));
    assert Doubled(29, 4) == FieldDouble(FieldDouble(FieldDouble(FieldDouble(29))));
  }

  lemma GeneratorDigits1(i: nat)
    requires i < 5
    ensures Digit(Generator(i), 1) == Doubled(22, i)
  {
    assert Doubled(22, 0) == 22;
    assert Doubled(22, 1) == FieldDouble(22);
    assert Doubled(22, 2) == FieldDouble(FieldDouble(22));
    assert Doubled(22, 3) == FieldDouble(FieldDouble(FieldDouble(22)));
    assert Doubled(22, 4) == FieldDouble(FieldDouble(FieldDouble(FieldDouble(22))));
  }

  lemma GeneratorDigits2(i: nat)
    requires i < 5
    ensures Digit(Generator(i), 2) == Doubled(20, i)
  {
    assert Doubled(20, 0) == 20;
    assert Doubled(20, 1) == FieldDouble(20);
    assert Doubled(20, 2) == FieldDouble(FieldDouble(20));
    assert Doubled(20, 3) == FieldDouble(FieldDouble(FieldDouble(20)));
    assert Doubled(20, 4) == FieldDouble(FieldDouble(FieldDouble(FieldDouble(20))));
  }

  lemma GeneratorDigits3(i: nat)
    requires i < 5
    ensures Digit(Generator(i), 3) == Doubled(21, i)
  {
    assert Doubled(21, 0) == 21;
    assert Doubled(21, 1) == FieldDouble(21);
    assert Doubled(21, 2) == FieldDouble(FieldDouble(21));
    assert Doubled(21, 3) == FieldDouble(FieldDouble(FieldDouble(21)));
    assert Doubled(21, 4) == FieldDouble(FieldDouble(FieldDouble(FieldDouble(21))));
  }

  lemma GeneratorDigits4(i: nat)
    requires i < 5
    ensures Digit(Generator(i), 4) == Doubled(29, i)
  {
    assert Doubled(29, 0) == 29;
    assert Doubled(29, 1) == FieldDouble(29);
    assert Doubled(29, 2) == FieldDouble(FieldDouble(29));
    assert Doubled(29, 3) == FieldDouble(FieldDouble(FieldDouble(29)));
    assert Doubled(29, 4) == FieldDouble(FieldDouble(FieldDouble(FieldDouble(29))));
  }

  lemma GeneratorDigits5(i: nat)
    requires i < 5
    ensures Digit(Generator(i), 5) == Doubled(18, i)
  {
    assert Doubled(18, 0) == 18;
    assert Doubled(18, 1) == FieldDouble(18);
    assert Doubled(18, 2) == FieldDouble(FieldDouble(18));
    assert Doubled(18, 3) == FieldDouble(FieldDouble(FieldDouble(18)));
    assert Doubled(18, 4) == FieldDouble(FieldDouble(FieldDouble(FieldDouble(18))));
  }

  lemma DigitMix0(a: word, b: word)
    ensures Digit(Mix(a, b), 0) == FieldPlus(Digit(a, 0), Digit(b, 0))
  {
  }

  lemma DigitMix1(a: word, b: word)
    ensures Digit(Mix(a, b), 1) == FieldPlus(Digit(a, 1), Digit(b, 1))
  {
  }

  lemma DigitMix2(a: word, b: word)
    ensures Digit(Mix(a, b), 2) == FieldPlus(Digit(a, 2), Digit(b, 2))
  {
  }

  lemma DigitMix3(a: word, b: word)
    ensures Digit(Mix(a, b), 3) == FieldPlus(Digit(a, 3), Digit(b, 3))
  {
  }

  lemma DigitMix4(a: word, b: word)
    ensures Digit(Mix(a, b), 4) == FieldPlus(Digit(a, 4), Digit(b, 4))
  {
  }

  lemma DigitMix5(a: word, b: word)
    ensures Digit(Mix(a, b), 5) == FieldPlus(Digit(a, 5), Digit(b, 5))
  {
  }

  /** The outgoing bits are the bits of the first digit. */
  lemma TopBits(chk: word)
    requires Small(chk)
    ensures var t := Digit(chk, 0);
            && (MaskBit(chk, 0) <==> t & 1 != 0) && (MaskBit(chk, 1) <==> t & 2 != 0)
            && (MaskBit(chk, 2) <==> t & 4 != 0) && (MaskBit(chk, 3) <==> t & 8 != 0)
            && (MaskBit(chk, 4) <==> t & 16 != 0)
  {
  }

  /** A digit, as a map that adds up: what the generators give it is the multiple of d by the first digit. */
  ghost predicate Additive(digit: word -> word, a: word, b: word)
  {
    digit(Mix(a, b)) == FieldPlus(digit(a), digit(b))
  }

  lemma TapPart(digit: word -> word, d: word, chk: word, i: nat)
    requires Small(chk) && i < 5 && digit(0) == 0 && digit(Generator(i)) == Doubled(d, i)
    ensures digit(Tap(chk, i)) == Part(d, Digit(chk, 0), i)
  {
    TopBits(chk);
    assert i == 0 || i == 1 || i == 2 || i == 3 || i == 4;
  }

  lemma TapsMultiply(digit: word -> word, d: word, chk: word)
    requires Small(chk) && (forall a, b :: Additive(digit, a, b)) && digit(0) == 0
    requires forall i :: 0 <= i < 5 ==> digit(Generator(i)) == Doubled(d, i)
    ensures digit(AllTaps(chk)) == FieldTimes(d, Digit(chk, 0))
  {
    var t0, t1, t2, t3, t4 := Tap(chk, 0), Tap(chk, 1), Tap(chk, 2), Tap(chk, 3), Tap(chk, 4);
    TapPart(digit, d, chk, 0);
    TapPart(digit, d, chk, 1);
    TapPart(digit, d, chk, 2);
    TapPart(digit, d, chk, 3);
    TapPart(digit, d, chk, 4);
    AdditiveFive(digit, t0, t1, t2, t3, t4);
  }

  lemma AdditiveFive(digit: word -> word, a: word, b: word, c: word, d: word, e: word)
    requires forall x, y :: Additive(digit, x, y)
    ensures digit(Mix(Mix(Mix(Mix(a, b), c), d), e)) ==
              FieldPlus(FieldPlus(FieldPlus(FieldPlus(digit(a), digit(b)), digit(c)), digit(d)), digit(e))
  {
    assert Additive(digit, a, b) && Additive(digit, Mix(a, b), c) && Additive(digit, Mix(Mix(a, b), c), d);
    assert Additive(digit, Mix(Mix(Mix(a, b), c), d), e);
  }

  lemma ShiftedDigits(chk: word, v: word)
    requires Small(chk) && v < 32
    ensures Digit(Shifted(chk), 0) == Digit(chk, 1) && Digit(Shifted(chk), 1) == Digit(chk, 2)
    ensures Digit(Shifted(chk), 2) == Digit(chk, 3) && Digit(Shifted(chk), 3) == Digit(chk, 4)
    ensures Digit(Shifted(chk), 4) == Digit(chk, 5) && Digit(Shifted(chk), 5) == 0
    ensures Digit(v, 0) == Digit(v, 1) == Digit(v, 2) == Digit(v, 3) == Digit(v, 4) == 0 && Digit(v, 5) == v
  {
  }

  lemma StepDigit0(chk: word, v: word)
    requires Small(chk) && v < 32
    ensures Digit(Mix(Mix(Shifted(chk), v), AllTaps(chk)), 0) == FieldPlus(Digit(chk, 1), FieldTimes(29, Digit(chk, 0)))
  {
    var digit := (a: word) => Digit(a, 0);
    forall a, b
      ensures Additive(digit, a, b)
    {
      DigitMix0(a, b);
    }
    forall i | 0 <= i < 5
      ensures digit(Generator(i)) == Doubled(29, i)
    {
      GeneratorDigits0(i);
    }
    TapsMultiply(digit, 29, chk);
    ShiftedDigits(chk, v);
    assert Additive(digit, Shifted(chk), v) && Additive(digit, Mix(Shifted(chk), v), AllTaps(chk));
  }

  lemma StepDigit1(chk: word, v: word)
    requires Small(chk) && v < 32
    ensures Digit(Mix(Mix(Shifted(chk), v), AllTaps(chk)), 1) == FieldPlus(Digit(chk, 2), FieldTimes(22, Digit(chk, 0)))
  {
    var digit := (a: word) => Digit(a, 1);
    forall a, b
      ensures Additive(digit, a, b)
    {
      DigitMix1(a, b);
    }
    forall i | 0 <= i < 5
      ensures digit(Generator(i)) == Doubled(22, i)
    {
      GeneratorDigits1(i);
    }
    TapsMultiply(digit, 22, chk);
    ShiftedDigits(chk, v);
    assert Additive(digit, Shifted(chk), v) && Additive(digit, Mix(Shifted(chk), v), AllTaps(chk));
  }

  lemma StepDigit2(chk: word, v: word)
    requires Small(chk) && v < 32
    ensures Digit(Mix(Mix(Shifted(chk), v), AllTaps(chk)), 2) == FieldPlus(Digit(chk, 3), FieldTimes(20, Digit(chk, 0)))
  {
    var digit := (a: word) => Digit(a, 2);
    forall a, b
      ensures Additive(digit, a, b)
    {
      DigitMix2(a, b);
    }
    forall i | 0 <= i < 5
      ensures digit(Generator(i)) == Doubled(20, i)
    {
      GeneratorDigits2(i);
    }
    TapsMultiply(digit, 20, chk);
    ShiftedDigits(chk, v);
    assert Additive(digit, Shifted(chk), v) && Additive(digit, Mix(Shifted(chk), v), AllTaps(chk));
  }

  lemma StepDigit3(chk: word, v: word)
    requires Small(chk) && v < 32
    ensures Digit(Mix(Mix(Shifted(chk), v), AllTaps(chk)), 3) == FieldPlus(Digit(chk, 4), FieldTimes(21, Digit(chk, 0)))
  {
    var digit := (a: word) => Digit(a, 3);
    forall a, b
      ensures Additive(digit, a, b)
    {
      DigitMix3(a, b);
    }
    forall i | 0 <= i < 5
      ensures digit(Generator(i)) == Doubled(21, i)
    {
      GeneratorDigits3(i);
    }
    TapsMultiply(digit, 21, chk);
    ShiftedDigits(chk, v);
    assert Additive(digit, Shifted(chk), v) && Additive(digit, Mix(Shifted(chk), v), AllTaps(chk));
  }

  lemma StepDigit4(chk: word, v: word)
    requires Small(chk) && v < 32
    ensures Digit(Mix(Mix(Shifted(chk), v), AllTaps(chk)), 4) == FieldPlus(Digit(chk, 5), FieldTimes(29, Digit(chk, 0)))
  {
    var digit := (a: word) => Digit(a, 4);
    forall a, b
      ensures Additive(digit, a, b)
    {
      DigitMix4(a, b);
    }
    forall i | 0 <= i < 5
      ensures digit(Generator(i)) == Doubled(29, i)
    {
      GeneratorDigits4(i);
    }
    TapsMultiply(digit, 29, chk);
    ShiftedDigits(chk, v);
    assert Additive(digit, Shifted(chk), v) && Additive(digit, Mix(Shifted(chk), v), AllTaps(chk));
  }

  lemma StepDigit5(chk: word, v: word)
    requires Small(chk) && v < 32
    ensures Digit(Mix(Mix(Shifted(chk), v), AllTaps(chk)), 5) == FieldPlus(v, FieldTimes(18, Digit(chk, 0)))
  {
    var digit := (a: word) => Digit(a, 5);
    forall a, b
      ensures Additive(digit, a, b)
    {
      DigitMix5(a, b);
    }
    forall i | 0 <= i < 5
      ensures digit(Generator(i)) == Doubled(18, i)
    {
      GeneratorDigits5(i);
    }
    TapsMultiply(digit, 18, chk);
    ShiftedDigits(chk, v);
    assert Additive(digit, Shifted(chk), v) && Additive(digit, Mix(Shifted(chk), v), AllTaps(chk));
  }

  /** One step of the register is one step of the division. */
  lemma StepDivides(chk: word, v: symbol)
    requires Small(chk)
    ensures Digits(Step(Polynomial(), chk, v)) == Cancelled(Digits(chk) + [v])
  {
    var n := Step(Polynomial(), chk, v);
    StepClosed(chk, v);
    StepDigit0(chk, v);
    StepDigit1(chk, v);
    StepDigit2(chk, v);
    StepDigit3(chk, v);
    StepDigit4(chk, v);
    StepDigit5(chk, v);
    DigitsCancelled(n, chk, v);
  }

  lemma DigitsCancelled(n: word, chk: word, v: symbol)
    requires Digit(n, 0) == FieldPlus(Digit(chk, 1), FieldTimes(29, Digit(chk, 0)))
    requires Digit(n, 1) == FieldPlus(Digit(chk, 2), FieldTimes(22, Digit(chk, 0)))
    requires Digit(n, 2) == FieldPlus(Digit(chk, 3), FieldTimes(20, Digit(chk, 0)))
    requires Digit(n, 3) == FieldPlus(Digit(chk, 4), FieldTimes(21, Digit(chk, 0)))
    requires Digit(n, 4) == FieldPlus(Digit(chk, 5), FieldTimes(29, Digit(chk, 0)))
    requires Digit(n, 5) == FieldPlus(v, FieldTimes(18, Digit(chk, 0)))
    ensures Digits(n) == Cancelled(Digits(chk) + [v])
  {
    var w := Digits(chk) + [v];
    CancelledValues(w);
    assert w == [Digit(chk, 0), Digit(chk, 1), Digit(chk, 2), Digit(chk, 3), Digit(chk, 4), Digit(chk, 5), v];
  }

  lemma CancelledValues(w: seq<symbol>)
    requires |w| == 7
    ensures Cancelled(w)[0] == FieldPlus(w[1], FieldTimes(29, w[0])) && Cancelled(w)[1] == FieldPlus(w[2], FieldTimes(22, w[0]))
    ensures Cancelled(w)[2] == FieldPlus(w[3], FieldTimes(20, w[0])) && Cancelled(w)[3] == FieldPlus(w[4], FieldTimes(21, w[0]))
    ensures Cancelled(w)[4] == FieldPlus(w[5], FieldTimes(29, w[0])) && Cancelled(w)[5] == FieldPlus(w[6], FieldTimes(18, w[0]))
  {
  }

  /** The register holds the remainder, from any start. */
  lemma {:induction false} CheckIsRemainder(chk: word, v: seq<symbol>)
    requires Small(chk)
    ensures Digits(Check(chk, v)) == Remainder(Digits(chk) + v)
    decreases |v|
  {
    var w := Digits(chk) + v;
    if v != [] {
      StepDivides(chk, v[0]);
      StepSmall(chk, v[0]);
      CheckIsRemainder(Step(Polynomial(), chk, v[0]), v[1..]);
      assert w[..7] == Digits(chk) + [v[0]] && w[7..] == v[1..];
    } else {
      assert w == Digits(chk);
    }
  }

  // ---------- Human-readable parts and an example ----------

  /** Code units are split into their low five bits and the rest. */
  lemma UnitParts(c: CodeUnit)
    ensures LowPart(c) < 32 && (HighPart(c) << 5) ^ LowPart(c) == c as bv32
  {
  }

  ghost predicate AreSymbols(values: seq<word>)
  {
    forall i :: 0 <= i < |values| ==> values[i] < 32
  }

  /** What a decoder checks: part and symbols, read as a polynomial after a leading 1, leave the remainder 1. The
      expansion of a part consists of symbols when its code units are below 1024. */
  lemma ChecksIffRemainderOne(hrp: string, u: seq<symbol>)
    requires AreSymbols(HrpExpand(hrp))
    ensures Checks(hrp, u) <==> Remainder([0, 0, 0, 0, 0, 1] + HrpExpand(hrp) + u) == [0, 0, 0, 0, 0, 1]
  {
    var v: seq<symbol> := HrpExpand(hrp) + u;
    CheckIsRemainder(1, v);
    DigitsOfOne();
    assert Digits(1) + v == [0, 0, 0, 0, 0, 1] + HrpExpand(hrp) + u;
    CheckSmall(1, v);
    if Digits(Check(1, v)) == Digits(1) { DigitsDetermine(Check(1, v), 1); }
  }

  lemma DigitsOfOne()
    ensures Digits(1) == [0, 0, 0, 0, 0, 1]
  {
  }

  lemma DigitsDetermine(a: word, b: word)
    requires Small(a) && Small(b) && Digits(a) == Digits(b)
    ensures a == b
  {
    DigitsSpell(a);
    DigitsSpell(b);
  }
}
