/** The tables and the arithmetic of class AES256CBC from their definitions in FIPS 197: products of
    polynomials (section 4.2), the S-box (section 5.1.1), round constants and key expansion (section 5.2). */
module AesStandard {
  import opened AesTables
  import opened AesField
  import opened AesKeys
  import opened AesBlock

  // ---------- Products of polynomials ----------

  /** A polynomial over the field with two elements: bit i is the coefficient of x^i. */
  type poly = bv16

  /** x^8 + x^4 + x^3 + x + 1. */
  const MODULUS: poly := 0x11b

  function PolySum(a: poly, b: poly): poly
  {
    a ^ b
  }

  function TimesX(a: poly): poly
  {
    a << 1
  }

  /** a times the polynomial with the coefficients q, lowest first. */
  function PolyTimes(a: poly, q: seq<bool>): poly
  {
    if q == [] then 0 else PolySum(if q[0] then a else 0, TimesX(PolyTimes(a, q[1..])))
  }

  /** The coefficients of an octet, lowest first. */
  function Coefficients(b: octet, n: nat): (q: seq<bool>)
    ensures |q| == n
  {
    if n == 0 then [] else [Odd(b)] + Coefficients(Half(b), n - 1)
  }

  function Wide(a: octet): poly
  {
    a as poly
  }

  /** Multiplying by x and reducing takes away the modulus at most once. */
  lemma XTimeReduces(a: octet)
    ensures TimesX(Wide(a)) == PolySum(Wide(XTime(a)), if Carries(a) then MODULUS else 0)
  {
  }

  lemma WideSum(a: octet, b: octet)
    ensures Wide(Plus(a, b)) == PolySum(Wide(a), Wide(b)) && Wide(0) == 0
  {
  }

  lemma TimesXSum(a: poly, b: poly)
    ensures TimesX(PolySum(a, b)) == PolySum(TimesX(a), TimesX(b))
  {
  }

  lemma SumRegroup(t: poly, m: poly, c: poly, p: poly)
    ensures PolySum(t, PolySum(PolySum(m, c), p)) == PolySum(PolySum(t, m), PolySum(c, p))
  {
  }

  function Half(b: octet): octet
  {
    b >> 1
  }

  predicate Odd(b: octet)
  {
    b & 1 != 0
  }

  lemma AddIsPlus(x: octet, y: octet)
    ensures XorGroup().add(x, y) == Plus(x, y) && XorGroup().zero == 0
  {
  }

  lemma ActUnfoldAt<T(!new)>(g: AbelianGroup.Group<T>, f: T -> T, a: T, b: octet)
    requires Binary(g, f)
    ensures Act(g, f, a, 0) == g.zero
    ensures Act(g, f, a, b) == g.add(if Odd(b) then a else g.zero, f(Act(g, f, a, Half(b))))
  {
    ActUnfold(g, f, a, b);
  }

  lemma MulUnfold(a: octet, b: octet)
    ensures Mul(a, 0) == 0
    ensures Mul(a, b) == Plus(if Odd(b) then a else 0, XTime(Mul(a, Half(b))))
  {
    XorIsBinary();
    ActUnfoldAt(XorGroup(), XTime, a, b);
    AddIsPlus(if Odd(b) then a else 0, XTime(Mul(a, Half(b))));
  }

  /** The field product is the remainder of the product of the polynomials: they differ by a multiple of the
      modulus, and the field product, being an octet, has a degree below 8. */
  lemma {:induction false} MulIsRemainder(a: octet, b: octet, n: nat) returns (q: seq<bool>)
    requires Fits(b, n)
    ensures |q| == n && PolyTimes(Wide(a), Coefficients(b, n)) == PolySum(Wide(Mul(a, b)), PolyTimes(MODULUS, q))
    decreases n
  {
    MulUnfold(a, b);
    if n == 0 {
      q := [];
      WideSum(0, 0);
    } else {
      var rest := MulIsRemainder(a, Half(b), n - 1);
      var m := Mul(a, Half(b));
      q := [Carries(m)] + rest;
      MulStep(if Odd(b) then a else 0, m, PolyTimes(MODULUS, rest));
      CoefficientsNext(b, n);
      WideSum(0, 0);
      assert q[1..] == rest;
    }
  }

  predicate Carries(m: octet)
  {
    m & 0x80 != 0
  }

  lemma CoefficientsNext(b: octet, n: nat)
    requires n > 0
    ensures Coefficients(b, n)[0] == Odd(b) && Coefficients(b, n)[1..] == Coefficients(Half(b), n - 1)
    ensures Fits(b, n) == Fits(Half(b), n - 1)
  {
  }

  lemma MulStep(t: octet, m: octet, p: poly)
    ensures PolySum(Wide(t), TimesX(PolySum(Wide(m), p))) ==
              PolySum(Wide(Plus(t, XTime(m))), PolySum(if Carries(m) then MODULUS else 0, TimesX(p)))
  {
    TimesXSum(Wide(m), p);
    XTimeReduces(m);
    WideSum(t, XTime(m));
    SumRegroup(Wide(t), Wide(XTime(m)), if Carries(m) then MODULUS else 0, TimesX(p));
  }

  /** For all octets: gmul multiplies modulo x^8 + x^4 + x^3 + x + 1. */
  lemma ProductModulo(a: octet, b: octet) returns (q: seq<bool>)
    ensures |q| == 8 && PolyTimes(Wide(a), Coefficients(b, 8)) == PolySum(Wide(Mul(a, b)), PolyTimes(MODULUS, q))
  {
    EightBits(b);
    q := MulIsRemainder(a, b, 8);
  }

  // ---------- The S-box ----------

  function Step8(a: octet, b: octet, rest: octet): octet
  {
    Plus(if Odd(b) then a else 0, XTime(rest))
  }

  /** The product in closed form. */
  function Closed(a: octet, b: octet): octet
  {
    var b1 := b >> 1;
    var b2 := b >> 2;
    var b3 := b >> 3;
    var b4 := b >> 4;
    var b5 := b >> 5;
    var b6 := b >> 6;
    var b7 := b >> 7;
    Step8(a, b, Step8(a, b1, Step8(a, b2, Step8(a, b3, Step8(a, b4, Step8(a, b5, Step8(a, b6, Step8(a, b7, 0))))))))
  }

  lemma Halves(b: octet)
    ensures Half(b) == b >> 1 && Half(b >> 1) == b >> 2 && Half(b >> 2) == b >> 3 && Half(b >> 3) == b >> 4
    ensures Half(b >> 4) == b >> 5 && Half(b >> 5) == b >> 6 && Half(b >> 6) == b >> 7 && Half(b >> 7) == 0
  {
  }

  lemma MulStepClosed(a: octet, b: octet, half: octet, rest: octet)
    requires half == Half(b) && rest == Mul(a, half)
    ensures Mul(a, b) == Step8(a, b, rest)
  {
    MulUnfold(a, b);
  }

  lemma MulClosed(a: octet, b: octet)
    ensures Mul(a, b) == Closed(a, b)
  {
    Halves(b);
    MulUnfold(a, 0);
    MulStepClosed(a, b >> 7, 0, 0);
    MulStepClosed(a, b >> 6, b >> 7, Mul(a, b >> 7));
    MulStepClosed(a, b >> 5, b >> 6, Mul(a, b >> 6));
    MulStepClosed(a, b >> 4, b >> 5, Mul(a, b >> 5));
    MulStepClosed(a, b >> 3, b >> 4, Mul(a, b >> 4));
    MulStepClosed(a, b >> 2, b >> 3, Mul(a, b >> 3));
    MulStepClosed(a, b >> 1, b >> 2, Mul(a, b >> 2));
    MulStepClosed(a, b, b >> 1, Mul(a, b >> 1));
  }

  /** The affine transformation of the standard. */
  function Affine(y: octet): octet
  {
    y ^ ((y << 1) | (y >> 7)) ^ ((y << 2) | (y >> 6)) ^ ((y << 3) | (y >> 5)) ^ ((y << 4) | (y >> 4)) ^ 0x63
  }

  function UnAffine(s: octet): octet
  {
    ((s << 1) | (s >> 7)) ^ ((s << 3) | (s >> 5)) ^ ((s << 6) | (s >> 2)) ^ 0x05
  }

  lemma AffineBack(s: octet)
    ensures Affine(UnAffine(s)) == s
  {
  }

  lemma SBoxPart0(b: octet)
    requires 0 < b < 0x20
    ensures Closed(b, UnAffine(SBox(b))) == 1
  {
  }

  lemma SBoxPart1(b: octet)
    requires 0x20 <= b < 0x40
    ensures Closed(b, UnAffine(SBox(b))) == 1
  {
  }

  lemma SBoxPart2(b: octet)
    requires 0x40 <= b < 0x60
    ensures Closed(b, UnAffine(SBox(b))) == 1
  {
  }

  lemma SBoxPart3(b: octet)
    requires 0x60 <= b < 0x80
    ensures Closed(b, UnAffine(SBox(b))) == 1
  {
  }

  lemma SBoxPart4(b: octet)
    requires 0x80 <= b < 0xa0
    ensures Closed(b, UnAffine(SBox(b))) == 1
  {
  }

  lemma SBoxPart5(b: octet)
    requires 0xa0 <= b < 0xc0
    ensures Closed(b, UnAffine(SBox(b))) == 1
  {
  }

  lemma SBoxPart6(b: octet)
    requires 0xc0 <= b < 0xe0
    ensures Closed(b, UnAffine(SBox(b))) == 1
  {
  }

  lemma SBoxPart7(b: octet)
    requires 0xe0 <= b
    ensures Closed(b, UnAffine(SBox(b))) == 1
  {
  }

  /** The S-box is the affine transformation of the inverse in the field, with 0 in the place of the inverse
      of 0. */
  lemma SBoxDefinition(b: octet)
    ensures var y := UnAffine(SBox(b));
            SBox(b) == Affine(y) && if b == 0 then y == 0 else Mul(b, y) == 1
  {
    AffineBack(SBox(b));
    MulClosed(b, UnAffine(SBox(b)));
    if b == 0 {
    } else if b < 0x20 {
      SBoxPart0(b);
    } else if b < 0x40 {
      SBoxPart1(b);
    } else if b < 0x60 {
      SBoxPart2(b);
    } else if b < 0x80 {
      SBoxPart3(b);
    } else if b < 0xa0 {
      SBoxPart4(b);
    } else if b < 0xc0 {
      SBoxPart5(b);
    } else if b < 0xe0 {
      SBoxPart6(b);
    } else {
      SBoxPart7(b);
    }
  }

  // ---------- Key expansion ----------

  /** The round constants are the powers of x. */
  lemma RoundConstants(i: nat)
    requires i < 9
    ensures RCON[0] == 1 && RCON[i + 1] == Mul(RCON[i], 2)
  {
    XorIsBinary();
    ActSmall(XorGroup(), XTime, RCON[i]);
  }

  /** A word is rotated by an octet, substituted octet by octet, and added octet by octet. */
  lemma RotWordOctets(t: word)
    ensures WordOctet(RotWord(t), 0) == WordOctet(t, 1) && WordOctet(RotWord(t), 1) == WordOctet(t, 2)
    ensures WordOctet(RotWord(t), 2) == WordOctet(t, 3) && WordOctet(RotWord(t), 3) == WordOctet(t, 0)
  {
  }

  lemma SubWordOctets(t: word)
    ensures WordOctet(SubWord(t), 0) == SBox(WordOctet(t, 0)) && WordOctet(SubWord(t), 1) == SBox(WordOctet(t, 1))
    ensures WordOctet(SubWord(t), 2) == SBox(WordOctet(t, 2)) && WordOctet(SubWord(t), 3) == SBox(WordOctet(t, 3))
  {
    PackOctets(SBox(WordOctet(t, 0)), SBox(WordOctet(t, 1)), SBox(WordOctet(t, 2)), SBox(WordOctet(t, 3)));
  }

  lemma XorWordOctets(t: word, u: word, j: nat)
    requires j < 4
    ensures WordOctet(XorWords(t, u), j) == Plus(WordOctet(t, j), WordOctet(u, j))
  {
    if j == 0 {
      XorWordOctet0(t, u);
    } else if j == 1 {
      XorWordOctet1(t, u);
    } else if j == 2 {
      XorWordOctet2(t, u);
    } else {
      XorWordOctet3(t, u);
    }
  }

  lemma XorWordOctet0(t: word, u: word)
    ensures WordOctet(XorWords(t, u), 0) == Plus(WordOctet(t, 0), WordOctet(u, 0))
  {
  }

  lemma XorWordOctet1(t: word, u: word)
    ensures WordOctet(XorWords(t, u), 1) == Plus(WordOctet(t, 1), WordOctet(u, 1))
  {
  }

  lemma XorWordOctet2(t: word, u: word)
    ensures WordOctet(XorWords(t, u), 2) == Plus(WordOctet(t, 2), WordOctet(u, 2))
  {
  }

  lemma XorWordOctet3(t: word, u: word)
    ensures WordOctet(XorWords(t, u), 3) == Plus(WordOctet(t, 3), WordOctet(u, 3))
  {
  }

  /** All 60 words are used, four for each of the 15 round keys, octet by octet. */
  lemma RoundKeysCover(key: seq<octet>, i: nat, j: nat)
    requires |key| == 32 && i < 60 && j < 4
    ensures |KeySchedule(key)| == 15
    ensures KeySchedule(key)[i / 4][4 * (i % 4) + j] == WordOctet(ScheduleWord(key, i), j)
  {
    var w := seq(SCHEDULE_WORDS, n requires 0 <= n < SCHEDULE_WORDS => ScheduleWord(key, n));
    RoundKeyOctet(w, i, j);
    assert KeySchedule(key) == KeysOf(w);
  }

  lemma RoundKeyOctet(w: seq<word>, i: nat, j: nat)
    requires |w| == SCHEDULE_WORDS && i < 60 && j < 4
    ensures KeysOf(w)[i / 4][4 * (i % 4) + j] == WordOctet(w[i], j)
  {
    RowPosition(i % 4, j);
    assert i / 4 * 4 + i % 4 == i;
  }

  /** The first two round keys are the key itself. */
  lemma KeyComesFirst(key: seq<octet>, i: nat)
    requires |key| == 32 && i < 32
    ensures KeySchedule(key)[i / 16][i % 16] == key[i]
  {
    var n, j := i / 4, i % 4;
    RoundKeysCover(key, n, j);
    ScheduleUnfold(key, n);
    KeyWordOctet(key, n, j);
    assert n / 4 == i / 16 && 4 * (n % 4) + j == i % 16;
  }

  lemma KeyWordOctet(key: seq<octet>, n: nat, j: nat)
    requires |key| == 32 && n < 8 && j < 4
    ensures WordOctet(KeyWord(key, n), j) == key[4 * n + j]
  {
    PackOctets(key[n * 4], key[n * 4 + 1], key[n * 4 + 2], key[n * 4 + 3]);
  }

  // ---------- Rows and columns of the state ----------

  /** Row r is shifted by r places to the left, when the state is laid out row by row. */
  lemma ShiftRowsMoves(s: Block, r: nat, c: nat)
    requires r < 4 && c < 4
    ensures ShiftRows(s)[4 * r + c] == s[4 * r + (c + r) % 4]
  {
    RowPosition(r, c);
    ShiftsByRemainder(4 * r + c);
  }

  /** Octet (r, c) of the mixed state is 2 s(r, c) + 3 s(r+1, c) + s(r+2, c) + s(r+3, c). */
  lemma MixColumnsEquation(s: Block, r: nat, c: nat)
    requires r < 4 && c < 4
    ensures MixColumns(s)[4 * r + c] ==
              Plus(Plus(Plus(Mul(s[4 * r + c], 2), Mul(s[4 * ((r + 1) % 4) + c], 3)),
                        s[4 * ((r + 2) % 4) + c]), s[4 * ((r + 3) % 4) + c])
  {
    MixedRow(MixByte, s, r, c);
    MixByteSum(s[4 * r + c], s[4 * ((r + 1) % 4) + c], s[4 * ((r + 2) % 4) + c], s[4 * ((r + 3) % 4) + c]);
  }

  lemma MixedRow<T>(h: (T, T, T, T) -> T, s: seq<T>, r: nat, c: nat)
    requires |s| == 16 && r < 4 && c < 4
    ensures OverColumns(h, s)[4 * r + c] ==
              h(s[4 * r + c], s[4 * ((r + 1) % 4) + c], s[4 * ((r + 2) % 4) + c], s[4 * ((r + 3) % 4) + c])
  {
    BelowRow(r, c, 1);
    BelowRow(r, c, 2);
    BelowRow(r, c, 3);
  }

  lemma BelowRow(r: nat, c: nat, k: nat)
    requires r < 4 && c < 4 && k < 4
    ensures Below(4 * r + c, k) == 4 * ((r + k) % 4) + c
  {
    Wrapped(r + k);
  }

  lemma MixByteSum(a: octet, b: octet, c: octet, d: octet)
    ensures MixByte(a, b, c, d) == Plus(Plus(Plus(Mul(a, 2), Mul(b, 3)), c), d)
  {
    SumIsPlus(Mul(a, 2), Mul(b, 3), c, d);
  }

  lemma SumIsPlus(a: octet, b: octet, c: octet, d: octet)
    ensures Sum4(XorGroup(), a, b, c, d) == Plus(Plus(Plus(a, b), c), d)
  {
  }

  // ---------- The whole cipher, octet by octet ----------

  lemma XorIsPlus(a: octet, b: octet)
    ensures XorOctets(a, b) == Plus(a, b)
  {
  }

  lemma AddedOctet(s: Block, k: Block, t: nat)
    requires t < 16
    ensures AddRoundKey(s, k)[t] == Plus(s[t], k[t])
  {
    XorIsPlus(s[t], k[t]);
  }

  /** The substituted octet that the row shift brings to row r and column c. */
  function Moved(s: Block, r: nat, c: nat): octet
    requires r < 4 && c < 4
  {
    SBox(s[4 * r + (c + r) % 4])
  }

  lemma ShiftedOctet(s: Block, r: nat, c: nat)
    requires r < 4 && c < 4
    ensures Shift(s)[4 * r + c] == Moved(s, r, c)
  {
    ShiftRowsMoves(SubBytes(s), r, c);
  }

  /** One octet after a main round, from the state before it and the round key. */
  function RoundOctet(s: Block, k: Block, r: nat, c: nat): octet
    requires r < 4 && c < 4
  {
    Plus(Plus(Plus(Plus(Mul(Moved(s, r, c), 2), Mul(Moved(s, (r + 1) % 4, c), 3)), Moved(s, (r + 2) % 4, c)),
              Moved(s, (r + 3) % 4, c)), k[4 * r + c])
  }

  lemma RoundEquation(s: Block, k: Block, r: nat, c: nat)
    requires r < 4 && c < 4
    ensures Round(s, k)[4 * r + c] == RoundOctet(s, k, r, c)
  {
    MixColumnsEquation(Shift(s), r, c);
    ShiftedOctet(s, r, c);
    ShiftedOctet(s, (r + 1) % 4, c);
    ShiftedOctet(s, (r + 2) % 4, c);
    ShiftedOctet(s, (r + 3) % 4, c);
    AddedOctet(MixColumns(Shift(s)), k, 4 * r + c);
  }

  /** The state after n main rounds. */
  function StateAfter(s: Block, keys: RoundKeys, n: nat): Block
    requires n <= 13
  {
    Forward(Round, AddRoundKey(s, keys[0]), keys[1..n + 1])
  }

  /** The block cipher by its equations: the first key is added, every one of the 13 main rounds follows its equation,
      and the last one does not mix the columns. */
  lemma CipherEquations(s: Block, keys: RoundKeys, n: nat, r: nat, c: nat)
    requires n < 13 && r < 4 && c < 4
    ensures |keys| == 15
    ensures StateAfter(s, keys, 0)[4 * r + c] == Plus(s[4 * r + c], keys[0][4 * r + c])
    ensures StateAfter(s, keys, n + 1)[4 * r + c] == RoundOctet(StateAfter(s, keys, n), keys[n + 1], r, c)
    ensures EncryptBlock(s, keys)[4 * r + c] == Plus(Moved(StateAfter(s, keys, 13), r, c), keys[14][4 * r + c])
  {
    AddedOctet(s, keys[0], 4 * r + c);
    NextState(s, keys, n);
    RoundEquation(StateAfter(s, keys, n), keys[n + 1], r, c);
    ShiftedOctet(StateAfter(s, keys, 13), r, c);
    AddedOctet(Shift(StateAfter(s, keys, 13)), keys[14], 4 * r + c);
  }

  lemma NextState(s: Block, keys: RoundKeys, n: nat)
    requires n < 13
    ensures StateAfter(s, keys, n + 1) == Round(StateAfter(s, keys, n), keys[n + 1])
  {
    var k := keys[1..n + 2];
    assert k[..|k| - 1] == keys[1..n + 1] && k[|k| - 1] == keys[n + 1];
  }

  // ---------- The example of appendix A.3 ----------

  /** The next word, from the two it depends on and the transformed previous one. */
  lemma ExpandsTo(i: nat, before: word, previous: word, added: word, next: word)
    requires KEY_WORDS <= i && ScheduleCore(i, previous) == added && XorWords(before, added) == next
    requires Expand(ScheduleCore, EXAMPLE, i - KEY_WORDS) == before && Expand(ScheduleCore, EXAMPLE, i - 1) == previous
    ensures Expand(ScheduleCore, EXAMPLE, i) == next
  {
  }

  lemma Copied(i: nat, t: word)
    requires i % KEY_WORDS != 0 && i % KEY_WORDS != 4
    ensures ScheduleCore(i, t) == t
  {
  }

  ghost predicate ExampleWord(i: nat, w: word)
  {
    Expand(ScheduleCore, EXAMPLE, i) == w
  }

  lemma NextExample(i: nat, before: word, previous: word, next: word)
    requires KEY_WORDS <= i && i % KEY_WORDS != 0 && i % KEY_WORDS != 4
    requires ExampleWord(i - KEY_WORDS, before) && ExampleWord(i - 1, previous)
    requires XorWords(before, previous) == next
    ensures ExampleWord(i, next)
  {
    Copied(i, previous);
    ExpandsTo(i, before, previous, previous, next);
  }

  lemma NextTransformed(i: nat, before: word, previous: word, added: word, next: word)
    requires KEY_WORDS <= i && ExampleWord(i - KEY_WORDS, before) && ExampleWord(i - 1, previous)
    requires ScheduleCore(i, previous) == added && XorWords(before, added) == next
    ensures ExampleWord(i, next)
  {
    ExpandsTo(i, before, previous, added, next);
  }

  lemma ExampleStart(i: nat)
    requires i < 8
    ensures ExampleWord(i, EXAMPLE[i])
  {
  }

  /** The words of the key of the example in appendix A.3 of the standard. */
  const EXAMPLE: seq<word> := [
    0x603deb10, 0x15ca71be, 0x2b73aef0, 0x857d7781, 0x1f352c07, 0x3b6108d7, 0x2d9810a3, 0x0914dff4]

  /** The expanded words of that example, up to the third round key. */
  lemma ExpansionExample()
    ensures ExampleWord(8, 0x9ba35411) && ExampleWord(9, 0x8e6925af)
    ensures ExampleWord(10, 0xa51a8b5f) && ExampleWord(11, 0x2067fcde)
    ensures ExampleWord(12, 0xa8b09c1a) && ExampleWord(13, 0x93d194cd)
    ensures ExampleWord(14, 0xbe49846e) && ExampleWord(15, 0xb75d5b9a)
    ensures ExampleWord(16, 0xd59aecb8)
  {
    ExampleStarts();
    CoreExample8();
    NextTransformed(8, 0x603deb10, 0x0914dff4, 0xfb9ebf01, 0x9ba35411);
    NextExample(9, 0x15ca71be, 0x9ba35411, 0x8e6925af);
    NextExample(10, 0x2b73aef0, 0x8e6925af, 0xa51a8b5f);
    NextExample(11, 0x857d7781, 0xa51a8b5f, 0x2067fcde);
    CoreExample12();
    NextTransformed(12, 0x1f352c07, 0x2067fcde, 0xb785b01d, 0xa8b09c1a);
    NextExample(13, 0x3b6108d7, 0xa8b09c1a, 0x93d194cd);
    NextExample(14, 0x2d9810a3, 0x93d194cd, 0xbe49846e);
    NextExample(15, 0x0914dff4, 0xbe49846e, 0xb75d5b9a);
    CoreExample16();
    NextTransformed(16, 0x9ba35411, 0xb75d5b9a, 0x4e39b8a9, 0xd59aecb8);
  }

  lemma ExampleStarts()
    ensures ExampleWord(0, 0x603deb10) && ExampleWord(1, 0x15ca71be) && ExampleWord(2, 0x2b73aef0)
    ensures ExampleWord(3, 0x857d7781) && ExampleWord(4, 0x1f352c07) && ExampleWord(5, 0x3b6108d7)
    ensures ExampleWord(6, 0x2d9810a3) && ExampleWord(7, 0x0914dff4)
  {
    ExampleStart(0);
    ExampleStart(1);
    ExampleStart(2);
    ExampleStart(3);
    ExampleStart(4);
    ExampleStart(5);
    ExampleStart(6);
    ExampleStart(7);
  }

  lemma SubOctets(t: word, a: octet, b: octet, c: octet, d: octet)
    requires t == Pack(a, b, c, d)
    ensures SubWord(t) == Pack(SBox(a), SBox(b), SBox(c), SBox(d))
  {
    PackOctets(a, b, c, d);
  }

  lemma SubExample8()
    ensures SubWord(0x14dff409) == 0xfa9ebf01
  {
    SubOctets(0x14dff409, 0x14, 0xdf, 0xf4, 0x09);
    assert SBox(0x14) == 0xfa && SBox(0xdf) == 0x9e && SBox(0xf4) == 0xbf && SBox(0x09) == 0x01;
  }

  lemma SubExample12()
    ensures SubWord(0x2067fcde) == 0xb785b01d
  {
    SubOctets(0x2067fcde, 0x20, 0x67, 0xfc, 0xde);
    assert SBox(0x20) == 0xb7 && SBox(0x67) == 0x85 && SBox(0xfc) == 0xb0 && SBox(0xde) == 0x1d;
  }

  lemma SubExample16()
    ensures SubWord(0x5d5b9ab7) == 0x4c39b8a9
  {
    SubOctets(0x5d5b9ab7, 0x5d, 0x5b, 0x9a, 0xb7);
    assert SBox(0x5d) == 0x4c && SBox(0x5b) == 0x39 && SBox(0x9a) == 0xb8 && SBox(0xb7) == 0xa9;
  }

  lemma RotExamples()
    ensures RotWord(0x0914dff4) == 0x14dff409 && RotWord(0xb75d5b9a) == 0x5d5b9ab7
    ensures Rcon(1) == 0x01000000 && Rcon(2) == 0x02000000
  {
  }

  lemma CoreExample8()
    ensures ScheduleCore(8, 0x0914dff4) == 0xfb9ebf01
  {
    SubExample8();
    RotExamples();
    CoreRotated(8, 0x0914dff4, 0x14dff409, 0xfa9ebf01, 0x01000000);
  }

  lemma CoreExample12()
    ensures ScheduleCore(12, 0x2067fcde) == 0xb785b01d
  {
    SubExample12();
  }

  lemma CoreExample16()
    ensures ScheduleCore(16, 0xb75d5b9a) == 0x4e39b8a9
  {
    SubExample16();
    RotExamples();
    CoreRotated(16, 0xb75d5b9a, 0x5d5b9ab7, 0x4c39b8a9, 0x02000000);
  }

  lemma CoreRotated(i: nat, t: word, rotated: word, substituted: word, constant: word)
    requires i % 8 == 0 && RotWord(t) == rotated && SubWord(rotated) == substituted && Rcon(i / 8) == constant
    ensures ScheduleCore(i, t) == XorWords(substituted, constant)
  {
  }
}
