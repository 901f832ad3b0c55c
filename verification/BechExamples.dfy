/** Two valid strings of BIP 173, computed step by step. */
module BechExamples {
  import opened Text
  import opened LinearRegister
  import opened Bech32

  ghost predicate StepTo(chk: word, v: word, next: word)
  {
    Step(Polynomial(), chk, v) == next
  }

  lemma StepValue(chk: word, v: word, next: word)
    requires Mix(Mix(Shifted(chk), v), AllTaps(chk)) == next
    ensures StepTo(chk, v, next)
  {
    StepClosed(chk, v);
  }

  lemma OneMore(front: seq<word>, chk: word, v: word, next: word)
    requires Check(1, front) == chk && StepTo(chk, v, next)
    ensures Check(1, front + [v]) == next
  {
    RunPush(Polynomial(), 1, front, v);
  }

  lemma SixMore(front: seq<word>, c0: word, c1: word, c2: word, c3: word, c4: word, c5: word, c6: word,
                v0: word, v1: word, v2: word, v3: word, v4: word, v5: word)
    requires Check(1, front) == c0
    requires StepTo(c0, v0, c1) && StepTo(c1, v1, c2) && StepTo(c2, v2, c3)
    requires StepTo(c3, v3, c4) && StepTo(c4, v4, c5) && StepTo(c5, v5, c6)
    ensures Check(1, front + [v0, v1, v2, v3, v4, v5]) == c6
  {
    RunAppend(Polynomial(), 1, front, [v0, v1, v2, v3, v4, v5]);
    RunSix(Polynomial(), c0, [v0, v1, v2, v3, v4, v5]);
  }

  // ---------- No data ----------

  lemma ShortSteps0()
    ensures StepTo(0x1, 3, 0x23)
    ensures StepTo(0x23, 0, 0x460)
    ensures StepTo(0x460, 1, 0x8c01)
  {
    StepValue(0x1, 3, 0x23);
    StepValue(0x23, 0, 0x460);
    StepValue(0x460, 1, 0x8c01);
  }

  lemma ShortSteps1()
    ensures StepTo(0x8c01, 0, 0x118020)
    ensures StepTo(0x118020, 0, 0x2300400)
    ensures StepTo(0x2300400, 0, 0x3d6ad7b2)
    ensures StepTo(0x3d6ad7b2, 0, 0x2fd30b9)
    ensures StepTo(0x2fd30b9, 0, 0x24cc4092)
    ensures StepTo(0x24cc4092, 0, 0x15ccfe9e)
  {
    StepValue(0x8c01, 0, 0x118020);
    StepValue(0x118020, 0, 0x2300400);
    StepValue(0x2300400, 0, 0x3d6ad7b2);
    StepValue(0x3d6ad7b2, 0, 0x2fd30b9);
    StepValue(0x2fd30b9, 0, 0x24cc4092);
    StepValue(0x24cc4092, 0, 0x15ccfe9e);
  }

  lemma ShortRegister()
    ensures Check(1, [3, 0, 1] + SIX_ZEROS) == 0x15ccfe9e
  {
    ShortSteps0();
    ShortSteps1();
    assert Check(1, []) == 1;
    OneMore([], 0x1, 3, 0x23);
    OneMore([3], 0x23, 0, 0x460);
    OneMore([3, 0], 0x460, 1, 0x8c01);
    assert [] + [3] == [3] && [3] + [0] == [3, 0] && [3, 0] + [1] == [3, 0, 1];
    SixMore([3, 0, 1], 0x8c01, 0x118020, 0x2300400, 0x3d6ad7b2, 0x2fd30b9, 0x24cc4092, 0x15ccfe9e,
            0, 0, 0, 0, 0, 0);
  }

  lemma ShortChecksum()
    ensures CreateChecksum("a", []) == [10, 28, 25, 31, 20, 31]
  {
    ShortExpansion();
    assert HrpExpand("a") + [] + SIX_ZEROS == [3, 0, 1] + SIX_ZEROS;
    ShortRegister();
    ShortDigits();
  }

  lemma ShortExpansion()
    ensures HrpExpand("a") == [3, 0, 1]
  {
    assert CodeUnits("a") == [97];
    assert HighPart(97) == 3 && LowPart(97) == 1;
  }

  lemma ShortDigits()
    ensures Digits(Mix(0x15ccfe9e, 1)) == [10, 28, 25, 31, 20, 31]
  {
  }

  lemma ShortSpelling()
    ensures Spell([10, 28, 25, 31, 20, 31]) == "2uel5l"
  {
  }

  /** The encoding of no data for the part "a". */
  lemma ShortText()
    ensures Encode("a", []) == "a12uel5l"
  {
    ShortChecksum();
    EncodeSymbols("a", []);
    assert [] + CreateChecksum("a", []) == [10, 28, 25, 31, 20, 31];
    ShortSpelling();
  }

  // ---------- Every symbol once ----------

  const PART: seq<word> := [3, 3, 3, 3, 3, 3] + [0] + [1, 2, 3, 4, 5, 6]

  const ALL_SYMBOLS: seq<symbol> :=
    [0, 1, 2, 3, 4, 5] + [6, 7, 8, 9, 10, 11] + [12, 13, 14, 15, 16, 17] + [18, 19, 20, 21, 22, 23]
    + [24, 25, 26, 27, 28, 29] + [30, 31]

  lemma LongSteps0()
    ensures StepTo(0x1, 3, 0x23)
    ensures StepTo(0x23, 3, 0x463)
    ensures StepTo(0x463, 3, 0x8c63)
    ensures StepTo(0x8c63, 3, 0x118c63)
    ensures StepTo(0x118c63, 3, 0x2318c63)
    ensures StepTo(0x2318c63, 3, 0x3d5bdbd1)
    ensures StepTo(0x3d5bdbd1, 0, 0x4dcbcd9)
  {
    StepValue(0x1, 3, 0x23);
    StepValue(0x23, 3, 0x463);
    StepValue(0x463, 3, 0x8c63);
    StepValue(0x8c63, 3, 0x118c63);
    StepValue(0x118c63, 3, 0x2318c63);
    StepValue(0x2318c63, 3, 0x3d5bdbd1);
    StepValue(0x3d5bdbd1, 0, 0x4dcbcd9);
  }

  lemma LongSteps1()
    ensures StepTo(0x4dcbcd9, 1, 0x3dc7154c)
    ensures StepTo(0x3dc7154c, 2, 0x17456f7b)
    ensures StepTo(0x17456f7b, 3, 0x8d50561)
    ensures StepTo(0x8d50561, 4, 0x401b5de)
    ensures StepTo(0x401b5de, 5, 0x266635a8)
    ensures StepTo(0x266635a8, 6, 0x3be80e6a)
  {
    StepValue(0x4dcbcd9, 1, 0x3dc7154c);
    StepValue(0x3dc7154c, 2, 0x17456f7b);
    StepValue(0x17456f7b, 3, 0x8d50561);
    StepValue(0x8d50561, 4, 0x401b5de);
    StepValue(0x401b5de, 5, 0x266635a8);
    StepValue(0x266635a8, 6, 0x3be80e6a);
  }

  lemma LongSteps2()
    ensures StepTo(0x3be80e6a, 0, 0xf9cd266)
    ensures StepTo(0xf9cd266, 1, 0x30018ce4)
    ensures StepTo(0x30018ce4, 2, 0x1767cdec)
    ensures StepTo(0x1767cdec, 3, 0xc815781)
    ensures StepTo(0xc815781, 4, 0x28db67b3)
    ensures StepTo(0x28db67b3, 5, 0x2fd98d2c)
  {
    StepValue(0x3be80e6a, 0, 0xf9cd266);
    StepValue(0xf9cd266, 1, 0x30018ce4);
    StepValue(0x30018ce4, 2, 0x1767cdec);
    StepValue(0x1767cdec, 3, 0xc815781);
    StepValue(0xc815781, 4, 0x28db67b3);
    StepValue(0x28db67b3, 5, 0x2fd98d2c);
  }

  lemma LongSteps3()
    ensures StepTo(0x2fd98d2c, 6, 0x12be0710)
    ensures StepTo(0x12be0710, 7, 0x11e88668)
    ensures StepTo(0x11e88668, 8, 0x52fed5)
    ensures StepTo(0x52fed5, 9, 0xa5fdaa9)
    ensures StepTo(0xa5fdaa9, 10, 0x2e301b62)
    ensures StepTo(0x2e301b62, 11, 0x2f8ccedd)
  {
    StepValue(0x2fd98d2c, 6, 0x12be0710);
    StepValue(0x12be0710, 7, 0x11e88668);
    StepValue(0x11e88668, 8, 0x52fed5);
    StepValue(0x52fed5, 9, 0xa5fdaa9);
    StepValue(0xa5fdaa9, 10, 0x2e301b62);
    StepValue(0x2e301b62, 11, 0x2f8ccedd);
  }

  lemma LongSteps4()
    ensures StepTo(0x2f8ccedd, 12, 0x1816793a)
    ensures StepTo(0x1816793a, 13, 0x212c0d6a)
    ensures StepTo(0x212c0d6a, 14, 0xf95cffd)
    ensures StepTo(0xf95cffd, 15, 0x31223f8a)
    ensures StepTo(0x31223f8a, 16, 0x3311a03e)
    ensures StepTo(0x3311a03e, 17, 0xe08010d)
  {
    StepValue(0x2f8ccedd, 12, 0x1816793a);
    StepValue(0x1816793a, 13, 0x212c0d6a);
    StepValue(0x212c0d6a, 14, 0xf95cffd);
    StepValue(0xf95cffd, 15, 0x31223f8a);
    StepValue(0x31223f8a, 16, 0x3311a03e);
    StepValue(0x3311a03e, 17, 0xe08010d);
  }

  lemma LongSteps5()
    ensures StepTo(0xe08010d, 18, 0x29be197)
    ensures StepTo(0x29be197, 19, 0x28166541)
    ensures StepTo(0x28166541, 20, 0x3679d37d)
    ensures StepTo(0x3679d37d, 21, 0x556e704)
    ensures StepTo(0x556e704, 22, 0xc8c6efb)
    ensures StepTo(0xc8c6efb, 23, 0x297c48e0)
  {
    StepValue(0xe08010d, 18, 0x29be197);
    StepValue(0x29be197, 19, 0x28166541);
    StepValue(0x28166541, 20, 0x3679d37d);
    StepValue(0x3679d37d, 21, 0x556e704);
    StepValue(0x556e704, 22, 0xc8c6efb);
    StepValue(0xc8c6efb, 23, 0x297c48e0);
  }

  lemma LongSteps6()
    ensures StepTo(0x297c48e0, 24, 0x1b3c6751)
    ensures StepTo(0x1b3c6751, 25, 0x3f0597ac)
    ensures StepTo(0x3f0597ac, 26, 0x347f64d1)
    ensures StepTo(0x347f64d1, 27, 0x3eea4538)
    ensures StepTo(0x3eea4538, 28, 0x9853657)
    ensures StepTo(0x9853657, 29, 0x2e07d307)
    ensures StepTo(0x2e07d307, 30, 0x2975c268)
    ensures StepTo(0x2975c268, 31, 0x1a0d3656)
  {
    StepValue(0x297c48e0, 24, 0x1b3c6751);
    StepValue(0x1b3c6751, 25, 0x3f0597ac);
    StepValue(0x3f0597ac, 26, 0x347f64d1);
    StepValue(0x347f64d1, 27, 0x3eea4538);
    StepValue(0x3eea4538, 28, 0x9853657);
    StepValue(0x9853657, 29, 0x2e07d307);
    StepValue(0x2e07d307, 30, 0x2975c268);
    StepValue(0x2975c268, 31, 0x1a0d3656);
  }

  lemma LongSteps7()
    ensures StepTo(0x1a0d3656, 0, 0x192fb755)
    ensures StepTo(0x192fb755, 0, 0x615c087)
    ensures StepTo(0x615c087, 0, 0x1f82c93f)
    ensures StepTo(0x1f82c93f, 0, 0xe80d418)
    ensures StepTo(0xe80d418, 0, 0x13814325)
    ensures StepTo(0x13814325, 0, 0x360000cf)
  {
    StepValue(0x1a0d3656, 0, 0x192fb755);
    StepValue(0x192fb755, 0, 0x615c087);
    StepValue(0x615c087, 0, 0x1f82c93f);
    StepValue(0x1f82c93f, 0, 0xe80d418);
    StepValue(0xe80d418, 0, 0x13814325);
    StepValue(0x13814325, 0, 0x360000cf);
  }

  lemma PartRegister()
    ensures Check(1, PART) == 0x3be80e6a
  {
    LongSteps0();
    LongSteps1();
    var f: seq<word> := [3, 3, 3, 3, 3, 3];
    assert Check(1, []) == 1;
    SixMore([], 0x1, 0x23, 0x463, 0x8c63, 0x118c63, 0x2318c63, 0x3d5bdbd1,
            3, 3, 3, 3, 3, 3);
    assert [] + f == f;
    OneMore(f, 0x3d5bdbd1, 0, 0x4dcbcd9);
    SixMore(f + [0], 0x4dcbcd9, 0x3dc7154c, 0x17456f7b, 0x8d50561, 0x401b5de, 0x266635a8, 0x3be80e6a,
            1, 2, 3, 4, 5, 6);
  }

  lemma FirstSymbols(front: seq<word>)
    requires Check(1, front) == 0x3be80e6a
    ensures Check(1, front + [0, 1, 2, 3, 4, 5] + [6, 7, 8, 9, 10, 11] + [12, 13, 14, 15, 16, 17]) == 0xe08010d
  {
    LongSteps2();
    LongSteps3();
    LongSteps4();
    SixMore(front, 0x3be80e6a, 0xf9cd266, 0x30018ce4, 0x1767cdec, 0xc815781, 0x28db67b3, 0x2fd98d2c,
            0, 1, 2, 3, 4, 5);
    SixMore(front + [0, 1, 2, 3, 4, 5], 0x2fd98d2c, 0x12be0710, 0x11e88668, 0x52fed5, 0xa5fdaa9, 0x2e301b62, 0x2f8ccedd,
            6, 7, 8, 9, 10, 11);
    SixMore(front + [0, 1, 2, 3, 4, 5] + [6, 7, 8, 9, 10, 11],
            0x2f8ccedd, 0x1816793a, 0x212c0d6a, 0xf95cffd, 0x31223f8a, 0x3311a03e, 0xe08010d,
            12, 13, 14, 15, 16, 17);
  }

  lemma LastSymbols(front: seq<word>)
    requires Check(1, front) == 0xe08010d
    ensures Check(1, front + [18, 19, 20, 21, 22, 23] + [24, 25, 26, 27, 28, 29] + [30] + [31]) == 0x1a0d3656
  {
    LongSteps5();
    LongSteps6();
    SixMore(front, 0xe08010d, 0x29be197, 0x28166541, 0x3679d37d, 0x556e704, 0xc8c6efb, 0x297c48e0,
            18, 19, 20, 21, 22, 23);
    SixMore(front + [18, 19, 20, 21, 22, 23],
            0x297c48e0, 0x1b3c6751, 0x3f0597ac, 0x347f64d1, 0x3eea4538, 0x9853657, 0x2e07d307,
            24, 25, 26, 27, 28, 29);
    OneMore(front + [18, 19, 20, 21, 22, 23] + [24, 25, 26, 27, 28, 29], 0x2e07d307, 30, 0x2975c268);
    OneMore(front + [18, 19, 20, 21, 22, 23] + [24, 25, 26, 27, 28, 29] + [30], 0x2975c268, 31, 0x1a0d3656);
  }

  lemma JoinSymbols(front: seq<word>, a: seq<word>, b: seq<word>, c: seq<word>, d: seq<word>, e: seq<word>,
                    f: word, g: word)
    ensures front + a + b + c + d + e + [f] + [g] == front + (a + b + c + d + e + [f, g])
  {
  }

  lemma DataRegister(front: seq<word>)
    requires Check(1, front) == 0x3be80e6a
    ensures Check(1, front + ALL_SYMBOLS) == 0x1a0d3656
  {
    FirstSymbols(front);
    LastSymbols(front + [0, 1, 2, 3, 4, 5] + [6, 7, 8, 9, 10, 11] + [12, 13, 14, 15, 16, 17]);
    JoinSymbols(front, [0, 1, 2, 3, 4, 5], [6, 7, 8, 9, 10, 11], [12, 13, 14, 15, 16, 17],
                [18, 19, 20, 21, 22, 23], [24, 25, 26, 27, 28, 29], 30, 31);
  }

  lemma LongRegister()
    ensures Check(1, PART + ALL_SYMBOLS + SIX_ZEROS) == 0x360000cf
  {
    PartRegister();
    DataRegister(PART);
    LongSteps7();
    SixMore(PART + ALL_SYMBOLS, 0x1a0d3656, 0x192fb755, 0x615c087, 0x1f82c93f, 0xe80d418, 0x13814325, 0x360000cf,
            0, 0, 0, 0, 0, 0);
  }

  lemma LongChecksum()
    ensures CreateChecksum("abcdef", ALL_SYMBOLS) == [27, 0, 0, 0, 6, 14]
  {
    LongExpansion();
    LongRegister();
    LongDigits();
  }

  lemma LongExpansion()
    ensures HrpExpand("abcdef") == PART
  {
    LongUnits();
    LettersExpanded();
  }

  lemma LongUnits()
    ensures CodeUnits("abcdef") == [97, 98, 99, 100, 101, 102]
  {
  }

  lemma LettersExpanded()
    ensures HighPart(97) == HighPart(98) == HighPart(99) == HighPart(100) == HighPart(101) == HighPart(102) == 3
    ensures LowPart(97) == 1 && LowPart(98) == 2 && LowPart(99) == 3
    ensures LowPart(100) == 4 && LowPart(101) == 5 && LowPart(102) == 6
  {
  }

  lemma LongDigits()
    ensures Digits(Mix(0x360000cf, 1)) == [27, 0, 0, 0, 6, 14]
  {
  }

  lemma SpellJoin(a: seq<symbol>, b: seq<symbol>, c: seq<symbol>, d: seq<symbol>, e: seq<symbol>,
                  f: seq<symbol>, g: seq<symbol>)
    ensures Spell(a + b + c + d + e + f + g) == Spell(a) + Spell(b) + Spell(c) + Spell(d) + Spell(e) + Spell(f) + Spell(g)
  {
  }

  lemma Spelling0()
    ensures Spell([0, 1, 2, 3, 4, 5]) == "qpzry9" && Spell([6, 7, 8, 9, 10, 11]) == "x8gf2t"
    ensures Spell([12, 13, 14, 15, 16, 17]) == "vdw0s3"
  {
  }

  lemma Spelling1()
    ensures Spell([18, 19, 20, 21, 22, 23]) == "jn54kh" && Spell([24, 25, 26, 27, 28, 29]) == "ce6mua"
    ensures Spell([30, 31]) == "7l" && Spell([27, 0, 0, 0, 6, 14]) == "mqqqxw"
  {
  }

  lemma LongSpelling()
    ensures Spell(ALL_SYMBOLS + [27, 0, 0, 0, 6, 14]) ==
              "qpzry9" + "x8gf2t" + "vdw0s3" + "jn54kh" + "ce6mua" + "7l" + "mqqqxw"
  {
    SpellJoin([0, 1, 2, 3, 4, 5], [6, 7, 8, 9, 10, 11], [12, 13, 14, 15, 16, 17], [18, 19, 20, 21, 22, 23],
              [24, 25, 26, 27, 28, 29], [30, 31], [27, 0, 0, 0, 6, 14]);
    Spelling0();
    Spelling1();
  }

  /** The encoding of the symbols from 0 to 31 for the part "abcdef", which shows every character of the alphabet. */
  lemma LongText()
    ensures Encode("abcdef", ALL_SYMBOLS) ==
              "abcdef" + "1" + ("qpzry9" + "x8gf2t" + "vdw0s3" + "jn54kh" + "ce6mua" + "7l" + "mqqqxw")
  {
    LongChecksum();
    EncodeSymbols("abcdef", ALL_SYMBOLS);
    LongSpelling();
  }
}
