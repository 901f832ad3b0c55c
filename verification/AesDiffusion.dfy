/** Diffusion in the rounds of class AES256CBC: what one changed octet of the state becomes. */
module AesDiffusion {
  import opened AesTables
  import opened AesField
  import opened AesBlock

  // ---------- One column ----------

  lemma XTimeInjective(a: octet, b: octet)
    requires a != b
    ensures XTime(a) != XTime(b) && Plus(a, XTime(a)) != Plus(b, XTime(b))
  {
  }

  lemma PlusCancels(a: octet, b: octet, c: octet)
    requires a != b
    ensures Plus(a, c) != Plus(b, c) && Plus(c, a) != Plus(c, b)
  {
  }

  lemma MixByteParts(a: octet, b: octet, c: octet, d: octet)
    ensures MixByte(a, b, c, d) == Plus(Plus(Plus(XTime(a), Plus(b, XTime(b))), c), d)
  {
    XorIsBinary();
    ActSmall(XorGroup(), XTime, a);
    ActSmall(XorGroup(), XTime, b);
  }

  /** A mixed octet changes when exactly one of the four octets of its column does. */
  lemma MixByteSpreads(a: octet, b: octet, c: octet, d: octet, x: octet)
    ensures x != a ==> MixByte(x, b, c, d) != MixByte(a, b, c, d)
    ensures x != b ==> MixByte(a, x, c, d) != MixByte(a, b, c, d)
    ensures x != c ==> MixByte(a, b, x, d) != MixByte(a, b, c, d)
    ensures x != d ==> MixByte(a, b, c, x) != MixByte(a, b, c, d)
  {
    MixByteParts(a, b, c, d);
    var p, q := XTime(a), Plus(b, XTime(b));
    if x != a { FirstSpreads(a, b, c, d, x); }
    if x != b { SecondSpreads(a, b, c, d, x); }
    if x != c {
      MixByteParts(a, b, x, d);
      PlusCancels(x, c, Plus(p, q));
      PlusCancels(Plus(Plus(p, q), x), Plus(Plus(p, q), c), d);
    }
    if x != d {
      MixByteParts(a, b, c, x);
      PlusCancels(x, d, Plus(Plus(p, q), c));
    }
  }

  lemma FirstSpreads(a: octet, b: octet, c: octet, d: octet, x: octet)
    requires x != a
    ensures MixByte(x, b, c, d) != MixByte(a, b, c, d)
  {
    MixByteParts(a, b, c, d);
    MixByteParts(x, b, c, d);
    SumSpreads(XTime(x), XTime(a), Plus(b, XTime(b)), c, d);
    XTimeInjective(x, a);
  }

  lemma SecondSpreads(a: octet, b: octet, c: octet, d: octet, x: octet)
    requires x != b
    ensures MixByte(a, x, c, d) != MixByte(a, b, c, d)
  {
    MixByteParts(a, b, c, d);
    MixByteParts(a, x, c, d);
    SumSpreads(Plus(x, XTime(x)), Plus(b, XTime(b)), XTime(a), c, d);
    XTimeInjective(x, b);
  }

  lemma SumSpreads(x: octet, a: octet, b: octet, c: octet, d: octet)
    ensures x != a ==> Plus(Plus(Plus(x, b), c), d) != Plus(Plus(Plus(a, b), c), d)
    ensures x != a ==> Plus(Plus(Plus(b, x), c), d) != Plus(Plus(Plus(b, a), c), d)
  {
  }

  // ---------- One round ----------

  /** The two states differ at position i. */
  predicate Differ(s: Block, s': Block, i: nat)
    requires i < 16
  {
    s[i] != s'[i]
  }

  lemma EachSpread<T(!new)>(h: T -> T, h': T -> T, s: seq<T>, s': seq<T>, i: nat)
    requires |s| == |s'| == 16 && i < 16 && forall x :: h'(h(x)) == x
    ensures Each(h, s)[i] == Each(h, s')[i] <==> s[i] == s'[i]
  {
    assert h'(h(s[i])) == s[i] && h'(h(s'[i])) == s'[i];
  }

  lemma SubBytesSpread(s: Block, s': Block, i: nat)
    requires i < 16
    ensures Differ(SubBytes(s), SubBytes(s'), i) <==> Differ(s, s', i)
  {
    SBoxInverseAll();
    EachSpread(SBox, InvSBox, s, s', i);
  }

  /** Substituting and shifting moves a difference along its row. */
  lemma ShiftSpread(s: Block, s': Block, t: nat)
    requires t < 16
    ensures Differ(Shift(s), Shift(s'), t) <==> Differ(s, s', LeftBy(t))
  {
    SubBytesSpread(s, s', LeftBy(t));
  }

  /** The row, and the place in the cycle of four rows below t, of the one octet that differs in the column of t. */
  ghost predicate OnlyAt(s: Block, s': Block, t: nat, m: nat)
    requires t < 16 && m < 4
  {
    forall k :: 0 <= k < 4 ==> (Differ(s, s', Below(t, k)) <==> k == m)
  }

  lemma MixSpread(s: Block, s': Block, t: nat, m: nat)
    requires t < 16 && m < 4 && OnlyAt(s, s', t, m)
    ensures Differ(MixColumns(s), MixColumns(s'), t)
  {
    var a, b, c, d := s[t], s[Below(t, 1)], s[Below(t, 2)], s[Below(t, 3)];
    assert Differ(s, s', Below(t, 0)) <==> m == 0;
    assert Differ(s, s', Below(t, 1)) <==> m == 1;
    assert Differ(s, s', Below(t, 2)) <==> m == 2;
    assert Differ(s, s', Below(t, 3)) <==> m == 3;
    MixByteSpreads(a, b, c, d, s'[Below(t, m)]);
    assert MixColumns(s)[t] == MixByte(a, b, c, d);
    assert MixColumns(s')[t] == MixByte(s'[t], s'[Below(t, 1)], s'[Below(t, 2)], s'[Below(t, 3)]);
  }

  lemma MixKeeps(s: Block, s': Block, t: nat)
    requires t < 16 && forall k :: 0 <= k < 4 ==> !Differ(s, s', Below(t, k))
    ensures !Differ(MixColumns(s), MixColumns(s'), t)
  {
    assert !Differ(s, s', Below(t, 0)) && !Differ(s, s', Below(t, 1));
    assert !Differ(s, s', Below(t, 2)) && !Differ(s, s', Below(t, 3));
  }

  lemma KeySpread(s: Block, s': Block, k: Block, t: nat)
    requires t < 16
    ensures Differ(AddRoundKey(s, k), AddRoundKey(s', k), t) <==> Differ(s, s', t)
  {
    XorTwice(s[t], k[t]);
    XorTwice(s'[t], k[t]);
  }

  /** The column that position i moves to when its row is shifted. */
  function ColumnOf(i: nat): nat
    requires i < 16
  {
    (i % 4 + 4 - i / 4) % 4
  }

  /** Which position of column c, counted downwards from t, holds what was at i. */
  lemma ShiftedTo(i: nat, t: nat, k: nat)
    requires i < 16 && t < 16 && k < 4
    ensures LeftBy(Below(t, k)) == i <==> t % 4 == ColumnOf(i) && k == (i / 4 + 4 - t / 4) % 4
  {
    LeftBelow(t, k);
    var j := LeftBy(Below(t, k));
    SamePosition(j, i);
    PositionIff(t / 4, t % 4, k, i / 4, i % 4, j / 4, j % 4);
  }

  lemma PositionIff(a: int, b: int, k: int, r: int, c: int, row: int, column: int)
    requires 0 <= a < 4 && 0 <= b < 4 && 0 <= k < 4 && 0 <= r < 4 && 0 <= c < 4
    requires row == (a + k) % 4 && column == (b + row) % 4
    ensures row == r && column == c <==> b == (c + 4 - r) % 4 && k == (r + 4 - a) % 4
  {
    TurnedTo(a, k, r);
    TurnedTo(r, b, c);
  }

  lemma TurnedTo(a: int, k: int, r: int)
    requires 0 <= a < 4 && 0 <= k < 4 && 0 <= r < 4
    ensures (a + k) % 4 == r <==> k == (r + 4 - a) % 4
  {
    Wrapped(a + k);
    Wrapped(r + 4 - a);
  }

  lemma SamePosition(i: int, j: int)
    ensures i == j <==> i / 4 == j / 4 && i % 4 == j % 4
  {
  }

  /** Row and column of the position that is shifted to the one k rows below t. */
  lemma LeftBelow(t: nat, k: nat)
    requires t < 16 && k < 4
    ensures var j := LeftBy(Below(t, k));
            j / 4 == (t / 4 + k) % 4 && j % 4 == (t % 4 + (t / 4 + k) % 4) % 4
  {
    var r, c := t / 4, t % 4;
    Wrapped(r + k);
    RowPosition((r + k) % 4, c);
    assert Below(t, k) == (r + k) % 4 * 4 + c;
    ShiftsByRemainder(Below(t, k));
    RowPosition((r + k) % 4, (c + (r + k) % 4) % 4);
  }

  /** A round turns a difference in one octet into a difference in exactly the four octets of one column. */
  lemma RoundSpread(s: Block, i: nat, x: octet, k: Block, t: nat)
    requires i < 16 && t < 16 && x != s[i]
    ensures Round(s, k)[t] != Round(s[i := x], k)[t] <==> t % 4 == ColumnOf(i)
  {
    var s': Block := s[i := x];
    forall j | 0 <= j < 4
      ensures Differ(Shift(s), Shift(s'), Below(t, j)) <==> t % 4 == ColumnOf(i) && j == (i / 4 + 4 - t / 4) % 4
    {
      ShiftSpread(s, s', Below(t, j));
      ShiftedTo(i, t, j);
    }
    if t % 4 == ColumnOf(i) {
      MixSpread(Shift(s), Shift(s'), t, (i / 4 + 4 - t / 4) % 4);
    } else {
      MixKeeps(Shift(s), Shift(s'), t);
    }
    KeySpread(MixColumns(Shift(s)), MixColumns(Shift(s')), k, t);
  }

  /** The difference fills column c. */
  ghost predicate FillsColumn(s: Block, s': Block, c: nat)
  {
    forall t :: 0 <= t < 16 ==> (Differ(s, s', t) <==> t % 4 == c)
  }

  /** Of the column of t, the position that comes out of column c. */
  lemma ShiftedFrom(c: nat, t: nat, k: nat)
    requires c < 4 && t < 16 && k < 4
    ensures LeftBy(Below(t, k)) % 4 == c <==> k == (8 + c - t % 4 - t / 4) % 4
  {
    LeftBelow(t, k);
    Wrapped(t / 4 + k);
    Wrapped(t % 4 + (t / 4 + k) % 4);
  }

  /** A column that differs spreads over the whole state in the next round. */
  lemma ColumnSpread(s: Block, s': Block, c: nat, k: Block, t: nat)
    requires c < 4 && t < 16 && FillsColumn(s, s', c)
    ensures Differ(Round(s, k), Round(s', k), t)
  {
    var m := (8 + c - t % 4 - t / 4) % 4;
    forall j | 0 <= j < 4
      ensures Differ(Shift(s), Shift(s'), Below(t, j)) <==> j == m
    {
      ShiftSpread(s, s', Below(t, j));
      ShiftedFrom(c, t, j);
    }
    MixSpread(Shift(s), Shift(s'), t, m);
    KeySpread(MixColumns(Shift(s)), MixColumns(Shift(s')), k, t);
  }

  /** Full diffusion: when one octet of a state is changed, two rounds change all sixteen, for any round keys. */
  lemma TwoRoundsSpread(s: Block, i: nat, x: octet, k: Block, k': Block, t: nat)
    requires i < 16 && t < 16 && x != s[i]
    ensures Round(Round(s, k), k')[t] != Round(Round(s[i := x], k), k')[t]
  {
    forall j | 0 <= j < 16
      ensures Differ(Round(s, k), Round(s[i := x], k), j) <==> j % 4 == ColumnOf(i)
    {
      RoundSpread(s, i, x, k, j);
    }
    ColumnSpread(Round(s, k), Round(s[i := x], k), ColumnOf(i), k', t);
  }
}
