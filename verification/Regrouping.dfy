/** Regrouping of bits: convertBits of nostr-utils.js, with its 32-bit accumulator, against an
    unbounded specification that reads the input as one number. */
module Regrouping {
  import opened Results
  import opened NumberTheory

  const WORD := 0x1_0000_0000

  type int32 = x: int | -0x8000_0000 <= x < 0x8000_0000

  /** The signed 32-bit number congruent to x. */
  function Wrap32(x: int): int32
  {
    (x + 0x8000_0000) % WORD - 0x8000_0000
  }

  function P(k: nat): (p: int)
    ensures p > 0
  {
    PowPositive2(k);
    Pow(2, k)
  }

  lemma {:induction false} PowPositive2(k: nat)
    ensures Pow(2, k) > 0
    decreases k
  {
    if k > 0 { PowPositive2(k - 1); }
  }

  /** x << k on 32-bit integers. */
  function Shl(x: int, k: nat): int32
  {
    Wrap32(x * P(k))
  }

  /** x >> k: the arithmetic shift rounds down. */
  function Shr(x: int, k: nat): int
  {
    x / P(k)
  }

  /** x & ((1 << k) - 1). */
  function LowBits(x: int, k: nat): int
  {
    x % P(k)
  }

  // ---------- Numbers in positional notation ----------

  ghost predicate InRange(d: seq<int>, base: int)
  {
    forall i :: 0 <= i < |d| ==> 0 <= d[i] < base
  }

  function Value(d: seq<int>, base: int): int
  {
    if d == [] then 0 else base * Value(d[..|d| - 1], base) + d[|d| - 1]
  }

  /** The low k digits of x, most significant first. */
  function Digits(x: int, k: nat, base: int): (d: seq<int>)
    requires base > 0
    ensures |d| == k && InRange(d, base)
    decreases k
  {
    if k == 0 then [] else Digits(x / base, k - 1, base) + [x % base]
  }

  /** The zero bits that complete the last group. */
  function FillBits(n: nat, from: nat, to: nat): (c: nat)
    requires to > 0
    ensures c < to
  {
    -(from * n) % to
  }

  function BitCount(from: nat, n: nat): (b: nat)
    ensures b == from * n
  {
    MulLe(0, n, from);
    from * n
  }

  /** How many whole groups there are in b bits. */
  function Groups(b: nat, to: nat): nat
    requires to > 0
  {
    b / to
  }

  /** The result of regrouping. With padding the number is extended on the right to whole groups;
      without, what is left over must be less than one input group and zero. */
  ghost function Convert(data: seq<int>, from: nat, to: nat, pad: bool): Option<seq<int>>
    requires from > 0 && to > 0
  {
    var total := BitCount(from, |data|);
    var v := Value(data, P(from));
    if !InRange(data, P(from)) then None
    else if pad then
      var c := FillBits(|data|, from, to);
      Some(Digits(v * P(c), Groups(total + c, to), P(to)))
    else
      var r := total % to;
      if r >= from || v % P(r) != 0 then None
      else Some(Digits(v / P(r), Groups(total, to), P(to)))
  }

  // ---------- Powers and division ----------

  lemma PAdd(j: nat, k: nat)
    ensures P(j + k) == P(j) * P(k)
  {
    PowAdd(2, j, k);
  }

  lemma {:induction false} PTimes(j: nat, k: nat)
    ensures Pow(P(j), k) == P(j * k)
    decreases k
  {
    if k == 0 {
      assert j * k == 0;
    } else {
      PTimes(j, k - 1);
      PAdd(j, j * (k - 1));
      assert j + j * (k - 1) == j * k;
    }
  }

  lemma PWord()
    ensures P(32) == WORD
  {
    assert P(8) == 256;
    PAdd(8, 8);
    PAdd(16, 16);
  }

  /** Dividing twice, and the digit in between. */
  lemma DivDiv(x: int, a: int, b: int)
    requires a > 0 && b > 0
    ensures a * b > 0
    ensures x / (a * b) == x / a / b
    ensures x % (a * b) == (x / a % b) * a + x % a
  {
    var q, r := x / a / b, x / a % b;
    MulLe(1, b, a);
    MulRegroup(q, b, a, 1);
    assert x == (q * b + r) * a + x % a;
    assert (q * b + r) * a == q * (a * b) + r * a;
    MulLe(0, r, a);
    MulLe(r, b - 1, a);
    DivModUnique(x, a * b, q, r * a + x % a);
  }

  lemma ScaledMod(x: int, a: int, b: int)
    requires a > 0 && b > 0
    ensures a * b > 0 && x * b % (a * b) == (x % a) * b
    ensures x * b / b == x
  {
    MulLe(1, a, b);
    assert x == x / a * a + x % a;
    MulRegroup(x / a, a, b, 1);
    assert x * b == (x / a) * (a * b) + (x % a) * b;
    MulLe(0, x % a, b);
    MulLe(x % a, a - 1, b);
    DivModUnique(x * b, a * b, x / a, (x % a) * b);
    DivModUnique(x * b, b, x, 0);
  }

  // ---------- Values and digits ----------

  lemma {:induction false} ValueBound(d: seq<int>, base: int)
    requires base > 0 && InRange(d, base)
    ensures 0 <= Value(d, base) < Pow(base, |d|)
    decreases |d|
  {
    if d != [] {
      var v := Value(d[..|d| - 1], base);
      ValueBound(d[..|d| - 1], base);
      NextBound(v, d[|d| - 1], base, Pow(base, |d| - 1));
    }
  }

  lemma NextBound(v: int, x: int, base: int, m: int)
    requires 0 <= v < m && 0 <= x < base
    ensures 0 <= base * v + x < base * m
  {
    MulLe(0, v, base);
    MulLe(v, m - 1, base);
    assert (m - 1) * base == m * base - base;
  }

  lemma {:induction false} ValueOfDigits(x: int, k: nat, base: int)
    requires base > 0 && 0 <= x < Pow(base, k)
    ensures Value(Digits(x, k, base), base) == x
    decreases k
  {
    if k > 0 {
      var q := x / base;
      DigitBound(x, base, Pow(base, k - 1));
      ValueOfDigits(q, k - 1, base);
      var d := Digits(x, k, base);
      assert d[..|d| - 1] == Digits(q, k - 1, base);
    }
  }

  lemma DigitBound(x: int, base: int, m: int)
    requires base > 0 && 0 <= x < base * m
    ensures 0 <= x / base < m
    ensures base * (x / base) + x % base == x
  {
    if x / base >= m { MulLe(m, x / base, base); }
  }

  lemma {:induction false} DigitsOfValue(d: seq<int>, base: int)
    requires base > 0 && InRange(d, base)
    ensures Digits(Value(d, base), |d|, base) == d
    decreases |d|
  {
    if d != [] {
      var front := d[..|d| - 1];
      DigitsOfValue(front, base);
      DivModUnique(Value(d, base), base, Value(front, base), d[|d| - 1]);
      assert d == front + [d[|d| - 1]];
    }
  }

  // ---------- Regrouping back ----------

  lemma FillUnique(n: nat, k: nat, c: nat, from: nat, to: nat)
    requires to > 0 && c < to && from * n + c == to * k
    ensures FillBits(n, from, to) == c && (from * n + c) / to == k
  {
    var q: int := -1 * k;
    assert -(from * n) == q * to + c;
    DivModUnique(-(from * n), to, q, c);
    DivModUnique(to * k, to, k, 0);
  }

  lemma FillWhole(n: nat, from: nat, to: nat) returns (k: nat)
    requires to > 0
    ensures from * n + FillBits(n, from, to) == to * k
  {
    var q := -(from * n) / to;
    assert -(from * n) == q * to + FillBits(n, from, to);
    if q > 0 { MulLe(1, q, to); }
    k := -q;
  }

  /** A number of n groups, extended by c bits to k groups of another size, and back. */
  lemma Extended(v: int, n: nat, k: nat, c: nat, from: nat, to: nat)
    requires from * n + c == to * k && 0 <= v < Pow(P(from), n)
    ensures 0 <= v * P(c) < Pow(P(to), k)
    ensures v * P(c) % P(c) == 0 && v * P(c) / P(c) == v
  {
    PTimes(from, n);
    PTimes(to, k);
    PAdd(from * n, c);
    ScaledBound(v, P(from * n), P(c));
    DivModUnique(v * P(c), P(c), v, 0);
  }

  lemma ScaledBound(v: int, m: int, c: int)
    requires 0 <= v < m && c > 0
    ensures 0 <= v * c < m * c
  {
    MulLe(0, v, c);
    MulLe(v, m - 1, c);
    assert (m - 1) * c == m * c - c;
  }

  lemma Shortened(w: int, n: nat, k: nat, c: nat, from: nat, to: nat)
    requires from * n + c == to * k && 0 <= w < Pow(P(to), k) && w % P(c) == 0
    ensures 0 <= w / P(c) < Pow(P(from), n)
    ensures w / P(c) * P(c) == w
  {
    PTimes(from, n);
    PTimes(to, k);
    PAdd(from * n, c);
    DigitBound(w, P(c), P(from * n));
  }

  lemma PaddedBack(d: seq<int>, w: seq<int>, from: nat, to: nat)
    requires from > 0 && to > 0
    requires Convert(d, from, to, true) == Some(w) && FillBits(|d|, from, to) < from
    ensures Convert(w, to, from, false) == Some(d)
  {
    var v, c := Value(d, P(from)), FillBits(|d|, from, to);
    var k := FillWhole(|d|, from, to);
    FillUnique(|d|, k, c, from, to);
    ValueBound(d, P(from));
    Extended(v, |d|, k, c, from, to);
    ValueOfDigits(v * P(c), k, P(to));
    DivModUnique(to * k, from, |d|, c);
    DigitsOfValue(d, P(from));
  }

  lemma StrictBack(d: seq<int>, w: seq<int>, from: nat, to: nat)
    requires from > 0 && to > 0 && Convert(w, to, from, false) == Some(d)
    ensures Convert(d, from, to, true) == Some(w) && FillBits(|d|, from, to) < from
  {
    var x, r := Value(w, P(to)), to * |w| % from;
    ValueBound(w, P(to));
    assert to * |w| == from * |d| + r;
    Shortened(x, |d|, |w|, r, from, to);
    ValueOfDigits(x / P(r), |d|, P(from));
    FillUnique(|d|, |w|, r, from, to);
    DigitsOfValue(w, P(to));
  }

  /** Strict regrouping is exactly the inverse of padded regrouping, as long as the padding is
      shorter than one input group; in particular whenever to <= from, as from 8 to 5 bits. */
  lemma StrictIffPadded(d: seq<int>, w: seq<int>, from: nat, to: nat)
    requires from > 0 && to > 0
    ensures Convert(w, to, from, false) == Some(d) <==>
              Convert(d, from, to, true) == Some(w) && FillBits(|d|, from, to) < from
  {
    if Convert(w, to, from, false) == Some(d) { StrictBack(d, w, from, to); }
    if Convert(d, from, to, true) == Some(w) && FillBits(|d|, from, to) < from { PaddedBack(d, w, from, to); }
  }

  /** Bytes to five-bit words and back. */
  lemma FiveBitRoundTrip(d: seq<int>)
    requires InRange(d, 256)
    ensures Convert(d, 8, 5, true).Some?
    ensures Convert(Convert(d, 8, 5, true).value, 5, 8, false) == Some(d)
    ensures InRange(Convert(d, 8, 5, true).value, 32)
  {
    assert P(8) == 256;
    assert P(5) == 32;
    StrictIffPadded(d, Convert(d, 8, 5, true).value, 8, 5);
  }

  // ---------- The loop ----------

  /** acc holds the low 32 bits of v. */
  ghost predicate Holds(acc: int, v: int)
  {
    acc % WORD == v % WORD
  }

  lemma WrapHolds(x: int)
    ensures Holds(Wrap32(x), x)
  {
    var q := (x + 0x8000_0000) / WORD;
    assert x == Wrap32(x) + q * WORD;
    HoldsBy(Wrap32(x), x, q);
  }

  lemma HoldsBy(a: int, b: int, k: int)
    requires b == a + k * WORD
    ensures Holds(a, b)
  {
    DivModUnique(b, WORD, a / WORD + k, a % WORD);
  }

  /** The accumulator after one more input group. */
  lemma HoldsNext(acc: int, v: int, from: nat, value: int)
    requires Holds(acc, v)
    ensures Holds(Shl(acc, from) + value, v * P(from) + value)
  {
    var f := P(from);
    var k := v / WORD - acc / WORD;
    assert v == acc + k * WORD;
    MulRegroup(k, WORD, f, 1);
    assert v * f == acc * f + (k * f) * WORD;
    var q := (acc * f + 0x8000_0000) / WORD;
    assert acc * f == Wrap32(acc * f) + q * WORD;
    HoldsBy(Shl(acc, from) + value, v * f + value, q + k * f);
  }

  lemma HoldsLow(acc: int, v: int, k: nat)
    requires Holds(acc, v) && k <= 32
    ensures acc % P(k) == v % P(k)
  {
    var a, b := P(k), P(32 - k);
    PAdd(k, 32 - k);
    PWord();
    DivDiv(acc, a, b);
    DivDiv(v, a, b);
    MultipleLow(acc, a, b);
    MultipleLow(v, a, b);
  }

  /** Reducing modulo a multiple first changes nothing. */
  lemma MultipleLow(x: int, a: int, b: int)
    requires a > 0 && b > 0
    ensures a * b > 0 && x % (a * b) % a == x % a
  {
    DivDiv(x, a, b);
    DivModUnique(x % (a * b), a, x / a % b, x % a);
  }

  /** Output group: the bits of the number above the lowest ones, while they are in the accumulator. */
  lemma GroupRead(acc: int, v: int, bits: nat, to: nat)
    requires Holds(acc, v) && bits + to <= 32
    ensures LowBits(Shr(acc, bits), to) == v / P(bits) % P(to)
  {
    var a, b := P(bits), P(to);
    PAdd(bits, to);
    HoldsLow(acc, v, bits + to);
    HoldsLow(acc, v, bits);
    DivDiv(acc, a, b);
    DivDiv(v, a, b);
    MulCancel(acc / a % b, v / a % b, a);
  }

  lemma MulCancel(x: int, y: int, a: int)
    requires a > 0 && x * a == y * a
    ensures x == y
  {
    if x < y { MulLe(x, y - 1, a); }
    if y < x { MulLe(y, x - 1, a); }
  }

  /** The last, incomplete group: the remaining bits moved to the top of a group. */
  lemma LastRead(acc: int, v: int, bits: nat, to: nat)
    requires Holds(acc, v) && bits < to <= 32
    ensures LowBits(Shl(acc, to - bits), to) == v % P(bits) * P(to - bits)
    ensures LowBits(Shl(acc, to - bits), to) == v * P(to - bits) % P(to)
  {
    var c := to - bits;
    PAdd(bits, c);
    WrapHolds(acc * P(c));
    HoldsLow(Shl(acc, c), acc * P(c), to);
    ScaledMod(acc, P(bits), P(c));
    HoldsLow(acc, v, bits);
    ScaledMod(v, P(bits), P(c));
  }

  /** Of total bits, the loop has written all but the last ones, which it still holds. */
  ghost predicate Progress(v: int, total: int, acc: int, bits: nat, ret: seq<int>, to: nat)
    requires to > 0
  {
    Holds(acc, v) && total == to * |ret| + bits && ret == Digits(v / P(bits), |ret|, P(to))
  }

  lemma TakeGroup(v: int, total: int, acc: int, bits: nat, ret: seq<int>, from: nat, to: nat, value: int)
    requires to > 0 && Progress(v, total, acc, bits, ret, to) && 0 <= value < P(from)
    ensures Progress(v * P(from) + value, total + from, Shl(acc, from) + value, bits + from, ret, to)
  {
    HoldsNext(acc, v, from, value);
    PAdd(from, bits);
    DivDiv(v * P(from) + value, P(from), P(bits));
    DivModUnique(v * P(from) + value, P(from), v, value);
  }

  lemma DigitsAppend(x: int, k: nat, base: int)
    requires base > 0
    ensures Digits(x, k + 1, base) == Digits(x / base, k, base) + [x % base]
  {
  }

  lemma GroupWritten(v: int, acc: int, bits: nat, ret: seq<int>, to: nat)
    requires Holds(acc, v) && bits + to <= 32 && ret == Digits(v / P(bits + to), |ret|, P(to))
    ensures Digits(v / P(bits), |ret| + 1, P(to)) == ret + [LowBits(Shr(acc, bits), to)]
  {
    GroupRead(acc, v, bits, to);
    PAdd(bits, to);
    DivDiv(v, P(bits), P(to));
    DigitsAppend(v / P(bits), |ret|, P(to));
  }

  lemma Distribute(a: int, k: int)
    ensures a * (k + 1) == a * k + a
  {
  }

  lemma GiveGroup(v: int, total: int, acc: int, bits: nat, ret: seq<int>, to: nat)
    requires to > 0 && Progress(v, total, acc, bits + to, ret, to) && bits + to <= 32
    ensures Progress(v, total, acc, bits, ret + [LowBits(Shr(acc, bits), to)], to)
  {
    GroupWritten(v, acc, bits, ret, to);
    Distribute(to, |ret|);
  }

  /** Strict regrouping, given the number of whole groups and what is left. */
  lemma StrictValue(data: seq<int>, k: nat, r: nat, from: nat, to: nat)
    requires from > 0 && r < to && InRange(data, P(from)) && from * |data| == to * k + r
    ensures var v := Value(data, P(from));
            Convert(data, from, to, false) == if r >= from || v % P(r) != 0 then None else Some(Digits(v / P(r), k, P(to)))
  {
    DivModUnique(from * |data|, to, k, r);
  }

  /** Padded regrouping, given the number of groups and of zero bits. */
  lemma PaddedValue(data: seq<int>, k: nat, c: nat, from: nat, to: nat)
    requires from > 0 && c < to && InRange(data, P(from)) && from * |data| + c == to * k
    ensures Convert(data, from, to, true) == Some(Digits(Value(data, P(from)) * P(c), k, P(to)))
  {
    FillUnique(|data|, k, c, from, to);
  }

  lemma LastZero(v: int, acc: int, bits: nat, to: nat)
    requires Holds(acc, v) && bits < to <= 32
    ensures LowBits(Shl(acc, to - bits), to) == 0 <==> v % P(bits) == 0
  {
    LastRead(acc, v, bits, to);
    if v % P(bits) * P(to - bits) == 0 { MulCancel(v % P(bits), 0, P(to - bits)); }
  }

  /** With bits left over, padding adds one group. */
  lemma RestFills(v: int, acc: int, bits: nat, ret: seq<int>, to: nat)
    requires Holds(acc, v) && 0 < bits < to <= 32 && ret == Digits(v / P(bits), |ret|, P(to))
    ensures Digits(v * P(to - bits), |ret| + 1, P(to)) == ret + [LowBits(Shl(acc, to - bits), to)]
  {
    LastRead(acc, v, bits, to);
    LastDigit(v, bits, to);
    DigitsAppend(v * P(to - bits), |ret|, P(to));
  }

  lemma FinishStrict(data: seq<int>, acc: int, bits: nat, ret: seq<int>, from: nat, to: nat)
    requires from > 0 && bits < to <= 32 && InRange(data, P(from))
    requires Progress(Value(data, P(from)), from * |data|, acc, bits, ret, to)
    ensures Convert(data, from, to, false) ==
              if bits >= from || LowBits(Shl(acc, to - bits), to) != 0 then None else Some(ret)
  {
    StrictValue(data, |ret|, bits, from, to);
    LastZero(Value(data, P(from)), acc, bits, to);
  }

  lemma UnitShift(v: int)
    ensures v * P(0) == v && v / P(0) == v
  {
    assert P(0) == 1;
  }

  lemma FinishWhole(data: seq<int>, acc: int, ret: seq<int>, from: nat, to: nat)
    requires from > 0 && 0 < to <= 32 && InRange(data, P(from))
    requires Progress(Value(data, P(from)), from * |data|, acc, 0, ret, to)
    ensures Convert(data, from, to, true) == Some(ret)
  {
    PaddedValue(data, |ret|, 0, from, to);
    UnitShift(Value(data, P(from)));
  }

  lemma FinishRest(data: seq<int>, acc: int, bits: nat, ret: seq<int>, from: nat, to: nat)
    requires from > 0 && 0 < bits < to <= 32 && InRange(data, P(from))
    requires Progress(Value(data, P(from)), from * |data|, acc, bits, ret, to)
    ensures Convert(data, from, to, true) == Some(ret + [LowBits(Shl(acc, to - bits), to)])
  {
    var v, c := Value(data, P(from)), to - bits;
    RestCount(from * |data|, |ret|, bits, to);
    PaddedValue(data, |ret| + 1, c, from, to);
    RestFills(v, acc, bits, ret, to);
    assert Convert(data, from, to, true) == Some(Digits(v * P(c), |ret| + 1, P(to)));
  }

  lemma RestCount(total: int, k: int, bits: int, to: int)
    requires total == to * k + bits
    ensures total + (to - bits) == to * (k + 1)
  {
    Distribute(to, k);
  }

  lemma LastDigit(v: int, bits: nat, to: nat)
    requires bits <= to
    ensures v * P(to - bits) / P(to) == v / P(bits)
  {
    var c := to - bits;
    PAdd(c, bits);
    DivDiv(v * P(c), P(c), P(bits));
    DivModUnique(v * P(c), P(c), v, 0);
  }

  /** Shift counts are taken modulo 32. */
  function Count(k: nat): (c: nat)
    ensures c < 32 && (k < 32 ==> c == k)
  {
    k % 32
  }

  function Words32(data: seq<int>): (w: seq<int32>)
    ensures |w| == |data|
  {
    seq(|data|, i requires 0 <= i < |data| => Wrap32(data[i]))
  }

  /** Numbers are reduced to 32 bits, but their sign is looked at before. */
  ghost function Regroup(data: seq<int>, from: nat, to: nat, pad: bool): Option<seq<int>>
    requires from > 0 && to > 0
  {
    if exists i :: 0 <= i < |data| && data[i] < 0 then None else Convert(Words32(data), from, to, pad)
  }

  lemma SmallWords(data: seq<int>)
    requires forall i :: 0 <= i < |data| ==> 0 <= data[i] < 0x8000_0000
    ensures Words32(data) == data
  {
    forall i | 0 <= i < |data|
      ensures Words32(data)[i] == data[i]
    {
      DivModUnique(data[i] + 0x8000_0000, WORD, 0, data[i] + 0x8000_0000);
    }
  }

  /** The words before position i are in range, and the loop is where it should be after them. */
  ghost predicate Reached(data: seq<int>, i: nat, acc: int, bits: nat, ret: seq<int>, from: nat, to: nat)
    requires to > 0 && i <= |data|
  {
    var w := Words32(data)[..i];
    && (forall k :: 0 <= k < i ==> data[k] >= 0)
    && InRange(w, P(from))
    && Progress(Value(w, P(from)), from * i, acc, bits, ret, to)
  }

  lemma RefusedValue(data: seq<int>, i: nat, from: nat, to: nat, pad: bool)
    requires from > 0 && to > 0 && i < |data| && (data[i] < 0 || Shr(Wrap32(data[i]), from) != 0)
    ensures Regroup(data, from, to, pad) == None
  {
    OutOfRange(Wrap32(data[i]), from);
    if data[i] >= 0 { assert !(0 <= Words32(data)[i] < P(from)); }
  }

  lemma AcceptedValue(data: seq<int>, i: nat, acc: int, bits: nat, ret: seq<int>, from: nat, to: nat)
    requires to > 0 && i < |data| && Reached(data, i, acc, bits, ret, from, to)
    requires data[i] >= 0 && Shr(Wrap32(data[i]), from) == 0
    ensures Reached(data, i + 1, Shl(acc, from) + Wrap32(data[i]), bits + from, ret, from, to)
  {
    var w, value := Words32(data), Wrap32(data[i]);
    NonNegativeWord(data[i], from);
    RangeNext(w, i, P(from));
    ValueNext(w, i, P(from));
    Distribute(from, i);
    TakeGroup(Value(w[..i], P(from)), from * i, acc, bits, ret, from, to, value);
  }

  lemma ValueNext(w: seq<int>, i: nat, base: int)
    requires i < |w|
    ensures Value(w[..i + 1], base) == Value(w[..i], base) * base + w[i]
  {
    assert w[..i + 1][..i] == w[..i];
  }

  lemma RangeNext(w: seq<int>, i: nat, base: int)
    requires i < |w| && InRange(w[..i], base) && 0 <= w[i] < base
    ensures InRange(w[..i + 1], base)
  {
    assert forall k :: 0 <= k < i ==> w[..i + 1][k] == w[..i][k];
  }

  lemma NonNegativeWord(x: int, from: nat)
    requires Shr(Wrap32(x), from) == 0
    ensures 0 <= Wrap32(x) < P(from)
  {
    DivModUnique(Wrap32(x), P(from), 0, Wrap32(x) % P(from));
  }

  lemma GivenGroup(data: seq<int>, i: nat, acc: int, bits: nat, ret: seq<int>, from: nat, to: nat)
    requires to > 0 && i <= |data| && bits + to <= 32 && Reached(data, i, acc, bits + to, ret, from, to)
    ensures Reached(data, i, acc, bits, ret + [LowBits(Shr(acc, bits), to)], from, to)
  {
    GiveGroup(Value(Words32(data)[..i], P(from)), from * i, acc, bits, ret, to);
  }

  /** What convertBits returns after the loop. */
  function Rest(acc: int, bits: nat, ret: seq<int>, from: nat, to: nat, pad: bool): Option<seq<int>>
    requires bits <= to
  {
    var last := LowBits(Shl(acc, Count(to - bits)), Count(to));
    if pad then Some(if bits > 0 then ret + [last] else ret)
    else if bits >= from || last != 0 then None else Some(ret)
  }

  lemma Finished(data: seq<int>, acc: int, bits: nat, ret: seq<int>, from: nat, to: nat, pad: bool)
    requires from > 0 && bits < to < 32 && Reached(data, |data|, acc, bits, ret, from, to)
    ensures Regroup(data, from, to, pad) == Rest(acc, bits, ret, from, to, pad)
  {
    assert Words32(data)[..|data|] == Words32(data);
    if pad {
      if bits == 0 {
        FinishWhole(Words32(data), acc, ret, from, to);
      } else {
        FinishRest(Words32(data), acc, bits, ret, from, to);
      }
    } else {
      FinishStrict(Words32(data), acc, bits, ret, from, to);
    }
  }

  /** The inner loop of convertBits. */
  method GiveGroups(acc: int, bits0: nat, ret0: seq<int>, from: nat, to: nat, ghost data: seq<int>, ghost n: nat)
    returns (bits: nat, ret: seq<int>)
    requires to > 0 && bits0 < from + to && n <= |data|
    ensures bits < to
    ensures from + to <= 32 && Reached(data, n, acc, bits0, ret0, from, to) ==> Reached(data, n, acc, bits, ret, from, to)
  {
    bits, ret := bits0, ret0;
    ghost var reached := from + to <= 32 && Reached(data, n, acc, bits0, ret0, from, to);
    while bits >= to
      invariant bits < from + to
      invariant reached ==> Reached(data, n, acc, bits, ret, from, to)
    {
      bits := bits - to;
      if reached { GivenGroup(data, n, acc, bits, ret, from, to); }
      ret := ret + [LowBits(Shr(acc, Count(bits)), Count(to))];
    }
  }

  /** The end of convertBits. */
  method GiveRest(acc: int, bits: nat, ret0: seq<int>, from: nat, to: nat, pad: bool) returns (res: Option<seq<int>>)
    requires bits <= to
    ensures res == Rest(acc, bits, ret0, from, to, pad)
  {
    var ret := ret0;
    if pad {
      if bits > 0 {
        ret := ret + [LowBits(Shl(acc, Count(to - bits)), Count(to))];
      }
    } else if bits >= from || LowBits(Shl(acc, Count(to - bits)), Count(to)) != 0 {
      return None;
    }
    return Some(ret);
  }

  lemma NoBits(x: int)
    ensures LowBits(x, 0) == 0
  {
  }

  /** The check at the head of the loop. */
  predicate Refused(value: int, from: nat)
  {
    value < 0 || Shr(Wrap32(value), Count(from)) != 0
  }

  /** Groups of no bits are given for ever, so that with to == 0 convertBits returns only if it accepts no
      value. */
  predicate Ends(data: seq<int>, from: nat, to: nat)
  {
    to > 0 || data == [] || Refused(data[0], from)
  }

  /** The body of the loop of convertBits; false stands for the early return. */
  method TakeValue(data: seq<int>, i: nat, acc0: int, bits0: nat, ret0: seq<int>, from: nat, to: nat)
    returns (ok: bool, acc: int, bits: nat, ret: seq<int>)
    requires i < |data| && (if to > 0 then bits0 < to else Refused(data[i], from))
    ensures ok <==> !Refused(data[i], from)
    ensures to > 0 ==> bits < to
    ensures !ok && 0 < from && 0 < to && from + to <= 32 ==> forall pad :: Regroup(data, from, to, pad) == None
    ensures ok && from + to <= 32 && Reached(data, i, acc0, bits0, ret0, from, to) ==>
              Reached(data, i + 1, acc, bits, ret, from, to)
  {
    var value := data[i];
    if value < 0 || Shr(Wrap32(value), Count(from)) != 0 {
      forall pad | 0 < from && 0 < to && from + to <= 32
        ensures Regroup(data, from, to, pad) == None
      {
        RefusedValue(data, i, from, to, pad);
      }
      return false, acc0, bits0, ret0;
    }
    if from + to <= 32 && Reached(data, i, acc0, bits0, ret0, from, to) {
      AcceptedValue(data, i, acc0, bits0, ret0, from, to);
    }
    acc := Shl(acc0, Count(from)) + Wrap32(value);
    bits, ret := GiveGroups(acc, bits0 + from, ret0, from, to, data, i + 1);
    ok := true;
  }

  /** convertBits, for any numbers and group sizes with which it returns. The disjunction with value is an
      addition: once the check has passed, value has only bits where the shift left zeros. */
  method ConvertBits(data: seq<int>, from: nat, to: nat, pad: bool) returns (res: Option<seq<int>>)
    requires Ends(data, from, to)
    ensures 0 < from && 0 < to && from + to <= 32 ==> res == Regroup(data, from, to, pad)
    ensures to == 0 ==> res == if data == [] && (pad || from > 0) then Some([]) else None
  {
    var acc: int, bits: nat, ret := 0, 0, [];
    for i := 0 to |data|
      invariant if to > 0 then bits < to else i == bits == 0 && ret == []
      invariant 0 < from && 0 < to && from + to <= 32 ==> Reached(data, i, acc, bits, ret, from, to)
    {
      var ok;
      ok, acc, bits, ret := TakeValue(data, i, acc, bits, ret, from, to);
      if !ok { return None; }
    }
    if 0 < from && 0 < to && from + to <= 32 { Finished(data, acc, bits, ret, from, to, pad); }
    if to == 0 { NoBits(Shl(acc, 0)); }
    res := GiveRest(acc, bits, ret, from, to, pad);
  }

  lemma OutOfRange(value: int, from: nat)
    ensures value < 0 || Shr(value, from) != 0 <==> !(0 <= value < P(from))
  {
    if 0 <= value < P(from) { DivModUnique(value, P(from), 0, value); }
  }
}
