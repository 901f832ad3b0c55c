/** The block cipher of class AES256CBC as functions on 16 octets, and the proof that each direction
    undoes the other for every expanded key. The state is laid out row by row, as the code lays it
    out: entry r * 4 + c is row r of column c. */
module AesBlock {
  import opened AesTables
  import opened AesField

  type Block = s: seq<octet> | |s| == 16 witness [0, 0, 0, 0, 0, 0, 0, 0, 0, 0, 0, 0, 0, 0, 0, 0]

  const ZERO_BLOCK: Block := [0, 0, 0, 0, 0, 0, 0, 0, 0, 0, 0, 0, 0, 0, 0, 0]

  // ---------- The steps of a round ----------

  /** Replaces every entry. */
  function Each<T>(h: T -> T, s: seq<T>): (t: seq<T>)
    requires |s| == 16
    ensures |t| == 16
  {
    seq(16, i requires 0 <= i < 16 => h(s[i]))
  }

  function SubBytes(s: Block): Block
  {
    Each(SBox, s)
  }

  function InvSubBytes(s: Block): Block
  {
    Each(InvSBox, s)
  }

  /** In row r == i / 4, the position r columns to the right of position i, wrapping around. */
  function LeftBy(i: int): (j: int)
    requires 0 <= i < 16
    ensures 0 <= j < 16
  {
    if i % 4 + i / 4 < 4 then i + i / 4 else i + i / 4 - 4
  }

  function RightBy(i: int): (j: int)
    requires 0 <= i < 16
    ensures 0 <= j < 16
  {
    if i % 4 >= i / 4 then i - i / 4 else i - i / 4 + 4
  }

  /** Row r moves left by r columns. */
  function ShiftRows(s: Block): Block
  {
    seq(16, i requires 0 <= i < 16 => s[LeftBy(i)])
  }

  function InvShiftRows(s: Block): Block
  {
    seq(16, i requires 0 <= i < 16 => s[RightBy(i)])
  }

  /** The entry of the same column k rows below entry i, wrapping around. */
  function Below(i: int, k: int): (j: int)
    requires 0 <= i < 16 && 0 <= k < 4
    ensures 0 <= j < 16
  {
    if i + 4 * k < 16 then i + 4 * k else i + 4 * k - 16
  }

  /** Combines every entry with the rest of its column. */
  function OverColumns<T>(h: (T, T, T, T) -> T, s: seq<T>): (t: seq<T>)
    requires |s| == 16
    ensures |t| == 16
  {
    seq(16, i requires 0 <= i < 16 => h(s[i], s[Below(i, 1)], s[Below(i, 2)], s[Below(i, 3)]))
  }

  /** One entry of a mixed column, from the entry itself and the three below it. */
  function MixByte(a: octet, b: octet, c: octet, d: octet): octet
  {
    Sum4(XorGroup(), Mul(a, 2), Mul(b, 3), c, d)
  }

  function InvMixByte(a: octet, b: octet, c: octet, d: octet): octet
  {
    Sum4(XorGroup(), Mul(a, 14), Mul(b, 11), Mul(c, 13), Mul(d, 9))
  }

  function MixColumns(s: Block): Block
  {
    OverColumns(MixByte, s)
  }

  function InvMixColumns(s: Block): Block
  {
    OverColumns(InvMixByte, s)
  }

  function XorOctets(a: octet, b: octet): octet
  {
    a ^ b
  }

  function AddRoundKey(s: Block, k: Block): Block
  {
    seq(16, i requires 0 <= i < 16 => XorOctets(s[i], k[i]))
  }

  // ---------- Their inverses ----------

  lemma EachInverse<T(!new)>(h: T -> T, h': T -> T, s: seq<T>)
    requires |s| == 16 && forall x :: h'(h(x)) == x
    ensures Each(h', Each(h, s)) == s
  {
  }

  lemma SubBytesInverse(s: Block)
    ensures InvSubBytes(SubBytes(s)) == s && SubBytes(InvSubBytes(s)) == s
  {
    SBoxInverseAll();
    EachInverse(SBox, InvSBox, s);
    EachInverse(InvSBox, SBox, s);
  }

  lemma ShiftRowsInverse(s: Block)
    ensures InvShiftRows(ShiftRows(s)) == s && ShiftRows(InvShiftRows(s)) == s
  {
    forall i | 0 <= i < 16
      ensures InvShiftRows(ShiftRows(s))[i] == s[i] && ShiftRows(InvShiftRows(s))[i] == s[i]
    {
      ShiftsCancel(i);
    }
  }

  lemma SameRow(i: int, d: int)
    requires 0 <= i % 4 + d < 4
    ensures (i + d) / 4 == i / 4 && (i + d) % 4 == i % 4 + d
  {
  }

  lemma ShiftsCancel(i: int)
    requires 0 <= i < 16
    ensures LeftBy(RightBy(i)) == i && RightBy(LeftBy(i)) == i
  {
    var r, c := i / 4, i % 4;
    SameRow(i, if c + r < 4 then r else r - 4);
    SameRow(i, if c >= r then -r else 4 - r);
  }

  /** The same positions with the remainders that the code computes. */
  lemma ShiftsByRemainder(i: int)
    requires 0 <= i < 16
    ensures LeftBy(i) == i / 4 * 4 + (i % 4 + i / 4) % 4
    ensures RightBy(i) == i / 4 * 4 + (i % 4 + 4 - i / 4) % 4
  {
    Wrapped(i % 4 + i / 4);
    Wrapped(i % 4 + 4 - i / 4);
  }

  lemma Wrapped(n: int)
    requires 0 <= n < 8
    ensures n % 4 == if n < 4 then n else n - 4
  {
  }

  lemma AroundRow(c: int, r: int)
    requires 0 <= c < 4 && 0 <= r < 4
    ensures ((c + r) % 4 + 4 - r) % 4 == c && ((c + 4 - r) % 4 + r) % 4 == c
  {
  }

  lemma RowPosition(r: int, c: int)
    requires 0 <= r < 4 && 0 <= c < 4
    ensures (r * 4 + c) / 4 == r && (r * 4 + c) % 4 == c
  {
  }

  lemma XorTwice(a: octet, b: octet)
    ensures XorOctets(XorOctets(a, b), b) == a
  {
  }

  predicate SingleBit(m: octet)
  {
    m == 0x01 || m == 0x02 || m == 0x04 || m == 0x08 || m == 0x10 || m == 0x20 || m == 0x40 || m == 0x80
  }

  /** A bit is set in the sum when it is set in exactly one of the two octets. */
  lemma XorOctetsBit(a: octet, b: octet, m: octet)
    requires SingleBit(m)
    ensures XorOctets(a, b) & m != 0 <==> (a & m != 0) != (b & m != 0)
  {
  }

  lemma XorZero(b: octet)
    ensures XorOctets(0, b) == b
  {
  }

  lemma XorCancel(a: octet, b: octet, c: octet)
    requires XorOctets(a, b) == XorOctets(a, c)
    ensures b == c
  {
  }

  /** On the zero block the round key itself is left, and different round keys give different blocks. */
  lemma AddRoundKeyKey(s: Block, k: Block, k': Block)
    ensures AddRoundKey(ZERO_BLOCK, k) == k
    ensures AddRoundKey(s, k) == AddRoundKey(s, k') <==> k == k'
  {
    forall i | 0 <= i < 16
      ensures AddRoundKey(ZERO_BLOCK, k)[i] == k[i]
    {
      assert ZERO_BLOCK[i] == 0;
      XorZero(k[i]);
    }
    if AddRoundKey(s, k) == AddRoundKey(s, k') {
      forall i | 0 <= i < 16
        ensures k[i] == k'[i]
      {
        assert AddRoundKey(s, k)[i] == AddRoundKey(s, k')[i];
        XorCancel(s[i], k[i], k'[i]);
      }
    }
  }

  lemma AddRoundKeyInverse(s: Block, k: Block)
    ensures AddRoundKey(AddRoundKey(s, k), k) == s
  {
    forall i | 0 <= i < 16
      ensures AddRoundKey(AddRoundKey(s, k), k)[i] == s[i]
    {
      XorTwice(s[i], k[i]);
    }
  }

  lemma MixByteRow(a: octet, b: octet, c: octet, d: octet)
    ensures MixByte(a, b, c, d) == RowOf(XorGroup(), XTime, MIX, a, b, c, d)
  {
    XorIsBinary();
    ActOne(XorGroup(), XTime, c);
    ActOne(XorGroup(), XTime, d);
  }

  lemma InvMixByteRow(a: octet, b: octet, c: octet, d: octet)
    ensures InvMixByte(a, b, c, d) == RowOf(XorGroup(), XTime, INV_MIX, a, b, c, d)
  {
  }

  /** On one column, the two mix-columns steps undo each other. */
  lemma MixByteInverse(a: octet, b: octet, c: octet, d: octet)
    ensures InvMixByte(MixByte(a, b, c, d), MixByte(b, c, d, a), MixByte(c, d, a, b), MixByte(d, a, b, c)) == a
    ensures MixByte(InvMixByte(a, b, c, d), InvMixByte(b, c, d, a), InvMixByte(c, d, a, b), InvMixByte(d, a, b, c)) == a
  {
    XorIsBinary();
    MixByteRow(a, b, c, d);
    MixByteRow(b, c, d, a);
    MixByteRow(c, d, a, b);
    MixByteRow(d, a, b, c);
    InvMixByteRow(a, b, c, d);
    InvMixByteRow(b, c, d, a);
    InvMixByteRow(c, d, a, b);
    InvMixByteRow(d, a, b, c);
    InvMixByteRow(MixByte(a, b, c, d), MixByte(b, c, d, a), MixByte(c, d, a, b), MixByte(d, a, b, c));
    MixByteRow(InvMixByte(a, b, c, d), InvMixByte(b, c, d, a), InvMixByte(c, d, a, b), InvMixByte(d, a, b, c));
    MatricesInverse();
    ApplyTwice(XorGroup(), XTime, INV_MIX, MIX, a, b, c, d);
    ApplyTwice(XorGroup(), XTime, MIX, INV_MIX, a, b, c, d);
    IdentityRow(XorGroup(), XTime, a, b, c, d);
  }

  lemma BelowCycle(i: int)
    requires 0 <= i < 16
    ensures forall j, k :: 0 <= j < 4 && 0 <= k < 4 ==>
              Below(Below(i, j), k) == if j + k == 0 || j + k == 4 then i else Below(i, (j + k) % 4)
  {
  }

  /** A column map is undone entry by entry. */
  ghost predicate ColumnUndone<T>(h: (T, T, T, T) -> T, h': (T, T, T, T) -> T, a: T, b: T, c: T, d: T)
  {
    h'(h(a, b, c, d), h(b, c, d, a), h(c, d, a, b), h(d, a, b, c)) == a
  }

  lemma OverColumnsInverse<T(!new)>(h: (T, T, T, T) -> T, h': (T, T, T, T) -> T, s: seq<T>)
    requires |s| == 16 && forall a, b, c, d :: ColumnUndone(h, h', a, b, c, d)
    ensures OverColumns(h', OverColumns(h, s)) == s
  {
    forall i | 0 <= i < 16
      ensures OverColumns(h', OverColumns(h, s))[i] == s[i]
    {
      var t := OverColumns(h, s);
      var a, b, c, d := s[i], s[Below(i, 1)], s[Below(i, 2)], s[Below(i, 3)];
      BelowCycle(i);
      assert t[i] == h(a, b, c, d) && t[Below(i, 1)] == h(b, c, d, a);
      assert t[Below(i, 2)] == h(c, d, a, b) && t[Below(i, 3)] == h(d, a, b, c);
      assert ColumnUndone(h, h', a, b, c, d);
    }
  }

  lemma MixColumnsInverse(s: Block)
    ensures InvMixColumns(MixColumns(s)) == s && MixColumns(InvMixColumns(s)) == s
  {
    forall a, b, c, d
      ensures ColumnUndone(MixByte, InvMixByte, a, b, c, d) && ColumnUndone(InvMixByte, MixByte, a, b, c, d)
    {
      MixByteInverse(a, b, c, d);
    }
    OverColumnsInverse(MixByte, InvMixByte, s);
    OverColumnsInverse(InvMixByte, MixByte, s);
  }

  // ---------- Rounds ----------

  /** One main round. */
  function Round(s: Block, k: Block): Block
  {
    AddRoundKey(MixColumns(ShiftRows(SubBytes(s))), k)
  }

  /** One main round of decryption, which begins at a different point of the cycle. */
  function InvRound(s: Block, k: Block): Block
  {
    InvMixColumns(AddRoundKey(Unshift(s), k))
  }

  function Shift(s: Block): Block
  {
    ShiftRows(SubBytes(s))
  }

  function Unshift(s: Block): Block
  {
    InvSubBytes(InvShiftRows(s))
  }

  lemma ShiftInverse(s: Block)
    ensures Unshift(Shift(s)) == s && Shift(Unshift(s)) == s
  {
    SubBytesInverse(s);
    ShiftRowsInverse(SubBytes(s));
    ShiftRowsInverse(s);
    SubBytesInverse(InvShiftRows(s));
  }

  lemma RoundInverse(s: Block, k: Block)
    ensures InvRound(Shift(Round(s, k)), k) == Shift(s)
    ensures Round(Unshift(InvRound(s, k)), k) == Unshift(s)
  {
    ShiftInverse(Round(s, k));
    AddRoundKeyInverse(MixColumns(Shift(s)), k);
    MixColumnsInverse(Shift(s));
    ShiftInverse(InvRound(s, k));
    MixColumnsInverse(AddRoundKey(Unshift(s), k));
    AddRoundKeyInverse(Unshift(s), k);
  }

  /** The rounds with the given keys, in order. */
  function Forward<T, K>(round: (T, K) -> T, s: T, keys: seq<K>): T
  {
    if keys == [] then s
    else round(Forward(round, s, keys[..|keys| - 1]), keys[|keys| - 1])
  }

  lemma SliceOfSlice<T>(s: seq<T>, n: nat, k: nat)
    requires 1 <= k <= n <= |s|
    ensures s[1..n][..k - 1] == s[1..k]
  {
  }

  lemma ForwardNext<T, K>(round: (T, K) -> T, s: T, keys: seq<K>, n: nat)
    requires n < |keys|
    ensures Forward(round, s, keys[..n + 1]) == round(Forward(round, s, keys[..n]), keys[n])
  {
    assert keys[..n + 1][..n] == keys[..n];
  }

  /** The rounds with the given keys, last key first. */
  function Backward<T, K>(round: (T, K) -> T, s: T, keys: seq<K>): T
  {
    if keys == [] then s
    else Backward(round, round(s, keys[|keys| - 1]), keys[..|keys| - 1])
  }

  lemma BackwardNext<T, K>(round: (T, K) -> T, s: T, keys: seq<K>, n: nat)
    requires n < |keys|
    ensures Backward(round, s, keys[..n + 1]) == Backward(round, round(s, keys[n]), keys[..n])
  {
    assert keys[..n + 1][..n] == keys[..n];
  }

  /** f and b are rounds of the two directions, and shift leads from a point of one cycle to the
      corresponding point of the other. */
  ghost predicate Matching<T, K>(f: (T, K) -> T, b: (T, K) -> T, shift: T -> T, unshift: T -> T, s: T, k: K)
  {
    b(shift(f(s, k)), k) == shift(s) && f(unshift(b(s, k)), k) == unshift(s)
  }

  lemma {:induction false} BackwardForward<T(!new), K(!new)>(
      f: (T, K) -> T, b: (T, K) -> T, shift: T -> T, unshift: T -> T, s: T, keys: seq<K>)
    requires forall s, k :: Matching(f, b, shift, unshift, s, k)
    ensures Backward(b, shift(Forward(f, s, keys)), keys) == shift(s)
    decreases |keys|
  {
    if keys != [] {
      var init, last := keys[..|keys| - 1], keys[|keys| - 1];
      assert Matching(f, b, shift, unshift, Forward(f, s, init), last);
      BackwardForward(f, b, shift, unshift, s, init);
    }
  }

  lemma {:induction false} ForwardBackward<T(!new), K(!new)>(
      f: (T, K) -> T, b: (T, K) -> T, shift: T -> T, unshift: T -> T, s: T, keys: seq<K>)
    requires forall s, k :: Matching(f, b, shift, unshift, s, k)
    ensures Forward(f, unshift(Backward(b, s, keys)), keys) == unshift(s)
    decreases |keys|
  {
    if keys != [] {
      var init, last := keys[..|keys| - 1], keys[|keys| - 1];
      ForwardBackward(f, b, shift, unshift, b(s, last), init);
      assert Matching(f, b, shift, unshift, s, last);
    }
  }

  // ---------- The cipher ----------

  const ROUNDS := 14

  /** One key for the start and one for each round. */
  type RoundKeys = k: seq<Block> | |k| == ROUNDS + 1 witness seq(ROUNDS + 1, i => ZERO_BLOCK)

  function EncryptBlock(s: Block, keys: RoundKeys): Block
  {
    AddRoundKey(Shift(Forward(Round, AddRoundKey(s, keys[0]), keys[1..ROUNDS])), keys[ROUNDS])
  }

  function DecryptBlock(s: Block, keys: RoundKeys): Block
  {
    AddRoundKey(Unshift(Backward(InvRound, AddRoundKey(s, keys[ROUNDS]), keys[1..ROUNDS])), keys[0])
  }

  /** The block cipher is a permutation, with decryptBlock as its inverse. */
  lemma BlockInverse(s: Block, keys: RoundKeys)
    ensures DecryptBlock(EncryptBlock(s, keys), keys) == s
    ensures EncryptBlock(DecryptBlock(s, keys), keys) == s
  {
    RoundsMatch();
    var first := AddRoundKey(s, keys[0]);
    var middle := keys[1..ROUNDS];
    AddRoundKeyInverse(Shift(Forward(Round, first, middle)), keys[ROUNDS]);
    BackwardForward(Round, InvRound, Shift, Unshift, first, middle);
    ShiftInverse(first);
    AddRoundKeyInverse(s, keys[0]);
    var last := AddRoundKey(s, keys[ROUNDS]);
    AddRoundKeyInverse(Unshift(Backward(InvRound, last, middle)), keys[0]);
    ForwardBackward(Round, InvRound, Shift, Unshift, last, middle);
    ShiftInverse(last);
    AddRoundKeyInverse(s, keys[ROUNDS]);
  }

  // ---------- Every round key matters ----------

  /** A round loses neither the state nor the key. */
  ghost predicate StateKept<T, K>(round: (T, K) -> T, s: T, s': T, k: K)
  {
    round(s, k) == round(s', k) ==> s == s'
  }

  ghost predicate KeyKept<T, K>(round: (T, K) -> T, s: T, k: K, k': K)
  {
    round(s, k) == round(s, k') ==> k == k'
  }

  ghost predicate LosesNothing<T(!new), K(!new)>(round: (T, K) -> T)
  {
    (forall s, s', k :: StateKept(round, s, s', k)) && (forall s, k, k' :: KeyKept(round, s, k, k'))
  }

  lemma {:induction false} ForwardState<T(!new), K(!new)>(round: (T, K) -> T, s: T, s': T, keys: seq<K>)
    requires LosesNothing(round) && Forward(round, s, keys) == Forward(round, s', keys)
    ensures s == s'
    decreases |keys|
  {
    if keys != [] {
      var init, last := keys[..|keys| - 1], keys[|keys| - 1];
      assert StateKept(round, Forward(round, s, init), Forward(round, s', init), last);
      ForwardState(round, s, s', init);
    }
  }

  lemma {:induction false} ForwardKey<T(!new), K(!new)>(round: (T, K) -> T, s: T, keys: seq<K>, r: nat, k: K, k': K)
    requires LosesNothing(round) && r < |keys| && Forward(round, s, keys[r := k]) == Forward(round, s, keys[r := k'])
    ensures k == k'
    decreases |keys|
  {
    var init, last := keys[..|keys| - 1], keys[|keys| - 1];
    var u, v := keys[r := k], keys[r := k'];
    if r == |keys| - 1 {
      assert u[..|keys| - 1] == init && v[..|keys| - 1] == init;
      assert KeyKept(round, Forward(round, s, init), k, k');
    } else {
      assert u[..|keys| - 1] == init[r := k] && v[..|keys| - 1] == init[r := k'];
      assert StateKept(round, Forward(round, s, init[r := k]), Forward(round, s, init[r := k']), last);
      ForwardKey(round, s, init, r, k, k');
    }
  }

  lemma RoundLosesNothing()
    ensures LosesNothing(Round)
  {
    forall s, s', k
      ensures StateKept(Round, s, s', k)
    {
      RoundInverse(s, k);
      RoundInverse(s', k);
      ShiftInverse(s);
      ShiftInverse(s');
    }
    forall s, k, k'
      ensures KeyKept(Round, s, k, k')
    {
      AddRoundKeyKey(MixColumns(ShiftRows(SubBytes(s))), k, k');
    }
  }

  /** The last step of encryptBlock, from the state after the main rounds. */
  lemma LastRoundInjective(s: Block, s': Block, k: Block)
    requires AddRoundKey(Shift(s), k) == AddRoundKey(Shift(s'), k)
    ensures s == s'
  {
    AddRoundKeyInverse(Shift(s), k);
    AddRoundKeyInverse(Shift(s'), k);
    ShiftInverse(s);
    ShiftInverse(s');
  }

  /** Two expanded keys that differ in one round key encrypt every block differently. */
  lemma EveryKeyMatters(s: Block, keys: RoundKeys, r: nat, k: Block, k': Block)
    requires r <= ROUNDS
    ensures EncryptBlock(s, keys[r := k]) == EncryptBlock(s, keys[r := k']) <==> k == k'
  {
    if EncryptBlock(s, keys[r := k]) == EncryptBlock(s, keys[r := k']) {
      var u: RoundKeys, v: RoundKeys := keys[r := k], keys[r := k'];
      RoundLosesNothing();
      if r == 0 {
        assert u[1..ROUNDS] == v[1..ROUNDS];
        LastRoundInjective(Forward(Round, AddRoundKey(s, k), u[1..ROUNDS]), Forward(Round, AddRoundKey(s, k'), u[1..ROUNDS]),
                           keys[ROUNDS]);
        ForwardState(Round, AddRoundKey(s, k), AddRoundKey(s, k'), u[1..ROUNDS]);
        AddRoundKeyKey(s, k, k');
      } else if r == ROUNDS {
        assert u[1..ROUNDS] == v[1..ROUNDS];
        AddRoundKeyKey(Shift(Forward(Round, AddRoundKey(s, keys[0]), u[1..ROUNDS])), k, k');
      } else {
        var middle, first := keys[1..ROUNDS], AddRoundKey(s, keys[0]);
        assert u[1..ROUNDS] == middle[r - 1 := k] && v[1..ROUNDS] == middle[r - 1 := k'];
        LastRoundInjective(Forward(Round, first, u[1..ROUNDS]), Forward(Round, first, v[1..ROUNDS]), keys[ROUNDS]);
        ForwardKey(Round, first, middle, r - 1, k, k');
      }
    }
  }

  lemma RoundsMatch()
    ensures forall s, k :: Matching(Round, InvRound, Shift, Unshift, s, k)
  {
    forall s, k
      ensures Matching(Round, InvRound, Shift, Unshift, s, k)
    {
      RoundInverse(s, k);
    }
  }
}
