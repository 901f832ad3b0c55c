/** The methods of class AES256CBC that work on 16-octet arrays in place, each equal to the function
    of AesBlock that it computes. */
module AesMethods {
  import opened AesTables
  import opened AesField
  import opened AesBlock
  import opened AesKeys

  /** subBytes. */
  method Substitute(table: octet -> octet, state: array<octet>)
    requires state.Length == 16
    modifies state
    ensures state[..] == Each(table, old(state[..]))
  {
    for i := 0 to 16
      invariant forall j :: 0 <= j < i ==> state[j] == table(old(state[j]))
      invariant forall j :: i <= j < 16 ==> state[j] == old(state[j])
    {
      state[i] := table(state[i]);
    }
  }

  /** The loop of invSubBytes, for any function that the table holds. */
  method SubstituteBy(table: array<octet>, state: array<octet>, ghost f: octet -> octet)
    requires table.Length == 256 && forall b: octet :: table[b as int] == f(b)
    requires state.Length == 16 && state != table
    modifies state
    ensures state[..] == Each(f, old(state[..]))
  {
    for i := 0 to 16
      invariant forall j :: 0 <= j < i ==> state[j] == f(old(state[j]))
      invariant forall j :: i <= j < 16 ==> state[j] == old(state[j])
    {
      OctetBack(state[i]);
      state[i] := table[state[i] as int];
    }
  }

  /** invSubBytes, with the table that the constructor built. */
  method InvSubstitute(invSbox: array<octet>, state: array<octet>)
    requires InverseTable(invSbox) && state.Length == 16 && state != invSbox
    modifies state
    ensures state[..] == InvSubBytes(old(state[..]))
  {
    SubstituteBy(invSbox, state, InvSBox);
  }

  /** stateToMatrix: column c, row r. */
  method StateToMatrix(state: array<octet>) returns (m: array2<octet>)
    requires state.Length == 16
    ensures fresh(m) && m.Length0 == 4 && m.Length1 == 4
    ensures forall c, r :: 0 <= c < 4 && 0 <= r < 4 ==> m[c, r] == state[r * 4 + c]
  {
    m := new octet[4, 4];
    for c := 0 to 4
      invariant forall c', r :: 0 <= c' < c && 0 <= r < 4 ==> m[c', r] == state[r * 4 + c']
    {
      for r := 0 to 4
        invariant forall c', r' :: 0 <= c' < c && 0 <= r' < 4 ==> m[c', r'] == state[r' * 4 + c']
        invariant forall r' :: 0 <= r' < r ==> m[c, r'] == state[r' * 4 + c]
      {
        m[c, r] := state[r * 4 + c];
      }
    }
  }

  /** matrixToState. */
  method MatrixToState(m: array2<octet>) returns (state: array<octet>)
    requires m.Length0 == 4 && m.Length1 == 4
    ensures fresh(state) && state.Length == 16
    ensures forall i :: 0 <= i < 16 ==> state[i] == m[i % 4, i / 4]
  {
    state := new octet[16];
    for c := 0 to 4
      invariant forall i :: 0 <= i < 16 && i % 4 < c ==> state[i] == m[i % 4, i / 4]
    {
      for r := 0 to 4
        invariant forall i :: 0 <= i < 16 && i % 4 < c ==> state[i] == m[i % 4, i / 4]
        invariant forall i :: 0 <= i < 16 && i % 4 == c && i / 4 < r ==> state[i] == m[i % 4, i / 4]
      {
        RowPosition(r, c);
        state[r * 4 + c] := m[c, r];
      }
    }
  }

  /** shiftRows. */
  method ShiftRowsOf(state: array<octet>) returns (result: array<octet>)
    requires state.Length == 16
    ensures fresh(result) && result.Length == 16 && result[..] == ShiftRows(state[..])
  {
    var s := StateToMatrix(state);
    var ns := new octet[4, 4];
    for r := 0 to 4
      invariant forall c, r' :: 0 <= c < 4 && 0 <= r' < r ==> ns[c, r'] == s[(c + r') % 4, r']
      modifies ns
    {
      for c := 0 to 4
        invariant forall c', r' :: 0 <= c' < 4 && 0 <= r' < r ==> ns[c', r'] == s[(c' + r') % 4, r']
        invariant forall c' :: 0 <= c' < c ==> ns[c', r] == s[(c' + r) % 4, r]
        modifies ns
      {
        ns[c, r] := s[(c + r) % 4, r];
      }
    }
    result := MatrixToState(ns);
    forall i | 0 <= i < 16
      ensures result[i] == state[LeftBy(i)]
    {
      ShiftsByRemainder(i);
      assert result[i] == ns[i % 4, i / 4] == s[(i % 4 + i / 4) % 4, i / 4];
    }
  }

  /** The inner loop of invShiftRows. */
  method UnshiftRow(s: array2<octet>, ns: array2<octet>, r: nat)
    requires s.Length0 == 4 && s.Length1 == 4 && ns.Length0 == 4 && ns.Length1 == 4 && r < 4 && s != ns
    modifies ns
    ensures forall c :: 0 <= c < 4 ==> ns[c, r] == s[(c + 4 - r) % 4, r]
    ensures forall c, r' :: 0 <= c < 4 && 0 <= r' < 4 && r' != r ==> ns[c, r'] == old(ns[c, r'])
  {
    for c := 0 to 4
      invariant forall k :: 0 <= k < c ==> ns[(k + r) % 4, r] == s[k, r]
      invariant forall k, r' :: 0 <= k < 4 && 0 <= r' < 4 && r' != r ==> ns[k, r'] == old(ns[k, r'])
    {
      ns[(c + r) % 4, r] := s[c, r];
    }
    forall c | 0 <= c < 4
      ensures ns[c, r] == s[(c + 4 - r) % 4, r]
    {
      AroundRow(c, r);
    }
  }

  /** invShiftRows. */
  method InvShiftRowsOf(state: array<octet>) returns (result: array<octet>)
    requires state.Length == 16
    ensures fresh(result) && result.Length == 16 && result[..] == InvShiftRows(state[..])
  {
    var s := StateToMatrix(state);
    var ns := new octet[4, 4];
    for r := 0 to 4
      invariant forall c, r' :: 0 <= c < 4 && 0 <= r' < r ==> ns[c, r'] == s[(c + 4 - r') % 4, r']
      modifies ns
    {
      UnshiftRow(s, ns, r);
    }
    result := MatrixToState(ns);
    forall i | 0 <= i < 16
      ensures result[i] == state[RightBy(i)]
    {
      ShiftsByRemainder(i);
      assert result[i] == ns[i % 4, i / 4] == s[(i % 4 + 4 - i / 4) % 4, i / 4];
    }
  }

  method Xor4(a: octet, b: octet, c: octet, d: octet) returns (r: octet)
    ensures r == Sum4(XorGroup(), a, b, c, d)
  {
    r := a ^ b ^ c ^ d;
  }

  /** One assignment of mixColumns. The code writes the four terms in the order of the rows; they are
      added in any order. */
  method MixedByte(a: octet, b: octet, c: octet, d: octet) returns (r: octet)
    ensures r == MixByte(a, b, c, d)
  {
    var a2 := GMul(a, 2);
    var b3 := GMul(b, 3);
    r := Xor4(a2, b3, c, d);
  }

  /** One assignment of invMixColumns. */
  method InvMixedByte(a: octet, b: octet, c: octet, d: octet) returns (r: octet)
    ensures r == InvMixByte(a, b, c, d)
  {
    var a14 := GMul(a, 14);
    var b11 := GMul(b, 11);
    var c13 := GMul(c, 13);
    var d9 := GMul(d, 9);
    r := Xor4(a14, b11, c13, d9);
  }

  /** The four assignments of mixColumns to one column. */
  method MixedBytes(a: octet, b: octet, c: octet, d: octet) returns (v0: octet, v1: octet, v2: octet, v3: octet)
    ensures v0 == MixByte(a, b, c, d)
    ensures v1 == MixByte(b, c, d, a)
    ensures v2 == MixByte(c, d, a, b)
    ensures v3 == MixByte(d, a, b, c)
  {
    v0 := MixedByte(a, b, c, d);
    v1 := MixedByte(b, c, d, a);
    v2 := MixedByte(c, d, a, b);
    v3 := MixedByte(d, a, b, c);
  }

  /** The four assignments of invMixColumns to one column. */
  method InvMixedBytes(a: octet, b: octet, c: octet, d: octet) returns (v0: octet, v1: octet, v2: octet, v3: octet)
    ensures v0 == InvMixByte(a, b, c, d)
    ensures v1 == InvMixByte(b, c, d, a)
    ensures v2 == InvMixByte(c, d, a, b)
    ensures v3 == InvMixByte(d, a, b, c)
  {
    v0 := InvMixedByte(a, b, c, d);
    v1 := InvMixedByte(b, c, d, a);
    v2 := InvMixedByte(c, d, a, b);
    v3 := InvMixedByte(d, a, b, c);
  }

  /** What a column step has done to the first n columns. */
  ghost predicate ColumnsDone(h: (octet, octet, octet, octet) -> octet, s: array2<octet>, ns: array2<octet>, n: int)
    requires s.Length0 == 4 && s.Length1 == 4 && ns.Length0 == 4 && ns.Length1 == 4
    reads s, ns
  {
    forall c :: 0 <= c < n && c < 4 ==> ColumnDone(h, s, ns, c)
  }

  ghost predicate ColumnDone(h: (octet, octet, octet, octet) -> octet, s: array2<octet>, ns: array2<octet>, c: int)
    requires s.Length0 == 4 && s.Length1 == 4 && ns.Length0 == 4 && ns.Length1 == 4 && 0 <= c < 4
    reads s, ns
  {
    && ns[c, 0] == h(s[c, 0], s[c, 1], s[c, 2], s[c, 3])
    && ns[c, 1] == h(s[c, 1], s[c, 2], s[c, 3], s[c, 0])
    && ns[c, 2] == h(s[c, 2], s[c, 3], s[c, 0], s[c, 1])
    && ns[c, 3] == h(s[c, 3], s[c, 0], s[c, 1], s[c, 2])
  }

  /** The two matrices of a column step describe OverColumns on the states. */
  lemma ColumnsToState(h: (octet, octet, octet, octet) -> octet, state: array<octet>,
                       s: array2<octet>, ns: array2<octet>, result: array<octet>)
    requires state.Length == 16 && result.Length == 16
    requires s.Length0 == 4 && s.Length1 == 4 && ns.Length0 == 4 && ns.Length1 == 4
    requires forall c, r :: 0 <= c < 4 && 0 <= r < 4 ==> s[c, r] == state[r * 4 + c]
    requires forall i :: 0 <= i < 16 ==> result[i] == ns[i % 4, i / 4]
    requires ColumnsDone(h, s, ns, 4)
    ensures result[..] == OverColumns(h, state[..])
  {
    forall i | 0 <= i < 16
      ensures result[i] == h(state[i], state[Below(i, 1)], state[Below(i, 2)], state[Below(i, 3)])
    {
      var c, r := i % 4, i / 4;
      assert ColumnDone(h, s, ns, c) && result[i] == ns[c, r];
      assert s[c, 0] == state[c] && s[c, 1] == state[4 + c] && s[c, 2] == state[8 + c] && s[c, 3] == state[12 + c];
      assert r == 0 || r == 1 || r == 2 || r == 3;
    }
  }

  method SetColumn(ghost h: (octet, octet, octet, octet) -> octet, ghost s: array2<octet>, ns: array2<octet>, c: nat,
                   v0: octet, v1: octet, v2: octet, v3: octet)
    requires s != ns && s.Length0 == 4 && s.Length1 == 4 && ns.Length0 == 4 && ns.Length1 == 4 && c < 4
    requires ColumnsDone(h, s, ns, c)
    requires v0 == h(s[c, 0], s[c, 1], s[c, 2], s[c, 3]) && v1 == h(s[c, 1], s[c, 2], s[c, 3], s[c, 0])
    requires v2 == h(s[c, 2], s[c, 3], s[c, 0], s[c, 1]) && v3 == h(s[c, 3], s[c, 0], s[c, 1], s[c, 2])
    modifies ns
    ensures ColumnsDone(h, s, ns, c + 1)
  {
    ns[c, 0], ns[c, 1], ns[c, 2], ns[c, 3] := v0, v1, v2, v3;
    forall c' | 0 <= c' < c
      ensures ColumnDone(h, s, ns, c')
    {
      assert old(ColumnDone(h, s, ns, c'));
    }
  }

  /** mixColumns. */
  method MixColumnsOf(state: array<octet>) returns (result: array<octet>)
    requires state.Length == 16
    ensures fresh(result) && result.Length == 16 && result[..] == MixColumns(state[..])
  {
    var s := StateToMatrix(state);
    var ns := new octet[4, 4];
    for c := 0 to 4
      invariant ColumnsDone(MixByte, s, ns, c)
      modifies ns
    {
      var v0, v1, v2, v3 := MixedBytes(s[c, 0], s[c, 1], s[c, 2], s[c, 3]);
      SetColumn(MixByte, s, ns, c, v0, v1, v2, v3);
    }
    result := MatrixToState(ns);
    ColumnsToState(MixByte, state, s, ns, result);
  }

  /** invMixColumns. */
  method InvMixColumnsOf(state: array<octet>) returns (result: array<octet>)
    requires state.Length == 16
    ensures fresh(result) && result.Length == 16 && result[..] == InvMixColumns(state[..])
  {
    var s := StateToMatrix(state);
    var ns := new octet[4, 4];
    for c := 0 to 4
      invariant ColumnsDone(InvMixByte, s, ns, c)
      modifies ns
    {
      var v0, v1, v2, v3 := InvMixedBytes(s[c, 0], s[c, 1], s[c, 2], s[c, 3]);
      SetColumn(InvMixByte, s, ns, c, v0, v1, v2, v3);
    }
    result := MatrixToState(ns);
    ColumnsToState(InvMixByte, state, s, ns, result);
  }

  /** addRoundKey. */
  method AddRoundKeyTo(state: array<octet>, roundKey: Block)
    requires state.Length == 16
    modifies state
    ensures state[..] == AddRoundKey(old(state[..]), roundKey)
  {
    for i := 0 to 16
      invariant forall j :: 0 <= j < i ==> state[j] == XorOctets(old(state[j]), roundKey[j])
      invariant forall j :: i <= j < 16 ==> state[j] == old(state[j])
    {
      state[i] := state[i] ^ roundKey[i];
    }
  }

  /** state.set(source). */
  method Overwrite(state: array<octet>, source: array<octet>)
    requires state.Length == 16 && source.Length == 16 && state != source
    modifies state
    ensures state[..] == old(source[..])
  {
    forall i | 0 <= i < 16 {
      state[i] := source[i];
    }
  }

  /** The octets of a word, at position i of a key. */
  method WriteWord(key: array<octet>, i: nat, word: word)
    requires key.Length == 16 && i < 4
    modifies key
    ensures forall k :: 0 <= k < 4 ==> key[i * 4 + k] == WordOctet(word, k)
    ensures forall j :: 0 <= j < i * 4 ==> key[j] == old(key[j])
  {
    key[i * 4] := ((word >> 24) & 0xff) as octet;
    key[i * 4 + 1] := ((word >> 16) & 0xff) as octet;
    key[i * 4 + 2] := ((word >> 8) & 0xff) as octet;
    key[i * 4 + 3] := (word & 0xff) as octet;
  }

  /** getRoundKey. */
  method GetRoundKey(w: array<word>, round: nat) returns (key: array<octet>)
    requires w.Length == SCHEDULE_WORDS && round <= ROUNDS
    ensures fresh(key) && key.Length == 16 && key[..] == RoundKey(w[..], round)
  {
    key := new octet[16];
    ghost var all := RoundKey(w[..], round);
    for i := 0 to 4
      invariant forall j :: 0 <= j < i * 4 ==> key[j] == all[j]
    {
      var word := w[round * 4 + i];
      WriteWord(key, i, word);
      forall j | i * 4 <= j < i * 4 + 4
        ensures key[j] == all[j]
      {
        RowPosition(i, j - i * 4);
        assert key[i * 4 + (j - i * 4)] == WordOctet(word, j - i * 4);
      }
    }
  }

  method AddKeyOfRound(state: array<octet>, w: array<word>, round: nat)
    requires state.Length == 16 && w.Length == SCHEDULE_WORDS && round <= ROUNDS
    modifies state
    ensures state[..] == AddRoundKey(old(state[..]), RoundKey(w[..], round))
  {
    var key := GetRoundKey(w, round);
    AddRoundKeyTo(state, key[..]);
  }

  /** The body of the loop of encryptBlock. */
  method EncryptRound(state: array<octet>, w: array<word>, round: nat)
    requires state.Length == 16 && w.Length == SCHEDULE_WORDS && round <= ROUNDS
    modifies state
    ensures state[..] == Round(old(state[..]), RoundKey(w[..], round))
  {
    Substitute(SBox, state);
    var shifted := ShiftRowsOf(state);
    var mixed := MixColumnsOf(shifted);
    Overwrite(state, mixed);
    AddKeyOfRound(state, w, round);
  }

  /** The loop of encryptBlock. */
  method EncryptRounds(state: array<octet>, w: array<word>, ghost keys: RoundKeys)
    requires state.Length == 16 && w.Length == SCHEDULE_WORDS && keys == KeysOf(w[..])
    modifies state
    ensures state[..] == Forward<Block, Block>(Round, old(state[..]), keys[1..ROUNDS])
  {
    ghost var first: Block := state[..];
    for round := 1 to ROUNDS
      invariant state[..] == Forward<Block, Block>(Round, first, keys[1..round])
    {
      EncryptRound(state, w, round);
      ForwardNext<Block, Block>(Round, first, keys[1..ROUNDS], round - 1);
      SliceOfSlice<Block>(keys, ROUNDS, round);
      SliceOfSlice<Block>(keys, ROUNDS, round + 1);
    }
  }

  /** encryptBlock. */
  method EncryptBlockOf(input: Block, w: array<word>) returns (state: array<octet>)
    requires w.Length == SCHEDULE_WORDS
    ensures fresh(state) && state.Length == 16 && state[..] == EncryptBlock(input, KeysOf(w[..]))
  {
    ghost var keys := KeysOf(w[..]);
    state := new octet[16](i requires 0 <= i < 16 => input[i]);
    assert state[..] == input;
    AddKeyOfRound(state, w, 0);
    EncryptRounds(state, w, keys);
    Substitute(SBox, state);
    var shifted := ShiftRowsOf(state);
    Overwrite(state, shifted);
    AddKeyOfRound(state, w, ROUNDS);
  }

  /** The body of the loop of decryptBlock. */
  method DecryptRound(state: array<octet>, w: array<word>, invSbox: array<octet>, round: nat)
    requires state.Length == 16 && w.Length == SCHEDULE_WORDS && round <= ROUNDS
    requires InverseTable(invSbox) && state != invSbox
    modifies state
    ensures state[..] == InvRound(old(state[..]), RoundKey(w[..], round))
  {
    var shifted := InvShiftRowsOf(state);
    Overwrite(state, shifted);
    InvSubstitute(invSbox, state);
    AddKeyOfRound(state, w, round);
    var mixed := InvMixColumnsOf(state);
    Overwrite(state, mixed);
  }

  /** The loop of decryptBlock. */
  method DecryptRounds(state: array<octet>, w: array<word>, invSbox: array<octet>, ghost keys: RoundKeys)
    requires state.Length == 16 && w.Length == SCHEDULE_WORDS && keys == KeysOf(w[..])
    requires InverseTable(invSbox) && state != invSbox
    modifies state
    ensures state[..] == Backward<Block, Block>(InvRound, old(state[..]), keys[1..ROUNDS])
  {
    ghost var last: Block := state[..];
    var round := ROUNDS - 1;
    while round > 0
      invariant 0 <= round < ROUNDS
      invariant Backward<Block, Block>(InvRound, state[..], keys[1..round + 1]) ==
                  Backward<Block, Block>(InvRound, last, keys[1..ROUNDS])
    {
      BackwardNext<Block, Block>(InvRound, state[..], keys[1..ROUNDS], round - 1);
      SliceOfSlice<Block>(keys, ROUNDS, round);
      SliceOfSlice<Block>(keys, ROUNDS, round + 1);
      DecryptRound(state, w, invSbox, round);
      round := round - 1;
    }
  }

  /** decryptBlock. */
  method DecryptBlockOf(input: Block, w: array<word>, invSbox: array<octet>) returns (state: array<octet>)
    requires w.Length == SCHEDULE_WORDS && InverseTable(invSbox)
    ensures fresh(state) && state.Length == 16 && state[..] == DecryptBlock(input, KeysOf(w[..]))
  {
    ghost var keys := KeysOf(w[..]);
    state := new octet[16](i requires 0 <= i < 16 => input[i]);
    assert state[..] == input;
    AddKeyOfRound(state, w, ROUNDS);
    DecryptRounds(state, w, invSbox, keys);
    var shifted := InvShiftRowsOf(state);
    Overwrite(state, shifted);
    InvSubstitute(invSbox, state);
    AddKeyOfRound(state, w, 0);
  }
}
