/** CBC mode with PKCS#7 padding: encrypt and decrypt of class AES256CBC. */
module AesCbc {
  import opened Results
  import opened AesTables
  import opened AesBlock
  import opened AesKeys
  import opened AesMethods

  type octets = seq<octet>

  /** The number of padding octets: 1 to 16. */
  function PadLength(n: nat): (k: nat)
    ensures 1 <= k <= 16 && (n + k) % 16 == 0
  {
    16 - n % 16
  }

  function PadOctet(k: nat): octet
    requires k <= 16
  {
    k as octet
  }

  function Pad(m: octets): (p: octets)
    ensures |p| == |m| + PadLength(|m|)
  {
    m + seq(PadLength(|m|), i => PadOctet(PadLength(|m|)))
  }

  /** slice(0, end) of a typed array: a negative end counts from the back. */
  function SliceTo<T>(s: seq<T>, end: int): seq<T>
  {
    if end < 0 then s[..if |s| + end < 0 then 0 else |s| + end]
    else s[..if end < |s| then end else |s|]
  }

  /** The padding length is read from the last octet and not checked. */
  function Unpad(p: octets): octets
  {
    if p == [] then [] else SliceTo(p, |p| - p[|p| - 1] as int)
  }

  /** What is left when the last octet says k: the octets before the last k; if there are not so many, the first
      2 * |p| - k, or none. */
  lemma UnpadValue(p: octets)
    requires p != []
    ensures var k := p[|p| - 1] as int;
            Unpad(p) == if k <= |p| then p[..|p| - k] else if k <= 2 * |p| then p[..2 * |p| - k] else []
  {
  }

  /** A block cipher with its inverse, and the way a block is combined with the previous one. The
      mode of operation is stated for any of these. */
  datatype Cipher = Cipher(enc: Block -> Block, dec: Block -> Block, mix: (Block, Block) -> Block)

  ghost predicate BlockUndone(f: Cipher, s: Block, k: Block)
  {
    f.dec(f.enc(s)) == s && f.enc(f.dec(s)) == s && f.mix(f.mix(s, k), k) == s
  }

  ghost predicate Invertible(f: Cipher)
  {
    forall s, k :: BlockUndone(f, s, k)
  }

  function CbcEncrypt(f: Cipher, previous: Block, p: octets): (c: octets)
    requires |p| % 16 == 0
    ensures |c| == |p|
    decreases |p|
  {
    if p == [] then [] else
    var block := f.enc(f.mix(p[..16], previous));
    block + CbcEncrypt(f, block, p[16..])
  }

  function CbcDecrypt(f: Cipher, previous: Block, c: octets): (p: octets)
    requires |c| % 16 == 0
    ensures |p| == |c|
    decreases |c|
  {
    if c == [] then [] else
    f.mix(f.dec(c[..16]), previous) + CbcDecrypt(f, c[..16], c[16..])
  }

  function AesCipher(keys: RoundKeys): Cipher
  {
    Cipher(s => EncryptBlock(s, keys), s => DecryptBlock(s, keys), (s, k) => AddRoundKey(s, k))
  }

  lemma AesInvertible(keys: RoundKeys)
    ensures Invertible(AesCipher(keys))
  {
    forall s, k
      ensures BlockUndone(AesCipher(keys), s, k)
    {
      BlockInverse(s, keys);
      AddRoundKeyInverse(s, k);
    }
  }

  function Encrypt(plaintext: octets, key: octets, iv: octets): Result<octets>
  {
    if |key| != 32 then Err(BadKeyLength)
    else if |iv| != 16 then Err(BadIvLength)
    else Ok(CbcEncrypt(AesCipher(KeySchedule(key)), iv, Pad(plaintext)))
  }

  function Decrypt(ciphertext: octets, key: octets, iv: octets): Result<octets>
  {
    if |key| != 32 then Err(BadKeyLength)
    else if |iv| != 16 then Err(BadIvLength)
    else if |ciphertext| % 16 != 0 then Err(BadCiphertextLength)
    else Ok(Unpad(CbcDecrypt(AesCipher(KeySchedule(key)), iv, ciphertext)))
  }

  // ---------- The two modes undo each other ----------

  lemma SplitFirst(a: octets, b: octets)
    requires |a| == 16
    ensures (a + b)[..16] == a && (a + b)[16..] == b
  {
  }

  lemma {:induction false} CbcRoundTrip(f: Cipher, previous: Block, p: octets)
    requires Invertible(f) && |p| % 16 == 0
    ensures CbcDecrypt(f, previous, CbcEncrypt(f, previous, p)) == p
    decreases |p|
  {
    if p != [] {
      var x: Block := f.mix(p[..16], previous);
      var block: Block := f.enc(x);
      SplitFirst(block, CbcEncrypt(f, block, p[16..]));
      assert BlockUndone(f, x, previous) && BlockUndone(f, p[..16], previous);
      CbcRoundTrip(f, block, p[16..]);
      assert p == p[..16] + p[16..];
    }
  }

  lemma {:induction false} CbcRoundTripBack(f: Cipher, previous: Block, c: octets)
    requires Invertible(f) && |c| % 16 == 0
    ensures CbcEncrypt(f, previous, CbcDecrypt(f, previous, c)) == c
    decreases |c|
  {
    if c != [] {
      var block: Block := c[..16];
      var x: Block := f.dec(block);
      SplitFirst(f.mix(x, previous), CbcDecrypt(f, block, c[16..]));
      assert BlockUndone(f, block, previous) && BlockUndone(f, x, previous);
      CbcRoundTripBack(f, block, c[16..]);
      assert c == c[..16] + c[16..];
    }
  }

  lemma PadOctetValue(k: nat)
    requires 1 <= k <= 16
    ensures PadOctet(k) as int == k
  {
  }

  lemma PadRoundTrip(m: octets)
    ensures Unpad(Pad(m)) == m
  {
    var k := PadLength(|m|);
    var p := Pad(m);
    assert p[|p| - 1] == PadOctet(k);
    PadOctetValue(k);
    assert p[..|m|] == m;
  }

  /** Decryption undoes encryption, for every message. */
  lemma RoundTrip(m: octets, key: octets, iv: octets)
    requires |key| == 32 && |iv| == 16
    ensures Encrypt(m, key, iv).Ok?
    ensures Decrypt(Encrypt(m, key, iv).value, key, iv) == Ok(m)
  {
    AesInvertible(KeySchedule(key));
    CbcRoundTrip(AesCipher(KeySchedule(key)), iv, Pad(m));
    PadRoundTrip(m);
  }

  /** Block n of s. */
  function BlockAt(s: octets, n: nat): Block
    requires 16 * n + 16 <= |s|
  {
    s[16 * n..16 * n + 16]
  }

  lemma {:induction false} ChainEquation(f: Cipher, previous: Block, p: octets, n: nat)
    requires |p| % 16 == 0 && 16 * n + 16 <= |p|
    ensures var c := CbcEncrypt(f, previous, p);
            BlockAt(c, n) == f.enc(f.mix(BlockAt(p, n), if n == 0 then previous else BlockAt(c, n - 1)))
    decreases n
  {
    var c, block := CbcEncrypt(f, previous, p), f.enc(f.mix(p[..16], previous));
    assert c[..16] == block && c[16..] == CbcEncrypt(f, block, p[16..]);
    if n > 0 {
      ChainEquation(f, block, p[16..], n - 1);
      TailBlock(p, n - 1);
      TailBlock(c, n - 1);
      if n > 1 { TailBlock(c, n - 2); }
    }
  }

  lemma TailBlock(s: octets, n: nat)
    requires 16 * n + 32 <= |s|
    ensures BlockAt(s[16..], n) == BlockAt(s, n + 1)
  {
  }

  /** Cipher block chaining by its equation: every block of the ciphertext is the encryption, under the expanded key,
      of a block of the padded message added to the previous one or to the iv. */
  lemma CbcEquation(m: octets, key: octets, iv: octets, n: nat)
    requires |key| == 32 && |iv| == 16 && n <= |m| / 16
    ensures Encrypt(m, key, iv).Ok? && |Encrypt(m, key, iv).value| == |Pad(m)| == (|m| / 16 + 1) * 16
    ensures var c := Encrypt(m, key, iv).value;
            BlockAt(c, n) ==
              EncryptBlock(AddRoundKey(BlockAt(Pad(m), n), if n == 0 then iv else BlockAt(c, n - 1)), KeySchedule(key))
  {
    var f := AesCipher(KeySchedule(key));
    ChainEquation(f, iv, Pad(m), n);
    var p, c := BlockAt(Pad(m), n), CbcEncrypt(f, iv, Pad(m));
    EncryptValue(KeySchedule(key), p, if n == 0 then iv else BlockAt(c, n - 1));
  }

  /** The initialisation vector matters: different ones encrypt every message differently. */
  lemma IvMatters(m: octets, key: octets, iv: octets, iv': octets)
    requires |key| == 32 && |iv| == 16 && |iv'| == 16
    ensures Encrypt(m, key, iv) == Encrypt(m, key, iv') <==> iv == iv'
  {
    var keys, p := KeySchedule(key), Pad(m);
    var f := AesCipher(keys);
    if Encrypt(m, key, iv) == Encrypt(m, key, iv') {
      var x, y := f.mix(p[..16], iv), f.mix(p[..16], iv');
      SplitFirst(f.enc(x), CbcEncrypt(f, f.enc(x), p[16..]));
      SplitFirst(f.enc(y), CbcEncrypt(f, f.enc(y), p[16..]));
      BlockInverse(x, keys);
      BlockInverse(y, keys);
      AddRoundKeyKey(p[..16], iv, iv');
    }
  }

  /** The end of p is a padding that encrypt could have written. */
  ghost predicate WellPadded(p: octets)
  {
    p != [] &&
    var k := p[|p| - 1] as int;
    1 <= k <= 16 && k <= |p| && forall i :: |p| - k <= i < |p| ==> p[i] == p[|p| - 1]
  }

  lemma PadUnpad(p: octets)
    requires |p| % 16 == 0
    ensures Pad(Unpad(p)) == p <==> WellPadded(p)
  {
    if WellPadded(p) {
      var k := p[|p| - 1] as int;
      assert Unpad(p) == p[..|p| - k];
      PadLengthBack(|p|, k);
      PadOctetBack(p[|p| - 1]);
    }
    if Pad(Unpad(p)) == p {
      var m := Unpad(p);
      var k := PadLength(|m|);
      PadOctetValue(k);
      assert p[|p| - 1] == PadOctet(k);
    }
  }

  lemma PadLengthBack(n: int, k: int)
    requires n % 16 == 0 && 1 <= k <= 16 && k <= n
    ensures PadLength(n - k) == k
  {
  }

  lemma PadOctetBack(b: octet)
    requires 1 <= b as int <= 16
    ensures PadOctet(b as int) == b
  {
  }

  /** Encryption undoes decryption exactly for the ciphertexts whose plaintext ends in a well-formed
      padding. decrypt accepts all others of a multiple of 16 octets as well. */
  lemma RoundTripBack(c: octets, key: octets, iv: octets)
    requires |key| == 32 && |iv| == 16 && |c| % 16 == 0
    ensures Decrypt(c, key, iv).Ok?
    ensures Encrypt(Decrypt(c, key, iv).value, key, iv) == Ok(c) <==>
              WellPadded(CbcDecrypt(AesCipher(KeySchedule(key)), iv, c))
  {
    AesInvertible(KeySchedule(key));
    PaddedRoundTrip(AesCipher(KeySchedule(key)), iv, c);
  }

  /** Such a ciphertext exists: the empty one is accepted, and encrypting the empty plaintext that it
      decrypts to gives a block. */
  lemma EmptyCiphertext(key: octets, iv: octets)
    requires |key| == 32 && |iv| == 16
    ensures Decrypt([], key, iv) == Ok([])
    ensures Encrypt([], key, iv).Ok? && |Encrypt([], key, iv).value| == 16
  {
  }

  lemma PaddedRoundTrip(f: Cipher, iv: Block, c: octets)
    requires Invertible(f) && |c| % 16 == 0
    ensures CbcEncrypt(f, iv, Pad(Unpad(CbcDecrypt(f, iv, c)))) == c <==> WellPadded(CbcDecrypt(f, iv, c))
  {
    var p := CbcDecrypt(f, iv, c);
    PadUnpad(p);
    CbcRoundTripBack(f, iv, c);
    CbcRoundTrip(f, iv, Pad(Unpad(p)));
  }

  // ---------- The loops ----------

  /** block[j] ^= previousBlock[j]. */
  method XorInto(block: array<octet>, previous: Block)
    requires block.Length == 16
    modifies block
    ensures block[..] == AddRoundKey(old(block[..]), previous)
  {
    AddRoundKeyTo(block, previous);
  }

  method CopyBlock(source: octets, start: nat) returns (block: array<octet>)
    requires start + 16 <= |source|
    ensures fresh(block) && block.Length == 16 && block[..] == source[start..start + 16]
  {
    block := new octet[16](i requires 0 <= i < 16 => source[start + i]);
  }

  /** target.set(block, start). */
  method SetBlock(target: array<octet>, start: nat, block: Block)
    requires start + 16 <= target.Length
    modifies target
    ensures target[..start + 16] == old(target[..start]) + block
  {
    forall i | 0 <= i < 16 {
      target[start + i] := block[i];
    }
    assert target[..start + 16] == target[..start] + target[start..start + 16];
  }

  /** The number of blocks that encrypt computes. */
  function BlockCount(n: nat): (blocks: nat)
    ensures blocks * 16 == n + PadLength(n)
  {
    (n + 15) / 16 + if n % 16 == 0 then 1 else 0
  }

  /** The padding lines of encrypt. */
  method PadMessage(plaintext: octets) returns (padded: array<octet>)
    ensures fresh(padded) && padded[..] == Pad(plaintext)
  {
    var blocks := (|plaintext| + 15) / 16;
    if |plaintext| % 16 == 0 { blocks := blocks + 1; }
    assert blocks == BlockCount(|plaintext|);
    padded := new octet[blocks * 16];
    forall i | 0 <= i < |plaintext| {
      padded[i] := plaintext[i];
    }
    assert padded[..|plaintext|] == plaintext;
    var paddingLength := padded.Length - |plaintext|;
    WriteTail(padded, |plaintext|, PadOctet(paddingLength));
    PadTail(plaintext, paddingLength);
  }

  lemma PadTail(m: octets, k: nat)
    requires k == PadLength(|m|)
    ensures Pad(m) == m + seq(k, i => PadOctet(k))
  {
  }

  method WriteTail(padded: array<octet>, start: nat, value: octet)
    requires start <= padded.Length
    modifies padded
    ensures padded[..] == old(padded[..start]) + seq(padded.Length - start, i => value)
  {
    for i := start to padded.Length
      invariant padded[..start] == old(padded[..start])
      invariant forall j :: start <= j < i ==> padded[j] == value
    {
      padded[i] := value;
    }
  }

  /** The loop of encrypt has done i blocks. */
  ghost predicate EncryptedTo(f: Cipher, iv: Block, padded: octets, i: nat, previous: Block, done: octets)
    requires |padded| % 16 == 0
  {
    16 * i <= |padded| && |done| == 16 * i
    && done + CbcEncrypt(f, previous, padded[16 * i..]) == CbcEncrypt(f, iv, padded)
  }

  ghost predicate DecryptedTo(f: Cipher, iv: Block, ciphertext: octets, i: nat, previous: Block, done: octets)
    requires |ciphertext| % 16 == 0
  {
    16 * i <= |ciphertext| && |done| == 16 * i
    && done + CbcDecrypt(f, previous, ciphertext[16 * i..]) == CbcDecrypt(f, iv, ciphertext)
  }

  lemma EncryptedNext(f: Cipher, iv: Block, padded: octets, i: nat, previous: Block, done: octets)
    requires |padded| % 16 == 0 && EncryptedTo(f, iv, padded, i, previous, done) && 16 * (i + 1) <= |padded|
    ensures var next := f.enc(f.mix(padded[16 * i..16 * i + 16], previous));
            EncryptedTo(f, iv, padded, i + 1, next, done + next)
  {
    NextBlock(padded, i);
    var rest := padded[16 * i..];
    var next := f.enc(f.mix(rest[..16], previous));
    assert done + CbcEncrypt(f, previous, rest) == (done + next) + CbcEncrypt(f, next, rest[16..]);
  }

  lemma DecryptedNext(f: Cipher, iv: Block, ciphertext: octets, i: nat, previous: Block, done: octets)
    requires |ciphertext| % 16 == 0 && DecryptedTo(f, iv, ciphertext, i, previous, done) && 16 * (i + 1) <= |ciphertext|
    ensures var block := ciphertext[16 * i..16 * i + 16];
            DecryptedTo(f, iv, ciphertext, i + 1, block, done + f.mix(f.dec(block), previous))
  {
    NextBlock(ciphertext, i);
    var rest := ciphertext[16 * i..];
    var plain := f.mix(f.dec(rest[..16]), previous);
    assert done + CbcDecrypt(f, previous, rest) == (done + plain) + CbcDecrypt(f, rest[..16], rest[16..]);
  }

  lemma NextBlock(s: octets, i: nat)
    requires 16 * (i + 1) <= |s| && |s| % 16 == 0
    ensures |s[16 * i..]| % 16 == 0 && |s[16 * i..]| >= 16
    ensures s[16 * i..][..16] == s[16 * i..16 * i + 16] && s[16 * i..][16..] == s[16 * (i + 1)..]
  {
  }

  /** The body of the loop of encrypt on one block. */
  method EncryptOne(source: Block, previous: Block, w: array<word>) returns (next: Block)
    requires w.Length == SCHEDULE_WORDS
    ensures next == EncryptBlock(AddRoundKey(source, previous), KeysOf(w[..]))
  {
    var block := CopyBlock(source, 0);
    XorInto(block, previous);
    ghost var mixed: Block := AddRoundKey(source, previous);
    assert block[..] == mixed;
    var encrypted := EncryptBlockOf(block[..], w);
    next := encrypted[..];
  }

  lemma EncryptValue(keys: RoundKeys, s: Block, previous: Block)
    ensures var f := AesCipher(keys);
            f.enc(f.mix(s, previous)) == EncryptBlock(AddRoundKey(s, previous), keys)
  {
  }

  method EncryptOneBy(source: Block, previous: Block, w: array<word>, ghost f: Cipher) returns (next: Block)
    requires w.Length == SCHEDULE_WORDS && f == AesCipher(KeysOf(w[..]))
    ensures next == f.enc(f.mix(source, previous))
  {
    EncryptValue(KeysOf(w[..]), source, previous);
    next := EncryptOne(source, previous, w);
  }

  method DecryptOne(source: Block, previous: Block, w: array<word>, invSbox: array<octet>, ghost f: Cipher)
    returns (next: Block)
    requires w.Length == SCHEDULE_WORDS && f == AesCipher(KeysOf(w[..])) && InverseTable(invSbox)
    ensures next == f.mix(f.dec(source), previous)
  {
    var decrypted := DecryptBlockOf(source, w, invSbox);
    XorInto(decrypted, previous);
    next := decrypted[..];
  }

  /** The body of the loop of encrypt: one block. */
  method EncryptNext(padded: octets, i: nat, previous: Block, w: array<word>, ciphertext: array<octet>, ghost f: Cipher)
    returns (next: Block)
    requires w.Length == SCHEDULE_WORDS && f == AesCipher(KeysOf(w[..]))
    requires 16 * (i + 1) <= |padded| == ciphertext.Length
    modifies ciphertext
    ensures next == f.enc(f.mix(padded[16 * i..16 * i + 16], previous))
    ensures ciphertext[..16 * (i + 1)] == old(ciphertext[..16 * i]) + next
  {
    next := EncryptOneBy(padded[i * 16..i * 16 + 16], previous, w, f);
    SetBlock(ciphertext, i * 16, next);
  }

  /** encrypt. */
  method EncryptMessage(plaintext: octets, key: octets, iv: octets) returns (res: Result<octets>)
    ensures res == Encrypt(plaintext, key, iv)
  {
    if |key| != 32 { return Err(BadKeyLength); }
    if |iv| != 16 { return Err(BadIvLength); }
    var w := ExpandKey(key);
    ghost var f := AesCipher(KeySchedule(key));
    var paddedArray := PadMessage(plaintext);
    var padded := paddedArray[..];
    var ciphertext := new octet[|padded|];
    EncryptLoop(padded, iv, w, ciphertext, f);
    res := Ok(ciphertext[..]);
  }

  method EncryptLoop(padded: octets, iv: Block, w: array<word>, ciphertext: array<octet>, ghost f: Cipher)
    requires w.Length == SCHEDULE_WORDS && f == AesCipher(KeysOf(w[..]))
    requires |padded| % 16 == 0 && ciphertext.Length == |padded|
    modifies ciphertext
    ensures ciphertext[..] == CbcEncrypt(f, iv, padded)
  {
    var blocks := |padded| / 16;
    var previous := iv;
    for i := 0 to blocks
      invariant f == AesCipher(KeysOf(w[..]))
      invariant EncryptedTo(f, iv, padded, i, previous, ciphertext[..16 * i])
    {
      EncryptedNext(f, iv, padded, i, previous, ciphertext[..16 * i]);
      previous := EncryptNext(padded, i, previous, w, ciphertext, f);
    }
    assert ciphertext[..16 * blocks] == ciphertext[..] && padded[16 * blocks..] == [];
  }

  /** The body of the loop of decrypt: one block. */
  method DecryptNext(block: Block, i: nat, previous: Block, w: array<word>, invSbox: array<octet>,
                     plaintext: array<octet>, ghost f: Cipher)
    requires w.Length == SCHEDULE_WORDS && f == AesCipher(KeysOf(w[..])) && 16 * (i + 1) <= plaintext.Length
    requires InverseTable(invSbox) && plaintext != invSbox
    modifies plaintext
    ensures plaintext[..16 * (i + 1)] == old(plaintext[..16 * i]) + f.mix(f.dec(block), previous)
  {
    var decrypted := DecryptOne(block, previous, w, invSbox, f);
    SetBlock(plaintext, i * 16, decrypted);
  }

  method DecryptLoop(ciphertext: octets, iv: Block, w: array<word>, invSbox: array<octet>,
                     plaintext: array<octet>, ghost f: Cipher)
    requires w.Length == SCHEDULE_WORDS && f == AesCipher(KeysOf(w[..]))
    requires InverseTable(invSbox) && plaintext != invSbox
    requires |ciphertext| % 16 == 0 && plaintext.Length == |ciphertext|
    modifies plaintext
    ensures plaintext[..] == CbcDecrypt(f, iv, ciphertext)
  {
    var blocks := |ciphertext| / 16;
    var previous := iv;
    for i := 0 to blocks
      invariant f == AesCipher(KeysOf(w[..])) && InverseTable(invSbox)
      invariant DecryptedTo(f, iv, ciphertext, i, previous, plaintext[..16 * i])
    {
      var block: Block := ciphertext[16 * i..16 * i + 16];
      DecryptedNext(f, iv, ciphertext, i, previous, plaintext[..16 * i]);
      DecryptNext(block, i, previous, w, invSbox, plaintext, f);
      previous := block;
    }
    assert plaintext[..16 * blocks] == plaintext[..] && ciphertext[16 * blocks..] == [];
  }

  /** decrypt, with the table of the constructor. */
  method DecryptMessage(ciphertext: octets, key: octets, iv: octets, invSbox: array<octet>) returns (res: Result<octets>)
    requires InverseTable(invSbox)
    ensures res == Decrypt(ciphertext, key, iv)
  {
    if |key| != 32 { return Err(BadKeyLength); }
    if |iv| != 16 { return Err(BadIvLength); }
    if |ciphertext| % 16 != 0 { return Err(BadCiphertextLength); }
    var w := ExpandKey(key);
    var plaintext := new octet[|ciphertext|];
    DecryptLoop(ciphertext, iv, w, invSbox, plaintext, AesCipher(KeySchedule(key)));
    if plaintext.Length == 0 { return Ok([]); }
    var paddingLength := plaintext[plaintext.Length - 1] as int;
    res := Ok(SliceTo(plaintext[..], plaintext.Length - paddingLength));
  }
}
