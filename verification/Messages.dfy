/** Encrypted messages between two key holders: deriveSharedKey and the encrypt and decrypt helpers
    of challenge-manager.mjs. UTF-8 and base64 are parameters with their round-trip contracts. */
module Messages {
  import opened Results
  import opened NumberTheory
  import opened Bytes
  import opened Text
  import opened Keys
  import A = AesTables
  import AesCbc

  type octets = AesCbc.octets

  /** b4a's conversions between text and bytes. */
  datatype Codec = Codec(utf8: string -> octets, text: octets -> string,
                         base64: octets -> string, unbase64: string -> octets)

  const IV_MARK := "?iv="

  ghost predicate TextUndone(t: Codec, m: string)
  {
    t.text(t.utf8(m)) == m
  }

  /** Base64 round-trips, never writes a question mark, and writes nothing only for no bytes. */
  ghost predicate Base64Undone(t: Codec, b: octets)
  {
    && t.unbase64(t.base64(b)) == b
    && IV_MARK[0] !in t.base64(b)
    && (t.base64(b) == "" <==> b == [])
  }

  ghost predicate GoodCodec(t: Codec)
  {
    && (forall m :: TextUndone(t, m))
    && (forall b :: Base64Undone(t, b))
  }

  lemma NextOctet(x: A.octet)
    requires x < 255
    ensures (x + 1) as int == x as int + 1
  {
  }

  /** The octet with a given number, by counting. */
  function OctetOf(b: byte): (x: A.octet)
    ensures x as int == b
  {
    if b == 0 then 0 else
    var x := OctetOf(b - 1);
    NextOctet(x);
    x + 1
  }

  /** The same numbers as octets. */
  function OctetsOf(b: bytes): (o: octets)
    ensures |o| == |b| && forall i :: 0 <= i < |b| ==> o[i] as int == b[i]
  {
    seq(|b|, i requires 0 <= i < |b| => OctetOf(b[i]))
  }

  /** getPublicKeyFromPrivate: the abscissa in hexadecimal. */
  function PublicKeyHex(c: Params, priv: string): Result<string>
    requires c.p > 0
  {
    var pub :- GetPublicKey(c, ParseHex(priv), true);
    Ok(HexEncode(pub[1..]))
  }

  /** The secret as an AES key; a leading byte of 33 is dropped. */
  function SharedKey(c: Params, priv: string, pub: string): Result<octets>
    requires c.p > 0
  {
    var secret :- GetSharedSecret(c, ParseHex(priv), ParseHex("02" + pub));
    Ok(OctetsOf(if |secret| == 33 then secret[1..] else secret))
  }

  function DeriveSharedKey(c: Params, priv: string, pub: string): Result<octets>
    requires c.p > 0
  {
    if priv == "" || pub == "" then Err(MissingKeys) else SharedKey(c, priv, pub)
  }

  datatype Sealed = Sealed(ciphertext: string, iv: string)

  /** aesDecrypt, also the end of decryptWithSharedSecret. */
  function Unseal(t: Codec, key: octets, ciphertext: string, iv: string): Result<string>
  {
    var plain :- AesCbc.Decrypt(t.unbase64(ciphertext), key, t.unbase64(iv));
    Ok(t.text(plain))
  }

  /** encryptWithSharedSecret, with the random iv as a parameter. */
  function EncryptWithSharedSecret(c: Params, t: Codec, priv: string, pub: string, m: string, iv: octets): Result<Sealed>
    requires c.p > 0
  {
    var key :- DeriveSharedKey(c, priv, pub);
    var ciphertext :- AesCbc.Encrypt(t.utf8(m), key, iv);
    Ok(Sealed(t.base64(ciphertext), t.base64(iv)))
  }

  function DecryptWithSharedSecret(c: Params, t: Codec, priv: string, pub: string, ciphertext: string, iv: string): Result<string>
    requires c.p > 0
  {
    var key :- DeriveSharedKey(c, priv, pub);
    Unseal(t, key, ciphertext, iv)
  }

  function EncryptToString(c: Params, t: Codec, priv: string, pub: string, m: string, iv: octets): Result<string>
    requires c.p > 0
  {
    var s :- EncryptWithSharedSecret(c, t, priv, pub, m, iv);
    Ok(s.ciphertext + IV_MARK + s.iv)
  }

  function DecryptFromString(c: Params, t: Codec, priv: string, pub: string, payload: string): Result<string>
    requires c.p > 0
  {
    var pieces := Split(payload, IV_MARK);
    if |pieces| < 2 || pieces[0] == "" || pieces[1] == "" then Err(MissingIvSegment)
    else DecryptWithSharedSecret(c, t, priv, pub, pieces[0], pieces[1])
  }

  /** verifyChallenge: does the response decrypt to the stored challenge? A failure to decrypt is an
      answer of false. */
  function ResponseMatches(c: Params, t: Codec, relayPriv: string, pub: string, challenge: string, response: Sealed): bool
    requires c.p > 0
  {
    match SharedKey(c, relayPriv, pub)
    case Err(_) => false
    case Ok(key) => Unseal(t, key, response.ciphertext, response.iv) == Ok(challenge)
  }

  // ---------- Both sides hold the same key ----------

  lemma PublicKeyHexValue(c: Params, priv: string)
    requires GoodParams(c)
    ensures PublicKeyHex(c, priv).Ok? <==> ValidScalar(c, BytesToInt(ParseHex(priv)))
    ensures PublicKeyHex(c, priv).Ok? ==>
              IsPublicKey(c, ParseHex("02" + PublicKeyHex(c, priv).value), BytesToInt(ParseHex(priv)))
    ensures PublicKeyHex(c, priv).Ok? ==> |PublicKeyHex(c, priv).value| == 64
  {
    var k := BytesToInt(ParseHex(priv));
    PublicKeyValue(c, ParseHex(priv), true);
    if ValidScalar(c, k) {
      KGProper(c, k);
      var x := IntToBytes(KG(c, k).x, 32);
      var pub := GetPublicKey(c, ParseHex(priv), true).value;
      assert pub[1..] == x;
      ParsePrefixed(x);
    }
  }

  lemma ParsePrefixed(x: bytes)
    ensures ParseHex("02" + HexEncode(x)) == [2] + x
  {
    DecodePrefixed(HexEncode(x));
    ParseHexValid("02" + HexEncode(x));
    HexRoundTrip(x);
  }

  lemma DecodePrefixed(s: string)
    requires IsHex(s)
    ensures IsHex("02" + s) && HexDecode("02" + s) == [2] + HexDecode(s)
  {
    var t := "02" + s;
    assert t[0] == '0' && t[1] == '2' && t[2..] == s;
    DecodePair(t);
  }

  /** getSharedSecret on the hexadecimal keys, as a function of the product of the scalars. */
  lemma SharedKeyValue(c: Params, a: string, b: string)
    requires GoodParams(c)
    requires PublicKeyHex(c, a).Ok? && PublicKeyHex(c, b).Ok?
    ensures GetSharedSecret(c, ParseHex(a), ParseHex("02" + PublicKeyHex(c, b).value)) ==
              SecretOf(c, ScalarProduct(BytesToInt(ParseHex(a)), BytesToInt(ParseHex(b))))
    ensures ValidScalar(c, BytesToInt(ParseHex(a))) && ValidScalar(c, BytesToInt(ParseHex(b)))
    ensures a != "" && PublicKeyHex(c, b).value != ""
  {
    PublicKeyHexValue(c, a);
    PublicKeyHexValue(c, b);
    SharedSecretValue(c, ParseHex(a), ParseHex("02" + PublicKeyHex(c, b).value), BytesToInt(ParseHex(b)));
  }

  /** The two ends derive the same 32-byte key from each other's abscissas. */
  lemma SameKey(c: Params, a: string, b: string)
    requires GoodParams(c) && Prime(c.n)
    requires PublicKeyHex(c, a).Ok? && PublicKeyHex(c, b).Ok?
    ensures var xA, xB := PublicKeyHex(c, a).value, PublicKeyHex(c, b).value;
            && DeriveSharedKey(c, a, xB) == DeriveSharedKey(c, b, xA)
            && DeriveSharedKey(c, a, xB) == SharedKey(c, a, xB)
            && DeriveSharedKey(c, a, xB).Ok? && |DeriveSharedKey(c, a, xB).value| == 32
  {
    var i, j := BytesToInt(ParseHex(a)), BytesToInt(ParseHex(b));
    SharedKeyValue(c, a, b);
    SharedKeyValue(c, b, a);
    SecretSymmetric(c, i, j);
  }

  /** That key is the abscissa of the product of the two scalars and the generator, octet by octet. */
  lemma DerivedKey(c: Params, a: string, b: string, t: nat)
    requires GoodParams(c) && Prime(c.n) && t < 32
    requires PublicKeyHex(c, a).Ok? && PublicKeyHex(c, b).Ok?
    ensures var P := KG(c, ScalarProduct(BytesToInt(ParseHex(a)), BytesToInt(ParseHex(b))));
            var key := DeriveSharedKey(c, a, PublicKeyHex(c, b).value);
            && P.Affine? && key.Ok? && |key.value| == 32
            && key.value[t] as int == IntToBytes(P.x, 32)[t]
  {
    SameKey(c, a, b);
    SharedKeyValue(c, a, b);
    SecretSymmetric(c, BytesToInt(ParseHex(a)), BytesToInt(ParseHex(b)));
  }

  /** Two pairs of ends have the same key exactly when their product points have the same abscissa. */
  lemma SameKeyIff(c: Params, a: string, b: string, a': string, b': string)
    requires GoodParams(c) && Prime(c.n)
    requires PublicKeyHex(c, a).Ok? && PublicKeyHex(c, b).Ok? && PublicKeyHex(c, a').Ok? && PublicKeyHex(c, b').Ok?
    ensures var P := KG(c, ScalarProduct(BytesToInt(ParseHex(a)), BytesToInt(ParseHex(b))));
            var P' := KG(c, ScalarProduct(BytesToInt(ParseHex(a')), BytesToInt(ParseHex(b'))));
            && P.Affine? && P'.Affine?
            && (DeriveSharedKey(c, a, PublicKeyHex(c, b).value) == DeriveSharedKey(c, a', PublicKeyHex(c, b').value) <==>
                  P.x == P'.x)
  {
    var i, j := BytesToInt(ParseHex(a)), BytesToInt(ParseHex(b));
    var i', j' := BytesToInt(ParseHex(a')), BytesToInt(ParseHex(b'));
    SharedKeyValue(c, a, b);
    SharedKeyValue(c, a', b');
    ProductPoint(c, i, j);
    ProductPoint(c, i', j');
    SameKey(c, a, b);
    SameKey(c, a', b');
    OctetsInjective(IntToBytes(KG(c, ScalarProduct(i, j)).x, 32), IntToBytes(KG(c, ScalarProduct(i', j')).x, 32));
  }

  lemma OctetsInjective(b: bytes, b': bytes)
    ensures OctetsOf(b) == OctetsOf(b') <==> b == b'
  {
    if OctetsOf(b) == OctetsOf(b') {
      forall i | 0 <= i < |b|
        ensures b[i] == b'[i]
      {
        assert OctetsOf(b)[i] == OctetsOf(b')[i];
      }
    }
  }

  /** With the prefix 02 no text is read as an uncompressed key. */
  lemma SecondPrefix(pub: string)
    ensures ParseHex("02" + pub) != [] && ParseHex("02" + pub)[0] == 2
  {
    var s := "02" + pub;
    assert s[1..] == "2" + pub && s[1..][1..] == pub;
    assert CodeUnits(s) == [48] + CodeUnits(s[1..]) && CodeUnits(s[1..]) == [50] + CodeUnits(pub);
  }

  /** Its own error is given for empty texts and in no other case. */
  lemma MissingIff(c: Params, priv: string, pub: string)
    requires GoodParams(c)
    ensures DeriveSharedKey(c, priv, pub) == Err(MissingKeys) <==> priv == "" || pub == ""
  {
    SecondPrefix(pub);
    OtherErrors(c, ParseHex(priv), ParseHex("02" + pub));
  }

  lemma OtherErrors(c: Params, priv: bytes, prefixed: bytes)
    requires GoodParams(c) && prefixed != [] && prefixed[0] == 2
    ensures GetSharedSecret(c, priv, prefixed) != Err(MissingKeys)
  {
    var parsed := ParsePublicKey(c, prefixed);
    if parsed.Ok? {
      ParsedReduced(c, prefixed, parsed.value);
      if Curve.Equation(parsed.value.x, parsed.value.y, c.p) {
        ScalarMult.MultiplyIsTimes(parsed.value, BytesToInt(priv), c.p);
      }
    }
  }

  /** deriveSharedKey returns exactly for two non-empty texts, a valid scalar and an abscissa of the curve below the
      modulus: the key is the abscissa of the multiple of either point above it. */
  lemma KeyIff(c: Params, priv: string, pub: string, key: octets)
    requires GoodParams(c)
    ensures DeriveSharedKey(c, priv, pub) == Ok(key) <==>
              && priv != "" && pub != ""
              && exists secret ::
                   IsSecret(c, BytesToInt(ParseHex(priv)), ParseHex("02" + pub), secret) && key == OctetsOf(secret)
  {
    var prefixed := ParseHex("02" + pub);
    SecondPrefix(pub);
    if DeriveSharedKey(c, priv, pub) == Ok(key) {
      var secret := GetSharedSecret(c, ParseHex(priv), prefixed).value;
      SecretIff(c, ParseHex(priv), prefixed, secret);
    }
    if secret :| priv != "" && pub != "" && IsSecret(c, BytesToInt(ParseHex(priv)), prefixed, secret)
                 && key == OctetsOf(secret) {
      SecretIff(c, ParseHex(priv), prefixed, secret);
    }
  }

  // ---------- Messages survive ----------

  lemma Unsealed(t: Codec, key: octets, m: string, iv: octets)
    requires GoodCodec(t) && |key| == 32 && |iv| == 16
    ensures AesCbc.Encrypt(t.utf8(m), key, iv).Ok?
    ensures Unseal(t, key, t.base64(AesCbc.Encrypt(t.utf8(m), key, iv).value), t.base64(iv)) == Ok(m)
  {
    AesCbc.RoundTrip(t.utf8(m), key, iv);
    assert Base64Undone(t, AesCbc.Encrypt(t.utf8(m), key, iv).value);
    assert Base64Undone(t, iv);
    assert TextUndone(t, m);
  }

  lemma SealedSound(c: Params, t: Codec, a: string, b: string, m: string, iv: octets)
    requires GoodParams(c) && Prime(c.n) && GoodCodec(t) && |iv| == 16
    requires PublicKeyHex(c, a).Ok? && PublicKeyHex(c, b).Ok?
    ensures var xA, xB := PublicKeyHex(c, a).value, PublicKeyHex(c, b).value;
            && EncryptWithSharedSecret(c, t, a, xB, m, iv).Ok?
            && var s := EncryptWithSharedSecret(c, t, a, xB, m, iv).value;
               && DecryptWithSharedSecret(c, t, b, xA, s.ciphertext, s.iv) == Ok(m)
               && IV_MARK[0] !in s.ciphertext && IV_MARK[0] !in s.iv
               && s.ciphertext != "" && s.iv != ""
  {
    var xA, xB := PublicKeyHex(c, a).value, PublicKeyHex(c, b).value;
    SameKey(c, a, b);
    var key := DeriveSharedKey(c, a, xB).value;
    Unsealed(t, key, m, iv);
    var ciphertext := AesCbc.Encrypt(t.utf8(m), key, iv).value;
    assert ciphertext != [];
    assert Base64Undone(t, ciphertext) && Base64Undone(t, iv);
  }

  /** The key in use is the abscissa of the product point: whoever has its octets reads the message. */
  lemma SealedUnderAbscissa(c: Params, t: Codec, a: string, b: string, m: string, iv: octets, key: octets)
    requires GoodParams(c) && Prime(c.n) && GoodCodec(t) && |iv| == 16
    requires PublicKeyHex(c, a).Ok? && PublicKeyHex(c, b).Ok?
    requires IsAbscissa(KG(c, ScalarProduct(BytesToInt(ParseHex(a)), BytesToInt(ParseHex(b)))), key)
    ensures EncryptWithSharedSecret(c, t, a, PublicKeyHex(c, b).value, m, iv).Ok?
    ensures var s := EncryptWithSharedSecret(c, t, a, PublicKeyHex(c, b).value, m, iv).value;
            && t.unbase64(s.iv) == iv
            && AesCbc.Encrypt(t.utf8(m), key, iv) == Ok(t.unbase64(s.ciphertext))
  {
    SameKey(c, a, b);
    AbscissaDerived(c, a, b, key);
    SealedFor(t, m, iv, key);
  }

  predicate IsAbscissa(P: Curve.Point, key: octets)
  {
    P.Affine? && |key| == 32 && forall i :: 0 <= i < 32 ==> key[i] as int == IntToBytes(P.x, 32)[i]
  }

  lemma AbscissaDerived(c: Params, a: string, b: string, key: octets)
    requires GoodParams(c) && Prime(c.n) && PublicKeyHex(c, a).Ok? && PublicKeyHex(c, b).Ok?
    requires IsAbscissa(KG(c, ScalarProduct(BytesToInt(ParseHex(a)), BytesToInt(ParseHex(b)))), key)
    ensures DeriveSharedKey(c, a, PublicKeyHex(c, b).value) == Ok(key)
  {
    SameKey(c, a, b);
    SharedKeyValue(c, a, b);
    OctetsAre(IntToBytes(KG(c, ScalarProduct(BytesToInt(ParseHex(a)), BytesToInt(ParseHex(b)))).x, 32), key);
  }

  lemma OctetsAre(b: bytes, key: octets)
    requires |key| == |b| && forall i :: 0 <= i < |b| ==> key[i] as int == b[i]
    ensures key == OctetsOf(b)
  {
    forall i | 0 <= i < |b|
      ensures key[i] == OctetsOf(b)[i]
    {
      OctetNumber(key[i], OctetsOf(b)[i]);
    }
  }

  lemma SealedFor(t: Codec, m: string, iv: octets, key: octets)
    requires GoodCodec(t) && |iv| == 16 && |key| == 32
    ensures var r := AesCbc.Encrypt(t.utf8(m), key, iv);
            r.Ok? && t.unbase64(t.base64(r.value)) == r.value && t.unbase64(t.base64(iv)) == iv
  {
    AesCbc.RoundTrip(t.utf8(m), key, iv);
    assert Base64Undone(t, AesCbc.Encrypt(t.utf8(m), key, iv).value) && Base64Undone(t, iv);
  }

  lemma OctetNumber(x: A.octet, y: A.octet)
    requires x as int == y as int
    ensures x == y
  {
  }

  /** What one end writes for the other's public key, the other end reads with the first one's. */
  lemma MessageRoundTrip(c: Params, t: Codec, a: string, b: string, m: string, iv: octets)
    requires GoodParams(c) && Prime(c.n) && GoodCodec(t) && |iv| == 16
    requires PublicKeyHex(c, a).Ok? && PublicKeyHex(c, b).Ok?
    ensures var xA, xB := PublicKeyHex(c, a).value, PublicKeyHex(c, b).value;
            && EncryptToString(c, t, a, xB, m, iv).Ok?
            && EncryptWithSharedSecret(c, t, a, xB, m, iv).Ok?
            && (var s := EncryptWithSharedSecret(c, t, a, xB, m, iv).value;
                EncryptToString(c, t, a, xB, m, iv).value == s.ciphertext + "?iv=" + s.iv)
            && DecryptFromString(c, t, b, xA, EncryptToString(c, t, a, xB, m, iv).value) == Ok(m)
  {
    var xB := PublicKeyHex(c, b).value;
    SealedSound(c, t, a, b, m, iv);
    var s := EncryptWithSharedSecret(c, t, a, xB, m, iv).value;
    SplitOnce(s.ciphertext, s.iv, IV_MARK);
  }

  /** What is read of a payload: the text up to the first mark and from there to the next mark or the end. Unless both
      are there and not empty, the payload is refused. */
  lemma PayloadRead(c: Params, t: Codec, priv: string, pub: string, payload: string, i: nat, j: nat)
    requires c.p > 0 && NextAt(payload, "?iv=", 0, i) && (i < |payload| ==> NextAt(payload, "?iv=", i + 4, j))
    ensures DecryptFromString(c, t, priv, pub, payload) ==
              if 0 < i < |payload| && i + 4 < j
              then DecryptWithSharedSecret(c, t, priv, pub, payload[..i], payload[i + 4..j])
              else Err(MissingIvSegment)
  {
    FirstPiece(payload, IV_MARK, i);
    if i < |payload| {
      FirstPieces(payload, IV_MARK, i, j);
      PiecesRead(c, t, priv, pub, payload, payload[..i], payload[i + 4..j]);
    }
  }

  lemma PiecesRead(c: Params, t: Codec, priv: string, pub: string, payload: string, first: string, second: string)
    requires c.p > 0
    requires var pieces := Split(payload, IV_MARK); |pieces| >= 2 && pieces[0] == first && pieces[1] == second
    ensures DecryptFromString(c, t, priv, pub, payload) ==
              if first == "" || second == "" then Err(MissingIvSegment)
              else DecryptWithSharedSecret(c, t, priv, pub, first, second)
  {
  }

  /** The challenge handshake: a client that encrypts a message to the relay passes exactly when the message
      is the challenge. */
  lemma HonestResponseMatches(c: Params, t: Codec, client: string, relay: string, m: string, challenge: string,
                              iv: octets)
    requires GoodParams(c) && Prime(c.n) && GoodCodec(t) && |iv| == 16
    requires PublicKeyHex(c, client).Ok? && PublicKeyHex(c, relay).Ok?
    ensures var response := EncryptWithSharedSecret(c, t, client, PublicKeyHex(c, relay).value, m, iv);
            && response.Ok?
            && (ResponseMatches(c, t, relay, PublicKeyHex(c, client).value, challenge, response.value) <==> m == challenge)
  {
    SealedSound(c, t, client, relay, m, iv);
    SameKey(c, relay, client);
  }
}
