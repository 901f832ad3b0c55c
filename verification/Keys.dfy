/** Public keys and ECDH: getPublicKey and getSharedSecret of pure-secp256k1.js. The curve
    parameters are a value, so that nothing is computed with the 256-bit constants. */
module Keys {
  import opened Results
  import opened NumberTheory
  import opened AbelianGroup
  import opened Curve
  import opened ScalarMult
  import opened Bytes
  import opened Lift

  datatype Params = Params(p: nat, n: nat, G: Point)

  /** What is assumed of the parameters: a good curve over a field where (p+1)/4 gives square roots,
      a generator of order n, and numbers that fit in 32 bytes. */
  ghost predicate GoodParams(c: Params)
  {
    && c.p > 0 && GoodCurve(c.p) && c.p % 4 == 3
    && OnCurve(c.G, c.p) && HasOrder(CurveGroup(c.p), c.G, c.n)
    && c.p <= Pow(256, 32) && c.n <= Pow(256, 32)
  }

  predicate ValidScalar(c: Params, k: int)
  {
    0 < k < c.n
  }

  /** The bytes of a key, as getPublicKey writes them. */
  function KeyBytes(P: Point, compressed: bool): bytes
    requires P.Affine?
  {
    if compressed then [if P.y % 2 == 0 then 2 else 3] + IntToBytes(P.x, 32)
    else [4] + IntToBytes(P.x, 32) + IntToBytes(P.y, 32)
  }

  function GetPublicKey(c: Params, priv: bytes, compressed: bool): (r: Result<bytes>)
    requires c.p > 0
    ensures r.Ok? ==> |r.value| == if compressed then 33 else 65
  {
    var k := BytesToInt(priv);
    if !ValidScalar(c, k) then Err(InvalidPrivateKey) else
    var P :- Multiply(c.G, k, c.p);
    if P.Zero? then Err(TypeError) else Ok(KeyBytes(P, compressed))
  }

  /** The key formats that getSharedSecret accepts: compressed, uncompressed and x-only. */
  function ParsePublicKey(c: Params, pub: bytes): Result<Point>
    requires c.p > 0
  {
    if |pub| == 33 && (pub[0] == 2 || pub[0] == 3) then
      match LiftX(BytesToInt(pub[1..]), c.p)
      case None => Err(InvalidPublicKey)
      case Some(lifted) =>
        if (lifted.y % 2 == 0 && pub[0] == 3) || (lifted.y % 2 == 1 && pub[0] == 2)
        then Ok(Affine(lifted.x, c.p - lifted.y))
        else Ok(lifted)
    else if |pub| == 65 && pub[0] == 4 then
      Ok(Affine(BytesToInt(pub[1..33]), BytesToInt(pub[33..65])))
    else if |pub| == 32 then
      match LiftX(BytesToInt(pub), c.p)
      case None => Err(InvalidPublicKey)
      case Some(lifted) => Ok(lifted)
    else Err(InvalidPublicKeyFormat)
  }

  function GetSharedSecret(c: Params, priv: bytes, pub: bytes): Result<bytes>
    requires c.p > 0
  {
    var k := BytesToInt(priv);
    if !ValidScalar(c, k) then Err(InvalidPrivateKey) else
    var P :- ParsePublicKey(c, pub);
    if P.Zero? || !Equation(P.x, P.y, c.p) then Err(PointNotOnCurve) else
    var shared :- Multiply(P, k, c.p);
    if shared.Zero? then Err(InvalidSharedSecret) else Ok(IntToBytes(shared.x, 32))
  }

  // ---------- Multiples of the generator ----------

  /** k times the generator. */
  function KG(c: Params, k: nat): Point
    requires c.p > 0
  {
    Times(CurveGroup(c.p), k, c.G)
  }

  lemma KGProper(c: Params, k: nat)
    requires GoodParams(c) && ValidScalar(c, k)
    ensures KG(c, k).Affine? && OnCurve(KG(c, k), c.p) && 0 < KG(c, k).y
    ensures Multiply(c.G, k, c.p) == Ok(KG(c, k))
  {
    MultiplyIsTimes(c.G, k, c.p);
  }

  /** getPublicKey succeeds exactly for the scalars below the group order. */
  lemma PublicKeyValue(c: Params, priv: bytes, compressed: bool)
    requires GoodParams(c)
    ensures GetPublicKey(c, priv, compressed).Ok? <==> ValidScalar(c, BytesToInt(priv))
    ensures ValidScalar(c, BytesToInt(priv)) ==>
              IsPublicKey(c, GetPublicKey(c, priv, compressed).value, BytesToInt(priv))
  {
    if ValidScalar(c, BytesToInt(priv)) {
      KGProper(c, BytesToInt(priv));
    }
  }

  /** pub is a form of the public key of k: x-only, compressed with either prefix, or uncompressed.
      The wrong prefix is included, since callers put 02 before every abscissa. */
  predicate IsPublicKey(c: Params, pub: bytes, k: nat)
    requires c.p > 0
  {
    KG(c, k).Affine? && IsForm(KG(c, k), pub)
  }

  predicate IsForm(P: Point, pub: bytes)
    requires P.Affine?
  {
    var x := IntToBytes(P.x, 32);
    || pub == x
    || pub == [2] + x
    || pub == [3] + x
    || pub == [4] + x + IntToBytes(P.y, 32)
  }

  /** A key that getPublicKey writes is read back as exactly the multiple of the generator. */
  lemma PublicKeyRoundTrip(c: Params, priv: bytes, compressed: bool)
    requires GoodParams(c) && GetPublicKey(c, priv, compressed).Ok?
    ensures ParsePublicKey(c, GetPublicKey(c, priv, compressed).value) == Ok(KG(c, BytesToInt(priv)))
  {
    var k := BytesToInt(priv);
    PublicKeyValue(c, priv, compressed);
    KGProper(c, k);
    LiftPublic(c, k);
    ParseWritten(c, KG(c, k), compressed);
  }

  lemma ParseWritten(c: Params, P: Point, compressed: bool)
    requires c.p > 0 && Readable(c, P)
    ensures ParsePublicKey(c, KeyBytes(P, compressed)) == Ok(P)
  {
    if compressed {
      ParseCompressed(c, if P.y % 2 == 0 then 2 else 3, IntToBytes(P.x, 32));
    } else {
      ParseUncompressed(c, IntToBytes(P.x, 32), IntToBytes(P.y, 32));
    }
  }

  /** Every form is read as the point itself or its negative. */
  lemma ParseValue(c: Params, pub: bytes, k: nat)
    requires GoodParams(c) && ValidScalar(c, k) && IsPublicKey(c, pub, k)
    ensures ParsePublicKey(c, pub) == Ok(KG(c, k)) || ParsePublicKey(c, pub) == Ok(Negate(KG(c, k), c.p))
  {
    LiftPublic(c, k);
    ParseForm(c, pub, KG(c, k));
  }

  lemma ParseForm(c: Params, pub: bytes, P: Point)
    requires c.p > 0 && Readable(c, P) && IsForm(P, pub)
    ensures ParsePublicKey(c, pub) == Ok(P) || ParsePublicKey(c, pub) == Ok(Negate(P, c.p))
  {
    var x, y := IntToBytes(P.x, 32), IntToBytes(P.y, 32);
    if pub == [2] + x || pub == [3] + x {
      ParseCompressed(c, pub[0], x);
    } else if pub == [4] + x + y {
      ParseUncompressed(c, x, y);
    }
  }

  lemma ParseCompressed(c: Params, prefix: byte, x: bytes)
    requires c.p > 0 && |x| == 32 && (prefix == 2 || prefix == 3)
    ensures var lifted := LiftX(BytesToInt(x), c.p);
            ParsePublicKey(c, [prefix] + x) ==
              if lifted.None? then Err(InvalidPublicKey)
              else if (lifted.value.y % 2 == 0) == (prefix == 2) then Ok(lifted.value)
              else Ok(Affine(lifted.value.x, c.p - lifted.value.y))
  {
    assert ([prefix] + x)[1..] == x;
  }

  lemma ParseUncompressed(c: Params, x: bytes, y: bytes)
    requires c.p > 0 && |x| == 32 && |y| == 32
    ensures ParsePublicKey(c, [4] + x + y) == Ok(Affine(BytesToInt(x), BytesToInt(y)))
  {
    var pub: bytes := [4] + x + y;
    assert pub[1..33] == x && pub[33..65] == y;
  }

  // ---------- Exactly which keys are accepted ----------

  /** The forms that stand for P itself: its abscissa after 02 or 03, by the parity of the ordinate; the abscissa
      alone, if the ordinate is even; both coordinates after 04. */
  predicate Encodes(pub: bytes, P: Point)
    requires P.Affine?
  {
    var x := IntToBytes(P.x, 32);
    || pub == [if P.y % 2 == 0 then 2 else 3] + x
    || (pub == x && P.y % 2 == 0)
    || pub == [4] + x + IntToBytes(P.y, 32)
  }

  /** A point of the curve is read from its forms, and from nothing else. */
  lemma ParseIff(c: Params, pub: bytes, P: Point)
    requires GoodParams(c) && OnCurve(P, c.p) && P.Affine?
    ensures ParsePublicKey(c, pub) == Ok(P) <==> Encodes(pub, P)
  {
    LiftPoint(c, P);
    PrimeOdd(c.p);
    if Encodes(pub, P) { ParseEncoded(c, pub, P); }
    if ParsePublicKey(c, pub) == Ok(P) { ParsedEncodes(c, pub, P); }
  }

  lemma ParseEncoded(c: Params, pub: bytes, P: Point)
    requires c.p > 0 && Readable(c, P) && Encodes(pub, P)
    ensures ParsePublicKey(c, pub) == Ok(P)
  {
    if pub != IntToBytes(P.x, 32) { ParseWritten(c, P, |pub| == 33); }
  }

  lemma ParsedEncodes(c: Params, pub: bytes, P: Point)
    requires c.p > 0 && c.p % 2 == 1 && ParsePublicKey(c, pub) == Ok(P) && P.Affine?
    ensures Encodes(pub, P)
  {
    if |pub| == 33 {
      ParsedCompressed(c, pub, P);
    } else if |pub| == 65 {
      BytesRoundTrip(pub[1..33]);
      BytesRoundTrip(pub[33..65]);
      assert pub == [4] + pub[1..33] + pub[33..65];
    } else {
      BytesRoundTrip(pub);
      LiftSound(BytesToInt(pub), c.p);
    }
  }

  lemma ParsedCompressed(c: Params, pub: bytes, P: Point)
    requires c.p > 0 && c.p % 2 == 1 && ParsePublicKey(c, pub) == Ok(P) && P.Affine? && |pub| == 33
    ensures pub == [if P.y % 2 == 0 then 2 else 3] + IntToBytes(P.x, 32)
  {
    var x := pub[1..];
    BytesRoundTrip(x);
    assert pub == [pub[0]] + x;
    LiftSound(BytesToInt(x), c.p);
    ParseCompressed(c, pub[0], x);
    OtherParity(LiftX(BytesToInt(x), c.p).value.y, c.p);
  }

  lemma OtherParity(y: int, p: int)
    requires y % 2 == 0 && p % 2 == 1
    ensures (p - y) % 2 == 1
  {
  }

  /** The coordinates of an uncompressed key are below the modulus. */
  predicate Reduced(c: Params, pub: bytes)
  {
    |pub| == 65 ==> BytesToInt(pub[1..33]) < c.p && BytesToInt(pub[33..65]) < c.p
  }

  /** The secret that the scalar k and the key pub of the point P give. */
  ghost predicate SecretOver(c: Params, k: nat, pub: bytes, P: Point, secret: bytes)
    requires c.p > 0
  {
    && P.Affine? && OnCurve(P, c.p) && Encodes(pub, P)
    && var R := Times(CurveGroup(c.p), k, P);
       R.Affine? && secret == IntToBytes(R.x, 32)
  }

  ghost predicate IsSecret(c: Params, k: nat, pub: bytes, secret: bytes)
    requires c.p > 0
  {
    ValidScalar(c, k) && exists P :: SecretOver(c, k, pub, P, secret)
  }

  /** getSharedSecret returns exactly for a valid scalar and a form of a curve point whose multiple is not infinity:
      other formats, abscissas without a point and points off the curve are refused. */
  lemma SecretIff(c: Params, priv: bytes, pub: bytes, secret: bytes)
    requires GoodParams(c)
    ensures Reduced(c, pub) ==>
              (GetSharedSecret(c, priv, pub) == Ok(secret) <==> IsSecret(c, BytesToInt(priv), pub, secret))
    ensures GetSharedSecret(c, priv, pub).Ok? && |pub| == 65 ==>
              var x, y := BytesToInt(pub[1..33]), BytesToInt(pub[33..65]);
              pub[0] == 4 && (y * y) % c.p == (x * x * x + 7) % c.p
  {
    var k := BytesToInt(priv);
    if GetSharedSecret(c, priv, pub).Ok? {
      var P := ParsePublicKey(c, pub).value;
      EquationMeans(P.x, P.y, c.p);
      if Reduced(c, pub) { SecretFrom(c, priv, pub, P, GetSharedSecret(c, priv, pub).value); }
    }
    if P :| ValidScalar(c, k) && SecretOver(c, k, pub, P, secret) {
      ParseIff(c, pub, P);
      MultiplyIsTimes(P, k, c.p);
    }
  }

  lemma SecretFrom(c: Params, priv: bytes, pub: bytes, P: Point, secret: bytes)
    requires GoodParams(c) && Reduced(c, pub) && ParsePublicKey(c, pub) == Ok(P)
    requires GetSharedSecret(c, priv, pub) == Ok(secret)
    ensures SecretOver(c, BytesToInt(priv), pub, P, secret)
  {
    PrimeOdd(c.p);
    ParsedEncodes(c, pub, P);
    ParsedReduced(c, pub, P);
    assert OnCurve(P, c.p);
    MultiplyIsTimes(P, BytesToInt(priv), c.p);
  }

  lemma ParsedReduced(c: Params, pub: bytes, P: Point)
    requires GoodParams(c) && Reduced(c, pub) && ParsePublicKey(c, pub) == Ok(P)
    ensures P.Affine? && P.x < c.p && P.y < c.p
  {
    PrimeOdd(c.p);
    if |pub| != 65 {
      var x := BytesToInt(if |pub| == 33 then pub[1..] else pub);
      LiftSound(x, c.p);
      LiftedNotZero(c, x);
    }
  }

  lemma LiftedNotZero(c: Params, x: nat)
    requires GoodParams(c) && LiftX(x, c.p).Some?
    ensures LiftX(x, c.p).value.y > 0
  {
    PrimeOdd(c.p);
    LiftSound(x, c.p);
  }

  /** The coordinates of P survive as 32 bytes, and liftX finds P or its negative. */
  ghost predicate Readable(c: Params, P: Point)
    requires c.p > 0
  {
    && P.Affine? && P.y < c.p
    && BytesToInt(IntToBytes(P.x, 32)) == P.x && BytesToInt(IntToBytes(P.y, 32)) == P.y
    && LiftX(P.x, c.p) == Some(EvenOne(P, c.p)) && EvenOne(P, c.p).y % 2 == 0
    && Negate(P, c.p) == Affine(P.x, c.p - P.y)
  }

  lemma LiftPublic(c: Params, k: nat)
    requires GoodParams(c) && ValidScalar(c, k)
    ensures Readable(c, KG(c, k))
  {
    KGProper(c, k);
    LiftPoint(c, KG(c, k));
  }

  lemma LiftPoint(c: Params, P: Point)
    requires c.p > 0 && Prime(c.p) && c.p % 4 == 3 && c.p <= Pow(256, 32)
    requires OnCurve(P, c.p) && P.Affine? && P.y > 0
    ensures Readable(c, P)
  {
    LiftEither(P, c.p);
    NegateOdd(P, c.p);
    CoordinatesFit(c, P);
  }

  lemma CoordinatesFit(c: Params, P: Point)
    requires c.p > 0 && c.p <= Pow(256, 32) && OnCurve(P, c.p) && P.Affine?
    ensures BytesToInt(IntToBytes(P.x, 32)) == P.x && BytesToInt(IntToBytes(P.y, 32)) == P.y
  {
    IntFits(P.x, 32);
    IntFits(P.y, 32);
  }

  function ScalarProduct(a: nat, b: nat): (m: nat)
    ensures m == a * b
  {
    MulLe(0, a, b);
    a * b
  }

  /** The secret is the abscissa of the product of the two keys. */
  function SecretOf(c: Params, k: nat): (r: Result<bytes>)
    requires c.p > 0
    ensures r.Ok? ==> |r.value| == 32
  {
    match KG(c, k)
    case Zero => Err(InvalidSharedSecret)
    case Affine(x, _) => Ok(IntToBytes(x, 32))
  }

  lemma SharedSecretValue(c: Params, priv: bytes, pub: bytes, k: nat)
    requires GoodParams(c) && ValidScalar(c, BytesToInt(priv))
    requires ValidScalar(c, k) && IsPublicKey(c, pub, k)
    ensures GetSharedSecret(c, priv, pub) == SecretOf(c, ScalarProduct(BytesToInt(priv), k))
  {
    ParseValue(c, pub, k);
    KGProper(c, k);
    NegateClosed(KG(c, k), c.p);
    MultiplyEither(c, BytesToInt(priv), k, ParsePublicKey(c, pub).value);
  }

  /** Multiples of a public point, or of its negative. */
  lemma MultiplyEither(c: Params, a: nat, k: nat, Q: Point)
    requires GoodParams(c) && OnCurve(KG(c, k), c.p) && OnCurve(Q, c.p)
    requires Q == KG(c, k) || Q == Negate(KG(c, k), c.p)
    ensures var R := KG(c, ScalarProduct(a, k));
            Multiply(Q, a, c.p) == Ok(R) || Multiply(Q, a, c.p) == Ok(Negate(R, c.p))
  {
    var g := CurveGroup(c.p);
    CurveIsAbelian(c.p);
    MultiplyIsTimes(Q, a, c.p);
    TimesTimes(g, a, k, c.G);
    TimesNeg(g, a, KG(c, k));
  }

  /** ECDH: both sides get the same secret, whatever form of the other's key each one holds. */
  lemma EcdhAgreement(c: Params, privA: bytes, privB: bytes, pubA: bytes, pubB: bytes)
    requires GoodParams(c)
    requires ValidScalar(c, BytesToInt(privA)) && IsPublicKey(c, pubA, BytesToInt(privA))
    requires ValidScalar(c, BytesToInt(privB)) && IsPublicKey(c, pubB, BytesToInt(privB))
    ensures GetSharedSecret(c, privA, pubB) == GetSharedSecret(c, privB, pubA)
    ensures Prime(c.n) ==> GetSharedSecret(c, privA, pubB).Ok?
  {
    var a, b := BytesToInt(privA), BytesToInt(privB);
    SharedSecretValue(c, privA, pubB, b);
    SharedSecretValue(c, privB, pubA, a);
    SecretSymmetric(c, a, b);
  }

  lemma SecretSymmetric(c: Params, a: nat, b: nat)
    requires GoodParams(c) && ValidScalar(c, a) && ValidScalar(c, b)
    ensures SecretOf(c, ScalarProduct(a, b)) == SecretOf(c, ScalarProduct(b, a))
    ensures Prime(c.n) ==> SecretOf(c, ScalarProduct(a, b)).Ok?
  {
    assert a * b == b * a;
    if Prime(c.n) { ProductNotZero(c, a, b); }
  }

  lemma ProductNotZero(c: Params, a: nat, b: nat)
    requires GoodParams(c) && Prime(c.n) && ValidScalar(c, a) && ValidScalar(c, b)
    ensures KG(c, a * b).Affine?
  {
    CurveIsAbelian(c.p);
    SmallMod(a, c.n);
    SmallMod(b, c.n);
    if (a * b) % c.n == 0 { PrimeDividesProduct(a, b, c.n); }
    MulLe(0, a, b);
    TimesMod(CurveGroup(c.p), a * b, c.n, c.G);
  }

  lemma ProductPoint(c: Params, i: nat, j: nat)
    requires GoodParams(c) && Prime(c.n) && ValidScalar(c, i) && ValidScalar(c, j)
    ensures var P := KG(c, ScalarProduct(i, j));
            P.Affine? && BytesToInt(IntToBytes(P.x, 32)) == P.x
  {
    ProductNotZero(c, i, j);
    MultiplyIsTimes(c.G, ScalarProduct(i, j), c.p);
    CoordinatesFit(c, KG(c, ScalarProduct(i, j)));
  }

  // ---------- The parameters of the code ----------

  /** CURVE of pure-secp256k1.js. */
  const SECP256K1 := Params(
    0xfffffffffffffffffffffffffffffffffffffffffffffffffffffffefffffc2f,
    0xfffffffffffffffffffffffffffffffebaaedce6af48a03bbfd25e8cd0364141,
    Affine(0x79be667ef9dcbbac55a06295ce870b07029bfcdb2dce28d959f2815b16f81798,
           0x483ada7726a3c4655da4fbfc0e1108a8fd17b448a68554199c47d08ffb10d4b8))

  /** What can be computed with them: the modulus has square roots by the power (p+1)/4, is the one of the standard,
      and the generator is on the curve. */
  lemma GeneratorOnCurve()
    ensures var c := SECP256K1;
            && c.p > 0 && c.p % 4 == 3 && 0 < c.n < c.p
            && c.G.Affine? && OnCurve(c.G, c.p)
  {
    var x, y, p := SECP256K1.G.x, SECP256K1.G.y, SECP256K1.p;
    EquationMeans(x, y, p);
    assert (y * y) % p == (x * x * x + 7) % p;
  }
}
