/** Schnorr signatures: schnorr.sign and schnorr.verify of pure-secp256k1.js, after BIP 340. The
    tagged hash is an arbitrary function and the auxiliary randomness a parameter. */
module Schnorr {
  import opened Results
  import opened NumberTheory
  import opened ModArith
  import opened AbelianGroup
  import opened Curve
  import opened ScalarMult
  import opened Bytes
  import opened Lift
  import opened Keys

  datatype Tag = Aux | Nonce | Challenge

  type TaggedHash = (Tag, bytes) -> bytes

  /** The scalar d or n - d: the one whose multiple of the generator has an even ordinate. */
  function EvenScalar(c: Params, d: nat, P: Point): nat
    requires P.Affine? && d <= c.n
  {
    if P.y % 2 == 0 then d else c.n - d
  }

  /** The nonce before its sign is chosen. */
  function NonceScalar(c: Params, h: TaggedHash, aux: bytes, msg: bytes, even: nat, x: nat): nat
    requires c.n > 0
  {
    var t := Xor(even, BytesToInt(h(Aux, aux)));
    Mod(BytesToInt(h(Nonce, IntToBytes(t, 32) + IntToBytes(x, 32) + msg)), c.n)
  }

  function ChallengeScalar(c: Params, h: TaggedHash, r: nat, x: nat, msg: bytes): nat
    requires c.n > 0
  {
    Mod(BytesToInt(h(Challenge, IntToBytes(r, 32) + IntToBytes(x, 32) + msg)), c.n)
  }

  function SignatureScalar(c: Params, k: nat, e: nat, even: nat): (s: nat)
    requires c.n > 0
    ensures s < c.n
  {
    Mod(k + ScalarProduct(e, even), c.n)
  }

  function Sign(c: Params, h: TaggedHash, aux: bytes, msg: bytes, priv: bytes): Result<bytes>
    requires c.p > 0
  {
    var d := BytesToInt(priv);
    if !ValidScalar(c, d) then Err(InvalidPrivateKey) else
    var P :- Multiply(c.G, d, c.p);
    if P.Zero? then Err(TypeError) else
    var even := EvenScalar(c, d, P);
    var k' := NonceScalar(c, h, aux, msg, even, P.x);
    if k' == 0 then Err(NonceFailure) else
    var R :- Multiply(c.G, k', c.p);
    if R.Zero? then Err(TypeError) else
    var k := EvenScalar(c, k', R);
    var e := ChallengeScalar(c, h, R.x, P.x, msg);
    Ok(IntToBytes(R.x, 32) + IntToBytes(SignatureScalar(c, k, e, even), 32))
  }

  /** The abscissa in a 32-byte or compressed key. */
  function KeyAbscissa(pub: bytes): Option<nat>
  {
    if |pub| == 32 then Some(BytesToInt(pub))
    else if |pub| == 33 && (pub[0] == 2 || pub[0] == 3) then Some(BytesToInt(pub[1..]))
    else None
  }

  /** s times the generator minus e times P; fails where the code would throw. */
  function VerifyPoint(c: Params, s: nat, e: nat, P: Point): Result<Point>
    requires c.p > 0
  {
    var sG :- Multiply(c.G, s, c.p);
    var eP :- Multiply(P, e, c.p);
    Add(sG, Negate(eP, c.p), c.p)
  }

  /** An exception counts as a rejection. */
  predicate Verify(c: Params, h: TaggedHash, sig: bytes, msg: bytes, pub: bytes)
    requires c.p > 0 && c.n > 0
  {
    |sig| == 64 &&
    var r, s := BytesToInt(sig[..32]), BytesToInt(sig[32..]);
    r < c.p && s < c.n && KeyAbscissa(pub).Some? &&
    match LiftX(KeyAbscissa(pub).value, c.p)
    case None => false
    case Some(P) =>
      match VerifyPoint(c, s, ChallengeScalar(c, h, r, P.x, msg), P)
      case Err(_) => false
      case Ok(R) => R.Affine? && R.y % 2 == 0 && R.x == r
  }

  // ---------- Completeness ----------

  /** Choosing the sign lands on the point that liftX finds. */
  lemma EvenScalarPoint(c: Params, d: nat)
    requires GoodParams(c) && ValidScalar(c, d)
    ensures KG(c, d).Affine?
    ensures var even := EvenScalar(c, d, KG(c, d));
            && ValidScalar(c, even)
            && KG(c, even).Affine? && OnCurve(KG(c, even), c.p)
            && KG(c, even).x == KG(c, d).x && KG(c, even).y % 2 == 0
            && LiftX(KG(c, d).x, c.p) == Some(KG(c, even))
  {
    var P := KG(c, d);
    LiftPublic(c, d);
    EvenScalarMultiple(c, d);
    if P.y % 2 == 0 {
      assert KG(c, EvenScalar(c, d, P)) == P;
    } else {
      assert KG(c, EvenScalar(c, d, P)) == Affine(P.x, c.p - P.y);
    }
  }

  lemma EvenScalarMultiple(c: Params, d: nat)
    requires GoodParams(c) && ValidScalar(c, d)
    ensures KG(c, d).Affine?
    ensures var P := KG(c, d); var even := EvenScalar(c, d, P);
            && ValidScalar(c, even) && OnCurve(KG(c, even), c.p)
            && KG(c, even) == EvenOne(P, c.p)
  {
    KGProper(c, d);
    ComplementPoint(c, d);
  }

  lemma ComplementPoint(c: Params, d: nat)
    requires GoodParams(c) && ValidScalar(c, d)
    ensures KG(c, c.n - d) == Negate(KG(c, d), c.p) && OnCurve(KG(c, c.n - d), c.p)
  {
    CurveIsAbelian(c.p);
    ComplementTimes(CurveGroup(c.p), c.G, d, c.n);
    KGProper(c, c.n - d);
  }

  lemma ComplementTimes(g: Group<Point>, P: Point, d: nat, n: nat)
    requires IsAbelian(g) && g.elem(P) && HasOrder(g, P, n) && d <= n
    ensures Times(g, n - d, P) == g.neg(Times(g, d, P))
  {
    TimesComplement(g, d, n, P);
  }

  /** s*G - e*P for s = k + e*d modulo n and P = d*G is k*G. */
  lemma SignedPoint(c: Params, k: nat, e: nat, d: nat)
    requires GoodParams(c)
    ensures VerifyPoint(c, SignatureScalar(c, k, e, d), e, KG(c, d)) == Ok(KG(c, k))
  {
    var s, m := SignatureScalar(c, k, e, d), ScalarProduct(e, d);
    MultiplyIsTimes(c.G, d, c.p);
    VerifyPointValue(c, s, e, KG(c, d));
    MultipleOfPublic(c, e, d, m);
    ScalarPoint(c, k, m, s, KG(c, m));
  }

  lemma ScalarPoint(c: Params, k: nat, m: nat, s: nat, P: Point)
    requires GoodParams(c) && s == Mod(k + m, c.n) && P == KG(c, m)
    ensures var g := CurveGroup(c.p); g.add(KG(c, s), g.neg(P)) == KG(c, k)
  {
    ReducedMultiple(c, k + m);
    MultiplesCancel(c, k, m);
  }

  lemma MultipleOfPublic(c: Params, e: nat, d: nat, m: nat)
    requires GoodParams(c) && m == e * d
    ensures Times(CurveGroup(c.p), e, KG(c, d)) == KG(c, m)
  {
    CurveIsAbelian(c.p);
    TimesTimes(CurveGroup(c.p), e, d, c.G);
  }

  /** Reducing a scalar modulo the order does not change the multiple. */
  lemma ReducedMultiple(c: Params, k: nat)
    requires GoodParams(c)
    ensures KG(c, Mod(k, c.n)) == KG(c, k)
  {
    CurveIsAbelian(c.p);
    TimesMod(CurveGroup(c.p), k, c.n, c.G);
  }

  lemma MultiplesCancel(c: Params, k: nat, m: nat)
    requires GoodParams(c)
    ensures var g := CurveGroup(c.p); g.add(KG(c, k + m), g.neg(KG(c, m))) == KG(c, k)
  {
    CurveIsAbelian(c.p);
    SumCancels(CurveGroup(c.p), k, m, c.G);
  }

  lemma VerifyPointValue(c: Params, s: nat, e: nat, P: Point)
    requires GoodParams(c) && OnCurve(P, c.p)
    ensures var g := CurveGroup(c.p);
            VerifyPoint(c, s, e, P) == Ok(g.add(KG(c, s), g.neg(Times(g, e, P))))
    ensures OnCurve(KG(c, s), c.p) && OnCurve(Times(CurveGroup(c.p), e, P), c.p)
  {
    MultiplyIsTimes(c.G, s, c.p);
    MultiplyIsTimes(P, e, c.p);
    var eP := Times(CurveGroup(c.p), e, P);
    NegateClosed(eP, c.p);
    AddDefined(KG(c, s), Negate(eP, c.p), c.p);
  }

  /** The nonce hash of BIP 340, for the private scalar d. */
  ghost function NonceHash(c: Params, h: TaggedHash, aux: bytes, msg: bytes, d: nat): nat
    requires c.p > 0 && d <= c.n && KG(c, d).Affine?
  {
    var P := KG(c, d);
    var even := if P.y % 2 == 0 then d else c.n - d;
    BytesToInt(h(Nonce, IntToBytes(Xor(even, BytesToInt(h(Aux, aux))), 32) + IntToBytes(P.x, 32) + msg))
  }

  /** Signing succeeds exactly for a valid key and a nonzero nonce. */
  lemma SignSucceeds(c: Params, h: TaggedHash, aux: bytes, msg: bytes, priv: bytes)
    requires GoodParams(c)
    ensures var d := BytesToInt(priv);
            Sign(c, h, aux, msg, priv).Ok? <==>
              ValidScalar(c, d) && KG(c, d).Affine? && NonceHash(c, h, aux, msg, d) % c.n != 0
  {
    var d := BytesToInt(priv);
    if ValidScalar(c, d) {
      KGProper(c, d);
      NonceIsHash(c, h, aux, msg, d);
      var k' := NonceScalar(c, h, aux, msg, EvenScalar(c, d, KG(c, d)), KG(c, d).x);
      if k' != 0 { KGProper(c, k'); }
    }
  }

  lemma NonceIsHash(c: Params, h: TaggedHash, aux: bytes, msg: bytes, d: nat)
    requires c.p > 0 && 0 < d < c.n && KG(c, d).Affine?
    ensures NonceScalar(c, h, aux, msg, EvenScalar(c, d, KG(c, d)), KG(c, d).x) == NonceHash(c, h, aux, msg, d) % c.n
  {
  }

  /** The first half of a signature is the abscissa of the multiple that the nonce hash gives. */
  lemma SignedNonce(c: Params, h: TaggedHash, aux: bytes, msg: bytes, priv: bytes)
    requires GoodParams(c) && Sign(c, h, aux, msg, priv).Ok?
    ensures ValidScalar(c, BytesToInt(priv)) && KG(c, BytesToInt(priv)).Affine?
    ensures var k := NonceHash(c, h, aux, msg, BytesToInt(priv)) % c.n;
            && ValidScalar(c, k) && KG(c, k).Affine?
            && |Sign(c, h, aux, msg, priv).value| == 64
            && Sign(c, h, aux, msg, priv).value[..32] == IntToBytes(KG(c, k).x, 32)
  {
    var d := BytesToInt(priv);
    KGProper(c, d);
    SignSucceeds(c, h, aux, msg, priv);
    var k := NonceHash(c, h, aux, msg, d) % c.n;
    KGProper(c, k);
    var sig := Sign(c, h, aux, msg, priv).value;
    assert sig[..32] == IntToBytes(KG(c, k).x, 32);
  }

  /** Exactly when two signatures of one key have the same first half: if the two nonce hashes are equal or
      opposite modulo the order. The key, the message and the auxiliary value all enter the hash. */
  lemma SameNonceIff(c: Params, h: TaggedHash, aux: bytes, msg: bytes, aux': bytes, msg': bytes, priv: bytes)
    requires GoodParams(c) && Sign(c, h, aux, msg, priv).Ok? && Sign(c, h, aux', msg', priv).Ok?
    ensures ValidScalar(c, BytesToInt(priv)) && KG(c, BytesToInt(priv)).Affine?
    ensures |Sign(c, h, aux, msg, priv).value| == |Sign(c, h, aux', msg', priv).value| == 64
    ensures var k := NonceHash(c, h, aux, msg, BytesToInt(priv)) % c.n;
            var k' := NonceHash(c, h, aux', msg', BytesToInt(priv)) % c.n;
            Sign(c, h, aux, msg, priv).value[..32] == Sign(c, h, aux', msg', priv).value[..32] <==>
              k == k' || k + k' == c.n
  {
    SignedNonce(c, h, aux, msg, priv);
    SignedNonce(c, h, aux', msg', priv);
    SameAbscissaIff(c, NonceHash(c, h, aux, msg, BytesToInt(priv)) % c.n,
                    NonceHash(c, h, aux', msg', BytesToInt(priv)) % c.n);
  }

  /** Two multiples of the generator have the same abscissa when they are equal or opposite. */
  lemma SameAbscissaIff(c: Params, k: nat, m: nat)
    requires GoodParams(c) && ValidScalar(c, k) && ValidScalar(c, m)
    ensures KG(c, k).Affine? && KG(c, m).Affine?
    ensures IntToBytes(KG(c, k).x, 32) == IntToBytes(KG(c, m).x, 32) <==> k == m || k + m == c.n
  {
    LiftPublic(c, k);
    LiftPublic(c, m);
    AbscissasEqual(c, k, m);
  }

  lemma AbscissasEqual(c: Params, k: nat, m: nat)
    requires GoodParams(c) && ValidScalar(c, k) && ValidScalar(c, m)
    ensures KG(c, k).Affine? && KG(c, m).Affine?
    ensures KG(c, k).x == KG(c, m).x <==> k == m || k + m == c.n
  {
    KGProper(c, k);
    KGProper(c, m);
    ComplementPoint(c, k);
    if KG(c, k).x == KG(c, m).x {
      SameAbscissa(KG(c, k), KG(c, m), c.p);
      if KG(c, k) == KG(c, m) { SameMultiple(c, k, m); } else { SameMultiple(c, c.n - k, m); }
    }
  }

  lemma SameMultiple(c: Params, k: nat, m: nat)
    requires GoodParams(c) && k < c.n && m < c.n && KG(c, k) == KG(c, m)
    ensures k == m
  {
    CurveIsAbelian(c.p);
    if k <= m {
      MultiplesDistinct(CurveGroup(c.p), k, m, c.n, c.G);
    } else {
      MultiplesDistinct(CurveGroup(c.p), m, k, c.n, c.G);
    }
  }

  /** The parts of a signature, as verify reads them back. */
  lemma SignatureParts(c: Params, h: TaggedHash, aux: bytes, msg: bytes, priv: bytes)
    returns (d: nat, k: nat)
    requires GoodParams(c) && Sign(c, h, aux, msg, priv).Ok?
    ensures ValidScalar(c, BytesToInt(priv)) && ValidScalar(c, d) && ValidScalar(c, k)
    ensures KG(c, d).Affine? && KG(c, k).Affine? && KG(c, BytesToInt(priv)).Affine?
    ensures KG(c, k).y % 2 == 0 && KG(c, k).x < c.p
    ensures KG(c, d).x == KG(c, BytesToInt(priv)).x && LiftX(KG(c, d).x, c.p) == Some(KG(c, d))
    ensures Sign(c, h, aux, msg, priv).value ==
              IntToBytes(KG(c, k).x, 32) +
              IntToBytes(SignatureScalar(c, k, ChallengeScalar(c, h, KG(c, k).x, KG(c, d).x, msg), d), 32)
  {
    var d0 := BytesToInt(priv);
    KGProper(c, d0);
    EvenScalarPoint(c, d0);
    d := EvenScalar(c, d0, KG(c, d0));
    var k0 := NonceScalar(c, h, aux, msg, d, KG(c, d0).x);
    KGProper(c, k0);
    EvenScalarPoint(c, k0);
    k := EvenScalar(c, k0, KG(c, k0));
  }

  lemma SplitSignature(r: nat, s: nat)
    requires r < Pow(256, 32) && s < Pow(256, 32)
    ensures var sig := IntToBytes(r, 32) + IntToBytes(s, 32);
            |sig| == 64 && BytesToInt(sig[..32]) == r && BytesToInt(sig[32..]) == s
  {
    var sig := IntToBytes(r, 32) + IntToBytes(s, 32);
    assert sig[..32] == IntToBytes(r, 32) && sig[32..] == IntToBytes(s, 32);
    IntFits(r, 32);
    IntFits(s, 32);
  }

  /** Every signature that sign returns verifies under the signer's key, x-only or compressed. */
  lemma SchnorrComplete(c: Params, h: TaggedHash, aux: bytes, msg: bytes, priv: bytes, pub: bytes)
    requires GoodParams(c) && Sign(c, h, aux, msg, priv).Ok?
    requires IsPublicKey(c, pub, BytesToInt(priv)) && |pub| <= 33
    ensures Verify(c, h, Sign(c, h, aux, msg, priv).value, msg, pub)
  {
    var d, k := SignatureParts(c, h, aux, msg, priv);
    var P, R := KG(c, d), KG(c, k);
    var e := ChallengeScalar(c, h, R.x, P.x, msg);
    ReadAbscissa(c, pub, BytesToInt(priv));
    SignedPoint(c, k, e, d);
    VerifyParts(c, h, SignatureScalar(c, k, e, d), msg, pub, P, R);
  }

  lemma VerifyParts(c: Params, h: TaggedHash, s: nat, msg: bytes, pub: bytes, P: Point, R: Point)
    requires c.p > 0 && c.p <= Pow(256, 32) && s < c.n <= Pow(256, 32)
    requires KeyAbscissa(pub).Some? && LiftX(KeyAbscissa(pub).value, c.p) == Some(P)
    requires R.Affine? && R.y % 2 == 0 && R.x < c.p
    requires VerifyPoint(c, s, ChallengeScalar(c, h, R.x, P.x, msg), P) == Ok(R)
    ensures Verify(c, h, IntToBytes(R.x, 32) + IntToBytes(s, 32), msg, pub)
  {
    SplitSignature(R.x, s);
  }

  lemma ReadAbscissa(c: Params, pub: bytes, k: nat)
    requires GoodParams(c) && ValidScalar(c, k) && IsPublicKey(c, pub, k) && |pub| <= 33
    ensures KeyAbscissa(pub) == Some(KG(c, k).x)
  {
    var x := IntToBytes(KG(c, k).x, 32);
    LiftPublic(c, k);
    if pub != x { assert pub[1..] == x; }
  }

  // ---------- The verification equation ----------

  /** verify accepts exactly when s*G == R + e*P, with R and P the even points lifted from the
      signature and the key. */
  lemma VerifyEquation(c: Params, h: TaggedHash, sig: bytes, msg: bytes, pub: bytes)
    requires GoodParams(c)
    ensures Verify(c, h, sig, msg, pub) <==>
      && |sig| == 64
      && BytesToInt(sig[32..]) < c.n
      && (|pub| == 32 || (|pub| == 33 && (pub[0] == 2 || pub[0] == 3)))
      && LiftX(BytesToInt(pub[|pub| - 32..]), c.p).Some?
      && LiftX(BytesToInt(sig[..32]), c.p).Some?
      && var P := LiftX(BytesToInt(pub[|pub| - 32..]), c.p).value;
         var R := LiftX(BytesToInt(sig[..32]), c.p).value;
         var e := BytesToInt(h(Challenge, sig[..32] + IntToBytes(P.x, 32) + msg)) % c.n;
         KG(c, BytesToInt(sig[32..])) == CurveGroup(c.p).add(R, Times(CurveGroup(c.p), e, P))
  {
    LastBytes(pub);
    if |sig| == 64 && KeyAbscissa(pub).Some? && LiftX(KeyAbscissa(pub).value, c.p).Some? {
      var r, s := BytesToInt(sig[..32]), BytesToInt(sig[32..]);
      var P := LiftX(KeyAbscissa(pub).value, c.p).value;
      BytesRoundTrip(sig[..32]);
      EquationCase(c, r, s, ChallengeScalar(c, h, r, P.x, msg), P, KeyAbscissa(pub).value);
    }
  }

  lemma LastBytes(pub: bytes)
    ensures KeyAbscissa(pub) == if |pub| == 32 || (|pub| == 33 && (pub[0] == 2 || pub[0] == 3))
                                then Some(BytesToInt(pub[|pub| - 32..])) else None
  {
    if |pub| == 32 { assert pub[0..] == pub; }
  }

  lemma EquationCase(c: Params, r: nat, s: nat, e: nat, P: Point, x: nat)
    requires GoodParams(c) && LiftX(x, c.p) == Some(P)
    ensures VerifyPoint(c, s, e, P).Ok?
    ensures var R := VerifyPoint(c, s, e, P).value;
            (R.Affine? && R.y % 2 == 0 && R.x == r && r < c.p) <==>
            (LiftX(r, c.p).Some? &&
             KG(c, s) == CurveGroup(c.p).add(LiftX(r, c.p).value, Times(CurveGroup(c.p), e, P)))
  {
    var g := CurveGroup(c.p);
    CurveIsAbelian(c.p);
    PrimeOdd(c.p);
    LiftSound(x, c.p);
    VerifyPointValue(c, s, e, P);
    var sG, eP := KG(c, s), Times(g, e, P);
    NegateClosed(eP, c.p);
    AddDefined(sG, Negate(eP, c.p), c.p);
    var R := VerifyPoint(c, s, e, P).value;
    assert R == g.add(sG, g.neg(eP));
    if R.Affine? && R.y % 2 == 0 && R.x == r && r < c.p {
      LiftComplete(R, c.p);
      AddThenSubtract(g, sG, g.neg(eP));
    }
    if LiftX(r, c.p).Some? && sG == g.add(LiftX(r, c.p).value, eP) {
      LiftSound(r, c.p);
      AddThenSubtract(g, LiftX(r, c.p).value, eP);
    }
  }

  /** A message and a key have at most one accepted signature for each first half. */
  lemma SignatureUnique(c: Params, h: TaggedHash, sig: bytes, sig': bytes, msg: bytes, pub: bytes)
    requires GoodParams(c)
    requires Verify(c, h, sig, msg, pub) && Verify(c, h, sig', msg, pub) && sig[..32] == sig'[..32]
    ensures sig == sig'
  {
    VerifyEquation(c, h, sig, msg, pub);
    VerifyEquation(c, h, sig', msg, pub);
    SameMultiple(c, BytesToInt(sig[32..]), BytesToInt(sig'[32..]));
    HalvesDetermine(sig, sig');
  }

  /** A signature binds the message: one that is accepted for msg under a public key is accepted for another
      message exactly when the challenge hashes of both agree modulo the order. */
  lemma MessageBound(c: Params, h: TaggedHash, sig: bytes, msg: bytes, msg': bytes, pub: bytes, k: nat)
    requires GoodParams(c) && Prime(c.n) && ValidScalar(c, k) && IsPublicKey(c, pub, k) && |pub| <= 33
    requires Verify(c, h, sig, msg, pub)
    ensures |sig| == 64 && KG(c, k).Affine?
    ensures var x := IntToBytes(KG(c, k).x, 32);
            Verify(c, h, sig, msg', pub) <==>
              BytesToInt(h(Challenge, sig[..32] + x + msg)) % c.n == BytesToInt(h(Challenge, sig[..32] + x + msg')) % c.n
  {
    VerifyEquation(c, h, sig, msg, pub);
    VerifyEquation(c, h, sig, msg', pub);
    ReadAbscissa(c, pub, k);
    EvenScalarPoint(c, k);
    var d := EvenScalar(c, k, KG(c, k));
    var R, x := LiftX(BytesToInt(sig[..32]), c.p).value, IntToBytes(KG(c, k).x, 32);
    PrimeOdd(c.p);
    LiftSound(BytesToInt(sig[..32]), c.p);
    var e, e' := BytesToInt(h(Challenge, sig[..32] + x + msg)) % c.n, BytesToInt(h(Challenge, sig[..32] + x + msg')) % c.n;
    if Verify(c, h, sig, msg', pub) { FactorsEqual(c, R, e, e', d); }
  }

  lemma FactorsEqual(c: Params, R: Point, e: nat, e': nat, d: nat)
    requires GoodParams(c) && Prime(c.n) && OnCurve(R, c.p) && e < c.n && e' < c.n && ValidScalar(c, d)
    requires var g := CurveGroup(c.p); g.add(R, Times(g, e, KG(c, d))) == g.add(R, Times(g, e', KG(c, d)))
    ensures e == e'
  {
    var m, m' := ScalarProduct(e, d), ScalarProduct(e', d);
    MultipleOfPublic(c, e, d, m);
    MultipleOfPublic(c, e', d, m');
    MultiplyIsTimes(c.G, m, c.p);
    MultiplyIsTimes(c.G, m', c.p);
    CancelSum(c, R, KG(c, m), KG(c, m'));
    ReducedMultiple(c, m);
    ReducedMultiple(c, m');
    SameMultiple(c, Mod(m, c.n), Mod(m', c.n));
    CancelFactor(e, e', d, m, m', c.n);
  }

  lemma CancelSum(c: Params, R: Point, P: Point, Q: Point)
    requires GoodParams(c) && OnCurve(R, c.p) && OnCurve(P, c.p) && OnCurve(Q, c.p)
    requires CurveGroup(c.p).add(R, P) == CurveGroup(c.p).add(R, Q)
    ensures P == Q
  {
    var g := CurveGroup(c.p);
    CurveIsAbelian(c.p);
    assert Commutes(g, R, P) && Commutes(g, R, Q);
    AddThenSubtract(g, P, R);
    AddThenSubtract(g, Q, R);
  }

  lemma CancelFactor(e: nat, e': nat, d: nat, m: nat, m': nat, n: nat)
    requires Prime(n) && e < n && e' < n && 0 < d < n && m == e * d && m' == e' * d && m % n == m' % n
    ensures e == e'
  {
    CongMod(m, m', n);
    assert m - m' == (e - e') * d;
    PrimeDividesProduct(e - e', d, n);
    SmallMod(d, n);
    CongMod(e, e', n);
    CongCanonical(e, e', n);
  }

  lemma HalvesDetermine(b: bytes, b': bytes)
    requires |b| == |b'| == 64 && b[..32] == b'[..32] && BytesToInt(b[32..]) == BytesToInt(b'[32..])
    ensures b == b'
  {
    BytesRoundTrip(b[32..]);
    BytesRoundTrip(b'[32..]);
    assert b == b[..32] + b[32..] && b' == b'[..32] + b'[32..];
  }
}
