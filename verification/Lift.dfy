/** liftX of pure-secp256k1.js: from an abscissa to the curve point with even ordinate. */
module Lift {
  import opened Results
  import opened NumberTheory
  import opened ModArith
  import opened Curve

  function LiftX(x: nat, p: int): (r: Option<Point>)
    requires p > 0
    ensures r.Some? ==> r.value.Affine? && r.value.x == x < p && r.value.y <= p
  {
    if x >= p then None else
    var y2 := Mod(x * x * x + B, p);
    var y := ModPow(y2, (p + 1) / 4, p);
    if Mod(y * y, p) != y2 then None
    else Some(EvenPoint(x, y, p))
  }

  /** Of the two roots y and p - y, the even one. */
  function EvenPoint(x: nat, y: nat, p: int): Point
    requires y < p
  {
    Affine(x, if y % 2 == 0 then y else p - y)
  }

  lemma EvenPointOnCurve(x: nat, y: nat, p: int)
    requires x < p && y < p && p % 2 == 1 && Equation(x, y, p)
    ensures OnCurve(EvenPoint(x, y, p), p) && EvenPoint(x, y, p).y % 2 == 0
  {
    if y % 2 == 1 {
      MinusValue(y, p);
      MinusSquare(y, p);
      OddMinus(p, y);
    }
  }

  /** Whatever liftX returns is the curve point with that abscissa and an even ordinate. */
  lemma LiftSound(x: nat, p: int)
    requires p > 0 && p % 2 == 1 && LiftX(x, p).Some?
    ensures var P := LiftX(x, p).value; P.Affine? && OnCurve(P, p) && P.x == x && P.y % 2 == 0
  {
    EvenPointOnCurve(x, ModPow(Mod(x * x * x + B, p), (p + 1) / 4, p), p);
  }

  /** When p % 4 == 3, the power (p+1)/4 of a square is one of its roots. */
  lemma RootOfSquare(a: int, z: int, p: int)
    requires Prime(p) && p % 4 == 3 && Cong(z * z, a, p)
    ensures var y := Pow(a, (p + 1) / 4); Cong(y * y, a, p)
  {
    var e := (p + 1) / 4;
    var y := Pow(a, e);
    CongSym(z * z, a, p);
    PowCong(a, z * z, e, p);
    PowSquare(z, e);
    var w := Pow(z, 2 * e);
    CongMul(y, w, y, w, p);
    PowAdd(z, 2 * e, 2 * e);
    assert 4 * e == p + 1;
    assert Pow(z, p + 1) == z * (z * Pow(z, p - 1)) == z * z * Pow(z, p - 1) by {
      assert Pow(z, p + 1) == z * Pow(z, p) && Pow(z, p) == z * Pow(z, p - 1);
      MulRegroup(z, z, Pow(z, p - 1), 1);
    }
    PowerTimesSquare(z, p);
    CongTrans(y * y, Pow(z, p + 1), z * z, p);
    CongTrans(y * y, z * z, a, p);
  }

  lemma PowerTimesSquare(z: int, p: int)
    requires Prime(p)
    ensures Cong(z * z * Pow(z, p - 1), z * z, p)
  {
    if z % p == 0 {
      CongMod(z, 0, p);
      SmallMod(0, p);
      CongMod(z, z, p);
      CongMul(z, 0, z, z, p);
      var w := Pow(z, p - 1);
      CongMod(w, w, p);
      CongMul(z * z, 0, w, w, p);
      CongSym(z * z, 0, p);
      CongTrans(z * z * w, 0, z * z, p);
    } else {
      Fermat(z, p);
      CongMod(z * z, z * z, p);
      CongMul(z * z, z * z, Pow(z, p - 1), 1, p);
    }
  }

  /** liftX finds every curve point with an even ordinate. */
  lemma LiftComplete(P: Point, p: int)
    requires Prime(p) && p % 4 == 3 && OnCurve(P, p) && P.Affine? && P.y % 2 == 0
    ensures LiftX(P.x, p) == Some(P)
  {
    LiftSucceeds(P, p);
    PrimeOdd(p);
    LiftSound(P.x, p);
    EvenUnique(P, LiftX(P.x, p).value, p);
  }

  lemma EvenUnique(P: Point, Q: Point, p: int)
    requires Prime(p) && p > 2 && OnCurve(P, p) && OnCurve(Q, p) && P.Affine? && Q.Affine? && P.x == Q.x
    requires P.y % 2 == 0 && Q.y % 2 == 0
    ensures P == Q
  {
    SameAbscissa(P, Q, p);
  }

  lemma LiftSucceeds(P: Point, p: int)
    requires Prime(p) && p % 4 == 3 && OnCurve(P, p) && P.Affine?
    ensures LiftX(P.x, p).Some?
  {
    var y2 := Mod(P.x * P.x * P.x + B, p);
    ModCong(P.y * P.y, p);
    RootOfSquare(y2, P.y, p);
    var w := Pow(y2, (p + 1) / 4);
    ModCong(w, p);
    CongMul(w % p, w, w % p, w, p);
    CongTrans((w % p) * (w % p), w * w, y2, p);
    CongMod((w % p) * (w % p), y2, p);
    SmallMod(y2, p);
  }

  lemma SameOrOpposite(P: Point, Q: Point, p: int)
    requires Prime(p) && p > 2 && OnCurve(P, p) && OnCurve(Q, p) && P.Affine? && Q.Affine? && P.x == Q.x
    ensures P.y == Q.y || P.y + Q.y == p
  {
    CongMod(P.y * P.y, Q.y * Q.y, p);
    SquareRoots(P.y, Q.y, p);
  }

  /** Two curve points with the same abscissa are equal or opposite. */
  lemma SameAbscissa(P: Point, Q: Point, p: int)
    requires Prime(p) && p > 2 && OnCurve(P, p) && OnCurve(Q, p) && P.Affine? && Q.Affine? && P.x == Q.x
    ensures P == Q || Q == Negate(P, p)
    ensures P.y % 2 == Q.y % 2 ==> P == Q
  {
    SameOrOpposite(P, Q, p);
    PrimeOdd(p);
    OppositeOrdinates(P.y, Q.y, p);
  }

  lemma OppositeOrdinates(y: int, z: int, p: int)
    requires 0 <= y < p && 0 <= z < p && p % 2 == 1 && (y == z || y + z == p)
    ensures y == z || z == Minus(y, p)
    ensures y % 2 == z % 2 ==> y == z
  {
    MinusValue(y, p);
    OddMinus(p, y);
  }

  /** liftX fails exactly when the abscissa is out of range or x^3 + 7 is not a square. */
  lemma LiftIff(x: nat, p: int)
    requires Prime(p) && p % 4 == 3
    ensures LiftX(x, p).Some? <==> x < p && exists y :: 0 <= y < p && Equation(x, y, p)
  {
    PrimeOdd(p);
    if LiftX(x, p).Some? {
      LiftSound(x, p);
      var P := LiftX(x, p).value;
      assert Equation(x, P.y, p);
    }
    if x < p && exists y :: 0 <= y < p && Equation(x, y, p) {
      var y :| 0 <= y < p && Equation(x, y, p);
      LiftSucceeds(Affine(x, y), p);
    }
  }

  /** For a point with an odd ordinate, liftX gives its negative. */
  lemma LiftOdd(P: Point, p: int)
    requires Prime(p) && p % 4 == 3 && OnCurve(P, p) && P.Affine? && P.y % 2 == 1
    ensures LiftX(P.x, p) == Some(Negate(P, p))
  {
    PrimeOdd(p);
    NegateParity(P, p);
    NegateClosed(P, p);
    LiftComplete(Negate(P, p), p);
  }

  /** The negative of a point with y != 0 has the other parity. */
  lemma NegateParity(P: Point, p: int)
    requires p % 2 == 1 && P.Affine? && 0 < P.y < p
    ensures Negate(P, p).Affine? && Negate(P, p).x == P.x && Negate(P, p).y == p - P.y
    ensures Negate(P, p).y % 2 == 1 - P.y % 2
  {
    MinusValue(P.y, p);
    OddMinus(p, P.y);
  }

  lemma NegateOdd(P: Point, p: int)
    requires Prime(p) && p > 2 && P.Affine? && 0 < P.y < p
    ensures Negate(P, p) == Affine(P.x, p - P.y) && (p - P.y) % 2 == 1 - P.y % 2
  {
    PrimeOdd(p);
    NegateParity(P, p);
  }

  /** Of a point and its negative, the one with the even ordinate. */
  function EvenOne(P: Point, p: int): (Q: Point)
    requires p > 0 && P.Affine?
    ensures Q.Affine?
  {
    if P.y % 2 == 0 then P else Negate(P, p)
  }

  /** liftX on the abscissa of any curve point gives the point or its negative, whichever is even. */
  lemma LiftEither(P: Point, p: int)
    requires Prime(p) && p % 4 == 3 && OnCurve(P, p) && P.Affine? && P.y > 0
    ensures LiftX(P.x, p) == Some(EvenOne(P, p)) && EvenOne(P, p).y % 2 == 0
  {
    NegateOdd(P, p);
    if P.y % 2 == 0 { LiftComplete(P, p); } else { LiftOdd(P, p); }
  }
}
