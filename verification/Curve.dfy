/** Affine points of y^2 == x^3 + 7 modulo p, with the chord and tangent formulas of class Point in
    pure-secp256k1.js. The formulas divide with ModInverse, so they can fail. */
module Curve {
  import opened Results
  import opened NumberTheory
  import opened ModArith
  import opened AbelianGroup

  const B := 7

  datatype Point = Zero | Affine(x: nat, y: nat)

  /** The curve equation, in the form in which the code compares its sides. */
  predicate Equation(x: int, y: int, p: int)
    requires p > 0
  {
    Mod(y * y, p) == Mod(x * x * x + B, p)
  }

  /** The equation says that y^2 and x^3 + 7 leave the same remainder. */
  lemma EquationMeans(x: int, y: int, p: int)
    requires p > 0
    ensures Equation(x, y, p) <==> (y * y) % p == (x * x * x + 7) % p
  {
  }

  /** The point at infinity, or a point of the curve with canonical coordinates. */
  predicate OnCurve(P: Point, p: int)
    requires p > 0
  {
    P.Zero? || (P.x < p && P.y < p && Equation(P.x, P.y, p))
  }

  function Minus(y: int, p: int): (r: int)
    requires p > 0
    ensures 0 <= r < p
  {
    Mod(-y, p)
  }

  function Negate(P: Point, p: int): Point
    requires p > 0
  {
    if P.Zero? then P else Affine(P.x, Minus(P.y, p))
  }

  /** num divided by den: the slope of a chord or a tangent. */
  function Slope(num: int, den: int, p: int): Result<int>
    requires p > 0
  {
    var inv :- ModInverse(den, p);
    Ok(Mod(num * inv, p))
  }

  /** The last two lines of both formulas: s is the slope, sum the sum of the two abscissas. */
  function ThirdPoint(s: int, x: int, y: int, sum: int, p: int): Point
    requires p > 0
  {
    var x3 := Mod(s * s - sum, p);
    Affine(x3, Mod(s * (x - x3) - y, p))
  }

  function Double(P: Point, p: int): Result<Point>
    requires p > 0
  {
    if P.Zero? then Ok(P) else
    var s :- Slope(3 * P.x * P.x, 2 * P.y, p);
    Ok(ThirdPoint(s, P.x, P.y, 2 * P.x, p))
  }

  function Add(P: Point, Q: Point, p: int): Result<Point>
    requires p > 0
  {
    if P.Zero? then Ok(Q)
    else if Q.Zero? then Ok(P)
    else if P == Q then Double(P, p)
    else if P.x == Q.x then Ok(Zero)
    else
      var dx := Mod(Q.x - P.x, p);
      var dy := Mod(Q.y - P.y, p);
      var s :- Slope(dy, dx, p);
      Ok(ThirdPoint(s, P.x, P.y, P.x + Q.x, p))
  }

  // ---------- Slopes ----------

  lemma SlopeSpec(num: int, den: int, p: int)
    requires p > 0 && Slope(num, den, p).Ok?
    ensures var s := Slope(num, den, p).value; 0 <= s < p && Cong(s * den, num, p)
  {
    var inv := ModInverse(den, p).value;
    var s := Slope(num, den, p).value;
    ModCong(num * inv, p);
    CongMod(den, den, p);
    CongMul(s, num * inv, den, den, p);
    CongMod(den * inv, 1, p);
    CongMod(num, num, p);
    CongMul(num, num, den * inv, 1, p);
    MulSwap(num, inv, den);
    CongTrans(s * den, num * inv * den, num, p);
  }

  /** The slope is the only canonical t with t * den == num modulo p. */
  lemma SlopeIs(num: int, den: int, t: int, p: int)
    requires p > 0 && Coprime(den, p) && 0 <= t < p && Cong(t * den, num, p)
    ensures Slope(num, den, p) == Ok(t)
  {
    var inv := ModInverse(den, p).value;
    var s := Slope(num, den, p).value;
    CongMod(den * inv, 1, p);
    CongMod(t, t, p);
    CongMul(t, t, den * inv, 1, p);
    CongMod(inv, inv, p);
    CongMul(t * den, num, inv, inv, p);
    assert t * (den * inv) == t * den * inv;
    CongSym(t * (den * inv), t, p);
    CongTrans(t, t * den * inv, num * inv, p);
    ModCong(num * inv, p);
    CongTrans(t, num * inv, s, p);
    CongCanonical(t, s, p);
  }

  lemma EquationCong(x: int, y: int, p: int)
    requires p > 0
    ensures Equation(x, y, p) <==> Cong(x * x * x + B - y * y, 0, p)
  {
    CongMod(y * y, x * x * x + B, p);
    if Equation(x, y, p) {
      CongSym(y * y, x * x * x + B, p);
    }
    if Cong(x * x * x + B - y * y, 0, p) {
      CongSym(x * x * x + B, y * y, p);
    }
  }

  // ---------- Closure ----------

  /** The third intersection of the line with slope s through (x, y): the cubic of the line, taken
      at t = x3 - x. */
  lemma TangentIdentity(x: int, y: int, s: int)
    ensures var x3 := s * s - 2 * x;
            var y3 := s * (x - x3) - y;
            x3 * x3 * x3 + B - y3 * y3
            == (3 * x * x - s * (2 * y)) * (s * s - 3 * x) + (x * x * x + B - y * y)
  {
    var t := s * s - 3 * x;
    LineCubic(x, y, s, t);
    assert s * s - 2 * x == x + t;
    assert s * (x - (x + t)) - y == -(y + s * t);
    assert (y + s * t) * (y + s * t) == (-(y + s * t)) * (-(y + s * t));
    assert t * t * (t + 3 * x - s * s) == 0;
  }

  lemma CubeOfSum(x: int, t: int)
    ensures (x + t) * (x + t) * (x + t) == x * x * x + 3 * (x * x * t) + 3 * (x * t * t) + t * t * t
  {
  }

  lemma SquareOfSum(y: int, s: int, t: int)
    ensures (y + s * t) * (y + s * t) == y * y + 2 * (s * y * t) + s * s * t * t
  {
  }

  lemma LineCubic(x: int, y: int, s: int, t: int)
    ensures (x + t) * (x + t) * (x + t) + B - (y + s * t) * (y + s * t)
         == t * t * (t + 3 * x - s * s) + (3 * x * x - s * (2 * y)) * t + (x * x * x + B - y * y)
  {
    CubeOfSum(x, t);
    SquareOfSum(y, s, t);
    calc {
      t * t * (t + 3 * x - s * s);
      t * t * t + 3 * (x * t * t) - s * s * t * t;
    }
    calc {
      (3 * x * x - s * (2 * y)) * t;
      3 * (x * x * t) - 2 * (s * y * t);
    }
  }

  /** What both formulas share: if the line cubic vanishes at the unreduced third point, the reduced
      third point is on the curve. */
  lemma ReducedThirdPoint(x: int, y: int, s: int, sum: int, p: int)
    requires p > 0
    requires var x3 := s * s - sum;
             var y3 := s * (x - x3) - y; Cong(x3 * x3 * x3 + B - y3 * y3, 0, p)
    ensures OnCurve(ThirdPoint(s, x, y, sum, p), p)
  {
    var x3 := s * s - sum;
    var xr := Mod(x3, p);
    var y3 := s * (x - x3) - y;
    var ym := s * (x - xr) - y;
    var yr := Mod(ym, p);
    ModCong(x3, p);
    CongMod(x, x, p);
    CongMod(s, s, p);
    CongMod(y, y, p);
    CongAdd(x, x, xr, x3, p);
    CongMul(s, s, x - xr, x - x3, p);
    CongAdd(s * (x - xr), s * (x - x3), y, y, p);
    ModCong(ym, p);
    CongTrans(yr, ym, y3, p);
    CurveValueCong(xr, yr, x3, y3, p);
    CongTrans(xr * xr * xr + B - yr * yr, x3 * x3 * x3 + B - y3 * y3, 0, p);
    EquationCong(xr, yr, p);
  }

  lemma CurveValueCong(x: int, y: int, x': int, y': int, p: int)
    requires p > 0 && Cong(x, x', p) && Cong(y, y', p)
    ensures Cong(x * x * x + B - y * y, x' * x' * x' + B - y' * y', p)
  {
    CongMul(x, x', x, x', p);
    CongMul(x * x, x' * x', x, x', p);
    CongMul(y, y', y, y', p);
    CongMod(B, B, p);
    CongAdd(x * x * x, x' * x' * x', B, B, p);
    CongAdd(x * x * x + B, x' * x' * x' + B, y * y, y' * y', p);
  }

  /** Doubling stays on the curve, whenever the inverse exists. */
  lemma DoubleClosed(P: Point, p: int)
    requires p > 0 && OnCurve(P, p) && Double(P, p).Ok?
    ensures OnCurve(Double(P, p).value, p)
  {
    if P.Affine? {
      var x, y := P.x, P.y;
      SlopeSpec(3 * x * x, 2 * y, p);
      var s := Slope(3 * x * x, 2 * y, p).value;
      CongSym(s * (2 * y), 3 * x * x, p);
      assert Cong(3 * x * x - s * (2 * y), 0, p);
      EquationCong(x, y, p);
      TangentIdentity(x, y, s);
      CombineZeros(3 * x * x - s * (2 * y), s * s - 3 * x, x * x * x + B - y * y, p);
      ReducedThirdPoint(x, y, s, 2 * x, p);
    }
  }

  lemma CombineZeros(a: int, k: int, b: int, p: int)
    requires p > 0 && Cong(a, 0, p) && Cong(b, 0, p)
    ensures Cong(a * k + b, 0, p)
  {
    CongMod(k, k, p);
    CongMul(a, 0, k, k, p);
    CongAdd(a * k, 0, b, 0, p);
  }

  /** A factor that is invertible can be cancelled from a congruence to zero. */
  lemma CancelCoprime(d: int, c: int, p: int)
    requires p > 0 && Coprime(d, p) && Cong(d * c, 0, p)
    ensures Cong(c, 0, p)
  {
    var inv := ModInverse(d, p).value;
    CongMod(inv, inv, p);
    CongMul(inv, inv, d * c, 0, p);
    CongMod(d * inv, 1, p);
    CongMod(c, c, p);
    CongMul(d * inv, 1, c, c, p);
    assert inv * (d * c) == d * inv * c;
    CongSym(d * inv * c, c, p);
    CongTrans(c, inv * (d * c), 0, p);
  }

  /** The cubic of the chord vanishes at both given points, hence also at the third. */
  lemma ChordThirdRoot(x: int, y: int, s: int, d: int, p: int)
    requires p > 0 && Coprime(d, p)
    requires Cong(x * x * x + B - y * y, 0, p)
    requires Cong((x + d) * (x + d) * (x + d) + B - (y + s * d) * (y + s * d), 0, p)
    ensures var x3 := s * s - x - (x + d);
            var y3 := s * (x - x3) - y;
            Cong(x3 * x3 * x3 + B - y3 * y3, 0, p)
  {
    var e := x * x * x + B - y * y;
    var u := d * (d + 3 * x - s * s) + (3 * x * x - s * (2 * y));
    ChordFactor(x, y, s, d);
    CongAdd(d * u + e, 0, e, 0, p);
    CancelCoprime(d, u, p);
    var t := s * s - 3 * x - d;
    ChordIdentity(x, y, s, d);
    CombineZeros(u, t, e, p);
  }

  lemma ChordFactor(x: int, y: int, s: int, d: int)
    ensures (x + d) * (x + d) * (x + d) + B - (y + s * d) * (y + s * d)
         == d * (d * (d + 3 * x - s * s) + (3 * x * x - s * (2 * y))) + (x * x * x + B - y * y)
  {
    LineCubic(x, y, s, d);
    FactorOut(d, d + 3 * x - s * s, 3 * x * x - s * (2 * y));
  }

  lemma FactorOut(d: int, a: int, c: int)
    ensures d * d * a + c * d == d * (d * a + c)
  {
  }

  lemma ChordIdentity(x: int, y: int, s: int, d: int)
    ensures var x3 := s * s - x - (x + d);
            var y3 := s * (x - x3) - y;
            x3 * x3 * x3 + B - y3 * y3
            == (d * (d + 3 * x - s * s) + (3 * x * x - s * (2 * y))) * (s * s - 3 * x - d)
               + (x * x * x + B - y * y)
  {
    var t := s * s - 3 * x - d;
    var c := 3 * x * x - s * (2 * y);
    var x3 := s * s - x - (x + d);
    LineCubic(x, y, s, t);
    assert x3 == x + t && x - x3 == -t;
    NegSquare(y, s, t);
    ChordRest(d, t, d + 3 * x - s * s, c);
  }

  lemma NegSquare(y: int, s: int, t: int)
    ensures (s * -t - y) * (s * -t - y) == (y + s * t) * (y + s * t)
  {
    assert s * -t == -(s * t);
    var w := s * t;
    assert (-w - y) * (-w - y) == (y + w) * (y + w);
  }

  lemma ChordRest(d: int, t: int, a: int, c: int)
    requires t == -a
    ensures t * t * -d + c * t == (d * a + c) * t
  {
    assert t * t * -d == d * a * t;
  }

  lemma CoprimeMod(d: int, p: int)
    requires p > 0
    ensures Coprime(d % p, p) <==> Coprime(d, p)
  {
    forall k | Divides(k, p)
      ensures Divides(k, d) <==> Divides(k, d % p)
    {
      DividesRemainder(k, d, p);
    }
  }

  lemma ChordSlope(P: Point, Q: Point, p: int)
    requires p > 0 && P.Affine? && Q.Affine? && P.x != Q.x && Add(P, Q, p).Ok?
    ensures var dx, dy := Q.x - P.x, Q.y - P.y;
            && Coprime(dx, p)
            && Slope(Mod(dy, p), Mod(dx, p), p).Ok?
            && Cong(Slope(Mod(dy, p), Mod(dx, p), p).value * dx, dy, p)
  {
    var dx, dy := Q.x - P.x, Q.y - P.y;
    CoprimeMod(dx, p);
    SlopeSpec(Mod(dy, p), Mod(dx, p), p);
    var s := Slope(Mod(dy, p), Mod(dx, p), p).value;
    ModCong(dx, p);
    ModCong(dy, p);
    CongMod(s, s, p);
    CongMul(s, s, dx, Mod(dx, p), p);
    CongTrans(s * dx, s * Mod(dx, p), Mod(dy, p), p);
    CongTrans(s * dx, Mod(dy, p), dy, p);
  }

  /** Addition stays on the curve, whenever the inverse exists. */
  lemma AddClosed(P: Point, Q: Point, p: int)
    requires p > 0 && OnCurve(P, p) && OnCurve(Q, p) && Add(P, Q, p).Ok?
    ensures OnCurve(Add(P, Q, p).value, p)
  {
    if P.Zero? || Q.Zero? {
    } else if P == Q {
      DoubleClosed(P, p);
    } else if P.x != Q.x {
      ChordSlope(P, Q, p);
      EquationCong(P.x, P.y, p);
      EquationCong(Q.x, Q.y, p);
      ChordClosed(P.x, P.y, Q.x, Q.y, Slope(Mod(Q.y - P.y, p), Mod(Q.x - P.x, p), p).value, p);
    }
  }

  lemma ChordClosed(x1: int, y1: int, x2: int, y2: int, s: int, p: int)
    requires p > 0 && Coprime(x2 - x1, p) && Cong(s * (x2 - x1), y2 - y1, p)
    requires Cong(x1 * x1 * x1 + B - y1 * y1, 0, p) && Cong(x2 * x2 * x2 + B - y2 * y2, 0, p)
    ensures OnCurve(ThirdPoint(s, x1, y1, x1 + x2, p), p)
  {
    var d := x2 - x1;
    CongMod(y1, y1, p);
    CongAdd(y1, y1, s * d, y2 - y1, p);
    CongMod(x2, x2, p);
    CurveValueCong(x2, y1 + s * d, x2, y2, p);
    CongTrans(x2 * x2 * x2 + B - (y1 + s * d) * (y1 + s * d), x2 * x2 * x2 + B - y2 * y2, 0, p);
    assert x1 + d == x2;
    ChordThirdRoot(x1, y1, s, d, p);
    assert s * s - x1 - x2 == s * s - (x1 + x2);
    ReducedThirdPoint(x1, y1, s, x1 + x2, p);
  }

  lemma NegateClosed(P: Point, p: int)
    requires p > 0 && OnCurve(P, p)
    ensures OnCurve(Negate(P, p), p)
    ensures Negate(Negate(P, p), p) == P
  {
    if P.Affine? {
      MinusValue(P.y, p);
      MinusValue(Minus(P.y, p), p);
      MinusSquare(P.y, p);
    }
  }

  lemma MinusSquare(y: int, p: int)
    requires p > 0
    ensures Mod(Minus(y, p) * Minus(y, p), p) == Mod(y * y, p)
  {
    ModCong(-y, p);
    CongMul(Minus(y, p), -y, Minus(y, p), -y, p);
    assert (-y) * (-y) == y * y;
    CongMod(Minus(y, p) * Minus(y, p), y * y, p);
  }

  lemma MinusValue(y: int, p: int)
    requires 0 <= y < p
    ensures Minus(y, p) == if y == 0 then 0 else p - y
  {
    if y == 0 {
      SmallMod(0, p);
    } else {
      DivModUnique(-y, p, -1, p - y);
    }
  }

  // ---------- When the formulas fail ----------

  /** On a prime field of odd characteristic, doubling fails exactly at the points with y == 0. */
  lemma DoubleFails(P: Point, p: int)
    requires Prime(p) && p > 2 && OnCurve(P, p)
    ensures Double(P, p).Err? <==> P.Affine? && P.y == 0
  {
    if P.Affine? {
      if P.y == 0 {
        assert Divides(p, 2 * P.y) && Divides(p, p) by { MultipleMod(0, p); MultipleMod(1, p); }
      } else {
        if (2 * P.y) % p == 0 {
          PrimeDividesProduct(2, P.y, p);
          SmallMod(2, p);
          SmallMod(P.y, p);
        }
        PrimeInverse(2 * P.y, p);
        InverseIffCoprime(2 * P.y, p);
      }
    }
  }

  /** ... and adding two different points never fails. */
  lemma AddFails(P: Point, Q: Point, p: int)
    requires Prime(p) && p > 2 && OnCurve(P, p) && OnCurve(Q, p)
    ensures Add(P, Q, p).Err? <==> P.Affine? && P == Q && P.y == 0
  {
    if P == Q {
      DoubleFails(P, p);
    } else if P.Affine? && Q.Affine? && P.x != Q.x {
      var dx := Q.x - P.x;
      if dx % p == 0 {
        CongMod(Q.x, P.x, p);
        CongCanonical(Q.x, P.x, p);
      }
      ModCong(dx, p);
      SmallMod(Mod(dx, p), p);
      PrimeInverse(Mod(dx, p), p);
      InverseIffCoprime(Mod(dx, p), p);
    }
  }

  // ---------- What the formulas mean ----------

  /** (x, y) is on the line through (x1, y1) with slope num / den, modulo p. */
  ghost predicate OnLine(x: int, y: int, x1: int, y1: int, num: int, den: int, p: int)
    requires p > 0
  {
    Cong((y - y1) * den, num * (x - x1), p)
  }

  ghost predicate SlopeSquared(total: int, num: int, den: int, p: int)
    requires p > 0
  {
    exists s :: Cong(s * den, num, p) && Cong(total, s * s, p)
  }

  lemma NegateThrough(s: int, d: int, y: int, r: int, p: int)
    requires p > 0 && Cong(s * d - y, r, p)
    ensures Cong(-r - y, s * -d, p)
  {
    var k := Factor(s * d - y, r, p);
    assert s * -d == -(s * d);
    CongBy(-r - y, s * -d, p, k);
  }

  lemma SumThrough(q: int, sum: int, r: int, p: int)
    requires p > 0 && Cong(q - sum, r, p)
    ensures Cong(sum + r, q, p)
  {
    var k := Factor(q - sum, r, p);
    assert (sum + r) - q == (-k) * p;
    CongBy(sum + r, q, p, -k);
  }

  /** A slope s == num / den, with the division cleared. */
  lemma ClearSlope(s: int, t: int, d: int, num: int, den: int, p: int)
    requires p > 0 && Cong(s * den, num, p) && Cong(t, s * d, p)
    ensures Cong(t * den, num * d, p)
  {
    CongMod(den, den, p);
    CongMod(d, d, p);
    CongMul(t, s * d, den, den, p);
    CongMul(s * den, num, d, d, p);
    assert s * d * den == s * den * d;
    CongTrans(t * den, s * den * d, num * d, p);
  }

  /** The negative of the third point is on the line through (x, y) with the given slope, and the
      abscissas add up to the square of the slope. */
  lemma ThirdOnLine(s: int, x: int, y: int, sum: int, num: int, den: int, p: int)
    requires p > 0 && Cong(s * den, num, p)
    ensures var R := ThirdPoint(s, x, y, sum, p);
            R.Affine? && OnLine(R.x, Opposite(R.y), x, y, num, den, p) && SlopeSquared(sum + R.x, num, den, p)
  {
    var x3 := Mod(s * s - sum, p);
    var y3 := Mod(s * (x - x3) - y, p);
    ModCong(s * (x - x3) - y, p);
    NegateThrough(s, x - x3, y, y3, p);
    assert -(x - x3) == x3 - x;
    ClearSlope(s, Opposite(y3) - y, x3 - x, num, den, p);
    ModCong(s * s - sum, p);
    SumThrough(s * s, sum, x3, p);
    assert Cong(s * den, num, p) && Cong(sum + x3, s * s, p);
  }

  /** The chord: for points with different abscissas, P, Q and the negative of P + Q are on one line,
      and the three abscissas add up to the square of its slope. */
  lemma AddIsChord(P: Point, Q: Point, R: Point, p: int)
    requires p > 0 && P.Affine? && Q.Affine? && P.x != Q.x && Add(P, Q, p) == Ok(R)
    ensures R.Affine? && OnLine(R.x, Opposite(R.y), P.x, P.y, Q.y - P.y, Q.x - P.x, p)
    ensures SlopeSquared(P.x + Q.x + R.x, Q.y - P.y, Q.x - P.x, p)
  {
    var dx, dy := Q.x - P.x, Q.y - P.y;
    ChordSlope(P, Q, p);
    ThirdOnLine(Slope(Mod(dy, p), Mod(dx, p), p).value, P.x, P.y, P.x + Q.x, dy, dx, p);
  }

  /** The tangent: the same for a point and its double. */
  lemma DoubleIsTangent(P: Point, R: Point, p: int)
    requires p > 0 && P.Affine? && Double(P, p) == Ok(R)
    ensures R.Affine? && OnLine(R.x, Opposite(R.y), P.x, P.y, 3 * P.x * P.x, 2 * P.y, p)
    ensures SlopeSquared(2 * P.x + R.x, 3 * P.x * P.x, 2 * P.y, p)
  {
    SlopeSpec(3 * P.x * P.x, 2 * P.y, p);
    ThirdOnLine(Slope(3 * P.x * P.x, 2 * P.y, p).value, P.x, P.y, 2 * P.x, 3 * P.x * P.x, 2 * P.y, p);
  }

  // ---------- Commutativity and inverses ----------

  lemma AddCommutesOk(P: Point, Q: Point, p: int)
    requires p > 0 && OnCurve(P, p) && OnCurve(Q, p) && Add(P, Q, p).Ok?
    ensures Add(Q, P, p) == Add(P, Q, p)
  {
    if P.Affine? && Q.Affine? && P.x != Q.x {
      ChordSlope(P, Q, p);
      SlopeSpec(Mod(Q.y - P.y, p), Mod(Q.x - P.x, p), p);
      var s := Slope(Mod(Q.y - P.y, p), Mod(Q.x - P.x, p), p).value;
      SlopeBackwards(Q.y - P.y, Q.x - P.x, s, p);
      assert -(Q.y - P.y) == P.y - Q.y && -(Q.x - P.x) == P.x - Q.x;
      SameThird(P.x, P.y, Q.x, Q.y, s, p);
    }
  }

  /** The same slope, read from the second point to the first. */
  lemma SlopeBackwards(dy: int, dx: int, s: int, p: int)
    requires p > 0 && Coprime(dx, p) && 0 <= s < p && Cong(s * dx, dy, p)
    ensures Slope(Mod(-dy, p), Mod(-dx, p), p) == Ok(s)
  {
    CoprimeNeg(dx, p);
    CoprimeMod(-dx, p);
    CongMod(0, 0, p);
    CongAdd(0, 0, s * dx, dy, p);
    assert 0 - s * dx == s * -dx;
    ModCong(-dx, p);
    ModCong(-dy, p);
    CongMod(s, s, p);
    CongMul(s, s, Mod(-dx, p), -dx, p);
    CongTrans(s * Mod(-dx, p), s * -dx, -dy, p);
    CongTrans(s * Mod(-dx, p), -dy, Mod(-dy, p), p);
    SlopeIs(Mod(-dy, p), Mod(-dx, p), s, p);
  }

  lemma SameThird(x1: int, y1: int, x2: int, y2: int, s: int, p: int)
    requires p > 0 && Cong(s * (x2 - x1), y2 - y1, p)
    ensures ThirdPoint(s, x1, y1, x1 + x2, p) == ThirdPoint(s, x2, y2, x2 + x1, p)
  {
    var x3 := Mod(s * s - (x1 + x2), p);
    assert (s * (x2 - x3) - y2) - (s * (x1 - x3) - y1) == s * (x2 - x1) - (y2 - y1);
    assert Cong(s * (x2 - x3) - y2, s * (x1 - x3) - y1, p);
    CongMod(s * (x2 - x3) - y2, s * (x1 - x3) - y1, p);
  }

  lemma AddCommutes(P: Point, Q: Point, p: int)
    requires p > 0 && OnCurve(P, p) && OnCurve(Q, p)
    ensures Add(Q, P, p) == Add(P, Q, p)
  {
    if Add(P, Q, p).Ok? {
      AddCommutesOk(P, Q, p);
    } else if Add(Q, P, p).Ok? {
      AddCommutesOk(Q, P, p);
    }
  }

  /** P + (-P) is the point at infinity, unless P is its own negative, where doubling fails. */
  lemma AddNegate(P: Point, p: int)
    requires p > 2 && p % 2 == 1 && OnCurve(P, p) && (P.Affine? ==> P.y != 0)
    ensures Add(P, Negate(P, p), p) == Ok(Zero)
  {
    if P.Affine? {
      MinusValue(P.y, p);
    }
  }

  // ---------- The curve as a group ----------

  /** The sum of two points, with infinity where the formula fails. */
  function Sum(P: Point, Q: Point, p: int): Point
    requires p > 0
  {
    match Add(P, Q, p)
    case Ok(R) => R
    case Err(_) => Zero
  }

  function CurveGroup(p: int): Group<Point>
    requires p > 0
  {
    Group((P, Q) => Sum(P, Q, p), P => Negate(P, p), Zero, P => OnCurve(P, p))
  }

  /** What is assumed of the field and the curve, and not proved: p is an odd prime, no point has
      y == 0, and the chord and tangent law is associative. secp256k1 has these properties. */
  ghost predicate GoodCurve(p: int)
  {
    && Prime(p) && p > 2
    && (forall P: Point :: OnCurve(P, p) && P.Affine? ==> P.y != 0)
    && (forall P, Q, R :: Associates(CurveGroup(p), P, Q, R))
  }

  lemma PrimeOdd(p: int)
    requires Prime(p) && p > 2
    ensures p % 2 == 1
  {
    assert Divides(2, p) ==> 2 == 1 || 2 == p;
  }

  /** On a good curve no formula fails. */
  lemma AddDefined(P: Point, Q: Point, p: int)
    requires GoodCurve(p) && OnCurve(P, p) && OnCurve(Q, p)
    ensures Add(P, Q, p) == Ok(Sum(P, Q, p))
    ensures Double(P, p) == Ok(Sum(P, P, p))
    ensures OnCurve(Sum(P, Q, p), p)
  {
    AddFails(P, Q, p);
    AddFails(P, P, p);
    AddClosed(P, Q, p);
  }

  /** With associativity assumed, the points form an abelian group: closure, commutativity,
      identity and inverses are proved. */
  lemma CurveIsAbelian(p: int)
    requires GoodCurve(p)
    ensures IsAbelian(CurveGroup(p))
  {
    var g := CurveGroup(p);
    PrimeOdd(p);
    forall P
      ensures Identity(g, P)
    {
      if OnCurve(P, p) { AddNegate(P, p); }
    }
    forall P, Q
      ensures Closed(g, P, Q) && Commutes(g, P, Q)
    {
      if OnCurve(P, p) && OnCurve(Q, p) {
        NegateClosed(P, p);
        AddDefined(P, Q, p);
        AddCommutes(P, Q, p);
      }
    }
  }
}
