/** Point.multiply of pure-secp256k1.js: double-and-add, with one doubling more than it needs. */
module ScalarMult {
  import opened Results
  import opened AbelianGroup
  import opened Curve

  /** The loop of multiply from an intermediate state: the accumulated point and the current
      power-of-two multiple of the base. */
  function MultiplyFrom(acc: Point, base: Point, k: int, p: int): Result<Point>
    requires p > 0
    decreases k
  {
    if k <= 0 then Ok(acc) else
    var acc' :- if k % 2 == 1 then Add(acc, base, p) else Ok(acc);
    var base' :- Double(base, p);
    MultiplyFrom(acc', base', k / 2, p)
  }

  /** The scalar multiple as multiply computes it. Nothing is added for a negative k. */
  function Multiply(P: Point, k: int, p: int): Result<Point>
    requires p > 0
  {
    if k == 0 then Ok(Zero)
    else if k == 1 then Ok(P)
    else MultiplyFrom(Zero, P, k, p)
  }

  /** multiply. */
  method MultiplyLoop(P: Point, k: int, p: int) returns (res: Result<Point>)
    requires p > 0
    ensures res == Multiply(P, k, p)
  {
    if k == 0 { return Ok(Zero); }
    if k == 1 { return Ok(P); }
    var result, base, e := Zero, P, k;
    while e > 0
      invariant MultiplyFrom(result, base, e, p) == Multiply(P, k, p)
      decreases e
    {
      if e % 2 == 1 {
        var sum := Add(result, base, p);
        if sum.Err? { return sum; }
        result := sum.value;
      }
      var doubled := Double(base, p);
      if doubled.Err? { return doubled; }
      base := doubled.value;
      e := e / 2;
    }
    return Ok(result);
  }

  /** The multiple of a curve point is a curve point, for any modulus, whenever the inverses that
      it needs exist. */
  lemma MultiplyClosed(P: Point, k: int, p: int)
    requires p > 0 && OnCurve(P, p) && Multiply(P, k, p).Ok?
    ensures OnCurve(Multiply(P, k, p).value, p)
  {
    if k != 0 && k != 1 { MultiplyFromClosed(Zero, P, k, p); }
  }

  lemma {:induction false} MultiplyFromClosed(acc: Point, base: Point, k: int, p: int)
    requires p > 0 && OnCurve(acc, p) && OnCurve(base, p) && MultiplyFrom(acc, base, k, p).Ok?
    ensures OnCurve(MultiplyFrom(acc, base, k, p).value, p)
    decreases k
  {
    if k > 0 {
      var acc' := if k % 2 == 1 then Add(acc, base, p) else Ok(acc);
      if k % 2 == 1 { AddClosed(acc, base, p); }
      DoubleClosed(base, p);
      MultiplyFromClosed(acc'.value, Double(base, p).value, k / 2, p);
    }
  }

  /** On a good curve multiply never fails and is k-fold addition. */
  lemma MultiplyIsTimes(P: Point, k: nat, p: int)
    requires GoodCurve(p) && OnCurve(P, p)
    ensures Multiply(P, k, p) == Ok(Times(CurveGroup(p), k, P))
    ensures OnCurve(Times(CurveGroup(p), k, P), p)
  {
    var g := CurveGroup(p);
    CurveIsAbelian(p);
    TimesElem(g, k, P);
    TimesSmall(g, P);
    if k > 1 {
      MultiplyFromIsTimes(Zero, P, k, p);
      assert Identity(g, Times(g, k, P));
    }
  }

  lemma {:induction false} MultiplyFromIsTimes(acc: Point, base: Point, k: nat, p: int)
    requires GoodCurve(p) && OnCurve(acc, p) && OnCurve(base, p)
    ensures MultiplyFrom(acc, base, k, p) == Ok(CurveGroup(p).add(acc, Times(CurveGroup(p), k, base)))
    decreases k
  {
    if k == 0 {
      AddNothing(acc, p);
    } else {
      var h, odd := k / 2, k % 2 == 1;
      assert k == if odd then 2 * h + 1 else 2 * h;
      AddDefined(acc, base, p);
      AddDefined(base, base, p);
      DoubledOnCurve(acc, base, h, p);
      MultiplyFromIsTimes(if odd then Sum(acc, base, p) else acc, Sum(base, base, p), h, p);
    }
  }

  lemma AddNothing(acc: Point, p: int)
    requires GoodCurve(p) && OnCurve(acc, p)
    ensures CurveGroup(p).add(acc, Zero) == acc
  {
    CurveIsAbelian(p);
    assert Identity(CurveGroup(p), acc) && Commutes(CurveGroup(p), acc, Zero);
  }

  lemma DoubledOnCurve(acc: Point, base: Point, h: nat, p: int)
    requires GoodCurve(p) && OnCurve(acc, p) && OnCurve(base, p)
    ensures var g := CurveGroup(p);
            && g.add(acc, Times(g, h, g.add(base, base))) == g.add(acc, Times(g, 2 * h, base))
            && g.add(g.add(acc, base), Times(g, h, g.add(base, base))) == g.add(acc, Times(g, 2 * h + 1, base))
  {
    CurveIsAbelian(p);
    DoubledTimes(CurveGroup(p), acc, base, h);
  }
}
