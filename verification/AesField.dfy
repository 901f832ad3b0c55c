/** The field arithmetic of class AES256CBC: gmul, and the mix-columns step on one column. The algebra
    is done over any group in which an addition undoes itself and any linear map in the place of
    doubling; exclusive or and XTime are the instance. */
module AesField {
  import opened AbelianGroup
  import opened AesTables

  function XorGroup(): Group<octet>
  {
    Group((a, b) => a ^ b, a => a, 0, a => true)
  }

  ghost predicate LinearAt<T>(g: Group<T>, f: T -> T, a: T, b: T)
  {
    f(g.add(a, b)) == g.add(f(a), f(b))
  }

  /** A group of exponent two with a linear map. */
  ghost predicate Binary<T(!new)>(g: Group<T>, f: T -> T)
  {
    && IsAbelian(g)
    && f(g.zero) == g.zero
    && (forall a, b :: LinearAt(g, f, a, b))
    && (forall a :: Doubles(g, a))
  }

  lemma XTimeLinearAt(a: octet, b: octet)
    ensures LinearAt(XorGroup(), XTime, a, b)
  {
    XTimeLinear(a, b);
    assert XorGroup().add(a, b) == a ^ b;
  }

  lemma XorIsAbelian()
    ensures IsAbelian(XorGroup())
    ensures forall a :: Doubles(XorGroup(), a)
  {
  }

  lemma XTimeZero()
    ensures XTime(0) == 0
  {
  }

  lemma XorIsBinary()
    ensures Binary(XorGroup(), XTime)
  {
    XorIsAbelian();
    XTimeZero();
    forall a, b
      ensures LinearAt(XorGroup(), XTime, a, b)
    {
      XTimeLinearAt(a, b);
    }
  }

  // ---------- Polynomials acting on a group ----------

  /** The polynomial whose coefficients are the bits of b, applied to a: f is multiplication by the
      indeterminate. */
  function Act<T>(g: Group<T>, f: T -> T, a: T, b: octet): T
    decreases b, a
  {
    if b == 0 then g.zero
    else g.add(if b & 1 != 0 then a else g.zero, f(Act(g, f, a, b >> 1)))
  }

  lemma ActUnfold<T(!new)>(g: Group<T>, f: T -> T, a: T, b: octet)
    requires Binary(g, f)
    ensures Act(g, f, a, b) == g.add(if b & 1 != 0 then a else g.zero, f(Act(g, f, a, b >> 1)))
  {
    if b == 0 { assert Doubles(g, g.zero); }
  }

  lemma ActOne<T(!new)>(g: Group<T>, f: T -> T, a: T)
    requires Binary(g, f)
    ensures Act(g, f, a, 0) == g.zero && Act(g, f, a, 1) == a
  {
    ActUnfold(g, f, a, 1);
    assert Doubles(g, a) && Identity(g, a) && Commutes(g, a, g.zero);
  }

  /** Multiplication by the indeterminate shifts the polynomial. */
  lemma ActTwice<T(!new)>(g: Group<T>, f: T -> T, a: T, b: octet)
    requires Binary(g, f) && b < 0x80
    ensures Act(g, f, a, b << 1) == f(Act(g, f, a, b))
  {
    var r := f(Act(g, f, a, b));
    ActUnfold(g, f, a, b << 1);
    assert (b << 1) & 1 == 0 && (b << 1) >> 1 == b;
    assert Doubles(g, r) && Identity(g, r);
  }

  /** ... and commutes with the action. */
  lemma {:induction false} ActShift<T(!new)>(g: Group<T>, f: T -> T, a: T, b: octet)
    requires Binary(g, f)
    ensures f(Act(g, f, a, b)) == Act(g, f, f(a), b)
    decreases b
  {
    if b != 0 {
      ActShift(g, f, a, b >> 1);
      assert LinearAt(g, f, if b & 1 != 0 then a else g.zero, f(Act(g, f, a, b >> 1)));
    }
  }

  lemma {:induction false} ActAdd<T(!new)>(g: Group<T>, f: T -> T, a: T, c: T, b: octet)
    requires Binary(g, f)
    ensures Act(g, f, g.add(a, c), b) == g.add(Act(g, f, a, b), Act(g, f, c, b))
    decreases b
  {
    assert Doubles(g, g.zero) && Identity(g, g.zero);
    if b != 0 {
      ActAdd(g, f, a, c, b >> 1);
      var p, q := Act(g, f, a, b >> 1), Act(g, f, c, b >> 1);
      var x, y := if b & 1 != 0 then a else g.zero, if b & 1 != 0 then c else g.zero;
      assert LinearAt(g, f, p, q);
      assert Doubles(g, x) && Doubles(g, y) && Doubles(g, f(p)) && Doubles(g, f(q));
      Regroup(g, x, f(p), y, f(q));
    }
  }

  /** The sum of two polynomials. */
  function Plus(x: octet, y: octet): octet
  {
    x ^ y
  }

  lemma PlusParts(x: octet, y: octet)
    ensures Plus(x, y) >> 1 == Plus(x >> 1, y >> 1)
    ensures Plus(x, y) & 1 != 0 <==> (x & 1 != 0) != (y & 1 != 0)
  {
  }

  lemma ActPlusStep<T(!new)>(g: Group<T>, f: T -> T, a: T, cx: bool, cy: bool, p: T, q: T)
    requires Binary(g, f)
    ensures g.add(if cx != cy then a else g.zero, f(g.add(p, q)))
         == g.add(g.add(if cx then a else g.zero, f(p)), g.add(if cy then a else g.zero, f(q)))
  {
    var u, v := if cx then a else g.zero, if cy then a else g.zero;
    assert Doubles(g, g.zero) && Identity(g, g.zero) && Doubles(g, a) && Identity(g, a);
    assert Commutes(g, a, g.zero) && LinearAt(g, f, p, q);
    assert Doubles(g, u) && Doubles(g, v) && Doubles(g, f(p)) && Doubles(g, f(q));
    Regroup(g, u, f(p), v, f(q));
  }

  /** Polynomials are added bit by bit. */
  lemma {:induction false} ActPlus<T(!new)>(g: Group<T>, f: T -> T, a: T, x: octet, y: octet)
    requires Binary(g, f)
    ensures Act(g, f, a, Plus(x, y)) == g.add(Act(g, f, a, x), Act(g, f, a, y))
    decreases x, y
  {
    if x == 0 && y == 0 {
      assert Doubles(g, g.zero);
    } else {
      ActPlus(g, f, a, x >> 1, y >> 1);
      PlusParts(x, y);
      ActPlusStep(g, f, a, x & 1 != 0, y & 1 != 0, Act(g, f, a, x >> 1), Act(g, f, a, y >> 1));
      ActUnfold(g, f, a, x);
      ActUnfold(g, f, a, y);
      ActUnfold(g, f, a, Plus(x, y));
    }
  }

  /** The product of polynomials, when one of them is 1, x or x + 1. */
  function TimesTwoBits(b: octet, e: octet): octet
  {
    if e == 1 then b else if e == 2 then b << 1 else Plus(b, b << 1)
  }

  /** Acting twice is acting by the product, on either side. */
  lemma ActMul<T(!new)>(g: Group<T>, f: T -> T, a: T, b: octet, e: octet)
    requires Binary(g, f) && 1 <= e <= 3 && b < 0x80
    ensures Act(g, f, Act(g, f, a, e), b) == Act(g, f, a, TimesTwoBits(b, e))
    ensures Act(g, f, Act(g, f, a, b), e) == Act(g, f, a, TimesTwoBits(b, e))
  {
    ActSmall(g, f, a);
    ActSmall(g, f, Act(g, f, a, b));
    ActShift(g, f, a, b);
    ActTwice(g, f, a, b);
    ActAdd(g, f, a, f(a), b);
    ActPlus(g, f, a, b, b << 1);
    assert e == 1 || e == 2 || e == 3;
  }

  lemma ActSmall<T(!new)>(g: Group<T>, f: T -> T, a: T)
    requires Binary(g, f)
    ensures Act(g, f, a, 1) == a && Act(g, f, a, 2) == f(a) && Act(g, f, a, 3) == g.add(a, f(a))
  {
    ActOne(g, f, a);
    ActTwice(g, f, a, 1);
    ActPlus(g, f, a, 1, 2);
  }

  // ---------- gmul ----------

  /** The product of two elements of the field. */
  function Mul(a: octet, b: octet): octet
  {
    Act(XorGroup(), XTime, a, b)
  }

  lemma ActStep<T(!new)>(g: Group<T>, f: T -> T, p: T, a: T, b: octet)
    requires Binary(g, f)
    ensures g.add(p, Act(g, f, a, b)) == g.add(if b & 1 != 0 then g.add(p, a) else p, Act(g, f, f(a), b >> 1))
  {
    var rest := Act(g, f, f(a), b >> 1);
    ActUnfold(g, f, a, b);
    ActShift(g, f, a, b >> 1);
    assert Doubles(g, p) && Doubles(g, a) && Doubles(g, rest);
    assert Associates(g, p, a, rest) && Identity(g, rest);
  }

  /** b has no bit at position n or above. */
  predicate Fits(b: octet, n: nat)
  {
    if n == 0 then b == 0 else Fits(b >> 1, n - 1)
  }

  lemma EightBits(b: octet)
    ensures Fits(b, 8)
  {
    var b4 := b >> 1 >> 1 >> 1 >> 1;
    assert b4 >> 1 >> 1 >> 1 >> 1 == 0;
    assert Fits(b4 >> 1 >> 1 >> 1, 1);
    assert Fits(b4 >> 1 >> 1, 2);
    assert Fits(b4 >> 1, 3);
    assert Fits(b4, 4);
    assert Fits(b >> 1 >> 1 >> 1, 5);
    assert Fits(b >> 1 >> 1, 6);
    assert Fits(b >> 1, 7);
  }

  /** gmul adds shifted multiples of a: it computes the product. */
  method GMul(a: octet, b: octet) returns (p: octet)
    ensures p == Mul(a, b)
  {
    var a', b' := a, b;
    ghost var g := XorGroup();
    p := 0;
    XorIsBinary();
    EightBits(b);
    for i := 0 to 8
      invariant Fits(b', 8 - i)
      invariant g.add(p, Act(g, XTime, a', b')) == Mul(a, b)
    {
      ActStep(g, XTime, p, a', b');
      if b' & 1 != 0 { p := p ^ a'; }
      a' := GMulShift(a');
      b' := b' >> 1;
    }
  }

  /** The three lines of gmul that multiply a by x. */
  method GMulShift(a: octet) returns (r: octet)
    ensures r == XTime(a)
  {
    var hiBit := a & 0x80;
    r := a << 1;
    if hiBit != 0 { r := r ^ 0x1b; }
  }

  // ---------- One column of the state ----------

  function Sum4<T>(g: Group<T>, a: T, b: T, c: T, d: T): T
  {
    g.add(g.add(g.add(a, b), c), d)
  }

  /** The factors of one row of a circulant matrix; the other rows rotate the column. */
  datatype Factors = Factors(c0: octet, c1: octet, c2: octet, c3: octet)

  function RowOf<T>(g: Group<T>, f: T -> T, c: Factors, s0: T, s1: T, s2: T, s3: T): T
  {
    Sum4(g, Act(g, f, s0, c.c0), Act(g, f, s1, c.c1), Act(g, f, s2, c.c2), Act(g, f, s3, c.c3))
  }

  lemma Sum4Rotate<T(!new)>(g: Group<T>, f: T -> T, a: T, b: T, c: T, d: T)
    requires Binary(g, f)
    ensures Sum4(g, b, c, d, a) == Sum4(g, a, b, c, d)
  {
    assert Doubles(g, a) && Doubles(g, b) && Doubles(g, c) && Doubles(g, d);
    var bc := g.add(b, c);
    assert Doubles(g, bc) && Doubles(g, g.add(bc, d));
    assert Commutes(g, g.add(bc, d), a) && Associates(g, a, bc, d) && Associates(g, a, b, c);
  }

  lemma Sum4Add<T(!new)>(g: Group<T>, f: T -> T, a: T, b: T, c: T, d: T, a': T, b': T, c': T, d': T)
    requires Binary(g, f)
    ensures g.add(Sum4(g, a, b, c, d), Sum4(g, a', b', c', d'))
         == Sum4(g, g.add(a, a'), g.add(b, b'), g.add(c, c'), g.add(d, d'))
  {
    var ab, ab' := g.add(a, b), g.add(a', b');
    var abc, abc' := g.add(ab, c), g.add(ab', c');
    assert Doubles(g, a) && Doubles(g, b) && Doubles(g, c) && Doubles(g, d);
    assert Doubles(g, a') && Doubles(g, b') && Doubles(g, c') && Doubles(g, d');
    assert Doubles(g, ab) && Doubles(g, ab') && Doubles(g, abc) && Doubles(g, abc');
    Regroup(g, abc, abc', d, d');
    Regroup(g, ab, ab', c, c');
    Regroup(g, a, a', b, b');
  }

  lemma ActSum4<T(!new)>(g: Group<T>, f: T -> T, a: T, b: T, c: T, d: T, x: octet)
    requires Binary(g, f)
    ensures Act(g, f, Sum4(g, a, b, c, d), x)
         == Sum4(g, Act(g, f, a, x), Act(g, f, b, x), Act(g, f, c, x), Act(g, f, d, x))
  {
    ActAdd(g, f, g.add(g.add(a, b), c), d, x);
    ActAdd(g, f, g.add(a, b), c, x);
    ActAdd(g, f, a, b, x);
  }

  function Product(x: octet, y: octet): octet
  {
    if x <= 3 then TimesTwoBits(y, x) else TimesTwoBits(x, y)
  }

  function Scaled(e: Factors, x: octet): Factors
  {
    Factors(Product(e.c0, x), Product(e.c1, x), Product(e.c2, x), Product(e.c3, x))
  }

  /** Factors whose products with x are covered by ActMul. */
  predicate SmallWith(e: octet, x: octet)
  {
    1 <= e < 0x80 && 1 <= x < 0x80 && (e <= 3 || x <= 3)
  }

  predicate Small(e: Factors, x: octet)
  {
    SmallWith(e.c0, x) && SmallWith(e.c1, x) && SmallWith(e.c2, x) && SmallWith(e.c3, x)
  }

  lemma ActProduct<T(!new)>(g: Group<T>, f: T -> T, a: T, e: octet, x: octet)
    requires Binary(g, f) && SmallWith(e, x)
    ensures Act(g, f, Act(g, f, a, e), x) == Act(g, f, a, Product(e, x))
  {
    if e <= 3 { ActMul(g, f, a, x, e); } else { ActMul(g, f, a, e, x); }
  }

  /** One term of a matrix product. */
  lemma ActRow<T(!new)>(g: Group<T>, f: T -> T, e: Factors, x: octet, s0: T, s1: T, s2: T, s3: T)
    requires Binary(g, f) && Small(e, x)
    ensures Act(g, f, RowOf(g, f, e, s0, s1, s2, s3), x) == RowOf(g, f, Scaled(e, x), s0, s1, s2, s3)
  {
    ActSum4(g, f, Act(g, f, s0, e.c0), Act(g, f, s1, e.c1), Act(g, f, s2, e.c2), Act(g, f, s3, e.c3), x);
    ActProduct(g, f, s0, e.c0, x);
    ActProduct(g, f, s1, e.c1, x);
    ActProduct(g, f, s2, e.c2, x);
    ActProduct(g, f, s3, e.c3, x);
  }

  function AddFactors(x: Factors, y: Factors): Factors
  {
    Factors(Plus(x.c0, y.c0), Plus(x.c1, y.c1), Plus(x.c2, y.c2), Plus(x.c3, y.c3))
  }

  lemma AddRows<T(!new)>(g: Group<T>, f: T -> T, x: Factors, y: Factors, s0: T, s1: T, s2: T, s3: T)
    requires Binary(g, f)
    ensures g.add(RowOf(g, f, x, s0, s1, s2, s3), RowOf(g, f, y, s0, s1, s2, s3))
         == RowOf(g, f, AddFactors(x, y), s0, s1, s2, s3)
  {
    Sum4Add(g, f, Act(g, f, s0, x.c0), Act(g, f, s1, x.c1), Act(g, f, s2, x.c2), Act(g, f, s3, x.c3),
            Act(g, f, s0, y.c0), Act(g, f, s1, y.c1), Act(g, f, s2, y.c2), Act(g, f, s3, y.c3));
    ActPlus(g, f, s0, x.c0, y.c0);
    ActPlus(g, f, s1, x.c1, y.c1);
    ActPlus(g, f, s2, x.c2, y.c2);
    ActPlus(g, f, s3, x.c3, y.c3);
  }

  function Rotated(e: Factors): Factors
  {
    Factors(e.c3, e.c0, e.c1, e.c2)
  }

  lemma RotateRow<T(!new)>(g: Group<T>, f: T -> T, e: Factors, s0: T, s1: T, s2: T, s3: T)
    requires Binary(g, f)
    ensures RowOf(g, f, e, s1, s2, s3, s0) == RowOf(g, f, Rotated(e), s0, s1, s2, s3)
  {
    Sum4Rotate(g, f, Act(g, f, s0, e.c3), Act(g, f, s1, e.c0), Act(g, f, s2, e.c1), Act(g, f, s3, e.c2));
  }

  /** The first row of the product of two circulant matrices. */
  function RowProduct(d: Factors, e: Factors): Factors
  {
    AddFactors(AddFactors(AddFactors(Scaled(e, d.c0), Rotated(Scaled(e, d.c1))),
                          Rotated(Rotated(Scaled(e, d.c2)))),
               Rotated(Rotated(Rotated(Scaled(e, d.c3)))))
  }

  /** Applying a circulant matrix to the result of another is applying their product. */
  lemma ApplyTwice<T(!new)>(g: Group<T>, f: T -> T, d: Factors, e: Factors, s0: T, s1: T, s2: T, s3: T)
    requires Binary(g, f) && Small(e, d.c0) && Small(e, d.c1) && Small(e, d.c2) && Small(e, d.c3)
    ensures RowOf(g, f, d, RowOf(g, f, e, s0, s1, s2, s3), RowOf(g, f, e, s1, s2, s3, s0),
                  RowOf(g, f, e, s2, s3, s0, s1), RowOf(g, f, e, s3, s0, s1, s2))
         == RowOf(g, f, RowProduct(d, e), s0, s1, s2, s3)
  {
    var e0, e1, e2, e3 := Scaled(e, d.c0), Scaled(e, d.c1), Scaled(e, d.c2), Scaled(e, d.c3);
    ActRow(g, f, e, d.c0, s0, s1, s2, s3);
    ActRow(g, f, e, d.c1, s1, s2, s3, s0);
    ActRow(g, f, e, d.c2, s2, s3, s0, s1);
    ActRow(g, f, e, d.c3, s3, s0, s1, s2);
    RotateRow(g, f, e1, s0, s1, s2, s3);
    RotateRow(g, f, e2, s1, s2, s3, s0);
    RotateRow(g, f, Rotated(e2), s0, s1, s2, s3);
    RotateRow(g, f, e3, s2, s3, s0, s1);
    RotateRow(g, f, Rotated(e3), s1, s2, s3, s0);
    RotateRow(g, f, Rotated(Rotated(e3)), s0, s1, s2, s3);
    AddRows(g, f, e0, Rotated(e1), s0, s1, s2, s3);
    AddRows(g, f, AddFactors(e0, Rotated(e1)), Rotated(Rotated(e2)), s0, s1, s2, s3);
    AddRows(g, f, AddFactors(AddFactors(e0, Rotated(e1)), Rotated(Rotated(e2))),
            Rotated(Rotated(Rotated(e3))), s0, s1, s2, s3);
  }

  const MIX := Factors(2, 3, 1, 1)
  const INV_MIX := Factors(14, 11, 13, 9)

  lemma IdentityRow<T(!new)>(g: Group<T>, f: T -> T, s0: T, s1: T, s2: T, s3: T)
    requires Binary(g, f)
    ensures RowOf(g, f, Factors(1, 0, 0, 0), s0, s1, s2, s3) == s0
  {
    ActOne(g, f, s0);
    ActOne(g, f, s1);
    ActOne(g, f, s2);
    ActOne(g, f, s3);
    assert Doubles(g, s0) && Identity(g, s0) && Commutes(g, s0, g.zero);
  }

  /** The two matrices are inverse to each other. */
  lemma MatricesInverse()
    ensures RowProduct(INV_MIX, MIX) == Factors(1, 0, 0, 0)
    ensures RowProduct(MIX, INV_MIX) == Factors(1, 0, 0, 0)
  {
  }
}
