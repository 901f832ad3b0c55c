/** Divisibility, congruences, primes and Fermat's little theorem: the number theory that
    the secp256k1 arithmetic rests on. The modulus is always a parameter. */
module NumberTheory {

  // ---------- Division with remainder ----------

  /** The quotient and remainder of n by m are the only pair with n == q * m + r, 0 <= r < m. */
  lemma DivModUnique(n: int, m: int, q: int, r: int)
    requires m > 0 && 0 <= r < m && n == q * m + r
    ensures n / m == q && n % m == r
  {
    var d := n / m - q;
    assert d * m == r - n % m;
    if d >= 1 {
      MulLe(1, d, m);
    } else if d <= -1 {
      MulLe(d, -1, m);
    }
  }

  lemma MulLe(a: int, b: int, m: int)
    requires a <= b && m >= 0
    ensures a * m <= b * m
  {
    assert (b - a) * m >= 0;
  }

  lemma MulSwap(a: int, b: int, c: int)
    ensures a * b * c == a * (c * b)
  {
  }

  lemma MulRegroup(a: int, b: int, c: int, d: int)
    ensures (a * b) * (c * d) == (a * c) * (b * d)
    ensures a * (b * c) == (a * b) * c
    ensures a * (b * c) == b * (a * c)
  {
    assert (a * b) * (c * d) == a * b * c * d;
    assert (a * c) * (b * d) == a * b * c * d;
  }

  lemma MultipleMod(k: int, m: int)
    requires m > 0
    ensures (k * m) % m == 0
  {
    DivModUnique(k * m, m, k, 0);
  }

  // ---------- Congruences ----------

  ghost predicate Cong(a: int, b: int, m: int)
    requires m > 0
  {
    (a - b) % m == 0
  }

  lemma CongBy(a: int, b: int, m: int, k: int)
    requires m > 0 && a - b == k * m
    ensures Cong(a, b, m)
  {
    MultipleMod(k, m);
  }

  /** The factor that a congruence hides. */
  ghost function Factor(a: int, b: int, m: int): (k: int)
    requires m > 0 && Cong(a, b, m)
    ensures a - b == k * m
  {
    (a - b) / m
  }

  lemma CongSym(a: int, b: int, m: int)
    requires m > 0 && Cong(a, b, m)
    ensures Cong(b, a, m)
  {
    var k := Factor(a, b, m);
    assert b - a == (-k) * m;
    CongBy(b, a, m, -k);
  }

  lemma CongTrans(a: int, b: int, c: int, m: int)
    requires m > 0 && Cong(a, b, m) && Cong(b, c, m)
    ensures Cong(a, c, m)
  {
    var j, k := Factor(a, b, m), Factor(b, c, m);
    assert a - c == (j + k) * m;
    CongBy(a, c, m, j + k);
  }

  lemma CongAdd(a: int, b: int, c: int, d: int, m: int)
    requires m > 0 && Cong(a, b, m) && Cong(c, d, m)
    ensures Cong(a + c, b + d, m)
    ensures Cong(a - c, b - d, m)
  {
    var j, k := Factor(a, b, m), Factor(c, d, m);
    assert (a + c) - (b + d) == (j + k) * m;
    CongBy(a + c, b + d, m, j + k);
    assert (a - c) - (b - d) == (j - k) * m;
    CongBy(a - c, b - d, m, j - k);
  }

  lemma CongMul(a: int, b: int, c: int, d: int, m: int)
    requires m > 0 && Cong(a, b, m) && Cong(c, d, m)
    ensures Cong(a * c, b * d, m)
  {
    var j, k := Factor(a, b, m), Factor(c, d, m);
    calc {
      a * c - b * d;
      (a - b) * c + b * (c - d);
      (j * m) * c + b * (k * m);
      (j * c + b * k) * m;
    }
    CongBy(a * c, b * d, m, j * c + b * k);
  }

  lemma ModCong(a: int, m: int)
    requires m > 0
    ensures Cong(a % m, a, m)
    ensures Cong(a, a % m, m)
  {
    CongBy(a, a % m, m, a / m);
    CongSym(a, a % m, m);
  }

  lemma CongMod(a: int, b: int, m: int)
    requires m > 0
    ensures Cong(a, b, m) <==> a % m == b % m
  {
    if Cong(a, b, m) {
      var k := Factor(a, b, m);
      assert a == (b / m + k) * m + b % m;
      DivModUnique(a, m, b / m + k, b % m);
    }
    if a % m == b % m {
      assert a - b == (a / m - b / m) * m;
      CongBy(a, b, m, a / m - b / m);
    }
  }

  lemma SmallMod(a: int, m: int)
    requires 0 <= a < m
    ensures a % m == a
  {
    DivModUnique(a, m, 0, a);
  }

  lemma CongCanonical(a: int, b: int, m: int)
    requires 0 <= a < m && 0 <= b < m && Cong(a, b, m)
    ensures a == b
  {
    CongMod(a, b, m);
    SmallMod(a, m);
    SmallMod(b, m);
  }

  // ---------- Greatest common divisors ----------

  predicate Divides(d: int, n: int)
  {
    d > 0 && n % d == 0
  }

  lemma DividesCombination(d: int, a: int, b: int, x: int, y: int)
    requires Divides(d, a) && Divides(d, b)
    ensures Divides(d, a * x + b * y)
  {
    var i, j := a / d, b / d;
    calc {
      a * x + b * y;
      (i * d) * x + (j * d) * y;
      (i * x + j * y) * d;
    }
    MultipleMod(i * x + j * y, d);
  }

  /** A divisor of y divides x exactly when it divides the remainder of x by y. */
  lemma DividesRemainder(d: int, x: int, y: int)
    requires y > 0 && Divides(d, y)
    ensures Divides(d, x) <==> Divides(d, x % y)
  {
    var q := x / y;
    assert x == y * q + x % y;
    if Divides(d, x) {
      DividesCombination(d, x, y, 1, -q);
      assert x * 1 + y * -q == x - y * q;
    }
    if Divides(d, x % y) {
      DividesCombination(d, x % y, y, 1, q);
    }
  }

  lemma OddMinus(p: int, y: int)
    requires p % 2 == 1
    ensures (p - y) % 2 == 1 - y % 2
  {
  }

  lemma DividesLe(d: int, n: int)
    requires Divides(d, n) && n > 0
    ensures d <= n
  {
    if d > n {
      SmallMod(n, d);
    }
  }

  ghost predicate Coprime(a: int, b: int)
  {
    forall d :: Divides(d, a) && Divides(d, b) ==> d == 1
  }

  /** Every pair of naturals, not both zero, has a common divisor that is a combination of them. */
  lemma {:induction false} Bezout(a: nat, b: nat) returns (g: nat, x: int, y: int)
    requires a > 0 || b > 0
    ensures Divides(g, a) && Divides(g, b) && a * x + b * y == g
    decreases b
  {
    if b == 0 {
      g, x, y := a, 1, 0;
      MultipleMod(1, a);
      MultipleMod(0, a);
    } else {
      var x', y';
      g, x', y' := Bezout(b, a % b);
      x, y := y', x' - (a / b) * y';
      calc {
        a * x + b * y;
        a * y' + b * (x' - (a / b) * y');
        { assert a == (a / b) * b + a % b; }
        ((a / b) * b + a % b) * y' + b * x' - b * ((a / b) * y');
        b * x' + (a % b) * y' + (((a / b) * b) * y' - b * ((a / b) * y'));
        b * x' + (a % b) * y';
      }
      DividesRemainder(g, a, b);
    }
  }

  // ---------- Inverses ----------

  lemma CoprimeNeg(d: int, p: int)
    requires Coprime(d, p)
    ensures Coprime(-d, p)
  {
    forall k | Divides(k, -d) && Divides(k, p)
      ensures k == 1
    {
      DividesCombination(k, -d, p, -1, 0);
      assert (-d) * -1 + p * 0 == d;
    }
  }

  /** r is the canonical inverse of a modulo m. */
  predicate IsInverse(a: int, m: int, r: int)
    requires m > 0
  {
    0 <= r < m && (a * r) % m == 1 % m
  }

  lemma InverseUnique(a: int, m: int, r: int, s: int)
    requires m > 0 && IsInverse(a, m, r) && IsInverse(a, m, s)
    ensures r == s
  {
    CongMod(a * r, 1, m);
    CongMod(a * s, 1, m);
    CongMod(s, s, m);
    CongMod(r, r, m);
    CongMul(s, s, a * r, 1, m);
    CongMul(r, r, a * s, 1, m);
    assert s * (a * r) == r * (a * s);
    CongSym(s * (a * r), s * 1, m);
    CongTrans(s * 1, s * (a * r), r * 1, m);
    CongCanonical(s, r, m);
  }

  lemma InverseCoprime(a: int, m: int, r: int)
    requires m > 0 && IsInverse(a, m, r)
    ensures Coprime(a, m)
  {
    CongMod(a * r, 1, m);
    var k := Factor(a * r, 1, m);
    forall d | Divides(d, a) && Divides(d, m)
      ensures d == 1
    {
      DividesCombination(d, a, m, r, -k);
      assert a * r + m * (-k) == 1;
      DividesLe(d, 1);
    }
  }

  lemma CoprimeInverse(a: int, m: int) returns (r: int)
    requires m > 0 && Coprime(a, m)
    ensures IsInverse(a, m, r)
  {
    var g, x, y := Bezout(a % m, m);
    DividesCombination(g, a % m, m, 1, a / m);
    assert (a % m) * 1 + m * (a / m) == a;
    assert g == 1;
    InverseFromCombination(a, m, x, y);
    r := x % m;
  }

  /** a has an inverse modulo m exactly when a and m are coprime. */
  lemma InverseIffCoprime(a: int, m: int)
    requires m > 0
    ensures (exists r :: IsInverse(a, m, r)) <==> Coprime(a, m)
  {
    if r :| IsInverse(a, m, r) { InverseCoprime(a, m, r); }
    if Coprime(a, m) { var r := CoprimeInverse(a, m); }
  }

  lemma InverseFromCombination(a: int, m: int, x: int, y: int)
    requires m > 0 && (a % m) * x + m * y == 1
    ensures IsInverse(a, m, x % m)
  {
    ModCong(a, m);
    ModCong(x, m);
    CongMul(a, a % m, x % m, x, m);
    assert (a % m) * x - 1 == (-y) * m;
    CongBy((a % m) * x, 1, m, -y);
    CongTrans(a * (x % m), (a % m) * x, 1, m);
    CongMod(a * (x % m), 1, m);
  }

  // ---------- Primes ----------

  ghost predicate Prime(p: int)
  {
    p > 1 && forall d :: Divides(d, p) ==> d == 1 || d == p
  }

  lemma PrimeInverse(a: int, p: int)
    requires Prime(p) && a % p != 0
    ensures exists r :: IsInverse(a, p, r)
  {
    InverseIffCoprime(a, p);
  }

  /** Euclid's lemma. */
  lemma PrimeDividesProduct(a: int, b: int, p: int)
    requires Prime(p) && (a * b) % p == 0
    ensures a % p == 0 || b % p == 0
  {
    if a % p != 0 {
      PrimeInverse(a, p);
      var r :| IsInverse(a, p, r);
      CongMod(a * r, 1, p);
      CongMod(b, b, p);
      CongMul(a * r, 1, b, b, p);
      CongMod(a * b, 0, p);
      SmallMod(0, p);
      CongMod(r, r, p);
      CongMul(r, r, a * b, 0, p);
      assert r * (a * b) == (a * r) * b;
      CongSym((a * r) * b, b, p);
      CongTrans(b, (a * r) * b, 0, p);
      CongMod(b, 0, p);
    }
  }

  /** Two square roots of the same value modulo a prime are equal or opposite. */
  lemma SquareRoots(y: int, z: int, p: int)
    requires Prime(p) && 0 <= y < p && 0 <= z < p && Cong(y * y, z * z, p)
    ensures y == z || y + z == p || y == z == 0
  {
    assert (y - z) * (y + z) == y * y - z * z;
    PrimeDividesProduct(y - z, y + z, p);
    if (y - z) % p == 0 { CongCanonical(y, z, p); } else { MultipleBelowTwice(y + z, p); }
  }

  lemma MultipleBelowTwice(n: int, p: int)
    requires p > 0 && 0 <= n < 2 * p && n % p == 0
    ensures n == 0 || n == p
  {
    var k := n / p;
    assert n == k * p;
    if k >= 2 { MulLe(2, k, p); }
    if k < 0 { MulLe(k, -1, p); }
  }

  // ---------- Powers ----------

  function Pow(b: int, e: nat): int
  {
    if e == 0 then 1 else b * Pow(b, e - 1)
  }

  lemma {:induction false} PowAdd(b: int, d: nat, e: nat)
    ensures Pow(b, d + e) == Pow(b, d) * Pow(b, e)
    decreases d
  {
    if d == 0 {
    } else {
      PowAdd(b, d - 1, e);
      assert b * (Pow(b, d - 1) * Pow(b, e)) == (b * Pow(b, d - 1)) * Pow(b, e);
    }
  }

  lemma {:induction false} PowSquare(b: int, e: nat)
    ensures Pow(b * b, e) == Pow(b, 2 * e)
    decreases e
  {
    if e == 0 {
    } else {
      PowSquare(b, e - 1);
      var r := Pow(b, 2 * (e - 1));
      assert Pow(b, 2 * e) == b * Pow(b, 2 * e - 1) == b * (b * r);
      MulRegroup(b, b, r, 1);
    }
  }

  lemma {:induction false} PowCong(a: int, b: int, e: nat, m: int)
    requires m > 0 && Cong(a, b, m)
    ensures Cong(Pow(a, e), Pow(b, e), m)
    decreases e
  {
    if e == 0 {
      CongMod(1, 1, m);
    } else {
      PowCong(a, b, e - 1, m);
      CongMul(a, b, Pow(a, e - 1), Pow(b, e - 1), m);
    }
  }

  /** Exclusive or of two naturals, bit by bit. */
  function Xor(a: nat, b: nat): nat
    decreases a + b
  {
    if a == 0 && b == 0 then 0 else (a + b) % 2 + 2 * Xor(a / 2, b / 2)
  }

  /** Digit i of x in base two. */
  function BitOf(x: nat, i: nat): nat
  {
    if i == 0 then x % 2 else BitOf(x / 2, i - 1)
  }

  lemma XorParts(a: nat, b: nat)
    ensures Xor(a, b) % 2 == (a + b) % 2 && Xor(a, b) / 2 == Xor(a / 2, b / 2)
  {
    var last, rest := (a + b) % 2, Xor(a / 2, b / 2);
    assert Xor(a, b) == last + 2 * rest;
    LastDigit(last, rest);
  }

  lemma LastDigit(last: nat, rest: nat)
    requires last < 2
    ensures (last + 2 * rest) % 2 == last && (last + 2 * rest) / 2 == rest
  {
  }

  lemma LastBits(a: nat, b: nat)
    ensures (a + b) % 2 == if a % 2 != b % 2 then 1 else 0
  {
  }

  /** A bit of the exclusive or is set when exactly one of the two bits is. */
  lemma {:induction false} XorBit(a: nat, b: nat, i: nat)
    ensures BitOf(Xor(a, b), i) == if BitOf(a, i) != BitOf(b, i) then 1 else 0
    decreases i
  {
    XorParts(a, b);
    if i > 0 {
      XorBit(a / 2, b / 2, i - 1);
    } else {
      LastBits(a, b);
    }
  }

  // ---------- Fermat's little theorem ----------

  ghost function Pick<T>(s: set<T>): (x: T)
    requires s != {}
    ensures x in s
  {
    var x :| x in s;
    x
  }

  /** The product of a finite set of integers. */
  ghost function Product(s: set<int>): int
  {
    if s == {} then 1 else
      var x := Pick(s);
      x * Product(s - {x})
  }

  lemma {:induction false} ProductRemove(s: set<int>, x: int)
    requires x in s
    ensures Product(s) == x * Product(s - {x})
    decreases |s|
  {
    var y := Pick(s);
    if y != x {
      ProductRemove(s - {y}, x);
      ProductRemove(s - {x}, y);
      assert s - {y} - {x} == s - {x} - {y};
      MulRegroup(y, x, Product(s - {x} - {y}), 1);
    }
  }

  /** Multiplication by a, as a map on the residues modulo p. */
  ghost function Scale(a: int, s: set<int>, p: int): set<int>
    requires p > 0
  {
    set x | x in s :: (a * x) % p
  }

  ghost function Units(p: int): (u: set<int>)
    ensures forall x :: x in u <==> 1 <= x < p
    ensures p >= 1 ==> |u| == p - 1
    decreases p
  {
    if p <= 1 then {} else Units(p - 1) + {p - 1}
  }

  lemma ScaleInjective(a: int, x: int, y: int, p: int)
    requires Prime(p) && a % p != 0 && 0 < x < p && 0 < y < p && (a * x) % p == (a * y) % p
    ensures x == y
  {
    CongMod(a * x, a * y, p);
    assert a * x - a * y == a * (x - y);
    PrimeDividesProduct(a, x - y, p);
    CongCanonical(x, y, p);
  }

  lemma ScaleSplit(a: int, x: int, t: set<int>, p: int)
    requires Prime(p) && a % p != 0 && t <= Units(p) && x in Units(p) && x !in t
    ensures (a * x) % p !in Scale(a, t, p)
    ensures Scale(a, t + {x}, p) == Scale(a, t, p) + {(a * x) % p}
  {
    forall y | y in t ensures (a * y) % p != (a * x) % p {
      if (a * y) % p == (a * x) % p { ScaleInjective(a, x, y, p); }
    }
  }

  lemma ScaleRemove(a: int, s: set<int>, x: int, p: int)
    requires Prime(p) && a % p != 0 && s <= Units(p) && x in s
    ensures (a * x) % p in Scale(a, s, p) && Scale(a, s, p) - {(a * x) % p} == Scale(a, s - {x}, p)
    ensures |Scale(a, s, p)| == |Scale(a, s - {x}, p)| + 1
  {
    ScaleSplit(a, x, s - {x}, p);
    assert s - {x} + {x} == s;
  }

  lemma {:induction false} ScaleProduct(a: int, s: set<int>, p: int)
    requires Prime(p) && a % p != 0 && s <= Units(p)
    ensures |Scale(a, s, p)| == |s|
    ensures Cong(Product(Scale(a, s, p)), Pow(a, |s|) * Product(s), p)
    decreases |s|
  {
    if s == {} {
      assert Scale(a, s, p) == {};
      CongMod(1, 1, p);
    } else {
      var x := Pick(s);
      var t := s - {x};
      ScaleProduct(a, t, p);
      ScaleRemove(a, s, x, p);
      ScaleParts(a, s, x, p);
      ScaleStep(a, x, Product(Scale(a, t, p)), Pow(a, |t|), Product(t), p);
    }
  }

  lemma ScaleParts(a: int, s: set<int>, x: int, p: int)
    requires Prime(p) && a % p != 0 && s <= Units(p) && x in s
    ensures var t := s - {x};
            && Product(Scale(a, s, p)) == ((a * x) % p) * Product(Scale(a, t, p))
            && Pow(a, |s|) == a * Pow(a, |t|)
            && Product(s) == x * Product(t)
  {
    ScaleRemove(a, s, x, p);
    ProductRemove(Scale(a, s, p), (a * x) % p);
    ProductRemove(s, x);
    assert |s| == |s - {x}| + 1;
  }

  lemma ScaleStep(a: int, x: int, q: int, e: int, r: int, p: int)
    requires p > 0 && Cong(q, e * r, p)
    ensures Cong(((a * x) % p) * q, (a * e) * (x * r), p)
  {
    ModCong(a * x, p);
    CongMul((a * x) % p, a * x, q, e * r, p);
    MulRegroup(a, x, e, r);
  }

  lemma {:induction false} ProductUnit(s: set<int>, p: int)
    requires Prime(p) && s <= Units(p)
    ensures Product(s) % p != 0
    decreases |s|
  {
    if s == {} {
      SmallMod(1, p);
    } else {
      var x := Pick(s);
      ProductRemove(s, x);
      ProductUnit(s - {x}, p);
      SmallMod(x, p);
      if Product(s) % p == 0 { PrimeDividesProduct(x, Product(s - {x}), p); }
    }
  }

  lemma SubsetSameSize(s: set<int>, t: set<int>)
    requires s <= t && |s| == |t|
    ensures s == t
  {
    assert |t - s| == |t| - |s|;
    assert t - s == {};
  }

  /** Fermat's little theorem. */
  lemma Fermat(a: int, p: int)
    requires Prime(p) && a % p != 0
    ensures Cong(Pow(a, p - 1), 1, p)
  {
    var u := Units(p);
    ScaleProduct(a, u, p);
    assert Scale(a, u, p) <= u by {
      forall x | x in u ensures 1 <= (a * x) % p < p {
        SmallMod(x, p);
        if (a * x) % p == 0 { PrimeDividesProduct(a, x, p); }
      }
    }
    SubsetSameSize(Scale(a, u, p), u);
    ProductUnit(u, p);
    CancelUnit(Pow(a, p - 1), Product(u), p);
  }

  lemma CancelUnit(e: int, q: int, p: int)
    requires Prime(p) && q % p != 0 && Cong(q, e * q, p)
    ensures Cong(e, 1, p)
  {
    CongSym(q, e * q, p);
    assert e * q - q == (e - 1) * q;
    PrimeDividesProduct(e - 1, q, p);
  }
}
