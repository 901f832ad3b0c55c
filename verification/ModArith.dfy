/** The modular arithmetic helpers of pure-secp256k1.js: mod, modInverse and modPow. */
module ModArith {
  import opened Results
  import opened NumberTheory

  /** BigInt division rounds towards zero. */
  function TruncDiv(a: int, b: int): int
    requires b != 0
  {
    if a >= 0 then a / b else -((-a) / b)
  }

  /** The BigInt remainder has the sign of the dividend. */
  function TruncRem(a: int, b: int): int
    requires b != 0
  {
    a - b * TruncDiv(a, b)
  }

  /** The helper mod, in the operators it is written with. */
  function Mod(n: int, m: int): (r: int)
    requires m > 0
    ensures r == n % m && 0 <= r < m
  {
    ModIsEuclidean(n, m);
    TruncRem(TruncRem(n, m) + m, m)
  }

  lemma TruncRemSmall(a: int, b: int)
    requires b != 0
    ensures 0 - Abs(b) < TruncRem(a, b) < Abs(b)
    ensures a >= 0 ==> TruncRem(a, b) >= 0
    ensures a >= 0 ==> TruncRem(a, b) == a % b
  {
    if a >= 0 {
      assert a == b * (a / b) + a % b;
    } else {
      assert -a == b * ((-a) / b) + (-a) % b;
      assert b * (-((-a) / b)) == -(b * ((-a) / b));
    }
  }

  function Abs(x: int): nat { if x < 0 then -x else x }

  lemma ModIsEuclidean(n: int, m: int)
    requires m > 0
    ensures TruncRem(TruncRem(n, m) + m, m) == n % m
  {
    TruncRemSmall(n, m);
    var t := TruncRem(n, m) + m;
    TruncRemSmall(t, m);
    assert n - t == (TruncDiv(n, m) - 1) * m;
    CongBy(n, t, m, TruncDiv(n, m) - 1);
    CongMod(n, t, m);
  }

  /** The inverse of a modulo m, when there is one. It does not say how it is found:
      ModInverseLoop below is the extended Euclidean algorithm that finds it. */
  function ModInverse(a: int, m: int): (r: Result<int>)
    requires m > 0
    ensures r.Ok? ==> IsInverse(a, m, r.value)
    ensures r.Ok? <==> Coprime(a, m)
    ensures r.Err? ==> r.failure == NoModularInverse
  {
    InverseIffCoprime(a, m);
    if exists x :: 0 <= x < m && IsInverse(a, m, x) then
      InverseUniqueAll(a, m);
      var x :| 0 <= x < m && IsInverse(a, m, x);
      Ok(x)
    else
      Err(NoModularInverse)
  }

  lemma InverseUniqueAll(a: int, m: int)
    requires m > 0
    ensures forall r, s :: IsInverse(a, m, r) && IsInverse(a, m, s) ==> r == s
  {
    forall r, s | IsInverse(a, m, r) && IsInverse(a, m, s)
      ensures r == s
    {
      InverseUnique(a, m, r, s);
    }
  }

  /** What the pair (r, s) of the extended Euclidean algorithm keeps: r is a multiple of a
      modulo m, with coefficient s. */
  ghost predicate Combination(a: int, m: int, r: int, s: int)
    requires m > 0
  {
    Cong(r, a * s, m)
  }

  lemma CombinationStep(a: int, m: int, r0: int, s0: int, r1: int, s1: int, q: int)
    requires m > 0 && Combination(a, m, r0, s0) && Combination(a, m, r1, s1)
    ensures Combination(a, m, r0 - q * r1, s0 - q * s1)
  {
    CongMod(q, q, m);
    CongMul(q, q, r1, a * s1, m);
    CongAdd(r0, a * s0, q * r1, q * (a * s1), m);
    assert a * (s0 - q * s1) == a * s0 - q * (a * s1);
  }

  // ---------- The remainders of the extended Euclidean algorithm ----------

  /** The remainder with which the loop ends. */
  function LastRemainder(x: int, y: int): int
    decreases Abs(y)
  {
    if y == 0 then x else
    TruncRemSmall(x, y);
    LastRemainder(y, TruncRem(x, y))
  }

  /** The greatest common divisor, by Euclid's algorithm on naturals. */
  function Gcd(x: nat, y: nat): nat
    decreases y
  {
    if y == 0 then x else Gcd(y, x % y)
  }

  /** The number of divisions that Euclid's algorithm makes. */
  function Divisions(x: nat, y: nat): nat
    decreases y
  {
    if y == 0 then 0 else 1 + Divisions(y, x % y)
  }

  function Opposite(y: int): int
  {
    -y
  }

  lemma TruncRemSigns(x: nat, y: nat)
    requires y > 0
    ensures TruncRem(x, y) == x % y
    ensures TruncRem(Opposite(x), y) == Opposite(x % y)
    ensures TruncRem(x, Opposite(y)) == x % y
  {
    DividendSign(x, y);
    DivisorSign(x, y);
  }

  lemma DividendSign(x: nat, y: nat)
    requires y > 0
    ensures TruncRem(x, y) == x % y && TruncRem(Opposite(x), y) == Opposite(x % y)
  {
    var q, r := x / y, x % y;
    assert x == y * q + r;
    assert TruncDiv(Opposite(x), y) == Opposite(q);
    assert y * Opposite(q) == Opposite(y * q);
  }

  lemma DivisorSign(x: nat, y: nat)
    requires y > 0
    ensures TruncRem(x, Opposite(y)) == x % y
  {
    NegativeDivisor(x, y);
    assert x == y * (x / y) + x % y;
  }

  lemma NegativeDivisor(x: nat, y: nat)
    requires y > 0
    ensures x / Opposite(y) == Opposite(x / y) && Opposite(y) * Opposite(x / y) == y * (x / y)
  {
    var z, q := Opposite(y), x / y;
    assert z * Opposite(q) == y * q;
    assert x == z * (x / z) + x % z;
    var d := x / z + q;
    assert y * d == x % z - x % y;
    if d >= 1 { MulLe(1, d, y); }
    if d <= -1 { MulLe(d, -1, y); }
  }

  /** With arguments of different signs the remainders alternate in sign. */
  lemma {:induction false} LastRemainderSigns(x: nat, y: nat)
    ensures LastRemainder(x, y) == Gcd(x, y)
    ensures LastRemainder(Opposite(x), y) == if Divisions(x, y) % 2 == 1 then Gcd(x, y) else Opposite(Gcd(x, y))
    ensures LastRemainder(x, Opposite(y)) == if Divisions(x, y) % 2 == 0 then Gcd(x, y) else Opposite(Gcd(x, y))
    decreases y
  {
    if y > 0 {
      TruncRemSigns(x, y);
      LastRemainderSigns(y, x % y);
      assert Divisions(x, y) % 2 == 1 - Divisions(y, x % y) % 2;
    }
  }

  lemma {:induction false} GcdCoprime(x: nat, y: nat)
    requires x > 0 || y > 0
    ensures Gcd(x, y) == 1 <==> Coprime(x, y)
    decreases y
  {
    if y == 0 {
      MultipleMod(0, x);
      MultipleMod(1, x);
      assert Divides(x, x) && Divides(x, 0);
      OnlyOneDividesOne();
    } else {
      GcdCoprime(y, x % y);
      CoprimeRemainder(x, y);
    }
  }

  lemma OnlyOneDividesOne()
    ensures Coprime(1, 0)
  {
    forall d | Divides(d, 1) && Divides(d, 0)
      ensures d == 1
    {
      DividesLe(d, 1);
    }
  }

  lemma CoprimeRemainder(x: nat, y: nat)
    requires y > 0
    ensures Coprime(x, y) <==> Coprime(y, x % y)
  {
    forall d | Divides(d, y)
      ensures Divides(d, x) <==> Divides(d, x % y)
    {
      DividesRemainder(d, x, y);
    }
  }

  /** When modInverse returns: the arguments have no common factor and, for a negative a, the number of
      divisions is odd. */
  ghost predicate Returns(a: int, m: int)
    requires m > 0
  {
    Coprime(a, m) && (a >= 0 || Divisions(-a, m) % 2 == 1)
  }

  lemma ReturnsIff(a: int, m: int)
    requires m > 0
    ensures Returns(a, m) <==> LastRemainder(a, m) == 1
  {
    var b: nat := Abs(a);
    LastRemainderSigns(b, m);
    GcdCoprime(b, m);
    if a < 0 {
      if Coprime(a, m) { CoprimeNeg(a, m); }
      if Coprime(b, m) { CoprimeNeg(b, m); }
    }
  }

  /** modInverse. It returns exactly when Returns says, and then the one canonical inverse; for a >= 0,
      which is what every caller passes, that is whenever there is an inverse. */
  method ModInverseLoop(a: int, m: int) returns (res: Result<int>)
    requires m > 0
    ensures res.Ok? <==> Returns(a, m)
    ensures res.Ok? ==> res == ModInverse(a, m)
    ensures a >= 0 ==> res == ModInverse(a, m)
    ensures res.Err? ==> res.failure == NoModularInverse
  {
    var oldR, r := a, m;
    var oldS, s := 1, 0;
    assert Combination(a, m, a, 1) by { CongMod(a, a * 1, m); }
    assert Combination(a, m, m, 0) by { CongBy(m, a * 0, m, 1); }
    ReturnsIff(a, m);
    while r != 0
      invariant Combination(a, m, oldR, oldS) && Combination(a, m, r, s)
      invariant LastRemainder(oldR, r) == LastRemainder(a, m)
      decreases Abs(r)
    {
      var quotient := TruncDiv(oldR, r);
      TruncRemSmall(oldR, r);
      CombinationStep(a, m, oldR, oldS, r, s, quotient);
      RemainderIs(oldR, r);
      oldR, r := r, oldR - quotient * r;
      oldS, s := s, oldS - quotient * s;
    }
    if oldR != 1 { return Err(NoModularInverse); }
    InverseFound(a, m, oldS);
    InverseIffCoprime(a, m);
    InverseUniqueAll(a, m);
    return Ok(Mod(oldS, m));
  }

  lemma RemainderIs(x: int, y: int)
    requires y != 0
    ensures x - TruncDiv(x, y) * y == TruncRem(x, y)
  {
  }

  lemma InverseFound(a: int, m: int, s: int)
    requires m > 0 && Combination(a, m, 1, s)
    ensures IsInverse(a, m, s % m)
  {
    ModCong(s, m);
    CongMod(a, a, m);
    CongMul(a, a, s % m, s, m);
    CongSym(1, a * s, m);
    CongTrans(a * (s % m), a * s, 1, m);
    CongMod(a * (s % m), 1, m);
  }

  /** For which arguments modInverse never throws without need: exactly the non-negative ones and -2
      have their inverse found for every modulus with which they have no common factor. */
  lemma NegativeArguments(a: int)
    ensures (forall m :: m > 0 && Coprime(a, m) ==> Returns(a, m)) <==> a >= 0 || a == -2
  {
    if a == -1 {
      SmallDivisions();
      CoprimeNeg(1, 3);
      assert Coprime(a, 3) && !Returns(a, 3);
    } else if a == -2 {
      forall m | m > 0 && Coprime(a, m)
        ensures Returns(a, m)
      {
        TwoDivisions(m);
      }
    } else if a < 0 {
      var b := -a;
      FourDivisions(b);
      CoprimeNeg(b, 2 * b - 1);
      assert Coprime(a, 2 * b - 1) && !Returns(a, 2 * b - 1);
    }
  }

  lemma SmallDivisions()
    ensures Divisions(1, 3) == 2 && Coprime(1, 3)
  {
    assert Divisions(3, 1) == 1 && Gcd(3, 1) == 1;
    GcdCoprime(1, 3);
  }

  lemma TwoDivisions(m: nat)
    requires m > 0 && Coprime(-2, m)
    ensures Divisions(2, m) % 2 == 1
  {
    MultipleMod(-1, 2);
    assert Divides(2, m) ==> 2 == 1;
    assert Divisions(2, 1) == 1;
    if m > 2 { assert 2 % m == 2 && m % 2 == 1; }
  }

  lemma FourDivisions(b: nat)
    requires b >= 3
    ensures Divisions(b, 2 * b - 1) == 4 && Coprime(b, 2 * b - 1)
  {
    var m := 2 * b - 1;
    assert b % m == b;
    DivModUnique(m, b, 1, b - 1);
    DivModUnique(b, b - 1, 1, 1);
    assert Divisions(b - 1, 1) == 1 && Gcd(b - 1, 1) == 1;
    assert Divisions(b, b - 1) == 2 && Gcd(b, b - 1) == 1;
    assert Divisions(m, b) == 3 && Gcd(m, b) == 1;
    GcdCoprime(b, m);
  }

  /** base to the power exp, modulo m. */
  function ModPow(base: int, exp: nat, m: int): int
    requires m > 0
  {
    Pow(base, exp) % m
  }

  /** modPow: square and multiply. For m == 1 and exp == 0 the code returns 1, not 0. */
  method ModPowLoop(base: int, exp: int, m: int) returns (result: int)
    requires m > 0
    ensures m > 1 && exp >= 0 ==> result == ModPow(base, exp, m)
    ensures exp <= 0 ==> result == 1
    ensures m == 1 && exp > 0 ==> result == 0
  {
    result := 1;
    var b, e := Mod(base, m), exp;
    if exp >= 0 { ModPowStart(base, exp, m); }
    while e > 0
      invariant exp >= 0 ==> e >= 0 && Cong(result * Pow(b, e), Pow(base, exp), m)
      invariant m > 1 ==> 0 <= result < m
      invariant exp <= 0 ==> result == 1 && e == exp
      invariant m == 1 && exp > 0 ==> result == 0 || e > 0
    {
      ModPowStep(result, b, e, Pow(base, exp), m);
      if e % 2 == 1 { result := Mod(result * b, m); }
      e := e / 2;
      b := Mod(b * b, m);
    }
    if m > 1 && exp >= 0 {
      CongMod(result, Pow(base, exp), m);
      SmallMod(result, m);
    }
  }

  lemma ModPowStart(base: int, exp: nat, m: int)
    requires m > 0
    ensures Cong(1 * Pow(base % m, exp), Pow(base, exp), m)
  {
    ModCong(base, m);
    PowCong(base % m, base, exp, m);
  }

  lemma ModPowStep(r: int, b: int, e: nat, goal: int, m: int)
    requires m > 0 && e > 0 && Cong(r * Pow(b, e), goal, m)
    ensures var r' := if e % 2 == 1 then (r * b) % m else r;
            Cong(r' * Pow((b * b) % m, e / 2), goal, m)
  {
    var r' := if e % 2 == 1 then (r * b) % m else r;
    var r'' := if e % 2 == 1 then r * b else r;
    var h := Pow(b * b, e / 2);
    ModCong(b * b, m);
    PowCong((b * b) % m, b * b, e / 2, m);
    PowSquare(b, e / 2);
    if e % 2 == 1 {
      ModCong(r * b, m);
      assert Pow(b, e) == b * Pow(b, 2 * (e / 2));
      MulRegroup(r, b, h, 1);
    } else {
      CongMod(r, r, m);
    }
    CongMul(r', r'', Pow((b * b) % m, e / 2), h, m);
    assert r'' * h == r * Pow(b, e);
    CongTrans(r' * Pow((b * b) % m, e / 2), r * Pow(b, e), goal, m);
  }
}
