/** Multiples in an abelian group. The group is a parameter, so that double-and-add is proved once,
    for every group; the curve is one instance. */
module AbelianGroup {
  import opened NumberTheory

  datatype Group<!T> = Group(add: (T, T) -> T, neg: T -> T, zero: T, elem: T -> bool)

  // The laws are stated one instance at a time, so that a proof uses only the instances it names.

  ghost predicate Closed<T>(g: Group<T>, a: T, b: T)
  {
    g.elem(a) && g.elem(b) ==> g.elem(g.add(a, b)) && g.elem(g.neg(a))
  }

  ghost predicate Commutes<T>(g: Group<T>, a: T, b: T)
  {
    g.elem(a) && g.elem(b) ==> g.add(a, b) == g.add(b, a)
  }

  ghost predicate Associates<T>(g: Group<T>, a: T, b: T, c: T)
  {
    g.elem(a) && g.elem(b) && g.elem(c) ==> g.add(g.add(a, b), c) == g.add(a, g.add(b, c))
  }

  ghost predicate Identity<T>(g: Group<T>, a: T)
  {
    g.elem(a) ==> g.add(g.zero, a) == a && g.add(a, g.neg(a)) == g.zero
  }

  /** Added to itself, a gives zero. */
  ghost predicate Doubles<T>(g: Group<T>, a: T)
  {
    g.elem(a) && g.add(a, a) == g.zero
  }

  ghost predicate IsAbelian<T(!new)>(g: Group<T>)
  {
    && g.elem(g.zero)
    && (forall a, b :: Closed(g, a, b))
    && (forall a, b :: Commutes(g, a, b))
    && (forall a, b, c :: Associates(g, a, b, c))
    && (forall a :: Identity(g, a))
  }

  /** k-fold addition. */
  function Times<T>(g: Group<T>, k: nat, a: T): T
  {
    if k == 0 then g.zero else g.add(Times(g, k - 1, a), a)
  }

  lemma {:induction false} TimesElem<T(!new)>(g: Group<T>, k: nat, a: T)
    requires IsAbelian(g) && g.elem(a)
    ensures g.elem(Times(g, k, a))
    decreases k
  {
    if k == 0 {
    } else {
      TimesElem(g, k - 1, a);
      assert Closed(g, Times(g, k - 1, a), a);
    }
  }

  lemma TimesSmall<T(!new)>(g: Group<T>, a: T)
    requires IsAbelian(g) && g.elem(a)
    ensures Times(g, 0, a) == g.zero
    ensures Times(g, 1, a) == a
    ensures Times(g, 2, a) == g.add(a, a)
  {
    assert Identity(g, a);
    assert Times(g, 1, a) == g.add(Times(g, 0, a), a);
    assert Times(g, 2, a) == g.add(Times(g, 1, a), a);
  }

  lemma {:induction false} TimesAdd<T(!new)>(g: Group<T>, j: nat, k: nat, a: T)
    requires IsAbelian(g) && g.elem(a)
    ensures Times(g, j + k, a) == g.add(Times(g, j, a), Times(g, k, a))
    decreases k
  {
    TimesElem(g, j, a);
    if k == 0 {
      assert Commutes(g, Times(g, j, a), g.zero) && Identity(g, Times(g, j, a));
    } else {
      TimesAdd(g, j, k - 1, a);
      TimesElem(g, k - 1, a);
      assert Associates(g, Times(g, j, a), Times(g, k - 1, a), a);
    }
  }

  lemma {:induction false} TimesTimes<T(!new)>(g: Group<T>, j: nat, k: nat, a: T)
    requires IsAbelian(g) && g.elem(a)
    ensures Times(g, j * k, a) == Times(g, j, Times(g, k, a))
    decreases j
  {
    if j == 0 {
    } else {
      TimesTimes(g, j - 1, k, a);
      assert j * k == (j - 1) * k + k;
      MulLe(0, j - 1, k);
      TimesAdd(g, (j - 1) * k, k, a);
    }
  }

  /** One step of double-and-add, for an even and an odd multiple. */
  lemma DoubledTimes<T(!new)>(g: Group<T>, acc: T, base: T, h: nat)
    requires IsAbelian(g) && g.elem(acc) && g.elem(base)
    ensures g.add(acc, Times(g, h, g.add(base, base))) == g.add(acc, Times(g, 2 * h, base))
    ensures g.add(g.add(acc, base), Times(g, h, g.add(base, base))) == g.add(acc, Times(g, 2 * h + 1, base))
  {
    TimesSmall(g, base);
    TimesTimes(g, h, 2, base);
    assert h * 2 == 2 * h;
    TimesElem(g, 2 * h, base);
    TimesAdd(g, 1, 2 * h, base);
    assert Associates(g, acc, base, Times(g, 2 * h, base));
  }

  lemma {:induction false} TimesZero<T(!new)>(g: Group<T>, k: nat)
    requires IsAbelian(g)
    ensures Times(g, k, g.zero) == g.zero
    decreases k
  {
    if k == 0 {
    } else {
      TimesZero(g, k - 1);
      assert Identity(g, g.zero);
    }
  }

  /** If a + b is zero, b is the negative of a. */
  lemma NegUnique<T(!new)>(g: Group<T>, a: T, b: T)
    requires IsAbelian(g) && g.elem(a) && g.elem(b) && g.add(a, b) == g.zero
    ensures b == g.neg(a)
  {
    var n := g.neg(a);
    assert Closed(g, a, b) && Closed(g, n, a) && Identity(g, a) && Identity(g, b) && Identity(g, n);
    assert Commutes(g, n, a) && Commutes(g, n, g.zero);
    assert Associates(g, n, a, b);
  }

  /** (a + c) + (b + d) == (a + b) + (c + d). */
  lemma Regroup<T(!new)>(g: Group<T>, a: T, b: T, c: T, d: T)
    requires IsAbelian(g) && g.elem(a) && g.elem(b) && g.elem(c) && g.elem(d)
    ensures g.add(g.add(a, c), g.add(b, d)) == g.add(g.add(a, b), g.add(c, d))
  {
    assert Closed(g, b, d) && Closed(g, c, d) && Closed(g, c, b) && Closed(g, b, c);
    calc {
      g.add(g.add(a, c), g.add(b, d));
      { assert Associates(g, a, c, g.add(b, d)); }
      g.add(a, g.add(c, g.add(b, d)));
      { assert Associates(g, c, b, d); }
      g.add(a, g.add(g.add(c, b), d));
      { assert Commutes(g, c, b); }
      g.add(a, g.add(g.add(b, c), d));
      { assert Associates(g, b, c, d); }
      g.add(a, g.add(b, g.add(c, d)));
      { assert Associates(g, a, b, g.add(c, d)); }
      g.add(g.add(a, b), g.add(c, d));
    }
  }

  lemma {:induction false} TimesNeg<T(!new)>(g: Group<T>, k: nat, a: T)
    requires IsAbelian(g) && g.elem(a)
    ensures Times(g, k, g.neg(a)) == g.neg(Times(g, k, a))
  {
    var n := g.neg(a);
    assert Closed(g, a, a);
    TimesElem(g, k, a);
    TimesElem(g, k, n);
    if k == 0 {
      assert Identity(g, g.zero);
      NegUnique(g, g.zero, g.zero);
    } else {
      var x := Times(g, k - 1, a);
      TimesElem(g, k - 1, a);
      TimesElem(g, k - 1, n);
      TimesNeg(g, k - 1, a);
      assert Identity(g, x) && Identity(g, a) && Identity(g, g.zero);
      Regroup(g, x, g.neg(x), a, n);
      NegUnique(g, Times(g, k, a), Times(g, k, n));
    }
  }

  /** Multiples of an element of order dividing n depend only on the factor modulo n. */
  lemma TimesMod<T(!new)>(g: Group<T>, k: nat, n: nat, a: T)
    requires IsAbelian(g) && g.elem(a) && n > 0 && Times(g, n, a) == g.zero
    ensures Times(g, k % n, a) == Times(g, k, a)
  {
    assert k == (k / n) * n + k % n;
    MulLe(0, k / n, n);
    TimesAdd(g, (k / n) * n, k % n, a);
    TimesTimes(g, k / n, n, a);
    TimesZero(g, k / n);
    TimesElem(g, k % n, a);
    assert Identity(g, Times(g, k % n, a));
  }

  /** With n*a == 0, the multiple n - k is the negative of the multiple k. */
  lemma TimesComplement<T(!new)>(g: Group<T>, k: nat, n: nat, a: T)
    requires IsAbelian(g) && g.elem(a) && k <= n && Times(g, n, a) == g.zero
    ensures Times(g, n - k, a) == g.neg(Times(g, k, a))
  {
    TimesAdd(g, k, n - k, a);
    TimesElem(g, k, a);
    TimesElem(g, n - k, a);
    NegUnique(g, Times(g, k, a), Times(g, n - k, a));
  }

  /** a has order exactly n. */
  ghost predicate HasOrder<T>(g: Group<T>, a: T, n: nat)
  {
    && n > 0
    && Times(g, n, a) == g.zero
    && (forall k :: 0 < k < n ==> Times(g, k, a) != g.zero)
  }

  /** The multiples below the order are all different. */
  lemma MultiplesDistinct<T(!new)>(g: Group<T>, j: nat, k: nat, n: nat, a: T)
    requires IsAbelian(g) && g.elem(a) && HasOrder(g, a, n) && j <= k < n
    requires Times(g, j, a) == Times(g, k, a)
    ensures j == k
  {
    TimesElem(g, j, a);
    TimesElem(g, k - j, a);
    var x, y := Times(g, j, a), Times(g, k - j, a);
    TimesAdd(g, j, k - j, a);
    assert g.add(x, y) == x;
    CancelLeft(g, x, y);
    assert Times(g, k - j, a) == g.zero;
  }

  lemma CancelLeft<T(!new)>(g: Group<T>, x: T, y: T)
    requires IsAbelian(g) && g.elem(x) && g.elem(y) && g.add(x, y) == x
    ensures y == g.zero
  {
    var n := g.neg(x);
    assert Closed(g, x, x) && Associates(g, n, x, y) && Commutes(g, n, x);
    assert Identity(g, x) && Identity(g, y);
  }

  /** (a + b) - b == a. */
  lemma AddThenSubtract<T(!new)>(g: Group<T>, a: T, b: T)
    requires IsAbelian(g) && g.elem(a) && g.elem(b)
    ensures g.add(g.add(a, b), g.neg(b)) == a
  {
    assert Closed(g, b, b) && Associates(g, a, b, g.neg(b)) && Identity(g, b);
    assert Commutes(g, a, g.zero) && Identity(g, a);
  }

  /** (k + m) a - m a == k a. */
  lemma SumCancels<T(!new)>(g: Group<T>, k: nat, m: nat, a: T)
    requires IsAbelian(g) && g.elem(a)
    ensures g.add(Times(g, k + m, a), g.neg(Times(g, m, a))) == Times(g, k, a)
  {
    TimesAdd(g, k, m, a);
    TimesElem(g, k, a);
    TimesElem(g, m, a);
    AddThenSubtract(g, Times(g, k, a), Times(g, m, a));
  }
}
