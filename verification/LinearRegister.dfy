/** Linear feedback registers over any abelian group of exponent two. A symbol enters by shifting the
    register, adding the symbol, and adding one generator for each bit that was shifted out. */
module LinearRegister {
  import opened AbelianGroup

  datatype Register<!T> = Register(g: Group<T>, shift: T -> T, chosen: (T, nat) -> bool, generator: nat -> T, taps: nat)

  /** The generators chosen by the first i outgoing bits of x, added up. */
  function Taps<T>(r: Register<T>, x: T, i: nat): T
  {
    if i == 0 then r.g.zero
    else r.g.add(Taps(r, x, i - 1), if r.chosen(x, i - 1) then r.generator(i - 1) else r.g.zero)
  }

  function Step<T>(r: Register<T>, x: T, v: T): T
  {
    r.g.add(r.g.add(r.shift(x), v), Taps(r, x, r.taps))
  }

  function Run<T>(r: Register<T>, x: T, values: seq<T>): T
    decreases |values|
  {
    if values == [] then x else Run(r, Step(r, x, values[0]), values[1..])
  }

  function Zeros<T>(r: Register<T>, n: nat): (z: seq<T>)
    ensures |z| == n
  {
    seq(n, i => r.g.zero)
  }

  // ---------- Linearity ----------

  ghost predicate ShiftAdds<T>(r: Register<T>, a: T, b: T)
  {
    r.shift(r.g.add(a, b)) == r.g.add(r.shift(a), r.shift(b))
  }

  ghost predicate ChoiceAdds<T>(r: Register<T>, a: T, b: T, i: nat)
  {
    r.chosen(r.g.add(a, b), i) == (r.chosen(a, i) != r.chosen(b, i))
  }

  ghost predicate Linear<T(!new)>(r: Register<T>)
  {
    && IsAbelian(r.g)
    && (forall a :: Doubles(r.g, a))
    && (forall a, b :: ShiftAdds(r, a, b))
    && (forall a, b, i :: ChoiceAdds(r, a, b, i))
  }

  lemma {:induction false} TapsAdd<T(!new)>(r: Register<T>, a: T, b: T, i: nat)
    requires Linear(r)
    ensures Taps(r, r.g.add(a, b), i) == r.g.add(Taps(r, a, i), Taps(r, b, i))
    decreases i
  {
    if i == 0 {
      assert Doubles(r.g, r.g.zero);
    } else {
      var G, O := r.generator(i - 1), r.g.zero;
      var p := if r.chosen(a, i - 1) then G else O;
      var q := if r.chosen(b, i - 1) then G else O;
      TapsAdd(r, a, b, i - 1);
      assert ChoiceAdds(r, a, b, i - 1);
      AddZero(r, G);
      AddZero(r, O);
      assert (if r.chosen(r.g.add(a, b), i - 1) then G else O) == r.g.add(p, q);
      RegroupAll(r, Taps(r, a, i - 1), Taps(r, b, i - 1), p, q);
    }
  }

  lemma AddZero<T(!new)>(r: Register<T>, a: T)
    requires Linear(r)
    ensures r.g.add(a, r.g.zero) == a && r.g.add(r.g.zero, a) == a && r.g.add(a, a) == r.g.zero
  {
    assert Doubles(r.g, a) && Identity(r.g, a) && Commutes(r.g, a, r.g.zero);
  }

  lemma RegroupAll<T(!new)>(r: Register<T>, a: T, b: T, c: T, d: T)
    requires Linear(r)
    ensures r.g.add(r.g.add(a, b), r.g.add(c, d)) == r.g.add(r.g.add(a, c), r.g.add(b, d))
  {
    assert Doubles(r.g, a) && Doubles(r.g, b) && Doubles(r.g, c) && Doubles(r.g, d);
    Regroup(r.g, a, b, c, d);
  }

  lemma StepAdd<T(!new)>(r: Register<T>, a: T, b: T, v: T, w: T)
    requires Linear(r)
    ensures Step(r, r.g.add(a, b), r.g.add(v, w)) == r.g.add(Step(r, a, v), Step(r, b, w))
  {
    assert ShiftAdds(r, a, b);
    TapsAdd(r, a, b, r.taps);
    RegroupAll(r, r.shift(a), r.shift(b), v, w);
    RegroupAll(r, r.g.add(r.shift(a), v), r.g.add(r.shift(b), w), Taps(r, a, r.taps), Taps(r, b, r.taps));
  }

  /** What the register held and what enters it contribute independently. */
  lemma {:induction false} RunSplit<T(!new)>(r: Register<T>, a: T, b: T, values: seq<T>)
    requires Linear(r)
    ensures Run(r, r.g.add(a, b), values) == r.g.add(Run(r, a, Zeros(r, |values|)), Run(r, b, values))
    decreases |values|
  {
    if values != [] {
      var O := r.g.zero;
      AddZero(r, values[0]);
      StepAdd(r, a, b, O, values[0]);
      RunSplit(r, Step(r, a, O), Step(r, b, values[0]), values[1..]);
      assert Zeros(r, |values|)[1..] == Zeros(r, |values| - 1);
    }
  }

  /** Two registers that agree after the same symbol differ by one that the shift brings to zero. */
  lemma StepKernel<T(!new)>(r: Register<T>, a: T, b: T, v: T)
    requires Linear(r) && Step(r, a, v) == Step(r, b, v)
    ensures Step(r, r.g.add(a, b), r.g.zero) == r.g.zero
  {
    StepAdd(r, a, b, v, v);
    AddZero(r, v);
    AddZero(r, Step(r, a, v));
  }

  lemma {:induction false} RunAppend<T>(r: Register<T>, x: T, u: seq<T>, v: seq<T>)
    ensures Run(r, x, u + v) == Run(r, Run(r, x, u), v)
    decreases |u|
  {
    if u == [] {
      assert u + v == v;
    } else {
      RunAppend(r, Step(r, x, u[0]), u[1..], v);
      assert (u + v)[1..] == u[1..] + v;
    }
  }

  lemma RunPush<T>(r: Register<T>, x: T, u: seq<T>, v: T)
    ensures Run(r, x, u + [v]) == Step(r, Run(r, x, u), v)
  {
    RunAppend(r, x, u, [v]);
    var y := Run(r, x, u);
    assert Run(r, y, [v]) == Run(r, Step(r, y, v), [v][1..]);
  }

  lemma RunSix<T>(r: Register<T>, x: T, w: seq<T>)
    requires |w| == 6
    ensures Run(r, x, w) ==
              Step(r, Step(r, Step(r, Step(r, Step(r, Step(r, x, w[0]), w[1]), w[2]), w[3]), w[4]), w[5])
  {
    var n1 := Step(r, x, w[0]);
    var n2 := Step(r, n1, w[1]);
    var n3 := Step(r, n2, w[2]);
    var n4 := Step(r, n3, w[3]);
    var n5 := Step(r, n4, w[4]);
    calc {
      Run(r, x, w);
      Run(r, n1, w[1..]);
      { assert w[1..][1..] == w[2..]; }
      Run(r, n2, w[2..]);
      { assert w[2..][1..] == w[3..]; }
      Run(r, n3, w[3..]);
      { assert w[3..][1..] == w[4..]; }
      Run(r, n4, w[4..]);
      { assert w[4..][1..] == w[5..]; }
      Run(r, n5, w[5..]);
      { assert w[5..][1..] == []; }
      Step(r, n5, w[5]);
    }
  }

  ghost predicate StaysIn<T>(r: Register<T>, ok: T -> bool, x: T, v: T)
  {
    ok(x) && ok(v) ==> ok(Step(r, x, v))
  }

  ghost predicate LosesNothing<T>(r: Register<T>, ok: T -> bool, a: T, b: T, v: T)
  {
    ok(a) && ok(b) && Step(r, a, v) == Step(r, b, v) ==> a == b
  }

  /** If no step loses anything inside a set of registers, no sequence of steps does. */
  lemma {:induction false} RunInjective<T(!new)>(r: Register<T>, ok: T -> bool, a: T, b: T, values: seq<T>)
    requires forall x, v :: StaysIn(r, ok, x, v)
    requires forall x, y, v :: LosesNothing(r, ok, x, y, v)
    requires ok(a) && ok(b) && (forall i :: 0 <= i < |values| ==> ok(values[i]))
    requires Run(r, a, values) == Run(r, b, values)
    ensures a == b
    decreases |values|
  {
    if values != [] {
      var v := values[0];
      assert StaysIn(r, ok, a, v) && StaysIn(r, ok, b, v) && LosesNothing(r, ok, a, b, v);
      RunInjective(r, ok, Step(r, a, v), Step(r, b, v), values[1..]);
    }
  }
}
