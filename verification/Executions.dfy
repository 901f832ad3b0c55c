/** Executions of a state machine: the states between the events of a run, and invariants of all of
    them. Each protocol gives its initial states and its steps. */
module Executions {

  /** Event n leads from state n to the next one. */
  ghost predicate StepAt<S(!new), E(!new)>(next: (S, E, S) -> bool, ss: seq<S>, es: seq<E>, n: nat)
  {
    n < |es| && n + 1 < |ss| && next(ss[n], es[n], ss[n + 1])
  }

  ghost predicate IsRun<S(!new), E(!new)>(start: S -> bool, next: (S, E, S) -> bool, ss: seq<S>, es: seq<E>)
  {
    && |ss| == |es| + 1 && start(ss[0])
    && forall n :: 0 <= n < |es| ==> StepAt(next, ss, es, n)
  }

  ghost predicate Inductive<S(!new), E(!new)>(start: S -> bool, next: (S, E, S) -> bool, inv: S -> bool)
  {
    && (forall s :: start(s) ==> inv(s))
    && (forall s, e, s' :: inv(s) && next(s, e, s') ==> inv(s'))
  }

  lemma {:induction false} NonIncreasing(f: seq<int>, lo: nat, hi: nat)
    requires lo <= hi < |f| && forall m :: lo <= m < hi ==> f[m + 1] <= f[m]
    ensures f[hi] <= f[lo]
    decreases hi
  {
    if lo < hi { NonIncreasing(f, lo, hi - 1); }
  }

  /** What holds at the start and is kept by every step holds in every state of a run. */
  lemma {:induction false} Always<S(!new), E(!new)>(start: S -> bool, next: (S, E, S) -> bool, inv: S -> bool,
                                                    ss: seq<S>, es: seq<E>, n: nat)
    requires IsRun(start, next, ss, es) && Inductive(start, next, inv) && n <= |es|
    ensures inv(ss[n])
    decreases n
  {
    if n > 0 {
      Always(start, next, inv, ss, es, n - 1);
      assert StepAt(next, ss, es, n - 1);
    }
  }

  // ---------- What can follow a state ----------

  ghost predicate IsPath<S(!new), E(!new)>(next: (S, E, S) -> bool, s: S, x: S, ss: seq<S>, es: seq<E>)
  {
    IsRun((y: S) => y == s, next, ss, es) && ss[|es|] == x
  }

  ghost predicate Reaches<S(!new), E(!new)>(next: (S, E, S) -> bool, s: S, x: S)
  {
    exists ss, es :: IsPath(next, s, x, ss, es)
  }

  lemma ReachesSelf<S(!new), E(!new)>(next: (S, E, S) -> bool, s: S)
    ensures Reaches(next, s, s)
  {
    assert IsPath(next, s, s, [s], []);
  }

  lemma ReachesStep<S(!new), E(!new)>(next: (S, E, S) -> bool, s: S, e: E, t: S, x: S)
    requires next(s, e, t) && Reaches(next, t, x)
    ensures Reaches(next, s, x)
  {
    var ss, es :| IsPath(next, t, x, ss, es);
    forall n | 0 <= n < |es| + 1
      ensures StepAt(next, [s] + ss, [e] + es, n)
    {
      if n > 0 { assert StepAt(next, ss, es, n - 1); }
    }
    assert IsPath(next, s, x, [s] + ss, [e] + es);
  }

  lemma ReachesKeeps<S(!new), E(!new)>(next: (S, E, S) -> bool, inv: S -> bool, s: S, x: S)
    requires inv(s) && Reaches(next, s, x)
    requires forall y, e, z :: inv(y) && next(y, e, z) ==> inv(z)
    ensures inv(x)
  {
    var ss, es :| IsPath(next, s, x, ss, es);
    Always((y: S) => y == s, next, inv, ss, es, |es|);
  }

  /** There is always an unused number. */
  lemma {:induction false} Unused(used: set<nat>) returns (n: nat)
    ensures forall k :: k in used ==> k < n
    decreases used
  {
    n := 0;
    if k :| k in used {
      var m := Unused(used - {k});
      n := if m <= k then k + 1 else m;
      forall j | j in used
        ensures j < n
      {
        assert j == k || j in used - {k};
      }
    }
  }
}
