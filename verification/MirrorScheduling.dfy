/** The coalescing scheduler inside ensureRemoteMirror of mirror-sync-manager.mjs. A run of the mirror
    is suspended at awaits, so triggers, the end of a run and stop interleave freely. */
module MirrorScheduling {
  import opened Executions

  /** The three closure variables, and how many bodies of runMirror are past their first line of the
      try block and not yet in its finally block. */
  datatype State = State(running: bool, pending: bool, closed: bool, active: nat)

  /** runMirror is called, a run reaches its finally block, stop is called. */
  datatype Event = Trigger | Finish | Stop

  const INIT := State(false, false, false, 0)

  /** A call of runMirror, up to its first await. */
  function RunMirror(s: State): State
  {
    if s.closed then s
    else if s.running then s.(pending := true)
    else s.(running := true, active := s.active + 1)
  }

  predicate Enabled(s: State, e: Event)
  {
    e.Finish? ==> s.active > 0
  }

  function Step(s: State, e: Event): State
    requires Enabled(s, e)
  {
    match e
    case Trigger => RunMirror(s)
    case Finish =>
      var done := s.(running := false, active := s.active - 1);
      if done.pending then RunMirror(done.(pending := false)) else done
    case Stop => s.(closed := true)
  }

  ghost predicate Inv(s: State)
  {
    && s.active == (if s.running then 1 else 0)
    && (s.pending ==> s.running)
  }

  // ---------- Runs ----------

  ghost predicate Start(s: State)
  {
    s == INIT
  }

  /** The states and events of an execution. */
  ghost predicate Run(ss: seq<State>, es: seq<Event>)
  {
    IsRun(Start, Next, ss, es)
  }

  ghost predicate Next(s: State, e: Event, s': State)
  {
    Enabled(s, e) && s' == Step(s, e)
  }

  /** A run of the mirror begins at step n. */
  ghost predicate StartsAt(ss: seq<State>, es: seq<Event>, n: nat)
    requires Run(ss, es) && n < |es|
  {
    var s := ss[n];
    !s.closed && (if es[n].Trigger? then !s.running else es[n].Finish? && s.pending)
  }

  lemma NextAt(ss: seq<State>, es: seq<Event>, n: nat)
    requires Run(ss, es) && n < |es|
    ensures Next(ss[n], es[n], ss[n + 1])
  {
    assert StepAt(Next, ss, es, n);
  }

  /** There is never more than one run, the flag says whether there is one, and a wish to run again is
      kept only while one is active. */
  lemma AlwaysOneRun(ss: seq<State>, es: seq<Event>, n: nat)
    requires Run(ss, es) && n <= |es|
    ensures Inv(ss[n]) && ss[n].active <= 1
    ensures ss[n].running <==> ss[n].active == 1
    ensures ss[n].pending ==> ss[n].running
  {
    forall s, e, s' | Inv(s) && Next(s, e, s')
      ensures Inv(s')
    {
      assert s' == Step(s, e);
    }
    Always(Start, Next, Inv, ss, es, n);
  }

  /** StartsAt says what it should: those are the steps after which a new body is active. */
  lemma StartsIff(ss: seq<State>, es: seq<Event>, n: nat)
    requires Run(ss, es) && n < |es|
    ensures StartsAt(ss, es, n) <==>
              ss[n + 1].active == ss[n].active + if es[n].Finish? then 0 else 1
  {
    NextAt(ss, es, n);
    AlwaysOneRun(ss, es, n);
  }

  ghost predicate ServedBy(ss: seq<State>, es: seq<Event>, i: nat, n: nat)
    requires Run(ss, es) && n <= |es|
  {
    exists j :: i <= j < n && StartsAt(ss, es, j)
  }

  /** No lost wakeup: after a trigger, a run has started that is no earlier than it, or one is active
      that will be followed by another, or the mirror was stopped. */
  lemma {:induction false} TriggerServed(ss: seq<State>, es: seq<Event>, i: nat, n: nat)
    requires Run(ss, es) && i < n <= |es| && es[i].Trigger?
    ensures ServedBy(ss, es, i, n) || ss[n].pending || ss[n].closed
    decreases n
  {
    NextAt(ss, es, n - 1);
    if i < n - 1 {
      TriggerServed(ss, es, i, n - 1);
      if ServedBy(ss, es, i, n - 1) {
        var j :| i <= j < n - 1 && StartsAt(ss, es, j);
        assert i <= j < n && StartsAt(ss, es, j);
      } else if !ss[n].closed && !ss[n].pending {
        assert StartsAt(ss, es, n - 1);
      }
    } else if !ss[i].closed && !ss[i].running {
      assert StartsAt(ss, es, i);
    }
  }

  /** After stop no run begins any more. */
  lemma {:induction false} StoppedIsQuiet(ss: seq<State>, es: seq<Event>, i: nat, n: nat)
    requires Run(ss, es) && i < n < |es| && es[i].Stop?
    ensures ss[n].closed && ss[n + 1].active <= ss[n].active
    decreases n
  {
    NextAt(ss, es, n - 1);
    NextAt(ss, es, n);
    if i < n - 1 { StoppedIsQuiet(ss, es, i, n - 1); }
    AlwaysOneRun(ss, es, n);
  }

  /** When the active run ends, a pending trigger starts the next one in the same step. */
  lemma PendingRunsNext(ss: seq<State>, es: seq<Event>, n: nat)
    requires Run(ss, es) && n < |es| && es[n].Finish? && ss[n].pending && !ss[n].closed
    ensures StartsAt(ss, es, n) && ss[n + 1].running && !ss[n + 1].pending
  {
    NextAt(ss, es, n);
  }

  /** Whenever the scheduler is idle and was not stopped, every trigger so far has been followed by a
      run that started no earlier than it. */
  lemma IdleMeansServed(ss: seq<State>, es: seq<Event>, i: nat, n: nat)
    requires Run(ss, es) && i < n <= |es| && es[i].Trigger?
    requires !ss[n].running && !ss[n].closed
    ensures ServedBy(ss, es, i, n)
  {
    TriggerServed(ss, es, i, n);
    AlwaysOneRun(ss, es, n);
  }

  ghost function Starts(ss: seq<State>, es: seq<Event>, n: nat): nat
    requires Run(ss, es) && n <= |es|
  {
    if n == 0 then 0 else Starts(ss, es, n - 1) + if StartsAt(ss, es, n - 1) then 1 else 0
  }

  function Triggers(es: seq<Event>, n: nat): nat
    requires n <= |es|
  {
    if n == 0 then 0 else Triggers(es, n - 1) + if es[n - 1].Trigger? then 1 else 0
  }

  /** Runs do not multiply: there are at most as many as triggers. */
  lemma {:induction false} NoMoreStartsThanTriggers(ss: seq<State>, es: seq<Event>, n: nat)
    requires Run(ss, es) && n <= |es|
    ensures Starts(ss, es, n) + (if ss[n].pending then 1 else 0) <= Triggers(es, n)
    decreases n
  {
    if n > 0 {
      NoMoreStartsThanTriggers(ss, es, n - 1);
      NextAt(ss, es, n - 1);
    }
  }

  // ---------- The closure ----------

  class Mirror {
    var running: bool
    var pending: bool
    var closed: bool
    ghost var active: nat

    ghost function Snapshot(): State
      reads this
    {
      State(running, pending, closed, active)
    }

    constructor ()
      ensures Snapshot() == INIT
    {
      running, pending, closed, active := false, false, false, 0;
    }

    /** runMirror up to its first await. */
    method BeginRun() returns (started: bool)
      modifies this
      ensures Snapshot() == Step(old(Snapshot()), Trigger)
      ensures started == (active == old(active) + 1)
    {
      if closed { return false; }
      if running {
        pending := true;
        return false;
      }
      running := true;
      active := active + 1;
      return true;
    }

    /** The finally block of runMirror. */
    method EndRun()
      requires Enabled(Snapshot(), Finish)
      modifies this
      ensures Snapshot() == Step(old(Snapshot()), Finish)
    {
      running := false;
      active := active - 1;
      if pending {
        pending := false;
        var _ := BeginRun();
      }
    }

    method StopMirror()
      modifies this
      ensures Snapshot() == Step(old(Snapshot()), Stop)
    {
      closed := true;
    }
  }
}
