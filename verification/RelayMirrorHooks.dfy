/** The debounced synchronisation that attachRelayMirrorHooks of index.js sets up: runSync,
    scheduleSync and the unsubscribe function. Updates, timers, ends of runs, disposal and starts and
    stops of the manager interleave freely. */
module RelayMirrorHooks {
  import opened Executions

  /** timer, inflight, pending, disposed and manager.started; the callbacks that the event loop will
      still call, and the bodies of runSync that have begun and not ended. */
  datatype State = State(timer: bool, inflight: bool, pending: bool, disposed: bool, started: bool,
                         callbacks: nat, active: nat)

  datatype Event = Update | TimerFires | Finish | Dispose | SetStarted(started: bool)

  /** Hooks are attached only to a started manager. */
  const INIT := State(false, false, false, false, true, 0, 0)

  function ScheduleSync(s: State): State
  {
    if s.disposed || !s.started then s
    else if s.timer || s.inflight then s.(pending := true)
    else s.(pending := true, timer := true, callbacks := s.callbacks + 1)
  }

  /** runSync up to its first await. */
  function RunSync(s: State): State
  {
    if s.disposed || !s.started then s
    else if s.inflight then s.(pending := true)
    else s.(inflight := true, active := s.active + 1)
  }

  predicate Enabled(s: State, e: Event)
  {
    (e.TimerFires? ==> s.callbacks > 0) && (e.Finish? ==> s.active > 0)
  }

  function Step(s: State, e: Event): State
    requires Enabled(s, e)
  {
    match e
    case Update => ScheduleSync(s)
    case TimerFires =>
      var s' := s.(timer := false, callbacks := s.callbacks - 1);
      if !s'.pending || s'.disposed then s' else RunSync(s'.(pending := false))
    case Finish =>
      var s' := s.(inflight := false, active := s.active - 1);
      if s'.pending && !s'.disposed then ScheduleSync(s'.(pending := false)) else s'
    case Dispose =>
      var s' := s.(disposed := true, pending := false);
      if s.timer && s.callbacks > 0 then s'.(timer := false, callbacks := s.callbacks - 1) else s'
    case SetStarted(b) => s.(started := b)
  }

  /** The variables mirror what is really scheduled and running; never both a timer and a run; a timer
      is there for a pending update, and a pending update has a timer or a run to wait for. */
  ghost predicate Inv(s: State)
  {
    && s.callbacks == (if s.timer then 1 else 0)
    && s.active == (if s.inflight then 1 else 0)
    && !(s.timer && s.inflight)
    && (s.pending ==> s.timer || s.inflight)
    && (s.timer ==> s.pending && !s.disposed)
    && (s.disposed ==> !s.pending)
  }

  // ---------- Runs ----------

  ghost predicate Start(s: State)
  {
    s == INIT
  }

  /** The states and events of an execution. */
  ghost predicate Run(ss: seq<State>, es: seq<Event>)
  {
    IsRun(Start, Next, ss, es)
  }

  ghost predicate Next(s: State, e: Event, s': State)
  {
    Enabled(s, e) && s' == Step(s, e)
  }

  lemma NextAt(ss: seq<State>, es: seq<Event>, n: nat)
    requires Run(ss, es) && n < |es|
    ensures Next(ss[n], es[n], ss[n + 1])
  {
    assert StepAt(Next, ss, es, n);
  }

  lemma AlwaysInv(ss: seq<State>, es: seq<Event>, n: nat)
    requires Run(ss, es) && n <= |es|
    ensures Inv(ss[n])
  {
    forall s, e, s' | Inv(s) && Next(s, e, s')
      ensures Inv(s')
    {
      assert s' == Step(s, e);
    }
    Always(Start, Next, Inv, ss, es, n);
  }

  /** There is never more than one timer callback to come or one run, and never both; an update that
      waits has one of them to wait for, and a timer is only there for an update. */
  lemma OneTimerOrRun(ss: seq<State>, es: seq<Event>, n: nat)
    requires Run(ss, es) && n <= |es|
    ensures ss[n].callbacks + ss[n].active <= 1
    ensures ss[n].timer <==> ss[n].callbacks == 1
    ensures ss[n].inflight <==> ss[n].active == 1
    ensures ss[n].pending ==> ss[n].timer || ss[n].inflight
    ensures ss[n].timer ==> ss[n].pending
  {
    AlwaysInv(ss, es, n);
  }

  /** A synchronisation begins at step n. */
  ghost predicate StartsAt(ss: seq<State>, es: seq<Event>, n: nat)
    requires Run(ss, es) && n < |es|
  {
    NextAt(ss, es, n);
    ss[n + 1].active == ss[n].active + 1
  }

  /** A timer that fires finds an update to serve and no run in its way: the guards of the callback
      and the re-entry branch of runSync are never taken. */
  lemma TimerFindsWork(ss: seq<State>, es: seq<Event>, n: nat)
    requires Run(ss, es) && n < |es| && es[n].TimerFires?
    ensures ss[n].pending && !ss[n].disposed && !ss[n].inflight
    ensures StartsAt(ss, es, n) <==> ss[n].started
  {
    AlwaysInv(ss, es, n);
    NextAt(ss, es, n);
  }

  ghost predicate ServedBy(ss: seq<State>, es: seq<Event>, i: nat, n: nat)
    requires Run(ss, es) && n <= |es|
  {
    exists j :: i <= j < n && StartsAt(ss, es, j)
  }

  /** Step k drops the update of step i: the manager is stopped, and the update comes with none waiting,
      or the timer fires, or a run ends with an update waiting. */
  ghost predicate DropAt(ss: seq<State>, es: seq<Event>, i: nat, k: nat)
    requires Run(ss, es) && k < |es|
  {
    !ss[k].started &&
    ((k == i && !ss[k].pending) || es[k].TimerFires? || (es[k].Finish? && ss[k].pending))
  }

  ghost predicate DroppedBy(ss: seq<State>, es: seq<Event>, i: nat, n: nat)
    requires Run(ss, es) && n <= |es|
  {
    exists k :: i <= k < n && DropAt(ss, es, i, k)
  }

  lemma ServedNext(ss: seq<State>, es: seq<Event>, i: nat, n: nat)
    requires Run(ss, es) && i <= n < |es|
    ensures ServedBy(ss, es, i, n + 1) <==> ServedBy(ss, es, i, n) || StartsAt(ss, es, n)
  {
    if ServedBy(ss, es, i, n) {
      var j :| i <= j < n && StartsAt(ss, es, j);
      assert i <= j < n + 1 && StartsAt(ss, es, j);
    }
    if StartsAt(ss, es, n) { assert i <= n < n + 1; }
  }

  lemma DroppedNext(ss: seq<State>, es: seq<Event>, i: nat, n: nat)
    requires Run(ss, es) && i <= n < |es|
    ensures DroppedBy(ss, es, i, n + 1) <==> DroppedBy(ss, es, i, n) || DropAt(ss, es, i, n)
  {
    if DroppedBy(ss, es, i, n) {
      var k :| i <= k < n && DropAt(ss, es, i, k);
      assert i <= k < n + 1 && DropAt(ss, es, i, k);
    }
    if DropAt(ss, es, i, n) { assert i <= n < n + 1; }
  }

  /** No lost update: it is served by a run that started no earlier, or still waits, or the hooks were
      disposed, or a step dropped it because the manager was stopped at that step. */
  lemma {:induction false} UpdateServed(ss: seq<State>, es: seq<Event>, i: nat, n: nat)
    requires Run(ss, es) && i < n <= |es| && es[i].Update?
    ensures ServedBy(ss, es, i, n) || ss[n].pending || ss[n].disposed || DroppedBy(ss, es, i, n)
    decreases n
  {
    NextAt(ss, es, n - 1);
    AlwaysInv(ss, es, n - 1);
    ServedNext(ss, es, i, n - 1);
    DroppedNext(ss, es, i, n - 1);
    if i < n - 1 { UpdateServed(ss, es, i, n - 1); }
  }

  /** With nothing scheduled and nothing running, before disposal, every update that no step dropped has
      been followed by a run that started no earlier than it. */
  lemma IdleMeansServed(ss: seq<State>, es: seq<Event>, i: nat, n: nat)
    requires Run(ss, es) && i < n <= |es| && es[i].Update?
    requires !ss[n].timer && !ss[n].inflight && !ss[n].disposed
    requires !DroppedBy(ss, es, i, n)
    ensures ServedBy(ss, es, i, n)
  {
    UpdateServed(ss, es, i, n);
    AlwaysInv(ss, es, n);
  }

  ghost predicate LastUpdate(es: seq<Event>, i: nat, n: nat)
    requires i < n <= |es|
  {
    es[i].Update? && forall k :: i < k < n ==> !es[k].Update?
  }

  lemma FateStep(ss: seq<State>, es: seq<Event>, i: nat, n: nat)
    requires Run(ss, es) && i < n < |es| && !es[n].Update?
    ensures StartsAt(ss, es, n) ==> ss[n].pending && !DropAt(ss, es, i, n)
    ensures DropAt(ss, es, i, n) ==> ss[n].pending
    ensures ss[n + 1].disposed ==> !ss[n + 1].pending
    ensures !ss[n + 1].disposed ==> !ss[n].disposed
    ensures !ss[n + 1].disposed ==>
              (ss[n + 1].pending <==> ss[n].pending && !StartsAt(ss, es, n) && !DropAt(ss, es, i, n))
  {
    NextAt(ss, es, n);
    AlwaysInv(ss, es, n);
    AlwaysInv(ss, es, n + 1);
  }

  /** The fate of the last update: it is never both served and dropped, and until disposal it waits
      exactly as long as it is neither. */
  lemma {:induction false} FateOfLastUpdate(ss: seq<State>, es: seq<Event>, i: nat, n: nat)
    requires Run(ss, es) && i < n <= |es| && LastUpdate(es, i, n)
    ensures !(ServedBy(ss, es, i, n) && DroppedBy(ss, es, i, n))
    ensures ss[n].pending ==> !ServedBy(ss, es, i, n) && !DroppedBy(ss, es, i, n)
    ensures !ss[n].disposed ==> (ss[n].pending <==> !ServedBy(ss, es, i, n) && !DroppedBy(ss, es, i, n))
    decreases n
  {
    ServedNext(ss, es, i, n - 1);
    DroppedNext(ss, es, i, n - 1);
    if i < n - 1 {
      FateOfLastUpdate(ss, es, i, n - 1);
      FateStep(ss, es, i, n - 1);
    } else {
      NextAt(ss, es, i);
      AlwaysInv(ss, es, i + 1);
    }
  }

  /** Exactly when an update is lost: once the hooks are idle, and before disposal, the last update has
      been served if and only if no step dropped it. */
  lemma ServedIffNotDropped(ss: seq<State>, es: seq<Event>, i: nat, n: nat)
    requires Run(ss, es) && i < n <= |es| && LastUpdate(es, i, n)
    requires !ss[n].timer && !ss[n].inflight && !ss[n].disposed
    ensures ServedBy(ss, es, i, n) <==> !DroppedBy(ss, es, i, n)
  {
    FateOfLastUpdate(ss, es, i, n);
    AlwaysInv(ss, es, n);
  }

  /** After disposal nothing is scheduled and nothing new starts. */
  lemma {:induction false} DisposedIsQuiet(ss: seq<State>, es: seq<Event>, i: nat, n: nat)
    requires Run(ss, es) && i < n < |es| && es[i].Dispose?
    ensures ss[n].disposed && !ss[n].timer && ss[n].callbacks == 0 && !StartsAt(ss, es, n)
    decreases n
  {
    NextAt(ss, es, n - 1);
    NextAt(ss, es, n);
    AlwaysInv(ss, es, n);
    if i < n - 1 { DisposedIsQuiet(ss, es, i, n - 1); }
  }

  /** Such a drop happens: a timer that fires while the manager is stopped drops the update, and a
      restart does not bring it back. */
  lemma StopLosesUpdate() returns (ss: seq<State>, es: seq<Event>)
    ensures es == [Update, SetStarted(false), TimerFires, SetStarted(true)]
    ensures Run(ss, es) && ss[4] == INIT && !ServedBy(ss, es, 0, 4) && DropAt(ss, es, 0, 2)
  {
    es := [Update, SetStarted(false), TimerFires, SetStarted(true)];
    var waiting := INIT.(pending := true, timer := true, callbacks := 1);
    ss := [INIT, waiting, waiting.(started := false), INIT.(started := false), INIT];
  }

  // ---------- The closure ----------

  class Hooks {
    var timer: bool
    var inflight: bool
    var pending: bool
    var disposed: bool
    var started: bool
    ghost var callbacks: nat
    ghost var active: nat

    ghost function Snapshot(): State
      reads this
    {
      State(timer, inflight, pending, disposed, started, callbacks, active)
    }

    constructor ()
      ensures Snapshot() == INIT
    {
      timer, inflight, pending, disposed, started, callbacks, active := false, false, false, false, true, 0, 0;
    }

    method Schedule()
      modifies this
      ensures Snapshot() == ScheduleSync(old(Snapshot()))
    {
      if disposed || !started { return; }
      pending := true;
      if timer || inflight { return; }
      timer := true;
      callbacks := callbacks + 1;
    }

    /** runSync up to its first await. */
    method BeginSync()
      modifies this
      ensures Snapshot() == RunSync(old(Snapshot()))
    {
      if disposed || !started { return; }
      if inflight {
        pending := true;
        return;
      }
      inflight := true;
      active := active + 1;
    }

    /** The update handler. */
    method OnUpdate()
      modifies this
      ensures Snapshot() == Step(old(Snapshot()), Update)
    {
      Schedule();
    }

    /** The timer callback of scheduleSync. */
    method OnTimer()
      requires Enabled(Snapshot(), TimerFires)
      modifies this
      ensures Snapshot() == Step(old(Snapshot()), TimerFires)
    {
      callbacks := callbacks - 1;
      timer := false;
      if !pending || disposed { return; }
      pending := false;
      BeginSync();
    }

    /** The finally block of runSync. */
    method EndSync()
      requires Enabled(Snapshot(), Finish)
      modifies this
      ensures Snapshot() == Step(old(Snapshot()), Finish)
    {
      active := active - 1;
      inflight := false;
      if pending && !disposed {
        pending := false;
        Schedule();
      }
    }

    /** The function kept in relayMirrorSubscriptions. */
    method Unsubscribe()
      requires Inv(Snapshot())
      modifies this
      ensures Snapshot() == Step(old(Snapshot()), Dispose)
    {
      disposed := true;
      pending := false;
      if timer {
        callbacks := callbacks - 1;
        timer := false;
      }
    }
  }
}
