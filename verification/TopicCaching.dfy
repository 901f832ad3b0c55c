/** The reference-counted topic cache with delayed eviction of hyperdrive-manager.mjs. Every await and
    every timer callback is a step boundary, so the steps of different callers interleave freely. */
module TopicCaching {
  import opened Executions
  import opened Results

  type Key = string
  type HandleId = nat
  type JoinId = nat
  type TimerId = nat

  /** An entry of topicCache; join identifies its discovery session. */
  datatype Entry = Entry(join: JoinId, refCount: int, lastUsed: int, timer: Option<TimerId>)

  /** Waiting at the await, holding the release function, released, or failed at the await. */
  datatype Status = Waiting | Ready | Released | Failed

  datatype Handle = Handle(key: Key, join: JoinId, status: Status)

  /** The cache, the timers that will still fire, the joins that are not destroyed, and the calls of
      acquireRemoteTopic so far. */
  datatype State = State(cache: map<Key, Entry>, timers: map<TimerId, Key>, joins: map<JoinId, Key>,
                         handles: map<HandleId, Handle>)

  datatype Event =
    | Begin(handle: HandleId, key: Key, freshJoin: JoinId, now: int)
    | Succeed(handle: HandleId)
    | Fail(handle: HandleId)
    | Release(handle: HandleId, freshTimer: TimerId, now: int)
    | Fire(timer: TimerId)

  const INIT := State(map[], map[], map[], map[])

  /** acquireRemoteTopic from the cache lookup to its await. */
  function Acquire(s: State, key: Key, j: JoinId, now: int): State
  {
    if key in s.cache then
      var e := s.cache[key];
      s.(cache := s.cache[key := Entry(e.join, e.refCount + 1, now, None)],
         timers := if e.timer.Some? then s.timers - {e.timer.value} else s.timers)
    else
      s.(cache := s.cache[key := Entry(j, 1, now, None)], joins := s.joins[j := key])
  }

  function Max0(x: int): int
  {
    if x < 0 then 0 else x
  }

  /** releaseTopic, with setTimeoutEvict. */
  function ReleaseTopic(s: State, key: Key, t: TimerId, now: int): State
  {
    if key !in s.cache then s else
    var e := s.cache[key];
    var refCount := Max0(e.refCount - 1);
    var scheduled := refCount == 0 && e.timer.None?;
    s.(cache := s.cache[key := Entry(e.join, refCount, now, if scheduled then Some(t) else e.timer)],
       timers := if scheduled then s.timers[t := key] else s.timers)
  }

  /** The eviction callback. */
  function Evict(s: State, t: TimerId): State
    requires t in s.timers
  {
    var key := s.timers[t];
    var s' := s.(timers := s.timers - {t});
    if key !in s.cache || s.cache[key].refCount > 0 then s'
    else s'.(cache := s.cache - {key}, joins := s.joins - {s.cache[key].join})
  }

  predicate Enabled(s: State, e: Event)
  {
    match e
    case Begin(h, _, j, _) => h !in s.handles && j !in s.joins
    case Succeed(h) => h in s.handles && s.handles[h].status.Waiting?
    case Fail(h) => h in s.handles && s.handles[h].status.Waiting?
    case Release(h, t, _) => h in s.handles && s.handles[h].status.Ready? && t !in s.timers
    case Fire(t) => t in s.timers
  }

  function SetStatus(s: State, h: HandleId, status: Status): State
    requires h in s.handles
  {
    s.(handles := s.handles[h := s.handles[h].(status := status)])
  }

  function Step(s: State, e: Event): State
    requires Enabled(s, e)
  {
    match e
    case Begin(h, key, j, now) =>
      var s' := Acquire(s, key, j, now);
      s'.(handles := s.handles[h := Handle(key, s'.cache[key].join, Waiting)])
    case Succeed(h) => SetStatus(s, h, Ready)
    case Fail(h) => SetStatus(s, h, Failed)
    case Release(h, t, now) => SetStatus(ReleaseTopic(s, s.handles[h].key, t, now), h, Released)
    case Fire(t) => Evict(s, t)
  }

  // ---------- Invariant ----------

  /** An acquisition that has begun and whose release function has not been called. */
  predicate Holds(s: State, h: HandleId)
  {
    h in s.handles && !s.handles[h].status.Released?
  }

  function Holders(s: State, key: Key): set<HandleId>
  {
    set h | h in s.handles && Holds(s, h) && s.handles[h].key == key
  }

  /** The count is the number of acquisitions begun minus those released, and the entry waits for
      eviction exactly when that is zero. */
  ghost predicate EntryOk(s: State, key: Key)
    requires key in s.cache
  {
    var e := s.cache[key];
    && e.refCount == |Holders(s, key)|
    && (e.timer.Some? <==> e.refCount == 0)
    && (e.timer.Some? ==> e.timer.value in s.timers && s.timers[e.timer.value] == key)
    && e.join in s.joins && s.joins[e.join] == key
  }

  /** A holder's entry is the one it acquired. */
  ghost predicate HandleOk(s: State, h: HandleId)
    requires h in s.handles
  {
    var k := s.handles[h].key;
    Holds(s, h) ==> k in s.cache && s.cache[k].join == s.handles[h].join
  }

  ghost predicate TimerOk(s: State, t: TimerId)
    requires t in s.timers
  {
    s.timers[t] in s.cache && s.cache[s.timers[t]].timer == Some(t)
  }

  ghost predicate JoinOk(s: State, j: JoinId)
    requires j in s.joins
  {
    s.joins[j] in s.cache && s.cache[s.joins[j]].join == j
  }

  ghost predicate Inv(s: State)
  {
    && (forall key :: key in s.cache ==> EntryOk(s, key))
    && (forall h :: h in s.handles ==> HandleOk(s, h))
    && (forall t :: t in s.timers ==> TimerOk(s, t))
    && (forall j :: j in s.joins ==> JoinOk(s, j))
  }

  lemma HoldersWith(s: State, s': State, h: HandleId, x: Handle, key: Key)
    requires h !in s.handles && s'.handles == s.handles[h := x] && !x.status.Released?
    ensures |Holders(s', key)| == |Holders(s, key)| + if key == x.key then 1 else 0
  {
    forall g
      ensures g in Holders(s', key) <==> g in Holders(s, key) || (g == h && key == x.key)
    {
      assert Holds(s', g) <==> Holds(s, g) || g == h;
    }
    assert Holders(s', key) == if key == x.key then Holders(s, key) + {h} else Holders(s, key);
  }

  lemma HoldersWithout(s: State, s': State, h: HandleId, key: Key)
    requires Holds(s, h) && s'.handles == s.handles[h := s.handles[h].(status := Released)]
    ensures |Holders(s', key)| == |Holders(s, key)| - if key == s.handles[h].key then 1 else 0
  {
    assert Holders(s', key) == Holders(s, key) - if key == s.handles[h].key then {h} else {};
    assert h in Holders(s, s.handles[h].key);
  }

  lemma SameHolders(s: State, s': State, key: Key)
    requires s'.handles == s.handles
    ensures Holders(s', key) == Holders(s, key)
  {
  }

  lemma NoHoldersWithoutEntry(s: State, key: Key)
    requires Inv(s) && key !in s.cache
    ensures Holders(s, key) == {}
  {
    forall h
      ensures h !in Holders(s, key)
    {
      if h in s.handles { assert HandleOk(s, h); }
    }
  }

  lemma FirstJoinEntry(s: State, e: Event, key: Key)
    requires e.Begin? && Enabled(s, e) && e.key !in s.cache && Holders(s, e.key) == {}
    requires key in s.cache ==> EntryOk(s, key)
    requires key in Step(s, e).cache
    ensures EntryOk(Step(s, e), key)
  {
    HoldersWith(s, Step(s, e), e.handle, Handle(e.key, e.freshJoin, Waiting), key);
  }

  lemma FirstJoinKeeps(s: State, e: Event)
    requires Inv(s) && e.Begin? && Enabled(s, e) && e.key !in s.cache
    ensures Inv(Step(s, e))
  {
    var s' := Step(s, e);
    NoHoldersWithoutEntry(s, e.key);
    forall key | key in s'.cache
      ensures EntryOk(s', key)
    {
      FirstJoinEntry(s, e, key);
    }
    forall h | h in s'.handles
      ensures HandleOk(s', h)
    {
      FirstJoinHandle(s, e, h);
    }
    forall t | t in s'.timers
      ensures TimerOk(s', t)
    {
      assert TimerOk(s, t);
    }
    forall j | j in s'.joins
      ensures JoinOk(s', j)
    {
      assert j != e.freshJoin ==> JoinOk(s, j);
    }
  }

  lemma FirstJoinHandle(s: State, e: Event, h: HandleId)
    requires e.Begin? && Enabled(s, e) && e.key !in s.cache && h in Step(s, e).handles
    requires h in s.handles ==> HandleOk(s, h)
    ensures HandleOk(Step(s, e), h)
  {
  }

  lemma ReuseEntry(s: State, e: Event, key: Key)
    requires e.Begin? && Enabled(s, e) && e.key in s.cache && EntryOk(s, e.key)
    requires key in s.cache && EntryOk(s, key)
    ensures key in Step(s, e).cache && EntryOk(Step(s, e), key)
  {
    HoldersWith(s, Step(s, e), e.handle, Handle(e.key, s.cache[e.key].join, Waiting), key);
  }

  lemma ReuseTimer(s: State, e: Event, t: TimerId)
    requires e.Begin? && Enabled(s, e) && e.key in s.cache && t in Step(s, e).timers
    requires t in s.timers && TimerOk(s, t)
    ensures TimerOk(Step(s, e), t)
  {
  }

  lemma ReuseKeeps(s: State, e: Event)
    requires Inv(s) && e.Begin? && Enabled(s, e) && e.key in s.cache
    ensures Inv(Step(s, e))
  {
    var s' := Step(s, e);
    forall key | key in s'.cache
      ensures EntryOk(s', key)
    {
      ReuseEntry(s, e, key);
    }
    forall h | h in s'.handles
      ensures HandleOk(s', h)
    {
      assert h != e.handle ==> HandleOk(s, h);
    }
    forall t | t in s'.timers
      ensures TimerOk(s', t)
    {
      ReuseTimer(s, e, t);
    }
    assert forall j :: j in s'.joins ==> JoinOk(s, j) && JoinOk(s', j);
  }

  lemma StatusKeeps(s: State, e: Event)
    requires Inv(s) && (e.Succeed? || e.Fail?) && Enabled(s, e)
    ensures Inv(Step(s, e))
  {
    var s' := Step(s, e);
    forall key | key in s'.cache
      ensures EntryOk(s', key)
    {
      StatusHolders(s, e, key);
      assert EntryOk(s, key);
    }
    assert forall h :: h in s'.handles ==> HandleOk(s, h) && HandleOk(s', h);
    assert forall t :: t in s'.timers ==> TimerOk(s, t) && TimerOk(s', t);
    assert forall j :: j in s'.joins ==> JoinOk(s, j) && JoinOk(s', j);
  }

  lemma StatusHolders(s: State, e: Event, key: Key)
    requires (e.Succeed? || e.Fail?) && Enabled(s, e)
    ensures Holders(Step(s, e), key) == Holders(s, key)
  {
  }

  lemma ReleaseEntry(s: State, e: Event, key: Key)
    requires e.Release? && Enabled(s, e) && key in s.cache && EntryOk(s, key)
    ensures key in Step(s, e).cache && EntryOk(Step(s, e), key)
  {
    HoldersWithout(s, Step(s, e), e.handle, key);
  }

  lemma ReleaseTimer(s: State, e: Event, t: TimerId)
    requires e.Release? && Enabled(s, e) && t in Step(s, e).timers
    requires t in s.timers ==> TimerOk(s, t)
    ensures TimerOk(Step(s, e), t)
  {
  }

  lemma ReleaseKeeps(s: State, e: Event)
    requires Inv(s) && e.Release? && Enabled(s, e)
    ensures Inv(Step(s, e))
  {
    var s' := Step(s, e);
    forall key | key in s'.cache
      ensures EntryOk(s', key)
    {
      ReleaseEntry(s, e, key);
    }
    assert forall h :: h in s'.handles ==> HandleOk(s, h) && HandleOk(s', h);
    forall t | t in s'.timers
      ensures TimerOk(s', t)
    {
      ReleaseTimer(s, e, t);
    }
    assert forall j :: j in s'.joins ==> JoinOk(s, j) && JoinOk(s', j);
  }

  /** The entry whose timer fires has no holders. */
  lemma FireFindsUnheld(s: State, t: TimerId)
    requires Inv(s) && t in s.timers
    ensures var k := s.timers[t];
            && k in s.cache && s.cache[k].timer == Some(t) && s.cache[k].refCount == 0 && Holders(s, k) == {}
  {
    assert TimerOk(s, t) && EntryOk(s, s.timers[t]);
  }

  lemma FireEntry(s: State, e: Event, key: Key)
    requires Inv(s) && e.Fire? && Enabled(s, e) && key in Step(s, e).cache
    ensures EntryOk(Step(s, e), key)
  {
    FireFindsUnheld(s, e.timer);
    var k := s.timers[e.timer];
    assert EntryOk(s, key) && EntryOk(s, k);
    SameHolders(s, Step(s, e), key);
    assert key != k && Step(s, e).cache[key] == s.cache[key];
  }

  lemma FireKeeps(s: State, e: Event)
    requires Inv(s) && e.Fire? && Enabled(s, e)
    ensures Inv(Step(s, e))
  {
    var s' := Step(s, e);
    FireFindsUnheld(s, e.timer);
    forall key | key in s'.cache
      ensures EntryOk(s', key)
    {
      FireEntry(s, e, key);
    }
    forall h | h in s'.handles
      ensures HandleOk(s', h)
    {
      assert HandleOk(s, h) && h !in Holders(s, s.timers[e.timer]);
    }
    forall t | t in s'.timers
      ensures TimerOk(s', t)
    {
      assert TimerOk(s, t);
    }
    forall j | j in s'.joins
      ensures JoinOk(s', j)
    {
      assert JoinOk(s, j);
    }
  }

  lemma StepKeeps(s: State, e: Event)
    requires Inv(s) && Enabled(s, e)
    ensures Inv(Step(s, e))
  {
    match e
    case Begin(_, key, _, _) => if key in s.cache { ReuseKeeps(s, e); } else { FirstJoinKeeps(s, e); }
    case Succeed(_) => StatusKeeps(s, e);
    case Fail(_) => StatusKeeps(s, e);
    case Release(_, _, _) => ReleaseKeeps(s, e);
    case Fire(_) => FireKeeps(s, e);
  }

  // ---------- Runs ----------

  ghost predicate Start(s: State)
  {
    s == INIT
  }

  /** The states and events of an execution. */
  ghost predicate Run(ss: seq<State>, es: seq<Event>)
  {
    IsRun(Start, Next, ss, es)
  }

  ghost predicate Next(s: State, e: Event, s': State)
  {
    Enabled(s, e) && s' == Step(s, e)
  }

  lemma NextAt(ss: seq<State>, es: seq<Event>, n: nat)
    requires Run(ss, es) && n < |es|
    ensures Next(ss[n], es[n], ss[n + 1])
  {
    assert StepAt(Next, ss, es, n);
  }

  lemma AlwaysInv(ss: seq<State>, es: seq<Event>, n: nat)
    requires Run(ss, es) && n <= |es|
    ensures Inv(ss[n])
  {
    forall s, e, s' | Inv(s) && Next(s, e, s')
      ensures Inv(s')
    {
      StepKeeps(s, e);
    }
    Always(Start, Next, Inv, ss, es, n);
  }

  /** An acquisition or a release of the topic key begins. */
  ghost predicate Touches(s: State, e: Event, key: Key)
  {
    match e
    case Begin(_, k, _, _) => k == key
    case Release(h, _, _) => h in s.handles && s.handles[h].key == key
    case _ => false
  }

  ghost predicate LastTouched(ss: seq<State>, es: seq<Event>, m: nat, n: nat, key: Key)
    requires Run(ss, es) && m < n <= |es|
  {
    Touches(ss[m], es[m], key) && forall i :: m < i < n ==> !Touches(ss[i], es[i], key)
  }

  /** lastUsed is the time of the last acquisition or release of the topic. */
  lemma {:induction false} LastUsedIs(ss: seq<State>, es: seq<Event>, n: nat, key: Key) returns (m: nat)
    requires Run(ss, es) && n <= |es| && key in ss[n].cache
    ensures m < n && LastTouched(ss, es, m, n, key)
    ensures (es[m].Begin? || es[m].Release?) && ss[n].cache[key].lastUsed == es[m].now
    decreases n
  {
    assert n > 0;
    NextAt(ss, es, n - 1);
    if Touches(ss[n - 1], es[n - 1], key) {
      m := n - 1;
    } else {
      m := LastUsedIs(ss, es, n - 1, key);
    }
  }

  /** In every reachable state the count of an entry is its holders, a live entry has a timer exactly
      when nobody holds it, a held key has an entry, and each key has at most one live join. */
  lemma ReachableOk(ss: seq<State>, es: seq<Event>, n: nat, key: Key)
    requires Run(ss, es) && n <= |es|
    ensures var s := ss[n];
            && (key in s.cache ==> s.cache[key].refCount == |Holders(s, key)|)
            && (key in s.cache ==> (s.cache[key].timer.Some? <==> Holders(s, key) == {}))
            && (Holders(s, key) != {} ==> key in s.cache)
            && (forall i, j :: i in s.joins && j in s.joins && s.joins[i] == key && s.joins[j] == key ==> i == j)
  {
    AlwaysInv(ss, es, n);
    var s := ss[n];
    if key in s.cache {
      assert EntryOk(s, key);
      if Holders(s, key) == {} { assert |Holders(s, key)| == 0; }
    } else {
      NoHoldersWithoutEntry(s, key);
    }
    forall i, j | i in s.joins && j in s.joins && s.joins[i] == key && s.joins[j] == key
      ensures i == j
    {
      assert JoinOk(s, i) && JoinOk(s, j);
    }
  }

  lemma HandleStep(s: State, e: Event, h: HandleId)
    requires Enabled(s, e) && h in s.handles
    ensures h in Step(s, e).handles
    ensures var x, x' := s.handles[h], Step(s, e).handles[h];
            && x'.key == x.key && x'.join == x.join
            && (x.status.Released? ==> x'.status.Released?) && (x.status.Failed? ==> x'.status.Failed?)
  {
  }

  /** What an acquisition got stays the same, and a release is for good. */
  lemma {:induction false} HandlePersists(ss: seq<State>, es: seq<Event>, i: nat, n: nat, h: HandleId)
    requires Run(ss, es) && i <= n <= |es| && h in ss[i].handles
    ensures h in ss[n].handles
    ensures ss[n].handles[h].key == ss[i].handles[h].key && ss[n].handles[h].join == ss[i].handles[h].join
    ensures Holds(ss[n], h) ==> Holds(ss[i], h)
    decreases n
  {
    if i < n {
      HandlePersists(ss, es, i, n - 1, h);
      NextAt(ss, es, n - 1);
      HandleStep(ss[n - 1], es[n - 1], h);
    }
  }

  /** No early eviction: from the moment an acquisition has begun until its release, its join is alive
      and is the one in the cache. */
  lemma NoEarlyEviction(ss: seq<State>, es: seq<Event>, i: nat, k: nat, n: nat, h: HandleId)
    requires Run(ss, es) && i <= k <= n <= |es| && h in ss[i].handles && Holds(ss[n], h)
    ensures var key, join := ss[i].handles[h].key, ss[i].handles[h].join;
            join in ss[k].joins && key in ss[k].cache && ss[k].cache[key].join == join
  {
    HandlePersists(ss, es, i, k, h);
    HandlePersists(ss, es, k, n, h);
    AlwaysInv(ss, es, k);
    assert HandleOk(ss[k], h) && EntryOk(ss[k], ss[k].handles[h].key);
  }

  /** A release used once finds the entry that its acquisition used, with a positive count; the clamp
      at zero is never needed. */
  lemma ReleaseFindsOwnEntry(ss: seq<State>, es: seq<Event>, n: nat)
    requires Run(ss, es) && n < |es| && es[n].Release?
    ensures es[n].handle in ss[n].handles
    ensures var s, h := ss[n], ss[n].handles[es[n].handle];
            && h.key in s.cache && s.cache[h.key].join == h.join && s.cache[h.key].refCount >= 1
            && h.key in ss[n + 1].cache && ss[n + 1].cache == s.cache[h.key := ss[n + 1].cache[h.key]]
            && ss[n + 1].cache[h.key].refCount == s.cache[h.key].refCount - 1
  {
    NextAt(ss, es, n);
    AlwaysInv(ss, es, n);
    var s, h := ss[n], es[n].handle;
    assert HandleOk(s, h) && EntryOk(s, s.handles[h].key);
    assert h in Holders(s, s.handles[h].key);
  }

  /** A timer that fires always evicts: it was neither cleared nor overtaken by a new acquisition. */
  lemma FireEvicts(ss: seq<State>, es: seq<Event>, n: nat)
    requires Run(ss, es) && n < |es| && es[n].Fire?
    ensures es[n].timer in ss[n].timers
    ensures var s, k := ss[n], ss[n].timers[es[n].timer];
            && k in s.cache && s.cache[k].timer == Some(es[n].timer) && Holders(s, k) == {}
            && ss[n + 1].cache == s.cache - {k} && ss[n + 1].joins == s.joins - {s.cache[k].join}
  {
    NextAt(ss, es, n);
    AlwaysInv(ss, es, n);
    assert TimerOk(ss[n], es[n].timer) && EntryOk(ss[n], ss[n].timers[es[n].timer]);
  }

  /** A failed acquisition counts for ever: its caller gets no release function, so the topic is never
      evicted again. */
  lemma {:induction false} FailedPinsTopic(ss: seq<State>, es: seq<Event>, i: nat, n: nat)
    requires Run(ss, es) && i < n <= |es| && es[i].Fail?
    ensures es[i].handle in ss[i].handles
    ensures var s, x := ss[n], ss[i].handles[es[i].handle];
            && x.join in s.joins && x.key in s.cache && s.cache[x.key].join == x.join
            && s.cache[x.key].refCount >= 1
  {
    var h := es[i].handle;
    NextAt(ss, es, i);
    FailedStays(ss, es, i + 1, n, h);
    NoEarlyEviction(ss, es, i, n, n, h);
    HandlePersists(ss, es, i, n, h);
    AlwaysInv(ss, es, n);
    assert EntryOk(ss[n], ss[n].handles[h].key);
    assert h in Holders(ss[n], ss[n].handles[h].key);
  }

  lemma {:induction false} FailedStays(ss: seq<State>, es: seq<Event>, i: nat, n: nat, h: HandleId)
    requires Run(ss, es) && i <= n <= |es| && h in ss[i].handles && ss[i].handles[h].status.Failed?
    ensures h in ss[n].handles && ss[n].handles[h].status.Failed?
    decreases n
  {
    if i < n {
      FailedStays(ss, es, i, n - 1, h);
      NextAt(ss, es, n - 1);
      HandleStep(ss[n - 1], es[n - 1], h);
    }
  }

  // ---------- Why each release function may be called only once ----------

  /** Exactly when a further call of a release function does no harm: if nobody holds the topic. */
  lemma ExtraReleaseHarmless(s: State, key: Key, t: TimerId, now: int)
    requires Inv(s) && t !in s.timers
    ensures Inv(ReleaseTopic(s, key, t, now)) <==> Holders(s, key) == {}
  {
    var s' := ReleaseTopic(s, key, t, now);
    assert forall k :: Holders(s', k) == Holders(s, k);
    if key !in s.cache {
      NoHoldersWithoutEntry(s, key);
    } else {
      assert EntryOk(s, key);
      if Holders(s, key) == {} {
        ReleaseUnheld(s, key, t, now);
      } else {
        assert !EntryOk(s', key);
      }
    }
  }

  /** On an entry without holders only the time of last use changes. */
  lemma ReleaseUnheld(s: State, key: Key, t: TimerId, now: int)
    requires Inv(s) && key in s.cache && Holders(s, key) == {}
    ensures Inv(ReleaseTopic(s, key, t, now))
  {
    assert EntryOk(s, key);
    TouchKeeps(s, key, now);
  }

  lemma TouchKeeps(s: State, key: Key, now: int)
    requires Inv(s) && key in s.cache
    ensures Inv(s.(cache := s.cache[key := s.cache[key].(lastUsed := now)]))
  {
    var s' := s.(cache := s.cache[key := s.cache[key].(lastUsed := now)]);
    forall k | k in s'.cache
      ensures EntryOk(s', k)
    {
      SameHolders(s, s', k);
      assert EntryOk(s, k);
    }
    assert forall h :: h in s'.handles ==> HandleOk(s, h) && HandleOk(s', h);
    assert forall u :: u in s'.timers ==> TimerOk(s, u) && TimerOk(s', u);
    assert forall j :: j in s'.joins ==> JoinOk(s, j) && JoinOk(s', j);
  }

  /** And the harm: the count is one too low, so that with a single holder left the eviction timer runs
      while the topic is held, and destroys it. */
  lemma ExtraReleaseUndercounts(s: State, key: Key, t: TimerId, now: int, h: HandleId)
    requires Inv(s) && t !in s.timers && h in Holders(s, key)
    ensures var s' := ReleaseTopic(s, key, t, now);
            && key in s'.cache && s'.cache[key].refCount == |Holders(s', key)| - 1
            && (Holders(s, key) == {h} ==>
                  t in s'.timers && Holds(Evict(s', t), h) && s.handles[h].join !in Evict(s', t).joins)
  {
    var s' := ReleaseTopic(s, key, t, now);
    assert HandleOk(s, h) && EntryOk(s, key);
    assert Holders(s', key) == Holders(s, key);
    if Holders(s, key) == {h} { assert |Holders(s, key)| == 1; }
  }

  /** An acquisition whose caller waits for the topic or uses it. */
  ghost predicate Usable(s: State, h: HandleId)
  {
    h in s.handles && (s.handles[h].status.Waiting? || s.handles[h].status.Ready?)
  }

  ghost function Users(s: State, key: Key): set<HandleId>
  {
    set h | h in s.handles && Usable(s, h) && s.handles[h].key == key
  }

  /** The topic of h was destroyed under it. */
  ghost predicate Destroyed(s: State, h: HandleId)
  {
    Usable(s, h) && s.handles[h].join !in s.joins
  }

  /** What is left of the invariant when a count may be too low: it is enough for those who use the topic. */
  ghost predicate Enough(s: State, key: Key)
  {
    key in s.cache ==>
      var e := s.cache[key]; |Users(s, key)| <= e.refCount && e.join in s.joins && s.joins[e.join] == key
  }

  ghost predicate UserOk(s: State, h: HandleId)
  {
    Usable(s, h) ==> var x := s.handles[h]; x.key in s.cache && s.cache[x.key].join == x.join
  }

  ghost predicate AllEnough(s: State)
  {
    (forall key :: Enough(s, key)) && (forall h :: UserOk(s, h))
  }

  lemma UsersWith(s: State, s': State, h: HandleId, x: Handle, key: Key)
    requires h !in s.handles && s'.handles == s.handles[h := x]
    ensures |Users(s', key)| <= |Users(s, key)| + if key == x.key then 1 else 0
  {
    SubsetSize(Users(s', key), if key == x.key then Users(s, key) + {h} else Users(s, key));
  }

  lemma UsersChanged(s: State, s': State, h: HandleId, status: Status, key: Key)
    requires Usable(s, h) && s'.handles == s.handles[h := s.handles[h].(status := status)]
    ensures |Users(s', key)| <= |Users(s, key)| - if key == s.handles[h].key && status.Released? then 1 else 0
  {
    if key == s.handles[h].key && status.Released? {
      assert h in Users(s, key);
      SubsetSize(Users(s', key), Users(s, key) - {h});
    } else {
      SubsetSize(Users(s', key), Users(s, key));
    }
  }

  /** A step changes the users of a key by at most the handle it is about. */
  lemma UsersStep(s: State, e: Event, key: Key)
    requires Enabled(s, e)
    ensures var more := if e.Begin? && e.key == key then 1 else 0;
            var less := if e.Release? && s.handles[e.handle].key == key then 1 else 0;
            |Users(Step(s, e), key)| <= |Users(s, key)| + more - less
  {
    var s' := Step(s, e);
    match e
    case Begin(h, _, _, _) => UsersWith(s, s', h, s'.handles[h], key);
    case Succeed(h) => UsersChanged(s, s', h, Ready, key);
    case Fail(h) => UsersChanged(s, s', h, Failed, key);
    case Release(h, _, _) => UsersChanged(s, s', h, Released, key);
    case Fire(_) => assert Users(s', key) == Users(s, key);
  }

  lemma NoUsers(s: State, key: Key)
    requires AllEnough(s) && key !in s.cache
    ensures Users(s, key) == {}
  {
    forall h
      ensures h !in Users(s, key)
    {
      assert UserOk(s, h);
    }
  }

  lemma EnoughStep(s: State, e: Event, key: Key)
    requires AllEnough(s) && Enabled(s, e)
    ensures Enough(Step(s, e), key)
  {
    UsersStep(s, e, key);
    assert Enough(s, key);
    if key !in s.cache { NoUsers(s, key); }
    if e.Fire? { assert Enough(s, s.timers[e.timer]); }
  }

  lemma UserStep(s: State, e: Event, h: HandleId)
    requires AllEnough(s) && Enabled(s, e)
    ensures UserOk(Step(s, e), h)
  {
    assert UserOk(s, h);
    if e.Fire? && Usable(s, h) && s.handles[h].key == s.timers[e.timer] {
      assert Enough(s, s.handles[h].key);
      assert h in Users(s, s.handles[h].key);
    }
  }

  lemma EnoughKeeps(s: State, e: Event)
    requires AllEnough(s) && Enabled(s, e)
    ensures AllEnough(Step(s, e))
  {
    forall key
      ensures Enough(Step(s, e), key)
    {
      EnoughStep(s, e, key);
    }
    forall h
      ensures UserOk(Step(s, e), h)
    {
      UserStep(s, e, h);
    }
  }

  /** As long as the counts are enough, nobody loses a topic. */
  lemma EnoughIsSafe(s: State, x: State, h: HandleId)
    requires AllEnough(s) && Reaches(Next, s, x)
    ensures !Destroyed(x, h)
  {
    forall y, e, z | AllEnough(y) && Next(y, e, z)
      ensures AllEnough(z)
    {
      EnoughKeeps(y, e);
    }
    ReachesKeeps(Next, AllEnough, s, x);
    if Usable(x, h) { assert UserOk(x, h) && Enough(x, x.handles[h].key); }
  }

  /** The count of the key is one too low, and no holder of it has failed. */
  ghost predicate OneShort(s: State, key: Key)
  {
    && key in s.cache
    && var e := s.cache[key];
       && 0 <= e.refCount == |Holders(s, key)| - 1
       && (e.timer.Some? <==> e.refCount == 0)
       && (e.timer.Some? ==> e.timer.value in s.timers && s.timers[e.timer.value] == key)
       && (forall h :: h in Holders(s, key) ==> Usable(s, h) && s.handles[h].join == e.join)
  }

  lemma OneShortSucceeds(s: State, key: Key, h: HandleId)
    requires OneShort(s, key) && h in s.handles && s.handles[h].status.Waiting?
    ensures var s' := SetStatus(s, h, Ready); OneShort(s', key) && Holders(s', key) == Holders(s, key)
  {
    assert Holders(SetStatus(s, h, Ready), key) == Holders(s, key);
  }

  lemma OneShortReleases(s: State, key: Key, h: HandleId, t: TimerId)
    requires OneShort(s, key) && s.cache[key].refCount > 0
    requires h in Holders(s, key) && s.handles[h].status.Ready? && t !in s.timers
    ensures var s' := Step(s, Release(h, t, 0)); OneShort(s', key) && |Holders(s', key)| == |Holders(s, key)| - 1
  {
    var s' := Step(s, Release(h, t, 0));
    HoldersWithout(s, s', h, key);
    assert Holders(s', key) == Holders(s, key) - {h};
  }

  /** Then the holders but one can release the topic, and the timer destroys it under the last one. */
  lemma {:induction false} ReleasesDestroy(s: State, key: Key) returns (x: State, h: HandleId)
    requires OneShort(s, key)
    ensures Reaches(Next, s, x) && Destroyed(x, h)
    decreases |Holders(s, key)|
  {
    h :| h in Holders(s, key);
    var e := s.cache[key];
    if e.refCount == 0 {
      x := Evict(s, e.timer.value);
      ReachesSelf(Next, x);
      ReachesStep(Next, s, Fire(e.timer.value), x, x);
    } else {
      var s1 := s;
      if s.handles[h].status.Waiting? {
        s1 := Step(s, Succeed(h));
        OneShortSucceeds(s, key, h);
      }
      var t := Unused(s1.timers.Keys);
      var released := h;
      OneShortReleases(s1, key, h, t);
      x, h := ReleasesDestroy(Step(s1, Release(h, t, 0)), key);
      ReachesStep(Next, s1, Release(released, t, 0), Step(s1, Release(released, t, 0)), x);
      if s1 != s { ReachesStep(Next, s, Succeed(released), s1, x); }
    }
  }

  /** Exactly when a further call of a release function can destroy a topic under somebody who waits for
      it or uses it: if the topic is held, and by none whose acquisition failed. A failed acquisition is
      counted for ever, and makes up for the call. */
  lemma ExtraReleaseDestroysIff(s: State, key: Key, t: TimerId, now: int)
    requires Inv(s) && t !in s.timers
    ensures (exists x, h :: Reaches(Next, ReleaseTopic(s, key, t, now), x) && Destroyed(x, h)) <==>
              Holders(s, key) != {} && Holders(s, key) == Users(s, key)
  {
    var s' := ReleaseTopic(s, key, t, now);
    if Holders(s, key) != {} && Holders(s, key) == Users(s, key) {
      ShortAfterRelease(s, key, t, now);
      var x, h := ReleasesDestroy(s', key);
    } else {
      forall k
        ensures Enough(s', k)
      {
        EnoughAfterRelease(s, key, t, now, k);
      }
      forall h
        ensures UserOk(s', h)
      {
        if h in s.handles { assert HandleOk(s, h); }
      }
      forall x, h | Reaches(Next, s', x)
        ensures !Destroyed(x, h)
      {
        EnoughIsSafe(s', x, h);
      }
    }
  }

  lemma ShortAfterRelease(s: State, key: Key, t: TimerId, now: int)
    requires Inv(s) && t !in s.timers && Holders(s, key) != {} && Holders(s, key) == Users(s, key)
    ensures OneShort(ReleaseTopic(s, key, t, now), key)
  {
    var s' := ReleaseTopic(s, key, t, now);
    assert Holders(s', key) == Holders(s, key);
    var g :| g in Holders(s, key);
    assert HandleOk(s, g) && EntryOk(s, key);
    forall h | h in Holders(s', key)
      ensures Usable(s', h) && s'.handles[h].join == s'.cache[key].join
    {
      assert h in Users(s, key) && HandleOk(s, h);
    }
  }

  lemma EnoughAfterRelease(s: State, key: Key, t: TimerId, now: int, k: Key)
    requires Inv(s) && !(Holders(s, key) != {} && Holders(s, key) == Users(s, key))
    ensures Enough(ReleaseTopic(s, key, t, now), k)
  {
    var s' := ReleaseTopic(s, key, t, now);
    if k in s.cache {
      assert EntryOk(s, k);
      assert Users(s', k) == Users(s, k) <= Holders(s, k);
      SubsetSize(Users(s, k), Holders(s, k));
    }
  }

  lemma {:induction false} SubsetSize(a: set<HandleId>, b: set<HandleId>)
    requires a <= b
    ensures |a| <= |b| && (a != b ==> |a| < |b|)
  {
    assert b == a + (b - a);
  }

  /** Two acquisitions of a key, of which the first is released. */
  function TwoAcquired(key: Key): State
  {
    var s1 := Step(INIT, Begin(0, key, 0, 0));
    var s2 := Step(s1, Succeed(0));
    var s3 := Step(s2, Begin(1, key, 1, 0));
    Step(s3, Release(0, 0, 0))
  }

  /** Such a state is reached: calling the first release function again evicts the topic under the
      second holder. */
  lemma SecondReleaseEvictsHeld(key: Key)
    ensures var s := ReleaseTopic(TwoAcquired(key), key, 0, 0);
            && 0 in s.timers && Holds(s, 1) && s.handles[1].join in s.joins
            && var s' := Evict(s, 0); Holds(s', 1) && s'.handles[1].join !in s'.joins
  {
    var s := TwoAcquired(key);
    assert s.cache[key] == Entry(0, 1, 0, None);
  }

  // ---------- The module state ----------

  class TopicCache {
    var topicCache: map<Key, Entry>
    var timers: map<TimerId, Key>
    var joins: map<JoinId, Key>
    ghost var handles: map<HandleId, Handle>

    ghost function Snapshot(): State
      reads this
    {
      State(topicCache, timers, joins, handles)
    }

    constructor ()
      ensures Snapshot() == INIT
    {
      topicCache, timers, joins, handles := map[], map[], map[], map[];
    }

    /** acquireRemoteTopic up to its await. */
    method BeginAcquire(key: Key, freshJoin: JoinId, now: int, ghost h: HandleId)
      requires Enabled(Snapshot(), Begin(h, key, freshJoin, now))
      modifies this
      ensures Snapshot() == Step(old(Snapshot()), Begin(h, key, freshJoin, now))
    {
      var entry: Entry;
      if key in topicCache {
        entry := topicCache[key];
        entry := entry.(refCount := entry.refCount + 1, lastUsed := now);
        if entry.timer.Some? {
          timers := timers - {entry.timer.value};
          entry := entry.(timer := None);
        }
      } else {
        joins := joins[freshJoin := key];
        entry := Entry(freshJoin, 1, now, None);
      }
      topicCache := topicCache[key := entry];
      handles := handles[h := Handle(key, entry.join, Waiting)];
    }

    /** The await of acquireRemoteTopic ends: the caller gets its release function, or an exception. */
    method EndAcquire(ok: bool, ghost h: HandleId)
      requires Enabled(Snapshot(), if ok then Succeed(h) else Fail(h))
      modifies this
      ensures Snapshot() == Step(old(Snapshot()), if ok then Succeed(h) else Fail(h))
    {
      handles := handles[h := handles[h].(status := if ok then Ready else Failed)];
    }

    /** releaseTopic, called through the release function of h. */
    method ReleaseHandle(key: Key, freshTimer: TimerId, now: int, ghost h: HandleId)
      requires Enabled(Snapshot(), Release(h, freshTimer, now)) && key == handles[h].key
      modifies this
      ensures Snapshot() == Step(old(Snapshot()), Release(h, freshTimer, now))
    {
      handles := handles[h := handles[h].(status := Released)];
      if key !in topicCache { return; }
      var entry := topicCache[key];
      entry := entry.(refCount := Max0(entry.refCount - 1), lastUsed := now);
      if entry.refCount == 0 && entry.timer.None? {
        timers := timers[freshTimer := key];
        entry := entry.(timer := Some(freshTimer));
      }
      topicCache := topicCache[key := entry];
    }

    /** The callback that setTimeoutEvict scheduled. */
    method FireTimer(t: TimerId)
      requires Enabled(Snapshot(), Fire(t))
      modifies this
      ensures Snapshot() == Step(old(Snapshot()), Fire(t))
    {
      var key := timers[t];
      timers := timers - {t};
      if key !in topicCache || topicCache[key].refCount > 0 { return; }
      joins := joins - {topicCache[key].join};
      topicCache := topicCache - {key};
    }
  }
}
