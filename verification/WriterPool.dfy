/** The open-join writer pool of index.js: the locked section of ensureOpenJoinWriterPool under
    interleaved calls. Each await on the provisioner is a step boundary. */
module WriterPool {
  import opened Executions
  import opened Results

  type Key = string
  type CallId = nat
  type Core = nat

  const REFRESH_MS := 30 * 60 * 1000

  /** A pool entry. None and an expiry of 0 stand for what JavaScript finds falsy. */
  datatype Entry = Entry(core: Option<Core>, secret: Option<string>, issuedAt: int, expiresAt: int)

  datatype Pool = Pool(entries: seq<Entry>, updatedAt: int)

  /** What the locked section is called with. The profile says whether the relay is open; requested is
      the explicit number of writers, if any. */
  datatype Request = Request(key: Key, profile: Option<bool>, requested: Option<nat>, target: nat, now: int)

  datatype Reply = Reply(entries: seq<Entry>, updatedAt: int)

  /** A call is waiting for the provisioner, or has returned; None is the null result. */
  datatype Call =
    | Provisioning(request: Request, cached: Pool, entries: seq<Entry>, added: seq<Entry>, remaining: nat)
    | Returned(key: Key, reply: Option<Reply>)

  /** ttl is the configured lifetime of entries; used collects every core provisioned so far. */
  datatype State = State(cache: map<Key, Pool>, locks: set<Key>, calls: map<CallId, Call>,
                         used: set<Core>, ttl: Option<nat>)

  datatype Event =
    | Enter(call: CallId, request: Request)
    | Provisioned(call: CallId, core: Option<Core>, secret: Option<string>, issuedAt: int, updatedAt: int)
    | Failed(call: CallId)

  // ---------- The pure parts ----------

  predicate Keep(e: Entry, now: int)
  {
    e.core.Some? && e.secret.Some? && (e.expiresAt == 0 || e.expiresAt > now)
  }

  /** The elements of s for which keep holds, in order. */
  function Filter<T>(keep: T -> bool, s: seq<T>): seq<T>
  {
    if s == [] then [] else (if keep(s[0]) then [s[0]] else []) + Filter(keep, s[1..])
  }

  lemma {:induction false} FilterMembers<T>(keep: T -> bool, s: seq<T>)
    ensures forall e :: e in Filter(keep, s) <==> e in s && keep(e)
    ensures |Filter(keep, s)| <= |s|
    decreases |s|
  {
    if s != [] {
      FilterMembers(keep, s[1..]);
      assert s == [s[0]] + s[1..];
    }
  }

  lemma {:induction false} FilterAppend<T>(keep: T -> bool, a: seq<T>, b: seq<T>)
    ensures Filter(keep, a + b) == Filter(keep, a) + Filter(keep, b)
    decreases |a|
  {
    if a == [] {
      assert a + b == b;
    } else {
      FilterAppend(keep, a[1..], b);
      FilterJoin(keep, a[0], a[1..], b);
      assert a == [a[0]] + a[1..] && a + b == [a[0]] + (a[1..] + b);
    }
  }

  lemma FilterJoin<T>(keep: T -> bool, e: T, a: seq<T>, b: seq<T>)
    requires Filter(keep, a + b) == Filter(keep, a) + Filter(keep, b)
    ensures Filter(keep, [e] + (a + b)) == Filter(keep, [e] + a) + Filter(keep, b)
  {
    assert ([e] + (a + b))[1..] == a + b && ([e] + a)[1..] == a;
  }

  lemma {:induction false} FilterAll<T>(keep: T -> bool, s: seq<T>)
    ensures |Filter(keep, s)| == |s| ==> Filter(keep, s) == s
    decreases |s|
  {
    if s != [] {
      FilterAll(keep, s[1..]);
      FilterMembers(keep, s[1..]);
    }
  }

  function Kept(now: int): Entry -> bool
  {
    (e: Entry) => Keep(e, now)
  }

  /** pruneOpenJoinPoolEntries. */
  function Prune(entries: seq<Entry>, now: int): (r: seq<Entry>)
    ensures forall e :: e in r <==> e in entries && e.core.Some? && e.secret.Some? && (e.expiresAt == 0 || e.expiresAt > now)
    ensures |r| <= |entries|
  {
    FilterMembers(Kept(now), entries);
    Filter(Kept(now), entries)
  }

  /** The entries that are kept stay in order, with their repetitions. */
  lemma PruneAppend(a: seq<Entry>, b: seq<Entry>, now: int)
    ensures Prune(a + b, now) == Prune(a, now) + Prune(b, now)
  {
    FilterAppend(Kept(now), a, b);
  }

  lemma PruneOne(e: Entry, now: int)
    ensures Prune([e], now) == if e.core.Some? && e.secret.Some? && (e.expiresAt == 0 || e.expiresAt > now) then [e] else []
  {
    assert Filter(Kept(now), [e][1..]) == [];
  }

  function Cached(s: State, key: Key): Pool
  {
    if key in s.cache then s.cache[key] else Pool([], 0)
  }

  function GenerateCount(r: Request, cached: Pool): nat
  {
    var valid := |Prune(cached.entries, r.now)|;
    var stale := cached.updatedAt == 0 || r.now - cached.updatedAt >= REFRESH_MS;
    if r.requested.Some? then r.requested.value
    else if r.target > valid then r.target - valid
    else if stale then 1 else 0
  }

  // ---------- Steps ----------

  /** The result of a call: it leaves the locked section. */
  function Leave(s: State, c: CallId, key: Key, reply: Option<Reply>): State
  {
    s.(calls := s.calls[c := Returned(key, reply)], locks := s.locks - {key})
  }

  /** From the lock check to the first await, or to the end. */
  function EnterStep(s: State, c: CallId, r: Request): State
  {
    if r.key in s.locks then s.(calls := s.calls[c := Returned(r.key, None)])
    else if r.profile != Some(true) then Leave(s, c, r.key, None)
    else
      var cached := Cached(s, r.key);
      var entries := Prune(cached.entries, r.now);
      if GenerateCount(r, cached) == 0 then
        var s' := if |cached.entries| != |entries| then s.(cache := s.cache[r.key := cached.(entries := entries)]) else s;
        Leave(s', c, r.key, Some(Reply([], cached.updatedAt)))
      else
        s.(locks := s.locks + {r.key},
           calls := s.calls[c := Provisioning(r, cached, entries, [], GenerateCount(r, cached))])
  }

  /** The entry made of a provisioned writer; a writer without a core or a secret is skipped. */
  function NewEntries(ttl: Option<nat>, core: Option<Core>, secret: Option<string>, issuedAt: int): seq<Entry>
  {
    if core.None? || secret.None? then []
    else [Entry(core, secret, issuedAt, if ttl.Some? then issuedAt + ttl.value else 0)]
  }

  /** The end of the loop. */
  function FinishStep(s: State, c: CallId, call: Call, updatedAt: int): State
    requires call.Provisioning?
  {
    var key := call.request.key;
    if call.added == [] then
      Leave(s.(cache := s.cache[key := call.cached.(entries := call.entries)]), c, key, Some(Reply([], call.cached.updatedAt)))
    else
      Leave(s.(cache := s.cache[key := Pool(call.entries, updatedAt)]), c, key, Some(Reply(call.added, updatedAt)))
  }

  predicate Active(s: State, c: CallId)
  {
    c in s.calls && s.calls[c].Provisioning?
  }

  predicate Enabled(s: State, e: Event)
  {
    match e
    case Enter(c, _) => c !in s.calls
    case Provisioned(c, _, _, _, _) => Active(s, c) && s.calls[c].remaining > 0
    case Failed(c) => Active(s, c)
  }

  /** One iteration of the loop. */
  function Advance(s: State, call: Call, e: Event): Call
    requires call.Provisioning? && call.remaining > 0 && e.Provisioned?
  {
    var more := NewEntries(s.ttl, e.core, e.secret, e.issuedAt);
    call.(entries := call.entries + more, added := call.added + more, remaining := call.remaining - 1)
  }

  function UseCore(s: State, core: Option<Core>): State
  {
    if core.Some? then s.(used := s.used + {core.value}) else s
  }

  function Step(s: State, e: Event): State
    requires Enabled(s, e)
  {
    match e
    case Enter(c, r) => EnterStep(s, c, r)
    case Provisioned(c, core, _, _, updatedAt) =>
      var call := Advance(s, s.calls[c], e);
      var s' := UseCore(s, core);
      if call.remaining > 0 then s'.(calls := s.calls[c := call]) else FinishStep(s', c, call, updatedAt)
    case Failed(c) => Leave(s, c, s.calls[c].request.key, None)
  }

  // ---------- Invariant ----------

  /** A call in the locked section holds the lock, still sees the cache as it found it, and has added
      its new entries to the unexpired old ones. */
  ghost predicate CallOk(s: State, c: CallId)
    requires Active(s, c)
  {
    var call := s.calls[c];
    && call.request.key in s.locks
    && call.cached == Cached(s, call.request.key)
    && call.entries == Prune(call.cached.entries, call.request.now) + call.added
    && call.remaining > 0
  }

  ghost predicate Exclusive(s: State, c: CallId, d: CallId)
  {
    Active(s, c) && Active(s, d) && s.calls[c].request.key == s.calls[d].request.key ==> c == d
  }

  ghost predicate Locked(s: State, key: Key)
  {
    exists c :: Active(s, c) && s.calls[c].request.key == key
  }

  ghost predicate Inv(s: State)
  {
    && (forall c :: Active(s, c) ==> CallOk(s, c))
    && (forall c, d :: Exclusive(s, c, d))
    && (forall key :: key in s.locks ==> Locked(s, key))
  }

  lemma EnterCall(s: State, e: Event, c: CallId)
    requires e.Enter? && Enabled(s, e) && Active(Step(s, e), c)
    requires Active(s, c) ==> CallOk(s, c)
    ensures CallOk(Step(s, e), c)
  {
  }

  lemma EnterPair(s: State, e: Event, c: CallId, d: CallId)
    requires e.Enter? && Enabled(s, e) && Exclusive(s, c, d)
    requires (Active(s, c) ==> CallOk(s, c)) && (Active(s, d) ==> CallOk(s, d))
    ensures Exclusive(Step(s, e), c, d)
  {
  }

  lemma EnterKeeps(s: State, e: Event)
    requires Inv(s) && e.Enter? && Enabled(s, e)
    ensures Inv(Step(s, e))
  {
    var s' := Step(s, e);
    forall c | Active(s', c)
      ensures CallOk(s', c)
    {
      EnterCall(s, e, c);
    }
    forall c, d
      ensures Exclusive(s', c, d)
    {
      EnterPair(s, e, c, d);
    }
    forall key | key in s'.locks
      ensures Locked(s', key)
    {
      if key in s.locks {
        var c :| Active(s, c) && s.calls[c].request.key == key;
        assert Active(s', c);
      } else {
        assert Active(s', e.call);
      }
    }
  }

  lemma LeaveKeeps(s: State, c: CallId, s': State)
    requires Inv(s) && Active(s, c)
    requires s'.locks == s.locks - {s.calls[c].request.key}
    requires exists reply :: s'.calls == s.calls[c := Returned(s.calls[c].request.key, reply)]
    requires forall key :: key != s.calls[c].request.key ==> Cached(s', key) == Cached(s, key)
    ensures Inv(s')
  {
    forall d | Active(s', d)
      ensures CallOk(s', d)
    {
      assert CallOk(s, d) && Exclusive(s, c, d);
    }
    forall d, d'
      ensures Exclusive(s', d, d')
    {
      assert Exclusive(s, d, d');
    }
    forall key | key in s'.locks
      ensures Locked(s', key)
    {
      var d :| Active(s, d) && s.calls[d].request.key == key;
      assert Active(s', d);
    }
  }

  lemma AdvanceKeeps(s: State, e: Event)
    requires Inv(s) && e.Provisioned? && Enabled(s, e) && Active(Step(s, e), e.call)
    ensures Inv(Step(s, e))
  {
    var s' := Step(s, e);
    assert CallOk(s, e.call);
    forall d | Active(s', d)
      ensures CallOk(s', d)
    {
      assert CallOk(s, d);
    }
    forall d, d'
      ensures Exclusive(s', d, d')
    {
      assert Exclusive(s, d, d');
    }
    forall key | key in s'.locks
      ensures Locked(s', key)
    {
      var d :| Active(s, d) && s.calls[d].request.key == key;
      assert Active(s', d);
    }
  }

  lemma FinishKeeps(s: State, e: Event)
    requires Inv(s) && e.Provisioned? && Enabled(s, e) && !Active(Step(s, e), e.call)
    ensures Inv(Step(s, e))
  {
    assert CallOk(s, e.call);
    LeaveKeeps(s, e.call, Step(s, e));
  }

  lemma StepKeeps(s: State, e: Event)
    requires Inv(s) && Enabled(s, e)
    ensures Inv(Step(s, e))
  {
    match e
    case Enter(_, _) => EnterKeeps(s, e);
    case Provisioned(c, _, _, _, _) => if Active(Step(s, e), c) { AdvanceKeeps(s, e); } else { FinishKeeps(s, e); }
    case Failed(c) => LeaveKeeps(s, c, Step(s, e));
  }

  // ---------- Runs ----------

  ghost predicate Start(s: State)
  {
    s.cache == map[] && s.locks == {} && s.calls == map[] && s.used == {}
  }

  /** The states and events of an execution. */
  ghost predicate Run(ss: seq<State>, es: seq<Event>)
  {
    IsRun(Start, Next, ss, es)
  }

  ghost predicate Next(s: State, e: Event, s': State)
  {
    Enabled(s, e) && s' == Step(s, e)
  }

  lemma NextAt(ss: seq<State>, es: seq<Event>, n: nat)
    requires Run(ss, es) && n < |es|
    ensures Next(ss[n], es[n], ss[n + 1])
  {
    assert StepAt(Next, ss, es, n);
  }

  lemma AlwaysInv(ss: seq<State>, es: seq<Event>, n: nat)
    requires Run(ss, es) && n <= |es|
    ensures Inv(ss[n])
  {
    forall s, e, s' | Inv(s) && Next(s, e, s')
      ensures Inv(s')
    {
      StepKeeps(s, e);
    }
    Always(Start, Next, Inv, ss, es, n);
  }

  /** Mutual exclusion: at most one call per pool key is in the locked section, and the lock is held
      exactly while there is one. */
  lemma OneCallPerKey(ss: seq<State>, es: seq<Event>, n: nat, c: CallId, d: CallId, key: Key)
    requires Run(ss, es) && n <= |es|
    ensures Active(ss[n], c) && Active(ss[n], d) && ss[n].calls[c].request.key == ss[n].calls[d].request.key ==> c == d
    ensures key in ss[n].locks <==> Locked(ss[n], key)
  {
    AlwaysInv(ss, es, n);
    assert Exclusive(ss[n], c, d);
    if Locked(ss[n], key) {
      var a :| Active(ss[n], a) && ss[n].calls[a].request.key == key;
      assert CallOk(ss[n], a);
    }
  }

  /** Writers are only provisioned for a relay that is open. */
  lemma {:induction false} OnlyForOpenRelays(ss: seq<State>, es: seq<Event>, n: nat, c: CallId)
    requires Run(ss, es) && n <= |es| && Active(ss[n], c)
    ensures ss[n].calls[c].request.profile == Some(true)
    decreases n
  {
    if n > 0 {
      NextAt(ss, es, n - 1);
      if Active(ss[n - 1], c) { OnlyForOpenRelays(ss, es, n - 1, c); }
    }
  }

  /** How many writers a pool with the given usable entries lacks: the number asked for, or up to the target, or one
      when the pool is more than half an hour old. */
  function Lacking(r: Request, usable: nat, updatedAt: int): nat
  {
    if r.requested.Some? then r.requested.value
    else if usable < r.target then r.target - usable
    else if updatedAt == 0 || updatedAt + 30 * 60 * 1000 <= r.now then 1
    else 0
  }

  /** What becomes of a call: it is refused with null when another call for the key is under way or the relay is not
      open; it provisions when the pool lacks writers; otherwise it returns an empty list. */
  lemma EnterIff(ss: seq<State>, es: seq<Event>, n: nat)
    requires Run(ss, es) && n < |es| && es[n].Enter?
    ensures es[n].call in ss[n + 1].calls
    ensures var r, pool, call := es[n].request, Cached(ss[n], es[n].request.key), ss[n + 1].calls[es[n].call];
            var refused := Locked(ss[n], r.key) || r.profile != Some(true);
            var lacking := Lacking(r, |Prune(pool.entries, r.now)|, pool.updatedAt);
            && (Active(ss[n + 1], es[n].call) <==> !refused && lacking > 0)
            && (Active(ss[n + 1], es[n].call) ==> call.request == r && call.remaining == lacking)
            && (refused ==> call == Returned(r.key, None) && ss[n + 1].cache == ss[n].cache)
            && (!refused && lacking == 0 ==>
                  call == Returned(r.key, Some(Reply([], pool.updatedAt))) &&
                  Cached(ss[n + 1], r.key).entries == Prune(pool.entries, r.now))
  {
    NextAt(ss, es, n);
    OneCallPerKey(ss, es, n, es[n].call, es[n].call, es[n].request.key);
    PruneAll(Cached(ss[n], es[n].request.key).entries, es[n].request.now);
  }

  /** Pruning that removes nothing changes nothing. */
  lemma PruneAll(entries: seq<Entry>, now: int)
    ensures |Prune(entries, now)| == |entries| ==> Prune(entries, now) == entries
  {
    FilterAll(Kept(now), entries);
  }

  /** A provisioning that completes leaves the unexpired entries of the cache as it is at that moment,
      followed by exactly the entries it returns, and frees the lock. No update of another call is
      lost in between. */
  lemma CompletionAppends(ss: seq<State>, es: seq<Event>, n: nat)
    requires Run(ss, es) && n < |es| && es[n].Provisioned? && !Active(ss[n + 1], es[n].call)
    ensures Active(ss[n], es[n].call) && es[n].call in ss[n + 1].calls
    ensures var s, s', c := ss[n], ss[n + 1], es[n].call;
            var r := s.calls[c].request;
            var old_, reply := if r.key in s.cache then s.cache[r.key] else Pool([], 0), s'.calls[c].reply;
            && reply.Some?
            && s'.cache == s.cache[r.key := Pool(Prune(old_.entries, r.now) + reply.value.entries, reply.value.updatedAt)]
            && reply.value.updatedAt == (if reply.value.entries == [] then old_.updatedAt else es[n].updatedAt)
            && s'.locks == s.locks - {r.key}
  {
    NextAt(ss, es, n);
    AlwaysInv(ss, es, n);
    var s, c := ss[n], es[n].call;
    assert CallOk(s, c);
    var call := Advance(s, s.calls[c], es[n]);
    assert call.entries == Prune(call.cached.entries, call.request.now) + call.added;
  }

  /** A call that returns null, after an exception or a refusal, leaves every pool unchanged. */
  lemma NullLeavesCache(ss: seq<State>, es: seq<Event>, n: nat)
    requires Run(ss, es) && n < |es|
    requires es[n].call in ss[n + 1].calls && ss[n + 1].calls[es[n].call].Returned?
    requires ss[n + 1].calls[es[n].call].reply.None?
    ensures ss[n + 1].cache == ss[n].cache
  {
    NextAt(ss, es, n);
  }

  // ---------- How many entries ----------

  predicate AnswerTo(e: Event, c: CallId)
  {
    e.Provisioned? && e.call == c
  }

  predicate Unusable(e: Event)
  {
    e.Provisioned? && (e.core.None? || e.secret.None?)
  }

  /** The provisioner's answers to a call before step n. */
  function Answers(es: seq<Event>, n: nat, c: CallId): nat
    requires n <= |es|
  {
    if n == 0 then 0 else Answers(es, n - 1, c) + if AnswerTo(es[n - 1], c) then 1 else 0
  }

  /** Those without a core or a secret. */
  function Skips(es: seq<Event>, n: nat, c: CallId): nat
    requires n <= |es|
  {
    if n == 0 then 0 else Skips(es, n - 1, c) + if AnswerTo(es[n - 1], c) && Unusable(es[n - 1]) then 1 else 0
  }

  lemma LoopStep(s: State, e: Event, c: CallId)
    requires Enabled(s, e)
    ensures c !in Step(s, e).calls ==> c !in s.calls && !AnswerTo(e, c)
    ensures Active(Step(s, e), c) && !Active(s, c) ==>
              var call := Step(s, e).calls[c];
              c !in s.calls && !AnswerTo(e, c) && call.added == [] && call.remaining == GenerateCount(call.request, call.cached)
    ensures Active(Step(s, e), c) && Active(s, c) && !AnswerTo(e, c) ==> Step(s, e).calls[c] == s.calls[c]
    ensures Active(Step(s, e), c) && Active(s, c) && AnswerTo(e, c) ==>
              var call, call' := s.calls[c], Step(s, e).calls[c];
              && call'.request == call.request && call'.cached == call.cached
              && call'.remaining == call.remaining - 1
              && |call'.added| == |call.added| + if Unusable(e) then 0 else 1
  {
  }

  /** Where the loop of a call stands. */
  lemma {:induction false} LoopProgress(ss: seq<State>, es: seq<Event>, n: nat, c: CallId)
    requires Run(ss, es) && n <= |es|
    ensures c !in ss[n].calls ==> Answers(es, n, c) == 0 && Skips(es, n, c) == 0
    ensures Active(ss[n], c) ==>
              var call := ss[n].calls[c];
              && Answers(es, n, c) + call.remaining == GenerateCount(call.request, call.cached)
              && |call.added| + Skips(es, n, c) == Answers(es, n, c)
    decreases n
  {
    if n > 0 {
      LoopProgress(ss, es, n - 1, c);
      NextAt(ss, es, n - 1);
      LoopStep(ss[n - 1], es[n - 1], c);
    }
  }

  /** A provisioning asks for as many writers as it was told to, or as the pool lacks, or for one to
      refresh it, and returns all but the unusable ones; without an explicit request the pool then has its
      target size less those. */
  lemma TargetReached(ss: seq<State>, es: seq<Event>, n: nat)
    requires Run(ss, es) && n < |es| && es[n].Provisioned? && !Active(ss[n + 1], es[n].call)
    ensures Active(ss[n], es[n].call) && es[n].call in ss[n + 1].calls
    ensures var c := es[n].call;
            var r, added, skipped := ss[n].calls[c].request, |NewOf(ss[n + 1].calls[c])|, Skips(es, n + 1, c);
            && added + skipped == GenerateCount(r, Cached(ss[n], r.key))
            && (r.requested.Some? ==> added + skipped == r.requested.value)
            && (r.requested.None? ==> |Cached(ss[n + 1], r.key).entries| + skipped >= r.target)
  {
    NextAt(ss, es, n);
    AlwaysInv(ss, es, n);
    LoopProgress(ss, es, n, es[n].call);
    assert CallOk(ss[n], es[n].call);
  }

  // ---------- Who has which core ----------

  /** The assumption on the provisioner that disjointness needs: no core is given out twice. */
  ghost predicate DistinctCores(es: seq<Event>)
  {
    forall i, j :: 0 <= i < j < |es| ==> DifferentCores(es[i], es[j])
  }

  ghost predicate DifferentCores(e: Event, f: Event)
  {
    e.Provisioned? && f.Provisioned? && e.core.Some? ==> e.core != f.core
  }

  predicate FreshCore(s: State, e: Event)
  {
    e.Provisioned? && e.core.Some? ==> e.core.value !in s.used
  }

  ghost predicate ProvidedBefore(es: seq<Event>, n: nat, core: Core)
    requires n <= |es|
  {
    exists k :: 0 <= k < n && es[k].Provisioned? && es[k].core == Some(core)
  }

  /** The used cores are those that the provisioner has given out. */
  lemma {:induction false} UsedProvided(ss: seq<State>, es: seq<Event>, n: nat, core: Core)
    requires Run(ss, es) && n <= |es|
    ensures core in ss[n].used ==> ProvidedBefore(es, n, core)
    decreases n
  {
    if n > 0 {
      UsedProvided(ss, es, n - 1, core);
      NextAt(ss, es, n - 1);
      if ProvidedBefore(es, n - 1, core) {
        var k :| 0 <= k < n - 1 && es[k].Provisioned? && es[k].core == Some(core);
        assert 0 <= k < n && es[k].Provisioned?;
      }
      assert 0 <= n - 1 < n;
    }
  }

  lemma NotProvidedTwice(es: seq<Event>, n: nat)
    requires n < |es| && DistinctCores(es) && es[n].Provisioned? && es[n].core.Some?
    ensures !ProvidedBefore(es, n, es[n].core.value)
  {
    forall k | 0 <= k < n
      ensures !(es[k].Provisioned? && es[k].core == es[n].core)
    {
      assert DifferentCores(es[k], es[n]);
    }
  }

  lemma NextCoreFresh(ss: seq<State>, es: seq<Event>, n: nat)
    requires Run(ss, es) && n < |es| && DistinctCores(es)
    ensures FreshCore(ss[n], es[n])
  {
    if es[n].Provisioned? && es[n].core.Some? {
      UsedProvided(ss, es, n, es[n].core.value);
      NotProvidedTwice(es, n);
    }
  }

  /** The new entries of a call, returned or still being collected. */
  function NewOf(call: Call): seq<Entry>
  {
    match call
    case Provisioning(_, _, _, added, _) => added
    case Returned(_, reply) => if reply.Some? then reply.value.entries else []
  }

  ghost predicate CoreUsed(s: State, c: CallId, i: nat)
  {
    c in s.calls && i < |NewOf(s.calls[c])| ==>
      var core := NewOf(s.calls[c])[i].core; core.Some? && core.value in s.used
  }

  ghost predicate CoreApart(s: State, c: CallId, i: nat, d: CallId, j: nat)
  {
    c in s.calls && d in s.calls && i < |NewOf(s.calls[c])| && j < |NewOf(s.calls[d])| ==>
      NewOf(s.calls[c])[i].core == NewOf(s.calls[d])[j].core ==> c == d && i == j
  }

  ghost predicate Apart(s: State)
  {
    (forall c, i :: CoreUsed(s, c, i)) && (forall c, i, d, j :: CoreApart(s, c, i, d, j))
  }

  /** A step changes the new entries of one call: to nothing, or by the entry of an answer. */
  lemma NewOfStep(s: State, e: Event)
    requires Enabled(s, e)
    ensures var s' := Step(s, e);
            && s'.calls.Keys == s.calls.Keys + {e.call}
            && s.used <= s'.used
            && (forall d :: d in s.calls && d != e.call ==> s'.calls[d] == s.calls[d])
            && (NewOf(s'.calls[e.call]) == []
                || (e.Provisioned? && NewOf(s'.calls[e.call]) ==
                      NewOf(s.calls[e.call]) + NewEntries(s.ttl, e.core, e.secret, e.issuedAt)))
            && (e.Provisioned? && e.core.Some? ==> e.core.value in s'.used)
  {
  }

  lemma ApartKeeps(s: State, e: Event)
    requires Apart(s) && Enabled(s, e) && FreshCore(s, e)
    ensures Apart(Step(s, e))
  {
    var s' := Step(s, e);
    NewOfStep(s, e);
    forall c, i
      ensures CoreUsed(s', c, i)
    {
      assert CoreUsed(s, c, i);
    }
    forall c, i, d, j
      ensures CoreApart(s', c, i, d, j)
    {
      assert CoreUsed(s, c, i) && CoreUsed(s, d, j) && CoreApart(s, c, i, d, j);
    }
  }

  lemma {:induction false} AlwaysApart(ss: seq<State>, es: seq<Event>, n: nat)
    requires Run(ss, es) && n <= |es| && DistinctCores(es)
    ensures Apart(ss[n])
    decreases n
  {
    if n > 0 {
      AlwaysApart(ss, es, n - 1);
      NextAt(ss, es, n - 1);
      NextCoreFresh(ss, es, n - 1);
      ApartKeeps(ss[n - 1], es[n - 1]);
    }
  }

  /** No writer is handed out twice: the lists that different calls return share no core, and no list
      repeats one. */
  lemma ReturnedDisjoint(ss: seq<State>, es: seq<Event>, n: nat, c: CallId, i: nat, d: CallId, j: nat)
    requires Run(ss, es) && n <= |es| && DistinctCores(es) && c in ss[n].calls && d in ss[n].calls
    requires i < |NewOf(ss[n].calls[c])| && j < |NewOf(ss[n].calls[d])| && (c != d || i != j)
    ensures NewOf(ss[n].calls[c])[i].core != NewOf(ss[n].calls[d])[j].core
  {
    AlwaysApart(ss, es, n);
    assert CoreApart(ss[n], c, i, d, j);
  }

  // ---------- What is in the pools ----------

  /** The entry was returned by a finished call for the key. */
  ghost predicate ReturnedFor(s: State, key: Key, e: Entry)
  {
    exists c :: c in s.calls && s.calls[c].Returned? && s.calls[c].key == key && e in NewOf(s.calls[c])
  }

  ghost predicate PoolOk(s: State, key: Key)
  {
    forall e :: e in Cached(s, key).entries ==> ReturnedFor(s, key, e)
  }

  lemma ReturnedForKeeps(s: State, ev: Event, key: Key, e: Entry)
    requires Enabled(s, ev) && ReturnedFor(s, key, e)
    ensures ReturnedFor(Step(s, ev), key, e)
  {
    NewOfStep(s, ev);
    var c :| c in s.calls && s.calls[c].Returned? && s.calls[c].key == key && e in NewOf(s.calls[c]);
    assert Step(s, ev).calls[c] == s.calls[c];
  }

  lemma PoolKeeps(s: State, ev: Event, key: Key)
    requires Inv(s) && Enabled(s, ev) && PoolOk(s, key)
    ensures PoolOk(Step(s, ev), key)
  {
    var s' := Step(s, ev);
    forall e | e in Cached(s', key).entries
      ensures ReturnedFor(s', key, e)
    {
      if e in Cached(s, key).entries {
        ReturnedForKeeps(s, ev, key, e);
      } else {
        assert CallOk(s, ev.call);
        assert e in NewOf(s'.calls[ev.call]);
      }
    }
  }

  lemma {:induction false} AlwaysReturned(ss: seq<State>, es: seq<Event>, n: nat, key: Key)
    requires Run(ss, es) && n <= |es|
    ensures PoolOk(ss[n], key)
    decreases n
  {
    if n > 0 {
      AlwaysReturned(ss, es, n - 1, key);
      AlwaysInv(ss, es, n - 1);
      NextAt(ss, es, n - 1);
      PoolKeeps(ss[n - 1], es[n - 1], key);
    }
  }

  /** No core is in two pools. */
  lemma PoolsDisjoint(ss: seq<State>, es: seq<Event>, n: nat, k: Key, m: Key, e: Entry, f: Entry)
    requires Run(ss, es) && n <= |es| && DistinctCores(es) && k != m
    requires e in Cached(ss[n], k).entries && f in Cached(ss[n], m).entries
    ensures e.core != f.core
  {
    AlwaysReturned(ss, es, n, k);
    AlwaysReturned(ss, es, n, m);
    assert ReturnedFor(ss[n], k, e) && ReturnedFor(ss[n], m, f);
    var s := ss[n];
    var c :| c in s.calls && s.calls[c].Returned? && s.calls[c].key == k && e in NewOf(s.calls[c]);
    var d :| d in s.calls && s.calls[d].Returned? && s.calls[d].key == m && f in NewOf(s.calls[d]);
    var i :| 0 <= i < |NewOf(s.calls[c])| && NewOf(s.calls[c])[i] == e;
    var j :| 0 <= j < |NewOf(s.calls[d])| && NewOf(s.calls[d])[j] == f;
    ReturnedDisjoint(ss, es, n, c, i, d, j);
  }

  // ---------- What an entry holds ----------

  /** The entry that an answer with a core and a secret makes: it expires when the configured lifetime after its issue is
      over, or never. */
  function EntryFor(e: Event, ttl: Option<nat>): Entry
    requires e.Provisioned?
  {
    Entry(e.core, e.secret, e.issuedAt, match ttl case None => 0 case Some(t) => e.issuedAt + t)
  }

  /** The entries made of the answers to a call before step n, in order. */
  function EntriesOf(es: seq<Event>, n: nat, c: CallId, ttl: Option<nat>): seq<Entry>
    requires n <= |es|
  {
    if n == 0 then [] else
    EntriesOf(es, n - 1, c, ttl) + if AnswerTo(es[n - 1], c) && !Unusable(es[n - 1]) then [EntryFor(es[n - 1], ttl)] else []
  }

  /** A call that has not failed holds, or has returned, exactly these entries. */
  ghost predicate Answered(s: State, es: seq<Event>, n: nat, c: CallId, ttl: Option<nat>)
    requires n <= |es|
  {
    && (c !in s.calls ==> EntriesOf(es, n, c, ttl) == [])
    && (c in s.calls && !(s.calls[c].Returned? && s.calls[c].reply.None?) ==> NewOf(s.calls[c]) == EntriesOf(es, n, c, ttl))
  }

  lemma {:induction false} AnswersKept(ss: seq<State>, es: seq<Event>, n: nat, c: CallId)
    requires Run(ss, es) && n <= |es|
    ensures ss[n].ttl == ss[0].ttl && Answered(ss[n], es, n, c, ss[0].ttl)
    decreases n
  {
    if n > 0 {
      AnswersKept(ss, es, n - 1, c);
      NextAt(ss, es, n - 1);
      AnsweredNext(ss[n - 1], es, n - 1, c);
    }
  }

  lemma AnsweredNext(s: State, es: seq<Event>, n: nat, c: CallId)
    requires n < |es| && Enabled(s, es[n]) && Answered(s, es, n, c, s.ttl)
    ensures Answered(Step(s, es[n]), es, n + 1, c, s.ttl)
  {
    NewOfStep(s, es[n]);
  }

  lemma {:induction false} EntryAnswered(es: seq<Event>, n: nat, c: CallId, ttl: Option<nat>, e: Entry) returns (k: nat)
    requires n <= |es| && e in EntriesOf(es, n, c, ttl)
    ensures k < n && AnswerTo(es[k], c) && !Unusable(es[k]) && e == EntryFor(es[k], ttl)
    decreases n
  {
    if e in EntriesOf(es, n - 1, c, ttl) {
      k := EntryAnswered(es, n - 1, c, ttl, e);
    } else {
      k := n - 1;
    }
  }

  /** Every entry of a pool is an answer of the provisioner with its core, its secret and the time of its issue, and
      expires one lifetime later or never. */
  lemma PoolComplete(ss: seq<State>, es: seq<Event>, n: nat, key: Key, e: Entry) returns (k: nat)
    requires Run(ss, es) && n <= |es| && e in Cached(ss[n], key).entries
    ensures k < n && es[k].Provisioned?
    ensures e.core.Some? && e.secret.Some? && e.core == es[k].core && e.secret == es[k].secret && e.issuedAt == es[k].issuedAt
    ensures e.expiresAt == if ss[0].ttl.Some? then e.issuedAt + ss[0].ttl.value else 0
  {
    AlwaysReturned(ss, es, n, key);
    assert ReturnedFor(ss[n], key, e);
    var c :| c in ss[n].calls && ss[n].calls[c].Returned? && ss[n].calls[c].key == key && e in NewOf(ss[n].calls[c]);
    AnswersKept(ss, es, n, c);
    k := EntryAnswered(es, n, c, ss[0].ttl, e);
  }

  // ---------- No entry is lost ----------

  /** Some call for the key began, before step n, at a time when the entry had expired. */
  ghost predicate ExpiredBy(es: seq<Event>, n: nat, key: Key, e: Entry)
    requires n <= |es|
  {
    e.expiresAt != 0 &&
    exists k :: 0 <= k < n && es[k].Enter? && es[k].request.key == key && e.expiresAt <= es[k].request.now
  }

  /** The request of a call in the locked section is the one it entered with. */
  lemma {:induction false} EnteredWith(ss: seq<State>, es: seq<Event>, n: nat, c: CallId)
    requires Run(ss, es) && n <= |es| && Active(ss[n], c)
    ensures exists k :: 0 <= k < n && es[k] == Enter(c, ss[n].calls[c].request)
    decreases n
  {
    if n > 0 {
      NextAt(ss, es, n - 1);
      if Active(ss[n - 1], c) {
        EnteredWith(ss, es, n - 1, c);
        assert ss[n].calls[c].request == ss[n - 1].calls[c].request;
      } else {
        assert es[n - 1] == Enter(c, ss[n].calls[c].request);
      }
    }
  }

  lemma EntryStays(s: State, ev: Event, key: Key, e: Entry)
    requires Inv(s) && Enabled(s, ev) && e in Cached(s, key).entries && e !in Cached(Step(s, ev), key).entries
    ensures (ev.Enter? && ev.request.key == key && !Keep(e, ev.request.now))
            || (Active(s, ev.call) && s.calls[ev.call].request.key == key && !Keep(e, s.calls[ev.call].request.now))
  {
    if Active(s, ev.call) { assert CallOk(s, ev.call); }
  }

  /** An entry stays in its pool until a call for the key finds it expired; whatever the interleaving,
      no other call removes it. */
  lemma {:induction false} NoEntryLost(ss: seq<State>, es: seq<Event>, i: nat, n: nat, key: Key, e: Entry)
    requires Run(ss, es) && i <= n <= |es| && key in ss[i].cache && e in ss[i].cache[key].entries
    ensures (key in ss[n].cache && e in ss[n].cache[key].entries) || ExpiredBy(es, n, key, e)
    decreases n
  {
    if i < n {
      NoEntryLost(ss, es, i, n - 1, key, e);
      NextAt(ss, es, n - 1);
      if e in Cached(ss[n - 1], key).entries && e !in Cached(ss[n], key).entries {
        RemovedExpired(ss, es, n - 1, key, e);
      }
    }
  }

  lemma RemovedExpired(ss: seq<State>, es: seq<Event>, n: nat, key: Key, e: Entry)
    requires Run(ss, es) && n < |es|
    requires e in Cached(ss[n], key).entries && e !in Cached(ss[n + 1], key).entries
    ensures ExpiredBy(es, n + 1, key, e)
  {
    var s, ev := ss[n], es[n];
    NextAt(ss, es, n);
    AlwaysInv(ss, es, n);
    EntryStays(s, ev, key, e);
    var k := PoolComplete(ss, es, n, key, e);
    if Active(s, ev.call) {
      EnteredWith(ss, es, n, ev.call);
      var k :| 0 <= k < n && es[k] == Enter(ev.call, s.calls[ev.call].request);
      assert es[k].Enter? && es[k].request.key == key;
    } else {
      assert es[n].Enter? && es[n].request.key == key;
    }
  }

  // ---------- The module state ----------

  /** openJoinWriterPoolCache and openJoinWriterPoolLocks, with the local variables of the calls that
      are suspended in the loop. */
  class OpenJoinPools {
    var cache: map<Key, Pool>
    var locks: set<Key>
    var calls: map<CallId, Call>
    const ttl: Option<nat>
    ghost var used: set<Core>

    ghost function Snapshot(): State
      reads this
    {
      State(cache, locks, calls, used, ttl)
    }

    constructor (ttl: Option<nat>)
      ensures Start(Snapshot()) && this.ttl == ttl
    {
      cache, locks, calls, used := map[], {}, map[], {};
      this.ttl := ttl;
    }

    /** The locked section up to the first await. */
    method BeginCall(c: CallId, r: Request)
      requires Enabled(Snapshot(), Enter(c, r))
      modifies this
      ensures Snapshot() == Step(old(Snapshot()), Enter(c, r))
    {
      if r.key in locks {
        calls := calls[c := Returned(r.key, None)];
        return;
      }
      locks := locks + {r.key};
      if r.profile != Some(true) {
        EndCall(c, r.key, None);
        assert Snapshot().locks == old(locks) - {r.key};
        return;
      }
      var cached := if r.key in cache then cache[r.key] else Pool([], 0);
      var entries := Prune(cached.entries, r.now);
      var count := GenerateCount(r, cached);
      if count == 0 {
        if |cached.entries| != |entries| {
          cache := cache[r.key := cached.(entries := entries)];
        }
        EndCall(c, r.key, Some(Reply([], cached.updatedAt)));
        assert Snapshot().locks == old(locks) - {r.key};
        return;
      }
      calls := calls[c := Provisioning(r, cached, entries, [], count)];
    }

    /** A return, through the finally block. */
    method EndCall(c: CallId, key: Key, reply: Option<Reply>)
      modifies this
      ensures Snapshot() == Leave(old(Snapshot()), c, key, reply)
    {
      calls := calls[c := Returned(key, reply)];
      locks := locks - {key};
    }

    /** The provisioner answers: the rest of the loop body, and after the last answer the end. */
    method ResumeCall(c: CallId, core: Option<Core>, secret: Option<string>, issuedAt: int, updatedAt: int)
      requires Enabled(Snapshot(), Provisioned(c, core, secret, issuedAt, updatedAt))
      modifies this
      ensures Snapshot() == Step(old(Snapshot()), Provisioned(c, core, secret, issuedAt, updatedAt))
    {
      var call := calls[c];
      if core.Some? { used := used + {core.value}; }
      if core.Some? && secret.Some? {
        var entry := Entry(core, secret, issuedAt, if ttl.Some? then issuedAt + ttl.value else 0);
        call := call.(entries := call.entries + [entry], added := call.added + [entry]);
      }
      call := call.(remaining := call.remaining - 1);
      assert call == Advance(old(Snapshot()), old(calls[c]), Provisioned(c, core, secret, issuedAt, updatedAt));
      var key := call.request.key;
      if call.remaining > 0 {
        calls := calls[c := call];
      } else if call.added == [] {
        cache := cache[key := call.cached.(entries := call.entries)];
        EndCall(c, key, Some(Reply([], call.cached.updatedAt)));
      } else {
        cache := cache[key := Pool(call.entries, updatedAt)];
        EndCall(c, key, Some(Reply(call.added, updatedAt)));
      }
    }

    /** The provisioner throws. */
    method FailCall(c: CallId)
      requires Enabled(Snapshot(), Failed(c))
      modifies this
      ensures Snapshot() == Step(old(Snapshot()), Failed(c))
    {
      EndCall(c, calls[c].request.key, None);
    }
  }
}
