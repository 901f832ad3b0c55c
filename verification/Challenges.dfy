/** ChallengeStore and the steps of verifyChallenge of challenge-manager.mjs. verifyChallenge is
    suspended at its await between retrieving a challenge and judging the response, so several of them
    interleave with each other and with everything else. */
module Challenges {
  import opened Executions
  import opened Results

  type Pubkey = string
  type CallId = nat

  const TTL := 5 * 60 * 1000
  const MAX_ATTEMPTS := 5

  datatype Entry = Entry(challenge: string, timestamp: int, attempts: nat)

  datatype Response = Response(ciphertext: string, iv: string)

  /** Does the response of a key decrypt to the challenge, under the key of the relay? */
  type Judge = (Pubkey, string, Response) -> bool

  datatype Suspended = Suspended(pubkey: Pubkey, id: nat, response: Response)

  /** Every entry ever stored, in order; the map of the store, by position in that list; the
      verifications that are suspended at their await; and the judgement of the relay, which is fixed. */
  datatype State = State(entries: seq<Entry>, challenges: map<Pubkey, nat>, calls: map<CallId, Suspended>, judge: Judge)

  datatype Event =
    | Store(pubkey: Pubkey, challenge: string, now: int)
    | Begin(call: CallId, pubkey: Pubkey, response: Response, now: int)
    | End(call: CallId)
    | Remove(pubkey: Pubkey)
    | Cleanup(now: int)
    | Clear

  ghost predicate Linked(s: State)
  {
    && (forall k :: k in s.challenges ==> s.challenges[k] < |s.entries|)
    && (forall c :: c in s.calls ==> s.calls[c].id < |s.entries|)
  }

  predicate Expired(e: Entry, now: int)
  {
    now - e.timestamp > TTL
  }

  /** retrieve: what it returns, by position. */
  function Found(s: State, pubkey: Pubkey, now: int): Option<nat>
    requires Linked(s)
  {
    if pubkey !in s.challenges then None else
    var id := s.challenges[pubkey];
    if Expired(s.entries[id], now) || s.entries[id].attempts + 1 > MAX_ATTEMPTS then None else Some(id)
  }

  /** retrieve: what it leaves. */
  function Retrieve(s: State, pubkey: Pubkey, now: int): State
    requires Linked(s)
  {
    if pubkey !in s.challenges then s else
    var id := s.challenges[pubkey];
    var e := s.entries[id];
    if Expired(e, now) then s.(challenges := s.challenges - {pubkey})
    else
      var s' := s.(entries := s.entries[id := e.(attempts := e.attempts + 1)]);
      if e.attempts + 1 > MAX_ATTEMPTS then s'.(challenges := s.challenges - {pubkey}) else s'
  }

  predicate Enabled(s: State, e: Event)
  {
    match e
    case Begin(c, _, _, _) => c !in s.calls
    case End(c) => c in s.calls
    case _ => true
  }

  /** The comparison of verifyChallenge, made when a suspended verification goes on: does its response
      decrypt to the challenge that it retrieved? A failure to decrypt counts as no. */
  predicate Matches(s: State, c: CallId)
  {
    c in s.calls && s.calls[c].id < |s.entries|
    && s.judge(s.calls[c].pubkey, s.entries[s.calls[c].id].challenge, s.calls[c].response)
  }

  /** Begin and End are the two parts of verifyChallenge. */
  function Step(s: State, e: Event): State
    requires Linked(s) && Enabled(s, e)
  {
    match e
    case Store(pubkey, challenge, now) =>
      s.(entries := s.entries + [Entry(challenge, now, 0)], challenges := s.challenges[pubkey := |s.entries|])
    case Begin(c, pubkey, response, now) =>
      var found := Found(s, pubkey, now);
      var s' := Retrieve(s, pubkey, now);
      if found.Some? then s'.(calls := s.calls[c := Suspended(pubkey, found.value, response)]) else s'
    case End(c) =>
      var s' := s.(calls := s.calls - {c});
      if Matches(s, c) then s'.(challenges := s.challenges - {s.calls[c].pubkey}) else s'
    case Remove(pubkey) => s.(challenges := s.challenges - {pubkey})
    case Cleanup(now) => s.(challenges := map k | k in s.challenges && !Expired(s.entries[s.challenges[k]], now) :: s.challenges[k])
    case Clear => s.(challenges := map[])
  }

  // ---------- Runs ----------

  ghost predicate OneKey(m: map<Pubkey, nat>, k: Pubkey, l: Pubkey)
  {
    k in m && l in m && m[k] == m[l] ==> k == l
  }

  /** An entry that can still be retrieved has attempts left to count, and belongs to one key only. */
  ghost predicate Inv(s: State)
  {
    && Linked(s)
    && (forall k :: k in s.challenges ==> s.entries[s.challenges[k]].attempts <= MAX_ATTEMPTS)
    && (forall k, l :: OneKey(s.challenges, k, l))
    && (forall i :: 0 <= i < |s.entries| ==> s.entries[i].attempts <= MAX_ATTEMPTS + 1)
  }

  lemma StepKeeps(s: State, e: Event)
    requires Inv(s) && Enabled(s, e)
    ensures Inv(Step(s, e))
  {
    match e
    case Begin(_, pubkey, _, now) => RetrieveKeeps(s, pubkey, now);
    case Store(_, _, _) => StoreKeeps(s, e);
    case _ => ForgetKeeps(s, e);
  }

  lemma RetrieveKeeps(s: State, pubkey: Pubkey, now: int)
    requires Inv(s)
    ensures Inv(Retrieve(s, pubkey, now))
  {
    var s' := Retrieve(s, pubkey, now);
    forall k | k in s'.challenges
      ensures s'.entries[s'.challenges[k]].attempts <= MAX_ATTEMPTS
    {
      assert OneKey(s.challenges, k, pubkey);
    }
    forall k, l
      ensures OneKey(s'.challenges, k, l)
    {
      assert OneKey(s.challenges, k, l);
    }
  }

  lemma StoreKeeps(s: State, e: Event)
    requires Inv(s) && e.Store?
    ensures Inv(Step(s, e))
  {
    forall k, l
      ensures OneKey(Step(s, e).challenges, k, l)
    {
      assert OneKey(s.challenges, k, l);
    }
  }

  lemma ForgetKeeps(s: State, e: Event)
    requires Inv(s) && Enabled(s, e) && !e.Begin? && !e.Store?
    ensures Inv(Step(s, e))
    ensures Step(s, e).entries == s.entries
    ensures forall k :: k in Step(s, e).challenges ==> k in s.challenges && Step(s, e).challenges[k] == s.challenges[k]
  {
    forall k, l
      ensures OneKey(Step(s, e).challenges, k, l)
    {
      assert OneKey(s.challenges, k, l);
    }
  }

  ghost predicate Next(s: State, e: Event, s': State)
  {
    Linked(s) && Enabled(s, e) && s' == Step(s, e)
  }

  ghost predicate Start(s: State)
  {
    s.entries == [] && s.challenges == map[] && s.calls == map[]
  }

  /** The states and events of an execution. */
  ghost predicate Run(ss: seq<State>, es: seq<Event>)
  {
    IsRun(Start, Next, ss, es)
  }

  lemma NextAt(ss: seq<State>, es: seq<Event>, n: nat)
    requires Run(ss, es) && n < |es|
    ensures Next(ss[n], es[n], ss[n + 1])
  {
    assert StepAt(Next, ss, es, n);
  }

  lemma AlwaysInv(ss: seq<State>, es: seq<Event>, n: nat)
    requires Run(ss, es) && n <= |es|
    ensures Inv(ss[n])
  {
    forall s, e, s' | Inv(s) && Next(s, e, s')
      ensures Inv(s')
    {
      StepKeeps(s, e);
    }
    Always(Start, Next, Inv, ss, es, n);
  }

  /** Step n retrieves the entry with the given position and returns it. */
  ghost predicate RetrievedAt(ss: seq<State>, es: seq<Event>, n: nat, id: nat)
    requires Run(ss, es) && n < |es|
  {
    AlwaysInv(ss, es, n);
    es[n].Begin? && Found(ss[n], es[n].pubkey, es[n].now) == Some(id)
  }

  /** Step n accepts a response to that entry: a token is issued. */
  ghost predicate TokenAt(ss: seq<State>, es: seq<Event>, n: nat, id: nat)
    requires Run(ss, es) && n < |es|
  {
    es[n].End? && Matches(ss[n], es[n].call) && ss[n].calls[es[n].call].id == id
  }

  ghost function Retrievals(ss: seq<State>, es: seq<Event>, n: nat, id: nat): nat
    requires Run(ss, es) && n <= |es|
  {
    if n == 0 then 0 else Retrievals(ss, es, n - 1, id) + if RetrievedAt(ss, es, n - 1, id) then 1 else 0
  }

  ghost function Tokens(ss: seq<State>, es: seq<Event>, n: nat, id: nat): nat
    requires Run(ss, es) && n <= |es|
  {
    if n == 0 then 0 else Tokens(ss, es, n - 1, id) + if TokenAt(ss, es, n - 1, id) then 1 else 0
  }

  function Capped(attempts: nat): nat
  {
    if attempts <= MAX_ATTEMPTS then attempts else MAX_ATTEMPTS
  }

  /** The counter of an entry, up to its maximum, is the number of times it was returned. */
  lemma {:induction false} RetrievalsCounted(ss: seq<State>, es: seq<Event>, n: nat, id: nat)
    requires Run(ss, es) && n <= |es|
    ensures Retrievals(ss, es, n, id) == if id < |ss[n].entries| then Capped(ss[n].entries[id].attempts) else 0
    decreases n
  {
    if n > 0 {
      RetrievalsCounted(ss, es, n - 1, id);
      AlwaysInv(ss, es, n - 1);
      NextAt(ss, es, n - 1);
      CountedStep(ss[n - 1], es[n - 1], id);
    }
  }

  lemma CountedStep(s: State, e: Event, id: nat)
    requires Inv(s) && Enabled(s, e)
    ensures |s.entries| <= |Step(s, e).entries|
    ensures var before := if id < |s.entries| then Capped(s.entries[id].attempts) else 0;
            var after := if id < |Step(s, e).entries| then Capped(Step(s, e).entries[id].attempts) else 0;
            after == before + if e.Begin? && Found(s, e.pubkey, e.now) == Some(id) then 1 else 0
  {
  }

  /** Over any run a stored challenge is returned at most five times. */
  lemma AtMostFiveRetrievals(ss: seq<State>, es: seq<Event>, n: nat, id: nat)
    requires Run(ss, es) && n <= |es|
    ensures Retrievals(ss, es, n, id) <= 5
  {
    RetrievalsCounted(ss, es, n, id);
  }

  /** What was stored never changes but for its counter. */
  lemma {:induction false} EntryPersists(ss: seq<State>, es: seq<Event>, i: nat, n: nat, id: nat)
    requires Run(ss, es) && i <= n <= |es| && id < |ss[i].entries|
    ensures id < |ss[n].entries|
    ensures ss[n].entries[id].challenge == ss[i].entries[id].challenge
    ensures ss[n].entries[id].timestamp == ss[i].entries[id].timestamp
    decreases n
  {
    if i < n {
      EntryPersists(ss, es, i, n - 1, id);
      AlwaysInv(ss, es, n - 1);
      NextAt(ss, es, n - 1);
    }
  }

  lemma {:induction false} JudgeFixed(ss: seq<State>, es: seq<Event>, i: nat, n: nat)
    requires Run(ss, es) && i <= n <= |es|
    ensures ss[n].judge == ss[i].judge
    decreases n
  {
    if i < n {
      JudgeFixed(ss, es, i, n - 1);
      NextAt(ss, es, n - 1);
    }
  }

  /** The verdict on a suspended verification does not depend on when it goes on. */
  lemma SameVerdict(ss: seq<State>, es: seq<Event>, i: nat, n: nat, c: CallId)
    requires Run(ss, es) && i <= n <= |es|
    requires c in ss[i].calls && c in ss[n].calls && ss[i].calls[c] == ss[n].calls[c]
    ensures Matches(ss[n], c) <==> Matches(ss[i], c)
  {
    AlwaysInv(ss, es, i);
    EntryPersists(ss, es, i, n, ss[i].calls[c].id);
    JudgeFixed(ss, es, i, n);
  }

  /** A challenge stored at step i and returned at step n is returned to its own key and at most five
      minutes after it was stored. */
  lemma RetrievedInTime(ss: seq<State>, es: seq<Event>, i: nat, n: nat)
    requires Run(ss, es) && i < n < |es| && es[i].Store? && RetrievedAt(ss, es, n, |ss[i].entries|)
    ensures es[n].now - es[i].now <= 5 * 60 * 1000 && es[n].pubkey == es[i].pubkey
  {
    var id := |ss[i].entries|;
    NextAt(ss, es, i);
    EntryPersists(ss, es, i + 1, n, id);
    KeyPersists(ss, es, i, n);
  }

  /** The entry stored at step i is only ever mapped from its own key. */
  lemma {:induction false} KeyPersists(ss: seq<State>, es: seq<Event>, i: nat, n: nat)
    requires Run(ss, es) && i < n <= |es| && es[i].Store?
    ensures |ss[i].entries| < |ss[n].entries|
    ensures forall k :: k in ss[n].challenges && ss[n].challenges[k] == |ss[i].entries| ==> k == es[i].pubkey
    decreases n
  {
    NextAt(ss, es, n - 1);
    AlwaysInv(ss, es, n - 1);
    if i < n - 1 {
      KeyPersists(ss, es, i, n - 1);
      MappingStep(ss[n - 1], es[n - 1]);
    }
  }

  /** A step maps keys to entries that they had before, or one key to a new entry. */
  lemma MappingStep(s: State, e: Event)
    requires Inv(s) && Enabled(s, e)
    ensures |Step(s, e).entries| >= |s.entries|
    ensures forall k :: k in Step(s, e).challenges && Step(s, e).challenges[k] < |s.entries| ==>
              k in s.challenges && Step(s, e).challenges[k] == s.challenges[k]
  {
    if !e.Begin? && !e.Store? { ForgetKeeps(s, e); }
  }

  /** The challenge of a key is the one of its last Store event, with that time. */
  lemma {:induction false} StoredAs(ss: seq<State>, es: seq<Event>, n: nat, key: Pubkey) returns (i: nat)
    requires Run(ss, es) && n <= |es| && key in ss[n].challenges
    ensures ss[n].challenges[key] < |ss[n].entries|
    ensures i < n && es[i].Store? && es[i].pubkey == key && ss[n].challenges[key] == |ss[i].entries|
    ensures var e := ss[n].entries[ss[n].challenges[key]]; e.challenge == es[i].challenge && e.timestamp == es[i].now
    ensures forall j :: i < j < n ==> !(es[j].Store? && es[j].pubkey == key)
    decreases n
  {
    AlwaysInv(ss, es, n);
    assert n > 0;
    AlwaysInv(ss, es, n - 1);
    NextAt(ss, es, n - 1);
    if es[n - 1].Store? && es[n - 1].pubkey == key {
      i := n - 1;
    } else {
      KeepsMapping(ss[n - 1], es[n - 1], key);
      i := StoredAs(ss, es, n - 1, key);
    }
  }

  lemma KeepsMapping(s: State, e: Event, key: Pubkey)
    requires Inv(s) && Enabled(s, e) && !(e.Store? && e.pubkey == key) && key in Step(s, e).challenges
    ensures key in s.challenges && Step(s, e).challenges[key] == s.challenges[key] < |s.entries| <= |Step(s, e).entries|
    ensures var id := s.challenges[key];
            && Step(s, e).entries[id].challenge == s.entries[id].challenge
            && Step(s, e).entries[id].timestamp == s.entries[id].timestamp
  {
  }

  /** Exactly when a verification is given a challenge: if it is the one stored for the key, at most five minutes
      old, and was returned fewer than five times before. */
  lemma RetrievedIff(ss: seq<State>, es: seq<Event>, n: nat, id: nat)
    requires Run(ss, es) && n < |es| && es[n].Begin?
    ensures RetrievedAt(ss, es, n, id) <==>
      && es[n].pubkey in ss[n].challenges && ss[n].challenges[es[n].pubkey] == id && id < |ss[n].entries|
      && es[n].now <= ss[n].entries[id].timestamp + 5 * 60 * 1000
      && Retrievals(ss, es, n, id) < 5
  {
    AlwaysInv(ss, es, n);
    RetrievalsCounted(ss, es, n, id);
  }

  /** The challenge of a key is given up: it is removed, the store is cleared, it is older than five minutes when the
      store is cleaned up or when it is asked for, it is asked for a sixth time, or a response to one is accepted. */
  ghost predicate GivesUp(ss: seq<State>, es: seq<Event>, n: nat, key: Pubkey)
    requires Run(ss, es) && n < |es| && key in ss[n].challenges && ss[n].challenges[key] < |ss[n].entries|
  {
    var id := ss[n].challenges[key];
    var end := ss[n].entries[id].timestamp + 5 * 60 * 1000;
    match es[n]
    case Store(_, _, _) => false
    case Begin(_, pubkey, _, now) => pubkey == key && (end < now || Retrievals(ss, es, n, id) == 5)
    case End(c) => Matches(ss[n], c) && ss[n].calls[c].pubkey == key
    case Remove(pubkey) => pubkey == key
    case Cleanup(now) => end < now
    case Clear => true
  }

  /** A key has a challenge exactly until one of these things happens, and then has none until the next is stored. */
  lemma ForgottenIff(ss: seq<State>, es: seq<Event>, n: nat, key: Pubkey)
    requires Run(ss, es) && n < |es|
    ensures key in ss[n].challenges ==> ss[n].challenges[key] < |ss[n].entries|
    ensures key in ss[n].challenges ==> (key !in ss[n + 1].challenges <==> GivesUp(ss, es, n, key))
    ensures key !in ss[n].challenges ==> (key in ss[n + 1].challenges <==> es[n].Store? && es[n].pubkey == key)
    ensures es[n].Store? ==> es[n].pubkey in ss[n + 1].challenges && ss[n + 1].challenges[es[n].pubkey] == |ss[n].entries|
  {
    AlwaysInv(ss, es, n);
    NextAt(ss, es, n);
    if key in ss[n].challenges { RetrievalsCounted(ss, es, n, ss[n].challenges[key]); }
  }

  // ---------- Tokens ----------

  ghost function Waiting(s: State, id: nat): set<CallId>
  {
    set c | c in s.calls && s.calls[c].id == id
  }

  lemma WaitingBegin(s: State, e: Event, id: nat)
    requires Inv(s) && Enabled(s, e) && e.Begin?
    ensures |Waiting(Step(s, e), id)| == |Waiting(s, id)| + if Found(s, e.pubkey, e.now) == Some(id) then 1 else 0
  {
    assert e.call !in Waiting(s, id);
    assert Retrieve(s, e.pubkey, e.now).calls == s.calls;
    assert Waiting(Step(s, e), id) ==
      if Found(s, e.pubkey, e.now) == Some(id) then Waiting(s, id) + {e.call} else Waiting(s, id);
  }

  lemma WaitingOther(s: State, e: Event, id: nat)
    requires Inv(s) && Enabled(s, e) && !e.Begin?
    ensures |Waiting(Step(s, e), id)| + (if e.End? && s.calls[e.call].id == id then 1 else 0) == |Waiting(s, id)|
  {
    if e.End? {
      assert Step(s, e).calls == s.calls - {e.call};
      assert Waiting(Step(s, e), id) == Waiting(s, id) - {e.call};
    } else {
      assert Step(s, e).calls == s.calls;
      assert Waiting(Step(s, e), id) == Waiting(s, id);
    }
  }

  /** Every token, and every verification still under way, was paid for with a retrieval. */
  lemma {:induction false} TokensPaid(ss: seq<State>, es: seq<Event>, n: nat, id: nat)
    requires Run(ss, es) && n <= |es|
    ensures Tokens(ss, es, n, id) + |Waiting(ss[n], id)| <= Retrievals(ss, es, n, id)
    decreases n
  {
    if n > 0 {
      TokensPaid(ss, es, n - 1, id);
      AlwaysInv(ss, es, n - 1);
      NextAt(ss, es, n - 1);
      if es[n - 1].Begin? {
        WaitingBegin(ss[n - 1], es[n - 1], id);
      } else {
        WaitingOther(ss[n - 1], es[n - 1], id);
      }
    } else {
      assert Waiting(ss[0], id) == {};
    }
  }

  /** One stored challenge yields at most five tokens, however the verifications interleave. */
  lemma AtMostFiveTokens(ss: seq<State>, es: seq<Event>, n: nat, id: nat)
    requires Run(ss, es) && n <= |es|
    ensures Tokens(ss, es, n, id) <= 5
  {
    TokensPaid(ss, es, n, id);
    AtMostFiveRetrievals(ss, es, n, id);
  }

  // ---------- After the first token ----------

  /** The challenge that a suspended verification holds is mapped from its own key only. */
  ghost predicate OwnKey(s: State, c: CallId, k: Pubkey)
  {
    c in s.calls && k in s.challenges && s.challenges[k] == s.calls[c].id ==> k == s.calls[c].pubkey
  }

  lemma OwnKeyStep(s: State, e: Event, c: CallId, k: Pubkey)
    requires Inv(s) && Enabled(s, e) && OwnKey(s, c, k)
    ensures OwnKey(Step(s, e), c, k)
  {
    MappingStep(s, e);
    if e.Begin? {
      assert OneKey(s.challenges, k, e.pubkey);
      assert Retrieve(s, e.pubkey, e.now).calls == s.calls;
    }
  }

  lemma {:induction false} AlwaysOwnKey(ss: seq<State>, es: seq<Event>, n: nat, c: CallId, k: Pubkey)
    requires Run(ss, es) && n <= |es|
    ensures OwnKey(ss[n], c, k)
    decreases n
  {
    if n > 0 {
      AlwaysOwnKey(ss, es, n - 1, c, k);
      AlwaysInv(ss, es, n - 1);
      NextAt(ss, es, n - 1);
      OwnKeyStep(ss[n - 1], es[n - 1], c, k);
    }
  }

  /** The challenge is in the list of entries, but no key leads to it. */
  ghost predicate Unmapped(s: State, id: nat)
  {
    id < |s.entries| && forall k :: k in s.challenges ==> s.challenges[k] != id
  }

  lemma {:induction false} UnmappedForEver(ss: seq<State>, es: seq<Event>, i: nat, n: nat, id: nat)
    requires Run(ss, es) && i <= n <= |es| && Unmapped(ss[i], id)
    ensures Unmapped(ss[n], id)
    decreases n
  {
    if i < n {
      UnmappedForEver(ss, es, i, n - 1, id);
      AlwaysInv(ss, es, n - 1);
      NextAt(ss, es, n - 1);
      MappingStep(ss[n - 1], es[n - 1]);
    }
  }

  lemma TokenUnmaps(ss: seq<State>, es: seq<Event>, k: nat, id: nat)
    requires Run(ss, es) && k < |es| && TokenAt(ss, es, k, id)
    ensures Unmapped(ss[k + 1], id)
  {
    AlwaysInv(ss, es, k);
    NextAt(ss, es, k);
    var s' := ss[k + 1];
    forall key | key in s'.challenges
      ensures s'.challenges[key] != id
    {
      AlwaysOwnKey(ss, es, k, es[k].call, key);
    }
  }

  /** A challenge for which a token was issued is never retrieved again. */
  lemma NeverRetrievedAfterToken(ss: seq<State>, es: seq<Event>, k: nat, n: nat, id: nat)
    requires Run(ss, es) && k < n < |es| && TokenAt(ss, es, k, id)
    ensures !RetrievedAt(ss, es, n, id)
  {
    TokenUnmaps(ss, es, k, id);
    UnmappedForEver(ss, es, k + 1, n, id);
    AlwaysInv(ss, es, n);
  }

  /** If c waits for the challenge in t, it is a verification that was already suspended in s. */
  ghost predicate Left(s: State, t: State, id: nat, c: CallId)
  {
    c in t.calls && t.calls[c].id == id ==> c in s.calls && s.calls[c] == t.calls[c]
  }

  ghost predicate AllLeft(s: State, t: State, id: nat)
  {
    forall c :: Left(s, t, id, c)
  }

  /** From then on only the verifications that were suspended on it at that moment are left. */
  lemma {:induction false} WaitingShrinks(ss: seq<State>, es: seq<Event>, k: nat, n: nat, id: nat, c: CallId)
    requires Run(ss, es) && k < n <= |es| && TokenAt(ss, es, k, id)
    ensures Left(ss[k + 1], ss[n], id, c)
    decreases n
  {
    if k + 1 < n {
      WaitingShrinks(ss, es, k, n - 1, id, c);
      StepAfterToken(ss, es, k, n - 1, id);
      assert Left(ss[n - 1], ss[n], id, c);
    }
  }

  lemma StepAfterToken(ss: seq<State>, es: seq<Event>, k: nat, n: nat, id: nat)
    requires Run(ss, es) && k < n < |es| && TokenAt(ss, es, k, id)
    ensures AllLeft(ss[n], ss[n + 1], id)
    ensures |Waiting(ss[n + 1], id)| + (if TokenAt(ss, es, n, id) then 1 else 0) <= |Waiting(ss[n], id)|
  {
    NeverRetrievedAfterToken(ss, es, k, n, id);
    AlwaysInv(ss, es, n);
    NextAt(ss, es, n);
    WaitingOnlyEnds(ss[n], es[n], id);
  }

  /** The tokens issued so far and those that suspended verifications may still bring. */
  ghost function Budget(ss: seq<State>, es: seq<Event>, n: nat, id: nat): nat
    requires Run(ss, es) && n <= |es|
  {
    Tokens(ss, es, n, id) + |Waiting(ss[n], id)|
  }

  lemma BudgetStep(ss: seq<State>, es: seq<Event>, k: nat, n: nat, id: nat)
    requires Run(ss, es) && k < n < |es| && TokenAt(ss, es, k, id)
    ensures Budget(ss, es, n + 1, id) <= Budget(ss, es, n, id)
  {
    StepAfterToken(ss, es, k, n, id);
  }

  /** After the first token the budget never grows, so that the verifications then suspended bound the
      tokens still to come. */
  lemma BudgetShrinks(ss: seq<State>, es: seq<Event>, k: nat, n: nat, id: nat)
    requires Run(ss, es) && k < n <= |es| && TokenAt(ss, es, k, id)
    ensures Budget(ss, es, n, id) <= Budget(ss, es, k + 1, id)
  {
    var f := seq(|es| + 1, m requires 0 <= m <= |es| => Budget(ss, es, m, id));
    forall m | k < m < n
      ensures f[m + 1] <= f[m]
    {
      BudgetStep(ss, es, k, m, id);
    }
    NonIncreasing(f, k + 1, n);
  }

  lemma WaitingOnlyEnds(s: State, e: Event, id: nat)
    requires Inv(s) && Enabled(s, e) && !(e.Begin? && Found(s, e.pubkey, e.now) == Some(id))
    ensures AllLeft(s, Step(s, e), id)
    ensures |Waiting(Step(s, e), id)| + (if e.End? && s.calls[e.call].id == id then 1 else 0) == |Waiting(s, id)|
  {
    if e.Begin? {
      WaitingBegin(s, e, id);
      assert Retrieve(s, e.pubkey, e.now).calls == s.calls;
    } else {
      WaitingOther(s, e, id);
    }
  }

  /** A longer run in which a later step issues a token for the challenge. */
  ghost predicate TokenLater(ss: seq<State>, es: seq<Event>, ss': seq<State>, es': seq<Event>, n: nat, id: nat)
  {
    Run(ss', es') && ss <= ss' && es <= es' && |es| <= n < |es'| && TokenAt(ss', es', n, id)
  }

  /** Exactly when a second token can follow: if another verification is suspended on the challenge at
      the moment when the token is issued, and its response matches too. */
  lemma SecondTokenIff(ss: seq<State>, es: seq<Event>, id: nat)
    requires Run(ss, es) && es != [] && TokenAt(ss, es, |es| - 1, id)
    ensures (exists ss', es', n :: TokenLater(ss, es, ss', es', n, id)) <==>
              exists c :: c in Waiting(ss[|es|], id) && Matches(ss[|es|], c)
  {
    if c :| c in Waiting(ss[|es|], id) && Matches(ss[|es|], c) {
      var es' := es + [End(c)];
      AlwaysInv(ss, es, |es|);
      var ss' := ss + [Step(ss[|es|], End(c))];
      ExtendRun(ss, es, End(c));
      assert TokenLater(ss, es, ss', es', |es|, id);
    }
    if ss': seq<State>, es': seq<Event>, n: nat :| TokenLater(ss, es, ss', es', n, id) {
      MatchedBefore(ss, es, ss', es', n, id);
    }
  }

  lemma MatchedBefore(ss: seq<State>, es: seq<Event>, ss': seq<State>, es': seq<Event>, n: nat, id: nat)
    requires Run(ss, es) && es != [] && TokenAt(ss, es, |es| - 1, id) && TokenLater(ss, es, ss', es', n, id)
    ensures es'[n].End?
    ensures es'[n].call in Waiting(ss[|es|], id) && Matches(ss[|es|], es'[n].call)
  {
    var k := |es| - 1;
    assert ss'[k] == ss[k] && es'[k] == es[k] && ss'[k + 1] == ss[k + 1];
    WaitingShrinks(ss', es', k, n, id, es'[n].call);
    SameVerdict(ss', es', k + 1, n, es'[n].call);
  }

  lemma ExtendRun(ss: seq<State>, es: seq<Event>, e: Event)
    requires Run(ss, es) && Linked(ss[|es|]) && Enabled(ss[|es|], e)
    ensures Run(ss + [Step(ss[|es|], e)], es + [e])
  {
    var ss', es' := ss + [Step(ss[|es|], e)], es + [e];
    forall n | 0 <= n < |es'|
      ensures StepAt(Next, ss', es', n)
    {
      if n < |es| { NextAt(ss, es, n); }
    }
  }

  // ---------- The verdict on a response ----------

  /** Call c began at step b and is still the same one at step n. */
  ghost predicate Suspends(ss: seq<State>, es: seq<Event>, b: nat, n: nat, c: CallId)
    requires Run(ss, es)
  {
    && b < n <= |es| && es[b].Begin? && es[b].call == c
    && forall m :: b < m <= n ==> c in ss[m].calls
  }

  lemma {:induction false} SuspendedSame(ss: seq<State>, es: seq<Event>, b: nat, n: nat, c: CallId)
    requires Run(ss, es) && Suspends(ss, es, b, n, c)
    ensures ss[n].calls[c] == ss[b + 1].calls[c]
    ensures ss[n].calls[c].pubkey == es[b].pubkey && ss[n].calls[c].id < |ss[b].entries|
    decreases n
  {
    if b + 1 < n {
      SuspendedSame(ss, es, b, n - 1, c);
      CallKept(ss, es, n - 1, c);
    } else {
      CallBegun(ss, es, b);
    }
  }

  lemma CallKept(ss: seq<State>, es: seq<Event>, n: nat, c: CallId)
    requires Run(ss, es) && n < |es| && c in ss[n].calls && c in ss[n + 1].calls
    ensures ss[n + 1].calls[c] == ss[n].calls[c]
  {
    AlwaysInv(ss, es, n);
    NextAt(ss, es, n);
  }

  lemma CallBegun(ss: seq<State>, es: seq<Event>, b: nat)
    requires Run(ss, es) && b < |es| && es[b].Begin? && es[b].call in ss[b + 1].calls
    ensures var e := es[b];
            && e.pubkey in ss[b].challenges && ss[b].challenges[e.pubkey] < |ss[b].entries|
            && RetrievedAt(ss, es, b, ss[b].challenges[e.pubkey])
            && ss[b + 1].calls[e.call] == Suspended(e.pubkey, ss[b].challenges[e.pubkey], e.response)
  {
    AlwaysInv(ss, es, b);
    NextAt(ss, es, b);
  }

  /** A suspended verification was begun with a response to the challenge that its key then had, and
      brings a token exactly when that response matches that challenge. */
  lemma TokenIffMatched(ss: seq<State>, es: seq<Event>, b: nat, n: nat, c: CallId)
    requires Run(ss, es) && n < |es| && Suspends(ss, es, b, n, c) && es[n] == End(c)
    ensures es[b].pubkey in ss[b].challenges && ss[b].challenges[es[b].pubkey] < |ss[b].entries|
    ensures var id := ss[b].challenges[es[b].pubkey];
            && RetrievedAt(ss, es, b, id)
            && (TokenAt(ss, es, n, id) <==> ss[0].judge(es[b].pubkey, ss[b].entries[id].challenge, es[b].response))
  {
    CallBegun(ss, es, b);
    SuspendedSame(ss, es, b, n, c);
    EntryPersists(ss, es, b, n, ss[b].challenges[es[b].pubkey]);
    JudgeFixed(ss, es, 0, n);
  }

  // ---------- Accepting an overwritten challenge ----------

  /** The challenge that the key has at step n was stored at step i, after step b. */
  ghost predicate StoredSince(ss: seq<State>, es: seq<Event>, b: nat, n: nat, key: Pubkey, i: int)
    requires Run(ss, es) && n <= |es|
  {
    b < i < n && es[i].Store? && es[i].pubkey == key
    && key in ss[n].challenges && ss[n].challenges[key] == |ss[i].entries|
  }

  lemma {:induction false} MappedSince(ss: seq<State>, es: seq<Event>, b: nat, n: nat, c: CallId)
    requires Run(ss, es) && Suspends(ss, es, b, n, c)
    requires es[b].pubkey in ss[n].challenges && ss[n].challenges[es[b].pubkey] != ss[n].calls[c].id
    ensures exists i :: StoredSince(ss, es, b, n, es[b].pubkey, i)
    decreases n
  {
    var key := es[b].pubkey;
    AlwaysInv(ss, es, n - 1);
    NextAt(ss, es, n - 1);
    SuspendedSame(ss, es, b, n, c);
    if b + 1 < n {
      if es[n - 1].Store? && es[n - 1].pubkey == key {
        assert StoredSince(ss, es, b, n, key, n - 1);
      } else {
        MappingStep(ss[n - 1], es[n - 1]);
        KeptMapping(ss[n - 1], es[n - 1], key);
        SuspendedSame(ss, es, b, n - 1, c);
        MappedSince(ss, es, b, n - 1, c);
        var i :| StoredSince(ss, es, b, n - 1, key, i);
        assert StoredSince(ss, es, b, n, key, i);
      }
    }
  }

  lemma KeptMapping(s: State, e: Event, key: Pubkey)
    requires Inv(s) && Enabled(s, e) && key in Step(s, e).challenges && !(e.Store? && e.pubkey == key)
    ensures key in s.challenges && Step(s, e).challenges[key] == s.challenges[key]
  {
    if !e.Begin? && !e.Store? { ForgetKeeps(s, e); }
  }

  /** Exactly when accepting a response deletes a challenge other than the one it answers: if a new one
      was stored for the same key while the verification was suspended, and is still there. */
  lemma NewerChallengeLostIff(ss: seq<State>, es: seq<Event>, b: nat, n: nat, c: CallId)
    requires Run(ss, es) && n < |es| && Suspends(ss, es, b, n, c) && es[n] == End(c) && Matches(ss[n], c)
    ensures es[b].pubkey !in ss[n + 1].challenges
    ensures es[b].pubkey in ss[n].challenges && ss[n].challenges[es[b].pubkey] != ss[n].calls[c].id <==>
              exists i :: StoredSince(ss, es, b, n, es[b].pubkey, i)
  {
    NextAt(ss, es, n);
    SuspendedSame(ss, es, b, n, c);
    if es[b].pubkey in ss[n].challenges && ss[n].challenges[es[b].pubkey] != ss[n].calls[c].id {
      MappedSince(ss, es, b, n, c);
    }
    if i :| StoredSince(ss, es, b, n, es[b].pubkey, i) {
      EntriesGrow(ss, es, b, i);
    }
  }

  lemma {:induction false} EntriesGrow(ss: seq<State>, es: seq<Event>, i: nat, n: nat)
    requires Run(ss, es) && i <= n <= |es|
    ensures |ss[i].entries| <= |ss[n].entries|
    decreases n
  {
    if i < n {
      EntriesGrow(ss, es, i, n - 1);
      AlwaysInv(ss, es, n - 1);
      NextAt(ss, es, n - 1);
      MappingStep(ss[n - 1], es[n - 1]);
    }
  }

  // ---------- The bound is tight ----------

  /** One challenge is stored, five verifications with the same response retrieve it before any of them
      goes on, and all five are accepted. */
  function TightEvent(n: nat, key: Pubkey, challenge: string, response: Response): Event
  {
    if n == 0 then Store(key, challenge, 0) else if n <= 5 then Begin(n - 1, key, response, 0) else End(n - 6)
  }

  const CALLS: set<CallId> := {0, 1, 2, 3, 4}

  function TightState(n: nat, key: Pubkey, challenge: string, response: Response, judge: Judge): State
  {
    var attempts := if n == 0 then 0 else if n <= 6 then n - 1 else 5;
    var first := if n <= 6 then 0 else n - 6;
    State(if n == 0 then [] else [Entry(challenge, 0, attempts)],
          if 1 <= n <= 6 then map[key := 0] else map[],
          map c: nat | c in CALLS && first <= c < attempts :: Suspended(key, 0, response),
          judge)
  }

  lemma TightNext(n: nat, key: Pubkey, challenge: string, response: Response, judge: Judge)
    requires n < 11 && judge(key, challenge, response)
    ensures Next(TightState(n, key, challenge, response, judge), TightEvent(n, key, challenge, response),
                 TightState(n + 1, key, challenge, response, judge))
  {
    var s, e := TightState(n, key, challenge, response, judge), TightEvent(n, key, challenge, response);
    var t := TightState(n + 1, key, challenge, response, judge);
    if n == 0 {
      assert Step(s, e).calls == t.calls;
    } else if n <= 5 {
      TightBegin(n, key, challenge, response, judge);
    } else {
      TightEnd(n, key, challenge, response, judge);
    }
  }

  lemma TightBegin(n: nat, key: Pubkey, challenge: string, response: Response, judge: Judge)
    requires 1 <= n <= 5
    ensures Next(TightState(n, key, challenge, response, judge), TightEvent(n, key, challenge, response),
                 TightState(n + 1, key, challenge, response, judge))
  {
    var s, e := TightState(n, key, challenge, response, judge), TightEvent(n, key, challenge, response);
    assert s.challenges[key] == 0 && s.entries[0].attempts == n - 1;
    assert Step(s, e).calls == TightState(n + 1, key, challenge, response, judge).calls;
  }

  lemma TightEnd(n: nat, key: Pubkey, challenge: string, response: Response, judge: Judge)
    requires 6 <= n < 11 && judge(key, challenge, response)
    ensures Next(TightState(n, key, challenge, response, judge), TightEvent(n, key, challenge, response),
                 TightState(n + 1, key, challenge, response, judge))
  {
    var s, e := TightState(n, key, challenge, response, judge), TightEvent(n, key, challenge, response);
    var t := TightState(n + 1, key, challenge, response, judge);
    assert Step(s, e).calls == t.calls;
    assert Step(s, e).challenges == t.challenges;
  }

  /** Every challenge can yield five tokens to anyone who can answer it at all. */
  lemma FiveTokensPossible(key: Pubkey, challenge: string, response: Response, judge: Judge)
    returns (ss: seq<State>, es: seq<Event>)
    requires judge(key, challenge, response)
    ensures |es| == 11 && es[0] == Store(key, challenge, 0)
    ensures Run(ss, es) && ss[0].judge == judge && Tokens(ss, es, 11, 0) == 5
  {
    ss := seq(12, n requires 0 <= n => TightState(n, key, challenge, response, judge));
    es := seq(11, n requires 0 <= n => TightEvent(n, key, challenge, response));
    forall n | 0 <= n < 11
      ensures StepAt(Next, ss, es, n)
    {
      TightNext(n, key, challenge, response, judge);
    }
    assert ss[0].calls == map[];
    TightTokens(ss, es, 11, key, challenge, response, judge);
  }

  lemma {:induction false} TightTokens(ss: seq<State>, es: seq<Event>, n: nat,
                                       key: Pubkey, challenge: string, response: Response, judge: Judge)
    requires Run(ss, es) && n <= |es| == 11 && judge(key, challenge, response)
    requires forall i :: 0 <= i < 11 ==> ss[i] == TightState(i, key, challenge, response, judge)
    requires forall i :: 0 <= i < 11 ==> es[i] == TightEvent(i, key, challenge, response)
    ensures Tokens(ss, es, n, 0) == if n <= 6 then 0 else n - 6
    decreases n
  {
    if n > 0 { TightTokens(ss, es, n - 1, key, challenge, response, judge); }
  }

  // ---------- The store ----------

  class ChallengeEntry {
    const challenge: string
    const timestamp: int
    var attempts: nat
    ghost const id: nat

    constructor (challenge: string, timestamp: int, ghost id: nat)
      ensures this.challenge == challenge && this.timestamp == timestamp && attempts == 0 && this.id == id
    {
      this.challenge, this.timestamp, this.attempts, this.id := challenge, timestamp, 0, id;
    }

    ghost function Value(): Entry
      reads this
    {
      Entry(challenge, timestamp, attempts)
    }
  }

  class ChallengeStore {
    var challenges: map<Pubkey, ChallengeEntry>
    /** Every entry stored so far; callers may still hold those that are no longer in the map. */
    ghost var all: seq<ChallengeEntry>

    ghost predicate Valid()
      reads this, all
    {
      && (forall i :: 0 <= i < |all| ==> all[i].id == i)
      && (forall k :: k in challenges ==> challenges[k] in all)
    }

    /** The state, with the suspended verifications and the judgement of the manager that owns the store. */
    ghost function Snapshot(rest: State): State
      reads this, all
    {
      rest.(entries := seq(|all|, i requires 0 <= i < |all| reads this, all => all[i].Value()),
            challenges := map k | k in challenges :: challenges[k].id)
    }

    constructor (ghost rest: State)
      requires Start(rest)
      ensures Valid() && Snapshot(rest) == rest
    {
      challenges, all := map[], [];
    }

    /** store. */
    method StoreChallenge(pubkey: Pubkey, challenge: string, now: int, ghost rest: State)
      requires Valid() && Linked(Snapshot(rest))
      modifies this
      ensures Valid() && Snapshot(rest) == Step(old(Snapshot(rest)), Store(pubkey, challenge, now))
    {
      var entry := new ChallengeEntry(challenge, now, |all|);
      challenges := challenges[pubkey := entry];
      all := all + [entry];
      assert Snapshot(rest).entries == old(Snapshot(rest)).entries + [entry.Value()];
    }

    /** The increment of retrieve, on the entry object that callers share. */
    method CountAttempt(entry: ChallengeEntry, ghost rest: State)
      requires Valid() && entry in all
      modifies entry
      ensures Valid() && entry.attempts == old(entry.attempts) + 1
      ensures entry.id < |all| && all[entry.id] == entry
      ensures Snapshot(rest) == old(Snapshot(rest)).(entries := old(Snapshot(rest)).entries[entry.id := entry.Value()])
    {
      entry.attempts := entry.attempts + 1;
    }

    /** retrieve. */
    method RetrieveChallenge(pubkey: Pubkey, now: int, ghost rest: State) returns (entry: ChallengeEntry?)
      requires Valid() && Linked(Snapshot(rest))
      modifies this, all
      ensures Valid() && all == old(all)
      ensures Snapshot(rest) == Retrieve(old(Snapshot(rest)), pubkey, now)
      ensures Found(old(Snapshot(rest)), pubkey, now) == if entry == null then None else Some(entry.id)
    {
      if pubkey !in challenges { return null; }
      entry := challenges[pubkey];
      if now - entry.timestamp > TTL {
        challenges := challenges - {pubkey};
        return null;
      }
      CountAttempt(entry, rest);
      if entry.attempts > MAX_ATTEMPTS {
        challenges := challenges - {pubkey};
        return null;
      }
    }

    /** remove. */
    method RemoveChallenge(pubkey: Pubkey, ghost rest: State)
      requires Valid() && Linked(Snapshot(rest))
      modifies this
      ensures Valid() && Snapshot(rest) == Step(old(Snapshot(rest)), Remove(pubkey))
    {
      challenges := challenges - {pubkey};
    }

    /** The loop of the periodic cleanup. */
    method DeleteExpired(now: int)
      modifies this
      ensures all == old(all)
      ensures challenges == map k | k in old(challenges) && now - old(challenges)[k].timestamp <= TTL :: old(challenges)[k]
    {
      var keys := challenges.Keys;
      while keys != {}
        invariant all == old(all) && keys <= challenges.Keys <= old(challenges.Keys)
        invariant forall k :: k in challenges ==> challenges[k] == old(challenges)[k]
        invariant forall k :: k in old(challenges) && k !in keys ==>
                    (k in challenges <==> now - old(challenges)[k].timestamp <= TTL)
        decreases |keys|
      {
        var pubkey :| pubkey in keys;
        keys := keys - {pubkey};
        if now - challenges[pubkey].timestamp > TTL {
          challenges := challenges - {pubkey};
        }
      }
    }

    /** The periodic cleanup. */
    method RemoveExpired(now: int, ghost rest: State)
      requires Valid() && Linked(Snapshot(rest))
      modifies this
      ensures Valid() && Snapshot(rest) == Step(old(Snapshot(rest)), Cleanup(now))
    {
      ghost var before := Snapshot(rest);
      assert forall k :: k in challenges ==>
        before.entries[before.challenges[k]] == challenges[k].Value();
      DeleteExpired(now);
      assert Snapshot(rest).entries == before.entries;
      assert Snapshot(rest).challenges == Step(before, Cleanup(now)).challenges;
    }

    /** destroy. */
    method Destroy(ghost rest: State)
      requires Valid() && Linked(Snapshot(rest))
      modifies this
      ensures Valid() && Snapshot(rest) == Step(old(Snapshot(rest)), Clear)
    {
      challenges := map[];
    }
  }
}
