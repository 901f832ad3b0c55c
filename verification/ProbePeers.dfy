/** The choice of peers to probe before a join: normalizePeerKeyList and buildProbeCandidatePeers of
    index.js. Times and round trips are real numbers. */
module ProbePeers {
  import opened Results
  import opened Bytes
  import opened Text

  const MAX_PROBE_CANDIDATES := 12
  const RECENT_FAILURE_MS: real := 600000.0
  const RECENT_SUCCESS_MS: real := 900000.0

  // ---------- Peer keys ----------

  predicate IsHex64(s: string)
  {
    |s| == 64 && IsHex(s)
  }

  /** normalizePeerKey; None is a value that is not a string, or the null result. */
  function NormalizePeerKey(value: Option<string>): (r: Option<string>)
    ensures r.Some? ==> IsHex64(r.value)
  {
    match value
    case None => None
    case Some(s) => if IsHex64(Trim(s)) then Some(LowerHex(Trim(s))) else None
  }

  function LowerHex(s: string): (t: string)
    requires IsHex(s)
    ensures IsHex(t) && |t| == |s|
  {
    HexRoundTripBack(s);
    Lower(s)
  }

  /** What f gives for the values, in order, without the absent ones: map and filter. */
  function Collect<T>(f: T -> Option<string>, values: seq<T>): seq<string>
  {
    if values == [] then [] else
    (match f(values[0]) case None => [] case Some(p) => [p]) + Collect(f, values[1..])
  }

  function Present(values: seq<Option<string>>): seq<string>
  {
    Collect(NormalizePeerKey, values)
  }

  /** The string is the normal form of one of the values. */
  ghost predicate Named(p: string, values: seq<Option<string>>)
  {
    exists v :: v in values && NormalizePeerKey(v) == Some(p)
  }

  lemma {:induction false} CollectNamed<T>(f: T -> Option<string>, p: string, values: seq<T>)
    ensures p in Collect(f, values) <==> exists v :: v in values && f(v) == Some(p)
    decreases |values|
  {
    if values != [] {
      CollectNamed(f, p, values[1..]);
      assert values == [values[0]] + values[1..];
    }
  }

  lemma PresentNamed(p: string, values: seq<Option<string>>)
    ensures p in Present(values) <==> Named(p, values)
  {
    CollectNamed(NormalizePeerKey, p, values);
  }

  predicate Distinct<T(==)>(s: seq<T>)
  {
    forall i, j :: 0 <= i < j < |s| ==> s[i] != s[j]
  }

  /** Array.from(new Set(s)): the first occurrence of each value, in order. */
  function Dedupe(s: seq<string>): (r: seq<string>)
    ensures Distinct(r)
    ensures forall x :: x in r <==> x in s
    decreases |s|
  {
    if s == [] then [] else
    var front, last := Dedupe(s[..|s| - 1]), s[|s| - 1];
    if last in front then front else front + [last]
  }

  /** The position of the first occurrence. */
  function FirstIndex(s: seq<string>, x: string): (i: nat)
    requires x in s
    ensures i < |s| && s[i] == x && x !in s[..i]
  {
    if s[0] == x then 0 else 1 + FirstIndex(s[1..], x)
  }

  lemma {:induction false} FirstIndexIs(s: seq<string>, x: string, i: nat)
    requires i < |s| && s[i] == x && x !in s[..i]
    ensures FirstIndex(s, x) == i
    decreases i
  {
    if i > 0 {
      assert s[..i] == [s[0]] + s[1..][..i - 1];
      FirstIndexIs(s[1..], x, i - 1);
    }
  }

  /** Values keep the order of their first occurrences. */
  lemma {:induction false} DedupeOrder(s: seq<string>, i: nat, j: nat)
    requires i < j < |Dedupe(s)|
    ensures FirstIndex(s, Dedupe(s)[i]) < FirstIndex(s, Dedupe(s)[j])
    decreases |s|
  {
    var front, last := s[..|s| - 1], s[|s| - 1];
    var x, y := Dedupe(s)[i], Dedupe(s)[j];
    assert x in front;
    FirstIndexFront(s, x);
    if j < |Dedupe(front)| {
      FirstIndexFront(s, y);
      DedupeOrder(front, i, j);
    } else {
      FirstIndexIs(s, last, |s| - 1);
    }
  }

  lemma FirstIndexFront(s: seq<string>, x: string)
    requires s != [] && x in s[..|s| - 1]
    ensures FirstIndex(s, x) == FirstIndex(s[..|s| - 1], x)
  {
    var front := s[..|s| - 1];
    var i := FirstIndex(front, x);
    assert s[..i] == front[..i];
    FirstIndexIs(s, x, i);
  }

  function NormalizePeerKeyList(values: seq<Option<string>>): seq<string>
  {
    Dedupe(Present(values))
  }

  // ---------- Scores ----------

  /** What is known of a peer; None is a missing or non-finite number. */
  datatype Capability = Capability(observedAt: Option<real>, lastSuccessAt: Option<real>, lastFailureAt: Option<real>,
                                   rttMs: Option<real>)

  datatype Candidate = Candidate(peerKey: string, sourceIndex: nat, tier: int, topic: bool, success: bool,
                                 failure: bool, lastSuccessAt: real, lastFailureAt: real, observedAt: real,
                                 rttMs: Option<real>)

  function Finite(x: Option<real>): real
  {
    if x.Some? then x.value else 0.0
  }

  function Score(peerKey: string, sourceIndex: nat, topic: bool, c: Capability, now: real): Candidate
  {
    var observedAt, successAt, failureAt := Finite(c.observedAt), Finite(c.lastSuccessAt), Finite(c.lastFailureAt);
    var success := successAt > 0.0 && now - successAt <= RECENT_SUCCESS_MS;
    var failure := failureAt > 0.0 && now - failureAt <= RECENT_FAILURE_MS && (successAt == 0.0 || failureAt >= successAt);
    var tier := if topic then 0 else if success then 1 else if observedAt > 0.0 then 2 else 3;
    var demotion := if failure && !topic && !success then 2 else 0;
    Candidate(peerKey, sourceIndex, tier + demotion, topic, success, failure, successAt, failureAt, observedAt, c.rttMs)
  }

  const UNKNOWN := Capability(None, None, None, None)

  function KnownOf(known: map<string, Capability>, peerKey: string): Capability
  {
    if peerKey in known then known[peerKey] else UNKNOWN
  }

  function ScoreAll(merged: seq<string>, topics: seq<string>, known: map<string, Capability>, now: real): (r: seq<Candidate>)
    ensures |r| == |merged|
    ensures forall i :: 0 <= i < |r| ==> r[i].peerKey == merged[i] && r[i].sourceIndex == i
  {
    seq(|merged|, i requires 0 <= i < |merged| => Score(merged[i], i, merged[i] in topics, KnownOf(known, merged[i]), now))
  }

  // ---------- The order ----------

  function Sign(x: real): int
  {
    if x < 0.0 then -1 else if x > 0.0 then 1 else 0
  }

  /** Of two different round-trip times, the sign of their difference; an unknown one is infinite. */
  function CompareRtt(a: Option<real>, b: Option<real>): int
    requires a != b
  {
    if a.None? then 1 else if b.None? then -1 else Sign(a.value - b.value)
  }

  /** The comparison function passed to sort. */
  function Compare(l: Candidate, r: Candidate): int
  {
    if l.tier != r.tier then l.tier - r.tier
    else if l.topic != r.topic then if l.topic then -1 else 1
    else if l.success != r.success then if l.success then -1 else 1
    else if l.lastSuccessAt != r.lastSuccessAt then Sign(r.lastSuccessAt - l.lastSuccessAt)
    else if l.failure != r.failure then if l.failure then 1 else -1
    else if l.rttMs != r.rttMs then CompareRtt(l.rttMs, r.rttMs)
    else if l.observedAt != r.observedAt then Sign(r.observedAt - l.observedAt)
    else l.sourceIndex - r.sourceIndex
  }

  predicate Before(l: Candidate, r: Candidate)
  {
    Compare(l, r) < 0
  }

  /** The comparison is a strict total order on candidates with different source indices. */
  lemma CompareTotal(a: Candidate, b: Candidate, c: Candidate)
    ensures !Before(a, a)
    ensures Before(a, b) ==> Compare(b, a) > 0
    ensures a.sourceIndex != b.sourceIndex ==> Before(a, b) || Before(b, a)
    ensures Before(a, b) && Before(b, c) ==> Before(a, c)
  {
    BeforeTransitive(a, b, c);
  }

  lemma BeforeTransitive(a: Candidate, b: Candidate, c: Candidate)
    ensures Before(a, b) && Before(b, c) ==> Before(a, c)
  {
  }

  // ---------- Sorting ----------

  predicate Sorted(s: seq<Candidate>)
  {
    forall i, j :: 0 <= i < j < |s| ==> Before(s[i], s[j])
  }

  ghost predicate DistinctIndices(s: seq<Candidate>)
  {
    forall i, j :: 0 <= i < j < |s| ==> s[i].sourceIndex != s[j].sourceIndex
  }

  /** What sort may return: the candidates in an order in which none should come before an earlier one. */
  ghost predicate SortResult(s: seq<Candidate>, r: seq<Candidate>)
  {
    multiset(r) == multiset(s) && forall i, j :: 0 <= i < j < |r| ==> Compare(r[i], r[j]) <= 0
  }

  function Insert(x: Candidate, s: seq<Candidate>): seq<Candidate>
  {
    if s == [] || Before(x, s[0]) then [x] + s else [s[0]] + Insert(x, s[1..])
  }

  function Sort(s: seq<Candidate>): seq<Candidate>
  {
    if s == [] then [] else Insert(s[0], Sort(s[1..]))
  }

  lemma {:induction false} InsertMembers(x: Candidate, s: seq<Candidate>)
    ensures multiset(Insert(x, s)) == multiset(s) + multiset{x}
    decreases |s|
  {
    if s != [] && !Before(x, s[0]) {
      InsertMembers(x, s[1..]);
      assert s == [s[0]] + s[1..];
    }
  }

  lemma InsertIn(x: Candidate, s: seq<Candidate>, c: Candidate)
    requires c in Insert(x, s)
    ensures c == x || c in s
  {
    InsertMembers(x, s);
    assert c in multiset(Insert(x, s));
  }

  lemma SortedCons(x: Candidate, s: seq<Candidate>)
    requires Sorted(s) && forall c :: c in s ==> Before(x, c)
    ensures Sorted([x] + s)
  {
  }

  lemma {:induction false} InsertSorted(x: Candidate, s: seq<Candidate>)
    requires Sorted(s) && forall i :: 0 <= i < |s| ==> s[i].sourceIndex != x.sourceIndex
    ensures Sorted(Insert(x, s))
    decreases |s|
  {
    if s == [] {
    } else if Before(x, s[0]) {
      forall c | c in s
        ensures Before(x, c)
      {
        BeforeTransitive(x, s[0], c);
      }
      SortedCons(x, s);
    } else {
      CompareTotal(x, s[0], x);
      InsertSorted(x, s[1..]);
      forall c | c in Insert(x, s[1..])
        ensures Before(s[0], c)
      {
        InsertIn(x, s[1..], c);
      }
      SortedCons(s[0], Insert(x, s[1..]));
    }
  }

  lemma {:induction false} SortSound(s: seq<Candidate>)
    requires DistinctIndices(s)
    ensures Sorted(Sort(s)) && multiset(Sort(s)) == multiset(s)
    decreases |s|
  {
    if s != [] {
      SortSound(s[1..]);
      assert s == [s[0]] + s[1..];
      var t := Sort(s[1..]);
      forall i | 0 <= i < |t|
        ensures t[i].sourceIndex != s[0].sourceIndex
      {
        assert t[i] in multiset(t);
      }
      InsertSorted(s[0], t);
      InsertMembers(s[0], t);
    }
  }

  lemma {:induction false} OncePerIndex(s: seq<Candidate>, x: Candidate)
    requires DistinctIndices(s)
    ensures multiset(s)[x] <= 1
    decreases |s|
  {
    if s != [] {
      var front := s[..|s| - 1];
      OncePerIndex(front, x);
      assert s == front + [s[|s| - 1]];
      if x == s[|s| - 1] { assert x !in front; }
    }
  }

  lemma TwiceIfRepeated(s: seq<Candidate>, i: nat, j: nat)
    requires i < j < |s| && s[i] == s[j]
    ensures multiset(s)[s[i]] >= 2
  {
    assert s == s[..j] + [s[j]] + s[j + 1..];
    assert s[i] in s[..j];
  }

  /** Any order that sort may return is strict. */
  lemma ResultStrict(s: seq<Candidate>, r: seq<Candidate>)
    requires DistinctIndices(s) && SortResult(s, r)
    ensures Sorted(r)
  {
    forall i, j | 0 <= i < j < |r|
      ensures Before(r[i], r[j])
    {
      assert r[i] in multiset(r) && r[j] in multiset(r);
      if r[i] == r[j] {
        OncePerIndex(s, r[i]);
        TwiceIfRepeated(r, i, j);
      }
      CompareTotal(r[i], r[j], r[i]);
    }
  }

  lemma {:induction false} SortedUnique(r: seq<Candidate>, t: seq<Candidate>)
    requires Sorted(r) && Sorted(t) && multiset(r) == multiset(t)
    ensures r == t
    decreases |r|
  {
    SameSize(r, t);
    if r != [] {
      SameFirst(r, t);
      RestOf(r);
      RestOf(t);
      SortedUnique(r[1..], t[1..]);
    }
  }

  lemma SameFirst(r: seq<Candidate>, t: seq<Candidate>)
    requires Sorted(r) && Sorted(t) && multiset(r) == multiset(t) && r != [] && t != []
    ensures r[0] == t[0]
  {
    assert r[0] in multiset(t);
    assert t[0] in multiset(r);
    if r[0] != t[0] { CompareTotal(r[0], t[0], r[0]); }
  }

  lemma RestOf(r: seq<Candidate>)
    requires r != []
    ensures r == [r[0]] + r[1..] && multiset(r[1..]) == multiset(r) - multiset{r[0]}
  {
    assert r == [r[0]] + r[1..];
  }

  /** Whatever algorithm sort uses, there is only one result. */
  lemma SortDetermined(s: seq<Candidate>, r: seq<Candidate>)
    requires DistinctIndices(s)
    ensures SortResult(s, r) <==> r == Sort(s)
  {
    SortSound(s);
    if SortResult(s, r) {
      ResultStrict(s, r);
      SortedUnique(r, Sort(s));
    }
  }

  // ---------- The candidates ----------

  function Limit(maxCandidates: Option<int>): (n: nat)
    ensures n >= 1
  {
    var m := if maxCandidates.Some? && maxCandidates.value != 0 then maxCandidates.value else MAX_PROBE_CANDIDATES;
    if m < 1 then 1 else m
  }

  /** The arguments of buildProbeCandidatePeers, and the clock. */
  datatype Options = Options(topics: seq<Option<string>>, hosts: seq<Option<string>>, replicas: seq<Option<string>>,
                             known: map<string, Capability>, maxCandidates: Option<int>, now: real)

  function Wrap(keys: seq<string>): (r: seq<Option<string>>)
    ensures |r| == |keys| && forall i :: 0 <= i < |keys| ==> r[i] == Some(keys[i])
  {
    seq(|keys|, i requires 0 <= i < |keys| => Some(keys[i]))
  }

  function Merged(o: Options): seq<string>
  {
    NormalizePeerKeyList(Wrap(NormalizePeerKeyList(o.topics)) + o.hosts + o.replicas)
  }

  function Ranked(o: Options): seq<Candidate>
  {
    Sort(ScoreAll(Merged(o), NormalizePeerKeyList(o.topics), o.known, o.now))
  }

  function Take<T>(s: seq<T>, n: nat): seq<T>
  {
    if |s| <= n then s else s[..n]
  }

  function KeysOf(s: seq<Candidate>): (r: seq<string>)
    ensures |r| == |s| && forall i :: 0 <= i < |s| ==> r[i] == s[i].peerKey
  {
    seq(|s|, i requires 0 <= i < |s| => s[i].peerKey)
  }

  /** candidatePeers of buildProbeCandidatePeers. */
  function CandidatePeers(o: Options): seq<string>
  {
    KeysOf(Take(Ranked(o), Limit(o.maxCandidates)))
  }

  // ---------- Main results ----------

  lemma ListNamed(p: string, values: seq<Option<string>>)
    ensures p in NormalizePeerKeyList(values) <==> Named(p, values)
  {
    PresentNamed(p, values);
  }

  lemma NormalizeTwice(value: Option<string>)
    requires NormalizePeerKey(value).Some?
    ensures NormalizePeerKey(NormalizePeerKey(value)) == NormalizePeerKey(value)
  {
    var s := NormalizePeerKey(value).value;
    LowerIsHex(Trim(value.value));
    NoSpaces(s);
  }

  lemma LowerIsHex(s: string)
    requires IsHex(s)
    ensures LowerHex(LowerHex(s)) == LowerHex(s)
  {
    HexRoundTripBack(s);
  }

  lemma NoSpaces(s: string)
    requires IsHex64(s)
    ensures Trim(s) == s
  {
    assert IsHexChar(s[0]) && IsHexChar(s[|s| - 1]);
  }

  lemma WrapNamed(p: string, topics: seq<Option<string>>)
    ensures Named(p, Wrap(NormalizePeerKeyList(topics))) <==> Named(p, topics)
  {
    var list := NormalizePeerKeyList(topics);
    forall q | q in list
      ensures NormalizePeerKey(Some(q)) == Some(q)
    {
      ListNamed(q, topics);
      var v :| v in topics && NormalizePeerKey(v) == Some(q);
      NormalizeTwice(v);
    }
    ListNamed(p, topics);
    assert forall q :: Some(q) in Wrap(list) <==> q in list;
    if p in list { assert Some(p) in Wrap(list); }
  }

  /** The merged list names every valid peer of the three inputs once. */
  lemma MergedPeers(o: Options, p: string)
    ensures Distinct(Merged(o))
    ensures p in Merged(o) <==> Named(p, o.topics) || Named(p, o.hosts) || Named(p, o.replicas)
  {
    var wrapped := Wrap(NormalizePeerKeyList(o.topics));
    WrapNamed(p, o.topics);
    ListNamed(p, wrapped + o.hosts + o.replicas);
    assert Named(p, wrapped + o.hosts + o.replicas) <==>
      Named(p, wrapped) || Named(p, o.hosts) || Named(p, o.replicas);
  }

  lemma {:induction false} CollectAppend<T>(f: T -> Option<string>, a: seq<T>, b: seq<T>)
    ensures Collect(f, a + b) == Collect(f, a) + Collect(f, b)
    decreases |a|
  {
    if a == [] {
      assert a + b == b;
    } else {
      CollectAppend(f, a[1..], b);
      CollectJoin(f, a[0], a[1..], b);
      assert a == [a[0]] + a[1..] && a + b == [a[0]] + (a[1..] + b);
    }
  }

  lemma CollectJoin<T>(f: T -> Option<string>, v: T, a: seq<T>, b: seq<T>)
    requires Collect(f, a + b) == Collect(f, a) + Collect(f, b)
    ensures Collect(f, [v] + (a + b)) == Collect(f, [v] + a) + Collect(f, b)
  {
    assert ([v] + (a + b))[1..] == a + b && ([v] + a)[1..] == a;
  }

  lemma PresentAppend(a: seq<Option<string>>, b: seq<Option<string>>)
    ensures Present(a + b) == Present(a) + Present(b)
  {
    CollectAppend(NormalizePeerKey, a, b);
  }

  lemma {:induction false} CollectSame(f: Option<string> -> Option<string>, keys: seq<string>)
    requires forall k :: k in keys ==> f(Some(k)) == Some(k)
    ensures Collect(f, Wrap(keys)) == keys
    decreases |keys|
  {
    if keys != [] {
      assert Wrap(keys)[1..] == Wrap(keys[1..]);
      CollectSame(f, keys[1..]);
    }
  }

  lemma PresentWrap(keys: seq<string>)
    requires forall k :: k in keys ==> NormalizePeerKey(Some(k)) == Some(k)
    ensures Present(Wrap(keys)) == keys
  {
    CollectSame(NormalizePeerKey, keys);
  }

  lemma {:induction false} DedupeDistinct(s: seq<string>)
    requires Distinct(s)
    ensures Dedupe(s) == s
    decreases |s|
  {
    if s != [] { DedupeDistinct(s[..|s| - 1]); }
  }

  lemma {:induction false} DedupeFront(a: seq<string>, b: seq<string>)
    ensures Dedupe(Dedupe(a) + b) == Dedupe(a + b)
    decreases |b|
  {
    if b == [] {
      assert Dedupe(a) + b == Dedupe(a) && a + b == a;
      DedupeDistinct(Dedupe(a));
    } else {
      var front, last := b[..|b| - 1], b[|b| - 1];
      DedupeFront(a, front);
      DedupePush(a + front, last);
      DedupePush(Dedupe(a) + front, last);
      LastApart(a, b);
      LastApart(Dedupe(a), b);
    }
  }

  lemma LastApart(a: seq<string>, b: seq<string>)
    requires b != []
    ensures a + b == (a + b[..|b| - 1]) + [b[|b| - 1]]
  {
  }

  lemma DedupePush(s: seq<string>, x: string)
    ensures Dedupe(s + [x]) == if x in Dedupe(s) then Dedupe(s) else Dedupe(s) + [x]
  {
    assert (s + [x])[..|s|] == s;
  }

  /** The merged list has the topic peers, then the hosts, then the replicas, each peer at its first place. */
  lemma MergedInOrder(o: Options)
    ensures Merged(o) == NormalizePeerKeyList(o.topics + o.hosts + o.replicas)
  {
    var list := NormalizePeerKeyList(o.topics);
    ListRepeats(o.topics, o.hosts + o.replicas);
    assert Wrap(list) + o.hosts + o.replicas == Wrap(list) + (o.hosts + o.replicas);
    assert o.topics + o.hosts + o.replicas == o.topics + (o.hosts + o.replicas);
  }

  /** Normalizing a normalized list, with more values after it. */
  lemma ListRepeats(values: seq<Option<string>>, more: seq<Option<string>>)
    ensures NormalizePeerKeyList(Wrap(NormalizePeerKeyList(values)) + more) == NormalizePeerKeyList(values + more)
  {
    var list := NormalizePeerKeyList(values);
    NormalForms(values);
    PresentWrap(list);
    PresentAppend(Wrap(list), more);
    PresentAppend(values, more);
    DedupeFront(Present(values), Present(more));
  }

  lemma NormalForms(values: seq<Option<string>>)
    ensures forall q :: q in NormalizePeerKeyList(values) ==> NormalizePeerKey(Some(q)) == Some(q)
  {
    forall q | q in NormalizePeerKeyList(values)
      ensures NormalizePeerKey(Some(q)) == Some(q)
    {
      ListNamed(q, values);
      var v :| v in values && NormalizePeerKey(v) == Some(q);
      NormalizeTwice(v);
    }
  }

  /** A value names a peer when, without surrounding white space, it is 64 hexadecimal digits; two values name the
      same peer exactly when they spell the same 32 bytes. */
  lemma SamePeerIff(s: string, t: string)
    ensures NormalizePeerKey(Some(s)).Some? <==> |Trim(s)| == 64 && IsHex(Trim(s))
    ensures NormalizePeerKey(Some(s)).Some? && NormalizePeerKey(Some(t)).Some? ==>
              (NormalizePeerKey(Some(s)) == NormalizePeerKey(Some(t)) <==> HexDecode(Trim(s)) == HexDecode(Trim(t)))
    ensures NormalizePeerKey(Some(s)).Some? ==>
              HexDecode(NormalizePeerKey(Some(s)).value) == HexDecode(Trim(s)) && |HexDecode(Trim(s))| == 32
  {
    if NormalizePeerKey(Some(s)).Some? {
      HexRoundTripBack(Trim(s));
      HexRoundTrip(HexDecode(Trim(s)));
    }
    if NormalizePeerKey(Some(t)).Some? {
      HexRoundTripBack(Trim(t));
      HexRoundTrip(HexDecode(Trim(t)));
    }
  }

  /** The ranked list is the scored list in strict order. */
  lemma RankedSound(o: Options)
    ensures var scored := ScoreAll(Merged(o), NormalizePeerKeyList(o.topics), o.known, o.now);
            var ranked := Ranked(o);
            DistinctIndices(scored) && Sorted(ranked) && multiset(ranked) == multiset(scored) && |ranked| == |scored|
  {
    var scored := ScoreAll(Merged(o), NormalizePeerKeyList(o.topics), o.known, o.now);
    SortSound(scored);
    SameSize(Sort(scored), scored);
  }

  lemma SameSize(r: seq<Candidate>, s: seq<Candidate>)
    requires multiset(r) == multiset(s)
    ensures |r| == |s|
  {
    assert |multiset(r)| == |r| && |multiset(s)| == |s|;
  }

  /** Every candidate is the score of a merged peer, and every merged peer has one. */
  ghost predicate ScoreOf(c: Candidate, o: Options)
  {
    c == Score(c.peerKey, c.sourceIndex, c.peerKey in NormalizePeerKeyList(o.topics), KnownOf(o.known, c.peerKey), o.now)
  }

  lemma SameMembers(r: seq<Candidate>, s: seq<Candidate>)
    requires multiset(r) == multiset(s)
    ensures forall c :: c in r <==> c in s
  {
    assert forall c :: c in r <==> c in multiset(r);
    assert forall c :: c in s <==> c in multiset(s);
  }

  lemma RankedScores(o: Options)
    ensures Sorted(Ranked(o)) && |Ranked(o)| == |Merged(o)|
    ensures forall c :: c in Ranked(o) ==> c.peerKey in Merged(o) && ScoreOf(c, o)
    ensures forall p :: p in Merged(o) ==> exists c :: c in Ranked(o) && c.peerKey == p
  {
    var merged := Merged(o);
    var scored := ScoreAll(merged, NormalizePeerKeyList(o.topics), o.known, o.now);
    RankedSound(o);
    SameMembers(Ranked(o), scored);
    forall p | p in merged
      ensures exists c :: c in Ranked(o) && c.peerKey == p
    {
      var i :| 0 <= i < |merged| && merged[i] == p;
      assert scored[i] in scored && scored[i].peerKey == p;
    }
  }

  /** No two candidates are the same peer. */
  lemma RankedDistinct(o: Options)
    ensures Distinct(KeysOf(Ranked(o)))
  {
    var ranked := Ranked(o);
    forall i, j | 0 <= i < j < |ranked|
      ensures ranked[i].peerKey != ranked[j].peerKey
    {
      RankedDiffer(o, i, j);
    }
  }

  lemma RankedDiffer(o: Options, i: nat, j: nat)
    requires i < j < |Ranked(o)|
    ensures Ranked(o)[i].peerKey != Ranked(o)[j].peerKey
  {
    var ranked := Ranked(o);
    RankedSound(o);
    var k := PlaceScored(o, i);
    var l := PlaceScored(o, j);
    assert Before(ranked[i], ranked[j]);
    CompareTotal(ranked[i], ranked[i], ranked[i]);
  }

  /** Where a ranked candidate was before the sorting. */
  lemma PlaceScored(o: Options, i: nat) returns (k: nat)
    requires i < |Ranked(o)|
    ensures var scored := ScoreAll(Merged(o), NormalizePeerKeyList(o.topics), o.known, o.now);
            k < |scored| && scored[k] == Ranked(o)[i]
  {
    var scored := ScoreAll(Merged(o), NormalizePeerKeyList(o.topics), o.known, o.now);
    RankedSound(o);
    assert Ranked(o)[i] in multiset(scored);
    k :| 0 <= k < |scored| && scored[k] == Ranked(o)[i];
  }

  /** As many peers as there are, up to the limit; all different, all valid, all from the inputs. */
  lemma CandidatesAreDistinctPeers(o: Options)
    ensures var merged := Merged(o);
            var r := CandidatePeers(o);
            && |r| == (if |merged| <= Limit(o.maxCandidates) then |merged| else Limit(o.maxCandidates))
            && Distinct(r)
            && forall p :: p in r ==> p in merged
  {
    var ranked := Ranked(o);
    RankedScores(o);
    RankedDistinct(o);
    var taken := Take(ranked, Limit(o.maxCandidates));
    assert forall i :: 0 <= i < |taken| ==> taken[i] == ranked[i];
    assert forall i, j :: 0 <= i < j < |taken| ==> KeysOf(ranked)[i] != KeysOf(ranked)[j];
  }

  /** In a sorted list cut off after n, a class that comes before all others fills the front, and is
      complete if any other made the cut. */
  lemma ClassFirst(s: seq<Candidate>, n: nat, first: Candidate -> bool) returns (m: nat)
    requires Sorted(s)
    requires forall x, y :: x in s && y in s && first(x) && !first(y) ==> Before(x, y)
    ensures m <= |Take(s, n)|
    ensures forall i :: 0 <= i < m ==> first(s[i])
    ensures forall i :: m <= i < |Take(s, n)| ==> !first(s[i])
    ensures m < |Take(s, n)| ==> forall i :: m <= i < |s| ==> !first(s[i])
  {
    m := 0;
    var k := |Take(s, n)|;
    while m < k && first(s[m])
      invariant m <= k && forall i :: 0 <= i < m ==> first(s[i])
    {
      m := m + 1;
    }
    if m < k {
      forall i | m <= i < |s|
        ensures !first(s[i])
      {
        if first(s[i]) { CompareTotal(s[m], s[i], s[m]); }
      }
    }
  }

  /** Not a topic peer, with a recent failure and no recent success. */
  predicate Demoted(c: Candidate)
  {
    c.failure && !c.topic && !c.success
  }

  /** The classes of peers, each containing the one before: topic peers; with the recently successful;
      with those heard of and not failing; all that are not demoted; and with the demoted heard of. */
  predicate Better(c: Candidate, level: nat)
  {
    if level == 0 then c.topic
    else if level == 1 then c.topic || c.success
    else if level == 2 then c.topic || c.success || (c.observedAt > 0.0 && !c.failure)
    else if level == 3 then !Demoted(c)
    else !Demoted(c) || c.observedAt > 0.0
  }

  /** What buildProbeCandidatePeers knows of a peer, as a candidate. */
  function Judged(p: string, o: Options): Candidate
  {
    Score(p, 0, p in NormalizePeerKeyList(o.topics), KnownOf(o.known, p), o.now)
  }

  /** The peers of a class fill the front of the result, and if any other peer is in the result, the
      class is complete there. */
  ghost predicate FillsFront(r: seq<string>, merged: seq<string>, first: string -> bool)
  {
    exists m :: FrontAt(r, merged, first, m)
  }

  ghost predicate FrontAt(r: seq<string>, merged: seq<string>, first: string -> bool, m: nat)
  {
    && m <= |r|
    && (forall i :: 0 <= i < m ==> first(r[i]))
    && (forall i :: m <= i < |r| ==> !first(r[i]))
    && (m < |r| ==> forall p :: p in merged && first(p) ==> p in r[..m])
  }

  lemma FrontOfKeys(s: seq<Candidate>, n: nat, merged: seq<string>, first: Candidate -> bool, named: string -> bool)
    requires Sorted(s)
    requires forall c :: c in s ==> first(c) == named(c.peerKey)
    requires forall p :: p in merged ==> exists c :: c in s && c.peerKey == p
    requires forall x, y :: x in s && y in s && first(x) && !first(y) ==> Before(x, y)
    ensures FillsFront(KeysOf(Take(s, n)), merged, named)
  {
    var r := KeysOf(Take(s, n));
    var m := ClassFirst(s, n, first);
    assert forall i :: 0 <= i < |r| ==> r[i] == s[i].peerKey && s[i] in s;
    if m < |r| {
      forall p | p in merged && named(p)
        ensures p in r[..m]
      {
        var c :| c in s && c.peerKey == p;
        var i :| 0 <= i < |s| && s[i] == c;
        assert first(s[i]);
        assert r[..m][i] == p;
      }
    }
    assert FrontAt(r, merged, named, m);
  }

  ghost predicate ClassBefore(o: Options, first: Candidate -> bool, x: Candidate, y: Candidate)
  {
    ScoreOf(x, o) && ScoreOf(y, o) && first(x) && !first(y) ==> Before(x, y)
  }

  lemma ClassFillsFront(o: Options, first: Candidate -> bool, named: string -> bool)
    requires forall c :: ScoreOf(c, o) ==> first(c) == named(c.peerKey)
    requires forall x, y :: ClassBefore(o, first, x, y)
    ensures FillsFront(CandidatePeers(o), Merged(o), named)
  {
    var ranked := Ranked(o);
    RankedScores(o);
    forall x, y | x in ranked && y in ranked && first(x) && !first(y)
      ensures Before(x, y)
    {
      assert ClassBefore(o, first, x, y);
    }
    FrontOfKeys(ranked, Limit(o.maxCandidates), Merged(o), first, named);
  }

  /** Better peers come first: at every level, the peers of the class fill the front of the result. */
  lemma BetterPeersFirst(o: Options, level: nat)
    ensures FillsFront(CandidatePeers(o), Merged(o), p => Better(Judged(p, o), level))
  {
    ClassFillsFront(o, c => Better(c, level), p => Better(Judged(p, o), level));
  }

  /** Topic peers come before all others, and peers outside the topic with a recent failure and no
      recent success come after all others. */
  lemma TopicFirstDemotedLast(o: Options)
    ensures FillsFront(CandidatePeers(o), Merged(o), p => p in NormalizePeerKeyList(o.topics))
    ensures FillsFront(CandidatePeers(o), Merged(o), p => !Demoted(Judged(p, o)))
  {
    TopicFirst(o);
    DemotedLast(o);
  }

  lemma TopicFirst(o: Options)
    ensures FillsFront(CandidatePeers(o), Merged(o), p => p in NormalizePeerKeyList(o.topics))
  {
    ClassFillsFront(o, (c: Candidate) => c.topic, p => p in NormalizePeerKeyList(o.topics));
  }

  lemma DemotedLast(o: Options)
    ensures FillsFront(CandidatePeers(o), Merged(o), p => !Demoted(Judged(p, o)))
  {
    ClassFillsFront(o, c => !Demoted(c), p => !Demoted(Judged(p, o)));
  }

  /** Inside a tier the flags decide nothing: they never find a difference that the tier or the time of
      the last success has not, and the later success comes first. */
  lemma TierThenSuccess(o: Options, x: Candidate, y: Candidate)
    requires ScoreOf(x, o) && ScoreOf(y, o) && x.tier == y.tier
    ensures x.topic == y.topic
    ensures x.lastSuccessAt == y.lastSuccessAt ==> x.success == y.success
    ensures x.lastSuccessAt > y.lastSuccessAt ==> Before(x, y)
  {
  }

  // ---------- The order of the result ----------

  // What the order depends on, for a peer of the merged list, in terms of the inputs.

  function SuccessTime(p: string, o: Options): real
  {
    if p in o.known && o.known[p].lastSuccessAt.Some? then o.known[p].lastSuccessAt.value else 0.0
  }

  function FailureTime(p: string, o: Options): real
  {
    if p in o.known && o.known[p].lastFailureAt.Some? then o.known[p].lastFailureAt.value else 0.0
  }

  function ObservedTime(p: string, o: Options): real
  {
    if p in o.known && o.known[p].observedAt.Some? then o.known[p].observedAt.value else 0.0
  }

  function RoundTrip(p: string, o: Options): Option<real>
  {
    if p in o.known then o.known[p].rttMs else None
  }

  predicate TopicPeer(p: string, o: Options)
  {
    p in NormalizePeerKeyList(o.topics)
  }

  /** A success in the last fifteen minutes. */
  predicate SucceededLately(p: string, o: Options)
  {
    0.0 < SuccessTime(p, o) && o.now <= SuccessTime(p, o) + 15.0 * 60.0 * 1000.0
  }

  /** A failure in the last ten minutes, and no success after it. */
  predicate FailedLately(p: string, o: Options)
  {
    0.0 < FailureTime(p, o) && o.now <= FailureTime(p, o) + 10.0 * 60.0 * 1000.0 && SuccessTime(p, o) <= FailureTime(p, o)
  }

  /** The level of a peer: 0 for topic peers, 1 for those that succeeded lately; of the others, those that did not
      fail lately come first, and among these and among the failing ones those that were ever observed. */
  function Level(p: string, o: Options): nat
  {
    if TopicPeer(p, o) then 0
    else if SucceededLately(p, o) then 1
    else (if FailedLately(p, o) then 4 else 2) + if ObservedTime(p, o) > 0.0 then 0 else 1
  }

  /** A known round trip is shorter than any longer or unknown one. */
  predicate Shorter(a: Option<real>, b: Option<real>)
  {
    a.Some? && (b.None? || a.value < b.value)
  }

  /** p is to be probed before q: by level, then the later success, then no recent failure, then the shorter round
      trip, then the later observation, then the place in the merged list. */
  ghost predicate Precedes(p: string, q: string, o: Options)
    requires p in Merged(o) && q in Merged(o)
  {
    var a, b := RoundTrip(p, o), RoundTrip(q, o);
    || Level(p, o) < Level(q, o)
    || (Level(p, o) == Level(q, o) &&
        (|| SuccessTime(p, o) > SuccessTime(q, o)
         || (SuccessTime(p, o) == SuccessTime(q, o) &&
             (|| (!FailedLately(p, o) && FailedLately(q, o))
              || (FailedLately(p, o) == FailedLately(q, o) &&
                  (|| Shorter(a, b)
                   || (a == b &&
                       (|| ObservedTime(p, o) > ObservedTime(q, o)
                        || (ObservedTime(p, o) == ObservedTime(q, o) &&
                            FirstIndex(Merged(o), p) < FirstIndex(Merged(o), q))))))))))
  }

  /** The candidate of a peer of the merged list. */
  ghost predicate CandidateOf(c: Candidate, o: Options)
  {
    c.peerKey in Merged(o) && c.sourceIndex == FirstIndex(Merged(o), c.peerKey) && ScoreOf(c, o)
  }

  lemma CandidateFacts(c: Candidate, o: Options)
    requires ScoreOf(c, o)
    ensures c.topic == TopicPeer(c.peerKey, o) && c.success == SucceededLately(c.peerKey, o)
    ensures c.failure == FailedLately(c.peerKey, o) && c.tier == Level(c.peerKey, o)
    ensures c.lastSuccessAt == SuccessTime(c.peerKey, o) && c.observedAt == ObservedTime(c.peerKey, o)
    ensures c.rttMs == RoundTrip(c.peerKey, o)
  {
  }

  lemma BeforeMeansPrecedes(x: Candidate, y: Candidate, o: Options)
    requires CandidateOf(x, o) && CandidateOf(y, o) && Before(x, y)
    ensures Precedes(x.peerKey, y.peerKey, o)
  {
    CandidateFacts(x, o);
    CandidateFacts(y, o);
  }

  /** Ranked candidates belong to peers of the merged list. */
  lemma RankedCandidate(o: Options, i: nat)
    requires i < |Ranked(o)|
    ensures CandidateOf(Ranked(o)[i], o)
  {
    var merged := Merged(o);
    var k := PlaceScored(o, i);
    RankedScores(o);
    assert Ranked(o)[i] in Ranked(o);
    forall j | 0 <= j < k
      ensures merged[j] != merged[k]
    {
    }
    FirstIndexIs(merged, merged[k], k);
  }

  lemma RankedPrecedes(o: Options, i: nat, j: nat)
    requires i < j < |Ranked(o)|
    ensures CandidateOf(Ranked(o)[i], o) && CandidateOf(Ranked(o)[j], o)
    ensures Precedes(Ranked(o)[i].peerKey, Ranked(o)[j].peerKey, o)
  {
    RankedSound(o);
    RankedCandidate(o, i);
    RankedCandidate(o, j);
    BeforeMeansPrecedes(Ranked(o)[i], Ranked(o)[j], o);
  }

  /** The order of the candidate peers: each comes before the next ones, and all of them before every peer that did
      not make the cut. */
  lemma CandidateOrder(o: Options, i: nat, j: nat)
    requires i < j < |CandidatePeers(o)|
    ensures CandidatePeers(o)[i] in Merged(o) && CandidatePeers(o)[j] in Merged(o)
    ensures Precedes(CandidatePeers(o)[i], CandidatePeers(o)[j], o)
  {
    RankedPrecedes(o, i, j);
  }

  lemma CutOrder(o: Options, i: nat, q: string)
    requires i < |CandidatePeers(o)| && q in Merged(o) && q !in CandidatePeers(o)
    ensures CandidatePeers(o)[i] in Merged(o) && Precedes(CandidatePeers(o)[i], q, o)
  {
    RankedScores(o);
    var c :| c in Ranked(o) && c.peerKey == q;
    var j :| 0 <= j < |Ranked(o)| && Ranked(o)[j] == c;
    assert forall k :: 0 <= k < |CandidatePeers(o)| ==> CandidatePeers(o)[k] == Ranked(o)[k].peerKey;
    RankedPrecedes(o, i, j);
  }

  /** At most twelve peers, or as many as were asked for, but at least one. */
  lemma CandidateCount(o: Options)
    ensures var limit := if o.maxCandidates == None || o.maxCandidates == Some(0) then 12 else o.maxCandidates.value;
            var n := |Merged(o)|;
            |CandidatePeers(o)| == if limit < 1 then (if n < 1 then n else 1) else if n < limit then n else limit
  {
    RankedScores(o);
  }
}
