/**
 internal/routing/router.go and internal/proxy/handler.go: ranked endpoint selection, and the dial
 loop that uses it. Latencies are read once per selection.
 */
module Router {
  import opened Breaker
  import opened Bytes
  import opened Sorting

  // ---- the comparator ----

  /** The less function given to sort.Slice: 0 means "not measured" and is never preferred. */
  predicate Less(li: nat, lj: nat)
  {
    if li == 0 && lj == 0 then false else
    if li == 0 then false else
    if lj == 0 then true else li < lj
  }

  /** It is a strict weak order: irreflexive and transitive, and so is being unordered. */
  lemma LessIsStrictWeak(a: nat, b: nat, c: nat)
    ensures !Less(a, a)
    ensures Less(a, b) && Less(b, c) ==> Less(a, c)
    ensures !Less(a, b) && !Less(b, a) && !Less(b, c) && !Less(c, b) ==> !Less(a, c) && !Less(c, a)
    ensures !Less(b, a) && !Less(c, b) ==> !Less(c, a)
  {
  }

  function LatencyOf(lat: seq<nat>, k: nat): nat { if k < |lat| then lat[k] else 0 }

  /** The same on candidates, which are endpoint numbers. */
  function Faster(lat: seq<nat>): (nat, nat) -> bool { (a: nat, b: nat) => Less(LatencyOf(lat, a), LatencyOf(lat, b)) }

  lemma FasterIsStrictWeak(lat: seq<nat>)
    ensures StrictWeak(Faster(lat))
  {
    hide Less;
    forall a: nat, b: nat, c: nat
      ensures !Faster(lat)(a, a)
      ensures Faster(lat)(a, b) && Faster(lat)(b, c) ==> Faster(lat)(a, c)
      ensures !Faster(lat)(b, a) && !Faster(lat)(c, b) ==> !Faster(lat)(c, a)
    {
      LessIsStrictWeak(LatencyOf(lat, a), LatencyOf(lat, b), LatencyOf(lat, c));
    }
  }

  method SortCandidates(c: seq<nat>, lat: seq<nat>) returns (s: seq<nat>)
    ensures Sorted(s, Faster(lat)) && multiset(s) == multiset(c)
  {
    FasterIsStrictWeak(lat);
    s := InsertionSort(c, Faster(lat));
  }

  // ---- Pick ----

  /** A query at `now` would still report Open. */
  predicate OpenAt(b: Breaker, now: int) { b.health == Open && now <= b.openUntil }

  lemma QueryReportsOpen(b: Breaker, now: int)
    ensures AfterQuery(b, now).health == Open <==> OpenAt(b, now)
  {
  }

  ghost function Usable(bs: seq<Breaker>, now: int): set<nat> { set j | 0 <= j < |bs| && !OpenAt(bs[j], now) }

  /** The usable endpoints known to be quicker than k; one without a measurement is quicker than none. */
  ghost function Quicker(bs: seq<Breaker>, lat: seq<nat>, now: int, k: nat): set<nat>
    requires |bs| == |lat| && k < |lat|
  {
    set j | 0 <= j < |bs| && !OpenAt(bs[j], now) && 0 < lat[j] && (lat[k] == 0 || lat[j] < lat[k])
  }

  ghost function Slower(bs: seq<Breaker>, lat: seq<nat>, now: int, k: nat): set<nat>
    requires |bs| == |lat| && k < |lat|
  {
    set j | 0 <= j < |bs| && !OpenAt(bs[j], now) && 0 < lat[k] && (lat[j] == 0 || lat[k] < lat[j])
  }

  /**
   What a selection promises: none only if all are open; else a usable endpoint at the drawn rank
   among the best three, so with at most that many quicker ones and the rest not quicker.
   */
  ghost predicate GoodPick(bs: seq<Breaker>, lat: seq<nat>, now: int, draw: nat, picked: Option<nat>)
    requires |bs| == |lat|
  {
    match picked
    case None => forall j :: 0 <= j < |bs| ==> OpenAt(bs[j], now)
    case Some(k) =>
      var n := |Usable(bs, now)|;
      && k < |bs| && !OpenAt(bs[k], now) && n > 0
      && var rank := draw % (if n < 3 then n else 3);
         |Quicker(bs, lat, now, k)| <= rank && |Slower(bs, lat, now, k)| <= n - 1 - rank
  }

  /** Whatever is drawn, fewer than three usable endpoints are known to be quicker. */
  lemma PickedIsAmongBestThree(bs: seq<Breaker>, lat: seq<nat>, now: int, draw: nat, k: nat)
    requires |bs| == |lat| && GoodPick(bs, lat, now, draw, Some(k))
    ensures k < |bs| && !OpenAt(bs[k], now)
    ensures lat[k] > 0 ==> |set j | 0 <= j < |bs| && !OpenAt(bs[j], now) && 0 < lat[j] < lat[k]| < 3
    ensures lat[k] == 0 ==> |set j | 0 <= j < |bs| && !OpenAt(bs[j], now) && lat[j] > 0| < 3
  {
    var quicker := Quicker(bs, lat, now, k);
    assert lat[k] > 0 ==> (set j | 0 <= j < |bs| && !OpenAt(bs[j], now) && 0 < lat[j] < lat[k]) == quicker;
    assert lat[k] == 0 ==> (set j | 0 <= j < |bs| && !OpenAt(bs[j], now) && lat[j] > 0) == quicker;
  }

  lemma {:induction false} ElementCount(s: seq<nat>, a: set<nat>)
    requires forall x :: x in a ==> x in s
    ensures |a| <= |s|
  {
    if s == [] {
      assert a == {};
    } else {
      ElementCount(s[1..], a - {s[0]});
    }
  }

  lemma {:induction false} DistinctCount(s: seq<nat>, a: set<nat>)
    requires (forall x :: x in a <==> x in s) && forall i, j :: 0 <= i < j < |s| ==> s[i] != s[j]
    ensures |a| == |s|
  {
    if s == [] {
      assert a == {};
    } else {
      assert forall x :: x in s <==> x == s[0] || x in s[1..];
      DistinctCount(s[1..], a - {s[0]});
    }
  }

  /** At position n of the sorted candidates at most n are quicker and at most the rest slower. */
  lemma RankInSorted(bs: seq<Breaker>, lat: seq<nat>, now: int, s: seq<nat>, n: nat)
    requires |bs| == |lat| && Sorted(s, Faster(lat)) && n < |s| && s[n] < |lat|
    requires forall j :: 0 <= j < |bs| && !OpenAt(bs[j], now) ==> j in s
    ensures |Quicker(bs, lat, now, s[n])| <= n && |Slower(bs, lat, now, s[n])| <= |s| - 1 - n
  {
    var quicker, slower := Quicker(bs, lat, now, s[n]), Slower(bs, lat, now, s[n]);
    forall x | x in quicker ensures x in s[..n] {
      var i :| 0 <= i < |s| && s[i] == x;
      assert Faster(lat)(s[i], s[n]);
      assert s[..n][i] == x;
    }
    forall x | x in slower ensures x in s[n + 1..] {
      var i :| 0 <= i < |s| && s[i] == x;
      assert Faster(lat)(s[n], s[i]);
      assert s[n + 1..][i - n - 1] == x;
    }
    ElementCount(s[..n], quicker);
    ElementCount(s[n + 1..], slower);
  }

  /** `draw` is the random index into the best three. */
  method Choose(c: seq<nat>, ghost bs: seq<Breaker>, lat: seq<nat>, now: int, draw: nat) returns (picked: Option<nat>)
    requires |bs| == |lat|
    requires forall i :: 0 <= i < |c| ==> c[i] < |bs| && !OpenAt(bs[c[i]], now)
    requires forall i, j :: 0 <= i < j < |c| ==> c[i] != c[j]
    requires forall j :: 0 <= j < |bs| && !OpenAt(bs[j], now) ==> j in c
    ensures GoodPick(bs, lat, now, draw, picked)
  {
    if |c| == 0 { return None; }
    var sorted := SortCandidates(c, lat);
    assert forall x :: x in sorted <==> x in multiset(sorted);
    assert forall x :: x in c <==> x in multiset(c);
    assert |sorted| == |multiset(sorted)| == |c|;
    DistinctCount(c, Usable(bs, now));
    var top := |sorted|;
    if top > 3 { top := 3; }
    var n := draw % top;
    assert sorted[n] in sorted;
    RankInSorted(bs, lat, now, sorted, n);
    return Some(sorted[n]);
  }

  ghost function Values(eps: seq<Endpoint>): seq<Breaker>
    reads eps
  {
    seq(|eps|, i requires 0 <= i < |eps| reads eps => eps[i].Value())
  }

  ghost function Latencies(eps: seq<Endpoint>): seq<nat>
    reads eps
  {
    seq(|eps|, i requires 0 <= i < |eps| reads eps => eps[i].ewma)
  }

  ghost predicate DistinctObjects(eps: seq<Endpoint>)
  {
    forall i, j :: 0 <= i < j < |eps| ==> eps[i] != eps[j]
  }

  ghost function Queried(bs: seq<Breaker>, now: int): seq<Breaker>
  {
    seq(|bs|, i requires 0 <= i < |bs| => AfterQuery(bs[i], now))
  }

  method Pick(eps: seq<Endpoint>, now: int, draw: nat) returns (picked: Option<nat>)
    requires DistinctObjects(eps)
    modifies eps
    ensures GoodPick(old(Values(eps)), old(Latencies(eps)), now, draw, picked)
    ensures Values(eps) == Queried(old(Values(eps)), now) && Latencies(eps) == old(Latencies(eps))
  {
    ghost var bs, lats := Values(eps), Latencies(eps);
    var candidates: seq<nat> := [];
    var lat: seq<nat> := [];
    for i := 0 to |eps|
      invariant |lat| == i && forall j :: 0 <= j < |eps| ==> eps[j].ewma == lats[j]
      invariant forall j :: 0 <= j < i ==> lat[j] == lats[j]
      invariant forall j :: 0 <= j < |eps| ==> eps[j].Value() == if j < i then AfterQuery(bs[j], now) else bs[j]
      invariant forall k :: 0 <= k < |candidates| ==> candidates[k] < i && !OpenAt(bs[candidates[k]], now)
      invariant forall k, l :: 0 <= k < l < |candidates| ==> candidates[k] != candidates[l]
      invariant forall j :: 0 <= j < i && !OpenAt(bs[j], now) ==> j in candidates
    {
      QueryReportsOpen(bs[i], now);
      var h := eps[i].State(now);
      if h != Open { candidates := candidates + [i]; }
      lat := lat + [eps[i].ewma];
    }
    assert lat == lats;
    picked := Choose(candidates, bs, lat, now, draw);
  }

  // ---- dialWithRetry ----

  /** One attempt: when it picked, the drawn index and what, how the dial ended, and when a failure was recorded. */
  datatype Attempt = Attempt(now: int, draw: nat, picked: Option<nat>, ok: bool, after: int)

  /** What the world does to the i-th attempt. */
  datatype Fate = Fate(cancelled: bool, now: int, draw: nat, ok: bool, after: int)

  datatype Dial = Connected(endpoint: nat) | Cancelled | GaveUp

  /** The breakers after one attempt. */
  ghost function AfterOne(bs: seq<Breaker>, p: Policy, a: Attempt): (r: seq<Breaker>)
    ensures |r| == |bs|
  {
    var q := Queried(bs, a.now);
    match a.picked
    case Some(k) => if k < |q| && !a.ok then q[k := AfterFailure(q[k], p, a.after)] else q
    case None => q
  }

  /** The breakers after a list of attempts. */
  ghost function Replay(bs: seq<Breaker>, p: Policy, trace: seq<Attempt>): (r: seq<Breaker>)
    ensures |r| == |bs|
  {
    if trace == [] then bs else AfterOne(Replay(bs, p, trace[..|trace| - 1]), p, trace[|trace| - 1])
  }

  /** Every attempt of the trace made a good pick in the state it met. */
  ghost predicate GoodTrace(bs: seq<Breaker>, lat: seq<nat>, p: Policy, trace: seq<Attempt>)
    requires |bs| == |lat|
  {
    forall i :: 0 <= i < |trace| ==> GoodPick(Replay(bs, p, trace[..i]), lat, trace[i].now, trace[i].draw, trace[i].picked)
  }

  function DialCount(trace: seq<Attempt>): nat
  {
    if trace == [] then 0
    else DialCount(trace[..|trace| - 1]) + if trace[|trace| - 1].picked.Some? then 1 else 0
  }

  /** Dials to endpoint k refused since a query last reset its breaker. */
  ghost function RefusedSinceReset(bs: seq<Breaker>, p: Policy, trace: seq<Attempt>, k: nat): nat
    requires k < |bs|
  {
    if trace == [] then 0 else
    var init, last := trace[..|trace| - 1], trace[|trace| - 1];
    (if Resets(Replay(bs, p, init)[k], Query(last.now)) then 0 else RefusedSinceReset(bs, p, init, k))
    + if last.picked == Some(k) && !last.ok then 1 else 0
  }

  function DialEvents(a: Attempt, k: nat): seq<DialEvent>
  {
    if a.picked == Some(k)
    then [DialEvent.Pick(a.now)] + [if a.ok then DialEvent.Connected else Refused(a.after)]
    else [Other(Query(a.now))]
  }

  /** What a trace does to endpoint k, as events of its breaker. */
  ghost function EventsFor(trace: seq<Attempt>, k: nat): seq<DialEvent>
  {
    if trace == [] then [] else EventsFor(trace[..|trace| - 1], k) + DialEvents(trace[|trace| - 1], k)
  }

  /** One attempt, seen by endpoint k. */
  function AfterAttempt(s: Dialled, p: Policy, a: Attempt, k: nat): Dialled
  {
    var b, n := AfterQuery(s.b, a.now), if Resets(s.b, Query(a.now)) then 0 else s.failed;
    if a.picked == Some(k) && !a.ok then Dialled(AfterFailure(b, p, a.after), s.inFlight, n + 1)
    else Dialled(b, s.inFlight, n)
  }

  lemma DialEventsRun(s0: Dialled, p: Policy, es: seq<DialEvent>, a: Attempt, k: nat)
    requires var s := DialRun(s0, p, 1, es);
             s.inFlight == 0 && (a.picked == Some(k) ==> AfterQuery(s.b, a.now).health != Open)
    ensures DialRun(s0, p, 1, es + DialEvents(a, k)) == AfterAttempt(DialRun(s0, p, 1, es), p, a, k)
  {
    hide DialRun, AfterQuery, AfterFailure, Resets;
    if a.picked == Some(k) {
      var pick, end := DialEvent.Pick(a.now), if a.ok then DialEvent.Connected else Refused(a.after);
      DialSnoc(s0, p, 1, es, pick);
      DialSnoc(s0, p, 1, es + [pick], end);
      Assoc(es, [pick], [end]);
    } else {
      DialSnoc(s0, p, 1, es, Other(Query(a.now)));
    }
  }

  lemma ReplayAt(bs: seq<Breaker>, p: Policy, trace: seq<Attempt>, k: nat, s: Dialled)
    requires trace != [] && k < |bs|
    requires var init := trace[..|trace| - 1];
             s == Dialled(Replay(bs, p, init)[k], 0, RefusedSinceReset(bs, p, init, k))
    ensures AfterAttempt(s, p, trace[|trace| - 1], k)
         == Dialled(Replay(bs, p, trace)[k], 0, RefusedSinceReset(bs, p, trace, k))
  {
    hide AfterQuery, AfterFailure, Resets;
  }

  /** The dial loop is a run of the dialling machine of every endpoint, one dial at a time. */
  lemma {:induction false} TraceIsDialled(bs: seq<Breaker>, lat: seq<nat>, p: Policy, trace: seq<Attempt>, k: nat)
    requires |bs| == |lat| && k < |bs| && GoodTrace(bs, lat, p, trace)
    ensures DialRun(Dialled(bs[k], 0, 0), p, 1, EventsFor(trace, k))
         == Dialled(Replay(bs, p, trace)[k], 0, RefusedSinceReset(bs, p, trace, k))
  {
    if trace != [] {
      hide Replay, RefusedSinceReset, DialRun, GoodTrace, AfterAttempt, DialEvents, AfterQuery;
      var init, last, s0 := trace[..|trace| - 1], trace[|trace| - 1], Dialled(bs[k], 0, 0);
      TracePrefix(bs, lat, p, trace);
      TraceIsDialled(bs, lat, p, init, k);
      DialEventsRun(s0, p, EventsFor(init, k), last, k);
      ReplayAt(bs, p, trace, k, DialRun(s0, p, 1, EventsFor(init, k)));
    }
  }

  lemma TracePrefix(bs: seq<Breaker>, lat: seq<nat>, p: Policy, trace: seq<Attempt>)
    requires |bs| == |lat| && GoodTrace(bs, lat, p, trace) && trace != []
    ensures var init, last := trace[..|trace| - 1], trace[|trace| - 1];
            GoodTrace(bs, lat, p, init) && GoodPick(Replay(bs, p, init), lat, last.now, last.draw, last.picked)
  {
    hide GoodPick, Replay;
    var init := trace[..|trace| - 1];
    forall i | 0 <= i < |init| ensures GoodPick(Replay(bs, p, init[..i]), lat, init[i].now, init[i].draw, init[i].picked) {
      assert init[..i] == trace[..i];
    }
  }

  /**
   No endpoint that starts consistent is refused more than `threshold` times between two resets, and
   it stays consistent.
   */
  ghost predicate RefusalsBounded(bs: seq<Breaker>, p: Policy, trace: seq<Attempt>)
  {
    forall k :: 0 <= k < |bs| && p.threshold >= 1 && Consistent(bs[k], p) ==>
      && RefusedSinceReset(bs, p, trace, k) <= p.threshold
      && RefusedSinceReset(bs, p, trace, k) <= Replay(bs, p, trace)[k].failures
      && Consistent(Replay(bs, p, trace)[k], p)
  }

  lemma RefusalsAreBounded(bs: seq<Breaker>, lat: seq<nat>, p: Policy, trace: seq<Attempt>)
    requires |bs| == |lat| && GoodTrace(bs, lat, p, trace)
    ensures RefusalsBounded(bs, p, trace) && DialCount(trace) <= |trace|
  {
    hide Replay, RefusedSinceReset, GoodTrace, EventsFor, DialCount, Consistent;
    DialsAreAttempts(trace);
    forall k | 0 <= k < |bs| && p.threshold >= 1 && Consistent(bs[k], p)
      ensures RefusedSinceReset(bs, p, trace, k) <= p.threshold
      ensures RefusedSinceReset(bs, p, trace, k) <= Replay(bs, p, trace)[k].failures
      ensures Consistent(Replay(bs, p, trace)[k], p)
    {
      TraceIsDialled(bs, lat, p, trace, k);
      DialFailuresAreBounded(bs[k], p, 1, EventsFor(trace, k));
    }
  }

  /** No attempt list dials more often than it is long. */
  lemma {:induction false} DialsAreAttempts(trace: seq<Attempt>)
    ensures DialCount(trace) <= |trace|
  {
    if trace != [] { DialsAreAttempts(trace[..|trace| - 1]); }
  }

  predicate EndsConnected(trace: seq<Attempt>)
  {
    trace != [] && trace[|trace| - 1].picked.Some? && trace[|trace| - 1].ok
  }

  ghost predicate NoneConnected(trace: seq<Attempt>)
  {
    forall i :: 0 <= i < |trace| ==> trace[i].picked.Some? ==> !trace[i].ok
  }

  lemma TraceSnoc(bs: seq<Breaker>, lat: seq<nat>, p: Policy, trace: seq<Attempt>, a: Attempt)
    requires |bs| == |lat| && GoodTrace(bs, lat, p, trace)
    requires GoodPick(Replay(bs, p, trace), lat, a.now, a.draw, a.picked)
    ensures GoodTrace(bs, lat, p, trace + [a])
  {
    var more := trace + [a];
    assert more[..|trace|] == trace;
    forall i | 0 <= i < |more|
      ensures GoodPick(Replay(bs, p, more[..i]), lat, more[i].now, more[i].draw, more[i].picked)
    {
      assert more[..i] == trace[..i];
    }
  }

  lemma ReplaySnoc(bs: seq<Breaker>, p: Policy, trace: seq<Attempt>, a: Attempt)
    ensures Replay(bs, p, trace + [a]) == AfterOne(Replay(bs, p, trace), p, a)
  {
    assert (trace + [a])[..|trace|] == trace;
  }

  function AttemptOf(f: Fate, picked: Option<nat>): Attempt { Attempt(f.now, f.draw, picked, f.ok, f.after) }

  /** One turn of the loop: pick, dial, and record a refusal. */
  method DialOnce(eps: seq<Endpoint>, p: Policy, f: Fate) returns (picked: Option<nat>)
    requires DistinctObjects(eps)
    modifies eps
    ensures GoodPick(old(Values(eps)), old(Latencies(eps)), f.now, f.draw, picked)
    ensures Values(eps) == AfterOne(old(Values(eps)), p, AttemptOf(f, picked))
    ensures Latencies(eps) == old(Latencies(eps))
  {
    hide Queried, GoodPick, Values, Latencies, AfterFailure;
    ghost var bs, lats := Values(eps), Latencies(eps);
    Sizes(eps);
    picked := Pick(eps, f.now, f.draw);
    if picked.Some? {
      PickedIsAmongBestThree(bs, lats, f.now, f.draw, picked.value);
      Sizes(eps);
      if !f.ok { RefuseAt(eps, picked.value, p, f.after); }
    }
  }

  lemma ConnectedSnoc(trace: seq<Attempt>, a: Attempt)
    requires NoneConnected(trace)
    ensures EndsConnected(trace + [a]) <==> a.picked.Some? && a.ok
    ensures !EndsConnected(trace + [a]) ==> NoneConnected(trace + [a])
  {
  }

  lemma EmptyTrace(bs: seq<Breaker>, lat: seq<nat>, p: Policy)
    requires |bs| == |lat|
    ensures GoodTrace(bs, lat, p, []) && Replay(bs, p, []) == bs && NoneConnected([])
  {
  }

  method DialWithRetry(eps: seq<Endpoint>, p: Policy, retryLimit: int, fate: nat -> Fate)
    returns (outcome: Dial, ghost trace: seq<Attempt>)
    requires DistinctObjects(eps)
    modifies eps
    ensures |trace| <= if retryLimit + 1 < 1 then 1 else retryLimit + 1
    ensures GoodTrace(old(Values(eps)), old(Latencies(eps)), p, trace)
    ensures DialCount(trace) <= |trace| && RefusalsBounded(old(Values(eps)), p, trace)
    ensures Values(eps) == Replay(old(Values(eps)), p, trace) && Latencies(eps) == old(Latencies(eps))
    ensures outcome.Connected? ==>
              EndsConnected(trace) && trace[|trace| - 1].picked == Some(outcome.endpoint)
              && NoneConnected(trace[..|trace| - 1])
    ensures !outcome.Connected? ==> NoneConnected(trace)
    ensures outcome.GaveUp? ==> |trace| == if retryLimit + 1 < 1 then 1 else retryLimit + 1
  {
    hide Replay, AfterOne, GoodPick, GoodTrace, Values, Latencies, DialCount, RefusalsBounded, DistinctObjects,
         NoneConnected, EndsConnected;
    var maxAttempts := retryLimit + 1;
    if maxAttempts < 1 { maxAttempts := 1; }
    trace := [];
    ghost var bs, lats := Values(eps), Latencies(eps);
    Sizes(eps);
    EmptyTrace(bs, lats, p);
    for attempt := 0 to maxAttempts
      invariant |trace| == attempt && NoneConnected(trace)
      invariant GoodTrace(bs, lats, p, trace)
      invariant Values(eps) == Replay(bs, p, trace) && Latencies(eps) == lats
    {
      var f := fate(attempt);
      if attempt > 0 && f.cancelled { RefusalsAreBounded(bs, lats, p, trace); return Cancelled, trace; }
      ghost var before := trace;
      var picked := DialOnce(eps, p, f);
      ghost var a := AttemptOf(f, picked);
      TraceSnoc(bs, lats, p, before, a);
      ReplaySnoc(bs, p, before, a);
      ConnectedSnoc(before, a);
      trace := before + [a];
      assert trace[..|trace| - 1] == before;
      if picked.Some? && f.ok { RefusalsAreBounded(bs, lats, p, trace); return Dial.Connected(picked.value), trace; }
    }
    RefusalsAreBounded(bs, lats, p, trace);
    outcome := GaveUp;
  }

  lemma Sizes(eps: seq<Endpoint>)
    ensures |Values(eps)| == |eps| == |Latencies(eps)|
  {
  }

  method RefuseAt(eps: seq<Endpoint>, k: nat, p: Policy, now: int)
    requires DistinctObjects(eps) && k < |eps|
    modifies eps
    ensures |old(Values(eps))| == |eps|
    ensures Values(eps) == old(Values(eps))[k := AfterFailure(old(Values(eps))[k], p, now)]
    ensures Latencies(eps) == old(Latencies(eps))
  {
    var tripped := eps[k].RecordFailure(p, now);
    assert forall j :: 0 <= j < |eps| && j != k ==> eps[j].Value() == old(eps[j].Value());
    assert forall j :: 0 <= j < |eps| ==> eps[j].ewma == old(eps[j].ewma);
  }
}
