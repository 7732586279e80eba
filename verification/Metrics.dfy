/**
 internal/metrics/collector.go: the ring of recent latencies with its percentiles, and the ledger of
 active connections that internal/proxy/handler.go and the accept loop keep through it.
 */
module Metrics {
  import opened Sorting

  const SIZE := 1024

  // ---- order statistics ----

  function CountBelow(s: seq<int>, v: int): nat
  {
    if s == [] then 0 else CountBelow(s[1..], v) + if s[0] < v then 1 else 0
  }

  /** v is the k-th smallest of the samples (from 0): at most k are below it and more than k up to it. */
  ghost predicate IsOrderStatistic(samples: seq<int>, k: nat, v: int)
  {
    v in samples && CountBelow(samples, v) <= k < CountBelow(samples, v + 1)
  }

  /** The less function given to sort.Slice. */
  predicate Below(a: int, b: int) { a < b }

  lemma {:induction false} CountAppend(a: seq<int>, b: seq<int>, v: int)
    ensures CountBelow(a + b, v) == CountBelow(a, v) + CountBelow(b, v)
  {
    if a == [] {
      assert a + b == b;
    } else {
      CountAppend(a[1..], b, v);
      assert (a + b)[1..] == a[1..] + b;
    }
  }

  /** Counting does not depend on the order. */
  lemma {:induction false} CountPermuted(a: seq<int>, b: seq<int>, v: int)
    requires multiset(a) == multiset(b)
    ensures CountBelow(a, v) == CountBelow(b, v)
  {
    if a == [] {
      assert |b| == |multiset(b)| == |multiset(a)| == 0;
    } else {
      var x := a[0];
      assert a == [x] + a[1..];
      assert x in multiset(b);
      var j :| 0 <= j < |b| && b[j] == x;
      var rest := TakenOut(b, j);
      assert multiset(a[1..]) == multiset(a) - multiset{x};
      CountPermuted(a[1..], rest, v);
      CountTakenOut(b, j, v);
    }
  }

  function TakenOut(b: seq<int>, j: nat): (rest: seq<int>)
    requires j < |b|
    ensures multiset(rest) == multiset(b) - multiset{b[j]}
  {
    assert b == b[..j] + ([b[j]] + b[j + 1..]);
    b[..j] + b[j + 1..]
  }

  lemma CountTakenOut(b: seq<int>, j: nat, v: int)
    requires j < |b|
    ensures CountBelow(b, v) == CountBelow(TakenOut(b, j), v) + if b[j] < v then 1 else 0
  {
    var tail := [b[j]] + b[j + 1..];
    assert b == b[..j] + tail && tail[1..] == b[j + 1..];
    CountAppend(b[..j], b[j + 1..], v);
    CountAppend(b[..j], tail, v);
  }

  lemma {:induction false} CountOfSmall(s: seq<int>, v: int)
    requires forall i :: 0 <= i < |s| ==> s[i] < v
    ensures CountBelow(s, v) == |s|
  {
    if s != [] { CountOfSmall(s[1..], v); }
  }

  lemma {:induction false} CountOfLarge(s: seq<int>, v: int)
    requires forall i :: 0 <= i < |s| ==> s[i] >= v
    ensures CountBelow(s, v) == 0
  {
    if s != [] { CountOfLarge(s[1..], v); }
  }

  lemma {:induction false} CountAtMostLength(s: seq<int>, v: int)
    ensures CountBelow(s, v) <= |s|
  {
    if s != [] { CountAtMostLength(s[1..], v); }
  }

  lemma SortedCounts(sorted: seq<int>, k: nat)
    requires Sorted(sorted, Below) && k < |sorted|
    ensures CountBelow(sorted, sorted[k]) <= k < CountBelow(sorted, sorted[k] + 1)
  {
    hide CountBelow;
    var v := sorted[k];
    SplitCounts(sorted, k, v);
    SplitCounts(sorted, k + 1, v + 1);
    CountOfLarge(sorted[k..], v);
    CountAtMostLength(sorted[..k], v);
    CountOfSmall(sorted[..k + 1], v + 1);
  }

  lemma SplitCounts(s: seq<int>, k: nat, v: int)
    requires k <= |s|
    ensures CountBelow(s, v) == CountBelow(s[..k], v) + CountBelow(s[k..], v)
  {
    hide CountBelow;
    assert s == s[..k] + s[k..];
    CountAppend(s[..k], s[k..], v);
  }

  /** In a sorted permutation of the samples, index k holds the k-th order statistic. */
  lemma SortedGivesStatistic(sorted: seq<int>, samples: seq<int>, k: nat)
    requires Sorted(sorted, Below) && multiset(sorted) == multiset(samples) && k < |sorted|
    ensures IsOrderStatistic(samples, k, sorted[k])
  {
    hide CountBelow, Sorted;
    var v := sorted[k];
    assert v in multiset(sorted);
    SortedCounts(sorted, k);
    CountPermuted(sorted, samples, v);
    CountPermuted(sorted, samples, v + 1);
  }

  lemma InOrder(sorted: seq<int>, i: nat, j: nat)
    requires Sorted(sorted, Below) && i <= j < |sorted|
    ensures sorted[i] <= sorted[j]
  {
  }

  // ---- the ring ----

  /** The samples a window of 1024 still knows. */
  function Last(history: seq<int>): seq<int>
  {
    if |history| <= SIZE then history else history[|history| - SIZE..]
  }

  lemma EmptyLast(history: seq<int>)
    ensures |Last(history)| == if |history| < SIZE then |history| else SIZE
  {
  }

  class LatencyWindow {
    const samples: array<int>
    var pos: nat
    var full: bool
    ghost var history: seq<int>   // every sample ever recorded

    ghost predicate Valid()
      reads this, samples
    {
      && samples.Length == SIZE && pos < SIZE
      && (full <==> |history| >= SIZE)
      && (if full then samples[pos..] + samples[..pos] == Last(history)
          else pos == |history| && samples[..pos] == history)
    }

    constructor ()
      ensures Valid() && history == [] && fresh(samples)
    {
      samples := new int[SIZE](_ => 0);
      pos, full, history := 0, false, [];
    }

    method Record(ms: int)
      requires Valid()
      modifies this`pos, this`full, this`history, samples
      ensures Valid() && history == old(history) + [ms]
    {
      ghost var before := samples[..];
      samples[pos] := ms;
      ghost var at := pos;
      assert samples[..at] == before[..at] && samples[at + 1..] == before[at + 1..];
      pos := (pos + 1) % SIZE;
      if pos == 0 { full := true; }
      history := history + [ms];
      assert samples[..at + 1] == before[..at] + [ms];
      RingStep(before, at, old(full), old(history), ms, samples[..]);
      assert samples[pos..] == samples[..][pos..] && samples[..pos] == samples[..][..pos];
    }

    /** Percentile indices truncate: for n up to 1024 the float products equal these integer quotients. */
    method Percentiles() returns (p50: int, p95: int, p99: int)
      requires Valid()
      ensures history == [] ==> p50 == p95 == p99 == 0
      ensures history != [] ==>
                var n := |Last(history)|;
                && n == (if |history| < 1024 then |history| else 1024)
                && IsOrderStatistic(Last(history), n / 2, p50)
                && IsOrderStatistic(Last(history), 95 * n / 100, p95)
                && IsOrderStatistic(Last(history), 99 * n / 100, p99)
                && p50 <= p95 <= p99
    {
      hide IsOrderStatistic, Last, Sorted;
      EmptyLast(history);
      var n := SIZE;
      if !full { n := pos; }
      if n == 0 { return 0, 0, 0; }
      var tmp := samples[..n];
      assert multiset(tmp) == multiset(Last(history)) && n == |Last(history)| by { RingContents(); }
      var sorted := InsertionSort(tmp, Below);
      assert |sorted| == |multiset(sorted)| == n;
      var i50, i95, i99 := n / 2, 95 * n / 100, 99 * n / 100;
      assert i50 <= i95 <= i99 < n;
      SortedGivesStatistic(sorted, Last(history), i50);
      SortedGivesStatistic(sorted, Last(history), i95);
      SortedGivesStatistic(sorted, Last(history), i99);
      InOrder(sorted, i50, i95);
      InOrder(sorted, i95, i99);
      p50, p95 := sorted[i50], sorted[i95];
      p99 := sorted[if i99 < n - 1 then i99 else n - 1];
    }

    /** The ring holds exactly the multiset of the last min(N, 1024) samples. */
    lemma RingContents()
      requires Valid()
      ensures var n := if full then SIZE else pos;
              n == |Last(history)| && multiset(samples[..n]) == multiset(Last(history))
      ensures Last(history) == if |history| <= 1024 then history else history[|history| - 1024..]
    {
      if full {
        assert samples[..SIZE] == samples[..pos] + samples[pos..];
      }
    }
  }

  /** One record, seen on the ring's contents. */
  lemma RingStep(ring: seq<int>, at: nat, full: bool, history: seq<int>, ms: int, ring': seq<int>)
    requires |ring| == SIZE && at < SIZE && ring' == ring[at := ms]
    requires full <==> |history| >= SIZE
    requires if full then ring[at..] + ring[..at] == Last(history) else at == |history| && ring[..at] == history
    ensures var pos := (at + 1) % SIZE; var full' := full || pos == 0; var h := history + [ms];
            && (full' <==> |h| >= SIZE)
            && (if full' then ring'[pos..] + ring'[..pos] == Last(h) else pos == |h| && ring'[..pos] == h)
  {
    var h := history + [ms];
    if full {
      var w := ring[at..] + ring[..at];
      assert Last(h) == Last(history)[1..] + [ms];
      assert w[1..] == ring[at + 1..] + ring[..at];
      if at + 1 < SIZE {
        assert ring'[at + 1..] + ring'[..at + 1] == ring[at + 1..] + (ring[..at] + [ms]);
      } else {
        assert ring'[0..] + ring'[..0] == ring[..at] + [ms];
      }
    } else {
      assert ring'[..at + 1] == history + [ms];
      if at + 1 == SIZE { assert ring'[0..] + ring'[..0] == ring'[..at + 1]; }
    }
  }

  // ---- the connection ledger ----

  class Collector {
    var activeConns: int
    var totalConns: nat
    var failedConns: nat

    constructor ()
      ensures activeConns == 0 && totalConns == 0 && failedConns == 0
    {
      activeConns, totalConns, failedConns := 0, 0, 0;
    }

    method ConnOpened()
      modifies this
      ensures activeConns == old(activeConns) + 1 && totalConns == old(totalConns) + 1
      ensures failedConns == old(failedConns)
    {
      activeConns := activeConns + 1;
      totalConns := totalConns + 1;
    }

    method ConnClosed()
      modifies this`activeConns
      ensures activeConns == old(activeConns) - 1
    {
      activeConns := activeConns - 1;
    }

    method ConnFailed()
      modifies this`activeConns, this`failedConns
      ensures activeConns == old(activeConns) - 1 && failedConns == old(failedConns) + 1
    {
      failedConns := failedConns + 1;
      activeConns := activeConns - 1;
    }

    /** A handler from its first counter to its deferred last one. */
    method Handle(dialled: bool)
      modifies this
      ensures totalConns == old(totalConns) + 1
      ensures failedConns == old(failedConns) + if dialled then 0 else 1
      ensures activeConns == old(activeConns) - if dialled then 0 else 1
    {
      ConnOpened();
      if !dialled { ConnFailed(); }
      ConnClosed();
    }
  }

  /**
   The two counters and the handlers really there: `pending` are accepted but not yet counted,
   `inFlight` counted and not yet closed. Of these, `failing` stand between the two counter updates
   of ConnFailed and `doomed` are past them.
   */
  datatype Ledger = Ledger(active: int, failed: nat, pending: nat, inFlight: nat, failing: nat, doomed: nat)

  const EMPTY := Ledger(0, 0, 0, 0, 0, 0)

  datatype Event = Accept | Opened | Failing | Failed | Closed(doomed: bool)

  /**
   The accept loop goes on while the counter is below a positive `limit`; at most `m` accepted
   handlers wait for their first step at once.
   */
  predicate Enabled(limit: int, m: nat, l: Ledger, e: Event)
  {
    match e
    case Accept => (limit > 0 ==> l.active < limit) && l.pending < m
    case Opened => l.pending > 0
    case Failing => l.inFlight > l.failing + l.doomed
    case Failed => l.failing > 0
    case Closed(doomed) => if doomed then l.doomed > 0 && l.inFlight > 0 else l.inFlight > l.failing + l.doomed
  }

  function Step(limit: int, m: nat, l: Ledger, e: Event): Ledger
    requires Enabled(limit, m, l, e)
  {
    match e
    case Accept => l.(pending := l.pending + 1)
    case Opened => l.(pending := l.pending - 1, active := l.active + 1, inFlight := l.inFlight + 1)
    case Failing => l.(failed := l.failed + 1, failing := l.failing + 1)
    case Failed => l.(active := l.active - 1, failing := l.failing - 1, doomed := l.doomed + 1)
    case Closed(doomed) =>
      l.(active := l.active - 1, inFlight := l.inFlight - 1, doomed := if doomed then l.doomed - 1 else l.doomed)
  }

  /** A run; disabled events are skipped. */
  function Run(limit: int, m: nat, es: seq<Event>): Ledger
  {
    if es == [] then EMPTY else
    var l, e := Run(limit, m, es[..|es| - 1]), es[|es| - 1];
    if Enabled(limit, m, l, e) then Step(limit, m, l, e) else l
  }

  /**
   Failing connections are subtracted twice, so between their updates the counter is right exactly
   while none has failed. And the accept loop reads it before the handler counts itself: with m of
   them waiting, limit + failed + m - 1 handlers can be there, never more.
   */
  lemma {:induction false} ActiveIsShortByFailures(limit: int, m: nat, es: seq<Event>)
    requires m >= 1
    ensures var l := Run(limit, m, es);
            && l.active == l.inFlight - l.failed + l.failing
            && (l.failing == 0 ==> (l.active == l.inFlight <==> l.failed == 0))
            && l.pending <= m && l.failing + l.doomed <= l.inFlight && l.failing <= l.failed
            && (limit > 0 ==> l.inFlight + l.pending <= limit + l.failed + m - 1)
  {
    if es != [] { ActiveIsShortByFailures(limit, m, es[..|es| - 1]); }
  }

  /** Two accepts before either handler starts: two run under a limit of one, and none has failed. */
  lemma LimitIsExceeded()
    ensures Run(1, 2, [Accept, Accept, Opened, Opened]) == Ledger(2, 0, 0, 2, 0, 0)
  {
    hide Run;
    EmptyRun(1, 2);
    var es := RunNext(1, 2, [], Accept);
    assert Run(1, 2, es) == Ledger(0, 0, 1, 0, 0, 0);
    es := RunNext(1, 2, es, Accept);
    assert Run(1, 2, es) == Ledger(0, 0, 2, 0, 0, 0);
    es := RunNext(1, 2, es, Opened);
    assert Run(1, 2, es) == Ledger(1, 0, 1, 1, 0, 0);
    es := RunNext(1, 2, es, Opened);
    assert es == [Accept, Accept, Opened, Opened];
  }

  /** The bound is reached for every limit, every number of waiting handlers and of failures. */
  lemma BoundIsReached(limit: nat, m: nat, f: nat) returns (es: seq<Event>)
    requires limit >= 1 && m >= 1
    ensures var l := Run(limit, m, es);
            l.failed == f && l.pending == 0 && l.inFlight == limit + f + m - 1
  {
    es := AllOpen(limit, m, f, m);
  }

  lemma FailTimes(limit: nat, m: nat, f: nat) returns (es: seq<Event>)
    requires limit >= 1 && m >= 1
    ensures Run(limit, m, es) == Ledger(0 - f, f, 0, 0, 0, 0)
  {
    hide Run;
    if f == 0 {
      EmptyRun(limit, m);
      es := [];
    } else {
      es := FailTimes(limit, m, f - 1);
      es := RunNext(limit, m, es, Accept);
      es := RunNext(limit, m, es, Opened);
      es := RunNext(limit, m, es, Failing);
      es := RunNext(limit, m, es, Failed);
      es := RunNext(limit, m, es, Closed(true));
    }
  }

  lemma OpenTimes(limit: nat, m: nat, f: nat, k: nat) returns (es: seq<Event>)
    requires limit >= 1 && m >= 1 && k < limit + f
    ensures Run(limit, m, es) == Ledger(k - f, f, 0, k, 0, 0)
    decreases k
  {
    hide Run;
    if k == 0 {
      es := FailTimes(limit, m, f);
    } else {
      es := OpenTimes(limit, m, f, k - 1);
      es := RunNext(limit, m, es, Accept);
      es := RunNext(limit, m, es, Opened);
    }
  }

  lemma AcceptTimes(limit: nat, m: nat, f: nat, k: nat) returns (es: seq<Event>)
    requires limit >= 1 && m >= 1 && k <= m
    ensures Run(limit, m, es) == Ledger(limit - 1, f, k, limit + f - 1, 0, 0)
    decreases k
  {
    hide Run;
    if k == 0 {
      es := OpenTimes(limit, m, f, limit + f - 1);
    } else {
      es := AcceptTimes(limit, m, f, k - 1);
      es := RunNext(limit, m, es, Accept);
    }
  }

  lemma AllOpen(limit: nat, m: nat, f: nat, k: nat) returns (es: seq<Event>)
    requires limit >= 1 && m >= 1 && k <= m
    ensures Run(limit, m, es) == Ledger(limit - 1 + k, f, m - k, limit + f - 1 + k, 0, 0)
    decreases k
  {
    hide Run;
    if k == 0 {
      es := AcceptTimes(limit, m, f, m);
    } else {
      es := AllOpen(limit, m, f, k - 1);
      es := RunNext(limit, m, es, Opened);
    }
  }

  lemma EmptyRun(limit: int, m: nat)
    ensures Run(limit, m, []) == EMPTY
  {
  }

  lemma RunSnoc(limit: int, m: nat, es: seq<Event>, e: Event)
    ensures var l := Run(limit, m, es);
            Run(limit, m, es + [e]) == if Enabled(limit, m, l, e) then Step(limit, m, l, e) else l
  {
    assert (es + [e])[..|es|] == es;
  }

  lemma RunNext(limit: int, m: nat, es: seq<Event>, e: Event) returns (more: seq<Event>)
    requires Enabled(limit, m, Run(limit, m, es), e)
    ensures more == es + [e] && Run(limit, m, more) == Step(limit, m, Run(limit, m, es), e)
  {
    more := es + [e];
    RunSnoc(limit, m, es, e);
  }
}
