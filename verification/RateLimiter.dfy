/**
 internal/proxy/server.go: the per-address sliding-window limiter. Its buckets forget, by in-place
 compaction and by deletion; the reference limiter keeps every grant. Times are in nanoseconds.
 */
module RateLimiter {
  const SECOND := 1_000_000_000
  const STALE := 120_000_000_000

  datatype Bucket = Bucket(timestamps: seq<int>, lastSeen: int)

  type Buckets = map<string, Bucket>

  /** The times from `cutoff` on, in order. */
  function Recent(times: seq<int>, cutoff: int): seq<int>
  {
    if times == [] then [] else
    var init, last := times[..|times| - 1], times[|times| - 1];
    Recent(init, cutoff) + if last >= cutoff then [last] else []
  }

  lemma NothingRecent(cutoff: int)
    ensures Recent([], cutoff) == []
  {
  }

  lemma RecentStep(times: seq<int>, i: nat, cutoff: int)
    requires i < |times|
    ensures Recent(times[..i + 1], cutoff) == Recent(times[..i], cutoff) + if times[i] >= cutoff then [times[i]] else []
  {
    assert times[..i + 1][..i] == times[..i];
  }

  function Timestamps(buckets: Buckets, ip: string): seq<int>
  {
    if ip in buckets then buckets[ip].timestamps else []
  }

  function Admits(buckets: Buckets, limit: nat, ip: string, now: int): bool
  {
    |Recent(Timestamps(buckets, ip), now - SECOND)| < limit
  }

  function AfterAllow(buckets: Buckets, limit: nat, ip: string, now: int): Buckets
  {
    var kept := Recent(Timestamps(buckets, ip), now - SECOND);
    buckets[ip := Bucket(if |kept| < limit then kept + [now] else kept, now)]
  }

  function AfterCleanup(buckets: Buckets, now: int): Buckets
  {
    map ip | ip in buckets && buckets[ip].lastSeen >= now - STALE :: buckets[ip]
  }

  class Limiter {
    const limit: nat
    var buckets: Buckets

    constructor (limit: nat)
      ensures this.limit == limit && buckets == map[]
    {
      this.limit := limit;
      buckets := map[];
    }

    /** Compaction: index j trails the reading index, so no kept time is overwritten before it is read. */
    static method Compact(times: seq<int>, cutoff: int) returns (kept: seq<int>)
      ensures kept == Recent(times, cutoff)
    {
      hide Recent;
      var timestamps := times;
      var j := 0;
      NothingRecent(cutoff);
      for i := 0 to |times|
        invariant |timestamps| == |times| && 0 <= j <= i
        invariant timestamps[..j] == Recent(times[..i], cutoff)
        invariant timestamps[i..] == times[i..]
      {
        var t := timestamps[i];
        assert t == timestamps[i..][0] == times[i];
        RecentStep(times, i, cutoff);
        ghost var before := timestamps;
        if t >= cutoff {
          timestamps := timestamps[j := t];
          assert timestamps[..j + 1] == before[..j] + [t];
          j := j + 1;
        }
        assert timestamps[i + 1..] == before[i..][1..] == times[i + 1..];
      }
      assert times[..|times|] == times;
      kept := timestamps[..j];
    }

    method Allow(ip: string, now: int) returns (ok: bool)
      modifies this`buckets
      ensures ok == Admits(old(buckets), limit, ip, now)
      ensures buckets == AfterAllow(old(buckets), limit, ip, now)
    {
      if ip !in buckets { buckets := buckets[ip := Bucket([], 0)]; }
      var kept := Compact(buckets[ip].timestamps, now - SECOND);
      if |kept| >= limit {
        buckets := buckets[ip := Bucket(kept, now)];
        return false;
      }
      buckets := buckets[ip := Bucket(kept + [now], now)];
      return true;
    }

    method Cleanup(now: int)
      modifies this`buckets
      ensures buckets == AfterCleanup(old(buckets), now)
      ensures forall ip :: ip in buckets <==> ip in old(buckets) && old(buckets)[ip].lastSeen >= now - 120_000_000_000
    {
      var cutoff := now - STALE;
      var todo := buckets.Keys;
      while todo != {}
        invariant todo <= buckets.Keys <= old(buckets).Keys
        invariant forall ip :: ip in buckets ==> buckets[ip] == old(buckets)[ip]
        invariant forall ip :: ip in old(buckets) && ip !in todo ==>
                    (ip in buckets <==> old(buckets)[ip].lastSeen >= cutoff)
        decreases todo
      {
        var ip :| ip in todo;
        var stale := buckets[ip].lastSeen < cutoff;
        if stale { buckets := buckets - {ip}; }
        todo := todo - {ip};
      }
    }
  }

  // ---- runs ----

  datatype Op = Allow(ip: string, now: int) | Cleanup(now: int)

  datatype Grant = Grant(ip: string, time: int)

  /** The buckets after a run, and every grant it made. */
  datatype State = State(buckets: Buckets, log: seq<Grant>)

  function Step(limit: nat, s: State, op: Op): State
  {
    match op
    case Allow(ip, now) =>
      State(AfterAllow(s.buckets, limit, ip, now),
            if Admits(s.buckets, limit, ip, now) then s.log + [Grant(ip, now)] else s.log)
    case Cleanup(now) => State(AfterCleanup(s.buckets, now), s.log)
  }

  function Run(limit: nat, ops: seq<Op>): State
  {
    if ops == [] then State(map[], []) else Step(limit, Run(limit, ops[..|ops| - 1]), ops[|ops| - 1])
  }

  /** All times granted to an address. */
  function TimesOf(log: seq<Grant>, ip: string): seq<int>
  {
    if log == [] then [] else
    var last := log[|log| - 1];
    TimesOf(log[..|log| - 1], ip) + if last.ip == ip then [last.time] else []
  }

  /** The reference limiter decides on the full history of grants. */
  function ReferenceAdmits(limit: nat, log: seq<Grant>, ip: string, now: int): bool
  {
    |Recent(TimesOf(log, ip), now - SECOND)| < limit
  }

  function ReferenceLog(limit: nat, ops: seq<Op>): seq<Grant>
  {
    if ops == [] then [] else
    var log := ReferenceLog(limit, ops[..|ops| - 1]);
    match ops[|ops| - 1]
    case Allow(ip, now) => if ReferenceAdmits(limit, log, ip, now) then log + [Grant(ip, now)] else log
    case Cleanup(_) => log
  }

  ghost predicate ClockAdvances(ops: seq<Op>)
  {
    forall i, j :: 0 <= i <= j < |ops| ==> ops[i].now <= ops[j].now
  }

  ghost predicate AllBefore(times: seq<int>, t: int) { forall i :: 0 <= i < |times| ==> times[i] < t }

  ghost predicate AllUpTo(times: seq<int>, t: int) { forall i :: 0 <= i < |times| ==> times[i] <= t }

  /** What a bucket, or its absence, remembers of the grants of one address. */
  ghost predicate Remembers(s: State, ip: string, clock: int)
  {
    var times := TimesOf(s.log, ip);
    if ip in s.buckets then
      var b := s.buckets[ip];
      b.lastSeen <= clock && AllUpTo(times, b.lastSeen) && b.timestamps == Recent(times, b.lastSeen - SECOND)
    else
      AllBefore(times, clock - SECOND)
  }

  ghost predicate Invariant(s: State, clock: int)
  {
    forall ip :: Remembers(s, ip, clock)
  }

  lemma {:induction false} RecentTwice(times: seq<int>, early: int, late: int)
    requires early <= late
    ensures Recent(Recent(times, early), late) == Recent(times, late)
  {
    if times != [] {
      var init, last := times[..|times| - 1], times[|times| - 1];
      RecentTwice(init, early, late);
      if last >= early {
        var r := Recent(init, early) + [last];
        assert r[..|r| - 1] == Recent(init, early);
      } else {
        assert Recent(init, early) + [] == Recent(init, early);
      }
    }
  }

  lemma {:induction false} NoneRecent(times: seq<int>, cutoff: int)
    requires AllBefore(times, cutoff)
    ensures Recent(times, cutoff) == []
  {
    if times != [] { NoneRecent(times[..|times| - 1], cutoff); }
  }

  lemma RecentOfOneMore(times: seq<int>, t: int, cutoff: int)
    ensures Recent(times + [t], cutoff) == Recent(times, cutoff) + if t >= cutoff then [t] else []
  {
    assert (times + [t])[..|times|] == times;
  }

  lemma TimesSnoc(log: seq<Grant>, g: Grant, ip: string)
    ensures TimesOf(log + [g], ip) == if g.ip == ip then TimesOf(log, ip) + [g.time] else TimesOf(log, ip)
  {
    assert (log + [g])[..|log|] == log;
  }

  /** The forgetful bucket still holds every grant the window can see. */
  lemma BucketSeesWindow(s: State, ip: string, clock: int, now: int)
    requires Remembers(s, ip, clock) && clock <= now
    ensures Recent(Timestamps(s.buckets, ip), now - SECOND) == Recent(TimesOf(s.log, ip), now - SECOND)
  {
    var times := TimesOf(s.log, ip);
    if ip in s.buckets {
      RecentTwice(times, s.buckets[ip].lastSeen - SECOND, now - SECOND);
    } else {
      NoneRecent(times, now - SECOND);
    }
  }

  lemma AllowRemembers(limit: nat, s: State, ip: string, now: int, clock: int)
    requires Remembers(s, ip, clock) && clock <= now
    ensures Remembers(Step(limit, s, Allow(ip, now)), ip, now)
  {
    hide Recent, TimesOf;
    var times := TimesOf(s.log, ip);
    BucketSeesWindow(s, ip, clock, now);
    assert AllUpTo(times, now);
    if Admits(s.buckets, limit, ip, now) {
      TimesSnoc(s.log, Grant(ip, now), ip);
      RecentOfOneMore(times, now, now - SECOND);
    }
  }

  lemma OthersRemember(limit: nat, s: State, op: Op, ip: string, clock: int)
    requires Remembers(s, ip, clock) && clock <= op.now && (op.Allow? ==> op.ip != ip)
    ensures Remembers(Step(limit, s, op), ip, op.now)
  {
    hide Recent, TimesOf;
    if op.Allow? { TimesSnoc(s.log, Grant(op.ip, op.now), ip); }
  }

  lemma StepKeepsInvariant(limit: nat, s: State, op: Op, clock: int)
    requires Invariant(s, clock) && clock <= op.now
    ensures Invariant(Step(limit, s, op), op.now)
  {
    hide Step, Remembers;
    forall ip ensures Remembers(Step(limit, s, op), ip, op.now) {
      if op.Allow? && op.ip == ip {
        AllowRemembers(limit, s, ip, op.now, clock);
      } else {
        OthersRemember(limit, s, op, ip, clock);
      }
    }
  }

  lemma {:induction false} RunKeepsInvariant(limit: nat, ops: seq<Op>, clock: int)
    requires ClockAdvances(ops) && (ops != [] ==> ops[|ops| - 1].now <= clock)
    ensures Invariant(Run(limit, ops), clock)
  {
    if ops == [] {
      forall ip ensures Remembers(Run(limit, []), ip, clock) {}
    } else {
      var init, last := ops[..|ops| - 1], ops[|ops| - 1];
      RunKeepsInvariant(limit, init, last.now);
      StepKeepsInvariant(limit, Run(limit, init), last, last.now);
      InvariantAges(Run(limit, ops), last.now, clock);
    }
  }

  lemma InvariantAges(s: State, clock: int, later: int)
    requires Invariant(s, clock) && clock <= later
    ensures Invariant(s, later)
  {
    forall ip ensures Remembers(s, ip, later) { assert Remembers(s, ip, clock); }
  }

  /** Over every run with an advancing clock the limiter grants exactly what the reference grants. */
  lemma {:induction false} LimiterIsReference(limit: nat, ops: seq<Op>)
    requires ClockAdvances(ops)
    ensures Run(limit, ops).log == ReferenceLog(limit, ops)
  {
    if ops != [] {
      var init, last := ops[..|ops| - 1], ops[|ops| - 1];
      LimiterIsReference(limit, init);
      if last.Allow? { NextDecision(limit, init, last.ip, last.now); }
    }
  }

  /** After any run, a request is admitted iff its address has fewer than `limit` grants in the last second. */
  lemma NextDecision(limit: nat, ops: seq<Op>, ip: string, now: int)
    requires ClockAdvances(ops) && (ops != [] ==> ops[|ops| - 1].now <= now)
    ensures Admits(Run(limit, ops).buckets, limit, ip, now)
            <==> ReferenceAdmits(limit, Run(limit, ops).log, ip, now)
    ensures Admits(Run(limit, ops).buckets, limit, ip, now)
            <==> |GrantedSince(Run(limit, ops).log, ip, now - 1_000_000_000)| < limit
  {
    RunKeepsInvariant(limit, ops, now);
    var s := Run(limit, ops);
    assert Remembers(s, ip, now);
    BucketSeesWindow(s, ip, now, now);
    RecentCounts(s.log, ip, now - SECOND);
  }

  /** The grants of an address from a time on, as positions in the log. */
  ghost function GrantedSince(log: seq<Grant>, ip: string, from: int): set<nat>
  {
    set i | 0 <= i < |log| && log[i].ip == ip && from <= log[i].time
  }

  ghost function GrantedWithin(log: seq<Grant>, ip: string, from: int, to: int): set<nat>
  {
    set i | 0 <= i < |log| && log[i].ip == ip && from <= log[i].time <= to
  }

  lemma {:induction false} RecentCounts(log: seq<Grant>, ip: string, from: int)
    ensures |Recent(TimesOf(log, ip), from)| == |GrantedSince(log, ip, from)|
  {
    if log == [] {
      assert GrantedSince(log, ip, from) == {};
    } else {
      hide Recent;
      var init, last := log[..|log| - 1], log[|log| - 1];
      RecentCounts(init, ip, from);
      var before, times := GrantedSince(init, ip, from), TimesOf(init, ip);
      assert GrantedSince(log, ip, from) == before + if last.ip == ip && from <= last.time then {|log| - 1} else {};
      assert times + [] == times;
      if last.ip == ip { RecentOfOneMore(times, last.time, from); }
    }
  }

  // ---- the rate bound ----

  /** How many of the times fall into [start, start + 1s]. */
  function CountIn(times: seq<int>, start: int): nat
  {
    if times == [] then 0 else
    var last := times[|times| - 1];
    CountIn(times[..|times| - 1], start) + if start <= last <= start + SECOND then 1 else 0
  }

  lemma {:induction false} WindowIsRecent(times: seq<int>, start: int, cutoff: int)
    requires cutoff <= start
    ensures CountIn(times, start) <= |Recent(times, cutoff)|
  {
    if times != [] { WindowIsRecent(times[..|times| - 1], start, cutoff); }
  }

  lemma CountSnoc(times: seq<int>, t: int, start: int)
    ensures CountIn(times + [t], start) == CountIn(times, start) + if start <= t <= start + SECOND then 1 else 0
  {
    assert (times + [t])[..|times|] == times;
  }

  /** A grant below the limit of the last second breaks no window's bound. */
  lemma GrantKeepsBound(limit: nat, times: seq<int>, now: int, start: int)
    requires CountIn(times, start) <= limit && |Recent(times, now - SECOND)| < limit
    ensures CountIn(times + [now], start) <= limit
  {
    CountSnoc(times, now, start);
    if start <= now <= start + SECOND { WindowIsRecent(times, start, now - SECOND); }
  }

  lemma {:induction false} ReferenceRespectsLimit(limit: nat, ops: seq<Op>, ip: string, start: int)
    ensures CountIn(TimesOf(ReferenceLog(limit, ops), ip), start) <= limit
  {
    if ops != [] {
      var init, last := ops[..|ops| - 1], ops[|ops| - 1];
      ReferenceRespectsLimit(limit, init, ip, start);
      var log := ReferenceLog(limit, init);
      if last.Allow? && ReferenceAdmits(limit, log, last.ip, last.now) {
        TimesSnoc(log, Grant(last.ip, last.now), ip);
        if last.ip == ip { GrantKeepsBound(limit, TimesOf(log, ip), last.now, start); }
      }
    }
  }

  lemma {:induction false} WindowCounts(log: seq<Grant>, ip: string, start: int)
    ensures CountIn(TimesOf(log, ip), start) == |GrantedWithin(log, ip, start, start + SECOND)|
  {
    if log == [] {
      assert GrantedWithin(log, ip, start, start + SECOND) == {};
    } else {
      hide CountIn;
      var init, last := log[..|log| - 1], log[|log| - 1];
      WindowCounts(init, ip, start);
      var before, times := GrantedWithin(init, ip, start, start + SECOND), TimesOf(init, ip);
      assert GrantedWithin(log, ip, start, start + SECOND)
          == before + if last.ip == ip && start <= last.time <= start + SECOND then {|log| - 1} else {};
      assert times + [] == times;
      if last.ip == ip { CountSnoc(times, last.time, start); }
    }
  }

  /** No closed one-second window holds more than `limit` grants of one address. */
  lemma RateIsBounded(limit: nat, ops: seq<Op>, ip: string, start: int)
    requires ClockAdvances(ops)
    ensures CountIn(TimesOf(Run(limit, ops).log, ip), start) <= limit
    ensures |GrantedWithin(Run(limit, ops).log, ip, start, start + 1_000_000_000)| <= limit
  {
    LimiterIsReference(limit, ops);
    ReferenceRespectsLimit(limit, ops, ip, start);
    WindowCounts(Run(limit, ops).log, ip, start);
  }
}
