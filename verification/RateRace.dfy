/**
 The limiter of internal/proxy/server.go with its locks: looking a bucket up and deciding in it are
 separate steps, and so are the stale check and the deletion of a cleanup. While a cleanup holds the
 table lock no bucket can be looked up, but a request that already has one can still decide in it.
 The accept loop asks for one request at a time; here any number may wait.
 */
module RateRace {
  import R = RateLimiter

  /** The lastSeen of a bucket nothing has been decided in: Go's zero time, year 1. */
  const UNUSED: int := -62_135_596_800 * R.SECOND

  /** A bucket object. Deleting it from the table does not take it from a request that holds it. */
  datatype Shared = Shared(ip: string, timestamps: seq<int>, lastSeen: int)

  datatype Award = Award(ip: string, id: nat, time: int)

  datatype Sweep =
    | Off
    | Sweeping(cutoff: int, todo: set<string>)
    | Deleting(cutoff: int, todo: set<string>, ip: string)   // found stale, not yet deleted

  /** `held` is the bucket each waiting request has looked up. */
  datatype State = State(objects: seq<Shared>, buckets: map<string, nat>, held: map<nat, nat>, sweep: Sweep,
                         log: seq<Award>)

  /** A cleanup reads its cutoff before it waits for the table lock. */
  datatype Event =
    | Lookup(req: nat, ip: string)
    | Decide(req: nat, now: int)
    | Begin(now: int, cutoff: int)
    | Check(ip: string)
    | Delete
    | End

  predicate Timed(e: Event) { e.Decide? || e.Begin? }

  predicate Enabled(s: State, e: Event)
  {
    match e
    case Lookup(req, _) => s.sweep.Off? && req !in s.held
    case Decide(req, _) => req in s.held
    case Begin(now, cutoff) => s.sweep.Off? && cutoff <= now - R.STALE
    case Check(ip) => s.sweep.Sweeping? && ip in s.sweep.todo
    case Delete => s.sweep.Deleting?
    case End => s.sweep.Sweeping? && s.sweep.todo == {}
  }

  /** Every reference leads to an object of the right address. */
  ghost predicate WellFormed(s: State)
  {
    && (forall req :: req in s.held ==> s.held[req] < |s.objects|)
    && (forall ip :: ip in s.buckets ==> s.buckets[ip] < |s.objects| && s.objects[s.buckets[ip]].ip == ip)
    && (!s.sweep.Off? ==> s.sweep.todo <= s.buckets.Keys)
    && (s.sweep.Deleting? ==> s.sweep.ip in s.buckets && s.sweep.ip !in s.sweep.todo)
    && forall i :: 0 <= i < |s.log| ==> s.log[i].id < |s.objects| && s.log[i].ip == s.objects[s.log[i].id].ip
  }

  /** The decision of the locked section. */
  ghost predicate Grants(limit: nat, s: State, req: nat, now: int)
    requires WellFormed(s) && req in s.held
  {
    |R.Recent(s.objects[s.held[req]].timestamps, now - R.SECOND)| < limit
  }

  ghost predicate IsStale(s: State, ip: string)
    requires WellFormed(s) && Enabled(s, Check(ip))
  {
    s.objects[s.buckets[ip]].lastSeen < s.sweep.cutoff
  }

  ghost function Step(limit: nat, s: State, e: Event): (r: State)
    requires WellFormed(s) && Enabled(s, e)
    ensures WellFormed(r)
  {
    match e
    case Lookup(req, ip) =>
      if ip in s.buckets then s.(held := s.held[req := s.buckets[ip]]) else
      var id := |s.objects|;
      s.(objects := s.objects + [Shared(ip, [], UNUSED)], buckets := s.buckets[ip := id], held := s.held[req := id])
    case Decide(req, now) => AfterDecision(limit, s, req, now)
    case Begin(_, cutoff) => s.(sweep := Sweeping(cutoff, s.buckets.Keys))
    case Check(ip) =>
      var rest := s.sweep.todo - {ip};
      s.(sweep := if IsStale(s, ip) then Deleting(s.sweep.cutoff, rest, ip) else Sweeping(s.sweep.cutoff, rest))
    case Delete => s.(buckets := s.buckets - {s.sweep.ip}, sweep := Sweeping(s.sweep.cutoff, s.sweep.todo))
    case End => s.(sweep := Off)
  }

  ghost function AfterDecision(limit: nat, s: State, req: nat, now: int): (r: State)
    requires WellFormed(s) && req in s.held
    ensures WellFormed(r)
  {
    var id := s.held[req];
    var b := s.objects[id];
    var kept := R.Recent(b.timestamps, now - R.SECOND);
    if Grants(limit, s, req, now) then
      s.(objects := s.objects[id := Shared(b.ip, kept + [now], now)], held := s.held - {req},
         log := s.log + [Award(b.ip, id, now)])
    else
      s.(objects := s.objects[id := Shared(b.ip, kept, now)], held := s.held - {req})
  }

  const EMPTY := State([], map[], map[], Off, [])

  /** A run; disabled events are skipped. */
  ghost function Run(limit: nat, es: seq<Event>): (s: State)
    ensures WellFormed(s)
  {
    if es == [] then EMPTY else
    var s := Run(limit, es[..|es| - 1]);
    if Enabled(s, es[|es| - 1]) then Step(limit, s, es[|es| - 1]) else s
  }

  function Clock(es: seq<Event>): int
  {
    if es == [] then UNUSED
    else if Timed(es[|es| - 1]) then es[|es| - 1].now
    else Clock(es[..|es| - 1])
  }

  predicate ClockAdvances(es: seq<Event>)
  {
    es == [] || (ClockAdvances(es[..|es| - 1]) && (Timed(es[|es| - 1]) ==> Clock(es[..|es| - 1]) <= es[|es| - 1].now))
  }

  // ---- what was granted ----

  function OfId(log: seq<Award>, id: nat): seq<int>
  {
    if log == [] then [] else
    OfId(log[..|log| - 1], id) + if log[|log| - 1].id == id then [log[|log| - 1].time] else []
  }

  function OfIp(log: seq<Award>, ip: string): seq<int>
  {
    if log == [] then [] else
    OfIp(log[..|log| - 1], ip) + if log[|log| - 1].ip == ip then [log[|log| - 1].time] else []
  }

  lemma AwardSnoc(log: seq<Award>, a: Award, id: nat, ip: string)
    ensures OfId(log + [a], id) == OfId(log, id) + if a.id == id then [a.time] else []
    ensures OfIp(log + [a], ip) == OfIp(log, ip) + if a.ip == ip then [a.time] else []
  {
    assert (log + [a])[..|log|] == log;
  }

  lemma {:induction false} NoAwards(log: seq<Award>, id: nat)
    requires forall i :: 0 <= i < |log| ==> log[i].id != id
    ensures OfId(log, id) == []
  {
    if log != [] { NoAwards(log[..|log| - 1], id); }
  }

  /** What went through one bucket of an address is part of what the address was granted. */
  lemma {:induction false} OwnAtMostAll(log: seq<Award>, id: nat, ip: string, cutoff: int)
    requires forall i :: 0 <= i < |log| && log[i].id == id ==> log[i].ip == ip
    ensures |R.Recent(OfId(log, id), cutoff)| <= |R.Recent(OfIp(log, ip), cutoff)|
  {
    if log != [] {
      var init, last := log[..|log| - 1], log[|log| - 1];
      OwnAtMostAll(init, id, ip, cutoff);
      R.RecentOfOneMore(OfId(init, id), last.time, cutoff);
      R.RecentOfOneMore(OfIp(init, ip), last.time, cutoff);
      assert OfId(init, id) + [] == OfId(init, id) && OfIp(init, ip) + [] == OfIp(init, ip);
    }
  }

  // ---- one bucket ----

  /** A bucket object remembers of its own grants all that the window can see. */
  ghost predicate BucketExact(s: State, id: nat, clock: int)
    requires id < |s.objects|
  {
    var b, times := s.objects[id], OfId(s.log, id);
    b.lastSeen <= clock && R.AllUpTo(times, b.lastSeen) && b.timestamps == R.Recent(times, b.lastSeen - R.SECOND)
  }

  ghost predicate BucketsExact(s: State, clock: int)
  {
    forall id :: 0 <= id < |s.objects| ==> BucketExact(s, id, clock)
  }

  /** The bucket decided in takes the new time, if granted, behind the ones it keeps. */
  lemma DecidedBucket(limit: nat, s: State, req: nat, now: int, clock: int)
    requires WellFormed(s) && req in s.held && BucketExact(s, s.held[req], clock) && clock <= now
    ensures BucketExact(AfterDecision(limit, s, req, now), s.held[req], now)
  {
    hide R.Recent, OfId;
    var id := s.held[req];
    var b, times := s.objects[id], OfId(s.log, id);
    R.RecentTwice(times, b.lastSeen - R.SECOND, now - R.SECOND);
    assert R.AllUpTo(times, now);
    if Grants(limit, s, req, now) {
      AwardSnoc(s.log, Award(b.ip, id, now), id, b.ip);
      R.RecentOfOneMore(times, now, now - R.SECOND);
    }
  }

  lemma OtherBucket(limit: nat, s: State, req: nat, now: int, clock: int, id: nat)
    requires WellFormed(s) && req in s.held && id < |s.objects| && id != s.held[req]
    requires BucketExact(s, id, clock) && clock <= now
    ensures BucketExact(AfterDecision(limit, s, req, now), id, now)
  {
    hide R.Recent, OfId;
    var a := Award(s.objects[s.held[req]].ip, s.held[req], now);
    AwardSnoc(s.log, a, id, a.ip);
    assert OfId(s.log, id) + [] == OfId(s.log, id);
  }

  lemma StepKeepsBuckets(limit: nat, s: State, e: Event, clock: int)
    requires WellFormed(s) && Enabled(s, e) && BucketsExact(s, clock) && UNUSED <= clock
    requires Timed(e) ==> clock <= e.now
    ensures BucketsExact(Step(limit, s, e), if Timed(e) then e.now else clock)
  {
    hide R.Recent, OfId, AfterDecision, WellFormed, BucketExact;
    var r, later := Step(limit, s, e), if Timed(e) then e.now else clock;
    if e.Decide? {
      assert |r.objects| == |s.objects| by { DecisionKeepsSize(limit, s, e.req, e.now); }
    }
    forall id | 0 <= id < |r.objects| ensures BucketExact(r, id, later) {
      if e.Decide? && id == s.held[e.req] {
        DecidedBucket(limit, s, e.req, e.now, clock);
      } else if e.Decide? {
        OtherBucket(limit, s, e.req, e.now, clock, id);
      } else if id < |s.objects| {
        assert r.objects[id] == s.objects[id] && r.log == s.log;
        SameBucket(s, r, id, clock, later);
      } else {
        FreshBucket(s, id);
        NewBucket(r, id, later);
      }
    }
  }

  lemma SameBucket(s: State, r: State, id: nat, clock: int, later: int)
    requires id < |s.objects| && id < |r.objects| && r.objects[id] == s.objects[id] && r.log == s.log
    requires BucketExact(s, id, clock) && clock <= later
    ensures BucketExact(r, id, later)
  {
  }

  lemma NewBucket(r: State, id: nat, later: int)
    requires id < |r.objects| && r.objects[id] == Shared(r.objects[id].ip, [], UNUSED)
    requires OfId(r.log, id) == [] && UNUSED <= later
    ensures BucketExact(r, id, later)
  {
  }

  lemma DecisionKeepsSize(limit: nat, s: State, req: nat, now: int)
    requires WellFormed(s) && req in s.held
    ensures |AfterDecision(limit, s, req, now).objects| == |s.objects|
  {
  }

  lemma FreshBucket(s: State, id: nat)
    requires WellFormed(s) && id == |s.objects|
    ensures OfId(s.log, id) == []
  {
    NoAwards(s.log, id);
  }

  lemma {:induction false} RunKeepsBuckets(limit: nat, es: seq<Event>)
    requires ClockAdvances(es)
    ensures BucketsExact(Run(limit, es), Clock(es)) && UNUSED <= Clock(es)
  {
    if es != [] {
      hide BucketsExact, Step, WellFormed;
      var init, last := es[..|es| - 1], es[|es| - 1];
      RunKeepsBuckets(limit, init);
      if Enabled(Run(limit, init), last) {
        StepKeepsBuckets(limit, Run(limit, init), last, Clock(init));
      } else {
        BucketsAge(Run(limit, init), Clock(init), Clock(es));
      }
    } else {
      assert |Run(limit, es).objects| == 0;
    }
  }

  lemma BucketsAge(s: State, clock: int, later: int)
    requires BucketsExact(s, clock) && clock <= later
    ensures BucketsExact(s, later)
  {
    hide R.Recent, OfId;
    forall id | 0 <= id < |s.objects| ensures BucketExact(s, id, later) { assert BucketExact(s, id, clock); }
  }

  /** Grants of the last second to the bucket a request holds, and to its address. */
  ghost function Own(s: State, req: nat, now: int): seq<int>
    requires req in s.held
  {
    R.Recent(OfId(s.log, s.held[req]), now - R.SECOND)
  }

  ghost function Whole(s: State, req: nat, now: int): seq<int>
    requires WellFormed(s) && req in s.held
  {
    R.Recent(OfIp(s.log, s.objects[s.held[req]].ip), now - R.SECOND)
  }

  /**
   Under every interleaving a bucket decides exactly on its own grants. A denial is therefore always
   right, and a grant is one too many exactly when so many recent grants of the address went through
   other buckets that its own are below the limit and all of them are not.
   */
  lemma DecisionIsExact(limit: nat, es: seq<Event>, req: nat, now: int)
    requires ClockAdvances(es) && Clock(es) <= now && req in Run(limit, es).held
    ensures var s := Run(limit, es);
            && (Grants(limit, s, req, now) <==> |Own(s, req, now)| < limit)
            && (!Grants(limit, s, req, now) ==> |Whole(s, req, now)| >= limit)
            && ((Grants(limit, s, req, now) <==> |Whole(s, req, now)| < limit)
                <==> !(|Own(s, req, now)| < limit <= |Whole(s, req, now)|))
  {
    hide R.Recent, OfId, OfIp, Run;
    var s := Run(limit, es);
    var id := s.held[req];
    RunKeepsBuckets(limit, es);
    assert BucketExact(s, id, Clock(es));
    R.RecentTwice(OfId(s.log, id), s.objects[id].lastSeen - R.SECOND, now - R.SECOND);
    OwnAtMostAll(s.log, id, s.objects[id].ip, now - R.SECOND);
  }

  lemma DecisionKeepsRate(limit: nat, es: seq<Event>, req: nat, now: int, id: nat, start: int)
    requires ClockAdvances(es) && Clock(es) <= now && req in Run(limit, es).held
    requires R.CountIn(OfId(Run(limit, es).log, id), start) <= limit
    ensures R.CountIn(OfId(AfterDecision(limit, Run(limit, es), req, now).log, id), start) <= limit
  {
    hide R.Recent, R.CountIn, OfId, OfIp, Run;
    var s := Run(limit, es);
    DecisionIsExact(limit, es, req, now);
    var a := Award(s.objects[s.held[req]].ip, s.held[req], now);
    AwardSnoc(s.log, a, id, a.ip);
    assert OfId(s.log, id) + [] == OfId(s.log, id);
    if Grants(limit, s, req, now) && a.id == id { R.GrantKeepsBound(limit, OfId(s.log, id), now, start); }
  }

  /** No closed one-second window holds more than `limit` grants of one bucket. */
  lemma {:induction false} BucketRateIsBounded(limit: nat, es: seq<Event>, id: nat, start: int)
    requires ClockAdvances(es)
    ensures R.CountIn(OfId(Run(limit, es).log, id), start) <= limit
  {
    if es != [] {
      hide R.CountIn, OfId, WellFormed, AfterDecision;
      var init, last := es[..|es| - 1], es[|es| - 1];
      BucketRateIsBounded(limit, init, id, start);
      if Enabled(Run(limit, init), last) && last.Decide? {
        DecisionKeepsRate(limit, init, last.req, last.now, id, start);
      }
    } else {
      assert OfId([], id) == [];
    }
  }

  // ---- one address ----

  /** The grants to the bucket an address has now. */
  ghost function CurrentTimes(s: State, ip: string): seq<int>
  {
    if ip in s.buckets then OfId(s.log, s.buckets[ip]) else []
  }

  /** No bucket is found stale while a request holds it: what a race-free schedule keeps. */
  ghost predicate Careful(s: State, e: Event)
    requires WellFormed(s)
  {
    e.Check? && Enabled(s, e) && IsStale(s, e.ip) ==> forall req :: req in s.held ==> s.held[req] != s.buckets[e.ip]
  }

  ghost predicate CarefulRun(limit: nat, es: seq<Event>)
  {
    es == [] || (CarefulRun(limit, es[..|es| - 1]) && Careful(Run(limit, es[..|es| - 1]), es[|es| - 1]))
  }

  /** Requests hold the buckets in the table, and a cleanup deletes only what no one holds. */
  ghost predicate NoOrphans(s: State, clock: int)
    requires WellFormed(s)
  {
    && (forall req :: req in s.held ==>
          var ip := s.objects[s.held[req]].ip; ip in s.buckets && s.buckets[ip] == s.held[req])
    && (!s.sweep.Off? ==> s.sweep.cutoff <= clock - R.STALE)
    && (s.sweep.Deleting? ==>
          && s.objects[s.buckets[s.sweep.ip]].lastSeen < s.sweep.cutoff
          && forall req :: req in s.held ==> s.held[req] != s.buckets[s.sweep.ip])
  }

  lemma StepKeepsNoOrphans(limit: nat, s: State, e: Event, clock: int)
    requires WellFormed(s) && Enabled(s, e) && NoOrphans(s, clock) && Careful(s, e)
    requires Timed(e) ==> clock <= e.now
    ensures NoOrphans(Step(limit, s, e), if Timed(e) then e.now else clock)
  {
    hide R.Recent, Grants;
  }

  /** The bucket in the table has seen every grant of its address that the window can see. */
  ghost predicate AddressExact(s: State, ip: string, clock: int)
  {
    R.Recent(OfIp(s.log, ip), clock - R.SECOND) == R.Recent(CurrentTimes(s, ip), clock - R.SECOND)
  }

  lemma AddressAges(s: State, ip: string, clock: int, later: int)
    requires AddressExact(s, ip, clock) && clock <= later
    ensures AddressExact(s, ip, later)
  {
    hide R.Recent, OfIp, CurrentTimes;
    R.RecentTwice(OfIp(s.log, ip), clock - R.SECOND, later - R.SECOND);
    R.RecentTwice(CurrentTimes(s, ip), clock - R.SECOND, later - R.SECOND);
  }

  lemma DecisionKeepsAddress(limit: nat, s: State, req: nat, now: int, ip: string)
    requires WellFormed(s) && req in s.held && NoOrphans(s, now) && AddressExact(s, ip, now)
    ensures AddressExact(AfterDecision(limit, s, req, now), ip, now)
  {
    hide R.Recent, OfIp, OfId;
    var id := s.held[req];
    var a := Award(s.objects[id].ip, id, now);
    if Grants(limit, s, req, now) {
      var current: nat := if ip in s.buckets then s.buckets[ip] else 0;
      AwardSnoc(s.log, a, current, ip);
      assert OfIp(s.log, ip) + [] == OfIp(s.log, ip) && OfId(s.log, current) + [] == OfId(s.log, current);
      R.RecentOfOneMore(OfIp(s.log, ip), now, now - R.SECOND);
      R.RecentOfOneMore(CurrentTimes(s, ip), now, now - R.SECOND);
    }
  }

  /** What is deleted has nothing left in the window. */
  lemma DeletionKeepsAddress(limit: nat, s: State, ip: string, clock: int)
    requires WellFormed(s) && s.sweep.Deleting? && NoOrphans(s, clock) && BucketsExact(s, clock)
    requires AddressExact(s, ip, clock)
    ensures AddressExact(Step(limit, s, Delete), ip, clock)
  {
    hide R.Recent, OfIp, OfId;
    if ip == s.sweep.ip {
      var id := s.buckets[ip];
      assert BucketExact(s, id, clock);
      assert R.AllBefore(OfId(s.log, id), clock - R.SECOND);
      R.NoneRecent(OfId(s.log, id), clock - R.SECOND);
      R.NothingRecent(clock - R.SECOND);
    }
  }

  lemma StepKeepsAddress(limit: nat, s: State, e: Event, clock: int, ip: string)
    requires WellFormed(s) && Enabled(s, e) && NoOrphans(s, clock) && BucketsExact(s, clock) && AddressExact(s, ip, clock)
    requires Timed(e) ==> clock <= e.now
    ensures AddressExact(Step(limit, s, e), ip, if Timed(e) then e.now else clock)
  {
    hide R.Recent, OfIp, OfId, BucketsExact;
    var later := if Timed(e) then e.now else clock;
    AddressAges(s, ip, clock, later);
    match e {
      case Decide(req, now) => DecisionKeepsAddress(limit, s, req, now, ip);
      case Delete => DeletionKeepsAddress(limit, s, ip, clock);
      case Lookup(_, other) => if other !in s.buckets { FreshBucket(s, |s.objects|); }
      case _ =>
    }
  }

  lemma {:induction false} CarefulKeepsAddresses(limit: nat, es: seq<Event>, ip: string)
    requires ClockAdvances(es) && CarefulRun(limit, es)
    ensures NoOrphans(Run(limit, es), Clock(es)) && AddressExact(Run(limit, es), ip, Clock(es))
  {
    if es != [] {
      hide BucketsExact, AddressExact, NoOrphans, Step, WellFormed, Careful;
      var init, last := es[..|es| - 1], es[|es| - 1];
      CarefulKeepsAddresses(limit, init, ip);
      RunKeepsBuckets(limit, init);
      var s := Run(limit, init);
      if Enabled(s, last) {
        StepKeepsNoOrphans(limit, s, last, Clock(init));
        StepKeepsAddress(limit, s, last, Clock(init), ip);
      } else {
        AddressAges(s, ip, Clock(init), Clock(es));
        OrphansAge(s, Clock(init), Clock(es));
      }
    }
  }

  lemma OrphansAge(s: State, clock: int, later: int)
    requires WellFormed(s) && NoOrphans(s, clock) && clock <= later
    ensures NoOrphans(s, later)
  {
  }

  /** On every race-free schedule each decision is the one full history would give. */
  lemma CarefulIsReference(limit: nat, es: seq<Event>, req: nat, now: int)
    requires ClockAdvances(es) && CarefulRun(limit, es) && Clock(es) <= now && req in Run(limit, es).held
    ensures Grants(limit, Run(limit, es), req, now) <==> |Whole(Run(limit, es), req, now)| < limit
  {
    hide R.Recent, OfId, OfIp, Run, BucketsExact;
    var s := Run(limit, es);
    var ip := s.objects[s.held[req]].ip;
    CarefulKeepsAddresses(limit, es, ip);
    AddressAges(s, ip, Clock(es), now);
    DecisionIsExact(limit, es, req, now);
  }

  /** And no closed one-second window holds more than `limit` grants of an address. */
  lemma {:induction false} CarefulRateIsBounded(limit: nat, es: seq<Event>, ip: string, start: int)
    requires ClockAdvances(es) && CarefulRun(limit, es)
    ensures R.CountIn(OfIp(Run(limit, es).log, ip), start) <= limit
  {
    if es != [] {
      hide R.CountIn, OfIp, WellFormed, AfterDecision, Careful;
      var init, last := es[..|es| - 1], es[|es| - 1];
      CarefulRateIsBounded(limit, init, ip, start);
      if Enabled(Run(limit, init), last) && last.Decide? {
        DecisionKeepsAddressRate(limit, init, last.req, last.now, ip, start);
      }
    } else {
      assert OfIp([], ip) == [];
    }
  }

  lemma DecisionKeepsAddressRate(limit: nat, es: seq<Event>, req: nat, now: int, ip: string, start: int)
    requires ClockAdvances(es) && CarefulRun(limit, es) && Clock(es) <= now && req in Run(limit, es).held
    requires R.CountIn(OfIp(Run(limit, es).log, ip), start) <= limit
    ensures R.CountIn(OfIp(AfterDecision(limit, Run(limit, es), req, now).log, ip), start) <= limit
  {
    hide R.Recent, R.CountIn, OfId, OfIp, Run, CarefulRun;
    var s := Run(limit, es);
    CarefulIsReference(limit, es, req, now);
    var a := Award(s.objects[s.held[req]].ip, s.held[req], now);
    AwardSnoc(s.log, a, a.id, ip);
    assert OfIp(s.log, ip) + [] == OfIp(s.log, ip);
    if Grants(limit, s, req, now) && a.ip == ip { R.GrantKeepsBound(limit, OfIp(s.log, ip), now, start); }
  }

  // ---- the race ----

  lemma RunNext(limit: nat, es: seq<Event>, e: Event) returns (more: seq<Event>)
    requires Enabled(Run(limit, es), e)
    ensures more == es + [e] && Run(limit, more) == Step(limit, Run(limit, es), e)
    ensures ClockAdvances(es) && (Timed(e) ==> Clock(es) <= e.now) ==>
              ClockAdvances(more) && Clock(more) == if Timed(e) then e.now else Clock(es)
  {
    more := es + [e];
    assert more[..|es|] == es;
  }

  ghost predicate ReachedAt(es: seq<Event>, s: State, clock: int)
  {
    Run(1, es) == s && ClockAdvances(es) && Clock(es) == clock
  }

  lemma LookedUp(ip: string) returns (es: seq<Event>)
    ensures ReachedAt(es, State([Shared(ip, [], UNUSED)], map[ip := 0], map[0 := 0], Off, []), UNUSED)
  {
    hide Run, Clock, ClockAdvances;
    assert Run(1, []) == EMPTY && ClockAdvances([]) && Clock([]) == UNUSED by { NothingRun(1); }
    es := RunNext(1, [], Lookup(0, ip));
  }

  lemma CleanedUp(ip: string) returns (es: seq<Event>)
    ensures ReachedAt(es, State([Shared(ip, [], UNUSED)], map[], map[0 := 0], Off, []), 0)
  {
    hide Run, Clock, ClockAdvances;
    es := LookedUp(ip);
    es := RunNext(1, es, Begin(0, 0 - R.STALE));
    assert Run(1, es).sweep == Sweeping(0 - R.STALE, {ip});
    es := RunNext(1, es, Check(ip));
    es := RunNext(1, es, Delete);
    assert Run(1, es).buckets == map[] && Run(1, es).sweep.todo == {};
    es := RunNext(1, es, End);
  }

  lemma DecidedWithoutBucket(ip: string) returns (es: seq<Event>)
    ensures ReachedAt(es, State([Shared(ip, [0], 0)], map[], map[], Off, [Award(ip, 0, 0)]), 0)
  {
    hide Run, Clock, ClockAdvances, R.Recent;
    R.NothingRecent(0 - R.SECOND);
    es := CleanedUp(ip);
    es := RunNext(1, es, Decide(0, 0));
    var s := Run(1, es);
    assert s.objects[0].timestamps == [] + [0] == [0];
    assert s.objects == [Shared(ip, [0], 0)];
    assert s.held == map[] && s.log == [Award(ip, 0, 0)];
  }

  /**
   A cleanup between the first lookup of an address, whose bucket counts as unused, and its decision
   deletes that bucket; the next request, of the same instant, gets a new one. Both are granted,
   although one asks only after the other has its answer.
   */
  lemma LimitIsOverrun(ip: string) returns (es: seq<Event>)
    ensures ClockAdvances(es) && R.CountIn(OfIp(Run(1, es).log, ip), 0) == 2
  {
    hide Run, Clock, ClockAdvances, R.Recent, R.CountIn, OfIp;
    R.NothingRecent(0 - R.SECOND);
    es := DecidedWithoutBucket(ip);
    es := RunNext(1, es, Lookup(1, ip));
    assert Run(1, es).held == map[1 := 1] && Run(1, es).objects[1] == Shared(ip, [], UNUSED);
    es := RunNext(1, es, Decide(1, 0));
    TwoAwards(Run(1, es).log, ip);
  }

  lemma NothingRun(limit: nat)
    ensures Run(limit, []) == EMPTY && ClockAdvances([]) && Clock([]) == UNUSED
  {
  }

  lemma TwoAwards(log: seq<Award>, ip: string)
    requires log == [Award(ip, 0, 0), Award(ip, 1, 0)]
    ensures R.CountIn(OfIp(log, ip), 0) == 2
  {
    assert log == ([] + [log[0]]) + [log[1]];
    AwardSnoc([], log[0], 0, ip);
    AwardSnoc([] + [log[0]], log[1], 0, ip);
    R.CountSnoc([], 0, 0);
    R.CountSnoc([] + [0], 0, 0);
  }
}
