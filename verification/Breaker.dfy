/**
 internal/routing/router.go: one endpoint's circuit breaker. Every locked section is one atomic
 event; a probe of the health checker lands as Alive or Dead.
 */
module Breaker {
  datatype Health = Healthy | Unhealthy | Open

  datatype Breaker = Breaker(health: Health, failures: nat, openUntil: int)

  const FRESH := Breaker(Healthy, 0, 0)

  datatype Policy = Policy(threshold: int, cooldown: int)

  /** The lazy reopening done by every state query. */
  function AfterQuery(b: Breaker, now: int): Breaker
  {
    if b.health == Open && now > b.openUntil then b.(health := Unhealthy, failures := 0) else b
  }

  function AfterFailure(b: Breaker, p: Policy, now: int): Breaker
  {
    if b.failures + 1 >= p.threshold then Breaker(Open, b.failures + 1, now + p.cooldown)
    else b.(health := Unhealthy, failures := b.failures + 1)
  }

  function AfterSuccess(b: Breaker): Breaker { b.(health := Healthy, failures := 0) }

  /** An alive probe promotes an unhealthy endpoint, and only that. */
  function AfterAlive(b: Breaker): Breaker
  {
    if b.health == Unhealthy then b.(health := Healthy, failures := 0) else b
  }

  // ---- the endpoint object ----

  class Endpoint {
    var health: Health
    var failures: nat
    var openUntil: int
    var ewma: nat

    constructor ()
      ensures Value() == FRESH && ewma == 0
    {
      health, failures, openUntil, ewma := Healthy, 0, 0, 0;
    }

    function Value(): Breaker
      reads this
    {
      Breaker(health, failures, openUntil)
    }

    method State(now: int) returns (h: Health)
      modifies this`health, this`failures
      ensures Value() == AfterQuery(old(Value()), now) && h == Value().health
    {
      if health == Open && now > openUntil {
        health := Unhealthy;
        failures := 0;
      }
      h := health;
    }

    method UpdateEwma(sample: nat)
      modifies this`ewma
      ensures ewma == Blend(old(ewma), sample)
      ensures if old(ewma) == 0 then ewma == sample else 8 * ewma <= 7 * old(ewma) + sample < 8 * ewma + 8
    {
      var prev := ewma;
      var next;
      if prev == 0 {
        next := sample;
      } else {
        next := (prev * 7 + sample) / 8;
      }
      ewma := next;
    }

    method RecordSuccess(lat: nat)
      modifies this
      ensures Value() == AfterSuccess(old(Value())) && ewma == Blend(old(ewma), lat)
    {
      UpdateEwma(lat);
      health := Healthy;
      failures := 0;
    }

    method RecordFailure(p: Policy, now: int) returns (tripped: bool)
      modifies this`health, this`failures, this`openUntil
      ensures Value() == AfterFailure(old(Value()), p, now)
      ensures tripped <==> Value().failures >= p.threshold
    {
      failures := failures + 1;
      if failures >= p.threshold {
        health := Open;
        openUntil := now + p.cooldown;
        return true;
      }
      health := Unhealthy;
      return false;
    }

    /** One probe result of checkAll. */
    method RecordProbe(p: Policy, alive: bool, lat: nat, now: int)
      modifies this
      ensures Value() == if alive then AfterAlive(old(Value())) else AfterFailure(old(Value()), p, now)
      ensures ewma == if alive then Blend(old(ewma), lat) else old(ewma)
    {
      if alive {
        UpdateEwma(lat);
        if health == Unhealthy {
          health := Healthy;
          failures := 0;
        }
      } else {
        failures := failures + 1;
        if failures >= p.threshold {
          health := Open;
          openUntil := now + p.cooldown;
        } else {
          health := Unhealthy;
        }
      }
    }
  }

  // ---- runs of the breaker ----

  datatype Event = Query(now: int) | Success(now: int) | DialFailure(now: int) | Alive(now: int) | Dead(now: int)

  function Step(b: Breaker, p: Policy, e: Event): Breaker
  {
    match e
    case Query(now) => AfterQuery(b, now)
    case Success(_) => AfterSuccess(b)
    case DialFailure(now) => AfterFailure(b, p, now)
    case Alive(_) => AfterAlive(b)
    case Dead(now) => AfterFailure(b, p, now)
  }

  function Run(p: Policy, es: seq<Event>): Breaker
  {
    if es == [] then FRESH else Step(Run(p, es[..|es| - 1]), p, es[|es| - 1])
  }

  predicate IsFailure(e: Event) { e.DialFailure? || e.Dead? }

  /** Success always resets; an alive probe does when unhealthy, a query when the cooldown is over. */
  predicate Resets(b: Breaker, e: Event)
  {
    || e.Success?
    || (e.Alive? && b.health == Unhealthy)
    || (e.Query? && b.health == Open && e.now > b.openUntil)
  }

  /** Failure events since the last reset of the run. */
  function FailuresSinceReset(p: Policy, es: seq<Event>): nat
  {
    if es == [] then 0 else
    var init, last := es[..|es| - 1], es[|es| - 1];
    if Resets(Run(p, init), last) then 0
    else FailuresSinceReset(p, init) + if IsFailure(last) then 1 else 0
  }

  /** When the last failure event of the run happened. */
  function LastFailure(es: seq<Event>): int
  {
    if es == [] then 0
    else if IsFailure(es[|es| - 1]) then es[|es| - 1].now
    else LastFailure(es[..|es| - 1])
  }

  /** The state agrees with the failure count. */
  predicate Consistent(b: Breaker, p: Policy)
  {
    (b.health == Open <==> b.failures >= p.threshold) && (b.health == Healthy ==> b.failures == 0)
  }

  /** After every run: the state is a function of the failures since the last reset. */
  lemma {:induction false} BreakerInvariant(p: Policy, es: seq<Event>)
    requires p.threshold >= 1
    ensures var b := Run(p, es);
            && b.failures == FailuresSinceReset(p, es)
            && Consistent(b, p)
            && (b.health == Open ==> b.openUntil == LastFailure(es) + p.cooldown)
  {
    if es != [] { BreakerInvariant(p, es[..|es| - 1]); }
  }

  /** A query reports Open exactly while `threshold` failures stand and the last is within the cooldown. */
  lemma OpenExactly(p: Policy, es: seq<Event>, now: int)
    requires p.threshold >= 1
    ensures AfterQuery(Run(p, es), now).health == Open
            <==> FailuresSinceReset(p, es) >= p.threshold && now <= LastFailure(es) + p.cooldown
  {
    BreakerInvariant(p, es);
  }

  /**
   What one more event does after any run: a success revives always, an alive probe all but an open
   endpoint, a failure counts one and leaves it unhealthy or, from the threshold on, open, and a query
   lifts an open state once the cooldown of the last failure is over.
   */
  lemma NextState(p: Policy, es: seq<Event>, e: Event)
    requires p.threshold >= 1
    ensures var b, r := Run(p, es), Run(p, es + [e]);
            match e
            case Success(_) => r.health == Healthy && r.failures == 0
            case Alive(_) => if b.health == Open then r == b else r.health == Healthy && r.failures == 0
            case Query(now) =>
              if b.health == Open && now > LastFailure(es) + p.cooldown then r.health == Unhealthy && r.failures == 0
              else r == b
            case _ =>
              && r.failures == b.failures + 1
              && r.health == (if b.failures + 1 >= p.threshold then Open else Unhealthy)
  {
    assert (es + [e])[..|es|] == es;
    BreakerInvariant(p, es);
  }

  ghost predicate QuietUntil(es: seq<Event>, from: int, until: int)
  {
    forall i :: 0 <= i < |es| ==> from <= es[i].now <= until && !es[i].Success?
  }

  /**
   A breaker tripped at `tripped` is still open at the end of its cooldown, whatever queries, probes
   and failures land meanwhile; only RecordSuccess closes it.
   */
  lemma {:induction false} TrippedStaysOpen(p: Policy, es: seq<Event>, tripped: int, more: seq<Event>)
    requires p.threshold >= 1 && p.cooldown >= 0
    requires es != [] && IsFailure(es[|es| - 1]) && es[|es| - 1].now == tripped && Run(p, es).health == Open
    requires QuietUntil(more, tripped, tripped + p.cooldown)
    ensures Run(p, es + more).health == Open && Run(p, es + more).openUntil >= tripped + p.cooldown
  {
    if more == [] {
      assert es + more == es;
    } else {
      var init := more[..|more| - 1];
      TrippedStaysOpen(p, es, tripped, init);
      assert (es + more)[..|es + more| - 1] == es + init;
      BreakerInvariant(p, es + init);
    }
  }

  // ---- dials between two resets ----

  /** The breaker with the dials in flight to its endpoint and the dials failed since the last reset. */
  datatype Dialled = Dialled(b: Breaker, inFlight: nat, failed: nat)

  datatype DialEvent = Pick(now: int) | Connected | Refused(now: int) | Other(e: Event)

  /** Pick only starts a dial when the query did not say Open; at most `limit` dials run at once. */
  predicate DialEnabled(s: Dialled, limit: nat, e: DialEvent)
  {
    match e
    case Pick(now) => s.inFlight < limit && AfterQuery(s.b, now).health != Open
    case Connected => s.inFlight > 0
    case Refused(_) => s.inFlight > 0
    case Other(x) => !x.DialFailure?
  }

  function DialStep(s: Dialled, p: Policy, e: DialEvent): Dialled
    requires e.Connected? || e.Refused? ==> s.inFlight > 0
  {
    match e
    case Pick(now) =>
      Dialled(AfterQuery(s.b, now), s.inFlight + 1, if Resets(s.b, Query(now)) then 0 else s.failed)
    case Connected => s.(inFlight := s.inFlight - 1)
    case Refused(now) => Dialled(AfterFailure(s.b, p, now), s.inFlight - 1, s.failed + 1)
    case Other(x) => Dialled(Step(s.b, p, x), s.inFlight, if Resets(s.b, x) then 0 else s.failed)
  }

  /** A run from any start; disabled events are skipped. */
  function DialRun(s: Dialled, p: Policy, limit: nat, es: seq<DialEvent>): Dialled
  {
    if es == [] then s else
    var t := DialRun(s, p, limit, es[..|es| - 1]);
    if DialEnabled(t, limit, es[|es| - 1]) then DialStep(t, p, es[|es| - 1]) else t
  }

  /**
   From any consistent breaker with no dial in flight: with at most `limit` dials at once, at most
   threshold + limit - 1 fail between two resets.
   */
  lemma {:induction false} DialFailuresAreBounded(b: Breaker, p: Policy, limit: nat, es: seq<DialEvent>)
    requires p.threshold >= 1 && limit >= 1 && Consistent(b, p)
    ensures var s := DialRun(Dialled(b, 0, 0), p, limit, es);
            && s.failed + s.inFlight <= p.threshold + limit - 1
            && s.inFlight <= limit && s.failed <= s.b.failures && Consistent(s.b, p)
  {
    if es != [] { DialFailuresAreBounded(b, p, limit, es[..|es| - 1]); }
  }

  lemma DialSnoc(s: Dialled, p: Policy, limit: nat, es: seq<DialEvent>, e: DialEvent)
    ensures var t := DialRun(s, p, limit, es);
            DialRun(s, p, limit, es + [e]) == if DialEnabled(t, limit, e) then DialStep(t, p, e) else t
  {
    assert (es + [e])[..|es|] == es;
  }

  lemma DialNext(p: Policy, limit: nat, es: seq<DialEvent>, e: DialEvent) returns (more: seq<DialEvent>)
    requires DialEnabled(DialRun(Dialled(FRESH, 0, 0), p, limit, es), limit, e)
    ensures DialRun(Dialled(FRESH, 0, 0), p, limit, more)
         == DialStep(DialRun(Dialled(FRESH, 0, 0), p, limit, es), p, e)
  {
    more := es + [e];
    DialSnoc(Dialled(FRESH, 0, 0), p, limit, es, e);
  }

  lemma RefusedTimes(p: Policy, limit: nat, k: nat) returns (es: seq<DialEvent>)
    requires limit >= 1 && k < p.threshold
    ensures var s := DialRun(Dialled(FRESH, 0, 0), p, limit, es);
            s.inFlight == 0 && s.failed == s.b.failures == k && s.b.health != Open
  {
    if k == 0 {
      es := [];
    } else {
      hide DialRun;
      es := RefusedTimes(p, limit, k - 1);
      es := DialNext(p, limit, es, Pick(0));
      es := DialNext(p, limit, es, Refused(0));
    }
  }

  lemma PickedTimes(p: Policy, limit: nat, k: nat) returns (es: seq<DialEvent>)
    requires limit >= 1 && p.threshold >= 1 && k <= limit
    ensures var s := DialRun(Dialled(FRESH, 0, 0), p, limit, es);
            s.inFlight == k && s.failed == s.b.failures == p.threshold - 1 && s.b.health != Open
  {
    hide DialRun;
    if k == 0 {
      es := RefusedTimes(p, limit, p.threshold - 1);
    } else {
      es := PickedTimes(p, limit, k - 1);
      es := DialNext(p, limit, es, Pick(0));
    }
  }

  /** The bound is reached: dials already under way when the breaker trips all fail after it. */
  lemma DialBoundIsReached(p: Policy, limit: nat, k: nat) returns (es: seq<DialEvent>)
    requires limit >= 1 && p.threshold >= 1 && k <= limit
    ensures var s := DialRun(Dialled(FRESH, 0, 0), p, limit, es);
            s.inFlight == limit - k && s.failed == p.threshold - 1 + k
  {
    hide DialRun;
    if k == 0 {
      es := PickedTimes(p, limit, limit);
    } else {
      es := DialBoundIsReached(p, limit, k - 1);
      es := DialNext(p, limit, es, Refused(0));
    }
  }

  // ---- the latency average ----

  /** updateEWMA: the first sample is taken as it is, later ones move the value by an eighth. */
  function Blend(prev: nat, sample: nat): nat
  {
    if prev == 0 then sample else (prev * 7 + sample) / 8
  }

  /** A sample weighs one eighth: each keeps seven eighths of the distance, up to the truncation. */
  lemma SampleWeighsAnEighth(prev: nat, sample: nat)
    ensures prev == 0 ==> Blend(prev, sample) == sample
    ensures 0 < prev && sample <= prev ==>
              7 * (prev - sample) - 7 <= 8 * (Blend(prev, sample) - sample) <= 7 * (prev - sample)
    ensures 0 < prev < sample ==>
              7 * (sample - prev) <= 8 * (sample - Blend(prev, sample)) <= 7 * (sample - prev) + 7
  {
  }

  lemma BlendStaysBetween(prev: nat, sample: nat, lo: nat, hi: nat)
    requires 1 <= lo <= sample <= hi && (prev == 0 || lo <= prev <= hi)
    ensures lo <= Blend(prev, sample) <= hi
    ensures prev * 7 + sample <= 8 * hi
  {
  }

  /** A load and the matching store of one of many concurrent updates. */
  datatype Race = Load(id: nat, sample: nat) | Store(id: nat)

  datatype Pending = Pending(prev: nat, sample: nat)

  datatype Shared = Shared(value: nat, pending: map<nat, Pending>, stores: nat)

  function RaceRun(es: seq<Race>): Shared
  {
    if es == [] then Shared(0, map[], 0) else
    var s := RaceRun(es[..|es| - 1]);
    match es[|es| - 1]
    case Load(id, sample) => s.(pending := s.pending[id := Pending(s.value, sample)])
    case Store(id) =>
      if id in s.pending then
        Shared(Blend(s.pending[id].prev, s.pending[id].sample), s.pending - {id}, s.stores + 1)
      else s
  }

  ghost predicate SamplesWithin(es: seq<Race>, lo: nat, hi: nat)
  {
    forall i :: 0 <= i < |es| && es[i].Load? ==> lo <= es[i].sample <= hi
  }

  /**
   However loads and stores interleave and lose updates, with samples in [lo, hi] the value is 0
   before the first store and in [lo, hi] after it, and the 64-bit product stays below 8 * hi.
   */
  lemma {:induction false} AverageStaysWithin(es: seq<Race>, lo: nat, hi: nat)
    requires 1 <= lo && SamplesWithin(es, lo, hi)
    ensures var s := RaceRun(es);
            && (if s.stores == 0 then s.value == 0 else lo <= s.value <= hi)
            && forall id :: id in s.pending ==>
                 && (s.pending[id].prev == 0 || lo <= s.pending[id].prev <= hi)
                 && lo <= s.pending[id].sample <= hi
                 && s.pending[id].prev * 7 + s.pending[id].sample <= 8 * hi
  {
    if es != [] {
      var init, last := es[..|es| - 1], es[|es| - 1];
      AverageStaysWithin(init, lo, hi);
      var s := RaceRun(init);
      if last.Load? {
        assert es[|es| - 1].Load?;
        BlendStaysBetween(s.value, last.sample, lo, hi);
      } else if last.id in s.pending {
        BlendStaysBetween(s.pending[last.id].prev, s.pending[last.id].sample, lo, hi);
      }
    }
  }

  function Iterate(v: nat, sample: nat, n: nat): nat
    decreases n
  {
    if n == 0 then v else Iterate(Blend(v, sample), sample, n - 1)
  }

  /** Floor division stops seven short from below: [s - 7, s] are the resting values of a sample s. */
  lemma RestingValues(v: nat, sample: nat)
    requires v >= 1 && sample >= 1
    ensures Blend(v, sample) == v <==> sample - 7 <= v <= sample
    ensures v > sample ==> sample <= Blend(v, sample) < v
    ensures v < sample - 7 ==> v < Blend(v, sample) <= sample - 7
  {
  }

  /** Where a value settles under a constant sample. */
  function Rest(v: nat, sample: nat): int
  {
    if v == 0 || v > sample then sample else if v < sample - 7 then sample - 7 else v
  }

  function Distance(v: nat, sample: nat): nat
  {
    var d: int := if v > sample then v - sample else sample - v;
    1 + d
  }

  /** Under a constant sample the value reaches its resting value within the distance, and keeps it. */
  lemma {:induction false} AverageSettles(v: nat, sample: nat, n: nat)
    requires sample >= 1 && n >= Distance(v, sample)
    ensures Iterate(v, sample, n) == Rest(v, sample)
    ensures sample - 7 <= Iterate(v, sample, n) <= sample
    decreases n
  {
    if v == 0 {
      SettledStays(sample, sample, n - 1);
    } else {
      RestingValues(v, sample);
      if sample - 7 <= v <= sample {
        SettledStays(v, sample, n);
      } else {
        AverageSettles(Blend(v, sample), sample, n - 1);
      }
    }
  }

  lemma {:induction false} SettledStays(v: nat, sample: nat, n: nat)
    requires 1 <= v && 1 <= sample && sample - 7 <= v <= sample
    ensures Iterate(v, sample, n) == v
  {
    if n > 0 {
      RestingValues(v, sample);
      SettledStays(v, sample, n - 1);
    }
  }
}
