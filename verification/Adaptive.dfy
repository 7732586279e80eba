/**
 internal/bypass/adaptive.go: the adaptive strategy choice. Any number of Inject calls run at once;
 each cache operation, each strategy run and each recorder call is one atomic step.
 */
module Adaptive {
  import opened LruCache

  const CAPACITY := 4096
  const TTL := 600_000_000_000   // ten minutes, in nanoseconds

  function Next(s: Strategy): (n: Strategy)
    ensures n != s && n != Unknown
  {
    match s
    case WrongSeq => Fragment
    case Fragment => DesyncBadCS
    case DesyncBadCS => DesyncTTL
    case _ => WrongSeq
  }

  /** Which strategy follows the failure of which: a ring of four. */
  predicate Follows(first: Strategy, second: Strategy)
  {
    || (first == WrongSeq && second == Fragment)
    || (first == Fragment && second == DesyncBadCS)
    || (first == DesyncBadCS && second == DesyncTTL)
    || (first == DesyncTTL && second == WrongSeq)
  }

  lemma NextFollows(s: Strategy)
    requires s != Unknown
    ensures Follows(s, Next(s))
  {
  }

  // ---- the recorder's counters ----

  datatype Counts = Counts(ok: nat, fail: nat)

  /** RecordBypassStrategy of internal/metrics/collector.go: counters are created on first use. */
  function Record(counts: map<Strategy, Counts>, s: Strategy, ok: bool): map<Strategy, Counts>
  {
    var c := if s in counts then counts[s] else Counts(0, 0);
    counts[s := if ok then c.(ok := c.ok + 1) else c.(fail := c.fail + 1)]
  }

  function OkOf(counts: map<Strategy, Counts>, s: Strategy): nat { if s in counts then counts[s].ok else 0 }

  function FailOf(counts: map<Strategy, Counts>, s: Strategy): nat { if s in counts then counts[s].fail else 0 }

  /** Recording adds one to one counter of one strategy and moves nothing else. */
  lemma RecordAddsOne(counts: map<Strategy, Counts>, s: Strategy, ok: bool, t: Strategy)
    ensures OkOf(Record(counts, s, ok), t) == OkOf(counts, t) + if ok && t == s then 1 else 0
    ensures FailOf(Record(counts, s, ok), t) == FailOf(counts, t) + if !ok && t == s then 1 else 0
    ensures Record(counts, s, ok).Keys == counts.Keys + {s}
  {
  }

  // ---- the machine ----

  /** One strategy run of one call. */
  datatype Attempt = Attempt(id: nat, key: string, strategy: Strategy, ok: bool)

  /** Where a call stands; the argument is the strategy it is about to run, or has just run. */
  datatype Stage =
    | Looking
    | First(s: Strategy)
    | FirstFailed(s: Strategy)
    | Second(s: Strategy)
    | Succeeded(s: Strategy)
    | Saved(s: Strategy)
    | Returning(s: Strategy)

  datatype Call = Call(key: string, stage: Stage)

  datatype World = World(
    slots: seq<Slot>,            // the cache
    calls: map<nat, Call>,       // the calls in flight
    started: nat,                // calls ever started; also the next id
    attempts: seq<Attempt>,      // every strategy run, in order
    counts: map<Strategy, Counts>,   // the recorder
    returned: seq<Strategy>,     // what the calls that returned without an error gave back
    errs: nat)                   // calls that returned with an error

  datatype Event =
    | Start(key: string)
    | Look(id: nat, now: int)
    | TryFirst(id: nat, ok: bool)
    | NoteFail(id: nat)
    | TrySecond(id: nat, ok: bool)
    | Save(id: nat, now: int)
    | NoteOk(id: nat)
    | Return(id: nat)

  const INITIAL := World([], map[], 0, [], map[], [], 0)

  predicate Enabled(s: World, e: Event)
  {
    if e.Start? then true else
    e.id in s.calls &&
    match e
    case Look(id, _) => s.calls[id].stage.Looking?
    case TryFirst(id, _) => s.calls[id].stage.First?
    case NoteFail(id) => s.calls[id].stage.FirstFailed?
    case TrySecond(id, _) => s.calls[id].stage.Second?
    case Save(id, _) => s.calls[id].stage.Succeeded?
    case NoteOk(id) => s.calls[id].stage.Saved?
    case Return(id) => s.calls[id].stage.Returning?
  }

  function Goto(s: World, id: nat, stage: Stage): World
    requires id in s.calls
  {
    s.(calls := s.calls[id := s.calls[id].(stage := stage)])
  }

  function Step(s: World, e: Event): World
    requires Enabled(s, e)
  {
    match e
    case Start(key) => s.(calls := s.calls[s.started := Call(key, Looking)], started := s.started + 1)
    case Look(id, now) =>
      var key := s.calls[id].key;
      var hit := Lookup(s.slots, key, now);
      Goto(s, id, First(if hit.Hit? then hit.strategy else WrongSeq)).(slots := AfterGet(s.slots, key, now))
    case TryFirst(id, ok) =>
      var c := s.calls[id];
      Goto(s, id, if ok then Succeeded(c.stage.s) else FirstFailed(c.stage.s))
        .(attempts := s.attempts + [Attempt(id, c.key, c.stage.s, ok)])
    case NoteFail(id) =>
      var failed := s.calls[id].stage.s;
      Goto(s, id, Second(Next(failed))).(counts := Record(s.counts, failed, false))
    case TrySecond(id, ok) =>
      var c := s.calls[id];
      var attempts := s.attempts + [Attempt(id, c.key, c.stage.s, ok)];
      if ok then Goto(s, id, Succeeded(c.stage.s)).(attempts := attempts)
      else s.(calls := s.calls - {id}, attempts := attempts, errs := s.errs + 1)
    case Save(id, now) =>
      var c := s.calls[id];
      Goto(s, id, Saved(c.stage.s)).(slots := AfterSet(s.slots, CAPACITY, TTL, c.key, c.stage.s, now))
    case NoteOk(id) =>
      var worked := s.calls[id].stage.s;
      Goto(s, id, Returning(worked)).(counts := Record(s.counts, worked, true))
    case Return(id) => s.(calls := s.calls - {id}, returned := s.returned + [s.calls[id].stage.s])
  }

  /** Events that are not enabled are skipped, so every event list is a run. */
  function Exec(s: World, es: seq<Event>): World
  {
    if es == [] then s else
    var t := Exec(s, es[..|es| - 1]);
    if Enabled(t, es[|es| - 1]) then Step(t, es[|es| - 1]) else t
  }

  function Run(es: seq<Event>): World { Exec(INITIAL, es) }

  // ---- what the history says ----

  ghost predicate Worked(attempts: seq<Attempt>, key: string, strategy: Strategy)
  {
    exists i :: 0 <= i < |attempts| && Ran(attempts[i], key, strategy) && attempts[i].ok
  }

  ghost predicate Ran(a: Attempt, key: string, strategy: Strategy) { a.key == key && a.strategy == strategy }

  /** Each desync variant is run for a key only after the strategy before it succeeded for that key. */
  ghost predicate Laddered(attempts: seq<Attempt>)
  {
    forall i :: 0 <= i < |attempts| ==>
      && attempts[i].strategy != Unknown
      && (attempts[i].strategy == DesyncBadCS ==> Worked(attempts[..i], attempts[i].key, Fragment))
      && (attempts[i].strategy == DesyncTTL ==> Worked(attempts[..i], attempts[i].key, DesyncBadCS))
  }

  ghost predicate CacheProven(s: World)
  {
    forall k :: k in Keys(s.slots) ==> ProvenSlot(s.attempts, k, Find(s.slots, k).strategy)
  }

  /** A cached strategy is a real one that worked for the key. */
  ghost predicate ProvenSlot(attempts: seq<Attempt>, key: string, strategy: Strategy)
  {
    strategy != Unknown && Worked(attempts, key, strategy)
  }

  ghost predicate CallProven(attempts: seq<Attempt>, c: Call)
  {
    match c.stage
    case Looking => true
    case First(s) => s == WrongSeq || ProvenSlot(attempts, c.key, s)
    case FirstFailed(s) => s == WrongSeq || ProvenSlot(attempts, c.key, s)
    case Second(s) => s == Fragment || s == WrongSeq || (s == DesyncBadCS && Worked(attempts, c.key, Fragment))
                      || (s == DesyncTTL && Worked(attempts, c.key, DesyncBadCS))
    case Succeeded(s) => ProvenSlot(attempts, c.key, s)
    case Saved(s) => ProvenSlot(attempts, c.key, s)
    case Returning(s) => ProvenSlot(attempts, c.key, s)
  }

  /** How many strategies a call has run, by stage: at most two, never the whole chain. */
  predicate AttemptsFit(stage: Stage, n: nat)
  {
    match stage
    case Looking => n == 0
    case First(_) => n == 0
    case FirstFailed(_) => n == 1
    case Second(_) => n == 1
    case _ => 1 <= n <= 2
  }

  function AttemptsOf(attempts: seq<Attempt>, id: nat): nat
  {
    if attempts == [] then 0 else
    AttemptsOf(attempts[..|attempts| - 1], id) + if attempts[|attempts| - 1].id == id then 1 else 0
  }

  ghost predicate Bounded(s: World, id: nat)
  {
    if id in s.calls then id < s.started && AttemptsFit(s.calls[id].stage, AttemptsOf(s.attempts, id))
    else AttemptsOf(s.attempts, id) <= if id < s.started then 2 else 0
  }

  /** Successful runs of a strategy. */
  function Successes(attempts: seq<Attempt>, t: Strategy): nat
  {
    if attempts == [] then 0 else
    var last := attempts[|attempts| - 1];
    Successes(attempts[..|attempts| - 1], t) + if last.ok && last.strategy == t then 1 else 0
  }

  /** Calls whose first strategy was t and failed. */
  function FirstFailures(attempts: seq<Attempt>, t: Strategy): nat
  {
    if attempts == [] then 0 else
    var init, last := attempts[..|attempts| - 1], attempts[|attempts| - 1];
    FirstFailures(init, t) + if !last.ok && last.strategy == t && AttemptsOf(init, last.id) == 0 then 1 else 0
  }

  /** How often a strategy was given back. */
  function TimesIn(returned: seq<Strategy>, t: Strategy): nat
  {
    if returned == [] then 0
    else TimesIn(returned[..|returned| - 1], t) + if returned[|returned| - 1] == t then 1 else 0
  }

  /** Calls in flight whose success with t is not yet recorded, or is recorded but not yet returned. */
  function AwaitingOk(s: World, t: Strategy): set<nat>
  {
    set id | id in s.calls && (s.calls[id].stage == Succeeded(t) || s.calls[id].stage == Saved(t))
  }

  function AwaitingReturn(s: World, t: Strategy): set<nat> { set id | id in s.calls && s.calls[id].stage == Returning(t) }

  /** Calls in flight whose first failure with t is not yet recorded. */
  function AwaitingFail(s: World, t: Strategy): set<nat> { set id | id in s.calls && s.calls[id].stage == FirstFailed(t) }

  /** The recorder and the outcomes of the calls, up to what is still in flight. */
  ghost predicate Accounted(s: World, t: Strategy)
  {
    && OkOf(s.counts, t) + |AwaitingOk(s, t)| == Successes(s.attempts, t)
    && OkOf(s.counts, t) == TimesIn(s.returned, t) + |AwaitingReturn(s, t)|
    && FailOf(s.counts, t) + |AwaitingFail(s, t)| == FirstFailures(s.attempts, t)
  }

  ghost predicate Invariant(s: World)
  {
    && Distinct(s.slots) && CacheProven(s) && Laddered(s.attempts)
    && (forall id :: id in s.calls ==> CallProven(s.attempts, s.calls[id]))
    && (forall id :: Bounded(s, id))
    && (forall t :: Accounted(s, t))
    && s.started == |s.returned| + s.errs + |s.calls|
  }

  // ---- every step keeps the invariant ----

  lemma WorkedGrows(attempts: seq<Attempt>, a: Attempt, key: string, strategy: Strategy)
    ensures Worked(attempts, key, strategy) ==> Worked(attempts + [a], key, strategy)
    ensures Ran(a, key, strategy) && a.ok ==> Worked(attempts + [a], key, strategy)
  {
    var more := attempts + [a];
    if Worked(attempts, key, strategy) {
      var i :| 0 <= i < |attempts| && Ran(attempts[i], key, strategy) && attempts[i].ok;
      assert more[i] == attempts[i];
    }
    assert more[|attempts|] == a;
  }

  /** What the next attempt of a call must satisfy, and does. */
  ghost predicate LadderAllows(attempts: seq<Attempt>, key: string, strategy: Strategy)
  {
    && strategy != Unknown
    && (strategy == DesyncBadCS ==> Worked(attempts, key, Fragment))
    && (strategy == DesyncTTL ==> Worked(attempts, key, DesyncBadCS))
  }

  lemma LadderedSnoc(attempts: seq<Attempt>, a: Attempt)
    requires Laddered(attempts) && LadderAllows(attempts, a.key, a.strategy)
    ensures Laddered(attempts + [a])
  {
    var more := attempts + [a];
    forall i | 0 <= i < |more|
      ensures LadderAllows(more[..i], more[i].key, more[i].strategy)
    {
      if i < |attempts| {
        assert more[..i] == attempts[..i] && more[i] == attempts[i];
      } else {
        assert more[..i] == attempts;
      }
    }
  }

  /** A strategy that worked was allowed, and so were the ones below it. */
  lemma WorkedWasAllowed(attempts: seq<Attempt>, key: string, strategy: Strategy)
    requires Laddered(attempts) && Worked(attempts, key, strategy)
    ensures LadderAllows(attempts, key, strategy)
  {
    var i :| 0 <= i < |attempts| && Ran(attempts[i], key, strategy) && attempts[i].ok;
    if strategy == DesyncBadCS { WorkedInPrefix(attempts, i, key, Fragment); }
    if strategy == DesyncTTL { WorkedInPrefix(attempts, i, key, DesyncBadCS); }
  }

  lemma WorkedInPrefix(attempts: seq<Attempt>, n: nat, key: string, strategy: Strategy)
    requires n <= |attempts| && Worked(attempts[..n], key, strategy)
    ensures Worked(attempts, key, strategy)
  {
    var i :| 0 <= i < |attempts[..n]| && Ran(attempts[..n][i], key, strategy) && attempts[..n][i].ok;
    assert attempts[i] == attempts[..n][i];
  }

  lemma NextAttemptAllowed(attempts: seq<Attempt>, c: Call)
    requires Laddered(attempts) && CallProven(attempts, c) && (c.stage.First? || c.stage.Second?)
    ensures LadderAllows(attempts, c.key, c.stage.s)
  {
    hide Worked, Laddered;
    if c.stage.First? && c.stage.s != WrongSeq { WorkedWasAllowed(attempts, c.key, c.stage.s); }
  }

  lemma AttemptsStep(s: World, e: Event)
    requires Enabled(s, e) && Invariant(s)
    ensures Laddered(Step(s, e).attempts)
  {
    hide Laddered, Worked, Bounded, FirstFailures, AttemptsOf, CacheProven;
    match e {
      case TryFirst(id, ok) =>
        var c := s.calls[id];
        NextAttemptAllowed(s.attempts, c);
        LadderedSnoc(s.attempts, Attempt(id, c.key, c.stage.s, ok));
      case TrySecond(id, ok) =>
        var c := s.calls[id];
        NextAttemptAllowed(s.attempts, c);
        LadderedSnoc(s.attempts, Attempt(id, c.key, c.stage.s, ok));
      case _ =>
    }
  }

  ghost predicate Extends(more: seq<Attempt>, attempts: seq<Attempt>)
  {
    more == attempts || exists a :: more == attempts + [a]
  }

  lemma ProvenGrows(attempts: seq<Attempt>, more: seq<Attempt>, key: string, strategy: Strategy)
    requires Extends(more, attempts) && Worked(attempts, key, strategy)
    ensures Worked(more, key, strategy)
  {
    if more != attempts {
      var a :| more == attempts + [a];
      WorkedGrows(attempts, a, key, strategy);
    }
  }

  lemma CallGrows(attempts: seq<Attempt>, more: seq<Attempt>, c: Call)
    requires Extends(more, attempts) && CallProven(attempts, c)
    ensures CallProven(more, c)
  {
    hide Worked, Extends;
    if !c.stage.Looking? && Worked(attempts, c.key, c.stage.s) { ProvenGrows(attempts, more, c.key, c.stage.s); }
    if Worked(attempts, c.key, Fragment) { ProvenGrows(attempts, more, c.key, Fragment); }
    if Worked(attempts, c.key, DesyncBadCS) { ProvenGrows(attempts, more, c.key, DesyncBadCS); }
  }

  lemma CacheStep(s: World, e: Event)
    requires Enabled(s, e) && Distinct(s.slots) && CacheProven(s)
    requires forall id :: id in s.calls ==> CallProven(s.attempts, s.calls[id])
    ensures Distinct(Step(s, e).slots) && CacheProven(Step(s, e))
  {
    hide Distinct, Keys, Find, Worked, AfterGet, AfterSet;
    var s' := Step(s, e);
    assert Extends(s'.attempts, s.attempts);
    match e {
      case Look(id, now) => AfterGetKeys(s.slots, s.calls[id].key, now);
      case Save(id, now) => AfterSetKeys(s.slots, CAPACITY, TTL, s.calls[id].key, s.calls[id].stage.s, now);
      case _ =>
    }
    forall k | k in Keys(s'.slots) ensures ProvenSlot(s'.attempts, k, Find(s'.slots, k).strategy) {
      if k in Keys(s.slots) && Find(s'.slots, k) == Find(s.slots, k) {
        ProvenGrows(s.attempts, s'.attempts, k, Find(s.slots, k).strategy);
      }
    }
  }

  lemma CallsStep(s: World, e: Event)
    requires Enabled(s, e) && Distinct(s.slots) && CacheProven(s)
    requires forall id :: id in s.calls ==> CallProven(s.attempts, s.calls[id])
    requires forall id :: id in s.calls ==> id < s.started
    ensures forall id :: id in Step(s, e).calls ==> CallProven(Step(s, e).attempts, Step(s, e).calls[id])
  {
    hide Distinct, Keys, Find, Worked, AfterGet, AfterSet;
    var s' := Step(s, e);
    assert Extends(s'.attempts, s.attempts);
    forall id | id in s'.calls ensures CallProven(s'.attempts, s'.calls[id]) {
      if id in s.calls {
        CallGrows(s.attempts, s'.attempts, s.calls[id]);
        if (e.TryFirst? || e.TrySecond?) && e.id == id && e.ok {
          var c := s.calls[id];
          WorkedGrows(s.attempts, Attempt(id, c.key, c.stage.s, true), c.key, c.stage.s);
        }
      }
    }
  }

  lemma AttemptsSnoc(attempts: seq<Attempt>, a: Attempt, id: nat, t: Strategy)
    ensures AttemptsOf(attempts + [a], id) == AttemptsOf(attempts, id) + if a.id == id then 1 else 0
    ensures Successes(attempts + [a], t) == Successes(attempts, t) + if a.ok && a.strategy == t then 1 else 0
    ensures FirstFailures(attempts + [a], t)
         == FirstFailures(attempts, t) + if !a.ok && a.strategy == t && AttemptsOf(attempts, a.id) == 0 then 1 else 0
  {
    assert (attempts + [a])[..|attempts|] == attempts;
  }

  lemma ReturnedSnoc(returned: seq<Strategy>, x: Strategy, t: Strategy)
    ensures TimesIn(returned + [x], t) == TimesIn(returned, t) + if x == t then 1 else 0
  {
    assert (returned + [x])[..|returned|] == returned;
  }

  lemma BoundStep(s: World, e: Event)
    requires Enabled(s, e) && forall id :: Bounded(s, id)
    ensures forall id :: Bounded(Step(s, e), id)
  {
    hide AttemptsOf, FirstFailures, Successes, Record, AfterGet, AfterSet;
    var s' := Step(s, e);
    forall id ensures Bounded(s', id) {
      assert Bounded(s, id);
      if e.TryFirst? || e.TrySecond? {
        assert Bounded(s, e.id);
        var c := s.calls[e.id];
        AttemptsSnoc(s.attempts, Attempt(e.id, c.key, c.stage.s, e.ok), id, c.stage.s);
      }
    }
  }

  /** The event is a step of a call that is running, or has just run, strategy t. */
  predicate On(s: World, e: Event, t: Strategy)
    requires Enabled(s, e)
  {
    !e.Start? && !e.Look? && s.calls[e.id].stage.s == t
  }

  function One(b: bool): nat { if b then 1 else 0 }

  predicate Succeeds(e: Event) { (e.TryFirst? || e.TrySecond?) && e.ok }

  predicate FailsFirst(e: Event) { e.TryFirst? && !e.ok }

  // Where calls enter and leave the sets the counters are short by.

  lemma AwaitingOkStep(s: World, e: Event, t: Strategy)
    requires Enabled(s, e) && s.started !in s.calls
    ensures AwaitingOk(Step(s, e), t) == if On(s, e, t) && Succeeds(e) then AwaitingOk(s, t) + {e.id}
                                         else if On(s, e, t) && e.NoteOk? then AwaitingOk(s, t) - {e.id}
                                         else AwaitingOk(s, t)
  {
    hide AfterGet, AfterSet, Lookup, Record, Next;
  }

  lemma AwaitingReturnStep(s: World, e: Event, t: Strategy)
    requires Enabled(s, e) && s.started !in s.calls
    ensures AwaitingReturn(Step(s, e), t) == if On(s, e, t) && e.NoteOk? then AwaitingReturn(s, t) + {e.id}
                                             else if On(s, e, t) && e.Return? then AwaitingReturn(s, t) - {e.id}
                                             else AwaitingReturn(s, t)
  {
    hide AfterGet, AfterSet, Lookup, Record, Next;
  }

  lemma AwaitingFailStep(s: World, e: Event, t: Strategy)
    requires Enabled(s, e) && s.started !in s.calls
    ensures AwaitingFail(Step(s, e), t) == if On(s, e, t) && FailsFirst(e) then AwaitingFail(s, t) + {e.id}
                                           else if On(s, e, t) && e.NoteFail? then AwaitingFail(s, t) - {e.id}
                                           else AwaitingFail(s, t)
  {
    hide AfterGet, AfterSet, Lookup, Record, Next;
  }

  lemma AwaitingMembers(s: World, e: Event, t: Strategy)
    requires Enabled(s, e)
    ensures !e.Start? ==> (e.id in AwaitingOk(s, t) <==> On(s, e, t) && (e.Save? || e.NoteOk?))
    ensures !e.Start? ==> (e.id in AwaitingReturn(s, t) <==> On(s, e, t) && e.Return?)
    ensures !e.Start? ==> (e.id in AwaitingFail(s, t) <==> On(s, e, t) && e.NoteFail?)
  {
  }

  lemma HistoryStep(s: World, e: Event, t: Strategy)
    requires Enabled(s, e) && forall id :: Bounded(s, id)
    ensures var s', on := Step(s, e), On(s, e, t);
            && Successes(s'.attempts, t) == Successes(s.attempts, t) + One(on && Succeeds(e))
            && FirstFailures(s'.attempts, t) == FirstFailures(s.attempts, t) + One(on && FailsFirst(e))
  {
    hide AttemptsOf, FirstFailures, Successes, AfterGet, AfterSet, Lookup, Record, Next;
    if e.TryFirst? || e.TrySecond? {
      assert Bounded(s, e.id);
      var c := s.calls[e.id];
      AttemptsSnoc(s.attempts, Attempt(e.id, c.key, c.stage.s, e.ok), e.id, t);
    }
  }

  lemma CountersStep(s: World, e: Event, t: Strategy)
    requires Enabled(s, e)
    ensures var s', on := Step(s, e), On(s, e, t);
            && OkOf(s'.counts, t) == OkOf(s.counts, t) + One(on && e.NoteOk?)
            && FailOf(s'.counts, t) == FailOf(s.counts, t) + One(on && e.NoteFail?)
            && TimesIn(s'.returned, t) == TimesIn(s.returned, t) + One(on && e.Return?)
  {
    hide AfterGet, AfterSet, Lookup, Record, Next, OkOf, FailOf, TimesIn;
    match e {
      case NoteFail(id) => RecordAddsOne(s.counts, s.calls[id].stage.s, false, t);
      case NoteOk(id) => RecordAddsOne(s.counts, s.calls[id].stage.s, true, t);
      case Return(id) => ReturnedSnoc(s.returned, s.calls[id].stage.s, t);
      case _ =>
    }
  }

  lemma AwaitingSizes(s: World, e: Event, t: Strategy)
    requires Enabled(s, e) && s.started !in s.calls
    ensures var s', on := Step(s, e), On(s, e, t);
            && |AwaitingOk(s', t)| == |AwaitingOk(s, t)| + One(on && Succeeds(e)) - One(on && e.NoteOk?)
            && |AwaitingReturn(s', t)| == |AwaitingReturn(s, t)| + One(on && e.NoteOk?) - One(on && e.Return?)
            && |AwaitingFail(s', t)| == |AwaitingFail(s, t)| + One(on && FailsFirst(e)) - One(on && e.NoteFail?)
  {
    hide Step, Enabled, AwaitingOk, AwaitingReturn, AwaitingFail, On;
    AwaitingMembers(s, e, t);
    AwaitingOkStep(s, e, t);
    AwaitingReturnStep(s, e, t);
    AwaitingFailStep(s, e, t);
  }

  lemma AccountsStep(s: World, e: Event, t: Strategy)
    requires Enabled(s, e) && (forall id :: Bounded(s, id)) && Accounted(s, t)
    ensures Accounted(Step(s, e), t)
  {
    assert Bounded(s, s.started);
    hide Step, Enabled, FirstFailures, Successes, TimesIn, OkOf, FailOf, AwaitingOk, AwaitingReturn, AwaitingFail, On,
         Bounded, Succeeds, FailsFirst;
    AwaitingSizes(s, e, t);
    HistoryStep(s, e, t);
    CountersStep(s, e, t);
  }

  predicate Ends(e: Event) { e.Return? || (e.TrySecond? && !e.ok) }

  lemma CallsChange(s: World, e: Event)
    requires Enabled(s, e)
    ensures Step(s, e).calls.Keys == if e.Start? then s.calls.Keys + {s.started}
                                     else if Ends(e) then s.calls.Keys - {e.id} else s.calls.Keys
    ensures !e.Start? ==> e.id in s.calls.Keys
  {
    hide AttemptsOf, AfterGet, AfterSet, Lookup, Record, Next;
  }

  lemma ReturnsChange(s: World, e: Event)
    requires Enabled(s, e)
    ensures var s' := Step(s, e);
            && |s'.returned| + s'.errs == |s.returned| + s.errs + One(Ends(e))
            && s'.started == s.started + One(e.Start?)
  {
    hide AttemptsOf, AfterGet, AfterSet, Lookup, Record, Next;
  }

  lemma CallCountStep(s: World, e: Event)
    requires Enabled(s, e) && (forall id :: Bounded(s, id)) && s.started == |s.returned| + s.errs + |s.calls|
    ensures var s' := Step(s, e); s'.started == |s'.returned| + s'.errs + |s'.calls|
  {
    assert Bounded(s, s.started);
    hide Step, Enabled, Bounded;
    CallsChange(s, e);
    ReturnsChange(s, e);
    assert |s.calls| == |s.calls.Keys| && |Step(s, e).calls| == |Step(s, e).calls.Keys|;
  }

  lemma StepKeepsInvariant(s: World, e: Event)
    requires Enabled(s, e) && Invariant(s)
    ensures Invariant(Step(s, e))
  {
    hide Step, CacheProven, Laddered, CallProven, Enabled, Accounted;
    AttemptsStep(s, e);
    forall id | id in s.calls ensures id < s.started { assert Bounded(s, id); }
    CacheStep(s, e);
    CallsStep(s, e);
    BoundStep(s, e);
    forall t ensures Accounted(Step(s, e), t) { AccountsStep(s, e, t); }
    CallCountStep(s, e);
  }

  lemma NothingAwaits(s: World, t: Strategy)
    requires s.calls == map[]
    ensures |AwaitingOk(s, t)| == |AwaitingReturn(s, t)| == |AwaitingFail(s, t)| == 0
  {
    assert AwaitingOk(s, t) == {} && AwaitingReturn(s, t) == {} && AwaitingFail(s, t) == {};
  }

  /** The invariant holds after every interleaving of any number of calls. */
  lemma {:induction false} RunKeepsInvariant(es: seq<Event>)
    ensures Invariant(Run(es))
  {
    if es == [] {
      forall t ensures Accounted(INITIAL, t) { NothingAwaits(INITIAL, t); }
    } else {
      hide Invariant, Step, Enabled;
      RunKeepsInvariant(es[..|es| - 1]);
      var s := Run(es[..|es| - 1]);
      if Enabled(s, es[|es| - 1]) { StepKeepsInvariant(s, es[|es| - 1]); }
    }
  }

  /** A cached strategy is one of the four real ones and has succeeded for its key. */
  lemma CachedHasWorked(es: seq<Event>, key: string, now: int)
    requires Lookup(Run(es).slots, key, now).Hit?
    ensures var hit := Lookup(Run(es).slots, key, now).strategy;
            hit != Unknown && Worked(Run(es).attempts, key, hit)
  {
    hide Run, Laddered, Worked, Bounded;
    RunKeepsInvariant(es);
  }

  /** desync_bad_cs is run for a key only after fragment succeeded for it, desync_ttl only after desync_bad_cs. */
  lemma DesyncIsEarned(es: seq<Event>, i: nat)
    requires i < |Run(es).attempts|
    ensures var a := Run(es).attempts;
            && (a[i].strategy == DesyncBadCS ==> Worked(a[..i], a[i].key, Fragment))
            && (a[i].strategy == DesyncTTL ==> Worked(a[..i], a[i].key, DesyncBadCS) && Worked(a[..i], a[i].key, Fragment))
  {
    hide Run, Worked, Bounded, CacheProven;
    RunKeepsInvariant(es);
    var a := Run(es).attempts;
    if a[i].strategy == DesyncTTL {
      LadderedPrefix(a, i);
      WorkedWasAllowed(a[..i], a[i].key, DesyncBadCS);
    }
  }

  lemma LadderedPrefix(attempts: seq<Attempt>, n: nat)
    requires n <= |attempts| && Laddered(attempts)
    ensures Laddered(attempts[..n])
  {
    forall i | 0 <= i < n ensures attempts[..n][..i] == attempts[..i] {}
  }

  /** No call runs more than two strategies. */
  lemma AtMostTwoAttempts(es: seq<Event>, id: nat)
    ensures AttemptsOf(Run(es).attempts, id) <= 2
  {
    hide Run, CacheProven, Laddered;
    RunKeepsInvariant(es);
    assert Bounded(Run(es), id);
  }

  /**
   With no call in flight the recorder is exact for every strategy: its successes are the successful
   runs, each given back by one call, and its failures the calls it failed as the first strategy.
   */
  lemma RecorderIsExact(es: seq<Event>, t: Strategy)
    requires Run(es).calls == map[]
    ensures var s := Run(es);
            && OkOf(s.counts, t) == Successes(s.attempts, t) == TimesIn(s.returned, t)
            && FailOf(s.counts, t) == FirstFailures(s.attempts, t)
            && (t == Unknown ==> OkOf(s.counts, t) == FailOf(s.counts, t) == 0)
  {
    hide Run, CacheProven, Bounded, OkOf, FailOf, Successes, FirstFailures, TimesIn;
    RunKeepsInvariant(es);
    assert Accounted(Run(es), t);
    NothingAwaits(Run(es), t);
    if t == Unknown { UnknownNeverRuns(Run(es).attempts); }
  }

  lemma {:induction false} UnknownNeverRuns(attempts: seq<Attempt>)
    requires Laddered(attempts)
    ensures Successes(attempts, Unknown) == FirstFailures(attempts, Unknown) == 0
  {
    hide Worked;
    if attempts != [] {
      LadderedPrefix(attempts, |attempts| - 1);
      UnknownNeverRuns(attempts[..|attempts| - 1]);
    }
  }

  function Total(f: Strategy -> nat): nat { f(WrongSeq) + f(Fragment) + f(DesyncBadCS) + f(DesyncTTL) + f(Unknown) }

  lemma {:induction false} TimesTotal(returned: seq<Strategy>)
    ensures Total(t => TimesIn(returned, t)) == |returned|
  {
    if returned != [] { TimesTotal(returned[..|returned| - 1]); }
  }

  /** So the recorded successes of all strategies are the calls that returned without an error. */
  lemma RecordedTotal(es: seq<Event>)
    requires Run(es).calls == map[]
    ensures var s := Run(es);
            && Total(t => OkOf(s.counts, t)) == |s.returned|
            && Total(t => FailOf(s.counts, t)) == Total(t => FirstFailures(s.attempts, t))
            && s.started == |s.returned| + s.errs
  {
    hide Run, CacheProven, Laddered, Bounded, Accounted, OkOf, FailOf, Successes, FirstFailures, TimesIn;
    RunKeepsInvariant(es);
    forall t ensures OkOf(Run(es).counts, t) == TimesIn(Run(es).returned, t)
    ensures FailOf(Run(es).counts, t) == FirstFailures(Run(es).attempts, t) {
      RecorderIsExact(es, t);
    }
    TimesTotal(Run(es).returned);
  }

  // ---- what a second run follows ----

  ghost predicate HasFailed(attempts: seq<Attempt>, id: nat, key: string, first: Strategy)
  {
    exists j :: 0 <= j < |attempts| && attempts[j] == Attempt(id, key, first, false)
  }

  /** A failed run of the same call for the same key, of the strategy before this one. */
  ghost predicate FollowsFailure(attempts: seq<Attempt>, id: nat, key: string, second: Strategy)
  {
    exists first :: HasFailed(attempts, id, key, first) && Follows(first, second)
  }

  ghost predicate SecondsFollow(attempts: seq<Attempt>)
  {
    forall i :: 0 <= i < |attempts| && AttemptsOf(attempts[..i], attempts[i].id) == 1 ==>
      FollowsFailure(attempts[..i], attempts[i].id, attempts[i].key, attempts[i].strategy)
  }

  ghost predicate Chained(attempts: seq<Attempt>, id: nat, c: Call)
  {
    match c.stage
    case FirstFailed(s) => HasFailed(attempts, id, c.key, s)
    case Second(s) => FollowsFailure(attempts, id, c.key, s)
    case _ => true
  }

  ghost predicate AllChained(s: World) { forall id :: id in s.calls ==> Chained(s.attempts, id, s.calls[id]) }

  lemma FailureGrows(attempts: seq<Attempt>, a: Attempt, id: nat, key: string, first: Strategy)
    ensures HasFailed(attempts, id, key, first) ==> HasFailed(attempts + [a], id, key, first)
    ensures a == Attempt(id, key, first, false) ==> HasFailed(attempts + [a], id, key, first)
  {
    var more := attempts + [a];
    if HasFailed(attempts, id, key, first) {
      var j :| 0 <= j < |attempts| && attempts[j] == Attempt(id, key, first, false);
      assert more[j] == attempts[j];
    }
    assert more[|attempts|] == a;
  }

  lemma ChainGrows(attempts: seq<Attempt>, more: seq<Attempt>, id: nat, c: Call)
    requires Extends(more, attempts) && Chained(attempts, id, c)
    ensures Chained(more, id, c)
  {
    hide HasFailed, Follows;
    if more != attempts {
      var a :| more == attempts + [a];
      match c.stage {
        case FirstFailed(x) => FailureGrows(attempts, a, id, c.key, x);
        case Second(x) =>
          var first :| HasFailed(attempts, id, c.key, first) && Follows(first, x);
          FailureGrows(attempts, a, id, c.key, first);
        case _ =>
      }
    }
  }

  lemma ChainStep(s: World, e: Event)
    requires Enabled(s, e) && AllChained(s)
    requires forall id :: id in s.calls ==> CallProven(s.attempts, s.calls[id])
    ensures AllChained(Step(s, e))
  {
    hide HasFailed, Follows, Worked, AfterGet, AfterSet, Lookup, Record, Next;
    var s' := Step(s, e);
    assert Extends(s'.attempts, s.attempts);
    forall id | id in s'.calls ensures Chained(s'.attempts, id, s'.calls[id]) {
      if id in s.calls { ChainGrows(s.attempts, s'.attempts, id, s.calls[id]); }
      if e.TryFirst? && e.id == id && !e.ok {
        var c := s.calls[id];
        FailureGrows(s.attempts, Attempt(id, c.key, c.stage.s, false), id, c.key, c.stage.s);
      }
      if e.NoteFail? && e.id == id { NextFollows(s.calls[id].stage.s); }
    }
  }

  lemma SecondsSnoc(attempts: seq<Attempt>, a: Attempt)
    requires SecondsFollow(attempts)
    requires AttemptsOf(attempts, a.id) == 1 ==> FollowsFailure(attempts, a.id, a.key, a.strategy)
    ensures SecondsFollow(attempts + [a])
  {
    hide FollowsFailure, AttemptsOf;
    var more := attempts + [a];
    forall i | 0 <= i < |more| && AttemptsOf(more[..i], more[i].id) == 1
      ensures FollowsFailure(more[..i], more[i].id, more[i].key, more[i].strategy)
    {
      if i < |attempts| {
        assert more[..i] == attempts[..i] && more[i] == attempts[i];
      } else {
        assert more[..i] == attempts;
      }
    }
  }

  lemma SecondsStep(s: World, e: Event)
    requires Enabled(s, e) && AllChained(s) && SecondsFollow(s.attempts) && forall id :: Bounded(s, id)
    ensures SecondsFollow(Step(s, e).attempts)
  {
    hide SecondsFollow, FollowsFailure, HasFailed, AttemptsOf, AfterGet, AfterSet, Lookup, Record, Next;
    if e.TryFirst? || e.TrySecond? {
      assert Bounded(s, e.id);
      var c := s.calls[e.id];
      assert Chained(s.attempts, e.id, c);
      SecondsSnoc(s.attempts, Attempt(e.id, c.key, c.stage.s, e.ok));
    }
  }

  /**
   After every interleaving a call's second run uses the one strategy that follows the one its first
   run failed with, for the same key.
   */
  lemma {:induction false} SecondFollowsFirst(es: seq<Event>)
    ensures SecondsFollow(Run(es).attempts) && AllChained(Run(es))
  {
    if es != [] {
      hide SecondsFollow, AllChained, Step, Enabled, CacheProven, Laddered, CallProven, Bounded, Accounted;
      var init := es[..|es| - 1];
      SecondFollowsFirst(init);
      RunKeepsInvariant(init);
      if Enabled(Run(init), es[|es| - 1]) {
        ChainStep(Run(init), es[|es| - 1]);
        SecondsStep(Run(init), es[|es| - 1]);
      }
    }
  }

  // ---- one call, start to end ----

  class Recorder {
    var strategies: map<Strategy, Counts>

    constructor ()
      ensures strategies == map[]
    {
      strategies := map[];
    }

    method RecordBypassStrategy(s: Strategy, ok: bool)
      modifies this
      ensures strategies == Record(old(strategies), s, ok)
      ensures forall t :: OkOf(strategies, t) == OkOf(old(strategies), t) + One(ok && t == s)
      ensures forall t :: FailOf(strategies, t) == FailOf(old(strategies), t) + One(!ok && t == s)
    {
      forall t ensures OkOf(Record(strategies, s, ok), t) == OkOf(strategies, t) + One(ok && t == s)
      ensures FailOf(Record(strategies, s, ok), t) == FailOf(strategies, t) + One(!ok && t == s) {
        RecordAddsOne(strategies, s, ok, t);
      }
      hide OkOf, FailOf;
      if s !in strategies { strategies := strategies[s := Counts(0, 0)]; }
      var c := strategies[s];
      if ok {
        strategies := strategies[s := c.(ok := c.ok + 1)];
      } else {
        strategies := strategies[s := c.(fail := c.fail + 1)];
      }
    }
  }

  datatype Effect = Effect(slots: seq<Slot>, counts: map<Strategy, Counts>, strategy: Strategy, failed: bool)

  /** What a call does on its own, given how its first and second strategy end. */
  function InjectAlone(slots: seq<Slot>, counts: map<Strategy, Counts>, key: string, now: int,
                       firstOk: bool, secondOk: bool, later: int): Effect
  {
    var hit := Lookup(slots, key, now);
    var first := if hit.Hit? then hit.strategy else WrongSeq;
    var second := Next(first);
    var looked := AfterGet(slots, key, now);
    if firstOk then
      Effect(AfterSet(looked, CAPACITY, TTL, key, first, later), Record(counts, first, true), first, false)
    else if secondOk then
      Effect(AfterSet(looked, CAPACITY, TTL, key, second, later),
             Record(Record(counts, first, false), second, true), second, false)
    else
      Effect(looked, Record(counts, first, false), first, true)
  }

  /**
   In plain words: the first run uses the cached strategy or else wrong_seq, the second the one that
   follows it; a success is returned and found in the cache for ten minutes; a failure returns the
   first strategy and an error; each run is counted as it ended, but for the second failure.
   */
  lemma InjectOutcome(slots: seq<Slot>, counts: map<Strategy, Counts>, key: string, now: int,
                      firstOk: bool, secondOk: bool, later: int, t: int, at: Strategy)
    ensures var r := InjectAlone(slots, counts, key, now, firstOk, secondOk, later);
            var hit := Lookup(slots, key, now);
            var first := if hit.Hit? then hit.strategy else WrongSeq;
            && (r.failed <==> !firstOk && !secondOk)
            && (firstOk || r.failed ==> r.strategy == first)
            && (!firstOk && secondOk && first != Unknown ==> Follows(first, r.strategy))
            && (!r.failed ==> Lookup(r.slots, key, t) == if t <= later + 600_000_000_000 then Hit(r.strategy) else Miss)
            && OkOf(r.counts, at) == OkOf(counts, at) + One(!r.failed && at == r.strategy)
            && FailOf(r.counts, at) == FailOf(counts, at) + One(!firstOk && at == first)
  {
    hide AfterGet, Trimmed, Without, Record, OkOf, FailOf, Next;
    var hit := Lookup(slots, key, now);
    var first := if hit.Hit? then hit.strategy else WrongSeq;
    if first != Unknown { NextFollows(first); }
    RecordAddsOne(counts, first, firstOk, at);
    RecordAddsOne(Record(counts, first, false), Next(first), true, at);
  }

  /** The cache stays within 4096 keys, and below that a call drops no key but its own. */
  lemma InjectKeepsRoom(slots: seq<Slot>, counts: map<Strategy, Counts>, key: string, now: int,
                        firstOk: bool, secondOk: bool, later: int)
    requires Distinct(slots) && |slots| <= 4096
    ensures var r := InjectAlone(slots, counts, key, now, firstOk, secondOk, later);
            |r.slots| <= 4096 && (|slots| < 4096 ==> Keys(slots) - {key} <= Keys(r.slots))
  {
    hide AfterGet, AfterSet, Record, Lookup, Distinct, Keys;
    var hit := Lookup(slots, key, now);
    var first := if hit.Hit? then hit.strategy else WrongSeq;
    var looked := AfterGet(slots, key, now);
    AfterGetKeys(slots, key, now);
    AfterGetRoom(slots, key, now);
    AfterSetRoom(looked, CAPACITY, TTL, key, first, later);
    AfterSetRoom(looked, CAPACITY, TTL, key, Next(first), later);
  }

  method Inject(cache: Cache, recorder: Recorder, key: string, now: int, firstOk: bool, secondOk: bool, later: int)
    returns (strategy: Strategy, failed: bool)
    requires cache.Valid() && cache.cap == CAPACITY && cache.ttl == TTL
    modifies cache, cache.order, recorder
    ensures cache.Valid()
    ensures Effect(View(cache.order), recorder.strategies, strategy, failed)
         == InjectAlone(old(View(cache.order)), old(recorder.strategies), key, now, firstOk, secondOk, later)
  {
    hide AfterGet, AfterSet, Lookup, View, Record;
    strategy := WrongSeq;
    var cached, ok := cache.Get(key, now);
    if ok { strategy := cached; }
    if !firstOk {
      recorder.RecordBypassStrategy(strategy, false);
      var next := Next(strategy);
      if next != strategy {
        if secondOk {
          cache.Set(key, next, later);
          recorder.RecordBypassStrategy(next, true);
          return next, false;
        }
      }
      return strategy, true;
    }
    cache.Set(key, strategy, later);
    recorder.RecordBypassStrategy(strategy, true);
    return strategy, false;
  }

  lemma ExecSnoc(s: World, es: seq<Event>, e: Event)
    requires Enabled(Exec(s, es), e)
    ensures Exec(s, es + [e]) == Step(Exec(s, es), e)
  {
    assert (es + [e])[..|es|] == es;
  }

  /** The last three steps of a successful call. */
  lemma FinishRun(w: World, es: seq<Event>, id: nat, later: int) returns (more: seq<Event>)
    requires id in Exec(w, es).calls && Exec(w, es).calls[id].stage.Succeeded?
    ensures var v := Exec(w, es); var c := v.calls[id];
            Exec(w, more) == v.(slots := AfterSet(v.slots, CAPACITY, TTL, c.key, c.stage.s, later),
                                calls := v.calls - {id}, counts := Record(v.counts, c.stage.s, true),
                                returned := v.returned + [c.stage.s])
  {
    hide AfterSet, Exec, Record;
    ExecSnoc(w, es, Save(id, later));
    more := es + [Save(id, later)];
    ExecSnoc(w, more, NoteOk(id));
    more := more + [NoteOk(id)];
    ExecSnoc(w, more, Return(id));
    more := more + [Return(id)];
  }

  /** The cache lookup of a call, from any world. */
  lemma BeginRun(w: World, key: string, now: int) returns (es: seq<Event>)
    ensures var hit := Lookup(w.slots, key, now);
            Exec(w, es) == w.(slots := AfterGet(w.slots, key, now), started := w.started + 1,
                              calls := w.calls[w.started := Call(key, First(if hit.Hit? then hit.strategy else WrongSeq))])
  {
    assert Exec(w, []) == w;
    hide AfterGet, Lookup, Exec;
    ExecSnoc(w, [], Start(key));
    es := [] + [Start(key)];
    ExecSnoc(w, es, Look(w.started, now));
    es := es + [Look(w.started, now)];
  }

  /** From any world a call running alone is a run of the machine with exactly the effect of Inject. */
  lemma InjectIsARun(w: World, key: string, now: int, firstOk: bool, secondOk: bool, later: int) returns (es: seq<Event>)
    requires w.started !in w.calls
    ensures var w' := Exec(w, es); var r := InjectAlone(w.slots, w.counts, key, now, firstOk, secondOk, later);
            && w'.slots == r.slots && w'.counts == r.counts && w'.calls == w.calls && w'.started == w.started + 1
            && w'.returned == w.returned + (if r.failed then [] else [r.strategy])
            && w'.errs == w.errs + (if r.failed then 1 else 0)
  {
    hide AfterGet, AfterSet, Record, Lookup, Exec, Next;
    var id := w.started;
    es := BeginRun(w, key, now);
    ExecSnoc(w, es, TryFirst(id, firstOk));
    es := es + [TryFirst(id, firstOk)];
    if !firstOk {
      ExecSnoc(w, es, NoteFail(id));
      es := es + [NoteFail(id)];
      ExecSnoc(w, es, TrySecond(id, secondOk));
      es := es + [TrySecond(id, secondOk)];
    }
    if firstOk || secondOk { es := FinishRun(w, es, id, later); }
    assert Exec(w, es).calls == w.calls;
  }
}
